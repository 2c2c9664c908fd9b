/** The free stacks of lib/stack.c.  A stack is a size and a top address; the
    link to the element below is kept in the first word of the element's own
    page, which the code reaches by mapping it into a scratch page.  Several
    stacks share that memory. */
module Stacks {
  import opened Words

  /** struct stack */
  datatype Stack = Stack(size: nat, top: nat)

  /** The page whose first word holds the link of an element. */
  function PageOf(address: nat): nat {
    address / PAGE_SIZE
  }

  function Top(s: seq<nat>): nat {
    if s == [] then 0 else s[|s| - 1]
  }

  /** st and the links spell out the sequence s, newest element last. */
  ghost predicate Spells(words: map<nat, nat>, st: Stack, s: seq<nat>) {
    && st.size == |s| && st.top == Top(s)
    && (forall i :: 0 <= i < |s| ==> PageOf(s[i]) in words && words[PageOf(s[i])] == Top(s[..i]))
  }

  datatype Place = Place(stack: nat, index: nat)

  /** Every element knows its place by its page, so no page is an element twice,
      in one stack or in two. */
  ghost predicate Placed(contents: seq<seq<nat>>, place: map<nat, Place>) {
    forall k, i :: 0 <= k < |contents| && 0 <= i < |contents[k]| ==>
      PageOf(contents[k][i]) in place && place[PageOf(contents[k][i])] == Place(k, i)
  }

  ghost predicate PageFree(contents: seq<seq<nat>>, page: nat) {
    forall k, i :: 0 <= k < |contents| && 0 <= i < |contents[k]| ==> PageOf(contents[k][i]) != page
  }

  lemma PagesDistinct(contents: seq<seq<nat>>, place: map<nat, Place>, k: nat, i: nat, l: nat, j: nat)
    requires Placed(contents, place)
    requires k < |contents| && i < |contents[k]| && l < |contents| && j < |contents[l]|
    requires PageOf(contents[k][i]) == PageOf(contents[l][j])
    ensures k == l && i == j
  {}

  class Stacks {
    var words: map<nat, nat>            // the first word of each page
    var stacks: seq<Stack>
    ghost var contents: seq<seq<nat>>
    ghost var place: map<nat, Place>

    ghost predicate Valid()
      reads this
    {
      && |stacks| == |contents| && Placed(contents, place)
      && forall k :: 0 <= k < |contents| ==> Spells(words, stacks[k], contents[k])
    }

    lemma SizeIsLength(k: nat)
      requires Valid() && k < |contents|
      ensures |stacks| == |contents| && stacks[k].size == |contents[k]|
    {}

    /** stack_init on each of n stacks. */
    constructor (n: nat)
      ensures Valid() && contents == seq(n, _ => [])
    {
      words := map[];
      stacks := seq(n, _ => Stack(0, 0));
      contents := seq(n, _ => []);
      place := map[];
    }

    method Push(k: nat, address: nat)
      requires Valid() && k < |contents| && PageFree(contents, PageOf(address))
      modifies this
      ensures Valid() && contents == old(contents)[k := old(contents)[k] + [address]]
    {
      ghost var was := contents[k];
      contents := contents[k := was + [address]];
      place := place[PageOf(address) := Place(k, |was|)];
      PushSpells(words, stacks[k], was, address);
      forall l | 0 <= l < |contents| && l != k
        ensures Spells(words[PageOf(address) := stacks[k].top], stacks[l], contents[l])
      {
        assert contents[l] == old(contents)[l];
        OtherSpells(words, stacks[l], contents[l], PageOf(address), stacks[k].top);
      }
      hide Spells;
      words := words[PageOf(address) := stacks[k].top];
      stacks := stacks[k := Stack(stacks[k].size + 1, address)];
    }

    /** 0 for an empty stack; 0 is also a legal element. */
    method Pop(k: nat) returns (address: nat)
      requires Valid() && k < |contents|
      modifies this
      ensures Valid() && address == Top(old(contents)[k])
      ensures contents == if old(contents)[k] == [] then old(contents)
                          else old(contents)[k := old(contents)[k][..|old(contents)[k]| - 1]]
      ensures old(contents)[k] != [] ==> PageFree(contents, PageOf(address))
    {
      if stacks[k].size == 0 {
        return 0;
      }
      address := stacks[k].top;
      PopSpells(words, stacks[k], contents[k]);
      forall l, i | 0 <= l < |contents| && 0 <= i < |contents[l]| && PageOf(contents[l][i]) == PageOf(address)
        ensures l == k && i == |contents[k]| - 1
      {
        PagesDistinct(contents, place, l, i, k, |contents[k]| - 1);
      }
      hide Spells;
      stacks := stacks[k := Stack(stacks[k].size - 1, words[PageOf(address)])];
      contents := contents[k := contents[k][..|contents[k]| - 1]];
    }

    /** Whoever owns a page that is in no stack may write its first word. */
    method Scribble(page: nat, word: nat)
      requires Valid() && PageFree(contents, page)
      modifies `words
      ensures Valid()
    {
      forall k | 0 <= k < |contents|
        ensures Spells(words[page := word], stacks[k], contents[k])
      {
        OtherSpells(words, stacks[k], contents[k], page, word);
      }
      words := words[page := word];
    }
  }

  lemma PushSpells(words: map<nat, nat>, st: Stack, s: seq<nat>, address: nat)
    requires Spells(words, st, s)
    requires forall i :: 0 <= i < |s| ==> PageOf(s[i]) != PageOf(address)
    ensures Spells(words[PageOf(address) := st.top], Stack(st.size + 1, address), s + [address])
  {
    var t := s + [address];
    forall i | 0 <= i < |t|
      ensures t[..i] == if i < |s| then s[..i] else s
    {
    }
  }

  lemma OtherSpells(words: map<nat, nat>, st: Stack, s: seq<nat>, page: nat, word: nat)
    requires Spells(words, st, s)
    requires forall i :: 0 <= i < |s| ==> PageOf(s[i]) != page
    ensures Spells(words[page := word], st, s)
  {}

  lemma PopSpells(words: map<nat, nat>, st: Stack, s: seq<nat>)
    requires Spells(words, st, s) && st.size > 0
    ensures s != [] && PageOf(st.top) in words
    ensures Spells(words, Stack(st.size - 1, words[PageOf(st.top)]), s[..|s| - 1])
  {
    var t := s[..|s| - 1];
    forall i | 0 <= i < |t|
      ensures t[..i] == s[..i]
    {
    }
  }
}
