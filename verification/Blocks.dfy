/** Blocks of 2^order bytes and what it means for a set of them to tile an area
    of memory exactly. */
module Blocks {
  import opened Arithmetic
  import opened Bits
  import opened Stacks
  import opened Words

  datatype Block = Block(addr: nat, order: nat)

  function Len(b: Block): nat {
    Pow2(b.order)
  }

  predicate In(b: Block, x: nat) {
    b.addr <= x < b.addr + Len(b)
  }

  ghost function Range(b: Block): iset<nat> {
    iset x: nat | In(b, x)
  }

  predicate Apart(b: Block, c: Block) {
    b.addr + Len(b) <= c.addr || c.addr + Len(c) <= b.addr
  }

  predicate Aligned(b: Block) {
    b.addr % Len(b) == 0
  }

  ghost predicate Disjoint(s: set<Block>) {
    forall b, c :: b in s && c in s && b != c ==> Apart(b, c)
  }

  ghost predicate Covers(s: set<Block>, x: nat) {
    exists b :: b in s && In(b, x)
  }

  /** Every byte of the area is in exactly one block, and no other byte is. */
  ghost predicate Tiles(s: set<Block>, area: iset<nat>) {
    Disjoint(s) && forall x: nat :: x in area <==> Covers(s, x)
  }

  /** BUDDY_ADDRESS */
  function BuddyOf(addr: nat, order: nat): nat {
    Xor(addr, Pow2(order))
  }

  lemma ApartIff(b: Block, c: Block)
    ensures Apart(b, c) <==> !exists x: nat :: In(b, x) && In(c, x)
  {
    if !Apart(b, c) {
      var x := if b.addr < c.addr then c.addr else b.addr;
      assert In(b, x) && In(c, x);
    }
  }

  /** The upper half of an aligned block is what BUDDY_ADDRESS names. */
  lemma UpperHalf(addr: nat, k: nat)
    requires addr % Pow2(k + 1) == 0
    ensures BuddyOf(addr, k) == addr + Pow2(k)
    ensures addr % Pow2(k) == 0 && (addr + Pow2(k)) % Pow2(k) == 0
  {
    hide Xor, Shr;
    EvenMultiple(addr, Pow2(k));
    XorBit(addr, k);
    ShrDivides(addr, k);
  }

  lemma EvenMultiple(x: nat, d: nat)
    requires d > 0 && x % (2 * d) == 0
    ensures x / d == 2 * (x / (2 * d)) && x % d == 0 && (x + d) % d == 0
  {
    var q := x / (2 * d);
    assert x == d * (2 * q) by {
      assert x == 2 * d * q;
    }
    EuclidUnique(x, d, 2 * q, 0);
    assert x + d == d * (2 * q + 1);
    EuclidUnique(x + d, d, 2 * q + 1, 0);
  }

  /** A block may be replaced by its two halves. */
  lemma SplitTiles(s: set<Block>, area: iset<nat>, b: Block)
    requires Tiles(s, area) && b in s && b.order > 0
    ensures var lo, hi := Block(b.addr, b.order - 1), Block(b.addr + Pow2(b.order - 1), b.order - 1);
            && Tiles(s - {b} + {lo, hi}, area) && lo != hi && Apart(lo, hi)
            && (forall c :: c in s && c != b ==> Apart(lo, c) && Apart(hi, c))
            && lo !in s - {b} && hi !in s - {b}
  {
    var lo, hi := Block(b.addr, b.order - 1), Block(b.addr + Pow2(b.order - 1), b.order - 1);
    var s' := s - {b} + {lo, hi};
    assert Len(b) == 2 * Len(lo);
    forall x: nat
      ensures x in area <==> Covers(s', x)
    {
      if Covers(s, x) {
        var c :| c in s && In(c, x);
        if c == b {
          assert In(lo, x) || In(hi, x);
        } else {
          assert c in s';
        }
      }
      if Covers(s', x) {
        var c :| c in s' && In(c, x);
        if c == lo || c == hi {
          assert In(b, x);
        } else {
          assert c in s;
        }
      }
    }
  }

  // ----- the free stacks as a set of blocks

  ghost function FreeBlocks(contents: seq<seq<nat>>): set<Block> {
    set k: nat, i: nat | k < |contents| && i < |contents[k]| :: Block(contents[k][i], k)
  }

  lemma FreeBlockIff(contents: seq<seq<nat>>, b: Block)
    ensures b in FreeBlocks(contents) <==> b.order < |contents| && b.addr in contents[b.order]
  {
    if b.order < |contents| && b.addr in contents[b.order] {
      var i :| 0 <= i < |contents[b.order]| && contents[b.order][i] == b.addr;
      assert b == Block(contents[b.order][i], b.order);
    }
  }

  /** No stack holds an address twice. */
  ghost predicate NoRepeats(contents: seq<seq<nat>>) {
    forall k, i, j :: 0 <= k < |contents| && 0 <= i < j < |contents[k]| ==> contents[k][i] != contents[k][j]
  }

  lemma PushedBlocks(contents: seq<seq<nat>>, k: nat, addr: nat)
    requires k < |contents|
    ensures var contents' := contents[k := contents[k] + [addr]];
            && FreeBlocks(contents') == FreeBlocks(contents) + {Block(addr, k)}
            && (NoRepeats(contents) && Block(addr, k) !in FreeBlocks(contents) ==> NoRepeats(contents'))
  {
    var contents' := contents[k := contents[k] + [addr]];
    FreeBlockIff(contents, Block(addr, k));
    forall b: Block
      ensures b in FreeBlocks(contents') <==> b in FreeBlocks(contents) || b == Block(addr, k)
    {
      FreeBlockIff(contents', b);
      FreeBlockIff(contents, b);
    }
  }

  lemma PoppedBlocks(contents: seq<seq<nat>>, k: nat)
    requires k < |contents| && contents[k] != [] && NoRepeats(contents)
    ensures var n := |contents[k]| - 1;
            && FreeBlocks(contents[k := contents[k][..n]]) == FreeBlocks(contents) - {Block(contents[k][n], k)}
            && Block(contents[k][n], k) in FreeBlocks(contents)
            && NoRepeats(contents[k := contents[k][..n]])
  {
    var n := |contents[k]| - 1;
    var contents' := contents[k := contents[k][..n]];
    FreeBlockIff(contents, Block(contents[k][n], k));
    forall b: Block
      ensures b in FreeBlocks(contents') <==> b in FreeBlocks(contents) && b != Block(contents[k][n], k)
    {
      FreeBlockIff(contents', b);
      FreeBlockIff(contents, b);
      if b.order == k && b.addr in contents[k] && b.addr != contents[k][n] {
        var i :| 0 <= i < |contents[k]| && contents[k][i] == b.addr;
        assert contents[k][..n][i] == b.addr;
      }
    }
  }

  /** No byte of a block that is apart from all free blocks lies on a page that
      holds a link. */
  lemma OwnPageFree(contents: seq<seq<nat>>, b: Block, x: nat)
    requires In(b, x)
    requires forall c :: c in FreeBlocks(contents) ==> c.order >= 12 && Aligned(c) && Apart(b, c)
    ensures PageFree(contents, PageOf(x))
  {
    forall k, i | 0 <= k < |contents| && 0 <= i < |contents[k]|
      ensures PageOf(contents[k][i]) != PageOf(x)
    {
      var c := Block(contents[k][i], k);
      FreeBlockIff(contents, c);
      PageAligned(c);
      SamePage(c.addr, x);
    }
  }

  lemma SamePage(a: nat, x: nat)
    requires a % PAGE_SIZE == 0
    ensures PageOf(a) == PageOf(x) ==> a <= x < a + PAGE_SIZE
  {}

  lemma PageAligned(b: Block)
    requires b.order >= 12 && Aligned(b)
    ensures b.addr % PAGE_SIZE == 0 && Len(b) >= PAGE_SIZE
  {
    Pow2Sizes();
    Pow2Add(12, b.order - 12);
    var d, q := Pow2(b.order - 12), b.addr / Len(b);
    assert b.addr == PAGE_SIZE * d * q + b.addr % Len(b);
    assert PAGE_SIZE * d * q == PAGE_SIZE * (d * q);
    EuclidUnique(b.addr, PAGE_SIZE, d * q, 0);
  }
}
