/** The buddy allocator of lib/buddy.c as a function of its state: the free
    stacks, the coalesce marks that are clear, the blocks handed out, and the
    area that all of these blocks tile. */
module BuddyView {
  import opened Arithmetic
  import opened Bits
  import opened Blocks
  import opened Log2

  const ORDERS: nat := 64

  /** A bit of the bit set of one order. */
  datatype Mark = Mark(order: nat, index: nat)

  datatype State = State(min: nat, max: nat, size: nat, contents: seq<seq<nat>>,
                         clear: set<Mark>, live: set<Block>, area: iset<nat>)

  /** The orders the code can work with: links live in whole pages, and 1 << order
      is an int. */
  predicate Orders(min: nat, max: nat) {
    12 <= min <= max <= 30
  }

  ghost function All(s: State): set<Block> {
    s.live + FreeBlocks(s.contents)
  }

  ghost predicate Proper(b: Block, min: nat, max: nat) {
    min <= b.order <= max && Aligned(b)
  }

  /** The block that a mark speaks of. */
  function Marked(m: Mark): Block {
    Block(m.index * Pow2(m.order), m.order)
  }

  /** A clear mark names a block on a free stack. */
  ghost predicate Honest(s: State) {
    forall m :: m in s.clear ==> Marked(m) in FreeBlocks(s.contents)
  }

  ghost predicate Inv(s: State) {
    && Orders(s.min, s.max) && |s.contents| == ORDERS && NoRepeats(s.contents)
    && (forall b :: b in All(s) ==> Proper(b, s.min, s.max))
    && s.live !! FreeBlocks(s.contents)
    && Tiles(All(s), s.area)
    && (forall x: nat :: x in s.area ==> x < s.size)
    && Honest(s)
  }

  /** BUDDY_INDEX */
  function Index(addr: nat, order: nat): nat {
    Quotient(addr, Pow2(order))
  }

  /** The marks of addr at the orders lo to hi. */
  ghost function Marks(addr: nat, lo: nat, hi: nat): set<Mark> {
    set k: nat | lo <= k <= hi :: Mark(k, Index(addr, k))
  }

  // ----- buddy_alloc

  function OrderFor(s: State, size: nat): (o: nat)
    ensures o >= s.min && Pow2(o) >= size
    ensures o > s.min ==> Pow2(o - 1) < size
  {
    var o := CeilLog2(size);
    LargeEnough(size, s.min);
    if o < s.min then s.min else o
  }

  lemma LargeEnough(size: nat, min: nat)
    ensures CeilLog2(size) < min ==> Pow2(min) >= size
  {
    if CeilLog2(size) < min {
      Pow2Monotone(CeilLog2(size), min);
    }
  }

  /** The first order from o on whose stack is not empty, or max + 1. */
  function FirstStocked(contents: seq<seq<nat>>, o: nat, max: nat): (k: nat)
    requires o <= max + 1 && max < |contents|
    ensures o <= k <= max + 1
    ensures k <= max ==> contents[k] != []
    ensures forall j :: o <= j < k ==> contents[j] == []
    decreases max + 1 - o
  {
    if o > max || contents[o] != [] then o else FirstStocked(contents, o + 1, max)
  }

  predicate Grants(s: State, size: nat)
    requires s.max < |s.contents|
  {
    OrderFor(s, size) <= s.max && FirstStocked(s.contents, OrderFor(s, size), s.max) <= s.max
  }

  /** Where the block of a successful request comes from. */
  function Source(s: State, size: nat): (k: nat)
    requires s.max < |s.contents| && Grants(s, size)
    ensures OrderFor(s, size) <= k <= s.max && s.contents[k] != []
  {
    FirstStocked(s.contents, OrderFor(s, size), s.max)
  }

  function Popped(contents: seq<seq<nat>>, k: nat): (r: seq<seq<nat>>)
    requires k < |contents| && contents[k] != []
    ensures |r| == |contents|
  {
    contents[k := contents[k][..|contents[k]| - 1]]
  }

  /** The upper halves split off a block of order k on the way down to order o. */
  function Halved(contents: seq<seq<nat>>, addr: nat, o: nat, k: nat): (r: seq<seq<nat>>)
    ensures |r| == |contents|
  {
    seq(|contents|, j requires 0 <= j < |contents| =>
      if o <= j < k then contents[j] + [addr + Pow2(j)] else contents[j])
  }

  function Granted(s: State, size: nat): Block
    requires s.max < |s.contents| && Grants(s, size)
  {
    var stack := s.contents[Source(s, size)];
    Block(stack[|stack| - 1], OrderFor(s, size))
  }

  ghost function Alloc(s: State, size: nat): State
    requires s.max < |s.contents|
  {
    if !Grants(s, size) then s else
      var k, b := Source(s, size), Granted(s, size);
      s.(contents := Halved(Popped(s.contents, k), b.addr, b.order, k),
         clear := s.clear - Marks(b.addr, b.order, k),
         live := s.live + {b})
  }

  /** In the middle of a split: cur is the block in hand. */
  ghost predicate Split(live: set<Block>, contents: seq<seq<nat>>, cur: Block, area: iset<nat>) {
    && live !! FreeBlocks(contents) && NoRepeats(contents)
    && cur !in live && cur !in FreeBlocks(contents) && Aligned(cur)
    && Tiles(live + FreeBlocks(contents) + {cur}, area)
  }

  /** One turn of the splitting loop. */
  lemma HalveStep(live: set<Block>, contents: seq<seq<nat>>, cur: Block, area: iset<nat>)
    requires Split(live, contents, cur, area) && 0 < cur.order <= |contents|
    ensures var j := cur.order - 1; var hi := Block(cur.addr + Pow2(j), j);
            && Split(live, contents[j := contents[j] + [hi.addr]], Block(cur.addr, j), area)
            && FreeBlocks(contents[j := contents[j] + [hi.addr]]) == FreeBlocks(contents) + {hi}
            && Aligned(hi) && hi.addr == BuddyOf(cur.addr, j) && hi !in live + FreeBlocks(contents)
            && (forall c :: c in live + FreeBlocks(contents) ==> Apart(hi, c))
  {
    hide Tiles, FreeBlocks, BuddyOf, Apart, NoRepeats;
    var j := cur.order - 1;
    var lo, hi := Block(cur.addr, j), Block(cur.addr + Pow2(j), j);
    var s := live + FreeBlocks(contents) + {cur};
    SplitTiles(s, area, cur);
    UpperHalf(cur.addr, j);
    PushedBlocks(contents, j, hi.addr);
    assert live + FreeBlocks(contents[j := contents[j] + [hi.addr]]) + {lo} == s - {cur} + {lo, hi};
    assert s - {cur} == live + FreeBlocks(contents);
  }

  lemma PopStep(s: State, k: nat)
    requires Inv(s) && k < |s.contents| && s.contents[k] != []
    ensures var top := s.contents[k][|s.contents[k]| - 1];
            && Split(s.live, Popped(s.contents, k), Block(top, k), s.area)
            && FreeBlocks(Popped(s.contents, k)) == FreeBlocks(s.contents) - {Block(top, k)}
            && s.min <= k <= s.max
  {
    var b := Block(s.contents[k][|s.contents[k]| - 1], k);
    PoppedBlocks(s.contents, k);
    assert b in All(s);
    assert s.live + FreeBlocks(Popped(s.contents, k)) + {b} == All(s);
    hide Tiles, FreeBlocks, NoRepeats;
  }

  /** A split from order k to order o leaves the block at order o and one block
      for each order in between, in the place of the block at order k. */
  lemma {:induction false} HalvedSplits(live: set<Block>, contents: seq<seq<nat>>, addr: nat, o: nat, k: nat,
                                        area: iset<nat>)
    requires o <= k <= |contents| && Split(live, contents, Block(addr, k), area)
    ensures Split(live, Halved(contents, addr, o, k), Block(addr, o), area)
    decreases k
  {
    hide FreeBlocks, Split, Pow2, NoRepeats, Tiles;
    if o == k {
      assert Halved(contents, addr, o, k) == contents;
    } else {
      var contents' := contents[k - 1 := contents[k - 1] + [addr + Pow2(k - 1)]];
      HalveStep(live, contents, Block(addr, k), area);
      assert Halved(contents', addr, o, k - 1) == Halved(contents, addr, o, k);
      HalvedSplits(live, contents', addr, o, k - 1, area);
    }
  }

  lemma HalvedBlocks(contents: seq<seq<nat>>, addr: nat, o: nat, k: nat, b: Block)
    requires o <= k <= |contents| && addr % Pow2(k) == 0
    ensures b in FreeBlocks(Halved(contents, addr, o, k)) <==>
              b in FreeBlocks(contents) || (o <= b.order < k && b.addr == addr + Pow2(b.order))
    ensures o <= b.order < k && b.addr == addr + Pow2(b.order) ==> Aligned(b)
  {
    FreeBlockIff(contents, b);
    FreeBlockIff(Halved(contents, addr, o, k), b);
    hide FreeBlocks;
    if o <= b.order < k {
      AlignedBelow(addr, b.order + 1, k);
      UpperHalf(addr, b.order);
    }
  }

  lemma AlignedBelow(addr: nat, j: nat, k: nat)
    requires j <= k && addr % Pow2(k) == 0
    ensures addr % Pow2(j) == 0
  {
    hide Pow2;
    Pow2Add(j, k - j);
    var d, e := Pow2(j), Pow2(k - j);
    var q := addr / (d * e);
    assert addr == d * e * q;
    assert d * e * q == d * (e * q);
    EuclidUnique(addr, d, e * q, 0);
  }

  /** Allocation keeps the tiling and hands out a new, aligned, large enough block
      inside the area. */
  lemma AllocKeepsInv(s: State, size: nat)
    requires Inv(s)
    ensures Inv(Alloc(s, size)) && Alloc(s, size).area == s.area
    ensures Grants(s, size) ==>
              && Granted(s, size) !in s.live && Len(Granted(s, size)) >= size && Aligned(Granted(s, size))
              && (forall b :: b in s.live ==> Apart(b, Granted(s, size)))
              && Range(Granted(s, size)) <= s.area
  {
    if Grants(s, size) {
      var k, b, t := Source(s, size), Granted(s, size), Alloc(s, size);
      PopStep(s, k);
      HalvedSplits(s.live, Popped(s.contents, k), b.addr, b.order, k, s.area);
      assert All(t) == s.live + FreeBlocks(t.contents) + {b};
      AllocHonest(s, size);
      forall c | c in All(t)
        ensures Proper(c, s.min, s.max)
      {
        HalvedBlocks(Popped(s.contents, k), b.addr, b.order, k, c);
        if c in s.live || c in FreeBlocks(s.contents) {
          assert c in All(s);
        }
      }
      InArea(All(t), s.area, b);
      hide Honest, Popped, Halved, FreeBlocks, Pow2, NoRepeats;
    }
  }

  lemma InArea(s: set<Block>, area: iset<nat>, b: Block)
    requires Tiles(s, area) && b in s
    ensures Range(b) <= area
  {
    forall x: nat | In(b, x)
      ensures x in area
    {
      assert Covers(s, x);
    }
  }

  lemma AllocHonest(s: State, size: nat)
    requires Inv(s) && Grants(s, size)
    ensures Honest(Alloc(s, size))
  {
    hide Halved, FreeBlocks, Popped, NoRepeats, Tiles, Pow2, CeilLog2, FirstStocked, IsCeiling;
    var k, b, t := Source(s, size), Granted(s, size), Alloc(s, size);
    PopStep(s, k);
    assert Mark(k, Index(b.addr, k)) in Marks(b.addr, b.order, k);
    forall m | m in t.clear
      ensures Marked(m) in FreeBlocks(t.contents)
    {
      HalvedBlocks(Popped(s.contents, k), b.addr, b.order, k, Marked(m));
      MultipleIndex(m.index, Pow2(m.order));
    }
  }

  lemma MultipleIndex(i: nat, d: nat)
    requires d > 0
    ensures i * d / d == i
  {
    EuclidUnique(i * d, d, i, 0);
  }

  /** buddy_alloc fails only when no free block is large enough. */
  lemma GrantsIff(s: State, size: nat)
    requires Inv(s)
    ensures Grants(s, size) <==> exists b :: b in FreeBlocks(s.contents) && Pow2(b.order) >= size
  {
    if Grants(s, size) {
      var k := Source(s, size);
      var b := Block(s.contents[k][0], k);
      FreeBlockIff(s.contents, b);
      if OrderFor(s, size) < k {
        Pow2Monotone(OrderFor(s, size), k);
      }
    }
    if b :| b in FreeBlocks(s.contents) && Pow2(b.order) >= size {
      FreeBlockIff(s.contents, b);
      assert b in All(s);
      if OrderFor(s, size) > s.min {
        Pow2Reflects(OrderFor(s, size) - 1, b.order);
      }
    }
  }

  // ----- buddy_free

  function Partner(addr: nat, o: nat): Mark {
    Mark(o, Index(BuddyOf(addr, o), o))
  }

  /** The order at which the merge loop stops. */
  ghost function StopOrder(clear: set<Mark>, addr: nat, o: nat, max: nat): (m: nat)
    requires o <= max
    ensures o <= m <= max
    decreases max - o
  {
    if o == max || Partner(addr, o) !in clear then o else StopOrder(clear, addr, o + 1, max)
  }

  /** The loop stops at once: the partner's mark is set, or there is no higher order. */
  ghost predicate Quiet(s: State, b: Block) {
    b.order == s.max || Partner(b.addr, b.order) !in s.clear
  }

  ghost function Free(s: State, b: Block): State
    requires b.order <= s.max < |s.contents|
  {
    var m := StopOrder(s.clear, b.addr, b.order, s.max);
    s.(contents := s.contents[m := s.contents[m] + [b.addr]],
       clear := s.clear + Marks(b.addr, b.order, m),
       live := s.live - {b}, area := s.area + Range(b))
  }

  /** What may be given to buddy_free: a block handed out, or one never seen. */
  ghost predicate Releasable(s: State, b: Block) {
    && Proper(b, s.min, s.max)
    && (b in s.live || (Range(b) !! s.area && b.addr + Len(b) <= s.size))
  }

  /** A block on its way to a free stack is apart from all blocks but itself. */
  lemma ReleasableApart(s: State, b: Block)
    requires Inv(s) && Releasable(s, b)
    ensures forall c :: c in All(s) && c != b ==> Apart(b, c)
    ensures b !in FreeBlocks(s.contents)
    ensures b in s.live ==> Range(b) <= s.area
    ensures b !in s.live ==> b !in All(s)
  {
    if b in s.live {
      InArea(All(s), s.area, b);
    } else {
      forall c | c in All(s)
        ensures Apart(b, c) && c != b
      {
        InArea(All(s), s.area, c);
        ApartIff(b, c);
        assert In(b, b.addr);
        forall x: nat
          ensures !(In(b, x) && In(c, x))
        {
          assert In(b, x) <==> x in Range(b);
          assert In(c, x) <==> x in Range(c);
        }
      }
    }
  }

  /** Giving back keeps the tiling if and only if the loop does not merge. */
  lemma FreeKeepsInvIff(s: State, b: Block)
    requires Inv(s) && Releasable(s, b)
    ensures Inv(Free(s, b)) <==> Quiet(s, b)
    ensures Tiles(All(Free(s, b)), Free(s, b).area) <==> Quiet(s, b)
    ensures b in s.live ==> Free(s, b).area == s.area
  {
    ReleasableApart(s, b);
    if Quiet(s, b) {
      QuietFreeKeepsInv(s, b);
    } else {
      MergeBreaksTiling(s, b);
    }
  }

  lemma QuietFreeKeepsInv(s: State, b: Block)
    requires Inv(s) && Releasable(s, b) && Quiet(s, b)
    ensures Inv(Free(s, b))
  {
    var t := Free(s, b);
    ReleasableApart(s, b);
    assert t.contents == s.contents[b.order := s.contents[b.order] + [b.addr]];
    PushedBlocks(s.contents, b.order, b.addr);
    assert All(t) == All(s) + {b};
    AddedTiles(All(s), s.area, b);
    MarkOfBlock(b);
    assert Marks(b.addr, b.order, b.order) == {Mark(b.order, Index(b.addr, b.order))};
    hide FreeBlocks, NoRepeats, Tiles, Index;
  }

  lemma MarkOfBlock(b: Block)
    requires Aligned(b)
    ensures Marked(Mark(b.order, Index(b.addr, b.order))) == b
  {
    var d := Len(b);
    assert b.addr == d * (b.addr / d) + b.addr % d;
  }

  lemma AddedTiles(s: set<Block>, area: iset<nat>, b: Block)
    requires Tiles(s, area) && forall c :: c in s && c != b ==> Apart(b, c)
    ensures Tiles(s + {b}, area + Range(b))
  {
    forall x: nat
      ensures x in area + Range(b) <==> Covers(s + {b}, x)
    {
      if Covers(s, x) {
        var c :| c in s && In(c, x);
        assert c in s + {b};
      }
      if In(b, x) {
        assert b in s + {b};
      }
      if c :| c in s + {b} && In(c, x) {
        assert c == b || Covers(s, x);
      }
    }
  }

  /** The partner of an aligned block is the other half of a block twice as long. */
  lemma PartnerBlock(b: Block)
    requires Aligned(b)
    ensures var p := Marked(Partner(b.addr, b.order));
            && p.order == b.order && Aligned(p) && p != b && p.addr == BuddyOf(b.addr, b.order)
            && (p.addr == b.addr + Len(b) || p.addr + Len(p) == b.addr)
  {
    XorBit(b.addr, b.order);
    hide Xor, Bit, Pow2;
    Neighbours(b.addr, Len(b));
    var p := BuddyOf(b.addr, b.order);
    assert p == p / Len(b) * Len(b) + p % Len(b);
  }

  lemma Neighbours(x: nat, d: nat)
    requires d > 0 && x % d == 0
    ensures (x + d) % d == 0
    ensures x >= d ==> (x - d) % d == 0
  {
    var q := x / d;
    assert x == d * q;
    assert x + d == d * (q + 1) && x - d == d * (q - 1);
    EuclidUnique(x + d, d, q + 1, 0);
    EuclidUnique(x - d, d, q - 1, 0);
  }

  /** A merge pushes a block longer than the one given back, while every other
      block stays where it is: the bytes past the end are then in two blocks, or
      in one block but outside the area. */
  lemma MergeBreaksTiling(s: State, b: Block)
    requires Inv(s) && Releasable(s, b) && !Quiet(s, b)
    ensures !Tiles(All(Free(s, b)), Free(s, b).area)
  {
    var t := Free(s, b);
    var m := StopOrder(s.clear, b.addr, b.order, s.max);
    var big := Block(b.addr, m);
    ReleasableApart(s, b);
    PushedBlocks(s.contents, m, b.addr);
    assert All(t) == All(s) - {b} + {big};
    LongerBlock(b, m);
    if Tiles(All(t), t.area) {
      var x := b.addr + Len(b);
      assert In(big, x) && big in All(t) && x in t.area;
      forall c | c in All(s)
        ensures !In(c, x)
      {
        if c != b && c != big {
          assert Apart(c, big);
        }
      }
      assert false;
    }
  }

  lemma LongerBlock(b: Block, m: nat)
    requires b.order < m
    ensures Len(b) + Len(b) <= Pow2(m)
  {
    if b.order + 1 < m {
      Pow2Monotone(b.order + 1, m);
    }
  }

  // ----- whole runs

  /** A block split off for a request can be given back at once: its partner was
      no block of its own before. */
  lemma SplitThenFreeQuiet(s: State, size: nat)
    requires Inv(s) && Grants(s, size) && Source(s, size) > OrderFor(s, size)
    ensures Quiet(Alloc(s, size), Granted(s, size))
  {
    var k, b, t := Source(s, size), Granted(s, size), Alloc(s, size);
    var p := Marked(Partner(b.addr, b.order));
    FreeBlockIff(s.contents, Block(b.addr, k));
    assert Block(b.addr, k) in All(s) && p.order != k;
    PartnerInside(s, size);
  }

  lemma PartnerInside(s: State, size: nat)
    requires Inv(s) && Grants(s, size) && Source(s, size) > OrderFor(s, size)
    ensures var b := Granted(s, size); !Apart(Marked(Partner(b.addr, b.order)), Block(b.addr, Source(s, size)))
  {
    hide FirstStocked, CeilLog2, IsCeiling, FreeBlocks, Tiles, BuddyOf;
    var k, b := Source(s, size), Granted(s, size);
    PopStep(s, k);
    hide Split, NoRepeats;
    AlignedBelow(b.addr, b.order + 1, k);
    UpperHalf(b.addr, b.order);
    PartnerBlock(b);
    LongerBlock(b, k);
  }

  /** Giving back a block that was not split off undoes the request. */
  lemma FreeUndoesAlloc(s: State, size: nat)
    requires Inv(s) && Grants(s, size) && Source(s, size) == OrderFor(s, size)
    requires Quiet(Alloc(s, size), Granted(s, size))
    ensures var t := Free(Alloc(s, size), Granted(s, size));
            t.contents == s.contents && t.live == s.live && t.area == s.area
  {
    var k, b, t := Source(s, size), Granted(s, size), Alloc(s, size);
    AllocKeepsInv(s, size);
    assert Halved(Popped(s.contents, k), b.addr, k, k) == Popped(s.contents, k);
    FreeKeepsInvIff(t, b);
    hide Tiles, FreeBlocks, Inv, Quiet;
    assert s.contents[k] == Popped(s.contents, k)[k] + [b.addr];
    assert Free(t, b).contents == s.contents;
  }

  datatype Op = Take(size: nat) | Give(b: Block)

  /** A request, or giving back a block without a merge. */
  ghost predicate Legal(s: State, op: Op) {
    op.Give? ==> op.b in s.live && Quiet(s, op.b)
  }

  ghost function Apply(s: State, op: Op): (t: State)
    requires Inv(s) && Legal(s, op)
    ensures Inv(t) && t.area == s.area
  {
    match op
    case Take(size) => AllocKeepsInv(s, size); Alloc(s, size)
    case Give(b) => assert b in All(s); FreeKeepsInvIff(s, b); Free(s, b)
  }

  ghost predicate LegalRun(s: State, ops: seq<Op>)
    requires Inv(s)
    decreases |ops|
  {
    ops == [] || (Legal(s, ops[0]) && LegalRun(Apply(s, ops[0]), ops[1..]))
  }

  ghost function Run(s: State, ops: seq<Op>): State
    requires Inv(s) && LegalRun(s, ops)
    decreases |ops|
  {
    if ops == [] then s else Run(Apply(s, ops[0]), ops[1..])
  }

  /** After any run the blocks handed out and the blocks on the stacks still tile
      the area of the start. */
  lemma {:induction false} RunTiles(s: State, ops: seq<Op>)
    requires Inv(s) && LegalRun(s, ops)
    ensures Inv(Run(s, ops)) && Tiles(Run(s, ops).live + FreeBlocks(Run(s, ops).contents), s.area)
    decreases |ops|
  {
    hide Tiles, FreeBlocks, Apply;
    if ops != [] {
      RunTiles(Apply(s, ops[0]), ops[1..]);
    }
  }

  // ----- buddy_init and buddy_free_region

  ghost function Fresh(min: nat, max: nat, size: nat): State {
    State(min, max, size, seq(ORDERS, _ => []), {}, {}, iset{})
  }

  lemma FreshInv(min: nat, max: nat, size: nat)
    requires Orders(min, max)
    ensures Inv(Fresh(min, max, size))
  {
    var s := Fresh(min, max, size);
    forall b: Block
      ensures b !in FreeBlocks(s.contents)
    {
      FreeBlockIff(s.contents, b);
    }
  }

  function RoundDown(x: nat, d: nat): (r: nat)
    requires d > 0
    ensures r <= x < r + d && r % d == 0
  {
    RoundedDown(x, d);
    Quotient(x, d) * d
  }

  lemma RoundedDown(x: nat, d: nat)
    requires d > 0
    ensures var r := Quotient(x, d) * d; r <= x < r + d && r % d == 0
  {
    DivMod(x, d);
    EuclidUnique(d * Quotient(x, d), d, Quotient(x, d), 0);
  }

  function RoundUp(x: nat, d: nat): (r: nat)
    requires d > 0
    ensures x <= r < x + d && r % d == 0
  {
    RoundedUp(x, d);
    Quotient(x + d - 1, d) * d
  }

  lemma RoundedUp(x: nat, d: nat)
    requires d > 0
    ensures var r := Quotient(x + d - 1, d) * d; x <= r < x + d && r % d == 0
  {
    var q := (x + d - 1) / d;
    assert x + d - 1 == d * q + (x + d - 1) % d;
    assert q * d == d * q;
    EuclidUnique(d * q, d, q, 0);
  }

  /** With nothing known up to the end of the enclosing block of the highest order,
      no chunk of a region meets a free partner. */
  lemma RegionStepQuiet(s: State, b: Block, end: nat)
    requires Inv(s) && b.order <= s.max && b.addr < end
    requires b.order < s.max ==> b.addr % Pow2(b.order + 1) == 0
    requires forall x: nat :: b.addr <= x < RoundUp(end, Pow2(s.max)) ==> x !in s.area
    ensures Quiet(s, b)
  {
    hide RoundUp, BuddyOf;
    if b.order < s.max && Partner(b.addr, b.order) in s.clear {
      UpperHalf(b.addr, b.order);
      PartnerBlock(b);
      var h, p := RoundUp(end, Pow2(s.max)), Marked(Partner(b.addr, b.order));
      AlignedBelow(h, b.order + 1, s.max);
      NextAligned(b.addr, h, Pow2(b.order + 1));
      StartInArea(s, p);
    }
  }

  lemma StartInArea(s: State, b: Block)
    requires Inv(s) && b in FreeBlocks(s.contents)
    ensures b.addr in s.area
  {
    assert In(b, b.addr) && b in All(s);
    assert Covers(All(s), b.addr);
  }

  lemma NextAligned(x: nat, y: nat, d: nat)
    requires d > 0 && x % d == 0 && y % d == 0 && x < y
    ensures x + d <= y
  {
    var t := y / d - x / d;
    assert d * t == y - x by {
      assert x == d * (x / d) && y == d * (y / d);
    }
    PositiveFactor(d, t);
  }

  // ----- a merge

  /** Two pages, the upper one given back, the lower one still handed out. */
  ghost function BeforeMerge(): State {
    State(12, 13, 0x2000, seq(ORDERS, k => if k == 12 then [0x1000] else []),
          {Mark(12, 1)}, {Block(0, 12)}, Range(Block(0, 13)))
  }

  /** Giving back the lower page puts both pages on the stack of order 13 while the
      upper one is still on the stack of order 12. */
  lemma MergeExample()
    ensures var s, b := BeforeMerge(), Block(0, 12);
            && Inv(s) && b in s.live && !Quiet(s, b)
            && {Block(0, 13), Block(0x1000, 12)} <= FreeBlocks(Free(s, b).contents)
            && !Apart(Block(0, 13), Block(0x1000, 12))
  {
    var s, b, u := BeforeMerge(), Block(0, 12), Block(0x1000, 12);
    Sizes1213();
    BeforeMergeInv();
    hide Inv, Tiles, FreeBlocks, Pow2;
    FreeBlockIff(Free(s, b).contents, u);
    FreeBlockIff(Free(s, b).contents, Block(0, 13));
  }

  lemma BeforeMergeInv()
    ensures Inv(BeforeMerge()) && Partner(0, 12) == Mark(12, 1)
  {
    var s, b, u := BeforeMerge(), Block(0, 12), Block(0x1000, 12);
    Sizes1213();
    UpperHalf(0, 12);
    hide Pow2, BuddyOf, Xor;
    forall c: Block
      ensures c in FreeBlocks(s.contents) <==> c == u
    {
      FreeBlockIff(s.contents, c);
    }
    assert FreeBlocks(s.contents) == {u};
    hide FreeBlocks;
    assert All(s) == {b, u};
    forall x: nat
      ensures x in s.area <==> Covers(All(s), x)
    {
      assert In(b, x) || In(u, x) <==> In(Block(0, 13), x);
    }
    assert Marked(Mark(12, 1)) == u;
  }

  lemma Sizes1213()
    ensures Pow2(12) == 0x1000 && Pow2(13) == 0x2000
  {
    Pow2Sizes();
  }
}
