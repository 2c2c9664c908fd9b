/** The buddy allocator itself: struct buddy with its stacks and bit sets, proved
    against BuddyView. */
module Buddy {
  import opened Arithmetic
  import opened Bits
  import opened Bitset
  import opened Blocks
  import opened BuddyChoice
  import opened BuddyView
  import Log2
  import Stacks

  /** The bytes of a bit set: one bit for each whole block of the order. */
  function Space(size: nat, k: nat): nat {
    Quotient(Index(size, k) + 7, 8)
  }

  ghost predicate BitsOf(b: Bytes, clear: set<Mark>, k: nat, size: nat) {
    && |b| == Space(size, k)
    && forall i: nat :: Within(b, i) ==> (Test(b, i) <==> Mark(k, i) !in clear)
  }

  ghost predicate BitsetsOf(bitsets: seq<Bytes>, clear: set<Mark>, min: nat, max: nat, size: nat) {
    |bitsets| == ORDERS && forall k :: min <= k <= max && k < |bitsets| ==> BitsOf(bitsets[k], clear, k, size)
  }

  predicate Fits(size: nat, m: Mark) {
    m.index / 8 < Space(size, m.order)
  }

  /** Every bit that the merge loop touches from order o on is inside its set. */
  ghost predicate LoopInBounds(s: State, addr: nat, o: nat)
    requires o <= s.max
    decreases s.max - o
  {
    && Fits(s.size, Mark(o, Index(addr, o))) && Fits(s.size, Partner(addr, o))
    && (o == s.max || Partner(addr, o) !in s.clear || LoopInBounds(s, addr, o + 1))
  }

  /** A bit set has the least number of bytes with a bit for each whole block of its order. */
  lemma SpaceIsLeast(size: nat, k: nat)
    ensures 8 * Space(size, k) >= Quotient(size, Pow2(k)) > 8 * Space(size, k) - 8
  {}

  /** The bits of a whole block below size and of its partner are inside the set. */
  lemma MarksFit(size: nat, addr: nat, k: nat)
    requires Index(addr, k) < Index(size, k)
    ensures Fits(size, Mark(k, Index(addr, k))) && Fits(size, Partner(addr, k))
  {
    hide Fits, Partner, Quotient, Pow2, Other;
    PartnerIndex(addr, k);
    PairFits(size, Index(addr, k), k);
  }

  lemma PairFits(size: nat, i: nat, k: nat)
    requires i < Index(size, k)
    ensures Fits(size, Mark(k, i)) && Fits(size, Mark(k, Other(i)))
  {
    hide Index, Quotient, Other, Pow2;
    PairByte(i, Index(size, k));
  }

  lemma PairByte(i: nat, n: nat)
    requires i < n
    ensures i / 8 == Other(i) / 8 < Quotient(n + 7, 8)
  {
    var q, r := i / 8, i % 8;
    EuclidUnique(Other(i), 8, q, Other(r));
    BelowMultiple(n + 7, 8, q + 1);
    hide Quotient, Other;
  }

  /** The end of the addresses whose bits are inside the set of one order. */
  function MarkedEnd(size: nat, k: nat): nat {
    RoundUp(Index(size, k), 8) * Pow2(k)
  }

  /** The bit of an address is inside the set exactly below that end, whatever the base
      of the region. */
  lemma MarkFitsIff(size: nat, addr: nat, k: nat)
    ensures Fits(size, Mark(k, Index(addr, k))) <==> addr < MarkedEnd(size, k)
  {
    BelowMultiple(addr, Pow2(k), RoundUp(Index(size, k), 8));
    hide Pow2;
  }

  lemma BelowMultiple(x: nat, d: nat, q: nat)
    requires d > 0
    ensures Quotient(x, d) < q <==> x < q * d
  {
    DivMod(x, d);
    var p := Quotient(x, d);
    hide Quotient, Remainder;
    if p < q {
      ProductGrows(d, d, p + 1, q);
      assert d * (p + 1) == d * p + d;
    } else {
      ProductGrows(d, d, q, p);
    }
  }

  /** The bits of all blocks of a region with a base are inside the set exactly when the
      region ends by then: the set has bits for size bytes, but is indexed by address. */
  lemma RegionFitsIff(base: nat, size: nat, k: nat)
    ensures (forall addr: nat :: base <= addr < base + size ==> Fits(size, Mark(k, Index(addr, k)))) <==>
              size == 0 || base + size <= MarkedEnd(size, k)
  {
    hide MarkedEnd, Index, Fits;
    forall addr: nat
      ensures Fits(size, Mark(k, Index(addr, k))) <==> addr < MarkedEnd(size, k)
    {
      MarkFitsIff(size, addr, k);
    }
    if size > 0 && base + size > MarkedEnd(size, k) {
      assert !Fits(size, Mark(k, Index(base + size - 1, k)));
    }
  }

  /** The normal region of a machine with 32 MiB: not one of its pages has a bit inside
      the set. */
  lemma NormalRegionOutside(addr: nat)
    requires 0x100_0000 <= addr < 0x200_0000
    ensures !Fits(0x100_0000, Mark(12, Index(addr, 12)))
  {
    PageSize12();
    hide Pow2;
    EuclidUnique(0x100_0000, 0x1000, 0x1000, 0);
    MarkFitsIff(0x100_0000, addr, 12);
  }

  lemma PageSize12()
    ensures Pow2(12) == 0x1000
  {
    Pow2Sizes();
  }

  lemma BlockIndex(size: nat, addr: nat, k: nat)
    requires addr + Pow2(k) <= size
    ensures Index(addr, k) < Index(size, k)
  {
    hide Pow2;
    NextIndex(addr, Pow2(k));
    QuotientMonotone(addr + Pow2(k), size, Pow2(k));
  }

  lemma QuotientMonotone(x: nat, y: nat, d: nat)
    requires d > 0 && x <= y
    ensures x / d <= y / d
  {
    var p, q := x / d, y / d;
    assert x == d * p + x % d && y == d * q + y % d;
    if q < p {
      assert d * (p - q) == d * p - d * q;
      PositiveFactor(d, p - q);
    }
  }

  /** A release that stops at once stays in bounds. */
  lemma QuietInBounds(s: State, b: Block)
    requires Inv(s) && Releasable(s, b) && Quiet(s, b)
    ensures LoopInBounds(s, b.addr, b.order)
  {
    EndInside(s, b);
    BlockIndex(s.size, b.addr, b.order);
    MarksFit(s.size, b.addr, b.order);
  }

  lemma EndInside(s: State, b: Block)
    requires Inv(s) && (b in All(s) || Releasable(s, b))
    ensures b.addr + Len(b) <= s.size
  {
    if b in All(s) {
      InArea(All(s), s.area, b);
      assert In(b, b.addr + Len(b) - 1);
      assert b.addr + Len(b) - 1 in Range(b);
    }
  }

  /** When the size is a multiple of the largest block every release does. */
  lemma {:induction false} WholeInBounds(s: State, addr: nat, o: nat)
    requires o <= s.max && s.size % Pow2(s.max) == 0 && addr < s.size
    ensures LoopInBounds(s, addr, o)
    decreases s.max - o
  {
    AlignedBelow(s.size, o, s.max);
    IndexBelow(addr, s.size, Pow2(o));
    MarksFit(s.size, addr, o);
    if o < s.max {
      WholeInBounds(s, addr, o + 1);
    }
  }

  lemma IndexBelow(x: nat, y: nat, d: nat)
    requires d > 0 && x < y && y % d == 0
    ensures x / d < y / d
  {
    var p, q := x / d, y / d;
    assert x == d * p + x % d && y == d * q;
    assert d * (q - p) == d * q - d * p;
    if q <= p {
      NegativeProduct(d, q - p);
    }
  }

  /** The stack of order max + 1, which the search also looks at, is empty. */
  lemma OutsideEmpty(s: State, k: nat)
    requires Inv(s) && k < ORDERS && (k < s.min || k > s.max)
    ensures s.contents[k] == []
  {
    if s.contents[k] != [] {
      var b := Block(s.contents[k][0], k);
      FreeBlockIff(s.contents, b);
      assert false;
    }
  }

  class Buddy {
    const base: nat
    const size: nat
    const minOrder: nat
    const maxOrder: nat
    const free: Stacks.Stacks
    var bitsets: seq<Bytes>
    ghost var clear: set<Mark>
    ghost var live: set<Block>
    ghost var area: iset<nat>

    ghost function View(): State
      reads `clear, `live, `area, free`contents
    {
      State(minOrder, maxOrder, size, free.contents, clear, live, area)
    }

    ghost predicate BitsHold()
      reads `bitsets, `clear
    {
      BitsetsOf(bitsets, clear, minOrder, maxOrder, size)
    }

    /** All but the tiling. */
    ghost predicate Shape()
      reads `bitsets, `clear, free
    {
      Orders(minOrder, maxOrder) && free.Valid() && |free.contents| == ORDERS && BitsHold()
    }

    ghost predicate Valid()
      reads this, free
    {
      Shape() && Inv(View())
    }

    /** buddy_init */
    constructor (base: nat, size: nat, min: nat, max: nat)
      requires Orders(min, max)
      ensures Valid() && fresh(free) && View() == Fresh(min, max, size) && this.base == base
    {
      this.base, this.size, minOrder, maxOrder := base, size, min, max;
      free := new Stacks.Stacks(ORDERS);
      clear, live, area := {}, {}, iset{};
      bitsets := seq(ORDERS, k requires 0 <= k < ORDERS => if min <= k <= max then Bitset.Full(Space(size, k)) else []);
      new;
      FreshInv(min, max, size);
      forall k: nat, i: nat | min <= k <= max && Within(bitsets[k], i)
        ensures Test(bitsets[k], i)
      {
        FullBit(Space(size, k), i);
      }
    }

    method SetMark(k: nat, i: nat)
      requires BitsHold() && minOrder <= k <= maxOrder < ORDERS && Fits(size, Mark(k, i))
      modifies `bitsets, `clear
      ensures BitsHold() && clear == old(clear) - {Mark(k, i)}
    {
      forall j: nat | Within(bitsets[k], j)
        ensures Test(Bitset.Set(bitsets[k], i), j) <==> i == j || Test(bitsets[k], j)
      {
        SetBit(bitsets[k], i, j);
      }
      hide Test, Bitset.Set;
      bitsets := bitsets[k := Bitset.Set(bitsets[k], i)];
      clear := clear - {Mark(k, i)};
    }

    method ClearMark(k: nat, i: nat)
      requires BitsHold() && minOrder <= k <= maxOrder < ORDERS && Fits(size, Mark(k, i))
      modifies `bitsets, `clear
      ensures BitsHold() && clear == old(clear) + {Mark(k, i)}
    {
      forall j: nat | Within(bitsets[k], j)
        ensures Test(Unset(bitsets[k], i), j) <==> i != j && Test(bitsets[k], j)
      {
        UnsetBit(bitsets[k], i, j);
      }
      hide Test, Unset;
      bitsets := bitsets[k := Unset(bitsets[k], i)];
      clear := clear + {Mark(k, i)};
    }

    /** The search for a stack above an empty one; the last look is at the stack of
        order max + 1. */
    method FindOrder(original: nat) returns (found: bool, order: nat)
      requires Valid() && original <= maxOrder && free.contents[original] == []
      ensures found <==> FirstStocked(free.contents, original, maxOrder) <= maxOrder
      ensures found ==> order == FirstStocked(free.contents, original, maxOrder) > original
    {
      hide Inv, Stacks.Spells, Stacks.Placed, BitsetsOf;
      OutsideEmpty(View(), maxOrder + 1);
      order := original;
      found := false;
      while order <= maxOrder
        invariant original <= order <= maxOrder + 1
        invariant forall j :: original <= j <= order && j <= maxOrder ==> free.contents[j] == []
        decreases maxOrder + 1 - order
      {
        order := order + 1;
        free.SizeIsLength(order);
        if free.stacks[order].size != 0 {
          found := true;
          break;
        }
        assert free.contents[order] == [];
      }
    }

    /** The splitting loop of buddy_alloc. */
    method Carve(addr: nat, k: nat, o: nat)
      requires Shape() && minOrder <= o < k <= maxOrder && addr + Pow2(k) <= size
      requires Split(live, free.contents, Block(addr, k), area)
      requires forall c :: c in FreeBlocks(free.contents) ==> Proper(c, minOrder, maxOrder)
      modifies `bitsets, `clear, free
      ensures Shape()
      ensures free.contents == Halved(old(free.contents), addr, o, k)
      ensures clear == old(clear) - Marks(addr, o, k)
    {
      hide Halved, FreeBlocks, Split, Pow2, Tiles, Fits, BitsetsOf, Index;
      var order := k;
      HalvedNone(free.contents, addr, k);
      while order > o
        invariant Shape() && o <= order <= k
        invariant Split(live, free.contents, Block(addr, order), area)
        invariant free.contents == Halved(old(free.contents), addr, order, k)
        invariant clear == old(clear) - if order == k then {} else Marks(addr, order, k)
        invariant forall c :: c in FreeBlocks(free.contents) ==> Proper(c, minOrder, maxOrder)
      {
        Pow2Below(order, k);
        CarveStep(addr, order);
        HalvedMore(old(free.contents), addr, order, k);
        MarksMore(addr, order, k);
        order := order - 1;
      }
    }

    /** One turn: the block at addr of this order becomes two of the order below. */
    method CarveStep(addr: nat, order: nat)
      requires Shape() && minOrder < order <= maxOrder && addr + Pow2(order) <= size
      requires Split(live, free.contents, Block(addr, order), area)
      requires forall c :: c in FreeBlocks(free.contents) ==> Proper(c, minOrder, maxOrder)
      modifies `bitsets, `clear, free
      ensures Shape() && Split(live, free.contents, Block(addr, order - 1), area)
      ensures free.contents == old(free.contents)[order - 1 := old(free.contents)[order - 1] + [addr + Pow2(order - 1)]]
      ensures clear == old(clear) - {Mark(order, Index(addr, order)), Mark(order - 1, Index(addr, order - 1))}
      ensures forall c :: c in FreeBlocks(free.contents) ==> Proper(c, minOrder, maxOrder)
    {
      hide FreeBlocks, Split, Tiles, Fits, BitsetsOf, BuddyOf, Index, Pow2, NoRepeats, Stacks.Spells, Stacks.Placed;
      CarveReady(live, free.contents, Block(addr, order), area, size);
      SetMark(order, Index(addr, order));
      SetMark(order - 1, Index(addr, order - 1));
      free.Push(order - 1, BuddyOf(addr, order - 1));
    }

    /** buddy_alloc; 0 stands for NULL, and is also the address of a block. */
    method Alloc(size: nat) returns (addr: nat)
      requires Valid() && size < Pow2(64)
      modifies `bitsets, `clear, `live, free
      ensures Valid() && View() == old(BuddyView.Alloc(View(), size))
      ensures addr == if old(Grants(View(), size)) then old(Granted(View(), size)).addr else 0
      ensures Served(old(View()), View(), size, addr)
    {
      hide FreeBlocks, Split, Tiles, BitsetsOf, Log2.CeilLog2, Log2.IsCeiling, Halved, Popped, Marks,
           Stacks.Spells, Stacks.Placed, NoRepeats, Pow2, Served;
      ghost var s := View();
      AllocKeepsInv(s, size);
      AllocServes(s, size);
      hide Inv;
      var order := Log2.Log2(size);
      if order < minOrder {
        order := minOrder;
      }
      if order > maxOrder {
        return 0;
      }
      var original := order;
      free.SizeIsLength(order);
      if free.stacks[order].size == 0 {
        var found;
        found, order := FindOrder(original);
        if !found {
          return 0;
        }
        addr := TakeFrom(order);
        Carve(addr, order, original);
      } else {
        addr := TakeFrom(order);
        TakeWhole(addr, order);
      }
      live := live + {Block(addr, original)};
    }

    /** Pop a block that the caller goes on to split or hand out. */
    method TakeFrom(k: nat) returns (addr: nat)
      requires Valid() && k < ORDERS && free.contents[k] != []
      modifies free
      ensures Shape() && free.contents == Popped(old(free.contents), k)
      ensures addr == old(free.contents)[k][|old(free.contents)[k]| - 1]
      ensures Split(live, free.contents, Block(addr, k), area)
      ensures minOrder <= k <= maxOrder && addr + Pow2(k) <= size
      ensures forall c :: c in FreeBlocks(free.contents) ==> Proper(c, minOrder, maxOrder)
    {
      hide Split, Tiles, BitsetsOf, FreeBlocks, NoRepeats;
      PopStep(View(), k);
      ghost var b := Block(free.contents[k][|free.contents[k]| - 1], k);
      assert b in FreeBlocks(free.contents) by {
        FreeBlockIff(free.contents, b);
      }
      EndInside(View(), b);
      addr := free.Pop(k);
    }

    /** A block of the wanted order needs no split. */
    method TakeWhole(addr: nat, k: nat)
      requires Shape() && minOrder <= k <= maxOrder && addr + Pow2(k) <= size
      modifies `bitsets, `clear
      ensures Shape() && free.contents == Halved(free.contents, addr, k, k)
      ensures clear == old(clear) - Marks(addr, k, k)
    {
      BlockIndex(size, addr, k);
      MarksFit(size, addr, k);
      HalvedNone(free.contents, addr, k);
      assert Marks(addr, k, k) == {Mark(k, Index(addr, k))};
      SetMark(k, Index(addr, k));
    }

    /** buddy_free.  The code asks that the order of size be one of the allocator's,
        and that the loop stay inside the bit sets. */
    method Free(addr: nat, size: nat)
      requires Valid() && size < Pow2(64)
      requires var o := Log2.CeilLog2(size);
               o <= maxOrder && Releasable(View(), Block(addr, o)) && LoopInBounds(View(), addr, o)
      modifies `bitsets, `clear, `live, `area, free
      ensures Shape() && View() == old(BuddyView.Free(View(), Block(addr, Log2.CeilLog2(size))))
      ensures Valid() <==> old(Quiet(View(), Block(addr, Log2.CeilLog2(size))))
      ensures Returned(old(View()), View(), Block(addr, Log2.CeilLog2(size)))
    {
      hide Tiles, NoRepeats, FreeBlocks, Marks, LoopInBounds, Index, Partner, Log2.IsCeiling, Honest,
           BitsetsOf, Stacks.Spells, Stacks.Placed, Stacks.PageFree, Returned;
      ghost var s, b := View(), Block(addr, Log2.CeilLog2(size));
      StopOrderIff(s.clear, addr, b.order, maxOrder, StopOrder(s.clear, addr, b.order, maxOrder));
      FreeOutcome(s, b, StopOrder(s.clear, addr, b.order, maxOrder));
      FreeKeepsInvIff(s, b);
      StartFree(s, b);
      var order := Log2.Log2(size);
      Settle(addr, order);
      live := live - {b};
      area := area + Range(b);
    }

    /** The loop of buddy_free. */
    method Settle(addr: nat, o: nat)
      requires Shape() && minOrder <= o <= maxOrder
      requires LoopInBounds(View(), addr, o) && Stacks.PageFree(free.contents, Stacks.PageOf(addr))
      modifies `bitsets, `clear, free
      ensures Shape()
      ensures var m := StopOrder(old(clear), addr, o, maxOrder);
              && free.contents == old(free.contents)[m := old(free.contents)[m] + [addr]]
              && clear == old(clear) + Marks(addr, o, m)
    {
      hide Stacks.Spells, Stacks.Placed, Stacks.PageFree, BitsetsOf, Marks, Fits, Index, Partner, BuddyOf;
      ghost var s := View();
      var order := o;
      while order <= maxOrder
        invariant o <= order <= maxOrder && Shape()
        invariant StopOrder(s.clear, addr, o, maxOrder) == StopOrder(s.clear, addr, order, maxOrder)
        invariant clear == s.clear + if order == o then {} else Marks(addr, o, order - 1)
        invariant LoopInBounds(s, addr, order)
        invariant free.contents == s.contents
      {
        MarksUpTo(addr, o, order);
        PartnerApart(s.clear, addr, o, order);
        var stop := Visit(addr, order);
        if stop || order == maxOrder {
          free.Push(order, addr);
          break;
        }
        order := order + 1;
      }
    }

    /** Unset the bit of addr and look at the bit of its partner. */
    method Visit(addr: nat, order: nat) returns (marked: bool)
      requires BitsHold() && minOrder <= order <= maxOrder < ORDERS
      requires Fits(size, Mark(order, Index(addr, order))) && Fits(size, Partner(addr, order))
      modifies `bitsets, `clear
      ensures BitsHold() && clear == old(clear) + {Mark(order, Index(addr, order))}
      ensures marked <==> Partner(addr, order) !in clear
    {
      ClearMark(order, Index(addr, order));
      marked := Test(bitsets[order], Index(BuddyOf(addr, order), order));
    }

    /** buddy_free_region: the longest part of the region that is a multiple of the
        smallest block becomes free.  Nothing may be known yet up to the end of the
        last enclosing block of the highest order. */
    method FreeRegion(start: nat, length: nat)
      requires Valid() && Multiple(start, maxOrder) && start + length <= size
      requires Span(start, RoundUp(start + length, Pow2(maxOrder))) !! area
      modifies `bitsets, `clear, `live, `area, free
      ensures Valid() && live == old(live)
      ensures area == old(area) + Span(start, start + RoundDown(length, Pow2(minOrder)))
      ensures forall k :: minOrder <= k <= maxOrder ==>
                Grown(old(free.contents)[k], free.contents[k], Gain(length, k, maxOrder))
    {
      hide Inv, BitsetsOf, Stacks.Spells, Stacks.Placed, Span, RoundUp, Pow2, Gain, Index;
      ghost var hull := RoundUp(start + length, Pow2(maxOrder));
      var end := start + length;
      var addr := start;
      var order := maxOrder;
      SpanSplit(old(area), start, start, hull);
      while order >= minOrder
        invariant minOrder - 1 <= order <= maxOrder
        invariant Valid() && live == old(live) && start <= addr <= end
        invariant area == old(area) + Span(start, addr) && Span(addr, hull) !! area
        invariant if order == maxOrder then addr == start else Multiple(addr, order + 1) && addr + Pow2(order + 1) > end
        invariant forall k :: minOrder <= k <= order ==> free.contents[k] == old(free.contents)[k]
        invariant forall k :: order < k <= maxOrder ==>
                    Grown(old(free.contents)[k], free.contents[k], Gain(length, k, maxOrder))
      {
        ghost var was := addr;
        GainIs(start, length, addr, order, maxOrder);
        addr := FeedOrder(addr, order, end);
        SpanJoin(start, was, addr);
        SpanSplit(old(area), start, addr, hull);
        order := order - 1;
      }
      PrefixEnd(start, length, addr, minOrder, maxOrder);
    }

    /** The chunks of one order: as many as fit for the highest, at most one below. */
    method FeedOrder(addr: nat, order: nat, end: nat) returns (next: nat)
      requires Valid() && minOrder <= order <= maxOrder && addr <= end <= size
      requires if order == maxOrder then Multiple(addr, order)
               else Multiple(addr, order + 1) && addr + Pow2(order + 1) > end
      requires Span(addr, RoundUp(end, Pow2(maxOrder))) !! area
      modifies `bitsets, `clear, `live, `area, free
      ensures Valid() && live == old(live) && addr <= next <= end
      ensures area == old(area) + Span(addr, next)
      ensures Multiple(next, order) && next + Pow2(order) > end
      ensures Grown(old(free.contents)[order], free.contents[order], Index(end - addr, order))
      ensures forall k :: 0 <= k < ORDERS && k != order ==> free.contents[k] == old(free.contents)[k]
    {
      hide Inv, BitsetsOf, Stacks.Spells, Stacks.Placed, Span, RoundUp, Pow2, Times, Index, Multiple;
      ghost var hull := RoundUp(end, Pow2(maxOrder));
      var chunk := Pow2(order);
      ChunkHalf(addr, order, maxOrder);
      TimesNone(chunk);
      SpanSplit(area, addr, addr, hull);
      ghost var n := 0;
      next := addr;
      while next + chunk <= end
        invariant Valid() && live == old(live) && addr <= next <= end && Multiple(next, order)
        invariant area == old(area) + Span(addr, next) && Span(next, hull) !! area
        invariant order < maxOrder ==> (next == addr && Multiple(addr, order + 1)) || next + chunk > end
        invariant next == addr + Times(chunk, n) && Grown(old(free.contents)[order], free.contents[order], n)
        invariant forall k :: 0 <= k < ORDERS && k != order ==> free.contents[k] == old(free.contents)[k]
        decreases end - next
      {
        FeedChunk(next, order, end);
        SpanJoin(addr, next, next + chunk);
        MultipleNext(next, order);
        next := next + chunk;
        n := n + 1;
        TimesNext(chunk, n);
        SpanSplit(old(area), addr, next, hull);
      }
      TimesIndex(end - addr, order, n);
    }

    /** One chunk of a region. */
    method FeedChunk(addr: nat, order: nat, ghost end: nat)
      requires Valid() && minOrder <= order <= maxOrder && addr + Pow2(order) <= end <= size
      requires Multiple(addr, order) && (order < maxOrder ==> Multiple(addr, order + 1))
      requires Span(addr, RoundUp(end, Pow2(maxOrder))) !! area
      modifies `bitsets, `clear, `live, `area, free
      ensures Valid() && live == old(live)
      ensures area == old(area) + Span(addr, addr + Pow2(order))
      ensures free.contents == old(free.contents)[order := old(free.contents)[order] + [addr]]
    {
      hide Tiles, NoRepeats, FreeBlocks, BitsetsOf, Stacks.Spells, Stacks.Placed, Honest, Releasable, Quiet, LoopInBounds,
           RoundUp, Inv, BuddyView.Free, Log2.CeilLog2, Log2.IsCeiling, Range, Span, Returned;
      ghost var s, b := View(), Block(addr, order);
      OrderOfPower(order);
      ChunkReady(s, b, end);
      Free(addr, Pow2(order));
    }

    /** The owner of a block may write any byte of it. */
    method Write(b: Block, x: nat, word: nat)
      requires Valid() && b in live && In(b, x)
      modifies free`words
      ensures Valid() && View() == old(View())
    {
      ReleasableApart(View(), b);
      OwnPageFree(free.contents, b, x);
      free.Scribble(Stacks.PageOf(x), word);
    }
  }

  /** buddy_init: NULL without a size or an order. */
  method Init(base: nat, size: nat, min: nat, max: nat) returns (b: Buddy?)
    requires size != 0 && min != 0 && max != 0 ==> Orders(min, max)
    ensures b == null <==> size == 0 || min == 0 || max == 0
    ensures b != null ==> fresh(b) && fresh(b.free) && b.Valid() && b.View() == Fresh(min, max, size) && b.base == base
  {
    if size == 0 || min == 0 || max == 0 {
      return null;
    }
    b := new Buddy(base, size, min, max);
  }

  predicate Between(lo: nat, x: nat, hi: nat) {
    lo <= x < hi
  }

  ghost function Span(lo: nat, hi: nat): iset<nat> {
    iset x: nat | Between(lo, x, hi)
  }

  lemma SpanJoin(lo: nat, mid: nat, hi: nat)
    requires lo <= mid <= hi
    ensures Span(lo, mid) + Span(mid, hi) == Span(lo, hi)
  {}

  lemma SpanSplit(area: iset<nat>, lo: nat, mid: nat, hi: nat)
    requires Span(lo, hi) !! area && lo <= mid
    ensures Span(mid, hi) !! area + Span(lo, mid)
    ensures lo == mid ==> area + Span(lo, mid) == area
  {
    forall x: nat
      ensures !(x in Span(mid, hi) && x in area + Span(lo, mid))
    {
      assert x in Span(lo, hi) ==> x !in area;
    }
  }

  predicate Multiple(x: nat, k: nat) {
    x % Pow2(k) == 0
  }

  lemma MultipleNext(x: nat, k: nat)
    requires Multiple(x, k)
    ensures Multiple(x + Pow2(k), k)
  {
    Neighbours(x, Pow2(k));
  }

  lemma ChunkHalf(addr: nat, k: nat, max: nat)
    requires k == max || Multiple(addr, k + 1)
    ensures Pow2(k + 1) == Pow2(k) + Pow2(k)
    ensures k != max ==> Multiple(addr, k)
  {
    if k != max {
      AlignedBelow(addr, k, k + 1);
    }
  }

  function Times(d: nat, n: nat): nat {
    d * n
  }

  lemma TimesNone(d: nat)
    ensures Times(d, 0) == 0
  {}

  lemma TimesNext(d: nat, n: nat)
    requires n > 0
    ensures Times(d, n) == Times(d, n - 1) + d
  {}

  lemma TimesIndex(x: nat, k: nat, n: nat)
    requires Times(Pow2(k), n) <= x < Times(Pow2(k), n) + Pow2(k)
    ensures Index(x, k) == n
  {
    hide Pow2;
    EuclidUnique(x, Pow2(k), n, x - Pow2(k) * n);
  }

  /** t is s with n elements on top. */
  predicate Grown(s: seq<nat>, t: seq<nat>, n: nat) {
    s <= t && |t| == |s| + n
  }

  /** The blocks of one order in a region: the binary digits of its length, and all
      the rest at the highest order. */
  function Gain(length: nat, k: nat, max: nat): nat {
    if k == max then Index(length, k) else Index(length, k) % 2
  }

  /** What the orders from lo to max take of a length. */
  ghost function Worth(length: nat, lo: nat, max: nat): nat
    decreases max - lo
  {
    if lo > max then 0 else Gain(length, lo, max) * Pow2(lo) + Worth(length, lo + 1, max)
  }

  /** The blocks add up to the length, but for what is less than the smallest of them, and
      below the highest order there is at most one of each. */
  lemma {:induction false} GainTotal(length: nat, lo: nat, max: nat)
    requires lo <= max
    ensures Worth(length, lo, max) <= length < Worth(length, lo, max) + Pow2(lo)
    ensures Worth(length, lo, max) == Index(length, lo) * Pow2(lo)
    ensures lo < max ==> Gain(length, lo, max) <= 1
    decreases max - lo
  {
    var d := Pow2(lo);
    DivMod(length, d);
    if lo < max {
      GainTotal(length, lo + 1, max);
      HalfQuotient(length, d);
    }
  }

  lemma HalfQuotient(x: nat, d: nat)
    requires d > 0
    ensures Quotient(x, d) * d == Quotient(x, d) % 2 * d + Quotient(x, 2 * d) * (2 * d)
  {
    var q := Quotient(x, d);
    DivMod(x, d);
    var r := x - d * q;
    assert q == 2 * (q / 2) + q % 2;
    assert d * q == 2 * d * (q / 2) + d * (q % 2);
    assert d * (q % 2) <= d;
    EuclidUnique(x, 2 * d, q / 2, d * (q % 2) + r);
  }

  lemma GainIs(start: nat, length: nat, addr: nat, k: nat, max: nat)
    requires k <= max && Multiple(start, max) && start <= addr <= start + length
    requires k == max ==> addr == start
    requires k < max ==> Multiple(addr, k + 1) && addr + Pow2(k + 1) > start + length
    ensures Gain(length, k, max) == Index(start + length - addr, k)
  {
    if k < max {
      AlignedBelow(start, k + 1, max);
      LowDigit(start, addr, length, Pow2(k));
    }
  }

  lemma LowDigit(start: nat, addr: nat, length: nat, d: nat)
    requires d > 0 && start % (2 * d) == 0 && addr % (2 * d) == 0
    requires start <= addr <= start + length < addr + 2 * d
    ensures length / d % 2 == (start + length - addr) / d
  {
    var q := addr / (2 * d) - start / (2 * d);
    var r := start + length - addr;
    assert addr - start == d * (2 * q) by {
      assert addr == 2 * d * (addr / (2 * d)) && start == 2 * d * (start / (2 * d));
    }
    var h := if r < d then 0 else 1;
    EuclidUnique(r, d, h, r - d * h);
    assert length == d * (2 * q + h) + (r - d * h);
    EuclidUnique(length, d, 2 * q + h, r - d * h);
  }

  /** Where the loops over the region stop. */
  lemma PrefixEnd(start: nat, length: nat, addr: nat, min: nat, max: nat)
    requires min <= max && Multiple(start, max) && start <= addr <= start + length
    requires Multiple(addr, min) && addr + Pow2(min) > start + length
    ensures addr == start + RoundDown(length, Pow2(min))
  {
    hide Pow2;
    AlignedBelow(start, min, max);
    var d := Pow2(min);
    var q := addr / d - start / d;
    assert d * q == addr - start by {
      assert addr == d * (addr / d) && start == d * (start / d);
    }
    EuclidUnique(length, d, q, length - (addr - start));
  }

  lemma ChunkReleasable(s: State, b: Block, end: nat)
    requires Inv(s) && Proper(b, s.min, s.max) && b.addr + Len(b) <= end <= s.size
    requires Span(b.addr, RoundUp(end, Pow2(s.max))) !! s.area
    ensures Releasable(s, b) && b !in s.live && Range(b) == Span(b.addr, b.addr + Len(b))
    ensures forall x: nat :: b.addr <= x < RoundUp(end, Pow2(s.max)) ==> x !in s.area
  {
    var hull := RoundUp(end, Pow2(s.max));
    forall x: nat | b.addr <= x < hull
      ensures x !in s.area
    {
      assert x in Span(b.addr, hull);
    }
    assert In(b, b.addr) && b.addr in Range(b);
    if b in s.live {
      InArea(All(s), s.area, b);
      assert false;
    }
  }

  /** A chunk of a region can be given to buddy_free and is not merged. */
  lemma ChunkReady(s: State, b: Block, end: nat)
    requires Inv(s) && Proper(b, s.min, s.max) && b.addr + Len(b) <= end <= s.size
    requires b.order < s.max ==> b.addr % Pow2(b.order + 1) == 0
    requires Span(b.addr, RoundUp(end, Pow2(s.max))) !! s.area
    ensures Releasable(s, b) && Quiet(s, b) && LoopInBounds(s, b.addr, b.order)
    ensures var t := Free(s, b);
            && t.contents == s.contents[b.order := s.contents[b.order] + [b.addr]]
            && t.live == s.live && t.area == s.area + Span(b.addr, b.addr + Len(b))
  {
    hide Tiles, FreeBlocks, NoRepeats, Honest, RoundUp;
    ChunkReleasable(s, b, end);
    RegionStepQuiet(s, b, end);
    QuietInBounds(s, b);
  }

  /** The address given back starts on a page that holds no link. */
  lemma StartFree(s: State, b: Block)
    requires Inv(s) && Releasable(s, b)
    ensures Stacks.PageFree(s.contents, Stacks.PageOf(b.addr))
  {
    ReleasableApart(s, b);
    assert In(b, b.addr);
    hide FreeBlocks, Tiles, NoRepeats;
    forall c | c in FreeBlocks(s.contents)
      ensures c.order >= 12 && Aligned(c) && Apart(b, c)
    {
      assert c in All(s);
    }
    OwnPageFree(s.contents, b, b.addr);
  }

  lemma MarksUpTo(addr: nat, o: nat, k: nat)
    requires o <= k
    ensures Marks(addr, o, k) == (if k == o then {} else Marks(addr, o, k - 1)) + {Mark(k, Index(addr, k))}
  {
    hide Index;
  }

  /** Unsetting the marks of addr changes no partner's mark. */
  lemma PartnerApart(clear: set<Mark>, addr: nat, o: nat, k: nat)
    requires o <= k
    ensures Partner(addr, k) in clear <==> Partner(addr, k) in clear + Marks(addr, o, k)
  {
    PartnerIndex(addr, k);
  }

  lemma OrderOfPower(k: nat)
    requires k <= 30
    ensures Log2.CeilLog2(Pow2(k)) == k && Pow2(k) < Pow2(64)
  {
    forall j: nat | j < k
      ensures Pow2(j) < Pow2(k)
    {
      Pow2Monotone(j, k);
    }
    Log2.CeilingUnique(Pow2(k), Log2.CeilLog2(Pow2(k)), k);
    Pow2Monotone(k, 64);
  }

  /** What one turn of the splitting loop may rely on. */
  lemma CarveReady(live: set<Block>, contents: seq<seq<nat>>, cur: Block, area: iset<nat>, size: nat)
    requires Split(live, contents, cur, area) && 12 < cur.order <= |contents| && cur.addr + Len(cur) <= size
    requires forall c :: c in FreeBlocks(contents) ==> c.order >= 12 && Aligned(c)
    ensures var j := cur.order - 1; var hi := Block(cur.addr + Pow2(j), j);
            var contents' := contents[j := contents[j] + [hi.addr]];
            && Split(live, contents', Block(cur.addr, j), area) && hi.addr == BuddyOf(cur.addr, j)
            && Stacks.PageFree(contents, Stacks.PageOf(hi.addr))
            && Fits(size, Mark(j, Index(cur.addr, j))) && Fits(size, Mark(j + 1, Index(cur.addr, j + 1)))
            && Aligned(hi) && (forall c :: c in FreeBlocks(contents') <==> c in FreeBlocks(contents) || c == hi)
  {
    hide Split, Tiles, NoRepeats, FreeBlocks, Fits, BuddyOf, Index;
    var j := cur.order - 1;
    var hi := Block(cur.addr + Pow2(j), j);
    HalveStep(live, contents, cur, area);
    BlockIndex(size, cur.addr, j);
    MarksFit(size, cur.addr, j);
    BlockIndex(size, cur.addr, j + 1);
    MarksFit(size, cur.addr, j + 1);
    assert In(hi, hi.addr);
    OwnPageFree(contents, hi, hi.addr);
  }

  lemma HalvedNone(contents: seq<seq<nat>>, addr: nat, k: nat)
    ensures Halved(contents, addr, k, k) == contents
  {}

  lemma HalvedMore(contents: seq<seq<nat>>, addr: nat, j: nat, k: nat)
    requires 0 < j <= k <= |contents|
    ensures var h := Halved(contents, addr, j, k);
            Halved(contents, addr, j - 1, k) == h[j - 1 := h[j - 1] + [addr + Pow2(j - 1)]]
  {}

  lemma MarksMore(addr: nat, j: nat, k: nat)
    requires 0 < j <= k
    ensures Marks(addr, j - 1, k) ==
              (if j == k then {} else Marks(addr, j, k)) + {Mark(j, Index(addr, j)), Mark(j - 1, Index(addr, j - 1))}
  {
    hide Index;
  }
}
