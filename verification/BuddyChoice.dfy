/** What buddy_alloc and buddy_free of lib/buddy.c do, order by order: which stack loses
    a block, which stacks gain one, which marks change.  The functions of BuddyView are
    proved to do just that. */
module BuddyChoice {
  import opened Arithmetic
  import opened Bits
  import opened Blocks
  import opened BuddyView
  import opened Log2

  /** The other one of a pair. */
  ghost function Other(i: nat): nat {
    if i % 2 == 0 then i + 1 else i - 1
  }

  /** The mark of an address at an order, named by arithmetic. */
  ghost predicate IsMark(m: Mark, addr: nat, lo: nat, hi: nat) {
    lo <= m.order <= hi && m.index == Quotient(addr, Pow2(m.order))
  }

  // ----- buddy_free

  ghost predicate PartnerClear(clear: set<Mark>, addr: nat, o: nat) {
    Mark(o, Other(Quotient(addr, Pow2(o)))) in clear
  }

  /** The loop goes up while the partner's mark is clear, and no further than max. */
  ghost predicate StopsAt(clear: set<Mark>, addr: nat, o: nat, max: nat, m: nat) {
    && o <= m <= max
    && (forall j :: o <= j < m ==> PartnerClear(clear, addr, j))
    && (m == max || !PartnerClear(clear, addr, m))
  }

  /** The partner's mark is the other one of a pair. */
  lemma PartnerIndex(addr: nat, o: nat)
    ensures Partner(addr, o) == Mark(o, Other(Quotient(addr, Pow2(o))))
  {
    XorBit(addr, o);
    ShrDivides(addr, o);
    hide Xor, Pow2, Shr;
    NextIndex(addr, Pow2(o));
  }

  lemma NextIndex(x: nat, d: nat)
    requires d > 0
    ensures (x + d) / d == x / d + 1
    ensures x >= d ==> (x - d) / d == x / d - 1
  {
    var q, r := x / d, x % d;
    assert x == d * q + r;
    assert x + d == d * (q + 1) + r && x - d == d * (q - 1) + r;
    EuclidUnique(x + d, d, q + 1, r);
    EuclidUnique(x - d, d, q - 1, r);
  }

  /** The loop stops at the one order where that is so. */
  lemma {:induction false} StopOrderIff(clear: set<Mark>, addr: nat, o: nat, max: nat, m: nat)
    requires o <= max
    ensures m == StopOrder(clear, addr, o, max) <==> StopsAt(clear, addr, o, max, m)
    decreases max - o
  {
    PartnerIndex(addr, o);
    hide Partner;
    if o < max && PartnerClear(clear, addr, o) {
      StopOrderIff(clear, addr, o + 1, max, m);
    }
    hide PartnerClear;
  }

  /** A block given back lies on top of the stack of order m and nowhere else, its
      marks are clear from its own order to m, and no other mark changes. */
  ghost predicate GivenBack(s: State, t: State, b: Block, m: nat) {
    && m < |s.contents| == |t.contents|
    && (forall k :: 0 <= k < |s.contents| ==>
          t.contents[k] == if k == m then s.contents[k] + [b.addr] else s.contents[k])
    && (forall c :: c in t.clear <==> c in s.clear || IsMark(c, b.addr, b.order, m))
    && (forall c :: c in t.live <==> c in s.live && c != b)
    && (forall x: nat :: x in t.area <==> x in s.area || b.addr <= x < b.addr + Pow2(b.order))
  }

  /** Everything a call of buddy_free does. */
  ghost predicate Returned(s: State, t: State, b: Block) {
    exists m: nat :: StopsAt(s.clear, b.addr, b.order, s.max, m) && GivenBack(s, t, b, m)
  }

  lemma FreeOutcome(s: State, b: Block, m: nat)
    requires b.order <= s.max < |s.contents| && StopsAt(s.clear, b.addr, b.order, s.max, m)
    ensures GivenBack(s, Free(s, b), b, m) && Returned(s, Free(s, b), b)
  {
    StopOrderIff(s.clear, b.addr, b.order, s.max, m);
    hide StopsAt, StopOrder, Pow2, Quotient;
    assert forall x: nat :: x in Range(b) <==> In(b, x);
    var t := Free(s, b);
    forall c
      ensures c in t.clear <==> c in s.clear || IsMark(c, b.addr, b.order, m)
    {
      MarksIff(c, b.addr, b.order, m);
    }
  }

  lemma MarksIff(c: Mark, addr: nat, lo: nat, hi: nat)
    ensures c in Marks(addr, lo, hi) <==> IsMark(c, addr, lo, hi)
  {
    hide Quotient;
    if IsMark(c, addr, lo, hi) {
      var k := c.order;
      assert c == Mark(k, Index(addr, k));
      assert Mark(k, Index(addr, k)) in Marks(addr, lo, hi);
    }
  }

  // ----- buddy_alloc

  /** The least order that is allowed and holds the size. */
  ghost predicate LeastOrder(s: State, size: nat, o: nat) {
    o >= s.min && Pow2(o) >= size && (o > s.min ==> Pow2(o - 1) < size)
  }

  /** The first order from o on with a block on its stack. */
  ghost predicate FirstWithBlock(s: State, o: nat, k: nat) {
    o <= k <= s.max < |s.contents| && s.contents[k] != [] && forall j :: o <= j < k ==> s.contents[j] == []
  }

  /** The newest block of order k is taken; its lower end of order o is handed out, and
      every order between gets the upper half it leaves.  Its marks are set from o to k. */
  ghost predicate Taken(s: State, t: State, addr: nat, o: nat, k: nat) {
    && k < |s.contents| == |t.contents| && s.contents[k] != [] && addr == s.contents[k][|s.contents[k]| - 1]
    && (forall j :: 0 <= j < |s.contents| ==>
          t.contents[j] == if j == k then s.contents[k][..|s.contents[k]| - 1]
                           else if o <= j < k then s.contents[j] + [addr + Pow2(j)] else s.contents[j])
    && (forall c :: c in t.clear <==> c in s.clear && !IsMark(c, addr, o, k))
    && (forall c :: c in t.live <==> c in s.live || c == Block(addr, o))
    && t.area == s.area
  }

  lemma OrderUnique(s: State, size: nat, o: nat)
    requires LeastOrder(s, size, o)
    ensures OrderFor(s, size) == o
  {
    var p := OrderFor(s, size);
    LargeBefore(size, p, o);
    LargeBefore(size, o, p);
  }

  lemma LargeBefore(size: nat, p: nat, q: nat)
    requires Pow2(p) >= size
    ensures p < q ==> Pow2(q - 1) >= size
  {
    if p < q {
      Pow2Below(p, q - 1);
    }
  }

  lemma AllocOutcome(s: State, size: nat, o: nat, k: nat)
    requires LeastOrder(s, size, o) && FirstWithBlock(s, o, k)
    ensures Grants(s, size) && Taken(s, Alloc(s, size), Granted(s, size).addr, o, k)
  {
    OrderUnique(s, size, o);
    hide LeastOrder, Pow2, Quotient, OrderFor, IsMark, Marks;
    assert FirstStocked(s.contents, o, s.max) == k;
    var addr := s.contents[k][|s.contents[k]| - 1];
    forall c
      ensures c in Marks(addr, o, k) <==> IsMark(c, addr, o, k)
    {
      MarksIff(c, addr, o, k);
    }
  }

  lemma AllocFails(s: State, size: nat, o: nat)
    requires s.max < |s.contents| && LeastOrder(s, size, o) && forall j :: o <= j <= s.max ==> s.contents[j] == []
    ensures !Grants(s, size) && Alloc(s, size) == s
  {
    OrderUnique(s, size, o);
    hide LeastOrder, Pow2;
  }

  /** Everything a call of buddy_alloc does: the block at addr, or nothing and NULL. */
  ghost predicate Served(s: State, t: State, size: nat, addr: nat) {
    exists o: nat :: LeastOrder(s, size, o) &&
      if forall k :: o <= k <= s.max && k < |s.contents| ==> s.contents[k] == [] then t == s && addr == 0
      else exists k: nat :: FirstWithBlock(s, o, k) && Taken(s, t, addr, o, k)
  }

  lemma AllocServes(s: State, size: nat)
    requires s.max < |s.contents|
    ensures Served(s, Alloc(s, size), size, if Grants(s, size) then Granted(s, size).addr else 0)
  {
    var o := OrderFor(s, size);
    assert LeastOrder(s, size, o);
    hide LeastOrder, Taken, OrderFor, Pow2;
    if Grants(s, size) {
      AllocOutcome(s, size, o, Source(s, size));
    } else {
      AllocFails(s, size, o);
    }
  }
}
