/** The kernel heap of mm/heap.c as a value: an address-ordered sequence of
    page-backed majors (regions), each with an address-ordered sequence of live
    minors (blocks).  malloc, free and realloc are functions on this value; the
    class in Heap.dfy, which relinks headers in place, is proved to follow them.
    All claims about runs are proved here. */
module HeapView {
  import opened Bits
  import opened Words

  const PAGE_COUNT: nat := 16
  const HEAP_START: nat := 0xFFFF_8800_0000_0000
  const ALIGNMENT: nat := 16
  const ALIGN_INFO: nat := 16
  const SLACK: nat := ALIGNMENT + ALIGN_INFO
  const MAJOR: nat := 40  // sizeof(struct liballoc_major)
  const MINOR: nat := 40  // sizeof(struct liballoc_minor)

  /** A live minor: its header address, its size and the size asked for. */
  datatype Block = Block(addr: nat, size: nat, req: nat)

  /** A major: its address, its size in bytes and its live minors. */
  datatype Region = Region(base: nat, size: nat, blocks: seq<Block>)

  /** best is l_bestBet (0 is NULL), end is heap_end. */
  datatype View = View(regions: seq<Region>, best: nat, end: nat)

  const EMPTY_HEAP: View := View([], 0, HEAP_START)

  // ----- geometry of one region

  function BlockEnd(b: Block): nat {
    b.addr + MINOR + b.size
  }

  function GapStart(r: Region, k: nat): nat
    requires k <= |r.blocks|
  {
    if k == 0 then r.base + MAJOR else BlockEnd(r.blocks[k - 1])
  }

  function GapEnd(r: Region, k: nat): nat
    requires k <= |r.blocks|
  {
    if k == |r.blocks| then r.base + r.size else r.blocks[k].addr
  }

  /** The free bytes before block k, or after the last block. */
  function Gap(r: Region, k: nat): int
    requires k <= |r.blocks|
  {
    GapEnd(r, k) - GapStart(r, k)
  }

  ghost predicate Ordered(r: Region) {
    forall k :: 0 <= k <= |r.blocks| ==> GapStart(r, k) <= GapEnd(r, k)
  }

  ghost predicate RegionOk(r: Region) {
    && 0 < r.base && r.base % PAGE_SIZE == 0
    && r.size % PAGE_SIZE == 0 && r.size < UINT
    && Ordered(r)
    && (forall k :: 0 <= k < |r.blocks| ==> r.blocks[k].req + SLACK <= r.blocks[k].size)
  }

  function Used(bs: seq<Block>): nat {
    if bs == [] then 0 else Used(bs[..|bs| - 1]) + MINOR + bs[|bs| - 1].size
  }

  function Payload(bs: seq<Block>): nat {
    if bs == [] then 0 else Payload(bs[..|bs| - 1]) + bs[|bs| - 1].size
  }

  /** maj->usage */
  function Usage(r: Region): nat {
    MAJOR + Used(r.blocks)
  }

  function Unused(r: Region): int {
    r.size - Usage(r)
  }

  lemma {:induction false} UsedConcat(a: seq<Block>, b: seq<Block>)
    ensures Used(a + b) == Used(a) + Used(b)
    ensures Payload(a + b) == Payload(a) + Payload(b)
  {
    if b == [] {
      assert a + b == a;
    } else {
      var n := |b| - 1;
      assert (a + b)[..|a + b| - 1] == a + b[..n];
      UsedConcat(a, b[..n]);
    }
  }

  lemma {:induction false} UsedBefore(r: Region, k: nat)
    requires Ordered(r) && k <= |r.blocks|
    ensures r.base + MAJOR + Used(r.blocks[..k]) <= GapStart(r, k)
  {
    if k > 0 {
      UsedBefore(r, k - 1);
      assert r.blocks[..k][..k - 1] == r.blocks[..k - 1];
      assert GapStart(r, k - 1) <= GapEnd(r, k - 1);
    }
  }

  lemma {:induction false} UsedAfter(r: Region, k: nat)
    requires Ordered(r) && k <= |r.blocks|
    ensures GapEnd(r, k) + Used(r.blocks[k..]) <= r.base + r.size
    decreases |r.blocks| - k
  {
    if k < |r.blocks| {
      UsedAfter(r, k + 1);
      assert r.blocks[k..] == [r.blocks[k]] + r.blocks[k + 1..];
      UsedConcat([r.blocks[k]], r.blocks[k + 1..]);
      assert [r.blocks[k]][..0] == [];
      assert GapStart(r, k + 1) <= GapEnd(r, k + 1);
    }
  }

  /** Every single gap is at most the unused total, so the test in CASE 1 never
      skips a major that has a fitting gap. */
  lemma GapWithinUnused(r: Region, k: nat)
    requires Ordered(r) && k <= |r.blocks|
    ensures 0 <= Gap(r, k) <= Unused(r)
  {
    UsedBefore(r, k);
    UsedAfter(r, k);
    assert r.blocks == r.blocks[..k] + r.blocks[k..];
    UsedConcat(r.blocks[..k], r.blocks[k..]);
    assert GapStart(r, k) <= GapEnd(r, k);
  }

  lemma {:induction false} BlocksOrdered(r: Region, j: nat, k: nat)
    requires Ordered(r) && j < k <= |r.blocks|
    ensures BlockEnd(r.blocks[j]) <= GapStart(r, k)
    ensures k < |r.blocks| ==> BlockEnd(r.blocks[j]) <= r.blocks[k].addr
    decreases k
  {
    assert GapStart(r, k) <= GapEnd(r, k);
    if j < k - 1 {
      BlocksOrdered(r, j, k - 1);
    }
  }

  lemma BlockInside(r: Region, k: nat)
    requires Ordered(r) && k < |r.blocks|
    ensures r.base + MAJOR <= r.blocks[k].addr
    ensures BlockEnd(r.blocks[k]) <= r.base + r.size
  {
    UsedBefore(r, k);
    assert GapStart(r, k) <= GapEnd(r, k);
    assert GapStart(r, k + 1) <= GapEnd(r, k + 1);
    UsedAfter(r, k + 1);
  }

  // ----- placing a block

  function {:induction false} FirstFit(r: Region, need: nat, k: nat): (f: nat)
    requires k <= |r.blocks| + 1
    ensures k <= f <= |r.blocks| + 1
    ensures forall g :: k <= g < f ==> Gap(r, g) < need
    ensures f <= |r.blocks| ==> Gap(r, f) >= need
    decreases |r.blocks| + 1 - k
  {
    if k == |r.blocks| + 1 || Gap(r, k) >= need then k else FirstFit(r, need, k + 1)
  }

  predicate HasRoom(r: Region, need: nat) {
    FirstFit(r, need, 0) <= |r.blocks|
  }

  /** The minor that goes into gap k. */
  function Placed(r: Region, k: nat, req: nat): Block
    requires k <= |r.blocks|
  {
    Block(GapStart(r, k), req + SLACK, req)
  }

  function Insert(r: Region, k: nat, req: nat): Region
    requires k <= |r.blocks|
  {
    r.(blocks := r.blocks[..k] + [Placed(r, k, req)] + r.blocks[k..])
  }

  function Delete(r: Region, k: nat): Region
    requires k < |r.blocks|
  {
    r.(blocks := r.blocks[..k] + r.blocks[k + 1..])
  }

  lemma InsertOrdered(r: Region, k: nat, req: nat)
    requires Ordered(r) && k <= |r.blocks| && Gap(r, k) >= req + SLACK + MINOR
    ensures Ordered(Insert(r, k, req))
  {
    var r' := Insert(r, k, req);
    forall j | 0 <= j <= |r'.blocks|
      ensures GapStart(r', j) <= GapEnd(r', j)
    {
      if j < k {
        assert r'.blocks[j] == r.blocks[j] && (j > 0 ==> r'.blocks[j - 1] == r.blocks[j - 1]);
        assert GapStart(r, j) <= GapEnd(r, j);
      } else if j > k + 1 {
        assert GapStart(r, j - 1) <= GapEnd(r, j - 1);
      }
    }
  }

  lemma UsedInsert(a: seq<Block>, b: Block, c: seq<Block>)
    ensures Used(a + [b] + c) == Used(a + c) + MINOR + b.size
    ensures Payload(a + [b] + c) == Payload(a + c) + b.size
  {
    UsedConcat(a + [b], c);
    UsedConcat(a, c);
    assert (a + [b])[..|a|] == a;
  }

  lemma InsertOk(r: Region, k: nat, req: nat)
    requires RegionOk(r) && k <= |r.blocks| && Gap(r, k) >= req + SLACK + MINOR
    ensures RegionOk(Insert(r, k, req))
    ensures Usage(Insert(r, k, req)) == Usage(r) + req + SLACK + MINOR
    ensures Payload(Insert(r, k, req).blocks) == Payload(r.blocks) + req + SLACK
  {
    hide Gap, GapStart, GapEnd, Ordered, Used, Payload;
    InsertOrdered(r, k, req);
    UsedInsert(r.blocks[..k], Placed(r, k, req), r.blocks[k..]);
    assert r.blocks == r.blocks[..k] + r.blocks[k..];
    InsertedReq(r, k, req);
  }

  /** Every block of the new list still has room for its padding. */
  lemma InsertedReq(r: Region, k: nat, req: nat)
    requires k <= |r.blocks| && forall j :: 0 <= j < |r.blocks| ==> r.blocks[j].req + SLACK <= r.blocks[j].size
    ensures var bs := Insert(r, k, req).blocks; forall j :: 0 <= j < |bs| ==> bs[j].req + SLACK <= bs[j].size
  {
    var bs := Insert(r, k, req).blocks;
    forall j | 0 <= j < |bs|
      ensures bs[j].req + SLACK <= bs[j].size
    {
      assert bs[j] == if j < k then r.blocks[j] else if j == k then Placed(r, k, req) else r.blocks[j - 1];
    }
  }

  lemma DeleteOk(r: Region, k: nat)
    requires RegionOk(r) && k < |r.blocks|
    ensures RegionOk(Delete(r, k))
    ensures Usage(Delete(r, k)) == Usage(r) - r.blocks[k].size - MINOR
    ensures Payload(Delete(r, k).blocks) == Payload(r.blocks) - r.blocks[k].size
  {
    var r' := Delete(r, k);
    forall j | 0 <= j <= |r'.blocks|
      ensures GapStart(r', j) <= GapEnd(r', j)
    {
      if j < k {
        assert GapStart(r, j) <= GapEnd(r, j);
      } else if j == k {
        assert GapStart(r, k) <= GapEnd(r, k);
        assert GapStart(r, k + 1) <= GapEnd(r, k + 1);
      } else {
        assert GapStart(r, j + 1) <= GapEnd(r, j + 1);
      }
    }
    UsedInsert(r.blocks[..k], r.blocks[k], r.blocks[k + 1..]);
    assert r.blocks == r.blocks[..k] + [r.blocks[k]] + r.blocks[k + 1..];
  }

  // ----- the size of a new major: 32-bit arithmetic written out

  function RequestedPages(size: nat): nat {
    var st := (size + MAJOR + MINOR) % UINT;
    var pages := if st % PAGE_SIZE == 0 then st / PAGE_SIZE else st / PAGE_SIZE + 1;
    if pages < PAGE_COUNT then PAGE_COUNT else pages
  }

  /** maj->size as stored in its 32-bit field. */
  function NewMajorSize(size: nat): nat {
    RequestedPages(size) * PAGE_SIZE % UINT
  }

  /** The requests for which the 32-bit fields of mm/heap.c do not truncate. */
  predicate Bounded(req: nat) {
    req + SLACK + MAJOR + MINOR <= UINT - PAGE_SIZE
  }

  /** A new major has room for the request that made it exactly below the bound. */
  lemma NewMajorHasRoomIff(req: nat)
    ensures NewMajorSize(req + SLACK) >= req + SLACK + MAJOR + MINOR <==> Bounded(req)
    ensures Bounded(req) ==> NewMajorSize(req + SLACK) == RequestedPages(req + SLACK) * PAGE_SIZE
    ensures NewMajorSize(req + SLACK) % PAGE_SIZE == 0
  {
    var st := (req + SLACK + MAJOR + MINOR) % UINT;
    var pages := RequestedPages(req + SLACK);
    assert pages * PAGE_SIZE >= st;
    assert pages <= 0x10_0000;
  }

  /** The least request above the bound: the pages asked for wrap around to a size of 0. */
  lemma NewMajorTooSmall()
    ensures var req := UINT - PAGE_SIZE - SLACK - MAJOR - MINOR + 1;
            !Bounded(req) && Bounded(req - 1) && NewMajorSize(req + SLACK) == 0
  {}

  // ----- the search over the majors

  datatype Bet = Bet(addr: nat, free: int)

  function Better(bet: Bet, r: Region): Bet {
    if bet.free < Unused(r) then Bet(r.base, Unused(r)) else bet
  }

  function Scan(rs: seq<Region>, bet: Bet): Bet {
    if rs == [] then bet else Better(Scan(rs[..|rs| - 1], bet), rs[|rs| - 1])
  }

  function {:induction false} IndexOf(rs: seq<Region>, base: nat): (i: nat)
    ensures i <= |rs|
    ensures i < |rs| ==> rs[i].base == base
    ensures forall j :: 0 <= j < i ==> rs[j].base != base
  {
    if rs == [] then 0
    else if rs[0].base == base then 0
    else
      var i := IndexOf(rs[1..], base);
      assert forall j :: 1 <= j < 1 + i ==> rs[j] == rs[1..][j - 1];
      1 + i
  }

  predicate Listed(v: View, base: nat) {
    IndexOf(v.regions, base) < |v.regions|
  }

  /** The first region from i on with a fitting gap, or the number of regions. */
  function {:induction false} Search(rs: seq<Region>, i: nat, need: nat): (j: nat)
    requires i <= |rs|
    ensures i <= j <= |rs|
    ensures forall g :: i <= g < j ==> !HasRoom(rs[g], need)
    ensures j < |rs| ==> HasRoom(rs[j], need)
    decreases |rs| - i
  {
    if i == |rs| || HasRoom(rs[i], need) then i else Search(rs, i + 1, need)
  }

  function InitialBet(v: View): Bet {
    if v.best == 0 || !Listed(v, v.best) then Bet(0, 0)
    else Bet(v.best, Unused(v.regions[IndexOf(v.regions, v.best)]))
  }

  predicate StartsAtBet(v: View, need: nat) {
    v.best != 0 && Listed(v, v.best) && InitialBet(v).free > need
  }

  function Start(v: View, need: nat): (s: nat)
    ensures s <= |v.regions|
  {
    if StartsAtBet(v, need) then IndexOf(v.regions, v.best) else 0
  }

  function UpTo(rs: seq<Region>, j: nat): seq<Region> {
    if j < |rs| then rs[..j + 1] else rs
  }

  /** The region malloc ends up in, or the number of regions. */
  function Chosen(v: View, need: nat): (j: nat)
    ensures j <= |v.regions|
  {
    var j := Search(v.regions, Start(v, need), need);
    if j == |v.regions| && StartsAtBet(v, need) then Search(v.regions, 0, need) else j
  }

  /** The regions malloc looks at, in order, up to the one it ends up in. */
  function Visited(v: View, need: nat): seq<Region> {
    var rs, s := v.regions, Start(v, need);
    var j := Search(rs, s, need);
    if j < |rs| then rs[s..j + 1]
    else if StartsAtBet(v, need) then rs[s..] + UpTo(rs, Search(rs, 0, need))
    else rs
  }

  // ----- malloc, free, realloc

  /** ALIGN: the pointer handed out for a minor. */
  function UserPtr(b: Block): (p: nat)
    ensures p % ALIGNMENT == 0
    ensures b.addr + MINOR + ALIGN_INFO <= p < b.addr + MINOR + SLACK
  {
    var p := b.addr + MINOR + ALIGN_INFO;
    LowBits(p);
    var diff := And(p, ALIGNMENT - 1);
    if diff != 0 then p + (ALIGNMENT - diff) else p
  }

  lemma LowBits(p: nat)
    ensures And(p, ALIGNMENT - 1) == p % ALIGNMENT
  {
    hide And;
    AndLowMask(p, 4);
    assert Pow2(4) == ALIGNMENT;
  }

  function NewMajor(v: View, req: nat): Region {
    Region(v.end, NewMajorSize(req + SLACK), [])
  }

  datatype Alloc = Alloc(view: View, ptr: nat)

  function Malloc(v: View, req: nat, sourceOk: bool): Alloc {
    var rs, need := v.regions, req + SLACK + MINOR;
    var j := Chosen(v, need);
    var bet := Scan(Visited(v, need), InitialBet(v));
    if j < |rs| then
      var k := FirstFit(rs[j], need, 0);
      var r := Insert(rs[j], k, req);
      Alloc(View(rs[j := r], bet.addr, v.end), UserPtr(r.blocks[k]))
    else if !sourceOk then
      Alloc(v.(best := bet.addr), 0)
    else
      var newMajor := NewMajor(v, req);
      var r := Insert(newMajor, 0, req);
      // A new major enters the bet only when the loop passes through its head again.
      var looped := |rs| == 0 || Unused(rs[|rs| - 1]) >= need;
      Alloc(View(rs + [r], (if looped then Better(bet, newMajor) else bet).addr, v.end + newMajor.size),
            UserPtr(r.blocks[0]))
  }

  predicate IsBlock(rs: seq<Region>, i: nat, k: nat) {
    i < |rs| && k < |rs[i].blocks|
  }

  function BlockAt(rs: seq<Region>, i: nat, k: nat): Block
    requires IsBlock(rs, i, k)
  {
    rs[i].blocks[k]
  }

  function Release(v: View, i: nat, k: nat): View
    requires IsBlock(v.regions, i, k)
  {
    var rs, r := v.regions, Delete(v.regions[i], k);
    if r.blocks == [] then
      View(rs[..i] + rs[i + 1..], if v.best == r.base then 0 else v.best, v.end)
    else
      var rs' := rs[i := r];
      var b := IndexOf(rs', v.best);
      var better := v.best != 0 && b < |rs'| && ToInt(Unused(r)) > ToInt(Unused(rs'[b]));
      View(rs', if better then r.base else v.best, v.end)
  }

  /** realloc to a smaller size only changes req_size. */
  function Shrink(v: View, i: nat, k: nat, req: nat): View
    requires IsBlock(v.regions, i, k)
  {
    var r := v.regions[i];
    v.(regions := v.regions[i := r.(blocks := r.blocks[k := r.blocks[k].(req := req)])])
  }

  // ----- the invariant

  ghost predicate RegionsOk(rs: seq<Region>) {
    && (forall i :: 0 <= i < |rs| ==> RegionOk(rs[i]))
    && (forall i, j :: 0 <= i < j < |rs| ==> rs[i].base + rs[i].size <= rs[j].base)
  }

  ghost predicate Inv(v: View) {
    && 0 < v.end && v.end % PAGE_SIZE == 0
    && RegionsOk(v.regions)
    && (forall i :: 0 <= i < |v.regions| ==> v.regions[i].blocks != [])
    && (forall i :: 0 <= i < |v.regions| ==> v.regions[i].base + v.regions[i].size <= v.end)
    && (v.best == 0 || Listed(v, v.best))
  }

  function InUse(rs: seq<Region>): nat {
    if rs == [] then 0 else InUse(rs[..|rs| - 1]) + Payload(rs[|rs| - 1].blocks)
  }

  function Allocated(rs: seq<Region>): nat {
    if rs == [] then 0 else Allocated(rs[..|rs| - 1]) + rs[|rs| - 1].size
  }

  lemma {:induction false} TotalsConcat(a: seq<Region>, b: seq<Region>)
    ensures InUse(a + b) == InUse(a) + InUse(b)
    ensures Allocated(a + b) == Allocated(a) + Allocated(b)
  {
    if b == [] {
      assert a + b == a;
    } else {
      assert (a + b)[..|a + b| - 1] == a + b[..|b| - 1];
      TotalsConcat(a, b[..|b| - 1]);
    }
  }

  lemma TotalsUpdate(rs: seq<Region>, i: nat, r: Region)
    requires i < |rs|
    ensures InUse(rs[i := r]) == InUse(rs) - Payload(rs[i].blocks) + Payload(r.blocks)
    ensures Allocated(rs[i := r]) == Allocated(rs) - rs[i].size + r.size
    ensures InUse(rs[..i] + rs[i + 1..]) == InUse(rs) - Payload(rs[i].blocks)
    ensures Allocated(rs[..i] + rs[i + 1..]) == Allocated(rs) - rs[i].size
  {
    var a, b := rs[..i], rs[i + 1..];
    assert rs == a + ([rs[i]] + b) && rs[i := r] == a + ([r] + b);
    TotalsConcat(a, [rs[i]] + b);
    TotalsConcat([rs[i]], b);
    TotalsConcat(a, [r] + b);
    TotalsConcat([r], b);
    TotalsConcat(a, b);
    assert [rs[i]][..0] == [] && [r][..0] == [];
  }

  lemma {:induction false} ScanListed(rs: seq<Region>, bet: Bet)
    ensures var s := Scan(rs, bet).addr;
            s == bet.addr || exists i :: 0 <= i < |rs| && rs[i].base == s
  {
    if rs != [] {
      ScanListed(rs[..|rs| - 1], bet);
    }
  }

  lemma ListedIff(v: View, base: nat)
    ensures Listed(v, base) <==> exists i :: 0 <= i < |v.regions| && v.regions[i].base == base
  {}

  lemma VisitedIn(v: View, need: nat, k: nat)
    requires k < |Visited(v, need)|
    ensures Visited(v, need)[k] in v.regions
  {}

  /** Whatever the search visits, the bet stays NULL or a listed major. */
  lemma BetAfterSearch(v: View, need: nat)
    requires Inv(v)
    ensures var b := Scan(Visited(v, need), InitialBet(v)).addr; b == 0 || Listed(v, b)
  {
    var vis, bet := Visited(v, need), InitialBet(v);
    assert bet.addr == 0 || Listed(v, bet.addr);
    hide Inv, InitialBet, Visited, Scan, Listed;
    ScanListed(vis, bet);
    var b := Scan(vis, bet).addr;
    ListedIff(v, b);
    if b != bet.addr {
      var i :| 0 <= i < |vis| && vis[i].base == b;
      VisitedIn(v, need, i);
    }
  }

  lemma ChosenHasRoomIff(v: View, need: nat)
    ensures Chosen(v, need) < |v.regions| <==>
            exists i :: 0 <= i < |v.regions| && HasRoom(v.regions[i], need)
    ensures Chosen(v, need) < |v.regions| ==> HasRoom(v.regions[Chosen(v, need)], need)
  {}

  /** A gap is found exactly when there is one. */
  lemma HasRoomIff(r: Region, need: nat)
    ensures HasRoom(r, need) <==> exists k :: 0 <= k <= |r.blocks| && Gap(r, k) >= need
  {}

  lemma FreshRegion(v: View, req: nat)
    requires Inv(v) && Bounded(req)
    ensures var r, need := NewMajor(v, req), req + SLACK + MINOR;
            && RegionOk(r) && Gap(r, 0) >= need && Unused(r) >= need
            && RegionOk(Insert(r, 0, req))
            && HasRoom(r, need) && FirstFit(r, need, 0) == 0
  {
    NewMajorHasRoomIff(req);
    InsertOk(NewMajor(v, req), 0, req);
  }

  /** Replacing a region in place, or appending one above all others, keeps
      the order of the majors. */
  lemma ReplaceKeepsInv(v: View, i: nat, r: Region, best: nat)
    requires Inv(v) && i < |v.regions|
    requires RegionOk(r) && r.blocks != []
    requires r.base == v.regions[i].base && r.size == v.regions[i].size
    requires best == 0 || Listed(v, best)
    ensures Inv(View(v.regions[i := r], best, v.end))
  {
    hide RegionOk;
    var v' := View(v.regions[i := r], best, v.end);
    assert forall j :: 0 <= j < |v.regions| ==> v'.regions[j].base == v.regions[j].base;
    ListedIff(v, best);
    ListedIff(v', best);
  }

  lemma AppendKeepsInv(v: View, r: Region, best: nat)
    requires Inv(v)
    requires RegionOk(r) && r.blocks != [] && r.base == v.end
    requires best == 0 || best == r.base || Listed(v, best)
    ensures Inv(View(v.regions + [r], best, v.end + r.size))
  {
    assert r.size % PAGE_SIZE == 0;
    hide RegionOk, Listed, IndexOf;
    var rs := v.regions + [r];
    forall j, k | 0 <= j < k < |rs|
      ensures rs[j].base + rs[j].size <= rs[k].base
    {
      assert rs[j] == v.regions[j] && (k < |v.regions| ==> rs[k] == v.regions[k]);
    }
    BestInLonger(v, r, best);
  }

  lemma BestInLonger(v: View, r: Region, best: nat)
    requires best == 0 || best == r.base || Listed(v, best)
    ensures var v' := View(v.regions + [r], best, v.end + r.size); best == 0 || Listed(v', best)
  {
    var v' := View(v.regions + [r], best, v.end + r.size);
    ListedIff(v, best);
    ListedIff(v', best);
    hide Listed;
    if best == r.base {
      assert v'.regions[|v.regions|] == r;
    } else if best != 0 {
      var b :| 0 <= b < |v.regions| && v.regions[b].base == best;
      assert v'.regions[b] == v.regions[b];
    }
  }

  lemma InvRegion(v: View, i: nat)
    requires Inv(v) && i < |v.regions|
    ensures RegionOk(v.regions[i]) && Listed(v, v.regions[i].base)
  {}

  lemma MallocKeepsInv(v: View, req: nat, sourceOk: bool)
    requires Inv(v) && Bounded(req)
    ensures Inv(Malloc(v, req, sourceOk).view)
  {
    hide Inv, RegionOk, Visited, Scan, InitialBet, FirstFit;
    var rs, need := v.regions, req + SLACK + MINOR;
    var j := Chosen(v, need);
    ChosenHasRoomIff(v, need);
    BetAfterSearch(v, need);
    var v' := Malloc(v, req, sourceOk).view;
    if j < |rs| {
      InvRegion(v, j);
      var k := FirstFit(rs[j], need, 0);
      InsertOk(rs[j], k, req);
      ReplaceKeepsInv(v, j, Insert(rs[j], k, req), v'.best);
    } else if sourceOk {
      FreshRegion(v, req);
      AppendKeepsInv(v, v'.regions[|rs|], v'.best);
    } else {
      BestKeepsInv(v, v'.best);
    }
  }

  lemma BestKeepsInv(v: View, best: nat)
    requires Inv(v) && (best == 0 || Listed(v, best))
    ensures Inv(v.(best := best))
  {}

  lemma RemoveKeepsInv(v: View, i: nat)
    requires Inv(v) && i < |v.regions|
    ensures var best := if v.best == v.regions[i].base then 0 else v.best;
            Inv(View(v.regions[..i] + v.regions[i + 1..], best, v.end))
  {
    hide RegionOk, IndexOf, Listed;
    var rs, rs' := v.regions, v.regions[..i] + v.regions[i + 1..];
    var best := if v.best == rs[i].base then 0 else v.best;
    forall j | 0 <= j < |rs'|
      ensures RegionOk(rs'[j]) && rs'[j].blocks != [] && rs'[j].base + rs'[j].size <= v.end
    {
      assert rs'[j] == rs[Skip(i, j)];
    }
    forall j, k | 0 <= j < k < |rs'|
      ensures rs'[j].base + rs'[j].size <= rs'[k].base
    {
      assert rs'[j] == rs[Skip(i, j)] && rs'[k] == rs[Skip(i, k)];
    }
    BestStaysListed(v, i, best);
  }

  lemma BestStaysListed(v: View, i: nat, best: nat)
    requires i < |v.regions| && (best == 0 || (best != v.regions[i].base && Listed(v, best)))
    ensures var v' := View(v.regions[..i] + v.regions[i + 1..], best, v.end); best == 0 || Listed(v', best)
  {
    ListedIff(v, best);
    var v' := View(v.regions[..i] + v.regions[i + 1..], best, v.end);
    ListedIff(v', best);
    hide Listed;
    if best != 0 {
      var b :| 0 <= b < |v.regions| && v.regions[b].base == best;
      assert v'.regions[if b < i then b else b - 1] == v.regions[b];
    }
  }

  function Skip(i: nat, j: nat): nat {
    if j < i then j else j + 1
  }

  lemma ReleaseKeepsInv(v: View, i: nat, k: nat)
    requires Inv(v) && IsBlock(v.regions, i, k)
    ensures Inv(Release(v, i, k))
  {
    InvRegion(v, i);
    assert v.best == 0 || Listed(v, v.best);
    hide Inv, RegionOk, Listed;
    DeleteOk(v.regions[i], k);
    if Delete(v.regions[i], k).blocks == [] {
      RemoveKeepsInv(v, i);
    } else {
      ReplaceKeepsInv(v, i, Delete(v.regions[i], k), Release(v, i, k).best);
    }
  }

  lemma ShrinkKeepsInv(v: View, i: nat, k: nat, req: nat)
    requires Inv(v) && IsBlock(v.regions, i, k) && req <= BlockAt(v.regions, i, k).req
    ensures Inv(Shrink(v, i, k, req))
    ensures InUse(Shrink(v, i, k, req).regions) == InUse(v.regions)
    ensures Allocated(Shrink(v, i, k, req).regions) == Allocated(v.regions)
  {
    var r := v.regions[i];
    var b := r.blocks[k].(req := req);
    var r' := r.(blocks := r.blocks[k := b]);
    forall j | 0 <= j <= |r.blocks|
      ensures GapStart(r', j) <= GapEnd(r', j)
    {
      assert GapStart(r, j) <= GapEnd(r, j);
    }
    ReplaceKeepsInv(v, i, r', v.best);
    UsedInsert(r.blocks[..k], r.blocks[k], r.blocks[k + 1..]);
    UsedInsert(r.blocks[..k], b, r.blocks[k + 1..]);
    assert r.blocks == r.blocks[..k] + [r.blocks[k]] + r.blocks[k + 1..];
    assert r'.blocks == r.blocks[..k] + [b] + r.blocks[k + 1..];
    TotalsUpdate(v.regions, i, r');
  }

  // ----- what malloc's search finds

  /** malloc's loop stands before region i, has seen the given regions, and is in
      its first pass from the best bet (startedBet) or in a pass from the root. */
  ghost predicate Searching(v: View, need: nat, startedBet: bool, i: nat, seen: seq<Region>) {
    var rs, s := v.regions, Start(v, need);
    && i <= |rs|
    && if startedBet then
         && StartsAtBet(v, need) && s <= i && seen == rs[s..i]
         && (forall g :: s <= g < i ==> !HasRoom(rs[g], need))
       else
         && (forall g :: 0 <= g < i ==> !HasRoom(rs[g], need))
         && if StartsAtBet(v, need) then
              seen == rs[s..] + rs[..i] && (forall g :: s <= g < |rs| ==> !HasRoom(rs[g], need))
            else seen == rs[..i]
  }

  lemma SearchHop(v: View, need: nat, startedBet: bool, i: nat, seen: seq<Region>)
    requires Searching(v, need, startedBet, i, seen) && i < |v.regions| && !HasRoom(v.regions[i], need)
    ensures Searching(v, need, startedBet, i + 1, seen + [v.regions[i]])
  {
    hide HasRoom, StartsAtBet, Start;
    var rs, s := v.regions, Start(v, need);
    if startedBet {
      assert rs[s..i + 1] == rs[s..i] + [rs[i]];
    } else {
      assert rs[..i + 1] == rs[..i] + [rs[i]];
    }
  }

  lemma SearchRestart(v: View, need: nat, seen: seq<Region>)
    requires Searching(v, need, true, |v.regions|, seen)
    ensures Searching(v, need, false, 0, seen)
  {
    hide HasRoom, StartsAtBet, Start;
    assert v.regions[Start(v, need)..] + v.regions[..0] == seen;
  }

  lemma SearchArrives(v: View, need: nat, startedBet: bool, i: nat, seen: seq<Region>)
    requires Searching(v, need, startedBet, i, seen) && i < |v.regions| && HasRoom(v.regions[i], need)
    ensures Chosen(v, need) == i && Visited(v, need) == seen + [v.regions[i]]
  {
    hide HasRoom, StartsAtBet;
    var rs, s := v.regions, Start(v, need);
    var j := Search(rs, s, need);
    if startedBet {
      assert j == i;
      assert rs[s..i + 1] == rs[s..i] + [rs[i]];
    } else {
      assert Search(rs, 0, need) == i;
      assert rs[..i + 1] == rs[..i] + [rs[i]];
    }
  }

  lemma SearchExhausted(v: View, need: nat, seen: seq<Region>)
    requires Searching(v, need, false, |v.regions|, seen)
    ensures Chosen(v, need) == |v.regions| && Visited(v, need) == seen
  {
    hide HasRoom, StartsAtBet;
    var rs := v.regions;
    assert rs[..|rs|] == rs;
    assert Search(rs, 0, need) == |rs|;
    assert Search(rs, Start(v, need), need) == |rs|;
  }

  ghost predicate NoRoom(v: View, need: nat) {
    forall i, k :: 0 <= i < |v.regions| && 0 <= k <= |v.regions[i].blocks| ==> Gap(v.regions[i], k) < need
  }

  lemma NoRoomIff(v: View, need: nat)
    ensures NoRoom(v, need) <==> Chosen(v, need) == |v.regions|
  {
    ChosenHasRoomIff(v, need);
    forall i | 0 <= i < |v.regions|
      ensures HasRoom(v.regions[i], need) <==> exists k :: 0 <= k <= |v.regions[i].blocks| && Gap(v.regions[i], k) >= need
    {
      HasRoomIff(v.regions[i], need);
    }
  }

  lemma SearchBegins(v: View, need: nat)
    ensures Searching(v, need, StartsAtBet(v, need), Start(v, need), [])
    ensures v.regions != [] ==> Start(v, need) < |v.regions|
  {}

  lemma ScanStep(seen: seq<Region>, r: Region, bet: Bet)
    ensures Scan(seen + [r], bet) == Better(Scan(seen, bet), r)
  {
    assert (seen + [r])[..|seen|] == seen;
  }

  lemma TooFull(r: Region, need: nat)
    requires RegionOk(r) && Unused(r) < need
    ensures !HasRoom(r, need)
  {
    forall k | 0 <= k <= |r.blocks|
      ensures Gap(r, k) < need
    {
      GapWithinUnused(r, k);
    }
  }

  // The three ways malloc's search ends.

  lemma MallocInPlace(v: View, req: nat, sourceOk: bool, startedBet: bool, i: nat, seen: seq<Region>)
    requires i < |v.regions| && HasRoom(v.regions[i], req + SLACK + MINOR)
    requires Searching(v, req + SLACK + MINOR, startedBet, i, seen)
    ensures var k := FirstFit(v.regions[i], req + SLACK + MINOR, 0);
            var r := Insert(v.regions[i], k, req);
            Malloc(v, req, sourceOk) ==
            Alloc(View(v.regions[i := r], Scan(seen + [v.regions[i]], InitialBet(v)).addr, v.end), UserPtr(r.blocks[k]))
  {
    SearchArrives(v, req + SLACK + MINOR, startedBet, i, seen);
  }

  lemma MallocInNewMajor(v: View, req: nat, seen: seq<Region>)
    requires Searching(v, req + SLACK + MINOR, false, |v.regions|, seen)
    ensures var m, bet := NewMajor(v, req), Scan(seen, InitialBet(v));
            var r := Insert(m, 0, req);
            var looped := |v.regions| == 0 || Unused(v.regions[|v.regions| - 1]) >= req + SLACK + MINOR;
            Malloc(v, req, true) ==
            Alloc(View(v.regions + [r], (if looped then Better(bet, m) else bet).addr, v.end + m.size),
                  UserPtr(r.blocks[0]))
  {
    SearchExhausted(v, req + SLACK + MINOR, seen);
  }

  lemma MallocRefused(v: View, req: nat, seen: seq<Region>)
    requires Searching(v, req + SLACK + MINOR, false, |v.regions|, seen)
    ensures Malloc(v, req, false) == Alloc(v.(best := Scan(seen, InitialBet(v)).addr), 0)
  {
    SearchExhausted(v, req + SLACK + MINOR, seen);
  }

  /** Where malloc puts the block: region index and block index in the new view. */
  function Site(v: View, req: nat): (nat, nat) {
    var need := req + SLACK + MINOR;
    var j := Chosen(v, need);
    if j < |v.regions| then (j, FirstFit(v.regions[j], need, 0)) else (j, 0)
  }

  /** malloc fails exactly when no gap of any major fits and the system source
      refuses; it asks for a new major exactly when no gap fits; otherwise it
      fills the lowest fitting gap of one major and touches nothing else. */
  lemma MallocOutcome(v: View, req: nat, sourceOk: bool)
    requires Inv(v) && Bounded(req)
    ensures var a, need, (j, k) := Malloc(v, req, sourceOk), req + SLACK + MINOR, Site(v, req);
            && (a.ptr == 0 <==> NoRoom(v, need) && !sourceOk)
            && (a.ptr == 0 ==> a.view.regions == v.regions && a.view.end == v.end)
            && (NoRoom(v, need) && sourceOk ==>
                  && j == |v.regions| && k == 0
                  && a.view.regions[..j] == v.regions && |a.view.regions| == j + 1
                  && a.view.regions[j].base == v.end && v.end < a.view.end
                  && a.view.regions[j].blocks == [Block(v.end + MAJOR, req + SLACK, req)])
            && (!NoRoom(v, need) ==>
                  && j < |v.regions| && k <= |v.regions[j].blocks|
                  && Gap(v.regions[j], k) >= need
                  && (forall g :: 0 <= g < k ==> Gap(v.regions[j], g) < need)
                  && a.view.regions == v.regions[j := Insert(v.regions[j], k, req)]
                  && a.view.end == v.end)
            && (a.ptr != 0 ==> IsBlock(a.view.regions, j, k) && a.ptr == UserPtr(BlockAt(a.view.regions, j, k)))
  {
    NoRoomIff(v, req + SLACK + MINOR);
    NewMajorHasRoomIff(req);
    hide Inv, NoRoom, Visited, Scan, InitialBet;
    var a := Malloc(v, req, sourceOk);
    var (j, k) := Site(v, req);
    if j == |v.regions| && sourceOk {
      assert a.view.regions[..j] == v.regions;
    }
  }

  lemma MallocTotals(v: View, req: nat, sourceOk: bool)
    requires Inv(v) && Bounded(req)
    ensures var a, (j, k) := Malloc(v, req, sourceOk), Site(v, req);
            && InUse(a.view.regions) == InUse(v.regions) + (if a.ptr == 0 then 0 else req + SLACK)
            && Allocated(a.view.regions) == Allocated(v.regions) +
                 (if a.ptr != 0 && j == |v.regions| then NewMajorSize(req + SLACK) else 0)
  {
    MallocOutcome(v, req, sourceOk);
    NoRoomIff(v, req + SLACK + MINOR);
    var a := Malloc(v, req, sourceOk);
    var (j, k) := Site(v, req);
    if j < |v.regions| {
      InvRegion(v, j);
      hide Inv, RegionOk, NoRoom;
      InsertOk(v.regions[j], k, req);
      TotalsUpdate(v.regions, j, a.view.regions[j]);
    } else if sourceOk {
      hide Inv, RegionOk, NoRoom;
      var r := a.view.regions[j];
      assert a.view.regions == v.regions + [r];
      TotalsConcat(v.regions, [r]);
      assert Payload(r.blocks) == req + SLACK by {
        assert r.blocks[..0] == [];
      }
      assert InUse([r]) == Payload(r.blocks) by {
        assert [r][..0] == [];
      }
    }
  }

  lemma ReleaseTotals(v: View, i: nat, k: nat)
    requires Inv(v) && IsBlock(v.regions, i, k)
    ensures var v' := Release(v, i, k);
            && InUse(v'.regions) == InUse(v.regions) - BlockAt(v.regions, i, k).size
            && Allocated(v'.regions) == Allocated(v.regions) -
                 (if |v.regions[i].blocks| == 1 then v.regions[i].size else 0)
  {
    InvRegion(v, i);
    hide Inv, RegionOk;
    var r := Delete(v.regions[i], k);
    DeleteOk(v.regions[i], k);
    TotalsUpdate(v.regions, i, r);
    assert r.blocks == [] <==> |v.regions[i].blocks| == 1;
  }

  lemma ReleaseUndoesInsert(v: View, rs: seq<Region>, j: nat, k: nat, req: nat)
    requires j < |rs| && rs[j].blocks != [] && k <= |rs[j].blocks|
    requires v.regions == rs[j := Insert(rs[j], k, req)]
    ensures IsBlock(v.regions, j, k) && Release(v, j, k).regions == rs
  {
    var r := rs[j];
    assert Delete(Insert(r, k, req), k).blocks == r.blocks[..k] + r.blocks[k..] == r.blocks;
    assert rs[j := Insert(r, k, req)][j := r] == rs;
  }

  lemma ReleaseDropsMajor(v: View, rs: seq<Region>)
    requires |v.regions| == |rs| + 1 && v.regions[..|rs|] == rs
    requires |v.regions[|rs|].blocks| == 1
    ensures IsBlock(v.regions, |rs|, 0) && Release(v, |rs|, 0).regions == rs
  {
    assert v.regions[|rs| + 1..] == [];
  }

  lemma ReleaseUndoesMalloc(v: View, req: nat, sourceOk: bool)
    requires Inv(v) && Bounded(req)
    requires Malloc(v, req, sourceOk).ptr != 0
    ensures var a, (j, k) := Malloc(v, req, sourceOk), Site(v, req);
            && IsBlock(a.view.regions, j, k) && a.ptr == UserPtr(BlockAt(a.view.regions, j, k))
            && Release(a.view, j, k).regions == v.regions
  {
    MallocOutcome(v, req, sourceOk);
    var (j, k) := Site(v, req);
    assert j < |v.regions| ==> v.regions[j].blocks != [];
    hide Inv, NoRoom, Gap, Malloc, Site, UserPtr, Release;
    var a := Malloc(v, req, sourceOk);
    if NoRoom(v, req + SLACK + MINOR) {
      ReleaseDropsMajor(a.view, v.regions);
    } else {
      ReleaseUndoesInsert(a.view, v.regions, j, k, req);
    }
  }

  // ----- pointers, payloads and headers

  ghost predicate PtrOf(rs: seq<Region>, p: nat, i: nat, k: nat) {
    IsBlock(rs, i, k) && UserPtr(BlockAt(rs, i, k)) == p
  }

  ghost predicate LivePtr(rs: seq<Region>, p: nat) {
    exists i, k :: PtrOf(rs, p, i, k)
  }

  /** The bytes a block's user and its ALIGN prefix touch. */
  predicate Owns(b: Block, x: nat) {
    var p := UserPtr(b);
    x == p - ALIGN_INFO || p <= x < p + b.req
  }

  predicate InMinorHeader(b: Block, x: nat) {
    b.addr <= x < b.addr + MINOR
  }

  predicate InMajorHeader(r: Region, x: nat) {
    r.base <= x < r.base + MAJOR
  }

  lemma OwnsInside(b: Block, x: nat)
    requires b.req + SLACK <= b.size && Owns(b, x)
    ensures b.addr + MINOR <= x < BlockEnd(b)
  {}

  /** Any two live minors, headers included, occupy disjoint ranges above every
      major header. */
  lemma BlocksApart(rs: seq<Region>, i: nat, k: nat, j: nat, l: nat)
    requires RegionsOk(rs) && IsBlock(rs, i, k) && IsBlock(rs, j, l)
    ensures (i, k) == (j, l) || BlockEnd(BlockAt(rs, i, k)) <= BlockAt(rs, j, l).addr
                             || BlockEnd(BlockAt(rs, j, l)) <= BlockAt(rs, i, k).addr
    ensures rs[j].base + MAJOR <= BlockAt(rs, i, k).addr || BlockEnd(BlockAt(rs, i, k)) <= rs[j].base
  {
    BlockInside(rs[i], k);
    BlockInside(rs[j], l);
    if i == j && k < l {
      BlocksOrdered(rs[i], k, l);
    } else if i == j && l < k {
      BlocksOrdered(rs[i], l, k);
    }
  }

  /** A byte owned by one live block is in no header and owned by no other block. */
  lemma OwnedByteExclusive(rs: seq<Region>, i: nat, k: nat, x: nat)
    requires RegionsOk(rs) && IsBlock(rs, i, k) && Owns(BlockAt(rs, i, k), x)
    ensures forall j: nat, l: nat :: IsBlock(rs, j, l) ==>
              && !InMinorHeader(BlockAt(rs, j, l), x)
              && !InMajorHeader(rs[j], x)
              && (Owns(BlockAt(rs, j, l), x) ==> (j, l) == (i, k))
  {
    OwnsInside(BlockAt(rs, i, k), x);
    forall j: nat, l: nat | IsBlock(rs, j, l)
      ensures && !InMinorHeader(BlockAt(rs, j, l), x)
              && !InMajorHeader(rs[j], x)
              && (Owns(BlockAt(rs, j, l), x) ==> (j, l) == (i, k))
    {
      BlocksApart(rs, i, k, j, l);
      if Owns(BlockAt(rs, j, l), x) {
        OwnsInside(BlockAt(rs, j, l), x);
      }
    }
  }

  lemma PtrUnique(rs: seq<Region>, p: nat, i: nat, k: nat, j: nat, l: nat)
    requires RegionsOk(rs) && PtrOf(rs, p, i, k) && PtrOf(rs, p, j, l)
    ensures (i, k) == (j, l)
  {
    BlocksApart(rs, i, k, j, l);
  }

  lemma PtrNonZero(rs: seq<Region>, p: nat, i: nat, k: nat)
    requires PtrOf(rs, p, i, k)
    ensures p != 0
  {}

  /** malloc keeps every live block as it is, possibly one place further in its
      list, and the new block is another one. */
  lemma MallocKeepsBlock(v: View, req: nat, sourceOk: bool, i: nat, k: nat)
    requires Inv(v) && Bounded(req) && IsBlock(v.regions, i, k)
    ensures var a, (j, l) := Malloc(v, req, sourceOk), Site(v, req);
            var k' := if a.ptr != 0 && i == j && l <= k then k + 1 else k;
            && IsBlock(a.view.regions, i, k') && BlockAt(a.view.regions, i, k') == BlockAt(v.regions, i, k)
            && (a.ptr != 0 ==> (i, k') != (j, l))
  {
    hide Inv, Malloc, Chosen, FirstFit, NoRoom;
    MallocOutcome(v, req, sourceOk);
    var a := Malloc(v, req, sourceOk);
    if a.ptr != 0 && NoRoom(v, req + SLACK + MINOR) {
      assert a.view.regions[..|v.regions|][i] == v.regions[i];
    }
  }

  /** No byte a live block owns is touched by a later malloc or by the user of
      the block it returns. */
  lemma OldBytesSpared(v: View, req: nat, sourceOk: bool, i: nat, k: nat, x: nat)
    requires Inv(v) && Bounded(req) && IsBlock(v.regions, i, k) && Owns(BlockAt(v.regions, i, k), x)
    ensures var q := Malloc(v, req, sourceOk).ptr;
            q != 0 ==> x != q - ALIGN_INFO && !(q <= x < q + req)
  {
    hide Inv, Malloc, Chosen, FirstFit, RegionsOk;
    var a := Malloc(v, req, sourceOk);
    var (j, l) := Site(v, req);
    MallocKeepsInv(v, req, sourceOk);
    InvRegions(a.view);
    MallocKeepsBlock(v, req, sourceOk, i, k);
    if a.ptr != 0 {
      SiteBlock(v, req, sourceOk);
      OwnedByteExclusive(a.view.regions, i, if i == j && l <= k then k + 1 else k, x);
    }
  }

  lemma SiteBlock(v: View, req: nat, sourceOk: bool)
    requires Inv(v) && Bounded(req) && Malloc(v, req, sourceOk).ptr != 0
    ensures var a, (j, l) := Malloc(v, req, sourceOk), Site(v, req);
            PtrOf(a.view.regions, a.ptr, j, l) && BlockAt(a.view.regions, j, l).req == req
  {
    hide Inv, Malloc, Chosen, FirstFit, NoRoom;
    MallocOutcome(v, req, sourceOk);
  }

  lemma InvRegions(v: View)
    requires Inv(v)
    ensures RegionsOk(v.regions)
  {}

  // ----- free and realloc by pointer, and runs

  ghost function Free(v: View, p: nat): View {
    if LivePtr(v.regions, p) then
      var i, k :| PtrOf(v.regions, p, i, k);
      Release(v, i, k)
    else v
  }

  lemma FreeAt(v: View, p: nat, i: nat, k: nat)
    requires Inv(v) && PtrOf(v.regions, p, i, k)
    ensures Free(v, p) == Release(v, i, k)
  {
    forall j: nat, l: nat | PtrOf(v.regions, p, j, l)
      ensures (j, l) == (i, k)
    {
      PtrUnique(v.regions, p, i, k, j, l);
    }
  }

  /** free of the pointer that malloc returned undoes malloc: majors, minors and both
      totals are back, also when the request had created a major. */
  lemma FreeUndoesMalloc(v: View, req: nat, sourceOk: bool)
    requires Inv(v) && Bounded(req) && Malloc(v, req, sourceOk).ptr != 0
    ensures var a := Malloc(v, req, sourceOk);
            var w := Free(a.view, a.ptr);
            && LivePtr(a.view.regions, a.ptr) && w.regions == v.regions
            && InUse(w.regions) == InUse(v.regions) && Allocated(w.regions) == Allocated(v.regions)
  {
    hide Inv, Malloc, Free, Release;
    var a := Malloc(v, req, sourceOk);
    var (j, k) := Site(v, req);
    MallocKeepsInv(v, req, sourceOk);
    ReleaseUndoesMalloc(v, req, sourceOk);
    assert PtrOf(a.view.regions, a.ptr, j, k);
    FreeAt(a.view, a.ptr, j, k);
  }

  ghost function Realloc(v: View, p: nat, size: nat, sourceOk: bool): Alloc {
    if size == 0 then Alloc(Free(v, p), 0)
    else if p == 0 then Malloc(v, size, sourceOk)
    else if !LivePtr(v.regions, p) then Alloc(v, 0)
    else
      var i, k :| PtrOf(v.regions, p, i, k);
      if BlockAt(v.regions, i, k).req >= size then Alloc(Shrink(v, i, k, size), p)
      else
        var a := Malloc(v, size, sourceOk);
        Alloc(Free(a.view, p), a.ptr)
  }

  lemma ReallocAt(v: View, p: nat, size: nat, sourceOk: bool, i: nat, k: nat)
    requires Inv(v) && PtrOf(v.regions, p, i, k) && size != 0
    ensures Realloc(v, p, size, sourceOk) ==
            if BlockAt(v.regions, i, k).req >= size then Alloc(Shrink(v, i, k, size), p)
            else Alloc(Free(Malloc(v, size, sourceOk).view, p), Malloc(v, size, sourceOk).ptr)
  {
    PtrNonZero(v.regions, p, i, k);
    forall j: nat, l: nat | PtrOf(v.regions, p, j, l)
      ensures (j, l) == (i, k)
    {
      PtrUnique(v.regions, p, i, k, j, l);
    }
  }

  datatype Op =
    | DoMalloc(req: nat, sourceOk: bool)
    | DoFree(ptr: nat)
    | DoRealloc(ptr: nat, req: nat, sourceOk: bool)

  ghost function Step(v: View, op: Op): View {
    match op
    case DoMalloc(req, ok) => Malloc(v, req, ok).view
    case DoFree(p) => Free(v, p)
    case DoRealloc(p, req, ok) => Realloc(v, p, req, ok).view
  }

  ghost function Run(v: View, ops: seq<Op>): View {
    if ops == [] then v else Step(Run(v, ops[..|ops| - 1]), ops[|ops| - 1])
  }

  lemma FreeKeepsInv(v: View, p: nat)
    requires Inv(v)
    ensures Inv(Free(v, p))
  {
    if LivePtr(v.regions, p) {
      var i, k :| PtrOf(v.regions, p, i, k);
      FreeAt(v, p, i, k);
      ReleaseKeepsInv(v, i, k);
    }
  }

  lemma StepKeepsInv(v: View, op: Op)
    requires Inv(v)
    requires op.DoFree? || Bounded(op.req)
    ensures Inv(Step(v, op))
  {
    hide Inv, Malloc, Free, Shrink;
    match op
    case DoMalloc(req, ok) =>
      MallocKeepsInv(v, req, ok);
    case DoFree(p) =>
      FreeKeepsInv(v, p);
    case DoRealloc(p, req, ok) =>
      MallocKeepsInv(v, req, ok);
      FreeKeepsInv(v, p);
      FreeKeepsInv(Malloc(v, req, ok).view, p);
      if req != 0 && LivePtr(v.regions, p) {
        var i, k :| PtrOf(v.regions, p, i, k);
        ReallocAt(v, p, req, ok, i, k);
        if BlockAt(v.regions, i, k).req >= req {
          ShrinkKeepsInv(v, i, k, req);
        }
      }
  }

  /** Over every run from the empty heap the structure stays intact. */
  lemma {:induction false} RunKeepsInv(ops: seq<Op>)
    requires forall i :: 0 <= i < |ops| ==> ops[i].DoFree? || Bounded(ops[i].req)
    ensures Inv(Run(EMPTY_HEAP, ops))
  {
    if ops != [] {
      RunKeepsInv(ops[..|ops| - 1]);
      StepKeepsInv(Run(EMPTY_HEAP, ops[..|ops| - 1]), ops[|ops| - 1]);
    }
  }
}
