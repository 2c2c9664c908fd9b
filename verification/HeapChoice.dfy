/** What malloc and free of mm/heap.c decide, in terms of addresses and free bytes
    alone: which major a request goes to, where in it, and which major becomes the
    best bet.  The functions of HeapView are proved to decide just that. */
module HeapChoice {
  import opened HeapLinks
  import opened HeapView
  import opened Words

  /** Before block k of a region, or after its last block, there are enough free bytes. */
  ghost predicate Room(r: Region, k: nat, need: nat) {
    && k <= |r.blocks|
    && RoomStart(r, k) + need <= if k == |r.blocks| then r.base + r.size else r.blocks[k].addr
  }

  ghost function RoomStart(r: Region, k: nat): nat
    requires k <= |r.blocks|
  {
    if k == 0 then r.base + MAJOR else r.blocks[k - 1].addr + MINOR + r.blocks[k - 1].size
  }

  ghost predicate Fits(r: Region, need: nat) {
    exists k: nat :: Room(r, k, need)
  }

  /** Region m of a tour is the first on it where the request fits. */
  ghost predicate FirstFitting(tour: seq<Region>, m: nat, need: nat) {
    m < |tour| && Fits(tour[m], need) && forall g :: 0 <= g < m ==> !Fits(tour[g], need)
  }

  /** The best bet is the major with index b; without one b is their number. */
  ghost predicate IsBet(v: View, b: nat) {
    if v.best == 0 then b == |v.regions| else b < |v.regions| && v.regions[b].base == v.best
  }

  ghost function BetUnused(v: View, b: nat): int {
    if b < |v.regions| then Unused(v.regions[b]) else 0
  }

  /** The majors in the order in which malloc looks at them: from the best bet on and
      then all, if that has more unused bytes than needed, else all. */
  ghost function Tour(v: View, b: nat, need: nat): seq<Region> {
    if b < |v.regions| && Unused(v.regions[b]) > need then v.regions[b..] + v.regions else v.regions
  }

  /** The best bet after the given regions have been looked at: the first of those
      with the most unused bytes if that is more than the old bet has, else the old bet. */
  ghost predicate MostUnused(best: nat, was: nat, free: int, seen: seq<Region>) {
    if forall g :: 0 <= g < |seen| ==> Unused(seen[g]) <= free then best == was
    else exists g :: FirstMost(seen, g) && best == seen[g].base
  }

  ghost predicate FirstMost(seen: seq<Region>, g: int) {
    && 0 <= g < |seen|
    && (forall h :: 0 <= h < g ==> Unused(seen[h]) < Unused(seen[g]))
    && (forall h :: g <= h < |seen| ==> Unused(seen[h]) <= Unused(seen[g]))
  }

  /** The lowest room of a region where the request fits. */
  ghost predicate Lowest(r: Region, k: nat, need: nat) {
    Room(r, k, need) && forall g: nat :: g < k ==> !Room(r, g, need)
  }

  /** One block more in region j, right after whatever comes before its room. */
  ghost predicate Filled(rs: seq<Region>, rs': seq<Region>, j: nat, k: nat, req: nat) {
    && j < |rs| && Lowest(rs[j], k, req + SLACK + MINOR)
    && rs' == rs[j := Region(rs[j].base, rs[j].size,
                             rs[j].blocks[..k] + [Block(RoomStart(rs[j], k), req + SLACK, req)] + rs[j].blocks[k..])]
  }

  /** The pointer handed out for a block: the multiple of 16 after its header and 16
      bytes for the prefix. */
  ghost predicate PointsTo(p: nat, b: Block) {
    p % 16 == 0 && b.addr + MINOR + 16 <= p < b.addr + MINOR + 32
  }

  lemma RoomIs(r: Region, need: nat)
    ensures forall k: nat :: k <= |r.blocks| ==> RoomStart(r, k) == GapStart(r, k) && (Room(r, k, need) <==> Gap(r, k) >= need)
    ensures Fits(r, need) <==> HasRoom(r, need)
  {
    forall k: nat | k <= |r.blocks|
      ensures RoomStart(r, k) == GapStart(r, k) && (Room(r, k, need) <==> Gap(r, k) >= need)
    {
    }
    HasRoomIff(r, need);
    hide GapStart, GapEnd, RoomStart, HasRoom;
    if HasRoom(r, need) {
      var k :| 0 <= k <= |r.blocks| && Gap(r, k) >= need;
      assert Room(r, k, need);
    }
  }

  lemma AllRooms(rs: seq<Region>, need: nat)
    ensures forall i :: 0 <= i < |rs| ==> (Fits(rs[i], need) <==> HasRoom(rs[i], need))
  {
    forall i | 0 <= i < |rs|
      ensures Fits(rs[i], need) <==> HasRoom(rs[i], need)
    {
      RoomIs(rs[i], need);
    }
  }

  // ----- the best bet

  ghost predicate Weighed(s: Bet, bet: Bet, seen: seq<Region>) {
    && s.free >= bet.free
    && (forall g :: 0 <= g < |seen| ==> Unused(seen[g]) <= s.free)
    && (s == bet || exists g :: FirstMost(seen, g) && s == Bet(seen[g].base, Unused(seen[g])) && s.free > bet.free)
  }

  lemma {:induction false} ScanWeighs(seen: seq<Region>, bet: Bet)
    ensures Weighed(Scan(seen, bet), bet, seen)
  {
    if seen != [] {
      var n := |seen| - 1;
      ScanWeighs(seen[..n], bet);
      WeighOne(Scan(seen[..n], bet), bet, seen[..n], seen[n]);
      assert seen == seen[..n] + [seen[n]];
    }
  }

  lemma WeighOne(s: Bet, bet: Bet, seen: seq<Region>, r: Region)
    requires Weighed(s, bet, seen)
    ensures Weighed(Better(s, r), bet, seen + [r])
  {
    hide Unused;
    var all := seen + [r];
    assert forall g :: 0 <= g < |seen| ==> all[g] == seen[g];
    if s.free < Unused(r) {
      assert FirstMost(all, |seen|);
    } else if s != bet {
      var g :| FirstMost(seen, g) && s == Bet(seen[g].base, Unused(seen[g])) && s.free > bet.free;
      assert FirstMost(all, g);
    }
  }

  /** The best bet after a search is the first among the old bet and the majors looked
      at whose unused bytes are the most. */
  lemma ScanMost(seen: seq<Region>, bet: Bet)
    ensures MostUnused(Scan(seen, bet).addr, bet.addr, bet.free, seen)
  {
    ScanWeighs(seen, bet);
    hide Unused, Scan;
  }

  // ----- the search

  lemma BetIs(v: View, b: nat, need: nat)
    requires Inv(v) && IsBet(v, b)
    ensures InitialBet(v) == Bet(v.best, BetUnused(v, b))
    ensures StartsAtBet(v, need) <==> b < |v.regions| && Unused(v.regions[b]) > need
    ensures StartsAtBet(v, need) ==> Start(v, need) == b
    ensures !StartsAtBet(v, need) ==> Start(v, need) == 0
  {
    BasesDistinct(v.regions);
    hide Inv, Unused;
  }

  /** malloc looks at its tour up to the first major where the request fits. */
  lemma VisitedIsTour(v: View, b: nat, need: nat, m: nat)
    requires Inv(v) && IsBet(v, b) && FirstFitting(Tour(v, b, need), m, need)
    ensures m < |Tour(v, b, need)| && Visited(v, need) == Tour(v, b, need)[..m + 1]
    ensures Chosen(v, need) < |v.regions| && v.regions[Chosen(v, need)] == Tour(v, b, need)[m]
    ensures HasRoom(v.regions[Chosen(v, need)], need)
  {
    hide Inv, IsBet, Unused, Fits, HasRoom, StartsAtBet, FirstFitting;
    BetIs(v, b, need);
    if StartsAtBet(v, need) {
      if m < |v.regions| - b {
        FirstBehind(v.regions, b, need, m);
      } else {
        FirstFromRoot(v.regions, b, need, m);
      }
    } else {
      FirstInOne(v.regions, need, m);
    }
    ChosenHasRoomIff(v, need);
  }

  lemma FirstInOne(rs: seq<Region>, need: nat, m: nat)
    requires FirstFitting(rs, m, need)
    ensures m < |rs| && Search(rs, 0, need) == m
  {
    AllRooms(rs, need);
    hide Fits, HasRoom;
  }

  /** The first fitting major on a way round that begins at b: in its first part. */
  lemma FirstBehind(rs: seq<Region>, b: nat, need: nat, m: nat)
    requires b < |rs| && FirstFitting(rs[b..] + rs, m, need) && m < |rs| - b
    ensures Search(rs, b, need) == b + m && (rs[b..] + rs)[..m + 1] == rs[b..b + m + 1]
  {
    AllRooms(rs, need);
    hide Fits, HasRoom;
    var tour := rs[b..] + rs;
    forall g | b <= g < b + m
      ensures !HasRoom(rs[g], need)
    {
      assert !Fits(tour[g - b], need);
    }
    assert tour[m] == rs[b + m];
  }

  /** Or in the second, from the root on. */
  lemma FirstFromRoot(rs: seq<Region>, b: nat, need: nat, m: nat)
    requires b < |rs| && FirstFitting(rs[b..] + rs, m, need) && m >= |rs| - b
    ensures var j := m - (|rs| - b);
            && j < |rs| && Search(rs, b, need) == |rs| && Search(rs, 0, need) == j
            && (rs[b..] + rs)[..m + 1] == rs[b..] + rs[..j + 1]
  {
    AllRooms(rs, need);
    hide Fits, HasRoom;
    var tour, n := rs[b..] + rs, |rs| - b;
    forall g | b <= g < |rs|
      ensures !HasRoom(rs[g], need)
    {
      assert !Fits(tour[g - b], need);
    }
    forall g | 0 <= g < m - n
      ensures !HasRoom(rs[g], need)
    {
      assert !Fits(tour[n + g], need);
    }
    assert tour[m] == rs[m - n];
  }

  /** If the request fits nowhere, malloc has looked at the whole tour. */
  lemma VisitedAll(v: View, b: nat, need: nat)
    requires Inv(v) && IsBet(v, b) && forall g :: 0 <= g < |v.regions| ==> !Fits(v.regions[g], need)
    ensures Visited(v, need) == Tour(v, b, need) && Chosen(v, need) == |v.regions|
  {
    BetIs(v, b, need);
    AllRooms(v.regions, need);
    hide Inv, IsBet, Unused, Fits, HasRoom, StartsAtBet;
    assert Search(v.regions, Start(v, need), need) == |v.regions|;
    assert Search(v.regions, 0, need) == |v.regions|;
  }

  /** Either the request fits nowhere, or there is a first major of the tour where it does. */
  lemma TourDecides(v: View, b: nat, need: nat)
    requires IsBet(v, b)
    ensures (exists m: nat :: FirstFitting(Tour(v, b, need), m, need)) <==>
            exists i :: 0 <= i < |v.regions| && Fits(v.regions[i], need)
  {
    hide Fits, Unused;
    var rs, tour := v.regions, Tour(v, b, need);
    if i :| 0 <= i < |rs| && Fits(rs[i], need) {
      assert tour[|tour| - |rs| + i] == rs[i];
      var m := FirstOf(tour, need, |tour| - |rs| + i);
    }
    if m: nat :| FirstFitting(tour, m, need) {
      assert tour[m] == if |tour| == |rs| then rs[m] else if m < |rs| - b then rs[b + m] else rs[m - (|rs| - b)];
    }
  }

  lemma {:induction false} FirstOf(tour: seq<Region>, need: nat, i: nat) returns (m: nat)
    requires i < |tour| && Fits(tour[i], need)
    ensures FirstFitting(tour, m, need)
  {
    hide Fits;
    m := i;
    if g :| 0 <= g < i && Fits(tour[g], need) {
      m := FirstOf(tour, need, g);
    }
  }

  lemma BetExists(v: View)
    requires Inv(v)
    ensures exists b: nat :: IsBet(v, b)
  {
    assert IsBet(v, if v.best == 0 then |v.regions| else IndexOf(v.regions, v.best));
  }

  // ----- malloc

  /** A request that fits goes into the first major of the tour where it does, into
      the lowest room there, and the best bet is the best of those looked at. */
  lemma MallocPlaces(v: View, req: nat, sourceOk: bool, b: nat, m: nat)
    requires Inv(v) && IsBet(v, b)
    requires FirstFitting(Tour(v, b, req + SLACK + MINOR), m, req + SLACK + MINOR)
    ensures var a, tour := Malloc(v, req, sourceOk), Tour(v, b, req + SLACK + MINOR);
            var w, p := a.view, a.ptr;
            && (exists j: nat, k: nat :: Filled(v.regions, w.regions, j, k, req) && v.regions[j] == tour[m]
                                         && PointsTo(p, w.regions[j].blocks[k]))
            && MostUnused(w.best, v.best, BetUnused(v, b), tour[..m + 1])
            && w.end == v.end
  {
    hide *;
    var need, j := req + SLACK + MINOR, Chosen(v, req + SLACK + MINOR);
    BetIs(v, b, need);
    VisitedIsTour(v, b, need, m);
    ScanMost(Visited(v, need), InitialBet(v));
    FitsAt(v.regions[j], need);
    PlacedAt(v.regions, j, FirstFit(v.regions[j], need, 0), req);
    MallocView(v, req, sourceOk);
    var w, k := Malloc(v, req, sourceOk).view, FirstFit(v.regions[j], need, 0);
    assert Filled(v.regions, w.regions, j, k, req);
    assert PointsTo(Malloc(v, req, sourceOk).ptr, w.regions[j].blocks[k]);
    assert MostUnused(w.best, v.best, BetUnused(v, b), Tour(v, b, need)[..m + 1]);
  }

  lemma MallocView(v: View, req: nat, sourceOk: bool)
    requires Chosen(v, req + SLACK + MINOR) < |v.regions|
    ensures var need, j := req + SLACK + MINOR, Chosen(v, req + SLACK + MINOR);
            var k := FirstFit(v.regions[j], need, 0);
            && k <= |v.regions[j].blocks|
            && Malloc(v, req, sourceOk) ==
               Alloc(View(v.regions[j := Insert(v.regions[j], k, req)], Scan(Visited(v, need), InitialBet(v)).addr, v.end),
                     UserPtr(Placed(v.regions[j], k, req)))
  {
    ChosenHasRoomIff(v, req + SLACK + MINOR);
    hide Chosen, FirstFit, Visited, InitialBet, Scan, GapStart;
  }

  lemma FitsAt(r: Region, need: nat)
    requires HasRoom(r, need)
    ensures Lowest(r, FirstFit(r, need, 0), need)
  {
    RoomIs(r, need);
  }

  lemma PlacedAt(rs: seq<Region>, j: nat, k: nat, req: nat)
    requires j < |rs| && Lowest(rs[j], k, req + SLACK + MINOR)
    ensures Filled(rs, rs[j := Insert(rs[j], k, req)], j, k, req)
    ensures var r := Insert(rs[j], k, req); k < |r.blocks| && r.blocks[k] == Placed(rs[j], k, req)
    ensures PointsTo(UserPtr(Placed(rs[j], k, req)), Placed(rs[j], k, req))
  {
    RoomIs(rs[j], 0);
    hide Lowest, GapStart, RoomStart;
  }

  /** A request that fits nowhere goes into a new major, if there is to be one, else
      the heap stays as it is; the best bet is the best of all majors.  The new one is
      weighed with them only if malloc's loop passes through its head again: when it is
      the first major, or when the last one had enough unused bytes in all. */
  lemma MallocAppends(v: View, req: nat, sourceOk: bool, b: nat)
    requires Inv(v) && IsBet(v, b)
    requires forall i :: 0 <= i < |v.regions| ==> !Fits(v.regions[i], req + SLACK + MINOR)
    ensures var a, n, seen := Malloc(v, req, sourceOk), |v.regions|, Tour(v, b, req + SLACK + MINOR);
            var w, p, free := a.view, a.ptr, BetUnused(v, b);
            if !sourceOk then
              p == 0 && w.regions == v.regions && w.end == v.end && MostUnused(w.best, v.best, free, seen)
            else
              var fresh' := Region(v.end, NewMajorSize(req + SLACK), []);
              var block := Block(v.end + MAJOR, req + SLACK, req);
              && w.regions == v.regions + [fresh'.(blocks := [block])] && PointsTo(p, block)
              && w.end == v.end + NewMajorSize(req + SLACK)
              && MostUnused(w.best, v.best, free,
                            if n == 0 || Unused(v.regions[n - 1]) >= req + SLACK + MINOR then seen + [fresh'] else seen)
  {
    var need := req + SLACK + MINOR;
    hide Inv, IsBet, Tour, Fits, MostUnused, Unused, Visited, Chosen, InitialBet, Scan, NewMajorSize, BetUnused;
    BetIs(v, b, need);
    VisitedAll(v, b, need);
    var seen, bet, m := Tour(v, b, need), InitialBet(v), NewMajor(v, req);
    ScanMost(seen, bet);
    ScanMost(seen + [m], bet);
    ScanStep(seen, m, bet);
    assert Insert(m, 0, req).blocks == [Block(v.end + MAJOR, req + SLACK, req)];
    if sourceOk {
      assert Malloc(v, req, true).view.regions == v.regions + [Insert(m, 0, req)];
    }
  }

  /** The size of a new major: the least number of whole pages, at least 16, that
      holds the given bytes and both headers. */
  ghost predicate LeastMajor(s: nat, size: nat) {
    EnoughPages(s, size) && forall t: nat :: EnoughPages(t, size) ==> s <= t
  }

  ghost predicate EnoughPages(s: nat, size: nat) {
    s % 4096 == 0 && s >= 16 * 4096 && s >= size + MAJOR + MINOR
  }

  lemma NewMajorIsLeast(size: nat)
    requires size + MAJOR + MINOR <= UINT - PAGE_SIZE
    ensures LeastMajor(NewMajorSize(size), size)
    ensures NewMajorSize(size) == RequestedPages(size) * PAGE_SIZE
  {
    var st, s := size + MAJOR + MINOR, NewMajorSize(size);
    assert st % UINT == st;
    assert s == RequestedPages(size) * PAGE_SIZE;
    forall t: nat | EnoughPages(t, size)
      ensures s <= t
    {
      assert t == t / PAGE_SIZE * PAGE_SIZE;
    }
  }

  // ----- free

  /** x < y once both are read as 32-bit ints. */
  ghost predicate LessAsInt(x: int, y: int) {
    if x < 0x8000_0000 <==> y < 0x8000_0000 then x < y else y < x
  }

  /** free takes one minor out, and its major if that was the last.  The best bet goes
      with its major.  Else the major, unless it was the best bet, becomes the best bet
      when it now has more unused bytes than that, compared as ints. */
  lemma ReleaseChooses(v: View, i: nat, k: nat, b: nat)
    requires Inv(v) && IsBlock(v.regions, i, k) && IsBet(v, b)
    ensures var rs, w := v.regions, Release(v, i, k);
            var r := Region(rs[i].base, rs[i].size, rs[i].blocks[..k] + rs[i].blocks[k + 1..]);
            && w.end == v.end
            && if |rs[i].blocks| == 1 then
                 w.regions == rs[..i] + rs[i + 1..] && w.best == if b == i then 0 else v.best
               else
                 && w.regions == rs[i := r]
                 && w.best == if b < |rs| && b != i && LessAsInt(Unused(rs[b]), Unused(r)) then rs[i].base else v.best
  {
    hide Inv, IsBet, Unused, RegionOk, Usage, IndexOf, ToInt;
    var rs, rs' := v.regions, v.regions[i := Delete(v.regions[i], k)];
    InvRegion(v, i);
    DeleteOk(rs[i], k);
    UnusedInRange(rs'[i]);
    BetAfter(v, i, Delete(rs[i], k), b);
    if b < |rs| {
      AsInts(Unused(rs'[b]), Unused(rs'[i]));
    }
  }

  lemma BetAfter(v: View, i: nat, r: Region, b: nat)
    requires Inv(v) && IsBet(v, b) && i < |v.regions| && RegionOk(r) && r.base == v.regions[i].base
    ensures v.best != 0 ==> b < |v.regions| && IndexOf(v.regions[i := r], v.best) == b
    ensures v.best == 0 ==> b == |v.regions|
    ensures b < |v.regions| ==> 0 <= Unused(v.regions[i := r][b]) < UINT
    ensures b == i <==> v.best == v.regions[i].base
    ensures b < |v.regions| ==> v.best != 0
  {
    BasesDistinct(v.regions);
    if b < |v.regions| {
      InvRegion(v, b);
      UnusedInRange(v.regions[i := r][b]);
    }
    hide RegionOk, Unused;
  }

  lemma AsInts(x: int, y: int)
    requires 0 <= x < UINT && 0 <= y < UINT
    ensures LessAsInt(x, y) <==> ToInt(x) < ToInt(y)
  {}

  lemma UnusedInRange(r: Region)
    requires RegionOk(r)
    ensures 0 <= Unused(r) < UINT
  {
    GapWithinUnused(r, 0);
  }

  // ----- realloc in place

  /** A block that is large enough stays where it is and only its asked size changes;
      every other block and region stays as it is. */
  lemma ReallocStays(v: View, p: nat, size: nat, sourceOk: bool, i: nat, k: nat)
    requires Inv(v) && PtrOf(v.regions, p, i, k) && 0 < size <= BlockAt(v.regions, i, k).req
    ensures var a, rs := Realloc(v, p, size, sourceOk), v.regions;
            && a.ptr == p && a.view.best == v.best && a.view.end == v.end && |a.view.regions| == |rs|
            && (forall j :: 0 <= j < |rs| && j != i ==> a.view.regions[j] == rs[j])
            && var r, b := a.view.regions[i], rs[i].blocks[k];
               r.base == rs[i].base && r.size == rs[i].size
               && r.blocks == rs[i].blocks[..k] + [Block(b.addr, b.size, size)] + rs[i].blocks[k + 1..]
  {
    hide Inv, Realloc;
    ReallocAt(v, p, size, sourceOk, i, k);
  }

  // ----- the free bytes of a region

  ghost function Rooms(r: Region, n: nat): int
    requires n <= |r.blocks| + 1
  {
    if n == 0 then 0 else
      Rooms(r, n - 1) + (if n - 1 == |r.blocks| then r.base + r.size else r.blocks[n - 1].addr) - RoomStart(r, n - 1)
  }

  /** size - usage is exactly the free bytes: those before the minors, between them
      and behind the last one. */
  lemma UnusedIsRooms(r: Region)
    ensures Unused(r) == Rooms(r, |r.blocks| + 1)
  {
    RoomsBefore(r, |r.blocks|);
    assert r.blocks[..|r.blocks|] == r.blocks;
  }

  lemma {:induction false} RoomsBefore(r: Region, n: nat)
    requires n <= |r.blocks|
    ensures Rooms(r, n) + Used(r.blocks[..n]) == RoomStart(r, n) - r.base - MAJOR
  {
    if n > 0 {
      RoomsBefore(r, n - 1);
      assert r.blocks[..n][..n - 1] == r.blocks[..n - 1];
    }
  }
}
