/** The kernel heap of mm/heap.c: static roots and totals, headers relinked in
    place.  Every method is proved to take the view to the value that the
    corresponding function of HeapView gives. */
module Heap {
  import opened Bits
  import opened HeapChoice
  import opened HeapLinks
  import opened HeapView
  import opened Words

  class Heap {
    var majors: map<nat, Major>  // headers of the mapped majors, by address
    var minors: map<nat, Minor>  // headers of live minors and of dead ones not yet overwritten
    var bytes: map<nat, nat>     // all other bytes
    var memRoot: nat             // l_memRoot
    var bestBet: nat             // l_bestBet
    var heapEnd: nat             // heap_end
    var reserved: int           // l_allocated
    var inuse: int               // l_inuse
    var warnings: nat
    var errors: nat
    var overruns: nat
    ghost var view: View

    ghost predicate Rep(rs: seq<Region>)
      reads `majors, `minors, `bytes, `memRoot
    {
      && RegionsOk(rs)
      && MajorsLinked(majors, rs) && MinorsLinked(minors, rs)
      && Prefixes(bytes, rs) && memRoot == BaseAt(rs, 0)
    }

    ghost predicate Holds(v: View)
      reads `majors, `minors, `bytes, `memRoot, `bestBet, `heapEnd, `inuse, `reserved
    {
      && Inv(v) && Rep(v.regions)
      && bestBet == v.best && heapEnd == v.end
      && inuse == InUse(v.regions) && reserved == Allocated(v.regions)
    }

    ghost predicate Valid()
      reads this
    {
      Holds(view)
    }

    constructor ()
      ensures Valid() && view == EMPTY_HEAP
      ensures inuse == 0 && reserved == 0
    {
      majors, minors, bytes := map[], map[], map[];
      memRoot, bestBet, heapEnd := 0, 0, HEAP_START;
      reserved, inuse, warnings, errors, overruns := 0, 0, 0, 0, 0;
      view := EMPTY_HEAP;
    }

    /** allocate_new_page over map_heap: a region above all earlier ones. */
    method AllocateNewPage(size: nat, sourceOk: bool) returns (maj: nat)
      modifies `majors, `heapEnd, `reserved, `warnings
      ensures !sourceOk ==> maj == 0 && majors == old(majors) && heapEnd == old(heapEnd)
                            && reserved == old(reserved) && warnings == old(warnings) + 1
      ensures sourceOk ==>
                && maj == old(heapEnd) && heapEnd == old(heapEnd) + RequestedPages(size) * PAGE_SIZE
                && majors == old(majors)[maj := Major(0, 0, RequestedPages(size), NewMajorSize(size), MAJOR, 0)]
                && reserved == old(reserved) + NewMajorSize(size) && warnings == old(warnings)
      // Below the bound that is the least number of whole pages that can do.
      ensures sourceOk && size + MAJOR + MINOR <= UINT - PAGE_SIZE ==>
                && LeastMajor(majors[maj].size, size) && majors[maj].size == majors[maj].pages * PAGE_SIZE
                && heapEnd == old(heapEnd) + majors[maj].size && reserved == old(reserved) + majors[maj].size
    {
      if size + MAJOR + MINOR <= UINT - PAGE_SIZE {
        NewMajorIsLeast(size);
      }
      hide LeastMajor;
      var st := (size + MAJOR + MINOR) % UINT;
      if st % PAGE_SIZE == 0 {
        st := st / PAGE_SIZE;
      } else {
        st := st / PAGE_SIZE + 1;
      }
      if st < PAGE_COUNT {
        st := PAGE_COUNT;
      }
      if !sourceOk {
        warnings := warnings + 1;
        return 0;
      }
      maj := heapEnd;
      heapEnd := heapEnd + st * PAGE_SIZE;
      majors := majors[maj := Major(0, 0, st, st * PAGE_SIZE % UINT, MAJOR, 0)];
      reserved := reserved + majors[maj].size;
    }

    /** A new major linked after the last one, which is `last` (0 for none). */
    method Grow(last: nat, size: nat, sourceOk: bool, ghost req: nat, ghost rs: seq<Region>) returns (maj: nat)
      requires Rep(rs) && last == BaseAt(rs, |rs| - 1)
      requires size == req + SLACK && Bounded(req)
      requires 0 < heapEnd && heapEnd % PAGE_SIZE == 0
      requires forall i :: 0 <= i < |rs| ==> rs[i].base + rs[i].size <= heapEnd
      modifies `majors, `heapEnd, `reserved, `warnings, `memRoot
      ensures maj == 0 <==> !sourceOk
      ensures warnings == old(warnings) + (if maj == 0 then 1 else 0)
      ensures !sourceOk ==> maj == 0 && Rep(rs) && heapEnd == old(heapEnd) && reserved == old(reserved)
      ensures sourceOk ==>
                && maj == old(heapEnd) && heapEnd == old(heapEnd) + NewMajorSize(size)
                && Rep(rs + [Region(maj, NewMajorSize(size), [])])
                && reserved == old(reserved) + NewMajorSize(size)
    {
      NewMajorHasRoomIff(req);
      assert NewMajorSize(size) / PAGE_SIZE == RequestedPages(size);
      hide RegionsOk, RegionOk, MajorsLinked, MinorsLinked, Prefixes, NewMajorSize, RequestedPages, Bounded;
      maj := AllocateNewPage(size, sourceOk);
      if maj == 0 {
        return;
      }
      NewRegionOk(maj, NewMajorSize(size));
      ghost var r := Region(maj, NewMajorSize(size), []);
      AppendMajor(old(majors), rs, r);
      if last == 0 {
        memRoot := maj;
      } else {
        majors := majors[last := majors[last].(next := maj)];
        majors := majors[maj := majors[maj].(prev := last)];
      }
      AppendBlocks(minors, bytes, rs, r);
    }

    /** ALIGN: leave room for the prefix, round up to 16, store the distance. */
    method Align(start: nat) returns (p: nat)
      modifies `bytes
      ensures p >= start + ALIGN_INFO
      ensures forall b: Block :: b.addr + MINOR == start ==> p == UserPtr(b)
      ensures bytes == old(bytes)[p - ALIGN_INFO := p - start]
    {
      p := start + ALIGN_INFO;
      AndLowMask(p, 4);
      assert Pow2(4) == ALIGNMENT;
      var diff := And(p, ALIGNMENT - 1);
      if diff != 0 {
        diff := ALIGNMENT - diff;
        p := p + diff;
      }
      bytes := bytes[p - ALIGN_INFO := diff + ALIGN_INFO];
    }

    /** Write a minor's header and point its neighbours at it. */
    method Splice(at: nat, m: Minor)
      modifies `minors
      ensures minors == Spliced(old(minors), at, m)
    {
      hide Scrub, SetPrev, SetNext;
      minors := Scrub(minors, at, at + MINOR + m.size);
      minors := minors[at := m];
      if m.next != 0 {
        minors := SetPrev(minors, m.next, at);
      }
      if m.prev != 0 {
        minors := SetNext(minors, m.prev, at);
      }
    }

    /** CASES 2, 3, 4.1 and 4.2: write the header of a new minor at `at` between
        its neighbours (0 for none), account for it and align its pointer. */
    method Place(maj: nat, prev: nat, at: nat, next: nat, req: nat,
                 ghost rs: seq<Region>, ghost i: nat, ghost k: nat)
      returns (p: nat)
      requires Rep(rs) && i < |rs| && k <= |rs[i].blocks| && maj == rs[i].base
      requires at == GapStart(rs[i], k) && Gap(rs[i], k) >= req + SLACK + MINOR
      requires prev == AddrAt(rs[i].blocks, k - 1) && next == AddrAt(rs[i].blocks, k)
      modifies `majors, `minors, `inuse, `bytes
      ensures Rep(rs[i := Insert(rs[i], k, req)])
      ensures p == UserPtr(Placed(rs[i], k, req)) && p > 0
      ensures inuse == old(inuse) + req + SLACK
      ensures bytes == old(bytes)[p - ALIGN_INFO := p - (at + MINOR)]
    {
      hide RegionsOk, MajorsLinked, MinorsLinked, Prefixes, Gap, Spliced, UserPtr;
      PlacedRep(majors, minors, bytes, rs, i, k, req);
      var size := req + SLACK;
      Splice(at, Minor(prev, next, maj, LIBALLOC_MAGIC, size, req));
      majors := majors[maj := majors[maj].(usage := majors[maj].usage + size + MINOR,
                                           first := if prev == 0 then at else majors[maj].first)];
      inuse := inuse + size;
      p := Align(at + MINOR);
      assert p == UserPtr(Placed(rs[i], k, req));
    }

    /** CASES 2 to 4 for one major: where the lowest fitting gap is, if any, and
        the minors on both sides of it. */
    method FindGap(maj: nat, need: nat, ghost rs: seq<Region>, ghost i: nat)
      returns (found: bool, prev: nat, at: nat, next: nat)
      requires Rep(rs) && i < |rs| && maj == rs[i].base
      requires rs[i].blocks == [] ==> Gap(rs[i], 0) >= need
      ensures found <==> HasRoom(rs[i], need)
      ensures found ==>
                var k := FirstFit(rs[i], need, 0);
                && prev == AddrAt(rs[i].blocks, k - 1) && next == AddrAt(rs[i].blocks, k)
                && at == GapStart(rs[i], k)
    {
      hide RegionsOk, MajorsLinked, MinorsLinked, Prefixes, FirstFit, Usage;
      ghost var r := rs[i];
      MajorAt(majors, rs, i);
      FirstAddr(rs, i);
      var min := majors[maj].first;
      if min == 0 || min - maj - MAJOR >= need {
        FirstFitIs(r, need, 0);
        return true, 0, maj + MAJOR, min;
      }
      ghost var k := 0;
      while min != 0
        invariant k <= |r.blocks| && min == AddrAt(r.blocks, k)
        invariant NoGapBefore(r, need, k + 1)
        decreases |r.blocks| - k
      {
        MinorAt(minors, rs, i, k);
        NextAddr(rs, i, k);
        var m := minors[min];
        var end := if m.next == 0 then maj + majors[maj].size else m.next;
        var diff := end - min - MINOR - m.size;
        if diff >= need {
          FirstFitIs(r, need, k + 1);
          return true, min, min + MINOR + m.size, m.next;
        }
        min := m.next;
        k := k + 1;
      }
      AddrsNonZero(rs, i);
      FirstFitIs(r, need, |r.blocks| + 1);
      return false, 0, 0, 0;
    }

    /** Put the block into the lowest fitting gap of one major, if it has one. */
    method TryPlace(maj: nat, req: nat, ghost rs: seq<Region>, ghost i: nat) returns (p: nat)
      requires Rep(rs) && i < |rs| && maj == rs[i].base
      requires rs[i].blocks == [] ==> Gap(rs[i], 0) >= req + SLACK + MINOR
      modifies `majors, `minors, `inuse, `bytes
      ensures p != 0 <==> HasRoom(rs[i], req + SLACK + MINOR)
      ensures p == 0 ==> Rep(rs) && inuse == old(inuse) && bytes == old(bytes) && majors == old(majors)
      ensures p != 0 ==>
                var k := FirstFit(rs[i], req + SLACK + MINOR, 0);
                && Rep(rs[i := Insert(rs[i], k, req)])
                && p == UserPtr(Placed(rs[i], k, req))
                && inuse == old(inuse) + req + SLACK
                && bytes == old(bytes)[p - ALIGN_INFO := p - (GapStart(rs[i], k) + MINOR)]
    {
      hide Rep, FirstFit, UserPtr, Insert, Gap;
      var found, prev, at, next := FindGap(maj, req + SLACK + MINOR, rs, i);
      if found {
        p := Place(maj, prev, at, next, req, rs, i, FirstFit(rs[i], req + SLACK + MINOR, 0));
      } else {
        p := 0;
      }
    }

    lemma RepMajor(rs: seq<Region>, i: nat)
      requires Rep(rs) && i < |rs|
      ensures rs[i].base in majors && rs[i].base > 0 && memRoot == BaseAt(rs, 0)
      ensures var m := majors[rs[i].base];
              && m.next == BaseAt(rs, i + 1) && m.size - m.usage == Unused(rs[i]) && Unused(rs[i]) >= 0
              && (m.next == 0 <==> i + 1 == |rs|)
    {
      MajorAt(majors, rs, i);
      assert i + 1 < |rs| ==> RegionOk(rs[i + 1]);
      GapWithinUnused(rs[i], 0);
    }

    lemma RepTooFull(rs: seq<Region>, i: nat, need: nat)
      requires Rep(rs) && i < |rs| && Unused(rs[i]) < need
      ensures !HasRoom(rs[i], need)
    {
      TooFull(rs[i], need);
    }

    lemma RepRoot(rs: seq<Region>)
      requires Rep(rs)
      ensures memRoot == BaseAt(rs, 0)
    {}

    /** What holds when malloc's search arrives at the major with index i. */
    ghost predicate Looking(v: View, req: nat, sourceOk: bool, startedBet: bool, grown: bool,
                            rs: seq<Region>, i: nat, seen: seq<Region>)
      reads `majors, `minors, `bytes, `memRoot, `heapEnd, `inuse, `reserved
    {
      var need, m := req + SLACK + MINOR, NewMajor(v, req);
      && Rep(rs) && i < |rs| && inuse == InUse(v.regions)
      && Searching(v, need, startedBet, i, seen)
      && if grown then
           && sourceOk && !startedBet && rs == v.regions + [m] && i == |v.regions|
           && heapEnd == v.end + m.size && reserved == Allocated(v.regions) + m.size
         else
           && rs == v.regions
           && heapEnd == v.end && reserved == Allocated(v.regions)
    }

    /** The search has failed and the system source refused a new major. */
    ghost predicate Refused(v: View, req: nat, sourceOk: bool, seen: seq<Region>)
      reads `majors, `minors, `bytes, `memRoot, `heapEnd, `inuse, `reserved
    {
      && !sourceOk && Rep(v.regions) && inuse == InUse(v.regions)
      && Searching(v, req + SLACK + MINOR, false, |v.regions|, seen)
      && heapEnd == v.end && reserved == Allocated(v.regions)
    }

    lemma DoneInPlace(v: View, req: nat, sourceOk: bool, startedBet: bool, i: nat, seen: seq<Region>)
      requires Inv(v) && Bounded(req) && i < |v.regions| && HasRoom(v.regions[i], req + SLACK + MINOR)
      requires Searching(v, req + SLACK + MINOR, startedBet, i, seen)
      requires Rep(v.regions[i := Insert(v.regions[i], FirstFit(v.regions[i], req + SLACK + MINOR, 0), req)])
      requires bestBet == Scan(seen + [v.regions[i]], InitialBet(v)).addr && heapEnd == v.end
      requires inuse == InUse(v.regions) + req + SLACK && reserved == Allocated(v.regions)
      ensures Holds(HeapView.Malloc(v, req, sourceOk).view)
      ensures HeapView.Malloc(v, req, sourceOk).ptr ==
              UserPtr(Placed(v.regions[i], FirstFit(v.regions[i], req + SLACK + MINOR, 0), req))
    {
      hide Inv, Rep, Searching, InitialBet, Scan;
      MallocInPlace(v, req, sourceOk, startedBet, i, seen);
      MallocKeepsInv(v, req, sourceOk);
      MallocTotals(v, req, sourceOk);
      SearchArrives(v, req + SLACK + MINOR, startedBet, i, seen);
      PtrPositive(Insert(v.regions[i], FirstFit(v.regions[i], req + SLACK + MINOR, 0), req).blocks);
    }

    lemma DoneInNewMajor(v: View, req: nat, looped: bool, seen: seq<Region>)
      requires Inv(v) && Bounded(req)
      requires Searching(v, req + SLACK + MINOR, false, |v.regions|, seen)
      requires looped <==> v.regions == [] || Unused(v.regions[|v.regions| - 1]) >= req + SLACK + MINOR
      requires Rep(v.regions + [Insert(NewMajor(v, req), 0, req)])
      requires var m, bet := NewMajor(v, req), Scan(seen, InitialBet(v));
               && bestBet == (if looped then Better(bet, m) else bet).addr && heapEnd == v.end + m.size
               && inuse == InUse(v.regions) + req + SLACK && reserved == Allocated(v.regions) + m.size
      ensures Holds(HeapView.Malloc(v, req, true).view)
      ensures HeapView.Malloc(v, req, true).ptr == UserPtr(Placed(NewMajor(v, req), 0, req))
    {
      hide Inv, Rep, Searching, InitialBet, Scan, Unused;
      MallocInNewMajor(v, req, seen);
      MallocKeepsInv(v, req, true);
      MallocTotals(v, req, true);
      SearchExhausted(v, req + SLACK + MINOR, seen);
      PtrPositive(Insert(NewMajor(v, req), 0, req).blocks);
    }

    lemma DoneRefused(v: View, req: nat, seen: seq<Region>)
      requires Inv(v) && Bounded(req) && Rep(v.regions)
      requires Searching(v, req + SLACK + MINOR, false, |v.regions|, seen)
      requires bestBet == Scan(seen, InitialBet(v)).addr && heapEnd == v.end
      requires inuse == InUse(v.regions) && reserved == Allocated(v.regions)
      ensures Holds(HeapView.Malloc(v, req, false).view) && HeapView.Malloc(v, req, false).ptr == 0
    {
      hide Inv, Rep, Searching, InitialBet, Scan;
      MallocRefused(v, req, seen);
      MallocKeepsInv(v, req, false);
    }

    /** Start at the best bet if it has more than enough unused bytes. */
    method StartSearch(need: nat, ghost v: View) returns (maj: nat, startedBet: bool, bestSize: int)
      requires Inv(v) && bestBet == v.best
      requires v.best != 0 ==> Rep(v.regions)
      ensures startedBet == StartsAtBet(v, need)
      ensures Bet(bestBet, bestSize) == InitialBet(v)
      ensures maj == if startedBet then v.regions[Start(v, need)].base else memRoot
    {
      maj, startedBet, bestSize := memRoot, false, 0;
      if bestBet != 0 {
        RepMajor(v.regions, IndexOf(v.regions, v.best));
        bestSize := majors[bestBet].size - majors[bestBet].usage;
        if bestSize > need {
          maj, startedBet := bestBet, true;
        }
      }
    }

    /** What holds when malloc turns to the gaps of the major it stands at. */
    ghost predicate AtMajor(v: View, req: nat, sourceOk: bool, startedBet: bool, grown: bool, looped: bool,
                            rs: seq<Region>, i: nat, seen: seq<Region>)
      reads `majors, `minors, `bytes, `memRoot, `bestBet, `heapEnd, `inuse, `reserved
    {
      var need, m, bet := req + SLACK + MINOR, NewMajor(v, req), Scan(seen, InitialBet(v));
      && Rep(rs) && i < |rs| && inuse == InUse(v.regions)
      && if grown then
           && sourceOk && rs == v.regions + [m] && i == |v.regions|
           && Searching(v, need, false, i, seen)
           && (looped <==> v.regions == [] || Unused(v.regions[i - 1]) >= need)
           && bestBet == (if looped then Better(bet, m) else bet).addr
           && heapEnd == v.end + m.size && reserved == Allocated(v.regions) + m.size
         else
           && rs == v.regions && Searching(v, need, startedBet, i, seen)
           && bestBet == Scan(seen + [rs[i]], InitialBet(v)).addr
           && heapEnd == v.end && reserved == Allocated(v.regions)
    }

    /** CASES 2 to 4 and the return, or nothing if no gap of this major fits. */
    method Settle(maj: nat, req: nat, ghost v: View, ghost sourceOk: bool, ghost startedBet: bool,
                  ghost grown: bool, ghost looped: bool, ghost rs: seq<Region>, ghost i: nat,
                  ghost seen: seq<Region>)
      returns (p: nat)
      requires Inv(v) && Bounded(req)
      requires AtMajor(v, req, sourceOk, startedBet, grown, looped, rs, i, seen) && maj == rs[i].base
      modifies `majors, `minors, `inuse, `bytes, `view
      ensures p != 0 ==>
                && Valid() && view == HeapView.Malloc(v, req, sourceOk).view
                && p == HeapView.Malloc(v, req, sourceOk).ptr
                && (forall x: nat :: x != p - ALIGN_INFO ==> Peek(bytes, x) == Peek(old(bytes), x))
      ensures p == 0 ==>
                && !grown && !HasRoom(rs[i], req + SLACK + MINOR) && Rep(rs) && majors == old(majors)
                && inuse == old(inuse) && bytes == old(bytes) && view == old(view)
    {
      hide Inv, Rep, HeapView.Malloc, Searching, HasRoom, FirstFit, Insert, UserPtr, Unused, Scan, InitialBet;
      GrowReady(v);
      FreshRegion(v, req);
      p := TryPlace(maj, req, rs, i);
      if p != 0 {
        if grown {
          assert rs[i := Insert(rs[i], 0, req)] == v.regions + [Insert(NewMajor(v, req), 0, req)];
          DoneInNewMajor(v, req, looped, seen);
        } else {
          DoneInPlace(v, req, sourceOk, startedBet, i, seen);
        }
        view := HeapView.Malloc(v, req, sourceOk).view;
      }
    }

    /** This major is of no use: hop to the next one, or start again from the
        root, or link a new major (0 if the system refuses). */
    method Leave(maj: nat, bet: bool, req: nat, sourceOk: bool, ghost v: View, ghost i: nat, ghost seen: seq<Region>)
      returns (next: nat, startedBet: bool, grown: bool, ghost rs: seq<Region>, ghost j: nat)
      requires Inv(v) && Bounded(req) && Looking(v, req, sourceOk, bet, false, v.regions, i, seen)
      requires !HasRoom(v.regions[i], req + SLACK + MINOR) && maj == v.regions[i].base
      modifies `majors, `heapEnd, `reserved, `warnings, `memRoot
      ensures var seen' := seen + [v.regions[i]];
              if next == 0 then Refused(v, req, sourceOk, seen')
              else Looking(v, req, sourceOk, startedBet, grown, rs, j, seen') && next == rs[j].base
      ensures rs == (if grown then v.regions + [NewMajor(v, req)] else v.regions) && j <= |rs|
      ensures grown ==> next != 0
      ensures warnings == old(warnings) + (if next == 0 then 1 else 0)
      ensures grown || next == 0 ==> !bet && !startedBet && i + 1 == |v.regions|
      ensures (bet && !startedBet) || grown || (bet == startedBet && j == i + 1)
    {
      hide Inv, Rep, HasRoom, Unused, Searching, RequestedPages, Bounded;
      RepMajor(v.regions, i);
      RepRoot(v.regions);
      SearchHop(v, req + SLACK + MINOR, bet, i, seen);
      startedBet, grown, rs, j := bet, false, v.regions, i + 1;
      next := majors[maj].next;
      if next == 0 {
        if bet {
          SearchRestart(v, req + SLACK + MINOR, seen + [v.regions[i]]);
          RepMajor(v.regions, 0);
          return memRoot, false, false, v.regions, 0;
        }
        GrowReady(v);
        next := Grow(maj, req + SLACK, sourceOk, req, v.regions);
        if next != 0 {
          grown, rs := true, v.regions + [NewMajor(v, req)];
        }
      }
    }

    /** Entry of malloc's loop: a first major if there is none, then the choice
        between the root and the best bet. */
    method Begin(req: nat, sourceOk: bool, ghost v: View)
      returns (maj: nat, startedBet: bool, bestSize: int, grown: bool, ghost rs: seq<Region>, ghost i: nat)
      requires Holds(v) && Bounded(req)
      modifies `majors, `heapEnd, `reserved, `warnings, `memRoot
      ensures if maj == 0 then Refused(v, req, sourceOk, [])
              else Looking(v, req, sourceOk, startedBet, grown, rs, i, []) && maj == rs[i].base
      ensures Bet(bestBet, bestSize) == InitialBet(v) && i <= |rs|
      ensures grown ==> v.regions == []
      ensures warnings == old(warnings) + (if maj == 0 then 1 else 0)
    {
      hide Inv, Rep, Searching, InitialBet, StartsAtBet, RequestedPages, Start, Bounded;
      SearchBegins(v, req + SLACK + MINOR);
      GrowReady(v);
      RepRoot(v.regions);
      rs, grown := v.regions, false;
      if memRoot == 0 {
        EmptySearch(v, req + SLACK + MINOR);
        var root := Grow(0, req + SLACK, sourceOk, req, rs);
        if root == 0 {
          return 0, false, 0, false, rs, 0;
        }
        rs, grown := rs + [NewMajor(v, req)], true;
        RepRoot(rs);
      }
      maj, startedBet, bestSize := StartSearch(req + SLACK + MINOR, v);
      i := Start(v, req + SLACK + MINOR);
      RepMajor(rs, i);
    }

    /** What holds when malloc's loop tests maj. */
    ghost predicate AtLoop(v: View, req: nat, sourceOk: bool, maj: nat, startedBet: bool, bestSize: int, grown: bool,
                           rs: seq<Region>, i: nat, seen: seq<Region>)
      reads `majors, `minors, `bytes, `memRoot, `bestBet, `heapEnd, `inuse, `reserved
    {
      && i <= |rs| && Bet(bestBet, bestSize) == Scan(seen, InitialBet(v))
      && if maj == 0 then Refused(v, req, sourceOk, seen)
         else
           && Looking(v, req, sourceOk, startedBet, grown, rs, i, seen) && maj == rs[i].base
           && (grown ==> v.regions == [] || Unused(v.regions[i - 1]) >= req + SLACK + MINOR)
    }

    /** One round of malloc's loop: a block in this major (p), or the next major to look
        at.  After a new major has been linked, or the search has started again, that
        does not happen another time. */
    method Round(maj: nat, startedBet: bool, bestSize: int, grown: bool, req: nat, sourceOk: bool, ghost v: View,
                 ghost rs: seq<Region>, ghost i: nat, ghost seen: seq<Region>)
      returns (p: nat, maj': nat, startedBet': bool, bestSize': int, grown': bool,
               ghost rs': seq<Region>, ghost i': nat, ghost seen': seq<Region>)
      requires Inv(v) && Bounded(req) && maj != 0
      requires AtLoop(v, req, sourceOk, maj, startedBet, bestSize, grown, rs, i, seen)
      modifies this
      ensures p != 0 ==>
                && Valid() && view == HeapView.Malloc(v, req, sourceOk).view
                && p == HeapView.Malloc(v, req, sourceOk).ptr
                && (forall x: nat :: x != p - ALIGN_INFO ==> Peek(bytes, x) == Peek(old(bytes), x))
                && warnings == old(warnings)
      ensures errors == old(errors) && overruns == old(overruns)
      ensures p == 0 ==>
                && AtLoop(v, req, sourceOk, maj', startedBet', bestSize', grown', rs', i', seen')
                && view == old(view) && bytes == old(bytes)
                && warnings == old(warnings) + (if maj' == 0 then 1 else 0)
                && (|| (startedBet && !startedBet')
                    || (startedBet == startedBet' && !grown && grown')
                    || (startedBet == startedBet' && grown == grown' && |rs'| - i' < |rs| - i))
    {
      hide Inv, Rep, HeapView.Malloc, Searching, HasRoom, Unused, Scan, InitialBet, NewMajorSize, RequestedPages;
      var need := req + SLACK + MINOR;
      maj', startedBet', bestSize', grown', rs', i', seen' := maj, startedBet, bestSize, grown, rs, i, seen;
      RepMajor(rs, i);
      ScanStep(seen, rs[i], InitialBet(v));
      var diff := majors[maj].size - majors[maj].usage;
      if bestSize < diff {
        bestBet := maj;
        bestSize' := diff;
      }
      if diff < need {
        // CASE 1: not enough space in this major.
        FreshRegion(v, req);
        RepTooFull(rs, i, need);
        seen' := seen + [rs[i]];
        maj', startedBet', grown', rs', i' := Leave(maj, startedBet, req, sourceOk, v, i, seen);
        if !grown' {
          return 0, maj', startedBet', bestSize', grown', rs', i', seen';
        }
      }
      p := Settle(maj', req, v, sourceOk, startedBet', grown', grown, rs', i', seen');
      if p == 0 {
        // CASE 5: no gap of this major fits.
        seen' := seen + [rs[i]];
        maj', startedBet', grown', rs', i' := Leave(maj, startedBet, req, sourceOk, v, i, seen);
      }
    }

    method Malloc(req: nat, sourceOk: bool) returns (p: nat)
      requires Valid() && Bounded(req)
      modifies this
      ensures Valid()
      ensures view == HeapView.Malloc(old(view), req, sourceOk).view
      ensures p == HeapView.Malloc(old(view), req, sourceOk).ptr
      ensures forall x: nat :: p == 0 || x != p - ALIGN_INFO ==> Peek(bytes, x) == Peek(old(bytes), x)
      ensures warnings == old(warnings) + (if p == 0 then 1 else 0)
      ensures errors == old(errors) && overruns == old(overruns)
    {
      hide Inv, Rep, HeapView.Malloc, Looking, Searching, Unused, Scan, InitialBet, Bounded;
      ghost var v, seen: seq<Region> := view, [];
      ScanEmpty(InitialBet(v));
      var maj, startedBet, bestSize, grown;
      ghost var rs;
      ghost var i: nat;
      maj, startedBet, bestSize, grown, rs, i := Begin(req, sourceOk, v);
      while maj != 0
        invariant view == v && bytes == old(bytes)
        invariant warnings == old(warnings) + (if maj == 0 then 1 else 0)
        invariant errors == old(errors) && overruns == old(overruns)
        invariant AtLoop(v, req, sourceOk, maj, startedBet, bestSize, grown, rs, i, seen)
        decreases startedBet, !grown, |rs| - i
      {
        p, maj, startedBet, bestSize, grown, rs, i, seen :=
          Round(maj, startedBet, bestSize, grown, req, sourceOk, v, rs, i, seen);
        if p != 0 {
          return;
        }
      }
      DoneRefused(v, req, seen);
      view := HeapView.Malloc(v, req, sourceOk).view;
      return 0;
    }

    // ----- free

    /** A pointer whose header was freed and not yet overwritten. */
    ghost predicate DeadPtr(p: nat)
      reads `minors, `bytes
    {
      p >= ALIGN_INFO &&
      var at := p - Peek(bytes, p - ALIGN_INFO) - MINOR;
      Peek(bytes, p - ALIGN_INFO) < SLACK && at >= 0 && at in minors && minors[at].magic == LIBALLOC_DEAD
    }

    method Unalign(p: nat) returns (q: int)
      requires p >= ALIGN_INFO
      ensures forall i: nat, k: nat :: Prefixes(bytes, view.regions) && PtrOf(view.regions, p, i, k) ==>
                q - MINOR == BlockAt(view.regions, i, k).addr
      ensures DeadPtr(p) ==> q == p - Peek(bytes, p - ALIGN_INFO)
    {
      var diff := Peek(bytes, p - ALIGN_INFO);
      q := if diff < SLACK then p - diff else p;
    }

    method Unsplice(at: nat)
      requires at in minors
      modifies `minors
      ensures minors == Unspliced(old(minors), at)
    {
      hide SetPrev, SetNext;
      var m := minors[at];
      minors := minors[at := m.(magic := LIBALLOC_DEAD)];
      if m.next != 0 {
        minors := SetPrev(minors, m.next, m.prev);
      }
      if m.prev != 0 {
        minors := SetNext(minors, m.prev, m.next);
      }
    }

    /** free, first half: the minor leaves its list and the totals. */
    method Detach(at: nat, ghost rs: seq<Region>, ghost i: nat, ghost k: nat)
      requires Rep(rs) && IsBlock(rs, i, k) && at == BlockAt(rs, i, k).addr
      modifies `majors, `minors, `inuse
      ensures Rep(rs[i := Delete(rs[i], k)])
      ensures inuse == old(inuse) - BlockAt(rs, i, k).size
      ensures at in minors && minors[at].magic == LIBALLOC_DEAD
    {
      hide RegionsOk, MajorsLinked, MinorsLinked, Prefixes, Unspliced;
      DetachedRep(majors, minors, bytes, rs, i, k);
      var min := minors[at];
      var maj := min.block;
      inuse := inuse - min.size;
      majors := majors[maj := majors[maj].(usage := majors[maj].usage - (min.size + MINOR),
                                           first := if min.prev == 0 then min.next else majors[maj].first)];
      Unsplice(at);
    }

    /** free, second half for a major left without minors. */
    method DropMajor(maj: nat, ghost rs: seq<Region>, ghost i: nat)
      requires Rep(rs) && i < |rs| && maj == rs[i].base
      modifies `majors, `minors, `memRoot, `bestBet, `reserved
      ensures Rep(rs[..i] + rs[i + 1..])
      ensures bestBet == if old(bestBet) == maj then 0 else old(bestBet)
      ensures reserved == old(reserved) - rs[i].size
    {
      hide RegionsOk, MajorsLinked, MinorsLinked, Prefixes, Usage, Scrub;
      DroppedRep(majors, minors, bytes, rs, i);
      var m := majors[maj];
      if memRoot == maj {
        memRoot := m.next;
      }
      if bestBet == maj {
        bestBet := 0;
      }
      majors := Unlinked(majors, maj);
      reserved := reserved - m.size;
      // free_heap: the pages are unmapped and never handed out again.
      minors := Scrub(minors, maj, maj + m.size);
    }

    lemma DoneFree(v: View, p: nat, i: nat, k: nat)
      requires Inv(v) && PtrOf(v.regions, p, i, k)
      requires var w := Release(v, i, k);
               && Rep(w.regions) && bestBet == w.best && heapEnd == v.end
               && inuse == InUse(v.regions) - BlockAt(v.regions, i, k).size
               && reserved == Allocated(v.regions) - (if |v.regions[i].blocks| == 1 then v.regions[i].size else 0)
      ensures Holds(HeapView.Free(v, p)) && HeapView.Free(v, p) == Release(v, i, k)
    {
      hide Inv, Rep, HeapView.Free;
      FreeAt(v, p, i, k);
      ReleaseTotals(v, i, k);
      ReleaseKeepsInv(v, i, k);
    }

    method Free(p: nat)
      requires Valid()
      requires p == 0 || LivePtr(view.regions, p) || DeadPtr(p)
      modifies this
      ensures Valid() && bytes == old(bytes)
      ensures view == HeapView.Free(old(view), p)
      ensures warnings == old(warnings) + (if p == 0 then 1 else 0)
      ensures errors == old(errors) + (if p != 0 && !LivePtr(old(view).regions, p) then 1 else 0)
      ensures overruns == old(overruns)
      ensures LivePtr(old(view).regions, p) && |view.regions| == |old(view).regions| ==> DeadPtr(p)
    {
      hide Inv, Rep, HeapView.Free, Unused, LivePtr, PtrOf, InUse, Allocated;
      ghost var v := view;
      if p == 0 {
        NoNullPtr(v.regions);
        FreeDead(v, p);
        warnings := warnings + 1;
        return;
      }
      var at := Locate(p);
      if minors[at].magic != LIBALLOC_MAGIC {
        FreeDead(v, p);
        errors := errors + 1;
        overruns := overruns + Overrun(minors[at].magic);
        return;
      }
      ghost var i, k := LiveAt(v.regions, p);
      LocateUnique(v, p, i, k);
      Discard(at, v, p, i, k);
      view := HeapView.Free(v, p);
    }

    /** UNALIGN and the step back to the header; a live pointer and no other
        leads to a header with the magic number. */
    method Locate(p: nat) returns (at: nat)
      requires Valid() && p != 0
      requires LivePtr(view.regions, p) || DeadPtr(p)
      ensures at in minors && p >= ALIGN_INFO
      ensures Peek(bytes, p - ALIGN_INFO) < SLACK && at == p - Peek(bytes, p - ALIGN_INFO) - MINOR
      ensures minors[at].magic == LIBALLOC_MAGIC <==> LivePtr(view.regions, p)
      ensures !LivePtr(view.regions, p) ==> minors[at].magic == LIBALLOC_DEAD
      ensures forall i: nat, k: nat :: PtrOf(view.regions, p, i, k) ==>
                at == BlockAt(view.regions, i, k).addr && minors[at] == MinorHeader(view.regions[i], k)
    {
      hide Inv, RegionsOk, MajorsLinked;
      assert p >= ALIGN_INFO;
      var ptr := Unalign(p);
      if i: nat, k: nat :| PtrOf(view.regions, p, i, k) {
        MinorAt(minors, view.regions, i, k);
        BlockHigh(view.regions, i, k);
      }
      at := ptr - MINOR;
    }

    /** The rest of free for a live minor. */
    method Discard(at: nat, ghost v: View, ghost p: nat, ghost i: nat, ghost k: nat)
      requires Holds(v) && PtrOf(v.regions, p, i, k) && at == BlockAt(v.regions, i, k).addr
      requires at in minors && minors[at] == MinorHeader(v.regions[i], k)
      modifies `majors, `minors, `memRoot, `bestBet, `inuse, `reserved
      ensures Holds(HeapView.Free(v, p))
      ensures |HeapView.Free(v, p).regions| == |v.regions| ==> at in minors && minors[at].magic == LIBALLOC_DEAD
    {
      hide Inv, Rep, HeapView.Free, Unused, InUse, Allocated, IndexOf;
      ghost var rs, r := v.regions, Delete(v.regions[i], k);
      ghost var rs' := rs[i := r];
      var maj := minors[at].block;
      BestListed(v, i, r);
      Detach(at, rs, i, k);
      RepMajor(rs', i);
      RepFirst(rs', i);
      if majors[maj].first == 0 {
        DropMajor(maj, rs', i);
        assert rs'[..i] + rs'[i + 1..] == rs[..i] + rs[i + 1..];
      } else if bestBet != 0 {
        RepMajor(rs', IndexOf(rs', v.best));
        var bestSize := ToInt(majors[bestBet].size - majors[bestBet].usage);
        var majSize := ToInt(majors[maj].size - majors[maj].usage);
        if majSize > bestSize {
          bestBet := maj;
        }
      }
      DoneFree(v, p, i, k);
    }

    lemma RepFirst(rs: seq<Region>, i: nat)
      requires Rep(rs) && i < |rs|
      ensures rs[i].base in majors && (majors[rs[i].base].first == 0 <==> rs[i].blocks == [])
    {
      MajorAt(majors, rs, i);
      FirstAddr(rs, i);
    }

    // ----- user writes and realloc

    /** A user stores a byte inside a block it owns. */
    method Write(p: nat, offset: nat, value: nat, ghost i: nat, ghost k: nat)
      requires Valid() && PtrOf(view.regions, p, i, k) && offset < BlockAt(view.regions, i, k).req
      modifies `bytes
      ensures Valid() && bytes == old(bytes)[p + offset := value]
    {
      PrefixesWrite(bytes, bytes[p + offset := value], view.regions, i, k);
      hide Inv, RegionsOk, MajorsLinked, MinorsLinked, Prefixes;
      bytes := bytes[p + offset := value];
    }

    /** liballoc_memcpy: whole words first, then the remaining bytes. */
    method Memcpy(dst: nat, src: nat, count: nat)
      requires dst + count <= src || src + count <= dst
      modifies `bytes
      ensures Copied(old(bytes), bytes, dst, src, count)
    {
      hide Copied, CopiedWord, CopiedByte;
      var n, d, s := count, dst, src;
      CopiedNone(bytes, dst, src);
      while n >= 4
        invariant 0 <= n <= count && d == dst + (count - n) && s == src + (count - n)
        invariant Copied(old(bytes), bytes, dst, src, count - n)
      {
        CopyOne(bytes, d, s);
        CopyMore(old(bytes), bytes, CopiedWord(bytes, d, s), dst, src, count - n, 4);
        bytes := CopiedWord(bytes, d, s);
        d, s, n := d + 4, s + 4, n - 4;
      }
      while n > 0
        invariant 0 <= n <= count && d == dst + (count - n) && s == src + (count - n)
        invariant Copied(old(bytes), bytes, dst, src, count - n)
      {
        CopyOne(bytes, d, s);
        CopyMore(old(bytes), bytes, CopiedByte(bytes, d, s), dst, src, count - n, 1);
        bytes := CopiedByte(bytes, d, s);
        d, s, n := d + 1, s + 1, n - 1;
      }
    }

    /** Resizing in place stores the new req_size only. */
    method ShrinkInPlace(at: nat, size: nat, ghost i: nat, ghost k: nat)
      requires Valid() && IsBlock(view.regions, i, k) && at == BlockAt(view.regions, i, k).addr
      requires size <= BlockAt(view.regions, i, k).req
      modifies `minors, `view
      ensures Valid() && view == Shrink(old(view), i, k, size)
    {
      hide Inv, RegionsOk;
      ShrunkRep(majors, minors, bytes, view, i, k, size);
      ShrinkKeepsInv(view, i, k, size);
      hide MajorsLinked, MinorsLinked, Prefixes;
      minors := minors[at := minors[at].(req := size)];
      view := Shrink(view, i, k, size);
    }

    /** The allocation and copy of a growing realloc; the old block stays. */
    method CopyOut(p: nat, size: nat, sourceOk: bool, ghost i: nat, ghost k: nat, realSize: nat)
      returns (q: nat, ghost k': nat)
      requires Valid() && Bounded(size) && PtrOf(view.regions, p, i, k)
      requires realSize == BlockAt(view.regions, i, k).req < size
      requires HeapView.Malloc(view, size, sourceOk).ptr != 0
      modifies this
      ensures Valid() && view == HeapView.Malloc(old(view), size, sourceOk).view
      ensures q == HeapView.Malloc(old(view), size, sourceOk).ptr
      ensures SameBytes(old(bytes), p, bytes, q, realSize)
      ensures forall x: nat :: Peek(bytes, x) != Peek(old(bytes), x) ==> x == q - ALIGN_INFO || q <= x < q + size
      ensures PtrOf(view.regions, p, i, k')
      ensures warnings == old(warnings) && errors == old(errors) && overruns == old(overruns)
    {
      hide Inv, RegionsOk, MajorsLinked, MinorsLinked, Prefixes, HeapView.Malloc, Site;
      ghost var v := view;
      MallocOutcome(v, size, sourceOk);
      MallocKeepsBlock(v, size, sourceOk, i, k);
      ghost var (j, l) := Site(v, size);
      q := Malloc(size, sourceOk);
      k' := if i == j && l <= k then k + 1 else k;
      CopyDisjoint(view.regions, i, k', j, l);
      PrefixElsewhere(view.regions, i, k', j, l);
      ghost var bytes1 := bytes;
      Memcpy(q, p, realSize);
      CopiedWithin(bytes1, bytes, q, p, realSize);
      PrefixesWrite(bytes1, bytes, view.regions, j, l);
      assert SameBytes(old(bytes), p, bytes, q, realSize);
    }

    method Realloc(p: nat, size: nat, sourceOk: bool) returns (q: nat)
      requires Valid() && Bounded(size)
      requires p == 0 || LivePtr(view.regions, p) || DeadPtr(p)
      requires forall i: nat, k: nat :: PtrOf(view.regions, p, i, k) && BlockAt(view.regions, i, k).req < size ==>
                 HeapView.Malloc(view, size, sourceOk).ptr != 0
      modifies this
      ensures Valid()
      ensures view == HeapView.Realloc(old(view), p, size, sourceOk).view
      ensures q == HeapView.Realloc(old(view), p, size, sourceOk).ptr
      ensures warnings == old(warnings) + (if p == 0 && q == 0 then 1 else 0)
      ensures errors == old(errors) + (if p != 0 && !LivePtr(old(view).regions, p) then 1 else 0)
      ensures overruns == old(overruns)
      // The first min(old, new) bytes survive, and so does every other block.
      ensures forall i: nat, k: nat :: PtrOf(old(view).regions, p, i, k) && size != 0 ==>
                var b := BlockAt(old(view).regions, i, k);
                SameBytes(old(bytes), p, bytes, q, if b.req < size then b.req else size)
      ensures forall i: nat, k: nat, x: nat ::
                IsBlock(old(view).regions, i, k) && Owns(BlockAt(old(view).regions, i, k), x) ==>
                Peek(bytes, x) == Peek(old(bytes), x)
    {
      hide Inv, Rep, HeapView.Malloc, HeapView.Free, HeapView.Realloc, Owns, Shrink;
      ghost var v, bytes0 := view, bytes;
      ReallocCases(v, p, size, sourceOk);
      forall i: nat, k: nat, x: nat | IsBlock(v.regions, i, k) && Owns(BlockAt(v.regions, i, k), x)
        ensures var r := HeapView.Malloc(v, size, sourceOk).ptr;
                r != 0 ==> x != r - ALIGN_INFO && !(r <= x < r + size)
      {
        OldBytesSpared(v, size, sourceOk, i, k, x);
      }
      if size == 0 {
        Free(p);
        return 0;
      }
      if p == 0 {
        q := Malloc(size, sourceOk);
        return;
      }
      var at := Locate(p);
      if minors[at].magic != LIBALLOC_MAGIC {
        errors := errors + 1;
        overruns := overruns + Overrun(minors[at].magic);
        return 0;
      }
      ghost var i: nat, k: nat :| PtrOf(v.regions, p, i, k);
      PtrsUnique(v, p, i, k);
      var realSize := minors[at].req;
      if realSize >= size {
        ShrinkInPlace(at, size, i, k);
        return p;
      }
      ghost var k';
      q, k' := CopyOut(p, size, sourceOk, i, k, realSize);
      Free(p);
    }
  }

  /** The maps after one placement encode the view after it. */
  lemma PlacedRep(majors: map<nat, Major>, minors: map<nat, Minor>, bytes: map<nat, nat>,
                  rs: seq<Region>, i: nat, k: nat, req: nat)
    requires RegionsOk(rs) && MajorsLinked(majors, rs) && MinorsLinked(minors, rs) && Prefixes(bytes, rs)
    requires i < |rs| && k <= |rs[i].blocks| && Gap(rs[i], k) >= req + SLACK + MINOR
    ensures var maj, at, prev, next, size :=
              rs[i].base, GapStart(rs[i], k), AddrAt(rs[i].blocks, k - 1), AddrAt(rs[i].blocks, k), req + SLACK;
            var r := Insert(rs[i], k, req);
            var b := r.blocks[k];
            && b.addr == at && (prev == 0 <==> k == 0) && BaseAt(rs, 0) == BaseAt(rs[i := r], 0)
            && RegionsOk(rs[i := r])
            && MinorsLinked(Spliced(minors, at, Minor(prev, next, maj, LIBALLOC_MAGIC, size, req)), rs[i := r])
            && maj in majors
            && MajorsLinked(majors[maj := majors[maj].(usage := majors[maj].usage + size + MINOR,
                                           first := if prev == 0 then at else majors[maj].first)], rs[i := r])
            && Prefixes(bytes[UserPtr(b) - ALIGN_INFO := UserPtr(b) - (at + MINOR)], rs[i := r])
  {
    hide RegionsOk, MajorsLinked, MinorsLinked, Prefixes, Gap, Usage, Spliced, UserPtr;
    var r := Insert(rs[i], k, req);
    InsertRegion(rs, i, k, req);
    SpliceLinks(minors, rs, i, k, req);
    UpdateMajor(majors, rs, i, r);
    PrefixesInsert(bytes, rs, i, k, req);
    MajorAt(majors, rs, i);
    if k > 0 {
      AddrNonZero(rs, i, k - 1);
    }
  }

  lemma MajorAt(majors: map<nat, Major>, rs: seq<Region>, i: nat)
    requires MajorsLinked(majors, rs) && i < |rs|
    ensures rs[i].base in majors && majors[rs[i].base] == MajorHeader(rs, i)
  {
    var h := MajorHeader(rs, i);
  }

  lemma MinorAt(minors: map<nat, Minor>, rs: seq<Region>, i: nat, k: nat)
    requires MinorsLinked(minors, rs) && IsBlock(rs, i, k)
    ensures BlockAt(rs, i, k).addr in minors
    ensures minors[BlockAt(rs, i, k).addr] == MinorHeader(rs[i], k)
  {}

  lemma AppendBlocks(minors: map<nat, Minor>, bytes: map<nat, nat>, rs: seq<Region>, r: Region)
    requires MinorsLinked(minors, rs) && Prefixes(bytes, rs) && r.blocks == []
    ensures MinorsLinked(minors, rs + [r]) && Prefixes(bytes, rs + [r])
  {
    forall i: nat, k: nat | IsBlock(rs + [r], i, k)
      ensures IsBlock(rs, i, k) && (rs + [r])[i] == rs[i]
    {
    }
  }

  ghost predicate NoGapBefore(r: Region, need: nat, k: nat) {
    forall g :: 0 <= g < k && g <= |r.blocks| ==> Gap(r, g) < need
  }

  lemma FirstFitIs(r: Region, need: nat, k: nat)
    requires k <= |r.blocks| + 1 && NoGapBefore(r, need, k)
    requires k <= |r.blocks| ==> Gap(r, k) >= need
    ensures FirstFit(r, need, 0) == k
  {}

  lemma NewRegionOk(base: nat, size: nat)
    requires 0 < base && base % PAGE_SIZE == 0 && size % PAGE_SIZE == 0 && MAJOR <= size < UINT
    ensures RegionOk(Region(base, size, []))
  {}

  lemma FirstAddr(rs: seq<Region>, i: nat)
    requires RegionsOk(rs) && i < |rs|
    ensures AddrAt(rs[i].blocks, 0) == 0 <==> rs[i].blocks == []
    ensures rs[i].blocks != [] ==> rs[i].base + MAJOR <= rs[i].blocks[0].addr
  {
    if rs[i].blocks != [] {
      BlockInside(rs[i], 0);
    }
  }

  lemma NextAddr(rs: seq<Region>, i: nat, k: nat)
    requires RegionsOk(rs) && IsBlock(rs, i, k)
    ensures AddrAt(rs[i].blocks, k + 1) == 0 <==> k + 1 == |rs[i].blocks|
    ensures Gap(rs[i], k + 1) >= 0
  {
    if k + 1 < |rs[i].blocks| {
      AddrNonZero(rs, i, k + 1);
    }
    GapWithinUnused(rs[i], k + 1);
  }

  lemma AddrsNonZero(rs: seq<Region>, i: nat)
    requires RegionsOk(rs) && i < |rs|
    ensures forall k :: 0 <= k < |rs[i].blocks| ==> rs[i].blocks[k].addr != 0
  {
    forall k | 0 <= k < |rs[i].blocks|
      ensures rs[i].blocks[k].addr != 0
    {
      AddrNonZero(rs, i, k);
    }
  }

  lemma ScanEmpty(bet: Bet)
    ensures Scan([], bet) == bet
  {}

  lemma EmptySearch(v: View, need: nat)
    requires v.regions == [] && v.best == 0
    ensures Searching(v, need, false, 0, []) && InitialBet(v) == Bet(0, 0)
    ensures !StartsAtBet(v, need) && Start(v, need) == 0
  {}

  lemma PtrPositive(bs: seq<Block>)
    ensures forall k :: 0 <= k < |bs| ==> UserPtr(bs[k]) > 0
  {}

  /** A new major lies above every listed one. */
  lemma GrowReady(v: View)
    requires Inv(v)
    ensures 0 < v.end && v.end % PAGE_SIZE == 0
    ensures forall i :: 0 <= i < |v.regions| ==> v.regions[i].base + v.regions[i].size <= v.end
    ensures BaseAt(v.regions, 0) == 0 <==> v.regions == []
    ensures v.regions == [] ==> v.best == 0
    ensures forall i :: 0 <= i < |v.regions| ==> v.regions[i].blocks != []
  {
    assert v.regions != [] ==> RegionOk(v.regions[0]);
  }

  /** The maps after a minor has been detached encode the view without it. */
  lemma DetachedRep(majors: map<nat, Major>, minors: map<nat, Minor>, bytes: map<nat, nat>,
                    rs: seq<Region>, i: nat, k: nat)
    requires RegionsOk(rs) && MajorsLinked(majors, rs) && MinorsLinked(minors, rs) && Prefixes(bytes, rs)
    requires IsBlock(rs, i, k)
    ensures var at, maj, r := BlockAt(rs, i, k).addr, rs[i].base, Delete(rs[i], k);
            && at in minors && minors[at] == MinorHeader(rs[i], k) && maj in majors
            && RegionsOk(rs[i := r]) && Prefixes(bytes, rs[i := r])
            && MinorsLinked(Unspliced(minors, at), rs[i := r])
            && at in Unspliced(minors, at) && Unspliced(minors, at)[at].magic == LIBALLOC_DEAD
            && majors[maj].usage - (minors[at].size + MINOR) == Usage(r)
            && MajorsLinked(majors[maj := majors[maj].(
                              usage := Usage(r),
                              first := if minors[at].prev == 0 then minors[at].next else majors[maj].first)], rs[i := r])
  {
    hide RegionsOk, MajorsLinked, MinorsLinked, Prefixes, Usage;
    var r := Delete(rs[i], k);
    DeleteRegion(rs, i, k);
    UnspliceLinks(minors, rs, i, k);
    UpdateMajor(majors, rs, i, r);
    PrefixesKeep(bytes, rs, i, k);
    MajorAt(majors, rs, i);
    MinorAt(minors, rs, i, k);
    if k > 0 {
      AddrNonZero(rs, i, k - 1);
    }
    assert AddrAt(r.blocks, 0) == if k == 0 then AddrAt(rs[i].blocks, 1) else AddrAt(rs[i].blocks, 0);
  }

  lemma DeleteRegion(rs: seq<Region>, i: nat, k: nat)
    requires RegionsOk(rs) && IsBlock(rs, i, k)
    ensures RegionsOk(rs[i := Delete(rs[i], k)])
    ensures Usage(Delete(rs[i], k)) == Usage(rs[i]) - rs[i].blocks[k].size - MINOR
  {
    DeleteOk(rs[i], k);
    RegionsReplace(rs, i, Delete(rs[i], k));
  }

  lemma DroppedRep(majors: map<nat, Major>, minors: map<nat, Minor>, bytes: map<nat, nat>, rs: seq<Region>, i: nat)
    requires RegionsOk(rs) && MajorsLinked(majors, rs) && MinorsLinked(minors, rs) && Prefixes(bytes, rs)
    requires i < |rs|
    ensures var maj, rs' := rs[i].base, rs[..i] + rs[i + 1..];
            && maj in majors && majors[maj] == MajorHeader(rs, i)
            && RegionsOk(rs') && Prefixes(bytes, rs')
            && MajorsLinked(Unlinked(majors, maj), rs')
            && MinorsLinked(Scrub(minors, maj, maj + rs[i].size), rs')
            && (i == 0 <==> BaseAt(rs, 0) == maj)
            && BaseAt(rs', 0) == if i == 0 then BaseAt(rs, 1) else BaseAt(rs, 0)
  {
    DropRegion(rs, i);
    BasesDistinct(rs);
    hide RegionsOk, MajorsLinked, MinorsLinked, Usage, Scrub, Unlinked;
    RemoveMajor(majors, rs, i);
    ScrubLinks(minors, rs, i);
    MajorAt(majors, rs, i);
    var rs' := rs[..i] + rs[i + 1..];
    forall j: nat, l: nat | IsBlock(rs', j, l)
      ensures Prefixed(bytes, BlockAt(rs', j, l))
    {
      assert rs'[j] == rs[Skip(i, j)];
      assert IsBlock(rs, Skip(i, j), l);
    }
  }

  lemma DropRegion(rs: seq<Region>, i: nat)
    requires RegionsOk(rs) && i < |rs|
    ensures RegionsOk(rs[..i] + rs[i + 1..])
  {
    hide RegionOk;
    var rs' := rs[..i] + rs[i + 1..];
    forall j, k | 0 <= j < k < |rs'|
      ensures rs'[j].base + rs'[j].size <= rs'[k].base
    {
      assert rs'[j] == rs[Skip(i, j)] && rs'[k] == rs[Skip(i, k)];
    }
    forall j | 0 <= j < |rs'|
      ensures RegionOk(rs'[j])
    {
      assert rs'[j] == rs[Skip(i, j)];
    }
  }

  lemma FreeDead(v: View, p: nat)
    requires !LivePtr(v.regions, p)
    ensures HeapView.Free(v, p) == v
  {}

  /** 1 if the low bytes of a wrong magic number are right. */
  function Overrun(magic: nat): nat {
    if   magic % 0x100_0000 == LIBALLOC_MAGIC % 0x100_0000
      || magic % 0x1_0000 == LIBALLOC_MAGIC % 0x1_0000
      || magic % 0x100 == LIBALLOC_MAGIC % 0x100 then 1 else 0
  }

  lemma LiveAt(rs: seq<Region>, p: nat) returns (i: nat, k: nat)
    requires LivePtr(rs, p)
    ensures PtrOf(rs, p, i, k)
  {
    i, k :| PtrOf(rs, p, i, k);
  }

  lemma NoNullPtr(rs: seq<Region>)
    ensures !LivePtr(rs, 0)
  {}

  lemma LocateUnique(v: View, p: nat, i: nat, k: nat)
    requires Inv(v) && PtrOf(v.regions, p, i, k)
    ensures LivePtr(v.regions, p) && IsBlock(v.regions, i, k)
  {}

  lemma BlockHigh(rs: seq<Region>, i: nat, k: nat)
    requires RegionsOk(rs) && IsBlock(rs, i, k)
    ensures BlockAt(rs, i, k).addr >= MAJOR
  {
    BlockInside(rs[i], k);
  }

  lemma BestListed(v: View, i: nat, r: Region)
    requires Inv(v) && i < |v.regions| && r.base == v.regions[i].base
    ensures v.best != 0 ==> IndexOf(v.regions[i := r], v.best) < |v.regions|
    ensures v.best != 0 ==> v.regions[i := r][IndexOf(v.regions[i := r], v.best)].base == v.best
    ensures v.regions[i].base > 0
  {
    if v.best != 0 {
      var b := IndexOf(v.regions, v.best);
      assert v.regions[i := r][b].base == v.best;
    }
    assert RegionOk(v.regions[i]);
  }

  ghost predicate Copied(before: map<nat, nat>, after: map<nat, nat>, dst: nat, src: nat, count: nat) {
    forall x: nat {:trigger Peek(after, x)} :: Peek(after, x) ==
      if dst <= x < dst + count then Peek(before, src + (x - dst)) else Peek(before, x)
  }

  ghost predicate SameBytes(before: map<nat, nat>, p: nat, after: map<nat, nat>, q: nat, count: nat) {
    forall y: nat :: q <= y < q + count ==> Peek(after, y) == Peek(before, p + (y - q))
  }

  /** One word of four bytes copied. */
  function CopiedWord(bytes: map<nat, nat>, d: nat, s: nat): map<nat, nat> {
    bytes[d := Peek(bytes, s)][d + 1 := Peek(bytes, s + 1)][d + 2 := Peek(bytes, s + 2)][d + 3 := Peek(bytes, s + 3)]
  }

  /** One byte copied. */
  function CopiedByte(bytes: map<nat, nat>, d: nat, s: nat): map<nat, nat> {
    bytes[d := Peek(bytes, s)]
  }

  lemma CopiedNone(bytes: map<nat, nat>, d: nat, s: nat)
    ensures Copied(bytes, bytes, d, s, 0)
  {}

  lemma CopyOne(bytes: map<nat, nat>, d: nat, s: nat)
    ensures Copied(bytes, CopiedWord(bytes, d, s), d, s, 4) && Copied(bytes, CopiedByte(bytes, d, s), d, s, 1)
  {}

  lemma CopyMore(b0: map<nat, nat>, b1: map<nat, nat>, b2: map<nat, nat>, dst: nat, src: nat, m: nat, w: nat)
    requires Copied(b0, b1, dst, src, m) && Copied(b1, b2, dst + m, src + m, w)
    requires dst + m + w <= src || src + m + w <= dst
    ensures Copied(b0, b2, dst, src, m + w)
  {
    forall x: nat
      ensures Peek(b2, x) == if dst <= x < dst + m + w then Peek(b0, src + (x - dst)) else Peek(b0, x)
    {
      if dst + m <= x < dst + m + w {
        var y := src + (x - dst);
        assert Peek(b2, x) == Peek(b1, y);
      }
    }
  }

  lemma ShrunkRep(majors: map<nat, Major>, minors: map<nat, Minor>, bytes: map<nat, nat>,
                  v: View, i: nat, k: nat, size: nat)
    requires Inv(v) && IsBlock(v.regions, i, k)
    requires MajorsLinked(majors, v.regions) && MinorsLinked(minors, v.regions) && Prefixes(bytes, v.regions)
    ensures var at, rs' := BlockAt(v.regions, i, k).addr, Shrink(v, i, k, size).regions;
            && at in minors
            && MajorsLinked(majors, rs') && MinorsLinked(minors[at := minors[at].(req := size)], rs')
            && Prefixes(bytes, rs') && BaseAt(rs', 0) == BaseAt(v.regions, 0)
  {
    ShrunkMinors(minors, bytes, v, i, k, size);
    hide Prefixes, MinorsLinked, UserPtr, Gap;
    var rs, rs' := v.regions, Shrink(v, i, k, size).regions;
    var r, r' := rs[i], rs'[i];
    UsedUpdate(r.blocks, k, r.blocks[k].(req := size));
    assert majors[r.base] == MajorHeader(rs, i);
    assert majors == majors[r.base := majors[r.base].(usage := Usage(r'), first := AddrAt(r'.blocks, 0))];
    UpdateMajor(majors, rs, i, r');
  }

  lemma ShrunkMinors(minors: map<nat, Minor>, bytes: map<nat, nat>, v: View, i: nat, k: nat, size: nat)
    requires Inv(v) && IsBlock(v.regions, i, k) && MinorsLinked(minors, v.regions) && Prefixes(bytes, v.regions)
    ensures var at, rs' := BlockAt(v.regions, i, k).addr, Shrink(v, i, k, size).regions;
            && at in minors && MinorsLinked(minors[at := minors[at].(req := size)], rs') && Prefixes(bytes, rs')
  {
    hide RegionOk, Usage, UserPtr, Gap;
    var rs, rs' := v.regions, Shrink(v, i, k, size).regions;
    var at := BlockAt(rs, i, k).addr;
    MinorAt(minors, rs, i, k);
    forall j: nat, l: nat | IsBlock(rs', j, l)
      ensures var m := minors[at := minors[at].(req := size)];
              BlockAt(rs', j, l).addr in m && m[BlockAt(rs', j, l).addr] == MinorHeader(rs'[j], l)
      ensures Prefixed(bytes, BlockAt(rs', j, l))
    {
      ShrunkMinorAt(minors, bytes, v, i, k, size, j, l);
    }
  }

  lemma ShrunkMinorAt(minors: map<nat, Minor>, bytes: map<nat, nat>, v: View, i: nat, k: nat, size: nat, j: nat, l: nat)
    requires Inv(v) && IsBlock(v.regions, i, k) && MinorsLinked(minors, v.regions) && Prefixes(bytes, v.regions)
    requires BlockAt(v.regions, i, k).addr in minors && IsBlock(Shrink(v, i, k, size).regions, j, l)
    ensures var at, rs' := BlockAt(v.regions, i, k).addr, Shrink(v, i, k, size).regions;
            var m := minors[at := minors[at].(req := size)];
            && BlockAt(rs', j, l).addr in m && m[BlockAt(rs', j, l).addr] == MinorHeader(rs'[j], l)
            && Prefixed(bytes, BlockAt(rs', j, l))
  {
    hide RegionOk, Usage, Gap;
    var rs := v.regions;
    assert IsBlock(rs, j, l);
    MinorAt(minors, rs, i, k);
    AddrsDistinct(rs, i, k, j, l);
  }

  lemma UsedUpdate(bs: seq<Block>, k: nat, b: Block)
    requires k < |bs| && b.size == bs[k].size
    ensures Used(bs[k := b]) == Used(bs)
  {
    UsedInsert(bs[..k], bs[k], bs[k + 1..]);
    UsedInsert(bs[..k], b, bs[k + 1..]);
    assert bs == bs[..k] + [bs[k]] + bs[k + 1..];
    assert bs[k := b] == bs[..k] + [b] + bs[k + 1..];
  }

  /** The payloads of two live blocks do not overlap. */
  lemma CopiedWithin(before: map<nat, nat>, after: map<nat, nat>, dst: nat, src: nat, count: nat)
    requires Copied(before, after, dst, src, count)
    ensures forall x: nat :: Peek(after, x) != Peek(before, x) ==> dst <= x < dst + count
    ensures forall y: nat :: dst <= y < dst + count ==> Peek(after, y) == Peek(before, src + (y - dst))
  {}

  /** A block's payload does not hold another block's prefix byte. */
  lemma PrefixElsewhere(rs: seq<Region>, i: nat, k: nat, j: nat, l: nat)
    requires RegionsOk(rs) && IsBlock(rs, i, k) && IsBlock(rs, j, l) && (i, k) != (j, l)
    ensures var b, x := BlockAt(rs, i, k), UserPtr(BlockAt(rs, j, l)) - ALIGN_INFO;
            x < UserPtr(b) || UserPtr(b) + b.req <= x
  {
    BlocksApart(rs, i, k, j, l);
  }

  lemma CopyDisjoint(rs: seq<Region>, i: nat, k: nat, j: nat, l: nat)
    requires RegionsOk(rs) && IsBlock(rs, i, k) && IsBlock(rs, j, l) && (i, k) != (j, l)
    ensures var b, c := BlockAt(rs, i, k), BlockAt(rs, j, l);
            UserPtr(b) + b.req <= UserPtr(c) || UserPtr(c) + c.req <= UserPtr(b)
  {
    BlocksApart(rs, i, k, j, l);
  }

  lemma PtrsUnique(v: View, p: nat, i: nat, k: nat)
    requires Inv(v) && PtrOf(v.regions, p, i, k)
    ensures forall j: nat, l: nat :: PtrOf(v.regions, p, j, l) ==> (j, l) == (i, k)
  {
    forall j: nat, l: nat | PtrOf(v.regions, p, j, l)
      ensures (j, l) == (i, k)
    {
      PtrUnique(v.regions, p, i, k, j, l);
    }
  }

  lemma ReallocCases(v: View, p: nat, size: nat, sourceOk: bool)
    requires Inv(v)
    ensures var r := HeapView.Realloc(v, p, size, sourceOk);
            && (size == 0 ==> r == Alloc(HeapView.Free(v, p), 0))
            && (size != 0 && p == 0 ==> r == HeapView.Malloc(v, size, sourceOk))
            && (size != 0 && p != 0 && !LivePtr(v.regions, p) ==> r == Alloc(v, 0))
    ensures forall i: nat, k: nat :: PtrOf(v.regions, p, i, k) && size != 0 ==>
              HeapView.Realloc(v, p, size, sourceOk) ==
              if BlockAt(v.regions, i, k).req >= size then Alloc(Shrink(v, i, k, size), p)
              else Alloc(HeapView.Free(HeapView.Malloc(v, size, sourceOk).view, p), HeapView.Malloc(v, size, sourceOk).ptr)
    ensures !LivePtr(v.regions, 0)
  {
    forall i: nat, k: nat | PtrOf(v.regions, p, i, k) && size != 0
      ensures HeapView.Realloc(v, p, size, sourceOk) ==
              if BlockAt(v.regions, i, k).req >= size then Alloc(Shrink(v, i, k, size), p)
              else Alloc(HeapView.Free(HeapView.Malloc(v, size, sourceOk).view, p), HeapView.Malloc(v, size, sourceOk).ptr)
    {
      ReallocAt(v, p, size, sourceOk, i, k);
    }
  }
}
