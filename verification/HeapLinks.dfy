/** How the headers of mm/heap.c encode a heap view: the two header records, the
    doubly linked lists they form and the prefix byte that ALIGN hides.  Each
    lemma says that one relinking of the maps is one step on the view. */
module HeapLinks {
  import opened HeapView
  import opened Words

  const LIBALLOC_MAGIC: nat := 0xc001c0de
  const LIBALLOC_DEAD: nat := 0xdeaddead

  /** struct liballoc_major; address 0 is NULL. */
  datatype Major = Major(prev: nat, next: nat, pages: nat, size: nat, usage: nat, first: nat)

  /** struct liballoc_minor */
  datatype Minor = Minor(prev: nat, next: nat, block: nat, magic: nat, size: nat, req: nat)

  function Peek(bytes: map<nat, nat>, a: nat): nat {
    if a in bytes then bytes[a] else 0
  }

  function BaseAt(rs: seq<Region>, i: int): nat {
    if 0 <= i < |rs| then rs[i].base else 0
  }

  function AddrAt(bs: seq<Block>, k: int): nat {
    if 0 <= k < |bs| then bs[k].addr else 0
  }

  function MajorHeader(rs: seq<Region>, i: nat): Major
    requires i < |rs|
  {
    var r := rs[i];
    Major(BaseAt(rs, i - 1), BaseAt(rs, i + 1), r.size / PAGE_SIZE, r.size, Usage(r), AddrAt(r.blocks, 0))
  }

  function MinorHeader(r: Region, k: nat): Minor
    requires k < |r.blocks|
  {
    var b := r.blocks[k];
    Minor(AddrAt(r.blocks, k - 1), AddrAt(r.blocks, k + 1), r.base, LIBALLOC_MAGIC, b.size, b.req)
  }

  ghost predicate MajorsLinked(majors: map<nat, Major>, rs: seq<Region>) {
    && (forall i :: 0 <= i < |rs| ==> rs[i].base in majors)
    && (forall i {:trigger MajorHeader(rs, i)} :: 0 <= i < |rs| ==> majors[rs[i].base] == MajorHeader(rs, i))
  }

  ghost predicate MinorsLinked(minors: map<nat, Minor>, rs: seq<Region>) {
    forall i: nat, k: nat :: IsBlock(rs, i, k) ==>
      BlockAt(rs, i, k).addr in minors && minors[BlockAt(rs, i, k).addr] == MinorHeader(rs[i], k)
  }

  /** The byte ALIGN stores before the pointer of a block. */
  predicate Prefixed(bytes: map<nat, nat>, b: Block) {
    Peek(bytes, UserPtr(b) - ALIGN_INFO) == UserPtr(b) - (b.addr + MINOR)
  }

  ghost predicate Prefixes(bytes: map<nat, nat>, rs: seq<Region>) {
    forall i: nat, k: nat :: IsBlock(rs, i, k) ==>
      Prefixed(bytes, BlockAt(rs, i, k))
  }

  lemma RegionsReplace(rs: seq<Region>, i: nat, r: Region)
    requires RegionsOk(rs) && i < |rs|
    requires RegionOk(r) && r.base == rs[i].base && r.size == rs[i].size
    ensures RegionsOk(rs[i := r])
  {
    hide RegionOk;
  }

  // ----- minors

  /** Headers lying under [lo, hi) are overwritten there. */
  function Scrub(minors: map<nat, Minor>, lo: nat, hi: nat): map<nat, Minor> {
    map a | a in minors && (a + MINOR <= lo || hi <= a) :: minors[a]
  }

  function SetPrev(minors: map<nat, Minor>, at: nat, prev: nat): map<nat, Minor> {
    if at in minors then minors[at := minors[at].(prev := prev)] else minors
  }

  function SetNext(minors: map<nat, Minor>, at: nat, next: nat): map<nat, Minor> {
    if at in minors then minors[at := minors[at].(next := next)] else minors
  }

  /** CASES 2 to 4: a new header between prev and next. */
  function Spliced(minors: map<nat, Minor>, at: nat, m: Minor): map<nat, Minor> {
    var m0 := Scrub(minors, at, at + MINOR + m.size)[at := m];
    var m1 := if m.next != 0 then SetPrev(m0, m.next, at) else m0;
    if m.prev != 0 then SetNext(m1, m.prev, at) else m1
  }

  /** free: the header is marked dead and its neighbours are joined. */
  function Unspliced(minors: map<nat, Minor>, at: nat): map<nat, Minor>
    requires at in minors
  {
    var m := minors[at];
    var m0 := minors[at := m.(magic := LIBALLOC_DEAD)];
    var m1 := if m.next != 0 then SetPrev(m0, m.next, m.prev) else m0;
    if m.prev != 0 then SetNext(m1, m.prev, m.next) else m1
  }

  lemma AddrNonZero(rs: seq<Region>, i: nat, k: nat)
    requires RegionsOk(rs) && IsBlock(rs, i, k)
    ensures BlockAt(rs, i, k).addr > 0
  {
    BlockInside(rs[i], k);
  }

  lemma AddrsDistinct(rs: seq<Region>, i: nat, k: nat, j: nat, l: nat)
    requires RegionsOk(rs) && IsBlock(rs, i, k) && IsBlock(rs, j, l)
    ensures BlockAt(rs, i, k).addr == BlockAt(rs, j, l).addr <==> (i, k) == (j, l)
  {
    BlocksApart(rs, i, k, j, l);
  }

  lemma SpliceLinks(minors: map<nat, Minor>, rs: seq<Region>, i: nat, k: nat, req: nat)
    requires RegionsOk(rs) && MinorsLinked(minors, rs)
    requires i < |rs| && k <= |rs[i].blocks| && Gap(rs[i], k) >= req + SLACK + MINOR
    ensures var r := Insert(rs[i], k, req);
            MinorsLinked(Spliced(minors, GapStart(rs[i], k), MinorHeader(r, k)), rs[i := r])
  {
    var r := Insert(rs[i], k, req);
    var rs' := rs[i := r];
    var at, m := GapStart(rs[i], k), MinorHeader(r, k);
    InsertOk(rs[i], k, req);
    RegionsReplace(rs, i, r);
    var minors' := Spliced(minors, at, m);
    forall j: nat, l: nat | IsBlock(rs', j, l)
      ensures BlockAt(rs', j, l).addr in minors' && minors'[BlockAt(rs', j, l).addr] == MinorHeader(rs'[j], l)
    {
      SpliceLinksAt(minors, rs, i, k, req, j, l);
    }
  }

  /** What a header reads after a splice. */
  lemma SplicedRecord(minors: map<nat, Minor>, at: nat, m: Minor, a: nat)
    requires at > 0 && m.prev != at && m.next != at && (m.prev == m.next ==> m.prev == 0)
    requires a != at ==> a > 0 && a in minors && (a + MINOR <= at || at + MINOR + m.size <= a)
    ensures a in Spliced(minors, at, m)
    ensures Spliced(minors, at, m)[a] ==
            if a == at then m
            else if a == m.next then minors[a].(prev := at)
            else if a == m.prev then minors[a].(next := at)
            else minors[a]
  {}

  lemma SpliceLinksAt(minors: map<nat, Minor>, rs: seq<Region>, i: nat, k: nat, req: nat, j: nat, l: nat)
    requires RegionsOk(rs) && MinorsLinked(minors, rs)
    requires i < |rs| && k <= |rs[i].blocks|
    requires RegionsOk(rs[i := Insert(rs[i], k, req)]) && IsBlock(rs[i := Insert(rs[i], k, req)], j, l)
    ensures var r := Insert(rs[i], k, req);
            var a := BlockAt(rs[i := r], j, l).addr;
            var minors' := Spliced(minors, GapStart(rs[i], k), MinorHeader(r, k));
            a in minors' && minors'[a] == MinorHeader(rs[i := r][j], l)
  {
    hide RegionsOk, RegionOk, Gap, Spliced;
    var r := Insert(rs[i], k, req);
    var rs' := rs[i := r];
    var at, m, a := GapStart(rs[i], k), MinorHeader(r, k), BlockAt(rs', j, l).addr;
    BlocksApart(rs', i, k, j, l);
    AddrNonZero(rs', j, l);
    AddrNonZero(rs', i, k);
    if k > 0 {
      AddrNonZero(rs', i, k - 1);
      AddrsDistinct(rs', i, k - 1, j, l);
      AddrsDistinct(rs', i, k - 1, i, k);
    }
    if k + 1 < |r.blocks| {
      AddrNonZero(rs', i, k + 1);
      AddrsDistinct(rs', i, k + 1, j, l);
      AddrsDistinct(rs', i, k + 1, i, k);
    }
    if 0 < k && k + 1 < |r.blocks| {
      AddrsDistinct(rs', i, k - 1, i, k + 1);
    }
    var l0 := if j != i || l < k then l else l - 1;
    if (j, l) != (i, k) {
      assert IsBlock(rs, j, l0) && BlockAt(rs, j, l0) == BlockAt(rs', j, l);
      assert a in minors && minors[a] == MinorHeader(rs[j], l0);
    }
    SplicedRecord(minors, at, m, a);
  }

  lemma UnspliceLinks(minors: map<nat, Minor>, rs: seq<Region>, i: nat, k: nat)
    requires RegionsOk(rs) && MinorsLinked(minors, rs) && IsBlock(rs, i, k)
    ensures MinorsLinked(Unspliced(minors, BlockAt(rs, i, k).addr), rs[i := Delete(rs[i], k)])
  {
    hide RegionsOk;
    var r := Delete(rs[i], k);
    var rs' := rs[i := r];
    var minors' := Unspliced(minors, BlockAt(rs, i, k).addr);
    forall j: nat, l: nat | IsBlock(rs', j, l)
      ensures BlockAt(rs', j, l).addr in minors' && minors'[BlockAt(rs', j, l).addr] == MinorHeader(rs'[j], l)
    {
      var l0 := if j != i || l < k then l else l + 1;
      assert IsBlock(rs, j, l0) && BlockAt(rs, j, l0) == BlockAt(rs', j, l);
      AddrsDistinct(rs, i, k, j, l0);
      if k > 0 {
        AddrNonZero(rs, i, k - 1);
        AddrsDistinct(rs, i, k - 1, j, l0);
        AddrsDistinct(rs, i, k - 1, i, k);
      }
      if k + 1 < |rs[i].blocks| {
        AddrNonZero(rs, i, k + 1);
        AddrsDistinct(rs, i, k + 1, j, l0);
        AddrsDistinct(rs, i, k + 1, i, k);
      }
    }
  }

  /** Unmapping an empty major takes no live header with it. */
  lemma ScrubLinks(minors: map<nat, Minor>, rs: seq<Region>, i: nat)
    requires RegionsOk(rs) && MinorsLinked(minors, rs) && i < |rs|
    ensures MinorsLinked(Scrub(minors, rs[i].base, rs[i].base + rs[i].size), rs[..i] + rs[i + 1..])
  {
    var rs' := rs[..i] + rs[i + 1..];
    forall j: nat, l: nat | IsBlock(rs', j, l)
      ensures var a := BlockAt(rs', j, l).addr;
              a in minors && minors[a] == MinorHeader(rs'[j], l)
              && (a + MINOR <= rs[i].base || rs[i].base + rs[i].size <= a)
    {
      assert rs'[j] == rs[Skip(i, j)];
      assert IsBlock(rs, Skip(i, j), l);
      BlockInside(rs[Skip(i, j)], l);
    }
  }

  // ----- majors

  lemma UpdateMajor(majors: map<nat, Major>, rs: seq<Region>, i: nat, r: Region)
    requires RegionsOk(rs) && MajorsLinked(majors, rs) && i < |rs|
    requires r.base == rs[i].base && r.size == rs[i].size
    ensures MajorsLinked(
              majors[r.base := majors[r.base].(usage := Usage(r), first := AddrAt(r.blocks, 0))], rs[i := r])
  {
    var rs' := rs[i := r];
    var majors' := majors[r.base := majors[r.base].(usage := Usage(r), first := AddrAt(r.blocks, 0))];
    hide RegionsOk, Usage;
    BasesDistinct(rs);
    forall j | 0 <= j < |rs'|
      ensures rs'[j].base in majors' && majors'[rs'[j].base] == MajorHeader(rs', j)
    {
      assert rs'[j].base == rs[j].base;
      var h := MajorHeader(rs, j);
      assert BaseAt(rs', j - 1) == BaseAt(rs, j - 1) && BaseAt(rs', j + 1) == BaseAt(rs, j + 1);
    }
  }

  lemma BasesDistinct(rs: seq<Region>)
    requires RegionsOk(rs)
    ensures forall i, j :: 0 <= i < |rs| && 0 <= j < |rs| && rs[i].base == rs[j].base ==> i == j
    ensures forall i :: 0 <= i < |rs| ==> rs[i].base > 0
  {
    forall i, j | 0 <= i < j < |rs|
      ensures rs[i].base < rs[j].base
    {
      assert Ordered(rs[i]) && GapStart(rs[i], 0) <= GapEnd(rs[i], 0);
      UsedAfter(rs[i], 0);
    }
  }

  lemma EmptyUsage(r: Region)
    requires r.blocks == []
    ensures Usage(r) == MAJOR
  {}

  lemma AppendRegion(rs: seq<Region>, r: Region)
    requires RegionsOk(rs) && RegionOk(r)
    requires forall i :: 0 <= i < |rs| ==> rs[i].base + rs[i].size <= r.base
    ensures RegionsOk(rs + [r])
  {
    hide RegionOk;
    assert forall i :: 0 <= i < |rs| ==> (rs + [r])[i] == rs[i];
  }

  /** Linking a new major after the last one. */
  lemma AppendMajor(majors: map<nat, Major>, rs: seq<Region>, r: Region)
    requires RegionsOk(rs) && MajorsLinked(majors, rs) && RegionOk(r) && r.blocks == []
    requires forall i :: 0 <= i < |rs| ==> rs[i].base + rs[i].size <= r.base
    ensures RegionsOk(rs + [r])
    ensures BaseAt(rs, |rs| - 1) == 0 <==> rs == []
    ensures rs != [] ==> BaseAt(rs, |rs| - 1) in majors && BaseAt(rs, |rs| - 1) != r.base
    ensures var last := BaseAt(rs, |rs| - 1);
            var m0 := majors[r.base := Major(last, 0, r.size / PAGE_SIZE, r.size, MAJOR, 0)];
            MajorsLinked(if last == 0 then m0 else m0[last := m0[last].(next := r.base)], rs + [r])
  {
    hide RegionsOk, RegionOk, Usage;
    var rs' := rs + [r];
    AppendRegion(rs, r);
    BasesDistinct(rs');
    assert forall i :: 0 <= i < |rs| ==> rs'[i] == rs[i];
    assert Usage(r) == MAJOR by {
      EmptyUsage(r);
    }
    var last := BaseAt(rs, |rs| - 1);
    assert last == 0 <==> rs == [] by {
      assert rs != [] ==> rs'[|rs| - 1].base > 0;
    }
    var m0 := majors[r.base := Major(last, 0, r.size / PAGE_SIZE, r.size, MAJOR, 0)];
    var m1 := if last == 0 then m0 else m0[last := m0[last].(next := r.base)];
    forall i | 0 <= i < |rs'|
      ensures rs'[i].base in m1 && m1[rs'[i].base] == MajorHeader(rs', i)
    {
      assert BaseAt(rs', i - 1) == BaseAt(rs, i - 1);
      assert i < |rs| ==> rs[i].base in majors && majors[rs[i].base] == MajorHeader(rs, i);
      assert rs'[|rs|] == r;
      assert BaseAt(rs', i + 1) == if i + 1 == |rs| then r.base else BaseAt(rs, i + 1);
    }
  }

  /** Unlinking an empty major from its neighbours. */
  function Unlinked(majors: map<nat, Major>, at: nat): map<nat, Major>
    requires at in majors
  {
    var m := majors[at];
    var m0 := if m.prev != 0 && m.prev in majors then majors[m.prev := majors[m.prev].(next := m.next)] else majors;
    var m1 := if m.next != 0 && m.next in m0 then m0[m.next := m0[m.next].(prev := m.prev)] else m0;
    m1 - {at}
  }

  lemma UnlinkedRecord(majors: map<nat, Major>, at: nat, a: nat)
    requires at in majors && a in majors && a != at && a > 0
    requires var m := majors[at]; m.prev == m.next ==> m.prev == 0
    ensures a in Unlinked(majors, at)
    ensures var m := majors[at];
            Unlinked(majors, at)[a] ==
            if a == m.prev then majors[a].(next := m.next)
            else if a == m.next then majors[a].(prev := m.prev)
            else majors[a]
  {}

  lemma RemoveMajor(majors: map<nat, Major>, rs: seq<Region>, i: nat)
    requires RegionsOk(rs) && MajorsLinked(majors, rs) && i < |rs|
    ensures MajorsLinked(Unlinked(majors, rs[i].base), rs[..i] + rs[i + 1..])
  {
    hide RegionsOk, Usage, Unlinked;
    var rs', m := rs[..i] + rs[i + 1..], Unlinked(majors, rs[i].base);
    forall j | 0 <= j < |rs'|
      ensures rs'[j].base in m && m[rs'[j].base] == MajorHeader(rs', j)
    {
      RemoveMajorAt(majors, rs, i, j);
    }
  }

  lemma RemoveMajorAt(majors: map<nat, Major>, rs: seq<Region>, i: nat, j: nat)
    requires RegionsOk(rs) && MajorsLinked(majors, rs) && i < |rs| && j < |rs| - 1
    ensures var rs', m := rs[..i] + rs[i + 1..], Unlinked(majors, rs[i].base);
            rs'[j].base in m && m[rs'[j].base] == MajorHeader(rs', j)
  {
    hide RegionsOk, Usage, Unlinked;
    BasesDistinct(rs);
    var rs', j0 := rs[..i] + rs[i + 1..], Skip(i, j);
    assert rs'[j] == rs[j0];
    assert majors[rs[j0].base] == MajorHeader(rs, j0) && majors[rs[i].base] == MajorHeader(rs, i);
    hide MajorsLinked;
    UnlinkedRecord(majors, rs[i].base, rs[j0].base);
    assert BaseAt(rs', j - 1) == if j - 1 < i then BaseAt(rs, j - 1) else BaseAt(rs, j);
    assert BaseAt(rs', j + 1) == if j + 1 < i then BaseAt(rs, j + 1) else BaseAt(rs, j + 2);
  }

  // ----- the byte before each pointer

  lemma InsertRegion(rs: seq<Region>, i: nat, k: nat, req: nat)
    requires RegionsOk(rs) && i < |rs| && k <= |rs[i].blocks| && Gap(rs[i], k) >= req + SLACK + MINOR
    ensures RegionsOk(rs[i := Insert(rs[i], k, req)])
    ensures Usage(Insert(rs[i], k, req)) == Usage(rs[i]) + req + SLACK + MINOR
  {
    InsertOk(rs[i], k, req);
    RegionsReplace(rs, i, Insert(rs[i], k, req));
  }

  /** Storing ALIGN's byte for a new block leaves the other prefixes alone. */
  lemma PrefixesInsert(bytes: map<nat, nat>, rs: seq<Region>, i: nat, k: nat, req: nat)
    requires Prefixes(bytes, rs) && RegionsOk(rs)
    requires i < |rs| && k <= |rs[i].blocks| && Gap(rs[i], k) >= req + SLACK + MINOR
    ensures var r := Insert(rs[i], k, req);
            var b := r.blocks[k];
            Prefixes(bytes[UserPtr(b) - ALIGN_INFO := UserPtr(b) - (b.addr + MINOR)], rs[i := r])
  {
    hide RegionsOk, UserPtr, Gap, GapStart;
    var r := Insert(rs[i], k, req);
    InsertRegion(rs, i, k, req);
    var b, rs' := r.blocks[k], rs[i := r];
    forall j: nat, l: nat | IsBlock(rs', j, l)
      ensures Prefixed(bytes[UserPtr(b) - ALIGN_INFO := UserPtr(b) - (b.addr + MINOR)], BlockAt(rs', j, l))
    {
      if (j, l) != (i, k) {
        PtrsDiffer(rs', i, k, j, l);
        OldBlock(rs, i, k, req, j, l);
      }
    }
  }

  /** Every other block of the new list is one of the old list. */
  lemma OldBlock(rs: seq<Region>, i: nat, k: nat, req: nat, j: nat, l: nat)
    requires i < |rs| && k <= |rs[i].blocks|
    requires IsBlock(rs[i := Insert(rs[i], k, req)], j, l) && (j, l) != (i, k)
    ensures var l0 := if j != i || l < k then l else l - 1;
            IsBlock(rs, j, l0) && BlockAt(rs, j, l0) == BlockAt(rs[i := Insert(rs[i], k, req)], j, l)
  {}

  lemma PtrsDiffer(rs: seq<Region>, i: nat, k: nat, j: nat, l: nat)
    requires RegionsOk(rs) && IsBlock(rs, i, k) && IsBlock(rs, j, l) && (i, k) != (j, l)
    ensures UserPtr(BlockAt(rs, i, k)) != UserPtr(BlockAt(rs, j, l))
  {
    if UserPtr(BlockAt(rs, i, k)) == UserPtr(BlockAt(rs, j, l)) {
      PtrUnique(rs, UserPtr(BlockAt(rs, i, k)), i, k, j, l);
    }
  }

  /** In-bounds user writes never reach a prefix. */
  lemma PrefixesWrite(bytes: map<nat, nat>, bytes': map<nat, nat>, rs: seq<Region>, i: nat, k: nat)
    requires Prefixes(bytes, rs) && RegionsOk(rs) && IsBlock(rs, i, k)
    requires var b := BlockAt(rs, i, k);
             forall x: nat :: Peek(bytes', x) != Peek(bytes, x) ==> UserPtr(b) <= x < UserPtr(b) + b.req
    ensures Prefixes(bytes', rs)
  {
    forall j: nat, l: nat | IsBlock(rs, j, l)
      ensures Prefixed(bytes', BlockAt(rs, j, l))
    {
      var x := UserPtr(BlockAt(rs, j, l)) - ALIGN_INFO;
      OwnedByteExclusive(rs, j, l, x);
    }
  }

  lemma PrefixesKeep(bytes: map<nat, nat>, rs: seq<Region>, i: nat, k: nat)
    requires Prefixes(bytes, rs) && IsBlock(rs, i, k)
    ensures Prefixes(bytes, rs[i := Delete(rs[i], k)])
    ensures Prefixes(bytes, rs[..i] + rs[i + 1..])
  {
    var rs1, rs2 := rs[i := Delete(rs[i], k)], rs[..i] + rs[i + 1..];
    forall j: nat, l: nat | IsBlock(rs1, j, l)
      ensures Prefixed(bytes, BlockAt(rs1, j, l))
    {
      var l0 := if j != i || l < k then l else l + 1;
      assert IsBlock(rs, j, l0) && BlockAt(rs, j, l0) == BlockAt(rs1, j, l);
    }
    forall j: nat, l: nat | IsBlock(rs2, j, l)
      ensures Prefixed(bytes, BlockAt(rs2, j, l))
    {
      assert IsBlock(rs, Skip(i, j), l) && rs2[j] == rs[Skip(i, j)];
    }
  }
}
