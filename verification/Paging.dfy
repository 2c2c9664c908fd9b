/** arch_virtual_map, arch_virtual_unmap and virtual_map: page-table entries and
    the recursive slot overwritten in place, with table frames taken from and
    given back to the physical allocator, which itself maps a scratch page. */
module Paging {
  import opened Bits
  import opened Options
  import opened PageTables
  import opened Words

  /** Memory, tree shape and free frames at one moment. */
  datatype Moment = Moment(mem: Memory, sh: Shape, free: set<nat>)

  /** From a to b tables are only added, taken from the free frames. */
  ghost predicate Grows(a: Moment, b: Moment) {
    && b.free <= a.free && b.free + b.sh.level.Keys == a.free + a.sh.level.Keys
    && (forall f: nat :: f in a.sh.level ==> f in b.sh.level && b.sh.level[f] == a.sh.level[f])
    && (forall r: nat :: Root(b.sh, r) ==> Root(a.sh, r))
    && (forall f: nat, i: nat :: Inner(a.sh, f, i) && Child(a.mem, f, i).Some? ==>
          Child(b.mem, f, i) == Child(a.mem, f, i))
  }

  /** Every ordinary page outside ex translates in b as in a. */
  ghost predicate SameExcept(a: Moment, b: Moment, ex: set<(nat, seq<nat>)>) {
    forall r: nat, path: seq<nat> :: Root(a.sh, r) && OrdinaryPath(path) && |path| == 4 && (r, path) !in ex ==>
      Translate(b.mem, r, path) == Translate(a.mem, r, path)
  }

  /** The only walks that come to life in b are prefixes of one page's path. */
  ghost predicate NewOnly(a: Moment, b: Moment, ctx: nat, path: seq<nat>) {
    forall r: nat, q: seq<nat> :: Root(a.sh, r) && OrdinaryPath(q) && |q| <= 3 ==>
      Reach(b.mem, r, q) == Reach(a.mem, r, q) || (r == ctx && q <= path && Reach(a.mem, r, q) == None)
  }

  /** A table below level 4 without a present entry. */
  predicate Idle(m: Moment, f: nat) {
    f in m.sh.level && m.sh.level[f] < 4 && f in m.mem && EmptyTable(m.mem[f])
  }

  /** No table was added and no table was moved. */
  ghost predicate SameLinks(a: Moment, b: Moment) {
    && b.sh == a.sh && b.free == a.free
    && forall g: nat, i: nat :: Inner(a.sh, g, i) ==> Child(b.mem, g, i) == Child(a.mem, g, i)
  }

  lemma GrowsTransitive(a: Moment, b: Moment, c: Moment)
    requires Grows(a, b) && Grows(b, c)
    ensures Grows(a, c)
  {
    forall f: nat, i: nat | Inner(a.sh, f, i) && Child(a.mem, f, i).Some?
      ensures Child(c.mem, f, i) == Child(a.mem, f, i)
    {
      assert Inner(b.sh, f, i);
    }
  }

  lemma NewOnlyTransitive(a: Moment, b: Moment, c: Moment, ctx: nat, path: seq<nat>, path': seq<nat>)
    requires Grows(a, b) && NewOnly(a, b, ctx, path) && NewOnly(b, c, ctx, path') && path <= path'
    ensures NewOnly(a, c, ctx, path')
  {
    forall r: nat, q: seq<nat> | Root(a.sh, r) && OrdinaryPath(q) && |q| <= 3
      ensures Reach(c.mem, r, q) == Reach(a.mem, r, q) || (r == ctx && q <= path' && Reach(a.mem, r, q) == None)
    {
      assert Root(b.sh, r);
    }
  }

  lemma SameIsNew(a: Moment, b: Moment, ctx: nat, path: seq<nat>)
    requires SameTables(a.mem, b.mem, a.sh)
    ensures NewOnly(a, b, ctx, path)
  {}

  lemma SameTransitive(a: Moment, b: Moment, c: Moment, ex: set<(nat, seq<nat>)>, ex': set<(nat, seq<nat>)>)
    requires Grows(a, b) && SameExcept(a, b, ex) && SameExcept(b, c, ex')
    ensures SameExcept(a, c, ex + ex')
    ensures ex' == {} ==> SameExcept(a, c, ex)
    ensures ex == {} ==> SameExcept(a, c, ex')
  {}

  lemma {:induction false} GrowsReach(a: Moment, b: Moment, r: nat, path: seq<nat>)
    requires Tree(a.mem, a.sh) && Grows(a, b)
    requires Root(a.sh, r) && OrdinaryPath(path) && |path| <= 3 && Reach(a.mem, r, path).Some?
    ensures Reach(b.mem, r, path) == Reach(a.mem, r, path)
  {
    if path != [] {
      var n := |path| - 1;
      assert n > 0 ==> path[..n][0] == path[0];
      GrowsReach(a, b, r, path[..n]);
      ReachLevel(a.mem, a.sh, r, path[..n]);
      assert Inner(a.sh, Reach(a.mem, r, path[..n]).value, path[n]);
    }
  }

  /** The tree is well formed, every PML4 maps itself, free frames are no tables,
      and the tables of the scratch page exist. */
  ghost predicate Sound(m: Moment, live: nat, scratch: seq<nat>) {
    && Tree(m.mem, m.sh) && SelfMaps(m.mem, m.sh, live)
    && m.free !! m.sh.level.Keys
    && (forall f :: f in m.free ==> 0 < f < FRAMES && f in m.mem && |m.mem[f]| == 512)
    && (forall f :: f in m.sh.level ==> 0 < f < FRAMES)
    && |scratch| == 4 && OrdinaryPath(scratch) && Reach(m.mem, live, scratch[..3]).Some?
  }

  /** The live PML4's recursive slot points to ctx, and the hardware can follow it. */
  ghost predicate Aimed(m: Moment, live: nat, ctx: nat) {
    && Root(m.sh, ctx) && live in m.mem && |m.mem[live]| == 512 && m.mem[live][RECURSIVE_ENTRY].address == ctx
    && Child(m.mem, live, RECURSIVE_ENTRY) == Some(ctx) && Child(m.mem, ctx, RECURSIVE_ENTRY) == Some(ctx)
  }

  lemma ScratchKept(a: Moment, b: Moment, live: nat, scratch: seq<nat>)
    requires Sound(a, live, scratch) && Grows(a, b)
    ensures Reach(b.mem, live, scratch[..3]).Some?
  {
    PathPrefix(scratch);
    GrowsReach(a, b, live, scratch[..3]);
  }

  /** Hooking in one zeroed table. */
  lemma LinkMoment(a: Moment, live: nat, ctx: nat, scratch: seq<nat>, f: nat, i: nat, e: Entry)
    requires Sound(a, live, scratch) && Aimed(a, live, ctx)
    requires Inner(a.sh, f, i) && Child(a.mem, f, i) == None && e.present && e.address in a.free
    ensures f in a.mem && i < |a.mem[f]|
    ensures var b := Moment(Linked(a.mem, f, i, e), LinkShape(a.sh, f, i, e.address), a.free - {e.address});
            && Sound(b, live, scratch) && Aimed(b, live, ctx) && Grows(a, b) && SameExcept(a, b, {})
            && b.mem[live][RECURSIVE_ENTRY] == a.mem[live][RECURSIVE_ENTRY]
            && (forall g: nat :: Idle(b, g) ==> (Idle(a, g) && g != f) || g == e.address)
            && Idle(b, e.address)
  {
    hide Tree;
    TreeTables(a.mem, a.sh);
    var b := Moment(Linked(a.mem, f, i, e), LinkShape(a.sh, f, i, e.address), a.free - {e.address});
    LinkTree(a.mem, a.sh, f, i, e);
    LinkTranslation(a.mem, a.sh, f, i, e);
    LinkGrows(a, f, i, e);
    LinkSelfMaps(a, live, f, i, e);
    ScratchKept(a, b, live, scratch);
    forall g: nat | Idle(b, g)
      ensures (Idle(a, g) && g != f) || g == e.address
    {
      assert b.mem[f][i] == e;
    }
  }

  lemma TreeTables(mem: Memory, sh: Shape)
    requires Tree(mem, sh)
    ensures TablesOk(mem, sh)
  {}

  lemma LinkGrows(a: Moment, f: nat, i: nat, e: Entry)
    requires CanLink(a.mem, a.sh, f, i, e) && e.address in a.free && a.free !! a.sh.level.Keys
    ensures f in a.mem && i < |a.mem[f]|
    ensures Grows(a, Moment(Linked(a.mem, f, i, e), LinkShape(a.sh, f, i, e.address), a.free - {e.address}))
  {
    var b := Moment(Linked(a.mem, f, i, e), LinkShape(a.sh, f, i, e.address), a.free - {e.address});
    forall g: nat, j: nat | Inner(a.sh, g, j) && Child(a.mem, g, j).Some?
      ensures Child(b.mem, g, j) == Child(a.mem, g, j)
    {
      assert Inner(b.sh, g, j);
      LinkChild(a.mem, a.sh, f, i, e, g, j);
    }
    assert b.sh.level.Keys == a.sh.level.Keys + {e.address};
  }

  lemma LinkSelfMaps(a: Moment, live: nat, f: nat, i: nat, e: Entry)
    requires TablesOk(a.mem, a.sh) && SelfMaps(a.mem, a.sh, live) && Inner(a.sh, f, i) && e.address !in a.sh.level
    ensures SelfMaps(Linked(a.mem, f, i, e), LinkShape(a.sh, f, i, e.address), live)
    ensures forall r: nat :: Root(a.sh, r) ==>
              r in a.mem && |a.mem[r]| == 512 && Linked(a.mem, f, i, e)[r][RECURSIVE_ENTRY] == a.mem[r][RECURSIVE_ENTRY]
  {}

  /** Rewriting the flags of an entry that owns a table. */
  lemma FlagMoment(a: Moment, live: nat, ctx: nat, scratch: seq<nat>, f: nat, i: nat, e: Entry)
    requires Sound(a, live, scratch) && Aimed(a, live, ctx) && Inner(a.sh, f, i)
    requires Child(a.mem, f, i).Some? && e.present && Child(a.mem, f, i) == Some(e.address)
    ensures f in a.mem && i < |a.mem[f]|
    ensures var b := a.(mem := Put(a.mem, f, i, e));
            && Sound(b, live, scratch) && Aimed(b, live, ctx) && Grows(a, b) && SameExcept(a, b, {})
            && b.mem[live][RECURSIVE_ENTRY] == a.mem[live][RECURSIVE_ENTRY]
            && SameLinks(a, b)
            && (forall g: nat :: Idle(b, g) ==> Idle(a, g) && g != f)
  {
    hide Idle, Tree, OrdinaryPath, Reach, SameTables, SameTranslation, SameExcept;
    var b := a.(mem := Put(a.mem, f, i, e));
    TreeTables(a.mem, a.sh);
    FlagEdit(a.mem, a.sh, f, i, e);
    NotIdleAfter(a, f, i, e);
    AllTranslateAlike(a, b);
    ScratchKept(a, b, live, scratch);
  }

  lemma AllTranslateAlike(a: Moment, b: Moment)
    requires SameTranslation(a.mem, b.mem, a.sh)
    ensures SameExcept(a, b, {})
  {}

  /** Writing a present entry leaves no table idle that was not, and not this one. */
  lemma NotIdleAfter(a: Moment, f: nat, i: nat, e: Entry)
    requires f in a.mem && i < |a.mem[f]| && e.present
    ensures forall g: nat :: Idle(a.(mem := Put(a.mem, f, i, e)), g) ==> Idle(a, g) && g != f
  {
    var b := a.(mem := Put(a.mem, f, i, e));
    forall g: nat | Idle(b, g)
      ensures Idle(a, g) && g != f
    {
      assert b.mem[f][i] == e;
    }
  }

  /** The tables below level 4 have the same entries. */
  ghost predicate SameBelow(a: Moment, b: Moment) {
    forall g: nat, j: nat :: g in a.sh.level && a.sh.level[g] < 4 ==> Child(b.mem, g, j) == Child(a.mem, g, j)
  }

  /** Pointing the recursive slot of the live PML4 somewhere else. */
  lemma SlotMoment(a: Moment, live: nat, scratch: seq<nat>, address: nat)
    requires Sound(a, live, scratch)
    ensures live in a.mem && |a.mem[live]| == 512
    ensures var b := a.(mem := Put(a.mem, live, RECURSIVE_ENTRY, a.mem[live][RECURSIVE_ENTRY].(address := address)));
            && Sound(b, live, scratch) && Grows(a, b) && SameExcept(a, b, {})
            && (Root(a.sh, address) ==> Aimed(b, live, address))
            && SameLinks(a, b)
            && (forall g: nat :: Idle(b, g) <==> Idle(a, g))
            && SameTables(a.mem, b.mem, a.sh) && SameBelow(a, b)
  {
    var e := a.mem[live][RECURSIVE_ENTRY].(address := address);
    var b := a.(mem := Put(a.mem, live, RECURSIVE_ENTRY, e));
    SpecialEdit(a.mem, a.sh, live, RECURSIVE_ENTRY, e);
    assert Child(b.mem, live, RECURSIVE_ENTRY) == Some(address);
    ScratchKept(a, b, live, scratch);
  }

  /** An entry of a frame below those a walk passes through does not disturb it. */
  lemma PutUnder(mem: Memory, sh: Shape, r: nat, path: seq<nat>, f: nat, i: nat, e: Entry)
    requires Tree(mem, sh) && Root(sh, r) && OrdinaryPath(path) && |path| <= 3
    requires Reach(mem, r, path).Some? && i < 512 && f in sh.level && sh.level[f] <= 4 - |path|
    ensures Reach(Put(mem, f, i, e), r, path) == Reach(mem, r, path)
  {
    var mem' := Put(mem, f, i, e);
    forall k | 0 <= k < |path|
      ensures Next(mem', Reach(mem, r, path[..k]), path[k]) == Next(mem, Reach(mem, r, path[..k]), path[k])
    {
      ReachPrefix(mem, r, path, k);
      assert OrdinaryPath(path[..k]) by {
        assert forall j :: 0 <= j < k ==> path[..k][j] == path[j];
      }
      ReachLevel(mem, sh, r, path[..k]);
    }
    ReachElsewhere(mem, mem', r, path);
  }

  lemma PutBelow(mem: Memory, sh: Shape, r: nat, path: seq<nat>, i: nat, e: Entry)
    requires Tree(mem, sh) && Root(sh, r) && OrdinaryPath(path) && |path| <= 3
    requires Reach(mem, r, path).Some? && i < 512
    ensures var t := Reach(mem, r, path).value;
            && t in mem && i < |mem[t]|
            && Reach(Put(mem, t, i, e), r, path) == Some(t)
            && (e.present ==> Reach(Put(mem, t, i, e), r, path + [i]) == Some(e.address))
  {
    ReachLevel(mem, sh, r, path);
    var t := Reach(mem, r, path).value;
    PutUnder(mem, sh, r, path, t, i, e);
    assert (path + [i])[..|path|] == path;
  }

  lemma SameLinksNew(a: Moment, b: Moment, live: nat, scratch: seq<nat>, ctx: nat, path: seq<nat>)
    requires Sound(a, live, scratch) && SameLinks(a, b)
    ensures NewOnly(a, b, ctx, path)
  {
    TablesAgree(a.mem, b.mem, a.sh);
  }

  /** Of all walks only the one to the new table comes to life. */
  lemma LinkNew(a: Moment, a1: Moment, live: nat, scratch: seq<nat>, ctx: nat, p: seq<nat>, index: nat, e: Entry)
    requires Sound(a, live, scratch) && Sound(a1, live, scratch) && SameLinks(a, a1) && Root(a.sh, ctx)
    requires |p| <= 2 && OrdinaryPath(p + [index]) && Reach(a1.mem, ctx, p).Some? && e.present && e.address in a1.free
    requires Child(a1.mem, Reach(a1.mem, ctx, p).value, index) == None
    ensures var t := Reach(a1.mem, ctx, p).value;
            && t in a1.mem && |a1.mem[t]| == 512 && Inner(a1.sh, t, index)
            && NewOnly(a, Moment(Linked(a1.mem, t, index, e), LinkShape(a1.sh, t, index, e.address), a1.free - {e.address}),
                       ctx, p + [index])
  {
    EnsureStart(a1, live, scratch, ctx, p, index);
    TablesAgree(a.mem, a1.mem, a.sh);
    var t := Reach(a1.mem, ctx, p).value;
    assert CanLink(a1.mem, a1.sh, t, index, e);
    hide Tree, Reach, Child, CanLink, Sound, Linked, OrdinaryPath;
    forall r: nat, q: seq<nat> | Root(a.sh, r) && OrdinaryPath(q) && |q| <= 3
      ensures var b := Linked(a1.mem, t, index, e);
              Reach(b, r, q) == Reach(a.mem, r, q) || (r == ctx && q <= p + [index] && Reach(a.mem, r, q) == None)
    {
      LinkNewAt(a1.mem, a1.sh, ctx, p, index, e, r, q);
    }
  }

  lemma LinkNewAt(mem: Memory, sh: Shape, ctx: nat, p: seq<nat>, index: nat, e: Entry, r: nat, q: seq<nat>)
    requires Reach(mem, ctx, p).Some? && CanLink(mem, sh, Reach(mem, ctx, p).value, index, e)
    requires Root(sh, ctx) && |p| <= 2 && OrdinaryPath(p)
    requires Root(sh, r) && OrdinaryPath(q) && |q| <= 3
    ensures var t := Reach(mem, ctx, p).value;
            && t in mem && index < |mem[t]|
            && var after := Reach(Linked(mem, t, index, e), r, q);
               after == Reach(mem, r, q) || (r == ctx && q <= p + [index] && Reach(mem, r, q) == None)
  {
    hide Child, Linked, SlotsOk, OwnersOk;
    var t := Reach(mem, ctx, p).value;
    LinkReach(mem, sh, t, index, e, r, q);
    if q != [] && Reach(mem, r, q[..|q| - 1]) == Some(t) && q[|q| - 1] == index {
      hide CanLink;
      PathOfSlot(mem, sh, ctx, p, r, q);
    }
  }

  /** Two walks through the same slot are the same walk. */
  lemma PathOfSlot(mem: Memory, sh: Shape, ctx: nat, p: seq<nat>, r: nat, q: seq<nat>)
    requires Tree(mem, sh) && Root(sh, ctx) && |p| <= 2 && OrdinaryPath(p) && Reach(mem, ctx, p).Some?
    requires Root(sh, r) && OrdinaryPath(q) && 0 < |q| <= 3 && Reach(mem, r, q[..|q| - 1]) == Reach(mem, ctx, p)
    ensures r == ctx && q == p + [q[|q| - 1]]
  {
    hide Tree, Reach;
    var n := |q| - 1;
    assert OrdinaryPath(q[..n]) by {
      assert forall k :: 0 <= k < n ==> q[..n][k] == q[k];
    }
    ReachLevel(mem, sh, r, q[..n]);
    ReachLevel(mem, sh, ctx, p);
    ReachUnique(mem, sh, r, q[..n], ctx, p);
    assert q == q[..n] + [q[n]];
  }

  lemma PutTwice(mem: Memory, f: nat, i: nat, x: Entry, y: Entry)
    requires f in mem && i < |mem[f]|
    ensures Put(Put(mem, f, i, x), f, i, y) == Put(mem, f, i, y)
    ensures Put(mem, f, i, mem[f][i]) == mem
  {
    assert mem[f][i := x][i := y] == mem[f][i := y];
    assert mem[f][i := mem[f][i]] == mem[f];
  }

  lemma EnsureStart(a: Moment, live: nat, scratch: seq<nat>, ctx: nat, p: seq<nat>, index: nat)
    requires Sound(a, live, scratch) && Root(a.sh, ctx) && |p| <= 2 && OrdinaryPath(p + [index])
    requires Reach(a.mem, ctx, p).Some?
    ensures OrdinaryPath(p)
    ensures var t := Reach(a.mem, ctx, p).value;
            Inner(a.sh, t, index) && Reach(a.mem, ctx, p + [index]) == Child(a.mem, t, index)
            && t in a.mem && |a.mem[t]| == 512
    ensures a.free !! a.sh.level.Keys
  {
    assert OrdinaryPath(p) by {
      assert forall k :: 0 <= k < |p| ==> (p + [index])[k] == p[k];
    }
    ReachLevel(a.mem, a.sh, ctx, p);
    assert (p + [index])[..|p|] == p && (p + [index])[|p|] == index;
  }

  /** After the allocation, during which the scratch page was mapped, the entry
      is still the same and still absent. */
  lemma EnsureAgain(a: Moment, a1: Moment, live: nat, scratch: seq<nat>, ctx: nat, p: seq<nat>, index: nat, frame: nat)
    requires Sound(a, live, scratch) && Sound(a1, live, scratch) && SameLinks(a, a1)
    requires Root(a.sh, ctx) && |p| <= 2 && OrdinaryPath(p + [index]) && Reach(a.mem, ctx, p).Some?
    requires frame in a.free
    ensures Reach(a1.mem, ctx, p) == Reach(a.mem, ctx, p)
    ensures Reach(a1.mem, ctx, p + [index]) == Reach(a.mem, ctx, p + [index])
    ensures var t := Reach(a.mem, ctx, p).value;
            t in a1.mem && |a1.mem[t]| == 512 && Child(a1.mem, t, index) == Child(a.mem, t, index)
    ensures frame % FRAMES == frame
  {
    TablesAgree(a.mem, a1.mem, a.sh);
    EnsureStart(a, live, scratch, ctx, p, index);
    EnsureStart(a1, live, scratch, ctx, p, index);
  }

  /** Once the entry is written, the hardware reaches the frame it names. */
  lemma EnsureChild(a: Moment, live: nat, scratch: seq<nat>, ctx: nat, p: seq<nat>, index: nat, e: Entry)
    requires Sound(a, live, scratch) && Aimed(a, live, ctx) && |p| <= 2 && OrdinaryPath(p + [index])
    requires Reach(a.mem, ctx, p).Some? && e.present
    ensures var t := Reach(a.mem, ctx, p).value;
            && t in a.mem && index < |a.mem[t]|
            && var mem' := Put(a.mem, t, index, e);
            && Child(mem', live, RECURSIVE_ENTRY) == Some(ctx) && Child(mem', ctx, RECURSIVE_ENTRY) == Some(ctx)
            && Reach(mem', ctx, p + [index]) == Some(e.address)
            && (Child(a.mem, t, index) == None && e.address in a.free ==>
                  Reach(Linked(a.mem, t, index, e), ctx, p + [index]) == Some(e.address))
  {
    EnsureStart(a, live, scratch, ctx, p, index);
    PutBelow(a.mem, a.sh, ctx, p, index, e);
    var t := Reach(a.mem, ctx, p).value;
    if Child(a.mem, t, index) == None && e.address in a.free {
      LinkReach(a.mem, a.sh, t, index, e, ctx, p + [index]);
      assert (p + [index])[..|p|] == p;
    }
  }

  /** How many tables are missing for a page. */
  function Missing(mem: Memory, ctx: nat, path: seq<nat>): nat
    requires |path| == 4
  {
    if Reach(mem, ctx, path[..1]) == None then 3
    else if Reach(mem, ctx, path[..2]) == None then 2
    else if Reach(mem, ctx, path[..3]) == None then 1
    else 0
  }

  /** The path of the k-th page from an address on. */
  function PagePath(virtual: nat, k: nat): (path: seq<nat>)
    ensures |path| == 4
  {
    Path(virtual + k * PAGE_SIZE)
  }

  function PageCount(size: nat): nat {
    (size + PAGE_SIZE - 1) / PAGE_SIZE
  }

  /** The tables still missing for pages i to n of a range, named by their paths. */
  ghost function MissingTables(mem: Memory, ctx: nat, virtual: nat, i: nat, n: nat): set<seq<nat>> {
    set k: nat, j: nat | i <= k < n && 1 <= j <= 3 && Reach(mem, ctx, PagePath(virtual, k)[..j]) == None ::
      PagePath(virtual, k)[..j]
  }

  /** __virtual_set_flags */
  function WithFlags(e: Entry, flags: nat): Entry {
    e.(present := true, writable := And(flags, PAGE_WRITABLE) != 0, user := And(flags, PAGE_USER) != 0,
       global := And(flags, PAGE_GLOBAL) != 0, nx := And(flags, PAGE_NX) != 0)
  }

  /** The leaf entry arch_virtual_map writes. */
  function LeafEntry(physical: nat, flags: nat): Entry {
    WithFlags(ZERO, flags).(address := physical / PAGE_SIZE % FRAMES)
  }

  /** A present page of the frame of a physical address, with the rights that bits 1
      to 4 of the flags ask for. */
  ghost predicate Shows(page: Option<Entry>, physical: nat, flags: nat) {
    && page.Some? && page.value.present
    && (page.value.writable <==> flags / 2 % 2 == 1)
    && (page.value.user <==> flags / 4 % 2 == 1)
    && (page.value.global <==> flags / 8 % 2 == 1)
    && (page.value.nx <==> flags / 16 % 2 == 1)
    && (physical < 0x10_0000_0000_0000 ==> page.value.address == physical / 4096)
  }

  lemma FlagIs(flags: nat, mask: nat, k: nat)
    requires mask == Pow2(k)
    ensures And(flags, mask) != 0 <==> flags / mask % 2 == 1
  {
    AndPow2(flags, k);
    ShrDivides(flags, k);
  }

  /** What the entry that arch_virtual_map writes means to the hardware. */
  lemma LeafShows(physical: nat, flags: nat)
    ensures Shows(Some(LeafEntry(physical, flags)), physical, flags)
  {
    hide And;
    FlagIs(flags, 2, 1);
    FlagIs(flags, 4, 2);
    FlagIs(flags, 8, 3);
    FlagIs(flags, 16, 4);
  }

  /** Page k belongs to a range exactly when it begins before the range's end. */
  lemma PageCountIff(size: nat, k: nat)
    ensures k < PageCount(size) <==> k * 4096 < size
  {}

  /** Every page that begins inside the range shows its frame, with the rights asked for. */
  ghost predicate RangeShows(mem: Memory, ctx: nat, virtual: nat, physical: nat, flags: nat, size: nat) {
    forall k: nat :: k * 4096 < size ==>
      Shows(Translate(mem, ctx, PagePath(virtual, k)), physical + k * 4096, flags)
  }

  // ----- a first state

  ghost predicate FirstFrames(tables: seq<nat>, free: set<nat>) {
    && |tables| == 5 && (forall i, j :: 0 <= i < j < 5 ==> tables[i] != tables[j])
    && (forall i :: 0 <= i < 5 ==> 0 < tables[i] < FRAMES && tables[i] !in free)
    && (forall f :: f in free ==> 0 < f < FRAMES)
  }

  function Pointer(address: nat): Entry {
    Entry(true, true, false, false, false, address)
  }

  /** tables are the live PML4, PDPT, PD and PT of the scratch page, and another PML4. */
  function FirstMemory(tables: seq<nat>, path: seq<nat>, free: set<nat>): Memory
    requires |tables| == 5 && |path| == 4 && forall k :: 0 <= k < 4 ==> path[k] < 512
  {
    map f | f in free + {tables[0], tables[1], tables[2], tables[3], tables[4]} ::
      if f == tables[0] then Zeros()[path[0] := Pointer(tables[1])][RECURSIVE_ENTRY := Pointer(tables[0])]
      else if f == tables[1] then Zeros()[path[1] := Pointer(tables[2])]
      else if f == tables[2] then Zeros()[path[2] := Pointer(tables[3])]
      else if f == tables[4] then Zeros()[RECURSIVE_ENTRY := Pointer(tables[4])]
      else Zeros()
  }

  function FirstShape(tables: seq<nat>, path: seq<nat>): Shape
    requires |tables| == 5 && |path| == 4
  {
    Shape(map[tables[0] := 4, tables[1] := 3, tables[2] := 2, tables[3] := 1, tables[4] := 4],
          map[tables[1] := Slot(tables[0], path[0]), tables[2] := Slot(tables[1], path[1]),
              tables[3] := Slot(tables[2], path[2])])
  }

  lemma FirstChild(tables: seq<nat>, path: seq<nat>, free: set<nat>, f: nat, i: nat)
    requires FirstFrames(tables, free) && |path| == 4 && OrdinaryPath(path) && i < 512
    ensures Child(FirstMemory(tables, path, free), f, i) ==
            if f == tables[0] && i == RECURSIVE_ENTRY then Some(tables[0])
            else if f == tables[0] && i == path[0] then Some(tables[1])
            else if f == tables[1] && i == path[1] then Some(tables[2])
            else if f == tables[2] && i == path[2] then Some(tables[3])
            else if f == tables[4] && i == RECURSIVE_ENTRY then Some(tables[4])
            else None
  {}

  lemma FirstTree(tables: seq<nat>, path: seq<nat>, free: set<nat>)
    requires FirstFrames(tables, free) && |path| == 4 && OrdinaryPath(path)
    ensures Tree(FirstMemory(tables, path, free), FirstShape(tables, path))
  {
    FirstOwners(tables, path, free);
    hide FirstMemory, OwnersOk;
    var mem, sh := FirstMemory(tables, path, free), FirstShape(tables, path);
    assert TablesOk(mem, sh) by {
      FirstTables(tables, path, free);
    }
    hide TablesOk;
    forall f: nat, i: nat | Inner(sh, f, i) && Child(mem, f, i).Some?
      ensures Owned(sh, Child(mem, f, i).value, f, i)
    {
      FirstOwned(tables, path, free, f, i);
    }
    hide Inner, Owned, FirstShape, Child;
  }

  lemma FirstOwned(tables: seq<nat>, path: seq<nat>, free: set<nat>, f: nat, i: nat)
    requires FirstFrames(tables, free) && |path| == 4 && OrdinaryPath(path)
    requires Inner(FirstShape(tables, path), f, i) && Child(FirstMemory(tables, path, free), f, i).Some?
    ensures Owned(FirstShape(tables, path), Child(FirstMemory(tables, path, free), f, i).value, f, i)
  {
    hide FirstMemory, Child;
    FirstChild(tables, path, free, f, i);
  }

  lemma FirstTables(tables: seq<nat>, path: seq<nat>, free: set<nat>)
    requires FirstFrames(tables, free) && |path| == 4 && OrdinaryPath(path)
    ensures TablesOk(FirstMemory(tables, path, free), FirstShape(tables, path))
  {}

  lemma FirstOwners(tables: seq<nat>, path: seq<nat>, free: set<nat>)
    requires FirstFrames(tables, free) && |path| == 4 && OrdinaryPath(path)
    ensures OwnersOk(FirstMemory(tables, path, free), FirstShape(tables, path))
  {
    hide FirstMemory;
    var mem, sh := FirstMemory(tables, path, free), FirstShape(tables, path);
    forall c: nat | c in sh.level && sh.level[c] < 4
      ensures HasOwner(mem, sh, c)
    {
      FirstChild(tables, path, free, sh.parent[c].frame, sh.parent[c].index);
    }
  }

  lemma FirstReach(tables: seq<nat>, path: seq<nat>, free: set<nat>)
    requires FirstFrames(tables, free) && |path| == 4 && OrdinaryPath(path)
    ensures Reach(FirstMemory(tables, path, free), tables[0], path[..3]) == Some(tables[3])
  {
    hide FirstMemory;
    FirstChild(tables, path, free, tables[0], path[0]);
    FirstChild(tables, path, free, tables[1], path[1]);
    FirstChild(tables, path, free, tables[2], path[2]);
    var mem := FirstMemory(tables, path, free);
    assert path[..1][..0] == path[..0] && path[..2][..1] == path[..1] && path[..3][..2] == path[..2];
    assert Reach(mem, tables[0], path[..1]) == Some(tables[1]);
    assert Reach(mem, tables[0], path[..2]) == Some(tables[2]);
  }

  lemma FirstSound(tables: seq<nat>, path: seq<nat>, free: set<nat>)
    requires FirstFrames(tables, free) && |path| == 4 && OrdinaryPath(path)
    ensures Sound(Moment(FirstMemory(tables, path, free), FirstShape(tables, path), free), tables[0], path)
    ensures Root(FirstShape(tables, path), tables[0]) && Root(FirstShape(tables, path), tables[4])
  {
    hide Tree, Reach, FirstMemory;
    FirstTree(tables, path, free);
    FirstReach(tables, path, free);
    FirstSelfMaps(tables, path, free);
    FirstFrame(tables, path, free);
  }

  lemma FirstSelfMaps(tables: seq<nat>, path: seq<nat>, free: set<nat>)
    requires FirstFrames(tables, free) && |path| == 4 && OrdinaryPath(path)
    ensures SelfMaps(FirstMemory(tables, path, free), FirstShape(tables, path), tables[0])
  {
    var sh := FirstShape(tables, path);
    assert forall r :: Root(sh, r) ==> r == tables[0] || r == tables[4];
  }

  lemma FirstFrame(tables: seq<nat>, path: seq<nat>, free: set<nat>)
    requires FirstFrames(tables, free) && |path| == 4 && OrdinaryPath(path)
    ensures forall f :: f in free ==> f in FirstMemory(tables, path, free) && |FirstMemory(tables, path, free)[f]| == 512
    ensures free !! FirstShape(tables, path).level.Keys
    ensures forall f :: f in FirstShape(tables, path).level ==> 0 < f < FRAMES
  {}

  class Mmu {
    var mem: Memory
    var free: set<nat>   // frames of the physical allocator
    const live: nat      // frame of kernel_context's PML4, loaded in CR3
    const scratch: nat   // address of phys_page_virt, into which the allocator maps frames
    ghost var sh: Shape

    /** A first state: the live PML4, the three tables of the scratch page, and a
        second context that maps nothing but itself. */
    constructor (live: nat, pdpt: nat, pd: nat, pt: nat, other: nat, scratch: nat, free: set<nat>)
      requires OrdinaryPath(Path(scratch)) && FirstFrames([live, pdpt, pd, pt, other], free)
      ensures Valid() && Root(sh, live) && Root(sh, other) && live != other && this.free == free
      ensures this.live == live && this.scratch == scratch
      ensures mem == FirstMemory([live, pdpt, pd, pt, other], Path(scratch), free)
    {
      FirstSound([live, pdpt, pd, pt, other], Path(scratch), free);
      this.live, this.scratch, this.free := live, scratch, free;
      mem := FirstMemory([live, pdpt, pd, pt, other], Path(scratch), free);
      sh := FirstShape([live, pdpt, pd, pt, other], Path(scratch));
    }

    ghost function Now(): Moment
      reads this
    {
      Moment(mem, sh, free)
    }

    ghost predicate Valid()
      reads this
    {
      Sound(Now(), live, Path(scratch))
    }

    /** The recursive slot of the live PML4 points to ctx. */
    ghost predicate At(ctx: nat)
      reads this
    {
      Aimed(Now(), live, ctx)
    }

    /** The frame the hardware reaches for an address, from CR3. */
    method Resolve(va: nat, ghost ctx: nat, ghost path: seq<nat>) returns (f: nat)
      requires Child(mem, live, RECURSIVE_ENTRY) == Some(ctx) && Child(mem, ctx, RECURSIVE_ENTRY) == Some(ctx)
      requires |path| <= 3 && Path(va) == seq(4 - |path|, _ => RECURSIVE_ENTRY) + path
      requires Reach(mem, ctx, path).Some?
      ensures Reach(mem, ctx, path) == Some(f)
    {
      FractalWalk(mem, live, ctx, path);
      f := Reach(mem, live, Path(va)).value;
    }

    lemma ScratchMapped()
      requires Valid()
      ensures Missing(mem, live, Path(scratch)) == 0
    {
      var p := Path(scratch);
      ReachPrefix(mem, live, p[..3], 1);
      ReachPrefix(mem, live, p[..3], 2);
      assert p[..3][..1] == p[..1] && p[..3][..2] == p[..2];
    }

    /** physical_alloc of one frame: taken off a free stack, whose next link is
        read through the scratch page. */
    method Alloc(ghost ctx: nat) returns (f: nat)
      requires Valid() && At(ctx) && free != {}
      modifies this
      ensures sh == old(sh) && f in old(free) && free == old(free) - {f}
      ensures var b := Moment(mem, sh, old(free));
              && Sound(b, live, Path(scratch)) && Aimed(b, live, ctx)
              && SameExcept(old(Now()), b, {(live, Path(scratch))}) && Grows(old(Now()), b)
              && mem[live][RECURSIVE_ENTRY] == old(mem)[live][RECURSIVE_ENTRY]
              && SameLinks(old(Now()), b)
              && (forall g: nat :: Idle(b, g) ==> Idle(old(Now()), g))
      decreases 1, 0
    {
      f :| f in free;
      ScratchMapped();
      Map(live, scratch, f * PAGE_SIZE, 3);
      free := free - {f};
    }

    /** __virtual_set_address, __virtual_set_flags and the memset: afterwards the
        table behind the entry exists. */
    method Ensure(table: nat, index: nat, child: nat, flags: nat, ghost ctx: nat, ghost p: seq<nat>)
      requires Valid() && At(ctx)
      requires |p| <= 2 && OrdinaryPath(p + [index]) && Reach(mem, ctx, p).Some?
      requires Path(table) == seq(4 - |p|, _ => RECURSIVE_ENTRY) + p
      requires Path(child) == seq(3 - |p|, _ => RECURSIVE_ENTRY) + (p + [index])
      requires Reach(mem, ctx, p + [index]) == None ==> free != {}
      modifies this
      ensures Valid() && At(ctx) && mem[live][RECURSIVE_ENTRY] == old(mem)[live][RECURSIVE_ENTRY]
      ensures Reach(mem, ctx, p + [index]).Some?
      ensures Grows(old(Now()), Now()) && NewOnly(old(Now()), Now(), ctx, p + [index])
      ensures var absent := Reach(old(mem), ctx, p + [index]) == None;
              && SameExcept(old(Now()), Now(), if absent then {(live, Path(scratch))} else {})
              && |free| == |old(free)| - (if absent then 1 else 0)
              && (absent ==> Idle(Now(), Reach(mem, ctx, p + [index]).value))
              && (!absent ==> SameLinks(old(Now()), Now()))
      ensures forall g: nat :: Idle(Now(), g) ==>
                (Idle(old(Now()), g) && Some(g) != Reach(old(mem), ctx, p)) || Some(g) == Reach(mem, ctx, p + [index])
      decreases if Reach(mem, ctx, p + [index]) == None then 1 else 0, 1
    {
      hide Path, Tree, Sound, SameExcept, Grows, Idle, And, Reach, SameLinks, OrdinaryPath, NewOnly;
      ghost var a, a1 := Now(), Now();
      SameLinksRefl(a);
      EnsureStart(a, live, Path(scratch), ctx, p, index);
      var t := Resolve(table, ctx, p);
      var zero := false;
      if !mem[t][index].present {
        var frame := Alloc(ctx);
        a1 := Moment(mem, sh, a.free);
        EnsureAgain(a, a1, live, Path(scratch), ctx, p, index, frame);
        t := Resolve(table, ctx, p);
        mem := Put(mem, t, index, mem[t][index].(address := frame % FRAMES));
        zero := true;
      }
      ghost var e := WithFlags(mem[t][index], flags);
      PutTwice(a1.mem, t, index, mem[t][index], e);
      mem := Put(mem, t, index, WithFlags(mem[t][index], flags));
      EnsureChild(a1, live, Path(scratch), ctx, p, index, e);
      if zero {
        LinkMoment(a1, live, ctx, Path(scratch), t, index, e);
        var c := Resolve(child, ctx, p + [index]);
        mem := mem[c := Zeros()];
        assert mem == Linked(a1.mem, t, index, e);
        sh := LinkShape(sh, t, index, c);
        GrowsTransitive(a, a1, Now());
        SameTransitive(a, a1, Now(), {(live, Path(scratch))}, {});
        LinkNew(a, a1, live, Path(scratch), ctx, p, index, e);
      } else {
        FlagMoment(a1, live, ctx, Path(scratch), t, index, e);
        SameLinksNew(a1, Now(), live, Path(scratch), ctx, p + [index]);
      }
    }

    /** The three intermediate tables of a page. */
    method EnsureAll(virtual: nat, flags: nat, ghost ctx: nat)
      requires Valid() && At(ctx) && OrdinaryPath(Path(virtual))
      requires |free| >= Missing(mem, ctx, Path(virtual))
      modifies this
      ensures Valid() && At(ctx) && mem[live][RECURSIVE_ENTRY] == old(mem)[live][RECURSIVE_ENTRY]
      ensures Grows(old(Now()), Now()) && NewOnly(old(Now()), Now(), ctx, Path(virtual))
      ensures Reach(mem, ctx, Path(virtual)[..3]).Some?
      ensures var missing := Missing(old(mem), ctx, Path(virtual));
              && SameExcept(old(Now()), Now(), if missing > 0 then {(live, Path(scratch))} else {})
              && |free| == |old(free)| - missing
              && (missing == 0 ==> SameLinks(old(Now()), Now()))
      ensures forall g: nat :: Idle(Now(), g) ==>
                Idle(old(Now()), g) || Some(g) == Reach(mem, ctx, Path(virtual)[..3])
      decreases if Missing(mem, ctx, Path(virtual)) > 0 then 1 else 0, 2
    {
      hide Path, Tree, Sound, SameExcept, Grows, Idle, Reach, Aimed, SameLinks, SameTables, OrdinaryPath,
           Pml4Index, PdptIndex, PdIndex, PtIndex, EntryToAddress, Root, NewOnly;
      PathLength(virtual);
      ghost var a, sp, m := Now(), Path(scratch), Missing(mem, ctx, Path(virtual));
      var i4, i3, i2 := Pml4Index(virtual), PdptIndex(virtual), PdIndex(virtual);
      var pml4 := EntryToAddress(RECURSIVE_ENTRY, RECURSIVE_ENTRY, RECURSIVE_ENTRY, RECURSIVE_ENTRY);
      var pdpt := EntryToAddress(RECURSIVE_ENTRY, RECURSIVE_ENTRY, RECURSIVE_ENTRY, i4);
      var pd := EntryToAddress(RECURSIVE_ENTRY, RECURSIVE_ENTRY, i4, i3);
      var pt := EntryToAddress(RECURSIVE_ENTRY, i4, i3, i2);
      TablePaths(virtual);
      PathPrefix(Path(virtual));
      assert OrdinaryPath(Path(virtual)[..1]) && OrdinaryPath(Path(virtual)[..2]) && OrdinaryPath(Path(virtual)[..3]);
      ReachRoot(a, ctx);
      AimedRoot(a, live, ctx);
      Ensure(pml4, i4, pdpt, flags, ctx, []);
      ghost var b := Now();
      AimedRoot(b, live, ctx);
      MissingStep(a, b, live, sp, ctx, [i4], i3);
      Ensure(pdpt, i3, pd, flags, ctx, [i4]);
      ghost var c := Now();
      AimedRoot(c, live, ctx);
      MissingStep(b, c, live, sp, ctx, [i4, i3], i2);
      MissingDeep(a, b, ctx, [i4], [i4, i3, i2]);
      Ensure(pd, i2, pt, flags, ctx, [i4, i3]);
      TablesChain(a, b, c, Now(), (live, sp), m);
      NewOnlyChain(a, b, c, Now(), ctx, Path(virtual));
    }

    method WriteLeaf(ctx: nat, virtual: nat, physical: nat, flags: nat)
      requires Valid() && At(ctx) && OrdinaryPath(Path(virtual)) && Reach(mem, ctx, Path(virtual)[..3]).Some?
      modifies `mem
      ensures Valid() && mem[live][RECURSIVE_ENTRY] == old(mem)[live][RECURSIVE_ENTRY]
      ensures Grows(old(Now()), Now()) && SameLinks(old(Now()), Now())
      ensures NewOnly(old(Now()), Now(), ctx, Path(virtual))
      ensures Translate(mem, ctx, Path(virtual)) == Some(LeafEntry(physical, flags))
      ensures SameExcept(old(Now()), Now(), {(ctx, Path(virtual))})
      ensures forall g: nat :: Idle(Now(), g) ==> Idle(old(Now()), g) && Some(g) != Reach(old(mem), ctx, Path(virtual)[..3])
    {
      hide Path, Tree, Sound, SameExcept, Grows, Idle, And, Reach, Aimed, SameLinks, Translate,
           Pml4Index, PdptIndex, PdIndex, PtIndex, EntryToAddress, OrdinaryPath, NewOnly, SameTables;
      ghost var c, path := Now(), Path(virtual);
      TablePaths(virtual);
      AimedSlot(c, live, ctx);
      var pt := EntryToAddress(RECURSIVE_ENTRY, Pml4Index(virtual), PdptIndex(virtual), PdIndex(virtual));
      var i1 := PtIndex(virtual);
      var t := Resolve(pt, ctx, path[..3]);
      LeafMoment(c, live, Path(scratch), ctx, path, LeafEntry(physical, flags));
      SameIsNew(c, c.(mem := Put(c.mem, t, i1, LeafEntry(physical, flags))), ctx, path);
      PutTwice(c.mem, t, i1, WithFlags(c.mem[t][i1], flags), LeafEntry(physical, flags));
      LeafFields(c.mem[t][i1], physical, flags);
      mem := Put(mem, t, i1, WithFlags(mem[t][i1], flags));
      mem := Put(mem, t, i1, mem[t][i1].(address := physical / PAGE_SIZE % FRAMES));
    }

    /** The tables and then the leaf entry, through the recursive slot. */
    method Enter(ctx: nat, virtual: nat, physical: nat, flags: nat)
      requires Valid() && At(ctx) && OrdinaryPath(Path(virtual))
      requires |free| >= Missing(mem, ctx, Path(virtual))
      modifies this
      ensures Valid() && mem[live][RECURSIVE_ENTRY] == old(mem)[live][RECURSIVE_ENTRY]
      ensures Grows(old(Now()), Now()) && NewOnly(old(Now()), Now(), ctx, Path(virtual))
      ensures Translate(mem, ctx, Path(virtual)) == Some(LeafEntry(physical, flags))
      ensures var missing := Missing(old(mem), ctx, Path(virtual));
              && SameExcept(old(Now()), Now(),
                   {(ctx, Path(virtual))} + (if missing > 0 then {(live, Path(scratch))} else {}))
              && |free| == |old(free)| - missing
              && (missing == 0 ==> SameLinks(old(Now()), Now()))
      ensures forall g: nat :: Idle(Now(), g) ==> Idle(old(Now()), g)
      decreases if Missing(mem, ctx, Path(virtual)) > 0 then 1 else 0, 3
    {
      hide Path, Tree, Sound, SameExcept, Grows, Idle, Reach, Aimed, SameLinks, Translate, NewOnly;
      ghost var b, path, sp := Now(), Path(virtual), Path(scratch);
      PathLength(virtual);
      EnsureAll(virtual, flags, ctx);
      ghost var c := Now();
      WriteLeaf(ctx, virtual, physical, flags);
      NewOnlyTransitive(b, c, Now(), ctx, path, path);
      Chain(b, c, Now(), if Missing(b.mem, ctx, path) > 0 then {(live, sp)} else {}, {(ctx, path)});
    }

    method Map(ctx: nat, virtual: nat, physical: nat, flags: nat)
      requires Valid() && Root(sh, ctx) && OrdinaryPath(Path(virtual))
      requires |free| >= Missing(mem, ctx, Path(virtual))
      modifies this
      ensures Valid() && mem[live][RECURSIVE_ENTRY] == old(mem)[live][RECURSIVE_ENTRY]
      ensures Grows(old(Now()), Now()) && NewOnly(old(Now()), Now(), ctx, Path(virtual))
      ensures Translate(mem, ctx, Path(virtual)) == Some(LeafEntry(physical, flags))
      ensures var missing := Missing(old(mem), ctx, Path(virtual));
              && SameExcept(old(Now()), Now(),
                   {(ctx, Path(virtual))} + (if missing > 0 then {(live, Path(scratch))} else {}))
              && |free| == |old(free)| - missing
              && (missing == 0 ==> SameLinks(old(Now()), Now()))
      ensures Shows(Translate(mem, ctx, Path(virtual)), physical, flags)
      ensures forall g: nat :: Idle(Now(), g) ==> Idle(old(Now()), g)
      decreases if Missing(mem, ctx, Path(virtual)) > 0 then 1 else 0, 4
    {
      LeafShows(physical, flags);
      hide Path, Tree, Sound, SameExcept, Grows, Idle, Reach, LeafEntry, Aimed, SameLinks, Translate, NewOnly, SameTables,
           Shows;
      ghost var a, path, sp := Now(), Path(virtual), Path(scratch);
      PathLength(virtual);
      SlotMoment(a, live, sp, ctx);
      var original := mem[live][RECURSIVE_ENTRY].address;
      mem := Put(mem, live, RECURSIVE_ENTRY, mem[live][RECURSIVE_ENTRY].(address := ctx));
      ghost var b := Now();
      MissingSame(a, b, live, sp, ctx, path);
      Enter(ctx, virtual, physical, flags);
      ghost var d := Now();
      SlotMoment(d, live, sp, original);
      mem := Put(mem, live, RECURSIVE_ENTRY, mem[live][RECURSIVE_ENTRY].(address := original));
      ghost var ex := {(ctx, path)} + (if Missing(a.mem, ctx, path) > 0 then {(live, sp)} else {});
      SameIsNew(a, b, ctx, path);
      SameIsNew(d, Now(), ctx, path);
      NewOnlyTransitive(a, b, d, ctx, path, path);
      Chain(a, b, d, {}, ex);
      NewOnlyTransitive(a, d, Now(), ctx, path, path);
      Chain(a, d, Now(), ex, {});
      GrowsRoot(a, d, ctx);
      SameAt(d, Now(), ctx, path);
    }

    // ----- unmap

    /** __virtual_table_is_empty */
    method TableIsEmpty(t: nat) returns (empty: bool)
      requires t in mem && |mem[t]| == 512
      ensures empty <==> EmptyTable(mem[t])
    {
      for i := 0 to 512
        invariant forall j :: 0 <= j < i ==> !mem[t][j].present
      {
        if mem[t][i].present {
          return false;
        }
      }
      return true;
    }

    /** physical_free of one frame: pushed on a free stack, whose link is written
        into the frame through the scratch page. */
    method PhysicalFree(frame: nat) returns (ghost before: Memory, ghost junk: Entry)
      requires Valid() && frame in sh.level
      modifies this
      ensures sh == old(sh) && free == old(free) + {frame}
      ensures frame in before && |before[frame]| == 512 && mem == Put(before, frame, 0, junk)
      ensures var b := Moment(before, sh, old(free));
              && Sound(b, live, Path(scratch)) && SameLinks(old(Now()), b)
              && SameExcept(old(Now()), b, {(live, Path(scratch))})
              && Translate(before, live, Path(scratch)).Some?
              && live in before && |before[live]| == 512
              && before[live][RECURSIVE_ENTRY] == old(mem)[live][RECURSIVE_ENTRY]
              && (forall g: nat :: Idle(b, g) ==> Idle(old(Now()), g))
    {
      hide Sound, SameExcept, Grows, Idle, Path, Aimed, Reach, LeafEntry, Translate, Tree;
      FrameOfRoot(Now(), live, Path(scratch));
      ScratchMapped();
      Map(live, scratch, frame * PAGE_SIZE, 3);
      FrameKept(old(Now()), Now(), live, Path(scratch), frame);
      FrameOfRoot(Now(), live, Path(scratch));
      assert {(live, Path(scratch))} + {} == {(live, Path(scratch))};
      before := mem;
      var word: Entry := *;
      junk := word;
      mem := Put(mem, frame, 0, word);
      free := free + {frame};
    }

    /** One of the three bottom-up steps: if the table is empty its frame is freed
        and then its entry in the parent is cleared. */
    method Release(table: nat, index: nat, child: nat, ghost ctx: nat, ghost p: seq<nat>)
      requires Valid() && At(ctx) && Translate(mem, live, Path(scratch)).Some?
      requires |p| <= 2 && OrdinaryPath(p + [index]) && Reach(mem, ctx, p + [index]).Some?
      requires Path(table) == seq(4 - |p|, _ => RECURSIVE_ENTRY) + p
      requires Path(child) == seq(3 - |p|, _ => RECURSIVE_ENTRY) + (p + [index])
      modifies this
      ensures Valid() && At(ctx) && Translate(mem, live, Path(scratch)).Some?
      ensures mem[live][RECURSIVE_ENTRY] == old(mem)[live][RECURSIVE_ENTRY]
      ensures Released(old(Now()), Now(), live, Path(scratch), ctx, p, index)
    {
      hide Sound, SameLinks, SameExcept, Grows, Idle, Path, Aimed, Reach, Tree, Translate, Released, OrdinaryPath, EmptyTable;
      ghost var a, sp := Now(), Path(scratch);
      ReleaseStart(a, live, sp, ctx, p, index);
      var c := Resolve(child, ctx, p + [index]);
      var empty := TableIsEmpty(c);
      if empty {
        var t := Resolve(table, ctx, p);
        ghost var before, junk := PhysicalFree(mem[t][index].address);
        ReleaseMoment(a, Moment(before, sh, a.free), live, sp, ctx, p, index, junk);
        t := Resolve(table, ctx, p);
        mem := Put(mem, t, index, ZERO);
        sh := UnlinkShape(sh, c);
      }
    }

    /** The four presence tests, top level first. */
    method IsMapped(ctx: nat, virtual: nat) returns (mapped: bool)
      requires Valid() && At(ctx) && OrdinaryPath(Path(virtual))
      ensures mapped <==> Translate(mem, ctx, Path(virtual)).Some?
    {
      hide Path, Tree, Sound, Reach, Aimed, Pml4Index, PdptIndex, PdIndex, PtIndex, EntryToAddress, OrdinaryPath;
      var i4, i3, i2, i1 := Pml4Index(virtual), PdptIndex(virtual), PdIndex(virtual), PtIndex(virtual);
      TablePaths(virtual);
      AimedSlot(Now(), live, ctx);
      WalkDown(Now(), live, Path(scratch), ctx, Path(virtual));
      var t := Resolve(EntryToAddress(RECURSIVE_ENTRY, RECURSIVE_ENTRY, RECURSIVE_ENTRY, RECURSIVE_ENTRY), ctx, []);
      if !mem[t][i4].present {
        return false;
      }
      t := Resolve(EntryToAddress(RECURSIVE_ENTRY, RECURSIVE_ENTRY, RECURSIVE_ENTRY, i4), ctx, [i4]);
      if !mem[t][i3].present {
        return false;
      }
      t := Resolve(EntryToAddress(RECURSIVE_ENTRY, RECURSIVE_ENTRY, i4, i3), ctx, [i4, i3]);
      if !mem[t][i2].present {
        return false;
      }
      t := Resolve(EntryToAddress(RECURSIVE_ENTRY, i4, i3, i2), ctx, [i4, i3, i2]);
      return mem[t][i1].present;
    }

    /** memset of the leaf entry. */
    method ClearLeaf(ctx: nat, virtual: nat)
      requires Valid() && At(ctx) && OrdinaryPath(Path(virtual))
      requires Reach(mem, ctx, Path(virtual)[..3]).Some?
      modifies `mem
      ensures Valid() && At(ctx) && mem[live][RECURSIVE_ENTRY] == old(mem)[live][RECURSIVE_ENTRY]
      ensures Cleared(old(Now()), Now(), ctx, Path(virtual))
    {
      hide Path, Tree, Sound, Reach, Aimed, Pml4Index, PdptIndex, PdIndex, PtIndex, EntryToAddress, OrdinaryPath, Cleared;
      ghost var a := Now();
      TablePaths(virtual);
      AimedSlot(a, live, ctx);
      LeafMoment(a, live, Path(scratch), ctx, Path(virtual), ZERO);
      ClearMoment(a, live, Path(scratch), ctx, Path(virtual));
      var t := Resolve(EntryToAddress(RECURSIVE_ENTRY, Pml4Index(virtual), PdptIndex(virtual), PdIndex(virtual)),
                       ctx, Path(virtual)[..3]);
      mem := Put(mem, t, PtIndex(virtual), ZERO);
    }

    /** The leaf entry and then the three tables, bottom-up. */
    method Remove(ctx: nat, virtual: nat)
      requires Valid() && At(ctx) && OrdinaryPath(Path(virtual)) && Translate(mem, ctx, Path(virtual)).Some?
      requires Translate(mem, live, Path(scratch)).Some? && (ctx, Path(virtual)) != (live, Path(scratch))
      modifies this
      ensures Valid() && mem[live][RECURSIVE_ENTRY] == old(mem)[live][RECURSIVE_ENTRY]
      ensures Removed(old(Now()), Now(), live, Path(scratch), ctx, Path(virtual))
    {
      hide Path, Tree, Sound, Reach, Aimed, Pml4Index, PdptIndex, PdIndex, PtIndex, EntryToAddress, OrdinaryPath,
           Idle, SameExcept, Grows, SameLinks, Translate, Released, Cleared, EmptyTable, Emptied, SameTables, Root, Removed;
      ghost var b, path, sp := Now(), Path(virtual), Path(scratch);
      var i4, i3, i2 := Pml4Index(virtual), PdptIndex(virtual), PdIndex(virtual);
      TablePaths(virtual);
      MappedTables(b, live, sp, ctx, path);
      ClearLeaf(ctx, virtual);
      ghost var c := Now();
      AfterClear(b, c, live, sp, ctx, path);
      var pml4 := EntryToAddress(RECURSIVE_ENTRY, RECURSIVE_ENTRY, RECURSIVE_ENTRY, RECURSIVE_ENTRY);
      var pdpt := EntryToAddress(RECURSIVE_ENTRY, RECURSIVE_ENTRY, RECURSIVE_ENTRY, i4);
      var pd := EntryToAddress(RECURSIVE_ENTRY, RECURSIVE_ENTRY, i4, i3);
      var pt := EntryToAddress(RECURSIVE_ENTRY, i4, i3, i2);
      Release(pd, i2, pt, ctx, [i4, i3]);
      ghost var d := Now();
      AfterRelease(c, d, live, sp, ctx, [i4, i3], i2);
      Release(pdpt, i3, pd, ctx, [i4]);
      ghost var e := Now();
      AfterRelease(d, e, live, sp, ctx, [i4], i3);
      Release(pml4, i4, pdpt, ctx, []);
      ReachRoot(e, ctx);
      AfterRelease(e, Now(), live, sp, ctx, [], i4);
      LevelOne(b, live, sp, ctx, path);
      RemoveSum(b, c, d, e, Now(), live, sp, ctx, path, Reach(b.mem, ctx, path[..3]).value,
                Reach(b.mem, ctx, path[..2]).value, Reach(b.mem, ctx, path[..1]).value);
    }

    method Unmap(ctx: nat, virtual: nat)
      requires Valid() && Root(sh, ctx) && OrdinaryPath(Path(virtual))
      requires Translate(mem, live, Path(scratch)).Some? && (ctx, Path(virtual)) != (live, Path(scratch))
      modifies this
      ensures Valid()
      // A page that was not mapped: only the recursive slot changes.
      ensures Translate(old(mem), ctx, Path(virtual)) == None ==>
                && live in old(mem) && |old(mem)[live]| == 512
                && Now() == old(Now()).(mem := Put(old(mem), live, RECURSIVE_ENTRY,
                                                   old(mem)[live][RECURSIVE_ENTRY].(address := ctx)))
      // A mapped page: its translation goes, and exactly the tables it leaves empty.
      ensures Translate(old(mem), ctx, Path(virtual)).Some? ==>
                && mem[live][RECURSIVE_ENTRY] == old(mem)[live][RECURSIVE_ENTRY]
                && Removed(old(Now()), Now(), live, Path(scratch), ctx, Path(virtual))
      // The early returns leave the recursive slot where it was pointed.
      ensures live in old(mem) && live in mem && |old(mem)[live]| == |mem[live]| == 512
      ensures mem[live][RECURSIVE_ENTRY] == old(mem)[live][RECURSIVE_ENTRY] <==>
                Translate(old(mem), ctx, Path(virtual)).Some? || old(mem)[live][RECURSIVE_ENTRY].address == ctx
    {
      hide Path, Tree, Sound, Reach, Aimed, Pml4Index, PdptIndex, PdIndex, PtIndex, EntryToAddress, OrdinaryPath,
           Idle, SameExcept, Grows, SameLinks, Translate, Released, Cleared, EmptyTable, Emptied, SameTables, Root;
      ghost var a, path, sp := Now(), Path(virtual), Path(scratch);
      var i4, i3, i2 := Pml4Index(virtual), PdptIndex(virtual), PdIndex(virtual);
      TablePaths(virtual);
      SlotMoment(a, live, sp, ctx);
      var original := mem[live][RECURSIVE_ENTRY].address;
      mem := Put(mem, live, RECURSIVE_ENTRY, mem[live][RECURSIVE_ENTRY].(address := ctx));
      ghost var b := Now();
      SlotSame(a, b, live, sp, ctx, path);
      var mapped := IsMapped(ctx, virtual);
      if !mapped {
        return;
      }
      Remove(ctx, virtual);
      ghost var e := Now();
      SlotMoment(e, live, sp, original);
      mem := Put(mem, live, RECURSIVE_ENTRY, mem[live][RECURSIVE_ENTRY].(address := original));
      RemovedAround(a, b, e, Now(), live, sp, ctx, path);
    }

    /** virtual_map: page after page of a range. */
    method MapRange(ctx: nat, virtual: nat, physical: nat, size: nat, flags: nat)
      requires Valid() && Root(sh, ctx) && OrdinaryRange(virtual, PageCount(size))
      requires virtual + size <= 0x1_0000_0000_0000_0000 && size <= 0x1_0000_0000_0000
      requires |free| >= |MissingTables(mem, ctx, virtual, 0, PageCount(size))|
      // The allocator's scratch page is only ever mapped on its own.
      requires PageCount(size) > 1 ==> !InRange(virtual, PageCount(size), Path(scratch)) || ctx != live
      modifies this
      ensures Valid() && mem[live][RECURSIVE_ENTRY] == old(mem)[live][RECURSIVE_ENTRY]
      ensures Grows(old(Now()), Now())
      ensures RangeMapped(mem, ctx, virtual, physical, flags, PageCount(size))
      ensures RangeShows(mem, ctx, virtual, physical, flags, size)
      ensures RangeOnly(old(Now()), Now(), ctx, virtual, PageCount(size), live, Path(scratch))
      ensures forall g: nat :: Idle(Now(), g) ==> Idle(old(Now()), g)
    {
      hide Sound, Grows, Idle, Path, SameExcept, SameLinks, Translate, Reach, Root, NewOnly, LeafEntry, OrdinaryPath,
           MissingTables, RangeMapped, RangeOnly, InRange, Missing, Shows, RangeShows;
      PageCountIff(size, 0);
      ghost var a, n := Now(), PageCount(size);
      SameLinksRefl(a);
      FrameOfRoot(a, live, Path(scratch));
      RangeStart(a, ctx, virtual, physical, flags, live, Path(scratch));
      if size == 0 {
        AllShown(mem, ctx, virtual, physical, flags, size);
        return;
      }
      var mapped := 0;
      ghost var k: nat := 0;
      while mapped < size
        invariant mapped == k * PAGE_SIZE && k <= n
        invariant live in mem && |mem[live]| == 512 && live in old(mem) && |old(mem)[live]| == 512
        invariant Valid() && mem[live][RECURSIVE_ENTRY] == old(mem)[live][RECURSIVE_ENTRY]
        invariant Grows(a, Now()) && Root(sh, ctx)
        invariant RangeMapped(mem, ctx, virtual, physical, flags, k)
        invariant RangeOnly(a, Now(), ctx, virtual, k, live, Path(scratch))
        invariant forall g: nat :: Idle(Now(), g) ==> Idle(old(Now()), g)
        invariant |free| >= |MissingTables(mem, ctx, virtual, k, n)|
      {
        PageCountIff(size, k);
        ghost var b := Now();
        RangeReady(b, ctx, virtual, k, n, live, Path(scratch));
        Map(ctx, virtual + mapped, physical + mapped, flags);
        FrameOfRoot(Now(), live, Path(scratch));
        RangeStep(a, b, Now(), ctx, virtual, physical, flags, k, n, live, Path(scratch));
        mapped := mapped + PAGE_SIZE;
        k := k + 1;
      }
      PageCountIff(size, k);
      AllShown(mem, ctx, virtual, physical, flags, size);
    }
  }

  /** Unmapping a page of another context that is not mapped there leaves the live
      recursive slot pointed at that context. */
  method SlotLeft() returns (before: nat, after: nat)
    ensures before == 1 && after == 5
  {
    hide Sound, SameExcept, SameLinks, NewOnly, Idle, Grows, Path, EntryToAddress, Translate, FirstMemory, Missing, Removed;
    var scratch := EntryToAddress(0, 0, 0, 0);
    PathOfEntry(0, 0, 0, 0);
    FirstFive(Path(scratch));
    var mmu := new Mmu(1, 2, 3, 4, 5, scratch, {});
    mmu.ScratchMapped();
    ghost var a := mmu.Now();
    mmu.Map(1, scratch, 0, 3);
    StillUnmapped(a, mmu.Now(), {(1, Path(scratch))} + {}, 5, Path(scratch));
    FrameOfRoot(mmu.Now(), 1, Path(scratch));
    before := mmu.mem[1][RECURSIVE_ENTRY].address;
    mmu.Unmap(5, scratch);
    after := mmu.mem[1][RECURSIVE_ENTRY].address;
  }

  lemma FirstFive(path: seq<nat>)
    requires |path| == 4 && OrdinaryPath(path)
    ensures FirstFrames([1, 2, 3, 4, 5], {})
    ensures var mem := FirstMemory([1, 2, 3, 4, 5], path, {});
            && Translate(mem, 5, path) == None
            && 1 in mem && |mem[1]| == 512 && mem[1][RECURSIVE_ENTRY].address == 1
  {
    var tables := [1, 2, 3, 4, 5];
    assert FirstFrames(tables, {});
    FirstChild(tables, path, {}, 5, path[0]);
    assert path[..1][..0] == [] && path[..2][..1] == path[..1] && path[..3][..2] == path[..2];
    var mem := FirstMemory(tables, path, {});
    assert Reach(mem, 5, path[..1]) == None;
    assert Reach(mem, 5, path[..2]) == None;
    assert Reach(mem, 5, path[..3]) == None;
  }

  lemma StillUnmapped(a: Moment, b: Moment, ex: set<(nat, seq<nat>)>, r: nat, path: seq<nat>)
    requires SameExcept(a, b, ex) && Grows(a, b) && Root(a.sh, r) && OrdinaryPath(path) && |path| == 4
    requires (r, path) !in ex && Translate(a.mem, r, path) == None
    ensures Translate(b.mem, r, path) == None && Root(b.sh, r)
  {}

  ghost predicate OrdinaryRange(virtual: nat, n: nat) {
    forall k: nat :: k < n ==> OrdinaryPath(PagePath(virtual, k))
  }

  ghost predicate InRange(virtual: nat, n: nat, path: seq<nat>) {
    exists k: nat :: k < n && PagePath(virtual, k) == path
  }

  /** Page k of the range translates to the k-th frame. */
  ghost predicate RangeMapped(mem: Memory, ctx: nat, virtual: nat, physical: nat, flags: nat, n: nat) {
    forall k: nat :: k < n ==>
      Translate(mem, ctx, PagePath(virtual, k)) == Some(LeafEntry(physical + k * PAGE_SIZE, flags))
  }

  lemma AllShown(mem: Memory, ctx: nat, virtual: nat, physical: nat, flags: nat, size: nat)
    requires RangeMapped(mem, ctx, virtual, physical, flags, PageCount(size))
    ensures RangeShows(mem, ctx, virtual, physical, flags, size)
  {
    hide LeafEntry, PageCount, Translate, PagePath;
    forall k: nat | k * 4096 < size
      ensures Shows(Translate(mem, ctx, PagePath(virtual, k)), physical + k * 4096, flags)
    {
      PageCountIff(size, k);
      LeafShows(physical + k * PAGE_SIZE, flags);
    }
  }

  /** Every page of every context outside the range translates as before, except
      the allocator's scratch page. */
  ghost predicate RangeOnly(a: Moment, b: Moment, ctx: nat, virtual: nat, n: nat, live: nat, scratch: seq<nat>) {
    forall r: nat, path: seq<nat> :: Root(a.sh, r) && OrdinaryPath(path) && |path| == 4 ==>
      (r, path) == (live, scratch) || (r == ctx && InRange(virtual, n, path))
      || Translate(b.mem, r, path) == Translate(a.mem, r, path)
  }

  lemma RangeStart(a: Moment, ctx: nat, virtual: nat, physical: nat, flags: nat, live: nat, scratch: seq<nat>)
    ensures RangeMapped(a.mem, ctx, virtual, physical, flags, 0)
    ensures RangeOnly(a, a, ctx, virtual, 0, live, scratch)
  {}

  /** Distinct pages less than 2^48 bytes apart have distinct paths. */
  lemma PagesDiffer(virtual: nat, j: nat, k: nat)
    requires j < k < j + 0x10_0000_0000
    ensures PagePath(virtual, j) != PagePath(virtual, k)
  {
    hide Path;
    var x, y := virtual + j * PAGE_SIZE, virtual + k * PAGE_SIZE;
    PathDigits(x);
    PathDigits(y);
    PageNumber(x);
    PageNumber(y);
    assert y / 0x1000 == x / 0x1000 + (k - j);
    ModDiffers(x / 0x1000, k - j);
  }

  lemma ModDiffers(n: nat, d: nat)
    requires 0 < d < 0x10_0000_0000
    ensures n % 0x10_0000_0000 != (n + d) % 0x10_0000_0000
  {}

  /** The four indices are the digits of the page number. */
  lemma PageNumber(x: nat)
    ensures (x / 0x1000) % 0x10_0000_0000 ==
            x / 0x80_0000_0000 % 512 * 0x800_0000 + x / 0x4000_0000 % 512 * 0x4_0000
            + x / 0x20_0000 % 512 * 512 + x / 0x1000 % 512
  {
    var n := x / 0x1000;
    assert x / 0x20_0000 == n / 512 && x / 0x4000_0000 == n / 0x4_0000 && x / 0x80_0000_0000 == n / 0x800_0000;
    assert n / 0x4_0000 == n / 512 / 512 && n / 0x800_0000 == n / 0x4_0000 / 512 && n / 0x10_0000_0000 == n / 0x800_0000 / 512;
  }

  lemma RangeReady(a: Moment, ctx: nat, virtual: nat, k: nat, n: nat, live: nat, scratch: seq<nat>)
    requires Sound(a, live, scratch) && Root(a.sh, ctx) && OrdinaryRange(virtual, n) && k < n
    requires |a.free| >= |MissingTables(a.mem, ctx, virtual, k, n)|
    ensures OrdinaryPath(PagePath(virtual, k))
    ensures |a.free| >= Missing(a.mem, ctx, PagePath(virtual, k))
  {
    PagePathsMissing(a.mem, ctx, virtual, k, n);
    SubsetSize(PathsMissing(a.mem, ctx, PagePath(virtual, k)), MissingTables(a.mem, ctx, virtual, k, n));
    PathsMissingSize(a.mem, ctx, PagePath(virtual, k));
  }

  /** The missing tables of one page. */
  ghost function PathsMissing(mem: Memory, ctx: nat, path: seq<nat>): set<seq<nat>>
    requires |path| == 4
  {
    set j: nat | 1 <= j <= 3 && Reach(mem, ctx, path[..j]) == None :: path[..j]
  }

  lemma PathsMissingSize(mem: Memory, ctx: nat, path: seq<nat>)
    requires |path| == 4
    ensures |PathsMissing(mem, ctx, path)| == Missing(mem, ctx, path)
  {
    var m := Missing(mem, ctx, path);
    assert path[..2][..1] == path[..1] && path[..3][..2] == path[..2];
    var all := if m == 3 then {path[..1], path[..2], path[..3]} else if m == 2 then {path[..2], path[..3]}
               else if m == 1 then {path[..3]} else {};
    assert |path[..1]| == 1 && |path[..2]| == 2 && |path[..3]| == 3;
    forall q | q in all
      ensures q in PathsMissing(mem, ctx, path)
    {
      assert q == path[..|q|];
    }
    assert PathsMissing(mem, ctx, path) == all;
  }

  lemma PagePathsMissing(mem: Memory, ctx: nat, virtual: nat, k: nat, n: nat)
    requires k < n
    ensures PathsMissing(mem, ctx, PagePath(virtual, k)) <= MissingTables(mem, ctx, virtual, k, n)
  {}

  lemma {:induction false} SubsetSize<T>(a: set<T>, b: set<T>)
    requires a <= b
    ensures |a| <= |b|
  {
    if a != {} {
      var x :| x in a;
      SubsetSize(a - {x}, b - {x});
    }
  }

  lemma RangeStep(a: Moment, b: Moment, c: Moment, ctx: nat, virtual: nat, physical: nat, flags: nat,
                  k: nat, n: nat, live: nat, scratch: seq<nat>)
    requires Grows(a, b) && Grows(b, c) && Root(b.sh, ctx) && Sound(b, live, scratch) && Sound(c, live, scratch)
    requires k < n <= 0x10_0000_0000 && OrdinaryRange(virtual, n) && (n > 1 ==> !InRange(virtual, n, scratch) || ctx != live)
    requires RangeMapped(b.mem, ctx, virtual, physical, flags, k) && RangeOnly(a, b, ctx, virtual, k, live, scratch)
    requires Translate(c.mem, ctx, PagePath(virtual, k)) == Some(LeafEntry(physical + k * PAGE_SIZE, flags))
    requires var m := Missing(b.mem, ctx, PagePath(virtual, k));
             && SameExcept(b, c, {(ctx, PagePath(virtual, k))} + (if m > 0 then {(live, scratch)} else {}))
             && |b.free| >= |MissingTables(b.mem, ctx, virtual, k, n)| && |c.free| == |b.free| - m
    ensures Grows(a, c) && Root(c.sh, ctx)
    ensures RangeMapped(c.mem, ctx, virtual, physical, flags, k + 1) && RangeOnly(a, c, ctx, virtual, k + 1, live, scratch)
    ensures |c.free| >= |MissingTables(c.mem, ctx, virtual, k + 1, n)|
  {
    GrowsTransitive(a, b, c);
    GrowsRoot(b, c, ctx);
    RangeMappedStep(b, c, ctx, virtual, physical, flags, k, n, live, scratch);
    RangeOnlyStep(a, b, c, ctx, virtual, k, live, scratch);
    RangeFrames(b, c, ctx, virtual, k, n, live, scratch);
  }

  lemma RangeMappedStep(b: Moment, c: Moment, ctx: nat, virtual: nat, physical: nat, flags: nat,
                        k: nat, n: nat, live: nat, scratch: seq<nat>)
    requires k < n <= 0x10_0000_0000 && OrdinaryRange(virtual, n) && (n > 1 ==> !InRange(virtual, n, scratch) || ctx != live)
    requires Root(b.sh, ctx) && RangeMapped(b.mem, ctx, virtual, physical, flags, k)
    requires Translate(c.mem, ctx, PagePath(virtual, k)) == Some(LeafEntry(physical + k * PAGE_SIZE, flags))
    requires SameExcept(b, c, {(ctx, PagePath(virtual, k)), (live, scratch)})
             || SameExcept(b, c, {(ctx, PagePath(virtual, k))} + {})
             || SameExcept(b, c, {(ctx, PagePath(virtual, k))} + {(live, scratch)})
    ensures RangeMapped(c.mem, ctx, virtual, physical, flags, k + 1)
  {
    hide Translate, LeafEntry, PagePath, OrdinaryPath;
    forall j: nat | j < k + 1
      ensures Translate(c.mem, ctx, PagePath(virtual, j)) == Some(LeafEntry(physical + j * PAGE_SIZE, flags))
    {
      if j < k {
        PagesDiffer(virtual, j, k);
        assert OrdinaryPath(PagePath(virtual, j));
      }
    }
  }

  lemma RangeOnlyStep(a: Moment, b: Moment, c: Moment, ctx: nat, virtual: nat, k: nat, live: nat, scratch: seq<nat>)
    requires Grows(a, b) && RangeOnly(a, b, ctx, virtual, k, live, scratch)
    requires SameExcept(b, c, {(ctx, PagePath(virtual, k))} + {})
             || SameExcept(b, c, {(ctx, PagePath(virtual, k))} + {(live, scratch)})
    ensures RangeOnly(a, c, ctx, virtual, k + 1, live, scratch)
  {
    hide Translate, PagePath, OrdinaryPath;
    forall r: nat, path: seq<nat> | Root(a.sh, r) && OrdinaryPath(path) && |path| == 4
      ensures (r, path) == (live, scratch) || (r == ctx && InRange(virtual, k + 1, path))
              || Translate(c.mem, r, path) == Translate(a.mem, r, path)
    {
      assert InRange(virtual, k, path) ==> InRange(virtual, k + 1, path);
      assert path == PagePath(virtual, k) ==> InRange(virtual, k + 1, path);
      assert Root(b.sh, r);
    }
  }

  /** A table missing after a page was mapped was missing before, and is none of
      that page's own. */
  lemma FrameStillMissing(b: Moment, c: Moment, ctx: nat, other: seq<nat>, j: nat, path: seq<nat>, live: nat, scratch: seq<nat>)
    requires Sound(b, live, scratch) && Grows(b, c) && Root(b.sh, ctx)
    requires OrdinaryPath(other) && |other| == 4 && 1 <= j <= 3 && |path| == 4
    requires Reach(c.mem, ctx, other[..j]) == None && Reach(c.mem, ctx, path[..3]).Some?
    ensures Reach(b.mem, ctx, other[..j]) == None
    ensures other[..j] !in PathsMissing(b.mem, ctx, path)
  {
    PathPrefix(other);
    if Reach(b.mem, ctx, other[..j]).Some? {
      GrowsReach(b, c, ctx, other[..j]);
    }
    forall i: nat | 1 <= i <= 3
      ensures other[..j] == path[..i] ==> Reach(b.mem, ctx, path[..i]).Some?
    {
      ReachPrefix(c.mem, ctx, path[..3], i);
      assert path[..3][..i] == path[..i];
    }
  }

  /** The frames left are enough for the tables still missing. */
  lemma RangeFrames(b: Moment, c: Moment, ctx: nat, virtual: nat, k: nat, n: nat, live: nat, scratch: seq<nat>)
    requires Sound(b, live, scratch) && Grows(b, c) && Root(b.sh, ctx) && k < n && OrdinaryRange(virtual, n)
    requires Translate(c.mem, ctx, PagePath(virtual, k)).Some?
    requires |b.free| >= |MissingTables(b.mem, ctx, virtual, k, n)|
    requires |c.free| == |b.free| - Missing(b.mem, ctx, PagePath(virtual, k))
    ensures |c.free| >= |MissingTables(c.mem, ctx, virtual, k + 1, n)|
  {
    hide Sound, Grows, Reach, Missing;
    var path := PagePath(virtual, k);
    var before, now := MissingTables(b.mem, ctx, virtual, k, n), MissingTables(c.mem, ctx, virtual, k + 1, n);
    var here := PathsMissing(b.mem, ctx, path);
    PagePathsMissing(b.mem, ctx, virtual, k, n);
    PathsMissingSize(b.mem, ctx, path);
    forall q | q in now
      ensures q in before - here
    {
      var i: nat, j: nat :|
        && k + 1 <= i < n && 1 <= j <= 3
        && Reach(c.mem, ctx, PagePath(virtual, i)[..j]) == None && q == PagePath(virtual, i)[..j];
      FrameStillMissing(b, c, ctx, PagePath(virtual, i), j, path, live, scratch);
    }
    SubsetSize(now, before - here);
    assert |before - here| == |before| - |here|;
  }

  /** Every entry of f other than i is absent. */
  ghost predicate Alone(mem: Memory, f: Option<nat>, i: nat) {
    f.Some? && forall j: nat :: j < 512 && j != i ==> Child(mem, f.value, j) == None
  }

  /** The tables that unmapping one page leaves without a present entry. */
  ghost function Emptied(mem: Memory, ctx: nat, path: seq<nat>): set<nat>
    requires |path| == 4
  {
    var pdpt, pd, pt := Reach(mem, ctx, path[..1]), Reach(mem, ctx, path[..2]), Reach(mem, ctx, path[..3]);
    if !Alone(mem, pt, path[3]) then {}
    else if !Alone(mem, pd, path[2]) then {pt.value}
    else if !Alone(mem, pdpt, path[1]) then {pt.value, pd.value}
    else {pt.value, pd.value, pdpt.value}
  }

  /** What unmapping a mapped page does: its translation goes, and exactly the
      tables it leaves empty; every frame is still a table or free; and no table
      is left empty that was not empty before. */
  ghost predicate Removed(a: Moment, b: Moment, live: nat, scratch: seq<nat>, ctx: nat, path: seq<nat>) {
    && |path| == 4 && Translate(b.mem, ctx, path) == None && KeepsRoots(a, b)
    && var gone := Emptied(a.mem, ctx, path);
    && gone <= a.sh.level.Keys && b.sh.level.Keys == a.sh.level.Keys - gone && b.free == a.free + gone
    && SameExcept(a, b, {(ctx, path)} + (if gone != {} then {(live, scratch)} else {}))
    && b.free + b.sh.level.Keys == a.free + a.sh.level.Keys
    && (forall g: nat :: Idle(b, g) ==> Idle(a, g))
  }

  /** The leaf entry of one page cleared. */
  ghost predicate Cleared(a: Moment, b: Moment, ctx: nat, path: seq<nat>) {
    && |path| == 4 && b.sh == a.sh && b.free == a.free
    && SameLinks(a, b) && SameTables(a.mem, b.mem, a.sh) && SameExcept(a, b, {(ctx, path)})
    && Translate(b.mem, ctx, path) == None
    && Reach(a.mem, ctx, path[..3]).Some?
    && var t := Reach(a.mem, ctx, path[..3]).value;
    && t in b.mem && (EmptyTable(b.mem[t]) <==> Alone(a.mem, Some(t), path[3]))
    && (forall g: nat :: Idle(b, g) ==> Idle(a, g) || g == t)
  }

  /** What one release step does: nothing unless the table behind the entry was
      empty; then the tree loses it and the free frames gain it. */
  ghost predicate Released(a: Moment, b: Moment, live: nat, scratch: seq<nat>, ctx: nat, p: seq<nat>, index: nat) {
    && Reach(a.mem, ctx, p).Some? && Reach(a.mem, ctx, p + [index]).Some?
    && var t, c := Reach(a.mem, ctx, p).value, Reach(a.mem, ctx, p + [index]).value;
    && c in a.mem
    && if EmptyTable(a.mem[c]) then
         && b.sh == UnlinkShape(a.sh, c) && b.free == a.free + {c} && c in a.sh.level && a.sh.level[c] < 4 && c != t
         && SameExcept(a, b, {(live, scratch)})
         && Reach(b.mem, ctx, p) == Reach(a.mem, ctx, p)
         && (forall f: nat, i: nat :: Inner(b.sh, f, i) ==>
               Child(b.mem, f, i) == if (f, i) == (t, index) then None else Child(a.mem, f, i))
         && (forall g: nat :: Idle(b, g) ==> (Idle(a, g) && g != c) || g == t)
       else b == a
  }

  lemma FrameKept(a: Moment, b: Moment, live: nat, scratch: seq<nat>, frame: nat)
    requires Sound(a, live, scratch) && Sound(b, live, scratch) && SameLinks(a, b)
    requires frame in a.sh.level
    ensures frame in b.mem && |b.mem[frame]| == 512
  {}

  lemma FrameOfRoot(a: Moment, live: nat, scratch: seq<nat>)
    requires Sound(a, live, scratch)
    ensures Root(a.sh, live) && OrdinaryPath(scratch) && live in a.mem && |a.mem[live]| == 512
  {}

  lemma ReleaseStart(a: Moment, live: nat, scratch: seq<nat>, ctx: nat, p: seq<nat>, index: nat)
    requires Sound(a, live, scratch) && Aimed(a, live, ctx)
    requires |p| <= 2 && OrdinaryPath(p + [index]) && Reach(a.mem, ctx, p + [index]).Some?
    ensures Child(a.mem, live, RECURSIVE_ENTRY) == Some(ctx) && Child(a.mem, ctx, RECURSIVE_ENTRY) == Some(ctx)
    ensures live in a.mem && |a.mem[live]| == 512
    ensures Reach(a.mem, ctx, p).Some? && OrdinaryPath(p)
    ensures var t, c := Reach(a.mem, ctx, p).value, Reach(a.mem, ctx, p + [index]).value;
            && t in a.mem && |a.mem[t]| == 512 && a.mem[t][index].address == c && Child(a.mem, t, index) == Some(c)
            && c in a.mem && |a.mem[c]| == 512 && Owned(a.sh, c, t, index) && Inner(a.sh, t, index) && c != t
            && a.sh.level[c] == 3 - |p|
    ensures !EmptyTable(a.mem[Reach(a.mem, ctx, p + [index]).value]) ==> Released(a, a, live, scratch, ctx, p, index)
  {
    assert (p + [index])[..|p|] == p;
    EnsureStart(a, live, scratch, ctx, p, index);
    ReachLevel(a.mem, a.sh, ctx, p + [index]);
  }

  /** A table found empty is still empty after the scratch page was remapped. */
  lemma StillEmpty(a: Moment, b: Moment, live: nat, scratch: seq<nat>, ctx: nat, q: seq<nat>)
    requires Sound(a, live, scratch) && Sound(b, live, scratch) && SameLinks(a, b)
    requires SameExcept(a, b, {(live, scratch)}) && Translate(a.mem, live, scratch).Some?
    requires Root(a.sh, ctx) && 1 <= |q| <= 3 && OrdinaryPath(q) && Reach(a.mem, ctx, q).Some?
    requires Reach(a.mem, ctx, q).value in a.mem && EmptyTable(a.mem[Reach(a.mem, ctx, q).value])
    ensures Reach(b.mem, ctx, q) == Reach(a.mem, ctx, q)
    ensures var c := Reach(a.mem, ctx, q).value; c in b.mem && |b.mem[c]| == 512 && EmptyTable(b.mem[c])
  {
    hide Tree, SameTables;
    TablesAgree(a.mem, b.mem, a.sh);
    TreeTables(a.mem, a.sh);
    TreeTables(b.mem, b.sh);
    ReachLevel(a.mem, a.sh, ctx, q);
    var c := Reach(a.mem, ctx, q).value;
    SameReach(a.mem, b.mem, a.sh, ctx, q);
    forall i | 0 <= i < 512
      ensures !b.mem[c][i].present
    {
      if |q| < 3 {
        assert Inner(a.sh, c, i);
        assert Child(a.mem, c, i) == None;
      } else {
        var path := q + [i];
        assert path[..3] == q && OrdinaryPath(path);
        assert Translate(a.mem, ctx, path) == None;
        assert Translate(b.mem, ctx, path) == None;
      }
    }
  }

  lemma SameReach(mem: Memory, mem': Memory, sh: Shape, r: nat, path: seq<nat>)
    requires SameTables(mem, mem', sh) && Root(sh, r) && OrdinaryPath(path) && |path| <= 3
    ensures Reach(mem', r, path) == Reach(mem, r, path)
  {}

  lemma AimedKept(a: Moment, b: Moment, live: nat, scratch: seq<nat>, ctx: nat)
    requires Aimed(a, live, ctx) && Sound(b, live, scratch) && b.sh == a.sh
    requires live in b.mem && |b.mem[live]| == 512 && b.mem[live][RECURSIVE_ENTRY] == a.mem[live][RECURSIVE_ENTRY]
    ensures Aimed(b, live, ctx)
  {}

  /** Clearing the entry of an empty table, whose frame goes back to the allocator. */
  lemma UnlinkMoment(a: Moment, live: nat, ctx: nat, scratch: seq<nat>, t: nat, index: nat, c: nat, junk: seq<Entry>)
    requires Sound(a, live, scratch) && Aimed(a, live, ctx) && Translate(a.mem, live, scratch).Some?
    requires CanUnlink(a.mem, a.sh, t, index, c) && |junk| == 512 && Inner(a.sh, t, index)
    ensures c != t && c in a.sh.level && t in a.mem && index < |a.mem[t]|
    ensures var b := Moment(Unlinked(a.mem, t, index, c, junk), UnlinkShape(a.sh, c), a.free + {c});
            && Sound(b, live, scratch) && Aimed(b, live, ctx) && Translate(b.mem, live, scratch).Some?
            && live in a.mem && |a.mem[live]| == 512
            && b.mem[live][RECURSIVE_ENTRY] == a.mem[live][RECURSIVE_ENTRY]
            && SameExcept(a, b, {})
            && (forall f: nat, i: nat :: Inner(b.sh, f, i) ==>
                  Child(b.mem, f, i) == if (f, i) == (t, index) then None else Child(a.mem, f, i))
            && (forall g: nat :: Idle(b, g) ==> (Idle(a, g) && g != c) || g == t)
  {
    hide Tree, Reach, EmptyTable;
    UnlinkFacts(a.mem, a.sh, t, index, c);
    var b := Moment(Unlinked(a.mem, t, index, c, junk), UnlinkShape(a.sh, c), a.free + {c});
    TreeTables(a.mem, a.sh);
    UnlinkTree(a.mem, a.sh, t, index, c, junk);
    UnlinkTranslation(a.mem, a.sh, t, index, c, junk);
    PathPrefix(scratch);
    UnlinkReach(a.mem, a.sh, t, index, c, junk, live, scratch[..3]);
    forall f: nat, i: nat | Inner(b.sh, f, i)
      ensures Child(b.mem, f, i) == if (f, i) == (t, index) then None else Child(a.mem, f, i)
    {
      UnlinkChild(a.mem, a.sh, t, index, c, junk, f, i);
    }
    UnlinkSelfMaps(a, live, t, index, c, junk);
  }

  lemma UnlinkSelfMaps(a: Moment, live: nat, t: nat, index: nat, c: nat, junk: seq<Entry>)
    requires TablesOk(a.mem, a.sh) && SelfMaps(a.mem, a.sh, live) && Inner(a.sh, t, index) && c != t
    requires c in a.sh.level && a.sh.level[c] < 4
    ensures SelfMaps(Unlinked(a.mem, t, index, c, junk), UnlinkShape(a.sh, c), live)
    ensures forall r: nat :: Root(a.sh, r) ==>
              r in a.mem && |a.mem[r]| == 512
              && Unlinked(a.mem, t, index, c, junk)[r][RECURSIVE_ENTRY] == a.mem[r][RECURSIVE_ENTRY]
  {}

  lemma ReleaseMoment(a: Moment, a1: Moment, live: nat, scratch: seq<nat>, ctx: nat, p: seq<nat>, index: nat, junk: Entry)
    requires Sound(a, live, scratch) && Aimed(a, live, ctx) && Sound(a1, live, scratch) && SameLinks(a, a1)
    requires SameExcept(a, a1, {(live, scratch)}) && forall g: nat :: Idle(a1, g) ==> Idle(a, g)
    requires Translate(a.mem, live, scratch).Some? && Translate(a1.mem, live, scratch).Some?
    requires live in a.mem && |a.mem[live]| == 512 && live in a1.mem && |a1.mem[live]| == 512
    requires a1.mem[live][RECURSIVE_ENTRY] == a.mem[live][RECURSIVE_ENTRY]
    requires |p| <= 2 && OrdinaryPath(p + [index]) && Reach(a.mem, ctx, p + [index]).Some?
    requires Reach(a.mem, ctx, p + [index]).value in a.mem && EmptyTable(a.mem[Reach(a.mem, ctx, p + [index]).value])
    ensures Reach(a.mem, ctx, p).Some?
    ensures var t, c := Reach(a.mem, ctx, p).value, Reach(a.mem, ctx, p + [index]).value;
            && c in a1.mem && |a1.mem[c]| == 512
            && var m := Put(a1.mem, c, 0, junk);
            && t in m && |m[t]| == 512
            && Child(m, live, RECURSIVE_ENTRY) == Some(ctx) && Child(m, ctx, RECURSIVE_ENTRY) == Some(ctx)
            && Reach(m, ctx, p) == Some(t)
            && var b := Moment(Put(m, t, index, ZERO), UnlinkShape(a.sh, c), a.free + {c});
            && Sound(b, live, scratch) && Aimed(b, live, ctx) && Translate(b.mem, live, scratch).Some?
            && b.mem[live][RECURSIVE_ENTRY] == a.mem[live][RECURSIVE_ENTRY]
            && Released(a, b, live, scratch, ctx, p, index)
  {
    hide Translate, Tree, SameExcept, Idle, Reach, EmptyTable, Sound, Aimed, OrdinaryPath;
    ReleaseStart(a, live, scratch, ctx, p, index);
    AimedRoot(a, live, ctx);
    StillEmpty(a, a1, live, scratch, ctx, p + [index]);
    AimedKept(a, a1, live, scratch, ctx);
    ReleaseStart(a1, live, scratch, ctx, p, index);
    var t, c := Reach(a1.mem, ctx, p).value, Reach(a1.mem, ctx, p + [index]).value;
    ReleaseJunk(a1, live, scratch, ctx, p, index, junk);
    UnlinkMoment(a1, live, ctx, scratch, t, index, c, a1.mem[c][0 := junk]);
    var b := Moment(Unlinked(a1.mem, t, index, c, a1.mem[c][0 := junk]), UnlinkShape(a.sh, c), a.free + {c});
    ReleaseEnd(a, a1, b, live, scratch, ctx, p, index, a1.mem[c][0 := junk]);
  }

  /** The link word in the freed frame does not disturb the walk to its parent. */
  lemma ReleaseJunk(a: Moment, live: nat, scratch: seq<nat>, ctx: nat, p: seq<nat>, index: nat, junk: Entry)
    requires Sound(a, live, scratch) && Aimed(a, live, ctx)
    requires |p| <= 2 && OrdinaryPath(p + [index]) && Reach(a.mem, ctx, p + [index]).Some?
    requires var c := Reach(a.mem, ctx, p + [index]).value; c in a.mem && |a.mem[c]| == 512 && EmptyTable(a.mem[c])
    ensures Reach(a.mem, ctx, p).Some?
    ensures var t, c := Reach(a.mem, ctx, p).value, Reach(a.mem, ctx, p + [index]).value;
            && CanUnlink(a.mem, a.sh, t, index, c) && Inner(a.sh, t, index) && c != t
            && var m := Put(a.mem, c, 0, junk);
            && t in m && |m[t]| == 512 && Reach(m, ctx, p) == Some(t)
            && Child(m, live, RECURSIVE_ENTRY) == Some(ctx) && Child(m, ctx, RECURSIVE_ENTRY) == Some(ctx)
  {
    hide Reach, EmptyTable;
    ReleaseStart(a, live, scratch, ctx, p, index);
    EnsureStart(a, live, scratch, ctx, p, index);
    PutUnder(a.mem, a.sh, ctx, p, Reach(a.mem, ctx, p + [index]).value, 0, junk);
  }

  lemma ReleaseEnd(a: Moment, a1: Moment, b: Moment, live: nat, scratch: seq<nat>, ctx: nat, p: seq<nat>, index: nat,
                   junk: seq<Entry>)
    requires SameLinks(a, a1) && SameExcept(a, a1, {(live, scratch)}) && SameExcept(a1, b, {})
    requires Reach(a.mem, ctx, p).Some? && Reach(a.mem, ctx, p + [index]).Some? && Root(a.sh, ctx)
    requires |p| <= 2 && OrdinaryPath(p)
    requires Reach(a1.mem, ctx, p) == Reach(a.mem, ctx, p)
    requires var t, c := Reach(a.mem, ctx, p).value, Reach(a.mem, ctx, p + [index]).value;
             && c in a.mem && EmptyTable(a.mem[c]) && c in a.sh.level && a.sh.level[c] < 4 && c != t
             && CanUnlink(a1.mem, a1.sh, t, index, c) && t in a1.mem && index < |a1.mem[t]|
             && b == Moment(Unlinked(a1.mem, t, index, c, junk), UnlinkShape(a.sh, c), a.free + {c})
             && (forall f: nat, i: nat :: Inner(b.sh, f, i) ==>
                   Child(b.mem, f, i) == if (f, i) == (t, index) then None else Child(a1.mem, f, i))
             && (forall g: nat :: Idle(b, g) ==> (Idle(a1, g) && g != c) || g == t)
    requires forall g: nat :: Idle(a1, g) ==> Idle(a, g)
    ensures Released(a, b, live, scratch, ctx, p, index)
  {
    hide Reach, EmptyTable, Translate, Tree, Idle, OrdinaryPath;
    var t, c := Reach(a.mem, ctx, p).value, Reach(a.mem, ctx, p + [index]).value;
    UnlinkReach(a1.mem, a1.sh, t, index, c, junk, ctx, p);
    forall f: nat, i: nat | Inner(b.sh, f, i)
      ensures Child(b.mem, f, i) == if (f, i) == (t, index) then None else Child(a.mem, f, i)
    {
      assert Inner(a.sh, f, i);
    }
  }

  /** The steps of a walk, one level at a time. */
  lemma WalkDown(a: Moment, live: nat, scratch: seq<nat>, ctx: nat, path: seq<nat>)
    requires Sound(a, live, scratch) && Root(a.sh, ctx) && OrdinaryPath(path) && |path| == 4
    ensures Reach(a.mem, ctx, []) == Some(ctx)
    ensures forall k :: 0 <= k <= 3 && Reach(a.mem, ctx, path[..k]).Some? ==>
              var t := Reach(a.mem, ctx, path[..k]).value;
              t in a.mem && |a.mem[t]| == 512 && path[k] < 512
    ensures forall k :: 0 <= k < 3 ==> Reach(a.mem, ctx, path[..k + 1]) == Next(a.mem, Reach(a.mem, ctx, path[..k]), path[k])
    ensures path[..0] == []
  {
    PathPrefix(path);
    forall k | 0 <= k <= 3 && Reach(a.mem, ctx, path[..k]).Some?
      ensures var t := Reach(a.mem, ctx, path[..k]).value;
              t in a.mem && |a.mem[t]| == 512 && path[k] < 512
    {
      ReachLevel(a.mem, a.sh, ctx, path[..k]);
    }
    forall k | 0 <= k < 3
      ensures Reach(a.mem, ctx, path[..k + 1]) == Next(a.mem, Reach(a.mem, ctx, path[..k]), path[k])
    {
      assert path[..k + 1][..k] == path[..k];
    }
  }

  lemma ClearMoment(a: Moment, live: nat, scratch: seq<nat>, ctx: nat, path: seq<nat>)
    requires Sound(a, live, scratch) && Aimed(a, live, ctx) && OrdinaryPath(path) && |path| == 4
    requires Reach(a.mem, ctx, path[..3]).Some?
    ensures var t := Reach(a.mem, ctx, path[..3]).value;
            t in a.mem && |a.mem[t]| == 512 && Cleared(a, a.(mem := Put(a.mem, t, path[3], ZERO)), ctx, path)
  {
    LeafMoment(a, live, scratch, ctx, path, ZERO);
    var t := Reach(a.mem, ctx, path[..3]).value;
    var b := a.(mem := Put(a.mem, t, path[3], ZERO));
    hide Sound, Aimed, Reach, OrdinaryPath, SameLinks, SameTables, SameExcept, Translate;
    if Alone(a.mem, Some(t), path[3]) {
      forall j | 0 <= j < 512
        ensures !b.mem[t][j].present
      {
        assert j != path[3] ==> Child(a.mem, t, j) == None;
      }
    }
    if EmptyTable(b.mem[t]) {
      forall j: nat | j < 512 && j != path[3]
        ensures Child(a.mem, t, j) == None
      {
        assert b.mem[t][j] == a.mem[t][j];
      }
    }
  }

  lemma SlotSame(a: Moment, b: Moment, live: nat, scratch: seq<nat>, ctx: nat, path: seq<nat>)
    requires Sound(a, live, scratch) && Sound(b, live, scratch) && SameLinks(a, b) && SameTables(a.mem, b.mem, a.sh)
    requires SameExcept(a, b, {}) && Root(a.sh, ctx) && OrdinaryPath(path) && |path| == 4
    ensures Translate(b.mem, ctx, path) == Translate(a.mem, ctx, path)
    ensures Translate(b.mem, live, scratch) == Translate(a.mem, live, scratch)
  {}

  ghost predicate KeepsRoots(a: Moment, b: Moment) {
    forall r: nat :: Root(a.sh, r) ==> Root(b.sh, r)
  }

  lemma SameOnRoots(a: Moment, b: Moment, c: Moment, ex: set<(nat, seq<nat>)>, ex': set<(nat, seq<nat>)>)
    requires KeepsRoots(a, b) && SameExcept(a, b, ex) && SameExcept(b, c, ex')
    ensures SameExcept(a, c, ex + ex')
  {}

  lemma MappedTables(a: Moment, live: nat, scratch: seq<nat>, ctx: nat, path: seq<nat>)
    requires Sound(a, live, scratch) && Aimed(a, live, ctx) && OrdinaryPath(path) && |path| == 4
    requires Translate(a.mem, ctx, path).Some?
    ensures OrdinaryPath(path[..3]) && OrdinaryPath(path[..2]) && OrdinaryPath(path[..1])
    ensures Reach(a.mem, ctx, path[..3]).Some? && Reach(a.mem, ctx, path[..2]).Some? && Reach(a.mem, ctx, path[..1]).Some?
    ensures Reach(a.mem, ctx, []) == Some(ctx) && Root(a.sh, ctx)
    ensures live in a.mem && |a.mem[live]| == 512
  {
    PathPrefix(path);
    ReachPrefix(a.mem, ctx, path[..3], 2);
    ReachPrefix(a.mem, ctx, path[..3], 1);
    assert path[..3][..2] == path[..2] && path[..3][..1] == path[..1];
  }

  lemma LevelOne(a: Moment, live: nat, scratch: seq<nat>, ctx: nat, path: seq<nat>)
    requires Sound(a, live, scratch) && Root(a.sh, ctx) && OrdinaryPath(path) && |path| == 4
    requires Reach(a.mem, ctx, path[..3]).Some?
    ensures var pt := Reach(a.mem, ctx, path[..3]).value; pt in a.sh.level && a.sh.level[pt] == 1
  {
    PathPrefix(path);
    ReachLevel(a.mem, a.sh, ctx, path[..3]);
  }

  /** Setting and restoring the recursive slot around a removal changes nothing else. */
  lemma RemovedAround(a: Moment, b: Moment, e: Moment, f: Moment, live: nat, scratch: seq<nat>, ctx: nat, path: seq<nat>)
    requires Sound(a, live, scratch) && Root(a.sh, ctx) && OrdinaryPath(path)
    requires SameBelow(a, b) && SameTables(a.mem, b.mem, a.sh) && SameExcept(a, b, {}) && SameLinks(a, b)
    requires Removed(b, e, live, scratch, ctx, path)
    requires SameLinks(e, f) && SameExcept(e, f, {})
    requires forall g: nat :: Idle(b, g) <==> Idle(a, g)
    requires forall g: nat :: Idle(f, g) <==> Idle(e, g)
    ensures Removed(a, f, live, scratch, ctx, path)
  {
    hide Idle, Translate;
    PathPrefix(path);
    EmptiedSame(a, b, live, scratch, ctx, path);
    var gone := Emptied(a.mem, ctx, path);
    var ex := {(ctx, path)} + (if gone != {} then {(live, scratch)} else {});
    SameOnRoots(a, b, e, {}, ex);
    assert {} + ex == ex && ex + {} == ex;
    SameOnRoots(a, e, f, ex, {});
    assert Root(e.sh, ctx);
  }

  lemma EmptiedSame(a: Moment, b: Moment, live: nat, scratch: seq<nat>, ctx: nat, path: seq<nat>)
    requires Sound(a, live, scratch) && Root(a.sh, ctx) && OrdinaryPath(path) && |path| == 4
    requires SameBelow(a, b) && SameTables(a.mem, b.mem, a.sh)
    ensures Emptied(b.mem, ctx, path) == Emptied(a.mem, ctx, path)
  {
    PathPrefix(path);
    forall k | 1 <= k <= 3 && Reach(a.mem, ctx, path[..k]).Some?
      ensures Alone(b.mem, Reach(a.mem, ctx, path[..k]), path[k]) <==> Alone(a.mem, Reach(a.mem, ctx, path[..k]), path[k])
    {
      ReachLevel(a.mem, a.sh, ctx, path[..k]);
      hide Tree, SelfMaps, Child;
      AloneSame(a, b, Reach(a.mem, ctx, path[..k]).value, path[k]);
    }
  }

  lemma AfterClear(a: Moment, b: Moment, live: nat, scratch: seq<nat>, ctx: nat, path: seq<nat>)
    requires Sound(a, live, scratch) && Aimed(a, live, ctx) && OrdinaryPath(path) && |path| == 4
    requires Translate(a.mem, ctx, path).Some? && Cleared(a, b, ctx, path)
    requires Translate(a.mem, live, scratch).Some? && (ctx, path) != (live, scratch)
    ensures Translate(b.mem, live, scratch).Some?
    ensures Reach(b.mem, ctx, path[..3]) == Reach(a.mem, ctx, path[..3])
    ensures Reach(b.mem, ctx, path[..2]) == Reach(a.mem, ctx, path[..2])
    ensures Reach(b.mem, ctx, path[..1]) == Reach(a.mem, ctx, path[..1])
    ensures Reach(b.mem, ctx, []) == Some(ctx)
  {
    MappedTables(a, live, scratch, ctx, path);
  }

  /** One release step in terms of the parent t and the table c behind its entry. */
  ghost predicate Stepped(a: Moment, b: Moment, live: nat, scratch: seq<nat>, t: nat, c: nat, index: nat) {
    && c in a.mem && c in a.sh.level && t in b.mem && t in a.sh.level && a.sh.level[t] == a.sh.level[c] + 1
    && KeepsRoots(a, b) && a.sh.level[c] < 4
    && var empty := EmptyTable(a.mem[c]);
    && b.sh == (if empty then UnlinkShape(a.sh, c) else a.sh)
    && b.free == a.free + (if empty then {c} else {})
    && SameExcept(a, b, if empty then {(live, scratch)} else {})
    && (forall g: nat :: Idle(b, g) ==> (Idle(a, g) && g != c) || (empty && g == t))
    && (a.sh.level[t] < 4 ==> (EmptyTable(b.mem[t]) <==> empty && Alone(a.mem, Some(t), index)))
    && (forall f: nat, i: nat :: Inner(b.sh, f, i) && f != t ==> Child(b.mem, f, i) == Child(a.mem, f, i))
  }

  lemma AfterRelease(a: Moment, b: Moment, live: nat, scratch: seq<nat>, ctx: nat, p: seq<nat>, index: nat)
    requires Sound(a, live, scratch) && Sound(b, live, scratch) && Aimed(a, live, ctx)
    requires |p| <= 2 && OrdinaryPath(p + [index]) && Reach(a.mem, ctx, p + [index]).Some?
    requires Released(a, b, live, scratch, ctx, p, index)
    ensures Reach(a.mem, ctx, p).Some? && Reach(b.mem, ctx, p) == Reach(a.mem, ctx, p)
    ensures p != [] ==> Reach(b.mem, ctx, p[..|p| - 1]) == Reach(a.mem, ctx, p[..|p| - 1])
    ensures Stepped(a, b, live, scratch, Reach(a.mem, ctx, p).value, Reach(a.mem, ctx, p + [index]).value, index)
  {
    hide Reach, OrdinaryPath, Tree, EmptyTable, Idle;
    ReleaseStart(a, live, scratch, ctx, p, index);
    var t, c := Reach(a.mem, ctx, p).value, Reach(a.mem, ctx, p + [index]).value;
    AimedRoot(a, live, ctx);
    ReachLevel(a.mem, a.sh, ctx, p);
    ReachLevel(b.mem, b.sh, ctx, p);
    hide Owned, Aimed;
    if EmptyTable(a.mem[c]) {
      TreeTables(b.mem, b.sh);
      if a.sh.level[t] < 4 {
        EmptyIff(a, b, t, index);
      }
    } else {
      SameLinksRefl(a);
      NotEmpty(a.mem, t, index);
      forall g: nat | Idle(b, g)
        ensures Idle(a, g) && g != c
      {
        NotIdle(a, c);
      }
    }
  }

  lemma NotEmpty(mem: Memory, t: nat, i: nat)
    requires t in mem && Child(mem, t, i).Some?
    ensures !EmptyTable(mem[t])
  {}

  lemma NotIdle(a: Moment, c: nat)
    requires c in a.mem && !EmptyTable(a.mem[c])
    ensures !Idle(a, c)
  {}

  /** With entry i gone, a table is empty exactly when that entry was alone. */
  lemma EmptyIff(a: Moment, b: Moment, t: nat, i: nat)
    requires t in a.mem && t in b.mem && |b.mem[t]| == 512 && i < 512
    requires forall j: nat :: j < 512 ==> Child(b.mem, t, j) == if j == i then None else Child(a.mem, t, j)
    ensures EmptyTable(b.mem[t]) <==> Alone(a.mem, Some(t), i)
  {
    if Alone(a.mem, Some(t), i) {
      forall j | 0 <= j < 512
        ensures !b.mem[t][j].present
      {
        assert Child(b.mem, t, j) == None;
      }
    }
    if EmptyTable(b.mem[t]) {
      forall j: nat | j < 512 && j != i
        ensures Child(a.mem, t, j) == None
      {
        assert Child(b.mem, t, j) == None;
      }
    }
  }

  lemma AloneSame(a: Moment, b: Moment, f: nat, i: nat)
    requires forall j: nat :: j < 512 ==> Child(b.mem, f, j) == Child(a.mem, f, j)
    ensures Alone(b.mem, Some(f), i) <==> Alone(a.mem, Some(f), i)
  {
    hide Child;
  }

  /** The clearing and the three release steps together. */
  lemma RemoveSum(a: Moment, b: Moment, c: Moment, d: Moment, e: Moment,
                  live: nat, scratch: seq<nat>, ctx: nat, path: seq<nat>, pt: nat, pd: nat, pdpt: nat)
    requires Root(a.sh, ctx) && OrdinaryPath(path) && |path| == 4 && (ctx, path) != (live, scratch)
    requires Reach(a.mem, ctx, path[..3]) == Some(pt) && Reach(a.mem, ctx, path[..2]) == Some(pd)
    requires Reach(a.mem, ctx, path[..1]) == Some(pdpt)
    requires Cleared(a, b, ctx, path)
    requires pt in a.sh.level && a.sh.level[pt] == 1
    requires Stepped(b, c, live, scratch, pd, pt, path[2])
    requires Stepped(c, d, live, scratch, pdpt, pd, path[1])
    requires Stepped(d, e, live, scratch, ctx, pdpt, path[0])
    ensures Removed(a, e, live, scratch, ctx, path)
  {
    hide Reach, EmptyTable, Translate, Idle, OrdinaryPath, Child, Alone, SameTables;
    var e1, e2, e3 := EmptyTable(b.mem[pt]), EmptyTable(c.mem[pd]), EmptyTable(d.mem[pdpt]);
    AloneSame(a, b, pd, path[2]);
    AloneSame(a, b, pdpt, path[1]);
    AloneSame(b, c, pdpt, path[1]);
    var gone := Emptied(a.mem, ctx, path);
    assert gone == (if e1 then {pt} else {}) + (if e2 then {pd} else {}) + (if e3 then {pdpt} else {});
    assert e.free == a.free + gone;
    assert e.sh.level.Keys == a.sh.level.Keys - gone;
    RemoveTranslations(a, b, c, d, e, live, scratch, ctx, path, e1, e2, e3);
    RootsChain(b, c, d);
    RootsChain(b, d, e);
    assert gone == {} <==> !e1;
    assert gone <= a.sh.level.Keys;
    assert KeepsRoots(a, e);
    forall g: nat | Idle(e, g)
      ensures Idle(a, g)
    {
      RootNotIdle(e, ctx);
    }
  }

  lemma RemoveTranslations(a: Moment, b: Moment, c: Moment, d: Moment, e: Moment,
                           live: nat, scratch: seq<nat>, ctx: nat, path: seq<nat>, e1: bool, e2: bool, e3: bool)
    requires Root(a.sh, ctx) && OrdinaryPath(path) && |path| == 4 && (ctx, path) != (live, scratch)
    requires KeepsRoots(a, b) && KeepsRoots(b, c) && KeepsRoots(c, d)
    requires SameExcept(a, b, {(ctx, path)}) && Translate(b.mem, ctx, path) == None
    requires SameExcept(b, c, if e1 then {(live, scratch)} else {})
    requires SameExcept(c, d, if e2 then {(live, scratch)} else {})
    requires SameExcept(d, e, if e3 then {(live, scratch)} else {})
    requires (e3 ==> e2) && (e2 ==> e1)
    ensures SameExcept(a, e, {(ctx, path)} + (if e1 then {(live, scratch)} else {}))
    ensures Translate(e.mem, ctx, path) == None
  {
    hide Translate, OrdinaryPath, Root;
    var x := (live, scratch);
    var s1, s2, s3 := if e1 then {x} else {}, if e2 then {x} else {}, if e3 then {x} else {};
    SameOnRoots(b, c, d, s1, s2);
    assert s1 + s2 == s1 && s1 + s3 == s1;
    RootsChain(b, c, d);
    SameOnRoots(b, d, e, s1, s3);
    SameOnRoots(a, b, e, {(ctx, path)}, s1);
    assert Root(b.sh, ctx);
  }

  lemma RootNotIdle(a: Moment, r: nat)
    requires Root(a.sh, r)
    ensures !Idle(a, r)
  {}

  lemma RootsChain(a: Moment, b: Moment, c: Moment)
    requires KeepsRoots(a, b) && KeepsRoots(b, c)
    ensures KeepsRoots(a, c)
  {}

  lemma IndexBounds(x: nat)
    ensures Pml4Index(x) < 512 && PdptIndex(x) < 512 && PdIndex(x) < 512 && PtIndex(x) < 512
  {
    hide And, Shr;
    IndexAsDigit(x, 39);
    IndexAsDigit(x, 30);
    IndexAsDigit(x, 21);
    IndexAsDigit(x, 12);
  }

  /** The four entry_to_address values and the paths the hardware takes for them. */
  lemma TablePaths(virtual: nat)
    ensures var i4, i3, i2, i1 := Pml4Index(virtual), PdptIndex(virtual), PdIndex(virtual), PtIndex(virtual);
            var r := RECURSIVE_ENTRY;
            && i4 < 512 && i3 < 512 && i2 < 512 && i1 < 512
            && Path(virtual) == [i4, i3, i2, i1]
            && Path(EntryToAddress(r, r, r, r)) == seq(4, _ => RECURSIVE_ENTRY) + []
            && Path(EntryToAddress(r, r, r, i4)) == seq(3, _ => RECURSIVE_ENTRY) + [i4]
            && Path(EntryToAddress(r, r, i4, i3)) == seq(2, _ => RECURSIVE_ENTRY) + [i4, i3]
            && Path(EntryToAddress(r, i4, i3, i2)) == seq(1, _ => RECURSIVE_ENTRY) + [i4, i3, i2]
            && [] + [i4] == [i4] && [i4] + [i3] == [i4, i3] && [i4, i3] + [i2] == [i4, i3, i2]
            && Path(virtual)[..1] == [i4] && Path(virtual)[..2] == [i4, i3] && Path(virtual)[..3] == [i4, i3, i2]
  {
    hide And, Shr, EntryToAddress, Pml4Index, PdptIndex, PdIndex, PtIndex;
    IndexBounds(virtual);
    assert Path(virtual) == [Pml4Index(virtual), PdptIndex(virtual), PdIndex(virtual), PtIndex(virtual)];
    hide Path;
    var i4, i3, i2, r := Pml4Index(virtual), PdptIndex(virtual), PdIndex(virtual), RECURSIVE_ENTRY;
    PathOfEntry(r, r, r, r);
    PathOfEntry(r, r, r, i4);
    PathOfEntry(r, r, i4, i3);
    PathOfEntry(r, i4, i3, i2);
  }

  lemma SameLinksRefl(a: Moment)
    ensures SameLinks(a, a) && Grows(a, a) && SameExcept(a, a, {})
  {}

  lemma MissingSame(a: Moment, b: Moment, live: nat, scratch: seq<nat>, ctx: nat, path: seq<nat>)
    requires Root(a.sh, ctx) && OrdinaryPath(path) && |path| == 4 && SameTables(a.mem, b.mem, a.sh)
    ensures Missing(b.mem, ctx, path) == Missing(a.mem, ctx, path)
  {
    PathPrefix(path);
  }

  lemma AimedSlot(a: Moment, live: nat, ctx: nat)
    requires Aimed(a, live, ctx)
    ensures Root(a.sh, ctx) && live in a.mem && |a.mem[live]| == 512 && a.mem[live][RECURSIVE_ENTRY].address == ctx
    ensures Child(a.mem, live, RECURSIVE_ENTRY) == Some(ctx) && Child(a.mem, ctx, RECURSIVE_ENTRY) == Some(ctx)
  {}

  lemma LeafFields(e: Entry, physical: nat, flags: nat)
    ensures WithFlags(e, flags).(address := physical / PAGE_SIZE % FRAMES) == LeafEntry(physical, flags)
  {}

  /** Writing a leaf entry that is reached from ctx. */
  lemma LeafMoment(a: Moment, live: nat, scratch: seq<nat>, ctx: nat, path: seq<nat>, e: Entry)
    requires Sound(a, live, scratch) && Aimed(a, live, ctx) && OrdinaryPath(path) && |path| == 4
    requires Reach(a.mem, ctx, path[..3]).Some?
    ensures var t := Reach(a.mem, ctx, path[..3]).value;
            && t in a.mem && |a.mem[t]| == 512
            && var b := a.(mem := Put(a.mem, t, path[3], e));
            && Sound(b, live, scratch) && Aimed(b, live, ctx) && Grows(a, b) && SameLinks(a, b)
            && SameExcept(a, b, {(ctx, path)})
            && Translate(b.mem, ctx, path) == (if e.present then Some(e) else None)
            && b.mem[live][RECURSIVE_ENTRY] == a.mem[live][RECURSIVE_ENTRY]
            && (forall g: nat :: Idle(b, g) && e.present ==> Idle(a, g) && g != t)
            && (forall g: nat :: Idle(b, g) ==> Idle(a, g) || g == t)
            && SameTables(a.mem, b.mem, a.sh)
  {
    hide Tree, Reach, SameTables, Idle, Translate;
    LeafEdit(a.mem, a.sh, ctx, path, e);
    TreeTables(a.mem, a.sh);
    var t := Reach(a.mem, ctx, path[..3]).value;
    var b := a.(mem := Put(a.mem, t, path[3], e));
    if e.present {
      NotIdleAfter(a, t, path[3], e);
    }
    IdleElsewhere(a, t, path[3], e);
    hide TablesOk;
    ScratchKept(a, b, live, scratch);
  }

  lemma IdleElsewhere(a: Moment, f: nat, i: nat, e: Entry)
    requires f in a.mem && i < |a.mem[f]|
    ensures forall g: nat :: Idle(a.(mem := Put(a.mem, f, i, e)), g) ==> Idle(a, g) || g == f
  {}

  lemma SameAt(a: Moment, b: Moment, ctx: nat, path: seq<nat>)
    requires SameExcept(a, b, {}) && Root(a.sh, ctx) && OrdinaryPath(path) && |path| == 4
    ensures Translate(b.mem, ctx, path) == Translate(a.mem, ctx, path)
  {}

  lemma Chain(a: Moment, b: Moment, c: Moment, ex: set<(nat, seq<nat>)>, ex': set<(nat, seq<nat>)>)
    requires Grows(a, b) && Grows(b, c) && SameExcept(a, b, ex) && SameExcept(b, c, ex')
    ensures Grows(a, c) && SameExcept(a, c, ex' + ex)
    ensures ex == {} ==> SameExcept(a, c, ex')
    ensures ex' == {} ==> SameExcept(a, c, ex)
    ensures SameLinks(a, b) && SameLinks(b, c) ==> SameLinks(a, c)
  {
    GrowsTransitive(a, b, c);
    SameTransitive(a, b, c, ex, ex');
    assert ex + ex' == ex' + ex;
  }

  lemma TablesChain(a: Moment, b: Moment, c: Moment, d: Moment, x: (nat, seq<nat>), m: nat)
    requires Grows(a, b) && Grows(b, c) && Grows(c, d)
    requires SameExcept(a, b, if m > 2 then {x} else {})
    requires SameExcept(b, c, if m > 1 then {x} else {})
    requires SameExcept(c, d, if m > 0 then {x} else {})
    ensures Grows(a, d) && SameExcept(a, d, if m > 0 then {x} else {})
    ensures SameLinks(a, b) && SameLinks(b, c) && SameLinks(c, d) ==> SameLinks(a, d)
  {
    hide Grows, SameExcept;
    GrowsTransitive(a, b, c);
    GrowsTransitive(a, c, d);
    var s3, s2, s1 := if m > 2 then {x} else {}, if m > 1 then {x} else {}, if m > 0 then {x} else {};
    SameTransitive(a, b, c, s3, s2);
    assert s3 + s2 == s2 && s2 + s1 == s1;
    SameTransitive(a, c, d, s2, s1);
  }

  lemma NewOnlyChain(a: Moment, b: Moment, c: Moment, d: Moment, ctx: nat, path: seq<nat>)
    requires |path| == 4 && Grows(a, b) && Grows(b, c)
    requires NewOnly(a, b, ctx, path[..1]) && NewOnly(b, c, ctx, path[..2]) && NewOnly(c, d, ctx, path[..3])
    ensures NewOnly(a, d, ctx, path)
  {
    hide NewOnly, Grows;
    GrowsTransitive(a, b, c);
    NewOnlyTransitive(a, b, c, ctx, path[..1], path[..2]);
    NewOnlyTransitive(a, c, d, ctx, path[..2], path[..3]);
    NewOnlyWiden(a, d, ctx, path[..3], path);
  }

  lemma NewOnlyWiden(a: Moment, b: Moment, ctx: nat, path: seq<nat>, path': seq<nat>)
    requires NewOnly(a, b, ctx, path) && path <= path'
    ensures NewOnly(a, b, ctx, path')
  {}

  lemma MissingDeep(a: Moment, b: Moment, ctx: nat, p: seq<nat>, q: seq<nat>)
    requires Root(a.sh, ctx) && OrdinaryPath(q) && |q| <= 3
    requires Reach(a.mem, ctx, p) != None ==> SameTables(a.mem, b.mem, a.sh)
    ensures Reach(a.mem, ctx, p) != None ==> Reach(b.mem, ctx, q) == Reach(a.mem, ctx, q)
  {}

  lemma GrowsRoot(a: Moment, b: Moment, r: nat)
    requires Grows(a, b) && Root(a.sh, r)
    ensures Root(b.sh, r)
  {}

  lemma PathLength(x: nat)
    ensures |Path(x)| == 4
  {}

  lemma AimedRoot(a: Moment, live: nat, ctx: nat)
    requires Aimed(a, live, ctx)
    ensures Root(a.sh, ctx)
  {}

  lemma ReachRoot(a: Moment, ctx: nat)
    ensures Reach(a.mem, ctx, []) == Some(ctx)
  {}

  /** What Ensure did one level up decides whether the next table is missing. */
  lemma MissingStep(a: Moment, b: Moment, live: nat, scratch: seq<nat>, ctx: nat, p: seq<nat>, i: nat)
    requires Sound(a, live, scratch) && Sound(b, live, scratch) && Root(a.sh, ctx) && Root(b.sh, ctx)
    requires 0 < |p| <= 2 && OrdinaryPath(p + [i]) && Reach(b.mem, ctx, p).Some?
    requires if Reach(a.mem, ctx, p) == None then Idle(b, Reach(b.mem, ctx, p).value) else SameLinks(a, b)
    ensures Reach(b.mem, ctx, p + [i]) == if Reach(a.mem, ctx, p) == None then None else Reach(a.mem, ctx, p + [i])
    ensures Reach(a.mem, ctx, p) == None ==> Reach(a.mem, ctx, p + [i]) == None
    ensures Reach(a.mem, ctx, p) != None ==> SameTables(a.mem, b.mem, a.sh)
  {
    EnsureStart(b, live, scratch, ctx, p, i);
    assert (p + [i])[..|p|] == p;
    if Reach(a.mem, ctx, p) != None {
      TablesAgree(a.mem, b.mem, a.sh);
    }
  }
}
