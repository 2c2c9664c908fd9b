/** Four-level page tables as a tree of frames, each holding 512 entries, and the
    hardware walk over them.  The page format is the 4-level paging of section
    4.5 of the Intel 64 and IA-32 SDM, Volume 3A, with 4 KiB pages only.  The
    lemmas say what one edit of one entry does to every walk. */
module PageTables {
  import opened Arithmetic
  import opened Bits
  import opened Options
  import opened Words

  const RECURSIVE_ENTRY: nat := 510
  const COPY_ENTRY: nat := 509
  const PAGE_WRITABLE: nat := 2
  const PAGE_USER: nat := 4
  const PAGE_GLOBAL: nat := 8
  const PAGE_NX: nat := 0x10
  const FRAMES: nat := 0x100_0000_0000  // 40 address bits

  /** struct page: the bits this code reads or writes; address is a frame number. */
  datatype Entry = Entry(present: bool, writable: bool, user: bool, global: bool, nx: bool, address: nat)

  const ZERO: Entry := Entry(false, false, false, false, false, 0)

  /** memset(table, 0, sizeof(struct page_table)) */
  function Zeros(): (z: seq<Entry>)
    ensures |z| == 512 && forall i :: 0 <= i < 512 ==> z[i] == ZERO
  {
    seq(512, _ => ZERO)
  }

  type Memory = map<nat, seq<Entry>>

  // ----- addresses

  function Pml4Index(x: nat): nat { And(Shr(x, 39), 0x1FF) }
  function PdptIndex(x: nat): nat { And(Shr(x, 30), 0x1FF) }
  function PdIndex(x: nat): nat { And(Shr(x, 21), 0x1FF) }
  function PtIndex(x: nat): nat { And(Shr(x, 12), 0x1FF) }

  /** The four table indices of a virtual address, top level first. */
  function Path(x: nat): seq<nat> {
    [Pml4Index(x), PdptIndex(x), PdIndex(x), PtIndex(x)]
  }

  /** The virtual address with the given indices, sign extended from bit 47. */
  function EntryToAddress(pml4: nat, pdp: nat, pd: nat, pt: nat): nat {
    var a0 := Shl(pml4, 39);
    var a1 := if And(a0, Shl(1, 47)) > 0 then Or(Shl(0xFFFF, 48), a0) else a0;
    Or(Or(Or(a1, Shl(pdp, 30)), Shl(pd, 21)), Shl(pt, 12))
  }

  lemma IndexAsDigit(x: nat, k: nat)
    ensures And(Shr(x, k), 0x1FF) == x / Pow2(k) % 512
    ensures And(Shr(x, k), 0x1FF) < 512
  {
    Pow2Sizes();
    AndLowMask(Shr(x, k), 9);
    ShrDivides(x, k);
  }

  lemma PathDigits(x: nat)
    ensures Path(x) == [x / 0x80_0000_0000 % 512, x / 0x4000_0000 % 512, x / 0x20_0000 % 512, x / 0x1000 % 512]
  {
    Pow2Sizes();
    IndexAsDigit(x, 39);
    IndexAsDigit(x, 30);
    IndexAsDigit(x, 21);
    IndexAsDigit(x, 12);
  }

  lemma OrField(x: nat, a: nat, b: nat, k: nat, w: nat)
    requires Pow2(k) == w && x == a * w && b < w
    ensures Or(x, b) == x + b
  {
    OrDisjoint(a, b, k);
  }

  lemma Field(x: nat, k: nat, w: nat)
    requires Pow2(k) == w
    ensures Shl(x, k) == x * w
  {
    ShlMultiplies(x, k);
  }

  /** The ORed fields do not overlap. */
  lemma EntryValue(a: nat, b: nat, c: nat, d: nat)
    requires a < 512 && b < 512 && c < 512 && d < 512
    ensures EntryToAddress(a, b, c, d) ==
            (if a >= 256 then 0xFFFF_0000_0000_0000 else 0) +
            a * 0x80_0000_0000 + b * 0x4000_0000 + c * 0x20_0000 + d * 0x1000
  {
    hide Shl, Or, And, Pow2;
    Pow2Sizes();
    SignBit(a);
    Field(a, 39, 0x80_0000_0000);
    Field(0xFFFF, 48, 0x1_0000_0000_0000);
    Field(b, 30, 0x4000_0000);
    Field(c, 21, 0x20_0000);
    Field(d, 12, 0x1000);
    OrField(Shl(0xFFFF, 48), 0xFFFF, Shl(a, 39), 48, 0x1_0000_0000_0000);
    var top := if a >= 256 then 0xFFFF * 512 + a else a;
    var x1 := top * 0x80_0000_0000;
    var x2 := x1 + b * 0x4000_0000;
    var x3 := x2 + c * 0x20_0000;
    OrField(x1, top, Shl(b, 30), 39, 0x80_0000_0000);
    OrField(x2, top * 512 + b, Shl(c, 21), 30, 0x4000_0000);
    OrField(x3, (top * 512 + b) * 512 + c, Shl(d, 12), 21, 0x20_0000);
  }

  lemma Digit(x: nat, q: nat, r: nat, w: nat)
    requires w > 0 && x == w * q + r && r < w
    ensures x / w == q
  {
    EuclidUnique(x, w, q, r);
  }

  /** The macros invert entry_to_address. */
  lemma PathOfEntry(a: nat, b: nat, c: nat, d: nat)
    requires a < 512 && b < 512 && c < 512 && d < 512
    ensures Path(EntryToAddress(a, b, c, d)) == [a, b, c, d]
  {
    hide EntryToAddress, Path;
    EntryValue(a, b, c, d);
    var x := EntryToAddress(a, b, c, d);
    PathDigits(x);
    var top := if a >= 256 then 0xFFFF * 512 + a else a;
    var q3 := top * 512 + b;
    var q2 := q3 * 512 + c;
    Digit(x, top, x - top * 0x80_0000_0000, 0x80_0000_0000);
    Digit(x, q3, x - q3 * 0x4000_0000, 0x4000_0000);
    Digit(x, q2, x - q2 * 0x20_0000, 0x20_0000);
    Digit(x, q2 * 512 + d, 0, 0x1000);
    DigitMod(if a >= 256 then 0xFFFF else 0, a);
    DigitMod(top, b);
    DigitMod(q3, c);
    DigitMod(q2, d);
  }

  lemma DigitMod(q: nat, d: nat)
    requires d < 512
    ensures (q * 512 + d) % 512 == d
  {}

  lemma SignBit(a: nat)
    requires a < 512
    ensures And(Shl(a, 39), Shl(1, 47)) > 0 <==> a >= 256
  {
    hide Shl, And, Pow2, Shr;
    Pow2Sizes();
    Pow2Add(39, 8);
    ShlMultiplies(1, 47);
    ShlMultiplies(a, 39);
    AndPow2(Shl(a, 39), 47);
    ShrDivides(Shl(a, 39), 47);
    assert a * 0x80_0000_0000 / 0x8000_0000_0000 == a / 256;
  }

  // ----- the hardware walk

  /** The table or page that entry i of frame f leads to. */
  function Child(mem: Memory, f: nat, i: nat): Option<nat> {
    if f in mem && i < |mem[f]| && mem[f][i].present then Some(mem[f][i].address) else None
  }

  function Next(mem: Memory, f: Option<nat>, i: nat): Option<nat> {
    if f.Some? then Child(mem, f.value, i) else None
  }

  function Reach(mem: Memory, root: nat, path: seq<nat>): Option<nat> {
    if path == [] then Some(root)
    else Next(mem, Reach(mem, root, path[..|path| - 1]), path[|path| - 1])
  }

  /** The leaf entry that a virtual page translates with. */
  function Translate(mem: Memory, root: nat, path: seq<nat>): Option<Entry>
    requires |path| == 4
  {
    var t := Reach(mem, root, path[..3]);
    if t.Some? && t.value in mem && path[3] < |mem[t.value]| && mem[t.value][path[3]].present
    then Some(mem[t.value][path[3]]) else None
  }

  // ----- the tree of tables

  datatype Slot = Slot(frame: nat, index: nat)

  /** Which frames are tables: their level (4 is a PML4) and, below level 4, the
      slot that owns them. */
  datatype Shape = Shape(level: map<nat, nat>, parent: map<nat, Slot>)

  /** Slots 509 and 510 of a PML4 are not part of its tree. */
  predicate Usable(sh: Shape, f: nat, i: nat) {
    f in sh.level && i < 512 && (sh.level[f] == 4 ==> i != COPY_ENTRY && i != RECURSIVE_ENTRY)
  }

  predicate OrdinaryPath(path: seq<nat>) {
    && |path| <= 4
    && (forall k :: 0 <= k < |path| ==> path[k] < 512)
    && (path != [] ==> path[0] != COPY_ENTRY && path[0] != RECURSIVE_ENTRY)
  }

  predicate Inner(sh: Shape, f: nat, i: nat) {
    Usable(sh, f, i) && sh.level[f] > 1
  }

  /** Table c belongs to slot i of frame f, one level up. */
  predicate Owned(sh: Shape, c: nat, f: nat, i: nat) {
    && f in sh.level && c in sh.level && sh.level[c] + 1 == sh.level[f]
    && c in sh.parent && sh.parent[c] == Slot(f, i)
  }

  predicate HasOwner(mem: Memory, sh: Shape, c: nat) {
    && c in sh.parent
    && var s := sh.parent[c];
    && Inner(sh, s.frame, s.index) && Owned(sh, c, s.frame, s.index)
    && Child(mem, s.frame, s.index) == Some(c)
  }

  ghost predicate SlotsOk(mem: Memory, sh: Shape) {
    forall f: nat, i: nat :: Inner(sh, f, i) && Child(mem, f, i).Some? ==> Owned(sh, Child(mem, f, i).value, f, i)
  }

  ghost predicate OwnersOk(mem: Memory, sh: Shape) {
    forall c: nat :: c in sh.level && sh.level[c] < 4 ==> HasOwner(mem, sh, c)
  }

  ghost predicate TablesOk(mem: Memory, sh: Shape) {
    forall f: nat :: f in sh.level ==> f in mem && |mem[f]| == 512 && 1 <= sh.level[f] <= 4
  }

  /** Every present entry above level 1 owns its table, and every table below
      level 4 has exactly one owner. */
  ghost predicate Tree(mem: Memory, sh: Shape) {
    TablesOk(mem, sh) && SlotsOk(mem, sh) && OwnersOk(mem, sh)
  }

  predicate Root(sh: Shape, r: nat) {
    r in sh.level && sh.level[r] == 4
  }

  /** Slot 510 of every PML4 points to itself; in the live one it may point
      anywhere. */
  ghost predicate SelfMaps(mem: Memory, sh: Shape, live: nat) {
    && Root(sh, live)
    && (forall r :: Root(sh, r) ==>
          && r in mem && |mem[r]| == 512 && mem[r][RECURSIVE_ENTRY].present
          && (r != live ==> mem[r][RECURSIVE_ENTRY].address == r))
  }

  lemma {:induction false} ReachLevel(mem: Memory, sh: Shape, r: nat, path: seq<nat>)
    requires Tree(mem, sh) && Root(sh, r) && OrdinaryPath(path) && |path| <= 3
    requires Reach(mem, r, path).Some?
    ensures var f := Reach(mem, r, path).value;
            && f in sh.level && sh.level[f] == 4 - |path|
            && (path != [] ==>
                  var up := Reach(mem, r, path[..|path| - 1]);
                  up.Some? && f in sh.parent && sh.parent[f] == Slot(up.value, path[|path| - 1]))
  {
    if path != [] {
      var n := |path| - 1;
      var up := Reach(mem, r, path[..n]);
      ReachLevel(mem, sh, r, path[..n]);
      assert n > 0 ==> path[..n][0] == path[0];
      assert Inner(sh, up.value, path[n]);
    }
  }

  /** Two ordinary walks of the same length that meet have the same root and path. */
  lemma {:induction false} ReachUnique(mem: Memory, sh: Shape, r: nat, p: seq<nat>, s: nat, q: seq<nat>)
    requires Tree(mem, sh) && Root(sh, r) && Root(sh, s)
    requires OrdinaryPath(p) && OrdinaryPath(q) && |p| == |q| <= 3
    requires Reach(mem, r, p).Some? && Reach(mem, r, p) == Reach(mem, s, q)
    ensures r == s && p == q
  {
    if p != [] {
      ReachLevel(mem, sh, r, p);
      ReachLevel(mem, sh, s, q);
      var n := |p| - 1;
      ReachUnique(mem, sh, r, p[..n], s, q[..n]);
      assert p == p[..n] + [p[n]] && q == q[..n] + [q[n]];
    }
  }

  lemma {:induction false} ReachElsewhere(mem: Memory, mem': Memory, r: nat, path: seq<nat>)
    requires forall k :: 0 <= k < |path| ==>
               Next(mem', Reach(mem, r, path[..k]), path[k]) == Next(mem, Reach(mem, r, path[..k]), path[k])
    ensures Reach(mem', r, path) == Reach(mem, r, path)
  {
    if path != [] {
      var n := |path| - 1;
      forall k | 0 <= k < n
        ensures Next(mem', Reach(mem, r, path[..n][..k]), path[..n][k]) == Next(mem, Reach(mem, r, path[..n][..k]), path[..n][k])
      {
        assert path[..n][..k] == path[..k];
      }
      ReachElsewhere(mem, mem', r, path[..n]);
    }
  }

  /** Prefixes of a walk. */
  lemma {:induction false} ReachPrefix(mem: Memory, r: nat, path: seq<nat>, k: nat)
    requires Reach(mem, r, path).Some? && k <= |path|
    ensures Reach(mem, r, path[..k]).Some?
    ensures k < |path| ==> Next(mem, Reach(mem, r, path[..k]), path[k]) == Reach(mem, r, path[..k + 1])
  {
    if k == |path| {
      assert path[..k] == path;
    } else {
      var n := |path| - 1;
      ReachPrefix(mem, r, path[..n], k);
      assert path[..n][..k] == path[..k];
      assert path[..k + 1][..k] == path[..k];
      if k < n {
        assert path[..n][..k + 1] == path[..k + 1];
      } else {
        assert path[..k + 1] == path;
      }
    }
  }

  // ----- what one edit does to every walk

  /** Ordinary walks of up to three steps agree in the two memories. */
  ghost predicate SameTables(mem: Memory, mem': Memory, sh: Shape) {
    forall r: nat, path: seq<nat> :: Root(sh, r) && OrdinaryPath(path) && |path| <= 3 ==>
      Reach(mem', r, path) == Reach(mem, r, path)
  }

  /** All ordinary pages translate alike, except the given one (or none). */
  ghost predicate SameTranslation(mem: Memory, mem': Memory, sh: Shape) {
    forall r: nat, path: seq<nat> :: Root(sh, r) && OrdinaryPath(path) && |path| == 4 ==>
      Translate(mem', r, path) == Translate(mem, r, path)
  }

  lemma TablesAgree(mem: Memory, mem': Memory, sh: Shape)
    requires Tree(mem, sh)
    requires forall f: nat, i: nat :: Inner(sh, f, i) ==> Child(mem', f, i) == Child(mem, f, i)
    ensures SameTables(mem, mem', sh)
    ensures TablesOk(mem', sh) ==> Tree(mem', sh)
  {
    forall r: nat, path: seq<nat> | Root(sh, r) && OrdinaryPath(path) && |path| <= 3
      ensures Reach(mem', r, path) == Reach(mem, r, path)
    {
      forall k | 0 <= k < |path|
        ensures Next(mem', Reach(mem, r, path[..k]), path[k]) == Next(mem, Reach(mem, r, path[..k]), path[k])
      {
        if Reach(mem, r, path[..k]).Some? {
          ReachLevel(mem, sh, r, path[..k]);
          assert k > 0 ==> path[..k][0] == path[0];
          assert Inner(sh, Reach(mem, r, path[..k]).value, path[k]);
        }
      }
      ReachElsewhere(mem, mem', r, path);
    }
  }

  function Put(mem: Memory, f: nat, i: nat, e: Entry): Memory
    requires f in mem && i < |mem[f]|
  {
    mem[f := mem[f][i := e]]
  }

  /** Writing slot 509 or 510 of a PML4 is invisible to ordinary walks. */
  lemma SpecialEdit(mem: Memory, sh: Shape, f: nat, i: nat, e: Entry)
    requires Tree(mem, sh) && f in sh.level && i < 512 && !Usable(sh, f, i)
    ensures Tree(Put(mem, f, i, e), sh)
    ensures SameTables(mem, Put(mem, f, i, e), sh) && SameTranslation(mem, Put(mem, f, i, e), sh)
  {
    var mem' := Put(mem, f, i, e);
    TablesAgree(mem, mem', sh);
    TranslationAgrees(mem, mem', sh);
  }

  lemma TranslationAgrees(mem: Memory, mem': Memory, sh: Shape)
    requires Tree(mem, sh) && SameTables(mem, mem', sh)
    requires forall f :: f in sh.level && sh.level[f] == 1 ==> f in mem' && mem'[f] == mem[f]
    ensures SameTranslation(mem, mem', sh)
  {
    forall r: nat, path: seq<nat> | Root(sh, r) && OrdinaryPath(path) && |path| == 4
      ensures Translate(mem', r, path) == Translate(mem, r, path)
    {
      PathPrefix(path);
      if Reach(mem, r, path[..3]).Some? {
        ReachLevel(mem, sh, r, path[..3]);
      }
    }
  }

  lemma PathPrefix(path: seq<nat>)
    requires OrdinaryPath(path) && |path| == 4
    ensures forall k :: 0 <= k <= 4 ==> OrdinaryPath(path[..k])
  {
    forall k | 0 <= k <= 4
      ensures OrdinaryPath(path[..k])
    {
      assert forall j :: 0 <= j < k ==> path[..k][j] == path[j];
    }
  }

  /** Rewriting the flags of an entry that owns a table. */
  lemma FlagEdit(mem: Memory, sh: Shape, f: nat, i: nat, e: Entry)
    requires Tree(mem, sh) && Inner(sh, f, i)
    requires mem[f][i].present && e.present && e.address == mem[f][i].address
    ensures Tree(Put(mem, f, i, e), sh)
    ensures SameTables(mem, Put(mem, f, i, e), sh) && SameTranslation(mem, Put(mem, f, i, e), sh)
  {
    var mem' := Put(mem, f, i, e);
    TablesAgree(mem, mem', sh);
    TranslationAgrees(mem, mem', sh);
  }

  /** Writing a leaf entry changes the translation of its own page only. */
  lemma LeafEdit(mem: Memory, sh: Shape, r: nat, path: seq<nat>, e: Entry)
    requires Tree(mem, sh) && Root(sh, r) && OrdinaryPath(path) && |path| == 4
    requires Reach(mem, r, path[..3]).Some?
    ensures var t := Reach(mem, r, path[..3]).value;
            && t in sh.level && sh.level[t] == 1 && t in mem && |mem[t]| == 512
            && var mem' := Put(mem, t, path[3], e);
            && Tree(mem', sh) && SameTables(mem, mem', sh)
            && (forall s: nat, q: seq<nat> :: Root(sh, s) && OrdinaryPath(q) && |q| == 4 ==>
                  Translate(mem', s, q) ==
                  if (s, q) == (r, path) then (if e.present then Some(e) else None) else Translate(mem, s, q))
  {
    PathPrefix(path);
    ReachLevel(mem, sh, r, path[..3]);
    var t := Reach(mem, r, path[..3]).value;
    var mem' := Put(mem, t, path[3], e);
    TablesAgree(mem, mem', sh);
    hide Tree;
    forall s: nat, q: seq<nat> | Root(sh, s) && OrdinaryPath(q) && |q| == 4
      ensures Translate(mem', s, q) ==
              if (s, q) == (r, path) then (if e.present then Some(e) else None) else Translate(mem, s, q)
    {
      LeafTranslation(mem, sh, r, path, e, s, q);
    }
  }

  lemma LeafTranslation(mem: Memory, sh: Shape, r: nat, path: seq<nat>, e: Entry, s: nat, q: seq<nat>)
    requires Tree(mem, sh) && Root(sh, r) && OrdinaryPath(path) && |path| == 4
    requires Root(sh, s) && OrdinaryPath(q) && |q| == 4
    requires Reach(mem, r, path[..3]).Some?
    requires var t := Reach(mem, r, path[..3]).value;
             t in mem && path[3] < |mem[t]| && SameTables(mem, Put(mem, t, path[3], e), sh)
    ensures var t := Reach(mem, r, path[..3]).value;
            Translate(Put(mem, t, path[3], e), s, q) ==
            if (s, q) == (r, path) then (if e.present then Some(e) else None) else Translate(mem, s, q)
  {
    hide Tree, Reach, Child;
    PathPrefix(path);
    PathPrefix(q);
    assert path == path[..3] + [path[3]] && q == q[..3] + [q[3]];
    if Reach(mem, s, q[..3]) == Reach(mem, r, path[..3]) {
      ReachUnique(mem, sh, r, path[..3], s, q[..3]);
    }
  }

  function LinkShape(sh: Shape, f: nat, i: nat, c: nat): Shape
    requires f in sh.level && sh.level[f] > 0
  {
    Shape(sh.level[c := sh.level[f] - 1], sh.parent[c := Slot(f, i)])
  }

  function Linked(mem: Memory, f: nat, i: nat, e: Entry): Memory
    requires f in mem && i < |mem[f]|
  {
    Put(mem, f, i, e)[e.address := Zeros()]
  }

  ghost predicate CanLink(mem: Memory, sh: Shape, f: nat, i: nat, e: Entry) {
    Tree(mem, sh) && Inner(sh, f, i) && Child(mem, f, i) == None && e.present && e.address !in sh.level
  }

  lemma LinkChild(mem: Memory, sh: Shape, f: nat, i: nat, e: Entry, g: nat, j: nat)
    requires CanLink(mem, sh, f, i, e) && Inner(LinkShape(sh, f, i, e.address), g, j)
    ensures Child(Linked(mem, f, i, e), g, j) ==
            if (g, j) == (f, i) then Some(e.address) else if g == e.address then None else Child(mem, g, j)
    ensures g != e.address ==> Inner(sh, g, j)
  {}

  /** A zeroed frame hooked into an absent slot becomes a table of the tree. */
  lemma LinkTree(mem: Memory, sh: Shape, f: nat, i: nat, e: Entry)
    requires CanLink(mem, sh, f, i, e)
    ensures Tree(Linked(mem, f, i, e), LinkShape(sh, f, i, e.address))
  {
    var c, mem', sh' := e.address, Linked(mem, f, i, e), LinkShape(sh, f, i, e.address);
    forall g: nat, j: nat | Inner(sh', g, j) && Child(mem', g, j).Some?
      ensures Owned(sh', Child(mem', g, j).value, g, j)
    {
      LinkChild(mem, sh, f, i, e, g, j);
      if (g, j) != (f, i) {
        assert Owned(sh, Child(mem, g, j).value, g, j);
      }
    }
    forall d: nat | d in sh'.level && sh'.level[d] < 4
      ensures HasOwner(mem', sh', d)
    {
      if d != c {
        assert HasOwner(mem, sh, d);
        LinkChild(mem, sh, f, i, e, sh.parent[d].frame, sh.parent[d].index);
      }
    }
  }

  /** The new table is reached through its slot; nothing else changes. */
  lemma {:induction false} LinkReach(mem: Memory, sh: Shape, f: nat, i: nat, e: Entry, r: nat, path: seq<nat>)
    requires CanLink(mem, sh, f, i, e) && Root(sh, r) && OrdinaryPath(path) && |path| <= 3
    ensures Reach(Linked(mem, f, i, e), r, path) ==
            if path != [] && Reach(mem, r, path[..|path| - 1]) == Some(f) && path[|path| - 1] == i
            then Some(e.address) else Reach(mem, r, path)
  {
    if path != [] {
      var n := |path| - 1;
      assert n > 0 ==> path[..n][0] == path[0];
      LinkReach(mem, sh, f, i, e, r, path[..n]);
      if Reach(mem, r, path[..n]).Some? {
        ReachLevel(mem, sh, r, path[..n]);
      }
    }
  }

  lemma LinkTranslation(mem: Memory, sh: Shape, f: nat, i: nat, e: Entry)
    requires CanLink(mem, sh, f, i, e)
    ensures SameTranslation(mem, Linked(mem, f, i, e), sh)
  {
    forall r: nat, path: seq<nat> | Root(sh, r) && OrdinaryPath(path) && |path| == 4
      ensures Translate(Linked(mem, f, i, e), r, path) == Translate(mem, r, path)
    {
      PathPrefix(path);
      LinkReach(mem, sh, f, i, e, r, path[..3]);
      assert path[..3][..2] == path[..2];
      if Reach(mem, r, path[..3]).Some? {
        ReachLevel(mem, sh, r, path[..3]);
      }
    }
  }

  /** No entry of the table is present. */
  predicate EmptyTable(t: seq<Entry>) {
    forall i :: 0 <= i < |t| ==> !t[i].present
  }

  function UnlinkShape(sh: Shape, c: nat): Shape {
    Shape(sh.level - {c}, sh.parent - {c})
  }

  /** The entry is cleared; the freed frame holds whatever its new owner put there. */
  function Unlinked(mem: Memory, f: nat, i: nat, c: nat, junk: seq<Entry>): Memory
    requires f in mem && i < |mem[f]| && f != c
  {
    Put(mem[c := junk], f, i, ZERO)
  }

  ghost predicate CanUnlink(mem: Memory, sh: Shape, f: nat, i: nat, c: nat) {
    Tree(mem, sh) && Inner(sh, f, i) && Child(mem, f, i) == Some(c) && c in mem && EmptyTable(mem[c])
  }

  lemma UnlinkFacts(mem: Memory, sh: Shape, f: nat, i: nat, c: nat)
    requires CanUnlink(mem, sh, f, i, c)
    ensures Owned(sh, c, f, i) && c != f && sh.level[c] < 4
  {
    assert Owned(sh, Child(mem, f, i).value, f, i);
  }

  lemma UnlinkChild(mem: Memory, sh: Shape, f: nat, i: nat, c: nat, junk: seq<Entry>, g: nat, j: nat)
    requires CanUnlink(mem, sh, f, i, c) && c != f && Inner(sh, g, j)
    ensures Child(mem, g, j) == Some(c) <==> (g, j) == (f, i)
    ensures g != c ==> Child(Unlinked(mem, f, i, c, junk), g, j) == if (g, j) == (f, i) then None else Child(mem, g, j)
    ensures g == c ==> Child(mem, g, j) == None
  {
    UnlinkFacts(mem, sh, f, i, c);
    if Child(mem, g, j) == Some(c) {
      assert Owned(sh, c, g, j);
    }
  }

  lemma UnlinkTree(mem: Memory, sh: Shape, f: nat, i: nat, c: nat, junk: seq<Entry>)
    requires CanUnlink(mem, sh, f, i, c)
    ensures c != f && Tree(Unlinked(mem, f, i, c, junk), UnlinkShape(sh, c))
  {
    UnlinkFacts(mem, sh, f, i, c);
    var mem', sh' := Unlinked(mem, f, i, c, junk), UnlinkShape(sh, c);
    forall g: nat, j: nat | Inner(sh', g, j) && Child(mem', g, j).Some?
      ensures Owned(sh', Child(mem', g, j).value, g, j)
    {
      assert Inner(sh, g, j);
      UnlinkChild(mem, sh, f, i, c, junk, g, j);
      assert Owned(sh, Child(mem, g, j).value, g, j);
    }
    forall d: nat | d in sh'.level && sh'.level[d] < 4
      ensures HasOwner(mem', sh', d)
    {
      assert HasOwner(mem, sh, d);
      UnlinkChild(mem, sh, f, i, c, junk, sh.parent[d].frame, sh.parent[d].index);
    }
  }

  lemma {:induction false} UnlinkReach(mem: Memory, sh: Shape, f: nat, i: nat, c: nat, junk: seq<Entry>,
                                       r: nat, path: seq<nat>)
    requires CanUnlink(mem, sh, f, i, c) && c != f && Root(sh, r) && OrdinaryPath(path) && |path| <= 3
    ensures Reach(Unlinked(mem, f, i, c, junk), r, path) ==
            if Reach(mem, r, path) == Some(c) then None else Reach(mem, r, path)
  {
    UnlinkFacts(mem, sh, f, i, c);
    if path != [] {
      var n := |path| - 1;
      assert n > 0 ==> path[..n][0] == path[0];
      UnlinkReach(mem, sh, f, i, c, junk, r, path[..n]);
      var up := Reach(mem, r, path[..n]);
      if up.Some? {
        ReachLevel(mem, sh, r, path[..n]);
        UnlinkChild(mem, sh, f, i, c, junk, up.value, path[n]);
      }
    }
  }

  lemma UnlinkTranslation(mem: Memory, sh: Shape, f: nat, i: nat, c: nat, junk: seq<Entry>)
    requires CanUnlink(mem, sh, f, i, c) && c != f
    ensures SameTranslation(mem, Unlinked(mem, f, i, c, junk), sh)
  {
    forall r: nat, path: seq<nat> | Root(sh, r) && OrdinaryPath(path) && |path| == 4
      ensures Translate(Unlinked(mem, f, i, c, junk), r, path) == Translate(mem, r, path)
    {
      PathPrefix(path);
      UnlinkReach(mem, sh, f, i, c, junk, r, path[..3]);
      if Reach(mem, r, path[..3]).Some? {
        ReachLevel(mem, sh, r, path[..3]);
      }
    }
  }

  // ----- the recursive slot

  /** With slot 510 of the live PML4 pointed at ctx, and ctx's own slot 510 at
      itself, padding a path with 510s leads the hardware from the live PML4 to
      what the path reaches from ctx: its PML4, PDPT, PD or PT. */
  lemma {:induction false} FractalWalk(mem: Memory, live: nat, ctx: nat, path: seq<nat>)
    requires Next(mem, Some(live), RECURSIVE_ENTRY) == Some(ctx)
    requires Next(mem, Some(ctx), RECURSIVE_ENTRY) == Some(ctx)
    requires |path| <= 3
    ensures Reach(mem, live, seq(4 - |path|, _ => RECURSIVE_ENTRY) + path) == Reach(mem, ctx, path)
  {
    var pad := seq(4 - |path|, _ => RECURSIVE_ENTRY);
    FractalPad(mem, live, ctx, 4 - |path|);
    FractalSuffix(mem, live, ctx, pad, path);
  }

  lemma {:induction false} FractalPad(mem: Memory, live: nat, ctx: nat, n: nat)
    requires Next(mem, Some(live), RECURSIVE_ENTRY) == Some(ctx)
    requires Next(mem, Some(ctx), RECURSIVE_ENTRY) == Some(ctx)
    requires n > 0
    ensures Reach(mem, live, seq(n, _ => RECURSIVE_ENTRY)) == Some(ctx)
  {
    var pad := seq(n, _ => RECURSIVE_ENTRY);
    assert pad[..n - 1] == seq(n - 1, _ => RECURSIVE_ENTRY);
    if n > 1 {
      FractalPad(mem, live, ctx, n - 1);
    }
  }

  lemma {:induction false} FractalSuffix(mem: Memory, live: nat, ctx: nat, pad: seq<nat>, path: seq<nat>)
    requires Reach(mem, live, pad) == Some(ctx)
    ensures Reach(mem, live, pad + path) == Reach(mem, ctx, path)
  {
    if path == [] {
      assert pad + path == pad;
    } else {
      var n := |path| - 1;
      assert (pad + path)[..|pad + path| - 1] == pad + path[..n];
      FractalSuffix(mem, live, ctx, pad, path[..n]);
    }
  }
}
