/**
 The ext3 block map (fs/ext3/balloc.c, Ext3BlockMapHandle): twelve direct pointers, one
 table of pointers, and one table of tables, in blocks taken from the allocator.
 */
module Ext3BlockMap {
  import opened Arith
  import opened Ext3Alloc

  /** A place that can hold a block pointer: a slot of the inode, an entry of the indirect table,
      an entry of the double indirect table, or an entry of one of the tables below it. */
  datatype Slot = InodeSlot(i: nat) | Indirect(o: nat) | Double(s: nat) | Leaf(s: nat, o: nat)

  datatype Loc = Loc(file: nat, slot: Slot)

  /** What the map is stored in: the inodes' pointers and the device's blocks, as 32-bit words. */
  datatype Image = Image(inodes: map<nat, seq<nat>>, disk: map<nat, seq<nat>>)

  /** The word `o` of block `t`; block number 0 stands for no table. */
  function TableEntry(disk: map<nat, seq<nat>>, t: nat, o: nat): (p: nat) {
    if t != 0 && t in disk && o < |disk[t]| then disk[t][o] else 0
  }

  /** The table that holds a slot, 0 when it is missing or the slot is in the inode. */
  function TableOf(im: Image, l: Loc): (t: nat)
    requires InodeOk(im, l.file)
  {
    match l.slot
    case InodeSlot(_) => 0
    case Indirect(_) => im.inodes[l.file][12]
    case Double(_) => im.inodes[l.file][13]
    case Leaf(s, _) => TableEntry(im.disk, im.inodes[l.file][13], s)
  }

  function IndexOf(s: Slot): (i: nat) {
    match s case InodeSlot(i) => i case Indirect(o) => o case Double(s) => s case Leaf(_, o) => o
  }

  predicate InodeOk(im: Image, f: nat) {
    f in im.inodes && |im.inodes[f]| == 15
  }

  /** The pointer at a place, 0 when there is none. */
  function Ptr(im: Image, l: Loc): (p: nat)
    requires InodeOk(im, l.file)
  {
    if l.slot.InodeSlot? then (if l.slot.i < 14 then im.inodes[l.file][l.slot.i] else 0)
    else TableEntry(im.disk, TableOf(im, l), IndexOf(l.slot))
  }

  /** Where the pointer of file block `k` lives, with `e` words to a block. */
  function SlotOf(e: nat, k: nat): (s: Slot)
    requires 0 < e
  {
    if k < 12 then InodeSlot(k)
    else if k - 12 < e then Indirect(k - 12)
    else Leaf((k - 12 - e) / e, (k - 12 - e) % e)
  }

  /** File blocks past this one are outside the double indirect table. */
  function Limit(e: nat): (n: nat) { 12 + e + e * e }

  /** The plain map that the structure stands for: file block to device block, 0 for a hole. */
  function Lookup(e: nat, im: Image, f: nat, k: nat): (p: nat)
    requires 0 < e && InodeOk(im, f)
  {
    Ptr(im, Loc(f, SlotOf(e, k)))
  }

  // ---- The layout ----

  /** The first twelve pointers of an inode are the first blocks of the file. */
  lemma DirectLayout(e: nat, im: Image, f: nat, k: nat)
    requires 0 < e && InodeOk(im, f) && k < 12
    ensures Lookup(e, im, f, k) == im.inodes[f][k]
  {
  }

  /** Pointer 12 names a table of the next `e` blocks. */
  lemma IndirectLayout(e: nat, im: Image, f: nat, o: nat)
    requires InodeOk(im, f) && o < e
    ensures Lookup(e, im, f, 12 + o) == TableEntry(im.disk, im.inodes[f][12], o)
  {
  }

  /** Pointer 13 names a table of tables: its word `s` names the table of the `e` blocks from
      12 + e + s * e on. */
  lemma DoubleLayout(e: nat, im: Image, f: nat, s: nat, o: nat)
    requires InodeOk(im, f) && s < e && o < e
    ensures 0 <= s * e
    ensures Lookup(e, im, f, 12 + e + s * e + o) == TableEntry(im.disk, TableEntry(im.disk, im.inodes[f][13], s), o)
  {
    DivModUnique(e, s, o);
  }

  /** The blocks that a creating lookup of file block `k` has to allocate. */
  function Missing(e: nat, im: Image, f: nat, k: nat): (n: nat)
    requires 0 < e && InodeOk(im, f)
    ensures n <= 3
  {
    var s := SlotOf(e, k);
    (if Ptr(im, Loc(f, s)) == 0 then 1 else 0)
    + (if s.Indirect? && im.inodes[f][12] == 0 then 1 else 0)
    + (if s.Leaf? && Ptr(im, Loc(f, Double(s.s))) == 0 then 1 else 0)
    + (if s.Leaf? && im.inodes[f][13] == 0 then 1 else 0)
  }

  /** Separation: every pointer names an allocated block of the device that is not metadata,
      and no two places hold the same pointer. */
  ghost predicate Separated(e: nat, geo: Geometry, a: Accounts, im: Image, meta: set<nat>) {
    && 0 < e && Shaped(geo, a)
    && (forall f :: f in im.inodes ==> InodeOk(im, f))
    && (forall b: nat :: geo.Describes(b) ==> b in im.disk && |im.disk[b]| == e)
    && (forall m :: m in meta ==> !IsFree(geo, a, m))
    && (forall l: Loc :: l.file in im.inodes && Ptr(im, l) != 0 ==>
          geo.Describes(Ptr(im, l)) && !IsFree(geo, a, Ptr(im, l)) && Ptr(im, l) !in meta)
    && (forall l: Loc, l': Loc :: l.file in im.inodes && l'.file in im.inodes ==>
          Ptr(im, l) != 0 && Ptr(im, l) == Ptr(im, l') ==> l == l')
  }

  function Zeros(e: nat): (z: seq<nat>) { seq(e, _ => 0) }

  function Put(s: seq<nat>, i: nat, v: nat): (r: seq<nat>)
    requires i < |s|
  {
    s[i := v]
  }

  /** The place whose pointer names the table that holds `l`. */
  function Parent(l: Loc): (p: Loc)
    requires !l.slot.InodeSlot?
  {
    match l.slot
    case Indirect(_) => Loc(l.file, InodeSlot(12))
    case Double(_) => Loc(l.file, InodeSlot(13))
    case Leaf(s, _) => Loc(l.file, Double(s))
  }

  lemma ParentPtr(im: Image, l: Loc)
    requires InodeOk(im, l.file) && !l.slot.InodeSlot?
    ensures TableOf(im, l) == Ptr(im, Parent(l))
  {
  }

  ghost predicate CanLink(e: nat, im: Image, l: Loc)
    requires InodeOk(im, l.file)
  {
    && Ptr(im, l) == 0
    && (l.slot.InodeSlot? ==> l.slot.i < 14)
    && (!l.slot.InodeSlot? ==> TableOf(im, l) != 0 && IndexOf(l.slot) < e)
  }

  /** Zero a fresh block and store its number at a place. */
  function Linked(e: nat, im: Image, l: Loc, b: nat): (r: Image)
    requires InodeOk(im, l.file)
    requires l.slot.InodeSlot? ==> l.slot.i < 14
    requires !l.slot.InodeSlot? ==> TableOf(im, l) in im.disk && TableOf(im, l) != b
    requires !l.slot.InodeSlot? ==> IndexOf(l.slot) < |im.disk[TableOf(im, l)]|
  {
    if l.slot.InodeSlot? then
      Image(im.inodes[l.file := Put(im.inodes[l.file], l.slot.i, b)], im.disk[b := Zeros(e)])
    else
      var t := TableOf(im, l);
      Image(im.inodes, im.disk[b := Zeros(e)][t := Put(im.disk[t], IndexOf(l.slot), b)])
  }

  lemma LinkIsDefined(e: nat, geo: Geometry, a: Accounts, im: Image, meta: set<nat>, l: Loc, b: nat)
    requires Separated(e, geo, a, im, meta) && IsFree(geo, a, b)
    requires l.file in im.inodes && CanLink(e, im, l) && !l.slot.InodeSlot?
    ensures TableOf(im, l) in im.disk && TableOf(im, l) != b && |im.disk[TableOf(im, l)]| == e
  {
    ParentPtr(im, l);
  }

  /** Linking a fresh block changes the pointer at one place and at no other. */
  lemma {:induction false} LinkedPtr(e: nat, geo: Geometry, a: Accounts, im: Image, meta: set<nat>, l: Loc, b: nat,
                                     m: Loc)
    requires Separated(e, geo, a, im, meta) && IsFree(geo, a, b) && b != 0
    requires l.file in im.inodes && CanLink(e, im, l) && m.file in im.inodes
    requires !l.slot.InodeSlot? ==> TableOf(im, l) in im.disk && TableOf(im, l) != b
    requires !l.slot.InodeSlot? ==> IndexOf(l.slot) < |im.disk[TableOf(im, l)]|
    ensures InodeOk(Linked(e, im, l, b), m.file)
    ensures Ptr(Linked(e, im, l, b), m) == if m == l then b else Ptr(im, m)
    decreases match m.slot case InodeSlot(_) => 0 case Indirect(_) => 1 case Double(_) => 1 case Leaf(_, _) => 2
  {
    var r := Linked(e, im, l, b);
    if !m.slot.InodeSlot? {
      LinkedPtr(e, geo, a, im, meta, l, b, Parent(m));
      ParentPtr(im, m);
      ParentPtr(r, m);
      if Parent(m) == l {
        assert Ptr(im, m) == 0;
      } else if !l.slot.InodeSlot? {
        ParentPtr(im, l);
        if TableOf(im, m) == TableOf(im, l) {
          assert Parent(m) == Parent(l);
        }
      }
    }
  }

  /** Linking a fresh block keeps all places separated. */
  lemma LinkedSeparated(e: nat, geo: Geometry, a: Accounts, im: Image, meta: set<nat>, l: Loc, b: nat)
    requires Separated(e, geo, a, im, meta) && IsFree(geo, a, b) && b != 0
    requires l.file in im.inodes && CanLink(e, im, l)
    requires !l.slot.InodeSlot? ==> TableOf(im, l) in im.disk && TableOf(im, l) != b
    requires !l.slot.InodeSlot? ==> IndexOf(l.slot) < |im.disk[TableOf(im, l)]|
    ensures Separated(e, geo, Marked(geo, a, b, true), Linked(e, im, l, b), meta)
  {
    var a', r := Marked(geo, a, b, true), Linked(e, im, l, b);
    forall c ensures Shaped(geo, a') && (IsFree(geo, a', c) <==> c != b && IsFree(geo, a, c)) {
      MarkedIsFree(geo, a, b, true, c);
    }
    forall m: Loc | m.file in im.inodes
      ensures InodeOk(r, m.file)
      ensures Ptr(r, m) == if m == l then b else Ptr(im, m)
    {
      LinkedPtr(e, geo, a, im, meta, l, b, m);
    }
    assert r.inodes.Keys == im.inodes.Keys;
    forall f | f in r.inodes ensures InodeOk(r, f) {
      LinkedPtr(e, geo, a, im, meta, l, b, Loc(f, InodeSlot(0)));
    }
  }

  /** What Ext3BlockMapHandle answers: a block number (0 included), -1, -EIO, or a kernel that stops. */
  datatype MapResult = Block(n: nat) | Hole | IoError | Stopped

  /** -1 for a hole, the block number otherwise. */
  function Answer(p: nat): (r: MapResult) {
    if p == 0 then Hole else Block(p)
  }

  /** One place was read with the create flag, and `b` is what it holds now. A missing pointer
      was linked to a fresh zeroed block, unless no block was free. */
  ghost predicate Filled(e: nat, geo: Geometry, a: Accounts, im: Image, a': Accounts, im': Image, l: Loc, b: nat)
    requires Shaped(geo, a) && InodeOk(im, l.file)
  {
    && im'.inodes.Keys == im.inodes.Keys
    && (forall m: Loc :: m.file in im.inodes && InodeOk(im, m.file) ==>
          InodeOk(im', m.file) && Ptr(im', m) == if m == l then b else Ptr(im, m))
    && (b == 0 <==> Ptr(im, l) == 0 && a.superFree == 0)
    && (b == 0 || Ptr(im, l) != 0 ==> im' == im && a' == a)
    && (b != 0 && Ptr(im, l) == 0 ==>
          && IsFree(geo, a, b) && a' == Marked(geo, a, b, true)
          && b in im'.disk && im'.disk[b] == Zeros(e)
          && (l.slot.InodeSlot? || TableOf(im, l) != 0)
          && forall c :: c in im.disk && c != b && (l.slot.InodeSlot? || c != TableOf(im, l)) ==>
                c in im'.disk && im'.disk[c] == im.disk[c])
  }

  /** Distinct file blocks have distinct places. */
  lemma SlotOfInjective(e: nat, k: nat, k': nat)
    requires 0 < e && SlotOf(e, k) == SlotOf(e, k')
    ensures k == k'
  {
    if k >= 12 + e {
      DivModInjective(e, k - 12 - e, k' - 12 - e);
    }
  }

  /** All file data and all metadata blocks keep their contents. */
  ghost predicate KeepsData(e: nat, im: Image, im': Image, meta: set<nat>)
    requires 0 < e && forall f :: f in im.inodes ==> InodeOk(im, f)
  {
    && (forall g, k: nat :: g in im.inodes && Lookup(e, im, g, k) in im.disk && Lookup(e, im, g, k) != 0 ==>
          Lookup(e, im, g, k) in im'.disk && im'.disk[Lookup(e, im, g, k)] == im.disk[Lookup(e, im, g, k)])
    && (forall m :: m in meta && m in im.disk ==> m in im'.disk && im'.disk[m] == im.disk[m])
  }

  /** The map changed at most at (f, block), from a hole to a zeroed block. */
  ghost predicate Updates(e: nat, im: Image, im': Image, f: nat, block: nat, meta: set<nat>)
    requires 0 < e && forall f :: f in im.inodes ==> InodeOk(im, f)
  {
    && im'.inodes.Keys == im.inodes.Keys
    && (forall g :: g in im.inodes ==> InodeOk(im', g))
    && (forall g, k: nat :: g in im.inodes && (g != f || k != block) ==> Lookup(e, im', g, k) == Lookup(e, im, g, k))
    && (f in im.inodes && Lookup(e, im, f, block) != 0 ==> Lookup(e, im', f, block) == Lookup(e, im, f, block))
    && KeepsData(e, im, im', meta)
  }

  /** The places that a lookup of file block `k` goes through. */
  predicate OnPath(e: nat, k: nat, s: Slot)
    requires 0 < e
  {
    var leaf := SlotOf(e, k);
    || s == leaf
    || (leaf.Indirect? && s == InodeSlot(12))
    || (leaf.Leaf? && (s == InodeSlot(13) || s == Double(leaf.s)))
  }

  /** Pointers changed only on the path of (f, block): no table of another block and no other file. */
  ghost predicate PathOnly(e: nat, im: Image, im': Image, f: nat, block: nat)
    requires 0 < e
  {
    && im'.inodes.Keys == im.inodes.Keys
    && (forall m: Loc :: m.file in im.inodes && InodeOk(im, m.file) ==>
          InodeOk(im', m.file) && (m.file != f || !OnPath(e, block, m.slot) ==> Ptr(im', m) == Ptr(im, m)))
  }

  lemma FilledPathOnly(e: nat, geo: Geometry, a: Accounts, im: Image, a': Accounts, im': Image, l: Loc, b: nat,
                       block: nat)
    requires 0 < e && Shaped(geo, a) && InodeOk(im, l.file) && OnPath(e, block, l.slot)
    requires Filled(e, geo, a, im, a', im', l, b)
    ensures PathOnly(e, im, im', l.file, block)
  {
    hide OnPath, Ptr;
  }

  lemma PathOnlyTransitive(e: nat, im: Image, im': Image, im'': Image, f: nat, block: nat)
    requires 0 < e && PathOnly(e, im, im', f, block) && PathOnly(e, im', im'', f, block)
    ensures PathOnly(e, im, im'', f, block)
  {
    hide OnPath, Ptr;
  }

  lemma FilledLookup(e: nat, geo: Geometry, a: Accounts, im: Image, a': Accounts, im': Image, l: Loc, b: nat,
                     block: nat, g: nat, k: nat)
    requires 0 < e && Shaped(geo, a) && InodeOk(im, l.file) && InodeOk(im, g)
    requires Filled(e, geo, a, im, a', im', l, b)
    requires l.slot == SlotOf(e, block) || l.slot == InodeSlot(12) || l.slot == InodeSlot(13) || l.slot.Double?
    ensures InodeOk(im', g)
    ensures g != l.file || k != block || Lookup(e, im, g, k) != 0 ==> Lookup(e, im', g, k) == Lookup(e, im, g, k)
  {
    var m := Loc(g, SlotOf(e, k));
    assert Ptr(im', m) == if m == l then b else Ptr(im, m);
    if m == l { SlotOfInjective(e, k, block); }
  }

  /** A pointer at a place that is not the parent of the filled one names a block that is left alone. */
  lemma FilledKeepsBlock(e: nat, geo: Geometry, a: Accounts, im: Image, a': Accounts, im': Image, meta: set<nat>,
                         l: Loc, b: nat, m: Loc)
    requires Separated(e, geo, a, im, meta) && l.file in im.inodes && m.file in im.inodes
    requires Filled(e, geo, a, im, a', im', l, b)
    requires Ptr(im, m) != 0 && (l.slot.InodeSlot? || m != Parent(l))
    ensures Ptr(im, m) in im.disk && Ptr(im, m) in im'.disk && im'.disk[Ptr(im, m)] == im.disk[Ptr(im, m)]
  {
    if !l.slot.InodeSlot? {
      ParentPtr(im, l);
    }
  }

  lemma FilledKeepsMeta(e: nat, geo: Geometry, a: Accounts, im: Image, a': Accounts, im': Image, meta: set<nat>,
                        l: Loc, b: nat, c: nat)
    requires Separated(e, geo, a, im, meta) && l.file in im.inodes
    requires Filled(e, geo, a, im, a', im', l, b)
    requires c in meta && c in im.disk
    ensures c in im'.disk && im'.disk[c] == im.disk[c]
  {
    if !l.slot.InodeSlot? {
      ParentPtr(im, l);
    }
  }

  lemma FilledUpdates(e: nat, geo: Geometry, a: Accounts, im: Image, a': Accounts, im': Image, meta: set<nat>,
                      l: Loc, b: nat, block: nat)
    requires Separated(e, geo, a, im, meta) && l.file in im.inodes
    requires Filled(e, geo, a, im, a', im', l, b)
    requires l.slot == SlotOf(e, block) || l.slot == InodeSlot(12) || l.slot == InodeSlot(13) || l.slot.Double?
    ensures Updates(e, im, im', l.file, block, meta)
  {
    forall g, k: nat | g in im.inodes
      ensures InodeOk(im', g)
      ensures g != l.file || k != block || Lookup(e, im, g, k) != 0 ==> Lookup(e, im', g, k) == Lookup(e, im, g, k)
    {
      FilledLookup(e, geo, a, im, a', im', l, b, block, g, k);
    }
    forall g | g in im.inodes ensures InodeOk(im', g) {
      FilledLookup(e, geo, a, im, a', im', l, b, block, g, 0);
    }
    forall g, k: nat | g in im.inodes && Lookup(e, im, g, k) != 0
      ensures var p := Lookup(e, im, g, k); p in im.disk && p in im'.disk && im'.disk[p] == im.disk[p]
    {
      FilledKeepsBlock(e, geo, a, im, a', im', meta, l, b, Loc(g, SlotOf(e, k)));
    }
    forall c | c in meta && c in im.disk ensures c in im'.disk && im'.disk[c] == im.disk[c] {
      FilledKeepsMeta(e, geo, a, im, a', im', meta, l, b, c);
    }
  }

  lemma UpdatesTransitive(e: nat, im: Image, im': Image, im'': Image, f: nat, block: nat, meta: set<nat>)
    requires 0 < e && (forall f :: f in im.inodes ==> InodeOk(im, f))
    requires Updates(e, im, im', f, block, meta) && Updates(e, im', im'', f, block, meta)
    requires forall c :: c in im.disk ==> c in im'.disk
    ensures Updates(e, im, im'', f, block, meta)
  {
    forall g, k: nat | g in im.inodes && Lookup(e, im, g, k) in im.disk && Lookup(e, im, g, k) != 0
      ensures var p := Lookup(e, im, g, k); p in im''.disk && im''.disk[p] == im.disk[p]
    {
      assert Lookup(e, im', g, k) == Lookup(e, im, g, k);
    }
  }

  /** The whole contract of a creating lookup. */
  ghost predicate Created(e: nat, geo: Geometry, a: Accounts, im: Image, a': Accounts, im': Image, meta: set<nat>,
                          f: nat, block: nat, r: MapResult)
    requires 0 < e && f in im.inodes && forall f :: f in im.inodes ==> InodeOk(im, f)
  {
    && Updates(e, im, im', f, block, meta) && PathOnly(e, im, im', f, block)
    && (Lookup(e, im', f, block) != 0 <==> Missing(e, im, f, block) <= a.superFree)
    && (Lookup(e, im', f, block) != 0 ==>
          && r == Block(Lookup(e, im', f, block))
          && a'.superFree == a.superFree - Missing(e, im, f, block))
    && (Lookup(e, im', f, block) == 0 ==> r == FailureAnswer(e, im', f, block))
    && (Lookup(e, im', f, block) != 0 && Lookup(e, im, f, block) == 0 ==>
          && IsFresh(geo, a, r.n)
          && r.n in im'.disk && im'.disk[r.n] == Zeros(e))
  }

  /** What the code reads as word `o` of block `t`. */
  ghost function Word(im: Image, t: nat, o: nat): (r: MapResult) {
    if t !in im.disk || |im.disk[t]| <= o then IoError else Block(im.disk[t][o])
  }

  /** The answer of a creating lookup that ran out of blocks. The kernel goes on with 0 where a block
      or a table is missing: a missing data block is answered as block 0, and below a missing table
      the answer is a word of block 0, or of the block that such a word names. */
  ghost function FailureAnswer(e: nat, im: Image, f: nat, k: nat): (r: MapResult)
    requires 0 < e && InodeOk(im, f)
  {
    match SlotOf(e, k)
    case InodeSlot(_) => Block(0)
    case Indirect(o) => if im.inodes[f][12] == 0 then Word(im, 0, o) else Block(0)
    case Double(_) => Block(0)
    case Leaf(s, o) =>
      if im.inodes[f][13] != 0 && Ptr(im, Loc(f, Double(s))) != 0 then Block(0)
      else
        var t := if im.inodes[f][13] == 0 then Word(im, 0, s) else Block(0);
        if t == IoError then IoError else if Word(im, t.n, o) == IoError then Stopped else Word(im, t.n, o)
  }

  /** A creating lookup that failed never says so: it does not answer -1. Where the tables are there it
      answers block 0, and below a missing indirect table what block 0 holds at that index. */
  lemma FailureLooksLikeABlock(e: nat, im: Image, f: nat, k: nat)
    requires 0 < e && InodeOk(im, f)
    ensures FailureAnswer(e, im, f, k) != Hole
    ensures k < 12 || (k < 12 + e && im.inodes[f][12] != 0) ==> FailureAnswer(e, im, f, k) == Block(0)
    ensures 12 <= k < 12 + e && im.inodes[f][12] == 0 && 0 in im.disk && k - 12 < |im.disk[0]| ==>
              FailureAnswer(e, im, f, k) == Block(im.disk[0][k - 12])
  {
  }

  ghost predicate IsFresh(geo: Geometry, a: Accounts, b: nat) {
    Shaped(geo, a) && IsFree(geo, a, b)
  }

  lemma DirectCreated(e: nat, geo: Geometry, a: Accounts, im: Image, a': Accounts, im': Image, meta: set<nat>,
                      f: nat, block: nat, b: nat)
    requires Separated(e, geo, a, im, meta) && Exact(geo, a) && f in im.inodes && block < 12
    requires Filled(e, geo, a, im, a', im', Loc(f, InodeSlot(block)), b)
    ensures Created(e, geo, a, im, a', im', meta, f, block, Block(b))
  {
    hide PathOnly;
    FilledUpdates(e, geo, a, im, a', im', meta, Loc(f, InodeSlot(block)), b, block);
    FilledPathOnly(e, geo, a, im, a', im', Loc(f, InodeSlot(block)), b, block);
    NonNegative(geo, a);
  }

  lemma NonNegative(geo: Geometry, a: Accounts)
    requires Exact(geo, a)
    ensures 0 <= a.superFree
  {
    if a.groupFree != [] { SumAtLeast(a.groupFree, 0); }
  }

  /** The two steps of an indirect creation: the inode slot holds `b1` and the table the answer, each 0
      when it could not be allocated. */
  ghost predicate IndirectSteps(e: nat, geo: Geometry, a0: Accounts, im0: Image, a1: Accounts, im1: Image,
                                a2: Accounts, im2: Image, meta: set<nat>, f: nat, block: nat, b1: nat, r: MapResult)
  {
    && Separated(e, geo, a0, im0, meta) && Exact(geo, a0) && Exact(geo, a1) && f in im0.inodes
    && SlotOf(e, block).Indirect?
    && Filled(e, geo, a0, im0, a1, im1, Loc(f, InodeSlot(12)), b1)
    && (b1 == 0 ==> im2 == im1 && a2 == a1 && InodeOk(im2, f) && r == FailureAnswer(e, im2, f, block))
    && (b1 != 0 ==> Separated(e, geo, a1, im1, meta) && r.Block?)
    && (b1 != 0 ==> Filled(e, geo, a1, im1, a2, im2, Loc(f, SlotOf(e, block)), r.n))
  }

  lemma IndirectUpdates(e: nat, geo: Geometry, a0: Accounts, im0: Image, a1: Accounts, im1: Image, a2: Accounts,
                        im2: Image, meta: set<nat>, f: nat, block: nat, b1: nat, r: MapResult)
    requires IndirectSteps(e, geo, a0, im0, a1, im1, a2, im2, meta, f, block, b1, r)
    ensures Updates(e, im0, im2, f, block, meta) && PathOnly(e, im0, im2, f, block)
  {
    hide Marked, IsFree, Exact, PathOnly, Lookup;
    var l0, l := Loc(f, InodeSlot(12)), Loc(f, SlotOf(e, block));
    FilledUpdates(e, geo, a0, im0, a1, im1, meta, l0, b1, block);
    FilledPathOnly(e, geo, a0, im0, a1, im1, l0, b1, block);
    if b1 != 0 {
      FilledUpdates(e, geo, a1, im1, a2, im2, meta, l, r.n, block);
      FilledPathOnly(e, geo, a1, im1, a2, im2, l, r.n, block);
      UpdatesTransitive(e, im0, im1, im2, f, block, meta);
      PathOnlyTransitive(e, im0, im1, im2, f, block);
    }
  }

  lemma IndirectCreated(e: nat, geo: Geometry, a0: Accounts, im0: Image, a1: Accounts, im1: Image, a2: Accounts,
                        im2: Image, meta: set<nat>, f: nat, block: nat, b1: nat, r: MapResult)
    requires IndirectSteps(e, geo, a0, im0, a1, im1, a2, im2, meta, f, block, b1, r)
    ensures Created(e, geo, a0, im0, a2, im2, meta, f, block, r)
  {
    hide PathOnly, Updates, Exact, Marked, IsFree;
    var l0, l := Loc(f, InodeSlot(12)), Loc(f, SlotOf(e, block));
    IndirectUpdates(e, geo, a0, im0, a1, im1, a2, im2, meta, f, block, b1, r);
    assert Ptr(im0, l0) == im0.inodes[f][12];
    assert Ptr(im1, l0) == b1 && Ptr(im1, l) == Ptr(im0, l);
    NonNegative(geo, a0);
    FilledCounts(e, geo, a0, im0, a1, im1, l0, b1);
    if b1 != 0 {
      assert Ptr(im2, l) == r.n;
      FilledCounts(e, geo, a1, im1, a2, im2, l, r.n);
      NonNegative(geo, a1);
      if r.n != 0 && Ptr(im0, l) == 0 { StillFree(geo, a0, a1, b1, r.n); }
    }
  }

  /** A block that is free after another one was taken was free before. */
  lemma StillFree(geo: Geometry, a: Accounts, a': Accounts, b: nat, c: nat)
    requires Shaped(geo, a)
    requires a' == a || (IsFree(geo, a, b) && a' == Marked(geo, a, b, true))
    requires Shaped(geo, a') && IsFree(geo, a', c)
    ensures IsFree(geo, a, c)
  {
    if a' != a { MarkedIsFree(geo, a, b, true, c); }
  }

  /** What filling a place does to the counts. */
  lemma FilledCounts(e: nat, geo: Geometry, a: Accounts, im: Image, a': Accounts, im': Image, l: Loc, b: nat)
    requires Shaped(geo, a) && l.file in im.inodes && InodeOk(im, l.file) && Filled(e, geo, a, im, a', im', l, b)
    ensures im'.inodes.Keys == im.inodes.Keys && InodeOk(im', l.file)
    ensures b == 0 <==> Ptr(im, l) == 0 && a.superFree == 0
    ensures b == 0 || Ptr(im, l) != 0 ==> im' == im && a' == a
    ensures b != 0 && Ptr(im, l) == 0 ==>
      && IsFree(geo, a, b) && a' == Marked(geo, a, b, true) && a'.superFree == a.superFree - 1
      && b in im'.disk && im'.disk[b] == Zeros(e)
  {
  }

  /** The three steps of a double indirect creation: the inode slot holds `b1`, the outer table `b2`
      and the inner table the answer, each 0 when it could not be allocated. */
  ghost predicate DoubleSteps(e: nat, geo: Geometry, a0: Accounts, im0: Image, a1: Accounts, im1: Image, a2: Accounts,
                              im2: Image, a3: Accounts, im3: Image, meta: set<nat>, f: nat, block: nat, b1: nat,
                              b2: nat, r: MapResult)
  {
    && Separated(e, geo, a0, im0, meta) && Exact(geo, a0) && Exact(geo, a1) && Exact(geo, a2) && f in im0.inodes
    && SlotOf(e, block).Leaf?
    && Filled(e, geo, a0, im0, a1, im1, Loc(f, InodeSlot(13)), b1)
    && (b1 == 0 ==> im2 == im1 && a2 == a1 && b2 == 0)
    && (b1 != 0 ==> Separated(e, geo, a1, im1, meta))
    && (b1 != 0 ==> Filled(e, geo, a1, im1, a2, im2, Loc(f, Double(SlotOf(e, block).s)), b2))
    && (b2 == 0 ==> im3 == im2 && a3 == a2)
    && (b2 != 0 ==> Separated(e, geo, a2, im2, meta) && r.Block?)
    && (b2 != 0 ==> Filled(e, geo, a2, im2, a3, im3, Loc(f, SlotOf(e, block)), r.n))
  }

  lemma DoubleUpdates(e: nat, geo: Geometry, a0: Accounts, im0: Image, a1: Accounts, im1: Image, a2: Accounts,
                      im2: Image, a3: Accounts, im3: Image, meta: set<nat>, f: nat, block: nat, b1: nat, b2: nat,
                      r: MapResult)
    requires DoubleSteps(e, geo, a0, im0, a1, im1, a2, im2, a3, im3, meta, f, block, b1, b2, r)
    ensures Updates(e, im0, im3, f, block, meta)
  {
    hide Marked, IsFree, Exact, Lookup;
    FilledUpdates(e, geo, a0, im0, a1, im1, meta, Loc(f, InodeSlot(13)), b1, block);
    if b1 != 0 {
      FilledUpdates(e, geo, a1, im1, a2, im2, meta, Loc(f, Double(SlotOf(e, block).s)), b2, block);
      UpdatesTransitive(e, im0, im1, im2, f, block, meta);
    }
    if b2 != 0 {
      FilledUpdates(e, geo, a2, im2, a3, im3, meta, Loc(f, SlotOf(e, block)), r.n, block);
      UpdatesTransitive(e, im0, im2, im3, f, block, meta);
    }
  }

  lemma DoublePathOnly(e: nat, geo: Geometry, a0: Accounts, im0: Image, a1: Accounts, im1: Image, a2: Accounts,
                       im2: Image, a3: Accounts, im3: Image, meta: set<nat>, f: nat, block: nat, b1: nat, b2: nat,
                       r: MapResult)
    requires DoubleSteps(e, geo, a0, im0, a1, im1, a2, im2, a3, im3, meta, f, block, b1, b2, r)
    ensures 0 < e && PathOnly(e, im0, im3, f, block)
  {
    hide Marked, IsFree, Exact, Filled, PathOnly;
    FilledPathOnly(e, geo, a0, im0, a1, im1, Loc(f, InodeSlot(13)), b1, block);
    FilledCounts(e, geo, a0, im0, a1, im1, Loc(f, InodeSlot(13)), b1);
    if b1 != 0 {
      FilledCounts(e, geo, a1, im1, a2, im2, Loc(f, Double(SlotOf(e, block).s)), b2);
      FilledPathOnly(e, geo, a1, im1, a2, im2, Loc(f, Double(SlotOf(e, block).s)), b2, block);
      PathOnlyTransitive(e, im0, im1, im2, f, block);
    }
    if b2 != 0 {
      FilledPathOnly(e, geo, a2, im2, a3, im3, Loc(f, SlotOf(e, block)), r.n, block);
      PathOnlyTransitive(e, im0, im2, im3, f, block);
    }
  }

  lemma DoublePointers(e: nat, geo: Geometry, a0: Accounts, im0: Image, a1: Accounts, im1: Image, a2: Accounts,
                       im2: Image, a3: Accounts, im3: Image, meta: set<nat>, f: nat, block: nat, b1: nat, b2: nat,
                       r: MapResult)
    requires DoubleSteps(e, geo, a0, im0, a1, im1, a2, im2, a3, im3, meta, f, block, b1, b2, r)
    ensures var l1, l := Loc(f, Double(SlotOf(e, block).s)), Loc(f, SlotOf(e, block));
      && Ptr(im1, l1) == Ptr(im0, l1)
      && InodeOk(im2, f) && Ptr(im2, l) == Ptr(im0, l)
      && InodeOk(im3, f) && Ptr(im3, l) == (if b2 == 0 then Ptr(im0, l) else r.n)
      && im3.inodes[f][13] == b1 && (b1 != 0 ==> Ptr(im3, l1) == b2)
  {
    assert Ptr(im1, Loc(f, InodeSlot(13))) == b1 == im1.inodes[f][13];
    assert Ptr(im3, Loc(f, InodeSlot(13))) == im3.inodes[f][13];
    assert Ptr(im1, Loc(f, SlotOf(e, block))) == Ptr(im0, Loc(f, SlotOf(e, block)));
  }

  /** A double indirect creation that ran out of blocks answers what FailureAnswer says. */
  lemma DoubleFails(e: nat, geo: Geometry, a0: Accounts, im0: Image, a1: Accounts, im1: Image, a2: Accounts, im2: Image,
                    a3: Accounts, im3: Image, meta: set<nat>, f: nat, block: nat, b1: nat, b2: nat, r: MapResult)
    requires DoubleSteps(e, geo, a0, im0, a1, im1, a2, im2, a3, im3, meta, f, block, b1, b2, r)
    requires b2 == 0 ==> InodeOk(im3, f) && r == FailureAnswer(e, im3, f, block)
    ensures InodeOk(im3, f) && (Lookup(e, im3, f, block) == 0 ==> r == FailureAnswer(e, im3, f, block))
  {
    hide Filled, Updates, Separated;
    DoublePointers(e, geo, a0, im0, a1, im1, a2, im2, a3, im3, meta, f, block, b1, b2, r);
  }

  /** The three steps succeed exactly when the missing blocks are free, and use just those. */
  lemma DoubleCounts(e: nat, geo: Geometry, a0: Accounts, im0: Image, a1: Accounts, im1: Image, a2: Accounts,
                     im2: Image, a3: Accounts, im3: Image, meta: set<nat>, f: nat, block: nat, b1: nat, b2: nat,
                     r: MapResult)
    requires DoubleSteps(e, geo, a0, im0, a1, im1, a2, im2, a3, im3, meta, f, block, b1, b2, r)
    ensures InodeOk(im0, f) && InodeOk(im3, f) && 0 < e
    ensures Lookup(e, im3, f, block) != 0 <==> Missing(e, im0, f, block) <= a0.superFree
    ensures Lookup(e, im3, f, block) != 0 ==>
      r == Block(Lookup(e, im3, f, block)) && a3.superFree == a0.superFree - Missing(e, im0, f, block)
  {
    hide Filled, Updates, Marked, IsFree, Exact;
    DoublePointers(e, geo, a0, im0, a1, im1, a2, im2, a3, im3, meta, f, block, b1, b2, r);
    FilledCounts(e, geo, a0, im0, a1, im1, Loc(f, InodeSlot(13)), b1);
    if b1 != 0 { FilledCounts(e, geo, a1, im1, a2, im2, Loc(f, Double(SlotOf(e, block).s)), b2); }
    if b2 != 0 { FilledCounts(e, geo, a2, im2, a3, im3, Loc(f, SlotOf(e, block)), r.n); }
    NonNegative(geo, a0); NonNegative(geo, a1); NonNegative(geo, a2);
    assert Ptr(im0, Loc(f, InodeSlot(13))) == im0.inodes[f][13];
  }

  /** A block newly mapped was free before the first step and reads as zeros after the last. */
  lemma DoubleFresh(e: nat, geo: Geometry, a0: Accounts, im0: Image, a1: Accounts, im1: Image, a2: Accounts, im2: Image,
                    a3: Accounts, im3: Image, meta: set<nat>, f: nat, block: nat, b1: nat, b2: nat, r: MapResult)
    requires DoubleSteps(e, geo, a0, im0, a1, im1, a2, im2, a3, im3, meta, f, block, b1, b2, r)
    ensures InodeOk(im0, f) && InodeOk(im3, f) && 0 < e
    ensures Lookup(e, im3, f, block) != 0 && Lookup(e, im0, f, block) == 0 ==>
      r.Block? && IsFresh(geo, a0, r.n) && r.n in im3.disk && im3.disk[r.n] == Zeros(e)
  {
    hide Filled, Updates, Marked, IsFree, Exact;
    DoublePointers(e, geo, a0, im0, a1, im1, a2, im2, a3, im3, meta, f, block, b1, b2, r);
    FilledCounts(e, geo, a0, im0, a1, im1, Loc(f, InodeSlot(13)), b1);
    if b1 != 0 { FilledCounts(e, geo, a1, im1, a2, im2, Loc(f, Double(SlotOf(e, block).s)), b2); }
    if b2 != 0 {
      FilledCounts(e, geo, a2, im2, a3, im3, Loc(f, SlotOf(e, block)), r.n);
      if r.n != 0 && Lookup(e, im0, f, block) == 0 {
        StillFree(geo, a1, a2, b2, r.n);
        StillFree(geo, a0, a1, b1, r.n);
      }
    }
  }

  lemma DoubleCreated(e: nat, geo: Geometry, a0: Accounts, im0: Image, a1: Accounts, im1: Image, a2: Accounts,
                      im2: Image, a3: Accounts, im3: Image, meta: set<nat>, f: nat, block: nat, b1: nat, b2: nat,
                      r: MapResult)
    requires DoubleSteps(e, geo, a0, im0, a1, im1, a2, im2, a3, im3, meta, f, block, b1, b2, r)
    requires b2 == 0 ==> InodeOk(im3, f) && r == FailureAnswer(e, im3, f, block)
    ensures Created(e, geo, a0, im0, a3, im3, meta, f, block, r)
  {
    hide Filled, Updates, Exact, FailureAnswer, Missing, Lookup, IsFresh, PathOnly;
    DoublePathOnly(e, geo, a0, im0, a1, im1, a2, im2, a3, im3, meta, f, block, b1, b2, r);
    DoubleUpdates(e, geo, a0, im0, a1, im1, a2, im2, a3, im3, meta, f, block, b1, b2, r);
    DoubleFails(e, geo, a0, im0, a1, im1, a2, im2, a3, im3, meta, f, block, b1, b2, r);
    DoubleCounts(e, geo, a0, im0, a1, im1, a2, im2, a3, im3, meta, f, block, b1, b2, r);
    DoubleFresh(e, geo, a0, im0, a1, im1, a2, im2, a3, im3, meta, f, block, b1, b2, r);
  }

  /** A mounted volume: the allocator, the inodes and the blocks of the device. */
  class Volume {
    const entriesPerBlock: nat
    const alloc: BlockAllocator
    var inodes: map<nat, seq<nat>>
    var disk: map<nat, seq<nat>>
    ghost const meta: set<nat>

    ghost function View(): (im: Image)
      reads this
    {
      Image(inodes, disk)
    }

    ghost predicate Valid()
      reads this, alloc
    {
      alloc.Valid() && Separated(entriesPerBlock, alloc.geo, alloc.State(), View(), meta)
    }

    constructor (alloc: BlockAllocator, im: Image, entriesPerBlock: nat, ghost meta: set<nat>)
      requires alloc.Valid() && Separated(entriesPerBlock, alloc.geo, alloc.State(), im, meta)
      ensures Valid() && this.alloc == alloc && View() == im && this.meta == meta
      ensures this.entriesPerBlock == entriesPerBlock
    {
      this.alloc := alloc;
      this.entriesPerBlock := entriesPerBlock;
      this.meta := meta;
      inodes, disk := im.inodes, im.disk;
    }

    /** Ext3BlockNew as the map sees it: the new block has been zeroed. */
    method NewBlock() returns (b: nat)
      requires Valid()
      modifies this, alloc
      ensures alloc.Valid() && inodes == old(inodes)
      ensures b == 0 <==> old(alloc.superFree) == 0
      ensures b == 0 ==> alloc.State() == old(alloc.State()) && disk == old(disk)
      ensures b != 0 ==> IsFree(alloc.geo, old(alloc.State()), b)
      ensures b != 0 ==> alloc.State() == Marked(alloc.geo, old(alloc.State()), b, true)
      ensures b != 0 ==> disk == old(disk)[b := Zeros(entriesPerBlock)]
    {
      b := alloc.BlockNew();
      if b != 0 {
        disk := disk[b := Zeros(entriesPerBlock)];
      }
    }

    /** Read an inode slot; with create, link a fresh block into a slot that holds 0. */
    method InodePointer(f: nat, i: nat, create: bool) returns (r: MapResult)
      requires Valid() && f in inodes && i < 14
      modifies this, alloc
      ensures Valid()
      ensures !create ==> View() == old(View()) && alloc.State() == old(alloc.State())
      ensures !create ==> r == if old(inodes)[f][i] == 0 then Hole else Block(old(inodes)[f][i])
      ensures create ==> r.Block? && Filled(entriesPerBlock, alloc.geo, old(alloc.State()), old(View()),
                                            alloc.State(), View(), Loc(f, InodeSlot(i)), r.n)
    {
      ghost var a, im, l := alloc.State(), View(), Loc(f, InodeSlot(i));
      assert Ptr(im, l) == inodes[f][i];
      if inodes[f][i] == 0 {
        if !create {
          return Hole;
        }
        var b := NewBlock();
        inodes := inodes[f := Put(inodes[f], i, b)];
        if b != 0 {
          assert View() == Linked(entriesPerBlock, im, l, b);
          LinkKeeps(a, im, l, b);
        } else {
          assert inodes[f] == im.inodes[f];
          assert inodes == im.inodes;
        }
      }
      r := Block(inodes[f][i]);
    }

    lemma LinkKeeps(a: Accounts, im: Image, l: Loc, b: nat)
      requires Separated(entriesPerBlock, alloc.geo, a, im, meta) && IsFree(alloc.geo, a, b) && b != 0
      requires a.superFree != 0
      requires l.file in im.inodes && CanLink(entriesPerBlock, im, l)
      requires !l.slot.InodeSlot? ==> TableOf(im, l) in im.disk && TableOf(im, l) != b
      requires !l.slot.InodeSlot? ==> IndexOf(l.slot) < |im.disk[TableOf(im, l)]|
      ensures Separated(entriesPerBlock, alloc.geo, Marked(alloc.geo, a, b, true),
                        Linked(entriesPerBlock, im, l, b), meta)
      ensures Filled(entriesPerBlock, alloc.geo, a, im, Marked(alloc.geo, a, b, true),
                     Linked(entriesPerBlock, im, l, b), l, b)
    {
      LinkedSeparated(entriesPerBlock, alloc.geo, a, im, meta, l, b);
      forall m: Loc | m.file in im.inodes && InodeOk(im, m.file)
        ensures InodeOk(Linked(entriesPerBlock, im, l, b), m.file)
        ensures Ptr(Linked(entriesPerBlock, im, l, b), m) == if m == l then b else Ptr(im, m)
      {
        LinkedPtr(entriesPerBlock, alloc.geo, a, im, meta, l, b, m);
      }
    }

    /** Read entry `o` of table `t`; with create, link a fresh block into an entry that holds 0.
        When the table could not be allocated the code goes on with a block that is not a table of
        this file (`present` is false). No block is free then, and nothing changes. */
    method TablePointer(t: nat, o: nat, create: bool, ghost l: Loc, ghost present: bool) returns (r: MapResult)
      requires Valid() && l.file in inodes && !l.slot.InodeSlot?
      requires o == IndexOf(l.slot) < entriesPerBlock
      requires if present then t != 0 && t == TableOf(View(), l) else create && alloc.superFree == 0
      modifies this, alloc
      ensures Valid()
      ensures !create || !present ==> View() == old(View()) && alloc.State() == old(alloc.State())
      ensures !present ==> r == Word(View(), t, o)
      ensures present && !create ==> r == if Ptr(old(View()), l) == 0 then Hole else Block(Ptr(old(View()), l))
      ensures present && create ==> r.Block? && Filled(entriesPerBlock, alloc.geo, old(alloc.State()), old(View()),
                                                    alloc.State(), View(), l, r.n)
    {
      ghost var a, im := alloc.State(), View();
      ParentPtr(im, l);
      if t !in disk || |disk[t]| <= o {
        return IoError;
      }
      if disk[t][o] == 0 {
        if !create {
          return Hole;
        }
        var b := NewBlock();
        disk := disk[t := Put(disk[t], o, b)];
        if b != 0 {
          LinkIsDefined(entriesPerBlock, alloc.geo, a, im, meta, l, b);
          assert View() == Linked(entriesPerBlock, im, l, b);
          LinkKeeps(a, im, l, b);
        } else {
          assert disk[t] == im.disk[t];
          assert disk == im.disk;
        }
      }
      r := Block(disk[t][o]);
    }

    method MapDirect(f: nat, block: nat, create: bool) returns (r: MapResult)
      requires Valid() && f in inodes && block < 12
      modifies this, alloc
      ensures Valid()
      ensures !create ==> View() == old(View()) && alloc.State() == old(alloc.State())
      ensures !create ==> r == Answer(Lookup(entriesPerBlock, old(View()), f, block))
      ensures create ==> Created(entriesPerBlock, alloc.geo, old(alloc.State()), old(View()), alloc.State(), View(),
                                 meta, f, block, r)
    {
      ghost var a, im := alloc.State(), View();
      r := InodePointer(f, block, create);
      if create {
        DirectCreated(entriesPerBlock, alloc.geo, a, im, alloc.State(), View(), meta, f, block, r.n);
      }
    }

    method MapIndirect(f: nat, block: nat, create: bool) returns (r: MapResult)
      requires Valid() && f in inodes && SlotOf(entriesPerBlock, block).Indirect?
      modifies this, alloc
      ensures Valid()
      ensures !create ==> View() == old(View()) && alloc.State() == old(alloc.State())
      ensures !create ==> r == Answer(Lookup(entriesPerBlock, old(View()), f, block))
      ensures create ==> Created(entriesPerBlock, alloc.geo, old(alloc.State()), old(View()), alloc.State(), View(),
                                 meta, f, block, r)
    {
      ghost var a0, im0 := alloc.State(), View();
      r := InodePointer(f, 12, create);
      if r == Hole {
        return;
      }
      ghost var a1, im1, b1 := alloc.State(), View(), r.n;
      assert Ptr(im1, Loc(f, InodeSlot(12))) == b1;
      r := TablePointer(r.n, block - 12, create, Loc(f, Indirect(block - 12)), b1 != 0);
      if create {
        IndirectCreated(entriesPerBlock, alloc.geo, a0, im0, a1, im1, alloc.State(), View(), meta, f, block, b1, r);
      }
    }

    method MapDouble(f: nat, block: nat, create: bool) returns (r: MapResult)
      requires Valid() && f in inodes && SlotOf(entriesPerBlock, block).Leaf? && block < Limit(entriesPerBlock)
      modifies this, alloc
      ensures Valid()
      ensures !create ==> View() == old(View()) && alloc.State() == old(alloc.State())
      ensures !create ==> r == Answer(Lookup(entriesPerBlock, old(View()), f, block))
      ensures create ==> Created(entriesPerBlock, alloc.geo, old(alloc.State()), old(View()), alloc.State(), View(),
                                 meta, f, block, r)
    {
      hide Updates, Created, Missing, Exact, Marked, PathOnly;
      ghost var a0, im0 := alloc.State(), View();
      var rest := block - 12 - entriesPerBlock;
      DivBelow(entriesPerBlock, rest, entriesPerBlock);
      var second, offset := rest / entriesPerBlock, rest % entriesPerBlock;
      r := InodePointer(f, 13, create);
      if r == Hole {
        return;
      }
      ghost var a1, im1, b1 := alloc.State(), View(), r.n;
      assert Ptr(im1, Loc(f, InodeSlot(13))) == b1;
      r := TablePointer(r.n, second, create, Loc(f, Double(second)), b1 != 0);
      ghost var b2 := if r.Block? && b1 != 0 then r.n else 0;
      ghost var a2, im2 := alloc.State(), View();
      if r.Block? {
        r := TablePointer(r.n, offset, create, Loc(f, Leaf(second, offset)), b2 != 0);
        if r == IoError {
          r := Stopped;
        }
      }
      if create {
        DoubleCreated(entriesPerBlock, alloc.geo, a0, im0, a1, im1, a2, im2, alloc.State(), View(), meta, f, block,
                      b1, b2, r);
      }
    }

    /** Ext3BlockMapHandle. Past the double indirect table the kernel halts. Without create, nothing
        changes and the answer is -1 exactly on the holes. With create, see Created: the block becomes
        mapped if and only if the missing blocks of its path are free, it keeps an old mapping, every
        other block of every file keeps its mapping, and all data stays in place. */
    method MapHandle(f: nat, block: nat, create: bool) returns (r: MapResult)
      requires Valid() && f in inodes
      modifies this, alloc
      ensures Valid()
      ensures block >= Limit(entriesPerBlock) ==> r == Stopped
      ensures !create || block >= Limit(entriesPerBlock) ==>
                View() == old(View()) && alloc.State() == old(alloc.State())
      ensures !create && block < Limit(entriesPerBlock) ==> r == Answer(Lookup(entriesPerBlock, old(View()), f, block))
      ensures create && block < Limit(entriesPerBlock) ==>
                Created(entriesPerBlock, alloc.geo, old(alloc.State()), old(View()), alloc.State(), View(), meta, f,
                        block, r)
    {
      var e := entriesPerBlock;
      if block < 12 {
        r := MapDirect(f, block, create);
      } else if block - 12 < e {
        r := MapIndirect(f, block, create);
      } else if block - 12 - e < e * e {
        r := MapDouble(f, block, create);
      } else {
        r := Stopped;
      }
    }
  }
}
