/**
 The slab allocator (memory/slab.c). A cache hands out objects of one size from slabs of whole
 pages; a bitmap per slab says which objects are live. MemAlloc picks a cache by size.

 A circular slab list is a sequence here, in the order in which it is visited: the head, then
 `prev` by `prev`. ListAdd puts a new slab at the end of that order.
 */
module SlabAllocator {
  import opened Grid
  import Bitmap
  import opened Errors

  const PAGE_SIZE := 4096
  const MIN_OBJECT := 16
  const MAX_OBJECTS := 256
  const SLAB_HEADER := 48
  datatype Slab = Slab(page: nat, isFull: bool, bitmap: seq<bv8>)

  datatype Cache = Cache(size: nat, numPages: nat, offset: nat, numObjs: nat, slabs: seq<Slab>)

  /** Object i of slab s of cache c. */
  datatype Obj = Obj(c: nat, s: nat, i: nat)

  // ---- MemCacheCreate ----

  /** The layout of a cache: sizes are rounded, big objects keep the bookkeeping off the slab. */
  function Layout(size: nat, offSlab: bool): (c: Cache)
    requires 0 < size
  {
    var n := ((if size < MIN_OBJECT then MIN_OBJECT else size) + 3) / 4 * 4;
    var pages := if n > PAGE_SIZE then n / PAGE_SIZE else 1;
    var offset := if n >= PAGE_SIZE / 4 || offSlab then 0 else SLAB_HEADER;
    Cache(n, pages, offset, Row(n, pages * PAGE_SIZE - offset), [])
  }

  /** Every object fits in the slab, and every byte behind the header belongs to a number with a bit. */
  ghost predicate LayoutOk(c: Cache) {
    && 0 < c.size && c.numObjs <= MAX_OBJECTS
    && At(c.size, c.numObjs, c.offset) <= c.numPages * PAGE_SIZE <= At(c.size, MAX_OBJECTS, c.offset)
  }

  /** The sizes before the number of objects is worked out. */
  lemma LayoutBytes(size: nat, offSlab: bool)
    requires 0 < size
    ensures var c := Layout(size, offSlab);
      && MIN_OBJECT <= c.size && size <= c.size && c.offset <= SLAB_HEADER
      && (c.size > PAGE_SIZE ==> c.offset == 0 && c.numPages * PAGE_SIZE == c.size - c.size % PAGE_SIZE)
      && (c.size <= PAGE_SIZE ==> c.numPages == 1)
      && (c.offset == 0 || c.size < PAGE_SIZE / 4)
      && c.numObjs == Row(c.size, c.numPages * PAGE_SIZE - c.offset)
  {
    hide Row;
  }

  /** Every object of a new cache fits in the slab and has a bit in the bitmap. */
  lemma LayoutFits(size: nat, offSlab: bool)
    requires 0 < size
    ensures LayoutOk(Layout(size, offSlab)) && size <= Layout(size, offSlab).size
  {
    hide Row, Layout, At;
    LayoutBytes(size, offSlab);
    var c := Layout(size, offSlab);
    var bytes := c.numPages * PAGE_SIZE - c.offset;
    AtRowCol(c.size, bytes);
    AtAdd(c.size, c.numObjs, 0, Col(c.size, bytes));
    AtAdd(c.size, c.numObjs, 0, c.offset);
    RowBelow(c.size, bytes, MAX_OBJECTS + 1);
    AtIsMul(c.size, MAX_OBJECTS + 1, 0);
    AtIsMul(c.size, MAX_OBJECTS, c.offset);
  }

  /** What MemCacheCreate works out: the size rounded up to a multiple of four and at least 16, the header
      on the slab for objects below a quarter of a page, and as many objects as fit. */
  lemma LayoutExact(size: nat, offSlab: bool)
    requires 0 < size
    ensures var c, least := Layout(size, offSlab), if size < 16 then 16 else size;
      && least <= c.size < least + 4 && c.size % 4 == 0
      && (c.offset == 48 <==> c.size < 1024 && !offSlab) && (c.offset == 0 || c.offset == 48)
      && 0 <= c.numObjs * c.size <= c.numPages * 4096 - c.offset < (c.numObjs + 1) * c.size
  {
    hide Row, Layout;
    LayoutBytes(size, offSlab);
    LayoutRounds(size, offSlab);
    var c := Layout(size, offSlab);
    AsManyAsFit(c.size, c.numPages * 4096 - c.offset);
  }

  lemma LayoutRounds(size: nat, offSlab: bool)
    requires 0 < size
    ensures var c, least := Layout(size, offSlab), if size < 16 then 16 else size;
      && least <= c.size < least + 4 && c.size % 4 == 0
      && (c.offset == 48 <==> c.size < 1024 && !offSlab) && (c.offset == 0 || c.offset == 48)
  {
    hide Row;
  }

  lemma AsManyAsFit(size: nat, bytes: nat)
    requires 0 < size
    ensures 0 <= Row(size, bytes) * size <= bytes < (Row(size, bytes) + 1) * size
  {
    GridIsDivMod(size, bytes);
    assert bytes == bytes / size * size + bytes % size;
    assert (bytes / size + 1) * size == bytes / size * size + size;
  }

  /** A cache can hold an object unless its size is above a page and not a whole number of pages. */
  lemma HoldsObjectsIff(size: nat, offSlab: bool)
    requires 0 < size
    ensures var c := Layout(size, offSlab);
      c.numObjs >= 1 <==> c.size <= PAGE_SIZE || c.size % PAGE_SIZE == 0
  {
    hide Row, Layout, At;
    LayoutBytes(size, offSlab);
    var c := Layout(size, offSlab);
    RowBelow(c.size, c.numPages * PAGE_SIZE - c.offset, 1);
    AtIsMul(c.size, 1, 0);
  }

  // ---- Objects ----

  ghost predicate IsSlab(cs: seq<Cache>, c: nat, s: nat) {
    c < |cs| && s < |cs[c].slabs|
  }

  ghost predicate IsObj(cs: seq<Cache>, o: Obj) {
    IsSlab(cs, o.c, o.s) && o.i < cs[o.c].numObjs
  }

  ghost function Address(cs: seq<Cache>, o: Obj): (a: nat)
    requires IsObj(cs, o)
  {
    At(cs[o.c].size, o.i, cs[o.c].slabs[o.s].page + cs[o.c].offset)
  }

  lemma AddressByArithmetic(cs: seq<Cache>, o: Obj)
    requires IsObj(cs, o)
    ensures Address(cs, o) == cs[o.c].slabs[o.s].page + o.i * cs[o.c].size + cs[o.c].offset
  {
    AtIsMul(cs[o.c].size, o.i, cs[o.c].slabs[o.s].page + cs[o.c].offset);
  }

  ghost predicate SlabOk(c: Cache, s: Slab) {
    && |s.bitmap| == MAX_OBJECTS / 8
    && 0 < s.page
    && (s.isFull ==> forall i :: 0 <= i < c.numObjs && i < MAX_OBJECTS ==> Bitmap.Bit(s.bitmap, i))
  }

  ghost predicate CacheOk(c: Cache) {
    LayoutOk(c) && forall s :: 0 <= s < |c.slabs| ==> SlabOk(c, c.slabs[s])
  }

  ghost predicate Live(cs: seq<Cache>, o: Obj) {
    && IsObj(cs, o)
    && o.i / 8 < |cs[o.c].slabs[o.s].bitmap|
    && Bitmap.Bit(cs[o.c].slabs[o.s].bitmap, o.i)
  }

  ghost predicate Apart(a: nat, la: nat, b: nat, lb: nat) {
    a + la <= b || b + lb <= a
  }

  /** Slabs (c, s) and (d, t) lie in different memory. */
  ghost predicate SlabsApart(cs: seq<Cache>, c: nat, s: nat, d: nat, t: nat)
    requires IsSlab(cs, c, s) && IsSlab(cs, d, t)
  {
    Apart(cs[c].slabs[s].page, cs[c].numPages * PAGE_SIZE, cs[d].slabs[t].page, cs[d].numPages * PAGE_SIZE)
  }

  ghost predicate Sound(cs: seq<Cache>) {
    && (forall c :: 0 <= c < |cs| ==> CacheOk(cs[c]))
    && (forall c, s, d, t :: IsSlab(cs, c, s) && IsSlab(cs, d, t) && (c != d || s != t) ==> SlabsApart(cs, c, s, d, t))
  }

  /** An object lies inside its slab, behind the header. */
  lemma ObjectInside(cs: seq<Cache>, o: Obj)
    requires Sound(cs) && IsObj(cs, o)
    ensures var c := cs[o.c]; var page := c.slabs[o.s].page;
      page + c.offset <= Address(cs, o) && Address(cs, o) + c.size <= page + c.numPages * PAGE_SIZE
  {
    hide At;
    var c := cs[o.c];
    var base := c.slabs[o.s].page + c.offset;
    AtAdd(c.size, o.i, 0, base);
    AtAdd(c.size, c.numObjs, 0, c.offset);
    AtMono(c.size, o.i, c.numObjs, 0);
    assert CacheOk(c);
  }

  /** Different objects do not overlap, whichever slabs and caches they come from. */
  lemma ObjectsApart(cs: seq<Cache>, o: Obj, p: Obj)
    requires Sound(cs) && IsObj(cs, o) && IsObj(cs, p) && o != p
    ensures Apart(Address(cs, o), cs[o.c].size, Address(cs, p), cs[p.c].size)
  {
    hide At;
    if o.c == p.c && o.s == p.s {
      var base := cs[o.c].slabs[o.s].page + cs[o.c].offset;
      if o.i < p.i { AtMono(cs[o.c].size, o.i, p.i, base); } else { AtMono(cs[o.c].size, p.i, o.i, base); }
    } else {
      ObjectInside(cs, o);
      ObjectInside(cs, p);
      assert SlabsApart(cs, o.c, o.s, p.c, p.s);
    }
  }

  // ---- What the operations do to the caches ----

  function Empty(page: nat): (s: Slab) {
    Slab(page, false, seq(MAX_OBJECTS / 8, _ => 0))
  }

  /** MemCacheAddSlab, given what the page allocator answers: 0 means no memory. */
  function Grow(c: Cache, answer: nat): (r: Cache) {
    if answer == 0 then c else c.(slabs := c.slabs + [Empty(answer)])
  }

  /** Object i of slab s taken, with isFull set when it is the last one. */
  function Taken(c: Cache, s: nat, i: nat): (r: Cache)
    requires s < |c.slabs| && i / 8 < |c.slabs[s].bitmap|
  {
    var slab := c.slabs[s];
    c.(slabs := c.slabs[s := Slab(slab.page, slab.isFull || i == c.numObjs - 1, Bitmap.WithBit(slab.bitmap, i, true))])
  }

  /** SlabFree: the bit is cleared, and the slab cannot be full. */
  function Freed(c: Cache, s: nat, i: nat): (r: Cache)
    requires s < |c.slabs| && i / 8 < |c.slabs[s].bitmap|
  {
    var slab := c.slabs[s];
    c.(slabs := c.slabs[s := Slab(slab.page, false, Bitmap.WithBit(slab.bitmap, i, false))])
  }

  /** The first free object of a slab that is not marked full. */
  ghost predicate FirstFree(c: Cache, s: nat, i: nat) {
    && s < |c.slabs| && !c.slabs[s].isFull && i < c.numObjs <= MAX_OBJECTS <= 8 * |c.slabs[s].bitmap|
    && !Bitmap.Bit(c.slabs[s].bitmap, i)
    && forall j :: 0 <= j < i ==> Bitmap.Bit(c.slabs[s].bitmap, j)
  }

  /** Freeing what was just allocated restores the cache, bit by bit and flag by flag. */
  lemma FreeUndoesTake(c: Cache, s: nat, i: nat)
    requires FirstFree(c, s, i)
    ensures Freed(Taken(c, s, i), s, i) == c
  {
    Bitmap.ClearUndoesSet(c.slabs[s].bitmap, i);
    assert c.slabs[s] == Slab(c.slabs[s].page, false, c.slabs[s].bitmap);
  }

  /** A slab is marked full exactly when its highest object is taken. A slab that gets full because a lower
      one is taken again is not marked, and the search looks through it each time. */
  lemma MarkedFullIff(c: Cache, s: nat, i: nat)
    requires FirstFree(c, s, i)
    ensures Taken(c, s, i).slabs[s].isFull <==> i + 1 == c.numObjs
    ensures i + 1 == c.numObjs ==> forall j :: 0 <= j < c.numObjs ==> Bitmap.Bit(Taken(c, s, i).slabs[s].bitmap, j)
  {
    forall j | 0 <= j <= i ensures Bitmap.Bit(Taken(c, s, i).slabs[s].bitmap, j) {
      Bitmap.WithBitLaw(c.slabs[s].bitmap, i, true, j);
    }
  }

  /** The caches keep their layout and slabs, and perhaps gain some. */
  ghost predicate Extends(cs: seq<Cache>, cs': seq<Cache>) {
    && |cs| == |cs'|
    && forall c :: 0 <= c < |cs| ==> CacheExtends(cs[c], cs'[c])
  }

  ghost predicate CacheExtends(c: Cache, c': Cache) {
    && c'.size == c.size && c'.numPages == c.numPages && c'.offset == c.offset && c'.numObjs == c.numObjs
    && |c.slabs| <= |c'.slabs|
    && forall s :: 0 <= s < |c.slabs| ==> c'.slabs[s].page == c.slabs[s].page
  }

  lemma ExtendsTransitive(a: seq<Cache>, b: seq<Cache>, c: seq<Cache>)
    requires Extends(a, b) && Extends(b, c)
    ensures Extends(a, c)
  {
    forall i | 0 <= i < |a| ensures CacheExtends(a[i], c[i]) {
      assert CacheExtends(a[i], b[i]) && CacheExtends(b[i], c[i]);
    }
  }

  /** Objects stay where they are. */
  ghost predicate KeepsObjects(cs: seq<Cache>, cs': seq<Cache>) {
    forall o :: IsObj(cs, o) ==> IsObj(cs', o) && Address(cs', o) == Address(cs, o)
  }

  lemma ExtendsKeepsObjects(cs: seq<Cache>, cs': seq<Cache>)
    requires Extends(cs, cs')
    ensures KeepsObjects(cs, cs')
  {
    forall o | IsObj(cs, o) ensures IsObj(cs', o) && Address(cs', o) == Address(cs, o) {
      assert CacheExtends(cs[o.c], cs'[o.c]);
    }
  }

  /** Exactly object o has become live, and no object has moved. */
  ghost predicate Allocated(cs: seq<Cache>, cs': seq<Cache>, o: Obj) {
    && Extends(cs, cs') && KeepsObjects(cs, cs') && IsObj(cs', o) && !Live(cs, o)
    && forall p :: Live(cs', p) <==> Live(cs, p) || p == o
  }

  /** No object but o has changed, o is not live, and no object has moved. */
  ghost predicate Released(cs: seq<Cache>, cs': seq<Cache>, o: Obj) {
    && Extends(cs, cs') && KeepsObjects(cs, cs')
    && forall p :: Live(cs', p) <==> Live(cs, p) && p != o
  }

  lemma SetSlabSound(cs: seq<Cache>, c: nat, s: nat, slab: Slab)
    requires Sound(cs) && IsSlab(cs, c, s) && SlabOk(cs[c], slab) && slab.page == cs[c].slabs[s].page
    ensures var cs' := cs[c := cs[c].(slabs := cs[c].slabs[s := slab])]; Sound(cs') && Extends(cs, cs')
  {
    hide At;
    var n := cs[c].(slabs := cs[c].slabs[s := slab]);
    var cs' := cs[c := n];
    assert CacheOk(n) by {
      assert CacheOk(cs[c]);
      assert forall t :: 0 <= t < |n.slabs| ==> SlabOk(cs[c], n.slabs[t]) ==> SlabOk(n, n.slabs[t]);
    }
    forall b, t, d, u | IsSlab(cs', b, t) && IsSlab(cs', d, u) && (b != d || t != u)
      ensures SlabsApart(cs', b, t, d, u)
    {
      assert IsSlab(cs, b, t) && IsSlab(cs, d, u) && SlabsApart(cs, b, t, d, u);
    }
  }

  lemma TakenSound(cs: seq<Cache>, o: Obj)
    requires Sound(cs) && IsObj(cs, o) && FirstFree(cs[o.c], o.s, o.i)
    ensures var cs' := cs[o.c := Taken(cs[o.c], o.s, o.i)]; Sound(cs') && Allocated(cs, cs', o)
  {
    var c, slab := cs[o.c], cs[o.c].slabs[o.s];
    var n := Slab(slab.page, slab.isFull || o.i == c.numObjs - 1, Bitmap.WithBit(slab.bitmap, o.i, true));
    BitmapTaken(slab.bitmap, o.i, true);
    assert CacheOk(c);
    SetSlabSound(cs, o.c, o.s, n);
    ExtendsKeepsObjects(cs, cs[o.c := Taken(cs[o.c], o.s, o.i)]);
    LiveAfter(cs, o, n, true);
  }

  /** Any number with a bit can be freed; one that is not live stays so. */
  lemma FreedSound(cs: seq<Cache>, o: Obj)
    requires Sound(cs) && IsSlab(cs, o.c, o.s) && o.i < MAX_OBJECTS
    ensures CacheOk(cs[o.c]) && SlabOk(cs[o.c], cs[o.c].slabs[o.s])
    ensures var cs' := cs[o.c := Freed(cs[o.c], o.s, o.i)]; Sound(cs') && Released(cs, cs', o)
  {
    var c, slab := cs[o.c], cs[o.c].slabs[o.s];
    var n := Slab(slab.page, false, Bitmap.WithBit(slab.bitmap, o.i, false));
    BitmapTaken(slab.bitmap, o.i, false);
    assert CacheOk(c);
    SetSlabSound(cs, o.c, o.s, n);
    ExtendsKeepsObjects(cs, cs[o.c := Freed(cs[o.c], o.s, o.i)]);
    LiveAfter(cs, o, n, false);
  }

  lemma BitmapTaken(b: seq<bv8>, i: nat, value: bool)
    requires i / 8 < |b|
    ensures forall j: nat :: j / 8 < |b| ==>
              Bitmap.Bit(Bitmap.WithBit(b, i, value), j) == if j == i then value else Bitmap.Bit(b, j)
  {
    forall j: nat | j / 8 < |b|
      ensures Bitmap.Bit(Bitmap.WithBit(b, i, value), j) == if j == i then value else Bitmap.Bit(b, j)
    {
      Bitmap.WithBitLaw(b, i, value, j);
    }
  }

  lemma LiveAfter(cs: seq<Cache>, o: Obj, n: Slab, value: bool)
    requires IsSlab(cs, o.c, o.s) && |n.bitmap| == |cs[o.c].slabs[o.s].bitmap| && o.i / 8 < |n.bitmap|
    requires value ==> IsObj(cs, o)
    requires forall j: nat :: j / 8 < |n.bitmap| ==>
      Bitmap.Bit(n.bitmap, j) == if j == o.i then value else Bitmap.Bit(cs[o.c].slabs[o.s].bitmap, j)
    ensures var cs' := cs[o.c := cs[o.c].(slabs := cs[o.c].slabs[o.s := n])];
      forall p :: Live(cs', p) == if p == o then value else Live(cs, p)
  {
    hide Bitmap.Bit;
  }

  // ---- Growth ----

  /** What VirtMapPhysRange answers to the n-th request, or 0 when it has no memory to give. */
  type Answers = nat -> nat

  /** The range at a touches no slab. */
  ghost predicate Clear(cs: seq<Cache>, c: nat, a: nat)
    requires c < |cs|
  {
    forall d: nat, t: nat :: IsSlab(cs, d, t) ==>
      Apart(a, cs[c].numPages * PAGE_SIZE, cs[d].slabs[t].page, cs[d].numPages * PAGE_SIZE)
  }

  /** Ranges handed out are new and do not overlap. */
  ghost predicate Fresh(cs: seq<Cache>, c: nat, answers: Answers, n: nat)
    requires c < |cs|
  {
    && (forall m: nat :: n <= m && answers(m) != 0 ==> Clear(cs, c, answers(m)))
    && (forall l: nat, m: nat :: n <= l < m && answers(l) != 0 && answers(m) != 0 ==>
          Apart(answers(l), cs[c].numPages * PAGE_SIZE, answers(m), cs[c].numPages * PAGE_SIZE))
  }

  /** The cache after n requests for memory. */
  ghost function Grown(c: Cache, answers: Answers, n: nat): (r: Cache)
    ensures CacheExtends(c, r)
    ensures forall s :: 0 <= s < |c.slabs| ==> r.slabs[s] == c.slabs[s]
  {
    if n == 0 then c else Grow(Grown(c, answers, n - 1), answers(n - 1))
  }

  lemma EmptyIsFree(page: nat, i: nat)
    requires i < MAX_OBJECTS
    ensures !Bitmap.Bit(Empty(page).bitmap, i)
  {
    var m := Bitmap.SetMask(i % 8);
    assert (0 as bv8) & m == 0;
  }

  lemma GrowSound(cs: seq<Cache>, c: nat, answers: Answers, n: nat)
    requires Sound(cs) && c < |cs| && Fresh(cs, c, answers, n)
    ensures var cs' := cs[c := Grow(cs[c], answers(n))];
      && Sound(cs') && Extends(cs, cs') && Fresh(cs', c, answers, n + 1)
      && forall p :: Live(cs', p) <==> Live(cs, p)
  {
    hide At;
    var a := answers(n);
    var cs' := cs[c := Grow(cs[c], a)];
    if a == 0 {
      assert cs' == cs;
    } else {
      assert CacheOk(cs[c]);
      assert CacheOk(cs'[c]);
      forall p | Live(cs', p) ensures Live(cs, p) {
        EmptyIsFree(a, p.i);
      }
      forall b, t, d, u | IsSlab(cs', b, t) && IsSlab(cs', d, u) && (b != d || t != u)
        ensures SlabsApart(cs', b, t, d, u)
      {
        GrowApart(cs, c, a, b, t, d, u);
      }
      forall m: nat | n + 1 <= m && answers(m) != 0 ensures Clear(cs', c, answers(m)) {
        assert Clear(cs, c, answers(m));
        assert Apart(a, cs[c].numPages * PAGE_SIZE, answers(m), cs[c].numPages * PAGE_SIZE);
      }
    }
  }

  lemma GrowApart(cs: seq<Cache>, c: nat, a: nat, b: nat, t: nat, d: nat, u: nat)
    requires Sound(cs) && c < |cs| && a != 0 && Clear(cs, c, a)
    requires var cs' := cs[c := Grow(cs[c], a)]; IsSlab(cs', b, t) && IsSlab(cs', d, u) && (b != d || t != u)
    ensures SlabsApart(cs[c := Grow(cs[c], a)], b, t, d, u)
  {
    if IsSlab(cs, b, t) && IsSlab(cs, d, u) {
      assert SlabsApart(cs, b, t, d, u);
    }
  }

  // ---- The search for a free object ----

  /** Slab s has a free object that the search sees. */
  ghost predicate FreeAt(c: Cache, s: nat) {
    exists i :: FirstFree(c, s, i)
  }

  /** The search has reached slab k after n requests for memory. */
  datatype Search = Search(k: nat, n: nat)

  /** Slab k has nothing: at the last slab ask for memory, then go on to the next in the circle. */
  ghost function Turn(c: Cache, answers: Answers, q: Search): (r: Search) {
    var n := if q.k + 1 == |Grown(c, answers, q.n).slabs| then q.n + 1 else q.n;
    Search(if q.k + 1 < |Grown(c, answers, n).slabs| then q.k + 1 else 0, n)
  }

  ghost function Turns(c: Cache, answers: Answers, t: nat): (r: Search) {
    if t == 0 then Search(0, if c.slabs == [] then 1 else 0) else Turn(c, answers, Turns(c, answers, t - 1))
  }

  /** MemCacheAlloc comes back: with NULL when it has no slab and gets none, or with an object. */
  ghost predicate Returns(c: Cache, answers: Answers) {
    if c.slabs == [] then answers(0) == 0 || c.numObjs > 0
    else c.numObjs > 0 && (FreeAhead(c, 0) || exists n: nat :: answers(n) != 0)
  }

  lemma {:induction false} NoMemory(c: Cache, answers: Answers, n: nat)
    requires forall m: nat :: answers(m) == 0
    ensures Grown(c, answers, n) == c
  {
    if n == 0 {
    } else {
      NoMemory(c, answers, n - 1);
    }
  }

  /** Once there is a slab, the search never runs out of slabs. */
  lemma {:induction false} TurnsInside(c: Cache, answers: Answers, t: nat)
    requires c.slabs == [] ==> answers(0) != 0
    ensures var q := Turns(c, answers, t); q.k < |Grown(c, answers, q.n).slabs|
  {
    if t == 0 {
      assert Grown(c, answers, 1) == Grow(Grown(c, answers, 0), answers(0));
    } else {
      TurnsInside(c, answers, t - 1);
      var p := Turns(c, answers, t - 1);
      assert Grown(c, answers, p.n + 1) == Grow(Grown(c, answers, p.n), answers(p.n));
    }
  }

  /** Otherwise the search never ends: every turn reaches another slab and finds nothing in it. */
  lemma Diverges(c: Cache, answers: Answers, t: nat)
    requires !Returns(c, answers)
    ensures var q := Turns(c, answers, t);
      q.k < |Grown(c, answers, q.n).slabs| && !FreeAt(Grown(c, answers, q.n), q.k)
  {
    hide Turns, Grown;
    TurnsInside(c, answers, t);
    var q := Turns(c, answers, t);
    if c.numObjs == 0 {
      assert Grown(c, answers, q.n).numObjs == 0;
    } else {
      NoMemory(c, answers, q.n);
      assert !FreeAhead(c, 0);
    }
  }

  lemma FirstFreeBit(c: Cache, s: nat, i: nat)
    requires FirstFree(c, s, i)
    ensures s < |c.slabs| && i / 8 < |c.slabs[s].bitmap|
  {
  }

  ghost predicate FreeAhead(c: Cache, k: nat) {
    exists j: nat :: k <= j && FreeAt(c, j)
  }

  lemma AheadOf(c: Cache, k: nat)
    requires !FreeAt(c, k)
    ensures FreeAhead(c, k) <==> FreeAhead(c, k + 1)
  {
    hide FreeAt;
  }

  lemma FreeIsAhead(c: Cache, k: nat)
    requires FreeAt(c, k)
    ensures FreeAhead(c, k)
  {
  }

  lemma TurnsNext(c: Cache, answers: Answers, t: nat)
    ensures Turns(c, answers, t + 1) == Turn(c, answers, Turns(c, answers, t))
  {
  }

  lemma NoneBeyond(c: Cache)
    ensures !FreeAhead(c, |c.slabs|)
  {
  }

  lemma FullNotFree(c: Cache, k: nat)
    requires k < |c.slabs| && c.slabs[k].isFull
    ensures !FreeAt(c, k)
  {
  }

  /** The first object of a slab just added is free, and older slabs are as free as before. */
  lemma NewSlabFree(cs: seq<Cache>, c: nat, a: nat)
    requires Sound(cs) && c < |cs| && cs[c].numObjs > 0 && a != 0
    ensures FreeAt(Grow(cs[c], a), |cs[c].slabs|)
    ensures forall j :: 0 <= j < |cs[c].slabs| ==> (FreeAt(Grow(cs[c], a), j) <==> FreeAt(cs[c], j))
  {
    assert CacheOk(cs[c]);
    EmptyIsFree(a, 0);
    var g := Grow(cs[c], a);
    assert FirstFree(g, |cs[c].slabs|, 0);
    forall j | 0 <= j < |cs[c].slabs| ensures FreeAt(g, j) <==> FreeAt(cs[c], j) {
      if i :| FirstFree(g, j, i) { assert FirstFree(cs[c], j, i); }
      if i :| FirstFree(cs[c], j, i) { assert FirstFree(g, j, i); }
    }
  }

  /** The mark of full slabs hides nothing: the search sees a free object in a slab if and only if one of
      its objects is not live. */
  lemma FreeAtIff(cs: seq<Cache>, c: nat, s: nat)
    requires Sound(cs) && IsSlab(cs, c, s)
    ensures FreeAt(cs[c], s) <==> exists i: nat :: i < cs[c].numObjs && !Live(cs, Obj(c, s, i))
  {
    hide SlabsApart;
    assert CacheOk(cs[c]) && SlabOk(cs[c], cs[c].slabs[s]);
    if i: nat :| i < cs[c].numObjs && !Live(cs, Obj(c, s, i)) {
      var first := FirstClear(cs[c].slabs[s].bitmap, i);
      assert FirstFree(cs[c], s, first);
    }
    if i :| FirstFree(cs[c], s, i) { assert !Live(cs, Obj(c, s, i)); }
  }

  lemma {:induction false} FirstClear(b: seq<bv8>, i: nat) returns (j: nat)
    requires i / 8 < |b| && !Bitmap.Bit(b, i)
    ensures j <= i && !Bitmap.Bit(b, j) && forall k :: 0 <= k < j ==> Bitmap.Bit(b, k)
  {
    hide Bitmap.Bit;
    if k: nat :| k < i && !Bitmap.Bit(b, k) {
      j := FirstClear(b, k);
    } else {
      j := i;
    }
  }

  // ---- Which object is found ----

  /** Object i of slab s, after n requests for memory, is what MemCacheAlloc must take. A free object that
      is there is reused without a request, from the first slab that has one. Only when there is none,
      memory is asked for until it is granted, and the first object of the new slab is taken. */
  ghost predicate Chosen(c: Cache, answers: Answers, n: nat, s: nat, i: nat) {
    if exists u: nat :: FreeAt(c, u) then n == 0 && forall u: nat :: u < s ==> !FreeAt(c, u)
    else
      && i == 0 && s == |c.slabs|
      && 0 < n && answers(n - 1) != 0 && forall m: nat :: m < n - 1 ==> answers(m) == 0
  }

  /** What the search knows at slab q.k after q.n requests: nothing is free in the slabs behind it, and
      a request was granted only just now, for the slab it stands at. */
  ghost predicate Searched(c: Cache, answers: Answers, q: Search) {
    if q.n == 0 then forall u: nat :: u < q.k ==> !FreeAt(c, u)
    else
      && (forall u: nat :: !FreeAt(c, u)) && (forall m: nat :: m < q.n - 1 ==> answers(m) == 0)
      && (answers(q.n - 1) != 0 ==> q.k == |c.slabs|)
  }

  lemma {:induction false} GrownByNothing(c: Cache, answers: Answers, n: nat)
    requires forall m: nat :: m < n ==> answers(m) == 0
    ensures Grown(c, answers, n) == c
  {
    if n == 0 {
    } else {
      GrownByNothing(c, answers, n - 1);
    }
  }

  lemma OnlyInSlabs(c: Cache, u: nat)
    requires u >= |c.slabs|
    ensures !FreeAt(c, u)
  {
  }

  /** A turn of the search that finds nothing. */
  lemma SearchedTurn(c: Cache, answers: Answers, q: Search)
    requires Searched(c, answers, q) && q.k < |Grown(c, answers, q.n).slabs|
    requires !FreeAt(Grown(c, answers, q.n), q.k) && (0 < q.n ==> answers(q.n - 1) == 0)
    ensures Searched(c, answers, Turn(c, answers, q))
  {
    hide FreeAt;
    GrownByNothing(c, answers, q.n);
    assert Grown(c, answers, q.n + 1) == Grow(c, answers(q.n));
    forall u: nat | u >= |c.slabs| ensures !FreeAt(c, u) { OnlyInSlabs(c, u); }
  }

  /** The slab of a request just granted has a free object, its first. */
  lemma GrantedFree(c: Cache, answers: Answers, n: nat)
    requires 0 < c.numObjs <= MAX_OBJECTS
    requires 0 < n && answers(n - 1) != 0 && forall m: nat :: m < n - 1 ==> answers(m) == 0
    ensures FreeAt(Grown(c, answers, n), |c.slabs|)
    ensures forall i :: FirstFree(Grown(c, answers, n), |c.slabs|, i) ==> i == 0
  {
    GrownByNothing(c, answers, n - 1);
    EmptyIsFree(answers(n - 1), 0);
    assert FirstFree(Grow(c, answers(n - 1)), |c.slabs|, 0);
  }

  lemma StartsSearched(c: Cache, answers: Answers)
    ensures Searched(c, answers, Turns(c, answers, 0))
  {
    if c.slabs == [] {
      forall u: nat ensures !FreeAt(c, u) { OnlyInSlabs(c, u); }
    }
  }

  lemma ObjectBound(cs: seq<Cache>, c: nat)
    requires Sound(cs) && c < |cs|
    ensures cs[c].numObjs <= MAX_OBJECTS
  {
    assert CacheOk(cs[c]);
  }

  lemma SearchGoesOn(c: Cache, answers: Answers, q: Search)
    requires 0 < c.numObjs <= MAX_OBJECTS && Searched(c, answers, q) && q.k < |Grown(c, answers, q.n).slabs|
    requires !FreeAt(Grown(c, answers, q.n), q.k)
    ensures Searched(c, answers, Turn(c, answers, q))
  {
    hide FreeAt, Turn, FirstFree;
    if 0 < q.n && answers(q.n - 1) != 0 {
      GrantedFree(c, answers, q.n);
    }
    SearchedTurn(c, answers, q);
  }

  lemma SearchedChosen(c: Cache, answers: Answers, q: Search, i: nat)
    requires 0 < c.numObjs <= MAX_OBJECTS && Searched(c, answers, q) && FirstFree(Grown(c, answers, q.n), q.k, i)
    ensures Chosen(c, answers, q.n, q.k, i)
  {
    hide FirstFree;
    assert FreeAt(Grown(c, answers, q.n), q.k);
    if q.n > 0 {
      if answers(q.n - 1) == 0 {
        GrownByNothing(c, answers, q.n);
      } else {
        GrantedFree(c, answers, q.n);
      }
    }
  }

  class Heap {
    var caches: seq<Cache>

    /** MemCacheAddSlab: the new slab is the last in the circle and nothing in it is live. No object
        of any cache moves or changes, and all slabs lie in different memory. */
    method AddSlab(c: nat, answers: Answers, n: nat) returns (err: int)
      requires Sound(caches) && c < |caches| && Fresh(caches, c, answers, n)
      modifies this
      ensures Sound(caches) && c < |caches| && Fresh(caches, c, answers, n + 1)
      ensures Extends(old(caches), caches) && KeepsObjects(old(caches), caches)
      ensures forall p :: Live(caches, p) <==> Live(old(caches), p)
      ensures caches == old(caches)[c := Grow(old(caches)[c], answers(n))]
      ensures err == if answers(n) == 0 then -ENOMEM else 0
      ensures err != 0 <==> |caches[c].slabs| == |old(caches)[c].slabs|
    {
      hide Sound, Fresh, Live, Extends;
      GrowSound(caches, c, answers, n);
      ExtendsKeepsObjects(caches, caches[c := Grow(caches[c], answers(n))]);
      if answers(n) == 0 {
        assert caches == caches[c := Grow(caches[c], answers(n))];
        return -ENOMEM;
      }
      caches := caches[c := Grow(caches[c], answers(n))];
      return 0;
    }

    /** The first zero bit of a slab, if it has one. */
    method FindBit(c: nat, s: nat) returns (i: nat)
      requires Sound(caches) && IsSlab(caches, c, s) && !caches[c].slabs[s].isFull
      ensures if i < caches[c].numObjs then FirstFree(caches[c], s, i) else !FreeAt(caches[c], s)
    {
      assert CacheOk(caches[c]) && SlabOk(caches[c], caches[c].slabs[s]);
      i := 0;
      while i < caches[c].numObjs
        invariant i <= caches[c].numObjs
        invariant forall j :: 0 <= j < i ==> Bitmap.Bit(caches[c].slabs[s].bitmap, j)
      {
        if !Bitmap.Bit(caches[c].slabs[s].bitmap, i) {
          return;
        }
        i := i + 1;
      }
    }

    /** What the search has kept: the caches as they were, but for empty slabs added to cache c. */
    ghost predicate Searching(cs0: seq<Cache>, c: nat, answers: Answers, n: nat)
      reads this
    {
      && Sound(caches) && c < |cs0| && c < |caches| && Fresh(caches, c, answers, n)
      && caches == cs0[c := Grown(cs0[c], answers, n)]
      && Extends(cs0, caches) && forall p :: Live(caches, p) <==> Live(cs0, p)
    }

    /** A request for memory in the course of the search. */
    method Request(c: nat, answers: Answers, n: nat, ghost cs0: seq<Cache>)
      requires Searching(cs0, c, answers, n)
      modifies this
      ensures Searching(cs0, c, answers, n + 1)
      ensures caches[c] == Grow(old(caches)[c], answers(n))
    {
      hide Sound, Fresh, Live, Extends, KeepsObjects;
      ghost var cs := caches;
      var _ := AddSlab(c, answers, n);
      ExtendsTransitive(cs0, cs, caches);
    }

    method Take(c: nat, s: nat, i: nat, ghost cs0: seq<Cache>, ghost answers: Answers, ghost n: nat) returns (addr: nat)
      requires Searching(cs0, c, answers, n) && IsObj(caches, Obj(c, s, i)) && FirstFree(caches[c], s, i)
      modifies this
      ensures Sound(caches) && caches == old(caches)[c := Taken(old(caches)[c], s, i)]
      ensures Allocated(cs0, caches, Obj(c, s, i)) && addr == Address(caches, Obj(c, s, i)) && addr != 0
    {
      hide Fresh, Live, Extends, FirstFree, KeepsObjects;
      ghost var cs := caches;
      ghost var o := Obj(c, s, i);
      FirstFreeBit(caches[c], s, i);
      TakenSound(caches, o);
      caches := caches[c := Taken(caches[c], s, i)];
      ExtendsTransitive(cs0, cs, caches);
      ExtendsKeepsObjects(cs0, caches);
      ObjectInside(caches, o);
      assert CacheOk(caches[c]) && SlabOk(caches[c], caches[c].slabs[s]);
      addr := At(caches[c].size, i, caches[c].slabs[s].page + caches[c].offset);
    }

    /** The search stands at slab q.k after t turns, and will find an object: ahead, or after request w. */
    ghost predicate AtSlab(cs0: seq<Cache>, c: nat, answers: Answers, q: Search, t: nat, w: nat)
      reads this
    {
      && Searching(cs0, c, answers, q.n)
      && q.k < |caches[c].slabs| && caches[c].numObjs > 0
      && q == Turns(cs0[c], answers, t) && Searched(cs0[c], answers, q) && cs0[c].numObjs <= MAX_OBJECTS
      && (FreeAhead(caches[c], q.k) || (q.n <= w && answers(w) != 0))
    }

    ghost function RequestsLeft(c: nat, k: nat, n: nat, w: nat): int
      requires c < |caches|
      reads this
    {
      if FreeAhead(caches[c], k) then 0 else w - n + 1
    }

    /** On to the next slab of the circle, after a request for memory if this was the last one. */
    method Advance(c: nat, answers: Answers, k: nat, n: nat, ghost cs0: seq<Cache>, ghost t: nat, ghost w: nat)
        returns (k': nat, n': nat)
      requires AtSlab(cs0, c, answers, Search(k, n), t, w) && !FreeAt(caches[c], k)
      modifies this
      ensures AtSlab(cs0, c, answers, Search(k', n'), t + 1, w)
      ensures RequestsLeft(c, k', n', w) < old(RequestsLeft(c, k, n, w))
        || (RequestsLeft(c, k', n', w) == old(RequestsLeft(c, k, n, w)) && caches == old(caches) && k' == k + 1)
    {
      hide Sound, Fresh, Live, Extends, FreeAt, FirstFree, FreeAhead, Turns, Grown, Searched;
      ghost var cs := caches;
      SearchGoesOn(cs0[c], answers, Search(k, n));
      AheadOf(cs[c], k);
      NoneBeyond(cs[c]);
      TurnsNext(cs0[c], answers, t);
      n' := n;
      if k + 1 == |caches[c].slabs| {
        Request(c, answers, n, cs0);
        n' := n + 1;
        if answers(n) != 0 {
          NewSlabFree(cs, c, answers(n));
          FreeIsAhead(caches[c], k + 1);
        }
      }
      k' := if k + 1 < |caches[c].slabs| then k + 1 else 0;
    }

    /** MemCacheAlloc. The object returned was free and is the first free one: in the first slab that has
        one, or in a slab added because none had. */
    method MemCacheAlloc(c: nat, answers: Answers) returns (addr: nat, ghost o: Obj, ghost n: nat)
      requires Sound(caches) && c < |caches| && Fresh(caches, c, answers, 0) && Returns(caches[c], answers)
      modifies this
      ensures Sound(caches)
      ensures addr == 0 <==> old(caches)[c].slabs == [] && answers(0) == 0
      ensures addr == 0 ==> caches == old(caches)
      ensures addr != 0 ==>
        && o.c == c && FirstFree(Grown(old(caches)[c], answers, n), o.s, o.i)
        && caches == old(caches)[c := Taken(Grown(old(caches)[c], answers, n), o.s, o.i)]
        && Allocated(old(caches), caches, o) && addr == Address(caches, o)
        && Chosen(old(caches)[c], answers, n, o.s, o.i)
    {
      hide Sound, Fresh, Live, FreeAt, FreeAhead, FirstFree, Allocated, Taken, Chosen;
      ghost var cs0, w := caches, 0;
      ObjectBound(caches, c);
      StartsSearched(caches[c], answers);
      var k, requests := 0, 0;
      if caches[c].slabs == [] {
        Request(c, answers, 0, cs0);
        requests := 1;
        if caches[c].slabs == [] {
          assert caches == cs0;
          return 0, Obj(0, 0, 0), 0;
        }
        NewSlabFree(cs0, c, answers(0));
        FreeIsAhead(caches[c], 0);
      } else if m: nat :| answers(m) != 0 {
        w := m;
      }
      ghost var t := 0;
      assert AtSlab(cs0, c, answers, Search(k, requests), t, w);
      addr, o, n := Scan(c, answers, k, requests, cs0, t, w);
    }

    method Scan(c: nat, answers: Answers, k0: nat, n0: nat, ghost cs0: seq<Cache>, ghost t0: nat, ghost w: nat)
        returns (addr: nat, ghost o: Obj, ghost n: nat)
      requires AtSlab(cs0, c, answers, Search(k0, n0), t0, w)
      modifies this
      ensures Sound(caches) && addr != 0
      ensures o.c == c && FirstFree(Grown(cs0[c], answers, n), o.s, o.i) && Chosen(cs0[c], answers, n, o.s, o.i)
      ensures caches == cs0[c := Taken(Grown(cs0[c], answers, n), o.s, o.i)]
      ensures Allocated(cs0, caches, o) && addr == Address(caches, o)
    {
      hide Sound, Fresh, Live, Extends, FreeAt, FreeAhead, FirstFree, Turns, Grown, Allocated, Taken, Address,
           Searched, Chosen;
      var k, requests := k0, n0;
      ghost var t := t0;
      while true
        invariant AtSlab(cs0, c, answers, Search(k, requests), t, w)
        decreases RequestsLeft(c, k, requests, w), |caches[c].slabs| - k
      {
        if !caches[c].slabs[k].isFull {
          var i := FindBit(c, k);
          if i < caches[c].numObjs {
            FirstFreeBit(caches[c], k, i);
            SearchedChosen(cs0[c], answers, Search(k, requests), i);
            addr := Take(c, k, i, cs0, answers, requests);
            return addr, Obj(c, k, i), requests;
          }
        } else {
          FullNotFree(caches[c], k);
        }
        k, requests := Advance(c, answers, k, requests, cs0, t, w);
        t := t + 1;
      }
    }

    /** SlabFree: the number worked out from the address is released. */
    method SlabFree(c: nat, s: nat, p: nat)
      requires Sound(caches) && IsSlab(caches, c, s) && InPart(caches[c], s, p)
      modifies this
      ensures Sound(caches) && 0 < old(caches)[c].size
      ensures Released(old(caches), caches, Obj(c, s, Number(old(caches)[c], s, p)))
      ensures Number(old(caches)[c], s, p) / 8 < |old(caches)[c].slabs[s].bitmap|
      ensures caches == old(caches)[c := Freed(old(caches)[c], s, Number(old(caches)[c], s, p))]
    {
      hide Released, At, Row, Col;
      NumberHasBit(caches, c, s, p);
      var i := Row(caches[c].size, p - (caches[c].slabs[s].page + caches[c].offset));
      FreedSound(caches, Obj(c, s, i));
      caches := caches[c := Freed(caches[c], s, i)];
    }

    /** MemCacheFree, for any address: the first slab whose object part holds the address releases the
        number there, and -EFAULT means that no slab of this cache does. */
    method MemCacheFree(c: nat, p: nat) returns (err: int)
      requires Sound(caches) && c < |caches|
      modifies this
      ensures Sound(caches)
      ensures err == if p != 0 && Holder(old(caches)[c], p) < |old(caches)[c].slabs| then 0 else -EFAULT
      ensures err != 0 ==> caches == old(caches)
      ensures err == 0 ==> FreedAt(old(caches), caches, c, p)
    {
      hide Released, Sound, Number;
      if p == 0 {
        return -EFAULT;
      }
      var s := 0;
      while s < |caches[c].slabs|
        invariant caches == old(caches) && 0 <= s <= |caches[c].slabs|
        invariant forall t :: 0 <= t < s ==> !InPart(caches[c], t, p)
      {
        var slab := caches[c].slabs[s];
        if slab.page + caches[c].offset <= p < slab.page + caches[c].numPages * PAGE_SIZE {
          HolderIs(caches[c], p, s);
          SlabFree(c, s, p);
          return 0;
        }
        s := s + 1;
      }
      HolderIs(caches[c], p, s);
      return -EFAULT;
    }

    /** The loop of MemAlloc over the class sizes. */
    static method FindClass(size: nat) returns (i: nat)
      ensures i == ClassFor(size, 0)
    {
      i := 0;
      while i < |SIZES| && size > SIZES[i]
        invariant 0 <= i <= |SIZES| && ClassFor(size, 0) == ClassFor(size, i)
      {
        i := i + 1;
      }
    }

    /** MemAlloc: an object from the smallest class that is big enough. */
    method MemAlloc(size: nat, answers: Answers) returns (addr: nat, ghost o: Obj, ghost n: nat)
      requires Sound(caches) && Classes(caches)
      requires ClassFor(size, 0) < |SIZES| ==>
        Fresh(caches, ClassFor(size, 0), answers, 0) && Returns(caches[ClassFor(size, 0)], answers)
      modifies this
      ensures Sound(caches) && Classes(caches)
      ensures addr == 0 ==> caches == old(caches)
      ensures addr == 0 <==>
        ClassFor(size, 0) == |SIZES| || (old(caches)[ClassFor(size, 0)].slabs == [] && answers(0) == 0)
      ensures addr != 0 ==>
        && o.c == ClassFor(size, 0)
        && Allocated(old(caches), caches, o) && addr == Address(caches, o)
        && FirstFree(Grown(old(caches)[o.c], answers, n), o.s, o.i)
        && caches == old(caches)[o.c := Taken(Grown(old(caches)[o.c], answers, n), o.s, o.i)]
        && Chosen(old(caches)[o.c], answers, n, o.s, o.i)
    {
      hide Sound, Fresh, Returns, Allocated, FirstFree, Grown, Address, Taken, ClassFor, Chosen;
      var i := FindClass(size);
      if i == |SIZES| {
        return 0, Obj(0, 0, 0), 0;
      }
      ghost var cs := caches;
      addr, o, n := MemCacheAlloc(i, answers);
      if addr != 0 { AllocatedClasses(cs, caches, o); }
    }

    /** MemFree, for any address: the first class that holds the address releases the number there.
        The machine halts when no class does. A live object of a class is released, and no other. */
    method MemFree(p: nat) returns (halted: bool)
      requires Sound(caches) && Classes(caches)
      modifies this
      ensures Sound(caches) && Classes(caches)
      ensures halted <==> p != 0 && Owner(old(caches), p, 0) == |SIZES|
      ensures p == 0 || halted ==> caches == old(caches)
      ensures p != 0 && !halted ==> FreedAt(old(caches), caches, Owner(old(caches), p, 0), p)
      ensures forall o :: Live(old(caches), o) && o.c < |SIZES| && p == Address(old(caches), o) ==>
        && !halted && Released(old(caches), caches, o)
        && caches == old(caches)[o.c := Freed(old(caches)[o.c], o.s, o.i)]
    {
      hide Sound, Released, Address, Holder, FreedAt;
      ghost var cs := caches;
      forall o | Live(cs, o) && o.c < |SIZES| && p == Address(cs, o) ensures p != 0 && Owner(cs, p, 0) == o.c {
        OwnerOfObject(cs, o, 0);
      }
      halted := false;
      if p == 0 {
        return;
      }
      var i := 0;
      while i < |SIZES|
        invariant 0 <= i <= |SIZES| && caches == cs && Owner(cs, p, 0) == Owner(cs, p, i)
      {
        var err := MemCacheFree(i, p);
        if err == 0 {
          FreedIsReleased(cs, caches, i, p);
          forall o | Live(cs, o) && o.c < |SIZES| && p == Address(cs, o)
            ensures Released(cs, caches, o) && caches == cs[o.c := Freed(cs[o.c], o.s, o.i)]
          {
            FreedObject(cs, caches, o);
          }
          return;
        }
        i := i + 1;
      }
      halted := true;
    }
  }

  // ---- What an address belongs to ----

  /** Address p lies in slab s, behind the header. */
  ghost predicate InPart(c: Cache, s: nat, p: nat)
    requires s < |c.slabs|
  {
    c.slabs[s].page + c.offset <= p < c.slabs[s].page + c.numPages * PAGE_SIZE
  }

  /** The first slab that holds p; the number of slabs when none does. */
  ghost function Holder(c: Cache, p: nat): (s: nat)
    ensures s <= |c.slabs|
    ensures s < |c.slabs| ==> InPart(c, s, p)
    ensures forall t :: 0 <= t < s ==> !InPart(c, t, p)
  {
    HolderFrom(c, p, 0)
  }

  ghost function HolderFrom(c: Cache, p: nat, k: nat): (s: nat)
    requires k <= |c.slabs|
    ensures k <= s <= |c.slabs|
    ensures s < |c.slabs| ==> InPart(c, s, p)
    ensures forall t :: k <= t < s ==> !InPart(c, t, p)
    decreases |c.slabs| - k
  {
    if k == |c.slabs| || InPart(c, k, p) then k else HolderFrom(c, p, k + 1)
  }

  lemma HolderIs(c: Cache, p: nat, s: nat)
    requires s <= |c.slabs| && (s < |c.slabs| ==> InPart(c, s, p)) && forall t :: 0 <= t < s ==> !InPart(c, t, p)
    ensures Holder(c, p) == s
  {
    hide HolderFrom;
  }

  /** The number of the object that p points at or into. */
  ghost function Number(c: Cache, s: nat, p: nat): (i: nat)
    requires 0 < c.size && s < |c.slabs| && InPart(c, s, p)
  {
    Row(c.size, p - (c.slabs[s].page + c.offset))
  }

  /** The number at address p of cache c has been released. */
  ghost predicate FreedAt(cs: seq<Cache>, cs': seq<Cache>, c: nat, p: nat) {
    && c < |cs| && 0 < cs[c].size && Holder(cs[c], p) < |cs[c].slabs|
    && var s := Holder(cs[c], p);
       var i := Number(cs[c], s, p);
       i / 8 < |cs[c].slabs[s].bitmap| && cs' == cs[c := Freed(cs[c], s, i)] && Released(cs, cs', Obj(c, s, i))
  }

  lemma NumberHasBit(cs: seq<Cache>, c: nat, s: nat, p: nat)
    requires Sound(cs) && IsSlab(cs, c, s) && InPart(cs[c], s, p)
    ensures 0 < cs[c].size && Number(cs[c], s, p) < MAX_OBJECTS
  {
    hide At, Row, Col;
    assert CacheOk(cs[c]);
    AtAdd(cs[c].size, MAX_OBJECTS, 0, cs[c].offset);
    RowBelow(cs[c].size, p - (cs[c].slabs[s].page + cs[c].offset), MAX_OBJECTS);
  }

  /** The address of an object leads to its own slab, its own cache and its own number. */
  lemma HolderOfObject(cs: seq<Cache>, o: Obj, c: nat)
    requires Sound(cs) && IsObj(cs, o) && c < |cs|
    ensures Address(cs, o) != 0 && 0 < cs[o.c].size
    ensures c != o.c ==> Holder(cs[c], Address(cs, o)) == |cs[c].slabs|
    ensures Holder(cs[o.c], Address(cs, o)) == o.s && Number(cs[o.c], o.s, Address(cs, o)) == o.i
  {
    hide At, Row, Col, HolderFrom;
    ObjectInside(cs, o);
    assert CacheOk(cs[o.c]) && SlabOk(cs[o.c], cs[o.c].slabs[o.s]);
    forall d: nat, t: nat | IsSlab(cs, d, t) ensures InPart(cs[d], t, Address(cs, o)) <==> d == o.c && t == o.s {
      OnlyItsSlab(cs, o, d, t);
    }
    assert IsSlab(cs, o.c, o.s);
    var base := cs[o.c].slabs[o.s].page + cs[o.c].offset;
    AtAdd(cs[o.c].size, o.i, 0, base);
    RowColAt(cs[o.c].size, o.i, 0);
    var h, g := Holder(cs[c], Address(cs, o)), Holder(cs[o.c], Address(cs, o));
    assert h < |cs[c].slabs| ==> IsSlab(cs, c, h);
    assert g < |cs[o.c].slabs| ==> IsSlab(cs, o.c, g);
  }

  // ---- Allocation and release by size ----

  /** The sizes of MemAlloc's caches. */
  const SIZES: seq<nat> := [16, 32, 64, 128, 256, 512, 1024, 2048, 4096, 8192, 16384, 32768, 65536, 131072]

  ghost predicate Classes(cs: seq<Cache>) {
    |SIZES| <= |cs| && forall i :: 0 <= i < |SIZES| ==> cs[i].size == SIZES[i]
  }

  lemma AllocatedClasses(cs: seq<Cache>, cs': seq<Cache>, o: Obj)
    requires Classes(cs) && Allocated(cs, cs', o)
    ensures Classes(cs')
  {
    forall i | 0 <= i < |SIZES| ensures cs'[i].size == SIZES[i] {
      assert CacheExtends(cs[i], cs'[i]);
    }
  }

  /** The class that MemAlloc takes: the first that is big enough, |SIZES| when none is. */
  function ClassFor(size: nat, i: nat): (k: nat)
    requires i <= |SIZES|
    ensures i <= k <= |SIZES|
    ensures k < |SIZES| ==> size <= SIZES[k]
    ensures forall j :: i <= j < k ==> SIZES[j] < size
    decreases |SIZES| - i
  {
    if i == |SIZES| || size <= SIZES[i] then i else ClassFor(size, i + 1)
  }

  /** The classes double from 16 on, so that an object takes less than twice the bytes asked for. */
  lemma ClassesDouble(i: nat)
    requires i < |SIZES|
    ensures |SIZES| == 14 && SIZES[0] == 16 && (i > 0 ==> SIZES[i] == 2 * SIZES[i - 1])
  {
  }

  lemma ClassIsTight(size: nat)
    requires 8 < size && ClassFor(size, 0) < |SIZES|
    ensures size <= SIZES[ClassFor(size, 0)] < 2 * size
  {
    hide ClassFor;
    var k := ClassFor(size, 0);
    ClassesDouble(k);
    if k > 0 { assert SIZES[k - 1] < size; }
  }

  /** The class that MemFree takes: the first that holds the address, |SIZES| when none does. */
  ghost function Owner(cs: seq<Cache>, p: nat, i: nat): (k: nat)
    requires i <= |SIZES| <= |cs|
    ensures i <= k <= |SIZES|
    decreases |SIZES| - i
  {
    if i == |SIZES| || Holder(cs[i], p) < |cs[i].slabs| then i else Owner(cs, p, i + 1)
  }

  lemma {:induction false} OwnerOfObject(cs: seq<Cache>, o: Obj, i: nat)
    requires Sound(cs) && Live(cs, o) && i <= o.c < |SIZES| <= |cs|
    ensures IsObj(cs, o) && Address(cs, o) != 0 && Owner(cs, Address(cs, o), i) == o.c
    decreases o.c - i
  {
    hide Sound, Address, Holder;
    HolderOfObject(cs, o, i);
    if i < o.c { OwnerOfObject(cs, o, i + 1); }
  }

  lemma FreedIsReleased(cs: seq<Cache>, cs': seq<Cache>, c: nat, p: nat)
    requires Classes(cs) && FreedAt(cs, cs', c, p)
    ensures Classes(cs')
  {
  }

  /** Freeing at the address of an object frees that object. */
  lemma FreedObject(cs: seq<Cache>, cs': seq<Cache>, o: Obj)
    requires Sound(cs) && Live(cs, o) && IsObj(cs, o) && FreedAt(cs, cs', o.c, Address(cs, o))
    ensures Released(cs, cs', o) && cs' == cs[o.c := Freed(cs[o.c], o.s, o.i)]
  {
    hide Released, Sound, Address;
    HolderOfObject(cs, o, o.c);
  }

  /** An object's address lies in the object part of its own slab and of no other slab. */
  lemma OnlyItsSlab(cs: seq<Cache>, o: Obj, c: nat, s: nat)
    requires Sound(cs) && IsObj(cs, o) && IsSlab(cs, c, s)
    ensures InPart(cs[c], s, Address(cs, o)) <==> o.c == c && o.s == s
  {
    hide Address;
    ObjectInside(cs, o);
    assert CacheOk(cs[o.c]);
    if !(o.c == c && o.s == s) {
      assert SlabsApart(cs, o.c, o.s, c, s);
    }
  }

  /** MemFree undoes MemAlloc: the caches are those before, but for slabs that had to be added. */
  lemma MemFreeUndoesMemAlloc(before: seq<Cache>, answers: Answers, n: nat, o: Obj)
    requires o.c < |before| && FirstFree(Grown(before[o.c], answers, n), o.s, o.i)
    ensures var grown := Grown(before[o.c], answers, n);
      var after := before[o.c := Taken(grown, o.s, o.i)];
      after[o.c := Freed(after[o.c], o.s, o.i)] == before[o.c := grown]
    ensures n == 0 ==> before[o.c := Grown(before[o.c], answers, n)] == before
  {
    FreeUndoesTake(Grown(before[o.c], answers, n), o.s, o.i);
  }

  /** Caches as MemCacheCreate leaves them are sound, and nothing in them is live. */
  lemma CreatedSound(sizes: seq<nat>, cs: seq<Cache>)
    requires |sizes| == |cs| && forall c :: 0 <= c < |cs| ==> sizes[c] > 0 && cs[c] == Layout(sizes[c], false)
    ensures Sound(cs) && forall o :: !Live(cs, o)
  {
    forall c | 0 <= c < |cs| ensures CacheOk(cs[c]) && cs[c].slabs == [] {
      LayoutFits(sizes[c], false);
    }
  }
}
