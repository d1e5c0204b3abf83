/** The table of virtual file descriptors as a value: slots that carry two
    intrusive lists, the ring of physically open files in order of use and the
    list of free slots, beside the kernel's own table of descriptors. */
module VfdTable {
  import opened Lists

  const CLOSED: int := -1
  const UNKNOWN: int := -1

  datatype Flags = Flags(creat: bool, trunc: bool, excl: bool, others: nat)

  datatype Name = Unused | Named(path: string)

  datatype Vfd = Vfd(fd: int, nextFree: nat, more: nat, less: nat, seekPos: int, name: Name, flags: Flags)

  /** A kernel descriptor: the file it is open on, and its position. */
  datatype Desc = Desc(path: string, pos: nat)

  datatype Table = Table(cache: seq<Vfd>, nfile: nat, kernel: map<int, Desc>)

  /** The ring from the least to the most recently used slot, and the free list. */
  datatype Shadow = Shadow(ring: seq<nat>, free: seq<nat>)

  /** A virtual file as its user sees it. */
  datatype Open = Open(path: string, pos: int)

  // ---------- the ring ----------

  ghost predicate RingAt(cache: seq<Vfd>, ring: seq<nat>, i: nat)
    requires i < |ring|
  {
    && 0 < ring[i] < |cache|
    && cache[ring[i]].more == At(ring, i + 1)
    && cache[ring[i]].less == At(ring, i - 1)
  }

  ghost predicate RingOk(cache: seq<Vfd>, ring: seq<nat>) {
    && |cache| > 0
    && cache[0].more == At(ring, 0) && cache[0].less == At(ring, |ring| - 1)
    && (forall i :: 0 <= i < |ring| ==> RingAt(cache, ring, i))
    && (forall i, j :: 0 <= i < j < |ring| ==> ring[i] != ring[j])
  }

  /** Takes a slot out of the ring. */
  function RingDelete(cache: seq<Vfd>, file: nat): (c: seq<Vfd>)
    requires file < |cache| && cache[file].less < |cache| && cache[file].more < |cache|
    ensures |c| == |cache|
  {
    var v := cache[file];
    var c1 := cache[v.less := cache[v.less].(more := v.more)];
    c1[v.more := c1[v.more].(less := v.less)]
  }

  /** Puts a slot at the most recently used end of the ring. */
  function RingInsert(cache: seq<Vfd>, file: nat): (c: seq<Vfd>)
    requires 0 < file < |cache| && cache[0].less < |cache|
    ensures |c| == |cache|
  {
    var last := cache[0].less;
    var c1 := cache[file := cache[file].(more := 0, less := last)];
    var c2 := c1[0 := c1[0].(less := file)];
    c2[last := c2[last].(more := file)]
  }

  /** Two tables differ at `a` at most in the ring links. */
  ghost predicate SameButLinks(cache: seq<Vfd>, cache': seq<Vfd>, a: nat) {
    a < |cache| && a < |cache'| ==> cache'[a] == cache[a].(more := cache'[a].more, less := cache'[a].less)
  }

  lemma RingBounds(cache: seq<Vfd>, ring: seq<nat>, i: int)
    requires RingOk(cache, ring)
    ensures At(ring, i) < |cache|
    ensures At(ring, i) == 0 <==> !(0 <= i < |ring|)
  {
    if 0 <= i < |ring| {
      assert RingAt(cache, ring, i);
    }
  }

  lemma RingDeleteOk(cache: seq<Vfd>, ring: seq<nat>, i: nat)
    requires RingOk(cache, ring) && i < |ring|
    ensures var file := ring[i];
            && file < |cache| && cache[file].less < |cache| && cache[file].more < |cache|
            && RingOk(RingDelete(cache, file), Without(ring, i))
            && (forall a :: SameButLinks(cache, RingDelete(cache, file), a))
  {
    var file := ring[i];
    assert RingAt(cache, ring, i);
    RingBounds(cache, ring, i - 1);
    RingBounds(cache, ring, i + 1);
    var cache', ring' := RingDelete(cache, file), Without(ring, i);
    forall j | 0 <= j < |ring'|
      ensures RingAt(cache', ring', j)
    {
      var k := if j < i then j else j + 1;
      assert RingAt(cache, ring, k) && ring'[j] == ring[k];
      assert k != i - 1 && 0 < i ==> ring[k] != ring[i - 1];
      assert k != i + 1 && i + 1 < |ring| ==> ring[k] != ring[i + 1];
    }
  }

  lemma RingInsertOk(cache: seq<Vfd>, ring: seq<nat>, file: nat)
    requires RingOk(cache, ring) && 0 < file < |cache| && file !in ring
    ensures cache[0].less < |cache|
    ensures RingOk(RingInsert(cache, file), ring + [file])
    ensures forall a :: SameButLinks(cache, RingInsert(cache, file), a)
  {
    RingBounds(cache, ring, |ring| - 1);
    var cache', ring' := RingInsert(cache, file), ring + [file];
    forall j | 0 <= j < |ring'|
      ensures RingAt(cache', ring', j)
    {
      if j < |ring| {
        assert RingAt(cache, ring, j) && ring'[j] == ring[j];
        assert j < |ring| - 1 ==> ring[j] != ring[|ring| - 1];
      }
    }
  }

  // ---------- the free list ----------

  ghost predicate FreeAt(cache: seq<Vfd>, free: seq<nat>, i: nat)
    requires i < |free|
  {
    0 < free[i] < |cache| && cache[free[i]].nextFree == At(free, i + 1)
  }

  ghost predicate FreeOk(cache: seq<Vfd>, free: seq<nat>) {
    && |cache| > 0
    && cache[0].nextFree == At(free, 0)
    && (forall i :: 0 <= i < |free| ==> FreeAt(cache, free, i))
    && (forall i, j :: 0 <= i < j < |free| ==> free[i] != free[j])
  }

  ghost predicate SameNext(cache: seq<Vfd>, cache': seq<Vfd>, a: nat) {
    a < |cache| && a < |cache'| ==> cache'[a].nextFree == cache[a].nextFree
  }

  lemma FreeKept(cache: seq<Vfd>, cache': seq<Vfd>, free: seq<nat>)
    requires FreeOk(cache, free) && |cache'| == |cache| && forall a :: SameNext(cache, cache', a)
    ensures FreeOk(cache', free)
  {
    assert SameNext(cache, cache', 0);
    forall i | 0 <= i < |free|
      ensures FreeAt(cache', free, i)
    {
      assert FreeAt(cache, free, i) && SameNext(cache, cache', free[i]);
    }
  }

  ghost predicate SameRing(cache: seq<Vfd>, cache': seq<Vfd>, a: nat) {
    a < |cache| && a < |cache'| ==> cache'[a].more == cache[a].more && cache'[a].less == cache[a].less
  }

  lemma RingKept(cache: seq<Vfd>, cache': seq<Vfd>, ring: seq<nat>)
    requires RingOk(cache, ring) && |cache| <= |cache'| && forall a :: SameRing(cache, cache', a)
    ensures RingOk(cache', ring)
  {
    assert SameRing(cache, cache', 0);
    forall i | 0 <= i < |ring|
      ensures RingAt(cache', ring, i)
    {
      assert RingAt(cache, ring, i) && SameRing(cache, cache', ring[i]);
    }
  }

  // ---------- the table ----------

  /** Slot `a` is physically open, closed but in use, or free; `spare` is a slot
      taken from the free list and not yet given a file. */
  ghost predicate SlotOk(t: Table, g: Shadow, spare: nat, a: nat) {
    0 < a < |t.cache| ==>
      var v := t.cache[a];
      && (a in g.ring <==> v.fd != CLOSED)
      && (a in g.free || a == spare <==> v.name.Unused?)
      && (a in g.free ==> a != spare)
      && (v.fd != CLOSED ==> v.fd >= 0 && v.fd in t.kernel && v.name == Named(t.kernel[v.fd].path))
  }

  ghost predicate FdsApart(t: Table, a: nat, b: nat) {
    0 < a < |t.cache| && 0 < b < |t.cache| && a != b && t.cache[a].fd != CLOSED ==> t.cache[b].fd != t.cache[a].fd
  }

  ghost predicate TableOk(t: Table, g: Shadow, spare: nat) {
    && RingOk(t.cache, g.ring) && FreeOk(t.cache, g.free)
    && t.cache[0].fd == CLOSED
    && (forall a :: SlotOk(t, g, spare, a))
    && (forall a, b :: FdsApart(t, a, b))
    && t.nfile == |g.ring| == |t.kernel|
  }

  /** A file that is physically closed has its position on record. */
  ghost predicate PosAt(t: Table, a: nat) {
    0 < a < |t.cache| && t.cache[a].name.Named? && t.cache[a].fd == CLOSED ==> t.cache[a].seekPos >= 0
  }

  ghost predicate PosOk(t: Table) {
    forall a :: PosAt(t, a)
  }

  function IsFile(t: Table, a: nat): bool {
    0 < a < |t.cache| && t.cache[a].name.Named?
  }

  /** The position of a virtual file: the kernel's while it is physically open. */
  function LogicalPos(t: Table, a: nat): int
    requires a < |t.cache|
  {
    var v := t.cache[a];
    if v.fd != CLOSED && v.fd in t.kernel then t.kernel[v.fd].pos else v.seekPos
  }

  /** All virtual files, as if each were permanently open. */
  ghost function View(t: Table): map<nat, Open> {
    map a: nat | 0 < a < |t.cache| && t.cache[a].name.Named? :: Open(t.cache[a].name.path, LogicalPos(t, a))
  }

  /** The recorded position of an open file is the kernel's, or "unknown". */
  ghost predicate Synced(t: Table, a: nat) {
    IsFile(t, a) && t.cache[a].fd != CLOSED && t.cache[a].fd in t.kernel ==>
      t.cache[a].seekPos == UNKNOWN || t.cache[a].seekPos == t.kernel[t.cache[a].fd].pos
  }

  /** The recorded position of an open file is the kernel's. */
  ghost predicate Exact(t: Table, a: nat) {
    IsFile(t, a) && t.cache[a].fd != CLOSED && t.cache[a].fd in t.kernel ==>
      t.cache[a].seekPos == t.kernel[t.cache[a].fd].pos
  }

  /** File `a` stays one, under the same name, to be reopened with the same flags. */
  ghost predicate SameFile(t: Table, t': Table, a: nat) {
    IsFile(t, a) ==> IsFile(t', a) && t'.cache[a].name == t.cache[a].name && t'.cache[a].flags == t.cache[a].flags
  }

  /** A step keeps file `a` and does not make its record worse: it becomes right, or stays. */
  ghost predicate SyncKept(t: Table, t': Table, a: nat) {
    && SameFile(t, t', a)
    && (Synced(t, a) ==> Synced(t', a)) && (Exact(t, a) ==> Exact(t', a)) && (PosAt(t, a) ==> PosAt(t', a))
    && (Exact(t', a) || (a < |t.cache| && a < |t'.cache| && t'.cache[a].seekPos == t.cache[a].seekPos))
  }

  /** No file but `but` is lost, and no other record gets worse. */
  ghost predicate KeepsSync(t: Table, t': Table, but: nat) {
    forall a :: a != but ==> SyncKept(t, t', a)
  }

  lemma KeepsTwice(t0: Table, t1: Table, t2: Table, but1: nat, but2: nat, but: nat)
    requires KeepsSync(t0, t1, but1) && KeepsSync(t1, t2, but2) && but1 in {0, but} && but2 in {0, but}
    ensures KeepsSync(t0, t2, but)
  {
    forall a | a != but
      ensures SyncKept(t0, t2, a)
    {
      assert a != 0 ==> SyncKept(t0, t1, a) && SyncKept(t1, t2, a);
    }
  }

  // ---------- eviction ----------

  predicate CanDetach(t: Table, file: nat) {
    && 0 < file < |t.cache| && t.cache[file].less < |t.cache| && t.cache[file].more < |t.cache|
    && t.cache[file].fd != CLOSED && t.cache[file].fd in t.kernel && t.nfile > 0
  }

  /** Takes `file` from the ring, closes its kernel descriptor and records `pos`. */
  function Detached(t: Table, file: nat, pos: int): Table
    requires CanDetach(t, file)
  {
    var c := RingDelete(t.cache, file);
    Table(c[file := c[file].(seekPos := pos, fd := CLOSED)], t.nfile - 1, t.kernel - {t.cache[file].fd})
  }

  lemma DetachStep(t: Table, g: Shadow, spare: nat, i: nat, pos: int) returns (t': Table, g': Shadow)
    requires TableOk(t, g, spare) && i < |g.ring|
    ensures CanDetach(t, g.ring[i]) && t' == Detached(t, g.ring[i], pos)
    ensures g' == g.(ring := Without(g.ring, i)) && TableOk(t', g', spare)
    ensures |t'.cache| == |t.cache| && forall a :: DetachKeeps(t, t', g.ring[i], pos, a)
  {
    var file := g.ring[i];
    assert RingAt(t.cache, g.ring, i) && SlotOk(t, g, spare, file) && file in g.ring;
    RingDeleteOk(t.cache, g.ring, i);
    var c := RingDelete(t.cache, file);
    t', g' := Detached(t, file, pos), g.(ring := Without(g.ring, i));
    assert t'.kernel.Keys == t.kernel.Keys - {t.cache[file].fd};
    forall a
      ensures DetachKeeps(t, t', file, pos, a)
    {
      assert SameButLinks(t.cache, c, a) && FdsApart(t, a, file);
    }
    RingKept(c, t'.cache, g'.ring);
    forall a
      ensures SameNext(t.cache, t'.cache, a)
    {
      assert SameButLinks(t.cache, c, a);
    }
    FreeKept(t.cache, t'.cache, g.free);
    assert SameButLinks(t.cache, c, 0);
    forall a
      ensures SlotOk(t', g', spare, a)
    {
      assert SlotOk(t, g, spare, a) && DetachKeeps(t, t', file, pos, a);
      WithoutMember(g.ring, i, a);
    }
    forall a, b
      ensures FdsApart(t', a, b)
    {
      assert FdsApart(t, a, b) && DetachKeeps(t, t', file, pos, a) && DetachKeeps(t, t', file, pos, b);
    }
  }

  /** Closing a file physically, with its position saved, is invisible. */
  lemma EvictStep(t: Table, g: Shadow, spare: nat, i: nat) returns (t': Table, g': Shadow)
    requires TableOk(t, g, spare) && i < |g.ring|
    ensures CanDetach(t, g.ring[i]) && t' == Detached(t, g.ring[i], LogicalPos(t, g.ring[i]))
    ensures g' == g.(ring := Without(g.ring, i)) && TableOk(t', g', spare)
    ensures |t'.cache| == |t.cache| && View(t') == View(t) && KeepsSync(t, t', 0)
    ensures forall a :: DetachKeeps(t, t', g.ring[i], LogicalPos(t, g.ring[i]), a)
  {
    var file := g.ring[i];
    assert RingAt(t.cache, g.ring, i);
    t', g' := DetachStep(t, g, spare, i, LogicalPos(t, file));
    EvictView(t, t', file);
  }

  /** What detaching `file` leaves of slot `a`. */
  ghost predicate DetachKeeps(t: Table, t': Table, file: nat, pos: int, a: nat) {
    a < |t.cache| && a < |t'.cache| ==>
      var v, v' := t.cache[a], t'.cache[a];
      && v'.name == v.name && v'.flags == v.flags
      && (a == file ==> v'.fd == CLOSED && v'.seekPos == pos)
      && (a != file ==> v'.fd == v.fd && v'.seekPos == v.seekPos)
      && (0 < a && a != file && v.fd != CLOSED && v.fd in t.kernel ==>
            v.fd in t'.kernel && t'.kernel[v.fd] == t.kernel[v.fd])
  }

  lemma EvictView(t: Table, t': Table, file: nat)
    requires file < |t.cache| == |t'.cache| && t.cache[file].fd != CLOSED && t.cache[file].fd in t.kernel
    requires forall a :: DetachKeeps(t, t', file, LogicalPos(t, file), a)
    requires forall b :: b in t'.kernel ==> b in t.kernel
    ensures View(t') == View(t) && KeepsSync(t, t', 0)
  {
    var pos := LogicalPos(t, file);
    forall a: nat | 0 < a < |t.cache|
      ensures t'.cache[a].name == t.cache[a].name && LogicalPos(t', a) == LogicalPos(t, a)
    {
      assert DetachKeeps(t, t', file, pos, a);
    }
    forall a
      ensures SyncKept(t, t', a)
    {
      assert DetachKeeps(t, t', file, pos, a);
    }
  }

  // ---------- opening ----------

  /** Gives the closed slot `file` a kernel descriptor and makes it the most recent. */
  function Attached(t: Table, file: nat, v: Vfd, desc: Desc): Table
    requires 0 < file < |t.cache| && t.cache[0].less < |t.cache|
  {
    Table(RingInsert(t.cache[file := v], file), t.nfile + 1, t.kernel[v.fd := desc])
  }

  /** `v` is what slot `file` becomes when it is opened on `desc`. */
  ghost predicate OpensAs(t: Table, file: nat, v: Vfd, desc: Desc) {
    && 0 < file < |t.cache| && t.cache[file].fd == CLOSED
    && v.fd >= 0 && v.fd !in t.kernel && v.name == Named(desc.path) && v.nextFree == t.cache[file].nextFree
  }

  lemma AttachStep(t: Table, g: Shadow, spare: nat, file: nat, v: Vfd, desc: Desc) returns (t': Table, g': Shadow)
    requires TableOk(t, g, spare) && OpensAs(t, file, v, desc) && file !in g.free
    ensures t.cache[0].less < |t.cache| && t' == Attached(t, file, v, desc)
    ensures g' == g.(ring := g.ring + [file]) && TableOk(t', g', if file == spare then 0 else spare)
    ensures View(t') == View(t)[file := Open(desc.path, desc.pos)]
    ensures |t'.cache| == |t.cache| && forall a :: AttachKeeps(t, t', file, v, desc, a)
  {
    assert SlotOk(t, g, spare, file);
    var c1 := t.cache[file := v];
    RingBounds(t.cache, g.ring, |g.ring| - 1);
    t', g' := Attached(t, file, v, desc), g.(ring := g.ring + [file]);
    assert t'.cache == RingInsert(c1, file);
    assert t'.kernel.Keys == t.kernel.Keys + {v.fd};
    AttachRing(t.cache, g, file, v);
    forall a
      ensures AttachKeeps(t, t', file, v, desc, a)
    {
      assert SameButLinks(c1, t'.cache, a) && SlotOk(t, g, spare, a);
    }
    assert SameButLinks(c1, t'.cache, 0);
    var spare' := if file == spare then 0 else spare;
    forall a
      ensures SlotOk(t', g', spare', a)
    {
      assert SlotOk(t, g, spare, a) && AttachKeeps(t, t', file, v, desc, a);
    }
    forall a, b
      ensures FdsApart(t', a, b)
    {
      assert FdsApart(t, a, b) && AttachKeeps(t, t', file, v, desc, a) && AttachKeeps(t, t', file, v, desc, b);
      assert SlotOk(t, g, spare, a) && SlotOk(t, g, spare, b);
    }
    forall a: nat | 0 < a < |t.cache| && t.cache[a].fd != CLOSED
      ensures t.cache[a].fd in t.kernel
    {
      assert SlotOk(t, g, spare, a);
    }
    AttachView(t, t', file, v, desc);
  }

  lemma AttachRing(cache: seq<Vfd>, g: Shadow, file: nat, v: Vfd)
    requires RingOk(cache, g.ring) && FreeOk(cache, g.free) && 0 < file < |cache| && file !in g.ring
    requires v.nextFree == cache[file].nextFree
    ensures cache[0].less < |cache|
    ensures var c1 := cache[file := v]; var c := RingInsert(c1, file);
            RingOk(c, g.ring + [file]) && FreeOk(c, g.free) && forall a :: SameButLinks(c1, c, a)
  {
    var c1 := cache[file := v];
    RingBounds(cache, g.ring, |g.ring| - 1);
    forall i | 0 <= i < |g.ring|
      ensures RingAt(c1, g.ring, i)
    {
      assert RingAt(cache, g.ring, i) && g.ring[i] in g.ring;
    }
    RingInsertOk(c1, g.ring, file);
    var c := RingInsert(c1, file);
    forall a
      ensures SameNext(cache, c, a)
    {
      assert SameButLinks(c1, c, a);
    }
    FreeKept(cache, c, g.free);
  }

  ghost predicate AttachKeeps(t: Table, t': Table, file: nat, v: Vfd, desc: Desc, a: nat) {
    a < |t.cache| && a < |t'.cache| ==>
      var w, w' := t.cache[a], t'.cache[a];
      && (a == file ==> w'.fd == v.fd && w'.seekPos == v.seekPos && w'.name == v.name && w'.flags == v.flags
                        && v.fd in t'.kernel && t'.kernel[v.fd] == desc)
      && (a != file ==> w'.fd == w.fd && w'.seekPos == w.seekPos && w'.name == w.name && w'.flags == w.flags)
      && (0 < a && a != file && w.fd != CLOSED && w.fd in t.kernel ==>
            w.fd != v.fd && w.fd in t'.kernel && t'.kernel[w.fd] == t.kernel[w.fd])
  }

  lemma AttachView(t: Table, t': Table, file: nat, v: Vfd, desc: Desc)
    requires 0 < file < |t.cache| == |t'.cache| && v.fd >= 0 && v.name == Named(desc.path)
    requires forall a :: AttachKeeps(t, t', file, v, desc, a)
    requires forall a :: 0 < a < |t.cache| && t.cache[a].fd != CLOSED ==> t.cache[a].fd in t.kernel
    ensures View(t') == View(t)[file := Open(desc.path, desc.pos)]
  {
    forall a: nat | 0 < a < |t.cache|
      ensures a == file ==> t'.cache[a].name == Named(desc.path) && LogicalPos(t', a) == desc.pos
      ensures a != file ==> t'.cache[a].name == t.cache[a].name && LogicalPos(t', a) == LogicalPos(t, a)
    {
      assert AttachKeeps(t, t', file, v, desc, a);
    }
  }

  // ---------- using ----------

  /** Moves an open file to the most recently used end. */
  lemma TouchStep(t: Table, g: Shadow, i: nat) returns (t': Table, g': Shadow)
    requires TableOk(t, g, 0) && i < |g.ring|
    ensures CanDetach(t, g.ring[i])
    ensures var c := RingDelete(t.cache, g.ring[i]);
            c[0].less < |c| && t' == t.(cache := RingInsert(c, g.ring[i]))
    ensures g' == g.(ring := Without(g.ring, i) + [g.ring[i]]) && TableOk(t', g', 0)
    ensures View(t') == View(t)
    ensures forall a :: SameButLinks(t.cache, t'.cache, a)
  {
    var file := g.ring[i];
    assert RingAt(t.cache, g.ring, i) && SlotOk(t, g, 0, file) && file in g.ring;
    RingDeleteOk(t.cache, g.ring, i);
    var c := RingDelete(t.cache, file);
    WithoutMember(g.ring, i, file);
    RingInsertOk(c, Without(g.ring, i), file);
    t', g' := t.(cache := RingInsert(c, file)), g.(ring := Without(g.ring, i) + [file]);
    forall a
      ensures SameButLinks(t.cache, t'.cache, a) && SameNext(t.cache, t'.cache, a)
    {
      assert SameButLinks(t.cache, c, a) && SameButLinks(c, t'.cache, a);
    }
    FreeKept(t.cache, t'.cache, g.free);
    LinksDontMatter(t, t', g, g');
  }

  /** Tables that differ in ring links only show the same. */
  lemma LinksDontMatter(t: Table, t': Table, g: Shadow, g': Shadow)
    requires TableOk(t, g, 0) && |t'.cache| == |t.cache| && t'.nfile == t.nfile && t'.kernel == t.kernel
    requires RingOk(t'.cache, g'.ring) && FreeOk(t'.cache, g'.free) && g'.free == g.free && |g'.ring| == |g.ring|
    requires forall a :: a in g'.ring <==> a in g.ring
    requires forall a :: SameButLinks(t.cache, t'.cache, a)
    ensures TableOk(t', g', 0) && View(t') == View(t)
  {
    assert SameButLinks(t.cache, t'.cache, 0);
    forall a
      ensures SlotOk(t', g', 0, a)
    {
      assert SlotOk(t, g, 0, a) && SameButLinks(t.cache, t'.cache, a);
    }
    forall a, b
      ensures FdsApart(t', a, b)
    {
      assert FdsApart(t, a, b) && SameButLinks(t.cache, t'.cache, a) && SameButLinks(t.cache, t'.cache, b);
    }
    forall a: nat | 0 < a < |t.cache|
      ensures t'.cache[a].name == t.cache[a].name && LogicalPos(t', a) == LogicalPos(t, a)
    {
      assert SameButLinks(t.cache, t'.cache, a);
    }
  }

  /** An open file's recorded and kernel positions change. */
  function Moved(t: Table, file: nat, seekPos: int, pos: nat): Table
    requires file < |t.cache| && t.cache[file].fd in t.kernel
  {
    var fd := t.cache[file].fd;
    t.(cache := t.cache[file := t.cache[file].(seekPos := seekPos)],
       kernel := t.kernel[fd := t.kernel[fd].(pos := pos)])
  }

  lemma MoveStep(t: Table, g: Shadow, file: nat, seekPos: int, pos: nat) returns (t': Table)
    requires TableOk(t, g, 0) && IsFile(t, file) && t.cache[file].fd != CLOSED
    ensures t.cache[file].fd in t.kernel && t' == Moved(t, file, seekPos, pos) && TableOk(t', g, 0)
    ensures View(t') == View(t)[file := Open(t.cache[file].name.path, pos)]
    ensures KeepsSync(t, t', file)
  {
    assert SlotOk(t, g, 0, file);
    t' := Moved(t, file, seekPos, pos);
    assert t'.kernel.Keys == t.kernel.Keys;
    forall a
      ensures SameRing(t.cache, t'.cache, a) && SameNext(t.cache, t'.cache, a)
    {
    }
    RingKept(t.cache, t'.cache, g.ring);
    FreeKept(t.cache, t'.cache, g.free);
    forall a
      ensures SlotOk(t', g, 0, a) && (a != file ==> SyncKept(t, t', a))
    {
      assert SlotOk(t, g, 0, a) && FdsApart(t, file, a);
    }
    forall a, b
      ensures FdsApart(t', a, b)
    {
      assert FdsApart(t, a, b);
    }
    forall a: nat | 0 < a < |t.cache| && a != file
      ensures LogicalPos(t', a) == LogicalPos(t, a)
    {
      assert FdsApart(t, file, a);
    }
  }

  /** The recorded position of a closed file changes. */
  lemma RecordStep(t: Table, g: Shadow, file: nat, seekPos: int) returns (t': Table)
    requires TableOk(t, g, 0) && IsFile(t, file) && t.cache[file].fd == CLOSED
    ensures t' == t.(cache := t.cache[file := t.cache[file].(seekPos := seekPos)]) && TableOk(t', g, 0)
    ensures View(t') == View(t)[file := Open(t.cache[file].name.path, seekPos)]
    ensures PosAt(t', file) <==> seekPos >= 0
    ensures KeepsSync(t, t', file)
  {
    t' := t.(cache := t.cache[file := t.cache[file].(seekPos := seekPos)]);
    forall a
      ensures SameRing(t.cache, t'.cache, a) && SameNext(t.cache, t'.cache, a)
    {
    }
    RingKept(t.cache, t'.cache, g.ring);
    FreeKept(t.cache, t'.cache, g.free);
    forall a
      ensures SlotOk(t', g, 0, a)
    {
      assert SlotOk(t, g, 0, a);
    }
    forall a, b
      ensures FdsApart(t', a, b)
    {
      assert FdsApart(t, a, b);
    }
  }

  // ---------- taking and returning slots ----------

  /** The first free slot is taken. */
  lemma TakeStep(t: Table, g: Shadow) returns (t': Table, g': Shadow)
    requires TableOk(t, g, 0) && g.free != []
    ensures var file := g.free[0];
            && 0 < file < |t.cache| && t.cache[0].nextFree == file
            && t' == t.(cache := t.cache[0 := t.cache[0].(nextFree := t.cache[file].nextFree)])
            && g' == g.(free := g.free[1..]) && TableOk(t', g', file)
            && t'.cache[file].fd == CLOSED && file !in g'.free && file !in View(t)
    ensures View(t') == View(t) && |t'.cache| == |t.cache|
    ensures KeepsSync(t, t', 0)
  {
    var file := g.free[0];
    assert FreeAt(t.cache, g.free, 0) && SlotOk(t, g, 0, file) && file in g.free;
    var c := t.cache[0 := t.cache[0].(nextFree := t.cache[file].nextFree)];
    t', g' := t.(cache := c), g.(free := g.free[1..]);
    assert file !in g.ring;
    forall a
      ensures SameRing(t.cache, c, a)
    {
    }
    RingKept(t.cache, c, g.ring);
    forall i | 0 <= i < |g'.free|
      ensures FreeAt(c, g'.free, i)
    {
      assert FreeAt(t.cache, g.free, i + 1);
    }
    assert g.free == [file] + g'.free;
    forall a
      ensures SlotOk(t', g', file, a)
    {
      assert SlotOk(t, g, 0, a);
    }
    forall a, b
      ensures FdsApart(t', a, b)
    {
      assert FdsApart(t, a, b);
    }
  }

  /** A closed slot goes to the head of the free list. */
  function Returned(t: Table, file: nat): Table
    requires 0 < file < |t.cache|
  {
    var c := t.cache[file := t.cache[file].(name := Unused, nextFree := t.cache[0].nextFree)];
    t.(cache := c[0 := c[0].(nextFree := file)])
  }

  lemma ReturnStep(t: Table, g: Shadow, spare: nat, file: nat) returns (t': Table, g': Shadow)
    requires TableOk(t, g, spare) && 0 < file < |t.cache| && t.cache[file].fd == CLOSED && file !in g.free
    requires spare == 0 || spare == file
    ensures t' == Returned(t, file) && g' == g.(free := [file] + g.free) && TableOk(t', g', 0)
    ensures View(t') == View(t) - {file}
    ensures PosAt(t', file)
    ensures KeepsSync(t, t', file)
  {
    t', g' := Returned(t, file), g.(free := [file] + g.free);
    assert SlotOk(t, g, spare, file);
    forall a
      ensures SameRing(t.cache, t'.cache, a)
    {
    }
    RingKept(t.cache, t'.cache, g.ring);
    forall i | 0 <= i < |g'.free|
      ensures FreeAt(t'.cache, g'.free, i)
    {
      if i > 0 {
        assert FreeAt(t.cache, g.free, i - 1) && g'.free[i] == g.free[i - 1];
      }
    }
    forall a
      ensures SlotOk(t', g', 0, a)
    {
      assert SlotOk(t, g, spare, a);
    }
    forall a, b
      ensures FdsApart(t', a, b)
    {
      assert FdsApart(t, a, b);
    }
    ReturnKeeps(t, file);
  }

  lemma ReturnKeeps(t: Table, file: nat)
    requires 0 < file < |t.cache|
    ensures View(Returned(t, file)) == View(t) - {file}
    ensures PosAt(Returned(t, file), file) && KeepsSync(t, Returned(t, file), file)
  {
    var t' := Returned(t, file);
    forall a | a != file
      ensures SyncKept(t, t', a)
    {
    }
  }

  // ---------- growing ----------

  /** A new slot, linked to its successor. */
  function NewSlot(next: nat): Vfd {
    Vfd(CLOSED, next, 0, 0, 0, Unused, Flags(false, false, false, 0))
  }

  ghost predicate NewAt(cache: seq<Vfd>, n: nat, a: nat) {
    a < |cache| ==> cache[a] == NewSlot(if a + 1 < n then a + 1 else 0)
  }

  /** The array is full and gets new slots, all of them free. */
  lemma GrowStep(t: Table, g: Shadow, cache': seq<Vfd>) returns (g': Shadow)
    requires TableOk(t, g, 0) && g.free == [] && |t.cache| < |cache'|
    requires cache'[0] == t.cache[0].(nextFree := |t.cache|)
    requires forall a :: 0 < a < |t.cache| ==> cache'[a] == t.cache[a]
    requires forall a :: |t.cache| <= a ==> NewAt(cache', |cache'|, a)
    ensures g' == g.(free := Upward(|t.cache|, |cache'|))
    ensures TableOk(t.(cache := cache'), g', 0) && View(t.(cache := cache')) == View(t)
    ensures KeepsSync(t, t.(cache := cache'), 0)
  {
    var n, n' := |t.cache|, |cache'|;
    var t' := t.(cache := cache');
    g' := g.(free := Upward(n, n'));
    forall a: nat
      ensures SameRing(t.cache, cache', a)
    {
      assert 0 < a < n ==> cache'[a] == t.cache[a];
    }
    RingKept(t.cache, cache', g.ring);
    forall i | 0 <= i < |g'.free|
      ensures FreeAt(cache', g'.free, i)
    {
      assert NewAt(cache', n', n + i);
    }
    forall a
      ensures SlotOk(t', g', 0, a) && SyncKept(t, t', a)
    {
      GrowSlot(t, g, cache', g', a);
    }
    forall a, b
      ensures FdsApart(t', a, b)
    {
      assert FdsApart(t, a, b) && (n <= a ==> NewAt(cache', n', a)) && (n <= b ==> NewAt(cache', n', b));
    }
    forall a: nat | n <= a < n'
      ensures t'.cache[a].name.Unused?
    {
      assert NewAt(cache', n', a);
    }
    assert View(t') == View(t);
  }

  lemma RingMember(cache: seq<Vfd>, ring: seq<nat>, a: nat)
    requires RingOk(cache, ring)
    ensures a in ring ==> 0 < a < |cache|
  {
    if a in ring {
      var i :| 0 <= i < |ring| && ring[i] == a;
      assert RingAt(cache, ring, i);
    }
  }

  lemma GrowSlot(t: Table, g: Shadow, cache': seq<Vfd>, g': Shadow, a: nat)
    requires TableOk(t, g, 0) && g.free == [] && |t.cache| < |cache'|
    requires forall a :: 0 < a < |t.cache| ==> cache'[a] == t.cache[a]
    requires forall a :: |t.cache| <= a ==> NewAt(cache', |cache'|, a)
    requires g' == g.(free := Upward(|t.cache|, |cache'|))
    ensures SlotOk(t.(cache := cache'), g', 0, a)
    ensures SyncKept(t, t.(cache := cache'), a)
  {
    assert SlotOk(t, g, 0, a);
    if |t.cache| <= a < |cache'| {
      assert NewAt(cache', |cache'|, a);
      assert g'.free[a - |t.cache|] == a;
      RingMember(t.cache, g.ring, a);
    }
  }

  /** The array at first use: a header and nothing else. */
  lemma FirstStep()
    ensures TableOk(Table([NewSlot(0)], 0, map[]), Shadow([], []), 0)
    ensures View(Table([NewSlot(0)], 0, map[])) == map[]
  {
  }
}
