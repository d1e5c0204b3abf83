/** Virtual file descriptors: any number of files, each with its own position,
    over the few descriptors that the operating system grants. */
module VirtualFiles {
  import opened VfdTable
  import opened VfdKernel
  import opened FileWorld
  import opened Lists

  const FD_MINFREE: nat := 10

  /** The file is stored under clean flags, and exists. */
  ghost predicate StoredAt(t: Table, files: map<string, seq<nat>>, a: nat) {
    IsFile(t, a) ==>
      && t.cache[a].name.path in files
      && !t.cache[a].flags.creat && !t.cache[a].flags.trunc && !t.cache[a].flags.excl
  }

  /** Slot `a` has the descriptor and the recorded position it had. */
  ghost predicate FixedAt(t: Table, t': Table, a: nat) {
    a < |t.cache| && a < |t'.cache| ==> t'.cache[a].fd == t.cache[a].fd && t'.cache[a].seekPos == t.cache[a].seekPos
  }

  /** If file `file` was physically open, no file was closed or opened, and no record but its own changed. */
  ghost predicate Calm(t: Table, t': Table, file: nat) {
    file < |t.cache| && file < |t'.cache| && t.cache[file].fd != CLOSED ==>
      t'.cache[file].fd == t.cache[file].fd && forall a :: a != file ==> FixedAt(t, t', a)
  }

  lemma CalmTwice(t: Table, t1: Table, t2: Table, file: nat)
    requires Calm(t, t1, file) && Calm(t1, t2, file) && |t.cache| == |t1.cache| == |t2.cache|
    ensures Calm(t, t2, file)
  {
    if file < |t.cache| && t.cache[file].fd != CLOSED {
      forall a | a != file
        ensures FixedAt(t, t2, a)
      {
        assert FixedAt(t, t1, a) && FixedAt(t1, t2, a);
      }
    }
  }

  /** Files may have been reopened, closed or reordered; nobody can tell. */
  ghost predicate Unseen(t: Table, t': Table, file: nat) {
    && |t'.cache| == |t.cache| && View(t') == View(t) && KeepsSync(t, t', 0) && Calm(t, t', file)
    && SameFile(t, t', file)
    && IsFile(t, file) && IsFile(t', file) && t'.cache[file].seekPos == t.cache[file].seekPos
  }

  /** File `file` moved on by `rc` bytes, or failed to, in the record too; no other did. */
  ghost predicate Passed(t: Table, t': Table, file: nat, rc: int) {
    && |t'.cache| == |t.cache| && IsFile(t, file) && IsFile(t', file) && KeepsSync(t, t', file)
    && SameFile(t, t', file) && LogicalPos(t, file) >= 0
    && t'.cache[file].fd != CLOSED && t'.cache[file].seekPos == Advance(t.cache[file].seekPos, rc)
    && View(t') == View(t)[file := Open(t.cache[file].name.path, LogicalPos(t, file) + if rc > 0 then rc else 0)]
    && Calm(t, t', file) && if rc > 0 then Exact(t, file) ==> Exact(t', file) else Synced(t', file)
  }

  /** The record of the closed file `file` is set; nothing else changes. */
  ghost predicate Noted(t: Table, t': Table, file: nat, seekPos: int) {
    && |t'.cache| == |t.cache| && IsFile(t, file) && IsFile(t', file) && KeepsSync(t, t', file)
    && SameFile(t, t', file) && t'.cache[file].fd == CLOSED && t'.cache[file].seekPos == seekPos
    && View(t') == View(t)[file := Open(t.cache[file].name.path, seekPos)]
  }

  /** File `file` could not be reopened and has lost its position; no other has. */
  ghost predicate Lost(t: Table, t': Table, file: nat) {
    Noted(t, t', file, UNKNOWN)
  }

  /** The open file `file` now has the recorded position `m.0` and the true one `m.1`. */
  ghost predicate Positioned(t: Table, t': Table, file: nat, m: (int, nat)) {
    && |t'.cache| == |t.cache| && IsFile(t, file) && IsFile(t', file) && KeepsSync(t, t', file) && Calm(t, t', file)
    && SameFile(t, t', file) && t'.cache[file].fd != CLOSED && t'.cache[file].seekPos == m.0
    && LogicalPos(t', file) == m.1
    && View(t') == View(t)[file := Open(t.cache[file].name.path, m.1)]
  }

  /** The free slots when an array of `n` slots without any has been enlarged. */
  ghost function Unthreaded(n: nat): (free: seq<nat>)
    ensures |free| > 0
  {
    if n < 16 then Upward(if n == 0 then 1 else n, 32) else Upward(n, 2 * n)
  }

  /** Slot `slot` was the first free one, in an array of `n` slots that grows when there is none. */
  ghost predicate Taken(free: seq<nat>, free': seq<nat>, n: nat, slot: nat) {
    [slot] + free' == if free != [] then free else Unthreaded(n)
  }

  /** The `n` least recently used files were closed. */
  ghost predicate Evicted(ring: seq<nat>, ring': seq<nat>, n: nat) {
    n <= |ring| && ring' == ring[n..]
  }

  /** And then `file` became the most recently used. */
  ghost predicate EvictedFor(ring: seq<nat>, ring': seq<nat>, n: nat, file: nat) {
    n <= |ring| && ring' == ring[n..] + [file]
  }

  /** Both lists after an attempt to open a file: `n` files were closed, and the
      first free slot is the new file's, or is free as before. */
  ghost predicate Lined(g: Shadow, g': Shadow, slots: nat, file: int, n: nat) {
    if file < 0 then Evicted(g.ring, g'.ring, n) && g'.free == if g.free != [] then g.free else Unthreaded(slots)
    else EvictedFor(g.ring, g'.ring, n, file) && Taken(g.free, g'.free, slots, file)
  }

  /** An open file has left the ring. */
  ghost predicate Unlisted(ring: seq<nat>, ring': seq<nat>, file: nat, closed: bool) {
    if closed then ring' == ring else forall i :: 0 <= i < |ring| && ring[i] == file ==> ring' == Without(ring, i)
  }

  /** The ring when file `file` has been used: it is the most recently used, unless
      it could not be reopened; the order of the others is as before, and only to
      reopen it the `n` least recently used of them have been closed. */
  ghost predicate Reordered(g: Shadow, g': Shadow, file: nat, closed: bool, n: nat, ok: bool) {
    && g'.free == g.free
    && if closed then if ok then EvictedFor(g.ring, g'.ring, n, file) else Evicted(g.ring, g'.ring, n)
       else ok && forall i :: 0 <= i < |g.ring| && g.ring[i] == file ==> g'.ring == Without(g.ring, i) + [file]
  }

  /** What a seek does and answers. A closed file is reopened only to find its end,
      if it `can` be. */
  ghost predicate Sought(t: Table, t': Table, file: nat, len: nat, offset: int, whence: Whence, can: bool,
                         r: SeekResult)
    requires IsFile(t, file)
  {
    var v, pos := t.cache[file], LogicalPos(t, file);
    if (whence == SeekSet && offset < 0) || whence == Other then r.Rejected? && t' == t
    else if v.fd == CLOSED && whence != SeekEnd then
      var to := Target(pos, len, offset, whence); r == Pos(to) && Noted(t, t', file, to)
    else if v.fd == CLOSED && !can then r == Pos(UNKNOWN) && Lost(t, t', file)
    else pos >= 0 && var m := SeekOpen(v.seekPos, pos, len, offset, whence); r == Pos(m.0) && Positioned(t, t', file, m)
  }

  /** The position stays valid exactly unless a relative seek leaves the start of a
      closed file or a closed file cannot be reopened. */
  lemma SoughtPos(t: Table, t': Table, file: nat, len: nat, offset: int, whence: Whence, can: bool, r: SeekResult)
    requires IsFile(t, file) && Sought(t, t', file, len, offset, whence, can, r) && r.Pos?
    ensures PosAt(t', file) <==>
            || t.cache[file].fd != CLOSED
            || if whence == SeekEnd then can else Target(LogicalPos(t, file), len, offset, whence) >= 0
  {
  }

  /** Otherwise the seek does and answers what lseek does on a permanently open
      file, exactly unless it is skipped on the word of a wrong record. */
  lemma SoughtExact(t: Table, t': Table, file: nat, len: nat, offset: int, whence: Whence, can: bool, r: SeekResult)
    requires IsFile(t, file) && PosAt(t, file) && LogicalPos(t, file) >= 0
    requires Sought(t, t', file, len, offset, whence, can, r) && r.Pos? && PosAt(t', file)
    ensures var v, m := t.cache[file], KernelSeek(LogicalPos(t, file), len, offset, whence);
            && (r == Pos(m.0) && View(t') == View(t)[file := Open(v.name.path, m.1)]
                <==> v.fd == CLOSED || !Skips(v.seekPos, offset, whence) || v.seekPos == LogicalPos(t, file))
            && (r == Pos(m.0) && View(t') == View(t)[file := Open(v.name.path, m.1)] ==>
                  Synced(t', file) && (m.0 >= 0 ==> Exact(t', file)))
            && t'.cache[file].seekPos == r.offset
  {
    var v, pos := t.cache[file], LogicalPos(t, file);
    SeekExact(v.seekPos, pos, len, offset, whence);
    var m := KernelSeek(pos, len, offset, whence);
    assert View(t)[file := Open(v.name.path, m.1)][file].pos == m.1;
    assert file in View(t') && View(t')[file].pos == LogicalPos(t', file);
  }

  lemma UnseenPos(t: Table, t': Table, file: nat)
    requires Unseen(t, t', file)
    ensures t'.cache[file].name == t.cache[file].name && LogicalPos(t', file) == LogicalPos(t, file)
  {
    assert View(t')[file] == View(t)[file];
  }

  lemma UnseenPassed(t: Table, t1: Table, t2: Table, file: nat, rc: int)
    requires Unseen(t, t1, file) && Passed(t1, t2, file, rc)
    ensures Passed(t, t2, file, rc)
  {
    UnseenPos(t, t1, file);
    assert SyncKept(t, t1, file);
    KeepsTwice(t, t1, t2, 0, file, file);
    CalmTwice(t, t1, t2, file);
  }

  lemma UnseenLost(t: Table, t1: Table, t2: Table, file: nat)
    requires Unseen(t, t1, file) && Lost(t1, t2, file)
    ensures Lost(t, t2, file)
  {
    UnseenPos(t, t1, file);
    KeepsTwice(t, t1, t2, 0, file, file);
  }

  /** File `file` is open as `fd`, and will be reopened with `flags`, but neither
      made nor emptied again. */
  ghost predicate Stored(t: Table, file: nat, fd: int, flags: Flags) {
    && IsFile(t, file) && t.cache[file].fd == fd && t.cache[file].seekPos == 0
    && t.cache[file].flags == Flags(false, false, false, flags.others)
  }

  class FileTable {
    var cache: seq<Vfd>
    var NFile: nat
    var NumAllocatedFiles: nat
    var kernel: map<int, Desc>
    var files: map<string, seq<nat>>
    const nofile: nat
    ghost var g: Shadow

    function T(): Table
      reads this
    {
      Table(cache, NFile, kernel)
    }

    /** `spare` is a slot taken but not yet opened; before the first use there is no array. */
    ghost predicate Inv(spare: nat)
      reads this
    {
      && nofile >= FD_MINFREE
      && (if cache == [] then NFile == 0 && g == Shadow([], []) && kernel == map[] && spare == 0
          else TableOk(T(), g, spare))
      && forall a :: StoredAt(T(), files, a)
    }

    ghost predicate Valid()
      reads this
    {
      Inv(0) && NFile <= nofile
    }

    /** What becomes of opening one more file now. */
    ghost function OpeningNow(os: Os): Outcome
      reads this
    {
      Opening(os, T(), g, NumAllocatedFiles, nofile)
    }

    /** How many files opening one more now would close. */
    ghost function ClosingNow(os: Os): (n: nat)
      ensures n <= |g.ring|
      reads this
    {
      Closing(os, T(), g, NumAllocatedFiles, nofile)
    }

    /** How many it closes if the kernel may turn out not to be asked. */
    ghost function Evictions(path: string, flags: Flags, os: Os): (n: nat)
      ensures n <= |g.ring|
      reads this
    {
      if Openable(files, path, flags) then ClosingNow(os) else Excess(|g.ring|, NumAllocatedFiles, nofile)
    }

    /** The file is physically open, or can be reopened. */
    ghost predicate Accessible(file: nat, os: Os)
      requires file < |cache|
      reads this
    {
      cache[file].fd != CLOSED || OpeningNow(os).Opened?
    }

    constructor (limit: nat, disk: map<string, seq<nat>>)
      requires limit >= FD_MINFREE
      ensures Valid() && PosOk(T()) && View(T()) == map[] && files == disk && cache == [] && NFile == 0
    {
      cache, NFile, NumAllocatedFiles, kernel, files, nofile := [], 0, 0, map[], disk, limit;
      g := Shadow([], []);
    }

    method Install(t': Table, ghost g': Shadow)
      modifies this`cache, this`NFile, this`kernel, this`g
      ensures T() == t' && g == g'
    {
      cache, NFile, kernel := t'.cache, t'.nfile, t'.kernel;
      g := g';
    }

    /** lru_delete: closes one physically open file. */
    method LruDelete(file: nat, ghost i: nat, ghost spare: nat)
      requires Inv(spare) && i < |g.ring| && g.ring[i] == file
      modifies this`cache, this`NFile, this`kernel, this`g
      ensures Inv(spare) && g == old(g).(ring := Without(old(g.ring), i)) && NFile == old(NFile) - 1
      ensures |cache| == |old(cache)| && View(T()) == old(View(T())) && KeepsSync(old(T()), T(), 0)
      ensures file < |old(cache)| && kernel.Keys == old(kernel).Keys - {old(cache[file].fd)}
      ensures forall a :: OnlyEvicts(old(T()), T(), a)
    {
      ghost var t0, g0 := T(), g;
      ghost var t', g' := EvictStep(T(), g, spare, i);
      Install(Detached(T(), file, kernel[cache[file].fd].pos), g');
      forall a
        ensures OnlyEvicts(t0, t', a) && StoredAt(t', files, a)
      {
        assert DetachKeeps(t0, t', file, LogicalPos(t0, file), a) && StoredAt(t0, files, a);
      }
    }

    /** release_lru_file: closes the least recently used file, if any is open. */
    method ReleaseLru(ghost spare: nat) returns (ok: bool)
      requires Inv(spare)
      modifies this`cache, this`NFile, this`kernel, this`g
      ensures Inv(spare) && Shrunk(old(T()), old(g), T(), g, if ok then 1 else 0)
      ensures ok <==> old(NFile) > 0
      ensures ok ==> NFile == old(NFile) - 1
      ensures !ok ==> T() == old(T()) && g == old(g)
    {
      ghost var t0, g0 := T(), g;
      ok := NFile > 0;
      if ok {
        LruDelete(cache[0].more, 0, spare);
        FirstGone(t0, g0, spare, T(), g);
      } else {
        ShrunkSelf(t0, g0);
      }
    }

    /** Makes room below the limit; ends because every round closes a file. */
    method MakeRoom(ghost spare: nat) returns (ghost n: nat)
      requires Inv(spare)
      modifies this`cache, this`NFile, this`kernel, this`g
      ensures Inv(spare) && NFile < nofile
      ensures n == Excess(|old(g.ring)|, NumAllocatedFiles, nofile) && Shrunk(old(T()), old(g), T(), g, n)
    {
      ghost var t0, g0 := T(), g;
      n := 0;
      ShrunkSelf(t0, g0);
      while NFile + NumAllocatedFiles >= nofile
        invariant Inv(spare) && Shrunk(t0, g0, T(), g, n) && NFile == |g0.ring| - n
        invariant n == 0 || NFile + 1 + NumAllocatedFiles >= nofile
        decreases NFile
      {
        ghost var t1, g1 := T(), g;
        var ok := ReleaseLru(spare);
        if !ok {
          ExcessIs(|g0.ring|, n, NumAllocatedFiles, nofile);
          return;
        }
        n := ShrunkMore(t0, g0, t1, g1, n, T(), g);
      }
      ExcessIs(|g0.ring|, n, NumAllocatedFiles, nofile);
    }

    /** basic_open_file: tries again for as long as there is a file to close. */
    method BasicOpen(path: string, flags: Flags, os: Os, ghost spare: nat)
      returns (fd: int, ghost last: Outcome, ghost n: nat)
      requires Inv(spare) && Honest(os)
      modifies this`cache, this`NFile, this`kernel, this`g
      ensures Inv(spare) && Shrunk(old(T()), old(g), T(), g, n) && NFile <= old(NFile)
      ensures if Openable(files, path, flags)
              then Ends(os, old(kernel).Keys, FdsOf(old(T()), old(g.ring)), n, last) else last == Refused && n == 0
      ensures last.Opened? ==> fd == last.fd && fd >= 0 && fd !in kernel
      ensures !last.Opened? ==> fd == CLOSED
      ensures last.NoDescriptor? ==> NFile == 0
    {
      ghost var t0, g0 := T(), g;
      ghost var used, lru := kernel.Keys, FdsOf(t0, g0.ring);
      ShrunkSelf(t0, g0);
      var attempt := 0;
      n := 0;
      if !Openable(files, path, flags) {
        return CLOSED, Refused, 0;
      }
      while true
        invariant Inv(spare) && Shrunk(t0, g0, T(), g, attempt) && NFile == |g0.ring| - attempt
        invariant Trying(os, used, lru, attempt)
        decreases NFile
      {
        var o := os(attempt, kernel.Keys);
        assert HonestAt(os, attempt, kernel.Keys);
        OneMore(os, used, lru, attempt);
        if !o.NoDescriptor? {
          return if o.Opened? then o.fd else CLOSED, o, attempt;
        }
        ghost var t1, g1 := T(), g;
        var ok := ReleaseLru(spare);
        if !ok {
          return CLOSED, o, attempt;
        }
        ShrunkTwice(t0, g0, t1, g1, attempt, T(), g, 1);
        attempt := attempt + 1;
      }
    }

    /** The two phases before a file is reopened: room is made, and the kernel asked. */
    method OpenPhase(path: string, flags: Flags, os: Os, ghost spare: nat)
      returns (fd: int, ghost last: Outcome, ghost n: nat)
      requires Inv(spare) && Honest(os)
      modifies this`cache, this`NFile, this`kernel, this`g
      ensures Inv(spare) && NFile < nofile && Shrunk(old(T()), old(g), T(), g, n)
      ensures last == if Openable(files, path, flags) then old(OpeningNow(os)) else Refused
      ensures n == old(Evictions(path, flags, os))
      ensures last.Opened? ==> fd == last.fd && fd >= 0 && fd !in kernel
      ensures !last.Opened? ==> fd == CLOSED
      ensures last.NoDescriptor? ==> NFile == 0
    {
      ghost var t0, g0 := T(), g;
      ghost var k := MakeRoom(spare);
      ghost var t1, g1 := T(), g;
      ghost var m;
      fd, last, m := BasicOpen(path, flags, os, spare);
      n := BothPhases(os, t0, g0, t1, g1, k, T(), g, m, Openable(files, path, flags), last,
                      NumAllocatedFiles, nofile);
    }

    /** lru_insert: reopens a closed file where it was, as the most recently used;
        fails exactly if the kernel's answers to the attempts end in a refusal. */
    method LruInsert(file: nat, os: Os) returns (ok: bool)
      requires Valid() && IsFile(T(), file) && PosAt(T(), file) && cache[file].fd == CLOSED && Honest(os)
      modifies this`cache, this`NFile, this`kernel, this`g
      ensures Valid() && Unseen(old(T()), T(), file)
      ensures ok <==> old(OpeningNow(os)).Opened?
      ensures cache[file].fd == if ok then old(OpeningNow(os)).fd else CLOSED
      ensures Reordered(old(g), g, file, true, old(ClosingNow(os)), ok) && (ok <==> cache[file].fd != CLOSED)
    {
      ghost var t0, g0 := T(), g;
      assert StoredAt(t0, files, file);
      var fd;
      ghost var last, n;
      fd, last, n := OpenPhase(cache[file].name.path, cache[file].flags, os, 0);
      ghost var t2 := T();
      assert OnlyEvicts(t0, t2, file);
      ok := fd >= 0;
      if ok {
        assert SyncKept(t0, t2, file);
        Reattach(file, fd);
        KeepsTwice(t0, t2, T(), 0, 0, 0);
      }
    }

    /** Puts a fresh kernel descriptor into a closed slot and seeks to where the file was. */
    method Reattach(file: nat, fd: int)
      requires Inv(0) && NFile < nofile && IsFile(T(), file) && PosAt(T(), file) && cache[file].fd == CLOSED
      requires fd >= 0 && fd !in kernel
      modifies this`cache, this`NFile, this`kernel, this`g
      ensures Valid() && View(T()) == old(View(T())) && |cache| == |old(cache)| && SameFile(old(T()), T(), file)
      ensures IsFile(T(), file) && cache[file].fd == fd && cache[file].seekPos == old(cache[file].seekPos)
      ensures g == old(g).(ring := old(g.ring) + [file])
      ensures KeepsSync(old(T()), T(), 0)
    {
      ghost var t2, g2 := T(), g;
      assert PosAt(t2, file) && SlotOk(t2, g2, 0, file) && StoredAt(t2, files, file);
      var v := cache[file].(fd := fd);
      var desc := Desc(cache[file].name.path, if cache[file].seekPos != 0 then cache[file].seekPos else 0);
      ghost var t3, g3 := AttachStep(t2, g2, 0, file, v, desc);
      AttachRest(t2, g2, 0, t3, file, v, desc, files);
      assert View(t2)[file := Open(desc.path, desc.pos)] == View(t2);
      assert AttachKeeps(t2, t3, file, v, desc, file);
      Install(Attached(T(), file, v, desc), g3);
    }

    /** file_access: the file is physically open and the most recently used, or cannot be reopened. */
    method FileAccess(file: nat, os: Os) returns (ok: bool)
      requires Valid() && IsFile(T(), file) && PosAt(T(), file) && Honest(os)
      modifies this`cache, this`NFile, this`kernel, this`g
      ensures Valid() && Unseen(old(T()), T(), file)
      ensures ok <==> old(Accessible(file, os))
      ensures ok <==> cache[file].fd != CLOSED
      ensures Reordered(old(g), g, file, old(cache[file].fd) == CLOSED, old(ClosingNow(os)), ok)
    {
      if cache[file].fd == CLOSED {
        ok := LruInsert(file, os);
        return;
      }
      ok := true;
      Touch(file);
    }

    /** An open file becomes the most recently used. */
    method Touch(file: nat)
      requires Valid() && IsFile(T(), file) && cache[file].fd != CLOSED
      modifies this`cache, this`NFile, this`kernel, this`g
      ensures Valid() && Unseen(old(T()), T(), file) && g.free == old(g.free)
      ensures forall i :: 0 <= i < |old(g.ring)| && old(g.ring)[i] == file ==>
                g.ring == Without(old(g.ring), i) + [file]
    {
      ghost var t0, g0 := T(), g;
      assert SlotOk(t0, g0, 0, file);
      ghost var i :| 0 <= i < |g.ring| && g.ring[i] == file;
      if cache[0].less != file {
        ghost var t', g' := TouchStep(t0, g0, i);
        Install(T().(cache := RingInsert(RingDelete(cache, file), file)), g');
        TouchRest(t0, t', files, file);
      } else {
        assert i == |g.ring| - 1;
        assert g.ring == Without(g.ring, i) + [file];
      }
    }

    /** There is a free slot: at first use the array is made, and when it is full enlarged. */
    method EnsureFree()
      requires Valid()
      modifies this`cache, this`g
      ensures Valid() && TableOk(T(), g, 0) && View(T()) == old(View(T())) && g.ring == old(g.ring)
      ensures g.free != [] && FdsOf(T(), g.ring) == old(FdsOf(T(), g.ring))
      ensures g.free == if old(g.free) != [] then old(g.free) else Unthreaded(|old(cache)|)
      ensures KeepsSync(old(T()), T(), 0)
    {
      ghost var t0, g0 := T(), g;
      if cache == [] {
        cache := [NewSlot(0)];
        FirstStep();
        assert View(t0) == map[];
      }
      ghost var t1 := T();
      assert g.free != [] ==> FreeAt(cache, g.free, 0);
      if cache[0].nextFree == 0 {
        var c := Enlarge(cache);
        ghost var g2 := GrowStep(T(), g, c);
        GrowStored(t1, c, files);
        cache, g := c, g2;
        KeepsTwice(t0, t1, T(), 0, 0, 0);
        RingFds(t1, g.ring, T());
      }
    }

    /** allocate_vfd: the first free slot, out of the free list. */
    method AllocateVfd() returns (file: nat)
      requires Valid()
      modifies this`cache, this`g
      ensures Inv(file) && View(T()) == old(View(T())) && g.ring == old(g.ring)
      ensures FdsOf(T(), g.ring) == old(FdsOf(T(), g.ring))
      ensures 0 < file < |cache| && cache[file].fd == CLOSED && file !in g.free && file !in View(T())
      ensures Taken(old(g.free), g.free, |old(cache)|, file)
      ensures KeepsSync(old(T()), T(), 0)
    {
      ghost var t0 := T();
      EnsureFree();
      ghost var t2 := T();
      ghost var t3, g3 := TakeStep(T(), g);
      TakeStored(t2, t3, files);
      RingFds(t2, g.ring, t3);
      file := cache[0].nextFree;
      cache, g := cache[0 := cache[0].(nextFree := cache[file].nextFree)], g3;
      KeepsTwice(t0, t2, t3, 0, 0, 0);
    }

    /** file_name_open_file_aux: a new virtual file at position 0, or -1. */
    method OpenFile(path: string, flags: Flags, os: Os) returns (file: int, ghost last: Outcome)
      requires Valid() && Honest(os)
      modifies this`cache, this`NFile, this`kernel, this`g, this`files
      ensures Valid()
      ensures last == if Openable(old(files), path, flags) then old(OpeningNow(os)) else Refused
      ensures file == -1 <==> !last.Opened?
      ensures last.NoDescriptor? ==> NFile == 0
      ensures file == -1 ==> View(T()) == old(View(T())) && files == old(files)
      ensures file != -1 ==> file > 0 && files == AfterOpen(old(files), path, flags)
      ensures file != -1 ==> var f: nat := file; f !in old(View(T())) && View(T()) == old(View(T()))[f := Open(path, 0)]
      ensures file != -1 ==> var f: nat := file; Stored(T(), f, last.fd, flags) && Exact(T(), f)
      ensures Lined(old(g), g, |old(cache)|, file, old(Evictions(path, flags, os)))
      ensures KeepsSync(old(T()), T(), 0)
    {
      ghost var t0 := T();
      var slot, fd;
      slot, fd, last := OpenSlot(path, flags, os);
      ghost var t1 := T();
      if fd < 0 {
        AbandonSlot(slot);
        KeepsTwice(t0, t1, T(), 0, 0, 0);
        return -1, last;
      }
      FillSlot(slot, fd, path, flags);
      KeepsTwice(t0, t1, T(), 0, 0, 0);
      file := slot;
    }

    /** A free slot and, with luck, a kernel descriptor for it. */
    method OpenSlot(path: string, flags: Flags, os: Os) returns (slot: nat, fd: int, ghost last: Outcome)
      requires Valid() && Honest(os)
      modifies this`cache, this`NFile, this`kernel, this`g
      ensures Inv(slot) && NFile < nofile && View(T()) == old(View(T()))
      ensures last == if Openable(files, path, flags) then old(OpeningNow(os)) else Refused
      ensures 0 < slot < |cache| && cache[slot].fd == CLOSED && slot !in g.free && slot !in View(T())
      ensures if last.Opened? then fd == last.fd >= 0 && fd !in kernel else fd == CLOSED
      ensures last.NoDescriptor? ==> NFile == 0
      ensures Taken(old(g.free), g.free, |old(cache)|, slot)
      ensures Evicted(old(g.ring), g.ring, old(Evictions(path, flags, os)))
      ensures KeepsSync(old(T()), T(), 0)
    {
      ghost var t0 := T();
      slot := AllocateVfd();
      ghost var t1 := T();
      ghost var n;
      fd, last, n := OpenPhase(path, flags, os, slot);
      assert OnlyEvicts(t1, T(), slot);
      KeepsTwice(t0, t1, T(), 0, 0, 0);
    }

    /** The slot goes back to the free list. */
    method AbandonSlot(slot: nat)
      requires Inv(slot) && NFile <= nofile
      requires 0 < slot < |cache| && cache[slot].fd == CLOSED && slot !in g.free && slot !in View(T())
      modifies this`cache, this`NFile, this`kernel, this`g
      ensures Valid() && View(T()) == old(View(T())) && NFile == old(NFile)
      ensures g.ring == old(g.ring) && g.free == [slot] + old(g.free)
      ensures KeepsSync(old(T()), T(), 0)
    {
      ghost var t3 := T();
      ghost var t4, g4 := ReturnStep(t3, g, slot, slot);
      ReturnStored(t3, t4, slot, files);
      assert View(t3) - {slot} == View(t3);
      assert SyncKept(t3, t4, slot);
      Install(Returned(T(), slot), g4);
    }

    /** The slot becomes the most recently used file, at position 0, with flags fit for reopening. */
    method FillSlot(slot: nat, fd: int, path: string, flags: Flags)
      requires Inv(slot) && NFile < nofile && fd >= 0 && fd !in kernel
      requires 0 < slot < |cache| && cache[slot].fd == CLOSED && slot !in g.free && slot !in View(T())
      modifies this`cache, this`NFile, this`kernel, this`g, this`files
      ensures Valid() && View(T()) == old(View(T()))[slot := Open(path, 0)]
      ensures |cache| == |old(cache)| && Stored(T(), slot, fd, flags) && g.free == old(g.free)
      ensures files == AfterOpen(old(files), path, flags) && g.ring == old(g.ring) + [slot] && Exact(T(), slot)
      ensures KeepsSync(old(T()), T(), 0)
    {
      ghost var t3, g3, files0 := T(), g, files;
      var v := cache[slot].(fd := fd, name := Named(path),
                            flags := flags.(creat := false, trunc := false, excl := false), seekPos := 0);
      ghost var t4, g4 := AttachStep(t3, g3, slot, slot, v, Desc(path, 0));
      files := AfterOpen(files, path, flags);
      forall a
        ensures StoredAt(t3, files, a)
      {
        assert StoredAt(t3, files0, a);
      }
      AttachRest(t3, g3, slot, t4, slot, v, Desc(path, 0), files);
      Install(Attached(T(), slot, v, Desc(path, 0)), g4);
    }

    /** The kernel descriptor of an open file is closed for good. */
    method CloseFd(file: nat)
      requires Valid() && IsFile(T(), file) && cache[file].fd != CLOSED
      modifies this`cache, this`NFile, this`kernel, this`g
      ensures Valid() && View(T()) - {file} == old(View(T())) - {file} && IsFile(T(), file) && cache[file].fd == CLOSED
      ensures kernel == old(kernel) - {old(cache[file].fd)} && g.free == old(g.free)
      ensures Unlisted(old(g.ring), g.ring, file, false)
      ensures KeepsSync(old(T()), T(), file)
    {
      ghost var t0, g0 := T(), g;
      assert SlotOk(t0, g0, 0, file);
      ghost var i :| 0 <= i < |g.ring| && g.ring[i] == file;
      ghost var t1, g1 := DetachStep(t0, g0, 0, i, cache[file].seekPos);
      assert DetachKeeps(t0, t1, file, cache[file].seekPos, file);
      Install(Detached(T(), file, cache[file].seekPos), g1);
      DetachRest(t0, g0, t1, file, files);
    }

    /** file_close: the virtual file is gone, and so is its kernel descriptor. */
    method FileClose(file: nat)
      requires Valid() && IsFile(T(), file)
      modifies this`cache, this`NFile, this`kernel, this`g
      ensures Valid() && View(T()) == old(View(T())) - {file}
      ensures kernel == if old(cache[file].fd) != CLOSED then old(kernel) - {old(cache[file].fd)} else old(kernel)
      ensures g.free == [file] + old(g.free)
      ensures Unlisted(old(g.ring), g.ring, file, old(cache[file].fd) == CLOSED)
      ensures KeepsSync(old(T()), T(), file)
    {
      ghost var t0 := T();
      if cache[file].fd != CLOSED {
        CloseFd(file);
      }
      ghost var t1 := T();
      FreeSlot(file);
      KeepsTwice(t0, t1, T(), file, file, file);
    }

    /** The slot of a closed file goes back to the free list. */
    method FreeSlot(file: nat)
      requires Valid() && IsFile(T(), file) && cache[file].fd == CLOSED
      modifies this`cache, this`NFile, this`kernel, this`g
      ensures Valid() && View(T()) == old(View(T())) - {file} && KeepsSync(old(T()), T(), file)
      ensures kernel == old(kernel) && g == old(g).(free := [file] + old(g.free))
    {
      ghost var t1 := T();
      assert SlotOk(t1, g, 0, file);
      ghost var t2, g2 := ReturnStep(t1, g, 0, file);
      ReturnStored(t1, t2, file, files);
      Install(Returned(T(), file), g2);
    }

    /** After a transfer of `rc` bytes the kernel and the record both advance. */
    method Transfer(file: nat, rc: int)
      requires Valid() && IsFile(T(), file) && cache[file].fd != CLOSED && rc >= -1
      modifies this`cache, this`NFile, this`kernel, this`g
      ensures Valid() && g == old(g) && Passed(old(T()), T(), file, rc)
    {
      ghost var t0 := T();
      assert SlotOk(t0, g, 0, file);
      var pos := kernel[cache[file].fd].pos + if rc > 0 then rc else 0;
      var seek := Advance(cache[file].seekPos, rc);
      ghost var t' := MoveStep(t0, g, file, seek, pos);
      MoveStored(t0, t', file, seek, pos, files);
      Install(Moved(T(), file, seek, pos), g);
    }

    /** How much a read of `amount` bytes at the file's position can yield. */
    function Readable(file: nat, amount: nat): nat
      requires IsFile(T(), file) && cache[file].name.path in files
      reads this
    {
      var pos, len := LogicalPos(T(), file), |files[cache[file].name.path]|;
      if pos < 0 || pos >= len then 0 else if len - pos < amount then len - pos else amount
    }

    /** file_read: `got` is what the kernel's read returns. */
    method FileRead(file: nat, amount: nat, got: int, os: Os) returns (rc: int, data: seq<nat>)
      requires Valid() && IsFile(T(), file) && PosAt(T(), file) && Honest(os)
      requires cache[file].name.path in files && -1 <= got <= Readable(file, amount)
      modifies this`cache, this`NFile, this`kernel, this`g
      ensures Valid()
      ensures if old(Accessible(file, os)) then rc == got && Passed(old(T()), T(), file, rc)
              else rc == -1 && Lost(old(T()), T(), file)
      ensures Reordered(old(g), g, file, old(cache[file].fd) == CLOSED, old(ClosingNow(os)),
                        old(Accessible(file, os)))
      ensures var o := old(View(T())[file]);
              rc > 0 ==> 0 <= o.pos <= o.pos + rc <= |files[o.path]| && data == files[o.path][o.pos..o.pos + rc]
      ensures rc <= 0 ==> data == []
    {
      ghost var t0 := T();
      var ok := FileAccess(file, os);
      ghost var t1 := T();
      UnseenPos(t0, t1, file);
      if !ok {
        SetRecord(file, UNKNOWN);
        UnseenLost(t0, t1, T(), file);
        return -1, [];
      }
      assert SlotOk(T(), g, 0, file);
      var pos := kernel[cache[file].fd].pos;
      rc, data := got, if got > 0 then files[cache[file].name.path][pos..pos + got] else [];
      Transfer(file, rc);
      UnseenPassed(t0, t1, T(), file, rc);
    }

    /** file_write: the kernel accepts the first `got` of the bytes. */
    method FileWrite(file: nat, bytes: seq<nat>, got: int, os: Os) returns (rc: int)
      requires Valid() && IsFile(T(), file) && PosAt(T(), file) && Honest(os) && -1 <= got <= |bytes|
      modifies this`cache, this`NFile, this`kernel, this`g, this`files
      ensures Valid()
      ensures if old(Accessible(file, os)) then rc == got && Passed(old(T()), T(), file, rc)
              else rc == -1 && Lost(old(T()), T(), file)
      ensures Reordered(old(g), g, file, old(cache[file].fd) == CLOSED, old(ClosingNow(os)),
                        old(Accessible(file, os)))
      ensures var o := old(View(T())[file]);
              && o.path in old(files) && (rc > 0 ==> o.pos >= 0)
              && files == if rc > 0 then old(files)[o.path := Splice(old(files)[o.path], o.pos, bytes[..rc])]
                 else old(files)
    {
      ghost var t0 := T();
      assert StoredAt(T(), files, file);
      var ok := FileAccess(file, os);
      ghost var t1 := T();
      UnseenPos(t0, t1, file);
      if !ok {
        SetRecord(file, UNKNOWN);
        UnseenLost(t0, t1, T(), file);
        return -1;
      }
      assert SlotOk(T(), g, 0, file);
      var pos, path := kernel[cache[file].fd].pos, cache[file].name.path;
      rc := got;
      Transfer(file, rc);
      UnseenPassed(t0, t1, T(), file, rc);
      if rc > 0 {
        Store(path, Splice(files[path], pos, bytes[..rc]));
      }
    }

    /** file_truncate: `cut` says whether the kernel can change the file's length. */
    method FileTruncate(file: nat, length: nat, cut: bool, os: Os) returns (rc: int)
      requires Valid() && IsFile(T(), file) && PosAt(T(), file) && Honest(os)
      modifies this`cache, this`NFile, this`kernel, this`g, this`files
      ensures Valid() && Unseen(old(T()), T(), file)
      ensures rc == if old(Accessible(file, os)) && cut then 0 else -1
      ensures Reordered(old(g), g, file, old(cache[file].fd) == CLOSED, old(ClosingNow(os)),
                        old(Accessible(file, os)))
      ensures var path := old(cache[file].name.path);
              && path in old(files)
              && files == if rc == 0 then old(files)[path := Resized(old(files)[path], length)] else old(files)
    {
      ghost var t0 := T();
      assert StoredAt(T(), files, file);
      var ok := FileAccess(file, os);
      UnseenPos(t0, T(), file);
      rc := -1;
      if ok && cut {
        var path := cache[file].name.path;
        Store(path, Resized(files[path], length));
        rc := 0;
      }
    }

    /** A file's contents change. */
    method Store(path: string, bytes: seq<nat>)
      requires Valid()
      modifies this`files
      ensures Valid() && files == old(files)[path := bytes]
    {
      ghost var before := files;
      files := files[path := bytes];
      forall a
        ensures StoredAt(T(), files, a)
      {
        assert StoredAt(T(), before, a);
      }
    }

    /** Seeking in a physically open file. */
    method SeekInOpen(file: nat, offset: int, whence: Whence) returns (r: int)
      requires Valid() && IsFile(T(), file) && cache[file].fd != CLOSED && cache[file].name.path in files
      modifies this`cache, this`NFile, this`kernel, this`g
      ensures Valid() && old(LogicalPos(T(), file)) >= 0
      ensures var m := SeekOpen(old(cache[file].seekPos), old(LogicalPos(T(), file)),
                                |files[old(cache[file].name.path)]|,
                                offset, whence);
              r == m.0 && Positioned(old(T()), T(), file, m)
      ensures g == old(g)
      ensures var at, len := old(LogicalPos(T(), file)), |files[old(cache[file].name.path)]|;
              if if whence == SeekCur then offset == 0 && old(cache[file].seekPos) != UNKNOWN
                 else whence == SeekSet && offset == old(cache[file].seekPos)
              then T() == old(T()) && r == old(cache[file].seekPos)
              else (r, LogicalPos(T(), file)) == KernelSeek(at, len, offset, whence)
    {
      ghost var t0 := T();
      assert SlotOk(t0, g, 0, file);
      var m := SeekOpen(cache[file].seekPos, kernel[cache[file].fd].pos, |files[cache[file].name.path]|, offset,
                        whence);
      ghost var t' := MoveStep(t0, g, file, m.0, m.1);
      MoveStored(t0, t', file, m.0, m.1, files);
      Install(Moved(T(), file, m.0, m.1), g);
      r := m.0;
    }

    /** Seeking in a physically closed file only changes the record, whatever its
        sign; a transfer on a file that cannot be reopened loses the position. */
    method SetRecord(file: nat, seek: int)
      requires Valid() && IsFile(T(), file) && cache[file].fd == CLOSED
      modifies this`cache, this`NFile, this`kernel, this`g
      ensures Valid() && g == old(g) && Noted(old(T()), T(), file, seek)
    {
      ghost var t0 := T();
      ghost var t' := RecordStep(t0, g, file, seek);
      forall a
        ensures StoredAt(t', files, a)
      {
        assert StoredAt(t0, files, a);
      }
      Install(T().(cache := cache[file := cache[file].(seekPos := seek)]), g);
    }

    /** file_seek. */
    method FileSeek(file: nat, offset: int, whence: Whence, os: Os) returns (r: SeekResult)
      requires Valid() && IsFile(T(), file) && cache[file].name.path in files && Honest(os)
      requires whence == SeekEnd ==> PosAt(T(), file)
      modifies this`cache, this`NFile, this`kernel, this`g
      ensures Valid()
      ensures Sought(old(T()), T(), file, |files[old(cache[file].name.path)]|, offset, whence,
                     old(Accessible(file, os)), r)
      ensures if old(cache[file].fd) != CLOSED || whence != SeekEnd then g == old(g)
              else Reordered(old(g), g, file, true, old(ClosingNow(os)), old(Accessible(file, os)))
    {
      if (whence == SeekSet && offset < 0) || whence == Other {
        return Rejected;
      }
      if cache[file].fd == CLOSED && whence != SeekEnd {
        var seek := if whence == SeekSet then offset else cache[file].seekPos + offset;
        SetRecord(file, seek);
        return Pos(seek);
      }
      var at;
      if cache[file].fd == CLOSED {
        at := SeekReopened(file, offset, os);
      } else {
        at := SeekInOpen(file, offset, whence);
      }
      r := Pos(at);
    }

    /** A seek from the end of a closed file, which has to be reopened. */
    method SeekReopened(file: nat, offset: int, os: Os) returns (r: int)
      requires Valid() && IsFile(T(), file) && PosAt(T(), file) && cache[file].name.path in files && Honest(os)
      requires cache[file].fd == CLOSED
      modifies this`cache, this`NFile, this`kernel, this`g
      ensures Valid()
      ensures var m := KernelSeek(old(cache[file].seekPos), |files[old(cache[file].name.path)]|, offset, SeekEnd);
              if old(Accessible(file, os)) then r == m.0 && Positioned(old(T()), T(), file, m)
              else r == UNKNOWN && Lost(old(T()), T(), file)
      ensures Reordered(old(g), g, file, true, old(ClosingNow(os)), old(Accessible(file, os)))
    {
      ghost var t0 := T();
      var ok := FileAccess(file, os);
      ghost var t1 := T();
      UnseenPos(t0, t1, file);
      if !ok {
        SetRecord(file, UNKNOWN);
        UnseenLost(t0, t1, T(), file);
        return UNKNOWN;
      }
      r := SeekInOpen(file, offset, SeekEnd);
      KeepsTwice(t0, t1, T(), 0, file, file);
    }

    /** One round of close_all_vfds. */
    method CloseIfOpen(file: nat)
      requires Valid() && 0 < file < |cache|
      modifies this`cache, this`NFile, this`kernel, this`g
      ensures Valid() && View(T()) == old(View(T())) && KeepsSync(old(T()), T(), 0)
      ensures |cache| == |old(cache)| && cache[file].fd == CLOSED && g.free == old(g.free)
      ensures forall a :: 0 < a < |cache| && old(cache)[a].fd == CLOSED ==> cache[a].fd == CLOSED
    {
      ghost var t0, g0 := T(), g;
      assert SlotOk(t0, g0, 0, file);
      if cache[file].fd != CLOSED {
        ghost var k :| 0 <= k < |g.ring| && g.ring[k] == file;
        LruDelete(file, k, 0);
        WithoutMember(g0.ring, k, file);
        assert SlotOk(T(), g, 0, file);
        forall a | 0 < a < |cache| && t0.cache[a].fd == CLOSED
          ensures cache[a].fd == CLOSED
        {
          assert OnlyEvicts(t0, T(), a);
        }
      }
    }

    /** close_all_vfds: every file is physically closed, and nobody can tell. */
    method CloseAllVfds()
      requires Valid()
      modifies this`cache, this`NFile, this`kernel, this`g
      ensures Valid() && View(T()) == old(View(T())) && KeepsSync(old(T()), T(), 0)
      ensures g == Shadow([], old(g.free))
      ensures NFile == 0 && |cache| == |old(cache)| && forall a :: 0 < a < |cache| ==> cache[a].fd == CLOSED
    {
      ghost var t0 := T();
      if |cache| > 0 {
        for i := 1 to |cache|
          invariant Valid() && View(T()) == View(t0) && KeepsSync(t0, T(), 0)
          invariant |cache| == |t0.cache| && g.free == old(g.free) && forall a :: 0 < a < i ==> cache[a].fd == CLOSED
        {
          ghost var t1 := T();
          CloseIfOpen(i);
          KeepsTwice(t0, t1, T(), 0, 0, 0);
        }
        RingBounds(cache, g.ring, 0);
        assert SlotOk(T(), g, 0, At(g.ring, 0));
        assert g.ring == [] || At(g.ring, 0) in g.ring;
      }
    }

    /** The table stands for the world `w`: same files at the same positions, and
        every record right or, where `w` admits it, the doubtful one. */
    ghost predicate Agrees(w: World)
      reads this
    {
      && View(T()) == w.view && files == w.files
      && forall a :: RightAt(T(), w.stale, a)
    }

    method PerformRead(op: Op, os: Os, ghost w: World) returns (reply: Reply)
      requires op.ReadOp? && Valid() && Agrees(w) && Sane(w, op) && Honest(os) && Willing(os)
      modifies this`cache, this`NFile, this`kernel, this`g, this`files
      ensures Valid() && Agrees(After(w, op)) && reply == Answer(w, op)
    {
      Reopens(T(), g, os);
      assert RightAt(T(), w.stale, op.file);
      ghost var t0 := T();
      var rc, data := FileRead(op.file, op.amount, op.got, os);
      PassedRight(t0, T(), op.file, w, rc);
      reply := DataReply(rc, data);
    }

    method PerformWrite(op: Op, os: Os, ghost w: World) returns (reply: Reply)
      requires op.WriteOp? && Valid() && Agrees(w) && Sane(w, op) && Honest(os) && Willing(os)
      modifies this`cache, this`NFile, this`kernel, this`g, this`files
      ensures Valid() && Agrees(After(w, op)) && reply == Answer(w, op)
    {
      Reopens(T(), g, os);
      assert RightAt(T(), w.stale, op.file);
      ghost var t0 := T();
      var rc := FileWrite(op.file, op.bytes, op.got, os);
      PassedRight(t0, T(), op.file, w, rc);
      reply := CountReply(rc);
    }

    method PerformSeek(op: Op, os: Os, ghost w: World) returns (reply: Reply)
      requires op.SeekOp? && Valid() && Agrees(w) && May(w, op) && Honest(os) && Willing(os)
      modifies this`cache, this`NFile, this`kernel, this`g, this`files
      ensures Valid() && Agrees(After(w, op)) && reply == Answer(w, op)
    {
      Reopens(T(), g, os);
      assert RightAt(T(), w.stale, op.file);
      ghost var t0 := T();
      var r := FileSeek(op.file, op.offset, op.whence, os);
      SoughtRight(t0, T(), w, op, r);
      reply := SeekReply(r);
    }

    method PerformCut(op: Op, os: Os, ghost w: World) returns (reply: Reply)
      requires op.CutOp? && Valid() && Agrees(w) && Sane(w, op) && Honest(os) && Willing(os)
      modifies this`cache, this`NFile, this`kernel, this`g, this`files
      ensures Valid() && Agrees(After(w, op)) && reply == Answer(w, op)
    {
      Reopens(T(), g, os);
      assert RightAt(T(), w.stale, op.file);
      ghost var t0 := T();
      var rc := FileTruncate(op.file, op.length, op.cut, os);
      assert RightAt(T(), w.stale, op.file) by {
        assert SyncKept(t0, T(), op.file);
      }
      StaysRight(t0, T(), op.file, w.stale, w.stale);
      reply := CountReply(rc);
    }

    /** A file is opened exactly if it exists or may be created, however many are open. */
    method PerformOpen(path: string, flags: Flags, os: Os, ghost w: World) returns (file: int, ghost w': World)
      requires Valid() && Agrees(w) && Honest(os) && Willing(os)
      modifies this`cache, this`NFile, this`kernel, this`g, this`files
      ensures Valid() && Agrees(w') && (file == -1 <==> !Openable(w.files, path, flags))
      ensures file == -1 ==> w' == w
      ensures file != -1 ==> file > 0 && var f: nat := file; f !in w.view && w' == WithOpen(w, f, path, flags)
    {
      if cache == [] {
        NothingOpen(os, NumAllocatedFiles, nofile);
      } else {
        Reopens(T(), g, os);
      }
      ghost var t0 := T();
      ghost var last;
      file, last := OpenFile(path, flags, os);
      w' := if file == -1 then w else WithOpen(w, file, path, flags);
      OpenedRight(t0, T(), file, w, w');
    }

    method PerformClose(op: Op, ghost w: World)
      requires op.CloseOp? && Valid() && Agrees(w) && Sane(w, op)
      modifies this`cache, this`NFile, this`kernel, this`g
      ensures Valid() && Agrees(After(w, op))
    {
      ghost var t0 := T();
      FileClose(op.file);
      ClosedRight(t0, T(), op.file, w.stale);
    }

    method PerformEviction(all: bool, ghost w: World)
      requires Valid() && Agrees(w)
      modifies this`cache, this`NFile, this`kernel, this`g
      ensures Valid() && Agrees(w)
    {
      ghost var t0 := T();
      if all {
        CloseAllVfds();
      } else {
        var _ := ReleaseLru(0);
      }
      assert RightAt(t0, w.stale, 0) && SyncKept(t0, T(), 0);
      StaysRight(t0, T(), 0, w.stale, w.stale);
    }

    /** One operation, whatever has been evicted before. */
    method Perform(op: Op, os: Os, ghost w: World) returns (reply: Reply)
      requires Valid() && Agrees(w) && May(w, op) && Honest(os) && Willing(os)
      modifies this`cache, this`NFile, this`kernel, this`g, this`files
      ensures Valid() && Agrees(After(w, op)) && reply == Answer(w, op)
    {
      reply := NoReply;
      match op
      case ReadOp(_, _, _) => reply := PerformRead(op, os, w);
      case WriteOp(_, _, _) => reply := PerformWrite(op, os, w);
      case SeekOp(_, _, _) => reply := PerformSeek(op, os, w);
      case CutOp(_, _, _) => reply := PerformCut(op, os, w);
      case CloseOp(_) => PerformClose(op, w);
      case EvictAll => PerformEviction(true, w);
      case EvictOne => PerformEviction(false, w);
    }

    /** Any run of operations on any files: the answers, the positions and the
        contents are those of files that are permanently open. */
    method Run(ops: seq<Op>, kernels: nat -> Os, ghost w: World) returns (replies: seq<Reply>)
      requires Valid() && Agrees(w) && MayRun(w, ops) && forall i :: ServesAt(kernels, i)
      modifies this`cache, this`NFile, this`kernel, this`g, this`files
      ensures Valid() && Agrees(AfterRun(w, ops)) && replies == Answers(w, ops)
    {
      replies := [];
      ghost var now := w;
      for i := 0 to |ops|
        invariant Valid() && Agrees(now) && Underway(w, ops, now, i, replies)
      {
        Onward(w, ops, now, i, replies);
        assert ServesAt(kernels, i);
        var reply := Perform(ops[i], kernels(i), now);
        replies := replies + [reply];
        now := After(now, ops[i]);
      }
    }
  }

  /** The record of file `a` is right, or is the one that is known to be doubtful. */
  ghost predicate RightAt(t: Table, stale: map<nat, int>, a: nat) {
    PosAt(t, a) && (Exact(t, a) || (a in stale && a < |t.cache| && t.cache[a].seekPos == stale[a]))
  }

  ghost predicate SameStale(stale: map<nat, int>, stale': map<nat, int>, a: nat) {
    (a in stale' <==> a in stale) && (a in stale ==> stale'[a] == stale[a])
  }

  /** Records of other files stay as good as they were. */
  lemma StaysRight(t: Table, t': Table, file: nat, stale: map<nat, int>, stale': map<nat, int>)
    requires KeepsSync(t, t', file) && forall a :: RightAt(t, stale, a)
    requires (forall a :: a != file ==> SameStale(stale, stale', a)) && RightAt(t', stale', file)
    ensures forall a :: RightAt(t', stale', a)
  {
    forall a
      ensures RightAt(t', stale', a)
    {
      assert a != file ==> SyncKept(t, t', a) && RightAt(t, stale, a) && SameStale(stale, stale', a);
    }
  }

  lemma PassedRight(t: Table, t': Table, file: nat, w: World, rc: int)
    requires View(t) == w.view && Passed(t, t', file, rc) && forall a :: RightAt(t, w.stale, a)
    ensures file in w.view && View(t') == MovedOn(w.view, file, rc)
    ensures forall a :: RightAt(t', StaleAfter(w.stale, file, rc), a)
  {
    assert RightAt(t, w.stale, file) && w.view[file] == Open(t.cache[file].name.path, LogicalPos(t, file));
    StaysRight(t, t', file, w.stale, StaleAfter(w.stale, file, rc));
  }

  lemma OpenedRight(t: Table, t': Table, file: int, w: World, w': World)
    requires KeepsSync(t, t', 0) && forall a :: RightAt(t, w.stale, a)
    requires if file == -1 then w' == w
             else file > 0 && w'.stale == w.stale - {file} && var f: nat := file; Exact(t', f)
    ensures forall a :: RightAt(t', w'.stale, a)
  {
    var f: nat := if file == -1 then 0 else file;
    assert RightAt(t, w.stale, f) && (f != 0 ==> SyncKept(t, t', f));
    StaysRight(t, t', f, w.stale, w'.stale);
  }

  lemma ClosedRight(t: Table, t': Table, file: nat, stale: map<nat, int>)
    requires View(t') == View(t) - {file} && KeepsSync(t, t', file) && forall a :: RightAt(t, stale, a)
    ensures forall a :: RightAt(t', stale - {file}, a)
  {
    assert file !in View(t') && !IsFile(t', file);
    StaysRight(t, t', file, stale, stale - {file});
  }

  /** A seek that is not skipped on the word of a wrong record is what it is on a
      permanently open file, and leaves a right record, or none. */
  lemma SoughtRight(t: Table, t': Table, w: World, op: Op, r: SeekResult)
    requires op.SeekOp? && View(t) == w.view && May(w, op) && (forall a :: RightAt(t, w.stale, a)) && IsFile(t, op.file)
    requires Sought(t, t', op.file, |w.files[w.view[op.file].path]|, op.offset, op.whence, true, r)
    ensures View(t') == After(w, op).view && SeekReply(r) == Answer(w, op)
    ensures forall a :: RightAt(t', After(w, op).stale, a)
  {
    var file, len := op.file, |w.files[w.view[op.file].path]|;
    assert RightAt(t, w.stale, file) && View(t)[file].pos == LogicalPos(t, file);
    if !Refuses(op) {
      SoughtPos(t, t', file, len, op.offset, op.whence, true, r);
      SoughtExact(t, t', file, len, op.offset, op.whence, true, r);
      assert w.view[file] == Open(t.cache[file].name.path, LogicalPos(t, file));
      StaysRight(t, t', file, w.stale, After(w, op).stale);
    }
  }

  /** An open file with its recorded and its true position. */
  ghost predicate Stands(t: Table, file: nat, seekPos: int, pos: int) {
    && IsFile(t, file) && t.cache[file].fd != CLOSED && t.cache[file].name == Named("f")
    && t.cache[file].seekPos == seekPos && LogicalPos(t, file) == pos
  }

  lemma PassedStands(t: Table, t': Table, file: nat, rc: nat, seekPos: int, pos: int)
    requires Passed(t, t', file, rc) && Stands(t, file, seekPos, pos)
    ensures Stands(t', file, Advance(seekPos, rc), pos + rc)
  {
    assert View(t')[file] == Open("f", pos + rc);
  }

  /** A file of five bytes, just opened. */
  method FiveBytes(os: Os) returns (t: FileTable, file: nat)
    requires Honest(os) && Willing(os)
    ensures fresh(t) && t.Valid() && Stands(t.T(), file, 0, 0) && t.files == map["f" := [1, 2, 3, 4, 5]]
  {
    t := new FileTable(FD_MINFREE, map["f" := [1, 2, 3, 4, 5]]);
    NothingOpen(os, t.NumAllocatedFiles, t.nofile);
    var slot;
    ghost var last;
    slot, last := t.OpenFile("f", Flags(false, false, false, 0), os);
    file := slot;
    assert View(t.T())[file] == Open("f", 0);
    assert SlotOk(t.T(), t.g, 0, file) && t.g.ring[|t.g.ring| - 1] in t.g.ring;
  }

  /** Read to the end, and once more: the position is no longer on record. */
  method ReadThrough(os: Os) returns (t: FileTable, file: nat)
    requires Honest(os) && Willing(os)
    ensures fresh(t) && t.Valid() && Stands(t.T(), file, UNKNOWN, 5)
  {
    t, file := FiveBytes(os);
    ghost var t0 := t.T();
    var rc, data := t.FileRead(file, 5, 5, os);
    ghost var t1 := t.T();
    PassedStands(t0, t1, file, 5, 0, 0);
    rc, data := t.FileRead(file, 1, 0, os);
    PassedStands(t1, t.T(), file, 0, 5, 5);
  }

  /** A read at the end of a file, a write, and a seek to 2: the seek is skipped,
      answers 2, and leaves the file at 8. */
  method StaleSeek(os: Os) returns (t: FileTable, file: nat, r: SeekResult)
    requires Honest(os) && Willing(os)
    ensures fresh(t) && t.Valid() && IsFile(t.T(), file) && r == Pos(2) && LogicalPos(t.T(), file) == 8
  {
    t, file := ReadThrough(os);
    ghost var t2 := t.T();
    var rc := t.FileWrite(file, [6, 7, 8], 3, os);
    PassedStands(t2, t.T(), file, 3, UNKNOWN, 5);
    r := t.FileSeek(file, 2, SeekSet, os);
    assert View(t.T())[file] == Open("f", 8);
  }

  /** Five bytes, the file at 0, and physically closed. */
  method ClosedBytes(os: Os) returns (t: FileTable, file: nat)
    requires Honest(os) && Willing(os)
    ensures fresh(t) && t.Valid() && IsFile(t.T(), file) && t.cache[file].name.path in t.files
    ensures t.cache[file].fd == CLOSED && t.cache[file].seekPos == 0
  {
    t, file := FiveBytes(os);
    assert View(t.T())[file] == Open("f", 0);
    t.CloseAllVfds();
    assert View(t.T())[file] == Open("f", 0);
  }

  /** A seek of -1 relative to the start of a closed file is answered -1, as lseek's
      failure would be, and takes effect. */
  method NegativeSeek(os: Os) returns (t: FileTable, file: nat, r: SeekResult)
    requires Honest(os) && Willing(os)
    ensures fresh(t) && t.Valid() && IsFile(t.T(), file) && r == Pos(-1) && LogicalPos(t.T(), file) == -1
    ensures !PosAt(t.T(), file)
  {
    t, file := ClosedBytes(os);
    r := t.FileSeek(file, -1, SeekCur, os);
  }

  /** A read of a closed file that the kernel will not reopen: the file was at 0,
      and where it was is no longer known. */
  method RefusedRead(os: Os) returns (t: FileTable, file: nat, rc: int)
    requires Honest(os) && Willing(os)
    ensures fresh(t) && t.Valid() && IsFile(t.T(), file) && rc == -1 && LogicalPos(t.T(), file) == UNKNOWN
    ensures !PosAt(t.T(), file)
  {
    t, file := ClosedBytes(os);
    var refusing: Os := (k, used) => Refused;
    var data;
    rc, data := t.FileRead(file, 1, -1, refusing);
  }

  /** With nothing open a willing kernel opens a file at once. */
  lemma NothingOpen(os: Os, others: nat, nofile: nat)
    requires Willing(os)
    ensures Opening(os, Table([], 0, map[]), Shadow([], []), others, nofile).Opened?
  {
    var none: map<int, Desc> := map[];
    assert none.Keys == {} && WillingAt(os, 0, {});
  }

  /** Doubles the array, to at least 32 slots, and threads the new ones. */
  method Enlarge(cache: seq<Vfd>) returns (c: seq<Vfd>)
    requires |cache| > 0
    ensures |c| == if |cache| < 16 then 32 else 2 * |cache|
    ensures c[0] == cache[0].(nextFree := |cache|)
    ensures forall a :: 0 < a < |cache| ==> c[a] == cache[a]
    ensures forall a :: |cache| <= a ==> NewAt(c, |c|, a)
  {
    var n := if 2 * |cache| < 32 then 32 else 2 * |cache|;
    c := cache;
    for i := |cache| to n
      invariant |c| == i && c[..|cache|] == cache
      invariant forall a :: |cache| <= a < i ==> c[a] == NewSlot(a + 1)
    {
      c := c + [NewSlot(i + 1)];
    }
    assert forall a :: 0 <= a < |cache| ==> c[a] == c[..|cache|][a];
    c := c[n - 1 := c[n - 1].(nextFree := 0)];
    c := c[0 := c[0].(nextFree := |cache|)];
  }

  lemma GrowStored(t: Table, cache': seq<Vfd>, files: map<string, seq<nat>>)
    requires |t.cache| < |cache'| && forall a :: StoredAt(t, files, a)
    requires forall a :: 0 < a < |t.cache| ==> cache'[a] == t.cache[a]
    requires forall a :: |t.cache| <= a ==> NewAt(cache', |cache'|, a)
    ensures forall a :: StoredAt(t.(cache := cache'), files, a)
  {
    var t' := t.(cache := cache');
    forall a: nat
      ensures StoredAt(t', files, a)
    {
      assert StoredAt(t, files, a) && (|t.cache| <= a ==> NewAt(cache', |cache'|, a));
    }
  }

  lemma TakeStored(t: Table, t': Table, files: map<string, seq<nat>>)
    requires |t.cache| == |t'.cache| && forall a :: StoredAt(t, files, a)
    requires forall a :: 0 < a < |t.cache| ==> t'.cache[a] == t.cache[a]
    ensures forall a :: StoredAt(t', files, a)
  {
    forall a: nat
      ensures StoredAt(t', files, a)
    {
      assert StoredAt(t, files, a);
    }
  }

  lemma ReturnStored(t: Table, t': Table, file: nat, files: map<string, seq<nat>>)
    requires 0 < file < |t.cache| && t' == Returned(t, file) && forall a :: a != file ==> StoredAt(t, files, a)
    ensures forall a :: StoredAt(t', files, a)
  {
    forall a: nat
      ensures StoredAt(t', files, a)
    {
      assert a != file ==> StoredAt(t, files, a);
    }
  }

  /** Releasing the first of the ring is one eviction. */
  lemma FirstGone(t: Table, g: Shadow, spare: nat, t': Table, g': Shadow)
    requires TableOk(t, g, spare) && |g.ring| > 0 && |t'.cache| == |t.cache| && View(t') == View(t)
             && KeepsSync(t, t', 0)
    requires g' == g.(ring := Without(g.ring, 0)) && TableOk(t', g', spare)
    requires t'.kernel.Keys == t.kernel.Keys - {FdAt(t, g.ring[0])} && forall a :: OnlyEvicts(t, t', a)
    ensures Shrunk(t, g, t', g', 1)
  {
    assert g'.ring == g.ring[1..];
    assert Drop(t.kernel.Keys, FdsOf(t, g.ring), 0) == t.kernel.Keys;
    forall i | 0 <= i < |g'.ring|
      ensures FdAt(t', g'.ring[i]) == FdAt(t, g.ring[i + 1])
    {
      assert RingAt(t'.cache, g'.ring, i) && g'.ring[i] in g'.ring;
      assert SlotOk(t', g', spare, g'.ring[i]) && OnlyEvicts(t, t', g'.ring[i]);
    }
  }

  lemma RingFds(t: Table, ring: seq<nat>, t': Table)
    requires RingOk(t.cache, ring) && |t.cache| <= |t'.cache|
    requires forall a :: 0 < a < |t.cache| ==> t'.cache[a] == t.cache[a]
    ensures FdsOf(t', ring) == FdsOf(t, ring)
  {
    forall i | 0 <= i < |ring|
      ensures FdAt(t', ring[i]) == FdAt(t, ring[i])
    {
      assert RingAt(t.cache, ring, i);
    }
  }

  /** A willing kernel reopens any file. */
  lemma Reopens(t: Table, g: Shadow, os: Os)
    requires TableOk(t, g, 0) && Willing(os)
    ensures forall others, nofile :: Opening(os, t, g, others, nofile).Opened?
  {
    NothingLeft(t, g, 0);
    forall others: nat, nofile: nat
      ensures Opening(os, t, g, others, nofile).Opened?
    {
      WillingOpens(os, t.kernel.Keys, FdsOf(t, g.ring), Excess(|g.ring|, others, nofile), 0);
    }
  }

  lemma DetachRest(t: Table, g: Shadow, t': Table, file: nat, files: map<string, seq<nat>>)
    requires TableOk(t, g, 0) && IsFile(t, file) && t.cache[file].fd != CLOSED && |t'.cache| == |t.cache|
    requires forall a :: DetachKeeps(t, t', file, t.cache[file].seekPos, a)
    requires forall a :: StoredAt(t, files, a)
    requires forall fd :: fd in t'.kernel ==> fd in t.kernel
    ensures forall a :: StoredAt(t', files, a)
    ensures KeepsSync(t, t', file)
    ensures View(t') - {file} == View(t) - {file}
  {
    var pos := t.cache[file].seekPos;
    forall a: nat
      ensures StoredAt(t', files, a) && (a != file ==> SyncKept(t, t', a))
    {
      assert StoredAt(t, files, a) && DetachKeeps(t, t', file, pos, a) && SlotOk(t, g, 0, a);
    }
    forall a: nat | 0 < a < |t.cache|
      ensures t'.cache[a].name == t.cache[a].name && (a != file ==> LogicalPos(t', a) == LogicalPos(t, a))
    {
      assert DetachKeeps(t, t', file, pos, a) && SlotOk(t, g, 0, a);
    }
  }

  lemma MoveStored(t: Table, t': Table, file: nat, seek: int, pos: nat, files: map<string, seq<nat>>)
    requires file < |t.cache| && t.cache[file].fd in t.kernel && t' == Moved(t, file, seek, pos)
    requires forall a :: StoredAt(t, files, a)
    ensures forall a :: StoredAt(t', files, a)
  {
    forall a: nat
      ensures StoredAt(t', files, a)
    {
      assert StoredAt(t, files, a);
    }
  }

  /** Opening `file` leaves the other files in step, and is itself in step. */
  lemma AttachRest(t: Table, g: Shadow, spare: nat, t': Table, file: nat, v: Vfd, desc: Desc,
                   files: map<string, seq<nat>>)
    requires |t.cache| == |t'.cache| && forall a :: AttachKeeps(t, t', file, v, desc, a)
    requires TableOk(t, g, spare)
    requires forall a :: a != file ==> StoredAt(t, files, a)
    requires desc.path in files && v.name == Named(desc.path) && !v.flags.creat && !v.flags.trunc && !v.flags.excl
    requires v.seekPos == desc.pos
    requires IsFile(t, file) ==> v.name == t.cache[file].name && v.flags == t.cache[file].flags
    ensures forall a :: StoredAt(t', files, a)
    ensures KeepsSync(t, t', 0) && Exact(t', file)
  {
    forall a
      ensures StoredAt(t', files, a) && SyncKept(t, t', a) && Exact(t', file)
    {
      assert AttachKeeps(t, t', file, v, desc, a) && AttachKeeps(t, t', file, v, desc, file);
      assert SlotOk(t, g, spare, a) && (a != file ==> StoredAt(t, files, a));
    }
  }

  lemma TouchRest(t: Table, t': Table, files: map<string, seq<nat>>, file: nat)
    requires |t.cache| == |t'.cache| && t.kernel == t'.kernel && forall a :: SameButLinks(t.cache, t'.cache, a)
    requires (forall a :: StoredAt(t, files, a)) && View(t') == View(t) && IsFile(t, file)
    ensures Unseen(t, t', file) && forall a :: StoredAt(t', files, a)
  {
    forall a
      ensures StoredAt(t', files, a) && SyncKept(t, t', a) && FixedAt(t, t', a)
    {
      assert StoredAt(t, files, a) && SameButLinks(t.cache, t'.cache, a);
    }
    assert FixedAt(t, t', file) && SameButLinks(t.cache, t'.cache, file);
  }
}
