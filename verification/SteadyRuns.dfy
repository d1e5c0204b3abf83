/** Runs under a kernel with descriptors to spare: no file is ever closed to make
    room. Then the recorded positions are determined by the run, and it can be
    said exactly when a user notices that they are wrong. */
module SteadyRuns {
  import opened VfdTable
  import opened VfdKernel
  import opened FileWorld
  import opened VirtualFiles

  /** Nothing is opened or closed. */
  predicate Steady(op: Op) {
    op.ReadOp? || op.WriteOp? || op.SeekOp? || op.CutOp?
  }

  ghost predicate AllSteady(ops: seq<Op>) {
    forall i :: 0 <= i < |ops| ==> Steady(ops[i])
  }

  /** File `a` is physically open, and recorded where `stale` says, or rightly. */
  ghost predicate StrictAt(t: Table, stale: map<nat, int>, a: nat) {
    IsFile(t, a) ==> t.cache[a].fd != CLOSED && if a in stale then t.cache[a].seekPos == stale[a] else Exact(t, a)
  }

  ghost predicate Strict(t: Table, files: map<string, seq<nat>>, w: World) {
    View(t) == w.view && files == w.files && forall a :: StrictAt(t, w.stale, a)
  }

  /** Files other than the one used are as before. */
  lemma StaysStrict(t: Table, t': Table, file: nat, stale: map<nat, int>, stale': map<nat, int>)
    requires |t'.cache| == |t.cache| && View(t').Keys == View(t).Keys && file in View(t)
    requires Calm(t, t', file) && KeepsSync(t, t', file) && forall a :: StrictAt(t, stale, a)
    requires (forall a :: a != file ==> SameStale(stale, stale', a)) && StrictAt(t', stale', file)
    ensures forall a :: StrictAt(t', stale', a)
  {
    assert StrictAt(t, stale, file);
    forall a
      ensures StrictAt(t', stale', a)
    {
      if a != file && IsFile(t', a) {
        assert a in View(t') && a in View(t);
        assert StrictAt(t, stale, a) && FixedAt(t, t', a) && SyncKept(t, t', a) && SameStale(stale, stale', a);
      }
    }
  }

  lemma PassedStrict(t: Table, t': Table, file: nat, w: World, rc: int)
    requires View(t) == w.view && Passed(t, t', file, rc) && forall a :: StrictAt(t, w.stale, a)
    ensures file in w.view && View(t') == MovedOn(w.view, file, rc)
    ensures forall a :: StrictAt(t', StaleAfter(w.stale, file, rc), a)
  {
    assert StrictAt(t, w.stale, file) && w.view[file] == Open(t.cache[file].name.path, LogicalPos(t, file));
    StaysStrict(t, t', file, w.stale, StaleAfter(w.stale, file, rc));
  }

  lemma UnseenStrict(t: Table, t': Table, file: nat, stale: map<nat, int>)
    requires Unseen(t, t', file) && forall a :: StrictAt(t, stale, a)
    ensures forall a :: StrictAt(t', stale, a)
  {
    assert StrictAt(t, stale, file) && SyncKept(t, t', file) && file in View(t);
    StaysStrict(t, t', file, stale, stale);
  }

  /** A seek is noticed exactly if it is skipped on the word of a wrong record. */
  lemma SoughtStrict(t: Table, t': Table, w: World, op: Op, can: bool, r: SeekResult)
    requires op.SeekOp? && View(t) == w.view && Sane(w, op) && (forall a :: StrictAt(t, w.stale, a))
             && IsFile(t, op.file)
    requires Sought(t, t', op.file, |w.files[w.view[op.file].path]|, op.offset, op.whence, can, r)
    ensures Unmistaken(w, op) ==>
              View(t') == After(w, op).view && SeekReply(r) == Answer(w, op)
                && forall a :: StrictAt(t', After(w, op).stale, a)
    ensures !Unmistaken(w, op) ==> View(t') != After(w, op).view || SeekReply(r) != Answer(w, op)
  {
    var file, len := op.file, |w.files[w.view[op.file].path]|;
    assert StrictAt(t, w.stale, file) && View(t)[file].pos == LogicalPos(t, file);
    if !Refuses(op) {
      SoughtPos(t, t', file, len, op.offset, op.whence, can, r);
      SoughtExact(t, t', file, len, op.offset, op.whence, can, r);
      assert w.view[file] == Open(t.cache[file].name.path, LogicalPos(t, file));
      if Unmistaken(w, op) {
        StaysStrict(t, t', file, w.stale, After(w, op).stale);
      }
    }
  }

  /** The seek is skipped on the word of a wrong record. */
  predicate Mistaken(t: Table, op: Op) {
    op.SeekOp? && !(op.whence == SeekSet && op.offset < 0) && op.file < |t.cache|
    && Skips(t.cache[op.file].seekPos, op.offset, op.whence) && t.cache[op.file].seekPos != LogicalPos(t, op.file)
  }

  lemma MistakenIs(t: Table, w: World, op: Op)
    requires Steady(op) && View(t) == w.view && Sane(w, op) && forall a :: StrictAt(t, w.stale, a)
    ensures Mistaken(t, op) <==> !Unmistaken(w, op)
  {
    assert StrictAt(t, w.stale, op.file) && op.file in View(t) && View(t)[op.file].pos == LogicalPos(t, op.file);
  }

  method TransferSteady(t: FileTable, op: Op, os: Os, ghost w: World) returns (reply: Reply)
    requires (op.ReadOp? || op.WriteOp?) && t.Valid() && Strict(t.T(), t.files, w) && Sane(w, op) && Honest(os)
    modifies t`cache, t`NFile, t`kernel, t`g, t`files
    ensures t.Valid() && Strict(t.T(), t.files, After(w, op)) && reply == Answer(w, op)
  {
    ghost var t0 := t.T();
    assert StrictAt(t0, w.stale, op.file) && op.file in View(t0);
    if op.ReadOp? {
      var rc, data := t.FileRead(op.file, op.amount, op.got, os);
      PassedStrict(t0, t.T(), op.file, w, rc);
      reply := DataReply(rc, data);
    } else {
      var rc := t.FileWrite(op.file, op.bytes, op.got, os);
      PassedStrict(t0, t.T(), op.file, w, rc);
      reply := CountReply(rc);
    }
  }

  /** One operation: it is what it is on permanently open files, exactly if it is
      not a seek that a wrong record causes to be skipped. */
  method StepSteady(t: FileTable, op: Op, os: Os, ghost w: World) returns (reply: Reply)
    requires t.Valid() && Strict(t.T(), t.files, w) && Steady(op) && Sane(w, op) && Honest(os)
    modifies t`cache, t`NFile, t`kernel, t`g, t`files
    ensures t.Valid()
    ensures Unmistaken(w, op) ==> Strict(t.T(), t.files, After(w, op)) && reply == Answer(w, op)
    ensures !Unmistaken(w, op) ==> View(t.T()) != After(w, op).view || reply != Answer(w, op)
  {
    ghost var t0 := t.T();
    assert StrictAt(t0, w.stale, op.file) && op.file in View(t0);
    if op.SeekOp? {
      ghost var can := t.Accessible(op.file, os);
      var r := t.FileSeek(op.file, op.offset, op.whence, os);
      SoughtStrict(t0, t.T(), w, op, can, r);
      reply := SeekReply(r);
    } else if op.CutOp? {
      var rc := t.FileTruncate(op.file, op.length, op.cut, os);
      UnseenStrict(t0, t.T(), op.file, w.stale);
      reply := CountReply(rc);
    } else {
      reply := TransferSteady(t, op, os, w);
    }
  }

  /** A run goes through as on permanently open files exactly if no seek in it is
      skipped on the word of a wrong record; the first such seek is noticed. */
  method RunSteady(t: FileTable, ops: seq<Op>, os: Os, ghost w: World) returns (replies: seq<Reply>, done: nat)
    requires t.Valid() && Strict(t.T(), t.files, w) && AllSteady(ops) && SaneRun(w, ops) && Honest(os)
    modifies t`cache, t`NFile, t`kernel, t`g, t`files
    ensures t.Valid() && done <= |ops| && (done == |ops| <==> UnmistakenRun(w, ops))
    ensures done == |ops| ==> Strict(t.T(), t.files, AfterRun(w, ops)) && replies == Answers(w, ops)
    ensures done < |ops| ==>
              && SaneRun(w, ops[..done]) && |replies| == done + 1
              && var now := AfterRun(w, ops[..done]);
              && replies[..done] == Answers(w, ops[..done]) && Sane(now, ops[done])
              && (View(t.T()) != After(now, ops[done]).view || replies[done] != Answer(now, ops[done]))
  {
    replies, done := [], 0;
    ghost var now := w;
    while done < |ops|
      invariant t.Valid() && Strict(t.T(), t.files, now) && Underway(w, ops, now, done, replies)
      invariant Behind(w, ops, done, now, replies)
    {
      Onward(w, ops, now, done, replies);
      OneFurther(w, ops, done, now, replies);
      MistakenIs(t.T(), now, ops[done]);
      var noticed := Mistaken(t.T(), ops[done]);
      var reply := StepSteady(t, ops[done], os, now);
      replies := replies + [reply];
      if noticed {
        return;
      }
      now, done := After(now, ops[done]), done + 1;
    }
  }
}
