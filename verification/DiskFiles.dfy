/** The file calls of the magnetic-disk storage manager. It positions every file
    before each transfer, so none of its seeks is ever skipped on the word of a
    wrong record, and what the calls leave in the files is what the operations on
    a relation's segments leave in them. */
module DiskFiles {
  import opened Bits
  import opened Storage
  import opened SegmentedFile
  import opened VfdTable
  import opened VfdKernel
  import opened FileWorld
  import opened VirtualFiles

  /** One use of an open segment: its length, block `k` read, written or cut off
      with all that follow, or a block more. */
  datatype Call = LengthOf(seg: nat)
                | ReadAt(seg: nat, k: nat, got: int)
                | WriteAt(seg: nat, k: nat, buffer: Bytes, got: int)
                | Extend(seg: nat, buffer: Bytes, got: int, cut: bool)
                | CutAt(seg: nat, k: nat, cut: bool)

  /** What the kernel may answer, given the bytes of the segment. */
  ghost predicate CallOk(bytes: Bytes, c: Call) {
    match c
    case LengthOf(_) => true
    case ReadAt(_, k, got) => -1 <= got <= BLCKSZ && (got > 0 ==> k * BLCKSZ + got <= |bytes|)
    case WriteAt(_, _, buffer, got) => |buffer| == BLCKSZ && -1 <= got <= BLCKSZ
    case Extend(_, buffer, got, _) => |buffer| == BLCKSZ && -1 <= got <= BLCKSZ
    case CutAt(_, k, _) => k * BLCKSZ <= |bytes|
  }

  /** The bytes of the segment after a call, as the operations on a relation have it. */
  ghost function BytesAfter(bytes: Bytes, c: Call): Bytes
    requires CallOk(bytes, c)
  {
    match c
    case LengthOf(_) => bytes
    case ReadAt(_, _, _) => bytes
    case WriteAt(_, k, buffer, got) =>
      if got > 0 then Written(Padded(bytes, k * BLCKSZ), k * BLCKSZ, buffer, got) else bytes
    case Extend(_, buffer, got, cut) => Extended(bytes, buffer, got, cut)
    case CutAt(_, k, cut) => if cut then bytes[..k * BLCKSZ] else bytes
  }

  /** The file operations of a call on the file in slot `h`, whose length is `len`. */
  function OpsOf(c: Call, h: nat, len: nat): seq<Op> {
    match c
    case LengthOf(_) => [SeekOp(h, 0, SeekEnd)]
    case ReadAt(_, k, got) => [SeekOp(h, k * BLCKSZ, SeekSet), ReadOp(h, BLCKSZ, got)]
    case WriteAt(_, k, buffer, got) => [SeekOp(h, k * BLCKSZ, SeekSet), WriteOp(h, buffer, got)]
    case Extend(_, buffer, got, cut) =>
      if 0 < got < BLCKSZ then AppendOps(h, len, buffer, got) + TrimOps(h, len - len % BLCKSZ, cut)
      else AppendOps(h, len, buffer, got)
    case CutAt(_, k, cut) => [CutOp(h, k * BLCKSZ, cut)]
  }

  function AppendOps(h: nat, len: nat, buffer: Bytes, got: int): seq<Op> {
    var pos := len - len % BLCKSZ;
    var write := [SeekOp(h, pos, SeekSet), WriteOp(h, buffer, got)];
    [SeekOp(h, 0, SeekEnd)] + if pos != len then write else write[1..]
  }

  function TrimOps(h: nat, pos: nat, cut: bool): seq<Op> {
    [CutOp(h, pos, cut), SeekOp(h, pos, SeekSet)]
  }

  // ---------- segments in files ----------

  /** Segment `s` is open in slot `h[s]`, and its file holds its bytes. */
  ghost predicate BackedAt(w: World, segs: map<nat, Bytes>, h: map<nat, nat>, s: nat) {
    s in h ==> s in segs && Known(w, h[s]) && w.files[w.view[h[s]].path] == segs[s]
  }

  ghost predicate PathsApart(w: World, h: map<nat, nat>, s: nat, r: nat) {
    s in h && r in h && s != r && h[s] in w.view && h[r] in w.view ==> w.view[h[s]].path != w.view[h[r]].path
  }

  ghost predicate TidyAt(w: World, a: nat) {
    a in w.stale ==> w.stale[a] == UNKNOWN
  }

  ghost predicate Tidy(w: World) {
    forall a :: TidyAt(w, a)
  }

  /** The open segments are in files of their own, and a record is right or "unknown". */
  ghost predicate Backed(w: World, segs: map<nat, Bytes>, h: map<nat, nat>) {
    && (forall s :: BackedAt(w, segs, h, s)) && (forall s, r :: PathsApart(w, h, s, r))
    && Tidy(w)
  }

  lemma SpliceIsWritten(bytes: Bytes, pos: nat, buffer: Bytes, got: int)
    requires 0 < got <= |buffer|
    ensures Splice(bytes, pos, buffer[..got]) == Written(Padded(bytes, pos), pos, buffer, got)
  {
  }

  /** File operations on one open file, seen from that file only. */
  ghost predicate Changed(w: World, w': World, a: nat, bytes: Bytes) {
    && a in w.view && Known(w', a) && w'.view.Keys == w.view.Keys
    && w'.view == w.view[a := Open(w.view[a].path, w'.view[a].pos)]
    && w'.files == w.files[w.view[a].path := bytes]
    && Tidy(w')
  }

  lemma StaysBacked(w: World, segs: map<nat, Bytes>, h: map<nat, nat>, s: nat, w': World, bytes: Bytes)
    requires Backed(w, segs, h) && s in h && Changed(w, w', h[s], bytes)
    ensures Backed(w', segs[s := bytes], h)
  {
    assert BackedAt(w, segs, h, s);
    var segs' := segs[s := bytes];
    forall r
      ensures BackedAt(w', segs', h, r)
    {
      assert BackedAt(w, segs, h, r) && PathsApart(w, h, r, s);
    }
    forall r, q
      ensures PathsApart(w', h, r, q)
    {
      assert PathsApart(w, h, r, q);
    }
  }

  // ---------- single operations ----------

  lemma ChangedTwice(w: World, w1: World, w2: World, a: nat, bytes1: Bytes, bytes2: Bytes)
    requires Changed(w, w1, a, bytes1) && Changed(w1, w2, a, bytes2)
    ensures Changed(w, w2, a, bytes2)
  {
  }

  ghost function Content(w: World, a: nat): Bytes
    requires Known(w, a)
  {
    w.files[w.view[a].path]
  }

  /** A file positioned at a place not before its start. */
  lemma SeekChanges(w: World, a: nat, offset: nat, whence: Whence) returns (w': World)
    requires Known(w, a) && Tidy(w) && (whence == SeekSet || (whence == SeekEnd && offset == 0))
    ensures var op := SeekOp(a, offset, whence);
            && MayRun(w, [op]) && w' == AfterRun(w, [op])
            && Changed(w, w', a, Content(w, a)) && a !in w'.stale
            && w'.view[a].pos == (if whence == SeekSet then offset else |Content(w, a)|)
            && Answers(w, [op]) == [SeekReply(Pos(w'.view[a].pos))]
  {
    var op := SeekOp(a, offset, whence);
    assert TidyAt(w, a);
    OneOp(w, op);
    w' := After(w, op);
    forall b
      ensures TidyAt(w', b)
    {
      assert TidyAt(w, b);
    }
  }

  lemma TransferTidy(w: World, a: nat, got: int)
    requires Tidy(w) && a !in w.stale
    ensures forall b :: b in StaleAfter(w.stale, a, got) ==> StaleAfter(w.stale, a, got)[b] == UNKNOWN
  {
    forall b | b in StaleAfter(w.stale, a, got)
      ensures StaleAfter(w.stale, a, got)[b] == UNKNOWN
    {
      assert TidyAt(w, b);
    }
  }

  lemma ReadChanges(w: World, a: nat, got: int) returns (w': World)
    requires Known(w, a) && Tidy(w) && a !in w.stale && -1 <= got <= BLCKSZ
    requires got > 0 ==> w.view[a].pos + got <= |Content(w, a)|
    ensures var op, pos := ReadOp(a, BLCKSZ, got), w.view[a].pos;
            && MayRun(w, [op]) && w' == AfterRun(w, [op]) && Changed(w, w', a, Content(w, a))
            && Answers(w, [op]) == [DataReply(got, if got > 0 then Content(w, a)[pos..pos + got] else [])]
  {
    var op := ReadOp(a, BLCKSZ, got);
    OneOp(w, op);
    w' := After(w, op);
    TransferTidy(w, a, got);
    forall b
      ensures TidyAt(w', b)
    {
    }
  }

  lemma WriteChanges(w: World, a: nat, buffer: Bytes, got: int) returns (w': World)
    requires Known(w, a) && Tidy(w) && a !in w.stale && -1 <= got <= |buffer|
    ensures var op, pos := WriteOp(a, buffer, got), w.view[a].pos;
            && MayRun(w, [op]) && w' == AfterRun(w, [op])
            && Changed(w, w', a, if got > 0 then Written(Padded(Content(w, a), pos), pos, buffer, got)
                       else Content(w, a))
            && Answers(w, [op]) == [CountReply(got)]
  {
    var op := WriteOp(a, buffer, got);
    OneOp(w, op);
    w' := After(w, op);
    TransferTidy(w, a, got);
    if got > 0 {
      SpliceIsWritten(Content(w, a), w.view[a].pos, buffer, got);
    }
    forall b
      ensures TidyAt(w', b)
    {
    }
  }

  lemma CutChanges(w: World, a: nat, length: nat, cut: bool) returns (w': World)
    requires Known(w, a) && Tidy(w) && length <= |Content(w, a)|
    ensures var op := CutOp(a, length, cut);
            && MayRun(w, [op]) && w' == AfterRun(w, [op])
            && Changed(w, w', a, if cut then Content(w, a)[..length] else Content(w, a))
            && Answers(w, [op]) == [CountReply(if cut then 0 else -1)]
  {
    var op := CutOp(a, length, cut);
    OneOp(w, op);
    w' := After(w, op);
    forall b
      ensures TidyAt(w', b)
    {
      assert TidyAt(w, b);
    }
  }

  // ---------- calls ----------

  /** What a call tells its caller. */
  ghost predicate Tells(bytes: Bytes, c: Call, replies: seq<Reply>)
    requires CallOk(bytes, c)
  {
    match c
    case LengthOf(_) => replies == [SeekReply(Pos(|bytes|))]
    case ReadAt(_, k, got) =>
      DataReply(got, if got > 0 then bytes[k * BLCKSZ..k * BLCKSZ + got] else []) in replies
    case WriteAt(_, _, _, got) => CountReply(got) in replies
    case Extend(_, _, got, _) => CountReply(got) in replies
    case CutAt(_, _, cut) => replies == [CountReply(if cut then 0 else -1)]
  }

  /** Positioning and one more operation. */
  lemma Two(w: World, w1: World, w2: World, a: nat, op1: Op, op2: Op, bytes1: Bytes, bytes2: Bytes)
    requires MayRun(w, [op1]) && w1 == AfterRun(w, [op1]) && Changed(w, w1, a, bytes1)
    requires MayRun(w1, [op2]) && w2 == AfterRun(w1, [op2]) && Changed(w1, w2, a, bytes2)
    ensures MayRun(w, [op1, op2]) && AfterRun(w, [op1, op2]) == w2 && Changed(w, w2, a, bytes2)
    ensures Answers(w, [op1, op2]) == Answers(w, [op1]) + Answers(w1, [op2])
  {
    assert [op1, op2] == [op1] + [op2];
    RunThen(w, [op1], [op2]);
    MayThen(w, [op1], [op2]);
    ChangedTwice(w, w1, w2, a, bytes1, bytes2);
  }

  lemma ReadCall(w: World, a: nat, k: nat, got: int) returns (w': World)
    requires Known(w, a) && Tidy(w) && -1 <= got <= BLCKSZ && (got > 0 ==> k * BLCKSZ + got <= |Content(w, a)|)
    ensures var ops := [SeekOp(a, k * BLCKSZ, SeekSet), ReadOp(a, BLCKSZ, got)];
            && MayRun(w, ops) && w' == AfterRun(w, ops) && Changed(w, w', a, Content(w, a))
            && Answers(w, ops) == [SeekReply(Pos(k * BLCKSZ)),
                                   DataReply(got, if got > 0 then Content(w, a)[k * BLCKSZ..k * BLCKSZ + got] else [])]
  {
    var w1 := SeekChanges(w, a, k * BLCKSZ, SeekSet);
    w' := ReadChanges(w1, a, got);
    Two(w, w1, w', a, SeekOp(a, k * BLCKSZ, SeekSet), ReadOp(a, BLCKSZ, got), Content(w, a), Content(w, a));
  }

  lemma WriteCall(w: World, a: nat, pos: nat, buffer: Bytes, got: int) returns (w': World)
    requires Known(w, a) && Tidy(w) && -1 <= got <= |buffer|
    ensures var ops := [SeekOp(a, pos, SeekSet), WriteOp(a, buffer, got)];
            && MayRun(w, ops) && w' == AfterRun(w, ops)
            && Changed(w, w', a, if got > 0 then Written(Padded(Content(w, a), pos), pos, buffer, got)
                       else Content(w, a))
            && Answers(w, ops) == [SeekReply(Pos(pos)), CountReply(got)]
  {
    var w1 := SeekChanges(w, a, pos, SeekSet);
    w' := WriteChanges(w1, a, buffer, got);
    Two(w, w1, w', a, SeekOp(a, pos, SeekSet), WriteOp(a, buffer, got), Content(w, a), Content(w', a));
  }

  /** The file is positioned behind its last whole block, and written. */
  lemma AppendCall(w: World, a: nat, buffer: Bytes, got: int) returns (w': World)
    requires Known(w, a) && Tidy(w) && |buffer| == BLCKSZ && -1 <= got <= BLCKSZ
    ensures var len := |Content(w, a)|;
            var ops := AppendOps(a, len, buffer, got);
            && MayRun(w, ops) && w' == AfterRun(w, ops)
            && Changed(w, w', a, Written(Content(w, a), len - len % BLCKSZ, buffer, got))
            && CountReply(got) in Answers(w, ops)
  {
    var len := |Content(w, a)|;
    DivModFacts(len, BLCKSZ);
    var pos := len - len % BLCKSZ;
    var end := SeekOp(a, 0, SeekEnd);
    var w1 := SeekChanges(w, a, 0, SeekEnd);
    if pos != len {
      w' := WriteCall(w1, a, pos, buffer, got);
      RunThen(w, [end], [SeekOp(a, pos, SeekSet), WriteOp(a, buffer, got)]);
      MayThen(w, [end], [SeekOp(a, pos, SeekSet), WriteOp(a, buffer, got)]);
    } else {
      w' := WriteChanges(w1, a, buffer, got);
      RunThen(w, [end], [WriteOp(a, buffer, got)]);
      MayThen(w, [end], [WriteOp(a, buffer, got)]);
      assert [SeekOp(a, pos, SeekSet), WriteOp(a, buffer, got)][1..] == [WriteOp(a, buffer, got)];
    }
    ChangedTwice(w, w1, w', a, Content(w, a), Written(Content(w, a), pos, buffer, got));
  }

  /** A part of a block is cut off, and the file positioned where it was. */
  lemma TrimCall(w: World, a: nat, pos: nat, cut: bool) returns (w': World)
    requires Known(w, a) && Tidy(w) && pos <= |Content(w, a)|
    ensures var ops := TrimOps(a, pos, cut);
            && MayRun(w, ops) && w' == AfterRun(w, ops)
            && Changed(w, w', a, if cut then Content(w, a)[..pos] else Content(w, a))
  {
    var w1 := CutChanges(w, a, pos, cut);
    w' := SeekChanges(w1, a, pos, SeekSet);
    Two(w, w1, w', a, CutOp(a, pos, cut), SeekOp(a, pos, SeekSet), Content(w1, a), Content(w1, a));
  }

  lemma ExtendCall(w: World, c: Call, a: nat) returns (w': World)
    requires Known(w, a) && Tidy(w) && c.Extend? && CallOk(Content(w, a), c)
    ensures var ops := OpsOf(c, a, |Content(w, a)|);
            && MayRun(w, ops) && w' == AfterRun(w, ops) && Changed(w, w', a, BytesAfter(Content(w, a), c))
            && CountReply(c.got) in Answers(w, ops)
  {
    var len := |Content(w, a)|;
    DivModFacts(len, BLCKSZ);
    var pos := len - len % BLCKSZ;
    w' := AppendCall(w, a, c.buffer, c.got);
    if 0 < c.got < BLCKSZ {
      var w1 := w';
      w' := TrimCall(w1, a, pos, c.cut);
      RunThen(w, AppendOps(a, len, c.buffer, c.got), TrimOps(a, pos, c.cut));
      MayThen(w, AppendOps(a, len, c.buffer, c.got), TrimOps(a, pos, c.cut));
      ChangedTwice(w, w1, w', a, Written(Content(w, a), pos, c.buffer, c.got), BytesAfter(Content(w, a), c));
    }
  }

  /** Any call: its file operations may be run, whatever else is open, and leave
      what the operations on a relation leave. */
  lemma CallRun(w: World, c: Call, a: nat) returns (w': World)
    requires Known(w, a) && Tidy(w) && CallOk(Content(w, a), c)
    ensures var ops := OpsOf(c, a, |Content(w, a)|);
            && MayRun(w, ops) && w' == AfterRun(w, ops) && Changed(w, w', a, BytesAfter(Content(w, a), c))
            && Tells(Content(w, a), c, Answers(w, ops))
  {
    match c
    case LengthOf(_) => w' := SeekChanges(w, a, 0, SeekEnd);
    case ReadAt(_, k, got) => w' := ReadCall(w, a, k, got);
    case WriteAt(_, k, buffer, got) => w' := WriteCall(w, a, k * BLCKSZ, buffer, got);
    case Extend(_, _, _, _) => w' := ExtendCall(w, c, a);
    case CutAt(_, k, cut) => w' := CutChanges(w, a, k * BLCKSZ, cut);
  }

  // ---------- runs ----------

  ghost predicate CallsOk(segs: map<nat, Bytes>, h: map<nat, nat>, calls: seq<Call>)
    decreases |calls|
  {
    calls == [] ||
    var s := calls[0].seg;
    s in h && s in segs && CallOk(segs[s], calls[0]) && CallsOk(segs[s := BytesAfter(segs[s], calls[0])], h, calls[1..])
  }

  ghost function SegsAfter(segs: map<nat, Bytes>, h: map<nat, nat>, calls: seq<Call>): map<nat, Bytes>
    requires CallsOk(segs, h, calls)
    decreases |calls|
  {
    if calls == [] then segs
    else var s := calls[0].seg; SegsAfter(segs[s := BytesAfter(segs[s], calls[0])], h, calls[1..])
  }

  ghost function OpsOfAll(segs: map<nat, Bytes>, h: map<nat, nat>, calls: seq<Call>): seq<Op>
    requires CallsOk(segs, h, calls)
    decreases |calls|
  {
    if calls == [] then []
    else var s := calls[0].seg;
         OpsOf(calls[0], h[s], |segs[s]|) + OpsOfAll(segs[s := BytesAfter(segs[s], calls[0])], h, calls[1..])
  }

  /** Any run of calls on any open segments may be run on virtual files. */
  lemma {:induction false} CallsRun(w: World, segs: map<nat, Bytes>, h: map<nat, nat>, calls: seq<Call>)
    requires Backed(w, segs, h) && CallsOk(segs, h, calls)
    ensures var ops := OpsOfAll(segs, h, calls);
            MayRun(w, ops) && Backed(AfterRun(w, ops), SegsAfter(segs, h, calls), h)
    decreases |calls|
  {
    if calls != [] {
      var c, s := calls[0], calls[0].seg;
      assert BackedAt(w, segs, h, s);
      var ops, segs' := OpsOf(c, h[s], |segs[s]|), segs[s := BytesAfter(segs[s], c)];
      var w' := CallRun(w, c, h[s]);
      StaysBacked(w, segs, h, s, w', BytesAfter(segs[s], c));
      CallsRun(w', segs', h, calls[1..]);
      RunThen(w, ops, OpsOfAll(segs', h, calls[1..]));
      MayThen(w, ops, OpsOfAll(segs', h, calls[1..]));
    }
  }

  /** The segments of a relation over a table of virtual files, whatever the kernel
      evicts in between. */
  method RunCalls(t: FileTable, ops: seq<Op>, kernels: nat -> Os, ghost w: World, ghost segs: map<nat, Bytes>,
                  ghost h: map<nat, nat>, ghost calls: seq<Call>) returns (replies: seq<Reply>)
    requires t.Valid() && t.Agrees(w) && Backed(w, segs, h) && CallsOk(segs, h, calls)
             && ops == OpsOfAll(segs, h, calls)
    requires forall i :: ServesAt(kernels, i)
    modifies t`cache, t`NFile, t`kernel, t`g, t`files
    ensures t.Valid() && SaneRun(w, ops) && replies == Answers(w, ops)
    ensures t.Agrees(AfterRun(w, ops)) && Backed(AfterRun(w, ops), SegsAfter(segs, h, calls), h)
  {
    CallsRun(w, segs, h, calls);
    replies := t.Run(ops, kernels, w);
  }
}
