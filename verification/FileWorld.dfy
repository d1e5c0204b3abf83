/** Files with positions, as their users see them: what each operation on files
    that are permanently open does and answers, and which operations the recorded
    positions of virtual files may spoil. */
module FileWorld {
  import opened VfdTable

  datatype Whence = SeekSet | SeekCur | SeekEnd | Other

  /** `Rejected` is an error raised before anything is done. */
  datatype SeekResult = Rejected | Pos(offset: int)

  /** A file that does not exist is opened only if it may be created, and one that
      does only if it need not be. */
  predicate Openable(files: map<string, seq<nat>>, path: string, flags: Flags) {
    if path in files then !(flags.creat && flags.excl) else flags.creat
  }

  function AfterOpen(files: map<string, seq<nat>>, path: string, flags: Flags): map<string, seq<nat>> {
    if path !in files || flags.trunc then files[path := []] else files
  }

  /** lseek: the resulting position, or -1 and no change if it would be negative. */
  function Target(pos: int, len: nat, offset: int, whence: Whence): int {
    match whence
    case SeekSet => offset
    case SeekCur => pos + offset
    case SeekEnd => len + offset
    case Other => -1
  }

  function KernelSeek(pos: nat, len: nat, offset: int, whence: Whence): (r: (int, nat))
    ensures r.0 == r.1 || (r.0 == -1 && r.1 == pos)
  {
    var t := Target(pos, len, offset, whence);
    if t < 0 then (-1, pos) else (t, t)
  }

  /** The recorded and the kernel's position after seeking in an open file: the
      kernel is not asked when the record says that nothing would change. */
  function SeekOpen(seekPos: int, pos: nat, len: nat, offset: int, whence: Whence): (int, nat) {
    if Skips(seekPos, offset, whence) then (seekPos, pos) else KernelSeek(pos, len, offset, whence)
  }

  predicate Skips(seekPos: int, offset: int, whence: Whence) {
    (whence == SeekSet && seekPos == offset) || (whence == SeekCur && offset == 0 && seekPos != UNKNOWN)
  }

  /** The recorded position after a transfer of `rc` bytes. */
  function Advance(seekPos: int, rc: int): int {
    if rc > 0 then seekPos + rc else UNKNOWN
  }

  ghost predicate InStep(seekPos: int, pos: nat) {
    seekPos == UNKNOWN || seekPos == pos
  }

  /** While the record is right or unknown, the shortcut is not observable. */
  lemma SeekOpenCorrect(seekPos: int, pos: nat, len: nat, offset: int, whence: Whence)
    requires InStep(seekPos, pos) && (whence == SeekSet ==> offset >= 0)
    ensures SeekOpen(seekPos, pos, len, offset, whence) == KernelSeek(pos, len, offset, whence)
    ensures var r := SeekOpen(seekPos, pos, len, offset, whence); InStep(r.0, r.1)
  {
  }

  /** A seek in an open file does and answers what lseek does, exactly unless it is
      skipped on the word of a wrong record. */
  lemma SeekExact(seekPos: int, pos: nat, len: nat, offset: int, whence: Whence)
    requires whence == SeekSet ==> offset >= 0
    ensures SeekOpen(seekPos, pos, len, offset, whence) == KernelSeek(pos, len, offset, whence)
            <==> !Skips(seekPos, offset, whence) || seekPos == pos
  {
  }

  /** A transfer keeps the record right exactly if it was known: adding to the
      "unknown" marker yields a wrong position. */
  lemma AdvanceExact(seekPos: int, pos: nat, rc: int)
    requires InStep(seekPos, pos) && rc > 0
    ensures InStep(Advance(seekPos, rc), pos + rc) <==> seekPos != UNKNOWN
  {
  }

  /** Overwrites from `pos` on, filling a gap with zeros. */
  function Splice(s: seq<nat>, pos: nat, bytes: seq<nat>): (r: seq<nat>)
    ensures |r| >= pos + |bytes| && r[pos..pos + |bytes|] == bytes
    ensures forall i :: 0 <= i < |s| && (i < pos || pos + |bytes| <= i) ==> i < |r| && r[i] == s[i]
    ensures forall i :: |s| <= i < pos ==> r[i] == 0
    ensures |r| == if |s| < pos + |bytes| then pos + |bytes| else |s|
  {
    (if pos <= |s| then s[..pos] else s + seq(pos - |s|, _ => 0)) + bytes
    + (if pos + |bytes| <= |s| then s[pos + |bytes|..] else [])
  }

  /** A file cut or extended with zeros to a length. */
  function Resized(s: seq<nat>, length: nat): (r: seq<nat>)
    ensures |r| == length && forall i :: 0 <= i < length ==> r[i] == if i < |s| then s[i] else 0
  {
    if length <= |s| then s[..length] else s + seq(length - |s|, _ => 0)
  }

  // ---------- operations ----------

  datatype Op = ReadOp(file: nat, amount: nat, got: int)
              | WriteOp(file: nat, bytes: seq<nat>, got: int)
              | SeekOp(file: nat, offset: int, whence: Whence)
              | CutOp(file: nat, length: nat, cut: bool)
              | CloseOp(file: nat)
              | EvictAll
              | EvictOne

  datatype Reply = DataReply(rc: int, data: seq<nat>) | CountReply(rc: int) | SeekReply(r: SeekResult) | NoReply

  /** Open files with their positions, the contents of all files, and the recorded
      positions that may be wrong: those of files with a transfer or seek that
      failed and no successful seek since. */
  datatype World = World(view: map<nat, Open>, files: map<string, seq<nat>>, stale: map<nat, int>)

  ghost predicate Known(w: World, file: nat) {
    file in w.view && w.view[file].path in w.files && w.view[file].pos >= 0
  }

  /** The file is open, and the kernel returns no more than there is. */
  ghost predicate Sane(w: World, op: Op) {
    match op
    case ReadOp(file, amount, got) =>
      Known(w, file) && -1 <= got <= amount && (got > 0 ==> w.view[file].pos + got <= |w.files[w.view[file].path]|)
    case WriteOp(file, bytes, got) => Known(w, file) && -1 <= got <= |bytes|
    case SeekOp(file, _, _) => Known(w, file)
    case CutOp(file, _, _) => Known(w, file)
    case CloseOp(file) => file in w.view
    case EvictAll => true
    case EvictOne => true
  }

  ghost predicate Refuses(op: Op)
    requires op.SeekOp?
  {
    (op.whence == SeekSet && op.offset < 0) || op.whence == Other
  }

  /** A seek is not skipped on the word of a wrong record. */
  ghost predicate Unmistaken(w: World, op: Op)
    requires Sane(w, op)
  {
    op.SeekOp? && !Refuses(op) && op.file in w.stale ==>
      !Skips(w.stale[op.file], op.offset, op.whence) || w.stale[op.file] == w.view[op.file].pos
  }

  /** Nobody seeks to before the start of a file relative to the current position. */
  ghost predicate Ahead(w: World, op: Op)
    requires Sane(w, op)
  {
    op.SeekOp? && op.whence == SeekCur ==> w.view[op.file].pos + op.offset >= 0
  }

  ghost predicate May(w: World, op: Op) {
    Sane(w, op) && Unmistaken(w, op) && Ahead(w, op)
  }

  ghost function Destination(w: World, op: Op): int
    requires op.SeekOp? && Known(w, op.file)
  {
    Target(w.view[op.file].pos, |w.files[w.view[op.file].path]|, op.offset, op.whence)
  }

  /** The records that may be wrong after a transfer of `got` bytes. */
  ghost function StaleAfter(stale: map<nat, int>, file: nat, got: int): map<nat, int> {
    if got > 0 && file !in stale then stale
    else stale[file := if got > 0 then Advance(stale[file], got) else UNKNOWN]
  }

  ghost function MovedOn(view: map<nat, Open>, file: nat, got: int): map<nat, Open>
    requires file in view
  {
    view[file := view[file].(pos := view[file].pos + if got > 0 then got else 0)]
  }

  ghost function After(w: World, op: Op): World
    requires Sane(w, op)
  {
    match op
    case ReadOp(file, _, got) =>
      World(MovedOn(w.view, file, got), w.files, StaleAfter(w.stale, file, got))
    case WriteOp(file, bytes, got) =>
      var o := w.view[file];
      World(MovedOn(w.view, file, got),
            if got > 0 then w.files[o.path := Splice(w.files[o.path], o.pos, bytes[..got])] else w.files,
            StaleAfter(w.stale, file, got))
    case SeekOp(file, _, _) =>
      if Refuses(op) then w
      else if Destination(w, op) >= 0
      then w.(view := w.view[file := w.view[file].(pos := Destination(w, op))], stale := w.stale - {file})
      else w.(stale := w.stale[file := UNKNOWN])
    case CutOp(file, length, cut) =>
      var path := w.view[file].path;
      if cut then w.(files := w.files[path := Resized(w.files[path], length)]) else w
    case CloseOp(file) => w.(view := w.view - {file}, stale := w.stale - {file})
    case EvictAll => w
    case EvictOne => w
  }

  ghost function Answer(w: World, op: Op): Reply
    requires Sane(w, op)
  {
    match op
    case ReadOp(file, _, got) =>
      var o := w.view[file];
      DataReply(got, if got > 0 then w.files[o.path][o.pos..o.pos + got] else [])
    case WriteOp(_, _, got) => CountReply(got)
    case SeekOp(_, _, _) =>
      SeekReply(if Refuses(op) then Rejected else if Destination(w, op) >= 0 then Pos(Destination(w, op)) else Pos(-1))
    case CutOp(_, _, cut) => CountReply(if cut then 0 else -1)
    case CloseOp(_) => NoReply
    case EvictAll => NoReply
    case EvictOne => NoReply
  }

  /** A newly opened file stands at 0. */
  ghost function WithOpen(w: World, file: nat, path: string, flags: Flags): World {
    World(w.view[file := Open(path, 0)], AfterOpen(w.files, path, flags), w.stale - {file})
  }

  // ---------- runs ----------

  ghost predicate SaneRun(w: World, ops: seq<Op>)
    decreases |ops|
  {
    ops == [] || (Sane(w, ops[0]) && SaneRun(After(w, ops[0]), ops[1..]))
  }

  ghost predicate UnmistakenRun(w: World, ops: seq<Op>)
    requires SaneRun(w, ops)
    decreases |ops|
  {
    ops == [] || (Unmistaken(w, ops[0]) && UnmistakenRun(After(w, ops[0]), ops[1..]))
  }

  ghost predicate AheadRun(w: World, ops: seq<Op>)
    requires SaneRun(w, ops)
    decreases |ops|
  {
    ops == [] || (Ahead(w, ops[0]) && AheadRun(After(w, ops[0]), ops[1..]))
  }

  ghost predicate MayRun(w: World, ops: seq<Op>) {
    SaneRun(w, ops) && UnmistakenRun(w, ops) && AheadRun(w, ops)
  }

  ghost function AfterRun(w: World, ops: seq<Op>): World
    requires SaneRun(w, ops)
    decreases |ops|
  {
    if ops == [] then w else AfterRun(After(w, ops[0]), ops[1..])
  }

  ghost function Answers(w: World, ops: seq<Op>): seq<Reply>
    requires SaneRun(w, ops)
    decreases |ops|
  {
    if ops == [] then [] else [Answer(w, ops[0])] + Answers(After(w, ops[0]), ops[1..])
  }

  /** After `i` operations the world is `now`, and `replies` were given. */
  ghost predicate Underway(w: World, ops: seq<Op>, now: World, i: nat, replies: seq<Reply>) {
    && i <= |ops| && SaneRun(w, ops) && SaneRun(now, ops[i..])
    && (UnmistakenRun(now, ops[i..]) <==> UnmistakenRun(w, ops)) && (AheadRun(now, ops[i..]) || !AheadRun(w, ops))
    && AfterRun(now, ops[i..]) == AfterRun(w, ops) && replies + Answers(now, ops[i..]) == Answers(w, ops)
  }

  lemma Onward(w: World, ops: seq<Op>, now: World, i: nat, replies: seq<Reply>)
    requires Underway(w, ops, now, i, replies) && i < |ops|
    ensures Sane(now, ops[i]) && (AheadRun(w, ops) ==> Ahead(now, ops[i]))
    ensures if Unmistaken(now, ops[i]) then Underway(w, ops, After(now, ops[i]), i + 1, replies + [Answer(now, ops[i])])
            else !UnmistakenRun(w, ops)
  {
    assert ops[i..][1..] == ops[i + 1..];
  }

  /** The first `i` operations lead to `now`, with these answers. */
  ghost predicate Behind(w: World, ops: seq<Op>, i: nat, now: World, replies: seq<Reply>) {
    && |replies| == i <= |ops| && SaneRun(w, ops[..i]) && now == AfterRun(w, ops[..i])
       && replies == Answers(w, ops[..i])
  }

  lemma OneFurther(w: World, ops: seq<Op>, i: nat, now: World, replies: seq<Reply>)
    requires Behind(w, ops, i, now, replies) && i < |ops| && Sane(now, ops[i])
    ensures Behind(w, ops, i + 1, After(now, ops[i]), replies + [Answer(now, ops[i])])
  {
    assert ops[..i + 1] == ops[..i] + [ops[i]];
    OneOp(now, ops[i]);
    RunThen(w, ops[..i], [ops[i]]);
  }

  lemma OneOp(w: World, op: Op)
    requires Sane(w, op)
    ensures SaneRun(w, [op]) && AfterRun(w, [op]) == After(w, op) && Answers(w, [op]) == [Answer(w, op)]
    ensures May(w, op) ==> MayRun(w, [op])
  {
    var none: seq<Op> := [op][1..];
    assert none == [];
  }

  lemma {:induction false} AfterThen(w: World, ops: seq<Op>, rest: seq<Op>)
    requires SaneRun(w, ops) && SaneRun(AfterRun(w, ops), rest)
    ensures SaneRun(w, ops + rest) && AfterRun(w, ops + rest) == AfterRun(AfterRun(w, ops), rest)
    decreases |ops|
  {
    var all := ops + rest;
    if ops == [] {
      assert all == rest;
    } else {
      AfterThen(After(w, ops[0]), ops[1..], rest);
      assert all[0] == ops[0] && all[1..] == ops[1..] + rest;
    }
  }

  lemma {:induction false} AnswersThen(w: World, ops: seq<Op>, rest: seq<Op>)
    requires SaneRun(w, ops) && SaneRun(AfterRun(w, ops), rest) && SaneRun(w, ops + rest)
    ensures Answers(w, ops + rest) == Answers(w, ops) + Answers(AfterRun(w, ops), rest)
    decreases |ops|
  {
    var all := ops + rest;
    if ops == [] {
      assert all == rest;
    } else {
      assert all[0] == ops[0] && all[1..] == ops[1..] + rest;
      AnswersThen(After(w, ops[0]), ops[1..], rest);
    }
  }

  /** A run and then another. */
  lemma RunThen(w: World, ops: seq<Op>, rest: seq<Op>)
    requires SaneRun(w, ops) && SaneRun(AfterRun(w, ops), rest)
    ensures SaneRun(w, ops + rest) && AfterRun(w, ops + rest) == AfterRun(AfterRun(w, ops), rest)
    ensures Answers(w, ops + rest) == Answers(w, ops) + Answers(AfterRun(w, ops), rest)
  {
    AfterThen(w, ops, rest);
    AnswersThen(w, ops, rest);
  }

  lemma {:induction false} MayThen(w: World, ops: seq<Op>, rest: seq<Op>)
    requires MayRun(w, ops) && MayRun(AfterRun(w, ops), rest)
    ensures MayRun(w, ops + rest)
    decreases |ops|
  {
    var all := ops + rest;
    if ops == [] {
      assert all == rest;
    } else {
      MayThen(After(w, ops[0]), ops[1..], rest);
      assert all[0] == ops[0] && all[1..] == ops[1..] + rest;
    }
  }
}
