/** Whole programs over virtual files. A program numbers the files that it opens
    0, 1, 2, ...; which slots they get, how slots are reused and which files are
    physically open at what time makes no difference to it. */
module FileSessions {
  import opened VfdTable
  import opened VfdKernel
  import opened FileWorld
  import opened VirtualFiles

  datatype Deed = OpenDeed(path: string, flags: Flags) | UseDeed(op: Op)

  datatype Told = Granted(ok: bool) | Said(reply: Reply)

  /** The program's files by its own numbers, and how many it has opened so far. */
  datatype Program = Program(world: World, count: nat)

  ghost predicate MayDo(p: Program, d: Deed) {
    d.UseDeed? ==> May(p.world, d.op)
  }

  ghost function Done(p: Program, d: Deed): Program
    requires MayDo(p, d)
  {
    match d
    case OpenDeed(path, flags) =>
      if Openable(p.world.files, path, flags) then Program(WithOpen(p.world, p.count, path, flags), p.count + 1) else p
    case UseDeed(op) => p.(world := After(p.world, op))
  }

  ghost function Tells(p: Program, d: Deed): Told
    requires MayDo(p, d)
  {
    match d
    case OpenDeed(path, flags) => Granted(Openable(p.world.files, path, flags))
    case UseDeed(op) => Said(Answer(p.world, op))
  }

  ghost predicate MayDoAll(p: Program, deeds: seq<Deed>)
    decreases |deeds|
  {
    deeds == [] || (MayDo(p, deeds[0]) && MayDoAll(Done(p, deeds[0]), deeds[1..]))
  }

  ghost function DoneAll(p: Program, deeds: seq<Deed>): Program
    requires MayDoAll(p, deeds)
    decreases |deeds|
  {
    if deeds == [] then p else DoneAll(Done(p, deeds[0]), deeds[1..])
  }

  ghost function TellsAll(p: Program, deeds: seq<Deed>): seq<Told>
    requires MayDoAll(p, deeds)
    decreases |deeds|
  {
    if deeds == [] then [] else [Tells(p, deeds[0])] + TellsAll(Done(p, deeds[0]), deeds[1..])
  }

  // ---------- numbers and slots ----------

  /** The program's file `h` is the table's file in slot `held[h]`. */
  ghost predicate HeldAt(p: Program, w: World, held: seq<nat>, h: nat) {
    h in p.world.view ==>
      && h < |held| && held[h] in w.view && w.view[held[h]] == p.world.view[h]
      && (held[h] in w.stale <==> h in p.world.stale)
      && (h in p.world.stale ==> w.stale[held[h]] == p.world.stale[h])
  }

  ghost predicate Apart(p: Program, held: seq<nat>, h: nat, k: nat) {
    h in p.world.view && k in p.world.view && h < |held| && k < |held| && h != k ==> held[h] != held[k]
  }

  ghost predicate Holds(p: Program, w: World, held: seq<nat>) {
    && |held| == p.count && w.files == p.world.files
    && (forall h :: HeldAt(p, w, held, h))
    && forall h, k :: Apart(p, held, h, k)
  }

  predicate HasFile(op: Op) {
    !op.EvictAll? && !op.EvictOne?
  }

  /** The operation on the slot that the program's number stands for. */
  function OnSlot(op: Op, held: seq<nat>): Op
    requires HasFile(op) ==> op.file < |held|
  {
    match op
    case ReadOp(file, amount, got) => ReadOp(held[file], amount, got)
    case WriteOp(file, bytes, got) => WriteOp(held[file], bytes, got)
    case SeekOp(file, offset, whence) => SeekOp(held[file], offset, whence)
    case CutOp(file, length, cut) => CutOp(held[file], length, cut)
    case CloseOp(file) => CloseOp(held[file])
    case EvictAll => EvictAll
    case EvictOne => EvictOne
  }

  /** Renaming files commutes with every operation. */
  lemma UseStep(p: Program, w: World, held: seq<nat>, op: Op)
    requires Holds(p, w, held) && May(p.world, op)
    ensures (HasFile(op) ==> op.file < |held|) && May(w, OnSlot(op, held))
    ensures Holds(Done(p, UseDeed(op)), After(w, OnSlot(op, held)), held)
    ensures Answer(w, OnSlot(op, held)) == Answer(p.world, op)
  {
    if HasFile(op) {
      assert HeldAt(p, w, held, op.file);
    }
    var p', w' := Done(p, UseDeed(op)), After(w, OnSlot(op, held));
    forall h
      ensures HeldAt(p', w', held, h)
    {
      assert HeldAt(p, w, held, h) && (HasFile(op) ==> Apart(p, held, h, op.file));
    }
    forall h, k
      ensures Apart(p', held, h, k)
    {
      assert Apart(p, held, h, k);
    }
  }

  /** A file opened in an unused slot gets the next number. */
  lemma OpenStep(p: Program, w: World, held: seq<nat>, file: nat, path: string, flags: Flags)
    requires Holds(p, w, held) && file !in w.view && Openable(w.files, path, flags)
    ensures Holds(Done(p, OpenDeed(path, flags)), WithOpen(w, file, path, flags), held + [file])
  {
    var p', w', held' := Done(p, OpenDeed(path, flags)), WithOpen(w, file, path, flags), held + [file];
    forall h
      ensures HeldAt(p', w', held', h)
    {
      assert HeldAt(p, w, held, h);
    }
    forall h, k
      ensures Apart(p', held', h, k)
    {
      assert Apart(p, held, h, k) && HeldAt(p, w, held, h) && HeldAt(p, w, held, k);
    }
  }

  /** One deed of a program. */
  method Act(t: FileTable, d: Deed, os: Os, ghost p: Program, ghost w: World, held: seq<nat>)
    returns (told: Told, ghost w': World, held': seq<nat>)
    requires t.Valid() && t.Agrees(w) && Holds(p, w, held) && MayDo(p, d) && Honest(os) && Willing(os)
    modifies t`cache, t`NFile, t`kernel, t`g, t`files
    ensures t.Valid() && t.Agrees(w') && Holds(Done(p, d), w', held') && told == Tells(p, d)
  {
    held' := held;
    match d
    case OpenDeed(path, flags) =>
      var file;
      file, w' := t.PerformOpen(path, flags, os, w);
      told := Granted(file != -1);
      if file != -1 {
        OpenStep(p, w, held, file, path, flags);
        held' := held + [file];
      }
    case UseDeed(op) =>
      UseStep(p, w, held, op);
      var reply := t.Perform(OnSlot(op, held), os, w);
      w' := After(w, OnSlot(op, held));
      told := Said(reply);
  }

  /** After `i` deeds the program has come to `now`, having been told `tolds`. */
  ghost predicate Midway(p: Program, deeds: seq<Deed>, now: Program, i: nat, tolds: seq<Told>) {
    && i <= |deeds| && MayDoAll(p, deeds) && MayDoAll(now, deeds[i..])
    && DoneAll(now, deeds[i..]) == DoneAll(p, deeds) && tolds + TellsAll(now, deeds[i..]) == TellsAll(p, deeds)
  }

  lemma Forward(p: Program, deeds: seq<Deed>, now: Program, i: nat, tolds: seq<Told>)
    requires Midway(p, deeds, now, i, tolds) && i < |deeds|
    ensures MayDo(now, deeds[i]) && Midway(p, deeds, Done(now, deeds[i]), i + 1, tolds + [Tells(now, deeds[i])])
  {
    assert deeds[i..][1..] == deeds[i + 1..];
  }

  /** Any program that opens, reads, writes, positions and closes any number of
      files, on any table: it is told what it would be told if each of its files
      had a kernel descriptor of its own for as long as it is open. */
  method RunProgram(t: FileTable, deeds: seq<Deed>, kernels: nat -> Os, ghost p: Program, ghost w: World)
    returns (tolds: seq<Told>, ghost w': World, held: seq<nat>)
    requires t.Valid() && t.Agrees(w) && forall i :: ServesAt(kernels, i)
    requires p == Program(World(map[], w.files, map[]), 0) && MayDoAll(p, deeds)
    modifies t`cache, t`NFile, t`kernel, t`g, t`files
    ensures t.Valid() && t.Agrees(w') && Holds(DoneAll(p, deeds), w', held) && tolds == TellsAll(p, deeds)
  {
    tolds, w', held := [], w, [];
    ghost var now := p;
    for i := 0 to |deeds|
      invariant t.Valid() && t.Agrees(w') && Holds(now, w', held) && Midway(p, deeds, now, i, tolds)
    {
      Forward(p, deeds, now, i, tolds);
      var told;
      assert ServesAt(kernels, i);
      told, w', held := Act(t, deeds[i], kernels(i), now, w', held);
      tolds := tolds + [told];
      now := Done(now, deeds[i]);
    }
  }
}
