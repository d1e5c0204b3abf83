/** The magnetic-disk storage manager: operations on one relation's segments,
    and the vector of descriptors with its free list. */
module MagneticDisk {
  import opened Bits
  import opened SegmentedFile
  import opened Storage

  /** Every segment from `lo` to `hi` can be opened. */
  ghost predicate CanOpenAll(canOpen: nat -> bool, lo: nat, hi: nat) {
    forall s :: lo <= s <= hi ==> canOpen(s)
  }

  ghost predicate IsFull(segs: map<nat, Bytes>, s: nat) {
    s in segs && |segs[s]| == SEG_BYTES
  }

  /** The first segment that is not full; it may not exist yet. */
  ghost function EndSeg(segs: map<nat, Bytes>, last: nat): nat {
    if IsFull(segs, last) then last + 1 else last
  }

  // ---------- counting with queries that may fail ----------

  /** Where a walk from segment `s` to `end` stops: at the first segment whose
      length cannot be queried, which counts as empty. */
  ghost function StopFrom(lengthOk: nat -> bool, s: nat, end: nat): (stop: nat)
    requires s <= end
    ensures s <= stop <= end && (lengthOk(stop) ==> stop == end) && forall j :: s <= j < stop ==> lengthOk(j)
    decreases end - s
  {
    if s == end || !lengthOk(s) then s else StopFrom(lengthOk, s + 1, end)
  }

  ghost function StopSeg(segs: map<nat, Bytes>, last: nat, lengthOk: nat -> bool): nat {
    StopFrom(lengthOk, 0, EndSeg(segs, last))
  }

  /** What the walk makes of the number of blocks. */
  ghost function CountOf(segs: map<nat, Bytes>, last: nat, lengthOk: nat -> bool): nat {
    var s := StopSeg(segs, last, lengthOk);
    if lengthOk(s) then NBlocks(segs, last) else s * RELSEG_SIZE
  }

  ghost predicate HasBlock(segs: map<nat, Bytes>, s: nat) {
    s in segs && |segs[s]| >= BLCKSZ
  }

  /** The count is right exactly if no query fails on the way, or the segment
      where one does has no whole block. */
  lemma CountRight(segs: map<nat, Bytes>, last: nat, lengthOk: nat -> bool)
    requires forall i :: SegOk(segs, last, i)
    ensures var s := StopSeg(segs, last, lengthOk);
            && (CountOf(segs, last, lengthOk) == NBlocks(segs, last) <==> lengthOk(s) || !HasBlock(segs, s))
            && CountOf(segs, last, lengthOk) <= NBlocks(segs, last)
  {
    var s := StopSeg(segs, last, lengthOk);
    assert SegOk(segs, last, last) && SegOk(segs, last, s);
    DivModFacts(|segs[last]|, BLCKSZ);
  }

  /** The walk has come to segment `seg` over full segments whose queries succeeded. */
  ghost predicate Walked(segs0: map<nat, Bytes>, already: nat, segs: map<nat, Bytes>, chain: seq<nat>, last: nat,
                         lengthOk: nat -> bool, canOpen: nat -> bool, seg: nat) {
    && StandsTo(segs0, last) && RelOk(segs, chain, last) && Flat(segs, last) == Flat(segs0, last)
    && EndSeg(segs, last) == EndSeg(segs0, last) && segs == Made(segs0, seg)
    && seg <= EndSeg(segs0, last) && StopFrom(lengthOk, seg, EndSeg(segs0, last)) == StopSeg(segs0, last, lengthOk)
    && |chain| == Reached(already, seg) && forall s :: already <= s < |chain| ==> canOpen(s)
  }

  lemma WalkStops(segs0: map<nat, Bytes>, already: nat, segs: map<nat, Bytes>, chain: seq<nat>, last: nat,
                  lengthOk: nat -> bool, canOpen: nat -> bool, seg: nat, nb: nat)
    requires Walked(segs0, already, segs, chain, last, lengthOk, canOpen, seg) && seg in segs
    requires nb == (if lengthOk(seg) then |segs[seg]| / BLCKSZ else 0) && nb != RELSEG_SIZE
    ensures seg == StopSeg(segs0, last, lengthOk)
    ensures var n := seg * RELSEG_SIZE + nb;
            && n == CountOf(segs0, last, lengthOk) && n / RELSEG_SIZE == seg
            && (n == |Flat(segs0, last)| <==> lengthOk(seg) || !HasBlock(segs0, seg))
    ensures CanOpenAll(canOpen, already, seg)
    ensures var last' := if seg > last then seg else last;
            && RelOk(segs, chain, last') && Flat(segs, last') == Flat(segs0, last)
            && (|segs[seg]| < SEG_BYTES ==> seg == last') && (lengthOk(seg) ==> |segs[seg]| < SEG_BYTES)
  {
    assert SegOk(segs, last, seg) && SegOk(segs, last, last) && SegOk(segs0, last, last) && SegOk(segs0, last, seg);
    DivModFacts(|segs[seg]|, BLCKSZ);
    DivModFacts(|segs[last]|, BLCKSZ);
    CountRight(segs0, last, lengthOk);
    Located(seg, nb);
    if seg > last {
      NextSegment(segs, last);
    }
  }

  lemma WalkGoesOn(segs0: map<nat, Bytes>, already: nat, segs: map<nat, Bytes>, chain: seq<nat>, last: nat,
                   lengthOk: nat -> bool, canOpen: nat -> bool, seg: nat, segs': map<nat, Bytes>, chain': seq<nat>)
    requires Walked(segs0, already, segs, chain, last, lengthOk, canOpen, seg)
    requires seg in segs && lengthOk(seg) && |segs[seg]| / BLCKSZ == RELSEG_SIZE
    requires RelOk(segs', chain', last) && Flat(segs', last) == Flat(segs, last)
    requires EndSeg(segs', last) == EndSeg(segs, last)
    requires segs' == if seg + 1 < |chain| || canOpen(seg + 1) then Made(segs, seg + 1) else segs
    requires seg + 1 < |chain| || canOpen(seg + 1) ==> |chain'| == Reached(|chain|, seg + 1)
    ensures seg < EndSeg(segs0, last)
    ensures seg + 1 < |chain| || canOpen(seg + 1) ==>
              Walked(segs0, already, segs', chain', last, lengthOk, canOpen, seg + 1)
    ensures !(seg + 1 < |chain| || canOpen(seg + 1)) ==>
              !CanOpenAll(canOpen, already, StopSeg(segs0, last, lengthOk)) && segs' == segs0
  {
    assert SegOk(segs0, last, seg) && SegOk(segs, last, seg) && SegOk(segs, last, last);
    DivModFacts(|segs[seg]|, BLCKSZ);
  }

  /** No file with bytes lies at or behind position `c` of the chain. */
  ghost predicate AllOpened(segs: map<nat, Bytes>, c: nat) {
    forall i :: i >= c && i in segs ==> segs[i] == []
  }

  /** How many segments are open once the walk has reached segment `s`. */
  ghost function Reached(already: nat, s: nat): nat {
    if s < already then already else s + 1
  }

  lemma SameOpened(segs: map<nat, Bytes>, segs': map<nat, Bytes>, c: nat)
    requires forall i :: SameOrNew(segs, segs', i)
    ensures AllOpened(segs', c) <==> AllOpened(segs, c)
  {
    forall i: nat
      ensures i in segs ==> i in segs' && segs'[i] == segs[i]
      ensures i in segs' && i !in segs ==> segs'[i] == []
    {
      assert SameOrNew(segs, segs', i);
    }
  }

  /** If no query fails the walk opens every file with bytes. */
  lemma WalkOpensAll(segs: map<nat, Bytes>, last: nat, lengthOk: nat -> bool, already: nat)
    requires (forall i :: SegOk(segs, last, i)) && lengthOk(StopSeg(segs, last, lengthOk))
    ensures AllOpened(segs, Reached(already, StopSeg(segs, last, lengthOk)))
  {
    forall i: nat | i > last
      ensures i in segs ==> segs[i] == []
    {
      assert SegOk(segs, last, i);
    }
  }

  /** The files stand for no sequence of blocks. */
  ghost predicate Broken(segs: map<nat, Bytes>) {
    forall l :: !StandsTo(segs, l)
  }

  /** A file with bytes behind one that is not full. */
  lemma GapBreaks(segs: map<nat, Bytes>, lo: nat, hi: nat)
    requires lo < hi && hi in segs && segs[hi] != [] && (lo in segs ==> |segs[lo]| != SEG_BYTES)
    ensures Broken(segs)
  {
    forall l
      ensures !StandsTo(segs, l)
    {
      assert !SegOk(segs, l, lo) || !SegOk(segs, l, hi);
    }
  }

  /** A file of more than a segment. */
  lemma OverrunBreaks(segs: map<nat, Bytes>, s: nat)
    requires s in segs && |segs[s]| > SEG_BYTES
    ensures Broken(segs)
  {
    forall l
      ensures !StandsTo(segs, l)
    {
      assert !SegOk(segs, l, s);
    }
  }

  /** The counts on record are those of `n` blocks. */
  ghost predicate CutChain(chain: seq<nat>, n: nat) {
    && |chain| == n / RELSEG_SIZE + 1 && chain[n / RELSEG_SIZE] == n % RELSEG_SIZE
    && forall i :: 0 <= i < n / RELSEG_SIZE ==> chain[i] == RELSEG_SIZE
  }

  /** The files once segment `s` has been opened: made, empty, if it was missing. */
  ghost function Made(segs: map<nat, Bytes>, s: nat): map<nat, Bytes> {
    if s in segs then segs else segs[s := []]
  }

  /** The files once a block has been written at the end of segment `s`. */
  ghost function ExtendedAt(segs: map<nat, Bytes>, s: nat, buffer: Bytes, got: int, cut: bool): map<nat, Bytes>
    requires |buffer| == BLCKSZ && -1 <= got <= BLCKSZ
  {
    segs[s := Extended(if s in segs then segs[s] else [], buffer, got, cut)]
  }

  /** What a query of the length of segment `s` makes of its number of blocks. */
  ghost function Counted(segs: map<nat, Bytes>, lengthOk: nat -> bool, s: nat): nat {
    if lengthOk(s) && s in segs then |segs[s]| / BLCKSZ else 0
  }

  /** The counts on record before `seg` say full, those behind it are the old ones. */
  ghost predicate Noted(chain: seq<nat>, chain': seq<nat>, seg: nat) {
    forall i :: 0 <= i < |chain'| ==>
      && (i < seg ==> chain'[i] == RELSEG_SIZE) && (seg < i ==> i < |chain| && chain'[i] == chain[i])
  }

  /** The count of segment `seg` was recorded, and perhaps the next segment opened. */
  ghost predicate OneNoted(chain: seq<nat>, chain': seq<nat>, seg: nat, nb: nat) {
    && seg < |chain| <= |chain'|
    && forall i :: 0 <= i < |chain'| ==>
         if i == seg then chain'[i] == nb else if i < |chain| then chain'[i] == chain[i] else i == seg + 1
  }

  /** The chain was extended, by segments with their counts. */
  ghost predicate Lengthened(chain: seq<nat>, chain': seq<nat>, segs: map<nat, Bytes>, lengthOk: nat -> bool) {
    && |chain| <= |chain'| && chain'[..|chain|] == chain
    && forall i :: |chain| <= i < |chain'| ==> chain'[i] == Counted(segs, lengthOk, i)
  }

  /** Segment `s` on the way to `target` can be opened; only the target may be created. */
  ghost predicate ReachableAt(segs: map<nat, Bytes>, canOpen: nat -> bool, target: nat, s: nat) {
    canOpen(s) && (s in segs || s == target)
  }

  ghost predicate Reachable(segs: map<nat, Bytes>, canOpen: nat -> bool, lo: nat, target: nat) {
    forall s :: lo <= s <= target ==> ReachableAt(segs, canOpen, target, s)
  }

  /** Opening leaves segment `i` as it is, or creates it empty. */
  ghost predicate SameOrNew(segs: map<nat, Bytes>, segs': map<nat, Bytes>, i: nat) {
    && (i in segs ==> i in segs' && segs'[i] == segs[i])
    && (i in segs' && i !in segs ==> segs'[i] == [])
  }

  /** The blocks `b'` are the blocks `b` with `buffer` written at `n`, in place or
      behind the end, where the blocks in between are zero; unless the write was
      complete, block `n` itself may be anything. */
  ghost predicate Rewritten(b: seq<Bytes>, b': seq<Bytes>, n: nat, buffer: Bytes, complete: bool) {
    && |b| <= |b'| && (n < |b| ==> |b'| == |b|)
    && (forall m :: 0 <= m < |b| && m != n ==> b'[m] == b[m])
    && (complete ==> n < |b'| && b'[n] == buffer)
    && (complete && |b| <= n ==> |b'| == n + 1 && forall m :: |b| < m < n ==> ZeroBlock(b'[m]))
  }

  class Relation {
    /** The segment files that exist, by segment number. */
    var segs: map<nat, Bytes>
    /** The segments opened so far, in order, each with its last known block count. */
    var chain: seq<nat>
    ghost var last: nat

    ghost predicate Valid()
      reads this
    {
      RelOk(segs, chain, last)
    }

    ghost function Blocks(): seq<Bytes>
      reads this
    {
      Flat(segs, last)
    }

    /** md_open: only the first segment is opened; `end` is the last segment in use. */
    constructor (disk: map<nat, Bytes>, ghost end: nat)
      requires (forall i :: SegOk(disk, end, i)) && 0 in disk
      ensures Valid() && segs == disk && last == end && chain == [|disk[0]| / BLCKSZ]
    {
      segs, chain, last := disk, [|disk[0]| / BLCKSZ], end;
    }

    /** md_fd_open_seg: opens segment `s`, creating it only if allowed to. */
    method OpenSeg(s: nat, creat: bool, lengthOk: nat -> bool, canOpen: nat -> bool) returns (ok: bool)
      requires Valid() && s == |chain|
      modifies this`segs, this`chain
      ensures Valid() && Blocks() == old(Blocks())
      ensures ok <==> canOpen(s) && (s in old(segs) || creat)
      ensures !ok ==> segs == old(segs) && chain == old(chain)
      ensures ok ==> segs == (if s in old(segs) then old(segs) else old(segs)[s := []])
      ensures ok ==> chain == old(chain) + [Counted(segs, lengthOk, s)]
    {
      ok := canOpen(s) && (s in segs || creat);
      if ok {
        if s !in segs {
          SpareSegment(segs, last, s);
          segs := segs[s := []];
        }
        chain := chain + [if lengthOk(s) then |segs[s]| / BLCKSZ else 0];
      }
    }

    /** md_nblocks: walks full segments, opening the next, to the first that is
        not full, or whose length query fails and counts as 0. */
    method MdNBlocks(lengthOk: nat -> bool, canOpen: nat -> bool) returns (ok: bool, n: nat)
      requires Valid()
      modifies this
      ensures Valid() && Blocks() == old(Blocks()) && |chain| >= |old(chain)|
      ensures segs == if ok then Made(old(segs), StopSeg(old(segs), old(last), lengthOk)) else old(segs)
      ensures ok <==> CanOpenAll(canOpen, |old(chain)|, StopSeg(old(segs), old(last), lengthOk))
      ensures var s := StopSeg(old(segs), old(last), lengthOk);
              ok ==>
                && n == CountOf(old(segs), old(last), lengthOk) && n / RELSEG_SIZE == s
                && (n == |Blocks()| <==> lengthOk(s) || !HasBlock(old(segs), s))
                && s in segs && |chain| == Reached(|old(chain)|, s)
                && Noted(old(chain), chain, s) && chain[s] == Counted(segs, lengthOk, s)
                && (|segs[s]| < SEG_BYTES ==> s == last) && (lengthOk(s) ==> |segs[s]| < SEG_BYTES)
    {
      var seg := 0;
      ghost var segs0, already := segs, |chain|;
      while true
        invariant last == old(last) && Walked(segs0, already, segs, chain, last, lengthOk, canOpen, seg)
        invariant Noted(old(chain), chain, seg)
        decreases EndSeg(segs0, last) - seg
      {
        var nb, there := WalkOne(seg, lengthOk, canOpen, segs0, already);
        if nb != RELSEG_SIZE {
          WalkStops(segs0, already, segs, chain, last, lengthOk, canOpen, seg, nb);
          last := if seg > last then seg else last;
          ok, n := true, seg * RELSEG_SIZE + nb;
          return;
        }
        if !there {
          ok, n := false, 0;
          return;
        }
        seg := seg + 1;
      }
    }

    /** One round of the walk: segment `seg` is counted, and if it is full the next one opened. */
    method WalkOne(seg: nat, lengthOk: nat -> bool, canOpen: nat -> bool, ghost segs0: map<nat, Bytes>,
                   ghost already: nat)
      returns (nb: nat, there: bool)
      requires Walked(segs0, already, segs, chain, last, lengthOk, canOpen, seg)
      modifies this`segs, this`chain
      ensures Valid() && seg in old(segs) && nb == if lengthOk(seg) then |old(segs)[seg]| / BLCKSZ else 0
      ensures OneNoted(old(chain), chain, seg, nb)
      ensures nb != RELSEG_SIZE ==>
                segs == old(segs) && Walked(segs0, already, segs, chain, last, lengthOk, canOpen, seg)
      ensures nb == RELSEG_SIZE ==> seg < EndSeg(segs0, last)
      ensures nb == RELSEG_SIZE && there ==> Walked(segs0, already, segs, chain, last, lengthOk, canOpen, seg + 1)
      ensures nb == RELSEG_SIZE && !there ==>
                && |chain| >= already && !CanOpenAll(canOpen, already, StopSeg(segs0, last, lengthOk))
                && Flat(segs, last) == Flat(segs0, last) && segs == segs0
    {
      there := true;
      nb := if lengthOk(seg) then |segs[seg]| / BLCKSZ else 0;
      chain := chain[seg := nb];
      if nb == RELSEG_SIZE {
        ghost var segs1, chain1 := segs, chain;
        there := OpenNext(seg + 1, lengthOk, canOpen);
        WalkGoesOn(segs0, already, segs1, chain1, last, lengthOk, canOpen, seg, segs, chain);
      }
    }

    /** The next segment is opened if it is not yet. */
    method OpenNext(seg: nat, lengthOk: nat -> bool, canOpen: nat -> bool) returns (ok: bool)
      requires Valid() && 0 < seg <= |chain|
      modifies this`segs, this`chain
      ensures Valid() && Blocks() == old(Blocks()) && segs == if ok then Made(old(segs), seg) else old(segs)
      ensures seg <= |old(chain)| <= |chain| && chain[..|old(chain)|] == old(chain)
      ensures EndSeg(segs, last) == EndSeg(old(segs), last)
      ensures ok <==> seg < |old(chain)| || canOpen(seg)
      ensures |chain| == if ok then Reached(|old(chain)|, seg) else |old(chain)|
    {
      ok := true;
      assert SegOk(segs, last, last);
      if seg == |chain| {
        ok := OpenSeg(seg, true, lengthOk, canOpen);
      }
    }

    /** md_fd_get_seg: makes sure the segment of block `n` is open; only that one may be created. */
    method GetSeg(n: nat, lengthOk: nat -> bool, canOpen: nat -> bool) returns (ok: bool)
      requires Valid()
      modifies this`segs, this`chain
      ensures Valid() && Blocks() == old(Blocks()) && |chain| >= |old(chain)|
      ensures ok ==> n / RELSEG_SIZE < |chain| && n / RELSEG_SIZE in segs
      ensures n / RELSEG_SIZE < |old(chain)| ==> ok && segs == old(segs) && chain == old(chain)
      ensures ok <==> Reachable(old(segs), canOpen, |old(chain)|, n / RELSEG_SIZE)
      ensures segs == if ok then Made(old(segs), n / RELSEG_SIZE) else old(segs)
      ensures Lengthened(old(chain), chain, segs, lengthOk)
      ensures if ok then |chain| == Reached(|old(chain)|, n / RELSEG_SIZE)
              else !ReachableAt(old(segs), canOpen, n / RELSEG_SIZE, |chain|)
      ensures n < |Blocks()| ==> (ok <==> CanOpenAll(canOpen, |old(chain)|, n / RELSEG_SIZE))
    {
      var target := n / RELSEG_SIZE;
      var i := 0;
      if n < |Blocks()| {
        InRangeReachable(segs, last, n, canOpen, |chain|);
      }
      while i < target
        invariant Valid() && Blocks() == old(Blocks()) && |chain| >= |old(chain)|
        invariant i <= target && i < |chain| && (|chain| > |old(chain)| ==> |chain| == i + 1)
        invariant target < |old(chain)| ==> segs == old(segs) && chain == old(chain)
        invariant forall s :: |old(chain)| <= s < |chain| ==> ReachableAt(old(segs), canOpen, target, s)
        invariant segs == if i < target then old(segs) else Made(old(segs), target)
        invariant Lengthened(old(chain), chain, segs, lengthOk)
      {
        if i + 1 == |chain| {
          var there := OpenSeg(i + 1, i + 1 == target, lengthOk, canOpen);
          if !there {
            assert !ReachableAt(old(segs), canOpen, target, i + 1);
            return false;
          }
        }
        i := i + 1;
      }
      ok := true;
    }

    /** md_extend: one block more, or the same blocks if the write falls short.
        `seeks` is whether the seek to the end succeeds, `got` what the write
        returns, `cut` whether a failed write can be cut off. If the walk stopped
        at a full segment whose length query failed, the block goes behind the
        end of that segment. */
    method MdExtend(buffer: Bytes, seeks: bool, got: int, cut: bool, lengthOk: nat -> bool, canOpen: nat -> bool)
      returns (r: Status)
      requires Valid() && |buffer| == BLCKSZ && -1 <= got <= BLCKSZ
      modifies this
      ensures r == Error <==> !CanOpenAll(canOpen, |old(chain)|, StopSeg(old(segs), old(last), lengthOk))
      ensures r != Error ==> (r == Success <==> seeks && got == BLCKSZ)
      ensures var s := StopSeg(old(segs), old(last), lengthOk);
              && (Valid() <==> r == Error || !IsFull(old(segs), s) || !seeks || got <= 0 || (got < BLCKSZ && cut))
              && (!Valid() ==> s in segs && |segs[s]| == SEG_BYTES + got && Broken(segs))
              && segs == (if r == Error then old(segs) else if !seeks then Made(old(segs), s)
                          else ExtendedAt(old(segs), s, buffer, got, cut))
              && (r == Success && lengthOk(s) ==>
                    last < |chain| && last in segs && chain[last] == |segs[last]| / BLCKSZ)
      ensures Valid() && r == Success ==> Blocks() == old(Blocks()) + [buffer]
      ensures Valid() && r != Success ==> Blocks() == old(Blocks())
    {
      var ok, n := MdNBlocks(lengthOk, canOpen);
      if !ok {
        return Error;
      }
      var _ := GetSeg(n, lengthOk, canOpen);
      var v := n / RELSEG_SIZE;
      assert SegOk(segs, last, v) && SegOk(old(segs), old(last), v);
      if !seeks {
        return Fail;
      }
      r := if got == BLCKSZ then Success else Fail;
      AppendTo(v, n, buffer, got, cut);
    }

    /** The write of md_extend to segment `v`, and its count hint. */
    method AppendTo(v: nat, n: nat, buffer: Bytes, got: int, cut: bool)
      requires Valid() && v in segs && v < |chain| && (|segs[v]| < SEG_BYTES ==> v == last)
      requires |buffer| == BLCKSZ && -1 <= got <= BLCKSZ
      modifies this`segs, this`chain
      ensures segs == old(segs)[v := Extended(old(segs)[v], buffer, got, cut)] && |chain| == |old(chain)|
      ensures Valid() <==> !IsFull(old(segs), v) || got <= 0 || (got < BLCKSZ && cut)
      ensures !Valid() ==> |segs[v]| == SEG_BYTES + got && Broken(segs)
      ensures Valid() ==> Blocks() == if got == BLCKSZ then old(Blocks()) + [buffer] else old(Blocks())
      ensures got == BLCKSZ && v == last && |old(segs)[v]| < SEG_BYTES && n == |old(Blocks())| ==>
                chain[v] == |segs[v]| / BLCKSZ
    {
      assert SegOk(segs, last, v);
      ghost var k := |segs[v]| / BLCKSZ;
      DivModFacts(|segs[v]|, BLCKSZ);
      if |segs[v]| == SEG_BYTES {
        Overrun(v, buffer, got, cut);
      } else if got == BLCKSZ {
        WriteLast(v, buffer, cut);
      } else {
        TearLast(v, buffer, got, cut);
      }
      if got == BLCKSZ {
        if k < RELSEG_SIZE {
          NextCount(v, k);
        }
        chain := chain[v := if (n + 1) % RELSEG_SIZE == 0 then RELSEG_SIZE else (n + 1) % RELSEG_SIZE];
      }
    }

    /** The block goes behind the end of a full segment. */
    method Overrun(v: nat, buffer: Bytes, got: int, cut: bool)
      requires Valid() && v in segs && |segs[v]| == SEG_BYTES && |buffer| == BLCKSZ && -1 <= got <= BLCKSZ
      modifies this`segs
      ensures segs == old(segs)[v := Extended(old(segs)[v], buffer, got, cut)]
      ensures if got <= 0 || (got < BLCKSZ && cut) then segs == old(segs)
              else v in segs && |segs[v]| == SEG_BYTES + got && Broken(segs)
      ensures forall i :: 0 <= i < |chain| ==> i in segs
    {
      DivModFacts(|segs[v]|, BLCKSZ);
      var left := Extended(segs[v], buffer, got, cut);
      assert 0 < got < BLCKSZ && cut ==> left == segs[v];
      segs := segs[v := left];
      if got > 0 && (got == BLCKSZ || !cut) {
        OverrunBreaks(segs, v);
      }
    }

    /** The whole block is written behind the last whole block. */
    method WriteLast(v: nat, buffer: Bytes, cut: bool)
      requires Valid() && |buffer| == BLCKSZ && v == last && last in segs && |segs[last]| < SEG_BYTES
      modifies this`segs
      ensures Valid() && Blocks() == old(Blocks()) + [buffer]
      ensures segs == old(segs)[v := Extended(old(segs)[v], buffer, BLCKSZ, cut)]
      ensures |segs[last]| / BLCKSZ == |old(segs)[last]| / BLCKSZ + 1
    {
      var bytes := segs[v];
      DivModFacts(|bytes|, BLCKSZ);
      ExtendStep(segs, last, buffer);
      segs := segs[v := Extended(bytes, buffer, BLCKSZ, cut)];
      assert |Blocks()| == NBlocks(segs, last);
    }

    /** A write that falls short leaves at most a part of a block behind the last whole one. */
    method TearLast(v: nat, buffer: Bytes, got: int, cut: bool)
      requires Valid() && v == last && |buffer| == BLCKSZ && -1 <= got < BLCKSZ && last in segs
               && |segs[last]| < SEG_BYTES
      modifies this`segs
      ensures Valid() && Blocks() == old(Blocks())
      ensures segs == old(segs)[v := Extended(old(segs)[v], buffer, got, cut)]
    {
      var bytes := segs[v];
      DivModFacts(|bytes|, BLCKSZ);
      var left := Extended(bytes, buffer, got, cut);
      TailStep(segs, last, left);
      segs := segs[v := left];
    }

    /** md_read: a block of the relation, or zeros behind its end; a part of a
        block there is an error, except in a relation without blocks. `fails`
        is whether the seek or the read fails. */
    method MdRead(n: nat, fails: bool, lengthOk: nat -> bool, canOpen: nat -> bool) returns (r: Status, data: Bytes)
      requires Valid()
      modifies this
      ensures Valid() && Blocks() == old(Blocks())
      ensures segs == if r == Error then old(segs) else Made(old(segs), n / RELSEG_SIZE)
      ensures r == Error <==> !Reachable(old(segs), canOpen, |old(chain)|, n / RELSEG_SIZE)
      ensures r == Success ==> data == if n < |Blocks()| then Blocks()[n] else seq(BLCKSZ, _ => 0)
      ensures r != Error ==> (r == Fail <==> fails || (0 < n && |Blocks()| <= n && HasBytesAt(old(segs), n)))
    {
      var ok := GetSeg(n, lengthOk, canOpen);
      if !ok {
        return Error, [];
      }
      if fails {
        return Fail, [];
      }
      var bytes, pos := segs[n / RELSEG_SIZE], BLCKSZ * (n % RELSEG_SIZE);
      if n < |Blocks()| {
        InRange(segs, last, n);
      }
      var nbytes := if pos + BLCKSZ <= |bytes| then BLCKSZ else if pos < |bytes| then |bytes| - pos else 0;
      BehindEnd(segs, last, n);
      if nbytes == BLCKSZ {
        return Success, bytes[pos..pos + BLCKSZ];
      }
      if nbytes == 0 {
        return Success, seq(BLCKSZ, _ => 0);
      }
      if n == 0 {
        OnlySegment(segs, last);
        var _, m := MdNBlocks(lengthOk, canOpen);
        if m == 0 {
          return Success, seq(BLCKSZ, _ => 0);
        }
      }
      r, data := Fail, [];
    }

    /** md_write: in range, replaces one block; a short write may tear that block
        but no other. At or behind the end, the file grows, with zeros in
        between. Into a segment behind the first that is not full, it leaves a
        relation whose segments no longer stand for one sequence of blocks. */
    method MdWrite(n: nat, buffer: Bytes, seeks: bool, got: int, lengthOk: nat -> bool, canOpen: nat -> bool)
      returns (r: Status)
      requires Valid() && |buffer| == BLCKSZ && -1 <= got <= BLCKSZ
      modifies this
      ensures r == Error <==> !Reachable(old(segs), canOpen, |old(chain)|, n / RELSEG_SIZE)
      ensures r != Error ==> (r == Success <==> seeks && got == BLCKSZ)
      ensures Valid() <==> r == Error || !seeks || got <= 0 || n / RELSEG_SIZE <= EndSeg(old(segs), old(last))
      ensures r == Error || !seeks || got <= 0 ==> Blocks() == old(Blocks())
      ensures var made := Made(old(segs), n / RELSEG_SIZE);
              && n / RELSEG_SIZE in made
              && segs == (if r == Error then old(segs) else if !seeks || got <= 0 then made
                          else AfterWrite(made, n, buffer, got))
      ensures Lengthened(old(chain), chain, Made(old(segs), n / RELSEG_SIZE), lengthOk)
      ensures !Valid() ==> Broken(segs)
      ensures Valid() ==> Rewritten(old(Blocks()), Blocks(), n, buffer, r == Success)
    {
      var ok := GetSeg(n, lengthOk, canOpen);
      if !ok {
        return Error;
      }
      if !seeks {
        return Fail;
      }
      r := if got == BLCKSZ then Success else Fail;
      assert SegOk(old(segs), old(last), last);
      if got > 0 {
        WriteAt(n, buffer, got);
      }
    }

    /** The first `got` bytes of the buffer go where block `n` is in its segment. */
    method WriteAt(n: nat, buffer: Bytes, got: nat)
      requires Valid() && n / RELSEG_SIZE in segs && |buffer| == BLCKSZ && 0 < got <= BLCKSZ
      modifies this`segs, this`last
      ensures segs == AfterWrite(old(segs), n, buffer, got)
      ensures Valid() <==> n / RELSEG_SIZE <= EndSeg(old(segs), old(last))
      ensures !Valid() ==> Broken(segs)
      ensures Valid() ==> Rewritten(old(Blocks()), Blocks(), n, buffer, got == BLCKSZ)
    {
      var v, pos := n / RELSEG_SIZE, BLCKSZ * (n % RELSEG_SIZE);
      ghost var segs0, last0 := segs, last;
      segs := segs[v := Written(Padded(segs[v], pos), pos, buffer, got)];
      assert segs == AfterWrite(segs0, n, buffer, got);
      last := if v == last0 + 1 && EndSeg(segs0, last0) == v then v else last0;
      Wrote(segs0, last0, n, buffer, got, chain);
    }

    /** md_truncate: the first `n` blocks stay; later segments that are open are removed.
        `cut` says whether the file of the new last segment can be shortened. A
        count that falls short goes with segments that have not been opened. */
    method MdTruncate(n: int, cut: bool, lengthOk: nat -> bool, canOpen: nat -> bool) returns (st: Status, r: int)
      requires Valid()
      modifies this
      ensures r == if st == Success then n else -1
      ensures st == Error <==> !CanOpenAll(canOpen, |old(chain)|, StopSeg(old(segs), old(last), lengthOk))
      ensures var count := CountOf(old(segs), old(last), lengthOk);
              && (st != Error ==> (st == Fail <==> n < 0 || n > count || (n < count && !cut)))
              && (st != Success || n == count ==> Valid() && Blocks() == old(Blocks()))
              && (st == Success ==> 0 <= n <= |old(Blocks())|)
              && (st == Success ==>
                    (Valid() && Blocks() == old(Blocks())[..n]
                     <==> if n == count then n == |old(Blocks())|
                          else AllOpened(old(segs), Reached(|old(chain)|, StopSeg(old(segs), old(last), lengthOk)))))
              && (st == Success && n < count ==>
                    |chain| == n / RELSEG_SIZE + 1
                    && (Valid() <==> AllOpened(old(segs),
                                               Reached(|old(chain)|, StopSeg(old(segs), old(last), lengthOk)))))
      ensures lengthOk(StopSeg(old(segs), old(last), lengthOk)) ==>
                Valid() && (st == Success ==> Blocks() == old(Blocks())[..n])
      ensures !Valid() ==> Broken(segs)
      ensures forall i :: 0 <= i < |old(chain)| && i >= |chain| ==> i !in segs
      ensures var count, s := CountOf(old(segs), old(last), lengthOk), StopSeg(old(segs), old(last), lengthOk);
              if st == Error then segs == old(segs)
              else if st == Success && n < count then
                && (forall i :: DroppedAt(Made(old(segs), s), segs, Reached(|old(chain)|, s), n, i))
                && CutChain(chain, n)
              else segs == Made(old(segs), s)
    {
      var ok, cur := MdNBlocks(lengthOk, canOpen);
      if !ok {
        return Error, -1;
      }
      CountRight(old(segs), old(last), lengthOk);
      SameOpened(old(segs), segs, |chain|);
      if lengthOk(cur / RELSEG_SIZE) {
        WalkOpensAll(old(segs), old(last), lengthOk, |old(chain)|);
      }
      if n < 0 || n > cur {
        return Fail, -1;
      }
      if n == cur {
        return Success, n;
      }
      var done := CutTo(n, cut);
      st, r := if done then Success else Fail, if done then n else -1;
    }

    /** The loop over the chain, once it is known that something is to be cut. */
    method CutTo(n: nat, cut: bool) returns (done: bool)
      requires Valid() && n < |Blocks()| && n / RELSEG_SIZE < |chain|
      modifies this
      ensures done <==> cut
      ensures !done ==> Valid() && Blocks() == old(Blocks()) && segs == old(segs)
      ensures done ==> |chain| == n / RELSEG_SIZE + 1
      ensures done && AllOpened(old(segs), |old(chain)|) ==> Valid() && Blocks() == old(Blocks())[..n]
      ensures done && !AllOpened(old(segs), |old(chain)|) ==> !Valid() && Broken(segs)
      ensures forall i :: |chain| <= i < |old(chain)| ==> i !in segs
      ensures done ==> forall i :: DroppedAt(old(segs), segs, |old(chain)|, n, i)
      ensures done ==> chain == old(chain)[..n / RELSEG_SIZE] + [n % RELSEG_SIZE]
    {
      InRange(segs, last, n);
      var segs';
      done, segs' := DropSegments(segs, |chain|, n, cut);
      if !done {
        return;
      }
      CutResult(segs, chain, last, n, segs');
      var s, k := n / RELSEG_SIZE, n % RELSEG_SIZE;
      segs, chain, last := segs', chain[..s + 1][s := k], s;
    }
  }

  /** What the loop leaves: the first `n` blocks, unless a segment with bytes was not open. */
  lemma CutResult(segs: map<nat, Bytes>, chain: seq<nat>, last: nat, n: nat, segs': map<nat, Bytes>)
    requires RelOk(segs, chain, last) && n < NBlocks(segs, last) && n / RELSEG_SIZE < |chain|
    requires forall i :: DroppedAt(segs, segs', |chain|, n, i)
    ensures var s := n / RELSEG_SIZE;
            && (forall i :: 0 <= i < |chain| ==> (i in segs' <==> i <= s))
            && (forall i :: i >= |chain| ==> SameOrNew(segs, segs', i))
            && (AllOpened(segs, |chain|) ==>
                  (forall i :: SegOk(segs', s, i)) && Flat(segs', s) == Flat(segs, last)[..n])
            && (!AllOpened(segs, |chain|) ==> Broken(segs'))
  {
    var s, k := n / RELSEG_SIZE, n % RELSEG_SIZE;
    InRange(segs, last, n);
    DivModFacts(n, RELSEG_SIZE);
    forall i: nat
      ensures s < i < |chain| ==> i !in segs'
      ensures i < s ==> i in segs && i in segs' && segs'[i] == segs[i]
      ensures i >= |chain| ==> (i in segs' <==> i in segs) && (i in segs ==> segs'[i] == segs[i])
      ensures i == s ==> i in segs' && segs'[i] == segs[i][..k * BLCKSZ]
    {
      assert SegOk(segs, last, i) && DroppedAt(segs, segs', |chain|, n, i);
    }
    if AllOpened(segs, |chain|) {
      CutStep(segs, last, s, k, segs');
    } else {
      var i: nat :| i >= |chain| && i in segs && segs[i] != [];
      GapBreaks(segs', s, i);
    }
  }

  // ---------- where it goes wrong ----------

  /** One full segment whose length cannot be queried: an extension puts its block
      behind the limit, where the next count is a fatal error. */
  method ExtendBehindLimit(block: Bytes) returns (r: Relation, st: Status)
    requires |block| == BLCKSZ
    ensures fresh(r) && st == Success && 0 in r.segs && |r.segs[0]| / BLCKSZ > RELSEG_SIZE && Broken(r.segs)
  {
    var full := seq(SEG_BYTES, _ => 0);
    r := new Relation(map[0 := full], 0);
    st := r.MdExtend(block, true, BLCKSZ, true, s => s != 0, _ => true);
  }

  /** One block and a failed query: cutting to nothing succeeds and cuts nothing. */
  method TruncateNothing(block: Bytes) returns (r: Relation, st: Status, n: int)
    requires |block| == BLCKSZ
    ensures fresh(r) && st == Success && n == 0 && r.Valid() && |r.Blocks()| == 1
  {
    r := new Relation(map[0 := block], 0);
    st, n := r.MdTruncate(0, true, _ => false, _ => true);
  }

  /** Three full segments of which the second cannot be queried: the cut leaves the
      third, which was never opened, behind the new end. */
  method TruncateShort() returns (r: Relation, st: Status, n: int)
    ensures fresh(r) && st == Success && n == RELSEG_SIZE - 1 && 2 in r.segs && |r.segs[2]| == SEG_BYTES
            && Broken(r.segs)
  {
    var full := seq(SEG_BYTES, _ => 0);
    r := new Relation(map[0 := full, 1 := full, 2 := full], 2);
    ghost var disk: map<nat, Bytes> := r.segs;
    var lengthOk := (s: nat) => s != 1;
    assert StopFrom(lengthOk, 1, 3) == 1 && StopSeg(disk, 2, lengthOk) == 1;
    st, n := r.MdTruncate(RELSEG_SIZE - 1, true, lengthOk, _ => true);
    assert CountOf(disk, 2, lengthOk) == RELSEG_SIZE && Made(disk, 1) == disk;
    assert DroppedAt(Made(disk, 1), r.segs, Reached(1, 1), RELSEG_SIZE - 1, 2);
  }

  /** An empty relation: a write of the first block of segment 1 leaves segment 0 short. */
  method WriteBehindGap(block: Bytes) returns (r: Relation, st: Status)
    requires |block| == BLCKSZ
    ensures fresh(r) && st == Success && Broken(r.segs)
  {
    r := new Relation(map[0 := []], 0);
    st := r.MdWrite(RELSEG_SIZE, block, true, BLCKSZ, _ => true, _ => true);
  }

  ghost function AfterWrite(segs: map<nat, Bytes>, n: nat, buffer: Bytes, got: int): map<nat, Bytes>
    requires n / RELSEG_SIZE in segs && got <= |buffer|
  {
    var v, pos := n / RELSEG_SIZE, BLCKSZ * (n % RELSEG_SIZE);
    segs[v := Written(Padded(segs[v], pos), pos, buffer, got)]
  }

  /** What one write to a segment file does to the sequence of blocks. */
  lemma Wrote(segs: map<nat, Bytes>, last: nat, n: nat, buffer: Bytes, got: int, chain: seq<nat>)
    requires RelOk(segs, chain, last) && n / RELSEG_SIZE in segs && |buffer| == BLCKSZ && 0 < got <= BLCKSZ
    ensures var v := n / RELSEG_SIZE;
            var last' := if v == last + 1 && EndSeg(segs, last) == v then v else last;
            var segs' := AfterWrite(segs, n, buffer, got);
            && (RelOk(segs', chain, last') <==> v <= EndSeg(segs, last))
            && (v > EndSeg(segs, last) ==> Broken(segs'))
            && (RelOk(segs', chain, last') ==>
                  Rewritten(Flat(segs, last), Flat(segs', last'), n, buffer, got == BLCKSZ))
  {
    var v := n / RELSEG_SIZE;
    if n < NBlocks(segs, last) {
      WroteInRange(segs, last, n, buffer, got);
    } else {
      EndIsNear(segs, last, n);
      if v == last {
        WroteHole(segs, last, n, buffer, got);
      } else if v == last + 1 && EndSeg(segs, last) == v {
        DivModUnique(|segs[last]|, BLCKSZ, RELSEG_SIZE, 0);
        NextSegment(segs, last);
        FlatLength(segs, last, v);
        WroteHole(segs, v, n, buffer, got);
      } else {
        assert SegOk(segs, last, EndSeg(segs, last));
        GapBreaks(AfterWrite(segs, n, buffer, got), EndSeg(segs, last), v);
      }
    }
  }

  lemma WroteInRange(segs: map<nat, Bytes>, last: nat, n: nat, buffer: Bytes, got: int)
    requires (forall i :: SegOk(segs, last, i)) && n < NBlocks(segs, last) && |buffer| == BLCKSZ && 0 < got <= BLCKSZ
    ensures n / RELSEG_SIZE in segs && n / RELSEG_SIZE <= last
    ensures var segs' := AfterWrite(segs, n, buffer, got);
            (forall i :: SegOk(segs', last, i))
              && Rewritten(Flat(segs, last), Flat(segs', last), n, buffer, got == BLCKSZ)
  {
    InRange(segs, last, n);
    WriteStep(segs, last, n, buffer, got);
  }

  lemma WroteHole(segs: map<nat, Bytes>, last: nat, n: nat, buffer: Bytes, got: int)
    requires (forall i :: SegOk(segs, last, i)) && n >= NBlocks(segs, last) && n / RELSEG_SIZE == last
    requires |buffer| == BLCKSZ && 0 < got <= BLCKSZ
    ensures last in segs
    ensures var segs' := AfterWrite(segs, n, buffer, got);
            (forall i :: SegOk(segs', last, i))
              && Rewritten(Flat(segs, last), Flat(segs', last), n, buffer, got == BLCKSZ)
  {
    EndIsNear(segs, last, n);
    DivModFacts(n, RELSEG_SIZE);
    HoleStep(segs, last, n % RELSEG_SIZE, buffer, got);
    var segs' := AfterWrite(segs, n, buffer, got);
    assert segs' == segs[last := Written(Padded(segs[last], n % RELSEG_SIZE * BLCKSZ), n % RELSEG_SIZE * BLCKSZ,
                                         buffer, got)];
    assert last * RELSEG_SIZE + n % RELSEG_SIZE == n;
  }

  lemma FlatLength(segs: map<nat, Bytes>, last: nat, last': nat)
    requires Flat(segs, last) == Flat(segs, last')
    ensures NBlocks(segs, last) == NBlocks(segs, last')
  {
    assert |Flat(segs, last)| == |Flat(segs, last')|;
  }

  /** On the way to an existing block every segment exists. */
  lemma InRangeReachable(segs: map<nat, Bytes>, last: nat, n: nat, canOpen: nat -> bool, lo: nat)
    requires (forall i :: SegOk(segs, last, i)) && n < NBlocks(segs, last)
    ensures Reachable(segs, canOpen, lo, n / RELSEG_SIZE) <==> CanOpenAll(canOpen, lo, n / RELSEG_SIZE)
  {
    var target := n / RELSEG_SIZE;
    InRange(segs, last, n);
    if CanOpenAll(canOpen, lo, target) {
      forall s | lo <= s <= target
        ensures ReachableAt(segs, canOpen, target, s)
      {
        assert SegOk(segs, last, s);
      }
    }
    if Reachable(segs, canOpen, lo, target) {
      forall s | lo <= s <= target
        ensures canOpen(s)
      {
        assert ReachableAt(segs, canOpen, target, s);
      }
    }
  }

  /** The file of block `n` has bytes at the block's position. */
  ghost predicate HasBytesAt(segs: map<nat, Bytes>, n: nat) {
    n / RELSEG_SIZE in segs && (n % RELSEG_SIZE) * BLCKSZ < |segs[n / RELSEG_SIZE]|
  }

  /** A relation whose first segment holds less than a block has no other in use. */
  lemma OnlySegment(segs: map<nat, Bytes>, last: nat)
    requires (forall i :: SegOk(segs, last, i)) && 0 in segs && |segs[0]| < BLCKSZ
    ensures last == 0 && EndSeg(segs, last) == 0 && NBlocks(segs, last) == 0
  {
    assert SegOk(segs, last, 0);
  }

  /** A block at or behind the end lies in the last segment or behind it. */
  lemma EndIsNear(segs: map<nat, Bytes>, last: nat, n: nat)
    requires (forall i :: SegOk(segs, last, i)) && n >= NBlocks(segs, last)
    ensures last in segs && n / RELSEG_SIZE >= last
    ensures n / RELSEG_SIZE == last ==> |segs[last]| / BLCKSZ <= n % RELSEG_SIZE && |segs[last]| < SEG_BYTES
  {
    assert SegOk(segs, last, last);
    DivModFacts(n, RELSEG_SIZE);
    DivModFacts(|segs[last]|, BLCKSZ);
  }

  /** The hint kept for the segment just written is its number of blocks. */
  lemma NextCount(q: nat, k: nat)
    requires k < RELSEG_SIZE
    ensures var n := q * RELSEG_SIZE + k + 1;
            k + 1 == if n % RELSEG_SIZE == 0 then RELSEG_SIZE else n % RELSEG_SIZE
  {
    if k + 1 < RELSEG_SIZE {
      Located(q, k + 1);
    } else {
      Located(q + 1, 0);
    }
  }

  /** A block at or behind the end has no whole block of bytes. */
  lemma BehindEnd(segs: map<nat, Bytes>, last: nat, n: nat)
    requires (forall i :: SegOk(segs, last, i)) && n / RELSEG_SIZE in segs
    ensures n >= NBlocks(segs, last) ==> |segs[n / RELSEG_SIZE]| < (n % RELSEG_SIZE) * BLCKSZ + BLCKSZ
  {
    var q, k := n / RELSEG_SIZE, n % RELSEG_SIZE;
    DivModFacts(n, RELSEG_SIZE);
    assert SegOk(segs, last, q) && SegOk(segs, last, last);
    DivModFacts(|segs[last]|, BLCKSZ);
  }

  /** Where segment `i` stands once the loop has passed the first `upto` segments. */
  ghost predicate DroppedAt(segs: map<nat, Bytes>, cur: map<nat, Bytes>, upto: nat, n: nat, i: nat) {
    var s := n / RELSEG_SIZE;
    if s < i < upto then i !in cur
    else if i == s && s < upto then
      s in segs && (n % RELSEG_SIZE) * BLCKSZ <= |segs[s]| && s in cur
        && cur[s] == segs[s][..(n % RELSEG_SIZE) * BLCKSZ]
    else (i in cur <==> i in segs) && (i in segs ==> cur[i] == segs[i])
  }

  /** The loop of md_truncate over the chain: earlier segments stay, the one that
      holds block `n` is shortened, later ones are deleted. */
  method DropSegments(segs: map<nat, Bytes>, total: nat, n: nat, cut: bool) returns (done: bool, cur: map<nat, Bytes>)
    requires forall i :: 0 <= i < total ==> i in segs
    requires n / RELSEG_SIZE in segs && (n % RELSEG_SIZE) * BLCKSZ <= |segs[n / RELSEG_SIZE]|
    requires n / RELSEG_SIZE < total
    ensures done <==> cut
    ensures done ==> forall i :: DroppedAt(segs, cur, total, n, i)
  {
    var prior := 0;
    cur := segs;
    DivModFacts(n, RELSEG_SIZE);
    for i := 0 to total
      invariant prior == i * RELSEG_SIZE && (n / RELSEG_SIZE < i ==> cut)
      invariant forall j :: DroppedAt(segs, cur, i, n, j)
    {
      ghost var before := cur;
      assert DroppedAt(segs, cur, i, n, i);
      if prior > n {
        cur := cur - {i};
      } else if prior + RELSEG_SIZE > n {
        Located(i, n - prior);
        if !cut {
          return false, segs;
        }
        var keep := (n - prior) * BLCKSZ;
        cur := cur[i := cur[i][..keep]];
      }
      var next := i + 1;
      forall j
        ensures DroppedAt(segs, cur, next, n, j)
      {
        assert DroppedAt(segs, before, i, n, j);
      }
      prior := prior + RELSEG_SIZE;
    }
    done := true;
  }
}
