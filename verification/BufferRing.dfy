/** The buffer replacement ring: descriptors linked by index in order of release,
    with shared reference counts and the private counts of any number of backends. */
module BufferRing {
  import opened Lists

  const INVALID: int := -3

  datatype BufferDesc = BufferDesc(next: int, prev: int, free: bool, refcount: nat)

  /** Item `i` of the ring, or the header. */
  function RingItem(ring: seq<nat>, header: nat, i: int): nat {
    if 0 <= i < |ring| then ring[i] else header
  }

  ghost predicate RingAt(d: seq<BufferDesc>, header: nat, ring: seq<nat>, i: nat)
    requires i < |ring|
  {
    && ring[i] < header < |d|
    && d[ring[i]].next == RingItem(ring, header, i + 1)
    && d[ring[i]].prev == RingItem(ring, header, i - 1)
  }

  ghost predicate RingOk(d: seq<BufferDesc>, ring: seq<nat>) {
    && |d| >= 2
    && var header := |d| - 1;
    && d[header].next == RingItem(ring, header, 0) && d[header].prev == RingItem(ring, header, |ring| - 1)
    && (forall i :: 0 <= i < |ring| ==> RingAt(d, header, ring, i))
    && (forall i, j :: 0 <= i < j < |ring| ==> ring[i] != ring[j])
  }

  /** The backends that hold a pin on buffer `b`. */
  ghost function Pinners(priv: seq<seq<nat>>, b: nat): set<nat> {
    set p: nat | p < |priv| && b < |priv[p]| && priv[p][b] > 0
  }

  /** In the ring, pinned, or handed out and not yet pinned. */
  ghost predicate BufOk(d: seq<BufferDesc>, ring: seq<nat>, priv: seq<seq<nat>>, b: nat) {
    b < |d| - 1 ==>
      && d[b].refcount == |Pinners(priv, b)|
      && (b in ring <==> d[b].free)
      && (d[b].free ==> d[b].refcount == 0)
      && (!d[b].free ==> d[b].next == INVALID && d[b].prev == INVALID)
  }

  ghost predicate PoolOk(d: seq<BufferDesc>, ring: seq<nat>, priv: seq<seq<nat>>) {
    && RingOk(d, ring)
    && (forall b :: BufOk(d, ring, priv, b))
    && forall p :: 0 <= p < |priv| ==> |priv[p]| == |d| - 1
  }

  // ---------- relinking ----------

  function Unlinked(d: seq<BufferDesc>, b: nat): (r: seq<BufferDesc>)
    requires b < |d| && 0 <= d[b].next < |d| && 0 <= d[b].prev < |d|
    ensures |r| == |d|
  {
    var d1 := d[d[b].next := d[d[b].next].(prev := d[b].prev)];
    var d2 := d1[d[b].prev := d1[d[b].prev].(next := d[b].next)];
    d2[b := d2[b].(next := INVALID, prev := INVALID, free := false)]
  }

  function Appended(d: seq<BufferDesc>, b: nat): (r: seq<BufferDesc>)
    requires b < |d| - 1 && 0 <= d[|d| - 1].prev < |d|
    ensures |r| == |d|
  {
    var header, last := |d| - 1, d[|d| - 1].prev;
    var d1 := d[b := d[b].(prev := last, next := header)];
    var d2 := d1[header := d1[header].(prev := b)];
    var d3 := d2[last := d2[last].(next := b)];
    d3[b := d3[b].(free := true)]
  }

  /** Two states differ at `b` at most in the links. */
  ghost predicate SameButLinks(d: seq<BufferDesc>, d': seq<BufferDesc>, b: nat) {
    b < |d| && b < |d'| ==> d'[b].free == d[b].free && d'[b].refcount == d[b].refcount
                            && (d[b].next == INVALID && d[b].prev == INVALID ==> d'[b] == d[b])
  }

  lemma Bounds(d: seq<BufferDesc>, ring: seq<nat>, i: int)
    requires RingOk(d, ring)
    ensures RingItem(ring, |d| - 1, i) < |d|
    ensures RingItem(ring, |d| - 1, i) == |d| - 1 <==> !(0 <= i < |ring|)
  {
    var header := |d| - 1;
    if 0 <= i < |ring| {
      assert RingAt(d, header, ring, i);
    }
  }

  /** Members of the ring, and the header, have proper links. */
  lemma LinkedHere(d: seq<BufferDesc>, ring: seq<nat>, i: int)
    requires RingOk(d, ring)
    ensures var b := RingItem(ring, |d| - 1, i); b < |d| && 0 <= d[b].next < |d| && 0 <= d[b].prev < |d|
  {
    var header := |d| - 1;
    Bounds(d, ring, i);
    Bounds(d, ring, i - 1);
    Bounds(d, ring, i + 1);
    Bounds(d, ring, 0);
    Bounds(d, ring, |ring| - 1);
    if 0 <= i < |ring| {
      assert RingAt(d, header, ring, i);
    }
  }

  /** The links of item `j` of the ring once item `i` has been taken out. */
  lemma UnlinkAt(d: seq<BufferDesc>, ring: seq<nat>, i: nat, j: nat)
    requires RingOk(d, ring) && i < |ring| && j < |ring| - 1
    requires var b := ring[i]; b < |d| - 1 && 0 <= d[b].next < |d| && 0 <= d[b].prev < |d|
    ensures var header := |d| - 1; RingAt(Unlinked(d, ring[i]), header, Without(ring, i), j)
  {
    var header, k := |d| - 1, if j < i then j else j + 1;
    assert RingAt(d, header, ring, i) && RingAt(d, header, ring, k) && ring[k] != ring[i];
    assert Without(ring, i)[j] == ring[k];
    Bounds(d, ring, i - 1);
    Bounds(d, ring, i + 1);
    assert k != i - 1 && 0 < i ==> ring[k] != ring[i - 1];
    assert k != i + 1 && i + 1 < |ring| ==> ring[k] != ring[i + 1];
  }

  lemma UnlinkOk(d: seq<BufferDesc>, ring: seq<nat>, i: nat)
    requires RingOk(d, ring) && i < |ring|
    ensures var b := ring[i];
            && b < |d| - 1 && 0 <= d[b].next < |d| && 0 <= d[b].prev < |d|
            && RingOk(Unlinked(d, b), Without(ring, i))
            && (forall a :: a != b ==> SameButLinks(d, Unlinked(d, b), a))
            && Unlinked(d, b)[b] == BufferDesc(INVALID, INVALID, false, d[b].refcount)
  {
    var header := |d| - 1;
    var b := ring[i];
    assert RingAt(d, header, ring, i);
    LinkedHere(d, ring, i);
    LinkedHere(d, ring, i - 1);
    LinkedHere(d, ring, i + 1);
    Bounds(d, ring, i - 1);
    Bounds(d, ring, i + 1);
    var d', ring' := Unlinked(d, b), Without(ring, i);
    forall j | 0 <= j < |ring'|
      ensures RingAt(d', header, ring', j)
    {
      UnlinkAt(d, ring, i, j);
    }
    if 0 < i {
      assert RingAt(d, header, ring, i - 1) && ring[i - 1] != ring[i];
    }
    if i + 1 < |ring| {
      assert RingAt(d, header, ring, i + 1) && ring[i + 1] != ring[i];
    }
  }

  lemma AppendOk(d: seq<BufferDesc>, ring: seq<nat>, b: nat)
    requires RingOk(d, ring) && b < |d| - 1 && b !in ring
    ensures 0 <= d[|d| - 1].prev < |d|
    ensures RingOk(Appended(d, b), ring + [b])
    ensures forall a :: a != b ==> SameButLinks(d, Appended(d, b), a)
    ensures Appended(d, b)[b].free && Appended(d, b)[b].refcount == d[b].refcount
  {
    var header := |d| - 1;
    Bounds(d, ring, |ring| - 1);
    LinkedHere(d, ring, |ring| - 1);
    var d', ring' := Appended(d, b), ring + [b];
    forall j | 0 <= j < |ring'|
      ensures RingAt(d', header, ring', j)
    {
      if j < |ring| {
        assert RingAt(d, header, ring, j) && ring'[j] == ring[j] && ring[j] in ring;
        assert j < |ring| - 1 ==> ring[j] != ring[|ring| - 1];
      }
    }
    if |ring| > 0 {
      assert RingAt(d, header, ring, |ring| - 1);
    }
  }

  // ---------- private counts ----------

  /** Backend `p`'s count of buffer `b` becomes `v`. */
  function Counted(priv: seq<seq<nat>>, p: nat, b: nat, v: nat): seq<seq<nat>>
    requires p < |priv| && b < |priv[p]|
  {
    var row: seq<nat> := priv[p][b := v];
    priv[p := row]
  }

  lemma CountStep(priv: seq<seq<nat>>, p: nat, b: nat, v: nat)
    requires p < |priv| && b < |priv[p]|
    ensures Pinners(Counted(priv, p, b, v), b) == if v > 0 then Pinners(priv, b) + {p} else Pinners(priv, b) - {p}
    ensures forall a :: a != b ==> Pinners(Counted(priv, p, b, v), a) == Pinners(priv, a)
    ensures priv[p][b] == 0 && v > 0 ==> |Pinners(Counted(priv, p, b, v), b)| == |Pinners(priv, b)| + 1
    ensures priv[p][b] > 0 && v == 0 ==> |Pinners(Counted(priv, p, b, v), b)| == |Pinners(priv, b)| - 1
    ensures (priv[p][b] > 0 <==> v > 0) ==> |Pinners(Counted(priv, p, b, v), b)| == |Pinners(priv, b)|
  {
    var priv' := Counted(priv, p, b, v);
    assert Pinners(priv', b) == if v > 0 then Pinners(priv, b) + {p} else Pinners(priv, b) - {p};
    assert p in Pinners(priv, b) <==> priv[p][b] > 0;
    if priv[p][b] > 0 && v > 0 {
      assert Pinners(priv, b) + {p} == Pinners(priv, b);
    }
    if priv[p][b] == 0 && v == 0 {
      assert Pinners(priv, b) - {p} == Pinners(priv, b);
    }
  }

  // ---------- the pool ----------

  class BufferPool {
    const desc: array<BufferDesc>
    var priv: seq<seq<nat>>
    ghost var ring: seq<nat>

    ghost predicate Valid()
      reads this, desc
    {
      PoolOk(desc[..], ring, priv)
    }

    /** Handed out by get_free_buffer and not pinned since. */
    predicate Claimed(b: nat)
      requires b < desc.Length
      reads this, desc
    {
      desc[b].refcount == 0 && !desc[b].free
    }

    /** init_buffer_pool and init_freelist: all buffers free, in the order 1, 2, ..., n-1, 0. */
    constructor (n: nat, backends: nat)
      requires n >= 1
      ensures Valid() && desc.Length == n + 1 && |priv| == backends && fresh(desc)
      ensures ring == seq(n, i requires 0 <= i < n => if i + 1 < n then i + 1 else 0)
      ensures forall p, b :: 0 <= p < backends && 0 <= b < n ==> priv[p][b] == 0
    {
      var d := new BufferDesc[n + 1](_ => BufferDesc(INVALID, INVALID, false, 0));
      for i := 0 to n
        invariant forall j :: 0 <= j < i ==> d[j] == BufferDesc(j + 1, j - 1, true, 0)
        invariant d[n] == BufferDesc(INVALID, INVALID, false, 0)
      {
        d[i] := BufferDesc(i + 1, i - 1, true, 0);
      }
      d[0] := d[0].(prev := n - 1);
      d[n - 1] := d[n - 1].(next := 0);
      var first := d[0].next;
      d[n] := BufferDesc(first, 0, false, 0);
      d[first] := d[first].(prev := n);
      d[0] := d[0].(next := n);
      var none := seq(n, _ => 0);
      desc, priv := d, seq(backends, _ => none);
      ring := seq(n, i requires 0 <= i < n => if i + 1 < n then i + 1 else 0);
      new;
      InitialPool(desc[..], ring, priv);
    }

    /** pin_buffer, by backend `p`: the first pin of all takes the buffer out of the ring. */
    method Pin(p: nat, b: nat)
      requires Valid() && p < |priv| && b < desc.Length - 1 && !Claimed(b)
      modifies this`priv, this`ring, desc
      ensures Valid() && p < |old(priv)| && b < |old(priv)[p]|
      ensures priv == Counted(old(priv), p, b, old(priv)[p][b] + 1)
      ensures b !in ring && ring == Less(old(ring), b)
      ensures forall a :: 0 <= a < desc.Length - 1 && a != b ==> desc[a].refcount == old(desc[a].refcount)
    {
      assert BufOk(desc[..], ring, priv, b);
      if desc[b].refcount == 0 {
        Detach(b);
      }
      NothingLess(ring, b);
      CountPin(p, b);
    }

    /** The counting part of a pin. */
    method CountPin(p: nat, b: nat)
      requires Valid() && p < |priv| && b < desc.Length - 1 && b < |priv[p]| && b !in ring
      modifies this`priv, desc
      ensures Valid() && priv == Counted(old(priv), p, b, old(priv)[p][b] + 1)
      ensures forall a :: 0 <= a < desc.Length - 1 && a != b ==> desc[a].refcount == old(desc[a].refcount)
    {
      ghost var d0, priv0 := desc[..], priv;
      assert BufOk(d0, ring, priv0, b);
      CountStep(priv, p, b, priv[p][b] + 1);
      if priv[p][b] == 0 {
        desc[b] := desc[b].(refcount := desc[b].refcount + 1);
      }
      priv := Counted(priv, p, b, priv[p][b] + 1);
      KeepPool(d0, ring, priv0, desc[..], priv, b);
    }

    /** Takes a buffer out of the ring. */
    method Detach(b: nat)
      requires Valid() && b < desc.Length - 1 && desc[b].free
      modifies this`ring, desc
      ensures Valid() && b !in ring && desc[b] == BufferDesc(INVALID, INVALID, false, 0)
      ensures ring == Less(old(ring), b)
      ensures forall a :: 0 <= a < desc.Length - 1 && a != b ==> desc[a].refcount == old(desc[a].refcount)
    {
      ghost var d0 := desc[..];
      assert BufOk(d0, ring, priv, b);
      ghost var i :| 0 <= i < |ring| && ring[i] == b;
      UnlinkOk(d0, ring, i);
      var next, prev := desc[b].next, desc[b].prev;
      desc[next] := desc[next].(prev := prev);
      desc[prev] := desc[prev].(next := next);
      desc[b] := desc[b].(next := INVALID, prev := INVALID, free := false);
      assert desc[..] == Unlinked(d0, b);
      ring := Without(ring, i);
      DetachPool(d0, old(ring), priv, i);
      LessIsWithout(old(ring), i);
    }

    /** unpin_buffer: the last pin of all puts the buffer at the end of the ring. */
    method Unpin(p: nat, b: nat)
      requires Valid() && p < |priv| && b < desc.Length - 1 && b < |priv[p]| && priv[p][b] > 0
      modifies this`priv, this`ring, desc
      ensures Valid() && priv == Counted(old(priv), p, b, old(priv)[p][b] - 1)
      ensures Pinners(priv, b) == {} ==> ring == old(ring) + [b]
      ensures Pinners(priv, b) != {} ==> ring == old(ring)
      ensures forall a :: 0 <= a < desc.Length - 1 && a != b ==> desc[a].refcount == old(desc[a].refcount)
    {
      ghost var d0, priv0 := desc[..], priv;
      assert BufOk(d0, ring, priv0, b) && p in Pinners(priv0, b);
      CountStep(priv, p, b, priv[p][b] - 1);
      if priv[p][b] == 1 {
        desc[b] := desc[b].(refcount := desc[b].refcount - 1);
      }
      priv := Counted(priv, p, b, priv[p][b] - 1);
      KeepPool(d0, ring, priv0, desc[..], priv, b);
      assert BufOk(desc[..], ring, priv, b);
      if desc[b].refcount == 0 {
        Attach(b);
      }
    }

    /** add_buffer_to_freelist. */
    method Attach(b: nat)
      requires Valid() && b < desc.Length - 1 && Claimed(b)
      modifies this`ring, desc
      ensures Valid() && ring == old(ring) + [b] && desc[b].free
      ensures forall a :: 0 <= a < desc.Length - 1 && a != b ==> desc[a].refcount == old(desc[a].refcount)
    {
      ghost var d0 := desc[..];
      assert BufOk(d0, ring, priv, b);
      AppendOk(d0, ring, b);
      var header := desc.Length - 1;
      var last := desc[header].prev;
      desc[b] := desc[b].(prev := last, next := header);
      desc[header] := desc[header].(prev := b);
      desc[last] := desc[last].(next := b);
      desc[b] := desc[b].(free := true);
      assert desc[..] == Appended(d0, b);
      AttachPool(d0, ring, priv, b);
      ring := ring + [b];
    }

    /** get_free_buffer: the buffer unpinned longest ago, or -1 when every buffer is pinned or claimed. */
    method GetFreeBuffer() returns (r: int)
      requires Valid()
      modifies this`ring, desc
      ensures Valid()
      ensures r == -1 <==> forall b: nat :: b < desc.Length - 1 ==> old(Pinners(priv, b)) != {} || old(Claimed(b))
      ensures r == -1 ==> ring == old(ring) == [] && desc[..] == old(desc[..])
      ensures r != -1 ==> 0 <= r < desc.Length - 1 && |old(ring)| > 0 && r == old(ring)[0] && ring == old(ring)[1..]
      ensures r != -1 ==> Claimed(r) && Pinners(priv, r) == {}
      ensures forall a :: 0 <= a < desc.Length - 1 ==> desc[a].refcount == old(desc[a].refcount)
    {
      var header := desc.Length - 1;
      RingIsUnpinned(desc[..], ring, priv);
      Bounds(desc[..], ring, 0);
      forall b: nat | b < desc.Length - 1
        ensures Pinners(priv, b) == {} && !desc[b].free ==> Claimed(b)
      {
        assert BufOk(desc[..], ring, priv, b);
      }
      if desc[header].next == header {
        return -1;
      }
      var b := desc[header].next;
      assert BufOk(desc[..], ring, priv, b) && b in ring;
      Detach(b);
      assert BufOk(desc[..], ring, priv, b);
      r := b;
    }

    /** The buffer manager's step behind get_free_buffer: backend `p` pins a
        buffer that was handed out, by setting both counts to 1. */
    method Adopt(p: nat, b: nat)
      requires Valid() && p < |priv| && b < desc.Length - 1 && Claimed(b)
      modifies this`priv, desc
      ensures Valid() && p < |old(priv)| && b < |old(priv)[p]| && old(priv)[p][b] == 0
      ensures priv == Counted(old(priv), p, b, 1) && Pinners(priv, b) == {p} && desc[b].refcount == 1
      ensures forall a :: 0 <= a < desc.Length - 1 && a != b ==> desc[a] == old(desc[a])
    {
      ghost var d0, priv0 := desc[..], priv;
      assert BufOk(d0, ring, priv0, b);
      assert Pinners(priv0, b) == {} && p !in Pinners(priv0, b);
      CountStep(priv, p, b, 1);
      desc[b] := desc[b].(refcount := 1);
      priv := Counted(priv, p, b, 1);
      KeepPool(d0, ring, priv0, desc[..], priv, b);
    }

    /** Backend `p` replaces a buffer: the one released longest ago, now pinned. */
    method Replace(p: nat) returns (r: int)
      requires Valid() && p < |priv|
      modifies this`priv, this`ring, desc
      ensures Valid() && (r == -1 ==> old(ring) == [] && ring == [] && priv == old(priv) && desc[..] == old(desc[..]))
      ensures old(ring) == [] ==> r == -1
      ensures r != -1 ==>
                && |old(ring)| > 0 && r == old(ring)[0] < desc.Length - 1 && ring == old(ring)[1..]
                && p < |old(priv)| && r < |old(priv)[p]| && priv == Counted(old(priv), p, r, 1)
                && forall a :: 0 <= a < desc.Length - 1 && a != r ==> desc[a].refcount == old(desc[a].refcount)
    {
      r := GetFreeBuffer();
      if r != -1 {
        Adopt(p, r);
      }
    }

    /** No buffer is between being handed out and being pinned. */
    ghost predicate Settled()
      reads this, desc
    {
      forall b :: SettledAt(desc[..], b)
    }

    /** The pool stands for the queue `q`. */
    ghost predicate StandsFor(q: Queue)
      reads this, desc
    {
      Valid() && Settled() && q == Queue(ring, priv)
    }

    method TakePin(step: Step, ghost q: Queue)
      requires step.PinStep? && StandsFor(q) && Allowed(q, step, desc.Length - 1)
      modifies this`priv, this`ring, desc
      ensures StandsFor(After(q, step, desc.Length - 1))
    {
      SettledQueue(desc[..], ring, priv);
      StaysSettled(q, step, desc.Length - 1);
      assert SettledAt(desc[..], step.b);
      Pin(step.p, step.b);
      assert Queue(ring, priv) == After(q, step, desc.Length - 1);
      QueueSettled(desc[..], ring, priv);
    }

    method TakeUnpin(step: Step, ghost q: Queue)
      requires step.UnpinStep? && StandsFor(q) && Allowed(q, step, desc.Length - 1)
      modifies this`priv, this`ring, desc
      ensures StandsFor(After(q, step, desc.Length - 1))
    {
      SettledQueue(desc[..], ring, priv);
      StaysSettled(q, step, desc.Length - 1);
      Unpin(step.p, step.b);
      assert Queue(ring, priv) == After(q, step, desc.Length - 1);
      QueueSettled(desc[..], ring, priv);
    }

    method TakeReplace(step: Step, ghost q: Queue) returns (r: int)
      requires step.ReplaceStep? && StandsFor(q) && Allowed(q, step, desc.Length - 1)
      modifies this`priv, this`ring, desc
      ensures StandsFor(After(q, step, desc.Length - 1)) && r == Answer(q, step)
    {
      SettledQueue(desc[..], ring, priv);
      StaysSettled(q, step, desc.Length - 1);
      r := Replace(step.p);
      assert Queue(ring, priv) == After(q, step, desc.Length - 1);
      QueueSettled(desc[..], ring, priv);
    }

    /** One atomic step of one backend. */
    method Take(step: Step, ghost q: Queue) returns (r: int)
      requires StandsFor(q) && Allowed(q, step, desc.Length - 1)
      modifies this`priv, this`ring, desc
      ensures StandsFor(After(q, step, desc.Length - 1)) && r == Answer(q, step)
    {
      r := 0;
      if step.PinStep? {
        TakePin(step, q);
      } else if step.UnpinStep? {
        TakeUnpin(step, q);
      } else {
        r := TakeReplace(step, q);
      }
    }

    /** Any interleaving of the steps of any number of backends runs like a queue
        of buffers and a table of counts. */
    method Run(steps: seq<Step>, ghost q: Queue) returns (answers: seq<int>)
      requires StandsFor(q) && AllowedRun(q, steps, desc.Length - 1)
      modifies this`priv, this`ring, desc
      ensures StandsFor(AfterRun(q, steps, desc.Length - 1)) && answers == Answers(q, steps, desc.Length - 1)
    {
      answers := [];
      ghost var n, now := desc.Length - 1, q;
      for i := 0 to |steps|
        invariant StandsFor(now) && AllowedRun(now, steps[i..], n)
        invariant AfterRun(now, steps[i..], n) == AfterRun(q, steps, n)
        invariant answers + Answers(now, steps[i..], n) == Answers(q, steps, n)
      {
        var r := Take(steps[i], now);
        assert steps[i..][1..] == steps[i + 1..];
        answers := answers + [r];
        now := After(now, steps[i], n);
      }
    }
  }

  // ---------- the queue that the pool implements ----------

  datatype Step = PinStep(p: nat, b: nat) | UnpinStep(p: nat, b: nat) | ReplaceStep(p: nat)

  /** Unpinned buffers in order of release, and every backend's counts. */
  datatype Queue = Queue(ring: seq<nat>, priv: seq<seq<nat>>)

  /** Backends pin existing buffers and unpin what they have pinned. */
  ghost predicate Allowed(q: Queue, step: Step, n: nat) {
    && step.p < |q.priv| && |q.priv[step.p]| == n
    && (step.ReplaceStep? || step.b < n)
    && (step.UnpinStep? ==> q.priv[step.p][step.b] > 0)
    && (step.ReplaceStep? && q.ring != [] ==> q.ring[0] < n)
  }

  ghost function After(q: Queue, step: Step, n: nat): Queue
    requires Allowed(q, step, n)
  {
    match step
    case PinStep(p, b) => Queue(Less(q.ring, b), Counted(q.priv, p, b, q.priv[p][b] + 1))
    case UnpinStep(p, b) =>
      var priv := Counted(q.priv, p, b, q.priv[p][b] - 1);
      Queue(if Pinners(priv, b) == {} then q.ring + [b] else q.ring, priv)
    case ReplaceStep(p) =>
      if q.ring == [] then q else Queue(q.ring[1..], Counted(q.priv, p, q.ring[0], 1))
  }

  ghost function Answer(q: Queue, step: Step): int {
    if !step.ReplaceStep? then 0 else if q.ring == [] then -1 else q.ring[0]
  }

  ghost predicate AllowedRun(q: Queue, steps: seq<Step>, n: nat)
    decreases |steps|
  {
    steps == [] || (Allowed(q, steps[0], n) && AllowedRun(After(q, steps[0], n), steps[1..], n))
  }

  ghost function AfterRun(q: Queue, steps: seq<Step>, n: nat): Queue
    requires AllowedRun(q, steps, n)
    decreases |steps|
  {
    if steps == [] then q else AfterRun(After(q, steps[0], n), steps[1..], n)
  }

  ghost function Answers(q: Queue, steps: seq<Step>, n: nat): seq<int>
    requires AllowedRun(q, steps, n)
    decreases |steps|
  {
    if steps == [] then [] else [Answer(q, steps[0])] + Answers(After(q, steps[0], n), steps[1..], n)
  }

  ghost predicate InUseOrQueued(q: Queue, b: nat) {
    b in q.ring || Pinners(q.priv, b) != {}
  }

  lemma StaysSettled(q: Queue, step: Step, n: nat)
    requires Allowed(q, step, n) && forall b :: 0 <= b < n ==> InUseOrQueued(q, b)
    ensures var q' := After(q, step, n); forall b :: 0 <= b < n ==> InUseOrQueued(q', b)
  {
    var q' := After(q, step, n);
    forall a | 0 <= a < n
      ensures InUseOrQueued(q', a)
    {
      assert InUseOrQueued(q, a);
      match step
      case PinStep(p, b) =>
        CountStep(q.priv, p, b, q.priv[p][b] + 1);
        if a != b && a in q.ring {
          LessKeeps(q.ring, b, a);
        }
        assert p in Pinners(q'.priv, b);
      case UnpinStep(p, b) =>
        CountStep(q.priv, p, b, q.priv[p][b] - 1);
      case ReplaceStep(p) =>
        if q.ring != [] {
          CountStep(q.priv, p, q.ring[0], 1);
          assert p in Pinners(q'.priv, q.ring[0]);
        }
    }
  }

  /** What a settled pool is, seen as a queue. */
  lemma SettledQueue(d: seq<BufferDesc>, ring: seq<nat>, priv: seq<seq<nat>>)
    requires PoolOk(d, ring, priv) && forall b :: SettledAt(d, b)
    ensures var q := Queue(ring, priv); forall b :: 0 <= b < |d| - 1 ==> InUseOrQueued(q, b)
  {
    var q := Queue(ring, priv);
    forall b | 0 <= b < |d| - 1
      ensures InUseOrQueued(q, b)
    {
      assert SettledAt(d, b) && BufOk(d, ring, priv, b);
    }
  }

  lemma QueueSettled(d: seq<BufferDesc>, ring: seq<nat>, priv: seq<seq<nat>>)
    requires PoolOk(d, ring, priv)
    requires var q := Queue(ring, priv); forall b :: 0 <= b < |d| - 1 ==> InUseOrQueued(q, b)
    ensures forall b :: SettledAt(d, b)
  {
    var q := Queue(ring, priv);
    forall b: nat
      ensures SettledAt(d, b)
    {
      assert BufOk(d, ring, priv, b) && (b < |d| - 1 ==> InUseOrQueued(q, b));
    }
  }

  ghost predicate SettledAt(d: seq<BufferDesc>, b: nat) {
    b < |d| - 1 ==> d[b].free || d[b].refcount > 0
  }

  lemma KeepPool(d: seq<BufferDesc>, ring: seq<nat>, priv: seq<seq<nat>>, d': seq<BufferDesc>, priv': seq<seq<nat>>,
                 b: nat)
    requires PoolOk(d, ring, priv) && |d'| == |d| && |priv'| == |priv| && b < |d| - 1 && b !in ring
    requires forall p :: 0 <= p < |priv'| ==> |priv'[p]| == |d| - 1
    requires d' == d[b := d[b].(refcount := |Pinners(priv', b)|)]
    requires forall a :: a != b ==> Pinners(priv', a) == Pinners(priv, a)
    ensures PoolOk(d', ring, priv')
  {
    var header := |d| - 1;
    forall i | 0 <= i < |ring|
      ensures RingAt(d', header, ring, i)
    {
      assert RingAt(d, header, ring, i);
    }
    forall a
      ensures BufOk(d', ring, priv', a)
    {
      assert BufOk(d, ring, priv, a);
    }
  }

  lemma DetachPool(d: seq<BufferDesc>, ring: seq<nat>, priv: seq<seq<nat>>, i: nat)
    requires PoolOk(d, ring, priv) && i < |ring|
    ensures var b := ring[i];
            && b < |d| && 0 <= d[b].next < |d| && 0 <= d[b].prev < |d|
            && PoolOk(Unlinked(d, b), Without(ring, i), priv)
            && b !in Without(ring, i)
            && forall a :: 0 <= a < |d| && a != b ==> Unlinked(d, b)[a].refcount == d[a].refcount
  {
    var b := ring[i];
    UnlinkOk(d, ring, i);
    var d', ring' := Unlinked(d, b), Without(ring, i);
    WithoutMember(ring, i, b);
    forall a: nat
      ensures BufOk(d', ring', priv, a)
    {
      assert BufOk(d, ring, priv, a);
      WithoutMember(ring, i, a);
      assert a != b ==> SameButLinks(d, d', a);
    }
  }

  lemma AttachPool(d: seq<BufferDesc>, ring: seq<nat>, priv: seq<seq<nat>>, b: nat)
    requires PoolOk(d, ring, priv) && b < |d| - 1 && b !in ring && d[b].refcount == 0
    ensures 0 <= d[|d| - 1].prev < |d| && PoolOk(Appended(d, b), ring + [b], priv)
  {
    AppendOk(d, ring, b);
    var d', ring' := Appended(d, b), ring + [b];
    forall a
      ensures BufOk(d', ring', priv, a)
    {
      assert BufOk(d, ring, priv, a);
      assert a != b ==> SameButLinks(d, d', a);
    }
  }

  /** The ring holds exactly the buffers that are neither pinned nor claimed. */
  lemma RingIsUnpinned(d: seq<BufferDesc>, ring: seq<nat>, priv: seq<seq<nat>>)
    requires PoolOk(d, ring, priv)
    ensures forall b: nat :: b < |d| - 1 ==> (b in ring <==> Pinners(priv, b) == {} && d[b].free)
    ensures ring == [] <==> forall b: nat :: b < |d| - 1 ==> Pinners(priv, b) != {} || !d[b].free
  {
    forall b: nat | b < |d| - 1
      ensures b in ring <==> Pinners(priv, b) == {} && d[b].free
    {
      assert BufOk(d, ring, priv, b);
    }
    if ring != [] {
      Bounds(d, ring, 0);
      assert ring[0] in ring;
    }
  }

  lemma InitialPool(d: seq<BufferDesc>, ring: seq<nat>, priv: seq<seq<nat>>)
    requires |d| >= 2 && |ring| == |d| - 1
    requires forall i :: 0 <= i < |ring| ==> ring[i] == if i + 1 < |ring| then i + 1 else 0
    requires forall b :: 0 <= b < |ring| ==> InitialAt(d, b)
    requires d[|ring|].next == (if |ring| == 1 then 0 else 1) && d[|ring|].prev == 0
    requires forall p :: 0 <= p < |priv| ==> |priv[p]| == |ring|
    requires forall p, b :: 0 <= p < |priv| && 0 <= b < |ring| ==> priv[p][b] == 0
    ensures PoolOk(d, ring, priv)
  {
    var header := |ring|;
    forall i | 0 <= i < |ring|
      ensures RingAt(d, header, ring, i)
    {
      assert InitialAt(d, ring[i]);
    }
    forall b: nat
      ensures BufOk(d, ring, priv, b)
    {
      if b < header {
        assert InitialAt(d, b);
        assert ring[if b == 0 then header - 1 else b - 1] == b;
        assert Pinners(priv, b) == {};
      }
    }
  }

  /** Buffer `b` after initialisation: 0 is last and 1 is first. */
  ghost predicate InitialAt(d: seq<BufferDesc>, b: nat) {
    var n := |d| - 1;
    b < n ==> && d[b].free && d[b].refcount == 0
              && d[b].next == (if b == 0 then n else if b + 1 < n then b + 1 else 0)
              && d[b].prev == (if b == 0 then (if n == 1 then n else n - 1) else if b == 1 then n else b - 1)
  }
}
