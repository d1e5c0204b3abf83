/** A relation kept in fixed-size segment files that together stand for one flat
    sequence of blocks. */
module SegmentedFile {
  import opened Bits
  import opened Storage

  const RELSEG_SIZE: nat := 131072
  const SEG_BYTES: nat := 1073741824

  type Bytes = seq<nat>

  datatype Status = Success | Fail | Error

  // ---------- the flat view ----------

  /** Segments below `last` are full, segment `last` may be partly filled, and
      any file beyond it is empty. */
  ghost predicate SegOk(segs: map<nat, Bytes>, last: nat, i: nat) {
    && (i < last ==> i in segs && |segs[i]| == SEG_BYTES)
    && (i == last ==> i in segs && |segs[i]| <= SEG_BYTES)
    && (i > last && i in segs ==> segs[i] == [])
  }

  ghost predicate StandsTo(segs: map<nat, Bytes>, last: nat) {
    forall i :: SegOk(segs, last, i)
  }

  ghost predicate RelOk(segs: map<nat, Bytes>, chain: seq<nat>, last: nat) {
    && StandsTo(segs, last)
    && |chain| >= 1
    && forall i :: 0 <= i < |chain| ==> i in segs
  }

  ghost function NBlocks(segs: map<nat, Bytes>, last: nat): nat {
    last * RELSEG_SIZE + if last in segs then |segs[last]| / BLCKSZ else 0
  }

  /** Block `k` of one segment file. */
  ghost function Slice(bytes: Bytes, k: nat): Bytes {
    if k * BLCKSZ + BLCKSZ <= |bytes| then bytes[k * BLCKSZ..k * BLCKSZ + BLCKSZ] else []
  }

  ghost function BlockOf(segs: map<nat, Bytes>, n: nat): Bytes {
    if n / RELSEG_SIZE in segs then Slice(segs[n / RELSEG_SIZE], n % RELSEG_SIZE) else []
  }

  /** The relation as one sequence of blocks. */
  ghost function Flat(segs: map<nat, Bytes>, last: nat): seq<Bytes> {
    seq(NBlocks(segs, last), n requires n >= 0 => BlockOf(segs, n))
  }

  lemma Located(q: nat, k: nat)
    requires k < RELSEG_SIZE
    ensures (q * RELSEG_SIZE + k) / RELSEG_SIZE == q && (q * RELSEG_SIZE + k) % RELSEG_SIZE == k
  {
    DivModUnique(q * RELSEG_SIZE + k, RELSEG_SIZE, q, k);
  }

  /** Every block of the relation lies whole inside its segment. */
  lemma InRange(segs: map<nat, Bytes>, last: nat, n: nat)
    requires (forall i :: SegOk(segs, last, i)) && n < NBlocks(segs, last)
    ensures n / RELSEG_SIZE <= last && n / RELSEG_SIZE in segs
    ensures (n % RELSEG_SIZE) * BLCKSZ + BLCKSZ <= |segs[n / RELSEG_SIZE]|
    ensures |BlockOf(segs, n)| == BLCKSZ
  {
    var q, k := n / RELSEG_SIZE, n % RELSEG_SIZE;
    DivModFacts(n, RELSEG_SIZE);
    assert SegOk(segs, last, last) && SegOk(segs, last, q);
    DivModFacts(|segs[last]|, BLCKSZ);
  }

  /** Two relations agree block by block. */
  lemma SameFlat(segs: map<nat, Bytes>, last: nat, segs': map<nat, Bytes>, last': nat)
    requires NBlocks(segs', last') == NBlocks(segs, last)
    requires forall n :: 0 <= n < NBlocks(segs, last) ==> BlockOf(segs', n) == BlockOf(segs, n)
    ensures Flat(segs', last') == Flat(segs, last)
  {
  }

  /** A full segment followed by an empty one ends where the empty one begins. */
  lemma NextSegment(segs: map<nat, Bytes>, last: nat)
    requires (forall i :: SegOk(segs, last, i)) && last in segs && |segs[last]| / BLCKSZ == RELSEG_SIZE
    ensures var next := last + 1;
            var segs' := if next in segs then segs else segs[next := []];
            && (forall i :: SegOk(segs', next, i))
            && Flat(segs', next) == Flat(segs, last)
  {
    var next := last + 1;
    var segs' := if next in segs then segs else segs[next := []];
    assert SegOk(segs, last, last) && SegOk(segs, last, next);
    DivModFacts(|segs[last]|, BLCKSZ);
    forall i
      ensures SegOk(segs', next, i)
    {
      assert SegOk(segs, last, i);
    }
    forall n | 0 <= n < NBlocks(segs, last)
      ensures BlockOf(segs', n) == BlockOf(segs, n)
    {
      InRange(segs, last, n);
    }
    SameFlat(segs, last, segs', next);
  }

  /** An empty file beyond the end changes nothing. */
  lemma SpareSegment(segs: map<nat, Bytes>, last: nat, s: nat)
    requires (forall i :: SegOk(segs, last, i)) && s !in segs
    ensures var segs' := segs[s := []]; (forall i :: SegOk(segs', last, i)) && Flat(segs', last) == Flat(segs, last)
  {
    var segs' := segs[s := []];
    assert SegOk(segs, last, s);
    forall i
      ensures SegOk(segs', last, i)
    {
      assert SegOk(segs, last, i);
    }
    forall n | 0 <= n < NBlocks(segs, last)
      ensures BlockOf(segs', n) == BlockOf(segs, n)
    {
      InRange(segs, last, n);
    }
    SameFlat(segs, last, segs', last);
  }

  // ---------- writing a file ----------

  /** What a write of the first `got` bytes of `buf` at `pos` leaves. */
  function Written(bytes: Bytes, pos: nat, buf: Bytes, got: int): (r: Bytes)
    requires pos <= |bytes| && got <= |buf|
    ensures got <= 0 ==> r == bytes
    ensures |r| == if got > 0 && pos + got > |bytes| then pos + got else |bytes|
    ensures forall i :: 0 <= i < |bytes| && (i < pos || i >= pos + got) ==> r[i] == bytes[i]
    ensures got > 0 ==> r[pos..pos + got] == buf[..got]
  {
    if got <= 0 then bytes
    else bytes[..pos] + buf[..got] + if pos + got <= |bytes| then bytes[pos + got..] else []
  }

  /** What is left of a file when a block is written behind its last whole one: all
      of the block, or what arrived, or with luck nothing. */
  function Extended(bytes: Bytes, buf: Bytes, got: int, cut: bool): (r: Bytes)
    requires |buf| == BLCKSZ && got <= BLCKSZ
    ensures var whole := |bytes| / BLCKSZ * BLCKSZ;
            && whole <= |bytes| && whole <= |r| && r[..whole] == bytes[..whole]
            && (got <= 0 ==> r == bytes) && (0 < got < BLCKSZ && cut ==> |r| == whole)
            && (got == BLCKSZ || (0 < got && !cut) ==> whole + got <= |r| && r[whole..whole + got] == buf[..got])
            && (got == BLCKSZ ==> |r| == whole + BLCKSZ)
  {
    var pos := |bytes| - |bytes| % BLCKSZ;
    var torn := Written(bytes, pos, buf, got);
    if 0 < got < BLCKSZ && cut then torn[..pos] else torn
  }

  /** A write inside block `k` leaves the other blocks of the file alone. */
  lemma WriteOther(bytes: Bytes, k: nat, buf: Bytes, got: int, j: nat)
    requires k * BLCKSZ <= |bytes| && |buf| == BLCKSZ && got <= BLCKSZ && j != k
    requires j * BLCKSZ + BLCKSZ <= |bytes|
    ensures Slice(Written(bytes, k * BLCKSZ, buf, got), j) == Slice(bytes, j)
  {
    var r := Written(bytes, k * BLCKSZ, buf, got);
    assert j < k ==> j * BLCKSZ + BLCKSZ <= k * BLCKSZ;
    assert j > k ==> k * BLCKSZ + BLCKSZ <= j * BLCKSZ;
    forall i | j * BLCKSZ <= i < j * BLCKSZ + BLCKSZ
      ensures r[i] == bytes[i]
    {
    }
  }

  /** A full write of block `k` is what a reader of block `k` gets. */
  lemma WriteSame(bytes: Bytes, k: nat, buf: Bytes)
    requires k * BLCKSZ <= |bytes| && |buf| == BLCKSZ
    ensures Slice(Written(bytes, k * BLCKSZ, buf, BLCKSZ), k) == buf
  {
    assert buf[..BLCKSZ] == buf;
  }

  /** Writing into an existing block of the relation. */
  lemma WriteStep(segs: map<nat, Bytes>, last: nat, n: nat, buf: Bytes, got: int)
    requires (forall i :: SegOk(segs, last, i)) && n < NBlocks(segs, last) && |buf| == BLCKSZ && got <= BLCKSZ
    ensures n / RELSEG_SIZE in segs && (n % RELSEG_SIZE) * BLCKSZ <= |segs[n / RELSEG_SIZE]|
    ensures var s, pos := n / RELSEG_SIZE, (n % RELSEG_SIZE) * BLCKSZ;
            var segs' := segs[s := Written(segs[s], pos, buf, got)];
            && (forall i :: SegOk(segs', last, i))
            && NBlocks(segs', last) == NBlocks(segs, last)
            && (got == BLCKSZ ==> BlockOf(segs', n) == buf)
            && (got <= 0 ==> BlockOf(segs', n) == BlockOf(segs, n))
            && forall m :: 0 <= m < NBlocks(segs, last) && m != n ==> BlockOf(segs', m) == BlockOf(segs, m)
  {
    InRange(segs, last, n);
    var s, k := n / RELSEG_SIZE, n % RELSEG_SIZE;
    var segs' := segs[s := Written(segs[s], k * BLCKSZ, buf, got)];
    forall i
      ensures SegOk(segs', last, i)
    {
      assert SegOk(segs, last, i);
    }
    WriteSame(segs[s], k, buf);
    DivModFacts(n, RELSEG_SIZE);
    forall m | 0 <= m < NBlocks(segs, last) && m != n
      ensures BlockOf(segs', m) == BlockOf(segs, m)
    {
      InRange(segs, last, m);
      DivModFacts(m, RELSEG_SIZE);
      if m / RELSEG_SIZE == s {
        WriteOther(segs[s], k, buf, got, m % RELSEG_SIZE);
      }
    }
  }

  /** Writing one block behind the last whole block. */
  lemma ExtendStep(segs: map<nat, Bytes>, last: nat, buf: Bytes)
    requires (forall i :: SegOk(segs, last, i)) && last in segs && |segs[last]| / BLCKSZ < RELSEG_SIZE
             && |buf| == BLCKSZ
    ensures var pos := |segs[last]| / BLCKSZ * BLCKSZ;
            && pos <= |segs[last]|
            && var segs' := segs[last := Written(segs[last], pos, buf, BLCKSZ)];
            && (forall i :: SegOk(segs', last, i))
            && Flat(segs', last) == Flat(segs, last) + [buf]
  {
    var len := |segs[last]|;
    var k := len / BLCKSZ;
    DivModFacts(len, BLCKSZ);
    var bytes' := Written(segs[last], k * BLCKSZ, buf, BLCKSZ);
    var segs' := segs[last := bytes'];
    assert SegOk(segs, last, last);
    DivModUnique(|bytes'|, BLCKSZ, k + 1, 0);
    forall i
      ensures SegOk(segs', last, i)
    {
      assert SegOk(segs, last, i);
    }
    WriteSame(segs[last], k, buf);
    Located(last, k);
    forall m | 0 <= m < NBlocks(segs, last)
      ensures BlockOf(segs', m) == BlockOf(segs, m)
    {
      InRange(segs, last, m);
      DivModFacts(m, RELSEG_SIZE);
      if m / RELSEG_SIZE == last {
        WriteOther(segs[last], k, buf, BLCKSZ, m % RELSEG_SIZE);
      }
    }
    assert NBlocks(segs', last) == NBlocks(segs, last) + 1;
    var f, f' := Flat(segs, last), Flat(segs', last);
    assert f'[..|f|] == f;
    assert f' == f'[..|f|] + [f'[|f|]];
  }

  /** Cutting segment `s` to `k` whole blocks, as the new last one. */
  lemma CutStep(segs: map<nat, Bytes>, last: nat, s: nat, k: nat, segs': map<nat, Bytes>)
    requires (forall i :: SegOk(segs, last, i)) && s <= last && k < RELSEG_SIZE
             && s * RELSEG_SIZE + k < NBlocks(segs, last)
    requires s in segs && k * BLCKSZ <= |segs[s]|
    requires forall i: nat :: i < s ==> i in segs && i in segs' && segs'[i] == segs[i]
    requires s in segs' && segs'[s] == segs[s][..k * BLCKSZ]
    requires forall i: nat :: i > s && i in segs' ==> segs'[i] == []
    ensures (forall i :: SegOk(segs', s, i))
    ensures NBlocks(segs', s) == s * RELSEG_SIZE + k && Flat(segs', s) == Flat(segs, last)[..s * RELSEG_SIZE + k]
  {
    assert SegOk(segs, last, s);
    DivModUnique(k * BLCKSZ, BLCKSZ, k, 0);
    forall i
      ensures SegOk(segs', s, i)
    {
      assert SegOk(segs, last, i);
    }
    forall m | 0 <= m < NBlocks(segs', s)
      ensures BlockOf(segs', m) == BlockOf(segs, m)
    {
      InRange(segs', s, m);
      InRange(segs, last, m);
      if m / RELSEG_SIZE == s {
        assert segs'[s][..k * BLCKSZ] == segs[s][..k * BLCKSZ];
        SlicePrefix(segs[s], segs'[s], k, m % RELSEG_SIZE);
      }
    }
  }

  /** Bytes behind the last whole block do not count: they may come and go. */
  lemma TailStep(segs: map<nat, Bytes>, last: nat, bytes': Bytes)
    requires (forall i :: SegOk(segs, last, i)) && last in segs
    requires var k := |segs[last]| / BLCKSZ;
             && k < RELSEG_SIZE && k * BLCKSZ <= |segs[last]| && k * BLCKSZ <= |bytes'| < k * BLCKSZ + BLCKSZ
             && bytes'[..k * BLCKSZ] == segs[last][..k * BLCKSZ]
    ensures var segs' := segs[last := bytes'];
            (forall i :: SegOk(segs', last, i)) && Flat(segs', last) == Flat(segs, last)
  {
    var k := |segs[last]| / BLCKSZ;
    var segs' := segs[last := bytes'];
    DivModUnique(|bytes'|, BLCKSZ, k, |bytes'| - k * BLCKSZ);
    forall i
      ensures SegOk(segs', last, i)
    {
      assert SegOk(segs, last, i);
    }
    forall m | 0 <= m < NBlocks(segs, last)
      ensures BlockOf(segs', m) == BlockOf(segs, m)
    {
      InRange(segs, last, m);
      DivModFacts(m, RELSEG_SIZE);
      if m / RELSEG_SIZE == last {
        SlicePrefix(segs[last], bytes', k, m % RELSEG_SIZE);
      }
    }
    SameFlat(segs, last, segs', last);
  }

  lemma SlicePrefix(a: Bytes, b: Bytes, k: nat, j: nat)
    requires j < k && k * BLCKSZ <= |a| && k * BLCKSZ <= |b| && a[..k * BLCKSZ] == b[..k * BLCKSZ]
    ensures Slice(a, j) == Slice(b, j)
  {
    assert j * BLCKSZ + BLCKSZ <= k * BLCKSZ;
    var x, y := a[..k * BLCKSZ], b[..k * BLCKSZ];
    assert Slice(a, j) == x[j * BLCKSZ..j * BLCKSZ + BLCKSZ];
    assert Slice(b, j) == y[j * BLCKSZ..j * BLCKSZ + BLCKSZ];
  }

  // ---------- writing behind the end ----------

  /** The file extended with zeros up to `pos`, as a write behind its end leaves it. */
  function Padded(bytes: Bytes, pos: nat): (r: Bytes)
    ensures |r| == if |bytes| < pos then pos else |bytes|
    ensures r[..|bytes|] == bytes && forall i :: |bytes| <= i < |r| ==> r[i] == 0
  {
    if |bytes| < pos then bytes + seq(pos - |bytes|, _ => 0) else bytes
  }

  ghost predicate ZeroBlock(b: Bytes) {
    |b| == BLCKSZ && forall i :: 0 <= i < |b| ==> b[i] == 0
  }

  /** Writing block `k` of the last segment, at or behind its last whole block. */
  lemma HoleStep(segs: map<nat, Bytes>, last: nat, k: nat, buf: Bytes, got: int)
    requires (forall i :: SegOk(segs, last, i)) && last in segs && |buf| == BLCKSZ && 0 < got <= BLCKSZ
    requires |segs[last]| / BLCKSZ <= k < RELSEG_SIZE
    ensures var segs' := segs[last := Written(Padded(segs[last], k * BLCKSZ), k * BLCKSZ, buf, got)];
            && (forall i :: SegOk(segs', last, i)) && NBlocks(segs', last) >= NBlocks(segs, last)
            && (forall m :: 0 <= m < NBlocks(segs, last) ==> BlockOf(segs', m) == BlockOf(segs, m))
            && (got == BLCKSZ ==>
                  && NBlocks(segs', last) == last * RELSEG_SIZE + k + 1
                  && BlockOf(segs', last * RELSEG_SIZE + k) == buf
                  && forall m :: NBlocks(segs, last) < m < last * RELSEG_SIZE + k ==> ZeroBlock(BlockOf(segs', m)))
  {
    var bytes := segs[last];
    DivModFacts(|bytes|, BLCKSZ);
    var padded := Padded(bytes, k * BLCKSZ);
    var bytes' := Written(padded, k * BLCKSZ, buf, got);
    var segs' := segs[last := bytes'];
    assert SegOk(segs, last, last);
    HoleCount(|bytes|, k, got, |bytes'|);
    forall i
      ensures SegOk(segs', last, i)
    {
      assert SegOk(segs, last, i);
    }
    forall m | 0 <= m < NBlocks(segs, last)
      ensures BlockOf(segs', m) == BlockOf(segs, m)
    {
      InRange(segs, last, m);
      DivModFacts(m, RELSEG_SIZE);
      if m / RELSEG_SIZE == last {
        WriteOther(padded, k, buf, got, m % RELSEG_SIZE);
        PaddedSlice(bytes, k * BLCKSZ, m % RELSEG_SIZE);
      }
    }
    if got == BLCKSZ {
      Located(last, k);
      WriteSame(padded, k, buf);
      forall m | NBlocks(segs, last) < m < last * RELSEG_SIZE + k
        ensures ZeroBlock(BlockOf(segs', m))
      {
        var j := m - last * RELSEG_SIZE;
        Located(last, j);
        WriteOther(padded, k, buf, got, j);
      }
    }
  }

  lemma HoleCount(len: nat, k: nat, got: int, len': nat)
    requires len / BLCKSZ <= k < RELSEG_SIZE && 0 < got <= BLCKSZ
    requires var p := if len < k * BLCKSZ then k * BLCKSZ else len;
             len' == if k * BLCKSZ + got > p then k * BLCKSZ + got else p
    ensures len' <= SEG_BYTES && len / BLCKSZ <= len' / BLCKSZ && (got == BLCKSZ ==> len' / BLCKSZ == k + 1)
  {
    DivModFacts(len, BLCKSZ);
    DivModFacts(len', BLCKSZ);
    if got == BLCKSZ {
      DivModUnique(len', BLCKSZ, k + 1, 0);
    }
  }

  lemma PaddedSlice(bytes: Bytes, pos: nat, j: nat)
    requires j * BLCKSZ + BLCKSZ <= |bytes|
    ensures Slice(Padded(bytes, pos), j) == Slice(bytes, j)
  {
    var r := Padded(bytes, pos);
    assert r[..|bytes|] == bytes;
    assert Slice(r, j) == r[..|bytes|][j * BLCKSZ..j * BLCKSZ + BLCKSZ];
  }
}
