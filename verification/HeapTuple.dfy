/** Heap tuples, after access/common/heaptuple.c and the macros of tupmacs.h and
    heapam.h: forming a tuple, and reading it through a descriptor whose cached
    offsets are shared by all readers. */
module HeapTuple {
  import opened Bits
  import opened TupleLayout
  import opened Storage

  /** A cached offset is unknown (-1) or the one that the descriptor determines. */
  ghost predicate CacheAt(attrs: seq<Attr>, cache: seq<int>, j: nat)
    requires j < |attrs| == |cache|
  {
    cache[j] == -1 || (FixedPrefix(attrs, j) && cache[j] == FixedStart(attrs, j))
  }

  ghost predicate CacheOk(attrs: seq<Attr>, cache: seq<int>) {
    |cache| == |attrs| && forall j :: 0 <= j < |attrs| ==> CacheAt(attrs, cache, j)
  }

  lemma CacheUpdate(attrs: seq<Attr>, cache: seq<int>, j: nat, off: int)
    requires CacheOk(attrs, cache) && j < |attrs| && FixedPrefix(attrs, j) && off == FixedStart(attrs, j)
    ensures CacheOk(attrs, cache[j := off])
  {
    var cache' := cache[j := off];
    forall i | 0 <= i < |attrs|
      ensures CacheAt(attrs, cache', i)
    {
      assert CacheAt(attrs, cache, i);
    }
  }

  /** Where nothing null precedes attribute `a`, a cached offset is where the
      careful walk would arrive. */
  lemma CachedIsWalk(attrs: seq<Attr>, cache: seq<int>, t: Tuple, a: nat)
    requires CacheOk(attrs, cache) && Shaped(attrs, t) && a < t.natts && cache[a] != -1
    requires forall i :: 0 <= i < a ==> !IsNull(t, i)
    ensures FixedPrefix(attrs, a) && cache[a] == WalkStart(attrs, t, a)
  {
    assert CacheAt(attrs, cache, a);
    WalkIsFixed(attrs, t, a);
  }

  /** The test for nulls before attribute `a`: the bits below it in its own byte
      at once, then the earlier bytes one by one. */
  method NullsBefore(t: Tuple, a: nat) returns (slow: bool)
    requires t.hasNull && a / 8 < |t.bits|
    ensures slow <==> exists i :: 0 <= i < a && BitClear(t.bits, i)
  {
    var byt, finalbit := a / 8, a % 8;
    if !t.bits[byt] & Below(finalbit) != 0 {
      ClearInFinal(t.bits, a);
      return true;
    }
    for i := 0 to byt
      invariant forall k :: 0 <= k < i ==> t.bits[k] == 255
    {
      if t.bits[i] != 255 {
        ClearInEarlier(t.bits, a, i);
        return true;
      }
    }
    forall i | 0 <= i < a
      ensures !BitClear(t.bits, i)
    {
      NotClear(t.bits, a, i);
    }
    return false;
  }

  lemma Octet(k: nat, j: nat)
    requires j < 8
    ensures (8 * k + j) / 8 == k && (8 * k + j) % 8 == j
  {
  }

  lemma ClearInFinal(bits: seq<bv8>, a: nat)
    requires a / 8 < |bits| && !bits[a / 8] & Below(a % 8) != 0
    ensures exists i :: 0 <= i < a && BitClear(bits, i)
  {
    ClearBelow(bits[a / 8], a % 8);
    var k := a / 8;
    var j :| 0 <= j < a % 8 && bits[k] & Bit(j) == 0;
    Octet(k, j);
    assert BitClear(bits, 8 * k + j);
  }

  lemma ClearInEarlier(bits: seq<bv8>, a: nat, k: nat)
    requires k < a / 8 < |bits| && bits[k] != 255
    ensures exists i :: 0 <= i < a && BitClear(bits, i)
  {
    ClearInByte(bits[k]);
    var j :| 0 <= j < 8 && bits[k] & Bit(j) == 0;
    Octet(k, j);
    assert BitClear(bits, 8 * k + j);
  }

  lemma NotClear(bits: seq<bv8>, a: nat, i: nat)
    requires a / 8 < |bits| && i < a && !bits[a / 8] & Below(a % 8) == 0
    requires forall k :: 0 <= k < a / 8 ==> bits[k] == 255
    ensures !BitClear(bits, i)
  {
    if i / 8 == a / 8 {
      ClearBelow(bits[a / 8], a % 8);
    } else {
      ClearInByte(bits[i / 8]);
    }
  }

  /** No null before or at attribute `i` of the tuple, and no varlena before it:
      its offset is worth caching. */
  ghost predicate Steady(attrs: seq<Attr>, t: Tuple, i: nat)
    requires t.hasNull ==> i / 8 < |t.bits|
  {
    FixedPrefix(attrs, i) && forall k :: 0 <= k <= i ==> !IsNull(t, k)
  }

  /** The loop that fills the cache goes on to attribute `i` behind the wanted one. */
  ghost predicate Fillable(attrs: seq<Attr>, cache: seq<int>, t: Tuple, i: nat)
    requires i < |attrs| == |cache| && (t.hasNull ==> i / 8 < |t.bits|)
  {
    cache[i] == -1 && !IsNull(t, i) && (t.hasVarlena ==> attrs[i].attlen > 0)
  }

  /** Every steady attribute up to `a` is cached, `a` itself if it has a fixed length. */
  ghost predicate CachedUpTo(attrs: seq<Attr>, t: Tuple, cache: seq<int>, a: nat)
    requires a < |attrs| == |cache| && (t.hasNull ==> a / 8 < |t.bits|)
  {
    && (forall i :: 0 <= i < a && Steady(attrs, t, i) ==> cache[i] != -1)
    && (FixedPrefix(attrs, a + 1) && Steady(attrs, t, a) ==> cache[a] != -1)
  }

  ghost predicate KeptCached(before: seq<int>, after: seq<int>) {
    |before| == |after| && forall i :: 0 <= i < |before| && before[i] != -1 ==> after[i] != -1
  }

  class TupleDesc {
    const attrs: seq<Attr>
    var attcacheoff: seq<int>

    ghost predicate Valid()
      reads this
    {
      (forall j :: 0 <= j < |attrs| ==> AttrOk(attrs[j])) && CacheOk(attrs, attcacheoff)
    }

    constructor (attrs: seq<Attr>)
      requires forall j :: 0 <= j < |attrs| ==> AttrOk(attrs[j])
      ensures Valid() && this.attrs == attrs
    {
      this.attrs := attrs;
      attcacheoff := seq(|attrs|, _ => -1);
    }

    /** `no_cache_get_attr`, for an attribute that is present and not null. */
    method NoCacheGetAttr(t: Tuple, attnum: nat) returns (d: Datum)
      requires Valid() && TupleOk(attrs, t) && 1 <= attnum <= t.natts && !IsNull(t, attnum - 1)
      modifies this`attcacheoff
      ensures Valid() && Some(d) == Read(attrs, t, attnum - 1) && KeptCached(old(attcacheoff), attcacheoff)
      ensures old(attcacheoff)[attnum - 1] == -1 ==> CachedUpTo(attrs, t, attcacheoff, attnum - 1)
    {
      var a, slow := attnum - 1, false;
      assert AttrPresent(attrs, t, a);
      if t.hasNull {
        slow := NullsBefore(t, a);
        if slow {
          ghost var i :| 0 <= i < a && BitClear(t.bits, i);
          assert IsNull(t, i) && !Steady(attrs, t, a);
        }
      }
      if !slow {
        assert forall i :: 0 <= i < a ==> !IsNull(t, i);
        if attcacheoff[a] != -1 {
          CachedIsWalk(attrs, attcacheoff, t, a);
          return Fetch(attrs[a], t.data, attcacheoff[a]);
        } else if t.hasVarlena {
          slow := VarlenaUpTo(a);
        }
      }
      if !slow {
        AllFixedUpTo(attrs, t, a);
        ghost var e := FillCache(t, a);
        CachedIsWalk(attrs, attcacheoff, t, a);
        d := Fetch(attrs[a], t.data, attcacheoff[a]);
      } else {
        assert !(FixedPrefix(attrs, a + 1) && Steady(attrs, t, a));
        var off := CarefulWalk(t, a);
        d := Fetch(attrs[a], t.data, off);
      }
    }

    /** The loop that looks for an attribute that is not of fixed length. */
    method VarlenaUpTo(a: nat) returns (found: bool)
      requires a < |attrs|
      ensures found <==> exists j :: 0 <= j <= a && attrs[j].attlen <= 0
    {
      for j := 0 to a + 1
        invariant forall i :: 0 <= i < j ==> attrs[i].attlen > 0
      {
        if attrs[j].attlen <= 0 {
          return true;
        }
      }
      return false;
    }

    /** Sets the cached offsets up to attribute `a`, and of as many attributes
        behind it as this tuple shows to be of fixed length. */
    method FillCache(t: Tuple, a: nat) returns (ghost e: nat)
      requires Valid() && TupleOk(attrs, t) && a < t.natts && FixedPrefix(attrs, a + 1)
      modifies this`attcacheoff
      ensures Valid() && a < e <= t.natts && (e < t.natts ==> !Fillable(attrs, old(attcacheoff), t, e))
      ensures forall i :: 0 <= i < e ==> attcacheoff[i] != -1
      ensures forall i :: e <= i < |attrs| ==> attcacheoff[i] == old(attcacheoff)[i]
    {
      CacheUpdate(attrs, attcacheoff, 0, 0);
      attcacheoff := attcacheoff[0 := 0];
      var j := 1;
      while j < a && attcacheoff[j] > 0
        invariant 1 <= j && (j == 1 || j <= a) && forall i :: 0 <= i < j ==> attcacheoff[i] != -1
      {
        j := j + 1;
      }
      assert CacheAt(attrs, attcacheoff, j - 1);
      var off := attcacheoff[j - 1] + attrs[j - 1].attlen;
      while j <= a || (j < t.natts && attcacheoff[j] == -1
                       && (!t.hasNull || !BitClear(t.bits, j)) && (!t.hasVarlena || attrs[j].attlen > 0))
        invariant 1 <= j <= |attrs| && FixedPrefix(attrs, j) && off == FixedEnd(attrs, j)
        invariant Valid() && j <= t.natts && forall i :: 0 <= i < j ==> attcacheoff[i] != -1
        invariant forall i :: j <= i < |attrs| ==> attcacheoff[i] == old(attcacheoff)[i]
        decreases |attrs| - j
      {
        FixedHere(attrs, t, a, j);
        off := CacheOne(j, off);
        j := j + 1;
      }
      e := j;
    }

    /** Caches the offset of attribute `j`; the result is where it ends. */
    method CacheOne(j: nat, off: nat) returns (end: nat)
      requires Valid() && j < |attrs| && FixedPrefix(attrs, j + 1) && off == FixedEnd(attrs, j)
      modifies this`attcacheoff
      ensures Valid() && end == FixedEnd(attrs, j + 1) && attcacheoff[j] != -1
      ensures forall i :: 0 <= i < |attrs| && i != j ==> attcacheoff[i] == old(attcacheoff)[i]
    {
      var start := Aligned(off, attrs[j]);
      CacheUpdate(attrs, attcacheoff, j, start);
      attcacheoff := attcacheoff[j := start];
      end := start + attrs[j].attlen;
    }

    /** The walk over nulls and varlenas, which trusts and fills the cache as
        long as neither has been met. */
    method CarefulWalk(t: Tuple, a: nat) returns (off: nat)
      requires Valid() && TupleOk(attrs, t) && a < t.natts
      modifies this`attcacheoff
      ensures Valid() && off == WalkStart(attrs, t, a) && KeptCached(old(attcacheoff), attcacheoff)
      ensures forall i :: 0 <= i < a && Steady(attrs, t, i) ==> attcacheoff[i] != -1
    {
      var usecache := true;
      off := 0;
      for i := 0 to a
        invariant Valid() && off == WalkEnd(attrs, t, i)
        invariant usecache <==> FixedPrefix(attrs, i) && forall j :: 0 <= j < i ==> !IsNull(t, j)
        invariant KeptCached(old(attcacheoff), attcacheoff)
        invariant forall j :: 0 <= j < i && Steady(attrs, t, j) ==> attcacheoff[j] != -1
      {
        if t.hasNull && BitClear(t.bits, i) {
          usecache := false;
          continue;
        }
        assert !IsNull(t, i);
        if usecache && attcacheoff[i] != -1 {
          CachedIsWalk(attrs, attcacheoff, t, i);
          off := attcacheoff[i];
        } else {
          off := Aligned(off, attrs[i]);
          if usecache {
            WalkIsFixed(attrs, t, i);
            CacheUpdate(attrs, attcacheoff, i, off);
            attcacheoff := attcacheoff[i := off];
          }
        }
        off := off + LenAt(attrs[i], t.data, off);
        if usecache && attrs[i].attlen == -1 {
          usecache := false;
        }
      }
      off := Aligned(off, attrs[a]);
    }

    /** `FAST_GET_ATTR`: the value, or None with `*isnull` set. */
    method FastGetAttr(t: Tuple, attnum: nat) returns (r: Option<Datum>)
      requires Valid() && TupleOk(attrs, t) && 1 <= attnum <= t.natts
      modifies this`attcacheoff
      ensures Valid() && r == Read(attrs, t, attnum - 1)
    {
      var a := attnum - 1;
      assert AttrPresent(attrs, t, a);
      if !t.hasNull {
        if attcacheoff[a] >= 0 {
          CachedIsWalk(attrs, attcacheoff, t, a);
          return Some(Fetch(attrs[a], t.data, attcacheoff[a]));
        }
      } else if BitClear(t.bits, a) {
        return None;
      }
      var d := NoCacheGetAttr(t, attnum);
      r := Some(d);
    }

    /** `HEAP_GET_ATTR` for user attributes: those beyond the tuple are null. */
    method HeapGetAttr(t: Tuple, attnum: nat) returns (r: Option<Datum>)
      requires Valid() && TupleOk(attrs, t) && 1 <= attnum
      modifies this`attcacheoff
      ensures Valid() && r == Read(attrs, t, attnum - 1)
    {
      if attnum > t.natts {
        r := None;
      } else {
        r := FastGetAttr(t, attnum);
      }
    }

    /** Any sequence of reads over any tuples through one descriptor returns
        what each tuple holds, whatever earlier reads left in the cache. */
    method HeapGetAttrs(requests: seq<(Tuple, nat)>) returns (answers: seq<Option<Datum>>)
      requires Valid()
      requires forall q :: q in requests ==> TupleOk(attrs, q.0) && 1 <= q.1
      modifies this`attcacheoff
      ensures Valid() && |answers| == |requests|
      ensures forall i :: 0 <= i < |requests| ==> AnsweredAt(attrs, requests, answers, i)
    {
      answers := [];
      for i := 0 to |requests|
        invariant Valid() && |answers| == i
        invariant forall j :: 0 <= j < i ==> AnsweredAt(attrs, requests, answers, j)
      {
        ghost var before := answers;
        assert requests[i] in requests;
        var r := HeapGetAttr(requests[i].0, requests[i].1);
        answers := answers + [r];
        forall j | 0 <= j < i
          ensures AnsweredAt(attrs, requests, answers, j)
        {
          assert AnsweredAt(attrs, requests, before, j);
        }
      }
    }
  }

  /** Answer `i` is what the tuple of request `i` holds. */
  ghost predicate AnsweredAt(attrs: seq<Attr>, requests: seq<(Tuple, nat)>, answers: seq<Option<Datum>>, i: nat) {
    i < |requests| && i < |answers| && TupleOk(attrs, requests[i].0) && 1 <= requests[i].1
    && answers[i] == Read(attrs, requests[i].0, requests[i].1 - 1)
  }

  /** An attribute whose offset the loop is about to cache has a fixed length. */
  lemma FixedHere(attrs: seq<Attr>, t: Tuple, a: nat, j: nat)
    requires TupleOk(attrs, t) && FixedPrefix(attrs, a + 1) && FixedPrefix(attrs, j)
    requires j <= a || (j < t.natts && !IsNull(t, j) && (t.hasVarlena ==> attrs[j].attlen > 0))
    ensures FixedPrefix(attrs, j + 1)
  {
    if j > a {
      assert AttrPresent(attrs, t, j);
    }
  }

  /** Without nulls before it, and with no varlena up to it or none in the tuple
      at all, an attribute has a prefix of fixed length. */
  lemma AllFixedUpTo(attrs: seq<Attr>, t: Tuple, a: nat)
    requires TupleOk(attrs, t) && a < t.natts && forall i :: 0 <= i <= a ==> !IsNull(t, i)
    requires t.hasVarlena ==> forall j :: 0 <= j <= a ==> attrs[j].attlen > 0
    ensures FixedPrefix(attrs, a + 1)
  {
    forall j | 0 <= j <= a
      ensures attrs[j].attlen > 0
    {
      assert AttrPresent(attrs, t, j) && !IsNull(t, j);
    }
  }

  // ---------- forming tuples ----------

  /** The error exits of `heap_form_tuple` and `heap_modify_tuple`. */
  datatype Failure = TooManyAttributes | BadReplFlag

  datatype Result<+T> = Ok(value: T) | Err(error: Failure)

  /** A row of values for a descriptor: one value and one flag, ' ' or 'n', per
      attribute, each value one that its attribute can hold. */
  predicate RowOk(attrs: seq<Attr>, vals: seq<Datum>, nulls: seq<char>) {
    && |vals| == |nulls| == |attrs|
    && (forall j :: 0 <= j < |attrs| ==> AttrOk(attrs[j]))
    && (forall j :: 0 <= j < |attrs| ==> nulls[j] == ' ' || nulls[j] == 'n')
    && (forall j :: 0 <= j < |attrs| && nulls[j] == ' ' ==> Holds(attrs[j], vals[j]))
  }

  function Flags(nulls: seq<char>): (f: seq<bool>)
    ensures |f| == |nulls| && forall j :: 0 <= j < |nulls| ==> f[j] == (nulls[j] != ' ')
  {
    if nulls == [] then [] else Flags(nulls[..|nulls| - 1]) + [nulls[|nulls| - 1] != ' ']
  }

  /** `compute_data_size`: where the layout of the whole row ends. */
  method ComputeDataSize(attrs: seq<Attr>, vals: seq<Datum>, nulls: seq<char>) returns (dataLength: nat)
    requires RowOk(attrs, vals, nulls)
    ensures dataLength == End(attrs, vals, Flags(nulls), |attrs|)
  {
    dataLength := 0;
    for i := 0 to |attrs|
      invariant dataLength == End(attrs, vals, Flags(nulls), i)
    {
      if nulls[i] == ' ' {
        dataLength := Aligned(dataLength, attrs[i]);
        dataLength := dataLength + |Image(attrs[i], vals[i])|;
      }
    }
  }

  /** Copies `bytes` into a buffer. */
  method Store(data: array<byte>, off: nat, bytes: seq<byte>)
    requires off + |bytes| <= data.Length
    modifies data
    ensures data[..] == old(data[..off]) + bytes + old(data[off + |bytes|..])
  {
    for i := 0 to |bytes|
      invariant data[..off] == old(data[..off])
      invariant data[off..off + i] == bytes[..i]
      invariant data[off + |bytes|..] == old(data[off + |bytes|..])
    {
      data[off + i] := bytes[i];
      assert data[off..off + i + 1] == data[off..off + i] + [bytes[i]];
    }
    assert bytes[..|bytes|] == bytes;
    assert data[..] == data[..off] + data[off..off + |bytes|] + data[off + |bytes|..];
  }

  lemma {:induction false} EndGrows(attrs: seq<Attr>, vals: seq<Datum>, nulls: seq<bool>, i: nat, j: nat)
    requires i <= j <= |attrs| == |vals| == |nulls|
    requires forall k :: 0 <= k < |attrs| ==> AttrOk(attrs[k])
    requires forall k :: 0 <= k < |attrs| && !nulls[k] ==> Holds(attrs[k], vals[k])
    ensures End(attrs, vals, nulls, i) <= End(attrs, vals, nulls, j)
  {
    if i < j {
      EndGrows(attrs, vals, nulls, i, j - 1);
    }
  }

  ghost predicate StoredTo(attrs: seq<Attr>, vals: seq<Datum>, nulls: seq<bool>, data: seq<byte>, i: nat)
    requires i <= |attrs| == |vals| == |nulls|
    requires forall j :: 0 <= j < |attrs| ==> AttrOk(attrs[j])
    requires forall j :: 0 <= j < |attrs| && !nulls[j] ==> Holds(attrs[j], vals[j])
  {
    forall j :: 0 <= j < i ==> StoredAt(attrs, vals, nulls, data, j)
  }

  /** Bytes written behind everything stored so far leave it stored. */
  lemma StoreKeeps(attrs: seq<Attr>, vals: seq<Datum>, nulls: seq<bool>, before: seq<byte>, after: seq<byte>, i: nat,
                   j: nat)
    requires j < i <= |attrs| == |vals| == |nulls| && |before| == |after|
    requires forall k :: 0 <= k < |attrs| ==> AttrOk(attrs[k])
    requires forall k :: 0 <= k < |attrs| && !nulls[k] ==> Holds(attrs[k], vals[k])
    requires End(attrs, vals, nulls, i) <= |before|
    requires before[..End(attrs, vals, nulls, i)] == after[..End(attrs, vals, nulls, i)]
    requires StoredAt(attrs, vals, nulls, before, j)
    ensures StoredAt(attrs, vals, nulls, after, j)
  {
    if !nulls[j] {
      var e, s, n := End(attrs, vals, nulls, i), Aligned(End(attrs, vals, nulls, j), attrs[j]),
        |Image(attrs[j], vals[j])|;
      EndsBefore(attrs, vals, nulls, i, j);
      SliceOfPrefix(before, after, e, s, n);
    }
  }

  lemma EndsBefore(attrs: seq<Attr>, vals: seq<Datum>, nulls: seq<bool>, i: nat, j: nat)
    requires j < i <= |attrs| == |vals| == |nulls| && !nulls[j]
    requires forall k :: 0 <= k < |attrs| ==> AttrOk(attrs[k])
    requires forall k :: 0 <= k < |attrs| && !nulls[k] ==> Holds(attrs[k], vals[k])
    ensures Aligned(End(attrs, vals, nulls, j), attrs[j]) + |Image(attrs[j], vals[j])| <= End(attrs, vals, nulls, i)
  {
    EndIs(attrs, vals, nulls, j);
    EndGrows(attrs, vals, nulls, j + 1, i);
  }

  lemma EndIs(attrs: seq<Attr>, vals: seq<Datum>, nulls: seq<bool>, j: nat)
    requires j < |attrs| == |vals| == |nulls| && !nulls[j]
    requires forall k :: 0 <= k < |attrs| ==> AttrOk(attrs[k])
    requires forall k :: 0 <= k < |attrs| && !nulls[k] ==> Holds(attrs[k], vals[k])
    ensures End(attrs, vals, nulls, j + 1) == Aligned(End(attrs, vals, nulls, j), attrs[j]) + |Image(attrs[j], vals[j])|
  {
  }

  lemma SliceOfPrefix(a: seq<byte>, b: seq<byte>, e: nat, s: nat, n: nat)
    requires e <= |a| && e <= |b| && a[..e] == b[..e] && s + n <= e
    ensures a[s..s + n] == b[s..s + n]
  {
    assert a[s..s + n] == a[..e][s..s + n];
    assert b[s..s + n] == b[..e][s..s + n];
  }

  /** Aligning a pointer into a maximally aligned buffer is aligning the offset. */
  lemma PointerAlignment(base: nat, off: nat, a: Attr)
    requires base % MAX_ALIGNMENT == 0
    ensures Aligned(base + off, a) == base + Aligned(off, a)
  {
    var n, r, s := AlignOf(a.attalign), Aligned(off, a), Aligned(base + off, a);
    ModShift(base, r, n);
    ModShift(base, s - base, n);
    AlignUpLeast(base + off, n, base + r);
    AlignUpLeast(off, n, s - base);
  }

  lemma ModShift(base: nat, x: nat, n: nat)
    requires base % MAX_ALIGNMENT == 0 && n in {1, 2, 4, 8}
    ensures (base + x) % n == 0 <==> x % n == 0
  {
    DivModFacts(base, MAX_ALIGNMENT);
    DivModFacts(x, n);
    var k := base / MAX_ALIGNMENT;
    var c := if n == 1 then 16 * k else if n == 2 then 8 * k else if n == 4 then 4 * k else 2 * k;
    assert base == c * n;
    assert base + x == (c + x / n) * n + x % n;
    DivModUnique(base + x, n, c + x / n, x % n);
  }

  /** Bit `j` of the bitmap is clear exactly for a null attribute. */
  ghost predicate BitAt(bits: seq<bv8>, f: seq<bool>, j: nat)
    requires j < |f|
  {
    j / 8 < |bits| && (BitClear(bits, j) <==> f[j])
  }

  /** The first `i` bits are written, and the rest of their last byte is zero. */
  ghost predicate BitsSoFar(bits: seq<bv8>, f: seq<bool>, i: nat)
    requires i <= |f|
  {
    && (forall j :: 0 <= j < i ==> BitAt(bits, f, j))
    && RestZero(bits, i)
  }

  ghost predicate RestZero(bits: seq<bv8>, i: nat) {
    i % 8 != 0 ==> i / 8 < |bits| && forall j :: i % 8 <= j < 8 ==> bits[i / 8] & Bit(j) == 0
  }

  /** The bytes behind those of the first `i` bits are as before. */
  ghost predicate BytesBehind(bits: seq<bv8>, was: seq<bv8>, i: nat) {
    |bits| == |was| && forall b :: (i + 7) / 8 <= b < |bits| ==> bits[b] == was[b]
  }

  /** The bitmap cursor of `data_fill` after `i` attributes. */
  ghost predicate CursorAt(bitp: int, bitmask: bv8, i: nat) {
    if i == 0 then bitp == -1 && bitmask == 128 else bitp == (i - 1) / 8 && bitmask == Bit((i - 1) % 8)
  }

  lemma ShiftBit(k: nat)
    requires k < 8
    ensures Bit(k) == 128 <==> k == 7
    ensures k < 7 ==> Bit(k) << 1 == Bit(k + 1)
  {
  }

  /** One step of the cursor: to the next bit, or to a new, cleared byte; then
      the bit is set unless the attribute is null. */
  method PutBit(bits: array<bv8>, bitp: int, bitmask: bv8, isNull: bool, ghost f: seq<bool>, ghost i: nat,
                ghost was: seq<bv8>)
    returns (bitp': int, bitmask': bv8)
    requires i < |f| <= 8 * bits.Length && f[i] == isNull && CursorAt(bitp, bitmask, i)
    requires BitsSoFar(bits[..], f, i) && BytesBehind(bits[..], was, i)
    modifies bits
    ensures CursorAt(bitp', bitmask', i + 1) && BitsSoFar(bits[..], f, i + 1) && BytesBehind(bits[..], was, i + 1)
  {
    ghost var before := bits[..];
    bitp', bitmask' := bitp, bitmask;
    CursorNext(bitp, bitmask, i);
    if bitmask' != 128 {
      bitmask' := bitmask' << 1;
    } else {
      bitp' := bitp' + 1;
      bits[bitp'] := 0;
      bitmask' := 1;
    }
    ghost var b := bits[bitp'];
    if !isNull {
      bits[bitp'] := bits[bitp'] | bitmask';
    }
    BitPut(before, bits[..], f, i, b);
    StaysBehind(before, bits[..], was, i);
  }

  lemma StaysBehind(before: seq<bv8>, after: seq<bv8>, was: seq<bv8>, i: nat)
    requires i / 8 < |before| == |after| && BytesBehind(before, was, i) && after == before[i / 8 := after[i / 8]]
    ensures BytesBehind(after, was, i + 1)
  {
    assert (i + 8) / 8 == i / 8 + 1 >= (i + 7) / 8;
  }

  lemma CursorNext(bitp: int, bitmask: bv8, i: nat)
    requires CursorAt(bitp, bitmask, i)
    ensures bitmask != 128 <==> i % 8 != 0
    ensures i % 8 != 0 ==> bitp == i / 8 && bitmask << 1 == Bit(i % 8)
    ensures i % 8 == 0 ==> bitp + 1 == i / 8 && 1 == Bit(i % 8)
    ensures CursorAt(i / 8, Bit(i % 8), i + 1)
  {
    if i > 0 {
      ShiftBit((i - 1) % 8);
    }
  }

  lemma BitPut(before: seq<bv8>, after: seq<bv8>, f: seq<bool>, i: nat, b: bv8)
    requires i < |f| && i / 8 < |before| && b == if i % 8 == 0 then 0 else before[i / 8]
    requires after == before[i / 8 := if f[i] then b else b | Bit(i % 8)]
    requires BitsSoFar(before, f, i)
    ensures BitsSoFar(after, f, i + 1)
  {
    forall j | 0 <= j < i + 1
      ensures BitAt(after, f, j)
    {
      if j < i {
        assert BitAt(before, f, j);
        EarlierBit(before, after, f, i, j, b);
      } else {
        SetBit(b, i % 8, i % 8);
      }
    }
    RestPut(before, after, i, b);
  }

  lemma EarlierBit(before: seq<bv8>, after: seq<bv8>, f: seq<bool>, i: nat, j: nat, b: bv8)
    requires j < i < |f| && i / 8 < |before| && b == if i % 8 == 0 then 0 else before[i / 8]
    requires after == before[i / 8 := if f[i] then b else b | Bit(i % 8)] && BitAt(before, f, j)
    ensures BitAt(after, f, j)
  {
    if j / 8 == i / 8 {
      assert i % 8 != 0 && j % 8 != i % 8;
      SetBit(b, i % 8, j % 8);
    }
  }

  lemma RestPut(before: seq<bv8>, after: seq<bv8>, i: nat, b: bv8)
    requires i / 8 < |before| && b == if i % 8 == 0 then 0 else before[i / 8]
    requires RestZero(before, i)
    requires after == before[i / 8 := b] || after == before[i / 8 := b | Bit(i % 8)]
    ensures RestZero(after, i + 1)
  {
    if (i + 1) % 8 != 0 {
      assert (i + 1) / 8 == i / 8 && (i + 1) % 8 == i % 8 + 1;
      forall j | i % 8 + 1 <= j < 8
        ensures after[i / 8] & Bit(j) == 0
      {
        SetBit(b, i % 8, j);
      }
    }
  }

  /** One of the first `i` attributes is null. */
  predicate NullIn(nulls: seq<char>, i: nat)
    requires i <= |nulls|
  {
    i > 0 && (NullIn(nulls, i - 1) || nulls[i - 1] == 'n')
  }

  /** One of the first `i` attributes is of variable length and not null. */
  predicate VarlenaIn(attrs: seq<Attr>, nulls: seq<char>, i: nat)
    requires i <= |nulls| && i <= |attrs|
  {
    i > 0 && (VarlenaIn(attrs, nulls, i - 1) || (nulls[i - 1] == ' ' && attrs[i - 1].attlen == -1))
  }

  /** Attribute `j` is a varlena whose header marks it as stored externally. */
  predicate ExternalAt(attrs: seq<Attr>, vals: seq<Datum>, nulls: seq<char>, j: nat)
    requires j < |attrs| == |vals| == |nulls|
  {
    nulls[j] == ' ' && attrs[j].attlen == -1 && vals[j].ByRef? && |vals[j].bytes| >= 4 && IsExternal(vals[j].bytes)
  }

  /** Attribute `j` is a varlena whose header marks it as compressed. */
  predicate CompressedAt(attrs: seq<Attr>, vals: seq<Datum>, nulls: seq<char>, j: nat)
    requires j < |attrs| == |vals| == |nulls|
  {
    nulls[j] == ' ' && attrs[j].attlen == -1 && vals[j].ByRef? && |vals[j].bytes| >= 4 && IsCompressed(vals[j].bytes)
  }

  lemma {:induction false} FlagsTell(attrs: seq<Attr>, nulls: seq<char>, i: nat)
    requires i <= |nulls| && i <= |attrs|
    ensures NullIn(nulls, i) <==> exists j :: 0 <= j < i && nulls[j] == 'n'
    ensures VarlenaIn(attrs, nulls, i) <==> exists j :: 0 <= j < i && nulls[j] == ' ' && attrs[j].attlen == -1
  {
    if i > 0 {
      FlagsTell(attrs, nulls, i - 1);
    }
  }

  /** The bits of the info mask that describe the data. */
  datatype Marks = Marks(hasNull: bool, hasVarlena: bool, hasExternal: bool, hasCompressed: bool)

  /** `data_fill`: `base` is the address of the data area, and pointers, not
      offsets, are aligned; `withBits` tells whether a bitmap was passed. */
  method DataFill(base: nat, data: array<byte>, attrs: seq<Attr>, vals: seq<Datum>, nulls: seq<char>,
                  bits: array<bv8>, withBits: bool)
    returns (marks: Marks)
    requires RowOk(attrs, vals, nulls) && base % MAX_ALIGNMENT == 0
    requires data.Length == End(attrs, vals, Flags(nulls), |attrs|)
    requires data as object != bits as object
    requires if withBits then |attrs| <= 8 * bits.Length else forall j :: 0 <= j < |attrs| ==> nulls[j] == ' '
    modifies data, bits
    ensures StoredTo(attrs, vals, Flags(nulls), data[..], |attrs|)
    ensures data[..] == Laid(attrs, vals, Flags(nulls), old(data[..]), |attrs|)
    ensures withBits ==> BitsSoFar(bits[..], Flags(nulls), |attrs|) && BytesBehind(bits[..], old(bits[..]), |attrs|)
    ensures MarksOk(attrs, vals, nulls, |attrs|, marks)
  {
    var ptr, bitp, bitmask: bv8 := base, -1, 128;
    marks := Marks(false, false, false, false);
    ghost var was, wasBits := data[..], bits[..];
    for i := 0 to |attrs|
      invariant i > |attrs| || Filling(base, ptr, data[..], was, attrs, vals, nulls, withBits, bitp, bitmask, bits[..],
                                       wasBits, marks, i)
    {
      ptr, bitp, bitmask, marks := FillTurn(base, ptr, data, attrs, vals, nulls, bits, withBits, bitp, bitmask, marks,
                                            i, was, wasBits);
    }
  }

  /** The data area while the first `i` attributes are laid out. */
  ghost predicate LaidOk(data: seq<byte>, was: seq<byte>, attrs: seq<Attr>, vals: seq<Datum>, f: seq<bool>, i: nat)
    requires i <= |attrs| == |vals| == |f|
    requires forall j :: 0 <= j < |attrs| ==> AttrOk(attrs[j])
    requires forall j :: 0 <= j < |attrs| && !f[j] ==> Holds(attrs[j], vals[j])
  {
    End(attrs, vals, f, i) <= |was| && data == Laid(attrs, vals, f, was, i) + was[End(attrs, vals, f, i)..]
  }

  lemma LaidStep(before: seq<byte>, after: seq<byte>, was: seq<byte>, attrs: seq<Attr>, vals: seq<Datum>, f: seq<bool>,
                 i: nat)
    requires i < |attrs| == |vals| == |f| && !f[i]
    requires forall j :: 0 <= j < |attrs| ==> AttrOk(attrs[j])
    requires forall j :: 0 <= j < |attrs| && !f[j] ==> Holds(attrs[j], vals[j])
    requires LaidOk(before, was, attrs, vals, f, i) && End(attrs, vals, f, i + 1) <= |before|
    requires var s := Aligned(End(attrs, vals, f, i), attrs[i]);
             var im := Image(attrs[i], vals[i]);
             s + |im| <= |before| && after == before[..s] + im + before[s + |im|..]
    ensures LaidOk(after, was, attrs, vals, f, i + 1)
  {
    var e, s, im := End(attrs, vals, f, i), Aligned(End(attrs, vals, f, i), attrs[i]), Image(attrs[i], vals[i]);
    var laid := Laid(attrs, vals, f, was, i);
    assert before[..s] == laid + was[e..s];
    assert before[s + |im|..] == was[s + |im|..];
  }

  /** The state of the loop of `data_fill` before turn `i`. */
  ghost predicate FillOk(base: nat, ptr: nat, data: seq<byte>, attrs: seq<Attr>, vals: seq<Datum>, nulls: seq<char>,
                         withBits: bool, bitp: int, bitmask: bv8, bits: seq<bv8>, marks: Marks, i: nat)
    requires RowOk(attrs, vals, nulls) && i <= |attrs|
  {
    && ptr == base + End(attrs, vals, Flags(nulls), i) && StoredTo(attrs, vals, Flags(nulls), data, i)
    && (withBits ==> CursorAt(bitp, bitmask, i) && BitsSoFar(bits, Flags(nulls), i))
    && MarksOk(attrs, vals, nulls, i, marks)
  }

  /** The same, with what the data area and the bitmap were beforehand. */
  ghost predicate Filling(base: nat, ptr: nat, data: seq<byte>, was: seq<byte>, attrs: seq<Attr>, vals: seq<Datum>,
                          nulls: seq<char>, withBits: bool, bitp: int, bitmask: bv8, bits: seq<bv8>,
                          wasBits: seq<bv8>, marks: Marks, i: nat)
    requires RowOk(attrs, vals, nulls) && i <= |attrs|
  {
    && FillOk(base, ptr, data, attrs, vals, nulls, withBits, bitp, bitmask, bits, marks, i)
    && LaidOk(data, was, attrs, vals, Flags(nulls), i) && (withBits ==> BytesBehind(bits, wasBits, i))
  }

  method FillTurn(base: nat, ptr: nat, data: array<byte>, attrs: seq<Attr>, vals: seq<Datum>, nulls: seq<char>,
                  bits: array<bv8>, withBits: bool, bitp: int, bitmask: bv8, marks: Marks, i: nat,
                  ghost was: seq<byte>, ghost wasBits: seq<bv8>)
    returns (ptr': nat, bitp': int, bitmask': bv8, marks': Marks)
    requires RowOk(attrs, vals, nulls) && base % MAX_ALIGNMENT == 0 && i < |attrs|
    requires data.Length == End(attrs, vals, Flags(nulls), |attrs|) && data as object != bits as object
    requires withBits ==> |attrs| <= 8 * bits.Length
    requires Filling(base, ptr, data[..], was, attrs, vals, nulls, withBits, bitp, bitmask, bits[..], wasBits, marks, i)
    modifies data, bits
    ensures Filling(base, ptr', data[..], was, attrs, vals, nulls, withBits, bitp', bitmask', bits[..], wasBits, marks',
                    i + 1)
  {
    ghost var f := Flags(nulls);
    bitp', bitmask' := MarkOne(bits, withBits, bitp, bitmask, nulls[i], data, f, i, wasBits);
    var im;
    ptr', im := FillOne(base, ptr, data, nulls[i] == 'n', bits, attrs, vals, i, f, was);
    marks' := Marked(attrs, vals, nulls, i, im, marks);
  }

  /** The info-mask bits of the first `i` attributes. */
  ghost predicate MarksOk(attrs: seq<Attr>, vals: seq<Datum>, nulls: seq<char>, i: nat, m: Marks)
    requires i <= |attrs| == |vals| == |nulls|
  {
    && m.hasNull == NullIn(nulls, i) && m.hasVarlena == VarlenaIn(attrs, nulls, i)
    && (m.hasExternal <==> exists j :: 0 <= j < i && ExternalAt(attrs, vals, nulls, j))
    && (m.hasCompressed <==> exists j :: 0 <= j < i && CompressedAt(attrs, vals, nulls, j))
  }

  /** The info-mask part of one turn. */
  method Marked(attrs: seq<Attr>, ghost vals: seq<Datum>, nulls: seq<char>, i: nat, im: seq<byte>, m: Marks)
    returns (m': Marks)
    requires RowOk(attrs, vals, nulls) && i < |attrs| && MarksOk(attrs, vals, nulls, i, m)
    requires nulls[i] == ' ' ==> im == Image(attrs[i], vals[i])
    ensures MarksOk(attrs, vals, nulls, i + 1, m')
  {
    m' := m;
    if nulls[i] == 'n' {
      m' := m'.(hasNull := true);
    } else if attrs[i].attlen == -1 {
      m' := Marks(m.hasNull, true, m.hasExternal || IsExternal(im), m.hasCompressed || IsCompressed(im));
    }
    assert m'.hasExternal <==> m.hasExternal || ExternalAt(attrs, vals, nulls, i);
    assert m'.hasCompressed <==> m.hasCompressed || CompressedAt(attrs, vals, nulls, i);
  }

  /** The bitmap part of one turn. */
  method MarkOne(bits: array<bv8>, withBits: bool, bitp: int, bitmask: bv8, flag: char,
                 ghost data: array<byte>, ghost f: seq<bool>, ghost i: nat, ghost was: seq<bv8>)
    returns (bitp': int, bitmask': bv8)
    requires i < |f| && f[i] == (flag == 'n') && data as object != bits as object
    requires withBits ==> |f| <= 8 * bits.Length && CursorAt(bitp, bitmask, i) && BitsSoFar(bits[..], f, i)
                          && BytesBehind(bits[..], was, i)
    modifies bits
    ensures withBits ==> BytesBehind(bits[..], was, i + 1)
    ensures withBits ==> CursorAt(bitp', bitmask', i + 1) && BitsSoFar(bits[..], f, i + 1)
    ensures data[..] == old(data[..])
  {
    bitp', bitmask' := bitp, bitmask;
    if withBits {
      bitp', bitmask' := PutBit(bits, bitp, bitmask, flag == 'n', f, i, was);
    }
  }

  /** The data part of one turn: unless null, align the pointer, store, advance. */
  method FillOne(base: nat, ptr: nat, data: array<byte>, isNull: bool, ghost bits: array<bv8>,
                 attrs: seq<Attr>, vals: seq<Datum>, i: nat, ghost f: seq<bool>, ghost was: seq<byte>)
    returns (ptr': nat, im: seq<byte>)
    requires i < |attrs| == |vals| == |f| && f[i] == isNull && base % MAX_ALIGNMENT == 0
    requires forall j :: 0 <= j < |attrs| ==> AttrOk(attrs[j])
    requires forall j :: 0 <= j < |attrs| && !f[j] ==> Holds(attrs[j], vals[j])
    requires data.Length == End(attrs, vals, f, |attrs|) && ptr == base + End(attrs, vals, f, i)
    requires StoredTo(attrs, vals, f, data[..], i) && data as object != bits as object
    requires LaidOk(data[..], was, attrs, vals, f, i)
    modifies data
    ensures LaidOk(data[..], was, attrs, vals, f, i + 1)
    ensures ptr' == base + End(attrs, vals, f, i + 1) && (!isNull ==> im == Image(attrs[i], vals[i]))
    ensures StoredTo(attrs, vals, f, data[..], i + 1) && bits[..] == old(bits[..])
  {
    if isNull {
      assert StoredAt(attrs, vals, f, data[..], i);
      return ptr, [];
    }
    PointerAlignment(base, ptr - base, attrs[i]);
    ptr' := Aligned(ptr, attrs[i]);
    im := Image(attrs[i], vals[i]);
    PutAttr(data, ptr' - base, im, attrs, vals, f, i, was);
    ptr' := ptr' + |im|;
  }

  /** Stores the image of attribute `i` behind those of the attributes before. */
  method PutAttr(data: array<byte>, off: nat, im: seq<byte>, ghost attrs: seq<Attr>, ghost vals: seq<Datum>,
                 ghost f: seq<bool>, ghost i: nat, ghost was: seq<byte>)
    requires i < |attrs| == |vals| == |f| && !f[i]
    requires forall j :: 0 <= j < |attrs| ==> AttrOk(attrs[j])
    requires forall j :: 0 <= j < |attrs| && !f[j] ==> Holds(attrs[j], vals[j])
    requires data.Length == End(attrs, vals, f, |attrs|)
    requires off == Aligned(End(attrs, vals, f, i), attrs[i]) && im == Image(attrs[i], vals[i])
    requires StoredTo(attrs, vals, f, data[..], i) && LaidOk(data[..], was, attrs, vals, f, i)
    modifies data
    ensures StoredTo(attrs, vals, f, data[..], i + 1) && LaidOk(data[..], was, attrs, vals, f, i + 1)
  {
    ghost var before, end := data[..], End(attrs, vals, f, i);
    EndGrows(attrs, vals, f, i + 1, |attrs|);
    Store(data, off, im);
    ghost var after := data[..];
    assert after[..end] == before[..end];
    StoredOn(attrs, vals, f, before, after, i);
    LaidStep(before, after, was, attrs, vals, f, i);
  }

  /** The values stored so far, and the next one behind them. */
  lemma StoredOn(attrs: seq<Attr>, vals: seq<Datum>, f: seq<bool>, before: seq<byte>, after: seq<byte>, i: nat)
    requires i < |attrs| == |vals| == |f| && |before| == |after|
    requires forall j :: 0 <= j < |attrs| ==> AttrOk(attrs[j])
    requires forall j :: 0 <= j < |attrs| && !f[j] ==> Holds(attrs[j], vals[j])
    requires End(attrs, vals, f, i) <= |before|
    requires before[..End(attrs, vals, f, i)] == after[..End(attrs, vals, f, i)]
    requires StoredTo(attrs, vals, f, before, i) && StoredAt(attrs, vals, f, after, i)
    ensures StoredTo(attrs, vals, f, after, i + 1)
  {
    forall j | 0 <= j < i + 1
      ensures StoredAt(attrs, vals, f, after, j)
    {
      if j < i {
        assert StoredAt(attrs, vals, f, before, j);
        StoreKeeps(attrs, vals, f, before, after, i, j);
      }
    }
  }

  /** The scan that decides whether a bitmap is needed. */
  method AnyNull(nulls: seq<char>) returns (hasNull: bool)
    requires forall j :: 0 <= j < |nulls| ==> nulls[j] == ' ' || nulls[j] == 'n'
    ensures hasNull <==> exists j :: 0 <= j < |nulls| && nulls[j] == 'n'
  {
    for i := 0 to |nulls|
      invariant forall j :: 0 <= j < i ==> nulls[j] == ' '
    {
      if nulls[i] != ' ' {
        return true;
      }
    }
    return false;
  }

  /** A tuple holds a row: it reads back as the given values and nulls. */
  ghost predicate HoldsRow(attrs: seq<Attr>, vals: seq<Datum>, nulls: seq<char>, t: Tuple)
    requires RowOk(attrs, vals, nulls)
  {
    && TupleOk(attrs, t) && t.natts == |attrs|
    && (t.hasNull <==> exists j :: 0 <= j < |nulls| && nulls[j] == 'n')
    && (t.hasVarlena <==> exists j :: 0 <= j < |nulls| && nulls[j] == ' ' && attrs[j].attlen == -1)
    && (t.hasExternal <==> exists j :: 0 <= j < |attrs| && ExternalAt(attrs, vals, nulls, j))
    && (t.hasCompressed <==> exists j :: 0 <= j < |attrs| && CompressedAt(attrs, vals, nulls, j))
    && forall j :: 0 <= j < |attrs| ==> Read(attrs, t, j) == Formed(attrs, vals, Flags(nulls), j)
  }

  /** The header of a row: without nulls there is no bitmap; otherwise it is the
      shortest in groups of four bytes with a bit for every attribute, and its
      bytes behind those bits are zero. The data begins at the first maximally
      aligned offset behind, which fits its 8-bit field. */
  ghost predicate HeaderOk(nulls: seq<char>, t: Tuple) {
    && ((forall j :: 0 <= j < |nulls| ==> nulls[j] == ' ') ==> t.bits == [])
    && ((exists j :: 0 <= j < |nulls| && nulls[j] != ' ') ==>
          |t.bits| % 4 == 0 && 8 * (|t.bits| - 4) < |nulls| <= 8 * |t.bits|)
    && (forall b :: (|nulls| + 7) / 8 <= b < |t.bits| ==> t.bits[b] == 0)
    && t.hoff % MAX_ALIGNMENT == 0 && 0 <= t.hoff - (31 + |t.bits|) < MAX_ALIGNMENT && t.hoff < 256
  }

  ghost function Zeros(n: nat): (s: seq<byte>)
    ensures |s| == n && forall i :: 0 <= i < n ==> s[i] == 0
  {
    seq(n, _ => 0)
  }

  /** `heap_form_tuple`: `base` is the address at which the data area comes to
      lie, maximally aligned like the header before it. */
  method HeapFormTuple(attrs: seq<Attr>, vals: seq<Datum>, nulls: seq<char>, base: nat) returns (r: Result<Tuple>)
    requires RowOk(attrs, vals, nulls) && base % MAX_ALIGNMENT == 0
    ensures r == Err(TooManyAttributes) <==> |attrs| > MAX_HEAP_ATTRIBUTE_NUMBER
    ensures |attrs| <= MAX_HEAP_ATTRIBUTE_NUMBER ==>
              && r.Ok? && HoldsRow(attrs, vals, nulls, r.value)
              && HeaderOk(nulls, r.value)
              && var end := End(attrs, vals, Flags(nulls), |attrs|);
                 r.value.data == Laid(attrs, vals, Flags(nulls), Zeros(end), |attrs|)
  {
    if |attrs| > MAX_HEAP_ATTRIBUTE_NUMBER {
      return Err(TooManyAttributes);
    }
    var withNulls := AnyNull(nulls);
    var bitmapLen := if withNulls then BitMapLen(|attrs|) else 0;
    var hoff := HeaderOffset(|attrs|, withNulls);
    assert withNulls ==> |attrs| <= 8 * bitmapLen by {
      HeaderFits(|attrs|, withNulls);
    }
    var len := ComputeDataSize(attrs, vals, nulls);
    var data := new byte[len](_ => 0);
    var bits := new bv8[bitmapLen](_ => 0);
    ghost var wasBits := bits[..];
    assert data[..] == Zeros(len);
    var m := DataFill(base, data, attrs, vals, nulls, bits, withNulls);
    var t := Tuple(|attrs|, hoff, m.hasNull, m.hasVarlena, m.hasExternal, m.hasCompressed, bits[..], data[..]);
    FlagsTell(attrs, nulls, |attrs|);
    FormedHeader(attrs, nulls, withNulls, t, wasBits);
    FilledHoldsRow(attrs, vals, nulls, t);
    r := Ok(t);
  }

  lemma FormedHeader(attrs: seq<Attr>, nulls: seq<char>, hasNull: bool, t: Tuple, was: seq<bv8>)
    requires |attrs| == |nulls| <= MAX_HEAP_ATTRIBUTE_NUMBER
    requires forall j :: 0 <= j < |nulls| ==> nulls[j] == ' ' || nulls[j] == 'n'
    requires hasNull <==> exists j :: 0 <= j < |nulls| && nulls[j] == 'n'
    requires |t.bits| == (if hasNull then BitMapLen(|attrs|) else 0) && t.hoff == HeaderOffset(|attrs|, hasNull)
    requires hasNull ==> BytesBehind(t.bits, was, |attrs|)
    requires forall b :: 0 <= b < |was| ==> was[b] == 0
    ensures HeaderOk(nulls, t)
  {
    HeaderFits(|attrs|, hasNull);
  }

  lemma FilledHoldsRow(attrs: seq<Attr>, vals: seq<Datum>, nulls: seq<char>, t: Tuple)
    requires RowOk(attrs, vals, nulls) && t.natts == |attrs|
    requires StoredTo(attrs, vals, Flags(nulls), t.data, |attrs|)
    requires MarksOk(attrs, vals, nulls, |attrs|, Marks(t.hasNull, t.hasVarlena, t.hasExternal, t.hasCompressed))
    requires t.hasNull ==> |attrs| <= 8 * |t.bits| && BitsSoFar(t.bits, Flags(nulls), |attrs|)
    ensures HoldsRow(attrs, vals, nulls, t)
  {
    var f := Flags(nulls);
    FlagsTell(attrs, nulls, |attrs|);
    forall j | 0 <= j < |attrs|
      ensures FormedAt(attrs, vals, f, t, j)
    {
      assert StoredAt(attrs, vals, f, t.data, j);
      assert t.hasNull ==> BitAt(t.bits, f, j);
    }
    FormedReads(attrs, vals, f, t);
  }

  /** What attribute `j` of a modified tuple is to be. */
  ghost function Modified(attrs: seq<Attr>, t: Tuple, replVals: seq<Datum>, replNulls: seq<char>, repl: seq<char>,
                          j: nat)
    : Option<Datum>
    requires j < |attrs| == |replVals| == |replNulls| == |repl|
    requires TupleOk(attrs, t)
    requires repl[j] == 'r' && replNulls[j] == ' ' ==> Holds(attrs[j], replVals[j])
  {
    if repl[j] != 'r' then Read(attrs, t, j)
    else Formed(attrs, replVals, Flags(replNulls), j)
  }

  /** The replacement arguments of `heap_modify_tuple`. */
  ghost predicate ReplOk(attrs: seq<Attr>, replVals: seq<Datum>, replNulls: seq<char>, repl: seq<char>) {
    && |attrs| == |replVals| == |replNulls| == |repl|
    && (forall j :: 0 <= j < |attrs| && repl[j] == 'r' ==> replNulls[j] == ' ' || replNulls[j] == 'n')
    && (forall j :: 0 <= j < |attrs| && repl[j] == 'r' && replNulls[j] == ' ' ==> Holds(attrs[j], replVals[j]))
  }

  /** The value and flag that `heap_modify_tuple` collects for attribute `j`. */
  ghost predicate Collected(attrs: seq<Attr>, t: Tuple, replVals: seq<Datum>, replNulls: seq<char>, repl: seq<char>,
                            vals: seq<Datum>, nulls: seq<char>, j: nat)
    requires ReplOk(attrs, replVals, replNulls, repl) && TupleOk(attrs, t)
    requires j < |attrs| && j < |vals| && j < |nulls|
  {
    && (nulls[j] == ' ' || nulls[j] == 'n')
    && (nulls[j] == ' ' ==> Holds(attrs[j], vals[j]))
    && Modified(attrs, t, replVals, replNulls, repl, j)
       == if nulls[j] == 'n' then None else Some(Masked(attrs[j], vals[j]))
  }

  /** `heap_modify_tuple`: replaces exactly the attributes marked 'r'. */
  method HeapModifyTuple(desc: TupleDesc, t: Tuple, replVals: seq<Datum>, replNulls: seq<char>, repl: seq<char>,
                         base: nat)
    returns (r: Result<Tuple>)
    requires desc.Valid() && TupleOk(desc.attrs, t) && base % MAX_ALIGNMENT == 0
    requires ReplOk(desc.attrs, replVals, replNulls, repl)
    modifies desc`attcacheoff
    ensures desc.Valid()
    ensures r == Err(BadReplFlag) <==> exists j :: 0 <= j < |repl| && repl[j] != ' ' && repl[j] != 'r'
    ensures r.Ok? <==> (forall j :: 0 <= j < |repl| ==> repl[j] == ' ' || repl[j] == 'r')
                       && |desc.attrs| <= MAX_HEAP_ATTRIBUTE_NUMBER
    ensures r.Ok? ==> TupleOk(desc.attrs, r.value) && r.value.natts == |desc.attrs|
    ensures r.Ok? ==> forall j :: 0 <= j < |desc.attrs| ==>
              Read(desc.attrs, r.value, j) == Modified(desc.attrs, t, replVals, replNulls, repl, j)
  {
    var vals, nulls := [], [];
    for attoff := 0 to |repl|
      invariant desc.Valid() && |vals| == |nulls| == attoff
      invariant forall j :: 0 <= j < attoff ==> repl[j] == ' ' || repl[j] == 'r'
      invariant forall j :: 0 <= j < attoff ==> Collected(desc.attrs, t, replVals, replNulls, repl, vals, nulls, j)
    {
      ghost var vals0, nulls0 := vals, nulls;
      if repl[attoff] == ' ' {
        var value := desc.HeapGetAttr(t, attoff + 1);
        ReadHolds(desc.attrs, t, attoff);
        vals := vals + [if value.Some? then value.value else ByVal(0)];
        nulls := nulls + [if value.Some? then ' ' else 'n'];
      } else if repl[attoff] != 'r' {
        return Err(BadReplFlag);
      } else {
        vals := vals + [replVals[attoff]];
        nulls := nulls + [replNulls[attoff]];
      }
      StaysCollected(desc.attrs, t, replVals, replNulls, repl, vals0, nulls0, vals, nulls);
    }
    CollectedRow(desc.attrs, t, replVals, replNulls, repl, vals, nulls);
    r := HeapFormTuple(desc.attrs, vals, nulls, base);
    if r.Ok? {
      ModifiedReads(desc.attrs, t, replVals, replNulls, repl, vals, nulls, r.value);
    }
  }

  /** What has been collected stays so when one more value is appended. */
  lemma StaysCollected(attrs: seq<Attr>, t: Tuple, replVals: seq<Datum>, replNulls: seq<char>, repl: seq<char>,
                       vals: seq<Datum>, nulls: seq<char>, vals': seq<Datum>, nulls': seq<char>)
    requires ReplOk(attrs, replVals, replNulls, repl) && TupleOk(attrs, t) && |vals| == |nulls| < |attrs|
    requires |vals'| == |nulls'| == |vals| + 1 && vals'[..|vals|] == vals && nulls'[..|vals|] == nulls
    requires forall j :: 0 <= j < |vals| ==> Collected(attrs, t, replVals, replNulls, repl, vals, nulls, j)
    ensures forall j :: 0 <= j < |vals| ==> Collected(attrs, t, replVals, replNulls, repl, vals', nulls', j)
  {
    forall j | 0 <= j < |vals|
      ensures Collected(attrs, t, replVals, replNulls, repl, vals', nulls', j)
    {
      assert Collected(attrs, t, replVals, replNulls, repl, vals, nulls, j);
      assert vals'[j] == vals'[..|vals|][j] && nulls'[j] == nulls'[..|vals|][j];
    }
  }

  /** A tuple that holds the collected row reads as the modified one is to. */
  lemma ModifiedReads(attrs: seq<Attr>, t: Tuple, replVals: seq<Datum>, replNulls: seq<char>, repl: seq<char>,
                      vals: seq<Datum>, nulls: seq<char>, r: Tuple)
    requires ReplOk(attrs, replVals, replNulls, repl) && TupleOk(attrs, t)
    requires RowOk(attrs, vals, nulls) && HoldsRow(attrs, vals, nulls, r)
    requires forall j :: 0 <= j < |attrs| ==> Collected(attrs, t, replVals, replNulls, repl, vals, nulls, j)
    ensures forall j :: 0 <= j < |attrs| ==> Read(attrs, r, j) == Modified(attrs, t, replVals, replNulls, repl, j)
  {
    forall j | 0 <= j < |attrs|
      ensures Read(attrs, r, j) == Modified(attrs, t, replVals, replNulls, repl, j)
    {
      assert Collected(attrs, t, replVals, replNulls, repl, vals, nulls, j);
    }
  }

  lemma ReadHolds(attrs: seq<Attr>, t: Tuple, j: nat)
    requires TupleOk(attrs, t) && j < |attrs|
    ensures var r := Read(attrs, t, j);
            r.Some? ==> AttrOk(attrs[j]) && Holds(attrs[j], r.value) && Masked(attrs[j], r.value) == r.value
  {
    if j < t.natts && !IsNull(t, j) {
      assert AttrPresent(attrs, t, j);
      FetchHolds(attrs[j], t.data, WalkStart(attrs, t, j));
    }
  }

  lemma CollectedRow(attrs: seq<Attr>, t: Tuple, replVals: seq<Datum>, replNulls: seq<char>, repl: seq<char>,
                     vals: seq<Datum>, nulls: seq<char>)
    requires ReplOk(attrs, replVals, replNulls, repl) && TupleOk(attrs, t) && |vals| == |nulls| == |attrs|
    requires forall j :: 0 <= j < |attrs| ==> Collected(attrs, t, replVals, replNulls, repl, vals, nulls, j)
    ensures RowOk(attrs, vals, nulls)
  {
    forall j | 0 <= j < |attrs|
      ensures (nulls[j] == ' ' || nulls[j] == 'n') && (nulls[j] == ' ' ==> Holds(attrs[j], vals[j]))
    {
      assert Collected(attrs, t, replVals, replNulls, repl, vals, nulls, j);
    }
  }

  const TABLE_OID_ATTRIBUTE_NUMBER: int := -7

  /** `heap_att_is_null`: an error for attribute number 0 and for numbers below
      those of the system attributes, if the tuple has any null at all. */
  method HeapAttIsNull(attrs: seq<Attr>, t: Tuple, attnum: int) returns (r: Option<bool>)
    requires TupleOk(attrs, t)
    ensures attnum > 0 ==> r == Some(Read(attrs, t, attnum - 1) == None)
    ensures attnum <= 0 ==> r == if t.hasNull && (attnum == 0 || attnum < TABLE_OID_ATTRIBUTE_NUMBER) then None
            else Some(false)
  {
    if attnum > t.natts {
      return Some(true);
    }
    if !t.hasNull {
      return Some(false);
    }
    if attnum > 0 {
      return Some(BitClear(t.bits, attnum - 1));
    }
    if TABLE_OID_ATTRIBUTE_NUMBER <= attnum < 0 {
      return Some(false);
    }
    return None;
  }
}
