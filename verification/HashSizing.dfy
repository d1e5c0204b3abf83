/** How large a dynamic hash table can get: the sizing arithmetic of
    `init_htab`, `hash_select_dirsize` and `hash_estimate_size`. */
module HashSizing {
  import opened Bits
  import opened Storage

  const DEF_FFACTOR: nat := 1
  const DEF_SEGSIZE_SHIFT: nat := 8
  const DEF_SEGSIZE: nat := 256
  const DEF_DIRSIZE: nat := 256
  const BUCKET_ALLOC_INCR: nat := 30
  const SIZEOF_LONG: nat := 8
  const SIZEOF_HHDR: nat := 15 * SIZEOF_LONG

  /** `my_log2`: the least exponent whose power of two reaches `num`. */
  method MyLog2(num: int) returns (i: nat)
    ensures num <= Pow2(i)
    ensures i > 0 ==> Pow2(i - 1) < num
  {
    var limit;
    i, limit := 0, 1;
    while limit < num
      invariant limit == Pow2(i)
      invariant i > 0 ==> Pow2(i - 1) < num
      decreases num - limit
    {
      i, limit := i + 1, 2 * limit;
    }
  }

  /** The exponent that `MyLog2` finds, as a function. */
  ghost function Log2(num: int): (i: nat)
    ensures num <= Pow2(i)
    ensures i > 0 ==> Pow2(i - 1) < num
  {
    if num <= 1 then 0
    else
      assert (num + 1) / 2 < num;
      Log2((num + 1) / 2) + 1
  }

  lemma Log2Unique(num: int, i: nat)
    requires num <= Pow2(i) && (i > 0 ==> Pow2(i - 1) < num)
    ensures i == Log2(num)
  {
    var j := Log2(num);
    if i > 0 {
      Pow2Reflects(i - 1, j);
    }
    if j > 0 {
      Pow2Reflects(j - 1, i);
    }
  }

  lemma Log2Monotone(x: int, y: int)
    requires x <= y
    ensures Log2(x) <= Log2(y) && Pow2(Log2(x)) <= Pow2(Log2(y))
  {
    if Log2(x) > 0 {
      Pow2Reflects(Log2(x) - 1, Log2(y));
    }
    Pow2Monotone(Log2(x), Log2(y));
  }

  lemma Pow2Reflects(m: nat, n: nat)
    ensures Pow2(m) < Pow2(n) ==> m < n
  {
    if n <= m {
      Pow2Monotone(n, m);
    }
  }

  /** Buckets wanted for `n` entries at fill factor `ff`. */
  ghost function Buckets(n: int, ff: nat): nat
    requires ff > 0
  {
    Pow2(Log2(CDiv(n - 1, ff) + 1))
  }

  /** Segments of size `ss` that hold `nbuckets` headers, as a power of two. */
  ghost function Segments(nbuckets: nat, ss: nat): nat
    requires ss > 0 && nbuckets > 0
  {
    Pow2(Log2((nbuckets - 1) / ss + 1))
  }

  /** Groups of elements counted for `n` entries: as many as hold them, at least
      one if there are none, and fewer, even below zero, for negative numbers. */
  ghost function Groups(n: int): int {
    CDiv(n - 1, BUCKET_ALLOC_INCR) + 1
  }

  /** For at least one entry these are the least numbers that suffice: of groups
      to hold the entries, of buckets (a power of two) to stay within the fill
      factor, and of segments (a power of two) to hold the bucket headers. */
  lemma PlanIsLeast(n: nat, ff: nat, ss: nat)
    requires n > 0 && ff > 0 && ss > 0
    ensures BUCKET_ALLOC_INCR * (Groups(n) - 1) < n <= BUCKET_ALLOC_INCR * Groups(n)
    ensures IsLeastPower(Buckets(n, ff), ff, n)
    ensures IsLeastPower(Segments(Buckets(n, ff), ss), ss, Buckets(n, ff))
  {
    DivModFacts(n - 1, BUCKET_ALLOC_INCR);
    LeastPower(n, ff);
    LeastPower(Buckets(n, ff), ss);
  }

  /** `p` is the least power of two with `p * d >= n`. */
  ghost predicate IsLeastPower(p: nat, d: nat, n: nat) {
    exists e: nat :: p == Pow2(e) && n <= p * d && (e > 0 ==> Pow2(e - 1) * d < n)
  }

  lemma LeastPower(n: nat, d: nat)
    requires n > 0 && d > 0
    ensures (n - 1) / d >= 0 && IsLeastPower(Pow2(Log2((n - 1) / d + 1)), d, n)
  {
    DivNat(n - 1, d);
    var e := Log2((n - 1) / d + 1);
    QuotientBounds(n, d, Pow2(e));
    if e > 0 {
      QuotientBounds(n, d, Pow2(e - 1));
    }
  }

  lemma QuotientBounds(n: nat, d: nat, p: nat)
    requires n > 0 && d > 0
    ensures (n - 1) / d + 1 <= p <==> n <= p * d
  {
    var q := (n - 1) / d;
    DivModFacts(n - 1, d);
    if q + 1 <= p {
      MulMonotone(q + 1, p, d);
    } else {
      MulMonotone(p, q, d);
    }
  }

  /** A directory size: the default doubled until it has `nsegments` entries. */
  ghost predicate IsDirSize(d: nat, nsegments: nat) {
    && nsegments <= d && DEF_DIRSIZE <= d
    && (d == DEF_DIRSIZE || d < 2 * nsegments)
    && exists n: nat :: d == DEF_DIRSIZE * Pow2(n)
  }

  lemma CDivMonotone(a: int, b: int, d: int)
    requires a <= b && d > 0
    ensures CDiv(a, d) <= CDiv(b, d)
  {
    DivMonotone(if a >= 0 then a else 0, if b >= 0 then b else 0, d);
    DivMonotone(if b < 0 then -b else 0, if a < 0 then -a else 0, d);
    DivModFacts(if b >= 0 then b else -b, d);
    DivModFacts(if a >= 0 then a else -a, d);
    DivNonNegative(if b >= 0 then b else -b, d);
    DivNonNegative(if a >= 0 then a else -a, d);
  }

  lemma DivNonNegative(a: int, d: int)
    requires a >= 0 && d > 0
    ensures a / d >= 0
  {
    DivNat(a, d);
  }

  lemma DivMonotone(a: int, b: int, d: int)
    requires 0 <= a <= b && d > 0
    ensures a / d <= b / d
  {
    DivModFacts(a, d);
    DivModFacts(b, d);
    var c := a / d - b / d;
    assert c * d == a - a % d - (b - b % d);
    MulAtLeast(c, d);
  }

  lemma BucketsMonotone(a: int, b: int, ff: nat)
    requires a <= b && ff > 0
    ensures Buckets(a, ff) <= Buckets(b, ff)
  {
    CDivMonotone(a - 1, b - 1, ff);
    Log2Monotone(CDiv(a - 1, ff) + 1, CDiv(b - 1, ff) + 1);
  }

  lemma SegmentsMonotone(a: nat, b: nat, ss: nat)
    requires 0 < a <= b && ss > 0
    ensures Segments(a, ss) <= Segments(b, ss)
  {
    var x, y := (a - 1) / ss, (b - 1) / ss;
    DivMonotone(a - 1, b - 1, ss);
    DivNonNegative(a - 1, ss);
    Log2Monotone(x + 1, y + 1);
  }

  /** Enough segments: header `b` of a table of `nbuckets` lies within them. */
  lemma SegmentsCover(b: nat, nbuckets: nat, ss: nat)
    requires b < nbuckets && ss > 0
    ensures b / ss + 1 <= Segments(nbuckets, ss)
  {
    DivMonotone(b, nbuckets - 1, ss);
  }

  /** The number of buckets never passes what the maximum number of entries
      asks for: a table of `nb` buckets is only expanded on the entry of key
      number `nkeys` if the fill factor is exceeded. */
  lemma ExpansionStaysWithin(nkeys: nat, nb: nat, ff: nat, n: int)
    requires nb > 0 && ff > 0 && nkeys <= n && nkeys / nb > ff
    ensures nb + 1 <= Buckets(n, ff)
  {
    DivModFacts(nkeys, nb);
    var q := nkeys / nb;
    MulAtLeast(q - ff, nb);
    assert (q - ff) * nb == q * nb - ff * nb;
    assert nkeys >= (ff + 1) * nb;
    assert n - 1 >= ff * nb + (nb - 1);
    DivModUnique(ff * nb, ff, nb, 0);
    DivMonotone(ff * nb, n - 1, ff);
  }

  /** The bucket and segment counts that both sizing routines begin with. */
  method NSegments(numEntries: int) returns (nsegments: nat)
    ensures nsegments == Segments(Buckets(numEntries, DEF_FFACTOR), DEF_SEGSIZE)
  {
    var e := MyLog2(CDiv(numEntries - 1, DEF_FFACTOR) + 1);
    Log2Unique(CDiv(numEntries - 1, DEF_FFACTOR) + 1, e);
    var nbuckets := Pow2(e);
    e := MyLog2((nbuckets - 1) / DEF_SEGSIZE + 1);
    Log2Unique((nbuckets - 1) / DEF_SEGSIZE + 1, e);
    nsegments := Pow2(e);
  }

  /** `hash_select_dirsize`. */
  method HashSelectDirsize(numEntries: int) returns (ndirEntries: nat)
    ensures IsDirSize(ndirEntries, Segments(Buckets(numEntries, DEF_FFACTOR), DEF_SEGSIZE))
  {
    var nsegments := NSegments(numEntries);
    ndirEntries := DirEntries(nsegments);
  }

  method DirEntries(nsegments: nat) returns (ndirEntries: nat)
    ensures IsDirSize(ndirEntries, nsegments)
  {
    ndirEntries := DEF_DIRSIZE;
    ghost var n := 0;
    while ndirEntries < nsegments
      invariant ndirEntries == DEF_DIRSIZE * Pow2(n)
      invariant ndirEntries >= DEF_DIRSIZE && (ndirEntries == DEF_DIRSIZE || ndirEntries < 2 * nsegments)
      decreases nsegments - ndirEntries
    {
      ndirEntries, n := 2 * ndirEntries, n + 1;
    }
  }

  /** The aligned bytes of a table with its header, a directory of `dsize`
      entries, `nsegs` segments and `groups` groups of records. */
  ghost function TableBytes(dsize: nat, nsegs: nat, ssize: nat, groups: int, elemSize: nat): int {
    AlignUp(SIZEOF_HHDR, MAX_ALIGNMENT)
    + AlignUp(dsize * SIZEOF_LONG, MAX_ALIGNMENT)
    + nsegs * AlignUp(ssize * SIZEOF_LONG, MAX_ALIGNMENT)
    + groups * BUCKET_ALLOC_INCR * elemSize
  }

  /** The size of a record: the least multiple of the alignment with room for
      the link, all bytes of the key and all bytes of the data. */
  ghost predicate IsRecord(size: nat, keysize: nat, datasize: nat) {
    && size % MAX_ALIGNMENT == 0
    && SIZEOF_LONG + keysize + datasize <= size
    && size - MAX_ALIGNMENT < SIZEOF_LONG + keysize + datasize
  }

  function RecordSize(keysize: nat, datasize: nat): (size: nat)
    ensures IsRecord(size, keysize, datasize)
  {
    AlignUp(SIZEOF_LONG + keysize + datasize, MAX_ALIGNMENT)
  }

  /** There is only one record size, so that whoever computes one computes the
      same. */
  lemma RecordUnique(size: nat, size': nat, keysize: nat, datasize: nat)
    requires IsRecord(size, keysize, datasize) && IsRecord(size', keysize, datasize)
    ensures size == size'
  {
    AlignUpUnique(SIZEOF_LONG + keysize + datasize, MAX_ALIGNMENT);
  }

  /** `hash_estimate_size`: the bytes of a table that has the directory
      `hash_select_dirsize` chooses and every segment and group it can need. */
  method HashEstimateSize(numEntries: int, keysize: nat, datasize: nat) returns (size: int)
    ensures var nsegs := Segments(Buckets(numEntries, DEF_FFACTOR), DEF_SEGSIZE);
            exists d, r :: IsDirSize(d, nsegs) && IsRecord(r, keysize, datasize)
                           && size == TableBytes(d, nsegs, DEF_SEGSIZE, Groups(numEntries), r)
  {
    var nsegments := NSegments(numEntries);
    var ndirEntries := DirEntries(nsegments);
    size := AlignUp(SIZEOF_HHDR, MAX_ALIGNMENT);
    size := size + AlignUp(ndirEntries * SIZEOF_LONG, MAX_ALIGNMENT);
    size := size + nsegments * AlignUp(DEF_SEGSIZE * SIZEOF_LONG, MAX_ALIGNMENT);
    var recordSize := AlignUp(SIZEOF_LONG + keysize + datasize, MAX_ALIGNMENT);
    var nrecordAllocs := CDiv(numEntries - 1, BUCKET_ALLOC_INCR) + 1;
    size := size + nrecordAllocs * BUCKET_ALLOC_INCR * recordSize;
    assert IsRecord(recordSize, keysize, datasize);
  }

  /** There is only one directory size for a number of segments. */
  lemma DirSizeUnique(d: nat, d': nat, nsegments: nat)
    requires IsDirSize(d, nsegments) && IsDirSize(d', nsegments)
    ensures d == d'
  {
    var n: nat :| d == DEF_DIRSIZE * Pow2(n);
    var n': nat :| d' == DEF_DIRSIZE * Pow2(n');
    if n > 0 {
      Pow2Reflects(n - 1, n');
    }
    if n' > 0 {
      Pow2Reflects(n' - 1, n);
    }
  }

  /** One more segment, or one more group, costs its own bytes. */
  lemma TableBytesStep(dsize: nat, nsegs: nat, ssize: nat, groups: nat, elemSize: nat)
    ensures TableBytes(dsize, nsegs + 1, ssize, groups, elemSize)
            == TableBytes(dsize, nsegs, ssize, groups, elemSize) + AlignUp(ssize * SIZEOF_LONG, MAX_ALIGNMENT)
    ensures TableBytes(dsize, nsegs, ssize, groups + 1, elemSize)
            == TableBytes(dsize, nsegs, ssize, groups, elemSize) + BUCKET_ALLOC_INCR * elemSize
  {
    var a := AlignUp(ssize * SIZEOF_LONG, MAX_ALIGNMENT);
    assert (nsegs + 1) * a == nsegs * a + a;
    assert (groups + 1) * BUCKET_ALLOC_INCR * elemSize
        == groups * BUCKET_ALLOC_INCR * elemSize + BUCKET_ALLOC_INCR * elemSize;
  }

  lemma TableBytesMonotone(dsize: nat, nsegs: nat, nsegs': nat, ssize: nat, groups: int, groups': int, elemSize: nat)
    requires nsegs <= nsegs' && groups <= groups'
    ensures TableBytes(dsize, nsegs, ssize, groups, elemSize) <= TableBytes(dsize, nsegs', ssize, groups', elemSize)
  {
    var a := AlignUp(ssize * SIZEOF_LONG, MAX_ALIGNMENT);
    assert (nsegs' - nsegs) * a >= 0 && (nsegs' - nsegs) * a == nsegs' * a - nsegs * a;
    var b := BUCKET_ALLOC_INCR * elemSize;
    assert (groups' - groups) * b >= 0 && (groups' - groups) * b == groups' * b - groups * b;
    assert groups * BUCKET_ALLOC_INCR * elemSize == groups * b;
    assert groups' * BUCKET_ALLOC_INCR * elemSize == groups' * b;
  }
}
