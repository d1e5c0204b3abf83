/** A table planned for a number of entries, as shared-memory tables are: its
    directory is chosen and its memory reserved before it is made. */
module HashPlan {
  import opened HashSizing
  import opened DynaHash

  /** The segments that a default table needs for `n` entries. */
  ghost function PlannedSegments(n: int): nat {
    Segments(Buckets(n, DEF_FFACTOR), DEF_SEGSIZE)
  }

  /** The table has every segment and every group that `n` entries can need. */
  ghost predicate FullyGrown<K(!new), V(!new)>(t: HashTable<K, V>, n: nat)
    reads t
  {
    t.nsegs == PlannedSegments(n) && t.g.groups == Groups(n)
  }

  /** `size` is what `hash_estimate_size` makes of `n` entries of `elemSize` bytes. */
  ghost predicate IsEstimate(size: int, n: nat, elemSize: nat) {
    exists d :: IsDirSize(d, PlannedSegments(n))
      && size == TableBytes(d, PlannedSegments(n), DEF_SEGSIZE, Groups(n), elemSize)
  }

  lemma WithinEstimate<K(!new), V(!new)>(t: HashTable<K, V>, n: nat, dsize: nat, estimate: int)
    requires t.ffactor == DEF_FFACTOR && t.sshift == DEF_SEGSIZE_SHIFT && |t.dir| == dsize && t.Fits(n)
    requires t.Accounted()
    requires IsDirSize(dsize, PlannedSegments(n)) && IsEstimate(estimate, n, t.elemSize)
    ensures t.held <= estimate && (FullyGrown(t, n) ==> t.held == estimate) && t.Roomy(n)
  {
    var d :| IsDirSize(d, PlannedSegments(n))
             && estimate == TableBytes(d, PlannedSegments(n), DEF_SEGSIZE, Groups(n), t.elemSize);
    FitsWithinEstimate(t, n, dsize, d);
  }

  /** The table is made with the directory chosen for `n` entries. */
  method PlannedTable<K(!new,==), V(!new)>(hash: K -> int, keysize: nat, datasize: nat, n: nat, initSize: int,
                                           segsGranted: nat)
    returns (t: HashTable<K, V>, status: int)
    requires initSize <= n
    ensures fresh(t) && t.hash == hash && IsRecord(t.elemSize, keysize, datasize)
    ensures t.ffactor == DEF_FFACTOR && t.sshift == DEF_SEGSIZE_SHIFT && t.maxDsize != NO_MAX_DSIZE
    ensures status == 0 <==> PlannedSegments(initSize) <= segsGranted
    ensures status == 0 ==> t.Valid() && t.Loaded(0) && t.g.contents == map[] && t.Fits(n)
    ensures status == 0 ==> IsDirSize(|t.dir|, PlannedSegments(n))
  {
    SegmentSizeIs256();
    var dsize := HashSelectDirsize(n);
    BucketsMonotone(initSize, n, DEF_FFACTOR);
    SegmentsMonotone(Buckets(initSize, DEF_FFACTOR), Buckets(n, DEF_FFACTOR), DEF_SEGSIZE);
    t := new HashTable(hash, keysize, datasize, DEF_FFACTOR, DEF_SEGSIZE_SHIFT, dsize, true, dsize);
    status := t.InitHtab(initSize, true, dsize, true, segsGranted);
    if status == 0 {
      FreshTableFits(t, initSize, n);
    }
  }

  method EstimateFor(n: nat, keysize: nat, datasize: nat) returns (size: int)
    ensures exists r :: IsRecord(r, keysize, datasize) && IsEstimate(size, n, r)
  {
    size := HashEstimateSize(n, keysize, datasize);
    ghost var segs := PlannedSegments(n);
    ghost var d, r :| IsDirSize(d, segs) && IsRecord(r, keysize, datasize)
                      && size == TableBytes(d, segs, DEF_SEGSIZE, Groups(n), r);
    assert IsDirSize(d, PlannedSegments(n));
  }

  /** The directory of `hash_select_dirsize` for `n` entries suffices and the bytes
      of `hash_estimate_size` are never exceeded, and reached by a table that has
      grown to its full size, by any run of operations under which there are at
      most `n` keys. No run exceeds the fill factor. */
  method PlannedRun<K(!new,==), V(!new)>(hash: K -> int, keysize: nat, datasize: nat, n: nat, initSize: int,
                                         segsGranted: nat, run: seq<(K, Action)>, grants: Allocator<K, V>)
    returns (t: HashTable<K, V>, status: int, estimate: int, replies: seq<Reply>, failures: nat,
             ghost trace: seq<map<K, nat>>)
    requires initSize <= n
    requires forall i, p :: FreshIfGranted(grants, RecordSize(keysize, datasize), i, p)
    ensures fresh(t) && IsRecord(t.elemSize, keysize, datasize) && IsEstimate(estimate, n, t.elemSize)
    ensures status == 0 <==> PlannedSegments(initSize) <= segsGranted
    ensures status == 0 ==> t.Valid() && Traced(run, replies, trace, |run|, map[], t.g.contents) && t.Loaded(failures)
    ensures status == 0 && (forall i, p :: GrantsSegment(grants, i, p)) && AtMost(trace, n) ==>
              failures == 0 && t.held <= estimate && (FullyGrown(t, n) ==> t.held == estimate)
  {
    estimate := EstimateFor(n, keysize, datasize);
    t, status := PlannedTable(hash, keysize, datasize, n, initSize, segsGranted);
    ghost var r :| IsRecord(r, keysize, datasize) && IsEstimate(estimate, n, r);
    RecordUnique(r, t.elemSize, keysize, datasize);
    RecordUnique(RecordSize(keysize, datasize), t.elemSize, keysize, datasize);
    replies, failures, trace := [], 0, [];
    if status == 0 {
      ghost var dsize := |t.dir|;
      WithinEstimate(t, n, dsize, estimate);
      assert t.Loaded(0);
      replies, failures, trace := t.SearchRun(run, grants, n, 0);
      if t.Fits(n) {
        WithinEstimate(t, n, dsize, estimate);
      }
    }
  }
}
