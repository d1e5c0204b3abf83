/** The dynamic (linear) hash table of utils/hash/dynahash.c: a directory of
    segments of bucket headers, collision chains, and a free list. */
module DynaHash {
  import opened Bits
  import opened HashChains
  import opened HashSizing
  import opened Lists
  import opened Storage

  const INVALID_INDEX: nat := 0
  const NO_MAX_DSIZE: int := -1

  datatype Action = Find | Enter | Remove

  /** What became of the expansion that an insertion may start. */
  datatype Growth = NotDue | Grew | Failed

  /** What `hash_search` hands back: NULL, the boolean true cast to a pointer,
      or the address of an element. */
  datatype Answer = Null | True | Pointer(addr: nat)

  /** The outcomes of the calls to the table's allocator that one operation may
      make: the address of a group of elements (or none) with whatever the new
      memory holds, and whether a segment and a larger directory are granted. */
  datatype Grant<K, V> = Grant(group: nat, junk: nat -> (K, V), segment: bool, directory: bool)

  /** What one `hash_search` does to the finite map: it reports whether the key
      was there, hands out the address mapped to it, and maps a new key to an
      address that no other key has. */
  ghost predicate Searched<K>(before: map<K, nat>, key: K, action: Action, after: map<K, nat>, r: Answer, found: bool) {
    && found == (key in before)
    && match action
       case Find => after == before && r == if found then Pointer(before[key]) else True
       case Remove => after == before - {key} && r == if found then Pointer(before[key]) else True
       case Enter =>
         if found then after == before && r == Pointer(before[key])
         else if r == Null then after == before
         else r.Pointer? && r.addr !in before.Values && after == before[key := r.addr]
  }

  /** What an operation of a run hands back. */
  datatype Reply = Reply(r: Answer, found: bool)

  /** Operation `i` of a run takes the map `trace[i]` to the map `trace[i + 1]`. */
  ghost predicate TracedAt<K>(run: seq<(K, Action)>, replies: seq<Reply>, trace: seq<map<K, nat>>, i: nat) {
    && i < |run| && i < |replies| && i + 1 < |trace|
    && Searched(trace[i], run[i].0, run[i].1, trace[i + 1], replies[i].r, replies[i].found)
  }

  /** The first `i` operations of a run, from the map `first` to the map `now`. */
  ghost predicate Traced<K>(run: seq<(K, Action)>, replies: seq<Reply>, trace: seq<map<K, nat>>, i: nat,
                            first: map<K, nat>, now: map<K, nat>) {
    && i == |replies| <= |run| && |trace| == i + 1 && trace[0] == first && trace[i] == now
    && forall j :: 0 <= j < i ==> TracedAt(run, replies, trace, j)
  }

  lemma TraceStep<K>(run: seq<(K, Action)>, replies: seq<Reply>, trace: seq<map<K, nat>>, i: nat,
                     first: map<K, nat>, now: map<K, nat>, reply: Reply, after: map<K, nat>)
    requires i < |run| && Traced(run, replies, trace, i, first, now)
    requires Searched(now, run[i].0, run[i].1, after, reply.r, reply.found)
    ensures Traced(run, replies + [reply], trace + [after], i + 1, first, after)
  {
    var replies', trace' := replies + [reply], trace + [after];
    forall j | 0 <= j < i + 1
      ensures TracedAt(run, replies', trace', j)
    {
      assert j < i ==> TracedAt(run, replies, trace, j);
    }
  }

  ghost predicate NoNull(replies: seq<Reply>) {
    forall i :: 0 <= i < |replies| ==> replies[i].r != Null
  }

  ghost predicate SizeAt<K>(trace: seq<map<K, nat>>, n: nat, i: nat)
    requires i < |trace|
  {
    |trace[i]| <= n
  }

  /** At no time does a run hold more than `n` keys. */
  ghost predicate AtMost<K>(trace: seq<map<K, nat>>, n: nat) {
    forall i :: 0 <= i < |trace| ==> SizeAt(trace, n, i)
  }

  lemma AtMostStep<K>(trace: seq<map<K, nat>>, n: nat, m: map<K, nat>)
    requires AtMost(trace + [m], n)
    ensures AtMost(trace, n) && |m| <= n
  {
    var t := trace + [m];
    assert SizeAt(t, n, |trace|);
    forall i | 0 <= i < |trace|
      ensures SizeAt(trace, n, i)
    {
      assert SizeAt(t, n, i);
    }
  }

  /** What the allocator answers the i-th operation of a run on a given pool. */
  type Allocator<!K, !V> = (nat, Pool<K, V>) -> Grant<K, V>

  /** A group of elements that the allocator grants is fresh. */
  ghost predicate FreshIfGranted<K(!new), V(!new)>(grants: Allocator<K, V>, elemSize: nat, i: nat, p: Pool<K, V>) {
    grants(i, p).group != 0 ==> forall a :: a in Group(grants(i, p).group, elemSize) ==> a !in p
  }

  ghost predicate GrantsSegment<K(!new), V(!new)>(grants: Allocator<K, V>, i: nat, p: Pool<K, V>) {
    grants(i, p).segment
  }

  ghost predicate GrantsAll<K(!new), V(!new)>(grants: Allocator<K, V>, i: nat, p: Pool<K, V>) {
    grants(i, p).segment && grants(i, p).directory
  }

  ghost predicate GrantsGroup<K(!new), V(!new)>(grants: Allocator<K, V>, i: nat, p: Pool<K, V>) {
    grants(i, p).group != 0
  }

  /** The directory shows `heads`: slot b of the flat array of headers is found
      at index b mod ssize of segment b div ssize. */
  ghost predicate Shows(dir: seq<seq<nat>>, ssize: nat, nsegs: nat, heads: seq<nat>) {
    && ssize > 0 && nsegs <= |dir| && |heads| <= nsegs * ssize
    && (forall s :: 0 <= s < nsegs ==> |dir[s]| == ssize)
    && (forall b :: 0 <= b < |heads| ==> HeadAt(dir, ssize, heads, b))
  }

  ghost predicate HeadAt(dir: seq<seq<nat>>, ssize: nat, heads: seq<nat>, b: nat)
    requires ssize > 0 && b < |heads|
  {
    b / ssize < |dir| && b % ssize < |dir[b / ssize]| && dir[b / ssize][b % ssize] == heads[b]
  }

  /** The directory after one header is overwritten. */
  function SetSlot(dir: seq<seq<nat>>, s: nat, j: nat, v: nat): seq<seq<nat>>
    requires s < |dir| && j < |dir[s]|
  {
    var segment: seq<nat> := dir[s][j := v];
    dir[s := segment]
  }

  lemma SegBounds(b: nat, ssize: nat, nsegs: nat)
    requires ssize > 0 && b < nsegs * ssize
    ensures 0 <= b / ssize < nsegs && 0 <= b % ssize < ssize
  {
    DivNat(b, ssize);
    DivModFacts(b, ssize);
    var c := b / ssize - nsegs;
    assert c * ssize == b - b % ssize - nsegs * ssize;
    assert c >= 0 ==> c * ssize >= 0;
  }

  lemma ShowsUpdate(dir: seq<seq<nat>>, ssize: nat, nsegs: nat, heads: seq<nat>, b: nat, v: nat)
    requires Shows(dir, ssize, nsegs, heads) && b < |heads|
    ensures b / ssize < nsegs && b % ssize < ssize
    ensures Shows(SetSlot(dir, b / ssize, b % ssize, v), ssize, nsegs, heads[b := v])
  {
    SegBounds(b, ssize, nsegs);
    var s, j := b / ssize, b % ssize;
    var dir' := SetSlot(dir, s, j, v);
    var heads' := heads[b := v];
    forall c: nat | c < |heads'|
      ensures HeadAt(dir', ssize, heads', c)
    {
      assert HeadAt(dir, ssize, heads, c);
      SegBounds(c, ssize, nsegs);
      SlotsDiffer(b, c, ssize);
    }
  }

  /** Different headers have different places. */
  lemma SlotsDiffer(b: nat, c: nat, ssize: nat)
    requires ssize > 0
    ensures b / ssize == c / ssize && b % ssize == c % ssize ==> b == c
  {
    DivModFacts(c, ssize);
    DivModFacts(b, ssize);
  }

  /** A bucket header in a segment already there, or in one just appended. */
  lemma ShowsExtend(dir: seq<seq<nat>>, ssize: nat, nsegs: nat, heads: seq<nat>)
    requires Shows(dir, ssize, nsegs, heads) && |heads| < nsegs * ssize
    ensures |heads| / ssize < nsegs && |heads| % ssize < ssize
    ensures Shows(dir, ssize, nsegs, heads + [dir[|heads| / ssize][|heads| % ssize]])
  {
    SegBounds(|heads|, ssize, nsegs);
    var heads' := heads + [dir[|heads| / ssize][|heads| % ssize]];
    forall b: nat | b < |heads'|
      ensures HeadAt(dir, ssize, heads', b)
    {
      assert b < |heads| ==> HeadAt(dir, ssize, heads, b);
    }
  }

  lemma ShowsNewSegment(dir: seq<seq<nat>>, ssize: nat, nsegs: nat, heads: seq<nat>, dir': seq<seq<nat>>)
    requires Shows(dir, ssize, nsegs, heads) && nsegs < |dir'|
    requires dir'[..nsegs] == dir[..nsegs] && |dir'[nsegs]| == ssize
    ensures Shows(dir', ssize, nsegs + 1, heads) && nsegs * ssize < (nsegs + 1) * ssize
  {
    assert forall s :: 0 <= s < nsegs ==> dir'[s] == dir'[..nsegs][s] == dir[..nsegs][s] == dir[s];
    assert (nsegs + 1) * ssize == nsegs * ssize + ssize;
    forall b | 0 <= b < |heads|
      ensures HeadAt(dir', ssize, heads, b)
    {
      SegBounds(b, ssize, nsegs);
      assert HeadAt(dir, ssize, heads, b);
    }
  }

  /** The segment of a bucket. */
  ghost function InSegment(bucket: nat, ssize: nat): int
    requires ssize > 0
  {
    bucket / ssize
  }

  /** `bucket >> sshift` and `MOD(bucket, ssize)`. */
  method Slot(bucket: nat, sshift: nat) returns (segmentNum: nat, segmentNdx: nat)
    ensures segmentNum == bucket / Pow2(sshift) && segmentNdx == bucket % Pow2(sshift)
  {
    var ssize := Pow2(sshift);
    AndMask(bucket, sshift);
    DivNat(bucket, ssize);
    segmentNum := bucket / ssize;
    segmentNdx := BitAnd(bucket, ssize - 1);
  }

  /** The chain-following loop of `hash_search`. */
  method Walk<K(==), V>(pool: Pool<K, V>, head: nat, key: K, ghost c: seq<nat>)
    returns (curr: nat, prev: nat, ghost i: nat)
    requires Linked(pool, head, c)
    ensures i <= |c| && curr == At(c, i) && prev == At(c, i - 1)
    ensures forall j :: 0 <= j < i ==> c[j] in pool && pool[c[j]].key != key
    ensures i < |c| ==> c[i] in pool && c[i] != INVALID_INDEX && pool[c[i]].key == key
  {
    curr, prev, i := head, INVALID_INDEX, 0;
    while curr != INVALID_INDEX
      invariant i <= |c| && curr == At(c, i) && prev == At(c, i - 1)
      invariant i < |c| ==> LinkAt(pool, c, i)
      invariant forall j :: 0 <= j < i ==> c[j] in pool && pool[c[j]].key != key
      decreases |c| - i
    {
      if pool[curr].key == key {
        return;
      }
      prev, curr, i := curr, pool[curr].next, i + 1;
    }
  }

  /** The walk ends on an element exactly when the key is mapped, and then on
      the element the map names. */
  lemma FoundIffMapped<K(!new), V>(hash: K -> int, m: Masks, pool: Pool<K, V>, chains: seq<seq<nat>>,
                             contents: map<K, nat>, key: K, i: nat)
    requires Placed(hash, m, pool, chains, contents) && m.Bucket(hash(key)) < |chains|
    requires var c := chains[m.Bucket(hash(key))];
             && i <= |c|
             && (forall j :: 0 <= j < i ==> c[j] in pool && pool[c[j]].key != key)
             && (i < |c| ==> c[i] in pool && pool[c[i]].key == key)
    ensures var c := chains[m.Bucket(hash(key))];
            (i < |c| <==> key in contents) && (i < |c| ==> contents[key] == c[i])
  {
    var c := chains[m.Bucket(hash(key))];
    assert ChainAt(hash, m, pool, chains, contents, m.Bucket(hash(key)));
    assert KeyOk(hash, m, pool, chains, contents, key);
    if i < |c| {
      assert ElemOk(hash, m, pool, contents, m.Bucket(hash(key)), c, i);
    }
  }

  lemma ShowsWiden(dir: seq<seq<nat>>, ssize: nat, nsegs: nat, heads: seq<nat>, dir': seq<seq<nat>>)
    requires Shows(dir, ssize, nsegs, heads) && |dir| <= |dir'|
    requires forall s :: 0 <= s < nsegs ==> dir'[s] == dir[s]
    ensures Shows(dir', ssize, nsegs, heads)
  {
    forall b | 0 <= b < |heads|
      ensures HeadAt(dir', ssize, heads, b)
    {
      SegBounds(b, ssize, nsegs);
      assert HeadAt(dir, ssize, heads, b);
    }
  }

  lemma NextSegment(b: nat, ssize: nat, nsegs: nat)
    requires ssize > 0 && b <= nsegs * ssize
    ensures b / ssize <= nsegs && (b / ssize < nsegs <==> b < nsegs * ssize)
    ensures b >= 1 ==> nsegs >= 1
  {
    if b < nsegs * ssize {
      SegBounds(b, ssize, nsegs);
    } else {
      DivModUnique(b, ssize, nsegs, 0);
    }
  }

  /** The two sets that `expand_table` sorts the old chain into. */
  lemma SetsSorted<K, V>(hash: K -> int, m: Masks, m': Masks, b: nat, pool: Pool<K, V>, contents: map<K, nat>,
                         c: seq<nat>, stay: set<nat>, go: set<nat>)
    requires ChainOk(hash, m, pool, contents, b, c)
    requires stay == set a | a in c && a in pool && m'.Bucket(hash(pool[a].key)) == b
    requires go == (set a | a in c) - stay
    ensures forall i :: 0 <= i < |c| ==> Sorted(hash, m', b, pool, c, stay, go, i)
  {
    forall i | 0 <= i < |c|
      ensures Sorted(hash, m', b, pool, c, stay, go, i)
    {
      assert ElemOk(hash, m, pool, contents, b, c, i);
      assert c[i] in c;
    }
  }

  lemma SplitKeepsAll<K(!new), V>(hash: K -> int, m: Masks, k: nat, pool: Pool<K, V>, q: Pool<K, V>,
                                  heads: seq<nat>, chains: seq<seq<nat>>, contents: map<K, nat>,
                                  freeHead: nat, free: seq<nat>, stay: set<nat>, go: set<nat>,
                                  oldHead: nat, newHead: nat)
    requires m.Valid(k) && AllLinked(pool, heads, chains) && Placed(hash, m, pool, chains, contents)
    requires FreeOk(pool, contents, freeHead, free) && m.OldBucket() < |chains|
    requires SameButLinks(pool, q, chains[m.OldBucket()])
    requires forall i :: 0 <= i < |chains[m.OldBucket()]| ==>
               Sorted(hash, m.Grown(), m.OldBucket(), pool, chains[m.OldBucket()], stay, go, i)
    requires Linked(q, oldHead, Sel(chains[m.OldBucket()], stay)) && Linked(q, newHead, Sel(chains[m.OldBucket()], go))
    ensures var o := m.OldBucket();
            var c := chains[o];
            && AllLinked(q, heads[o := oldHead] + [newHead], chains[o := Sel(c, stay)] + [Sel(c, go)])
            && Placed(hash, m.Grown(), q, chains[o := Sel(c, stay)] + [Sel(c, go)], contents)
    ensures FreeOk(q, contents, freeHead, free)
  {
    var o := m.OldBucket();
    var c := chains[o];
    forall a | a in c
      ensures a in pool && (a in stay <==> m.Grown().Bucket(hash(pool[a].key)) == o) && (a in go <==> a !in stay)
    {
      var i :| 0 <= i < |c| && c[i] == a;
      assert Sorted(hash, m.Grown(), o, pool, c, stay, go, i);
    }
    SplitKeepsChains(hash, m, pool, q, heads, chains, contents, o, Sel(c, stay), oldHead, Sel(c, go), newHead);
    SplitKeepsPlacement(hash, m, k, pool, q, chains, contents, stay, go);
    forall a | a in free && a in pool
      ensures q[a].next == pool[a].next
    {
      assert FreeIff(pool, contents, free, a) && ChainAt(hash, m, pool, chains, contents, o);
      if a in c {
        ChainedLive(hash, m, pool, contents, o, c, a);
      }
    }
    SplitKeepsFree(pool, q, contents, freeHead, free);
  }

  /** The ghost state of a table: the directory read as one flat array of
      headers, the elements each chain and the free list visit, the finite map
      from keys to element addresses, and how many groups were allocated. */
  datatype Shadow<!K> = Shadow(k: nat, heads: seq<nat>, chains: seq<seq<nat>>, free: seq<nat>,
                               contents: map<K, nat>, groups: nat)

  /** So many keys in the buckets there are exceed the fill factor. */
  predicate Overfull(keys: nat, m: Masks, ffactor: nat): (b: bool)
    ensures b <==> keys >= (ffactor + 1) * (m.max + 1)
  {
    Exceeds(keys, m.max + 1, ffactor);
    keys / (m.max + 1) > ffactor
  }

  lemma Exceeds(keys: nat, nb: nat, ffactor: nat)
    requires nb > 0
    ensures keys / nb > ffactor <==> keys >= (ffactor + 1) * nb
  {
    DivModFacts(keys, nb);
    if keys / nb > ffactor {
      MulMonotone(ffactor + 1, keys / nb, nb);
    } else {
      MulMonotone(keys / nb, ffactor, nb);
      assert (ffactor + 1) * nb == ffactor * nb + nb;
    }
  }

  /** The elements that an insertion may take: those on the free list or, if it
      is empty, those of a new group. */
  ghost function Stock(free: seq<nat>, group: nat, elemSize: nat): seq<nat> {
    if free == [] then Group(group, elemSize) else free
  }

  /** The first element in stock went to the end of its chain. */
  ghost predicate Inserted<K>(before: Shadow<K>, after: Shadow<K>, bucket: nat, a: nat, stock: seq<nat>) {
    && stock != [] && a == stock[0] && after.free == stock[1..]
    && bucket < |before.chains| && after.chains == before.chains[bucket := before.chains[bucket] + [a]]
  }

  /** The element left its chain for the head of the free list. */
  ghost predicate Removed<K>(before: Shadow<K>, after: Shadow<K>, bucket: nat, a: nat) {
    && after.free == [a] + before.free && bucket < |before.chains|
    && exists i: nat :: i < |before.chains[bucket]| && before.chains[bucket][i] == a
         && after.chains == before.chains[bucket := Without(before.chains[bucket], i)]
  }

  /** The elements of a chain that stay in bucket `b` under the masks `m`. */
  ghost function Staying<K, V>(hash: K -> int, m: Masks, b: nat, pool: Pool<K, V>, c: seq<nat>): set<nat> {
    set a | a in c && a in pool && m.Bucket(hash(pool[a].key)) == b
  }

  /** The chains after an expansion: that of the old bucket became two, each in
      its order, and the others are as they were. */
  ghost function Split<K, V>(hash: K -> int, m: Masks, pool: Pool<K, V>, chains: seq<seq<nat>>): seq<seq<nat>> {
    var o := m.OldBucket();
    if o >= |chains| then chains
    else
      var stay := Staying(hash, m.Grown(), o, pool, chains[o]);
      chains[o := Sel(chains[o], stay)] + [Sel(chains[o], (set a | a in chains[o]) - stay)]
  }

  ghost predicate Halved<K, V>(hash: K -> int, m: Masks, pool: Pool<K, V>, before: Shadow<K>, after: Shadow<K>) {
    after.free == before.free && after.chains == Split(hash, m, pool, before.chains)
  }

  /** An insertion and the expansion that it may have started. */
  ghost predicate Entered<K, V>(hash: K -> int, m: Masks, pool: Pool<K, V>, before: Shadow<K>, after: Shadow<K>,
                                key: K, a: nat, stock: seq<nat>, grew: bool) {
    var bucket := m.Bucket(hash(key));
    && stock != [] && a == stock[0] && after.free == stock[1..] && bucket < |before.chains|
    && var longer := before.chains[bucket := before.chains[bucket] + [a]];
       after.chains == if grew then Split(hash, m, pool, longer) else longer
  }

  lemma SplitSame<K, V>(hash: K -> int, m: Masks, p: Pool<K, V>, q: Pool<K, V>, chains: seq<seq<nat>>)
    requires p.Keys == q.Keys && SamePayload(p, q)
    ensures Split(hash, m, p, chains) == Split(hash, m, q, chains)
  {
    forall a | a in p
      ensures q[a].key == p[a].key
    {
      assert KeepsPayload(p, q, a);
    }
    var o := m.OldBucket();
    if o < |chains| {
      assert Staying(hash, m.Grown(), o, p, chains[o]) == Staying(hash, m.Grown(), o, q, chains[o]);
    }
  }

  /** The invariant that ties chains, free list and the finite map together. */
  ghost predicate TableOk<K(!new), V>(hash: K -> int, m: Masks, pool: Pool<K, V>, freeHead: nat, g: Shadow<K>) {
    && m.Valid(g.k)
    && AllLinked(pool, g.heads, g.chains)
    && Placed(hash, m, pool, g.chains, g.contents)
    && FreeOk(pool, g.contents, freeHead, g.free)
    && |pool| == BUCKET_ALLOC_INCR * g.groups
  }

  class HashTable<K(!new,==), V(!new)> {
    const hash: K -> int
    const keysize: nat
    const datasize: nat
    const elemSize: nat   // MAXALIGNed record size
    const ffactor: nat
    const sshift: nat
    const maxDsize: int   // NO_MAX_DSIZE, or the directory is fixed

    var masks: Masks
    var nkeys: nat
    var nsegs: nat
    var dir: seq<seq<nat>>
    var pool: Pool<K, V>
    var freeHead: nat

    ghost var g: Shadow<K>
    ghost var held: int   // bytes obtained from the allocator and not given back

    /** Header, directory, segments and groups account for every byte obtained. */
    ghost predicate Accounted()
      reads this
    {
      held == TableBytes(|dir|, nsegs, Pow2(sshift), g.groups, elemSize)
    }

    /** The keys exceed the fill factor by less than `over` keys. */
    ghost predicate Loaded(over: nat)
      reads this`masks, this`g
    {
      WithinLoad(|g.contents|, ffactor, masks, over)
    }

    ghost predicate Valid()
      reads this
    {
      && IsRecord(elemSize, keysize, datasize) && ffactor > 0
      && Accounted()
      && Shows(dir, Pow2(sshift), nsegs, g.heads)
      && TableOk(hash, masks, pool, freeHead, g)
      && nkeys == |g.contents|
    }

    /** `hash_create` with the parameters of the header filled in; a directory of
        `dsize` entries may be given, otherwise `init_htab` allocates one. */
    constructor (hash: K -> int, keysize: nat, datasize: nat, ffactor: nat, sshift: nat, maxDsize: int, given: bool,
                 dsize: nat)
      ensures this.hash == hash && this.keysize == keysize && this.datasize == datasize && this.ffactor == ffactor
      ensures IsRecord(elemSize, keysize, datasize) && g.groups == 0 && Accounted()
      ensures this.sshift == sshift && this.maxDsize == maxDsize
      ensures nkeys == 0 && nsegs == 0 && pool == map[] && freeHead == INVALID_INDEX
      ensures |dir| == if given then dsize else 0
    {
      this.hash, this.keysize, this.datasize, this.ffactor := hash, keysize, datasize, ffactor;
      elemSize := RecordSize(keysize, datasize);
      this.sshift, this.maxDsize := sshift, maxDsize;
      masks, nkeys, nsegs, pool, freeHead := Masks(0, 0, 0), 0, 0, map[], INVALID_INDEX;
      dir := if given then seq(dsize, _ => []) else [];
      g := Shadow(0, [], [], [], map[], 0);
      held := AlignUp(SIZEOF_HHDR, MAX_ALIGNMENT) + if given then AlignUp(dsize * SIZEOF_LONG, MAX_ALIGNMENT) else 0;
    }

    /** `init_htab`: `dirGranted` and `segsGranted` are the allocator's answers,
        the latter as the number of segments it will grant. */
    method InitHtab(nelem: int, given: bool, dsize: nat, dirGranted: bool, segsGranted: nat) returns (status: int)
      requires nkeys == 0 && nsegs == 0 && pool == map[] && freeHead == INVALID_INDEX
      requires IsRecord(elemSize, keysize, datasize) && ffactor > 0 && |dir| == (if given then dsize else 0)
      requires g.groups == 0 && Accounted()
      modifies this
      ensures var segs := Segments(Buckets(nelem, ffactor), Pow2(sshift));
              status == 0 <==> (if given then segs <= dsize else dirGranted) && segs <= segsGranted
      ensures status == 0 ==> Valid() && g.contents == map[] && g.groups == 0
      ensures var nb := Buckets(nelem, ffactor); status == 0 ==> masks == Masks(nb - 1, 2 * nb - 1, nb - 1)
      ensures status == 0 ==> nsegs == Segments(Buckets(nelem, ffactor), Pow2(sshift)) <= |dir|
      ensures status == 0 ==> |dir| == if given || nsegs <= dsize then dsize else nsegs
    {
      var e, want := InitSizes(nelem, ffactor, sshift);
      var nbuckets := Pow2(e);
      masks := Masks(nbuckets - 1, 2 * nbuckets - 1, nbuckets - 1);
      var size := dsize;
      if want > size {
        if given {
          return -1;
        }
        size := want;
      }
      if !given {
        if !dirGranted {
          return -1;
        }
        NewDirectory(size);
      }
      if segsGranted < want {
        status := -1;
      } else {
        FirstSegments(want);
        ShowEmpty(e);
        status := 0;
      }
    }

    /** The segments, all zero, show empty chains. */
    ghost method ShowEmpty(e: nat)
      requires IsRecord(elemSize, keysize, datasize) && ffactor > 0 && Accounted()
      requires masks == Masks(Pow2(e) - 1, 2 * Pow2(e) - 1, Pow2(e) - 1) && pool == map[] && freeHead == INVALID_INDEX
      requires nkeys == 0 && g.groups == 0 && Pow2(e) <= nsegs * Pow2(sshift) && nsegs <= |dir|
      requires forall s :: 0 <= s < nsegs ==> Zeroed(dir[s], Pow2(sshift))
      modifies this`g
      ensures Valid() && g.contents == map[] && g.groups == 0
    {
      g := Shadow(e, seq(Pow2(e), _ => INVALID_INDEX), seq(Pow2(e), _ => []), [], map[], 0);
      ShowsEmpty(dir, Pow2(sshift), nsegs, g.heads);
      EmptyTableOk(hash, masks, pool, g);
    }

    /** The directory that `init_htab` allocates. */
    method NewDirectory(size: nat)
      requires |dir| == 0 && nsegs == 0 && g.groups == 0 && Accounted()
      modifies this`dir, this`held
      ensures |dir| == size && Accounted()
    {
      dir := seq(size, _ => []);
      held := held + AlignUp(size * SIZEOF_LONG, MAX_ALIGNMENT);
    }

    /** The segment loop of `init_htab`. */
    method FirstSegments(want: nat)
      requires nsegs == 0 && want <= |dir|
      requires g.groups == 0 && Accounted()
      modifies this`nsegs, this`dir, this`held
      ensures nsegs == want && |dir| == |old(dir)| && Accounted()
      ensures forall s :: 0 <= s < want ==> Zeroed(dir[s], Pow2(sshift))
    {
      while nsegs < want
        invariant nsegs <= want && |dir| == |old(dir)| && Accounted()
        invariant forall s :: 0 <= s < nsegs ==> Zeroed(dir[s], Pow2(sshift))
      {
        TableBytesStep(|dir|, nsegs, Pow2(sshift), 0, elemSize);
        dir := dir[nsegs := seq(Pow2(sshift), _ => INVALID_INDEX)];
        nsegs, held := nsegs + 1, held + AlignUp(Pow2(sshift) * SIZEOF_LONG, MAX_ALIGNMENT);
      }
    }

    /** `call_hash`: the bucket of a key, always one that exists. */
    method CallHash(key: K) returns (bucket: nat)
      requires masks.Valid(g.k)
      ensures bucket == masks.Bucket(hash(key)) <= masks.max
    {
      var hashVal := hash(key);
      bucket := BitAnd(hashVal, masks.high);
      if bucket > masks.max {
        bucket := BitAnd(bucket, masks.low);
      }
      BucketIsMod(masks, g.k, hashVal);
    }

    method ReadHead(bucket: nat) returns (v: nat)
      requires Shows(dir, Pow2(sshift), nsegs, g.heads) && bucket < |g.heads|
      ensures v == g.heads[bucket]
    {
      var segmentNum, segmentNdx := Slot(bucket, sshift);
      assert HeadAt(dir, Pow2(sshift), g.heads, bucket);
      v := dir[segmentNum][segmentNdx];
    }

    method WriteHead(bucket: nat, v: nat)
      requires Shows(dir, Pow2(sshift), nsegs, g.heads) && bucket < |g.heads|
      modifies this`dir, this`g
      ensures Shows(dir, Pow2(sshift), nsegs, g.heads) && |dir| == |old(dir)|
      ensures g == old(g).(heads := old(g).heads[bucket := v])
    {
      var segmentNum, segmentNdx := Slot(bucket, sshift);
      ShowsUpdate(dir, Pow2(sshift), nsegs, g.heads, bucket, v);
      dir := SetSlot(dir, segmentNum, segmentNdx, v);
      g := g.(heads := g.heads[bucket := v]);
    }

    /** Follows the collision chain of `key`. `curr` is the element holding the
        key or INVALID_INDEX, `prev` the element before it (0: the header). */
    method FollowChain(key: K) returns (bucket: nat, curr: nat, prev: nat, ghost i: nat)
      requires Valid()
      ensures bucket == masks.Bucket(hash(key)) < |g.chains|
      ensures i <= |g.chains[bucket]| && curr == At(g.chains[bucket], i) && prev == At(g.chains[bucket], i - 1)
      ensures i < |g.chains[bucket]| <==> key in g.contents
      ensures key in g.contents ==> curr == g.contents[key] && curr != INVALID_INDEX
      ensures key !in g.contents ==> curr == INVALID_INDEX
    {
      bucket := CallHash(key);
      var head := ReadHead(bucket);
      assert LinkedAt(pool, g.heads, g.chains, bucket);
      curr, prev, i := Walk(pool, head, key, g.chains[bucket]);
      FoundIffMapped(hash, masks, pool, g.chains, g.contents, key, i);
    }

    /** `bucket_alloc`: a fresh group of elements goes onto the free list. */
    method BucketAlloc(grant: Grant<K, V>) returns (ok: bool)
      requires Valid()
      requires grant.group != 0 ==> forall a :: a in Group(grant.group, elemSize) ==> a !in pool
      modifies this`pool, this`freeHead, this`g, this`held
      ensures Valid() && SamePayload(old(pool), pool)
      ensures ok == (grant.group != 0)
      ensures held == old(held) + if ok then BUCKET_ALLOC_INCR * elemSize else 0
      ensures !ok ==> pool == old(pool) && freeHead == old(freeHead) && g == old(g)
      ensures ok ==> freeHead != INVALID_INDEX
      ensures ok ==> g == old(g).(groups := old(g).groups + 1, free := Group(grant.group, elemSize) + old(g).free)
    {
      if grant.group == 0 {
        return false;
      }
      var p;
      ghost var g';
      p, g' := AddGroup(hash, masks, pool, freeHead, grant, elemSize, g);
      TableBytesStep(|dir|, nsegs, Pow2(sshift), g.groups, elemSize);
      pool, freeHead, g := p, grant.group, g';
      held := held + BUCKET_ALLOC_INCR * elemSize;
      return true;
    }

    /** Takes an element off the free list for `key` and links it at the end of
        the chain just walked. */
    method LinkNew(key: K, bucket: nat, prev: nat) returns (curr: nat)
      requires Valid() && freeHead != INVALID_INDEX && key !in g.contents
      requires bucket == masks.Bucket(hash(key)) < |g.chains|
      requires prev == At(g.chains[bucket], |g.chains[bucket]| - 1)
      modifies this`dir, this`pool, this`freeHead, this`nkeys, this`g
      ensures Valid() && g.contents == old(g).contents[key := curr] && g.groups == old(g).groups
      ensures curr in old(pool) && curr !in old(g).contents.Values
      ensures SameButKey(old(pool), pool, curr) && |dir| == |old(dir)|
      ensures Inserted(old(g), g, bucket, curr, old(g).free) && g.k == old(g).k
      ensures Searched(old(g).contents, key, Enter, g.contents, Pointer(curr), false)
      ensures |g.contents| == |old(g).contents| + 1
    {
      var q, next;
      ghost var g';
      curr, q, next, g' := TakeFree(hash, masks, key, prev, pool, freeHead, g);
      StoreHead(bucket, prev, curr);
      freeHead, pool, nkeys, g := next, q, nkeys + 1, g';
    }

    /** Unlinks the element just found and pushes it on the free list. */
    method UnlinkFound(key: K, bucket: nat, curr: nat, prev: nat, ghost i: nat)
      requires Valid() && key in g.contents && bucket == masks.Bucket(hash(key)) < |g.chains|
      requires i < |g.chains[bucket]| && curr == g.chains[bucket][i] == g.contents[key]
      requires prev == At(g.chains[bucket], i - 1)
      modifies this`dir, this`pool, this`freeHead, this`nkeys, this`g
      ensures Valid() && g.contents == old(g).contents - {key} && g.groups == old(g).groups
      ensures pool.Keys == old(pool).Keys && SamePayload(old(pool), pool) && |dir| == |old(dir)|
      ensures Removed(old(g), g, bucket, curr) && freeHead == curr
    {
      var q, next;
      ghost var g';
      q, next, g' := GiveBack(hash, masks, key, curr, prev, pool, freeHead, g, i);
      StoreHead(bucket, prev, next);
      pool, freeHead, nkeys, g := q, curr, nkeys - 1, g';
    }

    /** The part of `*prev_index_ptr = v` that concerns the bucket header. */
    method StoreHead(bucket: nat, prev: nat, v: nat)
      requires Shows(dir, Pow2(sshift), nsegs, g.heads) && bucket < |g.heads|
      modifies this`dir, this`g
      ensures Shows(dir, Pow2(sshift), nsegs, g.heads) && |dir| == |old(dir)|
      ensures g == old(g).(heads := if prev == INVALID_INDEX then old(g).heads[bucket := v] else old(g).heads)
    {
      if prev == INVALID_INDEX {
        WriteHead(bucket, v);
      }
    }

    /** The next bucket's header needs a segment that is not there yet. */
    ghost predicate NeedsSegment()
      reads this`masks, this`nsegs
    {
      InSegment(masks.max + 1, Pow2(sshift)) >= nsegs
    }

    /** Growth fails only for want of a segment, or of directory space when the
        directory is full and fixed, or not granted. */
    ghost predicate CanGrow(grant: Grant<K, V>)
      reads this
    {
      NeedsSegment() ==> grant.segment && (nsegs < |dir| || (maxDsize == NO_MAX_DSIZE && grant.directory))
    }

    /** `dir_realloc`: doubles the directory unless its size is fixed. */
    method DirRealloc(granted: bool) returns (ok: bool)
      requires Shows(dir, Pow2(sshift), nsegs, g.heads) && g.heads != [] && Accounted()
      modifies this`dir, this`held
      ensures Accounted()
      ensures Shows(dir, Pow2(sshift), nsegs, g.heads)
      ensures ok == (maxDsize == NO_MAX_DSIZE && granted)
      ensures ok ==> |dir| == 2 * |old(dir)| > nsegs
      ensures !ok ==> dir == old(dir)
    {
      if maxDsize != NO_MAX_DSIZE || !granted {
        return false;
      }
      ghost var was := dir;
      dir := dir + seq(|dir|, _ => []);
      held := held + AlignUp(|dir| * SIZEOF_LONG, MAX_ALIGNMENT) - AlignUp(|was| * SIZEOF_LONG, MAX_ALIGNMENT);
      ShowsWiden(was, Pow2(sshift), nsegs, g.heads, dir);
      return true;
    }

    /** The first part of `expand_table`: a header for bucket max + 1. */
    method AddHeader(grant: Grant<K, V>) returns (ok: bool, ghost junk: nat)
      requires Shows(dir, Pow2(sshift), nsegs, g.heads) && |g.heads| == masks.max + 1 && Accounted()
      modifies this`nsegs, this`dir, this`g, this`held
      ensures Shows(dir, Pow2(sshift), nsegs, g.heads) && Accounted()
      ensures ok == old(CanGrow(grant))
      ensures nsegs == old(nsegs) + if ok && old(NeedsSegment()) then 1 else 0
      ensures ok ==> g == old(g).(heads := old(g).heads + [junk])
      ensures ok && old(NeedsSegment()) ==> old(nsegs) == (masks.max + 1) / Pow2(sshift)
      ensures !ok ==> g == old(g)
      ensures maxDsize != NO_MAX_DSIZE ==> |dir| == |old(dir)|
    {
      var newBucket := masks.max + 1;
      var newSegnum, newSegndx := Slot(newBucket, sshift);
      NextSegment(newBucket, Pow2(sshift), nsegs);
      if newSegnum >= nsegs {
        if newSegnum >= |dir| {
          var grown := DirRealloc(grant.directory);
          if !grown {
            return false, 0;
          }
        }
        ghost var was := dir;
        if !grant.segment {
          dir := dir[newSegnum := []];
          ShowsWiden(was, Pow2(sshift), nsegs, g.heads, dir);
          return false, 0;
        }
        dir := dir[newSegnum := seq(Pow2(sshift), _ => INVALID_INDEX)];
        ShowsNewSegment(was, Pow2(sshift), nsegs, g.heads, dir);
        TableBytesStep(|dir|, nsegs, Pow2(sshift), g.groups, elemSize);
        nsegs, held := nsegs + 1, held + AlignUp(Pow2(sshift) * SIZEOF_LONG, MAX_ALIGNMENT);
      }
      ShowsExtend(dir, Pow2(sshift), nsegs, g.heads);
      junk := dir[newSegnum][newSegndx];
      g := g.(heads := g.heads + [junk]);
      return true, junk;
    }

    /** `expand_table`: one more bucket, and the one bucket it splits relinked.
        A failed expansion changes neither addressing nor chains. */
    method ExpandTable(grant: Grant<K, V>) returns (ok: bool)
      requires Valid()
      modifies this`masks, this`nsegs, this`dir, this`pool, this`g, this`held
      ensures Valid() && SamePayload(old(pool), pool) && pool.Keys == old(pool).Keys
      ensures g.contents == old(g).contents && g.groups == old(g).groups
      ensures ok == old(CanGrow(grant))
      ensures ok ==> masks == old(masks).Grown() && Halved(hash, old(masks), old(pool), old(g), g)
      ensures !ok ==> masks == old(masks) && pool == old(pool) && g == old(g)
      ensures nsegs == old(nsegs) + if ok && old(NeedsSegment()) then 1 else 0
      ensures ok && old(NeedsSegment()) ==> old(nsegs) == (old(masks).max + 1) / Pow2(sshift)
      ensures maxDsize != NO_MAX_DSIZE ==> |dir| == |old(dir)|
    {
      ghost var junk;
      ok, junk := AddHeader(grant);
      if ok {
        SplitLast(old(g), junk);
      }
    }

    /** Within the sizes planned for `n` entries. */
    ghost predicate Fits(n: nat)
      requires ffactor > 0
      reads this`masks, this`nsegs, this`g
    {
      && masks.max + 1 <= Buckets(n, ffactor)
      && nsegs <= Segments(Buckets(n, ffactor), Pow2(sshift))
      && g.groups <= Groups(n)
    }

    /** Within those sizes, with a directory that is large enough for them. */
    ghost predicate Roomy(n: nat)
      requires ffactor > 0
      reads this
    {
      Fits(n) && Segments(Buckets(n, ffactor), Pow2(sshift)) <= |dir|
    }

    /** Makes sure the free list is not empty. */
    method NeedFree(grant: Grant<K, V>, ghost n: nat) returns (ok: bool)
      requires Valid()
      requires grant.group != 0 ==> forall a :: a in Group(grant.group, elemSize) ==> a !in pool
      modifies this`pool, this`freeHead, this`g, this`held
      ensures Valid() && SamePayload(old(pool), pool)
      ensures ok == (old(freeHead) != INVALID_INDEX || grant.group != 0) && (ok ==> freeHead != INVALID_INDEX)
      ensures !ok ==> pool == old(pool) && g == old(g)
      ensures g == old(g).(groups := g.groups, free := g.free)
      ensures ok ==> g.free == Stock(old(g).free, grant.group, elemSize)
      ensures old(g.groups) <= Groups(n) && |g.contents| < n ==> g.groups <= Groups(n)
    {
      ok := true;
      if freeHead == INVALID_INDEX {
        EmptyFree(pool, g.contents, freeHead, g.free);
        ok := BucketAlloc(grant);
        if |g.contents| < n {
          DivMonotone(BUCKET_ALLOC_INCR * old(g).groups, n - 1, BUCKET_ALLOC_INCR);
        }
      }
    }

    /** A new element for `key` at the end of its chain. */
    method AddElement(key: K, bucket: nat, prev: nat, grant: Grant<K, V>, ghost n: nat) returns (r: Answer)
      requires Valid() && key !in g.contents && bucket == masks.Bucket(hash(key)) < |g.chains|
      requires prev == At(g.chains[bucket], |g.chains[bucket]| - 1)
      requires grant.group != 0 ==> forall a :: a in Group(grant.group, elemSize) ==> a !in pool
      modifies this`dir, this`pool, this`freeHead, this`nkeys, this`g, this`held
      ensures Valid() && Searched(old(g).contents, key, Enter, g.contents, r, false)
      ensures r == Null <==> old(freeHead) == INVALID_INDEX && grant.group == 0
      ensures r == Null ==> pool == old(pool) && g == old(g)
      ensures KeepsUserData(old(pool), pool, if r.Pointer? then r.addr else 0)
      ensures old(g.groups) <= Groups(n) && |g.contents| <= n ==> g.groups <= Groups(n)
      ensures |dir| == |old(dir)| && (r != Null ==> nkeys == old(nkeys) + 1)
      ensures r.Pointer? ==> Inserted(old(g), g, bucket, r.addr, Stock(old(g).free, grant.group, elemSize))
    {
      var ok := NeedFree(grant, n);
      if !ok {
        PayloadIsUserData(pool, pool, 0);
        return Null;
      }
      var curr := LinkFirst(key, bucket, prev, old(pool));
      r := Pointer(curr);
    }

    /** Links the first free element, on top of a step that kept all payloads. */
    method LinkFirst(key: K, bucket: nat, prev: nat, ghost before: Pool<K, V>) returns (curr: nat)
      requires Valid() && freeHead != INVALID_INDEX && key !in g.contents && SamePayload(before, pool)
      requires bucket == masks.Bucket(hash(key)) < |g.chains|
      requires prev == At(g.chains[bucket], |g.chains[bucket]| - 1)
      modifies this`dir, this`pool, this`freeHead, this`nkeys, this`g
      ensures Valid() && Searched(old(g).contents, key, Enter, g.contents, Pointer(curr), false)
      ensures KeepsUserData(before, pool, curr) && |dir| == |old(dir)|
      ensures |g.contents| == |old(g).contents| + 1 && g.groups == old(g).groups
      ensures Inserted(old(g), g, bucket, curr, old(g).free)
    {
      ghost var pool1 := pool;
      curr := LinkNew(key, bucket, prev);
      KeepsTwice(before, pool1, pool, curr);
    }

    /** The insertion half of `hash_search`. */
    method Insert(key: K, bucket: nat, prev: nat, grant: Grant<K, V>, ghost n: nat) returns (r: Answer, growth: Growth)
      requires Valid() && key !in g.contents && bucket == masks.Bucket(hash(key)) < |g.chains|
      requires prev == At(g.chains[bucket], |g.chains[bucket]| - 1)
      requires grant.group != 0 ==> forall a :: a in Group(grant.group, elemSize) ==> a !in pool
      modifies this
      ensures Valid() && Searched(old(g).contents, key, Enter, g.contents, r, false)
      ensures r == Null <==> old(freeHead) == INVALID_INDEX && grant.group == 0
      ensures r == Null ==> pool == old(pool) && g == old(g) && growth == NotDue
      ensures KeepsUserData(old(pool), pool, if r.Pointer? then r.addr else 0)
      ensures old(Fits(n)) && |g.contents| <= n ==> Fits(n)
      ensures growth == Failed && grant.segment && |g.contents| <= n ==> !old(Roomy(n))
      ensures maxDsize != NO_MAX_DSIZE ==> |dir| == |old(dir)|
      ensures growth != NotDue <==> r != Null && Overfull(|g.contents|, old(masks), ffactor)
      ensures growth == Failed <==> growth != NotDue && !old(CanGrow(grant))
      ensures masks == if growth == Grew then old(masks).Grown() else old(masks)
      ensures r != Null ==> Entered(hash, old(masks), pool, old(g), g, key, r.addr,
                                    Stock(old(g).free, grant.group, elemSize), growth == Grew)
    {
      growth := NotDue;
      r := AddElement(key, bucket, prev, grant, n);
      assert CanGrow(grant) == old(CanGrow(grant));
      if r != Null && Overfull(nkeys, masks, ffactor) {
        ghost var pool2 := pool;
        growth := Grow(grant, n);
        KeepsThrice(old(pool), pool2, pool, r.addr);
      }
    }

    /** The expansion at the end of an insertion, which the sizes planned for
        any `n` that is at least the number of keys leave room for. */
    method Grow(grant: Grant<K, V>, ghost n: nat) returns (growth: Growth)
      requires Valid() && Overfull(nkeys, masks, ffactor)
      modifies this`masks, this`nsegs, this`dir, this`pool, this`g, this`held
      ensures Valid() && SamePayload(old(pool), pool)
      ensures g.contents == old(g).contents && g.groups == old(g).groups
      ensures growth == if old(CanGrow(grant)) then Grew else Failed
      ensures masks == if growth == Grew then old(masks).Grown() else old(masks)
      ensures if growth == Grew then Halved(hash, old(masks), pool, old(g), g) else g == old(g)
      ensures old(Fits(n)) && nkeys <= n ==> Fits(n)
      ensures growth == Failed && grant.segment && nkeys <= n ==> !old(Roomy(n))
      ensures maxDsize != NO_MAX_DSIZE ==> |dir| == |old(dir)|
    {
      ghost var nb, ss := masks.max + 1, Pow2(sshift);
      if nkeys <= n {
        ExpansionStaysWithin(nkeys, nb, ffactor, n);
        SegmentsCover(nb, Buckets(n, ffactor), ss);
      }
      NextSegment(nb, ss, nsegs);
      var ok := ExpandTable(grant);
      growth := if ok then Grew else Failed;
      if ok {
        SplitSame(hash, old(masks), old(pool), pool, old(g).chains);
      }
    }

    /** `hash_search`: refines look-up, insertion and removal on a finite map.
        The table expands by one bucket exactly when a new key raises the load
        above the fill factor and memory and directory allow it. For any `n` that
        it was planned for, it stays within the plan while it holds at most `n`
        keys, and no expansion fails for want of directory space. */
    method HashSearch(key: K, action: Action, grant: Grant<K, V>, ghost n: nat)
      returns (r: Answer, found: bool, growth: Growth)
      requires Valid()
      requires grant.group != 0 ==> forall a :: a in Group(grant.group, elemSize) ==> a !in pool
      modifies this
      ensures Valid() && Searched(old(g).contents, key, action, g.contents, r, found)
      ensures r == Null <==> action == Enter && !found && old(freeHead) == INVALID_INDEX && grant.group == 0
      ensures KeepsUserData(old(pool), pool, if r.Pointer? then r.addr else 0)
      ensures old(Fits(n)) && |g.contents| <= n ==> Fits(n)
      ensures growth == Failed && grant.segment && |g.contents| <= n ==> !old(Roomy(n))
      ensures maxDsize != NO_MAX_DSIZE ==> |dir| == |old(dir)|
      ensures growth != NotDue <==>
                action == Enter && !found && r != Null && Overfull(|g.contents|, old(masks), ffactor)
      ensures growth == Failed <==> growth != NotDue && !old(CanGrow(grant))
      ensures masks == if growth == Grew then old(masks).Grown() else old(masks)
      ensures action == Find || (action == Enter <==> found) || r == Null ==> g == old(g) && pool == old(pool)
      ensures action == Remove && found ==> Removed(old(g), g, masks.Bucket(hash(key)), r.addr)
      ensures action == Enter && !found && r != Null ==>
                Entered(hash, old(masks), pool, old(g), g, key, r.addr,
                        Stock(old(g).free, grant.group, elemSize), growth == Grew)
    {
      var bucket, curr, prev;
      ghost var i;
      bucket, curr, prev, i := FollowChain(key);
      found, growth := curr != INVALID_INDEX, NotDue;
      PayloadIsUserData(pool, pool, if found then curr else 0);
      match action {
        case Enter =>
          if found {
            r := Pointer(curr);
          } else {
            r, growth := Insert(key, bucket, prev, grant, n);
          }
        case Remove =>
          if found {
            UnlinkFound(key, bucket, curr, prev, i);
            PayloadIsUserData(old(pool), pool, curr);
            r := Pointer(curr);
          } else {
            r := True;
          }
        case Find =>
          r := if found then Pointer(curr) else True;
      }
    }

    /** `hash_search`, and what it does to the load. */
    method SearchLoaded(key: K, action: Action, grant: Grant<K, V>, ghost n: nat, ghost over: nat)
      returns (r: Answer, found: bool, growth: Growth)
      requires Valid()
      requires grant.group != 0 ==> forall a :: a in Group(grant.group, elemSize) ==> a !in pool
      modifies this
      ensures Valid() && Searched(old(g).contents, key, action, g.contents, r, found)
      ensures r == Null ==> grant.group == 0
      ensures old(Fits(n)) && |g.contents| <= n ==> Fits(n)
      ensures growth == Failed && grant.segment ==> (|g.contents| <= n ==> !old(Roomy(n)))
                                                    && (maxDsize != NO_MAX_DSIZE || !grant.directory)
      ensures maxDsize != NO_MAX_DSIZE ==> |dir| == |old(dir)|
      ensures old(Loaded(over)) ==> Loaded(over + if growth == Failed then 1 else 0)
    {
      r, found, growth := HashSearch(key, action, grant, n);
      assert |g.contents| <= |old(g).contents| + 1;
      if old(Loaded(over)) {
        LoadStep(old(masks), masks, |old(g).contents|, |g.contents|, ffactor, growth, over);
      }
    }

    /** Any run of searches, insertions and removals, whatever the allocator
        grants or refuses, refines a run on a finite map: `trace` is the map
        before and after each operation. If the table was planned for `n`
        entries with a directory of fixed size, and segments are granted, no
        expansion fails while at most `n` keys are in it. The fill factor is
        exceeded by no more keys than expansions failed; a table without a fixed
        directory, to which segments and directories are granted, keeps to it. */
    method SearchRun(run: seq<(K, Action)>, grants: Allocator<K, V>, ghost n: nat, ghost over: nat)
      returns (replies: seq<Reply>, failures: nat, ghost trace: seq<map<K, nat>>)
      requires Valid() && forall i, p :: FreshIfGranted(grants, elemSize, i, p)
      modifies this
      ensures Valid() && Traced(run, replies, trace, |run|, old(g).contents, g.contents)
      ensures (forall i, p :: GrantsGroup(grants, i, p)) ==> NoNull(replies)
      ensures maxDsize != NO_MAX_DSIZE && old(Roomy(n)) && (forall i, p :: GrantsSegment(grants, i, p))
              && AtMost(trace, n) ==>
                Roomy(n) && failures == 0
      ensures maxDsize == NO_MAX_DSIZE && (forall i, p :: GrantsAll(grants, i, p)) ==> failures == 0
      ensures old(Loaded(over)) ==> Loaded(over + failures)
      ensures maxDsize != NO_MAX_DSIZE ==> |dir| == |old(dir)|
    {
      ghost var first := g.contents;
      ghost var planned := maxDsize != NO_MAX_DSIZE && Roomy(n) && forall i, p :: GrantsSegment(grants, i, p);
      ghost var groups := forall i, p :: GrantsGroup(grants, i, p);
      ghost var free := maxDsize == NO_MAX_DSIZE && forall i, p :: GrantsAll(grants, i, p);
      ghost var loaded := Loaded(over);
      replies, failures, trace := [], 0, [first];
      ghost var load: nat := over;
      for i := 0 to |run|
        invariant i > |run| || Running(run, replies, trace, i, first, n, planned)
        invariant planned && AtMost(trace, n) ==> failures == 0
        invariant maxDsize != NO_MAX_DSIZE ==> |dir| == |old(dir)|
        invariant groups ==> NoNull(replies)
        invariant free ==> failures == 0
        invariant load == over + failures && (loaded ==> Loaded(load))
      {
        var growth;
        ghost var was := trace;
        replies, growth, trace := SearchAt(run, i, replies, grants, n, first, planned, groups, free, trace, load);
        if AtMost(trace, n) {
          AtMostStep(was, n, trace[i + 1]);
        }
        failures := failures + if growth == Failed then 1 else 0;
        load := load + if growth == Failed then 1 else 0;
      }
    }

    /** The state of a run after `i` operations; within the plan if one was made. */
    ghost predicate Running(run: seq<(K, Action)>, replies: seq<Reply>, trace: seq<map<K, nat>>, i: nat,
                            first: map<K, nat>,
                            n: nat, planned: bool)
      reads this
    {
      Valid() && Traced(run, replies, trace, i, first, g.contents)
      && (planned ==> maxDsize != NO_MAX_DSIZE && (AtMost(trace, n) ==> Roomy(n)))
    }

    method SearchAt(run: seq<(K, Action)>, i: nat, soFar: seq<Reply>, grants: Allocator<K, V>,
                    ghost n: nat, ghost first: map<K, nat>, ghost planned: bool, ghost groups: bool, ghost free: bool,
                    ghost was: seq<map<K, nat>>, ghost over: nat)
      returns (replies: seq<Reply>, growth: Growth, ghost trace: seq<map<K, nat>>)
      requires Running(run, soFar, was, i, first, n, planned) && i < |run|
      requires forall i, p :: FreshIfGranted(grants, elemSize, i, p)
      requires planned ==> forall i, p :: GrantsSegment(grants, i, p)
      requires groups ==> forall i, p :: GrantsGroup(grants, i, p)
      requires free ==> maxDsize == NO_MAX_DSIZE && forall i, p :: GrantsAll(grants, i, p)
      modifies this
      ensures Running(run, replies, trace, i + 1, first, n, planned) && trace == was + [g.contents]
      ensures planned && AtMost(trace, n) ==> growth != Failed
      ensures maxDsize != NO_MAX_DSIZE ==> |dir| == |old(dir)|
      ensures groups && NoNull(soFar) ==> NoNull(replies)
      ensures free ==> growth != Failed
      ensures old(Loaded(over)) ==> Loaded(over + if growth == Failed then 1 else 0)
    {
      var (key, action) := run[i];
      ghost var before := g.contents;
      assert FreshIfGranted(grants, elemSize, i, pool);
      assert planned ==> GrantsSegment(grants, i, pool);
      assert groups ==> GrantsGroup(grants, i, pool);
      assert free ==> GrantsAll(grants, i, pool);
      var r, found;
      r, found, growth := SearchLoaded(key, action, grants(i, pool), n, over);
      replies, trace := soFar + [Reply(r, found)], was + [g.contents];
      TraceStep(run, soFar, was, i, first, before, Reply(r, found), g.contents);
      if AtMost(trace, n) {
        AtMostStep(was, n, g.contents);
      }
    }

    /** Relinks the bucket that the header just added splits. */
    method SplitLast(ghost before: Shadow<K>, ghost junk: nat)
      requires Shows(dir, Pow2(sshift), nsegs, g.heads) && g == before.(heads := before.heads + [junk])
      requires TableOk(hash, masks, pool, freeHead, before) && Accounted()
      modifies this`masks, this`dir, this`pool, this`g
      ensures Shows(dir, Pow2(sshift), nsegs, g.heads) && |dir| == |old(dir)| && Accounted()
      ensures TableOk(hash, masks, pool, freeHead, g) && g.contents == before.contents && g.groups == before.groups
      ensures masks == old(masks).Grown() && SamePayload(old(pool), pool) && pool.Keys == old(pool).Keys
      ensures Halved(hash, old(masks), old(pool), before, g)
    {
      OldBucketExists(hash, masks, pool, freeHead, before);
      var newBucket, oldBucket := masks.max + 1, masks.OldBucket();
      var head := ReadHead(oldBucket);
      var q, oldHead, newHead;
      ghost var g';
      q, oldHead, newHead, g' := SplitBucket(hash, masks, pool, head, freeHead, before);
      WriteHead(oldBucket, oldHead);
      WriteHead(newBucket, newHead);
      assert g.heads == g'.heads;
      masks, pool, g := masks.Grown(), q, g';
    }
  }

  /** Fewer than ffactor + 1 keys a bucket, but for `over` of them: then either
      `keys / (max + 1)` is at most the fill factor, or the excess is below `over`. */
  ghost predicate WithinLoad(keys: nat, ffactor: nat, m: Masks, over: nat) {
    keys < (ffactor + 1) * (m.max + 1) + over
  }

  /** One operation adds at most one key. If it adds one that exceeds the fill
      factor, a bucket is added too, or an expansion has failed. */
  lemma LoadStep(m: Masks, m': Masks, keys: nat, keys': nat, ffactor: nat, growth: Growth, over: nat)
    requires m' == if growth == Grew then m.Grown() else m
    requires growth == NotDue ==> keys' <= keys || !Overfull(keys', m, ffactor)
    requires keys' <= keys + 1 && WithinLoad(keys, ffactor, m, over)
    ensures WithinLoad(keys', ffactor, m', over + if growth == Failed then 1 else 0)
  {
    var nb := m.max + 1;
    assert (ffactor + 1) * (nb + 1) == (ffactor + 1) * nb + ffactor + 1;
  }

  /** All user data untouched, and all keys but that of `curr`. */
  ghost predicate SameButKey<K, V>(p: Pool<K, V>, q: Pool<K, V>, curr: nat) {
    q.Keys == p.Keys && forall a :: KeepsAllBut(p, q, curr, a)
  }

  ghost predicate KeepsAllBut<K, V>(p: Pool<K, V>, q: Pool<K, V>, curr: nat, a: nat) {
    a in p ==> a in q && q[a].data == p[a].data && (a != curr ==> q[a].key == p[a].key)
  }

  /** The exponent of the initial bucket count, and the initial segment count. */
  method InitSizes(nelem: int, ffactor: nat, sshift: nat) returns (e: nat, want: nat)
    requires ffactor > 0
    ensures Pow2(e) == Buckets(nelem, ffactor) && want == Segments(Buckets(nelem, ffactor), Pow2(sshift))
    ensures Pow2(e) <= want * Pow2(sshift)
  {
    var wish := CDiv(nelem - 1, ffactor) + 1;
    e := MyLog2(wish);
    Log2Unique(wish, e);
    var nbuckets, ssize := Pow2(e), Pow2(sshift);
    want := InitSegments(nbuckets, ssize);
    EnoughSegments(nbuckets, ssize, want);
  }

  method InitSegments(nbuckets: nat, ssize: nat) returns (want: nat)
    requires nbuckets > 0 && ssize > 0
    ensures want == Segments(nbuckets, ssize) && (nbuckets - 1) / ssize + 1 <= want
  {
    var wish := (nbuckets - 1) / ssize + 1;
    var f := MyLog2(wish);
    Log2Unique(wish, f);
    want := Pow2(f);
  }

  lemma EnoughSegments(nbuckets: nat, ssize: nat, want: nat)
    requires nbuckets > 0 && ssize > 0 && (nbuckets - 1) / ssize + 1 <= want
    ensures nbuckets <= want * ssize
  {
    DivModFacts(nbuckets - 1, ssize);
    var q := (nbuckets - 1) / ssize;
    assert (want - (q + 1)) * ssize >= 0;
    assert (want - (q + 1)) * ssize == want * ssize - q * ssize - ssize;
  }

  lemma ShowsEmpty(dir: seq<seq<nat>>, ssize: nat, nsegs: nat, heads: seq<nat>)
    requires ssize > 0 && nsegs <= |dir| && |heads| <= nsegs * ssize
    requires forall s :: 0 <= s < nsegs ==> Zeroed(dir[s], ssize)
    requires forall b :: 0 <= b < |heads| ==> heads[b] == INVALID_INDEX
    ensures Shows(dir, ssize, nsegs, heads)
  {
    forall b | 0 <= b < |heads|
      ensures HeadAt(dir, ssize, heads, b)
    {
      SegBounds(b, ssize, nsegs);
      assert Zeroed(dir[b / ssize], ssize);
    }
  }

  ghost predicate Zeroed(segment: seq<nat>, ssize: nat) {
    |segment| == ssize && forall j :: 0 <= j < ssize ==> segment[j] == INVALID_INDEX
  }

  lemma EmptyTableOk<K(!new), V>(hash: K -> int, m: Masks, pool: Pool<K, V>, g: Shadow<K>)
    requires m.Valid(g.k) && m.max + 1 == |g.heads| == |g.chains| && pool == map[]
    requires g.free == [] && g.contents == map[] && g.groups == 0
    requires forall b :: 0 <= b < |g.heads| ==> g.heads[b] == INVALID_INDEX && g.chains[b] == []
    ensures TableOk(hash, m, pool, INVALID_INDEX, g)
  {
    forall b | 0 <= b < |g.chains|
      ensures LinkedAt(pool, g.heads, g.chains, b) && ChainAt(hash, m, pool, g.chains, g.contents, b)
    {
    }
    assert forall k :: KeyOk(hash, m, pool, g.chains, g.contents, k);
    assert forall a :: FreeIff(pool, g.contents, g.free, a);
  }

  /** A table planned for at most `n` entries fits that plan from the start. */
  lemma FreshTableFits<K(!new), V(!new)>(t: HashTable<K, V>, nelem: int, n: nat)
    requires t.ffactor > 0 && nelem <= n && t.g.groups == 0 && t.g.contents == map[]
    requires t.masks.max + 1 == Buckets(nelem, t.ffactor)
    requires t.nsegs == Segments(Buckets(nelem, t.ffactor), Pow2(t.sshift))
    ensures t.Fits(n) && t.Loaded(0)
  {
    MulAtLeast(t.ffactor + 1, t.masks.max + 1);
    BucketsMonotone(nelem, n, t.ffactor);
    SegmentsMonotone(Buckets(nelem, t.ffactor), Buckets(n, t.ffactor), Pow2(t.sshift));
  }

  /** While a default table with the directory of `hash_select_dirsize(n)` fits
      its plan, it holds no more than `hash_estimate_size(n)` bytes of its
      allocator, and exactly that many once it has all segments and groups. */
  lemma FitsWithinEstimate<K(!new), V(!new)>(t: HashTable<K, V>, n: nat, d: nat, d': nat)
    requires t.ffactor == DEF_FFACTOR && t.sshift == DEF_SEGSIZE_SHIFT && t.Fits(n) && |t.dir| == d
    requires t.Accounted()
    requires var segs := Segments(Buckets(n, DEF_FFACTOR), DEF_SEGSIZE);
             IsDirSize(d, segs) && IsDirSize(d', segs)
    ensures var segs := Segments(Buckets(n, DEF_FFACTOR), DEF_SEGSIZE);
            var estimate := TableBytes(d', segs, DEF_SEGSIZE, Groups(n), t.elemSize);
            t.held <= estimate && (t.nsegs == segs && t.g.groups == Groups(n) ==> t.held == estimate)
    ensures t.Roomy(n)
  {
    var segs := Segments(Buckets(n, DEF_FFACTOR), DEF_SEGSIZE);
    SegmentSizeIs256();
    DirSizeUnique(d, d', segs);
    TableBytesMonotone(d, t.nsegs, segs, DEF_SEGSIZE, t.g.groups, Groups(n), t.elemSize);
  }

  lemma SegmentSizeIs256()
    ensures Pow2(DEF_SEGSIZE_SHIFT) == DEF_SEGSIZE
  {
    assert Pow2(4) == 16;
    assert Pow2(8) == 16 * Pow2(4);
  }

  /** User data untouched everywhere but at `curr`, which the caller may fill. */
  ghost predicate KeepsUserData<K, V>(p: Pool<K, V>, q: Pool<K, V>, curr: nat) {
    forall a :: KeepsAllBut(p, q, curr, a)
  }

  lemma KeepsTwice<K, V>(p: Pool<K, V>, q: Pool<K, V>, r: Pool<K, V>, curr: nat)
    requires SamePayload(p, q) && SameButKey(q, r, curr)
    ensures KeepsUserData(p, r, curr)
  {
    forall a
      ensures KeepsAllBut(p, r, curr, a)
    {
      assert KeepsPayload(p, q, a) && KeepsAllBut(q, r, curr, a);
    }
  }

  lemma KeepsThrice<K, V>(p: Pool<K, V>, q: Pool<K, V>, r: Pool<K, V>, curr: nat)
    requires KeepsUserData(p, q, curr) && SamePayload(q, r)
    ensures KeepsUserData(p, r, curr)
  {
    forall a
      ensures KeepsAllBut(p, r, curr, a)
    {
      assert KeepsAllBut(p, q, curr, a) && KeepsPayload(q, r, a);
    }
  }

  lemma PayloadIsUserData<K, V>(p: Pool<K, V>, q: Pool<K, V>, curr: nat)
    requires p == q || SamePayload(p, q)
    ensures KeepsUserData(p, q, curr)
  {
    forall a
      ensures KeepsAllBut(p, q, curr, a)
    {
      assert p == q || KeepsPayload(p, q, a);
    }
  }

  lemma EmptyFree<K, V>(pool: Pool<K, V>, contents: map<K, nat>, head: nat, free: seq<nat>)
    requires FreeOk(pool, contents, head, free) && head == 0
    ensures free == []
  {
    assert free != [] ==> LinkAt(pool, free, 0);
  }

  lemma AppendedPayload<K, V>(pool: Pool<K, V>, prev: nat, a: nat, key: K)
    requires a in pool && (prev != 0 ==> prev in pool)
    ensures SameButKey(pool, Appended(pool, prev, a, key), a)
  {
  }

  lemma UnlinkedPayload<K, V>(pool: Pool<K, V>, prev: nat, a: nat, head: nat)
    requires a in pool && (prev != 0 ==> prev in pool)
    ensures Unlinked(pool, prev, a, head).Keys == pool.Keys && SamePayload(pool, Unlinked(pool, prev, a, head))
  {
  }

  /** The head of a non-empty free list is nobody's element. */
  lemma FreeNotMapped<K(!new), V>(hash: K -> int, m: Masks, pool: Pool<K, V>, chains: seq<seq<nat>>,
                                  contents: map<K, nat>, freeHead: nat, free: seq<nat>)
    requires Placed(hash, m, pool, chains, contents) && FreeOk(pool, contents, freeHead, free) && freeHead != 0
    ensures free != [] && freeHead in pool && freeHead !in contents.Values
  {
    assert free != [];
    assert LinkAt(pool, free, 0) && free[0] in free && FreeIff(pool, contents, free, free[0]);
    forall key | key in contents
      ensures contents[key] != freeHead
    {
      assert KeyOk(hash, m, pool, chains, contents, key);
    }
  }

  /** `bucket_alloc` on values: the group is threaded and put before the list. */
  method AddGroup<K(!new), V>(hash: K -> int, m: Masks, pool: Pool<K, V>, freeHead: nat, grant: Grant<K, V>,
                              size: nat, ghost g: Shadow<K>) returns (p: Pool<K, V>, ghost g': Shadow<K>)
    requires TableOk(hash, m, pool, freeHead, g) && size > 0 && grant.group != 0
    requires forall a :: a in Group(grant.group, size) ==> a !in pool
    ensures TableOk(hash, m, p, grant.group, g') && SamePayload(pool, p)
    ensures g' == g.(groups := g.groups + 1, free := Group(grant.group, size) + g.free)
  {
    ghost var group := Group(grant.group, size);
    GroupShape(grant.group, size);
    p := ThreadGroup(pool, grant.group, size, BUCKET_ALLOC_INCR, grant.junk, freeHead, group);
    forall a
      ensures a in pool ==> a in p && p[a] == pool[a]
    {
      assert JoinedAt(pool, p, group, a);
    }
    GroupKeepsChains(hash, m, pool, g.heads, g.chains, g.contents, p);
    forall a | a in group
      ensures !Live(p, g.contents, a)
    {
      assert JoinedAt(pool, p, group, a);
      assert a in p ==> KeyOk(hash, m, pool, g.chains, g.contents, p[a].key);
    }
    GroupKeepsFree(pool, g.contents, freeHead, g.free, p, group);
    g' := g.(groups := g.groups + 1, free := group + g.free);
  }

  /** Pops the free list and copies the key into the element, which is linked
      behind `prev`; `next` is the new head of the free list. */
  method TakeFree<K(!new), V>(hash: K -> int, m: Masks, key: K, prev: nat, pool: Pool<K, V>, freeHead: nat,
                              ghost g: Shadow<K>)
    returns (curr: nat, q: Pool<K, V>, next: nat, ghost g': Shadow<K>)
    requires TableOk(hash, m, pool, freeHead, g)
    requires freeHead != INVALID_INDEX && key !in g.contents && m.Bucket(hash(key)) < |g.chains|
    requires prev == At(g.chains[m.Bucket(hash(key))], |g.chains[m.Bucket(hash(key))]| - 1)
    ensures TableOk(hash, m, q, next, g')
    ensures g'.heads == if prev == INVALID_INDEX then g.heads[m.Bucket(hash(key)) := curr] else g.heads
    ensures g'.contents == g.contents[key := curr] && |g'.contents| == |g.contents| + 1 && g'.groups == g.groups
    ensures curr in pool && curr !in g.contents.Values && SameButKey(pool, q, curr)
    ensures Inserted(g, g', m.Bucket(hash(key)), curr, g.free) && g'.k == g.k
  {
    FreeNotMapped(hash, m, pool, g.chains, g.contents, freeHead, g.free);
    curr := freeHead;
    ghost var b := m.Bucket(hash(key));
    assert LinkAt(pool, g.free, 0) && FreeIff(pool, g.contents, g.free, curr) && curr in g.free;
    EnterKeepsChains(hash, m, pool, g.heads, g.chains, g.contents, curr, key);
    q, next := Appended(pool, prev, curr, key), pool[curr].next;
    AppendedPayload(pool, prev, curr, key);
    EnterKeepsPlacement(hash, m, pool, g.chains, g.contents, q, curr, key);
    EnterLeavesFree(pool, g.contents, freeHead, g.free, q, prev, key);
    EnterKeepsFree(pool, g.contents, freeHead, g.free, q, g.contents[key := curr]);
    g' := g.(heads := if prev == INVALID_INDEX then g.heads[b := curr] else g.heads, free := g.free[1..],
             chains := g.chains[b := g.chains[b] + [curr]], contents := g.contents[key := curr]);
    assert |q| == |q.Keys| == |pool.Keys|;
  }

  lemma EnterLeavesFree<K, V>(pool: Pool<K, V>, contents: map<K, nat>, freeHead: nat, free: seq<nat>,
                              q: Pool<K, V>, prev: nat, key: K)
    requires FreeOk(pool, contents, freeHead, free) && free != [] && free[0] in pool
    requires prev != 0 ==> Live(pool, contents, prev)
    requires q == Appended(pool, prev, free[0], key)
    ensures forall x :: x in free[1..] && x in pool ==> q[x].next == pool[x].next
  {
    TailLinked(pool, freeHead, free);
    forall x | x in free[1..] && x in pool
      ensures q[x].next == pool[x].next
    {
      assert FreeIff(pool, contents, free, x);
    }
  }

  /** Unlinks `curr` and pushes it on the free list; `next` is what the link
      before it now holds. */
  method GiveBack<K(!new), V>(hash: K -> int, m: Masks, key: K, curr: nat, prev: nat, pool: Pool<K, V>, freeHead: nat,
                              ghost g: Shadow<K>, ghost i: nat)
    returns (q: Pool<K, V>, next: nat, ghost g': Shadow<K>)
    requires TableOk(hash, m, pool, freeHead, g)
    requires key in g.contents && m.Bucket(hash(key)) < |g.chains| && i < |g.chains[m.Bucket(hash(key))]|
    requires curr == g.contents[key] == g.chains[m.Bucket(hash(key))][i]
    requires prev == At(g.chains[m.Bucket(hash(key))], i - 1)
    ensures TableOk(hash, m, q, curr, g')
    ensures g'.heads == if prev == INVALID_INDEX then g.heads[m.Bucket(hash(key)) := next] else g.heads
    ensures g'.contents == g.contents - {key} && |g'.contents| == |g.contents| - 1 && g'.groups == g.groups
    ensures q.Keys == pool.Keys && SamePayload(pool, q)
    ensures Removed(g, g', m.Bucket(hash(key)), curr)
  {
    ghost var b := m.Bucket(hash(key));
    RemoveKeepsChains(hash, m, pool, g.heads, g.chains, g.contents, freeHead, b, i);
    q, next := Unlinked(pool, prev, curr, freeHead), pool[curr].next;
    UnlinkedPayload(pool, prev, curr, freeHead);
    RemoveKeepsPlacement(hash, m, pool, g.chains, g.contents, q, b, i, key);
    assert KeyOk(hash, m, pool, g.chains, g.contents, key);
    RemoveKeepsFree(pool, g.contents, freeHead, g.free, q, prev, key);
    g' := g.(heads := if prev == INVALID_INDEX then g.heads[b := next] else g.heads, free := [curr] + g.free,
             chains := g.chains[b := Without(g.chains[b], i)], contents := g.contents - {key});
    assert |q| == |q.Keys| == |pool.Keys|;
    assert g'.contents.Keys == g.contents.Keys - {key};
  }

  lemma OldBucketExists<K(!new), V>(hash: K -> int, m: Masks, pool: Pool<K, V>, freeHead: nat, g: Shadow<K>)
    requires TableOk(hash, m, pool, freeHead, g)
    ensures m.OldBucket() < |g.heads| == |g.chains| == m.max + 1
  {
    var k' := GrownValid(m, g.k);
  }

  /** The second part of `expand_table`, from the choice of the old bucket on. */
  method SplitBucket<K(!new), V>(hash: K -> int, m: Masks, pool: Pool<K, V>, head: nat, ghost freeHead: nat,
                                 ghost g: Shadow<K>)
    returns (q: Pool<K, V>, oldHead: nat, newHead: nat, ghost g': Shadow<K>)
    requires TableOk(hash, m, pool, freeHead, g)
    requires m.OldBucket() < |g.heads| && head == g.heads[m.OldBucket()]
    ensures TableOk(hash, m.Grown(), q, freeHead, g')
    ensures g'.heads == g.heads[m.OldBucket() := oldHead] + [newHead]
    ensures g'.contents == g.contents && g'.groups == g.groups
    ensures q.Keys == pool.Keys && SamePayload(pool, q) && Halved(hash, m, pool, g, g')
  {
    var oldBucket := m.OldBucket();
    ghost var c, k' := g.chains[oldBucket], g.k;
    ghost var stay := Staying(hash, m.Grown(), oldBucket, pool, c);
    ghost var go := (set a | a in c) - stay;
    assert LinkedAt(pool, g.heads, g.chains, oldBucket) && ChainAt(hash, m, pool, g.chains, g.contents, oldBucket);
    SetsSorted(hash, m, m.Grown(), oldBucket, pool, g.contents, c, stay, go);
    q, oldHead, newHead := SplitChain(hash, m.Grown(), oldBucket, pool, head, c, stay, go);
    SplitKeepsAll(hash, m, g.k, pool, q, g.heads, g.chains, g.contents, freeHead, g.free, stay, go, oldHead, newHead);
    k' := GrownValid(m, g.k);
    g' := g.(k := k', heads := g.heads[oldBucket := oldHead] + [newHead],
             chains := g.chains[oldBucket := Sel(c, stay)] + [Sel(c, go)]);
    assert |q| == |q.Keys| == |pool.Keys|;
  }

  /** Element `i` of a chain is assigned to one of two sets by its bucket. */
  ghost predicate Sorted<K, V>(hash: K -> int, m: Masks, bucket: nat, pool: Pool<K, V>, c: seq<nat>,
                               stay: set<nat>, go: set<nat>, i: nat)
    requires i < |c|
  {
    && c[i] in pool
    && (c[i] in stay <==> m.Bucket(hash(pool[c[i]].key)) == bucket)
    && (c[i] in go <==> c[i] !in stay)
  }

  /** The relinking loop of `expand_table`: walks the old chain once, writing
      each element behind the last one of the chain it now belongs to. */
  method SplitChain<K, V>(hash: K -> int, m: Masks, oldBucket: nat, pool: Pool<K, V>, head: nat,
                          ghost c: seq<nat>, ghost stay: set<nat>, ghost go: set<nat>)
    returns (q: Pool<K, V>, oldHead: nat, newHead: nat)
    requires Linked(pool, head, c) && NoDup(c)
    requires forall i :: 0 <= i < |c| ==> Sorted(hash, m, oldBucket, pool, c, stay, go, i)
    ensures SameButLinks(pool, q, c)
    ensures Linked(q, oldHead, Sel(c, stay)) && Linked(q, newHead, Sel(c, go))
  {
    var oldEnds, newEnds := Ends(head, INVALID_INDEX), Ends(INVALID_INDEX, INVALID_INDEX);
    var chainIndex := head;
    q := pool;
    ghost var i, s, g := 0, [], [];
    RelinkStart(pool, head, c);
    while chainIndex != INVALID_INDEX
      invariant i <= |c| && chainIndex == At(c, i)
      invariant s == Sel(c[..i], stay) && g == Sel(c[..i], go)
      invariant EndsOk(oldEnds, s, c) && EndsOk(newEnds, g, c)
      invariant Relinked(q, c, i, s, oldEnds.head, g, newEnds.head)
      invariant SameButLinks(pool, q, c)
      decreases |c| - i
    {
      assert Untouched(q, c, s, g, i);
      var nextIndex := q[chainIndex].next;
      SelStep(c, i, stay);
      SelStep(c, i, go);
      assert Sorted(hash, m, oldBucket, pool, c, stay, go, i);
      var keep := m.Bucket(hash(q[chainIndex].key)) == oldBucket;
      q, oldEnds, newEnds, s, g := RelinkOne(q, keep, chainIndex, oldEnds, newEnds, pool, c, i, s, g);
      chainIndex, i := nextIndex, i + 1;
    }
    assert i < |c| ==> Untouched(q, c, s, g, i);
    assert c[..i] == c;
    q, oldHead, newHead := Terminate(q, oldEnds, newEnds, pool, c, s, g);
  }

  /** A chain under construction: its header word and its last element. */
  datatype Ends = Ends(head: nat, last: nat)

  /** One turn of the loop: the element goes behind one chain or the other. */
  method RelinkOne<K, V>(q: Pool<K, V>, keep: bool, a: nat, o: Ends, n: Ends, ghost pool: Pool<K, V>,
                         ghost c: seq<nat>, ghost i: nat, ghost s: seq<nat>, ghost g: seq<nat>)
    returns (r: Pool<K, V>, o': Ends, n': Ends, ghost s': seq<nat>, ghost g': seq<nat>)
    requires i < |c| && a == c[i] && a != 0 && NoDup(c) && Relinked(q, c, i, s, o.head, g, n.head)
    requires EndsOk(o, s, c) && EndsOk(n, g, c)
    requires SameButLinks(pool, q, c)
    ensures SameButLinks(pool, r, c)
    ensures Relinked(r, c, i + 1, s', o'.head, g', n'.head)
    ensures EndsOk(o', s', c) && EndsOk(n', g', c)
    ensures s' == (if keep then s + [a] else s) && g' == if keep then g else g + [a]
  {
    o', n', s', g' := o, n, s, g;
    if keep {
      r, o' := AppendBehind(q, a, o, pool, c, i, s, g, n.head);
      s' := s + [a];
    } else {
      RelinkedSwap(q, c, i, s, o.head, g, n.head);
      r, n' := AppendBehind(q, a, n, pool, c, i, g, s, o.head);
      g' := g + [a];
      RelinkedSwap(r, c, i + 1, g', n'.head, s, o.head);
    }
  }

  ghost predicate EndsOk(e: Ends, s: seq<nat>, c: seq<nat>) {
    e.last == At(s, |s| - 1) && (s != [] ==> e.last in c)
  }

  lemma RelinkStart<K, V>(pool: Pool<K, V>, head: nat, c: seq<nat>)
    requires Linked(pool, head, c)
    ensures Relinked(pool, c, 0, [], head, [], 0)
  {
    forall j | 0 <= j < |c|
      ensures Untouched(pool, c, [], [], j)
    {
      assert LinkAt(pool, c, j);
    }
  }

  /** Only links of elements of `c` differ. */
  ghost predicate SameButLinks<K, V>(p: Pool<K, V>, q: Pool<K, V>, c: seq<nat>) {
    && q.Keys == p.Keys
    && forall a :: a in p ==> q[a].key == p[a].key && q[a].data == p[a].data && (a !in c ==> q[a].next == p[a].next)
  }

  /** `*slot = a`, where the slot is the link of the last element of the chain
      under construction, or its header while that chain is empty. */
  method AppendBehind<K, V>(q: Pool<K, V>, a: nat, e: Ends, ghost pool: Pool<K, V>,
                            ghost c: seq<nat>, ghost i: nat, ghost s: seq<nat>, ghost g: seq<nat>, ghost gHead: nat)
    returns (r: Pool<K, V>, e': Ends)
    requires i < |c| && a == c[i] && NoDup(c) && Relinked(q, c, i, s, e.head, g, gHead)
    requires EndsOk(e, s, c) && SameButLinks(pool, q, c)
    ensures Relinked(r, c, i + 1, s + [a], e'.head, g, gHead) && SameButLinks(pool, r, c)
    ensures EndsOk(e', s + [a], c)
  {
    RelinkStep(q, c, i, s, e.head, g, gHead);
    r, e' := PoolWith(q, e.last, a), Ends(if e.last == INVALID_INDEX then a else e.head, a);
  }

  method Terminate<K, V>(q: Pool<K, V>, o: Ends, n: Ends, ghost pool: Pool<K, V>,
                         ghost c: seq<nat>, ghost s: seq<nat>, ghost g: seq<nat>)
    returns (r: Pool<K, V>, oldHead: nat, newHead: nat)
    requires Relinked(q, c, |c|, s, o.head, g, n.head) && SameButLinks(pool, q, c)
    requires EndsOk(o, s, c) && EndsOk(n, g, c)
    ensures Linked(r, oldHead, s) && Linked(r, newHead, g) && SameButLinks(pool, r, c)
  {
    RelinkClose(q, c, s, o.head, g, n.head);
    oldHead := if o.last == INVALID_INDEX then INVALID_INDEX else o.head;
    newHead := if n.last == INVALID_INDEX then INVALID_INDEX else n.head;
    r := PoolWith(PoolWith(q, o.last, INVALID_INDEX), n.last, INVALID_INDEX);
  }

  /** The elements of a group: `INCR` records of `size` bytes from `base` on. */
  ghost function Group(base: nat, size: nat, n: nat := BUCKET_ALLOC_INCR): (g: seq<nat>)
    ensures |g| == n
  {
    if n == 0 then [] else Group(base, size, n - 1) + [base + (n - 1) * size]
  }

  lemma {:induction false} GroupAt(base: nat, size: nat, n: nat, i: nat)
    requires i < n
    ensures Group(base, size, n)[i] == base + i * size
  {
    if i < n - 1 {
      GroupAt(base, size, n - 1, i);
    }
  }

  /** Each record of a group has room for its link, its key and its data before
      the next one, and the last one before the end of the group. */
  lemma GroupHolds(base: nat, size: nat, keysize: nat, datasize: nat, i: nat, j: nat)
    requires IsRecord(size, keysize, datasize) && i < j <= BUCKET_ALLOC_INCR
    ensures var next := if j < BUCKET_ALLOC_INCR then Group(base, size)[j] else base + BUCKET_ALLOC_INCR * size;
            Group(base, size)[i] + SIZEOF_LONG + keysize + datasize <= next
  {
    GroupAt(base, size, BUCKET_ALLOC_INCR, i);
    if j < BUCKET_ALLOC_INCR {
      GroupAt(base, size, BUCKET_ALLOC_INCR, j);
    }
    MulMonotone(i + 1, j, size);
    assert (i + 1) * size == i * size + size;
  }

  ghost predicate Threaded<K, V>(p: Pool<K, V>, group: seq<nat>, last: nat, j: nat)
    requires j < |group|
  {
    group[j] in p && p[group[j]].next == if j + 1 < |group| then group[j + 1] else last
  }

  ghost predicate Filled<K, V>(p: Pool<K, V>, group: seq<nat>, size: nat, j: nat)
    requires j < |group|
  {
    group[j] in p && p[group[j]].next == group[j] + size
  }

  /** The loop of `bucket_alloc`: each new element points to the one behind it. */
  method FillGroup<K, V>(pool: Pool<K, V>, base: nat, size: nat, n: nat, junk: nat -> (K, V),
                         ghost group: seq<nat>, ghost addrs: set<nat>) returns (p: Pool<K, V>, ghost next: nat)
    requires group != [] && group[0] == base && |group| == n && size > 0
    requires forall j :: 0 <= j < |group| - 1 ==> Step(group, size, j)
    requires forall j :: 0 <= j < |group| ==> group[j] !in pool && group[j] in addrs
    ensures FilledTo(pool, p, group, size, addrs, n, next)
  {
    var tmpIndex: nat := base;
    p := pool;
    for i := 0 to n
      invariant FilledTo(pool, p, group, size, addrs, i, tmpIndex) && (i < n ==> tmpIndex == group[i])
    {
      p := FillOne(pool, p, tmpIndex, size, junk(i), group, addrs, i);
      tmpIndex := tmpIndex + size;
    }
    next := tmpIndex;
  }

  /** One new element, pointing to the place behind it. */
  method FillOne<K, V>(ghost pool: Pool<K, V>, was: Pool<K, V>, c: nat, size: nat, junk: (K, V),
                       ghost group: seq<nat>, ghost addrs: set<nat>, ghost i: nat) returns (p: Pool<K, V>)
    requires i < |group| && size > 0 && c == group[i] && FilledTo(pool, was, group, size, addrs, i, c)
    requires forall j :: 0 <= j < |group| - 1 ==> Step(group, size, j)
    requires forall j :: 0 <= j < |group| ==> group[j] !in pool && group[j] in addrs
    ensures FilledTo(pool, p, group, size, addrs, i + 1, c + size) && (i + 1 < |group| ==> c + size == group[i + 1])
  {
    assert i + 1 < |group| ==> Step(group, size, i);
    p := was[c := Element(c + size, junk.0, junk.1)];
    FillStep(pool, was, p, group, size, addrs, i, c, c + size);
  }

  /** The first `i` elements of the group are in the pool, the old ones untouched. */
  ghost predicate FilledTo<K, V>(pool: Pool<K, V>, p: Pool<K, V>, group: seq<nat>, size: nat, addrs: set<nat>, i: nat,
                                 next: nat) {
    && i <= |group| && |p| == |pool| + i
    && (forall a :: FillAt(pool, p, addrs, next, a))
    && (forall j :: 0 <= j < i ==> Filled(p, group, size, j))
  }

  ghost predicate FillAt<K, V>(pool: Pool<K, V>, p: Pool<K, V>, addrs: set<nat>, next: nat, a: nat) {
    && (a in pool ==> a in p && p[a] == pool[a])
    && (a in p && a !in pool ==> a in addrs && a < next)
  }

  lemma FillStep<K, V>(pool: Pool<K, V>, was: Pool<K, V>, p: Pool<K, V>, group: seq<nat>, size: nat, addrs: set<nat>,
                       i: nat,
                       c: nat, next: nat)
    requires i < |group| && size > 0 && c == group[i] && next == c + size
             && FilledTo(pool, was, group, size, addrs, i, c)
    requires c !in pool && c in addrs && c in p && p[c].next == next && p == was[c := p[c]]
    ensures FilledTo(pool, p, group, size, addrs, i + 1, next)
  {
    assert FillAt(pool, was, addrs, c, c);
    assert c !in was;
    forall a
      ensures FillAt(pool, p, addrs, next, a)
    {
      assert FillAt(pool, was, addrs, c, a);
    }
    forall j | 0 <= j < i + 1
      ensures Filled(p, group, size, j)
    {
      assert j < i ==> Filled(was, group, size, j);
    }
  }

  /** The last element of the group points to the old free list head. */
  method ThreadGroup<K, V>(pool: Pool<K, V>, base: nat, size: nat, n: nat, junk: nat -> (K, V), lastIndex: nat,
                           ghost group: seq<nat>) returns (p: Pool<K, V>)
    requires IsGroup(group, base, size) && |group| == n
    requires forall j :: 0 <= j < |group| ==> group[j] !in pool
    ensures |p| == |pool| + n && (forall a :: JoinedAt(pool, p, group, a))
    ensures forall j :: 0 <= j < |group| ==> Threaded(p, group, lastIndex, j)
  {
    ghost var addrs := set a | a in group;
    var q;
    ghost var next;
    q, next := FillGroup(pool, base, size, n, junk, group, addrs);
    var last := LastOfGroup(base, size, n, group);
    assert Filled(q, group, size, |group| - 1);
    p := q[last := q[last].(next := lastIndex)];
    JoinGroup(pool, q, p, group, size, addrs, next, lastIndex);
  }

  lemma JoinGroup<K, V>(pool: Pool<K, V>, q: Pool<K, V>, p: Pool<K, V>, group: seq<nat>, size: nat, addrs: set<nat>,
                        next: nat, lastIndex: nat)
    requires group != [] && NoDup(group) && FilledTo(pool, q, group, size, addrs, |group|, next)
             && addrs == set a | a in group
    requires forall j :: 0 <= j < |group| - 1 ==> Step(group, size, j)
    requires forall j :: 0 <= j < |group| ==> group[j] !in pool
    requires var last := group[|group| - 1]; last in q && p == q[last := q[last].(next := lastIndex)]
    ensures |p| == |pool| + |group| && (forall a :: JoinedAt(pool, p, group, a))
    ensures forall j :: 0 <= j < |group| ==> Threaded(p, group, lastIndex, j)
  {
    forall j | 0 <= j < |group|
      ensures Threaded(p, group, lastIndex, j) && group[j] in q
    {
      assert Filled(q, group, size, j);
      assert j + 1 < |group| ==> Step(group, size, j);
    }
    forall a
      ensures JoinedAt(pool, p, group, a)
    {
      assert FillAt(pool, q, addrs, next, a);
    }
  }

  /** The pool holds the old elements, unchanged, and those of the new group. */
  ghost predicate JoinedAt<K, V>(pool: Pool<K, V>, p: Pool<K, V>, group: seq<nat>, a: nat) {
    && (a in p <==> a in pool || a in group)
    && (a in pool ==> a !in group && p[a] == pool[a])
  }

  method LastOfGroup(base: nat, size: nat, n: nat, ghost group: seq<nat>) returns (last: nat)
    requires IsGroup(group, base, size) && |group| == n
    ensures last == group[|group| - 1]
  {
    last := base;
    for i := 0 to n - 1
      invariant last == group[i]
    {
      assert Step(group, size, i);
      last := last + size;
    }
  }

  ghost predicate Step(group: seq<nat>, size: nat, j: nat)
    requires j + 1 < |group|
  {
    group[j + 1] == group[j] + size
  }

  ghost predicate IsGroup(g: seq<nat>, base: nat, size: nat) {
    && |g| > 0 && size > 0 && NoDup(g) && 0 !in g && g[0] == base
    && forall j :: 0 <= j < |g| - 1 ==> Step(g, size, j)
  }

  lemma GroupShape(base: nat, size: nat)
    requires base > 0 && size > 0
    ensures IsGroup(Group(base, size), base, size)
  {
    var g := Group(base, size);
    forall i | 0 <= i < |g|
      ensures g[i] == base + i * size
    {
      GroupAt(base, size, |g|, i);
    }
    forall i, j | 0 <= j < i < |g|
      ensures g[j] < g[i]
    {
      assert (i - j) * size == i * size - j * size;
      MulAtLeast(i - j, size);
    }
    forall j | 0 <= j < |g| - 1
      ensures Step(g, size, j)
    {
      assert (j + 1) * size == j * size + size;
    }
    assert 0 !in g && g[0] == base;
  }

  lemma GroupKeepsChains<K(!new), V>(hash: K -> int, m: Masks, pool: Pool<K, V>, heads: seq<nat>, chains: seq<seq<nat>>,
                               contents: map<K, nat>, p: Pool<K, V>)
    requires AllLinked(pool, heads, chains) && Placed(hash, m, pool, chains, contents)
    requires pool.Keys <= p.Keys && forall a :: a in pool ==> p[a] == pool[a]
    ensures AllLinked(p, heads, chains) && Placed(hash, m, p, chains, contents)
  {
    forall b | 0 <= b < |chains|
      ensures LinkedAt(p, heads, chains, b) && ChainAt(hash, m, p, chains, contents, b)
    {
      assert LinkedAt(pool, heads, chains, b) && ChainAt(hash, m, pool, chains, contents, b);
      LinkedFrame(pool, p, heads[b], chains[b]);
      forall i | 0 <= i < |chains[b]|
        ensures ElemOk(hash, m, p, contents, b, chains[b], i)
      {
        assert ElemOk(hash, m, pool, contents, b, chains[b], i);
      }
    }
    forall k
      ensures KeyOk(hash, m, p, chains, contents, k)
    {
      assert KeyOk(hash, m, pool, chains, contents, k);
    }
  }

  lemma GroupKeepsFree<K, V>(pool: Pool<K, V>, contents: map<K, nat>, head: nat, free: seq<nat>,
                             p: Pool<K, V>, group: seq<nat>)
    requires FreeOk(pool, contents, head, free) && group != [] && NoDup(group) && 0 !in group
    requires forall a :: a in group ==> !Live(p, contents, a)
    requires (forall a :: JoinedAt(pool, p, group, a)) && |p| == |pool| + |group|
    requires forall j :: 0 <= j < |group| ==> Threaded(p, group, head, j)
    ensures FreeOk(p, contents, group[0], group + free)
  {
    var all := group + free;
    forall a
      ensures FreeIff(p, contents, all, a) && (a in pool ==> a in p && p[a] == pool[a])
    {
      assert FreeIff(pool, contents, free, a) && JoinedAt(pool, p, group, a);
    }
    GroupLinks(pool, head, free, p, group);
    forall j | 0 <= j < |free|
      ensures free[j] in pool && free[j] !in group
    {
      assert LinkAt(pool, free, j) && JoinedAt(pool, p, group, free[j]);
    }
  }

  /** The new group is linked in front of the old free list. */
  lemma GroupLinks<K, V>(pool: Pool<K, V>, head: nat, free: seq<nat>, p: Pool<K, V>, group: seq<nat>)
    requires Linked(pool, head, free) && group != [] && 0 !in group
    requires forall a :: a in pool ==> a in p && p[a] == pool[a]
    requires forall j :: 0 <= j < |group| ==> Threaded(p, group, head, j)
    ensures Linked(p, group[0], group + free)
  {
    var all := group + free;
    forall i | 0 <= i < |all|
      ensures LinkAt(p, all, i)
    {
      if i < |group| {
        assert all[i] == group[i] && group[i] in group && Threaded(p, group, head, i);
        assert i + 1 == |group| ==> At(all, i + 1) == At(free, 0);
      } else {
        assert LinkAt(pool, free, i - |group|);
        assert all[i] == free[i - |group|] && At(all, i + 1) == At(free, i - |group| + 1);
      }
    }
  }
}
