/** The value-level theory of the dynamic hash table: bucket addressing by two
    masks, collision chains threaded through a pool of elements, and what the
    splitting of one bucket does to them. */
module HashChains {
  import opened Bits
  import opened Lists

  /** A pool record: the link secret to the table, the key and the user's data. */
  datatype Element<K, V> = Element(next: nat, key: K, data: V)
  type Pool<K, V> = map<nat, Element<K, V>>

  /** The addressing part of the table header. */
  datatype Masks = Masks(low: nat, high: nat, max: nat) {

    /** The bucket a hash value addresses: reduced by the high mask, and by the
        low mask as well when that names a bucket not yet created. */
    function Bucket(h: int): nat {
      var b := BitAnd(h, high);
      if b > max then BitAnd(b, low) else b
    }

    /** Between two powers of two: `low` and `high` are 2^k-1 and 2^(k+1)-1. */
    ghost predicate Valid(k: nat) {
      low == Pow2(k) - 1 && high == 2 * Pow2(k) - 1 && low <= max <= high
    }

    /** The masks after one more bucket exists. */
    function Grown(): Masks {
      var newBucket := max + 1;
      if newBucket > high then Masks(high, BitOr(newBucket, high), newBucket)
      else Masks(low, high, newBucket)
    }

    /** The one bucket that the creation of bucket `max + 1` splits. */
    function OldBucket(): nat {
      BitAnd(max + 1, low)
    }
  }

  lemma BucketIsMod(m: Masks, k: nat, h: int)
    requires m.Valid(k)
    ensures var b := h % (2 * Pow2(k)); m.Bucket(h) == if b > m.max then b - Pow2(k) else b
    ensures m.Bucket(h) <= m.max
  {
    AndMask(h, k + 1);
    var p, b := Pow2(k), h % (2 * Pow2(k));
    AndMask(b, k);
    if b > m.max {
      DivModUnique(b, p, 1, b - p);
    }
  }

  lemma GrownValid(m: Masks, k: nat) returns (k': nat)
    requires m.Valid(k)
    ensures m.Grown().Valid(k')
    ensures m.OldBucket() <= m.max
    ensures m.OldBucket() == if m.max == m.high then 0 else m.max + 1 - Pow2(k)
  {
    var p := Pow2(k);
    AndMask(m.max + 1, k);
    if m.max == m.high {
      OrMask(k + 1);
      DivModUnique(2 * p, p, 2, 0);
      k' := k + 1;
    } else {
      DivModUnique(m.max + 1, p, 1, m.max + 1 - p);
      k' := k;
    }
  }

  /** Splitting touches one bucket only: a hash value keeps its bucket unless it
      addressed `OldBucket`, and then it stays or goes to the new bucket. */
  lemma SplitMovesOneBucket(m: Masks, k: nat, h: int)
    requires m.Valid(k)
    ensures m.Bucket(h) != m.OldBucket() ==> m.Grown().Bucket(h) == m.Bucket(h)
    ensures m.Bucket(h) == m.OldBucket() ==> m.Grown().Bucket(h) in {m.OldBucket(), m.max + 1}
    ensures m.Grown().Bucket(h) == m.max + 1 ==> m.Bucket(h) == m.OldBucket()
  {
    var k' := GrownValid(m, k);
    BucketIsMod(m, k, h);
    var p := Pow2(k);
    if m.max == m.high {
      OrMask(k + 1);
      BucketIsMod(m.Grown(), k + 1, h);
      ModMod(h, 2 * p);
      var b := h % (4 * p);
      if b >= 2 * p {
        DivModUnique(b, 2 * p, 1, b - 2 * p);
      } else {
        DivModUnique(b, 2 * p, 0, b);
      }
    } else {
      BucketIsMod(m.Grown(), k, h);
    }
  }

  ghost predicate NoDup(s: seq<nat>) {
    forall i, j :: 0 <= i < j < |s| ==> s[i] != s[j]
  }

  /** Following links from `head` visits exactly `chain` and then stops. */
  ghost predicate Linked<K, V>(pool: Pool<K, V>, head: nat, chain: seq<nat>) {
    && head == At(chain, 0)
    && forall i :: 0 <= i < |chain| ==> LinkAt(pool, chain, i)
  }

  ghost predicate LinkAt<K, V>(pool: Pool<K, V>, chain: seq<nat>, i: nat)
    requires i < |chain|
  {
    chain[i] != 0 && chain[i] in pool && pool[chain[i]].next == At(chain, i + 1)
  }

  ghost predicate AllLinked<K, V>(pool: Pool<K, V>, heads: seq<nat>, chains: seq<seq<nat>>) {
    && |heads| == |chains|
    && forall b :: 0 <= b < |chains| ==> LinkedAt(pool, heads, chains, b)
  }

  ghost predicate LinkedAt<K, V>(pool: Pool<K, V>, heads: seq<nat>, chains: seq<seq<nat>>, b: nat)
    requires b < |heads| && b < |chains|
  {
    Linked(pool, heads[b], chains[b])
  }

  /** The element at `a` is the one the abstract map names for its key. */
  ghost predicate Live<K, V>(pool: Pool<K, V>, contents: map<K, nat>, a: nat) {
    a in pool && pool[a].key in contents && contents[pool[a].key] == a
  }

  /** The quantified facts below are each stated through a named predicate, so
      that a proof uses only the instances it mentions. */
  ghost predicate ChainOk<K, V>(hash: K -> int, m: Masks, pool: Pool<K, V>, contents: map<K, nat>,
                                b: nat, chain: seq<nat>) {
    && NoDup(chain)
    && forall i :: 0 <= i < |chain| ==> ElemOk(hash, m, pool, contents, b, chain, i)
  }

  ghost predicate ChainAt<K, V>(hash: K -> int, m: Masks, pool: Pool<K, V>, chains: seq<seq<nat>>,
                                contents: map<K, nat>, b: nat)
    requires b < |chains|
  {
    ChainOk(hash, m, pool, contents, b, chains[b])
  }

  ghost predicate ElemOk<K, V>(hash: K -> int, m: Masks, pool: Pool<K, V>, contents: map<K, nat>,
                               b: nat, chain: seq<nat>, i: nat)
    requires i < |chain|
  {
    Live(pool, contents, chain[i]) && m.Bucket(hash(pool[chain[i]].key)) == b
  }

  /** A mapped key is found in the chain it hashes to. */
  ghost predicate KeyOk<K, V>(hash: K -> int, m: Masks, pool: Pool<K, V>, chains: seq<seq<nat>>,
                              contents: map<K, nat>, k: K) {
    k in contents ==>
      && contents[k] in pool && pool[contents[k]].key == k
      && m.Bucket(hash(k)) < |chains| && contents[k] in chains[m.Bucket(hash(k))]
  }

  /** Every chain holds live elements hashed to it, and every mapped key is in
      the chain it hashes to. */
  ghost predicate Placed<K(!new), V>(hash: K -> int, m: Masks, pool: Pool<K, V>,
                                     chains: seq<seq<nat>>, contents: map<K, nat>) {
    && |chains| == m.max + 1
    && (forall b :: 0 <= b < |chains| ==> ChainAt(hash, m, pool, chains, contents, b))
    && (forall k :: KeyOk(hash, m, pool, chains, contents, k))
  }

  /** The free list is linked, repeats nothing, and holds exactly the elements
      that are not live; counted together they make up the pool. */
  ghost predicate FreeOk<K, V>(pool: Pool<K, V>, contents: map<K, nat>, head: nat, free: seq<nat>) {
    && Linked(pool, head, free)
    && NoDup(free)
    && (forall a :: FreeIff(pool, contents, free, a))
    && |pool| == |contents| + |free|
  }

  ghost predicate FreeIff<K, V>(pool: Pool<K, V>, contents: map<K, nat>, free: seq<nat>, a: nat) {
    a in free <==> a in pool && !Live(pool, contents, a)
  }

  /** Keys and user data of every element already in the pool are untouched. */
  ghost predicate SamePayload<K, V>(p: Pool<K, V>, q: Pool<K, V>) {
    forall a :: KeepsPayload(p, q, a)
  }

  ghost predicate KeepsPayload<K, V>(p: Pool<K, V>, q: Pool<K, V>, a: nat) {
    a in p ==> a in q && q[a].key == p[a].key && q[a].data == p[a].data
  }

  lemma LinkedFrame<K, V>(p: Pool<K, V>, q: Pool<K, V>, head: nat, chain: seq<nat>)
    requires Linked(p, head, chain) && p.Keys <= q.Keys
    requires forall a :: a in chain && a in p ==> q[a].next == p[a].next
    ensures Linked(q, head, chain)
  {
    forall i | 0 <= i < |chain|
      ensures LinkAt(q, chain, i)
    {
      assert LinkAt(p, chain, i);
      assert chain[i] in chain;
    }
  }

  // ---------- entering a key ----------

  /** The pool after the first free element is taken for `key` and appended
      behind `prev` (or behind the bucket header when `prev` is 0). */
  function Appended<K, V>(pool: Pool<K, V>, prev: nat, a: nat, key: K): Pool<K, V>
    requires a in pool && (prev != 0 ==> prev in pool)
  {
    var q := if prev == 0 then pool else pool[prev := pool[prev].(next := a)];
    q[a := q[a].(key := key, next := 0)]
  }

  lemma AppendLinked<K, V>(pool: Pool<K, V>, head: nat, c: seq<nat>, a: nat, key: K)
    requires Linked(pool, head, c) && NoDup(c) && a in pool && a != 0 && a !in c
    ensures var prev := At(c, |c| - 1);
            (prev != 0 ==> prev in pool) &&
            Linked(Appended(pool, prev, a, key), if prev == 0 then a else head, c + [a])
  {
    var prev := At(c, |c| - 1);
    if c != [] {
      assert LinkAt(pool, c, |c| - 1);
    }
    var q := Appended(pool, prev, a, key);
    forall i | 0 <= i < |c + [a]|
      ensures LinkAt(q, c + [a], i)
    {
      if i < |c| {
        assert LinkAt(pool, c, i);
        assert c[i] in c;
      }
    }
  }

  /** Chains of distinct buckets share no element. */
  lemma ChainsDisjoint<K(!new), V>(hash: K -> int, m: Masks, pool: Pool<K, V>, chains: seq<seq<nat>>,
                             contents: map<K, nat>, b: nat, b': nat, a: nat)
    requires Placed(hash, m, pool, chains, contents) && b < |chains| && b' < |chains| && b != b'
    requires a in chains[b]
    ensures a !in chains[b']
  {
    assert ChainAt(hash, m, pool, chains, contents, b) && ChainAt(hash, m, pool, chains, contents, b');
    var i :| 0 <= i < |chains[b]| && chains[b][i] == a;
    assert ElemOk(hash, m, pool, contents, b, chains[b], i);
    forall j | 0 <= j < |chains[b']|
      ensures chains[b'][j] != a
    {
      assert ElemOk(hash, m, pool, contents, b', chains[b'], j);
    }
  }

  /** A chained element is live. */
  lemma ChainedLive<K, V>(hash: K -> int, m: Masks, pool: Pool<K, V>, contents: map<K, nat>,
                          b: nat, chain: seq<nat>, a: nat)
    requires ChainOk(hash, m, pool, contents, b, chain) && a in chain
    ensures Live(pool, contents, a) && m.Bucket(hash(pool[a].key)) == b
  {
    var i :| 0 <= i < |chain| && chain[i] == a;
    assert ElemOk(hash, m, pool, contents, b, chain, i);
  }

  lemma EnterKeepsChains<K(!new), V>(hash: K -> int, m: Masks, pool: Pool<K, V>, heads: seq<nat>,
                               chains: seq<seq<nat>>, contents: map<K, nat>, a: nat, key: K)
    requires AllLinked(pool, heads, chains) && Placed(hash, m, pool, chains, contents)
    requires a in pool && a != 0 && !Live(pool, contents, a)
    requires m.Bucket(hash(key)) < |chains|
    ensures
      var b := m.Bucket(hash(key));
      var prev := At(chains[b], |chains[b]| - 1);
      (prev != 0 ==> Live(pool, contents, prev)) &&
      AllLinked(Appended(pool, prev, a, key), if prev == 0 then heads[b := a] else heads,
                chains[b := chains[b] + [a]])
  {
    var b := m.Bucket(hash(key));
    var c := chains[b];
    var prev := At(c, |c| - 1);
    assert ChainAt(hash, m, pool, chains, contents, b);
    if c != [] {
      assert prev == c[|c| - 1] && prev in c;
      ChainedLive(hash, m, pool, contents, b, c, prev);
    }
    if a in c {
      ChainedLive(hash, m, pool, contents, b, c, a);
    }
    var q := Appended(pool, prev, a, key);
    var heads', chains' := if prev == 0 then heads[b := a] else heads, chains[b := c + [a]];
    forall b' | 0 <= b' < |chains'|
      ensures LinkedAt(q, heads', chains', b')
    {
      assert LinkedAt(pool, heads, chains, b');
      if b' == b {
        AppendLinked(pool, heads[b], c, a, key);
      } else {
        assert ChainAt(hash, m, pool, chains, contents, b');
        if a in chains[b'] {
          ChainedLive(hash, m, pool, contents, b', chains[b'], a);
        }
        if c != [] {
          ChainsDisjoint(hash, m, pool, chains, contents, b, b', prev);
        }
        LinkedFrame(pool, q, heads[b'], chains[b']);
      }
    }
  }

  lemma EnterKeepsPlacement<K(!new), V>(hash: K -> int, m: Masks, pool: Pool<K, V>, chains: seq<seq<nat>>,
                                  contents: map<K, nat>, q: Pool<K, V>, a: nat, key: K)
    requires Placed(hash, m, pool, chains, contents) && key !in contents && m.Bucket(hash(key)) < |chains|
    requires a in pool && !Live(pool, contents, a) && q.Keys == pool.Keys && q[a].key == key
    requires forall x :: x in pool && x != a ==> q[x].key == pool[x].key
    ensures var b := m.Bucket(hash(key));
            Placed(hash, m, q, chains[b := chains[b] + [a]], contents[key := a])
    ensures forall x :: x in pool ==> (Live(q, contents[key := a], x) <==> Live(pool, contents, x) || x == a)
  {
    var b := m.Bucket(hash(key));
    var contents' := contents[key := a];
    var chains' := chains[b := chains[b] + [a]];
    forall b' | 0 <= b' < |chains'|
      ensures ChainAt(hash, m, q, chains', contents', b')
    {
      assert ChainAt(hash, m, pool, chains, contents, b');
      if a in chains[b'] {
        ChainedLive(hash, m, pool, contents, b', chains[b'], a);
      }
      forall i | 0 <= i < |chains'[b']|
        ensures ElemOk(hash, m, q, contents', b', chains'[b'], i)
      {
        if i < |chains[b']| {
          assert ElemOk(hash, m, pool, contents, b', chains[b'], i);
          assert chains[b'][i] in chains[b'];
        }
      }
    }
    forall k
      ensures KeyOk(hash, m, q, chains', contents', k)
    {
      assert KeyOk(hash, m, pool, chains, contents, k);
      assert chains'[b][|chains[b]|] == a;
      if k in contents {
        assert contents[k] != a;
        EnterKeepsMember(chains[m.Bucket(hash(k))], a, contents[k]);
      }
    }
  }

  lemma EnterKeepsMember(c: seq<nat>, a: nat, x: nat)
    requires x in c
    ensures x in c + [a]
  {
  }

  lemma TailLinked<K, V>(pool: Pool<K, V>, head: nat, s: seq<nat>)
    requires Linked(pool, head, s) && NoDup(s) && s != []
    ensures s[0] in pool
    ensures Linked(pool, pool[s[0]].next, s[1..]) && NoDup(s[1..])
    ensures forall x :: x in s[1..] <==> x in s && x != s[0]
  {
    assert LinkAt(pool, s, 0);
    forall i | 0 <= i < |s[1..]|
      ensures LinkAt(pool, s[1..], i)
    {
      assert LinkAt(pool, s, i + 1);
    }
    forall x | x in s && x != s[0]
      ensures x in s[1..]
    {
      assert s == [s[0]] + s[1..];
    }
  }

  lemma EnterKeepsFree<K, V>(pool: Pool<K, V>, contents: map<K, nat>, head: nat, free: seq<nat>,
                             q: Pool<K, V>, contents': map<K, nat>)
    requires FreeOk(pool, contents, head, free) && free != []
    requires q.Keys == pool.Keys && |contents'| == |contents| + 1
    requires forall x :: x in free[1..] && x in pool ==> q[x].next == pool[x].next
    requires forall x :: x in pool ==> (Live(q, contents', x) <==> Live(pool, contents, x) || x == free[0])
    ensures free[0] in pool
    ensures FreeOk(q, contents', pool[free[0]].next, free[1..])
  {
    assert |q| == |q.Keys| == |pool.Keys| == |pool|;
    TailLinked(pool, head, free);
    LinkedFrame(pool, q, pool[free[0]].next, free[1..]);
    forall x
      ensures FreeIff(q, contents', free[1..], x)
    {
      assert FreeIff(pool, contents, free, x);
    }
  }

  // ---------- removing a key ----------

  /** The pool after the element at position `i` of a chain is unlinked and put
      at the head of the free list. */
  function Unlinked<K, V>(pool: Pool<K, V>, prev: nat, a: nat, freeHead: nat): Pool<K, V>
    requires a in pool && (prev != 0 ==> prev in pool)
  {
    var q := if prev == 0 then pool else pool[prev := pool[prev].(next := pool[a].next)];
    q[a := q[a].(next := freeHead)]
  }

  lemma UnlinkLinked<K, V>(pool: Pool<K, V>, head: nat, c: seq<nat>, i: nat, freeHead: nat)
    requires Linked(pool, head, c) && NoDup(c) && i < |c|
    ensures var a, prev := c[i], At(c, i - 1);
            a in pool && (prev != 0 ==> prev in pool) &&
            Linked(Unlinked(pool, prev, a, freeHead), if prev == 0 then pool[a].next else head, Without(c, i))
  {
    var a, prev, d := c[i], At(c, i - 1), Without(c, i);
    assert LinkAt(pool, c, i);
    if i > 0 {
      assert LinkAt(pool, c, i - 1);
    }
    var q := Unlinked(pool, prev, a, freeHead);
    assert At(d, 0) == if i == 0 then At(c, 1) else At(c, 0);
    forall j | 0 <= j < |d|
      ensures LinkAt(q, d, j)
    {
      assert LinkAt(pool, c, if j < i then j else j + 1);
      if j < i {
        assert d[j] == c[j];
        assert j + 1 < i ==> At(d, j + 1) == c[j + 1];
        assert j + 1 == i ==> At(d, j + 1) == At(c, i + 1);
      } else {
        assert d[j] == c[j + 1];
        assert At(d, j + 1) == At(c, j + 2);
      }
    }
  }

  lemma RemoveKeepsChains<K(!new), V>(hash: K -> int, m: Masks, pool: Pool<K, V>, heads: seq<nat>,
                                chains: seq<seq<nat>>, contents: map<K, nat>, freeHead: nat, b: nat, i: nat)
    requires AllLinked(pool, heads, chains) && Placed(hash, m, pool, chains, contents)
    requires b < |chains| && i < |chains[b]|
    ensures
      var a, prev := chains[b][i], At(chains[b], i - 1);
      a in pool && a != 0 && (prev != 0 ==> Live(pool, contents, prev) && prev != a) &&
      AllLinked(Unlinked(pool, prev, a, freeHead),
                if prev == 0 then heads[b := pool[a].next] else heads, chains[b := Without(chains[b], i)])
  {
    var c := chains[b];
    var a, prev := c[i], At(c, i - 1);
    assert LinkedAt(pool, heads, chains, b) && LinkAt(pool, c, i) && ChainAt(hash, m, pool, chains, contents, b);
    if i > 0 {
      assert prev == c[i - 1] && prev in c;
      ChainedLive(hash, m, pool, contents, b, c, prev);
    }
    var q := Unlinked(pool, prev, a, freeHead);
    var heads', chains' := if prev == 0 then heads[b := pool[a].next] else heads, chains[b := Without(c, i)];
    forall b' | 0 <= b' < |chains'|
      ensures LinkedAt(q, heads', chains', b')
    {
      assert LinkedAt(pool, heads, chains, b');
      if b' == b {
        UnlinkLinked(pool, heads[b], c, i, freeHead);
      } else {
        ChainsDisjoint(hash, m, pool, chains, contents, b, b', a);
        if i > 0 {
          ChainsDisjoint(hash, m, pool, chains, contents, b, b', prev);
        }
        LinkedFrame(pool, q, heads[b'], chains[b']);
      }
    }
  }

  lemma RemoveKeepsPlacement<K(!new), V>(hash: K -> int, m: Masks, pool: Pool<K, V>, chains: seq<seq<nat>>,
                                   contents: map<K, nat>, q: Pool<K, V>, b: nat, i: nat, key: K)
    requires Placed(hash, m, pool, chains, contents) && b < |chains| && i < |chains[b]|
    requires key in contents && contents[key] == chains[b][i] && m.Bucket(hash(key)) == b
    requires q.Keys == pool.Keys && forall x :: x in pool ==> q[x].key == pool[x].key
    ensures Placed(hash, m, q, chains[b := Without(chains[b], i)], contents - {key})
    ensures forall x :: x in pool ==>
              (Live(q, contents - {key}, x) <==> Live(pool, contents, x) && x != contents[key])
  {
    var c, a := chains[b], contents[key];
    var contents', chains' := contents - {key}, chains[b := Without(c, i)];
    assert KeyOk(hash, m, pool, chains, contents, key);
    forall b' | 0 <= b' < |chains'|
      ensures ChainAt(hash, m, q, chains', contents', b')
    {
      assert ChainAt(hash, m, pool, chains, contents, b');
      assert b' == b ==> NoDup(Without(c, i));
      forall j | 0 <= j < |chains'[b']|
        ensures ElemOk(hash, m, q, contents', b', chains'[b'], j)
      {
        var j' := if b' == b && j >= i then j + 1 else j;
        assert ElemOk(hash, m, pool, contents, b', chains[b'], j');
        assert chains'[b'][j] == chains[b'][j'];
      }
    }
    forall k
      ensures KeyOk(hash, m, q, chains', contents', k)
    {
      assert KeyOk(hash, m, pool, chains, contents, k);
      if k in contents' {
        var b' := m.Bucket(hash(k));
        var j :| 0 <= j < |chains[b']| && chains[b'][j] == contents[k];
        assert chains'[b'][if b' == b && j > i then j - 1 else j] == contents[k];
      }
    }
  }

  lemma RemoveKeepsFree<K, V>(pool: Pool<K, V>, contents: map<K, nat>, head: nat, free: seq<nat>,
                              q: Pool<K, V>, prev: nat, key: K)
    requires FreeOk(pool, contents, head, free) && key in contents && Live(pool, contents, contents[key])
    requires contents[key] != 0 && (prev != 0 ==> Live(pool, contents, prev) && prev != contents[key])
    requires q == Unlinked(pool, prev, contents[key], head)
    requires forall x :: x in pool ==>
               (Live(q, contents - {key}, x) <==> Live(pool, contents, x) && x != contents[key])
    ensures q.Keys == pool.Keys && FreeOk(q, contents - {key}, contents[key], [contents[key]] + free)
  {
    var a := contents[key];
    assert q.Keys == pool.Keys;
    assert |q| == |q.Keys| == |pool.Keys| == |pool|;
    var free' := [a] + free;
    forall i | 0 <= i < |free'|
      ensures LinkAt(q, free', i)
    {
      if i > 0 {
        assert LinkAt(pool, free, i - 1);
        assert free'[i] == free[i - 1] && free[i - 1] in free;
        assert FreeIff(pool, contents, free, free[i - 1]);
      }
    }
    assert (contents - {key}).Keys == contents.Keys - {key};
    assert |contents - {key}| == |(contents - {key}).Keys| == |contents.Keys| - 1;
    assert FreeIff(pool, contents, free, a);
    forall x
      ensures FreeIff(q, contents - {key}, free', x)
    {
      assert FreeIff(pool, contents, free, x);
    }
  }

  // ---------- splitting a bucket ----------

  /** The elements of `s` that belong to `keep`, in order. */
  function Sel(s: seq<nat>, keep: set<nat>): seq<nat> {
    if s == [] then []
    else
      var n := |s| - 1;
      Sel(s[..n], keep) + if s[n] in keep then [s[n]] else []
  }

  lemma SelStep(s: seq<nat>, i: nat, keep: set<nat>)
    requires i < |s|
    ensures Sel(s[..i + 1], keep) == Sel(s[..i], keep) + if s[i] in keep then [s[i]] else []
  {
    assert s[..i + 1][..i] == s[..i];
  }

  lemma {:induction false} SelMembers(s: seq<nat>, keep: set<nat>)
    ensures forall a :: a in Sel(s, keep) <==> a in s && a in keep
  {
    if s != [] {
      var n := |s| - 1;
      SelMembers(s[..n], keep);
      assert s == s[..n] + [s[n]];
    }
  }

  lemma {:induction false} SelNoDup(s: seq<nat>, keep: set<nat>)
    requires NoDup(s)
    ensures NoDup(Sel(s, keep))
  {
    if s != [] {
      var n := |s| - 1;
      SelNoDup(s[..n], keep);
      SelMembers(s[..n], keep);
      var r := Sel(s[..n], keep);
      forall i | 0 <= i < |r|
        ensures r[i] != s[n]
      {
        assert r[i] in r;
        var j :| 0 <= j < n && s[..n][j] == r[i];
        assert s[j] == r[i];
      }
    }
  }

  /** A chain under construction: linked up to its last element, whose own link
      is still to be written. */
  ghost predicate OpenEnded<K, V>(pool: Pool<K, V>, head: nat, s: seq<nat>) {
    && (s != [] ==> head == s[0])
    && (forall j :: 0 <= j < |s| ==> s[j] != 0 && s[j] in pool)
    && (forall j :: 0 <= j < |s| - 1 ==> LinkAt(pool, s, j))
  }

  /** How far the relinking loop has come after `i` elements of chain `c`: the
      two chains rebuilt so far, and the rest of `c` still linked as it was. */
  ghost predicate Relinked<K, V>(q: Pool<K, V>, c: seq<nat>, i: nat, s: seq<nat>, sHead: nat, g: seq<nat>, gHead: nat)
    requires i <= |c|
  {
    && OpenEnded(q, sHead, s) && OpenEnded(q, gHead, g) && NoDup(s) && NoDup(g)
    && (forall a :: Apart(s, g, a))
    && (forall j :: i <= j < |c| ==> Untouched(q, c, s, g, j))
  }

  ghost predicate Apart(s: seq<nat>, g: seq<nat>, a: nat) {
    !(a in s && a in g)
  }

  ghost predicate Untouched<K, V>(q: Pool<K, V>, c: seq<nat>, s: seq<nat>, g: seq<nat>, j: nat)
    requires j < |c|
  {
    LinkAt(q, c, j) && c[j] !in s && c[j] !in g
  }

  lemma RelinkStep<K, V>(q: Pool<K, V>, c: seq<nat>, i: nat, s: seq<nat>, sHead: nat, g: seq<nat>, gHead: nat)
    requires i < |c| && NoDup(c) && Relinked(q, c, i, s, sHead, g, gHead)
    ensures var last := At(s, |s| - 1);
            (last != 0 ==> last in q) &&
            Relinked(PoolWith(q, last, c[i]), c, i + 1, s + [c[i]], if last == 0 then c[i] else sHead, g, gHead)
  {
    assert Untouched(q, c, s, g, i);
    OpenEndedAppend(q, sHead, s, c[i]);
    var last := At(s, |s| - 1);
    var q' := PoolWith(q, last, c[i]);
    assert s != [] ==> last == s[|s| - 1] && last in s;
    assert Apart(s, g, last);
    OpenEndedFrame(q, q', gHead, g);
    forall a
      ensures Apart(s + [c[i]], g, a)
    {
      assert Apart(s, g, a);
    }
    forall j | i + 1 <= j < |c|
      ensures Untouched(q', c, s + [c[i]], g, j)
    {
      assert Untouched(q, c, s, g, j);
    }
  }

  lemma RelinkedSwap<K, V>(q: Pool<K, V>, c: seq<nat>, i: nat, s: seq<nat>, sHead: nat, g: seq<nat>, gHead: nat)
    requires i <= |c| && Relinked(q, c, i, s, sHead, g, gHead)
    ensures Relinked(q, c, i, g, gHead, s, sHead)
  {
    forall a
      ensures Apart(g, s, a)
    {
      assert Apart(s, g, a);
    }
    forall j | i <= j < |c|
      ensures Untouched(q, c, g, s, j)
    {
      assert Untouched(q, c, s, g, j);
    }
  }

  /** Terminating both rebuilt chains. */
  lemma RelinkClose<K, V>(q: Pool<K, V>, c: seq<nat>, s: seq<nat>, sHead: nat, g: seq<nat>, gHead: nat)
    requires Relinked(q, c, |c|, s, sHead, g, gHead)
    ensures var sLast, gLast := At(s, |s| - 1), At(g, |g| - 1);
            (sLast != 0 ==> sLast in q) && (gLast != 0 ==> gLast in q) &&
            var q' := PoolWith(PoolWith(q, sLast, 0), gLast, 0);
            Linked(q', if sLast == 0 then 0 else sHead, s) && Linked(q', if gLast == 0 then 0 else gHead, g)
  {
    var sLast, gLast := At(s, |s| - 1), At(g, |g| - 1);
    OpenEndedClose(q, sHead, s);
    var q1 := PoolWith(q, sLast, 0);
    assert s != [] ==> sLast == s[|s| - 1] && sLast in s;
    assert g != [] ==> gLast == g[|g| - 1] && gLast in g;
    assert Apart(s, g, sLast) && Apart(s, g, gLast);
    OpenEndedFrame(q, q1, gHead, g);
    OpenEndedClose(q1, gHead, g);
    LinkedFrame(q1, PoolWith(q1, gLast, 0), if sLast == 0 then 0 else sHead, s);
  }

  /** Writing the open end: the last element's link, or the header if empty. */
  function PoolWith<K, V>(pool: Pool<K, V>, last: nat, v: nat): Pool<K, V>
    requires last != 0 ==> last in pool
  {
    if last == 0 then pool else pool[last := pool[last].(next := v)]
  }

  lemma OpenEndedAppend<K, V>(pool: Pool<K, V>, head: nat, s: seq<nat>, a: nat)
    requires OpenEnded(pool, head, s) && a != 0 && a in pool && NoDup(s)
    ensures var last := At(s, |s| - 1);
            (last != 0 ==> last in pool) &&
            OpenEnded(PoolWith(pool, last, a), if last == 0 then a else head, s + [a])
  {
    var q := PoolWith(pool, At(s, |s| - 1), a);
    forall j | 0 <= j < |s|
      ensures LinkAt(q, s + [a], j)
    {
      assert j < |s| - 1 ==> LinkAt(pool, s, j);
    }
  }

  lemma OpenEndedFrame<K, V>(p: Pool<K, V>, q: Pool<K, V>, head: nat, s: seq<nat>)
    requires OpenEnded(p, head, s) && p.Keys <= q.Keys
    requires forall a :: a in s && a in p ==> q[a].next == p[a].next
    ensures OpenEnded(q, head, s)
  {
    forall j | 0 <= j < |s| - 1
      ensures LinkAt(q, s, j)
    {
      assert LinkAt(p, s, j);
      assert s[j] in s;
    }
  }

  lemma OpenEndedClose<K, V>(pool: Pool<K, V>, head: nat, s: seq<nat>)
    requires OpenEnded(pool, head, s) && NoDup(s)
    ensures var last := At(s, |s| - 1);
            (last != 0 ==> last in pool) &&
            Linked(PoolWith(pool, last, 0), if last == 0 then 0 else head, s)
  {
    var q := PoolWith(pool, At(s, |s| - 1), 0);
    forall j | 0 <= j < |s|
      ensures LinkAt(q, s, j)
    {
      assert j < |s| - 1 ==> LinkAt(pool, s, j);
    }
  }

  lemma SplitChainOk<K, V>(hash: K -> int, m: Masks, pool: Pool<K, V>, q: Pool<K, V>, c: seq<nat>,
                           contents: map<K, nat>, keep: set<nat>, b: nat)
    requires ChainOk(hash, m, pool, contents, m.OldBucket(), c)
    requires q.Keys == pool.Keys && forall x :: x in pool ==> q[x].key == pool[x].key
    requires forall a :: a in c && a in keep ==> a in pool && m.Grown().Bucket(hash(pool[a].key)) == b
    ensures ChainOk(hash, m.Grown(), q, contents, b, Sel(c, keep))
  {
    SelMembers(c, keep);
    SelNoDup(c, keep);
    var d := Sel(c, keep);
    forall i | 0 <= i < |d|
      ensures ElemOk(hash, m.Grown(), q, contents, b, d, i)
    {
      assert d[i] in d && d[i] in c;
      ChainedLive(hash, m, pool, contents, m.OldBucket(), c, d[i]);
    }
  }

  lemma OtherChainOk<K, V>(hash: K -> int, m: Masks, k: nat, pool: Pool<K, V>, q: Pool<K, V>,
                           contents: map<K, nat>, b: nat, c: seq<nat>)
    requires m.Valid(k) && ChainOk(hash, m, pool, contents, b, c) && b != m.OldBucket()
    requires q.Keys == pool.Keys && forall x :: x in pool ==> q[x].key == pool[x].key
    ensures ChainOk(hash, m.Grown(), q, contents, b, c)
  {
    forall i | 0 <= i < |c|
      ensures ElemOk(hash, m.Grown(), q, contents, b, c, i)
    {
      assert ElemOk(hash, m, pool, contents, b, c, i);
      SplitMovesOneBucket(m, k, hash(pool[c[i]].key));
    }
  }

  /** After the split every key is in the chain its new bucket names. */
  lemma SplitKeepsPlacement<K(!new), V>(hash: K -> int, m: Masks, k: nat, pool: Pool<K, V>, q: Pool<K, V>,
                                  chains: seq<seq<nat>>, contents: map<K, nat>, stay: set<nat>, go: set<nat>)
    requires m.Valid(k) && Placed(hash, m, pool, chains, contents) && m.OldBucket() < |chains|
    requires q.Keys == pool.Keys && forall x :: x in pool ==> q[x].key == pool[x].key
    requires forall a :: a in chains[m.OldBucket()] ==>
               && a in pool
               && (a in stay <==> m.Grown().Bucket(hash(pool[a].key)) == m.OldBucket())
               && (a in go <==> a !in stay)
    ensures var c := chains[m.OldBucket()];
            Placed(hash, m.Grown(), q, chains[m.OldBucket() := Sel(c, stay)] + [Sel(c, go)], contents)
  {
    var o := m.OldBucket();
    var c := chains[o];
    var m' := m.Grown();
    var chains' := chains[o := Sel(c, stay)] + [Sel(c, go)];
    assert ChainAt(hash, m, pool, chains, contents, o);
    forall a | a in c && a in go
      ensures m'.Bucket(hash(pool[a].key)) == m.max + 1
    {
      ChainedLive(hash, m, pool, contents, o, c, a);
      SplitMovesOneBucket(m, k, hash(pool[a].key));
    }
    SplitChainOk(hash, m, pool, q, c, contents, stay, o);
    SplitChainOk(hash, m, pool, q, c, contents, go, m.max + 1);
    forall b | 0 <= b < |chains'|
      ensures ChainAt(hash, m', q, chains', contents, b)
    {
      if b != o && b != |chains| {
        assert ChainAt(hash, m, pool, chains, contents, b);
        OtherChainOk(hash, m, k, pool, q, contents, b, chains[b]);
      }
    }
    SelMembers(c, stay);
    SelMembers(c, go);
    forall key
      ensures KeyOk(hash, m', q, chains', contents, key)
    {
      assert KeyOk(hash, m, pool, chains, contents, key);
      SplitMovesOneBucket(m, k, hash(key));
    }
  }

  lemma SplitKeepsChains<K(!new), V>(hash: K -> int, m: Masks, pool: Pool<K, V>, q: Pool<K, V>, heads: seq<nat>,
                                     chains: seq<seq<nat>>, contents: map<K, nat>, o: nat,
                                     s: seq<nat>, sHead: nat, g: seq<nat>, gHead: nat)
    requires AllLinked(pool, heads, chains) && Placed(hash, m, pool, chains, contents) && o < |chains|
    requires pool.Keys <= q.Keys && forall a :: a in pool && a !in chains[o] ==> q[a] == pool[a]
    requires Linked(q, sHead, s) && Linked(q, gHead, g)
    ensures AllLinked(q, heads[o := sHead] + [gHead], chains[o := s] + [g])
  {
    var heads', chains' := heads[o := sHead] + [gHead], chains[o := s] + [g];
    forall b | 0 <= b < |chains'|
      ensures LinkedAt(q, heads', chains', b)
    {
      if b != o && b < |chains| {
        assert LinkedAt(pool, heads, chains, b);
        forall a | a in chains[b]
          ensures a !in chains[o]
        {
          ChainsDisjoint(hash, m, pool, chains, contents, b, o, a);
        }
        LinkedFrame(pool, q, heads[b], chains[b]);
      }
    }
  }

  lemma SplitKeepsFree<K, V>(pool: Pool<K, V>, q: Pool<K, V>, contents: map<K, nat>, head: nat, free: seq<nat>)
    requires FreeOk(pool, contents, head, free) && q.Keys == pool.Keys
    requires forall a :: a in pool ==> q[a].key == pool[a].key
    requires forall a :: a in free && a in pool ==> q[a].next == pool[a].next
    ensures FreeOk(q, contents, head, free)
  {
    assert |q| == |q.Keys| == |pool.Keys| == |pool|;
    LinkedFrame(pool, q, head, free);
    forall a
      ensures FreeIff(q, contents, free, a)
    {
      assert FreeIff(pool, contents, free, a);
    }
  }
}
