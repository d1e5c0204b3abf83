/** Chunk headers and data, the power-of-two size classes, and the free lists
    threaded through the headers of free chunks. */
module AsetChunks {
  import opened Bits
  import opened AsetGeometry
  import opened Lists
  import opened Storage

  const NUM_FREELISTS: nat := 10
  const MARK: nat := 0x7E
  const WIPED: nat := 0x7F

  /** The first header word: the owning set, or the next chunk of a free list. */
  datatype Link = Owner | Free(next: nat)

  datatype Chunk = Chunk(link: Link, size: nat, requested: nat, data: seq<nat>)

  // ---------- size classes ----------

  /** The least `k` with `size <= 16 << k`. */
  function Index(size: nat): (k: nat) {
    if size <= 16 then 0 else 1 + Index((size + 1) / 2)
  }

  function ClassBytes(k: nat): (s: nat)
    ensures s >= 16 && s % MAX_ALIGNMENT == 0
  {
    16 * Pow2(k)
  }

  predicate IsClass(s: nat) {
    Index(s) < NUM_FREELISTS && s == ClassBytes(Index(s))
  }

  /** `Index` is the least class that holds the request. */
  lemma {:induction false} IndexLeast(size: nat)
    ensures size <= ClassBytes(Index(size))
    ensures Index(size) > 0 ==> ClassBytes(Index(size) - 1) < size
  {
    if size > 16 {
      IndexLeast((size + 1) / 2);
    }
  }

  lemma {:induction false} IndexOfClass(k: nat)
    ensures Index(ClassBytes(k)) == k
  {
    if k > 0 {
      IndexOfClass(k - 1);
      assert (ClassBytes(k) + 1) / 2 == ClassBytes(k - 1);
    }
  }

  lemma {:induction false} IndexMonotone(a: nat, b: nat)
    requires a <= b
    ensures Index(a) <= Index(b)
    decreases b
  {
    if a > 16 {
      IndexMonotone((a + 1) / 2, (b + 1) / 2);
    }
  }

  /** Requests up to the limit have a free list; the largest class is the limit. */
  lemma IndexInRange(size: nat)
    requires size <= CHUNK_LIMIT
    ensures Index(size) < NUM_FREELISTS
    ensures IsClass(ClassBytes(Index(size))) && ClassBytes(Index(size)) <= CHUNK_LIMIT
  {
    ClassLimit();
    IndexOfClass(9);
    IndexMonotone(size, CHUNK_LIMIT);
    IndexOfClass(Index(size));
    Pow2Monotone(Index(size), 9);
  }

  lemma ClassLimit()
    ensures ClassBytes(9) == CHUNK_LIMIT
  {
    assert Pow2(4) == 16;
    assert Pow2(8) == 256;
    assert Pow2(9) == 512;
  }

  /** Every class is at most the limit. */
  lemma ClassAtMost(s: nat)
    requires IsClass(s)
    ensures 16 <= s <= CHUNK_LIMIT
  {
    ClassLimit();
    Pow2Monotone(Index(s), 9);
  }

  /** alloc_set_free_index: shifts the request down until nothing is left. */
  method FreeIndex(size: nat) returns (idx: nat)
    ensures idx == Index(size)
    ensures size <= CHUNK_LIMIT ==> idx < NUM_FREELISTS
  {
    idx := 0;
    if size > 0 {
      var rest := (size - 1) / 16;
      ghost var left := size;
      HalvesFacts(size);
      while rest != 0
        invariant left > 0 && rest == (left - 1) / 16
        invariant Index(size) == idx + Index(left)
      {
        HalvesFacts(left);
        left := (left + 1) / 2;
        idx := idx + 1;
        rest := rest / 2;
      }
    }
    if size <= CHUNK_LIMIT {
      IndexInRange(size);
    }
  }

  /** Halving the request, rounded up, is shifting its predecessor. */
  lemma HalvesFacts(n: nat)
    requires n > 0
    ensures (n - 1) / 16 / 2 == ((n + 1) / 2 - 1) / 16
    ensures (n - 1) / 16 == 0 <==> n <= 16
  {
  }

  // ---------- chunks ----------

  ghost function Sizes(chunks: map<nat, Chunk>): map<nat, nat> {
    map c | c in chunks :: chunks[c].size
  }

  /** What the client may see of a chunk: the bytes it asked for. */
  function Visible(k: Chunk): seq<nat> {
    if k.requested <= |k.data| then k.data[..k.requested] else k.data
  }

  /** The chunks in use. */
  ghost function LiveOf(chunks: map<nat, Chunk>): map<nat, Chunk> {
    map c | c in chunks && chunks[c].link.Owner? :: chunks[c]
  }

  /** The sentinel stands just behind the request whenever there is room. */
  predicate Marked(k: Chunk) {
    && k.requested <= k.size == |k.data|
    && (k.requested < k.size ==> k.data[k.requested] == MARK)
  }

  predicate ChunkOk(k: Chunk) {
    && |k.data| == k.size
    && k.size >= 16 && k.size % MAX_ALIGNMENT == 0
    && (k.size <= CHUNK_LIMIT ==> IsClass(k.size))
    && (k.link.Owner? ==> Marked(k))
    && (k.link.Free? ==> k.requested == 0 && IsClass(k.size))
  }

  ghost predicate ChunkAt(chunks: map<nat, Chunk>, c: nat) {
    c in chunks ==> ChunkOk(chunks[c])
  }

  // ---------- free lists ----------

  ghost predicate ThreadAt(chunks: map<nat, Chunk>, list: seq<nat>, i: nat)
    requires i < |list|
  {
    list[i] != 0 && list[i] in chunks && chunks[list[i]].link == Free(At(list, i + 1))
  }

  ghost predicate Threaded(chunks: map<nat, Chunk>, first: nat, list: seq<nat>) {
    && first == At(list, 0)
    && (forall i :: 0 <= i < |list| ==> ThreadAt(chunks, list, i))
    && (forall i, j :: 0 <= i < j < |list| ==> list[i] != list[j])
  }

  /** List `k` holds exactly the free chunks of class `k`. */
  ghost predicate HoldsClass(chunks: map<nat, Chunk>, lists: seq<seq<nat>>, k: nat, c: nat)
    requires k < |lists|
  {
    c in lists[k] <==> c in chunks && chunks[c].link.Free? && Index(chunks[c].size) == k
  }

  ghost predicate ListOk(chunks: map<nat, Chunk>, freelist: seq<nat>, lists: seq<seq<nat>>, k: nat)
    requires k < |lists| == |freelist|
  {
    && Threaded(chunks, freelist[k], lists[k])
    && forall c :: HoldsClass(chunks, lists, k, c)
  }

  ghost predicate FreeOk(chunks: map<nat, Chunk>, freelist: seq<nat>, lists: seq<seq<nat>>) {
    && |freelist| == |lists| == NUM_FREELISTS
    && forall k :: 0 <= k < NUM_FREELISTS ==> ListOk(chunks, freelist, lists, k)
  }

  /** Two states of the chunks agree on every free chunk but `c`. */
  ghost predicate SameFree(chunks: map<nat, Chunk>, chunks': map<nat, Chunk>, d: nat) {
    && (d in chunks && chunks[d].link.Free? ==> d in chunks' && chunks'[d] == chunks[d])
    && (d in chunks' && chunks'[d].link.Free? ==> d in chunks && chunks'[d] == chunks[d])
  }

  /** Free lists do not depend on the chunks in use. */
  lemma KeepLists(chunks: map<nat, Chunk>, chunks': map<nat, Chunk>, freelist: seq<nat>, lists: seq<seq<nat>>)
    requires FreeOk(chunks, freelist, lists)
    requires forall d :: SameFree(chunks, chunks', d)
    ensures FreeOk(chunks', freelist, lists)
  {
    forall k | 0 <= k < NUM_FREELISTS
      ensures ListOk(chunks', freelist, lists, k)
    {
      assert ListOk(chunks, freelist, lists, k);
      var list := lists[k];
      forall i | 0 <= i < |list|
        ensures ThreadAt(chunks', list, i)
      {
        assert ThreadAt(chunks, list, i) && SameFree(chunks, chunks', list[i]);
      }
      forall d
        ensures HoldsClass(chunks', lists, k, d)
      {
        assert HoldsClass(chunks, lists, k, d) && SameFree(chunks, chunks', d);
      }
    }
  }

  /** Chunk `c`, in use or new, becomes the first of the free list of its class. */
  lemma PushFree(chunks: map<nat, Chunk>, freelist: seq<nat>, lists: seq<seq<nat>>, c: nat, k: nat, s: nat,
                 data: seq<nat>)
    requires FreeOk(chunks, freelist, lists) && c != 0 && k == Index(s) < NUM_FREELISTS
    requires c in chunks ==> chunks[c].link.Owner?
    ensures FreeOk(chunks[c := Chunk(Free(freelist[k]), s, 0, data)], freelist[k := c], lists[k := [c] + lists[k]])
  {
    var chunks' := chunks[c := Chunk(Free(freelist[k]), s, 0, data)];
    var freelist', lists' := freelist[k := c], lists[k := [c] + lists[k]];
    forall m | 0 <= m < NUM_FREELISTS
      ensures ListOk(chunks', freelist', lists', m)
    {
      assert ListOk(chunks, freelist, lists, m);
      assert HoldsClass(chunks, lists, m, c);
      var list, list' := lists[m], lists'[m];
      forall i | 0 <= i < |list'|
        ensures ThreadAt(chunks', list', i)
      {
        if m == k {
          if i > 0 {
            assert ThreadAt(chunks, list, i - 1) && list'[i] == list[i - 1];
          }
        } else {
          assert ThreadAt(chunks, list, i);
        }
      }
      forall d
        ensures HoldsClass(chunks', lists', m, d)
      {
        assert HoldsClass(chunks, lists, m, d);
      }
    }
  }

  /** Relinks the list around chunk `c`, whose predecessor is `prior` (0: none). */
  function Unlinked(chunks: map<nat, Chunk>, prior: nat, c: nat, taken: Chunk): map<nat, Chunk>
    requires c in chunks
  {
    if prior == 0 || prior !in chunks then chunks[c := taken]
    else chunks[prior := chunks[prior].(link := chunks[c].link)][c := taken]
  }

  /** Item `i` of free list `k` is taken into use. */
  lemma PopFree(chunks: map<nat, Chunk>, freelist: seq<nat>, lists: seq<seq<nat>>, k: nat, i: nat, taken: Chunk)
    requires FreeOk(chunks, freelist, lists) && k < NUM_FREELISTS && i < |lists[k]|
    requires taken.link.Owner?
    ensures lists[k][i] in chunks
    ensures FreeOk(Unlinked(chunks, At(lists[k], i - 1), lists[k][i], taken),
                   if i == 0 then freelist[k := At(lists[k], 1)] else freelist,
                   lists[k := lists[k][..i] + lists[k][i + 1..]])
  {
    var list := lists[k];
    var c, prior := list[i], At(list, i - 1);
    assert ListOk(chunks, freelist, lists, k);
    assert ThreadAt(chunks, list, i);
    assert HoldsClass(chunks, lists, k, c);
    if i > 0 {
      assert ThreadAt(chunks, list, i - 1);
      assert HoldsClass(chunks, lists, k, prior);
    }
    var chunks' := Unlinked(chunks, prior, c, taken);
    var list' := list[..i] + list[i + 1..];
    var freelist', lists' := if i == 0 then freelist[k := At(list, 1)] else freelist, lists[k := list'];
    forall m | 0 <= m < NUM_FREELISTS
      ensures ListOk(chunks', freelist', lists', m)
    {
      assert ListOk(chunks, freelist, lists, m);
      if m == k {
        PopHere(chunks, lists, k, i, taken);
      } else {
        PopElsewhere(chunks, freelist, lists, k, i, taken, m, list');
      }
    }
  }

  lemma PopHere(chunks: map<nat, Chunk>, lists: seq<seq<nat>>, k: nat, i: nat, taken: Chunk)
    requires k < |lists| && i < |lists[k]| && taken.link.Owner?
    requires Threaded(chunks, At(lists[k], 0), lists[k]) && forall c :: HoldsClass(chunks, lists, k, c)
    ensures lists[k][i] in chunks
    ensures var list' := lists[k][..i] + lists[k][i + 1..];
            var chunks', lists' := Unlinked(chunks, At(lists[k], i - 1), lists[k][i], taken), lists[k := list'];
            Threaded(chunks', At(list', 0), list') && forall c :: HoldsClass(chunks', lists', k, c)
  {
    var list := lists[k];
    var c, prior := list[i], At(list, i - 1);
    assert ThreadAt(chunks, list, i);
    if i > 0 {
      assert ThreadAt(chunks, list, i - 1);
      assert list[i - 1] != list[i];
    }
    var chunks' := Unlinked(chunks, prior, c, taken);
    var list' := list[..i] + list[i + 1..];
    forall j | 0 <= j < |list'|
      ensures ThreadAt(chunks', list', j)
    {
      if j < i {
        assert ThreadAt(chunks, list, j) && list'[j] == list[j] != list[i];
        assert j + 1 < i ==> list[j] != list[i - 1];
      } else {
        assert ThreadAt(chunks, list, j + 1) && list'[j] == list[j + 1] != list[i];
        assert i > 0 ==> list[i - 1] != list[j + 1];
      }
    }
    var lists' := lists[k := list'];
    forall d
      ensures HoldsClass(chunks', lists', k, d)
    {
      assert HoldsClass(chunks, lists, k, d) && HoldsClass(chunks, lists, k, prior);
      assert list == list[..i] + [c] + list[i + 1..];
      assert d in list[..i] + list[i + 1..] ==> d != c;
    }
  }

  lemma PopElsewhere(chunks: map<nat, Chunk>, freelist: seq<nat>, lists: seq<seq<nat>>, k: nat, i: nat, taken: Chunk,
                     m: nat, list': seq<nat>)
    requires k < |lists| == |freelist| && i < |lists[k]| && taken.link.Owner? && m < |lists| && m != k
    requires ListOk(chunks, freelist, lists, k) && ListOk(chunks, freelist, lists, m)
    ensures lists[k][i] in chunks
    ensures ListOk(Unlinked(chunks, At(lists[k], i - 1), lists[k][i], taken),
                   if i == 0 then freelist[k := At(lists[k], 1)] else freelist, lists[k := list'], m)
  {
    var c, prior := lists[k][i], At(lists[k], i - 1);
    assert ThreadAt(chunks, lists[k], i);
    if i > 0 {
      assert ThreadAt(chunks, lists[k], i - 1);
    }
    assert HoldsClass(chunks, lists, k, c) && HoldsClass(chunks, lists, m, c);
    assert HoldsClass(chunks, lists, k, prior) && HoldsClass(chunks, lists, m, prior);
    var chunks' := Unlinked(chunks, prior, c, taken);
    var lists' := lists[k := list'];
    var list := lists[m];
    forall j | 0 <= j < |list|
      ensures ThreadAt(chunks', list, j)
    {
      assert ThreadAt(chunks, list, j);
      assert list[j] in list;
    }
    forall d
      ensures HoldsClass(chunks', lists', m, d)
    {
      assert HoldsClass(chunks, lists, m, d);
    }
  }
}
