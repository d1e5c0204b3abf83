/** The state of an allocation set as a value, its invariant, and the steps
    from which allocation, release and reallocation are composed. */
module AsetSteps {
  import opened AsetGeometry
  import opened AsetChunks
  import opened Lists
  import opened Storage

  datatype Set = Set(blocks: map<nat, Block>, head: nat, chunks: map<nat, Chunk>, freelist: seq<nat>, keeper: nat)

  datatype Shadow = Shadow(geo: Geo, lists: seq<seq<nat>>)

  /** Only the keeper, and the block being set up, may be without chunks. */
  ghost predicate Filled(s: Set, tiles: map<nat, seq<nat>>, spare: nat, b: nat) {
    b in s.blocks && b in tiles && tiles[b] == [] ==> b == s.keeper || b == spare
  }

  ghost predicate SmallAt(chunks: map<nat, Chunk>, t: seq<nat>, c: nat) {
    c in t && c in chunks ==> chunks[c].size <= CHUNK_LIMIT
  }

  /** The keeper is never a block made for one large chunk. */
  ghost predicate KeeperOk(s: Set, tiles: map<nat, seq<nat>>) {
    s.keeper != 0 ==>
      && s.keeper in s.blocks && s.keeper in tiles
      && forall c :: SmallAt(s.chunks, tiles[s.keeper], c)
  }

  ghost predicate SetOk(s: Set, g: Shadow, spare: nat) {
    && GeoOk(s.blocks, s.head, Sizes(s.chunks), g.geo)
    && FreeOk(s.chunks, s.freelist, g.lists)
    && (forall c :: ChunkAt(s.chunks, c))
    && (forall b :: Filled(s, g.geo.tiles, spare, b))
    && KeeperOk(s, g.geo.tiles)
  }

  // ---------- consequences ----------

  /** In every valid state chunks are disjoint and aligned, and lie in a block. */
  lemma ChunksApart(s: Set, g: Shadow, c: nat, d: nat)
    requires SetOk(s, g, 0) && c in s.chunks && d in s.chunks && c != d
    ensures c + CHUNK_HDR + s.chunks[c].size <= d || d + CHUNK_HDR + s.chunks[d].size <= c
    ensures c != 0 && (c + CHUNK_HDR) % MAX_ALIGNMENT == 0
  {
    ChunksDisjoint(s.blocks, s.head, Sizes(s.chunks), g.geo, c, d);
    ChunkAligned(s.blocks, s.head, Sizes(s.chunks), g.geo, c);
  }

  // ---------- steps ----------

  /** An empty block enters the list behind `prev`, or at the head. */
  function WithBlock(s: Set, prev: nat, b: nat, next: nat, e: nat): Set {
    s.(blocks := Hook(s.blocks, prev, b, Block(next, b + BLOCK_HDR, e)), head := if prev == 0 then b else s.head)
  }

  ghost function BlockShadow(g: Shadow, i: nat, b: nat): Shadow
    requires i <= |g.geo.blist|
  {
    g.(geo := Geo(g.geo.blist[..i] + [b] + g.geo.blist[i..], g.geo.tiles[b := []], g.geo.home))
  }

  lemma PrevIsHead(s: Set, g: Shadow, spare: nat, i: nat)
    requires SetOk(s, g, spare) && i <= |g.geo.blist|
    ensures At(g.geo.blist, i - 1) == 0 <==> i == 0
  {
    if i > 0 {
      assert BlockAt(s.blocks, g.geo.blist, i - 1);
    }
  }

  lemma BlockStep(s: Set, g: Shadow, i: nat, b: nat, e: nat)
    requires SetOk(s, g, 0) && i <= |g.geo.blist| && Fresh(s.blocks, b, e)
    ensures b !in s.blocks
    ensures SetOk(WithBlock(s, At(g.geo.blist, i - 1), b, At(g.geo.blist, i), e), BlockShadow(g, i, b), b)
  {
    AddBlock(s.blocks, s.head, Sizes(s.chunks), g.geo, i, b, e);
    PrevIsHead(s, g, 0, i);
    var s', g' := WithBlock(s, At(g.geo.blist, i - 1), b, At(g.geo.blist, i), e), BlockShadow(g, i, b);
    forall a
      ensures Filled(s', g'.geo.tiles, b, a)
    {
      assert Filled(s, g.geo.tiles, 0, a);
      if a in s.blocks {
        BlockBounds(s.blocks, s.head, g.geo.blist, a);
      }
    }
  }

  /** The free space of block `b` yields the chunk `k`. */
  function WithChunk(s: Set, b: nat, k: Chunk): Set
    requires b in s.blocks
  {
    var c := s.blocks[b].freeptr;
    s.(blocks := s.blocks[b := s.blocks[b].(freeptr := c + CHUNK_HDR + k.size)], chunks := s.chunks[c := k])
  }

  ghost function ChunkShadow(s: Set, g: Shadow, b: nat): Shadow
    requires b in s.blocks && b in g.geo.tiles
  {
    var c := s.blocks[b].freeptr;
    g.(geo := Geo(g.geo.blist, g.geo.tiles[b := g.geo.tiles[b] + [c]], g.geo.home[c := b]))
  }

  ghost predicate Fits(s: Set, g: Shadow, b: nat, n: nat) {
    && b in s.blocks && b in g.geo.tiles && n % MAX_ALIGNMENT == 0
    && s.blocks[b].freeptr + CHUNK_HDR + n <= s.blocks[b].endptr
    && (n <= CHUNK_LIMIT || (g.geo.tiles[b] == [] && b != s.keeper
                             && s.blocks[b].freeptr + CHUNK_HDR + n == s.blocks[b].endptr))
  }

  lemma SizesUpdate(chunks: map<nat, Chunk>, c: nat, k: Chunk)
    ensures Sizes(chunks[c := k]) == Sizes(chunks)[c := k.size]
  {
  }

  lemma SizesSame(chunks: map<nat, Chunk>, c: nat, k: Chunk)
    requires c in chunks && chunks[c].size == k.size
    ensures Sizes(chunks[c := k]) == Sizes(chunks)
  {
  }

  /** Carving keeps the blocks tiled. */
  lemma CarveGeo(s: Set, g: Shadow, spare: nat, b: nat, k: Chunk)
    requires SetOk(s, g, spare) && Fits(s, g, b, k.size) && ChunkOk(k)
    ensures s.blocks[b].freeptr !in s.chunks && s.blocks[b].freeptr != 0
    ensures var s', g' := WithChunk(s, b, k), ChunkShadow(s, g, b); GeoOk(s'.blocks, s'.head, Sizes(s'.chunks), g'.geo)
  {
    AddChunk(s.blocks, s.head, Sizes(s.chunks), g.geo, b, k.size);
    BlockBounds(s.blocks, s.head, g.geo.blist, b);
    SizesUpdate(s.chunks, s.blocks[b].freeptr, k);
  }

  /** What carving does to blocks and chunks, whatever becomes of the chunk. */
  lemma CarveStep(s: Set, g: Shadow, spare: nat, b: nat, k: Chunk)
    requires SetOk(s, g, spare) && Fits(s, g, b, k.size) && ChunkOk(k)
    ensures s.blocks[b].freeptr !in s.chunks && s.blocks[b].freeptr != 0
    ensures var s', g', spare' := WithChunk(s, b, k), ChunkShadow(s, g, b), if spare == b then 0 else spare;
            && GeoOk(s'.blocks, s'.head, Sizes(s'.chunks), g'.geo)
            && (forall c :: ChunkAt(s'.chunks, c))
            && (forall a :: Filled(s', g'.geo.tiles, spare', a))
            && KeeperOk(s', g'.geo.tiles)
  {
    var c := s.blocks[b].freeptr;
    var s', g' := WithChunk(s, b, k), ChunkShadow(s, g, b);
    CarveGeo(s, g, spare, b, k);
    forall d
      ensures ChunkAt(s'.chunks, d)
    {
      assert ChunkAt(s.chunks, d);
    }
    var spare' := if spare == b then 0 else spare;
    forall a
      ensures Filled(s', g'.geo.tiles, spare', a)
    {
      assert Filled(s, g.geo.tiles, spare, a);
    }
    if s.keeper != 0 {
      forall d
        ensures SmallAt(s'.chunks, g'.geo.tiles[s.keeper], d)
      {
        assert SmallAt(s.chunks, g.geo.tiles[s.keeper], d);
        assert HomeOk(s.blocks, Sizes(s.chunks), g.geo, d);
      }
    }
  }

  /** Carving a chunk for a client. */
  lemma CarveLive(s: Set, g: Shadow, spare: nat, b: nat, k: Chunk)
    requires SetOk(s, g, spare) && Fits(s, g, b, k.size) && ChunkOk(k) && k.link.Owner?
    ensures s.blocks[b].freeptr !in s.chunks
    ensures SetOk(WithChunk(s, b, k), ChunkShadow(s, g, b), if spare == b then 0 else spare)
    ensures LiveOf(WithChunk(s, b, k).chunks) == LiveOf(s.chunks)[s.blocks[b].freeptr := k]
  {
    CarveStep(s, g, spare, b, k);
    var s' := WithChunk(s, b, k);
    forall d
      ensures SameFree(s.chunks, s'.chunks, d)
    {
    }
    KeepLists(s.chunks, s'.chunks, s.freelist, g.lists);
  }

  /** Carving a chunk for free list `j`. */
  lemma CarveFree(s: Set, g: Shadow, b: nat, j: nat, n: nat, data: seq<nat>)
    requires SetOk(s, g, 0) && Fits(s, g, b, n) && IsClass(n) && j == Index(n) && |data| == n
    ensures var k := Chunk(Free(s.freelist[j]), n, 0, data);
            var c := s.blocks[b].freeptr;
            && SetOk(WithChunk(s, b, k).(freelist := s.freelist[j := c]),
                     ChunkShadow(s, g, b).(lists := g.lists[j := [c] + g.lists[j]]), 0)
            && LiveOf(WithChunk(s, b, k).chunks) == LiveOf(s.chunks)
  {
    ClassAtMost(n);
    var k := Chunk(Free(s.freelist[j]), n, 0, data);
    var c := s.blocks[b].freeptr;
    CarveStep(s, g, 0, b, k);
    PushFree(s.chunks, s.freelist, g.lists, c, j, n, data);
    var s' := WithChunk(s, b, k).(freelist := s.freelist[j := c]);
    var g' := ChunkShadow(s, g, b);
    forall a
      ensures Filled(s', g'.geo.tiles, 0, a)
    {
      assert Filled(WithChunk(s, b, k), g'.geo.tiles, 0, a);
    }
  }

  /** A chunk changes in place, without changing size. */
  lemma Relabel(s: Set, g: Shadow, chunks': map<nat, Chunk>, freelist': seq<nat>, lists': seq<seq<nat>>)
    requires SetOk(s, g, 0) && FreeOk(chunks', freelist', lists')
    requires Sizes(chunks') == Sizes(s.chunks) && forall c :: ChunkAt(chunks', c)
    ensures SetOk(s.(chunks := chunks', freelist := freelist'), g.(lists := lists'), 0)
  {
    var s' := s.(chunks := chunks', freelist := freelist');
    forall b
      ensures Filled(s', g.geo.tiles, 0, b)
    {
      assert Filled(s, g.geo.tiles, 0, b);
    }
    if s.keeper != 0 {
      forall c
        ensures SmallAt(chunks', g.geo.tiles[s.keeper], c)
      {
        assert SmallAt(s.chunks, g.geo.tiles[s.keeper], c);
        assert c in chunks' ==> c in Sizes(chunks') && chunks'[c].size == Sizes(s.chunks)[c];
      }
    }
  }

  /** A chunk in use stays in use with other contents. */
  lemma LiveStep(s: Set, g: Shadow, c: nat, k: Chunk)
    requires SetOk(s, g, 0) && c in s.chunks && s.chunks[c].link.Owner?
    requires k.link.Owner? && k.size == s.chunks[c].size && ChunkOk(k)
    ensures SetOk(s.(chunks := s.chunks[c := k]), g, 0)
    ensures LiveOf(s.chunks[c := k]) == LiveOf(s.chunks)[c := k]
  {
    var chunks' := s.chunks[c := k];
    SizesSame(s.chunks, c, k);
    forall d
      ensures SameFree(s.chunks, chunks', d) && ChunkAt(chunks', d)
    {
      assert ChunkAt(s.chunks, d);
    }
    KeepLists(s.chunks, chunks', s.freelist, g.lists);
    Relabel(s, g, chunks', s.freelist, g.lists);
    assert g.(lists := g.lists) == g && s.(chunks := chunks', freelist := s.freelist) == s.(chunks := chunks');
  }

  /** A free chunk is taken from its list into use. */
  lemma ReuseStep(s: Set, g: Shadow, j: nat, i: nat, k: Chunk)
    requires SetOk(s, g, 0) && j < NUM_FREELISTS && i < |g.lists[j]|
    requires g.lists[j][i] in s.chunks && k.size == s.chunks[g.lists[j][i]].size
    requires k.link.Owner? && ChunkOk(k)
    ensures var c := g.lists[j][i];
            var chunks' := Unlinked(s.chunks, At(g.lists[j], i - 1), c, k);
            && SetOk(s.(chunks := chunks', freelist := if i == 0 then s.freelist[j := At(g.lists[j], 1)]
                        else s.freelist),
                     g.(lists := g.lists[j := g.lists[j][..i] + g.lists[j][i + 1..]]), 0)
            && c !in LiveOf(s.chunks)
            && LiveOf(chunks') == LiveOf(s.chunks)[c := k]
  {
    var list := g.lists[j];
    var c, prior := list[i], At(list, i - 1);
    PopFree(s.chunks, s.freelist, g.lists, j, i, k);
    assert ListOk(s.chunks, s.freelist, g.lists, j);
    assert ThreadAt(s.chunks, list, i);
    if i > 0 {
      assert ThreadAt(s.chunks, list, i - 1);
    }
    var chunks' := Unlinked(s.chunks, prior, c, k);
    assert Sizes(chunks') == Sizes(s.chunks);
    forall d
      ensures ChunkAt(chunks', d)
    {
      assert ChunkAt(s.chunks, d);
    }
    Relabel(s, g, chunks', if i == 0 then s.freelist[j := At(list, 1)] else s.freelist,
            g.lists[j := list[..i] + list[i + 1..]]);
  }

  /** A chunk in use goes to the head of the free list of its class. */
  lemma ReleaseStep(s: Set, g: Shadow, c: nat, j: nat, data: seq<nat>)
    requires SetOk(s, g, 0) && c in s.chunks && s.chunks[c].link.Owner? && s.chunks[c].size <= CHUNK_LIMIT
    requires j == Index(s.chunks[c].size) && |data| == s.chunks[c].size
    ensures j < NUM_FREELISTS
    ensures var chunks' := s.chunks[c := Chunk(Free(s.freelist[j]), s.chunks[c].size, 0, data)];
            && SetOk(s.(chunks := chunks', freelist := s.freelist[j := c]),
                     g.(lists := g.lists[j := [c] + g.lists[j]]), 0)
            && LiveOf(chunks') == LiveOf(s.chunks) - {c}
  {
    assert ChunkAt(s.chunks, c);
    ChunkAligned(s.blocks, s.head, Sizes(s.chunks), g.geo, c);
    var k := Chunk(Free(s.freelist[j]), s.chunks[c].size, 0, data);
    PushFree(s.chunks, s.freelist, g.lists, c, j, k.size, data);
    SizesSame(s.chunks, c, k);
    var chunks' := s.chunks[c := k];
    forall d
      ensures ChunkAt(chunks', d)
    {
      assert ChunkAt(s.chunks, d);
    }
    Relabel(s, g, chunks', s.freelist[j := c], g.lists[j := [c] + g.lists[j]]);
  }

  /** A large chunk leaves the set together with its block. */
  function WithoutBlock(s: Set, prev: nat, b: nat, next: nat, c: nat): Set {
    s.(blocks := Unhook(s.blocks, prev, b, next), head := if prev == 0 then next else s.head, chunks := s.chunks - {c})
  }

  ghost function DropShadow(g: Shadow, i: nat, c: nat): Shadow
    requires i < |g.geo.blist|
  {
    g.(geo := Geo(g.geo.blist[..i] + g.geo.blist[i + 1..], g.geo.tiles - {g.geo.blist[i]}, g.geo.home - {c}))
  }

  lemma DropStep(s: Set, g: Shadow, i: nat, c: nat)
    requires SetOk(s, g, 0) && i < |g.geo.blist| && c in s.chunks
    requires s.chunks[c].link.Owner? && s.chunks[c].size > CHUNK_LIMIT && c == g.geo.blist[i] + BLOCK_HDR
    ensures var s' := WithoutBlock(s, At(g.geo.blist, i - 1), g.geo.blist[i], At(g.geo.blist, i + 1), c);
            && SetOk(s', DropShadow(g, i, c), 0)
            && g.geo.blist[i] !in s'.blocks
            && g.geo.blist[i] != s.keeper
            && LiveOf(s'.chunks) == LiveOf(s.chunks) - {c}
            && (forall a :: a in s'.blocks ==> a in s.blocks && SameBounds(s.blocks, s'.blocks, a))
  {
    var b := g.geo.blist[i];
    BigChunkAlone(s.blocks, s.head, Sizes(s.chunks), g.geo, c);
    assert c in g.geo.tiles[b];
    assert s.keeper == b && b != 0 ==> SmallAt(s.chunks, g.geo.tiles[b], c);
    BlockBounds(s.blocks, s.head, g.geo.blist, b);
    DropBlock(s.blocks, s.head, Sizes(s.chunks), g.geo, i, c);
    UnhookList(s.blocks, s.head, g.geo.blist, i);
    PrevIsHead(s, g, 0, i);
    var s' := WithoutBlock(s, At(g.geo.blist, i - 1), b, At(g.geo.blist, i + 1), c);
    var g' := DropShadow(g, i, c);
    assert Sizes(s'.chunks) == Sizes(s.chunks) - {c};
    forall d
      ensures SameFree(s.chunks, s'.chunks, d) && ChunkAt(s'.chunks, d)
    {
      assert ChunkAt(s.chunks, d);
    }
    KeepLists(s.chunks, s'.chunks, s.freelist, g.lists);
    forall a
      ensures Filled(s', g'.geo.tiles, 0, a)
    {
      assert Filled(s, g.geo.tiles, 0, a);
    }
    if s.keeper != 0 {
      forall d
        ensures SmallAt(s'.chunks, g'.geo.tiles[s.keeper], d)
      {
        assert SmallAt(s.chunks, g.geo.tiles[s.keeper], d);
      }
    }
  }

  /** The last chunk of the active block grows over the free space. */
  function Grown(s: Set, b: nat, c: nat, k: Chunk): Set
    requires b in s.blocks
  {
    s.(blocks := s.blocks[b := s.blocks[b].(freeptr := c + CHUNK_HDR + k.size)], chunks := s.chunks[c := k])
  }

  lemma GrowStep(s: Set, g: Shadow, b: nat, c: nat, k: Chunk)
    requires SetOk(s, g, 0) && b in s.blocks && c in s.chunks && s.chunks[c].link.Owner?
    requires c + CHUNK_HDR + s.chunks[c].size == s.blocks[b].freeptr
    requires k.link.Owner? && ChunkOk(k) && s.chunks[c].size <= k.size <= CHUNK_LIMIT
    requires c + CHUNK_HDR + k.size <= s.blocks[b].endptr
    ensures SetOk(Grown(s, b, c, k), g, 0)
    ensures LiveOf(Grown(s, b, c, k).chunks) == LiveOf(s.chunks)[c := k]
  {
    LastOfBlock(s.blocks, s.head, Sizes(s.chunks), g.geo, c, b);
    GrowChunk(s.blocks, s.head, Sizes(s.chunks), g.geo, b, c, k.size);
    SizesUpdate(s.chunks, c, k);
    var s' := Grown(s, b, c, k);
    forall d
      ensures SameFree(s.chunks, s'.chunks, d) && ChunkAt(s'.chunks, d)
    {
      assert ChunkAt(s.chunks, d);
    }
    KeepLists(s.chunks, s'.chunks, s.freelist, g.lists);
    forall a
      ensures Filled(s', g.geo.tiles, 0, a)
    {
      assert Filled(s, g.geo.tiles, 0, a);
    }
    if s.keeper != 0 {
      forall d
        ensures SmallAt(s'.chunks, g.geo.tiles[s.keeper], d)
      {
        assert SmallAt(s.chunks, g.geo.tiles[s.keeper], d);
      }
    }
  }

  /** The state after a reset: nothing, or the keeper without chunks. */
  function Emptied(keeper: nat, endptr: nat): Set {
    Set(if keeper == 0 then map[] else map[keeper := Block(0, keeper + BLOCK_HDR, endptr)], keeper, map[],
        seq(NUM_FREELISTS, _ => 0), keeper)
  }

  ghost function EmptyShadow(keeper: nat): Shadow {
    Shadow(if keeper == 0 then Geo([], map[], map[]) else Geo([keeper], map[keeper := []], map[]),
           seq(NUM_FREELISTS, _ => []))
  }

  lemma EmptyStep(keeper: nat, endptr: nat)
    requires keeper % MAX_ALIGNMENT == 0 && keeper + BLOCK_HDR <= endptr
    ensures SetOk(Emptied(keeper, endptr), EmptyShadow(keeper), 0)
  {
    var s, g := Emptied(keeper, endptr), EmptyShadow(keeper);
    assert BlocksOk(s.blocks, s.head, g.geo.blist);
    forall b
      ensures TileOk(s.blocks, Sizes(s.chunks), g.geo.tiles, b)
    {
    }
    forall k | 0 <= k < NUM_FREELISTS
      ensures ListOk(s.chunks, s.freelist, g.lists, k)
    {
      forall c
        ensures HoldsClass(s.chunks, g.lists, k, c)
      {
      }
    }
  }
}
