/** Accounting: what the statistics of an allocation set add up to, and what
    the consistency check finds. */
module AsetStats {
  import opened AsetGeometry
  import opened AsetChunks
  import opened AsetSteps
  import opened Lists

  // ---------- sums of chunk sizes ----------

  /** The bytes of a chunk with its header. */
  ghost function Weight(sizes: map<nat, nat>, c: nat): nat {
    CHUNK_HDR + if c in sizes then sizes[c] else 0
  }

  ghost function SumSet(cs: set<nat>, sizes: map<nat, nat>): nat {
    if cs == {} then 0
    else
      var c :| c in cs;
      Weight(sizes, c) + SumSet(cs - {c}, sizes)
  }

  ghost function SumSeq(t: seq<nat>, sizes: map<nat, nat>): nat {
    if t == [] then 0 else SumSeq(t[..|t| - 1], sizes) + Weight(sizes, t[|t| - 1])
  }

  ghost function Elems(t: seq<nat>): set<nat> {
    set c | c in t
  }

  /** The sum does not depend on the order of summation. */
  lemma {:induction false} SumPick(cs: set<nat>, sizes: map<nat, nat>, c: nat)
    requires c in cs
    ensures SumSet(cs, sizes) == Weight(sizes, c) + SumSet(cs - {c}, sizes)
    decreases |cs|
  {
    var d :| d in cs && SumSet(cs, sizes) == Weight(sizes, d) + SumSet(cs - {d}, sizes);
    if d != c {
      SumPick(cs - {d}, sizes, c);
      SumPick(cs - {c}, sizes, d);
      assert cs - {d} - {c} == cs - {c} - {d};
    }
  }

  lemma {:induction false} SumUnion(a: set<nat>, b: set<nat>, sizes: map<nat, nat>)
    requires a !! b
    ensures SumSet(a + b, sizes) == SumSet(a, sizes) + SumSet(b, sizes)
    decreases |b|
  {
    if b == {} {
      assert a + b == a;
    } else {
      var c :| c in b;
      SumPick(b, sizes, c);
      SumPick(a + b, sizes, c);
      assert a + b - {c} == a + (b - {c});
      SumUnion(a, b - {c}, sizes);
    }
  }

  lemma {:induction false} SeqIsSet(t: seq<nat>, sizes: map<nat, nat>)
    requires forall i, j :: 0 <= i < j < |t| ==> t[i] != t[j]
    ensures SumSeq(t, sizes) == SumSet(Elems(t), sizes) && |Elems(t)| == |t|
  {
    if t != [] {
      var front, c := t[..|t| - 1], t[|t| - 1];
      SeqIsSet(front, sizes);
      var cs := Elems(t);
      SumPick(cs, sizes, c);
      assert cs - {c} == Elems(front);
    } else {
      assert Elems(t) == {};
    }
  }

  /** The chunks of a tiling fill it without gaps. */
  lemma {:induction false} TileSum(sizes: map<nat, nat>, start: nat, stop: nat, t: seq<nat>, j: nat)
    requires Tiled(sizes, start, stop, t) && j <= |t|
    ensures start + SumSeq(t[..j], sizes) == if j < |t| then t[j] else stop
  {
    if j > 0 {
      TileSum(sizes, start, stop, t, j - 1);
      assert TileAt(sizes, start, stop, t, j - 1);
      assert t[..j][..j - 1] == t[..j - 1];
    } else if t != [] {
      assert TileAt(sizes, start, stop, t, 0);
    }
  }

  /** The used part of a block is the sum of its chunks. */
  lemma BlockSum(s: Set, g: Shadow, b: nat)
    requires SetOk(s, g, 0) && b in s.blocks
    ensures b in g.geo.tiles
    ensures SumSet(Elems(g.geo.tiles[b]), Sizes(s.chunks)) == s.blocks[b].freeptr - b - BLOCK_HDR
  {
    assert TileOk(s.blocks, Sizes(s.chunks), g.geo.tiles, b);
    var t, start, stop := g.geo.tiles[b], b + BLOCK_HDR, s.blocks[b].freeptr;
    TileSum(Sizes(s.chunks), start, stop, t, |t|);
    assert t[..|t|] == t;
    forall i, j | 0 <= i < j < |t|
      ensures t[i] != t[j]
    {
      TileAscends(Sizes(s.chunks), start, stop, t, i, j);
    }
    SeqIsSet(t, Sizes(s.chunks));
  }

  // ---------- the two loops of the statistics ----------

  /** The bytes of the blocks of a list. */
  ghost function TotalSpace(blocks: map<nat, Block>, blist: seq<nat>): int {
    if blist == [] then 0
    else
      var b := blist[|blist| - 1];
      TotalSpace(blocks, blist[..|blist| - 1]) + if b in blocks then blocks[b].endptr - b else 0
  }

  /** The bytes of these blocks that have never been carved. */
  ghost function FreeSpace(blocks: map<nat, Block>, blist: seq<nat>): int {
    if blist == [] then 0
    else
      var b := blist[|blist| - 1];
      FreeSpace(blocks, blist[..|blist| - 1]) + if b in blocks then blocks[b].endptr - blocks[b].freeptr else 0
  }

  ghost function FreeChunks(chunks: map<nat, Chunk>): set<nat> {
    set c | c in chunks && chunks[c].link.Free?
  }

  /** The free chunks with their headers. */
  ghost function FreeBytes(chunks: map<nat, Chunk>): nat {
    SumSet(FreeChunks(chunks), Sizes(chunks))
  }

  /** The chunks of the first `i` blocks. */
  ghost function ChunksUpTo(s: Set, g: Shadow, i: nat): set<nat>
    requires i <= |g.geo.blist|
  {
    set c | c in s.chunks && c in g.geo.home && g.geo.home[c] in g.geo.blist[..i]
  }

  lemma ChunksNext(s: Set, g: Shadow, i: nat)
    requires SetOk(s, g, 0) && i < |g.geo.blist|
    ensures g.geo.blist[i] in s.blocks
    ensures var b := g.geo.blist[i];
            SumSet(ChunksUpTo(s, g, i + 1), Sizes(s.chunks))
              == SumSet(ChunksUpTo(s, g, i), Sizes(s.chunks)) + (s.blocks[b].freeptr - b - BLOCK_HDR)
  {
    var b := g.geo.blist[i];
    assert BlockAt(s.blocks, g.geo.blist, i);
    BlockSum(s, g, b);
    var here := Elems(g.geo.tiles[b]);
    var before := ChunksUpTo(s, g, i);
    assert g.geo.blist[..i + 1] == g.geo.blist[..i] + [b];
    forall c
      ensures c in here <==> c in s.chunks && c in g.geo.home && g.geo.home[c] == b
    {
      assert HomeOk(s.blocks, Sizes(s.chunks), g.geo, c);
    }
    assert ChunksUpTo(s, g, i + 1) == before + here;
    assert b !in g.geo.blist[..i];
    SumUnion(before, here, Sizes(s.chunks));
  }

  /** Walks the block list, adding up sizes and free space. */
  method BlockTotals(s: Set, ghost g: Shadow) returns (nblocks: nat, total: nat, free: nat)
    requires SetOk(s, g, 0)
    ensures nblocks == |g.geo.blist|
    ensures total == TotalSpace(s.blocks, g.geo.blist) && free == FreeSpace(s.blocks, g.geo.blist)
    ensures total - free == BLOCK_HDR * nblocks + SumSet(s.chunks.Keys, Sizes(s.chunks))
  {
    nblocks, total, free := 0, 0, 0;
    var block := s.head;
    assert |g.geo.blist| > 0 ==> BlockAt(s.blocks, g.geo.blist, 0);
    assert ChunksUpTo(s, g, 0) == {};
    while block != 0
      invariant nblocks <= |g.geo.blist| && block == At(g.geo.blist, nblocks)
      invariant block != 0 <==> nblocks < |g.geo.blist|
      invariant total == TotalSpace(s.blocks, g.geo.blist[..nblocks])
      invariant free == FreeSpace(s.blocks, g.geo.blist[..nblocks])
      invariant total - free == BLOCK_HDR * nblocks + SumSet(ChunksUpTo(s, g, nblocks), Sizes(s.chunks))
      decreases |g.geo.blist| - nblocks
    {
      ChunksNext(s, g, nblocks);
      assert BlockAt(s.blocks, g.geo.blist, nblocks);
      assert nblocks + 1 < |g.geo.blist| ==> BlockAt(s.blocks, g.geo.blist, nblocks + 1);
      assert g.geo.blist[..nblocks + 1][..nblocks] == g.geo.blist[..nblocks];
      nblocks := nblocks + 1;
      total := total + (s.blocks[block].endptr - block);
      free := free + (s.blocks[block].endptr - s.blocks[block].freeptr);
      block := s.blocks[block].next;
    }
    assert g.geo.blist[..nblocks] == g.geo.blist;
    forall c
      ensures c in ChunksUpTo(s, g, nblocks) <==> c in s.chunks
    {
      assert HomeOk(s.blocks, Sizes(s.chunks), g.geo, c);
      assert g.geo.blist[..nblocks] == g.geo.blist;
      if c in s.chunks {
        BlockBounds(s.blocks, s.head, g.geo.blist, g.geo.home[c]);
      }
    }
    assert ChunksUpTo(s, g, nblocks) == s.chunks.Keys;
  }

  /** The free chunks of the first `k` classes. */
  ghost function FreeUpTo(s: Set, k: nat): set<nat> {
    set c | c in s.chunks && s.chunks[c].link.Free? && Index(s.chunks[c].size) < k
  }

  lemma FreeNext(s: Set, g: Shadow, k: nat)
    requires SetOk(s, g, 0) && k < NUM_FREELISTS
    ensures SumSet(FreeUpTo(s, k + 1), Sizes(s.chunks))
              == SumSet(FreeUpTo(s, k), Sizes(s.chunks)) + SumSeq(g.lists[k], Sizes(s.chunks))
    ensures |FreeUpTo(s, k + 1)| == |FreeUpTo(s, k)| + |g.lists[k]|
  {
    assert ListOk(s.chunks, s.freelist, g.lists, k);
    var here := Elems(g.lists[k]);
    forall c
      ensures c in here <==> c in s.chunks && s.chunks[c].link.Free? && Index(s.chunks[c].size) == k
    {
      assert HoldsClass(s.chunks, g.lists, k, c);
    }
    assert FreeUpTo(s, k + 1) == FreeUpTo(s, k) + here;
    SumUnion(FreeUpTo(s, k), here, Sizes(s.chunks));
    SeqIsSet(g.lists[k], Sizes(s.chunks));
  }

  /** Walks one free list. */
  method ListTotal(chunks: map<nat, Chunk>, first: nat, ghost list: seq<nat>) returns (n: nat, bytes: nat)
    requires Threaded(chunks, first, list)
    ensures n == |list| && bytes == SumSeq(list, Sizes(chunks))
  {
    n, bytes := 0, 0;
    var chunk := first;
    assert |list| > 0 ==> ThreadAt(chunks, list, 0);
    while chunk != 0
      invariant n <= |list| && chunk == At(list, n)
      invariant chunk != 0 <==> n < |list|
      invariant bytes == SumSeq(list[..n], Sizes(chunks))
      decreases |list| - n
    {
      assert ThreadAt(chunks, list, n);
      assert n + 1 < |list| ==> ThreadAt(chunks, list, n + 1);
      assert list[..n + 1][..n] == list[..n];
      n := n + 1;
      bytes := bytes + chunks[chunk].size + CHUNK_HDR;
      chunk := chunks[chunk].link.next;
    }
    assert list[..n] == list;
  }

  /** Walks all free lists. */
  method ListTotals(s: Set, ghost g: Shadow) returns (nchunks: nat, free: nat)
    requires SetOk(s, g, 0)
    ensures free == SumSet(FreeUpTo(s, NUM_FREELISTS), Sizes(s.chunks)) && nchunks == |FreeUpTo(s, NUM_FREELISTS)|
  {
    nchunks, free := 0, 0;
    assert FreeUpTo(s, 0) == {};
    for k := 0 to NUM_FREELISTS
      invariant free == SumSet(FreeUpTo(s, k), Sizes(s.chunks)) && nchunks == |FreeUpTo(s, k)|
    {
      assert ListOk(s.chunks, s.freelist, g.lists, k);
      var n, bytes := ListTotal(s.chunks, s.freelist[k], g.lists[k]);
      FreeNext(s, g, k);
      nchunks, free := nchunks + n, free + bytes;
    }
  }

  /** The classes together hold every free chunk. */
  lemma AllFree(s: Set, g: Shadow)
    requires SetOk(s, g, 0)
    ensures SumSet(FreeUpTo(s, NUM_FREELISTS), Sizes(s.chunks)) == FreeBytes(s.chunks)
  {
    forall c | c in s.chunks && s.chunks[c].link.Free?
      ensures c in FreeUpTo(s, NUM_FREELISTS)
    {
      assert ChunkAt(s.chunks, c);
    }
    assert FreeUpTo(s, NUM_FREELISTS) == FreeChunks(s.chunks);
  }

  /** The chunks in use with their headers. */
  ghost function LiveBytes(chunks: map<nat, Chunk>): nat {
    SumSet(LiveOf(chunks).Keys, Sizes(chunks))
  }

  lemma LiveOrFree(s: Set, g: Shadow)
    requires SetOk(s, g, 0)
    ensures var live, free := LiveOf(s.chunks).Keys, FreeUpTo(s, NUM_FREELISTS);
            s.chunks.Keys == live + free && live !! free
  {
    forall c
      ensures c in s.chunks && s.chunks[c].link.Free? ==> Index(s.chunks[c].size) < NUM_FREELISTS
    {
      assert ChunkAt(s.chunks, c);
    }
  }

  /** Every chunk is either in use or on a free list. */
  lemma LiveAndFree(s: Set, g: Shadow)
    requires SetOk(s, g, 0)
    ensures SumSet(s.chunks.Keys, Sizes(s.chunks))
              == LiveBytes(s.chunks) + SumSet(FreeUpTo(s, NUM_FREELISTS), Sizes(s.chunks))
    ensures |s.chunks| == |LiveOf(s.chunks)| + |FreeUpTo(s, NUM_FREELISTS)|
  {
    LiveOrFree(s, g);
    var live, free := LiveOf(s.chunks).Keys, FreeUpTo(s, NUM_FREELISTS);
    assert |live + free| == |live| + |free|;
    SumUnion(live, free, Sizes(s.chunks));
  }

  // ---------- the consistency check ----------

  /** The complaints about one chunk of a block with `used` bytes in use. */
  function ChunkNotices(k: Chunk, used: int): (n: nat) {
    (if k.requested > k.size then 1 else 0)
    + (if k.size < 16 then 1 else 0)
    + (if k.size > CHUNK_LIMIT && k.size + CHUNK_HDR != used then 1 else 0)
    + (if k.requested > 0 && k.link != Owner then 1 else 0)
    + (if 0 < k.requested < k.size && k.requested < |k.data| && k.data[k.requested] != MARK then 1 else 0)
  }

  /** A chunk in which nothing beyond the request was touched. */
  predicate Sound(k: Chunk) {
    && 16 <= k.size && k.requested <= k.size
    && (k.requested > 0 ==> k.link == Owner)
    && (0 < k.requested < k.size && k.requested < |k.data| ==> k.data[k.requested] == MARK)
  }

  ghost predicate SoundIn(chunks: map<nat, Chunk>, t: seq<nat>, i: nat)
    requires i < |t|
  {
    t[i] in chunks && Sound(chunks[t[i]])
  }

  /** Block `b` is not empty, or is the keeper, and its chunks are sound. */
  ghost predicate SoundBlock(s: Set, geo: Geo, b: nat) {
    && b in s.blocks && b in geo.tiles
    && (geo.tiles[b] == [] ==> b == s.keeper)
    && forall i :: 0 <= i < |geo.tiles[b]| ==> SoundIn(s.chunks, geo.tiles[b], i)
  }

  /** Walks the chunks of one block by their sizes. */
  method CheckBlock(s: Set, block: nat, ghost geo: Geo) returns (notices: nat)
    requires GeoOk(s.blocks, s.head, Sizes(s.chunks), geo) && block in s.blocks
    ensures notices == 0 <==> SoundBlock(s, geo, block)
  {
    var start, stop := block + BLOCK_HDR, s.blocks[block].freeptr;
    BlockBounds(s.blocks, s.head, geo.blist, block);
    assert TileOk(s.blocks, Sizes(s.chunks), geo.tiles, block);
    ghost var t, sizes := geo.tiles[block], Sizes(s.chunks);
    var used := stop - start;
    if t != [] {
      TileBounds(sizes, start, stop, t, 0);
      assert TileAt(sizes, start, stop, t, 0);
    }
    notices := if used == 0 && s.keeper != block then 1 else 0;
    var bpoz, data, nchunks := start, 0, 0;
    while bpoz < stop
      invariant nchunks <= |t| && bpoz == if nchunks < |t| then t[nchunks] else stop
      invariant data + nchunks * CHUNK_HDR == bpoz - start
      invariant notices == 0 <==>
                  (t == [] ==> s.keeper == block) && forall i :: 0 <= i < nchunks ==> SoundIn(s.chunks, t, i)
      decreases |t| - nchunks
    {
      assert TileAt(sizes, start, stop, t, nchunks) && BigAt(s.blocks, sizes, block, t, nchunks);
      var k := s.chunks[bpoz];
      assert SoundIn(s.chunks, t, nchunks) <==> ChunkNotices(k, used) == 0;
      notices := notices + ChunkNotices(k, used);
      data := data + k.size;
      nchunks := nchunks + 1;
      bpoz := bpoz + CHUNK_HDR + k.size;
    }
    assert nchunks == |t| by {
      if nchunks < |t| {
        TileBounds(sizes, start, stop, t, nchunks);
      }
    }
    notices := notices + if data + nchunks * CHUNK_HDR != used then 1 else 0;
  }

  /** alloc_set_check: on any set that can be walked, silence means exactly that
      every block is sound. */
  method CheckBlocks(s: Set, ghost geo: Geo) returns (notices: nat)
    requires GeoOk(s.blocks, s.head, Sizes(s.chunks), geo)
    ensures notices == 0 <==> forall b :: b in s.blocks ==> SoundBlock(s, geo, b)
  {
    notices := 0;
    var block := s.head;
    ghost var i := 0;
    ghost var blist := geo.blist;
    assert |blist| > 0 ==> BlockAt(s.blocks, blist, 0);
    while block != 0
      invariant i <= |blist| && block == At(blist, i)
      invariant block != 0 <==> i < |blist|
      invariant notices == 0 <==> forall j :: 0 <= j < i ==> SoundBlock(s, geo, blist[j])
      decreases |blist| - i
    {
      assert BlockAt(s.blocks, blist, i);
      assert i + 1 < |blist| ==> BlockAt(s.blocks, blist, i + 1);
      var n := CheckBlock(s, block, geo);
      notices := notices + n;
      block := s.blocks[block].next;
      i := i + 1;
    }
    if notices == 0 {
      forall b | b in s.blocks
        ensures SoundBlock(s, geo, b)
      {
        BlockBounds(s.blocks, s.head, blist, b);
      }
    } else {
      ghost var j :| 0 <= j < i && !SoundBlock(s, geo, blist[j]);
      assert BlockAt(s.blocks, blist, j);
    }
  }

  /** In a valid set every block is sound. */
  lemma ValidIsSound(s: Set, g: Shadow, b: nat)
    requires SetOk(s, g, 0) && b in s.blocks
    ensures SoundBlock(s, g.geo, b)
  {
    BlockBounds(s.blocks, s.head, g.geo.blist, b);
    assert TileOk(s.blocks, Sizes(s.chunks), g.geo.tiles, b) && Filled(s, g.geo.tiles, 0, b);
    var t, start, stop := g.geo.tiles[b], b + BLOCK_HDR, s.blocks[b].freeptr;
    forall i | 0 <= i < |t|
      ensures SoundIn(s.chunks, t, i)
    {
      assert TileAt(Sizes(s.chunks), start, stop, t, i);
      assert ChunkAt(s.chunks, t[i]);
    }
  }
}
