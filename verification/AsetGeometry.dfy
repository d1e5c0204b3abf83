/** The geometry of an allocation set: a list of blocks that occupy disjoint
    regions of memory, each tiled by chunks from its header to its free space. */
module AsetGeometry {
  import opened Lists
  import opened Storage

  const BLOCK_HDR: nat := 32
  const CHUNK_HDR: nat := 32
  const CHUNK_LIMIT: nat := 8192

  /** A block header: the link to the next block, and its boundaries. */
  datatype Block = Block(next: nat, freeptr: nat, endptr: nat)

  /** The ghost view: blocks in list order, the chunks of each block in address
      order, and the block that each chunk belongs to. */
  datatype Geo = Geo(blist: seq<nat>, tiles: map<nat, seq<nat>>, home: map<nat, nat>)

  ghost predicate BlockAt(blocks: map<nat, Block>, blist: seq<nat>, i: nat)
    requires i < |blist|
  {
    var b := blist[i];
    && b != 0 && b % MAX_ALIGNMENT == 0 && b in blocks
    && blocks[b].next == At(blist, i + 1)
    && b + BLOCK_HDR <= blocks[b].freeptr <= blocks[b].endptr
  }

  ghost predicate Listed(blocks: map<nat, Block>, blist: seq<nat>, b: nat) {
    b in blocks <==> b in blist
  }

  ghost predicate Apart(blocks: map<nat, Block>, a: nat, b: nat) {
    a in blocks && b in blocks && a != b ==> blocks[a].endptr <= b || blocks[b].endptr <= a
  }

  ghost predicate BlocksOk(blocks: map<nat, Block>, head: nat, blist: seq<nat>) {
    && head == At(blist, 0)
    && (forall i :: 0 <= i < |blist| ==> BlockAt(blocks, blist, i))
    && (forall b :: Listed(blocks, blist, b))
    && (forall i, j :: 0 <= i < j < |blist| ==> blist[i] != blist[j])
    && (forall a, b :: Apart(blocks, a, b))
  }

  /** Chunk `i` of a tiling from `start` to `stop` ends where the next begins. */
  ghost predicate TileAt(sizes: map<nat, nat>, start: nat, stop: nat, t: seq<nat>, i: nat)
    requires i < |t|
  {
    && t[i] in sizes
    && (i == 0 ==> t[0] == start)
    && t[i] + CHUNK_HDR + sizes[t[i]] == if i + 1 < |t| then t[i + 1] else stop
  }

  ghost predicate Tiled(sizes: map<nat, nat>, start: nat, stop: nat, t: seq<nat>) {
    && (t == [] ==> start == stop)
    && forall i :: 0 <= i < |t| ==> TileAt(sizes, start, stop, t, i)
  }

  /** A chunk above the limit is alone in its block and fills it. */
  ghost predicate BigAlone(blocks: map<nat, Block>, sizes: map<nat, nat>, b: nat, t: seq<nat>) {
    forall i :: 0 <= i < |t| ==> BigAt(blocks, sizes, b, t, i)
  }

  ghost predicate BigAt(blocks: map<nat, Block>, sizes: map<nat, nat>, b: nat, t: seq<nat>, i: nat)
    requires i < |t|
  {
    b in blocks && t[i] in sizes &&
    (sizes[t[i]] > CHUNK_LIMIT ==> |t| == 1 && blocks[b].freeptr == blocks[b].endptr)
  }

  ghost predicate TileOk(blocks: map<nat, Block>, sizes: map<nat, nat>, tiles: map<nat, seq<nat>>, b: nat) {
    b in blocks ==>
      && b in tiles
      && Tiled(sizes, b + BLOCK_HDR, blocks[b].freeptr, tiles[b])
      && BigAlone(blocks, sizes, b, tiles[b])
  }

  /** A chunk is in the tiling of its home block, and of no other. */
  ghost predicate HomeOk(blocks: map<nat, Block>, sizes: map<nat, nat>, g: Geo, c: nat) {
    && (c in sizes ==> c in g.home && g.home[c] in blocks && g.home[c] in g.tiles && c in g.tiles[g.home[c]])
    && (forall b :: b in g.tiles && c in g.tiles[b] ==> c in sizes && g.home[c] == b && b in blocks)
  }

  ghost predicate GeoOk(blocks: map<nat, Block>, head: nat, sizes: map<nat, nat>, g: Geo) {
    && BlocksOk(blocks, head, g.blist)
    && (forall b :: TileOk(blocks, sizes, g.tiles, b))
    && (forall c :: HomeOk(blocks, sizes, g, c))
    && (forall c :: AlignedAt(sizes, c))
  }

  ghost predicate AlignedAt(sizes: map<nat, nat>, c: nat) {
    c in sizes ==> sizes[c] % MAX_ALIGNMENT == 0
  }

  // ---------- chunks lie where they should, and apart ----------

  /** Chunks of a tiling ascend, each from the end of the one before. */
  lemma {:induction false} TileAscends(sizes: map<nat, nat>, start: nat, stop: nat, t: seq<nat>, i: nat, j: nat)
    requires Tiled(sizes, start, stop, t) && i < j < |t|
    ensures t[i] in sizes && t[i] + CHUNK_HDR + sizes[t[i]] <= t[j]
    decreases j - i
  {
    assert TileAt(sizes, start, stop, t, i);
    if i + 1 < j {
      TileAscends(sizes, start, stop, t, i + 1, j);
      assert TileAt(sizes, start, stop, t, i + 1);
    }
  }

  /** Every chunk of a tiling lies between its boundaries. */
  lemma TileBounds(sizes: map<nat, nat>, start: nat, stop: nat, t: seq<nat>, i: nat)
    requires Tiled(sizes, start, stop, t) && i < |t|
    ensures t[i] in sizes && start <= t[i] && t[i] + CHUNK_HDR + sizes[t[i]] <= stop
  {
    assert TileAt(sizes, start, stop, t, i) && TileAt(sizes, start, stop, t, 0);
    if i > 0 {
      TileAscends(sizes, start, stop, t, 0, i);
    }
    if i < |t| - 1 {
      TileAscends(sizes, start, stop, t, i, |t| - 1);
    }
    assert TileAt(sizes, start, stop, t, |t| - 1);
  }

  /** A chunk lies inside its home block, below the free space. */
  lemma ChunkInBlock(blocks: map<nat, Block>, head: nat, sizes: map<nat, nat>, g: Geo, c: nat)
    requires GeoOk(blocks, head, sizes, g) && c in sizes
    ensures c in g.home && g.home[c] in blocks
    ensures var b := g.home[c];
            b + BLOCK_HDR <= c && c + CHUNK_HDR + sizes[c] <= blocks[b].freeptr <= blocks[b].endptr
  {
    assert HomeOk(blocks, sizes, g, c);
    var b := g.home[c];
    assert TileOk(blocks, sizes, g.tiles, b);
    var i :| 0 <= i < |g.tiles[b]| && g.tiles[b][i] == c;
    TileBounds(sizes, b + BLOCK_HDR, blocks[b].freeptr, g.tiles[b], i);
    BlockBounds(blocks, head, g.blist, b);
  }

  lemma BlockBounds(blocks: map<nat, Block>, head: nat, blist: seq<nat>, b: nat)
    requires BlocksOk(blocks, head, blist) && b in blocks
    ensures b != 0 && b % MAX_ALIGNMENT == 0 && b + BLOCK_HDR <= blocks[b].freeptr <= blocks[b].endptr && b in blist
  {
    assert Listed(blocks, blist, b);
    var i :| 0 <= i < |blist| && blist[i] == b;
    assert BlockAt(blocks, blist, i);
  }

  /** Any two chunks, live or free, occupy disjoint memory. */
  lemma ChunksDisjoint(blocks: map<nat, Block>, head: nat, sizes: map<nat, nat>, g: Geo, c: nat, d: nat)
    requires GeoOk(blocks, head, sizes, g) && c in sizes && d in sizes && c != d
    ensures c + CHUNK_HDR + sizes[c] <= d || d + CHUNK_HDR + sizes[d] <= c
  {
    ChunkInBlock(blocks, head, sizes, g, c);
    ChunkInBlock(blocks, head, sizes, g, d);
    assert HomeOk(blocks, sizes, g, c) && HomeOk(blocks, sizes, g, d);
    var a, b := g.home[c], g.home[d];
    if a == b {
      assert TileOk(blocks, sizes, g.tiles, a);
      var i :| 0 <= i < |g.tiles[a]| && g.tiles[a][i] == c;
      var j :| 0 <= j < |g.tiles[a]| && g.tiles[a][j] == d;
      if i < j {
        TileAscends(sizes, a + BLOCK_HDR, blocks[a].freeptr, g.tiles[a], i, j);
      } else {
        TileAscends(sizes, a + BLOCK_HDR, blocks[a].freeptr, g.tiles[a], j, i);
      }
    } else {
      assert Apart(blocks, a, b);
    }
  }

  /** Chunk addresses, and so the pointers handed out, are aligned. */
  lemma ChunkAligned(blocks: map<nat, Block>, head: nat, sizes: map<nat, nat>, g: Geo, c: nat)
    requires GeoOk(blocks, head, sizes, g) && c in sizes
    ensures c % MAX_ALIGNMENT == 0 && c != 0
  {
    assert HomeOk(blocks, sizes, g, c);
    var b := g.home[c];
    assert TileOk(blocks, sizes, g.tiles, b);
    BlockBounds(blocks, head, g.blist, b);
    var i :| 0 <= i < |g.tiles[b]| && g.tiles[b][i] == c;
    TileAligned(sizes, b + BLOCK_HDR, blocks[b].freeptr, g.tiles[b], i);
    TileBounds(sizes, b + BLOCK_HDR, blocks[b].freeptr, g.tiles[b], i);
  }

  lemma {:induction false} TileAligned(sizes: map<nat, nat>, start: nat, stop: nat, t: seq<nat>, i: nat)
    requires Tiled(sizes, start, stop, t) && i < |t| && start % MAX_ALIGNMENT == 0
    requires forall c :: AlignedAt(sizes, c)
    ensures t[i] % MAX_ALIGNMENT == 0
  {
    if i == 0 {
      assert TileAt(sizes, start, stop, t, 0);
    } else {
      TileAligned(sizes, start, stop, t, i - 1);
      assert TileAt(sizes, start, stop, t, i - 1) && AlignedAt(sizes, t[i - 1]);
    }
  }

  /** A chunk that ends where the free space of block `b` begins is the last
      chunk of that block, because blocks do not overlap. */
  lemma LastOfBlock(blocks: map<nat, Block>, head: nat, sizes: map<nat, nat>, g: Geo, c: nat, b: nat)
    requires GeoOk(blocks, head, sizes, g) && c in sizes && b in blocks
    requires c + CHUNK_HDR + sizes[c] == blocks[b].freeptr
    ensures c in g.home && g.home[c] == b
    ensures b in g.tiles && g.tiles[b] != [] && g.tiles[b][|g.tiles[b]| - 1] == c
  {
    ChunkInBlock(blocks, head, sizes, g, c);
    BlockBounds(blocks, head, g.blist, b);
    assert Apart(blocks, g.home[c], b) && HomeOk(blocks, sizes, g, c);
    assert TileOk(blocks, sizes, g.tiles, b);
    var t := g.tiles[b];
    var i :| 0 <= i < |t| && t[i] == c;
    if i < |t| - 1 {
      TileAscends(sizes, b + BLOCK_HDR, blocks[b].freeptr, t, i, |t| - 1);
      TileBounds(sizes, b + BLOCK_HDR, blocks[b].freeptr, t, |t| - 1);
    }
  }

  // ---------- how the operations change the geometry ----------

  /** Memory from `b` to `e` that no block of the set occupies. */
  ghost predicate Fresh(blocks: map<nat, Block>, b: nat, e: nat) {
    && b != 0 && b % MAX_ALIGNMENT == 0 && b + BLOCK_HDR <= e
    && forall a :: FreshOf(blocks, b, e, a)
  }

  ghost predicate FreshOf(blocks: map<nat, Block>, b: nat, e: nat, a: nat) {
    a in blocks ==> blocks[a].endptr <= b || e <= a
  }

  /** Puts block `b` into the list behind `prev`, or at the head if `prev` is 0. */
  function Hook(blocks: map<nat, Block>, prev: nat, b: nat, blk: Block): map<nat, Block> {
    if prev == 0 || prev !in blocks then blocks[b := blk]
    else blocks[b := blk][prev := blocks[prev].(next := b)]
  }

  /** Takes block `b` out of the list from behind `prev`. */
  function Unhook(blocks: map<nat, Block>, prev: nat, b: nat, next: nat): map<nat, Block> {
    if prev == 0 || prev !in blocks then blocks - {b}
    else blocks[prev := blocks[prev].(next := next)] - {b}
  }

  /** Blocks keep their boundaries. */
  ghost predicate SameBounds(blocks: map<nat, Block>, blocks': map<nat, Block>, a: nat) {
    a in blocks && a in blocks' ==> blocks'[a].freeptr == blocks[a].freeptr && blocks'[a].endptr == blocks[a].endptr
  }

  lemma HookLinks(blocks: map<nat, Block>, head: nat, blist: seq<nat>, i: nat, b: nat, e: nat)
    requires BlocksOk(blocks, head, blist) && i <= |blist| && Fresh(blocks, b, e) && b !in blocks
    ensures var blocks' := Hook(blocks, At(blist, i - 1), b, Block(At(blist, i), b + BLOCK_HDR, e));
            var blist' := blist[..i] + [b] + blist[i..];
            forall j :: 0 <= j < |blist'| ==> BlockAt(blocks', blist', j)
  {
    var blocks' := Hook(blocks, At(blist, i - 1), b, Block(At(blist, i), b + BLOCK_HDR, e));
    var blist' := blist[..i] + [b] + blist[i..];
    assert Listed(blocks, blist, b);
    if i > 0 {
      assert BlockAt(blocks, blist, i - 1);
    }
    forall j | 0 <= j < |blist'|
      ensures BlockAt(blocks', blist', j)
    {
      if j < i {
        assert BlockAt(blocks, blist, j) && blist'[j] == blist[j];
        if j + 1 < i {
          assert blist[j] != blist[i - 1];
        }
      } else if j > i {
        assert BlockAt(blocks, blist, j - 1) && blist'[j] == blist[j - 1];
        assert i > 0 ==> blist[i - 1] != blist[j - 1];
      }
    }
  }

  lemma HookListed(blocks: map<nat, Block>, blocks': map<nat, Block>, blist: seq<nat>, i: nat, b: nat)
    requires i <= |blist| && (forall a :: Listed(blocks, blist, a)) && blocks'.Keys == blocks.Keys + {b}
    ensures forall a :: Listed(blocks', blist[..i] + [b] + blist[i..], a)
  {
    forall a
      ensures Listed(blocks', blist[..i] + [b] + blist[i..], a)
    {
      assert Listed(blocks, blist, a);
      assert blist == blist[..i] + blist[i..];
    }
  }

  lemma HookList(blocks: map<nat, Block>, head: nat, blist: seq<nat>, i: nat, b: nat, e: nat)
    requires BlocksOk(blocks, head, blist) && i <= |blist| && Fresh(blocks, b, e)
    ensures b !in blocks
    ensures var blk := Block(At(blist, i), b + BLOCK_HDR, e);
            var blocks' := Hook(blocks, At(blist, i - 1), b, blk);
            && BlocksOk(blocks', if i == 0 then b else head, blist[..i] + [b] + blist[i..])
            && b in blocks' && blocks'[b] == blk
            && (forall a :: SameBounds(blocks, blocks', a))
  {
    assert FreshOf(blocks, b, e, b);
    if b in blocks {
      BlockBounds(blocks, head, blist, b);
    }
    var prev := At(blist, i - 1);
    var blk := Block(At(blist, i), b + BLOCK_HDR, e);
    var blocks' := Hook(blocks, prev, b, blk);
    var blist' := blist[..i] + [b] + blist[i..];
    assert Listed(blocks, blist, b);
    if i > 0 {
      assert BlockAt(blocks, blist, i - 1);
    }
    HookLinks(blocks, head, blist, i, b, e);
    HookListed(blocks, blocks', blist, i, b);
    forall a, c
      ensures Apart(blocks', a, c)
    {
      assert Apart(blocks, a, c) && FreshOf(blocks, b, e, a) && FreshOf(blocks, b, e, c);
    }
  }

  lemma UnhookList(blocks: map<nat, Block>, head: nat, blist: seq<nat>, i: nat)
    requires BlocksOk(blocks, head, blist) && i < |blist|
    ensures var b := blist[i];
            var blocks' := Unhook(blocks, At(blist, i - 1), b, At(blist, i + 1));
            && BlocksOk(blocks', if i == 0 then At(blist, 1) else head, blist[..i] + blist[i + 1..])
            && b !in blocks'
            && (forall a :: a in blocks' <==> a in blocks && a != b)
            && (forall a :: SameBounds(blocks, blocks', a))
  {
    var b := blist[i];
    var prev := At(blist, i - 1);
    var blocks' := Unhook(blocks, prev, b, At(blist, i + 1));
    var blist' := blist[..i] + blist[i + 1..];
    assert BlockAt(blocks, blist, i);
    if i > 0 {
      assert BlockAt(blocks, blist, i - 1);
    }
    forall j | 0 <= j < |blist'|
      ensures BlockAt(blocks', blist', j)
    {
      if j < i {
        assert BlockAt(blocks, blist, j) && blist'[j] == blist[j];
        if j + 1 < i {
          assert blist[j] != blist[i - 1];
        }
      } else {
        assert BlockAt(blocks, blist, j + 1) && blist'[j] == blist[j + 1];
        assert i > 0 ==> blist[i - 1] != blist[j + 1];
      }
    }
    forall a
      ensures Listed(blocks', blist', a)
    {
      assert Listed(blocks, blist, a);
      assert blist == blist[..i] + [b] + blist[i + 1..];
    }
    forall a, c
      ensures Apart(blocks', a, c)
    {
      assert Apart(blocks, a, c);
    }
  }

  /** A new block, still empty, enters the list at position `i`. */
  lemma AddBlock(blocks: map<nat, Block>, head: nat, sizes: map<nat, nat>, g: Geo, i: nat, b: nat, e: nat)
    requires GeoOk(blocks, head, sizes, g) && i <= |g.blist| && Fresh(blocks, b, e)
    ensures b !in blocks
    ensures var blk := Block(At(g.blist, i), b + BLOCK_HDR, e);
            GeoOk(Hook(blocks, At(g.blist, i - 1), b, blk), if i == 0 then b else head, sizes,
                  Geo(g.blist[..i] + [b] + g.blist[i..], g.tiles[b := []], g.home))
  {
    HookList(blocks, head, g.blist, i, b, e);
    var blocks' := Hook(blocks, At(g.blist, i - 1), b, Block(At(g.blist, i), b + BLOCK_HDR, e));
    var g' := Geo(g.blist[..i] + [b] + g.blist[i..], g.tiles[b := []], g.home);
    forall a
      ensures TileOk(blocks', sizes, g'.tiles, a)
    {
      assert TileOk(blocks, sizes, g.tiles, a) && SameBounds(blocks, blocks', a);
      if a in blocks && a != b {
        forall j | 0 <= j < |g.tiles[a]|
          ensures BigAt(blocks', sizes, a, g.tiles[a], j)
        {
          assert BigAt(blocks, sizes, a, g.tiles[a], j);
        }
      }
    }
    forall c
      ensures HomeOk(blocks', sizes, g', c)
    {
      assert HomeOk(blocks, sizes, g, c);
    }
  }

  /** The free space of block `b` yields a chunk of `s` bytes. */
  lemma AddChunk(blocks: map<nat, Block>, head: nat, sizes: map<nat, nat>, g: Geo, b: nat, s: nat)
    requires GeoOk(blocks, head, sizes, g) && b in blocks && s % MAX_ALIGNMENT == 0
    requires blocks[b].freeptr + CHUNK_HDR + s <= blocks[b].endptr
    requires s <= CHUNK_LIMIT
             || (b in g.tiles && g.tiles[b] == [] && blocks[b].freeptr + CHUNK_HDR + s == blocks[b].endptr)
    ensures blocks[b].freeptr !in sizes && b in g.tiles
    ensures var c := blocks[b].freeptr;
            GeoOk(blocks[b := blocks[b].(freeptr := c + CHUNK_HDR + s)], head, sizes[c := s],
                  Geo(g.blist, g.tiles[b := g.tiles[b] + [c]], g.home[c := b]))
  {
    var c := blocks[b].freeptr;
    FreshChunk(blocks, head, sizes, g, b, s);
    BlockBounds(blocks, head, g.blist, b);
    var t := g.tiles[b];
    assert TileOk(blocks, sizes, g.tiles, b);
    var blocks', sizes' := blocks[b := blocks[b].(freeptr := c + CHUNK_HDR + s)], sizes[c := s];
    var g' := Geo(g.blist, g.tiles[b := t + [c]], g.home[c := b]);
    SameList(blocks, head, g.blist, b, c + CHUNK_HDR + s);
    forall a
      ensures TileOk(blocks', sizes', g'.tiles, a)
    {
      if a in blocks {
        assert TileOk(blocks, sizes, g.tiles, a);
        if a == b {
          LongerTile(sizes, b + BLOCK_HDR, c, t, s);
          var t' := t + [c];
          forall j | 0 <= j < |t'|
            ensures BigAt(blocks', sizes', b, t', j)
          {
            if j < |t| {
              assert BigAt(blocks, sizes, b, t, j) && t'[j] == t[j];
            }
          }
        } else {
          assert HomeOk(blocks, sizes, g, c);
          TileElsewhere(blocks, sizes, g.tiles, a, blocks', sizes', g'.tiles, c);
        }
      }
    }
    forall d
      ensures HomeOk(blocks', sizes', g', d)
    {
      assert HomeOk(blocks, sizes, g, d);
    }
    forall d
      ensures AlignedAt(sizes', d)
    {
      assert AlignedAt(sizes, d);
    }
  }

  lemma FreshChunk(blocks: map<nat, Block>, head: nat, sizes: map<nat, nat>, g: Geo, b: nat, s: nat)
    requires GeoOk(blocks, head, sizes, g) && b in blocks
    requires blocks[b].freeptr + CHUNK_HDR + s <= blocks[b].endptr
    ensures blocks[b].freeptr !in sizes && b in g.tiles
  {
    var c := blocks[b].freeptr;
    assert TileOk(blocks, sizes, g.tiles, b);
    BlockBounds(blocks, head, g.blist, b);
    assert c in g.home ==> Apart(blocks, g.home[c], b);
    if c in sizes {
      ChunkInBlock(blocks, head, sizes, g, c);
    }
  }

  lemma SameList(blocks: map<nat, Block>, head: nat, blist: seq<nat>, b: nat, f: nat)
    requires BlocksOk(blocks, head, blist) && b in blocks && b + BLOCK_HDR <= f <= blocks[b].endptr
    ensures BlocksOk(blocks[b := blocks[b].(freeptr := f)], head, blist)
  {
    var blocks' := blocks[b := blocks[b].(freeptr := f)];
    forall j | 0 <= j < |blist|
      ensures BlockAt(blocks', blist, j)
    {
      assert BlockAt(blocks, blist, j);
    }
    forall a
      ensures Listed(blocks', blist, a)
    {
      assert Listed(blocks, blist, a);
    }
    forall a, c
      ensures Apart(blocks', a, c)
    {
      assert Apart(blocks, a, c);
    }
  }

  lemma LongerTile(sizes: map<nat, nat>, start: nat, c: nat, t: seq<nat>, s: nat)
    requires Tiled(sizes, start, c, t) && c !in sizes
    ensures Tiled(sizes[c := s], start, c + CHUNK_HDR + s, t + [c])
  {
    var t', sizes', stop := t + [c], sizes[c := s], c + CHUNK_HDR + s;
    forall i | 0 <= i < |t'|
      ensures TileAt(sizes', start, stop, t', i)
    {
      if i < |t| {
        assert TileAt(sizes, start, c, t, i) && t'[i] == t[i];
      }
    }
  }

  /** A block without chunk `c` in it, and with its own bounds unchanged, stays tiled. */
  lemma TileElsewhere(blocks: map<nat, Block>, sizes: map<nat, nat>, tiles: map<nat, seq<nat>>, a: nat,
                      blocks': map<nat, Block>, sizes': map<nat, nat>, tiles': map<nat, seq<nat>>, c: nat)
    requires a in blocks && TileOk(blocks, sizes, tiles, a) && a in tiles && c !in tiles[a]
    requires a in blocks' && SameBounds(blocks, blocks', a)
    requires a in tiles' && tiles'[a] == tiles[a]
    requires forall d :: SameSize(sizes, sizes', c, d)
    ensures TileOk(blocks', sizes', tiles', a)
  {
    var t, start, stop := tiles[a], a + BLOCK_HDR, blocks[a].freeptr;
    forall i | 0 <= i < |t|
      ensures TileAt(sizes', start, stop, t, i) && BigAt(blocks', sizes', a, t, i)
    {
      assert TileAt(sizes, start, stop, t, i) && BigAt(blocks, sizes, a, t, i);
      assert t[i] in t;
      assert SameSize(sizes, sizes', c, t[i]);
    }
  }

  ghost predicate SameSize(sizes: map<nat, nat>, sizes': map<nat, nat>, c: nat, d: nat) {
    d in sizes && d != c ==> d in sizes' && sizes'[d] == sizes[d]
  }

  /** The last chunk of a block takes over `delta` bytes of the free space. */
  lemma GrowChunk(blocks: map<nat, Block>, head: nat, sizes: map<nat, nat>, g: Geo, b: nat, c: nat, s: nat)
    requires GeoOk(blocks, head, sizes, g) && b in blocks && c in sizes && s % MAX_ALIGNMENT == 0
    requires b in g.tiles && g.tiles[b] != [] && g.tiles[b][|g.tiles[b]| - 1] == c
    requires sizes[c] <= s <= CHUNK_LIMIT && c + CHUNK_HDR + s <= blocks[b].endptr
    ensures GeoOk(blocks[b := blocks[b].(freeptr := c + CHUNK_HDR + s)], head, sizes[c := s], g)
  {
    var t, start := g.tiles[b], b + BLOCK_HDR;
    var f := c + CHUNK_HDR + s;
    assert TileOk(blocks, sizes, g.tiles, b) && HomeOk(blocks, sizes, g, c);
    assert TileAt(sizes, b + BLOCK_HDR, blocks[b].freeptr, t, |t| - 1);
    BlockBounds(blocks, head, g.blist, b);
    SameList(blocks, head, g.blist, b, f);
    var blocks', sizes' := blocks[b := blocks[b].(freeptr := f)], sizes[c := s];
    forall a
      ensures TileOk(blocks', sizes', g.tiles, a)
    {
      if a in blocks {
        assert TileOk(blocks, sizes, g.tiles, a);
        if a == b {
          forall i | 0 <= i < |t|
            ensures TileAt(sizes', start, f, t, i) && BigAt(blocks', sizes', b, t, i)
          {
            assert TileAt(sizes, start, blocks[b].freeptr, t, i) && BigAt(blocks, sizes, b, t, i);
            if i < |t| - 1 {
              TileAscends(sizes, b + BLOCK_HDR, blocks[b].freeptr, t, i, |t| - 1);
            }
          }
        } else {
          assert c !in g.tiles[a];
          TileElsewhere(blocks, sizes, g.tiles, a, blocks', sizes', g.tiles, c);
        }
      }
    }
    forall d
      ensures HomeOk(blocks', sizes', g, d)
    {
      assert HomeOk(blocks, sizes, g, d);
    }
    forall d
      ensures AlignedAt(sizes', d)
    {
      assert AlignedAt(sizes, d);
    }
  }

  /** A block that holds nothing but chunk `c` leaves the set with it. */
  lemma DropBlock(blocks: map<nat, Block>, head: nat, sizes: map<nat, nat>, g: Geo, i: nat, c: nat)
    requires GeoOk(blocks, head, sizes, g) && i < |g.blist| && c in sizes
    requires g.blist[i] in g.tiles && g.tiles[g.blist[i]] == [c]
    ensures var b := g.blist[i];
            GeoOk(Unhook(blocks, At(g.blist, i - 1), b, At(g.blist, i + 1)), if i == 0 then At(g.blist, 1) else head,
                  sizes - {c}, Geo(g.blist[..i] + g.blist[i + 1..], g.tiles - {b}, g.home - {c}))
  {
    var b := g.blist[i];
    UnhookList(blocks, head, g.blist, i);
    var blocks' := Unhook(blocks, At(g.blist, i - 1), b, At(g.blist, i + 1));
    var sizes' := sizes - {c};
    var g' := Geo(g.blist[..i] + g.blist[i + 1..], g.tiles - {b}, g.home - {c});
    assert HomeOk(blocks, sizes, g, c) && c in g.tiles[b];
    forall a
      ensures TileOk(blocks', sizes', g'.tiles, a)
    {
      if a in blocks' {
        assert TileOk(blocks, sizes, g.tiles, a) && SameBounds(blocks, blocks', a);
        TileElsewhere(blocks, sizes, g.tiles, a, blocks', sizes', g'.tiles, c);
      }
    }
    forall d
      ensures HomeOk(blocks', sizes', g', d)
    {
      assert HomeOk(blocks, sizes, g, d);
    }
    forall d
      ensures AlignedAt(sizes', d)
    {
      assert AlignedAt(sizes, d);
    }
  }

  /** A chunk above the limit is the first and only one of a full block. */
  lemma BigChunkAlone(blocks: map<nat, Block>, head: nat, sizes: map<nat, nat>, g: Geo, c: nat)
    requires GeoOk(blocks, head, sizes, g) && c in sizes && sizes[c] > CHUNK_LIMIT
    ensures c >= BLOCK_HDR
    ensures var b: nat := c - BLOCK_HDR;
            && b in blocks && b in g.tiles && g.tiles[b] == [c]
            && blocks[b].freeptr == blocks[b].endptr == b + BLOCK_HDR + CHUNK_HDR + sizes[c]
  {
    assert HomeOk(blocks, sizes, g, c);
    var b: nat := g.home[c];
    assert TileOk(blocks, sizes, g.tiles, b);
    var i :| 0 <= i < |g.tiles[b]| && g.tiles[b][i] == c;
    assert BigAt(blocks, sizes, b, g.tiles[b], i);
    assert TileAt(sizes, b + BLOCK_HDR, blocks[b].freeptr, g.tiles[b], i);
  }
}
