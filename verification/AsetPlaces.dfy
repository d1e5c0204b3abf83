/** Where an allocation set puts a chunk, and what becomes of the rest: the
    states before and after each kind of request and release. */
module AsetPlaces {
  import opened Bits
  import opened AsetGeometry
  import opened AsetChunks
  import opened AsetSteps
  import opened Lists
  import opened Storage

  /** The active block has room for a chunk of `n` bytes. */
  predicate HasRoom(s: Set, n: nat) {
    s.head != 0 && s.head in s.blocks && s.blocks[s.head].freeptr + n + CHUNK_HDR <= s.blocks[s.head].endptr
  }

  /** A request is met by the chunk released last in its class; without one, at
      the free pointer of the active block if there is room, and otherwise by the
      first chunk of a block that was not there. A large one has its own block. */
  ghost predicate PlacedAt(s: Set, size: nat, p: nat) {
    var k, n := Index(size), ClassBytes(Index(size));
    if size > CHUNK_LIMIT then p >= BLOCK_HDR + CHUNK_HDR && p - BLOCK_HDR - CHUNK_HDR !in s.blocks
    else if k >= |s.freelist| then false
    else if s.freelist[k] != 0 then p == s.freelist[k] + CHUNK_HDR
    else if HasRoom(s, n) then p == s.blocks[s.head].freeptr + CHUNK_HDR
    else p >= BLOCK_HDR + CHUNK_HDR && p - BLOCK_HDR - CHUNK_HDR !in s.blocks
  }

  /** Of all chunks only `c` is another one, or new. */
  ghost predicate OnlyChunk(s: Set, s': Set, c: nat) {
    c in s'.chunks && s'.chunks == s.chunks[c := s'.chunks[c]] && s'.keeper == s.keeper
  }

  /** The first chunk of free list `k` left it; no block has changed. */
  ghost predicate Recycled(s: Set, s': Set, k: nat) {
    && k < |s.freelist| && s.freelist[k] in s.chunks && s.chunks[s.freelist[k]].link.Free?
    && OnlyChunk(s, s', s.freelist[k])
    && s'.blocks == s.blocks && s'.head == s.head
    && s'.freelist == s.freelist[k := s.chunks[s.freelist[k]].link.next]
  }

  /** The active block gave `n` bytes and a header from its free space. */
  ghost predicate FromActive(s: Set, s': Set, n: nat) {
    && s.head in s.blocks
    && var c := s.blocks[s.head].freeptr;
    && c !in s.chunks && OnlyChunk(s, s', c)
    && s'.blocks == s.blocks[s.head := s.blocks[s.head].(freeptr := c + CHUNK_HDR + n)] && s'.head == s.head
    && s'.freelist == s.freelist
  }

  /** Chunk `c` became the first of the free list of its class, without a
      request and wiped; no block has changed. */
  ghost predicate PutBack(s: Set, s': Set, c: nat) {
    && c in s.chunks
    && var k := Index(s.chunks[c].size);
    && k < |s.freelist| && OnlyChunk(s, s', c)
    && s'.chunks[c] == Chunk(Free(s.freelist[k]), s.chunks[c].size, 0, s'.chunks[c].data)
    && (forall i :: 0 <= i < |s'.chunks[c].data| ==> s'.chunks[c].data[i] == WIPED)
    && s'.blocks == s.blocks && s'.head == s.head && s'.freelist == s.freelist[k := c]
  }

  /** Every block but `b` has its old boundaries. */
  ghost predicate BoundsBut(blocks: map<nat, Block>, blocks': map<nat, Block>, b: nat) {
    forall a :: a != b ==> (a in blocks <==> a in blocks') && SameBounds(blocks, blocks', a)
  }

  /** Block `b` with one chunk of `n` bytes, which fills it, entered the list at
      place `i`. */
  ghost predicate OwnBlock(s: Set, o: seq<nat>, s': Set, o': seq<nat>, i: nat, b: nat, n: nat) {
    && b !in s.blocks && b in s'.blocks && i <= |o| && o' == o[..i] + [b] + o[i..]
    && s'.blocks[b].freeptr == s'.blocks[b].endptr == b + BLOCK_HDR + CHUNK_HDR + n
    && BoundsBut(s.blocks, s'.blocks, b) && OnlyChunk(s, s', b + BLOCK_HDR) && s'.freelist == s.freelist
  }

  /** The block at place `i` of the list is gone with its one chunk `c`. */
  ghost predicate BlockGone(s: Set, o: seq<nat>, s': Set, o': seq<nat>, i: nat, c: nat) {
    && i < |o| && o[i] + BLOCK_HDR == c && o' == Without(o, i)
    && o[i] !in s'.blocks && BoundsBut(s.blocks, s'.blocks, o[i])
    && s'.chunks == s.chunks - {c} && s'.freelist == s.freelist && s'.keeper == s.keeper
  }

  ghost predicate SomeBlockGone(s: Set, o: seq<nat>, s': Set, o': seq<nat>, c: nat) {
    exists i :: BlockGone(s, o, s', o', i, c)
  }

  ghost predicate SomeBlockMoved(s: Set, o: seq<nat>, s': Set, o': seq<nat>, c: nat, b: nat, n: nat) {
    exists i :: BlockMoved(s, o, s', o', i, c, b, n)
  }

  /** The block at place `i` of the list, with the one chunk `c`, was replaced by
      block `b`, which one chunk of `n` bytes fills. */
  ghost predicate BlockMoved(s: Set, o: seq<nat>, s': Set, o': seq<nat>, i: nat, c: nat, b: nat, n: nat) {
    && i < |o| && o[i] + BLOCK_HDR == c && o' == o[i := b] && b in s'.blocks
    && s'.blocks[b].freeptr == s'.blocks[b].endptr == b + BLOCK_HDR + CHUNK_HDR + n
    && (forall a :: a != b && a != o[i] ==> (a in s.blocks <==> a in s'.blocks) && SameBounds(s.blocks, s'.blocks, a))
    && b + BLOCK_HDR in s'.chunks
    && s'.chunks == (s.chunks - {c})[b + BLOCK_HDR := s'.chunks[b + BLOCK_HDR]]
    && s'.freelist == s.freelist && s'.keeper == s.keeper
  }

  /** Dropping a block and putting another one in its place. */
  lemma GoneAndBack(s: Set, o: seq<nat>, s1: Set, o1: seq<nat>, s2: Set, o2: seq<nat>, i: nat, c: nat, b: nat, n: nat)
    requires BlockGone(s, o, s1, o1, i, c) && OwnBlock(s1, o1, s2, o2, i, b, n)
    ensures BlockMoved(s, o, s2, o2, i, c, b, n)
  {
  }

  /** The last chunk `c` of the active block grew to `n` bytes over its free space. */
  ghost predicate GrewInPlace(s: Set, s': Set, c: nat, n: nat) {
    && s.head in s.blocks && OnlyChunk(s, s', c) && s'.chunks[c].size == n
    && s'.blocks == s.blocks[s.head := s.blocks[s.head].(freeptr := c + CHUNK_HDR + n)] && s'.head == s.head
    && s'.freelist == s.freelist
  }

  // ---------- carving up what is left of a block ----------

  /** The free lists and the free pointer after pieces of the given classes were
      carved at `at`, each the first of its list. */
  ghost function Carved(f: seq<nat>, at: nat, pieces: seq<nat>): (r: (seq<nat>, nat))
    ensures |r.0| == |f|
  {
    if pieces == [] then (f, at)
    else
      var (f1, at1) := Carved(f, at, pieces[..|pieces| - 1]);
      var j := pieces[|pieces| - 1];
      (if j < |f1| then f1[j := at1] else f1, at1 + CHUNK_HDR + ClassBytes(j))
  }

  /** Class `j` is the largest that fits from `at` to `end` with its header. */
  ghost predicate LargestFit(at: nat, end: nat, j: nat) {
    at + CHUNK_HDR + ClassBytes(j) <= end < at + CHUNK_HDR + 2 * ClassBytes(j)
  }

  /** Each piece is of the largest class that fits what is left. */
  ghost predicate Greedy(f: seq<nat>, at: nat, end: nat, pieces: seq<nat>) {
    pieces == [] || (var front := pieces[..|pieces| - 1];
                     Greedy(f, at, end, front) && LargestFit(Carved(f, at, front).1, end, pieces[|pieces| - 1]))
  }

  lemma CarvedStep(f: seq<nat>, at: nat, end: nat, pieces: seq<nat>, j: nat)
    requires Greedy(f, at, end, pieces) && LargestFit(Carved(f, at, pieces).1, end, j) && j < |f|
    ensures Greedy(f, at, end, pieces + [j])
    ensures var (f1, at1) := Carved(f, at, pieces);
            Carved(f, at, pieces + [j]) == (f1[j := at1], at1 + CHUNK_HDR + ClassBytes(j))
  {
    assert (pieces + [j])[..|pieces|] == pieces;
  }

  /** The classes carved strictly descend. */
  lemma GreedyDescends(f: seq<nat>, at: nat, end: nat, pieces: seq<nat>)
    requires Greedy(f, at, end, pieces) && |pieces| >= 2
    ensures pieces[|pieces| - 1] < pieces[|pieces| - 2]
  {
    var n := |pieces| - 1;
    var i, j := pieces[n - 1], pieces[n];
    assert pieces[..n][..n - 1] == pieces[..n - 1] && pieces[..n][n - 1] == i;
    if i <= j {
      Pow2Monotone(i, j);
    }
  }

  /** What is left from `at` to `end` is too small for any piece. */
  ghost predicate CarvedUp(f: seq<nat>, at: nat, f': seq<nat>, at': nat, end: nat) {
    end < at' + CHUNK_HDR + ClassBytes(0)
    && exists pieces :: Greedy(f, at, end, pieces) && Carved(f, at, pieces) == (f', at')
  }

  /** The free space of the old active block was carved up, and block `b` is the
      new active one, with a chunk of `n` bytes at its start. */
  ghost predicate NewActive(s: Set, s': Set, b: nat, n: nat) {
    && b !in s.blocks && s'.head == b && b in s'.blocks && s'.keeper == s.keeper
    && s'.blocks[b].next == s.head && s'.blocks[b].freeptr == b + BLOCK_HDR + CHUNK_HDR + n
    && (forall a :: a != b && a != s.head ==> OtherBlock(s.blocks, s'.blocks, a))
    && if s.head == 0 then s'.freelist == s.freelist
       else
         && s.head in s.blocks && s.head in s'.blocks
         && var was, now := s.blocks[s.head], s'.blocks[s.head];
         && now == was.(freeptr := now.freeptr)
         && CarvedUp(s.freelist, was.freeptr, s'.freelist, now.freeptr, was.endptr)
  }

  ghost predicate OtherBlock(blocks: map<nat, Block>, blocks': map<nat, Block>, a: nat) {
    (a in blocks <==> a in blocks') && (a in blocks && a in blocks' ==> blocks'[a] == blocks[a])
  }

  /** A chunk released and requested again at once is the same chunk, and its
      class is as it was. */
  lemma BackAndForth(s: Set, s1: Set, s2: Set, c: nat, size: nat, p: nat)
    requires PutBack(s, s1, c) && c != 0 && Index(size) == Index(s.chunks[c].size) && size <= CHUNK_LIMIT
    requires PlacedAt(s1, size, p) && (s1.freelist[Index(size)] != 0 ==> Recycled(s1, s2, Index(size)))
    ensures p == c + CHUNK_HDR && s2 == s.(chunks := s2.chunks) && OnlyChunk(s, s2, c)
  {
    assert s2.freelist == s.freelist;
  }
}
