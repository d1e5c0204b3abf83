/** The allocation-set memory context: power-of-two free lists, blocks that
    double in size, dedicated blocks for large requests, and a keeper block
    that survives a reset. */
module AllocSet {
  import opened Bits
  import opened AsetGeometry
  import opened AsetChunks
  import opened AsetPlaces
  import opened AsetSteps
  import opened AsetStats
  import opened Lists
  import opened Storage

  const MEGABYTE: nat := 1024 * 1024

  /** The operating system: where `malloc` puts a block of a given size (0: out
      of memory), and what uninitialised memory happens to hold. */
  datatype Os = Os(malloc: nat -> nat, memory: nat -> nat)

  /** `malloc` fails or returns aligned memory that no block occupies. */
  ghost predicate Grants(blocks: map<nat, Block>, os: Os, n: nat) {
    var a := os.malloc(n);
    n < BLOCK_HDR || a == 0 || Fresh(blocks, a, a + n)
  }

  ghost predicate Honest(blocks: map<nat, Block>, os: Os) {
    forall n :: Grants(blocks, os, n)
  }

  /** The system refuses a block of `size` bytes, and, while that is more than a
      megabyte, of every size it is halved to that is still large enough. */
  predicate AllRefused(os: Os, size: nat, required: nat)
    decreases size
  {
    os.malloc(size) == 0 && (size > MEGABYTE && size / 2 >= required ==> AllRefused(os, size / 2, required))
  }

  /** `got` is the first size that the system grants as it is asked for `size`
      bytes, and then for half as many at a time. */
  predicate FirstGranted(os: Os, size: nat, required: nat, got: nat)
    decreases size
  {
    if os.malloc(size) != 0 then got == size
    else size > MEGABYTE && size / 2 >= required && FirstGranted(os, size / 2, required, got)
  }

  /** The size of the next regular block: the initial size at first and behind a
      small block, else twice the size of the active block within the maximum,
      and always what is required. */
  function FirstWish(headSize: nat, init: nat, max: nat, required: nat): (size: nat)
    ensures size >= required && (init <= max ==> size == required || size <= max)
    ensures headSize < init && required <= init ==> size == init
  {
    var size := if headSize == 0 || headSize < init then init else if headSize * 2 > max then max else headSize * 2;
    if size < required then required else size
  }

  /** The size of the `k`-th regular block of a set whose requests never need more. */
  function RegularSize(k: nat, init: nat, max: nat): nat {
    FirstWish(if k == 0 then 0 else RegularSize(k - 1, init, max), init, max, 0)
  }

  /** Regular blocks double from the initial to the maximal size. */
  lemma {:induction false} BlocksDouble(k: nat, init: nat, max: nat)
    requires 0 < init <= max
    ensures RegularSize(k, init, max) == if init * Pow2(k) <= max then init * Pow2(k) else max
  {
    if k > 0 {
      BlocksDouble(k - 1, init, max);
      Doubled(init, Pow2(k - 1));
    }
  }

  lemma Doubled(init: nat, p: nat)
    requires p >= 1
    ensures init * (2 * p) == 2 * (init * p) && init * p >= init
  {
    MulMonotone(1, p, init);
    assert init * p == p * init;
  }

  /** A block is no smaller than required, however small the wish. */
  lemma RequiredSize(headSize: nat, init: nat, max: nat, required: nat)
    ensures FirstWish(headSize, init, max, required)
            == if FirstWish(headSize, init, max, 0) < required then required else FirstWish(headSize, init, max, 0)
  {
  }

  function HeadSize(s: Set): nat {
    SizeOf(s.blocks, s.head)
  }

  /** The size of block `b`, 0 if there is none. */
  function SizeOf(blocks: map<nat, Block>, b: nat): nat {
    if b != 0 && b in blocks && b <= blocks[b].endptr then blocks[b].endptr - b else 0
  }

  /** A request that the set cannot meet: the system refuses the block for a
      large chunk; or no chunk of the class is free, the active block has no
      room, and the system refuses every size of block that is tried. */
  predicate Starved(s: Set, init: nat, max: nat, size: nat, os: Os) {
    if size > CHUNK_LIMIT then os.malloc(AlignUp(size, MAX_ALIGNMENT) + BLOCK_HDR + CHUNK_HDR) == 0
    else
      var k := Index(size);
      var n := ClassBytes(k);
      && k < |s.freelist| && s.freelist[k] == 0 && !HasRoom(s, n)
      && AllRefused(os, FirstWish(HeadSize(s), init, max, n + BLOCK_HDR + CHUNK_HDR), n + BLOCK_HDR + CHUNK_HDR)
  }

  /** The last chunk of the active block can grow in place to hold `size` bytes. */
  predicate GrowsInPlace(s: Set, c: nat, size: nat) {
    && size <= CHUNK_LIMIT && s.head in s.blocks && c in s.chunks
    && c + CHUNK_HDR + s.chunks[c].size == s.blocks[s.head].freeptr
    && c + CHUNK_HDR + ClassBytes(Index(size)) <= s.blocks[s.head].endptr
  }

  function Junk(os: Os, a: nat, n: nat): (d: seq<nat>)
    ensures |d| == n
  {
    seq<nat>(n, i requires 0 <= i < n => os.memory(a + i))
  }

  /** Sets the sentinel just behind the request. */
  function Stamp(data: seq<nat>, size: nat): (d: seq<nat>)
    ensures |d| == |data|
    ensures size < |data| ==> d[size] == MARK
    ensures forall i :: 0 <= i < |data| && i != size ==> d[i] == data[i]
  {
    if size < |data| then data[size := MARK] else data
  }

  /** A chunk in use for a request of `size` bytes. */
  function InUse(size: nat, data: seq<nat>): (k: Chunk)
    ensures size <= |data| ==> Marked(k) && |Visible(k)| == size && Visible(k) == data[..size]
  {
    Chunk(Owner, |data|, size, Stamp(data, size))
  }

  ghost predicate TooSmall(chunks: map<nat, Chunk>, list: seq<nat>, size: nat, j: nat)
    requires j < |list|
  {
    list[j] in chunks && chunks[list[j]].size < size
  }

  /** Walks a free list for the first chunk that is large enough. */
  method FindFree(chunks: map<nat, Chunk>, first: nat, size: nat, ghost list: seq<nat>)
    returns (chunk: nat, prior: nat, ghost i: nat)
    requires Threaded(chunks, first, list)
    ensures i <= |list| && chunk == At(list, i) && prior == At(list, i - 1)
    ensures chunk != 0 <==> i < |list|
    ensures chunk != 0 ==> chunk in chunks && chunks[chunk].size >= size
    ensures forall j :: 0 <= j < i ==> TooSmall(chunks, list, size, j)
  {
    chunk, prior, i := first, 0, 0;
    assert |list| > 0 ==> ThreadAt(chunks, list, 0);
    while chunk != 0 && chunks[chunk].size < size
      invariant i <= |list| && chunk == At(list, i) && prior == At(list, i - 1)
      invariant chunk != 0 <==> i < |list|
      invariant chunk != 0 ==> chunk in chunks
      invariant forall j :: 0 <= j < i ==> TooSmall(chunks, list, size, j)
      decreases |list| - i
    {
      assert ThreadAt(chunks, list, i);
      assert TooSmall(chunks, list, size, i);
      assert i + 1 < |list| ==> ThreadAt(chunks, list, i + 1);
      prior := chunk;
      chunk := chunks[chunk].link.next;
      i := i + 1;
    }
  }

  /** A free list of the right class satisfies the request with its first chunk. */
  lemma FirstFits(s: Set, g: Shadow, size: nat, k: nat, i: nat)
    requires SetOk(s, g, 0) && k == Index(size) < NUM_FREELISTS && i <= |g.lists[k]|
    requires forall j :: 0 <= j < i ==> TooSmall(s.chunks, g.lists[k], size, j)
    ensures i == 0
  {
    assert i > 0 ==> TooSmall(s.chunks, g.lists[k], size, 0);
    assert ListOk(s.chunks, s.freelist, g.lists, k);
    if i > 0 {
      var c := g.lists[k][0];
      assert c in g.lists[k] && HoldsClass(s.chunks, g.lists, k, c) && ChunkAt(s.chunks, c);
      IndexLeast(size);
    }
  }

  /** Looks through the block list for the block whose first chunk is `c`. */
  method FindBlock(blocks: map<nat, Block>, head: nat, c: nat, ghost blist: seq<nat>)
    returns (block: nat, prev: nat, ghost i: nat)
    requires BlocksOk(blocks, head, blist)
    ensures i <= |blist| && block == At(blist, i) && prev == At(blist, i - 1)
    ensures block != 0 ==> i < |blist| && block in blocks && c == block + BLOCK_HDR
    ensures block == 0 ==> forall b :: b in blocks ==> c != b + BLOCK_HDR
  {
    block, prev, i := head, 0, 0;
    assert |blist| > 0 ==> BlockAt(blocks, blist, 0);
    while block != 0 && c != block + BLOCK_HDR
      invariant i <= |blist| && block == At(blist, i) && prev == At(blist, i - 1)
      invariant block != 0 <==> i < |blist|
      invariant block != 0 ==> block in blocks
      invariant forall j :: 0 <= j < i ==> c != blist[j] + BLOCK_HDR
      decreases |blist| - i
    {
      assert BlockAt(blocks, blist, i);
      assert i + 1 < |blist| ==> BlockAt(blocks, blist, i + 1);
      prev := block;
      block := blocks[block].next;
      i := i + 1;
    }
    if block == 0 {
      forall b | b in blocks
        ensures c != b + BLOCK_HDR
      {
        assert Listed(blocks, blist, b);
      }
    }
  }

  /** Sizes the next regular block from the current head, between the initial
      and the maximal size and never below what is required; halves the wish
      while memory is short and more than a megabyte is wanted. */
  method ObtainBlock(headSize: nat, init: nat, max: nat, required: nat, os: Os) returns (block: nat, size: nat)
    ensures block != 0 ==> block == os.malloc(size) && required <= size
    ensures block != 0 ==> FirstGranted(os, FirstWish(headSize, init, max, required), required, size)
    ensures block != 0 && init <= max ==> size == required || size <= max
    ensures block == 0 <==> AllRefused(os, FirstWish(headSize, init, max, required), required)
  {
    size := FirstWish(headSize, init, max, required);
    ghost var wish, refused := size, AllRefused(os, size, required);
    block := os.malloc(size);
    while block == 0 && size > MEGABYTE
      invariant block == os.malloc(size) && required <= size && (init <= max ==> size == required || size <= max)
      invariant refused <==> AllRefused(os, size, required)
      invariant FirstGranted(os, size, required, size) ==> FirstGranted(os, wish, required, size)
      invariant forall n :: FirstGranted(os, size, required, n) ==> FirstGranted(os, wish, required, n)
      decreases size
    {
      if size / 2 < required {
        break;
      }
      size := size / 2;
      block := os.malloc(size);
    }
  }

  /** Block `a` has been dealt with if it is among the first `i`. */
  ghost predicate ReleasedAt(blocks: map<nat, Block>, cur: map<nat, Block>, blist: seq<nat>, i: nat, keeper: nat,
                             a: nat)
    requires i <= |blist|
  {
    && (a in cur <==> a in blocks && (a in blist[..i] ==> a == keeper))
    && (a in cur ==> cur[a] == if a in blist[..i] then Block(0, a + BLOCK_HDR, blocks[a].endptr) else blocks[a])
  }

  /** Gives every block back to the system, except that the keeper is emptied. */
  method ReleaseBlocks(blocks: map<nat, Block>, head: nat, keeper: nat, ghost blist: seq<nat>)
    returns (cur: map<nat, Block>)
    requires BlocksOk(blocks, head, blist)
    requires keeper != 0 ==> keeper in blocks
    ensures cur == if keeper == 0 then map[] else map[keeper := Block(0, keeper + BLOCK_HDR, blocks[keeper].endptr)]
  {
    var block := head;
    ghost var i := 0;
    cur := blocks;
    assert |blist| > 0 ==> BlockAt(blocks, blist, 0);
    while block != 0
      invariant i <= |blist| && block == At(blist, i)
      invariant block != 0 <==> i < |blist|
      invariant forall a :: ReleasedAt(blocks, cur, blist, i, keeper, a)
      decreases |blist| - i
    {
      ghost var before := cur;
      assert BlockAt(blocks, blist, i) && ReleasedAt(blocks, cur, blist, i, keeper, block);
      assert i + 1 < |blist| ==> BlockAt(blocks, blist, i + 1);
      var next := cur[block].next;
      cur := if block == keeper then cur[block := cur[block].(freeptr := block + BLOCK_HDR, next := 0)]
        else cur - {block};
      assert blist[..i + 1] == blist[..i] + [block];
      i := i + 1;
      forall a
        ensures ReleasedAt(blocks, cur, blist, i, keeper, a)
      {
        assert ReleasedAt(blocks, before, blist, i - 1, keeper, a);
      }
      block := next;
    }
    assert blist[..i] == blist;
    forall a
      ensures a in cur <==> keeper != 0 && a == keeper
    {
      assert ReleasedAt(blocks, cur, blist, i, keeper, a) && Listed(blocks, blist, a);
      if a in blocks {
        BlockBounds(blocks, head, blist, a);
      }
    }
    assert keeper != 0 ==> ReleasedAt(blocks, cur, blist, i, keeper, keeper) && Listed(blocks, blist, keeper);
  }

  class AllocSetContext {
    var blocks: map<nat, Block>
    var head: nat
    var chunks: map<nat, Chunk>
    var freelist: seq<nat>
    var keeper: nat
    const initBlockSize: nat
    const maxBlockSize: nat
    ghost var g: Shadow

    function State(): Set
      reads this
    {
      Set(blocks, head, chunks, freelist, keeper)
    }

    ghost predicate Valid()
      reads this
    {
      SetOk(State(), g, 0) && 1024 <= initBlockSize <= maxBlockSize
    }

    /** The blocks in the order of their list, the active one first. */
    ghost function Order(): seq<nat>
      reads this
    {
      g.geo.blist
    }

    /** The chunks in use, by header address. */
    ghost function Live(): map<nat, Chunk>
      reads this
    {
      LiveOf(chunks)
    }

    /** alloc_set_context_create: an empty set, with a keeper if one is asked for.
        Without memory for the keeper the context exists without one. */
    constructor (minContextSize: nat, init: nat, max: nat, os: Os)
      requires Honest(map[], os)
      ensures Valid() && Live() == map[] && chunks == map[]
      ensures keeper != 0 ==> minContextSize > BLOCK_HDR + CHUNK_HDR && blocks.Keys == {keeper} && head == keeper
                              && blocks[keeper].endptr == keeper + AlignUp(minContextSize, MAX_ALIGNMENT)
      ensures keeper == if minContextSize > BLOCK_HDR + CHUNK_HDR
              then os.malloc(AlignUp(minContextSize, MAX_ALIGNMENT)) else 0
      ensures initBlockSize % MAX_ALIGNMENT == 0 && init <= initBlockSize && max <= maxBlockSize
      ensures 1024 <= initBlockSize <= maxBlockSize
      ensures initBlockSize == 1024 || initBlockSize < init + MAX_ALIGNMENT
      ensures maxBlockSize == initBlockSize || (maxBlockSize < max + MAX_ALIGNMENT && maxBlockSize % MAX_ALIGNMENT == 0)
      ensures freelist == seq(NUM_FREELISTS, _ => 0)
    {
      var lo := AlignUp(init, MAX_ALIGNMENT);
      lo := if lo < 1024 then 1024 else lo;
      var hi := AlignUp(max, MAX_ALIGNMENT);
      initBlockSize := lo;
      maxBlockSize := if hi < lo then lo else hi;
      var k := 0;
      var n := AlignUp(minContextSize, MAX_ALIGNMENT);
      if minContextSize > BLOCK_HDR + CHUNK_HDR {
        k := os.malloc(n);
        assert Grants(map[], os, n);
      }
      var s := Emptied(k, k + (if n < BLOCK_HDR then BLOCK_HDR else n));
      blocks, head, chunks, freelist, keeper := s.blocks, s.head, s.chunks, s.freelist, s.keeper;
      g := EmptyShadow(k);
      EmptyStep(k, k + (if n < BLOCK_HDR then BLOCK_HDR else n));
    }

    /** Writes the changed fields back. */
    method Install(s': Set, ghost g': Shadow)
      requires Valid() && SetOk(s', g', 0)
      modifies this
      ensures Valid() && State() == s' && g == g'
    {
      blocks, head, chunks, freelist, keeper := s'.blocks, s'.head, s'.chunks, s'.freelist, s'.keeper;
      g := g';
    }

    /** A request above the limit gets a block of its own, put underneath the
        active block so that the space left there stays in use. */
    method AllocBig(size: nat, os: Os) returns (p: nat)
      requires Valid() && Honest(blocks, os) && size > CHUNK_LIMIT
      modifies this
      ensures Valid() && keeper == old(keeper)
      ensures p == 0 <==> os.malloc(AlignUp(size, MAX_ALIGNMENT) + BLOCK_HDR + CHUNK_HDR) == 0
      ensures p == 0 ==> State() == old(State())
      ensures p != 0 ==> Allocated(old(chunks), chunks, p, size) && PlacedAt(old(State()), size, p)
      ensures p != 0 ==> p == os.malloc(AlignUp(size, MAX_ALIGNMENT) + BLOCK_HDR + CHUNK_HDR) + BLOCK_HDR + CHUNK_HDR
      ensures p != 0 ==> OwnBlock(old(State()), old(Order()), State(), Order(), if old(Order()) == [] then 0 else 1,
                                  p - BLOCK_HDR - CHUNK_HDR, AlignUp(size, MAX_ALIGNMENT))
    {
      var s := AlignUp(size, MAX_ALIGNMENT);
      var n := s + BLOCK_HDR + CHUNK_HDR;
      var b := os.malloc(n);
      assert Grants(blocks, os, n);
      if b == 0 {
        return 0;
      }
      ghost var i := if head == 0 then 0 else 1;
      HeadFacts(State(), g);
      var data := Junk(os, b + BLOCK_HDR + CHUNK_HDR, s);
      ghost var s', g' := BigAllocated(State(), g, i, b, size, data);
      Install(WithBig(State(), head, b, if head == 0 then 0 else blocks[head].next, InUse(size, data)), g');
      p := b + BLOCK_HDR + CHUNK_HDR;
    }

    /** Puts one piece of the active block's free space on a free list. */
    method CarvePiece(avail: nat, os: Os, ghost r: nat) returns (left: nat, ghost j: nat)
      requires Valid() && head != 0 && head in blocks && avail == blocks[head].endptr - blocks[head].freeptr
      requires 16 + CHUNK_HDR <= avail < CHUNK_HDR + ClassBytes(r) && r <= 9
      modifies this
      ensures Valid() && Live() == old(Live()) && head == old(head) && keeper == old(keeper)
      ensures head in blocks && left == blocks[head].endptr - blocks[head].freeptr
      ensures r > 0 && left < CHUNK_HDR + ClassBytes(r - 1) && left < avail
      ensures var c := old(blocks)[head].freeptr;
              && j < |old(freelist)| && LargestFit(c, old(blocks)[head].endptr, j)
              && freelist == old(freelist)[j := c]
              && blocks == old(blocks)[head := old(blocks)[head].(freeptr := c + CHUNK_HDR + ClassBytes(j))]
    {
      var fidx := ChoosePiece(avail - CHUNK_HDR, r);
      j := fidx;
      var n, c := ClassBytes(fidx), blocks[head].freeptr;
      HeadFacts(State(), g);
      var data := Junk(os, c + CHUNK_HDR, n);
      ClassAtMost(n);
      CarveFree(State(), g, head, fidx, n, data);
      Install(WithChunk(State(), head, Chunk(Free(freelist[fidx]), n, 0, data)).(freelist := freelist[fidx := c]),
              ChunkShadow(State(), g, head).(lists := g.lists[j := [c] + g.lists[j]]));
      left := avail - n - CHUNK_HDR;
    }

    /** Carves what is left of the active block into strictly smaller pieces,
        at most one for each free list but the last. */
    method CarveTail(os: Os) returns (ghost pieces: seq<nat>)
      requires Valid() && head != 0 && head in blocks
      requires blocks[head].endptr - blocks[head].freeptr < CHUNK_HDR + CHUNK_LIMIT
      modifies this
      ensures Valid() && Live() == old(Live()) && head == old(head) && keeper == old(keeper)
      ensures head in blocks && blocks[head].endptr - blocks[head].freeptr < 16 + CHUNK_HDR
      ensures |pieces| <= NUM_FREELISTS - 1
      ensures TailCarved(old(blocks), old(freelist), pieces)
    {
      HeadFacts(State(), g);
      ClassLimit();
      var avail := blocks[head].endptr - blocks[head].freeptr;
      pieces := [];
      while avail >= 16 + CHUNK_HDR
        invariant Valid() && Live() == old(Live()) && head == old(head) && keeper == old(keeper)
        invariant head in blocks && avail == blocks[head].endptr - blocks[head].freeptr
        invariant |pieces| <= 9 && 0 <= avail < CHUNK_HDR + ClassBytes(9 - |pieces|)
        invariant TailCarved(old(blocks), old(freelist), pieces)
        decreases avail
      {
        ghost var j;
        avail, j := CarvePiece(avail, os, 9 - |pieces|);
        CarvedStep(old(freelist), old(blocks)[head].freeptr, old(blocks)[head].endptr, pieces, j);
        pieces := pieces + [j];
      }
    }

    /** The pieces were carved from the free space of the active block; no other
        block has changed. */
    ghost predicate TailCarved(before: map<nat, Block>, lists: seq<nat>, pieces: seq<nat>)
      reads this
    {
      && head in before && head in blocks
      && var was := before[head];
      && Greedy(lists, was.freeptr, was.endptr, pieces)
      && Carved(lists, was.freeptr, pieces) == (freelist, blocks[head].freeptr)
      && blocks == before[head := was.(freeptr := blocks[head].freeptr)]
    }

    /** Carves a chunk for the client from the active block. */
    method AllocFromActive(size: nat, n: nat, os: Os) returns (p: nat)
      requires Valid() && size <= CHUNK_LIMIT && n == ClassBytes(Index(size))
      requires head != 0 && head in blocks && blocks[head].freeptr + n + CHUNK_HDR <= blocks[head].endptr
      modifies this
      ensures Valid() && keeper == old(keeper) && p != 0 && Allocated(old(chunks), chunks, p, size)
      ensures p == old(blocks)[old(head)].freeptr + CHUNK_HDR && FromActive(old(State()), State(), n)
    {
      var c := blocks[head].freeptr;
      var k := InUse(size, Junk(os, c + CHUNK_HDR, n));
      HeadFacts(State(), g);
      ActiveAllocated(State(), g, size, Junk(os, c + CHUNK_HDR, n));
      Install(WithChunk(State(), head, k), ChunkShadow(State(), g, head));
      p := c + CHUNK_HDR;
    }

    /** Starts a new active block and carves the chunk from it. */
    method AllocFromNew(size: nat, n: nat, os: Os) returns (p: nat)
      requires Valid() && Honest(blocks, os) && size <= CHUNK_LIMIT && n == ClassBytes(Index(size))
      modifies this
      ensures Valid() && keeper == old(keeper)
      ensures var required := n + BLOCK_HDR + CHUNK_HDR;
              p == 0 <==> AllRefused(os, FirstWish(old(HeadSize(State())), initBlockSize, maxBlockSize, required),
                                     required)
      ensures p == 0 ==> State() == old(State())
      ensures p == 0 || Allocated(old(chunks), chunks, p, size)
      ensures p == 0 || Started(old(State()), State(), p, n, initBlockSize, maxBlockSize, os)
    {
      HeadFacts(State(), g);
      var b, room := ObtainBlock(HeadSize(State()), initBlockSize, maxBlockSize, n + BLOCK_HDR + CHUNK_HDR, os);
      if b == 0 {
        return 0;
      }
      assert Grants(blocks, os, room);
      p := StartBlock(b, room, size, n, os);
    }

    /** A block that the system has granted becomes the active one, with one chunk. */
    method StartBlock(b: nat, room: nat, size: nat, n: nat, os: Os) returns (p: nat)
      requires Valid() && size <= CHUNK_LIMIT && n == ClassBytes(Index(size))
      requires b != 0 && b == os.malloc(room) && Grants(blocks, os, room) && n + BLOCK_HDR + CHUNK_HDR <= room
      requires FirstGranted(os, FirstWish(HeadSize(State()), initBlockSize, maxBlockSize, n + BLOCK_HDR + CHUNK_HDR),
                            n + BLOCK_HDR + CHUNK_HDR, room)
      modifies this
      ensures Valid() && keeper == old(keeper) && p != 0
      ensures Allocated(old(chunks), chunks, p, size)
      ensures p == 0 || Started(old(State()), State(), p, n, initBlockSize, maxBlockSize, os)
    {
      p := b + BLOCK_HDR + CHUNK_HDR;
      var e, data := b + room, Junk(os, b + BLOCK_HDR + CHUNK_HDR, n);
      ghost var s' := NewStarted(State(), g, size, b, room, data, n, p, initBlockSize, maxBlockSize, os);
      var next := WithNew(State(), b, e, InUse(size, data));
      assert next == s';
      Install(next, BigShadow(g, 0, b));
    }

    /** Takes chunk `chunk`, item `i` of free list `fidx`, into use. */
    method Reuse(size: nat, fidx: nat, chunk: nat, prior: nat, ghost i: nat) returns (p: nat)
      requires Valid() && size <= CHUNK_LIMIT && fidx == Index(size) && fidx < |freelist|
      requires fidx < |g.lists| && i < |g.lists[fidx]| && chunk == g.lists[fidx][i] && prior == At(g.lists[fidx], i - 1)
      modifies this
      ensures Valid() && keeper == old(keeper) && blocks == old(blocks) && p == chunk + CHUNK_HDR
      ensures Allocated(old(chunks), chunks, p, size)
      ensures i == 0 ==> Recycled(old(State()), State(), fidx)
    {
      FreeFacts(State(), g, fidx, i, size);
      var next := chunks[chunk].link.next;
      var k := InUse(size, chunks[chunk].data);
      Reusable(State(), g, size, i);
      ReuseStep(State(), g, fidx, i, k);
      MakesAllocated(chunks, Unlinked(chunks, prior, chunk, k), chunk, size, k);
      Install(State().(chunks := Unlinked(chunks, prior, chunk, k),
                       freelist := if prior == 0 then freelist[fidx := next] else freelist),
              g.(lists := g.lists[fidx := g.lists[fidx][..i] + g.lists[fidx][i + 1..]]));
      p := chunk + CHUNK_HDR;
    }

    /** alloc_set_alloc: memory for `size` bytes, or 0 when memory is exhausted.
        It is the first free chunk of its class, else the next piece of the active
        block, else the first one of a new active block, for which what was left of
        the old one is carved up; a large request has a block beneath the active one. */
    method Alloc(size: nat, os: Os) returns (p: nat)
      requires Valid() && Honest(blocks, os)
      modifies this
      ensures Valid() && keeper == old(keeper)
      ensures p == 0 <==> Starved(old(State()), initBlockSize, maxBlockSize, size, os)
      ensures p == 0 ==> Live() == old(Live())
      ensures p == 0 || (Allocated(old(chunks), chunks, p, size) && PlacedAt(old(State()), size, p))
      ensures p != 0 && size > CHUNK_LIMIT ==>
                OwnBlock(old(State()), old(Order()), State(), Order(), if old(Order()) == [] then 0 else 1,
                         p - BLOCK_HDR - CHUNK_HDR, AlignUp(size, MAX_ALIGNMENT))
      ensures p != 0 && size <= CHUNK_LIMIT ==>
                var k, n := Index(size), ClassBytes(Index(size));
                if old(freelist)[k] != 0 then Recycled(old(State()), State(), k)
                else if HasRoom(old(State()), n) then FromActive(old(State()), State(), n)
                else Renewed(old(State()), State(), p, n, initBlockSize, maxBlockSize, os)
    {
      if size > CHUNK_LIMIT {
        p := AllocBig(size, os);
        return;
      }
      var fidx := FreeIndex(size);
      assert ListOk(chunks, freelist, g.lists, fidx);
      var chunk, prior, i := FindFree(chunks, freelist[fidx], size, g.lists[fidx]);
      FirstFits(State(), g, size, fidx, i);
      if chunk != 0 {
        p := Reuse(size, fidx, chunk, prior, i);
        return;
      }
      var n := ClassBytes(fidx);
      IndexInRange(size);
      HeadFacts(State(), g);
      if head != 0 && blocks[head].endptr - blocks[head].freeptr >= n + CHUNK_HDR {
        p := AllocFromActive(size, n, os);
        return;
      }
      p := AllocNoRoom(size, n, os);
    }

    /** What is left of the active block is carved up, and a new one started. */
    method AllocNoRoom(size: nat, n: nat, os: Os) returns (p: nat)
      requires Valid() && Honest(blocks, os) && size <= CHUNK_LIMIT && n == ClassBytes(Index(size)) <= CHUNK_LIMIT
      requires !HasRoom(State(), n)
      modifies this
      ensures Valid() && keeper == old(keeper)
      ensures var required := n + BLOCK_HDR + CHUNK_HDR;
              p == 0 <==> AllRefused(os, FirstWish(old(HeadSize(State())), initBlockSize, maxBlockSize, required),
                                     required)
      ensures p == 0 ==> Live() == old(Live())
      ensures p == 0 || Allocated(old(chunks), chunks, p, size)
      ensures p == 0 || Renewed(old(State()), State(), p, n, initBlockSize, maxBlockSize, os)
    {
      ghost var s0 := State();
      ghost var pieces: seq<nat> := [];
      HeadFacts(State(), g);
      if head != 0 {
        pieces := CarveTail(os);
        forall a
          ensures SameEnd(s0.blocks, blocks, a)
        {
        }
        StaysHonest(s0.blocks, blocks, os);
        assert HeadSize(State()) == HeadSize(s0);
      }
      ghost var s1 := State();
      p := AllocFromNew(size, n, os);
      if p != 0 {
        AllocatedAfter(s0.chunks, s1.chunks, chunks, p, size);
        MakesActive(s0, s1, State(), p, n, pieces, initBlockSize, maxBlockSize, os);
      }
    }

    /** alloc_set_free: a small chunk goes to the free list of its class, a large
        one back to the system with its block. The sentinel is found intact. */
    method Release(p: nat) returns (notice: bool)
      requires Valid() && p >= CHUNK_HDR && p - CHUNK_HDR in Live()
      modifies this
      ensures Valid() && keeper == old(keeper)
      ensures Live() == old(Live()) - {p - CHUNK_HDR}
      ensures old(chunks)[p - CHUNK_HDR].size <= CHUNK_LIMIT ==> PutBack(old(State()), State(), p - CHUNK_HDR)
      ensures old(chunks)[p - CHUNK_HDR].size > CHUNK_LIMIT ==>
                SomeBlockGone(old(State()), old(Order()), State(), Order(), p - CHUNK_HDR)
      ensures !notice
    {
      var c: nat := p - CHUNK_HDR;
      var k := chunks[c];
      assert ChunkAt(chunks, c);
      notice := k.requested < k.size && k.data[k.requested] != MARK;
      if k.size > CHUNK_LIMIT {
        BigChunkAlone(blocks, head, Sizes(chunks), g.geo, c);
        var block, prev, i := FindBlock(blocks, head, c, g.geo.blist);
        assert block != 0;
        ghost var s, o := State(), Order();
        ghost var s' := Dropped(s, g, i, c);
        Install(WithoutBlock(State(), prev, block, blocks[block].next, c), DropShadow(g, i, c));
        assert BlockGone(s, o, State(), Order(), i, c);
      } else {
        var fidx := FreeIndex(k.size);
        var wiped := seq(k.size, _ => WIPED);
        ghost var s' := Released(State(), g, c, fidx, wiped);
        Install(State().(chunks := chunks[c := Chunk(Free(freelist[fidx]), k.size, 0, wiped)],
                         freelist := freelist[fidx := c]),
                g.(lists := g.lists[fidx := [c] + g.lists[fidx]]));
      }
    }

    /** Released and requested again in its class, a chunk is handed out again,
        and the set is as it was. */
    method ReleaseAndAlloc(p: nat, size: nat, os: Os) returns (q: nat)
      requires Valid() && Honest(blocks, os) && p >= CHUNK_HDR && p - CHUNK_HDR in Live() && size <= CHUNK_LIMIT
      requires Live()[p - CHUNK_HDR].size <= CHUNK_LIMIT && Index(size) == Index(Live()[p - CHUNK_HDR].size)
      modifies this
      ensures Valid() && q == p && OnlyChunk(old(State()), State(), p - CHUNK_HDR)
      ensures State() == old(State()).(chunks := chunks)
    {
      ghost var s0 := State();
      ChunkAligned(blocks, head, Sizes(chunks), g.geo, p - CHUNK_HDR);
      var _ := Release(p);
      ghost var s1 := State();
      q := Alloc(size, os);
      BackAndForth(s0, s1, State(), p - CHUNK_HDR, size, q);
    }

    /** A client stores `b` inside the bytes it asked for. */
    method Write(p: nat, i: nat, b: nat)
      requires Valid() && p >= CHUNK_HDR && p - CHUNK_HDR in Live() && i < Live()[p - CHUNK_HDR].requested
      modifies this
      ensures Valid() && keeper == old(keeper)
      ensures i < |old(Live())[p - CHUNK_HDR].data|
      ensures var c: nat, k := p - CHUNK_HDR, old(Live())[p - CHUNK_HDR];
              Live() == old(Live())[c := k.(data := k.data[i := b])]
    {
      var c: nat := p - CHUNK_HDR;
      var k := chunks[c];
      assert ChunkAt(chunks, c);
      var k' := k.(data := k.data[i := b]);
      LiveStep(State(), g, c, k');
      Install(State().(chunks := chunks[c := k']), g);
    }

    /** A chunk large enough already: only the request changes. */
    method ReallocInPlace(c: nat, size: nat)
      requires Valid() && c in Live() && size <= Live()[c].size
      modifies this
      ensures Valid() && keeper == old(keeper) && Reallocated(old(chunks), chunks, c, c, size)
      ensures State() == old(State()).(chunks := chunks) && OnlyChunk(old(State()), State(), c)
      ensures chunks[c].size == old(chunks)[c].size
    {
      var k := chunks[c];
      assert ChunkAt(chunks, c);
      var k' := InUse(size, k.data);
      LiveStep(State(), g, c, k');
      KeepsBytes(k, k', size);
      Install(State().(chunks := chunks[c := k']), g);
    }

    /** The last chunk of the active block grows over the free space behind it. */
    method ReallocLast(c: nat, p: nat, size: nat, n: nat, os: Os, ghost moved: nat)
      requires Valid() && c in Live() && Live()[c].size < size <= n == ClassBytes(Index(size)) <= CHUNK_LIMIT
      requires head in blocks && c + CHUNK_HDR + Live()[c].size == blocks[head].freeptr
      requires c + CHUNK_HDR + n <= blocks[head].endptr && p == c + CHUNK_HDR
      modifies this
      ensures Valid() && keeper == old(keeper) && Reallocated(old(chunks), chunks, c, c, size)
      ensures Resized(old(State()), old(Order()), State(), Order(), p, p, size, moved)
    {
      var k := chunks[c];
      var data := k.data + Junk(os, c + CHUNK_HDR + k.size, n - k.size);
      assert ChunkAt(chunks, c);
      ghost var s' := GrownLast(State(), g, c, size, data);
      Install(Grown(State(), head, c, InUse(size, data)), g);
    }

    /** The block of a large chunk is resized, and may move to `moved`. */
    method ReallocBig(c: nat, size: nat, moved: nat, os: Os) returns (p: nat)
      requires Valid() && c in Live() && CHUNK_LIMIT < Live()[c].size < size
      requires MovesTo(blocks, c, moved, AlignUp(size, MAX_ALIGNMENT) + BLOCK_HDR + CHUNK_HDR)
      modifies this
      ensures Valid() && keeper == old(keeper)
      ensures p == 0 <==> moved == 0
      ensures p == 0 ==> State() == old(State())
      ensures p != 0 ==> p == moved + BLOCK_HDR + CHUNK_HDR && Reallocated(old(chunks), chunks, c, p - CHUNK_HDR, size)
      ensures p != 0 ==> chunks[p - CHUNK_HDR].size == AlignUp(size, MAX_ALIGNMENT)
                         && SomeBlockMoved(old(State()), old(Order()), State(), Order(), c, moved,
                                           AlignUp(size, MAX_ALIGNMENT))
    {
      var k := chunks[c];
      BigChunkAlone(blocks, head, Sizes(chunks), g.geo, c);
      var block, prev, i := FindBlock(blocks, head, c, g.geo.blist);
      assert block != 0;
      if moved == 0 {
        return 0;
      }
      var n := AlignUp(size, MAX_ALIGNMENT);
      assert ChunkAt(chunks, c);
      var data := k.data + Junk(os, moved + BLOCK_HDR + CHUNK_HDR + k.size, n - k.size);
      ghost var s, o := State(), Order();
      ghost var s', g' := Moved(State(), g, i, c, moved, size, data);
      Install(WithBig(WithoutBlock(State(), prev, block, blocks[block].next, c), prev, moved, blocks[block].next,
                      InUse(size, data)), g');
      assert BlockMoved(s, o, State(), Order(), i, c, moved, n);
      p := moved + BLOCK_HDR + CHUNK_HDR;
    }

    /** Allocates anew, copies the whole old chunk, and releases it. */
    method ReallocCopy(c: nat, size: nat, os: Os) returns (p: nat)
      requires Valid() && Honest(blocks, os) && c in Live() && Live()[c].size < size
      modifies this
      ensures Valid() && keeper == old(keeper)
      ensures p == 0 <==> Starved(old(State()), initBlockSize, maxBlockSize, size, os)
      ensures p == 0 ==> Live() == old(Live())
      ensures p == 0 || (p >= CHUNK_HDR && Reallocated(old(chunks), chunks, c, p - CHUNK_HDR, size))
      ensures p == 0 || (PlacedAt(old(State()), size, p) && chunks[p - CHUNK_HDR].size == SizeFor(size))
      ensures p != 0 && old(chunks)[c].size <= CHUNK_LIMIT ==> FirstFree(State(), c, old(chunks)[c].size)
    {
      ghost var chunks0 := chunks;
      var k := chunks[c];
      assert ChunkAt(chunks, c);
      p := Alloc(size, os);
      if p == 0 {
        return;
      }
      HoldsCopy(State(), g, chunks0, c, p, size);
      MoveContents(c, p, size, k.data, chunks0);
    }

    /** The old contents go to the new chunk, and the old chunk is released. */
    method MoveContents(c: nat, p: nat, size: nat, bytes: seq<nat>, ghost chunks0: map<nat, Chunk>)
      requires Valid() && c in Live() && p >= CHUNK_HDR && p - CHUNK_HDR in Live() && p - CHUNK_HDR != c
      requires Allocated(chunks0, chunks, p, size) && c in LiveOf(chunks0) && ChunkOk(chunks0[c])
      requires chunks0[c] == chunks[c] && bytes == chunks[c].data && |bytes| < size == chunks[p - CHUNK_HDR].requested
      requires ChunkOk(chunks[p - CHUNK_HDR])
      modifies this
      ensures Valid() && keeper == old(keeper)
      ensures Reallocated(chunks0, chunks, c, p - CHUNK_HDR, size)
      ensures p - CHUNK_HDR in chunks && chunks[p - CHUNK_HDR].size == SizeFor(size)
      ensures old(chunks)[c].size <= CHUNK_LIMIT ==> FirstFree(State(), c, old(chunks)[c].size)
    {
      var d: nat := p - CHUNK_HDR;
      ghost var chunks1 := chunks;
      CopyOver(d, bytes);
      ghost var chunks2 := chunks;
      assert c in Live() && chunks[c] == chunks1[c];
      var _ := Release(c + CHUNK_HDR);
      CopyKeeps(chunks0, chunks1, chunks2, chunks, c, d, p, size);
    }

    /** Copies `bytes` to the front of the chunk at `c`. */
    method CopyOver(c: nat, bytes: seq<nat>)
      requires Valid() && c in Live() && |bytes| <= Live()[c].requested
      modifies this
      ensures Valid() && keeper == old(keeper)
      ensures |bytes| <= |old(Live())[c].data|
      ensures Live() == old(Live())[c := old(Live())[c].(data := bytes + old(Live())[c].data[|bytes|..])]
    {
      assert ChunkAt(chunks, c);
      var k' := chunks[c].(data := bytes + chunks[c].data[|bytes|..]);
      LiveStep(State(), g, c, k');
      Install(State().(chunks := chunks[c := k']), g);
    }

    /** alloc_set_realloc: where a resized system block would go is `moved`. */
    method Realloc(p: nat, size: nat, moved: nat, os: Os) returns (q: nat)
      requires Valid() && Honest(blocks, os) && p >= CHUNK_HDR && p - CHUNK_HDR in Live()
      requires MovesTo(blocks, p - CHUNK_HDR, moved, AlignUp(size, MAX_ALIGNMENT) + BLOCK_HDR + CHUNK_HDR)
      modifies this
      ensures Valid() && keeper == old(keeper)
      ensures q == 0 <==> var c: nat, k := p - CHUNK_HDR, old(Live())[p - CHUNK_HDR];
                          k.size < size && if k.size > CHUNK_LIMIT then moved == 0
                                           else !GrowsInPlace(old(State()), c, size)
                                                && Starved(old(State()), initBlockSize, maxBlockSize, size, os)
      ensures q == 0 ==> Live() == old(Live())
      ensures q == 0 || (q >= CHUNK_HDR && Reallocated(old(chunks), chunks, p - CHUNK_HDR, q - CHUNK_HDR, size))
      ensures q == 0 || Resized(old(State()), old(Order()), State(), Order(), p, q, size, moved)
    {
      var c: nat := p - CHUNK_HDR;
      ChunkAligned(blocks, head, Sizes(chunks), g.geo, c);
      var oldSize := chunks[c].size;
      if oldSize >= size {
        ReallocInPlace(c, size);
        return p;
      }
      if oldSize > CHUNK_LIMIT {
        q := ReallocBig(c, size, moved, os);
        return;
      }
      q := ReallocSmall(p, c, size, moved, os);
    }

    /** A chunk of some class grows in place if it is the last one of the active
        block and the space behind it suffices. */
    method ReallocSmall(p: nat, c: nat, size: nat, ghost moved: nat, os: Os) returns (q: nat)
      requires Valid() && Honest(blocks, os) && p == c + CHUNK_HDR && c in Live()
      requires Live()[c].size < size && Live()[c].size <= CHUNK_LIMIT
      modifies this
      ensures Valid() && keeper == old(keeper)
      ensures q == 0 <==> !GrowsInPlace(old(State()), c, size)
                          && Starved(old(State()), initBlockSize, maxBlockSize, size, os)
      ensures q == 0 ==> Live() == old(Live())
      ensures q == 0 || (q >= CHUNK_HDR && Reallocated(old(chunks), chunks, c, q - CHUNK_HDR, size))
      ensures q == 0 || Resized(old(State()), old(Order()), State(), Order(), p, q, size, moved)
    {
      var n := RoomBehind(c, size);
      if n != 0 {
        ReallocLast(c, p, size, n, os, moved);
        return p;
      }
      q := ReallocCopy(c, size, os);
      assert q == 0 || Resized(old(State()), old(Order()), State(), Order(), p, q, size, moved);
    }

    /** The size to which a chunk of some class can grow in place, or 0. */
    method RoomBehind(c: nat, size: nat) returns (n: nat)
      requires Valid() && c in Live() && Live()[c].size < size
      ensures if GrowsInPlace(State(), c, size) then size <= n == ClassBytes(Index(size)) <= CHUNK_LIMIT else n == 0
    {
      if size > CHUNK_LIMIT {
        return 0;
      }
      LiveHasHead(State(), g, c);
      if c + CHUNK_HDR + chunks[c].size != blocks[head].freeptr {
        return 0;
      }
      var fidx := FreeIndex(size);
      IndexInRange(size);
      IndexLeast(size);
      n := ClassBytes(fidx);
      if blocks[head].endptr - blocks[head].freeptr < n - chunks[c].size {
        n := 0;
      }
    }

    /** alloc_set_reset: every chunk is gone and every block but the keeper given back. */
    method Reset()
      requires Valid()
      modifies this
      ensures Valid() && keeper == old(keeper) && chunks == map[] && freelist == seq(NUM_FREELISTS, _ => 0)
      ensures head == keeper && blocks.Keys == if keeper == 0 then {} else {keeper}
      ensures keeper != 0 ==> keeper in old(blocks)
      ensures keeper != 0 ==> blocks[keeper] == Block(0, keeper + BLOCK_HDR, old(blocks)[keeper].endptr)
    {
      if keeper != 0 {
        BlockBounds(blocks, head, g.geo.blist, keeper);
        EmptyStep(keeper, blocks[keeper].endptr);
      } else {
        EmptyStep(0, BLOCK_HDR);
      }
      var rest := ReleaseBlocks(blocks, head, keeper, g.geo.blist);
      Install(Set(rest, keeper, map[], seq(NUM_FREELISTS, _ => 0), keeper), EmptyShadow(keeper));
    }

    /** alloc_set_delete: nothing is kept, not even the keeper. */
    method Delete()
      requires Valid()
      modifies this
      ensures Valid() && blocks == map[] && chunks == map[] && head == 0 && keeper == 0
      ensures freelist == seq(NUM_FREELISTS, _ => 0)
    {
      EmptyStep(0, BLOCK_HDR);
      var rest := ReleaseBlocks(blocks, head, 0, g.geo.blist);
      Install(Set(rest, 0, map[], seq(NUM_FREELISTS, _ => 0), 0), EmptyShadow(0));
    }

    /** alloc_set_stats: all blocks, and of these what is behind the free pointers
        and the free chunks; the rest is block headers and chunks in use. */
    method Stats() returns (nblocks: nat, nchunks: nat, total: nat, free: nat)
      requires Valid()
      ensures nblocks == |Order()| && total == TotalSpace(blocks, Order())
      ensures free == FreeSpace(blocks, Order()) + FreeBytes(chunks)
      ensures total - free == BLOCK_HDR * nblocks + LiveBytes(chunks)
      ensures nchunks == |chunks| - |Live()|
    {
      var free1, free2;
      nblocks, total, free1 := BlockTotals(State(), g);
      nchunks, free2 := ListTotals(State(), g);
      LiveAndFree(State(), g);
      AllFree(State(), g);
      free := free1 + free2;
    }

    /** alloc_set_check: nothing to report in any valid state. */
    method Check() returns (notices: nat)
      requires Valid()
      ensures notices == 0
    {
      notices := CheckBlocks(State(), g.geo);
      forall b | b in blocks
        ensures SoundBlock(State(), g.geo, b)
      {
        ValidIsSound(State(), g, b);
      }
    }
  }

  /** alloc_set_context_create with its error: raised exactly if a keeper is
      asked for and memory for it is refused, behind the creation of the context. */
  method ContextCreate(minContextSize: nat, init: nat, max: nat, os: Os)
    returns (context: AllocSetContext, exhausted: bool)
    requires Honest(map[], os)
    ensures fresh(context) && context.Valid() && context.Live() == map[]
    ensures exhausted <==>
              minContextSize > BLOCK_HDR + CHUNK_HDR && os.malloc(AlignUp(minContextSize, MAX_ALIGNMENT)) == 0
    ensures !exhausted && minContextSize > BLOCK_HDR + CHUNK_HDR ==>
              context.keeper in context.blocks
                && context.blocks[context.keeper].endptr - context.keeper >= minContextSize
    ensures init <= context.initBlockSize <= context.maxBlockSize && max <= context.maxBlockSize
  {
    context := new AllocSetContext(minContextSize, init, max, os);
    exhausted := minContextSize > BLOCK_HDR + CHUNK_HDR && context.keeper == 0;
  }

  /** The size of the chunk that the allocator makes for a request. */
  function SizeFor(size: nat): nat {
    if size <= CHUNK_LIMIT then ClassBytes(Index(size)) else AlignUp(size, MAX_ALIGNMENT)
  }

  /** Where reallocation of the chunk at `p` leaves it, at `q`: in place if it is
      large enough, in its own block, moved as the system likes, if it is large,
      grown in place if it can be, and otherwise where a new request is placed; the
      old chunk is then the first of its class to be used again. */
  ghost predicate Resized(s: Set, o: seq<nat>, s': Set, o': seq<nat>, p: nat, q: nat, size: nat, moved: nat) {
    && p >= CHUNK_HDR && q >= CHUNK_HDR && p - CHUNK_HDR in s.chunks && q - CHUNK_HDR in s'.chunks
    && var c: nat, d: nat := p - CHUNK_HDR, q - CHUNK_HDR;
    && s'.chunks[d].size == (if size <= s.chunks[c].size then s.chunks[c].size else SizeFor(size))
    && if size <= s.chunks[c].size then q == p && s' == s.(chunks := s'.chunks) && OnlyChunk(s, s', c)
       else if s.chunks[c].size > CHUNK_LIMIT then
         q == moved + BLOCK_HDR + CHUNK_HDR && SomeBlockMoved(s, o, s', o', c, moved, AlignUp(size, MAX_ALIGNMENT))
       else if GrowsInPlace(s, c, size) then q == p && GrewInPlace(s, s', c, SizeFor(size))
       else PlacedAt(s, size, q) && FirstFree(s', c, s.chunks[c].size)
  }

  /** Chunk `c` of `n` bytes is the first of the free list of its class. */
  ghost predicate FirstFree(s: Set, c: nat, n: nat) {
    && c in s.chunks && s.chunks[c].link.Free? && s.chunks[c].size == n
    && Index(n) < |s.freelist| && s.freelist[Index(n)] == c
  }

  /** What a successful reallocation means: chunk `d` replaces chunk `c`, shows
      `size` bytes that begin with the old ones, and no other chunk in use has changed. */
  ghost predicate Reallocated(was: map<nat, Chunk>, chunks: map<nat, Chunk>, c: nat, d: nat, size: nat) {
    && c in LiveOf(was) && d in LiveOf(chunks)
    && (d == c || d !in LiveOf(was))
    && LiveOf(chunks) == (LiveOf(was) - {c})[d := chunks[d]]
    && BytesKept(was[c], chunks[d], size)
  }

  predicate BytesKept(k: Chunk, k': Chunk, size: nat) {
    && |Visible(k')| == size
    && var m := if |Visible(k)| < size then |Visible(k)| else size;
    Visible(k')[..m] == Visible(k)[..m]
  }

  lemma KeepsBytes(k: Chunk, k': Chunk, size: nat)
    requires Marked(k) && Marked(k') && k'.requested == size
    requires forall i :: 0 <= i < k.size && i < k'.size && i != size ==> k'.data[i] == k.data[i]
    ensures BytesKept(k, k', size)
  {
  }

  /** A chunk just allocated can hold what is to be copied from a smaller one. */
  lemma HoldsCopy(s: Set, g: Shadow, c0: map<nat, Chunk>, c: nat, p: nat, size: nat)
    requires SetOk(s, g, 0) && Allocated(c0, s.chunks, p, size) && c in LiveOf(c0)
    ensures ChunkOk(s.chunks[p - CHUNK_HDR]) && s.chunks[p - CHUNK_HDR].requested == size
    ensures p - CHUNK_HDR != c && c in LiveOf(s.chunks) && s.chunks[c] == c0[c] && ChunkOk(s.chunks[c])
  {
    assert ChunkAt(s.chunks, p - CHUNK_HDR) && ChunkAt(s.chunks, c);
    assert c in LiveOf(s.chunks);
  }

  /** Allocating, copying and releasing make a reallocation. */
  lemma CopyKeeps(c0: map<nat, Chunk>, c1: map<nat, Chunk>, c2: map<nat, Chunk>, c3: map<nat, Chunk>, c: nat, d: nat,
                  p: nat, size: nat)
    requires p == d + CHUNK_HDR && Allocated(c0, c1, p, size) && c in LiveOf(c0) && ChunkOk(c0[c]) && ChunkOk(c1[d])
    requires c0[c].size < size && |c0[c].data| <= |c1[d].data|
    requires LiveOf(c2) == LiveOf(c1)[d := c1[d].(data := c0[c].data + c1[d].data[|c0[c].data|..])]
    requires LiveOf(c3) == LiveOf(c2) - {c}
    ensures Reallocated(c0, c3, c, d, size)
  {
    var k' := c1[d].(data := c0[c].data + c1[d].data[|c0[c].data|..]);
    assert d != c && d in LiveOf(c3) && c3[d] == k';
    KeepsBytes(c0[c], k', size);
  }

  /** Memory that no block but the one with first chunk `c` occupies. */
  ghost predicate MovesTo(blocks: map<nat, Block>, c: nat, moved: nat, n: nat) {
    moved != 0 ==> moved % MAX_ALIGNMENT == 0 && forall a :: MovesClear(blocks, c, moved, n, a)
  }

  ghost predicate MovesClear(blocks: map<nat, Block>, c: nat, moved: nat, n: nat, a: nat) {
    a in blocks && a + BLOCK_HDR != c ==> blocks[a].endptr <= moved || moved + n <= a
  }

  lemma GrownLast(s: Set, g: Shadow, c: nat, size: nat, data: seq<nat>) returns (s': Set)
    requires SetOk(s, g, 0) && c in s.chunks && s.chunks[c].link.Owner? && s.head in s.blocks
    requires s.chunks[c].size < size <= |data| == ClassBytes(Index(size)) <= CHUNK_LIMIT && s.chunks[c].data <= data
    requires c + CHUNK_HDR + s.chunks[c].size == s.blocks[s.head].freeptr
             && c + CHUNK_HDR + |data| <= s.blocks[s.head].endptr
    ensures s' == Grown(s, s.head, c, InUse(size, data)) && SetOk(s', g, 0)
    ensures Reallocated(s.chunks, s'.chunks, c, c, size)
  {
    assert ChunkAt(s.chunks, c);
    IndexInRange(size);
    GrowStep(s, g, s.head, c, InUse(size, data));
    KeepsBytes(s.chunks[c], InUse(size, data), size);
    s' := Grown(s, s.head, c, InUse(size, data));
  }

  lemma LiveHasHead(s: Set, g: Shadow, c: nat)
    requires SetOk(s, g, 0) && c in s.chunks
    ensures s.head != 0 && s.head in s.blocks
  {
    ChunkInBlock(s.blocks, s.head, Sizes(s.chunks), g.geo, c);
    BlockBounds(s.blocks, s.head, g.geo.blist, g.geo.home[c]);
    assert BlockAt(s.blocks, g.geo.blist, 0);
  }

  lemma Dropped(s: Set, g: Shadow, i: nat, c: nat) returns (s': Set)
    requires SetOk(s, g, 0) && i < |g.geo.blist| && c in s.chunks
    requires s.chunks[c].link.Owner? && s.chunks[c].size > CHUNK_LIMIT && c == g.geo.blist[i] + BLOCK_HDR
    ensures g.geo.blist[i] in s.blocks
    ensures s' == WithoutBlock(s, At(g.geo.blist, i - 1), g.geo.blist[i], s.blocks[g.geo.blist[i]].next, c)
    ensures SetOk(s', DropShadow(g, i, c), 0) && LiveOf(s'.chunks) == LiveOf(s.chunks) - {c}
    ensures BlockGone(s, g.geo.blist, s', DropShadow(g, i, c).geo.blist, i, c)
    ensures forall a :: a in s'.blocks ==>
              a in s.blocks && a != g.geo.blist[i] && s'.blocks[a].endptr == s.blocks[a].endptr
  {
    assert BlockAt(s.blocks, g.geo.blist, i);
    s' := WithoutBlock(s, At(g.geo.blist, i - 1), g.geo.blist[i], s.blocks[g.geo.blist[i]].next, c);
    DropStep(s, g, i, c);
  }

  lemma Released(s: Set, g: Shadow, c: nat, j: nat, data: seq<nat>) returns (s': Set)
    requires SetOk(s, g, 0) && c in s.chunks && s.chunks[c].link.Owner? && s.chunks[c].size <= CHUNK_LIMIT
    requires j == Index(s.chunks[c].size) && |data| == s.chunks[c].size
    ensures j < NUM_FREELISTS
    ensures s' == s.(chunks := s.chunks[c := Chunk(Free(s.freelist[j]), s.chunks[c].size, 0, data)],
                     freelist := s.freelist[j := c])
    ensures SetOk(s', g.(lists := g.lists[j := [c] + g.lists[j]]), 0) && LiveOf(s'.chunks) == LiveOf(s.chunks) - {c}
  {
    ReleaseStep(s, g, c, j, data);
    s' := s.(chunks := s.chunks[c := Chunk(Free(s.freelist[j]), s.chunks[c].size, 0, data)],
             freelist := s.freelist[j := c]);
  }

  /** Dropping a large chunk's block and adding the resized one in its place. */
  lemma Moved(s: Set, g: Shadow, i: nat, c: nat, b: nat, size: nat, data: seq<nat>) returns (s': Set, g': Shadow)
    requires SetOk(s, g, 0) && i < |g.geo.blist| && c in s.chunks && s.chunks[c].link.Owner?
    requires CHUNK_LIMIT < s.chunks[c].size < size && c == g.geo.blist[i] + BLOCK_HDR
    requires |data| == AlignUp(size, MAX_ALIGNMENT) && s.chunks[c].data <= data
    requires b != 0 && MovesTo(s.blocks, c, b, |data| + BLOCK_HDR + CHUNK_HDR)
    ensures g.geo.blist[i] in s.blocks
    ensures var prev, next := At(g.geo.blist, i - 1), s.blocks[g.geo.blist[i]].next;
            s' == WithBig(WithoutBlock(s, prev, g.geo.blist[i], next, c), prev, b, next, InUse(size, data))
    ensures SetOk(s', g', 0) && Reallocated(s.chunks, s'.chunks, c, b + BLOCK_HDR, size)
    ensures BlockMoved(s, g.geo.blist, s', g'.geo.blist, i, c, b, |data|)
  {
    var s1 := Dropped(s, g, i, c);
    var g1 := DropShadow(g, i, c);
    assert BlockAt(s.blocks, g.geo.blist, i);
    var prev, next := At(g.geo.blist, i - 1), s.blocks[g.geo.blist[i]].next;
    assert At(g1.geo.blist, i - 1) == prev && At(g1.geo.blist, i) == next;
    var e := b + BLOCK_HDR + CHUNK_HDR + |data|;
    forall a
      ensures FreshOf(s1.blocks, b, e, a)
    {
      assert MovesClear(s.blocks, c, b, |data| + BLOCK_HDR + CHUNK_HDR, a);
    }
    s', g' := BigStep(s1, g1, i, b, InUse(size, data));
    GoneAndBack(s, g.geo.blist, s1, g1.geo.blist, s', g'.geo.blist, i, c, b, |data|);
    assert ChunkAt(s.chunks, c);
    KeepsBytes(s.chunks[c], InUse(size, data), size);
  }

  /** The active block is new, granted as the size of the old one asks for it,
      and has one chunk of `n` bytes. */
  ghost predicate Started(s: Set, s': Set, p: nat, n: nat, init: nat, max: nat, os: Os) {
    && s'.head !in s.blocks && p == s'.head + BLOCK_HDR + CHUNK_HDR
    && s'.head in s'.blocks && s'.blocks == s.blocks[s'.head := Block(s.head, p + n, s'.blocks[s'.head].endptr)]
    && s'.freelist == s.freelist && s'.keeper == s.keeper
    && FirstGranted(os, FirstWish(HeadSize(s), init, max, n + BLOCK_HDR + CHUNK_HDR), n + BLOCK_HDR + CHUNK_HDR,
                    HeadSize(s'))
  }

  lemma NewStarted(s: Set, g: Shadow, size: nat, b: nat, room: nat, data: seq<nat>, n: nat, p: nat, init: nat,
                   max: nat, os: Os)
    returns (s': Set)
    requires SetOk(s, g, 0) && size <= CHUNK_LIMIT && |data| == n == ClassBytes(Index(size))
    requires b != 0 && b == os.malloc(room) && Grants(s.blocks, os, room) && p == b + BLOCK_HDR + CHUNK_HDR
    requires n + BLOCK_HDR + CHUNK_HDR <= room
    requires FirstGranted(os, FirstWish(HeadSize(s), init, max, n + BLOCK_HDR + CHUNK_HDR), n + BLOCK_HDR + CHUNK_HDR,
                          room)
    ensures s' == WithNew(s, b, b + room, InUse(size, data)) && SetOk(s', BigShadow(g, 0, b), 0)
    ensures Allocated(s.chunks, s'.chunks, p, size) && Started(s, s', p, n, init, max, os)
  {
    s' := NewAllocated(s, g, size, b, b + room, data, p);
    assert HeadSize(s') == room;
  }

  /** The old active block was carved up and a new one started, of the first size
      that the system grants. */
  ghost predicate Renewed(s: Set, s': Set, p: nat, n: nat, init: nat, max: nat, os: Os) {
    && p >= BLOCK_HDR + CHUNK_HDR && NewActive(s, s', p - BLOCK_HDR - CHUNK_HDR, n)
    && FirstGranted(os, FirstWish(HeadSize(s), init, max, n + BLOCK_HDR + CHUNK_HDR), n + BLOCK_HDR + CHUNK_HDR,
                    HeadSize(s'))
  }

  /** Carving up the old active block and starting a new one. */
  lemma MakesActive(s: Set, s1: Set, s2: Set, p: nat, n: nat, pieces: seq<nat>, init: nat, max: nat, os: Os)
    requires s1.head == s.head && s.keeper == s1.keeper == s2.keeper && s2.freelist == s1.freelist
    requires s.head == 0 ==> s1 == s
    requires s.head != 0 ==>
               && s.head in s.blocks && s.head in s1.blocks
               && var was, now := s.blocks[s.head], s1.blocks[s.head];
               && Greedy(s.freelist, was.freeptr, was.endptr, pieces)
               && Carved(s.freelist, was.freeptr, pieces) == (s1.freelist, now.freeptr)
               && s1.blocks == s.blocks[s.head := was.(freeptr := now.freeptr)]
               && was.endptr < now.freeptr + 16 + CHUNK_HDR
    requires Started(s1, s2, p, n, init, max, os)
    ensures Renewed(s, s2, p, n, init, max, os)
  {
    var b := s2.head;
    assert HeadSize(s1) == HeadSize(s);
    forall a | a != b && a != s.head
      ensures OtherBlock(s.blocks, s2.blocks, a)
    {
    }
    assert ClassBytes(0) == 16;
  }

  lemma AllocatedAfter(was: map<nat, Chunk>, mid: map<nat, Chunk>, chunks: map<nat, Chunk>, p: nat, size: nat)
    requires LiveOf(was) == LiveOf(mid) && Allocated(mid, chunks, p, size)
    ensures Allocated(was, chunks, p, size)
  {
  }

  lemma MakesAllocated(was: map<nat, Chunk>, chunks: map<nat, Chunk>, c: nat, size: nat, k: Chunk)
    requires c % MAX_ALIGNMENT == 0 && c !in LiveOf(was) && c in chunks && chunks[c] == k && k.link.Owner?
    requires k.size == SizeFor(size)
    requires |Visible(k)| == size && LiveOf(chunks) == LiveOf(was)[c := k]
    ensures Allocated(was, chunks, c + CHUNK_HDR, size)
  {
  }

  /** Adding a block and carving its first chunk is one step of the shadow. */
  lemma ShadowsAgree(s: Set, g: Shadow, i: nat, b: nat)
    requires i <= |g.geo.blist| && b in s.blocks && s.blocks[b].freeptr == b + BLOCK_HDR
    ensures ChunkShadow(s, BlockShadow(g, i, b), b) == BigShadow(g, i, b)
  {
    var none: seq<nat> := [];
    assert none + [b + BLOCK_HDR] == [b + BLOCK_HDR];
  }

  lemma NewIsCarved(s: Set, b: nat, e: nat, k: Chunk)
    ensures WithChunk(WithBlock(s, 0, b, s.head, e), b, k) == WithNew(s, b, e, k)
  {
  }

  lemma ActiveAllocated(s: Set, g: Shadow, size: nat, data: seq<nat>)
    requires SetOk(s, g, 0) && s.head in s.blocks && s.head in g.geo.tiles && size <= CHUNK_LIMIT
    requires |data| == ClassBytes(Index(size))
             && s.blocks[s.head].freeptr + CHUNK_HDR + |data| <= s.blocks[s.head].endptr
    ensures SetOk(WithChunk(s, s.head, InUse(size, data)), ChunkShadow(s, g, s.head), 0)
    ensures var c := s.blocks[s.head].freeptr;
            c !in s.chunks && Allocated(s.chunks, s.chunks[c := InUse(size, data)], c + CHUNK_HDR, size)
  {
    IndexInRange(size);
    IndexLeast(size);
    CarveLive(s, g, 0, s.head, InUse(size, data));
    var c := s.blocks[s.head].freeptr;
    var s', g' := WithChunk(s, s.head, InUse(size, data)), ChunkShadow(s, g, s.head);
    ChunkAligned(s'.blocks, s'.head, Sizes(s'.chunks), g'.geo, c);
  }

  /** A new active block `b` up to `e`, with the first chunk `k`. */
  function WithNew(s: Set, b: nat, e: nat, k: Chunk): Set {
    s.(blocks := s.blocks[b := Block(s.head, b + BLOCK_HDR + CHUNK_HDR + k.size, e)], head := b,
       chunks := s.chunks[b + BLOCK_HDR := k])
  }

  lemma NewAllocated(s: Set, g: Shadow, size: nat, b: nat, e: nat, data: seq<nat>, p: nat) returns (s': Set)
    requires SetOk(s, g, 0) && size <= CHUNK_LIMIT && |data| == ClassBytes(Index(size))
    requires Fresh(s.blocks, b, e) && b + BLOCK_HDR + CHUNK_HDR + |data| <= e && p == b + BLOCK_HDR + CHUNK_HDR
    ensures s' == WithNew(s, b, e, InUse(size, data)) && SetOk(s', BigShadow(g, 0, b), 0)
    ensures Allocated(s.chunks, s'.chunks, p, size) && b !in s.blocks
  {
    s' := WithNew(s, b, e, InUse(size, data));
    var k, c := InUse(size, data), b + BLOCK_HDR;
    IndexInRange(size);
    IndexLeast(size);
    HeadFacts(s, g);
    var s1, g1 := Hooked(s, g, 0, b, e);
    var s2, g2 := CarvedFirst(s1, g1, b, k);
    ShadowsAgree(s1, g, 0, b);
    NewIsCarved(s, b, e, k);
    MakesAllocated(s.chunks, s2.chunks, c, size, k);
  }

  lemma FreeFacts(s: Set, g: Shadow, j: nat, i: nat, size: nat)
    requires SetOk(s, g, 0) && j < NUM_FREELISTS && i < |g.lists[j]| && j == Index(size)
    ensures var c := g.lists[j][i];
            && c != 0 && c in s.chunks && s.chunks[c].link == Free(At(g.lists[j], i + 1))
            && s.chunks[c].size == ClassBytes(j) == |s.chunks[c].data| && size <= ClassBytes(j)
    ensures At(g.lists[j], i - 1) == 0 <==> i == 0
    ensures i == 0 ==> j < |s.freelist| && s.freelist[j] == g.lists[j][i]
  {
    var c := g.lists[j][i];
    assert ListOk(s.chunks, s.freelist, g.lists, j) && ThreadAt(s.chunks, g.lists[j], i);
    assert c in g.lists[j] && HoldsClass(s.chunks, g.lists, j, c) && ChunkAt(s.chunks, c);
    IndexLeast(size);
    if i > 0 {
      assert ThreadAt(s.chunks, g.lists[j], i - 1);
    }
  }

  lemma Reusable(s: Set, g: Shadow, size: nat, i: nat)
    requires SetOk(s, g, 0) && size <= CHUNK_LIMIT && Index(size) < NUM_FREELISTS && i < |g.lists[Index(size)]|
    ensures var c := g.lists[Index(size)][i];
            c in s.chunks && ChunkOk(InUse(size, s.chunks[c].data)) && c % MAX_ALIGNMENT == 0 && c !in LiveOf(s.chunks)
  {
    var j := Index(size);
    var c := g.lists[j][i];
    FreeFacts(s, g, j, i, size);
    assert ChunkAt(s.chunks, c);
    ChunkAligned(s.blocks, s.head, Sizes(s.chunks), g.geo, c);
  }

  /** Two states have the same blocks, in the same memory. */
  ghost predicate SameEnd(blocks: map<nat, Block>, blocks': map<nat, Block>, a: nat) {
    && (a in blocks <==> a in blocks')
    && (a in blocks && a in blocks' ==> blocks'[a].endptr == blocks[a].endptr)
  }

  lemma StaysHonest(blocks: map<nat, Block>, blocks': map<nat, Block>, os: Os)
    requires Honest(blocks, os) && forall a :: SameEnd(blocks, blocks', a)
    ensures Honest(blocks', os)
  {
    forall n: nat
      ensures Grants(blocks', os, n)
    {
      assert Grants(blocks, os, n);
      var m := os.malloc(n);
      if n >= BLOCK_HDR && m != 0 {
        var e := m + n;
        forall a: nat
          ensures FreshOf(blocks', m, e, a)
        {
          assert FreshOf(blocks, m, e, a) && SameEnd(blocks, blocks', a);
        }
      }
    }
  }

  /** The largest class that fits into `n` bytes. */
  method ChoosePiece(n: nat, ghost r: nat) returns (j: nat)
    requires 16 <= n < ClassBytes(r) && r <= 9
    ensures j < r && ClassBytes(j) <= n < 2 * ClassBytes(j)
    ensures j == Index(ClassBytes(j)) && IsClass(ClassBytes(j))
  {
    ClassLimit();
    Pow2Monotone(r, 9);
    j := FreeIndex(n);
    IndexLeast(n);
    if n != ClassBytes(j) {
      j := j - 1;
    }
    IndexOfClass(j);
    if r <= j {
      Pow2Monotone(r, j);
    }
  }

  /** What a successful request means: chunk `p - CHUNK_HDR` was not in use,
      is now, shows `size` bytes, and no other chunk in use has changed. */
  ghost predicate Allocated(was: map<nat, Chunk>, chunks: map<nat, Chunk>, p: nat, size: nat) {
    && p >= CHUNK_HDR && p % MAX_ALIGNMENT == 0
    && var c := p - CHUNK_HDR;
    && c !in LiveOf(was)
    && c in chunks && chunks[c].link.Owner?
    && chunks[c].size == SizeFor(size)
    && |Visible(chunks[c])| == size
    && LiveOf(chunks) == LiveOf(was)[c := chunks[c]]
  }

  lemma HeadFacts(s: Set, g: Shadow)
    requires SetOk(s, g, 0)
    ensures s.head == 0 <==> g.geo.blist == []
    ensures s.head == At(g.geo.blist, 0)
    ensures s.head != 0 ==> s.head in s.blocks && s.blocks[s.head].next == At(g.geo.blist, 1) && s.head in g.geo.tiles
    ensures s.head != 0 ==> s.head + BLOCK_HDR <= s.blocks[s.head].freeptr <= s.blocks[s.head].endptr
  {
    if g.geo.blist != [] {
      assert BlockAt(s.blocks, g.geo.blist, 0);
      assert TileOk(s.blocks, Sizes(s.chunks), g.geo.tiles, s.head);
    }
  }

  /** A full block `b` with the one chunk `k`, behind `prev` or at the head. */
  function WithBig(s: Set, prev: nat, b: nat, next: nat, k: Chunk): Set {
    var e := b + BLOCK_HDR + CHUNK_HDR + k.size;
    s.(blocks := Hook(s.blocks, prev, b, Block(next, e, e)), head := if prev == 0 then b else s.head,
       chunks := s.chunks[b + BLOCK_HDR := k])
  }

  ghost function BigShadow(g: Shadow, i: nat, b: nat): Shadow
    requires i <= |g.geo.blist|
  {
    var g1 := BlockShadow(g, i, b);
    g1.(geo := Geo(g1.geo.blist, g1.geo.tiles[b := [b + BLOCK_HDR]], g1.geo.home[b + BLOCK_HDR := b]))
  }

  /** A block made for one chunk enters the list at position `i`. */
  lemma BigStep(s: Set, g: Shadow, i: nat, b: nat, k: Chunk) returns (s': Set, g': Shadow)
    requires SetOk(s, g, 0) && i <= |g.geo.blist| && ChunkOk(k) && k.link.Owner? && k.size > CHUNK_LIMIT
    requires Fresh(s.blocks, b, b + BLOCK_HDR + CHUNK_HDR + k.size)
    ensures s' == WithBig(s, At(g.geo.blist, i - 1), b, At(g.geo.blist, i), k) && g' == BigShadow(g, i, b)
    ensures SetOk(s', g', 0)
    ensures b + BLOCK_HDR !in s.chunks && b % MAX_ALIGNMENT == 0
    ensures OwnBlock(s, g.geo.blist, s', g'.geo.blist, i, b, k.size)
    ensures LiveOf(s'.chunks) == LiveOf(s.chunks)[b + BLOCK_HDR := k]
  {
    var e := b + BLOCK_HDR + CHUNK_HDR + k.size;
    var s1, g1 := Hooked(s, g, i, b, e);
    s', g' := CarvedFirst(s1, g1, b, k);
    ShadowsAgree(s1, g, i, b);
    BigIsCarved(s, At(g.geo.blist, i - 1), b, At(g.geo.blist, i), k);
    BigOwnsBlock(s, g, i, b, k);
  }

  lemma BigOwnsBlock(s: Set, g: Shadow, i: nat, b: nat, k: Chunk)
    requires i <= |g.geo.blist| && b !in s.blocks && b != At(g.geo.blist, i - 1) && b + BLOCK_HDR !in s.chunks
    ensures OwnBlock(s, g.geo.blist, WithBig(s, At(g.geo.blist, i - 1), b, At(g.geo.blist, i), k),
                     BigShadow(g, i, b).geo.blist, i, b, k.size)
  {
  }

  lemma Hooked(s: Set, g: Shadow, i: nat, b: nat, e: nat) returns (s1: Set, g1: Shadow)
    requires SetOk(s, g, 0) && i <= |g.geo.blist| && Fresh(s.blocks, b, e)
    ensures s1 == WithBlock(s, At(g.geo.blist, i - 1), b, At(g.geo.blist, i), e) && g1 == BlockShadow(g, i, b)
    ensures SetOk(s1, g1, b) && s1.chunks == s.chunks && b !in s.blocks && b != At(g.geo.blist, i - 1)
    ensures b in s1.blocks && s1.blocks[b] == Block(At(g.geo.blist, i), b + BLOCK_HDR, e) && b != s1.keeper
    ensures b in g1.geo.tiles && g1.geo.tiles[b] == []
  {
    BlockStep(s, g, i, b, e);
    HookedBlock(s, g, i, b, e);
    s1, g1 := WithBlock(s, At(g.geo.blist, i - 1), b, At(g.geo.blist, i), e), BlockShadow(g, i, b);
  }

  /** The first chunk of a block just added. */
  lemma CarvedFirst(s1: Set, g1: Shadow, b: nat, k: Chunk) returns (s2: Set, g2: Shadow)
    requires SetOk(s1, g1, b) && Fits(s1, g1, b, k.size) && ChunkOk(k) && k.link.Owner?
    ensures s2 == WithChunk(s1, b, k) && g2 == ChunkShadow(s1, g1, b) && SetOk(s2, g2, 0)
    ensures s1.blocks[b].freeptr !in s1.chunks
    ensures LiveOf(s2.chunks) == LiveOf(s1.chunks)[s1.blocks[b].freeptr := k]
  {
    CarveLive(s1, g1, b, b, k);
    s2, g2 := WithChunk(s1, b, k), ChunkShadow(s1, g1, b);
  }

  lemma BigIsCarved(s: Set, prev: nat, b: nat, next: nat, k: Chunk)
    requires b != prev
    ensures var s1 := WithBlock(s, prev, b, next, b + BLOCK_HDR + CHUNK_HDR + k.size);
            b in s1.blocks && s1.blocks[b].freeptr == b + BLOCK_HDR
              && WithChunk(s1, b, k) == WithBig(s, prev, b, next, k)
  {
  }

  lemma BigAllocated(s: Set, g: Shadow, i: nat, b: nat, size: nat, data: seq<nat>) returns (s': Set, g': Shadow)
    requires SetOk(s, g, 0) && i <= |g.geo.blist| && size > CHUNK_LIMIT && |data| == AlignUp(size, MAX_ALIGNMENT)
    requires Fresh(s.blocks, b, b + BLOCK_HDR + CHUNK_HDR + |data|)
    ensures s' == WithBig(s, At(g.geo.blist, i - 1), b, At(g.geo.blist, i), InUse(size, data))
            && g' == BigShadow(g, i, b)
    ensures SetOk(s', g', 0) && Allocated(s.chunks, s'.chunks, b + BLOCK_HDR + CHUNK_HDR, size)
    ensures OwnBlock(s, g.geo.blist, s', g'.geo.blist, i, b, |data|)
  {
    s', g' := BigStep(s, g, i, b, InUse(size, data));
  }

  lemma HookedBlock(s: Set, g: Shadow, i: nat, b: nat, e: nat)
    requires SetOk(s, g, 0) && i <= |g.geo.blist| && b !in s.blocks && b != 0
    ensures var prev, next := At(g.geo.blist, i - 1), At(g.geo.blist, i);
            var s1 := WithBlock(s, prev, b, next, e);
            b in s1.blocks && s1.blocks[b] == Block(next, b + BLOCK_HDR, e) && b != s1.keeper && b != prev
  {
    var prev := At(g.geo.blist, i - 1);
    if i > 0 {
      assert BlockAt(s.blocks, g.geo.blist, i - 1);
    }
    assert s.keeper != 0 ==> s.keeper in s.blocks;
  }
}
