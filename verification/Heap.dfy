/** The heap allocator of lib-clib/src/malloc.cpp: a region carved upwards from the bottom, and one
    free list a block size, threaded through the headers of the blocks on it.

    Memory is a map from addresses to bytes, so the headers the lists run through lie in the same
    memory as the blocks' contents. A ghost description of the region says what every part of it is
    for; the invariant ties it to the bytes. */
module Heap {

  import opened Machine
  import opened Memory

  const MAGIC: int := 0x424C_4D43

  // Offsets in a block header, and the header with the first byte of data that is part of it.
  const SIZE_OFFSET: int := 4
  const NEXT_OFFSET: int := 8
  const DATA_OFFSET: int := 12
  const HEADER_SIZE: int := 13

  /* ---- The size of a block ---- */

  // The bytes a block takes from the region: header and data, rounded up to 16.
  function Extent(size: int): int {
    (size + HEADER_SIZE + 15) / 16 * 16
  }

  // The same in the machine's arithmetic.
  function Extent32(size: int): int {
    var t := Wrap(Wrap(HEADER_SIZE + size) + 15);
    t - t % 16
  }

  /** The rounding leaves room for header and data exactly when it does not wrap around. */
  lemma ExtentSound(size: int)
    requires 0 <= size < UINT32
    ensures HEADER_SIZE + size <= Extent32(size) <==> size + HEADER_SIZE + 15 < UINT32
    ensures size + HEADER_SIZE + 15 < UINT32 ==> Extent32(size) == Extent(size)
  {
  }

  lemma ExtentBounds(size: int)
    requires 0 <= size
    ensures size + HEADER_SIZE <= Extent(size) < size + HEADER_SIZE + 16
    ensures Extent(size) % 16 == 0
  {
  }

  /* ---- What the region is for ---- */

  datatype Block = Block(at: int, size: int)

  // Oversize blocks fit no free list: once freed they are lost.
  datatype Status = Live | Free(bucket: int) | Lost

  datatype Region = Region(blocks: seq<Block>, status: seq<Status>, lists: seq<seq<int>>)

  function End(b: Block): int {
    b.at + Extent(b.size)
  }

  // The address handed out for a block.
  function Data(b: Block): int {
    b.at + DATA_OFFSET
  }

  ghost predicate GoodBlock(b: Block, low: int, top: int) {
    0 < b.size && low <= b.at && b.at % 4 == 0 && End(b) <= top
  }

  // The blocks tile [low, top) in order.
  ghost predicate Tiled(blocks: seq<Block>, low: int, top: int) {
    && 0 < low <= top && low % 4 == 0
    && (if blocks == [] then top == low else blocks[0].at == low && End(blocks[|blocks| - 1]) == top)
    && (forall i :: 0 <= i < |blocks| ==> GoodBlock(blocks[i], low, top))
    && (forall i :: 0 < i < |blocks| ==> blocks[i].at == End(blocks[i - 1]))
    && (forall i, j :: 0 <= i < j < |blocks| ==> End(blocks[i]) <= blocks[j].at)
  }

  lemma TiledMore(blocks: seq<Block>, low: int, top: int, size: int)
    requires Tiled(blocks, low, top) && 0 < size
    ensures Tiled(blocks + [Block(top, size)], low, top + Extent(size))
  {
    hide Extent;
    ExtentBounds(size);
    TopAligned(blocks, low, top);
    var more := blocks + [Block(top, size)];
    forall i | 0 <= i < |more|
      ensures GoodBlock(more[i], low, top + Extent(size))
    {
    }
  }

  lemma TopAligned(blocks: seq<Block>, low: int, top: int)
    requires Tiled(blocks, low, top)
    ensures top % 4 == 0
  {
    if blocks != [] {
      var last := blocks[|blocks| - 1];
      assert GoodBlock(last, low, top) && top == last.at + Extent(last.size);
      hide Tiled, Extent;
      ExtentBounds(last.size);
      assert top == 4 * (last.at / 4 + 4 * (Extent(last.size) / 16));
    }
  }

  // Different blocks do not overlap, headers included.
  lemma BlocksDisjoint(blocks: seq<Block>, low: int, top: int, i: int, j: int)
    requires Tiled(blocks, low, top) && 0 <= i < |blocks| && 0 <= j < |blocks| && i != j
    ensures End(blocks[i]) <= blocks[j].at || End(blocks[j]) <= blocks[i].at
    ensures Data(blocks[i]) + blocks[i].size < End(blocks[i])
    ensures Data(blocks[j]) + blocks[j].size < End(blocks[j])
  {
  }

  /** Every byte of the carved region belongs to exactly one block. */
  lemma {:induction false} Partition(blocks: seq<Block>, low: int, top: int, x: int)
    requires Tiled(blocks, low, top) && low <= x < top
    ensures exists i :: 0 <= i < |blocks| && blocks[i].at <= x < End(blocks[i])
    ensures forall i, j :: 0 <= i < j < |blocks| ==>
              !(blocks[i].at <= x < End(blocks[i]) && blocks[j].at <= x < End(blocks[j]))
  {
    hide Extent;
    var i := 0;
    while End(blocks[i]) <= x
      invariant 0 <= i < |blocks| && blocks[i].at <= x
      decreases |blocks| - i
    {
      i := i + 1;
    }
  }

  /* ---- The free lists ---- */

  ghost predicate OnList(r: Region, sizes: seq<int>, k: int, i: int)
    requires |r.status| == |r.blocks| && 0 <= k < |sizes|
  {
    0 <= i < |r.blocks| && r.status[i] == Free(k) && r.blocks[i].size == sizes[k]
  }

  ghost predicate Distinct(list: seq<int>) {
    forall a, b :: 0 <= a < b < |list| ==> list[a] != list[b]
  }

  // Each list holds, once, exactly the blocks that are free for its bucket, all of the bucket's size.
  ghost predicate Listed(r: Region, sizes: seq<int>) {
    && |r.status| == |r.blocks| && |r.lists| == |sizes|
    && (forall k, i :: 0 <= k < |r.lists| && i in r.lists[k] ==> OnList(r, sizes, k, i))
    && (forall k :: 0 <= k < |r.lists| ==> Distinct(r.lists[k]))
    && (forall i :: 0 <= i < |r.status| && r.status[i].Free? ==>
          0 <= r.status[i].bucket < |r.lists| && i in r.lists[r.status[i].bucket])
  }

  /** A block is on one free list, once, if it is free, and on none otherwise. */
  lemma ListedOnce(r: Region, sizes: seq<int>, i: int)
    requires Listed(r, sizes) && 0 <= i < |r.blocks|
    ensures r.status[i].Free? <==> exists k :: 0 <= k < |r.lists| && i in r.lists[k]
    ensures forall k, l :: 0 <= k < |r.lists| && 0 <= l < |r.lists| && i in r.lists[k] && i in r.lists[l] ==> k == l
    ensures forall k :: 0 <= k < |r.lists| && i in r.lists[k] ==> r.blocks[i].size == sizes[k]
    ensures forall k :: 0 <= k < |r.lists| ==> multiset(r.lists[k])[i] <= 1
  {
    forall k | 0 <= k < |r.lists| && i in r.lists[k]
      ensures r.status[i] == Free(k) && r.blocks[i].size == sizes[k]
    {
      assert OnList(r, sizes, k, i);
    }
    forall k | 0 <= k < |r.lists|
      ensures multiset(r.lists[k])[i] <= 1
    {
      DistinctOnce(r.lists[k], i);
    }
  }

  lemma {:induction false} DistinctOnce(list: seq<int>, i: int)
    requires Distinct(list)
    ensures multiset(list)[i] <= 1
    decreases |list|
  {
    if list != [] {
      var rest := list[1..];
      assert list == [list[0]] + rest;
      DistinctOnce(rest, i);
      assert list[0] !in rest;
    }
  }

  // The linked list in memory that starts at head is the list of blocks.
  ghost predicate Chain(m: Bytes, blocks: seq<Block>, list: seq<int>, head: int)
    decreases |list|
  {
    if list == [] then head == 0
    else
      && 0 <= list[0] < |blocks| && head == blocks[list[0]].at
      && Chain(m, blocks, list[1..], Load(m, head + NEXT_OFFSET))
  }

  ghost predicate Chains(m: Bytes, r: Region, heads: seq<int>) {
    |heads| == |r.lists| && forall k :: 0 <= k < |heads| ==> Chain(m, r.blocks, r.lists[k], heads[k])
  }

  // Every block, live or not, carries its magic number and its size.
  ghost predicate Marked(m: Bytes, b: Block) {
    Load(m, b.at) == MAGIC && Load(m, b.at + SIZE_OFFSET) == b.size
  }

  ghost predicate AllMarked(m: Bytes, blocks: seq<Block>) {
    forall i :: 0 <= i < |blocks| ==> Marked(m, blocks[i])
  }

  lemma {:induction false} ChainFrame(m: Bytes, m': Bytes, blocks: seq<Block>, more: seq<Block>, list: seq<int>,
      head: int)
    requires Chain(m, blocks, list, head) && blocks <= more
    requires forall i :: i in list && 0 <= i < |blocks| ==>
                           Load(m', blocks[i].at + NEXT_OFFSET) == Load(m, blocks[i].at + NEXT_OFFSET)
    ensures Chain(m', more, list, head)
    decreases |list|
  {
    hide Load;
    if list != [] {
      assert list[0] in list;
      ChainFrame(m, m', blocks, more, list[1..], Load(m, head + NEXT_OFFSET));
    }
  }

  lemma MarkedFrame(m: Bytes, m': Bytes, b: Block)
    requires Marked(m, b) && Same(m, m', b.at, b.at + NEXT_OFFSET)
    ensures Marked(m', b)
  {
  }

  ghost predicate Ascending(sizes: seq<int>) {
    && (forall k :: 0 <= k < |sizes| ==> 0 < sizes[k] < UINT32)
    && (forall j, k :: 0 <= j < k < |sizes| ==> sizes[j] < sizes[k])
  }

  // The first bucket a request fits, or none.
  function BucketFor(sizes: seq<int>, size: int): (k: int)
    ensures 0 <= k <= |sizes|
    ensures k < |sizes| ==> size <= sizes[k]
    ensures forall j :: 0 <= j < k ==> sizes[j] < size
  {
    if sizes == [] || size <= sizes[0] then 0 else 1 + BucketFor(sizes[1..], size)
  }

  // Larger than every size of the table.
  ghost predicate Above(sizes: seq<int>, size: int) {
    forall k :: 0 <= k < |sizes| ==> sizes[k] < size
  }

  // The least size of the table that a request fits, or its own if it is larger than them all.
  ghost predicate Fitting(sizes: seq<int>, request: int, size: int) {
    if Above(sizes, request) then size == request
    else size in sizes && request <= size && forall k :: 0 <= k < |sizes| && request <= sizes[k] ==> size <= sizes[k]
  }

  // No block of that size is free.
  ghost predicate NoneFree(r: Region, size: int) {
    forall i :: 0 <= i < |r.blocks| && i < |r.status| && r.blocks[i].size == size ==> !r.status[i].Free?
  }

  lemma FittingOnly(sizes: seq<int>, request: int)
    requires Ascending(sizes)
    ensures Fitting(sizes, request, Rounded(sizes, request))
    ensures forall size :: Fitting(sizes, request, size) ==> size == Rounded(sizes, request)
  {
    BucketFitting(sizes, request);
  }

  lemma NoneWaiting(r: Region, sizes: seq<int>, request: int)
    requires Listed(r, sizes) && Ascending(sizes)
    ensures var k := BucketFor(sizes, request);
            NoneFree(r, Rounded(sizes, request)) <==> k == |sizes| || r.lists[k] == []
  {
    hide BucketFor;
    var k := BucketFor(sizes, request);
    if k < |sizes| && r.lists[k] != [] {
      assert OnList(r, sizes, k, r.lists[k][0]);
    } else {
      forall i | 0 <= i < |r.blocks| && r.status[i].Free?
        ensures r.blocks[i].size != Rounded(sizes, request)
      {
        assert i in r.lists[r.status[i].bucket] && OnList(r, sizes, r.status[i].bucket, i);
      }
    }
  }

  lemma BucketFitting(sizes: seq<int>, request: int)
    requires Ascending(sizes)
    ensures var k := BucketFor(sizes, request);
            Fitting(sizes, request, if k < |sizes| then sizes[k] else request)
  {
  }

  // Every block is of a size of the table or larger than all of them, and only such a one is ever lost.
  ghost predicate Sized(r: Region, sizes: seq<int>) {
    && |r.status| == |r.blocks|
    && (forall i :: 0 <= i < |r.blocks| ==> r.blocks[i].size in sizes || Above(sizes, r.blocks[i].size))
    && (forall i :: 0 <= i < |r.blocks| && r.status[i].Lost? ==> Above(sizes, r.blocks[i].size))
  }

  lemma CarveSized(r: Region, sizes: seq<int>, top: int, size: int, request: int)
    requires Sized(r, sizes) && Fitting(sizes, request, size)
    ensures Sized(Carve(r, top, size), sizes)
  {
  }

  lemma TakeSized(r: Region, sizes: seq<int>, k: int)
    requires Sized(r, sizes) && 0 <= k < |r.lists| && r.lists[k] != [] && 0 <= r.lists[k][0] < |r.status|
    ensures Sized(Take(r, k), sizes)
  {
  }

  lemma GiveSized(r: Region, sizes: seq<int>, k: int, i: int)
    requires Sized(r, sizes) && 0 <= k < |r.lists| && 0 <= i < |r.status|
    ensures Sized(Give(r, k, i), sizes)
  {
  }

  lemma LoseSized(r: Region, sizes: seq<int>, i: int)
    requires Sized(r, sizes) && 0 <= i < |r.status| && r.blocks[i].size !in sizes
    ensures Sized(Lose(r, i), sizes)
  {
  }

  // The size a request is rounded to.
  function Rounded(sizes: seq<int>, size: int): int {
    var k := BucketFor(sizes, size);
    if k < |sizes| then sizes[k] else size
  }

  /* ---- What the operations do to the description ---- */

  ghost function Carve(r: Region, top: int, size: int): Region {
    Region(r.blocks + [Block(top, size)], r.status + [Live], r.lists)
  }

  ghost function Take(r: Region, k: int): Region
    requires 0 <= k < |r.lists| && r.lists[k] != [] && 0 <= r.lists[k][0] < |r.status|
  {
    Region(r.blocks, r.status[r.lists[k][0] := Live], r.lists[k := r.lists[k][1..]])
  }

  ghost function Give(r: Region, k: int, i: int): Region
    requires 0 <= k < |r.lists| && 0 <= i < |r.status|
  {
    Region(r.blocks, r.status[i := Free(k)], r.lists[k := [i] + r.lists[k]])
  }

  ghost function Lose(r: Region, i: int): Region
    requires 0 <= i < |r.status|
  {
    r.(status := r.status[i := Lost])
  }

  // A request takes the head of its bucket's list, or if that is empty a new block at the top.
  ghost function Allocated(r: Region, sizes: seq<int>, top: int, request: int): Region {
    var k := BucketFor(sizes, request);
    if k < |sizes| && k < |r.lists| && r.lists[k] != [] && 0 <= r.lists[k][0] < |r.status| then Take(r, k)
    else Carve(r, top, Rounded(sizes, request))
  }

  lemma CarveListed(r: Region, sizes: seq<int>, top: int, size: int)
    requires Listed(r, sizes)
    ensures Listed(Carve(r, top, size), sizes)
  {
  }

  lemma TakeListed(r: Region, sizes: seq<int>, k: int)
    requires Listed(r, sizes) && 0 <= k < |r.lists| && r.lists[k] != []
    ensures 0 <= r.lists[k][0] < |r.status|
    ensures Listed(Take(r, k), sizes)
  {
    var i := r.lists[k][0];
    assert OnList(r, sizes, k, i);
    var r' := Take(r, k);
    forall l, j | 0 <= l < |r'.lists| && j in r'.lists[l]
      ensures OnList(r', sizes, l, j)
    {
      assert j in r.lists[l] && OnList(r, sizes, l, j);
      assert j != i;
    }
    forall j | 0 <= j < |r'.status| && r'.status[j].Free?
      ensures 0 <= r'.status[j].bucket < |r'.lists| && j in r'.lists[r'.status[j].bucket]
    {
      assert j != i && r'.status[j] == r.status[j];
      assert j in r.lists[r.status[j].bucket];
    }
  }

  lemma GiveListed(r: Region, sizes: seq<int>, k: int, i: int)
    requires Listed(r, sizes) && 0 <= k < |sizes| && 0 <= i < |r.status|
    requires r.status[i] == Live && r.blocks[i].size == sizes[k]
    ensures Listed(Give(r, k, i), sizes)
  {
    var r' := Give(r, k, i);
    forall l, j | 0 <= l < |r'.lists| && j in r'.lists[l]
      ensures OnList(r', sizes, l, j)
    {
      if !(l == k && j == i) {
        assert j in r.lists[l] && OnList(r, sizes, l, j);
      }
    }
    assert Distinct(r'.lists[k]) by {
      assert i in r.lists[k] ==> OnList(r, sizes, k, i);
    }
    forall j | 0 <= j < |r'.status| && r'.status[j].Free?
      ensures 0 <= r'.status[j].bucket < |r'.lists| && j in r'.lists[r'.status[j].bucket]
    {
      if j != i {
        assert j in r.lists[r.status[j].bucket];
      }
    }
  }

  lemma LoseListed(r: Region, sizes: seq<int>, i: int)
    requires Listed(r, sizes) && 0 <= i < |r.status| && r.status[i] == Live
    ensures Listed(Lose(r, i), sizes)
  {
  }

  /* ---- What they do to the bytes ---- */

  // The header of every block lies below the top of the region.
  lemma HeaderBelow(blocks: seq<Block>, low: int, top: int, i: int)
    requires Tiled(blocks, low, top) && 0 <= i < |blocks|
    ensures low <= blocks[i].at && blocks[i].at + DATA_OFFSET < End(blocks[i]) <= top
  {
  }

  // Writing a header at the top, or above, leaves all blocks as they are.
  lemma MarkedBelow(m: Bytes, m': Bytes, blocks: seq<Block>, low: int, top: int)
    requires Tiled(blocks, low, top) && AllMarked(m, blocks)
    requires forall x :: x < top ==> m(x) == m'(x)
    ensures AllMarked(m', blocks)
  {
    hide Marked, End;
    forall i | 0 <= i < |blocks|
      ensures Marked(m', blocks[i])
    {
      HeaderBelow(blocks, low, top, i);
      MarkedFrame(m, m', blocks[i]);
    }
  }

  lemma ChainsBelow(m: Bytes, m': Bytes, r: Region, heads: seq<int>, low: int, top: int, size: int)
    requires Tiled(r.blocks, low, top) && Chains(m, r, heads)
    requires forall x :: x < top ==> m(x) == m'(x)
    ensures Chains(m', Carve(r, top, size), heads)
  {
    hide Tiled, Load, Chain, End;
    forall k | 0 <= k < |heads|
      ensures Chain(m', r.blocks + [Block(top, size)], r.lists[k], heads[k])
    {
      forall i | i in r.lists[k] && 0 <= i < |r.blocks|
        ensures Load(m', r.blocks[i].at + NEXT_OFFSET) == Load(m, r.blocks[i].at + NEXT_OFFSET)
      {
        HeaderBelow(r.blocks, low, top, i);
        LoadSame(m, m', r.blocks[i].at + NEXT_OFFSET);
      }
      ChainFrame(m, m', r.blocks, r.blocks + [Block(top, size)], r.lists[k], heads[k]);
    }
  }

  // Writing inside one block from its link on leaves every block marked.
  lemma MarkedInside(m: Bytes, m': Bytes, blocks: seq<Block>, low: int, top: int, i: int)
    requires Tiled(blocks, low, top) && AllMarked(m, blocks) && 0 <= i < |blocks|
    requires SameBut(m, m', blocks[i].at + NEXT_OFFSET, End(blocks[i]))
    ensures AllMarked(m', blocks)
  {
    hide Marked, End, Tiled;
    forall j | 0 <= j < |blocks|
      ensures Marked(m', blocks[j])
    {
      HeaderBelow(blocks, low, top, j);
      HeaderBelow(blocks, low, top, i);
      if i != j {
        BlocksDisjoint(blocks, low, top, i, j);
      }
      MarkedFrame(m, m', blocks[j]);
    }
  }

  // ... and every list that block is not on linked as it was.
  lemma ChainInside(m: Bytes, m': Bytes, blocks: seq<Block>, low: int, top: int, i: int, list: seq<int>, head: int)
    requires Tiled(blocks, low, top) && 0 <= i < |blocks| && i !in list && Chain(m, blocks, list, head)
    requires SameBut(m, m', blocks[i].at, End(blocks[i]))
    ensures Chain(m', blocks, list, head)
  {
    hide Chain, End, Tiled, Load;
    forall j | j in list && 0 <= j < |blocks|
      ensures Load(m', blocks[j].at + NEXT_OFFSET) == Load(m, blocks[j].at + NEXT_OFFSET)
    {
      HeaderBelow(blocks, low, top, j);
      BlocksDisjoint(blocks, low, top, i, j);
      LoadSame(m, m', blocks[j].at + NEXT_OFFSET);
    }
    ChainFrame(m, m', blocks, blocks, list, head);
  }

  lemma TakeChains(m: Bytes, m': Bytes, r: Region, sizes: seq<int>, heads: seq<int>, low: int, top: int, k: int)
    requires Tiled(r.blocks, low, top) && Listed(r, sizes) && Chains(m, r, heads)
    requires 0 <= k < |r.lists| && r.lists[k] != [] && 0 <= r.lists[k][0] < |r.status|
    requires var b := r.blocks[r.lists[k][0]]; SameBut(m, m', b.at, End(b))
    ensures heads[k] == r.blocks[r.lists[k][0]].at
    ensures Chains(m', Take(r, k), heads[k := Load(m, heads[k] + NEXT_OFFSET)])
  {
    var i, r' := r.lists[k][0], Take(r, k);
    var heads' := heads[k := Load(m, heads[k] + NEXT_OFFSET)];
    assert Chain(m, r.blocks, r.lists[k], heads[k]);
    forall l | 0 <= l < |heads|
      ensures Chain(m', r.blocks, r'.lists[l], heads'[l])
    {
      NotElsewhere(r, sizes, k, l);
      assert Chain(m, r.blocks, r.lists[l], heads[l]);
      ChainInside(m, m', r.blocks, low, top, i, r'.lists[l], heads'[l]);
    }
  }

  // The first block of a list is on no other list, nor on the list twice.
  lemma NotElsewhere(r: Region, sizes: seq<int>, k: int, l: int)
    requires Listed(r, sizes) && 0 <= k < |r.lists| && r.lists[k] != [] && 0 <= l < |r.lists|
    ensures r.lists[k][0] !in (if l == k then r.lists[l][1..] else r.lists[l])
  {
    var i := r.lists[k][0];
    assert OnList(r, sizes, k, i);
    assert i in r.lists[l] ==> OnList(r, sizes, l, i);
  }

  lemma GiveChains(m: Bytes, m': Bytes, r: Region, sizes: seq<int>, heads: seq<int>, low: int, top: int, k: int, i: int)
    requires Tiled(r.blocks, low, top) && Listed(r, sizes) && Chains(m, r, heads)
    requires 0 <= k < |r.lists| && 0 <= i < |r.status| && r.status[i] == Live
    requires SameBut(m, m', r.blocks[i].at, End(r.blocks[i])) && Load(m', r.blocks[i].at + NEXT_OFFSET) == heads[k]
    ensures Chains(m', Give(r, k, i), heads[k := r.blocks[i].at])
  {
    hide Tiled, Load;
    var r', heads' := Give(r, k, i), heads[k := r.blocks[i].at];
    forall l | 0 <= l < |heads|
      ensures Chain(m', r.blocks, r'.lists[l], heads'[l])
    {
      assert i in r.lists[l] ==> OnList(r, sizes, l, i);
      ChainInside(m, m', r.blocks, low, top, i, r.lists[l], heads[l]);
      assert r'.lists[k][1..] == r.lists[k];
    }
  }

  lemma RoomNoWrap(size: int, top: int, limit: int)
    requires 0 < size && 0 < top <= limit && limit + size + HEADER_SIZE + 15 < UINT32
    ensures Wrap(HEADER_SIZE + size) == HEADER_SIZE + size
    ensures Extent32(size) == Extent(size)
    ensures Wrap(top + Extent(size)) == top + Extent(size)
  {
  }

  lemma TiledBounds(blocks: seq<Block>, low: int, top: int)
    requires Tiled(blocks, low, top)
    ensures 0 < low <= top
  {
  }

  lemma AllMarkedMore(m: Bytes, blocks: seq<Block>, b: Block)
    requires AllMarked(m, blocks) && Marked(m, b)
    ensures AllMarked(m, blocks + [b])
  {
  }

  lemma HeaderWritten(m: Bytes, at: int, size: int)
    requires 0 <= size < UINT32
    ensures var m' := Store(Store(Store(m, at, MAGIC), at + SIZE_OFFSET, size), at + NEXT_OFFSET, 0);
      Marked(m', Block(at, size)) && SameBut(m, m', at, at + DATA_OFFSET)
  {
    var m1 := Store(m, at, MAGIC);
    var m2 := Store(m1, at + SIZE_OFFSET, size);
    var m3 := Store(m2, at + NEXT_OFFSET, 0);
    hide Store, Load;
    LoadStored(m, at, MAGIC);
    LoadStored(m1, at + SIZE_OFFSET, size);
    LoadStored(m2, at + NEXT_OFFSET, 0);
    LoadSame(m1, m3, at);
    LoadSame(m2, m3, at + SIZE_OFFSET);
  }

  // The head of a list is its first block.
  lemma HeadBlock(m: Bytes, r: Region, sizes: seq<int>, heads: seq<int>, low: int, top: int, k: int)
    requires Tiled(r.blocks, low, top) && Listed(r, sizes) && Chains(m, r, heads) && 0 <= k < |sizes|
    ensures |heads| == |r.lists| == |sizes| && |r.status| == |r.blocks|
    ensures heads[k] == 0 <==> r.lists[k] == []
    ensures heads[k] != 0 ==> OnList(r, sizes, k, r.lists[k][0]) && heads[k] == r.blocks[r.lists[k][0]].at
  {
  }

  lemma TakeServed(r: Region, sizes: seq<int>, low: int, top: int, k: int, request: int)
    requires Tiled(r.blocks, low, top) && Listed(r, sizes) && 0 <= k < |r.lists| && r.lists[k] != []
    requires OnList(r, sizes, k, r.lists[k][0]) && request <= sizes[k] && Fitting(sizes, request, sizes[k])
    ensures Served(r, Take(r, k), sizes, Data(r.blocks[r.lists[k][0]]), request)
  {
    var i := r.lists[k][0];
    assert GoodBlock(r.blocks[i], low, top);
    hide Tiled, Listed, Sized, Fitting, Extent;
    assert ServedAt(r, Take(r, k), sizes, Data(r.blocks[i]), request, i);
  }

  lemma CarveServed(r: Region, sizes: seq<int>, low: int, top: int, size: int, request: int)
    requires Tiled(r.blocks, low, top) && Listed(r, sizes) && request <= size && Fitting(sizes, request, size)
    ensures Served(r, Carve(r, top, size), sizes, top + DATA_OFFSET, request)
  {
    TopAligned(r.blocks, low, top);
    assert ServedAt(r, Carve(r, top, size), sizes, top + DATA_OFFSET, request, |r.blocks|);
  }

  /* ---- The contents of live blocks ---- */

  // Every block that is live in r holds the same bytes in both memories.
  ghost predicate PayloadsKept(r: Region, m: Bytes, m': Bytes)
    requires |r.status| == |r.blocks|
  {
    forall i :: 0 <= i < |r.blocks| && r.status[i] == Live ==>
      Same(m, m', Data(r.blocks[i]), Data(r.blocks[i]) + r.blocks[i].size)
  }

  // Writing inside a block that is not live, or only inside its header, touches no live contents.
  lemma KeptOutside(r: Region, blocks: seq<Block>, low: int, top: int, m: Bytes, m': Bytes, i: int)
    requires Tiled(blocks, low, top) && |r.status| == |r.blocks| && r.blocks <= blocks && 0 <= i < |blocks|
    requires SameBut(m, m', blocks[i].at, End(blocks[i]))
    requires i < |r.blocks| && r.status[i] == Live ==> SameBut(m, m', blocks[i].at, Data(blocks[i]))
    ensures PayloadsKept(r, m, m')
  {
    hide Tiled, End;
    forall j | 0 <= j < |r.blocks| && r.status[j] == Live
      ensures Same(m, m', Data(r.blocks[j]), Data(r.blocks[j]) + r.blocks[j].size)
    {
      if j != i {
        BlocksDisjoint(blocks, low, top, i, j);
      }
    }
  }

  // Writing the contents of a live block leaves all headers and lists alone.
  lemma ContentsWritten(m: Bytes, m': Bytes, r: Region, sizes: seq<int>, heads: seq<int>, low: int, top: int, i: int)
    requires Tiled(r.blocks, low, top) && Listed(r, sizes) && AllMarked(m, r.blocks) && Chains(m, r, heads)
    requires 0 <= i < |r.blocks| && r.status[i] == Live
    requires SameBut(m, m', Data(r.blocks[i]), Data(r.blocks[i]) + r.blocks[i].size)
    ensures AllMarked(m', r.blocks) && Chains(m', r, heads)
  {
    hide Tiled, Load, AllMarked, End;
    ContentsInside(r.blocks, low, top, i);
    MarkedInside(m, m', r.blocks, low, top, i);
    forall k | 0 <= k < |heads|
      ensures Chain(m', r.blocks, r.lists[k], heads[k])
    {
      assert i in r.lists[k] ==> OnList(r, sizes, k, i);
      ChainInside(m, m', r.blocks, low, top, i, r.lists[k], heads[k]);
    }
  }

  lemma ContentsInside(blocks: seq<Block>, low: int, top: int, i: int)
    requires Tiled(blocks, low, top) && 0 <= i < |blocks|
    ensures Data(blocks[i]) + blocks[i].size < End(blocks[i]) <= top && 0 < blocks[i].size && low <= blocks[i].at
  {
  }

  /* ---- The allocator ---- */

  class Allocator {
    const low: int
    const limit: int
    const sizes: seq<int>

    var mem: Bytes
    var nextBlock: int
    var heads: seq<int>

    ghost var region: Region

    ghost predicate Valid()
      reads this
    {
      && Ascending(sizes) && limit < UINT32 && nextBlock <= limit
      && Tiled(region.blocks, low, nextBlock)
      && Listed(region, sizes) && Sized(region, sizes)
      && AllMarked(mem, region.blocks)
      && Chains(mem, region, heads)
    }

    // The pointer was handed out for block i, which has not been freed since.
    ghost predicate LiveAt(ptr: int, i: int)
      requires Valid()
      reads this
    {
      0 <= i < |region.blocks| && region.status[i] == Live && ptr == Data(region.blocks[i])
    }

    ghost predicate IsLive(ptr: int)
      requires Valid()
      reads this
    {
      exists i :: LiveAt(ptr, i)
    }

    // The request neither wraps around when it is rounded nor when it is added to the heap's end.
    predicate Representable(size: int)
      reads this
    {
      0 <= size < UINT32 && limit + Rounded(sizes, size) + HEADER_SIZE + 15 < UINT32
    }

    constructor (low: int, limit: int, sizes: seq<int>, mem: Bytes)
      requires 0 < low <= limit < UINT32 && low % 4 == 0 && Ascending(sizes)
      ensures Valid() && this.low == low && this.limit == limit && this.sizes == sizes
      ensures region.blocks == [] && this.mem == mem
    {
      this.low, this.limit, this.sizes, this.mem := low, limit, sizes, mem;
      nextBlock, heads := low, seq(|sizes|, _ => 0);
      region := Region([], [], seq(|sizes|, _ => []));
    }

    // The loop over the bucket table.
    method FindBucket(size: int) returns (k: int)
      ensures k == BucketFor(sizes, size)
    {
      k := 0;
      while k < |sizes|
        invariant 0 <= k <= |sizes|
        invariant BucketFor(sizes, size) == k + BucketFor(sizes[k..], size)
      {
        if size <= sizes[k] {
          return;
        }
        k := k + 1;
      }
    }

    /** A request of size zero, or one that neither a free list nor the rest of the region can serve,
        gets a null pointer and changes nothing. Any other gets a new live block, aligned and large
        enough; only that block's header changes, and every other block keeps its status. */
    method Malloc(request: int) returns (ptr: int)
      requires Valid() && Representable(request)
      modifies this
      ensures Valid()
      ensures ptr == 0 <==> request == 0 || old(!CanServe(request))
      ensures request != 0 ==>
                (ptr == 0 <==> forall size :: Fitting(sizes, request, size) ==>
                                 limit < old(nextBlock) + Extent(size) && NoneFree(old(region), size))
      ensures ptr == 0 ==>
                mem == old(mem) && region == old(region) && nextBlock == old(nextBlock) && heads == old(heads)
      ensures ptr != 0 ==>
                Served(old(region), region, sizes, ptr, request) && SameBut(old(mem), mem, ptr - DATA_OFFSET, ptr)
      ensures ptr != 0 ==> region == Allocated(old(region), sizes, old(nextBlock), request)
      ensures PayloadsKept(old(region), old(mem), mem)
    {
      hide Tiled, Listed, Sized, Fitting, AllMarked, Chains, Served, PayloadsKept, BucketFor, Extent, Wrap;
      Counted(region, sizes);
      Unchanged(region, mem);
      FittingOnly(sizes, request);
      NoneWaiting(region, sizes, request);
      if request == 0 {
        return 0;
      }
      var k := FindBucket(request);
      BucketFitting(sizes, request);
      if k < |sizes| {
        HeadBlock(mem, region, sizes, heads, low, nextBlock, k);
      }
      var size := if k < |sizes| then sizes[k] else request;
      if k < |sizes| && heads[k] != 0 {
        ptr := TakeFree(k, request);
      } else {
        ptr := CarveBlock(size, request);
      }
      if ptr != 0 {
        NewHeaderOnly(old(region), region, sizes, low, nextBlock, old(mem), mem, ptr, request);
      }
    }

    // The head of a bucket's list comes off.
    method TakeFree(k: int, ghost request: int) returns (ptr: int)
      requires Valid() && 0 <= k < |sizes| && request <= sizes[k] && heads[k] != 0
      requires Fitting(sizes, request, sizes[k])
      modifies this
      ensures Valid() && ptr != 0
      ensures old(0 <= k < |region.lists| && region.lists[k] != [] && 0 <= region.lists[k][0] < |region.status|)
      ensures region == Take(old(region), k)
      ensures Served(old(region), region, sizes, ptr, request)
      ensures SameBut(old(mem), mem, ptr - DATA_OFFSET, ptr)
    {
      hide Tiled, Listed, Sized, Fitting, AllMarked, Chains, Served;
      HeadBlock(mem, region, sizes, heads, low, nextBlock, k);
      var header := heads[k];
      TakeListed(region, sizes, k);
      TakeSized(region, sizes, k);
      ghost var i := region.lists[k][0];
      var m := Store(mem, header + NEXT_OFFSET, 0);
      LoadStored(mem, header + NEXT_OFFSET, 0);
      HeaderBelow(region.blocks, low, nextBlock, i);
      MarkedInside(mem, m, region.blocks, low, nextBlock, i);
      TakeChains(mem, m, region, sizes, heads, low, nextBlock, k);

      heads := heads[k := Load(mem, header + NEXT_OFFSET)];
      mem := m;
      region := Take(region, k);
      ptr := header + DATA_OFFSET;
      TiledBounds(region.blocks, low, nextBlock);
      TakeServed(old(region), sizes, low, nextBlock, k, request);
    }

    // A new block at the end of the region, with its header.
    method CarveBlock(size: int, ghost request: int) returns (ptr: int)
      requires Valid() && 0 < size && request <= size && limit + size + HEADER_SIZE + 15 < UINT32
      requires Fitting(sizes, request, size)
      modifies this
      ensures Valid()
      ensures ptr == 0 <==> limit < old(nextBlock) + Extent(size)
      ensures ptr == 0 ==>
                mem == old(mem) && region == old(region) && nextBlock == old(nextBlock) && heads == old(heads)
      ensures ptr != 0 ==>
                Served(old(region), region, sizes, ptr, request) && region == Carve(old(region), old(nextBlock), size)
      ensures ptr != 0 ==> SameBut(old(mem), mem, ptr - DATA_OFFSET, ptr)
    {
      hide Tiled, Listed, Sized, Fitting, AllMarked, Chains, Served, Wrap;
      var header := nextBlock;
      var t1: int := Wrap(HEADER_SIZE + size);
      var t2 := Wrap(t1 + 15) - Wrap(t1 + 15) % 16;
      TiledBounds(region.blocks, low, nextBlock);
      RoomNoWrap(size, nextBlock, limit);
      var next := Wrap(nextBlock + t2);
      if next > limit {
        return 0;
      }

      var m := Store(Store(mem, header, MAGIC), header + SIZE_OFFSET, size);
      m := Store(m, header + NEXT_OFFSET, 0);
      HeaderWritten(mem, header, size);
      TiledMore(region.blocks, low, nextBlock, size);
      CarveListed(region, sizes, nextBlock, size);
      CarveSized(region, sizes, nextBlock, size, request);
      MarkedBelow(mem, m, region.blocks, low, nextBlock);
      AllMarkedMore(m, region.blocks, Block(nextBlock, size));
      ChainsBelow(mem, m, region, heads, low, nextBlock, size);

      region := Carve(region, nextBlock, size);
      nextBlock := next;
      mem := m;
      ptr := header + DATA_OFFSET;
      CarveServed(old(region), sizes, low, old(nextBlock), size, request);
    }

    /** Freeing a live block puts it at the head of its size's list, or loses it if it is oversize.
        Only its link changes. Freeing null does nothing. */
    method Free(ptr: int)
      requires Valid() && (ptr == 0 || IsLive(ptr))
      modifies this
      ensures Valid() && nextBlock == old(nextBlock)
      ensures ptr == 0 ==> mem == old(mem) && region == old(region) && heads == old(heads)
      ensures forall i :: old(LiveAt(ptr, i)) ==> region == Freed(old(region), sizes, i)
      ensures ptr != 0 ==> SameBut(old(mem), mem, ptr - DATA_OFFSET, ptr)
      ensures PayloadsKept(old(region), old(mem), mem)
    {
      if ptr == 0 {
        return;
      }
      ghost var i :| LiveAt(ptr, i);
      LiveUnique(region, low, nextBlock, ptr, i);
      hide Tiled, Listed, Sized, Fitting, AllMarked, Chains, Freed;
      BlockMarked(mem, region.blocks, i);
      var header := ptr - DATA_OFFSET;
      if Load(mem, header) != MAGIC {
        return;
      }
      Release(header, i);
    }

    // The search for the block's size and what follows from it.
    method Release(header: int, ghost i: int)
      requires Valid() && 0 <= i < |region.status| == |region.blocks| && region.status[i] == Live
      requires region.blocks[i].at == header
      modifies this
      ensures Valid() && nextBlock == old(nextBlock) && region == Freed(old(region), sizes, i)
      ensures SameBut(old(mem), mem, header, header + DATA_OFFSET)
      ensures PayloadsKept(old(region), old(mem), mem)
    {
      hide Tiled, Listed, Sized, Fitting, AllMarked, Chains, Freed, PayloadsKept;
      BlockMarked(mem, region.blocks, i);
      ContentsInside(region.blocks, low, nextBlock, i);
      var k := FindSize(Load(mem, header + SIZE_OFFSET));
      FreedIs(region, sizes, k, i);
      if k < |sizes| {
        Link(k, header, i);
      } else {
        LoseListed(region, sizes, i);
        LoseSized(region, sizes, i);
        LoseChains(mem, region, heads, i);
        region := Lose(region, i);
      }
      KeptOutside(old(region), region.blocks, low, nextBlock, old(mem), mem, i);
    }

    // The loop over the bucket table that looks for an exact size.
    method FindSize(size: int) returns (k: int)
      ensures 0 <= k <= |sizes|
      ensures k < |sizes| ==> sizes[k] == size
      ensures k == |sizes| ==> size !in sizes
    {
      k := 0;
      while k < |sizes|
        invariant 0 <= k <= |sizes| && size !in sizes[..k]
      {
        if size == sizes[k] {
          return;
        }
        k := k + 1;
      }
    }

    // The block goes in front of a bucket's list.
    method Link(k: int, header: int, ghost i: int)
      requires Valid() && 0 <= k < |sizes| && 0 <= i < |region.status| == |region.blocks|
      requires region.status[i] == Live && region.blocks[i].at == header && region.blocks[i].size == sizes[k]
      modifies this
      ensures Valid() && nextBlock == old(nextBlock) && region == Give(old(region), k, i)
      ensures SameBut(old(mem), mem, header, header + DATA_OFFSET)
    {
      hide Tiled, Listed, Sized, Fitting, AllMarked, Chains;
      HeadBlock(mem, region, sizes, heads, low, nextBlock, k);
      HeadRange(mem, region, sizes, heads, low, nextBlock, k);
      var m := Store(mem, header + NEXT_OFFSET, heads[k]);
      LoadStored(mem, header + NEXT_OFFSET, heads[k]);
      HeaderBelow(region.blocks, low, nextBlock, i);
      GiveListed(region, sizes, k, i);
      GiveSized(region, sizes, k, i);
      MarkedInside(mem, m, region.blocks, low, nextBlock, i);
      GiveChains(mem, m, region, sizes, heads, low, nextBlock, k, i);
      mem := m;
      heads := heads[k := header];
      region := Give(region, k, i);
    }

    method GetAllocated(ptr: int) returns (size: int)
      requires Valid() && (ptr == 0 || IsLive(ptr))
      ensures ptr == 0 ==> size == 0
      ensures forall i :: LiveAt(ptr, i) ==> size == region.blocks[i].size
    {
      if ptr == 0 {
        return 0;
      }
      ghost var i :| LiveAt(ptr, i);
      LiveUnique(region, low, nextBlock, ptr, i);
      BlockMarked(mem, region.blocks, i);
      var header := ptr - DATA_OFFSET;
      if Load(mem, header) != MAGIC {
        return 0;
      }
      return Load(mem, header + SIZE_OFFSET);
    }

    // The word loop and the byte loop of calloc.
    method ZeroFill(ptr: int, count: int)
      requires 0 <= count
      modifies this`mem
      ensures SameBut(old(mem), mem, ptr, ptr + count) && Zero(mem, ptr, count)
    {
      hide SameBut, Zero;
      LoopStart(mem, ptr, ptr);
      var done := 0;
      while count - done >= 4
        invariant 0 <= done <= count && SameBut(old(mem), mem, ptr, ptr + done) && Zero(mem, ptr, done)
      {
        ZeroWord(old(mem), mem, ptr, done);
        mem := Store(mem, ptr + done, 0);
        done := done + 4;
      }
      while count - done > 0
        invariant 0 <= done <= count && SameBut(old(mem), mem, ptr, ptr + done) && Zero(mem, ptr, done)
      {
        ZeroByte(old(mem), mem, ptr, done);
        mem := StoreByte(mem, ptr + done, 0);
        done := done + 1;
      }
    }

    /** calloc: as malloc, and the bytes asked for are zero. */
    method Calloc(n: int, size: int) returns (ptr: int)
      requires Valid() && 0 <= n && 0 <= size && Representable(Total(n, size))
      modifies this
      ensures Valid()
      ensures ptr == 0 <==> Total(n, size) == 0 || old(!CanServe(Total(n, size)))
      ensures ptr == 0 ==> mem == old(mem) && region == old(region)
      ensures ptr != 0 ==> Served(old(region), region, sizes, ptr, Total(n, size)) && Zero(mem, ptr, Total(n, size))
      ensures PayloadsKept(old(region), old(mem), mem)
    {
      hide Tiled, Listed, Sized, Fitting, AllMarked, Chains, PayloadsKept, CanServe, Rounded, Wrap, Served, Zero, Total,
           Ascending, BucketFor;
      Counted(region, sizes);
      TotalZero(n, size);
      if n == 0 || size == 0 {
        Unchanged(region, mem);
        return 0;
      }
      NoWrap(Total(n, size));
      var total := Wrap(Total(n, size));
      ptr := Malloc(total);
      if ptr == 0 {
        return 0;
      }
      ClearNew(old(region), old(mem), ptr, total);
    }

    // Zeroing the front of a new block's contents.
    method ClearNew(ghost before: Region, ghost m: Bytes, ptr: int, total: int)
      requires Valid() && |before.status| == |before.blocks| && 0 <= total
      requires Served(before, region, sizes, ptr, total) && PayloadsKept(before, m, mem)
      modifies this
      ensures Valid() && region == old(region)
      ensures Zero(mem, ptr, total) && PayloadsKept(before, m, mem)
    {
      ghost var i :| ServedAt(before, region, sizes, ptr, total, i);
      hide Tiled, Listed, Sized, Fitting, AllMarked, Chains, PayloadsKept;
      ZeroFill(ptr, total);
      NewContents(before, region, sizes, heads, low, nextBlock, old(mem), mem, ptr, total, i);
      KeptTwice(before, m, old(mem), mem);
    }

    // The word loop and the byte loop of realloc, which run on past the end of the old block. What
    // they copy from a source that does not meet the target arrives unchanged.
    method CopyUp(to: int, from: int, count: int, ghost kept: int)
      requires 0 <= kept <= count && (from + kept <= to || to + count <= from)
      modifies this`mem
      ensures SameBut(old(mem), mem, to, to + count) && Copied(old(mem), from, mem, to, kept)
    {
      hide SameBut, Copied;
      LoopStart(mem, to, from);
      var done := 0;
      while count - done >= 4
        invariant 0 <= done <= count
        invariant SameBut(old(mem), mem, to, to + done) && Copied(old(mem), from, mem, to, Min(done, kept))
      {
        CopiedWord(old(mem), mem, from, to, done, kept, count);
        mem := CopyWord(mem, to + done, from + done);
        done := done + 4;
      }
      while count - done > 0
        invariant 0 <= done <= count
        invariant SameBut(old(mem), mem, to, to + done) && Copied(old(mem), from, mem, to, Min(done, kept))
      {
        CopiedByte(old(mem), mem, from, to, done, kept, count);
        mem := StoreByte(mem, to + done, mem(from + done));
        done := done + 1;
      }
    }

    /** realloc of a live block: in place when the block is large enough; otherwise a new block that
        starts with the old one's whole contents, and the old one freed; or, when there is no room,
        null with nothing changed. Size zero frees. */
    method Realloc(ptr: int, newsize: int) returns (result: int)
      requires Valid() && (ptr == 0 || IsLive(ptr)) && Representable(newsize)
      modifies this
      ensures Valid()
      ensures ptr == 0 ==>
                && (result == 0 <==> newsize == 0 || old(!CanServe(newsize)))
                && (result != 0 ==> Served(old(region), region, sizes, result, newsize))
      ensures ptr != 0 && newsize == 0 ==>
                result == 0 && forall i :: old(LiveAt(ptr, i)) ==> region == Freed(old(region), sizes, i)
      ensures forall i :: ptr != 0 && newsize != 0 && old(LiveAt(ptr, i)) ==>
                Reallocated(old(region), region, sizes, old(mem), mem, ptr, i, newsize, result, old(CanServe(newsize)))
      ensures PayloadsKept(old(region), old(mem), mem)
    {
      hide Tiled, Listed, Sized, Fitting, AllMarked, Chains, Freed, Wrap, Extent, PayloadsKept, Served, Ascending,
           Rounded, Copied;
      hide CanServe, BucketFor, MovedTo;
      Counted(region, sizes);
      if ptr == 0 {
        result := Malloc(newsize);
        return;
      }
      if newsize == 0 {
        Free(ptr);
        return 0;
      }
      ghost var i :| LiveAt(ptr, i);
      LiveUnique(region, low, nextBlock, ptr, i);
      var current := GetAllocated(ptr);
      if current >= newsize {
        Unchanged(region, mem);
        return ptr;
      }
      result := Grow(ptr, newsize, i);
    }

    method Grow(ptr: int, newsize: int, ghost i: int) returns (result: int)
      requires Valid() && ptr != 0 && LiveAt(ptr, i) && region.blocks[i].size < newsize && Representable(newsize)
      modifies this
      ensures Valid()
      ensures Reallocated(old(region), region, sizes, old(mem), mem, ptr, i, newsize, result, old(CanServe(newsize)))
      ensures PayloadsKept(old(region), old(mem), mem)
    {
      hide Tiled, Listed, Sized, Fitting, AllMarked, Chains, PayloadsKept, Served, Ascending, Rounded, Copied,
           CanServe, BucketFor, MovedTo;
      Counted(region, sizes);
      ContentsInside(region.blocks, low, nextBlock, i);
      result := Malloc(newsize);
      if result != 0 {
        Move(old(region), old(mem), ptr, result, newsize, i);
      }
    }

    // The copy from the old block to the new one, and the release of the old one.
    method Move(ghost before: Region, ghost m: Bytes, ptr: int, result: int, newsize: int, ghost i: int)
      requires Valid() && |before.status| == |before.blocks| && 0 <= i < |before.blocks| && before.status[i] == Live
      requires ptr == Data(before.blocks[i]) && before.blocks[i].size < newsize
      requires Served(before, region, sizes, result, newsize) && PayloadsKept(before, m, mem)
      modifies this
      ensures Valid() && MovedTo(before, old(region), region, sizes, i, newsize, result)
      ensures Copied(m, ptr, mem, result, before.blocks[i].size)
      ensures PayloadsKept(before, m, mem)
    {
      hide Tiled, Listed, Sized, Fitting, AllMarked, Chains, PayloadsKept, Served, ServedAt, Freed, Copied, Ascending;
      ghost var j := ServedBlock(before, region, sizes, result, newsize);
      CopyNew(before, m, ptr, result, newsize, i, j);
      StillLive(before, region, sizes, result, newsize, i);
      assert LiveAt(ptr, i);
      ghost var copied := mem;
      Counted(region, sizes);
      Free(ptr);
      AfterFree(before, old(region), sizes, m, copied, mem, ptr, result, newsize, before.blocks[i].size);
    }

    method CopyNew(ghost before: Region, ghost m: Bytes, ptr: int, result: int, newsize: int, ghost i: int,
        ghost j: int)
      requires Valid() && |before.status| == |before.blocks| && 0 <= i < |before.blocks| && before.status[i] == Live
      requires ptr == Data(before.blocks[i]) && before.blocks[i].size < newsize
      requires ServedAt(before, region, sizes, result, newsize, j) && PayloadsKept(before, m, mem)
      modifies this`mem
      ensures Valid()
      ensures Copied(m, ptr, mem, result, before.blocks[i].size) && PayloadsKept(before, m, mem)
    {
      ghost var size := before.blocks[i].size;
      assert Same(m, mem, ptr, ptr + size);
      hide Tiled, Listed, Sized, Fitting, AllMarked, Chains, PayloadsKept, Ascending, Served, ServedAt, Copied, SameBut;
      Apart(before, region, sizes, low, nextBlock, result, newsize, i, j);
      CopyUp(result, ptr, newsize, size);
      NewContents(before, region, sizes, heads, low, nextBlock, old(mem), mem, result, newsize, j);
      KeptTwice(before, m, old(mem), mem);
      CopiedFrom(m, old(mem), mem, ptr, result, size);
    }

    /** A block of a table size that has been freed serves the next request that fits this size and none smaller. */
    method Reuse(ptr: int, request: int, ghost i: int) returns (again: int)
      requires Valid() && LiveAt(ptr, i) && request != 0 && Representable(request)
      requires region.blocks[i].size in sizes && request <= region.blocks[i].size
      requires forall k :: 0 <= k < |sizes| && sizes[k] < region.blocks[i].size ==> sizes[k] < request
      modifies this
      ensures Valid() && again == ptr && LiveAt(ptr, i)
      ensures region.blocks == old(region.blocks) && region.status == old(region.status)
    {
      hide Tiled, Listed, Sized, AllMarked, Chains, PayloadsKept, Extent, Wrap, BucketFor;
      Counted(region, sizes);
      ghost var k := IndexOf(sizes, region.blocks[i].size);
      FreedIs(region, sizes, k, i);
      BucketIs(sizes, request, k);
      TiledBounds(region.blocks, low, nextBlock);
      DataPositive(region.blocks, low, nextBlock, i);
      Free(ptr);
      ghost var between := region;
      again := Malloc(request);
      assert region.status == old(region.status);
      SameBlock(between, region, sizes, again, request, i);
    }

    /** The client writes inside the contents of live block i: the heap stays in order. */
    method Poke(ptr: int, index: int, value: Octet, ghost i: int)
      requires Valid() && LiveAt(ptr, i) && 0 <= index < region.blocks[i].size
      modifies this`mem
      ensures Valid() && mem(ptr + index) == value && SameBut(old(mem), mem, ptr + index, ptr + index + 1)
    {
      ghost var lo, hi := Data(region.blocks[i]), Data(region.blocks[i]) + region.blocks[i].size;
      ByteStored(mem, ptr + index, value, lo, hi);
      hide Tiled, Listed, Sized, Fitting, AllMarked, Chains, Ascending, StoreByte, SameBut, Data;
      var m := StoreByte(mem, ptr + index, value);
      ContentsWritten(mem, m, region, sizes, heads, low, nextBlock, i);
      mem := m;
    }

    // A block of the right size waits on a list, or the rest of the region is large enough.
    ghost predicate CanServe(request: int)
      requires Valid()
      reads this
    {
      var k := BucketFor(sizes, request);
      (k < |sizes| && region.lists[k] != []) || nextBlock + Extent(Rounded(sizes, request)) <= limit
    }
  }

  // What freeing block i makes of the description.
  ghost function Freed(r: Region, sizes: seq<int>, i: int): Region
    requires 0 <= i < |r.blocks| == |r.status| && |r.lists| == |sizes|
  {
    if r.blocks[i].size in sizes then
      var k :| 0 <= k < |sizes| && sizes[k] == r.blocks[i].size;
      Give(r, k, i)
    else
      Lose(r, i)
  }

  lemma IndexOf(sizes: seq<int>, size: int) returns (k: int)
    requires size in sizes
    ensures 0 <= k < |sizes| && sizes[k] == size
  {
    k :| 0 <= k < |sizes| && sizes[k] == size;
  }

  lemma BucketIs(sizes: seq<int>, request: int, k: int)
    requires Ascending(sizes) && 0 <= k < |sizes| && request <= sizes[k]
    requires forall j :: 0 <= j < |sizes| && sizes[j] < sizes[k] ==> sizes[j] < request
    ensures BucketFor(sizes, request) == k
  {
    hide BucketFor;
    var b := BucketFor(sizes, request);
    assert b <= k ==> b < |sizes|;
  }

  lemma DataPositive(blocks: seq<Block>, low: int, top: int, i: int)
    requires Tiled(blocks, low, top) && 0 <= i < |blocks|
    ensures Data(blocks[i]) > 0
  {
  }

  // The block served is the only one whose status has become live.
  lemma SameBlock(r: Region, r': Region, sizes: seq<int>, ptr: int, request: int, i: int)
    requires Served(r, r', sizes, ptr, request) && 0 <= i < |r.status| == |r.blocks|
    requires r'.blocks == r.blocks && r'.status == r.status[i := Live] && r.status[i] != Live
    ensures ptr == Data(r.blocks[i])
  {
  }

  lemma ServedBlock(r: Region, r': Region, sizes: seq<int>, ptr: int, request: int) returns (i: int)
    requires Served(r, r', sizes, ptr, request)
    ensures ServedAt(r, r', sizes, ptr, request, i)
  {
    i :| ServedAt(r, r', sizes, ptr, request, i);
  }

  lemma Counted(r: Region, sizes: seq<int>)
    requires Listed(r, sizes)
    ensures |r.status| == |r.blocks| && |r.lists| == |sizes|
  {
  }

  lemma FreedIs(r: Region, sizes: seq<int>, k: int, i: int)
    requires 0 <= i < |r.blocks| == |r.status| && Listed(r, sizes) && Ascending(sizes) && 0 <= k <= |sizes|
    requires if k < |sizes| then sizes[k] == r.blocks[i].size else r.blocks[i].size !in sizes
    ensures |r.lists| == |sizes|
    ensures Freed(r, sizes, i) == if k < |sizes| then Give(r, k, i) else Lose(r, i)
  {
  }

  lemma LiveUnique(r: Region, low: int, top: int, ptr: int, i: int)
    requires Tiled(r.blocks, low, top) && 0 <= i < |r.blocks| && ptr == Data(r.blocks[i])
    ensures forall j :: 0 <= j < |r.blocks| && ptr == Data(r.blocks[j]) ==> j == i
  {
  }

  lemma BlockMarked(m: Bytes, blocks: seq<Block>, i: int)
    requires AllMarked(m, blocks) && 0 <= i < |blocks|
    ensures Marked(m, blocks[i])
  {
  }

  lemma LoseChains(m: Bytes, r: Region, heads: seq<int>, i: int)
    requires Chains(m, r, heads) && 0 <= i < |r.status|
    ensures Chains(m, Lose(r, i), heads)
  {
  }

  lemma HeadRange(m: Bytes, r: Region, sizes: seq<int>, heads: seq<int>, low: int, top: int, k: int)
    requires Tiled(r.blocks, low, top) && Listed(r, sizes) && Chains(m, r, heads) && 0 <= k < |sizes|
    ensures |heads| == |sizes| && 0 <= heads[k] <= top
  {
  }

  // The bytes calloc is asked for.
  function Total(n: int, size: int): int {
    n * size
  }

  lemma TotalZero(n: int, size: int)
    requires 0 <= n && 0 <= size
    ensures Total(n, size) == 0 <==> n == 0 || size == 0
    ensures 0 <= Total(n, size)
  {
  }

  lemma Unchanged(r: Region, m: Bytes)
    requires |r.status| == |r.blocks|
    ensures PayloadsKept(r, m, m)
  {
  }

  lemma KeptTwice(r: Region, m: Bytes, m': Bytes, m'': Bytes)
    requires |r.status| == |r.blocks| && PayloadsKept(r, m, m') && PayloadsKept(r, m', m'')
    ensures PayloadsKept(r, m, m'')
  {
  }

  lemma NewContents(before: Region, r: Region, sizes: seq<int>, heads: seq<int>, low: int, top: int,
                    m: Bytes, m': Bytes, ptr: int, count: int, i: int)
    requires Tiled(r.blocks, low, top) && Listed(r, sizes) && AllMarked(m, r.blocks) && Chains(m, r, heads)
    requires |before.status| == |before.blocks| && ServedAt(before, r, sizes, ptr, count, i)
    requires SameBut(m, m', ptr, ptr + count)
    ensures AllMarked(m', r.blocks) && Chains(m', r, heads)
    ensures PayloadsKept(before, m, m')
  {
    hide Tiled, Listed, Sized, Fitting, AllMarked, Chains, PayloadsKept;
    ContentsInside(r.blocks, low, top, i);
    ContentsWritten(m, m', r, sizes, heads, low, top, i);
    KeptOutside(before, r.blocks, low, top, m, m', i);
  }

  // Freeing the old block takes nothing from what was copied to the new one.
  lemma AfterFree(before: Region, r: Region, sizes: seq<int>, m: Bytes, copied: Bytes, m': Bytes, ptr: int,
                  result: int, newsize: int, n: int)
    requires |before.status| == |before.blocks| && |r.status| == |r.blocks| && Served(before, r, sizes, result, newsize)
             && n <= newsize
    requires PayloadsKept(before, m, copied) && Copied(m, ptr, copied, result, n)
    requires PayloadsKept(r, copied, m')
    ensures PayloadsKept(before, m, m') && Copied(m, ptr, m', result, n)
  {
  }

  // A newly served block and a live one of before do not meet.
  lemma Apart(before: Region, r: Region, sizes: seq<int>, low: int, top: int, result: int, newsize: int, i: int, j: int)
    requires Tiled(r.blocks, low, top) && ServedAt(before, r, sizes, result, newsize, j)
    requires 0 <= i < |before.blocks| && before.status[i] == Live && before.blocks[i].size <= newsize
    ensures var from := Data(before.blocks[i]);
      0 < before.blocks[i].size && (from + before.blocks[i].size <= result || result + newsize <= from)
  {
  }

  lemma CopiedFrom(m: Bytes, m': Bytes, m'': Bytes, from: int, to: int, n: int)
    requires Same(m, m', from, from + n) && Copied(m', from, m'', to, n)
    ensures Copied(m, from, m'', to, n)
  {
  }

  lemma StillLive(r: Region, r': Region, sizes: seq<int>, ptr: int, request: int, i: int)
    requires Served(r, r', sizes, ptr, request) && 0 <= i < |r.blocks| == |r.status| && r.status[i] == Live
    ensures i < |r'.blocks| == |r'.status| && r'.status[i] == Live && r'.blocks[i] == r.blocks[i]
  {
  }

  // What reallocating live block i to a size that is not zero does.
  ghost predicate Reallocated(r: Region, r': Region, sizes: seq<int>, m: Bytes, m': Bytes,
                              ptr: int, i: int, newsize: int, result: int, served: bool)
    requires 0 <= i < |r.blocks| == |r.status|
  {
    if newsize <= r.blocks[i].size then
      result == ptr && r' == r && m' == m
    else if !served then
      result == 0 && r' == r && m' == m
    else
      && (exists r1 :: MovedTo(r, r1, r', sizes, i, newsize, result))
      && Copied(m, ptr, m', result, r.blocks[i].size)
  }

  // A block was served, and then block i freed.
  ghost predicate MovedTo(r: Region, r1: Region, r': Region, sizes: seq<int>, i: int, newsize: int, result: int) {
    && Served(r, r1, sizes, result, newsize)
    && 0 <= i < |r1.blocks| == |r1.status| && |r1.lists| == |sizes| && r' == Freed(r1, sizes, i)
  }

  lemma NewHeaderOnly(r: Region, r': Region, sizes: seq<int>, low: int, top: int, m: Bytes, m': Bytes, ptr: int,
                      request: int)
    requires Tiled(r'.blocks, low, top) && Served(r, r', sizes, ptr, request) && |r.status| == |r.blocks|
    requires SameBut(m, m', ptr - DATA_OFFSET, ptr)
    ensures PayloadsKept(r, m, m')
  {
  }

  // A new live block for a request; all other blocks are what they were.
  ghost predicate Served(r: Region, r': Region, sizes: seq<int>, ptr: int, request: int) {
    exists i :: ServedAt(r, r', sizes, ptr, request, i)
  }

  ghost predicate ServedAt(r: Region, r': Region, sizes: seq<int>, ptr: int, request: int, i: int) {
    && 0 <= i < |r'.blocks| && |r.blocks| == |r.status| && |r'.blocks| == |r'.status|
    && r'.status[i] == Live && ptr == Data(r'.blocks[i]) && ptr % 4 == 0 && request <= r'.blocks[i].size
    && Fitting(sizes, request, r'.blocks[i].size)
    && (i < |r.blocks| ==> r.status[i] != Live)
    && r.blocks <= r'.blocks
    && (forall j :: 0 <= j < |r.blocks| && j != i ==> r'.status[j] == r.status[j])
    && (|r'.blocks| == |r.blocks| || (|r'.blocks| == |r.blocks| + 1 && i == |r.blocks|))
  }
}
