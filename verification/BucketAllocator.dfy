/**
  The size-class allocator of source/base/bucket_pool.h.

  Memory is modelled by the blocks that a pool has outstanding at the system allocator.  Each block has a size
  and the two words of its header: the second always tells the bucket, the first holds the allocated
  size while the block belongs to the user and the link to the next block while it is cached, just as
  FreeBlock overlays AllocHeader.  Address 0 is the null pointer.
 */
module BucketAllocator {
  import opened Common

  const SIZE_MAX := 0xFFFF_FFFF_FFFF_FFFF
  const HEADER_SIZE := 16
  const NO_BUCKET := SIZE_MAX

  type Address = nat

  datatype Bucket = Bucket(size: nat, maxFree: nat)

  datatype Block = Block(size: nat, first: nat, bucket: nat)

  datatype Heap = Heap(blocks: map<Address, Block>, mallocs: nat, frees: nat)

  datatype Pool = Pool(buckets: seq<Bucket>, lists: seq<Address>, counts: seq<nat>, heap: Heap)

  /** b is the first class that is large enough, or none when all of them are too small. */
  predicate IsClass(buckets: seq<Bucket>, total: nat, b: nat) {
    if b == NO_BUCKET then forall i :: 0 <= i < |buckets| ==> buckets[i].size < total
    else b < |buckets| && total <= buckets[b].size && forall i :: 0 <= i < b ==> buckets[i].size < total
  }

  function BucketFor(buckets: seq<Bucket>, total: nat): (b: nat)
    requires |buckets| < NO_BUCKET
    ensures IsClass(buckets, total, b)
  {
    if buckets == [] then NO_BUCKET
    else if total <= buckets[0].size then 0
    else
      var b := BucketFor(buckets[1..], total);
      if b == NO_BUCKET then assert forall i :: 0 < i < |buckets| ==> buckets[i] == buckets[1..][i - 1]; NO_BUCKET
      else assert forall i :: 0 < i <= b ==> buckets[i] == buckets[1..][i - 1]; b + 1
  }

  // ---------------------------------------------------------------------------------------------
  // Operations
  // ---------------------------------------------------------------------------------------------

  /** Enough shape for the operations to be defined. */
  predicate Shaped(p: Pool) {
    && |p.buckets| < NO_BUCKET && |p.lists| == |p.counts| == |p.buckets|
    && forall i :: 0 <= i < |p.lists| ==> p.lists[i] == 0 || (p.lists[i] in p.heap.blocks && p.counts[i] > 0)
  }

  datatype Allocation = Allocation(pool: Pool, ptr: Address)

  /** `offered` is the address malloc would answer with, 0 when it has no memory. */
  function Allocated(p: Pool, userSize: nat, offered: Address): Allocation
    requires Shaped(p)
  {
    if userSize > SIZE_MAX - HEADER_SIZE then Allocation(p, 0)
    else
      var total := HEADER_SIZE + userSize;
      var b := BucketFor(p.buckets, total);
      var size := if b != NO_BUCKET then p.buckets[b].size else total;
      if b != NO_BUCKET && p.lists[b] != 0 then
        var a := p.lists[b];
        var block := p.heap.blocks[a];
        Allocation(
          p.(lists := p.lists[b := block.first],
             counts := p.counts[b := p.counts[b] - 1],
             heap := p.heap.(blocks := p.heap.blocks[a := Block(block.size, size, b)])),
          a + HEADER_SIZE)
      else if offered == 0 then Allocation(p, 0)
      else
        Allocation(
          p.(heap := Heap(p.heap.blocks[offered := Block(size, size, b)], p.heap.mallocs + 1, p.heap.frees)),
          offered + HEADER_SIZE)
  }

  /** A pointer to deallocate: null, or behind the header of a block that is there. */
  predicate Deallocatable(p: Pool, ptr: Address) {
    || ptr == 0
    || (&& ptr > HEADER_SIZE && ptr - HEADER_SIZE in p.heap.blocks
        && var b := p.heap.blocks[ptr - HEADER_SIZE].bucket; b == NO_BUCKET || b < |p.buckets|)
  }

  /** Whether the block goes to its free list and not back to the system. */
  predicate Caches(p: Pool, a: Address)
    requires Shaped(p) && a in p.heap.blocks
    requires p.heap.blocks[a].bucket == NO_BUCKET || p.heap.blocks[a].bucket < |p.buckets|
  {
    var b := p.heap.blocks[a].bucket;
    b != NO_BUCKET && p.counts[b] < p.buckets[b].maxFree
  }

  function Deallocated(p: Pool, ptr: Address): Pool
    requires Shaped(p) && Deallocatable(p, ptr)
  {
    if ptr == 0 then p
    else
      var a := ptr - HEADER_SIZE;
      var block := p.heap.blocks[a];
      var b := block.bucket;
      if Caches(p, a) then
        p.(lists := p.lists[b := a],
           counts := p.counts[b := p.counts[b] + 1],
           heap := p.heap.(blocks := p.heap.blocks[a := block.(first := p.lists[b])]))
      else
        p.(heap := Heap(p.heap.blocks - {a}, p.heap.mallocs, p.heap.frees + 1))
  }

  // ---------------------------------------------------------------------------------------------
  // The invariant
  // ---------------------------------------------------------------------------------------------

  /** Following the links from `head` visits exactly `chain` and ends with null. */
  ghost predicate IsChain(blocks: map<Address, Block>, head: Address, chain: seq<Address>)
    decreases |chain|
  {
    if chain == [] then head == 0
    else head != 0 && head == chain[0] && head in blocks && IsChain(blocks, blocks[head].first, chain[1..])
  }

  /** Which blocks are cached where, and which the user has. */
  datatype View = View(chains: seq<seq<Address>>, live: set<Address>)

  ghost predicate CachedOk(p: Pool, i: nat, a: Address)
    requires i < |p.buckets|
  {
    a in p.heap.blocks && p.heap.blocks[a].size == p.buckets[i].size >= HEADER_SIZE && p.heap.blocks[a].bucket == i
  }

  ghost predicate ListOk(p: Pool, v: View, i: nat)
    requires i < |p.buckets| && |p.lists| == |p.counts| == |v.chains| == |p.buckets|
  {
    && IsChain(p.heap.blocks, p.lists[i], v.chains[i])
    && p.counts[i] == |v.chains[i]| <= p.buckets[i].maxFree
    && forall k :: 0 <= k < |v.chains[i]| ==> CachedOk(p, i, v.chains[i][k])
  }

  ghost predicate LiveOk(p: Pool, a: Address) {
    && a in p.heap.blocks
    && var block := p.heap.blocks[a];
       && block.first == block.size >= HEADER_SIZE && IsClass(p.buckets, block.size, block.bucket)
       && (block.bucket == NO_BUCKET || (block.bucket < |p.buckets| && block.size == p.buckets[block.bucket].size))
  }

  ghost predicate Distinct(v: View) {
    forall i, x, j, y |
      0 <= i < |v.chains| && 0 <= x < |v.chains[i]| && 0 <= j < |v.chains| && 0 <= y < |v.chains[j]|
      && (i != j || x != y) :: v.chains[i][x] != v.chains[j][y]
  }

  ghost predicate Cached(v: View, a: Address) {
    exists i :: 0 <= i < |v.chains| && a in v.chains[i]
  }

  /** Every outstanding block is the user's or in one free list, once; never both. */
  ghost predicate Partitioned(p: Pool, v: View) {
    && Distinct(v)
    && (forall a :: a in p.heap.blocks <==> a in v.live || Cached(v, a))
    && (forall a :: a in v.live ==> !Cached(v, a))
  }

  ghost predicate Inv(p: Pool, v: View) {
    && |p.buckets| < NO_BUCKET && |p.lists| == |p.counts| == |v.chains| == |p.buckets|
    && 0 !in p.heap.blocks
    && p.heap.mallocs == p.heap.frees + |p.heap.blocks|
    && (forall i :: 0 <= i < |p.buckets| ==> ListOk(p, v, i))
    && (forall a :: a in v.live ==> LiveOk(p, a))
    && Partitioned(p, v)
  }

  lemma {:induction false} InvIsShaped(p: Pool, v: View)
    requires Inv(p, v)
    ensures Shaped(p)
    ensures forall i :: 0 <= i < |p.lists| ==> (p.lists[i] == 0 <==> v.chains[i] == [])
    ensures forall i :: 0 <= i < |p.lists| && p.lists[i] != 0 ==> v.chains[i][0] == p.lists[i]
  {
    forall i | 0 <= i < |p.lists|
      ensures p.lists[i] == 0 <==> v.chains[i] == []
      ensures p.lists[i] != 0 ==> v.chains[i][0] == p.lists[i] && p.lists[i] in p.heap.blocks && p.counts[i] > 0
    {
      assert ListOk(p, v, i);
    }
  }

  /** A list does not notice what happens to blocks outside of it. */
  lemma {:induction false} ChainFrame(old': map<Address, Block>, new': map<Address, Block>, head: Address,
                                      chain: seq<Address>)
    requires IsChain(old', head, chain)
    requires forall k :: 0 <= k < |chain| && chain[k] in old' ==>
      chain[k] in new' && new'[chain[k]].first == old'[chain[k]].first
    ensures IsChain(new', head, chain)
    decreases |chain|
  {
    if chain == [] {
    } else {
      ChainFrame(old', new', old'[head].first, chain[1..]);
    }
  }

  function Empty(buckets: seq<Bucket>): Pool {
    Pool(buckets, seq(|buckets|, _ => 0), seq(|buckets|, _ => 0), Heap(map[], 0, 0))
  }

  function EmptyView(n: nat): View {
    View(seq(n, _ => []), {})
  }

  lemma {:induction false} EmptyInv(buckets: seq<Bucket>)
    requires |buckets| < NO_BUCKET
    ensures Inv(Empty(buckets), EmptyView(|buckets|))
  {
  }

  // ---------------------------------------------------------------------------------------------
  // Allocation keeps the invariant
  // ---------------------------------------------------------------------------------------------

  /** The bucket a request is served from the free list of, or NO_BUCKET when malloc is asked. */
  function PopsFrom(p: Pool, userSize: nat): (b: nat)
    requires Shaped(p)
    ensures b == NO_BUCKET || (b < |p.lists| && p.lists[b] != 0)
  {
    if userSize > SIZE_MAX - HEADER_SIZE then NO_BUCKET
    else
      var b := BucketFor(p.buckets, HEADER_SIZE + userSize);
      if b != NO_BUCKET && p.lists[b] != 0 then b else NO_BUCKET
  }

  function AllocateView(p: Pool, v: View, userSize: nat, offered: Address): View
    requires Shaped(p) && |v.chains| == |p.buckets|
  {
    var r := Allocated(p, userSize, offered);
    if r.ptr == 0 then v
    else
      var b := PopsFrom(p, userSize);
      if b == NO_BUCKET then v.(live := v.live + {offered})
      else if v.chains[b] == [] then v
      else View(v.chains[b := v.chains[b][1..]], v.live + {p.lists[b]})
  }

  /** malloc never answers with a block that is still outstanding. */
  predicate Offers(p: Pool, offered: Address) {
    offered == 0 || offered !in p.heap.blocks
  }

  lemma {:induction false} PopKeepsPartition(p: Pool, v: View, b: nat)
    requires Inv(p, v) && b < |p.buckets| && v.chains[b] != []
    ensures var v' := View(v.chains[b := v.chains[b][1..]], v.live + {v.chains[b][0]});
      && Distinct(v')
      && (forall a :: a in v'.live ==> !Cached(v', a))
      && (forall a :: a in v'.live || Cached(v', a) <==> a in v.live || Cached(v, a))
  {
    var top := v.chains[b][0];
    var v' := View(v.chains[b := v.chains[b][1..]], v.live + {top});
    forall a ensures Cached(v', a) <==> Cached(v, a) && a != top {
      if Cached(v', a) {
        var i :| 0 <= i < |v'.chains| && a in v'.chains[i];
        var k :| 0 <= k < |v'.chains[i]| && v'.chains[i][k] == a;
        assert a == v.chains[i][if i == b then k + 1 else k];
      }
      if Cached(v, a) && a != top {
        var i :| 0 <= i < |v.chains| && a in v.chains[i];
        assert a in v'.chains[i];
      }
    }
    assert Cached(v, top) by { assert top in v.chains[b]; }
  }

  lemma {:induction false} PopPartitions(p: Pool, v: View, b: nat, q: Pool, v': View)
    requires Inv(p, v) && b < |p.buckets| && v.chains[b] != [] && q.heap.blocks.Keys == p.heap.blocks.Keys
    requires v' == View(v.chains[b := v.chains[b][1..]], v.live + {v.chains[b][0]})
    ensures Partitioned(q, v')
  {
    PopKeepsPartition(p, v, b);
  }

  /** Taking the first block of list b, whatever is then written into it, keeps every list. */
  lemma {:induction false} PopKeepsLists(p: Pool, v: View, b: nat, top: Address, block: Block, q: Pool, v': View)
    requires Inv(p, v) && b < |p.buckets| && v.chains[b] != [] && top == v.chains[b][0] && top in p.heap.blocks
    requires v'.chains == v.chains[b := v.chains[b][1..]]
    requires q.buckets == p.buckets && q.lists == p.lists[b := p.heap.blocks[top].first]
    requires q.counts == p.counts[b := |v.chains[b]| - 1] && q.heap.blocks == p.heap.blocks[top := block]
    ensures forall i :: 0 <= i < |q.buckets| ==> ListOk(q, v', i)
  {
    forall i | 0 <= i < |q.buckets| ensures ListOk(q, v', i) {
      assert ListOk(p, v, i);
      forall k | 0 <= k < |v'.chains[i]| ensures v'.chains[i][k] != top && CachedOk(p, i, v'.chains[i][k]) {
        assert v'.chains[i][k] == v.chains[i][if i == b then k + 1 else k];
      }
      ChainFrame(p.heap.blocks, q.heap.blocks, q.lists[i], v'.chains[i]);
    }
  }

  lemma {:induction false} PopKeepsInv(p: Pool, v: View, userSize: nat, offered: Address)
    requires Inv(p, v) && Shaped(p) && PopsFrom(p, userSize) != NO_BUCKET
    ensures Inv(Allocated(p, userSize, offered).pool, AllocateView(p, v, userSize, offered))
  {
    InvIsShaped(p, v);
    var b := PopsFrom(p, userSize);
    var q := Allocated(p, userSize, offered).pool;
    var v' := AllocateView(p, v, userSize, offered);
    var top := p.lists[b];
    assert ListOk(p, v, b) && CachedOk(p, b, v.chains[b][0]);
    PopKeepsLists(p, v, b, top, q.heap.blocks[top], q, v');
    Rewritten(p.heap.blocks, top, q.heap.blocks[top]);
    PopPartitions(p, v, b, q, v');
    assert LiveOk(q, top);
    forall x | x in v.live ensures LiveOk(q, x) {
      assert LiveOk(p, x);
    }
  }

  lemma {:induction false} Rewritten(blocks: map<Address, Block>, a: Address, block: Block)
    requires a in blocks
    ensures blocks[a := block].Keys == blocks.Keys && |blocks[a := block]| == |blocks|
  {
    assert blocks[a := block].Keys == blocks.Keys;
    assert |blocks[a := block]| == |blocks[a := block].Keys| && |blocks| == |blocks.Keys|;
  }

  lemma {:induction false} Grown(blocks: map<Address, Block>, a: Address, block: Block)
    requires a !in blocks
    ensures |blocks[a := block]| == |blocks| + 1
  {
    assert blocks[a := block].Keys == blocks.Keys + {a};
    assert |blocks[a := block]| == |blocks[a := block].Keys| && |blocks| == |blocks.Keys|;
  }

  lemma {:induction false} Shrunk(blocks: map<Address, Block>, a: Address)
    requires a in blocks
    ensures |blocks - {a}| == |blocks| - 1
  {
    assert (blocks - {a}).Keys == blocks.Keys - {a};
    assert |blocks - {a}| == |(blocks - {a}).Keys| && |blocks| == |blocks.Keys|;
  }

  /** A change to the memory that no list notices keeps every list. */
  lemma {:induction false} ListsFrame(p: Pool, v: View, q: Pool, live: set<Address>)
    requires |p.lists| == |p.counts| == |v.chains| == |p.buckets|
    requires forall i :: 0 <= i < |p.buckets| ==> ListOk(p, v, i)
    requires q.buckets == p.buckets && q.lists == p.lists && q.counts == p.counts
    requires forall a :: a in p.heap.blocks && Cached(v, a) ==>
      a in q.heap.blocks && q.heap.blocks[a] == p.heap.blocks[a]
    ensures forall i :: 0 <= i < |q.buckets| ==> ListOk(q, v.(live := live), i)
  {
    forall i | 0 <= i < |q.buckets| ensures ListOk(q, v.(live := live), i) {
      assert ListOk(p, v, i);
      forall k | 0 <= k < |v.chains[i]|
        ensures CachedOk(p, i, v.chains[i][k]) && v.chains[i][k] in q.heap.blocks
        ensures q.heap.blocks[v.chains[i][k]] == p.heap.blocks[v.chains[i][k]]
      {
        assert v.chains[i][k] in v.chains[i];
        assert Cached(v, v.chains[i][k]);
      }
      ChainFrame(p.heap.blocks, q.heap.blocks, q.lists[i], v.chains[i]);
    }
  }

  lemma {:induction false} MallocKeepsInv(p: Pool, v: View, userSize: nat, offered: Address)
    requires Inv(p, v) && Shaped(p) && PopsFrom(p, userSize) == NO_BUCKET && Offers(p, offered)
    ensures Inv(Allocated(p, userSize, offered).pool, AllocateView(p, v, userSize, offered))
  {
    var q := Allocated(p, userSize, offered).pool;
    var v' := AllocateView(p, v, userSize, offered);
    if Allocated(p, userSize, offered).ptr != 0 {
      assert forall a :: Cached(v', a) <==> Cached(v, a);
      Grown(p.heap.blocks, offered, q.heap.blocks[offered]);
      ListsFrame(p, v, q, v'.live);
    }
  }

  lemma {:induction false} AllocateKeepsInv(p: Pool, v: View, userSize: nat, offered: Address)
    requires Inv(p, v) && Offers(p, offered)
    ensures Shaped(p) && Inv(Allocated(p, userSize, offered).pool, AllocateView(p, v, userSize, offered))
  {
    InvIsShaped(p, v);
    if PopsFrom(p, userSize) == NO_BUCKET {
      MallocKeepsInv(p, v, userSize, offered);
    } else {
      PopKeepsInv(p, v, userSize, offered);
    }
  }

  /**
    A request gets null only when its size cannot carry a header or the system has no memory; otherwise
    a block that nobody has, with room for the header and the request.
   */
  lemma {:induction false} AllocateServes(p: Pool, v: View, userSize: nat, offered: Address)
    requires Inv(p, v) && Shaped(p) && Offers(p, offered)
    ensures var r := Allocated(p, userSize, offered);
      && (r.ptr == 0 <==> userSize > SIZE_MAX - HEADER_SIZE || (PopsFrom(p, userSize) == NO_BUCKET && offered == 0))
      && (r.ptr != 0 ==>
            var a := r.ptr - HEADER_SIZE;
            a >= 0 && a !in v.live && AllocateView(p, v, userSize, offered).live == v.live + {a}
            && a in r.pool.heap.blocks && r.pool.heap.blocks[a].size >= HEADER_SIZE + userSize)
  {
    InvIsShaped(p, v);
    var b := PopsFrom(p, userSize);
    if b != NO_BUCKET {
      assert ListOk(p, v, b);
      assert CachedOk(p, b, v.chains[b][0]);
      assert Cached(v, p.lists[b]);
    }
  }

  ghost predicate SortedBuckets(buckets: seq<Bucket>) {
    forall i, j :: 0 <= i < j < |buckets| ==> buckets[i].size <= buckets[j].size
  }

  /** With the buckets in ascending order, the block comes from the smallest class that would do. */
  lemma {:induction false} AllocateIsTight(p: Pool, v: View, userSize: nat, offered: Address, j: nat)
    requires Inv(p, v) && Shaped(p) && Offers(p, offered) && SortedBuckets(p.buckets)
    requires j < |p.buckets| && HEADER_SIZE + userSize <= p.buckets[j].size
    ensures var r := Allocated(p, userSize, offered);
      r.ptr != 0 ==> r.pool.heap.blocks[r.ptr - HEADER_SIZE].size <= p.buckets[j].size
  {
    if Allocated(p, userSize, offered).ptr != 0 {
      BlockSize(p, v, userSize, offered);
      TightestBucket(p.buckets, HEADER_SIZE + userSize, j);
    }
  }

  lemma {:induction false} TightestBucket(buckets: seq<Bucket>, total: nat, j: nat)
    requires |buckets| < NO_BUCKET && SortedBuckets(buckets) && j < |buckets| && total <= buckets[j].size
    ensures var b := BucketFor(buckets, total); b < |buckets| && buckets[b].size <= buckets[j].size
  {
  }

  /** The block is exactly as large as its class, or as the request when no class fits. */
  lemma {:induction false} BlockSize(p: Pool, v: View, userSize: nat, offered: Address)
    requires Inv(p, v) && Shaped(p) && Allocated(p, userSize, offered).ptr != 0
    ensures var r := Allocated(p, userSize, offered);
      var b := BucketFor(p.buckets, HEADER_SIZE + userSize);
      r.pool.heap.blocks[r.ptr - HEADER_SIZE].size
        == if b == NO_BUCKET then HEADER_SIZE + userSize else p.buckets[b].size
  {
    var b := PopsFrom(p, userSize);
    if b != NO_BUCKET {
      InvIsShaped(p, v);
      assert ListOk(p, v, b);
      assert CachedOk(p, b, v.chains[b][0]);
    }
  }

  /** The header of every block that is handed out, fresh ones included, tells the first class that fits the request. */
  lemma {:induction false} HeaderTellsClass(p: Pool, userSize: nat, offered: Address)
    requires Shaped(p) && Allocated(p, userSize, offered).ptr != 0
    ensures var r := Allocated(p, userSize, offered);
      var a := r.ptr - HEADER_SIZE;
      a in r.pool.heap.blocks && IsClass(p.buckets, HEADER_SIZE + userSize, r.pool.heap.blocks[a].bucket)
  {
  }

  // ---------------------------------------------------------------------------------------------
  // Deallocation keeps the invariant
  // ---------------------------------------------------------------------------------------------

  function DeallocateView(p: Pool, v: View, ptr: Address): View
    requires Shaped(p) && Deallocatable(p, ptr) && |v.chains| == |p.buckets|
  {
    if ptr == 0 then v
    else
      var a := ptr - HEADER_SIZE;
      var b := p.heap.blocks[a].bucket;
      View(if Caches(p, a) then v.chains[b := [a] + v.chains[b]] else v.chains, v.live - {a})
  }

  /** What the caller of deallocate owes: null, or a pointer it got and has not given back. */
  predicate Returns(v: View, ptr: Address) {
    ptr == 0 || (ptr > HEADER_SIZE && ptr - HEADER_SIZE in v.live)
  }

  lemma {:induction false} ReturnsIsDeallocatable(p: Pool, v: View, ptr: Address)
    requires Inv(p, v) && Returns(v, ptr)
    ensures Shaped(p) && Deallocatable(p, ptr)
  {
    InvIsShaped(p, v);
    assert ptr != 0 ==> LiveOk(p, ptr - HEADER_SIZE);
  }

  lemma {:induction false} PushKeepsPartition(v: View, a: Address, b: nat)
    requires Distinct(v) && b < |v.chains| && a in v.live && forall x :: x in v.live ==> !Cached(v, x)
    ensures var v' := View(v.chains[b := [a] + v.chains[b]], v.live - {a});
      && Distinct(v')
      && (forall x :: x in v'.live ==> !Cached(v', x))
      && (forall x :: x in v'.live || Cached(v', x) <==> x in v.live || Cached(v, x))
  {
    var v' := View(v.chains[b := [a] + v.chains[b]], v.live - {a});
    assert !Cached(v, a);
    forall x ensures Cached(v', x) <==> Cached(v, x) || x == a {
      if Cached(v', x) {
        var i :| 0 <= i < |v'.chains| && x in v'.chains[i];
        assert x == a || x in v.chains[i];
      }
      if Cached(v, x) {
        var i :| 0 <= i < |v.chains| && x in v.chains[i];
        assert x in v'.chains[i];
      }
      if x == a {
        assert a in v'.chains[b];
      }
    }
    forall i, k | 0 <= i < |v.chains| && 0 <= k < |v.chains[i]| ensures v.chains[i][k] != a {
      assert v.chains[i][k] in v.chains[i];
    }
  }

  lemma {:induction false} PushPartitions(p: Pool, v: View, a: Address, b: nat, q: Pool, v': View)
    requires Inv(p, v) && a in v.live && b < |p.buckets| && q.heap.blocks.Keys == p.heap.blocks.Keys
    requires v' == View(v.chains[b := [a] + v.chains[b]], v.live - {a})
    ensures Partitioned(q, v')
  {
    PushKeepsPartition(v, a, b);
  }

  /** Putting a block of the user in front of list b keeps every list. */
  lemma {:induction false} PushKeepsLists(p: Pool, v: View, b: nat, a: Address, q: Pool, v': View)
    requires Inv(p, v) && b < |p.buckets| && a in v.live && a != 0 && CachedOk(p, b, a)
    requires v'.chains == v.chains[b := [a] + v.chains[b]] && p.counts[b] < p.buckets[b].maxFree
    requires q.buckets == p.buckets && q.lists == p.lists[b := a] && q.counts == p.counts[b := p.counts[b] + 1]
    requires q.heap.blocks == p.heap.blocks[a := p.heap.blocks[a].(first := p.lists[b])]
    ensures forall i :: 0 <= i < |q.buckets| ==> ListOk(q, v', i)
  {
    forall i | 0 <= i < |q.buckets| ensures ListOk(q, v', i) {
      assert ListOk(p, v, i);
      forall k | 0 <= k < |v.chains[i]| ensures v.chains[i][k] != a && CachedOk(p, i, v.chains[i][k]) {
        assert v.chains[i][k] in v.chains[i];
      }
      ChainFrame(p.heap.blocks, q.heap.blocks, p.lists[i], v.chains[i]);
      assert i == b ==> v'.chains[i][1..] == v.chains[i];
    }
  }

  lemma {:induction false} PushKeepsInv(p: Pool, v: View, ptr: Address)
    requires Inv(p, v) && ptr != 0 && Returns(v, ptr) && Shaped(p) && Deallocatable(p, ptr)
    requires Caches(p, ptr - HEADER_SIZE)
    ensures Inv(Deallocated(p, ptr), DeallocateView(p, v, ptr))
  {
    var a := ptr - HEADER_SIZE;
    var b := p.heap.blocks[a].bucket;
    var q := Deallocated(p, ptr);
    var v' := DeallocateView(p, v, ptr);
    assert LiveOk(p, a);
    Rewritten(p.heap.blocks, a, q.heap.blocks[a]);
    PushPartitions(p, v, a, b, q, v');
    forall x | x in v'.live ensures LiveOk(q, x) {
      assert LiveOk(p, x);
    }
    PushKeepsLists(p, v, b, a, q, v');
  }

  lemma {:induction false} FreeKeepsInv(p: Pool, v: View, ptr: Address)
    requires Inv(p, v) && ptr != 0 && Returns(v, ptr) && Shaped(p) && Deallocatable(p, ptr)
    requires !Caches(p, ptr - HEADER_SIZE)
    ensures Inv(Deallocated(p, ptr), DeallocateView(p, v, ptr))
  {
    var a := ptr - HEADER_SIZE;
    var q := Deallocated(p, ptr);
    var v' := DeallocateView(p, v, ptr);
    assert forall x :: Cached(v', x) <==> Cached(v, x);
    Shrunk(p.heap.blocks, a);
    forall x | x in v'.live ensures LiveOk(q, x) {
      assert LiveOk(p, x);
    }
    ListsFrame(p, v, q, v'.live);
  }

  lemma {:induction false} DeallocateKeepsInv(p: Pool, v: View, ptr: Address)
    requires Inv(p, v) && Returns(v, ptr)
    ensures Shaped(p) && Deallocatable(p, ptr) && Inv(Deallocated(p, ptr), DeallocateView(p, v, ptr))
  {
    ReturnsIsDeallocatable(p, v, ptr);
    if ptr != 0 {
      if Caches(p, ptr - HEADER_SIZE) {
        PushKeepsInv(p, v, ptr);
      } else {
        FreeKeepsInv(p, v, ptr);
      }
    }
  }

  // ---------------------------------------------------------------------------------------------
  // One operation undoes the other
  // ---------------------------------------------------------------------------------------------

  /** A request of the class a block was cached in gets that very block back, and the pool is as before. */
  lemma {:induction false} AllocateUndoesDeallocate(p: Pool, v: View, ptr: Address, userSize: nat, offered: Address)
    requires Inv(p, v) && ptr != 0 && Returns(v, ptr) && Shaped(p) && Deallocatable(p, ptr)
    requires Caches(p, ptr - HEADER_SIZE)
    requires HEADER_SIZE + userSize <= SIZE_MAX
    requires BucketFor(p.buckets, HEADER_SIZE + userSize) == p.heap.blocks[ptr - HEADER_SIZE].bucket
    ensures Shaped(Deallocated(p, ptr)) && Allocated(Deallocated(p, ptr), userSize, offered) == Allocation(p, ptr)
  {
    DeallocateKeepsInv(p, v, ptr);
    InvIsShaped(Deallocated(p, ptr), DeallocateView(p, v, ptr));
    assert LiveOk(p, ptr - HEADER_SIZE);
    PushThenPop(p, ptr - HEADER_SIZE, userSize, offered);
  }

  lemma {:induction false} PushThenPop(p: Pool, a: Address, userSize: nat, offered: Address)
    requires Shaped(p) && a > 0 && Deallocatable(p, a + HEADER_SIZE) && Caches(p, a)
    requires Shaped(Deallocated(p, a + HEADER_SIZE)) && HEADER_SIZE + userSize <= SIZE_MAX
    requires var block := p.heap.blocks[a];
      && block.bucket == BucketFor(p.buckets, HEADER_SIZE + userSize)
      && block.first == block.size == p.buckets[block.bucket].size
    ensures Allocated(Deallocated(p, a + HEADER_SIZE), userSize, offered) == Allocation(p, a + HEADER_SIZE)
  {
    var r := Allocated(Deallocated(p, a + HEADER_SIZE), userSize, offered).pool;
    assert r.lists == p.lists && r.counts == p.counts;
    assert r.heap.blocks == p.heap.blocks;
  }

  /** A block taken from a free list and given back at once leaves the pool as before. */
  lemma {:induction false} DeallocateUndoesAllocate(p: Pool, v: View, userSize: nat, offered: Address)
    requires Inv(p, v) && Shaped(p) && PopsFrom(p, userSize) != NO_BUCKET && Offers(p, offered)
    ensures var r := Allocated(p, userSize, offered);
      r.ptr != 0 && Shaped(r.pool) && Deallocatable(r.pool, r.ptr) && Deallocated(r.pool, r.ptr) == p
  {
    var b := PopsFrom(p, userSize);
    AllocateKeepsInv(p, v, userSize, offered);
    InvIsShaped(Allocated(p, userSize, offered).pool, AllocateView(p, v, userSize, offered));
    FirstOfList(p, v, b);
    PopThenPush(p, userSize, offered, b, p.lists[b]);
  }

  lemma {:induction false} FirstOfList(p: Pool, v: View, b: nat)
    requires Inv(p, v) && b < |p.buckets| && p.lists[b] != 0
    ensures CachedOk(p, b, p.lists[b]) && 0 < p.counts[b] <= p.buckets[b].maxFree
  {
    assert ListOk(p, v, b);
    assert CachedOk(p, b, v.chains[b][0]);
  }

  lemma {:induction false} PopThenPush(p: Pool, userSize: nat, offered: Address, b: nat, a: Address)
    requires Shaped(p) && b == PopsFrom(p, userSize) != NO_BUCKET && a == p.lists[b]
    requires Shaped(Allocated(p, userSize, offered).pool) && CachedOk(p, b, a) && p.counts[b] <= p.buckets[b].maxFree
    ensures var r := Allocated(p, userSize, offered);
      r.ptr != 0 && Deallocatable(r.pool, r.ptr) && Deallocated(r.pool, r.ptr) == p
  {
    var r := Allocated(p, userSize, offered);
    assert r.ptr == a + HEADER_SIZE && Caches(r.pool, a);
    var q := Deallocated(r.pool, r.ptr);
    assert q.lists == p.lists && q.counts == p.counts;
    assert q.heap.blocks == p.heap.blocks;
  }

  // ---------------------------------------------------------------------------------------------
  // Runs
  // ---------------------------------------------------------------------------------------------

  datatype Op = Alloc(userSize: nat, offered: Address) | Dealloc(ptr: Address)

  datatype World = World(pool: Pool, view: View)

  ghost predicate Allowed(w: World, op: Op) {
    match op
    case Alloc(_, offered) => Offers(w.pool, offered)
    case Dealloc(ptr) => Returns(w.view, ptr)
  }

  ghost function Apply(w: World, op: Op): (next: World)
    requires Inv(w.pool, w.view) && Allowed(w, op)
    ensures Inv(next.pool, next.view)
  {
    InvIsShaped(w.pool, w.view);
    match op
    case Alloc(userSize, offered) =>
      AllocateKeepsInv(w.pool, w.view, userSize, offered);
      World(Allocated(w.pool, userSize, offered).pool, AllocateView(w.pool, w.view, userSize, offered))
    case Dealloc(ptr) =>
      DeallocateKeepsInv(w.pool, w.view, ptr);
      World(Deallocated(w.pool, ptr), DeallocateView(w.pool, w.view, ptr))
  }

  /** The states a run of correct calls goes through, from an empty pool. */
  ghost predicate IsRun(buckets: seq<Bucket>, ops: seq<Op>, states: seq<World>) {
    && |buckets| < NO_BUCKET && |states| == |ops| + 1
    && states[0] == World(Empty(buckets), EmptyView(|buckets|))
    && forall i :: 0 <= i < |ops| ==>
         Inv(states[i].pool, states[i].view) ==> Allowed(states[i], ops[i]) && states[i + 1] == Apply(states[i], ops[i])
  }

  /** Over every run of correct calls the pool stays partitioned and every block is accounted for. */
  lemma {:induction false} RunKeepsInv(buckets: seq<Bucket>, ops: seq<Op>, states: seq<World>, n: nat)
    requires IsRun(buckets, ops, states) && n <= |ops|
    ensures Inv(states[n].pool, states[n].view)
  {
    if n == 0 {
      EmptyInv(buckets);
    } else {
      RunKeepsInv(buckets, ops, states, n - 1);
    }
  }

  lemma {:induction false} OneClass(buckets: seq<Bucket>, total: nat, b: nat, c: nat)
    requires |buckets| < NO_BUCKET && IsClass(buckets, total, b) && IsClass(buckets, total, c)
    ensures b == c
  {
  }

  /**
    Over every run: a block that is given back goes to the free list of the first class that fits it while that has
    room, and is freed otherwise.
   */
  lemma {:induction false} ReturnedIsCached(buckets: seq<Bucket>, ops: seq<Op>, states: seq<World>, n: nat,
                                            ptr: Address, b: nat)
    requires IsRun(buckets, ops, states) && n <= |ops| && ptr != 0 && Returns(states[n].view, ptr)
    requires ptr - HEADER_SIZE in states[n].pool.heap.blocks
    requires IsClass(states[n].pool.buckets, states[n].pool.heap.blocks[ptr - HEADER_SIZE].size, b)
    ensures var p := states[n].pool;
      && Shaped(p) && Deallocatable(p, ptr) && (b == NO_BUCKET || b < |p.counts| == |p.buckets|)
      && var q := Deallocated(p, ptr);
      if b != NO_BUCKET && p.counts[b] < p.buckets[b].maxFree
      then q.heap.frees == p.heap.frees && q.counts == p.counts[b := p.counts[b] + 1] && q.lists[b] == ptr - HEADER_SIZE
      else q.heap.frees == p.heap.frees + 1 && ptr - HEADER_SIZE !in q.heap.blocks && q.counts == p.counts
  {
    RunKeepsInv(buckets, ops, states, n);
    var p, a := states[n].pool, ptr - HEADER_SIZE;
    ReturnsIsDeallocatable(p, states[n].view, ptr);
    assert LiveOk(p, a);
    OneClass(p.buckets, p.heap.blocks[a].size, b, p.heap.blocks[a].bucket);
  }

  /** And while it was cached, the next request of that class gets it again, without a malloc. */
  lemma {:induction false} ReturnedIsReused(buckets: seq<Bucket>, ops: seq<Op>, states: seq<World>, n: nat,
                                            ptr: Address, b: nat, userSize: nat, offered: Address)
    requires IsRun(buckets, ops, states) && n <= |ops| && ptr != 0 && Returns(states[n].view, ptr)
    requires ptr - HEADER_SIZE in states[n].pool.heap.blocks && b != NO_BUCKET
    requires IsClass(states[n].pool.buckets, states[n].pool.heap.blocks[ptr - HEADER_SIZE].size, b)
    requires b < |states[n].pool.counts| && states[n].pool.counts[b] < states[n].pool.buckets[b].maxFree
    requires HEADER_SIZE + userSize <= SIZE_MAX && IsClass(states[n].pool.buckets, HEADER_SIZE + userSize, b)
    ensures var p := states[n].pool;
      && Shaped(p) && Deallocatable(p, ptr) && Shaped(Deallocated(p, ptr))
      && var r := Allocated(Deallocated(p, ptr), userSize, offered);
      r.ptr == ptr && r.pool.heap.mallocs == p.heap.mallocs && r.pool == p
  {
    RunKeepsInv(buckets, ops, states, n);
    var p, a := states[n].pool, ptr - HEADER_SIZE;
    ReturnsIsDeallocatable(p, states[n].view, ptr);
    assert LiveOk(p, a);
    OneClass(p.buckets, p.heap.blocks[a].size, b, p.heap.blocks[a].bucket);
    OneClass(p.buckets, HEADER_SIZE + userSize, b, BucketFor(p.buckets, HEADER_SIZE + userSize));
    AllocateUndoesDeallocate(p, states[n].view, ptr, userSize, offered);
  }

  // ---------------------------------------------------------------------------------------------
  // Conservation
  // ---------------------------------------------------------------------------------------------

  ghost function ChainSet(chain: seq<Address>): set<Address> {
    set a | a in chain
  }

  ghost predicate NoDuplicates(chain: seq<Address>) {
    forall x, y :: 0 <= x < y < |chain| ==> chain[x] != chain[y]
  }

  lemma {:induction false} ChainSetSize(chain: seq<Address>)
    requires NoDuplicates(chain)
    ensures |ChainSet(chain)| == |chain|
  {
    if chain == [] {
    } else {
      var rest := chain[1..];
      ChainSetSize(rest);
      assert chain[0] !in rest;
      assert ChainSet(chain) == ChainSet(rest) + {chain[0]};
    }
  }

  /** The blocks in the first n free lists. */
  ghost function CachedIn(v: View, n: nat): set<Address>
    requires n <= |v.chains|
  {
    if n == 0 then {} else CachedIn(v, n - 1) + ChainSet(v.chains[n - 1])
  }

  lemma {:induction false} CachedInMeans(v: View, n: nat)
    requires n <= |v.chains|
    ensures forall a :: a in CachedIn(v, n) <==> exists i :: 0 <= i < n && a in v.chains[i]
  {
    if n == 0 {
    } else {
      CachedInMeans(v, n - 1);
    }
  }

  lemma {:induction false} CachedInDisjoint(v: View, n: nat)
    requires Distinct(v) && n < |v.chains|
    ensures CachedIn(v, n) !! ChainSet(v.chains[n]) && |ChainSet(v.chains[n])| == |v.chains[n]|
  {
    CachedInMeans(v, n);
    ChainSetSize(v.chains[n]);
    forall a | a in CachedIn(v, n) ensures a !in v.chains[n] {
      var i :| 0 <= i < n && a in v.chains[i];
    }
  }

  lemma {:induction false} DisjointSize(a: set<Address>, b: set<Address>)
    requires a !! b
    ensures |a + b| == |a| + |b|
  {
  }

  lemma {:induction false} CachedInGrows(v: View, n: nat)
    requires Distinct(v) && n < |v.chains|
    ensures |CachedIn(v, n + 1)| == |CachedIn(v, n)| + |v.chains[n]|
  {
    CachedInDisjoint(v, n);
    DisjointSize(CachedIn(v, n), ChainSet(v.chains[n]));
  }

  lemma {:induction false} CachedInSize(v: View, counts: seq<nat>, n: nat)
    requires Distinct(v) && n <= |v.chains| == |counts|
    requires forall i :: 0 <= i < |counts| ==> counts[i] == |v.chains[i]|
    ensures |CachedIn(v, n)| == Sum(counts[..n])
  {
    if n == 0 {
    } else {
      CachedInSize(v, counts, n - 1);
      CachedInGrows(v, n - 1);
      SumSnoc(counts, n - 1);
    }
  }

  /** Mallocs not yet freed are the user's blocks plus what the counters say is cached. */
  lemma {:induction false} BlocksAreConserved(p: Pool, v: View)
    requires Inv(p, v)
    ensures p.heap.mallocs == p.heap.frees + |v.live| + Sum(p.counts)
  {
    var n := |v.chains|;
    CachedInMeans(v, n);
    forall i | 0 <= i < n ensures p.counts[i] == |v.chains[i]| {
      assert ListOk(p, v, i);
    }
    CachedInSize(v, p.counts, n);
    assert p.counts[..n] == p.counts;
    LiveOrCached(p, v);
    DisjointSize(v.live, CachedIn(v, n));
    assert |p.heap.blocks| == |p.heap.blocks.Keys|;
  }

  lemma {:induction false} LiveOrCached(p: Pool, v: View)
    requires Partitioned(p, v)
    ensures p.heap.blocks.Keys == v.live + CachedIn(v, |v.chains|) && v.live !! CachedIn(v, |v.chains|)
  {
    CachedInMeans(v, |v.chains|);
    forall a ensures a in CachedIn(v, |v.chains|) <==> Cached(v, a) {
    }
  }

  /** The heap once the blocks of a chain are freed. */
  ghost function FreedWith(heap: Heap, chain: seq<Address>): Heap {
    Heap(heap.blocks - ChainSet(chain), heap.mallocs, heap.frees + |chain|)
  }

  /** The first block of a chain can go, and what is left to free is the rest. */
  lemma {:induction false} FreeStep(heap: Heap, head: Address, chain: seq<Address>)
    requires head != 0 && IsChain(heap.blocks, head, chain) && NoDuplicates(chain)
    ensures chain != [] && head in heap.blocks && NoDuplicates(chain[1..])
    ensures IsChain(heap.blocks - {head}, heap.blocks[head].first, chain[1..])
    ensures FreedWith(Heap(heap.blocks - {head}, heap.mallocs, heap.frees + 1), chain[1..]) == FreedWith(heap, chain)
  {
    var rest := chain[1..];
    assert forall k :: 0 <= k < |rest| ==> rest[k] == chain[k + 1];
    ChainFrame(heap.blocks, heap.blocks - {head}, heap.blocks[head].first, rest);
    assert ChainSet(chain) == ChainSet(rest) + {head};
    assert heap.blocks - {head} - ChainSet(rest) == heap.blocks - ChainSet(chain);
  }

  /** The heap once the first n free lists are freed. */
  ghost function Drained(p: Pool, v: View, n: nat): Heap
    requires n <= |v.chains| && n <= |p.counts|
  {
    Heap(p.heap.blocks - CachedIn(v, n), p.heap.mallocs, p.heap.frees + Sum(p.counts[..n]))
  }

  lemma {:induction false} NothingDrained(p: Pool, v: View)
    ensures Drained(p, v, 0) == p.heap
  {
    assert p.heap.blocks - {} == p.heap.blocks;
  }

  /** The lists behind those already freed are still as they were. */
  lemma {:induction false} ChainSurvives(p: Pool, v: View, i: nat)
    requires Inv(p, v) && i < |p.buckets|
    ensures IsChain(p.heap.blocks - CachedIn(v, i), p.lists[i], v.chains[i])
    ensures NoDuplicates(v.chains[i]) && p.counts[i] == |v.chains[i]|
  {
    assert ListOk(p, v, i);
    CachedInDisjoint(v, i);
    forall k | 0 <= k < |v.chains[i]| ensures v.chains[i][k] !in CachedIn(v, i) {
      assert v.chains[i][k] in ChainSet(v.chains[i]);
    }
    ChainFrame(p.heap.blocks, p.heap.blocks - CachedIn(v, i), p.lists[i], v.chains[i]);
  }

  /** List i can be freed next, and that is one list less. */
  ghost predicate Drains(p: Pool, v: View, i: nat)
    requires i < |v.chains| && i < |p.counts| && i < |p.lists|
  {
    var heap, chain := Drained(p, v, i), v.chains[i];
    && IsChain(heap.blocks, p.lists[i], chain) && NoDuplicates(chain)
    && Drained(p, v, i + 1) == Heap(heap.blocks - ChainSet(chain), heap.mallocs, heap.frees + |chain|)
  }

  lemma {:induction false} DrainStep(p: Pool, v: View, i: nat)
    requires Inv(p, v) && i < |p.buckets|
    ensures Drains(p, v, i)
  {
    ChainSurvives(p, v, i);
    SumSnoc(p.counts, i);
    assert p.heap.blocks - CachedIn(v, i) - ChainSet(v.chains[i]) == p.heap.blocks - CachedIn(v, i + 1);
  }

  lemma {:induction false} AllDrain(p: Pool, v: View)
    requires Inv(p, v)
    ensures forall i :: 0 <= i < |p.lists| ==> Drains(p, v, i)
  {
    forall i | 0 <= i < |p.lists| ensures Drains(p, v, i) {
      DrainStep(p, v, i);
    }
  }

  /** What is left then is the user's. */
  lemma {:induction false} AllDrained(p: Pool, v: View)
    requires Inv(p, v)
    ensures var heap := Drained(p, v, |p.buckets|);
      && heap.blocks.Keys == v.live && (forall a :: a in v.live ==> heap.blocks[a] == p.heap.blocks[a])
      && heap.frees == p.heap.frees + Sum(p.counts) && heap.mallocs == heap.frees + |v.live|
  {
    BlocksAreConserved(p, v);
    CachedInMeans(v, |v.chains|);
    assert p.counts[..|p.counts|] == p.counts;
  }

  // ---------------------------------------------------------------------------------------------
  // The class
  // ---------------------------------------------------------------------------------------------

  /**
    The system allocator, as far as one pool has to do with it: the blocks this pool got and has not freed.
    Freeing or touching any other block does not verify.
   */
  class SystemAllocator {
    var memory: Heap

    constructor ()
      ensures memory == Heap(map[], 0, 0)
    {
      memory := Heap(map[], 0, 0);
    }

    method Malloc(size: nat, offered: Address) returns (a: Address)
      requires offered == 0 || offered !in memory.blocks
      modifies this
      ensures a == offered
      ensures memory == if a == 0 then old(memory)
                        else Heap(old(memory).blocks[a := Block(size, 0, 0)],
                                  old(memory).mallocs + 1, old(memory).frees)
    {
      a := offered;
      if a != 0 {
        memory := Heap(memory.blocks[a := Block(size, 0, 0)], memory.mallocs + 1, memory.frees);
      }
    }

    method Free(a: Address)
      requires a in memory.blocks
      modifies this
      ensures memory == Heap(old(memory).blocks - {a}, old(memory).mallocs, old(memory).frees + 1)
    {
      memory := Heap(memory.blocks - {a}, memory.mallocs, memory.frees + 1);
    }

    method Write(a: Address, first: nat, bucket: nat)
      requires a in memory.blocks
      modifies this
      ensures var block := old(memory).blocks[a].(first := first, bucket := bucket);
        memory == old(memory).(blocks := old(memory).blocks[a := block])
    {
      memory := memory.(blocks := memory.blocks[a := memory.blocks[a].(first := first, bucket := bucket)]);
    }

    /** Frees a list link by link, reading each link before its block is gone. */
    method FreeList(head: Address, ghost chain: seq<Address>)
      requires IsChain(memory.blocks, head, chain) && NoDuplicates(chain)
      modifies this
      ensures memory == Heap(old(memory).blocks - ChainSet(chain), old(memory).mallocs, old(memory).frees + |chain|)
    {
      var block := head;
      ghost var rest := chain;
      while block != 0
        invariant IsChain(memory.blocks, block, rest) && NoDuplicates(rest)
        invariant FreedWith(memory, rest) == old(FreedWith(memory, chain))
        decreases |rest|
      {
        var next := memory.blocks[block].first;
        FreeStep(memory, block, rest);
        Free(block);
        rest := rest[1..];
        block := next;
      }
      assert memory.blocks - {} == memory.blocks;
    }

    /** The loop of the destructor: one list after the other. */
    method FreeLists(lists: array<Address>, ghost p: Pool, ghost v: View)
      requires lists[..] == p.lists && |p.lists| == |p.counts| == |v.chains| && memory == Drained(p, v, 0)
      requires forall i :: 0 <= i < |p.lists| ==> Drains(p, v, i)
      modifies this
      ensures memory == Drained(p, v, |p.lists|)
    {
      for i := 0 to lists.Length
        invariant memory == Drained(p, v, i)
      {
        assert Drains(p, v, i) && lists[i] == p.lists[i];
        FreeList(lists[i], v.chains[i]);
      }
    }
  }

  class BucketPool {
    const buckets: seq<Bucket>
    const freeLists: array<Address>
    const freeCounts: array<nat>
    const system: SystemAllocator
    ghost var view: View

    ghost function Model(): Pool
      reads freeLists, freeCounts, system
    {
      Pool(buckets, freeLists[..], freeCounts[..], system.memory)
    }

    ghost predicate Valid()
      reads this, freeLists, freeCounts, system
    {
      freeLists != freeCounts && Inv(Model(), view)
    }

    constructor (buckets: seq<Bucket>)
      requires |buckets| < NO_BUCKET
      ensures Valid() && fresh(freeLists) && fresh(freeCounts) && fresh(system)
      ensures Model() == Empty(buckets) && view == EmptyView(|buckets|)
    {
      this.buckets := buckets;
      system := new SystemAllocator();
      freeLists := new Address[|buckets|](_ => 0);
      freeCounts := new nat[|buckets|](_ => 0);
      view := EmptyView(|buckets|);
      new;
      assert freeLists[..] == Empty(buckets).lists && freeCounts[..] == Empty(buckets).counts;
      EmptyInv(buckets);
    }

    method FindBucket(total: nat) returns (b: nat)
      requires |buckets| < NO_BUCKET
      ensures b == BucketFor(buckets, total)
    {
      for i := 0 to |buckets|
        invariant forall j :: 0 <= j < i ==> buckets[j].size < total
      {
        if total <= buckets[i].size {
          return i;
        }
      }
      return NO_BUCKET;
    }

    method Allocate(userSize: nat, offered: Address) returns (ptr: Address)
      requires Valid() && Offers(Model(), offered)
      modifies this`view, freeLists, freeCounts, system
      ensures Valid() && Shaped(old(Model()))
      ensures Allocation(Model(), ptr) == Allocated(old(Model()), userSize, offered)
      ensures view == AllocateView(old(Model()), old(view), userSize, offered)
    {
      AllocateKeepsInv(Model(), view, userSize, offered);
      ghost var after := AllocateView(Model(), view, userSize, offered);
      ptr := TakeBlock(userSize, offered);
      view := after;
    }

    method Deallocate(ptr: Address)
      requires Valid() && Returns(view, ptr)
      modifies this`view, freeLists, freeCounts, system
      ensures Valid() && Shaped(old(Model())) && Deallocatable(old(Model()), ptr)
      ensures Model() == Deallocated(old(Model()), ptr)
      ensures view == DeallocateView(old(Model()), old(view), ptr)
    {
      DeallocateKeepsInv(Model(), view, ptr);
      ghost var after := DeallocateView(Model(), view, ptr);
      ReturnBlock(ptr);
      view := after;
    }

    /** The body of `allocate`. */
    method TakeBlock(userSize: nat, offered: Address) returns (ptr: Address)
      requires freeLists != freeCounts && Shaped(Model()) && Offers(Model(), offered)
      modifies freeLists, freeCounts, system
      ensures Allocation(Model(), ptr) == Allocated(old(Model()), userSize, offered)
    {
      if userSize > SIZE_MAX - HEADER_SIZE {
        return 0;
      }
      var total := HEADER_SIZE + userSize;
      var bucket := FindBucket(total);
      var raw := 0;
      if bucket != NO_BUCKET && freeLists[bucket] != 0 {
        raw := freeLists[bucket];
        freeLists[bucket] := system.memory.blocks[raw].first;
        freeCounts[bucket] := freeCounts[bucket] - 1;
      } else {
        raw := system.Malloc(if bucket != NO_BUCKET then buckets[bucket].size else total, offered);
        if raw == 0 {
          return 0;
        }
      }
      system.Write(raw, if bucket != NO_BUCKET then buckets[bucket].size else total, bucket);
      ptr := raw + HEADER_SIZE;
      assert Model().lists == Allocated(old(Model()), userSize, offered).pool.lists;
      assert Model().counts == Allocated(old(Model()), userSize, offered).pool.counts;
      assert Model().heap.blocks == Allocated(old(Model()), userSize, offered).pool.heap.blocks;
    }

    /** The body of `deallocate`. */
    method ReturnBlock(ptr: Address)
      requires freeLists != freeCounts && Shaped(Model()) && Deallocatable(Model(), ptr)
      modifies freeLists, freeCounts, system
      ensures Model() == Deallocated(old(Model()), ptr)
    {
      if ptr == 0 {
        return;
      }
      var header := ptr - HEADER_SIZE;
      var bucket := system.memory.blocks[header].bucket;
      if bucket != NO_BUCKET && freeCounts[bucket] < buckets[bucket].maxFree {
        system.Write(header, freeLists[bucket], bucket);
        freeLists[bucket] := header;
        freeCounts[bucket] := freeCounts[bucket] + 1;
        assert Model().lists == Deallocated(old(Model()), ptr).lists;
      } else {
        system.Free(header);
      }
    }

    /** The destructor frees every cached block once and no block of the user. */
    method Destroy()
      requires Valid()
      modifies system
      ensures system.memory.blocks.Keys == view.live
      ensures forall a :: a in view.live ==> system.memory.blocks[a] == old(system.memory.blocks[a])
      ensures system.memory.frees == old(system.memory.frees) + Sum(freeCounts[..])
      ensures system.memory.mallocs == system.memory.frees + |view.live|
    {
      AllDrain(Model(), view);
      AllDrained(Model(), view);
      NothingDrained(Model(), view);
      system.FreeLists(freeLists, Model(), view);
    }
  }
}
