/** A pool of object slots that grows by chunks, each twice as large as the one before. */
module ObjectPool {
  import opened Sequences

  /** A slot of memory: where in which allocated block. */
  datatype Pointer = Pointer(block: nat, offset: nat)

  // ---------- sizes ----------

  const DEFAULT_CHUNK_SIZE: nat := 5
  const GROWTH_STRATEGY: nat := 2

  function ChunkSize(k: nat): nat {
    if k == 0 then DEFAULT_CHUNK_SIZE else ChunkSize(k - 1) * GROWTH_STRATEGY
  }

  function Pow2(k: nat): nat {
    if k == 0 then 1 else 2 * Pow2(k - 1)
  }

  lemma {:induction false} ChunkSizeIsPower(k: nat)
    ensures ChunkSize(k) == 5 * Pow2(k)
  {
    if k > 0 { ChunkSizeIsPower(k - 1); }
  }

  // ---------- slots ----------

  /** The first n slots of a block. */
  ghost function BlockSlots(b: nat, n: nat): set<Pointer> {
    set o | 0 <= o < n :: Pointer(b, o)
  }

  lemma {:induction false} BlockSlotsSize(b: nat, n: nat)
    ensures |BlockSlots(b, n)| == n
  {
    if n == 0 {
      assert BlockSlots(b, n) == {};
    } else {
      BlockSlotsSize(b, n - 1);
      assert BlockSlots(b, n) == BlockSlots(b, n - 1) + {Pointer(b, n - 1)};
    }
  }

  /** All slots of all chunks, chunk k having ChunkSize(k) of them. */
  ghost function Slots(pool: seq<nat>): set<Pointer> {
    if pool == [] then {} else
      Slots(pool[..|pool| - 1]) + BlockSlots(pool[|pool| - 1], ChunkSize(|pool| - 1))
  }

  /** The slots of k chunks. */
  function Capacity(k: nat): int {
    5 * (Pow2(k) - 1)
  }

  ghost predicate PeakFits(out: nat, k: nat, peak: nat) {
    out <= peak <= Capacity(k) && (k > 0 ==> peak > Capacity(k - 1))
  }

  /** One more slot out of k' chunks, where a chunk was added only if all slots of k chunks were out. */
  lemma PeakGrows(out: nat, k: nat, k': nat, peak: nat)
    requires PeakFits(out, k, peak) && out + 1 <= Capacity(k')
    requires k' == k || (k' == k + 1 && out == Capacity(k))
    ensures PeakFits(out + 1, k', if out + 1 > peak then out + 1 else peak)
  {
  }

  lemma LastIsExtra<T>(s: seq<T>)
    requires Once(s) && s != []
    ensures var t, x := s[..|s| - 1], s[|s| - 1];
      Once(t) && x !in Elements(t) && Elements(s) == Elements(t) + {x}
  {
  }

  lemma {:induction false} OnceSize<T>(s: seq<T>)
    requires Once(s)
    ensures |Elements(s)| == |s|
  {
    if s != [] {
      OnceSize(s[..|s| - 1]);
      LastIsExtra(s);
    }
  }

  lemma {:induction false} SlotsInBlocks(pool: seq<nat>, p: Pointer)
    ensures p in Slots(pool) ==> p.block in pool
  {
    if pool != [] { SlotsInBlocks(pool[..|pool| - 1], p); }
  }

  lemma SlotsGrow(pool: seq<nat>, b: nat)
    ensures Slots(pool + [b]) == Slots(pool) + BlockSlots(b, ChunkSize(|pool|))
  {
    assert (pool + [b])[..|pool|] == pool;
  }

  /** k chunks have 5 * (2^k - 1) slots together. */
  lemma {:induction false} SlotsCount(pool: seq<nat>)
    requires Once(pool)
    ensures |Slots(pool)| == Capacity(|pool|)
  {
    if pool != [] {
      var front, b, k := pool[..|pool| - 1], pool[|pool| - 1], |pool| - 1;
      SlotsCount(front);
      BlockSlotsSize(b, ChunkSize(k));
      ChunkSizeIsPower(k);
      forall p | p in Slots(front) ensures p !in BlockSlots(b, ChunkSize(k)) {
        SlotsInBlocks(front, p);
      }
      assert Slots(front) !! BlockSlots(b, ChunkSize(k));
    }
  }

  /** What is free and what is handed out: nothing twice, nothing both, and together every slot there is. */
  ghost predicate Accounted(pool: seq<nat>, available: seq<Pointer>, outstanding: set<Pointer>) {
    && Once(pool) && Once(available)
    && Elements(available) !! outstanding
    && Elements(available) + outstanding == Slots(pool)
  }

  lemma AccountedCount(pool: seq<nat>, available: seq<Pointer>, outstanding: set<Pointer>)
    requires Accounted(pool, available, outstanding)
    ensures |available| + |outstanding| == Capacity(|pool|)
  {
    SlotsCount(pool);
    OnceSize(available);
  }

  // ---------- the allocator ----------

  /** Blocks of memory, each to be given back with the size it was asked for. */
  class Allocator {
    var next: nat
    ghost var blocks: map<nat, nat>

    ghost predicate Valid()
      reads this
    {
      forall b :: b in blocks ==> b < next
    }

    constructor ()
      ensures Valid() && blocks == map[]
    {
      next, blocks := 0, map[];
    }

    method Allocate(n: nat) returns (b: nat)
      requires Valid()
      modifies this
      ensures Valid() && b !in old(blocks) && blocks == old(blocks)[b := n]
    {
      b := next;
      next := next + 1;
      blocks := blocks[b := n];
    }

    method Deallocate(b: nat, n: nat)
      requires Valid() && b in blocks && blocks[b] == n
      modifies this
      ensures Valid() && blocks == old(blocks) - {b}
    {
      blocks := blocks - {b};
    }
  }

  // ---------- the pool ----------

  class Pool {
    const allocator: Allocator
    var pool: seq<nat>
    var available: seq<Pointer>
    var newBlockSize: nat
    ghost var outstanding: set<Pointer>
    ghost var peak: nat  // the most slots that were ever out at the same time
    ghost const base: map<nat, nat>  // what the allocator had handed out before the pool was made

    /**
     * Chunk k is allocated with ChunkSize(k), nothing else is allocated beyond what was before the pool, and every slot is
     * accounted for. The allocator is the pool's own.
     */
    ghost predicate Valid()
      reads this, allocator
    {
      allocator.Valid() && PoolState(base, pool, available, newBlockSize, outstanding, allocator.blocks)
    }

    /** There are just as many chunks as the peak needed: one chunk less would not have been enough. */
    ghost predicate Tight()
      reads this
    {
      PeakFits(|outstanding|, |pool|, peak)
    }

    constructor (allocator: Allocator)
      requires allocator.Valid()
      ensures Valid() && Tight() && this.allocator == allocator
      ensures pool == [] && available == [] && outstanding == {} && peak == 0
      ensures base == allocator.blocks
    {
      this.allocator := allocator;
      base := allocator.blocks;
      pool, available, newBlockSize, outstanding, peak := [], [], DEFAULT_CHUNK_SIZE, {}, 0;
    }

    /** Called only when nothing is available: the list of free slots is overwritten. */
    method AddChunk()
      requires Valid() && available == []
      modifies this, allocator
      ensures Valid() && outstanding == old(outstanding) && peak == old(peak) && available != []
      ensures NewChunk(old(pool), pool, old(allocator.blocks), allocator.blocks, available)
    {
      var newBlock := allocator.Allocate(newBlockSize);
      ghost var pool0, size := pool, newBlockSize;
      pool := pool + [newBlock];
      available := seq(newBlockSize, o requires 0 <= o => Pointer(newBlock, o));
      newBlockSize := newBlockSize * GROWTH_STRATEGY;
      ChunkAdded(base, pool0, available, size, outstanding, old(allocator.blocks), newBlock);
    }

    /** Hands out a slot that nobody has: the last of the free ones. */
    method AcquireObject() returns (p: Pointer)
      requires Valid() && Tight()
      modifies this, allocator
      ensures Valid() && Tight() && p !in old(outstanding) && outstanding == old(outstanding) + {p}
      ensures peak == if |outstanding| > old(peak) then |outstanding| else old(peak)
      ensures old(available) != [] ==>
        pool == old(pool) && old(available) == available + [p] && allocator.blocks == old(allocator.blocks)
      ensures old(available) == [] ==> NewChunk(old(pool), pool, old(allocator.blocks), allocator.blocks, available + [p])
    {
      ghost var pool0, available0 := pool, available;
      if available == [] {
        AddChunk();
      }
      ghost var rest, out, top := Taken(base, pool, available, newBlockSize, outstanding, allocator.blocks,
                                        pool0, available0, peak);
      p := available[|available| - 1];
      available := available[..|available| - 1];
      outstanding, peak := out, top;
    }

    /** What the owner of a slot does when it lets go of it. */
    method Release(p: Pointer)
      requires Valid() && Tight() && p in outstanding
      modifies this
      ensures Valid() && Tight() && outstanding == old(outstanding) - {p}
      ensures peak == old(peak) && pool == old(pool) && available == old(available) + [p]
    {
      Given(base, pool, available, newBlockSize, outstanding, allocator.blocks, p);
      available := available + [p];
      outstanding := outstanding - {p};
    }

    /** Gives every chunk back with the size it was allocated with, and nothing else. */
    method Destroy()
      requires Valid()
      modifies allocator
      ensures allocator.Valid() && allocator.blocks == old(allocator.blocks) - Elements(pool) == base
    {
      WithoutChunks(base, pool, allocator.blocks);
      FreeChunks(allocator, pool);
    }

    /** The number of slots is determined by the number of chunks. */
    lemma Conservation()
      requires Valid()
      ensures |available| + |outstanding| == Capacity(|pool|)
    {
      AccountedCount(pool, available, outstanding);
    }
  }

  /** The loop of the destructor: sizes double from chunk to chunk. */
  method FreeChunks(allocator: Allocator, pool: seq<nat>)
    requires allocator.Valid() && Once(pool) && Allocations(pool, allocator.blocks)
    modifies allocator
    ensures allocator.Valid() && allocator.blocks == old(allocator.blocks) - Elements(pool)
  {
    var chunkSize := DEFAULT_CHUNK_SIZE;
    ghost var blocks := allocator.blocks;
    assert pool[..0] == [];
    for k := 0 to |pool|
      invariant allocator.Valid() && chunkSize == ChunkSize(k)
      invariant allocator.blocks == blocks - Elements(pool[..k])
    {
      ghost var rest := OneLess(pool, blocks, k);
      allocator.Deallocate(pool[k], chunkSize);
      chunkSize := chunkSize * GROWTH_STRATEGY;
    }
    assert pool[..|pool|] == pool;
  }

  /** The life of a pool of which n slots are taken: its allocator is left as it was. */
  method Lifetime(allocator: Allocator, n: nat)
    requires allocator.Valid()
    modifies allocator
    ensures allocator.Valid() && allocator.blocks == old(allocator.blocks)
  {
    var pool := new Pool(allocator);
    for i := 0 to n
      invariant fresh(pool) && pool.allocator == allocator && pool.Valid() && pool.Tight()
      invariant pool.base == old(allocator.blocks)
    {
      var p := pool.AcquireObject();
    }
    pool.Destroy();
  }

  ghost predicate Allocations(pool: seq<nat>, blocks: map<nat, nat>) {
    forall k :: 0 <= k < |pool| ==> pool[k] in blocks && blocks[pool[k]] == ChunkSize(k)
  }

  /** What holds between the fields of a pool and the blocks of its allocator. */
  ghost predicate PoolState(base: map<nat, nat>, pool: seq<nat>, available: seq<Pointer>, size: nat,
                            outstanding: set<Pointer>, blocks: map<nat, nat>) {
    && size == ChunkSize(|pool|)
    && Allocations(pool, blocks) && OnlyChunks(base, pool, blocks)
    && Accounted(pool, available, outstanding)
  }

  /** Beyond what was there before, exactly the chunks are allocated. */
  ghost predicate OnlyChunks(base: map<nat, nat>, pool: seq<nat>, blocks: map<nat, nat>) {
    && base.Keys !! Elements(pool) && blocks.Keys == base.Keys + Elements(pool)
    && forall b :: b in base ==> blocks[b] == base[b]
  }

  lemma ChunksGrow(base: map<nat, nat>, pool: seq<nat>, blocks: map<nat, nat>, b: nat)
    requires OnlyChunks(base, pool, blocks) && b !in blocks
    ensures OnlyChunks(base, pool + [b], blocks[b := ChunkSize(|pool|)])
  {
    assert Elements(pool + [b]) == Elements(pool) + {b};
  }

  /** Chunk k is still there, with its size, when those before it are given back. */
  lemma OneLess(pool: seq<nat>, blocks: map<nat, nat>, k: nat) returns (rest: map<nat, nat>)
    requires k < |pool| && Once(pool) && Allocations(pool, blocks)
    ensures rest == blocks - Elements(pool[..k]) && pool[k] in rest && rest[pool[k]] == ChunkSize(k)
    ensures rest - {pool[k]} == blocks - Elements(pool[..k + 1])
  {
    rest := blocks - Elements(pool[..k]);
    assert pool[k] !in pool[..k];
    assert pool[..k + 1] == pool[..k] + [pool[k]];
    assert Elements(pool[..k + 1]) == Elements(pool[..k]) + {pool[k]};
  }

  lemma WithoutChunks(base: map<nat, nat>, pool: seq<nat>, blocks: map<nat, nat>)
    requires OnlyChunks(base, pool, blocks)
    ensures blocks - Elements(pool) == base
  {
  }

  /** One chunk more: one block of the next size is allocated, and its slots in their order are what is free. */
  ghost predicate NewChunk(pool: seq<nat>, pool': seq<nat>, blocks: map<nat, nat>, blocks': map<nat, nat>,
                           available: seq<Pointer>) {
    && |pool'| == |pool| + 1 && pool'[..|pool|] == pool && pool'[|pool|] !in blocks
    && blocks' == blocks[pool'[|pool|] := ChunkSize(|pool|)]
    && |available| == ChunkSize(|pool|)
    && forall o :: 0 <= o < |available| ==> available[o] == Pointer(pool'[|pool|], o)
  }

  lemma ChunkAdded(base: map<nat, nat>, pool: seq<nat>, available: seq<Pointer>, size: nat, outstanding: set<Pointer>,
                   blocks: map<nat, nat>, b: nat)
    requires PoolState(base, pool, [], size, outstanding, blocks) && b !in blocks
    requires |available| == size && forall o :: 0 <= o < size ==> available[o] == Pointer(b, o)
    ensures PoolState(base, pool + [b], available, size * GROWTH_STRATEGY, outstanding, blocks[b := size])
    ensures NewChunk(pool, pool + [b], blocks, blocks[b := size], available) && available != []
  {
    ChunkSizePositive(|pool|);
    ChunksGrow(base, pool, blocks, b);
    AccountsGrow(pool, available, size, outstanding, blocks, b);
  }

  lemma AccountsGrow(pool: seq<nat>, available: seq<Pointer>, size: nat, outstanding: set<Pointer>,
                     blocks: map<nat, nat>, b: nat)
    requires Accounted(pool, [], outstanding) && Allocations(pool, blocks) && b !in blocks && size == ChunkSize(|pool|)
    requires |available| == size && forall o :: 0 <= o < size ==> available[o] == Pointer(b, o)
    ensures Accounted(pool + [b], available, outstanding)
  {
    SlotsGrow(pool, b);
    NewBlockIsNew(pool, blocks, b, outstanding);
    FreshChunk(b, size, available);
  }

  /** The last free slot goes out; pool0 and available0 are what there was before a chunk may have been added. */
  lemma Taken(base: map<nat, nat>, pool: seq<nat>, available: seq<Pointer>, size: nat, outstanding: set<Pointer>,
              blocks: map<nat, nat>, pool0: seq<nat>, available0: seq<Pointer>, peak: nat)
    returns (rest: seq<Pointer>, out: set<Pointer>, top: nat)
    requires available != [] && PoolState(base, pool, available, size, outstanding, blocks)
    requires Accounted(pool0, available0, outstanding) && PeakFits(|outstanding|, |pool0|, peak)
    requires |pool| == if available0 == [] then |pool0| + 1 else |pool0|
    ensures rest == available[..|available| - 1] && available == rest + [available[|available| - 1]]
    ensures available[|available| - 1] !in outstanding && out == outstanding + {available[|available| - 1]}
    ensures top == if |out| > peak then |out| else peak
    ensures PoolState(base, pool, rest, size, out, blocks) && PeakFits(|out|, |pool|, top)
  {
    TakeLast(pool, available, outstanding);
    PeakAfterTaking(pool0, available0, pool, available, outstanding, peak);
    rest, out := available[..|available| - 1], outstanding + {available[|available| - 1]};
    top := if |out| > peak then |out| else peak;
  }

  lemma Given(base: map<nat, nat>, pool: seq<nat>, available: seq<Pointer>, size: nat, outstanding: set<Pointer>,
              blocks: map<nat, nat>, p: Pointer)
    requires p in outstanding && PoolState(base, pool, available, size, outstanding, blocks)
    ensures PoolState(base, pool, available + [p], size, outstanding - {p}, blocks)
  {
    GiveBack(pool, available, outstanding, p);
  }

  lemma {:induction false} ChunkSizePositive(k: nat)
    ensures ChunkSize(k) > 0
  {
    if k > 0 { ChunkSizePositive(k - 1); }
  }

  lemma NewBlockIsNew(pool: seq<nat>, blocks: map<nat, nat>, b: nat, outstanding: set<Pointer>)
    requires Allocations(pool, blocks) && b !in blocks && outstanding <= Slots(pool) && Once(pool)
    ensures Once(pool + [b]) && forall p :: p in outstanding ==> p.block != b
  {
    forall p | p in outstanding ensures p.block != b { SlotsInBlocks(pool, p); }
  }

  lemma FreshChunk(b: nat, n: nat, available: seq<Pointer>)
    requires |available| == n && forall o :: 0 <= o < n ==> available[o] == Pointer(b, o)
    ensures Once(available) && Elements(available) == BlockSlots(b, n)
  {
    forall p ensures p in available <==> p in BlockSlots(b, n) {
      if p in BlockSlots(b, n) { assert available[p.offset] == p; }
    }
  }

  lemma TakeLast(pool: seq<nat>, available: seq<Pointer>, outstanding: set<Pointer>)
    requires available != [] && Accounted(pool, available, outstanding)
    ensures var p := available[|available| - 1];
      p !in outstanding && Accounted(pool, available[..|available| - 1], outstanding + {p})
    ensures available == available[..|available| - 1] + [available[|available| - 1]]
  {
    var n := |available| - 1;
    assert available == available[..n] + [available[n]];
    assert Elements(available) == Elements(available[..n]) + {available[n]};
    forall i | 0 <= i < n ensures available[i] != available[n] {}
  }

  /** The peak after one more slot went out; a chunk had to be added only if every slot was out. */
  lemma PeakAfterTaking(pool0: seq<nat>, available0: seq<Pointer>, pool: seq<nat>, available: seq<Pointer>,
                        out: set<Pointer>, peak: nat)
    requires Accounted(pool0, available0, out) && Accounted(pool, available, out) && PeakFits(|out|, |pool0|, peak)
    requires available != [] && |pool| == if available0 == [] then |pool0| + 1 else |pool0|
    ensures var p := available[|available| - 1];
      PeakFits(|out + {p}|, |pool|, if |out + {p}| > peak then |out + {p}| else peak)
  {
    var p := available[|available| - 1];
    assert p in Elements(available) && |out + {p}| == |out| + 1;
    AccountedCount(pool0, available0, out);
    AccountedCount(pool, available, out);
    PeakGrows(|out|, |pool0|, |pool|, peak);
  }

  lemma GiveBack(pool: seq<nat>, available: seq<Pointer>, outstanding: set<Pointer>, p: Pointer)
    requires p in outstanding && Accounted(pool, available, outstanding)
    ensures Accounted(pool, available + [p], outstanding - {p})
  {
    assert Elements(available + [p]) == Elements(available) + {p};
    forall i | 0 <= i < |available| ensures available[i] != p { assert available[i] in Elements(available); }
  }
}
