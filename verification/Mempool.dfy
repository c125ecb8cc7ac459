/** The pooled allocator of mempool.c with H_USE_MEMPOOL set: blocks that are given back are
    kept on a free list and handed out again. */
module Mempool {
  import opened Allocator

  const WORD: nat := 0x1_0000_0000
  const ALIGNMENT: nat := 4   // H_DMA_OR_CACHE_ALIGNMENT_BYTES and MEM_DMA_ALIGNMENT

  /** MEMPOOL_ALIGNED on an unsigned 32-bit value: it always adds, and it can wrap. */
  function Aligned(v: nat): (r: nat)
    ensures r % ALIGNMENT == 0 && r < WORD
  {
    (v + ALIGNMENT - v % ALIGNMENT) % WORD
  }

  /** The size MEM_ALLOC asks the system for. */
  function Rounded(v: nat): nat {
    var w := (v + (ALIGNMENT - 1)) % WORD; w - w % ALIGNMENT
  }

  /** The size of a block of a pool that was created for blocks of `size` bytes. */
  function BlockSize(size: nat): nat {
    Rounded(Aligned(Aligned(size)))
  }

  /** A block has room for more than the requested size exactly if the size does not make the
      alignment wrap around. */
  lemma RoomExactly(size: nat)
    requires size < WORD
    ensures BlockSize(size) % ALIGNMENT == 0
    ensures BlockSize(size) > size <==> size < WORD - 2 * ALIGNMENT
    ensures size < WORD - 2 * ALIGNMENT ==> size < Aligned(size) < BlockSize(size) <= size + 8
  {
    var a := Aligned(size);
    assert a == if size < WORD - ALIGNMENT then size + ALIGNMENT - size % ALIGNMENT else 0;
    assert Aligned(a) == if a < WORD - ALIGNMENT then a + ALIGNMENT else 0;
    assert Rounded(Aligned(a)) == Aligned(a);
  }

  class Pool {
    const heap: Heap
    const addr: nat
    const requested: nat          // the size the creator asked for
    const blockSize: nat
    var head: seq<nat>            // the free list
    ghost var outstanding: set<nat>
    ghost var taken: set<nat>     // every block the pool got from the system
    ghost var sizes: map<nat, nat> // and the size it asked for

    /** Free and outstanding blocks are disjoint and together are what the pool took. */
    ghost predicate Valid()
      reads this, heap
    {
      && heap.Valid() && requested < WORD && blockSize == Aligned(requested)
      && (forall i, j | 0 <= i < j < |head| :: head[i] != head[j])
      && (forall a :: a in taken <==> a in head || a in outstanding)
      && (forall a | a in head :: a !in outstanding)
      && (forall a | a in taken :: a in sizes && sizes[a] == BlockSize(requested))
      && taken <= heap.live && addr in heap.live && addr !in taken
    }

    constructor (heap: Heap, addr: nat, size: nat)
      requires heap.Valid() && addr in heap.live && size < WORD
      ensures Valid() && this.heap == heap && this.addr == addr && requested == size
      ensures head == [] && outstanding == {} && taken == {}
    {
      this.heap, this.addr, requested, blockSize := heap, addr, size, Aligned(size);
      head, outstanding, taken, sizes := [], {}, {}, map[];
    }

    /** mempool_alloc. A block comes from the free list if there is one, and from the system
        otherwise; `nbytes` is signed and compared as unsigned. */
    method Alloc(nbytes: int) returns (buf: Option<nat>)
      requires Valid() && -0x8000_0000 <= nbytes < 0x8000_0000
      modifies this`head, this`outstanding, this`taken, this`sizes, heap
      ensures Valid() && heap.words == old(heap.words)
      ensures buf.Some? <==> Unsigned(nbytes) <= blockSize && (old(head) != [] || heap.grants(old(heap.asked)))
      ensures old(head) != [] && buf.Some? ==>
                && buf.value == old(head)[0] && head == old(head)[1..]
                && taken == old(taken) && heap.live == old(heap.live)
      ensures old(head) == [] && buf.Some? ==>
                && buf.value !in old(heap.live) && head == []
                && taken == old(taken) + {buf.value} && heap.live == old(heap.live) + {buf.value}
      ensures buf.Some? ==> buf.value !in old(outstanding) && outstanding == old(outstanding) + {buf.value}
      ensures buf.Some? && requested < WORD - 2 * ALIGNMENT ==>
                && buf.value in sizes && requested < sizes[buf.value] <= requested + 8
                && sizes[buf.value] >= Unsigned(nbytes)
                && sizes[buf.value] % ALIGNMENT == 0
      ensures buf.None? ==>
                && head == old(head) && outstanding == old(outstanding)
                && taken == old(taken) && heap.live == old(heap.live)
    {
      RoomExactly(requested);
      if blockSize < Unsigned(nbytes) {
        return None;
      }
      if head != [] {
        buf := Some(head[0]);
        head := head[1..];
      } else {
        buf := heap.Calloc();
        if buf.Some? {
          taken := taken + {buf.value};
          sizes := sizes[buf.value := Rounded(Aligned(blockSize))];
        }
      }
      if buf.Some? {
        outstanding := outstanding + {buf.value};
      }
    }

    /** mempool_free; a well-behaved caller gives back what it was handed, once. */
    method Free(mem: Option<nat>)
      requires Valid() && (mem.Some? ==> mem.value in outstanding)
      modifies this`head, this`outstanding
      ensures Valid()
      ensures head == (if mem.Some? then [mem.value] else []) + old(head)
      ensures outstanding == old(outstanding) - if mem.Some? then {mem.value} else {}
    {
      if mem.None? {
        return;
      }
      head := [mem.value] + head;
      outstanding := outstanding - {mem.value};
    }

    /** mempool_destroy: every free-listed block and the pool itself are freed, each once;
        outstanding blocks are left alone. */
    method Destroy()
      requires Valid()
      modifies this`head, heap`live, heap`words
      ensures heap.Valid() && head == []
      ensures heap.live == old(heap.live) - (set a | a in old(head)) - {addr}
    {
      ghost var was := head;
      ghost var done := 0;
      while head != []
        invariant 0 <= done <= |was| && head == was[done..] && heap.Valid()
        invariant forall a :: a in heap.live <==> a in old(heap.live) && a !in was[..done]
        decreases |head|
      {
        var node := head[0];
        assert node == was[done];
        head := head[1..];
        heap.Free(node);
        done := done + 1;
      }
      assert was[..done] == was;
      heap.Free(addr);
    }
  }

  /** The conversion of an int that is compared with an unsigned number. */
  function Unsigned(n: int): nat {
    n % WORD
  }

  /** Exactly the requests that fit are served, and negative ones are refused, as long as blocks
      are smaller than 2^31 bytes; beyond that a negative request can pass. */
  lemma NegativeRefused(nbytes: int, blockSize: nat)
    requires -0x8000_0000 <= nbytes < 0x8000_0000
    ensures blockSize < 0x8000_0000 ==> (Unsigned(nbytes) <= blockSize <==> 0 <= nbytes <= blockSize)
    ensures nbytes < 0 ==> (Unsigned(nbytes) <= blockSize <==> nbytes + WORD <= blockSize)
  {
    if nbytes < 0 {
      assert Unsigned(nbytes) == nbytes + WORD;
    }
  }

  /** mempool_create; `misaligned` is true when the first block was not aligned. */
  method Create(heap: Heap, size: nat, misaligned: bool) returns (pool: Pool?)
    requires heap.Valid() && size < WORD
    modifies heap
    ensures heap.Valid()
    ensures pool == null ==> heap.live == old(heap.live)
    ensures pool != null ==>
              && fresh(pool) && pool.heap == heap && pool.Valid() && pool.requested == size && pool.taken == {}
              && pool.addr !in old(heap.live) && heap.live == old(heap.live) + {pool.addr}
    ensures pool != null <==> heap.grants(old(heap.asked)) && (misaligned ==> heap.grants(old(heap.asked) + 1))
    ensures heap.asked == old(heap.asked) + if misaligned && heap.grants(old(heap.asked)) then 2 else 1
  {
    var block := heap.Calloc();
    if block.None? {
      return null;
    }
    if misaligned {
      heap.Free(block.value);
      block := heap.Calloc();
    }
    if block.None? {
      return null;
    }
    pool := new Pool(heap, block.value, size);
  }
}
