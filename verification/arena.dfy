/** The chained bump arena of core.h (`ArenaAllocator`, `arena_new`, `arena_alloc`,
    `arena_realloc`, `arena_clear`, `arena_dealloc`).

    An arena is a singly linked chain of nodes; each node owns one block and a cursor into it.
    The abstract view of a chain is the sequence of its blocks, each a capacity and a cursor
    offset; an address handed out is a block index in that sequence (counted from the node the
    call was made on) and an offset inside the block. The bytes stored in blocks are not
    modelled. */
module Arenas {
  import opened Mem

  /** ARENA_DEFAULT_ALLOC_SIZE: the size of a lazily created first block and of every chained
      block. */
  const DefaultAllocSize: nat := 4096

  /** One block of the chain: its capacity and the offset of its cursor (`current_alloc`). */
  datatype Block = Block(cap: nat, cursor: nat)

  /** A pointer handed out by the arena: the block it lies in and the offset inside it. */
  datatype Addr = Addr(block: nat, offset: nat)

  /** No cursor is past the end of its block. */
  ghost predicate WellFormed(blocks: seq<Block>)
  {
    forall i :: 0 <= i < |blocks| ==> blocks[i].cursor <= blocks[i].cap
  }

  function Last(blocks: seq<Block>): Block
    requires blocks != []
  {
    blocks[|blocks| - 1]
  }

  /** The last block has room for `size` more bytes. */
  predicate FitsLast(blocks: seq<Block>, size: nat)
    requires blocks != []
  {
    Last(blocks).cursor + size <= Last(blocks).cap
  }

  /** `arena_alloc` returns: either the request fits the last block, or it fits the fresh
      default-sized block the arena chains (a larger request recurses into fresh blocks
      forever). */
  predicate Serviceable(blocks: seq<Block>, size: nat)
  {
    size <= DefaultAllocSize || (blocks != [] && FitsLast(blocks, size))
  }

  /** `arena_alloc_internal` on the abstract chain: the new chain and the address handed out.
      An arena with no block first gets a default-sized one; the request is then served from
      the last block, or from a default-sized block appended when the last one is too full. */
  function AllocChain(blocks: seq<Block>, size: nat): (r: (seq<Block>, Addr))
    requires Serviceable(blocks, size)
    ensures |r.0| == (if blocks != [] && FitsLast(blocks, size) then |blocks| else |blocks| + 1)
    ensures r.1.block == |r.0| - 1
    ensures r.1.offset + size == r.0[r.1.block].cursor
    ensures r.0[r.1.block].cap == (if blocks != [] && FitsLast(blocks, size) then Last(blocks).cap
                                   else DefaultAllocSize)
    ensures forall i :: 0 <= i < |blocks| - 1 ==> r.0[i] == blocks[i]
    ensures blocks != [] && !FitsLast(blocks, size) ==> r.0[|blocks| - 1] == Last(blocks)
    ensures WellFormed(blocks) ==> WellFormed(r.0)
  {
    if blocks == [] then
      ([Block(DefaultAllocSize, size)], Addr(0, 0))
    else if FitsLast(blocks, size) then
      var last := Last(blocks);
      (blocks[..|blocks| - 1] + [Block(last.cap, last.cursor + size)], Addr(|blocks| - 1, last.cursor))
    else
      (blocks + [Block(DefaultAllocSize, size)], Addr(|blocks|, 0))
  }

  /** `arena_clear_int` on the abstract chain: every cursor back to its block's start. */
  function ClearChain(blocks: seq<Block>): (r: seq<Block>)
    ensures |r| == |blocks|
    ensures forall i :: 0 <= i < |r| ==> r[i].cap == blocks[i].cap && r[i].cursor == 0
    ensures WellFormed(r)
  {
    seq(|blocks|, i requires 0 <= i < |blocks| => Block(blocks[i].cap, 0))
  }

  /** Clearing twice is clearing once. */
  lemma ClearIdempotent(blocks: seq<Block>)
    ensures ClearChain(ClearChain(blocks)) == ClearChain(blocks)
  {
  }

  /** Clearing keeps the blocks but never sends allocation back to the earlier ones: after a
      clear, a request is served from the start of the last block, or from a new block. */
  lemma AllocAfterClear(blocks: seq<Block>, size: nat)
    requires blocks != [] && Serviceable(ClearChain(blocks), size)
    ensures AllocChain(ClearChain(blocks), size).1
            == if size <= Last(blocks).cap then Addr(|blocks| - 1, 0) else Addr(|blocks|, 0)
  {
  }

  /** Two allocations in a row hand out regions that do not overlap: the second lies in a later
      block or starts at or after the end of the first. */
  lemma SuccessiveAllocsDisjoint(blocks: seq<Block>, s1: nat, s2: nat)
    requires Serviceable(blocks, s1)
    requires Serviceable(AllocChain(blocks, s1).0, s2)
    ensures var a1 := AllocChain(blocks, s1).1;
            var a2 := AllocChain(AllocChain(blocks, s1).0, s2).1;
            a1.block < a2.block || (a1.block == a2.block && a1.offset + s1 <= a2.offset)
  {
  }

  /** Allocation on a chain seen from its first node: the rest of the chain does the work. */
  lemma AllocChainCons(b: Block, rest: seq<Block>, size: nat)
    requires rest != [] && Serviceable(rest, size)
    ensures Serviceable([b] + rest, size)
    ensures AllocChain([b] + rest, size)
            == ([b] + AllocChain(rest, size).0,
                Addr(AllocChain(rest, size).1.block + 1, AllocChain(rest, size).1.offset))
  {
    var whole := [b] + rest;
    assert Last(whole) == Last(rest);
    var last := Last(rest);
    if FitsLast(rest, size) {
      assert whole[..|whole| - 1] == [b] + rest[..|rest| - 1];
      assert AllocChain(whole, size).0
          == [b] + (rest[..|rest| - 1] + [Block(last.cap, last.cursor + size)]);
    } else {
      assert AllocChain(whole, size).0 == [b] + (rest + [Block(DefaultAllocSize, size)]);
    }
  }

  /** Allocation on a one-block chain. */
  lemma AllocChainSingle(b: Block, size: nat)
    requires Serviceable([b], size)
    ensures AllocChain([b], size)
            == if b.cursor + size <= b.cap then ([Block(b.cap, b.cursor + size)], Addr(0, b.cursor))
               else ([b, Block(DefaultAllocSize, size)], Addr(1, 0))
  {
    assert Last([b]) == b;
    if b.cursor + size <= b.cap {
      assert [b][..0] + [Block(b.cap, b.cursor + size)] == [Block(b.cap, b.cursor + size)];
    } else {
      assert [b] + [Block(DefaultAllocSize, size)] == [b, Block(DefaultAllocSize, size)];
    }
  }

  /** Clearing a chain clears each part of it on its own. */
  lemma ClearChainAppend(front: seq<Block>, rest: seq<Block>)
    ensures ClearChain(front + rest) == ClearChain(front) + ClearChain(rest)
  {
  }

  class ArenaAllocator {
    /** The node's block (`Vec(char) buffer`); its length is the block's capacity. Null until
        the first allocation and after `arena_dealloc`. */
    var buffer: array?<Byte>
    /** `current_alloc`, as an offset from the start of `buffer`. */
    var cursor: nat
    /** The next node of the chain. */
    var next: ArenaAllocator?

    /** The blocks of the chain from this node on. */
    ghost var Blocks: seq<Block>
    /** The nodes of the chain from this node on. */
    ghost var Repr: set<ArenaAllocator>

    ghost function Own(): seq<Block>
      reads this
    {
      if buffer == null then [] else [Block(buffer.Length, cursor)]
    }

    /** The chain is acyclic, no cursor is past its block's end, and either every node has a
        block or (after `arena_dealloc`) none has. */
    ghost predicate Valid()
      reads this, Repr
      decreases Repr
    {
      this in Repr &&
      (buffer != null ==> cursor <= buffer.Length) &&
      (buffer == null <==> Blocks == []) &&
      (next == null ==> Blocks == Own()) &&
      (next != null ==>
         next in Repr && next.Repr <= Repr && this !in next.Repr &&
         (next.buffer == null <==> buffer == null) &&
         next.Valid() &&
         Blocks == Own() + next.Blocks)
    }

    /** `arena_new`: a single-node arena with one block of `size` bytes (the default size when
        `size` is 0), cursor at its start. */
    constructor New(size: nat)
      ensures Valid() && fresh(Repr) && next == null
      ensures Blocks == [Block(if size == 0 then DefaultAllocSize else size, 0)]
    {
      buffer := new Byte[if size == 0 then DefaultAllocSize else size];
      cursor := 0;
      next := null;
      Blocks := [Block(if size == 0 then DefaultAllocSize else size, 0)];
      Repr := {this};
    }

    /** A zero-initialised `ArenaAllocator` (as in the thread context): no block yet. */
    constructor Zeroed()
      ensures Valid() && fresh(Repr) && Blocks == []
    {
      buffer := null;
      cursor := 0;
      next := null;
      Blocks := [];
      Repr := {this};
    }

    /** 1 while the request still has to move on to a new block, else 0: the first part of the
        termination measure of the allocation recursion. */
    ghost function Pending(size: nat): nat
      reads this
    {
      if Blocks != [] && !FitsLast(Blocks, size) then 1 else 0
    }

    /** `arena_alloc` / `arena_alloc_internal`: serve `size` bytes from the last block of the
        chain, appending a default-sized block when it is too full. */
    method Alloc(size: nat) returns (addr: Addr)
      requires Valid() && Serviceable(Blocks, size)
      modifies Repr
      ensures Valid() && fresh(Repr - old(Repr))
      ensures (Blocks, addr) == AllocChain(old(Blocks), size)
      decreases Pending(size), Repr, 1
    {
      if buffer == null {
        Reset();
      }
      if next != null {
        addr := AllocInNext(size);
      } else if cursor + size > buffer.Length {
        addr := AllocInNewBlock(size);
      } else {
        AllocChainSingle(Block(buffer.Length, cursor), size);
        addr := Addr(0, cursor);
        cursor := cursor + size;
        Blocks := Own();
      }
    }

    /** `*self = arena_new(0)` inside `arena_alloc_internal`: a node without a block gets a
        default-sized one and drops whatever chain it still links. */
    method Reset()
      requires Valid() && buffer == null
      modifies this
      ensures Valid() && Repr == {this} && next == null
      ensures Blocks == [Block(DefaultAllocSize, 0)] && old(Blocks) == []
    {
      buffer := new Byte[DefaultAllocSize];
      cursor := 0;
      next := null;
      Blocks := Own();
      Repr := {this};
    }

    /** The recursive call of `arena_alloc_internal` on `self->next`. */
    method AllocInNext(size: nat) returns (addr: Addr)
      requires Valid() && buffer != null && next != null && Serviceable(Blocks, size)
      modifies Repr
      ensures Valid() && fresh(Repr - old(Repr))
      ensures (Blocks, addr) == AllocChain(old(Blocks), size)
      decreases Pending(size), Repr, 0
    {
      ghost var own := Block(buffer.Length, cursor);
      AllocChainCons(own, next.Blocks, size);
      var a := next.Alloc(size);
      Blocks := Own() + next.Blocks;
      Repr := Repr + next.Repr;
      addr := Addr(a.block + 1, a.offset);
    }

    /** The last node is too full: link a fresh `arena_new(ARENA_DEFAULT_ALLOC_SIZE)` node and
        allocate there. */
    method AllocInNewBlock(size: nat) returns (addr: Addr)
      requires Valid() && buffer != null && next == null
      requires cursor + size > buffer.Length && size <= DefaultAllocSize
      modifies this
      ensures Valid() && fresh(Repr - old(Repr))
      ensures (Blocks, addr) == AllocChain(old(Blocks), size)
      decreases Pending(size), Repr, 0
    {
      AllocChainSingle(Block(buffer.Length, cursor), size);
      var n := new ArenaAllocator.New(DefaultAllocSize);
      next := n;
      var a := n.Alloc(size);
      Blocks := Own() + n.Blocks;
      Repr := Repr + n.Repr;
      addr := Addr(a.block + 1, a.offset);
    }

    /** `arena_realloc`: a fresh allocation; `src` is ignored and nothing is copied. */
    method Realloc(src: Addr, size: nat) returns (addr: Addr)
      requires Valid() && Serviceable(Blocks, size)
      modifies Repr
      ensures Valid() && fresh(Repr - old(Repr))
      ensures (Blocks, addr) == AllocChain(old(Blocks), size)
    {
      addr := Alloc(size);
    }

    /** `arena_clear` / `arena_clear_int`: every cursor of the chain back to its block's start;
        no block is released or added. */
    method Clear()
      requires Valid()
      modifies Repr
      ensures Valid() && Repr == old(Repr)
      ensures Blocks == ClearChain(old(Blocks))
      decreases Repr
    {
      ghost var own := Own();
      cursor := 0;
      assert Own() == ClearChain(own);
      if next != null {
        next.Clear();
        ClearChainAppend(own, old(next.Blocks));
        Blocks := Own() + next.Blocks;
      } else {
        Blocks := Own();
      }
    }

    /** `arena_dealloc`: release every block of the chain, last first. The nodes stay linked;
        a later allocation starts the arena over. */
    method Dealloc()
      requires Valid() && buffer != null
      modifies Repr
      ensures Valid() && Repr == old(Repr) && Blocks == []
      decreases Repr
    {
      if next != null {
        next.Dealloc();
      }
      buffer := null;
      Blocks := [];
    }
  }
}
