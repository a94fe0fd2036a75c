/** The arena-backed vector of core.h (`AVec(T)`, `core_avec_*`, `avec_*`): the same header and
    growth rule as `Vec(T)`, but every block, the header included, is taken from an
    `ArenaAllocator`, and growth goes through `arena_realloc`, which copies nothing, so the
    vector copies its elements itself. The arena records where each block went; the elements
    are kept in an array of their own. */
module ArenaVectors {
  import opened Mem
  import opened Vectors
  import opened Arenas

  /** sizeof(ArrayHeader): two 64-bit `size_t` fields in front of the elements. */
  const HeaderSize: nat := 16

  /** Bytes requested from the arena for a block of `cap` elements of `elemSize` bytes. */
  function BlockBytes(cap: nat, elemSize: nat): (r: nat)
    ensures r >= HeaderSize
  {
    cap * elemSize + HeaderSize
  }

  class AVec<T(0)> {
    /** The elements; `cap` slots. */
    var data: array<T>
    var len: nat
    var cap: nat
    /** Where the arena put the header and elements. */
    var addr: Addr

    ghost predicate Valid()
      reads this
    {
      data.Length == cap && len <= cap
    }

    ghost function Contents(): seq<T>
      reads this, data
      requires Valid()
    {
      data[..len]
    }

    /** `core_avec_create_internal` (`avec_with_size`): an empty vector with `capacity` slots,
        its block taken from `arena`. */
    constructor WithSize(arena: ArenaAllocator, capacity: nat, elemSize: nat)
      requires arena.Valid() && Serviceable(arena.Blocks, BlockBytes(capacity, elemSize))
      modifies arena.Repr
      ensures Valid() && fresh(data) && len == 0 && cap == capacity && Contents() == []
      ensures arena.Valid() && fresh(arena.Repr - old(arena.Repr))
      ensures (arena.Blocks, addr) == AllocChain(old(arena.Blocks), BlockBytes(capacity, elemSize))
    {
      data := new T[capacity];
      len, cap := 0, capacity;
      new;
      addr := arena.Alloc(BlockBytes(capacity, elemSize));
    }

    /** `core_avec_create_empty_internal` (`avec_new`): length 0, capacity 0; only the header
        is taken from `arena`. */
    constructor Empty(arena: ArenaAllocator)
      requires arena.Valid() && Serviceable(arena.Blocks, HeaderSize)
      modifies arena.Repr
      ensures Valid() && fresh(data) && len == 0 && cap == 0 && Contents() == []
      ensures arena.Valid() && fresh(arena.Repr - old(arena.Repr))
      ensures (arena.Blocks, addr) == AllocChain(old(arena.Blocks), HeaderSize)
    {
      data := new T[0];
      len, cap := 0, 0;
      new;
      addr := arena.Alloc(HeaderSize);
    }

    /** `avec_at`: the element at `i`; nothing checks the index, so `i < len` is the caller's. */
    function At(i: nat): (r: T)
      reads this, data
      requires Valid() && i < len
      ensures r == Contents()[i]
    {
      data[i]
    }

    /** The growth step of `core_avec_maygrow_internal`: a new block of `newCap` slots from
        `arena_realloc`, into which the vector itself copies its first `keep` elements. */
    method Relocate(arena: ArenaAllocator, elemSize: nat, newCap: nat, keep: nat)
      requires Valid() && cap <= newCap && keep <= cap
      requires arena.Valid() && Serviceable(arena.Blocks, BlockBytes(newCap, elemSize))
      modifies this, arena.Repr
      ensures fresh(data) && data.Length == newCap && cap == newCap && len == old(len)
      ensures data[..keep] == old(data[..keep])
      ensures arena.Valid() && fresh(arena.Repr - old(arena.Repr))
      ensures (arena.Blocks, addr) == AllocChain(old(arena.Blocks), BlockBytes(newCap, elemSize))
    {
      addr := arena.Realloc(addr, BlockBytes(newCap, elemSize));
      var block := new T[newCap];
      CopyPrefix(data, block, keep);
      data, cap := block, newCap;
    }

    /** `core_avec_maygrow_internal`: a vector with `len >= cap` moves to a new arena block of
        `Grown(cap)` slots and keeps its elements; otherwise nothing changes. */
    method MayGrow(arena: ArenaAllocator, elemSize: nat)
      requires Valid() && arena.Valid()
      requires len >= cap ==> Serviceable(arena.Blocks, BlockBytes(Grown(cap), elemSize))
      modifies this, arena.Repr
      ensures Valid() && len == old(len) && Contents() == old(Contents())
      ensures cap == NextCap(old(len), old(cap))
      ensures arena.Valid() && fresh(arena.Repr - old(arena.Repr))
      ensures old(len) < old(cap) ==> data == old(data) && addr == old(addr) && arena.Blocks == old(arena.Blocks)
      ensures old(len) >= old(cap) ==> fresh(data)
      ensures old(len) >= old(cap) ==>
                (arena.Blocks, addr) == AllocChain(old(arena.Blocks), BlockBytes(Grown(old(cap)), elemSize))
    {
      if len >= cap {
        Relocate(arena, elemSize, Grown(cap), len);
      }
    }

    /** `avec_push`: append `x`, growing through `arena` first when full. */
    method Push(arena: ArenaAllocator, elemSize: nat, x: T)
      requires Valid() && arena.Valid()
      requires len >= cap ==> Serviceable(arena.Blocks, BlockBytes(Grown(cap), elemSize))
      modifies this, data, arena.Repr
      ensures Valid()
      ensures len == old(len) + 1 && Contents() == old(Contents()) + [x]
      ensures cap == NextCap(old(len), old(cap))
      ensures arena.Valid() && fresh(arena.Repr - old(arena.Repr))
      ensures old(len) < old(cap) ==> data == old(data) && addr == old(addr) && arena.Blocks == old(arena.Blocks)
      ensures old(len) >= old(cap) ==> fresh(data)
      ensures old(len) >= old(cap) ==>
                (arena.Blocks, addr) == AllocChain(old(arena.Blocks), BlockBytes(Grown(old(cap)), elemSize))
    {
      MayGrow(arena, elemSize);
      data[len] := x;
      len := len + 1;
    }

    /** `avec_pop`: drop the last element. */
    method Pop()
      requires Valid() && len > 0
      modifies this
      ensures Valid() && cap == old(cap) && data == old(data)
      ensures Contents() == old(Contents())[..old(len) - 1]
    {
      len := len - 1;
    }

    /** `avec_clear`: length 0, block kept. */
    method Clear()
      requires Valid()
      modifies this
      ensures Valid() && cap == old(cap) && data == old(data) && Contents() == []
    {
      len := 0;
    }

    /** `avec_put`: store `value` at `index`, raising the length to `index + 1` when shorter and
        growing once through `arena` if the new length reaches the capacity. The copy into the
        new block keeps the old block's elements; slots past the old capacity are
        unspecified. */
    method Put(arena: ArenaAllocator, elemSize: nat, index: nat, value: T)
      requires Valid() && arena.Valid() && index < Grown(cap)
      requires (if index < len then len else index + 1) >= cap ==>
                 Serviceable(arena.Blocks, BlockBytes(Grown(cap), elemSize))
      modifies this, data, arena.Repr
      ensures Valid()
      ensures len == (if index < old(len) then old(len) else index + 1)
      ensures cap == NextCap(len, old(cap))
      ensures data[index] == value
      ensures forall i :: 0 <= i < len && i != index && i < old(cap) ==> data[i] == old(data[i])
      ensures arena.Valid() && fresh(arena.Repr - old(arena.Repr))
      ensures len < old(cap) ==> data == old(data) && addr == old(addr) && arena.Blocks == old(arena.Blocks)
      ensures len >= old(cap) ==> fresh(data)
      ensures len >= old(cap) ==>
                (arena.Blocks, addr) == AllocChain(old(arena.Blocks), BlockBytes(Grown(old(cap)), elemSize))
    {
      var newLen := if index < len then len else index + 1;
      if newLen >= cap {
        Relocate(arena, elemSize, Grown(cap), cap);
      }
      len := newLen;
      data[index] := value;
    }

    /** `core_avec_copy`: a new arena vector with the same length, capacity and elements. */
    method Copy(arena: ArenaAllocator, elemSize: nat) returns (v: AVec<T>)
      requires Valid() && arena.Valid() && Serviceable(arena.Blocks, BlockBytes(cap, elemSize))
      modifies arena.Repr
      ensures fresh(v) && fresh(v.data) && v.Valid()
      ensures v.len == len && v.cap == cap && v.Contents() == Contents()
      ensures arena.Valid() && fresh(arena.Repr - old(arena.Repr))
      ensures (arena.Blocks, v.addr) == AllocChain(old(arena.Blocks), BlockBytes(cap, elemSize))
    {
      v := new AVec.WithSize(arena, cap, elemSize);
      CopyPrefix(data, v.data, len);
      v.len := len;
    }

    /** `core_avec_to_vec_int`: a heap `Vec` with the same capacity and elements. */
    method ToVec() returns (v: Vec<T>)
      requires Valid()
      ensures fresh(v) && fresh(v.data) && v.Valid()
      ensures v.len == len && v.cap == cap && v.Contents() == Contents()
    {
      v := new Vec.WithSize(cap);
      CopyPrefix(data, v.data, len);
      v.len := len;
    }
  }
}
