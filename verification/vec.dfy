/** The header-prefixed growable vector of core.h (`Vec(T)`, `core_vec_*`, `vec_*`).
    The `len`/`cap` header that the C code keeps just before the elements becomes two fields of
    a class; the element block is an array that growth replaces. */
module Vectors {
  import opened Mem

  /** DEFAULT_INITIAL_VECTOR_SIZE: the capacity a vector of capacity 0 grows to. */
  const DefaultInitialSize: nat := 8

  /** The capacity `core_vec_maygrow_internal` moves a full vector to. */
  function Grown(cap: nat): (r: nat)
    ensures r > cap
    ensures cap == 0 ==> r == DefaultInitialSize
    ensures cap > 0 ==> r == 2 * cap
  {
    if cap == 0 then DefaultInitialSize else cap * 2
  }

  /** The capacity after `core_vec_maygrow_internal` on a header holding `len` and `cap`:
      it grows exactly when `len >= cap`. */
  function NextCap(len: nat, cap: nat): (r: nat)
    ensures r >= cap
    ensures r == cap <==> len < cap
    ensures len <= cap ==> len < r
  {
    if len >= cap then Grown(cap) else cap
  }

  datatype Option<T> = None | Some(value: T)

  /** A vector's allocation as `core_vec_maygrow_internal` sees it: the header and the
      elements. */
  datatype Header<T> = Header(len: nat, cap: nat, items: seq<T>)

  /** `core_vec_maygrow_internal` as written, on the live allocations of the global allocator
      by address. `realloc` returns `to`; when that differs from `from`, the block at `from` is
      freed. The C code first writes the grown capacity into the old header, reallocates, and
      then reads `vec_len(arr)`, `vec_cap(arr)` and the elements through the old address. A
      read of an address that is no longer live gives `None`. */
  function MayGrowAsWritten<T>(heap: map<nat, Header<T>>, from: nat, to: nat): Option<map<nat, Header<T>>>
    requires from in heap && (to == from || to !in heap)
  {
    var h := heap[from];
    if h.len < h.cap then Some(heap)
    else
      var marked := heap[from := h.(cap := Grown(h.cap))];
      var moved := (marked - {from})[to := marked[from]];
      if from !in moved then None
      else Some(moved[to := Header(moved[from].len, moved[from].cap, moved[from].items)])
  }

  /** A full vector that `realloc` moves is read after its block was freed. Only a vector that
      grows in place keeps its length and elements with the grown capacity. */
  lemma MayGrowAsWrittenReadsFreed<T>(heap: map<nat, Header<T>>, from: nat, to: nat)
    requires from in heap && (to == from || to !in heap) && heap[from].len >= heap[from].cap
    ensures MayGrowAsWritten(heap, from, to).None? <==> to != from
    ensures to == from ==>
              MayGrowAsWritten(heap, from, to) ==
              Some(heap[from := Header(heap[from].len, Grown(heap[from].cap), heap[from].items)])
  {
    var h := heap[from];
    var marked := heap[from := h.(cap := Grown(h.cap))];
    var moved := (marked - {from})[to := marked[from]];
    if to != from {
      assert from !in moved;
    } else {
      assert moved == marked;
      var g := Header(h.len, Grown(h.cap), h.items);
      assert marked[from] == g;
      assert marked[from := g] == marked;
    }
  }

  /** The capacity of a vector made by `vec_new()` after `n` calls of `vec_push`. */
  function PushedCap(n: nat): nat
  {
    if n == 0 then 0 else NextCap(n - 1, PushedCap(n - 1))
  }

  /** `c` is 8 * 2^k for some k. */
  predicate EightTimesPowerOfTwo(c: nat)
    decreases c
  {
    c == DefaultInitialSize || (c > DefaultInitialSize && c % 2 == 0 && EightTimesPowerOfTwo(c / 2))
  }

  /** Pushing `n` elements onto an empty vector leaves a capacity that holds them, that is 0 only
      for no pushes, 8 for one to eight pushes, always 8 * 2^k after that, and less than twice
      the length once the length passes 8. */
  lemma {:induction false} PushedCapShape(n: nat)
    ensures n <= PushedCap(n)
    ensures PushedCap(n) == 0 <==> n == 0
    ensures 1 <= n <= DefaultInitialSize ==> PushedCap(n) == DefaultInitialSize
    ensures n > 0 ==> EightTimesPowerOfTwo(PushedCap(n))
    ensures n > DefaultInitialSize ==> PushedCap(n) < 2 * n
  {
    if n > 0 {
      PushedCapShape(n - 1);
      var c := PushedCap(n - 1);
      if n - 1 >= c && c > 0 {
        assert PushedCap(n) == 2 * c;
        assert (2 * c) / 2 == c;
      }
    }
  }

  /** Nine pushes onto `vec_new()` give capacity 16. */
  lemma NinePushes()
    ensures PushedCap(9) == 16
  {
    PushedCapShape(8);
  }

  class Vec<T(0)> {
    /** The element block; `cap` slots. */
    var data: array<T>
    /** The header: number of elements in use and number of slots. */
    var len: nat
    var cap: nat

    ghost predicate Valid()
      reads this
    {
      data.Length == cap && len <= cap
    }

    /** The elements in use, in order. */
    ghost function Contents(): seq<T>
      reads this, data
      requires Valid()
    {
      data[..len]
    }

    /** `core_vec_create_internal` (`vec_with_size`): an empty vector with `capacity` slots. */
    constructor WithSize(capacity: nat)
      ensures Valid() && fresh(data)
      ensures len == 0 && cap == capacity && Contents() == []
    {
      data := new T[capacity];
      len, cap := 0, capacity;
    }

    /** `core_vec_create_empty_internal` (`vec_new`): length 0, capacity 0. */
    constructor Empty()
      ensures Valid() && fresh(data)
      ensures len == 0 && cap == 0 && Contents() == []
    {
      data := new T[0];
      len, cap := 0, 0;
    }

    /** `core_vec_create_from_parts_internal` (`vec_from_parts`, `vec_new_with`): a vector
        holding a copy of `items`, exactly full. */
    constructor FromParts(items: seq<T>)
      ensures Valid() && fresh(data)
      ensures len == |items| && cap == |items| && Contents() == items
    {
      data := new T[|items|](i requires 0 <= i < |items| => items[i]);
      len, cap := |items|, |items|;
    }

    /** `core_vec_copy`: a new vector with the same length, capacity and elements. */
    method Copy() returns (v: Vec<T>)
      requires Valid()
      ensures fresh(v) && fresh(v.data) && v.Valid()
      ensures v.len == len && v.cap == cap && v.Contents() == Contents()
    {
      v := new Vec.WithSize(cap);
      CopyPrefix(data, v.data, len);
      v.len := len;
    }

    /** `vec_at`: the element at `i`; the debug assertion asks for `i < len`. */
    function At(i: nat): (r: T)
      reads this, data
      requires Valid() && i < len
      ensures r == Contents()[i]
    {
      data[i]
    }

    /** The reallocation inside `core_vec_maygrow_internal`: a block of `newCap` slots whose
        first `cap` slots are the old block's. */
    method Relocate(newCap: nat)
      requires Valid() && cap <= newCap
      modifies this
      ensures fresh(data) && data.Length == newCap && cap == newCap && len == old(len)
      ensures data[..old(cap)] == old(data[..])
    {
      var block := new T[newCap];
      CopyPrefix(data, block, cap);
      data, cap := block, newCap;
    }

    /** `core_vec_maygrow_internal`: a vector with `len >= cap` moves to `Grown(cap)` slots,
        keeping its elements; otherwise nothing changes. */
    method MayGrow()
      requires Valid()
      modifies this
      ensures Valid() && len == old(len) && Contents() == old(Contents())
      ensures cap == NextCap(old(len), old(cap))
      ensures old(len) < old(cap) ==> data == old(data)
      ensures old(len) >= old(cap) ==> fresh(data)
    {
      if len >= cap {
        Relocate(Grown(cap));
      }
    }

    /** `vec_push`: append `x`, growing first when full. */
    method Push(x: T)
      requires Valid()
      modifies this, data
      ensures Valid()
      ensures len == old(len) + 1 && Contents() == old(Contents()) + [x]
      ensures cap == NextCap(old(len), old(cap))
      ensures old(len) < old(cap) ==> data == old(data)
      ensures old(len) >= old(cap) ==> fresh(data)
    {
      MayGrow();
      data[len] := x;
      len := len + 1;
    }

    /** `vec_pop`: drop the last element; the capacity is kept. */
    method Pop()
      requires Valid() && len > 0
      modifies this
      ensures Valid() && cap == old(cap) && data == old(data)
      ensures Contents() == old(Contents())[..old(len) - 1]
    {
      len := len - 1;
    }

    /** `vec_clear`: length 0, storage kept. */
    method Clear()
      requires Valid()
      modifies this
      ensures Valid() && cap == old(cap) && data == old(data) && Contents() == []
    {
      len := 0;
    }

    /** `vec_put`: store `value` at `index`, first raising the length to `index + 1` when it is
        shorter and then growing once if the new length reaches the capacity. Slots between the
        old length and `index` keep whatever the block held; slots beyond the old capacity that
        the grown block exposes are unspecified. The macro grows only once, so `index` must fit
        in the grown capacity. */
    method Put(index: nat, value: T)
      requires Valid() && index < Grown(cap)
      modifies this, data
      ensures Valid()
      ensures len == (if index < old(len) then old(len) else index + 1)
      ensures cap == NextCap(len, old(cap))
      ensures data[index] == value
      ensures forall i :: 0 <= i < len && i != index && i < old(cap) ==> data[i] == old(data[i])
      ensures len < old(cap) ==> data == old(data)
      ensures len >= old(cap) ==> fresh(data)
    {
      var newLen := if index < len then len else index + 1;
      if newLen >= cap {
        Relocate(Grown(cap));
      }
      len := newLen;
      data[index] := value;
    }
  }
}
