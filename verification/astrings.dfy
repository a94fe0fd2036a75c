/** The arena-backed string of core.h (`AString`, `astring_*`).

    An `AString` is a pointer into an arena with a capacity and a length; push and pop follow
    the same convention as `String` (the counted bytes end with a NUL). Growth goes through
    `arena_realloc`, which hands out a fresh block and copies nothing, so a grown string's
    earlier bytes are not carried over. */
module AStrings {
  import opened Mem
  import opened Views
  import opened Arenas
  import Strings

  /** `astring_grow`'s new capacity: `cap * STRING_GROW_FACTOR` truncated. */
  function GrownCap(cap: nat): (r: nat)
    ensures 2 * r <= 3 * cap < 2 * r + 2
    ensures cap >= 2 ==> r > cap
  {
    Strings.GrownCap(cap)
  }

  /** The capacity after `k` pushes onto a string of length `len` and capacity `cap`: each push
      finding the string full grows it first. */
  function PushedCap(len: nat, cap: nat, k: nat): nat
    decreases k
  {
    if k == 0 then cap else PushedCap(len + 1, if len == cap then GrownCap(cap) else cap, k - 1)
  }

  /** Pushes never shrink the capacity, a push onto a full string of capacity at least 2 leaves
      at least the grown capacity, and pushes that fit never grow it. */
  lemma {:induction false} PushedCapGrows(len: nat, cap: nat, k: nat)
    requires 1 <= len <= cap && (len == cap && k > 0 ==> cap >= 2)
    ensures cap <= PushedCap(len, cap, k)
    ensures k > 0 && len == cap ==> GrownCap(cap) <= PushedCap(len, cap, k)
    ensures len + k <= cap ==> PushedCap(len, cap, k) == cap
    ensures len + k <= PushedCap(len, cap, k)
    decreases k
  {
    if k > 0 {
      var c := if len == cap then GrownCap(cap) else cap;
      PushedCapGrows(len + 1, c, k - 1);
    }
  }

  /** The exit test of the loop in `astring_push_str` as written. It compares the index with
      `astring_len(self)`, and each iteration pushes onto `self`, so the index and the bound
      both advance by one. True when the loop has exited within `fuel` iterations. */
  function PushStrLoopExits(i: nat, selfLen: nat, fuel: nat): (r: bool)
    ensures selfLen <= i ==> r
    decreases fuel
  {
    if selfLen <= i then true
    else if fuel == 0 then false
    else PushStrLoopExits(i + 1, selfLen + 1, fuel - 1)
  }

  /** Started on a string of length at least 1, the loop of `astring_push_str` as written never
      exits, however many iterations are allowed; on length 0 it pushes nothing. */
  lemma {:induction false} PushStrNeverExits(i: nat, selfLen: nat, fuel: nat)
    requires i < selfLen
    ensures !PushStrLoopExits(i, selfLen, fuel)
    decreases fuel
  {
    if fuel > 0 {
      PushStrNeverExits(i + 1, selfLen + 1, fuel - 1);
    }
  }

  /** A string whose counted bytes are a C string and its terminator: `strlen` of its block
      is one less than its length. */
  lemma TextIsCstr(s: AString)
    requires s.Valid()
    ensures s.len >= 1 && s.Text()[s.len - 1] == 0 && NoNul(s.Text()[..s.len - 1]) ==>
              s.ptr != null && 0 in s.ptr[..] && StrLen(s.ptr[..]) == s.len - 1 &&
              s.Text() == s.ptr[..][..s.len - 1] + [0]
    ensures s.IsCString() ==>
              s.ptr != null && 0 in s.ptr[..] && StrLen(s.ptr[..]) == s.len && s.Text() == s.ptr[..][..s.len]
  {
    if s.len >= 1 && s.Text()[s.len - 1] == 0 && NoNul(s.Text()[..s.len - 1]) {
      var m := s.ptr[..];
      var k := s.len - 1;
      assert s.Text() == m[..k + 1];
      assert m[..k] == s.Text()[..k];
      StrLenOfTerminated(m, k);
    }
    if s.IsCString() {
      var m := s.ptr[..];
      assert m[..s.len] == s.Text();
      StrLenOfTerminated(m, s.len);
    }
  }

  class AString {
    /** The arena every block comes from. */
    const arena: ArenaAllocator
    /** The block; null for `astring_new`. */
    var ptr: array?<Byte>
    /** Where the arena placed the block. */
    var addr: Addr
    var cap: nat
    var len: nat

    ghost predicate Valid()
      reads this
    {
      len <= cap && (ptr == null ==> cap == 0) && (ptr != null ==> ptr.Length == cap)
    }

    /** The counted bytes are a C string: none of them is a NUL and a NUL follows them in the
        block, as `astring_vformat` leaves them. */
    ghost predicate IsCString()
      reads this, ptr
      requires Valid()
    {
      ptr != null && len < cap && ptr[len] == 0 && NoNul(Text())
    }

    /** The counted bytes. */
    ghost function Text(): (t: seq<Byte>)
      reads this, ptr
      requires Valid()
      ensures |t| == len
    {
      if ptr == null then [] else ptr[..len]
    }

    /** `astring_len`. */
    function Len(): (r: nat)
      reads this
      requires Valid()
      ensures r <= Cap()
    {
      len
    }

    /** `astring_cap`: the size of the block. */
    function Cap(): (r: nat)
      reads this
      requires Valid()
      ensures ptr != null ==> r == ptr.Length
      ensures ptr == null ==> r == 0
    {
      cap
    }

    /** The string's length and the memory at `astring_cstr`, as the scans read them. */
    function AsView(): (v: StringView)
      reads this, ptr
      requires Valid()
      ensures Readable(v) && v.len == Len() && v.data[..v.len] == Text()
    {
      StringView(len, if ptr == null then [] else ptr[..])
    }

    /** `astring_new`: no block, capacity and length 0. */
    constructor New(a: ArenaAllocator)
      ensures Valid() && arena == a && ptr == null && cap == 0 && len == 0
    {
      arena := a;
      ptr := null;
      addr := Addr(0, 0);
      cap, len := 0, 0;
    }

    /** `astring_new_size`: a block of `size` bytes from the arena, length 0. */
    constructor NewSize(a: ArenaAllocator, size: nat)
      requires a.Valid() && Serviceable(a.Blocks, size)
      modifies a.Repr
      ensures Valid() && arena == a && fresh(ptr) && cap == size && len == 0
      ensures a.Valid() && fresh(a.Repr - old(a.Repr))
      ensures (a.Blocks, addr) == AllocChain(old(a.Blocks), size)
    {
      arena := a;
      ptr := new Byte[size];
      cap, len := size, 0;
      new;
      addr := a.Alloc(size);
    }

    /** `astring_from`: a block of exactly `|s|` bytes holding the C string's content, with
        length and capacity `|s|`. */
    constructor From(a: ArenaAllocator, s: seq<Byte>)
      requires NoNul(s) && a.Valid() && Serviceable(a.Blocks, |s|)
      modifies a.Repr
      ensures Valid() && arena == a && fresh(ptr) && cap == |s| && Text() == s
      ensures a.Valid() && fresh(a.Repr - old(a.Repr))
      ensures (a.Blocks, addr) == AllocChain(old(a.Blocks), |s|)
    {
      arena := a;
      ptr := new Byte[|s|](i requires 0 <= i < |s| => s[i]);
      cap, len := |s|, |s|;
      new;
      addr := a.Alloc(|s|);
    }

    /** `astring_from_parts`: a block of `capacity` bytes starting with the C string `p`, with
        the given length and capacity. */
    constructor FromParts(a: ArenaAllocator, p: seq<Byte>, length: nat, capacity: nat)
      requires NoNul(p) && |p| < capacity && length <= capacity
      requires a.Valid() && Serviceable(a.Blocks, capacity)
      modifies a.Repr
      ensures Valid() && arena == a && fresh(ptr) && cap == capacity && len == length
      ensures ptr[..|p| + 1] == p + [0]
      ensures length == |p| + 1 ==> Text() == p + [0]
      ensures length == |p| ==> Text() == p && IsCString()
      ensures a.Valid() && fresh(a.Repr - old(a.Repr))
      ensures (a.Blocks, addr) == AllocChain(old(a.Blocks), capacity)
    {
      var at := a.Alloc(capacity);
      var block := new Byte[capacity];
      arena, ptr, addr := a, block, at;
      cap, len := capacity, length;
      new;
      StrCopy(block, p);
      if length == |p| {
        assert block[..len] == p && block[len] == 0;
      }
    }

    /** `astring_grow`: a fresh block of `GrownCap(cap)` bytes from `arena_realloc`, which
        ignores the old block and copies nothing. */
    method Grow()
      requires Valid() && arena.Valid() && Serviceable(arena.Blocks, GrownCap(cap))
      requires len <= GrownCap(cap)
      modifies this, arena.Repr
      ensures Valid() && len == old(len) && cap == GrownCap(old(cap))
      ensures fresh(ptr)
      ensures arena.Valid() && fresh(arena.Repr - old(arena.Repr))
      ensures (arena.Blocks, addr) == AllocChain(old(arena.Blocks), GrownCap(old(cap)))
    {
      var newCap := GrownCap(cap);
      ghost var nodes: set<object> := arena.Repr;
      assert this !in nodes;
      var at := arena.Realloc(addr, newCap);
      ptr := new Byte[newCap];
      cap, addr := newCap, at;
    }

    /** `astring_push`: grow when full, then write `c` over the last counted byte and a NUL
        after it. Without growth the other counted bytes are kept; after growth they are
        whatever the new block held. A length of 0, or a full string of capacity below 2, would
        write outside the block. */
    method Push(c: Byte)
      requires Valid() && arena.Valid() && len >= 1
      requires len == cap ==> cap >= 2 && Serviceable(arena.Blocks, GrownCap(cap))
      modifies this, ptr, arena.Repr
      ensures Valid() && arena.Valid() && fresh(arena.Repr - old(arena.Repr))
      ensures len == old(len) + 1 && ptr != null
      ensures cap == (if old(len) == old(cap) then GrownCap(old(cap)) else old(cap))
      ensures ptr[len - 2] == c && ptr[len - 1] == 0
      ensures old(len) < old(cap) ==> ptr == old(ptr) && arena.Blocks == old(arena.Blocks)
      ensures old(len) < old(cap) ==> forall j :: 0 <= j < old(len) - 1 ==> ptr[j] == old(ptr[j])
      ensures old(len) == old(cap) ==> fresh(ptr)
      ensures old(len) == old(cap) ==>
                (arena.Blocks, addr) == AllocChain(old(arena.Blocks), GrownCap(old(cap)))
    {
      if len == cap {
        Grow();
      }
      ptr[len - 1] := c;
      ptr[len] := 0;
      len := len + 1;
    }

    /** `astring_pop`: the length drops by one and a NUL is written at the new last counted
        byte. A length of 1 would write before the block. */
    method Pop()
      requires Valid() && len >= 2
      modifies this, ptr
      ensures Valid() && ptr == old(ptr) && cap == old(cap) && len == old(len) - 1
      ensures Text() == old(Text())[..old(len) - 2] + [0]
    {
      len := len - 1;
      ptr[len - 1] := 0;
      assert ptr[..len] == old(ptr[..len - 2]) + [0];
    }

    /** The loop shared by `astring_push_ptr` and the corrected `astring_push_str`: push `bytes`
        in order. When no push finds the string full, the block is kept and the content before
        the terminator is followed by `bytes` and a NUL; in any case the last byte pushed and the
        NUL end the counted bytes. */
    method PushBytes(bytes: seq<Byte>)
      requires Valid() && arena.Valid() && len >= 1
      requires |bytes| > 0 ==> cap >= 2
      requires PushedCap(len, cap, |bytes|) <= DefaultAllocSize
      modifies this, ptr, arena.Repr
      ensures Valid() && arena.Valid() && fresh(arena.Repr - old(arena.Repr))
      ensures len == old(len) + |bytes| && cap == PushedCap(old(len), old(cap), |bytes|)
      ensures ptr == old(ptr) || fresh(ptr)
      ensures |bytes| > 0 ==> ptr != null && ptr[len - 2] == bytes[|bytes| - 1] && ptr[len - 1] == 0
      ensures old(len) + |bytes| <= old(cap) ==> ptr == old(ptr) && arena.Blocks == old(arena.Blocks)
      ensures old(len) + |bytes| <= old(cap) && |bytes| > 0 ==>
                Text() == old(Text())[..old(len) - 1] + bytes + [0]
    {
      ghost var n0, cap0, ptr0, t0, blocks0 := len, cap, ptr, Text(), arena.Blocks;
      ghost var fits := n0 + |bytes| <= cap0;
      ghost var target := PushedCap(n0, cap0, |bytes|);
      PushedCapGrows(len, cap, |bytes|);
      var i := 0;
      while i < |bytes|
        invariant Progress(bytes, i, n0, t0, fits, target, ptr0, cap0, blocks0)
        invariant fresh(arena.Repr - old(arena.Repr)) && (ptr == ptr0 || fresh(ptr))
      {
        PushNext(bytes, i, n0, t0, fits, target, ptr0, cap0, blocks0);
        i := i + 1;
      }
      if fits && |bytes| > 0 {
        PushedText(t0, n0, bytes);
      }
    }

    /** Where the push loop stands after `i` of `bytes`, on a string that had length `n0`,
        capacity `cap0`, block `ptr0` and text `t0`: the capacity it will end with is still
        `target`, the last byte pushed and a NUL end the counted bytes, and while every push fits
        nothing has moved and the pushed bytes follow those of `t0`. */
    ghost predicate Progress(bytes: seq<Byte>, i: nat, n0: nat, t0: seq<Byte>, fits: bool,
                             target: nat, ptr0: array?<Byte>, cap0: nat, blocks0: seq<Block>)
      reads this, ptr, arena, arena.Repr
    {
      i <= |bytes| && len == n0 + i && 1 <= n0 <= |t0| + 1 && Valid() && arena.Valid() &&
      PushedCap(len, cap, |bytes| - i) == target && target <= DefaultAllocSize &&
      (i < |bytes| ==> cap >= 2) &&
      (i > 0 ==> ptr != null && ptr[len - 2] == bytes[i - 1] && ptr[len - 1] == 0) &&
      (fits ==> ptr == ptr0 && cap == cap0 && arena.Blocks == blocks0 &&
                len + |bytes| - i <= cap && Pushed(t0, n0, bytes, i))
    }

    /** While every push fits: the block keeps the first `n0 - 1` bytes of `t0` and holds the
        first `i` bytes pushed after them. */
    ghost predicate Pushed(t0: seq<Byte>, n0: nat, bytes: seq<Byte>, i: nat)
      reads this, ptr
      requires Valid() && 1 <= n0 <= |t0| + 1 && i <= |bytes| && n0 - 1 + i <= cap
    {
      ptr != null &&
      (forall j :: 0 <= j < n0 - 1 ==> ptr[j] == t0[j]) &&
      (forall j :: 0 <= j < i ==> ptr[n0 - 1 + j] == bytes[j])
    }

    /** When every push fitted, the counted bytes are those of `t0` before its terminator, the
        pushed bytes and the NUL written after them. */
    lemma PushedText(t0: seq<Byte>, n0: nat, bytes: seq<Byte>)
      requires Valid() && 1 <= n0 <= |t0| + 1 && len == n0 + |bytes|
      requires Pushed(t0, n0, bytes, |bytes|) && ptr[len - 1] == 0
      ensures Text() == t0[..n0 - 1] + bytes + [0]
    {
      var m := Text();
      forall j | 0 <= j < |m|
        ensures m[j] == (t0[..n0 - 1] + bytes + [0])[j]
      {
        if n0 - 1 <= j < |m| - 1 {
          assert ptr[n0 - 1 + (j - (n0 - 1))] == bytes[j - (n0 - 1)];
        }
      }
    }

    /** One iteration of the push loop: push `bytes[i]`. */
    method PushNext(bytes: seq<Byte>, i: nat, ghost n0: nat, ghost t0: seq<Byte>, ghost fits: bool,
                    ghost target: nat, ghost ptr0: array?<Byte>, ghost cap0: nat,
                    ghost blocks0: seq<Block>)
      requires i < |bytes| && Progress(bytes, i, n0, t0, fits, target, ptr0, cap0, blocks0)
      modifies this, ptr, arena.Repr
      ensures Progress(bytes, i + 1, n0, t0, fits, target, ptr0, cap0, blocks0)
      ensures fresh(arena.Repr - old(arena.Repr)) && (ptr == old(ptr) || fresh(ptr))
    {
      PushedCapGrows(len, cap, |bytes| - i);
      ghost var prev := ptr[..];
      Push(bytes[i]);
      if fits {
        forall j | 0 <= j <= i
          ensures ptr[n0 - 1 + j] == bytes[j]
        {
          if j < i {
            assert ptr[n0 - 1 + j] == prev[n0 - 1 + j];
          }
        }
        forall j | 0 <= j < n0 - 1
          ensures ptr[j] == t0[j]
        {
          assert ptr[j] == prev[j];
        }
      }
    }

    /** `astring_push_ptr`: push every byte of the C string whose content is `s`. */
    method PushPtr(s: seq<Byte>)
      requires Valid() && arena.Valid() && len >= 1 && NoNul(s)
      requires |s| > 0 ==> cap >= 2
      requires PushedCap(len, cap, |s|) <= DefaultAllocSize
      modifies this, ptr, arena.Repr
      ensures Valid() && arena.Valid() && fresh(arena.Repr - old(arena.Repr))
      ensures len == old(len) + |s| && cap == PushedCap(old(len), old(cap), |s|)
      ensures ptr == old(ptr) || fresh(ptr)
      ensures |s| > 0 ==> ptr != null && ptr[len - 2] == s[|s| - 1] && ptr[len - 1] == 0
      ensures old(len) + |s| <= old(cap) ==> ptr == old(ptr) && arena.Blocks == old(arena.Blocks)
      ensures old(len) + |s| <= old(cap) && |s| > 0 ==> Text() == old(Text())[..old(len) - 1] + s + [0]
    {
      PushBytes(s);
    }

    /** `astring_push_str` corrected to bound its loop by `other` as `string_push_str` does:
        push the first `len - 1` counted bytes of `other`, read as they are on entry. */
    method PushStr(other: AString)
      requires Valid() && other.Valid() && arena.Valid() && len >= 1 && other.len >= 1
      requires other.len > 1 ==> cap >= 2
      requires PushedCap(len, cap, other.len - 1) <= DefaultAllocSize
      modifies this, ptr, arena.Repr
      ensures Valid() && arena.Valid() && fresh(arena.Repr - old(arena.Repr))
      ensures len == old(len) + old(other.len) - 1
      ensures cap == PushedCap(old(len), old(cap), old(other.len) - 1)
      ensures ptr == old(ptr) || fresh(ptr)
      ensures old(len) + old(other.len) - 1 <= old(cap) ==> ptr == old(ptr) && arena.Blocks == old(arena.Blocks)
      ensures old(len) + old(other.len) - 1 <= old(cap) && old(other.len) > 1 ==>
                Text() == old(Text())[..old(len) - 1] + old(other.Text())[..old(other.len) - 1] + [0]
    {
      ghost var t1 := other.Text();
      var bytes := other.ptr[..other.len - 1];
      assert |bytes| == |t1| - 1 && bytes == t1[..|t1| - 1];
      PushBytes(bytes);
    }

    /** `astring_cmp`: equal lengths and the same counted bytes. */
    method Cmp(other: AString) returns (r: bool)
      requires Valid() && other.Valid()
      ensures r <==> Text() == other.Text()
    {
      if len != other.len {
        return false;
      }
      // the loop is the one of `partial_cmp_ptr`
      r := PartialCmp(other.AsView().data, AsView().data[..len], len);
    }

    /** `astring_contains_sv`: false for an empty predicate, else whether it occurs at a start
        index below the string's length. */
    method ContainsView(pred: StringView) returns (r: bool)
      requires Valid() && ScanInBounds(AsView(), pred)
      ensures r <==> Occurs(AsView(), pred)
    {
      r := ViewContains(AsView(), pred);
    }

    /** `astring_contains`: `astring_contains_sv` with the predicate string's length and
        memory. */
    method Contains(pred: AString) returns (r: bool)
      requires Valid() && pred.Valid() && ScanInBounds(AsView(), pred.AsView())
      ensures r <==> Occurs(AsView(), pred.AsView())
    {
      r := ViewContains(AsView(), pred.AsView());
    }

    /** The C string at `astring_cstr` with the length and capacity, the arguments
        `astring_copy` and `astring_to_string` pass on. When the counted bytes are a C string
        and its terminator, the C string is exactly the bytes before the terminator. */
    function CstrParts(): (r: (seq<Byte>, nat, nat))
      reads this, ptr
      requires Valid() && ptr != null && 0 in ptr[..]
      ensures NoNul(r.0) && |r.0| < cap && r.1 == len && r.2 == cap
      ensures len >= 1 && Text()[len - 1] == 0 && NoNul(Text()[..len - 1]) ==>
                r.1 == |r.0| + 1 && Text() == r.0 + [0]
      ensures IsCString() ==> r.1 == |r.0| && Text() == r.0
    {
      TextIsCstr(this);
      var m := ptr[..];
      (m[..StrLen(m)], len, cap)
    }

    /** `astring_copy`: `astring_from_parts` in the same arena on the string's `cstr`, length
        and capacity. A string whose counted bytes are a C string and its terminator is copied
        exactly. */
    method Copy() returns (t: AString)
      requires Valid() && ptr != null && 0 in ptr[..]
      requires arena.Valid() && Serviceable(arena.Blocks, cap)
      modifies arena.Repr
      ensures fresh(t) && t.Valid() && t.arena == arena && fresh(t.ptr)
      ensures t.len == old(len) && t.cap == old(cap)
      ensures arena.Valid() && fresh(arena.Repr - old(arena.Repr))
      ensures (arena.Blocks, t.addr) == AllocChain(old(arena.Blocks), old(cap))
      ensures old(len) >= 1 && old(Text())[old(len) - 1] == 0 && NoNul(old(Text())[..old(len) - 1]) ==>
                t.Text() == old(Text())
      ensures old(IsCString()) ==> t.Text() == old(Text()) && t.IsCString()
    {
      var (p, length, capacity) := CstrParts();
      t := new AString.FromParts(arena, p, length, capacity);
    }

    /** `astring_to_string`: `string_from_parts` on the block, length and capacity. The result
        is a heap string when the capacity exceeds 24; a string whose counted bytes are a C
        string and its terminator keeps them in either form. */
    method ToString() returns (t: Strings.String)
      requires Valid() && ptr != null && 0 in ptr[..]
      ensures fresh(t) && t.Valid()
      ensures t.long <==> cap > Strings.ShortLength
      ensures t.long ==> t.Len() == len && t.Cap() == cap
      ensures len >= 1 && Text()[len - 1] == 0 && NoNul(Text()[..len - 1]) ==> t.View().text == Text()
      ensures !t.long ==> t.Len() == (if StrLen(ptr[..]) == Strings.Reserved then Strings.ShortLength else len)
      ensures IsCString() && (t.long || len != Strings.Reserved) ==> t.View().text == Text() && t.IsCString()
    {
      var (p, length, capacity) := CstrParts();
      t := new Strings.String.FromParts(p, length, capacity);
    }
  }

  /** `astring_from_string`: `astring_from_parts` in `a` on the string's `cstr`, length and
      capacity. A string whose counted bytes are a C string and its terminator keeps them. */
  method FromString(a: ArenaAllocator, s: Strings.String) returns (t: AString)
    requires s.Valid() && 0 in s.Cstr()[..] && StrLen(s.Cstr()[..]) < s.Cap()
    requires a.Valid() && Serviceable(a.Blocks, s.Cap())
    modifies a.Repr
    ensures fresh(t) && t.Valid() && t.arena == a && fresh(t.ptr)
    ensures t.len == old(s.Len()) && t.cap == old(s.Cap())
    ensures a.Valid() && fresh(a.Repr - old(a.Repr))
    ensures (a.Blocks, t.addr) == AllocChain(old(a.Blocks), old(s.Cap()))
    ensures old(Strings.Terminated(s.View()) && NoNul(s.View().text[..s.Len() - 1])) ==>
              t.Text() == old(s.View().text)
    ensures old(s.IsCString()) ==> t.Text() == old(s.View().text) && t.IsCString()
  {
    var (p, length, capacity) := Strings.CstrParts(s);
    t := new AString.FromParts(a, p, length, capacity);
  }
}
