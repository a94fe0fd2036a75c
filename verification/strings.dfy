/** The small-string-optimised `String` of core.h.

    A `String` is a tagged union. The short form keeps up to 24 bytes inline, and its byte 23
    holds `24 - len` (so a zero there means length 24). The long form is a heap pointer with a
    capacity and a length. Push and pop treat the stored length as counting a terminating NUL:
    `push(c)` writes `c` over the byte at `len - 1` and a NUL at `len`, and `pop` writes a NUL
    at the new `len - 1`. The constructors from C strings do not follow that convention.

    The union is modelled with both halves present: `inline` is the short buffer, and `ptr`,
    `cap` and `len` are the long fields. Where the C code reads a byte of the short buffer that
    overlays a long field, the model writes the value that byte has on a little-endian 64-bit
    target. */
module Strings {
  import opened Mem
  import opened Views

  /** SHORT_STRING_LENGTH. */
  const ShortLength: nat := 24

  /** The index of the reserved byte in the short form. */
  const Reserved: nat := ShortLength - 1

  /** `string_grow`'s new capacity, `cap * STRING_GROW_FACTOR` with the factor 1.5 truncated to
      an integer. */
  function GrownCap(cap: nat): (r: nat)
    ensures 2 * r <= 3 * cap < 2 * r + 2
    ensures cap >= 2 ==> r > cap
  {
    cap * 3 / 2
  }

  /** What a `String` holds, as `string_len`, `string_cap` and `string_cstr` report it: the
      form, the capacity and the first `string_len` bytes. */
  datatype Shape = Shape(long: bool, cap: nat, text: seq<Byte>)

  /** A short string reports capacity 24 and at most 24 bytes; a long one has a capacity above
      24 that holds its length. */
  predicate Consistent(s: Shape)
  {
    (!s.long ==> s.cap == ShortLength && |s.text| <= ShortLength) &&
    (s.long ==> ShortLength < s.cap && |s.text| <= s.cap)
  }

  /** The convention of push and pop: the last counted byte is a NUL. */
  predicate Terminated(s: Shape)
  {
    |s.text| >= 1 && s.text[|s.text| - 1] == 0
  }

  /** The forms that push and pop never move between: short, or long above 24 bytes. */
  predicate Canonical(s: Shape)
  {
    !s.long || |s.text| > ShortLength
  }

  /** The effect of `string_push(c)` on a string of length at least 1. */
  function PushShape(s: Shape, c: Byte): (r: Shape)
    requires |s.text| >= 1
    ensures |r.text| == |s.text| + 1
    ensures r.text[..|s.text| - 1] == s.text[..|s.text| - 1]
    ensures r.text[|s.text| - 1] == c && Terminated(r)
    ensures r.long <==> s.long || |s.text| >= ShortLength
    ensures r.long && s.long ==> r.cap == (if |s.text| == s.cap then GrownCap(s.cap) else s.cap)
    ensures Consistent(s) ==> Consistent(r)
  {
    var n := |s.text|;
    var cap := if !s.long then (if n < ShortLength then ShortLength else ShortLength + 1)
               else if n == s.cap then GrownCap(s.cap) else s.cap;
    assert Consistent(s) ==> n + 1 <= cap;
    Shape(s.long || n >= ShortLength, cap, PushedText(s.text, c))
  }

  /** The bytes after a push: `c` over the old terminator, then a new NUL. */
  function PushedText(t: seq<Byte>, c: Byte): (u: seq<Byte>)
    requires |t| >= 1
    ensures |u| == |t| + 1 && u[..|t| - 1] == t[..|t| - 1] && u[|t| - 1] == c && u[|t|] == 0
  {
    t[..|t| - 1] + [c, 0]
  }

  /** The effect of `string_pop` on a string of length at least 2, as a relation: a long string
      that drops below 24 bytes becomes short with its reserved byte 0, so it reports length 24,
      and its bytes between the new length and 23 are left unspecified. */
  ghost predicate PopStep(s: Shape, t: Shape)
    requires |s.text| >= 2
  {
    var n := |s.text|;
    var text := s.text[..n - 2] + [0];
    if !s.long then t == Shape(false, ShortLength, text)
    else if n - 1 > ShortLength then t == Shape(true, s.cap, text)
    else if n - 1 == ShortLength then t == Shape(false, ShortLength, text)
    else !t.long && t.cap == ShortLength && |t.text| == ShortLength &&
         t.text[..n - 1] == text && t.text[Reserved] == 0
  }

  /** Pop keeps a consistent string consistent and leaves it terminated. */
  lemma PopKeepsConsistent(s: Shape, t: Shape)
    requires |s.text| >= 2 && Consistent(s) && PopStep(s, t)
    ensures Consistent(t) && Terminated(t)
  {
  }

  /** A long string popped to fewer than 24 bytes reports length 24 afterwards: only a drop to
      exactly 24 reports the right length. */
  lemma ShrinkReportsShortLength(s: Shape, t: Shape)
    requires s.long && 2 <= |s.text| <= ShortLength && PopStep(s, t)
    ensures |t.text| == ShortLength && |t.text| != |s.text| - 1
  {
  }

  /** On a terminated short string, or a long one above 24 bytes, `pop` straight after
      `push(c)` restores the form and every counted byte. */
  lemma {:induction false} PushThenPop(s: Shape, c: Byte, t: Shape)
    requires Consistent(s) && Canonical(s) && Terminated(s)
    requires PopStep(PushShape(s, c), t)
    ensures t.long == s.long && t.text == s.text
  {
    var n := |s.text|;
    var p := PushShape(s, c);
    assert p.text[..n - 1] + [0] == s.text by {
      assert p.text[..n - 1] == s.text[..n - 1];
      assert s.text == s.text[..n - 1] + [s.text[n - 1]];
    }
  }

  /** The effect of pushing `bytes` one after another. */
  function PushAll(s: Shape, bytes: seq<Byte>): (r: Shape)
    requires |s.text| >= 1
    ensures |r.text| == |s.text| + |bytes|
    ensures Consistent(s) ==> Consistent(r)
    decreases |bytes|
  {
    if bytes == [] then s else PushAll(PushShape(s, bytes[0]), bytes[1..])
  }

  /** Pushing `bytes` leaves the string's content before its terminator, then `bytes`, then a
      NUL. */
  lemma {:induction false} PushAllText(s: Shape, bytes: seq<Byte>)
    requires |s.text| >= 1 && bytes != []
    ensures PushAll(s, bytes).text == s.text[..|s.text| - 1] + bytes + [0]
    decreases |bytes|
  {
    var n := |s.text|;
    var s1 := PushShape(s, bytes[0]);
    assert s1.text == s.text[..n - 1] + [bytes[0], 0] by {
      assert s1.text[..n - 1] == s.text[..n - 1];
    }
    if |bytes| == 1 {
      assert bytes == [bytes[0]];
    } else {
      PushAllText(s1, bytes[1..]);
      assert s1.text[..n] == s.text[..n - 1] + [bytes[0]];
      assert bytes == [bytes[0]] + bytes[1..];
    }
  }

  /** Pushing one more byte after a run of pushes is pushing the longer run. */
  lemma {:induction false} PushAllSnoc(s: Shape, bytes: seq<Byte>, c: Byte)
    requires |s.text| >= 1
    ensures PushAll(s, bytes + [c]) == PushShape(PushAll(s, bytes), c)
    decreases |bytes|
  {
    if bytes == [] {
      assert [c][1..] == [];
    } else {
      assert (bytes + [c])[1..] == bytes[1..] + [c];
      PushAllSnoc(PushShape(s, bytes[0]), bytes[1..], c);
    }
  }

  /** The inline bytes `string_from_parts` leaves in a short string: `before` is the zeroed
      buffer with `24 - length` in its reserved byte, `a` is that buffer after `p` and its NUL
      were copied to its start. The counted bytes are `p` padded with zeros, and are exactly
      `p` and its NUL when `length` counts them. */
  lemma ShortFromPartsText(a: seq<Byte>, before: seq<Byte>, p: seq<Byte>, length: nat)
    requires |a| == |before| == ShortLength && |p| < ShortLength && length <= ShortLength
    requires forall j :: 0 <= j < Reserved ==> before[j] == 0
    requires before[Reserved] as nat == ShortLength - length
    requires a[..|p| + 1] == p + [0] && a[|p| + 1..] == before[|p| + 1..]
    ensures var k := ShortLength - a[Reserved] as nat;
      k == (if |p| == Reserved then ShortLength else length) &&
      a[..k] == (p + seq(ShortLength - |p|, _ => 0))[..k] &&
      (length == |p| + 1 ==> a[..k] == p + [0]) &&
      (length == |p| < Reserved ==> a[..k] == p && a[k] == 0)
  {
    var k := ShortLength - a[Reserved] as nat;
    var z := p + seq(ShortLength - |p|, _ => 0);
    if |p| == Reserved {
      assert a[Reserved] == (p + [0])[Reserved];
    } else {
      assert a[Reserved] == a[|p| + 1..][Reserved - |p| - 1];
    }
    forall j | 0 <= j < k
      ensures a[j] == z[j]
    {
      if j <= |p| {
        assert a[..|p| + 1][j] == (p + [0])[j];
      } else {
        assert a[|p| + 1..][j - |p| - 1] == before[|p| + 1..][j - |p| - 1];
      }
    }
    assert a[..k] == z[..k];
    if length == |p| + 1 {
      assert z[..|p| + 1] == p + [0];
    }
    if length == |p| < Reserved {
      assert z[..|p|] == p;
      assert a[k] == (p + [0])[|p|];
    }
  }

  class String {
    /** The tag: STRING_LONG rather than STRING_SHORT. */
    var long: bool
    /** The short form's 24 bytes. */
    const inline: array<Byte>
    /** The long form's fields. */
    var ptr: array<Byte>
    var cap: nat
    var len: nat

    ghost predicate Valid()
      reads this, inline
    {
      inline.Length == ShortLength && inline != ptr &&
      (!long ==> inline[Reserved] as nat <= ShortLength) &&
      (long ==> ShortLength < cap <= ptr.Length <= cap + 1 && len <= cap)
    }

    /** `string_len`. */
    function Len(): (r: nat)
      reads this, inline
      requires Valid()
      ensures r <= Cap()
      ensures !long ==> r + inline[Reserved] as nat == ShortLength
    {
      if long then len else ShortLength - inline[Reserved] as nat
    }

    /** `string_cap`: 24 for a short string. */
    function Cap(): (r: nat)
      reads this, inline
      requires Valid()
      ensures r > ShortLength <==> long
      ensures !long ==> r == ShortLength
    {
      if long then cap else ShortLength
    }

    /** `string_cstr`: the inline buffer of a short string, the heap block of a long one. */
    function Cstr(): (a: array<Byte>)
      reads this, inline
      requires Valid()
      ensures a == inline <==> !long
      ensures Len() <= a.Length
    {
      if long then ptr else inline
    }

    ghost function View(): (s: Shape)
      reads this, inline, ptr
      requires Valid()
      ensures Consistent(s)
    {
      Shape(long, Cap(), Cstr()[..Len()])
    }

    /** `string_into_view`: the string's length and the memory at its `cstr`. */
    function IntoView(): (v: StringView)
      reads this, inline, ptr
      requires Valid()
      ensures Readable(v) && v.len == Len() && v.data[..v.len] == View().text
    {
      StringView(Len(), Cstr()[..])
    }

    /** The counted bytes are a C string: none of them is a NUL and a NUL follows them in the
        memory at `cstr`, as `string_from` leaves them. */
    ghost predicate IsCString()
      reads this, inline, ptr
      requires Valid()
    {
      Len() < Cstr().Length && Cstr()[Len()] == 0 && NoNul(View().text)
    }

    /** `string_new`: a short string whose buffer is all zeros, so that its reserved byte is 0
        and it reports length 24. */
    constructor New()
      ensures Valid() && fresh(inline) && fresh(ptr)
      ensures View() == Shape(false, ShortLength, seq(ShortLength, _ => 0))
    {
      inline := new Byte[ShortLength](_ => 0);
      ptr := new Byte[0];
      long, cap, len := false, 0, 0;
    }

    /** `string_new_size`: long with capacity `size` (a block of `size + 1` bytes) and length 0
        when `size` exceeds 24; otherwise a zeroed short string, which reports length 24. */
    constructor NewSize(size: nat)
      ensures Valid() && fresh(inline) && fresh(ptr)
      ensures long <==> size > ShortLength
      ensures long ==> cap == size && len == 0 && ptr.Length == size + 1
      ensures !long ==> View() == Shape(false, ShortLength, seq(ShortLength, _ => 0))
    {
      inline := new Byte[ShortLength](_ => 0);
      if size > ShortLength {
        ptr := new Byte[size + 1];
        long, cap, len := true, size, 0;
      } else {
        ptr := new Byte[0];
        long, cap, len := false, 0, 0;
      }
    }

    /** `string_from` of a C string with content `s`. Up to 22 bytes it is short with length
        `|s|`; at 23 bytes the terminator lands on the reserved byte, so it reports length 24;
        above 24 it is long with length and capacity `|s|`. At exactly 24 bytes the terminator
        is written past the inline buffer, which the model excludes. */
    constructor From(s: seq<Byte>)
      requires NoNul(s) && |s| != ShortLength
      ensures Valid() && fresh(inline) && fresh(ptr)
      ensures |s| < Reserved ==> View() == Shape(false, ShortLength, s)
      ensures |s| == Reserved ==> View() == Shape(false, ShortLength, s + [0])
      ensures |s| > ShortLength ==> View() == Shape(true, |s|, s)
      ensures |s| > ShortLength ==> ptr.Length == |s| + 1 && ptr[|s|] == 0
      ensures |s| != Reserved ==> IsCString()
    {
      inline := new Byte[ShortLength](_ => 0);
      if |s| > ShortLength {
        ptr := new Byte[|s| + 1];
        long, cap, len := true, |s|, |s|;
      } else {
        ptr := new Byte[0];
        long, cap, len := false, 0, 0;
      }
      new;
      if long {
        StrCopy(ptr, s);
        assert ptr[..|s|] == (s + [0])[..|s|];
      } else {
        inline[Reserved] := (ShortLength - |s|) as Byte;
        StrCopy(inline, s);
        if |s| < Reserved {
          assert inline[Reserved] == (ShortLength - |s|) as Byte;
          assert inline[..|s|] == (s + [0])[..|s|];
        } else {
          assert inline[Reserved] == 0;
        }
      }
    }

    /** `string_from_parts`: long when `capacity` exceeds 24, with a block starting with the C
        string `p` and the given length and capacity; otherwise a zeroed short string holding
        `p` whose reserved byte is `24 - length`, unless `p` has 23 bytes and its terminator
        overwrites that byte. The block has `capacity + 1` bytes, as `string_new_size` gives,
        so that a C string of `capacity` bytes and its terminator fit; the C code allocates
        `capacity` bytes (see `FromPartsAsWrittenFits`). */
    constructor FromParts(p: seq<Byte>, length: nat, capacity: nat)
      requires NoNul(p)
      requires capacity > ShortLength ==> |p| <= capacity && length <= capacity
      requires capacity <= ShortLength ==> |p| < ShortLength && length <= ShortLength
      ensures Valid() && fresh(inline) && fresh(ptr)
      ensures long <==> capacity > ShortLength
      ensures long ==> cap == capacity && len == length && ptr.Length == capacity + 1
      ensures long ==> ptr[..|p| + 1] == p + [0]
      ensures !long ==> Len() == (if |p| == Reserved then ShortLength else length)
      ensures !long ==> View().text == (p + seq(ShortLength - |p|, _ => 0))[..Len()]
      ensures length == |p| + 1 ==> View() == Shape(long, Cap(), p + [0])
      ensures length == |p| && (long || |p| < Reserved) ==> View() == Shape(long, Cap(), p) && IsCString()
    {
      inline := new Byte[ShortLength](_ => 0);
      if capacity > ShortLength {
        ptr := new Byte[capacity + 1];
        long, cap, len := true, capacity, length;
      } else {
        ptr := new Byte[0];
        long, cap, len := false, 0, 0;
      }
      new;
      if long {
        StrCopy(ptr, p);
        if length == |p| {
          assert ptr[..len] == p && ptr[len] == 0;
        }
      } else {
        inline[Reserved] := (ShortLength - length) as Byte;
        ghost var before := inline[..];
        StrCopy(inline, p);
        ShortFromPartsText(inline[..], before, p, length);
      }
    }

    /** `string_transform`. A long string of at most 24 bytes moves its bytes inline and
        becomes short; the reserved byte then reads as the top byte of the old `len` field,
        which is 0, unless the copy itself covers it. A short string moves its 24 bytes to a
        fresh 25-byte block and becomes long with length 24 and capacity 25. */
    method Transform()
      requires Valid()
      requires long ==> len <= ShortLength
      requires long && len == ShortLength ==> ptr[Reserved] as nat <= ShortLength
      modifies this, inline
      ensures Valid() && long == !old(long)
      ensures old(long) ==> inline[..old(len)] == old(ptr[..len])
      ensures old(long) && old(len) < ShortLength ==> inline[Reserved] == 0
      ensures old(long) ==> ptr == old(ptr)
      ensures !old(long) ==> fresh(ptr) && ptr.Length == ShortLength + 1
      ensures !old(long) ==> len == ShortLength && cap == ShortLength + 1
      ensures !old(long) ==> ptr[..ShortLength] == old(inline[..])
    {
      if long {
        CopyPrefix(ptr, inline, len);
        if len < ShortLength {
          // the byte overlays the most significant byte of the small `len` field
          inline[Reserved] := 0;
        }
        long := false;
      } else {
        var block := new Byte[ShortLength + 1];
        CopyPrefix(inline, block, ShortLength);
        ptr := block;
        len, cap := ShortLength, ShortLength + 1;
        long := true;
      }
    }

    /** `string_grow`: a long string's block is reallocated to `GrownCap(cap)` bytes, keeping
        its contents. */
    method Grow()
      requires Valid() && long
      modifies this
      ensures Valid() && long && len == old(len) && cap == GrownCap(old(cap))
      ensures fresh(ptr) && ptr.Length == cap
      ensures ptr[..old(ptr.Length)] == old(ptr[..])
    {
      var newCap := GrownCap(cap);
      var block := new Byte[newCap];
      CopyPrefix(ptr, block, ptr.Length);
      ptr, cap := block, newCap;
    }

    /** `string_push`: `c` replaces the last counted byte and a NUL follows it. A short string
        of 24 bytes first becomes long; a full long string first grows. A length of 0 would
        write before the buffer. */
    method Push(c: Byte)
      requires Valid() && Len() >= 1
      modifies this, inline, ptr
      ensures Valid() && View() == PushShape(old(View()), c)
      ensures ptr == old(ptr) || fresh(ptr)
    {
      if !long {
        if Len() >= ShortLength {
          PushTransformed(c);
        } else {
          PushInline(c);
        }
      } else {
        PushHeap(c);
      }
    }

    /** The short branch of `string_push` below 24 bytes: write `c` and a NUL inline and
        decrement the reserved byte. */
    method PushInline(c: Byte)
      requires Valid() && !long && 1 <= Len() < ShortLength
      modifies inline
      ensures Valid() && View() == PushShape(old(View()), c)
    {
      var n := ShortLength - inline[Reserved] as nat;
      inline[n - 1] := c;
      var reserved := inline[Reserved];
      // at n == 23 the NUL and the decrement both land on the reserved byte; each leaves 0
      inline[n] := 0;
      inline[Reserved] := reserved - 1;
      assert inline[..n + 1] == old(inline[..n - 1]) + [c, 0];
    }

    /** The short branch of `string_push` at 24 bytes: become long, then write `c` and a NUL
        into the new block. */
    method PushTransformed(c: Byte)
      requires Valid() && !long && Len() == ShortLength
      modifies this, inline
      ensures Valid() && View() == PushShape(old(View()), c)
      ensures fresh(ptr)
    {
      Transform();
      ptr[len - 1] := c;
      ptr[len] := 0;
      len := len + 1;
      assert ptr[..len] == old(inline[..ShortLength - 1]) + [c, 0];
    }

    /** The long branch of `string_push`: grow when full, then write `c` and a NUL. */
    method PushHeap(c: Byte)
      requires Valid() && long && len >= 1
      modifies this, ptr
      ensures Valid() && View() == PushShape(old(View()), c)
      ensures ptr == old(ptr) || fresh(ptr)
    {
      ghost var n := len;
      if len == cap {
        Grow();
      }
      ptr[len - 1] := c;
      ptr[len] := 0;
      len := len + 1;
      assert ptr[..len] == old(ptr[..n - 1]) + [c, 0];
    }

    /** `string_pop`: the length drops by one and a NUL is written at the new last counted
        byte; a long string left with at most 24 bytes becomes short. A length of 1 would write
        before the buffer. */
    method Pop()
      requires Valid() && Len() >= 2
      modifies this, inline, ptr
      ensures Valid() && PopStep(old(View()), View())
    {
      if !long {
        PopInline();
      } else {
        PopHeap();
        if len <= ShortLength {
          ghost var before := View();
          PopShrink();
          assert View().text[..|before.text|] == before.text;
        }
      }
    }

    /** The short branch of `string_pop`: the reserved byte counts one more free byte and the
        new last counted byte becomes a NUL. */
    method PopInline()
      requires Valid() && !long && Len() >= 2
      modifies inline
      ensures Valid() && View() == Shape(false, ShortLength, old(View().text[..Len() - 2]) + [0])
    {
      inline[Reserved] := inline[Reserved] + 1;
      var n := ShortLength - inline[Reserved] as nat;
      inline[n - 1] := 0;
      assert inline[..n] == old(inline[..n - 1]) + [0];
    }

    /** The long branch of `string_pop`: the length drops by one and the new last counted byte
        becomes a NUL. */
    method PopHeap()
      requires Valid() && long && len >= 2
      modifies this, ptr
      ensures Valid() && long && ptr == old(ptr) && cap == old(cap) && len == old(len) - 1
      ensures View() == Shape(true, cap, old(View().text[..len - 2]) + [0])
    {
      ghost var n := len;
      len := len - 1;
      ptr[len - 1] := 0;
      assert ptr[..len] == old(ptr[..n - 2]) + [0];
    }

    /** A long string popped to at most 24 bytes turns short: its bytes move inline and, with
        its last counted byte a NUL, it reports length 24. */
    method PopShrink()
      requires Valid() && long && 1 <= len <= ShortLength && ptr[len - 1] == 0
      modifies this, inline
      ensures Valid() && !long && Len() == ShortLength
      ensures inline[..old(len)] == old(ptr[..len])
      ensures old(len) < ShortLength ==> inline[Reserved] == 0
    {
      Transform();
    }

    /** The loop shared by `string_push_ptr` and `string_push_str`: push `bytes` in order. */
    method PushBytes(bytes: seq<Byte>)
      requires Valid() && Len() >= 1
      modifies this, inline, ptr
      ensures Valid() && View() == PushAll(old(View()), bytes)
      ensures ptr == old(ptr) || fresh(ptr)
    {
      ghost var target := PushAll(View(), bytes);
      var i := 0;
      while i < |bytes|
        invariant i <= |bytes|
        invariant Valid() && Len() >= 1
        invariant PushAll(View(), bytes[i..]) == target
        invariant ptr == old(ptr) || fresh(ptr)
      {
        assert bytes[i..][1..] == bytes[i + 1..];
        Push(bytes[i]);
        i := i + 1;
      }
    }

    /** `string_push_ptr`: push every byte of the C string whose content is `s`. */
    method PushPtr(s: seq<Byte>)
      requires Valid() && Len() >= 1 && NoNul(s)
      modifies this, inline, ptr
      ensures Valid() && View() == PushAll(old(View()), s)
      ensures ptr == old(ptr) || fresh(ptr)
    {
      PushBytes(s);
    }

    /** `string_push_str`: push the first `len - 1` counted bytes of `other`, that is its
        content before the terminator. `other` is passed by value, so its bytes are the ones
        it holds on entry. */
    method PushStr(other: String)
      requires Valid() && other.Valid() && Len() >= 1 && other.Len() >= 1
      modifies this, inline, ptr
      ensures Valid() && View() == PushAll(old(View()), old(other.View().text[..other.Len() - 1]))
      ensures ptr == old(ptr) || fresh(ptr)
    {
      var bytes := other.Cstr()[..other.Len() - 1];
      assert bytes == other.View().text[..other.Len() - 1];
      PushBytes(bytes);
    }

    /** `string_cmp_sv`: equal lengths and the same counted bytes. The view is read until the
        first mismatch. */
    method CmpView(v: StringView) returns (r: bool)
      requires Valid()
      requires v.len == Len() ==> CmpInBounds(v.data, View().text, v.len)
      ensures r <==> v.len == Len() && v.len <= |v.data| && v.data[..v.len] == View().text
    {
      if Len() != v.len {
        return false;
      }
      r := PartialCmp(v.data, Cstr()[..Len()], v.len);
    }

    /** `string_cmp`: equal lengths and the same counted bytes. */
    method Cmp(other: String) returns (r: bool)
      requires Valid() && other.Valid()
      ensures r <==> View().text == other.View().text
    {
      r := CmpView(other.IntoView());
    }

    /** `string_contains`: false for an empty predicate, else whether it occurs at a start index
        below the string's length, read through the string's `cstr`. */
    method Contains(pred: StringView) returns (r: bool)
      requires Valid() && ScanInBounds(IntoView(), pred)
      ensures r <==> Occurs(IntoView(), pred)
    {
      r := ViewContains(IntoView(), pred);
    }
  }

  /** The counted bytes of a string that are a C string and its terminator are what `strcpy`
      copies from its `cstr`. */
  lemma CstrIsText(s: String)
    requires s.Valid()
    ensures Terminated(s.View()) && NoNul(s.View().text[..s.Len() - 1]) ==>
              0 in s.Cstr()[..] && StrLen(s.Cstr()[..]) == s.Len() - 1 &&
              s.View().text == s.Cstr()[..s.Len() - 1] + [0]
    ensures s.IsCString() ==>
              0 in s.Cstr()[..] && StrLen(s.Cstr()[..]) == s.Len() && s.View().text == s.Cstr()[..s.Len()]
  {
    var m := s.Cstr()[..];
    if Terminated(s.View()) && NoNul(s.View().text[..s.Len() - 1]) {
      var k := s.Len() - 1;
      assert s.View().text == m[..k + 1];
      assert m[..k] == s.View().text[..k];
      StrLenOfTerminated(m, k);
    }
    if s.IsCString() {
      assert m[..s.Len()] == s.View().text;
      StrLenOfTerminated(m, s.Len());
    }
  }

  /** The C string at a string's `cstr` with the string's length and capacity, the arguments
      `string_copy` and `astring_from_string` pass on. When the counted bytes are a C string and
      its terminator, the C string is exactly the bytes before the terminator. */
  function CstrParts(s: String): (r: (seq<Byte>, nat, nat))
    reads s, s.inline, s.ptr
    requires s.Valid() && 0 in s.Cstr()[..]
    ensures NoNul(r.0) && |r.0| == StrLen(s.Cstr()[..]) && r.1 == s.Len() && r.2 == s.Cap()
    ensures Terminated(s.View()) && NoNul(s.View().text[..s.Len() - 1]) ==>
              r.1 == |r.0| + 1 && s.View().text == r.0 + [0]
    ensures s.IsCString() ==> r.1 == |r.0| && s.View().text == r.0
  {
    CstrIsText(s);
    var m := s.Cstr()[..];
    (m[..StrLen(m)], s.Len(), s.Cap())
  }

  /** `string_copy`: `string_from_parts` on the string's `cstr`, length and capacity. A string
      whose counted bytes are a C string and its terminator, or a C string followed by a NUL,
      is copied exactly. */
  method Copy(s: String) returns (t: String)
    requires s.Valid() && 0 in s.Cstr()[..]
    ensures t.Valid() && fresh(t) && fresh(t.inline) && fresh(t.ptr)
    ensures t.long == s.long && t.Cap() == s.Cap() && t.Len() == s.Len()
    ensures Terminated(s.View()) && NoNul(s.View().text[..s.Len() - 1]) ==> t.View() == s.View()
    ensures s.IsCString() ==> t.View() == s.View() && t.IsCString()
  {
    var (p, length, capacity) := CstrParts(s);
    if s.long {
      assert s.len <= s.cap;
    } else if |p| == Reserved {
      assert s.inline[Reserved] == 0 by {
        assert s.inline[..][|p|] == 0;
      }
    }
    if !s.long && s.IsCString() {
      assert |p| != Reserved by {
        assert s.inline[Reserved] as nat == ShortLength - s.Len();
      }
    }
    t := new String.FromParts(p, length, capacity);
  }

  /** `string_view_into_string`: `string_from_parts` with the view's length as both length and
      capacity, copying the C string at the view's data. A view of a C string, as
      `string_view_from` makes it, becomes a string with the same bytes unless it has 23 bytes
      and so reports length 24. */
  method ViewIntoString(v: StringView) returns (t: String)
    requires 0 in v.data
    requires v.len > ShortLength ==> StrLen(v.data) <= v.len
    requires v.len <= ShortLength ==> StrLen(v.data) < ShortLength
    ensures t.Valid() && fresh(t) && fresh(t.inline) && fresh(t.ptr)
    ensures t.long <==> v.len > ShortLength
    ensures t.long ==> t.Len() == v.len && t.Cap() == v.len && t.ptr.Length == v.len + 1
    ensures t.long ==> t.ptr[..StrLen(v.data) + 1] == v.data[..StrLen(v.data) + 1]
    ensures !t.long ==> t.Len() == (if StrLen(v.data) == Reserved then ShortLength else v.len)
    ensures !t.long ==>
              t.View().text == (v.data[..StrLen(v.data)] + seq(ShortLength - StrLen(v.data), _ => 0))[..t.Len()]
    ensures v.len == StrLen(v.data) && v.len != Reserved ==> t.View().text == v.data[..v.len] && t.IsCString()
  {
    var n := StrLen(v.data);
    t := new String.FromParts(v.data[..n], v.len, v.len);
    assert v.data[..n + 1] == v.data[..n] + [0];
  }

  /** Whether the `strcpy` in `string_from_parts` as written stays inside the block it
      allocates for a long string: `capacity` bytes must hold `p` and its terminator. */
  predicate FromPartsAsWrittenFits(p: seq<Byte>, capacity: nat)
  {
    |p| + 1 <= capacity
  }

  /** A long `string_from` result has as many content bytes as its capacity, so `string_copy`
      of it asks `string_from_parts` as written to copy `cap + 1` bytes into `cap`. The same
      holds for `string_view_into_string` of a view from `string_view_from` above 24 bytes. */
  lemma {:induction false} CopyOfLongFromOverflows(x: seq<Byte>, s: String)
    requires NoNul(x) && |x| > ShortLength
    requires s.Valid() && s.View() == Shape(true, |x|, x) && s.ptr.Length == |x| + 1 && s.ptr[|x|] == 0
    ensures 0 in s.Cstr()[..] && StrLen(s.Cstr()[..]) == s.Cap()
    ensures !FromPartsAsWrittenFits(CstrParts(s).0, CstrParts(s).2)
    ensures !FromPartsAsWrittenFits(ViewFrom(s.Cstr()[..]).data[..StrLen(s.Cstr()[..])], ViewFrom(s.Cstr()[..]).len)
  {
    var m := s.Cstr()[..];
    assert m[..|x|] == x;
    StrLenOfTerminated(m, |x|);
  }
}
