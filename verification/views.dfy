/** String views and the byte scans of core.h that every string type shares: `StringView`,
    `string_view_from`, `string_view_contains` and `partial_cmp_ptr`.

    A C pointer to characters becomes the sequence of bytes that may be read from it: `data`
    is everything readable at the view's start, which can reach past its `len` bytes (the
    terminator, the rest of an allocation, the rest of a longer string). */
module Views {
  import opened Mem

  /** `StringView`: a length and the memory readable at its data pointer. */
  datatype StringView = StringView(len: nat, data: seq<Byte>)

  /** The view's own `len` bytes can be read. */
  predicate Readable(v: StringView)
  {
    v.len <= |v.data|
  }

  /** `strlen`: the index of the first NUL of a C string. */
  function StrLen(m: seq<Byte>): (n: nat)
    requires 0 in m
    ensures n < |m| && m[n] == 0
    ensures NoNul(m[..n])
  {
    if m[0] == 0 then 0
    else
      assert 0 in m[1..] by {
        var k :| 0 <= k < |m| && m[k] == 0;
        assert m[1..][k - 1] == 0;
      }
      var n := StrLen(m[1..]);
      assert m[..n + 1] == [m[0]] + m[1..][..n];
      1 + n
  }

  /** A NUL at `k` with none before it is where `strlen` stops. */
  lemma StrLenOfTerminated(m: seq<Byte>, k: nat)
    requires k < |m| && m[k] == 0 && NoNul(m[..k])
    ensures 0 in m && StrLen(m) == k
  {
  }

  /** `string_view_from`: the view of a C string, its length counted up to the first NUL. */
  function ViewFrom(m: seq<Byte>): (v: StringView)
    requires 0 in m
    ensures v.data == m && Readable(v)
    ensures v.len < |m| && m[v.len] == 0 && NoNul(m[..v.len])
  {
    StringView(StrLen(m), m)
  }

  /** The first `n` bytes at `a` and at `p` are the same: what `partial_cmp_ptr` reports. */
  predicate Matches(a: seq<Byte>, p: seq<Byte>, n: nat)
  {
    n <= |a| && n <= |p| && a[..n] == p[..n]
  }

  /** The caller's obligation of `partial_cmp_ptr`: every byte the comparison reads is readable.
      The predicate is read up to `n`; the other side is read until the first mismatch. */
  predicate CmpInBounds(a: seq<Byte>, p: seq<Byte>, n: nat)
  {
    n <= |p| && (n <= |a| || a != p[..|a|])
  }

  /** `partial_cmp_ptr`: compare `n` bytes, stopping at the first mismatch. */
  method PartialCmp(a: seq<Byte>, p: seq<Byte>, n: nat) returns (r: bool)
    requires CmpInBounds(a, p, n)
    ensures r <==> Matches(a, p, n)
  {
    var i := 0;
    while i < n
      invariant i <= n && i <= |a| && i <= |p|
      invariant a[..i] == p[..i]
    {
      if a[i] != p[i] {
        assert !Matches(a, p, n) by {
          if n <= |a| {
            assert a[..n][i] != p[..n][i];
          }
        }
        return false;
      }
      assert a[..i + 1] == a[..i] + [a[i]];
      assert p[..i + 1] == p[..i] + [p[i]];
      i := i + 1;
    }
    return true;
  }

  /** The predicate occurs at `i` in the memory of `hay`. The occurrence has to start below
      `hay.len` but may run past it. */
  predicate MatchAt(hay: StringView, pred: StringView, i: nat)
  {
    i <= |hay.data| && Matches(hay.data[i..], pred.data, pred.len)
  }

  /** What `string_view_contains` computes: false for an empty predicate, otherwise whether
      the predicate occurs at a start index below `hay.len`. */
  predicate Occurs(hay: StringView, pred: StringView)
  {
    pred.len > 0 && exists i :: 0 <= i < hay.len && MatchAt(hay, pred, i)
  }

  /** The caller's obligation of the scan: the haystack's own bytes are readable and no
      comparison it starts reads past the readable memory. */
  predicate ScanInBounds(hay: StringView, pred: StringView)
  {
    Readable(hay) && forall i :: 0 <= i < hay.len ==> CmpInBounds(hay.data[i..], pred.data, pred.len)
  }

  /** `string_view_contains`: try every start index below `hay.len` with `partial_cmp_ptr`. */
  method ViewContains(hay: StringView, pred: StringView) returns (r: bool)
    requires ScanInBounds(hay, pred)
    ensures r <==> Occurs(hay, pred)
  {
    if pred.len == 0 {
      return false;
    }
    var i := 0;
    while i < hay.len
      invariant i <= hay.len
      invariant forall j :: 0 <= j < i ==> !MatchAt(hay, pred, j)
    {
      var found := PartialCmp(hay.data[i..], pred.data, pred.len);
      if found {
        assert MatchAt(hay, pred, i);
        return true;
      }
      i := i + 1;
    }
    return false;
  }

  /** A readable, non-empty view contains itself. */
  lemma OccursInItself(v: StringView)
    requires Readable(v) && v.len > 0
    ensures Occurs(v, v)
  {
    assert MatchAt(v, v, 0) by { assert v.data[0..] == v.data; }
  }

  /** An occurrence is found even when it runs past the haystack's length: the view of the
      first two bytes of "abcd" contains "bc". */
  lemma MatchMayRunPastLength()
    ensures Occurs(StringView(2, [97, 98, 99, 100]), StringView(2, [98, 99]))
  {
    var hay := StringView(2, [97, 98, 99, 100]);
    var pred := StringView(2, [98, 99]);
    assert hay.data[1..][..2] == [98, 99];
    assert MatchAt(hay, pred, 1);
  }

  /** An occurrence inside the haystack's own bytes is found at the same index in any view
      that reads the same memory for longer. */
  lemma {:induction false} OccursGrows(hay: StringView, pred: StringView, longer: nat)
    requires Occurs(hay, pred) && hay.len <= longer
    ensures Occurs(StringView(longer, hay.data), pred)
  {
    var i :| 0 <= i < hay.len && MatchAt(hay, pred, i);
    assert MatchAt(StringView(longer, hay.data), pred, i);
  }
}
