/** Shared vocabulary: bytes, optional values and results, and the slicing and
    searching rules of the host language that the modelled code relies on. */
module Base {

  /** One octet of a byte string. */
  type byte = b: int | 0 <= b < 256

  datatype Option<+T> = None | Some(value: T)

  datatype Result<+T, +E> = Ok(value: T) | Err(error: E)

  /** Normalises a slice bound the way the host language does: a negative bound
      counts from the end, and the result is clamped into `0..len`. */
  function ClampIndex(k: int, len: nat): (r: nat)
    ensures r <= len
    ensures 0 <= k <= len ==> r == k
    ensures k < 0 && len + k >= 0 ==> r == len + k
    ensures k < 0 && len + k < 0 ==> r == 0
    ensures k > len ==> r == len
  {
    if k < 0 then (if len + k < 0 then 0 else len + k)
    else if k > len then len
    else k
  }

  /** `s[a:b]` of the host language: never fails, empty when the bounds cross. */
  function Slice<T>(s: seq<T>, a: int, b: int): (r: seq<T>)
    ensures |r| <= |s|
    ensures 0 <= a <= b <= |s| ==> r == s[a..b]
  {
    var lo := ClampIndex(a, |s|);
    var hi := ClampIndex(b, |s|);
    if lo <= hi then s[lo..hi] else []
  }

  /** `s[a:]` of the host language. */
  function SliceFrom<T>(s: seq<T>, a: int): (r: seq<T>)
    ensures 0 <= a <= |s| ==> r == s[a..]
    ensures a >= |s| ==> r == []
  {
    s[ClampIndex(a, |s|)..]
  }

  /** `s.find(x, start)` for a single element: the first index at or after
      `start` holding `x`, or -1. */
  function FindFrom<T(==)>(s: seq<T>, x: T, start: nat): (r: int)
    requires start <= |s|
    ensures r == -1 || start <= r < |s|
    ensures r >= 0 ==> s[r] == x && forall j :: start <= j < r ==> s[j] != x
    ensures r == -1 ==> forall j :: start <= j < |s| ==> s[j] != x
    decreases |s| - start
  {
    if start == |s| then -1
    else if s[start] == x then start
    else FindFrom(s, x, start + 1)
  }

  /** `s.find(x)` for a single element. */
  function Find<T(==)>(s: seq<T>, x: T): (r: int)
    ensures r == -1 || 0 <= r < |s|
    ensures r >= 0 ==> s[r] == x && forall j :: 0 <= j < r ==> s[j] != x
    ensures r == -1 ==> forall j :: 0 <= j < |s| ==> s[j] != x
  {
    FindFrom(s, x, 0)
  }

  /** `needle` occurs in `haystack` starting at index `i`. */
  ghost predicate RunAt<T>(needle: seq<T>, haystack: seq<T>, i: int)
  {
    0 <= i && i + |needle| <= |haystack| && haystack[i..i + |needle|] == needle
  }

  /** `needle in haystack` for byte strings: does `needle` occur as a
      contiguous run inside `haystack`? */
  ghost predicate IsSubstring<T>(needle: seq<T>, haystack: seq<T>)
  {
    exists i :: RunAt(needle, haystack, i)
  }

  /** Executable substring test, the host language's `in` on byte strings. */
  function Occurs<T(==)>(needle: seq<T>, haystack: seq<T>): bool
    decreases |haystack|
  {
    if |needle| > |haystack| then false
    else if haystack[..|needle|] == needle then true
    else Occurs(needle, haystack[1..])
  }

  /** The scan in `Occurs` finds a run exactly when one exists. */
  lemma {:induction false} OccursIsSubstring<T>(needle: seq<T>, haystack: seq<T>)
    ensures Occurs(needle, haystack) <==> IsSubstring(needle, haystack)
    decreases |haystack|
  {
    if |needle| > |haystack| {
    } else if haystack[..|needle|] == needle {
      assert RunAt(needle, haystack, 0);
    } else {
      var tl := haystack[1..];
      OccursIsSubstring(needle, tl);
      if Occurs(needle, tl) {
        var i :| RunAt(needle, tl, i);
        assert haystack[i + 1..i + 1 + |needle|] == tl[i..i + |needle|];
        assert RunAt(needle, haystack, i + 1);
      }
      if IsSubstring(needle, haystack) {
        var i :| RunAt(needle, haystack, i);
        assert i != 0;
        assert haystack[i..i + |needle|] == tl[i - 1..i - 1 + |needle|];
        assert RunAt(needle, tl, i - 1);
      }
    }
  }
}
