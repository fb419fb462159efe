/** Python's sequence indexing and slicing, where a negative index counts
    from the end and slice bounds are clamped to the sequence. The reduction
    engine takes its argument window with such a slice, and the formatter
    strips brackets with one. */
module Slices {
  import opened Wrappers

  /** Where a slice bound `i` lands in a sequence of length `n`. */
  function Clamp(i: int, n: nat): (c: nat)
    ensures c <= n
    ensures 0 <= i <= n ==> c == i
    ensures i < 0 && n + i >= 0 ==> c == n + i
  {
    if i < 0 then (if n + i < 0 then 0 else n + i)
    else if i > n then n
    else i
  }

  /** `s[a:b]` with Python's semantics. */
  function Slice<T>(s: seq<T>, a: int, b: int): (r: seq<T>)
    ensures |r| <= |s|
  {
    var lo := Clamp(a, |s|);
    var hi := Clamp(b, |s|);
    if lo < hi then s[lo..hi] else []
  }

  /** `s[k]` with Python's semantics: an out-of-range index is an error,
      and every in-range index, negative or not, names the element at its
      residue modulo `|s|`. */
  function Index<T>(s: seq<T>, k: int): (r: Option<T>)
    ensures r.Some? <==> -|s| <= k < |s|
    ensures r.Some? ==> |s| > 0 && r.value == s[k % |s|]
    ensures 0 <= k < |s| ==> r == Some(s[k])
    ensures -|s| <= k < 0 ==> r == Some(s[|s| + k])
  {
    if 0 <= k < |s| then Some(s[k])
    else if -|s| <= k < 0 then Some(s[|s| + k])
    else None
  }

  /** The window `s[i-n:i]` just before position `i` has exactly `n`
      elements precisely when `0 <= n <= i`; a negative start index never
      produces a window of the requested length. */
  lemma WindowBeforeIndex<T>(s: seq<T>, i: nat, n: int)
    requires i < |s|
    ensures |Slice(s, i - n, i)| == n <==> 0 <= n <= i
    ensures 0 <= n <= i ==> Slice(s, i - n, i) == s[i - n..i]
  {
    if n < 0 {
      assert Clamp(i - n, |s|) >= i;
    } else if n > i {
      var lo := Clamp(i - n, |s|);
      if |s| + (i - n) >= 0 {
        assert lo == |s| + i - n;
        assert |Slice(s, i - n, i)| != n;
      } else {
        assert lo == 0;
      }
    }
  }

  /** `t[1:-1]` of a text that starts and ends with a delimiter gives back
      exactly what was between the delimiters. */
  lemma StripEnds<T>(open: T, body: seq<T>, close: T)
    ensures Slice([open] + body + [close], 1, -1) == body
  {
    var t := [open] + body + [close];
    assert Clamp(-1, |t|) == |t| - 1;
    assert t[1..|t| - 1] == body;
  }
}
