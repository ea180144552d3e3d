/** The two string operations the sanitiser relies on: Python's substring
    test `t in s` and single-character `str.replace`. */
module Text {

  /** U+2014 EM DASH */
  const EmDash: char := '\U{2014}'
  /** U+2022 BULLET */
  const Bullet: char := '\U{2022}'

  /** `t` occurs in `s` starting at position `i`. */
  ghost predicate OccursAt(s: string, t: string, i: int) {
    0 <= i && i + |t| <= |s| && s[i..i + |t|] == t
  }

  /** Reference meaning of Python's `t in s` on strings. */
  ghost predicate HasSubstring(s: string, t: string) {
    exists i :: OccursAt(s, t, i)
  }

  /** Substring search, trying every start position from the left. */
  function Contains(s: string, t: string): bool
    decreases |s|
  {
    if |t| > |s| then false
    else if s[..|t|] == t then true
    else Contains(s[1..], t)
  }

  lemma {:induction false} ContainsIsSubstring(s: string, t: string)
    ensures Contains(s, t) <==> HasSubstring(s, t)
    decreases |s|
  {
    if |t| > |s| {
    } else if s[..|t|] == t {
      assert OccursAt(s, t, 0);
    } else {
      ContainsIsSubstring(s[1..], t);
      if HasSubstring(s[1..], t) {
        var j :| OccursAt(s[1..], t, j);
        ShiftedSlice(s, j, |t|);
        assert OccursAt(s, t, j + 1);
      }
      if HasSubstring(s, t) {
        var i :| OccursAt(s, t, i);
        assert i != 0;
        ShiftedSlice(s, i - 1, |t|);
        assert OccursAt(s[1..], t, i - 1);
      }
    }
  }

  /** A slice of the tail is the slice of the whole one position later. */
  lemma ShiftedSlice(s: string, j: nat, n: nat)
    requires 1 + j + n <= |s|
    ensures s[1..][j..j + n] == s[j + 1..j + 1 + n]
  {
    var tail, whole := s[1..][j..j + n], s[j + 1..j + 1 + n];
    forall k | 0 <= k < n ensures tail[k] == whole[k] {
    }
  }

  /** Python's `s.replace(from, to)` for a one-character `from`: every
      occurrence is replaced, one character for one character. */
  function ReplaceChar(s: string, from: char, to: char): (r: string)
    ensures |r| == |s|
    ensures forall i :: 0 <= i < |s| ==> r[i] == (if s[i] == from then to else s[i])
    ensures from != to ==> from !in r
  {
    if s == [] then []
    else [if s[0] == from then to else s[0]] + ReplaceChar(s[1..], from, to)
  }
}
