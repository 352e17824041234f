/**
 * The two string operations the components rely on: `toLowerCase()` and
 * `includes()`.
 */
module Text {

  /** An upper-case letter of Basic Latin or Latin-1 that `toLowerCase` maps one-to-one. */
  predicate IsUpper(c: char) {
    'A' <= c <= 'Z' || ('À' <= c <= 'Þ' && c != '×')
  }

  function LowerChar(c: char): (d: char)
    ensures !IsUpper(d)
    ensures IsUpper(c) ==> d as int == c as int + 32
    ensures !IsUpper(c) ==> d == c
  {
    if IsUpper(c) then (c as int + 32) as char else c
  }

  /** `s.toLowerCase()`, restricted to the letters of `IsUpper`. */
  function Lower(s: string): (r: string)
    ensures |r| == |s|
    ensures forall i :: 0 <= i < |s| ==> r[i] == LowerChar(s[i])
  {
    seq(|s|, i requires 0 <= i < |s| => LowerChar(s[i]))
  }

  lemma LowerIdempotent(s: string)
    ensures Lower(Lower(s)) == Lower(s)
  {
  }

  /** `s.includes(w)`: `w` occurs in `s` as a contiguous block. */
  function Contains(s: string, w: string): (r: bool)
    ensures w <= s ==> r
    ensures r ==> |w| <= |s|
    decreases |s|
  {
    w <= s || (s != [] && Contains(s[1..], w))
  }

  /** `w` occurs in `s` starting at index `i`. */
  predicate OccursAt(s: string, w: string, i: nat) {
    i + |w| <= |s| && s[i..i + |w|] == w
  }

  /** `Contains` agrees with the textbook definition of a substring. */
  lemma {:induction false} ContainsIff(s: string, w: string)
    ensures Contains(s, w) <==> exists i: nat :: OccursAt(s, w, i)
    decreases |s|
  {
    if w <= s {
      assert OccursAt(s, w, 0);
    } else if s == [] {
    } else {
      ContainsIff(s[1..], w);
      if Contains(s[1..], w) {
        var i: nat :| OccursAt(s[1..], w, i);
        SliceOfTail(s, i + 1, |w|);
        assert OccursAt(s, w, i + 1);
      } else {
        forall i: nat | OccursAt(s, w, i) ensures false {
          if i != 0 {
            SliceOfTail(s, i, |w|);
            assert OccursAt(s[1..], w, i - 1);
          }
        }
      }
    }
  }

  /** A block of `s` after its first character is the same block of `s[1..]`. */
  lemma SliceOfTail(s: string, i: nat, n: nat)
    requires 1 <= i && i + n <= |s|
    ensures s[i..i + n] == s[1..][i - 1..i - 1 + n]
  {
    var a, b := s[i..i + n], s[1..][i - 1..i - 1 + n];
    forall j | 0 <= j < n ensures a[j] == b[j] {
      assert a[j] == s[i + j] && b[j] == s[1..][i - 1 + j];
    }
    assert a == b;
  }

  /** Every string includes the empty string. */
  lemma ContainsEmpty(s: string)
    ensures Contains(s, [])
  {
  }
}
