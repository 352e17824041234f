/**
 * The fragment of JavaScript regular expressions that the cleanup of
 * components/Reader.tsx uses, with its matching order, and `replace(re, '')`
 * for a global `re`.
 */
module Patterns {
  import opened Wrappers
  import Lists

  /** What one position of a pattern accepts. */
  datatype CharClass =
    | Digit              // `\d` (without the `u` flag: ASCII digits only)
    | Exactly(c: char)   // a character written as itself or escaped
    | NotAngle           // `[^<>]`
    | AnyButLineBreak    // `.` (without the `s` and `u` flags): one UTF-16 code unit that is not a line break

  /** How often; the repeating quantifiers are greedy. */
  datatype Quantifier = One | OneOrMore | ZeroOrOne

  datatype Atom = Atom(cls: CharClass, q: Quantifier)

  /** A sequence of atoms, with no groups and no alternation. */
  type Pattern = seq<Atom>

  predicate IsDigit(c: char) {
    '0' <= c <= '9'
  }

  predicate IsLineTerminator(c: char) {
    c == '\n' || c == '\r' || c == '\U{2028}' || c == '\U{2029}'
  }

  predicate Holds(k: CharClass, c: char) {
    match k
    case Digit => IsDigit(c)
    case Exactly(d) => c == d
    case NotAngle => c != '<' && c != '>'
    case AnyButLineBreak => c as int < 0x1_0000 && !IsLineTerminator(c)
  }

  /** The atoms of a run of literal characters. */
  function Literal(w: string): (p: Pattern)
    ensures |p| == |w|
  {
    seq(|w|, k requires 0 <= k < |w| => Atom(Exactly(w[k]), One))
  }

  /** The end of the longest run of characters of class `k` that starts at `i`. */
  function RunEnd(k: CharClass, s: string, i: nat): (j: nat)
    requires i <= |s|
    ensures i <= j <= |s|
    ensures forall m :: i <= m < j ==> Holds(k, s[m])
    ensures j == |s| || !Holds(k, s[j])
    decreases |s| - i
  {
    if i < |s| && Holds(k, s[i]) then RunEnd(k, s, i + 1) else i
  }

  /**
   * Where the first match of `p` that starts at `i` ends, in the order the
   * backtracking matcher tries the alternatives: as many repetitions as
   * possible first, then fewer.
   */
  function MatchEnd(p: Pattern, s: string, i: nat): (r: Option<nat>)
    requires i <= |s|
    ensures r.Some? ==> i <= r.value <= |s|
    decreases |p|, |s| + 1
  {
    if p == [] then Some(i)
    else
      match p[0].q
      case One =>
        if i < |s| && Holds(p[0].cls, s[i]) then MatchEnd(p[1..], s, i + 1) else None
      case ZeroOrOne =>
        if i < |s| && Holds(p[0].cls, s[i]) && MatchEnd(p[1..], s, i + 1).Some?
        then MatchEnd(p[1..], s, i + 1)
        else MatchEnd(p[1..], s, i)
      case OneOrMore =>
        Backtrack(p[1..], s, i, RunEnd(p[0].cls, s, i))
  }

  /** Tries the rest of the pattern after `j`, `j - 1`, ..., `i + 1` repetitions ended. */
  function Backtrack(rest: Pattern, s: string, i: nat, j: nat): (r: Option<nat>)
    requires i <= j <= |s|
    ensures r.Some? ==> i < r.value <= |s|
    decreases |rest| + 1, j
  {
    if j <= i then None
    else if MatchEnd(rest, s, j).Some? then MatchEnd(rest, s, j)
    else Backtrack(rest, s, i, j - 1)
  }

  /** A non-empty match of `p` starts at the beginning of `s`. */
  predicate MatchesAtStart(p: Pattern, s: string) {
    match MatchEnd(p, s, 0)
    case Some(n) => n > 0
    case None => false
  }

  /**
   * `s.replace(p, '')` for a global `p`: scanning from the left, each match
   * is deleted and the scan resumes after it; an empty match deletes nothing.
   */
  function Strip(p: Pattern, s: string): (r: string)
    ensures |r| <= |s|
    decreases |s|
  {
    if s == [] then []
    else
      match MatchEnd(p, s, 0)
      case Some(n) =>
        if n > 0 then Strip(p, s[n..]) else [s[0]] + Strip(p, s[1..])
      case None => [s[0]] + Strip(p, s[1..])
  }

  /** Nowhere in `s` does a match of `p` start. */
  predicate NoMatchIn(p: Pattern, s: string) {
    forall k :: 0 <= k < |s| ==> !MatchesAtStart(p, s[k..])
  }

  /** A replacement over a string with no match returns the string itself. */
  lemma {:induction false} StripWithoutMatch(p: Pattern, s: string)
    requires NoMatchIn(p, s)
    ensures Strip(p, s) == s
    decreases |s|
  {
    if s != [] {
      assert !MatchesAtStart(p, s[0..]);
      assert s[0..] == s;
      forall k | 0 <= k < |s[1..]| ensures !MatchesAtStart(p, s[1..][k..]) {
        assert s[1..][k..] == s[k + 1..];
      }
      StripWithoutMatch(p, s[1..]);
      assert s == [s[0]] + s[1..];
    }
  }

  /** The replacement deletes characters and never adds or reorders any. */
  lemma {:induction false} StripIsSubsequence(p: Pattern, s: string)
    ensures Lists.IsSubsequence(Strip(p, s), s)
    decreases |s|
  {
    if s != [] {
      match MatchEnd(p, s, 0)
      case Some(n) =>
        if n > 0 {
          StripIsSubsequence(p, s[n..]);
          DropPrefixSubsequence(Strip(p, s), s, n);
        } else {
          StripIsSubsequence(p, s[1..]);
          assert ([s[0]] + Strip(p, s[1..]))[1..] == Strip(p, s[1..]);
        }
      case None =>
        StripIsSubsequence(p, s[1..]);
        assert ([s[0]] + Strip(p, s[1..]))[1..] == Strip(p, s[1..]);
    }
  }

  lemma {:induction false} DropPrefixSubsequence(a: string, s: string, n: nat)
    requires n <= |s| && Lists.IsSubsequence(a, s[n..])
    ensures Lists.IsSubsequence(a, s)
    decreases n
  {
    if n > 0 {
      assert s[n - 1..] == [s[n - 1]] + s[n..];
      Lists.SubsequenceWeaken(a, s[n..], s[n - 1]);
      DropPrefixSubsequence(a, s, n - 1);
    }
  }

  /** A pattern whose first atom must match at least once cannot start at a character outside its class. */
  lemma FirstAtomFails(p: Pattern, s: string)
    requires p != [] && p[0].q != ZeroOrOne
    requires s != [] && !Holds(p[0].cls, s[0])
    ensures MatchEnd(p, s, 0).None?
  {
  }

  /** A replacement over a string none of whose characters can begin a match returns the string itself. */
  lemma NoStartNoMatch(p: Pattern, s: string)
    requires p != [] && p[0].q != ZeroOrOne
    requires forall c :: c in s ==> !Holds(p[0].cls, c)
    ensures Strip(p, s) == s
  {
    forall k | 0 <= k < |s| ensures !MatchesAtStart(p, s[k..]) {
      assert s[k..][0] == s[k];
      FirstAtomFails(p, s[k..]);
    }
    StripWithoutMatch(p, s);
  }

  /** Matching a literal prefix consumes exactly its characters. */
  lemma {:induction false} LiteralThen(w: string, q: Pattern, s: string, i: nat)
    requires i <= |s|
    ensures MatchEnd(Literal(w) + q, s, i) ==
            if i + |w| <= |s| && s[i..i + |w|] == w then MatchEnd(q, s, i + |w|) else None
    decreases |w|
  {
    if w == [] {
      assert Literal(w) + q == q;
    } else {
      var p := Literal(w) + q;
      assert p[0] == Atom(Exactly(w[0]), One);
      assert p[1..] == Literal(w[1..]) + q;
      if i < |s| && s[i] == w[0] {
        LiteralThen(w[1..], q, s, i + 1);
        if i + |w| <= |s| {
          assert s[i..i + |w|] == [s[i]] + s[i + 1..i + 1 + |w[1..]|];
          assert w == [w[0]] + w[1..];
        }
      } else if i + |w| <= |s| {
        assert s[i..i + |w|][0] == s[i];
      }
    }
  }

  /** Deleting every left-to-right, non-overlapping occurrence of a non-empty word. */
  function DeleteWord(w: string, s: string): (r: string)
    requires w != []
    decreases |s|
  {
    if s == [] then []
    else if w <= s then DeleteWord(w, s[|w|..])
    else [s[0]] + DeleteWord(w, s[1..])
  }

  /** For a pattern made of literal characters only, the replacement is `DeleteWord`. */
  lemma {:induction false} StripLiteral(w: string, s: string)
    requires w != []
    ensures Strip(Literal(w), s) == DeleteWord(w, s)
    decreases |s|
  {
    if s != [] {
      LiteralThen(w, [], s, 0);
      assert Literal(w) + [] == Literal(w);
      assert (|w| <= |s| && s[0..|w|] == w) <==> w <= s;
      if w <= s {
        StripLiteral(w, s[|w|..]);
      } else {
        StripLiteral(w, s[1..]);
      }
    }
  }

  /** Every atom of `p` matches exactly once, and `s` fits `p` at `i`. */
  predicate FitsAt(p: Pattern, s: string, i: nat) {
    i + |p| <= |s| && forall k :: 0 <= k < |p| ==> Holds(p[k].cls, s[i + k])
  }

  /** A pattern without quantifiers matches at `i` exactly when `s` fits it there. */
  lemma {:induction false} FixedMatch(p: Pattern, s: string, i: nat)
    requires i <= |s|
    requires forall k :: 0 <= k < |p| ==> p[k].q == One
    ensures MatchEnd(p, s, i) == if FitsAt(p, s, i) then Some(i + |p|) else None
    decreases |p|
  {
    if p != [] && i < |s| {
      assert p[0].q == One;
      FixedMatch(p[1..], s, i + 1);
      if Holds(p[0].cls, s[i]) && FitsAt(p[1..], s, i + 1) {
        forall k | 0 <= k < |p| ensures Holds(p[k].cls, s[i + k]) {
          if k > 0 { assert p[k] == p[1..][k - 1]; }
        }
      }
    }
  }

  /** The longest run is the one that cannot be extended. */
  lemma {:induction false} RunEndExact(k: CharClass, s: string, i: nat, j: nat)
    requires i <= j <= |s|
    requires forall m :: i <= m < j ==> Holds(k, s[m])
    requires j == |s| || !Holds(k, s[j])
    ensures RunEnd(k, s, i) == j
    decreases j - i
  {
    if i < j {
      RunEndExact(k, s, i + 1, j);
    }
  }

  /** A lone `+` atom matches the whole longest run, if that run is not empty. */
  lemma RepeatAlone(k: CharClass, s: string, i: nat)
    requires i <= |s|
    ensures MatchEnd([Atom(k, OneOrMore)], s, i) ==
            if RunEnd(k, s, i) > i then Some(RunEnd(k, s, i)) else None
  {
    var p := [Atom(k, OneOrMore)];
    var j := RunEnd(k, s, i);
    assert p[0].q == OneOrMore && p[0].cls == k && p[1..] == [];
    assert MatchEnd(p, s, i) == Backtrack([], s, i, j);
    assert MatchEnd([], s, j) == Some(j);
  }

  /** A lone `+` atom whose class holds on `[i, j)` and fails at `j` matches exactly up to `j`. */
  lemma RepeatUpTo(k: CharClass, s: string, i: nat, j: nat)
    requires i < j <= |s|
    requires forall m :: i <= m < j ==> Holds(k, s[m])
    requires j == |s| || !Holds(k, s[j])
    ensures MatchEnd([Atom(k, OneOrMore)], s, i) == Some(j)
  {
    RunEndExact(k, s, i, j);
    RepeatAlone(k, s, i);
  }

  /** A word deletes itself completely. */
  lemma DeleteWordWhole(w: string)
    requires w != []
    ensures DeleteWord(w, w) == []
  {
    assert w <= w && w[|w|..] == [];
  }

  /** A word after two stars that cannot start it leaves the stars. */
  lemma DeleteWordAfterStars(w: string, s: string)
    requires w != [] && w[0] != '*' && s == "**" + w
    ensures DeleteWord(w, s) == "**"
  {
    assert !(w <= s) by { assert s[0] == '*'; }
    assert s[1..] == "*" + w;
    assert !(w <= s[1..]) by { assert s[1..][0] == '*'; }
    assert s[1..][1..] == w;
    DeleteWordWhole(w);
  }

  /** When the rest of the pattern matches right after the longest run, that is the match. */
  lemma RepeatThen(k: CharClass, rest: Pattern, s: string, i: nat, j: nat)
    requires i < j <= |s| && RunEnd(k, s, i) == j
    requires MatchEnd(rest, s, j).Some?
    ensures MatchEnd([Atom(k, OneOrMore)] + rest, s, i) == MatchEnd(rest, s, j)
  {
    var p := [Atom(k, OneOrMore)] + rest;
    assert p[0] == Atom(k, OneOrMore) && p[1..] == rest;
    assert MatchEnd(p, s, i) == Backtrack(rest, s, i, j);
  }
}
