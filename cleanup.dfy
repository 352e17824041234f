/**
 * The chain of eight global replacements with which components/Reader.tsx
 * removes page furniture from the article HTML before it rewrites links.
 */
module Cleanup {
  import opened Wrappers
  import opened Patterns

  const D: Atom := Atom(Digit, One)

  function Char(c: char): (a: Atom)
    ensures a.cls == Exactly(c) && a.q == One
  {
    Atom(Exactly(c), One)
  }

  /** `/\d{2}\/\d{2}\/\d{4} \d{2}:\d{2}/g`: date stamps. */
  const DateStamp: Pattern :=
    [D, D, Char('/'), D, D, Char('/'), D, D, D, D, Char(' '), D, D, Char(':'), D, D]

  /** `/\d+ lectures?/g`: read counters. */
  const ReadCount: Pattern := [Atom(Digit, OneOrMore)] + ReadCountWordPattern

  /** `/\*\*IMPRIMER L'ARTICLE/g`: the print button. */
  const PrintButton: Pattern := Literal(PrintButtonText)

  const PrintButtonText: string := "**IMPRIMER L'ARTICLE"

  /** `/> [^<>]+ > [^<>]+/g`: breadcrumbs. */
  const Breadcrumb: Pattern :=
    Literal("> ") + [Atom(NotAngle, OneOrMore)] + Literal(" > ") + [Atom(NotAngle, OneOrMore)]

  /** `/Pour nous rejoindre\./g`. */
  const JoinUs: Pattern := Literal("Pour nous rejoindre.")

  /** `/https:\/\/www\.autun-infos\.com\/img\/home-blue\.png/g`: the home image. */
  const HomeImage: Pattern := Literal("https://www.autun-infos.com/img/home-blue.png")

  /**
   * `/https:\/\/www\.autun-infos\.com\/img\/icon_print.png/g`: the print icon.
   * The `.` before `png` is not escaped, so it stands for any character of the
   * Basic Multilingual Plane except a line break. A character outside it is two
   * UTF-16 code units, and `.` takes only the first of them, so `p` cannot follow.
   */
  const PrintIcon: Pattern := Literal(IconStem) + [Atom(AnyButLineBreak, One)] + Literal("png")

  const IconStem: string := "https://www.autun-infos.com/img/icon_print"

  /** `/IMPRIMER L'ARTICLE/g`: the bare print label. */
  const PrintLabel: Pattern := Literal(PrintLabelText)

  const PrintLabelText: string := "IMPRIMER L'ARTICLE"

  /** The cleaned `innerHTML`: the eight replacements, in the order of the chain. */
  function CleanUp(html: string): (r: string)
    ensures |r| <= |html|
  {
    var s1 := Strip(DateStamp, html);
    var s2 := Strip(ReadCount, s1);
    var s3 := Strip(PrintButton, s2);
    var s4 := Strip(Breadcrumb, s3);
    var s5 := Strip(JoinUs, s4);
    var s6 := Strip(HomeImage, s5);
    var s7 := Strip(PrintIcon, s6);
    Strip(PrintLabel, s7)
  }

  /** None of the eight patterns matches anywhere in `s`. */
  predicate HasNoFurniture(s: string) {
    NoMatchIn(DateStamp, s) && NoMatchIn(ReadCount, s) && NoMatchIn(PrintButton, s) &&
    NoMatchIn(Breadcrumb, s) && NoMatchIn(JoinUs, s) && NoMatchIn(HomeImage, s) &&
    NoMatchIn(PrintIcon, s) && NoMatchIn(PrintLabel, s)
  }

  /** HTML without furniture comes back unchanged. */
  lemma CleanUpWithoutFurniture(s: string)
    requires HasNoFurniture(s)
    ensures CleanUp(s) == s
  {
    StripWithoutMatch(DateStamp, s);
    StripWithoutMatch(ReadCount, s);
    StripWithoutMatch(PrintButton, s);
    StripWithoutMatch(Breadcrumb, s);
    StripWithoutMatch(JoinUs, s);
    StripWithoutMatch(HomeImage, s);
    StripWithoutMatch(PrintIcon, s);
    StripWithoutMatch(PrintLabel, s);
  }

  /** A date stamp, as the plain reading of the expression describes it, begins `s`. */
  predicate StartsWithDateStamp(s: string) {
    |s| >= 16 &&
    IsDigit(s[0]) && IsDigit(s[1]) && s[2] == '/' &&
    IsDigit(s[3]) && IsDigit(s[4]) && s[5] == '/' &&
    IsDigit(s[6]) && IsDigit(s[7]) && IsDigit(s[8]) && IsDigit(s[9]) && s[10] == ' ' &&
    IsDigit(s[11]) && IsDigit(s[12]) && s[13] == ':' &&
    IsDigit(s[14]) && IsDigit(s[15])
  }

  lemma DateStampFits(s: string)
    requires StartsWithDateStamp(s)
    ensures FitsAt(DateStamp, s, 0)
  {
    forall k | 0 <= k < 16 ensures Holds(DateStamp[k].cls, s[0 + k]) {
      assert k == 0 || k == 1 || k == 2 || k == 3 || k == 4 || k == 5 || k == 6 || k == 7 ||
             k == 8 || k == 9 || k == 10 || k == 11 || k == 12 || k == 13 || k == 14 || k == 15;
    }
  }

  lemma FitsDateStamp(s: string)
    requires FitsAt(DateStamp, s, 0)
    ensures StartsWithDateStamp(s)
  {
    assert Holds(DateStamp[0].cls, s[0 + 0]) && Holds(DateStamp[1].cls, s[0 + 1]);
    assert Holds(DateStamp[2].cls, s[0 + 2]) && Holds(DateStamp[3].cls, s[0 + 3]);
    assert Holds(DateStamp[4].cls, s[0 + 4]) && Holds(DateStamp[5].cls, s[0 + 5]);
    assert Holds(DateStamp[6].cls, s[0 + 6]) && Holds(DateStamp[7].cls, s[0 + 7]);
    assert Holds(DateStamp[8].cls, s[0 + 8]) && Holds(DateStamp[9].cls, s[0 + 9]);
    assert Holds(DateStamp[10].cls, s[0 + 10]) && Holds(DateStamp[11].cls, s[0 + 11]);
    assert Holds(DateStamp[12].cls, s[0 + 12]) && Holds(DateStamp[13].cls, s[0 + 13]);
    assert Holds(DateStamp[14].cls, s[0 + 14]) && Holds(DateStamp[15].cls, s[0 + 15]);
  }

  /** The date-stamp expression matches the 16 characters of a date stamp and nothing else. */
  lemma DateStampMatch(s: string)
    ensures MatchEnd(DateStamp, s, 0) == if StartsWithDateStamp(s) then Some(16) else None
  {
    assert forall k :: 0 <= k < |DateStamp| ==> DateStamp[k].q == One by {
      forall k | 0 <= k < |DateStamp| ensures DateStamp[k].q == One {
        assert k == 0 || k == 1 || k == 2 || k == 3 || k == 4 || k == 5 || k == 6 || k == 7 ||
               k == 8 || k == 9 || k == 10 || k == 11 || k == 12 || k == 13 || k == 14 || k == 15;
      }
    }
    FixedMatch(DateStamp, s, 0);
    if StartsWithDateStamp(s) {
      DateStampFits(s);
    } else if FitsAt(DateStamp, s, 0) {
      FitsDateStamp(s);
    }
  }

  /** Deleting date stamps, left to right and without overlap, keeping every other character in order. */
  function DeleteDateStamps(s: string): (r: string)
    ensures |r| <= |s|
    decreases |s|
  {
    if s == [] then []
    else if StartsWithDateStamp(s) then DeleteDateStamps(s[16..])
    else [s[0]] + DeleteDateStamps(s[1..])
  }

  /** The first replacement of the chain is `DeleteDateStamps`. */
  lemma {:induction false} StripDateStamps(s: string)
    ensures Strip(DateStamp, s) == DeleteDateStamps(s)
    decreases |s|
  {
    if s != [] {
      DateStampMatch(s);
      if StartsWithDateStamp(s) {
        StripDateStamps(s[16..]);
      } else {
        StripDateStamps(s[1..]);
      }
    }
  }

  /**
   * A read counter begins `t`: `n` digits, then ` lecture`. The run of digits
   * is taken whole, and one `s` after the word is taken when present.
   */
  lemma ReadCountMatch(t: string, n: nat)
    requires 0 < n && n + 8 <= |t|
    requires forall m :: 0 <= m < n ==> IsDigit(t[m])
    requires t[n..n + 8] == " lecture"
    ensures MatchEnd(ReadCount, t, 0) == Some(n + 8 + if n + 8 < |t| && t[n + 8] == 's' then 1 else 0)
  {
    assert t[n] == t[n..n + 8][0];
    RunEndExact(Digit, t, 0, n);
    ReadCountWord(t, n);
    RepeatThen(Digit, ReadCountWordPattern, t, 0, n);
  }

  /** ` lecture` and an optional `s`. */
  const ReadCountWordPattern: Pattern := Literal(" lecture") + [Atom(Exactly('s'), ZeroOrOne)]

  /** After the digits, ` lecture` and one following `s`, if any, match. */
  lemma ReadCountWord(t: string, n: nat)
    requires n + 8 <= |t| && t[n..n + 8] == " lecture"
    ensures MatchEnd(ReadCountWordPattern, t, n) == Some(n + 8 + if n + 8 < |t| && t[n + 8] == 's' then 1 else 0)
  {
    var opt := [Atom(Exactly('s'), ZeroOrOne)];
    LiteralThen(" lecture", opt, t, n);
    assert opt[0].q == ZeroOrOne && opt[0].cls == Exactly('s') && opt[1..] == [];
  }

  /** No character of `t[i..j]` is an angle bracket. */
  predicate NoAnglesIn(t: string, i: nat, j: nat) {
    i <= j <= |t| && forall m :: i <= m < j ==> t[m] != '<' && t[m] != '>'
  }

  /**
   * `t` begins with a breadcrumb `> a > b`, where `a` has `na` characters and
   * `b` has `nb`, neither holds an angle bracket, and `b` is followed by an
   * angle bracket or by the end of `t`.
   */
  predicate StartsWithBreadcrumb(t: string, na: nat, nb: nat) {
    5 + na + nb <= |t| &&
    t[0] == '>' && t[1] == ' ' && NoAnglesIn(t, 2, 2 + na) &&
    t[2 + na] == ' ' && t[3 + na] == '>' && t[4 + na] == ' ' &&
    NoAnglesIn(t, 5 + na, 5 + na + nb) &&
    (5 + na + nb == |t| || t[5 + na + nb] == '<' || t[5 + na + nb] == '>')
  }

  /** What follows the first `[^<>]+` of the breadcrumb expression. */
  const BreadcrumbTail: Pattern := Literal(" > ") + [Atom(NotAngle, OneOrMore)]

  /** The first `[^<>]+` runs over `a` and the space after it, up to the middle `>`. */
  lemma BreadcrumbFirstRun(t: string, na: nat, nb: nat)
    requires StartsWithBreadcrumb(t, na, nb)
    ensures RunEnd(NotAngle, t, 2) == 3 + na
  {
    RunEndExact(NotAngle, t, 2, 3 + na);
  }

  /** After the whole of `a` and its space, ` > ` cannot follow. */
  lemma BreadcrumbNoMiddleAtEnd(t: string, na: nat, nb: nat)
    requires StartsWithBreadcrumb(t, na, nb)
    ensures MatchEnd(BreadcrumbTail, t, 3 + na) == None
  {
    LiteralThen(" > ", [Atom(NotAngle, OneOrMore)], t, 3 + na);
    if 6 + na <= |t| {
      assert t[3 + na..6 + na][0] == '>';
    }
  }

  /** The second `[^<>]+` runs to the end of `b`. */
  lemma BreadcrumbSecondRun(t: string, na: nat, nb: nat)
    requires StartsWithBreadcrumb(t, na, nb) && nb > 0
    ensures MatchEnd([Atom(NotAngle, OneOrMore)], t, 5 + na) == Some(5 + na + nb)
  {
    RepeatUpTo(NotAngle, t, 5 + na, 5 + na + nb);
  }

  /** After `a` without its space, ` > b` matches. */
  lemma BreadcrumbMiddle(t: string, na: nat, nb: nat)
    requires StartsWithBreadcrumb(t, na, nb) && nb > 0
    ensures MatchEnd(BreadcrumbTail, t, 2 + na) == Some(5 + na + nb)
  {
    assert t[2 + na..5 + na] == " > ";
    LiteralThen(" > ", [Atom(NotAngle, OneOrMore)], t, 2 + na);
    BreadcrumbSecondRun(t, na, nb);
  }

  /**
   * A breadcrumb `> a > b` with `a` and `b` non-empty is deleted up to the
   * next angle bracket: the first repetition gives back the space it took,
   * so that ` > ` can match.
   */
  lemma BreadcrumbMatch(t: string, na: nat, nb: nat)
    requires StartsWithBreadcrumb(t, na, nb) && na > 0 && nb > 0
    ensures MatchEnd(Breadcrumb, t, 0) == Some(5 + na + nb)
  {
    var first := [Atom(NotAngle, OneOrMore)] + BreadcrumbTail;
    assert Breadcrumb == Literal("> ") + first;
    assert t[0..2] == "> ";
    LiteralThen("> ", first, t, 0);
    assert first[0] == Atom(NotAngle, OneOrMore) && first[1..] == BreadcrumbTail;
    BreadcrumbFirstRun(t, na, nb);
    BreadcrumbNoMiddleAtEnd(t, na, nb);
    BreadcrumbMiddle(t, na, nb);
    assert MatchEnd(first, t, 2) == Backtrack(BreadcrumbTail, t, 2, 3 + na);
    assert Backtrack(BreadcrumbTail, t, 2, 3 + na) == Backtrack(BreadcrumbTail, t, 2, 2 + na);
  }

  /** Because its `.` is unescaped, the print-icon expression matches any BMP character in that place. */
  lemma PrintIconAnyChar(c: char)
    requires c as int < 0x1_0000 && !IsLineTerminator(c)
    ensures Strip(PrintIcon, IconStem + [c] + "png") == []
  {
    var t := IconStem + [c] + "png";
    var q := [Atom(AnyButLineBreak, One)] + Literal("png");
    assert PrintIcon == Literal(IconStem) + q;
    assert t[0..|IconStem|] == IconStem;
    LiteralThen(IconStem, q, t, 0);
    assert q[0] == Atom(AnyButLineBreak, One) && q[1..] == Literal("png") + [];
    assert t[|IconStem|] == c;
    assert t[|IconStem| + 1..|t|] == "png";
    LiteralThen("png", [], t, |IconStem| + 1);
    assert MatchEnd(PrintIcon, t, 0) == Some(|t|);
    assert t[|t|..] == [];
  }

  /** A character outside the BMP cannot stand for the `.`: no print-icon match starts at the URL. */
  lemma PrintIconNotAstral(c: char)
    requires c as int >= 0x1_0000
    ensures MatchEnd(PrintIcon, IconStem + [c] + "png", 0).None?
  {
    var t := IconStem + [c] + "png";
    var q := [Atom(AnyButLineBreak, One)] + Literal("png");
    assert PrintIcon == Literal(IconStem) + q;
    assert t[0..|IconStem|] == IconStem;
    LiteralThen(IconStem, q, t, 0);
    assert t[|IconStem|] == c;
  }

  /** No digit occurs in the print button, so the first two replacements leave it alone. */
  lemma PrintButtonHasNoCounter()
    ensures Strip(DateStamp, PrintButtonText) == PrintButtonText
    ensures Strip(ReadCount, PrintButtonText) == PrintButtonText
  {
    assert forall c :: c in PrintButtonText ==> !IsDigit(c);
    NoStartNoMatch(DateStamp, PrintButtonText);
    NoStartNoMatch(ReadCount, PrintButtonText);
  }

  /** The third replacement deletes the print button whole. */
  lemma PrintButtonDeleted()
    ensures Strip(PrintButton, PrintButtonText) == []
  {
    StripLiteral(PrintButtonText, PrintButtonText);
    DeleteWordWhole(PrintButtonText);
  }

  /** The bare label alone would delete all but the two stars. */
  lemma PrintLabelLeavesStars()
    ensures Strip(PrintLabel, PrintButtonText) == "**"
  {
    StripLiteral(PrintLabelText, PrintButtonText);
    DeleteWordAfterStars(PrintLabelText, PrintButtonText);
  }

  /**
   * The print button is removed before the bare print label: the chain
   * deletes `**IMPRIMER L'ARTICLE` completely, whereas the two replacements
   * taken the other way round would leave `**` behind.
   */
  lemma PrintButtonBeforeLabel()
    ensures CleanUp(PrintButtonText) == []
    ensures Strip(PrintButton, Strip(PrintLabel, PrintButtonText)) == "**"
  {
    PrintButtonHasNoCounter();
    PrintButtonDeleted();
    PrintLabelLeavesStars();
    StripLiteral(PrintButtonText, "**");
  }
}
