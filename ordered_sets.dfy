/**
 * A JavaScript `Set` of strings, seen as the sequence its iteration (and `Array.from`)
 * produces: distinct elements in insertion order.
 */
module OrderedSets {
  import opened Lists

  predicate NoDuplicates(s: seq<string>) {
    forall i, j :: 0 <= i < j < |s| ==> s[i] != s[j]
  }

  /** `set.add(x)`: a new element goes last, an old one keeps its place. */
  function Add(s: seq<string>, x: string): (r: seq<string>)
    ensures forall y :: y in r <==> y in s || y == x
    ensures NoDuplicates(s) ==> NoDuplicates(r)
    ensures x in s ==> r == s
    ensures x !in s ==> r == s + [x]
  {
    if x in s then s else s + [x]
  }

  /** `set.delete(x)`: every other element keeps its relative order. */
  function Delete(s: seq<string>, x: string): (r: seq<string>)
    ensures forall y :: y in r <==> y in s && y != x
    ensures NoDuplicates(s) ==> NoDuplicates(r)
    ensures |r| <= |s|
    ensures IsSubsequence(r, s)
  {
    if s == [] then []
    else if s[0] == x then
      var rest := Delete(s[1..], x);
      assert [s[0]] + s[1..] == s;
      SubsequenceWeaken(rest, s[1..], s[0]);
      rest
    else
      var rest := Delete(s[1..], x);
      HeadNotInTail(s);
      ConsKeepsDistinct(s[0], rest);
      assert ([s[0]] + rest)[1..] == rest;
      [s[0]] + rest
  }

  lemma HeadNotInTail(s: seq<string>)
    requires s != []
    ensures NoDuplicates(s) ==> s[0] !in s[1..]
  {
    if NoDuplicates(s) {
      forall j | 0 <= j < |s[1..]| ensures s[1..][j] != s[0] { assert s[1..][j] == s[j + 1]; }
    }
  }

  lemma ConsKeepsDistinct(x: string, s: seq<string>)
    ensures x !in s && NoDuplicates(s) ==> NoDuplicates([x] + s)
  {
    if x !in s && NoDuplicates(s) {
      forall i, j | 0 <= i < j < |[x] + s| ensures ([x] + s)[i] != ([x] + s)[j] {
        assert ([x] + s)[j] == s[j - 1];
        if i > 0 { assert ([x] + s)[i] == s[i - 1]; }
      }
    }
  }

  /** `new Set(xs)`: the elements of `xs` added one after the other. */
  function Build(xs: seq<string>): (r: seq<string>)
    ensures NoDuplicates(r)
    ensures forall y :: y in r <==> y in xs
  {
    if xs == [] then [] else Add(Build(xs[..|xs| - 1]), xs[|xs| - 1])
  }

  /** Deleting an element that is absent changes nothing. */
  lemma {:induction false} DeleteAbsent(s: seq<string>, x: string)
    requires x !in s
    ensures Delete(s, x) == s
  {
    if s != [] {
      DeleteAbsent(s[1..], x);
      assert s == [s[0]] + s[1..];
    }
  }

  /** Deleting the element just appended gives back the original sequence. */
  lemma {:induction false} DeleteAfterAdd(s: seq<string>, x: string)
    requires x !in s
    ensures Delete(s + [x], x) == s
  {
    if s == [] {
      assert [] + [x] == [x];
    } else {
      assert (s + [x])[1..] == s[1..] + [x];
      DeleteAfterAdd(s[1..], x);
      assert s == [s[0]] + s[1..];
    }
  }

  /** A set built from a list without repeats iterates in the list's own order. */
  lemma {:induction false} BuildOfDistinct(xs: seq<string>)
    requires NoDuplicates(xs)
    ensures Build(xs) == xs
  {
    if xs != [] {
      var init := xs[..|xs| - 1];
      assert NoDuplicates(init);
      BuildOfDistinct(init);
      assert xs[|xs| - 1] !in init;
      assert init + [xs[|xs| - 1]] == xs;
    }
  }
}
