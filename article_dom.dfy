/**
 * The DOM passes of components/Reader.tsx that run after the cleanup: the
 * anchors whose text asks to "click here" get an in-app handler, the other
 * anchors are replaced by buttons, and every image is restyled.
 *
 * The content is the sequence of its anchor and button elements in document
 * order. `content.getElementsByTagName('a')` is a live collection: its
 * `i`-th entry is the `i`-th element of that sequence that is still an
 * anchor (`LinkPos`), and it shrinks when `replaceChild` turns an anchor into
 * a button.
 */
module ArticleDom {
  import opened Text

  /** What a click on the element does; the handler closures are kept as tags. */
  datatype Handler = NoHandler | FetchInApp(url: string) | OpenInNewTab(url: string)

  datatype Node =
    | Anchor(text: string, html: string, href: string, onclick: Handler)
    | Button(html: string, className: string, onclick: Handler)

  datatype Image = Image(src: string, className: string, maxWidth: string)

  const InAppPhrase: string := "cliquez ici pour"
  const InAppPhraseHyphen: string := "cliquez-ici pour"
  const ButtonClass: string := "styled-button"
  const ImageClass: string := "rounded-lg shadow-lg my-4 mx-auto"
  const FullWidth: string := "100%"

  /** The test of the first loop: the text asks to click here, with a space or a hyphen. */
  predicate IsInAppText(text: string) {
    Contains(Lower(text), InAppPhrase) || Contains(Lower(text), InAppPhraseHyphen)
  }

  /** The test of the second loop, written with its own two negations. */
  predicate IsExternalText(text: string) {
    !Contains(Lower(text), InAppPhrase) && !Contains(Lower(text), InAppPhraseHyphen)
  }

  /** The two loops test exact complements, so no anchor is claimed by both. */
  lemma TestsAreComplements(text: string)
    ensures IsExternalText(text) <==> !IsInAppText(text)
  {
  }

  /** `links.length`. */
  function LinkCount(s: seq<Node>): (r: nat)
    ensures r <= |s|
  {
    if s == [] then 0 else (if s[0].Anchor? then 1 else 0) + LinkCount(s[1..])
  }

  /** The position in `s` of `links[i]`, or `|s|` when there is no such entry. */
  function LinkPos(s: seq<Node>, i: nat): (k: nat)
    ensures k <= |s|
  {
    if s == [] then 0
    else if s[0].Anchor? then (if i == 0 then 0 else 1 + LinkPos(s[1..], i - 1))
    else 1 + LinkPos(s[1..], i)
  }

  /** `links[i]` exists exactly when `i < links.length`, and it is an anchor. */
  lemma {:induction false} LinkPosInRange(s: seq<Node>, i: nat)
    ensures i < LinkCount(s) ==> LinkPos(s, i) < |s| && s[LinkPos(s, i)].Anchor?
    ensures i >= LinkCount(s) ==> LinkPos(s, i) == |s|
  {
    if s != [] {
      if s[0].Anchor? {
        if i > 0 {
          LinkPosInRange(s[1..], i - 1);
        }
      } else {
        LinkPosInRange(s[1..], i);
      }
    }
  }

  /** Nothing before `links[0]` is an anchor. */
  lemma {:induction false} LinkPosFirstGap(s: seq<Node>)
    ensures forall m :: 0 <= m < LinkPos(s, 0) ==> !s[m].Anchor?
  {
    if s != [] && !s[0].Anchor? {
      LinkPosFirstGap(s[1..]);
      forall m | 1 <= m < LinkPos(s, 0) ensures !s[m].Anchor? {
        assert s[m] == s[1..][m - 1];
      }
    }
  }

  /** Nothing between `links[i]` and `links[i + 1]` is an anchor. */
  lemma {:induction false} LinkPosGap(s: seq<Node>, i: nat)
    requires i < LinkCount(s)
    ensures LinkPos(s, i) < LinkPos(s, i + 1)
    ensures forall m :: LinkPos(s, i) < m < LinkPos(s, i + 1) ==> !s[m].Anchor?
  {
    if s[0].Anchor? {
      if i == 0 {
        LinkPosFirstGap(s[1..]);
        forall m | 0 < m < LinkPos(s, 1) ensures !s[m].Anchor? {
          assert s[m] == s[1..][m - 1];
        }
      } else {
        LinkPosGap(s[1..], i - 1);
        forall m | LinkPos(s, i) < m < LinkPos(s, i + 1) ensures !s[m].Anchor? {
          assert s[m] == s[1..][m - 1];
        }
      }
    } else {
      LinkPosGap(s[1..], i);
      forall m | LinkPos(s, i) < m < LinkPos(s, i + 1) ensures !s[m].Anchor? {
        assert s[m] == s[1..][m - 1];
      }
    }
  }

  /**
   * `replaceChild` on `links[i]` takes it out of the collection: every later
   * entry moves down one place.
   */
  lemma {:induction false} LinkPosAfterReplace(s: seq<Node>, i: nat, n: Node, j: nat)
    requires i < LinkCount(s) && i <= j && !n.Anchor?
    ensures LinkPos(s, i) < |s|
    ensures LinkCount(s[LinkPos(s, i) := n]) == LinkCount(s) - 1
    ensures LinkPos(s[LinkPos(s, i) := n], j) == LinkPos(s, j + 1)
  {
    LinkPosInRange(s, i);
    var k := LinkPos(s, i);
    var t := s[k := n];
    if s[0].Anchor? && i == 0 {
      assert t[1..] == s[1..];
    } else if s[0].Anchor? {
      LinkPosAfterReplace(s[1..], i - 1, n, j - 1);
      assert t[1..] == s[1..][k - 1 := n];
    } else {
      LinkPosAfterReplace(s[1..], i, n, j);
      assert t[1..] == s[1..][k - 1 := n];
    }
  }

  /** Element sequences of the same shape: anchors in the same places. */
  predicate SameKinds(s: seq<Node>, t: seq<Node>) {
    |s| == |t| && forall m :: 0 <= m < |s| ==> s[m].Anchor? == t[m].Anchor?
  }

  /** Changing an anchor's handler leaves the collection as it was. */
  lemma {:induction false} LinkPosSameKinds(s: seq<Node>, t: seq<Node>, i: nat)
    requires SameKinds(s, t)
    ensures LinkCount(s) == LinkCount(t) && LinkPos(s, i) == LinkPos(t, i)
  {
    if s != [] {
      assert SameKinds(s[1..], t[1..]) by {
        forall m | 0 <= m < |s[1..]| ensures s[1..][m].Anchor? == t[1..][m].Anchor? {
          assert s[1..][m] == s[m + 1] && t[1..][m] == t[m + 1];
        }
      }
      assert s[0].Anchor? == t[0].Anchor?;
      LinkPosSameKinds(s[1..], t[1..], if s[0].Anchor? && i > 0 then i - 1 else i);
      LinkPosSameKinds(s[1..], t[1..], i);
    }
  }

  // ----- First loop (lines 56-65): the in-app handler

  /** An anchor whose click fetches its target inside the application. */
  function InAppLink(n: Node): (r: Node)
    requires n.Anchor?
    ensures r.Anchor? && r.text == n.text && r.html == n.html && r.href == n.href
    ensures r.onclick == FetchInApp(n.href)
  {
    Anchor(n.text, n.html, n.href, FetchInApp(n.href))
  }

  /** What the first loop does to one element. */
  function Hooked(n: Node): (r: Node)
    ensures r.Anchor? == n.Anchor?
  {
    if n.Anchor? && IsInAppText(n.text) then InAppLink(n) else n
  }

  function HookAll(s: seq<Node>): (r: seq<Node>)
    ensures |r| == |s|
  {
    seq(|s|, m requires 0 <= m < |s| => Hooked(s[m]))
  }

  /** The first loop hooks every in-app anchor and changes nothing else. */
  lemma HookAllExact(s: seq<Node>, m: nat)
    requires m < |s|
    ensures |HookAll(s)| == |s|
    ensures s[m].Anchor? && IsInAppText(s[m].text) ==> HookAll(s)[m] == InAppLink(s[m])
    ensures !(s[m].Anchor? && IsInAppText(s[m].text)) ==> HookAll(s)[m] == s[m]
  {
  }

  // ----- Second loop (lines 67-80): buttons for the other anchors

  function AsButton(n: Node): (r: Node)
    requires n.Anchor?
    ensures r.Button? && r.html == n.html && r.className == ButtonClass
    ensures r.onclick == OpenInNewTab(n.href)
  {
    Button(n.html, ButtonClass, OpenInNewTab(n.href))
  }

  /**
   * The effect of the second loop, read along the elements from position
   * `k` on: an anchor the loop visits is replaced when it fails the in-app
   * test, and then the next anchor slides into the slot just visited and is
   * passed over (`visit` is false for it). The whole content is `k = 0` with
   * `visit` true.
   */
  function ButtonPass(s: seq<Node>, k: nat, visit: bool): (r: seq<Node>)
    requires k <= |s|
    ensures |r| == |s|
    ensures forall m :: 0 <= m < k ==> r[m] == s[m]
    decreases |s| - k
  {
    if k == |s| then s
    else if !s[k].Anchor? then ButtonPass(s, k + 1, visit)
    else if !visit then ButtonPass(s, k + 1, true)
    else if IsExternalText(s[k].text) then ButtonPass(s[k := AsButton(s[k])], k + 1, false)
    else ButtonPass(s, k + 1, true)
  }

  /** Elements that are not anchors pass through unchanged. */
  lemma {:induction false} SkipPlain(s: seq<Node>, k: nat, k1: nat, visit: bool)
    requires k <= k1 <= |s|
    requires forall m :: k <= m < k1 ==> !s[m].Anchor?
    ensures ButtonPass(s, k, visit) == ButtonPass(s, k1, visit)
    decreases k1 - k
  {
    if k < k1 {
      SkipPlain(s, k + 1, k1, visit);
    }
  }

  /**
   * Every element either stays as it was or is an anchor that fails the
   * in-app test and becomes its button.
   */
  lemma {:induction false} ButtonPassChanges(s: seq<Node>, k: nat, visit: bool, m: nat)
    requires k <= |s| && m < |s|
    ensures ButtonPass(s, k, visit)[m] == s[m] ||
            (s[m].Anchor? && IsExternalText(s[m].text) && ButtonPass(s, k, visit)[m] == AsButton(s[m]))
    decreases |s| - k
  {
    if k < |s| {
      if !s[k].Anchor? {
        ButtonPassChanges(s, k + 1, visit, m);
      } else if !visit || !IsExternalText(s[k].text) {
        ButtonPassChanges(s, k + 1, true, m);
      } else {
        var t := s[k := AsButton(s[k])];
        ButtonPassChanges(t, k + 1, false, m);
      }
    }
  }

  /** An in-app anchor is never replaced by a button. */
  lemma InAppLinksKept(s: seq<Node>, k: nat, visit: bool, m: nat)
    requires k <= |s| && m < |s| && s[m].Anchor? && IsInAppText(s[m].text)
    ensures ButtonPass(s, k, visit)[m] == s[m]
  {
    ButtonPassChanges(s, k, visit, m);
  }

  /** The first anchor is always visited: when it is external it becomes a button. */
  lemma FirstLinkReplaced(s: seq<Node>, m: nat)
    requires m < |s| && s[m].Anchor? && IsExternalText(s[m].text)
    requires forall j :: 0 <= j < m ==> !s[j].Anchor?
    ensures ButtonPass(s, 0, true)[m] == AsButton(s[m])
  {
    SkipPlain(s, 0, m, true);
  }

  /**
   * Among anchors that all fail the in-app test, only every second one is
   * replaced: the first one visited, the third, and so on.
   */
  lemma {:induction false} ExternalLinksAlternate(s: seq<Node>, k: nat, visit: bool, m: nat)
    requires k <= m < |s|
    requires forall j :: k <= j <= m ==> s[j].Anchor? && IsExternalText(s[j].text)
    ensures ButtonPass(s, k, visit)[m] == if ((m - k) % 2 == 0) == visit then AsButton(s[m]) else s[m]
    decreases |s| - k
  {
    assert s[k].Anchor? && IsExternalText(s[k].text);
    if m > k {
      if visit {
        var t := s[k := AsButton(s[k])];
        ExternalLinksAlternate(t, k + 1, false, m);
      } else {
        ExternalLinksAlternate(s, k + 1, true, m);
      }
    }
  }

  /**
   * After both passes, an in-app anchor is still an anchor and a click on it
   * fetches its target in the application.
   */
  lemma InAppLinkAfterRewrite(s: seq<Node>, m: nat)
    requires m < |s| && s[m].Anchor? && IsInAppText(s[m].text)
    ensures ButtonPass(HookAll(s), 0, true)[m] == InAppLink(s[m])
  {
    HookAllExact(s, m);
    InAppLinksKept(HookAll(s), 0, true, m);
  }

  // ----- The same loop, corrected: the index only moves past anchors that stay

  /** What the second loop is meant to do to one element. */
  function Converted(n: Node): (r: Node)
    ensures r.Anchor? ==> n.Anchor? && r == n && IsInAppText(n.text)
    ensures n.Anchor? && IsInAppText(n.text) ==> r == n
    ensures !n.Anchor? ==> r == n
  {
    if n.Anchor? && IsExternalText(n.text) then AsButton(n) else n
  }

  function ConvertAll(s: seq<Node>): (r: seq<Node>)
    ensures |r| == |s|
  {
    seq(|s|, m requires 0 <= m < |s| => Converted(s[m]))
  }

  /** After the corrected loop, every anchor left is an in-app one. */
  lemma ConvertAllLeavesInAppOnly(s: seq<Node>)
    ensures |ConvertAll(s)| == |s|
    ensures forall m :: 0 <= m < |s| && ConvertAll(s)[m].Anchor? ==> IsInAppText(ConvertAll(s)[m].text)
    ensures forall m :: 0 <= m < |s| && s[m].Anchor? && IsExternalText(s[m].text) ==> ConvertAll(s)[m] == AsButton(s[m])
  {
  }

  /** Two adjacent external links: the loop as written leaves the second one an anchor. */
  lemma SecondExternalLinkSkipped(a: Node, b: Node)
    requires a.Anchor? && IsExternalText(a.text) && b.Anchor? && IsExternalText(b.text)
    ensures ButtonPass([a, b], 0, true) == [AsButton(a), b]
    ensures ButtonPass([a, b], 0, true) != ConvertAll([a, b])
  {
    ExternalLinksAlternate([a, b], 0, true, 0);
    ExternalLinksAlternate([a, b], 0, true, 1);
    assert ConvertAll([a, b])[1] == AsButton(b);
  }

  // ----- The loops themselves

  /** Before the loop: the walk may start at `links[0]`. */
  lemma WalkStart(s: seq<Node>)
    ensures ButtonPass(s, LinkPos(s, 0), true) == ButtonPass(s, 0, true)
  {
    LinkPosFirstGap(s);
    SkipPlain(s, 0, LinkPos(s, 0), true);
  }

  /** One step of the second loop that keeps `links[i]` moves on to `links[i + 1]`. */
  lemma KeepStep(s: seq<Node>, i: nat)
    requires i < LinkCount(s)
    requires LinkPos(s, i) < |s| && s[LinkPos(s, i)].Anchor? && !IsExternalText(s[LinkPos(s, i)].text)
    ensures ButtonPass(s, LinkPos(s, i + 1), true) == ButtonPass(s, LinkPos(s, i), true)
  {
    LinkPosInRange(s, i);
    LinkPosGap(s, i);
    SkipPlain(s, LinkPos(s, i) + 1, LinkPos(s, i + 1), true);
  }

  /** The walk over a replaced anchor, the plain elements, the skipped anchor and the plain elements after it. */
  lemma ReplaceWalkMiddle(s: seq<Node>, k: nat, k1: nat, k2: nat)
    requires k < k1 < k2 <= |s|
    requires s[k].Anchor? && IsExternalText(s[k].text) && s[k1].Anchor?
    requires forall m :: k < m < k1 ==> !s[m].Anchor?
    requires forall m :: k1 < m < k2 ==> !s[m].Anchor?
    ensures ButtonPass(s[k := AsButton(s[k])], k2, true) == ButtonPass(s, k, true)
  {
    var t := s[k := AsButton(s[k])];
    assert ButtonPass(s, k, true) == ButtonPass(t, k + 1, false);
    SkipPlain(t, k + 1, k1, false);
    assert t[k1] == s[k1];
    assert ButtonPass(t, k1, false) == ButtonPass(t, k1 + 1, true);
    SkipPlain(t, k1 + 1, k2, true);
  }

  /** The walk over a replaced anchor that is the last anchor. */
  lemma ReplaceWalkLast(s: seq<Node>, k: nat)
    requires k < |s| && s[k].Anchor? && IsExternalText(s[k].text)
    requires forall m :: k < m < |s| ==> !s[m].Anchor?
    ensures ButtonPass(s[k := AsButton(s[k])], |s|, true) == ButtonPass(s, k, true)
  {
    var t := s[k := AsButton(s[k])];
    assert ButtonPass(s, k, true) == ButtonPass(t, k + 1, false);
    SkipPlain(t, k + 1, |s|, false);
  }

  /**
   * One step of the second loop that replaces `links[i]`: the old
   * `links[i + 1]` moves into slot `i`, and the walk goes on at the new
   * `links[i + 1]`, the old `links[i + 2]`.
   */
  lemma ReplaceStep(s: seq<Node>, i: nat)
    requires i < LinkCount(s)
    requires LinkPos(s, i) < |s| && s[LinkPos(s, i)].Anchor? && IsExternalText(s[LinkPos(s, i)].text)
    ensures var t := s[LinkPos(s, i) := AsButton(s[LinkPos(s, i)])];
            LinkCount(t) == LinkCount(s) - 1 &&
            ButtonPass(t, LinkPos(t, i + 1), true) == ButtonPass(s, LinkPos(s, i), true)
  {
    var k := LinkPos(s, i);
    LinkPosAfterReplace(s, i, AsButton(s[k]), i + 1);
    LinkPosGap(s, i);
    LinkPosInRange(s, i + 1);
    if i + 1 < LinkCount(s) {
      LinkPosGap(s, i + 1);
      ReplaceWalkMiddle(s, k, LinkPos(s, i + 1), LinkPos(s, i + 2));
    } else {
      LinkPosInRange(s, i + 2);
      ReplaceWalkLast(s, k);
    }
  }

  class ArticleContent {
    var nodes: seq<Node>
    const images: array<Image>

    constructor (nodes: seq<Node>, images: array<Image>)
      ensures this.nodes == nodes && this.images == images
    {
      this.nodes := nodes;
      this.images := images;
    }

    /** Lines 56-65: every anchor of the collection is visited; the in-app ones get the in-app handler. */
    method HookInAppLinks()
      modifies this
      ensures nodes == HookAll(old(nodes))
    {
      ghost var orig := nodes;
      var i := 0;
      LinkPosFirstGap(orig);
      while i < LinkCount(nodes)
        invariant |nodes| == |orig| && SameKinds(nodes, orig)
        invariant i <= LinkCount(orig)
        invariant forall m :: 0 <= m < |orig| ==>
                    nodes[m] == if m < LinkPos(orig, i) then Hooked(orig[m]) else orig[m]
        decreases LinkCount(orig) - i
      {
        LinkPosSameKinds(nodes, orig, i);
        LinkPosInRange(orig, i);
        LinkPosGap(orig, i);
        var k := LinkPos(nodes, i);
        var link := nodes[k];
        if IsInAppText(link.text) {
          nodes := nodes[k := InAppLink(link)];
        }
        i := i + 1;
      }
      LinkPosSameKinds(nodes, orig, i);
      LinkPosInRange(orig, i);
    }

    /**
     * Lines 67-80 as written: `i` moves on after every visit, also after
     * `replaceChild` has taken the visited anchor out of the collection.
     */
    method ReplaceExternalLinks()
      modifies this
      ensures nodes == ButtonPass(old(nodes), 0, true)
    {
      var i := 0;
      WalkStart(nodes);
      while i < LinkCount(nodes)
        invariant i <= LinkCount(nodes) + 1
        invariant ButtonPass(nodes, LinkPos(nodes, i), true) == ButtonPass(old(nodes), 0, true)
        decreases LinkCount(nodes) + 1 - i
      {
        LinkPosInRange(nodes, i);
        var k := LinkPos(nodes, i);
        var link := nodes[k];
        if IsExternalText(link.text) {
          ReplaceStep(nodes, i);
          nodes := nodes[k := AsButton(link)];
        } else {
          KeepStep(nodes, i);
        }
        i := i + 1;
      }
      LinkPosInRange(nodes, i);
    }

    /** The loop of lines 67-80 with the index kept in place after a replacement. */
    method ReplaceExternalLinksFixed()
      modifies this
      ensures nodes == ConvertAll(old(nodes))
    {
      ghost var orig := nodes;
      var i := 0;
      LinkPosFirstGap(orig);
      while i < LinkCount(nodes)
        invariant |nodes| == |orig|
        invariant i <= LinkCount(nodes)
        invariant forall m :: 0 <= m < |orig| ==>
                    nodes[m] == if m < LinkPos(nodes, i) then Converted(orig[m]) else orig[m]
        decreases LinkCount(nodes) - i
      {
        LinkPosInRange(nodes, i);
        LinkPosGap(nodes, i);
        var k := LinkPos(nodes, i);
        var link := nodes[k];
        if IsExternalText(link.text) {
          LinkPosAfterReplace(nodes, i, AsButton(link), i);
          nodes := nodes[k := AsButton(link)];
        } else {
          i := i + 1;
        }
      }
      LinkPosInRange(nodes, i);
    }

    /** Lines 82-88: the image collection does not change, so every image is styled. */
    method StyleImages()
      modifies images
      ensures forall k :: 0 <= k < images.Length ==>
                images[k] == old(images[k]).(className := ImageClass, maxWidth := FullWidth)
    {
      var i := 0;
      while i < images.Length
        invariant 0 <= i <= images.Length
        invariant forall k :: 0 <= k < i ==> images[k] == old(images[k]).(className := ImageClass, maxWidth := FullWidth)
        invariant forall k :: i <= k < images.Length ==> images[k] == old(images[k])
      {
        images[i] := images[i].(className := ImageClass, maxWidth := FullWidth);
        i := i + 1;
      }
    }

    /** The three passes in the order of the effect. */
    method RewriteAndStyle()
      modifies this, images
      ensures nodes == ButtonPass(HookAll(old(nodes)), 0, true)
      ensures forall k :: 0 <= k < images.Length ==>
                images[k] == old(images[k]).(className := ImageClass, maxWidth := FullWidth)
    {
      HookInAppLinks();
      ReplaceExternalLinks();
      StyleImages();
    }
  }
}
