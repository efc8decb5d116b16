/** The page-side string logic of the content script: which paths are
    articles, which anchors count as article links, and how a title is
    recovered from an address. */
module WikiText {
  import opened Seqs
  import opened AssocList
  import opened Graph

  // ---------------------------------------------------------------- isArticlePage

  /** Path fragments that mark a page as not an article. */
  const NonArticleMarkers: seq<string> :=
    ["Special:", "Talk:", "Help:", "Wikipedia:", "File:", "Category:"]

  /** `isArticlePage()` on `window.location.pathname`: the path contains
      `/wiki/` and none of the markers, anywhere. */
  function IsArticlePage(path: string): (b: bool)
    ensures b <==>
      && (exists i: nat :: OccursAt(path, "/wiki/", i))
      && forall m, i: nat :: m in NonArticleMarkers ==> !OccursAt(path, m, i)
  {
    Contains(path, "/wiki/") &&
    !Contains(path, "Special:") &&
    !Contains(path, "Talk:") &&
    !Contains(path, "Help:") &&
    !Contains(path, "Wikipedia:") &&
    !Contains(path, "File:") &&
    !Contains(path, "Category:")
  }

  // ---------------------------------------------------------------- String.prototype.trim

  /** ECMAScript WhiteSpace and LineTerminator code points, the characters
      `trim` removes. */
  predicate IsJsSpace(c: char)
  {
    var n := c as int;
    n == 0x09 || n == 0x0A || n == 0x0B || n == 0x0C || n == 0x0D || n == 0x20 ||
    n == 0xA0 || n == 0x1680 || (0x2000 <= n <= 0x200A) || n == 0x2028 || n == 0x2029 ||
    n == 0x202F || n == 0x205F || n == 0x3000 || n == 0xFEFF
  }

  function TrimStart(s: string): (r: string)
    ensures |r| <= |s| && r == s[|s| - |r|..]
    ensures forall k :: 0 <= k < |s| - |r| ==> IsJsSpace(s[k])
    ensures r != [] ==> !IsJsSpace(r[0])
  {
    if s != [] && IsJsSpace(s[0]) then TrimStart(s[1..]) else s
  }

  function TrimEnd(s: string): (r: string)
    ensures |r| <= |s| && r == s[..|r|]
    ensures forall k :: |r| <= k < |s| ==> IsJsSpace(s[k])
    ensures r != [] ==> !IsJsSpace(r[|r| - 1])
  {
    if s != [] && IsJsSpace(s[|s| - 1]) then TrimEnd(s[..|s| - 1]) else s
  }

  /** `s.trim()`: the part of `s` left after dropping its leading and
      trailing white space. It neither starts nor ends with white space, and
      is empty exactly when `s` is all white space. */
  function Trim(s: string): (r: string)
    ensures exists i: nat :: TrimmedAt(s, r, i)
    ensures r != [] ==> !IsJsSpace(r[0]) && !IsJsSpace(r[|r| - 1])
    ensures r == [] <==> forall k :: 0 <= k < |s| ==> IsJsSpace(s[k])
  {
    TrimFacts(s);
    TrimEnd(TrimStart(s))
  }

  /** The facts `Trim` states, about `TrimEnd(TrimStart(s))`. */
  lemma TrimFacts(s: string)
    ensures var r := TrimEnd(TrimStart(s));
      && (exists i: nat :: TrimmedAt(s, r, i))
      && (r != [] ==> !IsJsSpace(r[0]) && !IsJsSpace(r[|r| - 1]))
      && (r == [] <==> forall k :: 0 <= k < |s| ==> IsJsSpace(s[k]))
  {
    var t := TrimStart(s);
    var r := TrimEnd(t);
    SliceOccurs(s, t, r);
    TrailingBlank(s, t, |r|);
    assert OccursAt(s, r, |s| - |t|);
    assert forall k :: 0 <= k < |s| - |t| ==> IsJsSpace(s[k]);
    assert TrimmedAt(s, r, |s| - |t|);
    TrimBlank(s, t, r);
  }

  /** `r` occurs in `s` at `i` with only white space before and after it. */
  ghost predicate TrimmedAt(s: string, r: string, i: nat)
  {
    && OccursAt(s, r, i)
    && (forall k :: 0 <= k < i ==> IsJsSpace(s[k]))
    && (forall k :: i + |r| <= k < |s| ==> IsJsSpace(s[k]))
  }

  /** White space at the end of a suffix of `s` is white space at the end
      of `s`. */
  lemma TrailingBlank(s: string, t: string, n: nat)
    requires |t| <= |s| && t == s[|s| - |t|..]
    requires forall k :: n <= k < |t| ==> IsJsSpace(t[k])
    ensures forall k :: |s| - |t| + n <= k < |s| ==> IsJsSpace(s[k])
  {
    forall k | |s| - |t| + n <= k < |s| ensures IsJsSpace(s[k]) {
      assert s[k] == t[k - (|s| - |t|)];
    }
  }

  /** A prefix of a suffix of `s` occurs in `s` where the suffix starts. */
  lemma SliceOccurs(s: string, t: string, r: string)
    requires |t| <= |s| && t == s[|s| - |t|..]
    requires |r| <= |t| && r == t[..|r|]
    ensures OccursAt(s, r, |s| - |t|)
  {
    assert s[|s| - |t|..][..|r|] == s[|s| - |t|..|s| - |t| + |r|];
  }

  lemma TrimBlank(s: string, t: string, r: string)
    requires t == TrimStart(s) && r == TrimEnd(t)
    ensures r != [] ==> !IsJsSpace(r[0])
    ensures r == [] <==> forall k :: 0 <= k < |s| ==> IsJsSpace(s[k])
  {
    if t == [] {
      assert forall k :: 0 <= k < |s| ==> IsJsSpace(s[k]);
    } else {
      assert !IsJsSpace(t[0]);
      assert r != [];
      assert r[0] == t[0];
      assert t[0] == s[|s| - |t|];
    }
  }

  // ---------------------------------------------------------------- extractWikipediaLinks

  /** Namespace prefixes (after `/wiki/`) whose pages are not collected. */
  const ExcludedNamespaces: seq<string> := [
    "Special:", "Talk:", "User:", "User_talk:", "Wikipedia:", "Wikipedia_talk:",
    "File:", "File_talk:", "MediaWiki:", "MediaWiki_talk:", "Template:", "Template_talk:",
    "Help:", "Help_talk:", "Category:", "Category_talk:", "Portal:", "Portal_talk:",
    "Draft:", "Draft_talk:", "TimedText:", "TimedText_talk:", "Module:", "Module_talk:"]

  /** `excludedNamespaces.some(ns => href.startsWith('/wiki/' + ns))`. */
  predicate IsNamespaceHref(href: string)
  {
    exists ns :: ns in ExcludedNamespaces && StartsWith(href, "/wiki/" + ns)
  }

  /** An `href` that is followed: under `/wiki/`, outside the excluded
      namespaces, and without a fragment. */
  predicate IsContentHref(href: string)
  {
    StartsWith(href, "/wiki/") && !IsNamespaceHref(href) && !Contains(href, "#")
  }

  /** An anchor selected by `a[href^="/wiki/"]:not(.new)` inside the content
      area: its `href` attribute and its `textContent`. */
  datatype Anchor = Anchor(href: string, text: string)

  /** One collected link. */
  datatype PageLink = PageLink(url: Url, title: string)

  /** `links.find(l => l.url === url)` finds something. */
  predicate HasUrl(links: seq<PageLink>, url: Url)
  {
    exists k :: 0 <= k < |links| && links[k].url == url
  }

  /** What an anchor contributes, before de-duplication: its normalised
      address and trimmed text, when the `href` is followed and the text is
      not blank. `normalize` stands for `normalizeUrl`. */
  function Candidate(a: Anchor, origin: string, normalize: string -> string): Option<PageLink>
  {
    if IsContentHref(a.href) && Trim(a.text) != "" then
      Some(PageLink(normalize(origin + a.href), Trim(a.text)))
    else None
  }

  /** What each anchor contributes, in document order. */
  function Candidates(anchors: seq<Anchor>, origin: string, normalize: string -> string): (cs: seq<Option<PageLink>>)
    ensures |cs| == |anchors|
    ensures forall i :: 0 <= i < |anchors| ==> cs[i] == Candidate(anchors[i], origin, normalize)
  {
    seq(|anchors|, i requires 0 <= i < |anchors| => Candidate(anchors[i], origin, normalize))
  }

  /** Keeps each contributed link whose address has not been kept before,
      scanning from the left. */
  function FirstByUrl(cs: seq<Option<PageLink>>): seq<PageLink>
  {
    if cs == [] then []
    else
      var acc := FirstByUrl(cs[..|cs| - 1]);
      match cs[|cs| - 1]
      case None => acc
      case Some(l) => if HasUrl(acc, l.url) then acc else acc + [l]
  }

  /** The links collected from `anchors`. */
  function Extracted(anchors: seq<Anchor>, origin: string, normalize: string -> string): seq<PageLink>
  {
    FirstByUrl(Candidates(anchors, origin, normalize))
  }

  /** The `forEach` callback of `extractWikipediaLinks`: adds the anchor's
      link unless it is filtered out or its address is already collected. */
  method CollectAnchor(links: seq<PageLink>, a: Anchor, origin: string, normalize: string -> string)
    returns (links': seq<PageLink>)
    ensures links' == match Candidate(a, origin, normalize)
      case None => links
      case Some(l) => if HasUrl(links, l.url) then links else links + [l]
  {
    links' := links;
    var href := a.href;
    if !StartsWith(href, "/wiki/") {
      assert Candidate(a, origin, normalize) == None;
      return;
    }
    var isNamespacePage := IsNamespaceHref(href);
    if !isNamespacePage && !Contains(href, "#") {
      var fullUrl := normalize(origin + href);
      var title := Trim(a.text);
      if title != "" {
        assert Candidate(a, origin, normalize) == Some(PageLink(fullUrl, title));
        if !HasUrl(links, fullUrl) {
          links' := links + [PageLink(fullUrl, title)];
        }
      } else {
        assert Candidate(a, origin, normalize) == None;
      }
    } else {
      assert Candidate(a, origin, normalize) == None;
    }
  }

  /** `extractWikipediaLinks()`: `content` is the anchors of the content
      area, or None when the page has none. */
  method ExtractWikipediaLinks(content: Option<seq<Anchor>>, origin: string, normalize: string -> string)
    returns (links: seq<PageLink>)
    ensures content.None? ==> links == []
    ensures content.Some? ==> links == Extracted(content.value, origin, normalize)
  {
    if content.None? {
      return [];
    }
    var anchors := content.value;
    ghost var cs := Candidates(anchors, origin, normalize);
    links := [];
    for i := 0 to |anchors|
      invariant links == FirstByUrl(cs[..i])
    {
      FirstByUrlStep(cs, i);
      links := CollectAnchor(links, anchors[i], origin, normalize);
    }
    assert cs[..|anchors|] == cs;
  }

  /** The scan over one more contribution. */
  lemma FirstByUrlStep(cs: seq<Option<PageLink>>, i: nat)
    requires i < |cs|
    ensures var acc := FirstByUrl(cs[..i]);
      FirstByUrl(cs[..i + 1]) == match cs[i]
        case None => acc
        case Some(l) => if HasUrl(acc, l.url) then acc else acc + [l]
  {
    assert cs[..i + 1][..i] == cs[..i];
  }

  /** No two links share an address. */
  ghost predicate UrlsDistinct(links: seq<PageLink>)
  {
    forall i, j :: 0 <= i < j < |links| ==> links[i].url != links[j].url
  }

  /** The scan never keeps an address twice. */
  lemma {:induction false} FirstByUrlDistinct(cs: seq<Option<PageLink>>)
    ensures UrlsDistinct(FirstByUrl(cs))
  {
    if cs != [] {
      var init := cs[..|cs| - 1];
      FirstByUrlDistinct(init);
      var acc := FirstByUrl(init);
      var c := cs[|cs| - 1];
      if c.Some? && !HasUrl(acc, c.value.url) {
        var out := acc + [c.value];
        forall i, j | 0 <= i < j < |out| ensures out[i].url != out[j].url {
          assert out[i] == acc[i];
          if j < |acc| {
            assert out[j] == acc[j];
          }
        }
      }
    }
  }

  /** Position `i` contributes `l`, and no earlier position contributes
      `l`'s address. */
  ghost predicate FirstAt(cs: seq<Option<PageLink>>, i: int, l: PageLink)
  {
    && 0 <= i < |cs|
    && cs[i] == Some(l)
    && forall j :: 0 <= j < i && cs[j].Some? ==> cs[j].value.url != l.url
  }

  /** Some position is the first contribution of `l`. */
  ghost predicate FirstSomewhere(cs: seq<Option<PageLink>>, l: PageLink)
  {
    exists i :: FirstAt(cs, i, l)
  }

  /** Every address contributed anywhere is kept. */
  lemma {:induction false} FirstByUrlComplete(cs: seq<Option<PageLink>>, i: nat)
    requires i < |cs| && cs[i].Some?
    ensures HasUrl(FirstByUrl(cs), cs[i].value.url)
  {
    var init := cs[..|cs| - 1];
    var acc := FirstByUrl(init);
    if i < |cs| - 1 {
      assert init[i] == cs[i];
      FirstByUrlComplete(init, i);
      var k :| 0 <= k < |acc| && acc[k].url == cs[i].value.url;
      assert FirstByUrl(cs)[k] == acc[k];
    } else if !HasUrl(acc, cs[i].value.url) {
      assert FirstByUrl(cs)[|acc|] == cs[i].value;
    }
  }

  /** Every kept link is the first contribution of its address. */
  lemma {:induction false} FirstByUrlFirst(cs: seq<Option<PageLink>>)
    ensures forall k :: 0 <= k < |FirstByUrl(cs)| ==> FirstSomewhere(cs, FirstByUrl(cs)[k])
  {
    if cs != [] {
      var init := cs[..|cs| - 1];
      FirstByUrlFirst(init);
      var acc := FirstByUrl(init);
      assert forall k :: 0 <= k < |acc| ==> FirstSomewhere(init, acc[k]);
      var c := cs[|cs| - 1];
      var out := FirstByUrl(cs);
      forall i | 0 <= i < |init| ensures init[i] == cs[i] { }
      if c.Some? && !HasUrl(acc, c.value.url) {
        assert out == acc + [c.value];
        forall j | 0 <= j < |init| && cs[j].Some? ensures cs[j].value.url != c.value.url {
          FirstByUrlComplete(init, j);
        }
        assert FirstAt(cs, |init|, c.value);
      }
      forall k | 0 <= k < |out| ensures FirstSomewhere(cs, out[k]) {
        if k < |acc| {
          assert out[k] == acc[k];
          var i :| FirstAt(init, i, acc[k]);
          assert FirstAt(cs, i, out[k]);
        } else {
          assert FirstAt(cs, |init|, out[k]);
        }
      }
    }
  }

  /** The contributed links, in document order. */
  function Contributed(cs: seq<Option<PageLink>>): seq<PageLink>
  {
    if cs == [] then []
    else
      Contributed(cs[..|cs| - 1]) + match cs[|cs| - 1] case None => [] case Some(l) => [l]
  }

  /** The scan keeps document order: its output is a subsequence of the
      contributions. */
  lemma {:induction false} FirstByUrlOrder(cs: seq<Option<PageLink>>)
    ensures IsSubsequence(FirstByUrl(cs), Contributed(cs))
  {
    if cs != [] {
      var init := cs[..|cs| - 1];
      FirstByUrlOrder(init);
      var acc, all := FirstByUrl(init), Contributed(init);
      match cs[|cs| - 1]
      case None =>
        assert FirstByUrl(cs) == acc && Contributed(cs) == all;
      case Some(l) =>
        assert Contributed(cs) == all + [l];
        if HasUrl(acc, l.url) {
          SubsequenceExtend(acc, all, l);
        } else {
          assert FirstByUrl(cs) == acc + [l];
          assert (acc + [l])[..|acc|] == acc && (all + [l])[..|all|] == all;
        }
    }
  }

  /** Two positions that are each the first contribution of the same
      address are the same position. */
  lemma FirstAtUnique(cs: seq<Option<PageLink>>, i: int, l: PageLink, j: int, l': PageLink)
    requires FirstAt(cs, i, l) && FirstAt(cs, j, l') && l.url == l'.url
    ensures i == j
  {
  }

  /** A first contribution inside a prefix is one in the whole sequence
      too, and back. */
  lemma FirstAtPrefix(cs: seq<Option<PageLink>>, n: nat, i: int, l: PageLink)
    requires n <= |cs| && i < n
    ensures FirstAt(cs[..n], i, l) <==> FirstAt(cs, i, l)
  {
  }

  /** Kept links appear in the order of their first contributions. */
  lemma {:induction false} FirstByUrlPositions(cs: seq<Option<PageLink>>, k1: nat, k2: nat, i1: int, i2: int)
    requires k1 < k2 < |FirstByUrl(cs)|
    requires FirstAt(cs, i1, FirstByUrl(cs)[k1]) && FirstAt(cs, i2, FirstByUrl(cs)[k2])
    ensures i1 < i2
  {
    var init := cs[..|cs| - 1];
    var acc, out := FirstByUrl(init), FirstByUrl(cs);
    FirstByUrlFirst(init);
    FirstByUrlDistinct(cs);
    assert out[..|acc|] == acc;
    assert FirstSomewhere(init, out[k1]);
    var j1 :| FirstAt(init, j1, out[k1]);
    FirstAtPrefix(cs, |cs| - 1, j1, out[k1]);
    FirstAtUnique(cs, i1, out[k1], j1, out[k1]);
    if k2 < |acc| {
      assert FirstSomewhere(init, out[k2]);
      var j2 :| FirstAt(init, j2, out[k2]);
      FirstAtPrefix(cs, |cs| - 1, j2, out[k2]);
      FirstAtUnique(cs, i2, out[k2], j2, out[k2]);
      FirstAtPrefix(cs, |cs| - 1, j1, out[k1]);
      FirstByUrlPositions(init, k1, k2, j1, j2);
    } else {
      assert i2 >= |init| by {
        if i2 < |init| {
          FirstAtPrefix(cs, |cs| - 1, i2, out[k2]);
          FirstByUrlComplete(init, i2);
        }
      }
    }
  }

  /** Link extraction never collects an address twice. */
  lemma ExtractedDistinct(anchors: seq<Anchor>, origin: string, normalize: string -> string)
    ensures UrlsDistinct(Extracted(anchors, origin, normalize))
  {
    FirstByUrlDistinct(Candidates(anchors, origin, normalize));
  }

  /** Each collected link comes from an anchor whose `href` starts with
      `/wiki/`, names no excluded namespace and has no `#`, whose trimmed
      text is not blank, and which is the first such anchor, in document
      order, with that normalised address. */
  lemma ExtractedSources(anchors: seq<Anchor>, origin: string, normalize: string -> string)
    ensures forall k :: 0 <= k < |Extracted(anchors, origin, normalize)| ==>
      HasFirstSource(anchors, origin, normalize, Extracted(anchors, origin, normalize)[k])
  {
    var cs := Candidates(anchors, origin, normalize);
    var out := FirstByUrl(cs);
    FirstByUrlFirst(cs);
    forall k | 0 <= k < |out|
      ensures HasFirstSource(anchors, origin, normalize, out[k])
    {
      assert FirstSomewhere(cs, out[k]);
      var i :| FirstAt(cs, i, out[k]);
      SourceOfFirst(anchors, origin, normalize, i, out[k]);
    }
  }

  lemma SourceOfFirst(anchors: seq<Anchor>, origin: string, normalize: string -> string, i: int, l: PageLink)
    requires FirstAt(Candidates(anchors, origin, normalize), i, l)
    ensures 0 <= i < |anchors| && FirstSource(anchors, origin, normalize, i, l)
  {
    assert Candidate(anchors[i], origin, normalize) == Some(l);
  }

  /** Extracted links come out in document order: a subsequence of what
      the anchors contribute, and each link's first source anchor comes
      before the next link's. */
  lemma ExtractedOrder(anchors: seq<Anchor>, origin: string, normalize: string -> string,
                       k1: nat, k2: nat, i1: int, i2: int)
    ensures IsSubsequence(Extracted(anchors, origin, normalize), Contributed(Candidates(anchors, origin, normalize)))
    ensures var out := Extracted(anchors, origin, normalize);
      (&& k1 < k2 < |out| && 0 <= i1 < |anchors| && 0 <= i2 < |anchors|
       && FirstSource(anchors, origin, normalize, i1, out[k1])
       && FirstSource(anchors, origin, normalize, i2, out[k2]))
      ==> i1 < i2
  {
    var cs := Candidates(anchors, origin, normalize);
    var out := FirstByUrl(cs);
    FirstByUrlOrder(cs);
    if k1 < k2 < |out| && 0 <= i1 < |anchors| && 0 <= i2 < |anchors|
      && FirstSource(anchors, origin, normalize, i1, out[k1])
      && FirstSource(anchors, origin, normalize, i2, out[k2])
    {
      assert FirstAt(cs, i1, out[k1]);
      assert FirstAt(cs, i2, out[k2]);
      FirstByUrlPositions(cs, k1, k2, i1, i2);
    }
  }

  /** Every anchor with a followed `href` and non-blank text has its
      normalised address collected. */
  lemma ExtractedComplete(anchors: seq<Anchor>, origin: string, normalize: string -> string, i: nat)
    requires i < |anchors| && IsContentHref(anchors[i].href) && Trim(anchors[i].text) != ""
    ensures HasUrl(Extracted(anchors, origin, normalize), normalize(origin + anchors[i].href))
  {
    var cs := Candidates(anchors, origin, normalize);
    assert cs[i] == Some(PageLink(normalize(origin + anchors[i].href), Trim(anchors[i].text)));
    FirstByUrlComplete(cs, i);
  }

  /** Some anchor is the first source of `l`. */
  ghost predicate HasFirstSource(anchors: seq<Anchor>, origin: string, normalize: string -> string, l: PageLink)
  {
    exists i :: 0 <= i < |anchors| && FirstSource(anchors, origin, normalize, i, l)
  }

  /** Anchor `i` has a followed `href` and a non-blank text, yields `l`, and
      no earlier anchor yields `l`'s address. */
  ghost predicate FirstSource(anchors: seq<Anchor>, origin: string, normalize: string -> string, i: int, l: PageLink)
    requires 0 <= i < |anchors|
  {
    && StartsWith(anchors[i].href, "/wiki/")
    && !IsNamespaceHref(anchors[i].href)
    && !Contains(anchors[i].href, "#")
    && l.url == normalize(origin + anchors[i].href)
    && l.title == Trim(anchors[i].text)
    && l.title != ""
    && forall j :: 0 <= j < i && Candidate(anchors[j], origin, normalize).Some? ==>
         Candidate(anchors[j], origin, normalize).value.url != l.url
  }

  // ---------------------------------------------------------------- getTitleFromUrl

  /** The longest prefix of `s` without `?` or `#` (the greedy `[^?#]+`). */
  function PlainRun(s: string): (r: string)
    ensures |r| <= |s| && r == s[..|r|]
    ensures forall k :: 0 <= k < |r| ==> r[k] != '?' && r[k] != '#'
    ensures |r| < |s| ==> s[|r|] == '?' || s[|r|] == '#'
  {
    if s == [] || s[0] == '?' || s[0] == '#' then [] else [s[0]] + PlainRun(s[1..])
  }

  /** `/wiki/` at position `i`, followed by a character other than `?`, `#`. */
  predicate WikiSegmentAt(s: string, i: nat)
  {
    OccursAt(s, "/wiki/", i) && i + 6 < |s| && s[i + 6] != '?' && s[i + 6] != '#'
  }

  /** The capture group of `url.match(/\/wiki\/([^?#]+)/)`: the leftmost
      `/wiki/` followed by at least one character other than `?` and `#`,
      and the longest run of such characters after it. */
  function WikiCapture(s: string): (m: Option<string>)
    ensures m.None? <==> forall i: nat :: !WikiSegmentAt(s, i)
    ensures m.Some? ==> m.value != [] && forall k :: 0 <= k < |m.value| ==> m.value[k] != '?' && m.value[k] != '#'
    ensures m.Some? ==> exists i: nat :: WikiSegmentAt(s, i) && OccursAt(s, m.value, i + 6)
    ensures m.Some? ==> exists i: nat :: LeftmostCapture(s, m.value, i)
  {
    if |s| < 7 then
      assert forall i: nat :: !WikiSegmentAt(s, i);
      None
    else if s[..6] == "/wiki/" && s[6] != '?' && s[6] != '#' then
      var run := PlainRun(s[6..]);
      assert WikiSegmentAt(s, 0);
      CaptureOccurs(s, run, 0);
      assert LeftmostCapture(s, run, 0);
      Some(run)
    else
      var rest := WikiCapture(s[1..]);
      SegmentShift(s);
      if rest.Some? then
        CaptureShift(s, rest.value);
        rest
      else
        rest
  }

  /** `v` is the greedy run after the leftmost `/wiki/` segment, at `i`. */
  ghost predicate LeftmostCapture(s: string, v: string, i: nat)
  {
    && WikiSegmentAt(s, i)
    && (forall j: nat :: j < i ==> !WikiSegmentAt(s, j))
    && v == PlainRun(s[i + 6..])
  }

  /** The run after a segment occurs right after its `/wiki/`. */
  lemma CaptureOccurs(s: string, v: string, i: nat)
    requires WikiSegmentAt(s, i) && v == PlainRun(s[i + 6..])
    ensures OccursAt(s, v, i + 6)
  {
    assert s[i + 6..][..|v|] == s[i + 6..i + 6 + |v|];
  }

  /** When `s` has no segment at 0, the leftmost capture of `s[1..]` is the
      leftmost capture of `s`, one place later. */
  lemma CaptureShift(s: string, v: string)
    requires |s| >= 1 && !WikiSegmentAt(s, 0)
    requires exists i: nat :: LeftmostCapture(s[1..], v, i)
    ensures exists i: nat :: LeftmostCapture(s, v, i)
    ensures exists i: nat :: WikiSegmentAt(s, i) && OccursAt(s, v, i + 6)
  {
    var i: nat :| LeftmostCapture(s[1..], v, i);
    SegmentShift(s);
    assert s[1..][i + 6..] == s[i + 7..];
    forall j: nat | j < i + 1 ensures !WikiSegmentAt(s, j) {
      if j > 0 {
        assert !WikiSegmentAt(s[1..], j - 1);
      }
    }
    assert LeftmostCapture(s, v, i + 1);
    CaptureOccurs(s, v, i + 1);
  }

  /** A `/wiki/` segment of `s[1..]` is one of `s` one place later, and `s`
      has no other segment when it has none at 0. */
  lemma SegmentShift(s: string)
    requires |s| >= 1
    ensures forall i: nat :: WikiSegmentAt(s[1..], i) <==> WikiSegmentAt(s, i + 1)
    ensures !WikiSegmentAt(s, 0) ==>
      ((exists i: nat :: WikiSegmentAt(s, i)) <==> exists i: nat :: WikiSegmentAt(s[1..], i))
  {
    forall i: nat ensures WikiSegmentAt(s[1..], i) <==> WikiSegmentAt(s, i + 1) {
      if i + 7 <= |s| {
        assert s[1..][i..i + 6] == s[i + 1..i + 7];
      }
    }
    if !WikiSegmentAt(s, 0) && exists i: nat :: WikiSegmentAt(s, i) {
      var i: nat :| WikiSegmentAt(s, i);
      assert WikiSegmentAt(s[1..], i - 1);
    }
  }

  /** `.replace(/_/g, ' ')`. */
  function UnderscoresToSpaces(s: string): (r: string)
    ensures |r| == |s|
    ensures forall k :: 0 <= k < |s| ==> r[k] == if s[k] == '_' then ' ' else s[k]
  {
    if s == [] then [] else [if s[0] == '_' then ' ' else s[0]] + UnderscoresToSpaces(s[1..])
  }

  const UnknownArticle := "Unknown Article"

  /** `getTitleFromUrl(url)`; `decode` stands for `decodeURIComponent`. The
      title is the fallback whenever no `/wiki/` segment is present, and
      otherwise the decoded segment with each underscore turned into a space,
      so it has no underscores. */
  function TitleFromUrl(url: Url, decode: string -> string): (t: string)
    ensures (forall i: nat :: !WikiSegmentAt(url, i)) ==> t == UnknownArticle
    ensures (exists i: nat :: WikiSegmentAt(url, i)) ==> '_' !in t
    ensures WikiCapture(url).None? ==> t == UnknownArticle
    ensures WikiCapture(url).Some? ==> t == UnderscoresToSpaces(decode(WikiCapture(url).value))
  {
    match WikiCapture(url)
    case Some(segment) =>
      var t := UnderscoresToSpaces(decode(segment));
      assert forall k :: 0 <= k < |t| ==> t[k] != '_';
      t
    case None => UnknownArticle
  }
}
