/** `displaySidebar(url, allLinksOnPage)`: the four lists the sidebar shows,
    computed from the stored `articles` and `links` maps and the links found
    on the current page. */
module Sidebar {
  import opened Seqs
  import opened AssocList
  import opened Graph
  import opened Background
  import opened StableSort
  import opened WikiText
  import opened Capture

  // ---------------------------------------------------------------------
  // Explore next

  /** `allLinksOnPage.filter(link => !articles[link.url])`. */
  function UnreadPageLinks(articles: Articles, ls: seq<PageLink>): seq<PageLink>
  {
    if ls == [] then []
    else
      var l := ls[|ls| - 1];
      UnreadPageLinks(articles, ls[..|ls| - 1]) + if IsRead(articles, l.url) then [] else [l]
  }

  /** The first three unread links of the page, in page order. */
  function ExploreNext(articles: Articles, ls: seq<PageLink>): (r: seq<PageLink>)
    ensures |r| == if |UnreadPageLinks(articles, ls)| < 3 then |UnreadPageLinks(articles, ls)| else 3
    ensures r == UnreadPageLinks(articles, ls)[..|r|]
  {
    Take(UnreadPageLinks(articles, ls), 3)
  }

  lemma {:induction false} UnreadPageLinksMembers(articles: Articles, ls: seq<PageLink>, l: PageLink)
    ensures l in UnreadPageLinks(articles, ls) <==> l in ls && !IsRead(articles, l.url)
  {
    if ls != [] {
      UnreadPageLinksMembers(articles, ls[..|ls| - 1], l);
      assert ls == ls[..|ls| - 1] + [ls[|ls| - 1]];
    }
  }

  lemma {:induction false} UnreadPageLinksOrder(articles: Articles, ls: seq<PageLink>)
    ensures IsSubsequence(UnreadPageLinks(articles, ls), ls)
  {
    if ls != [] {
      var init, l := ls[..|ls| - 1], ls[|ls| - 1];
      var u := UnreadPageLinks(articles, init);
      UnreadPageLinksOrder(articles, init);
      assert ls == init + [l];
      if IsRead(articles, l.url) {
        assert UnreadPageLinks(articles, ls) == u;
        SubsequenceExtend(u, init, l);
      } else {
        assert UnreadPageLinks(articles, ls) == u + [l];
        assert (u + [l])[..|u|] == u;
      }
    }
  }

  /** "Explore next" lists only unread links of the page, in page order,
      as many as there are up to three, and is empty exactly when every link
      on the page has been read (the "All links read!" case). */
  lemma ExploreNextSpec(articles: Articles, ls: seq<PageLink>)
    ensures var r := ExploreNext(articles, ls);
      && (forall l :: l in r ==> l in ls && !IsRead(articles, l.url))
      && IsSubsequence(r, ls)
      && |r| == (if |UnreadPageLinks(articles, ls)| < 3 then |UnreadPageLinks(articles, ls)| else 3)
      && (r == [] <==> forall l :: l in ls ==> IsRead(articles, l.url))
  {
    var u, r := UnreadPageLinks(articles, ls), ExploreNext(articles, ls);
    forall l | l in r ensures l in ls && !IsRead(articles, l.url) {
      UnreadPageLinksMembers(articles, ls, l);
    }
    UnreadPageLinksOrder(articles, ls);
    SubsequencePrefix(u, ls, |r|);
    if r == [] {
      forall l | l in ls ensures IsRead(articles, l.url) {
        UnreadPageLinksMembers(articles, ls, l);
      }
    } else {
      UnreadPageLinksMembers(articles, ls, r[0]);
    }
  }

  // ---------------------------------------------------------------------
  // Referenced in

  /** An entry of `incomingLinks`. */
  datatype Referrer = Referrer(url: Url, title: string, timestamp: int)

  /** `lastVisit || timestamp`. */
  function VisitTime(rec: ArticleRecord): (t: int)
    ensures rec.lastVisit != 0 ==> t == rec.lastVisit
    ensures rec.lastVisit == 0 ==> t == rec.timestamp
  {
    if rec.lastVisit != 0 then rec.lastVisit else rec.timestamp
  }

  /** The referrer built for a stored page `u` with a record. */
  function ReferrerOf(articles: Articles, u: Url): Referrer
    requires IsRead(articles, u)
  {
    var rec := Lookup(articles, u).value;
    Referrer(u, rec.title, VisitTime(rec))
  }

  /** The stored entry `(u, ls)` names a read page that links to `url`. */
  predicate Refers(articles: Articles, e: (Url, seq<Url>), url: Url)
  {
    IsRead(articles, e.0) && url in e.1
  }

  /** `incomingLinks` before sorting: the read pages whose stored list
      contains `url`, in storage order. */
  function Referrers(articles: Articles, entries: LinkIndex, url: Url): seq<Referrer>
  {
    if entries == [] then []
    else
      var e := entries[|entries| - 1];
      Referrers(articles, entries[..|entries| - 1], url)
        + if Refers(articles, e, url) then [ReferrerOf(articles, e.0)] else []
  }

  /** The sort key of `(a, b) => b.timestamp - a.timestamp`. */
  function ByTime(r: Referrer): int
  {
    r.timestamp
  }

  /** The loop over `Object.entries(allLinks)` that fills `incomingLinks`,
      followed by its sort, most recently visited first. */
  method CollectIncoming(articles: Articles, allLinks: LinkIndex, url: Url) returns (incoming: seq<Referrer>)
    ensures incoming == SortDesc(Referrers(articles, allLinks, url), ByTime)
    ensures SortedDesc(incoming, ByTime)
    ensures multiset(incoming) == multiset(Referrers(articles, allLinks, url))
  {
    incoming := [];
    for i := 0 to |allLinks|
      invariant incoming == Referrers(articles, allLinks[..i], url)
    {
      assert allLinks[..i + 1][..i] == allLinks[..i];
      var (articleUrl, links) := allLinks[i];
      if IsRead(articles, articleUrl) && url in links {
        var rec := Lookup(articles, articleUrl).value;
        incoming := incoming + [Referrer(articleUrl, rec.title, VisitTime(rec))];
      }
    }
    assert allLinks[..|allLinks|] == allLinks;
    SortDescSorted(incoming, ByTime);
    SortDescPermutes(incoming, ByTime);
    incoming := SortDesc(incoming, ByTime);
  }

  /** Every referrer is a read page whose stored list contains `url`, and
      carries that page's title and visit time. */
  lemma {:induction false} ReferrersSound(articles: Articles, allLinks: LinkIndex, url: Url, r: Referrer)
    requires Distinct(Keys(allLinks))
    requires r in Referrers(articles, allLinks, url)
    ensures IsRead(articles, r.url) && url in LinksOf(allLinks, r.url)
    ensures r == ReferrerOf(articles, r.url)
  {
    var n := |allLinks|;
    var init, e := allLinks[..n - 1], allLinks[n - 1];
    assert Keys(init) == Keys(allLinks)[..n - 1] by { KeysPrefix(allLinks, n - 1); }
    if r in Referrers(articles, init, url) {
      ReferrersSound(articles, init, url, r);
      assert Lookup(allLinks, r.url) == Lookup(init, r.url) by {
        LookupPrefix(allLinks, n - 1, r.url);
      }
    } else {
      LookupAt(allLinks, n - 1);
    }
  }

  /** Every read page whose stored list contains `url` is a referrer. */
  lemma {:induction false} ReferrersComplete(articles: Articles, allLinks: LinkIndex, url: Url, u: Url)
    requires Distinct(Keys(allLinks))
    requires IsRead(articles, u) && u in Keys(allLinks) && url in LinksOf(allLinks, u)
    ensures ReferrerOf(articles, u) in Referrers(articles, allLinks, url)
  {
    var n := |allLinks|;
    var init, e := allLinks[..n - 1], allLinks[n - 1];
    assert Keys(init) == Keys(allLinks)[..n - 1] by { KeysPrefix(allLinks, n - 1); }
    if u == e.0 {
      LookupAt(allLinks, n - 1);
    } else {
      assert Keys(allLinks)[n - 1] == e.0 by { KeysAt(allLinks, n - 1); }
      assert Keys(allLinks) == Keys(init) + [e.0];
      assert u in Keys(init);
      LookupPrefix(allLinks, n - 1, u);
      ReferrersComplete(articles, init, url, u);
    }
  }

  /** "Referenced in" is ordered most recent first, and pages visited at the
      same time keep their storage order. */
  lemma IncomingOrder(articles: Articles, allLinks: LinkIndex, url: Url, t: int)
    ensures var s := SortDesc(Referrers(articles, allLinks, url), ByTime);
      && SortedDesc(s, ByTime)
      && WithKey(s, ByTime, t) == WithKey(Referrers(articles, allLinks, url), ByTime, t)
  {
    SortDescSorted(Referrers(articles, allLinks, url), ByTime);
    SortDescStable(Referrers(articles, allLinks, url), ByTime, t);
  }

  // ---------------------------------------------------------------------
  // Suggested

  /** The unread targets counted by the nested loops, in visiting order:
      for each stored page that has been read, its unread links. */
  function Targets(articles: Articles, entries: LinkIndex): seq<Url>
  {
    if entries == [] then []
    else
      var e := entries[|entries| - 1];
      Targets(articles, entries[..|entries| - 1]) + if IsRead(articles, e.0) then UnreadIn(articles, e.1) else []
  }

  /** `linkCounts[link] || 0`. */
  function CountIn(counts: Assoc<int>, u: Url): int
  {
    match Lookup(counts, u)
    case Some(c) => c
    case None => 0
  }

  /** `linkCounts[link] = (linkCounts[link] || 0) + 1`. */
  function Increment(m: Assoc<int>, x: Url): (r: Assoc<int>)
    ensures Lookup(r, x) == Some(CountIn(m, x) + 1)
    ensures forall u :: u != x ==> Lookup(r, u) == Lookup(m, u)
    ensures Keys(r) == if x in Keys(m) then Keys(m) else Keys(m) + [x]
  {
    Put<int>(m, x, CountIn(m, x) + 1)
  }

  /** The counts `m` after counting every element of `t` on top of them,
      one at a time. */
  function CountInto(m: Assoc<int>, t: seq<Url>): Assoc<int>
  {
    if t == [] then m else Increment(CountInto(m, t[..|t| - 1]), t[|t| - 1])
  }

  /** `linkCounts` after counting every element of `t`, starting from `{}`. */
  function Tally(t: seq<Url>): Assoc<int>
  {
    CountInto([], t)
  }

  /** Counting `b` on top of the counts of `a` gives the counts of `a + b`. */
  lemma {:induction false} CountIntoAppend(a: seq<Url>, b: seq<Url>)
    ensures CountInto(Tally(a), b) == Tally(a + b)
  {
    if b == [] {
      assert a + b == a;
    } else {
      var b', x := b[..|b| - 1], b[|b| - 1];
      CountIntoAppend(a, b');
      assert (a + b)[..|a + b| - 1] == a + b' && (a + b)[|a + b| - 1] == x;
    }
  }

  /** Counting one more element increments its count. */
  lemma CountIntoSnoc(m: Assoc<int>, t: seq<Url>, x: Url)
    ensures CountInto(m, t + [x]) == Increment(CountInto(m, t), x)
  {
    var s := t + [x];
    assert s[..|s| - 1] == t && s[|s| - 1] == x;
  }

  /** One more stored entry adds its unread links when its page is read. */
  lemma TargetsStep(articles: Articles, allLinks: LinkIndex, i: nat)
    requires i < |allLinks|
    ensures Targets(articles, allLinks[..i + 1])
      == Targets(articles, allLinks[..i]) + if IsRead(articles, allLinks[i].0) then UnreadIn(articles, allLinks[i].1) else []
  {
    assert allLinks[..i + 1][..i] == allLinks[..i];
  }

  /** The unread filter over one more link. */
  lemma UnreadInStep(articles: Articles, links: seq<Url>, j: nat)
    requires j < |links|
    ensures UnreadIn(articles, links[..j + 1])
      == UnreadIn(articles, links[..j]) + if IsRead(articles, links[j]) then [] else [links[j]]
  {
    var p := links[..j + 1];
    assert p[..|p| - 1] == links[..j] && p[|p| - 1] == links[j];
  }

  /** The inner `links.forEach`: counts the unread links of one read page on
      top of the counts `linkCounts0`, one at a time, in list order. */
  method CountUnreadLinks(articles: Articles, links: seq<Url>, linkCounts0: Assoc<int>)
    returns (linkCounts: Assoc<int>)
    ensures linkCounts == CountInto(linkCounts0, UnreadIn(articles, links))
  {
    linkCounts := linkCounts0;
    assert links[..0] == [];
    for j := 0 to |links|
      invariant linkCounts == CountInto(linkCounts0, UnreadIn(articles, links[..j]))
    {
      CountStep(articles, links, j, linkCounts0);
      var link := links[j];
      if !IsRead(articles, link) {
        linkCounts := Increment(linkCounts, link);
      }
    }
    assert links[..|links|] == links;
  }

  /** Counting one more link of a read page: an unread link adds one to its
      count, a read one changes nothing. */
  lemma CountStep(articles: Articles, links: seq<Url>, j: nat, m: Assoc<int>)
    requires j < |links|
    ensures var c := CountInto(m, UnreadIn(articles, links[..j]));
      CountInto(m, UnreadIn(articles, links[..j + 1]))
        == if IsRead(articles, links[j]) then c else Increment(c, links[j])
  {
    UnreadInStep(articles, links, j);
    var seen := UnreadIn(articles, links[..j]);
    if IsRead(articles, links[j]) {
      assert seen + [] == seen;
    } else {
      CountIntoSnoc(m, seen, links[j]);
    }
  }

  /** The nested `forEach` loops that fill `linkCounts`. */
  method CountLinks(articles: Articles, allLinks: LinkIndex) returns (linkCounts: Assoc<int>)
    ensures linkCounts == Tally(Targets(articles, allLinks))
  {
    linkCounts := [];
    for i := 0 to |allLinks|
      invariant linkCounts == Tally(Targets(articles, allLinks[..i]))
    {
      var (articleUrl, links) := allLinks[i];
      TargetsStep(articles, allLinks, i);
      if IsRead(articles, articleUrl) {
        linkCounts := CountUnreadLinks(articles, links, linkCounts);
        CountIntoAppend(Targets(articles, allLinks[..i]), UnreadIn(articles, links));
      } else {
        assert Targets(articles, allLinks[..i]) + [] == Targets(articles, allLinks[..i]);
      }
    }
    assert allLinks[..|allLinks|] == allLinks;
  }

  /** Counting visits keys in first-occurrence order and records, for each
      key, how often it occurs. */
  lemma {:induction false} TallyKeys(t: seq<Url>)
    ensures Keys(Tally(t)) == Dedup(t)
  {
    if t != [] {
      var init := t[..|t| - 1];
      TallyKeys(init);
      DedupMembers(init, t[|t| - 1]);
    }
  }

  lemma {:induction false} TallyLookup(t: seq<Url>, u: Url)
    ensures Lookup(Tally(t), u) == if u in t then Some(Count(t, u)) else None
  {
    if t != [] {
      var init, x := t[..|t| - 1], t[|t| - 1];
      TallyLookup(init, u);
      CountedOneMore(Tally(init), init, x, u);
      assert t == init + [x];
    }
  }

  /** If `m` holds the counts of `init`, incrementing `x` gives the counts
      of `init + [x]`, as seen from any address `u`. */
  lemma CountedOneMore(m: Assoc<int>, init: seq<Url>, x: Url, u: Url)
    requires Lookup(m, u) == if u in init then Some(Count(init, u)) else None
    ensures Lookup(Increment(m, x), u) == if u in init + [x] then Some(Count(init + [x], u)) else None
  {
    CountSnoc(init, x, u);
    if u == x {
      CountPositive(init, x);
      assert Lookup(Increment(m, x), u) == Some(CountIn(m, x) + 1);
    } else {
      assert Lookup(Increment(m, x), u) == Lookup(m, u);
    }
  }

  /** Only pages not yet read are counted. */
  lemma {:induction false} TargetsUnread(articles: Articles, entries: LinkIndex, u: Url)
    requires u in Targets(articles, entries)
    ensures !IsRead(articles, u)
  {
    var init, e := entries[..|entries| - 1], entries[|entries| - 1];
    if u in Targets(articles, init) {
      TargetsUnread(articles, init, u);
    } else {
      FilterMembers(articles, e.1, u);
    }
  }

  /** When stored lists have no repeats, the count of an unread page is the
      number of read pages linking to it: exactly its "Referenced in" list
      if it were opened. */
  lemma {:induction false} CountIsReferrers(articles: Articles, entries: LinkIndex, url: Url)
    requires ListsDistinct(entries) && !IsRead(articles, url)
    ensures Count(Targets(articles, entries), url) == |Referrers(articles, entries, url)|
  {
    if entries != [] {
      var init, e := entries[..|entries| - 1], entries[|entries| - 1];
      assert ListsDistinct(init) by {
        forall i | 0 <= i < |init| ensures Distinct(init[i].1) {
          assert init[i] == entries[i];
        }
      }
      CountIsReferrers(articles, init, url);
      var added := if IsRead(articles, e.0) then UnreadIn(articles, e.1) else [];
      CountAppend(Targets(articles, init), added, url);
      if IsRead(articles, e.0) {
        FilterCounts(articles, e.1, url);
        CountDistinct(e.1, url);
      }
    }
  }

  /** An entry of `suggestedFromNetwork`. */
  datatype Suggestion = Suggestion(url: Url, title: string, count: int)

  /** The sort key of `(a, b) => b[1] - a[1]`. */
  function ByCount(e: (Url, int)): int
  {
    e.1
  }

  /** The three most counted entries of `linkCounts`, ties in insertion
      order, with titles derived from their addresses. */
  function Suggestions(linkCounts: Assoc<int>, decode: string -> string): (r: seq<Suggestion>)
    ensures |r| <= 3 && |r| <= |linkCounts|
    ensures forall i :: 0 <= i < |r| ==> r[i].title == TitleFromUrl(r[i].url, decode)
  {
    var top := Take(SortDesc(linkCounts, ByCount), 3);
    seq(|top|, i requires 0 <= i < |top| => Suggestion(top[i].0, TitleFromUrl(top[i].0, decode), top[i].1))
  }

  /** What "Suggested" shows for the stored graph: unread pages only, each
      with the number of times read pages link to it, most linked first; and
      any counted page left out is linked no more often than each shown
      one. */
  lemma SuggestionsSpec(articles: Articles, allLinks: LinkIndex, decode: string -> string)
    ensures var t := Targets(articles, allLinks);
      var r := Suggestions(Tally(t), decode);
      && (forall i :: 0 <= i < |r| ==> r[i].url in t && !IsRead(articles, r[i].url) && r[i].count == Count(t, r[i].url) >= 1)
      && (forall i, j :: 0 <= i < j < |r| ==> r[i].count >= r[j].count)
      && |r| == (if |Dedup(t)| < 3 then |Dedup(t)| else 3)
  {
    var t := Targets(articles, allLinks);
    var m := Tally(t);
    var r := Suggestions(m, decode);
    TallyKeys(t);
    SortDescSorted(m, ByCount);
    forall i | 0 <= i < |r| ensures r[i].url in t && !IsRead(articles, r[i].url) && r[i].count == Count(t, r[i].url) >= 1 {
      SuggestionAt(articles, allLinks, decode, i);
    }
  }

  /** The `i`-th suggestion is an unread target with its own count. */
  lemma SuggestionAt(articles: Articles, allLinks: LinkIndex, decode: string -> string, i: nat)
    requires i < |Suggestions(Tally(Targets(articles, allLinks)), decode)|
    ensures var t := Targets(articles, allLinks);
      var r := Suggestions(Tally(t), decode);
      r[i].url in t && !IsRead(articles, r[i].url) && r[i].count == Count(t, r[i].url) >= 1
  {
    var t := Targets(articles, allLinks);
    var m := Tally(t);
    var s := SortDesc(m, ByCount);
    var r := Suggestions(m, decode);
    assert r[i].url == s[i].0 && r[i].count == s[i].1;
    SortDescPermutes(m, ByCount);
    assert s[i] in multiset(m);
    var k :| 0 <= k < |m| && m[k] == s[i];
    EntryOfTally(t, k);
    TargetsUnread(articles, allLinks, r[i].url);
    CountPositive(t, r[i].url);
  }

  /** Each entry of the tally is a counted element with its number of
      occurrences. */
  lemma EntryOfTally(t: seq<Url>, k: nat)
    requires k < |Tally(t)|
    ensures Tally(t)[k].0 in t && Tally(t)[k].1 == Count(t, Tally(t)[k].0)
  {
    var m := Tally(t);
    TallyKeys(t);
    DedupDistinct(t);
    KeysAt(m, k);
    DedupMembers(t, m[k].0);
    LookupAt(m, k);
    TallyLookup(t, m[k].0);
  }

  /** Top three over any counts: an entry that is not suggested counts no
      more than every suggestion, and then three are shown. */
  lemma {:induction false} SuggestionsTopOf(m: Assoc<int>, decode: string -> string, k: nat)
    requires k < |m|
    ensures var r := Suggestions(m, decode);
      (forall i :: 0 <= i < |r| ==> r[i].url != m[k].0) ==>
        |r| == 3 && forall i :: 0 <= i < |r| ==> r[i].count >= m[k].1
  {
    var s := SortDesc(m, ByCount);
    var r := Suggestions(m, decode);
    assert m[k] in multiset(s) by {
      SortDescPermutes(m, ByCount);
      assert m[k] in multiset(m);
    }
    var j :| 0 <= j < |s| && s[j] == m[k];
    SortDescSorted(m, ByCount);
    if j < |r| {
      assert r[j].url == m[k].0;
    } else {
      assert |r| == 3;
      forall i | 0 <= i < |r| ensures r[i].count >= m[k].1 {
        assert r[i].count == s[i].1 && ByCount(s[i]) >= ByCount(s[j]);
      }
    }
  }

  /** Top three for the stored graph: a counted page that is not suggested
      is linked no more often than every suggestion, and then three are
      shown. */
  lemma SuggestionsTop(articles: Articles, allLinks: LinkIndex, decode: string -> string, u: Url)
    requires u in Targets(articles, allLinks)
    ensures var t := Targets(articles, allLinks);
      var r := Suggestions(Tally(t), decode);
      (forall i :: 0 <= i < |r| ==> r[i].url != u) ==>
        |r| == 3 && forall i :: 0 <= i < |r| ==> r[i].count >= Count(t, u)
  {
    var t := Targets(articles, allLinks);
    var m := Tally(t);
    TallyKeys(t);
    DedupMembers(t, u);
    var k :| 0 <= k < |m| && Keys(m)[k] == u;
    KeysAt(m, k);
    EntryOfTally(t, k);
    SuggestionsTopOf(m, decode, k);
  }

  /** Ties: entries with the same count keep the order in which their
      addresses were first counted. */
  lemma SuggestionsTies(articles: Articles, allLinks: LinkIndex, c: int)
    ensures var m := Tally(Targets(articles, allLinks));
      && Keys(m) == Dedup(Targets(articles, allLinks))
      && WithKey(SortDesc(m, ByCount), ByCount, c) == WithKey(m, ByCount, c)
  {
    var m := Tally(Targets(articles, allLinks));
    TallyKeys(Targets(articles, allLinks));
    SortDescStable(m, ByCount, c);
  }

  // ---------------------------------------------------------------------
  // Visit number

  /** `articleData ? (articleData.visitCount || 1) : 1`. */
  function DisplayedVisitCount(articles: Articles, url: Url): (n: int)
    ensures !IsRead(articles, url) ==> n == 1
    ensures IsRead(articles, url) && Lookup(articles, url).value.visitCount != 0 ==> n == Lookup(articles, url).value.visitCount
    ensures IsRead(articles, url) && Lookup(articles, url).value.visitCount == 0 ==> n == 1
  {
    match Lookup(articles, url)
    case None => 1
    case Some(rec) => if rec.visitCount != 0 then rec.visitCount else 1
  }

  /** After a page has been saved N times, starting unread, the sidebar
      numbers the visit N. */
  lemma VisitNumberAfterSaves(articles: Articles, links: LinkIndex, ds: seq<ArticleData>)
    requires |ds| > 0
    requires forall i :: 0 <= i < |ds| ==> ds[i].url == ds[0].url
    requires !IsRead(articles, ds[0].url)
    ensures DisplayedVisitCount(SaveAll(articles, links, ds).0, ds[0].url) == |ds|
  {
    RepeatedSaves(articles, links, ds);
  }

  // ---------------------------------------------------------------------
  // The whole sidebar

  /** In a consistent store, the sorted "Referenced in" list holds exactly
      the read pages whose stored list contains `url`. */
  lemma ReferrersInView(articles: Articles, allLinks: LinkIndex, url: Url, incoming: seq<Referrer>)
    requires Consistent(articles, allLinks)
    requires incoming == SortDesc(Referrers(articles, allLinks, url), ByTime)
    ensures forall r :: r in incoming ==>
      IsRead(articles, r.url) && url in LinksOf(allLinks, r.url) && r == ReferrerOf(articles, r.url)
    ensures forall u :: IsRead(articles, u) && url in LinksOf(allLinks, u) ==> ReferrerOf(articles, u) in incoming
  {
    var found := Referrers(articles, allLinks, url);
    SortDescPermutes(found, ByTime);
    forall r | r in incoming
      ensures IsRead(articles, r.url) && url in LinksOf(allLinks, r.url) && r == ReferrerOf(articles, r.url)
    {
      assert r in multiset(found);
      ReferrersSound(articles, allLinks, url, r);
    }
    forall u | IsRead(articles, u) && url in LinksOf(allLinks, u) ensures ReferrerOf(articles, u) in incoming {
      assert u in Keys(allLinks);
      ReferrersComplete(articles, allLinks, url, u);
      assert ReferrerOf(articles, u) in multiset(incoming);
    }
  }

  /** The arguments of `createSidebar`. */
  datatype SidebarView = SidebarView(
    stats: Stats,
    visitCount: int,
    unreadLinks: seq<PageLink>,
    incomingLinks: seq<Referrer>,
    suggested: seq<Suggestion>)

  /** `displaySidebar(url, allLinksOnPage)`: asks for the progress of `url`,
      reads the store, and computes what the sidebar shows. The store is not
      changed. `decode` stands for `decodeURIComponent`. The "Referenced in"
      list holds exactly the read pages whose stored list contains `url`. */
  method DisplaySidebar(store: LocalStorage, url: Url, allLinksOnPage: seq<PageLink>, storageOk: bool,
                        decode: string -> string)
    returns (view: SidebarView)
    requires store.Valid()
    ensures forall r :: r in view.incomingLinks ==>
      IsRead(store.articles, r.url) && url in LinksOf(store.links, r.url) && r == ReferrerOf(store.articles, r.url)
    ensures forall u :: IsRead(store.articles, u) && url in LinksOf(store.links, u) ==>
      ReferrerOf(store.articles, u) in view.incomingLinks
    ensures storageOk ==> view.stats == StatsOf(store.articles, store.links, url)
    ensures !storageOk ==> view.stats == NoStats
    ensures view.visitCount == DisplayedVisitCount(store.articles, url)
    ensures view.unreadLinks == ExploreNext(store.articles, allLinksOnPage)
    ensures view.incomingLinks == SortDesc(Referrers(store.articles, store.links, url), ByTime)
    ensures view.suggested == Suggestions(Tally(Targets(store.articles, store.links)), decode)
  {
    var stats := store.GetArticleStats(url, storageOk);
    var articles, allLinks := store.articles, store.links;
    var unreadLinks := Take(UnreadPageLinks(articles, allLinksOnPage), 3);
    var incomingLinks := CollectIncoming(articles, allLinks, url);
    var linkCounts := CountLinks(articles, allLinks);
    var suggested := Suggestions(linkCounts, decode);
    var visitCount := DisplayedVisitCount(articles, url);
    ReferrersInView(articles, allLinks, url, incomingLinks);
    view := SidebarView(stats, visitCount, unreadLinks, incomingLinks, suggested);
  }
}
