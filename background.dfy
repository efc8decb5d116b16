/** The background worker: the save handler that merges one reading
    observation into the stored graph, and the progress query over it. */
module Background {
  import opened Seqs
  import opened AssocList
  import opened Graph
  import opened IntArith

  /** The payload of a save request: the page, its heading, the addresses of
      its outbound links in page order, and the time of the save. */
  datatype ArticleData = ArticleData(url: Url, title: string, links: seq<Url>, timestamp: int)

  /** `(visitCount || 1) + 1`: a missing (zero) count reads as one visit. */
  function NextVisitCount(visitCount: int): (n: int)
    ensures visitCount != 0 ==> n == visitCount + 1
    ensures visitCount == 0 ==> n == 2
    ensures visitCount >= 1 ==> n >= 2
  {
    (if visitCount == 0 then 1 else visitCount) + 1
  }

  /** The record for `d.url` after the save, given the one stored before. */
  function Visited(existing: Option<ArticleRecord>, d: ArticleData): (r: ArticleRecord)
    ensures r.lastVisit == d.timestamp && r.linkCount == |d.links|
    ensures existing.None? ==> r.title == d.title && r.timestamp == d.timestamp && r.visitCount == 1
    ensures existing.Some? ==>
      && r.title == existing.value.title
      && r.timestamp == existing.value.timestamp
      && r.visitCount == NextVisitCount(existing.value.visitCount)
  {
    match existing
    case None =>
      ArticleRecord(title := d.title, timestamp := d.timestamp, lastVisit := d.timestamp,
                    visitCount := 1, linkCount := |d.links|)
    case Some(rec) =>
      rec.(visitCount := NextVisitCount(rec.visitCount), lastVisit := d.timestamp, linkCount := |d.links|)
  }

  /** `articles` after a successful save of `d`. */
  function SavedArticles(articles: Articles, d: ArticleData): (r: Articles)
    ensures Lookup(r, d.url) == Some(Visited(Lookup(articles, d.url), d))
    ensures forall u :: u != d.url ==> Lookup(r, u) == Lookup(articles, u)
    ensures Keys(r) == if IsRead(articles, d.url) then Keys(articles) else Keys(articles) + [d.url]
  {
    Put(articles, d.url, Visited(Lookup(articles, d.url), d))
  }

  /** `links` after a successful save of `d`: the page's list is replaced. */
  function SavedLinks(links: LinkIndex, d: ArticleData): (r: LinkIndex)
    ensures LinksOf(r, d.url) == d.links
    ensures forall u :: u != d.url ==> Lookup(r, u) == Lookup(links, u)
    ensures Keys(r) == if d.url in Keys(links) then Keys(links) else Keys(links) + [d.url]
  {
    Put(links, d.url, d.links)
  }

  /** A save keeps the two maps consistent with each other. */
  lemma SavePreservesConsistent(articles: Articles, links: LinkIndex, d: ArticleData)
    requires Consistent(articles, links)
    ensures Consistent(SavedArticles(articles, d), SavedLinks(links, d))
  {
    var a, l := SavedArticles(articles, d), SavedLinks(links, d);
    assert IsRead(articles, d.url) <==> d.url in Keys(links);
    PutDistinct(articles, d.url, Visited(Lookup(articles, d.url), d));
    forall u | Lookup(a, u).Some?
      ensures Lookup(a, u).value.visitCount >= 1
      ensures Lookup(a, u).value.linkCount == |LinksOf(l, u)|
    {
      if u != d.url {
        assert Lookup(a, u) == Lookup(articles, u);
        assert LinksOf(l, u) == LinksOf(links, u);
      }
    }
  }

  /** The stores after a series of successful saves, in order. */
  function SaveAll(articles: Articles, links: LinkIndex, ds: seq<ArticleData>): (Articles, LinkIndex)
  {
    if ds == [] then (articles, links)
    else
      var (a, l) := SaveAll(articles, links, ds[..|ds| - 1]);
      (SavedArticles(a, ds[|ds| - 1]), SavedLinks(l, ds[|ds| - 1]))
  }

  /** N saves of a page not read before leave a record with N visits, the
      first save's title and time, and the last save's time and link count. */
  lemma {:induction false} RepeatedSaves(articles: Articles, links: LinkIndex, ds: seq<ArticleData>)
    requires |ds| > 0
    requires forall i :: 0 <= i < |ds| ==> ds[i].url == ds[0].url
    requires !IsRead(articles, ds[0].url)
    ensures var rec := Lookup(SaveAll(articles, links, ds).0, ds[0].url);
      && rec.Some?
      && rec.value.visitCount == |ds|
      && rec.value.title == ds[0].title
      && rec.value.timestamp == ds[0].timestamp
      && rec.value.lastVisit == ds[|ds| - 1].timestamp
      && rec.value.linkCount == |ds[|ds| - 1].links|
    ensures LinksOf(SaveAll(articles, links, ds).1, ds[0].url) == ds[|ds| - 1].links
  {
    if |ds| > 1 {
      RepeatedSaves(articles, links, ds[..|ds| - 1]);
    }
  }

  /** The result of the progress query. */
  datatype Stats = Stats(totalLinks: nat, readLinks: nat, percentage: int, unreadLinks: seq<Url>)

  /** `ls.filter(u => articles[u])`. */
  function ReadIn(articles: Articles, ls: seq<Url>): seq<Url>
  {
    if ls == [] then []
    else ReadIn(articles, ls[..|ls| - 1]) + (if IsRead(articles, ls[|ls| - 1]) then [ls[|ls| - 1]] else [])
  }

  /** `ls.filter(u => !articles[u])`. */
  function UnreadIn(articles: Articles, ls: seq<Url>): seq<Url>
  {
    if ls == [] then []
    else UnreadIn(articles, ls[..|ls| - 1]) + (if IsRead(articles, ls[|ls| - 1]) then [] else [ls[|ls| - 1]])
  }

  /** The two filters split a link list: together they keep every entry. */
  lemma {:induction false} FilterLengths(articles: Articles, ls: seq<Url>)
    ensures |ReadIn(articles, ls)| + |UnreadIn(articles, ls)| == |ls|
  {
    if ls != [] {
      FilterLengths(articles, ls[..|ls| - 1]);
    }
  }

  /** Each filter keeps the list's order. */
  lemma FilterOrder(articles: Articles, ls: seq<Url>)
    ensures IsSubsequence(ReadIn(articles, ls), ls)
    ensures IsSubsequence(UnreadIn(articles, ls), ls)
  {
    ReadInOrder(articles, ls);
    UnreadInOrder(articles, ls);
  }

  lemma {:induction false} ReadInOrder(articles: Articles, ls: seq<Url>)
    ensures IsSubsequence(ReadIn(articles, ls), ls)
  {
    if ls != [] {
      var init, last := ls[..|ls| - 1], ls[|ls| - 1];
      ReadInOrder(articles, init);
      var r := ReadIn(articles, init);
      assert ls == init + [last];
      if IsRead(articles, last) {
        assert ReadIn(articles, ls) == r + [last];
        assert (r + [last])[..|r|] == r;
        assert ls[..|ls| - 1] == init;
      } else {
        assert ReadIn(articles, ls) == r;
        SubsequenceExtend(r, init, last);
      }
    }
  }

  lemma {:induction false} UnreadInOrder(articles: Articles, ls: seq<Url>)
    ensures IsSubsequence(UnreadIn(articles, ls), ls)
  {
    if ls != [] {
      var init, last := ls[..|ls| - 1], ls[|ls| - 1];
      UnreadInOrder(articles, init);
      var n := UnreadIn(articles, init);
      assert ls == init + [last];
      if IsRead(articles, last) {
        assert UnreadIn(articles, ls) == n;
        SubsequenceExtend(n, init, last);
      } else {
        assert UnreadIn(articles, ls) == n + [last];
        assert (n + [last])[..|n|] == n;
        assert ls[..|ls| - 1] == init;
      }
    }
  }

  /** An address is kept by the read filter exactly when it is on the list
      and read, and by the unread filter exactly when it is on the list and
      unread. */
  lemma {:induction false} FilterMembers(articles: Articles, ls: seq<Url>, u: Url)
    ensures u in ReadIn(articles, ls) <==> u in ls && IsRead(articles, u)
    ensures u in UnreadIn(articles, ls) <==> u in ls && !IsRead(articles, u)
  {
    if ls != [] {
      FilterMembers(articles, ls[..|ls| - 1], u);
      assert ls == ls[..|ls| - 1] + [ls[|ls| - 1]];
    }
  }

  /** Each filter keeps every occurrence on its side of the read/unread line. */
  lemma {:induction false} FilterCounts(articles: Articles, ls: seq<Url>, u: Url)
    ensures IsRead(articles, u) ==> Count(ReadIn(articles, ls), u) == Count(ls, u)
    ensures !IsRead(articles, u) ==> Count(UnreadIn(articles, ls), u) == Count(ls, u)
  {
    if ls != [] {
      var init, last := ls[..|ls| - 1], ls[|ls| - 1];
      FilterCounts(articles, init, u);
      var r, n := ReadIn(articles, init), UnreadIn(articles, init);
      if IsRead(articles, last) {
        assert ReadIn(articles, ls) == r + [last] && UnreadIn(articles, ls) == n;
        assert (r + [last])[..|r|] == r;
      } else {
        assert UnreadIn(articles, ls) == n + [last] && ReadIn(articles, ls) == r;
        assert (n + [last])[..|n|] == n;
      }
    }
  }

  /** Round-half-up of `100 * read / total`: the nearest integer, ties up. */
  lemma PercentageRounds(read: nat, total: nat, p: int)
    requires 0 < total && p == (200 * read + total) / (2 * total)
    ensures 2 * total * p <= 200 * read + total < 2 * total * (p + 1)
    ensures read <= total ==> 0 <= p <= 100
    ensures read == total ==> p == 100
    ensures read == 0 ==> p == 0
  {
    var d, n := 2 * total, 200 * read + total;
    DivBracket(n, d, 0);
    DivBracket(n, d, 101);
    DivBracket(n, d, 100);
    DivBracket(n, d, 1);
  }

  /** `Math.round(read / total * 100)`, or 0 for an empty list, computed in
      integers as round-half-up. */
  function Percentage(read: nat, total: nat): (p: int)
    ensures total == 0 ==> p == 0
    ensures read <= total ==> 0 <= p <= 100
    ensures 0 < total && read == total ==> p == 100
    ensures read == 0 ==> p == 0
    ensures 0 < total ==> 2 * total * p <= 200 * read + total < 2 * total * (p + 1)
  {
    if total > 0 then
      var p := (200 * read + total) / (2 * total);
      PercentageRounds(read, total, p);
      p
    else 0
  }

  /** `getArticleStats(url)` over a loaded store. */
  function StatsOf(articles: Articles, links: LinkIndex, url: Url): (s: Stats)
    ensures s.totalLinks == |LinksOf(links, url)|
    ensures s.readLinks == |ReadIn(articles, LinksOf(links, url))|
    ensures s.percentage == Percentage(s.readLinks, s.totalLinks)
    ensures s.readLinks + |s.unreadLinks| == s.totalLinks
    ensures 0 <= s.percentage <= 100
    ensures s.totalLinks == 0 ==> s.percentage == 0
    ensures (forall u :: u in LinksOf(links, url) ==> IsRead(articles, u)) ==> s.readLinks == s.totalLinks
    ensures s.readLinks == s.totalLinks > 0 ==> s.percentage == 100
    ensures s.unreadLinks == UnreadIn(articles, LinksOf(links, url))
  {
    var ls := LinksOf(links, url);
    var readLinks := ReadIn(articles, ls);
    FilterLengths(articles, ls);
    assert (forall u :: u in ls ==> IsRead(articles, u)) ==> UnreadIn(articles, ls) == [] by {
      if UnreadIn(articles, ls) != [] {
        FilterMembers(articles, ls, UnreadIn(articles, ls)[0]);
      }
    }
    Stats(totalLinks := |ls|, readLinks := |readLinks|,
          percentage := Percentage(|readLinks|, |ls|),
          unreadLinks := UnreadIn(articles, ls))
  }

  /** The zero result returned when the store cannot be read. */
  const NoStats := Stats(0, 0, 0, [])

  /** The persisted store (`chrome.storage.local`, keys `articles` and
      `links`). A failed read or write is the flag `storageOk` being false. */
  class LocalStorage {
    var articles: Articles
    var links: LinkIndex

    ghost predicate Valid()
      reads this
    {
      Consistent(articles, links)
    }

    /** An empty store. */
    constructor ()
      ensures Valid() && articles == [] && links == []
    {
      articles, links := [], [];
    }

    /** `saveArticleData(data)`: load both maps, update or create the record,
        replace the link list, and write both maps back. A storage failure
        leaves the store as it was. */
    method SaveArticleData(data: ArticleData, storageOk: bool)
      modifies this
      ensures old(Valid()) ==> Valid()
      ensures storageOk ==> articles == SavedArticles(old(articles), data)
      ensures storageOk ==> links == SavedLinks(old(links), data)
      ensures !storageOk ==> articles == old(articles) && links == old(links)
    {
      if !storageOk {
        return;
      }
      var arts, allLinks := articles, links;
      var existing := Lookup(arts, data.url);
      if existing.Some? {
        var rec := existing.value;
        rec := rec.(visitCount := (if rec.visitCount == 0 then 1 else rec.visitCount) + 1);
        rec := rec.(lastVisit := data.timestamp);
        rec := rec.(linkCount := |data.links|);
        assert rec == Visited(existing, data);
        arts := Put(arts, data.url, rec);
      } else {
        arts := Put(arts, data.url, ArticleRecord(title := data.title, timestamp := data.timestamp,
                                                  lastVisit := data.timestamp, visitCount := 1,
                                                  linkCount := |data.links|));
      }
      assert arts == SavedArticles(articles, data);
      allLinks := Put(allLinks, data.url, data.links);
      if old(Valid()) {
        SavePreservesConsistent(articles, links, data);
      }
      articles, links := arts, allLinks;
    }

    /** `getArticleStats(url)`: reads the store and changes nothing; a failed
        read yields the zero result. */
    method GetArticleStats(url: Url, storageOk: bool) returns (s: Stats)
      ensures storageOk ==> s == StatsOf(articles, links, url)
      ensures !storageOk ==> s == NoStats
      ensures s.readLinks + |s.unreadLinks| == s.totalLinks && 0 <= s.percentage <= 100
      ensures s.percentage == Percentage(s.readLinks, s.totalLinks)
    {
      if !storageOk {
        return NoStats;
      }
      s := StatsOf(articles, links, url);
    }
  }
}
