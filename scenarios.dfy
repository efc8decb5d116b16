/** Worked examples of the stored graph: two saves of one page, a progress
    query, shared suggestions, and a re-scan that drops a link. */
module Scenarios {
  import opened Seqs
  import opened AssocList
  import opened Graph
  import opened Background
  import opened WikiText
  import opened Sidebar

  /** Saving page A twice, at 0 and at 1000, counts two visits. */
  lemma TwoVisits()
    ensures var ds := [ArticleData("A", "A", ["B", "C"], 0), ArticleData("A", "A", ["B", "C"], 1000)];
      var rec := Lookup(SaveAll([], [], ds).0, "A");
      rec.Some? && rec.value.visitCount == 2 && rec.value.lastVisit == 1000 && rec.value.linkCount == 2
  {
    var ds := [ArticleData("A", "A", ["B", "C"], 0), ArticleData("A", "A", ["B", "C"], 1000)];
    RepeatedSaves([], [], ds);
  }

  /** A links to B and C, and only B has been read: half of A's links. */
  lemma HalfRead()
    ensures var articles := [("A", ArticleRecord("A", 0, 0, 1, 2)), ("B", ArticleRecord("B", 1, 1, 1, 0))];
      var links := [("A", ["B", "C"]), ("B", [])];
      StatsOf(articles, links, "A") == Stats(2, 1, 50, ["C"])
  {
    var articles := [("A", ArticleRecord("A", 0, 0, 1, 2)), ("B", ArticleRecord("B", 1, 1, 1, 0))];
    var links: LinkIndex := [("A", ["B", "C"]), ("B", [])];
    var ls := LinksOf(links, "A");
    assert ls == ["B", "C"];
    assert IsRead(articles, "B") && !IsRead(articles, "C");
    assert ls[..1] == ["B"] && ls[..1][..0] == [];
    assert ReadIn(articles, ls) == ["B"];
    assert UnreadIn(articles, ls) == ["C"];
    assert Percentage(1, 2) == 50;
  }

  /** A and B are read and both link to the unread X: X is the only
      suggestion, counted twice. */
  lemma SharedTarget(decode: string -> string)
    ensures var articles := [("A", ArticleRecord("A", 0, 0, 1, 1)), ("B", ArticleRecord("B", 1, 1, 1, 1))];
      var links := [("A", ["X"]), ("B", ["X"])];
      var r := Suggestions(Tally(Targets(articles, links)), decode);
      |r| == 1 && r[0].url == "X" && r[0].count == 2
  {
    var articles := [("A", ArticleRecord("A", 0, 0, 1, 1)), ("B", ArticleRecord("B", 1, 1, 1, 1))];
    var links := [("A", ["X"]), ("B", ["X"])];
    assert !IsRead(articles, "X");
    assert UnreadIn(articles, ["X"]) == ["X"];
    assert links[..1] == [("A", ["X"])] && links[..1][..0] == [];
    assert Targets(articles, links[..1]) == ["X"];
    assert Targets(articles, links) == ["X", "X"];
    assert Tally(["X"]) == [("X", 1)];
    assert Tally(["X", "X"]) == [("X", 2)];
  }

  /** After a save, the progress of the saved page counts only the links
      of the latest scan: a link the new scan dropped is neither counted
      nor listed as unread. */
  lemma LatestScanOnly(articles: Articles, links: LinkIndex, d: ArticleData, dropped: Url)
    requires dropped !in d.links
    ensures var s := StatsOf(SavedArticles(articles, d), SavedLinks(links, d), d.url);
      s.totalLinks == |d.links| && dropped !in s.unreadLinks
  {
    FilterMembers(SavedArticles(articles, d), d.links, dropped);
  }
}
