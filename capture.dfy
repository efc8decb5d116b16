/** What the content script sends when it counts a page: the page heading
    and the save payload built from the extracted links, and why the stored
    link lists stay free of repeats. */
module Capture {
  import opened Seqs
  import opened AssocList
  import opened Graph
  import opened Background
  import opened WikiText

  /** `getArticleTitle()`: the trimmed text of the `#firstHeading` element,
      or "Unknown" when there is none. */
  function ArticleTitle(heading: Option<string>): (t: string)
    ensures heading.None? ==> t == "Unknown"
    ensures heading.Some? ==> t == Trim(heading.value)
    ensures heading.Some? && t != [] ==> !IsJsSpace(t[0]) && !IsJsSpace(t[|t| - 1])
  {
    match heading
    case None => "Unknown"
    case Some(text) => Trim(text)
  }

  /** The `saveArticle` message: the page's address and title, the
      addresses of its links in page order, and the clock reading. */
  function SaveMessage(url: Url, title: string, links: seq<PageLink>, now: int): (d: ArticleData)
    ensures d.url == url && d.title == title && d.timestamp == now
    ensures |d.links| == |links|
    ensures forall i :: 0 <= i < |links| ==> d.links[i] == links[i].url
  {
    ArticleData(url, title, seq(|links|, i requires 0 <= i < |links| => links[i].url), now)
  }

  /** The payload built from extracted links has no repeated address. */
  lemma ExtractedMessageDistinct(url: Url, title: string, anchors: seq<Anchor>, origin: string,
                                 normalize: string -> string, now: int)
    ensures Distinct(SaveMessage(url, title, Extracted(anchors, origin, normalize), now).links)
  {
    ExtractedDistinct(anchors, origin, normalize);
  }

  /** Every stored link list is duplicate-free. */
  ghost predicate ListsDistinct(entries: LinkIndex)
  {
    forall i :: 0 <= i < |entries| ==> Distinct(entries[i].1)
  }

  /** Saving a duplicate-free list keeps every stored list duplicate-free. */
  lemma SaveKeepsListsDistinct(links: LinkIndex, d: ArticleData)
    requires ListsDistinct(links) && Distinct(d.links)
    ensures ListsDistinct(SavedLinks(links, d))
  {
    var r := SavedLinks(links, d);
    forall i | 0 <= i < |r| ensures Distinct(r[i].1) {
      PutEntries(links, d.url, d.links, i);
      if r[i] != (d.url, d.links) {
        var j :| 0 <= j < |links| && links[j] == r[i];
      }
    }
  }
}
