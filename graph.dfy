/** The persisted link graph: the two values kept under the storage keys
    `articles` and `links`. */
module Graph {
  import opened Seqs
  import opened AssocList

  /** A page address after normalisation (origin and path only). */
  type Url = string

  /** The record kept for a page that has been read. `visitCount` is a plain
      integer: stored data may hold any number, and the code reads 0 as
      missing. */
  datatype ArticleRecord = ArticleRecord(
    title: string,
    timestamp: int,   // first visit
    lastVisit: int,
    visitCount: int,
    linkCount: nat)

  /** `articles`: page address to its record, in insertion order. */
  type Articles = Assoc<ArticleRecord>

  /** `links`: page address to the outbound addresses found on its latest
      scan, in insertion order. */
  type LinkIndex = Assoc<seq<Url>>

  /** A page is read exactly when it has a record (`articles[u]` is truthy). */
  predicate IsRead(articles: Articles, u: Url)
  {
    Lookup(articles, u).Some?
  }

  /** `allLinks[u] || []`: the stored outbound list, or nothing. */
  function LinksOf(links: LinkIndex, u: Url): (ls: seq<Url>)
    ensures Lookup(links, u).Some? ==> ls == Lookup(links, u).value
    ensures Lookup(links, u).None? ==> ls == []
  {
    match Lookup(links, u)
    case Some(ls) => ls
    case None => []
  }

  /** The shape the ingest keeps: both maps have the same keys in the same
      order, without repeats; every record counts at least one visit and its
      `linkCount` is the length of its stored link list. */
  ghost predicate Consistent(articles: Articles, links: LinkIndex)
  {
    && Keys(articles) == Keys(links)
    && Distinct(Keys(articles))
    && forall u :: Lookup(articles, u).Some? ==>
         && Lookup(articles, u).value.visitCount >= 1
         && Lookup(articles, u).value.linkCount == |LinksOf(links, u)|
  }
}
