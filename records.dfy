/** The records the crawl builds and the `Object.assign` merges that enrich them in place. */
module Records {
  import opened Wrappers

  /** A topic as discovered on the profile page: `{ topicName, topicHome }`. */
  datatype TopicRef = TopicRef(topicName: string, topicHome: string)

  /** An article stub from a topic listing: `{ authorName, authorHome, title, url, stars, comments }`. */
  datatype Stub = Stub(authorName: string, authorHome: string, title: string, url: string,
                       stars: int, comments: int)

  /** A detail record from an author's home page: `{ url, readCount, publishTime }`;
      `url` and `publishTime` are `null` when the item has no title or no time element. */
  datatype Detail = Detail(url: Option<string>, readCount: int, publishTime: Option<string>)

  /** A merged article object. `readCount` and `publishTime` are properties that exist only once a
      detail record has been assigned onto the article: the outer `Option` says whether the property
      is present, the inner one of `publishTime` whether its value is `null`. */
  datatype Article = Article(
    topicName: string, topicHome: string,
    authorName: string, authorHome: string, title: string, url: string, stars: int, comments: int,
    readCount: Option<int>, publishTime: Option<Option<string>>)

  /** `{ ...topic, ...stub }`: the topic's two properties overlaid by the stub's six. The two key sets
      are disjoint, so no property of the topic is overwritten; no detail property is present. */
  function NewArticle(t: TopicRef, s: Stub): (r: Article)
    ensures r.topicName == t.topicName && r.topicHome == t.topicHome
    ensures r.authorName == s.authorName && r.authorHome == s.authorHome && r.url == s.url
    ensures r.title == s.title && r.stars == s.stars && r.comments == s.comments
    ensures r.readCount.None? && r.publishTime.None?
  {
    Article(t.topicName, t.topicHome, s.authorName, s.authorHome, s.title, s.url, s.stars, s.comments,
            None, None)
  }

  /** `Object.assign(article, detail)`, where `detail` is the first record with the article's url,
      or `undefined` when there is none (then nothing changes). Copying `url` is a no-op because
      the record was found by that url. */
  function Enrich(a: Article, d: Option<Detail>): (r: Article)
    requires d.Some? ==> d.value.url == Some(a.url)
    ensures r.(readCount := a.readCount, publishTime := a.publishTime) == a
    ensures d.None? ==> r == a
    ensures d.Some? ==> r.readCount == Some(d.value.readCount) && r.publishTime == Some(d.value.publishTime)
  {
    match d
    case None => a
    case Some(r) => a.(readCount := Some(r.readCount), publishTime := Some(r.publishTime))
  }

  /** `Object.assign(article, found)` with another article object: every property of `found` is
      copied; the detail properties `found` lacks are kept from `article`. */
  function Overlay(target: Article, found: Article): (r: Article)
    ensures r.(readCount := found.readCount, publishTime := found.publishTime) == found
    ensures found.readCount.Some? ==> r.readCount == found.readCount
    ensures found.readCount.None? ==> r.readCount == target.readCount
    ensures found.publishTime.Some? ==> r.publishTime == found.publishTime
    ensures found.publishTime.None? ==> r.publishTime == target.publishTime
  {
    found.(readCount := if found.readCount.Some? then found.readCount else target.readCount,
           publishTime := if found.publishTime.Some? then found.publishTime else target.publishTime)
  }

  lemma OverlaySelf(a: Article)
    ensures Overlay(a, a) == a
  {
  }

  lemma OverlayTwice(a: Article, b: Article)
    ensures Overlay(Overlay(a, b), b) == Overlay(a, b)
  {
  }
}
