/** The three extractors run in the page (`getTopics`, `getArticles`, `getArticlesDetail`), over an
    abstract rendered document: each list item is a record of the elements it may or may not hold. */
module Extract {
  import opened Wrappers
  import opened Seqs
  import opened Records

  /** An anchor element: its `innerText` and its `href`. */
  datatype Link = Link(text: string, href: string)

  /** A `li` of the topic list; `name` is its `.name` anchor, if any. */
  datatype TopicItem = TopicItem(name: Option<Link>)

  /** A `.title` element of the profile page and the list items of the element that follows it. */
  datatype Section = Section(heading: string, items: seq<TopicItem>)

  /** The heading of the section listing the topics the account created ("topics he created"). */
  const CreatedTopicsHeading: string := "\U{4ed6}\U{521b}\U{5efa}\U{7684}\U{4e13}\U{9898}"

  /** A `li` of a topic listing. `stars` and `comments` are the numbers parsed from the text after the
      like and comment icons: `None` when the icon is missing or the text does not parse. */
  datatype ArticleItem = ArticleItem(title: Option<Link>, nickname: Option<Link>,
                                     stars: Option<int>, comments: Option<int>)

  /** A `li` of an author's home page: its `.title` anchor, the number parsed after the read icon
      (`None` when missing or unparsable) and the formatted `.time` of the item, if any. */
  datatype DetailItem = DetailItem(title: Option<Link>, readNum: Option<int>, time: Option<string>)

  /** The first section whose heading is exactly `CreatedTopicsHeading`. */
  function FindSection(sections: seq<Section>): (r: Option<Section>)
    ensures r.None? <==> forall k :: 0 <= k < |sections| ==> sections[k].heading != CreatedTopicsHeading
    ensures r.Some? ==>
      exists k :: 0 <= k < |sections| && sections[k] == r.value &&
        r.value.heading == CreatedTopicsHeading &&
        forall j :: 0 <= j < k ==> sections[j].heading != CreatedTopicsHeading
  {
    if sections == [] then None
    else if sections[0].heading == CreatedTopicsHeading then Some(sections[0])
    else
      var r := FindSection(sections[1..]);
      assert forall k :: 1 <= k < |sections| ==> sections[k] == sections[1..][k - 1];
      r
  }

  function TopicOf(item: TopicItem): (r: Option<TopicRef>)
    ensures r.None? <==> item.name.None?
    ensures r.Some? ==> r.value.topicName == item.name.value.text && r.value.topicHome == item.name.value.href
  {
    match item.name
    case None => None
    case Some(a) => Some(TopicRef(a.text, a.href))
  }

  /** `getTopics`: the topics listed under the heading, skipping items without a name. */
  function ExtractTopics(sections: seq<Section>): (r: seq<TopicRef>)
    ensures FindSection(sections).None? ==> r == []
    ensures FindSection(sections).Some? ==> |r| <= |FindSection(sections).value.items|
    ensures FindSection(sections).Some? ==> forall k :: 0 <= k < |r| ==>
      var items := FindSection(sections).value.items;
      exists i :: 0 <= i < |items| && items[i].name == Some(Link(r[k].topicName, r[k].topicHome))
  {
    match FindSection(sections)
    case None => []
    case Some(s) =>
      var r := FilterMap(s.items, TopicOf);
      assert forall k :: 0 <= k < |r| ==> exists i :: 0 <= i < |s.items| && TopicOf(s.items[i]) == Some(r[k]);
      r
  }

  /** A topic list item is kept exactly when it has a name; document order is kept. */
  lemma {:induction false} ExtractTopicsOrder(sections: seq<Section>, a: seq<TopicItem>, b: seq<TopicItem>)
    requires FindSection(sections) == Some(Section(CreatedTopicsHeading, a + b))
    ensures ExtractTopics(sections) ==
      FilterMap(a, TopicOf) + FilterMap(b, TopicOf)
  {
    FilterMapAppend(a, b, TopicOf);
  }

  /** When every item of the topics section has a name, every item yields its own topic, in order. */
  lemma ExtractTopicsComplete(sections: seq<Section>)
    requires FindSection(sections).Some?
    requires forall i :: 0 <= i < |FindSection(sections).value.items| ==> FindSection(sections).value.items[i].name.Some?
    ensures var items := FindSection(sections).value.items;
      |ExtractTopics(sections)| == |items| &&
      forall i :: 0 <= i < |items| ==>
        ExtractTopics(sections)[i] == TopicRef(items[i].name.value.text, items[i].name.value.href)
  {
    FilterMapKeepsAll(FindSection(sections).value.items, TopicOf);
  }

  function StubOf(item: ArticleItem): (r: Option<Stub>)
    ensures r.None? <==> item.title.None? || item.nickname.None?
    ensures r.Some? ==> r.value.stars == (if item.stars.None? then 0 else item.stars.value)
    ensures r.Some? ==> r.value.comments == (if item.comments.None? then 0 else item.comments.value)
  {
    match (item.title, item.nickname)
    case (Some(t), Some(n)) =>
      Some(Stub(n.text, n.href, t.text, t.href, item.stars.GetOr(0), item.comments.GetOr(0)))
    case _ => None
  }

  /** `getArticles`: one stub per complete item, in document order; a missing or unparsable star or
      comment count becomes 0. */
  function ExtractArticles(items: seq<ArticleItem>): (r: seq<Stub>)
    ensures |r| <= |items|
    ensures forall k :: 0 <= k < |r| ==>
      exists i :: 0 <= i < |items| &&
        items[i].title == Some(Link(r[k].title, r[k].url)) &&
        items[i].nickname == Some(Link(r[k].authorName, r[k].authorHome))
  {
    var r := FilterMap(items, StubOf);
    assert forall k :: 0 <= k < |r| ==> exists i :: 0 <= i < |items| && StubOf(items[i]) == Some(r[k]);
    r
  }

  /** Items lacking a title or a nickname are dropped and the others kept in order. */
  lemma {:induction false} ExtractArticlesOrder(a: seq<ArticleItem>, b: seq<ArticleItem>)
    ensures ExtractArticles(a + b) == ExtractArticles(a) + ExtractArticles(b)
  {
    FilterMapAppend(a, b, StubOf);
  }

  /** A listing whose every item is complete loses nothing. */
  lemma ExtractArticlesComplete(items: seq<ArticleItem>)
    requires forall i :: 0 <= i < |items| ==> items[i].title.Some? && items[i].nickname.Some?
    ensures |ExtractArticles(items)| == |items|
    ensures forall i :: 0 <= i < |items| ==> ExtractArticles(items)[i] == StubOf(items[i]).value
  {
    FilterMapKeepsAll(items, StubOf);
  }

  /** A listing whose every item lacks a title or a nickname yields no stub. */
  lemma ExtractArticlesNone(items: seq<ArticleItem>)
    requires forall i :: 0 <= i < |items| ==> items[i].title.None? || items[i].nickname.None?
    ensures ExtractArticles(items) == []
  {
    FilterMapDropsAll(items, StubOf);
  }

  function DetailOf(item: DetailItem): (r: Detail)
    ensures r.url.None? <==> item.title.None?
    ensures item.title.Some? ==> r.url == Some(item.title.value.href)
    ensures item.readNum.None? ==> r.readCount == 0
    ensures item.readNum.Some? ==> r.readCount == item.readNum.value
    ensures r.publishTime == item.time
  {
    Detail(match item.title case Some(t) => Some(t.href) case None => None,
           item.readNum.GetOr(0), item.time)
  }

  /** `getArticlesDetail`: one record per item, never dropped; `url` is null without a title,
      `readCount` is 0 when the read count is missing or unparsable. */
  function ExtractDetails(items: seq<DetailItem>): (r: seq<Detail>)
    ensures |r| == |items|
    ensures forall k :: 0 <= k < |r| ==> (r[k].url.None? <==> items[k].title.None?)
    ensures forall k :: 0 <= k < |r| && items[k].title.Some? ==> r[k].url == Some(items[k].title.value.href)
    ensures forall k :: 0 <= k < |r| ==> r[k].readCount == (if items[k].readNum.None? then 0 else items[k].readNum.value)
    ensures forall k :: 0 <= k < |r| ==> r[k].publishTime == items[k].time
  {
    seq(|items|, k requires 0 <= k < |items| => DetailOf(items[k]))
  }

  /** How an awaited action ends: it returns a value or throws one. Either value may itself be
      `null` or `undefined` (`None`); the action `getTopics` hands over returns `undefined`. */
  datatype Attempt<T, E> = Returned(value: Option<T>) | Threw(error: Option<E>)

  /** `safeFunc`: `[null, res]` when the action returns, `[e, null]` when it throws. */
  function SafeFunc<T, E>(a: Attempt<T, E>): (r: (Option<E>, Option<T>))
    ensures a.Returned? ==> r.0.None? && r.1 == a.value
    ensures a.Threw? ==> r.0 == a.error && r.1.None?
    ensures r.0.Some? ==> a.Threw?
    ensures r.1.Some? ==> a.Returned?
  {
    match a
    case Returned(v) => (None, v)
    case Threw(e) => (e, None)
  }

  /** How a caller reads the pair back: an error when the first slot is set, a result otherwise. */
  function Outcome<T, E>(r: (Option<E>, Option<T>)): Attempt<T, E> {
    if r.0.Some? then Threw(r.0) else Returned(r.1)
  }

  /** Reading the pair back gives the outcome for every action except one that throws `null` or
      `undefined`: that pair is `[null, null]`, the same as for an action that returns `null`. */
  lemma SafeFuncRoundTrip<T, E>(a: Attempt<T, E>)
    ensures Outcome(SafeFunc(a)) == a <==> !(a.Threw? && a.error.None?)
    ensures a.Threw? && a.error.None? ==> SafeFunc(a) == SafeFunc(Returned(None))
  {
    match a
    case Returned(v) =>
    case Threw(e) =>
      if e.None? {
        assert Outcome(SafeFunc(a)) == Returned(None);
      }
  }
}
