/** The in-memory part of `collect`: article objects are shared between topics and authors, so they
    live in a heap indexed by object identity, and topics, authors and `allArticles` hold ids. */
module Reconcile {
  import opened Wrappers
  import opened Records
  import opened Extract

  /** Every article object of a run; id `i` is the `i`-th object created. */
  type Heap = seq<Article>

  /** A topic object after its articles are attached: `{ topicName, topicHome, articles }`. */
  datatype Topic = Topic(topicName: string, topicHome: string, articles: seq<nat>)

  /** An author group: `{ authorName, authorHome, articles }`. */
  datatype Author = Author(authorName: string, authorHome: string, articles: seq<nat>)

  predicate ValidIds(heap: Heap, ids: seq<nat>) {
    forall k :: 0 <= k < |ids| ==> ids[k] < |heap|
  }

  predicate ValidTopics(heap: Heap, topics: seq<Topic>) {
    forall t :: 0 <= t < |topics| ==> ValidIds(heap, topics[t].articles)
  }

  predicate ValidAuthors(heap: Heap, authors: seq<Author>) {
    forall g :: 0 <= g < |authors| ==> ValidIds(heap, authors[g].articles)
  }

  /** The articles of all topics, topic after topic: the order in which the grouping meets them. */
  function TopicArticles(topics: seq<Topic>): seq<nat> {
    if topics == [] then [] else TopicArticles(topics[..|topics| - 1]) + topics[|topics| - 1].articles
  }

  /** `authors.reduce((acc, current) => acc.concat(current.articles), [])`: `allArticles`. */
  function AuthorArticles(authors: seq<Author>): (r: seq<nat>)
    ensures forall g, x :: 0 <= g < |authors| && x in authors[g].articles ==> x in r
    ensures forall x :: x in r ==> exists g :: 0 <= g < |authors| && x in authors[g].articles
  {
    if authors == [] then []
    else
      var init := authors[..|authors| - 1];
      assert forall g :: 0 <= g < |init| ==> init[g] == authors[g];
      AuthorArticles(init) + authors[|authors| - 1].articles
  }

  lemma {:induction false} TopicArticlesValid(heap: Heap, topics: seq<Topic>)
    requires ValidTopics(heap, topics)
    ensures ValidIds(heap, TopicArticles(topics))
  {
    if topics != [] {
      TopicArticlesValid(heap, topics[..|topics| - 1]);
    }
  }

  lemma {:induction false} AuthorArticlesValid(heap: Heap, authors: seq<Author>)
    requires ValidAuthors(heap, authors)
    ensures ValidIds(heap, AuthorArticles(authors))
  {
    if authors != [] {
      AuthorArticlesValid(heap, authors[..|authors| - 1]);
    }
  }

  function Iota(n: nat): seq<nat> {
    seq(n, i requires 0 <= i => i)
  }

  /** What the listing page of topic `t` yields. */
  function StubsOf(listing: string -> seq<ArticleItem>, t: TopicRef): (r: seq<Stub>)
    ensures |r| <= |listing(t.topicHome)|
    ensures forall k :: 0 <= k < |r| ==>
      exists i :: 0 <= i < |listing(t.topicHome)| &&
        listing(t.topicHome)[i].title == Some(Link(r[k].title, r[k].url)) &&
        listing(t.topicHome)[i].nickname == Some(Link(r[k].authorName, r[k].authorHome))
  {
    ExtractArticles(listing(t.topicHome))
  }

  // ---------------------------------------------------------------------------------------------
  // Attaching the articles to the topics (one listing page per topic)

  /** `topic` is reference `r` with its articles attached: it has the reference's name and home, and
      holds one article object per stub, in order, each the topic's fields overlaid by that stub. */
  predicate TopicAttached(heap: Heap, topic: Topic, r: TopicRef, stubs: seq<Stub>) {
    topic.topicName == r.topicName && topic.topicHome == r.topicHome && |topic.articles| == |stubs| &&
    forall j :: 0 <= j < |stubs| ==>
      topic.articles[j] < |heap| && heap[topic.articles[j]] == NewArticle(r, stubs[j])
  }

  /** `topics` are the first `|topics|` references with the articles of their listing pages attached. */
  predicate Attached(heap: Heap, topics: seq<Topic>, refs: seq<TopicRef>, listing: string -> seq<ArticleItem>) {
    |topics| <= |refs| &&
    forall t :: 0 <= t < |topics| ==> TopicAttached(heap, topics[t], refs[t], StubsOf(listing, refs[t]))
  }

  /** Objects created later leave an attached topic attached. */
  lemma TopicAttachedGrow(heap: Heap, created: seq<Article>, topic: Topic, r: TopicRef, stubs: seq<Stub>)
    requires TopicAttached(heap, topic, r, stubs)
    ensures TopicAttached(heap + created, topic, r, stubs)
  {
    forall j | 0 <= j < |stubs|
      ensures topic.articles[j] < |heap + created| && (heap + created)[topic.articles[j]] == NewArticle(r, stubs[j])
    {
      assert topic.articles[j] < |heap|;
    }
  }

  /** A topic whose ids count on from the end of the heap, where its new objects are created, is
      attached. */
  lemma TopicAttachedNew(heap: Heap, created: seq<Article>, topic: Topic, r: TopicRef, stubs: seq<Stub>)
    requires topic.topicName == r.topicName && topic.topicHome == r.topicHome
    requires |topic.articles| == |created| == |stubs|
    requires forall j :: 0 <= j < |stubs| ==> topic.articles[j] == |heap| + j
    requires forall j :: 0 <= j < |stubs| ==> created[j] == NewArticle(r, stubs[j])
    ensures TopicAttached(heap + created, topic, r, stubs)
  {
    forall j | 0 <= j < |stubs|
      ensures topic.articles[j] < |heap + created| && (heap + created)[topic.articles[j]] == NewArticle(r, stubs[j])
    {
      assert (heap + created)[|heap| + j] == created[j];
    }
  }

  /** Attaching one more topic, whose objects were just created, keeps the earlier topics attached. */
  lemma AttachedSnoc(heap: Heap, topics: seq<Topic>, refs: seq<TopicRef>, listing: string -> seq<ArticleItem>,
                     created: seq<Article>, topic: Topic)
    requires Attached(heap, topics, refs, listing) && |topics| < |refs|
    requires TopicAttached(heap + created, topic, refs[|topics|], StubsOf(listing, refs[|topics|]))
    ensures Attached(heap + created, topics + [topic], refs, listing)
  {
    var topics' := topics + [topic];
    forall t | 0 <= t < |topics'|
      ensures TopicAttached(heap + created, topics'[t], refs[t], StubsOf(listing, refs[t]))
    {
      if t < |topics| {
        assert topics'[t] == topics[t];
        TopicAttachedGrow(heap, created, topics[t], refs[t], StubsOf(listing, refs[t]));
      }
    }
  }

  /** Ids counted on from `n` extend the ids below `n`. */
  lemma IotaSnoc(n: nat, ids: seq<nat>)
    requires forall j :: 0 <= j < |ids| ==> ids[j] == n + j
    ensures Iota(n) + ids == Iota(n + |ids|)
  {
  }

  /** Attached topics hold only existing objects, and the objects are those the stubs describe. */
  lemma AttachedMeans(heap: Heap, topics: seq<Topic>, refs: seq<TopicRef>, listing: string -> seq<ArticleItem>)
    requires Attached(heap, topics, refs, listing)
    ensures ValidTopics(heap, topics)
    ensures forall t :: 0 <= t < |topics| ==>
      topics[t].topicName == refs[t].topicName && topics[t].topicHome == refs[t].topicHome &&
      |topics[t].articles| == |StubsOf(listing, refs[t])|
    ensures forall t, j :: 0 <= t < |topics| && 0 <= j < |topics[t].articles| ==>
      heap[topics[t].articles[j]] == NewArticle(refs[t], StubsOf(listing, refs[t])[j])
  {
    forall t | 0 <= t < |topics|
      ensures ValidIds(heap, topics[t].articles)
    {
      assert TopicAttached(heap, topics[t], refs[t], StubsOf(listing, refs[t]));
    }
  }

  /** The loop that visits every topic and sets `topic.articles` to fresh article objects, each the
      topic's fields overlaid by one stub, in listing order. Every object belongs to exactly one
      topic, and the topics' article lists, read in topic order, are the objects in creation order. */
  method AttachArticles(refs: seq<TopicRef>, listing: string -> seq<ArticleItem>)
    returns (heap: Heap, topics: seq<Topic>)
    ensures |topics| == |refs|
    ensures TopicArticles(topics) == Iota(|heap|)
    ensures ValidTopics(heap, topics)
    ensures forall t :: 0 <= t < |topics| ==>
      topics[t].topicName == refs[t].topicName && topics[t].topicHome == refs[t].topicHome &&
      |topics[t].articles| == |StubsOf(listing, refs[t])|
    ensures forall t, j :: 0 <= t < |topics| && 0 <= j < |topics[t].articles| ==>
      heap[topics[t].articles[j]] == NewArticle(refs[t], StubsOf(listing, refs[t])[j])
  {
    heap, topics := [], [];
    for t := 0 to |refs|
      invariant |topics| == t
      invariant TopicArticles(topics) == Iota(|heap|)
      invariant Attached(heap, topics, refs, listing)
    {
      var stubs := StubsOf(listing, refs[t]);
      var n := |heap|;
      var ids: seq<nat> := seq(|stubs|, j requires 0 <= j => n + j);
      var created := seq(|stubs|, j requires 0 <= j < |stubs| => NewArticle(refs[t], stubs[j]));
      var topic := Topic(refs[t].topicName, refs[t].topicHome, ids);
      TopicAttachedNew(heap, created, topic, refs[t], stubs);
      AttachedSnoc(heap, topics, refs, listing, created, topic);
      TopicArticlesSnoc(topics, topic);
      IotaSnoc(n, ids);
      heap := heap + created;
      topics := topics + [topic];
    }
    AttachedMeans(heap, topics, refs, listing);
  }

  lemma TopicArticlesSnoc(topics: seq<Topic>, topic: Topic)
    ensures TopicArticles(topics + [topic]) == TopicArticles(topics) + topic.articles
  {
    assert (topics + [topic])[..|topics|] == topics;
  }

  // ---------------------------------------------------------------------------------------------
  // Grouping by author

  /** The distinct `authorHome` values of the articles `ids`, in order of first appearance. */
  function FirstSeenHomes(heap: Heap, ids: seq<nat>): (r: seq<string>)
    requires ValidIds(heap, ids)
    ensures forall i, j :: 0 <= i < j < |r| ==> r[i] != r[j]
    ensures forall h :: h in r <==> exists k :: 0 <= k < |ids| && heap[ids[k]].authorHome == h
  {
    if ids == [] then []
    else
      var init := ids[..|ids| - 1];
      var p := FirstSeenHomes(heap, init);
      var h := heap[ids[|ids| - 1]].authorHome;
      assert forall k :: 0 <= k < |init| ==> init[k] == ids[k];
      if h in p then p else p + [h]
  }

  /** The articles among `ids` whose `authorHome` is `home`, in order. */
  function WithHome(heap: Heap, ids: seq<nat>, home: string): (r: seq<nat>)
    requires ValidIds(heap, ids)
    ensures ValidIds(heap, r)
    ensures forall k :: 0 <= k < |r| ==> heap[r[k]].authorHome == home
    ensures forall x :: x in r ==> x in ids
  {
    if ids == [] then []
    else
      var last := ids[|ids| - 1];
      WithHome(heap, ids[..|ids| - 1], home) + (if heap[last].authorHome == home then [last] else [])
  }

  /** `acc.find(one => one.authorHome === authorHome)`, as an index. */
  function FindAuthor(authors: seq<Author>, home: string): (r: Option<nat>)
    ensures r.None? <==> forall g :: 0 <= g < |authors| ==> authors[g].authorHome != home
    ensures r.Some? ==> r.value < |authors| && authors[r.value].authorHome == home
    ensures r.Some? ==> forall g :: 0 <= g < r.value ==> authors[g].authorHome != home
  {
    if authors == [] then None
    else if authors[0].authorHome == home then Some(0)
    else
      match FindAuthor(authors[1..], home)
      case None => None
      case Some(g) => Some(g + 1)
  }

  /** The callback of the author reduce: the article joins the group with its `authorHome`, or opens
      a new group named after it. */
  function AddArticle(authors: seq<Author>, a: Article, id: nat): (r: seq<Author>)
    ensures |authors| <= |r| <= |authors| + 1
    ensures forall g :: 0 <= g < |authors| ==>
      r[g].authorHome == authors[g].authorHome && r[g].authorName == authors[g].authorName
    ensures forall g :: 0 <= g < |authors| && authors[g].authorHome != a.authorHome ==> r[g] == authors[g]
    ensures FindAuthor(authors, a.authorHome).Some? ==>
      var g := FindAuthor(authors, a.authorHome).value;
      |r| == |authors| && r[g].articles == authors[g].articles + [id]
    ensures FindAuthor(authors, a.authorHome).None? ==>
      r == authors + [Author(a.authorName, a.authorHome, [id])]
  {
    match FindAuthor(authors, a.authorHome)
    case Some(g) => authors[g := authors[g].(articles := authors[g].articles + [id])]
    case None => authors + [Author(a.authorName, a.authorHome, [id])]
  }

  /** `a` is the group of the articles among `ids` with home `home`: exactly those articles, in
      encounter order, named after the first of them. */
  predicate GroupOf(heap: Heap, ids: seq<nat>, a: Author, home: string)
    requires ValidIds(heap, ids)
  {
    a.authorHome == home && a.articles == WithHome(heap, ids, home) &&
    a.articles != [] && a.articles[0] < |heap| && a.authorName == heap[a.articles[0]].authorName
  }

  /** `authors` groups the articles `ids`: one group per distinct `authorHome`, in order of first
      appearance; each group holds exactly the articles with its home, in encounter order, and is
      named after its first article. */
  predicate Grouped(heap: Heap, ids: seq<nat>, authors: seq<Author>)
    requires ValidIds(heap, ids)
  {
    var homes := FirstSeenHomes(heap, ids);
    |authors| == |homes| &&
    forall g :: 0 <= g < |authors| ==> GroupOf(heap, ids, authors[g], homes[g])
  }

  lemma WithHomeSnoc(heap: Heap, ids: seq<nat>, id: nat, home: string)
    requires ValidIds(heap, ids + [id])
    ensures ValidIds(heap, ids) && id < |heap|
    ensures WithHome(heap, ids + [id], home) ==
      WithHome(heap, ids, home) + (if heap[id].authorHome == home then [id] else [])
  {
    assert (ids + [id])[..|ids|] == ids;
    assert (ids + [id])[|ids|] == id;
  }

  lemma FirstSeenSnoc(heap: Heap, ids: seq<nat>, id: nat)
    requires ValidIds(heap, ids + [id])
    ensures ValidIds(heap, ids) && id < |heap|
    ensures FirstSeenHomes(heap, ids + [id]) ==
      var homes := FirstSeenHomes(heap, ids);
      if heap[id].authorHome in homes then homes else homes + [heap[id].authorHome]
  {
    assert (ids + [id])[..|ids|] == ids;
    assert (ids + [id])[|ids|] == id;
  }

  /** A home not seen yet has no articles. */
  lemma WithHomeUnseen(heap: Heap, ids: seq<nat>, home: string)
    requires ValidIds(heap, ids)
    requires home !in FirstSeenHomes(heap, ids)
    ensures WithHome(heap, ids, home) == []
  {
  }

  /** A group whose home differs from the next article's is still the group of its home. */
  lemma GroupOfOther(heap: Heap, ids: seq<nat>, id: nat, a: Author, home: string)
    requires ValidIds(heap, ids) && id < |heap| && heap[id].authorHome != home
    requires GroupOf(heap, ids, a, home)
    ensures ValidIds(heap, ids + [id]) && GroupOf(heap, ids + [id], a, home)
  {
    WithHomeSnoc(heap, ids, id, home);
  }

  /** The group of the next article's home takes that article at its end. */
  lemma GroupOfJoin(heap: Heap, ids: seq<nat>, id: nat, a: Author, home: string)
    requires ValidIds(heap, ids) && id < |heap| && heap[id].authorHome == home
    requires GroupOf(heap, ids, a, home)
    ensures ValidIds(heap, ids + [id]) && GroupOf(heap, ids + [id], a.(articles := a.articles + [id]), home)
  {
    WithHomeSnoc(heap, ids, id, home);
  }

  /** The first article with a home starts the group of that home, named after its author. */
  lemma GroupOfNew(heap: Heap, ids: seq<nat>, id: nat)
    requires ValidIds(heap, ids) && id < |heap|
    requires heap[id].authorHome !in FirstSeenHomes(heap, ids)
    ensures ValidIds(heap, ids + [id])
    ensures GroupOf(heap, ids + [id], Author(heap[id].authorName, heap[id].authorHome, [id]), heap[id].authorHome)
  {
    WithHomeUnseen(heap, ids, heap[id].authorHome);
    WithHomeSnoc(heap, ids, id, heap[id].authorHome);
  }

  /** An article whose author is already known joins that author's group. */
  lemma GroupsJoin(heap: Heap, ids: seq<nat>, authors: seq<Author>, id: nat)
    requires id < |heap| && ValidIds(heap, ids) && ValidIds(heap, ids + [id])
    requires Grouped(heap, ids, authors) && FindAuthor(authors, heap[id].authorHome).Some?
    ensures Grouped(heap, ids + [id], AddArticle(authors, heap[id], id))
  {
    var homes := FirstSeenHomes(heap, ids);
    FirstSeenSnoc(heap, ids, id);
    var g := FindAuthor(authors, heap[id].authorHome).value;
    var r := AddArticle(authors, heap[id], id);
    assert FirstSeenHomes(heap, ids + [id]) == homes;
    forall g' | 0 <= g' < |r|
      ensures GroupOf(heap, ids + [id], r[g'], homes[g'])
    {
      if g' == g {
        GroupOfJoin(heap, ids, id, authors[g], homes[g]);
      } else {
        assert homes[g'] != homes[g];
        GroupOfOther(heap, ids, id, authors[g'], homes[g']);
      }
    }
  }

  /** An article by a new author opens a group of its own at the end. */
  lemma GroupsOpen(heap: Heap, ids: seq<nat>, authors: seq<Author>, id: nat)
    requires id < |heap| && ValidIds(heap, ids) && ValidIds(heap, ids + [id])
    requires Grouped(heap, ids, authors) && FindAuthor(authors, heap[id].authorHome).None?
    ensures Grouped(heap, ids + [id], AddArticle(authors, heap[id], id))
  {
    var h := heap[id].authorHome;
    var homes := FirstSeenHomes(heap, ids);
    FirstSeenSnoc(heap, ids, id);
    assert h !in homes;
    forall g | 0 <= g < |authors|
      ensures GroupOf(heap, ids + [id], authors[g], homes[g])
    {
      GroupOfOther(heap, ids, id, authors[g], homes[g]);
    }
    GroupOfNew(heap, ids, id);
    GroupsAppend(heap, ids + [id], authors, homes, Author(heap[id].authorName, h, [id]), h);
  }

  /** Groups that each match their home, followed by one more that matches its own. */
  lemma GroupsAppend(heap: Heap, ids: seq<nat>, authors: seq<Author>, homes: seq<string>, a: Author, home: string)
    requires ValidIds(heap, ids) && |authors| == |homes|
    requires forall g :: 0 <= g < |authors| ==> GroupOf(heap, ids, authors[g], homes[g])
    requires GroupOf(heap, ids, a, home)
    ensures forall g :: 0 <= g < |authors| + 1 ==> GroupOf(heap, ids, (authors + [a])[g], (homes + [home])[g])
  {
  }

  /** One step of the reduce keeps the grouping exact. */
  lemma AddArticleGroups(heap: Heap, ids: seq<nat>, authors: seq<Author>, id: nat)
    requires id < |heap| && ValidIds(heap, ids)
    requires Grouped(heap, ids, authors)
    ensures ValidIds(heap, ids + [id])
    ensures Grouped(heap, ids + [id], AddArticle(authors, heap[id], id))
  {
    assert ValidIds(heap, ids + [id]);
    if FindAuthor(authors, heap[id].authorHome).Some? {
      GroupsJoin(heap, ids, authors, id);
    } else {
      GroupsOpen(heap, ids, authors, id);
    }
  }

  /** The inner `forEach` over one topic's articles: each joins its author's group in turn. */
  method GroupTopic(heap: Heap, ghost seen: seq<nat>, authors: seq<Author>, articles: seq<nat>)
    returns (grouped: seq<Author>)
    requires ValidIds(heap, seen) && ValidIds(heap, articles)
    requires Grouped(heap, seen, authors)
    ensures ValidIds(heap, seen + articles)
    ensures Grouped(heap, seen + articles, grouped)
  {
    grouped := authors;
    assert seen + articles[..0] == seen;
    for j := 0 to |articles|
      invariant ValidIds(heap, seen + articles[..j])
      invariant Grouped(heap, seen + articles[..j], grouped)
    {
      var id := articles[j];
      AddArticleGroups(heap, seen + articles[..j], grouped, id);
      grouped := AddArticle(grouped, heap[id], id);
      assert seen + articles[..j + 1] == seen + articles[..j] + [id];
    }
    assert articles[..|articles|] == articles;
  }

  /** The reduce over all topics' articles (`topics.reduce(... topic.articles.forEach(...))`). */
  method GroupByAuthor(heap: Heap, topics: seq<Topic>) returns (authors: seq<Author>)
    requires ValidTopics(heap, topics)
    ensures ValidIds(heap, TopicArticles(topics))
    ensures Grouped(heap, TopicArticles(topics), authors)
  {
    authors := [];
    for t := 0 to |topics|
      invariant ValidIds(heap, TopicArticles(topics[..t]))
      invariant Grouped(heap, TopicArticles(topics[..t]), authors)
    {
      authors := GroupTopic(heap, TopicArticles(topics[..t]), authors, topics[t].articles);
      assert topics[..t + 1] == topics[..t] + [topics[t]];
      TopicArticlesSnoc(topics[..t], topics[t]);
    }
    assert topics[..|topics|] == topics;
  }

  /** The last author's articles come last in the concatenation, so an object occurs there as often
      as in the earlier authors' lists and the last author's list together. */
  lemma AuthorArticlesCount(authors: seq<Author>, x: nat)
    requires authors != []
    ensures AuthorArticles(authors) ==
      AuthorArticles(authors[..|authors| - 1]) + authors[|authors| - 1].articles
    ensures multiset(AuthorArticles(authors))[x] ==
      multiset(AuthorArticles(authors[..|authors| - 1]))[x] + multiset(authors[|authors| - 1].articles)[x]
  {
    var n := |authors| - 1;
    assert AuthorArticles(authors) == AuthorArticles(authors[..n]) + authors[n].articles;
  }

  /** How often `x` occurs in the groups when each group holding it is the one with home `hx`. */
  lemma {:induction false} CountInGroups(authors: seq<Author>, x: nat, hx: string, c: int)
    requires forall g, g' :: 0 <= g < g' < |authors| ==> authors[g].authorHome != authors[g'].authorHome
    requires forall g :: 0 <= g < |authors| ==>
      multiset(authors[g].articles)[x] == if authors[g].authorHome == hx then c else 0
    ensures multiset(AuthorArticles(authors))[x] ==
      if exists g :: 0 <= g < |authors| && authors[g].authorHome == hx then c else 0
  {
    if authors != [] {
      var n := |authors| - 1;
      var init, last := authors[..n], authors[n];
      assert forall g :: 0 <= g < n ==> init[g] == authors[g];
      CountInGroups(init, x, hx, c);
      AuthorArticlesCount(authors, x);
      var before := exists g :: 0 <= g < n && init[g].authorHome == hx;
      if last.authorHome == hx {
        assert !before by {
          forall g | 0 <= g < n
            ensures init[g].authorHome != hx
          {
            assert authors[g].authorHome != authors[n].authorHome;
          }
        }
      } else if before {
        var g :| 0 <= g < n && init[g].authorHome == hx;
        assert authors[g].authorHome == hx;
      } else {
        forall g | 0 <= g < |authors|
          ensures authors[g].authorHome != hx
        {
          if g < n {
            assert init[g] == authors[g];
          }
        }
      }
    }
  }

  lemma {:induction false} WithHomeCount(heap: Heap, ids: seq<nat>, home: string, x: nat)
    requires ValidIds(heap, ids) && x < |heap|
    ensures multiset(WithHome(heap, ids, home))[x] ==
      if heap[x].authorHome == home then multiset(ids)[x] else 0
  {
    if ids != [] {
      var init, last := ids[..|ids| - 1], ids[|ids| - 1];
      WithHomeCount(heap, init, home, x);
      var tail := if heap[last].authorHome == home then [last] else [];
      assert ids == init + [last];
      assert WithHome(heap, ids, home) == WithHome(heap, init, home) + tail;
      assert multiset(WithHome(heap, ids, home)) == multiset(WithHome(heap, init, home)) + multiset(tail);
      assert multiset(ids) == multiset(init) + multiset{last};
    }
  }

  /** How often one object occurs among the groups: as often as among the grouped ids. */
  lemma GroupsCountAt(heap: Heap, ids: seq<nat>, authors: seq<Author>, x: nat)
    requires ValidIds(heap, ids) && Grouped(heap, ids, authors)
    ensures multiset(AuthorArticles(authors))[x] == multiset(ids)[x]
  {
    if x < |heap| {
      var hx := heap[x].authorHome;
      forall g | 0 <= g < |authors|
        ensures multiset(authors[g].articles)[x] == if authors[g].authorHome == hx then multiset(ids)[x] else 0
      {
        WithHomeCount(heap, ids, authors[g].authorHome, x);
      }
      CountInGroups(authors, x, hx, multiset(ids)[x]);
      if x in ids {
        var k :| 0 <= k < |ids| && ids[k] == x;
        assert hx in FirstSeenHomes(heap, ids);
      }
    } else {
      assert x !in ids;
      forall g | 0 <= g < |authors|
        ensures multiset(authors[g].articles)[x] == 0
      {
        assert x !in authors[g].articles;
      }
      CountInGroups(authors, x, "", 0);
    }
  }

  /** An object lies in a group exactly when it is among the grouped ids and has the group's home. */
  lemma GroupsMembership(heap: Heap, ids: seq<nat>, authors: seq<Author>)
    requires ValidIds(heap, ids) && Grouped(heap, ids, authors)
    ensures forall g, x :: 0 <= g < |authors| && x < |heap| ==>
      (x in authors[g].articles <==> x in ids && heap[x].authorHome == authors[g].authorHome)
  {
    forall g: int, x: nat | 0 <= g < |authors| && x < |heap|
      ensures x in authors[g].articles <==> x in ids && heap[x].authorHome == authors[g].authorHome
    {
      WithHomeCount(heap, ids, authors[g].authorHome, x);
      assert x in authors[g].articles <==> multiset(authors[g].articles)[x] > 0;
    }
  }

  /** Grouping partitions the articles: `allArticles` holds every article exactly as often as the
      topics do, each article sits in exactly the group whose home is its own, and so
      `allArticles.length` is the number of articles over all topics. */
  lemma GroupsPartition(heap: Heap, ids: seq<nat>, authors: seq<Author>)
    requires ValidIds(heap, ids) && Grouped(heap, ids, authors)
    ensures multiset(AuthorArticles(authors)) == multiset(ids)
    ensures |AuthorArticles(authors)| == |ids|
    ensures forall g, x :: 0 <= g < |authors| && x < |heap| ==>
      (x in authors[g].articles <==> x in ids && heap[x].authorHome == authors[g].authorHome)
  {
    forall x: nat
      ensures multiset(AuthorArticles(authors))[x] == multiset(ids)[x]
    {
      GroupsCountAt(heap, ids, authors, x);
    }
    assert multiset(AuthorArticles(authors)) == multiset(ids);
    assert |AuthorArticles(authors)| == |multiset(AuthorArticles(authors))| == |multiset(ids)| == |ids|;
    GroupsMembership(heap, ids, authors);
  }
}
