/** The `collect` entry point: topics, their articles, author groups, the detail merge, the flat
    report, the topic back-fill and the topic and author reports, in the source's order. The browser
    is replaced by what it shows: the profile page's sections, and the list items of the page at
    each url (`listing` for topic pages, `pages` for author home pages). */
module Collect {
  import opened Wrappers
  import opened Seqs
  import opened Sorting
  import opened Records
  import opened Extract
  import opened Reconcile
  import opened Merge
  import opened Backfill
  import opened Aggregate

  /** How many article stubs the topics' listing pages yield altogether. */
  function StubCount(refs: seq<TopicRef>, listing: string -> seq<ArticleItem>): (r: nat)
    ensures r == 0 <==> forall t :: 0 <= t < |refs| ==> StubsOf(listing, refs[t]) == []
  {
    if refs == [] then 0
    else
      var init := refs[..|refs| - 1];
      assert forall t :: 0 <= t < |init| ==> init[t] == refs[t];
      StubCount(init, listing) + |StubsOf(listing, refs[|refs| - 1])|
  }

  lemma {:induction false} StubCountTopics(refs: seq<TopicRef>, topics: seq<Topic>, listing: string -> seq<ArticleItem>)
    requires |topics| == |refs|
    requires forall t :: 0 <= t < |topics| ==> |topics[t].articles| == |StubsOf(listing, refs[t])|
    ensures |TopicArticles(topics)| == StubCount(refs, listing)
  {
    if refs != [] {
      StubCountTopics(refs[..|refs| - 1], topics[..|topics| - 1], listing);
    }
  }

  /** A grouped article whose author's home page lists no record with its url keeps no `readCount`
      through the detail merge, so the grand total over all articles is NaN rather than a number. */
  lemma {:induction false} UnmatchedArticleMakesTotalNaN(heap: Heap, authors: seq<Author>, pages: string -> seq<DetailItem>, x: nat)
    requires ValidAuthors(heap, authors) && HomesAgree(heap, authors) && x < |heap|
    requires x in AuthorArticles(authors) && heap[x].readCount.None?
    requires forall k :: 0 <= k < |DetailsOf(pages, heap[x].authorHome)| ==>
      DetailsOf(pages, heap[x].authorHome)[k].url != Some(heap[x].url)
    ensures ValidIds(MergeAll(heap, authors, pages), AuthorArticles(authors))
    ensures SumReads(Deref(MergeAll(heap, authors, pages), AuthorArticles(authors))).None?
  {
    var merged := MergeAll(heap, authors, pages);
    var all := AuthorArticles(authors);
    AuthorArticlesValid(heap, authors);
    DetailMergeIsLeftOuterJoin(heap, authors, pages, x);
    var k :| 0 <= k < |all| && all[k] == x;
    assert Deref(merged, all)[k].readCount.None?;
  }

  /** The whole run. The ghost results expose the intermediate state: `attached` and `topics` after
      the topic loop, `authors` after the grouping, `merged` after the detail merge and `filled` after
      the back-fill.
      - Every article object belongs to exactly one topic (the topics' lists, read in order, number
        the objects without repeats), and each is its topic spread under one scraped stub.
      - The authors group exactly those objects by home, and `allArticles` is a permutation of them,
        so every article also belongs to exactly one author; there is one author per distinct home.
      - The flat report is built from the merged objects, the two views from the back-filled ones,
        each view's entries from its own groups.
      - All three reports carry the same grand totals: the number of stubs found on the topics' pages
        and the sum of the read counts (NaN, `None`, as soon as one article got no detail record).
      - The flat list is sorted by read count; the views are sorted by article count, and each entry
        counts, sums and sorts its own articles; the entries' counts add up to the grand total.
      - A profile without the topics section yields three empty reports with zero totals. */
  method Collect(profile: seq<Section>, listing: string -> seq<ArticleItem>, pages: string -> seq<DetailItem>)
    returns (flat: FlatReport, byTopic: TopicReport, byAuthor: AuthorReport,
             ghost attached: Heap, ghost topics: seq<Topic>, ghost authors: seq<Author>,
             ghost merged: Heap, ghost filled: Heap)
    ensures |topics| == |ExtractTopics(profile)|
    ensures Attached(attached, topics, ExtractTopics(profile), listing)
    ensures TopicArticles(topics) == Iota(|attached|)
    ensures ValidTopics(attached, topics) && ValidAuthors(attached, authors)
    ensures ValidIds(attached, TopicArticles(topics)) && Grouped(attached, TopicArticles(topics), authors)
    ensures byAuthor.authorCount == |FirstSeenHomes(attached, TopicArticles(topics))|
    ensures multiset(AuthorArticles(authors)) == multiset(TopicArticles(topics))
    ensures merged == MergeAll(attached, authors, pages)
    ensures ValidIds(merged, AuthorArticles(authors))
    ensures flat == FlatView(merged, AuthorArticles(authors))
    ensures ValidIds(merged, SortDesc(AuthorArticles(authors), IdRead(merged)))
    ensures filled == BackfillIds(merged, TopicArticles(topics), SortDesc(AuthorArticles(authors), IdRead(merged)))
    ensures ValidTopics(filled, topics) && ValidAuthors(filled, authors)
    ensures byTopic == TopicView(filled, topics, flat.articleCount, flat.readCount)
    ensures byAuthor == AuthorView(filled, authors, flat.articleCount, flat.readCount)
    ensures flat.articleCount == byTopic.articleCount == byAuthor.articleCount
    ensures flat.articleCount == |flat.articles| == StubCount(ExtractTopics(profile), listing)
    ensures flat.readCount == byTopic.readCount == byAuthor.readCount == SumReads(flat.articles)
    ensures SortedDesc(flat.articles, ReadOf)
    ensures byTopic.topicCount == |byTopic.topics| == |ExtractTopics(profile)|
    ensures byAuthor.authorCount == |byAuthor.authors|
    ensures forall i, j :: 0 <= i < j < |byTopic.topics| ==> byTopic.topics[i].articleCount >= byTopic.topics[j].articleCount
    ensures forall i, j :: 0 <= i < j < |byAuthor.authors| ==> byAuthor.authors[i].articleCount >= byAuthor.authors[j].articleCount
    ensures forall k :: 0 <= k < |byTopic.topics| ==> Consistent(byTopic.topics[k])
    ensures forall k :: 0 <= k < |byAuthor.authors| ==> Consistent(byAuthor.authors[k])
    ensures SumOf(byTopic.topics, EntrySize) == flat.articleCount
    ensures SumOf(byAuthor.authors, EntrySize) == flat.articleCount
    ensures ExtractTopics(profile) == [] ==>
      flat.articleCount == 0 && flat.readCount == Some(0) && byTopic.topics == [] && byAuthor.authors == []
  {
    var refs := ExtractTopics(profile);
    var heap, ts := AttachArticles(refs, listing);
    attached, topics := heap, ts;
    assert Attached(heap, ts, refs, listing) by {
      forall t | 0 <= t < |ts|
        ensures TopicAttached(heap, ts[t], refs[t], StubsOf(listing, refs[t]))
      {
      }
    }
    StubCountTopics(refs, ts, listing);

    var byHome := GroupByAuthor(heap, ts);
    authors := byHome;
    var encountered := TopicArticles(ts);
    GroupsPartition(heap, encountered, byHome);
    assert ValidAuthors(heap, byHome);
    assert HomesAgree(heap, byHome);

    heap := MergeDetails(heap, byHome, pages);
    merged := heap;
    assert ValidTopics(heap, ts) && ValidAuthors(heap, byHome);

    var all := AuthorArticles(byHome);
    AuthorArticlesValid(heap, byHome);
    var allRead := SumReads(Deref(heap, all));
    flat := FlatView(heap, all);
    FlatViewProperties(heap, all);
    SortedIdsValid(heap, all);
    all := SortDesc(all, IdRead(heap));

    heap := BackfillTopics(heap, ts, all);
    filled := heap;
    assert ValidTopics(heap, ts) && ValidAuthors(heap, byHome);

    byTopic := TopicView(heap, ts, flat.articleCount, allRead);
    TopicViewProperties(heap, ts, flat.articleCount, allRead);
    byAuthor := AuthorView(heap, byHome, flat.articleCount, allRead);
    AuthorViewProperties(heap, byHome, flat.articleCount, allRead);
  }
}
