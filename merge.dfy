/** The detail merge of `collect`: every author's home page is read and its records are assigned
    onto that author's articles, matched by url. */
module Merge {
  import opened Wrappers
  import opened Records
  import opened Extract
  import opened Reconcile

  /** `authorAllArticles.find(one => article.url === one.url)`: the first record with the url. */
  function FindDetail(details: seq<Detail>, url: string): (r: Option<Detail>)
    ensures r.None? <==> forall k :: 0 <= k < |details| ==> details[k].url != Some(url)
    ensures r.Some? ==> r.value.url == Some(url)
    ensures r.Some? ==>
      exists k :: 0 <= k < |details| && details[k] == r.value &&
        forall j :: 0 <= j < k ==> details[j].url != Some(url)
  {
    if details == [] then None
    else if details[0].url == Some(url) then Some(details[0])
    else
      var r := FindDetail(details[1..], url);
      assert forall k :: 1 <= k < |details| ==> details[k] == details[1..][k - 1];
      r
  }

  /** What the home page of the author with home `home` yields. */
  function DetailsOf(pages: string -> seq<DetailItem>, home: string): (r: seq<Detail>)
    ensures |r| == |pages(home)|
    ensures forall k :: 0 <= k < |r| ==> (r[k].url.None? <==> pages(home)[k].title.None?)
    ensures forall k :: 0 <= k < |r| && pages(home)[k].title.Some? ==> r[k].url == Some(pages(home)[k].title.value.href)
  {
    ExtractDetails(pages(home))
  }

  /** The article as the detail merge leaves it: enriched by the first record of its author's home
      page that has its url, or unchanged when there is none. */
  function Joined(pages: string -> seq<DetailItem>, a: Article): (r: Article)
    ensures r.(readCount := a.readCount, publishTime := a.publishTime) == a
    ensures (forall k :: 0 <= k < |DetailsOf(pages, a.authorHome)| ==>
               DetailsOf(pages, a.authorHome)[k].url != Some(a.url)) ==> r == a
  {
    Enrich(a, FindDetail(DetailsOf(pages, a.authorHome), a.url))
  }

  /** `articles.forEach(article => Object.assign(article, find(...)))` for one author's articles. */
  function MergeGroup(heap: Heap, ids: seq<nat>, details: seq<Detail>): (r: Heap)
    requires ValidIds(heap, ids)
    ensures |r| == |heap|
  {
    if ids == [] then heap
    else
      var h := MergeGroup(heap, ids[..|ids| - 1], details);
      var i := ids[|ids| - 1];
      h[i := Enrich(h[i], FindDetail(details, h[i].url))]
  }

  /** The loop over all authors: each author's home page is read and merged into its articles. */
  function MergeAll(heap: Heap, authors: seq<Author>, pages: string -> seq<DetailItem>): (r: Heap)
    requires ValidAuthors(heap, authors)
    ensures |r| == |heap|
  {
    if authors == [] then heap
    else
      var last := authors[|authors| - 1];
      var h := MergeAll(heap, authors[..|authors| - 1], pages);
      MergeGroup(h, last.articles, DetailsOf(pages, last.authorHome))
  }

  /** The merge of one author, per article: each listed article is enriched once (enriching again
      with the same record changes nothing), every other article is untouched. */
  lemma {:induction false} MergeGroupAt(heap: Heap, ids: seq<nat>, details: seq<Detail>, x: nat)
    requires ValidIds(heap, ids) && x < |heap|
    ensures MergeGroup(heap, ids, details)[x] ==
      if x in ids then Enrich(heap[x], FindDetail(details, heap[x].url)) else heap[x]
  {
    if ids != [] {
      var init := ids[..|ids| - 1];
      MergeGroupAt(heap, init, details, x);
      var i := ids[|ids| - 1];
      if i != x {
        assert x in ids <==> x in init by { assert ids == init + [i]; }
      } else {
        MergeGroupAt(heap, init, details, i);
      }
    }
  }

  /** Each group's articles have the group's home: what the grouping guarantees. */
  predicate HomesAgree(heap: Heap, authors: seq<Author>)
    requires ValidAuthors(heap, authors)
  {
    forall g, k :: 0 <= g < |authors| && 0 <= k < |authors[g].articles| ==>
      heap[authors[g].articles[k]].authorHome == authors[g].authorHome
  }

  lemma {:induction false} MergeAllAt(heap: Heap, authors: seq<Author>, pages: string -> seq<DetailItem>, x: nat)
    requires ValidAuthors(heap, authors) && HomesAgree(heap, authors) && x < |heap|
    ensures MergeAll(heap, authors, pages)[x] ==
      if x in AuthorArticles(authors) then Joined(pages, heap[x]) else heap[x]
  {
    if authors != [] {
      var init := authors[..|authors| - 1];
      var last := authors[|authors| - 1];
      assert ValidAuthors(heap, init) && HomesAgree(heap, init);
      MergeAllAt(heap, init, pages, x);
      var h := MergeAll(heap, init, pages);
      MergeGroupAt(h, last.articles, DetailsOf(pages, last.authorHome), x);
      if x in last.articles {
        var k :| 0 <= k < |last.articles| && last.articles[k] == x;
        assert heap[x].authorHome == last.authorHome;
      }
    }
  }

  /** The detail merge is a left-outer join on `url` where the first matching record wins: a grouped
      article with a matching record gets that record's `readCount` and `publishTime`; one without
      is left exactly as it was (in particular it gets no `readCount`); an article in no group and
      every other property are untouched. */
  lemma DetailMergeIsLeftOuterJoin(heap: Heap, authors: seq<Author>, pages: string -> seq<DetailItem>, x: nat)
    requires ValidAuthors(heap, authors) && HomesAgree(heap, authors) && x < |heap|
    ensures x !in AuthorArticles(authors) ==> MergeAll(heap, authors, pages)[x] == heap[x]
    ensures var a := heap[x]; var details := DetailsOf(pages, a.authorHome);
      (x in AuthorArticles(authors) && forall k :: 0 <= k < |details| ==> details[k].url != Some(a.url)) ==>
        MergeAll(heap, authors, pages)[x] == a
    ensures var a := heap[x]; var details := DetailsOf(pages, a.authorHome);
      forall k ::
        (0 <= k < |details| && x in AuthorArticles(authors) && details[k].url == Some(a.url) &&
         forall j :: 0 <= j < k ==> details[j].url != Some(a.url)) ==>
        MergeAll(heap, authors, pages)[x] ==
          a.(readCount := Some(details[k].readCount), publishTime := Some(details[k].publishTime))
  {
    MergeAllAt(heap, authors, pages, x);
    var a := heap[x];
    var details := DetailsOf(pages, a.authorHome);
    forall k | 0 <= k < |details| && x in AuthorArticles(authors) && details[k].url == Some(a.url) &&
        (forall j :: 0 <= j < k ==> details[j].url != Some(a.url))
      ensures FindDetail(details, a.url) == Some(details[k])
    {
      var d := FindDetail(details, a.url);
      var k' :| 0 <= k' < |details| && details[k'] == d.value &&
        forall j :: 0 <= j < k' ==> details[j].url != Some(a.url);
      assert k' == k;
    }
  }

  /** The loop at the detail merge: visit each author's home page, then enrich each of its articles. */
  method MergeDetails(heap: Heap, authors: seq<Author>, pages: string -> seq<DetailItem>)
    returns (merged: Heap)
    requires ValidAuthors(heap, authors)
    ensures merged == MergeAll(heap, authors, pages)
  {
    merged := heap;
    for g := 0 to |authors|
      invariant ValidAuthors(heap, authors[..g])
      invariant merged == MergeAll(heap, authors[..g], pages)
    {
      merged := MergeAuthor(merged, authors[g].articles, DetailsOf(pages, authors[g].authorHome));
      assert authors[..g + 1][..g] == authors[..g];
    }
    assert authors[..|authors|] == authors;
  }

  /** The inner `forEach`: each of one author's articles is enriched from the author's records. */
  method MergeAuthor(heap: Heap, articles: seq<nat>, details: seq<Detail>) returns (merged: Heap)
    requires ValidIds(heap, articles)
    ensures merged == MergeGroup(heap, articles, details)
  {
    merged := heap;
    for k := 0 to |articles|
      invariant |merged| == |heap|
      invariant merged == MergeGroup(heap, articles[..k], details)
    {
      var i := articles[k];
      assert articles[..k + 1][..k] == articles[..k];
      merged := merged[i := Enrich(merged[i], FindDetail(details, merged[i].url))];
    }
    assert articles[..|articles|] == articles;
  }
}
