/** The topic back-fill of `collect`: every topic article is assigned the first article of the
    (already sorted) `allArticles` that has its url. */
module Backfill {
  import opened Wrappers
  import opened Records
  import opened Reconcile

  /** `allArticles.find(one => article.url === one.url)`: the first article of `all` with the url. */
  function FirstByUrl(heap: Heap, all: seq<nat>, url: string): (r: Option<nat>)
    requires ValidIds(heap, all)
    ensures r.None? <==> forall k :: 0 <= k < |all| ==> heap[all[k]].url != url
    ensures r.Some? ==> r.value < |heap| && heap[r.value].url == url
    ensures r.Some? ==>
      exists k :: 0 <= k < |all| && all[k] == r.value &&
        forall j :: 0 <= j < k ==> heap[all[j]].url != url
  {
    if all == [] then None
    else if heap[all[0]].url == url then Some(all[0])
    else
      var r := FirstByUrl(heap, all[1..], url);
      assert forall k :: 1 <= k < |all| ==> all[k] == all[1..][k - 1];
      r
  }

  /** `Object.assign(article, found)` for the article `i` on the current heap. */
  function Refill(heap: Heap, all: seq<nat>, i: nat): (r: Article)
    requires ValidIds(heap, all) && i < |heap|
    ensures r.url == heap[i].url
    ensures FirstByUrl(heap, all, heap[i].url).None? ==> r == heap[i]
    ensures FirstByUrl(heap, all, heap[i].url).Some? ==>
      var j := FirstByUrl(heap, all, heap[i].url).value;
      r.(readCount := heap[j].readCount, publishTime := heap[j].publishTime) == heap[j] &&
      r.readCount == (if heap[j].readCount.Some? then heap[j].readCount else heap[i].readCount) &&
      r.publishTime == (if heap[j].publishTime.Some? then heap[j].publishTime else heap[i].publishTime)
  {
    match FirstByUrl(heap, all, heap[i].url)
    case None => heap[i]
    case Some(j) => Overlay(heap[i], heap[j])
  }

  /** `topics.forEach(one => one.articles.forEach(...))` over the articles `ids`, in order. */
  function BackfillIds(heap: Heap, ids: seq<nat>, all: seq<nat>): (r: Heap)
    requires ValidIds(heap, ids) && ValidIds(heap, all)
    ensures |r| == |heap|
  {
    if ids == [] then heap
    else
      var h := BackfillIds(heap, ids[..|ids| - 1], all);
      var i := ids[|ids| - 1];
      h[i := Refill(h, all, i)]
  }

  /** The search only looks at urls. */
  lemma {:induction false} FirstByUrlOnlyUrls(h1: Heap, h2: Heap, all: seq<nat>, url: string)
    requires ValidIds(h1, all) && ValidIds(h2, all)
    requires forall k :: 0 <= k < |all| ==> h1[all[k]].url == h2[all[k]].url
    ensures FirstByUrl(h1, all, url) == FirstByUrl(h2, all, url)
  {
    if all != [] {
      FirstByUrlOnlyUrls(h1, h2, all[1..], url);
    }
  }

  /** The first article with a url is its own match, and refilling it changes nothing. */
  lemma RefillFirst(heap: Heap, all: seq<nat>, url: string)
    requires ValidIds(heap, all) && FirstByUrl(heap, all, url).Some?
    ensures var j := FirstByUrl(heap, all, url).value; Refill(heap, all, j) == heap[j]
  {
    OverlaySelf(heap[FirstByUrl(heap, all, url).value]);
  }

  /** The back-fill, per article, in terms of the heap before it: each processed article is assigned
      the first article of `all` with its url, as that article was before the pass. */
  lemma {:induction false} BackfillAt(heap: Heap, ids: seq<nat>, all: seq<nat>, x: nat)
    requires ValidIds(heap, ids) && ValidIds(heap, all) && x < |heap|
    ensures BackfillIds(heap, ids, all)[x] == if x in ids then Refill(heap, all, x) else heap[x]
  {
    if ids != [] {
      var init := ids[..|ids| - 1];
      var i := ids[|ids| - 1];
      assert ids == init + [i];
      var h := BackfillIds(heap, init, all);
      forall y: nat | y < |heap|
        ensures h[y] == if y in init then Refill(heap, all, y) else heap[y]
        ensures h[y].url == heap[y].url
      {
        BackfillAt(heap, init, all, y);
      }
      if x == i {
        FirstByUrlOnlyUrls(h, heap, all, heap[i].url);
        match FirstByUrl(heap, all, heap[i].url)
        case None =>
        case Some(j) =>
          RefillFirst(heap, all, heap[i].url);
          assert h[j] == heap[j];
          OverlayTwice(heap[i], heap[j]);
      }
    }
  }

  /** With duplicate urls the first match in `allArticles` wins: a topic article takes over all of
      its properties, topic name and home included, and keeps only detail properties it lacks. */
  lemma FirstMatchWins(heap: Heap, ids: seq<nat>, all: seq<nat>, x: nat, k: nat)
    requires ValidIds(heap, ids) && ValidIds(heap, all) && x in ids && x < |heap|
    requires k < |all| && heap[all[k]].url == heap[x].url
    requires forall j :: 0 <= j < k ==> heap[all[j]].url != heap[x].url
    ensures BackfillIds(heap, ids, all)[x] == Overlay(heap[x], heap[all[k]])
    ensures BackfillIds(heap, ids, all)[x].topicName == heap[all[k]].topicName
    ensures BackfillIds(heap, ids, all)[x].topicHome == heap[all[k]].topicHome
  {
    BackfillAt(heap, ids, all, x);
    var j := FirstByUrl(heap, all, heap[x].url).value;
    var k' :| 0 <= k' < |all| && all[k'] == j && forall p :: 0 <= p < k' ==> heap[all[p]].url != heap[x].url;
    assert k' == k;
  }

  /** When the urls in `all` are unique and every topic article is in `all` (as the grouping
      guarantees), each article finds itself and the back-fill changes nothing. */
  lemma BackfillNoOp(heap: Heap, ids: seq<nat>, all: seq<nat>)
    requires ValidIds(heap, ids) && ValidIds(heap, all)
    requires forall k :: 0 <= k < |ids| ==> ids[k] in all
    requires forall p, q :: 0 <= p < q < |all| ==> heap[all[p]].url != heap[all[q]].url
    ensures BackfillIds(heap, ids, all) == heap
  {
    var r := BackfillIds(heap, ids, all);
    forall x: nat | x < |heap|
      ensures r[x] == heap[x]
    {
      BackfillAt(heap, ids, all, x);
      if x in ids {
        var p :| 0 <= p < |all| && all[p] == x;
        var j := FirstByUrl(heap, all, heap[x].url).value;
        var q :| 0 <= q < |all| && all[q] == j && forall m :: 0 <= m < q ==> heap[all[m]].url != heap[x].url;
        assert q == p;
        OverlaySelf(heap[x]);
      }
    }
  }

  /** Running the back-fill twice gives the same heap as running it once. */
  lemma BackfillIdempotent(heap: Heap, ids: seq<nat>, all: seq<nat>)
    requires ValidIds(heap, ids) && ValidIds(heap, all)
    ensures BackfillIds(BackfillIds(heap, ids, all), ids, all) == BackfillIds(heap, ids, all)
  {
    var h1 := BackfillIds(heap, ids, all);
    forall y: nat | y < |heap|
      ensures h1[y] == if y in ids then Refill(heap, all, y) else heap[y]
      ensures h1[y].url == heap[y].url
    {
      BackfillAt(heap, ids, all, y);
    }
    var h2 := BackfillIds(h1, ids, all);
    forall x: nat | x < |heap|
      ensures h2[x] == h1[x]
    {
      BackfillAt(h1, ids, all, x);
      if x in ids {
        FirstByUrlOnlyUrls(h1, heap, all, heap[x].url);
        match FirstByUrl(heap, all, heap[x].url)
        case None =>
        case Some(j) =>
          RefillFirst(heap, all, heap[x].url);
          assert h1[j] == heap[j];
          OverlayTwice(heap[x], heap[j]);
      }
    }
  }

  /** The back-fill loop of `collect`, topic after topic, article after article. */
  method BackfillTopics(heap: Heap, topics: seq<Topic>, all: seq<nat>) returns (filled: Heap)
    requires ValidTopics(heap, topics) && ValidIds(heap, all)
    ensures ValidIds(heap, TopicArticles(topics))
    ensures filled == BackfillIds(heap, TopicArticles(topics), all)
  {
    filled := heap;
    for t := 0 to |topics|
      invariant ValidIds(heap, TopicArticles(topics[..t]))
      invariant filled == BackfillIds(heap, TopicArticles(topics[..t]), all)
    {
      filled := BackfillTopic(heap, TopicArticles(topics[..t]), filled, topics[t].articles, all);
      assert topics[..t + 1] == topics[..t] + [topics[t]];
      TopicArticlesSnoc(topics[..t], topics[t]);
    }
    assert topics[..|topics|] == topics;
  }

  /** The inner `forEach` over one topic's articles, after the articles `seen` were back-filled. */
  method BackfillTopic(heap: Heap, ghost seen: seq<nat>, filled: Heap, articles: seq<nat>, all: seq<nat>)
    returns (refilled: Heap)
    requires ValidIds(heap, seen) && ValidIds(heap, articles) && ValidIds(heap, all)
    requires filled == BackfillIds(heap, seen, all)
    ensures ValidIds(heap, seen + articles)
    ensures refilled == BackfillIds(heap, seen + articles, all)
  {
    refilled := filled;
    assert seen + articles[..0] == seen;
    for j := 0 to |articles|
      invariant ValidIds(heap, seen + articles[..j])
      invariant refilled == BackfillIds(heap, seen + articles[..j], all)
    {
      var i := articles[j];
      assert seen + articles[..j + 1] == (seen + articles[..j]) + [i];
      assert (seen + articles[..j + 1])[..|seen| + j] == seen + articles[..j];
      refilled := refilled[i := Refill(refilled, all, i)];
    }
    assert articles[..|articles|] == articles;
  }
}
