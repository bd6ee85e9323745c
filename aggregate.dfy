/** The totals and the three ranked report views of `collect`. */
module Aggregate {
  import opened Wrappers
  import opened Seqs
  import opened Sorting
  import opened Records
  import opened Reconcile

  /** `(acc, current) => acc + current.readCount`: adding an absent `readCount` (undefined) gives NaN,
      and NaN stays NaN; `None` stands for NaN. */
  function AddRead(acc: Option<int>, a: Article): (r: Option<int>)
    ensures r.Some? <==> acc.Some? && a.readCount.Some?
    ensures r.Some? ==> r.value == acc.value + a.readCount.value
  {
    if acc.Some? && a.readCount.Some? then Some(acc.value + a.readCount.value) else None
  }

  /** The read-count key of an article; see `SumReads` for articles without one. */
  function ReadOf(a: Article): (r: int)
    ensures a.readCount.Some? ==> r == a.readCount.value
    ensures a.readCount.None? ==> r == 0
  {
    a.readCount.GetOr(0)
  }

  /** `articles.reduce((acc, current) => acc + current.readCount, 0)`: the sum of the read counts
      when every article has one, NaN otherwise. */
  function SumReads(arts: seq<Article>): (r: Option<int>)
    ensures r.Some? <==> forall k :: 0 <= k < |arts| ==> arts[k].readCount.Some?
    ensures r.Some? ==> r.value == SumOf(arts, ReadOf)
  {
    if arts == [] then Some(0)
    else
      var init := arts[..|arts| - 1];
      assert forall k :: 0 <= k < |init| ==> init[k] == arts[k];
      AddRead(SumReads(init), arts[|arts| - 1])
  }

  /** The sum does not depend on the order of the articles. */
  lemma SumReadsPermutation(a: seq<Article>, b: seq<Article>)
    requires multiset(a) == multiset(b)
    ensures SumReads(a) == SumReads(b)
  {
    forall k | 0 <= k < |a|
      ensures a[k] in b
    {
      assert a[k] in multiset(b);
    }
    forall k | 0 <= k < |b|
      ensures b[k] in a
    {
      assert b[k] in multiset(a);
    }
    SumOfPermutation(a, b, ReadOf);
  }

  /** The article objects the ids refer to, as they are serialized. */
  function Deref(heap: Heap, ids: seq<nat>): (r: seq<Article>)
    requires ValidIds(heap, ids)
    ensures |r| == |ids|
  {
    seq(|ids|, k requires 0 <= k < |ids| => heap[ids[k]])
  }

  /** The comparator `(a, b) => b.readCount - a.readCount` on article references. */
  function IdRead(heap: Heap): (r: nat -> int)
    ensures forall i: nat :: i < |heap| ==> r(i) == ReadOf(heap[i])
  {
    (i: nat) => if i < |heap| then ReadOf(heap[i]) else 0
  }

  function TopicSize(t: Topic): int {
    |t.articles|
  }

  function AuthorSize(a: Author): int {
    |a.articles|
  }

  lemma SortedIdsValid(heap: Heap, ids: seq<nat>)
    requires ValidIds(heap, ids)
    ensures ValidIds(heap, SortDesc(ids, IdRead(heap)))
  {
    var s := SortDesc(ids, IdRead(heap));
    forall k | 0 <= k < |s|
      ensures s[k] < |heap|
    {
      assert s[k] in multiset(ids);
    }
  }

  /** Reading the objects of a concatenation of references is concatenating what each part reads. */
  lemma DerefAppend(heap: Heap, a: seq<nat>, b: seq<nat>)
    requires ValidIds(heap, a) && ValidIds(heap, b)
    ensures ValidIds(heap, a + b)
    ensures Deref(heap, a + b) == Deref(heap, a) + Deref(heap, b)
  {
    assert ValidIds(heap, a + b);
    var l, r := Deref(heap, a + b), Deref(heap, a) + Deref(heap, b);
    forall k | 0 <= k < |l|
      ensures l[k] == r[k]
    {
      if k < |a| {
        assert (a + b)[k] == a[k];
      } else {
        assert (a + b)[k] == b[k - |a|];
      }
    }
  }

  /** Inserting an existing object's id keeps a list of references valid. */
  lemma InsertedIdsValid(heap: Heap, x: nat, ids: seq<nat>)
    requires x < |heap| && ValidIds(heap, ids)
    ensures ValidIds(heap, Insert(x, ids, IdRead(heap)))
  {
    var r := Insert(x, ids, IdRead(heap));
    forall k | 0 <= k < |r|
      ensures r[k] < |heap|
    {
      assert r[k] in multiset(r);
    }
  }

  /** Inserting a reference and then reading the objects is inserting the object by read count. */
  lemma {:induction false} DerefInsert(heap: Heap, x: nat, ids: seq<nat>)
    requires x < |heap| && ValidIds(heap, ids)
    ensures ValidIds(heap, Insert(x, ids, IdRead(heap)))
    ensures Deref(heap, Insert(x, ids, IdRead(heap))) == Insert(heap[x], Deref(heap, ids), ReadOf)
  {
    var key := IdRead(heap);
    var r := Insert(x, ids, key);
    InsertedIdsValid(heap, x, ids);
    var d := Deref(heap, ids);
    if ids == [] || key(ids[0]) <= key(x) {
      assert r == [x] + ids;
      DerefAppend(heap, [x], ids);
    } else {
      var rest := ids[1..];
      assert ValidIds(heap, rest);
      DerefInsert(heap, x, rest);
      assert d[1..] == Deref(heap, rest);
      assert ReadOf(d[0]) == key(ids[0]) && ReadOf(heap[x]) == key(x);
      var inner := Insert(x, rest, key);
      assert r == [ids[0]] + inner;
      DerefAppend(heap, [ids[0]], inner);
    }
  }

  /** Sorting the references and then reading the objects is sorting the objects by read count. */
  lemma {:induction false} DerefSort(heap: Heap, ids: seq<nat>)
    requires ValidIds(heap, ids)
    ensures ValidIds(heap, SortDesc(ids, IdRead(heap)))
    ensures Deref(heap, SortDesc(ids, IdRead(heap))) == SortDesc(Deref(heap, ids), ReadOf)
  {
    SortedIdsValid(heap, ids);
    if ids != [] {
      var rest := ids[1..];
      assert ValidIds(heap, rest);
      DerefSort(heap, rest);
      SortedIdsValid(heap, rest);
      var sortedRest := SortDesc(rest, IdRead(heap));
      DerefInsert(heap, ids[0], sortedRest);
      var d := Deref(heap, ids);
      assert d[1..] == Deref(heap, rest);
      assert d[0] == heap[ids[0]];
      calc {
        Deref(heap, SortDesc(ids, IdRead(heap)));
        Deref(heap, Insert(ids[0], sortedRest, IdRead(heap)));
        Insert(heap[ids[0]], Deref(heap, sortedRest), ReadOf);
        Insert(d[0], SortDesc(d[1..], ReadOf), ReadOf);
        SortDesc(d, ReadOf);
      }
    }
  }

  /** A view entry: `{ articleCount, readCount, ...group, articles }` where `group` is a topic
      (`topicName`, `topicHome`) or an author (`authorName`, `authorHome`). */
  datatype Entry = Entry(articleCount: nat, readCount: Option<int>, name: string, home: string,
                         articles: seq<Article>)

  datatype FlatReport = FlatReport(articleCount: nat, readCount: Option<int>, articles: seq<Article>)

  datatype TopicReport = TopicReport(articleCount: nat, readCount: Option<int>, topicCount: nat,
                                     topics: seq<Entry>)

  datatype AuthorReport = AuthorReport(articleCount: nat, readCount: Option<int>, authorCount: nat,
                                       authors: seq<Entry>)

  /** An entry as the map callback builds it: the count and the sum taken before the group's own
      articles are sorted by read count. */
  function EntryOf(heap: Heap, name: string, home: string, ids: seq<nat>): (r: Entry)
    requires ValidIds(heap, ids)
    ensures r.name == name && r.home == home
    ensures r.articleCount == |ids| == |r.articles|
    ensures r.readCount == SumReads(Deref(heap, ids))
  {
    SortedIdsValid(heap, ids);
    Entry(|ids|, SumReads(Deref(heap, ids)), name, home, Deref(heap, SortDesc(ids, IdRead(heap))))
  }

  /** What every entry of the topic and author views promises. */
  predicate Consistent(e: Entry) {
    e.articleCount == |e.articles| &&
    e.readCount == SumReads(e.articles) &&
    SortedDesc(e.articles, ReadOf)
  }

  /** An entry counts and sums its group's articles and lists exactly them, sorted non-increasing by
      read count, with equal read counts in the group's order. */
  lemma EntryOfConsistent(heap: Heap, name: string, home: string, ids: seq<nat>)
    requires ValidIds(heap, ids)
    ensures Consistent(EntryOf(heap, name, home, ids))
    ensures multiset(EntryOf(heap, name, home, ids).articles) == multiset(Deref(heap, ids))
    ensures forall v :: WithKey(EntryOf(heap, name, home, ids).articles, ReadOf, v) ==
                        WithKey(Deref(heap, ids), ReadOf, v)
  {
    DerefSort(heap, ids);
    var e := EntryOf(heap, name, home, ids);
    SumReadsPermutation(Deref(heap, ids), e.articles);
    forall v
      ensures WithKey(e.articles, ReadOf, v) == WithKey(Deref(heap, ids), ReadOf, v)
    {
      SortStable(Deref(heap, ids), ReadOf, v);
    }
  }

  /** The flat view: every article of `allArticles`, sorted by read count, with the grand totals. */
  function FlatView(heap: Heap, all: seq<nat>): (r: FlatReport)
    requires ValidIds(heap, all)
    ensures r.articleCount == |all| == |r.articles|
    ensures r.readCount == SumReads(Deref(heap, all))
  {
    SortedIdsValid(heap, all);
    FlatReport(|all|, SumReads(Deref(heap, all)), Deref(heap, SortDesc(all, IdRead(heap))))
  }

  /** The flat view reports `allArticles.length` and the sum of its read counts, and its articles are
      those of `allArticles`, non-increasing by read count, equal read counts in prior order. */
  lemma FlatViewProperties(heap: Heap, all: seq<nat>)
    requires ValidIds(heap, all)
    ensures var r := FlatView(heap, all);
      r.articleCount == |r.articles| == |all| &&
      r.readCount == SumReads(r.articles) &&
      SortedDesc(r.articles, ReadOf) &&
      multiset(r.articles) == multiset(Deref(heap, all)) &&
      forall v :: WithKey(r.articles, ReadOf, v) == WithKey(Deref(heap, all), ReadOf, v)
  {
    EntryOfConsistent(heap, "", "", all);
  }

  function TopicEntries(heap: Heap, topics: seq<Topic>): (r: seq<Entry>)
    requires ValidTopics(heap, topics)
    ensures |r| == |topics|
  {
    seq(|topics|, k requires 0 <= k < |topics| =>
      EntryOf(heap, topics[k].topicName, topics[k].topicHome, topics[k].articles))
  }

  function AuthorEntries(heap: Heap, authors: seq<Author>): (r: seq<Entry>)
    requires ValidAuthors(heap, authors)
    ensures |r| == |authors|
  {
    seq(|authors|, k requires 0 <= k < |authors| =>
      EntryOf(heap, authors[k].authorName, authors[k].authorHome, authors[k].articles))
  }

  lemma SortedTopicsValid(heap: Heap, topics: seq<Topic>)
    requires ValidTopics(heap, topics)
    ensures ValidTopics(heap, SortDesc(topics, TopicSize))
  {
    var s := SortDesc(topics, TopicSize);
    forall k | 0 <= k < |s|
      ensures ValidIds(heap, s[k].articles)
    {
      assert s[k] in multiset(topics);
    }
  }

  lemma SortedAuthorsValid(heap: Heap, authors: seq<Author>)
    requires ValidAuthors(heap, authors)
    ensures ValidAuthors(heap, SortDesc(authors, AuthorSize))
  {
    var s := SortDesc(authors, AuthorSize);
    forall k | 0 <= k < |s|
      ensures ValidIds(heap, s[k].articles)
    {
      assert s[k] in multiset(authors);
    }
  }

  /** The topic view: topics sorted by number of articles, each turned into an entry. */
  function TopicView(heap: Heap, topics: seq<Topic>, count: nat, readCount: Option<int>): (r: TopicReport)
    requires ValidTopics(heap, topics)
    ensures r.articleCount == count && r.readCount == readCount
    ensures r.topicCount == |r.topics| == |topics|
  {
    SortedTopicsValid(heap, topics);
    TopicReport(count, readCount, |topics|, TopicEntries(heap, SortDesc(topics, TopicSize)))
  }

  /** The author view: authors sorted by number of articles, each turned into an entry. */
  function AuthorView(heap: Heap, authors: seq<Author>, count: nat, readCount: Option<int>): (r: AuthorReport)
    requires ValidAuthors(heap, authors)
    ensures r.articleCount == count && r.readCount == readCount
    ensures r.authorCount == |r.authors| == |authors|
  {
    SortedAuthorsValid(heap, authors);
    AuthorReport(count, readCount, |authors|, AuthorEntries(heap, SortDesc(authors, AuthorSize)))
  }

  function EntrySize(e: Entry): int {
    e.articleCount
  }

  lemma {:induction false} TopicEntriesSize(heap: Heap, topics: seq<Topic>)
    requires ValidTopics(heap, topics)
    ensures SumOf(TopicEntries(heap, topics), EntrySize) == SumOf(topics, TopicSize)
  {
    if topics != [] {
      var init := topics[..|topics| - 1];
      TopicEntriesSize(heap, init);
      assert TopicEntries(heap, topics)[..|topics| - 1] == TopicEntries(heap, init);
    }
  }

  lemma {:induction false} AuthorEntriesSize(heap: Heap, authors: seq<Author>)
    requires ValidAuthors(heap, authors)
    ensures SumOf(AuthorEntries(heap, authors), EntrySize) == SumOf(authors, AuthorSize)
  {
    if authors != [] {
      var init := authors[..|authors| - 1];
      AuthorEntriesSize(heap, init);
      assert AuthorEntries(heap, authors)[..|authors| - 1] == AuthorEntries(heap, init);
    }
  }

  lemma {:induction false} TopicArticlesSize(topics: seq<Topic>)
    ensures |TopicArticles(topics)| == SumOf(topics, TopicSize)
  {
    if topics != [] {
      TopicArticlesSize(topics[..|topics| - 1]);
    }
  }

  lemma {:induction false} AuthorArticlesSize(authors: seq<Author>)
    ensures |AuthorArticles(authors)| == SumOf(authors, AuthorSize)
  {
    if authors != [] {
      AuthorArticlesSize(authors[..|authors| - 1]);
    }
  }

  /** The topic view: `topicCount` topics, non-increasing by article count (ties in prior order);
      entry k is built from the k-th topic of that order, with its name and home and a read-count
      sorted permutation of its own articles; every entry is consistent; and the entries' article
      counts add up to all topics' articles. */
  lemma TopicViewProperties(heap: Heap, topics: seq<Topic>, count: nat, readCount: Option<int>)
    requires ValidTopics(heap, topics)
    ensures var r := TopicView(heap, topics, count, readCount);
      r.articleCount == count && r.readCount == readCount &&
      r.topicCount == |r.topics| == |topics| &&
      (forall i, j :: 0 <= i < j < |r.topics| ==> r.topics[i].articleCount >= r.topics[j].articleCount) &&
      (forall k :: 0 <= k < |r.topics| ==> Consistent(r.topics[k])) &&
      SumOf(r.topics, EntrySize) == |TopicArticles(topics)|
    ensures var s := SortDesc(topics, TopicSize);
      multiset(s) == multiset(topics) &&
      (forall v :: WithKey(s, TopicSize, v) == WithKey(topics, TopicSize, v)) &&
      ValidTopics(heap, s)
    ensures var s := SortDesc(topics, TopicSize);
      var r := TopicView(heap, topics, count, readCount);
      forall k :: 0 <= k < |r.topics| ==>
        ValidIds(heap, s[k].articles) &&
        r.topics[k].name == s[k].topicName && r.topics[k].home == s[k].topicHome &&
        multiset(r.topics[k].articles) == multiset(Deref(heap, s[k].articles))
  {
    var s := SortDesc(topics, TopicSize);
    SortedTopicsValid(heap, topics);
    forall v
      ensures WithKey(s, TopicSize, v) == WithKey(topics, TopicSize, v)
    {
      SortStable(topics, TopicSize, v);
    }
    var r := TopicView(heap, topics, count, readCount);
    forall k | 0 <= k < |r.topics|
      ensures Consistent(r.topics[k]) && r.topics[k].articleCount == TopicSize(s[k])
      ensures multiset(r.topics[k].articles) == multiset(Deref(heap, s[k].articles))
    {
      EntryOfConsistent(heap, s[k].topicName, s[k].topicHome, s[k].articles);
    }
    TopicEntriesSize(heap, s);
    SumOfPermutation(s, topics, TopicSize);
    TopicArticlesSize(topics);
  }

  /** The author view, likewise: entry k is built from the k-th author in article-count order (ties
      in prior order), with its name and home and a permutation of its own articles; with a grouping
      that partitions `ids`, the entries' article counts add up to `ids`' length: every article is
      counted in exactly one author. */
  lemma AuthorViewProperties(heap: Heap, authors: seq<Author>, count: nat, readCount: Option<int>)
    requires ValidAuthors(heap, authors)
    ensures var r := AuthorView(heap, authors, count, readCount);
      r.articleCount == count && r.readCount == readCount &&
      r.authorCount == |r.authors| == |authors| &&
      (forall i, j :: 0 <= i < j < |r.authors| ==> r.authors[i].articleCount >= r.authors[j].articleCount) &&
      (forall k :: 0 <= k < |r.authors| ==> Consistent(r.authors[k])) &&
      SumOf(r.authors, EntrySize) == |AuthorArticles(authors)|
    ensures var s := SortDesc(authors, AuthorSize);
      multiset(s) == multiset(authors) &&
      (forall v :: WithKey(s, AuthorSize, v) == WithKey(authors, AuthorSize, v)) &&
      ValidAuthors(heap, s)
    ensures var s := SortDesc(authors, AuthorSize);
      var r := AuthorView(heap, authors, count, readCount);
      forall k :: 0 <= k < |r.authors| ==>
        ValidIds(heap, s[k].articles) &&
        r.authors[k].name == s[k].authorName && r.authors[k].home == s[k].authorHome &&
        multiset(r.authors[k].articles) == multiset(Deref(heap, s[k].articles))
  {
    var s := SortDesc(authors, AuthorSize);
    SortedAuthorsValid(heap, authors);
    forall v
      ensures WithKey(s, AuthorSize, v) == WithKey(authors, AuthorSize, v)
    {
      SortStable(authors, AuthorSize, v);
    }
    var r := AuthorView(heap, authors, count, readCount);
    forall k | 0 <= k < |r.authors|
      ensures Consistent(r.authors[k]) && r.authors[k].articleCount == AuthorSize(s[k])
      ensures multiset(r.authors[k].articles) == multiset(Deref(heap, s[k].articles))
    {
      EntryOfConsistent(heap, s[k].authorName, s[k].authorHome, s[k].articles);
    }
    AuthorEntriesSize(heap, s);
    SumOfPermutation(s, authors, AuthorSize);
    AuthorArticlesSize(authors);
  }
}
