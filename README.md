# Article statistics for a publication's topics — a Dafny model

The script `src/countArticles.js` collects statistics about the articles of one Jianshu author
account. The account is a publication that owns several topics ("专题"). The script works in four stages:

1. It reads the topics from the account's profile page.
2. It visits each topic page and scrapes the article stubs listed there.
3. It groups those article objects by author, visits each author's home page and merges that
   page's read counts and publish times into the articles.
4. It builds three reports:
   - a flat list of all articles sorted by read count;
   - a per-topic view, after copying the merged details back into the topics' articles by url;
   - a per-author view.

   Each topic or author entry counts its articles, sums their read counts and sorts its articles by
   read count. The entries themselves are sorted by article count.

The model keeps the script's structure:

- **Records** (`records.dfy`). The article record is built by spreading a topic over a stub. Two
  operations change it: enriching it with a detail record, and overlaying it with another article
  (the script's `Object.assign`).
- **Extract** (`extract.dfy`). The three page extractors are pure functions from the list items a page
  shows to records. This module also holds `safeFunc`, which turns a call that throws into an
  `[error, null]` pair.
- **Reconcile** (`reconcile.dfy`), **Merge** (`merge.dfy`), **Backfill** (`backfill.dfy`). These hold
  the imperative loops of `collect`. Article objects are shared between topics, authors and the flat
  list, so the model keeps them in an explicit heap: `Heap = seq<Article>`, indexed by object id.
  Topics and authors hold id sequences, and an `Object.assign` on an article is an update of one heap
  slot. Each loop is a method with loop invariants. The detail merge (`MergeDetails`, `MergeAuthor`)
  and the back-fill (`BackfillTopics`, `BackfillTopic`) change the heap and are proved equal to folds
  over it (`MergeAll`, `MergeGroup`, `BackfillIds`), whose meaning closed-form lemmas state. The topic
  loop (`AttachArticles`) is proved against the closed form `Attached`, which numbers the new objects
  in topic order. The grouping (`GroupTopic`, `GroupByAuthor`) leaves the heap alone and is proved to
  keep the invariant `Grouped`.
- **Sorting** (`sorting.dfy`). `Array.prototype.sort` is stable, so it is modelled by a stable
  descending insertion sort. It is proved to be a sorted permutation of its input that keeps the
  order of elements with equal keys.
- **Aggregate** (`aggregate.dfy`). The three report views. A read-count sum is an `Option<int>`:
  JavaScript's `undefined + n` is `NaN`, so `None` stands for `NaN`.
- **Collect** (`collect.dfy`). The whole run, end to end.

An article's `publishTime` is `Option<Option<string>>`. The outer level says whether the property
was ever assigned to the article. The inner level is the detail record's own `publishTime`, an
`Option<string>`: null when the item has no `.time` element, otherwise the formatted time text.

One might expect an article with no matching record on its author's page to count as 0 reads, so
that totals stay numeric. The code never does this: `Object.assign(article, undefined)` leaves
`readCount` absent, and every sum that includes such an article becomes `NaN`. The model follows the
code, and `Collect.UnmatchedArticleMakesTotalNaN` states the consequence.

## Model

| member | source | states |
|---|---|---|
| Extract.SafeFunc | src/countArticles.js:28-35 | a returned value (possibly null or undefined) lands in the value slot with the error slot null; a thrown value lands in the error slot with the value slot null; a filled slot tells which way the action ended |
| Extract.SafeFuncRoundTrip | src/countArticles.js:28-35 | the outcome can be read back from the pair exactly when the action did not throw null or undefined; such a throw gives `[null, null]`, the same pair as returning null |
| Extract.FindSection | src/countArticles.js:142-143 | finds the first `.title` section whose text is "他创建的专题", and finds none exactly when no section has that heading |
| Extract.TopicOf | src/countArticles.js:147-152 | an item yields no topic exactly when it has no `.name` link; otherwise the link's text is the topicName and its href the topicHome |
| Extract.ExtractTopics | src/countArticles.js:141-154 | no topics section gives []; otherwise at most one topic per list item, each taken from an item's `.name` link (text becomes topicName, href becomes topicHome) |
| Extract.ExtractTopicsOrder | src/countArticles.js:145-153 | the reducer keeps document order: the topics of a + b are the topics of a followed by those of b |
| Extract.ExtractTopicsComplete | src/countArticles.js:145-153 | when the topics section is found and every item has a `.name` link, there is exactly one topic per item, in order, with that link's text and href |
| Extract.StubOf | src/countArticles.js:188-203 | an item yields no stub exactly when its title or nickname is missing; an absent or unparsable star or comment count becomes 0 |
| Extract.ExtractArticles | src/countArticles.js:185-205 | at most one stub per item; every stub comes from an item that has both a title and a nickname |
| Extract.ExtractArticlesOrder | src/countArticles.js:186-204 | stubs keep document order (extraction distributes over concatenation) |
| Extract.ExtractArticlesComplete | src/countArticles.js:186-204 | when every item has a title and a nickname, every item yields exactly its own stub, in order |
| Extract.ExtractArticlesNone | src/countArticles.js:190 | items that all lack a title or a nickname yield no stubs |
| Extract.DetailOf | src/countArticles.js:215-223 | url is null exactly when the item has no title, otherwise the title's href; readCount is the parsed count or 0 when it is missing or unparsable; publishTime is null exactly when there is no time element |
| Extract.ExtractDetails | src/countArticles.js:214-225 | one record per item; url is absent exactly when the title is missing and is otherwise the title's href; read count defaults to 0; publishTime is null exactly when there is no time element |
| Seqs.FilterMap | src/countArticles.js:146-153 | the skip-or-concat reducer: the result is no longer than the input and each element comes from some input element |
| Seqs.FilterMapAppend | src/countArticles.js:146-153 | the skip-or-concat reducer distributes over concatenation of its input |
| Seqs.FilterMapKeepsAll | src/countArticles.js:146-153 | when no element is skipped, the output is the mapped input, element by element |
| Seqs.FilterMapDropsAll | src/countArticles.js:146-153 | when every element is skipped, the output is empty |
| Seqs.SumOfAppend | src/countArticles.js:83 | a sum over a concatenation is the sum of the two sums |
| Seqs.SumOfPermutation | src/countArticles.js:83 | a sum does not depend on the order of its terms |
| Records.NewArticle | src/countArticles.js:51 | `{ ...topic, ...one }`: topicName and topicHome from the topic; authorName, authorHome, title, url, stars and comments from the stub; no readCount and no publishTime yet |
| Records.Enrich | src/countArticles.js:76 | `Object.assign` with a found detail record sets readCount and publishTime to the record's values and changes nothing else; with `undefined` the article is unchanged |
| Records.Overlay | src/countArticles.js:95 | `Object.assign(article, other)`: every property the other article has is copied; readCount and publishTime keep the target's value where the other article lacks them |
| Records.OverlaySelf | src/countArticles.js:95 | assigning an article's own properties onto it changes nothing |
| Records.OverlayTwice | src/countArticles.js:95 | assigning the same source object twice has the effect of assigning it once |
| Reconcile.StubsOf | src/countArticles.js:48-49 | visiting a topic's home page yields at most one stub per list item there, each taken from one item's title and nickname links |
| Reconcile.AttachArticles | src/countArticles.js:46-53 | one topic per reference, with its name and home; each topic holds fresh article objects, one per stub of its listing page, each the topic spread under the stub; every object belongs to exactly one topic |
| Reconcile.TopicAttachedGrow | src/countArticles.js:47-53 | creating further article objects leaves an attached topic's articles as they were |
| Reconcile.TopicAttachedNew | src/countArticles.js:50-52 | the objects created for one topic are its name and home spread under each stub, in listing order |
| Reconcile.AttachedSnoc | src/countArticles.js:47-53 | one more iteration attaches the next topic and keeps the earlier ones attached |
| Reconcile.AttachedMeans | src/countArticles.js:47-53 | attached topics name only existing objects, and each object is its topic spread under its stub |
| Reconcile.TopicArticlesSnoc | src/countArticles.js:47-53 | appending a topic appends its articles to the sequence of all topic articles |
| Reconcile.TopicArticlesValid | src/countArticles.js:47-53 | every id held by a topic names an existing article object |
| Reconcile.AuthorArticlesValid | src/countArticles.js:81 | the concatenated author lists name only existing article objects |
| Reconcile.FirstSeenHomes | src/countArticles.js:56-67 | author homes in order of first appearance, without repeats, exactly the homes that occur |
| Reconcile.WithHome | src/countArticles.js:57-64 | the articles of one author: only articles of the input, all with that home |
| Reconcile.FindAuthor | src/countArticles.js:59 | `acc.find` on authorHome: the first author with that home, and none exactly when no author has it |
| Reconcile.WithHomeSnoc | src/countArticles.js:57-64 | one more article extends exactly its own author's group |
| Reconcile.FirstSeenSnoc | src/countArticles.js:59-63 | one more article adds its home to the author list exactly when that home is new |
| Reconcile.WithHomeUnseen | src/countArticles.js:59-63 | an author not yet seen has no articles |
| Reconcile.AddArticle | src/countArticles.js:58-64 | an existing author with the article's home gets the id appended and all other authors are unchanged; otherwise a new author with the article's name and home and only this id is appended |
| Reconcile.AuthorArticles | src/countArticles.js:81 | `allArticles` holds exactly the ids found in some author's list |
| Reconcile.AddArticleGroups | src/countArticles.js:58-64 | the forEach callback keeps the grouping invariant: the next article goes to the existing author with its home, or starts a new author named after it |
| Reconcile.GroupOfOther | src/countArticles.js:59-64 | an article with another home leaves a group as it was |
| Reconcile.GroupOfJoin | src/countArticles.js:60-61 | the existing author of an article's home gets the article appended |
| Reconcile.GroupOfNew | src/countArticles.js:62-63 | the first article with a home creates that author with its name, its home and itself as the only article |
| Reconcile.GroupsJoin | src/countArticles.js:59-61 | an article whose author exists joins that group; every group stays exact |
| Reconcile.GroupsOpen | src/countArticles.js:59-63 | an article of a new author opens a new group at the end; every group stays exact |
| Reconcile.GroupTopic | src/countArticles.js:57-65 | the forEach over one topic's articles keeps the grouping exact for all articles seen so far |
| Reconcile.GroupByAuthor | src/countArticles.js:56-67 | authors in order of first appearance, one per distinct authorHome; each holds exactly the articles with that home in encounter order; its name comes from its first article |
| Reconcile.GroupsCountAt | src/countArticles.js:56-67 | each article object occurs among the author lists exactly as often as among the topic articles |
| Reconcile.GroupsMembership | src/countArticles.js:56-67 | an article object is in an author's list exactly when it is a topic article with that author's home |
| Reconcile.CountInGroups | src/countArticles.js:56-67 | in groups with distinct homes, an article occurs as often as it does in the one group of its home |
| Reconcile.AuthorArticlesCount | src/countArticles.js:81 | the last author's articles come last in `allArticles`, so an object's count there is its count in the earlier authors' lists plus its count in the last author's list |
| Reconcile.WithHomeCount | src/countArticles.js:57-64 | an author's group holds an article exactly as often as the input does when the homes agree, and never otherwise |
| Reconcile.GroupsPartition | src/countArticles.js:56-67 | the groups partition the topic articles: the concatenation of all author lists is a permutation of them (so it has the same length), and an article is in a group exactly when it has that group's home |
| Merge.Joined | src/countArticles.js:75-76 | an article changes at most in readCount and publishTime, and not at all when its author's page has no record with its url |
| Merge.DetailsOf | src/countArticles.js:72-73 | visiting an author's home page yields one detail record per list item there, with url null exactly when the item has no title and otherwise the title's href |
| Merge.FindDetail | src/countArticles.js:75 | `authorAllArticles.find` on url: the first record with that url, and none exactly when no record has it |
| Merge.MergeGroup | src/countArticles.js:74-77 | enriching one author's articles keeps the number of article objects |
| Merge.MergeAll | src/countArticles.js:70-78 | enriching all authors' articles keeps the number of article objects |
| Merge.MergeGroupAt | src/countArticles.js:74-77 | an article of the group gets the detail found for its url; all other objects are unchanged |
| Merge.MergeAllAt | src/countArticles.js:70-78 | each grouped article is enriched from its own author's home page; objects in no group are unchanged |
| Merge.DetailMergeIsLeftOuterJoin | src/countArticles.js:70-78 | a left outer join on url: an article with a matching record takes readCount and publishTime from the first match; one without a match, or in no group, is left exactly as it was |
| Merge.MergeDetails | src/countArticles.js:70-78 | the loop computes the join above |
| Merge.MergeAuthor | src/countArticles.js:74-77 | the forEach over one author's articles computes that author's enrichment |
| Backfill.Refill | src/countArticles.js:94-95 | the url is kept; without a url match the article is unchanged; with one, every property the match has is copied from it, and readCount and publishTime keep the article's own values where the match lacks them |
| Backfill.FirstByUrl | src/countArticles.js:94 | `allArticles.find` on url: the first listed article with that url, and none exactly when none has it |
| Backfill.BackfillIds | src/countArticles.js:92-97 | the back-fill keeps the number of article objects |
| Backfill.FirstByUrlOnlyUrls | src/countArticles.js:94 | the lookup depends only on the urls of the listed articles |
| Backfill.RefillFirst | src/countArticles.js:94-95 | assigning the first url match onto itself changes nothing |
| Backfill.BackfillAt | src/countArticles.js:92-97 | a topic article becomes itself overlaid with its first url match in the sorted list; other objects are unchanged |
| Backfill.FirstMatchWins | src/countArticles.js:92-97 | with duplicate urls, the first match in read-count order wins, including its topicName and topicHome |
| Backfill.BackfillNoOp | src/countArticles.js:92-97 | when every topic article is in the list and urls are unique, the back-fill changes nothing |
| Backfill.BackfillIdempotent | src/countArticles.js:92-97 | a second back-fill changes nothing |
| Backfill.BackfillTopics | src/countArticles.js:92-97 | the nested forEach computes the back-fill above |
| Backfill.BackfillTopic | src/countArticles.js:93-96 | the forEach over one topic's articles continues the back-fill of the articles seen so far |
| Sorting.Insert | src/countArticles.js:88 | inserting adds exactly one element: the result is the input plus it, as a multiset |
| Sorting.InsertSorted | src/countArticles.js:88 | inserting into a descending sequence keeps it descending |
| Sorting.InsertBounded | src/countArticles.js:88 | inserting keeps every key under a bound that holds for all inputs |
| Sorting.SortDesc | src/countArticles.js:88 | the comparator sort `(a, b) => b.k - a.k` returns a permutation of its input in descending key order |
| Sorting.WithKeyCons | src/countArticles.js:88 | the elements with one key, in order, of a sequence with one more element at its front |
| Sorting.InsertStable | src/countArticles.js:88 | insertion puts the new element ahead of the elements with an equal key |
| Sorting.SortStable | src/countArticles.js:88 | the sort is stable: the elements with equal key keep their relative order |
| Sorting.SortSorted | src/countArticles.js:88 | a sequence already in descending order is left as it is |
| Aggregate.AddRead | src/countArticles.js:83 | the reducer step is a number exactly when the accumulator and the readCount both are, and then it is their sum |
| Aggregate.ReadOf | src/countArticles.js:88 | the sort key is the readCount when present, and 0 for an article without one |
| Aggregate.SumReads | src/countArticles.js:83 | the `reduce` sum is a number exactly when every article has a readCount, and then it is their sum |
| Aggregate.SumReadsPermutation | src/countArticles.js:83 | the sum does not depend on article order |
| Aggregate.Deref | src/countArticles.js:81 | the article objects named by a list of ids, one per id |
| Aggregate.IdRead | src/countArticles.js:88 | the sort key of an article reference is the read count of the object it names |
| Aggregate.DerefAppend | src/countArticles.js:81 | reading the objects of concatenated reference lists is concatenating the objects read |
| Aggregate.InsertedIdsValid | src/countArticles.js:88 | inserting an existing object's reference keeps a reference list valid |
| Aggregate.SortedIdsValid | src/countArticles.js:88 | sorting a list of references keeps it a list of existing objects |
| Aggregate.DerefInsert | src/countArticles.js:88 | inserting a reference and then dereferencing equals inserting the dereferenced object |
| Aggregate.DerefSort | src/countArticles.js:88 | sorting references by read count and then dereferencing equals sorting the objects |
| Aggregate.EntryOfConsistent | src/countArticles.js:105-110 | an entry's count is its number of articles, its readCount is their sum, its articles are a permutation of its own sorted by readCount, and equal read counts keep their order |
| Aggregate.EntryOf | src/countArticles.js:105-110 | an entry keeps its group's name and home, counts the group's articles, lists as many and sums their read counts before sorting |
| Aggregate.FlatView | src/countArticles.js:85-89 | the flat report counts all articles, lists as many and sums their read counts |
| Aggregate.TopicView | src/countArticles.js:99-111 | the topic report carries the given grand totals, and topicCount is its number of entries, one per topic |
| Aggregate.AuthorView | src/countArticles.js:113-125 | the author report carries the given grand totals, and authorCount is its number of entries, one per author |
| Aggregate.FlatViewProperties | src/countArticles.js:85-89 | the flat report counts all articles, sums their read counts and lists them as a stable descending sort by read count |
| Aggregate.TopicEntries | src/countArticles.js:105-110 | one entry per topic |
| Aggregate.AuthorEntries | src/countArticles.js:119-124 | one entry per author |
| Aggregate.SortedTopicsValid | src/countArticles.js:104 | sorting topics by size keeps each topic's references valid |
| Aggregate.SortedAuthorsValid | src/countArticles.js:118 | sorting authors by size keeps each author's references valid |
| Aggregate.TopicEntriesSize | src/countArticles.js:105-110 | the topic entries' article counts add up to the topics' sizes |
| Aggregate.AuthorEntriesSize | src/countArticles.js:119-124 | the author entries' article counts add up to the authors' sizes |
| Aggregate.TopicArticlesSize | src/countArticles.js:99-111 | the topics' sizes add up to the number of topic articles |
| Aggregate.AuthorArticlesSize | src/countArticles.js:81 | the authors' sizes add up to the length of the concatenated author lists |
| Aggregate.TopicViewProperties | src/countArticles.js:99-111 | the topic report carries the grand totals and topicCount; the topics are stably sorted by article count, and entry k carries the k-th topic's name and home and a read-count-sorted permutation of that topic's own article objects; each entry is consistent, and their counts add up to the number of topic articles |
| Aggregate.AuthorViewProperties | src/countArticles.js:113-125 | the author report carries the grand totals and authorCount; the authors are stably sorted by article count, and entry k carries the k-th author's name and home and a read-count-sorted permutation of that author's own article objects; each entry is consistent, and their counts add up to the number of grouped articles |
| Collect.StubCount | src/countArticles.js:47-53 | the number of stubs over all topic listing pages is 0 exactly when every topic page lists none |
| Collect.StubCountTopics | src/countArticles.js:47-53 | the topic articles are as many as the stubs on all topic listing pages |
| Collect.UnmatchedArticleMakesTotalNaN | src/countArticles.js:74-83 | one grouped article without a matching detail record makes the grand read-count total NaN |
| Collect.Collect | src/countArticles.js:43-125 | end to end: every article object is its topic spread under one scraped stub and belongs to exactly one topic; the authors group exactly those objects by home, one per distinct home, and `allArticles` is a permutation of them, so each object belongs to exactly one author; the flat report is built from the merged objects and the views from the back-filled ones; all three share the grand totals (the number of stubs scraped and the read-count sum); the flat list is sorted by read count; entries are sorted by article count, consistent, and partition the articles; no topics section gives empty reports with zero totals |

## Left out

- Browser automation is not modelled: launching, opening pages, `goto`, `click`, `close`, the `delay`
  timer and the `autoScroll` interval. Pages are inputs: the profile page's sections, and the list
  items at a topic url or an author home url. The click on "check-more" in `getTopics` is assumed
  to have revealed the full topic list before it is read.
- `output` (`JSON.stringify` and `fs.writeFileSync`) is not modelled: the reports are returned as values.
- Sorting by read count when some article has no readCount: the source's comparator then returns
  `NaN`, and the engine's resulting order is implementation-defined. The model sorts as if a missing
  readCount were 0. `Aggregate.SumReads` still reports `NaN` (`None`) for such sums.
- JavaScript numbers are IEEE-754 doubles; the model's `int` is unbounded. `stars`, `comments`,
  `readCount` and the read-count sums at lines 83, 107 and 121 are therefore exact in the model even
  beyond 2^53, where the source would round. Counts scraped from a page stay far below that bound.
- `Number.parseInt` and the `|| 0` defaults are modelled by an optional integer per item (`None` for a
  missing icon or text that does not parse). A parsed 0 and an unparsable value both end up as 0,
  as in the source.
- `moment(...).format('YYYY-MM-DD HH:mm')` at line 222 is not modelled: an item's time element is
  taken as already formatted text. The call sits inside the function passed to `page.evaluate`,
  which runs in the page, where the script's `require('moment')` binding is not in scope; the model
  does not capture the `ReferenceError` that an item with a `.time` element would then raise,
  unless the page itself defines `moment`.
- An exception thrown inside `page.evaluate` is not modelled. At lines 193, 195 and 220,
  `icon.nextSibling.data` throws when a like, comment or read icon has no following node, and the
  same holds for the `moment` call above. Nothing in `collect` catches it, so the run stops before any
  report is written. The model instead reads such a count as 0.
- The `if (!one) return {}` branch in `getArticlesDetail` is not modelled, because a
  `querySelectorAll` result never holds a null element. The commented-out `execTasks` helper is not
  part of this model.
- A topics heading with no next sibling element would make `getTopics` throw. The model takes the
  items of the list after the heading as given.
- The in-place sort of `topics` and `authors` at lines 104 and 118 is modelled on values. The model
  does not capture that this also reorders the script's own `topics` and `authors` arrays, which
  nothing reads afterwards.
- Records.Enrich: only the properties that a detail record carries (`readCount`, `publishTime`) are
  copied. The record's own `url` equals the article's url by construction, so copying it changes
  nothing.
