/**
 * The two listing queries of src/Repository/ArticleRepository.php, as what
 * they ask of the database: which article rows match, in which order, and
 * which page the paginator is asked for. The paginator's window is not part
 * of this model; a query result is the matching rows plus the page number.
 */
module Repository {
  import opened Wrappers
  import opened Entity

  /** What the repository hands to the paginator: the query's rows in order, and the page to cut. */
  datatype PageRequest = PageRequest(rows: seq<ArticleData>, page: int)

  /** The inner join on the author keeps only rows that have one. */
  predicate HasAuthor(a: ArticleData) {
    a.author.Some?
  }

  /** `:tag MEMBER OF articles.tags`, or no restriction without a tag. */
  predicate Tagged(a: ArticleData, tag: Option<Tag>) {
    tag.None? || tag.value in a.tags
  }

  /** The `findLatest` filter: published by `now`, with an author, and with the tag if one is given. */
  predicate IsLatest(a: ArticleData, now: int, tag: Option<Tag>) {
    a.publishedAt <= now && HasAuthor(a) && Tagged(a, tag)
  }

  /** The `findLatestNew` filter: with an author, and with the tag if one is given. */
  predicate IsListed(a: ArticleData, tag: Option<Tag>) {
    HasAuthor(a) && Tagged(a, tag)
  }

  /** The rows `p` accepts, in their stored order; each kept as often as it was there. */
  function Filter(rows: seq<ArticleData>, p: ArticleData -> bool): (r: seq<ArticleData>)
    ensures forall x :: x in r ==> x in rows && p(x)
    ensures forall x :: x in rows ==> multiset(r)[x] == if p(x) then multiset(rows)[x] else 0
  {
    if rows == [] then []
    else
      assert rows == [rows[0]] + rows[1..];
      (if p(rows[0]) then [rows[0]] else []) + Filter(rows[1..], p)
  }

  /** Most recently published first: each row is no older than the one after it. */
  predicate NewestFirst(rows: seq<ArticleData>) {
    |rows| < 2 || (rows[0].publishedAt >= rows[1].publishedAt && NewestFirst(rows[1..]))
  }

  /** In a newest-first list every row is no older than any row after it. */
  lemma {:induction false} NewestFirstOrdered(rows: seq<ArticleData>)
    requires NewestFirst(rows)
    ensures forall i, j :: 0 <= i < j < |rows| ==> rows[i].publishedAt >= rows[j].publishedAt
  {
    if |rows| >= 2 {
      var tail := rows[1..];
      NewestFirstOrdered(tail);
      forall i, j | 0 <= i < j < |rows| ensures rows[i].publishedAt >= rows[j].publishedAt {
        assert rows[j] == tail[j - 1];
        if i > 0 {
          assert rows[i] == tail[i - 1];
        } else if j > 1 {
          assert tail[0].publishedAt >= tail[j - 1].publishedAt;
        }
      }
    }
  }

  /** Put `x` before the first row published no later than it. */
  function Insert(x: ArticleData, rows: seq<ArticleData>): (r: seq<ArticleData>)
    requires NewestFirst(rows)
    ensures NewestFirst(r)
    ensures multiset(r) == multiset(rows) + multiset{x}
    ensures |r| == |rows| + 1 && (r[0] == x || (rows != [] && r[0] == rows[0]))
  {
    if rows == [] || x.publishedAt >= rows[0].publishedAt then
      assert ([x] + rows)[1..] == rows;
      [x] + rows
    else
      var tail := rows[1..];
      var rest := Insert(x, tail);
      assert rows == [rows[0]] + tail;
      assert ([rows[0]] + rest)[1..] == rest;
      [rows[0]] + rest
  }

  /** `ORDER BY publishedAt DESC`: the same rows, newest first. */
  function SortNewestFirst(rows: seq<ArticleData>): (r: seq<ArticleData>)
    ensures NewestFirst(r)
    ensures multiset(r) == multiset(rows)
  {
    if rows == [] then []
    else
      assert rows == [rows[0]] + rows[1..];
      Insert(rows[0], SortNewestFirst(rows[1..]))
  }

  /** `findLatest($page, $tag)` over the stored rows, with the query's `now` given. */
  function FindLatest(rows: seq<ArticleData>, now: int, page: int, tag: Option<Tag>): (r: PageRequest)
    ensures r.page == page
    ensures forall x :: x in r.rows ==> x in rows && x.publishedAt <= now && HasAuthor(x) && Tagged(x, tag)
    ensures forall x :: x in rows ==> multiset(r.rows)[x] == if IsLatest(x, now, tag) then multiset(rows)[x] else 0
    ensures NewestFirst(r.rows)
  {
    var matching := Filter(rows, x => IsLatest(x, now, tag));
    var sorted := SortNewestFirst(matching);
    assert forall x :: x in sorted ==> x in multiset(matching);
    PageRequest(sorted, page)
  }

  /** `findLatestNew($page, $tag)`: no date filter, no ordering, and always page 1. */
  function FindLatestNew(rows: seq<ArticleData>, page: int, tag: Option<Tag>): (r: PageRequest)
    ensures r.page == 1
    ensures forall x :: x in r.rows ==> x in rows && HasAuthor(x) && Tagged(x, tag)
    ensures forall x :: x in rows ==> multiset(r.rows)[x] == if IsListed(x, tag) then multiset(rows)[x] else 0
  {
    PageRequest(Filter(rows, x => IsListed(x, tag)), 1)
  }

  /** Every row `findLatest` lists, `findLatestNew` lists too, whatever the pages. */
  lemma LatestWithinLatestNew(rows: seq<ArticleData>, now: int, p: int, q: int, tag: Option<Tag>)
    ensures multiset(FindLatest(rows, now, p, tag).rows) <= multiset(FindLatestNew(rows, q, tag).rows)
  {
    var a, b := FindLatest(rows, now, p, tag).rows, FindLatestNew(rows, q, tag).rows;
    forall x | x in multiset(a) ensures multiset(a)[x] <= multiset(b)[x] {
      assert x in a;
    }
  }

  /** A future-dated article is never listed by `findLatest`, on any page. */
  lemma FutureArticleHidden(rows: seq<ArticleData>, now: int, page: int, tag: Option<Tag>, a: ArticleData)
    requires a.publishedAt > now
    ensures a !in FindLatest(rows, now, page, tag).rows
  {
  }

  /** Without a tag, `findLatest` keeps every published row with an author. */
  lemma NoTagNoRestriction(rows: seq<ArticleData>, now: int, page: int, a: ArticleData)
    requires a in rows && a.publishedAt <= now && HasAuthor(a)
    ensures a in FindLatest(rows, now, page, None).rows
  {
    assert multiset(rows)[a] > 0;
    assert multiset(FindLatest(rows, now, page, None).rows)[a] > 0;
  }
}
