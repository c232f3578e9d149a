/** The blog repository (`repositories/blog_repository.go`): reads go through
    the TTL cache under fixed key shapes, structural writes clear the whole
    cache, update and delete are scoped to `id AND user_id`, and the view and
    like counters live in the store only. The database is modelled by the
    `Store` class (the blogs table in insertion order, the tag table keyed by
    its unique name, the blog/tag join table); each SQL statement's failure
    is an explicit `Option<string>` parameter. */
module Repositories {
  import opened Base
  import opened Strconv
  import opened Strs
  import TtlCache

  const Second: int := 1_000_000_000
  const Minute: int := 60 * Second

  /** Error text of gorm.ErrRecordNotFound. */
  const RecordNotFound: string := "record not found"
  const BlogNotFound: string := "blog not found"

  /** One row of the blogs table. */
  datatype BlogRow = BlogRow(id: int, userId: int, title: string, content: string,
                             viewCount: int, likes: int, createdAt: int)

  datatype Tag = Tag(id: int, name: string)

  /** A blog as the repository hands it out (`domain.Blog`), with its tags
      when they were preloaded. */
  datatype Blog = Blog(id: int, userId: int, title: string, content: string,
                       viewCount: int, likes: int, createdAt: int, tags: set<Tag>)

  /** What a new blog carries before it is stored. */
  datatype Draft = Draft(title: string, content: string, userId: int)

  /** The updatable columns of `UpdateByID`'s update map. */
  datatype Field = Title | Content

  /** The shapes of value the repository caches; a value of another shape
      under a key is treated as a miss, as the Go type assertions do. */
  datatype Cached = OneBlog(blog: Blog) | AllBlogs(blogs: seq<Blog>) | Page(items: seq<Blog>, total: int)

  // ---------------------------------------------------------------------
  // Cache keys

  /** `fmt.Sprintf("blog:%d", id)`. */
  function BlogKey(id: int): string {
    "blog:" + FormatInt(id)
  }

  const AllBlogsKey: string := "blogs:all"

  /** `fmt.Sprintf("blogs:p=%d:l=%d", page, limit)`. */
  function PageKey(page: int, limit: int): string {
    "blogs:p=" + FormatInt(page) + ":l=" + FormatInt(limit)
  }

  lemma NatDigitsNoColon(n: nat)
    ensures ':' !in NatDigits(n)
  {
  }

  lemma FormatIntNoColon(n: int)
    ensures ':' !in FormatInt(n)
  {
  }

  /** In `pre + a + ":" + x`, a colon-free `a` is everything between the
      prefix and the first colon after it. */
  lemma SplitAtFirstColon(pre: string, a: string, x: string, b: string, y: string)
    requires ':' !in a && ':' !in b
    requires pre + a + ":" + x == pre + b + ":" + y
    ensures a == b && x == y
  {
    var s := pre + a + ":" + x;
    var n := |pre|;
    assert s[n + |a|] == ':';
    assert s[n + |b|] == ':';
    assert |a| == |b|;
    assert a == s[n..n + |a|] && b == s[n..n + |b|];
    assert x == s[n + |a| + 1..] && y == s[n + |b| + 1..];
  }

  /** One cache key per blog id. */
  lemma BlogKeyInjective(id1: int, id2: int)
    requires IsInt64(id1) && IsInt64(id2) && BlogKey(id1) == BlogKey(id2)
    ensures id1 == id2
  {
    assert FormatInt(id1) == BlogKey(id1)[5..] && FormatInt(id2) == BlogKey(id2)[5..];
    FormatIntInjective(id1, id2);
  }

  /** One cache key per (page, limit) pair. */
  lemma PageKeyInjective(p1: int, l1: int, p2: int, l2: int)
    requires IsInt64(p1) && IsInt64(l1) && IsInt64(p2) && IsInt64(l2)
    requires PageKey(p1, l1) == PageKey(p2, l2)
    ensures p1 == p2 && l1 == l2
  {
    var a, b, c, d := FormatInt(p1), FormatInt(l1), FormatInt(p2), FormatInt(l2);
    FormatIntNoColon(p1);
    FormatIntNoColon(p2);
    assert PageKey(p1, l1) == "blogs:p=" + a + ":" + ("l=" + b);
    assert PageKey(p2, l2) == "blogs:p=" + c + ":" + ("l=" + d);
    SplitAtFirstColon("blogs:p=", a, "l=" + b, c, "l=" + d);
    assert b == ("l=" + b)[2..] && d == ("l=" + d)[2..];
    FormatIntInjective(p1, p2);
    FormatIntInjective(l1, l2);
  }

  /** The three key shapes never collide with each other. */
  lemma KeyShapesDistinct(id: int, page: int, limit: int)
    ensures BlogKey(id) != AllBlogsKey && BlogKey(id) != PageKey(page, limit)
    ensures AllBlogsKey != PageKey(page, limit)
  {
    assert BlogKey(id)[4] == ':' && AllBlogsKey[4] == 's' && PageKey(page, limit)[4] == 's';
    assert AllBlogsKey[6] == 'a' && PageKey(page, limit)[6] == 'p';
  }

  // ---------------------------------------------------------------------
  // The tables, as values

  /** The primary keys present in the table. */
  function Ids(rows: seq<BlogRow>): set<int>
    decreases |rows|
  {
    if rows == [] then {} else {rows[0].id} + Ids(rows[1..])
  }

  lemma {:induction false} IdOfMember(rows: seq<BlogRow>, r: BlogRow)
    requires r in rows
    ensures r.id in Ids(rows)
    decreases |rows|
  {
    if rows[0] != r {
      IdOfMember(rows[1..], r);
    }
  }

  lemma {:induction false} IdNotPresent(rows: seq<BlogRow>, x: int)
    requires forall k :: 0 <= k < |rows| ==> rows[k].id != x
    ensures x !in Ids(rows)
    decreases |rows|
  {
    if rows != [] {
      IdNotPresent(rows[1..], x);
    }
  }

  /** A row with a fresh id can be appended without breaking the key. */
  lemma AppendKeepsUnique(rows: seq<BlogRow>, row: BlogRow)
    requires UniqueIds(rows) && row.id !in Ids(rows)
    ensures UniqueIds(rows + [row])
  {
    forall k | 0 <= k < |rows| ensures rows[k].id != row.id {
      IdOfMember(rows, rows[k]);
    }
  }

  /** A row with a fresh id can be put in front without breaking the key. */
  lemma PrependKeepsUnique(row: BlogRow, rows: seq<BlogRow>)
    requires UniqueIds(rows) && row.id !in Ids(rows)
    ensures UniqueIds([row] + rows)
  {
    var d := [row] + rows;
    forall i, j | 0 <= i < j < |d| ensures d[i].id != d[j].id {
      assert d[j] == rows[j - 1];
      if i == 0 {
        IdOfMember(rows, rows[j - 1]);
      } else {
        assert d[i] == rows[i - 1];
      }
    }
  }

  /** Below the first row of a table with a primary key lies a table with a
      primary key that lacks the first row's id. */
  lemma UniqueTail(rows: seq<BlogRow>)
    requires UniqueIds(rows) && rows != []
    ensures UniqueIds(rows[1..])
    ensures rows[0].id !in Ids(rows[1..])
  {
    var rest := rows[1..];
    forall i, j | 0 <= i < j < |rest| ensures rest[i].id != rest[j].id {
      assert rest[i] == rows[i + 1] && rest[j] == rows[j + 1];
    }
    forall k | 0 <= k < |rest| ensures rest[k].id != rows[0].id {
      assert rest[k] == rows[k + 1];
    }
    IdNotPresent(rest, rows[0].id);
  }

  /** The primary key: no two rows share an id. */
  predicate UniqueIds(rows: seq<BlogRow>) {
    forall i, j :: 0 <= i < j < |rows| ==> rows[i].id != rows[j].id
  }

  predicate CountersNonNegative(rows: seq<BlogRow>) {
    forall r :: r in rows ==> r.viewCount >= 0 && r.likes >= 0
  }

  /** The row with primary key `id`, if any (`First(&b, id)`). */
  function FindRow(rows: seq<BlogRow>, id: int): (r: Option<BlogRow>)
    ensures r.Some? <==> id in Ids(rows)
    ensures r.Some? ==> r.value in rows && r.value.id == id
  {
    if rows == [] then None
    else if rows[0].id == id then Some(rows[0])
    else
      assert forall x :: x in rows[1..] ==> x in rows;
      FindRow(rows[1..], id)
  }

  /** The tags linked to a blog (`Preload("Tags")`). */
  function TagsOf(tagIds: map<string, int>, links: set<(int, int)>, blogId: int): set<Tag> {
    set name | name in tagIds && (blogId, tagIds[name]) in links :: Tag(tagIds[name], name)
  }

  function BlogOf(row: BlogRow, tags: set<Tag>): (b: Blog)
    ensures b.id == row.id && b.userId == row.userId && b.title == row.title && b.content == row.content
    ensures b.viewCount == row.viewCount && b.likes == row.likes && b.createdAt == row.createdAt && b.tags == tags
  {
    Blog(row.id, row.userId, row.title, row.content, row.viewCount, row.likes, row.createdAt, tags)
  }

  /** Every blog with its tags, in table order (`Preload(...).Find`). */
  function Listing(rows: seq<BlogRow>, tagIds: map<string, int>, links: set<(int, int)>): (bs: seq<Blog>)
    ensures |bs| == |rows|
    ensures forall k :: 0 <= k < |rows| ==> bs[k] == BlogOf(rows[k], TagsOf(tagIds, links, rows[k].id))
  {
    seq(|rows|, k requires 0 <= k < |rows| => BlogOf(rows[k], TagsOf(tagIds, links, rows[k].id)))
  }

  /** How many rows `Offset(offset)` skips in a result of n rows: a
      non-positive offset skips nothing. */
  function Skipped(offset: int, n: nat): (k: nat)
    ensures k <= n
  {
    if offset <= 0 then 0 else if offset > n then n else offset
  }

  /** The rows a query returns after `Offset(offset).Limit(limit)`, with the
      ORM's reading of them: a non-positive offset skips nothing and a
      negative limit takes everything. */
  function Window<T>(s: seq<T>, offset: int, limit: int): (w: seq<T>)
    ensures limit >= 0 ==> |w| <= limit
    ensures Skipped(offset, |s|) + |w| <= |s|
    ensures w == s[Skipped(offset, |s|)..Skipped(offset, |s|) + |w|]
    ensures limit < 0 || Skipped(offset, |s|) + limit >= |s| || |w| == limit
  {
    var rest := s[Skipped(offset, |s|)..];
    if 0 <= limit < |rest| then rest[..limit] else rest
  }

  /** `Paginate(page, limit)` as written: `(page-1)*limit` in Go's int64
      arithmetic, which wraps around for large arguments. */
  function PaginateAsWritten(page: int, limit: int): (offset: int)
    ensures IsInt64(offset)
  {
    Wrap64((page - 1) * limit)
  }

  /** With limit = MaxInt64, page 3 wraps to offset -2, which the ORM ignores:
      page 3 returns the first rows instead of nothing. */
  lemma PaginateWrapsAround()
    ensures PaginateAsWritten(3, MaxInt64) == -2
    ensures Window([1, 2], PaginateAsWritten(3, MaxInt64), MaxInt64) == [1, 2]
  {
  }

  /** `Paginate(page, limit)` with the offset saturating at MaxInt64 instead
      of wrapping, so that a page past the end stays empty. */
  function Paginate(page: int, limit: int): (offset: int)
    ensures IsInt64(offset) || (page - 1) * limit < MinInt64
    ensures page >= 1 && limit >= 0 ==> offset >= 0
  {
    var o := (page - 1) * limit;
    if o > MaxInt64 then MaxInt64 else o
  }

  /** Whenever (page-1)*limit fits in int64 the offset as written and the
      saturating one agree. */
  lemma PaginateAsWrittenInRange(page: int, limit: int)
    requires page >= 1 && limit >= 0 && (page - 1) * limit <= MaxInt64
    ensures PaginateAsWritten(page, limit) == Paginate(page, limit)
  {
  }

  /** Pages of a listing with limit >= 1 are consecutive and disjoint: page p
      holds exactly rows (p-1)*limit up to (p-1)*limit + limit of the
      listing, and nothing once that start is past the end. */
  lemma {:induction false} PageContents<T>(s: seq<T>, page: int, limit: int)
    requires page >= 1 && limit >= 1 && |s| <= MaxInt64
    ensures var lo := (page - 1) * limit;
      Window(s, Paginate(page, limit), limit) ==
        if lo >= |s| then [] else if lo + limit >= |s| then s[lo..] else s[lo..lo + limit]
  {
  }

  // ---------------------------------------------------------------------
  // Search

  /** `LOWER(title) LIKE %needle% OR LOWER(content) LIKE %needle%`. */
  predicate MatchesQuery(row: BlogRow, needle: string) {
    Contains(ToLower(row.title), needle) || Contains(ToLower(row.content), needle)
  }

  /** The rows matching the needle, in table order. */
  function Matching(rows: seq<BlogRow>, needle: string): (m: seq<BlogRow>)
    ensures |m| <= |rows|
    ensures forall r :: r in m ==> r in rows && MatchesQuery(r, needle)
    ensures forall r :: r in rows && MatchesQuery(r, needle) ==> r in m
  {
    if rows == [] then []
    else if MatchesQuery(rows[0], needle) then [rows[0]] + Matching(rows[1..], needle)
    else Matching(rows[1..], needle)
  }

  predicate NewestFirstOrder(s: seq<BlogRow>) {
    forall i, j :: 0 <= i < j < |s| ==> s[i].createdAt >= s[j].createdAt
  }

  function InsertNewest(r: BlogRow, s: seq<BlogRow>): (t: seq<BlogRow>)
    ensures |t| == |s| + 1
    ensures multiset(t) == multiset(s) + multiset{r}
  {
    if s == [] || r.createdAt >= s[0].createdAt then [r] + s
    else
      assert s == [s[0]] + s[1..];
      [s[0]] + InsertNewest(r, s[1..])
  }

  /** `ORDER BY created_at DESC`, rows with equal creation time kept in table
      order: a permutation of the rows (sortedness is `NewestFirstSorted`). */
  function NewestFirst(s: seq<BlogRow>): (t: seq<BlogRow>)
    ensures |t| == |s|
    ensures multiset(t) == multiset(s)
  {
    if s == [] then []
    else
      assert s == [s[0]] + s[1..];
      InsertNewest(s[0], NewestFirst(s[1..]))
  }

  /** Inserting keeps every row at or below a bound the inputs keep. */
  lemma InsertNewestBelow(r: BlogRow, s: seq<BlogRow>, c: int)
    requires r.createdAt <= c
    requires forall k :: 0 <= k < |s| ==> s[k].createdAt <= c
    ensures forall j :: 0 <= j < |s| + 1 ==> InsertNewest(r, s)[j].createdAt <= c
  {
  }

  lemma {:induction false} InsertNewestSorted(r: BlogRow, s: seq<BlogRow>)
    requires NewestFirstOrder(s)
    ensures NewestFirstOrder(InsertNewest(r, s))
    decreases |s|
  {
    if s != [] && r.createdAt < s[0].createdAt {
      var t := InsertNewest(r, s[1..]);
      InsertNewestSorted(r, s[1..]);
      InsertNewestBelow(r, s[1..], s[0].createdAt);
      var u := InsertNewest(r, s);
      assert u == [s[0]] + t;
      forall i, j | 0 <= i < j < |u|
        ensures u[i].createdAt >= u[j].createdAt
      {
        if i > 0 {
          assert u[i] == t[i - 1] && u[j] == t[j - 1];
        } else {
          assert u[j] == t[j - 1];
        }
      }
    }
  }

  /** The search order is sorted newest first. */
  lemma {:induction false} NewestFirstSorted(s: seq<BlogRow>)
    ensures NewestFirstOrder(NewestFirst(s))
    decreases |s|
  {
    if s != [] {
      NewestFirstSorted(s[1..]);
      InsertNewestSorted(s[0], NewestFirst(s[1..]));
    }
  }

  /** A blog as the search query returns it: no tags, since nothing is
      preloaded. */
  function Plain(rows: seq<BlogRow>): (bs: seq<Blog>)
    ensures |bs| == |rows|
    ensures forall k :: 0 <= k < |rows| ==> bs[k] == BlogOf(rows[k], {})
  {
    seq(|rows|, k requires 0 <= k < |rows| => BlogOf(rows[k], {}))
  }

  /** One page of search results: the matching rows newest first, cut to
      the page, without their tags. */
  function SearchPage(rows: seq<BlogRow>, needle: string, page: int, limit: int): (items: seq<Blog>)
    ensures limit >= 0 ==> |items| <= limit
  {
    Plain(Window(NewestFirst(Matching(rows, needle)), Paginate(page, limit), limit))
  }

  /** A window holds rows of the listing it was cut from. */
  lemma WindowWithin<T>(s: seq<T>, offset: int, limit: int)
    ensures forall k :: 0 <= k < |Window(s, offset, limit)| ==> Window(s, offset, limit)[k] in multiset(s)
  {
  }

  /** A window of a newest-first listing is newest first. */
  lemma WindowSorted(s: seq<BlogRow>, offset: int, limit: int)
    requires NewestFirstOrder(s)
    ensures NewestFirstOrder(Window(s, offset, limit))
  {
  }

  /** Every search result is a stored blog whose title or content contains
      the needle, with no tags loaded, and the page is ordered newest first. */
  lemma SearchPageProperties(rows: seq<BlogRow>, needle: string, page: int, limit: int)
    ensures var items := SearchPage(rows, needle, page, limit);
      && (forall k :: 0 <= k < |items| ==> items[k].id in Ids(rows) && items[k].tags == {})
      && (forall k :: 0 <= k < |items| ==> Contains(ToLower(items[k].title), needle) || Contains(ToLower(items[k].content), needle))
      && (forall i, j :: 0 <= i < j < |items| ==> items[i].createdAt >= items[j].createdAt)
  {
    var m := Matching(rows, needle);
    var ordered := NewestFirst(m);
    NewestFirstSorted(m);
    var w := Window(ordered, Paginate(page, limit), limit);
    WindowWithin(ordered, Paginate(page, limit), limit);
    WindowSorted(ordered, Paginate(page, limit), limit);
    forall k | 0 <= k < |w| ensures w[k].id in Ids(rows) && MatchesQuery(w[k], needle) {
      assert w[k] in m;
      IdOfMember(rows, w[k]);
    }
  }

  /** The search computes its offset as `(page-1)*limit` in int64 too: with
      limit = MaxInt64, page 3 wraps to offset -2, which the ORM ignores, so
      page 3 answers every match, while the saturating offset answers none. */
  lemma SearchWrapsAround(rows: seq<BlogRow>, needle: string)
    requires |rows| <= MaxInt64
    ensures var ordered := NewestFirst(Matching(rows, needle));
      Plain(Window(ordered, PaginateAsWritten(3, MaxInt64), MaxInt64)) == Plain(ordered)
    ensures SearchPage(rows, needle, 3, MaxInt64) == []
  {
    PaginateWrapsAround();
  }

  /** Rows (page-1)*limit up to (page-1)*limit + limit of a listing, cut
      short at its end. */
  function PageSlice<T>(s: seq<T>, page: int, limit: int): seq<T>
    requires page >= 1 && limit >= 1
  {
    var lo := (page - 1) * limit;
    if lo >= |s| then [] else if lo + limit >= |s| then s[lo..] else s[lo..lo + limit]
  }

  /** Search pages with limit >= 1 are consecutive and disjoint slices of
      the newest-first matches, and empty once the start is past the end. */
  lemma SearchPageContents(rows: seq<BlogRow>, needle: string, page: int, limit: int)
    requires page >= 1 && limit >= 1 && |rows| <= MaxInt64
    ensures SearchPage(rows, needle, page, limit) == Plain(PageSlice(NewestFirst(Matching(rows, needle)), page, limit))
  {
    PageContents(NewestFirst(Matching(rows, needle)), page, limit);
  }

  // ---------------------------------------------------------------------
  // Scoped statements: `UPDATE ... WHERE id = ? [AND user_id = ?]` and
  // `DELETE ... WHERE id = ? AND user_id = ?`

  /** A row is in scope of `WHERE id = ? [AND user_id = ?]`; the owner is
      compared in its decimal spelling, the form the controllers send. */
  predicate InScope(row: BlogRow, id: int, owner: Option<string>) {
    row.id == id && (owner.None? || FormatInt(row.userId) == owner.value)
  }

  /** The column changes the repository's UPDATE statements make. */
  datatype RowUpdate = ViewPlusOne | LikePlusOne | SetLikes(likes: int) | SetFields(fields: map<Field, string>)

  function ApplyUpdate(row: BlogRow, u: RowUpdate): (r: BlogRow)
    ensures r.id == row.id && r.userId == row.userId && r.createdAt == row.createdAt
  {
    match u
    case ViewPlusOne => row.(viewCount := row.viewCount + 1)
    case LikePlusOne => row.(likes := row.likes + 1)
    case SetLikes(n) => row.(likes := n)
    case SetFields(f) =>
      row.(title := if Title in f then f[Title] else row.title,
           content := if Content in f then f[Content] else row.content)
  }

  /** The value `RemoveLike` writes back: one less, but never below zero. */
  function LikesAfterUnlike(likes: int): int {
    if likes > 0 then likes - 1 else likes
  }

  /** The number of rows a scoped statement affects. */
  function CountInScope(rows: seq<BlogRow>, id: int, owner: Option<string>): (n: nat)
    ensures n <= |rows|
    ensures n == 0 <==> forall k :: 0 <= k < |rows| ==> !InScope(rows[k], id, owner)
  {
    if rows == [] then 0
    else (if InScope(rows[0], id, owner) then 1 else 0) + CountInScope(rows[1..], id, owner)
  }

  function UpdateWhere(rows: seq<BlogRow>, id: int, owner: Option<string>, u: RowUpdate): (t: seq<BlogRow>)
    ensures |t| == |rows|
  {
    if rows == [] then []
    else [if InScope(rows[0], id, owner) then ApplyUpdate(rows[0], u) else rows[0]] + UpdateWhere(rows[1..], id, owner, u)
  }

  function DeleteWhere(rows: seq<BlogRow>, id: int, owner: Option<string>): (t: seq<BlogRow>)
    ensures |t| == |rows| - CountInScope(rows, id, owner)
    ensures forall r :: r in t ==> r in rows && !InScope(r, id, owner)
    ensures forall r :: r in rows && !InScope(r, id, owner) ==> r in t
    ensures Ids(t) <= Ids(rows)
  {
    if rows == [] then []
    else if InScope(rows[0], id, owner) then DeleteWhere(rows[1..], id, owner)
    else
      var rest := DeleteWhere(rows[1..], id, owner);
      assert ([rows[0]] + rest)[1..] == rest;
      [rows[0]] + rest
  }

  /** What a scoped `UPDATE` or `DELETE` answers: the backend's error, "blog
      not found" when no row is in scope, success otherwise. */
  function ScopedOutcome(rows: seq<BlogRow>, id: int, owner: Option<string>, dbErr: Option<string>): (err: Option<string>)
    ensures dbErr.Some? ==> err == dbErr
    ensures dbErr.None? ==> (err.None? <==> CountInScope(rows, id, owner) > 0)
    ensures dbErr.None? && err.Some? ==> err.value == BlogNotFound
  {
    if dbErr.Some? then dbErr
    else if CountInScope(rows, id, owner) == 0 then Some(BlogNotFound)
    else None
  }

  /** A scoped update changes exactly the row it is scoped to, as
      `ApplyUpdate` says, and every other row reads back as before. */
  lemma {:induction false} UpdateWhereFind(rows: seq<BlogRow>, id: int, owner: Option<string>, u: RowUpdate, x: int)
    ensures FindRow(UpdateWhere(rows, id, owner, u), x) ==
      match FindRow(rows, x)
      case None => None
      case Some(r) => Some(if InScope(r, id, owner) then ApplyUpdate(r, u) else r)
  {
    if rows != [] {
      UpdateWhereFind(rows[1..], id, owner, u, x);
    }
  }

  /** With unique ids, a scoped statement affects no row exactly when the
      blog is missing or belongs to someone else. */
  lemma {:induction false} NoRowInScope(rows: seq<BlogRow>, id: int, owner: Option<string>)
    requires UniqueIds(rows)
    ensures CountInScope(rows, id, owner) <= 1
    ensures CountInScope(rows, id, owner) == 0 <==> !(FindRow(rows, id).Some? && InScope(FindRow(rows, id).value, id, owner))
  {
    if rows != [] {
      UniqueTail(rows);
      NoRowInScope(rows[1..], id, owner);
    }
  }

  /** After a scoped delete the blog it was scoped to is gone, and every
      other blog reads back as before. */
  lemma {:induction false} DeleteWhereFind(rows: seq<BlogRow>, id: int, owner: Option<string>, x: int)
    requires UniqueIds(rows)
    ensures FindRow(DeleteWhere(rows, id, owner), x) ==
      if FindRow(rows, x).Some? && InScope(FindRow(rows, x).value, id, owner) then None else FindRow(rows, x)
  {
    if rows != [] {
      UniqueTail(rows);
      DeleteWhereFind(rows[1..], id, owner, x);
    }
  }

  lemma {:induction false} DeleteWhereKeepsUnique(rows: seq<BlogRow>, id: int, owner: Option<string>)
    requires UniqueIds(rows)
    ensures UniqueIds(DeleteWhere(rows, id, owner))
  {
    if rows != [] {
      UniqueTail(rows);
      DeleteWhereKeepsUnique(rows[1..], id, owner);
      if !InScope(rows[0], id, owner) {
        PrependKeepsUnique(rows[0], DeleteWhere(rows[1..], id, owner));
      }
    }
  }

  /** A scoped update never changes a row's primary key. */
  lemma {:induction false} UpdateWhereKeepsIds(rows: seq<BlogRow>, id: int, owner: Option<string>, u: RowUpdate)
    ensures forall k :: 0 <= k < |rows| ==> UpdateWhere(rows, id, owner, u)[k].id == rows[k].id
  {
    if rows != [] {
      UpdateWhereKeepsIds(rows[1..], id, owner, u);
      var t := UpdateWhere(rows, id, owner, u);
      forall k | 1 <= k < |rows| ensures t[k].id == rows[k].id {
        assert t[k] == UpdateWhere(rows[1..], id, owner, u)[k - 1];
      }
    }
  }

  lemma UpdateWhereKeepsUnique(rows: seq<BlogRow>, id: int, owner: Option<string>, u: RowUpdate)
    requires UniqueIds(rows)
    ensures UniqueIds(UpdateWhere(rows, id, owner, u))
  {
    UpdateWhereKeepsIds(rows, id, owner, u);
  }

  /** `GetPopularity`'s reading of the table: (view_count, likes) of the row. */
  function Popularity(rows: seq<BlogRow>, id: int): (r: Result<(int, int)>)
    ensures r.Err? <==> id !in Ids(rows)
  {
    match FindRow(rows, id)
    case None => Err(RecordNotFound)
    case Some(row) => Ok((row.viewCount, row.likes))
  }

  /** A view adds 1 to the view count of exactly its own blog; a missing
      blog stays missing. */
  lemma {:induction false} ViewEffect(rows: seq<BlogRow>, id: int, x: int)
    ensures var before := Popularity(rows, x);
      Popularity(UpdateWhere(rows, id, None, ViewPlusOne), x) ==
      if before.Err? then before else Ok((before.value.0 + (if x == id then 1 else 0), before.value.1))
  {
    UpdateWhereFind(rows, id, None, ViewPlusOne, x);
  }

  /** A like adds 1 to the likes of exactly its own blog. */
  lemma {:induction false} LikeEffect(rows: seq<BlogRow>, id: int, x: int)
    ensures var before := Popularity(rows, x);
      Popularity(UpdateWhere(rows, id, None, LikePlusOne), x) ==
      if before.Err? then before else Ok((before.value.0, before.value.1 + (if x == id then 1 else 0)))
  {
    UpdateWhereFind(rows, id, None, LikePlusOne, x);
  }

  /** An unlike writes back one less like, or 0 again when there were none,
      for exactly its own blog. */
  lemma {:induction false} UnlikeEffect(rows: seq<BlogRow>, id: int, x: int, likes: int)
    requires FindRow(rows, id).Some? && likes == FindRow(rows, id).value.likes
    ensures Popularity(UpdateWhere(rows, id, None, SetLikes(LikesAfterUnlike(likes))), x) ==
      match Popularity(rows, x)
      case Err(e) => Err(e)
      case Ok((v, l)) => Ok((v, if x == id then LikesAfterUnlike(l) else l))
  {
    UpdateWhereFind(rows, id, None, SetLikes(LikesAfterUnlike(likes)), x);
  }

  /** Two unlikes of one blog whose reads both come before either write,
      which READ COMMITTED allows since the SELECT takes no row lock: both
      write back the same value, so two unlikes take off only one like. */
  lemma InterleavedUnlikesLoseOne(rows: seq<BlogRow>, id: int)
    requires FindRow(rows, id).Some?
    ensures var row := FindRow(rows, id).value;
      var written := SetLikes(LikesAfterUnlike(row.likes));
      Popularity(UpdateWhere(UpdateWhere(rows, id, None, written), id, None, written), id) ==
        Ok((row.viewCount, LikesAfterUnlike(row.likes)))
  {
    var written := SetLikes(LikesAfterUnlike(FindRow(rows, id).value.likes));
    UpdateWhereFind(rows, id, None, written, id);
    UpdateWhereFind(UpdateWhere(rows, id, None, written), id, None, written, id);
  }

  /** Two unlikes run one after the other, as the model's `RemoveLike` does:
      the second reads what the first wrote, so both count, down to 0. */
  lemma SerializedUnlikesCountBoth(rows: seq<BlogRow>, id: int)
    requires FindRow(rows, id).Some?
    ensures var row := FindRow(rows, id).value;
      var t := UpdateWhere(rows, id, None, SetLikes(LikesAfterUnlike(row.likes)));
      && FindRow(t, id).Some?
      && Popularity(UpdateWhere(t, id, None, SetLikes(LikesAfterUnlike(FindRow(t, id).value.likes))), id) ==
        Ok((row.viewCount, LikesAfterUnlike(LikesAfterUnlike(row.likes))))
  {
    var t := UpdateWhere(rows, id, None, SetLikes(LikesAfterUnlike(FindRow(rows, id).value.likes)));
    UpdateWhereFind(rows, id, None, SetLikes(LikesAfterUnlike(FindRow(rows, id).value.likes)), id);
    UpdateWhereFind(t, id, None, SetLikes(LikesAfterUnlike(FindRow(t, id).value.likes)), id);
  }

  lemma {:induction false} UpdateKeepsCountersNonNegative(rows: seq<BlogRow>, id: int, owner: Option<string>, u: RowUpdate)
    requires CountersNonNegative(rows)
    requires u.SetLikes? ==> u.likes >= 0
    ensures CountersNonNegative(UpdateWhere(rows, id, owner, u))
  {
    if rows != [] {
      UpdateKeepsCountersNonNegative(rows[1..], id, owner, u);
    }
  }

  // ---------------------------------------------------------------------
  // What reads answer, as values

  /** `Preload("User").Preload("Tags").First(&blog, id)`. */
  function ReadBlog(rows: seq<BlogRow>, tagIds: map<string, int>, links: set<(int, int)>, id: int, dbErr: Option<string>): (r: Result<Blog>)
    ensures dbErr.Some? ==> r == Err(dbErr.value)
    ensures dbErr.None? && id !in Ids(rows) ==> r == Err(RecordNotFound)
    ensures dbErr.None? && id in Ids(rows) ==> r.Ok? && r.value.id == id && r.value == BlogOf(FindRow(rows, id).value, TagsOf(tagIds, links, id))
  {
    if dbErr.Some? then Err(dbErr.value)
    else match FindRow(rows, id)
      case None => Err(RecordNotFound)
      case Some(row) => Ok(BlogOf(row, TagsOf(tagIds, links, id)))
  }

  /** The value cached under `blog:<id>` that `FetchByID` would return. */
  function CachedBlog(data: map<string, TtlCache.CacheItem<Cached>>, id: int, now: int): (r: Option<Blog>)
    ensures r.Some? ==> BlogKey(id) in data && TtlCache.Live(data[BlogKey(id)], now) && data[BlogKey(id)].value == OneBlog(r.value)
    ensures BlogKey(id) !in data ==> r.None?
  {
    var v := TtlCache.Lookup(data, BlogKey(id), now);
    if v.Some? && v.value.OneBlog? then Some(v.value.blog) else None
  }

  function CachedListing(data: map<string, TtlCache.CacheItem<Cached>>, now: int): (r: Option<seq<Blog>>)
    ensures r.Some? ==> AllBlogsKey in data && TtlCache.Live(data[AllBlogsKey], now) && data[AllBlogsKey].value == AllBlogs(r.value)
    ensures AllBlogsKey !in data ==> r.None?
  {
    var v := TtlCache.Lookup(data, AllBlogsKey, now);
    if v.Some? && v.value.AllBlogs? then Some(v.value.blogs) else None
  }

  function CachedPage(data: map<string, TtlCache.CacheItem<Cached>>, page: int, limit: int, now: int): (r: Option<(seq<Blog>, int)>)
    ensures r.Some? ==>
      && PageKey(page, limit) in data && TtlCache.Live(data[PageKey(page, limit)], now)
      && data[PageKey(page, limit)].value == Page(r.value.0, r.value.1)
    ensures PageKey(page, limit) !in data ==> r.None?
  {
    var v := TtlCache.Lookup(data, PageKey(page, limit), now);
    if v.Some? && v.value.Page? then Some((v.value.items, v.value.total)) else None
  }

  const BlogTtl: int := 5 * Minute
  const AllBlogsTtl: int := 2 * Minute
  const PageTtl: int := 1 * Minute
  const DefaultSearchLimit: int := 10

  /** What `FetchByID` leaves behind when it reads blog `b` from the store at
      `now`: later reads up to five minutes on are served from the cache
      (whatever the store says by then), and later ones miss again. */
  lemma FetchedBlogIsCached(data: map<string, TtlCache.CacheItem<Cached>>, id: int, b: Blog, now: int, t: int)
    ensures var after := TtlCache.AfterGet(data, BlogKey(id), now)[BlogKey(id) := TtlCache.NewItem(OneBlog(b), BlogTtl, now)];
      CachedBlog(after, id, t) == if t <= now + BlogTtl then Some(b) else None
  {
  }

  // ---------------------------------------------------------------------
  // The database and the repository

  /** The tables of the database. */
  class Store {
    var blogs: seq<BlogRow>
    var tagIds: map<string, int>
    var links: set<(int, int)>
    var nextTagId: int

    /** The primary key of blogs, counters that start at 0 and never go below,
        and the tag id sequence ahead of every tag id. */
    ghost predicate Valid()
      reads this
    {
      && UniqueIds(blogs)
      && CountersNonNegative(blogs)
      && nextTagId >= 1
      && forall name :: name in tagIds ==> 1 <= tagIds[name] < nextTagId
    }

    constructor ()
      ensures Valid() && blogs == [] && tagIds == map[] && links == {}
    {
      blogs, tagIds, links, nextTagId := [], map[], {}, 1;
    }
  }

  class BlogRepository {
    const db: Store
    const c: TtlCache.Cache<Cached>

    /** `NewBlogRepository`: a repository over `db` with a new, empty cache. */
    constructor (db: Store)
      ensures this.db == db && fresh(c) && c.data == map[]
    {
      this.db := db;
      c := new TtlCache.Cache<Cached>();
    }

    /** Inserts the blog under the id the database assigns; only a successful
        insert clears the cache. */
    method Create(draft: Draft, assignedId: int, now: int, dbErr: Option<string>) returns (r: Result<int>)
      requires db.Valid() && assignedId !in Ids(db.blogs)
      modifies db, c
      ensures db.Valid()
      ensures dbErr.Some? ==> r == Err(dbErr.value) && unchanged(db) && unchanged(c)
      ensures dbErr.None? ==> (r == Ok(assignedId) && c.data == map[]
        && db.blogs == old(db.blogs) + [BlogRow(assignedId, draft.userId, draft.title, draft.content, 0, 0, now)]
        && db.tagIds == old(db.tagIds) && db.links == old(db.links) && db.nextTagId == old(db.nextTagId))
    {
      if dbErr.Some? {
        return Err(dbErr.value);
      }
      var row := BlogRow(assignedId, draft.userId, draft.title, draft.content, 0, 0, now);
      AppendKeepsUnique(db.blogs, row);
      db.blogs := db.blogs + [row];
      c.Clear();
      return Ok(assignedId);
    }

    /** The id of the tag with this name, inserting the tag when there is none;
        a failing lookup or insert changes nothing. The cache is not touched. */
    method FindOrCreateTag(name: string, lookupErr: Option<string>, insertErr: Option<string>) returns (r: Result<int>)
      requires db.Valid()
      modifies db
      ensures db.Valid() && db.blogs == old(db.blogs) && db.links == old(db.links)
      ensures lookupErr.Some? ==> r == Err(lookupErr.value) && unchanged(db)
      ensures lookupErr.None? && name in old(db.tagIds) ==> r == Ok(old(db.tagIds)[name]) && unchanged(db)
      ensures lookupErr.None? && name !in old(db.tagIds) && insertErr.Some? ==> r == Err(insertErr.value) && unchanged(db)
      ensures lookupErr.None? && name !in old(db.tagIds) && insertErr.None? ==>
        r == Ok(old(db.nextTagId)) && db.tagIds == old(db.tagIds)[name := old(db.nextTagId)] && db.nextTagId == old(db.nextTagId) + 1
      ensures r.Ok? ==> name in db.tagIds && db.tagIds[name] == r.value
    {
      if lookupErr.Some? {
        return Err(lookupErr.value);
      }
      if name in db.tagIds {
        return Ok(db.tagIds[name]);
      }
      if insertErr.Some? {
        return Err(insertErr.value);
      }
      var id := db.nextTagId;
      db.tagIds := db.tagIds[name := id];
      db.nextTagId := id + 1;
      return Ok(id);
    }

    /** Inserts a blog/tag join row; success clears the cache, failure changes
        nothing. */
    method LinkTagToBlog(blogId: int, tagId: int, dbErr: Option<string>) returns (err: Option<string>)
      requires db.Valid()
      modifies db, c
      ensures db.Valid()
      ensures dbErr.Some? ==> err == dbErr && unchanged(db) && unchanged(c)
      ensures dbErr.None? ==> (err == None && db.links == old(db.links) + {(blogId, tagId)} && c.data == map[]
        && db.blogs == old(db.blogs) && db.tagIds == old(db.tagIds) && db.nextTagId == old(db.nextTagId))
    {
      if dbErr.Some? {
        return dbErr;
      }
      db.links := db.links + {(blogId, tagId)};
      c.Clear();
      return None;
    }

    /** Read-through by id under `blog:<id>`: a live cached blog is returned
        without reading the store; otherwise the store is read and a found
        blog is cached for five minutes, while a failed read caches nothing. */
    method FetchByID(id: int, now: int, dbErr: Option<string>) returns (r: Result<Blog>)
      modifies c
      ensures CachedBlog(old(c.data), id, now).Some? ==> r == Ok(CachedBlog(old(c.data), id, now).value) && c.data == old(c.data)
      ensures CachedBlog(old(c.data), id, now).None? ==> r == ReadBlog(db.blogs, db.tagIds, db.links, id, dbErr)
      ensures CachedBlog(old(c.data), id, now).None? && r.Ok? ==>
        c.data == TtlCache.AfterGet(old(c.data), BlogKey(id), now)[BlogKey(id) := TtlCache.NewItem(OneBlog(r.value), BlogTtl, now)]
      ensures CachedBlog(old(c.data), id, now).None? && r.Err? ==> c.data == TtlCache.AfterGet(old(c.data), BlogKey(id), now)
    {
      var key := BlogKey(id);
      var v := c.Get(key, now);
      if v.Some? && v.value.OneBlog? {
        return Ok(v.value.blog);
      }
      if dbErr.Some? {
        return Err(dbErr.value);
      }
      var row := FindRow(db.blogs, id);
      if row.None? {
        return Err(RecordNotFound);
      }
      var blog := BlogOf(row.value, TagsOf(db.tagIds, db.links, id));
      c.Set(key, OneBlog(blog), BlogTtl, now);
      return Ok(blog);
    }

    /** Read-through of the full listing under `blogs:all`, cached for two
        minutes on success. */
    method FetchAll(now: int, dbErr: Option<string>) returns (r: Result<seq<Blog>>)
      modifies c
      ensures CachedListing(old(c.data), now).Some? ==> r == Ok(CachedListing(old(c.data), now).value) && c.data == old(c.data)
      ensures CachedListing(old(c.data), now).None? && dbErr.Some? ==>
        r == Err(dbErr.value) && c.data == TtlCache.AfterGet(old(c.data), AllBlogsKey, now)
      ensures CachedListing(old(c.data), now).None? && dbErr.None? ==>
        r == Ok(Listing(db.blogs, db.tagIds, db.links))
        && c.data == TtlCache.AfterGet(old(c.data), AllBlogsKey, now)[AllBlogsKey := TtlCache.NewItem(AllBlogs(r.value), AllBlogsTtl, now)]
    {
      var v := c.Get(AllBlogsKey, now);
      if v.Some? && v.value.AllBlogs? {
        return Ok(v.value.blogs);
      }
      if dbErr.Some? {
        return Err(dbErr.value);
      }
      var blogs := Listing(db.blogs, db.tagIds, db.links);
      c.Set(AllBlogsKey, AllBlogs(blogs), AllBlogsTtl, now);
      return Ok(blogs);
    }

    /** Deletes the blog only when it has this id and belongs to `userID`;
        no such row is "blog not found" with the cache kept, success clears
        the cache. */
    method DeleteByID(id: int, userID: string, dbErr: Option<string>) returns (err: Option<string>)
      requires db.Valid()
      modifies db, c
      ensures db.Valid()
      ensures err == ScopedOutcome(old(db.blogs), id, Some(userID), dbErr)
      ensures dbErr.Some? ==> unchanged(db) && unchanged(c)
      ensures dbErr.None? && CountInScope(old(db.blogs), id, Some(userID)) == 0 ==>
        err == Some(BlogNotFound) && unchanged(db) && unchanged(c)
      ensures dbErr.None? && CountInScope(old(db.blogs), id, Some(userID)) > 0 ==>
        err == None && db.blogs == DeleteWhere(old(db.blogs), id, Some(userID)) && c.data == map[]
        && db.tagIds == old(db.tagIds) && db.links == old(db.links) && db.nextTagId == old(db.nextTagId)
    {
      if dbErr.Some? {
        return dbErr;
      }
      var affected := CountInScope(db.blogs, id, Some(userID));
      if affected == 0 {
        return Some(BlogNotFound);
      }
      DeleteWhereKeepsUnique(db.blogs, id, Some(userID));
      db.blogs := DeleteWhere(db.blogs, id, Some(userID));
      c.Clear();
      return None;
    }

    /** Applies the field updates to the blog only when it has this id and
        belongs to `userID`. An empty update map does nothing at all; no such
        row is "blog not found" with the cache kept; success clears the
        cache. */
    method UpdateByID(id: int, userID: string, updates: map<Field, string>, dbErr: Option<string>) returns (err: Option<string>)
      requires db.Valid()
      modifies db, c
      ensures db.Valid()
      ensures |updates| == 0 ==> err == None && unchanged(db) && unchanged(c)
      ensures |updates| > 0 ==> err == ScopedOutcome(old(db.blogs), id, Some(userID), dbErr)
      ensures |updates| > 0 && dbErr.Some? ==> unchanged(db) && unchanged(c)
      ensures |updates| > 0 && dbErr.None? && CountInScope(old(db.blogs), id, Some(userID)) == 0 ==>
        err == Some(BlogNotFound) && unchanged(db) && unchanged(c)
      ensures |updates| > 0 && dbErr.None? && CountInScope(old(db.blogs), id, Some(userID)) > 0 ==>
        err == None && db.blogs == UpdateWhere(old(db.blogs), id, Some(userID), SetFields(updates)) && c.data == map[]
        && db.tagIds == old(db.tagIds) && db.links == old(db.links) && db.nextTagId == old(db.nextTagId)
    {
      if |updates| == 0 {
        return None;
      }
      if dbErr.Some? {
        return dbErr;
      }
      var affected := CountInScope(db.blogs, id, Some(userID));
      if affected == 0 {
        return Some(BlogNotFound);
      }
      UpdateWhereKeepsUnique(db.blogs, id, Some(userID), SetFields(updates));
      UpdateKeepsCountersNonNegative(db.blogs, id, Some(userID), SetFields(updates));
      db.blogs := UpdateWhere(db.blogs, id, Some(userID), SetFields(updates));
      c.Clear();
      return None;
    }

    /** Page `page` of `limit` blogs with the total count, read through
        `blogs:p=<page>:l=<limit>`: the count and the slice are read (one after
        the other here), either failure fails the whole call and caches
        nothing, and a success is cached for one minute. */
    method FetchPaginatedBlogs(page: int, limit: int, now: int, countErr: Option<string>, sliceErr: Option<string>)
      returns (r: Result<(seq<Blog>, int)>)
      modifies c
      ensures CachedPage(old(c.data), page, limit, now).Some? ==>
        r == Ok(CachedPage(old(c.data), page, limit, now).value) && c.data == old(c.data)
      ensures CachedPage(old(c.data), page, limit, now).None? && countErr.Some? ==>
        r == Err(countErr.value) && c.data == TtlCache.AfterGet(old(c.data), PageKey(page, limit), now)
      ensures CachedPage(old(c.data), page, limit, now).None? && countErr.None? && sliceErr.Some? ==>
        r == Err(sliceErr.value) && c.data == TtlCache.AfterGet(old(c.data), PageKey(page, limit), now)
      ensures CachedPage(old(c.data), page, limit, now).None? && countErr.None? && sliceErr.None? ==>
        r == Ok((Window(Listing(db.blogs, db.tagIds, db.links), Paginate(page, limit), limit), |db.blogs|))
        && c.data == TtlCache.AfterGet(old(c.data), PageKey(page, limit), now)[PageKey(page, limit) := TtlCache.NewItem(Page(r.value.0, r.value.1), PageTtl, now)]
    {
      var key := PageKey(page, limit);
      var v := c.Get(key, now);
      if v.Some? && v.value.Page? {
        return Ok((v.value.items, v.value.total));
      }
      if countErr.Some? {
        return Err(countErr.value);
      }
      var total := |db.blogs|;
      if sliceErr.Some? {
        return Err(sliceErr.value);
      }
      var blogs := Window(Listing(db.blogs, db.tagIds, db.links), Paginate(page, limit), limit);
      c.Set(key, Page(blogs, total), PageTtl, now);
      return Ok((blogs, total));
    }

    /** `view_count = view_count + 1` for the blog with this id; a missing blog
        is not an error. The cache is not touched. */
    method IncrementView(blogId: int, dbErr: Option<string>) returns (err: Option<string>)
      requires db.Valid()
      modifies db
      ensures db.Valid() && db.tagIds == old(db.tagIds) && db.links == old(db.links) && db.nextTagId == old(db.nextTagId)
      ensures err == dbErr
      ensures dbErr.Some? ==> unchanged(db)
      ensures dbErr.None? ==> db.blogs == UpdateWhere(old(db.blogs), blogId, None, ViewPlusOne)
    {
      if dbErr.Some? {
        return dbErr;
      }
      UpdateWhereKeepsUnique(db.blogs, blogId, None, ViewPlusOne);
      UpdateKeepsCountersNonNegative(db.blogs, blogId, None, ViewPlusOne);
      db.blogs := UpdateWhere(db.blogs, blogId, None, ViewPlusOne);
      return None;
    }

    /** `likes = likes + 1` for the blog with this id; the user id is ignored
        and a missing blog is not an error. The cache is not touched. */
    method AddLike(blogId: int, userId: int, dbErr: Option<string>) returns (err: Option<string>)
      requires db.Valid()
      modifies db
      ensures db.Valid() && db.tagIds == old(db.tagIds) && db.links == old(db.links) && db.nextTagId == old(db.nextTagId)
      ensures err == dbErr
      ensures dbErr.Some? ==> unchanged(db)
      ensures dbErr.None? ==> db.blogs == UpdateWhere(old(db.blogs), blogId, None, LikePlusOne)
    {
      if dbErr.Some? {
        return dbErr;
      }
      UpdateWhereKeepsUnique(db.blogs, blogId, None, LikePlusOne);
      UpdateKeepsCountersNonNegative(db.blogs, blogId, None, LikePlusOne);
      db.blogs := UpdateWhere(db.blogs, blogId, None, LikePlusOne);
      return None;
    }

    /** In one transaction: read the blog's likes, take one off unless they
        are 0, write the value back. A missing blog fails; any failure rolls
        everything back. The user id is ignored; the cache is not touched. */
    method RemoveLike(blogId: int, userId: int, selectErr: Option<string>, updateErr: Option<string>) returns (err: Option<string>)
      requires db.Valid()
      modifies db
      ensures db.Valid() && db.tagIds == old(db.tagIds) && db.links == old(db.links) && db.nextTagId == old(db.nextTagId)
      ensures selectErr.Some? ==> err == selectErr && unchanged(db)
      ensures selectErr.None? && blogId !in Ids(old(db.blogs)) ==> err == Some(RecordNotFound) && unchanged(db)
      ensures selectErr.None? && blogId in Ids(old(db.blogs)) && updateErr.Some? ==> err == updateErr && unchanged(db)
      ensures selectErr.None? && blogId in Ids(old(db.blogs)) && updateErr.None? ==> (err == None
        && db.blogs == UpdateWhere(old(db.blogs), blogId, None, SetLikes(LikesAfterUnlike(FindRow(old(db.blogs), blogId).value.likes))))
    {
      if selectErr.Some? {
        return selectErr;
      }
      var row := FindRow(db.blogs, blogId);
      if row.None? {
        return Some(RecordNotFound);
      }
      var likes := row.value.likes;
      if likes > 0 {
        likes := likes - 1;
      }
      if updateErr.Some? {
        return updateErr;
      }
      UpdateWhereKeepsUnique(db.blogs, blogId, None, SetLikes(likes));
      UpdateKeepsCountersNonNegative(db.blogs, blogId, None, SetLikes(likes));
      db.blogs := UpdateWhere(db.blogs, blogId, None, SetLikes(likes));
      return None;
    }

    /** The blog's (view_count, likes); a missing blog is "record not found". */
    method GetPopularity(blogId: int, dbErr: Option<string>) returns (r: Result<(int, int)>)
      requires db.Valid()
      ensures dbErr.Some? ==> r == Err(dbErr.value)
      ensures dbErr.None? ==> r == Popularity(db.blogs, blogId)
      ensures r.Ok? ==> r.value.0 >= 0 && r.value.1 >= 0
    {
      if dbErr.Some? {
        return Err(dbErr.value);
      }
      var row := FindRow(db.blogs, blogId);
      if row.None? {
        return Err(RecordNotFound);
      }
      return Ok((row.value.viewCount, row.value.likes));
    }

    /** Case-insensitive search of title and content for the trimmed query,
        newest first, one page of it plus the number of matches. A blank query
        answers nothing without reading the store; page < 1 reads as 1 and
        limit <= 0 as 10. The cache is neither read nor written. */
    method SearchBlogs(query: string, page: int, limit: int, countErr: Option<string>, findErr: Option<string>)
      returns (r: Result<(seq<Blog>, int)>)
      ensures TrimSpace(query) == [] ==> r == Ok(([], 0))
      ensures TrimSpace(query) != [] && countErr.Some? ==> r == Err(countErr.value)
      ensures TrimSpace(query) != [] && countErr.None? && findErr.Some? ==> r == Err(findErr.value)
      ensures TrimSpace(query) != [] && countErr.None? && findErr.None? ==>
        var needle := ToLower(TrimSpace(query));
        var p := if page < 1 then 1 else page;
        var l := if limit <= 0 then DefaultSearchLimit else limit;
        r == Ok((SearchPage(db.blogs, needle, p, l), |Matching(db.blogs, needle)|))
    {
      var q := TrimSpace(query);
      if q == [] {
        return Ok(([], 0));
      }
      var needle := ToLower(q);
      if countErr.Some? {
        return Err(countErr.value);
      }
      var total := |Matching(db.blogs, needle)|;
      var p, l := page, limit;
      if p < 1 {
        p := 1;
      }
      if l <= 0 {
        l := DefaultSearchLimit;
      }
      if findErr.Some? {
        return Err(findErr.value);
      }
      return Ok((SearchPage(db.blogs, needle, p, l), total));
    }
  }
}
