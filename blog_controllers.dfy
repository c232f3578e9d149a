/**
 * The pure input handling of the blog HTTP handlers: the tag list of a new
 * blog, the page/limit/offset defaults and checks, `total_pages`, the blog id
 * guard, and the error-to-status mapping of delete and update. Query values
 * are `Option<string>`: `None` is a parameter absent from the URL, which is
 * the only case a default value replaces.
 */
module Controllers {
  import opened Base
  import opened Strconv
  import opened Strs
  import Repositories
  import AuthMiddleware

  const StatusNotFound: int := 404
  const StatusInternalServerError: int := 500

  const DefaultPage: int := 1
  const DefaultLimit: int := 10

  /** A JSON error reply. */
  datatype Reply = Reply(status: int, error: string)

  // ---------------------------------------------------------------------
  // Tags of a new blog

  /** The tags kept from comma-separated pieces: each piece trimmed, empty
      ones dropped, order kept. */
  function KeptTags(pieces: seq<string>): (tags: seq<string>)
    ensures |tags| <= |pieces|
    ensures forall k :: 0 <= k < |tags| ==> tags[k] != ""
    decreases |pieces|
  {
    if pieces == [] then []
    else
      var t := TrimSpace(pieces[|pieces| - 1]);
      KeptTags(pieces[..|pieces| - 1]) + (if t != "" then [t] else [])
  }

  /** A tag as the handler passes it on: non-empty, without surrounding
      white space, without a comma. */
  predicate CleanTag(t: string) {
    t != "" && !IsSpace(t[0]) && !IsSpace(t[|t| - 1]) && ',' !in t
  }

  /** The `tags` request field split on ",", each piece trimmed and kept
      only when non-empty. */
  method SplitTags(raw: string) returns (tags: seq<string>)
    ensures tags == KeptTags(Split(raw, ','))
    ensures forall k :: 0 <= k < |tags| ==> CleanTag(tags[k])
  {
    var pieces := Split(raw, ',');
    tags := [];
    for k := 0 to |pieces|
      invariant tags == KeptTags(pieces[..k])
      invariant AllClean(tags)
    {
      var t := TrimSpace(pieces[k]);
      SplitTagsStep(pieces, k, tags);
      if t != "" {
        tags := tags + [t];
      }
    }
    assert pieces[..|pieces|] == pieces;
  }

  predicate AllClean(tags: seq<string>) {
    forall k :: 0 <= k < |tags| ==> CleanTag(tags[k])
  }

  /** One turn of the tag loop keeps the loop's two invariants. */
  lemma SplitTagsStep(pieces: seq<string>, k: nat, tags: seq<string>)
    requires k < |pieces| && ',' !in pieces[k]
    requires tags == KeptTags(pieces[..k]) && AllClean(tags)
    ensures var t := TrimSpace(pieces[k]);
      var next := if t != "" then tags + [t] else tags;
      next == KeptTags(pieces[..k + 1]) && AllClean(next)
  {
    assert pieces[..k + 1][..k] == pieces[..k];
    TrimmedPieceIsClean(pieces[k]);
  }

  /** A comma-free piece trims to nothing or to a clean tag. */
  lemma TrimmedPieceIsClean(p: string)
    requires ',' !in p
    ensures TrimSpace(p) == [] || CleanTag(TrimSpace(p))
  {
    TrimSpaceIsInfix(p);
  }

  /** Clean tags survive the trip through the request field: joined with
      commas and split again they come back as they were, in order. */
  lemma SplitTagsRoundTrip(tags: seq<string>)
    requires |tags| >= 1
    requires forall k :: 0 <= k < |tags| ==> CleanTag(tags[k])
    ensures KeptTags(Split(Join(tags, ','), ',')) == tags
  {
    SplitJoin(tags, ',');
    KeptCleanTags(tags);
  }

  /** A tags field of nothing but white space and commas gives no tags. */
  lemma NoTagsFromBlankField(raw: string)
    requires forall k :: 0 <= k < |raw| ==> raw[k] == ',' || IsSpace(raw[k])
    ensures KeptTags(Split(raw, ',')) == []
  {
    var pieces := Split(raw, ',');
    SplitOfBlank(raw, ',');
    forall k | 0 <= k < |pieces| ensures TrimSpace(pieces[k]) == [] {
      TrimSpaceEmpty(pieces[k]);
    }
    KeptTagsOfBlanks(pieces);
  }

  lemma {:induction false} KeptTagsOfBlanks(pieces: seq<string>)
    requires forall k :: 0 <= k < |pieces| ==> TrimSpace(pieces[k]) == []
    ensures KeptTags(pieces) == []
    decreases |pieces|
  {
    if pieces != [] {
      KeptTagsOfBlanks(pieces[..|pieces| - 1]);
    }
  }

  lemma {:induction false} KeptCleanTags(tags: seq<string>)
    requires forall k :: 0 <= k < |tags| ==> CleanTag(tags[k])
    ensures KeptTags(tags) == tags
    decreases |tags|
  {
    if tags != [] {
      var last := tags[|tags| - 1];
      TrimSpaceOfTrimmed(last);
      KeptCleanTags(tags[..|tags| - 1]);
      assert tags[..|tags| - 1] + [last] == tags;
    }
  }

  // ---------------------------------------------------------------------
  // Query parameters

  /** A query value `strconv.Atoi` accepts and that is at least `least`. */
  predicate UsableNumber(s: string, least: int) {
    ParseInt(s).err == NoError && ParseInt(s).value >= least
  }

  /** A query value read with a default: the default replaces only an absent
      parameter, and a value that does not parse or is below `least` falls
      back to `fallback`. */
  function NumberOr(q: Option<string>, dflt: string, least: int, fallback: int): (n: int)
    ensures n >= least || n == fallback
    ensures q.Some? && UsableNumber(q.value, least) ==> n == ParseInt(q.value).value
    ensures q.Some? && !UsableNumber(q.value, least) ==> n == fallback
    ensures q.None? && UsableNumber(dflt, least) ==> n == ParseInt(dflt).value
    ensures q.None? && !UsableNumber(dflt, least) ==> n == fallback
  {
    var p := ParseInt(if q.Some? then q.value else dflt);
    if p.err != NoError || p.value < least then fallback else p.value
  }

  /** `FetchPaginatedBlogs`'s page and limit: both at least 1, with 1 and 10
      standing in for absent, malformed or too small values. */
  function PageParams(pageQ: Option<string>, limitQ: Option<string>): (r: (int, int))
    ensures 1 <= r.0 && IsInt64(r.0) && 1 <= r.1 && IsInt64(r.1)
    ensures pageQ.None? ==> r.0 == DefaultPage
    ensures pageQ.Some? && UsableNumber(pageQ.value, 1) ==> r.0 == ParseInt(pageQ.value).value
    ensures pageQ.Some? && !UsableNumber(pageQ.value, 1) ==> r.0 == DefaultPage
    ensures limitQ.None? ==> r.1 == DefaultLimit
    ensures limitQ.Some? && UsableNumber(limitQ.value, 1) ==> r.1 == ParseInt(limitQ.value).value
    ensures limitQ.Some? && !UsableNumber(limitQ.value, 1) ==> r.1 == DefaultLimit
  {
    (NumberOr(pageQ, "1", 1, DefaultPage), NumberOr(limitQ, "10", 1, DefaultLimit))
  }

  /** Any positive int64 written in decimal reaches the use case unchanged. */
  lemma PageParamsKeepValidNumbers(page: int, limit: int)
    requires 1 <= page <= MaxInt64 && 1 <= limit <= MaxInt64
    ensures PageParams(Some(FormatInt(page)), Some(FormatInt(limit))) == (page, limit)
  {
    ParseFormatRoundTrip(page);
    ParseFormatRoundTrip(limit);
  }

  /** `total_pages` as written: `(total + limit - 1) / limit` in int64. */
  function TotalPagesAsWritten(total: int, limit: int): (pages: int)
    requires limit >= 1
  {
    GoDiv(Wrap64(total + limit - 1), limit)
  }

  /** The number of pages of `limit` rows that `total` rows fill, computed
      without an intermediate sum that could leave the int64 range. */
  function TotalPages(total: int, limit: int): (pages: int)
    requires total >= 0 && limit >= 1
    ensures 0 <= pages <= total
  {
    total / limit + (if total % limit == 0 then 0 else 1)
  }

  /** `TotalPages` is the ceiling of total / limit: enough pages for every
      row, and no page left empty. */
  lemma TotalPagesIsCeiling(total: int, limit: int)
    requires total >= 0 && limit >= 1
    ensures TotalPages(total, limit) * limit >= total
    ensures total > 0 ==> (TotalPages(total, limit) - 1) * limit < total
    ensures total == 0 <==> TotalPages(total, limit) == 0
  {
  }

  /** Whenever the sum stays in range, the expression as written computes the
      same number. */
  lemma TotalPagesAsWrittenInRange(total: int, limit: int)
    requires total >= 0 && limit >= 1 && total + limit - 1 <= MaxInt64
    ensures TotalPagesAsWritten(total, limit) == TotalPages(total, limit)
  {
    var q, r := total / limit, total % limit;
    if r == 0 {
      DivUnique(total + limit - 1, limit, q, limit - 1);
    } else {
      DivUnique(total + limit - 1, limit, q + 1, r - 1);
    }
  }

  lemma DivUnique(a: int, b: int, q: int, r: int)
    requires b >= 1 && 0 <= r < b && a == q * b + r
    ensures a / b == q
  {
    var q', r' := a / b, a % b;
    assert a == q' * b + r';
    if q > q' {
      MulDistributes(q, q', b);
      MulAtLeast(q - q', b);
    } else if q < q' {
      MulDistributes(q', q, b);
      MulAtLeast(q' - q, b);
    }
  }

  lemma MulDistributes(x: int, y: int, b: int)
    ensures (x - y) * b == x * b - y * b
  {
  }

  lemma MulAtLeast(d: int, b: int)
    requires d >= 1 && b >= 1
    ensures d * b >= b
  {
  }

  /** With limit = MaxInt64 (a valid limit parameter) and two blogs, the sum
      wraps to MinInt64 and the reply says -1 pages instead of 1. */
  lemma TotalPagesOverflow()
    ensures TotalPagesAsWritten(2, MaxInt64) == -1
    ensures TotalPages(2, MaxInt64) == 1
  {
  }

  /** `SearchBlogs`'s checks, in order: a blank q, then a page and then a
      limit that is malformed or below 1, each rejected with 400 rather than
      defaulted. */
  function SearchParams(q: string, pageQ: Option<string>, limitQ: Option<string>): (r: Result<(int, int)>)
    ensures TrimSpace(q) == [] ==> r == Err("q is required")
    ensures r.Ok? ==> 1 <= r.value.0 && IsInt64(r.value.0) && 1 <= r.value.1 && IsInt64(r.value.1)
    ensures TrimSpace(q) != [] && pageQ.Some? && !UsableNumber(pageQ.value, 1) ==> r == Err("invalid page")
    ensures TrimSpace(q) != [] && (pageQ.None? || UsableNumber(pageQ.value, 1)) && limitQ.Some? && !UsableNumber(limitQ.value, 1) ==>
      r == Err("invalid limit")
    ensures r.Ok? <==>
      TrimSpace(q) != [] && (pageQ.None? || UsableNumber(pageQ.value, 1)) && (limitQ.None? || UsableNumber(limitQ.value, 1))
    ensures r.Ok? ==> r.value.0 == (if pageQ.Some? then ParseInt(pageQ.value).value else DefaultPage)
    ensures r.Ok? ==> r.value.1 == (if limitQ.Some? then ParseInt(limitQ.value).value else DefaultLimit)
  {
    if TrimSpace(q) == [] then Err("q is required")
    else
      var page := NumberOr(pageQ, "1", 1, 0);
      if page == 0 then Err("invalid page")
      else
        var limit := NumberOr(limitQ, "10", 1, 0);
        if limit == 0 then Err("invalid limit")
        else Ok((page, limit))
  }

  /** What the search handler lets through, the repository takes as it is:
      its own page and limit defaults never apply. */
  lemma SearchParamsNeedNoRepositoryDefaults(q: string, pageQ: Option<string>, limitQ: Option<string>)
    requires SearchParams(q, pageQ, limitQ).Ok?
    ensures var (page, limit) := SearchParams(q, pageQ, limitQ).value;
      (if page < 1 then 1 else page) == page
      && (if limit <= 0 then Repositories.DefaultSearchLimit else limit) == limit
  {
  }

  /** The query parameters `FilterBlogs` builds its filter from. */
  datatype Filter = Filter(userId: Option<int>, limit: int, offset: int)

  /** An empty user_id means no user filter and one that does not parse is
      rejected with 400; limit falls back to 10 when malformed or below 1,
      offset to 0 when malformed or negative. */
  function FilterParams(userIdQ: string, limitQ: Option<string>, offsetQ: Option<string>): (r: Result<Filter>)
    ensures r.Err? <==> userIdQ != "" && ParseInt(userIdQ).err != NoError
    ensures r.Err? ==> r.error == "invalid user_id"
    ensures r.Ok? ==> (r.value.userId.None? <==> userIdQ == "")
    ensures r.Ok? && userIdQ != "" ==> r.value.userId == Some(ParseInt(userIdQ).value) && IsInt64(r.value.userId.value)
    ensures r.Ok? ==> r.value.limit >= 1 && r.value.offset >= 0
    ensures r.Ok? && limitQ.None? ==> r.value.limit == DefaultLimit
    ensures r.Ok? && limitQ.Some? && UsableNumber(limitQ.value, 1) ==> r.value.limit == ParseInt(limitQ.value).value
    ensures r.Ok? && limitQ.Some? && !UsableNumber(limitQ.value, 1) ==> r.value.limit == DefaultLimit
    ensures r.Ok? && offsetQ.None? ==> r.value.offset == 0
    ensures r.Ok? && offsetQ.Some? && UsableNumber(offsetQ.value, 0) ==> r.value.offset == ParseInt(offsetQ.value).value
    ensures r.Ok? && offsetQ.Some? && !UsableNumber(offsetQ.value, 0) ==> r.value.offset == 0
  {
    if userIdQ != "" && ParseInt(userIdQ).err != NoError then Err("invalid user_id")
    else
      var uid := if userIdQ == "" then None else Some(ParseInt(userIdQ).value);
      Ok(Filter(uid, NumberOr(limitQ, "10", 1, DefaultLimit), NumberOr(offsetQ, "0", 0, 0)))
  }

  /** The id guard of `TrackView`, `LikeBlog`, `UnlikeBlog` and
      `GetPopularity`: a path id that is not a positive int64 is 400
      "invalid blog id", before any use case is called. */
  function BlogIdParam(s: string): (r: Result<int>)
    ensures r.Ok? <==> AuthMiddleware.ValidBlogId(s)
    ensures r.Ok? ==> r.value >= 1 && IsInt64(r.value) && r.value == ParseInt(s).value
    ensures r.Err? ==> r.error == "invalid blog id"
  {
    var id := ParseInt(s);
    if id.err != NoError || id.value <= 0 then Err("invalid blog id") else Ok(id.value)
  }

  /** Exactly the positive int64 ids, written in decimal, pass the guard, and
      they pass unchanged. */
  lemma BlogIdParamRoundTrip(n: int)
    requires IsInt64(n)
    ensures BlogIdParam(FormatInt(n)) == if n >= 1 then Ok(n) else Err("invalid blog id")
  {
    ParseFormatRoundTrip(n);
  }

  // ---------------------------------------------------------------------
  // Delete and update

  /** `DeleteBlog`'s reading of the request: "unauthorized" (answered with
      401) without a user, the user id rendered back to decimal (0 when the
      context holds no int64), "invalid blog id" (answered with 400) for a
      path id that does not parse. A blog id of 0 or below passes. */
  function DeleteTarget(ctx: AuthMiddleware.Context): (r: Result<(int, string)>)
    ensures AuthMiddleware.UserIdKey !in ctx.keys ==> r == Err("unauthorized")
    ensures AuthMiddleware.UserIdKey in ctx.keys && ParseInt(ctx.pathId).err != NoError ==> r == Err("invalid blog id")
    ensures r.Ok? <==> AuthMiddleware.UserIdKey in ctx.keys && ParseInt(ctx.pathId).err == NoError
    ensures r.Ok? ==> r.value.0 == ParseInt(ctx.pathId).value
    ensures r.Ok? && ctx.keys[AuthMiddleware.UserIdKey].Int64Val? ==> r.value.1 == FormatInt(ctx.keys[AuthMiddleware.UserIdKey].i)
    ensures r.Ok? && !ctx.keys[AuthMiddleware.UserIdKey].Int64Val? ==> r.value.1 == "0"
  {
    if AuthMiddleware.UserIdKey !in ctx.keys then Err("unauthorized")
    else
      var v := ctx.keys[AuthMiddleware.UserIdKey];
      var userID := FormatInt(if v.Int64Val? then v.i else 0);
      var blogID := ParseInt(ctx.pathId);
      if blogID.err != NoError then Err("invalid blog id")
      else Ok((blogID.value, userID))
  }

  /** For an authenticated request, the owner the repository scopes the
      delete to is exactly the user of the token: the decimal round trip
      neither merges nor splits users. */
  lemma DeleteScopedToTokenUser(ctx: AuthMiddleware.Context, n: int, role: string, row: Repositories.BlogRow)
    requires IsInt64(n) && IsInt64(row.userId)
    requires DeleteTarget(AuthMiddleware.Authenticate(ctx, Ok(AuthMiddleware.Claims(FormatInt(n), role))).1).Ok?
    ensures var (id, userID) := DeleteTarget(AuthMiddleware.Authenticate(ctx, Ok(AuthMiddleware.Claims(FormatInt(n), role))).1).value;
      Repositories.InScope(row, id, Some(userID)) <==> row.id == id && row.userId == n
  {
    AuthMiddleware.AuthenticatedUser(ctx, n, role);
    if FormatInt(row.userId) == FormatInt(n) {
      FormatIntInjective(row.userId, n);
    }
  }

  /** `DeleteBlog`'s status for a use-case error, as written: only the text
      "blog not found or not owned by user" is a 404. */
  function DeleteStatusAsWritten(err: string): (status: int)
    ensures status == StatusNotFound <==> err == "blog not found or not owned by user"
    ensures status != StatusNotFound ==> status == StatusInternalServerError
  {
    if err == "blog not found or not owned by user" then StatusNotFound else StatusInternalServerError
  }

  /** As written, a delete the backend carries out without error never
      answers 404: a missing or foreign blog reaches the client as 500. */
  lemma DeleteMissingBlogIsServerErrorAsWritten(rows: seq<Repositories.BlogRow>, id: int, userID: string)
    ensures var err := Repositories.ScopedOutcome(rows, id, Some(userID), None);
      err.Some? ==> DeleteStatusAsWritten(err.value) == StatusInternalServerError
  {
  }

  /** `UpdateBlog`'s status for a use-case error: "blog not found" is 404,
      anything else 500. The same mapping, applied to the repository's own
      text, is what `DeleteBlog` evidently intends. */
  function NotFoundStatus(err: string): (status: int)
    ensures status == StatusNotFound <==> err == Repositories.BlogNotFound
    ensures status != StatusNotFound ==> status == StatusInternalServerError
  {
    if err == Repositories.BlogNotFound then StatusNotFound else StatusInternalServerError
  }

  /** With that mapping, an owner-scoped delete or update the backend carries
      out without error fails exactly when the blog is missing or belongs to
      someone else, and then answers 404. */
  lemma {:induction false} MissingBlogIsNotFound(rows: seq<Repositories.BlogRow>, id: int, userID: string)
    requires Repositories.UniqueIds(rows)
    ensures var err := Repositories.ScopedOutcome(rows, id, Some(userID), None);
      var row := Repositories.FindRow(rows, id);
      && (err.Some? <==> !(row.Some? && Repositories.InScope(row.value, id, Some(userID))))
      && (err.Some? ==> NotFoundStatus(err.value) == StatusNotFound)
  {
    Repositories.NoRowInScope(rows, id, Some(userID));
  }

  /** The update body: only the fields present in the request are set. */
  function UpdateFields(title: Option<string>, content: Option<string>): (f: map<Repositories.Field, string>)
    ensures Repositories.Title in f <==> title.Some?
    ensures Repositories.Content in f <==> content.Some?
    ensures title.Some? ==> f[Repositories.Title] == title.value
    ensures content.Some? ==> f[Repositories.Content] == content.value
  {
    var f := if title.Some? then map[Repositories.Title := title.value] else map[];
    if content.Some? then f[Repositories.Content := content.value] else f
  }
}
