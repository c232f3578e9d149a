# Blog platform core: TTL cache, blog repository, request gating

This project is a Dafny model of the core of a Go blog backend (Gin handlers,
GORM repository, in-process cache), with proofs about that model. It covers
five parts of the backend:

- **TTL cache** (`cache.dfy`, module `TtlCache`). The class `Cache` holds a
  map from string keys to entries that may carry an expiry instant. `Get`
  evicts an expired entry lazily, and `Clear` is the bulk invalidation that
  writers use. The clock is an explicit `now` parameter, counted in
  nanoseconds.
- **Blog repository** (`blog_repository.dfy`, module `Repositories`).
  - The database is the class `Store`. It holds the blogs table in insertion
    order, the tag table keyed by its unique name with a serial id, and the
    blog/tag join rows.
  - `BlogRepository` pairs a store with its own cache. Reads go through the
    cache under the keys `blog:<id>`, `blogs:all` and
    `blogs:p=<page>:l=<limit>`, each with its own TTL.
  - Structural writes clear the cache. Update and delete are scoped to
    `id AND user_id`. The view and like counters live only in the store.
  - Each SQL statement's failure is a parameter of type `Option<string>`.
- **Request gating** (`auth_middleware.dfy`, module `AuthMiddleware`). The
  stages are authenticate, admin only, account owner only and blog author
  only. Each is a function from the request context to a decision and a
  context, and `Run` chains the stages the way Gin does. Token validation
  and the author lookup are oracles: their answers are parameters.
- **Use cases** (`blog_usecase.dfy`, module `Usecases`). This covers
  create-with-tags and its tag loop, which `AttachTagsToBlog` proves
  against the fold `AttachTags`. It also covers the id check and error
  wording of the fetches, and the pass-throughs.
- **Handler input handling** (`blog_controllers.dfy`, module
  `Controllers`). This covers the tag split, page/limit/offset defaulting,
  `total_pages`, the blog id guard and the delete/update error-to-status
  mapping.

Go's `strconv` base-10 functions (`strconv.dfy`) and `strings` functions
(`strs.dfy`) are modelled only as far as the core uses them. `base.dfy`
holds `Option`, `Result`, the int64 range, wrap-around and Go's truncating
division.

## Model

| member | source | states |
|---|---|---|
| TtlCache.Cache.constructor | infrastructure/cache.go:19-21 | a new cache holds no entries |
| TtlCache.NewItem | infrastructure/cache.go:26-30 | a positive ttl gives an entry expiring at now + ttl; any other ttl gives an entry with no expiry |
| TtlCache.Cache.Set | infrastructure/cache.go:23-32 | the key now holds the new entry; the previous entry for that key is replaced; every other key is unchanged |
| TtlCache.Live | infrastructure/cache.go:41 | an entry is live unless it has an expiry and the time is strictly after it, as `time.Time.After` |
| TtlCache.Lookup | infrastructure/cache.go:36-45 | a value is answered exactly when the key is present and its entry is live (no expiry, or now not strictly after the expiry) |
| TtlCache.AfterGet | infrastructure/cache.go:41-44 | a read removes the key exactly when its entry has expired; otherwise the map is unchanged |
| TtlCache.Cache.Get | infrastructure/cache.go:34-46 | answers `Lookup`; leaves the map as `AfterGet` says; an absent key answers nothing and changes nothing |
| TtlCache.Cache.Delete | infrastructure/cache.go:48-52 | removes that key only |
| TtlCache.Cache.Clear | infrastructure/cache.go:54-58 | the map is empty |
| TtlCache.GetAfterSet | infrastructure/cache.go:23-45 | a value set with a ttl reads back until now + ttl inclusive; with no expiry it reads back at any time; the read evicts nothing |
| TtlCache.GetAfterExpiry | infrastructure/cache.go:41-44 | strictly after now + ttl, the read misses and evicts the key |
| TtlCache.NoResurrection | infrastructure/cache.go:34-52 | once a key is absent or expired, no later read in any sequence of calls returns a value for it until that key is set again |
| TtlCache.ClearForgetsEverything | infrastructure/cache.go:54-58 | after `Clear`, every read of a key misses until that key is set again |
| Strconv.FormatInt | delivery/controllers/blog_controllers.go:98 | the decimal spelling starts with '-' exactly for negative numbers |
| Strconv.ParseInt | infrastructure/auth_middleware.go:58 | a syntax error gives 0, an out-of-range value saturates at the int64 bounds, success gives an int64, and the empty string is a syntax error |
| Strconv.ParseFormatRoundTrip | infrastructure/auth_middleware.go:31 | parsing the decimal spelling of any int64 gives it back without error |
| Strconv.FormatIntInjective | delivery/controllers/blog_controllers.go:98 | distinct int64 values have distinct decimal spellings |
| Strs.TrimSpace | delivery/controllers/blog_controllers.go:50 | the result neither starts nor ends with white space and is no longer than the input; `TrimSpaceIsInfix` pins down the rest |
| Strs.TrimSpaceIsInfix | delivery/controllers/blog_controllers.go:50 | the trimmed string is a contiguous piece of the input, and everything dropped before and after it is white space |
| Strs.ToLower | repositories/blog_repository.go:237 | the result has the input's length and each character lowered, ASCII only |
| Strs.Contains | repositories/blog_repository.go:240 | the needle occurs at some position of the text, as `LIKE '%needle%'` |
| Strs.Split | delivery/controllers/blog_controllers.go:49 | splitting gives at least one piece, and no piece holds the separator |
| Strs.SplitJoin | delivery/controllers/blog_controllers.go:49 | splitting pieces joined with a separator they lack gives the pieces back |
| Repositories.Store.Valid | repositories/blog_repository.go:15-18 | the tables' invariant: blog ids are unique, the counters are non-negative, and every tag id lies below the tag id sequence |
| Repositories.BlogRepository.constructor | repositories/blog_repository.go:27-29 | the repository works on the given store with a new, empty cache |
| Repositories.BlogKey | repositories/blog_repository.go:67 | `blog:` followed by the id in decimal; `BlogKeyInjective` and `KeyShapesDistinct` state what it promises |
| Repositories.PageKey | repositories/blog_repository.go:135 | `blogs:p=<page>:l=<limit>` in decimal; `PageKeyInjective` and `KeyShapesDistinct` state what it promises |
| Repositories.BlogKeyInjective | repositories/blog_repository.go:67 | distinct int64 ids get distinct `blog:<id>` keys |
| Repositories.PageKeyInjective | repositories/blog_repository.go:135 | distinct (page, limit) pairs get distinct `blogs:p=<page>:l=<limit>` keys |
| Repositories.KeyShapesDistinct | repositories/blog_repository.go:82 | a single-blog key, the listing key and a page key never coincide |
| Repositories.BlogRepository.Create | repositories/blog_repository.go:31-38 | a failed insert returns its error and changes neither store nor cache; success appends the row with counters 0, returns its id, clears the cache and keeps ids unique |
| Repositories.BlogRepository.FindOrCreateTag | repositories/blog_repository.go:40-53 | a failing lookup returns its error; an existing name returns its id; otherwise one new tag is inserted under the next id and that id is returned; a failing insert changes nothing; the cache is not touched |
| Repositories.BlogRepository.LinkTagToBlog | repositories/blog_repository.go:55-65 | success adds exactly the (blog, tag) join row and clears the cache; failure changes neither |
| Repositories.FindRow | repositories/blog_repository.go:74 | finds a row exactly when the id is a key of the table, and that row has the id |
| Repositories.ReadBlog | repositories/blog_repository.go:73-76 | a backend error is returned; a missing id is "record not found"; otherwise the row with that id and its linked tags |
| Repositories.CachedBlog | repositories/blog_repository.go:68-72 | a hit is a live entry under `blog:<id>` that holds a blog; with no entry under that key there is no hit |
| Repositories.BlogRepository.FetchByID | repositories/blog_repository.go:66-79 | a live cached blog is returned and the map is unchanged; on a miss it answers `ReadBlog`; only a successful read is cached, for five minutes |
| Repositories.FetchedBlogIsCached | repositories/blog_repository.go:77 | after a store read at `now`, later reads hit the cache (whatever the store then holds) exactly up to now + 5 minutes |
| Repositories.Listing | repositories/blog_repository.go:88-89 | one blog per row, in table order, each with its linked tags |
| Repositories.CachedListing | repositories/blog_repository.go:83-87 | a hit is a live entry under `blogs:all` that holds a listing; with no entry there is no hit |
| Repositories.BlogRepository.FetchAll | repositories/blog_repository.go:81-94 | a live cached listing is returned as is; on a miss the store error or the listing is answered; only a success is cached, for two minutes |
| Repositories.InScope | repositories/blog_repository.go:98 | a row is in scope of `id = ? AND user_id = ?` (or `id = ?` without an owner), the owner compared in decimal |
| Repositories.CountInScope | repositories/blog_repository.go:103 | `RowsAffected`: at most the number of rows, and 0 exactly when no row is in scope |
| Repositories.UpdateWhere | repositories/blog_repository.go:113-117 | the scoped `UPDATE` keeps the number of rows; `UpdateWhereFind` states what it changes |
| Repositories.DeleteWhere | repositories/blog_repository.go:97-99 | removes exactly the rows with that id and owner; every other row stays; no id is added |
| Repositories.NoRowInScope | repositories/blog_repository.go:103-104 | with unique ids, at most one row is in scope, and none exactly when the blog is missing or owned by someone else |
| Repositories.DeleteWhereFind | repositories/blog_repository.go:96-108 | after a scoped delete the target blog is gone and every other blog reads back as before |
| Repositories.DeleteWhereKeepsUnique | repositories/blog_repository.go:97-99 | a scoped delete keeps ids unique |
| Repositories.ScopedOutcome | repositories/blog_repository.go:96-108 | a backend error is passed on unchanged; without one, the answer is "blog not found" exactly when no row has that id (and that owner, when one is given), and success otherwise |
| Repositories.BlogRepository.DeleteByID | repositories/blog_repository.go:96-108 | a backend error changes nothing; no matching row gives "blog not found" with store and cache untouched; otherwise the scoped rows are deleted and the cache is cleared |
| Repositories.UpdateWhereFind | repositories/blog_repository.go:114-116 | a scoped update changes exactly the row it is scoped to; every other row reads back as before |
| Repositories.UpdateWhereKeepsUnique | repositories/blog_repository.go:114-116 | a scoped update keeps ids unique |
| Repositories.UpdateKeepsCountersNonNegative | repositories/blog_repository.go:191-216 | no update the repository makes drives a counter below zero |
| Repositories.BlogRepository.UpdateByID | repositories/blog_repository.go:110-126 | an empty update map does nothing at all; a backend error changes nothing; no matching row gives "blog not found" with the cache kept; otherwise only the given fields of the scoped row change and the cache is cleared |
| Repositories.PaginateAsWritten | repositories/blog_repository.go:130 | `(page-1)*limit` wrapped to int64, so the offset is always an int64 |
| Repositories.Paginate | repositories/blog_repository.go:128-133 | the corrected offset: non-negative for page >= 1 and limit >= 0, and an int64 unless the product is below the int64 range |
| Repositories.PaginateWrapsAround | repositories/blog_repository.go:128-133 | as written, page 3 with limit MaxInt64 gives offset -2, and the page then holds the first rows |
| Repositories.PaginateAsWrittenInRange | repositories/blog_repository.go:130 | where (page-1)*limit fits in int64, the expression as written and the saturating offset agree |
| Repositories.Skipped | repositories/blog_repository.go:131 | `Offset` skips nothing for a non-positive offset and never more than the rows there are |
| Repositories.Window | repositories/blog_repository.go:131 | the window is a contiguous slice of at most `limit` rows from the skipped offset on, and is short only at the end of the rows |
| Repositories.PageContents | repositories/blog_repository.go:128-133 | page p of `limit` rows holds exactly rows (p-1)*limit up to (p-1)*limit+limit, and nothing past the end |
| Repositories.CachedPage | repositories/blog_repository.go:136-140 | a hit is a live entry under the page key that holds a page and its total; with no entry there is no hit |
| Repositories.BlogRepository.FetchPaginatedBlogs | repositories/blog_repository.go:134-161 | a live cached page is returned as is; if the count or the slice fails, that error is returned and nothing is cached; success answers the page window and the row count and caches them for one minute |
| Repositories.Popularity | repositories/blog_repository.go:219-225 | fails exactly when the blog is missing |
| Repositories.BlogRepository.GetPopularity | repositories/blog_repository.go:219-225 | answers the blog's (view_count, likes), both non-negative, or the error |
| Repositories.BlogRepository.IncrementView | repositories/blog_repository.go:191-196 | adds 1 to view_count of the row with that id; a missing blog is not an error; the cache is not touched |
| Repositories.ViewEffect | repositories/blog_repository.go:191-196 | after a view, that blog's view count is one more and every other count reads back as before |
| Repositories.BlogRepository.AddLike | repositories/blog_repository.go:198-203 | adds 1 to likes of the row with that id; the user id is ignored; the cache is not touched |
| Repositories.LikeEffect | repositories/blog_repository.go:198-203 | after a like, that blog's likes are one more and every other count reads back as before |
| Repositories.BlogRepository.RemoveLike | repositories/blog_repository.go:205-217 | a missing blog or a failing statement changes nothing; otherwise likes become one less, or stay 0 |
| Repositories.InterleavedUnlikesLoseOne | repositories/blog_repository.go:207-216 | two unlikes whose reads both precede either write take off only one like |
| Repositories.SerializedUnlikesCountBoth | repositories/blog_repository.go:207-216 | two unlikes run one after the other take off two likes, stopping at 0 |
| Repositories.UnlikeEffect | repositories/blog_repository.go:207-216 | an unlike lowers only its own blog's likes, never below zero, so repeated unlikes at 0 change nothing |
| Repositories.Matching | repositories/blog_repository.go:239-240 | the rows kept are exactly the stored rows whose lowercased title or content contains the needle |
| Repositories.NewestFirst | repositories/blog_repository.go:254 | the search order is a permutation of the matching rows |
| Repositories.NewestFirstSorted | repositories/blog_repository.go:254 | the search order is sorted by created_at, newest first |
| Repositories.SearchPage | repositories/blog_repository.go:249-254 | a page holds at most `limit` results |
| Repositories.SearchWrapsAround | repositories/blog_repository.go:252 | as written, page 3 with limit MaxInt64 gets offset -2 and answers every match, where the saturating offset answers none |
| Repositories.SearchPageContents | repositories/blog_repository.go:249-254 | with page >= 1 and limit >= 1, the page is exactly rows (page-1)*limit up to (page-1)*limit + limit of the newest-first matches, and empty past the end |
| Repositories.SearchPageProperties | repositories/blog_repository.go:233-256 | every result is a stored blog whose lowercased title or content contains the needle, carries no tags, and the page is newest first |
| Repositories.BlogRepository.SearchBlogs | repositories/blog_repository.go:227-260 | a blank query answers ([], 0) without reading the store; either failure is returned; otherwise page < 1 reads as 1, limit <= 0 as 10, and the answer is that search page with the number of matches; the cache is not used |
| AuthMiddleware.Authenticate | infrastructure/auth_middleware.go:20-38 | a rejected token aborts with 401 "invalid token" and leaves the context as it was; an accepted one stores under user_id exactly the int64 `ParseInt` reads from the token's user id, with the error ignored (0 for bad syntax, MaxInt64 or MinInt64 out of range), stores the role, keeps every other key and hands on |
| AuthMiddleware.AuthenticatedUser | infrastructure/auth_middleware.go:31-34 | a token whose user id spells an int64 authenticates as exactly that user |
| AuthMiddleware.Admin | infrastructure/auth_middleware.go:40-51 | hands on exactly when the role is the string "admin"; otherwise 403 |
| AuthMiddleware.AccountOwner | infrastructure/auth_middleware.go:53-74 | hands on exactly when the path id parses and the stored user id is that same int64; otherwise 403 |
| AuthMiddleware.OwnerAfterAuthentication | infrastructure/auth_middleware.go:53-74 | after authentication, the owner check passes exactly when the token user and the path id are the same number |
| AuthMiddleware.BlogAuthor | infrastructure/auth_middleware.go:76-108 | in order: no user is 401, a bad or non-positive blog id is 400 with no lookup, a failed lookup is 404, another author is 403, a non-int64 user panics; it hands on exactly for the author |
| AuthMiddleware.AuthorCheckAfterAuthenticationNeverPanics | infrastructure/auth_middleware.go:100 | behind authentication the author check's type assertion cannot fail |
| AuthMiddleware.Run | delivery/routers/user_routers.go:30 | the handler runs only after every stage handed on; otherwise the stage that ran last decided |
| AuthMiddleware.RunAppend | delivery/routers/user_routers.go:30 | a chain a + b runs a, then runs b from the context a left only when a handed on |
| AuthMiddleware.AbortStopsTheChain | infrastructure/auth_middleware.go:27 | after an abort, no later stage runs |
| AuthMiddleware.AuthenticatedAdmin | delivery/routers/user_routers.go:30 | on the admin routes the handler runs exactly for a valid admin token; a bad token is 401 before the admin check; a valid non-admin token is 403 |
| Usecases.TagStep | usecases/blog_usecase.go:43-55 | an empty tag is skipped; otherwise the tag is found or created, then linked; each failure gives its wrapped error; ids already handed out never change |
| Usecases.AttachTags | usecases/blog_usecase.go:42-56 | the tag loop only ever extends the tag and link tables |
| Usecases.AttachTagsLinksEveryTag | usecases/blog_usecase.go:42-56 | when the loop succeeds, every non-empty tag exists and is linked to the blog |
| Usecases.EmptyTagsAreSkipped | usecases/blog_usecase.go:43-45 | with only empty tags, the loop changes nothing and cannot fail, whatever the backend would answer |
| Usecases.FailureStopsTheLoop | usecases/blog_usecase.go:48-55 | after the first failure no later tag is processed, and the earlier links remain |
| Usecases.AttachTagsKeepsIdsBelowSequence | usecases/blog_usecase.go:47 | every tag id the loop hands out stays below the id sequence |
| Usecases.AttachLinks | usecases/blog_usecase.go:42-56 | whether the loop links at least one tag before it stops |
| Usecases.AttachLinksWhenAnyTag | usecases/blog_usecase.go:42-56 | a loop that gets through with a non-empty tag has linked one, and a loop over empty tags links none |
| Usecases.BlogUsecase.AttachTagsToBlog | usecases/blog_usecase.go:42-56 | the loop returns the error of the fold `AttachTags` and leaves the tables it computes; the cache is cleared exactly when some tag was linked, and otherwise left as it was |
| Usecases.BlogUsecase.CreateBlog | usecases/blog_usecase.go:23-59 | checks come in order: empty title or content, then zero user, neither touching the store; a failed create is "failed to create blog"; id 0 is "blog ID not set after creation"; otherwise the tags are attached as `AttachTags` says |
| Usecases.FetchOutcome | usecases/blog_usecase.go:66-71 | a live cached blog, else the store's blog, else "failed to fetch blog" |
| Usecases.BlogUsecase.FetchBlogByID | usecases/blog_usecase.go:61-72 | id <= 0 is "invalid blog ID" with no repository call; any repository failure is "failed to fetch blog"; the cache is left as the repository leaves it: unchanged on a live hit, the expired entry evicted on a miss, and a found blog cached for five minutes |
| Usecases.BlogUsecase.FetchAllBlogs | usecases/blog_usecase.go:74-80 | a repository failure is wrapped as "failed to fetch blogs: ..."; otherwise the repository's listing is returned; the cache is unchanged on a live hit, loses the expired entry on a miss, and holds the listing for two minutes after a successful read |
| Usecases.BlogUsecase.DeleteBlog | usecases/blog_usecase.go:82-84 | returns the repository's answer unchanged, with its effect on store and cache |
| Usecases.BlogUsecase.FetchPaginatedBlogs | usecases/blog_usecase.go:96-99 | returns the repository's answer unchanged, with its effect on the cache: unchanged on a live hit, the expired entry evicted on a miss, and a successful page cached for one minute |
| Controllers.KeptTags | delivery/controllers/blog_controllers.go:49-54 | the trimmed, non-empty pieces in order: never more tags than pieces, and no empty tag |
| Controllers.SplitTags | delivery/controllers/blog_controllers.go:47-54 | the tags are the comma pieces, trimmed, with empty ones dropped and order kept; each is non-empty, trimmed and comma-free |
| Controllers.TrimmedPieceIsClean | delivery/controllers/blog_controllers.go:50-52 | a trimmed comma-free piece is empty or a clean tag |
| Controllers.SplitTagsRoundTrip | delivery/controllers/blog_controllers.go:47-54 | clean tags joined with commas split back into the same tags, in order |
| Controllers.NoTagsFromBlankField | delivery/controllers/blog_controllers.go:49-54 | a tags field of nothing but white space and commas gives no tags |
| Controllers.NumberOr | delivery/controllers/blog_controllers.go:166-174 | the default text replaces only an absent parameter; a present value that parses and is at least `least` is kept, a present one that does not parse or is too small becomes the fallback, and an absent one reads the default text the same way |
| Controllers.PageParams | delivery/controllers/blog_controllers.go:163-174 | page and limit are positive int64 values; a present value that parses and is at least 1 is kept, and an absent, malformed or too small one becomes 1 (page) or 10 (limit) |
| Controllers.PageParamsKeepValidNumbers | delivery/controllers/blog_controllers.go:166-174 | any positive int64 page and limit reach the use case unchanged |
| Controllers.TotalPagesAsWritten | delivery/controllers/blog_controllers.go:181 | `(total + limit - 1) / limit` with int64 wrap-around and truncating division; `TotalPagesOverflow` and `TotalPagesAsWrittenInRange` state what it does |
| Controllers.TotalPagesOverflow | delivery/controllers/blog_controllers.go:181 | as written, two blogs with limit MaxInt64 report -1 pages, where the count is 1 |
| Controllers.TotalPagesAsWrittenInRange | delivery/controllers/blog_controllers.go:181 | where the sum fits in int64, the expression as written equals `TotalPages` |
| Controllers.TotalPages | delivery/controllers/blog_controllers.go:181 | the page count lies between 0 and total |
| Controllers.TotalPagesIsCeiling | delivery/controllers/blog_controllers.go:181 | `TotalPages` is the ceiling of total/limit: enough pages for every row, no empty last page, and 0 exactly for no rows |
| Controllers.SearchParams | delivery/controllers/blog_controllers.go:238-255 | a blank q is "q is required"; then a present page that does not parse or is below 1 is "invalid page"; then such a limit is "invalid limit"; otherwise the page and limit given are used, 1 and 10 when absent |
| Controllers.SearchParamsNeedNoRepositoryDefaults | delivery/controllers/blog_controllers.go:246-255 | the repository's own page and limit defaults never apply to what the search handler lets through |
| Controllers.FilterParams | delivery/controllers/blog_controllers.go:311-336 | an absent user_id means no user filter and an unparseable one is "invalid user_id"; a limit that parses and is at least 1 is kept, otherwise 10; an offset that parses and is at least 0 is kept, otherwise 0 |
| Controllers.BlogIdParam | delivery/controllers/blog_controllers.go:185-189 | exactly the positive int64 ids pass; anything else is "invalid blog id" |
| Controllers.BlogIdParamRoundTrip | delivery/controllers/blog_controllers.go:224-228 | a decimal int64 passes the guard exactly when it is positive, and passes unchanged |
| Controllers.DeleteTarget | delivery/controllers/blog_controllers.go:91-109 | no user is "unauthorized"; an unparseable path id is "invalid blog id"; the owner sent on is the user id in decimal (0 for a non-int64) |
| Controllers.DeleteScopedToTokenUser | delivery/controllers/blog_controllers.go:97-98 | the delete is scoped to exactly the rows of the token's user |
| Controllers.DeleteStatusAsWritten | delivery/controllers/blog_controllers.go:111-118 | only the text "blog not found or not owned by user" gives 404; everything else gives 500 |
| Controllers.DeleteMissingBlogIsServerErrorAsWritten | delivery/controllers/blog_controllers.go:111-118 | when the scoped delete finds no blog of that user, the repository's "blog not found" reaches the client as 500 |
| Controllers.NotFoundStatus | delivery/controllers/blog_controllers.go:151-157 | "blog not found" gives 404; every other error gives 500 |
| Controllers.MissingBlogIsNotFound | delivery/controllers/blog_controllers.go:111-118 | with unique ids, the scoped statement fails exactly when the blog is missing or belongs to someone else, and the intended mapping then answers 404 |
| Controllers.UpdateFields | delivery/controllers/blog_controllers.go:144-150 | the update map holds exactly the fields present in the request, with their values |

## Left out

- The cache's mutex and the errgroup fan-out are left out. The count and
  the slice are read one after the other. When both fail, the model reports
  the count's error; Go reports whichever failure the errgroup sees first.
  Cancellation of the sibling query is not modelled.
- The SQL engine is replaced by sequences. The model assumes that `Find`
  without `ORDER BY` returns rows in insertion order, and that
  `ORDER BY created_at DESC` keeps insertion order among equal times.
- `LIKE` wildcards inside the query are treated as literal characters.
  `strings.ToLower` folds ASCII letters only.
- The owner in `id = ? AND user_id = ?` is compared with the row's user id
  in decimal spelling, since the handlers send a `FormatInt` string. How
  Postgres casts other spellings (leading zeros, a plus sign) is not
  modelled.
- Deleting removes the row. GORM's soft delete and `updated_at` are not
  modelled, and neither are the `User` preload and associations other than
  tags.
- View and like counters are unbounded integers; the column's overflow is
  not modelled.
- The counter operations do not clear the cache, so after a counter
  change a cached copy of the blog shows stale counts for up to five
  minutes. The model keeps this behaviour.
- Create-with-tags is not one transaction: links made before a failure
  stay. The model keeps this behaviour.
- `FindOrCreateTag`'s `(0, err)` is modelled as an error result; the 0 is
  never used.
- Repositories.BlogRepository.LinkTagToBlog: the join rows are a set, so
  linking the same tag twice (the tags "go,go") succeeds twice; a join
  table with a primary key would reject the second insert, which only the
  backend's error parameter can express.
- The use case's `UpdateBlog` is left out: its signature disagrees with its
  interface, and it calls a repository method that does not exist. The
  update handler's request reading is left out too, apart from
  `UpdateFields` and `NotFoundStatus`.
- `FetchByFilter`, `AddComment`, `ListComments`, the AI service and the
  routers' wiring are not part of this model.
- JWT verification and the author lookup are oracles. Gin's JSON binding,
  the response bodies and the recovery of the `Panic` decision are not
  modelled.
- `strconv.Atoi` is modelled as `ParseInt(s, 10, 64)`, which is what it
  does on a 64-bit platform.
- Tag ids are serial, counted from 1. Blog ids are assigned by the database
  and arrive as a parameter, which must be fresh.
- Repositories.BlogRepository.IncrementView, AddLike and RemoveLike are
  each one atomic step. `RemoveLike`'s read-modify-write takes no row lock,
  so concurrent unlikes can lose an update; `InterleavedUnlikesLoseOne`
  exhibits this (see Findings), but the model does not interleave calls.
- Repositories.BlogRepository.SearchBlogs: its page, `SearchPage`, starts
  at the saturating `Paginate` offset, not at the int64 expression of
  repositories/blog_repository.go:252, which wraps as line 130 does (see
  Findings).
- Repositories.BlogRepository.FetchPaginatedBlogs: computes the offset with
  the saturating `Paginate`, not with the int64 expression as written (see
  Findings).

## Findings

| source | as written | input that shows it | evidently intended | confidence | as-written member | corrected member |
|---|---|---|---|---|---|---|
| delivery/controllers/blog_controllers.go:113 | `DeleteBlog` gives 404 only for the text "blog not found or not owned by user", but the repository (repositories/blog_repository.go:104) says "blog not found" | deleting a missing blog, or another user's blog, in a request that reaches the handler with a user id (delivery/routers/blog_routers.go:24 adds no authentication of its own, so without one from a parent group the handler answers 401 first) | 404 for that error, as `UpdateBlog` does | high, not executed | Controllers.DeleteMissingBlogIsServerErrorAsWritten | Controllers.MissingBlogIsNotFound |
| delivery/controllers/blog_controllers.go:181 | `(total + limit - 1) / limit` in int64 overflows for large limits | total 2, limit 9223372036854775807 (a valid `limit` parameter) gives -1 | 1, the ceiling of total/limit | high, not executed | Controllers.TotalPagesOverflow | Controllers.TotalPagesIsCeiling |
| repositories/blog_repository.go:130 | `(page - 1) * limit` in int64 wraps around | page 3, limit 9223372036854775807 gives offset -2, which the ORM ignores, so page 3 repeats the first rows | an empty page past the end | medium, not executed | Repositories.PaginateWrapsAround | Repositories.PageContents |
| repositories/blog_repository.go:252 | `SearchBlogs` computes `(page - 1) * limit` in int64 as well, which wraps around | query "a" with one matching blog, page 3, limit 9223372036854775807 (both pass the handler) gives offset -2, so page 3 answers the first matches | an empty page past the end | medium, not executed | Repositories.SearchWrapsAround | Repositories.SearchPageContents |
| repositories/blog_repository.go:208-215 | `RemoveLike` reads `likes` with a plain SELECT and writes back the decremented value; under READ COMMITTED nothing stops a second transaction reading the same value | two concurrent unlikes of a blog with 2 likes both read 2 and both write 1 | 0 likes, as with a row lock or one `UPDATE ... SET likes = GREATEST(likes - 1, 0)` | medium, not executed | Repositories.InterleavedUnlikesLoseOne | Repositories.SerializedUnlikesCountBoth |
