/**
 * The blog use cases: input validation in front of the repository, the
 * create-with-tags protocol, and the error wording the controllers see.
 */
module Usecases {
  import opened Base
  import opened Repositories
  import TtlCache

  const EmptyFields: string := "title and content cannot be empty"
  const ZeroUser: string := "userID cannot be zero"
  const CreateFailed: string := "failed to create blog"
  const IdNotSet: string := "blog ID not set after creation"
  const InvalidId: string := "invalid blog ID"
  const FetchFailed: string := "failed to fetch blog"

  function FindOrCreateFailed(tag: string, err: string): string {
    "failed to find or create tag '" + tag + "': " + err
  }

  function LinkFailed(tag: string, err: string): string {
    "failed to link tag '" + tag + "' to blog: " + err
  }

  function FetchAllFailed(err: string): string {
    "failed to fetch blogs: " + err
  }

  /** The backend's answers to the statements one tag triggers: the name
      lookup, the insert of a new tag, the join-row insert. */
  datatype TagBackend = TagBackend(lookupErr: Option<string>, insertErr: Option<string>, linkErr: Option<string>)

  /** The tag side of the store: the tags by name, the next tag id, and the
      blog/tag join rows. */
  datatype TagTables = TagTables(tagIds: map<string, int>, nextTagId: int, links: set<(int, int)>)

  function TablesOf(s: Store): TagTables
    reads s
  {
    TagTables(s.tagIds, s.nextTagId, s.links)
  }

  /** Tag ids once given are never changed or taken back. */
  predicate Extends(t: TagTables, u: TagTables) {
    && (forall name :: name in t.tagIds ==> name in u.tagIds && u.tagIds[name] == t.tagIds[name])
    && t.links <= u.links
    && t.nextTagId <= u.nextTagId
  }

  /** One pass of the tag loop: an empty tag is skipped; otherwise the tag
      is found or created, then linked to the blog. A failure stops with the
      wrapped error, keeping whatever the earlier statements did. */
  function TagStep(t: TagTables, tag: string, blogId: int, b: TagBackend): (r: (TagTables, Option<string>))
    ensures Extends(t, r.0)
    ensures r.1.None? && tag != "" ==> tag in r.0.tagIds && (blogId, r.0.tagIds[tag]) in r.0.links
  {
    if tag == "" then (t, None)
    else if b.lookupErr.Some? then (t, Some(FindOrCreateFailed(tag, b.lookupErr.value)))
    else if tag !in t.tagIds && b.insertErr.Some? then (t, Some(FindOrCreateFailed(tag, b.insertErr.value)))
    else
      var t' := if tag in t.tagIds then t else t.(tagIds := t.tagIds[tag := t.nextTagId], nextTagId := t.nextTagId + 1);
      if b.linkErr.Some? then (t', Some(LinkFailed(tag, b.linkErr.value)))
      else (t'.(links := t'.links + {(blogId, t'.tagIds[tag])}), None)
  }

  /** The whole tag loop: the tags in order, stopping at the first failure. */
  function AttachTags(t: TagTables, tags: seq<string>, blogId: int, backend: seq<TagBackend>): (r: (TagTables, Option<string>))
    requires |backend| == |tags|
    ensures Extends(t, r.0)
    decreases |tags|
  {
    if tags == [] then (t, None)
    else
      var (t', e) := TagStep(t, tags[0], blogId, backend[0]);
      if e.Some? then (t', e)
      else
        var r := AttachTags(t', tags[1..], blogId, backend[1..]);
        assert Extends(t', r.0);
        r
  }

  /** Whether the loop links at least one tag before it stops: only a
      successful link clears the cache. */
  function AttachLinks(t: TagTables, tags: seq<string>, blogId: int, backend: seq<TagBackend>): bool
    requires |backend| == |tags|
    decreases |tags|
  {
    if tags == [] then false
    else
      var (t', e) := TagStep(t, tags[0], blogId, backend[0]);
      e.None? && (tags[0] != "" || AttachLinks(t', tags[1..], blogId, backend[1..]))
  }

  /** A loop that gets through with at least one non-empty tag has linked
      one; a loop over empty tags links nothing. */
  lemma {:induction false} AttachLinksWhenAnyTag(t: TagTables, tags: seq<string>, blogId: int, backend: seq<TagBackend>)
    requires |backend| == |tags|
    ensures AttachTags(t, tags, blogId, backend).1.None? && (exists k :: 0 <= k < |tags| && tags[k] != "") ==>
      AttachLinks(t, tags, blogId, backend)
    ensures (forall k :: 0 <= k < |tags| ==> tags[k] == "") ==> !AttachLinks(t, tags, blogId, backend)
    decreases |tags|
  {
    if tags != [] {
      var (t', e) := TagStep(t, tags[0], blogId, backend[0]);
      AttachLinksWhenAnyTag(t', tags[1..], blogId, backend[1..]);
      if tags[0] == "" {
        if exists k :: 0 <= k < |tags| && tags[k] != "" {
          var k :| 0 <= k < |tags| && tags[k] != "";
          assert tags[1..][k - 1] != "";
        }
        if forall k :: 0 <= k < |tags| ==> tags[k] == "" {
          assert forall k :: 0 <= k < |tags| - 1 ==> tags[1..][k] == tags[k + 1];
        }
      }
    }
  }

  /** When the loop gets through, every non-empty tag exists and is linked to
      the blog. */
  lemma {:induction false} AttachTagsLinksEveryTag(t: TagTables, tags: seq<string>, blogId: int, backend: seq<TagBackend>)
    requires |backend| == |tags|
    requires AttachTags(t, tags, blogId, backend).1.None?
    ensures var u := AttachTags(t, tags, blogId, backend).0;
      forall k :: 0 <= k < |tags| && tags[k] != "" ==> tags[k] in u.tagIds && (blogId, u.tagIds[tags[k]]) in u.links
    decreases |tags|
  {
    if tags != [] {
      var (t', e) := TagStep(t, tags[0], blogId, backend[0]);
      AttachTagsLinksEveryTag(t', tags[1..], blogId, backend[1..]);
      var u := AttachTags(t, tags, blogId, backend).0;
      forall k | 0 <= k < |tags| && tags[k] != ""
        ensures tags[k] in u.tagIds && (blogId, u.tagIds[tags[k]]) in u.links
      {
        if k > 0 {
          assert tags[k] == tags[1..][k - 1];
        }
      }
    }
  }

  /** Empty tags are skipped: with nothing else to do, the loop changes
      nothing and cannot fail, whatever the backend would have answered. */
  lemma {:induction false} EmptyTagsAreSkipped(t: TagTables, tags: seq<string>, blogId: int, backend: seq<TagBackend>)
    requires |backend| == |tags|
    requires forall k :: 0 <= k < |tags| ==> tags[k] == ""
    ensures AttachTags(t, tags, blogId, backend) == (t, None)
    decreases |tags|
  {
    if tags != [] {
      EmptyTagsAreSkipped(t, tags[1..], blogId, backend[1..]);
    }
  }

  /** The loop stops at the first failure: once the tags so far have failed,
      no later tag is looked at, and what the loop did before the failure is
      kept. */
  lemma {:induction false} FailureStopsTheLoop(t: TagTables, tags: seq<string>, more: seq<string>, blogId: int, backend: seq<TagBackend>, moreBackend: seq<TagBackend>)
    requires |backend| == |tags| && |moreBackend| == |more|
    requires AttachTags(t, tags, blogId, backend).1.Some?
    ensures AttachTags(t, tags + more, blogId, backend + moreBackend) == AttachTags(t, tags, blogId, backend)
    decreases |tags|
  {
    var all, allBackend := tags + more, backend + moreBackend;
    assert all[0] == tags[0] && allBackend[0] == backend[0];
    assert all[1..] == tags[1..] + more && allBackend[1..] == backend[1..] + moreBackend;
    var (t', e) := TagStep(t, tags[0], blogId, backend[0]);
    if e.None? {
      FailureStopsTheLoop(t', tags[1..], more, blogId, backend[1..], moreBackend);
    }
  }

  /** Every tag id the loop hands out stays below the id sequence, as the
      store's invariant demands. */
  lemma {:induction false} AttachTagsKeepsIdsBelowSequence(t: TagTables, tags: seq<string>, blogId: int, backend: seq<TagBackend>)
    requires |backend| == |tags|
    requires t.nextTagId >= 1 && forall name :: name in t.tagIds ==> 1 <= t.tagIds[name] < t.nextTagId
    ensures var u := AttachTags(t, tags, blogId, backend).0;
      u.nextTagId >= 1 && forall name :: name in u.tagIds ==> 1 <= u.tagIds[name] < u.nextTagId
    decreases |tags|
  {
    if tags != [] {
      var (t', e) := TagStep(t, tags[0], blogId, backend[0]);
      if e.None? {
        AttachTagsKeepsIdsBelowSequence(t', tags[1..], blogId, backend[1..]);
      }
    }
  }

  /** One turn of the tag loop, from position `k` on. */
  lemma AttachTagsFrom(t: TagTables, tags: seq<string>, k: nat, blogId: int, backend: seq<TagBackend>)
    requires |backend| == |tags| && k < |tags|
    ensures AttachTags(t, tags[k..], blogId, backend[k..]) ==
      var step := TagStep(t, tags[k], blogId, backend[k]);
      if step.1.Some? then step else AttachTags(step.0, tags[k + 1..], blogId, backend[k + 1..])
    ensures AttachLinks(t, tags[k..], blogId, backend[k..]) ==
      var step := TagStep(t, tags[k], blogId, backend[k]);
      step.1.None? && (tags[k] != "" || AttachLinks(step.0, tags[k + 1..], blogId, backend[k + 1..]))
  {
  }

  /** The result `FetchByID` would give, as the use case reports it. */
  function FetchOutcome(data: map<string, TtlCache.CacheItem<Cached>>, s: Result<Blog>, id: int, now: int): Result<Blog> {
    match CachedBlog(data, id, now)
    case Some(b) => Ok(b)
    case None => if s.Ok? then s else Err(FetchFailed)
  }

  class BlogUsecase {
    const repo: BlogRepository

    constructor (repo: BlogRepository)
      ensures this.repo == repo
    {
      this.repo := repo;
    }

    /** Validates the draft, creates the blog, then attaches its tags in
        order. The title/content check comes first, then the user check, and
        neither touches the repository; a failed create is reported as
        "failed to create blog"; a blog without an id stops before any tag. */
    method CreateBlog(draft: Draft, tags: seq<string>, assignedId: int, now: int, createErr: Option<string>, backend: seq<TagBackend>)
      returns (err: Option<string>)
      requires repo.db.Valid() && assignedId !in Ids(repo.db.blogs) && |backend| == |tags|
      modifies repo.db, repo.c
      ensures repo.db.Valid()
      ensures draft.title == "" || draft.content == "" ==> err == Some(EmptyFields) && unchanged(repo.db) && unchanged(repo.c)
      ensures draft.title != "" && draft.content != "" && draft.userId == 0 ==>
        err == Some(ZeroUser) && unchanged(repo.db) && unchanged(repo.c)
      ensures draft.title != "" && draft.content != "" && draft.userId != 0 && createErr.Some? ==>
        err == Some(CreateFailed) && unchanged(repo.db) && unchanged(repo.c)
      ensures draft.title != "" && draft.content != "" && draft.userId != 0 && createErr.None? ==>
        (&& repo.db.blogs == old(repo.db.blogs) + [BlogRow(assignedId, draft.userId, draft.title, draft.content, 0, 0, now)]
         && repo.c.data == map[])
      ensures draft.title != "" && draft.content != "" && draft.userId != 0 && createErr.None? && assignedId == 0 ==>
        err == Some(IdNotSet) && TablesOf(repo.db) == old(TablesOf(repo.db))
      ensures draft.title != "" && draft.content != "" && draft.userId != 0 && createErr.None? && assignedId != 0 ==>
        err == AttachTags(old(TablesOf(repo.db)), tags, assignedId, backend).1
        && TablesOf(repo.db) == AttachTags(old(TablesOf(repo.db)), tags, assignedId, backend).0
    {
      if draft.title == "" || draft.content == "" {
        return Some(EmptyFields);
      }
      if draft.userId == 0 {
        return Some(ZeroUser);
      }
      var created := repo.Create(draft, assignedId, now, createErr);
      if created.Err? {
        return Some(CreateFailed);
      }
      var blogId := created.value;
      if blogId == 0 {
        return Some(IdNotSet);
      }
      err := AttachTagsToBlog(blogId, tags, backend);
    }

    /** The tag loop of `CreateBlog`: each non-empty tag is found or created
        and linked to the blog, in order, and the first failure ends it. The
        blogs are not touched; the cache is either left alone or cleared by a
        link. */
    method AttachTagsToBlog(blogId: int, tags: seq<string>, backend: seq<TagBackend>) returns (err: Option<string>)
      requires repo.db.Valid() && |backend| == |tags|
      modifies repo.db, repo.c
      ensures repo.db.Valid() && repo.db.blogs == old(repo.db.blogs)
      ensures repo.c.data == if AttachLinks(old(TablesOf(repo.db)), tags, blogId, backend) then map[] else old(repo.c.data)
      ensures err == AttachTags(old(TablesOf(repo.db)), tags, blogId, backend).1
      ensures TablesOf(repo.db) == AttachTags(old(TablesOf(repo.db)), tags, blogId, backend).0
    {
      ghost var goal := AttachTags(TablesOf(repo.db), tags, blogId, backend);
      ghost var clears := AttachLinks(TablesOf(repo.db), tags, blogId, backend);
      ghost var linked := false;
      var k := 0;
      while k < |tags|
        invariant 0 <= k <= |tags|
        invariant repo.db.Valid() && repo.db.blogs == old(repo.db.blogs)
        invariant repo.c.data == if linked then map[] else old(repo.c.data)
        invariant AttachTags(TablesOf(repo.db), tags[k..], blogId, backend[k..]) == goal
        invariant (linked || AttachLinks(TablesOf(repo.db), tags[k..], blogId, backend[k..])) == clears
        decreases |tags| - k
      {
        var tag := tags[k];
        ghost var before := TablesOf(repo.db);
        ghost var step := TagStep(before, tag, blogId, backend[k]);
        AttachTagsFrom(before, tags, k, blogId, backend);
        if tag == "" {
          k := k + 1;
          continue;
        }
        var tagId := repo.FindOrCreateTag(tag, backend[k].lookupErr, backend[k].insertErr);
        if tagId.Err? {
          assert step.1 == Some(FindOrCreateFailed(tag, tagId.error));
          assert step.0 == TablesOf(repo.db);
          return Some(FindOrCreateFailed(tag, tagId.error));
        }
        var linkErr := repo.LinkTagToBlog(blogId, tagId.value, backend[k].linkErr);
        if linkErr.Some? {
          assert step.1 == Some(LinkFailed(tag, linkErr.value));
          assert step.0 == TablesOf(repo.db);
          return Some(LinkFailed(tag, linkErr.value));
        }
        assert step.1 == None;
        assert step.0 == TablesOf(repo.db);
        linked := true;
        k := k + 1;
      }
      return None;
    }

    /** A non-positive id is rejected before the repository is asked; any
        repository failure is reported as "failed to fetch blog". */
    method FetchBlogByID(id: int, now: int, dbErr: Option<string>) returns (r: Result<Blog>)
      modifies repo.c
      ensures id <= 0 ==> r == Err(InvalidId) && unchanged(repo.c)
      ensures id > 0 ==> r == FetchOutcome(old(repo.c.data), ReadBlog(repo.db.blogs, repo.db.tagIds, repo.db.links, id, dbErr), id, now)
      ensures r.Ok? ==> r.value.id == id || CachedBlog(old(repo.c.data), id, now).Some?
      ensures id > 0 && CachedBlog(old(repo.c.data), id, now).Some? ==> repo.c.data == old(repo.c.data)
      ensures id > 0 && CachedBlog(old(repo.c.data), id, now).None? && ReadBlog(repo.db.blogs, repo.db.tagIds, repo.db.links, id, dbErr).Ok? ==>
        repo.c.data == TtlCache.AfterGet(old(repo.c.data), BlogKey(id), now)
          [BlogKey(id) := TtlCache.NewItem(OneBlog(ReadBlog(repo.db.blogs, repo.db.tagIds, repo.db.links, id, dbErr).value), BlogTtl, now)]
      ensures id > 0 && CachedBlog(old(repo.c.data), id, now).None? && ReadBlog(repo.db.blogs, repo.db.tagIds, repo.db.links, id, dbErr).Err? ==>
        repo.c.data == TtlCache.AfterGet(old(repo.c.data), BlogKey(id), now)
    {
      if id <= 0 {
        return Err(InvalidId);
      }
      var blog := repo.FetchByID(id, now, dbErr);
      if blog.Err? {
        return Err(FetchFailed);
      }
      return blog;
    }

    /** The full listing; a repository failure is wrapped with
        "failed to fetch blogs: ". */
    method FetchAllBlogs(now: int, dbErr: Option<string>) returns (r: Result<seq<Blog>>)
      modifies repo.c
      ensures CachedListing(old(repo.c.data), now).Some? ==> r == Ok(CachedListing(old(repo.c.data), now).value)
      ensures CachedListing(old(repo.c.data), now).None? && dbErr.Some? ==> r == Err(FetchAllFailed(dbErr.value))
      ensures CachedListing(old(repo.c.data), now).None? && dbErr.None? ==> r == Ok(Listing(repo.db.blogs, repo.db.tagIds, repo.db.links))
      ensures CachedListing(old(repo.c.data), now).Some? ==> repo.c.data == old(repo.c.data)
      ensures CachedListing(old(repo.c.data), now).None? && dbErr.Some? ==>
        repo.c.data == TtlCache.AfterGet(old(repo.c.data), AllBlogsKey, now)
      ensures CachedListing(old(repo.c.data), now).None? && dbErr.None? ==>
        repo.c.data == TtlCache.AfterGet(old(repo.c.data), AllBlogsKey, now)
          [AllBlogsKey := TtlCache.NewItem(AllBlogs(Listing(repo.db.blogs, repo.db.tagIds, repo.db.links)), AllBlogsTtl, now)]
    {
      var blogs := repo.FetchAll(now, dbErr);
      if blogs.Err? {
        return Err(FetchAllFailed(blogs.error));
      }
      return blogs;
    }

    /** Passes the repository's answer through unchanged. */
    method DeleteBlog(id: int, userID: string, dbErr: Option<string>) returns (err: Option<string>)
      requires repo.db.Valid()
      modifies repo.db, repo.c
      ensures repo.db.Valid()
      ensures err == ScopedOutcome(old(repo.db.blogs), id, Some(userID), dbErr)
      ensures dbErr.Some? ==> unchanged(repo.db) && unchanged(repo.c)
      ensures dbErr.None? && CountInScope(old(repo.db.blogs), id, Some(userID)) == 0 ==>
        unchanged(repo.db) && unchanged(repo.c)
      ensures dbErr.None? && CountInScope(old(repo.db.blogs), id, Some(userID)) > 0 ==>
        err == None && repo.db.blogs == DeleteWhere(old(repo.db.blogs), id, Some(userID)) && repo.c.data == map[]
    {
      err := repo.DeleteByID(id, userID, dbErr);
    }

    /** Passes the repository's answer through unchanged. */
    method FetchPaginatedBlogs(page: int, limit: int, now: int, countErr: Option<string>, sliceErr: Option<string>)
      returns (r: Result<(seq<Blog>, int)>)
      modifies repo.c
      ensures CachedPage(old(repo.c.data), page, limit, now).Some? ==> r == Ok(CachedPage(old(repo.c.data), page, limit, now).value)
      ensures CachedPage(old(repo.c.data), page, limit, now).None? && countErr.Some? ==> r == Err(countErr.value)
      ensures CachedPage(old(repo.c.data), page, limit, now).None? && countErr.None? && sliceErr.Some? ==> r == Err(sliceErr.value)
      ensures CachedPage(old(repo.c.data), page, limit, now).None? && countErr.None? && sliceErr.None? ==>
        r == Ok((Window(Listing(repo.db.blogs, repo.db.tagIds, repo.db.links), Paginate(page, limit), limit), |repo.db.blogs|))
      ensures CachedPage(old(repo.c.data), page, limit, now).Some? ==> repo.c.data == old(repo.c.data)
      ensures CachedPage(old(repo.c.data), page, limit, now).None? && (countErr.Some? || sliceErr.Some?) ==>
        repo.c.data == TtlCache.AfterGet(old(repo.c.data), PageKey(page, limit), now)
      ensures CachedPage(old(repo.c.data), page, limit, now).None? && countErr.None? && sliceErr.None? ==>
        repo.c.data == TtlCache.AfterGet(old(repo.c.data), PageKey(page, limit), now)
          [PageKey(page, limit) := TtlCache.NewItem(Page(r.value.0, r.value.1), PageTtl, now)]
    {
      r := repo.FetchPaginatedBlogs(page, limit, now, countErr, sliceErr);
    }
  }
}
