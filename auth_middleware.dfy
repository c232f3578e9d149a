/**
 * The request-gating stages: authenticate the bearer token, require the
 * admin role, require the account owner, require the blog's author. Each
 * stage reads (and the first one writes) the per-request context and either
 * hands on to the next stage or aborts with a status and an error message.
 * Token validation and the author lookup are oracles: their answers are
 * parameters.
 */
module AuthMiddleware {
  import opened Base
  import opened Strconv

  const UserIdKey: string := "user_id"
  const RoleKey: string := "role"

  const StatusBadRequest: int := 400
  const StatusUnauthorized: int := 401
  const StatusForbidden: int := 403
  const StatusNotFound: int := 404

  const InvalidToken: string := "invalid token"
  const Unauthorized: string := "unauthorized"
  const NotAllowed: string := "unauthorized to access this route"
  const InvalidBlogId: string := "invalid blog id"
  const BlogNotFound: string := "blog not found"

  /** A value stored in the request context: the stages only ever store an
      int64 user id and a string role, but a reader cannot assume that. */
  datatype CtxValue = Int64Val(i: int) | StringVal(s: string)

  /** The per-request context: the keys set so far and the `:id` path
      parameter. */
  datatype Context = Context(keys: map<string, CtxValue>, pathId: string)

  /** What a valid access token carries. */
  datatype Claims = Claims(userId: string, userRole: string)

  /** How a stage ends: hand on to the next handler, abort with a JSON error,
      or panic on a failed type assertion. */
  datatype Decision = Next | Abort(status: int, error: string) | Panic

  /** `AuthMiddleware`: a rejected token aborts with 401 and touches nothing;
      an accepted one stores the user id (as `ParseInt` reads it, the error
      ignored) and the role, and hands on. */
  function Authenticate(ctx: Context, token: Result<Claims>): (out: (Decision, Context))
    ensures token.Err? ==> out == (Abort(StatusUnauthorized, InvalidToken), ctx)
    ensures token.Ok? ==> out.0 == Next && out.1.pathId == ctx.pathId
    ensures token.Ok? ==> UserIdKey in out.1.keys && out.1.keys[UserIdKey].Int64Val? && IsInt64(out.1.keys[UserIdKey].i)
    ensures token.Ok? ==> RoleKey in out.1.keys && out.1.keys[RoleKey] == StringVal(token.value.userRole)
    ensures token.Ok? ==> out.1.keys[UserIdKey] == Int64Val(ParseInt(token.value.userId).value)
    ensures token.Ok? && ParseInt(token.value.userId).err == ErrSyntax ==> out.1.keys[UserIdKey] == Int64Val(0)
    ensures token.Ok? && ParseInt(token.value.userId).err == ErrRange ==>
      out.1.keys[UserIdKey] == Int64Val(MaxInt64) || out.1.keys[UserIdKey] == Int64Val(MinInt64)
    ensures forall k :: k != UserIdKey && k != RoleKey ==>
      (k in out.1.keys <==> k in ctx.keys) && (k in ctx.keys ==> out.1.keys[k] == ctx.keys[k])
  {
    match token
    case Err(_) => (Abort(StatusUnauthorized, InvalidToken), ctx)
    case Ok(claims) =>
      var userID := ParseInt(claims.userId).value;
      (Next, ctx.(keys := ctx.keys[UserIdKey := Int64Val(userID)][RoleKey := StringVal(claims.userRole)]))
  }

  /** A token whose user id is the decimal spelling of an int64 authenticates
      as exactly that user. */
  lemma AuthenticatedUser(ctx: Context, n: int, role: string)
    requires IsInt64(n)
    ensures Authenticate(ctx, Ok(Claims(FormatInt(n), role))).1.keys[UserIdKey] == Int64Val(n)
  {
    ParseFormatRoundTrip(n);
  }

  /** `AdminMiddleware`: hands on exactly when the role is the string "admin". */
  function Admin(ctx: Context): (d: Decision)
    ensures d == Next <==> RoleKey in ctx.keys && ctx.keys[RoleKey] == StringVal("admin")
    ensures d != Next ==> d == Abort(StatusForbidden, NotAllowed)
  {
    if RoleKey !in ctx.keys || ctx.keys[RoleKey] != StringVal("admin") then Abort(StatusForbidden, NotAllowed)
    else Next
  }

  /** `AccountOwnerMiddleware`: hands on exactly when the path id parses and
      the stored user id is that same int64; every failure is 403. */
  function AccountOwner(ctx: Context): (d: Decision)
    ensures d == Next <==>
      ParseInt(ctx.pathId).err == NoError && UserIdKey in ctx.keys && ctx.keys[UserIdKey] == Int64Val(ParseInt(ctx.pathId).value)
    ensures d != Next ==> d == Abort(StatusForbidden, NotAllowed)
  {
    var idInt := ParseInt(ctx.pathId);
    if idInt.err != NoError || UserIdKey !in ctx.keys then Abort(StatusForbidden, NotAllowed)
    else
      var userID := ctx.keys[UserIdKey];
      if !userID.Int64Val? || userID.i != idInt.value then Abort(StatusForbidden, NotAllowed)
      else Next
  }

  /** After authentication, the account-owner check passes exactly when the
      token's user and the path name the same int64. */
  lemma OwnerAfterAuthentication(ctx: Context, n: int, m: int, role: string)
    requires IsInt64(n) && IsInt64(m)
    ensures AccountOwner(Authenticate(ctx.(pathId := FormatInt(m)), Ok(Claims(FormatInt(n), role))).1) == Next <==> n == m
  {
    AuthenticatedUser(ctx.(pathId := FormatInt(m)), n, role);
    ParseFormatRoundTrip(m);
  }

  /** A blog id the blog-author check accepts: an int64 in decimal, above 0. */
  predicate ValidBlogId(s: string) {
    ParseInt(s).err == NoError && ParseInt(s).value > 0
  }

  /** The outcome of the blog-author check, with the blog id whose author was
      looked up, if the check got that far. */
  datatype AuthorCheck = AuthorCheck(decision: Decision, queried: Option<int>)

  /** `BlogAuthorMiddleware`, given the author lookup's answer for the blog
      in the path. The checks run in a fixed order and the first failure
      decides: no user 401, bad blog id 400, lookup failure 404, another
      author 403. The user id is asserted to be an int64 only at the last
      step, so a context holding anything else panics there. */
  function BlogAuthor(ctx: Context, author: Result<int>): (out: AuthorCheck)
    ensures out.queried.Some? <==> UserIdKey in ctx.keys && ValidBlogId(ctx.pathId)
    ensures out.queried.Some? ==> out.queried.value == ParseInt(ctx.pathId).value
    ensures UserIdKey !in ctx.keys ==> out.decision == Abort(StatusUnauthorized, Unauthorized)
    ensures UserIdKey in ctx.keys && !ValidBlogId(ctx.pathId) ==> out.decision == Abort(StatusBadRequest, InvalidBlogId)
    ensures out.queried.Some? && author.Err? ==> out.decision == Abort(StatusNotFound, BlogNotFound)
    ensures out.decision == Next <==> out.queried.Some? && author.Ok? && ctx.keys[UserIdKey] == Int64Val(author.value)
    ensures out.decision == Panic <==> out.queried.Some? && author.Ok? && !ctx.keys[UserIdKey].Int64Val?
    ensures out.queried.Some? && author.Ok? && ctx.keys[UserIdKey].Int64Val? && ctx.keys[UserIdKey].i != author.value ==>
      out.decision == Abort(StatusForbidden, NotAllowed)
  {
    if UserIdKey !in ctx.keys then AuthorCheck(Abort(StatusUnauthorized, Unauthorized), None)
    else
      var blogID := ParseInt(ctx.pathId);
      if blogID.err != NoError || blogID.value <= 0 then AuthorCheck(Abort(StatusBadRequest, InvalidBlogId), None)
      else match author
        case Err(_) => AuthorCheck(Abort(StatusNotFound, BlogNotFound), Some(blogID.value))
        case Ok(authorID) =>
          var userID := ctx.keys[UserIdKey];
          if !userID.Int64Val? then AuthorCheck(Panic, Some(blogID.value))
          else if authorID != userID.i then AuthorCheck(Abort(StatusForbidden, NotAllowed), Some(blogID.value))
          else AuthorCheck(Next, Some(blogID.value))
  }

  /** Behind authentication the type assertion cannot fail: the blog-author
      check never panics. */
  lemma AuthorCheckAfterAuthenticationNeverPanics(ctx: Context, claims: Claims, author: Result<int>)
    ensures BlogAuthor(Authenticate(ctx, Ok(claims)).1, author).decision != Panic
  {
  }

  // ---------------------------------------------------------------------
  // A chain of stages in front of a handler

  /** A stage with the oracle answers it will see. */
  datatype Stage = Authenticating(token: Result<Claims>) | AdminOnly | OwnerOnly | AuthorOnly(author: Result<int>)

  function RunStage(s: Stage, ctx: Context): (Decision, Context) {
    match s
    case Authenticating(token) => Authenticate(ctx, token)
    case AdminOnly => (Admin(ctx), ctx)
    case OwnerOnly => (AccountOwner(ctx), ctx)
    case AuthorOnly(author) => (BlogAuthor(ctx, author).decision, ctx)
  }

  /** How a chain ended: `Next` means the handler runs; `ran` counts the
      stages that ran. */
  datatype Outcome = Outcome(decision: Decision, ctx: Context, ran: nat)

  /** Runs the stages in order; the first one that does not hand on ends the
      chain. */
  function Run(stages: seq<Stage>, ctx: Context): (o: Outcome)
    ensures o.ran <= |stages|
    ensures o.decision == Next ==> o.ran == |stages|
    ensures o.decision != Next ==> 1 <= o.ran && RunStage(stages[o.ran - 1], o.ctx).0 == o.decision
    decreases |stages|
  {
    if stages == [] then Outcome(Next, ctx, 0)
    else
      var (d, ctx') := RunStage(stages[0], ctx);
      if d != Next then Outcome(d, ctx, 1)
      else
        var rest := Run(stages[1..], ctx');
        Outcome(rest.decision, rest.ctx, rest.ran + 1)
  }

  /** Chains compose: running `a + b` runs `a`, and runs `b` only when every
      stage of `a` handed on, from the context `a` left. */
  lemma {:induction false} RunAppend(a: seq<Stage>, b: seq<Stage>, ctx: Context)
    ensures Run(a + b, ctx) ==
      var first := Run(a, ctx);
      if first.decision != Next then first
      else
        var second := Run(b, first.ctx);
        Outcome(second.decision, second.ctx, |a| + second.ran)
    decreases |a|
  {
    if a == [] {
      assert a + b == b;
    } else {
      assert (a + b)[0] == a[0];
      assert (a + b)[1..] == a[1..] + b;
      var step := RunStage(a[0], ctx);
      if step.0 == Next {
        RunAppend(a[1..], b, step.1);
      }
    }
  }

  /** A chain that aborts stops there: nothing appended after it runs. */
  lemma AbortStopsTheChain(a: seq<Stage>, b: seq<Stage>, ctx: Context)
    requires Run(a, ctx).decision != Next
    ensures Run(a + b, ctx) == Run(a, ctx)
  {
    RunAppend(a, b, ctx);
  }

  /** The admin routes: authentication then the admin check. The handler runs
      exactly for a valid token with role "admin"; a bad token is 401 and the
      admin check never runs; a valid non-admin token is 403. */
  lemma AuthenticatedAdmin(ctx: Context, token: Result<Claims>)
    ensures var o := Run([Authenticating(token), AdminOnly], ctx);
      && (o.decision == Next <==> token.Ok? && token.value.userRole == "admin")
      && (token.Err? ==> o == Outcome(Abort(StatusUnauthorized, InvalidToken), ctx, 1))
      && (token.Ok? && token.value.userRole != "admin" ==> o.decision == Abort(StatusForbidden, NotAllowed) && o.ran == 2)
  {
  }
}
