/** app/api/posts/route.ts: the post listing planner (filter, order, limit
    and cursor page of `GET`), the slug allocation and the guards of
    `POST`. The database becomes values: the set of slugs in use, the
    post rows in the requested order, and the follow relation. */
module PostsRoute {
  import opened Wrappers
  import opened JsText
  import opened Utils
  import opened Content
  import opened PostUtils

  // ---------------------------------------------------------------------
  // Slug allocation
  // ---------------------------------------------------------------------

  /** The `k`-th slug `generateUniqueSlug` tries: `base`, then
      `${base}-${k}`. */
  function Candidate(base: string, k: nat): string
  {
    if k == 0 then base else base + "-" + NatToString(k)
  }

  /** Different attempts try different slugs. */
  lemma CandidateDistinct(base: string, j: nat, k: nat)
    requires j != k
    ensures Candidate(base, j) != Candidate(base, k)
  {
    if j > 0 && k > 0 {
      var cj, ck := Candidate(base, j), Candidate(base, k);
      assert cj[|base| + 1..] == NatToString(j);
      assert ck[|base| + 1..] == NatToString(k);
      if NatToString(j) == NatToString(k) {
        NatToStringInjective(j, k);
      }
    } else {
      assert |Candidate(base, j)| != |Candidate(base, k)|;
    }
  }

  /** Every attempt made from a slug is itself a slug. */
  lemma CandidateIsSlug(base: string, k: nat)
    requires IsSlug(base)
    ensures IsSlug(Candidate(base, k))
  {
    if k > 0 {
      var d := NatToString(k);
      var c := base + "-" + d;
      assert forall i :: 0 <= i < |base| ==> c[i] == base[i];
      assert c[|base|] == '-';
      assert forall i :: |base| < i < |c| ==> c[i] == d[i - |base| - 1];
    }
  }

  lemma SubsetSize<T>(a: set<T>, b: set<T>)
    requires a <= b
    ensures |a| <= |b|
  {
    assert b == a + (b - a);
    assert a * (b - a) == {};
  }

  /** The probing loop of `generateUniqueSlug`: the first attempt from
      `base` that is not in `existing`. */
  method FirstFreeCandidate(base: string, existing: set<string>) returns (slug: string)
    ensures slug !in existing
    ensures exists k: nat :: (slug == Candidate(base, k)
      && forall j :: 0 <= j < k ==> Candidate(base, j) in existing)
  {
    slug := base;
    var counter: nat := 1;
    ghost var probed: set<string> := {};
    while slug in existing
      invariant counter >= 1 && slug == Candidate(base, counter - 1)
      invariant forall j :: 0 <= j < counter - 1 ==> Candidate(base, j) in existing
      invariant forall s :: s in probed ==> exists j :: 0 <= j < counter - 1 && s == Candidate(base, j)
      invariant probed <= existing && |probed| == counter - 1
      decreases |existing| - |probed|
    {
      forall s | s in probed ensures s != slug {
        var j :| 0 <= j < counter - 1 && s == Candidate(base, j);
        CandidateDistinct(base, j, counter - 1);
      }
      probed := probed + {slug};
      SubsetSize(probed, existing);
      slug := base + "-" + NatToString(counter);
      counter := counter + 1;
    }
  }

  /** `generateUniqueSlug(title)` against a post table whose slugs are
      `existing`: the first of `base`, `base-1`, `base-2`, ... that is not
      taken, where `base` is the slug of the title; the result is a slug. */
  method GenerateUniqueSlug(title: string, now: nat, existing: set<string>) returns (slug: string)
    ensures slug !in existing && IsSlug(slug)
    ensures exists k: nat :: (slug == Candidate(Slugify(title, now), k)
      && forall j :: 0 <= j < k ==> Candidate(Slugify(title, now), j) in existing)
  {
    var base := Slugify(title, now);
    slug := FirstFreeCandidate(base, existing);
    ghost var k: nat :| slug == Candidate(base, k) && forall j :: 0 <= j < k ==> Candidate(base, j) in existing;
    CandidateIsSlug(base, k);
  }

  // ---------------------------------------------------------------------
  // The filter of `GET`
  // ---------------------------------------------------------------------

  /** A query parameter as `searchParams.get` returns it: absent (`null`)
      or a string. */
  type Param = Option<string>

  /** The value is truthy in JavaScript: present and not the empty
      string. */
  predicate Given(p: Param)
  {
    p.Some? && |p.value| > 0
  }

  /** `Number(searchParams.get("limit") ?? "10")`: no parameter, one that
      does not parse as a number, or a non-negative integer. */
  datatype LimitParam = NoLimit | NotANumber | Limit(n: nat)

  /** The query parameters the listing reads. */
  datatype QueryParams = QueryParams(
    includeDrafts: Param,
    authorId: Param,
    tag: Param,
    filter: Param,
    q: Param,
    limit: LimitParam,
    cursor: Param,
    sort: Param)

  /** The `Prisma.PostWhereInput` that `buildWhereClause` builds; every
      field that is `None` was never set. `deletedAt: null` is always set,
      so it has no field here and `Matches` always applies it. */
  datatype WhereFilter = WhereFilter(
    status: Option<Status>,
    authorId: Option<Id>,
    tagSlug: Option<string>,
    followerId: Option<Id>,
    query: Option<string>)

  /** The two errors `buildWhereClause` throws. */
  datatype WhereError = UnauthorizedDrafts | UnauthorizedFollowing

  /** `includeDrafts === "true"`. */
  predicate WantsDrafts(params: QueryParams)
  {
    params.includeDrafts == Some("true")
  }

  /** `filter === "following"`. */
  predicate WantsFollowing(params: QueryParams)
  {
    params.filter == Some("following")
  }

  /** The follow relation: `(followerId, followingId)` pairs. */
  type Follows = set<(Id, Id)>

  /** `q` is a substring of the title, the excerpt, the content or the name
      of one of the post's tags. */
  predicate MatchesQuery(post: PostPayload, q: string)
  {
    || Includes(post.title, q)
    || (post.excerpt.Some? && Includes(post.excerpt.value, q))
    || Includes(post.content, q)
    || exists i :: 0 <= i < |post.tags| && Includes(post.tags[i].tag.name, q)
  }

  /** The post is linked to the tag with slug `slug`. */
  predicate HasTag(post: PostPayload, slug: string)
  {
    exists i :: 0 <= i < |post.tags| && post.tags[i].tag.slug == slug
  }

  /** The rows a `where` filter admits, given who follows whom. */
  predicate Matches(w: WhereFilter, post: PostPayload, follows: Follows)
  {
    && post.deletedAt.None?
    && (w.status.Some? ==> post.status == w.status.value)
    && (w.authorId.Some? ==> post.authorId == w.authorId.value)
    && (w.tagSlug.Some? ==> HasTag(post, w.tagSlug.value))
    && (w.followerId.Some? ==> (w.followerId.value, post.authorId) in follows)
    && (w.query.Some? ==> MatchesQuery(post, w.query.value))
  }

  /** The optional restrictions that do not depend on drafts: author, tag,
      following and free text. */
  function WithOptionalFilters(status: Option<Status>, author: Option<Id>, params: QueryParams,
                               session: Option<Id>): Result<WhereFilter, WhereError>
  {
    var author := if Given(params.authorId) then params.authorId else author;
    var tagSlug := if Given(params.tag) then params.tag else None;
    var query := if Given(params.q) then params.q else None;
    if WantsFollowing(params) && !Given(session) then Err(UnauthorizedFollowing)
    else
      var follower := if WantsFollowing(params) then session else None;
      Ok(WhereFilter(status, author, tagSlug, follower, query))
  }

  /** `buildWhereClause(params, sessionUserId)`, as written: an `authorId`
      parameter replaces the caller restriction of `includeDrafts`. */
  function BuildWhereClause(params: QueryParams, session: Option<Id>): Result<WhereFilter, WhereError>
  {
    if !WantsDrafts(params) then WithOptionalFilters(Some(Published), None, params, session)
    else if Given(session) then WithOptionalFilters(None, session, params, session)
    else Err(UnauthorizedDrafts)
  }

  /** The filter fails exactly when drafts or the following feed are asked
      for without a session, and the drafts error comes first. */
  lemma BuildWhereClauseErrors(params: QueryParams, session: Option<Id>)
    ensures var r := BuildWhereClause(params, session);
      && (r.Err? <==> (WantsDrafts(params) || WantsFollowing(params)) && !Given(session))
      && (r.Err? && WantsDrafts(params) ==> r.error == UnauthorizedDrafts)
      && (r.Err? && !WantsDrafts(params) ==> r.error == UnauthorizedFollowing)
  {
  }

  /** Deleted posts never match; without `includeDrafts` only published
      posts do. */
  lemma BuildWhereClauseVisibility(params: QueryParams, session: Option<Id>, post: PostPayload, follows: Follows)
    requires BuildWhereClause(params, session).Ok?
    requires Matches(BuildWhereClause(params, session).value, post, follows)
    ensures post.deletedAt.None?
    ensures !WantsDrafts(params) ==> post.status == Published
  {
  }

  /** With `includeDrafts` and no `authorId`, the caller's own posts of any
      status match, and no other author's. */
  lemma BuildWhereClauseCallerDrafts(params: QueryParams, session: Option<Id>, post: PostPayload, follows: Follows)
    requires WantsDrafts(params) && Given(session) && !Given(params.authorId)
    requires !WantsFollowing(params) && !Given(params.tag) && !Given(params.q)
    ensures BuildWhereClause(params, session).Ok?
    ensures Matches(BuildWhereClause(params, session).value, post, follows)
        <==> post.deletedAt.None? && post.authorId == session.value
  {
  }

  /** A non-empty `authorId` is the author restriction, whatever
      `includeDrafts` set before it. */
  lemma BuildWhereClauseAuthor(params: QueryParams, session: Option<Id>)
    requires Given(params.authorId) && BuildWhereClause(params, session).Ok?
    ensures BuildWhereClause(params, session).value.authorId == params.authorId
  {
  }

  /** A built filter admits a post exactly when it is not deleted, is
      published unless drafts were asked for, is by the author in force
      (the `authorId` parameter, else the caller under `includeDrafts`),
      and meets each of the tag, following and free-text restrictions whose
      parameter is given. */
  lemma BuildWhereClauseMatches(params: QueryParams, session: Option<Id>, post: PostPayload, follows: Follows)
    requires BuildWhereClause(params, session).Ok?
    ensures Matches(BuildWhereClause(params, session).value, post, follows) <==>
      && post.deletedAt.None?
      && (!WantsDrafts(params) ==> post.status == Published)
      && (Given(params.authorId) ==> post.authorId == params.authorId.value)
      && (WantsDrafts(params) && !Given(params.authorId) ==> post.authorId == session.value)
      && (Given(params.tag) ==> HasTag(post, params.tag.value))
      && (WantsFollowing(params) ==> (session.value, post.authorId) in follows)
      && (Given(params.q) ==> MatchesQuery(post, params.q.value))
  {
  }

  /** A free-text query matches a post exactly when it occurs somewhere in
      its title, excerpt, content or a tag name. */
  lemma MatchesQueryIffOccurs(post: PostPayload, q: string)
    ensures MatchesQuery(post, q) <==>
      || (exists i :: OccursAt(post.title, q, i))
      || (post.excerpt.Some? && exists i :: OccursAt(post.excerpt.value, q, i))
      || (exists i :: OccursAt(post.content, q, i))
      || (exists k, i :: 0 <= k < |post.tags| && OccursAt(post.tags[k].tag.name, q, i))
  {
    IncludesIffInfix(post.title, q);
    IncludesIffInfix(post.content, q);
    if post.excerpt.Some? {
      IncludesIffInfix(post.excerpt.value, q);
    }
    forall k | 0 <= k < |post.tags| {
      IncludesIffInfix(post.tags[k].tag.name, q);
    }
  }

  /** The JSON body and status of the 401 response for each error. */
  datatype ErrorResponse = ErrorResponse(status: nat, message: string)

  function UnauthorizedResponse(e: WhereError): (r: ErrorResponse)
    ensures r.status == 401
  {
    match e
    case UnauthorizedDrafts => ErrorResponse(401, "Unauthorized")
    case UnauthorizedFollowing => ErrorResponse(401, "Sign in to view your following feed")
  }

  /** The two errors answer 401 with different messages. */
  lemma UnauthorizedResponsesDistinct()
    ensures UnauthorizedResponse(UnauthorizedDrafts).message != UnauthorizedResponse(UnauthorizedFollowing).message
  {
  }

  // ---------------------------------------------------------------------
  // Order
  // ---------------------------------------------------------------------

  /** The two orders `getOrderBy` returns. */
  datatype Ordering =
    | Recommended  // reaction count descending, then `createdAt` descending
    | Latest       // `createdAt` descending

  function GetOrderBy(sort: Param): (o: Ordering)
    ensures o == Recommended <==> sort == Some("recommended")
  {
    if sort == Some("recommended") then Recommended else Latest
  }

  /** `a` may be listed before `b` under order `o`. */
  predicate Precedes(o: Ordering, a: PostPayload, b: PostPayload)
  {
    match o
    case Latest => a.createdAt.millis >= b.createdAt.millis
    case Recommended =>
      || |a.reactions| > |b.reactions|
      || (|a.reactions| == |b.reactions| && a.createdAt.millis >= b.createdAt.millis)
  }

  /** Rows listed in order `o`. */
  predicate InOrder(o: Ordering, ps: seq<PostPayload>)
  {
    forall i, j :: 0 <= i < j < |ps| ==> Precedes(o, ps[i], ps[j])
  }

  /** Either order is total and transitive, so it is a valid sort order. */
  lemma PrecedesIsTotalOrder(o: Ordering, a: PostPayload, b: PostPayload, c: PostPayload)
    ensures Precedes(o, a, b) || Precedes(o, b, a)
    ensures Precedes(o, a, b) && Precedes(o, b, c) ==> Precedes(o, a, c)
  {
  }

  /** A recommended listing never puts a post before one with more
      reactions, and within equal reaction counts it is newest first; any
      other `sort` lists newest first. */
  lemma OrderMeaning(sort: Param, ps: seq<PostPayload>, i: nat, j: nat)
    requires InOrder(GetOrderBy(sort), ps) && i < j < |ps|
    ensures sort == Some("recommended") ==> |ps[i].reactions| >= |ps[j].reactions|
    ensures sort == Some("recommended") && |ps[i].reactions| == |ps[j].reactions| ==>
      ps[i].createdAt.millis >= ps[j].createdAt.millis
    ensures sort != Some("recommended") ==> ps[i].createdAt.millis >= ps[j].createdAt.millis
  {
    assert Precedes(GetOrderBy(sort), ps[i], ps[j]);
  }

  // ---------------------------------------------------------------------
  // Limit
  // ---------------------------------------------------------------------

  /** `Math.min(Number.isNaN(requestedLimit) ? 10 : requestedLimit, 24)`. */
  function ClampLimit(p: LimitParam): (r: nat)
    ensures r <= 24
    ensures (p.NoLimit? || p.NotANumber?) ==> r == 10
    ensures p.Limit? && p.n <= 24 ==> r == p.n
    ensures p.Limit? && p.n > 24 ==> r == 24
  {
    var requested := match p
      case NoLimit => 10
      case NotANumber => 10
      case Limit(n) => n;
    if requested < 24 then requested else 24
  }

  // ---------------------------------------------------------------------
  // Cursor pages
  // ---------------------------------------------------------------------

  /** The id of the row at `k`. */
  function IdAt(ps: seq<PostPayload>, k: nat): Id
    requires k < |ps|
  {
    ps[k].id
  }

  /** Post ids are non-empty and no two rows share one. */
  predicate WellKeyed(ps: seq<PostPayload>)
  {
    && (forall k :: 0 <= k < |ps| ==> IdAt(ps, k) != "")
    && (forall i, j :: 0 <= i < j < |ps| ==> IdAt(ps, i) != IdAt(ps, j))
  }

  lemma KeyedApart(ps: seq<PostPayload>, i: nat, j: nat)
    requires WellKeyed(ps) && i < |ps| && j < |ps|
    ensures ps[i].id != ""
    ensures i != j ==> ps[i].id != ps[j].id
  {
    assert IdAt(ps, i) == ps[i].id && IdAt(ps, j) == ps[j].id;
    if j < i {
      assert IdAt(ps, j) != IdAt(ps, i);
    }
  }

  lemma EarlierIdsDiffer(ps: seq<PostPayload>, k: nat)
    requires WellKeyed(ps) && k < |ps|
    ensures ps[k].id != "" && forall i :: 0 <= i < k ==> ps[i].id != ps[k].id
  {
    forall i | 0 <= i < k ensures ps[i].id != ps[k].id {
      KeyedApart(ps, i, k);
    }
    KeyedApart(ps, k, k);
  }

  /** Where the row with id `id` sits, if anywhere. */
  function IndexOfId(ps: seq<PostPayload>, id: Id): (r: Option<nat>)
    ensures r.Some? ==> r.value < |ps| && ps[r.value].id == id
  {
    if ps == [] then None
    else if ps[0].id == id then Some(0)
    else match IndexOfId(ps[1..], id)
      case None => None
      case Some(i) => Some(i + 1)
  }

  /** The row at `k` is found at `k` when no earlier row shares its id. */
  lemma {:induction false} IndexOfIdAt(ps: seq<PostPayload>, k: nat)
    requires k < |ps| && forall i :: 0 <= i < k ==> ps[i].id != ps[k].id
    ensures IndexOfId(ps, ps[k].id) == Some(k)
  {
    if k > 0 {
      var t := ps[1..];
      assert t[k - 1] == ps[k];
      forall i | 0 <= i < k - 1 ensures t[i].id != t[k - 1].id {
        assert t[i] == ps[i + 1];
      }
      IndexOfIdAt(t, k - 1);
    }
  }

  /** Where `findMany` starts reading: at the first row without a cursor,
      just after the cursor row with one (`skip: 1`), nowhere when the
      cursor row is not among the rows. */
  function Start(ordered: seq<PostPayload>, cursor: Param): (r: Option<nat>)
    ensures r.Some? ==> r.value <= |ordered|
    ensures !Given(cursor) ==> r == Some(0)
    ensures Given(cursor) && r.Some? ==> 0 < r.value && ordered[r.value - 1].id == cursor.value
  {
    if !Given(cursor) then Some(0)
    else match IndexOfId(ordered, cursor.value)
      case None => None
      case Some(i) => Some(i + 1)
  }

  function Min(a: int, b: int): int { if a < b then a else b }

  /** `findMany({ take, cursor, skip })` over the rows already filtered and
      ordered: at most `take` consecutive rows from the start. */
  function FindMany(ordered: seq<PostPayload>, take: nat, cursor: Param): (rows: seq<PostPayload>)
    ensures |rows| <= take
    ensures Start(ordered, cursor).None? ==> rows == []
    ensures Start(ordered, cursor).Some? ==>
      var s := Start(ordered, cursor).value;
      rows == ordered[s..Min(s + take, |ordered|)]
  {
    match Start(ordered, cursor)
    case None => []
    case Some(s) => ordered[s..Min(s + take, |ordered|)]
  }

  /** The posts of one page and the cursor for the next. */
  datatype PageResult = PageResult(posts: seq<PostPayload>, nextCursor: Option<Id>)

  /** The page `GET` returns, as written: read `limit + 1` rows, keep the
      first `limit`, and hand out the id of the extra row as the cursor. */
  function PageAsWritten(ordered: seq<PostPayload>, limit: nat, cursor: Param): PageResult
  {
    var rows := FindMany(ordered, limit + 1, cursor);
    if |rows| > limit then PageResult(rows[..limit], Some(rows[limit].id))
    else PageResult(rows, None)
  }

  /** A page holds at most `limit` posts; there is a next cursor exactly
      when `limit + 1` rows came back, and it is the id of the last of them,
      which is not on the page. */
  lemma PageAsWrittenShape(ordered: seq<PostPayload>, limit: nat, cursor: Param)
    requires WellKeyed(ordered)
    ensures var p, rows := PageAsWritten(ordered, limit, cursor), FindMany(ordered, limit + 1, cursor);
      && |p.posts| <= limit
      && p.posts == rows[..|p.posts|]
      && (p.nextCursor.Some? <==> |rows| == limit + 1)
      && (p.nextCursor.Some? ==> p.nextCursor.value == rows[limit].id)
      && (p.nextCursor.Some? ==> forall k :: 0 <= k < |p.posts| ==> p.posts[k].id != p.nextCursor.value)
  {
    var rows := FindMany(ordered, limit + 1, cursor);
    if |rows| > limit {
      var s := Start(ordered, cursor).value;
      forall k | 0 <= k < limit ensures rows[k].id != rows[limit].id {
        assert rows[k] == ordered[s + k] && rows[limit] == ordered[s + limit];
        KeyedApart(ordered, s + k, s + limit);
      }
    }
  }

  /** As written, a page with a next cursor is a full window of rows, and
      the cursor is the id of the row just after it. */
  lemma WindowAsWritten(ordered: seq<PostPayload>, limit: nat, cursor: Param)
    requires PageAsWritten(ordered, limit, cursor).nextCursor.Some?
    ensures var p, s := PageAsWritten(ordered, limit, cursor), Start(ordered, cursor).value;
      && s + limit < |ordered|
      && p.posts == ordered[s..s + limit]
      && p.nextCursor.value == ordered[s + limit].id
  {
    var s := Start(ordered, cursor).value;
    FullWindow(ordered, s, limit);
  }

  /** In a well-keyed sequence a row's id leads back to that row. */
  lemma IndexOfKeyed(ordered: seq<PostPayload>, k: nat, id: Id)
    requires WellKeyed(ordered) && k < |ordered| && id == ordered[k].id
    ensures id != "" && IndexOfId(ordered, id) == Some(k)
  {
    EarlierIdsDiffer(ordered, k);
    IndexOfIdAt(ordered, k);
  }

  /** As written, the next cursor names the row just after the page. */
  lemma NextCursorAsWritten(ordered: seq<PostPayload>, limit: nat, cursor: Param)
    requires WellKeyed(ordered)
    requires PageAsWritten(ordered, limit, cursor).nextCursor.Some?
    ensures var p, s := PageAsWritten(ordered, limit, cursor), Start(ordered, cursor).value;
      && s + limit < |ordered|
      && IndexOfId(ordered, p.nextCursor.value) == Some(s + limit)
      && Start(ordered, p.nextCursor) == Some(s + limit + 1)
  {
    var p, s := PageAsWritten(ordered, limit, cursor), Start(ordered, cursor).value;
    var i := s + limit;
    assert i < |ordered| && p.nextCursor == Some(ordered[i].id) by {
      WindowAsWritten(ordered, limit, cursor);
    }
    StartAfterRow(ordered, i);
  }

  /** A cursor naming a row of a well-keyed sequence resumes just after
      that row. */
  lemma StartAfterRow(ordered: seq<PostPayload>, i: nat)
    requires WellKeyed(ordered) && i < |ordered|
    ensures IndexOfId(ordered, ordered[i].id) == Some(i)
    ensures Start(ordered, Some(ordered[i].id)) == Some(i + 1)
  {
    IndexOfKeyed(ordered, i, ordered[i].id);
  }

  /** A window of `limit + 1` rows that fits: its first `limit` rows and
      its last one. */
  lemma FullWindow(ordered: seq<PostPayload>, s: nat, limit: nat)
    requires s <= |ordered|
    requires |ordered[s..Min(s + limit + 1, |ordered|)]| > limit
    ensures var rows := ordered[s..Min(s + limit + 1, |ordered|)];
      && s + limit < |ordered|
      && rows[..limit] == ordered[s..s + limit]
      && rows[limit] == ordered[s + limit]
  {
  }

  /** No post of `posts` has the id `id`. */
  predicate Omits(posts: seq<PostPayload>, id: Id)
  {
    forall k :: 0 <= k < |posts| ==> posts[k].id != id
  }

  /** A row's id is not in a run of other rows of a well-keyed sequence. */
  lemma NotInOtherRun(ordered: seq<PostPayload>, i: nat, a: nat, b: nat)
    requires WellKeyed(ordered) && i < |ordered| && a <= b <= |ordered|
    requires i < a || b <= i
    ensures Omits(ordered[a..b], ordered[i].id)
  {
    forall k | 0 <= k < b - a ensures ordered[a..b][k].id != ordered[i].id {
      KeyedApart(ordered, a + k, i);
    }
  }

  /** The row whose id is handed out as the next cursor is on neither page:
      no post of this one or of the next has that id, and the next request
      starts just after the row. */
  lemma CursorRowSkipped(ordered: seq<PostPayload>, limit: nat, cursor: Param)
    requires WellKeyed(ordered)
    requires PageAsWritten(ordered, limit, cursor).nextCursor.Some?
    ensures var p := PageAsWritten(ordered, limit, cursor);
      var i := IndexOfId(ordered, p.nextCursor.value);
      var q := PageAsWritten(ordered, limit, p.nextCursor);
      && i.Some?
      && Omits(p.posts, p.nextCursor.value)
      && Omits(q.posts, p.nextCursor.value)
      && Start(ordered, p.nextCursor) == Some(i.value + 1)
  {
    NextCursorAsWritten(ordered, limit, cursor);
    CursorRowNotOnPage(ordered, limit, cursor);
    CursorRowNotOnNextPage(ordered, limit, cursor);
  }

  lemma CursorRowNotOnPage(ordered: seq<PostPayload>, limit: nat, cursor: Param)
    requires WellKeyed(ordered)
    requires PageAsWritten(ordered, limit, cursor).nextCursor.Some?
    ensures var p, s := PageAsWritten(ordered, limit, cursor), Start(ordered, cursor).value;
      s + limit < |ordered| && Omits(p.posts, ordered[s + limit].id)
  {
    var s := Start(ordered, cursor).value;
    WindowAsWritten(ordered, limit, cursor);
    NotInOtherRun(ordered, s + limit, s, s + limit);
  }

  lemma CursorRowNotOnNextPage(ordered: seq<PostPayload>, limit: nat, cursor: Param)
    requires WellKeyed(ordered)
    requires PageAsWritten(ordered, limit, cursor).nextCursor.Some?
    ensures var p, s := PageAsWritten(ordered, limit, cursor), Start(ordered, cursor).value;
      s + limit < |ordered| && Omits(PageAsWritten(ordered, limit, p.nextCursor).posts, ordered[s + limit].id)
  {
    var p, s := PageAsWritten(ordered, limit, cursor), Start(ordered, cursor).value;
    NextCursorAsWritten(ordered, limit, cursor);
    RowBeforeStartNotListed(ordered, limit, p.nextCursor, s + limit);
  }

  /** A page that starts just after a row does not list that row. */
  lemma RowBeforeStartNotListed(ordered: seq<PostPayload>, limit: nat, cursor: Param, i: nat)
    requires WellKeyed(ordered) && i < |ordered| && Start(ordered, cursor) == Some(i + 1)
    ensures Omits(PageAsWritten(ordered, limit, cursor).posts, ordered[i].id)
  {
    var q := PageAsWritten(ordered, limit, cursor);
    PostsAsWritten(ordered, limit, cursor, i + 1);
    NotInOtherRun(ordered, i, i + 1, i + 1 + |q.posts|);
  }

  /** As written, the posts of a page are consecutive rows from the start. */
  lemma PostsAsWritten(ordered: seq<PostPayload>, limit: nat, cursor: Param, t: nat)
    requires Start(ordered, cursor) == Some(t)
    ensures var q := PageAsWritten(ordered, limit, cursor);
      t + |q.posts| <= |ordered| && q.posts == ordered[t..t + |q.posts|]
  {
  }

  /** Five posts paged two at a time, as written: the first page is posts
      0 and 1, the second posts 3 and 4 with no further cursor, so post 2
      is never listed. */
  lemma FivePostsLoseOne(ordered: seq<PostPayload>)
    requires WellKeyed(ordered) && |ordered| == 5
    ensures var p1 := PageAsWritten(ordered, 2, None);
      var p2 := PageAsWritten(ordered, 2, p1.nextCursor);
      && p1.posts == ordered[..2]
      && p1.nextCursor == Some(ordered[2].id)
      && p2.posts == ordered[3..]
      && p2.nextCursor.None?
      && Omits(p1.posts + p2.posts, ordered[2].id)
  {
    var p1 := PageAsWritten(ordered, 2, None);
    assert FindMany(ordered, 3, None) == ordered[..3];
    EarlierIdsDiffer(ordered, 2);
    IndexOfIdAt(ordered, 2);
    assert FindMany(ordered, 3, Some(ordered[2].id)) == ordered[3..];
    CursorRowSkipped(ordered, 2, None);
    var both := p1.posts + PageAsWritten(ordered, 2, p1.nextCursor).posts;
    forall k | 0 <= k < |both| ensures both[k].id != ordered[2].id {
      KeyedApart(ordered, if k < 2 then k else k + 1, 2);
    }
  }

  /** The page `GET` evidently intends: the next cursor is the id of the
      last post returned, so that `skip: 1` resumes right after it. With
      `limit` 0 no page makes progress, and no cursor is handed out. */
  function Page(ordered: seq<PostPayload>, limit: nat, cursor: Param): PageResult
  {
    var rows := FindMany(ordered, limit + 1, cursor);
    if |rows| > limit && limit > 0 then PageResult(rows[..limit], Some(rows[limit - 1].id))
    else if |rows| > limit then PageResult(rows[..limit], None)
    else PageResult(rows, None)
  }

  /** Where the page after a cursor starts, as a measure that shrinks page
      by page. */
  function Remaining(ordered: seq<PostPayload>, cursor: Param): nat
  {
    match Start(ordered, cursor)
    case None => 0
    case Some(s) => |ordered| - s
  }

  /** One corrected page: the posts from the start on, and a next cursor
      that resumes exactly after them. */
  lemma PageStep(ordered: seq<PostPayload>, limit: nat, cursor: Param)
    requires WellKeyed(ordered) && limit > 0 && Start(ordered, cursor).Some?
    ensures var p, s := Page(ordered, limit, cursor), Start(ordered, cursor).value;
      && (p.nextCursor.None? ==> p.posts == ordered[s..])
      && (p.nextCursor.Some? ==>
            && p.posts == ordered[s..s + limit]
            && Start(ordered, p.nextCursor) == Some(s + limit)
            && Remaining(ordered, p.nextCursor) < Remaining(ordered, cursor))
  {
    var s := Start(ordered, cursor).value;
    var rows := FindMany(ordered, limit + 1, cursor);
    var p := Page(ordered, limit, cursor);
    if |rows| > limit {
      var i := s + limit - 1;
      assert i < |ordered| && p.posts == ordered[s..i + 1] && p.nextCursor == Some(ordered[i].id) by {
        FullWindow(ordered, s, limit);
      }
      StartAfterRow(ordered, i);
    } else {
      assert p.posts == ordered[s..];
    }
  }

  /** A client of `GET` that follows the corrected cursors from the first
      page until none is handed out, collecting the posts of every page: it
      reads every row exactly once, in order. */
  method ReadAllPages(ordered: seq<PostPayload>, limit: nat) returns (all: seq<PostPayload>)
    requires WellKeyed(ordered) && limit > 0
    ensures all == ordered
  {
    var cursor: Param := None;
    all := [];
    while true
      invariant Start(ordered, cursor).Some?
      invariant all == ordered[..Start(ordered, cursor).value]
      decreases Remaining(ordered, cursor)
    {
      var p, s := Page(ordered, limit, cursor), Start(ordered, cursor).value;
      PageStep(ordered, limit, cursor);
      if p.nextCursor.None? {
        PrefixGrows(ordered, s, |ordered|);
        all := all + p.posts;
        return;
      }
      PrefixGrows(ordered, s, s + limit);
      all := all + p.posts;
      cursor := p.nextCursor;
    }
  }

  /** The rows before `s` and those from `s` to `e` are the rows before
      `e`. */
  lemma PrefixGrows(ordered: seq<PostPayload>, s: nat, e: nat)
    requires s <= e <= |ordered|
    ensures ordered[..s] + ordered[s..e] == ordered[..e]
    ensures e == |ordered| ==> ordered[s..e] == ordered[s..] && ordered[..e] == ordered
  {
  }

  // ---------------------------------------------------------------------
  // Drafts and an explicit author
  // ---------------------------------------------------------------------

  /** As written, `includeDrafts=true&authorId=<someone else>` lists that
      author's drafts to any signed-in caller. */
  lemma DraftsOfOthersListed(params: QueryParams, session: Option<Id>, post: PostPayload, follows: Follows)
    requires WantsDrafts(params) && Given(session) && Given(params.authorId)
    requires !WantsFollowing(params) && !Given(params.tag) && !Given(params.q)
    requires post.deletedAt.None? && post.status == Draft && post.authorId == params.authorId.value
    ensures BuildWhereClause(params, session).Ok?
    ensures Matches(BuildWhereClause(params, session).value, post, follows)
  {
  }

  /** `buildWhereClause` with the draft restriction authoritative: under
      `includeDrafts` the author is always the caller, whatever `authorId`
      asks for. */
  function BuildWhereClauseOwnDrafts(params: QueryParams, session: Option<Id>): Result<WhereFilter, WhereError>
  {
    if !WantsDrafts(params) then WithOptionalFilters(Some(Published), None, params, session)
    else if Given(session) then WithOptionalFilters(None, session, params.(authorId := None), session)
    else Err(UnauthorizedDrafts)
  }

  /** With the draft restriction authoritative, a draft is only ever listed
      to its own author, and every listed post is published or the
      caller's. */
  lemma DraftsStayPrivate(params: QueryParams, session: Option<Id>, post: PostPayload, follows: Follows)
    requires BuildWhereClauseOwnDrafts(params, session).Ok?
    requires Matches(BuildWhereClauseOwnDrafts(params, session).value, post, follows)
    ensures post.deletedAt.None?
    ensures post.status == Draft ==> Given(session) && post.authorId == session.value
    ensures WantsDrafts(params) ==> post.authorId == session.value
  {
  }

  /** The corrected filter differs from the one as written only when drafts
      are asked for together with another author's id; it fails in exactly
      the same cases. */
  lemma OwnDraftsAgreesOtherwise(params: QueryParams, session: Option<Id>)
    ensures BuildWhereClauseOwnDrafts(params, session).Err? <==> BuildWhereClause(params, session).Err?
    ensures !(WantsDrafts(params) && Given(params.authorId) && params.authorId != session) ==>
      BuildWhereClauseOwnDrafts(params, session) == BuildWhereClause(params, session)
  {
  }

  // ---------------------------------------------------------------------
  // The listing
  // ---------------------------------------------------------------------

  /** The rows of the table that the filter admits, in table order. */
  function FilterPosts(table: seq<PostPayload>, w: WhereFilter, follows: Follows): (r: seq<PostPayload>)
    ensures |r| <= |table|
  {
    if table == [] then []
    else (if Matches(w, table[0], follows) then [table[0]] else []) + FilterPosts(table[1..], w, follows)
  }

  /** The filtered rows are exactly the table rows the filter admits. */
  lemma {:induction false} FilterPostsMembers(table: seq<PostPayload>, w: WhereFilter, follows: Follows)
    ensures forall p :: p in FilterPosts(table, w, follows) <==> p in table && Matches(w, p, follows)
  {
    if table != [] {
      FilterPostsMembers(table[1..], w, follows);
      assert table == [table[0]] + table[1..];
    }
  }

  /** The rest of an ordered, well-keyed sequence is ordered and
      well-keyed, and comes after its head with other ids. */
  lemma HeadAndTail(o: Ordering, ps: seq<PostPayload>)
    requires ps != [] && InOrder(o, ps) && WellKeyed(ps)
    ensures InOrder(o, ps[1..]) && WellKeyed(ps[1..]) && ps[0].id != ""
    ensures forall y :: y in ps[1..] ==> Precedes(o, ps[0], y) && y.id != ps[0].id
  {
    var t := ps[1..];
    forall i, j | 0 <= i < j < |t| ensures Precedes(o, t[i], t[j]) {
      assert t[i] == ps[i + 1] && t[j] == ps[j + 1];
    }
    forall i, j | 0 <= i < j < |t| ensures IdAt(t, i) != IdAt(t, j) {
      KeyedApart(ps, i + 1, j + 1);
    }
    forall k | 0 <= k < |t| ensures IdAt(t, k) != "" {
      KeyedApart(ps, k + 1, k + 1);
    }
    forall y | y in t ensures Precedes(o, ps[0], y) && y.id != ps[0].id {
      var m :| 0 <= m < |t| && t[m] == y;
      KeyedApart(ps, 0, m + 1);
    }
    KeyedApart(ps, 0, 0);
  }

  /** A row put before an ordered, well-keyed sequence it precedes, with an
      id of its own, keeps it ordered and well-keyed. */
  lemma ConsOrdered(o: Ordering, x: PostPayload, rest: seq<PostPayload>)
    requires InOrder(o, rest) && WellKeyed(rest) && x.id != ""
    requires forall y :: y in rest ==> Precedes(o, x, y) && y.id != x.id
    ensures InOrder(o, [x] + rest) && WellKeyed([x] + rest)
  {
    var r := [x] + rest;
    forall i, j | 0 <= i < j < |r| ensures Precedes(o, r[i], r[j]) && IdAt(r, i) != IdAt(r, j) {
      assert r[j] == rest[j - 1];
      if i > 0 {
        assert r[i] == rest[i - 1];
        KeyedApart(rest, i - 1, j - 1);
      }
    }
    forall k | 0 <= k < |r| ensures IdAt(r, k) != "" {
      if k > 0 {
        assert r[k] == rest[k - 1];
        KeyedApart(rest, k - 1, k - 1);
      }
    }
  }

  /** Filtering keeps the table's order and its keys. */
  lemma {:induction false} FilterPostsKeepsOrder(table: seq<PostPayload>, w: WhereFilter, follows: Follows, o: Ordering)
    requires InOrder(o, table) && WellKeyed(table)
    ensures InOrder(o, FilterPosts(table, w, follows)) && WellKeyed(FilterPosts(table, w, follows))
  {
    if table != [] {
      var t := table[1..];
      HeadAndTail(o, table);
      FilterPostsKeepsOrder(t, w, follows, o);
      FilterPostsMembers(t, w, follows);
      var rest := FilterPosts(t, w, follows);
      if Matches(w, table[0], follows) {
        ConsOrdered(o, table[0], rest);
      } else {
        assert [] + rest == rest;
      }
    }
  }

  /** The summaries of some rows, in order. */
  function Summaries(ps: seq<PostPayload>): (r: seq<PostSummary>)
    ensures |r| == |ps| && forall k :: 0 <= k < |ps| ==> r[k] == MapPostSummary(ps[k])
  {
    seq(|ps|, k requires 0 <= k < |ps| => MapPostSummary(ps[k]))
  }

  /** The JSON body `GET` answers with. */
  datatype ListResponse =
    | Listing(posts: seq<PostSummary>, nextCursor: Option<Id>)
    | Failed(response: ErrorResponse)

  /** The page of rows `GET` lists from a table already in the requested
      order, or the error of the filter. */
  function ListPage(table: seq<PostPayload>, params: QueryParams, session: Option<Id>,
                    follows: Follows): Result<PageResult, WhereError>
  {
    match BuildWhereClauseOwnDrafts(params, session)
    case Err(e) => Err(e)
    case Ok(w) => Ok(Page(FilterPosts(table, w, follows), ClampLimit(params.limit), params.cursor))
  }

  /** `GET /api/posts` against a table already in the order `getOrderBy`
      asks for. */
  function ListPosts(table: seq<PostPayload>, params: QueryParams, session: Option<Id>,
                     follows: Follows): ListResponse
  {
    match ListPage(table, params, session, follows)
    case Err(e) => Failed(UnauthorizedResponse(e))
    case Ok(p) => Listing(Summaries(p.posts), p.nextCursor)
  }

  /** `GET` answers 401 exactly when drafts or the following feed are asked
      for without a session; otherwise it lists at most the clamped limit of
      posts, each the summary of a visible table row the filter admits. */
  lemma ListPostsSpec(table: seq<PostPayload>, params: QueryParams, session: Option<Id>, follows: Follows)
    ensures var r := ListPosts(table, params, session, follows);
      && (r.Failed? <==> (WantsDrafts(params) || WantsFollowing(params)) && !Given(session))
      && (r.Failed? ==> r.response.status == 401)
      && (r.Listing? ==> |r.posts| <= ClampLimit(params.limit) <= 24)
  {
    var r := ListPosts(table, params, session, follows);
    if r.Listing? {
      var w := BuildWhereClauseOwnDrafts(params, session).value;
      var rows := FilterPosts(table, w, follows);
      var limit := ClampLimit(params.limit);
      assert |FindMany(rows, limit + 1, params.cursor)| <= limit + 1;
    }
  }

  /** Every listed row is a table row the filter admits: not deleted,
      published unless drafts were asked for, and then the caller's. */
  lemma ListPageRows(table: seq<PostPayload>, params: QueryParams, session: Option<Id>, follows: Follows)
    requires ListPage(table, params, session, follows).Ok?
    ensures var p := ListPage(table, params, session, follows).value;
      forall k :: 0 <= k < |p.posts| ==>
        && p.posts[k] in table
        && p.posts[k].deletedAt.None?
        && (!WantsDrafts(params) ==> p.posts[k].status == Published)
        && (WantsDrafts(params) ==> p.posts[k].authorId == session.value)
  {
    var w := BuildWhereClauseOwnDrafts(params, session).value;
    var rows := FilterPosts(table, w, follows);
    FilterPostsMembers(table, w, follows);
    var p := ListPage(table, params, session, follows).value;
    forall k | 0 <= k < |p.posts|
      ensures p.posts[k] in table && Matches(w, p.posts[k], follows)
    {
      PageRowsFrom(rows, ClampLimit(params.limit), params.cursor, k);
    }
    forall k | 0 <= k < |p.posts|
      ensures (!WantsDrafts(params) ==> p.posts[k].status == Published)
      ensures (WantsDrafts(params) ==> p.posts[k].authorId == session.value)
    {
      DraftsStayPrivate(params, session, p.posts[k], follows);
    }
  }

  /** Every post on a page is one of the rows paged. */
  lemma PageRowsFrom(rows: seq<PostPayload>, limit: nat, cursor: Param, k: nat)
    requires k < |Page(rows, limit, cursor).posts|
    ensures Page(rows, limit, cursor).posts[k] in rows
  {
    var s := Start(rows, cursor).value;
    var window := FindMany(rows, limit + 1, cursor);
    assert Page(rows, limit, cursor).posts[k] == window[k] == rows[s + k];
  }

  /** A client reading a whole listing page by page, with the draft
      restriction and the cursor corrected: over a table in the requested
      order, it receives every row the filter admits exactly once, in that
      order. */
  method ReadListing(table: seq<PostPayload>, params: QueryParams, session: Option<Id>, follows: Follows)
    returns (all: seq<PostPayload>)
    requires InOrder(GetOrderBy(params.sort), table) && WellKeyed(table)
    requires BuildWhereClauseOwnDrafts(params, session).Ok? && ClampLimit(params.limit) > 0
    ensures all == FilterPosts(table, BuildWhereClauseOwnDrafts(params, session).value, follows)
    ensures InOrder(GetOrderBy(params.sort), all)
  {
    var w := BuildWhereClauseOwnDrafts(params, session).value;
    FilterPostsKeepsOrder(table, w, follows, GetOrderBy(params.sort));
    all := ReadAllPages(FilterPosts(table, w, follows), ClampLimit(params.limit));
  }

  // ---------------------------------------------------------------------
  // POST: the guards and the new row
  // ---------------------------------------------------------------------

  /** The JSON body of `POST`, each field absent or a string (a list of
      strings for `tags`). */
  datatype PostBody = PostBody(
    title: Option<string>,
    excerpt: Option<string>,
    content: Option<string>,
    coverUrl: Option<string>,
    status: Option<string>,
    tags: Option<seq<string>>)

  /** The fields `postSchema` checks. */
  datatype Field = TitleField | ExcerptField | ContentField | CoverUrlField | StatusField | TagsField

  /** `z.string().min(3)`. */
  predicate TitleValid(b: PostBody) { b.title.Some? && |b.title.value| >= 3 }

  /** `z.string().max(320).optional().or(z.literal(""))`. */
  predicate ExcerptValid(b: PostBody) { b.excerpt.None? || |b.excerpt.value| <= 320 }

  /** `z.string().min(10)`. */
  predicate ContentValid(b: PostBody) { b.content.Some? && |b.content.value| >= 10 }

  /** `z.string().url().optional().or(z.literal(""))`, with the URL check
      `isUrl` of the schema library. */
  predicate CoverUrlValid(b: PostBody, isUrl: string -> bool)
  {
    b.coverUrl.None? || isUrl(b.coverUrl.value) || b.coverUrl.value == ""
  }

  /** `z.enum(["draft", "published"]).default("draft")`. */
  predicate StatusValid(b: PostBody)
  {
    b.status.None? || b.status.value == "draft" || b.status.value == "published"
  }

  /** `z.array(z.string().min(2)).max(6).optional()`. */
  predicate TagsValid(b: PostBody)
  {
    b.tags.None? || (|b.tags.value| <= 6 && forall k :: 0 <= k < |b.tags.value| ==> |b.tags.value[k]| >= 2)
  }

  /** The fields of the body that fail the schema. */
  function FieldErrors(b: PostBody, isUrl: string -> bool): (errors: set<Field>)
    ensures errors == {} <==>
      TitleValid(b) && ExcerptValid(b) && ContentValid(b) && CoverUrlValid(b, isUrl) && StatusValid(b) && TagsValid(b)
  {
    (if TitleValid(b) then {} else {TitleField})
    + (if ExcerptValid(b) then {} else {ExcerptField})
    + (if ContentValid(b) then {} else {ContentField})
    + (if CoverUrlValid(b, isUrl) then {} else {CoverUrlField})
    + (if StatusValid(b) then {} else {StatusField})
    + (if TagsValid(b) then {} else {TagsField})
  }

  /** More than six tags, or a tag under two characters, fails the tags
      field. */
  lemma TagLimitsRejected(b: PostBody, isUrl: string -> bool)
    requires b.tags.Some?
    requires |b.tags.value| > 6 || exists k :: 0 <= k < |b.tags.value| && |b.tags.value[k]| < 2
    ensures TagsField in FieldErrors(b, isUrl)
  {
  }

  /** The row `prisma.post.create` inserts. */
  datatype NewPost = NewPost(
    slug: string,
    title: string,
    excerpt: Option<string>,
    content: string,
    coverImage: Option<string>,
    status: Status,
    authorId: Id)

  /** What `POST` answers: 401, 400 with the failing fields, or the created
      row together with the tags handed to `syncTags`. */
  datatype PostOutcome =
    | Unauthorized401
    | Invalid400(fields: set<Field>)
    | Created201(post: NewPost, tags: Option<seq<string>>)

  /** `value || null` for an optional string. */
  function OrNull(v: Option<string>): (r: Option<string>)
    ensures r.Some? <==> v.Some? && v.value != ""
    ensures r.Some? ==> r.value == v.value
  {
    if v.Some? && v.value != "" then v else None
  }

  /** `POST /api/posts` up to the insert: the session guard, the schema,
      the slug allocation against the slugs in use, and the new row. */
  method CreatePost(session: Option<Id>, body: PostBody, isUrl: string -> bool, now: nat,
                    existing: set<string>) returns (r: PostOutcome)
    ensures !Given(session) ==> r == Unauthorized401
    ensures Given(session) && FieldErrors(body, isUrl) != {} ==> r == Invalid400(FieldErrors(body, isUrl))
    ensures Given(session) && FieldErrors(body, isUrl) == {} ==>
      && r.Created201?
      && r.post.slug !in existing && IsSlug(r.post.slug)
      && r.post.title == body.title.value && |r.post.title| >= 3
      && r.post.content == body.content.value && |r.post.content| >= 10
      && r.post.excerpt == OrNull(body.excerpt)
      && r.post.coverImage == OrNull(body.coverUrl)
      && (r.post.status == Published <==> body.status == Some("published"))
      && r.post.authorId == session.value
      && r.tags == body.tags
  {
    if !Given(session) {
      return Unauthorized401;
    }
    var errors := FieldErrors(body, isUrl);
    if errors != {} {
      return Invalid400(errors);
    }
    var title := body.title.value;
    var slug := GenerateUniqueSlug(title, now, existing);
    var status := if body.status == Some("published") then Published else Draft;
    var post := NewPost(slug, title, OrNull(body.excerpt), body.content.value, OrNull(body.coverUrl),
                        status, session.value);
    r := Created201(post, body.tags);
  }
}
