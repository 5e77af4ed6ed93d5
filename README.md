# Blog post core, modelled in Dafny

This project models the server-side core of a blogging application written in
TypeScript (Next.js route handlers over a Prisma database):

- `lib/utils.ts`: `cn`, which joins the truthy class names with spaces, and
  `slugify`, which lower-cases and trims a title, turns every run of
  characters other than `a-z0-9` into one `-`, strips edge hyphens and falls
  back to `post-<now>` when nothing is left.
- `lib/post-utils.ts`: `mapPostSummary` and `mapPostDetail`, which turn a post
  row with its author, tag links, reactions and comment count into the API
  shapes of `types/content.ts`.
- `lib/tag-utils.ts`: `syncTags`, which normalises a submitted tag list and
  then updates the Tag and PostTag tables in place. The steps are: trim,
  drop empties, slugify, keep the last name per slug in a `Map`, and drop
  one-character slugs. The list is then applied: remove stale links, then
  upsert each tag and its link.
- `app/api/posts/route.ts`: the feed query planner of `GET /api/posts` and the
  guards of `POST /api/posts`.
  - `GET`: the drafts, author, tag, following and search filters, the two
    orderings, the limit clamp, and cursor paging with `limit + 1` rows.
  - `POST`: the session check, the body schema, unique slug allocation, and
    the new row.

Files:

- `wrappers.dfy`: `Option` and `Result`.
- `js_text.dfy` (module `JsText`): the JavaScript string primitives the
  core relies on. These are `trim`, number-to-string, `includes`, `join` and
  `split`.
- `content.dfy` (module `Content`): the API types of `types/content.ts`.
- `utils.dfy`, `post_utils.dfy`, `tag_utils.dfy` and `posts_route.dfy`: one
  module per core file.

Pure code is modelled as functions and lemmas. `syncTags` changes the
database row by row, so it is a class, `TagUtils.TagStore`. Its fields are
the Tag table (slug to name) and the PostTag table (pairs of post id and
slug). `SyncTags` is proved against the state function `TagUtils.SyncSpec`.
The slug probing loop of `generateUniqueSlug` is a `while` loop over the set
of slugs in use.

The environment becomes parameters:

- `Date.now()` is `now: nat`.
- `formatTagName` is `format: string -> string`. It is imported from
  `lib/utils.ts` but is not defined in that file, so it is not part of this
  model.
- zod's URL check is `isUrl: string -> bool`.
- The session is `Option<Id>`.
- The database is values:
  - the set of slugs in use;
  - the post table, in the order `getOrderBy` asks for (`ListPosts` filters
    it itself, with `FilterPosts`);
  - the follow relation, as a set of (follower, author) pairs.
- Timestamps are milliseconds. `toISOString` is taken to be the identity on
  them.

In two places the handler does not do what the rest of the program relies
on:

- With `includeDrafts=true` and an `authorId`, `authorId` replaces the
  caller's own id (`route.ts:57-59` runs after `route.ts:51-52`). The guard
  at `route.ts:49-53` answers a drafts request without a session with 401
  and otherwise restricts the listing to the caller, so drafts belong to
  the caller; the override lets any signed-in user read another author's
  drafts.
- The feed client passes each `nextCursor` straight back as the cursor of
  the next page (`components/feed/feed-page-client.tsx:62`), to page
  through the whole feed. The handler hands out the id of the extra row as
  the cursor and then skips that row (`route.ts:128`, `route.ts:133`), so
  one post per page boundary is never listed.

Both are modelled as written and listed under Findings. The listing
(`PostsRoute.ListPosts`) uses the corrected definitions.

## Model

| member | source | states |
|---|---|---|
| JsText.LeadingWhitespace | lib/tag-utils.ts:9 | The length of the whitespace run that `trim` removes at the start: everything before it is whitespace, and the character after it is not. |
| JsText.TrailingWhitespace | lib/tag-utils.ts:9 | The length of the whitespace run that `trim` removes at the end: everything after it is whitespace, and the character before it is not. |
| JsText.Trim | lib/utils.ts:8 | `trim` removes exactly the leading and the trailing whitespace run: the result is the infix between them, or empty when the string is all whitespace. It has no whitespace at either edge. |
| JsText.NatToString | lib/utils.ts:13 | The decimal rendering is non-empty and all digits. It is a single digit exactly when the number is below 10. |
| JsText.NatToStringValue | lib/utils.ts:13 | Reading the rendered digits back as a decimal numeral gives the number, and a rendering of two or more digits has no leading zero. |
| JsText.NatToStringInjective | app/api/posts/route.ts:31 | Different counters render differently, so the `${base}-${counter}` candidates never repeat. |
| JsText.IncludesIffInfix | app/api/posts/route.ts:78-85 | `contains` holds exactly when the query occurs at some position of the text. |
| JsText.SplitJoin | lib/utils.ts:2 | Splitting a space-joined list of words without spaces gives the list back. |
| Utils.TruthyStrings | lib/utils.ts:2 | `filter(Boolean)` keeps at most the given values, none of them empty. One argument is kept exactly when it is a non-empty string. |
| Utils.TruthyStringsAppend | lib/utils.ts:2 | Filtering a concatenation is the concatenation of the filtered parts, so the kept strings are the truthy arguments in their order. |
| Utils.TruthyStringsEmpty | lib/utils.ts:2 | Nothing is kept exactly when every argument is falsy (`undefined`, `null`, `false` or `""`). |
| Utils.Cn | lib/utils.ts:1-3 | `cn` of only falsy arguments is the empty string, and of one truthy string that string. |
| Utils.CnAppend | lib/utils.ts:1-3 | `cn` of two argument lists that both contribute is their two results joined by one space; a list that contributes nothing adds nothing. |
| JsText.JoinAppend | lib/utils.ts:2 | Joining two non-empty lists puts exactly one separator between their joins. |
| Utils.CnSplitsBack | lib/utils.ts:1-3 | For single-word class names, splitting `cn`'s output at spaces recovers exactly the truthy names, in order. |
| Utils.Lower | lib/utils.ts:7 | `toLowerCase` keeps the length and maps each character by itself: an ASCII capital to the letter 32 code points above it, every other character to itself. |
| Utils.CollapseRuns | lib/utils.ts:9 | After the replace, only `a-z0-9-` remain, with no double hyphen and the same alphanumerics in the same order. The result starts with `-` exactly when the input starts with a non-alphanumeric. |
| Utils.CollapseRunsAfterAlnum | lib/utils.ts:9 | Text ending in a letter or digit is replaced on its own: what follows cannot extend one of its runs. |
| Utils.CollapseRunsOfRun | lib/utils.ts:9 | A run of non-alphanumerics followed by a letter or digit becomes exactly one `-`. |
| Utils.CollapseRunsBetween | lib/utils.ts:9 | Every maximal run between two alphanumerics becomes one `-` at that very place: `a + run + b` gives `a' + "-" + b'`. |
| Utils.StripEdgeHyphens | lib/utils.ts:10 | The result is `s[i..j]` where `i` is 1 only past a leading `-`, and `j` stops one short of the end only before a trailing `-`. It keeps the alphanumerics and leaves no hyphen at either edge. |
| Utils.AlnumOnlyTrim | lib/utils.ts:8 | Trimming never removes a character that survives the replace. |
| Utils.NoAlnumIsShort | lib/utils.ts:9-10 | A collapsed string without alphanumerics is at most one hyphen. |
| Utils.Slugify | lib/utils.ts:5-17 | Every slug is non-empty `a-z0-9` words joined by single hyphens. |
| Utils.SlugifyContent | lib/utils.ts:6-16 | A title with no `a-z0-9` after lower-casing gives `post-<now>`. Otherwise the slug keeps exactly the title's lower-cased alphanumerics, in order. |
| Utils.SlugifyIdempotent | lib/utils.ts:5-17 | Slugifying a slug returns it unchanged, whatever the clock says. |
| Utils.SlugifyIgnoresClock | lib/utils.ts:12-16 | A title that keeps a letter or digit gets the same slug at any clock. |
| Utils.SlugifyIgnoresCase | lib/utils.ts:7 | Titles that differ only in ASCII case get the same slug. |
| PostUtils.CountOfType | lib/post-utils.ts:18-19 | The count of one reaction type is at most the number of reactions. |
| PostUtils.CountOfTypeIsMultiplicity | lib/post-utils.ts:18-19 | The `filter(...).length` count equals the number of reactions of that type (its multiset multiplicity). |
| PostUtils.CountsOfTwoTypesBounded | lib/post-utils.ts:18-19 | Likes plus claps never exceed the number of reactions. |
| PostUtils.TagSummaries | lib/post-utils.ts:29-33 | One tag summary per tag link, in order, with the linked tag's id, name and slug. |
| PostUtils.MapPostSummary | lib/post-utils.ts:17-45 | The summary copies id, slug, title, excerpt, cover, status, creation time, author and comment count. Its tags correspond one to one with the links, and likes and claps are the multiplicities of `like` and `clap` (together at most the reaction count). |
| PostUtils.MapPostDetail | lib/post-utils.ts:51-58 | The detail is the summary plus the row's content and update time. |
| TagUtils.DropEmpty | lib/tag-utils.ts:10 | `filter(Boolean)` drops an empty string, keeps a non-empty one, and no kept string is empty. |
| TagUtils.DropEmptyAppend | lib/tag-utils.ts:10 | The filter distributes over concatenation, so the kept strings stay in order, each occurrence kept. |
| TagUtils.CleanTags | lib/tag-utils.ts:8-10 | One tag cleans to its trim, or to nothing when the trim is empty. No cleaned tag is empty, and the list is no longer than the input. |
| TagUtils.CleanTagsAppend | lib/tag-utils.ts:8-10 | Cleaning distributes over concatenation. With `CleanTags`' one-tag case, the cleaned list is the non-blank trims in submission order, with their multiplicities. |
| TagUtils.CleanTagsSpec | lib/tag-utils.ts:8-10 | A string is in the cleaned list exactly when it is non-empty and the trim of some submitted tag. |
| TagUtils.RawEntriesSpec | lib/tag-utils.ts:11-14 | Each `Map` entry pairs the slug of a cleaned tag with its formatted name, one entry per cleaned tag. |
| TagUtils.LastWith | lib/tag-utils.ts:7-15 | An entry for a slug is found exactly when the slug occurs, and it carries that slug. |
| TagUtils.LastWithIsLast | lib/tag-utils.ts:7-15 | The entry found is the one with the slug that no later entry with the slug follows: later `Map` insertions overwrite earlier ones. |
| TagUtils.MapValuesSpec | lib/tag-utils.ts:6-15 | `Array.from(new Map(entries).values())` has one entry per distinct slug, in order of first insertion, each the last entry given for its slug. |
| TagUtils.KeepLongSlugsMembers | lib/tag-utils.ts:16 | The final filter keeps exactly the entries whose slug is longer than one character. |
| TagUtils.DedupShape | lib/tag-utils.ts:6-16 | The sanitized entries have distinct slugs of two or more characters, and each is one of the raw entries. |
| TagUtils.DedupSlugs | lib/tag-utils.ts:6-16 | The sanitized slugs are exactly the raw slugs of two or more characters. |
| TagUtils.DedupOrderAndNames | lib/tag-utils.ts:6-16 | Each sanitized entry is the last raw entry with its slug, and entries follow the order in which their slugs first occur. |
| TagUtils.NormalizeShape | lib/tag-utils.ts:6-16 | Every sanitized slug is a well-formed slug of two or more characters, and no slug occurs twice. |
| TagUtils.UpsertTagsSpec | lib/tag-utils.ts:30-36 | After the tag upserts, the Tag table gains exactly the listed slugs, each named by its entry. Other rows keep their names, and no row is removed. |
| TagUtils.ReconcileResult | lib/tag-utils.ts:18-42 | After reconciliation the post is linked to exactly the sanitized slugs, none for an empty list. The Tag table changes as the upserts say. |
| TagUtils.ReconcileIdempotent | lib/tag-utils.ts:18-42 | Reconciling twice with the same sanitized list leaves the state reconciling once does. |
| TagUtils.SyncIdempotent | lib/tag-utils.ts:4-43 | Running `syncTags` a second time with the same input, at any clock, leaves the tables as running it once, when every cleaned tag keeps a letter or digit. |
| TagUtils.NormalizeIgnoresClock | lib/tag-utils.ts:6-16 | A tag list whose cleaned tags all keep a letter or digit normalises the same way at any clock. |
| TagUtils.SyncFallbackTag | lib/tag-utils.ts:4-42 | A single tag with no letter or digit links the post to `post-<now>` alone. |
| TagUtils.SyncAtTwoClocks | lib/tag-utils.ts:4-42 | For such a tag, a second call at another clock changes the tables: the post moves to a new fallback tag. |
| TagUtils.SyncBangsAtTwoClocks | lib/tag-utils.ts:4-42 | The tag `!!` synced at clock 1 and again at clock 2 gives a different state from the first call alone. |
| TagUtils.SyncFrame | lib/tag-utils.ts:5 | An absent tag list changes nothing, and the links of other posts are never touched. |
| TagUtils.SyncResult | lib/tag-utils.ts:4-43 | After `syncTags` with a list: the post is linked to exactly the normalised slugs, and each has a Tag row named after its last submission. No Tag row is deleted, and other rows keep their names. |
| TagUtils.DedupOneSlug | lib/tag-utils.ts:6-16 | Raw entries that all share one slug of two or more characters collapse to the last of them. |
| TagUtils.SyncSpellings | lib/tag-utils.ts:6-42 | Submitting a word, its lower-cased form and the word padded with spaces links the post to one tag, the word's slug. That tag is named after the word, which the last spelling trims to. |
| TagUtils.TwoAlnumsSlug | lib/utils.ts:5-17 | A word whose lower-cased form holds two letters or digits slugs to more than one character, so the length filter at lib/tag-utils.ts:16 keeps it. |
| TagUtils.ReactIsSpellable | lib/tag-utils.ts:6-42 | `"React"` meets the requirements of `SyncSpellings`: no surrounding white space, and a slug longer than one character. |
| TagUtils.TagStore.SyncTags | lib/tag-utils.ts:4-43 | The in-place update of the two tables leaves exactly the state `SyncSpec` describes, whose properties are the lemmas above. |
| TagUtils.TagStore.UpsertAll | lib/tag-utils.ts:30-42 | The upsert loop leaves the Tag table as `UpsertTags` of the old one and adds exactly one link per entry. |
| PostsRoute.CandidateDistinct | app/api/posts/route.ts:27-32 | The candidates tried for one base are pairwise distinct. |
| PostsRoute.CandidateIsSlug | app/api/posts/route.ts:26-31 | Appending `-<counter>` to a slug gives a slug. |
| PostsRoute.FirstFreeCandidate | app/api/posts/route.ts:27-35 | The probing loop returns a slug not in use. It is the first candidate not in use: every earlier candidate is taken. |
| PostsRoute.GenerateUniqueSlug | app/api/posts/route.ts:25-36 | The allocated slug is well formed and not in use. It is the first free candidate derived from the title's slug. |
| PostsRoute.BuildWhereClauseErrors | app/api/posts/route.ts:49-68 | Building the filter fails exactly when drafts or the following feed are requested without a session. The drafts error takes precedence. |
| PostsRoute.BuildWhereClauseVisibility | app/api/posts/route.ts:45-55 | A matching post is never soft-deleted, and without `includeDrafts` it is published. |
| PostsRoute.BuildWhereClauseCallerDrafts | app/api/posts/route.ts:49-53 | With `includeDrafts` and no other filter, every post of the caller matches, drafts included. |
| PostsRoute.BuildWhereClauseAuthor | app/api/posts/route.ts:57-59 | A given `authorId` becomes the author restriction, whatever else was asked. |
| PostsRoute.BuildWhereClauseMatches | app/api/posts/route.ts:45-85 | A built filter admits a post exactly when: it is not deleted; it is published unless drafts were requested; it is by the `authorId` given, or else by the caller under `includeDrafts`; it has the requested tag; under `filter=following` its author is followed by the caller; and under `q` the query occurs in it. |
| PostsRoute.MatchesQueryIffOccurs | app/api/posts/route.ts:78-85 | The search matches exactly when the query occurs in the title, the excerpt, the content or a tag name. |
| PostsRoute.UnauthorizedResponse | app/api/posts/route.ts:111-119 | Both filter errors answer 401. |
| PostsRoute.UnauthorizedResponsesDistinct | app/api/posts/route.ts:111-119 | The drafts and following errors carry different messages. |
| PostsRoute.GetOrderBy | app/api/posts/route.ts:90-96 | The recommended ordering is chosen exactly for `sort=recommended`. Anything else is latest first. |
| PostsRoute.PrecedesIsTotalOrder | app/api/posts/route.ts:90-96 | Both orderings are total and transitive, so any table can be put in them. |
| PostsRoute.OrderMeaning | app/api/posts/route.ts:90-96 | In the recommended order, posts with more reactions come first, with ties newest first. Otherwise newest first. |
| PostsRoute.ClampLimit | app/api/posts/route.ts:101-102 | The limit is 10 when absent or not a number, the requested value when at most 24, and 24 otherwise. |
| PostsRoute.IndexOfIdAt | app/api/posts/route.ts:128 | Looking up the id of a row whose id no earlier row has finds that row. |
| PostsRoute.Start | app/api/posts/route.ts:128 | Reading starts within the rows. Without a cursor it starts at the first row. With one, it starts just after the row whose id is the cursor. |
| PostsRoute.StartAfterRow | app/api/posts/route.ts:128 | In a well-keyed sequence, a cursor naming row `i` is found at `i`, and reading resumes at `i + 1`. |
| PostsRoute.FindMany | app/api/posts/route.ts:123-129 | `findMany` returns at most `take` consecutive rows from the start position, and none when the cursor row is missing. |
| PostsRoute.PageAsWrittenShape | app/api/posts/route.ts:131-133 | A page holds at most `limit` rows. There is a next cursor exactly when `limit + 1` rows came back, and it is the id of the extra row, which is not on the page. |
| PostsRoute.NextCursorAsWritten | app/api/posts/route.ts:128-133 | As written, the next cursor is the id of the row just after the page, and the next page starts one row after that row, not at it. |
| PostsRoute.CursorRowSkipped | app/api/posts/route.ts:128-133 | As written, no post on that page or on the next one has the id handed out as the cursor. |
| PostsRoute.FivePostsLoseOne | app/api/posts/route.ts:123-133 | Five posts paged two at a time, as written: posts 0-1, then 3-4 with no further cursor. Post 2 is never listed. |
| PostsRoute.PageStep | app/api/posts/route.ts:131-133 | With the cursor taken from the last row returned, the next page resumes exactly after this one, and fewer rows remain. |
| PostsRoute.ReadAllPages | app/api/posts/route.ts:123-133 | A client following the corrected cursors from the first page until none is handed out reads the ordered rows exactly, with no omission and no duplicate. |
| PostsRoute.DraftsOfOthersListed | app/api/posts/route.ts:49-59 | As written, `includeDrafts=true&authorId=<other>` lists another author's drafts to any signed-in caller. |
| PostsRoute.DraftsStayPrivate | app/api/posts/route.ts:49-59 | With the draft restriction authoritative, a listed draft is always the caller's, and every post listed under `includeDrafts` is the caller's. |
| PostsRoute.OwnDraftsAgreesOtherwise | app/api/posts/route.ts:49-59 | The corrected filter fails in exactly the same cases. It differs from the written one only when drafts and another author's id are requested together. |
| PostsRoute.FilterPostsMembers | app/api/posts/route.ts:123-124 | The filtered rows are exactly the table rows the filter admits. |
| PostsRoute.FilterPostsKeepsOrder | app/api/posts/route.ts:123-126 | Filtering a table that is in order keeps it in order and keeps its ids distinct. |
| PostsRoute.Summaries | app/api/posts/route.ts:136 | One summary per listed row, in order. |
| PostsRoute.ListPostsSpec | app/api/posts/route.ts:98-138 | `GET` answers 401 exactly when drafts or the following feed are requested without a session. Otherwise it lists at most the clamped limit of posts (never more than 24). |
| PostsRoute.ListPageRows | app/api/posts/route.ts:106-133 | With the corrected filter, every listed row is a table row that is not deleted. It is published unless drafts were requested, and then it is the caller's. |
| PostsRoute.ReadListing | app/api/posts/route.ts:106-138 | Over a table in the requested order, a client reading the corrected listing page by page receives exactly the rows the filter admits, each once and in that order. |
| PostsRoute.FieldErrors | app/api/posts/route.ts:14-21 | The body is accepted exactly when all of these hold: title of at least 3 characters, excerpt of at most 320, content of at least 10, cover a URL or empty, status `draft` or `published` or absent, and at most 6 tags of at least 2 characters each. |
| PostsRoute.TagLimitsRejected | app/api/posts/route.ts:20 | More than six tags, or a tag shorter than two characters, is rejected on the tags field. |
| PostsRoute.OrNull | app/api/posts/route.ts:162-164 | `value \|\| null` keeps exactly the non-empty strings. |
| PostsRoute.CreatePost | app/api/posts/route.ts:141-168 | No session gives 401, and an invalid body gives 400 with the failing fields. Otherwise the new row has a fresh, well-formed slug, the validated fields, empty excerpt and cover stored as null, status published only when requested, and the caller as author. The tags are passed on to `syncTags`. |

## Left out

- Database access, `auth()`, HTTP parsing and JSON responses are not modelled. The database is values, the session is `Option<Id>` and responses are datatypes.
- Prisma's sorting is not modelled: `GET` is modelled over rows already in the order `getOrderBy` asks for, and `PrecedesIsTotalOrder` shows such an order exists.
- PostsRoute.GenerateUniqueSlug: does not model a concurrent insert between the probe and `create`, which makes the slug unique constraint the final guard.
- Utils.Lower: ASCII only; `toLowerCase` on non-ASCII letters and UTF-16 lengths are not modelled.
- PostsRoute.FieldErrors: lengths are counted in characters, whereas zod's `min` and `max` count UTF-16 code units. A title of one character outside the Basic Multilingual Plane plus one letter has length 3 for zod and passes `min(3)`, but the model counts 2 and rejects it. `TagLimitsRejected` inherits the same difference for tag lengths.
- `formatTagName` is not part of this model and is a parameter.
- `Date.now()` is one `now` per `syncTags` normalisation, where the source reads the clock on every `slugify` call. When the clock ticks between two tags that both fall back to `post-<now>`, the source can keep them apart, while the model always merges them into one entry.
- TagUtils.SyncIdempotent: holds only when every cleaned tag keeps a letter or digit after lower-casing (`ClockFree`). A tag such as `!!` falls back to `post-<now>`, and a second call at a later clock moves the post to a new tag; `SyncAtTwoClocks` and `SyncBangsAtTwoClocks` prove that it does.
- The search filter's `contains` (`route.ts:78-85`) is modelled as a case-sensitive substring test (`JsText.Includes`). Prisma's `contains` without a `mode` follows the database's collation, which no schema in the source fixes; under a case-insensitive collation the database admits more posts.
- zod's URL check is a parameter `isUrl`, and the shape of zod's `flatten()` error is reduced to the set of failing fields.
- A body field of the wrong JSON type is treated as absent.
- A `limit` that is negative or fractional is not modelled. The limit is absent, not a number, or a natural number.
- PostsRoute.FindMany: a cursor whose row is not among the filtered rows gives an empty page in the model; Prisma's result for such a cursor is not modelled.
- `toISOString` is not modelled; instants are carried unchanged in milliseconds.
- PostsRoute.CreatePost: the call to `syncTags` and the re-read of the created post (`route.ts:170-183`) are not part of the method. It hands the tags over, and `TagStore.SyncTags` models what the call does.
- The other route handlers (post by id, reactions, comments, follows, tags, uploads, accounts) and the React components are not modelled.
- `PostsRoute.ListPosts` lists with the corrected filter and paging. The as-written versions are `BuildWhereClause` and `PageAsWritten`.

## Findings

| source | as written | input that shows it | evidently intended | confidence | as-written member | corrected member |
|---|---|---|---|---|---|---|
| app/api/posts/route.ts:128-133 | `nextCursor` is the id of the extra row `posts[limit]`, and the next request skips the cursor row (`skip: 1`), so that row is never listed | 5 posts, `limit=2`: page 1 lists posts 0-1 with cursor post 2; page 2 lists posts 3-4 with no cursor; post 2 is lost | the cursor is the id of the last post returned (`posts[limit - 1]`), so that paging lists every post once | not executed | PostsRoute.CursorRowSkipped | PostsRoute.ReadAllPages |
| app/api/posts/route.ts:49-59 | with `includeDrafts=true`, a given `authorId` overwrites the caller's id in `where.authorId` | signed-in caller A requests `includeDrafts=true&authorId=B`: B's drafts are listed to A | the draft restriction stays authoritative: under `includeDrafts` only the caller's own posts are listed | not executed | PostsRoute.DraftsOfOthersListed | PostsRoute.DraftsStayPrivate |
