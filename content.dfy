/** types/content.ts: the JSON shapes the API returns. Timestamps are
    carried as the instant they encode; `toISOString` is an injective
    rendering of that instant and is not modelled character by character. */
module Content {
  import opened Wrappers

  type Id = string

  /** A point in time, in milliseconds since the epoch. */
  datatype Instant = Instant(millis: int)

  datatype Status = Draft | Published

  datatype TagSummary = TagSummary(id: Id, name: string, slug: string, postCount: Option<nat>)

  datatype AuthorSummary = AuthorSummary(id: Id, name: string, avatarUrl: Option<string>)

  datatype ReactionTotals = ReactionTotals(likes: nat, claps: nat)

  datatype PostSummary = PostSummary(
    id: Id,
    slug: string,
    title: string,
    excerpt: Option<string>,
    coverImage: Option<string>,
    status: Status,
    createdAt: Instant,
    tags: seq<TagSummary>,
    author: AuthorSummary,
    reactionTotals: ReactionTotals,
    commentCount: nat)

  /** `PostSummary & { content, updatedAt }`, flattened as the JSON is. */
  datatype PostDetail = PostDetail(
    id: Id,
    slug: string,
    title: string,
    excerpt: Option<string>,
    coverImage: Option<string>,
    status: Status,
    createdAt: Instant,
    tags: seq<TagSummary>,
    author: AuthorSummary,
    reactionTotals: ReactionTotals,
    commentCount: nat,
    content: string,
    updatedAt: Instant)
  {
    /** The `PostSummary` part of a detail record. */
    function Summary(): PostSummary
    {
      PostSummary(id, slug, title, excerpt, coverImage, status, createdAt, tags, author,
                  reactionTotals, commentCount)
    }
  }
}
