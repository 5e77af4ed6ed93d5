/** lib/post-utils.ts: the projection of a post row, loaded with its author,
    tag links, reaction types and comment count, onto the `PostSummary` and
    `PostDetail` shapes. */
module PostUtils {
  import opened Wrappers
  import opened Content

  /** A row of the Tag table. */
  datatype TagRow = TagRow(id: Id, name: string, slug: string)

  /** A row of the PostTag join table with its tag included. */
  datatype PostTagRow = PostTagRow(postId: Id, tagId: Id, tag: TagRow)

  /** The selected author columns. */
  datatype AuthorRow = AuthorRow(id: Id, name: string, avatarUrl: Option<string>)

  /** A reaction with only its `type` column selected. The column is a
      string; the mapping only recognises `"like"` and `"clap"`. */
  datatype ReactionRow = ReactionRow(reactionType: string)

  /** A post row loaded with `postSummaryInclude`: every scalar column of
      the post, plus its author, tag links, reactions and comment count. */
  datatype PostPayload = PostPayload(
    id: Id,
    slug: string,
    title: string,
    excerpt: Option<string>,
    content: string,
    coverImage: Option<string>,
    status: Status,
    authorId: Id,
    createdAt: Instant,
    updatedAt: Instant,
    deletedAt: Option<Instant>,
    author: AuthorRow,
    tags: seq<PostTagRow>,
    reactions: seq<ReactionRow>,
    commentCount: nat)

  const Like := "like"
  const Clap := "clap"

  /** The types of the reactions, in order. */
  function ReactionTypes(reactions: seq<ReactionRow>): (r: seq<string>)
    ensures |r| == |reactions|
    ensures forall i :: 0 <= i < |r| ==> r[i] == reactions[i].reactionType
  {
    seq(|reactions|, i requires 0 <= i < |reactions| => reactions[i].reactionType)
  }

  /** `reactions.filter((reaction) => reaction.type === t).length`. */
  function CountOfType(reactions: seq<ReactionRow>, t: string): (n: nat)
    ensures n <= |reactions|
  {
    if reactions == [] then 0
    else (if reactions[0].reactionType == t then 1 else 0) + CountOfType(reactions[1..], t)
  }

  /** The filtered count is the multiplicity of `t` among the reaction
      types. */
  lemma {:induction false} CountOfTypeIsMultiplicity(reactions: seq<ReactionRow>, t: string)
    ensures CountOfType(reactions, t) == multiset(ReactionTypes(reactions))[t]
  {
    if reactions != [] {
      CountOfTypeIsMultiplicity(reactions[1..], t);
      assert ReactionTypes(reactions) == [reactions[0].reactionType] + ReactionTypes(reactions[1..]);
    }
  }

  /** Counts of two different types never add up to more than there are
      reactions. */
  lemma {:induction false} CountsOfTwoTypesBounded(reactions: seq<ReactionRow>, a: string, b: string)
    requires a != b
    ensures CountOfType(reactions, a) + CountOfType(reactions, b) <= |reactions|
  {
    if reactions != [] {
      CountsOfTwoTypesBounded(reactions[1..], a, b);
    }
  }

  /** `post.tags.map((tag) => ({ id, name, slug }))`. */
  function TagSummaries(links: seq<PostTagRow>): (r: seq<TagSummary>)
    ensures |r| == |links|
    ensures forall i :: 0 <= i < |r| ==>
      r[i] == TagSummary(links[i].tag.id, links[i].tag.name, links[i].tag.slug, None)
  {
    seq(|links|, i requires 0 <= i < |links| =>
      TagSummary(links[i].tag.id, links[i].tag.name, links[i].tag.slug, None))
  }

  /** `mapPostSummary(post)`. */
  function MapPostSummary(post: PostPayload): (r: PostSummary)
    ensures r.id == post.id && r.slug == post.slug && r.title == post.title
    ensures r.excerpt == post.excerpt && r.coverImage == post.coverImage && r.status == post.status
    ensures r.createdAt == post.createdAt
    ensures |r.tags| == |post.tags|
    ensures forall i :: 0 <= i < |r.tags| ==>
      r.tags[i].id == post.tags[i].tag.id && r.tags[i].name == post.tags[i].tag.name &&
      r.tags[i].slug == post.tags[i].tag.slug
    ensures r.author == AuthorSummary(post.author.id, post.author.name, post.author.avatarUrl)
    ensures r.reactionTotals.likes == multiset(ReactionTypes(post.reactions))[Like]
    ensures r.reactionTotals.claps == multiset(ReactionTypes(post.reactions))[Clap]
    ensures r.reactionTotals.likes + r.reactionTotals.claps <= |post.reactions|
    ensures r.commentCount == post.commentCount
  {
    var likes := CountOfType(post.reactions, Like);
    var claps := CountOfType(post.reactions, Clap);
    CountOfTypeIsMultiplicity(post.reactions, Like);
    CountOfTypeIsMultiplicity(post.reactions, Clap);
    CountsOfTwoTypesBounded(post.reactions, Like, Clap);
    PostSummary(
      post.id, post.slug, post.title, post.excerpt, post.coverImage, post.status, post.createdAt,
      TagSummaries(post.tags),
      AuthorSummary(post.author.id, post.author.name, post.author.avatarUrl),
      ReactionTotals(likes, claps),
      post.commentCount)
  }

  /** `mapPostDetail(post)`: the summary extended with the content and the
      update time, every summary field unchanged. */
  function MapPostDetail(post: PostPayload): (r: PostDetail)
    ensures r.Summary() == MapPostSummary(post)
    ensures r.content == post.content && r.updatedAt == post.updatedAt
  {
    var s := MapPostSummary(post);
    PostDetail(
      s.id, s.slug, s.title, s.excerpt, s.coverImage, s.status, s.createdAt, s.tags, s.author,
      s.reactionTotals, s.commentCount, post.content, post.updatedAt)
  }
}
