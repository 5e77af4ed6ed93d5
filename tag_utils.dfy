/** lib/tag-utils.ts: `syncTags`, which reconciles a post's tag links with a
    submitted list of tag names. The normalisation of the list is pure; the
    reconciliation updates the Tag and PostTag tables in place and is
    modelled by the class `TagStore`. `formatTagName` is not part of this
    model and is passed in as `format`; `Date.now()`, read by `slugify`, is
    passed in as `now`. */
module TagUtils {
  import opened Wrappers
  import opened JsText
  import opened Utils

  type Slug = string
  type PostId = string

  /** One `[slug, { slug, name }]` entry fed to `new Map(...)`. */
  datatype TagEntry = TagEntry(slug: Slug, name: string)

  // ---------------------------------------------------------------------
  // Normalisation
  // ---------------------------------------------------------------------

  /** `tags.map((tag) => tag.trim())`. */
  function TrimAll(tags: seq<string>): seq<string>
  {
    seq(|tags|, k requires 0 <= k < |tags| => Trim(tags[k]))
  }

  /** `.filter(Boolean)` on strings: drops the empty ones, keeping order. */
  function DropEmpty(xs: seq<string>): (r: seq<string>)
    ensures |r| <= |xs|
    ensures forall k :: 0 <= k < |r| ==> r[k] != ""
    ensures xs == [] ==> r == []
    ensures |xs| == 1 ==> r == if xs[0] == "" then [] else xs
  {
    if xs == [] then []
    else (if xs[0] == "" then [] else [xs[0]]) + DropEmpty(xs[1..])
  }

  /** The filter distributes over concatenation: it keeps the order of the
      kept strings and each occurrence of them. */
  lemma {:induction false} DropEmptyAppend(a: seq<string>, b: seq<string>)
    ensures DropEmpty(a + b) == DropEmpty(a) + DropEmpty(b)
  {
    if a == [] {
      assert a + b == b;
    } else {
      assert (a + b)[0] == a[0] && (a + b)[1..] == a[1..] + b;
      DropEmptyAppend(a[1..], b);
    }
  }

  /** The filter keeps exactly the non-empty strings. */
  lemma {:induction false} DropEmptyMembers(xs: seq<string>)
    ensures forall t :: t in DropEmpty(xs) <==> t in xs && t != ""
  {
    if xs != [] {
      DropEmptyMembers(xs[1..]);
      assert xs == [xs[0]] + xs[1..];
    }
  }

  /** A list without empty strings passes the filter unchanged. */
  lemma {:induction false} DropEmptyNonBlank(xs: seq<string>)
    requires forall k :: 0 <= k < |xs| ==> xs[k] != ""
    ensures DropEmpty(xs) == xs
  {
    if xs != [] {
      DropEmptyNonBlank(xs[1..]);
      assert xs == [xs[0]] + xs[1..];
    }
  }

  /** `tags.map((tag) => tag.trim()).filter(Boolean)`. */
  function CleanTags(tags: seq<string>): (r: seq<string>)
    ensures |r| <= |tags|
    ensures forall k :: 0 <= k < |r| ==> r[k] != ""
    ensures tags == [] ==> r == []
    ensures |tags| == 1 ==> r == if Trim(tags[0]) == "" then [] else [Trim(tags[0])]
  {
    assert |tags| == 1 ==> TrimAll(tags) == [Trim(tags[0])];
    DropEmpty(TrimAll(tags))
  }

  /** Cleaning distributes over concatenation, so the cleaned tags are the
      non-blank trims in submission order, each occurrence kept. */
  lemma CleanTagsAppend(a: seq<string>, b: seq<string>)
    ensures CleanTags(a + b) == CleanTags(a) + CleanTags(b)
  {
    assert TrimAll(a + b) == TrimAll(a) + TrimAll(b);
    DropEmptyAppend(TrimAll(a), TrimAll(b));
  }

  /** The cleaned list holds exactly the non-blank trimmed tags. */
  lemma CleanTagsSpec(tags: seq<string>)
    ensures forall t :: t in CleanTags(tags) <==> t != "" && exists i :: 0 <= i < |tags| && Trim(tags[i]) == t
  {
    var m := TrimAll(tags);
    DropEmptyMembers(m);
    forall t ensures t in m <==> exists i :: 0 <= i < |tags| && Trim(tags[i]) == t {
      if t in m {
        var i :| 0 <= i < |m| && m[i] == t;
        assert Trim(tags[i]) == t;
      }
      if exists i :: 0 <= i < |tags| && Trim(tags[i]) == t {
        var i :| 0 <= i < |tags| && Trim(tags[i]) == t;
        assert m[i] == t;
      }
    }
  }

  /** The `[slug, { slug, name: formatTagName(tag) }]` entries, one per
      cleaned tag. */
  function RawEntries(tags: seq<string>, now: nat, format: string -> string): seq<TagEntry>
  {
    MapEntries(CleanTags(tags), SlugOf(now), format)
  }

  /** `slugify` with `Date.now()` reading `now`. */
  function SlugOf(now: nat): string -> Slug
  {
    (tag: string) => Slugify(tag, now)
  }

  /** The entry for each tag, given how to slug and how to name it. */
  function MapEntries(c: seq<string>, slug: string -> Slug, format: string -> string): seq<TagEntry>
  {
    seq(|c|, k requires 0 <= k < |c| => TagEntry(slug(c[k]), format(c[k])))
  }

  /** Each entry pairs the slug of a cleaned tag with its formatted name. */
  lemma RawEntriesSpec(tags: seq<string>, now: nat, format: string -> string)
    ensures var r, c := RawEntries(tags, now, format), CleanTags(tags);
      && |r| == |c|
      && forall k :: 0 <= k < |r| ==> r[k] == TagEntry(Slugify(c[k], now), format(c[k])) && IsSlug(r[k].slug)
  {
  }

  /** The slugs of some entries, in order. */
  function Slugs(es: seq<TagEntry>): (r: seq<Slug>)
    ensures |r| == |es| && forall k :: 0 <= k < |es| ==> r[k] == es[k].slug
  {
    seq(|es|, k requires 0 <= k < |es| => es[k].slug)
  }

  predicate UniqueSlugs(es: seq<TagEntry>)
  {
    forall i, j :: 0 <= i < j < |es| ==> es[i].slug != es[j].slug
  }

  /** Index of the first entry with slug `s`. */
  function FirstIndex(es: seq<TagEntry>, s: Slug): (i: nat)
    requires s in Slugs(es)
    ensures i < |es| && es[i].slug == s
    ensures forall j :: 0 <= j < i ==> es[j].slug != s
  {
    if es[0].slug == s then 0
    else
      assert s in Slugs(es[1..]) by {
        var k :| 0 <= k < |es| && Slugs(es)[k] == s;
        assert Slugs(es[1..])[k - 1] == s;
      }
      1 + FirstIndex(es[1..], s)
  }

  /** Entry `k` has slug `s` and no later entry does. */
  predicate LastAt(es: seq<TagEntry>, s: Slug, k: int)
  {
    0 <= k < |es| && es[k].slug == s && forall j :: k < j < |es| ==> es[j].slug != s
  }

  /** The last entry with slug `s`, if any. */
  function LastWith(es: seq<TagEntry>, s: Slug): (r: Option<TagEntry>)
    ensures r.Some? <==> s in Slugs(es)
    ensures r.Some? ==> r.value in es && r.value.slug == s
  {
    if es == [] then None
    else if es[|es| - 1].slug == s then Some(es[|es| - 1])
    else
      var init := es[..|es| - 1];
      var r := LastWith(init, s);
      assert s in Slugs(es) ==> s in Slugs(init) by {
        if s in Slugs(es) {
          var k :| 0 <= k < |es| && Slugs(es)[k] == s;
          assert Slugs(init)[k] == s;
        }
      }
      assert s in Slugs(init) ==> s in Slugs(es) by {
        if s in Slugs(init) {
          var k :| 0 <= k < |init| && Slugs(init)[k] == s;
          assert Slugs(es)[k] == s;
        }
      }
      r
  }

  /** `LastWith` finds the entry that no later entry with the same slug
      follows. */
  lemma {:induction false} LastWithIsLast(es: seq<TagEntry>, s: Slug, k: nat)
    requires LastAt(es, s, k)
    ensures LastWith(es, s) == Some(es[k])
  {
    if k < |es| - 1 {
      var init := es[..|es| - 1];
      assert es[|es| - 1].slug != s;
      assert LastAt(init, s, k);
      LastWithIsLast(init, s, k);
    }
  }

  /** Where an entry with slug `s` sits in `acc`, if anywhere. */
  function IndexOfSlug(acc: seq<TagEntry>, s: Slug): (r: Option<nat>)
    ensures r.Some? ==> r.value < |acc| && acc[r.value].slug == s
    ensures r.None? ==> forall k :: 0 <= k < |acc| ==> acc[k].slug != s
  {
    if acc == [] then None
    else if acc[|acc| - 1].slug == s then Some(|acc| - 1)
    else IndexOfSlug(acc[..|acc| - 1], s)
  }

  /** `map.set(e.slug, e)` on a JavaScript `Map` listed in insertion order:
      an existing key keeps its position and takes the new value, a new key
      goes last. */
  function MapSet(acc: seq<TagEntry>, e: TagEntry): seq<TagEntry>
  {
    match IndexOfSlug(acc, e.slug)
    case Some(i) => acc[i := e]
    case None => acc + [e]
  }

  /** Slug `a` first occurs in `es` before slug `b` does. */
  predicate FirstBefore(es: seq<TagEntry>, a: Slug, b: Slug)
  {
    a in Slugs(es) && b in Slugs(es) && FirstIndex(es, a) < FirstIndex(es, b)
  }

  /** `Array.from(new Map(entries).values())`. */
  function MapValues(es: seq<TagEntry>): seq<TagEntry>
  {
    if es == [] then [] else MapSet(MapValues(es[..|es| - 1]), es[|es| - 1])
  }

  /** `new Map(entries).values()` lists one entry per slug, in the order in
      which the slugs first occur, each the last entry given for its slug. */
  lemma {:induction false} MapValuesSpec(es: seq<TagEntry>)
    ensures MapValuesOf(es, MapValues(es))
  {
    if es != [] {
      var init := es[..|es| - 1];
      var e := es[|es| - 1];
      assert es == init + [e];
      MapValuesSpec(init);
      MapSetStep(init, e, MapValues(init));
    }
  }

  lemma SlugsAppend(init: seq<TagEntry>, e: TagEntry)
    ensures Slugs(init + [e]) == Slugs(init) + [e.slug]
  {
  }

  lemma LastWithAppend(init: seq<TagEntry>, e: TagEntry, s: Slug)
    ensures LastWith(init + [e], s) == if s == e.slug then Some(e) else LastWith(init, s)
  {
    assert (init + [e])[..|init|] == init;
  }

  lemma FirstIndexPrefix(init: seq<TagEntry>, e: TagEntry, s: Slug)
    requires s in Slugs(init)
    ensures s in Slugs(init + [e]) && FirstIndex(init + [e], s) == FirstIndex(init, s)
  {
    var es := init + [e];
    SlugsAppend(init, e);
    var i, j := FirstIndex(init, s), FirstIndex(es, s);
    assert es[i] == init[i];
    assert j <= i;
  }

  /** The invariant `MapValues` keeps: `r` lists the slugs of `es` once
      each, in first-occurrence order, each with its last entry. */
  ghost predicate MapValuesOf(es: seq<TagEntry>, r: seq<TagEntry>)
  {
    && UniqueSlugs(r)
    && (forall s :: s in Slugs(r) <==> s in Slugs(es))
    && (forall k :: 0 <= k < |r| ==> LastWith(es, r[k].slug) == Some(r[k]))
    && (forall i, j :: 0 <= i < j < |r| ==> FirstBefore(es, r[i].slug, r[j].slug))
  }

  /** One `map.set` keeps the invariant. */
  lemma MapSetStep(init: seq<TagEntry>, e: TagEntry, acc: seq<TagEntry>)
    requires MapValuesOf(init, acc)
    ensures MapValuesOf(init + [e], MapSet(acc, e))
  {
    match IndexOfSlug(acc, e.slug)
    case Some(p) => MapSetExisting(init, e, acc, p);
    case None => MapSetNew(init, e, acc);
  }

  lemma MapSetOrderPrefix(init: seq<TagEntry>, e: TagEntry, acc: seq<TagEntry>)
    requires forall s :: s in Slugs(acc) ==> s in Slugs(init)
    requires forall i, j :: 0 <= i < j < |acc| ==> FirstBefore(init, acc[i].slug, acc[j].slug)
    ensures forall i, j :: 0 <= i < j < |acc| ==> FirstBefore(init + [e], acc[i].slug, acc[j].slug)
  {
    forall i, j | 0 <= i < j < |acc| ensures FirstBefore(init + [e], acc[i].slug, acc[j].slug) {
      FirstIndexPrefix(init, e, acc[i].slug);
      FirstIndexPrefix(init, e, acc[j].slug);
    }
  }

  lemma MapSetExisting(init: seq<TagEntry>, e: TagEntry, acc: seq<TagEntry>, p: nat)
    requires MapValuesOf(init, acc)
    requires p < |acc| && acc[p].slug == e.slug
    ensures MapValuesOf(init + [e], acc[p := e])
  {
    var es, r := init + [e], acc[p := e];
    SlugsAppend(init, e);
    assert Slugs(r) == Slugs(acc);
    assert e.slug in Slugs(acc);
    forall k | 0 <= k < |r| ensures LastWith(es, r[k].slug) == Some(r[k]) {
      LastWithAppend(init, e, r[k].slug);
    }
    MapSetOrderPrefix(init, e, acc);
  }

  lemma MapSetNew(init: seq<TagEntry>, e: TagEntry, acc: seq<TagEntry>)
    requires MapValuesOf(init, acc)
    requires forall k :: 0 <= k < |acc| ==> acc[k].slug != e.slug
    ensures MapValuesOf(init + [e], acc + [e])
  {
    var es, r := init + [e], acc + [e];
    SlugsAppend(init, e);
    SlugsAppend(acc, e);
    assert e.slug !in Slugs(init);
    forall k | 0 <= k < |r| ensures LastWith(es, r[k].slug) == Some(r[k]) {
      LastWithAppend(init, e, r[k].slug);
    }
    MapSetOrderPrefix(init, e, acc);
    assert FirstIndex(es, e.slug) == |init|;
    forall i | 0 <= i < |acc| ensures FirstBefore(es, acc[i].slug, e.slug) {
      assert Slugs(acc)[i] == acc[i].slug;
      FirstIndexPrefix(init, e, acc[i].slug);
    }
  }

  /** `.filter((tag) => tag.slug.length > 1)`. */
  function KeepLongSlugs(es: seq<TagEntry>): (r: seq<TagEntry>)
    ensures forall k :: 0 <= k < |r| ==> |r[k].slug| > 1
  {
    if es == [] then []
    else if |es[0].slug| > 1 then [es[0]] + KeepLongSlugs(es[1..])
    else KeepLongSlugs(es[1..])
  }

  /** The filter keeps exactly the entries whose slug has two or more
      characters. */
  lemma {:induction false} KeepLongSlugsMembers(es: seq<TagEntry>)
    ensures forall e :: e in KeepLongSlugs(es) <==> e in es && |e.slug| > 1
  {
    if es != [] {
      KeepLongSlugsMembers(es[1..]);
      assert forall e :: e in es <==> e == es[0] || e in es[1..];
    }
  }

  /** A relation that holds between every earlier and later entry still
      holds after filtering. */
  lemma {:induction false} KeepLongSlugsPairwise(es: seq<TagEntry>, rel: (TagEntry, TagEntry) -> bool)
    requires forall i, j :: 0 <= i < j < |es| ==> rel(es[i], es[j])
    ensures forall i, j :: 0 <= i < j < |KeepLongSlugs(es)| ==> rel(KeepLongSlugs(es)[i], KeepLongSlugs(es)[j])
  {
    if es != [] {
      var rest := KeepLongSlugs(es[1..]);
      KeepLongSlugsPairwise(es[1..], rel);
      if |es[0].slug| > 1 {
        var r := KeepLongSlugs(es);
        HeadRelatesToKept(es, rel);
        forall j | 0 < j < |r| ensures rel(r[0], r[j]) {
          assert r[j] == rest[j - 1];
        }
        forall i, j | 0 < i < j < |r| ensures rel(r[i], r[j]) {
          assert r[i] == rest[i - 1] && r[j] == rest[j - 1];
        }
      }
    }
  }

  lemma HeadRelatesToKept(es: seq<TagEntry>, rel: (TagEntry, TagEntry) -> bool)
    requires es != []
    requires forall i, j :: 0 <= i < j < |es| ==> rel(es[i], es[j])
    ensures forall k :: 0 <= k < |KeepLongSlugs(es[1..])| ==> rel(es[0], KeepLongSlugs(es[1..])[k])
  {
    var rest := KeepLongSlugs(es[1..]);
    KeepLongSlugsMembers(es[1..]);
    forall k | 0 <= k < |rest| ensures rel(es[0], rest[k]) {
      assert rest[k] in es[1..];
      var b :| 0 <= b < |es[1..]| && es[1..][b] == rest[k];
      assert es[b + 1] == rest[k];
    }
  }

  /** Deduplication followed by the length filter, on any entries. */
  function Dedup(raw: seq<TagEntry>): seq<TagEntry>
  {
    KeepLongSlugs(MapValues(raw))
  }

  /** The deduplicated entries have distinct slugs, at least two
      characters long, and each of them is one of the given entries. */
  lemma DedupShape(raw: seq<TagEntry>)
    ensures var n := Dedup(raw);
      && UniqueSlugs(n)
      && (forall k :: 0 <= k < |n| ==> |n[k].slug| > 1 && n[k] in raw)
  {
    var m := MapValues(raw);
    MapValuesSpec(raw);
    var n := KeepLongSlugs(m);
    KeepLongSlugsMembers(m);
    KeepLongSlugsPairwise(m, (x: TagEntry, y: TagEntry) => x.slug != y.slug);
    forall k | 0 <= k < |n| ensures n[k] in raw {
      assert n[k] in m;
      var p :| 0 <= p < |m| && m[p] == n[k];
      assert LastWith(raw, m[p].slug) == Some(m[p]);
    }
  }

  /** The deduplicated slugs are exactly the given slugs that have two
      characters or more. */
  lemma DedupSlugs(raw: seq<TagEntry>)
    ensures forall s :: s in Slugs(Dedup(raw)) <==> s in Slugs(raw) && |s| > 1
  {
    forall s | s in Slugs(Dedup(raw)) ensures s in Slugs(raw) && |s| > 1 {
      DedupSlugsSound(raw, s);
    }
    forall s | s in Slugs(raw) && |s| > 1 ensures s in Slugs(Dedup(raw)) {
      DedupSlugsComplete(raw, s);
    }
  }

  lemma DedupSlugsSound(raw: seq<TagEntry>, s: Slug)
    requires s in Slugs(Dedup(raw))
    ensures s in Slugs(raw) && |s| > 1
  {
    var m := MapValues(raw);
    MapValuesSpec(raw);
    var n := KeepLongSlugs(m);
    KeepLongSlugsMembers(m);
    var k :| 0 <= k < |n| && Slugs(n)[k] == s;
    assert n[k] in m;
    var p :| 0 <= p < |m| && m[p] == n[k];
    assert Slugs(m)[p] == s;
  }

  lemma DedupSlugsComplete(raw: seq<TagEntry>, s: Slug)
    requires s in Slugs(raw) && |s| > 1
    ensures s in Slugs(Dedup(raw))
  {
    var m := MapValues(raw);
    MapValuesSpec(raw);
    var n := KeepLongSlugs(m);
    KeepLongSlugsMembers(m);
    assert s in Slugs(m);
    var p :| 0 <= p < |m| && Slugs(m)[p] == s;
    assert m[p] in n;
    var k :| 0 <= k < |n| && n[k] == m[p];
    assert Slugs(n)[k] == s;
  }

  /** Each deduplicated entry is the last given entry with its slug (the
      `Map` overwrites), and the entries follow the order in which their
      slugs first occur (the `Map` keeps insertion order). */
  lemma DedupOrderAndNames(raw: seq<TagEntry>)
    ensures var n := Dedup(raw);
      && (forall k :: 0 <= k < |n| ==> LastWith(raw, n[k].slug) == Some(n[k]))
      && (forall i, j :: 0 <= i < j < |n| ==> FirstBefore(raw, n[i].slug, n[j].slug))
  {
    var m := MapValues(raw);
    MapValuesSpec(raw);
    var n := KeepLongSlugs(m);
    KeepLongSlugsMembers(m);
    KeepLongSlugsPairwise(m, (x: TagEntry, y: TagEntry) => FirstBefore(raw, x.slug, y.slug));
    forall k | 0 <= k < |n| ensures LastWith(raw, n[k].slug) == Some(n[k]) {
      assert n[k] in m;
    }
  }

  /** The `sanitized` list of `syncTags`. */
  function Normalize(tags: seq<string>, now: nat, format: string -> string): seq<TagEntry>
  {
    Dedup(RawEntries(tags, now, format))
  }

  /** Every normalised slug comes from `slugify`, so it has the slug shape,
      and it is at least two characters long; no slug occurs twice. */
  lemma NormalizeShape(tags: seq<string>, now: nat, format: string -> string)
    ensures var n := Normalize(tags, now, format);
      && UniqueSlugs(n)
      && forall k :: 0 <= k < |n| ==> IsSlug(n[k].slug) && |n[k].slug| > 1
  {
    var raw := RawEntries(tags, now, format);
    var n := Dedup(raw);
    DedupShape(raw);
    RawEntriesSpec(tags, now, format);
    forall k | 0 <= k < |n| ensures IsSlug(n[k].slug) {
      var q :| 0 <= q < |raw| && raw[q] == n[k];
    }
  }

  // ---------------------------------------------------------------------
  // Reconciliation
  // ---------------------------------------------------------------------

  /** The two tables `syncTags` touches: Tag (slug to name; the slug is
      unique, so it stands in for the tag id) and PostTag (post id, slug). */
  datatype Tables = Tables(tags: map<Slug, string>, links: set<(PostId, Slug)>)

  /** The slugs of some entries, as a set. */
  function SlugSet(es: seq<TagEntry>): set<Slug>
  {
    set s | s in Slugs(es)
  }

  /** The slugs linked to `postId`. */
  function PostSlugs(links: set<(PostId, Slug)>, postId: PostId): set<Slug>
  {
    set l | l in links && l.0 == postId :: l.1
  }

  /** `postTag.deleteMany({ where: { postId } })`. */
  function UnlinkAll(links: set<(PostId, Slug)>, postId: PostId): set<(PostId, Slug)>
  {
    set l | l in links && l.0 != postId
  }

  /** `postTag.deleteMany` of the post's links whose slug is not kept. */
  function UnlinkStale(links: set<(PostId, Slug)>, postId: PostId, keep: set<Slug>): set<(PostId, Slug)>
  {
    set l | l in links && (l.0 != postId || l.1 in keep)
  }

  /** The links the loop upserts. */
  function LinkSet(postId: PostId, n: seq<TagEntry>): set<(PostId, Slug)>
  {
    set e | e in n :: (postId, e.slug)
  }

  /** The `tag.upsert` calls of the loop, in order. */
  function UpsertTags(tags: map<Slug, string>, n: seq<TagEntry>): map<Slug, string>
  {
    if n == [] then tags
    else UpsertTags(tags, n[..|n| - 1])[n[|n| - 1].slug := n[|n| - 1].name]
  }

  /** The reconciliation of the Tag and PostTag tables with a normalised
      list: clear the post's links when the list is empty, otherwise drop
      its stale links and upsert every tag and link. */
  function Reconcile(t: Tables, postId: PostId, n: seq<TagEntry>): Tables
  {
    if n == [] then Tables(t.tags, UnlinkAll(t.links, postId))
    else Tables(UpsertTags(t.tags, n), UnlinkStale(t.links, postId, SlugSet(n)) + LinkSet(postId, n))
  }

  /** The state `syncTags(postId, input)` leaves behind. */
  function SyncSpec(t: Tables, postId: PostId, input: Option<seq<string>>, now: nat,
                    format: string -> string): Tables
  {
    match input
    case None => t
    case Some(tags) => Reconcile(t, postId, Normalize(tags, now, format))
  }

  /** The Tag table after the upserts: every upserted slug carries its name,
      no row is removed, and other rows keep their names. */
  lemma {:induction false} UpsertTagsSpec(tags: map<Slug, string>, n: seq<TagEntry>)
    requires UniqueSlugs(n)
    ensures UpsertTags(tags, n).Keys == tags.Keys + SlugSet(n)
    ensures forall k :: 0 <= k < |n| ==> UpsertTags(tags, n)[n[k].slug] == n[k].name
    ensures forall s :: s in tags && s !in SlugSet(n) ==> UpsertTags(tags, n)[s] == tags[s]
  {
    if n != [] {
      var init, e := n[..|n| - 1], n[|n| - 1];
      UpsertTagsSpec(tags, init);
      assert SlugSet(n) == SlugSet(init) + {e.slug} by {
        assert n == init + [e];
        SlugsAppend(init, e);
      }
      var m := UpsertTags(tags, init);
      assert UpsertTags(tags, n) == m[e.slug := e.name];
      forall k | 0 <= k < |n| ensures UpsertTags(tags, n)[n[k].slug] == n[k].name {
        if k < |init| {
          assert n[k] == init[k] && init[k].slug != e.slug;
          assert m[init[k].slug] == init[k].name;
        }
      }
    }
  }

  /** One more upsert extends the upserted prefix by one entry. */
  lemma UpsertTagsStep(tags: map<Slug, string>, n: seq<TagEntry>, i: nat)
    requires i < |n|
    ensures UpsertTags(tags, n[..i + 1]) == UpsertTags(tags, n[..i])[n[i].slug := n[i].name]
  {
    assert n[..i + 1][..i] == n[..i];
  }

  /** One more link extends the linked prefix by one pair. */
  lemma LinkSetStep(postId: PostId, n: seq<TagEntry>, i: nat)
    requires i < |n|
    ensures LinkSet(postId, n[..i + 1]) == LinkSet(postId, n[..i]) + {(postId, n[i].slug)}
  {
    assert n[..i + 1] == n[..i] + [n[i]];
  }

  /** Reconciling twice with the same list is reconciling once. */
  lemma ReconcileIdempotent(t: Tables, postId: PostId, n: seq<TagEntry>)
    requires UniqueSlugs(n)
    ensures Reconcile(Reconcile(t, postId, n), postId, n) == Reconcile(t, postId, n)
  {
    if n != [] {
      var t1 := Reconcile(t, postId, n);
      UpsertTagsSpec(t.tags, n);
      UpsertTagsSpec(t1.tags, n);
      assert UpsertTags(t1.tags, n) == t1.tags;
      forall l | l in LinkSet(postId, n) ensures l.1 in SlugSet(n) {
        var e :| e in n && l == (postId, e.slug);
        var k :| 0 <= k < |n| && n[k] == e;
        assert Slugs(n)[k] == e.slug;
      }
      assert UnlinkStale(t1.links, postId, SlugSet(n)) + LinkSet(postId, n) == t1.links;
    }
  }

  /** After reconciling, the post is linked to exactly the listed slugs,
      every listed slug has a Tag row with its listed name, no Tag row is
      deleted, and Tag rows outside the list keep their names. */
  lemma ReconcileResult(t: Tables, postId: PostId, n: seq<TagEntry>)
    requires UniqueSlugs(n)
    ensures var t' := Reconcile(t, postId, n);
      && PostSlugs(t'.links, postId) == SlugSet(n)
      && t'.tags.Keys == t.tags.Keys + SlugSet(n)
      && (forall k :: 0 <= k < |n| ==> t'.tags[n[k].slug] == n[k].name)
      && (forall s :: s in t.tags && s !in SlugSet(n) ==> t'.tags[s] == t.tags[s])
  {
    var t' := Reconcile(t, postId, n);
    if n == [] {
      assert PostSlugs(t'.links, postId) == {};
    } else {
      UpsertTagsSpec(t.tags, n);
      forall s | s in SlugSet(n) ensures s in PostSlugs(t'.links, postId) {
        var k :| 0 <= k < |n| && Slugs(n)[k] == s;
        assert n[k] in n;
        assert (postId, s) in LinkSet(postId, n);
      }
      forall s | s in PostSlugs(t'.links, postId) ensures s in SlugSet(n) {
        var l :| l in t'.links && l.0 == postId && l.1 == s;
        if l in LinkSet(postId, n) {
          var e :| e in n && l == (postId, e.slug);
          var k :| 0 <= k < |n| && n[k] == e;
          assert Slugs(n)[k] == s;
        }
      }
    }
  }

  /** Every cleaned tag keeps a letter or digit once lower-cased, so no
      slug of the list falls back to `post-<now>`. */
  predicate ClockFree(tags: seq<string>)
  {
    forall k :: 0 <= k < |CleanTags(tags)| ==> AlnumOnly(Lower(CleanTags(tags)[k])) != []
  }

  /** Such a list normalises the same way whatever the clock says. */
  lemma NormalizeIgnoresClock(tags: seq<string>, now1: nat, now2: nat, format: string -> string)
    requires ClockFree(tags)
    ensures Normalize(tags, now1, format) == Normalize(tags, now2, format)
  {
    var c := CleanTags(tags);
    forall k | 0 <= k < |c| ensures Slugify(c[k], now1) == Slugify(c[k], now2) {
      SlugifyIgnoresClock(c[k], now1, now2);
    }
    assert RawEntries(tags, now1, format) == RawEntries(tags, now2, format);
  }

  /** Syncing the same input a second time, at any later clock, leaves the
      state syncing once does, provided no tag of the list needs the
      `post-<now>` fallback. */
  lemma SyncIdempotent(t: Tables, postId: PostId, input: Option<seq<string>>, now1: nat, now2: nat,
                       format: string -> string)
    requires input.Some? ==> ClockFree(input.value)
    ensures SyncSpec(SyncSpec(t, postId, input, now1, format), postId, input, now2, format)
         == SyncSpec(t, postId, input, now1, format)
  {
    if input.Some? {
      NormalizeIgnoresClock(input.value, now1, now2, format);
      NormalizeShape(input.value, now1, format);
      ReconcileIdempotent(t, postId, Normalize(input.value, now1, format));
    }
  }

  /** A one-tag list whose tag has no letter or digit once lower-cased
      links the post to `post-<now>` alone. */
  lemma SyncFallbackTag(t: Tables, postId: PostId, w: string, now: nat, format: string -> string)
    requires w != [] && Trim(w) == w && AlnumOnly(Lower(w)) == []
    ensures PostSlugs(SyncSpec(t, postId, Some([w]), now, format).links, postId) == {"post-" + NatToString(now)}
  {
    assert TrimAll([w]) == [w];
    DropEmptyNonBlank([w]);
    SlugifyContent(w, now);
    FallbackIsSlug(now);
    SyncOneSlug(t, postId, [w], now, format, "post-" + NatToString(now));
  }

  /** Without that proviso a second sync at another clock moves the post
      to a new fallback tag, so the state changes. */
  lemma SyncAtTwoClocks(t: Tables, postId: PostId, w: string, now1: nat, now2: nat, format: string -> string)
    requires w != [] && Trim(w) == w && AlnumOnly(Lower(w)) == [] && now1 != now2
    ensures SyncSpec(SyncSpec(t, postId, Some([w]), now1, format), postId, Some([w]), now2, format)
         != SyncSpec(t, postId, Some([w]), now1, format)
  {
    var t1 := SyncSpec(t, postId, Some([w]), now1, format);
    SyncFallbackTag(t, postId, w, now1, format);
    SyncFallbackTag(t1, postId, w, now2, format);
    FallbackSlugsDiffer(now1, now2);
  }

  /** Fallback slugs at different clocks differ. */
  lemma FallbackSlugsDiffer(now1: nat, now2: nat)
    requires now1 != now2
    ensures {"post-" + NatToString(now1)} != {"post-" + NatToString(now2)}
  {
    var a, b := "post-" + NatToString(now1), "post-" + NatToString(now2);
    assert a[5..] == NatToString(now1) && b[5..] == NatToString(now2);
    if NatToString(now1) == NatToString(now2) {
      NatToStringInjective(now1, now2);
    }
    assert a !in {b};
  }

  /** The tag `"!!"` submitted at clock 1 and again at clock 2. */
  lemma SyncBangsAtTwoClocks(t: Tables, postId: PostId, format: string -> string)
    ensures SyncSpec(SyncSpec(t, postId, Some(["!!"]), 1, format), postId, Some(["!!"]), 2, format)
         != SyncSpec(t, postId, Some(["!!"]), 1, format)
  {
    BangsHaveNoAlnum();
    SyncAtTwoClocks(t, postId, "!!", 1, 2, format);
  }

  /** `"!!"` is already trimmed and has no letter or digit. */
  lemma BangsHaveNoAlnum()
    ensures Trim("!!") == "!!" && AlnumOnly(Lower("!!")) == []
  {
    var w := "!!";
    assert Lower(w) == w;
    assert AlnumOnly(w[1..]) == [];
  }

  /** An absent tag list changes nothing; links of other posts are never
      touched. */
  lemma SyncFrame(t: Tables, postId: PostId, input: Option<seq<string>>, now: nat,
                  format: string -> string)
    ensures input.None? ==> SyncSpec(t, postId, input, now, format) == t
    ensures forall l: (PostId, Slug) :: l.0 != postId ==> (l in SyncSpec(t, postId, input, now, format).links <==> l in t.links)
  {
  }

  /** After a sync with a list, the post is linked to exactly the
      normalised slugs (none when the list normalises to nothing), every
      normalised slug has a Tag row named after its last submission, no Tag
      row is deleted, and Tag rows outside the list keep their names. */
  lemma SyncResult(t: Tables, postId: PostId, tags: seq<string>, now: nat, format: string -> string)
    ensures var n, t' := Normalize(tags, now, format), SyncSpec(t, postId, Some(tags), now, format);
      && PostSlugs(t'.links, postId) == SlugSet(n)
      && t'.tags.Keys == t.tags.Keys + SlugSet(n)
      && (forall k :: 0 <= k < |n| ==> t'.tags[n[k].slug] == n[k].name)
      && (forall s :: s in t.tags && s !in SlugSet(n) ==> t'.tags[s] == t.tags[s])
  {
    NormalizeShape(tags, now, format);
    ReconcileResult(t, postId, Normalize(tags, now, format));
  }

  /** Trimming removes one space on either side of a word and leaves the
      word itself alone. */
  lemma TrimWord(w: string)
    requires w != [] && !IsJsWhitespace(w[0]) && !IsJsWhitespace(w[|w| - 1])
    ensures Trim(w) == w && Trim([' '] + w + [' ']) == w
  {
    assert LeadingWhitespace(w) == 0 && TrailingWhitespace(w) == 0;
    assert w[0..] == w && w[..|w|] == w;
    var padded, tail := [' '] + w + [' '], w + [' '];
    assert padded[1..] == tail && tail[0] == w[0];
    assert LeadingWhitespace(tail) == 0;
    assert LeadingWhitespace(padded) == 1;
    assert TrimStart(padded) == tail;
    assert tail[..|tail| - 1] == w;
    assert TrailingWhitespace(tail) == 1;
  }

  /** Lower-casing turns no edge character into whitespace. */
  lemma LowerEdges(w: string)
    requires w != [] && !IsJsWhitespace(w[0]) && !IsJsWhitespace(w[|w| - 1])
    ensures var lw := Lower(w); lw != [] && !IsJsWhitespace(lw[0]) && !IsJsWhitespace(lw[|lw| - 1])
  {
  }

  /** Trimming a word, its lower-case form and the word padded with spaces
      gives the word, the lower-case form and the word. */
  lemma TrimSpellings(w: string)
    requires w != [] && !IsJsWhitespace(w[0]) && !IsJsWhitespace(w[|w| - 1])
    ensures TrimAll([w, Lower(w), [' '] + w + [' ']]) == [w, Lower(w), w]
  {
    var lw, padded := Lower(w), [' '] + w + [' '];
    TrimAllThree(w, lw, padded);
    LowerEdges(w);
    TrimWord(w);
    TrimWord(lw);
  }

  lemma TrimAllThree(a: string, b: string, c: string)
    ensures TrimAll([a, b, c]) == [Trim(a), Trim(b), Trim(c)]
  {
  }

  /** A word, its lower-case form and the word padded with spaces clean
      to the three words. */
  lemma CleanSpellings(w: string)
    requires w != [] && !IsJsWhitespace(w[0]) && !IsJsWhitespace(w[|w| - 1])
    ensures CleanTags([w, Lower(w), [' '] + w + [' ']]) == [w, Lower(w), w]
  {
    TrimSpellings(w);
    assert |Lower(w)| == |w|;
    DropEmptyNonBlank([w, Lower(w), w]);
  }

  /** Entries with distinct slugs have as many slugs as entries. */
  lemma {:induction false} SlugSetSize(es: seq<TagEntry>)
    requires UniqueSlugs(es)
    ensures |SlugSet(es)| == |es|
  {
    if es != [] {
      var init, e := es[..|es| - 1], es[|es| - 1];
      SlugSetSize(init);
      SlugsAppend(init, e);
      assert es == init + [e];
      assert SlugSet(es) == SlugSet(init) + {e.slug};
      forall k | 0 <= k < |init| ensures Slugs(init)[k] != e.slug {
        assert es[k] == init[k];
      }
    }
  }

  /** Entries that all share one slug of two characters or more collapse
      to the last of them. */
  lemma DedupOneSlug(raw: seq<TagEntry>, s: Slug)
    requires raw != [] && |s| > 1
    requires forall k :: 0 <= k < |raw| ==> raw[k].slug == s
    ensures Dedup(raw) == [raw[|raw| - 1]]
  {
    var n := Dedup(raw);
    DedupShape(raw);
    DedupSlugs(raw);
    DedupOrderAndNames(raw);
    assert Slugs(raw)[0] == s;
    assert s in Slugs(n);
    forall k | 0 <= k < |n| ensures n[k].slug == s {
      assert Slugs(n)[k] == n[k].slug;
      var q :| 0 <= q < |raw| && Slugs(raw)[q] == n[k].slug;
    }
    assert SlugSet(n) == {s} by {
      forall x ensures x in SlugSet(n) <==> x == s {
        if x in Slugs(raw) {
          var q :| 0 <= q < |raw| && Slugs(raw)[q] == x;
        }
      }
    }
    SlugSetSize(n);
    assert LastWith(raw, s) == Some(raw[|raw| - 1]);
    assert n == [n[0]];
  }

  /** Tags that differ only in case, spacing or punctuation, and so share
      one slug, become one entry named after the last of them. */
  lemma NormalizeOneSlug(tags: seq<string>, now: nat, format: string -> string, s: Slug)
    requires CleanTags(tags) != [] && |s| > 1
    requires forall k :: 0 <= k < |CleanTags(tags)| ==> Slugify(CleanTags(tags)[k], now) == s
    ensures var c := CleanTags(tags);
      Normalize(tags, now, format) == [TagEntry(s, format(c[|c| - 1]))]
  {
    var raw, c := RawEntries(tags, now, format), CleanTags(tags);
    RawEntriesSpec(tags, now, format);
    DedupOneSlug(raw, s);
  }

  /** A tag list that normalises to one entry links the post to that
      entry's slug alone and stores the tag under the entry's name. */
  lemma SyncOneEntry(t: Tables, postId: PostId, tags: seq<string>, now: nat, format: string -> string, e: TagEntry)
    requires Normalize(tags, now, format) == [e]
    ensures var t' := SyncSpec(t, postId, Some(tags), now, format);
      PostSlugs(t'.links, postId) == {e.slug} && e.slug in t'.tags && t'.tags[e.slug] == e.name
  {
    var n := [e];
    SyncResult(t, postId, tags, now, format);
    assert Slugs(n)[0] == e.slug;
    assert SlugSet(n) == {e.slug};
  }

  /** Submitting several spellings of one tag links the post to that single
      slug and stores the tag under the name of the last spelling. */
  lemma SyncOneSlug(t: Tables, postId: PostId, tags: seq<string>, now: nat, format: string -> string, s: Slug)
    requires CleanTags(tags) != [] && |s| > 1
    requires forall k :: 0 <= k < |CleanTags(tags)| ==> Slugify(CleanTags(tags)[k], now) == s
    ensures var c, t' := CleanTags(tags), SyncSpec(t, postId, Some(tags), now, format);
      PostSlugs(t'.links, postId) == {s} && s in t'.tags && t'.tags[s] == format(c[|c| - 1])
  {
    var c := CleanTags(tags);
    NormalizeOneSlug(tags, now, format, s);
    SyncOneEntry(t, postId, tags, now, format, TagEntry(s, format(c[|c| - 1])));
  }

  lemma SlugifyLower(w: string, now: nat)
    ensures Slugify(Lower(w), now) == Slugify(w, now)
  {
    SlugifyIgnoresCase(w, Lower(w), now);
  }

  /** When `a` and `b` get the same slug, the entries of `[a, b, a]` all
      carry it and the last is named after `a`. */
  lemma MapEntriesOneSlug(c: seq<string>, a: string, b: string, slug: string -> Slug,
                          format: string -> string, s: Slug)
    requires c == [a, b, a] && slug(a) == s && slug(b) == s
    ensures var raw := MapEntries(c, slug, format);
      && raw != []
      && (forall k :: 0 <= k < |raw| ==> raw[k].slug == s)
      && raw[|raw| - 1] == TagEntry(s, format(a))
  {
    var raw := MapEntries(c, slug, format);
    forall k | 0 <= k < |raw| ensures raw[k].slug == s {
      if k == 1 {
        assert c[k] == b;
      } else {
        assert c[k] == a;
      }
    }
  }

  /** The entries of a word, its lower-case form and the word padded with
      spaces all carry the word's slug. */
  lemma RawSpellings(w: string, now: nat, format: string -> string)
    requires w != [] && !IsJsWhitespace(w[0]) && !IsJsWhitespace(w[|w| - 1])
    ensures var s, raw := Slugify(w, now), RawEntries([w, Lower(w), [' '] + w + [' ']], now, format);
      && raw != []
      && (forall k :: 0 <= k < |raw| ==> raw[k].slug == s)
      && raw[|raw| - 1] == TagEntry(s, format(w))
  {
    CleanSpellings(w);
    SlugOfSpellings(w, now);
    MapEntriesOneSlug(CleanTags([w, Lower(w), [' '] + w + [' ']]), w, Lower(w), SlugOf(now), format, Slugify(w, now));
  }

  /** `slugify` gives a word and its lower-case form the same slug. */
  lemma SlugOfSpellings(w: string, now: nat)
    ensures SlugOf(now)(w) == Slugify(w, now) && SlugOf(now)(Lower(w)) == Slugify(w, now)
  {
    SlugifyLower(w, now);
  }

  /** A word, its lower-case form and the word padded with spaces normalise
      to one entry: the word's slug, named after the word. */
  lemma NormalizeSpellings(w: string, now: nat, format: string -> string)
    requires w != [] && !IsJsWhitespace(w[0]) && !IsJsWhitespace(w[|w| - 1])
    requires |Slugify(w, now)| > 1
    ensures Normalize([w, Lower(w), [' '] + w + [' ']], now, format) == [TagEntry(Slugify(w, now), format(w))]
  {
    RawSpellings(w, now, format);
    DedupOneSlug(RawEntries([w, Lower(w), [' '] + w + [' ']], now, format), Slugify(w, now));
  }

  /** Submitting a tag as written, in lower case and padded with spaces
      (`["React", "react", " React "]`, say, which `ReactIsSpellable` shows
      to be covered) links the post to one slug and names the tag after the
      word. The first and last spellings trim to the same word, so this does
      not tell the last submission from the first: `LastWithIsLast` does. */
  lemma SyncSpellings(t: Tables, postId: PostId, w: string, now: nat, format: string -> string)
    requires w != [] && !IsJsWhitespace(w[0]) && !IsJsWhitespace(w[|w| - 1])
    requires |Slugify(w, now)| > 1
    ensures var s, t' := Slugify(w, now), SyncSpec(t, postId, Some([w, Lower(w), [' '] + w + [' ']]), now, format);
      PostSlugs(t'.links, postId) == {s} && s in t'.tags && t'.tags[s] == format(w)
  {
    NormalizeSpellings(w, now, format);
    SyncOneEntry(t, postId, [w, Lower(w), [' '] + w + [' ']], now, format, TagEntry(Slugify(w, now), format(w)));
  }

  /** A word whose lower-cased form has two letters or digits slugs to more
      than one character. */
  lemma TwoAlnumsSlug(w: string, i: nat, j: nat, now: nat)
    requires i < j < |w| && IsSlugAlnum(Lower(w)[i]) && IsSlugAlnum(Lower(w)[j])
    ensures |Slugify(w, now)| > 1
  {
    var l := Lower(w);
    assert l == l[..j] + l[j..];
    AlnumOnlyEmpty(l[..j]);
    assert l[..j][i] == l[i];
    AlnumOnlyEmpty(l[j..]);
    assert l[j..][0] == l[j];
    AlnumOnlyAppend(l[..j], l[j..]);
    SlugifyContent(w, now);
  }

  /** `"React"` meets the requirements of `SyncSpellings`: it has no
      surrounding whitespace and its slug is longer than one character. */
  lemma ReactIsSpellable(now: nat)
    ensures var w := "React";
      w != [] && !IsJsWhitespace(w[0]) && !IsJsWhitespace(w[|w| - 1]) && |Slugify(w, now)| > 1
  {
    var w := "React";
    assert w[1] == 'e' && w[2] == 'a';
    TwoAlnumsSlug(w, 1, 2, now);
  }

  /** The Tag and PostTag tables, updated in place by `syncTags`. */
  class TagStore {
    var tags: map<Slug, string>
    var links: set<(PostId, Slug)>

    /** The contents of the two tables. */
    function State(): Tables
      reads this
    {
      Tables(tags, links)
    }

    constructor (tags: map<Slug, string>, links: set<(PostId, Slug)>)
      ensures State() == Tables(tags, links)
    {
      this.tags := tags;
      this.links := links;
    }

    /** `syncTags(postId, input)`; `None` stands for `undefined`. */
    method SyncTags(postId: PostId, input: Option<seq<string>>, now: nat, format: string -> string)
      modifies this
      ensures State() == SyncSpec(old(State()), postId, input, now, format)
    {
      if input.None? {
        return;
      }
      var sanitized := Normalize(input.value, now, format);
      if |sanitized| == 0 {
        links := UnlinkAll(links, postId);
        return;
      }
      links := UnlinkStale(links, postId, SlugSet(sanitized));
      UpsertAll(postId, sanitized);
    }

    /** The `for (const tag of sanitized)` loop: upsert the Tag row, then the
        PostTag row, of each entry in turn. */
    method UpsertAll(postId: PostId, sanitized: seq<TagEntry>)
      modifies this
      ensures tags == UpsertTags(old(tags), sanitized)
      ensures links == old(links) + LinkSet(postId, sanitized)
    {
      var i := 0;
      while i < |sanitized|
        invariant 0 <= i <= |sanitized|
        invariant tags == UpsertTags(old(tags), sanitized[..i])
        invariant links == old(links) + LinkSet(postId, sanitized[..i])
      {
        var tag := sanitized[i];
        UpsertTagsStep(old(tags), sanitized, i);
        LinkSetStep(postId, sanitized, i);
        tags := tags[tag.slug := tag.name];
        links := links + {(postId, tag.slug)};
        i := i + 1;
      }
      assert sanitized[..i] == sanitized;
    }
  }
}
