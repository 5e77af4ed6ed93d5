/** lib/utils.ts: the class-name joiner `cn` and `slugify`, which turns a
    title or a tag into a URL-safe identifier. */
module Utils {
  import opened JsText

  // ---------------------------------------------------------------------
  // cn
  // ---------------------------------------------------------------------

  /** One argument of `cn`: a string, `undefined`, `null` or `false`. */
  datatype ClassValue = Str(s: string) | Undefined | Null | False

  /** JavaScript truthiness of a `cn` argument: only a non-empty string. */
  predicate Truthy(c: ClassValue)
  {
    c.Str? && c.s != ""
  }

  /** `classes.filter(Boolean)`, as strings. */
  function TruthyStrings(classes: seq<ClassValue>): (r: seq<string>)
    ensures |r| <= |classes|
    ensures forall k :: 0 <= k < |r| ==> r[k] != ""
    ensures |classes| == 1 && Truthy(classes[0]) ==> r == [classes[0].s]
    ensures |classes| == 1 && !Truthy(classes[0]) ==> r == []
  {
    if classes == [] then []
    else if Truthy(classes[0]) then [classes[0].s] + TruthyStrings(classes[1..])
    else TruthyStrings(classes[1..])
  }

  /** `cn(...classes)`: the truthy arguments joined by single spaces. */
  function Cn(classes: seq<ClassValue>): (r: string)
    ensures (forall k :: 0 <= k < |classes| ==> !Truthy(classes[k])) ==> r == ""
    ensures |classes| == 1 && Truthy(classes[0]) ==> r == classes[0].s
  {
    TruthyStringsEmpty(classes);
    Join(TruthyStrings(classes), " ")
  }

  /** Filtering a concatenation filters each part, keeping their order. */
  lemma {:induction false} TruthyStringsAppend(a: seq<ClassValue>, b: seq<ClassValue>)
    ensures TruthyStrings(a + b) == TruthyStrings(a) + TruthyStrings(b)
  {
    if a == [] {
      assert a + b == b;
    } else {
      assert (a + b)[1..] == a[1..] + b;
      TruthyStringsAppend(a[1..], b);
    }
  }

  /** Arguments that both contribute a class are joined with one space
      between them; an argument list without a truthy value contributes
      nothing. */
  lemma CnAppend(a: seq<ClassValue>, b: seq<ClassValue>)
    ensures TruthyStrings(a) != [] && TruthyStrings(b) != [] ==> Cn(a + b) == Cn(a) + " " + Cn(b)
    ensures TruthyStrings(a) == [] ==> Cn(a + b) == Cn(b)
    ensures TruthyStrings(b) == [] ==> Cn(a + b) == Cn(a)
  {
    TruthyStringsAppend(a, b);
    if TruthyStrings(a) != [] && TruthyStrings(b) != [] {
      JoinAppend(TruthyStrings(a), TruthyStrings(b), " ");
    } else if TruthyStrings(a) == [] {
      assert TruthyStrings(a + b) == TruthyStrings(b);
    } else {
      assert TruthyStrings(a + b) == TruthyStrings(a);
    }
  }

  /** A truthy argument that contains no space stays one word of the
      result. */
  predicate SingleWord(c: ClassValue)
  {
    c.Str? ==> ' ' !in c.s
  }

  lemma {:induction false} TruthyStringsEmpty(classes: seq<ClassValue>)
    ensures TruthyStrings(classes) == [] <==> forall k :: 0 <= k < |classes| ==> !Truthy(classes[k])
  {
    if classes != [] {
      TruthyStringsEmpty(classes[1..]);
      if !Truthy(classes[0]) {
        forall k | 1 <= k < |classes| ensures classes[k] == classes[1..][k - 1] { }
      }
    }
  }

  lemma {:induction false} TruthyStringsSingleWords(classes: seq<ClassValue>)
    requires forall k :: 0 <= k < |classes| ==> SingleWord(classes[k])
    ensures forall k :: 0 <= k < |TruthyStrings(classes)| ==> ' ' !in TruthyStrings(classes)[k]
  {
    if classes != [] {
      TruthyStringsSingleWords(classes[1..]);
    }
  }

  /** Splitting `cn`'s result on spaces recovers exactly the truthy
      arguments, in order, when none of them contains a space; with no
      truthy argument the result is the empty string. */
  lemma CnSplitsBack(classes: seq<ClassValue>)
    requires forall k :: 0 <= k < |classes| ==> SingleWord(classes[k])
    ensures TruthyStrings(classes) == [] ==> Cn(classes) == ""
    ensures TruthyStrings(classes) != [] ==> Split(Cn(classes), ' ') == TruthyStrings(classes)
  {
    TruthyStringsSingleWords(classes);
    if TruthyStrings(classes) != [] {
      SplitJoin(TruthyStrings(classes), ' ');
    }
  }

  // ---------------------------------------------------------------------
  // slugify
  // ---------------------------------------------------------------------

  predicate IsAsciiUpper(c: char) { 'A' <= c <= 'Z' }

  /** `toLowerCase` on one character, for ASCII letters only. */
  function LowerChar(c: char): (r: char)
    ensures !IsAsciiUpper(r)
    ensures IsAsciiUpper(c) ==> r as int == c as int + 32
    ensures !IsAsciiUpper(c) ==> r == c
  {
    if IsAsciiUpper(c) then (c as int - 'A' as int + 'a' as int) as char else c
  }

  function Lower(s: string): (r: string)
    ensures |r| == |s|
    ensures forall i :: 0 <= i < |s| ==> r[i] == LowerChar(s[i])
  {
    seq(|s|, i requires 0 <= i < |s| => LowerChar(s[i]))
  }

  /** The characters `[a-z0-9]` that survive into a slug. */
  predicate IsSlugAlnum(c: char)
  {
    ('a' <= c <= 'z') || ('0' <= c <= '9')
  }

  predicate IsSlugChar(c: char)
  {
    IsSlugAlnum(c) || c == '-'
  }

  predicate SlugChars(s: string)
  {
    forall i :: 0 <= i < |s| ==> IsSlugChar(s[i])
  }

  predicate NoDoubleHyphen(s: string)
  {
    forall i :: 0 <= i < |s| - 1 ==> !(s[i] == '-' && s[i + 1] == '-')
  }

  predicate NoEdgeHyphen(s: string)
  {
    s != [] ==> s[0] != '-' && s[|s| - 1] != '-'
  }

  /** The shape of every value `slugify` returns. */
  predicate IsSlug(s: string)
  {
    s != [] && SlugChars(s) && NoDoubleHyphen(s) && NoEdgeHyphen(s)
  }

  /** The letters and digits of `s`, in order. */
  function AlnumOnly(s: string): (r: string)
    ensures forall i :: 0 <= i < |r| ==> IsSlugAlnum(r[i])
  {
    if s == [] then []
    else (if IsSlugAlnum(s[0]) then [s[0]] else []) + AlnumOnly(s[1..])
  }

  lemma {:induction false} AlnumOnlyAppend(a: string, b: string)
    ensures AlnumOnly(a + b) == AlnumOnly(a) + AlnumOnly(b)
  {
    if a != [] {
      assert (a + b)[0] == a[0];
      assert (a + b)[1..] == a[1..] + b;
      AlnumOnlyAppend(a[1..], b);
    } else {
      assert a + b == b;
    }
  }

  /** `replace(/[^a-z0-9]+/g, "-")`: every maximal run of characters
      outside `[a-z0-9]` becomes a single hyphen. */
  function CollapseRuns(s: string): (r: string)
    ensures SlugChars(r) && NoDoubleHyphen(r)
    ensures AlnumOnly(r) == AlnumOnly(s)
    ensures r != [] && r[0] == '-' <==> s != [] && !IsSlugAlnum(s[0])
    ensures r == [] <==> s == []
  {
    if s == [] then []
    else
      var rest := CollapseRuns(s[1..]);
      if IsSlugAlnum(s[0]) then [s[0]] + rest
      else if rest != [] && rest[0] == '-' then rest
      else ['-'] + rest
  }

  /** A run of characters outside `[a-z0-9]`. */
  predicate NonAlnumRun(g: string)
  {
    forall i :: 0 <= i < |g| ==> !IsSlugAlnum(g[i])
  }

  /** Text that ends in a letter or digit is collapsed on its own: what
      follows it cannot join one of its runs. */
  lemma {:induction false} CollapseRunsAfterAlnum(a: string, t: string)
    requires a != [] && IsSlugAlnum(a[|a| - 1])
    ensures CollapseRuns(a + t) == CollapseRuns(a) + CollapseRuns(t)
  {
    if |a| == 1 {
      assert (a + t)[1..] == t && a[1..] == [];
    } else {
      var c, u := a[0], a[1..];
      CollapseRunsAfterAlnum(u, t);
      CollapseRunsAfterAlnumStep(c, u, t);
      ConsSplit(a, t);
    }
  }

  /** The inductive step of `CollapseRunsAfterAlnum`, one character in
      front. */
  lemma CollapseRunsAfterAlnumStep(c: char, u: string, t: string)
    requires u != []
    requires CollapseRuns(u + t) == CollapseRuns(u) + CollapseRuns(t)
    ensures CollapseRuns([c] + (u + t)) == CollapseRuns([c] + u) + CollapseRuns(t)
  {
    var x, y := CollapseRuns(u), CollapseRuns(t);
    assert (u + t)[0] == u[0];
    CollapseRunsCons(c, u + t);
    CollapseRunsCons(c, u);
    if IsSlugAlnum(c) {
      ConcatAssoc([c], x, y);
    } else if IsSlugAlnum(u[0]) {
      ConcatAssoc("-", x, y);
    }
  }

  /** A string is its first character followed by the rest. */
  lemma ConsSplit(a: string, t: string)
    requires a != []
    ensures a == [a[0]] + a[1..] && a + t == [a[0]] + (a[1..] + t)
  {
  }

  /** Concatenation is associative. */
  lemma ConcatAssoc(p: string, q: string, r: string)
    ensures p + (q + r) == (p + q) + r
  {
  }

  /** One step of the replace, from the front. */
  lemma CollapseRunsCons(c: char, u: string)
    ensures IsSlugAlnum(c) ==> CollapseRuns([c] + u) == [c] + CollapseRuns(u)
    ensures !IsSlugAlnum(c) && u != [] && !IsSlugAlnum(u[0]) ==> CollapseRuns([c] + u) == CollapseRuns(u)
    ensures !IsSlugAlnum(c) && (u == [] || IsSlugAlnum(u[0])) ==> CollapseRuns([c] + u) == "-" + CollapseRuns(u)
  {
    assert ([c] + u)[1..] == u;
  }

  /** A run before a letter or digit becomes exactly one hyphen. */
  lemma {:induction false} CollapseRunsOfRun(g: string, b: string)
    requires g != [] && NonAlnumRun(g)
    requires b != [] && IsSlugAlnum(b[0])
    ensures CollapseRuns(g + b) == "-" + CollapseRuns(b)
  {
    assert (g + b)[1..] == g[1..] + b;
    if |g| > 1 {
      CollapseRunsOfRun(g[1..], b);
    } else {
      assert g[1..] + b == b;
    }
  }

  /** Each maximal run between two letters or digits becomes one hyphen at
      that place. */
  lemma CollapseRunsBetween(a: string, g: string, b: string)
    requires a != [] && IsSlugAlnum(a[|a| - 1])
    requires g != [] && NonAlnumRun(g)
    requires b != [] && IsSlugAlnum(b[0])
    ensures CollapseRuns(a + g + b) == CollapseRuns(a) + "-" + CollapseRuns(b)
  {
    assert a + g + b == a + (g + b);
    CollapseRunsAfterAlnum(a, g + b);
    CollapseRunsOfRun(g, b);
  }

  /** `r` is `s[i..j]` where `i` is 1 only past a leading hyphen and `j`
      falls short of the end only before a trailing hyphen. */
  predicate StripsAt(s: string, r: string, i: int)
  {
    0 <= i <= 1 && i + |r| <= |s| <= i + |r| + 1 && r == s[i..i + |r|] &&
    (i == 1 ==> s[0] == '-') && (i + |r| < |s| ==> s[|s| - 1] == '-')
  }

  /** `replace(/(^-|-$)+/g, "")`: drops one hyphen at the start and one at
      the end, and nothing else. */
  function StripEdgeHyphens(s: string): (r: string)
    ensures SlugChars(s) && NoDoubleHyphen(s) ==> SlugChars(r) && NoDoubleHyphen(r) && NoEdgeHyphen(r)
    ensures AlnumOnly(r) == AlnumOnly(s)
    ensures exists i :: StripsAt(s, r, i)
  {
    var t := DropFirstHyphen(s);
    var r := DropLastHyphen(t);
    assert StripsAt(s, r, |s| - |t|) by {
      assert t == s[|s| - |t|..] && r == t[..|r|];
    }
    r
  }

  function DropFirstHyphen(s: string): (r: string)
    ensures SlugChars(s) && NoDoubleHyphen(s) ==> SlugChars(r) && NoDoubleHyphen(r)
    ensures NoDoubleHyphen(s) ==> r == [] || r[0] != '-'
    ensures |r| <= |s| <= |r| + 1 && r == s[|s| - |r|..]
    ensures |r| < |s| ==> s[0] == '-'
    ensures AlnumOnly(r) == AlnumOnly(s)
  {
    if s != [] && s[0] == '-' then
      assert s == ['-'] + s[1..];
      AlnumOnlyAppend(['-'], s[1..]);
      s[1..]
    else s
  }

  function DropLastHyphen(s: string): (r: string)
    ensures SlugChars(s) && NoDoubleHyphen(s) ==> SlugChars(r) && NoDoubleHyphen(r)
    ensures NoDoubleHyphen(s) ==> r == [] || r[|r| - 1] != '-'
    ensures |r| <= |s| <= |r| + 1 && r == s[..|r|]
    ensures |r| < |s| ==> s[|s| - 1] == '-'
    ensures AlnumOnly(r) == AlnumOnly(s)
  {
    if s != [] && s[|s| - 1] == '-' then
      assert s == s[..|s| - 1] + ['-'];
      AlnumOnlyAppend(s[..|s| - 1], ['-']);
      s[..|s| - 1]
    else s
  }

  lemma AlnumOnlyTrimStart(s: string)
    ensures AlnumOnly(TrimStart(s)) == AlnumOnly(s)
  {
    var n := LeadingWhitespace(s);
    var w := s[..n];
    WhitespaceHasNoAlnum(w);
    assert s == w + TrimStart(s);
    AlnumOnlyAppend(w, TrimStart(s));
  }

  lemma AlnumOnlyTrimEnd(s: string)
    ensures AlnumOnly(TrimEnd(s)) == AlnumOnly(s)
  {
    var n := TrailingWhitespace(s);
    var w := s[|s| - n..];
    WhitespaceHasNoAlnum(w);
    assert s == TrimEnd(s) + w;
    AlnumOnlyAppend(TrimEnd(s), w);
  }

  lemma AlnumOnlyTrim(s: string)
    ensures AlnumOnly(Trim(s)) == AlnumOnly(s)
  {
    AlnumOnlyTrimStart(s);
    AlnumOnlyTrimEnd(TrimStart(s));
  }

  lemma {:induction false} WhitespaceHasNoAlnum(w: string)
    requires forall i :: 0 <= i < |w| ==> IsJsWhitespace(w[i])
    ensures AlnumOnly(w) == []
  {
    if w != [] {
      WhitespaceHasNoAlnum(w[1..]);
    }
  }

  /** The cleaned base of `slugify`, before the empty-base fallback. */
  function SlugBase(input: string): string
  {
    StripEdgeHyphens(CollapseRuns(Trim(Lower(input))))
  }

  /** `slugify(input)` where `Date.now()` returned `now`. */
  function Slugify(input: string, now: nat): (r: string)
    ensures IsSlug(r)
  {
    var base := SlugBase(input);
    if |base| == 0 then
      FallbackIsSlug(now);
      "post-" + NatToString(now)
    else base
  }

  /** The fallback `post-${Date.now()}` has the slug shape. */
  lemma FallbackIsSlug(now: nat)
    ensures IsSlug("post-" + NatToString(now))
  {
    var d := NatToString(now);
    var r := "post-" + d;
    assert r[..5] == "post-" && r[5..] == d;
    forall i | 0 <= i < |r| ensures IsSlugChar(r[i]) {
      if i >= 5 {
        assert r[i] == d[i - 5];
      }
    }
    forall i | 0 <= i < |r| - 1 ensures !(r[i] == '-' && r[i + 1] == '-') {
      if i >= 4 {
        assert r[i + 1] == d[i - 4];
      }
    }
    assert r[|r| - 1] == d[|d| - 1];
  }

  /** The characters of the cleaned base are exactly the ASCII letters and
      digits of the lower-cased input, in order. */
  lemma SlugBaseKeepsAlnums(input: string)
    ensures AlnumOnly(SlugBase(input)) == AlnumOnly(Lower(input))
  {
    AlnumOnlyTrim(Lower(input));
  }

  lemma {:induction false} AlnumOnlyEmpty(s: string)
    ensures AlnumOnly(s) == [] <==> forall i :: 0 <= i < |s| ==> !IsSlugAlnum(s[i])
  {
    if s != [] {
      AlnumOnlyEmpty(s[1..]);
      assert forall i :: 1 <= i < |s| ==> s[i] == s[1..][i - 1];
    }
  }

  /** A string of hyphens and letters with no letter and no `--` is at most
      one hyphen long. */
  lemma NoAlnumIsShort(s: string)
    requires SlugChars(s) && NoDoubleHyphen(s) && AlnumOnly(s) == []
    ensures |s| <= 1
  {
    AlnumOnlyEmpty(s);
  }

  /** `slugify` falls back to `post-<now>` exactly when the lower-cased
      input has no ASCII letter or digit; otherwise it keeps those letters
      and digits, in order, and nothing else but single hyphens. */
  lemma SlugifyContent(input: string, now: nat)
    ensures AlnumOnly(Lower(input)) == [] ==> Slugify(input, now) == "post-" + NatToString(now)
    ensures AlnumOnly(Lower(input)) != [] ==> AlnumOnly(Slugify(input, now)) == AlnumOnly(Lower(input))
  {
    SlugBaseKeepsAlnums(input);
    var c := CollapseRuns(Trim(Lower(input)));
    if AlnumOnly(Lower(input)) == [] {
      NoAlnumIsShort(c);
    }
  }

  /** An input that keeps a letter or digit gets the same slug whatever the
      clock says. */
  lemma SlugifyIgnoresClock(input: string, now1: nat, now2: nat)
    requires AlnumOnly(Lower(input)) != []
    ensures Slugify(input, now1) == Slugify(input, now2)
  {
    SlugBaseKeepsAlnums(input);
  }

  lemma {:induction false} CollapseRunsOfSlug(s: string)
    requires SlugChars(s) && NoDoubleHyphen(s)
    ensures CollapseRuns(s) == s
  {
    if s != [] {
      CollapseRunsOfSlug(s[1..]);
      if !IsSlugAlnum(s[0]) {
        assert |s| > 1 ==> s[1] != '-';
      }
    }
  }

  /** `slugify` is idempotent, whatever the clock says on either call. */
  lemma SlugifyIdempotent(input: string, now: nat, later: nat)
    ensures Slugify(Slugify(input, now), later) == Slugify(input, now)
  {
    SlugBaseOfSlug(Slugify(input, now));
  }

  /** Every stage of `slugify` leaves a slug as it is. */
  lemma SlugBaseOfSlug(s: string)
    requires IsSlug(s)
    ensures SlugBase(s) == s
  {
    LowerOfSlugChars(s);
    TrimOfSlugChars(s);
    CollapseRunsOfSlug(s);
    assert StripEdgeHyphens(s) == s;
  }

  lemma LowerOfSlugChars(s: string)
    requires SlugChars(s)
    ensures Lower(s) == s
  {
    assert forall i :: 0 <= i < |s| ==> Lower(s)[i] == s[i];
  }

  lemma TrimOfSlugChars(s: string)
    requires SlugChars(s)
    ensures Trim(s) == s
  {
    assert forall i :: 0 <= i < |s| ==> !IsJsWhitespace(s[i]);
  }

  /** Inputs that differ only in the case of ASCII letters give the same
      slug. */
  lemma SlugifyIgnoresCase(a: string, b: string, now: nat)
    requires |a| == |b| && forall i :: 0 <= i < |a| ==> LowerChar(a[i]) == LowerChar(b[i])
    ensures Slugify(a, now) == Slugify(b, now)
  {
    assert Lower(a) == Lower(b);
  }
}
