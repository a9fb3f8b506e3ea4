/**
 * The permalink route matchers of serve.go (matchListRoute, matchLangRoute,
 * matchTagRoute, matchAuthorRoute).
 *
 * Each matcher builds an anchored regular expression from a permalink and
 * tests the request path against it. Here the expression is a sequence of
 * tokens: a literal character of the permalink, the closed language
 * alternation, the segment class `[a-z0-9-%]+`, the year segment `\d{4}/` and
 * its optional form `(\d{4}/)?`. Placeholders are replaced the way Go's
 * strings.Replace(..., 1) does it, by first occurrence only, on the token
 * sequence. `Matches` tries every split of the path, which is what an anchored
 * MatchString decides.
 */
module Routes {
  import opened Seqs

  datatype Token =
    | Lit(c: char)   // a literal character of the permalink
    | LangAlt        // (en|zh|ja|zh-hans|zh-hant|es)
    | SegPlus        // [a-z0-9-%]+
    | Year           // \d{4}/
    | OptYear        // (\d{4}/)?

  const LangCodes: seq<string> := ["en", "zh", "ja", "zh-hans", "zh-hant", "es"]

  /** The regular-expression text Go substitutes for each placeholder and suffix. */
  const LangGroup: string := "(en|zh|ja|zh-hans|zh-hant|es)"
  const SegmentClass: string := "[a-z0-9-%]+"
  const YearText: string := "\\d{4}/"
  const OptYearText: string := "(\\d{4}/)?"

  /** Characters with a meaning in RE2 syntax outside a class (braces aside). */
  const RegexMeta: string := "\\.+*?()|[]^$"

  /**
   * A permalink whose text stands for itself inside a Go regular expression:
   * no metacharacter, and no brace that could start a repeat such as `{4}`.
   * A brace that cannot start a repeat (`{lang}`, `{slug}`) is a literal in Go.
   */
  predicate PlainPermalink(p: string) {
    forall i :: 0 <= i < |p| ==>
      p[i] !in RegexMeta && (p[i] == '{' && i + 1 < |p| ==> !IsAsciiDigit(p[i + 1]))
  }

  predicate IsAsciiDigit(c: char) {
    '0' <= c <= '9'
  }

  predicate IsSegmentChar(c: char) {
    'a' <= c <= 'z' || '0' <= c <= '9' || c == '-' || c == '%'
  }

  /** A word of `[a-z0-9-%]+`. */
  predicate IsSegment(w: string) {
    |w| >= 1 && forall i :: 0 <= i < |w| ==> IsSegmentChar(w[i])
  }

  /** A word of `\d{4}/`. */
  predicate IsYearSegment(w: string) {
    |w| == 5 && IsAsciiDigit(w[0]) && IsAsciiDigit(w[1]) && IsAsciiDigit(w[2])
    && IsAsciiDigit(w[3]) && w[4] == '/'
  }

  /** A word of `(\d{4}/)?`. */
  predicate IsOptionalYear(w: string) {
    w == [] || IsYearSegment(w)
  }

  /** The words one token matches. */
  predicate Accepts(t: Token, w: string) {
    match t
    case Lit(c) => w == [c]
    case LangAlt => w in LangCodes
    case SegPlus => IsSegment(w)
    case Year => IsYearSegment(w)
    case OptYear => IsOptionalYear(w)
  }

  /** The anchored pattern `^toks$` matches the whole of `path`. */
  predicate Matches(toks: seq<Token>, path: string)
    decreases |toks|
  {
    if toks == [] then path == []
    else exists k :: 0 <= k <= |path| && Accepts(toks[0], path[..k]) && Matches(toks[1..], path[k..])
  }

  /** The permalink text as literal tokens. */
  function Lits(s: string): (t: seq<Token>)
    ensures |t| == |s|
  {
    seq(|s|, i requires 0 <= i < |s| => Lit(s[i]))
  }

  const LangPlaceholder: string := "{lang}"
  const SlugPlaceholder: string := "{slug}"
  const UsernamePlaceholder: string := "{username}"

  // ---------------------------------------------------------------------------
  // Pattern compilation (serve.go:92, 97-98, 103-105, 110-111)

  function ListPattern(permalink: string): seq<Token> {
    Lits(permalink) + [Year]
  }

  function LangCore(permalink: string): seq<Token> {
    ReplaceFirst(Lits(permalink), Lits(LangPlaceholder), [LangAlt])
  }

  function LangPattern(permalink: string): seq<Token> {
    LangCore(permalink) + [OptYear]
  }

  function TagCore(permalink: string): seq<Token> {
    ReplaceFirst(LangCore(permalink), Lits(SlugPlaceholder), [SegPlus])
  }

  function TagPattern(permalink: string): seq<Token> {
    TagCore(permalink) + [OptYear]
  }

  function AuthorCore(permalink: string): seq<Token> {
    ReplaceFirst(Lits(permalink), Lits(UsernamePlaceholder), [SegPlus])
  }

  function AuthorPattern(permalink: string): seq<Token> {
    AuthorCore(permalink) + [OptYear]
  }

  // ---------------------------------------------------------------------------
  // The four matchers

  predicate MatchListRoute(permalink: string, path: string)
    requires PlainPermalink(permalink)
  {
    path == permalink || Matches(ListPattern(permalink), path)
  }

  predicate MatchLangRoute(permalink: string, path: string)
    requires PlainPermalink(permalink)
  {
    Matches(LangPattern(permalink), path)
  }

  predicate MatchTagRoute(permalink: string, path: string)
    requires PlainPermalink(permalink)
  {
    Matches(TagPattern(permalink), path)
  }

  predicate MatchAuthorRoute(permalink: string, path: string)
    requires PlainPermalink(permalink)
  {
    Matches(AuthorPattern(permalink), path)
  }

  // ---------------------------------------------------------------------------
  // Grounding: a token sequence with its placeholders filled in

  /** The text a token stands for when the language group reads `lang` and the segment reads `seg`. */
  function Piece(t: Token, lang: string, seg: string): string {
    match t
    case Lit(c) => [c]
    case LangAlt => lang
    case SegPlus => seg
    case Year => YearText
    case OptYear => OptYearText
  }

  function Ground(t: seq<Token>, lang: string, seg: string): string
    decreases |t|
  {
    if t == [] then [] else Piece(t[0], lang, seg) + Ground(t[1..], lang, seg)
  }

  /** The Go regular-expression source of a compiled pattern. */
  function RegexSource(t: seq<Token>): string {
    "^" + Ground(t, LangGroup, SegmentClass) + "$"
  }

  /** The text `x` followed by nothing or by one year segment is exactly `path`. */
  predicate MatchesWithOptionalYear(x: string, path: string) {
    IsPrefix(x, path) && IsOptionalYear(path[|x|..])
  }

  /** Tokens made only of literals and the two placeholder classes. */
  predicate IsCore(t: seq<Token>) {
    forall i :: 0 <= i < |t| ==> t[i].Lit? || t[i].LangAlt? || t[i].SegPlus?
  }

  /** Text that can stand where `{lang}` stood without forming part of a `{slug}`. */
  predicate SafeLangText(x: string) {
    |x| > 0 && x[0] !in "slug}" && forall j :: 0 <= j < |x| ==> x[j] != '{'
  }

  // ---------------------------------------------------------------------------
  // Lemmas about grounding

  lemma {:induction false} GroundAppend(a: seq<Token>, b: seq<Token>, lang: string, seg: string)
    ensures Ground(a + b, lang, seg) == Ground(a, lang, seg) + Ground(b, lang, seg)
    decreases |a|
  {
    if a == [] {
      assert a + b == b;
    } else {
      assert (a + b)[1..] == a[1..] + b;
      GroundAppend(a[1..], b, lang, seg);
    }
  }

  lemma {:induction false} GroundLits(s: string, lang: string, seg: string)
    ensures Ground(Lits(s), lang, seg) == s
    decreases |s|
  {
    if s != [] {
      assert Lits(s)[1..] == Lits(s[1..]);
      GroundLits(s[1..], lang, seg);
    }
  }

  lemma LitsSlice(s: string, i: int, j: int)
    requires 0 <= i <= j <= |s|
    ensures Lits(s)[i..j] == Lits(s[i..j])
  {
  }

  lemma LitsOccurs(s: string, pat: string, k: int)
    ensures OccursAt(Lits(s), Lits(pat), k) <==> OccursAt(s, pat, k)
  {
    if 0 <= k && k + |pat| <= |s| {
      LitsSlice(s, k, k + |pat|);
      if Lits(s[k..k + |pat|]) == Lits(pat) {
        assert forall j :: 0 <= j < |pat| ==> Lits(pat)[j] == Lit(pat[j]);
        assert s[k..k + |pat|] == pat;
      }
    }
  }

  /** Searching literal tokens finds what searching the text finds. */
  lemma FindLits(s: string, pat: string)
    ensures Find(Lits(s), Lits(pat)) == Find(s, pat)
  {
    forall k | true ensures OccursAt(Lits(s), Lits(pat), k) <==> OccursAt(s, pat, k) {
      LitsOccurs(s, pat, k);
    }
    match Find(s, pat)
    case None => FindNone(Lits(s), Lits(pat));
    case Some(j) => FindIsFirst(Lits(s), Lits(pat), j);
  }

  /**
   * Replacing the first occurrence of a literal pattern by one token, then
   * grounding, is replacing the first occurrence in the text by that token's text.
   */
  lemma GroundReplaceLits(p: string, pat: string, x: Token, lang: string, seg: string)
    ensures Ground(ReplaceFirst(Lits(p), Lits(pat), [x]), lang, seg)
         == ReplaceFirst(p, pat, Piece(x, lang, seg))
  {
    FindLits(p, pat);
    GroundLits(p, lang, seg);
    match Find(p, pat)
    case None =>
    case Some(i) =>
      LitsOccurs(p, pat, i);
      LitsSlice(p, 0, i);
      GroundLits(p[..i], lang, seg);
      GroundSpliceAt(Lits(p), pat, x, i, i, lang, seg);
  }

  /** `{slug}` and `{lang}` never overlap in a text. */
  lemma SlugApartFromLang(p: string, i: int, k: int)
    requires OccursAt(p, LangPlaceholder, i) && OccursAt(p, SlugPlaceholder, k)
    ensures k + 6 <= i || i + 6 <= k
  {
    assert p[k] == '{' && p[k + 1] == 's' by {
      assert p[k] == p[k..k + 6][0] && p[k + 1] == p[k..k + 6][1];
    }
    assert p[i] == '{' && p[i + 1] == 'l' by {
      assert p[i] == p[i..i + 6][0] && p[i + 1] == p[i..i + 6][1];
    }
    forall j | i < j < i + 6 ensures p[j] != '{' {
      assert p[j] == p[i..i + 6][j - i];
    }
    forall j | k < j < k + 6 ensures p[j] != '{' {
      assert p[j] == p[k..k + 6][j - k];
    }
  }

  /**
   * Splicing `x` over an occurrence of the literal pattern `pat` at token
   * position `jt` commutes with grounding, when the tokens before `jt` ground
   * to text of length `js`: the grounded text has `pat` at `js`, and `x`'s
   * text is put in its place there.
   */
  lemma GroundSpliceAt(u: seq<Token>, pat: string, x: Token, jt: nat, js: nat, lang: string, seg: string)
    requires OccursAt(u, Lits(pat), jt)
    requires |Ground(u[..jt], lang, seg)| == js
    ensures OccursAt(Ground(u, lang, seg), pat, js)
    ensures Ground(Splice(u, jt, |pat|, [x]), lang, seg)
         == Splice(Ground(u, lang, seg), js, |pat|, Piece(x, lang, seg))
  {
    var a, b := u[..jt], u[jt + |pat|..];
    var m := Lits(pat);
    assert u == a + m + b by {
      assert u[jt..jt + |pat|] == m;
      assert u == u[..jt] + u[jt..jt + |pat|] + u[jt + |pat|..];
    }
    var ga, gb := Ground(a, lang, seg), Ground(b, lang, seg);
    SpliceMiddle(a, m, b, [x]);
    assert Splice(u, jt, |pat|, [x]) == a + [x] + b;
    GroundThree(a, m, b, lang, seg);
    GroundLits(pat, lang, seg);
    assert Ground(u, lang, seg) == ga + pat + gb;
    GroundThree(a, [x], b, lang, seg);
    GroundOne(x, lang, seg);
    assert Ground(a + [x] + b, lang, seg) == ga + Piece(x, lang, seg) + gb;
    SpliceMiddle(ga, pat, gb, Piece(x, lang, seg));
  }

  lemma GroundThree(a: seq<Token>, m: seq<Token>, b: seq<Token>, lang: string, seg: string)
    ensures Ground(a + m + b, lang, seg) == Ground(a, lang, seg) + Ground(m, lang, seg) + Ground(b, lang, seg)
  {
    GroundAppend(a + m, b, lang, seg);
    GroundAppend(a, m, lang, seg);
  }

  lemma SlugNotTouchingLang(p: string, i: int)
    requires OccursAt(p, LangPlaceholder, i)
    ensures NoOccurrenceTouching(p, SlugPlaceholder, i, i + 6)
  {
    forall k | OccursAt(p, SlugPlaceholder, k) ensures k + 6 <= i || i + 6 <= k {
      SlugApartFromLang(p, i, k);
    }
  }

  lemma LitsNotTouching(p: string, pat: string, lo: int, hi: int)
    requires NoOccurrenceTouching(p, pat, lo, hi)
    ensures NoOccurrenceTouching(Lits(p), Lits(pat), lo, hi)
  {
    forall k | OccursAt(Lits(p), Lits(pat), k) ensures k + |pat| <= lo || hi <= k {
      LitsOccurs(p, pat, k);
    }
  }

  /** No literal pattern can cover a token that is not a literal. */
  lemma NotTouchingNonLiteral(u: seq<Token>, pat: string, i: int)
    requires 0 <= i < |u| && !u[i].Lit?
    ensures NoOccurrenceTouching(u, Lits(pat), i, i + 1)
  {
    forall k | OccursAt(u, Lits(pat), k)
      ensures forall q :: k <= q < k + |pat| ==> u[q].Lit?
    {
      forall q | k <= q < k + |pat| ensures u[q].Lit? {
        assert u[q] == u[k..k + |pat|][q - k];
      }
    }
  }

  /** Text satisfying SafeLangText, put anywhere, cannot overlap a `{slug}`. */
  lemma SafeTextNotTouchingSlug(w: string, i: int, lang: string)
    requires SafeLangText(lang) && 0 <= i && i + |lang| <= |w| && w[i..i + |lang|] == lang
    ensures NoOccurrenceTouching(w, SlugPlaceholder, i, i + |lang|)
  {
    forall k | OccursAt(w, SlugPlaceholder, k)
      ensures w[k] == '{' && forall q :: k < q < k + 6 ==> w[q] in "slug}"
    {
      assert w[k] == w[k..k + 6][0];
      forall q | k < q < k + 6 ensures w[q] in "slug}" {
        assert w[q] == w[k..k + 6][q - k];
        assert "{slug}"[q - k] in "slug}";
      }
    }
    forall q | i <= q < i + |lang| ensures w[q] != '{' {
      assert w[q] == w[i..i + |lang|][q - i];
    }
    assert w[i] == lang[0];
  }

  /** Both searches found their pattern at matching places: replacing commutes with grounding. */
  lemma GroundReplaceFound(u: seq<Token>, pat: string, x: Token, jt: nat, js: nat, lang: string, seg: string)
    requires Find(u, Lits(pat)) == Some(jt)
    requires Find(Ground(u, lang, seg), pat) == Some(js)
    requires |Ground(u[..jt], lang, seg)| == js
    ensures Ground(ReplaceFirst(u, Lits(pat), [x]), lang, seg)
         == ReplaceFirst(Ground(u, lang, seg), pat, Piece(x, lang, seg))
  {
    GroundSpliceAt(u, pat, x, jt, js, lang, seg);
  }

  /** Grounding the `{lang}` splice of the literal tokens gives the `{lang}` splice of the text. */
  lemma GroundLangSplice(p: string, i: nat, lang: string, seg: string)
    requires i + 6 <= |p|
    ensures Ground(Splice(Lits(p), i, 6, [LangAlt]), lang, seg) == Splice(p, i, 6, lang)
  {
    LitsSlice(p, 0, i);
    LitsSlice(p, i + 6, |p|);
    assert Splice(Lits(p), i, 6, [LangAlt]) == Lits(p[..i]) + [LangAlt] + Lits(p[i + 6..]);
    GroundAppend(Lits(p[..i]) + [LangAlt], Lits(p[i + 6..]), lang, seg);
    GroundAppend(Lits(p[..i]), [LangAlt], lang, seg);
    GroundLits(p[..i], lang, seg);
    GroundLits(p[i + 6..], lang, seg);
  }

  /** Where the first `{slug}` lands once the first `{lang}` (at `i`) is replaced, in tokens and in text. */
  lemma FindSlugAfterLang(p: string, i: nat, lang: string)
    requires Find(p, LangPlaceholder) == Some(i) && SafeLangText(lang)
    ensures i + 6 <= |p|
    ensures Find(p, SlugPlaceholder).None? ==>
              Find(Splice(Lits(p), i, 6, [LangAlt]), Lits(SlugPlaceholder)).None? &&
              Find(Splice(p, i, 6, lang), SlugPlaceholder).None?
    ensures Find(p, SlugPlaceholder).Some? && Find(p, SlugPlaceholder).value < i ==>
              Find(p, SlugPlaceholder).value + 6 <= i &&
              Find(Splice(Lits(p), i, 6, [LangAlt]), Lits(SlugPlaceholder)) == Find(p, SlugPlaceholder) &&
              Find(Splice(p, i, 6, lang), SlugPlaceholder) == Find(p, SlugPlaceholder)
    ensures Find(p, SlugPlaceholder).Some? && Find(p, SlugPlaceholder).value >= i ==>
              i + 6 <= Find(p, SlugPlaceholder).value &&
              Find(Splice(Lits(p), i, 6, [LangAlt]), Lits(SlugPlaceholder)) == Some(Find(p, SlugPlaceholder).value - 5) &&
              Find(Splice(p, i, 6, lang), SlugPlaceholder) == Some(Find(p, SlugPlaceholder).value - 6 + |lang|)
  {
    var u := Splice(Lits(p), i, 6, [LangAlt]);
    var w := Splice(p, i, 6, lang);
    SlugNotTouchingLang(p, i);
    LitsNotTouching(p, SlugPlaceholder, i, i + 6);
    NotTouchingNonLiteral(u, SlugPlaceholder, i);
    assert w[i..i + |lang|] == lang;
    SafeTextNotTouchingSlug(w, i, lang);
    FindAfterSplice(Lits(p), i, 6, [LangAlt], Lits(SlugPlaceholder));
    FindAfterSplice(p, i, 6, lang, SlugPlaceholder);
    FindLits(p, SlugPlaceholder);
  }

  /** FindSlugAfterLang, in the case where the first `{slug}` follows the `{lang}`. */
  lemma SlugFoundAfterLang(p: string, i: nat, j: nat, lang: string)
    requires Find(p, LangPlaceholder) == Some(i) && SafeLangText(lang)
    requires Find(p, SlugPlaceholder) == Some(j) && i <= j
    ensures i + 6 <= j && j + 6 <= |p|
    ensures Find(Splice(Lits(p), i, 6, [LangAlt]), Lits(SlugPlaceholder)) == Some(j - 5)
    ensures Find(Splice(p, i, 6, lang), SlugPlaceholder) == Some(j - 6 + |lang|)
  {
    FindSlugAfterLang(p, i, lang);
  }

  /** The `{slug}` step of the tag pattern when the permalink has a `{lang}` at `i`. */
  lemma GroundTagAfterLang(p: string, i: nat, lang: string, seg: string)
    requires Find(p, LangPlaceholder) == Some(i) && SafeLangText(lang)
    ensures i + 6 <= |p|
    ensures Ground(ReplaceFirst(Splice(Lits(p), i, 6, [LangAlt]), Lits(SlugPlaceholder), [SegPlus]), lang, seg)
         == ReplaceFirst(Splice(p, i, 6, lang), SlugPlaceholder, seg)
  {
    FindSlugAfterLang(p, i, lang);
    match Find(p, SlugPlaceholder)
    case None =>
      GroundTagNoSlug(p, i, lang, seg);
    case Some(j) =>
      if j < i {
        GroundTagSlugBefore(p, i, j, lang, seg);
      } else {
        GroundTagSlugAfter(p, i, j, lang, seg);
      }
  }

  lemma GroundTagNoSlug(p: string, i: nat, lang: string, seg: string)
    requires Find(p, LangPlaceholder) == Some(i) && SafeLangText(lang)
    requires Find(p, SlugPlaceholder).None?
    ensures i + 6 <= |p|
    ensures Ground(ReplaceFirst(Splice(Lits(p), i, 6, [LangAlt]), Lits(SlugPlaceholder), [SegPlus]), lang, seg)
         == ReplaceFirst(Splice(p, i, 6, lang), SlugPlaceholder, seg)
  {
    FindSlugAfterLang(p, i, lang);
    GroundLangSplice(p, i, lang, seg);
  }

  lemma GroundTagSlugBefore(p: string, i: nat, j: nat, lang: string, seg: string)
    requires Find(p, LangPlaceholder) == Some(i) && SafeLangText(lang)
    requires Find(p, SlugPlaceholder) == Some(j) && j < i
    ensures i + 6 <= |p|
    ensures Ground(ReplaceFirst(Splice(Lits(p), i, 6, [LangAlt]), Lits(SlugPlaceholder), [SegPlus]), lang, seg)
         == ReplaceFirst(Splice(p, i, 6, lang), SlugPlaceholder, seg)
  {
    var u := Splice(Lits(p), i, 6, [LangAlt]);
    FindSlugAfterLang(p, i, lang);
    GroundLangSplice(p, i, lang, seg);
    GroundedLengthBefore(p, i, j, lang, seg);
    GroundReplaceFound(u, SlugPlaceholder, SegPlus, j, j, lang, seg);
  }

  lemma GroundTagSlugAfter(p: string, i: nat, j: nat, lang: string, seg: string)
    requires Find(p, LangPlaceholder) == Some(i) && SafeLangText(lang)
    requires Find(p, SlugPlaceholder) == Some(j) && i <= j
    ensures i + 6 <= |p|
    ensures Ground(ReplaceFirst(Splice(Lits(p), i, 6, [LangAlt]), Lits(SlugPlaceholder), [SegPlus]), lang, seg)
         == ReplaceFirst(Splice(p, i, 6, lang), SlugPlaceholder, seg)
  {
    var u := Splice(Lits(p), i, 6, [LangAlt]);
    calc {
      Ground(ReplaceFirst(u, Lits(SlugPlaceholder), [SegPlus]), lang, seg);
      { SlugAfterLangFound(p, i, j, lang, seg); }
      ReplaceFirst(Ground(u, lang, seg), SlugPlaceholder, Piece(SegPlus, lang, seg));
      { GroundLangSplice(p, i, lang, seg); }
      ReplaceFirst(Splice(p, i, 6, lang), SlugPlaceholder, seg);
    }
  }

  /** The grounded replacement when the first `{slug}` follows the `{lang}` at `i`. */
  lemma SlugAfterLangFound(p: string, i: nat, j: nat, lang: string, seg: string)
    requires Find(p, LangPlaceholder) == Some(i) && SafeLangText(lang)
    requires Find(p, SlugPlaceholder) == Some(j) && i <= j
    ensures i + 6 <= |p|
    ensures Ground(ReplaceFirst(Splice(Lits(p), i, 6, [LangAlt]), Lits(SlugPlaceholder), [SegPlus]), lang, seg)
         == ReplaceFirst(Ground(Splice(Lits(p), i, 6, [LangAlt]), lang, seg), SlugPlaceholder, Piece(SegPlus, lang, seg))
  {
    var u := Splice(Lits(p), i, 6, [LangAlt]);
    assert Find(u, Lits(SlugPlaceholder)) == Some(j - 5) by {
      SlugFoundAfterLang(p, i, j, lang);
    }
    assert Find(Ground(u, lang, seg), SlugPlaceholder) == Some(j - 6 + |lang|) by {
      SlugFoundAfterLang(p, i, j, lang);
      GroundLangSplice(p, i, lang, seg);
    }
    assert |Ground(u[..j - 5], lang, seg)| == j - 6 + |lang| by {
      SlugFoundAfterLang(p, i, j, lang);
      GroundedLengthAfter(p, i, j, lang, seg);
    }
    GroundReplaceFound(u, SlugPlaceholder, SegPlus, j - 5, j - 6 + |lang|, lang, seg);
  }


  /** Grounded, the tokens before a `{slug}` that precedes the `{lang}` at `i` are as long as the text. */
  lemma GroundedLengthBefore(p: string, i: nat, j: nat, lang: string, seg: string)
    requires j <= i && i + 6 <= |p|
    ensures |Ground(Splice(Lits(p), i, 6, [LangAlt])[..j], lang, seg)| == j
  {
    var u := Splice(Lits(p), i, 6, [LangAlt]);
    LitsSlice(p, 0, j);
    assert u[..j] == Lits(p[..j]);
    GroundLits(p[..j], lang, seg);
  }

  /** Grounded, the tokens before a `{slug}` that follows the `{lang}` at `i` have `lang` in its place. */
  lemma GroundedLengthAfter(p: string, i: nat, j: nat, lang: string, seg: string)
    requires i + 6 <= j <= |p|
    ensures |Ground(Splice(Lits(p), i, 6, [LangAlt])[..j - 5], lang, seg)| == j - 6 + |lang|
  {
    var u := Splice(Lits(p), i, 6, [LangAlt]);
    LitsSlice(p, 0, i);
    LitsSlice(p, i + 6, j);
    assert u[..j - 5] == Lits(p[..i]) + [LangAlt] + Lits(p[i + 6..j]);
    GroundAppend(Lits(p[..i]) + [LangAlt], Lits(p[i + 6..j]), lang, seg);
    GroundAppend(Lits(p[..i]), [LangAlt], lang, seg);
    GroundLits(p[..i], lang, seg);
    GroundLits(p[i + 6..j], lang, seg);
  }

  /**
   * The tag pattern before its year suffix, grounded with `lang` for the
   * language group and `seg` for the segment class, is the permalink with its
   * first `{lang}` and then its first `{slug}` replaced by that text.
   */
  lemma GroundTagCore(p: string, lang: string, seg: string)
    requires SafeLangText(lang)
    ensures Ground(TagCore(p), lang, seg)
         == ReplaceFirst(ReplaceFirst(p, LangPlaceholder, lang), SlugPlaceholder, seg)
  {
    FindLits(p, LangPlaceholder);
    match Find(p, LangPlaceholder)
    case None =>
      assert LangCore(p) == Lits(p);
      assert ReplaceFirst(p, LangPlaceholder, lang) == p;
      GroundReplaceLits(p, SlugPlaceholder, SegPlus, lang, seg);
    case Some(i) =>
      GroundTagAfterLang(p, i, lang, seg);
  }

  // ---------------------------------------------------------------------------
  // Matching a grounded pattern

  lemma {:induction false} GroundIgnoresLang(t: seq<Token>, c1: string, c2: string, seg: string)
    requires LangAlt !in t
    ensures Ground(t, c1, seg) == Ground(t, c2, seg)
    decreases |t|
  {
    if t != [] {
      assert t[0] in t;
      assert forall y :: y in t[1..] ==> y in t;
      GroundIgnoresLang(t[1..], c1, c2, seg);
    }
  }

  lemma {:induction false} GroundIgnoresSegment(t: seq<Token>, lang: string, s1: string, s2: string)
    requires SegPlus !in t
    ensures Ground(t, lang, s1) == Ground(t, lang, s2)
    decreases |t|
  {
    if t != [] {
      assert t[0] in t;
      assert forall y :: y in t[1..] ==> y in t;
      GroundIgnoresSegment(t[1..], lang, s1, s2);
    }
  }

  lemma PrefixJoin(a: string, b: string, path: string)
    requires IsPrefix(a, path)
    ensures IsPrefix(a + b, path) <==> IsPrefix(b, path[|a|..])
    ensures IsPrefix(b, path[|a|..]) ==> path[|a + b|..] == path[|a|..][|b|..]
  {
    if IsPrefix(b, path[|a|..]) {
      assert path[..|a + b|] == path[..|a|] + path[|a|..][..|b|];
    }
    if IsPrefix(a + b, path) {
      assert path[|a|..][..|b|] == path[..|a + b|][|a|..];
    }
  }

  /** `path` starts with the grounded text of `t`, and `r` matches the rest. */
  predicate GroundedMatch(t: seq<Token>, r: seq<Token>, path: string, code: string, seg: string) {
    && code in LangCodes
    && IsSegment(seg)
    && IsPrefix(Ground(t, code, seg), path)
    && Matches(r, path[|Ground(t, code, seg)|..])
  }

  lemma MatchesCons(x: Token, t: seq<Token>, path: string)
    ensures Matches([x] + t, path) <==>
      exists k :: 0 <= k <= |path| && Accepts(x, path[..k]) && Matches(t, path[k..])
  {
    assert ([x] + t)[0] == x && ([x] + t)[1..] == t;
  }

  lemma GroundCons(x: Token, t: seq<Token>, code: string, seg: string)
    ensures Ground([x] + t, code, seg) == Piece(x, code, seg) + Ground(t, code, seg)
  {
    assert ([x] + t)[0] == x && ([x] + t)[1..] == t;
  }

  /** Extending a grounded match of the tail by the text the head token accepts. */
  lemma GroundStepForward(x: Token, t: seq<Token>, r: seq<Token>, path: string, k: int, code: string, seg: string)
    requires x.Lit? || x.LangAlt? || x.SegPlus?
    requires x.LangAlt? ==> LangAlt !in t
    requires x.SegPlus? ==> SegPlus !in t
    requires 0 <= k <= |path| && Accepts(x, path[..k])
    requires GroundedMatch(t, r, path[k..], code, seg)
    ensures exists c, s :: GroundedMatch([x] + t, r, path, c, s)
  {
    var code' := if x.LangAlt? then path[..k] else code;
    var seg' := if x.SegPlus? then path[..k] else seg;
    if x.LangAlt? {
      GroundIgnoresLang(t, code, code', seg);
    }
    if x.SegPlus? {
      GroundIgnoresSegment(t, code', seg, seg');
    }
    assert Ground(t, code', seg') == Ground(t, code, seg);
    assert Piece(x, code', seg') == path[..k];
    GroundCons(x, t, code', seg');
    PrefixJoin(path[..k], Ground(t, code, seg), path);
    assert path[k..] == path[|path[..k]|..];
    assert GroundedMatch([x] + t, r, path, code', seg');
  }

  /** A grounded match splits into the head token's text and the tail's match. */
  lemma GroundStepBackward(x: Token, t: seq<Token>, r: seq<Token>, path: string, code: string, seg: string)
    requires x.Lit? || x.LangAlt? || x.SegPlus?
    requires GroundedMatch([x] + t, r, path, code, seg)
    ensures |Piece(x, code, seg)| <= |path|
    ensures Accepts(x, path[..|Piece(x, code, seg)|])
    ensures GroundedMatch(t, r, path[|Piece(x, code, seg)|..], code, seg)
  {
    var w := Piece(x, code, seg);
    GroundCons(x, t, code, seg);
    assert IsPrefix(w, path) by {
      assert path[..|w|] == path[..|w + Ground(t, code, seg)|][..|w|];
    }
    PrefixJoin(w, Ground(t, code, seg), path);
  }

  /**
   * A pattern with at most one language group and at most one segment class
   * matches exactly when some supported language code and some segment,
   * put in their places, spell out the start of the path.
   */
  lemma {:induction false} GroundMatch(t: seq<Token>, r: seq<Token>, path: string)
    requires IsCore(t) && multiset(t)[LangAlt] <= 1 && multiset(t)[SegPlus] <= 1
    ensures Matches(t + r, path) <==> exists code, seg :: GroundedMatch(t, r, path, code, seg)
    decreases |t|
  {
    if t == [] {
      assert t + r == r;
      assert "en" in LangCodes && IsSegment("a");
      if Matches(r, path) {
        assert GroundedMatch(t, r, path, "en", "a");
      }
    } else {
      var x, t' := t[0], t[1..];
      assert t == [x] + t';
      assert t + r == [x] + (t' + r);
      assert multiset(t) == multiset{x} + multiset(t');
      assert IsCore(t') by {
        forall i | 0 <= i < |t'| ensures t'[i].Lit? || t'[i].LangAlt? || t'[i].SegPlus? {
          assert t'[i] == t[i + 1];
        }
      }
      assert x.Lit? || x.LangAlt? || x.SegPlus?;
      assert x.LangAlt? ==> LangAlt !in t';
      assert x.SegPlus? ==> SegPlus !in t';
      MatchesCons(x, t' + r, path);
      if Matches(t + r, path) {
        var k :| 0 <= k <= |path| && Accepts(x, path[..k]) && Matches(t' + r, path[k..]);
        GroundMatch(t', r, path[k..]);
        var code, seg :| GroundedMatch(t', r, path[k..], code, seg);
        GroundStepForward(x, t', r, path, k, code, seg);
      }
      if exists code, seg :: GroundedMatch(t, r, path, code, seg) {
        var code, seg :| GroundedMatch(t, r, path, code, seg);
        GroundStepBackward(x, t', r, path, code, seg);
        var k := |Piece(x, code, seg)|;
        GroundMatch(t', r, path[k..]);
      }
    }
  }

  // ---------------------------------------------------------------------------
  // What each compiled pattern is made of

  lemma LitsCore(s: string)
    ensures IsCore(Lits(s))
    ensures multiset(Lits(s))[LangAlt] == 0 && multiset(Lits(s))[SegPlus] == 0
  {
    assert LangAlt !in Lits(s) && SegPlus !in Lits(s);
  }

  /** Replacing the first occurrence of a literal pattern adds at most one `x`. */
  lemma ReplaceFirstCount(u: seq<Token>, pat: string, x: Token, y: Token)
    requires !y.Lit?
    ensures multiset(ReplaceFirst(u, Lits(pat), [x]))[y] <= multiset(u)[y] + (if x == y then 1 else 0)
  {
    match Find(u, Lits(pat))
    case None =>
    case Some(i) =>
      var n := |pat|;
      assert multiset(u) == multiset(u[..i]) + multiset(Lits(pat)) + multiset(u[i + n..]) by {
        assert u == u[..i] + Lits(pat) + u[i + n..];
      }
      assert multiset(Lits(pat))[y] == 0 by {
        assert y !in Lits(pat);
      }
      assert multiset(ReplaceFirst(u, Lits(pat), [x])) == multiset(u[..i]) + multiset{x} + multiset(u[i + n..]) by {
        assert ReplaceFirst(u, Lits(pat), [x]) == u[..i] + [x] + u[i + n..];
      }
  }

  lemma ReplaceFirstCore(u: seq<Token>, pat: string, x: Token)
    requires IsCore(u) && (x.Lit? || x.LangAlt? || x.SegPlus?)
    ensures IsCore(ReplaceFirst(u, Lits(pat), [x]))
  {
    var r := ReplaceFirst(u, Lits(pat), [x]);
    forall i | 0 <= i < |r| ensures r[i].Lit? || r[i].LangAlt? || r[i].SegPlus? {
      assert r[i] in r;
    }
  }

  lemma LangCoreShape(p: string)
    ensures IsCore(LangCore(p))
    ensures multiset(LangCore(p))[LangAlt] <= 1 && multiset(LangCore(p))[SegPlus] == 0
  {
    LitsCore(p);
    ReplaceFirstCore(Lits(p), LangPlaceholder, LangAlt);
    ReplaceFirstCount(Lits(p), LangPlaceholder, LangAlt, LangAlt);
    ReplaceFirstCount(Lits(p), LangPlaceholder, LangAlt, SegPlus);
  }

  lemma TagCoreShape(p: string)
    ensures IsCore(TagCore(p))
    ensures multiset(TagCore(p))[LangAlt] <= 1 && multiset(TagCore(p))[SegPlus] <= 1
  {
    LangCoreShape(p);
    ReplaceFirstCore(LangCore(p), SlugPlaceholder, SegPlus);
    ReplaceFirstCount(LangCore(p), SlugPlaceholder, SegPlus, LangAlt);
    ReplaceFirstCount(LangCore(p), SlugPlaceholder, SegPlus, SegPlus);
  }

  lemma AuthorCoreShape(p: string)
    ensures IsCore(AuthorCore(p))
    ensures multiset(AuthorCore(p))[LangAlt] == 0 && multiset(AuthorCore(p))[SegPlus] <= 1
  {
    LitsCore(p);
    ReplaceFirstCore(Lits(p), UsernamePlaceholder, SegPlus);
    ReplaceFirstCount(Lits(p), UsernamePlaceholder, SegPlus, LangAlt);
    ReplaceFirstCount(Lits(p), UsernamePlaceholder, SegPlus, SegPlus);
  }

  /** An anchored one-token pattern matches exactly the words that token accepts. */
  lemma MatchesOne(x: Token, w: string)
    ensures Matches([x], w) <==> Accepts(x, w)
  {
    assert [x][1..] == [];
    if Accepts(x, w) {
      assert w[..|w|] == w && w[|w|..] == [];
      assert Accepts([x][0], w[..|w|]) && Matches([x][1..], w[|w|..]);
    }
    if Matches([x], w) {
      var k :| 0 <= k <= |w| && Accepts(x, w[..k]) && Matches([], w[k..]);
      assert k == |w| && w[..k] == w;
    }
  }

  /** Every supported language code can stand in for `{lang}` safely. */
  lemma LangCodesSafe()
    ensures forall code :: code in LangCodes ==> SafeLangText(code)
  {
  }

  /** A grounded suffix-year match, read in terms of the grounded text. */
  lemma SuffixMatch(t: seq<Token>, x: Token, path: string, code: string, seg: string)
    requires x == OptYear || x == Year
    ensures GroundedMatch(t, [x], path, code, seg) <==>
      code in LangCodes && IsSegment(seg) && IsPrefix(Ground(t, code, seg), path) &&
      Accepts(x, path[|Ground(t, code, seg)|..])
  {
    if IsPrefix(Ground(t, code, seg), path) {
      MatchesOne(x, path[|Ground(t, code, seg)|..]);
    }
  }

  // ---------------------------------------------------------------------------
  // What each matcher accepts, stated on the permalink text

  /**
   * matchListRoute: the path is the permalink itself, or the permalink
   * followed by exactly one year segment.
   */
  lemma ListRouteSpec(p: string, path: string)
    requires PlainPermalink(p)
    ensures MatchListRoute(p, path) <==> MatchesWithOptionalYear(p, path)
  {
    LitsCore(p);
    GroundMatch(Lits(p), [Year], path);
    GroundLits(p, "en", "a");
    assert "en" in LangCodes && IsSegment("a");
    forall code, seg ensures GroundedMatch(Lits(p), [Year], path, code, seg) <==>
      code in LangCodes && IsSegment(seg) && IsPrefix(p, path) && IsYearSegment(path[|p|..])
    {
      GroundLits(p, code, seg);
      SuffixMatch(Lits(p), Year, path, code, seg);
    }
    if path == p {
      assert path[..|p|] == p && path[|p|..] == [];
    }
    if IsPrefix(p, path) && path[|p|..] == [] {
      assert path == path[..|p|] + path[|p|..];
    }
    if Matches(ListPattern(p), path) {
      var code, seg :| GroundedMatch(Lits(p), [Year], path, code, seg);
    }
    if IsPrefix(p, path) && IsYearSegment(path[|p|..]) {
      assert GroundedMatch(Lits(p), [Year], path, "en", "a");
    }
  }

  /**
   * matchLangRoute: some supported language code, put in place of the first
   * `{lang}`, turns the permalink into the path, with an optional trailing
   * year segment.
   */
  lemma LangRouteSpec(p: string, path: string)
    requires PlainPermalink(p)
    ensures MatchLangRoute(p, path) <==>
      exists code :: code in LangCodes && MatchesWithOptionalYear(ReplaceFirst(p, LangPlaceholder, code), path)
  {
    LangCoreShape(p);
    GroundMatch(LangCore(p), [OptYear], path);
    assert IsSegment("a");
    forall code, seg ensures Ground(LangCore(p), code, seg) == ReplaceFirst(p, LangPlaceholder, code) {
      GroundReplaceLits(p, LangPlaceholder, LangAlt, code, seg);
    }
    forall code, seg ensures GroundedMatch(LangCore(p), [OptYear], path, code, seg) <==>
      code in LangCodes && IsSegment(seg) && MatchesWithOptionalYear(ReplaceFirst(p, LangPlaceholder, code), path)
    {
      SuffixMatch(LangCore(p), OptYear, path, code, seg);
    }
    if exists code :: code in LangCodes && MatchesWithOptionalYear(ReplaceFirst(p, LangPlaceholder, code), path) {
      var code :| code in LangCodes && MatchesWithOptionalYear(ReplaceFirst(p, LangPlaceholder, code), path);
      assert GroundedMatch(LangCore(p), [OptYear], path, code, "a");
    }
  }

  /** The permalink with its first `{lang}`, then its first `{slug}` filled in. */
  function TagText(p: string, code: string, slug: string): string {
    ReplaceFirst(ReplaceFirst(p, LangPlaceholder, code), SlugPlaceholder, slug)
  }

  lemma TagGroundedMatch(p: string, path: string, code: string, slug: string)
    ensures GroundedMatch(TagCore(p), [OptYear], path, code, slug) <==>
      code in LangCodes && IsSegment(slug) && MatchesWithOptionalYear(TagText(p, code, slug), path)
  {
    SuffixMatch(TagCore(p), OptYear, path, code, slug);
    if code in LangCodes {
      LangCodesSafe();
      GroundTagCore(p, code, slug);
    }
  }

  /**
   * matchTagRoute: some supported language code in place of the first
   * `{lang}`, then some segment in place of the first `{slug}`, turn the
   * permalink into the path, with an optional trailing year segment.
   */
  lemma TagRouteSpec(p: string, path: string)
    requires PlainPermalink(p)
    ensures MatchTagRoute(p, path) <==>
      exists code, slug :: code in LangCodes && IsSegment(slug) && MatchesWithOptionalYear(TagText(p, code, slug), path)
  {
    TagCoreShape(p);
    GroundMatch(TagCore(p), [OptYear], path);
    forall code, slug ensures GroundedMatch(TagCore(p), [OptYear], path, code, slug) <==>
      code in LangCodes && IsSegment(slug) && MatchesWithOptionalYear(TagText(p, code, slug), path)
    {
      TagGroundedMatch(p, path, code, slug);
    }
  }

  /**
   * matchAuthorRoute: some segment in place of the first `{username}` turns
   * the permalink into the path, with an optional trailing year segment.
   */
  lemma AuthorRouteSpec(p: string, path: string)
    requires PlainPermalink(p)
    ensures MatchAuthorRoute(p, path) <==>
      exists name :: IsSegment(name) && MatchesWithOptionalYear(ReplaceFirst(p, UsernamePlaceholder, name), path)
  {
    AuthorCoreShape(p);
    GroundMatch(AuthorCore(p), [OptYear], path);
    assert "en" in LangCodes;
    forall code, seg ensures Ground(AuthorCore(p), code, seg) == ReplaceFirst(p, UsernamePlaceholder, seg) {
      GroundReplaceLits(p, UsernamePlaceholder, SegPlus, code, seg);
    }
    forall code, seg ensures GroundedMatch(AuthorCore(p), [OptYear], path, code, seg) <==>
      code in LangCodes && IsSegment(seg) && MatchesWithOptionalYear(ReplaceFirst(p, UsernamePlaceholder, seg), path)
    {
      SuffixMatch(AuthorCore(p), OptYear, path, code, seg);
    }
    if exists name :: IsSegment(name) && MatchesWithOptionalYear(ReplaceFirst(p, UsernamePlaceholder, name), path) {
      var name :| IsSegment(name) && MatchesWithOptionalYear(ReplaceFirst(p, UsernamePlaceholder, name), path);
      assert GroundedMatch(AuthorCore(p), [OptYear], path, "en", name);
    }
  }

  // ---------------------------------------------------------------------------
  // The compiled patterns are the expressions serve.go writes out

  lemma GroundOne(x: Token, lang: string, seg: string)
    ensures Ground([x], lang, seg) == Piece(x, lang, seg)
  {
    assert [x][1..] == [];
  }

  lemma ListRegexSource(p: string)
    ensures RegexSource(ListPattern(p)) == "^" + p + YearText + "$"
  {
    GroundAppend(Lits(p), [Year], LangGroup, SegmentClass);
    GroundLits(p, LangGroup, SegmentClass);
    GroundOne(Year, LangGroup, SegmentClass);
  }

  lemma LangRegexSource(p: string)
    ensures RegexSource(LangPattern(p)) == "^" + ReplaceFirst(p, LangPlaceholder, LangGroup) + OptYearText + "$"
  {
    GroundAppend(LangCore(p), [OptYear], LangGroup, SegmentClass);
    GroundReplaceLits(p, LangPlaceholder, LangAlt, LangGroup, SegmentClass);
    GroundOne(OptYear, LangGroup, SegmentClass);
  }

  lemma TagRegexSource(p: string)
    ensures RegexSource(TagPattern(p)) == "^" + TagText(p, LangGroup, SegmentClass) + OptYearText + "$"
  {
    var core := Ground(TagCore(p), LangGroup, SegmentClass);
    assert core == TagText(p, LangGroup, SegmentClass) by {
      assert SafeLangText(LangGroup) by {}
      GroundTagCore(p, LangGroup, SegmentClass);
    }
    calc {
      RegexSource(TagPattern(p));
      "^" + Ground(TagCore(p) + [OptYear], LangGroup, SegmentClass) + "$";
      { GroundAppend(TagCore(p), [OptYear], LangGroup, SegmentClass);
        GroundOne(OptYear, LangGroup, SegmentClass); }
      "^" + (core + OptYearText) + "$";
      { ConcatAssoc("^", core, OptYearText); }
      "^" + TagText(p, LangGroup, SegmentClass) + OptYearText + "$";
    }
  }

  lemma AuthorRegexSource(p: string)
    ensures RegexSource(AuthorPattern(p)) == "^" + ReplaceFirst(p, UsernamePlaceholder, SegmentClass) + OptYearText + "$"
  {
    GroundAppend(AuthorCore(p), [OptYear], LangGroup, SegmentClass);
    GroundReplaceLits(p, UsernamePlaceholder, SegPlus, LangGroup, SegmentClass);
    GroundOne(OptYear, LangGroup, SegmentClass);
  }

  // ---------------------------------------------------------------------------
  // No route matches a path with a dot in it

  /** No token of the pattern is a literal dot. */
  predicate DotFree(toks: seq<Token>) {
    forall t :: t in toks ==> t != Lit('.')
  }

  /** Language codes, segments and year segments have no dot. */
  lemma AcceptsNoDot(t: Token, w: string)
    requires t != Lit('.') && Accepts(t, w)
    ensures '.' !in w
  {
    if t.SegPlus? || t.Year? || t.OptYear? {
      forall i | 0 <= i < |w| ensures w[i] != '.' {
        assert t.SegPlus? ==> IsSegmentChar(w[i]);
      }
    }
  }

  lemma {:induction false} DotFreeMatches(toks: seq<Token>, path: string)
    requires DotFree(toks) && Matches(toks, path)
    ensures '.' !in path
    decreases |toks|
  {
    if toks != [] {
      var k :| 0 <= k <= |path| && Accepts(toks[0], path[..k]) && Matches(toks[1..], path[k..]);
      assert toks[0] in toks;
      AcceptsNoDot(toks[0], path[..k]);
      assert DotFree(toks[1..]) by {
        forall t | t in toks[1..] ensures t != Lit('.') {
          assert t in toks;
        }
      }
      DotFreeMatches(toks[1..], path[k..]);
      forall i | 0 <= i < |path| ensures path[i] != '.' {
        if i < k {
          assert path[i] == path[..k][i];
        } else {
          assert path[i] == path[k..][i - k];
        }
      }
    }
  }

  lemma PlainHasNoDot(p: string)
    requires PlainPermalink(p)
    ensures '.' !in p && DotFree(Lits(p))
  {
    assert RegexMeta[1] == '.';
    forall t | t in Lits(p) ensures t != Lit('.') {
      var i :| 0 <= i < |p| && Lits(p)[i] == t;
    }
  }

  /**
   * A path any of the four matchers accepts has no dot in it: the permalink
   * has none, and neither do language codes, segments or year segments.
   */
  lemma MatchedPathHasNoDot(p: string, path: string)
    requires PlainPermalink(p)
    ensures (MatchListRoute(p, path) || MatchLangRoute(p, path) ||
             MatchTagRoute(p, path) || MatchAuthorRoute(p, path)) ==> '.' !in path
  {
    PlainHasNoDot(p);
    assert DotFree(ListPattern(p));
    assert DotFree(LangCore(p));
    assert DotFree(LangPattern(p));
    assert DotFree(TagCore(p));
    assert DotFree(TagPattern(p));
    assert DotFree(AuthorCore(p));
    assert DotFree(AuthorPattern(p));
    if MatchListRoute(p, path) && path != p {
      DotFreeMatches(ListPattern(p), path);
    }
    if MatchLangRoute(p, path) {
      DotFreeMatches(LangPattern(p), path);
    }
    if MatchTagRoute(p, path) {
      DotFreeMatches(TagPattern(p), path);
    }
    if MatchAuthorRoute(p, path) {
      DotFreeMatches(AuthorPattern(p), path);
    }
  }
}
