/**
 * Concrete requests against one site: the home page, a tag archive, a
 * static asset, a reported template error, the no-content prefix, language
 * codes outside the supported set, and includes and the static url in a
 * template.
 *
 * The concrete values come in through equations in each lemma's `requires`,
 * so that the verifier reasons about them instead of evaluating every
 * matcher on literal text.
 */
module Scenarios {
  import opened Seqs
  import opened Routes
  import opened Templates
  import opened Render
  import opened Server

  /** A site with a permalink of every kind. */
  predicate SampleSite(cfg: Config) {
    && cfg.listUrl == "/blog/" && cfg.langUrl == "/{lang}/" && cfg.tagUrl == "/tags/{slug}/"
    && cfg.authorUrl == "/authors/{username}/" && cfg.postListUrl == "/posts/" && cfg.audioListUrl == "/audio/"
  }

  predicate LowerOrSlash(p: string) {
    forall i :: 0 <= i < |p| ==> 'a' <= p[i] <= 'z' || p[i] == '/' || p[i] == '{' || p[i] == '}'
  }

  /** Lower-case letters, slashes and braces read as themselves in a pattern. */
  lemma PlainIfLower(p: string)
    requires LowerOrSlash(p)
    ensures PlainPermalink(p)
  {
  }

  lemma SampleSiteIsPlain(cfg: Config)
    requires SampleSite(cfg)
    ensures PlainConfig(cfg)
  {
    assert LowerOrSlash(cfg.listUrl);
    PlainIfLower(cfg.listUrl);
    assert LowerOrSlash(cfg.langUrl);
    PlainIfLower(cfg.langUrl);
    assert LowerOrSlash(cfg.tagUrl);
    PlainIfLower(cfg.tagUrl);
    assert LowerOrSlash(cfg.authorUrl);
    PlainIfLower(cfg.authorUrl);
    assert LowerOrSlash(cfg.postListUrl);
    PlainIfLower(cfg.postListUrl);
    assert LowerOrSlash(cfg.audioListUrl);
    PlainIfLower(cfg.audioListUrl);
  }

  // ---------------------------------------------------------------------------
  // The sample permalinks with their placeholders filled in

  lemma LangUrlFilled(p: string, code: string)
    requires p == "/{lang}/"
    ensures ReplaceFirst(p, LangPlaceholder, code) == "/" + code + "/"
  {
    assert OccursAt(p, LangPlaceholder, 1);
    assert p[0..6][0] != LangPlaceholder[0];
    FindIsFirst(p, LangPlaceholder, 1);
  }

  lemma TagUrlFilled(p: string, code: string, slug: string)
    requires p == "/tags/{slug}/"
    ensures TagText(p, code, slug) == "/tags/" + slug + "/"
  {
    forall j ensures !OccursAt(p, LangPlaceholder, j) {
      if 0 <= j && j + 6 <= |p| {
        if j == 6 {
          assert p[j..j + 6][1] != LangPlaceholder[1];
        } else {
          assert p[j] != '{';
          assert p[j..j + 6][0] != LangPlaceholder[0];
        }
      }
    }
    assert ReplaceFirst(p, LangPlaceholder, code) == p;
    assert OccursAt(p, SlugPlaceholder, 6);
    forall j | 0 <= j < 6 ensures !OccursAt(p, SlugPlaceholder, j) {
      assert p[j] != '{';
      assert p[j..j + 6][0] == p[j];
    }
    FindIsFirst(p, SlugPlaceholder, 6);
  }

  // ---------------------------------------------------------------------------
  // Which sample routes a path can match

  /** A list permalink takes no path whose first segment starts differently. */
  lemma ListRouteRejects(p: string, path: string)
    requires PlainPermalink(p) && |p| >= 2 && |path| >= 2 && p[1] != path[1]
    ensures !MatchListRoute(p, path)
  {
    ListRouteSpec(p, path);
    if |p| <= |path| {
      assert path[..|p|][1] != p[1];
    }
  }

  /** A supported code, with or without a year, is a language page. */
  lemma LangRouteTakes(p: string, code: string, year: string)
    requires p == "/{lang}/"
    requires code in LangCodes && IsOptionalYear(year)
    ensures PlainPermalink(p)
    ensures MatchLangRoute(p, "/" + code + "/" + year)
  {
    var path := "/" + code + "/" + year;
    assert PlainPermalink(p) by { assert LowerOrSlash(p); PlainIfLower(p); }
    LangRouteSpec(p, path);
    LangUrlFilled(p, code);
    assert path[..|"/" + code + "/"|] == "/" + code + "/";
    assert path[|"/" + code + "/"|..] == year;
  }

  lemma LangCodeRejects(p: string, path: string, code: string)
    requires p == "/{lang}/" && code in LangCodes && |path| >= 2 && path[1] !in "ezj"
    ensures !MatchesWithOptionalYear(ReplaceFirst(p, LangPlaceholder, code), path)
  {
    LangUrlFilled(p, code);
    assert ("/" + code + "/")[1] in "ezj";
  }

  /** No language code starts with any other letter. */
  lemma LangRouteRejects(p: string, path: string)
    requires p == "/{lang}/" && |path| >= 2 && path[1] !in "ezj"
    ensures PlainPermalink(p)
    ensures !MatchLangRoute(p, path)
  {
    assert PlainPermalink(p) by { assert LowerOrSlash(p); PlainIfLower(p); }
    LangRouteSpec(p, path);
    forall code | code in LangCodes
      ensures !MatchesWithOptionalYear(ReplaceFirst(p, LangPlaceholder, code), path)
    {
      LangCodeRejects(p, path, code);
    }
  }

  lemma MixedCaseCodeRejects(p: string, path: string, code: string)
    requires p == "/{lang}/" && path == "/zh-Hans/" && code in LangCodes
    ensures !MatchesWithOptionalYear(ReplaceFirst(p, LangPlaceholder, code), path)
  {
    LangUrlFilled(p, code);
    var x := "/" + code + "/";
    if |code| == 2 {
      assert x[3] != path[3];
    } else {
      assert x[4] != path[4];
    }
  }

  /** Codes are matched as written: `zh-Hans` is not `zh-hans`. */
  lemma MixedCaseRejected(p: string, path: string)
    requires p == "/{lang}/" && path == "/zh-Hans/"
    ensures PlainPermalink(p)
    ensures !MatchLangRoute(p, path)
  {
    assert PlainPermalink(p) by { assert LowerOrSlash(p); PlainIfLower(p); }
    LangRouteSpec(p, path);
    forall code | code in LangCodes
      ensures !MatchesWithOptionalYear(ReplaceFirst(p, LangPlaceholder, code), path)
    {
      MixedCaseCodeRejects(p, path, code);
    }
  }

  lemma TagRouteTakes(p: string, slug: string, year: string)
    requires p == "/tags/{slug}/"
    requires IsSegment(slug) && IsOptionalYear(year)
    ensures PlainPermalink(p)
    ensures MatchTagRoute(p, "/tags/" + slug + "/" + year)
  {
    var path := "/tags/" + slug + "/" + year;
    assert PlainPermalink(p) by { assert LowerOrSlash(p); PlainIfLower(p); }
    TagRouteSpec(p, path);
    TagUrlFilled(p, "en", slug);
    assert LangCodes[0] == "en";
    var x := "/tags/" + slug + "/";
    assert path[..|x|] == x && path[|x|..] == year;
    assert MatchesWithOptionalYear(TagText(p, "en", slug), path);
  }

  lemma TagRouteRejects(p: string, path: string)
    requires p == "/tags/{slug}/" && |path| >= 2 && path[1] != 't'
    ensures PlainPermalink(p)
    ensures !MatchTagRoute(p, path)
  {
    assert PlainPermalink(p) by { assert LowerOrSlash(p); PlainIfLower(p); }
    TagRouteSpec(p, path);
    forall code, slug ensures !MatchesWithOptionalYear(TagText(p, code, slug), path) {
      TagTextRejects(p, path, code, slug);
    }
  }

  lemma TagTextRejects(p: string, path: string, code: string, slug: string)
    requires p == "/tags/{slug}/" && |path| >= 2 && path[1] != 't'
    ensures !MatchesWithOptionalYear(TagText(p, code, slug), path)
  {
    TagUrlFilled(p, code, slug);
    assert ("/tags/" + slug + "/")[1] == 't';
  }

  /**
   * An author permalink in which `{username}` starts neither at the first nor
   * at the second character takes no path that differs from it in the
   * second character.
   */
  lemma AuthorRouteRejects(p: string, path: string)
    requires PlainPermalink(p) && |p| >= 2
    requires !OccursAt(p, UsernamePlaceholder, 0) && !OccursAt(p, UsernamePlaceholder, 1)
    requires |path| >= 2 && path[1] != p[1]
    ensures !MatchAuthorRoute(p, path)
  {
    forall name ensures !MatchesWithOptionalYear(ReplaceFirst(p, UsernamePlaceholder, name), path) {
      ReplaceFirstKeepsPrefix(p, UsernamePlaceholder, name, 2);
      var x := ReplaceFirst(p, UsernamePlaceholder, name);
      assert x[..2][1] == p[1];
    }
    AuthorRouteSpec(p, path);
  }

  /** An author permalink that also holds `{lang}`: only `{username}` is filled in. */
  lemma AuthorLangUrlFilled(p: string, name: string)
    requires p == "/{lang}/u/{username}/"
    ensures ReplaceFirst(p, UsernamePlaceholder, name) == "/{lang}/u/" + name + "/"
  {
    assert OccursAt(p, UsernamePlaceholder, 10);
    forall j | 0 <= j < 10 ensures !OccursAt(p, UsernamePlaceholder, j) {
      if j == 1 {
        assert p[j..j + 10][1] == p[2] != UsernamePlaceholder[1];
      } else {
        assert p[j] != '{';
        assert p[j..j + 10][0] == p[j] != UsernamePlaceholder[0];
      }
    }
    FindIsFirst(p, UsernamePlaceholder, 10);
  }

  /**
   * The author route never expands `{lang}`: it stays literal text, so a
   * path with a real language code in its place is not an author page.
   */
  lemma AuthorKeepsLangLiteral(p: string, name: string, path: string)
    requires p == "/{lang}/u/{username}/" && IsSegment(name)
    requires |path| >= 2 && path[1] != '{'
    ensures PlainPermalink(p)
    ensures MatchAuthorRoute(p, "/{lang}/u/" + name + "/")
    ensures !MatchAuthorRoute(p, path)
  {
    assert PlainPermalink(p) by { assert LowerOrSlash(p); PlainIfLower(p); }
    AuthorLangTaken(p, name);
    AuthorLangRejects(p, path);
  }

  lemma AuthorLangTaken(p: string, name: string)
    requires p == "/{lang}/u/{username}/" && IsSegment(name) && PlainPermalink(p)
    ensures MatchAuthorRoute(p, "/{lang}/u/" + name + "/")
  {
    var literal := "/{lang}/u/" + name + "/";
    AuthorRouteSpec(p, literal);
    AuthorLangUrlFilled(p, name);
    assert literal[..|literal|] == literal && literal[|literal|..] == [];
    assert MatchesWithOptionalYear(ReplaceFirst(p, UsernamePlaceholder, name), literal);
  }

  lemma AuthorLangRejects(p: string, path: string)
    requires p == "/{lang}/u/{username}/" && PlainPermalink(p)
    requires |path| >= 2 && path[1] != '{'
    ensures !MatchAuthorRoute(p, path)
  {
    assert p[..10][0] != UsernamePlaceholder[0] && p[1..11][1] != UsernamePlaceholder[1];
    AuthorRouteRejects(p, path);
  }

  // ---------------------------------------------------------------------------
  // Routing on the sample site

  /**
   * A tag archive, with or without a year, is the tag page, even when the
   * slug reads like a file suffix (`/tags/png/`): no earlier route takes it,
   * and the asset suffixes are never tried.
   */
  lemma TagArchive(cfg: Config, slug: string, year: string)
    requires SampleSite(cfg)
    requires IsSegment(slug) && IsOptionalYear(year)
    ensures PlainConfig(cfg) && Route(cfg, "/tags/" + slug + "/" + year) == Render("tag.j2", "list.j2")
  {
    var path := "/tags/" + slug + "/" + year;
    SampleSiteIsPlain(cfg);
    assert path[1] == 't';
    assert path[..3] != NoContentPrefix;
    FirstMatchIsChain(cfg, path);
    ListRouteRejects(cfg.listUrl, path);
    ListRouteRejects(cfg.postListUrl, path);
    ListRouteRejects(cfg.audioListUrl, path);
    LangRouteRejects(cfg.langUrl, path);
    TagRouteTakes(cfg.tagUrl, slug, year);
  }

  /** An unsupported language code is not a route: the item page renders it. */
  lemma UnsupportedLanguageIsItem(cfg: Config, path: string)
    requires SampleSite(cfg) && path == "/fr/"
    ensures PlainConfig(cfg) && Route(cfg, path) == Render("item.j2", "")
  {
    UnsupportedLanguageMatchesNoRoute(cfg, path);
    assert path[|path| - 1] == '/';
    DirectoryIsNotAsset(path);
    assert path != RootPath && !IsPrefix(NoContentPrefix, path) by {
      assert path[..3][1] == 'f' != NoContentPrefix[1];
    }
  }

  /** `/fr/` is taken by none of the six permalink routes of the sample site. */
  lemma UnsupportedLanguageMatchesNoRoute(cfg: Config, path: string)
    requires SampleSite(cfg) && path == "/fr/"
    ensures PlainConfig(cfg) && FirstMatch(RouteTable(cfg), path).None?
  {
    SampleSiteIsPlain(cfg);
    FrMatchesNoPermalink(cfg, path);
    FirstMatchIsChain(cfg, path);
  }

  lemma FrMatchesNoPermalink(cfg: Config, path: string)
    requires SampleSite(cfg) && path == "/fr/"
    ensures PlainConfig(cfg)
    ensures !MatchListRoute(cfg.listUrl, path) && !MatchListRoute(cfg.postListUrl, path)
    ensures !MatchListRoute(cfg.audioListUrl, path) && !MatchLangRoute(cfg.langUrl, path)
    ensures !MatchTagRoute(cfg.tagUrl, path) && !MatchAuthorRoute(cfg.authorUrl, path)
  {
    SampleSiteIsPlain(cfg);
    FrNotListed(cfg.listUrl, path);
    FrNotListed(cfg.postListUrl, path);
    FrNotListed(cfg.audioListUrl, path);
    LangRouteRejects(cfg.langUrl, path);
    TagRouteRejects(cfg.tagUrl, path);
    FrNotAuthor(cfg.authorUrl, path);
  }

  lemma FrNotListed(p: string, path: string)
    requires p == "/blog/" || p == "/posts/" || p == "/audio/"
    requires path == "/fr/"
    ensures PlainPermalink(p) && !MatchListRoute(p, path)
  {
    assert PlainPermalink(p) by { assert LowerOrSlash(p); PlainIfLower(p); }
    assert p[1] != path[1];
    ListRouteRejects(p, path);
  }

  lemma FrNotAuthor(p: string, path: string)
    requires p == "/authors/{username}/" && path == "/fr/"
    ensures PlainPermalink(p) && !MatchAuthorRoute(p, path)
  {
    assert PlainPermalink(p) by { assert LowerOrSlash(p); PlainIfLower(p); }
    assert !OccursAt(p, UsernamePlaceholder, 0) by { assert p[..10][0] == '/'; }
    assert !OccursAt(p, UsernamePlaceholder, 1) by { assert p[1..11][0] == 'a'; }
    assert |p| >= 2 && |path| >= 2 && path[1] != p[1] by {}
    AuthorRouteRejects(p, path);
  }

  /** A path ending in a slash never has an asset suffix. */
  lemma DirectoryIsNotAsset(path: string)
    requires |path| > 0 && path[|path| - 1] == '/'
    ensures !IsAssetPath(path)
  {
    forall i | 0 <= i < |AssetSuffixes| ensures !IsSuffix(AssetSuffixes[i], path) {
      assert AssetSuffixes[i][|AssetSuffixes[i]| - 1] != '/';
    }
  }

  // ---------------------------------------------------------------------------
  // Whole requests, on any site

  /** The home page: `home.j2` is sent under its own name and the html comes back with 200. */
  lemma HomePage(cfg: Config, fs: FileSystem, renderer: Payload -> Outcome, path: string)
    requires PlainConfig(cfg) && path == "/"
    requires renderer(PayloadFor(fs, "home.j2", "", path)) == Decoded(RenderResult("ok", "", "<h1>Home</h1>"))
    ensures PayloadFor(fs, "home.j2", "", path).filename == "home.j2"
    ensures Handle(cfg, fs, renderer, path) == Respond(Response(StatusOK, "<h1>Home</h1>"))
  {
  }

  /** A path like `/style.css` goes to the static server and never to the renderer. */
  lemma Stylesheet(cfg: Config, fs: FileSystem, renderer: Payload -> Outcome, path: string)
    requires PlainConfig(cfg) && path == "/style.css"
    ensures Handle(cfg, fs, renderer, path) == ServeStatic
  {
    assert IsSuffix(".css", path);
    assert AssetSuffixes[0] == ".css";
    assert path[..3][1] != NoContentPrefix[1];
    AssetsReachStaticServer(cfg, path);
  }

  /** Anything under `/-/` is answered 204 with no body, whatever the templates or the renderer. */
  lemma NoContentPing(cfg: Config, fs: FileSystem, renderer: Payload -> Outcome, path: string)
    requires PlainConfig(cfg) && path == "/-/ping"
    ensures Handle(cfg, fs, renderer, path) == Respond(Response(StatusNoContent, ""))
  {
    assert path[..3] == NoContentPrefix;
  }

  /**
   * A tag archive on the sample site without `tag.j2`: the list template is
   * read and named in the payload, and a reported template error comes back
   * as 400 with the renderer's message.
   */
  lemma TagArchiveWithError(cfg: Config, fs: FileSystem, renderer: Payload -> Outcome, path: string)
    requires SampleSite(cfg) && path == "/tags/golang/2023/"
    requires "tag.j2" !in fs
    requires renderer(PayloadFor(fs, "tag.j2", "list.j2", path))
             == Decoded(RenderResult("error", "template syntax error", ""))
    ensures ChooseTemplate(fs, "tag.j2", "list.j2").template == "list.j2"
    ensures PayloadFor(fs, "tag.j2", "list.j2", path).filename == "list.j2"
    ensures PlainConfig(cfg) &&
            Handle(cfg, fs, renderer, path) == Respond(Response(StatusBadRequest, "template syntax error"))
  {
    GolangArchiveRoute(cfg, path);
    assert ResponseFor(renderer(PayloadFor(fs, "tag.j2", "list.j2", path)))
        == Response(StatusBadRequest, "template syntax error");
  }

  lemma GolangArchiveRoute(cfg: Config, path: string)
    requires SampleSite(cfg) && path == "/tags/golang/2023/"
    ensures PlainConfig(cfg) && Route(cfg, path) == Render("tag.j2", "list.j2")
  {
    var slug, year := "golang", "2023/";
    assert IsSegment(slug) by {}
    assert IsOptionalYear(year) by {}
    assert "/tags/" + slug + "/" + year == path by {}
    TagArchive(cfg, slug, year);
  }

  // ---------------------------------------------------------------------------
  // Template resolution

  /** `{% include "./_side.j2" %}`. */
  function SideDirective(): string {
    DirectiveText('"', " ", "_side.j2", '"', " ")
  }

  /** An include is replaced by the file it names; the text around it is kept. */
  lemma IncludeFound(fs: FileSystem, x: string, y: string)
    requires fs == map["_side.j2" := "<aside/>"]
    requires x == "<main>" && y == "</main>"
    ensures ExpandIncludes(fs, x + SideDirective() + y) == x + "<aside/>" + y
  {
    assert Blanks(" ") && IncludeName("_side.j2");
    assert NoQuoteOnLine(y);
    assert forall k :: 0 <= k < |x| ==> x[k] != '{';
    assert forall k :: 0 <= k < |y| ==> y[k] != '{';
    IncludeInText(fs, x, '"', " ", "_side.j2", '"', " ", y);
  }

  /** A missing include becomes the error marker around the directive's own text. */
  lemma IncludeMissing(fs: FileSystem, s: string)
    requires fs == map[] && s == SideDirective()
    ensures ExpandIncludes(fs, s) == ErrorMarker(s)
  {
    assert Blanks(" ") && IncludeName("_side.j2");
    IncludeAtStart(fs, '"', " ", "_side.j2", '"', " ", "");
    assert s + "" == s;
  }

  /** An included file is inserted as it is: a directive inside it is not expanded. */
  lemma IncludeIsNotNested(fs: FileSystem, inner: string, s: string)
    requires inner == DirectiveText('\'', " ", "_b.j2", '\'', " ")
    requires fs == map["_side.j2" := inner, "_b.j2" := "B"]
    requires s == SideDirective()
    ensures ExpandIncludes(fs, s) == inner
  {
    assert Blanks(" ") && IncludeName("_side.j2");
    IncludeAtStart(fs, '"', " ", "_side.j2", '"', " ", "");
    assert s + "" == s;
  }

  /** `{{ static_url }}` in a link becomes `/`. */
  lemma StaticUrlInLink(x: string, token: string, y: string)
    requires x == "<link href=\"" && token == "{{ static_url }}" && y == "style.css\">"
    ensures SubstituteStaticUrl(x + token + y) == "<link href=\"/style.css\">"
  {
    LinkPieces(x, token, y);
    StaticTokenInText(x, " ", " ", y);
    LinkJoined(x, y);
  }

  /** The pieces of the link: no brace around the token, and the token as the pass spells it. */
  lemma LinkPieces(x: string, token: string, y: string)
    requires x == "<link href=\"" && token == "{{ static_url }}" && y == "style.css\">"
    ensures forall k :: 0 <= k < |x| ==> x[k] != '{'
    ensures forall k :: 0 <= k < |y| ==> y[k] != '{'
    ensures token == StaticOpen + " " + StaticName + " " + StaticClose
  {
  }

  lemma LinkJoined(x: string, y: string)
    requires x == "<link href=\"" && y == "style.css\">"
    ensures x + StaticUrl + y == "<link href=\"/style.css\">"
  {
  }

}
