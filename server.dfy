/**
 * The request handler of serveAny (serve.go:51-85) and renderView
 * (serve.go:115-180): which action a path leads to, and what is written to
 * the client for it.
 *
 * The site configuration is the immutable record fetched at start-up; the
 * template directory, the renderer and the response writer are parameters.
 */
module Server {
  import opened Seqs
  import opened Routes
  import opened Templates
  import opened Render

  /** configResponse: the six permalinks of the site. */
  datatype Config = Config(
    listUrl: string,
    langUrl: string,
    tagUrl: string,
    authorUrl: string,
    postListUrl: string,
    audioListUrl: string)

  /** Every permalink reads as itself inside a regular expression. */
  predicate PlainConfig(cfg: Config) {
    && PlainPermalink(cfg.listUrl) && PlainPermalink(cfg.langUrl)
    && PlainPermalink(cfg.tagUrl) && PlainPermalink(cfg.authorUrl)
    && PlainPermalink(cfg.postListUrl) && PlainPermalink(cfg.audioListUrl)
  }

  /** What the handler does with a path. */
  datatype Action =
    | NoContent                                  // 204, nothing rendered
    | Render(template: string, fallback: string) // renderView(root, template, fallback, ...)
    | Static                                     // the static file server

  const RootPath: string := "/"
  const NoContentPrefix: string := "/-/"
  const AssetSuffixes: seq<string> := [".css", ".js", ".ico", ".jpg", ".png", ".svg", ".woff", ".woff2"]

  predicate IsAssetPath(path: string) {
    exists i :: 0 <= i < |AssetSuffixes| && IsSuffix(AssetSuffixes[i], path)
  }

  // ---------------------------------------------------------------------------
  // The cascade as an ordered table

  datatype Matcher = ListMatcher | LangMatcher | TagMatcher | AuthorMatcher

  /** One permalink route: how it matches, and the template and fallback it renders. */
  datatype RouteEntry = RouteEntry(matcher: Matcher, permalink: string, template: string, fallback: string)

  /** The permalink routes in the order the handler tries them. */
  function RouteTable(cfg: Config): (t: seq<RouteEntry>)
    ensures PlainConfig(cfg) ==> forall i :: 0 <= i < |t| ==> PlainPermalink(t[i].permalink)
  {
    [ RouteEntry(ListMatcher, cfg.listUrl, "list.j2", ""),
      RouteEntry(ListMatcher, cfg.postListUrl, "post_list.j2", "list.j2"),
      RouteEntry(ListMatcher, cfg.audioListUrl, "audio_list.j2", "list.j2"),
      RouteEntry(LangMatcher, cfg.langUrl, "lang.j2", "list.j2"),
      RouteEntry(TagMatcher, cfg.tagUrl, "tag.j2", "list.j2"),
      RouteEntry(AuthorMatcher, cfg.authorUrl, "author.j2", "list.j2") ]
  }

  predicate EntryMatches(e: RouteEntry, path: string)
    requires PlainPermalink(e.permalink)
  {
    match e.matcher
    case ListMatcher => MatchListRoute(e.permalink, path)
    case LangMatcher => MatchLangRoute(e.permalink, path)
    case TagMatcher => MatchTagRoute(e.permalink, path)
    case AuthorMatcher => MatchAuthorRoute(e.permalink, path)
  }

  /** The first entry of the table that matches the path. */
  function FirstMatch(table: seq<RouteEntry>, path: string): Option<RouteEntry>
    requires forall i :: 0 <= i < |table| ==> PlainPermalink(table[i].permalink)
    decreases |table|
  {
    if table == [] then None
    else if EntryMatches(table[0], path) then Some(table[0])
    else FirstMatch(table[1..], path)
  }

  /**
   * FirstMatch finds nothing exactly when no entry matches, and otherwise
   * the entry at some index that matches, with no entry before it matching.
   */
  lemma {:induction false} FirstMatchSpec(table: seq<RouteEntry>, path: string)
    requires forall i :: 0 <= i < |table| ==> PlainPermalink(table[i].permalink)
    ensures FirstMatch(table, path).None? <==> forall i :: 0 <= i < |table| ==> !EntryMatches(table[i], path)
    ensures FirstMatch(table, path).Some? ==>
              exists i :: 0 <= i < |table| && table[i] == FirstMatch(table, path).value &&
                EntryMatches(table[i], path) && forall j :: 0 <= j < i ==> !EntryMatches(table[j], path)
    decreases |table|
  {
    if table != [] && !EntryMatches(table[0], path) {
      var rest := table[1..];
      FirstMatchSpec(rest, path);
      forall i | 0 < i < |table| ensures table[i] == rest[i - 1] { }
      if FirstMatch(rest, path).Some? {
        var i :| 0 <= i < |rest| && rest[i] == FirstMatch(rest, path).value &&
                 EntryMatches(rest[i], path) && forall j :: 0 <= j < i ==> !EntryMatches(rest[j], path);
        assert table[i + 1] == rest[i];
        assert forall j :: 0 <= j < i + 1 ==> !EntryMatches(table[j], path) by {
          forall j | 0 < j < i + 1 ensures !EntryMatches(table[j], path) {
            assert table[j] == rest[j - 1];
          }
        }
      }
    } else if table != [] {
      assert table[0] == FirstMatch(table, path).value;
    }
  }

  lemma FirstMatchStep(table: seq<RouteEntry>, path: string)
    requires table != [] && forall i :: 0 <= i < |table| ==> PlainPermalink(table[i].permalink)
    ensures FirstMatch(table, path) ==
              if EntryMatches(table[0], path) then Some(table[0]) else FirstMatch(table[1..], path)
  {
  }

  /** The table, tried in order, is the handler's chain of matchers. */
  lemma FirstMatchIsChain(cfg: Config, path: string)
    requires PlainConfig(cfg)
    ensures var t := RouteTable(cfg);
            FirstMatch(t, path) ==
              if MatchListRoute(cfg.listUrl, path) then Some(t[0])
              else if MatchListRoute(cfg.postListUrl, path) then Some(t[1])
              else if MatchListRoute(cfg.audioListUrl, path) then Some(t[2])
              else if MatchLangRoute(cfg.langUrl, path) then Some(t[3])
              else if MatchTagRoute(cfg.tagUrl, path) then Some(t[4])
              else if MatchAuthorRoute(cfg.authorUrl, path) then Some(t[5])
              else None
  {
    var t := RouteTable(cfg);
    FirstMatchOfSix(t, path);
    assert EntryMatches(t[0], path) == MatchListRoute(cfg.listUrl, path);
    assert EntryMatches(t[1], path) == MatchListRoute(cfg.postListUrl, path);
    assert EntryMatches(t[2], path) == MatchListRoute(cfg.audioListUrl, path);
    assert EntryMatches(t[3], path) == MatchLangRoute(cfg.langUrl, path);
    assert EntryMatches(t[4], path) == MatchTagRoute(cfg.tagUrl, path);
    assert EntryMatches(t[5], path) == MatchAuthorRoute(cfg.authorUrl, path);
  }

  /** A table of six entries, tried in order. */
  lemma FirstMatchOfSix(t: seq<RouteEntry>, path: string)
    requires |t| == 6 && forall j :: 0 <= j < |t| ==> PlainPermalink(t[j].permalink)
    ensures FirstMatch(t, path) ==
              if EntryMatches(t[0], path) then Some(t[0])
              else if EntryMatches(t[1], path) then Some(t[1])
              else if EntryMatches(t[2], path) then Some(t[2])
              else if EntryMatches(t[3], path) then Some(t[3])
              else if EntryMatches(t[4], path) then Some(t[4])
              else if EntryMatches(t[5], path) then Some(t[5])
              else None
  {
    assert t[0..] == t;
    ChainStep(t, 0, path);
    ChainStep(t, 1, path);
    ChainStep(t, 2, path);
    ChainStep(t, 3, path);
    ChainStep(t, 4, path);
    ChainStep(t, 5, path);
    assert t[6..] == [];
  }

  /** Trying the table from index `i` tries entry `i` and then the rest. */
  lemma ChainStep(t: seq<RouteEntry>, i: nat, path: string)
    requires i < |t| && forall j :: 0 <= j < |t| ==> PlainPermalink(t[j].permalink)
    ensures FirstMatch(t[i..], path) == if EntryMatches(t[i], path) then Some(t[i]) else FirstMatch(t[i + 1..], path)
  {
    FirstMatchStep(t[i..], path);
    assert t[i..][0] == t[i] && t[i..][1..] == t[i + 1..];
  }

  /** A route found in the table renders its template, falling back to the list template or to nothing. */
  lemma RouteTableFallbacks(cfg: Config, path: string)
    requires PlainConfig(cfg)
    ensures var m := FirstMatch(RouteTable(cfg), path);
            m.Some? ==> (m.value.fallback == "list.j2" || (m.value.fallback == "" && m.value.template == "list.j2"))
  {
    FirstMatchIsChain(cfg, path);
  }

  /**
   * The action for a path: `/` first, then the no-content prefix, then the
   * first permalink route that matches, then the asset suffixes, and the item
   * page for everything else.
   */
  function Route(cfg: Config, path: string): (a: Action)
    requires PlainConfig(cfg)
    // `/` is the home page, before any permalink is tried
    ensures path == RootPath ==> a == Render("home.j2", "")
    // the no-content prefix answers 204 whatever the routes say
    ensures a == NoContent <==> IsPrefix(NoContentPrefix, path)
    // the item page is what is left when nothing else applies
    ensures a == Render("item.j2", "") <==>
              path != RootPath && !IsPrefix(NoContentPrefix, path) &&
              FirstMatch(RouteTable(cfg), path).None? && !IsAssetPath(path)
    // the static server sees only asset paths that no permalink route claims
    ensures a == Static ==> IsAssetPath(path) && FirstMatch(RouteTable(cfg), path).None?
    // every rendered page but home, list and item falls back to the list template
    ensures a.Render? ==> a.fallback == "" || a.fallback == "list.j2"
    ensures a.Render? && a.fallback == "" ==> a.template in {"home.j2", "list.j2", "item.j2"}
  {
    if path == RootPath then Render("home.j2", "")
    else if IsPrefix(NoContentPrefix, path) then NoContent
    else
      RouteTableFallbacks(cfg, path);
      match FirstMatch(RouteTable(cfg), path)
      case Some(e) => Render(e.template, e.fallback)
      case None => if IsAssetPath(path) then Static else Render("item.j2", "")
  }

  /** The handler's loop over the asset suffixes, stopping at the first that ends the path. */
  method HasAssetSuffix(path: string) returns (isAssets: bool)
    ensures isAssets <==> IsAssetPath(path)
  {
    isAssets := false;
    var suffixes := new string[|AssetSuffixes|](i requires 0 <= i < |AssetSuffixes| => AssetSuffixes[i]);
    var i := 0;
    while i < suffixes.Length
      invariant 0 <= i <= suffixes.Length
      invariant suffixes[..] == AssetSuffixes
      invariant !isAssets
      invariant forall j :: 0 <= j < i ==> !IsSuffix(AssetSuffixes[j], path)
    {
      if IsSuffix(suffixes[i], path) {
        isAssets := true;
        break;
      }
      i := i + 1;
    }
  }

  /**
   * The handler's if/else chain and its loop over the asset suffixes, which
   * decides the same action as the ordered table.
   */
  method Dispatch(cfg: Config, path: string) returns (a: Action)
    requires PlainConfig(cfg)
    ensures a == Route(cfg, path)
  {
    FirstMatchIsChain(cfg, path);
    if path == RootPath {
      a := Render("home.j2", "");
    } else if IsPrefix(NoContentPrefix, path) {
      a := NoContent;
    } else if MatchListRoute(cfg.listUrl, path) {
      a := Render("list.j2", "");
    } else if MatchListRoute(cfg.postListUrl, path) {
      a := Render("post_list.j2", "list.j2");
    } else if MatchListRoute(cfg.audioListUrl, path) {
      a := Render("audio_list.j2", "list.j2");
    } else if MatchLangRoute(cfg.langUrl, path) {
      a := Render("lang.j2", "list.j2");
    } else if MatchTagRoute(cfg.tagUrl, path) {
      a := Render("tag.j2", "list.j2");
    } else if MatchAuthorRoute(cfg.authorUrl, path) {
      a := Render("author.j2", "list.j2");
    } else {
      var isAssets := HasAssetSuffix(path);
      if isAssets {
        a := Static;
      } else {
        a := Render("item.j2", "");
      }
    }
  }

  /** An asset path is not a no-content path, and it always reaches the static server. */
  lemma AssetsReachStaticServer(cfg: Config, path: string)
    requires PlainConfig(cfg)
    requires IsAssetPath(path) && !IsPrefix(NoContentPrefix, path)
    ensures Route(cfg, path) == Static
  {
    var i :| 0 <= i < |AssetSuffixes| && IsSuffix(AssetSuffixes[i], path);
    var suffix := AssetSuffixes[i];
    assert suffix[0] == '.';
    assert path[|path| - |suffix|] == suffix[0];
    assert '.' in path;
    var t := RouteTable(cfg);
    forall j | 0 <= j < |t| ensures !EntryMatches(t[j], path) {
      MatchedPathHasNoDot(t[j].permalink, path);
    }
    FirstMatchSpec(t, path);
  }

  // ---------------------------------------------------------------------------
  // Rendering a view (serve.go:115-180)

  /** The request payload renderView sends for a template. */
  function PayloadFor(fs: FileSystem, filename: string, fallback: string, path: string): (p: Payload)
    ensures p.url == path
    ensures p.filename == ChooseTemplate(fs, filename, fallback).payloadName
    // no `{{ static_url }}` token survives into the code sent
    ensures NoStaticToken(p.code)
  {
    var c := ChooseTemplate(fs, filename, fallback);
    Payload(c.payloadName, path, ResolveTemplate(fs, c.content))
  }

  /** What the handler does with one request. */
  datatype Reply =
    | Respond(response: Response) // a status and body written by the handler
    | ServeStatic                 // handed to the static file server

  /**
   * The reply to a path, given the template directory and the renderer: 204
   * with an empty body for the no-content prefix, the static server for an
   * asset, and otherwise the renderer's verdict on the chosen template.
   */
  function Handle(cfg: Config, fs: FileSystem, renderer: Payload -> Outcome, path: string): (r: Reply)
    requires PlainConfig(cfg)
    ensures r.ServeStatic? <==> Route(cfg, path) == Static
    ensures r.Respond? ==> r.response.status in {StatusOK, StatusNoContent, StatusBadRequest}
    ensures (r.Respond? && r.response.status == StatusNoContent) <==> IsPrefix(NoContentPrefix, path)
    ensures IsPrefix(NoContentPrefix, path) ==> r == Respond(Response(StatusNoContent, ""))
  {
    match Route(cfg, path)
    case NoContent => Respond(Response(StatusNoContent, ""))
    case Static => ServeStatic
    case Render(template, fallback) =>
      Respond(ResponseFor(renderer(PayloadFor(fs, template, fallback, path))))
  }

  /**
   * renderView: read the template or its fallback, expand includes, put the
   * static url in, send the payload and write the renderer's verdict. It
   * returns the template named in the log line, which is written only when
   * the renderer's reply decoded.
   */
  method RenderView(fs: FileSystem, renderer: Payload -> Outcome, filename: string, fallback: string,
                    path: string, w: ResponseWriter) returns (logged: Option<string>)
    modifies w
    ensures var resp := ResponseFor(renderer(PayloadFor(fs, filename, fallback, path)));
            w.headers == old(w.headers) + [resp.status] && w.body == old(w.body) + resp.body
    ensures logged.Some? <==> renderer(PayloadFor(fs, filename, fallback, path)).Decoded?
    ensures logged.Some? ==> logged.value == ChooseTemplate(fs, filename, fallback).template
  {
    var strContent: string;
    var template := filename;
    if filename !in fs && fallback != "" {
      template := fallback;
      strContent := ReadOrEmpty(fs, fallback);
    } else {
      strContent := ReadOrEmpty(fs, filename);
    }
    var strContent2 := ExpandIncludes(fs, strContent);
    var strContent3 := SubstituteStaticUrl(strContent2);
    var payloadName := filename;
    if fallback != "" {
      payloadName := fallback;
    }
    var outcome := renderer(Payload(payloadName, path, strContent3));
    match outcome {
      case TransportFailure =>
        w.WriteHeader(StatusBadRequest);
        w.Write(ServerErrorBody);
        logged := None;
      case Undecodable =>
        w.WriteHeader(StatusBadRequest);
        w.Write(UnknownErrorBody);
        logged := None;
      case Decoded(result) =>
        if result.status == StatusOkText {
          w.WriteHeader(StatusOK);
          w.Write(result.html);
        } else {
          w.WriteHeader(StatusBadRequest);
          w.Write(result.message);
        }
        logged := Some(template);
    }
  }

  /**
   * The handler closure of serveAny: decide the action, then write the reply
   * or hand the request to the static server (reported by `servedStatic`;
   * what that server writes is not modelled).
   */
  method ServeRequest(cfg: Config, fs: FileSystem, renderer: Payload -> Outcome, path: string,
                      w: ResponseWriter) returns (servedStatic: bool)
    requires PlainConfig(cfg)
    modifies w
    ensures var r := Handle(cfg, fs, renderer, path);
            && (servedStatic <==> r.ServeStatic?)
            && (r.ServeStatic? ==> w.headers == old(w.headers) && w.body == old(w.body))
            && (r.Respond? ==> w.headers == old(w.headers) + [r.response.status] &&
                               w.body == old(w.body) + r.response.body)
  {
    var a := Dispatch(cfg, path);
    servedStatic := false;
    match a {
      case NoContent =>
        w.WriteHeader(StatusNoContent);
        w.Write("");
      case Static =>
        servedStatic := true;
      case Render(template, fallback) =>
        var _ := RenderView(fs, renderer, template, fallback, path, w);
    }
  }
}
