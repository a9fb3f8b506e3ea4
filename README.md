# serve-theme request handling, modelled in Dafny

serve-theme is a local preview server for Typlog themes. Each request path is
classified by a fixed cascade: the home page, a no-content prefix, six
permalink routes built from the site's configuration, a set of static asset
suffixes, and the item page for everything else. A page is rendered remotely.
The server reads the theme template or its fallback and expands
`{% include "./x.j2" %}` directives in one pass. It replaces
`{{ static_url }}` with `/` and posts the result to the renderer. Then it
writes the renderer's verdict to the client.

This project models that pipeline. Everything comes from `serve.go`:

- `seqs.dfy` (module `Seqs`): Go's `strings.HasPrefix`, `strings.HasSuffix`,
  `strings.Index` and `strings.Replace(s, old, new, 1)` on sequences.
- `routes.dfy` (module `Routes`): the four route matchers.
  - A permalink is compiled into tokens, with placeholders replaced by first
    occurrence: literal characters, the language alternation, the segment
    class `[a-z0-9-%]+`, and the year segment `\d{4}/` or its optional form.
  - `Matches` decides an anchored match by trying every split of the path.
  - The lemmas restate each matcher on the permalink text itself. They also
    show that the tokens print as exactly the regular expression `serve.go`
    compiles.
- `templates.dfy` (module `Templates`): template resolution.
  - The choice between template and fallback.
  - The leftmost-first, greedy include expression, decided by hand.
  - The single-pass `ReplaceAllStringFunc` expansion.
  - The `{{ static_url }}` substitution.
  - Both passes copy a character other than `{` straight to the output.
    Every match of either expression starts with `{`, so this gives the same
    text as trying the expression there and failing.
- `render.dfy` (module `Render`): the payload, the three outcomes of the
  renderer call, the status and body written for each, and the response
  writer as a class.
- `server.dfy` (module `Server`): the dispatch closure.
  - The cascade as an ordered table, against which the if/else chain and the
    asset-suffix loop are proved.
  - The whole reply as a function `Handle`.
  - `renderView` and the handler as methods that write to the response
    writer.
- `scenarios.dfy` (module `Scenarios`): concrete requests on a sample site
  (`/blog/`, `/{lang}/`, `/tags/{slug}/`, `/authors/{username}/`, `/posts/`,
  `/audio/`) and concrete templates.

The renderer is a function from payload to outcome supplied by the caller.
The template directory is a map from file name to content; a missing key is a
failed read. The site configuration is an immutable record.

Three behaviours of `serve.go` that are easy to misread:

- The payload's `filename` is the fallback whenever a fallback is given, even
  when the requested template was read. It is not the name of the file that
  was actually read. That file is only named in the log line.
- The language codes are `en zh ja zh-hans zh-hant es`, all lower case and
  matched case-sensitively, so `zh-Hans` is not a language page.
- Only list routes test the path for equality with the permalink text
  (serve.go:89). The language, tag and author routes match only their
  expanded pattern, so with the permalink `/{lang}/` the path `/{lang}/` is
  not a language page. A permalink without the placeholder still compiles to
  its own text, and a second `{lang}` stays literal, since only the first is
  replaced.

## Model

| member | source | states |
|---|---|---|
| `Seqs.ReplaceFirst` | serve.go:97 | strings.Replace with count 1: with no occurrence the text is unchanged; otherwise one occurrence is replaced (length changes by the difference; `ReplaceFirstAtFirst` gives the exact result); nothing appears that was in neither the text nor the replacement |
| `Seqs.ReplaceFirstAtFirst` | serve.go:97 | the occurrence replaced is the first one: the text before it and after it is kept, and later occurrences stay as they are |
| `Routes.ListRouteSpec` | serve.go:88-94 | matchListRoute accepts exactly the permalink itself and the permalink followed by one `dddd/` year segment |
| `Routes.LangRouteSpec` | serve.go:96-100 | matchLangRoute accepts a path iff some supported code, put in place of the first `{lang}`, gives the path with at most one trailing year segment |
| `Routes.TagRouteSpec` | serve.go:102-107 | matchTagRoute accepts a path iff some code in place of the first `{lang}` and then some `[a-z0-9-%]+` segment in place of the first `{slug}` give the path, with an optional year segment |
| `Routes.AuthorRouteSpec` | serve.go:109-113 | matchAuthorRoute accepts a path iff some segment in place of the first `{username}` gives the path, with an optional year segment; `{lang}` is never expanded |
| `Routes.ListRegexSource` | serve.go:92 | the list tokens print as `^` + permalink + `\d{4}/` + `$` |
| `Routes.LangRegexSource` | serve.go:97-98 | the language tokens print as the regex built by replacing the first `{lang}` with the six-way group and appending `(\d{4}/)?` |
| `Routes.TagRegexSource` | serve.go:103-105 | the tag tokens print as the regex built by replacing `{lang}` and then `{slug}`, each once, and appending the optional year |
| `Routes.AuthorRegexSource` | serve.go:110-111 | the author tokens print as the regex built by replacing the first `{username}` and appending the optional year |
| `Routes.GroundMatch` | serve.go:97-99 | a pattern with at most one language group and at most one segment class, followed by any rest, matches a path iff some code and some segment written in their place give a prefix of the path that the rest completes |
| `Routes.MatchedPathHasNoDot` | serve.go:88-113 | no path that any of the four matchers accepts contains a dot, for permalinks without regex metacharacters |
| `Templates.DirectivePrefix` | serve.go:128 | a directive found at the start of the text is a match of the include expression: `{% include`, blanks, a quote, `./`, a one-line name ending in `.j2`, a quote, blanks, `%}` |
| `Templates.DirectivePrefixComplete` | serve.go:128 | whenever the include expression matches at the start of the text, a directive is found; its name is the longest possible (greedy `.+`) and that name fixes the whole match |
| `Templates.ExpandNoDirective` | serve.go:138 | text in which no directive starts comes out of the include pass unchanged |
| `Templates.ExpandSkip` | serve.go:138 | text without a brace is copied through the include pass and expansion goes on after it |
| `Templates.IncludeAtStart` | serve.go:129-138 | when no quote follows on the directive's line (so the written directive is the greedy match), a directive is replaced by the named file's content, or by the error marker around its own text when the file is missing, and expansion resumes after it without rescanning the inserted text |
| `Templates.IncludeOne` | serve.go:129-138 | the same for a directive after brace-free text, which is kept, again when no quote follows on the directive's line |
| `Templates.IncludeGreedyOnOneLine` | serve.go:128 | two directives on one line are taken as one match whose name runs from the first name to the second, because `.+` is greedy |
| `Templates.StaticPrefixComplete` | serve.go:141 | every spelling of `{{ static_url }}` with any blanks inside is recognised at its start |
| `Templates.StaticTokenBecomesSlash` | serve.go:141-142 | a static url token becomes `/` and the substitution goes on after it |
| `Templates.StaticTokenInText` | serve.go:141-142 | a token in brace-free text becomes `/`, with the text on both sides kept |
| `Templates.SubstituteSkip` | serve.go:142 | brace-free text is copied through the substitution |
| `Templates.SubstituteNoToken` | serve.go:142 | text without a token is left unchanged by the substitution |
| `Templates.SubstituteLeavesNoToken` | serve.go:142 | after the substitution no token is left, even one that the inserted `/` might seem to complete |
| `Templates.SubstituteIdempotent` | serve.go:142 | substituting twice is the same as substituting once |
| `Templates.ResolveTemplate` | serve.go:127-142 | include expansion followed by the substitution leaves no static url token, including any brought in by an include |
| `Templates.ChooseTemplate` | serve.go:116-148 | the fallback is read iff the template is missing and a fallback is given; a missing file gives empty content; the payload names the fallback whenever one is given and the template otherwise, so it differs from the file read iff the template exists and a different fallback is given |
| `Render.ResponseFor` | serve.go:156-179 | 200 iff the reply decoded with status `ok`, with the html verbatim; 400 with the message for any other status, `server error` on transport failure, `unknown error` for an undecodable body |
| `Render.ResponseWriter.WriteHeader` | serve.go:157 | the status is recorded after those already written; the body is unchanged |
| `Render.ResponseWriter.Write` | serve.go:158 | the bytes are appended to the body; a write before any status sends 200 first |
| `Server.RouteTable` | serve.go:58-69 | the six permalink routes in the order tried, each with its template and fallback; plain permalinks stay plain |
| `Server.FirstMatchSpec` | serve.go:58-70 | the first matching entry is found, and no entry before it matches; nothing is found iff no entry matches |
| `Server.FirstMatchIsChain` | serve.go:58-69 | trying the table in order is the handler's if/else chain of the six matchers |
| `Server.Route` | serve.go:53-84 | `/` renders `home.j2`; a path is no-content iff it starts with `/-/`; the static server gets only asset paths that no route claims; the item page is left iff nothing else applies; fallbacks are empty or `list.j2` |
| `Server.HasAssetSuffix` | serve.go:71-78 | the suffix loop sets its flag iff the path ends with one of the eight asset suffixes |
| `Server.Dispatch` | serve.go:51-85 | the handler's chain and suffix loop decide exactly the action the ordered table gives |
| `Server.AssetsReachStaticServer` | serve.go:55-80 | every asset path outside `/-/` is served statically: no permalink route can take a path with a dot |
| `Server.PayloadFor` | serve.go:145-153 | the payload carries the request path, the chosen payload name and code with no static url token left |
| `Server.Handle` | serve.go:51-179 | the static server is used iff the action is static; every status written is 200, 204 or 400; 204 with an empty body iff the path starts with `/-/` |
| `Server.RenderView` | serve.go:115-180 | exactly one status is written, and then the body of the renderer's verdict on the resolved payload; the template is logged iff the reply decoded, and it is the file actually read |
| `Server.ServeRequest` | serve.go:51-85 | the handler writes exactly the reply `Handle` gives, or nothing when the static server takes the request |
| `Scenarios.LangRouteTakes` | serve.go:96-100 | `/{lang}/` takes every supported code, with or without a year |
| `Scenarios.LangRouteRejects` | serve.go:96-100 | `/{lang}/` rejects a path whose first letter starts no code, such as `/fr/` |
| `Scenarios.MixedCaseRejected` | serve.go:97 | `/zh-Hans/` is not a language page: codes match case-sensitively |
| `Scenarios.AuthorKeepsLangLiteral` | serve.go:109-113 | in an author permalink `{lang}` stays literal text |
| `Scenarios.TagArchive` | serve.go:58-67 | on the sample site `/tags/<slug>/` and `/tags/<slug>/<year>/` render `tag.j2` with fallback `list.j2` for every slug made of `[a-z0-9-%]` |
| `Scenarios.UnsupportedLanguageIsItem` | serve.go:58-83 | on the sample site `/fr/` matches no route and is not an asset, so it renders `item.j2` |
| `Scenarios.HomePage` | serve.go:53-54 | for `/` the payload names `home.j2` itself, and a successful reply is returned as 200 with its html |
| `Scenarios.Stylesheet` | serve.go:70-80 | `/style.css` goes to the static server on any site whose permalinks are plain |
| `Scenarios.NoContentPing` | serve.go:55-57 | `/-/ping` is answered 204 with an empty body on any site, whatever the templates or renderer |
| `Scenarios.TagArchiveWithError` | serve.go:115-172 | without `tag.j2`, `/tags/golang/2023/` reads `list.j2`, names it in the payload, and a reported error comes back as 400 with the message |
| `Scenarios.IncludeFound` | serve.go:128-138 | an include between two texts is replaced by the file's content |
| `Scenarios.IncludeMissing` | serve.go:129-136 | a missing include becomes the error marker around the directive |
| `Scenarios.IncludeIsNotNested` | serve.go:138 | a directive inside an included file is inserted as it is, not expanded |
| `Scenarios.StaticUrlInLink` | serve.go:141-142 | `{{ static_url }}` inside a link becomes `/` |

## Left out

- `request()` (serve.go:182-208): environment variables, the HTTP client, the headers and the network call. The renderer is a parameter, a function from payload to outcome.
- Fetching and decoding the site configuration at start-up, and `log.Fatal` on failure (serve.go:38-49). The configuration is an immutable record.
- `main` (serve.go:210-225): arguments, the port and `ListenAndServe`.
- The static file server `s.ServeHTTP` (serve.go:80). The model reports that the request was handed to it; what it writes is not modelled.
- JSON encoding of the payload and decoding of the result (serve.go:149-153, 164). Records stand in for them, and the `Undecodable` outcome for a decoding error.
- Logging (serve.go:52, 169, 173, 178), including the render time as a float. `RenderView` returns only which template the render line would name.
- `filepath.Join(root, name)`: a file is looked up by its name as a map key, without path normalisation.
- Concurrency between requests: each request is independent, and no state is shared apart from the read-only configuration.
- Permalinks that contain regular-expression metacharacters, or a `{` followed by a digit. The matchers require `PlainPermalink`. General regular-expression semantics are not modelled.
- Read errors other than a missing file: every failed read is a name absent from the map.
- Go strings are byte sequences; here a string is a sequence of characters. `HasPrefix` and `HasSuffix` compare bytes, and the regular expressions read invalid UTF-8 as U+FFFD. A template holding invalid UTF-8 cannot be written down in this model.
- Render.ResponseWriter.WriteHeader: a second `WriteHeader` call is recorded rather than ignored. The handler never makes one, as `RenderView` and `ServeRequest` prove.
- Server.ServeRequest: a request logs its path on receipt (serve.go:52); this is not modelled.
