/**
 * Template resolution in renderView (serve.go:116-148): the choice between
 * the requested template and its fallback, the single pass that replaces
 * include directives, the `{{ static_url }}` substitution, and the file name
 * sent with the render request.
 *
 * The template directory is a map from file name to content; a name that is
 * not in the map is a file whose read fails, which in the source leaves the
 * content empty.
 *
 * The two regular expressions of renderView are decided here by hand:
 *
 *   include:    {% include\s+("|')\./(.+\.j2)("|')\s+%}
 *   static url: \{\{\s*static_url\s*\}\}
 *
 * `\s` is RE2's `[\t\n\f\r ]`, `.` is any character but a newline, and Go's
 * leftmost-first rule makes every `\s+`/`\s*` take the whole run of blanks and
 * the greedy `.+` take the longest name that still lets the rest match.
 * ReplaceAllStringFunc and ReplaceAllString replace the leftmost match, then
 * go on searching after it, never inside the replacement.
 */
module Templates {
  import opened Seqs

  type FileSystem = map<string, string>

  /** ioutil.ReadFile as a string: a failed read gives empty content. */
  function ReadOrEmpty(fs: FileSystem, name: string): (r: string)
    ensures name in fs ==> r == fs[name]
    ensures name !in fs ==> r == ""
  {
    if name in fs then fs[name] else ""
  }

  // ---------------------------------------------------------------------------
  // Character classes and runs

  /** RE2's `\s`. */
  predicate IsSpace(c: char) {
    c == ' ' || c == '\t' || c == '\n' || c == '\r' || c == '\U{000C}'
  }

  predicate IsQuote(c: char) {
    c == '"' || c == '\''
  }

  predicate AllSpace(t: string, i: int, j: int)
    requires 0 <= i <= j <= |t|
  {
    forall k :: i <= k < j ==> IsSpace(t[k])
  }

  predicate NoNewline(t: string, i: int, j: int)
    requires 0 <= i <= j <= |t|
  {
    forall k :: i <= k < j ==> t[k] != '\n'
  }

  /** The end of the run of blanks that starts at `i`. */
  function SpaceRunEnd(t: string, i: nat): (j: nat)
    requires i <= |t|
    ensures i <= j <= |t| && AllSpace(t, i, j)
    ensures j == |t| || !IsSpace(t[j])
    decreases |t| - i
  {
    if i < |t| && IsSpace(t[i]) then SpaceRunEnd(t, i + 1) else i
  }

  /** A run of blanks followed by a non-blank is the whole run. */
  lemma SpaceRunUnique(t: string, i: nat, j: nat)
    requires i <= j < |t| && AllSpace(t, i, j) && !IsSpace(t[j])
    ensures SpaceRunEnd(t, i) == j
  {
  }

  /** The end of the line that holds index `i`. */
  function LineEnd(t: string, i: nat): (n: nat)
    requires i <= |t|
    ensures i <= n <= |t| && NoNewline(t, i, n)
    ensures n == |t| || t[n] == '\n'
    decreases |t| - i
  {
    if i < |t| && t[i] != '\n' then LineEnd(t, i + 1) else i
  }

  // ---------------------------------------------------------------------------
  // The include directive

  const IncludeOpen: string := "{% include"
  const IncludeClose: string := "%}"
  const TemplateExtension: string := ".j2"

  /**
   * A match of the include expression at the start of `t` whose opening quote
   * is at `a`, whose file name (group 2) is `t[a + 3 .. a + 3 + len]`, and
   * which ends at `e`.
   */
  datatype Directive = Directive(quoteAt: nat, nameLen: nat, end: nat)

  /** From the name's `.j2` to the closing `%}` that ends at `e`. */
  predicate ClosingAt(t: string, a: nat, L: nat, e: nat) {
    var q := a + 3 + L;
    && L >= 4 && q < |t| && t[q - 3..q] == TemplateExtension && IsQuote(t[q])
    && q + 1 < e - 2 && e <= |t| && AllSpace(t, q + 1, e - 2) && t[e - 2..e] == IncludeClose
  }

  /** The include expression matches `t[..e]` this way. */
  predicate DirectiveAt(t: string, a: nat, L: nat, e: nat) {
    && IsPrefix(IncludeOpen, t)
    && 10 < a && a + 3 <= |t| && AllSpace(t, 10, a)
    && IsQuote(t[a]) && t[a + 1] == '.' && t[a + 2] == '/'
    && a + 3 + L <= |t| && NoNewline(t, a + 3, a + 3 + L)
    && ClosingAt(t, a, L, e)
  }

  /** The closing part for a name of length `L`, if there is one. */
  function CloseAt(t: string, a: nat, L: nat): (r: Option<nat>)
    ensures r.Some? ==> ClosingAt(t, a, L, r.value)
  {
    var q := a + 3 + L;
    if L >= 4 && q < |t| && t[q - 3..q] == TemplateExtension && IsQuote(t[q]) then
      var b := SpaceRunEnd(t, q + 1);
      if b > q + 1 && b + 2 <= |t| && t[b..b + 2] == IncludeClose then Some(b + 2) else None
    else None
  }

  /** The closing part is determined by the name's length. */
  lemma CloseAtComplete(t: string, a: nat, L: nat, e: nat)
    requires ClosingAt(t, a, L, e)
    ensures CloseAt(t, a, L) == Some(e)
  {
    assert t[e - 2] == '%';
    SpaceRunUnique(t, a + 4 + L, e - 2);
  }

  /** The longest name of length at most `L` that lets the directive close. */
  function LongestName(t: string, a: nat, L: nat): (r: Option<Directive>)
    ensures r.Some? ==> r.value.quoteAt == a && r.value.nameLen <= L
    ensures r.Some? ==> ClosingAt(t, a, r.value.nameLen, r.value.end)
    decreases L
  {
    if L < 4 then None
    else match CloseAt(t, a, L)
      case Some(e) => Some(Directive(a, L, e))
      case None => LongestName(t, a, L - 1)
  }

  lemma {:induction false} LongestNameComplete(t: string, a: nat, Lmax: nat, L: nat, e: nat)
    requires L <= Lmax && ClosingAt(t, a, L, e)
    ensures LongestName(t, a, Lmax).Some?
    ensures L <= LongestName(t, a, Lmax).value.nameLen
    ensures L == LongestName(t, a, Lmax).value.nameLen ==> e == LongestName(t, a, Lmax).value.end
    decreases Lmax
  {
    if CloseAt(t, a, Lmax).None? {
      if L == Lmax {
        CloseAtComplete(t, a, L, e);
      } else {
        LongestNameComplete(t, a, Lmax - 1, L, e);
      }
    } else if L == Lmax {
      CloseAtComplete(t, a, L, e);
    }
  }

  /**
   * The match of the include expression at the start of `t`, as Go's
   * leftmost-first matcher picks it.
   */
  function DirectivePrefix(t: string): (r: Option<Directive>)
    ensures r.Some? ==> DirectiveAt(t, r.value.quoteAt, r.value.nameLen, r.value.end)
  {
    if !IsPrefix(IncludeOpen, t) then None
    else
      var a := SpaceRunEnd(t, 10);
      if a == 10 || a + 3 > |t| || !IsQuote(t[a]) || t[a + 1] != '.' || t[a + 2] != '/' then None
      else NameOnLine(t, a)
  }

  /** The longest name from `a + 3` that closes the directive before the end of its line. */
  function NameOnLine(t: string, a: nat): (r: Option<Directive>)
    requires a + 3 <= |t|
    ensures r.Some? ==> r.value.quoteAt == a && a + 3 + r.value.nameLen <= |t|
    ensures r.Some? ==> NoNewline(t, a + 3, a + 3 + r.value.nameLen)
    ensures r.Some? ==> ClosingAt(t, a, r.value.nameLen, r.value.end)
  {
    LongestName(t, a, LineEnd(t, a + 3) - (a + 3))
  }

  /**
   * Of all the ways the include expression matches at the start of `t`, the
   * one taken has the longest file name, and that name fixes the whole match.
   */
  lemma DirectivePrefixComplete(t: string, a: nat, L: nat, e: nat)
    requires DirectiveAt(t, a, L, e)
    ensures DirectivePrefix(t).Some?
    ensures L <= DirectivePrefix(t).value.nameLen
    ensures L == DirectivePrefix(t).value.nameLen ==>
              DirectivePrefix(t) == Some(Directive(a, L, e))
  {
    var n := LineEnd(t, a + 3) - (a + 3);
    assert DirectivePrefix(t) == LongestName(t, a, n) by {
      DirectivePrefixIsLongest(t, a);
      assert NameOnLine(t, a) == LongestName(t, a, n);
    }
    assert L <= n by {
      LineEndPast(t, a + 3, a + 3 + L);
    }
    LongestNameComplete(t, a, n, L, e);
  }

  /** Once the opening is read up to `./`, the match is the longest name that closes on that line. */
  lemma DirectivePrefixIsLongest(t: string, a: nat)
    requires IsPrefix(IncludeOpen, t) && 10 < a && a + 3 <= |t| && AllSpace(t, 10, a)
    requires IsQuote(t[a]) && t[a + 1] == '.' && t[a + 2] == '/'
    ensures DirectivePrefix(t) == NameOnLine(t, a)
  {
    SpaceRunUnique(t, 10, a);
  }

  /** A stretch without a newline ends no later than its line. */
  lemma {:induction false} LineEndPast(t: string, i: nat, j: nat)
    requires i <= j <= |t| && NoNewline(t, i, j)
    ensures j <= LineEnd(t, i)
    decreases j - i
  {
    if i < j {
      LineEndPast(t, i + 1, j);
    }
  }

  /** The file name a directive names: group 2 of the expression. */
  function DirectiveName(t: string, d: Directive): string
    requires d.quoteAt + 3 + d.nameLen <= |t|
  {
    t[d.quoteAt + 3..d.quoteAt + 3 + d.nameLen]
  }

  /** What an include that cannot be read is replaced by. */
  function ErrorMarker(directive: string): string {
    "<pre>**ERROR**: <code>{% raw %}" + directive + "{% endraw %}</code></pre>"
  }

  /** readInclude: the named file's content, or the error marker around the directive. */
  function IncludeText(fs: FileSystem, t: string, d: Directive): string
    requires DirectiveAt(t, d.quoteAt, d.nameLen, d.end)
  {
    var name := DirectiveName(t, d);
    if name in fs then fs[name] else ErrorMarker(t[..d.end])
  }

  /** No include directive starts anywhere in `s`. */
  predicate NoDirective(s: string) {
    forall k :: 0 <= k < |s| ==> DirectivePrefix(s[k..]).None?
  }

  /**
   * reInclude.ReplaceAllStringFunc(s, readInclude): each leftmost directive is
   * replaced, and the search goes on after it.
   */
  function ExpandIncludes(fs: FileSystem, s: string): (r: string)
    decreases |s|
  {
    if s == [] then []
    // a directive starts with `{`, so any other character is copied at once
    else if s[0] != '{' then [s[0]] + ExpandIncludes(fs, s[1..])
    else match DirectivePrefix(s)
      case Some(d) => IncludeText(fs, s, d) + ExpandIncludes(fs, s[d.end..])
      case None => [s[0]] + ExpandIncludes(fs, s[1..])
  }

  /** One step of the expansion where no directive starts. */
  lemma ExpandPlainStep(fs: FileSystem, s: string)
    requires |s| > 0 && DirectivePrefix(s).None?
    ensures ExpandIncludes(fs, s) == [s[0]] + ExpandIncludes(fs, s[1..])
  {
  }

  /** One step of the expansion where a directive starts. */
  lemma ExpandDirectiveStep(fs: FileSystem, s: string)
    requires DirectivePrefix(s).Some?
    ensures var d := DirectivePrefix(s).value;
            ExpandIncludes(fs, s) == IncludeText(fs, s, d) + ExpandIncludes(fs, s[d.end..])
  {
    assert s[0] == s[..10][0] == '{';
  }

  /** A directive starts with a brace. */
  lemma NoDirectiveWithoutBrace(t: string)
    requires |t| > 0 && t[0] != '{'
    ensures DirectivePrefix(t).None?
  {
    if |t| >= 10 {
      assert t[..10][0] == t[0];
    }
  }

  /** Text in which no directive starts comes back unchanged. */
  lemma {:induction false} ExpandNoDirective(fs: FileSystem, s: string)
    requires NoDirective(s)
    ensures ExpandIncludes(fs, s) == s
    decreases |s|
  {
    if s != [] {
      assert s[0..] == s;
      ExpandPlainStep(fs, s);
      forall k | 0 <= k < |s| - 1 ensures DirectivePrefix(s[1..][k..]).None? {
        assert s[1..][k..] == s[k + 1..];
      }
      ExpandNoDirective(fs, s[1..]);
    }
  }

  /** A character other than a brace is copied through, and expansion goes on after it. */
  lemma ExpandCons(fs: FileSystem, c: char, r: string)
    requires c != '{'
    ensures ExpandIncludes(fs, [c] + r) == [c] + ExpandIncludes(fs, r)
  {
    var s := [c] + r;
    assert s[0] == c && s[1..] == r;
    NoDirectiveWithoutBrace(s);
    ExpandPlainStep(fs, s);
  }

  /** Text without a brace is copied through unchanged. */
  lemma {:induction false} ExpandSkip(fs: FileSystem, x: string, y: string)
    requires forall k :: 0 <= k < |x| ==> x[k] != '{'
    ensures ExpandIncludes(fs, x + y) == x + ExpandIncludes(fs, y)
    decreases |x|
  {
    if x == [] {
      assert x + y == y;
    } else {
      var c, x' := x[0], x[1..];
      calc {
        ExpandIncludes(fs, x + y);
        { assert x + y == [c] + (x' + y); }
        ExpandIncludes(fs, [c] + (x' + y));
        { ExpandCons(fs, c, x' + y); }
        [c] + ExpandIncludes(fs, x' + y);
        { ExpandSkip(fs, x', y); }
        [c] + (x' + ExpandIncludes(fs, y));
        { assert x == [c] + x'; ConcatAssoc([c], x', ExpandIncludes(fs, y)); }
        x + ExpandIncludes(fs, y);
      }
    }
  }

  /** The text of one directive with the given quotes, blanks and file name. */
  function DirectiveText(q1: char, ws1: string, name: string, q2: char, ws2: string): string {
    DirectiveHead(q1, ws1) + name + DirectiveTail(q2, ws2)
  }

  function DirectiveHead(q1: char, ws1: string): string {
    IncludeOpen + ws1 + [q1] + "./"
  }

  function DirectiveTail(q2: char, ws2: string): string {
    [q2] + ws2 + IncludeClose
  }

  predicate Blanks(w: string) {
    |w| > 0 && forall k :: 0 <= k < |w| ==> IsSpace(w[k])
  }

  /** A possible group 2: one or more characters other than a newline, then `.j2`. */
  predicate IncludeName(name: string) {
    |name| >= 4 && name[|name| - 3..] == TemplateExtension
    && forall k :: 0 <= k < |name| ==> name[k] != '\n'
  }

  /** No quote before the end of the current line: a longer file name cannot close there. */
  predicate NoQuoteOnLine(y: string) {
    forall j :: 0 <= j < |y| && NoNewline(y, 0, j) ==> !IsQuote(y[j])
  }

  lemma DirectiveTextShape(q1: char, ws1: string, name: string, q2: char, ws2: string, y: string)
    requires IsQuote(q1) && IsQuote(q2) && Blanks(ws1) && Blanks(ws2) && IncludeName(name)
    ensures var t := DirectiveText(q1, ws1, name, q2, ws2) + y;
            var a := 10 + |ws1|;
            DirectiveAt(t, a, |name|, |DirectiveText(q1, ws1, name, q2, ws2)|)
  {
    var H, T := DirectiveHead(q1, ws1), DirectiveTail(q2, ws2);
    var t := H + name + T + y;
    var a := 10 + |ws1|;
    var q := a + 3 + |name|;
    assert |H| == a + 3 && |T| == |ws2| + 3;
    assert t[..a + 3] == H && t[a + 3..q] == name && t[q..q + |T|] == T by {
      assert t == H + (name + (T + y));
    }
    HeadShape(q1, ws1, t);
    NameShape(name, t, a + 3);
    TailShape(q2, ws2, t, q);
  }

  lemma HeadShape(q1: char, ws1: string, t: string)
    requires Blanks(ws1) && IsQuote(q1)
    requires |t| >= |DirectiveHead(q1, ws1)| && t[..|DirectiveHead(q1, ws1)|] == DirectiveHead(q1, ws1)
    ensures var a := 10 + |ws1|;
            IsPrefix(IncludeOpen, t) && AllSpace(t, 10, a) && IsQuote(t[a]) && t[a + 1] == '.' && t[a + 2] == '/'
  {
    var H := DirectiveHead(q1, ws1);
    var a := 10 + |ws1|;
    assert H[..10] == IncludeOpen;
    assert t[..10] == H[..10];
    forall k | 10 <= k < a ensures IsSpace(t[k]) {
      assert t[k] == H[k] == ws1[k - 10];
    }
    assert t[a] == H[a] && t[a + 1] == H[a + 1] && t[a + 2] == H[a + 2];
  }

  lemma NameShape(name: string, t: string, i: nat)
    requires IncludeName(name) && i + |name| <= |t| && t[i..i + |name|] == name
    ensures NoNewline(t, i, i + |name|) && t[i + |name| - 3..i + |name|] == TemplateExtension
  {
    forall k | i <= k < i + |name| ensures t[k] != '\n' {
      assert t[k] == name[k - i];
    }
    assert t[i + |name| - 3..i + |name|] == name[|name| - 3..];
  }

  lemma TailShape(q2: char, ws2: string, t: string, q: nat)
    requires IsQuote(q2) && Blanks(ws2)
    requires q + |DirectiveTail(q2, ws2)| <= |t| && t[q..q + |DirectiveTail(q2, ws2)|] == DirectiveTail(q2, ws2)
    ensures var b := q + 1 + |ws2|;
            IsQuote(t[q]) && b + 2 <= |t| && AllSpace(t, q + 1, b) && t[b..b + 2] == IncludeClose
  {
    var T := DirectiveTail(q2, ws2);
    var b := q + 1 + |ws2|;
    assert t[q] == T[0] == q2;
    forall k | q + 1 <= k < b ensures IsSpace(t[k]) {
      assert t[k] == T[k - q] == ws2[k - q - 1];
    }
    assert t[b..b + 2] == T[|ws2| + 1..];
  }

  /** Past the closing quote, nothing on the directive's line is a quote. */
  lemma NoLaterQuote(q1: char, ws1: string, name: string, q2: char, ws2: string, y: string, p: nat)
    requires Blanks(ws2) && NoQuoteOnLine(y)
    requires var t := DirectiveText(q1, ws1, name, q2, ws2) + y;
             10 + |ws1| + 3 + |name| < p < |t| && NoNewline(t, 13 + |ws1|, p)
    ensures !IsQuote((DirectiveText(q1, ws1, name, q2, ws2) + y)[p])
  {
    var H, T := DirectiveHead(q1, ws1), DirectiveTail(q2, ws2);
    var D := H + name + T;
    var t := D + y;
    var q := |H| + |name|;
    if p >= |D| {
      var j := p - |D|;
      assert t[|D|..] == y;
      assert NoNewline(y, 0, j) by {
        forall k | 0 <= k < j ensures y[k] != '\n' {
          assert y[k] == t[|D|..][k] == t[|D| + k];
        }
      }
      assert t[p] == y[j];
    } else {
      assert t[q..|D|] == T by {
        assert t[..|D|] == D;
      }
      assert t[p] == T[p - q];
      assert T == [q2] + ws2 + IncludeClose;
      if p - q <= |ws2| {
        assert T[p - q] == ws2[p - q - 1];
      } else {
        assert T[p - q] == IncludeClose[p - q - 1 - |ws2|];
      }
    }
  }

  /** A directive written out, followed by a line with no quote, is matched as written. */
  lemma DirectiveTextMatches(q1: char, ws1: string, name: string, q2: char, ws2: string, y: string)
    requires IsQuote(q1) && IsQuote(q2) && Blanks(ws1) && Blanks(ws2) && IncludeName(name)
    requires NoQuoteOnLine(y)
    ensures var D := DirectiveText(q1, ws1, name, q2, ws2);
            DirectivePrefix(D + y) == Some(Directive(10 + |ws1|, |name|, |D|))
  {
    var D := DirectiveText(q1, ws1, name, q2, ws2);
    var t := D + y;
    var a := 10 + |ws1|;
    var L := |name|;
    DirectiveTextShape(q1, ws1, name, q2, ws2, y);
    DirectivePrefixComplete(t, a, L, |D|);
    var d := DirectivePrefix(t).value;
    SpaceRunUnique(t, 10, d.quoteAt);
    SpaceRunUnique(t, 10, a);
    forall p | a + 3 + L < p < |t| && NoNewline(t, a + 3, p) ensures !IsQuote(t[p]) {
      NoLaterQuote(q1, ws1, name, q2, ws2, y, p);
    }
  }

  /** A directive at the start of the text, on a line with no further quote. */
  lemma IncludeAtStart(fs: FileSystem, q1: char, ws1: string, name: string, q2: char, ws2: string, y: string)
    requires IsQuote(q1) && IsQuote(q2) && Blanks(ws1) && Blanks(ws2) && IncludeName(name)
    requires NoQuoteOnLine(y)
    ensures var D := DirectiveText(q1, ws1, name, q2, ws2);
            ExpandIncludes(fs, D + y)
            == (if name in fs then fs[name] else ErrorMarker(D)) + ExpandIncludes(fs, y)
  {
    var D := DirectiveText(q1, ws1, name, q2, ws2);
    var t := D + y;
    DirectiveTextMatches(q1, ws1, name, q2, ws2, y);
    var d := DirectivePrefix(t).value;
    ExpandDirectiveStep(fs, t);
    assert DirectiveName(t, d) == name by {
      assert t[..|D|] == D;
      assert D[d.quoteAt + 3..d.quoteAt + 3 + d.nameLen] == name;
    }
    assert t[..d.end] == D;
    assert t[d.end..] == y;
  }

  /**
   * One directive whose line holds no further quote, after text without a
   * brace: the text before it is kept, the directive becomes the named file's
   * content (inserted as it is, never searched again) or the error marker
   * around the directive's own text, and expansion goes on after it.
   */
  lemma IncludeOne(fs: FileSystem, x: string, q1: char, ws1: string, name: string, q2: char, ws2: string, y: string)
    requires forall k :: 0 <= k < |x| ==> x[k] != '{'
    requires IsQuote(q1) && IsQuote(q2) && Blanks(ws1) && Blanks(ws2) && IncludeName(name)
    requires NoQuoteOnLine(y)
    ensures var D := DirectiveText(q1, ws1, name, q2, ws2);
            ExpandIncludes(fs, x + D + y)
            == x + (if name in fs then fs[name] else ErrorMarker(D)) + ExpandIncludes(fs, y)
  {
    var D := DirectiveText(q1, ws1, name, q2, ws2);
    var inserted := if name in fs then fs[name] else ErrorMarker(D);
    calc {
      ExpandIncludes(fs, x + D + y);
      { ConcatAssoc(x, D, y); }
      ExpandIncludes(fs, x + (D + y));
      { ExpandSkip(fs, x, D + y); }
      x + ExpandIncludes(fs, D + y);
      { IncludeAtStart(fs, q1, ws1, name, q2, ws2, y); }
      x + (inserted + ExpandIncludes(fs, y));
      { ConcatAssoc(x, inserted, ExpandIncludes(fs, y)); }
      x + inserted + ExpandIncludes(fs, y);
    }
  }

  /** A directive in brace-free text: the text on both sides is kept as it is. */
  lemma IncludeInText(fs: FileSystem, x: string, q1: char, ws1: string, name: string, q2: char, ws2: string, y: string)
    requires forall k :: 0 <= k < |x| ==> x[k] != '{'
    requires forall k :: 0 <= k < |y| ==> y[k] != '{'
    requires IsQuote(q1) && IsQuote(q2) && Blanks(ws1) && Blanks(ws2) && IncludeName(name)
    requires NoQuoteOnLine(y)
    ensures var D := DirectiveText(q1, ws1, name, q2, ws2);
            ExpandIncludes(fs, x + D + y)
            == x + (if name in fs then fs[name] else ErrorMarker(D)) + y
  {
    IncludeOne(fs, x, q1, ws1, name, q2, ws2, y);
    ExpandSkip(fs, y, []);
    assert y + [] == y;
  }

  /** Two directives on one line, seen as one directive with a longer name. */
  lemma TwoDirectivesAsOne(n1: string, n2: string)
    requires IncludeName(n1) && IncludeName(n2)
    ensures var merged := n1 + "' %} {% include './" + n2;
            IncludeName(merged) &&
            DirectiveText('\'', " ", n1, '\'', " ") + " " + DirectiveText('\'', " ", n2, '\'', " ")
            == DirectiveText('\'', " ", merged, '\'', " ")
  {
    var H, T := DirectiveHead('\'', " "), DirectiveTail('\'', " ");
    var M := "' %} {% include './";
    var merged := n1 + M + n2;
    assert IncludeName(merged) by {
      MergedName(n1, M, n2);
    }
    assert DirectiveText('\'', " ", n1, '\'', " ") + " " + DirectiveText('\'', " ", n2, '\'', " ")
        == DirectiveText('\'', " ", merged, '\'', " ") by {
      assert M == T + " " + H;
      assert H + n1 + T + " " + (H + n2 + T) == H + (n1 + (T + " " + H) + n2) + T;
    }
  }

  /** Two file names joined by text without a newline form one possible file name. */
  lemma MergedName(n1: string, m: string, n2: string)
    requires IncludeName(n1) && IncludeName(n2) && forall k :: 0 <= k < |m| ==> m[k] != '\n'
    ensures IncludeName(n1 + m + n2)
  {
    var merged := n1 + m + n2;
    assert merged[|merged| - 3..] == n2[|n2| - 3..];
    forall k | 0 <= k < |merged| ensures merged[k] != '\n' {
      if k < |n1| {
        assert merged[k] == n1[k];
      } else if k >= |merged| - |n2| {
        assert merged[k] == n2[k - (|merged| - |n2|)];
      } else {
        assert merged[k] == m[k - |n1|];
      }
    }
  }

  /**
   * The greedy file name spans two directives on one line: the first `.j2'`
   * is not where the name ends when a later one on the same line lets the
   * expression close. Both directives are replaced together, by the file whose
   * name runs from the first name to the second.
   */
  lemma IncludeGreedyOnOneLine(fs: FileSystem, n1: string, n2: string, y: string)
    requires IncludeName(n1) && IncludeName(n2) && NoQuoteOnLine(y)
    ensures var D1 := DirectiveText('\'', " ", n1, '\'', " ");
            var D2 := DirectiveText('\'', " ", n2, '\'', " ");
            var merged := n1 + "' %} {% include './" + n2;
            ExpandIncludes(fs, D1 + " " + D2 + y)
            == (if merged in fs then fs[merged] else ErrorMarker(D1 + " " + D2)) + ExpandIncludes(fs, y)
  {
    var merged := n1 + "' %} {% include './" + n2;
    TwoDirectivesAsOne(n1, n2);
    assert Blanks(" ");
    IncludeAtStart(fs, '\'', " ", merged, '\'', " ", y);
  }

  // ---------------------------------------------------------------------------
  // The static url token

  const StaticOpen: string := "{{"
  const StaticName: string := "static_url"
  const StaticClose: string := "}}"
  const StaticUrl: string := "/"

  /** A token `{{ static_url }}` at the start of `t`, its name at `i`, its `}}` at `j`. */
  datatype StaticToken = StaticToken(nameAt: nat, closeAt: nat)

  predicate StaticAt(t: string, i: nat, j: nat) {
    && IsPrefix(StaticOpen, t) && 2 <= i && i + 10 <= j && j + 2 <= |t|
    && AllSpace(t, 2, i) && t[i..i + 10] == StaticName
    && AllSpace(t, i + 10, j) && t[j..j + 2] == StaticClose
  }

  function StaticPrefix(t: string): (r: Option<StaticToken>)
    ensures r.Some? ==> StaticAt(t, r.value.nameAt, r.value.closeAt)
  {
    if !IsPrefix(StaticOpen, t) then None
    else
      var i := SpaceRunEnd(t, 2);
      if i + 10 <= |t| && t[i..i + 10] == StaticName then
        var j := SpaceRunEnd(t, i + 10);
        if j + 2 <= |t| && t[j..j + 2] == StaticClose then Some(StaticToken(i, j)) else None
      else None
  }

  /** Every way to read a token at the start of `t` is the one StaticPrefix reads. */
  lemma StaticPrefixComplete(t: string, i: nat, j: nat)
    requires StaticAt(t, i, j)
    ensures StaticPrefix(t) == Some(StaticToken(i, j))
  {
    assert t[i] == 's' && t[j] == '}';
    SpaceRunUnique(t, 2, i);
    SpaceRunUnique(t, i + 10, j);
  }

  /** Whether a token starts at the start of `t` depends only on the token's own text. */
  lemma StaticAtPrefix(t: string, u: string, i: nat, j: nat)
    requires StaticAt(t, i, j) && IsPrefix(t[..j + 2], u)
    ensures StaticAt(u, i, j)
  {
    assert u[..j + 2] == t[..j + 2];
    assert forall k :: 0 <= k < j + 2 ==> u[k] == t[k];
    assert u[i..i + 10] == t[i..i + 10];
    assert u[j..j + 2] == t[j..j + 2];
    assert u[..2] == t[..2];
  }

  /** A token starts with a brace. */
  lemma NoStaticTokenWithoutBrace(t: string)
    requires |t| > 0 && t[0] != '{'
    ensures StaticPrefix(t).None?
  {
    if |t| >= 2 {
      assert t[..2][0] == t[0];
    }
  }

  /** One step of the substitution where no token starts. */
  lemma SubstitutePlainStep(s: string)
    requires |s| > 0 && StaticPrefix(s).None?
    ensures SubstituteStaticUrl(s) == [s[0]] + SubstituteStaticUrl(s[1..])
  {
  }

  /** One step of the substitution where a token starts. */
  lemma SubstituteTokenStep(s: string)
    requires StaticPrefix(s).Some?
    ensures SubstituteStaticUrl(s) == StaticUrl + SubstituteStaticUrl(s[StaticPrefix(s).value.closeAt + 2..])
  {
    assert s[0] == s[..2][0] == '{';
  }

  /** A token holds no slash, so the replacement `/` is never part of one. */
  lemma StaticTokenHasNoSlash(t: string, i: nat, j: nat)
    requires StaticAt(t, i, j)
    ensures forall k :: 0 <= k < j + 2 ==> t[k] != '/'
  {
    forall k | 0 <= k < j + 2 ensures t[k] != '/' {
      if k < 2 {
        assert t[k] == t[..2][k];
      } else if i <= k < i + 10 {
        assert t[k] == t[i..i + 10][k - i];
      } else if j <= k {
        assert t[k] == t[j..j + 2][k - j];
      }
    }
  }

  predicate NoStaticToken(s: string) {
    forall k :: 0 <= k < |s| ==> StaticPrefix(s[k..]).None?
  }

  /** reStatic.ReplaceAllString(s, "/"). */
  function SubstituteStaticUrl(s: string): (r: string)
    decreases |s|
  {
    if s == [] then []
    // a token starts with `{`, so any other character is copied at once
    else if s[0] != '{' then [s[0]] + SubstituteStaticUrl(s[1..])
    else match StaticPrefix(s)
      case Some(m) => StaticUrl + SubstituteStaticUrl(s[m.closeAt + 2..])
      case None => [s[0]] + SubstituteStaticUrl(s[1..])
  }

  /** Up to the first slash it writes, the substitution copies its input. */
  lemma {:induction false} SubstituteAgrees(s: string, e: nat)
    ensures var o := SubstituteStaticUrl(s);
            e <= |o| && (forall k :: 0 <= k < e ==> o[k] != '/') ==> e <= |s| && o[..e] == s[..e]
    decreases |s|
  {
    if s != [] && e > 0 {
      var o := SubstituteStaticUrl(s);
      if StaticPrefix(s).Some? {
        SubstituteTokenStep(s);
        assert o[0] == '/';
      } else {
        var o' := SubstituteStaticUrl(s[1..]);
        assert o == [s[0]] + o' by {
          SubstitutePlainStep(s);
        }
        if e <= |o| && forall k :: 0 <= k < e ==> o[k] != '/' {
          assert e - 1 <= |s[1..]| && o'[..e - 1] == s[1..][..e - 1] by {
            forall k | 0 <= k < e - 1 ensures o'[k] != '/' {
              assert o[k + 1] == o'[k];
            }
            SubstituteAgrees(s[1..], e - 1);
          }
          assert o[..e] == [s[0]] + o'[..e - 1];
          assert s[..e] == [s[0]] + s[1..][..e - 1];
        }
      }
    }
  }

  /** A token at the start of the output was already a token at the start of the input. */
  lemma SubstituteFirstToken(s: string)
    ensures StaticPrefix(SubstituteStaticUrl(s)).Some? ==>
              StaticPrefix(s) == StaticPrefix(SubstituteStaticUrl(s))
  {
    var o := SubstituteStaticUrl(s);
    match StaticPrefix(o)
    case None =>
    case Some(m) =>
      var e := m.closeAt + 2;
      assert StaticAt(o, m.nameAt, m.closeAt);
      assert e <= |s| && o[..e] == s[..e] by {
        StaticTokenHasNoSlash(o, m.nameAt, m.closeAt);
        SubstituteAgrees(s, e);
      }
      assert StaticAt(s, m.nameAt, m.closeAt) by {
        StaticAtPrefix(o, s, m.nameAt, m.closeAt);
      }
      StaticPrefixComplete(s, m.nameAt, m.closeAt);
  }

  /** The suffixes of `[c] + r` past the first are the suffixes of `r`. */
  lemma NoTokenAfterFirst(c: seq<char>, r: string)
    requires |c| == 1 && NoStaticToken(r) && StaticPrefix(c + r).None?
    ensures NoStaticToken(c + r)
  {
    var o := c + r;
    forall k | 0 <= k < |o| ensures StaticPrefix(o[k..]).None? {
      if k == 0 {
        assert o[0..] == o;
      } else {
        assert o[k..] == r[k - 1..];
      }
    }
  }

  /** No `{{ static_url }}` token is left after the substitution, not even one its slashes could form. */
  lemma {:induction false} SubstituteLeavesNoToken(s: string)
    ensures NoStaticToken(SubstituteStaticUrl(s))
    decreases |s|
  {
    if s != [] {
      if StaticPrefix(s).Some? {
        var rest := s[StaticPrefix(s).value.closeAt + 2..];
        SubstituteTokenStep(s);
        SubstituteLeavesNoToken(rest);
        NoStaticTokenWithoutBrace(StaticUrl + SubstituteStaticUrl(rest));
        NoTokenAfterFirst(StaticUrl, SubstituteStaticUrl(rest));
      } else {
        SubstitutePlainStep(s);
        SubstituteLeavesNoToken(s[1..]);
        SubstituteFirstToken(s);
        NoTokenAfterFirst([s[0]], SubstituteStaticUrl(s[1..]));
      }
    }
  }

  /** Text in which no token starts comes back unchanged. */
  lemma {:induction false} SubstituteNoToken(s: string)
    requires NoStaticToken(s)
    ensures SubstituteStaticUrl(s) == s
    decreases |s|
  {
    if s != [] {
      assert s[0..] == s;
      SubstitutePlainStep(s);
      forall k | 0 <= k < |s| - 1 ensures StaticPrefix(s[1..][k..]).None? {
        assert s[1..][k..] == s[k + 1..];
      }
      SubstituteNoToken(s[1..]);
    }
  }

  /** Substituting twice is substituting once. */
  lemma SubstituteIdempotent(s: string)
    ensures SubstituteStaticUrl(SubstituteStaticUrl(s)) == SubstituteStaticUrl(s)
  {
    SubstituteLeavesNoToken(s);
    SubstituteNoToken(SubstituteStaticUrl(s));
  }

  /** A character other than a brace is copied through, and the substitution goes on after it. */
  lemma SubstituteCons(c: char, r: string)
    requires c != '{'
    ensures SubstituteStaticUrl([c] + r) == [c] + SubstituteStaticUrl(r)
  {
    var s := [c] + r;
    assert s[0] == c && s[1..] == r;
    NoStaticTokenWithoutBrace(s);
    SubstitutePlainStep(s);
  }

  /** Text without a brace is copied through unchanged. */
  lemma {:induction false} SubstituteSkip(x: string, y: string)
    requires forall k :: 0 <= k < |x| ==> x[k] != '{'
    ensures SubstituteStaticUrl(x + y) == x + SubstituteStaticUrl(y)
    decreases |x|
  {
    if x == [] {
      assert x + y == y;
    } else {
      var c, x' := x[0], x[1..];
      calc {
        SubstituteStaticUrl(x + y);
        { assert x + y == [c] + (x' + y); }
        SubstituteStaticUrl([c] + (x' + y));
        { SubstituteCons(c, x' + y); }
        [c] + SubstituteStaticUrl(x' + y);
        { SubstituteSkip(x', y); }
        [c] + (x' + SubstituteStaticUrl(y));
        { assert x == [c] + x'; ConcatAssoc([c], x', SubstituteStaticUrl(y)); }
        x + SubstituteStaticUrl(y);
      }
    }
  }

  /** A token written out with any blanks is read at the start of the text. */
  lemma StaticTextAt(ws1: string, ws2: string, y: string)
    requires forall k :: 0 <= k < |ws1| ==> IsSpace(ws1[k])
    requires forall k :: 0 <= k < |ws2| ==> IsSpace(ws2[k])
    ensures StaticAt(StaticOpen + ws1 + StaticName + ws2 + StaticClose + y, 2 + |ws1|, 12 + |ws1| + |ws2|)
  {
    var t := StaticOpen + ws1 + StaticName + ws2 + StaticClose + y;
    var i := 2 + |ws1|;
    var j := i + 10 + |ws2|;
    assert t[..2] == StaticOpen;
    assert t[2..i] == ws1;
    assert t[i..i + 10] == StaticName;
    assert t[i + 10..j] == ws2;
    assert t[j..j + 2] == StaticClose;
    forall k | 2 <= k < i ensures IsSpace(t[k]) {
      assert t[k] == t[2..i][k - 2];
    }
    forall k | i + 10 <= k < j ensures IsSpace(t[k]) {
      assert t[k] == t[i + 10..j][k - i - 10];
    }
  }

  /** Every way of writing the token, whatever blanks it holds, becomes `/`. */
  lemma StaticTokenBecomesSlash(ws1: string, ws2: string, y: string)
    requires forall k :: 0 <= k < |ws1| ==> IsSpace(ws1[k])
    requires forall k :: 0 <= k < |ws2| ==> IsSpace(ws2[k])
    ensures SubstituteStaticUrl(StaticOpen + ws1 + StaticName + ws2 + StaticClose + y)
            == StaticUrl + SubstituteStaticUrl(y)
  {
    var t := StaticOpen + ws1 + StaticName + ws2 + StaticClose + y;
    var i := 2 + |ws1|;
    var j := i + 10 + |ws2|;
    StaticTextAt(ws1, ws2, y);
    StaticPrefixComplete(t, i, j);
    SubstituteTokenStep(t);
    assert t[j + 2..] == y;
  }

  /**
   * One token in text that has no other brace: the text around it is kept
   * and the token, whatever blanks it holds, becomes `/`.
   */
  lemma StaticTokenInText(x: string, ws1: string, ws2: string, y: string)
    requires forall k :: 0 <= k < |x| ==> x[k] != '{'
    requires forall k :: 0 <= k < |y| ==> y[k] != '{'
    requires forall k :: 0 <= k < |ws1| ==> IsSpace(ws1[k])
    requires forall k :: 0 <= k < |ws2| ==> IsSpace(ws2[k])
    ensures SubstituteStaticUrl(x + (StaticOpen + ws1 + StaticName + ws2 + StaticClose) + y) == x + StaticUrl + y
  {
    var token := StaticOpen + ws1 + StaticName + ws2 + StaticClose;
    StaticTokenBecomesSlash(ws1, ws2, y);
    SubstituteSkip(y, []);
    assert y + [] == y;
    SubstituteSkip(x, token + y);
    ConcatAssoc(x, token, y);
    ConcatAssoc(x, StaticUrl, y);
  }

  // ---------------------------------------------------------------------------
  // Resolution

  /** Include expansion, then the static url substitution (serve.go:138-142). */
  function ResolveTemplate(fs: FileSystem, content: string): (r: string)
    ensures NoStaticToken(r)
  {
    SubstituteLeavesNoToken(ExpandIncludes(fs, content));
    SubstituteStaticUrl(ExpandIncludes(fs, content))
  }

  /** What renderView settles on before it calls the renderer. */
  datatype Choice = Choice(content: string, template: string, payloadName: string)

  /**
   * The template read (the requested one unless it is missing and there is a
   * fallback), its content, and the name sent as the payload's filename: the
   * fallback whenever there is one, whichever file was read.
   */
  function ChooseTemplate(fs: FileSystem, filename: string, fallback: string): (c: Choice)
    ensures c.template == filename || c.template == fallback
    ensures c.content == ReadOrEmpty(fs, c.template)
    // the fallback is read exactly when the requested template is missing and a fallback is given
    ensures fallback != filename ==> (c.template == fallback <==> filename !in fs && fallback != "")
    // the renderer is told the fallback's name whenever there is one, even when it was not read
    ensures c.payloadName != c.template <==> filename in fs && fallback != "" && fallback != filename
    // the payload names the fallback whenever one is given, whichever file was read
    ensures fallback != "" ==> c.payloadName == fallback
    // without a fallback, the requested name is both read and sent
    ensures fallback == "" ==> c.template == filename && c.payloadName == filename
  {
    var template := if filename !in fs && fallback != "" then fallback else filename;
    var payloadName := if fallback != "" then fallback else filename;
    Choice(ReadOrEmpty(fs, template), template, payloadName)
  }
}
