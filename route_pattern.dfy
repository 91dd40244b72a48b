/**
 * Compilation of a route pattern (`compilePath` in matchPath.ts).
 *
 * The source builds a regular expression text. Here the compiled pattern is the
 * sequence of things that expression matches one after the other: literal
 * characters (regular-expression metacharacters of the pattern are escaped, so
 * every pattern character other than a `:name` parameter is literal) and
 * parameters, followed by one of four tails that the source appends.
 */
module RoutePattern {

  /** `\w` of JavaScript regular expressions: `[A-Za-z0-9_]`. */
  predicate IsWordChar(c: char) {
    'a' <= c <= 'z' || 'A' <= c <= 'Z' || '0' <= c <= '9' || c == '_'
  }

  predicate AllWordChars(s: string) {
    forall k :: 0 <= k < |s| ==> IsWordChar(s[k])
  }

  predicate AllSlashes(s: string) {
    forall k :: 0 <= k < |s| ==> s[k] == '/'
  }

  /** One element of the compiled pattern: a literal character, or `([^\/]+)` captured for a parameter. */
  datatype Token = Lit(c: char) | Param(name: string)

  /** What the source appends after the pattern's own text. */
  datatype Tail =
    | TrailingSlashes  // `\/*$`: end = true and no `*`
    | Boundary         // `(?:(?=[.~-]|%[0-9A-F]{2})|\b|\/|$)`: end = false and no `*`
    | Rest             // `(.*)$`: the pattern is `*` or `/*`
    | SlashRest        // `(?:\/(.+)|\/*)$`: any other pattern ending in `*`

  /** The compiled matcher: the regular expression and its `i` flag. */
  datatype Matcher = Matcher(tokens: seq<Token>, tail: Tail, caseSensitive: bool)

  predicate EndsWithStar(p: string) {
    |p| > 0 && p[|p| - 1] == '*'
  }

  predicate IsSplatTail(t: Tail) {
    t.Rest? || t.SlashRest?
  }

  function DropTrailingSlashes(s: string): (r: string)
    ensures r <= s && AllSlashes(s[|r|..])
    ensures r == [] || r[|r| - 1] != '/'
  {
    if s != [] && s[|s| - 1] == '/' then DropTrailingSlashes(s[..|s| - 1]) else s
  }

  function DropLeadingSlashes(s: string): (r: string)
    ensures |r| <= |s| && r == s[|s| - |r|..] && AllSlashes(s[..|s| - |r|])
    ensures r == [] || r[0] != '/'
  {
    if s != [] && s[0] == '/' then
      var r := DropLeadingSlashes(s[1..]);
      DropLeadingStep(s, r);
      r
    else s
  }

  // One more leading slash in front: the same remainder, one more slash dropped.
  lemma DropLeadingStep(s: string, r: string)
    requires s != [] && s[0] == '/'
    requires |r| <= |s| - 1 && r == s[1..][|s| - 1 - |r|..] && AllSlashes(s[1..][..|s| - 1 - |r|])
    ensures r == s[|s| - |r|..] && AllSlashes(s[..|s| - |r|])
  {
    assert s[1..][|s| - 1 - |r|..] == s[|s| - |r|..];
    forall k | 0 <= k < |s| - |r| ensures s[k] == '/' {
      if k > 0 {
        assert s[k] == s[1..][..|s| - 1 - |r|][k - 1];
      }
    }
  }

  // The first replace of compilePath (trailing slashes and star pattern): drop one final `*`,
  // then every `/` before it.
  function StripTrailing(p: string): (r: string)
    ensures r <= p
  {
    DropTrailingSlashes(if EndsWithStar(p) then p[..|p| - 1] else p)
  }

  // What that replace's expression matches: slashes, optionally followed by one `*`, up to the end.
  predicate IsTrailer(t: string) {
    AllSlashes(t) || (EndsWithStar(t) && AllSlashes(t[..|t| - 1]))
  }

  /** The text of the pattern before the tail is appended: stripped, with exactly one leading `/`. */
  function Normalize(p: string): (r: string)
    ensures |r| > 0 && r[0] == '/'
  {
    "/" + DropLeadingSlashes(StripTrailing(p))
  }

  /** Length of the run of word characters at the front of `s`: what `\w+` takes. */
  function WordRunLength(s: string): (n: nat)
    ensures n <= |s| && AllWordChars(s[..n])
    ensures n < |s| ==> !IsWordChar(s[n])
  {
    if s != [] && IsWordChar(s[0]) then 1 + WordRunLength(s[1..]) else 0
  }

  /** The global replacement of `/:(\w+)/g`, left to right. */
  function Tokenize(s: string): seq<Token>
    decreases |s|
  {
    if s == [] then []
    else if s[0] == ':' && |s| > 1 && IsWordChar(s[1]) then
      var n := WordRunLength(s[1..]);
      [Param(s[1..1 + n])] + Tokenize(s[1 + n..])
    else [Lit(s[0])] + Tokenize(s[1..])
  }

  function TokenText(t: Token): string {
    match t
    case Lit(c) => [c]
    case Param(name) => ":" + name
  }

  /** The pattern text a token sequence stands for. */
  function Render(toks: seq<Token>): string {
    if toks == [] then [] else TokenText(toks[0]) + Render(toks[1..])
  }

  /** The parameter names of a token sequence, left to right. */
  function TokenNames(toks: seq<Token>): seq<string> {
    if toks == [] then []
    else (if toks[0].Param? then [toks[0].name] else []) + TokenNames(toks[1..])
  }

  function TailFor(path: string, end: bool): Tail {
    if EndsWithStar(path) then (if path == "*" || path == "/*" then Rest else SlashRest)
    else if end then TrailingSlashes
    else Boundary
  }

  /** compilePath's regular expression. */
  function Compile(path: string, caseSensitive: bool, end: bool): Matcher {
    Matcher(Tokenize(Normalize(path)), TailFor(path, end), caseSensitive)
  }

  /** compilePath's `paramNames`: the `:name` parameters, then `*` when there is a splat. */
  function ParamNames(m: Matcher): seq<string> {
    TokenNames(m.tokens) + (if IsSplatTail(m.tail) then ["*"] else [])
  }

  /** The pattern shape compilePath warns about: a `*` that does not follow a `/`. */
  predicate WarnsAboutStar(path: string) {
    !(path == "*" || !EndsWithStar(path) || (|path| >= 2 && path[|path| - 2..] == "/*"))
  }

  /** compilePath: the `:name` replacement over the normalised pattern, then the tail. */
  method CompilePath(path: string, caseSensitive: bool, end: bool) returns (matcher: Matcher, paramNames: seq<string>)
    ensures matcher == Compile(path, caseSensitive, end)
    ensures paramNames == ParamNames(matcher)
  {
    var tokens;
    tokens, paramNames := ReplaceParams(Normalize(path));
    if EndsWithStar(path) {
      paramNames := paramNames + ["*"];
    }
    matcher := Matcher(tokens, TailFor(path, end), caseSensitive);
    assert IsSplatTail(matcher.tail) == EndsWithStar(path);
  }

  /**
   * The global `/:(\w+)/g` replacement: scans the pattern left to right, and for
   * each `:name` pushes `name` onto the parameter names as it emits the capture.
   */
  method ReplaceParams(src: string) returns (tokens: seq<Token>, paramNames: seq<string>)
    ensures tokens == Tokenize(src)
    ensures paramNames == TokenNames(tokens)
  {
    tokens := [];
    paramNames := [];
    var i := 0;
    while i < |src|
      invariant 0 <= i <= |src|
      invariant tokens + Tokenize(src[i..]) == Tokenize(src)
      invariant paramNames == TokenNames(tokens)
    {
      if src[i] == ':' && i + 1 < |src| && IsWordChar(src[i + 1]) {
        var j := WordRunEnd(src, i + 1);
        TokenizeParamStep(src, i, j);
        AppendOne(tokens, Param(src[i + 1..j]), Tokenize(src[j..]), Tokenize(src));
        TokenNamesAppend(tokens, [Param(src[i + 1..j])]);
        paramNames := paramNames + [src[i + 1..j]];
        tokens := tokens + [Param(src[i + 1..j])];
        i := j;
      } else {
        TokenizeLitStep(src, i);
        AppendOne(tokens, Lit(src[i]), Tokenize(src[i + 1..]), Tokenize(src));
        TokenNamesAppend(tokens, [Lit(src[i])]);
        tokens := tokens + [Lit(src[i])];
        i := i + 1;
      }
    }
    assert src[i..] == [];
  }

  /** Where the run of word characters starting at `start` ends: the extent of `\w+`. */
  method WordRunEnd(s: string, start: nat) returns (j: nat)
    requires start <= |s|
    ensures start <= j <= |s| && AllWordChars(s[start..j])
    ensures j < |s| ==> !IsWordChar(s[j])
  {
    j := start;
    while j < |s| && IsWordChar(s[j])
      invariant start <= j <= |s|
      invariant AllWordChars(s[start..j])
    {
      assert s[start..j + 1] == s[start..j] + [s[j]];
      j := j + 1;
    }
  }

  // ---------------------------------------------------------------------------
  // Helpers

  lemma {:induction false} WordRunUnique(s: string, m: nat)
    requires m <= |s| && AllWordChars(s[..m]) && (m < |s| ==> !IsWordChar(s[m]))
    ensures WordRunLength(s) == m
    decreases m
  {
    if m > 0 {
      assert s[..m][0] == s[0];
      assert s[1..][..m - 1] == s[..m][1..];
      assert m - 1 < |s[1..]| ==> s[1..][m - 1] == s[m];
      WordRunUnique(s[1..], m - 1);
    }
  }

  /** One step of `Tokenize` at position `i` of `s`. */
  lemma TokenizeAt(s: string, i: nat)
    requires i < |s|
    ensures s[i] == ':' && i + 1 < |s| && IsWordChar(s[i + 1]) ==>
      var n := WordRunLength(s[i + 1..]);
      Tokenize(s[i..]) == [Param(s[i + 1..i + 1 + n])] + Tokenize(s[i + 1 + n..])
    ensures !(s[i] == ':' && i + 1 < |s| && IsWordChar(s[i + 1])) ==>
      Tokenize(s[i..]) == [Lit(s[i])] + Tokenize(s[i + 1..])
  {
    var t := s[i..];
    assert t[1..] == s[i + 1..];
    if s[i] == ':' && i + 1 < |s| && IsWordChar(s[i + 1]) {
      var n := WordRunLength(s[i + 1..]);
      assert t[1 + n..] == s[i + 1 + n..];
      assert t[1..1 + n] == s[i + 1..i + 1 + n];
    }
  }

  /** A parameter token read at position `i`, where the word run of its name ends at `j`. */
  lemma TokenizeParamStep(s: string, i: nat, j: nat)
    requires i + 1 < j <= |s| && s[i] == ':' && AllWordChars(s[i + 1..j])
    requires j < |s| ==> !IsWordChar(s[j])
    ensures Tokenize(s[i..]) == [Param(s[i + 1..j])] + Tokenize(s[j..])
  {
    assert s[i + 1..][..j - i - 1] == s[i + 1..j];
    WordRunUnique(s[i + 1..], j - i - 1);
    TokenizeAt(s, i);
  }

  /** A literal token read at position `i`. */
  lemma TokenizeLitStep(s: string, i: nat)
    requires i < |s| && !(s[i] == ':' && i + 1 < |s| && IsWordChar(s[i + 1]))
    ensures Tokenize(s[i..]) == [Lit(s[i])] + Tokenize(s[i + 1..])
  {
    TokenizeAt(s, i);
  }

  lemma AppendOne(a: seq<Token>, t: Token, b: seq<Token>, w: seq<Token>)
    requires a + ([t] + b) == w
    ensures (a + [t]) + b == w
  {
    assert (a + [t]) + b == a + ([t] + b);
  }

  lemma {:induction false} TokenNamesAppend(a: seq<Token>, b: seq<Token>)
    ensures TokenNames(a + b) == TokenNames(a) + TokenNames(b)
  {
    if a == [] {
      assert a + b == b;
    } else {
      assert (a + b)[0] == a[0];
      assert (a + b)[1..] == a[1..] + b;
      TokenNamesAppend(a[1..], b);
    }
  }

  // ---------------------------------------------------------------------------
  // Properties of the compiled pattern

  // `StripTrailing` removes exactly what the trailing-slash-and-star expression matches: the
  // remainder is slashes and at most one final `*`, and no earlier cut leaves such a remainder.
  lemma StripTrailingIsShortestTrailer(p: string)
    ensures var r := StripTrailing(p);
      && r <= p
      && IsTrailer(p[|r|..])
      && forall k :: 0 <= k < |r| ==> !IsTrailer(p[k..])
  {
    var q := if EndsWithStar(p) then p[..|p| - 1] else p;
    var r := StripTrailing(p);
    assert r <= q;
    if EndsWithStar(p) {
      assert p[|r|..][..|p[|r|..]| - 1] == q[|r|..];
    } else {
      assert p[|r|..] == q[|r|..];
    }
    forall k | 0 <= k < |r|
      ensures !IsTrailer(p[k..])
    {
      var t := p[k..];
      var x := |r| - 1 - k;
      assert t[x] == r[|r| - 1] != '/';
      if EndsWithStar(t) && x < |t| - 1 {
        assert t[..|t| - 1][x] == t[x];
      }
    }
  }

  /** Every character of the pattern is kept: rendering the tokens gives the text back. */
  lemma {:induction false} RenderTokenize(s: string)
    ensures Render(Tokenize(s)) == s
    decreases |s|
  {
    if s != [] {
      if s[0] == ':' && |s| > 1 && IsWordChar(s[1]) {
        var n := WordRunLength(s[1..]);
        RenderTokenize(s[1 + n..]);
        RenderParamStep(s, n);
      } else {
        RenderTokenize(s[1..]);
        RenderLitStep(s);
      }
    }
  }

  // Rendering a parameter token followed by the rest of the pattern.
  lemma RenderParamStep(s: string, n: nat)
    requires |s| > 1 && s[0] == ':' && IsWordChar(s[1]) && n == WordRunLength(s[1..])
    requires Render(Tokenize(s[1 + n..])) == s[1 + n..]
    ensures Render(Tokenize(s)) == s
  {
    assert Tokenize(s) == [Param(s[1..1 + n])] + Tokenize(s[1 + n..]);
    RenderCons(Param(s[1..1 + n]), Tokenize(s[1 + n..]));
    ColonSplit(s, 1 + n);
  }

  // A text starting with `:` is the colon, the stretch up to `j`, and the rest.
  lemma ColonSplit(s: string, j: nat)
    requires 1 <= j <= |s| && s[0] == ':'
    ensures ":" + s[1..j] + s[j..] == s
  {
    assert s == s[..1] + s[1..j] + s[j..];
  }

  // Rendering a literal token followed by the rest of the pattern.
  lemma RenderLitStep(s: string)
    requires s != [] && !(s[0] == ':' && |s| > 1 && IsWordChar(s[1]))
    requires Render(Tokenize(s[1..])) == s[1..]
    ensures Render(Tokenize(s)) == s
  {
    RenderCons(Lit(s[0]), Tokenize(s[1..]));
    assert [s[0]] + s[1..] == s;
  }

  lemma RenderCons(t: Token, rest: seq<Token>)
    ensures Render([t] + rest) == TokenText(t) + Render(rest)
  {
    assert ([t] + rest)[1..] == rest;
  }

  /** The first character a token renders to. */
  function FirstChar(t: Token): char {
    match t
    case Lit(c) => c
    case Param(_) => ':'
  }

  /**
   * The shape of the output of the `:name` replacement: every parameter name is a
   * non-empty run of word characters that is not followed by another word
   * character, and a literal `:` is never followed by a word character.
   */
  ghost predicate WellTokenized(toks: seq<Token>)
    decreases |toks|
  {
    || toks == []
    || (&& (toks[0].Param? ==> |toks[0].name| > 0 && AllWordChars(toks[0].name))
        && ((toks[0].Param? || toks[0] == Lit(':')) && |toks| > 1 ==> !IsWordChar(FirstChar(toks[1])))
        && WellTokenized(toks[1..]))
  }

  lemma {:induction false} TokenizeWellTokenized(s: string)
    ensures WellTokenized(Tokenize(s))
    decreases |s|
  {
    if s != [] {
      if s[0] == ':' && |s| > 1 && IsWordChar(s[1]) {
        var n := WordRunLength(s[1..]);
        TokenizeWellTokenized(s[1 + n..]);
        RenderTokenize(s[1 + n..]);
        WellTokenizedParam(s, n);
      } else {
        TokenizeWellTokenized(s[1..]);
        RenderTokenize(s[1..]);
        WellTokenizedLit(s);
      }
    }
  }

  /** A parameter read at the front keeps the tokens of the rest well formed. */
  lemma WellTokenizedParam(s: string, n: nat)
    requires |s| > 1 && s[0] == ':' && IsWordChar(s[1]) && n == WordRunLength(s[1..])
    requires WellTokenized(Tokenize(s[1 + n..])) && Render(Tokenize(s[1 + n..])) == s[1 + n..]
    ensures WellTokenized(Tokenize(s))
  {
    var rest := Tokenize(s[1 + n..]);
    var toks := Tokenize(s);
    assert toks == [Param(s[1..1 + n])] + rest;
    assert toks[1..] == rest;
    assert s[1..][..n] == s[1..1 + n];
    if rest != [] {
      RenderFirst(rest);
      assert s[1..][n] == s[1 + n];
    }
  }

  /** A literal read at the front keeps the tokens of the rest well formed. */
  lemma WellTokenizedLit(s: string)
    requires s != [] && !(s[0] == ':' && |s| > 1 && IsWordChar(s[1]))
    requires WellTokenized(Tokenize(s[1..])) && Render(Tokenize(s[1..])) == s[1..]
    ensures WellTokenized(Tokenize(s))
  {
    var rest := Tokenize(s[1..]);
    var toks := Tokenize(s);
    assert toks == [Lit(s[0])] + rest;
    assert toks[1..] == rest;
    if rest != [] {
      RenderFirst(rest);
    }
  }

  lemma RenderFirst(toks: seq<Token>)
    requires toks != []
    ensures |Render(toks)| > 0 && Render(toks)[0] == FirstChar(toks[0])
  {
  }

  /** Tokenization is the only well-formed reading of the pattern text. */
  lemma {:induction false} TokenizeUnique(toks: seq<Token>)
    requires WellTokenized(toks)
    ensures Tokenize(Render(toks)) == toks
    decreases |toks|
  {
    if toks != [] {
      var rest := toks[1..];
      TokenizeUnique(rest);
      if rest != [] {
        RenderFirst(rest);
      }
      if toks[0].Lit? {
        TokenizeUniqueLit(toks);
      } else {
        TokenizeUniqueParam(toks);
      }
    }
  }

  /** A literal token in front of a sequence that reads back: the whole reads back. */
  lemma TokenizeUniqueLit(toks: seq<Token>)
    requires toks != [] && toks[0].Lit? && Tokenize(Render(toks[1..])) == toks[1..]
    requires toks[0] == Lit(':') && |toks| > 1 ==> !IsWordChar(FirstChar(toks[1]))
    requires |toks| > 1 ==> |Render(toks[1..])| > 0 && Render(toks[1..])[0] == FirstChar(toks[1])
    ensures Tokenize(Render(toks)) == toks
  {
    var s := Render(toks);
    assert s == [toks[0].c] + Render(toks[1..]);
    assert s[1..] == Render(toks[1..]);
    assert s[0..] == s;
    TokenizeLitStep(s, 0);
    assert [toks[0]] + toks[1..] == toks;
  }

  /** A well-formed parameter token in front of a sequence that reads back: the whole reads back. */
  lemma TokenizeUniqueParam(toks: seq<Token>)
    requires toks != [] && toks[0].Param? && Tokenize(Render(toks[1..])) == toks[1..]
    requires |toks[0].name| > 0 && AllWordChars(toks[0].name)
    requires |toks| > 1 ==> !IsWordChar(FirstChar(toks[1]))
    requires |toks| > 1 ==> |Render(toks[1..])| > 0 && Render(toks[1..])[0] == FirstChar(toks[1])
    ensures Tokenize(Render(toks)) == toks
  {
    var s := Render(toks);
    var name := toks[0].name;
    assert s == ":" + name + Render(toks[1..]);
    assert s[1..1 + |name|] == name;
    assert s[1 + |name|..] == Render(toks[1..]);
    assert s[0..] == s;
    TokenizeParamStep(s, 0, 1 + |name|);
    assert [toks[0]] + toks[1..] == toks;
  }

  /** Without a `:`, every character of the pattern text is a literal token. */
  lemma {:induction false} TokenizeLiteral(s: string)
    requires ':' !in s
    ensures |Tokenize(s)| == |s|
    ensures forall k :: 0 <= k < |s| ==> Tokenize(s)[k] == Lit(s[k])
    ensures TokenNames(Tokenize(s)) == []
    decreases |s|
  {
    if s != [] {
      assert s[0] != ':';
      assert ':' !in s[1..];
      TokenizeLiteral(s[1..]);
    }
  }

  /** Normalizing adds no character other than the leading `/`. */
  lemma NormalizeOmits(path: string, c: char)
    requires c != '/' && c !in path
    ensures c !in Normalize(path)
  {
    var q := if EndsWithStar(path) then path[..|path| - 1] else path;
    var d := DropTrailingSlashes(q);
    var e := DropLeadingSlashes(d);
    var n := Normalize(path);
    assert n == "/" + e;
    forall k | 0 <= k < |n| ensures n[k] != c {
      if k > 0 {
        var j := |d| - |e| + k - 1;
        assert n[k] == e[k - 1] == d[j] == q[j] == path[j];
      }
    }
  }

  // A pattern compilePath warns about compiles exactly like the same pattern with `/` inserted
  // before its final `*`.
  lemma StarWithoutSlashActsAsSlashStar(path: string, caseSensitive: bool, end: bool)
    requires WarnsAboutStar(path)
    ensures Compile(path, caseSensitive, end) == Compile(path[..|path| - 1] + "/*", caseSensitive, end)
    ensures ParamNames(Compile(path, caseSensitive, end)) == TokenNames(Tokenize(Normalize(path))) + ["*"]
  {
    var q := path[..|path| - 1];
    var p2 := q + "/*";
    assert p2[..|p2| - 1] == q + "/";
    assert DropTrailingSlashes(q + "/") == DropTrailingSlashes(q) by {
      assert (q + "/")[..|q + "/"| - 1] == q;
    }
    assert StripTrailing(path) == StripTrailing(p2);
  }

  // A pattern without its leading `/` compiles the same (`users` is `/users`); the one exception
  // is the bare splat pattern, which with a second leading slash is no longer bare.
  lemma LeadingSlashIsOptional(path: string, caseSensitive: bool, end: bool)
    requires path != "/*"
    ensures Compile("/" + path, caseSensitive, end) == Compile(path, caseSensitive, end)
  {
    NormalizeSlashPrefix(path);
    TailForSlashPrefix(path, end);
  }

  lemma TailForSlashPrefix(path: string, end: bool)
    requires path != "/*"
    ensures TailFor("/" + path, end) == TailFor(path, end)
  {
    assert EndsWithStar("/" + path) == EndsWithStar(path);
  }

  lemma NormalizeSlashPrefix(path: string)
    ensures Normalize("/" + path) == Normalize(path)
  {
    var p1 := "/" + path;
    var q := if EndsWithStar(path) then path[..|path| - 1] else path;
    assert (if EndsWithStar(p1) then p1[..|p1| - 1] else p1) == "/" + q by {
      if EndsWithStar(path) { assert p1[..|p1| - 1] == "/" + path[..|path| - 1]; }
    }
    SlashPrefixNormalizes(q);
  }

  lemma {:induction false} SlashPrefixNormalizes(q: string)
    ensures DropLeadingSlashes(DropTrailingSlashes("/" + q)) == DropLeadingSlashes(DropTrailingSlashes(q))
    decreases |q|
  {
    var p := "/" + q;
    if q == [] {
      assert p[..|p| - 1] == [];
      assert DropTrailingSlashes(p) == [];
    } else if q[|q| - 1] == '/' {
      assert p[..|p| - 1] == "/" + q[..|q| - 1];
      assert DropTrailingSlashes(p) == DropTrailingSlashes("/" + q[..|q| - 1]);
      assert DropTrailingSlashes(q) == DropTrailingSlashes(q[..|q| - 1]);
      SlashPrefixNormalizes(q[..|q| - 1]);
    } else {
      assert DropTrailingSlashes(p) == p;
      assert DropTrailingSlashes(q) == q;
      assert p[1..] == q;
      assert DropLeadingSlashes(p) == DropLeadingSlashes(q);
    }
  }

  /**
   * The parameter names, left to right: the `:name` parameters, each a
   * non-empty run of word characters, then `*` exactly when the pattern ends in `*`.
   */
  lemma ParamNamesShape(path: string, caseSensitive: bool, end: bool)
    ensures var m := Compile(path, caseSensitive, end);
      var tn := TokenNames(m.tokens);
      && ParamNames(m) == tn + (if EndsWithStar(path) then ["*"] else [])
      && forall k :: 0 <= k < |tn| ==> |tn[k]| > 0 && AllWordChars(tn[k])
  {
    TokenizeWellTokenized(Normalize(path));
    NamesAreWords(Compile(path, caseSensitive, end).tokens);
  }

  lemma {:induction false} NamesAreWords(toks: seq<Token>)
    requires WellTokenized(toks)
    ensures forall k :: 0 <= k < |TokenNames(toks)| ==> |TokenNames(toks)[k]| > 0 && AllWordChars(TokenNames(toks)[k])
  {
    if toks != [] {
      NamesAreWords(toks[1..]);
    }
  }
}
