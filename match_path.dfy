/**
 * matchPath (matchPath.ts): a route pattern against a URL pathname.
 *
 * The pattern is compiled (module RoutePattern), the compiled expression is run
 * on the pathname (module RouteRegex), and a match becomes the result record:
 * the parameters decoded by name, the matched pathname, its base and the
 * pattern. `null` is `None`.
 */
module MatchPath {
  import opened Wrappers
  import opened UriComponent
  import opened RoutePattern
  import opened RouteRegex
  import opened Json

  /** A pattern object; an option the caller leaves out is `None`. */
  datatype PathPattern = PathPattern(path: string, caseSensitive: Option<bool>, end: Option<bool>)

  /** matchPath's first argument: a path string or a pattern object. */
  datatype PatternArg = PatternString(path: string) | PatternObject(pattern: PathPattern)

  /** What matchPath returns on a match. */
  datatype PathMatch = PathMatch(params: map<string, string>, pathname: string, pathnameBase: string, pattern: PathPattern)

  /** A string pattern is replaced by an object with both options given. */
  function ResolvePattern(arg: PatternArg): PathPattern {
    match arg
    case PatternString(path) => PathPattern(path, Some(false), Some(true))
    case PatternObject(pattern) => pattern
  }

  /** compilePath's default parameters stand in for an absent option. */
  function CompileFor(pattern: PathPattern): Matcher {
    Compile(pattern.path, pattern.caseSensitive.GetOr(false), pattern.end.GetOr(true))
  }

  // ---------------------------------------------------------------------------
  // pathnameBase

  // Where the expression `(.)\/+$` matches: a character other than a line
  // terminator at `p`, then one or more slashes up to the end.
  predicate TrimSite(s: string, p: nat) {
    p + 1 < |s| && !IsLineTerminator(s[p]) && AllSlashes(s[p + 1..])
  }

  /**
   * `.replace(/(.)\/+$/, '$1')`: the slashes after the character where the
   * expression first matches are removed.
   */
  function TrimTrailingSlashes(s: string): (r: string)
    ensures r <= s && AllSlashes(s[|r|..])
    ensures s != [] ==> r != []
  {
    var d := DropTrailingSlashes(s);
    if |d| == |s| then s
    else if d != [] && !IsLineTerminator(d[|d| - 1]) then d
    else if |s| - |d| >= 2 then s[..|d| + 1]
    else s
  }

  /** `s.slice(0, e)`: a negative end counts back from the end of the string. */
  function SliceTo(s: string, e: int): (r: string)
    ensures r <= s
    ensures 0 <= e <= |s| ==> r == s[..e]
  {
    if e < 0 then s[..if |s| + e < 0 then 0 else |s| + e]
    else s[..if e < |s| then e else |s|]
  }

  // ---------------------------------------------------------------------------
  // The parameters

  /** The reduce's `memo` after the given names: each bound to its decoded capture, later names overwriting. */
  function ParamsOf(names: seq<string>, caps: seq<string>): map<string, string>
    requires |names| == |caps|
    decreases |names|
  {
    if names == [] then map[]
    else
      var last := |names| - 1;
      var memo := ParamsOf(names[..last], caps[..last]);
      if names[last] == ProtoKey then memo else memo[names[last] := SafelyDecode(caps[last])]
  }

  /** `pathnameBase` after the reduce: recomputed, without the raw splat, when there is one. */
  function BaseOf(matched: string, names: seq<string>, caps: seq<string>): string
    requires |names| == |caps|
    decreases |names|
  {
    if names == [] then TrimTrailingSlashes(matched)
    else if names[|names| - 1] == "*" then TrimTrailingSlashes(SliceTo(matched, |matched| - |caps[|caps| - 1]|))
    else BaseOf(matched, names[..|names| - 1], caps[..|caps| - 1])
  }

  /** The value matchPath returns. */
  function MatchResult(arg: PatternArg, pathname: string): Option<PathMatch> {
    var pattern := ResolvePattern(arg);
    MatchWith(CompileFor(pattern), pattern, pathname)
  }

  /** The result record built from the compiled pattern's match on the pathname. */
  function MatchWith(m: Matcher, pattern: PathPattern, pathname: string): Option<PathMatch> {
    match Exec(m, pathname)
    case None => None
    case Some(run) =>
      var matched := pathname[..run.end];
      var names := ParamNames(m);
      Some(PathMatch(ParamsOf(names, run.caps), matched, BaseOf(matched, names, run.caps), pattern))
  }

  /** matchPath: compile, run, then fold the captures into the parameters. */
  method MatchPathOf(arg: PatternArg, pathname: string) returns (result: Option<PathMatch>)
    ensures result == MatchResult(arg, pathname)
  {
    var pattern := ResolvePattern(arg);
    var matcher, paramNames := CompilePath(pattern.path, pattern.caseSensitive.GetOr(false), pattern.end.GetOr(true));
    var m := Exec(matcher, pathname);
    if m.None? {
      return None;
    }
    var matched := pathname[..m.value.end];
    var params, pathnameBase := ReduceParams(matched, paramNames, m.value.caps);
    result := Some(PathMatch(params, matched, pathnameBase, pattern));
  }

  /** The reduce over the parameter names, with the `pathnameBase` it reassigns. */
  method ReduceParams(matched: string, paramNames: seq<string>, captureGroups: seq<string>)
    returns (params: map<string, string>, pathnameBase: string)
    requires |paramNames| == |captureGroups|
    ensures params == ParamsOf(paramNames, captureGroups)
    ensures pathnameBase == BaseOf(matched, paramNames, captureGroups)
  {
    pathnameBase := TrimTrailingSlashes(matched);
    params := map[];
    var i := 0;
    while i < |paramNames|
      invariant 0 <= i <= |paramNames|
      invariant params == ParamsOf(paramNames[..i], captureGroups[..i])
      invariant pathnameBase == BaseOf(matched, paramNames[..i], captureGroups[..i])
    {
      assert paramNames[..i + 1][..i] == paramNames[..i];
      assert captureGroups[..i + 1][..i] == captureGroups[..i];
      var paramName := paramNames[i];
      if paramName == "*" {
        pathnameBase := TrimTrailingSlashes(SliceTo(matched, |matched| - |captureGroups[i]|));
      }
      if paramName != ProtoKey {
        params := params[paramName := SafelyDecode(captureGroups[i])];
      }
      i := i + 1;
    }
    assert paramNames[..i] == paramNames && captureGroups[..i] == captureGroups;
  }

  // ---------------------------------------------------------------------------
  // pathnameBase: the replace at its leftmost match

  /** Where `(.)\/+$` first matches, the replace keeps the text up to and including that character. */
  lemma TrimAtLeftmostSite(s: string, p: nat)
    requires TrimSite(s, p) && forall q: nat :: q < p ==> !TrimSite(s, q)
    ensures TrimTrailingSlashes(s) == s[..p + 1]
  {
    var d := DropTrailingSlashes(s);
    SlashesAfterKept(s, p);
    assert s[|s| - 1] == s[p + 1..][|s| - p - 2];
    if d != [] && !IsLineTerminator(d[|d| - 1]) {
      assert TrimSite(s, |d| - 1) by {
        assert s[|d|..] == s[|d| - 1 + 1..];
      }
    } else {
      assert p != |d| - 1;
      assert TrimSite(s, |d|) by {
        assert s[|d|] == s[|d|..][0];
        assert s[|d| + 1..] == s[|d|..][1..];
      }
    }
  }

  /** Slashes from `p + 1` to the end are all dropped by DropTrailingSlashes. */
  lemma {:induction false} SlashesAfterKept(s: string, p: nat)
    requires p + 1 <= |s| && AllSlashes(s[p + 1..])
    ensures |DropTrailingSlashes(s)| <= p + 1
    decreases |s|
  {
    if p + 1 < |s| {
      assert s[|s| - 1] == s[p + 1..][|s| - p - 2];
      assert s[..|s| - 1][p + 1..] == s[p + 1..|s| - 1];
      SlashesAfterKept(s[..|s| - 1], p);
    }
  }

  /** Where `(.)\/+$` does not match, the replace leaves the text as it is. */
  lemma TrimWithoutSite(s: string)
    ensures (forall p :: !TrimSite(s, p)) ==> TrimTrailingSlashes(s) == s
  {
    var d := DropTrailingSlashes(s);
    if TrimTrailingSlashes(s) != s {
      if d != [] && !IsLineTerminator(d[|d| - 1]) {
        assert TrimSite(s, |d| - 1) by {
          assert s[|d|..] == s[|d| - 1 + 1..];
        }
      } else {
        assert TrimSite(s, |d|) by {
          assert s[|d|] == s[|d|..][0];
          assert s[|d| + 1..] == s[|d|..][1..];
        }
      }
    }
  }

  /**
   * On a pathname without line terminators the base drops every trailing `/`,
   * but is never shorter than the first character: `/` and `//` give `/`.
   */
  lemma TrimKeepsFirstCharacter(s: string)
    requires s != [] && NoTerminatorsFrom(s, 0)
    ensures TrimTrailingSlashes(s) == if DropTrailingSlashes(s) == [] then s[..1] else DropTrailingSlashes(s)
  {
    var d := DropTrailingSlashes(s);
    if d != [] {
      assert d[|d| - 1] == s[|d| - 1];
    } else if |s| == 1 {
      assert s[..1] == s;
    }
  }

  // ---------------------------------------------------------------------------
  // The parameters: keys, last name wins, fallback on malformed escapes

  /** Every parameter name is a key, except the one the object ignores. */
  lemma {:induction false} ParamsKeys(names: seq<string>, caps: seq<string>)
    requires |names| == |caps|
    ensures forall k :: k in ParamsOf(names, caps) <==> k in names && k != ProtoKey
    decreases |names|
  {
    if names != [] {
      var last := |names| - 1;
      ParamsKeys(names[..last], caps[..last]);
      assert names == names[..last] + [names[last]];
    }
  }

  /** A name is bound to the decoded capture of its last occurrence. */
  lemma {:induction false} ParamsLastWins(names: seq<string>, caps: seq<string>, j: nat)
    requires |names| == |caps| && j < |names| && names[j] != ProtoKey
    requires forall j' :: j < j' < |names| ==> names[j'] != names[j]
    ensures names[j] in ParamsOf(names, caps) && ParamsOf(names, caps)[names[j]] == SafelyDecode(caps[j])
    decreases |names|
  {
    var last := |names| - 1;
    if j < last {
      ParamsLastWins(names[..last], caps[..last], j);
    }
  }

  /** A capture that is not a well-formed escape sequence is kept as it is; no match raises an error. */
  lemma MalformedParamKeptRaw(names: seq<string>, caps: seq<string>, j: nat)
    requires |names| == |caps| && j < |names| && names[j] != ProtoKey
    requires forall j' :: j < j' < |names| ==> names[j'] != names[j]
    requires Decode(caps[j]).None?
    ensures names[j] in ParamsOf(names, caps) && ParamsOf(names, caps)[names[j]] == caps[j]
  {
    ParamsLastWins(names, caps, j);
  }

  /** The base is computed from the raw splat, the last name, when there is one. */
  lemma BaseWithSplat(matched: string, names: seq<string>, caps: seq<string>)
    requires |names| == |caps| && names != [] && names[|names| - 1] == "*"
    requires |caps[|caps| - 1]| <= |matched|
    ensures BaseOf(matched, names, caps) == TrimTrailingSlashes(matched[..|matched| - |caps[|caps| - 1]|])
  {
  }

  // ---------------------------------------------------------------------------
  // matchPath

  /** A string pattern matches as an object with both options left out; only the returned pattern differs. */
  lemma StringPatternDefaults(path: string, pathname: string)
    ensures var a := MatchResult(PatternString(path), pathname);
      var b := MatchResult(PatternObject(PathPattern(path, None, None)), pathname);
      && a.Some? == b.Some?
      && (a.Some? ==> a.value == b.value.(pattern := PathPattern(path, Some(false), Some(true))))
  {
  }

  /**
   * There is no match (`null`) exactly when the compiled pattern cannot be laid
   * over the pathname.
   */
  lemma NoMatchIffNotAccepted(m: Matcher, pattern: PathPattern, pathname: string)
    ensures MatchWith(m, pattern, pathname).None? ==> forall r :: !Accepts(m.tokens, m.tail, m.caseSensitive, pathname, 0, r)
    ensures (forall r :: !Accepts(m.tokens, m.tail, m.caseSensitive, pathname, 0, r)) ==> MatchWith(m, pattern, pathname).None?
  {
    ExecNoneIff(m, pathname);
  }

  /** The matched pathname is a prefix of the pathname, and its base a prefix of it. */
  lemma MatchedPrefix(m: Matcher, pattern: PathPattern, pathname: string)
    ensures var r := MatchWith(m, pattern, pathname);
      r.Some? ==> r.value.pathname <= pathname && r.value.pathnameBase <= r.value.pathname
  {
    match Exec(m, pathname)
    case None =>
    case Some(run) =>
      BaseIsPrefix(pathname[..run.end], ParamNames(m), run.caps);
  }

  lemma {:induction false} BaseIsPrefix(matched: string, names: seq<string>, caps: seq<string>)
    requires |names| == |caps|
    ensures BaseOf(matched, names, caps) <= matched
    decreases |names|
  {
    if names != [] && names[|names| - 1] != "*" {
      BaseIsPrefix(matched, names[..|names| - 1], caps[..|caps| - 1]);
    }
  }

  /** With `end` (the default), a match covers the whole pathname. */
  lemma EndMatchesWholePathname(arg: PatternArg, pathname: string)
    requires ResolvePattern(arg).end.GetOr(true)
    ensures var r := MatchResult(arg, pathname); r.Some? ==> r.value.pathname == pathname
  {
    var pattern := ResolvePattern(arg);
    var m := CompileFor(pattern);
    assert !m.tail.Boundary?;
    match Exec(m, pathname)
    case None =>
    case Some(run) =>
      assert pathname[..run.end] == pathname;
  }

  /**
   * Every `:name` parameter is bound to the decoding of a non-empty stretch of
   * the pathname without `/`; the captures are listed in the order of the names.
   */
  lemma ParamCapturesAreSegments(m: Matcher, pathname: string)
    ensures var e := Exec(m, pathname);
      e.Some? ==> forall j :: 0 <= j < |TokenNames(m.tokens)| ==> e.value.caps[j] != [] && '/' !in e.value.caps[j]
  {
    ExecComplete(m, pathname);
    if Exec(m, pathname).Some? {
      AcceptsParamCaptures(m.tokens, m.tail, m.caseSensitive, pathname, 0, Exec(m, pathname).value);
    }
  }

  /**
   * With a splat, `*` is bound to the decoded rest of the pathname; the raw rest
   * is a suffix of the matched pathname, and the base is what comes before it,
   * without trailing slashes.
   */
  lemma SplatParam(m: Matcher, pattern: PathPattern, pathname: string)
    requires IsSplatTail(m.tail)
    ensures var e := Exec(m, pathname);
      var r := MatchWith(m, pattern, pathname);
      e.Some? ==>
        var raw := e.value.caps[|e.value.caps| - 1];
        && r.value.pathname == pathname
        && |raw| <= |pathname| && pathname[|pathname| - |raw|..] == raw
        && "*" in r.value.params && r.value.params["*"] == SafelyDecode(raw)
        && r.value.pathnameBase == TrimTrailingSlashes(pathname[..|pathname| - |raw|])
  {
    var e := Exec(m, pathname);
    ExecComplete(m, pathname);
    if e.Some? {
      var run := e.value;
      AcceptsSplatSuffix(m.tokens, m.tail, m.caseSensitive, pathname, 0, run);
      var names := ParamNames(m);
      MatchWithWholeRun(m, pattern, pathname);
      ParamsLastWins(names, run.caps, |names| - 1);
      BaseWithSplat(pathname, names, run.caps);
    }
  }

  /** A run that consumed the whole pathname gives the match over all of it. */
  lemma MatchWithWholeRun(m: Matcher, pattern: PathPattern, pathname: string)
    requires Exec(m, pathname).Some? && Exec(m, pathname).value.end == |pathname|
    ensures var r := MatchWith(m, pattern, pathname); var caps := Exec(m, pathname).value.caps;
      && r.Some? && r.value.pathname == pathname
      && r.value.params == ParamsOf(ParamNames(m), caps)
      && r.value.pathnameBase == BaseOf(pathname, ParamNames(m), caps)
  {
    assert pathname[..Exec(m, pathname).value.end] == pathname;
  }

  /** A pattern ending in `*` compiles to a splat. */
  lemma StarPatternHasSplat(arg: PatternArg)
    requires EndsWithStar(ResolvePattern(arg).path)
    ensures IsSplatTail(CompileFor(ResolvePattern(arg)).tail)
    ensures var names := ParamNames(CompileFor(ResolvePattern(arg))); names[|names| - 1] == "*"
  {
  }

  /** Without the `caseSensitive` option, upper-casing the pathname's ASCII letters changes nothing but the pathname's case. */
  lemma MatchIgnoresLetterCase(arg: PatternArg, pathname: string)
    requires !ResolvePattern(arg).caseSensitive.GetOr(false)
    ensures var a := MatchResult(arg, pathname);
      var b := MatchResult(arg, UpperString(pathname));
      && a.Some? == b.Some?
      && (a.Some? ==> b.value.pathname == UpperString(a.value.pathname))
  {
    var m := CompileFor(ResolvePattern(arg));
    ExecIgnoresCase(m, pathname);
    if Exec(m, pathname).Some? {
      UpperSlice(pathname, 0, Exec(m, pathname).value.end);
      assert pathname[0..Exec(m, pathname).value.end] == pathname[..Exec(m, pathname).value.end];
      assert UpperString(pathname)[0..Exec(m, pathname).value.end] == UpperString(pathname)[..Exec(m, pathname).value.end];
    }
  }

  /**
   * A pattern without `:name` parameters or final `*` (a `:` that no word
   * character follows stays literal) is compared character by character, then
   * the tail decides.
   */
  lemma LiteralPatternMatch(path: string, caseSensitive: bool, end: bool, pathname: string)
    requires TokenNames(Tokenize(Normalize(path))) == [] && !EndsWithStar(path)
    ensures var text := Normalize(path);
      Exec(Compile(path, caseSensitive, end), pathname).Some? <==>
        && |text| <= |pathname|
        && (forall k :: 0 <= k < |text| ==> CharMatches(caseSensitive, text[k], pathname[k]))
        && (if end then SlashesFrom(pathname, |text|) else TailMatch(Boundary, caseSensitive, pathname, |text|).Some?)
  {
    var text := Normalize(path);
    LiteralTextAt(text, caseSensitive, pathname);
    LiteralMatch(Tokenize(text), TailFor(path, end), caseSensitive, pathname, 0);
  }

  /** The tokens of a text without parameters match exactly where the text does, character by character. */
  lemma LiteralTextAt(text: string, caseSensitive: bool, pathname: string)
    requires TokenNames(Tokenize(text)) == []
    ensures AllLiteral(Tokenize(text)) && |Tokenize(text)| == |text|
    ensures LiteralsAt(Tokenize(text), caseSensitive, pathname, 0) <==>
      |text| <= |pathname| && forall k :: 0 <= k < |text| ==> CharMatches(caseSensitive, text[k], pathname[k])
  {
    var toks := Tokenize(text);
    NoNamesAllLiteral(toks);
    RenderLiterals(toks);
    RenderTokenize(text);
    assert forall k :: 0 <= k < |toks| ==> toks[k].c == text[k];
  }

  /** `/home` with `end: false` does not match `/home2`: the match may not stop inside a word. */
  lemma HomeIsNotHome2(path: string, pathname: string)
    requires path == "/home" && pathname == "/home2"
    ensures MatchResult(PatternObject(PathPattern(path, None, Some(false))), pathname).None?
  {
    HomeStopsBeforeDigit(path, pathname);
  }

  /** The regular expression of `/home` (boundary tail) finds nothing in `/home2`. */
  lemma HomeStopsBeforeDigit(path: string, pathname: string)
    requires path == "/home" && pathname == "/home2"
    ensures Exec(CompileFor(PathPattern(path, None, Some(false))), pathname).None?
  {
    var toks := HomeTokens(path);
    LiteralMatch(toks, Boundary, false, pathname, 0);
    if LiteralsAt(toks, false, pathname, 0) {
      assert !WordBoundaryAt(pathname, 5);
    }
  }

  /** `/home` with `end: false` matches `/home/users` up to the word boundary before the `/`. */
  lemma HomeMatchesHomeUsers(path: string, pathname: string)
    requires path == "/home" && pathname == "/home/users"
    ensures var r := MatchResult(PatternObject(PathPattern(path, None, Some(false))), pathname);
      r.Some? && r.value.pathname == "/home" && r.value.pathnameBase == "/home" && r.value.params == map[]
  {
    var pattern := PathPattern(path, None, Some(false));
    var toks := HomeTokens(path);
    HomeStopsAtBoundary(path, pathname);
    MatchWithRun(CompileFor(pattern), pattern, pathname);
    assert ParamNames(CompileFor(pattern)) == [];
    assert pathname[..5] == path;
    assert DropTrailingSlashes(path) == path;
  }

  /** The regular expression of `/home` (boundary tail) matches the first five characters of `/home/users`. */
  lemma HomeStopsAtBoundary(path: string, pathname: string)
    requires path == "/home" && pathname == "/home/users"
    ensures Exec(CompileFor(PathPattern(path, None, Some(false))), pathname) == Some(Run(5, []))
  {
    var toks := HomeTokens(path);
    LiteralMatch(toks, Boundary, false, pathname, 0);
    assert LiteralsAt(toks, false, pathname, 0) by {
      forall k | 0 <= k < 5 ensures CharMatches(false, toks[k].c, pathname[k]) {
        assert toks[k].c == path[k] == pathname[k];
      }
    }
    assert WordBoundaryAt(pathname, 5);
  }

  /** The match object is built from the run the regular expression found. */
  lemma MatchWithRun(m: Matcher, pattern: PathPattern, pathname: string)
    requires Exec(m, pathname).Some?
    ensures var r := MatchWith(m, pattern, pathname); var run := Exec(m, pathname).value;
      && r.Some? && r.value.pathname == pathname[..run.end]
      && r.value.params == ParamsOf(ParamNames(m), run.caps)
      && r.value.pathnameBase == BaseOf(pathname[..run.end], ParamNames(m), run.caps)
  {
  }

  /** `/home` with `end: false` compiles to its five characters as literals and the boundary tail. */
  lemma HomeTokens(path: string) returns (toks: seq<Token>)
    requires path == "/home"
    ensures CompileFor(PathPattern(path, None, Some(false))) == Matcher(toks, Boundary, false)
    ensures |toks| == 5 && AllLiteral(toks) && TokenNames(toks) == []
    ensures forall k :: 0 <= k < 5 ==> toks[k] == Lit(path[k])
  {
    assert EndsWithStar(path) == false;
    assert StripTrailing(path) == path;
    assert DropLeadingSlashes(path[1..]) == path[1..];
    assert DropLeadingSlashes(path) == path[1..];
    assert "/" + path[1..] == path;
    assert ':' !in path;
    TokenizeLiteral(path);
    toks := Tokenize(path);
  }
}
