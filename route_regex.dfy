/**
 * What the regular expression built by `compilePath` matches, and what
 * `pathname.match(matcher)` returns (matchPath.ts).
 *
 * The expression is anchored with `^`, so it is tried at position 0 only.
 * `MatchTokens` follows the backtracking order of the expression: literal
 * characters one after the other, and for each `([^\/]+)` parameter the longest
 * run of non-`/` characters first, then one character shorter each time the
 * rest fails. `Accepts` is the declarative counterpart: every way the pattern
 * can be laid over the pathname. The lemmas show the matcher returns an
 * accepted run, finds one whenever one exists, prefers longer captures from the
 * left, and is the only accepted run when every parameter is followed by `/`.
 */
module RouteRegex {
  import opened Wrappers
  import opened RoutePattern

  /** A successful match: where `match[0]` ends, and `match.slice(1)` (an undefined group as ""). */
  datatype Run = Run(end: nat, caps: seq<string>)

  /** The characters `.` does not match. */
  predicate IsLineTerminator(c: char) {
    c == '\n' || c == '\r' || c == '\U{2028}' || c == '\U{2029}'
  }

  /** Case folding of the `i` flag, on ASCII letters. */
  function UpperAscii(c: char): char {
    if 'a' <= c <= 'z' then (c as int - 32) as char else c
  }

  /** A literal character of the pattern against a character of the pathname. */
  predicate CharMatches(caseSensitive: bool, p: char, c: char) {
    p == c || (!caseSensitive && UpperAscii(p) == UpperAscii(c))
  }

  /** `[0-9A-F]`, which the `i` flag widens to lower-case hex letters. */
  predicate IsHexIn(caseSensitive: bool, c: char) {
    '0' <= c <= '9' || 'A' <= c <= 'F' || (!caseSensitive && 'a' <= c <= 'f')
  }

  /** `(?=[.~-]|%[0-9A-F]{2})` at position `i`. */
  predicate LookaheadAt(caseSensitive: bool, s: string, i: nat)
    requires i <= |s|
  {
    || (i < |s| && (s[i] == '.' || s[i] == '~' || s[i] == '-'))
    || (i + 3 <= |s| && s[i] == '%' && IsHexIn(caseSensitive, s[i + 1]) && IsHexIn(caseSensitive, s[i + 2]))
  }

  /** `\b` at position `i`. */
  predicate WordBoundaryAt(s: string, i: nat)
    requires i <= |s|
  {
    (i > 0 && IsWordChar(s[i - 1])) != (i < |s| && IsWordChar(s[i]))
  }

  predicate SlashesFrom(s: string, i: nat) {
    forall j :: i <= j < |s| ==> s[j] == '/'
  }

  predicate NoTerminatorsFrom(s: string, i: nat) {
    forall j :: i <= j < |s| ==> !IsLineTerminator(s[j])
  }

  predicate NoSlashBetween(s: string, a: nat, b: nat)
    requires a <= b <= |s|
  {
    forall j :: a <= j < b ==> s[j] != '/'
  }

  /** How many capture groups a tail adds: one for the splat. */
  function TailCaptures(tail: Tail): nat {
    if IsSplatTail(tail) then 1 else 0
  }

  /**
   * The tail, matched at position `i`. Nothing follows it in the expression, so
   * its first alternative that succeeds decides the match.
   */
  function TailMatch(tail: Tail, caseSensitive: bool, s: string, i: nat): (r: Option<Run>)
    requires i <= |s|
    ensures r.Some? ==> i <= r.value.end <= |s| && |r.value.caps| == TailCaptures(tail)
    ensures r.Some? && !tail.Boundary? ==> r.value.end == |s|
  {
    match tail
    case TrailingSlashes =>
      if SlashesFrom(s, i) then Some(Run(|s|, [])) else None
    case Boundary =>
      if LookaheadAt(caseSensitive, s, i) || WordBoundaryAt(s, i) || i == |s| then Some(Run(i, []))
      else if s[i] == '/' then Some(Run(i + 1, []))
      else None
    case Rest =>
      if NoTerminatorsFrom(s, i) then Some(Run(|s|, [s[i..]])) else None
    case SlashRest =>
      if i + 1 < |s| && s[i] == '/' && NoTerminatorsFrom(s, i + 1) then Some(Run(|s|, [s[i + 1..]]))
      else if SlashesFrom(s, i) then Some(Run(|s|, [""]))
      else None
  }

  /** Length of the run of non-`/` characters at `i`: the most `[^\/]+` can take. */
  function NonSlashRun(s: string, i: nat): (n: nat)
    requires i <= |s|
    ensures i + n <= |s| && NoSlashBetween(s, i, i + n)
    ensures i + n < |s| ==> s[i + n] == '/'
    decreases |s| - i
  {
    if i < |s| && s[i] != '/' then 1 + NonSlashRun(s, i + 1) else 0
  }

  function FirstToken(toks: seq<Token>): (t: Option<Token>)
    ensures t.Some? <==> toks != []
    ensures t.Some? ==> t.value == toks[0]
  {
    if toks == [] then None else Some(toks[0])
  }

  /**
   * Every way the tokens can be laid over `s` from `i`, ending with the tail:
   * each literal matches one character, each parameter a non-empty run without
   * `/`, whose text is the next capture.
   */
  ghost predicate Accepts(toks: seq<Token>, tail: Tail, caseSensitive: bool, s: string, i: nat, r: Run)
    requires i <= |s|
    decreases |toks|, 0
  {
    match FirstToken(toks)
    case None => TailMatch(tail, caseSensitive, s, i) == Some(r)
    case Some(Lit(c)) =>
      i < |s| && CharMatches(caseSensitive, c, s[i]) && Accepts(toks[1..], tail, caseSensitive, s, i + 1, r)
    case Some(Param(_)) => ParamAccepts(toks[1..], tail, caseSensitive, s, i, r)
  }

  /**
   * A parameter at `i` followed by the tokens `rest`: its capture, the first
   * of `r`, is a non-empty run without `/`, and `rest` accepts what follows.
   */
  ghost predicate ParamAccepts(rest: seq<Token>, tail: Tail, caseSensitive: bool, s: string, i: nat, r: Run)
    requires i <= |s|
    decreases |rest|, 1
  {
    && |r.caps| > 0
    && 0 < |r.caps[0]| <= |s| - i
    && r.caps[0] == s[i..i + |r.caps[0]|]
    && NoSlashBetween(s, i, i + |r.caps[0]|)
    && Accepts(rest, tail, caseSensitive, s, i + |r.caps[0]|, Run(r.end, r.caps[1..]))
  }

  /** The backtracking matcher, from position `i`. */
  function MatchTokens(toks: seq<Token>, tail: Tail, caseSensitive: bool, s: string, i: nat): (r: Option<Run>)
    requires i <= |s|
    ensures r.Some? ==> i <= r.value.end <= |s| && |r.value.caps| == |TokenNames(toks)| + TailCaptures(tail)
    ensures r.Some? && !tail.Boundary? ==> r.value.end == |s|
    decreases |toks|, 1, 0
  {
    if toks == [] then TailMatch(tail, caseSensitive, s, i)
    else match toks[0]
      case Lit(c) =>
        if i < |s| && CharMatches(caseSensitive, c, s[i]) then MatchTokens(toks[1..], tail, caseSensitive, s, i + 1)
        else None
      case Param(_) => TryParam(toks[1..], tail, caseSensitive, s, i, NonSlashRun(s, i))
  }

  /**
   * A parameter at `i` taking `k` characters, then `k - 1`, … until the tokens
   * after it match: the run with what the parameter took as its first capture.
   */
  function TryParam(rest: seq<Token>, tail: Tail, caseSensitive: bool, s: string, i: nat, k: nat): (r: Option<Run>)
    requires i + k <= |s|
    ensures r.Some? ==> i <= r.value.end <= |s| && |r.value.caps| == 1 + |TokenNames(rest)| + TailCaptures(tail)
    ensures r.Some? && !tail.Boundary? ==> r.value.end == |s|
    decreases |rest| + 1, 0, k
  {
    if k == 0 then None
    else match MatchTokens(rest, tail, caseSensitive, s, i + k)
      case Some(after) => Some(Run(after.end, [s[i..i + k]] + after.caps))
      case None => TryParam(rest, tail, caseSensitive, s, i, k - 1)
  }

  /** `pathname.match(matcher)`: the expression is anchored at the start. */
  function Exec(m: Matcher, s: string): (r: Option<Run>)
    ensures r.Some? ==> r.value.end <= |s| && |r.value.caps| == |ParamNames(m)|
    ensures r.Some? && !m.tail.Boundary? ==> r.value.end == |s|
  {
    MatchTokens(m.tokens, m.tail, m.caseSensitive, s, 0)
  }

  // ---------------------------------------------------------------------------
  // Soundness

  /** What the matcher returns is a way of laying the tokens over the pathname. */
  lemma {:induction false} MatchTokensSound(toks: seq<Token>, tail: Tail, caseSensitive: bool, s: string, i: nat)
    requires i <= |s|
    ensures var r := MatchTokens(toks, tail, caseSensitive, s, i);
      r.Some? ==> Accepts(toks, tail, caseSensitive, s, i, r.value)
    decreases |toks|, 1, 0
  {
    if toks != [] {
      assert FirstToken(toks) == Some(toks[0]);
      match toks[0]
      case Lit(c) =>
        if i < |s| && CharMatches(caseSensitive, c, s[i]) {
          MatchTokensSound(toks[1..], tail, caseSensitive, s, i + 1);
        }
      case Param(_) =>
        ParamSound(toks, tail, caseSensitive, s, i);
    }
  }

  lemma {:induction false} ParamSound(toks: seq<Token>, tail: Tail, caseSensitive: bool, s: string, i: nat)
    requires i <= |s| && toks != [] && toks[0].Param?
    ensures var r := MatchTokens(toks, tail, caseSensitive, s, i);
      r.Some? ==> Accepts(toks, tail, caseSensitive, s, i, r.value)
    decreases |toks|, 0, |s| - i + 1
  {
    assert FirstToken(toks) == Some(toks[0]);
    TryParamSound(toks[1..], tail, caseSensitive, s, i, NonSlashRun(s, i));
  }

  /** What a parameter attempt of at most `k` characters returns is accepted. */
  lemma {:induction false} TryParamSound(rest: seq<Token>, tail: Tail, caseSensitive: bool, s: string, i: nat, k: nat)
    requires i + k <= |s| && NoSlashBetween(s, i, i + k)
    ensures var t := TryParam(rest, tail, caseSensitive, s, i, k);
      t.Some? ==> ParamAccepts(rest, tail, caseSensitive, s, i, t.value)
    decreases |rest| + 1, 0, k
  {
    if k > 0 {
      var m := MatchTokens(rest, tail, caseSensitive, s, i + k);
      if m.Some? {
        MatchTokensSound(rest, tail, caseSensitive, s, i + k);
        var r := Run(m.value.end, [s[i..i + k]] + m.value.caps);
        assert TryParam(rest, tail, caseSensitive, s, i, k) == Some(r);
        assert r.caps[0] == s[i..i + k] && Run(r.end, r.caps[1..]) == m.value;
      } else {
        TryParamNext(rest, tail, caseSensitive, s, i, k);
        TryParamSound(rest, tail, caseSensitive, s, i, k - 1);
      }
    }
  }

  /** An accepted run has one capture per parameter, and one more for a splat. */
  lemma {:induction false} AcceptsCaptureCount(toks: seq<Token>, tail: Tail, caseSensitive: bool, s: string, i: nat, r: Run)
    requires i <= |s| && Accepts(toks, tail, caseSensitive, s, i, r)
    ensures |r.caps| == |TokenNames(toks)| + TailCaptures(tail)
    decreases |toks|
  {
    if toks != [] {
      match toks[0]
      case Lit(c) =>
        AcceptsCaptureCount(toks[1..], tail, caseSensitive, s, i + 1, r);
      case Param(_) =>
        AcceptsCaptureCount(toks[1..], tail, caseSensitive, s, i + |r.caps[0]|, Run(r.end, r.caps[1..]));
    }
  }

  /** Each parameter's capture in an accepted run is a non-empty stretch of the pathname without `/`. */
  lemma {:induction false} AcceptsParamCaptures(toks: seq<Token>, tail: Tail, caseSensitive: bool, s: string, i: nat, r: Run)
    requires i <= |s| && Accepts(toks, tail, caseSensitive, s, i, r)
    ensures |TokenNames(toks)| <= |r.caps|
    ensures forall j :: 0 <= j < |TokenNames(toks)| ==> r.caps[j] != [] && '/' !in r.caps[j]
    decreases |toks|
  {
    if toks != [] {
      match toks[0]
      case Lit(c) =>
        AcceptsParamCaptures(toks[1..], tail, caseSensitive, s, i + 1, r);
      case Param(_) =>
        var n := |r.caps[0]|;
        AcceptsParamCaptures(toks[1..], tail, caseSensitive, s, i + n, Run(r.end, r.caps[1..]));
        assert '/' !in r.caps[0] by {
          forall j | 0 <= j < n ensures r.caps[0][j] != '/' {
            assert r.caps[0][j] == s[i + j];
          }
        }
        forall j | 1 <= j < |TokenNames(toks)| ensures r.caps[j] != [] && '/' !in r.caps[j] {
          assert r.caps[j] == r.caps[1..][j - 1];
        }
    }
  }

  /** With a splat, an accepted run reaches the end of the pathname, and its last capture is a suffix of it. */
  lemma {:induction false} AcceptsSplatSuffix(toks: seq<Token>, tail: Tail, caseSensitive: bool, s: string, i: nat, r: Run)
    requires i <= |s| && Accepts(toks, tail, caseSensitive, s, i, r) && IsSplatTail(tail)
    ensures r.end == |s| && |r.caps| > 0
    ensures |r.caps[|r.caps| - 1]| <= |s| - i && s[|s| - |r.caps[|r.caps| - 1]|..] == r.caps[|r.caps| - 1]
    decreases |toks|
  {
    if toks != [] {
      match toks[0]
      case Lit(c) =>
        AcceptsSplatSuffix(toks[1..], tail, caseSensitive, s, i + 1, r);
      case Param(_) =>
        var after := Run(r.end, r.caps[1..]);
        AcceptsSplatSuffix(toks[1..], tail, caseSensitive, s, i + |r.caps[0]|, after);
        assert r.caps[|r.caps| - 1] == after.caps[|after.caps| - 1];
    }
  }

  // ---------------------------------------------------------------------------
  // The tails' alternatives

  /** The places the boundary group `(?:(?=…)|\b|\/|$)` can end when started at `i`. */
  ghost predicate BoundaryAlternative(caseSensitive: bool, s: string, i: nat, e: nat)
    requires i <= |s|
  {
    || (e == i && (LookaheadAt(caseSensitive, s, i) || WordBoundaryAt(s, i) || i == |s|))
    || (e == i + 1 && i < |s| && s[i] == '/')
  }

  // The boundary tail succeeds exactly when one of its alternatives does, and then ends at the
  // earliest place: a following `/` is consumed only when no zero-width alternative holds.
  lemma BoundaryTakesFirstAlternative(caseSensitive: bool, s: string, i: nat)
    requires i <= |s|
    ensures TailMatch(Boundary, caseSensitive, s, i).Some? <==> exists e :: BoundaryAlternative(caseSensitive, s, i, e)
    ensures TailMatch(Boundary, caseSensitive, s, i).Some? ==>
      var e := TailMatch(Boundary, caseSensitive, s, i).value.end;
      && BoundaryAlternative(caseSensitive, s, i, e)
      && forall e' :: BoundaryAlternative(caseSensitive, s, i, e') ==> e <= e'
  {
    if TailMatch(Boundary, caseSensitive, s, i).Some? {
      assert BoundaryAlternative(caseSensitive, s, i, TailMatch(Boundary, caseSensitive, s, i).value.end);
    }
  }

  // The ways the splat tail `(?:\/(.+)|\/*)$` can match from `i`, with the splat capture of each ("" when undefined).
  ghost predicate SlashRestAlternative(s: string, i: nat, cap: string)
    requires i <= |s|
  {
    || (i + 1 < |s| && s[i] == '/' && NoTerminatorsFrom(s, i + 1) && cap == s[i + 1..])
    || (SlashesFrom(s, i) && cap == "")
  }

  // The splat tail succeeds exactly when one of its alternatives does; when the first one
  // applies its capture is taken, so a run of two or more slashes leaves all but the first in it.
  lemma SlashRestPrefersCapture(caseSensitive: bool, s: string, i: nat)
    requires i <= |s|
    ensures TailMatch(SlashRest, caseSensitive, s, i).Some? <==> exists cap :: SlashRestAlternative(s, i, cap)
    ensures TailMatch(SlashRest, caseSensitive, s, i).Some? ==>
      SlashRestAlternative(s, i, TailMatch(SlashRest, caseSensitive, s, i).value.caps[0])
    ensures i + 1 < |s| && s[i] == '/' && NoTerminatorsFrom(s, i + 1) ==>
      TailMatch(SlashRest, caseSensitive, s, i) == Some(Run(|s|, [s[i + 1..]]))
  {
    var t := TailMatch(SlashRest, caseSensitive, s, i);
    if t.Some? {
      assert SlashRestAlternative(s, i, t.value.caps[0]);
    }
  }

  // ---------------------------------------------------------------------------
  // Completeness and preference for longer captures

  /** Capture lists compared as the backtracking order prefers them: longer first captures first. */
  ghost predicate CapsLeq(a: seq<string>, b: seq<string>)
    decreases |a|
  {
    && |a| == |b|
    && (a == [] || |a[0]| < |b[0]| || (a[0] == b[0] && CapsLeq(a[1..], b[1..])))
  }

  lemma {:induction false} CapsLeqRefl(a: seq<string>)
    ensures CapsLeq(a, a)
    decreases |a|
  {
    if a != [] {
      CapsLeqRefl(a[1..]);
    }
  }

  /**
   * Whenever the tokens can be laid over `s` from `i`, the matcher finds a
   * match, and its captures are at least as long as the accepted run's, compared
   * from the left.
   */
  lemma {:induction false} MatchTokensGreedy(toks: seq<Token>, tail: Tail, caseSensitive: bool, s: string, i: nat, r: Run)
    requires i <= |s| && Accepts(toks, tail, caseSensitive, s, i, r)
    ensures MatchTokens(toks, tail, caseSensitive, s, i).Some?
    ensures CapsLeq(r.caps, MatchTokens(toks, tail, caseSensitive, s, i).value.caps)
    decreases |toks|, 1, 0
  {
    if toks == [] {
      CapsLeqRefl(r.caps);
    } else {
      match toks[0]
      case Lit(c) =>
        MatchTokensGreedy(toks[1..], tail, caseSensitive, s, i + 1, r);
      case Param(_) =>
        ParamGreedy(toks, tail, caseSensitive, s, i, r);
    }
  }

  lemma {:induction false} ParamGreedy(toks: seq<Token>, tail: Tail, caseSensitive: bool, s: string, i: nat, r: Run)
    requires i <= |s| && toks != [] && toks[0].Param? && Accepts(toks, tail, caseSensitive, s, i, r)
    ensures MatchTokens(toks, tail, caseSensitive, s, i).Some?
    ensures CapsLeq(r.caps, MatchTokens(toks, tail, caseSensitive, s, i).value.caps)
    decreases |toks|, 0, |s| - i + 1
  {
    assert FirstToken(toks) == Some(toks[0]);
    var k := |r.caps[0]|;
    var K := NonSlashRun(s, i);
    NonSlashRunIsLongest(s, i, k);
    TryParamGreedy(toks[1..], tail, caseSensitive, s, i, K, k, Run(r.end, r.caps[1..]));
    AcceptsCaptureCount(toks, tail, caseSensitive, s, i, r);
    ParamSound(toks, tail, caseSensitive, s, i);
    var caps := MatchTokens(toks, tail, caseSensitive, s, i).value.caps;
    if |caps[0]| == k {
      assert r.caps[0] == caps[0];
    }
  }

  /**
   * A parameter attempt that succeeded with a capture longer than `k'`, or of
   * length `k'` followed by captures preferred to `caps`.
   */
  ghost predicate TakesAtLeast(t: Option<Run>, k': nat, caps: seq<string>) {
    && t.Some?
    && |t.value.caps| > 0
    && (k' < |t.value.caps[0]| || (|t.value.caps[0]| == k' && CapsLeq(caps, t.value.caps[1..])))
  }

  lemma {:induction false} TryParamGreedy(rest: seq<Token>, tail: Tail, caseSensitive: bool, s: string, i: nat, k: nat, k': nat, r': Run)
    requires 0 < k' <= k && i + k <= |s|
    requires Accepts(rest, tail, caseSensitive, s, i + k', r')
    ensures TakesAtLeast(TryParam(rest, tail, caseSensitive, s, i, k), k', r'.caps)
    decreases |rest| + 1, 0, k, 1
  {
    var m := MatchTokens(rest, tail, caseSensitive, s, i + k);
    if k == k' {
      TryParamGreedyExact(rest, tail, caseSensitive, s, i, k, r');
    } else if m.Some? {
      TryParamTakesFirst(rest, tail, caseSensitive, s, i, k, k', r'.caps, m.value);
    } else {
      TryParamGreedy(rest, tail, caseSensitive, s, i, k - 1, k', r');
      TakesAfterFailure(rest, tail, caseSensitive, s, i, k, k', r'.caps);
    }
  }

  // The attempt of exactly the accepted length succeeds, with captures preferred to the accepted ones.
  lemma TryParamGreedyExact(rest: seq<Token>, tail: Tail, caseSensitive: bool, s: string, i: nat, k: nat, r': Run)
    requires 0 < k && i + k <= |s| && Accepts(rest, tail, caseSensitive, s, i + k, r')
    ensures TakesAtLeast(TryParam(rest, tail, caseSensitive, s, i, k), k, r'.caps)
    decreases |rest| + 1, 0, k, 0
  {
    MatchTokensGreedy(rest, tail, caseSensitive, s, i + k, r');
    TryParamTakesFirst(rest, tail, caseSensitive, s, i, k, k, r'.caps, MatchTokens(rest, tail, caseSensitive, s, i + k).value);
  }

  // A parameter attempt whose rest matches at once.
  lemma TryParamFound(rest: seq<Token>, tail: Tail, caseSensitive: bool, s: string, i: nat, k: nat, after: Run)
    requires 0 < k && i + k <= |s| && MatchTokens(rest, tail, caseSensitive, s, i + k) == Some(after)
    ensures TryParam(rest, tail, caseSensitive, s, i, k) == Some(Run(after.end, [s[i..i + k]] + after.caps))
  {
  }

  // A failed attempt leaves the result to the shorter ones.
  lemma TakesAfterFailure(rest: seq<Token>, tail: Tail, caseSensitive: bool, s: string, i: nat, k: nat, k': nat,
                          caps: seq<string>)
    requires 0 < k && i + k <= |s| && MatchTokens(rest, tail, caseSensitive, s, i + k).None?
    requires TakesAtLeast(TryParam(rest, tail, caseSensitive, s, i, k - 1), k', caps)
    ensures TakesAtLeast(TryParam(rest, tail, caseSensitive, s, i, k), k', caps)
  {
    TryParamNext(rest, tail, caseSensitive, s, i, k);
  }

  // A parameter attempt whose rest fails gives way to one character less.
  lemma TryParamNext(rest: seq<Token>, tail: Tail, caseSensitive: bool, s: string, i: nat, k: nat)
    requires 0 < k && i + k <= |s| && MatchTokens(rest, tail, caseSensitive, s, i + k).None?
    ensures TryParam(rest, tail, caseSensitive, s, i, k) == TryParam(rest, tail, caseSensitive, s, i, k - 1)
  {
  }

  // An attempt that succeeds at once, with a capture at least `k'` long.
  lemma TryParamTakesFirst(rest: seq<Token>, tail: Tail, caseSensitive: bool, s: string, i: nat, k: nat, k': nat,
                           caps: seq<string>, after: Run)
    requires 0 < k && i + k <= |s| && MatchTokens(rest, tail, caseSensitive, s, i + k) == Some(after)
    requires k' <= k && (k == k' ==> CapsLeq(caps, after.caps))
    ensures TakesAtLeast(TryParam(rest, tail, caseSensitive, s, i, k), k', caps)
  {
    TryParamFound(rest, tail, caseSensitive, s, i, k, after);
    assert ([s[i..i + k]] + after.caps)[1..] == after.caps;
  }

  lemma NonSlashRunIsLongest(s: string, i: nat, k: nat)
    requires i + k <= |s| && NoSlashBetween(s, i, i + k)
    ensures k <= NonSlashRun(s, i)
  {
  }

  lemma NonSlashRunExact(s: string, i: nat, k: nat)
    requires i + k <= |s| && NoSlashBetween(s, i, i + k)
    requires i + k == |s| || s[i + k] == '/'
    ensures k == NonSlashRun(s, i)
  {
    NonSlashRunIsLongest(s, i, k);
  }

  /**
   * The matcher finds a match exactly when the pattern can be laid over the
   * pathname, and no accepted run has captures longer than the matcher's,
   * compared from the left.
   */
  lemma ExecComplete(m: Matcher, s: string)
    ensures Exec(m, s).Some? ==> Accepts(m.tokens, m.tail, m.caseSensitive, s, 0, Exec(m, s).value)
    ensures forall r :: Accepts(m.tokens, m.tail, m.caseSensitive, s, 0, r) ==>
      Exec(m, s).Some? && CapsLeq(r.caps, Exec(m, s).value.caps)
  {
    MatchTokensSound(m.tokens, m.tail, m.caseSensitive, s, 0);
    forall r | Accepts(m.tokens, m.tail, m.caseSensitive, s, 0, r)
      ensures Exec(m, s).Some? && CapsLeq(r.caps, Exec(m, s).value.caps)
    {
      MatchTokensGreedy(m.tokens, m.tail, m.caseSensitive, s, 0, r);
    }
  }

  /** The matcher fails exactly when no run is accepted. */
  lemma ExecNoneIff(m: Matcher, s: string)
    ensures Exec(m, s).None? ==> forall r :: !Accepts(m.tokens, m.tail, m.caseSensitive, s, 0, r)
    ensures (forall r :: !Accepts(m.tokens, m.tail, m.caseSensitive, s, 0, r)) ==> Exec(m, s).None?
  {
    ExecComplete(m, s);
    if Exec(m, s).Some? {
      var r := Exec(m, s).value;
      assert Accepts(m.tokens, m.tail, m.caseSensitive, s, 0, r);
    }
  }

  // ---------------------------------------------------------------------------
  // Uniqueness when parameters are separated

  /**
   * Every parameter is followed by a literal `/`, or is the last token and the
   * tail only lets the match continue at a `/` or the end.
   */
  ghost predicate Separated(toks: seq<Token>, tail: Tail)
    decreases |toks|
  {
    || toks == []
    || (&& (toks[0].Param? ==>
             || (|toks| > 1 && toks[1] == Lit('/'))
             || (|toks| == 1 && (tail.TrailingSlashes? || tail.SlashRest?)))
        && Separated(toks[1..], tail))
  }

  lemma {:induction false} AcceptsUnique(toks: seq<Token>, tail: Tail, caseSensitive: bool, s: string, i: nat, r1: Run, r2: Run)
    requires i <= |s| && Separated(toks, tail)
    requires Accepts(toks, tail, caseSensitive, s, i, r1) && Accepts(toks, tail, caseSensitive, s, i, r2)
    ensures r1 == r2
    decreases |toks|
  {
    if toks != [] {
      match toks[0]
      case Lit(c) =>
        AcceptsUnique(toks[1..], tail, caseSensitive, s, i + 1, r1, r2);
      case Param(_) =>
        var k1 := |r1.caps[0]|;
        var k2 := |r2.caps[0]|;
        ParamEndsAtSlash(toks, tail, caseSensitive, s, i, k1, Run(r1.end, r1.caps[1..]));
        ParamEndsAtSlash(toks, tail, caseSensitive, s, i, k2, Run(r2.end, r2.caps[1..]));
        NonSlashRunExact(s, i, k1);
        NonSlashRunExact(s, i, k2);
        AcceptsUnique(toks[1..], tail, caseSensitive, s, i + k1, Run(r1.end, r1.caps[1..]), Run(r2.end, r2.caps[1..]));
        assert r1.caps == [r1.caps[0]] + r1.caps[1..];
        assert r2.caps == [r2.caps[0]] + r2.caps[1..];
    }
  }

  // A separated parameter's capture stops at a `/` or at the end of the pathname.
  lemma ParamEndsAtSlash(toks: seq<Token>, tail: Tail, caseSensitive: bool, s: string, i: nat, k: nat, r: Run)
    requires |toks| > 0 && toks[0].Param? && Separated(toks, tail) && i + k <= |s|
    requires Accepts(toks[1..], tail, caseSensitive, s, i + k, r)
    ensures i + k == |s| || s[i + k] == '/'
  {
    if |toks| > 1 {
      assert toks[1..][0] == Lit('/');
      assert CharMatches(caseSensitive, '/', s[i + k]);
    }
  }

  /** Where parameters are separated, the matcher's run is the only accepted one. */
  lemma ExecUnique(m: Matcher, s: string, r: Run)
    requires Separated(m.tokens, m.tail)
    ensures Accepts(m.tokens, m.tail, m.caseSensitive, s, 0, r) <==> Exec(m, s) == Some(r)
  {
    MatchTokensSound(m.tokens, m.tail, m.caseSensitive, s, 0);
    if Exec(m, s).Some? {
      if Accepts(m.tokens, m.tail, m.caseSensitive, s, 0, r) {
        AcceptsUnique(m.tokens, m.tail, m.caseSensitive, s, 0, r, Exec(m, s).value);
      }
    } else {
      if Accepts(m.tokens, m.tail, m.caseSensitive, s, 0, r) {
        MatchTokensGreedy(m.tokens, m.tail, m.caseSensitive, s, 0, r);
      }
    }
  }

  // ---------------------------------------------------------------------------
  // Case

  function UpperString(s: string): (r: string)
    ensures |r| == |s| && forall j :: 0 <= j < |s| ==> r[j] == UpperAscii(s[j])
  {
    seq(|s|, j requires 0 <= j < |s| => UpperAscii(s[j]))
  }

  function UpperCaps(caps: seq<string>): (r: seq<string>)
    ensures |r| == |caps|
  {
    if caps == [] then [] else [UpperString(caps[0])] + UpperCaps(caps[1..])
  }

  function UpperRun(o: Option<Run>): Option<Run> {
    match o
    case None => None
    case Some(r) => Some(Run(r.end, UpperCaps(r.caps)))
  }

  lemma UpperSlice(s: string, a: nat, b: nat)
    requires a <= b <= |s|
    ensures UpperString(s)[a..b] == UpperString(s[a..b])
  {
    assert forall j :: 0 <= j < b - a ==> UpperString(s)[a..b][j] == UpperString(s[a..b])[j];
  }

  lemma UpperSuffix(s: string, a: nat)
    requires a <= |s|
    ensures UpperString(s)[a..] == UpperString(s[a..])
  {
    assert forall j :: 0 <= j < |s| - a ==> UpperString(s)[a..][j] == UpperString(s[a..])[j];
  }

  // Upper-casing keeps every character class the expression tests other than letters.
  lemma UpperChar(c: char)
    ensures (UpperAscii(c) == '/') == (c == '/')
    ensures IsLineTerminator(UpperAscii(c)) == IsLineTerminator(c)
    ensures IsWordChar(UpperAscii(c)) == IsWordChar(c)
    ensures IsHexIn(false, UpperAscii(c)) == IsHexIn(false, c)
    ensures (UpperAscii(c) == '.' || UpperAscii(c) == '~' || UpperAscii(c) == '-') == (c == '.' || c == '~' || c == '-')
    ensures (UpperAscii(c) == '%') == (c == '%')
    ensures forall p :: CharMatches(false, p, UpperAscii(c)) == CharMatches(false, p, c)
  {
  }

  lemma UpperClasses(s: string, i: nat)
    requires i <= |s|
    ensures SlashesFrom(UpperString(s), i) == SlashesFrom(s, i)
    ensures NoTerminatorsFrom(UpperString(s), i) == NoTerminatorsFrom(s, i)
    ensures LookaheadAt(false, UpperString(s), i) == LookaheadAt(false, s, i)
    ensures WordBoundaryAt(UpperString(s), i) == WordBoundaryAt(s, i)
    ensures NonSlashRun(UpperString(s), i) == NonSlashRun(s, i)
  {
    var u := UpperString(s);
    forall j | 0 <= j < |s|
      ensures (u[j] == '/') == (s[j] == '/') && IsLineTerminator(u[j]) == IsLineTerminator(s[j])
      ensures IsWordChar(u[j]) == IsWordChar(s[j])
    {
      UpperChar(s[j]);
    }
    if i < |s| {
      UpperChar(s[i]);
    }
    if i + 3 <= |s| {
      UpperChar(s[i + 1]);
      UpperChar(s[i + 2]);
    }
    var n := NonSlashRun(s, i);
    assert NoSlashBetween(u, i, i + n);
    NonSlashRunExact(u, i, n);
  }

  lemma UpperTail(tail: Tail, s: string, i: nat)
    requires i <= |s|
    ensures TailMatch(tail, false, UpperString(s), i) == UpperRun(TailMatch(tail, false, s, i))
  {
    UpperClasses(s, i);
    match tail
    case TrailingSlashes =>
    case Boundary =>
      if i < |s| {
        UpperChar(s[i]);
      }
    case Rest =>
      UpperSuffix(s, i);
      UpperOne(s[i..]);
    case SlashRest =>
      if i + 1 < |s| {
        UpperChar(s[i]);
        UpperClasses(s, i + 1);
        UpperSuffix(s, i + 1);
        UpperOne(s[i + 1..]);
      }
      UpperOne("");
  }

  lemma UpperOne(x: string)
    ensures UpperCaps([x]) == [UpperString(x)]
  {
    assert [x][1..] == [];
  }

  /**
   * Without the case-sensitive flag, upper-casing the pathname's ASCII letters
   * changes neither whether nor where it matches; only the captures' letters
   * change with it.
   */
  lemma {:induction false} MatchIgnoresCase(toks: seq<Token>, tail: Tail, s: string, i: nat)
    requires i <= |s|
    ensures MatchTokens(toks, tail, false, UpperString(s), i) == UpperRun(MatchTokens(toks, tail, false, s, i))
    decreases |toks|, 1, 0
  {
    if toks == [] {
      UpperTail(tail, s, i);
    } else {
      match toks[0]
      case Lit(c) =>
        if i < |s| {
          UpperChar(s[i]);
          MatchIgnoresCase(toks[1..], tail, s, i + 1);
        }
      case Param(_) =>
        ParamIgnoresCase(toks, tail, s, i);
    }
  }

  lemma {:induction false} ParamIgnoresCase(toks: seq<Token>, tail: Tail, s: string, i: nat)
    requires i <= |s| && toks != [] && toks[0].Param?
    ensures MatchTokens(toks, tail, false, UpperString(s), i) == UpperRun(MatchTokens(toks, tail, false, s, i))
    decreases |toks|, 0, |s| - i + 1
  {
    UpperClasses(s, i);
    TryParamIgnoresCase(toks[1..], tail, s, i, NonSlashRun(s, i));
  }

  lemma {:induction false} TryParamIgnoresCase(rest: seq<Token>, tail: Tail, s: string, i: nat, k: nat)
    requires i + k <= |s|
    ensures TryParam(rest, tail, false, UpperString(s), i, k) == UpperRun(TryParam(rest, tail, false, s, i, k))
    decreases |rest| + 1, 0, k
  {
    if k > 0 {
      var u := UpperString(s);
      var m := MatchTokens(rest, tail, false, s, i + k);
      MatchIgnoresCase(rest, tail, s, i + k);
      if m.Some? {
        TryParamIgnoresCaseFound(rest, tail, s, i, k, m.value);
      } else {
        TryParamIgnoresCase(rest, tail, s, i, k - 1);
        TryParamIgnoresCaseNext(rest, tail, s, i, k);
      }
    }
  }

  // The first attempt of a parameter succeeds on both texts, with the same run up to case.
  lemma TryParamIgnoresCaseFound(rest: seq<Token>, tail: Tail, s: string, i: nat, k: nat, after: Run)
    requires 0 < k && i + k <= |s| && MatchTokens(rest, tail, false, s, i + k) == Some(after)
    requires MatchTokens(rest, tail, false, UpperString(s), i + k) == Some(Run(after.end, UpperCaps(after.caps)))
    ensures TryParam(rest, tail, false, UpperString(s), i, k) == UpperRun(TryParam(rest, tail, false, s, i, k))
  {
    TryParamFound(rest, tail, false, s, i, k, after);
    TryParamFound(rest, tail, false, UpperString(s), i, k, Run(after.end, UpperCaps(after.caps)));
    UpperParamRun(s, i, k, after);
  }

  // The first attempt of a parameter fails on both texts.
  lemma TryParamIgnoresCaseNext(rest: seq<Token>, tail: Tail, s: string, i: nat, k: nat)
    requires 0 < k && i + k <= |s| && MatchTokens(rest, tail, false, s, i + k).None?
    requires MatchTokens(rest, tail, false, UpperString(s), i + k).None?
    requires TryParam(rest, tail, false, UpperString(s), i, k - 1) == UpperRun(TryParam(rest, tail, false, s, i, k - 1))
    ensures TryParam(rest, tail, false, UpperString(s), i, k) == UpperRun(TryParam(rest, tail, false, s, i, k))
  {
    TryParamNext(rest, tail, false, s, i, k);
    TryParamNext(rest, tail, false, UpperString(s), i, k);
  }

  // A parameter's run, upper-cased.
  lemma UpperParamRun(s: string, i: nat, k: nat, after: Run)
    requires i + k <= |s|
    ensures UpperRun(Some(Run(after.end, [s[i..i + k]] + after.caps)))
      == Some(Run(after.end, [UpperString(s)[i..i + k]] + UpperCaps(after.caps)))
  {
    UpperSlice(s, i, i + k);
    UpperCapsCons(s[i..i + k], after.caps);
  }

  lemma UpperCapsCons(x: string, caps: seq<string>)
    ensures UpperCaps([x] + caps) == [UpperString(x)] + UpperCaps(caps)
  {
    assert ([x] + caps)[1..] == caps;
  }

  lemma ExecIgnoresCase(m: Matcher, s: string)
    requires !m.caseSensitive
    ensures Exec(m, UpperString(s)) == UpperRun(Exec(m, s))
  {
    MatchIgnoresCase(m.tokens, m.tail, s, 0);
  }

  // ---------------------------------------------------------------------------
  // Literal patterns

  predicate AllLiteral(toks: seq<Token>) {
    forall k :: 0 <= k < |toks| ==> toks[k].Lit?
  }

  /** Tokens that carry no parameter name are all literals. */
  lemma {:induction false} NoNamesAllLiteral(toks: seq<Token>)
    requires TokenNames(toks) == []
    ensures AllLiteral(toks)
    decreases |toks|
  {
    if toks != [] && toks[0].Lit? {
      NoNamesAllLiteral(toks[1..]);
      assert forall k :: 1 <= k < |toks| ==> toks[k] == toks[1..][k - 1];
    } else if toks != [] {
      assert false;
    }
  }

  /** Literal tokens render to their own characters, one each. */
  lemma {:induction false} RenderLiterals(toks: seq<Token>)
    requires AllLiteral(toks)
    ensures |Render(toks)| == |toks| && forall k :: 0 <= k < |toks| ==> Render(toks)[k] == toks[k].c
    decreases |toks|
  {
    if toks != [] {
      var rest := toks[1..];
      assert AllLiteral(rest) by {
        assert forall k :: 0 <= k < |rest| ==> rest[k] == toks[k + 1];
      }
      RenderLiterals(rest);
      assert Render(toks) == [toks[0].c] + Render(rest);
      forall k | 0 <= k < |toks| ensures Render(toks)[k] == toks[k].c {
        if k > 0 {
          assert Render(toks)[k] == Render(rest)[k - 1] && rest[k - 1] == toks[k];
        }
      }
    }
  }

  /** The literal tokens match `s` character by character from `i`. */
  predicate LiteralsAt(toks: seq<Token>, caseSensitive: bool, s: string, i: nat)
    requires AllLiteral(toks)
  {
    i + |toks| <= |s| && forall k :: 0 <= k < |toks| ==> CharMatches(caseSensitive, toks[k].c, s[i + k])
  }

  /** A pattern without parameters matches by comparing its text, then the tail right after it. */
  lemma {:induction false} LiteralMatch(toks: seq<Token>, tail: Tail, caseSensitive: bool, s: string, i: nat)
    requires i <= |s| && AllLiteral(toks)
    ensures MatchTokens(toks, tail, caseSensitive, s, i) ==
      if LiteralsAt(toks, caseSensitive, s, i) then TailMatch(tail, caseSensitive, s, i + |toks|) else None
    decreases |toks|
  {
    if toks != [] {
      assert AllLiteral(toks[1..]);
      LiteralsAtCons(toks, caseSensitive, s, i);
      LiteralStep(toks, tail, caseSensitive, s, i);
      if i < |s| && CharMatches(caseSensitive, toks[0].c, s[i]) {
        LiteralMatch(toks[1..], tail, caseSensitive, s, i + 1);
      }
    }
  }

  /** One literal token: its character must match, then the rest matches from the next position. */
  lemma LiteralStep(toks: seq<Token>, tail: Tail, caseSensitive: bool, s: string, i: nat)
    requires i <= |s| && toks != [] && toks[0].Lit?
    ensures MatchTokens(toks, tail, caseSensitive, s, i) ==
      if i < |s| && CharMatches(caseSensitive, toks[0].c, s[i]) then MatchTokens(toks[1..], tail, caseSensitive, s, i + 1)
      else None
  {
  }

  /** The literal tokens match from `i` when the first matches there and the rest from `i + 1`. */
  lemma LiteralsAtCons(toks: seq<Token>, caseSensitive: bool, s: string, i: nat)
    requires AllLiteral(toks) && toks != []
    ensures AllLiteral(toks[1..])
    ensures LiteralsAt(toks, caseSensitive, s, i) <==>
      i < |s| && CharMatches(caseSensitive, toks[0].c, s[i]) && LiteralsAt(toks[1..], caseSensitive, s, i + 1)
  {
    var rest := toks[1..];
    assert forall k :: 0 <= k < |rest| ==> rest[k] == toks[k + 1];
    if i < |s| && CharMatches(caseSensitive, toks[0].c, s[i]) && LiteralsAt(rest, caseSensitive, s, i + 1) {
      forall k | 0 <= k < |toks| ensures CharMatches(caseSensitive, toks[k].c, s[i + k]) {
        if k > 0 {
          assert toks[k] == rest[k - 1];
        }
      }
    }
  }

  /**
   * With the boundary tail, a parameterless pattern whose text ends in a word
   * character does not match a pathname that continues with another word
   * character right after it (`/home` does not match `/home2`).
   */
  lemma BoundaryStopsInsideWord(toks: seq<Token>, caseSensitive: bool, s: string)
    requires AllLiteral(toks) && |toks| > 0 && IsWordChar(toks[|toks| - 1].c)
    requires |toks| < |s| && IsWordChar(s[|toks|])
    ensures MatchTokens(toks, Boundary, caseSensitive, s, 0) == None
  {
    LiteralMatch(toks, Boundary, caseSensitive, s, 0);
    if LiteralsAt(toks, caseSensitive, s, 0) {
      var n := |toks|;
      assert CharMatches(caseSensitive, toks[n - 1].c, s[n - 1]);
      assert IsWordChar(s[n - 1]);
    }
  }
}
