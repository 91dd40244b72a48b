/**
 * getBrowserIdentifier (userAgent.ts): a three-way classification of the
 * `user-agent` request header by substring search in its lower-cased text.
 */
module UserAgent {
  import opened Wrappers

  /** `toLowerCase` on one character, for the ASCII letters. */
  function LowerAscii(c: char): char {
    if 'A' <= c <= 'Z' then (c as int + 32) as char else c
  }

  /** `toLowerCase` on ASCII letters. */
  function ToLower(s: string): (r: string)
    ensures |r| == |s| && forall k :: 0 <= k < |s| ==> r[k] == LowerAscii(s[k])
  {
    seq(|s|, k requires 0 <= k < |s| => LowerAscii(s[k]))
  }

  /** `sub` occurs in `s` at position `i`. */
  ghost predicate OccursAt(s: string, sub: string, i: int) {
    0 <= i && i + |sub| <= |s| && s[i..i + |sub|] == sub
  }

  /** `s.includes(sub)`: a scan of the start positions from the left. */
  function Includes(s: string, sub: string): (b: bool)
    decreases |s|
  {
    if |s| < |sub| then false
    else s[..|sub|] == sub || Includes(s[1..], sub)
  }

  /** The header, `''` when it is missing, lower-cased, then searched for `chrome` and then `safari`. */
  function GetBrowserIdentifier(userAgentHeader: Option<string>): (r: string)
    ensures r == "chrome" || r == "safari" || r == "unknown"
  {
    var userAgent := ToLower(userAgentHeader.GetOr(""));
    if Includes(userAgent, "chrome") then "chrome"
    else if Includes(userAgent, "safari") then "safari"
    else "unknown"
  }

  // ---------------------------------------------------------------------------
  // Properties

  /** The scan finds `sub` exactly when it occurs at some position. */
  lemma {:induction false} IncludesIffOccurs(s: string, sub: string)
    ensures Includes(s, sub) ==> exists i :: OccursAt(s, sub, i)
    ensures forall i :: OccursAt(s, sub, i) ==> Includes(s, sub)
    decreases |s|
  {
    if |s| >= |sub| {
      if s[..|sub|] == sub {
        assert OccursAt(s, sub, 0);
      } else {
        IncludesIffOccurs(s[1..], sub);
        if Includes(s[1..], sub) {
          var i :| OccursAt(s[1..], sub, i);
          assert s[1..][i..i + |sub|] == s[i + 1..i + 1 + |sub|];
          assert OccursAt(s, sub, i + 1);
        }
        forall i | OccursAt(s, sub, i) ensures Includes(s, sub) {
          if i > 0 {
            assert s[1..][i - 1..i - 1 + |sub|] == s[i..i + |sub|];
            assert OccursAt(s[1..], sub, i - 1);
          }
        }
      }
    }
  }

  /**
   * The classification, stated on occurrences in the lower-cased header:
   * `chrome` wins even next to `safari`; `safari` alone gives `safari`;
   * neither gives `unknown`. The result is always one of the three.
   */
  lemma Classification(userAgentHeader: Option<string>)
    ensures var ua := ToLower(userAgentHeader.GetOr(""));
      var r := GetBrowserIdentifier(userAgentHeader);
      && (r == "chrome" <==> exists i :: OccursAt(ua, "chrome", i))
      && (r == "safari" <==> (forall i :: !OccursAt(ua, "chrome", i)) && exists i :: OccursAt(ua, "safari", i))
      && (r == "unknown" <==> (forall i :: !OccursAt(ua, "chrome", i)) && forall i :: !OccursAt(ua, "safari", i))
  {
    var ua := ToLower(userAgentHeader.GetOr(""));
    IncludesIffOccurs(ua, "chrome");
    IncludesIffOccurs(ua, "safari");
  }

  /** A missing header is read as the empty string and classified `unknown`. */
  lemma MissingHeaderIsUnknown()
    ensures GetBrowserIdentifier(None) == "unknown"
    ensures GetBrowserIdentifier(None) == GetBrowserIdentifier(Some(""))
  {
  }

  /** A header with `Chrome` in any letter case at position `i` is classified `chrome`. */
  lemma ChromeInAnyCase(header: string, i: nat)
    requires i + 6 <= |header| && ToLower(header[i..i + 6]) == "chrome"
    ensures GetBrowserIdentifier(Some(header)) == "chrome"
  {
    var ua := ToLower(header);
    assert ua[i..i + 6] == ToLower(header[i..i + 6]);
    assert OccursAt(ua, "chrome", i);
    IncludesIffOccurs(ua, "chrome");
  }
}
