/**
 * `decodeURIComponent` as the ECMAScript Decode operation defines it, with an
 * empty reserved set: every `%XY` escape is turned back into the UTF-8 octets of
 * one code point (section 2.1 of RFC 3986, RFC 3629), and a malformed escape
 * raises URIError, modelled here as `None`. `EncodeURIComponent` is the partner
 * operation and `DecodeEncode` the round trip between the two.
 *
 * Strings are sequences of Unicode scalar values, so a decoded supplementary
 * code point is one character here where JavaScript holds two code units.
 */
module UriComponent {
  import opened Wrappers

  predicate IsHexDigit(c: char) {
    '0' <= c <= '9' || 'a' <= c <= 'f' || 'A' <= c <= 'F'
  }

  function HexValue(c: char): (v: nat)
    requires IsHexDigit(c)
    ensures v < 16
  {
    if '0' <= c <= '9' then c as int - '0' as int
    else if 'a' <= c <= 'f' then c as int - 'a' as int + 10
    else c as int - 'A' as int + 10
  }

  /** Upper-case hexadecimal digit, as `encodeURIComponent` writes it. */
  function HexDigit(v: nat): (c: char)
    requires v < 16
    ensures IsHexDigit(c) && HexValue(c) == v
  {
    if v < 10 then ('0' as int + v) as char else ('A' as int + v - 10) as char
  }

  /** The octet written as `%XY` at the front of `s`, if `s` starts with a well-formed escape. */
  function EscapedOctet(s: string): (r: Option<nat>)
    ensures r.Some? ==> |s| >= 3 && s[0] == '%' && r.value < 256
  {
    if |s| >= 3 && s[0] == '%' && IsHexDigit(s[1]) && IsHexDigit(s[2])
    then Some(16 * HexValue(s[1]) + HexValue(s[2]))
    else None
  }

  /** Number of octets announced by a leading octet (its leading one bits), 0 when it cannot lead. */
  function SequenceLength(b: nat): (n: nat)
    ensures n <= 4
  {
    if b < 0x80 then 1
    else if b < 0xC0 then 0
    else if b < 0xE0 then 2
    else if b < 0xF0 then 3
    else if b < 0xF8 then 4
    else 0
  }

  predicate IsContinuation(b: nat) {
    0x80 <= b < 0xC0
  }

  /** `count` escaped continuation octets at the front of `s`. */
  function ContinuationOctets(s: string, count: nat): (r: Option<seq<nat>>)
    ensures r.Some? ==> |r.value| == count && |s| >= 3 * count
    ensures r.Some? ==> forall k :: 0 <= k < count ==> IsContinuation(r.value[k])
    decreases count
  {
    if count == 0 then Some([])
    else match EscapedOctet(s)
      case None => None
      case Some(b) =>
        if !IsContinuation(b) then None
        else match ContinuationOctets(s[3..], count - 1)
          case None => None
          case Some(bs) => Some([b] + bs)
  }

  /** The code point that a leading octet and its continuation octets spell. */
  function CodePoint(lead: nat, cont: seq<nat>): int
    requires 1 <= |cont| <= 3
  {
    if |cont| == 1 then (lead as int - 0xC0) * 64 + (cont[0] as int - 0x80)
    else if |cont| == 2 then (lead as int - 0xE0) * 4096 + (cont[0] as int - 0x80) * 64 + (cont[1] as int - 0x80)
    else
      (lead as int - 0xF0) * 262144 + (cont[0] as int - 0x80) * 4096 + (cont[1] as int - 0x80) * 64
      + (cont[2] as int - 0x80)
  }

  /** A code point is validly encoded in `n` octets: not overlong, not a surrogate, not above U+10FFFF. */
  predicate ValidEncoding(cp: int, n: nat) {
    && (n == 2 ==> 0x80 <= cp < 0x800)
    && (n == 3 ==> 0x800 <= cp < 0x10000 && !(0xD800 <= cp < 0xE000))
    && (n == 4 ==> 0x10000 <= cp < 0x110000)
    && 2 <= n <= 4
  }

  /** One escaped character at the front of `s` (which starts with `%`): the character and the input it used. */
  function DecodeEscape(s: string): (r: Option<(char, nat)>)
    requires |s| > 0 && s[0] == '%'
    ensures r.Some? ==> 3 <= r.value.1 <= |s|
  {
    match EscapedOctet(s)
    case None => None
    case Some(b) =>
      var n := SequenceLength(b);
      if n == 0 then None
      else if n == 1 then Some((b as char, 3))
      else match ContinuationOctets(s[3..], n - 1)
        case None => None
        case Some(cont) =>
          var cp := CodePoint(b, cont);
          if ValidEncoding(cp, n) then Some((cp as char, 3 * n)) else None
  }

  function Prepend(c: char, r: Option<string>): Option<string> {
    match r
    case None => None
    case Some(t) => Some([c] + t)
  }

  /** decodeURIComponent: `None` where JavaScript throws URIError. */
  function Decode(s: string): (r: Option<string>)
    ensures r.Some? ==> |r.value| <= |s|
    decreases |s|
  {
    if s == [] then Some([])
    else if s[0] != '%' then Prepend(s[0], Decode(s[1..]))
    else match DecodeEscape(s)
      case None => None
      case Some((c, used)) => Prepend(c, Decode(s[used..]))
  }

  /** The characters `encodeURIComponent` leaves as they are. */
  predicate IsUnreserved(c: char) {
    || 'a' <= c <= 'z' || 'A' <= c <= 'Z' || '0' <= c <= '9'
    || c == '-' || c == '_' || c == '.' || c == '!' || c == '~' || c == '*' || c == '\'' || c == '(' || c == ')'
  }

  /** The UTF-8 octets of one character (RFC 3629, section 3). */
  function Utf8Octets(c: char): (bs: seq<nat>)
    ensures 1 <= |bs| <= 4
    ensures forall k :: 0 <= k < |bs| ==> bs[k] < 256
  {
    var cp := c as int;
    if cp < 0x80 then [cp]
    else if cp < 0x800 then [0xC0 + cp / 64, 0x80 + cp % 64]
    else if cp < 0x10000 then [0xE0 + cp / 4096, 0x80 + (cp / 64) % 64, 0x80 + cp % 64]
    else [0xF0 + cp / 262144, 0x80 + (cp / 4096) % 64, 0x80 + (cp / 64) % 64, 0x80 + cp % 64]
  }

  function EscapeOctet(b: nat): string
    requires b < 256
  {
    ['%', HexDigit(b / 16), HexDigit(b % 16)]
  }

  function EscapeOctets(bs: seq<nat>): string
    requires forall k :: 0 <= k < |bs| ==> bs[k] < 256
  {
    if bs == [] then [] else EscapeOctet(bs[0]) + EscapeOctets(bs[1..])
  }

  function EncodeChar(c: char): (e: string)
    ensures |e| >= 1 && forall k :: 0 <= k < |e| ==> IsEncoded(e[k])
  {
    if IsUnreserved(c) then [c]
    else
      var e := EscapeOctets(Utf8Octets(c));
      EscapesAreEncoded(Utf8Octets(c));
      e
  }

  /** Escaped octets consist of `%` and hexadecimal digits. */
  lemma {:induction false} EscapesAreEncoded(bs: seq<nat>)
    requires forall k :: 0 <= k < |bs| ==> bs[k] < 256
    ensures forall k :: 0 <= k < |EscapeOctets(bs)| ==> IsEncoded(EscapeOctets(bs)[k])
    decreases |bs|
  {
    if bs != [] {
      EscapesAreEncoded(bs[1..]);
      var head := EscapeOctet(bs[0]);
      var tail := EscapeOctets(bs[1..]);
      assert EscapeOctets(bs) == head + tail;
      forall k | 0 <= k < |head + tail| ensures IsEncoded((head + tail)[k]) {
        if k >= 3 {
          assert (head + tail)[k] == tail[k - 3];
        }
      }
    }
  }

  /** What an encoded string is made of: unreserved characters, `%` and hexadecimal digits. */
  predicate IsEncoded(c: char) {
    IsUnreserved(c) || c == '%' || IsHexDigit(c)
  }

  /**
   * encodeURIComponent (it cannot fail on scalar values): every character
   * gives at least one, and only unreserved characters and escapes remain.
   */
  function EncodeURIComponent(s: string): (e: string)
    ensures |e| >= |s| && forall k :: 0 <= k < |e| ==> IsEncoded(e[k])
  {
    if s == [] then [] else EncodeChar(s[0]) + EncodeURIComponent(s[1..])
  }

  /** safelyDecodeURIComponent: the decoded value, or the value itself when it is malformed. */
  function SafelyDecode(value: string): (r: string)
    ensures Decode(value).None? ==> r == value
    ensures Decode(value).Some? ==> Some(r) == Decode(value)
  {
    match Decode(value)
    case Some(decoded) => decoded
    case None => value
  }

  // ---------------------------------------------------------------------------
  // Properties

  /** A string without `%` decodes to itself. */
  lemma {:induction false} DecodeWithoutEscapes(s: string)
    requires forall k :: 0 <= k < |s| ==> s[k] != '%'
    ensures Decode(s) == Some(s)
  {
    if s != [] {
      DecodeWithoutEscapes(s[1..]);
      assert [s[0]] + s[1..] == s;
    }
  }

  lemma HexRoundTrip(b: nat)
    requires b < 256
    ensures 16 * HexValue(HexDigit(b / 16)) + HexValue(HexDigit(b % 16)) == b
  {
  }

  lemma EscapeOctetsSplit(b: nat, bs: seq<nat>, rest: string)
    requires b < 256 && forall k :: 0 <= k < |bs| ==> bs[k] < 256
    ensures EscapeOctets([b] + bs) + rest == EscapeOctet(b) + (EscapeOctets(bs) + rest)
  {
    assert ([b] + bs)[1..] == bs;
  }

  /** Reading back escaped continuation octets. */
  lemma {:induction false} ReadContinuations(bs: seq<nat>, rest: string)
    requires forall k :: 0 <= k < |bs| ==> bs[k] < 256 && IsContinuation(bs[k])
    ensures ContinuationOctets(EscapeOctets(bs) + rest, |bs|) == Some(bs)
    ensures |EscapeOctets(bs)| == 3 * |bs|
    ensures (EscapeOctets(bs) + rest)[3 * |bs|..] == rest
  {
    if bs != [] {
      var s := EscapeOctets(bs) + rest;
      EscapeOctetsSplit(bs[0], bs[1..], rest);
      assert [bs[0]] + bs[1..] == bs;
      HexRoundTrip(bs[0]);
      assert EscapedOctet(s) == Some(bs[0]);
      assert s[3..] == EscapeOctets(bs[1..]) + rest;
      ReadContinuations(bs[1..], rest);
      assert [bs[0]] + bs[1..] == bs;
    }
  }

  /** The octets `Utf8Octets` produces decode back to the character. */
  lemma Utf8Decodes(c: char)
    ensures var bs := Utf8Octets(c);
      && SequenceLength(bs[0]) == |bs|
      && (forall k :: 1 <= k < |bs| ==> IsContinuation(bs[k]))
      && (|bs| == 1 ==> bs[0] == c as int)
      && (|bs| > 1 ==> CodePoint(bs[0], bs[1..]) == c as int && ValidEncoding(c as int, |bs|))
  {
    var cp := c as int;
    if 0x800 <= cp < 0x10000 {
      ThreeOctets(cp);
    } else if 0x10000 <= cp {
      FourOctets(cp);
    }
  }

  lemma ThreeOctets(cp: int)
    requires 0x800 <= cp < 0x10000
    ensures 0xE0 <= 0xE0 + cp / 4096 < 0xF0
    ensures cp == (cp / 4096) * 4096 + ((cp / 64) % 64) * 64 + cp % 64
  {
  }

  lemma FourOctets(cp: int)
    requires 0x10000 <= cp < 0x110000
    ensures 0xF0 <= 0xF0 + cp / 262144 < 0xF8
    ensures cp == (cp / 262144) * 262144 + ((cp / 4096) % 64) * 4096 + ((cp / 64) % 64) * 64 + cp % 64
  {
  }

  /** Decoding the escapes of one character gives that character back and stops right after them. */
  lemma DecodeEscapedChar(c: char, rest: string)
    requires !IsUnreserved(c)
    ensures var e := EscapeOctets(Utf8Octets(c)) + rest;
      && |e| > 0 && e[0] == '%'
      && DecodeEscape(e) == Some((c, |EscapeOctets(Utf8Octets(c))|))
  {
    var bs := Utf8Octets(c);
    var e := EscapeOctets(bs) + rest;
    EscapeOctetsSplit(bs[0], bs[1..], rest);
    assert [bs[0]] + bs[1..] == bs;
    HexRoundTrip(bs[0]);
    assert EscapedOctet(e) == Some(bs[0]);
    Utf8Decodes(c);
    ReadContinuations(bs[1..], rest);
    assert e[3..] == EscapeOctets(bs[1..]) + rest;
    if |bs| == 1 {
      assert (bs[0] as char) == c;
    } else {
      DecodeEscapeSequence(e, bs[0], bs[1..]);
      assert (CodePoint(bs[0], bs[1..]) as char) == c;
    }
  }

  /** An escape whose lead octet announces a sequence that its continuation escapes complete. */
  lemma DecodeEscapeSequence(e: string, b: nat, cont: seq<nat>)
    requires |e| >= 3 && e[0] == '%' && EscapedOctet(e) == Some(b)
    requires SequenceLength(b) == |cont| + 1 > 1
    requires ContinuationOctets(e[3..], |cont|) == Some(cont) && ValidEncoding(CodePoint(b, cont), |cont| + 1)
    ensures DecodeEscape(e) == Some((CodePoint(b, cont) as char, 3 * (|cont| + 1)))
  {
  }

  /** Round trip: decodeURIComponent undoes encodeURIComponent. */
  lemma {:induction false} DecodeEncode(s: string)
    ensures Decode(EncodeURIComponent(s)) == Some(s)
  {
    if s != [] {
      var c, rest := s[0], EncodeURIComponent(s[1..]);
      var e := EncodeURIComponent(s);
      assert e == EncodeChar(c) + rest;
      DecodeEncode(s[1..]);
      if IsUnreserved(c) {
        assert e[1..] == rest;
      } else {
        DecodeEscapedChar(c, rest);
        var n := |EscapeOctets(Utf8Octets(c))|;
        assert e[n..] == rest;
      }
      assert [c] + s[1..] == s;
    }
  }

  /** safelyDecodeURIComponent returns the original text of an encoded value. */
  lemma SafelyDecodeEncoded(s: string)
    ensures SafelyDecode(EncodeURIComponent(s)) == s
  {
    DecodeEncode(s);
  }

  /** The malformed escape `%E0%A4%A` (a three-octet sequence cut short) is kept as it is. */
  lemma SafelyDecodeTruncatedSequence()
    ensures Decode("%E0%A4%A") == None
    ensures SafelyDecode("%E0%A4%A") == "%E0%A4%A"
  {
    var s := "%E0%A4%A";
    assert EscapedOctet(s) == Some(0xE0);
    assert s[3..] == "%A4%A";
    assert EscapedOctet(s[3..]) == Some(0xA4);
    assert s[3..][3..] == "%A";
    assert EscapedOctet(s[3..][3..]) == None;
  }
}
