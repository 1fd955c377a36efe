/** `urllib.parse.unquote` with its defaults (`encoding='utf-8'`, `errors='replace'`),
    which percent-decodes the `#tag` of a legacy `ss://` link as section 2.1 of
    RFC 3986 describes. A string without `%` comes back unchanged; otherwise
    every maximal run of ASCII characters goes through `unquote_to_bytes` and
    is decoded as UTF-8 with U+FFFD for ill-formed bytes, and the other
    characters are copied. */
module Percent {
  import Utf8

  predicate IsAscii(c: char)
  {
    c as int < 0x80
  }

  /** The value of a byte that is one of `0123456789ABCDEFabcdef`, or -1. */
  function HexValue(x: Utf8.byte): (v: int)
    ensures -1 <= v < 16
  {
    if '0' as int <= x <= '9' as int then x - '0' as int
    else if 'A' as int <= x <= 'F' as int then x - 'A' as int + 10
    else if 'a' as int <= x <= 'f' as int then x - 'a' as int + 10
    else -1
  }

  /** `unquote_to_bytes` on the UTF-8 bytes of its argument: `%` and two hex
      digits become the byte they spell; any other `%` is kept as it is. */
  function UnquoteBytes(b: Utf8.bytes): (r: Utf8.bytes)
    ensures |r| <= |b|
    decreases |b|
  {
    if |b| == 0 then []
    else if b[0] == '%' as int && |b| >= 3 && HexValue(b[1]) >= 0 && HexValue(b[2]) >= 0 then
      [HexValue(b[1]) * 16 + HexValue(b[2])] + UnquoteBytes(b[3..])
    else [b[0]] + UnquoteBytes(b[1..])
  }

  /** The length of the run of ASCII characters `s` starts with. */
  function AsciiRun(s: string): (n: nat)
    ensures n <= |s|
    ensures forall i :: 0 <= i < n ==> IsAscii(s[i])
    ensures n == |s| || !IsAscii(s[n])
    decreases |s|
  {
    if |s| == 0 || !IsAscii(s[0]) then 0 else 1 + AsciiRun(s[1..])
  }

  /** The decoding of `s` run by run. */
  function Runs(s: string): string
    decreases |s|
  {
    if |s| == 0 then ""
    else if !IsAscii(s[0]) then [s[0]] + Runs(s[1..])
    else
      var n := AsciiRun(s);
      Utf8.DecodeReplace(UnquoteBytes(Utf8.Encode(s[..n]))) + Runs(s[n..])
  }

  /** `urllib.parse.unquote(s)`. */
  function Unquote(s: string): string
  {
    if '%' !in s then s else Runs(s)
  }

  // ---------------------------------------------------------------- lemmas

  /** An upper-case hex digit of a value below 16. */
  function HexDigit(v: int): (c: char)
    requires 0 <= v < 16
    ensures IsAscii(c) && HexValue(c as int) == v
  {
    if v < 10 then ('0' as int + v) as char else ('A' as int + v - 10) as char
  }

  /** Every byte written as `%XX`, the reference percent-encoding. */
  function Quote(b: Utf8.bytes): (r: string)
    ensures |r| == 3 * |b|
    ensures forall i :: 0 <= i < |r| ==> IsAscii(r[i])
  {
    if |b| == 0 then ""
    else ['%', HexDigit(b[0] / 16), HexDigit(b[0] % 16)] + Quote(b[1..])
  }

  /** The UTF-8 bytes of a percent-encoding: `%` and the two digits of the
      first byte, then the rest. */
  lemma EncodeQuote(b: Utf8.bytes)
    requires |b| > 0
    ensures Utf8.Encode(Quote(b)) ==
            ['%' as int, HexDigit(b[0] / 16) as int, HexDigit(b[0] % 16) as int] + Utf8.Encode(Quote(b[1..]))
  {
    var h1, h2 := HexDigit(b[0] / 16), HexDigit(b[0] % 16);
    var rest := Quote(b[1..]);
    assert Quote(b) == ['%', h1, h2] + rest;
    EncodeAscii3('%', h1, h2, rest);
  }

  /** Three ASCII characters are encoded as their three codes. */
  lemma EncodeAscii3(c1: char, c2: char, c3: char, t: string)
    requires IsAscii(c1) && IsAscii(c2) && IsAscii(c3)
    ensures Utf8.Encode([c1, c2, c3] + t) == [c1 as int, c2 as int, c3 as int] + Utf8.Encode(t)
  {
    var s := [c1, c2, c3] + t;
    assert s[0] == c1 && s[1..][0] == c2 && s[1..][1..][0] == c3 && s[1..][1..][1..] == t;
    var e := Utf8.Encode(t);
    assert Utf8.Encode(s[1..][1..]) == [c3 as int] + e;
    assert Utf8.Encode(s[1..]) == [c2 as int] + ([c3 as int] + e);
    assert Utf8.Encode(s) == [c1 as int] + ([c2 as int] + ([c3 as int] + e));
    Regroup(c1 as int, c2 as int, c3 as int, e);
  }

  /** Prepending three elements one at a time. */
  lemma Regroup<T>(x: T, y: T, z: T, e: seq<T>)
    ensures [x] + ([y] + ([z] + e)) == [x, y, z] + e
  {
    assert ([x] + ([y] + ([z] + e)))[3..] == e;
  }

  /** `%` and two hex digits spell one byte. */
  lemma UnquoteEscape(x: Utf8.byte, r: Utf8.bytes)
    ensures UnquoteBytes(['%' as int, HexDigit(x / 16) as int, HexDigit(x % 16) as int] + r) ==
            [x] + UnquoteBytes(r)
  {
    var e := ['%' as int, HexDigit(x / 16) as int, HexDigit(x % 16) as int] + r;
    assert e[3..] == r;
  }

  /** `unquote_to_bytes` undoes the percent-encoding of any bytes. */
  lemma {:induction false} UnquoteBytesQuote(b: Utf8.bytes)
    ensures UnquoteBytes(Utf8.Encode(Quote(b))) == b
    decreases |b|
  {
    if |b| > 0 {
      EncodeQuote(b);
      UnquoteEscape(b[0], Utf8.Encode(Quote(b[1..])));
      UnquoteBytesQuote(b[1..]);
      assert [b[0]] + b[1..] == b;
    }
  }

  /** A string of ASCII characters is a single run. */
  lemma {:induction false} AsciiRunAll(s: string)
    requires forall i :: 0 <= i < |s| ==> IsAscii(s[i])
    ensures AsciiRun(s) == |s|
    decreases |s|
  {
    if |s| > 0 {
      AsciiRunAll(s[1..]);
    }
  }

  /** A non-empty string of ASCII characters is decoded in one piece. */
  lemma RunsAscii(s: string)
    requires |s| > 0 && forall i :: 0 <= i < |s| ==> IsAscii(s[i])
    ensures Runs(s) == Utf8.DecodeReplace(UnquoteBytes(Utf8.Encode(s)))
  {
    AsciiRunAll(s);
    assert s[..|s|] == s;
    assert s[|s|..] == "";
  }

  /** Percent-decoding the percent-encoding of a string's UTF-8 bytes gives the
      string back: a `#tag` written that way names the descriptor exactly. */
  lemma UnquoteQuote(s: string)
    ensures Unquote(Quote(Utf8.Encode(s))) == s
  {
    var b := Utf8.Encode(s);
    var q := Quote(b);
    Utf8.EncodeEmpty(s);
    if s != "" {
      assert q[0] == '%';
      RunsAscii(q);
      UnquoteBytesQuote(b);
      Utf8.DecodeEncode(s);
      Utf8.DecodeReplaceAgrees(b);
    }
  }
}
