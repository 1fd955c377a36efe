/** UTF-8, as Python's `str.encode('utf-8')` and `bytes.decode('utf-8')` apply it:
    the well-formed byte sequences of Table 3-7 of the Unicode Standard (no
    overlong forms, no surrogates, nothing above U+10FFFF). A Dafny `char` is a
    Unicode scalar value, so every string has an encoding. */
module Utf8 {
  import opened Wrappers

  type byte = x: int | 0 <= x < 256
  type bytes = seq<byte>

  /** U+FFFD, which `errors='replace'` puts in place of an ill-formed subsequence. */
  const REPLACEMENT: char := 0xFFFD as char

  /** The one to four bytes of one scalar value. */
  function EncodeChar(c: char): (r: bytes)
    ensures 1 <= |r| <= 4
  {
    var n := c as int;
    if n < 0x80 then [n]
    else if n < 0x800 then [0xC0 + n / 64, 0x80 + n % 64]
    else if n < 0x10000 then [0xE0 + n / 4096, 0x80 + n / 64 % 64, 0x80 + n % 64]
    else [0xF0 + n / 262144, 0x80 + n / 4096 % 64, 0x80 + n / 64 % 64, 0x80 + n % 64]
  }

  /** `s.encode('utf-8')`. */
  function Encode(s: string): bytes
  {
    if |s| == 0 then [] else EncodeChar(s[0]) + Encode(s[1..])
  }

  /** The length of the sequence a byte starts, or 0 for a byte that starts none. */
  function LeadLength(b0: byte): nat
  {
    if b0 < 0x80 then 1
    else if 0xC2 <= b0 <= 0xDF then 2
    else if 0xE0 <= b0 <= 0xEF then 3
    else if 0xF0 <= b0 <= 0xF4 then 4
    else 0
  }

  /** The bounds of the byte that may follow a lead byte (Table 3-7); every
      later byte of a sequence lies in 0x80..0xBF. */
  function SecondLow(b0: byte): int
  {
    if b0 == 0xE0 then 0xA0 else if b0 == 0xF0 then 0x90 else 0x80
  }

  function SecondHigh(b0: byte): int
  {
    if b0 == 0xED then 0x9F else if b0 == 0xF4 then 0x8F else 0xBF
  }

  predicate IsTrail(x: byte)
  {
    0x80 <= x <= 0xBF
  }

  /** The maximal subpart at the start of `b`: the longest prefix that begins some
      well-formed sequence, but at least one byte. */
  function PrefixLength(b: bytes): (n: nat)
    requires |b| > 0
    ensures 1 <= n <= |b| && n <= 4
  {
    var len := LeadLength(b[0]);
    if len <= 1 || |b| < 2 || !(SecondLow(b[0]) <= b[1] <= SecondHigh(b[0])) then 1
    else if len == 2 || |b| < 3 || !IsTrail(b[2]) then 2
    else if len == 3 || |b| < 4 || !IsTrail(b[3]) then 3
    else 4
  }

  /** The length of the well-formed sequence `b` starts with, or 0 if it starts none. */
  function SequenceLength(b: bytes): (n: nat)
    ensures n <= |b| && n <= 4
    ensures |b| > 0 && n > 0 ==> n == LeadLength(b[0]) == PrefixLength(b)
  {
    if |b| == 0 then 0
    else if PrefixLength(b) == LeadLength(b[0]) then PrefixLength(b)
    else 0
  }

  /** The scalar value of the sequence `b` starts with. */
  function FirstChar(b: bytes): char
    requires SequenceLength(b) > 0
  {
    ScalarValue(b) as char
  }

  /** The number a well-formed sequence stands for: the payload bits of its bytes. */
  function ScalarValue(b: bytes): (v: int)
    requires SequenceLength(b) > 0
    ensures 0 <= v < 0xD800 || 0xE000 <= v < 0x11_0000
  {
    var n := SequenceLength(b);
    if n == 1 then b[0] as int
    else if n == 2 then (b[0] as int - 0xC0) * 64 + (b[1] as int - 0x80)
    else if n == 3 then (b[0] as int - 0xE0) * 4096 + (b[1] as int - 0x80) * 64 + (b[2] as int - 0x80)
    else (b[0] as int - 0xF0) * 262144 + (b[1] as int - 0x80) * 4096 + (b[2] as int - 0x80) * 64 + (b[3] as int - 0x80)
  }

  /** `b.decode('utf-8')`; `None` is the `UnicodeDecodeError`. */
  function Decode(b: bytes): Option<string>
    decreases |b|
  {
    if |b| == 0 then Some("")
    else if SequenceLength(b) == 0 then None
    else match Decode(b[SequenceLength(b)..])
      case None => None
      case Some(t) => Some([FirstChar(b)] + t)
  }

  /** `b.decode('utf-8', 'replace')`: each maximal ill-formed subpart becomes U+FFFD. */
  function DecodeReplace(b: bytes): string
    decreases |b|
  {
    if |b| == 0 then ""
    else if SequenceLength(b) > 0 then [FirstChar(b)] + DecodeReplace(b[SequenceLength(b)..])
    else [REPLACEMENT] + DecodeReplace(b[PrefixLength(b)..])
  }

  // ---------------------------------------------------------------- lemmas

  /** The base-64 digits of a two-byte scalar value. */
  lemma Digits2(n: int)
    requires 0x80 <= n < 0x800
    ensures n == n / 64 * 64 + n % 64 && 2 <= n / 64 < 32 && 0 <= n % 64 < 64
  {
  }

  /** The base-64 digits of a three-byte scalar value; the second digit rules
      out overlong forms and surrogates. */
  lemma Digits3(n: int)
    requires 0x800 <= n < 0x10000 && !(0xD800 <= n < 0xE000)
    ensures var q, r1, r0 := n / 4096, n / 64 % 64, n % 64;
            n == q * 4096 + r1 * 64 + r0 && 0 <= q < 16 && 0 <= r1 < 64 && 0 <= r0 < 64 &&
            (q == 0 ==> r1 >= 32) && (q == 13 ==> r1 < 32)
  {
    assert n / 64 == n / 4096 * 64 + n / 64 % 64;
  }

  /** The base-64 digits of a four-byte scalar value. */
  lemma Digits4(n: int)
    requires 0x10000 <= n < 0x11_0000
    ensures var q, r2, r1, r0 := n / 262144, n / 4096 % 64, n / 64 % 64, n % 64;
            n == q * 262144 + r2 * 4096 + r1 * 64 + r0 && 0 <= q <= 4 &&
            0 <= r2 < 64 && 0 <= r1 < 64 && 0 <= r0 < 64 &&
            (q == 0 ==> r2 >= 16) && (q == 4 ==> r2 < 16)
  {
    assert n / 4096 == n / 262144 * 64 + n / 4096 % 64;
    assert n / 64 == n / 4096 * 64 + n / 64 % 64;
  }

  /** The encoding of one scalar value is a well-formed sequence that decodes to it. */
  lemma DecodeEncodeChar(c: char, rest: bytes)
    ensures SequenceLength(EncodeChar(c) + rest) == |EncodeChar(c)|
    ensures FirstChar(EncodeChar(c) + rest) == c
  {
    var n := c as int;
    var b := EncodeChar(c) + rest;
    if n < 0x80 {
    } else if n < 0x800 {
      Digits2(n);
      Decode2(b, n / 64, n % 64);
    } else if n < 0x10000 {
      Digits3(n);
      Decode3(b, n / 4096, n / 64 % 64, n % 64);
    } else {
      Digits4(n);
      Decode4(b, n / 262144, n / 4096 % 64, n / 64 % 64, n % 64);
    }
  }

  lemma Decode2(b: bytes, q: int, r0: int)
    requires 2 <= q < 32 && 0 <= r0 < 64
    requires |b| >= 2 && b[0] == 0xC0 + q && b[1] == 0x80 + r0
    ensures SequenceLength(b) == 2 && ScalarValue(b) == q * 64 + r0
  {
  }

  lemma Decode3(b: bytes, q: int, r1: int, r0: int)
    requires 0 <= q < 16 && 0 <= r1 < 64 && 0 <= r0 < 64
    requires (q == 0 ==> r1 >= 32) && (q == 13 ==> r1 < 32)
    requires |b| >= 3 && b[0] == 0xE0 + q && b[1] == 0x80 + r1 && b[2] == 0x80 + r0
    ensures SequenceLength(b) == 3 && ScalarValue(b) == q * 4096 + r1 * 64 + r0
  {
  }

  lemma Decode4(b: bytes, q: int, r2: int, r1: int, r0: int)
    requires 0 <= q <= 4 && 0 <= r2 < 64 && 0 <= r1 < 64 && 0 <= r0 < 64
    requires (q == 0 ==> r2 >= 16) && (q == 4 ==> r2 < 16)
    requires |b| >= 4 && b[0] == 0xF0 + q && b[1] == 0x80 + r2 && b[2] == 0x80 + r1 && b[3] == 0x80 + r0
    ensures SequenceLength(b) == 4 && ScalarValue(b) == q * 262144 + r2 * 4096 + r1 * 64 + r0
  {
  }

  /** Base-64 digits are recovered by division and remainder. */
  lemma Undigits2(q: int, r0: int)
    requires 0 <= r0 < 64
    ensures (q * 64 + r0) / 64 == q && (q * 64 + r0) % 64 == r0
  {
  }

  lemma Undigits3(q: int, r1: int, r0: int)
    requires 0 <= q && 0 <= r1 < 64 && 0 <= r0 < 64
    ensures var v := q * 4096 + r1 * 64 + r0;
            v / 4096 == q && v / 64 % 64 == r1 && v % 64 == r0
  {
    var v := q * 4096 + r1 * 64 + r0;
    Undigits2(q * 64 + r1, r0);
    assert v == (q * 64 + r1) * 64 + r0;
    Undigits2(q, r1);
  }

  lemma Undigits4(q: int, r2: int, r1: int, r0: int)
    requires 0 <= q && 0 <= r2 < 64 && 0 <= r1 < 64 && 0 <= r0 < 64
    ensures var v := q * 262144 + r2 * 4096 + r1 * 64 + r0;
            v / 262144 == q && v / 4096 % 64 == r2 && v / 64 % 64 == r1 && v % 64 == r0
  {
    var v := q * 262144 + r2 * 4096 + r1 * 64 + r0;
    Undigits2(q * 4096 + r2 * 64 + r1, r0);
    assert v == (q * 4096 + r2 * 64 + r1) * 64 + r0;
    Undigits3(q, r2, r1);
    assert v / 64 == q * 4096 + r2 * 64 + r1;
    assert v / 4096 == (q * 4096 + r2 * 64 + r1) / 64;
  }

  lemma Encode2(c: char, q: int, r0: int)
    requires 2 <= q < 32 && 0 <= r0 < 64 && c as int == q * 64 + r0
    ensures EncodeChar(c) == [0xC0 + q, 0x80 + r0]
  {
    Undigits2(q, r0);
  }

  lemma Encode3(c: char, q: int, r1: int, r0: int)
    requires 0 <= q < 16 && 0 <= r1 < 64 && 0 <= r0 < 64 && (q == 0 ==> r1 >= 32)
    requires c as int == q * 4096 + r1 * 64 + r0
    ensures EncodeChar(c) == [0xE0 + q, 0x80 + r1, 0x80 + r0]
  {
    Undigits3(q, r1, r0);
  }

  lemma Encode4(c: char, q: int, r2: int, r1: int, r0: int)
    requires 0 <= q <= 4 && 0 <= r2 < 64 && 0 <= r1 < 64 && 0 <= r0 < 64 && (q == 0 ==> r2 >= 16)
    requires c as int == q * 262144 + r2 * 4096 + r1 * 64 + r0
    ensures EncodeChar(c) == [0xF0 + q, 0x80 + r2, 0x80 + r1, 0x80 + r0]
  {
    Undigits4(q, r2, r1, r0);
  }

  /** A well-formed sequence is the encoding of the scalar value it decodes to. */
  lemma EncodeFirstChar(b: bytes)
    requires SequenceLength(b) > 0
    ensures EncodeChar(FirstChar(b)) == b[..SequenceLength(b)]
  {
    var n := SequenceLength(b);
    var c := FirstChar(b);
    assert c as int == ScalarValue(b);
    if n == 1 {
      assert b[..1] == [b[0]];
    } else if n == 2 {
      Encode2(c, b[0] - 0xC0, b[1] - 0x80);
      assert b[..2] == [b[0], b[1]];
    } else if n == 3 {
      Encode3(c, b[0] - 0xE0, b[1] - 0x80, b[2] - 0x80);
      assert b[..3] == [b[0], b[1], b[2]];
    } else {
      Encode4(c, b[0] - 0xF0, b[1] - 0x80, b[2] - 0x80, b[3] - 0x80);
      assert b[..4] == [b[0], b[1], b[2], b[3]];
    }
  }

  /** Decoding an encoding gives back the string. */
  lemma {:induction false} DecodeEncode(s: string)
    ensures Decode(Encode(s)) == Some(s)
    decreases |s|
  {
    if |s| > 0 {
      var e := EncodeChar(s[0]);
      DecodeEncodeChar(s[0], Encode(s[1..]));
      assert (e + Encode(s[1..]))[|e|..] == Encode(s[1..]);
      DecodeEncode(s[1..]);
      assert s == [s[0]] + s[1..];
    }
  }

  /** Whatever decodes is the encoding of what it decodes to: together with
      DecodeEncode, `Decode(b)` succeeds exactly on the encodings of strings. */
  lemma {:induction false} EncodeDecode(b: bytes, s: string)
    requires Decode(b) == Some(s)
    ensures Encode(s) == b
    decreases |b|
  {
    if |b| > 0 {
      var n := SequenceLength(b);
      var t := Decode(b[n..]).value;
      EncodeDecode(b[n..], t);
      EncodeFirstChar(b);
      assert s == [FirstChar(b)] + t;
      assert s[1..] == t;
      assert b == b[..n] + b[n..];
    }
  }

  /** Where strict decoding succeeds, replacing decoding agrees with it. */
  lemma {:induction false} DecodeReplaceAgrees(b: bytes)
    requires Decode(b).Some?
    ensures DecodeReplace(b) == Decode(b).value
    decreases |b|
  {
    if |b| > 0 {
      DecodeReplaceAgrees(b[SequenceLength(b)..]);
    }
  }

  lemma {:induction false} EncodeAppend(s: string, t: string)
    ensures Encode(s + t) == Encode(s) + Encode(t)
    decreases |s|
  {
    if |s| == 0 {
      assert s + t == t;
    } else {
      assert (s + t)[0] == s[0] && (s + t)[1..] == s[1..] + t;
      EncodeAppend(s[1..], t);
    }
  }

  /** Only the empty string has an empty encoding. */
  lemma EncodeEmpty(s: string)
    ensures Encode(s) == [] <==> s == ""
  {
  }
}
