/** The `encode` / `decode` helpers of ssrconfig.py: base64 of section 4 of RFC 4648,
    or the URL- and filename-safe alphabet of its section 5, with `=` padding as in
    its section 3.2. Decoding follows CPython's `binascii.a2b_base64` in its
    default, non-strict mode, which `base64.b64decode` calls. */
module Base64 {
  import opened Wrappers
  import Utf8

  /** What `decode` gives: text when the decoded bytes are UTF-8, the raw bytes
      otherwise, or `Fail` for the `binascii.Error` it raises. */
  datatype Decoded = Text(s: string) | Bytes(b: Utf8.bytes) | Fail

  /** A Python value of type `str` or `bytes`. */
  type Value = d: Decoded | !d.Fail? witness Text("")

  /** The bytes `encode` works on: a `str` is first encoded as UTF-8. */
  function ToBytes(v: Value): Utf8.bytes
  {
    match v
    case Text(s) => Utf8.Encode(s)
    case Bytes(b) => b
  }

  /** Python's truthiness of a `str` or `bytes`. */
  predicate IsEmpty(v: Value)
  {
    match v
    case Text(s) => s == ""
    case Bytes(b) => b == []
  }

  // ---------------------------------------------------------------- encoding

  /** The character for a 6-bit group. */
  function Sextet(v: int, urlsafe: bool): char
    requires 0 <= v < 64
  {
    if v < 26 then ('A' as int + v) as char
    else if v < 52 then ('a' as int + v - 26) as char
    else if v < 62 then ('0' as int + v - 52) as char
    else if v == 62 then (if urlsafe then '-' else '+')
    else (if urlsafe then '_' else '/')
  }

  /** The four characters of three input bytes. */
  function Quantum(x0: Utf8.byte, x1: Utf8.byte, x2: Utf8.byte, urlsafe: bool): string
  {
    var y0, y1, y2 := x0 as int, x1 as int, x2 as int;
    [Sextet(y0 / 4, urlsafe), Sextet(y0 % 4 * 16 + y1 / 16, urlsafe),
     Sextet(y1 % 16 * 4 + y2 / 64, urlsafe), Sextet(y2 % 64, urlsafe)]
  }

  /** `base64.b64encode(b)`, or `base64.urlsafe_b64encode(b)` when `urlsafe`. */
  function EncodeBytes(b: Utf8.bytes, urlsafe: bool): string
    decreases |b|
  {
    if |b| == 0 then ""
    else if |b| == 1 then
      var y0 := b[0] as int;
      [Sextet(y0 / 4, urlsafe), Sextet(y0 % 4 * 16, urlsafe), '=', '=']
    else if |b| == 2 then
      var y0, y1 := b[0] as int, b[1] as int;
      [Sextet(y0 / 4, urlsafe), Sextet(y0 % 4 * 16 + y1 / 16, urlsafe), Sextet(y1 % 16 * 4, urlsafe), '=']
    else Quantum(b[0], b[1], b[2], urlsafe) + EncodeBytes(b[3..], urlsafe)
  }

  /** `encode(s, urlsafe)` of ssrconfig.py, for a `str` or a `bytes` argument. */
  function Encode(v: Value, urlsafe: bool): string
  {
    EncodeBytes(ToBytes(v), urlsafe)
  }

  // ---------------------------------------------------------------- decoding

  /** The value of a character once `-_` is mapped to `+/`; -1 for a character
      outside the standard alphabet, which `a2b_base64` skips. A non-ASCII
      character is skipped too: its UTF-8 bytes are all above 0x7F. */
  function SextetValue(c: char): int
  {
    if 'A' <= c <= 'Z' then c as int - 'A' as int
    else if 'a' <= c <= 'z' then c as int - 'a' as int + 26
    else if '0' <= c <= '9' then c as int - '0' as int + 52
    else if c == '+' || c == '-' then 62
    else if c == '/' || c == '_' then 63
    else -1
  }

  /** How many bits are left over at each position of a quantum. */
  predicate QuadOk(pos: nat, left: int)
  {
    (pos == 0 && left == 0) || (pos == 1 && 0 <= left < 64) ||
    (pos == 2 && 0 <= left < 16) || (pos == 3 && 0 <= left < 4)
  }

  /** The loop of `a2b_base64` (non-strict): `pos` is the position in the current
      quantum, `left` its leftover bits, `pads` the `=` seen since the last data
      character, `acc` the bytes written so far. `None` is the `binascii.Error`
      for a quantum left incomplete. */
  function A2b(s: string, pos: nat, left: int, pads: nat, acc: Utf8.bytes): Option<Utf8.bytes>
    requires QuadOk(pos, left)
    decreases |s|
  {
    if |s| == 0 then (if pos == 0 then Some(acc) else None)
    else if s[0] == '=' then
      if pos >= 2 && pos + pads + 1 >= 4 then Some(acc)
      else A2b(s[1..], pos, left, if pos >= 2 then pads + 1 else pads, acc)
    else
      var v := SextetValue(s[0]);
      if v < 0 then A2b(s[1..], pos, left, pads, acc)
      else if pos == 0 then A2b(s[1..], 1, v, 0, acc)
      else if pos == 1 then A2b(s[1..], 2, v % 16, 0, acc + [left * 4 + v / 16])
      else if pos == 2 then A2b(s[1..], 3, v % 4, 0, acc + [left * 16 + v / 4])
      else A2b(s[1..], 0, 0, 0, acc + [left * 64 + v])
  }

  /** `s + '=' * (4 - len(s) % 4)` when the length is not a multiple of 4. */
  function Padded(s: string): (r: string)
    ensures |r| % 4 == 0
  {
    if |s| % 4 > 0 then s + seq(4 - |s| % 4, _ => '=') else s
  }

  /** Text when the bytes are UTF-8, the bytes themselves otherwise. */
  function Classify(b: Utf8.bytes): Value
  {
    match Utf8.Decode(b)
    case Some(t) => Text(t)
    case None => Bytes(b)
  }

  /** `decode(s)` of ssrconfig.py. */
  function Decode(s: string): Decoded
  {
    match A2b(Padded(s), 0, 0, 0, [])
    case None => Fail
    case Some(b) => Classify(b)
  }

  // ---------------------------------------------------------------- lemmas

  /** Padding: after two characters `==` ends the data and a lone `=` does
      not, after three characters one `=` is enough. */
  lemma PaddingExamples()
    ensures Decode("YQ==") == Text("a")
    ensures Decode("YQ=x") == Fail
    ensures Decode("YWI=") == Text("ab")
  {
    assert "YQ=="[1..] == "Q==" && "Q=="[1..] == "==" && "=="[1..] == "=";
    assert A2b("=", 2, 0, 1, [97]) == Some([97]);
    assert A2b("==", 2, 0, 0, [97]) == Some([97]);
    assert SextetValue('Y') == 24 && SextetValue('Q') == 16 && [] + [24 * 4 + 16 / 16] == [97];
    assert A2b("Q==", 1, 24, 0, []) == Some([97]);
    assert A2b("YQ==", 0, 0, 0, []) == Some([97]);
    assert "YQ=x"[1..] == "Q=x" && "Q=x"[1..] == "=x" && "=x"[1..] == "x" && "x"[1..] == "";
    assert A2b("x", 2, 0, 1, [97]) == None;
    assert A2b("=x", 2, 0, 0, [97]) == None;
    assert A2b("Q=x", 1, 24, 0, []) == None;
    assert A2b("YQ=x", 0, 0, 0, []) == None;
    assert "YWI="[1..] == "WI=" && "WI="[1..] == "I=" && "I="[1..] == "=";
    assert A2b("=", 3, 0, 0, [97, 98]) == Some([97, 98]);
    assert SextetValue('W') == 22 && SextetValue('I') == 8 && [] + [24 * 4 + 22 / 16] == [97];
    assert [97] + [6 * 16 + 8 / 4] == [97, 98];
    assert A2b("I=", 2, 6, 0, [97]) == Some([97, 98]);
    assert A2b("WI=", 1, 24, 0, []) == Some([97, 98]);
    assert A2b("YWI=", 0, 0, 0, []) == Some([97, 98]);
    assert Utf8.Encode("a") == [97] && Utf8.Encode("ab") == [97, 98];
    ClassifyText("a");
    ClassifyText("ab");
  }

  /** The characters `EncodeBytes` may produce. */
  predicate InAlphabet(c: char, urlsafe: bool)
  {
    'A' <= c <= 'Z' || 'a' <= c <= 'z' || '0' <= c <= '9' || c == '=' ||
    (urlsafe && (c == '-' || c == '_')) || (!urlsafe && (c == '+' || c == '/'))
  }

  lemma SextetDecodes(v: int, urlsafe: bool)
    requires 0 <= v < 64
    ensures SextetValue(Sextet(v, urlsafe)) == v
    ensures Sextet(v, urlsafe) != '=' && InAlphabet(Sextet(v, urlsafe), urlsafe)
  {
  }

  /** The first four characters of the encoding of a non-empty input: all from
      the alphabet, `=` only where padding goes, and the encoding of the rest
      after them. */
  lemma HeadShape(b: Utf8.bytes, urlsafe: bool)
    requires |b| >= 1
    ensures var e := EncodeBytes(b, urlsafe);
            |e| >= 4 && (forall i :: 0 <= i < 4 ==> InAlphabet(e[i], urlsafe)) &&
            e[0] != '=' && e[1] != '=' && (e[2] == '=' <==> |b| == 1) && (e[3] == '=' <==> |b| <= 2) &&
            (|b| <= 2 ==> |e| == 4) && (|b| >= 3 ==> e[4..] == EncodeBytes(b[3..], urlsafe))
  {
    if |b| == 1 {
      HeadOne(b[0] as int, urlsafe);
    } else if |b| == 2 {
      HeadTwo(b[0] as int, b[1] as int, urlsafe);
    } else {
      HeadThree(b[0], b[1], b[2], urlsafe);
      var e := EncodeBytes(b, urlsafe);
      assert e == Quantum(b[0], b[1], b[2], urlsafe) + EncodeBytes(b[3..], urlsafe);
    }
  }

  lemma HeadOne(y0: int, urlsafe: bool)
    requires 0 <= y0 < 256
    ensures InAlphabet(Sextet(y0 / 4, urlsafe), urlsafe) && Sextet(y0 / 4, urlsafe) != '='
    ensures InAlphabet(Sextet(y0 % 4 * 16, urlsafe), urlsafe) && Sextet(y0 % 4 * 16, urlsafe) != '='
  {
    SextetDecodes(y0 / 4, urlsafe);
    SextetDecodes(y0 % 4 * 16, urlsafe);
  }

  lemma HeadTwo(y0: int, y1: int, urlsafe: bool)
    requires 0 <= y0 < 256 && 0 <= y1 < 256
    ensures InAlphabet(Sextet(y0 / 4, urlsafe), urlsafe) && Sextet(y0 / 4, urlsafe) != '='
    ensures InAlphabet(Sextet(y0 % 4 * 16 + y1 / 16, urlsafe), urlsafe) && Sextet(y0 % 4 * 16 + y1 / 16, urlsafe) != '='
    ensures InAlphabet(Sextet(y1 % 16 * 4, urlsafe), urlsafe) && Sextet(y1 % 16 * 4, urlsafe) != '='
  {
    SextetDecodes(y0 / 4, urlsafe);
    SextetDecodes(y0 % 4 * 16 + y1 / 16, urlsafe);
    SextetDecodes(y1 % 16 * 4, urlsafe);
  }

  lemma HeadThree(x0: Utf8.byte, x1: Utf8.byte, x2: Utf8.byte, urlsafe: bool)
    ensures var q := Quantum(x0, x1, x2, urlsafe);
            |q| == 4 && forall i :: 0 <= i < 4 ==> InAlphabet(q[i], urlsafe) && q[i] != '='
  {
    var y0, y1, y2 := x0 as int, x1 as int, x2 as int;
    SextetDecodes(y0 / 4, urlsafe);
    SextetDecodes(y0 % 4 * 16 + y1 / 16, urlsafe);
    SextetDecodes(y1 % 16 * 4 + y2 / 64, urlsafe);
    SextetDecodes(y2 % 64, urlsafe);
  }

  /** Every character of an encoding lies in its alphabet: the URL-safe form has
      no `+` and no `/`, and neither form has `:`, `#`, `?`, `&` or `@`. */
  lemma {:induction false} EncodeAlphabet(b: Utf8.bytes, urlsafe: bool)
    ensures forall i :: 0 <= i < |EncodeBytes(b, urlsafe)| ==> InAlphabet(EncodeBytes(b, urlsafe)[i], urlsafe)
    decreases |b|
  {
    if |b| >= 1 {
      var e := EncodeBytes(b, urlsafe);
      HeadShape(b, urlsafe);
      if |b| >= 3 {
        EncodeAlphabet(b[3..], urlsafe);
        forall i | 4 <= i < |e| ensures InAlphabet(e[i], urlsafe) {
          assert e[i] == e[4..][i - 4];
        }
      }
    }
  }

  /** The URL-safe alphabet never produces `+` or `/`. */
  lemma UrlSafeHasNoPlusOrSlash(b: Utf8.bytes)
    ensures '+' !in EncodeBytes(b, true) && '/' !in EncodeBytes(b, true)
  {
    EncodeAlphabet(b, true);
  }

  /** The number of `=` that end the encoding of `n` bytes. */
  function PadCount(n: nat): nat
  {
    if n % 3 == 0 then 0 else 3 - n % 3
  }

  /** An encoding is four characters per started group of three bytes. */
  lemma EncodeLength(b: Utf8.bytes, urlsafe: bool)
    ensures |EncodeBytes(b, urlsafe)| == 4 * ((|b| + 2) / 3)
    ensures |EncodeBytes(b, urlsafe)| % 4 == 0 && PadCount(|b|) <= |EncodeBytes(b, urlsafe)|
  {
    EncodeGroups(b, urlsafe);
    LengthFacts(|b|);
  }

  lemma {:induction false} EncodeGroups(b: Utf8.bytes, urlsafe: bool)
    ensures |EncodeBytes(b, urlsafe)| == 4 * ((|b| + 2) / 3)
    decreases |b|
  {
    if |b| >= 3 {
      EncodeGroups(b[3..], urlsafe);
      var k := |b| - 3;
      assert |EncodeBytes(b, urlsafe)| == 4 + |EncodeBytes(b[3..], urlsafe)|;
      assert (k + 5) / 3 == (k + 2) / 3 + 1;
    }
  }

  lemma LengthFacts(n: nat)
    ensures 4 * ((n + 2) / 3) % 4 == 0 && PadCount(n) <= 4 * ((n + 2) / 3)
    ensures n > 0 ==> 4 <= 4 * ((n + 2) / 3)
  {
  }

  /** The `=` of an encoding are exactly its last `PadCount` characters. */
  lemma {:induction false} EncodePadding(b: Utf8.bytes, urlsafe: bool)
    ensures PadCount(|b|) <= |EncodeBytes(b, urlsafe)|
    ensures forall i :: 0 <= i < |EncodeBytes(b, urlsafe)| ==>
              (EncodeBytes(b, urlsafe)[i] == '=' <==> i >= |EncodeBytes(b, urlsafe)| - PadCount(|b|))
    decreases |b|
  {
    if |b| >= 1 {
      var e := EncodeBytes(b, urlsafe);
      HeadShape(b, urlsafe);
      PadCountStep(|b|);
      if |b| >= 3 {
        var rest := e[4..];
        EncodePadding(b[3..], urlsafe);
        forall i | 0 <= i < |e|
          ensures e[i] == '=' <==> i >= |e| - PadCount(|b|)
        {
          if i >= 4 {
            assert e[i] == rest[i - 4];
          }
        }
      }
    }
  }

  /** `PadCount` of the short ends, and its period of three. */
  lemma PadCountStep(n: nat)
    ensures PadCount(0) == 0 && PadCount(1) == 2 && PadCount(2) == 1
    ensures n >= 3 ==> PadCount(n) == PadCount(n - 3)
  {
  }

  /** Four data characters with values `v0..v3` give three bytes. */
  lemma A2bFour(s: string, v0: int, v1: int, v2: int, v3: int, acc: Utf8.bytes)
    requires |s| >= 4 && 0 <= v0 < 64 && 0 <= v1 < 64 && 0 <= v2 < 64 && 0 <= v3 < 64
    requires s[0] != '=' && s[1] != '=' && s[2] != '=' && s[3] != '='
    requires SextetValue(s[0]) == v0 && SextetValue(s[1]) == v1
    requires SextetValue(s[2]) == v2 && SextetValue(s[3]) == v3
    ensures A2b(s, 0, 0, 0, acc) ==
            A2b(s[4..], 0, 0, 0, acc + [v0 * 4 + v1 / 16, v1 % 16 * 16 + v2 / 4, v2 % 4 * 64 + v3])
  {
    assert s[1..][1..][1..][1..] == s[4..];
    var b0, b1, b2 := v0 * 4 + v1 / 16, v1 % 16 * 16 + v2 / 4, v2 % 4 * 64 + v3;
    calc {
      A2b(s, 0, 0, 0, acc);
      A2b(s[1..], 1, v0, 0, acc);
      A2b(s[1..][1..], 2, v1 % 16, 0, acc + [b0]);
      A2b(s[1..][1..][1..], 3, v2 % 4, 0, acc + [b0] + [b1]);
      A2b(s[4..], 0, 0, 0, acc + [b0] + [b1] + [b2]);
      { assert acc + [b0] + [b1] + [b2] == acc + [b0, b1, b2]; }
      A2b(s[4..], 0, 0, 0, acc + [b0, b1, b2]);
    }
  }

  /** Two data characters and `==` end the input with one byte. */
  lemma A2bTwo(s: string, v0: int, v1: int, acc: Utf8.bytes)
    requires |s| == 4 && 0 <= v0 < 64 && 0 <= v1 < 64 && v0 * 4 + v1 / 16 < 256
    requires s[0] != '=' && s[1] != '=' && s[2] == '=' && s[3] == '='
    requires SextetValue(s[0]) == v0 && SextetValue(s[1]) == v1
    ensures A2b(s, 0, 0, 0, acc) == Some(acc + [v0 * 4 + v1 / 16])
  {
    assert s[1..][1..][1..] == [s[3]];
    calc {
      A2b(s, 0, 0, 0, acc);
      A2b(s[1..], 1, v0, 0, acc);
      A2b(s[1..][1..], 2, v1 % 16, 0, acc + [v0 * 4 + v1 / 16]);
      A2b([s[3]], 2, v1 % 16, 1, acc + [v0 * 4 + v1 / 16]);
    }
  }

  /** Three data characters and `=` end the input with two bytes. */
  lemma A2bThree(s: string, v0: int, v1: int, v2: int, acc: Utf8.bytes)
    requires |s| == 4 && 0 <= v0 < 64 && 0 <= v1 < 64 && 0 <= v2 < 64
    requires v0 * 4 + v1 / 16 < 256 && v1 % 16 * 16 + v2 / 4 < 256
    requires s[0] != '=' && s[1] != '=' && s[2] != '=' && s[3] == '='
    requires SextetValue(s[0]) == v0 && SextetValue(s[1]) == v1 && SextetValue(s[2]) == v2
    ensures A2b(s, 0, 0, 0, acc) == Some(acc + [v0 * 4 + v1 / 16, v1 % 16 * 16 + v2 / 4])
  {
    var b0, b1 := v0 * 4 + v1 / 16, v1 % 16 * 16 + v2 / 4;
    assert s[1..][1..][1..] == [s[3]];
    calc {
      A2b(s, 0, 0, 0, acc);
      A2b(s[1..], 1, v0, 0, acc);
      A2b(s[1..][1..], 2, v1 % 16, 0, acc + [b0]);
      A2b([s[3]], 3, v2 % 4, 0, acc + [b0] + [b1]);
      { assert acc + [b0] + [b1] == acc + [b0, b1]; }
      Some(acc + [b0, b1]);
    }
  }

  /** The sextets of three bytes put back together give the bytes. */
  lemma Regroup(y0: int, y1: int, y2: int)
    requires 0 <= y0 < 256 && 0 <= y1 < 256 && 0 <= y2 < 256
    ensures var v0, v1, v2, v3 := y0 / 4, y0 % 4 * 16 + y1 / 16, y1 % 16 * 4 + y2 / 64, y2 % 64;
            v0 * 4 + v1 / 16 == y0 && v1 % 16 * 16 + v2 / 4 == y1 && v2 % 4 * 64 + v3 == y2
  {
  }

  /** One full quantum of four characters decodes to its three bytes. */
  lemma A2bQuantum(x0: Utf8.byte, x1: Utf8.byte, x2: Utf8.byte, urlsafe: bool, rest: string, acc: Utf8.bytes)
    ensures A2b(Quantum(x0, x1, x2, urlsafe) + rest, 0, 0, 0, acc) == A2b(rest, 0, 0, 0, acc + [x0, x1, x2])
  {
    var y0, y1, y2 := x0 as int, x1 as int, x2 as int;
    var v0, v1, v2, v3 := y0 / 4, y0 % 4 * 16 + y1 / 16, y1 % 16 * 4 + y2 / 64, y2 % 64;
    SextetDecodes(v0, urlsafe);
    SextetDecodes(v1, urlsafe);
    SextetDecodes(v2, urlsafe);
    SextetDecodes(v3, urlsafe);
    Regroup(y0, y1, y2);
    var s := Quantum(x0, x1, x2, urlsafe) + rest;
    assert s[4..] == rest;
    A2bFour(s, v0, v1, v2, v3, acc);
  }

  /** The last, padded quantum of one byte. */
  lemma A2bOneByte(b: Utf8.bytes, urlsafe: bool, acc: Utf8.bytes)
    requires |b| == 1
    ensures A2b(EncodeBytes(b, urlsafe), 0, 0, 0, acc) == Some(acc + b)
  {
    var y0 := b[0] as int;
    var v0, v1 := y0 / 4, y0 % 4 * 16;
    SextetDecodes(v0, urlsafe);
    SextetDecodes(v1, urlsafe);
    Regroup(y0, 0, 0);
    A2bTwo(EncodeBytes(b, urlsafe), v0, v1, acc);
    assert [b[0]] == b;
  }

  /** The last, padded quantum of two bytes. */
  lemma A2bTwoBytes(b: Utf8.bytes, urlsafe: bool, acc: Utf8.bytes)
    requires |b| == 2
    ensures A2b(EncodeBytes(b, urlsafe), 0, 0, 0, acc) == Some(acc + b)
  {
    var y0, y1 := b[0] as int, b[1] as int;
    var v0, v1, v2 := y0 / 4, y0 % 4 * 16 + y1 / 16, y1 % 16 * 4;
    SextetDecodes(v0, urlsafe);
    SextetDecodes(v1, urlsafe);
    SextetDecodes(v2, urlsafe);
    Regroup(y0, y1, 0);
    A2bThree(EncodeBytes(b, urlsafe), v0, v1, v2, acc);
    assert [b[0], b[1]] == b;
  }

  /** `a2b_base64` undoes the encoding, whichever alphabet it used. */
  lemma {:induction false} A2bEncode(b: Utf8.bytes, urlsafe: bool, acc: Utf8.bytes)
    ensures A2b(EncodeBytes(b, urlsafe), 0, 0, 0, acc) == Some(acc + b)
    decreases |b|
  {
    if |b| == 0 {
      assert acc + b == acc;
    } else if |b| == 1 {
      A2bOneByte(b, urlsafe, acc);
    } else if |b| == 2 {
      A2bTwoBytes(b, urlsafe, acc);
    } else {
      var rest := EncodeBytes(b[3..], urlsafe);
      var acc' := acc + [b[0], b[1], b[2]];
      assert EncodeBytes(b, urlsafe) == Quantum(b[0], b[1], b[2], urlsafe) + rest;
      A2bQuantum(b[0], b[1], b[2], urlsafe, rest, acc);
      A2bEncode(b[3..], urlsafe, acc');
      assert acc' + b[3..] == acc + b;
    }
  }

  /** The encoding up to its padding holds no `=`, stops at the first one, and
      decodes to `b`. */
  lemma Unpadded(b: Utf8.bytes, urlsafe: bool)
    ensures var e := EncodeBytes(b, urlsafe);
            var k := |e| - PadCount(|b|);
            0 <= k <= |e| && '=' !in e[..k] && (k == |e| || e[k] == '=') &&
            Decode(e[..k]) == Classify(b)
  {
    var e := EncodeBytes(b, urlsafe);
    EncodePadding(b, urlsafe);
    var k := |e| - PadCount(|b|);
    assert '=' !in e[..k] by {
      forall i | 0 <= i < k ensures e[..k][i] != '=' {
        assert e[..k][i] == e[i];
      }
    }
    DecodeUnpadded(b, urlsafe);
  }

  /** `decode(encode(b, urlsafe))` gives `b` back, as text exactly when `b` is UTF-8. */
  lemma DecodeEncodeBytes(b: Utf8.bytes, urlsafe: bool)
    ensures Decode(EncodeBytes(b, urlsafe)) == Classify(b)
  {
    var e := EncodeBytes(b, urlsafe);
    EncodeLength(b, urlsafe);
    assert Padded(e) == e;
    A2bEncode(b, urlsafe, []);
    assert [] + b == b;
  }

  /** Stripping the padding of an encoding and padding it again as `decode` does
      gives back the encoding. */
  lemma PaddedUnpadded(b: Utf8.bytes, urlsafe: bool)
    ensures var e := EncodeBytes(b, urlsafe);
            PadCount(|b|) <= |e| && Padded(e[..|e| - PadCount(|b|)]) == e
  {
    var e := EncodeBytes(b, urlsafe);
    EncodeLength(b, urlsafe);
    EncodePadding(b, urlsafe);
    Repad(e, PadCount(|b|));
  }

  /** A text of whole quanta ending in `p < 4` padding characters is padded
      back to itself once they are stripped. */
  lemma Repad(e: string, p: nat)
    requires |e| % 4 == 0 && p < 4 && p <= |e|
    requires forall i :: 0 <= i < |e| ==> (e[i] == '=' <==> i >= |e| - p)
    ensures Padded(e[..|e| - p]) == e
  {
    var u := e[..|e| - p];
    if p > 0 {
      PadArith(|e| / 4, p);
      assert |e| == 4 * (|e| / 4);
      var pad := seq(p, _ => '=');
      assert Padded(u) == u + pad;
      forall i | 0 <= i < |e| ensures (u + pad)[i] == e[i] {
        if i >= |u| {
          assert e[i] == '=';
        }
      }
      assert u + pad == e;
    } else {
      assert u == e;
    }
  }

  /** Taking `p` characters off a multiple of four leaves `4 - p` over. */
  lemma PadArith(m: int, p: int)
    requires m >= 1 && 1 <= p <= 3
    ensures (4 * m - p) % 4 == 4 - p
  {
    assert 4 * m - p == 4 * (m - 1) + (4 - p);
  }

  /** The round trip holds once the trailing `=` are stripped: `decode` pads again. */
  lemma DecodeUnpadded(b: Utf8.bytes, urlsafe: bool)
    ensures var e := EncodeBytes(b, urlsafe);
            PadCount(|b|) <= |e| && Decode(e[..|e| - PadCount(|b|)]) == Classify(b)
  {
    var e := EncodeBytes(b, urlsafe);
    var u := e[..|e| - PadCount(|b|)];
    PaddedUnpadded(b, urlsafe);
    A2bEncode(b, urlsafe, []);
    assert [] + b == b;
    assert A2b(Padded(u), 0, 0, 0, []) == Some(b);
  }

  /** `Classify` reads a UTF-8 encoding back as the text it encodes. */
  lemma ClassifyText(s: string)
    ensures Classify(Utf8.Encode(s)) == Text(s)
  {
    Utf8.DecodeEncode(s);
  }

  /** `Classify` says text exactly for the encodings of strings. */
  lemma ClassifyIsText(b: Utf8.bytes, s: string)
    ensures Classify(b) == Text(s) <==> Utf8.Encode(s) == b
  {
    if Classify(b) == Text(s) {
      Utf8.EncodeDecode(b, s);
    }
    if Utf8.Encode(s) == b {
      Utf8.DecodeEncode(s);
    }
  }

  /** Text comes back as the same text from either alphabet. */
  lemma DecodeEncodeText(s: string, urlsafe: bool)
    ensures Decode(Encode(Text(s), urlsafe)) == Text(s)
  {
    DecodeEncodeBytes(Utf8.Encode(s), urlsafe);
    ClassifyText(s);
  }

  /** `decode` does not care which alphabet produced its input. */
  lemma DecodeEitherAlphabet(b: Utf8.bytes)
    ensures Decode(EncodeBytes(b, true)) == Decode(EncodeBytes(b, false))
  {
    DecodeEncodeBytes(b, true);
    DecodeEncodeBytes(b, false);
  }

  /** The encoding of the empty string is empty; of anything else it is not. */
  lemma EncodeEmpty(v: Value, urlsafe: bool)
    ensures Encode(v, urlsafe) == "" <==> IsEmpty(v)
  {
    EncodeLength(ToBytes(v), urlsafe);
    if v.Text? {
      Utf8.EncodeEmpty(v.s);
    }
  }

  /** Text comes back unchanged, and only the empty value comes back empty. */
  lemma ClassifyToBytes(v: Value)
    ensures IsEmpty(Classify(ToBytes(v))) <==> IsEmpty(v)
    ensures v.Text? ==> Classify(ToBytes(v)) == v
  {
    var b := ToBytes(v);
    if v.Text? {
      ClassifyText(v.s);
      Utf8.EncodeEmpty(v.s);
    } else if Classify(b).Text? {
      ClassifyIsText(b, Classify(b).s);
      Utf8.EncodeEmpty(Classify(b).s);
    }
  }

  /** What a value becomes after `decode(encode(v))`: the same text, or bytes
      read as text when they happen to be UTF-8. */
  function Normal(v: Value): (r: Value)
    ensures IsEmpty(r) <==> IsEmpty(v)
    ensures v.Text? ==> r == v
  {
    ClassifyToBytes(v);
    Classify(ToBytes(v))
  }

  /** `Normal` keeps the bytes, so the value encodes as before. */
  lemma NormalBytes(v: Value)
    ensures ToBytes(Normal(v)) == ToBytes(v)
  {
    var b := ToBytes(v);
    if Classify(b).Text? {
      ClassifyIsText(b, Classify(b).s);
    }
  }
}
