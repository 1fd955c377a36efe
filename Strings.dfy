/** Python's `str.split(sep)` and `sep.join(xs)`, and decimal `str(int)` / `int(str)`. */
module Strings {
  import opened Wrappers

  /** `s.split(d)` for a non-empty separator: the pieces between the non-overlapping
      occurrences of `d`, found from left to right. */
  function Split(s: string, d: string): (r: seq<string>)
    requires |d| > 0
    ensures |r| >= 1
    decreases |s|
  {
    if |s| < |d| then [s]
    else if s[..|d|] == d then [""] + Split(s[|d|..], d)
    else
      var rest := Split(s[1..], d);
      [[s[0]] + rest[0]] + rest[1..]
  }

  /** `d.join(xs)`. */
  function Join(xs: seq<string>, d: string): string
  {
    if |xs| == 0 then ""
    else if |xs| == 1 then xs[0]
    else xs[0] + d + Join(xs[1..], d)
  }

  /** Joining the pieces of a split gives back the original string. */
  lemma {:induction false} JoinSplit(s: string, d: string)
    requires |d| > 0
    ensures Join(Split(s, d), d) == s
    decreases |s|
  {
    if |s| < |d| {
    } else if s[..|d|] == d {
      var t := s[|d|..];
      JoinSplit(t, d);
      assert s == d + t;
      JoinEmptyFirst(Split(t, d), d);
    } else {
      var rest := Split(s[1..], d);
      JoinSplit(s[1..], d);
      JoinCons(s[0], rest, d);
      assert s == [s[0]] + s[1..];
    }
  }

  /** Joining after an empty first piece puts the separator in front. */
  lemma JoinEmptyFirst(xs: seq<string>, d: string)
    requires |xs| >= 1
    ensures Join([""] + xs, d) == d + Join(xs, d)
  {
    assert ([""] + xs)[1..] == xs;
  }

  /** Putting a character in front of the first piece puts it in front of the join. */
  lemma JoinCons(c: char, xs: seq<string>, d: string)
    requires |xs| >= 1
    ensures Join([[c] + xs[0]] + xs[1..], d) == [c] + Join(xs, d)
  {
    var ys := [[c] + xs[0]] + xs[1..];
    assert ys[1..] == xs[1..];
  }

  /** A string in which the separator's first character does not occur is not split. */
  lemma {:induction false} SplitNone(s: string, d: string)
    requires |d| > 0 && d[0] !in s
    ensures Split(s, d) == [s]
    decreases |s|
  {
    if |s| >= |d| {
      assert s[..|d|][0] == s[0];
      SplitNone(s[1..], d);
      assert s == [s[0]] + s[1..];
    }
  }

  /** `d not in s`: no piece of `s` equals the separator `d`. */
  predicate Lacks(d: string, s: string)
    decreases |s|
  {
    |s| < |d| || (s[..|d|] != d && Lacks(d, s[1..]))
  }

  /** A string in which the separator does not occur is not split. */
  lemma {:induction false} SplitLacks(s: string, d: string)
    requires |d| > 0 && Lacks(d, s)
    ensures Split(s, d) == [s]
    decreases |s|
  {
    if |s| >= |d| {
      SplitLacks(s[1..], d);
      assert s == [s[0]] + s[1..];
    }
  }

  /** A separator absent from `y` is absent from `x + y` when its first
      character is not in `x`. */
  lemma {:induction false} LacksAfter(x: string, y: string, d: string)
    requires |d| > 0 && d[0] !in x && Lacks(d, y)
    ensures Lacks(d, x + y)
    decreases |x|
  {
    if |x| > 0 {
      var s := x + y;
      assert s[1..] == x[1..] + y;
      LacksAfter(x[1..], y, d);
      if |s| >= |d| {
        assert s[..|d|][0] == x[0];
      }
    } else {
      assert x + y == y;
    }
  }

  /** A separator whose first character is not in `s` is absent from it. */
  lemma {:induction false} LacksChar(s: string, d: string)
    requires |d| > 0 && d[0] !in s
    ensures Lacks(d, s)
    decreases |s|
  {
    if |s| >= |d| {
      LacksChar(s[1..], d);
      assert s[..|d|][0] == s[0];
    }
  }

  /** Splitting `x + d + y` where `x` holds no first character of `d` cuts off `x` first. */
  lemma {:induction false} SplitCons(x: string, d: string, y: string)
    requires |d| > 0 && d[0] !in x
    ensures Split(x + d + y, d) == [x] + Split(y, d)
    decreases |x|
  {
    var s := x + d + y;
    if |x| == 0 {
      assert s == d + y;
      assert s[..|d|] == d;
      assert s[|d|..] == y;
    } else {
      assert s[..|d|][0] == x[0];
      assert s[1..] == x[1..] + d + y;
      SplitCons(x[1..], d, y);
      assert [s[0]] + x[1..] == x;
    }
  }

  /** Splitting `x + [c] + y` where `y` holds no `c` keeps `y` as the last piece. */
  lemma {:induction false} SplitSnoc(x: string, c: char, y: string)
    requires c !in y
    ensures Split(x + [c] + y, [c]) == Split(x, [c]) + [y]
    decreases |x|
  {
    var s := x + [c] + y;
    if |x| == 0 {
      assert s == [c] + y;
      assert s[1..] == y;
      SplitNone(y, [c]);
    } else if x[0] == c {
      assert s[..1] == [c];
      assert s[1..] == x[1..] + [c] + y;
      SplitSnoc(x[1..], c, y);
      assert x[..1] == [c] && x[1..] == x[1..];
    } else {
      assert s[0] == x[0] && s[..1][0] == s[0];
      assert s[1..] == x[1..] + [c] + y;
      SplitSnoc(x[1..], c, y);
      var rest := Split(x[1..], [c]);
      assert Split(x, [c]) == [[x[0]] + rest[0]] + rest[1..];
    }
  }

  /** Splitting a join recovers the pieces when none of them holds the separator's
      first character. */
  lemma {:induction false} SplitJoin(xs: seq<string>, d: string)
    requires |d| > 0 && |xs| >= 1
    requires forall i :: 0 <= i < |xs| ==> d[0] !in xs[i]
    ensures Split(Join(xs, d), d) == xs
    decreases |xs|
  {
    if |xs| == 1 {
      SplitNone(xs[0], d);
    } else {
      SplitCons(xs[0], d, Join(xs[1..], d));
      SplitJoin(xs[1..], d);
    }
  }

  /** The first piece of a split is everything before the first occurrence
      of the separator's (single) character. */
  lemma {:induction false} SplitFirst(s: string, c: char, k: nat)
    requires k <= |s| && c !in s[..k] && (k == |s| || s[k] == c)
    ensures Split(s, [c])[0] == s[..k]
    decreases k
  {
    if |s| == 0 {
    } else if k == 0 {
      assert s[..1] == [c];
    } else {
      assert s[0] == s[..k][0] && s[..1] != [c];
      var t := s[1..];
      assert t[..k - 1] == s[1..k];
      assert t[..k - 1] == s[..k][1..];
      SplitFirst(t, c, k - 1);
      assert s[..k] == [s[0]] + t[..k - 1];
    }
  }

  /** Joining two lists with a common separator. */
  lemma {:induction false} JoinAppend(xs: seq<string>, ys: seq<string>, d: string)
    requires |xs| >= 1 && |ys| >= 1
    ensures Join(xs + ys, d) == Join(xs, d) + d + Join(ys, d)
    decreases |xs|
  {
    if |xs| == 1 {
      assert (xs + ys)[1..] == ys;
    } else {
      assert (xs + ys)[1..] == xs[1..] + ys;
      JoinAppend(xs[1..], ys, d);
    }
  }

  /** Joining pieces between a first and a last one. */
  lemma JoinBetween(a: string, xs: seq<string>, b: string, d: string)
    requires |xs| >= 1
    ensures Join([a] + xs + [b], d) == a + d + Join(xs, d) + d + b
  {
    JoinAppend([a], xs, d);
    JoinAppend([a] + xs, [b], d);
  }

  /** A character in neither the pieces nor the separator is not in the join. */
  lemma {:induction false} JoinWithout(xs: seq<string>, d: string, c: char)
    requires c !in d && forall i :: 0 <= i < |xs| ==> c !in xs[i]
    ensures c !in Join(xs, d)
    decreases |xs|
  {
    if |xs| > 1 {
      JoinWithout(xs[1..], d, c);
    }
  }

  /** Appending to a join appends to its last piece. */
  lemma {:induction false} JoinExtendLast(xs: seq<string>, d: string, y: string)
    requires |xs| >= 1
    ensures Join(xs, d) + y == Join(xs[..|xs| - 1] + [xs[|xs| - 1] + y], d)
    decreases |xs|
  {
    var ys := xs[..|xs| - 1] + [xs[|xs| - 1] + y];
    if |xs| == 1 {
      assert ys == [xs[0] + y];
    } else {
      var t := xs[1..];
      JoinExtendLast(t, d, y);
      assert ys[0] == xs[0];
      assert ys[1..] == t[..|t| - 1] + [t[|t| - 1] + y];
      assert Join(ys, d) == xs[0] + d + Join(ys[1..], d);
      assert Join(xs, d) == xs[0] + d + Join(t, d);
      assert xs[0] + d + (Join(t, d) + y) == xs[0] + d + Join(t, d) + y;
    }
  }

  // ---------------------------------------------------------------- decimal numbers

  predicate IsDigit(c: char)
  {
    '0' <= c <= '9'
  }

  predicate AllDigits(s: string)
  {
    forall i :: 0 <= i < |s| ==> IsDigit(s[i])
  }

  function DigitChar(n: nat): (c: char)
    requires n < 10
    ensures IsDigit(c) && c as int - '0' as int == n
  {
    ('0' as int + n) as char
  }

  /** The value of a string of decimal digits. */
  function DigitsValue(s: string): nat
    requires AllDigits(s)
  {
    if |s| == 0 then 0
    else DigitsValue(s[..|s| - 1]) * 10 + (s[|s| - 1] as int - '0' as int)
  }

  /** `str(n)` for a natural number. */
  function NatToString(n: nat): (r: string)
    ensures |r| >= 1 && AllDigits(r)
    decreases n
  {
    if n < 10 then [DigitChar(n)] else NatToString(n / 10) + [DigitChar(n % 10)]
  }

  /** `str(i)`: a minus sign, then the digits of the magnitude. */
  function IntToString(i: int): string
  {
    if i < 0 then "-" + NatToString(-i) else NatToString(i)
  }

  /** `int(s)` on an optional sign followed by ASCII digits; `None` is the
      `ValueError` Python raises on anything else. */
  function ParseInt(s: string): Option<int>
  {
    if |s| > 0 && (s[0] == '-' || s[0] == '+') then
      if |s| > 1 && AllDigits(s[1..]) then
        var magnitude: int := DigitsValue(s[1..]);
        Some(if s[0] == '-' then -magnitude else magnitude)
      else None
    else if |s| > 0 && AllDigits(s) then Some(DigitsValue(s))
    else None
  }

  lemma {:induction false} DigitsOfNat(n: nat)
    ensures DigitsValue(NatToString(n)) == n
    decreases n
  {
    if n >= 10 {
      DigitsOfNat(n / 10);
      var r := NatToString(n);
      assert r[..|r| - 1] == NatToString(n / 10);
    }
  }

  /** `int(str(i)) == i` for every integer. */
  lemma ParseIntToString(i: int)
    ensures ParseInt(IntToString(i)) == Some(i)
  {
    if i < 0 {
      assert IntToString(i) == "-" + NatToString(-i);
      DigitsOfNat(-i);
      ParseNegative(NatToString(-i));
    } else {
      assert IntToString(i) == NatToString(i);
      DigitsOfNat(i);
      ParseDigits(NatToString(i));
    }
  }

  /** `int` of a non-empty string of digits is its value. */
  lemma ParseDigits(t: string)
    requires |t| > 0 && AllDigits(t)
    ensures ParseInt(t) == Some(DigitsValue(t))
  {
    assert IsDigit(t[0]);
  }

  /** `int` of a minus sign and digits is the negated value. */
  lemma ParseNegative(t: string)
    requires |t| > 0 && AllDigits(t)
    ensures ParseInt("-" + t) == Some(-(DigitsValue(t) as int))
  {
    var s := "-" + t;
    assert s[1..] == t;
  }

  /** `str(i)` consists of digits and at most a leading minus sign. */
  lemma IntToStringChars(i: int)
    ensures forall k :: 0 <= k < |IntToString(i)| ==>
              IsDigit(IntToString(i)[k]) || (k == 0 && IntToString(i)[k] == '-')
  {
    if i < 0 {
      var s := IntToString(i);
      forall k | 0 < k < |s| ensures IsDigit(s[k]) {
        assert s[k] == NatToString(-i)[k - 1];
      }
    }
  }
}
