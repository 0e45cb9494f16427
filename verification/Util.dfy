/** Integers as decimal text: the printers and the strict parser of util.c. */
module Util {
  import opened Bytes
  import opened Options

  const LLONG_MAX := 0x7FFF_FFFF_FFFF_FFFF
  const LLONG_MIN := -LLONG_MAX - 1
  const ULLONG_MAX := 0xFFFF_FFFF_FFFF_FFFF

  predicate LongLong(v: int) { LLONG_MIN <= v <= LLONG_MAX }

  /** The decimal digits of `n`, without leading zeroes. */
  function Digits(n: nat): (d: seq<Byte>)
    ensures |d| > 0
  {
    if n < 10 then [48 + n] else Digits(n / 10) + [48 + n % 10]
  }

  function Abs(v: int): nat { if v < 0 then -v else v }

  /** The text of a signed integer. */
  function Text(v: int): seq<Byte> { if v < 0 then [45] + Digits(-v) else Digits(v) }

  function Pow10(k: nat): nat { if k == 0 then 1 else 10 * Pow10(k - 1) }

  // ----- Digits -----

  lemma DigitsStep(n: nat, d: nat)
    requires n >= 1 && d < 10
    ensures Digits(10 * n + d) == Digits(n) + [48 + d]
  {}

  lemma {:induction false} DigitsRange(n: nat, i: nat)
    requires i < |Digits(n)|
    ensures 48 <= Digits(n)[i] <= 57
    ensures n >= 1 ==> Digits(n)[0] >= 49
  {
    if n >= 10 { DigitsRange(n / 10, if i + 1 < |Digits(n)| then i else 0); }
  }

  lemma {:induction false} DigitsInjective(a: nat, b: nat)
    requires Digits(a) == Digits(b)
    ensures a == b
  {
    var s, t := Digits(a), Digits(b);
    if a >= 10 && b >= 10 {
      assert s[..|s| - 1] == Digits(a / 10) && t[..|t| - 1] == Digits(b / 10);
      DigitsInjective(a / 10, b / 10);
      assert s[|s| - 1] == 48 + a % 10 && t[|t| - 1] == 48 + b % 10;
    } else {
      assert s[|s| - 1] == 48 + a % 10 && t[|t| - 1] == 48 + b % 10;
      assert |s| == 1 <==> a < 10;
      assert |t| == 1 <==> b < 10;
    }
  }

  /** A number is at least every prefix of its digits. */
  lemma {:induction false} PrefixBound(n: nat, v: nat)
    requires Digits(v) <= Digits(n)
    ensures v <= n
  {
    var s, t := Digits(n), Digits(v);
    if |s| == |t| {
      assert s == t;
      DigitsInjective(n, v);
    } else {
      assert n >= 10;
      assert t <= s[..|s| - 1] == Digits(n / 10);
      PrefixBound(n / 10, v);
    }
  }

  /** Texts tell integers apart. */
  lemma TextInjective(v: int, w: int)
    requires Text(v) == Text(w)
    ensures v == w
  {
    DigitsRange(Abs(v), 0);
    DigitsRange(Abs(w), 0);
    if v < 0 && w < 0 {
      assert Text(v)[1..] == Digits(-v) && Text(w)[1..] == Digits(-w);
      DigitsInjective(-v, -w);
    } else if v >= 0 && w >= 0 {
      DigitsInjective(v, w);
    }
  }

  // ----- digits10 -----

  lemma {:induction false} LengthIs(v: nat, k: nat)
    requires k >= 1 && v < Pow10(k) && (k > 1 ==> Pow10(k - 1) <= v)
    ensures |Digits(v)| == k
  {
    if k > 1 { LengthIs(v / 10, k - 1); }
  }

  lemma LengthThree(v: nat)
    requires v >= 1000
    ensures |Digits(v)| == 3 + |Digits(v / 1000)|
  {
    var a, b := v / 10, v / 10 / 10;
    assert |Digits(v)| == 1 + |Digits(a)| && |Digits(a)| == 1 + |Digits(b)|;
    assert b >= 10 && b / 10 == v / 1000;
  }

  lemma LengthTwelve(v: nat)
    requires v >= 1000000000000
    ensures |Digits(v)| == 12 + |Digits(v / 1000000000000)|
  {
    hide Digits;
    LengthThree(v);
    LengthThree(v / 1000);
    LengthThree(v / 1000000);
    LengthThree(v / 1000000000);
    assert v / 1000 / 1000 == v / 1000000 && v / 1000000 / 1000 == v / 1000000000
        && v / 1000000000 / 1000 == v / 1000000000000;
  }

  lemma Pow10Values()
    ensures Pow10(0) == 1 && Pow10(1) == 10 && Pow10(2) == 100 && Pow10(3) == 1000 && Pow10(4) == 10000
    ensures Pow10(5) == 100000 && Pow10(6) == 1000000 && Pow10(7) == 10000000 && Pow10(8) == 100000000
    ensures Pow10(9) == 1000000000 && Pow10(10) == 10000000000 && Pow10(11) == 100000000000
    ensures Pow10(12) == 1000000000000
  {
    assert Pow10(3) == 1000;
    assert Pow10(6) == 1000000;
    assert Pow10(9) == 1000000000;
  }

  /** digits10: the number of digits. */
  function Digits10(v: nat): (r: nat)
    ensures r == |Digits(v)|
  {
    Digits10Cases(v);
    if v < 10 then 1
    else if v < 100 then 2
    else if v < 1000 then 3
    else if v < 1000000000000 then
      if v < 100000000 then
        if v < 1000000 then
          if v < 10000 then 4 else 5 + (if v >= 100000 then 1 else 0)
        else 7 + (if v >= 10000000 then 1 else 0)
      else if v < 10000000000 then 9 + (if v >= 1000000000 then 1 else 0)
      else 11 + (if v >= 100000000000 then 1 else 0)
    else 12 + Digits10(v / 1000000000000)
  }

  lemma Digits10Cases(v: nat)
    ensures forall k :: 1 <= k <= 12 && v < Pow10(k) && (k > 1 ==> Pow10(k - 1) <= v) ==> |Digits(v)| == k
    ensures v >= 1000000000000 ==> |Digits(v)| == 12 + |Digits(v / 1000000000000)|
    ensures Pow10(0) == 1 && Pow10(1) == 10 && Pow10(2) == 100 && Pow10(3) == 1000 && Pow10(4) == 10000
    ensures Pow10(5) == 100000 && Pow10(6) == 1000000 && Pow10(7) == 10000000 && Pow10(8) == 100000000
    ensures Pow10(9) == 1000000000 && Pow10(10) == 10000000000 && Pow10(11) == 100000000000
    ensures Pow10(12) == 1000000000000
  {
    Pow10Values();
    hide Pow10, Digits;
    forall k | 1 <= k <= 12 && v < Pow10(k) && (k > 1 ==> Pow10(k - 1) <= v) ensures |Digits(v)| == k {
      LengthIs(v, k);
    }
    if v >= 1000000000000 { LengthTwelve(v); }
  }

  /** sdigits10: the length of a signed integer's text. */
  function SDigits10(v: int): (r: nat)
    requires LongLong(v)
    ensures r == |Text(v)|
  {
    if v < 0 then Digits10(if v != LLONG_MIN then -v else LLONG_MAX + 1) + 1 else Digits10(v)
  }

  // ----- ll2string -----

  /** The table of digit pairs "00" to "99". */
  const DIGITS: seq<Byte> := seq(200, i requires 0 <= i < 200 => 48 + (if i % 2 == 0 then i / 2 / 10 else i / 2 % 10))

  lemma TableAt(j: nat)
    requires j < 100
    ensures |DIGITS| == 200 && DIGITS[j * 2] == 48 + j / 10 && DIGITS[j * 2 + 1] == 48 + j % 10
  {
    assert j * 2 / 2 == j && (j * 2 + 1) / 2 == j && j * 2 % 2 == 0 && (j * 2 + 1) % 2 == 1;
  }

  lemma TwoDigits(value: nat)
    requires value >= 10
    ensures var i := value % 100 * 2;
            && i + 1 < |DIGITS|
            && (value >= 100 ==> Digits(value) == Digits(value / 100) + [DIGITS[i]] + [DIGITS[i + 1]])
            && (value < 100 ==> Digits(value) == [DIGITS[i]] + [DIGITS[i + 1]])
  {
    hide *;
    TableAt(value % 100);
    LastTwo(value);
    LastDigit(value);
    LastDigit(value / 10);
  }

  lemma LastTwo(value: nat)
    ensures var j, tens := value % 100, value / 10;
            j / 10 == tens % 10 && j % 10 == value % 10 && tens / 10 == value / 100 && (value < 100 ==> j == value)
  {
    var h, j := value / 100, value % 100;
    var a, b := j / 10, j % 10;
    Divided(value, 10, 10 * h + a, b);
    Divided(10 * h + a, 10, h, a);
  }

  lemma Divided(n: nat, d: nat, q: nat, r: nat)
    requires n == d * q + r && r < d == 10
    ensures n / d == q && n % d == r
  {}

  lemma LastDigit(n: nat)
    ensures Digits(n) == if n < 10 then [48 + n] else Digits(n / 10) + [48 + n % 10]
  {}

  lemma OneDigit(value: nat)
    requires value < 10
    ensures Digits(value) == [48 + value]
  {}

  lemma TextIs(v: int)
    ensures v < 0 ==> Text(v) == [45] + Digits(0 - v)
    ensures v >= 0 ==> Text(v) == Digits(v)
  {}

  lemma LongLongIs(v: int)
    requires LongLong(v)
    ensures v == LLONG_MIN ==> 0 - v == LLONG_MAX + 1
  {}

  /** The buffer once the sign is in front of the digits. */
  lemma Signed3(d: seq<Byte>, e: seq<Byte>, negative: nat, length: nat, digits: seq<Byte>)
    requires negative <= 1 && length == negative + |digits| < |d| && |digits| > 0
    requires d[negative..length] == digits && d[length] == 0
    requires e == if negative == 1 then d[0 := 45] else d
    ensures e == (if negative == 1 then [45] + digits else digits) + [0] + d[length + 1..]
  {
    assert d == d[..negative] + d[negative..length] + [d[length]] + d[length + 1..];
  }

  /** ll2string: the text of `svalue` and a terminating zero, if they fit. */
  method LL2String(dst: array<Byte>, svalue: int) returns (length: nat)
    requires LongLong(svalue)
    modifies dst
    ensures |Text(svalue)| >= dst.Length ==> length == 0 && dst[..] == old(dst[..])
    ensures |Text(svalue)| < dst.Length ==>
            length == |Text(svalue)| && dst[..] == Text(svalue) + [0] + old(dst[..])[length + 1..]
  {
    hide *;
    TextIs(svalue);
    LongLongIs(svalue);
    var negative: nat, value: nat;
    if svalue < 0 {
      value := if svalue != LLONG_MIN then -svalue else LLONG_MAX + 1;
      negative := 1;
    } else {
      value, negative := svalue, 0;
    }
    length := Digits10(value) + negative;
    if length >= dst.Length { return 0; }
    WriteDigits(dst, value, negative, length);
    ghost var d := dst[..];
    assert d[length + 1..] == old(dst[..])[length + 1..];
    if negative == 1 { dst[0] := 45; }
    Signed3(d, dst[..], negative, length, Digits(value));
  }

  /** The digits of `value`, from the end backwards, two at a time. */
  method WriteDigits(dst: array<Byte>, value0: nat, negative: nat, length: nat)
    requires length == negative + |Digits(value0)| < dst.Length
    modifies dst
    ensures dst[negative..length] == Digits(value0)
    ensures dst[length] == 0 && dst[length + 1..] == old(dst[length + 1..])
  {
    hide *;
    var value, next := value0, length;
    dst[next] := 0;
    next := next - 1;
    ghost var written: seq<Byte> := [];
    assert dst[next + 1..length] == [];
    while value >= 100
      invariant next + 1 == negative + |Digits(value)| && next < length
      invariant Digits(value) + written == Digits(value0) && dst[next + 1..length] == written
      invariant dst[length] == 0 && dst[length + 1..] == old(dst[length + 1..])
    {
      TwoDigits(value);
      var i := value % 100 * 2;
      JoinPair(Digits(value / 100), DIGITS[i], DIGITS[i + 1], written);
      value := value / 100;
      written := [DIGITS[i]] + [DIGITS[i + 1]] + written;
      WritePair(dst, next, i, length);
      next := next - 2;
    }
    if value < 10 {
      OneDigit(value);
      dst[next] := 48 + value;
    } else {
      TwoDigits(value);
      WritePair(dst, next, value * 2, length);
    }
  }

  lemma JoinPair(d: seq<Byte>, x: Byte, y: Byte, t: seq<Byte>)
    ensures d + ([x] + [y] + t) == d + [x] + [y] + t
  {}

  method WritePair(dst: array<Byte>, next: nat, i: nat, length: nat)
    requires 1 <= next < length < dst.Length && i + 1 < |DIGITS|
    modifies dst
    ensures dst[next - 1..length] == [DIGITS[i]] + [DIGITS[i + 1]] + old(dst[next + 1..length])
    ensures dst[length] == old(dst[length]) && dst[length + 1..] == old(dst[length + 1..])
  {
    dst[next] := DIGITS[i + 1];
    dst[next - 1] := DIGITS[i];
  }

  // ----- string2ll -----

  predicate Digit(b: Byte) { 48 <= b <= 57 }

  /** `s` is the text of a 64 bit integer. */
  ghost predicate Parses(s: seq<Byte>, v: int) { LongLong(v) && s == Text(v) }

  /** The value with its sign put back. */
  function Signed(m: nat, v: nat): int { if m == 1 then 0 - v else v }

  lemma TextShape(s: seq<Byte>, w: int)
    requires Parses(s, w)
    ensures |s| > 0 && (s[0] == 45 <==> w < 0) && Abs(w) <= LLONG_MAX + (if w < 0 then 1 else 0)
    ensures var m := if w < 0 then 1 else 0;
            && |s| > m && s[m..] == Digits(Abs(w))
            && (forall i :: m <= i < |s| ==> Digit(s[i]))
            && (w != 0 ==> s[m] >= 49) && (w == 0 ==> s == [48])
  {
    var m := if w < 0 then 1 else 0;
    DigitsRange(Abs(w), 0);
    forall i | m <= i < |s| ensures Digit(s[i]) {
      DigitsRange(Abs(w), i - m);
    }
  }

  /** How the text of an integer begins. */
  lemma Begins(s: seq<Byte>)
    ensures forall w :: Parses(s, w) ==>
      && |s| > 0
      && (s[0] == 45 ==> |s| > 1 && 49 <= s[1] <= 57)
      && (s[0] != 45 ==> s == [48] || 49 <= s[0] <= 57)
  {
    hide Parses;
    forall w | Parses(s, w)
      ensures |s| > 0 && (s[0] == 45 ==> |s| > 1 && 49 <= s[1] <= 57) && (s[0] != 45 ==> s == [48] || 49 <= s[0] <= 57)
    {
      TextShape(s, w);
    }
  }

  /** What an integer whose text begins with the sign `m` and the digits of `v` can be. */
  lemma Continues(s: seq<Byte>, m: nat, k: nat, v: nat)
    requires m < k <= |s| && s[m..k] == Digits(v) && v >= 1 && m == if s[0] == 45 then 1 else 0
    ensures forall w :: Parses(s, w) ==>
      && v <= LLONG_MAX + m && (k < |s| ==> Digit(s[k])) && (k == |s| ==> w == Signed(m, v))
  {
    hide Parses, Digits;
    forall w | Parses(s, w)
      ensures v <= LLONG_MAX + m && (k < |s| ==> Digit(s[k])) && (k == |s| ==> w == Signed(m, v))
    {
      TextShape(s, w);
      assert s[m..k] <= s[m..];
      PrefixBound(Abs(w), v);
      if k == |s| {
        assert s[m..k] == s[m..];
        DigitsInjective(Abs(w), v);
      }
    }
  }

  lemma ZeroText()
    ensures Parses([48], 0)
  {}

  lemma SignedText(s: seq<Byte>, m: nat, v: nat)
    requires m < |s| && s[m..] == Digits(v) && v >= 1 && m == (if s[0] == 45 then 1 else 0) && v <= LLONG_MAX + m
    ensures Parses(s, Signed(m, v))
  {}

  /** What an unsigned long long holds. */
  type ULongLong = v: int | 0 <= v <= ULLONG_MAX

  /** string2ll: the integer whose text `s` is, if it is the text of one. */
  method String2LL(s: seq<Byte>) returns (r: Option<int>)
    ensures r.Some? ==> Parses(s, r.value)
    ensures forall v :: Parses(s, v) ==> r == Some(v)
  {
    hide Digits, Parses;
    Begins(s);
    if |s| == 0 { return None; }
    if |s| == 1 && s[0] == 48 {
      ZeroText();
      assert s == [48];
      OnlyText(s, 0);
      return Some(0);
    }
    var plen: nat, negative: nat := 0, 0;
    if s[0] == 45 {
      negative, plen := 1, 1;
      if plen == |s| { return None; }
    }
    var v: ULongLong;
    if 49 <= s[plen] <= 57 {
      v := s[plen] - 48;
      OneDigit(v);
      plen := plen + 1;
    } else {
      return None;
    }
    while plen < |s| && Digit(s[plen])
      invariant negative < plen <= |s| && v >= 1 && s[negative..plen] == Digits(v)
    {
      DigitsStep(v, s[plen] - 48);
      assert s[negative..plen + 1] == s[negative..plen] + [s[plen]];
      Continues(s, negative, plen + 1, 10 * v + (s[plen] - 48));
      if v > ULLONG_MAX / 10 { return None; }
      v := v * 10;
      if v > ULLONG_MAX - (s[plen] - 48) { return None; }
      v := v + (s[plen] - 48);
      plen := plen + 1;
    }
    Continues(s, negative, plen, v);
    if plen < |s| { return None; }
    if negative == 1 {
      if v > LLONG_MAX + 1 { return None; }
      r := Some(Signed(1, v));
    } else {
      if v > LLONG_MAX { return None; }
      r := Some(Signed(0, v));
    }
    SignedText(s, negative, v);
  }

  /** A text is that of one integer only. */
  lemma OnlyText(s: seq<Byte>, v: int)
    requires Parses(s, v)
    ensures forall w :: Parses(s, w) ==> w == v
  {
    hide Text;
    forall w | Parses(s, w) ensures w == v { TextInjective(v, w); }
  }

  /** The integer `s` is the text of, if it is one. */
  ghost function Parsed(s: seq<Byte>): (r: Option<int>)
    ensures r.Some? ==> Parses(s, r.value)
    ensures forall v :: Parses(s, v) ==> r == Some(v)
  {
    hide Parses;
    if v :| Parses(s, v) then OnlyText(s, v); Some(v) else None
  }

  lemma {:induction false} LengthAtMost(v: nat, k: nat)
    requires k >= 1 && v < Pow10(k)
    ensures |Digits(v)| <= k
  {
    if k > 1 && v >= 10 { LengthAtMost(v / 10, k - 1); }
  }

  /** A 64 bit integer's text has at most twenty characters. */
  lemma TextShort(v: int)
    requires LongLong(v)
    ensures 0 < |Text(v)| <= 20
  {
    Pow10Values();
    assert Pow10(15) == 1000000000000000;
    assert Pow10(18) == 1000000000000000000;
    LengthAtMost(Abs(v), 19);
  }

  /** ll2string and then string2ll of what it wrote: the integer one began with. */
  method PrintThenParse(dst: array<Byte>, v: int) returns (r: Option<int>)
    requires LongLong(v) && dst.Length > |Text(v)|
    modifies dst
    ensures r == Some(v)
  {
    hide Text;
    var length := LL2String(dst, v);
    assert dst[..length] == Text(v);
    assert Parses(dst[..length], v);
    r := String2LL(dst[..length]);
  }
}
