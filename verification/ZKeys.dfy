/** Scores and elements of a sorted set and their order. */
module ZKeys {
  import opened Bytes

  /** A double other than NaN: its value, or an infinity. */
  datatype Score = NegInf | Fin(v: real) | PosInf

  /** What an addition of doubles may give. */
  datatype Sum = NaN | Num(score: Score)

  /** The machine's addition, with its rounding and overflow: any function will do. */
  type Addition = (Score, Score) -> Sum

  type Ele = Octets

  predicate ScoreLess(a: Score, b: Score)
  {
    match a
    case NegInf => b != NegInf
    case Fin(v) => b == PosInf || (b.Fin? && v < b.v)
    case PosInf => false
  }

  predicate ScoreLeq(a: Score, b: Score) { a == b || ScoreLess(a, b) }

  /** The order of scores: that of the reals, with an infinity at either end. */
  lemma ScoreOrder(x: real, y: real)
    ensures ScoreLess(Fin(x), Fin(y)) <==> x < y
    ensures ScoreLess(NegInf, Fin(x)) && ScoreLess(Fin(x), PosInf) && ScoreLess(NegInf, PosInf)
    ensures !ScoreLess(Fin(x), NegInf) && !ScoreLess(PosInf, Fin(x)) && !ScoreLess(PosInf, NegInf)
    ensures !ScoreLess(NegInf, NegInf) && !ScoreLess(PosInf, PosInf)
  {}

  /** A range of scores with inclusive or exclusive ends. */
  datatype Range = Range(min: Score, max: Score, minex: bool, maxex: bool)

  predicate GteMin(range: Range, value: Score)
  {
    if range.minex then ScoreLess(range.min, value) else ScoreLeq(range.min, value)
  }

  predicate LteMax(range: Range, value: Score)
  {
    if range.maxex then ScoreLess(value, range.max) else ScoreLeq(value, range.max)
  }

  predicate InRange(range: Range, value: Score) { GteMin(range, value) && LteMax(range, value) }

  /** The test for ranges that are always empty. */
  predicate EmptyRange(range: Range)
  {
    ScoreLess(range.max, range.min) || (range.min == range.max && (range.minex || range.maxex))
  }

  /** A range with finite ends is an interval of reals; of the infinities it has none. */
  lemma FiniteRange(lo: real, hi: real, minex: bool, maxex: bool, v: real)
    ensures InRange(Range(Fin(lo), Fin(hi), minex, maxex), Fin(v)) <==>
            (lo < v || (lo == v && !minex)) && (v < hi || (v == hi && !maxex))
    ensures !InRange(Range(Fin(lo), Fin(hi), minex, maxex), NegInf)
    ensures !InRange(Range(Fin(lo), Fin(hi), minex, maxex), PosInf)
  {}

  /** An infinite end leaves every score on its side in, the infinity itself if it is inclusive. */
  lemma HalfRange(end: real, ex: bool, infex: bool, v: real)
    ensures InRange(Range(Fin(end), PosInf, ex, infex), Fin(v)) <==> end < v || (end == v && !ex)
    ensures InRange(Range(NegInf, Fin(end), infex, ex), Fin(v)) <==> v < end || (v == end && !ex)
    ensures InRange(Range(Fin(end), PosInf, ex, infex), PosInf) <==> !infex
    ensures InRange(Range(NegInf, Fin(end), infex, ex), NegInf) <==> !infex
    ensures !InRange(Range(Fin(end), PosInf, ex, infex), NegInf)
    ensures !InRange(Range(NegInf, Fin(end), infex, ex), PosInf)
  {}

  /** Without finite ends every finite score is in, and each infinity if its end is inclusive. */
  lemma WholeRange(minex: bool, maxex: bool, v: real)
    ensures InRange(Range(NegInf, PosInf, minex, maxex), Fin(v))
    ensures InRange(Range(NegInf, PosInf, minex, maxex), NegInf) <==> !minex
    ensures InRange(Range(NegInf, PosInf, minex, maxex), PosInf) <==> !maxex
  {}

  /** The range from a score to itself holds that score alone. */
  lemma OneScoreRange(s: Score, value: Score)
    ensures InRange(Range(s, s, false, false), value) <==> value == s
  {}

  /** An inclusive end adds just the score at that end, if the other end lets it in. */
  lemma InclusiveEnds(range: Range, value: Score)
    ensures InRange(range.(minex := false), value) <==>
            InRange(range.(minex := true), value) || (value == range.min && LteMax(range, value))
    ensures InRange(range.(maxex := false), value) <==>
            InRange(range.(maxex := true), value) || (value == range.max && GteMin(range, value))
    ensures LteMax(range, range.min) <==> ScoreLess(range.min, range.max) || (range.min == range.max && !range.maxex)
    ensures GteMin(range, range.max) <==> ScoreLess(range.min, range.max) || (range.min == range.max && !range.minex)
  {}

  /** And it holds for no other range: each of those has a score in it. */
  lemma OtherRanges(range: Range) returns (value: Score)
    requires !EmptyRange(range)
    ensures InRange(range, value)
  {
    if range.min == range.max {
      value := range.min;
    } else {
      match (range.min, range.max)
      case (Fin(a), Fin(b)) => value := Fin((a + b) / 2.0);
      case (Fin(a), _) => value := Fin(a + 1.0);
      case (_, Fin(b)) => value := Fin(b - 1.0);
      case (_, _) => value := Fin(0.0);
    }
  }

  lemma EmptyRangeEmpty(range: Range, value: Score)
    requires EmptyRange(range)
    ensures !InRange(range, value)
  {}

  lemma RangeMonotone(range: Range, a: Score, b: Score)
    requires ScoreLeq(a, b)
    ensures GteMin(range, a) ==> GteMin(range, b)
    ensures LteMax(range, b) ==> LteMax(range, a)
  {}

  /** sdscmp: bytes first, then length. */
  function Compare(a: Ele, b: Ele): int
  {
    if a == [] then (if b == [] then 0 else -1)
    else if b == [] then 1
    else if a[0] != b[0] then a[0] - b[0]
    else Compare(a[1..], b[1..])
  }

  /** The order of the skip list: by score, then by element. */
  predicate Less(s: Score, e: Ele, s': Score, e': Ele)
  {
    ScoreLess(s, s') || (s == s' && Compare(e, e') < 0)
  }

  lemma {:induction false} CompareZero(a: Ele, b: Ele)
    ensures Compare(a, b) == 0 <==> a == b
  {
    if a != [] && b != [] && a[0] == b[0] {
      CompareZero(a[1..], b[1..]);
      assert a == [a[0]] + a[1..] && b == [b[0]] + b[1..];
    }
  }

  /** At the first byte in which two strings differ the smaller byte decides. */
  lemma {:induction false} CompareAtByte(p: Ele, x: Byte, y: Byte, s: Ele, t: Ele)
    requires x < y
    ensures Compare(p + [x] + s, p + [y] + t) < 0 && Compare(p + [y] + t, p + [x] + s) > 0
  {
    if p == [] {
      assert p + [x] + s == [x] + s && p + [y] + t == [y] + t;
    } else {
      assert (p + [x] + s)[1..] == p[1..] + [x] + s && (p + [y] + t)[1..] == p[1..] + [y] + t;
      CompareAtByte(p[1..], x, y, s, t);
    }
  }

  /** A string comes before those it is a proper part of the beginning of. */
  lemma {:induction false} ComparePrefix(p: Ele, s: Ele)
    requires s != []
    ensures Compare(p, p + s) < 0 && Compare(p + s, p) > 0
  {
    if p == [] {
      assert p + s == s;
    } else {
      assert (p + s)[1..] == p[1..] + s;
      ComparePrefix(p[1..], s);
    }
  }

  /** The lexicographic order of byte strings, without a walk: a proper prefix, or at the first
      difference the smaller byte. */
  ghost predicate Lexicographic(a: Ele, b: Ele)
  {
    || a < b
    || exists i :: 0 <= i < |a| && i < |b| && a[..i] == b[..i] && a[i] < b[i]
  }

  /** It is what the comparison decides. */
  lemma CompareIsLexicographic(a: Ele, b: Ele)
    ensures Compare(a, b) < 0 <==> Lexicographic(a, b)
  {
    hide *;
    LexicographicTotal(a, b);
    CompareZero(a, b);
    CompareFlips(b, a);
    if Lexicographic(a, b) {
      LexicographicCompare(a, b);
    } else if a != b {
      LexicographicCompare(b, a);
    }
  }

  lemma LexicographicTotal(a: Ele, b: Ele)
    ensures Lexicographic(a, b) || Lexicographic(b, a) || a == b
  {
    if a != b { var i := FirstDifference(a, b); }
  }

  lemma LexicographicCompare(a: Ele, b: Ele)
    requires Lexicographic(a, b)
    ensures Compare(a, b) < 0
  {
    if a < b {
      assert b == a + b[|a|..];
      ComparePrefix(a, b[|a|..]);
    } else {
      var i :| 0 <= i < |a| && i < |b| && a[..i] == b[..i] && a[i] < b[i];
      assert a == a[..i] + [a[i]] + a[i + 1..] && b == b[..i] + [b[i]] + b[i + 1..];
      CompareAtByte(a[..i], a[i], b[i], a[i + 1..], b[i + 1..]);
    }
  }

  lemma {:induction false} FirstDifference(a: Ele, b: Ele) returns (i: nat)
    requires a != b
    ensures i <= |a| && i <= |b| && a[..i] == b[..i] && (i < |a| && i < |b| ==> a[i] != b[i])
    ensures (i == |a| || i == |b|) ==> |a| != |b|
  {
    if a == [] || b == [] || a[0] != b[0] {
      i := 0;
    } else {
      assert a == [a[0]] + a[1..] && b == [b[0]] + b[1..];
      i := FirstDifference(a[1..], b[1..]);
      i := i + 1;
      assert a[..i] == [a[0]] + a[1..][..i - 1] && b[..i] == [b[0]] + b[1..][..i - 1];
    }
  }

  lemma {:induction false} CompareFlips(a: Ele, b: Ele)
    ensures Compare(a, b) < 0 <==> Compare(b, a) > 0
  {
    if a != [] && b != [] { CompareFlips(a[1..], b[1..]); }
  }

  lemma {:induction false} CompareTransitive(a: Ele, b: Ele, c: Ele)
    requires Compare(a, b) < 0 && Compare(b, c) < 0
    ensures Compare(a, c) < 0
  {
    if a != [] && b != [] && c != [] && a[0] == b[0] == c[0] {
      CompareTransitive(a[1..], b[1..], c[1..]);
    }
  }

  /** The order is strict and total. */
  lemma LessTotal(s: Score, e: Ele, s': Score, e': Ele)
    ensures Less(s, e, s', e') || Less(s', e', s, e) || (s == s' && e == e')
    ensures !(Less(s, e, s', e') && Less(s', e', s, e))
    ensures !Less(s, e, s, e)
  {
    CompareZero(e, e');
    CompareZero(e, e);
    CompareFlips(e, e');
    CompareFlips(e', e);
  }

  lemma LessTransitive(s: Score, e: Ele, s': Score, e': Ele, s'': Score, e'': Ele)
    requires Less(s, e, s', e') && Less(s', e', s'', e'')
    ensures Less(s, e, s'', e'')
  {
    if s == s' == s'' { CompareTransitive(e, e', e''); }
  }
}
