/** The quoting printer sdscatrepr and the argument parser sdssplitargs of sds.c. */
module Sds {
  import opened Bytes
  import opened Options

  const QUOTE: Byte := '"' as int
  const APOSTROPHE: Byte := '\'' as int
  const BACKSLASH: Byte := '\\' as int

  /** isprint in the C locale. */
  predicate IsPrint(b: Byte) { 32 <= b <= 126 }

  /** isspace in the C locale. */
  predicate IsSpace(b: Byte) { b == 32 || 9 <= b <= 13 }

  // ----- Printing -----

  function HexChar(n: nat): Byte
    requires n < 16
  {
    if n < 10 then 48 + n else 87 + n
  }

  /** How one byte is written. */
  function Escape(b: Byte): (e: Octets)
    ensures |e| > 0
  {
    if b == BACKSLASH || b == QUOTE then [BACKSLASH, b]
    else if b == 10 then [BACKSLASH, 110]
    else if b == 13 then [BACKSLASH, 114]
    else if b == 9 then [BACKSLASH, 116]
    else if b == 7 then [BACKSLASH, 97]
    else if b == 8 then [BACKSLASH, 98]
    else if IsPrint(b) then [b]
    else [BACKSLASH, 120, HexChar(b / 16), HexChar(b % 16)]
  }

  function EscapeAll(s: Octets): Octets { if s == [] then [] else Escape(s[0]) + EscapeAll(s[1..]) }

  /** Everything is written in bytes from the space to the tilde, and those bytes are written as
      they are but for the quote and the backslash. */
  lemma EscapePrintable(b: Byte)
    ensures forall c :: c in Escape(b) ==> ' ' as int <= c <= '~' as int
    ensures Escape(b) == [b] <==> ' ' as int <= b <= '~' as int && b != QUOTE && b != BACKSLASH
  {}

  /** The quoted form of a string. */
  function Repr(s: Octets): Octets { [QUOTE] + EscapeAll(s) + [QUOTE] }

  lemma {:induction false} EscapeAllSnoc(s: Octets, b: Byte)
    ensures EscapeAll(s + [b]) == EscapeAll(s) + Escape(b)
  {
    hide Escape;
    if s == [] {
      assert s + [b] == [b] && EscapeAll([b]) == Escape(b) + EscapeAll([]);
    } else {
      assert (s + [b])[1..] == s[1..] + [b];
      EscapeAllSnoc(s[1..], b);
    }
  }

  /** sdscatrepr. */
  method CatRepr(s0: Octets, p: Octets) returns (s: Octets)
    ensures s == s0 + Repr(p)
  {
    hide *;
    s := s0 + [QUOTE];
    var i := 0;
    EscapeNone(s0);
    while i < |p|
      invariant i <= |p| && s == s0 + ([QUOTE] + EscapeAll(p[..i]))
    {
      EscapeAllSnoc(p[..i], p[i]);
      assert p[..i + 1] == p[..i] + [p[i]];
      Glue(s0, EscapeAll(p[..i]), Escape(p[i]));
      EscapeIs(p[i]);
      var c := p[i];
      if c == BACKSLASH || c == QUOTE {
        s := s + [BACKSLASH, c];
      } else if c == 10 {
        s := s + [BACKSLASH, 110];
      } else if c == 13 {
        s := s + [BACKSLASH, 114];
      } else if c == 9 {
        s := s + [BACKSLASH, 116];
      } else if c == 7 {
        s := s + [BACKSLASH, 97];
      } else if c == 8 {
        s := s + [BACKSLASH, 98];
      } else if IsPrint(c) {
        s := s + [c];
      } else {
        s := s + [BACKSLASH, 120, HexChar(c / 16), HexChar(c % 16)];
      }
      i := i + 1;
    }
    assert p[..|p|] == p;
    s := s + [QUOTE];
    ReprIs(s0, p);
  }

  lemma EscapeIs(c: Byte)
    ensures Escape(c) ==
      if c == BACKSLASH || c == QUOTE then [BACKSLASH, c]
      else if c == 10 then [BACKSLASH, 110]
      else if c == 13 then [BACKSLASH, 114]
      else if c == 9 then [BACKSLASH, 116]
      else if c == 7 then [BACKSLASH, 97]
      else if c == 8 then [BACKSLASH, 98]
      else if IsPrint(c) then [c]
      else [BACKSLASH, 120, HexChar(c / 16), HexChar(c % 16)]
  {
    hide HexChar, IsPrint;
  }

  lemma EscapeNone(s: Octets)
    ensures s + [QUOTE] == s + ([QUOTE] + EscapeAll([]))
  {}

  lemma Glue(s: Octets, a: Octets, e: Octets)
    ensures s + ([QUOTE] + a) + e == s + ([QUOTE] + (a + e))
  {}

  lemma ReprIs(s: Octets, p: Octets)
    ensures s + ([QUOTE] + EscapeAll(p)) + [QUOTE] == s + Repr(p)
  {
    hide EscapeAll;
  }

  // ----- Parsing -----

  /** The byte at `p`; the line ends with a zero byte. */
  function At(line: Octets, p: nat): Byte { if p < |line| then line[p] else 0 }

  /** is_hex_digit and hex_digit_to_int. */
  predicate IsHexDigit(c: Byte) { 48 <= c <= 57 || 97 <= c <= 102 || 65 <= c <= 70 }

  function HexDigitToInt(c: Byte): (n: nat)
    ensures n < 16
  {
    if 48 <= c <= 57 then c - 48 else if 97 <= c <= 102 then c - 87 else if 65 <= c <= 70 then c - 55 else 0
  }

  /** A digit in either case stands for its value, and nothing else is one. */
  lemma HexDigits(n: nat)
    requires n < 16
    ensures forall c: Byte :: IsHexDigit(c) && HexDigitToInt(c) == n <==>
              c == HexChar(n) || c == if n < 10 then 48 + n else 55 + n
  {}

  /** What a backslash and this byte stand for inside double quotes. */
  function Unescape(c: Byte): Byte
  {
    if c == 110 then 10
        else if c == 114 then 13 else if c == 116 then 9 else if c == 98 then 8 else if c == 97 then 7 else c
  }

  predicate HexEscape(line: Octets, p: nat)
  {
    At(line, p) == BACKSLASH && At(line, p + 1) == 120 && IsHexDigit(At(line, p + 2)) && IsHexDigit(At(line, p + 3))
  }

  /** A closing quote must be followed by a space or nothing. */
  predicate Closes(line: Octets, p: nat) { At(line, p + 1) == 0 || IsSpace(At(line, p + 1)) }

  datatype Mode = Plain | InQuotes | InSingle

  /** A token with the place behind it, or an error in the quoting. */
  datatype Token = Token(text: Octets, next: nat) | Error

  /** One round of the token loop: either on with more, or the end of the token. */
  datatype Round = More(p: nat, mode: Mode, current: Octets) | Done(token: Token)

  function Step(line: Octets, p: nat, mode: Mode, current: Octets): (r: Round)
    requires p <= |line|
    ensures r.More? ==> p < r.p <= |line|
    ensures r.Done? && r.token.Token? ==> p <= r.token.next <= |line|
  {
    var c := At(line, p);
    match mode
    case InQuotes =>
      if HexEscape(line, p)
          then More(p + 4, InQuotes, current + [HexDigitToInt(At(line, p + 2)) * 16 + HexDigitToInt(At(line, p + 3))])
      else if c == BACKSLASH && At(line, p + 1) != 0 then More(p + 2, InQuotes, current + [Unescape(At(line, p + 1))])
      else if c == QUOTE then Done(if Closes(line, p) then Token(current, p + 1) else Error)
      else if c == 0 then Done(Error)
      else More(p + 1, InQuotes, current + [c])
    case InSingle =>
      if c == BACKSLASH && At(line, p + 1) == APOSTROPHE then More(p + 2, InSingle, current + [APOSTROPHE])
      else if c == APOSTROPHE then Done(if Closes(line, p) then Token(current, p + 1) else Error)
      else if c == 0 then Done(Error)
      else More(p + 1, InSingle, current + [c])
    case Plain =>
      if c == 0 then Done(Token(current, p))
      else if c == 32 || c == 10 || c == 13 || c == 9 then Done(Token(current, p + 1))
      else if c == QUOTE then More(p + 1, InQuotes, current)
      else if c == APOSTROPHE then More(p + 1, InSingle, current)
      else More(p + 1, Plain, current + [c])
  }

  function ReadToken(line: Octets, p: nat, mode: Mode, current: Octets): (t: Token)
    requires p <= |line|
    ensures t.Token? ==> p <= t.next <= |line|
    decreases |line| - p
  {
    match Step(line, p, mode, current)
    case More(q, m, cur) => ReadToken(line, q, m, cur)
    case Done(t) => t
  }

  function SkipBlanks(line: Octets, p: nat): (q: nat)
    requires p <= |line|
    ensures p <= q <= |line| && (At(line, q) == 0 || !IsSpace(At(line, q)))
    decreases |line| - p
  {
    if At(line, p) != 0 && IsSpace(At(line, p)) then SkipBlanks(line, p + 1) else p
  }

  /** The arguments from `p` on. */
  function Args(line: Octets, p: nat): Option<seq<Octets>>
    requires p <= |line|
    decreases |line| - p
  {
    var q := SkipBlanks(line, p);
    if At(line, q) == 0 then Some([])
    else
      TokenAdvances(line, q);
      match ReadToken(line, q, Plain, [])
      case Error => None
      case Token(t, next) =>
        match Args(line, next)
        case None => None
        case Some(ts) => Some([t] + ts)
  }

  /** A token that begins with a non-blank takes it in. */
  lemma TokenAdvances(line: Octets, q: nat)
    requires q <= |line| && At(line, q) != 0 && !IsSpace(At(line, q))
    ensures var t := ReadToken(line, q, Plain, []); t.Token? ==> q < t.next <= |line|
  {
    assert Step(line, q, Plain, []).More?;
  }

  /** The token loop of sdssplitargs. */
  method GetToken(line: Octets, p0: nat) returns (t: Token)
    requires p0 <= |line|
    ensures t == ReadToken(line, p0, Plain, [])
  {
    var p: nat, inq, insq, done := p0, false, false, false;
    var current: Octets := [];
    hide ReadToken;
    ghost var goal := ReadToken(line, p0, Plain, []);
    while !done
      invariant p <= |line| && !(inq && insq)
      invariant !done ==>
                ReadToken(line, p, if inq then InQuotes else if insq then InSingle else Plain, current) == goal
      invariant done ==> goal == Token(current, p)
      decreases !done, |line| - p
    {
      ReadTokenStep(line, p, if inq then InQuotes else if insq then InSingle else Plain, current);
      if inq {
        if HexEscape(line, p) {
          current := current + [HexDigitToInt(At(line, p + 2)) * 16 + HexDigitToInt(At(line, p + 3))];
          p := p + 3;
        } else if At(line, p) == BACKSLASH && At(line, p + 1) != 0 {
          p := p + 1;
          current := current + [Unescape(At(line, p))];
        } else if At(line, p) == QUOTE {
          if At(line, p + 1) != 0 && !IsSpace(At(line, p + 1)) { return Error; }
          done := true;
        } else if At(line, p) == 0 {
          return Error;
        } else {
          current := current + [At(line, p)];
        }
      } else if insq {
        if At(line, p) == BACKSLASH && At(line, p + 1) == APOSTROPHE {
          p := p + 1;
          current := current + [APOSTROPHE];
        } else if At(line, p) == APOSTROPHE {
          if At(line, p + 1) != 0 && !IsSpace(At(line, p + 1)) { return Error; }
          done := true;
        } else if At(line, p) == 0 {
          return Error;
        } else {
          current := current + [At(line, p)];
        }
      } else {
        var c := At(line, p);
        if c == 32 || c == 10 || c == 13 || c == 9 || c == 0 {
          done := true;
        } else if c == QUOTE {
          inq := true;
        } else if c == APOSTROPHE {
          insq := true;
        } else {
          current := current + [c];
        }
      }
      if At(line, p) != 0 { p := p + 1; }
    }
    t := Token(current, p);
  }

  lemma ReadTokenStep(line: Octets, p: nat, mode: Mode, current: Octets)
    requires p <= |line|
    ensures ReadToken(line, p, mode, current)
            == match Step(line, p, mode, current) case More(q, m, cur) => ReadToken(line, q, m, cur) case Done(t) => t
  {}

  /** sdssplitargs; none for a quoting error. */
  method SplitArgs(line: Octets) returns (r: Option<seq<Octets>>)
    ensures r == Args(line, 0)
  {
    hide Args, ReadToken;
    var p, vector: seq<Octets> := 0, [];
    assert Args(line, 0).Some? ==> [] + Args(line, 0).value == Args(line, 0).value;
    while true
      invariant p <= |line|
      invariant Args(line, 0) == (if Args(line, p).None? then None else Some(vector + Args(line, p).value))
      decreases |line| - p
    {
      ArgsStep(line, p);
      ghost var q := SkipBlanks(line, p);
      while At(line, p) != 0 && IsSpace(At(line, p))
        invariant p <= |line| && SkipBlanks(line, p) == q
        decreases |line| - p
      {
        p := p + 1;
      }
      if At(line, p) == 0 {
        assert vector + [] == vector;
        return Some(vector);
      }
      TokenAdvances(line, p);
      var t := GetToken(line, p);
      if t.Error? { return None; }
      ghost var rest := Args(line, t.next);
      if rest.Some? { assert vector + ([t.text] + rest.value) == vector + [t.text] + rest.value; }
      vector := vector + [t.text];
      p := t.next;
    }
  }

  lemma ArgsStep(line: Octets, p: nat)
    requires p <= |line|
    ensures var q := SkipBlanks(line, p);
            && (At(line, q) == 0 ==> Args(line, p) == Some([]))
            && (At(line, q) != 0 ==> var t := ReadToken(line, q, Plain, []);
                                     && (t.Error? ==> Args(line, p) == None)
                                     && (t.Token? ==> var rest := Args(line, t.next);
                                                      Args(line, p)
                                                        == if rest.None? then None else Some([t.text] + rest.value)))
  {
    hide ReadToken, SkipBlanks;
    var q := SkipBlanks(line, p);
    if At(line, q) != 0 { TokenAdvances(line, q); }
  }

  // ----- Round trip -----

  /** The ways to write an argument: quoted by sdscatrepr, between apostrophes, or as it is. */
  datatype Form = Quoted(text: Octets) | Single(text: Octets) | Word(text: Octets)

  /** Between apostrophes only the apostrophe can be escaped, so the text cannot end in a
      backslash; a word has no quotes and nothing that ends it. */
  predicate Writable(f: Form)
  {
    match f
    case Quoted(_) => true
    case Single(s) => 0 !in s && (s == [] || s[|s| - 1] != BACKSLASH)
    case Word(s) => s != [] && !IsSpace(s[0]) && forall b :: b in s ==> !Ends(b) && b != QUOTE && b != APOSTROPHE
  }

  /** The bytes that end a word. */
  predicate Ends(b: Byte) { b == 0 || b == 32 || b == 10 || b == 13 || b == 9 }

  function Apostrophes(s: Octets): Octets
  {
    if s == [] then [] else (if s[0] == APOSTROPHE then [BACKSLASH, APOSTROPHE] else [s[0]]) + Apostrophes(s[1..])
  }

  function Written(f: Form): Octets
  {
    match f
    case Quoted(s) => Repr(s)
    case Single(s) => [APOSTROPHE] + Apostrophes(s) + [APOSTROPHE]
    case Word(s) => s
  }

  /** The arguments as written, with a space between any two. */
  function Joined(fs: seq<Form>): Octets
  {
    if fs == [] then [] else if |fs| == 1 then Written(fs[0]) else Written(fs[0]) + [32] + Joined(fs[1..])
  }

  function TextsOf(fs: seq<Form>): seq<Octets> { if fs == [] then [] else [fs[0].text] + TextsOf(fs[1..]) }

  function QuotedAll(ss: seq<Octets>): seq<Form> { if ss == [] then [] else [Quoted(ss[0])] + QuotedAll(ss[1..]) }

  /** Inside quotes an escaped byte is read back. */
  lemma ReadEscape(line: Octets, p: nat, b: Byte, rest: Octets, current: Octets)
    requires p <= |line| && line[p..] == Escape(b) + rest
    ensures Step(line, p, InQuotes, current) == More(p + |Escape(b)|, InQuotes, current + [b])
  {
    var e := Escape(b);
    assert forall i {:trigger line[p + i]} :: 0 <= i < |e| ==> line[p + i] == line[p..][i] == e[i];
    assert |e| == 4 ==> b / 16 * 16 + b % 16 == b;
  }

  /** Reading on to the closing quote. */
  lemma {:induction false} ReadQuoted(line: Octets, p: nat, s: Octets, rest: Octets, current: Octets)
    requires p <= |line| && line[p..] == EscapeAll(s) + ([QUOTE] + rest) && (rest == [] || IsSpace(rest[0]))
    ensures ReadToken(line, p, InQuotes, current) == Token(current + s, p + |EscapeAll(s)| + 1)
    decreases |s|
  {
    hide Escape, Step;
    if s == [] {
      hide ReadToken;
      ReadTokenStep(line, p, InQuotes, current);
      ReadClosing(line, p, rest, current);
      assert current + s == current;
    } else {
      var e, more := Escape(s[0]), EscapeAll(s[1..]) + ([QUOTE] + rest);
      assert line[p..] == e + more;
      ReadEscape(line, p, s[0], more, current);
      ReadTokenStep(line, p, InQuotes, current);
      assert line[p + |e|..] == line[p..][|e|..] == more;
      ReadQuoted(line, p + |e|, s[1..], rest, current + [s[0]]);
      assert current + [s[0]] + s[1..] == current + s;
    }
  }

  lemma ReadClosing(line: Octets, p: nat, rest: Octets, current: Octets)
    requires p <= |line| && line[p..] == [QUOTE] + rest && (rest == [] || IsSpace(rest[0]))
    ensures Step(line, p, InQuotes, current) == Done(Token(current, p + 1))
  {
    assert line[p] == line[p..][0];
    if rest != [] { assert line[p + 1] == line[p..][1] == rest[0]; }
  }

  /** A quoted form is read as one token. */
  lemma ReadRepr(line: Octets, p: nat, s: Octets, rest: Octets)
    requires p <= |line| && line[p..] == Repr(s) + rest && (rest == [] || IsSpace(rest[0]))
    ensures At(line, p) == QUOTE != 0 && ReadToken(line, p, Plain, []) == Token(s, p + |Repr(s)|)
    ensures line[p + |Repr(s)|..] == rest
  {
    hide EscapeAll, ReadToken;
    assert line[p] == line[p..][0] == QUOTE;
    ReadTokenStep(line, p, Plain, []);
    assert line[p + 1..] == line[p..][1..] == EscapeAll(s) + ([QUOTE] + rest);
    ReadQuoted(line, p + 1, s, rest, []);
    assert [] + s == s;
    assert line[p + |Repr(s)|..] == line[p..][|Repr(s)|..];
  }

  /** Between apostrophes: reading on to the closing one. */
  lemma {:induction false} ReadSingle(line: Octets, p: nat, s: Octets, rest: Octets, current: Octets)
    requires p <= |line| && line[p..] == Apostrophes(s) + ([APOSTROPHE] + rest) && (rest == [] || IsSpace(rest[0]))
    requires 0 !in s && (s == [] || s[|s| - 1] != BACKSLASH)
    ensures ReadToken(line, p, InSingle, current) == Token(current + s, p + |Apostrophes(s)| + 1)
    decreases |s|
  {
    hide ReadToken, Apostrophes;
    ReadTokenStep(line, p, InSingle, current);
    ApostrophesIs(s);
    if s == [] {
      SingleClosing(line, p, rest, current);
      assert current + s == current;
    } else {
      var e, more := if s[0] == APOSTROPHE then [BACKSLASH, APOSTROPHE] else [s[0]], Apostrophes(s[1..]);
      assert line[p..] == e + (more + ([APOSTROPHE] + rest));
      NoApostrophe(s, rest);
      SingleByte(line, p, s[0], more + ([APOSTROPHE] + rest), current);
      assert line[p + |e|..] == line[p..][|e|..] == more + ([APOSTROPHE] + rest);
      assert forall b :: b in s[1..] ==> b in s;
      ReadSingle(line, p + |e|, s[1..], rest, current + [s[0]]);
      assert current + [s[0]] + s[1..] == current + s;
    }
  }

  lemma ApostrophesIs(s: Octets)
    ensures s == [] ==> Apostrophes(s) == []
    ensures s != [] ==>
            Apostrophes(s) == (if s[0] == APOSTROPHE then [BACKSLASH, APOSTROPHE] else [s[0]]) + Apostrophes(s[1..])
  {}

  /** What follows a backslash of the text does not begin with an apostrophe. */
  lemma NoApostrophe(s: Octets, rest: Octets)
    requires s != [] && s[|s| - 1] != BACKSLASH
    ensures s[0] == BACKSLASH ==> (Apostrophes(s[1..]) + ([APOSTROPHE] + rest))[0] != APOSTROPHE
  {
    if s[0] == BACKSLASH {
      assert s[1..] != [];
      ApostrophesIs(s[1..]);
    }
  }

  lemma SingleByte(line: Octets, p: nat, b: Byte, rest: Octets, current: Octets)
    requires p <= |line| && b != 0 && rest != [] && (b == BACKSLASH ==> rest[0] != APOSTROPHE)
    requires line[p..] == (if b == APOSTROPHE then [BACKSLASH, APOSTROPHE] else [b]) + rest
    ensures Step(line, p, InSingle, current)
            == More(p + if b == APOSTROPHE then 2 else 1, InSingle, current + [b])
  {
    assert line[p] == line[p..][0] && line[p + 1] == line[p..][1];
  }

  lemma SingleClosing(line: Octets, p: nat, rest: Octets, current: Octets)
    requires p <= |line| && line[p..] == [APOSTROPHE] + rest && (rest == [] || IsSpace(rest[0]))
    ensures Step(line, p, InSingle, current) == Done(Token(current, p + 1))
  {
    assert line[p] == line[p..][0];
    if rest != [] { assert line[p + 1] == line[p..][1] == rest[0]; }
  }

  /** A word: reading on to the blank that ends it, which is taken too, or to the line's end. */
  lemma {:induction false} ReadWord(line: Octets, p: nat, s: Octets, rest: Octets, current: Octets)
    requires p <= |line| && line[p..] == s + rest && (rest == [] || rest[0] == 32)
    requires forall b :: b in s ==> !Ends(b) && b != QUOTE && b != APOSTROPHE
    ensures ReadToken(line, p, Plain, current) == Token(current + s, p + |s| + if rest == [] then 0 else 1)
    decreases |s|
  {
    hide ReadToken;
    ReadTokenStep(line, p, Plain, current);
    if s == [] {
      assert current + s == current;
      if rest != [] { assert line[p] == line[p..][0]; }
    } else {
      assert line[p] == line[p..][0] == s[0];
      assert line[p + 1..] == line[p..][1..] == s[1..] + rest;
      assert s[0] in s && forall b :: b in s[1..] ==> b in s;
      ReadWord(line, p + 1, s[1..], rest, current + [s[0]]);
      assert current + [s[0]] + s[1..] == current + s;
    }
  }

  /** A form between apostrophes is read as one token. */
  lemma ReadApostrophes(line: Octets, p: nat, s: Octets, rest: Octets)
    requires p <= |line| && line[p..] == [APOSTROPHE] + Apostrophes(s) + [APOSTROPHE] + rest
    requires 0 !in s && (s == [] || s[|s| - 1] != BACKSLASH) && (rest == [] || IsSpace(rest[0]))
    ensures At(line, p) == APOSTROPHE && ReadToken(line, p, Plain, []) == Token(s, p + |Apostrophes(s)| + 2)
  {
    hide Apostrophes, ReadToken;
    assert line[p] == line[p..][0] == APOSTROPHE;
    ReadTokenStep(line, p, Plain, []);
    assert line[p + 1..] == line[p..][1..] == Apostrophes(s) + ([APOSTROPHE] + rest);
    ReadSingle(line, p + 1, s, rest, []);
    assert [] + s == s;
  }

  lemma ReadBare(line: Octets, p: nat, s: Octets, rest: Octets)
    requires p <= |line| && Writable(Word(s)) && line[p..] == s + rest && (rest == [] || rest[0] == 32)
    ensures At(line, p) != 0 && !IsSpace(At(line, p))
    ensures ReadToken(line, p, Plain, []) == Token(s, p + |s| + if rest == [] then 0 else 1)
  {
    hide ReadToken;
    assert line[p] == line[p..][0] == s[0] && s[0] in s;
    ReadWord(line, p, s, rest, []);
    assert [] + s == s;
  }

  /** Whatever way an argument is written, it is read as one token. */
  lemma ReadForm(line: Octets, p: nat, f: Form, rest: Octets)
    requires p <= |line| && Writable(f) && line[p..] == Written(f) + rest && (rest == [] || rest[0] == 32)
    ensures At(line, p) != 0 && !IsSpace(At(line, p)) && p + |Written(f)| <= |line|
    ensures ReadToken(line, p, Plain, [])
            == Token(f.text, p + |Written(f)| + if f.Word? && rest != [] then 1 else 0)
    ensures line[p + |Written(f)|..] == rest
  {
    assert line[p + |Written(f)|..] == line[p..][|Written(f)|..];
    hide ReadToken, Repr, Apostrophes, Ends, At;
    match f
    case Quoted(s) => ReadRepr(line, p, s, rest);
    case Single(s) => ReadApostrophes(line, p, s, rest);
    case Word(s) => ReadBare(line, p, s, rest);
  }

  /** From the start of a list of arguments as written, or from the space before one, they are
      read back. */
  lemma {:induction false} ReadJoined(line: Octets, p: nat, fs: seq<Form>, space: bool)
    requires p <= |line| && line[p..] == (if space then [32] else []) + Joined(fs) && (space ==> fs != [])
    requires forall f :: f in fs ==> Writable(f)
    ensures Args(line, p) == Some(TextsOf(fs))
    decreases |fs|
  {
    hide *;
    ArgsStep(line, p);
    JoinedIs(fs);
    var at := if space then p + 1 else p;
    AfterSpace(line, p, Joined(fs), space);
    if fs == [] {
      LineEnd(line, p);
    } else {
      var rest := if |fs| == 1 then [] else [32] + Joined(fs[1..]);
      ReadForm(line, at, fs[0], rest);
      SkipOne(line, p, at);
      var next := at + |Written(fs[0])|;
      JoinedIs([]);
      if |fs| == 1 {
        assert fs[1..] == [] && [] + Joined([]) == [];
        ReadJoined(line, next, fs[1..], false);
      } else if fs[0].Word? {
        AfterSpace(line, next, Joined(fs[1..]), true);
        assert [] + Joined(fs[1..]) == Joined(fs[1..]);
        ReadJoined(line, next + 1, fs[1..], false);
      } else {
        ReadJoined(line, next, fs[1..], true);
      }
    }
  }

  lemma JoinedIs(fs: seq<Form>)
    ensures fs == [] ==> Joined(fs) == [] && TextsOf(fs) == []
    ensures fs != [] ==> Joined(fs) == Written(fs[0]) + (if |fs| == 1 then [] else [32] + Joined(fs[1..]))
    ensures fs != [] ==> TextsOf(fs) == [fs[0].text] + TextsOf(fs[1..])
  {
    hide Written;
  }

  lemma AfterSpace(line: Octets, p: nat, t: Octets, space: bool)
    requires p <= |line| && line[p..] == (if space then [32] else []) + t
    ensures space ==> p + 1 <= |line| && line[p + 1..] == t && At(line, p) == 32
    ensures !space ==> line[p..] == t
  {
    if space {
      assert line[p] == line[p..][0];
      assert line[p + 1..] == line[p..][1..];
    }
  }

  lemma LineEnd(line: Octets, p: nat)
    requires p <= |line| && line[p..] == []
    ensures SkipBlanks(line, p) == p && At(line, p) == 0
  {}

  /** Skipping at most one space to an argument. */
  lemma SkipOne(line: Octets, p: nat, at: nat)
    requires p <= at <= |line| && !IsSpace(At(line, at)) && (at == p || (at == p + 1 && At(line, p) == 32))
    ensures SkipBlanks(line, p) == at
  {
    assert SkipBlanks(line, at) == at;
  }

  /** sdssplitargs of any arguments, written in any of the three ways and joined by spaces. */
  lemma SplitWritten(fs: seq<Form>)
    requires forall f :: f in fs ==> Writable(f)
    ensures Args(Joined(fs), 0) == Some(TextsOf(fs))
  {
    hide Args, Joined, Writable;
    assert Joined(fs)[0..] == [] + Joined(fs);
    ReadJoined(Joined(fs), 0, fs, false);
  }

  /** sdssplitargs of the quoted forms of any strings, joined by spaces: those strings. */
  lemma SplitRoundTrip(ss: seq<Octets>)
    ensures Args(Joined(QuotedAll(ss)), 0) == Some(ss)
  {
    hide Args, Joined;
    AllQuoted(ss);
    SplitWritten(QuotedAll(ss));
  }

  lemma {:induction false} AllQuoted(ss: seq<Octets>)
    ensures TextsOf(QuotedAll(ss)) == ss && forall f :: f in QuotedAll(ss) ==> f.Quoted?
  {
    if ss != [] {
      AllQuoted(ss[1..]);
      assert QuotedAll(ss)[1..] == QuotedAll(ss[1..]);
      assert ss == [ss[0]] + ss[1..];
    }
  }
}
