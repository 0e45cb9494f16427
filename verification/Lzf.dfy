/** LZF: the decoder as a function on byte strings, the two C loops (lzf_c.c, lzf_d.c)
    as methods, and the round trip between them. */
module Lzf {
  import opened Bytes

  const MAX_LIT := 32
  const MAX_OFF := 8192
  const MAX_REF := 264
  const HSIZE := 65536

  // ----- The compressed format -----

  datatype Decoded = Output(bytes: seq<Byte>) | Invalid | TooBig

  /** The output after a back reference: `len` bytes, each the one `dist` behind the end, so
      that a copy may read bytes it has itself written. */
  function CopyBack(out: seq<Byte>, dist: nat, len: nat): (r: seq<Byte>)
    requires 1 <= dist <= |out|
    ensures |r| == |out| + len
    decreases len
  {
    if len == 0 then out else CopyBack(out + [out[|out| - dist]], dist, len - 1)
  }

  /** Number of bytes the token at the head of `inp` takes, when it is complete. */
  function TokenLen(inp: seq<Byte>): (n: nat)
    requires |inp| > 0
    ensures n >= 2
  {
    var ctrl := inp[0] as int;
    if ctrl < MAX_LIT then ctrl + 2 else if ctrl / 32 == 7 then 3 else 2
  }

  /** Bytes a complete back reference adds, and how far behind the output's end it starts. */
  function RefLen(inp: seq<Byte>): (n: nat)
    requires |inp| > 0 && inp[0] as int >= MAX_LIT && TokenLen(inp) <= |inp|
    ensures n >= 3
  {
    2 + if inp[0] as int / 32 == 7 then 7 + inp[1] as int else inp[0] as int / 32
  }

  function RefDistance(inp: seq<Byte>): (n: nat)
    requires |inp| > 0 && inp[0] as int >= MAX_LIT && TokenLen(inp) <= |inp|
    ensures n >= 1
  {
    (inp[0] as int % 32) * 256 + 1 + inp[TokenLen(inp) - 1] as int
  }

  /** What one token does to the output produced so far, with the error the code reports. */
  function Token(inp: seq<Byte>, out: seq<Byte>, cap: nat): (r: Decoded)
    requires |inp| > 0
    ensures r.Output? ==> TokenLen(inp) <= |inp| && |out| < |r.bytes| <= cap
  {
    var n := TokenLen(inp);
    if inp[0] as int < MAX_LIT then
      if |out| + n - 1 > cap then TooBig
      else if n > |inp| then Invalid
      else Output(out + inp[1..n])
    else if n > |inp| then Invalid
    else if |out| + RefLen(inp) > cap then TooBig
    else if RefDistance(inp) > |out| then Invalid
    else Output(CopyBack(out, RefDistance(inp), RefLen(inp)))
  }

  function Decode(inp: seq<Byte>, out: seq<Byte>, cap: nat): (r: Decoded)
  {
    if inp == [] then Output(out)
    else
      var t := Token(inp, out, cap);
      if t.Output? then Decode(inp[TokenLen(inp)..], t.bytes, cap) else t
  }

  lemma {:induction false} DecodeAppend(s: seq<Byte>, t: seq<Byte>, out: seq<Byte>, cap: nat)
    requires Decode(s, out, cap).Output?
    ensures Decode(s + t, out, cap) == Decode(t, Decode(s, out, cap).bytes, cap)
  {
    if s == [] {
      assert s + t == t;
    } else {
      var n := TokenLen(s);
      assert Token(s, out, cap).Output?;
      assert TokenLen(s + t) == n;
      assert Token(s + t, out, cap) == Token(s, out, cap) by {
        if s[0] as int < MAX_LIT { assert (s + t)[1..n] == s[1..n]; }
      }
      assert (s + t)[n..] == s[n..] + t;
      DecodeAppend(s[n..], t, Token(s, out, cap).bytes, cap);
    }
  }

  /** Appending one whole token to a decodable string applies that token last. */
  lemma AppendToken(s: seq<Byte>, t: seq<Byte>, x: seq<Byte>, y: seq<Byte>, cap: nat)
    requires Decode(s, [], cap) == Output(x)
    requires |t| > 0 && TokenLen(t) == |t| && Token(t, x, cap) == Output(y)
    ensures Decode(s + t, [], cap) == Output(y)
  {
    DecodeAppend(s, t, [], cap);
    assert t[|t|..] == [];
  }

  /** A back reference whose source equals the bytes that come next reproduces them, even
      when the copied range overlaps its own source. */
  lemma {:induction false} CopyBackMatches(input: seq<Byte>, ip: nat, dist: nat, len: nat)
    requires 1 <= dist <= ip && ip + len <= |input|
    requires input[ip - dist..ip - dist + len] == input[ip..ip + len]
    ensures CopyBack(input[..ip], dist, len) == input[..ip + len]
    decreases len
  {
    if len > 0 {
      var source, dest := input[ip - dist..ip - dist + len], input[ip..ip + len];
      assert input[ip - dist] == source[0] == dest[0] == input[ip];
      assert input[..ip] + [input[ip - dist]] == input[..ip + 1];
      assert input[ip + 1 - dist..ip - dist + len] == source[1..];
      assert input[ip + 1..ip + len] == dest[1..];
      CopyBackMatches(input, ip + 1, dist, len - 1);
    }
  }

  // ----- Compression (lzf_c.c) -----

  type U32 = x: int | 0 <= x < 0x1_0000_0000

  /** The running hash of three bytes, in 32-bit unsigned arithmetic. */
  function First(input: seq<Byte>, ip: nat): U32
    requires ip + 1 < |input|
  {
    input[ip] as int * 256 + input[ip + 1] as int
  }

  function Next(v: U32, input: seq<Byte>, ip: nat): U32
    requires ip + 2 < |input|
  {
    (v % 0x100_0000) * 256 + input[ip + 2] as int
  }

  /** The VERY_FAST table index: ((h >> 8) - h * 5) & 0xFFFF. */
  function Index(h: U32): (i: int)
    ensures 0 <= i < HSIZE
  {
    (h / 256 - h * 5) % HSIZE
  }

  /** The three bytes at a position, and the slot of the match table they have. */
  function Three(input: seq<Byte>, ip: nat): U32
    requires ip + 2 < |input|
  {
    input[ip] as int * 0x1_0000 + input[ip + 1] as int * 256 + input[ip + 2] as int
  }

  function Home(input: seq<Byte>, ip: nat): (i: int)
    requires ip + 2 < |input|
    ensures 0 <= i < HSIZE
  {
    Index(Three(input, ip))
  }

  /** Of the running hash only the last three bytes count. */
  lemma IndexOfThree(h: U32)
    ensures Index(h) == Index(h % 0x100_0000)
  {
    var q, r := h / 0x100_0000, h % 0x100_0000;
    assert h == q * 0x100_0000 + r && h / 256 == q * 0x1_0000 + r / 256;
    var a := r / 256 - r * 5;
    assert h / 256 - h * 5 == a + HSIZE * (-1279 * q);
    SameRemainder(a, -1279 * q);
  }

  lemma SameRemainder(a: int, k: int)
    ensures (a + HSIZE * k) % HSIZE == a % HSIZE
  {}

  /** Two triples of bytes that differ in the first two bytes only never share a slot. */
  lemma IndexSpreads(q: nat, q': nat, r: nat)
    requires q < 0x1_0000 && q' < 0x1_0000 && r < 256
    requires Index(q * 256 + r) == Index(q' * 256 + r)
    ensures q == q'
  {
    SlotOf(q, r);
    SlotOf(q', r);
    var d := q - q';
    assert (q - (q * 256 + r) * 5) - (q' - (q' * 256 + r) * 5) == -1279 * d;
    EqualRemainders(q - (q * 256 + r) * 5, q' - (q' * 256 + r) * 5);
    assert 1279 * d % HSIZE == 0 by { Negated(-1279 * d); }
    assert 1279 * 64255 == 1 + HSIZE * 1254;
    var k := 1279 * d / HSIZE;
    assert 1279 * d == HSIZE * k;
    assert 64255 * (1279 * d) == d + HSIZE * (1254 * d);
    assert d == HSIZE * (64255 * k - 1254 * d);
  }

  lemma SlotOf(q: nat, r: nat)
    requires q < 0x1_0000 && r < 256
    ensures Index(q * 256 + r) == (q - (q * 256 + r) * 5) % HSIZE
  {
    assert (q * 256 + r) / 256 == q;
  }

  lemma EqualRemainders(a: int, b: int)
    requires a % HSIZE == b % HSIZE
    ensures (a - b) % HSIZE == 0
  {}

  lemma Negated(a: int) requires a % HSIZE == 0 ensures -a % HSIZE == 0 {}

  /** The running hash brought forward by one byte. */
  lemma NextThree(v: U32, input: seq<Byte>, ip: nat)
    requires ip + 2 < |input| && v % 0x1_0000 == First(input, ip)
    ensures Index(Next(v, input, ip)) == Home(input, ip)
    ensures Next(v, input, ip) % 0x1_0000 == First(input, ip + 1)
  {
    hide Index;
    LastThree(v, input[ip] as int, input[ip + 1] as int, input[ip + 2] as int);
    IndexOfThree(Next(v, input, ip));
  }

  lemma LastThree(v: U32, a: nat, b: nat, c: nat)
    requires a < 256 && b < 256 && c < 256 && v % 0x1_0000 == a * 256 + b
    ensures var n := (v % 0x100_0000) * 256 + c;
            n % 0x100_0000 == a * 0x1_0000 + b * 256 + c && n % 0x1_0000 == b * 256 + c
  {
    var q := v % 0x100_0000 / 0x1_0000;
    LowPart(v);
    assert v % 0x100_0000 == q * 0x1_0000 + (a * 256 + b);
    Remainder24(q, a * 0x1_0000 + b * 256 + c);
    Remainder16(q * 256 + a, b * 256 + c);
  }

  lemma LowPart(v: U32) ensures v % 0x100_0000 % 0x1_0000 == v % 0x1_0000 {}

  lemma Remainder24(q: nat, r: nat) requires r < 0x100_0000 ensures (q * 0x100_0000 + r) % 0x100_0000 == r {}
  lemma Remainder16(q: nat, r: nat) requires r < 0x1_0000 ensures (q * 0x1_0000 + r) % 0x1_0000 == r {}

  /** The `n` bytes at `b` repeat those at `a`. */
  predicate Repeats(input: seq<Byte>, a: nat, b: nat, n: nat)
    requires a <= b && b + n <= |input|
  {
    input[a..a + n] == input[b..b + n]
  }

  lemma RepeatsIs(input: seq<Byte>, a: nat, b: nat, n: nat)
    requires a <= b && b + n <= |input|
    ensures Repeats(input, a, b, n) <==> input[a..a + n] == input[b..b + n]
  {}

  lemma ExtendMatch(input: seq<Byte>, a: nat, b: nat, n: nat)
    requires a <= b && b + n < |input| && Repeats(input, a, b, n) && input[a + n] == input[b + n]
    ensures Repeats(input, a, b, n + 1)
  {
    assert input[a..a + n + 1] == input[a..a + n] + [input[a + n]];
    assert input[b..b + n + 1] == input[b..b + n] + [input[b + n]];
  }

  /** How far the bytes of a match are compared. Once the bytes compared without a bound test have
      been begun with, all sixteen are. */
  function Reach(input: seq<Byte>, ip: nat): (n: nat)
    requires ip + 3 <= |input|
    ensures 1 <= n <= MAX_REF && ip + n <= |input|
  {
    var maxlen := if |input| - ip - 2 > MAX_REF then MAX_REF else |input| - ip - 2;
    if 16 < maxlen < 19 then 19 else maxlen
  }

  /** The length a match of at least `len` bytes has. */
  function Longest(input: seq<Byte>, ref: nat, ip: nat, len: nat, bound: nat): (n: nat)
    requires ref < ip && ip + len <= |input| && ip + bound <= |input|
    ensures len <= n && (n <= len || n <= bound)
    decreases bound - len
  {
    if len < bound && input[ref + len] == input[ip + len] then Longest(input, ref, ip, len + 1, bound) else len
  }

  lemma LongestStep(input: seq<Byte>, ref: nat, ip: nat, len: nat)
    requires ref < ip && ip + 3 <= |input| && ip + len <= |input|
    ensures var bound := Reach(input, ip);
            Longest(input, ref, ip, len, bound)
              == if len < bound && input[ref + len] == input[ip + len] then Longest(input, ref, ip, len + 1, bound)
                 else len
  {
    hide Reach;
  }

  lemma ReachIs(input: seq<Byte>, ip: nat, maxlen: nat)
    requires ip + 3 <= |input| && maxlen == if |input| - ip - 2 > MAX_REF then MAX_REF else |input| - ip - 2
    ensures maxlen > 16 ==> Reach(input, ip) == if maxlen < 19 then 19 else maxlen
    ensures maxlen <= 16 ==> Reach(input, ip) == maxlen
    ensures ip + Reach(input, ip) <= |input|
  {}

  /** Length of the match found at `ref`, extended 16 bytes without a bound test while the
      bound is far, then one at a time. */
  method MatchLength(input: seq<Byte>, ref: nat, ip: nat, maxlen: nat) returns (len: nat)
    requires ref < ip && ip + 3 <= |input|
    requires maxlen == if |input| - ip - 2 > MAX_REF then MAX_REF else |input| - ip - 2
    requires input[ref..ref + 3] == input[ip..ip + 3]
    ensures 3 <= len <= MAX_REF && ip + len <= |input|
    ensures input[ref..ref + len] == input[ip..ip + len]
    ensures len < maxlen ==> input[ref + len] != input[ip + len]
    ensures len == Longest(input, ref, ip, 3, Reach(input, ip))
  {
    hide Repeats, Longest, Reach;
    ghost var bound := Reach(input, ip);
    ReachIs(input, ip, maxlen);
    RepeatsIs(input, ref, ip, 3);
    len := 2;
    if maxlen > 16 {
      var steps := 0;
      while steps < 16
        invariant 0 <= steps <= 16 && len == 2 + steps
        invariant Repeats(input, ref, ip, len + 1)
        invariant Longest(input, ref, ip, 3, bound) == Longest(input, ref, ip, len + 1, bound)
      {
        len := len + 1;
        LongestStep(input, ref, ip, len);
        if input[ref + len] != input[ip + len] {
          RepeatsIs(input, ref, ip, len);
          return;
        }
        ExtendMatch(input, ref, ip, len);
        steps := steps + 1;
      }
    }
    len := len + 1;
    while len < maxlen && input[ref + len] == input[ip + len]
      invariant 3 <= len <= MAX_REF && ip + len <= |input|
      invariant Repeats(input, ref, ip, len)
      invariant Longest(input, ref, ip, 3, bound) == Longest(input, ref, ip, len, bound)
    {
      ExtendMatch(input, ref, ip, len);
      LongestStep(input, ref, ip, len);
      len := len + 1;
    }
    LongestStep(input, ref, ip, len);
    RepeatsIs(input, ref, ip, len);
  }

  /** What the compressor keeps between steps: the closed tokens decode to the input up to
      the open literal run, the run holds the bytes since, and every 32 closed literals have
      cost one header byte at most. `op` counts the header of the open run. */
  ghost predicate Emitted(input: seq<Byte>, out: seq<Byte>, ip: nat, op: nat, lit: nat)
  {
    && lit < MAX_LIT && lit <= ip <= |input|
    && lit + 1 <= op && op - 1 <= |out| && (lit > 0 ==> op <= |out|)
    && op <= ip + 1 + (ip - lit) / 32
    && Decode(out[..op - lit - 1], [], |input|) == Output(input[..ip - lit])
    && (lit > 0 ==> out[op - lit..op] == input[ip - lit..ip])
  }

  /** The open run of `lit` literals with its header; nothing if it is empty. */
  function Run(input: seq<Byte>, ip: nat, lit: nat): (t: seq<Byte>)
    requires lit <= MAX_LIT && lit <= ip <= |input|
    ensures |t| == if lit == 0 then 0 else lit + 1
  {
    if lit == 0 then [] else [(lit - 1) as Byte] + input[ip - lit..ip]
  }

  lemma EmptyRun(input: seq<Byte>, ip: nat, s: seq<Byte>)
    requires ip <= |input|
    ensures s == s + Run(input, ip, 0)
  {}

  /** A closed literal run is a token for exactly those literals. */
  lemma RunToken(input: seq<Byte>, ip: nat, lit: nat)
    requires 0 < lit <= MAX_LIT && lit <= ip <= |input|
    ensures var t := [(lit - 1) as Byte] + input[ip - lit..ip];
            TokenLen(t) == |t| && Token(t, input[..ip - lit], |input|) == Output(input[..ip])
  {
    var t := [(lit - 1) as Byte] + input[ip - lit..ip];
    assert t[1..lit + 1] == input[ip - lit..ip];
    assert input[..ip - lit] + input[ip - lit..ip] == input[..ip];
  }

  lemma CloseRun(input: seq<Byte>, out: seq<Byte>, closed: seq<Byte>, ip: nat, op: nat, lit: nat)
    requires 0 < lit <= MAX_LIT && lit <= ip <= |input| && lit + 1 <= op <= |out|
    requires Decode(out[..op - lit - 1], [], |input|) == Output(input[..ip - lit])
    requires out[op - lit..op] == input[ip - lit..ip]
    requires closed == out[op - lit - 1 := (lit - 1) as Byte]
    ensures Decode(closed[..op], [], |input|) == Output(input[..ip])
    ensures closed[..op] == out[..op - lit - 1] + Run(input, ip, lit)
  {
    var s, t := out[..op - lit - 1], [(lit - 1) as Byte] + input[ip - lit..ip];
    RunToken(input, ip, lit);
    AppendToken(s, t, input[..ip - lit], input[..ip], |input|);
    SplitAtHeader(out, closed, input[ip - lit..ip], op, lit);
  }

  lemma SplitAtHeader(out: seq<Byte>, closed: seq<Byte>, run: seq<Byte>, op: nat, lit: nat)
    requires lit + 1 <= op <= |out| && 0 < lit <= MAX_LIT
    requires out[op - lit..op] == run && closed == out[op - lit - 1 := (lit - 1) as Byte]
    ensures closed[..op] == out[..op - lit - 1] + ([(lit - 1) as Byte] + run)
  {
    assert closed[op - lit..op] == run;
  }

  /** The two- or three-byte token written for a match of `len` bytes at distance off + 1. */
  function MatchToken(off: nat, len: nat): (t: seq<Byte>)
    requires off < MAX_OFF && 3 <= len <= MAX_REF
  {
    if len - 2 < 7 then [(off / 256 + (len - 2) * 32) as Byte, (off % 256) as Byte]
    else [(off / 256 + 7 * 32) as Byte, (len - 9) as Byte, (off % 256) as Byte]
  }

  lemma MatchTokenMeaning(off: nat, len: nat)
    requires off < MAX_OFF && 3 <= len <= MAX_REF
    ensures var t := MatchToken(off, len);
            t[0] as int >= MAX_LIT && TokenLen(t) == |t| && RefLen(t) == len && RefDistance(t) == off + 1
  {
    var hi, l := off / 256, if len - 2 < 7 then len - 2 else 7;
    MatchTokenControl(hi, l);
    assert MatchToken(off, len)[0] as int == hi + l * 32;
  }

  lemma MatchTokenControl(hi: nat, l: nat)
    requires hi < 32 && 1 <= l <= 7
    ensures MAX_LIT <= hi + l * 32 < 256 && (hi + l * 32) / 32 == l && (hi + l * 32) % 32 == hi
  {}

  lemma MatchTokenApplies(input: seq<Byte>, ip: nat, off: nat, len: nat)
    requires off < ip && off < MAX_OFF && 3 <= len <= MAX_REF && ip + len <= |input|
    requires input[ip - off - 1..ip - off - 1 + len] == input[ip..ip + len]
    ensures var t := MatchToken(off, len);
            TokenLen(t) == |t| && Token(t, input[..ip], |input|) == Output(input[..ip + len])
  {
    MatchTokenMeaning(off, len);
    CopyBackMatches(input, ip, off + 1, len);
  }

  /** One literal byte: copied to the output, and the run closed when it is full. Also the
      body of the loop that copies the last bytes. */
  method Literal(input: seq<Byte>, out: array<Byte>, ip: nat, op: nat, lit: nat)
    returns (ip': nat, op': nat, lit': nat)
    requires ip < |input| && op < out.Length && Emitted(input, out[..], ip, op, lit)
    modifies out
    ensures ip' == ip + 1 && Emitted(input, out[..], ip', op', lit')
    ensures out[..op' - lit' - 1]
            == old(out[..op - lit - 1]) + if lit + 1 == MAX_LIT then Run(input, ip', MAX_LIT) else []
    ensures if lit + 1 == MAX_LIT then lit' == 0 && op' == op + 2 else lit' == lit + 1 && op' == op + 1
  {
    hide Decode;
    ghost var before := out[..];
    out[op] := input[ip];
    ip', op', lit' := ip + 1, op + 1, lit + 1;
    assert out[..] == before[op := input[ip]];
    LiteralAdded(input, before, ip, op, lit);
    if lit' == MAX_LIT {
      ghost var full := out[..];
      out[op' - lit' - 1] := (lit' - 1) as Byte;
      CloseRun(input, full, out[..], ip', op', lit');
      lit' := 0;
      op' := op' + 1;
    }
  }

  lemma LiteralAdded(input: seq<Byte>, out: seq<Byte>, ip: nat, op: nat, lit: nat)
    requires ip < |input| && op < |out| && lit <= ip && lit + 1 <= op
    requires lit > 0 ==> out[op - lit..op] == input[ip - lit..ip]
    ensures var out' := out[op := input[ip]];
            out'[..op - lit - 1] == out[..op - lit - 1] && out'[op - lit..op + 1] == input[ip - lit..ip + 1]
  {
    var out' := out[op := input[ip]];
    assert out'[op - lit..op + 1] == out[op - lit..op] + [input[ip]];
    assert input[ip - lit..ip + 1] == input[ip - lit..ip] + [input[ip]];
  }

  /** Write the header of the open run, or undo that header when the run is empty. */
  method CloseOrUndo(input: seq<Byte>, out: array<Byte>, ip: nat, op: nat, lit: nat) returns (op': nat)
    requires op <= out.Length && Emitted(input, out[..], ip, op, lit)
    modifies out
    ensures op' == op - if lit == 0 then 1 else 0
    ensures Decode(out[..op'], [], |input|) == Output(input[..ip])
    ensures out[..op'] == old(out[..op - lit - 1]) + Run(input, ip, lit)
  {
    hide Decode, Run, CopyBack, Token, TokenLen;
    ghost var before := out[..];
    out[op - lit - 1] := ((lit - 1) % 256) as Byte;
    op' := op - if lit == 0 then 1 else 0;
    if lit > 0 {
      CloseRun(input, before, out[..], ip, op, lit);
    } else {
      assert out[..op'] == before[..op'] && input[..ip - lit] == input[..ip];
      EmptyRun(input, ip, out[..op']);
    }
  }

  method WriteMatch(out: array<Byte>, op: nat, off: nat, len: nat) returns (op': nat)
    requires off < MAX_OFF && 3 <= len <= MAX_REF && op + 3 <= out.Length
    modifies out
    ensures op' == op + (if len < 9 then 2 else 3) <= out.Length && out[..op'] == old(out[..op]) + MatchToken(off, len)
  {
    if len - 2 < 7 {
      out[op] := (off / 256 + (len - 2) * 32) as Byte;
      op' := op + 1;
    } else {
      out[op] := (off / 256 + 7 * 32) as Byte;
      out[op + 1] := (len - 9) as Byte;
      op' := op + 2;
    }
    out[op'] := (off % 256) as Byte;
    op' := op' + 1;
  }

  /** The match branch after its space test: end the open run, write the back reference,
      open the next run. */
  method EmitMatch(input: seq<Byte>, out: array<Byte>, ip: nat, op: nat, lit: nat, off: nat, len: nat)
    returns (op': nat)
    requires Emitted(input, out[..], ip, op, lit)
    requires op - (if lit == 0 then 1 else 0) + 4 < out.Length
    requires off < ip && off < MAX_OFF && 3 <= len <= MAX_REF && ip + len <= |input|
    requires input[ip - off - 1..ip - off - 1 + len] == input[ip..ip + len]
    modifies out
    ensures Emitted(input, out[..], ip + len, op', 0)
    ensures op' == op + (if lit == 0 then 0 else 1) + if len < 9 then 2 else 3
    ensures out[..op' - 1] == old(out[..op - lit - 1]) + Run(input, ip, lit) + MatchToken(off, len)
  {
    hide *;
    EmittedSpace(input, out[..], ip, op, lit);
    op' := CloseOrUndo(input, out, ip, op, lit);
    ghost var s := out[..op'];
    op' := WriteMatch(out, op', off, len);
    MatchAppended(input, s, out[..op'], ip, off, len);
    op' := op' + 1;
    EmittedEmpty(input, out[..], ip, op, lit, ip + len, op');
  }

  /** No open run behind a match. */
  lemma EmittedEmpty(input: seq<Byte>, out: seq<Byte>, ip: nat, op: nat, lit: nat, ip': nat, op': nat)
    requires lit <= ip <= |input| && lit + 1 <= op <= ip + 1 + (ip - lit) / MAX_LIT
    requires ip + 3 <= ip' <= |input| && op' == op + (if lit == 0 then 0 else 1) + if ip' - ip < 9 then 2 else 3
    requires 1 <= op' <= |out| + 1 && Decode(out[..op' - 1], [], |input|) == Output(input[..ip'])
    ensures Emitted(input, out, ip', op', 0)
  {
    hide Decode;
  }

  lemma MatchAppended(input: seq<Byte>, s: seq<Byte>, s': seq<Byte>, ip: nat, off: nat, len: nat)
    requires off < ip && off < MAX_OFF && 3 <= len <= MAX_REF && ip + len <= |input|
    requires input[ip - off - 1..ip - off - 1 + len] == input[ip..ip + len]
    requires Decode(s, [], |input|) == Output(input[..ip])
    requires s' == s + MatchToken(off, len)
    ensures Decode(s', [], |input|) == Output(input[..ip + len])
    ensures |s'| == |s| + if len < 9 then 2 else 3
  {
    MatchTokenApplies(input, ip, off, len);
    AppendToken(s, MatchToken(off, len), input[..ip], input[..ip + len], |input|);
  }

  /** What a slot of the match table has to name for a match: an earlier position but the first,
      near enough, with the same three bytes. */
  ghost predicate Candidate(input: seq<Byte>, ref: int, ip: nat)
    requires ip + 3 <= |input|
  {
    0 < ref < ip && ip - ref <= MAX_OFF && input[ref..ref + 3] == input[ip..ip + 3]
  }

  lemma CandidateIs(input: seq<Byte>, ref: int, ip: nat)
    requires ip + 3 <= |input| && 0 < ref < ip
    ensures Candidate(input, ref, ip) <==>
            && ip - ref <= MAX_OFF && input[ref] == input[ip] && input[ref + 1] == input[ip + 1]
            && input[ref + 2] == input[ip + 2]
  {
    var a, b := input[ref..ref + 3], input[ip..ip + 3];
    assert a == [input[ref], input[ref + 1], input[ref + 2]] && b == [input[ip], input[ip + 1], input[ip + 2]];
  }

  /** Look the next three bytes up in the match table, whose slot may hold anything, and
      leave the current position there. */
  method Probe(input: seq<Byte>, htab: array<U32>, hval: U32, ip: nat)
    returns (hval': U32, found: bool, off: int)
    requires ip + 3 <= |input| < 0x1_0000_0000 && htab.Length == HSIZE && hval % 0x1_0000 == First(input, ip)
    modifies htab
    ensures hval' % 0x1_0000 == First(input, ip + 1) && htab[..] == old(htab[..])[Home(input, ip) := ip]
    ensures found <==> Candidate(input, old(htab[Home(input, ip)]), ip)
    ensures found ==> off == ip - old(htab[Home(input, ip)]) - 1
  {
    hide Candidate, Index, Home, Next, First;
    NextThree(hval, input, ip);
    hval' := Next(hval, input, ip);
    var ref := htab[Index(hval')];
    htab[Index(hval')] := ip;
    off := (ip - ref - 1) % 0x1_0000_0000_0000_0000;
    if 0 < ref < ip { CandidateIs(input, ref, ip); } else { NoCandidate(input, ref, ip); }
    found := off < MAX_OFF && ref > 0 && input[ref + 2] == input[ip + 2]
             && input[ref] == input[ip] && input[ref + 1] == input[ip + 1];
  }

  lemma NoCandidate(input: seq<Byte>, ref: U32, ip: nat)
    requires ip + 3 <= |input| < 0x1_0000_0000 && !(0 < ref < ip)
    ensures !Candidate(input, ref, ip) && (ref > 0 ==> (ip - ref - 1) % 0x1_0000_0000_0000_0000 >= MAX_OFF)
  {}

  /** The match branch: false when the output may not have room for the token. */
  method Match(input: seq<Byte>, out: array<Byte>, ip: nat, op: nat, lit: nat, off: nat)
    returns (ok: bool, ip': nat, op': nat)
    requires ip + 3 <= |input| && off < MAX_OFF && off < ip
    requires input[ip - off - 1..ip - off - 1 + 3] == input[ip..ip + 3]
    requires Emitted(input, out[..], ip, op, lit)
    modifies out
    ensures ok <==> op - (if lit == 0 then 1 else 0) + 4 < out.Length
    ensures ok ==> ip + 3 <= ip' <= |input| && ip' - ip <= MAX_REF && Emitted(input, out[..], ip', op', 0)
    ensures ok ==> op' == op + (if lit == 0 then 0 else 1) + if ip' - ip < 9 then 2 else 3
    ensures ok ==> ip' - ip == Longest(input, ip - off - 1, ip, 3, Reach(input, ip))
    ensures ok ==> out[..op' - 1] == old(out[..op - lit - 1]) + Run(input, ip, lit) + MatchToken(off, ip' - ip)
    ensures ok && ip' - ip < MAX_REF && ip' < |input| - 2 ==> input[ip' - off - 1] != input[ip']
    ensures !ok ==> out.Length < |input| + |input| / MAX_LIT + 3
  {
    hide Emitted, Longest, Reach, Run, MatchToken, Decode;
    EmittedSpace(input, out[..], ip, op, lit);
    var maxlen := if |input| - ip - 2 > MAX_REF then MAX_REF else |input| - ip - 2;
    if op + 3 + 1 >= out.Length {
      if op - (if lit == 0 then 1 else 0) + 3 + 1 >= out.Length { return false, ip, op; }
    }
    var len := MatchLength(input, ip - off - 1, ip, maxlen);
    op' := EmitMatch(input, out, ip, op, lit, off, len);
    ok, ip' := true, ip + len;
  }

  /** Behind a match: its last two positions enter the table, and the hash starts again. */
  method Reseed(input: seq<Byte>, htab: array<U32>, ip: nat) returns (hval: U32)
    requires 2 <= ip && ip + 2 < |input| < 0x1_0000_0000 && htab.Length == HSIZE
    modifies htab
    ensures htab[..] == old(htab[..])[Home(input, ip - 2) := ip - 2][Home(input, ip - 1) := ip - 1]
    ensures hval % 0x1_0000 == First(input, ip)
  {
    hide Home, Index, Next, First;
    hval := First(input, ip - 2);
    FirstSmall(input, ip - 2);
    NextThree(hval, input, ip - 2);
    hval := Next(hval, input, ip - 2);
    htab[Index(hval)] := ip - 2;
    NextThree(hval, input, ip - 1);
    hval := Next(hval, input, ip - 1);
    htab[Index(hval)] := ip - 1;
  }

  // ----- What is written -----

  /** The table behind a match that ends at `ip`. */
  ghost function Reseeded(input: seq<Byte>, table: seq<U32>, ip: nat): (t: seq<U32>)
    requires 2 <= ip <= |input| < 0x1_0000_0000 && |table| == HSIZE
    ensures |t| == HSIZE
  {
    if ip + 2 < |input| then table[Home(input, ip - 2) := ip - 2][Home(input, ip - 1) := ip - 1] else table
  }

  /** What the input from `ip` on is written as behind `lit` open literals: the longest match
      where the table names one, else a literal, in runs as long as they may be. */
  ghost function Written(input: seq<Byte>, table: seq<U32>, ip: nat, lit: nat): seq<Byte>
    requires lit < MAX_LIT && lit <= ip <= |input| < 0x1_0000_0000 && |table| == HSIZE
    decreases |input| - ip
  {
    if ip == |input| then Run(input, ip, lit)
    else if ip + 2 < |input| && Candidate(input, table[Home(input, ip)], ip) then
      var ref := table[Home(input, ip)];
      var len := Longest(input, ref, ip, 3, Reach(input, ip));
      Run(input, ip, lit) + MatchToken(ip - ref - 1, len)
        + Written(input, Reseeded(input, table[Home(input, ip) := ip], ip + len), ip + len, 0)
    else
      var t := if ip + 2 < |input| then table[Home(input, ip) := ip] else table;
      if lit + 1 == MAX_LIT then Run(input, ip + 1, MAX_LIT) + Written(input, t, ip + 1, 0)
      else Written(input, t, ip + 1, lit + 1)
  }

  /** At least the open run and a byte more, unless the input is at its end. */
  lemma {:induction false} WrittenLength(input: seq<Byte>, table: seq<U32>, ip: nat, lit: nat)
    requires lit < MAX_LIT && lit <= ip <= |input| < 0x1_0000_0000 && |table| == HSIZE
    ensures |Written(input, table, ip, lit)| >= if ip < |input| then lit + 2 else if lit == 0 then 0 else lit + 1
    ensures ip + 2 < |input| && Candidate(input, table[Home(input, ip)], ip) ==>
            |Written(input, table, ip, lit)| >= (if lit == 0 then 0 else lit + 1) + 2
    decreases |input| - ip
  {
    hide Candidate, Home, Longest, Reach, Reseeded, Run;
    if ip < |input| && !(ip + 2 < |input| && Candidate(input, table[Home(input, ip)], ip)) && lit + 1 < MAX_LIT {
      WrittenLength(input, if ip + 2 < |input| then table[Home(input, ip) := ip] else table, ip + 1, lit + 1);
    }
  }

  /** It decodes to the input, whatever the table holds. */
  lemma {:induction false} WrittenDecodes(input: seq<Byte>, table: seq<U32>, ip: nat, lit: nat, s: seq<Byte>)
    requires lit < MAX_LIT && lit <= ip <= |input| < 0x1_0000_0000 && |table| == HSIZE
    requires Decode(s, [], |input|) == Output(input[..ip - lit])
    ensures Decode(s + Written(input, table, ip, lit), [], |input|) == Output(input)
    decreases |input| - ip
  {
    hide *;
    Limits();
    WrittenIs(input, table, ip, lit);
    if ip == |input| {
      RunDecodes(input, ip, lit, s);
      assert input[..ip] == input;
    } else if ip + 2 < |input| && Candidate(input, table[Home(input, ip)], ip) {
      var ref := table[Home(input, ip)];
      CandidateFacts(input, ref, ip);
      LongestRepeats(input, ref, ip, 3);
      var len := Longest(input, ref, ip, 3, Reach(input, ip));
      var run, token, t := Run(input, ip, lit), MatchToken(ip - ref - 1, len),
                           Reseeded(input, table[Home(input, ip) := ip], ip + len);
      RunDecodes(input, ip, lit, s);
      MatchAppended(input, s + run, s + run + token, ip, ip - ref - 1, len);
      WrittenDecodes(input, t, ip + len, 0, s + run + token);
      Joined(s, run, token);
      Joined(s, run + token, Written(input, t, ip + len, 0));
    } else {
      var t := if ip + 2 < |input| then table[Home(input, ip) := ip] else table;
      if lit + 1 == MAX_LIT {
        RunDecodes(input, ip + 1, MAX_LIT, s);
        WrittenDecodes(input, t, ip + 1, 0, s + Run(input, ip + 1, MAX_LIT));
        Joined(s, Run(input, ip + 1, MAX_LIT), Written(input, t, ip + 1, 0));
      } else {
        WrittenDecodes(input, t, ip + 1, lit + 1, s);
      }
    }
  }

  lemma WrittenIs(input: seq<Byte>, table: seq<U32>, ip: nat, lit: nat)
    requires lit < MAX_LIT && lit <= ip <= |input| < 0x1_0000_0000 && |table| == HSIZE
    ensures ip == |input| ==> Written(input, table, ip, lit) == Run(input, ip, lit)
    ensures ip + 2 < |input| && Candidate(input, table[Home(input, ip)], ip) ==>
            var ref := table[Home(input, ip)];
            && 0 < ref < ip && ip - ref <= MAX_OFF
            && var len := Longest(input, ref, ip, 3, Reach(input, ip));
               && 3 <= len <= MAX_REF && ip + len <= |input|
               && Written(input, table, ip, lit) == Run(input, ip, lit) + MatchToken(ip - ref - 1, len)
                    + Written(input, Reseeded(input, table[Home(input, ip) := ip], ip + len), ip + len, 0)
    ensures ip < |input| && !(ip + 2 < |input| && Candidate(input, table[Home(input, ip)], ip)) ==>
            var t := if ip + 2 < |input| then table[Home(input, ip) := ip] else table;
            Written(input, table, ip, lit)
              == if lit + 1 == MAX_LIT then Run(input, ip + 1, MAX_LIT) + Written(input, t, ip + 1, 0)
                 else Written(input, t, ip + 1, lit + 1)
  {
    hide Home, Reseeded, Run, MatchToken, Longest, Reach;
  }

  lemma RunDecodes(input: seq<Byte>, ip: nat, lit: nat, s: seq<Byte>)
    requires lit <= MAX_LIT && lit <= ip <= |input| && Decode(s, [], |input|) == Output(input[..ip - lit])
    ensures Decode(s + Run(input, ip, lit), [], |input|) == Output(input[..ip])
  {
    hide Decode, Token, TokenLen;
    if lit == 0 {
      assert s + Run(input, ip, lit) == s;
    } else {
      RunToken(input, ip, lit);
      AppendToken(s, Run(input, ip, lit), input[..ip - lit], input[..ip], |input|);
    }
  }

  lemma {:induction false} LongestRepeats(input: seq<Byte>, ref: nat, ip: nat, len: nat)
    requires ref < ip && ip + 3 <= |input| && 3 <= len && ip + len <= |input|
    requires input[ref..ref + len] == input[ip..ip + len]
    ensures var n := Longest(input, ref, ip, len, Reach(input, ip)); input[ref..ref + n] == input[ip..ip + n]
    decreases |input| - len
  {
    hide Reach;
    var bound := Reach(input, ip);
    if len < bound && input[ref + len] == input[ip + len] {
      assert input[ref..ref + len + 1] == input[ref..ref + len] + [input[ref + len]];
      assert input[ip..ip + len + 1] == input[ip..ip + len] + [input[ip + len]];
      LongestRepeats(input, ref, ip, len + 1);
    }
  }

  /** The closed tokens and what is still to be written make up `w`. */
  ghost predicate Behind(input: seq<Byte>, out: seq<Byte>, table: seq<U32>, ip: nat, op: nat, lit: nat, w: seq<Byte>)
    requires |input| < 0x1_0000_0000 && |table| == HSIZE
  {
    && lit < MAX_LIT && lit <= ip <= |input| && lit + 1 <= op <= |out| + 1
    && out[..op - lit - 1] + Written(input, table, ip, lit) == w
  }

  lemma BehindLiteral(input: seq<Byte>, out: seq<Byte>, out': seq<Byte>, table: seq<U32>, ip: nat, op: nat, lit: nat,
                      op': nat, lit': nat, w: seq<Byte>)
    requires |input| < 0x1_0000_0000 && |table| == HSIZE && Behind(input, out, table, ip, op, lit, w) && ip < |input|
    requires !(ip + 2 < |input| && Candidate(input, table[Home(input, ip)], ip))
    requires if lit + 1 == MAX_LIT then lit' == 0 && op' == op + 2 else lit' == lit + 1 && op' == op + 1
    requires op' <= |out'| + 1
    requires out'[..op' - lit' - 1]
             == out[..op - lit - 1] + if lit + 1 == MAX_LIT then Run(input, ip + 1, MAX_LIT) else []
    ensures var t := if ip + 2 < |input| then table[Home(input, ip) := ip] else table;
            Behind(input, out', t, ip + 1, op', lit', w)
  {
    hide Candidate, Home, Longest, Reach, Reseeded, Run, MatchToken;
    var t := if ip + 2 < |input| then table[Home(input, ip) := ip] else table;
    var s := out[..op - lit - 1];
    if lit + 1 == MAX_LIT {
      Joined(s, Run(input, ip + 1, MAX_LIT), Written(input, t, ip + 1, 0));
    } else {
      assert s + [] == s;
    }
  }

  lemma BehindMatch(input: seq<Byte>, out: seq<Byte>, out': seq<Byte>, table: seq<U32>, ip: nat, op: nat, lit: nat,
                    ip': nat, op': nat, w: seq<Byte>)
    requires |input| < 0x1_0000_0000 && |table| == HSIZE && Behind(input, out, table, ip, op, lit, w)
    requires ip + 2 < |input| && Candidate(input, table[Home(input, ip)], ip)
    requires var ref := table[Home(input, ip)];
             && 0 < ref < ip && ip - ref <= MAX_OFF
             && ip' - ip == Longest(input, ref, ip, 3, Reach(input, ip)) && ip' - ip <= MAX_REF
             && 1 <= op' <= |out'| + 1
             && out'[..op' - 1] == out[..op - lit - 1] + Run(input, ip, lit) + MatchToken(ip - ref - 1, ip' - ip)
    ensures ip + 3 <= ip' <= |input|
    ensures Behind(input, out', Reseeded(input, table[Home(input, ip) := ip], ip'), ip', op', 0, w)
  {
    hide Candidate, Home, Reseeded, Run, MatchToken;
    ReachIs(input, ip, if |input| - ip - 2 > MAX_REF then MAX_REF else |input| - ip - 2);
    hide Longest, Reach;
    var ref := table[Home(input, ip)];
    var token := MatchToken(ip - ref - 1, ip' - ip);
    var rest := Written(input, Reseeded(input, table[Home(input, ip) := ip], ip'), ip', 0);
    Joined(out[..op - lit - 1], Run(input, ip, lit), token);
    Joined(out[..op - lit - 1], Run(input, ip, lit) + token, rest);
  }

  /** How much is still to come. */
  lemma BehindLength(input: seq<Byte>, out: seq<Byte>, table: seq<U32>, ip: nat, op: nat, lit: nat, w: seq<Byte>)
    requires |input| < 0x1_0000_0000 && |table| == HSIZE && Behind(input, out, table, ip, op, lit, w)
    ensures lit < MAX_LIT && lit <= ip <= |input| && lit + 1 <= op
    ensures |w| >= op - (if lit == 0 then 1 else 0) && (ip < |input| ==> |w| >= op + 1)
    ensures ip + 2 < |input| && Candidate(input, table[Home(input, ip)], ip) ==>
            |w| >= op - (if lit == 0 then 1 else 0) + 2
  {
    WrittenLength(input, table, ip, lit);
    hide Candidate, Home, Written;
  }

  lemma BehindFirst(input: seq<Byte>, out: seq<Byte>, table: seq<U32>)
    requires |input| < 0x1_0000_0000 && |table| == HSIZE
    ensures Behind(input, out, table, 0, 1, 0, Written(input, table, 0, 0))
  {
    assert out[..0] + Written(input, table, 0, 0) == Written(input, table, 0, 0);
  }

  lemma ReseededIs(input: seq<Byte>, table: seq<U32>, ip: nat)
    requires 2 <= ip <= |input| < 0x1_0000_0000 && |table| == HSIZE
    ensures ip + 2 < |input| ==>
            Reseeded(input, table, ip) == table[Home(input, ip - 2) := ip - 2][Home(input, ip - 1) := ip - 1]
    ensures ip + 2 >= |input| ==> Reseeded(input, table, ip) == table
  {
    hide Home;
  }

  lemma Joined(a: seq<Byte>, b: seq<Byte>, c: seq<Byte>)
    ensures a + b + c == a + (b + c)
  {}

  /** All bytes are the same. */
  ghost predicate Uniform(input: seq<Byte>) { forall i :: 0 <= i < |input| ==> input[i] == input[0] }

  /** How many matches, after the first, such an input takes. */
  ghost function Matches(n: nat): nat { if n < 5 then 0 else (n - 5) / MAX_REF }

  /** Where the main loop is in such an input: it has copied two literals at most, or made `j`
      matches, all of full length unless it is at the end. */
  ghost predicate Repeating(input: seq<Byte>, table: seq<U32>, ip: nat, op: nat, lit: nat, j: nat)
    requires |table| == HSIZE
  {
    if j == 0 then
      ip <= 2 && lit == ip && op == ip + 1 && (0 < ip && ip + 2 < |input| ==> table[Home(input, ip)] == ip - 1)
    else
      && lit == 0 && op <= 4 + 3 * j && MAX_REF * (j - 1) + 4 < |input|
      && (ip < |input| - 2 ==> ip == 2 + MAX_REF * j && table[Home(input, ip)] == ip - 1)
  }

  lemma SameHome(input: seq<Byte>, a: nat, b: nat)
    requires Uniform(input) && a + 2 < |input| && b + 2 < |input|
    ensures Home(input, a) == Home(input, b)
  {}

  lemma SameThree(input: seq<Byte>, a: nat, b: nat)
    requires Uniform(input) && 0 < a < b && b + 3 <= |input| && b - a <= MAX_OFF
    ensures Candidate(input, a, b)
  {
    CandidateIs(input, a, b);
    hide Candidate;
  }

  /** A probe at the third byte or later finds a match, one before does not. */
  lemma RepeatingProbe(input: seq<Byte>, table: seq<U32>, ip: nat, op: nat, lit: nat, j: nat)
    requires |table| == HSIZE && Uniform(input) && Repeating(input, table, ip, op, lit, j) && ip + 2 < |input|
    ensures Candidate(input, table[Home(input, ip)], ip) <==> ip >= 2
    ensures ip >= 2 ==> table[Home(input, ip)] == ip - 1
  {
    if ip >= 2 { SameThree(input, ip - 1, ip); }
    hide Uniform, Home;
  }

  /** A literal at the start. */
  lemma RepeatingLiteral(input: seq<Byte>, table: seq<U32>, ip: nat, op: nat, lit: nat, j: nat)
    requires |table| == HSIZE && Uniform(input) && Repeating(input, table, ip, op, lit, j) && ip + 2 < |input| && ip < 2
    ensures var table' := table[Home(input, ip) := ip];
            lit == ip && op == ip + 1 && Repeating(input, table', ip + 1, op + 1, lit + 1, j)
  {
    if ip + 3 < |input| { SameHome(input, ip, ip + 1); }
    hide Uniform, Home;
  }

  /** A match: it has full length or ends the loop. */
  lemma RepeatingMatch(input: seq<Byte>, table: seq<U32>, table': seq<U32>, ip: nat, op: nat, lit: nat, j: nat,
                       ip': nat, op': nat)
    requires |table| == |table'| == HSIZE && Uniform(input) && Repeating(input, table, ip, op, lit, j)
    requires 2 <= ip && ip + 2 < |input|
    requires ip + 3 <= ip' <= |input| && ip' - ip <= MAX_REF && (ip' < |input| - 2 ==> ip' - ip == MAX_REF)
    requires op' <= op + (if lit == 0 then 0 else 1) + 3
    requires ip' < |input| - 2 ==> table'[Home(input, ip' - 1)] == ip' - 1
    ensures Repeating(input, table', ip', op', 0, j + 1)
  {
    if ip' < |input| - 2 { SameHome(input, ip' - 1, ip'); }
    hide Uniform, Home;
  }

  /** There is room for the next match, and at the end for what is left. */
  lemma RepeatingRoom(input: seq<Byte>, table: seq<U32>, ip: nat, op: nat, lit: nat, j: nat, cap: nat)
    requires |table| == HSIZE && Repeating(input, table, ip, op, lit, j)
    requires |input| >= 5 && cap >= 10 + 3 * Matches(|input|)
    ensures ip < |input| - 2 ==> op - (if lit == 0 then 1 else 0) + 4 < cap
    ensures ip >= |input| - 2 ==> lit == 0 && op <= 7 + 3 * Matches(|input|)
  {
    var n := |input|;
    if j > 0 && MAX_REF * (j - 1) <= n - 5 { Quotient(n - 5, j - 1); }
    if j > 0 && ip < n - 2 { Quotient(n - 5, j); }
  }

  lemma Quotient(n: nat, j: nat)
    requires MAX_REF * j <= n
    ensures j <= n / MAX_REF
  {}

  /** The match branch with what it does to the table. */
  method MatchStep(input: seq<Byte>, out: array<Byte>, htab: array<U32>, hval: U32, ip: nat, op: nat, lit: nat,
                   off: int, ghost table: seq<U32>, ghost j: nat, ghost w: seq<Byte>)
    returns (ok: bool, ip': nat, op': nat, hval': U32)
    requires ip + 2 < |input| < 0x1_0000_0000 && htab.Length == HSIZE == |table| && htab != out as object
    requires Emitted(input, out[..], ip, op, lit) && Behind(input, out[..], table, ip, op, lit, w)
    requires Uniform(input) ==> Repeating(input, table, ip, op, lit, j) && ip >= 2
    requires htab[..] == table[Home(input, ip) := ip]
    requires Candidate(input, table[Home(input, ip)], ip) && off == ip - table[Home(input, ip)] - 1
    modifies out, htab
    ensures ok <==> op - (if lit == 0 then 1 else 0) + 4 < out.Length
    ensures !ok ==> out.Length < |input| + |input| / MAX_LIT + 3
    ensures ok ==> Emitted(input, out[..], ip', op', 0) && Behind(input, out[..], htab[..], ip', op', 0, w)
    ensures ok ==> ip < ip' && (ip' < |input| - 2 ==> hval' % 0x1_0000 == First(input, ip'))
    ensures ok && Uniform(input) ==> Repeating(input, htab[..], ip', op', 0, j + 1)
  {
    hide *;
    Limits();
    ghost var outs := out[..];
    hval' := hval;
    CandidateFacts(input, table[Home(input, ip)], ip);
    ok, ip', op' := Match(input, out, ip, op, lit, off);
    if !ok { return; }
    BehindMatch(input, outs, out[..], table, ip, op, lit, ip', op', w);
    ReseededIs(input, table[Home(input, ip) := ip], ip');
    if ip' < |input| - 2 {
      hval' := Reseed(input, htab, ip');
      if Uniform(input) && ip' - ip < MAX_REF { UniformAt(input, ip' - off - 1, ip'); }
    }
    if Uniform(input) { RepeatingMatch(input, table, htab[..], ip, op, lit, j, ip', op'); }
  }

  /** The main loop: false when the output is too small. The first hash reads two bytes; the one
      behind an input of a single byte may be anything, and the hash is then not used. */
  method Scan(input: seq<Byte>, out: array<Byte>, htab: array<U32>)
    returns (ok: bool, ip: nat, op: nat, lit: nat)
    requires 1 <= |input| < 0x1_0000_0000 && htab.Length == HSIZE && htab != out as object
    modifies out, htab
    ensures ok ==> |input| - 2 <= ip && Emitted(input, out[..], ip, op, lit)
    ensures ok ==> Behind(input, out[..], htab[..], ip, op, lit, Written(input, old(htab[..]), 0, 0))
    ensures !ok ==> out.Length < |input| + |input| / MAX_LIT + 3
    ensures !ok ==> out.Length < |Written(input, old(htab[..]), 0, 0)| + 3
    ensures Uniform(input) && |input| >= 5 && out.Length >= 10 + 3 * Matches(|input|) ==>
            ok && lit == 0 && op <= 7 + 3 * Matches(|input|)
  {
    hide *;
    Limits();
    ghost var w := Written(input, htab[..], 0, 0);
    BehindFirst(input, out[..], htab[..]);
    ip, op, lit := 0, 1, 0;
    EmittedFirst(input, out[..]);
    RepeatingFirst(input, htab[..]);
    ghost var j := 0;
    var hval: U32 := *;
    if |input| > 1 {
      hval := First(input, ip);
      FirstSmall(input, ip);
    }
    while ip < |input| - 2
      invariant Emitted(input, out[..], ip, op, lit) && (ip < |input| - 2 ==> hval % 0x1_0000 == First(input, ip))
      invariant Uniform(input) ==> Repeating(input, htab[..], ip, op, lit, j)
      invariant Behind(input, out[..], htab[..], ip, op, lit, w)
    {
      EmittedSpace(input, out[..], ip, op, lit);
      BehindLength(input, out[..], htab[..], ip, op, lit, w);
      ghost var table, outs, ip0, op0, lit0 := htab[..], out[..], ip, op, lit;
      if Uniform(input) {
        RepeatingProbe(input, table, ip, op, lit, j);
        if |input| >= 5 && out.Length >= 10 + 3 * Matches(|input|) {
          RepeatingRoom(input, table, ip, op, lit, j, out.Length);
        }
      }
      var found, off;
      hval, found, off := Probe(input, htab, hval, ip);
      if found {
        ok, ip, op, hval := MatchStep(input, out, htab, hval, ip, op, lit, off, table, j, w);
        lit := 0;
        if !ok { return; }
        j := j + 1;
        if ip >= |input| - 2 { break; }
      } else {
        if op >= out.Length { return false, ip, op, lit; }
        if Uniform(input) { RepeatingLiteral(input, table, ip, op, lit, j); }
        ip, op, lit := Literal(input, out, ip, op, lit);
        BehindLiteral(input, outs, out[..], table, ip0, op0, lit0, op, lit, w);
      }
    }
    if Uniform(input) && |input| >= 5 && out.Length >= 10 + 3 * Matches(|input|) {
      RepeatingRoom(input, htab[..], ip, op, lit, j, out.Length);
    }
    ok := true;
  }

  lemma Limits()
    ensures MAX_LIT == 32 && MAX_OFF == 8192 && MAX_REF == 264 && HSIZE == 65536
  {}

  lemma EmittedFirst(input: seq<Byte>, out: seq<Byte>)
    requires |input| > 0
    ensures Emitted(input, out, 0, 1, 0)
  {}

  lemma RepeatingFirst(input: seq<Byte>, table: seq<U32>)
    requires |table| == HSIZE
    ensures Repeating(input, table, 0, 1, 0, 0)
  {}

  lemma FirstSmall(input: seq<Byte>, ip: nat)
    requires ip + 1 < |input|
    ensures First(input, ip) % 0x1_0000 == First(input, ip)
  {}

  lemma UniformAt(input: seq<Byte>, a: nat, b: nat)
    requires Uniform(input) && a < |input| && b < |input|
    ensures input[a] == input[b]
  {}

  /** What the output has taken so far is little more than the input read. */
  lemma EmittedSpace(input: seq<Byte>, out: seq<Byte>, ip: nat, op: nat, lit: nat)
    requires Emitted(input, out, ip, op, lit)
    ensures lit < MAX_LIT && lit <= ip <= |input| && lit + 1 <= op <= |out| + 1
    ensures op <= ip + 1 + (ip - lit) / MAX_LIT && op <= ip + 1 + ip / MAX_LIT
  {
    hide Decode;
  }

  lemma CandidateFacts(input: seq<Byte>, ref: int, ip: nat)
    requires ip + 3 <= |input| && Candidate(input, ref, ip)
    ensures 0 < ref < ip && ip - ref <= MAX_OFF && input[ref..ref + 3] == input[ip..ip + 3]
  {}

  lemma WrittenEnd(input: seq<Byte>, out: seq<Byte>, table: seq<U32>, op: nat, lit: nat, w: seq<Byte>)
    requires |input| < 0x1_0000_0000 && |table| == HSIZE && Behind(input, out, table, |input|, op, lit, w)
    ensures lit < MAX_LIT && lit <= |input| && lit + 1 <= op <= |out| + 1
    ensures out[..op - lit - 1] + Run(input, |input|, lit) == w
  {
    hide Run, Home, Candidate;
  }

  /** The last bytes, too few for a match, as literals. */
  method LastLiterals(input: seq<Byte>, out: array<Byte>, ip0: nat, op0: nat, lit0: nat, ghost table: seq<U32>,
                      ghost w: seq<Byte>)
    returns (op: nat, lit: nat)
    requires |input| - 2 <= ip0 <= |input| < 0x1_0000_0000 && |table| == HSIZE && op0 + 3 <= out.Length
    requires Emitted(input, out[..], ip0, op0, lit0) && Behind(input, out[..], table, ip0, op0, lit0, w)
    modifies out
    ensures Emitted(input, out[..], |input|, op, lit) && Behind(input, out[..], table, |input|, op, lit, w)
    ensures op <= out.Length && (lit0 == 0 ==> op == op0 + (|input| - ip0))
  {
    hide *;
    Limits();
    var ip: nat;
    ip, op, lit := ip0, op0, lit0;
    while ip < |input|
      invariant ip0 <= ip <= |input| && Emitted(input, out[..], ip, op, lit)
      invariant op + (|input| - ip) + (if lit + |input| - ip >= MAX_LIT then 1 else 0) <= out.Length
      invariant lit0 == 0 ==> lit == ip - ip0 && op == op0 + (ip - ip0)
      invariant Behind(input, out[..], table, ip, op, lit, w)
    {
      ghost var outs, op1, lit1 := out[..], op, lit;
      EmittedSpace(input, outs, ip, op, lit);
      ip, op, lit := Literal(input, out, ip, op, lit);
      BehindLiteral(input, outs, out[..], table, ip - 1, op1, lit1, op, lit, w);
    }
  }

  /** lzf_compress, for any initial content of the match table `htab`. */
  method Compress(input: seq<Byte>, out: array<Byte>, htab: array<U32>) returns (n: nat)
    requires |input| < 0x1_0000_0000
    requires htab.Length == HSIZE && htab != out as object
    modifies out, htab
    ensures n > 0 ==> n <= out.Length && Decode(out[..n], [], |input|) == Output(input)
    ensures n > 0 ==> out[..n] == Written(input, old(htab[..]), 0, 0)
    ensures |input| >= 1 && out.Length >= |Written(input, old(htab[..]), 0, 0)| + 4 ==> n > 0
    ensures n <= |input| + |input| / MAX_LIT + 1
    ensures |input| >= 1 && out.Length >= |input| + |input| / MAX_LIT + 4 ==> n > 0
    ensures Uniform(input) && |input| >= 5 && out.Length >= 10 + 3 * Matches(|input|) ==>
            0 < n <= 9 + 3 * Matches(|input|)
  {
    hide *;
    Limits();
    if |input| == 0 || out.Length == 0 { return 0; }
    ghost var w := Written(input, htab[..], 0, 0);
    WrittenLength(input, htab[..], 0, 0);
    var ok: bool, ip: nat, op: nat, lit: nat := Scan(input, out, htab);
    if ok {
      BehindLength(input, out[..], htab[..], ip, op, lit, w);
      EmittedSpace(input, out[..], ip, op, lit);
    }
    if !ok || op + 3 > out.Length { return 0; }
    op, lit := LastLiterals(input, out, ip, op, lit, htab[..], w);
    WrittenEnd(input, out[..], htab[..], op, lit, w);
    EmittedSpace(input, out[..], |input|, op, lit);
    n := CloseOrUndo(input, out, |input|, op, lit);
    assert input[..|input|] == input;
  }

  // ----- Decompression (lzf_d.c) -----

  /** One octet-by-octet copy, as both the unrolled switch and the overlapping case do it. */
  method CopyOctets(out: array<Byte>, op: nat, ref: nat, len: nat)
    requires ref < op && op + len <= out.Length
    modifies out
    ensures out[..op + len] == CopyBack(old(out[..op]), op - ref, len)
  {
    ghost var start := out[..op];
    var i := 0;
    assert out[..op + i] == start;
    while i < len
      invariant 0 <= i <= len
      invariant CopyBack(start, op - ref, len) == CopyBack(out[..op + i], op - ref, len - i)
    {
      ghost var before := out[..op + i];
      out[op + i] := out[ref + i];
      assert out[..op + i + 1] == before + [before[ref + i]];
      i := i + 1;
    }
  }

  /** When the source lies wholly behind the output, one block move does the same. */
  lemma {:induction false} CopyBackDisjoint(out: seq<Byte>, dist: nat, len: nat)
    requires len <= dist <= |out| && 1 <= dist
    ensures CopyBack(out, dist, len) == out + out[|out| - dist..|out| - dist + len]
    decreases len
  {
    var ref := |out| - dist;
    if len == 0 {
      assert out + out[ref..ref] == out;
    } else {
      var o := out + [out[ref]];
      CopyBackDisjoint(o, dist, len - 1);
      assert |o| - dist == ref + 1;
      hide CopyBack;
      OneThenRest(out, ref, len);
    }
  }

  lemma OneThenRest(out: seq<Byte>, ref: nat, len: nat)
    requires 0 < len && ref + len <= |out|
    ensures var o := out + [out[ref]]; o + o[ref + 1..ref + len] == out + out[ref..ref + len]
  {
    var o := out + [out[ref]];
    assert o[ref + 1..ref + len] == out[ref + 1..ref + len];
    assert out[ref..ref + len] == [out[ref]] + out[ref + 1..ref + len];
  }

  datatype Step = Step(ip: nat, op: nat, err: Decoded)

  /** The state after one pass of the decoding loop, against the token at its start. */
  ghost predicate Took(input: seq<Byte>, start: seq<Byte>, out: seq<Byte>, ip: nat, s: Step)
    requires ip < |input|
  {
    var token := Token(input[ip..], start, |out|);
    if token.Output? then
      && s.err.Output? && ip < s.ip <= |input| && |start| < s.op <= |out|
      && s.ip == ip + TokenLen(input[ip..]) && token == Output(out[..s.op])
    else
      s.err == token
  }

  method LiteralRun(input: seq<Byte>, out: array<Byte>, ip: nat, op: nat) returns (s: Step)
    requires ip < |input| && op <= out.Length && input[ip] as int < MAX_LIT
    modifies out
    ensures Took(input, old(out[..op]), out[..], ip, s)
  {
    var ctrl := input[ip] as int + 1;
    if op + ctrl > out.Length { return Step(ip + 1, op, TooBig); }
    if ip + 1 + ctrl > |input| { return Step(ip + 1, op, Invalid); }
    ghost var rest, start := input[ip..], out[..op];
    forall i | 0 <= i < ctrl { out[op + i] := input[ip + 1 + i]; }
    assert out[..op + ctrl] == start + rest[1..1 + ctrl];
    return Step(ip + 1 + ctrl, op + ctrl, Output([]));
  }

  method BackReference(input: seq<Byte>, out: array<Byte>, ip0: nat, op: nat) returns (s: Step)
    requires ip0 < |input| && op <= out.Length && input[ip0] as int >= MAX_LIT
    modifies out
    ensures Took(input, old(out[..op]), out[..], ip0, s)
  {
    var ctrl, ip := input[ip0] as int, ip0 + 1;
    var len := ctrl / 32;
    var ref := op - (ctrl % 32) * 256 - 1;
    if ip >= |input| { return Step(ip, op, Invalid); }
    if len == 7 {
      len := len + input[ip] as int;
      ip := ip + 1;
      if ip >= |input| { return Step(ip, op, Invalid); }
    }
    ref := ref - input[ip] as int;
    ip := ip + 1;
    assert RefLen(input[ip0..]) == len + 2 && op - RefDistance(input[ip0..]) == ref;
    if op + len + 2 > out.Length { return Step(ip, op, TooBig); }
    if ref < 0 { return Step(ip, op, Invalid); }
    CopyFromBehind(out, op, ref, len);
    return Step(ip, op + len + 2, Output([]));
  }

  /** The three ways the code copies `len + 2` bytes, by one result. */
  method CopyFromBehind(out: array<Byte>, op: nat, ref: nat, len: nat)
    requires ref < op && op + len + 2 <= out.Length
    modifies out
    ensures out[..op + len + 2] == CopyBack(old(out[..op]), op - ref, len + 2)
  {
    if len > 9 && op >= ref + len + 2 {
      ghost var start := out[..op];
      CopyBackDisjoint(start, op - ref, len + 2);
      forall i | 0 <= i < len + 2 { out[op + i] := out[ref + i]; }
      assert out[..op + len + 2] == start + start[ref..ref + len + 2];
    } else {
      CopyOctets(out, op, ref, len + 2);
    }
  }

  /** One pass consumes the token it stands for. */
  lemma DecodeRound(input: seq<Byte>, start: seq<Byte>, out: seq<Byte>, ip: nat, s: Step)
    requires ip < |input| && Took(input, start, out, ip, s)
    ensures !s.err.Output? ==> Decode(input[ip..], start, |out|) == s.err
    ensures s.err.Output? ==> ip < s.ip <= |input| && s.op <= |out| && |start| < s.op
    ensures s.err.Output? ==> Decode(input[ip..], start, |out|) == Decode(input[s.ip..], out[..s.op], |out|)
  {
    hide CopyBack, RefLen, RefDistance, Token;
    var token := Token(input[ip..], start, |out|);
    if token.Output? { assert input[ip..][s.ip - ip..] == input[s.ip..]; }
  }

  lemma DecodeNone(out: seq<Byte>, cap: nat)
    ensures Decode([], out, cap) == Output(out)
  {}

  /** lzf_decompress: `err` is set where errno is, and the result is then 0. */
  method Decompress(input: seq<Byte>, out: array<Byte>) returns (n: nat, err: Decoded)
    requires |input| > 0
    modifies out
    ensures var d := Decode(input, [], out.Length);
            if d.Output? then err.Output? && 0 < n == |d.bytes| <= out.Length && out[..n] == d.bytes
            else n == 0 && err == d
  {
    hide *;
    var s := Step(0, 0, Output([]));
    assert input[0..] == input && out[..0] == [];
    while true
      invariant s.ip < |input| && s.op <= out.Length
      invariant Decode(input, [], out.Length) == Decode(input[s.ip..], out[..s.op], out.Length)
      decreases |input| - s.ip
    {
      ghost var ip, start := s.ip, out[..s.op];
      if input[s.ip] as int < MAX_LIT {
        s := LiteralRun(input, out, s.ip, s.op);
      } else {
        s := BackReference(input, out, s.ip, s.op);
      }
      DecodeRound(input, start, out[..], ip, s);
      if !s.err.Output? { return 0, s.err; }
      assert out[..][..s.op] == out[..s.op];
      if s.ip >= |input| {
        assert input[s.ip..] == [];
        break;
      }
    }
    DecodeNone(out[..s.op], out.Length);
    n, err := s.op, Output([]);
  }

  /** The round trip, whatever the match table held before. */
  method RoundTrip(input: seq<Byte>, packed: array<Byte>, htab: array<U32>, restored: array<Byte>)
    returns (n: nat, m: nat)
    requires 1 <= |input| < 0x1_0000_0000 && restored.Length == |input|
    requires htab.Length == HSIZE && htab != packed as object && packed != restored
    modifies packed, htab, restored
    ensures n > 0 ==> m == |input| && restored[..] == input
    ensures packed.Length >= |input| + |input| / MAX_LIT + 4 ==> n > 0
  {
    n := Compress(input, packed, htab);
    if n > 0 {
      var err;
      m, err := Decompress(packed[..n], restored);
      assert restored[..m] == restored[..];
    } else {
      m := 0;
    }
  }
}
