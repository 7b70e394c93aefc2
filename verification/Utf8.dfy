/** The table-driven UTF-8 decoder and the streaming validator of examples/autobahn/server.go,
    against the definition of UTF-8 in RFC 3629. */
module Utf8 {
  import opened Masking

  // The code: the packed table utf8d, written sixteen entries to a row. The first sixteen rows give the
  // class of each byte; the other nine give, for each state, the next state by class.

  const CLASS_0 := [0, 0, 0, 0, 0, 0, 0, 0, 0, 0, 0, 0, 0, 0, 0, 0]
  const CLASS_1 := [0, 0, 0, 0, 0, 0, 0, 0, 0, 0, 0, 0, 0, 0, 0, 0]
  const CLASS_2 := [0, 0, 0, 0, 0, 0, 0, 0, 0, 0, 0, 0, 0, 0, 0, 0]
  const CLASS_3 := [0, 0, 0, 0, 0, 0, 0, 0, 0, 0, 0, 0, 0, 0, 0, 0]
  const CLASS_4 := [0, 0, 0, 0, 0, 0, 0, 0, 0, 0, 0, 0, 0, 0, 0, 0]
  const CLASS_5 := [0, 0, 0, 0, 0, 0, 0, 0, 0, 0, 0, 0, 0, 0, 0, 0]
  const CLASS_6 := [0, 0, 0, 0, 0, 0, 0, 0, 0, 0, 0, 0, 0, 0, 0, 0]
  const CLASS_7 := [0, 0, 0, 0, 0, 0, 0, 0, 0, 0, 0, 0, 0, 0, 0, 0]
  const CLASS_8 := [1, 1, 1, 1, 1, 1, 1, 1, 1, 1, 1, 1, 1, 1, 1, 1]
  const CLASS_9 := [9, 9, 9, 9, 9, 9, 9, 9, 9, 9, 9, 9, 9, 9, 9, 9]
  const CLASS_A := [7, 7, 7, 7, 7, 7, 7, 7, 7, 7, 7, 7, 7, 7, 7, 7]
  const CLASS_B := [7, 7, 7, 7, 7, 7, 7, 7, 7, 7, 7, 7, 7, 7, 7, 7]
  const CLASS_C := [8, 8, 2, 2, 2, 2, 2, 2, 2, 2, 2, 2, 2, 2, 2, 2]
  const CLASS_D := [2, 2, 2, 2, 2, 2, 2, 2, 2, 2, 2, 2, 2, 2, 2, 2]
  const CLASS_E := [10, 3, 3, 3, 3, 3, 3, 3, 3, 3, 3, 3, 3, 4, 3, 3]
  const CLASS_F := [11, 6, 6, 6, 5, 8, 8, 8, 8, 8, 8, 8, 8, 8, 8, 8]
  const STATE_0 := [0, 1, 2, 3, 5, 8, 7, 1, 1, 1, 4, 6, 1, 1, 1, 1]
  const STATE_1 := [1, 1, 1, 1, 1, 1, 1, 1, 1, 1, 1, 1, 1, 1, 1, 1]
  const STATE_2 := [1, 0, 1, 1, 1, 1, 1, 0, 1, 0, 1, 1, 1, 1, 1, 1]
  const STATE_3 := [1, 2, 1, 1, 1, 1, 1, 2, 1, 2, 1, 1, 1, 1, 1, 1]
  const STATE_4 := [1, 1, 1, 1, 1, 1, 1, 2, 1, 1, 1, 1, 1, 1, 1, 1]
  const STATE_5 := [1, 2, 1, 1, 1, 1, 1, 1, 1, 2, 1, 1, 1, 1, 1, 1]
  const STATE_6 := [1, 1, 1, 1, 1, 1, 1, 3, 1, 3, 1, 1, 1, 1, 1, 1]
  const STATE_7 := [1, 3, 1, 1, 1, 1, 1, 3, 1, 3, 1, 1, 1, 1, 1, 1]
  const STATE_8 := [1, 3, 1, 1, 1, 1, 1, 1, 1, 1, 1, 1, 1, 1, 1, 1]

  const UTF8D := [
    CLASS_0, CLASS_1, CLASS_2, CLASS_3, CLASS_4, CLASS_5, CLASS_6, CLASS_7,
    CLASS_8, CLASS_9, CLASS_A, CLASS_B, CLASS_C, CLASS_D, CLASS_E, CLASS_F,
    STATE_0, STATE_1, STATE_2, STATE_3, STATE_4, STATE_5, STATE_6, STATE_7, STATE_8
  ]

  function Utf8d(i: nat): int
    requires i < 400
  {
    UTF8D[i / 16][i % 16]
  }

  const ACCEPT := 0
  const REJECT := 1

  /** The class of a byte, by ranges. */
  function Class(i: nat): (t: nat)
    requires i < 256
    ensures t < 12
  {
    if i < 0x80 then 0
    else if i < 0x90 then 1
    else if i < 0xA0 then 9
    else if i < 0xC0 then 7
    else if i < 0xC2 then 8
    else if i < 0xE0 then 2
    else if i == 0xE0 then 10
    else if i == 0xED then 4
    else if i < 0xF0 then 3
    else if i == 0xF0 then 11
    else if i < 0xF4 then 6
    else if i == 0xF4 then 5
    else 8
  }

  lemma ClassTable(i: nat)
    requires i < 256
    ensures Utf8d(i) == Class(i)
  {
    if i < 192 {
      LowRows(i);
    } else {
      HighRows(i);
    }
  }

  lemma LowRows(i: nat)
    requires i < 192
    ensures Utf8d(i) == Class(i)
  {
    var k, j := i / 16, i % 16;
    if i < 128 {
      assert UTF8D[k][j] == 0;
    } else {
      assert UTF8D[k][j] == if k == 8 then 1 else if k == 9 then 9 else 7;
    }
  }

  lemma HighRows(i: nat)
    requires 192 <= i < 256
    ensures Utf8d(i) == Class(i)
  {
    var k, j := i / 16, i % 16;
    assert i == 16 * k + j;
    if i < 224 {
      assert UTF8D[k][j] == if k == 12 && j < 2 then 8 else 2;
    } else if k == 14 {
      assert UTF8D[k] == CLASS_E;
    } else {
      assert UTF8D[k] == CLASS_F;
    }
  }

  lemma StateTable(state: nat, t: nat)
    requires state < 9 && t < 16
    ensures 0 <= Utf8d(256 + state * 16 + t) < 9
  {}

  datatype Decoder = Decoder(state: nat, rune: int)

  /** Conversion to a 32-bit rune. */
  function Rune(x: int): int {
    (x + 0x8000_0000) % 0x1_0000_0000 - 0x8000_0000
  }

  /** b & (0xff >> t): the low 8 - t bits of b, none when t >= 8. */
  function LowBits(b: byte, t: int): int
    requires 0 <= t < 12
  {
    b as int % [256, 128, 64, 32, 16, 8, 4, 2, 1, 1, 1, 1][t]
  }

  /** The next rune: six more bits shifted in, or the payload bits of a first byte. */
  function Accumulate(d: Decoder, t: int, b: byte): int
    requires 0 <= t < 12
  {
    if d.state != ACCEPT then b as int % 64 + Rune(d.rune * 64) else LowBits(b, t)
  }

  /** One byte of input, as the code decodes it. */
  function Decode(d: Decoder, b: byte): (r: Decoder)
    requires d.state < 9
    ensures r.state < 9
  {
    ClassTable(b as nat);
    var t := Utf8d(b as nat);
    StateTable(d.state, t);
    Decoder(Utf8d(256 + d.state * 16 + t), Accumulate(d, t, b))
  }

  function Run(d: Decoder, s: seq<byte>): (r: Decoder)
    requires d.state < 9
    ensures r.state < 9
    decreases |s|
  {
    if s == [] then d else Run(Decode(d, s[0]), s[1..])
  }

  // The definition: RFC 3629, on the numbers of the octets.

  predicate Tail(n: int) {
    0x80 <= n <= 0xBF
  }

  /** The production UTF8-char of section 4. */
  predicate CharOctets(n: seq<int>) {
    || (|n| == 1 && 0 <= n[0] <= 0x7F)
    || (|n| == 2 && 0xC2 <= n[0] <= 0xDF && Tail(n[1]))
    || (|n| == 3 && Tail(n[2]) && (
          || (n[0] == 0xE0 && 0xA0 <= n[1] <= 0xBF)
          || (0xE1 <= n[0] <= 0xEC && Tail(n[1]))
          || (n[0] == 0xED && 0x80 <= n[1] <= 0x9F)
          || (0xEE <= n[0] <= 0xEF && Tail(n[1]))))
    || (|n| == 4 && Tail(n[2]) && Tail(n[3]) && (
          || (n[0] == 0xF0 && 0x90 <= n[1] <= 0xBF)
          || (0xF1 <= n[0] <= 0xF3 && Tail(n[1]))
          || (n[0] == 0xF4 && 0x80 <= n[1] <= 0x8F)))
  }

  /** The Unicode scalar values. */
  predicate Scalar(v: int) {
    0 <= v < 0xD800 || 0xE000 <= v <= 0x10FFFF
  }

  /** Section 3: the octets of a character number. */
  function Octets(v: nat): seq<int> {
    if v < 0x80 then [v]
    else if v < 0x800 then [0xC0 + v / 64, 0x80 + v % 64]
    else if v < 0x10000 then [0xE0 + v / 64 / 64, 0x80 + v / 64 % 64, 0x80 + v % 64]
    else [0xF0 + v / 64 / 64 / 64, 0x80 + v / 64 / 64 % 64, 0x80 + v / 64 % 64, 0x80 + v % 64]
  }

  /** Section 3: the character number of one to four octets. */
  function Number(n: seq<int>): int
    requires 1 <= |n| <= 4
  {
    if |n| == 1 then n[0]
    else if |n| == 2 then (n[0] - 0xC0) * 64 + (n[1] - 0x80)
    else if |n| == 3 then ((n[0] - 0xE0) * 64 + (n[1] - 0x80)) * 64 + (n[2] - 0x80)
    else (((n[0] - 0xF0) * 64 + (n[1] - 0x80)) * 64 + (n[2] - 0x80)) * 64 + (n[3] - 0x80)
  }

  /** The octets of a scalar value are one well-formed character, whose character number is that value. */
  lemma NumberOfOctets(v: int)
    requires Scalar(v)
    ensures CharOctets(Octets(v)) && Number(Octets(v)) == v
  {}

  lemma Quotient(q: nat, r: nat)
    requires r < 64
    ensures (q * 64 + r) / 64 == q && (q * 64 + r) % 64 == r
  {}

  /** Every well-formed character is the octets of one scalar value. */
  lemma OctetsOfNumber(n: seq<int>)
    requires CharOctets(n)
    ensures Scalar(Number(n)) && Octets(Number(n)) == n
  {
    if |n| == 2 {
      Quotient(n[0] - 0xC0, n[1] - 0x80);
    } else if |n| == 3 {
      var a, b, c := n[0] - 0xE0, n[1] - 0x80, n[2] - 0x80;
      OctetsOfThree(a, b, c);
      assert n == [0xE0 + a, 0x80 + b, 0x80 + c];
    } else if |n| == 4 {
      var a, b, c, d := n[0] - 0xF0, n[1] - 0x80, n[2] - 0x80, n[3] - 0x80;
      OctetsOfFour(a, b, c, d);
      assert n == [0xF0 + a, 0x80 + b, 0x80 + c, 0x80 + d];
    }
  }

  lemma OctetsOfThree(a: nat, b: nat, c: nat)
    requires b < 64 && c < 64 && 0x20 <= a * 64 + b < 0x400
    ensures Octets((a * 64 + b) * 64 + c) == [0xE0 + a, 0x80 + b, 0x80 + c]
  {
    Quotient(a, b);
    Quotient(a * 64 + b, c);
  }

  lemma OctetsOfFour(a: nat, b: nat, c: nat, d: nat)
    requires b < 64 && c < 64 && d < 64 && 0x10 <= a * 64 + b
    ensures Octets(((a * 64 + b) * 64 + c) * 64 + d) == [0xF0 + a, 0x80 + b, 0x80 + c, 0x80 + d]
  {
    Quotient(a, b);
    Quotient(a * 64 + b, c);
    Quotient((a * 64 + b) * 64 + c, d);
  }

  // The same on bytes.

  function Numbers(c: seq<byte>): (n: seq<int>)
    ensures |n| == |c|
    ensures forall i :: 0 <= i < |c| ==> n[i] == c[i] as int
  {
    seq(|c|, i requires 0 <= i < |c| => c[i] as int)
  }

  function Bytes(n: seq<int>): (c: seq<byte>)
    requires forall i :: 0 <= i < |n| ==> 0 <= n[i] < 256
    ensures Numbers(c) == n
  {
    if n == [] then []
    else
      var c := [ByteOf(n[0])] + Bytes(n[1..]);
      assert forall i :: 0 < i < |c| ==> Numbers(c)[i] == Numbers(c[1..])[i - 1];
      c
  }

  predicate IsChar(c: seq<byte>) {
    CharOctets(Numbers(c))
  }

  function Value(c: seq<byte>): (v: nat)
    requires IsChar(c)
  {
    OctetsOfNumber(Numbers(c));
    Number(Numbers(c))
  }

  function EncodeRune(v: int): (c: seq<byte>)
    requires Scalar(v)
    ensures Numbers(c) == Octets(v)
  {
    NumberOfOctets(v);
    Bytes(Octets(v))
  }

  lemma SameNumbers(s: seq<byte>, t: seq<byte>)
    requires Numbers(s) == Numbers(t)
    ensures s == t
  {
    forall i | 0 <= i < |s|
      ensures s[i] == t[i]
    {
      assert s[i] as int == Numbers(s)[i] == Numbers(t)[i] == t[i] as int;
    }
  }

  /** Characters and scalar values correspond one to one. */
  lemma EncodingOfValue(c: seq<byte>)
    requires IsChar(c)
    ensures Scalar(Value(c)) && EncodeRune(Value(c)) == c
  {
    OctetsOfNumber(Numbers(c));
    SameNumbers(EncodeRune(Value(c)), c);
  }

  lemma ValueOfEncoding(v: int)
    requires Scalar(v)
    ensures IsChar(EncodeRune(v)) && Value(EncodeRune(v)) == v
  {
    NumberOfOctets(v);
  }

  /** The production UTF8-octets of section 4: any number of characters. */
  predicate WellFormed(s: seq<byte>)
    decreases |s|
  {
    s == [] || exists n :: 1 <= n <= 4 && n <= |s| && IsChar(s[..n]) && WellFormed(s[n..])
  }

  function EncodeRunes(vs: seq<int>): seq<byte>
    requires forall v :: v in vs ==> Scalar(v)
  {
    if vs == [] then [] else EncodeRune(vs[0]) + EncodeRunes(vs[1..])
  }

  // The state reached, by ranges instead of the table.

  function Next(state: nat, b: byte): nat {
    var i := b as nat;
    if state == ACCEPT then (
      if i < 0x80 then 0
      else if i < 0xC2 then 1
      else if i < 0xE0 then 2
      else if i == 0xE0 then 4
      else if i == 0xED then 5
      else if i < 0xF0 then 3
      else if i == 0xF0 then 6
      else if i < 0xF4 then 7
      else if i == 0xF4 then 8
      else 1)
    else if state == 2 then (if Tail(i) then 0 else 1)
    else if state == 3 then (if Tail(i) then 2 else 1)
    else if state == 4 then (if 0xA0 <= i <= 0xBF then 2 else 1)
    else if state == 5 then (if 0x80 <= i <= 0x9F then 2 else 1)
    else if state == 6 then (if 0x90 <= i <= 0xBF then 3 else 1)
    else if state == 7 then (if Tail(i) then 3 else 1)
    else if state == 8 then (if 0x80 <= i <= 0x8F then 3 else 1)
    else REJECT
  }

  lemma DecodeState(d: Decoder, b: byte)
    requires d.state < 9
    ensures Decode(d, b).state == Next(d.state, b)
  {
    ClassTable(b as nat);
    Transition(d.state, Class(b as nat), b);
  }

  lemma Transition(state: nat, t: nat, b: byte)
    requires state < 9 && t == Class(b as nat)
    ensures Utf8d(256 + state * 16 + t) == Next(state, b)
  {
    assert (256 + state * 16 + t) / 16 == 16 + state && (256 + state * 16 + t) % 16 == t;
  }

  /** The runes completed while decoding s: one for every return to the accepting state. */
  function Runes(d: Decoder, s: seq<byte>): seq<int>
    requires d.state < 9
    decreases |s|
  {
    if s == [] then []
    else
      var d' := Decode(d, s[0]);
      (if d'.state == ACCEPT then [d'.rune] else []) + Runes(d', s[1..])
  }

  // The decoder against the definition.

  lemma FirstBits(x: int, b: byte)
    ensures var r, i := Accumulate(Decoder(ACCEPT, x), Class(b as nat), b), b as int;
            && (i < 0x80 ==> r == i)
            && (0xC2 <= i <= 0xDF ==> r == i - 0xC0)
            && (0xE0 <= i <= 0xEF ==> r == i - 0xE0)
            && (0xF0 <= i <= 0xF4 ==> r == i - 0xF0)
  {}

  lemma MoreBits(d: Decoder, t: nat, b: byte)
    requires d.state != ACCEPT && t < 12 && Tail(b as int) && 0 <= d.rune < 0x8000
    ensures Accumulate(d, t, b) == d.rune * 64 + (b as int - 0x80)
  {}

  lemma Step(d: Decoder, b: byte, rest: seq<byte>)
    requires d.state < 9
    ensures var d' := Decode(d, b);
            && Run(d, [b] + rest) == Run(d', rest)
            && Runes(d, [b] + rest) == (if d'.state == ACCEPT then [d'.rune] else []) + Runes(d', rest)
  {
    assert ([b] + rest)[1..] == rest;
  }

  /** The decoder after the bytes of s, started on a character. */
  lemma FirstStep(x: int, b: byte)
    ensures var d, i := Decode(Decoder(ACCEPT, x), b), b as int;
            && (i < 0x80 ==> d == Decoder(ACCEPT, i))
            && (0xC2 <= i <= 0xDF ==> d == Decoder(2, i - 0xC0))
            && (0xE0 <= i <= 0xEF ==> d == Decoder(if i == 0xE0 then 4 else if i == 0xED then 5 else 3, i - 0xE0))
            && (0xF0 <= i <= 0xF4 ==> d == Decoder(if i == 0xF0 then 6 else if i == 0xF4 then 8 else 7, i - 0xF0))
            && (0x80 <= i < 0xC2 || 0xF4 < i ==> d.state == REJECT)
  {
    hide Utf8d;
    ClassTable(b as nat);
    DecodeState(Decoder(ACCEPT, x), b);
    FirstBits(x, b);
  }

  lemma NextStep(d: Decoder, b: byte)
    requires 2 <= d.state < 9 && 0 <= d.rune < 0x8000
    ensures var d', i := Decode(d, b), b as int;
            && d'.state == Next(d.state, b)
            && (d'.state != REJECT ==> Tail(i) && d'.rune == d.rune * 64 + (i - 0x80))
  {
    hide Utf8d;
    ClassTable(b as nat);
    DecodeState(d, b);
    if Tail(b as int) {
      MoreBits(d, Class(b as nat), b);
    }
  }

  lemma {:induction false} RejectStays(d: Decoder, s: seq<byte>)
    requires d.state == REJECT
    ensures Run(d, s).state == REJECT
    decreases |s|
  {
    if s != [] {
      DecodeState(d, s[0]);
      RejectStays(Decode(d, s[0]), s[1..]);
    }
  }

  /** Take one more byte of c, the bytes of c from k on being still to come before rest. */
  lemma TakeByte(d: Decoder, c: seq<byte>, k: nat, rest: seq<byte>)
    requires d.state < 9 && k < |c|
    ensures var d' := Decode(d, c[k]);
            && Run(d, c[k..] + rest) == Run(d', c[k + 1..] + rest)
            && Runes(d, c[k..] + rest) == (if d'.state == ACCEPT then [d'.rune] else []) + Runes(d', c[k + 1..] + rest)
  {
    hide Decode;
    assert c[k..] + rest == [c[k]] + (c[k + 1..] + rest);
    Step(d, c[k], c[k + 1..] + rest);
  }

  /** The decoder takes a well-formed character from accepting state to accepting state, yielding its number. */
  lemma RunChar(x: int, c: seq<byte>, rest: seq<byte>)
    requires IsChar(c)
    ensures Run(Decoder(ACCEPT, x), c + rest) == Run(Decoder(ACCEPT, Value(c)), rest)
    ensures Runes(Decoder(ACCEPT, x), c + rest) == [Value(c)] + Runes(Decoder(ACCEPT, Value(c)), rest)
  {
    hide Decode, Run, Runes, CharOctets, Number;
    CharLength(c);
    assert c[0..] == c;
    TakeByte(Decoder(ACCEPT, x), c, 0, rest);
    if |c| == 1 {
      RunOne(x, c, rest);
    } else if |c| == 2 {
      RunTwo(x, c, rest);
    } else if |c| == 3 {
      RunThree(x, c, rest);
    } else {
      RunFour(x, c, rest);
    }
  }

  lemma CharLength(c: seq<byte>)
    requires IsChar(c)
    ensures 1 <= |c| <= 4
  {}

  /** The bytes after the first, which lead to the decoder d, complete the character c. */
  ghost predicate Completes(d: Decoder, c: seq<byte>, rest: seq<byte>)
    requires d.state < 9 && IsChar(c) && |c| > 0
  {
    && Run(d, c[1..] + rest) == Run(Decoder(ACCEPT, Value(c)), rest)
    && (if d.state == ACCEPT then [d.rune] else []) + Runes(d, c[1..] + rest)
       == [Value(c)] + Runes(Decoder(ACCEPT, Value(c)), rest)
  }

  lemma RunOne(x: int, c: seq<byte>, rest: seq<byte>)
    requires IsChar(c) && |c| == 1
    ensures Completes(Decode(Decoder(ACCEPT, x), c[0]), c, rest)
  {
    hide Decode, Run, Runes;
    FirstStep(x, c[0]);
    assert c[1..] + rest == rest;
  }

  lemma RunTwo(x: int, c: seq<byte>, rest: seq<byte>)
    requires IsChar(c) && |c| == 2
    ensures Completes(Decode(Decoder(ACCEPT, x), c[0]), c, rest)
  {
    hide Decode, Run, Runes;
    FirstStep(x, c[0]);
    RunTail(Decode(Decoder(ACCEPT, x), c[0]), c, rest);
  }

  lemma RunThree(x: int, c: seq<byte>, rest: seq<byte>)
    requires IsChar(c) && |c| == 3
    ensures Completes(Decode(Decoder(ACCEPT, x), c[0]), c, rest)
  {
    hide Decode, Run, Runes, CharOctets, Number, Next;
    var d := Decode(Decoder(ACCEPT, x), c[0]);
    ThreeParts(c);
    FirstStep(x, c[0]);
    NextStep(d, c[1]);
    TakeByte(d, c, 1, rest);
    RunTail(Decode(d, c[1]), c, rest);
  }

  /** A character of three bytes: its number, and where its second byte leads. */
  lemma ThreeParts(c: seq<byte>)
    requires IsChar(c) && |c| == 3
    ensures 0xE0 <= c[0] as int <= 0xEF
    ensures Next(if c[0] as int == 0xE0 then 4 else if c[0] as int == 0xED then 5 else 3, c[1]) == 2
    ensures Tail(c[2] as int)
    ensures var r := (c[0] as int - 0xE0) * 64 + (c[1] as int - 0x80);
            0 <= r < 0x8000 && Value(c) == r * 64 + (c[2] as int - 0x80)
  {}

  lemma RunTail(d: Decoder, c: seq<byte>, rest: seq<byte>)
    requires |c| > 0 && d.state == 2 && 0 <= d.rune < 0x8000 && Tail(c[|c| - 1] as int)
    ensures var k, x := |c| - 1, d.rune * 64 + (c[|c| - 1] as int - 0x80);
            && Run(d, c[k..] + rest) == Run(Decoder(ACCEPT, x), rest)
            && Runes(d, c[k..] + rest) == [x] + Runes(Decoder(ACCEPT, x), rest)
  {
    hide Decode, Run, Runes;
    assert c[|c|..] + rest == rest;
    NextStep(d, c[|c| - 1]);
    TakeByte(d, c, |c| - 1, rest);
  }

  lemma RunFour(x: int, c: seq<byte>, rest: seq<byte>)
    requires IsChar(c) && |c| == 4
    ensures Completes(Decode(Decoder(ACCEPT, x), c[0]), c, rest)
  {
    hide Decode, Run, Runes, CharOctets, Number, Next, Value, Completes;
    var d := Decode(Decoder(ACCEPT, x), c[0]);
    var e := SecondOfFour(x, c);
    TakeByte(d, c, 1, rest);
    RunTwoTails(e, c, rest);
    AllTaken(d, e, c, rest);
  }

  /** The decoder after two of four bytes. */
  lemma SecondOfFour(x: int, c: seq<byte>) returns (e: Decoder)
    requires IsChar(c) && |c| == 4
    ensures var d := Decode(Decoder(ACCEPT, x), c[0]); e == Decode(d, c[1]) && 2 <= d.state < 9
    ensures e.state == 3 && 0 <= e.rune < 0x200 && Tail(c[2] as int) && Tail(c[3] as int)
    ensures Value(c) == (e.rune * 64 + (c[2] as int - 0x80)) * 64 + (c[3] as int - 0x80)
  {
    hide Decode, CharOctets, Number, Next, Value;
    var d := Decode(Decoder(ACCEPT, x), c[0]);
    FourParts(c);
    FirstStep(x, c[0]);
    NextStep(d, c[1]);
    e := Decode(d, c[1]);
  }

  lemma AllTaken(d: Decoder, e: Decoder, c: seq<byte>, rest: seq<byte>)
    requires 2 <= d.state < 9 && 2 <= e.state < 9 && IsChar(c) && |c| > 2
    requires Run(d, c[1..] + rest) == Run(e, c[2..] + rest) == Run(Decoder(ACCEPT, Value(c)), rest)
    requires Runes(d, c[1..] + rest) == [] + Runes(e, c[2..] + rest)
    requires Runes(e, c[2..] + rest) == [Value(c)] + Runes(Decoder(ACCEPT, Value(c)), rest)
    ensures Completes(d, c, rest)
  {
    hide Run, Runes, Value;
    var tail := Runes(e, c[2..] + rest);
    assert [] + tail == tail;
  }

  /** A character of four bytes: its number, and where its second byte leads. */
  lemma FourParts(c: seq<byte>)
    requires IsChar(c) && |c| == 4
    ensures 0xF0 <= c[0] as int <= 0xF4
    ensures Next(if c[0] as int == 0xF0 then 6 else if c[0] as int == 0xF4 then 8 else 7, c[1]) == 3
    ensures Tail(c[2] as int) && Tail(c[3] as int)
    ensures var r := (c[0] as int - 0xF0) * 64 + (c[1] as int - 0x80);
            0 <= r < 0x200 && Value(c) == (r * 64 + (c[2] as int - 0x80)) * 64 + (c[3] as int - 0x80)
  {}

  lemma RunTwoTails(d: Decoder, c: seq<byte>, rest: seq<byte>)
    requires |c| >= 2 && d.state == 3 && 0 <= d.rune < 0x200 && Tail(c[|c| - 2] as int) && Tail(c[|c| - 1] as int)
    ensures var k := |c| - 2;
            var x := (d.rune * 64 + (c[k] as int - 0x80)) * 64 + (c[k + 1] as int - 0x80);
            && Run(d, c[k..] + rest) == Run(Decoder(ACCEPT, x), rest)
            && Runes(d, c[k..] + rest) == [x] + Runes(Decoder(ACCEPT, x), rest)
  {
    hide Decode, Run, Runes;
    var k := |c| - 2;
    NextStep(d, c[k]);
    TakeByte(d, c, k, rest);
    RunTail(Decode(d, c[k]), c, rest);
  }

  /** The shortest way from a state back to accepting. */
  function Missing(state: nat): seq<byte> {
    if state == 2 then [0x80]
    else if state == 3 || state == 5 then [0x80, 0x80]
    else if state == 4 then [0xA0, 0x80]
    else if state == 6 then [0x90, 0x80, 0x80]
    else [0x80, 0x80, 0x80]
  }

  /** One byte into an unfinished character: more of it is rejected, complete, or still unfinished. */
  lemma NotRejected(d: Decoder, s: seq<byte>, k: nat)
    requires d.state < 9 && k < |s| && Run(d, s[k..]).state != REJECT
    ensures var d' := Decode(d, s[k]); d'.state != REJECT && Run(d', s[k + 1..]) == Run(d, s[k..])
  {
    hide Decode, Run;
    TakeByte(d, s, k, []);
    assert s[k..] + [] == s[k..] && s[k + 1..] + [] == s[k + 1..];
    if Decode(d, s[k]).state == REJECT {
      RejectStays(Decode(d, s[k]), s[k + 1..]);
    }
  }

  /** Up to four bytes on which the states run from accepting, through unfinished states, to the given one. */
  predicate Path(s: seq<byte>, state: nat)
    requires 1 <= |s| <= 4
  {
    var s1 := Next(ACCEPT, s[0]);
    if |s| == 1 then s1 == state
    else
      var s2 := Next(s1, s[1]);
      && s1 >= 2
      && if |s| == 2 then s2 == state
         else
           var s3 := Next(s2, s[2]);
           s2 >= 2 && if |s| == 3 then s3 == state else s3 >= 2 && Next(s3, s[3]) == state
  }

  /** Such bytes are a character when the state is accepting, and otherwise the start of one. */
  lemma PathIsChar(s: seq<byte>, state: nat)
    requires 1 <= |s| <= 4 && Path(s, state)
    ensures state == ACCEPT ==> IsChar(s)
    ensures state >= 2 ==> |s| < 4 && IsChar(s + Missing(state))
  {}

  /** The decoder has read k bytes of s along a path and not rejected the rest. */
  ghost predicate Along(s: seq<byte>, k: nat, d: Decoder) {
    && 1 <= k <= |s| && k <= 4
    && d.state < 9 && Path(s[..k], d.state)
    && Run(d, s[k..]).state != REJECT
  }

  lemma AlongStarts(x: int, s: seq<byte>)
    requires s != [] && Run(Decoder(ACCEPT, x), s).state != REJECT
    ensures var d' := Decode(Decoder(ACCEPT, x), s[0]);
            Along(s, 1, d') && d'.state != REJECT && Run(d', s[1..]) == Run(Decoder(ACCEPT, x), s)
  {
    assert s[0..] == s;
    NotRejected(Decoder(ACCEPT, x), s, 0);
    DecodeState(Decoder(ACCEPT, x), s[0]);
    hide Decode;
  }

  lemma AlongGrows(s: seq<byte>, k: nat, d: Decoder)
    requires Along(s, k, d) && d.state >= 2 && k < |s|
    ensures var d' := Decode(d, s[k]);
            Along(s, k + 1, d') && d'.state != REJECT && Run(d', s[k + 1..]) == Run(d, s[k..])
  {
    hide Decode, Next, IsChar, Path;
    NotRejected(d, s, k);
    DecodeState(d, s[k]);
    PathIsChar(s[..k], d.state);
    PathGrows(s[..k], d.state, s[k]);
    assert s[..k + 1] == s[..k] + [s[k]];
  }

  /** What the decoder has not rejected starts with a character, or is the start of one. */
  lemma FirstChar(x: int, s: seq<byte>) returns (n: nat, missing: seq<byte>)
    requires s != [] && Run(Decoder(ACCEPT, x), s).state != REJECT
    ensures n <= 4 && n <= |s|
    ensures n > 0 ==> IsChar(s[..n])
    ensures n == 0 ==> Run(Decoder(ACCEPT, x), s).state != ACCEPT && IsChar(s + missing)
  {
    hide Decode, IsChar, Path, Missing;
    AlongStarts(x, s);
    var d := Decode(Decoder(ACCEPT, x), s[0]);
    n := 1;
    while d.state != ACCEPT && n < |s|
      invariant Along(s, n, d) && d.state != REJECT
      invariant Run(d, s[n..]) == Run(Decoder(ACCEPT, x), s)
      decreases |s| - n
    {
      AlongGrows(s, n, d);
      d := Decode(d, s[n]);
      n := n + 1;
    }
    PathIsChar(s[..n], d.state);
    missing := Missing(d.state);
    if d.state != ACCEPT {
      assert s[..n] == s && s[n..] == [];
      n := 0;
    }
  }

  lemma PathGrows(s: seq<byte>, state: nat, b: byte)
    requires 1 <= |s| < 4 && Path(s, state) && state >= 2
    ensures Path(s + [b], Next(state, b))
  {}

  // Main results

  /** One well-formed character in front does not change what is well formed. */
  lemma WellFormedCons(c: seq<byte>, s: seq<byte>)
    requires IsChar(c) && WellFormed(s)
    ensures WellFormed(c + s)
  {
    assert (c + s)[..|c|] == c && (c + s)[|c|..] == s;
  }

  lemma FirstOfWellFormed(s: seq<byte>) returns (n: nat)
    requires s != [] && WellFormed(s)
    ensures 1 <= n <= |s| && IsChar(s[..n]) && WellFormed(s[n..])
  {
    hide IsChar;
    n :| 1 <= n <= 4 && n <= |s| && IsChar(s[..n]) && WellFormed(s[n..]);
  }

  /** The decoder ends in the accepting state exactly on well-formed UTF-8. */
  lemma {:induction false} AcceptsWellFormed(x: int, s: seq<byte>)
    ensures Run(Decoder(ACCEPT, x), s).state == ACCEPT <==> WellFormed(s)
    decreases |s|
  {
    hide Decode, IsChar, Value;
    if s != [] {
      if Run(Decoder(ACCEPT, x), s).state == ACCEPT {
        var n, _ := FirstChar(x, s);
        assert s == s[..n] + s[n..];
        RunChar(x, s[..n], s[n..]);
        AcceptsWellFormed(Value(s[..n]), s[n..]);
        WellFormedCons(s[..n], s[n..]);
      }
      if WellFormed(s) {
        var n := FirstOfWellFormed(s);
        assert s == s[..n] + s[n..];
        RunChar(x, s[..n], s[n..]);
        AcceptsWellFormed(Value(s[..n]), s[n..]);
      }
    }
  }

  ghost predicate Viable(s: seq<byte>) {
    exists t :: WellFormed(s + t)
  }

  lemma PrefixViable(s: seq<byte>, t: seq<byte>)
    requires WellFormed(s + t)
    ensures Viable(s)
  {}

  /** The decoder rejects exactly the strings that no continuation makes well formed. */
  lemma {:induction false} RejectsHopeless(x: int, s: seq<byte>)
    ensures Run(Decoder(ACCEPT, x), s).state != REJECT <==> Viable(s)
    decreases |s|
  {
    hide Decode, IsChar, Value;
    if Run(Decoder(ACCEPT, x), s).state != REJECT {
      var t := Completion(x, s);
    }
    if t :| WellFormed(s + t) {
      AcceptsWellFormed(x, s + t);
      RunConcat(Decoder(ACCEPT, x), s, t);
      if Run(Decoder(ACCEPT, x), s).state == REJECT {
        RejectStays(Run(Decoder(ACCEPT, x), s), t);
      }
    }
  }

  lemma {:induction false} Completion(x: int, s: seq<byte>) returns (t: seq<byte>)
    requires Run(Decoder(ACCEPT, x), s).state != REJECT
    ensures WellFormed(s + t)
    decreases |s|
  {
    hide Decode, IsChar, Value;
    if s == [] {
      t := [];
    } else {
      var n, missing := FirstChar(x, s);
      if n == 0 {
        t := missing;
        WellFormedCons(s + missing, []);
        assert s + missing + [] == s + t;
      } else {
        var c, rest := s[..n], s[n..];
        assert s == c + rest;
        RunChar(x, c, rest);
        t := Completion(Value(c), rest);
        WellFormedCons(c, rest + t);
        assert c + (rest + t) == s + t;
      }
    }
  }

  lemma {:induction false} RunConcat(d: Decoder, s: seq<byte>, t: seq<byte>)
    requires d.state < 9
    ensures Run(d, s + t) == Run(Run(d, s), t)
    decreases |s|
  {
    hide Decode;
    if s == [] {
      assert s + t == t;
    } else {
      assert (s + t)[1..] == s[1..] + t;
      RunConcat(Decode(d, s[0]), s[1..], t);
    }
  }

  /** Decoding the encoding of any scalar values yields those values. */
  lemma {:induction false} DecodesEncoding(x: int, vs: seq<int>)
    requires forall v :: v in vs ==> Scalar(v)
    ensures Run(Decoder(ACCEPT, x), EncodeRunes(vs)).state == ACCEPT
    ensures Runes(Decoder(ACCEPT, x), EncodeRunes(vs)) == vs
    decreases |vs|
  {
    hide Decode, IsChar, Value, EncodeRune;
    if vs != [] {
      ValueOfEncoding(vs[0]);
      RunChar(x, EncodeRune(vs[0]), EncodeRunes(vs[1..]));
      DecodesEncoding(vs[0], vs[1..]);
    }
  }

  /** Whatever the decoder accepts is the encoding of the runes it has produced. */
  lemma {:induction false} EncodesDecoded(x: int, s: seq<byte>)
    requires Run(Decoder(ACCEPT, x), s).state == ACCEPT
    ensures var vs := Runes(Decoder(ACCEPT, x), s);
            (forall v :: v in vs ==> Scalar(v)) && EncodeRunes(vs) == s
    decreases |s|
  {
    hide Decode, IsChar, Value, EncodeRune;
    if s != [] {
      var n, _ := FirstChar(x, s);
      var c, rest := s[..n], s[n..];
      assert s == c + rest;
      RunChar(x, c, rest);
      EncodesDecoded(Value(c), rest);
      EncodingOfValue(c);
      assert Runes(Decoder(ACCEPT, x), s)[1..] == Runes(Decoder(ACCEPT, Value(c)), rest);
    }
  }

  lemma RunEmpty(d: Decoder, s: seq<byte>)
    requires d.state < 9 && s == []
    ensures Run(d, s) == d
  {}

  // The streaming validator

  datatype StreamError = EOF | Other | InvalidUtf8

  datatype MaybeError = NoError | Err(error: StreamError)

  /** The fields of validator; the wrapped reader is what the arguments of Read deliver. */
  class Validator {
    var state: nat
    var x: int

    constructor ()
      ensures state == ACCEPT && x == 0
    {
      state, x := ACCEPT, 0;
    }

    /** Read, when the wrapped reader has returned the bytes p and err. */
    method Read(p: seq<byte>, err: MaybeError) returns (result: MaybeError)
      requires state < 9
      modifies this
      ensures state < 9
      ensures state == Run(Decoder(old(state), old(x)), p).state
      ensures state != REJECT ==> x == Run(Decoder(old(state), old(x)), p).rune
      ensures result == if state == REJECT || (err == Err(EOF) && state != ACCEPT) then Err(InvalidUtf8) else err
    {
      hide *;
      var d := Decoder(state, x);
      ghost var d0 := d;
      for i := 0 to |p|
        invariant d.state < 9 && Run(d, p[i..]) == Run(d0, p)
      {
        assert p[i..] == [p[i]] + p[i + 1..];
        Step(d, p[i], p[i + 1..]);
        d := Decode(d, p[i]);
        if d.state == REJECT {
          RejectStays(d, p[i + 1..]);
          break;
        }
      }
      RunEmpty(d, p[|p|..]);
      state, x := d.state, d.rune;
      result := if state == REJECT || (err == Err(EOF) && state != ACCEPT) then Err(InvalidUtf8) else err;
    }
  }

  function Concat(chunks: seq<seq<byte>>): seq<byte> {
    if chunks == [] then [] else chunks[0] + Concat(chunks[1..])
  }

  lemma {:induction false} ConcatSplit(chunks: seq<seq<byte>>, more: seq<seq<byte>>)
    ensures Concat(chunks + more) == Concat(chunks) + Concat(more)
  {
    if chunks == [] {
      assert chunks + more == more;
    } else {
      assert (chunks + more)[1..] == chunks[1..] + more;
      ConcatSplit(chunks[1..], more);
    }
  }

  /** The validator's fields after the stream s. */
  ghost predicate Follows(state: nat, x: int, s: seq<byte>)
    requires state < 9
  {
    var d := Run(Decoder(ACCEPT, 0), s);
    state == d.state && (state != REJECT ==> x == d.rune)
  }

  lemma EmptyRun()
    ensures Follows(ACCEPT, 0, [])
  {}

  lemma FollowsMore(state: nat, x: int, s: seq<byte>, t: seq<byte>)
    requires state < 9 && state != REJECT && Follows(state, x, s)
    ensures var d := Run(Decoder(state, x), t);
            forall x' :: (d.state != REJECT ==> x' == d.rune) ==> Follows(d.state, x', s + t)
    ensures s + [] == s
  {
    hide Run;
    RunConcat(Decoder(ACCEPT, 0), s, t);
  }

  /** An application reads a stream through the validator until a Read returns an error. Whatever the chunks,
      and whether or not EOF comes with the last of them, the stream is found valid exactly when it is well-formed
      UTF-8, and an invalid stream is reported at the first chunk that leaves no way to complete it. */
  method Validate(chunks: seq<seq<byte>>, eofWithLast: bool) returns (valid: bool, read: nat)
    ensures valid == WellFormed(Concat(chunks))
    ensures read <= |chunks|
    ensures forall k :: 0 <= k < read ==> Viable(Concat(chunks[..k]))
    ensures read < |chunks| ==> !Viable(Concat(chunks[..read]))
  {
    hide Run, Decode, WellFormed, Viable;
    var v := new Validator();
    read := 0;
    var err := NoError;
    assert Concat(chunks[..0]) == [];
    EmptyRun();
    while err == NoError && read < |chunks|
      invariant read <= |chunks| && v.state < 9
      invariant Follows(v.state, v.x, Concat(chunks[..read]))
      invariant forall k :: 0 <= k < read ==> Viable(Concat(chunks[..k]))
      invariant err == if v.state == REJECT then Err(InvalidUtf8)
                       else if eofWithLast && 0 < read == |chunks|
                       then (if v.state == ACCEPT then Err(EOF) else Err(InvalidUtf8)) else NoError
      decreases |chunks| - read
    {
      RejectsHopeless(0, Concat(chunks[..read]));
      assert chunks[..read + 1] == chunks[..read] + [chunks[read]];
      ConcatSplit(chunks[..read], [chunks[read]]);
      assert Concat([chunks[read]]) == chunks[read];
      FollowsMore(v.state, v.x, Concat(chunks[..read]), chunks[read]);
      err := v.Read(chunks[read], if eofWithLast && read == |chunks| - 1 then Err(EOF) else NoError);
      read := read + 1;
    }
    assert read == |chunks| ==> chunks[..read] == chunks;
    assert chunks == chunks[..read] + chunks[read..];
    ConcatSplit(chunks[..read], chunks[read..]);
    if WellFormed(Concat(chunks)) {
      PrefixViable(Concat(chunks[..read]), Concat(chunks[read..]));
    }
    RejectsHopeless(0, Concat(chunks[..read]));
    AcceptsWellFormed(0, Concat(chunks));
    if err == NoError {
      FollowsMore(v.state, v.x, Concat(chunks), []);
      err := v.Read([], Err(EOF));
      assert Follows(v.state, v.x, Concat(chunks) + []);
    }
    valid := err == Err(EOF);
  }
}
