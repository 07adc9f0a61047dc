/** Base64 (section 6.8 of RFC 2045): the streaming codec of foot_filter and the header decoder of unistr.c. */
module Base64 {
  import opened Bytes
  import Letters
  import Seqs

  // ---------------------------------------------------------------- the alphabet

  function Char64(v: nat): Byte
    requires v < 64
  {
    if v < 26 then 'A' as int + v
    else if v < 52 then 'a' as int + v - 26
    else if v < 62 then '0' as int + v - 52
    else if v == 62 then '+' as int
    else '/' as int
  }

  /** The value of a base64 character, EOF for anything else ('=' included). */
  function Decode64(c: Code): (v: int)
    ensures v == EOF || 0 <= v < 64
  {
    if 'A' as int <= c <= 'Z' as int then c - 'A' as int
    else if 'a' as int <= c <= 'z' as int then c - 'a' as int + 26
    else if '0' as int <= c <= '9' as int then c - '0' as int + 52
    else if c == '+' as int then 62
    else if c == '/' as int then 63
    else EOF
  }

  lemma AlphabetRoundTrip(v: nat)
    requires v < 64
    ensures Decode64(Char64(v)) == v
    ensures Char64(v) != EQUALS && !IsLineEnd(Char64(v))
  {
  }

  /** The six bits the masks in decodechar see; EOF cast to unsigned has them all set. */
  function Bits(c: Code): (v: nat)
    ensures v < 64
  {
    if Decode64(c) == EOF then 63 else Decode64(c)
  }

  // ---------------------------------------------------------------- the text format

  /** One to three bytes as four characters. */
  function Quad(s: seq<Byte>): seq<Byte>
    requires 1 <= |s| <= 3
  {
    [Char64(s[0] / 4)] +
    if |s| == 1 then [Char64(s[0] % 4 * 16), EQUALS, EQUALS]
    else [Char64(s[0] % 4 * 16 + s[1] / 16)] +
         if |s| == 2 then [Char64(s[1] % 16 * 4), EQUALS]
         else [Char64(s[1] % 16 * 4 + s[2] / 64), Char64(s[2] % 64)]
  }

  const LINE_LIMIT := 72

  function LineBreak(column: nat): seq<Byte> {
    if column + 4 >= LINE_LIMIT then [CR, LF] else []
  }

  function NextColumn(column: nat): nat {
    if column + 4 >= LINE_LIMIT then 0 else column + 4
  }

  /** A full group and the line break it may bring. */
  function Line(s: seq<Byte>, column: nat): seq<Byte>
    requires |s| == 3
  {
    Quad(s) + LineBreak(column)
  }

  /** The whole encoding, three bytes at a time, starting at the given column. */
  function Text(s: seq<Byte>, column: nat): seq<Byte> {
    if s == [] then []
    else if |s| < 3 then Quad(s)
    else Line(s[..3], column) + Text(s[3..], NextColumn(column))
  }

  // ---------------------------------------------------------------- told by the alphabet

  const ALPHABET: string := Letters.UPPER + Letters.LOWER + "0123456789+/"

  function Letter(v: nat): char
    requires v < 64
  {
    ALPHABET[v]
  }

  lemma Alphabet(v: nat)
    requires v < 64
    ensures Letter(v) as int == Char64(v)
  {
    if v < 26 {
      Letters.Alphabet(v);
    } else if v < 52 {
      Letters.Alphabet(v - 26);
    } else {
      Figures(v - 52);
    }
  }

  lemma Figures(k: nat)
    requires k < 12
    ensures "0123456789+/"[k] as int == Char64(k + 52)
  {
  }

  /** Decoding gives the place of a character in the alphabet. */
  lemma PlaceInAlphabet(c: Code)
    ensures Decode64(c) != EOF <==> exists v :: 0 <= v < 64 && Letter(v) as int == c
    ensures Decode64(c) != EOF ==> Letter(Decode64(c)) as int == c
  {
    hide Letter;
    if Decode64(c) != EOF {
      Alphabet(Decode64(c));
    }
    if v :| 0 <= v < 64 && Letter(v) as int == c {
      Alphabet(v);
    }
  }

  /** The bytes of a group as one number, filled up with zeros. */
  function Number(s: seq<Byte>): (n: nat)
    requires 1 <= |s| <= 3
    ensures n < 0x100_0000
  {
    var x: int := s[0];
    x * 0x1_0000 + if |s| == 1 then 0 else
      var y: int := s[1];
      y * 0x100 + if |s| == 2 then 0 else s[2]
  }

  /** A group is written as the digits of its number to the base 64, '=' for those that are only filling. */
  lemma QuadDigits(s: seq<Byte>)
    requires 1 <= |s| <= 3
    ensures var n, q := Number(s), Quad(s);
            && |q| == 4 && q[0] == Letter(n / 0x4_0000) as int && q[1] == Letter(n / 0x1000 % 64) as int
            && q[2] == (if |s| == 1 then '=' as int else Letter(n / 64 % 64) as int)
            && q[3] == (if |s| < 3 then '=' as int else Letter(n % 64) as int)
  {
    hide Letter, Char64;
    var n := Number(s);
    Alphabet(n / 0x4_0000);
    Alphabet(n / 0x1000 % 64);
    Alphabet(n / 64 % 64);
    Alphabet(n % 64);
    Digits(s[0], if |s| > 1 then s[1] else 0, if |s| > 2 then s[2] else 0);
  }

  lemma Digits(x: int, y: int, z: int)
    requires 0 <= x < 256 && 0 <= y < 256 && 0 <= z < 256
    ensures var n := x * 0x1_0000 + y * 0x100 + z;
            && n / 0x4_0000 == x / 4 && n / 0x1000 % 64 == x % 4 * 16 + y / 16
            && n / 64 % 64 == y % 16 * 4 + z / 64 && n % 64 == z % 64
  {
    DivMod(0x4_0000, x / 4, x % 4 * 0x1_0000 + y * 0x100 + z);
    DivMod(0x1000, x * 16 + y / 16, y % 16 * 0x100 + z);
    DivMod(64, x / 4, x % 4 * 16 + y / 16);
    DivMod(64, x * 0x400 + y * 4 + z / 64, z % 64);
    DivMod(64, x * 16 + y / 16, y % 16 * 4 + z / 64);
  }

  predicate OnOneLine(s: seq<Byte>) {
    forall i :: 0 <= i < |s| ==> !IsLineEnd(s[i])
  }

  /** The lines are broken behind 72 characters, and there only. */
  lemma {:induction false} LineFilled(s: seq<Byte>, column: nat) returns (line: seq<Byte>)
    requires column <= 68 && column % 4 == 0
    ensures OnOneLine(line) && Filled(line, s, column)
  {
    if s == [] {
      line := [];
    } else {
      QuadOnOneLine(if |s| < 3 then s else s[..3]);
      if |s| < 3 {
        line := Quad(s);
      } else if column == 68 {
        line := Quad(s[..3]);
      } else {
        var more := LineFilled(s[3..], column + 4);
        line := Quad(s[..3]) + more;
        LineJoined(line, more, s, column);
      }
    }
  }

  ghost predicate Filled(line: seq<Byte>, s: seq<Byte>, column: nat)
    requires column <= 68
  {
    var n := (72 - column) / 4 * 3;
    if |s| < n then Text(s, column) == line && |line| == (|s| + 2) / 3 * 4
    else Text(s, column) == line + [CR, LF] + Text(s[n..], 0) && |line| == 72 - column
  }

  lemma LineJoined(line: seq<Byte>, more: seq<Byte>, s: seq<Byte>, column: nat)
    requires column < 68 && column % 4 == 0 && |s| >= 3
    requires line == Quad(s[..3]) + more && Filled(more, s[3..], column + 4)
    ensures Filled(line, s, column)
  {
    hide Text, Quad;
    var q, n := Quad(s[..3]), (72 - column) / 4 * 3;
    Groups(|s|, column);
    TextOnward(s, column);
    if |s| >= n {
      assert s[3..][n - 3..] == s[n..];
      var rest := Text(s[n..], 0);
      assert Text(s[3..], column + 4) == more + [CR, LF] + rest;
      assert Text(s, column) == line + [CR, LF] + rest by {
        hide *;
        Seqs.Assoc(q, more + [CR, LF], rest);
        Seqs.Assoc(q, more, [CR, LF]);
      }
    }
  }

  lemma Groups(size: nat, column: nat)
    requires column < 68 && column % 4 == 0 && size >= 3
    ensures (72 - column) / 4 * 3 - 3 == (72 - (column + 4)) / 4 * 3 >= 0
    ensures (size + 2) / 3 * 4 == 4 + (size - 3 + 2) / 3 * 4
  {
  }

  lemma TextOnward(s: seq<Byte>, column: nat)
    requires column < 68 && |s| >= 3
    ensures |Quad(s[..3])| == 4 && Text(s, column) == Quad(s[..3]) + Text(s[3..], column + 4)
  {
    TextFirst(s, column);
    Seqs.Unit(Quad(s[..3]));
  }

  lemma QuadOnOneLine(s: seq<Byte>)
    requires 1 <= |s| <= 3
    ensures OnOneLine(Quad(s)) && |Quad(s)| == 4
    ensures forall i :: 0 <= i < 4 ==> Quad(s)[i] != '?' as int && Quad(s)[i] != SPACE && Quad(s)[i] != TAB
  {
  }

  /** No line of the encoding is longer than 72 characters. */
  lemma {:induction false} TextLines(s: seq<Byte>, column: nat)
    requires column <= 68 && column % 4 == 0
    ensures LinesAtMost(Text(s, column), column, 72)
  {
    if s != [] {
      var q := Quad(if |s| < 3 then s else s[..3]);
      QuadLine(if |s| < 3 then s else s[..3], column);
      if |s| >= 3 {
        var line := q + LineBreak(column);
        LinesAtMostConcat(q, LineBreak(column), column, LINE_LIMIT);
        BreakColumn(column);
        TextLines(s[3..], NextColumn(column));
        LinesAtMostConcat(line, Text(s[3..], NextColumn(column)), column, LINE_LIMIT);
      }
    }
  }

  lemma BreakColumn(column: nat)
    requires column <= 68
    ensures LinesAtMost(LineBreak(column), column + 4, LINE_LIMIT)
    ensures EndColumn(LineBreak(column), column + 4) == NextColumn(column)
  {
    assert [CR, LF] == [CR] + [LF];
    LinesAtMostConcat([CR], [LF], column + 4, LINE_LIMIT);
  }

  lemma QuadLine(s: seq<Byte>, column: nat)
    requires 1 <= |s| <= 3 && column <= 68
    ensures LinesAtMost(Quad(s), column, LINE_LIMIT)
    ensures EndColumn(Quad(s), column) == column + 4
  {
    var q := Quad(s);
    assert |q| == 4 && !IsLineEnd(q[0]) && !IsLineEnd(q[1]) && !IsLineEnd(q[2]) && !IsLineEnd(q[3]);
    NoLineEnds(q, column);
  }

  lemma {:induction false} NoLineEnds(s: seq<Byte>, column: nat)
    requires forall i :: 0 <= i < |s| ==> !IsLineEnd(s[i])
    requires column + |s| <= LINE_LIMIT
    ensures LinesAtMost(s, column, LINE_LIMIT)
    ensures EndColumn(s, column) == column + |s|
  {
    if s != [] {
      NoLineEnds(s[1..], column + 1);
    }
  }

  // ---------------------------------------------------------------- encoding

  /** `encoding_buffer` (fewer than three bytes between calls) and `encoding_echoed`. */
  datatype Encoding = Encoding(held: seq<Byte>, echoed: nat)

  const START := Encoding([], 0)

  predicate EncodingOk(e: Encoding) {
    |e.held| < 3 && e.echoed <= 68 && e.echoed % 4 == 0
  }

  /** One call of encodechar: the new state and the characters written. */
  function EncodeStep(e: Encoding, c: Code): (Encoding, seq<Byte>)
    requires EncodingOk(e)
  {
    if c == EOF then (START, if e.held == [] then [] else Quad(e.held))
    else if |e.held| < 2 then (Encoding(e.held + [c], e.echoed), [])
    else (Encoding([], NextColumn(e.echoed)), Line(e.held + [c], e.echoed))
  }

  function EncodeRun(e: Encoding, s: seq<Byte>): (r: (Encoding, seq<Byte>))
    requires EncodingOk(e)
    ensures EncodingOk(r.0)
    decreases |s|
  {
    if s == [] then (e, [])
    else
      var (e1, o1) := EncodeRun(e, s[..|s| - 1]);
      var (e2, o2) := EncodeStep(e1, s[|s| - 1]);
      (e2, o1 + o2)
  }

  function ColumnAfter(s: seq<Byte>, column: nat): nat {
    if |s| < 3 then column else ColumnAfter(s[3..], NextColumn(column))
  }

  lemma TextFirst(s: seq<Byte>, column: nat)
    requires |s| >= 3
    ensures Text(s, column) == Line(s[..3], column) + Text(s[3..], NextColumn(column))
    ensures |s| == 3 ==> Text(s, column) == Line(s, column)
  {
    if |s| == 3 {
      assert s[..3] == s;
      assert Line(s, column) + [] == Line(s, column);
    }
  }

  /** Text splits at every group boundary. */
  lemma {:induction false} TextConcat(a: seq<Byte>, b: seq<Byte>, column: nat)
    requires |a| % 3 == 0
    ensures Text(a + b, column) == Text(a, column) + Text(b, ColumnAfter(a, column))
    ensures |b| == 3 ==> ColumnAfter(a + b, column) == NextColumn(ColumnAfter(a, column))
  {
    if a == [] {
      Seqs.Unit(b);
      assert |b| == 3 ==> b[3..] == [];
    } else {
      TextConcat(a[3..], b, NextColumn(column));
      Seqs.DropFront(a, b, 3);
      TextFirst(a + b, column);
      TextFirst(a, column);
      var line, t, u := Line(a[..3], column), Text(a[3..], NextColumn(column)), Text(b, ColumnAfter(a, column));
      Seqs.Assoc(line, t, u);
    }
  }

  /** Where a run stands: full groups are written, the rest is held. */
  ghost predicate Grouped(r: (Encoding, seq<Byte>), s: seq<Byte>, n: nat) {
    && EncodingOk(r.0)
    && n % 3 == 0
    && n <= |s|
    && r.0.held == s[n..]
    && r.1 == Text(s[..n], 0)
    && r.0.echoed == ColumnAfter(s[..n], 0)
  }

  lemma GroupedMore(r: (Encoding, seq<Byte>), s: seq<Byte>, n: nat, b: Byte)
    requires Grouped(r, s, n)
    ensures var r' := (EncodeStep(r.0, b).0, r.1 + EncodeStep(r.0, b).1);
            Grouped(r', s + [b], if |r.0.held| < 2 then n else n + 3)
  {
    hide Text, ColumnAfter, Line;
    var t := s + [b];
    Seqs.DropFront(s, [b], n);
    if |r.0.held| == 2 {
      GroupedFull(r, s, n, b);
      assert t[..n + 3] == t && t[n + 3..] == [];
    } else {
      Seqs.Unit(r.1);
    }
  }

  lemma GroupedFull(r: (Encoding, seq<Byte>), s: seq<Byte>, n: nat, b: Byte)
    requires Grouped(r, s, n) && |r.0.held| == 2
    ensures r.1 + Line(r.0.held + [b], r.0.echoed) == Text(s + [b], 0)
    ensures NextColumn(r.0.echoed) == ColumnAfter(s + [b], 0)
  {
    var group := r.0.held + [b];
    TextConcat(s[..n], group, 0);
    assert s[..n] + group == s + [b];
    TextFirst(group, r.0.echoed);
  }

  lemma {:induction false} EncodeRunGrouped(s: seq<Byte>) returns (n: nat)
    ensures Grouped(EncodeRun(START, s), s, n)
    decreases |s|
  {
    n := 0;
    if s != [] {
      hide Text, ColumnAfter, EncodeStep, Grouped;
      var prefix := s[..|s| - 1];
      n := EncodeRunGrouped(prefix);
      GroupedMore(EncodeRun(START, prefix), prefix, n, s[|s| - 1]);
      Seqs.Snoc(s);
      n := if |EncodeRun(START, prefix).0.held| < 2 then n else n + 3;
    }
  }

  /** The character-at-a-time encoder writes the text of its input. */
  lemma EncodeIsText(s: seq<Byte>)
    ensures var (e, out) := EncodeRun(START, s);
            out + EncodeStep(e, EOF).1 == Text(s, 0)
  {
    var n := EncodeRunGrouped(s);
    TextConcat(s[..n], s[n..], 0);
    Seqs.Rejoin(s, n);
  }

  // ---------------------------------------------------------------- decoding in foot_filter

  /** The bytes of four collected characters. */
  function Unpack(q: seq<Byte>): seq<Byte>
    requires |q| == 4
  {
    [Bits(q[0]) * 4 + Bits(q[1]) / 16] +
    if q[2] == EQUALS then []
    else [Bits(q[1]) % 16 * 16 + Bits(q[2]) / 4] +
         if q[3] == EQUALS then [] else [Bits(q[2]) % 4 * 64 + Bits(q[3])]
  }

  predicate Collected(c: Code) {
    c == EQUALS || Decode64(c) != EOF
  }

  /** One call of decodechar: the new buffer and the characters to store. */
  function DecodeStep(held: seq<Byte>, c: Code): (seq<Byte>, seq<Byte>)
    requires |held| < 4
  {
    if c == EOF then ([], [])
    else if !Collected(c) then (held, [])
    else if |held| < 3 then (held + [c], [])
    else ([], Unpack(held + [c]))
  }

  function DecodeRun(held: seq<Byte>, s: seq<Byte>): (r: (seq<Byte>, seq<Byte>))
    requires |held| < 4
    ensures |r.0| < 4
    decreases |s|
  {
    if s == [] then (held, [])
    else
      var (h1, o1) := DecodeRun(held, s[..|s| - 1]);
      var (h2, o2) := DecodeStep(h1, s[|s| - 1]);
      (h2, o1 + o2)
  }

  lemma {:induction false} DecodeRunSplit(held: seq<Byte>, a: seq<Byte>, b: seq<Byte>)
    requires |held| < 4
    ensures var (h1, o1) := DecodeRun(held, a);
            var (h2, o2) := DecodeRun(h1, b);
            DecodeRun(held, a + b) == (h2, o1 + o2)
    decreases |b|
  {
    if b == [] {
      assert a + b == a;
      assert DecodeRun(held, a).1 + [] == DecodeRun(held, a).1;
    } else {
      var n := |b| - 1;
      DecodeRunSplit(held, a, b[..n]);
      Seqs.DropLast(a, b);
      var (h1, o1) := DecodeRun(held, a);
      var (h2, o2) := DecodeRun(h1, b[..n]);
      Seqs.Assoc(o1, o2, DecodeStep(h2, b[n]).1);
    }
  }

  /** How far the output can get ahead of the input if decoding goes on from these characters. */
  function Debt(held: seq<Byte>): nat
    requires |held| < 4
  {
    if |held| == 3 && held[2] == EQUALS then 0
    else if held == [] then 0
    else |held| - 1
  }

  lemma {:induction false} DecodeShrinks(held: seq<Byte>, s: seq<Byte>)
    requires |held| < 4
    ensures var (h, out) := DecodeRun(held, s);
            |out| + Debt(h) <= Debt(held) + |s|
    decreases |s|
  {
    if s != [] {
      DecodeShrinks(held, s[..|s| - 1]);
    }
  }

  lemma DecodeSnoc(held: seq<Byte>, s: seq<Byte>, b: Byte)
    requires |held| < 4
    ensures var (h1, o1) := DecodeRun(held, s);
            DecodeRun(held, s + [b]) == (DecodeStep(h1, b).0, o1 + DecodeStep(h1, b).1)
  {
    assert (s + [b])[..|s|] == s;
  }

  lemma DecodeQuad(q: seq<Byte>)
    requires |q| == 4 && forall i :: 0 <= i < 4 ==> Collected(q[i])
    ensures DecodeRun([], q) == ([], Unpack(q))
  {
    DecodeSnoc([], [], q[0]);
    assert [] + [q[0]] == q[..1];
    assert DecodeRun([], q[..1]) == (q[..1], [] + []);
    DecodeSnoc([], q[..1], q[1]);
    assert q[..1] + [q[1]] == q[..2];
    DecodeSnoc([], q[..2], q[2]);
    assert q[..2] + [q[2]] == q[..3];
    DecodeSnoc([], q[..3], q[3]);
    assert q[..3] + [q[3]] == q;
    assert DecodeRun([], q[..3]).1 == [];
    assert [] + Unpack(q) == Unpack(q);
  }

  lemma DecodeBreak(column: nat)
    ensures DecodeRun([], LineBreak(column)) == ([], [])
  {
    DecodeSnoc([], [], CR);
    DecodeSnoc([], [CR], LF);
    assert [] + [CR] == [CR] && [CR] + [LF] == [CR, LF];
  }

  lemma UnpackQuad(s: seq<Byte>)
    requires 1 <= |s| <= 3
    ensures |Quad(s)| == 4
    ensures forall i :: 0 <= i < 4 ==> Collected(Quad(s)[i])
    ensures Unpack(Quad(s)) == s
  {
    hide Char64, Decode64;
    AlphabetRoundTrip(s[0] / 4);
    if |s| == 1 {
      AlphabetRoundTrip(s[0] % 4 * 16);
    } else {
      AlphabetRoundTrip(s[0] % 4 * 16 + s[1] / 16);
      if |s| == 2 {
        AlphabetRoundTrip(s[1] % 16 * 4);
      } else {
        AlphabetRoundTrip(s[1] % 16 * 4 + s[2] / 64);
        AlphabetRoundTrip(s[2] % 64);
      }
    }
  }

  /** Decoding skips the line breaks, heeds the padding and gives back every byte. */
  lemma {:induction false} DecodeOfText(s: seq<Byte>, column: nat)
    ensures DecodeRun([], Text(s, column)) == ([], s)
  {
    if s != [] {
      var group := if |s| < 3 then s else s[..3];
      UnpackQuad(group);
      DecodeQuad(Quad(group));
      if |s| >= 3 {
        var quad, rest, next := Quad(group), s[3..], NextColumn(column);
        assert Text(s, column) == quad + LineBreak(column) + Text(rest, next);
        DecodeBreak(column);
        DecodeOfText(rest, next);
        hide *;
        DecodeRunSplit([], quad, LineBreak(column));
        DecodeRunSplit([], quad + LineBreak(column), Text(rest, next));
        Seqs.Unit(group);
        Seqs.Rejoin(s, 3);
      }
    }
  }

  /** Decode after encode is the identity on every byte sequence. */
  lemma DecodeOfEncode(s: seq<Byte>)
    ensures var (e, out) := EncodeRun(START, s);
            DecodeRun([], out + EncodeStep(e, EOF).1) == ([], s)
  {
    EncodeIsText(s);
    DecodeOfText(s, 0);
  }

  // ---------------------------------------------------------------- decoding in unistr.c

  const UINT_RANGE := 0x1_0000_0000

  /** The accumulator of decode_base64: an unsigned int and the number of its low bits still to be written. */
  datatype Accumulator = Accumulator(out: nat, bits: nat)

  predicate AccumulatorOk(a: Accumulator) {
    a.out < UINT_RANGE && a.bits in {0, 2, 4, 6}
  }

  function ShiftRight(x: nat, n: nat): nat {
    if n == 0 then x else ShiftRight(x, n - 1) / 2
  }

  lemma ShiftByTwos(x: nat)
    ensures ShiftRight(x, 2) == x / 4 && ShiftRight(x, 4) == x / 16
  {
    assert ShiftRight(x, 1) == x / 2;
    assert ShiftRight(x, 3) == ShiftRight(x, 2) / 2;
  }

  function AccumulateStep(a: Accumulator, c: Byte): (Accumulator, seq<Byte>) {
    var val := Decode64(c);
    if val == EOF then (a, [])
    else
      var out := a.out * 64 % UINT_RANGE + val;
      if a.bits + 6 >= 8 then (Accumulator(out, a.bits - 2), [ShiftRight(out, a.bits - 2) % 256])
      else (Accumulator(out, a.bits + 6), [])
  }

  function AccumulateRun(a: Accumulator, s: seq<Byte>): (Accumulator, seq<Byte>)
    decreases |s|
  {
    if s == [] then (a, [])
    else
      var (a1, o1) := AccumulateRun(a, s[..|s| - 1]);
      var (a2, o2) := AccumulateStep(a1, s[|s| - 1]);
      (a2, o1 + o2)
  }

  lemma {:induction false} AccumulateSplit(a: Accumulator, s: seq<Byte>, t: seq<Byte>)
    ensures var (a1, o1) := AccumulateRun(a, s);
            var (a2, o2) := AccumulateRun(a1, t);
            AccumulateRun(a, s + t) == (a2, o1 + o2)
    decreases |t|
  {
    if t == [] {
      assert s + t == s;
      assert AccumulateRun(a, s).1 + [] == AccumulateRun(a, s).1;
    } else {
      var n := |t| - 1;
      AccumulateSplit(a, s, t[..n]);
      Seqs.DropLast(s, t);
      var (a1, o1) := AccumulateRun(a, s);
      var (a2, o2) := AccumulateRun(a1, t[..n]);
      Seqs.Assoc(o1, o2, AccumulateStep(a2, t[n]).1);
    }
  }

  lemma AccumulateSnoc(a: Accumulator, s: seq<Byte>, b: Byte)
    ensures var (a1, o1) := AccumulateRun(a, s);
            AccumulateRun(a, s + [b]) == (AccumulateStep(a1, b).0, o1 + AccumulateStep(a1, b).1)
  {
    assert (s + [b])[..|s|] == s;
  }

  /** What a step from each of the four phases does, in terms of the low bits only. */
  lemma AccumulatePhase(a: Accumulator, v: nat)
    requires AccumulatorOk(a) && v < 64
    ensures var (a', o) := AccumulateStep(a, Char64(v));
            && AccumulatorOk(a')
            && (a.bits == 0 ==> a'.bits == 6 && a'.out % 64 == v && o == [])
            && (a.bits == 6 ==> a'.bits == 4 && a'.out % 16 == v % 16 && o == [a.out % 64 * 4 + v / 16])
            && (a.bits == 4 ==> a'.bits == 2 && a'.out % 4 == v % 4 && o == [a.out % 16 * 16 + v / 4])
            && (a.bits == 2 ==> a'.bits == 0 && o == [a.out % 4 * 64 + v])
  {
    AlphabetRoundTrip(v);
    ShiftByTwos(a.out * 64 % UINT_RANGE + v);
    ShiftLow(a.out, v);
  }

  lemma ShiftLow(out: nat, v: nat)
    requires out < UINT_RANGE && v < 64
    ensures var r := out * 64 % UINT_RANGE + v;
            && r < UINT_RANGE
            && r % 64 == v && r % 16 == v % 16 && r % 4 == v % 4
            && r / 16 % 256 == out % 64 * 4 + v / 16
            && r / 4 % 256 == out % 16 * 16 + v / 4
            && r % 256 == out % 4 * 64 + v
  {
    var high, m := out / 0x400_0000, out % 0x400_0000;
    assert out * 64 == UINT_RANGE * high + m * 64;
    assert out * 64 % UINT_RANGE == m * 64;
    DropHigh(high, m);
    LowParts(m, v);
  }

  lemma DivMod(k: int, q: int, r: int)
    requires 0 <= r < k
    ensures (k * q + r) / k == q && (k * q + r) % k == r
  {
    var d := (k * q + r) / k - q;
    assert k * q + r == k * ((k * q + r) / k) + (k * q + r) % k;
    assert k * d == r - (k * q + r) % k;
    if d != 0 {
      AtLeastOnce(k, d);
    }
  }

  lemma AtLeastOnce(k: int, d: int)
    requires k > 0 && d != 0
    ensures k * d >= k || k * d <= -k
  {
    if d > 0 {
      assert k * (d - 1) >= 0;
    } else {
      assert k * (-d - 1) >= 0;
    }
  }

  lemma DropHigh(high: nat, m: nat)
    ensures var out := 0x400_0000 * high + m;
            out % 64 == m % 64 && out % 16 == m % 16 && out % 4 == m % 4
  {
    DivMod(64, 0x10_0000 * high + m / 64, m % 64);
    DivMod(16, 0x40_0000 * high + m / 16, m % 16);
    DivMod(4, 0x100_0000 * high + m / 4, m % 4);
  }

  lemma LowParts(m: nat, v: nat)
    requires v < 64
    ensures var r := m * 64 + v;
            && r % 64 == v && r % 16 == v % 16 && r % 4 == v % 4
            && r / 16 % 256 == m % 64 * 4 + v / 16
            && r / 4 % 256 == m % 16 * 16 + v / 4
            && r % 256 == m % 4 * 64 + v
  {
    DivMod(64, m, v);
    DivMod(16, m * 4 + v / 16, v % 16);
    DivMod(4, m * 16 + v / 4, v % 4);
    DivMod(256, m / 64, m % 64 * 4 + v / 16);
    DivMod(256, m / 16, m % 16 * 16 + v / 4);
    DivMod(256, m / 4, m % 4 * 64 + v);
  }

  /** A quad read at phase 0 gives its bytes and leaves no whole byte behind. */
  lemma AccumulateQuad(a: Accumulator, s: seq<Byte>)
    requires AccumulatorOk(a) && a.bits == 0 && 1 <= |s| <= 3
    ensures var (a', o) := AccumulateRun(a, Quad(s));
            AccumulatorOk(a') && o == s && (|s| == 3 ==> a'.bits == 0)
  {
    var q := Quad(s);
    assert AccumulateRun(a, q[..0]) == (a, []);
    AccumulateSnoc(a, q[..0], q[0]);
    assert q[..0] + [q[0]] == q[..1];
    AccumulateFirst(a, s);
    var a1 := AccumulateStep(a, q[0]).0;
    AccumulateSnoc(a, q[..1], q[1]);
    assert q[..1] + [q[1]] == q[..2];
    AccumulateTail(a, s, AccumulateStep(a1, q[1]).0);
  }

  lemma AccumulateFirst(a: Accumulator, s: seq<Byte>)
    requires AccumulatorOk(a) && a.bits == 0 && 1 <= |s| <= 3
    ensures var (a1, o1) := AccumulateStep(a, Quad(s)[0]);
            var (a2, o2) := AccumulateStep(a1, Quad(s)[1]);
            && AccumulatorOk(a2) && [] + o1 + o2 == s[..1]
            && a2.bits == 4 && a2.out % 16 == if |s| == 1 then 0 else s[1] / 16
  {
    var v := if |s| == 1 then s[0] % 4 * 16 else s[0] % 4 * 16 + s[1] / 16;
    AccumulatePhase(a, s[0] / 4);
    AccumulatePhase(AccumulateStep(a, Quad(s)[0]).0, v);
    DivMod(16, s[0] % 4, if |s| == 1 then 0 else s[1] / 16);
    assert s[..1] == [s[0] / 4 * 4 + s[0] % 4];
  }

  lemma AccumulateTail(a: Accumulator, s: seq<Byte>, a2: Accumulator)
    requires 1 <= |s| <= 3
    requires AccumulatorOk(a2) && AccumulateRun(a, Quad(s)[..2]) == (a2, s[..1])
    requires a2.bits == 4 && a2.out % 16 == if |s| == 1 then 0 else s[1] / 16
    ensures var (a', o) := AccumulateRun(a, Quad(s));
            AccumulatorOk(a') && o == s && (|s| == 3 ==> a'.bits == 0)
  {
    var q := Quad(s);
    AccumulateSnoc(a, q[..2], q[2]);
    assert q[..2] + [q[2]] == q[..3];
    var (a3, o3) := AccumulateStep(a2, q[2]);
    AccumulateSnoc(a, q[..3], q[3]);
    assert q[..3] + [q[3]] == q;
    AccumulateLast(s, a2);
    assert AccumulateRun(a, q) == (AccumulateStep(a3, q[3]).0, s[..1] + o3 + AccumulateStep(a3, q[3]).1);
  }

  lemma AccumulateLast(s: seq<Byte>, a2: Accumulator)
    requires 1 <= |s| <= 3
    requires AccumulatorOk(a2) && a2.bits == 4 && a2.out % 16 == if |s| == 1 then 0 else s[1] / 16
    ensures var (a3, o3) := AccumulateStep(a2, Quad(s)[2]);
            var (a4, o4) := AccumulateStep(a3, Quad(s)[3]);
            AccumulatorOk(a4) && s[..1] + o3 + o4 == s && (|s| == 3 ==> a4.bits == 0)
  {
    if |s| == 1 {
      assert s[..1] + [] + [] == s;
    } else {
      var v := if |s| == 2 then s[1] % 16 * 4 else s[1] % 16 * 4 + s[2] / 64;
      AccumulatePhase(a2, v);
      DivMod(4, s[1] % 16, if |s| == 2 then 0 else s[2] / 64);
      var (a3, o3) := AccumulateStep(a2, Char64(v));
      assert o3 == [s[1]];
      hide AccumulateStep;
      if |s| == 2 {
        AccumulatePad(a3);
        assert s[..1] + [s[1]] + [] == s;
      } else {
        AccumulatePhase(a3, s[2] % 64);
        assert s[..1] + [s[1]] + [s[2]] == s;
      }
    }
  }

  lemma AccumulatePad(a: Accumulator)
    ensures AccumulateStep(a, EQUALS) == (a, [])
  {
  }

  lemma AccumulateBreak(a: Accumulator, column: nat)
    ensures AccumulateRun(a, LineBreak(column)) == (a, [])
  {
    AccumulateSnoc(a, [], CR);
    AccumulateSnoc(a, [CR], LF);
    assert [] + [CR] == [CR] && [CR] + [LF] == [CR, LF];
  }

  /** The independently written decoder agrees on everything the encoder writes. */
  lemma {:induction false} AccumulateOfText(a: Accumulator, s: seq<Byte>, column: nat)
    requires AccumulatorOk(a) && a.bits == 0
    ensures AccumulateRun(a, Text(s, column)).1 == s
    decreases |s|
  {
    if s != [] {
      var group := if |s| < 3 then s else s[..3];
      AccumulateQuad(a, group);
      if |s| >= 3 {
        var quad, rest, next := Quad(group), s[3..], NextColumn(column);
        assert Text(s, column) == quad + LineBreak(column) + Text(rest, next);
        var a1 := AccumulateRun(a, quad).0;
        AccumulateBreak(a1, column);
        AccumulateOfText(a1, rest, next);
        hide *;
        AccumulateSplit(a, quad, LineBreak(column));
        AccumulateSplit(a, quad + LineBreak(column), Text(rest, next));
        Seqs.Unit(group);
        Seqs.Rejoin(s, 3);
      }
    }
  }

  // ---------------------------------------------------------------- without the line ends

  /** Also free of what has a meaning in header words. */
  predicate Bare(s: seq<Byte>) {
    forall i :: 0 <= i < |s| ==> !IsLineEnd(s[i]) && s[i] != '?' as int && s[i] != SPACE && s[i] != TAB
  }

  /** A text with its lines put together. */
  function Unfolded(s: seq<Byte>): seq<Byte> {
    if s == [] then []
    else Unfolded(s[..|s| - 1]) + if IsLineEnd(s[|s| - 1]) then [] else [s[|s| - 1]]
  }

  lemma {:induction false} UnfoldedConcat(s: seq<Byte>, t: seq<Byte>)
    ensures Unfolded(s + t) == Unfolded(s) + Unfolded(t)
    decreases |t|
  {
    if t == [] {
      Seqs.Unit(s);
      Seqs.Unit(Unfolded(s));
    } else {
      var n := |t| - 1;
      UnfoldedConcat(s, t[..n]);
      Seqs.DropLast(s, t);
      Seqs.Assoc(Unfolded(s), Unfolded(t[..n]), if IsLineEnd(t[n]) then [] else [t[n]]);
    }
  }

  lemma {:induction false} UnfoldedLine(s: seq<Byte>)
    requires OnOneLine(s)
    ensures Unfolded(s) == s
  {
    if s != [] {
      UnfoldedLine(s[..|s| - 1]);
      Seqs.Snoc(s);
    }
  }

  /** The decoder does not care where the lines end. */
  lemma {:induction false} AccumulateUnfolded(a: Accumulator, s: seq<Byte>)
    ensures AccumulateRun(a, Unfolded(s)) == AccumulateRun(a, s)
  {
    if s != [] {
      var n := |s| - 1;
      AccumulateUnfolded(a, s[..n]);
      var (a1, o1) := AccumulateRun(a, s[..n]);
      Seqs.Unit(o1);
      if IsLineEnd(s[n]) {
        Seqs.Unit(Unfolded(s[..n]));
        assert AccumulateStep(a1, s[n]) == (a1, []);
      } else {
        AccumulateSnoc(a, Unfolded(s[..n]), s[n]);
      }
    }
  }

  lemma {:induction false} TextBare(s: seq<Byte>, column: nat)
    ensures Bare(Unfolded(Text(s, column)))
  {
    if s != [] {
      var group := if |s| < 3 then s else s[..3];
      QuadOnOneLine(group);
      var q := Quad(group);
      assert Bare(q);
      UnfoldedLine(q);
      if |s| >= 3 {
        TextBare(s[3..], NextColumn(column));
        UnfoldedBreak(column);
        hide *;
        UnfoldedText(s, column);
        BareConcat(q, Unfolded(Text(s[3..], NextColumn(column))));
      }
    }
  }

  lemma BareConcat(s: seq<Byte>, t: seq<Byte>)
    requires Bare(s) && Bare(t)
    ensures Bare(s + t)
  {
  }

  lemma UnfoldedBreak(column: nat)
    ensures Unfolded(LineBreak(column)) == []
  {
    assert [CR, LF][..1] == [CR] && [CR][..0] == [];
    assert Unfolded([CR]) == [] && Unfolded([CR, LF]) == [];
  }

  lemma UnfoldedText(s: seq<Byte>, column: nat)
    requires |s| >= 3 && Unfolded(Quad(s[..3])) == Quad(s[..3])
    ensures Unfolded(Text(s, column)) == Quad(s[..3]) + Unfolded(Text(s[3..], NextColumn(column)))
  {
    var q, rest := Quad(s[..3]), Text(s[3..], NextColumn(column));
    assert Text(s, column) == q + LineBreak(column) + rest;
    UnfoldedBreak(column);
    hide *;
    UnfoldedConcat(q, LineBreak(column));
    UnfoldedConcat(q + LineBreak(column), rest);
    Seqs.Unit(q);
  }

  // ---------------------------------------------------------------- foreign characters

  ghost predicate InAlphabet(b: Byte) {
    exists v :: 0 <= v < 64 && Letter(v) as int == b
  }

  /** The characters that are part of the encoding, with or without the padding. */
  ghost function Proper(s: seq<Byte>, padding: bool): seq<Byte> {
    if s == [] then []
    else
      var b := s[|s| - 1];
      Proper(s[..|s| - 1], padding) + if InAlphabet(b) || (padding && b == '=' as int) then [b] else []
  }

  /** Neither decoder cares for any other, wherever they stand. */
  lemma {:induction false} ForeignSkipped(held: seq<Byte>, a: Accumulator, s: seq<Byte>)
    requires |held| < 4
    ensures DecodeRun(held, Proper(s, true)) == DecodeRun(held, s)
    ensures AccumulateRun(a, Proper(s, false)) == AccumulateRun(a, s)
  {
    if s != [] {
      var n := |s| - 1;
      ForeignSkipped(held, a, s[..n]);
      PlaceInAlphabet(s[n]);
      DecodeNext(held, s, Proper(s[..n], true));
      AccumulateNext(a, s, Proper(s[..n], false));
      hide *;
      Kept(s);
    }
  }

  lemma Kept(s: seq<Byte>)
    requires s != []
    ensures var b, front := s[|s| - 1], s[..|s| - 1];
            && Proper(s, true) == Proper(front, true) + (if Collected(b) then [b] else [])
            && Proper(s, false) == Proper(front, false) + if Decode64(b) != EOF then [b] else []
  {
    PlaceInAlphabet(s[|s| - 1]);
    hide Letter, Decode64;
  }

  lemma DecodeNext(held: seq<Byte>, s: seq<Byte>, front: seq<Byte>)
    requires |held| < 4 && s != [] && DecodeRun(held, front) == DecodeRun(held, s[..|s| - 1])
    ensures DecodeRun(held, front + if Collected(s[|s| - 1]) then [s[|s| - 1]] else []) == DecodeRun(held, s)
  {
    hide Unpack, Decode64;
    var b := s[|s| - 1];
    Seqs.Unit(front);
    Seqs.Unit(DecodeRun(held, front).1);
    if Collected(b) {
      assert (front + [b])[..|front|] == front;
    }
  }

  lemma AccumulateNext(a: Accumulator, s: seq<Byte>, front: seq<Byte>)
    requires s != [] && AccumulateRun(a, front) == AccumulateRun(a, s[..|s| - 1])
    ensures AccumulateRun(a, front + if Decode64(s[|s| - 1]) != EOF then [s[|s| - 1]] else []) == AccumulateRun(a, s)
  {
    var b := s[|s| - 1];
    Seqs.Unit(front);
    Seqs.Unit(AccumulateRun(a, front).1);
    assert (front + [b])[..|front|] == front;
    hide ShiftRight, Decode64;
  }
}
