/** The quoted-printable half of contrib/foot_filter: section 6.7 of RFC 2045. */
module QuotedPrintable {
  import opened Bytes
  import Seqs

  // ---------------------------------------------------------------- hexadecimal digits

  /** The value of an upper-case hexadecimal digit, EOF for anything else. */
  function DecodeHex(c: Code): int {
    if '0' as int <= c <= '9' as int then c - '0' as int
    else if 'A' as int <= c <= 'F' as int then c - 'A' as int + 10
    else EOF
  }

  lemma HexRoundTrip(n: nat)
    requires n < 16
    ensures DecodeHex(HexDigit(n)) == n
  {
  }

  // ---------------------------------------------------------------- the text format

  /** What the encoder may write: a character as itself, =HH, a soft break, or a line end. */
  datatype Token = Literal(b: Byte) | Escape(b: Byte) | SoftBreak | HardBreak

  function Render(t: Token): seq<Byte> {
    match t
    case Literal(b) => [b]
    case Escape(b) => [EQUALS, HexDigit(b / 16), HexDigit(b % 16)]
    case SoftBreak => [EQUALS, CR, LF]
    case HardBreak => [CR, LF]
  }

  function RenderAll(ts: seq<Token>): seq<Byte> {
    if ts == [] then [] else Render(ts[0]) + RenderAll(ts[1..])
  }

  /** The bytes a token stands for. */
  function Meaning(t: Token): seq<Byte> {
    match t
    case Literal(b) => [b]
    case Escape(b) => [b]
    case SoftBreak => []
    case HardBreak => [CR, LF]
  }

  function MeaningAll(ts: seq<Token>): seq<Byte> {
    if ts == [] then [] else Meaning(ts[0]) + MeaningAll(ts[1..])
  }

  predicate IsPlain(c: Code) {
    33 <= c <= 60 || 62 <= c <= 126
  }

  predicate Legal(t: Token) {
    t.Literal? ==> IsPlain(t.b) || IsBlank(t.b)
  }

  lemma {:induction false} RenderAllConcat(a: seq<Token>, b: seq<Token>)
    ensures RenderAll(a + b) == RenderAll(a) + RenderAll(b)
    ensures MeaningAll(a + b) == MeaningAll(a) + MeaningAll(b)
  {
    hide Render, Meaning;
    if a == [] {
      Seqs.Unit(b);
      Seqs.Unit(RenderAll(b));
      Seqs.Unit(MeaningAll(b));
    } else {
      Seqs.DropFront(a, b, 1);
      RenderAllConcat(a[1..], b);
      Seqs.Assoc(Render(a[0]), RenderAll(a[1..]), RenderAll(b));
      Seqs.Assoc(Meaning(a[0]), MeaningAll(a[1..]), MeaningAll(b));
    }
  }

  /** What a quoted-printable text says, read with lookahead; a broken sequence stands for itself. */
  function Text(s: seq<Byte>): seq<Byte> {
    if s == [] then []
    else if s[0] != EQUALS then [s[0]] + Text(s[1..])
    else if |s| == 1 then s
    else if s[1] != CR && DecodeHex(s[1]) == EOF then s[..2] + Text(s[2..])
    else if |s| == 2 then s
    else if s[1] == CR then (if s[2] == LF then [] else s[..3]) + Text(s[3..])
    else if DecodeHex(s[2]) == EOF then s[..3] + Text(s[3..])
    else [DecodeHex(s[1]) * 16 + DecodeHex(s[2])] + Text(s[3..])
  }

  lemma TextOfToken(t: Token, rest: seq<Byte>)
    requires Legal(t)
    ensures Text(Render(t) + rest) == Meaning(t) + Text(rest)
  {
    var s := Render(t) + rest;
    match t {
      case Literal(b) => assert s[1..] == rest;
      case Escape(b) =>
        HexRoundTrip(b / 16);
        HexRoundTrip(b % 16);
        assert s[3..] == rest;
      case SoftBreak => assert s[3..] == rest;
      case HardBreak =>
        assert s[1..] == [LF] + rest;
        assert s[1..][1..] == rest;
        assert Text(s) == [CR] + ([LF] + Text(rest));
    }
  }

  /** Legal tokens in front of any text are read back as their meaning. */
  lemma {:induction false} TextOfTokens(ts: seq<Token>, rest: seq<Byte>)
    requires forall t :: t in ts ==> Legal(t)
    ensures Text(RenderAll(ts) + rest) == MeaningAll(ts) + Text(rest)
  {
    if ts == [] {
      assert RenderAll(ts) + rest == rest;
    } else {
      var tail := RenderAll(ts[1..]) + rest;
      TextOfTokens(ts[1..], rest);
      assert RenderAll(ts) + rest == Render(ts[0]) + tail;
      TextOfToken(ts[0], tail);
      assert Meaning(ts[0]) + (MeaningAll(ts[1..]) + Text(rest)) == MeaningAll(ts) + Text(rest);
    }
  }

  // ---------------------------------------------------------------- encoding

  /** `encoding_buffer` (at most one held character) and `encoding_echoed`. */
  datatype Encoding = Encoding(held: seq<Byte>, echoed: nat)

  const START := Encoding([], 0)

  /** One call of encodechar: the new state and the tokens written. */
  function EncodeStep(e: Encoding, c: Code): (Encoding, seq<Token>) {
    if e.echoed >= 68 then
      var (e', ts) := Accept(e.(echoed := 0), c);
      (e', [SoftBreak] + ts)
    else
      Accept(e, c)
  }

  /** The part of encodechar after the soft line break. */
  function Accept(e: Encoding, c: Code): (Encoding, seq<Token>) {
    if e.held == [] then Fresh(e.echoed, c)
    else if e.held[0] == CR && c == LF then (START, [HardBreak])
    else
      var settled := Settle(e.held[0], c);
      var (e', ts) := Fresh(e.echoed + Width(settled), c);
      (e', [settled] + ts)
  }

  /** How a held character is written once it is known what follows it. */
  function Settle(h: Byte, c: Code): Token {
    if h == CR || c == EOF || c == CR then Escape(h) else Literal(h)
  }

  function Width(t: Token): nat {
    match t
    case Literal(_) => 1
    case Escape(_) => 3
    case SoftBreak => 1
    case HardBreak => 0
  }

  /** The part of encodechar that deals with c when nothing is held. */
  function Fresh(echoed: nat, c: Code): (Encoding, seq<Token>) {
    if IsPlain(c) then (Encoding([], echoed + 1), [Literal(c)])
    else if IsBlank(c) then
      if echoed >= 55 then (START, [Literal(c), SoftBreak]) else (Encoding([c], echoed), [])
    else if c == CR then (Encoding([CR], echoed), [])
    else if c == EOF then (START, [])
    else (Encoding([], echoed + 3), [Escape(c)])
  }

  /** Encoding a run of bytes. */
  function EncodeRun(e: Encoding, s: seq<Byte>): (Encoding, seq<Token>)
    decreases |s|
  {
    if s == [] then (e, [])
    else
      var (e1, t1) := EncodeRun(e, s[..|s| - 1]);
      var (e2, t2) := EncodeStep(e1, s[|s| - 1]);
      (e2, t1 + t2)
  }

  /** A whole part: every byte, then the EOF of finish_encoding. */
  function Encode(s: seq<Byte>): seq<Byte> {
    var (e, ts) := EncodeRun(START, s);
    RenderAll(ts + EncodeStep(e, EOF).1)
  }

  /** What every reachable encoder state satisfies. */
  predicate EncodingOk(e: Encoding) {
    && e.echoed <= 73
    && |e.held| <= 1
    && (e.held != [] ==> e.held[0] == CR || (IsBlank(e.held[0]) && e.echoed < 55))
  }

  ghost predicate AllLegal(ts: seq<Token>) {
    forall t :: t in ts ==> Legal(t)
  }

  /** The tokens of one step are legal and say exactly: what was held, then c, less what is held now. */
  lemma EncodeStepMeaning(e: Encoding, c: Code)
    requires EncodingOk(e)
    ensures var (e', ts) := EncodeStep(e, c);
            && EncodingOk(e')
            && AllLegal(ts)
            && MeaningAll(ts) + e'.held == e.held + Said(c)
            && (c == EOF ==> e' == START)
  {
    hide Accept, MeaningAll, AllLegal;
    if e.echoed >= 68 {
      AcceptMeaning(e.(echoed := 0), c);
      BreakMeaning(Accept(e.(echoed := 0), c).1);
    } else {
      AcceptMeaning(e, c);
    }
  }

  /** A soft line break in front of the tokens says nothing. */
  lemma BreakMeaning(ts: seq<Token>)
    ensures MeaningAll([SoftBreak] + ts) == MeaningAll(ts)
    ensures AllLegal(ts) ==> AllLegal([SoftBreak] + ts)
  {
    assert ([SoftBreak] + ts)[1..] == ts;
    Seqs.Unit(MeaningAll(ts));
  }

  lemma AcceptMeaning(e: Encoding, c: Code)
    requires EncodingOk(e) && e.echoed < 68
    ensures var (e', ts) := Accept(e, c);
            && EncodingOk(e')
            && AllLegal(ts)
            && MeaningAll(ts) + e'.held == e.held + Said(c)
            && (c == EOF ==> e' == START)
  {
    hide MeaningAll, Fresh;
    if e.held == [] {
      FreshMeaning(e.echoed, c);
    } else if e.held[0] == CR && c == LF {
      HardBreakMeaning();
    } else {
      var settled := Settle(e.held[0], c);
      SettledMeaning(e.held[0], c);
      FreshMeaning(e.echoed + Width(settled), c);
      var (e', ts) := Fresh(e.echoed + Width(settled), c);
      Seqs.Unit(e.held);
      MeaningChain([settled], [], ts, e'.held, e.held, Said(c));
    }
  }

  lemma HardBreakMeaning()
    ensures MeaningAll([HardBreak]) == [CR, LF]
  {
  }

  lemma SettledMeaning(b: Byte, c: Code)
    ensures MeaningAll([Settle(b, c)]) == [b]
  {
  }

  function Said(c: Code): seq<Byte> {
    if c == EOF then [] else [c]
  }

  lemma FreshMeaning(echoed: nat, c: Code)
    ensures var (e', ts) := Fresh(echoed, c);
            && AllLegal(ts)
            && MeaningAll(ts) + e'.held == Said(c)
            && e'.echoed <= echoed + 3
            && |e'.held| <= 1
            && (e'.held != [] ==> (e'.held[0] == CR || (IsBlank(e'.held[0]) && echoed < 55)) && e'.echoed == echoed)
            && (c == EOF ==> e' == START)
  {
    if IsBlank(c) && echoed >= 55 {
      assert [Literal(c), SoftBreak][1..] == [SoftBreak];
      assert MeaningAll([Literal(c), SoftBreak]) == [c] + MeaningAll([SoftBreak]);
    }
  }

  /** What the tokens written so far, together with the held character, say. */
  ghost predicate Says(r: (Encoding, seq<Token>), s: seq<Byte>) {
    EncodingOk(r.0) && AllLegal(r.1) && MeaningAll(r.1) + r.0.held == s
  }

  lemma SaysMore(r: (Encoding, seq<Token>), s: seq<Byte>, b: Byte)
    requires Says(r, s)
    ensures Says((EncodeStep(r.0, b).0, r.1 + EncodeStep(r.0, b).1), s + [b])
  {
    EncodeStepMeaning(r.0, b);
    MeaningChain(r.1, r.0.held, EncodeStep(r.0, b).1, EncodeStep(r.0, b).0.held, s, [b]);
  }

  lemma {:induction false} EncodeRunMeaning(s: seq<Byte>)
    ensures Says(EncodeRun(START, s), s)
    decreases |s|
  {
    hide EncodeStep;
    if s == [] {
      assert MeaningAll([]) == [];
      Seqs.Unit(s);
    } else {
      hide Says;
      var n := |s| - 1;
      EncodeRunMeaning(s[..n]);
      SaysMore(EncodeRun(START, s[..n]), s[..n], s[n]);
      Seqs.Snoc(s);
    }
  }

  /** Composition of two steps of the "meaning plus held" equation. */
  lemma MeaningChain(t1: seq<Token>, h1: seq<Byte>, t2: seq<Token>, h2: seq<Byte>, s1: seq<Byte>, s2: seq<Byte>)
    requires MeaningAll(t1) + h1 == s1
    requires MeaningAll(t2) + h2 == h1 + s2
    requires AllLegal(t1) && AllLegal(t2)
    ensures MeaningAll(t1 + t2) + h2 == s1 + s2
    ensures AllLegal(t1 + t2)
  {
    RenderAllConcat(t1, t2);
    Seqs.Assoc(MeaningAll(t1), MeaningAll(t2), h2);
    Seqs.Assoc(MeaningAll(t1), h1, s2);
  }

  /** Reading back what was encoded gives the original bytes, whatever they are. */
  lemma TextOfEncode(s: seq<Byte>)
    ensures Text(Encode(s)) == s
  {
    var (e, ts) := EncodeRun(START, s);
    EncodeRunMeaning(s);
    EncodeStepMeaning(e, EOF);
    var last := EncodeStep(e, EOF).1;
    MeaningChain(ts, e.held, last, [], s, []);
    TextOfTokens(ts + last, []);
    assert RenderAll(ts + last) + [] == RenderAll(ts + last);
  }

  // ---------------------------------------------------------------- the shape of the output

  const LINE_LIMIT := 74

  function Advance(t: Token, column: nat): nat {
    if t.SoftBreak? || t.HardBreak? then 0 else column + Width(t)
  }

  predicate Fits(ts: seq<Token>, column: nat) {
    ts == [] || (column + Width(ts[0]) <= LINE_LIMIT && Fits(ts[1..], Advance(ts[0], column)))
  }

  function FinalColumn(ts: seq<Token>, column: nat): nat {
    if ts == [] then column else FinalColumn(ts[1..], Advance(ts[0], column))
  }

  predicate BlankToken(t: Token) {
    t.Literal? && IsBlank(t.b)
  }

  predicate BlankThenBreak(ts: seq<Token>) {
    exists i :: 0 <= i < |ts| - 1 && BlankToken(ts[i]) && ts[i + 1].HardBreak?
  }

  lemma {:induction false} FitsConcat(a: seq<Token>, b: seq<Token>, column: nat)
    ensures Fits(a + b, column) <==> Fits(a, column) && Fits(b, FinalColumn(a, column))
    ensures FinalColumn(a + b, column) == FinalColumn(b, FinalColumn(a, column))
  {
    if a == [] {
      assert a + b == b;
    } else {
      assert (a + b)[1..] == a[1..] + b;
      FitsConcat(a[1..], b, Advance(a[0], column));
    }
  }

  /** The state after some calls of encodechar agrees with the lines written. */
  ghost predicate Laid(r: (Encoding, seq<Token>)) {
    && EncodingOk(r.0)
    && AllLegal(r.1)
    && Fits(r.1, 0)
    && FinalColumn(r.1, 0) == r.0.echoed
    && !BlankThenBreak(r.1)
    && (r.1 != [] && BlankToken(r.1[|r.1| - 1]) ==> r.0.held != [] && IsBlank(r.0.held[0]))
  }

  lemma AcceptFits(e: Encoding, c: Code)
    requires EncodingOk(e) && e.echoed < 68
    ensures var (e', ts) := Accept(e, c);
            && Fits(ts, e.echoed)
            && (c != EOF ==> FinalColumn(ts, e.echoed) == e'.echoed)
  {
    if e.held == [] {
      FreshFits(e.echoed, c);
    } else if e.held[0] == CR && c == LF {
      assert [HardBreak][1..] == [];
    } else {
      var settled := Settle(e.held[0], c);
      FreshFits(e.echoed + Width(settled), c);
      assert ([settled] + Fresh(e.echoed + Width(settled), c).1)[1..] == Fresh(e.echoed + Width(settled), c).1;
    }
  }

  lemma FreshFits(echoed: nat, c: Code)
    requires echoed <= 70
    ensures var (e', ts) := Fresh(echoed, c);
            Fits(ts, echoed) && (c != EOF ==> FinalColumn(ts, echoed) == e'.echoed)
  {
    var ts := Fresh(echoed, c).1;
    if |ts| == 2 {
      assert ts == [Literal(c)] + [SoftBreak];
      FitsConcat([Literal(c)], [SoftBreak], echoed);
    }
  }

  lemma StepFits(e: Encoding, c: Code)
    requires EncodingOk(e)
    ensures var (e', ts) := EncodeStep(e, c);
            Fits(ts, e.echoed) && (c != EOF ==> FinalColumn(ts, e.echoed) == e'.echoed)
  {
    if e.echoed >= 68 {
      AcceptFits(e.(echoed := 0), c);
      var ts := Accept(e.(echoed := 0), c).1;
      assert ([SoftBreak] + ts)[1..] == ts;
    } else {
      AcceptFits(e, c);
    }
  }

  /** A blank is written only in front of something other than a line end. */
  lemma StepBlanks(e: Encoding, c: Code)
    requires EncodingOk(e)
    ensures var (e', ts) := EncodeStep(e, c);
            && !BlankThenBreak(ts)
            && (ts != [] && ts[0].HardBreak? ==> e.held == [CR])
            && (ts != [] && BlankToken(ts[|ts| - 1]) ==> e'.held != [] && IsBlank(e'.held[0]))
            && (ts == [] && e.held != [] && IsBlank(e.held[0]) ==> e' == e)
  {
  }

  lemma LaidMore(r: (Encoding, seq<Token>), c: Byte)
    requires Laid(r)
    ensures Laid((EncodeStep(r.0, c).0, r.1 + EncodeStep(r.0, c).1))
  {
    EncodeStepMeaning(r.0, c);
    StepFits(r.0, c);
    StepBlanks(r.0, c);
    FitsConcat(r.1, EncodeStep(r.0, c).1, 0);
  }

  lemma {:induction false} EncodeRunLaid(s: seq<Byte>)
    ensures Laid(EncodeRun(START, s))
    decreases |s|
  {
    if s != [] {
      EncodeRunLaid(s[..|s| - 1]);
      LaidMore(EncodeRun(START, s[..|s| - 1]), s[|s| - 1]);
    }
  }

  lemma RenderLines(t: Token, column: nat)
    requires Legal(t) && column <= LINE_LIMIT
    ensures LinesAtMost(Render(t), column, LINE_LIMIT) <==> column + Width(t) <= LINE_LIMIT
    ensures EndColumn(Render(t), column) == Advance(t, column)
  {
    var s := Render(t);
    OneByteLine(s[0], column);
    if |s| > 1 {
      assert s == [s[0]] + s[1..];
      LinesAtMostConcat([s[0]], s[1..], column, LINE_LIMIT);
      OneByteLine(s[1], EndColumn([s[0]], column));
    }
    if |s| == 3 {
      assert s[1..] == [s[1]] + [s[2]];
      LinesAtMostConcat([s[1]], [s[2]], column + 1, LINE_LIMIT);
      OneByteLine(s[2], EndColumn([s[1]], column + 1));
    }
  }

  lemma OneByteLine(b: Byte, column: nat)
    ensures LinesAtMost([b], column, LINE_LIMIT) <==> IsLineEnd(b) || column < LINE_LIMIT
    ensures EndColumn([b], column) == if IsLineEnd(b) then 0 else column + 1
  {
  }

  lemma {:induction false} FitsLines(ts: seq<Token>, column: nat)
    requires AllLegal(ts) && Fits(ts, column)
    ensures LinesAtMost(RenderAll(ts), column, LINE_LIMIT)
  {
    if ts != [] {
      RenderLines(ts[0], column);
      FitsLines(ts[1..], Advance(ts[0], column));
      LinesAtMostConcat(Render(ts[0]), RenderAll(ts[1..]), column, LINE_LIMIT);
    }
  }

  lemma {:induction false} BlanksInside(ts: seq<Token>)
    requires AllLegal(ts) && !BlankThenBreak(ts)
    ensures NoBlankBeforeBreak(RenderAll(ts))
    ensures ts != [] && RenderAll(ts)[0] == CR ==> ts[0].HardBreak?
  {
    if ts != [] {
      forall i | 0 <= i < |ts[1..]| - 1
        ensures !(BlankToken(ts[1..][i]) && ts[1..][i + 1].HardBreak?)
      {
        assert ts[1..][i] == ts[i + 1] && ts[1..][i + 1] == ts[i + 2];
      }
      BlanksInside(ts[1..]);
      var s, rest := RenderAll(ts), RenderAll(ts[1..]);
      assert Legal(ts[0]) && s[0] == Render(ts[0])[0];
      var n := |Render(ts[0])|;
      forall i {:trigger s[i]} | 0 < i < |s| && s[i] == CR
        ensures !IsBlank(s[i - 1])
      {
        if i > n {
          assert s[i] == rest[i - n] && s[i - 1] == rest[i - n - 1];
        } else if i == n {
          assert rest[0] == CR;
        }
      }
    }
  }

  /**
   * The output for any part: no line is longer than 74 characters, so the limit of 76 set by rule 5
   * of section 6.7 of RFC 2045 is met, and by rule 3 no blank stands at the end of a line.
   */
  lemma EncodeShape(s: seq<Byte>)
    ensures LinesAtMost(Encode(s), 0, 74)
    ensures NoBlankBeforeBreak(Encode(s))
    ensures Encode(s) != [] ==> !IsBlank(Encode(s)[|Encode(s)| - 1])
  {
    assert RenderAll([]) == [];
    hide EncodeRun, EncodeStep, RenderAll, Fits, FinalColumn, LinesAtMost, MeaningAll;
    hide AllLegal, BlankThenBreak, NoBlankBeforeBreak, BlankToken, EncodingOk;
    var r := EncodeRun(START, s);
    var ts := r.1 + EncodeStep(r.0, EOF).1;
    EncodeRunLaid(s);
    LaidAtEnd(r);
    hide Laid;
    FitsLines(ts, 0);
    BlanksInside(ts);
    if ts != [] {
      LastByte(ts);
    }
  }

  /** The tokens of a whole part. */
  lemma LaidAtEnd(r: (Encoding, seq<Token>))
    requires Laid(r)
    ensures var ts := r.1 + EncodeStep(r.0, EOF).1;
            && AllLegal(ts) && Fits(ts, 0) && !BlankThenBreak(ts)
            && (ts != [] ==> !BlankToken(ts[|ts| - 1]))
  {
    hide Fits, FinalColumn, AllLegal, BlankThenBreak, MeaningAll, EncodeStep;
    var last := EncodeStep(r.0, EOF).1;
    EncodeStepMeaning(r.0, EOF);
    StepFits(r.0, EOF);
    StepBlanks(r.0, EOF);
    FitsConcat(r.1, last, 0);
    NoBreakAtSeam(r.1, last);
  }

  lemma NoBreakAtSeam(a: seq<Token>, b: seq<Token>)
    requires AllLegal(a) && AllLegal(b) && !BlankThenBreak(a) && !BlankThenBreak(b)
    requires !(a != [] && BlankToken(a[|a| - 1]) && b != [] && b[0].HardBreak?)
    ensures AllLegal(a + b) && !BlankThenBreak(a + b)
  {
  }

  lemma {:induction false} LastByte(ts: seq<Token>)
    requires ts != [] && AllLegal(ts)
    ensures RenderAll(ts) != []
    ensures IsBlank(RenderAll(ts)[|RenderAll(ts)| - 1]) ==> BlankToken(ts[|ts| - 1])
  {
    if |ts| > 1 {
      LastByte(ts[1..]);
    }
  }

  /** Between calls the column stays below 74, and below 55 while a blank is held. */
  lemma EchoedBounds(s: seq<Byte>)
    ensures var (e, ts) := EncodeRun(START, s);
            && e.echoed == FinalColumn(ts, 0) <= 73
            && (e.held != [] && IsBlank(e.held[0]) ==> e.echoed < 55)
  {
    EncodeRunLaid(s);
  }

  // ---------------------------------------------------------------- decoding

  /** `decoding_filled` and `decoding_buffer`: nothing, an '=', or an '=' and one more character. */
  datatype Decoding = Idle | SawEquals | SawMore(b: Byte)

  /** One call of decodechar: the new state and the characters to store. */
  function DecodeStep(d: Decoding, c: Code): (Decoding, seq<Byte>) {
    match d
    case Idle => if c == EQUALS then (SawEquals, []) else (Idle, Said(c))
    case SawEquals =>
      if c == CR || DecodeHex(c) != EOF then (SawMore(c), []) else (Idle, [EQUALS] + Said(c))
    case SawMore(b) =>
      if b == CR then (Idle, if c == LF then [] else [EQUALS, CR] + Said(c))
      else if DecodeHex(c) == EOF || DecodeHex(b) == EOF then (Idle, [EQUALS, b] + Said(c))
      else (Idle, [DecodeHex(b) * 16 + DecodeHex(c)])
  }

  function DecodeRun(d: Decoding, s: seq<Byte>): (Decoding, seq<Byte>)
    decreases |s|
  {
    if s == [] then (d, [])
    else
      var (d1, o1) := DecodeRun(d, s[..|s| - 1]);
      var (d2, o2) := DecodeStep(d1, s[|s| - 1]);
      (d2, o1 + o2)
  }

  /** The characters a decoder state is sitting on. */
  function Pending(d: Decoding): seq<Byte> {
    match d
    case Idle => []
    case SawEquals => [EQUALS]
    case SawMore(b) => [EQUALS, b]
  }

  /** Every held character is one that can follow '='. */
  predicate DecodingOk(d: Decoding) {
    d.SawMore? ==> d.b == CR || DecodeHex(d.b) != EOF
  }

  lemma {:induction false} DecodeRunSplit(d: Decoding, a: seq<Byte>, b: seq<Byte>)
    ensures var (d1, o1) := DecodeRun(d, a);
            var (d2, o2) := DecodeRun(d1, b);
            DecodeRun(d, a + b) == (d2, o1 + o2)
    decreases |b|
  {
    if b == [] {
      Seqs.Unit(a);
      Seqs.Unit(DecodeRun(d, a).1);
    } else {
      var n := |b| - 1;
      DecodeRunSplit(d, a, b[..n]);
      Seqs.DropLast(a, b);
      var (d1, o1) := DecodeRun(d, a);
      var (d2, o2) := DecodeRun(d1, b[..n]);
      Seqs.Assoc(o1, o2, DecodeStep(d2, b[n]).1);
    }
  }

  ghost predicate Reads(r: (Decoding, seq<Byte>), s: seq<Byte>) {
    DecodingOk(r.0) && r.1 + Pending(r.0) == Text(s)
  }

  lemma ReadsPrefix(s: seq<Byte>, k: nat, out: seq<Byte>)
    requires k <= |s|
    requires DecodeRun(Idle, s[..k]) == (Idle, out)
    requires Text(s) == out + Text(s[k..])
    requires Reads(DecodeRun(Idle, s[k..]), s[k..])
    ensures Reads(DecodeRun(Idle, s), s)
  {
    DecodeRunSplit(Idle, s[..k], s[k..]);
    Seqs.Rejoin(s, k);
    var r := DecodeRun(Idle, s[k..]);
    Seqs.Assoc(out, r.1, Pending(r.0));
  }

  /** One more byte at the end of a run. */
  lemma DecodeSnoc(d: Decoding, s: seq<Byte>, b: Byte)
    ensures var (d1, o1) := DecodeRun(d, s);
            DecodeRun(d, s + [b]) == (DecodeStep(d1, b).0, o1 + DecodeStep(d1, b).1)
  {
    assert (s + [b])[..|s|] == s;
  }

  lemma DecodePair(a: Byte, b: Byte)
    ensures DecodeRun(Idle, [a]) == DecodeStep(Idle, a)
    ensures a == EQUALS ==> DecodeRun(Idle, [a, b]) == DecodeStep(SawEquals, b)
  {
    DecodeSnoc(Idle, [], a);
    assert [] + [a] == [a];
    assert [] + DecodeStep(Idle, a).1 == DecodeStep(Idle, a).1;
    DecodeSnoc(Idle, [a], b);
    assert [a] + [b] == [a, b];
    assert [] + DecodeStep(SawEquals, b).1 == DecodeStep(SawEquals, b).1;
  }

  lemma DecodeTriple(a: Byte, b: Byte, c: Byte)
    requires a == EQUALS && (b == CR || DecodeHex(b) != EOF)
    ensures DecodeRun(Idle, [a, b, c]) == DecodeStep(SawMore(b), c)
  {
    DecodePair(a, b);
    DecodeSnoc(Idle, [a, b], c);
    assert [a, b] + [c] == [a, b, c];
    assert [] + DecodeStep(SawMore(b), c).1 == DecodeStep(SawMore(b), c).1;
  }

  /** How many characters at the front of s settle together, 0 if s ends first. */
  function Settled(s: seq<Byte>): (k: nat)
    ensures k <= |s|
  {
    if s == [] then 0
    else if s[0] != EQUALS then 1
    else if |s| == 1 then 0
    else if s[1] != CR && DecodeHex(s[1]) == EOF then 2
    else if |s| == 2 then 0
    else 3
  }

  lemma ReadsNothingSettled(s: seq<Byte>)
    requires Settled(s) == 0
    ensures Reads(DecodeRun(Idle, s), s)
  {
    if s != [] {
      DecodePair(s[0], s[|s| - 1]);
      assert s == [s[0]] || s == [s[0], s[1]];
    }
  }

  lemma SettledRun(s: seq<Byte>)
    requires Settled(s) > 0
    ensures var k := Settled(s);
            var r := DecodeRun(Idle, s[..k]);
            r.0 == Idle && Text(s) == r.1 + Text(s[k..])
  {
    var k := Settled(s);
    if k == 1 {
      DecodePair(s[0], s[0]);
      assert s[..k] == [s[0]];
    } else if k == 2 {
      DecodePair(s[0], s[1]);
      assert s[..k] == [s[0], s[1]] == [EQUALS] + Said(s[1]);
    } else {
      DecodeTriple(s[0], s[1], s[2]);
      assert s[..k] == [s[0], s[1], s[2]] == [EQUALS, s[1]] + Said(s[2]);
    }
  }

  /** The state machine reads what the lookahead definition reads, up to what it still holds. */
  lemma {:induction false} DecodeRunReads(s: seq<Byte>)
    ensures Reads(DecodeRun(Idle, s), s)
    decreases |s|
  {
    var k := Settled(s);
    if k == 0 {
      ReadsNothingSettled(s);
    } else {
      SettledRun(s);
      DecodeRunReads(s[k..]);
      ReadsPrefix(s, k, DecodeRun(Idle, s[..k]).1);
    }
  }

  /** Decoding a whole part, EOF included, gives what the text says. */
  lemma DecodeIsText(s: seq<Byte>)
    ensures var (d, out) := DecodeRun(Idle, s);
            out + DecodeStep(d, EOF).1 == Text(s)
  {
    DecodeRunReads(s);
  }

  /** Decode after encode is the identity on every byte sequence. */
  lemma DecodeOfEncode(s: seq<Byte>)
    ensures var (d, out) := DecodeRun(Idle, Encode(s));
            out + DecodeStep(d, EOF).1 == s
  {
    DecodeIsText(Encode(s));
    TextOfEncode(s);
  }

  /** Output never overtakes input: what is stored plus what is held is at most what was read. */
  lemma {:induction false} DecodeShrinks(d: Decoding, s: seq<Byte>)
    ensures var (d', out) := DecodeRun(d, s);
            |out| + |Pending(d')| <= |Pending(d)| + |s|
    decreases |s|
  {
    if s != [] {
      DecodeShrinks(d, s[..|s| - 1]);
    }
  }

  /** Whatever came before, a CRLF leaves the decoder idle. */
  lemma DecodeIdleAfterLine(d: Decoding, s: seq<Byte>)
    requires |s| >= 2 && s[|s| - 2] == CR && s[|s| - 1] == LF
    ensures DecodeRun(d, s).0 == Idle
  {
    var n := |s| - 1;
    assert s[..n][|s[..n]| - 1] == CR;
    assert s[..n][..n - 1] == s[..n - 1];
    var d1 := DecodeRun(d, s[..n - 1]).0;
    var d2 := DecodeStep(d1, CR).0;
    assert DecodeRun(d, s[..n]).0 == d2;
  }
}
