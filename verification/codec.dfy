/**
 * The character-at-a-time encoder and decoder of contrib/foot_filter/foot_filter.c, with the state
 * they keep between calls. `output` stands for what is handed to put(), above its line-ending shim.
 */
module Codec {
  import opened Bytes
  import Seqs
  import QP = QuotedPrintable
  import B64 = Base64

  datatype Scheme = Unencoded | Quoted | Base

  class Encoder {
    const encoding: Scheme
    const buffer: array<Byte>
    var filled: nat
    var echoed: nat
    var output: seq<Byte>

    ghost predicate Valid()
      reads this, buffer
    {
      && buffer.Length == 4
      && filled <= 4
      && (encoding == Quoted ==> QP.EncodingOk(QuotedState()))
      && (encoding == Base ==> B64.EncodingOk(BaseState()))
    }

    ghost function QuotedState(): QP.Encoding
      reads this, buffer
      requires filled <= buffer.Length
    {
      QP.Encoding(buffer[..filled], echoed)
    }

    ghost function BaseState(): B64.Encoding
      reads this, buffer
      requires filled <= buffer.Length
    {
      B64.Encoding(buffer[..filled], echoed)
    }

    constructor (encoding: Scheme)
      ensures Valid() && fresh(buffer)
      ensures this.encoding == encoding && output == []
      ensures filled == 0 && echoed == 0
    {
      this.encoding := encoding;
      buffer := new Byte[4](_ => 0);
      filled, echoed := 0, 0;
      output := [];
    }

    method Put(c: Byte)
      modifies this`output
      ensures output == old(output) + [c]
    {
      output := output + [c];
    }

    method PutString(s: seq<Byte>)
      modifies this`output
      ensures output == old(output) + s
    {
      output := output + s;
    }

    method EncodeHexByte(h: Byte)
      modifies this`output
      ensures output == old(output) + [HexDigit(h / 16), HexDigit(h % 16)]
    {
      var h1 := h / 16 % 16;
      var h2 := h % 16;
      if h1 < 10 { Put('0' as int + h1); } else { Put('A' as int + h1 - 10); }
      if h2 < 10 { Put('0' as int + h2); } else { Put('A' as int + h2 - 10); }
    }

    method Escape(h: Byte)
      modifies this`output
      ensures output == old(output) + QP.Render(QP.Escape(h))
    {
      Put(EQUALS);
      EncodeHexByte(h);
    }

    method Encode64(b: nat)
      requires b < 64
      modifies this`output
      ensures output == old(output) + [B64.Char64(b)]
    {
      if b < 26 { Put('A' as int + b); }
      else if b < 52 { Put('a' as int + b - 26); }
      else if b < 62 { Put('0' as int + b - 52); }
      else if b == 62 { Put('+' as int); }
      else { Put('/' as int); }
    }

    /** encodechar: dispatch on the current encoding. */
    method EncodeChar(c: Code)
      requires Valid()
      modifies this`filled, this`echoed, this`output, buffer
      ensures Valid()
      ensures encoding == Unencoded ==> output == old(output) + QP.Said(c)
      ensures encoding == Quoted ==>
                var (e, ts) := QP.EncodeStep(old(QuotedState()), c);
                QuotedState() == e && output == old(output) + QP.RenderAll(ts)
      ensures encoding == Base ==>
                var (e, out) := B64.EncodeStep(old(BaseState()), c);
                BaseState() == e && output == old(output) + out
    {
      if encoding == Unencoded {
        if c != EOF { Put(c); }
      } else if encoding == Quoted {
        EncodeQuoted(c);
      } else {
        EncodeBase(c);
      }
    }

    method EncodeQuoted(c: Code)
      requires Valid() && encoding == Quoted
      modifies this`filled, this`echoed, this`output, buffer
      ensures Valid()
      ensures var (e, ts) := QP.EncodeStep(old(QuotedState()), c);
              QuotedState() == e && output == old(output) + QP.RenderAll(ts)
    {
      QP.EncodeStepMeaning(QuotedState(), c);
      ghost var before := output;
      if echoed >= 68 {
        // a soft line break
        PutString([EQUALS, CR, LF]);
        echoed := 0;
      }
      ghost var between, ts := output, QP.Accept(QuotedState(), c).1;
      AcceptQuoted(c);
      hide QP.Accept;
      assert QP.RenderAll([QP.SoftBreak]) == [EQUALS, CR, LF];
      hide QP.RenderAll;
      QP.RenderAllConcat([QP.SoftBreak], ts);
      Seqs.Assoc(before, [EQUALS, CR, LF], QP.RenderAll(ts));
    }

    /** The quoted-printable branch behind the soft line break. */
    method AcceptQuoted(c: Code)
      requires buffer.Length == 4 && filled <= 1 && QP.EncodingOk(QuotedState())
      modifies this`filled, this`echoed, this`output, buffer
      ensures filled <= 1
      ensures var (e, ts) := QP.Accept(old(QuotedState()), c);
              QuotedState() == e && output == old(output) + QP.RenderAll(ts)
    {
      hide QP.Fresh, QP.RenderAll, QP.Render;
      ghost var start, before := QuotedState(), output;
      if filled == 1 {
        // whatever happens, this is dealt with now
        if buffer[0] == CR && c == LF {
          filled := 0;
          PutString([CR, LF]);
          echoed := 0;
        } else {
          SettleHeld(c);
          assert QuotedState() == QP.Encoding([], start.echoed + QP.Width(QP.Settle(start.held[0], c)));
          EncodeFresh(c);
        }
      } else {
        EncodeFresh(c);
      }
      QuotedOutput(start, c, before, output);
    }

    /** What was held is written, as the next character allows. */
    method SettleHeld(c: Code)
      requires buffer.Length == 4 && filled == 1 && !(buffer[0] == CR && c == LF)
      modifies this`filled, this`echoed, this`output
      ensures filled == 0
      ensures var t := QP.Settle(buffer[0], c);
              echoed == old(echoed) + QP.Width(t) && output == old(output) + QP.Render(t)
    {
      filled := 0;
      if buffer[0] == CR {
        Escape(CR);
        echoed := echoed + 3;
      } else if c == EOF || c == CR {
        Escape(buffer[0]);
        echoed := echoed + 3;
      } else {
        Put(buffer[0]);
        echoed := echoed + 1;
      }
    }

    /** The rest of the quoted-printable branch, with nothing held. */
    method EncodeFresh(c: Code)
      requires buffer.Length == 4 && filled == 0
      modifies this`filled, this`echoed, this`output, buffer
      ensures filled <= 1
      ensures var (e, ts) := QP.Fresh(old(echoed), c);
              QuotedState() == e && output == old(output) + QP.RenderAll(ts)
    {
      if 33 <= c <= 60 || 62 <= c <= 126 {
        Put(c);
        echoed := echoed + 1;
      } else if c == SPACE || c == TAB {
        if echoed >= 55 {
          Put(c);
          PutString([EQUALS, CR, LF]);
          echoed := 0;
          assert [QP.Literal(c), QP.SoftBreak][1..] == [QP.SoftBreak];
          assert QP.RenderAll([QP.Literal(c), QP.SoftBreak]) == [c] + QP.RenderAll([QP.SoftBreak]);
        } else {
          filled := 1;
          buffer[0] := c;
        }
      } else if c == CR {
        filled := 1;
        buffer[0] := CR;
      } else if c == EOF {
        echoed := 0;
      } else {
        Escape(c);
        echoed := echoed + 3;
      }
    }

    /** What the pieces written by EncodeQuoted add up to. */
    static lemma QuotedOutput(e: QP.Encoding, c: Code, before: seq<Byte>, after: seq<Byte>)
      requires QP.EncodingOk(e)
      requires if e.held == [] then after == before + QP.RenderAll(QP.Fresh(e.echoed, c).1)
               else if e.held[0] == CR && c == LF then after == before + [CR, LF]
               else var t := QP.Settle(e.held[0], c);
                 after == before + QP.Render(t) + QP.RenderAll(QP.Fresh(e.echoed + QP.Width(t), c).1)
      ensures after == before + QP.RenderAll(QP.Accept(e, c).1)
    {
      assert QP.RenderAll([QP.HardBreak]) == [CR, LF];
      if e.held != [] && !(e.held[0] == CR && c == LF) {
        var t := QP.Settle(e.held[0], c);
        var ts := QP.Fresh(e.echoed + QP.Width(t), c).1;
        assert ([t] + ts)[1..] == ts;
        assert QP.RenderAll([t] + ts) == QP.Render(t) + QP.RenderAll(ts);
        hide QP.RenderAll, QP.Fresh;
        Seqs.Assoc(before, QP.Render(t), QP.RenderAll(ts));
      }
    }

    method EncodeBase(c: Code)
      requires Valid() && encoding == Base
      modifies this`filled, this`echoed, this`output, buffer
      ensures Valid()
      ensures var (e, out) := B64.EncodeStep(old(BaseState()), c);
              BaseState() == e && output == old(output) + out
    {
      hide B64.Quad;
      if c == EOF {
        // reset for the next run
        echoed := 0;
        if filled == 0 { return; }
        buffer[filled] := 0;
      } else {
        buffer[filled] := c;
        filled := filled + 1;
        assert buffer[..filled] == old(buffer[..filled]) + [c];
      }
      if filled == 3 || c == EOF {
        assert c == EOF ==> buffer[..filled] == old(buffer[..filled]);
        WriteGroup();
        if filled < 3 {
          filled := 0;
          return;
        }
        ghost var grouped := output;
        echoed := echoed + 4;
        if echoed >= 72 {
          PutString([CR, LF]);
          echoed := 0;
        }
        filled := 0;
        Seqs.Assoc(old(output), B64.Quad(buffer[..3]), output[|grouped|..]);
        Seqs.Unit(grouped);
      }
    }

    /** The four characters for what is in the buffer; a short group was ended by a zero byte. */
    method WriteGroup()
      requires buffer.Length == 4 && 1 <= filled <= 3
      requires filled < 3 ==> buffer[filled] == 0
      modifies this`output
      ensures output == old(output) + B64.Quad(buffer[..filled])
    {
      Encode64(buffer[0] / 4);
      Encode64(buffer[0] % 4 * 16 + buffer[1] / 16);
      if filled == 1 {
        Put(EQUALS);
        Put(EQUALS);
        return;
      }
      Encode64(buffer[1] % 16 * 4 + buffer[2] / 64);
      if filled == 2 {
        Put(EQUALS);
        return;
      }
      Encode64(buffer[2] % 64);
    }

    method FinishEncoding()
      requires Valid()
      modifies this`filled, this`echoed, this`output, buffer
      ensures Valid()
      ensures encoding == Unencoded ==> output == old(output)
      ensures encoding == Quoted ==>
                && QuotedState() == QP.START
                && output == old(output) + QP.RenderAll(QP.EncodeStep(old(QuotedState()), EOF).1)
      ensures encoding == Base ==>
                BaseState() == B64.START && output == old(output) + B64.EncodeStep(old(BaseState()), EOF).1
    {
      if encoding == Quoted { QP.EncodeStepMeaning(QuotedState(), EOF); }
      EncodeChar(EOF);
    }
  }

  /** What an encoder that began afresh has written for these bytes, and what it holds. */
  ghost predicate Encoded(encoder: Encoder, part: seq<Byte>)
    reads encoder, encoder.buffer
  {
    && encoder.Valid()
    && match encoder.encoding
       case Unencoded => encoder.output == part
       case Quoted =>
         && encoder.QuotedState() == QP.EncodeRun(QP.START, part).0
         && encoder.output == QP.RenderAll(QP.EncodeRun(QP.START, part).1)
       case Base => (encoder.BaseState(), encoder.output) == B64.EncodeRun(B64.START, part)
  }

  /** One byte more. */
  method EncodeNext(encoder: Encoder, ghost part: seq<Byte>, c: Byte)
    requires Encoded(encoder, part)
    modifies encoder`filled, encoder`echoed, encoder`output, encoder.buffer
    ensures Encoded(encoder, part + [c])
  {
    hide QP.EncodeStep, B64.EncodeStep, QP.RenderAll;
    assert (part + [c])[..|part|] == part;
    ghost var (e, ts) := QP.EncodeRun(QP.START, part);
    QP.RenderAllConcat(ts, QP.EncodeStep(e, c).1);
    encoder.EncodeChar(c);
  }

  lemma EncodedNothing(encoder: Encoder)
    requires encoder.Valid() && encoder.output == [] && encoder.filled == encoder.echoed == 0
    ensures Encoded(encoder, [])
  {
    assert QP.RenderAll([]) == [];
  }

  /** Any encoder's output for a whole part, with what it writes at its end. */
  ghost predicate IsCoded(scheme: Scheme, s: seq<Byte>, out: seq<Byte>) {
    match scheme
    case Unencoded => out == s
    case Quoted => out == QP.Encode(s)
    case Base =>
      var (e, written) := B64.EncodeRun(B64.START, s);
      out == written + B64.EncodeStep(e, EOF).1
  }

  method EncodeEnd(encoder: Encoder, ghost s: seq<Byte>)
    requires Encoded(encoder, s)
    modifies encoder`filled, encoder`echoed, encoder`output, encoder.buffer
    ensures IsCoded(encoder.encoding, s, encoder.output)
  {
    hide QP.EncodeStep, B64.EncodeStep, QP.RenderAll;
    ghost var (e, ts) := QP.EncodeRun(QP.START, s);
    QP.RenderAllConcat(ts, QP.EncodeStep(e, EOF).1);
    encoder.FinishEncoding();
  }

  lemma CodedMeans(scheme: Scheme, s: seq<Byte>, out: seq<Byte>)
    requires IsCoded(scheme, s, out)
    ensures scheme == Unencoded ==> out == s
    ensures scheme == Quoted ==>
              QP.Text(out) == s && LinesAtMost(out, 0, 74) && NoBlankBeforeBreak(out)
    ensures scheme == Base ==>
              && B64.DecodeRun([], out) == ([], s)
              && B64.AccumulateRun(B64.Accumulator(0, 0), out).1 == s
              && LinesAtMost(out, 0, 72)
  {
    hide QP.Encode, B64.EncodeStep, B64.EncodeRun, QP.Text, B64.Text, B64.DecodeRun, B64.AccumulateRun, LinesAtMost;
    match scheme {
      case Unencoded =>
      case Quoted =>
        QP.TextOfEncode(s);
        QP.EncodeShape(s);
      case Base =>
        B64.EncodeIsText(s);
        B64.DecodeOfText(s, 0);
        B64.AccumulateOfText(B64.Accumulator(0, 0), s, 0);
        B64.TextLines(s, 0);
    }
  }

  /**
   * A whole part pushed through encodechar and finished: the output says what went in under the
   * definition of the scheme, and keeps to its line rules.
   */
  method EncodePart(s: seq<Byte>, scheme: Scheme) returns (out: seq<Byte>)
    ensures scheme == Unencoded ==> out == s
    ensures scheme == Quoted ==>
              QP.Text(out) == s && LinesAtMost(out, 0, 74) && NoBlankBeforeBreak(out)
    ensures scheme == Base ==>
              && B64.DecodeRun([], out) == ([], s)
              && B64.AccumulateRun(B64.Accumulator(0, 0), out).1 == s
              && LinesAtMost(out, 0, 72)
  {
    hide Encoded, IsCoded, QP.Text, B64.DecodeRun, B64.AccumulateRun, LinesAtMost;
    var encoder := new Encoder(scheme);
    EncodedNothing(encoder);
    var i := 0;
    assert s[..0] == [];
    while i < |s|
      invariant 0 <= i <= |s| && encoder.encoding == scheme
      invariant fresh(encoder) && fresh(encoder.buffer) && Encoded(encoder, s[..i])
    {
      EncodeNext(encoder, s[..i], s[i]);
      assert s[..i] + [s[i]] == s[..i + 1];
      i := i + 1;
    }
    assert s[..i] == s;
    EncodeEnd(encoder, s);
    out := encoder.output;
    CodedMeans(scheme, s, out);
  }

  // ---------------------------------------------------------------- decoding

  /** decode_t: how many characters to remove, then up to three to store, EOF marking the end. */
  datatype Decoded = Decoded(r: nat, c1: Code, c2: Code, c3: Code) {
    function Stored(): seq<Byte> {
      if c1 == EOF then []
      else if c2 == EOF then [c1]
      else if c3 == EOF then [c1, c2]
      else [c1, c2, c3]
    }
  }

  /** The decoder between calls, for each scheme. */
  datatype Stage = PlainStage | QuotedStage(d: QP.Decoding) | BaseStage(held: seq<Byte>)

  predicate StageOk(g: Stage) {
    match g
    case PlainStage => true
    case QuotedStage(d) => QP.DecodingOk(d)
    case BaseStage(held) => |held| < 4 && forall i :: 0 <= i < |held| ==> B64.Collected(held[i])
  }

  function DecodeStep(g: Stage, c: Code): (r: (Stage, seq<Byte>))
    requires StageOk(g)
    ensures StageOk(r.0)
  {
    match g
    case PlainStage => (g, QP.Said(c))
    case QuotedStage(d) => var (d', out) := QP.DecodeStep(d, c); (QuotedStage(d'), out)
    case BaseStage(held) => var (held', out) := B64.DecodeStep(held, c); (BaseStage(held'), out)
  }

  function DecodeRun(g: Stage, s: seq<Byte>): (r: (Stage, seq<Byte>))
    requires StageOk(g)
    ensures StageOk(r.0)
    decreases |s|
  {
    if s == [] then (g, [])
    else
      var (g1, o1) := DecodeRun(g, s[..|s| - 1]);
      var (g2, o2) := DecodeStep(g1, s[|s| - 1]);
      (g2, o1 + o2)
  }

  lemma DecodeRunOn(g: Stage, s: seq<Byte>, b: Byte)
    requires StageOk(g)
    ensures var (g1, o1) := DecodeRun(g, s);
            DecodeRun(g, s + [b]) == (DecodeStep(g1, b).0, o1 + DecodeStep(g1, b).1)
  {
    assert (s + [b])[..|s|] == s;
  }

  /** The run of the selected scheme. */
  lemma {:induction false} DecodeRunByScheme(g: Stage, s: seq<Byte>)
    requires StageOk(g)
    ensures match g
            case PlainStage => DecodeRun(g, s) == (g, s)
            case QuotedStage(d) => DecodeRun(g, s) == (QuotedStage(QP.DecodeRun(d, s).0), QP.DecodeRun(d, s).1)
            case BaseStage(held) => DecodeRun(g, s) == (BaseStage(B64.DecodeRun(held, s).0), B64.DecodeRun(held, s).1)
    decreases |s|
  {
    if s != [] {
      DecodeRunByScheme(g, s[..|s| - 1]);
      Seqs.Snoc(s);
    }
  }

  /**
   * The states from which decoding can store each result over the input already read: the
   * quoted-printable decoder must be idle; the base64 decoder may hold one character, or three
   * of which the last is padding.
   */
  predicate SafeStart(g: Stage)
    requires StageOk(g)
  {
    match g
    case PlainStage => true
    case QuotedStage(d) => d.Idle?
    case BaseStage(held) => B64.Debt(held) == 0
  }

  ghost predicate NeverOvertakes(g: Stage)
    requires StageOk(g)
  {
    forall s: seq<Byte> :: |DecodeRun(g, s).1| <= |s|
  }

  /** Exactly the safe states never write more than they have read, whatever comes next. */
  lemma NeverOvertakesIffSafe(g: Stage)
    requires StageOk(g)
    ensures NeverOvertakes(g) <==> SafeStart(g)
  {
    if SafeStart(g) {
      forall s: seq<Byte> ensures |DecodeRun(g, s).1| <= |s| {
        SafeNeverOvertakes(g, s);
      }
    } else {
      var s := Overrun(g);
      assert |DecodeRun(g, s).1| > |s|;
    }
  }

  lemma SafeNeverOvertakes(g: Stage, s: seq<Byte>)
    requires StageOk(g) && SafeStart(g)
    ensures |DecodeRun(g, s).1| <= |s|
  {
    DecodeRunByScheme(g, s);
    match g {
      case PlainStage =>
      case QuotedStage(d) => QP.DecodeShrinks(d, s);
      case BaseStage(held) => B64.DecodeShrinks(held, s);
    }
  }

  /** An input that overtakes an unsafe state: '=' and a letter after a held '=', or one more base64 digit. */
  lemma Overrun(g: Stage) returns (s: seq<Byte>)
    requires StageOk(g) && !SafeStart(g)
    ensures |DecodeRun(g, s).1| > |s|
  {
    match g {
      case QuotedStage(d) =>
        s := ['G' as int];
        OneStep(g, s[0]);
      case BaseStage(held) =>
        if |held| == 3 {
          s := ['A' as int];
          OneStep(g, s[0]);
        } else {
          s := ['A' as int, 'A' as int];
          OneStep(g, s[0]);
          assert s[..1] == [s[0]];
        }
    }
  }

  lemma OneStep(g: Stage, b: Byte)
    requires StageOk(g)
    ensures DecodeRun(g, [b]) == DecodeStep(g, b)
  {
    assert [b][..0] == [];
    Seqs.Unit(DecodeStep(g, b).1);
  }

  class Decoder {
    const decoding: Scheme
    const buffer: array<Byte>
    var filled: nat
    var white: nat

    ghost predicate Valid()
      reads this, buffer
    {
      && buffer.Length == 4
      && (decoding == Unencoded ==> filled == 0)
      && (decoding == Quoted ==> filled <= 2)
      && filled < 4
      && StageOk(Stage())
    }

    ghost function Stage(): Stage
      reads this, buffer
      requires filled <= buffer.Length == 4
    {
      match decoding
      case Unencoded => PlainStage
      case Quoted =>
        QuotedStage(if filled == 0 then QP.Idle else if filled == 1 then QP.SawEquals else QP.SawMore(buffer[1]))
      case Base => BaseStage(buffer[..filled])
    }

    constructor (decoding: Scheme)
      ensures Valid() && fresh(buffer)
      ensures this.decoding == decoding
      ensures Stage() == match decoding
                         case Unencoded => PlainStage
                         case Quoted => QuotedStage(QP.Idle)
                         case Base => BaseStage([])
    {
      this.decoding := decoding;
      buffer := new Byte[4](_ => 0);
      filled, white := 0, 0;
    }

    /** decodechar: nothing is ever removed, because the count of blanks is reset before it is used. */
    method DecodeChar(c: Code) returns (o: Decoded)
      requires Valid()
      modifies this`filled, this`white, buffer
      ensures Valid()
      ensures o.r == 0
      ensures (Stage(), o.Stored()) == DecodeStep(old(Stage()), c)
    {
      if decoding == Unencoded {
        o := Decoded(0, c, EOF, EOF);
      } else if decoding == Quoted {
        o := DecodeQuoted(c);
      } else {
        o := DecodeBase(c);
      }
    }

    method DecodeQuoted(c: Code) returns (o: Decoded)
      requires Valid() && decoding == Quoted
      modifies this`filled, this`white, buffer
      ensures Valid()
      ensures o.r == 0
      ensures (Stage(), o.Stored()) == DecodeStep(old(Stage()), c)
    {
      o := Decoded(0, EOF, EOF, EOF);
      Triples(EQUALS, buffer[1], c);
      if filled == 2 {
        // whatever happens, it is all settled now
        filled := 0;
        if buffer[1] == CR {
          if c == LF { return; }
          return Decoded(0, EQUALS, CR, c);
        }
        var h := QP.DecodeHex(c);
        if h == EOF {
          return Decoded(0, EQUALS, buffer[1], c);
        }
        o := Decoded(0, QP.DecodeHex(buffer[1]) * 16 + h, EOF, EOF);
      } else if filled == 1 {
        if c == CR || QP.DecodeHex(c) != EOF {
          filled := 2;
          buffer[1] := c;
          return;
        }
        filled := 0;
        o := Decoded(0, EQUALS, c, EOF);
      } else {
        if c == EQUALS {
          white := 0;
          filled := 1;
          return;
        }
        if c == SPACE || c == TAB { white := white + 1; } else { white := 0; }
        if c == EOF || c == CR {
          o := o.(r := white);
          white := 0;
        }
        o := o.(c1 := c);
      }
    }

    method DecodeBase(c: Code) returns (o: Decoded)
      requires Valid() && decoding == Base
      modifies this`filled, buffer
      ensures Valid()
      ensures o.r == 0
      ensures (Stage(), o.Stored()) == DecodeStep(old(Stage()), c)
    {
      o := Decoded(0, EOF, EOF, EOF);
      if c == EOF {
        filled := 0;
        return;
      }
      if c == EQUALS || B64.Decode64(c) != EOF {
        buffer[filled] := c;
        filled := filled + 1;
        assert buffer[..filled] == old(buffer[..filled]) + [c];
      }
      if filled == 4 {
        filled := 0;
        hide B64.Decode64, B64.Bits, B64.Unpack;
        o := Unpack();
      }
    }

    /** Four characters together: three bytes, or fewer in front of padding. */
    method Unpack() returns (o: Decoded)
      requires buffer.Length == 4
      ensures o.r == 0 && o.Stored() == B64.Unpack(buffer[..4])
    {
      Unpacked(buffer[..4]);
      hide B64.Bits, B64.Unpack;
      var b1, b2 := B64.Bits(buffer[0]), B64.Bits(buffer[1]);
      o := Decoded(0, b1 * 4 + b2 / 16, EOF, EOF);
      if buffer[2] == EQUALS { return; }
      var b3 := B64.Bits(buffer[2]);
      o := o.(c2 := b2 % 16 * 16 + b3 / 4);
      if buffer[3] == EQUALS { return; }
      var b4 := B64.Bits(buffer[3]);
      o := o.(c3 := b3 % 4 * 64 + b4);
    }

    static lemma Unpacked(q: seq<Byte>)
      requires |q| == 4
      ensures var b1, b2, b3, b4 := B64.Bits(q[0]), B64.Bits(q[1]), B64.Bits(q[2]), B64.Bits(q[3]);
              B64.Unpack(q) == if q[2] == EQUALS then [b1 * 4 + b2 / 16]
                               else if q[3] == EQUALS then [b1 * 4 + b2 / 16, b2 % 16 * 16 + b3 / 4]
                               else [b1 * 4 + b2 / 16, b2 % 16 * 16 + b3 / 4, b3 % 4 * 64 + b4]
    {
      hide B64.Bits;
    }

    static lemma Triples(a: Byte, b: Byte, c: Code)
      ensures [a] + QP.Said(c) == if c == EOF then [a] else [a, c]
      ensures [a, b] + QP.Said(c) == if c == EOF then [a, b] else [a, b, c]
      ensures [a] + ([b] + QP.Said(c)) == [a, b] + QP.Said(c)
    {
    }
  }
}
