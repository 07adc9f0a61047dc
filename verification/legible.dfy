/** What stays legible in quoted-printable: plain lines, and nothing but ASCII in all the rest. */
module Legible {
  import opened Bytes
  import opened QuotedPrintable
  import Seqs

  /** A hexadecimal digit stands for its place among them. */
  lemma HexDigits(n: nat)
    requires n < 16
    ensures HexDigit(n) == "0123456789ABCDEF"[n] as int && DecodeHex("0123456789ABCDEF"[n] as int) == n
  {
  }

  lemma NoHexDigit(c: Code)
    requires DecodeHex(c) != EOF
    ensures 0 <= DecodeHex(c) < 16 && c == HexDigit(DecodeHex(c))
  {
  }

  /** Visible ASCII, but for the character that announces an escape. */
  predicate IsVisible(b: Byte) {
    '!' as int <= b <= '~' as int && b != '=' as int
  }

  lemma PlainIsVisible(b: Byte)
    ensures IsPlain(b) <==> IsVisible(b)
  {
  }

  /** What a mail can carry as it is. */
  predicate IsMailSafe(b: Byte) {
    32 <= b <= 126 || b == TAB || b == CR || b == LF
  }

  /** Whatever the bytes of a part are, its encoding is printable ASCII, blanks and line ends. */
  lemma EncodedIsMailSafe(s: seq<Byte>)
    ensures forall b :: b in Encode(s) ==> IsMailSafe(b)
  {
    hide *;
    var (e, ts) := EncodeRun(START, s);
    EncodeRunMeaning(s);
    SaidLegally((e, ts), s);
    RenderedMailSafe(ts + EncodeStep(e, EOF).1);
    EncodeMeans(s);
  }

  lemma EncodeMeans(s: seq<Byte>)
    ensures var (e, ts) := EncodeRun(START, s); Encode(s) == RenderAll(ts + EncodeStep(e, EOF).1)
  {
    hide EncodeRun, RenderAll, EncodeStep;
  }

  lemma SaidLegally(r: (Encoding, seq<Token>), s: seq<Byte>)
    requires Says(r, s)
    ensures AllLegal(r.1 + EncodeStep(r.0, EOF).1)
  {
    EncodeStepMeaning(r.0, EOF);
    hide MeaningAll, EncodeStep, Legal;
  }

  lemma {:induction false} RenderedMailSafe(ts: seq<Token>)
    requires AllLegal(ts)
    ensures forall b :: b in RenderAll(ts) ==> IsMailSafe(b)
  {
    if ts != [] {
      RenderedMailSafe(ts[1..]);
      TokenMailSafe(ts[0]);
      hide Render, IsMailSafe;
    }
  }

  lemma TokenMailSafe(t: Token)
    requires Legal(t)
    ensures forall b :: b in Render(t) ==> IsMailSafe(b)
  {
  }

  lemma {:induction false} EncodeRunSplit(e: Encoding, a: seq<Byte>, b: seq<Byte>)
    ensures var (e1, t1) := EncodeRun(e, a);
            var (e2, t2) := EncodeRun(e1, b);
            EncodeRun(e, a + b) == (e2, t1 + t2)
    decreases |b|
  {
    hide EncodeStep;
    if b == [] {
      Seqs.Unit(a);
      Seqs.Unit(EncodeRun(e, a).1);
    } else {
      var n := |b| - 1;
      EncodeRunSplit(e, a, b[..n]);
      Seqs.DropLast(a, b);
      var (e1, t1) := EncodeRun(e, a);
      var (e2, t2) := EncodeRun(e1, b[..n]);
      Seqs.Assoc(t1, t2, EncodeStep(e2, b[n]).1);
    }
  }

  // ---------------------------------------------------------------- read as it stands

  /** Upper-case hexadecimal digits. */
  predicate IsHexDigit(b: Byte) {
    '0' as int <= b <= '9' as int || 'A' as int <= b <= 'F' as int
  }

  /** An escape or a soft line break begins at i. */
  predicate EscapeAt(s: seq<Byte>, i: nat) {
    && i + 2 < |s| && s[i] == '=' as int
    && ((s[i + 1] == CR && s[i + 2] == LF) || (IsHexDigit(s[i + 1]) && IsHexDigit(s[i + 2])))
  }

  /** A text without escapes and soft line breaks is read as it stands, broken ones and stray '=' included. */
  lemma {:induction false} BrokenStays(s: seq<Byte>)
    requires forall i :: 0 <= i < |s| ==> !EscapeAt(s, i)
    ensures Text(s) == s
    decreases |s|
  {
    if s != [] {
      var n := SettledWhole(s);
      forall i | 0 <= i < |s[n..]| ensures !EscapeAt(s[n..], i) {
        assert !EscapeAt(s, i + n);
      }
      BrokenStays(s[n..]);
      Seqs.Rejoin(s, n);
    }
  }

  /** The characters at the front that are read together. */
  lemma SettledWhole(s: seq<Byte>) returns (n: nat)
    requires s != [] && !EscapeAt(s, 0)
    ensures 0 < n <= |s| && Text(s) == s[..n] + Text(s[n..])
  {
    n := if Settled(s) == 0 then |s| else Settled(s);
    Seqs.Unit(s);
  }

  // ---------------------------------------------------------------- written as it stands

  /** A line that needs no escapes and no break, blanks inside it included. */
  predicate PlainLine(line: seq<Byte>) {
    && |line| <= 55
    && (forall i :: 0 <= i < |line| ==> IsVisible(line[i]) || IsBlank(line[i]))
    && (line != [] ==> !IsBlank(line[|line| - 1]))
  }

  predicate Calm(e: Encoding) {
    |e.held| <= 1 && (e.held != [] ==> IsBlank(e.held[0]))
  }

  /** All of a line so far is written, or held if it is a blank. */
  ghost predicate Verbatim(r: (Encoding, seq<Token>), line: seq<Byte>) {
    && RenderAll(r.1) + r.0.held == line && r.0.echoed + |r.0.held| == |line|
    && Calm(r.0)
  }

  lemma {:induction false} RunVerbatim(line: seq<Byte>)
    requires |line| <= 55 && forall i :: 0 <= i < |line| ==> IsVisible(line[i]) || IsBlank(line[i])
    ensures Verbatim(EncodeRun(START, line), line)
  {
    if line != [] {
      var n := |line| - 1;
      RunVerbatim(line[..n]);
      var r := EncodeRun(START, line[..n]);
      hide *;
      VerbatimMore(r, line[..n], line[n]);
      RunNext(START, line);
      Seqs.Snoc(line);
    }
  }

  lemma RunNext(e0: Encoding, line: seq<Byte>)
    requires line != []
    ensures var (e, ts) := EncodeRun(e0, line[..|line| - 1]);
            var (e', more) := EncodeStep(e, line[|line| - 1]);
            EncodeRun(e0, line) == (e', ts + more)
  {
  }

  lemma VerbatimMore(r: (Encoding, seq<Token>), line: seq<Byte>, b: Byte)
    requires Verbatim(r, line) && |line| < 55 && (IsVisible(b) || IsBlank(b))
    ensures Verbatim((EncodeStep(r.0, b).0, r.1 + EncodeStep(r.0, b).1), line + [b])
  {
    var (e, more) := EncodeStep(r.0, b);
    StepVerbatim(r.0, b);
    RenderAllConcat(r.1, more);
    hide RenderAll;
    Seqs.Assoc(RenderAll(r.1), RenderAll(more), e.held);
    Seqs.Assoc(RenderAll(r.1), r.0.held, [b]);
  }

  lemma StepVerbatim(e: Encoding, b: Byte)
    requires Calm(e) && e.echoed + |e.held| < 55
    requires IsVisible(b) || IsBlank(b)
    ensures var (e', more) := EncodeStep(e, b);
            && RenderAll(more) + e'.held == e.held + [b]
            && Calm(e') && e'.echoed + |e'.held| == e.echoed + |e.held| + 1
  {
    PlainIsVisible(b);
    var more := EncodeStep(e, b).1;
    if e.held != [] {
      Literals(e.held[0], b);
    }
    Literals(b, b);
  }

  lemma Literals(a: Byte, b: Byte)
    ensures RenderAll([Literal(a)]) == [a] && RenderAll([Literal(a), Literal(b)]) == [a, b] && RenderAll([]) == []
  {
    assert [Literal(a), Literal(b)] == [Literal(a)] + [Literal(b)];
    OneLiteral(a);
    OneLiteral(b);
    hide RenderAll;
    RenderAllConcat([Literal(a)], [Literal(b)]);
  }

  lemma OneLiteral(b: Byte)
    ensures RenderAll([Literal(b)]) == [b] && RenderAll([]) == []
  {
    assert [Literal(b)][1..] == [];
    Seqs.Unit([b]);
  }

  /** A part that is such a line stays as it is. */
  lemma LineStays(line: seq<Byte>)
    requires PlainLine(line)
    ensures Encode(line) == line
  {
    RunVerbatim(line);
    LineEnds(line);
    var (e, ts) := EncodeRun(START, line);
    hide EncodeRun, RenderAll, IsVisible;
    assert EncodeStep(e, EOF).1 == [];
    Seqs.Unit(ts);
    Seqs.Unit(RenderAll(ts));
  }

  /** Nothing is held behind a line without a blank at its end. */
  lemma LineEnds(line: seq<Byte>)
    requires PlainLine(line)
    ensures Verbatim(EncodeRun(START, line), line) && EncodeRun(START, line).0.held == []
  {
    RunVerbatim(line);
    var (e, ts) := EncodeRun(START, line);
    hide EncodeRun, RenderAll, IsVisible;
    if e.held != [] {
      Seqs.DropLast(RenderAll(ts), e.held);
    }
  }

  /** A part that begins with such a line keeps it, with its line end, and is encoded afresh behind it. */
  lemma FirstLineStays(line: seq<Byte>, rest: seq<Byte>)
    requires PlainLine(line)
    ensures Encode(line + ([CR, LF] + rest)) == line + ([CR, LF] + Encode(rest))
  {
    LineEnds(line);
    var (e, ts) := EncodeRun(START, line);
    BreakStays(e);
    hide *;
    EncodeRunSplit(START, line, [CR, LF] + rest);
    EncodeRunSplit(e, [CR, LF], rest);
    var (e', more) := EncodeRun(START, rest);
    var last := EncodeStep(e', EOF).1;
    EncodeMeans(rest);
    EncodeMeans(line + ([CR, LF] + rest));
    VerbatimMeans((e, ts), line);
    TokensOf(ts, more, last, line);
  }

  lemma VerbatimMeans(r: (Encoding, seq<Token>), line: seq<Byte>)
    requires Verbatim(r, line) && r.0.held == []
    ensures RenderAll(r.1) == line && r.0.echoed == |line|
  {
    Seqs.Unit(RenderAll(r.1));
  }

  lemma TokensOf(ts: seq<Token>, more: seq<Token>, last: seq<Token>, line: seq<Byte>)
    requires RenderAll(ts) == line
    ensures RenderAll((ts + ([HardBreak] + more)) + last) == line + ([CR, LF] + RenderAll(more + last))
  {
    assert RenderAll([HardBreak]) == [CR, LF];
    hide RenderAll;
    Seqs.Assoc(ts, [HardBreak] + more, last);
    Seqs.Assoc([HardBreak], more, last);
    RenderAllConcat(ts, [HardBreak] + (more + last));
    RenderAllConcat([HardBreak], more + last);
  }

  lemma BreakStays(e: Encoding)
    requires e.held == [] && e.echoed <= 55
    ensures EncodeRun(e, [CR, LF]) == (START, [HardBreak])
  {
    var held := Encoding([CR], e.echoed);
    assert EncodeStep(e, CR) == (held, []) && EncodeStep(held, LF) == (START, [HardBreak]);
    hide EncodeStep;
    assert [CR][..0] == [] && EncodeRun(e, []) == (e, []);
    RunNext(e, [CR]);
    Seqs.Unit<Token>([]);
    assert [CR, LF][..1] == [CR];
    RunNext(e, [CR, LF]);
    Seqs.Unit([HardBreak]);
  }
}
