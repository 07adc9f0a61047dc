/**
 * The mail as it goes over the wire after DATA: the streaming writer and the copies prepared in memory,
 * src/mail-functions.c, the choice between them in send_mail of src/mlmmj-send.c, and the receiver of
 * section 4.5.2 of RFC 5321.
 */
module SmtpPayload {
  import opened Bytes
  import opened Wrappers
  import Seqs

  const DOT: Byte := 46
  const CRLF: seq<Byte> := [CR, LF]
  const END: seq<Byte> := [CR, LF, DOT, CR, LF]

  // ---------------------------------------------------------------- lines

  /** The length of the first line, without its LF. */
  function LineLen(s: seq<Byte>): (n: nat)
    ensures n <= |s| && LF !in s[..n] && (n < |s| ==> s[n] == LF)
  {
    if s == [] || s[0] == LF then 0 else 1 + LineLen(s[1..])
  }

  predicate Terminated(s: seq<Byte>) {
    s == [] || s[|s| - 1] == LF
  }

  lemma TerminatedRest(s: seq<Byte>, n: nat)
    requires n < |s| && s[n] == LF
    ensures Terminated(s) <==> Terminated(s[n + 1..])
  {
  }

  /** The part behind the last LF. */
  function Unfinished(s: seq<Byte>): (u: seq<Byte>)
    ensures u == [] <==> Terminated(s)
    decreases |s|
  {
    var n := LineLen(s);
    if n == |s| then s else TerminatedRest(s, n); Unfinished(s[n + 1..])
  }

  /** The dot put in front of a line that begins with one. */
  function Dot(s: seq<Byte>): (d: seq<Byte>)
    ensures |d| <= 1
  {
    if s != [] && s[0] == DOT then [DOT] else []
  }

  // ---------------------------------------------------------------- what is written

  /** The finished lines of s with CRLF, and a dot in front of each following line that begins with one. */
  function Stuffed(s: seq<Byte>): seq<Byte>
    decreases |s|
  {
    var n := LineLen(s);
    if n == |s| then [] else s[..n] + CRLF + Dot(s[n + 1..]) + Stuffed(s[n + 1..])
  }

  /** The finished lines of s with CRLF. */
  function Plain(s: seq<Byte>): seq<Byte>
    decreases |s|
  {
    var n := LineLen(s);
    if n == |s| then [] else s[..n] + CRLF + Plain(s[n + 1..])
  }

  /** The same as Stuffed, with a header line behind the first line that an empty line follows. */
  function StuffedTo(s: seq<Byte>, to: seq<Byte>): seq<Byte>
    decreases |s|, 0
  {
    var n := LineLen(s);
    if n == |s| then [] else s[..n] + CRLF + NextTo(s[n + 1..], to)
  }

  /** What goes on behind a line: the header line if an empty line follows. */
  function NextTo(rest: seq<Byte>, to: seq<Byte>): seq<Byte>
    decreases |rest|, 1
  {
    if rest != [] && rest[0] == LF then to + Stuffed(rest) else Dot(rest) + StuffedTo(rest, to)
  }

  /** The first of several lines taken off a text as it is written. */
  lemma Unfolded(s: seq<Byte>)
    requires LineLen(s) < |s|
    ensures var line, rest := s[..LineLen(s)], s[LineLen(s) + 1..];
            && |rest| < |s| && LF !in line
            && Plain(s) == line + CRLF + Plain(rest)
            && Stuffed(s) == line + CRLF + Dot(rest) + Stuffed(rest)
  {
    hide LineLen, Dot;
  }

  lemma CopiesUnfolded(s: seq<Byte>, dots: bool)
    requires LineLen(s) < |s|
    ensures var line, rest := s[..LineLen(s)], s[LineLen(s) + 1..];
            && |rest| < |s| && LF !in line
            && Copies(s, dots) == Copied(line) + CRLF + (if dots then Dot(rest) else []) + Copies(rest, dots)
  {
    hide LineLen, Dot, Copied;
  }

  lemma NothingWritten(s: seq<Byte>)
    requires LineLen(s) == |s|
    ensures LF !in s && Plain(s) == Stuffed(s) == Copies(s, true) == Copies(s, false) == []
  {
    hide LineLen;
    assert s[..|s|] == s;
  }

  /** What the streaming writer writes, with or without a To: line. */
  function Streamed(s: seq<Byte>, to: Option<seq<Byte>>): seq<Byte> {
    match to
    case None => Stuffed(s)
    case Some(line) => StuffedTo(s, line)
  }

  /** Where the header ends: behind the LF of its last line. */
  function HeaderLen(s: seq<Byte>): (h: nat)
    ensures h <= |s|
    ensures h > 0 ==> h < |s| && s[h - 1] == LF && s[h] == LF
  {
    if |s| < 2 then 0
    else if s[0] == LF && s[1] == LF then 1
    else
      var h := HeaderLen(s[1..]);
      if h == 0 then 0 else h + 1
  }

  /** strstr finds the end of the header only in front of the first NUL. */
  predicate Preparable(m: seq<Byte>) {
    HeaderLen(m) > 0 && 0 !in m[..HeaderLen(m)]
  }

  /** What strncpy makes of a line: behind a NUL it writes NULs. */
  function Copied(line: seq<Byte>): (c: seq<Byte>)
    ensures |c| == |line|
  {
    if line == [] then []
    else if line[0] == 0 then seq(|line|, _ => 0)
    else [line[0]] + Copied(line[1..])
  }

  /** The finished lines of s as they are copied to memory, with CRLF, and with or without doubled dots. */
  function Copies(s: seq<Byte>, dots: bool): seq<Byte>
    decreases |s|
  {
    var n := LineLen(s);
    if n == |s| then []
    else Copied(s[..n]) + CRLF + (if dots then Dot(s[n + 1..]) else []) + Copies(s[n + 1..], dots)
  }

  /**
   * What is sent from memory: the header, the To: line, the body, and as many bytes as an unfinished last line
   * has, which are never written and hold whatever was in the memory before.
   */
  function Prepared(m: seq<Byte>, to: seq<Byte>, tail: seq<Byte>): seq<Byte> {
    Plain(m[..HeaderLen(m)]) + to + (Copies(Body(m), true) + tail)
  }

  function LineOf(tohdr: Option<seq<Byte>>): seq<Byte> {
    if tohdr.Some? then tohdr.value else []
  }

  /** What is behind the header, its empty line first. */
  function Body(m: seq<Byte>): seq<Byte> {
    m[HeaderLen(m)..]
  }

  /** In a finished line nothing but NULs follows a NUL. */
  predicate NulsLast(s: seq<Byte>) {
    forall i :: 0 <= i < |s| - 1 && s[i] == 0 && s[i + 1] != 0 && s[i + 1] != LF ==> LF !in s[i + 1..]
  }

  // ---------------------------------------------------------------- the receiver

  datatype Received = Received(mail: seq<Byte>, ended: bool, rest: seq<Byte>)

  /** The length of a line up to its CRLF. */
  function WireLen(s: seq<Byte>): (n: nat)
    ensures n <= |s|
    ensures n < |s| ==> n + 1 < |s| && s[n] == CR && s[n + 1] == LF
  {
    if s == [] then 0
    else if |s| >= 2 && s[0] == CR && s[1] == LF then 0
    else
      var n := WireLen(s[1..]);
      1 + n
  }

  /** Lines up to one that is a single dot; a dot in front of any other line is taken away. */
  function Receive(s: seq<Byte>): Received
    decreases |s|
  {
    var n := WireLen(s);
    if n == |s| then Received([], false, s)
    else if s[..n] == [DOT] then Received([], true, s[n + 2..])
    else
      var r := Receive(s[n + 2..]);
      Received(Unstuff(s[..n]) + [LF] + r.mail, r.ended, r.rest)
  }

  /** The receiver gets x and sees the end. */
  predicate Arrives(wire: seq<Byte>, x: seq<Byte>) {
    Receive(wire) == Received(x, true, [])
  }

  function Unstuff(line: seq<Byte>): seq<Byte> {
    if line != [] && line[0] == DOT then line[1..] else line
  }

  // ---------------------------------------------------------------- theorems

  lemma {:induction false} WireLenAt(line: seq<Byte>, t: seq<Byte>)
    requires LF !in line
    ensures WireLen(line + (CRLF + t)) == |line|
  {
    var s := line + (CRLF + t);
    if line != [] {
      assert s[1..] == line[1..] + (CRLF + t);
      WireLenAt(line[1..], t);
      if |line| > 1 {
        assert s[1] == line[1];
      }
    }
  }

  /** One line as the receiver sees it. */
  lemma ReceiveLine(line: seq<Byte>, t: seq<Byte>)
    requires LF !in line
    ensures var s := line + (CRLF + t);
            Receive(s) == if line == [DOT] then Received([], true, t)
                          else Received(Unstuff(line) + [LF] + Receive(t).mail, Receive(t).ended, Receive(t).rest)
  {
    var s := line + (CRLF + t);
    WireLenAt(line, t);
    assert s[..|line|] == line && s[|line| + 2..] == t;
  }

  /** Behind the last line the receiver sees an empty line and the end. */
  lemma ReceiveEnd()
    ensures Receive(END) == Received([LF], true, [])
  {
    hide Receive;
    ReceiveLine([], [DOT, CR, LF]);
    ReceiveLine([DOT], []);
    assert [] + (CRLF + [DOT, CR, LF]) == END;
    assert [DOT] + (CRLF + []) == [DOT, CR, LF];
    assert [] + [LF] + [] == [LF];
  }

  /** The wire from a line start on, its own dot included, taken apart into the first line and the rest. */
  lemma WireStep(s: seq<Byte>)
    requires LineLen(s) < |s|
    ensures var n := LineLen(s);
            Dot(s) + Stuffed(s) + END
            == (Dot(s) + s[..n]) + (CRLF + (Dot(s[n + 1..]) + Stuffed(s[n + 1..]) + END))
  {
    hide LineLen, Dot;
    var n := LineLen(s);
    var a, d, r := s[..n], Dot(s[n + 1..]), Stuffed(s[n + 1..]);
    assert Stuffed(s) == a + CRLF + d + r;
    hide *;
    Regroup(Dot(s), a, CRLF, d, r, END);
  }

  lemma Regroup<T>(a: seq<T>, b: seq<T>, c: seq<T>, d: seq<T>, e: seq<T>, f: seq<T>)
    ensures a + (b + c + d + e) + f == (a + b) + (c + (d + e + f))
  {
    Seqs.Assoc(a + b, c, d + e + f);
    Seqs.Assoc(a + b + c, d + e, f);
    Seqs.Assoc(a + b + c, d, e);
    Seqs.Assoc(a, b + c + d, e);
    Seqs.Assoc(a, b + c, d);
    Seqs.Assoc(a, b, c);
  }

  lemma StuffedLine(s: seq<Byte>)
    requires LineLen(s) < |s|
    ensures var line := Dot(s) + s[..LineLen(s)];
            LF !in line && line != [DOT] && Unstuff(line) == s[..LineLen(s)]
  {
  }

  lemma LineRest(s: seq<Byte>)
    requires LineLen(s) < |s|
    ensures var n := LineLen(s);
            && s[..n] + [LF] + s[n + 1..] == s
            && (Terminated(s) <==> Terminated(s[n + 1..]))
  {
    hide *;
    var n := LineLen(s);
    Seqs.Pick(s, n);
    assert Terminated(s) <==> Terminated(s[n + 1..]) by {
      TerminatedRest(s, n);
    }
  }

  /** Dot-stuffed text comes out of the receiver as it was, with one empty line more. */
  lemma {:induction false} ReceiveStuffed(s: seq<Byte>)
    requires Terminated(s)
    ensures Receive(Dot(s) + Stuffed(s) + END) == Received(s + [LF], true, [])
    decreases |s|
  {
    var n := LineLen(s);
    if n == |s| {
      ReceiveEnd();
      assert Dot(s) + Stuffed(s) + END == END;
    } else {
      var rest := s[n + 1..];
      LineRest(s);
      ReceiveStuffed(rest);
      WireStep(s);
      StuffedLine(s);
      ReceiveLine(Dot(s) + s[..n], Dot(rest) + Stuffed(rest) + END);
      hide *;
      Seqs.Assoc(s[..n] + [LF], rest, [LF]);
    }
  }

  lemma ReceiveNothing(s: seq<Byte>)
    requires s != [] && LF !in s
    ensures |Receive(Dot(s) + Stuffed(s) + END).mail| <= |s|
  {
    hide Receive;
    ReceiveEnd();
    assert Stuffed(s) == [];
    if s[0] == DOT {
      ReceiveLine([DOT], [DOT, CR, LF]);
      assert Dot(s) + [] + END == [DOT] + (CRLF + [DOT, CR, LF]);
    } else {
      assert Dot(s) + [] + END == END;
    }
  }

  /** Of a text that does not end in LF, less arrives. */
  lemma {:induction false} ReceiveUnfinished(s: seq<Byte>)
    requires !Terminated(s)
    ensures |Receive(Dot(s) + Stuffed(s) + END).mail| <= |s|
    decreases |s|
  {
    var n := LineLen(s);
    if n == |s| {
      ReceiveNothing(s);
    } else {
      var rest := s[n + 1..];
      LineRest(s);
      ReceiveUnfinished(rest);
      WireStep(s);
      StuffedLine(s);
      ReceiveLine(Dot(s) + s[..n], Dot(rest) + Stuffed(rest) + END);
      hide *;
    }
  }

  lemma FirstLineStep(m: seq<Byte>)
    requires LineLen(m) < |m|
    ensures var n := LineLen(m);
            Stuffed(m) + END == m[..n] + (CRLF + (Dot(m[n + 1..]) + Stuffed(m[n + 1..]) + END))
  {
    hide LineLen, Dot;
    var n := LineLen(m);
    var a, d, r := m[..n], Dot(m[n + 1..]), Stuffed(m[n + 1..]);
    assert Stuffed(m) == a + CRLF + d + r;
    hide *;
    Regroup([], a, CRLF, d, r, END);
    Seqs.Unit(a);
    Seqs.Unit(a + CRLF + d + r);
  }

  /** A first line that begins with a dot loses it, or ends the mail. */
  lemma ReceiveDotted(m: seq<Byte>)
    requires m != [] && m[0] == DOT
    ensures Receive(Stuffed(m) + END).mail != m + [LF]
  {
    if LineLen(m) == |m| {
      ReceiveEnd();
      assert Stuffed(m) + END == END;
    } else {
      hide Stuffed, Dot, Receive, LineLen;
      var n := LineLen(m);
      assert n > 0 && m[..n][0] == DOT;
      FirstLineStep(m);
      ReceiveLine(m[..n], Dot(m[n + 1..]) + Stuffed(m[n + 1..]) + END);
      LineRest(m);
      DotLost(m[..n], Receive(Dot(m[n + 1..]) + Stuffed(m[n + 1..]) + END).mail, m[n + 1..] + [LF]);
      Seqs.Assoc(m[..n] + [LF], m[n + 1..], [LF]);
    }
  }

  lemma DotLost(line: seq<Byte>, t: seq<Byte>, u: seq<Byte>)
    requires line != [] && LF !in line
    ensures line[1..] + [LF] + t != line + [LF] + u
    ensures [] != line + [LF] + u
  {
    var n := |line|;
    assert (line[1..] + [LF] + t)[n - 1] == LF;
    assert (line + [LF] + u)[n - 1] == line[n - 1];
  }

  /**
   * The streaming writer delivers a mail, plus one empty line, exactly if the mail ends in LF and does
   * not begin with a dot (which is not doubled on the first line).
   */
  lemma StreamDelivers(m: seq<Byte>)
    ensures Arrives(Stuffed(m) + END, m + [LF])
            <==> Terminated(m) && (m != [] ==> m[0] != DOT)
  {
    if m != [] && m[0] == DOT {
      ReceiveDotted(m);
    } else {
      NoDot(m);
      Seqs.Unit(Stuffed(m));
      if Terminated(m) {
        ReceiveStuffed(m);
        hide *;
        assert Dot(m) + Stuffed(m) + END == Stuffed(m) + END;
      } else {
        ReceiveUnfinished(m);
        hide Stuffed, Receive, Dot;
        assert Dot(m) + Stuffed(m) + END == Stuffed(m) + END;
      }
    }
  }

  // ---------------------------------------------------------------- the header of the mail

  /** The header end, seen line by line. */
  lemma {:induction false} HeaderLines(m: seq<Byte>)
    requires HeaderLen(m) > 0
    ensures var n := LineLen(m);
            && n + 1 < |m|
            && if m[n + 1] == LF then HeaderLen(m) == n + 1
               else HeaderLen(m[n + 1..]) > 0 && HeaderLen(m) == n + 1 + HeaderLen(m[n + 1..])
    decreases |m|
  {
    if m[0] != LF {
      HeaderLines(m[1..]);
      assert m[1..][LineLen(m[1..]) + 1..] == m[LineLen(m) + 1..];
    }
  }

  /** The mail with a header line added at the end of its header. */
  function WithTo(m: seq<Byte>, line: seq<Byte>): seq<Byte>
    requires HeaderLen(m) > 0
  {
    m[..HeaderLen(m)] + (line + [LF] + m[HeaderLen(m)..])
  }

  lemma LineLenAt(line: seq<Byte>, t: seq<Byte>)
    requires LF !in line
    ensures LineLen(line + ([LF] + t)) == |line|
  {
    assert (line + ([LF] + t))[|line|] == LF;
  }

  /** A finished line in front of a text. */
  lemma StuffedFront(line: seq<Byte>, t: seq<Byte>)
    requires LF !in line
    ensures Stuffed(line + ([LF] + t)) == line + CRLF + Dot(t) + Stuffed(t)
  {
    var s := line + ([LF] + t);
    LineLenAt(line, t);
    assert s[..|line|] == line && s[|line| + 1..] == t;
  }

  /** Writing the To: line into the stream is writing the mail that has this line. */
  lemma {:induction false} ToIsHeaderLine(m: seq<Byte>, line: seq<Byte>)
    requires HeaderLen(m) > 0 && LF !in line && line != [] && line[0] != DOT
    ensures StuffedTo(m, line + CRLF) == Stuffed(WithTo(m, line))
    decreases |m|
  {
    HeaderLines(m);
    hide *;
    if m[LineLen(m) + 1] == LF {
      ToHere(m, line);
    } else {
      ToIsHeaderLine(m[LineLen(m) + 1..], line);
      ToThere(m, line);
    }
  }

  lemma ToHere(m: seq<Byte>, line: seq<Byte>)
    requires HeaderLen(m) > 0 && LineLen(m) + 1 < |m| && m[LineLen(m) + 1] == LF
    requires LF !in line && line != [] && line[0] != DOT
    ensures StuffedTo(m, line + CRLF) == Stuffed(WithTo(m, line))
  {
    HeaderLines(m);
    hide *;
    ToUnfolded(m, line + CRLF);
    ToNext(m[LineLen(m) + 1..], line + CRLF);
    ToAtEnd(m, LineLen(m), line);
  }

  lemma ToThere(m: seq<Byte>, line: seq<Byte>)
    requires HeaderLen(m) > 0 && LineLen(m) + 1 < |m| && m[LineLen(m) + 1] != LF && HeaderLen(m[LineLen(m) + 1..]) > 0
    requires StuffedTo(m[LineLen(m) + 1..], line + CRLF) == Stuffed(WithTo(m[LineLen(m) + 1..], line))
    ensures StuffedTo(m, line + CRLF) == Stuffed(WithTo(m, line))
  {
    HeaderLines(m);
    hide *;
    ToUnfolded(m, line + CRLF);
    ToNext(m[LineLen(m) + 1..], line + CRLF);
    ToInside(m, LineLen(m), line);
  }

  lemma ToAtEnd(m: seq<Byte>, n: nat, line: seq<Byte>)
    requires HeaderLen(m) == n + 1 && n == LineLen(m) && LF !in line && line != [] && line[0] != DOT
    ensures m[n + 1] == LF
    ensures Stuffed(WithTo(m, line)) == m[..n] + CRLF + (line + CRLF + Stuffed(m[n + 1..]))
  {
    var rest := m[n + 1..];
    hide LineLen, HeaderLen;
    assert m[..n + 1] == m[..n] + [LF];
    Seqs.Assoc(m[..n], [LF], line + [LF] + rest);
    Seqs.Assoc(line, [LF], rest);
    StuffedFront(m[..n], line + ([LF] + rest));
    StuffedFront(line, rest);
    assert Dot(line + ([LF] + rest)) == [] && Dot(rest) == [];
    hide *;
    Seqs.Unit(m[..n] + CRLF);
    Seqs.Unit(line + CRLF);
  }

  lemma FrontSlices(m: seq<Byte>, n: nat, h: nat)
    requires n + 1 <= h <= |m| && m[n] == LF
    ensures m[..h] == m[..n] + ([LF] + m[n + 1..][..h - n - 1])
    ensures m[n + 1..][h - n - 1..] == m[h..]
  {
    Seqs.Behind(m, n + 1, h - n - 1);
    assert m[..h] == m[..n] + ([m[n]] + m[n + 1..h]);
  }

  lemma SameDot(s: seq<Byte>, t: seq<Byte>)
    requires s != [] && t != [] && s[0] == t[0]
    ensures Dot(s) == Dot(t)
  {
  }

  lemma ToInside(m: seq<Byte>, n: nat, line: seq<Byte>)
    requires n == LineLen(m) && n + 1 < HeaderLen(m) == n + 1 + HeaderLen(m[n + 1..])
    ensures Stuffed(WithTo(m, line)) == m[..n] + CRLF + (Dot(m[n + 1..]) + Stuffed(WithTo(m[n + 1..], line)))
  {
    hide LineLen, HeaderLen, Stuffed, Dot;
    var rest, h := m[n + 1..], HeaderLen(m);
    var p, t := rest[..h - n - 1], line + [LF] + m[h..];
    assert LF !in m[..n] && m[n] == LF;
    FrontSlices(m, n, h);
    assert WithTo(m, line) == m[..h] + t && WithTo(rest, line) == p + t;
    hide WithTo;
    SameDot(p, rest);
    FrontInside(m[..n], p, t);
    Seqs.Assoc(m[..n] + CRLF, Dot(rest), Stuffed(p + t));
  }

  lemma FrontInside(a: seq<Byte>, p: seq<Byte>, t: seq<Byte>)
    requires LF !in a && p != []
    ensures Stuffed((a + ([LF] + p)) + t) == a + CRLF + Dot(p) + Stuffed(p + t)
  {
    hide Stuffed, Dot;
    Seqs.Assoc(a, [LF] + p, t);
    Seqs.Assoc([LF], p, t);
    StuffedFront(a, p + t);
    SameDot(p + t, p);
  }

  /** No line of the header but the first begins with a dot. */
  predicate NoDottedHeader(m: seq<Byte>) {
    forall i :: 0 < i < HeaderLen(m) && m[i] == DOT ==> m[i - 1] != LF
  }

  /** The same, seen line by line. */
  lemma DottedLines(m: seq<Byte>)
    requires HeaderLen(m) > 0
    ensures var n := LineLen(m);
            && n + 1 < |m|
            && (m[n + 1] == LF ==> NoDottedHeader(m))
            && (m[n + 1] != LF ==> (NoDottedHeader(m) <==> m[n + 1] != DOT && NoDottedHeader(m[n + 1..])))
  {
    hide LineLen, HeaderLen;
    HeaderLines(m);
    var n, h := LineLen(m), HeaderLen(m);
    assert forall i :: 0 <= i < n ==> m[i] == m[..n][i] != LF;
    if m[n + 1] != LF {
      var rest := m[n + 1..];
      assert forall i :: 0 <= i < |rest| ==> rest[i] == m[n + 1 + i];
      if m[n + 1] != DOT && NoDottedHeader(rest) {
        forall i | 0 < i < h && m[i] == DOT ensures m[i - 1] != LF {
          if i > n + 1 { assert rest[i - n - 1] == DOT && rest[i - n - 2] == m[i - 1]; }
        }
      }
      if NoDottedHeader(m) {
        assert n + 1 < h && m[n] == LF;
        forall i | 0 < i < h - n - 1 && rest[i] == DOT ensures rest[i - 1] != LF {
          assert m[n + 1 + i] == DOT && m[n + i] == rest[i - 1];
        }
      }
    }
  }

  lemma PlainOfNothing()
    ensures Plain([]) == []
  {
  }

  lemma PlainFront(line: seq<Byte>, t: seq<Byte>)
    requires LF !in line
    ensures Plain(line + ([LF] + t)) == line + CRLF + Plain(t)
  {
    var s := line + ([LF] + t);
    LineLenAt(line, t);
    assert s[..|line|] == line && s[|line| + 1..] == t;
  }

  /** The header of a mail, with its first line taken off. */
  lemma PlainStep(m: seq<Byte>)
    requires HeaderLen(m) > 0
    ensures var n := LineLen(m);
            && n + 1 < |m|
            && (m[n + 1] == LF ==> HeaderLen(m) == n + 1 && Plain(m[..HeaderLen(m)]) == m[..n] + CRLF)
            && (m[n + 1] != LF ==>
                  && HeaderLen(m[n + 1..]) > 0 && Body(m) == Body(m[n + 1..])
                  && Plain(m[..HeaderLen(m)]) == m[..n] + CRLF + Plain(m[n + 1..][..HeaderLen(m[n + 1..])]))
  {
    HeaderLines(m);
    assert LF !in m[..LineLen(m)] && m[LineLen(m)] == LF;
    PlainOfNothing();
    hide *;
    var n, h := LineLen(m), HeaderLen(m);
    PlainOfFront(m, n, h);
    if m[n + 1] == LF {
      Seqs.Unit(m[..n] + CRLF);
    } else {
      BodyFrom(m, n, h);
    }
  }

  lemma PlainOfFront(m: seq<Byte>, n: nat, h: nat)
    requires n + 1 <= h <= |m| && m[n] == LF && LF !in m[..n]
    ensures Plain(m[..h]) == m[..n] + CRLF + Plain(m[n + 1..][..h - n - 1])
    ensures h == n + 1 ==> m[n + 1..][..h - n - 1] == []
  {
    hide *;
    FrontSlices(m, n, h);
    PlainFront(m[..n], m[n + 1..][..h - n - 1]);
  }

  lemma BodyFrom(m: seq<Byte>, n: nat, h: nat)
    requires n + 1 < h == HeaderLen(m) == n + 1 + HeaderLen(m[n + 1..]) || h == n + 1
    requires h <= |m|
    ensures h > n + 1 ==> Body(m) == Body(m[n + 1..])
  {
    hide HeaderLen;
    if h > n + 1 {
      Seqs.Behind(m, n + 1, h - n - 1);
    }
  }

  /** A line that begins with a dot is another one when the dot is doubled. */
  lemma DotsDiffer(line: seq<Byte>, t: seq<Byte>, u: seq<Byte>)
    ensures line + CRLF + t != [DOT] + (line + CRLF + u)
  {
    assert (line + CRLF + t)[|line| + 1] == LF;
    assert ([DOT] + (line + CRLF + u))[|line| + 1] == CR;
  }

  lemma ToUnfolded(m: seq<Byte>, to: seq<Byte>)
    requires LineLen(m) < |m|
    ensures StuffedTo(m, to) == m[..LineLen(m)] + CRLF + NextTo(m[LineLen(m) + 1..], to)
  {
    hide LineLen, NextTo;
  }

  lemma ToNext(rest: seq<Byte>, to: seq<Byte>)
    requires rest != []
    ensures rest[0] == LF ==> NextTo(rest, to) == to + Stuffed(rest)
    ensures rest[0] != LF ==> NextTo(rest, to) == Dot(rest) + StuffedTo(rest, to)
  {
    hide Dot, Stuffed, StuffedTo;
  }

  /** Whatever is sent behind the header and the To: line, it is what the stream has there if all is equal. */
  lemma {:induction false} HeaderIsStream(m: seq<Byte>, to: seq<Byte>, b: seq<Byte>)
    requires HeaderLen(m) > 0
    ensures Plain(m[..HeaderLen(m)]) + (to + b) == StuffedTo(m, to) <==> NoDottedHeader(m) && b == Stuffed(Body(m))
    decreases |m|
  {
    PlainStep(m);
    DottedLines(m);
    var n := LineLen(m);
    var rest := m[n + 1..];
    ToUnfolded(m, to);
    ToNext(rest, to);
    assert rest[0] != LF ==> Body(m) == Body(rest);
    hide *;
    if rest[0] == LF {
      SameTail(m[..n] + CRLF, to + b, to + Stuffed(rest));
      SameTail(to, b, Stuffed(rest));
    } else {
      var p := Plain(rest[..HeaderLen(rest)]);
      HeaderIsStream(rest, to, b);
      HeaderLineDiffers(rest, to, b);
      Seqs.Assoc(m[..n] + CRLF, p, to + b);
      SameTail(m[..n] + CRLF, p + (to + b), Dot(rest) + StuffedTo(rest, to));
    }
  }

  lemma HeaderLineDiffers(m: seq<Byte>, to: seq<Byte>, b: seq<Byte>)
    requires HeaderLen(m) > 0
    ensures var p, q := Plain(m[..HeaderLen(m)]) + (to + b), Dot(m) + StuffedTo(m, to);
            if m[0] == DOT then p != q else q == StuffedTo(m, to)
  {
    hide LineLen, HeaderLen, Plain, StuffedTo;
    if m[0] == DOT {
      assert Dot(m) == [DOT];
      var line := m[..LineLen(m)] + CRLF;
      var p := PlainBegins(m);
      var q := StuffedToBegins(m, to);
      hide Dot;
      Seqs.Assoc(line, p, to + b);
      DotsDiffer(m[..LineLen(m)], p + (to + b), q);
    } else {
      NoDot(m);
      Seqs.Unit(StuffedTo(m, to));
    }
  }

  lemma PlainBegins(m: seq<Byte>) returns (p: seq<Byte>)
    requires HeaderLen(m) > 0
    ensures Plain(m[..HeaderLen(m)]) == m[..LineLen(m)] + CRLF + p
  {
    PlainStep(m);
    hide *;
    var rest := m[LineLen(m) + 1..];
    if m[LineLen(m) + 1] == LF {
      p := [];
      Seqs.Unit(m[..LineLen(m)] + CRLF);
    } else {
      p := Plain(rest[..HeaderLen(rest)]);
    }
  }

  lemma StuffedToBegins(m: seq<Byte>, to: seq<Byte>) returns (q: seq<Byte>)
    requires HeaderLen(m) > 0
    ensures StuffedTo(m, to) == m[..LineLen(m)] + CRLF + q
  {
    HeaderLines(m);
    ToUnfolded(m, to);
    hide *;
    q := NextTo(m[LineLen(m) + 1..], to);
  }

  /** strncpy copies a line exactly if nothing but NULs follows a NUL in it. */
  lemma {:induction false} CopiedExactly(line: seq<Byte>)
    ensures Copied(line) == line <==> forall i :: 0 <= i < |line| - 1 && line[i] == 0 ==> line[i + 1] == 0
  {
    if line != [] {
      var rest := line[1..];
      CopiedExactly(rest);
      assert line == [line[0]] + rest;
      if forall i :: 0 <= i < |line| - 1 && line[i] == 0 ==> line[i + 1] == 0 {
        forall i | 0 <= i < |rest| - 1 && rest[i] == 0 ensures rest[i + 1] == 0 {
          assert line[i + 1] == 0;
        }
        if line[0] == 0 {
          AllNul(line);
        }
      } else {
        var i :| 0 <= i < |line| - 1 && line[i] == 0 && line[i + 1] != 0;
        if line[0] != 0 {
          assert rest[i - 1] == 0 && rest[i] != 0;
        }
      }
    }
  }

  lemma {:induction false} AllNul(line: seq<Byte>)
    requires line != [] && line[0] == 0
    requires forall i :: 0 <= i < |line| - 1 && line[i] == 0 ==> line[i + 1] == 0
    ensures forall i :: 0 <= i < |line| ==> line[i] == 0
  {
    if |line| > 1 {
      AllNul(line[1..]);
      assert forall i :: 1 <= i < |line| ==> line[i] == line[1..][i - 1];
    }
  }

  lemma NulsLastStep(s: seq<Byte>)
    requires LineLen(s) < |s|
    ensures NulsLast(s) <==> Copied(s[..LineLen(s)]) == s[..LineLen(s)] && NulsLast(s[LineLen(s) + 1..])
  {
    hide LineLen, Copied, NulsLast;
    var n := LineLen(s);
    CopiedExactly(s[..n]);
    if NulsLast(s) {
      NulsLastDown(s, n);
    }
    if Copied(s[..n]) == s[..n] && NulsLast(s[n + 1..]) {
      NulsLastUp(s, n);
    }
  }

  lemma NulsLastDown(s: seq<Byte>, n: nat)
    requires n < |s| && s[n] == LF && LF !in s[..n] && NulsLast(s)
    ensures forall i :: 0 <= i < |s[..n]| - 1 && s[..n][i] == 0 ==> s[..n][i + 1] == 0
    ensures NulsLast(s[n + 1..])
  {
    var line, rest := s[..n], s[n + 1..];
    forall i | 0 <= i < |line| - 1 && line[i] == 0 ensures line[i + 1] == 0 {
      assert s[i + 1] == line[i + 1] && s[i + 1..][n - i - 1] == LF;
    }
    forall i | 0 <= i < |rest| - 1 && rest[i] == 0 && rest[i + 1] != 0 && rest[i + 1] != LF
      ensures LF !in rest[i + 1..]
    {
      var k := n + 1 + i;
      assert s[k] == 0 && s[k + 1] == rest[i + 1];
      assert s[k + 1..] == rest[i + 1..];
    }
  }

  lemma NulsLastUp(s: seq<Byte>, n: nat)
    requires n < |s| && s[n] == LF && LF !in s[..n] && NulsLast(s[n + 1..])
    requires forall i :: 0 <= i < |s[..n]| - 1 && s[..n][i] == 0 ==> s[..n][i + 1] == 0
    ensures NulsLast(s)
  {
    var line, rest := s[..n], s[n + 1..];
    assert forall i :: 0 <= i < n ==> s[i] == line[i];
    forall i | 0 <= i < |s| - 1 && s[i] == 0 && s[i + 1] != 0 && s[i + 1] != LF ensures LF !in s[i + 1..] {
      if i > n {
        var k := i - n - 1;
        assert rest[k] == 0 && rest[k + 1] == s[i + 1];
        assert s[i + 1..] == rest[k + 1..];
      }
    }
  }

  /** The body in memory is the body of the stream exactly if strncpy has copied all of its lines. */
  lemma {:induction false} CopiesAreStuffed(s: seq<Byte>)
    ensures |Copies(s, true)| == |Stuffed(s)|
    ensures Copies(s, true) == Stuffed(s) <==> NulsLast(s)
    decreases |s|
  {
    if LineLen(s) < |s| {
      Unfolded(s);
      CopiesUnfolded(s, true);
      NulsLastStep(s);
      hide *;
      var line, rest := s[..LineLen(s)], s[LineLen(s) + 1..];
      CopiesAreStuffed(rest);
      SameJoined(Copied(line), line, CRLF, Dot(rest), Copies(rest, true), Stuffed(rest));
    } else {
      NothingWritten(s);
      NulsInUnfinished(s);
    }
  }

  lemma NulsInUnfinished(s: seq<Byte>)
    requires LF !in s
    ensures NulsLast(s)
  {
  }

  lemma SameParts<T>(a: seq<T>, b: seq<T>, c: seq<T>, d: seq<T>, e: seq<T>)
    requires |a| == |b|
    ensures a + c + d == b + c + e <==> a == b && d == e
  {
    Seqs.Ends(a, c, d);
    Seqs.Ends(b, c, e);
  }

  lemma SameJoined<T>(a: seq<T>, b: seq<T>, c: seq<T>, d: seq<T>, e: seq<T>, f: seq<T>)
    requires |a| == |b|
    ensures a + c + d + e == b + c + d + f <==> a == b && e == f
    ensures |e| == |f| ==> |a + c + d + e| == |b + c + d + f|
  {
    Seqs.Assoc(a, c, d);
    Seqs.Assoc(b, c, d);
    SameParts(a, b, c + d, e, f);
  }

  lemma TailIsEmpty<T>(a: seq<T>, b: seq<T>, tail: seq<T>)
    requires |a| == |b|
    ensures a + tail == b <==> tail == [] && a == b
  {
    Seqs.Unit(a);
  }

  /**
   * What is sent from memory is what the streaming writer writes exactly if the mail ends in LF, no line of its
   * header but the first begins with a dot, and no line of its body has a NUL that something else follows.
   */
  lemma PreparedIsStream(m: seq<Byte>, tohdr: Option<seq<Byte>>, tail: seq<Byte>)
    requires HeaderLen(m) > 0 && |tail| == |Unfinished(Body(m))|
    ensures Prepared(m, LineOf(tohdr), tail) == Streamed(m, tohdr)
            <==> Terminated(m) && NoDottedHeader(m) && NulsLast(Body(m))
  {
    var to, b := LineOf(tohdr), Copies(Body(m), true);
    TerminatedBody(m);
    StreamNoTo(m);
    HeaderIsStream(m, to, b + tail);
    CopiesAreStuffed(Body(m));
    TailIsEmpty(b, Stuffed(Body(m)), tail);
    hide HeaderLen, Plain, Copies, Stuffed, StuffedTo, NoDottedHeader, NulsLast, Body, Terminated;
    Seqs.Assoc(Plain(m[..HeaderLen(m)]), to, b + tail);
  }

  lemma SameTail<T>(a: seq<T>, p: seq<T>, q: seq<T>)
    ensures a + p == a + q <==> p == q
  {
    assert (a + p)[|a|..] == p && (a + q)[|a|..] == q;
  }

  lemma ArrivesLine(line: seq<Byte>, t: seq<Byte>, u: seq<Byte>, x: seq<Byte>)
    requires LF !in line && |u| == |Unstuff(line)| && line != [DOT]
    ensures Arrives(line + (CRLF + t), u + [LF] + x) <==> Unstuff(line) == u && Arrives(t, x)
  {
    ReceiveLine(line, t);
    hide Receive;
    SameParts(Unstuff(line), u, [LF], Receive(t).mail, x);
  }

  /** A line whose dot has not been doubled arrives exactly if it does not begin with one. */
  lemma ArrivesPlain(line: seq<Byte>, t: seq<Byte>, x: seq<Byte>)
    requires LF !in line
    ensures Arrives(line + (CRLF + t), line + [LF] + x) <==> (line == [] || line[0] != DOT) && Arrives(t, x)
  {
    if line != [] && line[0] == DOT {
      ReceiveLine(line, t);
      hide Receive;
      DotLost(line, Receive(t).mail, x);
    } else {
      hide Arrives;
      ArrivesLine(line, t, line, x);
    }
  }

  /** No line begins with a dot. */
  predicate NoDottedLine(s: seq<Byte>) {
    forall i :: 0 <= i < |s| && s[i] == DOT ==> i > 0 && s[i - 1] != LF
  }

  lemma DottedStep(s: seq<Byte>)
    requires LineLen(s) < |s|
    ensures var n := LineLen(s);
            NoDottedLine(s) <==> (s[..n] == [] || s[..n][0] != DOT) && NoDottedLine(s[n + 1..])
  {
    hide LineLen;
    var n := LineLen(s);
    var line, rest := s[..n], s[n + 1..];
    assert s[n] == LF && LF !in line;
    if NoDottedLine(s) {
      forall i | 0 <= i < |rest| && rest[i] == DOT ensures i > 0 && rest[i - 1] != LF {
        assert s[n + 1 + i] == DOT;
      }
    }
    if (line == [] || line[0] != DOT) && NoDottedLine(rest) {
      forall i | 0 <= i < |s| && s[i] == DOT ensures i > 0 && s[i - 1] != LF {
        if i < n {
          assert line[i] == DOT;
          assert i > 0 ==> line[i - 1] == s[i - 1];
        } else {
          assert rest[i - n - 1] == DOT;
        }
      }
    }
  }

  /** Header lines, whose dots are not doubled, arrive exactly if none begins with a dot. */
  lemma {:induction false} HeaderArrives(s: seq<Byte>, t: seq<Byte>, x: seq<Byte>)
    requires Terminated(s)
    ensures Arrives(Plain(s) + t, s + x) <==> NoDottedLine(s) && Arrives(t, x)
    decreases |s|
  {
    var n := LineLen(s);
    if n < |s| {
      var rest := s[n + 1..];
      LineRest(s);
      DottedStep(s);
      HeaderArrives(rest, t, x);
      ArrivesPlain(s[..n], Plain(rest) + t, rest + x);
      assert Plain(s) == s[..n] + CRLF + Plain(rest);
      hide *;
      Seqs.Assoc(s[..n] + CRLF, Plain(rest), t);
      Seqs.Assoc(s[..n], CRLF, Plain(rest) + t);
      Seqs.Assoc(s[..n] + [LF], rest, x);
    } else {
      assert s == [];
      Seqs.Unit(t);
      Seqs.Unit(x);
    }
  }

  lemma {:induction false} WireLenAtMost(s: seq<Byte>, k: nat)
    requires k + 1 < |s| && s[k] == CR && s[k + 1] == LF
    ensures WireLen(s) <= k
  {
    if k > 0 {
      WireLenAtMost(s[1..], k - 1);
    }
  }

  /** An unfinished line arrives exactly if the bytes in its place happen to be those of the line. */
  lemma LastLineArrives(u: seq<Byte>, tail: seq<Byte>)
    requires LF !in u && |tail| == |u|
    ensures Arrives(Dot(u) + tail + END, u + [LF]) <==> tail == u
  {
    if tail == u {
      LastLineWhole(u);
    } else if Arrives(Dot(u) + tail + END, u + [LF]) {
      LastLineOnly(u, tail);
    }
  }

  lemma LastLineWhole(u: seq<Byte>)
    requires LF !in u
    ensures Arrives(Dot(u) + u + END, u + [LF])
  {
    StuffedWhole(u);
    EndArrives();
    hide *;
    var line, dot: seq<Byte> := Dot(u) + u, [DOT, CR, LF];
    assert CRLF + dot == END;
    ArrivesLine(line, dot, u, []);
    Seqs.Unit(u + [LF]);
  }

  lemma StuffedWhole(u: seq<Byte>)
    requires LF !in u
    ensures var line := Dot(u) + u;
            line != [DOT] && Unstuff(line) == u && LF !in line
  {
    assert Dot(u) == [] ==> Dot(u) + u == u;
    assert Dot(u) != [] ==> (Dot(u) + u)[1..] == u;
  }

  lemma EndArrives()
    ensures Arrives([DOT, CR, LF], [])
  {
    ReceiveLine([DOT], []);
    assert [DOT] + (CRLF + []) == [DOT, CR, LF];
  }

  lemma LastLineOnly(u: seq<Byte>, tail: seq<Byte>)
    requires LF !in u && |tail| == |u| && Arrives(Dot(u) + tail + END, u + [LF])
    ensures tail == u
  {
    var front := Dot(u) + tail;
    var w := front + END;
    assert w[|front|] == CR && w[|front| + 1] == LF;
    WireLenAtMost(w, |front|);
    FirstWireLine(w, u);
    hide Receive, Arrives, WireLen;
    var n := WireLen(w);
    assert w[..n] == front[..n];
    assert n == |front|;
  }

  lemma FirstWireLine(w: seq<Byte>, u: seq<Byte>)
    requires LF !in u && Arrives(w, u + [LF])
    ensures WireLen(w) < |w| && Unstuff(w[..WireLen(w)]) == u
  {
    hide WireLen, Unstuff;
    FirstLineOnly(Unstuff(w[..WireLen(w)]), Receive(w[WireLen(w) + 2..]).mail, u);
  }

  lemma FirstLineOnly(a: seq<Byte>, more: seq<Byte>, u: seq<Byte>)
    requires LF !in u && a + [LF] + more == u + [LF]
    ensures a == u
  {
    var s := u + [LF];
    assert s[|a|] == (a + [LF] + more)[|a|] == LF;
    assert |a| == |u|;
    assert s[..|a|] == a && s[..|u|] == u;
  }

  /** A body sent from memory arrives exactly if strncpy has copied its lines and the tail is what it should be. */
  lemma {:induction false} BodyArrives(s: seq<Byte>, tail: seq<Byte>)
    requires |tail| == |Unfinished(s)|
    ensures Arrives(Dot(s) + (Copies(s, true) + tail + END), s + [LF]) <==> NulsLast(s) && tail == Unfinished(s)
    decreases |s|
  {
    var n := LineLen(s);
    if n < |s| {
      var rest := s[n + 1..];
      LineRest(s);
      NulsLastStep(s);
      BodyArrives(rest, tail);
      CopiedLine(s);
      ArrivesLine(Dot(s) + Copied(s[..n]), Dot(rest) + (Copies(rest, true) + tail + END), s[..n], rest + [LF]);
      CopiesWire(s, tail);
      hide *;
      Seqs.Assoc(s[..n] + [LF], rest, [LF]);
    } else {
      LastLineArrives(s, tail);
      NulsInUnfinished(s);
      hide *;
      Seqs.Unit(tail);
      Seqs.Assoc(Dot(s), tail, END);
    }
  }

  lemma CopiedLine(s: seq<Byte>)
    requires LineLen(s) < |s|
    ensures var line := Dot(s) + Copied(s[..LineLen(s)]);
            LF !in line && line != [DOT] && Unstuff(line) == Copied(s[..LineLen(s)])
  {
    NoLineEndCopied(s[..LineLen(s)]);
  }

  lemma {:induction false} NoLineEndCopied(line: seq<Byte>)
    requires LF !in line
    ensures LF !in Copied(line)
    ensures line != [] ==> Copied(line)[0] == line[0]
  {
    if line != [] {
      NoLineEndCopied(line[1..]);
    }
  }

  lemma CopiesWire(s: seq<Byte>, tail: seq<Byte>)
    requires LineLen(s) < |s|
    ensures var n := LineLen(s);
            Dot(s) + (Copies(s, true) + tail + END)
            == (Dot(s) + Copied(s[..n])) + (CRLF + (Dot(s[n + 1..]) + (Copies(s[n + 1..], true) + tail + END)))
  {
    hide LineLen, Dot, Copied;
    var n := LineLen(s);
    var a, d, r := Copied(s[..n]), Dot(s[n + 1..]), Copies(s[n + 1..], true);
    assert Copies(s, true) == a + CRLF + d + r;
    hide *;
    Seqs.Assoc(r, tail, END);
    Seqs.Assoc(a + CRLF + d + r, tail, END);
    Regroup(Dot(s), a, CRLF, d, r, tail + END);
    Seqs.Assoc(Dot(s), a + CRLF + d + r, tail + END);
    Seqs.Assoc(d, r, tail + END);
  }

  /** Everything the delivery of a mail sent from memory depends on, but for its last line. */
  predicate Deliverable(m: seq<Byte>) {
    NoDottedHeader(m) && (m != [] ==> m[0] != DOT) && NulsLast(Body(m))
  }

  lemma HeaderDots(m: seq<Byte>)
    requires HeaderLen(m) > 0
    ensures NoDottedLine(m[..HeaderLen(m)]) <==> NoDottedHeader(m) && m[0] != DOT
  {
    hide HeaderLen;
    var h := m[..HeaderLen(m)];
    assert forall i :: 0 <= i < |h| ==> h[i] == m[i];
    if NoDottedHeader(m) && m[0] != DOT {
      forall i | 0 <= i < |h| && h[i] == DOT ensures i > 0 && h[i - 1] != LF {
        assert m[i] == DOT;
      }
    }
    if NoDottedLine(h) {
      forall i | 0 < i < HeaderLen(m) && m[i] == DOT ensures m[i - 1] != LF {
        assert h[i] == DOT;
      }
      assert m[0] == h[0];
    }
  }

  lemma BodyWire(m: seq<Byte>, tail: seq<Byte>)
    requires HeaderLen(m) > 0 && |tail| == |Unfinished(Body(m))|
    ensures Arrives(Copies(Body(m), true) + tail + END, Body(m) + [LF])
            <==> NulsLast(Body(m)) && tail == Unfinished(Body(m))
  {
    BodyArrives(Body(m), tail);
    NoDot(Body(m));
    hide *;
    Seqs.Unit(Copies(Body(m), true) + tail + END);
  }

  /**
   * Sent from memory, a mail arrives exactly if no line of its header begins with a dot, no line of its body has a
   * NUL that something else follows, and an unfinished last line happens to be in the memory sent for it.
   */
  lemma PreparedDelivers(m: seq<Byte>, tail: seq<Byte>)
    requires HeaderLen(m) > 0 && |tail| == |Unfinished(Body(m))|
    ensures Arrives(Prepared(m, [], tail) + END, m + [LF])
            <==> Deliverable(m) && tail == Unfinished(Body(m))
  {
    var h, b := m[..HeaderLen(m)], Copies(Body(m), true) + tail;
    assert m == h + Body(m);
    assert Terminated(h);
    HeaderArrives(h, b + END, Body(m) + [LF]);
    HeaderDots(m);
    BodyWire(m, tail);
    assert Prepared(m, [], tail) == Plain(h) + [] + b;
    hide Plain, Copies, Body, Arrives, HeaderLen, Prepared, NoDottedHeader, NoDottedLine, NulsLast;
    Seqs.Unit(Plain(h));
    Seqs.Assoc(Plain(h), b, END);
    Seqs.Assoc(h, Body(m), [LF]);
  }

  /** The mail arrives whatever is in the memory sent for an unfinished last line. */
  ghost predicate AlwaysArrives(m: seq<Byte>) {
    forall tail :: |tail| == |Unfinished(Body(m))| ==> Arrives(Prepared(m, [], tail) + END, m + [LF])
  }

  /** For this it has to end in LF. */
  lemma AlwaysDelivered(m: seq<Byte>)
    requires HeaderLen(m) > 0
    ensures AlwaysArrives(m) <==> Deliverable(m) && Terminated(m)
  {
    TerminatedBody(m);
    hide Arrives, Prepared, Body, HeaderLen, Unfinished, Terminated, Deliverable;
    if AlwaysArrives(m) {
      OtherTail(m);
    }
    if Deliverable(m) && Terminated(m) {
      forall tail | |tail| == |Unfinished(Body(m))| ensures Arrives(Prepared(m, [], tail) + END, m + [LF]) {
        PreparedDelivers(m, tail);
      }
    }
  }

  lemma TerminatedBody(m: seq<Byte>)
    requires HeaderLen(m) > 0
    ensures Terminated(m) <==> Terminated(Body(m))
    ensures Terminated(m) <==> Unfinished(Body(m)) == []
  {
    assert Body(m)[|Body(m)| - 1] == m[|m| - 1];
  }

  lemma OtherTail(m: seq<Byte>)
    requires HeaderLen(m) > 0 && AlwaysArrives(m)
    ensures Deliverable(m) && Unfinished(Body(m)) == []
  {
    hide Arrives, Prepared, Body, HeaderLen, Unfinished, Deliverable;
    var u := Unfinished(Body(m));
    var other := if u == [] then [] else [if u[0] == 0 then 1 else 0] + u[1..];
    assert |other| == |u| && (u != [] ==> other[0] != u[0]);
    assert Arrives(Prepared(m, [], other) + END, m + [LF]);
    hide AlwaysArrives;
    PreparedDelivers(m, other);
  }

  lemma {:induction false} StreamNoTo(m: seq<Byte>)
    ensures StuffedTo(m, []) == Stuffed(m)
    decreases |m|
  {
    var n := LineLen(m);
    if n < |m| {
      var rest := m[n + 1..];
      StreamNoTo(rest);
      Unfolded(m);
      hide LineLen, Stuffed, StuffedTo;
      Seqs.Unit(Stuffed(rest));
      Seqs.Assoc(m[..n] + CRLF, Dot(rest), Stuffed(rest));
    }
  }

  /**
   * With a To: line the receiver gets the mail that has the line, from the stream and from memory on the same
   * conditions as without.
   */
  lemma DeliversWithTo(m: seq<Byte>, line: seq<Byte>, tail: seq<Byte>)
    requires HeaderLen(m) > 0 && LF !in line && line != [] && line[0] != DOT
    requires |tail| == |Unfinished(Body(m))|
    ensures Arrives(StuffedTo(m, line + CRLF) + END, WithTo(m, line) + [LF])
            <==> Terminated(m) && m[0] != DOT
    ensures Arrives(Prepared(m, line + CRLF, tail) + END, WithTo(m, line) + [LF])
            <==> Deliverable(m) && tail == Unfinished(Body(m))
  {
    hide *;
    StreamWithTo(m, line);
    PreparedWithTo(m, line, tail);
  }

  lemma StreamWithTo(m: seq<Byte>, line: seq<Byte>)
    requires HeaderLen(m) > 0 && LF !in line && line != [] && line[0] != DOT
    ensures Arrives(StuffedTo(m, line + CRLF) + END, WithTo(m, line) + [LF]) <==> Terminated(m) && m[0] != DOT
  {
    EndsOfWithTo(m, line);
    hide *;
    ToIsHeaderLine(m, line);
    StreamDelivers(WithTo(m, line));
  }

  lemma EndsOfWithTo(m: seq<Byte>, line: seq<Byte>)
    requires HeaderLen(m) > 0
    ensures var w := WithTo(m, line);
            w != [] && w[0] == m[0] && (Terminated(w) <==> Terminated(m))
  {
    assert WithTo(m, line)[|WithTo(m, line)| - 1] == m[|m| - 1];
  }

  lemma PreparedWithTo(m: seq<Byte>, line: seq<Byte>, tail: seq<Byte>)
    requires HeaderLen(m) > 0 && LF !in line && line != [] && line[0] != DOT
    requires |tail| == |Unfinished(Body(m))|
    ensures Arrives(Prepared(m, line + CRLF, tail) + END, WithTo(m, line) + [LF])
            <==> Deliverable(m) && tail == Unfinished(Body(m))
  {
    hide *;
    SentParts(m, line, tail);
    var h, b, x := m[..HeaderLen(m)], Copies(Body(m), true) + tail, Body(m) + [LF];
    HeaderArrives(h, line + (CRLF + (b + END)), line + [LF] + x);
    ArrivesPlain(line, b + END, x);
    HeaderDots(m);
    BodyWire(m, tail);
    LineBetween(Plain(h), line, CRLF, b, END);
    LineBetween(h, line, [LF], Body(m), [LF]);
  }

  lemma SentParts(m: seq<Byte>, line: seq<Byte>, tail: seq<Byte>)
    requires HeaderLen(m) > 0
    ensures var h := m[..HeaderLen(m)];
            && Terminated(h)
            && Prepared(m, line + CRLF, tail) == Plain(h) + (line + CRLF) + (Copies(Body(m), true) + tail)
            && WithTo(m, line) == h + (line + [LF] + Body(m))
    ensures Deliverable(m) <==> NoDottedHeader(m) && m[0] != DOT && NulsLast(Body(m))
  {
    hide Plain, Copies, NoDottedHeader, NulsLast;
  }

  /** A line with its end, in front of b and behind p, comes next. */
  lemma LineBetween<T>(p: seq<T>, line: seq<T>, end: seq<T>, b: seq<T>, c: seq<T>)
    ensures p + (line + end) + b + c == p + (line + (end + (b + c)))
    ensures p + (line + end + b) + c == p + (line + end + (b + c))
  {
    Seqs.Assoc(p + (line + end), b, c);
    Seqs.Assoc(p, line + end, b + c);
    Seqs.Assoc(line, end, b + c);
    Seqs.Assoc(p, line + end + b, c);
    Seqs.Assoc(line + end, b, c);
  }

  // ---------------------------------------------------------------- the program

  /** The connection to the mail server, and what has been written to it; a write can fail unless it is healthy. */
  class Socket {
    const healthy: bool
    var sent: seq<Byte>

    constructor (healthy: bool)
      ensures sent == [] && this.healthy == healthy
    {
      this.healthy, sent := healthy, [];
    }

    method Writen(s: seq<Byte>) returns (ok: bool)
      modifies this
      ensures old(sent) <= sent <= old(sent) + s
      ensures ok ==> sent == old(sent) + s
      ensures healthy ==> ok
    {
      ok :| healthy ==> ok;
      if ok {
        sent := sent + s;
      } else {
        var n :| 0 <= n <= |s|;
        sent := sent + s[..n];
      }
    }
  }

  /** A line found from cur to next. */
  lemma LineFound(m: seq<Byte>, cur: nat, next: nat)
    requires cur <= next < |m| && m[next] == LF && LF !in m[cur..next]
    ensures LineLen(m[cur..]) == next - cur && m[cur..][..next - cur] == m[cur..next]
    ensures m[cur..][next - cur + 1..] == m[next + 1..]
  {
    var s := m[cur..];
    Seqs.Behind(m, cur, next - cur);
    Seqs.Behind(m, cur, next - cur + 1);
    assert s == m[cur..next] + ([LF] + m[next + 1..]);
    LineLenAt(m[cur..next], m[next + 1..]);
  }

  lemma StreamStep(m: seq<Byte>, cur: nat, next: nat, to: Option<seq<Byte>>)
    requires cur <= next < |m| && m[next] == LF && LF !in m[cur..next]
    ensures var rest := m[next + 1..];
            var line := m[cur..next] + (CRLF + Dot(rest));
            if to.Some? && rest != [] && rest[0] == LF then
              Streamed(m[cur..], to) == line + to.value + Streamed(rest, None)
            else Streamed(m[cur..], to) == line + Streamed(rest, to)
  {
    LineFound(m, cur, next);
    var t, rest := m[cur..], m[next + 1..];
    Unfolded(t);
    if to.Some? {
      ToUnfolded(t, to.value);
    }
    if rest != [] && rest[0] == LF {
      NoDot(rest);
    }
    hide Stuffed, StuffedTo, LineLen, Dot;
    var line := m[cur..next] + CRLF;
    Seqs.Assoc(m[cur..next], CRLF, Dot(rest));
    Seqs.Unit(CRLF);
    if to.Some? {
      Seqs.Assoc(line, to.value, Stuffed(rest));
      Seqs.Assoc(line, Dot(rest), StuffedTo(rest, to.value));
    }
  }

  lemma NoDot(s: seq<Byte>)
    requires s == [] || s[0] != DOT
    ensures Dot(s) == []
  {
  }

  lemma NoLine(m: seq<Byte>, cur: nat, to: Option<seq<Byte>>)
    requires cur <= |m| && LF !in m[cur..]
    ensures Streamed(m[cur..], to) == []
  {
    assert LineLen(m[cur..]) == |m[cur..]|;
  }

  lemma LongerLine(m: seq<Byte>, cur: nat, next: nat)
    requires cur <= next < |m| && LF !in m[cur..next] && m[next] != LF
    ensures LF !in m[cur..next + 1]
  {
    assert m[cur..next + 1] == m[cur..next] + [m[next]];
  }

  /** write_mailbody_from_map. */
  method WriteMailbody(sock: Socket, m: seq<Byte>, tohdr: Option<seq<Byte>>) returns (ok: bool)
    modifies sock
    ensures ok ==> sock.sent == old(sock.sent) + Streamed(m, tohdr)
    ensures sock.healthy ==> ok
  {
    hide Streamed, Dot, LineLen;
    var cur, next, to := 0, 0, tohdr;
    assert m[0..] == m && LF !in m[0..0];
    while next < |m|
      invariant cur <= next <= |m| && LF !in m[cur..next]
      invariant sock.sent + Streamed(m[cur..], to) == old(sock.sent) + Streamed(m, tohdr)
    {
      if m[next] == LF {
        to, ok := WriteLine(sock, m, cur, next, to);
        if !ok {
          return;
        }
        cur := next + 1;
      } else {
        LongerLine(m, cur, next);
      }
      next := next + 1;
    }
    assert m[cur..next] == m[cur..];
    NoLine(m, cur, to);
    Seqs.Unit(sock.sent);
    ok := true;
  }

  /** What stands for an LF: CRLF, and the dot of the line that begins behind it. */
  method NewlineBuf(s: seq<Byte>, next: nat, dots: bool) returns (newline: seq<Byte>)
    requires next < |s|
    ensures newline == CRLF + (if dots then Dot(s[next + 1..]) else []) && 0 !in newline
  {
    newline := CRLF;
    if dots && next < |s| - 1 && s[next + 1] == DOT {
      newline := newline + [DOT];
    }
  }

  /** One line with its CRLF, the dot of the next line, and the To: line at the end of the header. */
  method WriteLine(sock: Socket, m: seq<Byte>, cur: nat, next: nat, to: Option<seq<Byte>>)
    returns (to': Option<seq<Byte>>, ok: bool)
    requires cur <= next < |m| && m[next] == LF && LF !in m[cur..next]
    modifies sock
    ensures ok ==> sock.sent + Streamed(m[next + 1..], to') == old(sock.sent) + Streamed(m[cur..], to)
    ensures sock.healthy ==> ok
  {
    ghost var before, rest := sock.sent, m[next + 1..];
    ghost var line := m[cur..next] + (CRLF + Dot(rest));
    StreamStep(m, cur, next, to);
    assert rest != [] ==> rest[0] == m[next + 1];
    hide Streamed;
    to' := to;
    ok := sock.Writen(m[cur..next]);
    if !ok { return; }
    hide Dot;
    var newline := NewlineBuf(m, next, true);
    ok := sock.Writen(newline);
    if !ok { return; }
    Seqs.Assoc(before, m[cur..next], newline);
    Seqs.Assoc(before, line, Streamed(rest, to));
    if to.Some? && next < |m| - 1 && m[next + 1] == LF {
      ok := sock.Writen(to.value);
      to' := None;
      Seqs.Assoc(before, line, to.value);
      Seqs.Assoc(before, line + to.value, Streamed(rest, None));
    }
  }

  /** strstr(map, "\n\n"), one behind it; 0 for NULL. */
  method FindHeaderEnd(m: seq<Byte>) returns (h: nat)
    ensures h == if Preparable(m) then HeaderLen(m) else 0
  {
    var i := 0;
    assert m[0..] == m;
    while i + 1 < |m| && m[i] != 0
      invariant i <= |m| && 0 !in m[..i]
      invariant HeaderLen(m) == if HeaderLen(m[i..]) == 0 then 0 else i + HeaderLen(m[i..])
    {
      assert m[i..][1..] == m[i + 1..];
      if m[i] == LF && m[i + 1] == LF {
        return i + 1;
      }
      i := i + 1;
    }
    if i < |m| && m[i] == 0 {
      NulFound(m, i);
    }
    h := 0;
  }

  lemma NulFound(m: seq<Byte>, i: nat)
    requires i < |m| && m[i] == 0
    ensures HeaderLen(m) > i ==> !Preparable(m)
  {
    if HeaderLen(m) > i {
      assert m[..HeaderLen(m)][i] == 0;
    }
  }

  /** How much longer a text gets by its CRs, and by the dots of its lines. */
  function Growth(s: seq<Byte>, dots: bool): nat {
    if s == [] then 0
    else (if s[0] != LF then 0 else if dots && |s| > 1 && s[1] == DOT then 2 else 1) + Growth(s[1..], dots)
  }

  lemma {:induction false} GrowthLine(s: seq<Byte>, dots: bool)
    ensures var n := LineLen(s);
            Growth(s, dots) == if n == |s| then 0
                               else 1 + (if dots then |Dot(s[n + 1..])| else 0) + Growth(s[n + 1..], dots)
    decreases |s|
  {
    if s != [] && s[0] != LF {
      GrowthLine(s[1..], dots);
      assert LineLen(s) < |s| ==> s[1..][LineLen(s)..] == s[LineLen(s) + 1..];
    }
  }

  /** The sizing passes count what the filling passes write, but for a last line without LF. */
  lemma {:induction false} PassesAgree(s: seq<Byte>, dots: bool)
    ensures |Copies(s, dots)| + |Unfinished(s)| == |s| + Growth(s, dots)
    decreases |s|
  {
    hide LineLen, Growth, Copied, Dot;
    GrowthLine(s, dots);
    var n := LineLen(s);
    if n < |s| {
      PassesAgree(s[n + 1..], dots);
    }
  }

  lemma {:induction false} CopiedWithoutNul(line: seq<Byte>)
    requires 0 !in line
    ensures Copied(line) == line
  {
    CopiedExactly(line);
  }

  lemma {:induction false} CopiesArePlain(s: seq<Byte>)
    requires 0 !in s
    ensures Copies(s, false) == Plain(s)
    decreases |s|
  {
    if LineLen(s) < |s| {
      Unfolded(s);
      CopiesUnfolded(s, false);
      hide *;
      var line, rest := s[..LineLen(s)], s[LineLen(s) + 1..];
      CopiedWithoutNul(line);
      CopiesArePlain(rest);
      Seqs.Unit(line + CRLF);
    } else {
      NothingWritten(s);
    }
  }

  lemma CopiesStep(s: seq<Byte>, cur: nat, next: nat, dots: bool)
    requires cur <= next < |s| && s[next] == LF && LF !in s[cur..next]
    ensures Copies(s[cur..], dots)
            == Copied(s[cur..next]) + (CRLF + if dots then Dot(s[next + 1..]) else []) + Copies(s[next + 1..], dots)
  {
    hide LineLen, Dot, Copied;
    LineFound(s, cur, next);
    Seqs.Assoc(Copied(s[cur..next]), CRLF, if dots then Dot(s[next + 1..]) else []);
  }

  /** The first pass of either preparation. */
  method CountGrowth(s: seq<Byte>, dots: bool) returns (n: nat)
    ensures n == Growth(s, dots)
  {
    n := 0;
    var i := 0;
    assert s[0..] == s;
    while i < |s|
      invariant i <= |s| && n + Growth(s[i..], dots) == Growth(s, dots)
    {
      assert s[i..][1..] == s[i + 1..];
      if s[i] == LF {
        n := n + 1;
        if dots && i < |s| - 1 && s[i + 1] == DOT {
          n := n + 1;
        }
      }
      i := i + 1;
    }
  }

  /** strncpy into a buffer at r. */
  method StrnCpy(buf: array<Byte>, r: nat, s: seq<Byte>)
    requires r + |s| <= buf.Length
    modifies buf
    ensures buf[..r + |s|] == old(buf[..r]) + Copied(s)
  {
    var i, ended := 0, false;
    hide Copied;
    while i < |s|
      invariant i <= |s| && buf[..r] == old(buf[..r])
      invariant ended <==> 0 in s[..i]
      invariant buf[r..r + i] == Copied(s)[..i]
    {
      CopiedAt(s, i);
      Seqs.Grow(s, 0, i);
      Seqs.Grow(Copied(s), 0, i);
      ended := ended || s[i] == 0;
      buf[r + i] := if ended then 0 else s[i];
      i := i + 1;
    }
    Seqs.Rejoin(buf[..r + |s|], r);
  }

  lemma {:induction false} CopiedAt(s: seq<Byte>, i: nat)
    requires i < |s|
    ensures Copied(s)[i] == if 0 in s[..i + 1] then 0 else s[i]
  {
    if s[0] != 0 && i > 0 {
      CopiedAt(s[1..], i - 1);
      assert s[..i + 1] == [s[0]] + s[1..][..i];
    } else {
      assert s[..i + 1][0] == s[0];
    }
  }

  /**
   * The second pass: the buffer sized by the first one is filled up to r, which is its end exactly if the
   * text ends in LF.
   */
  method Fill(s: seq<Byte>, dots: bool) returns (buf: array<Byte>, r: nat)
    ensures fresh(buf) && r + |Unfinished(s)| == buf.Length
    ensures buf[..r] == Copies(s, dots)
  {
    var n := CountGrowth(s, dots);
    buf := new Byte[|s| + n];
    PassesAgree(s, dots);
    hide Unfinished, Growth, LineLen, Copies;
    r := FillLines(buf, s, dots);
  }

  method FillLines(buf: array<Byte>, s: seq<Byte>, dots: bool) returns (r: nat)
    requires |Copies(s, dots)| <= buf.Length
    modifies buf
    ensures r == |Copies(s, dots)| && buf[..r] == Copies(s, dots)
  {
    hide Copies;
    r := 0;
    var cur, next := 0, 0;
    assert s[0..] == s && s[0..0] == [] && buf[..0] == [];
    Seqs.Unit(Copies(s, dots));
    while next < |s|
      invariant cur <= next <= |s| && LF !in s[cur..next]
      invariant r <= buf.Length && buf[..r] + Copies(s[cur..], dots) == Copies(s, dots)
    {
      if s[next] == LF {
        r := FillLine(buf, r, s, cur, next, dots);
        cur := next + 1;
      } else {
        LongerLine(s, cur, next);
      }
      next := next + 1;
    }
    assert s[cur..next] == s[cur..];
    NoCopies(s, cur, dots);
    Seqs.Unit(buf[..r]);
  }

  lemma NoCopies(s: seq<Byte>, cur: nat, dots: bool)
    requires cur <= |s| && LF !in s[cur..]
    ensures Copies(s[cur..], dots) == []
  {
    assert LineLen(s[cur..]) == |s[cur..]|;
  }

  method FillLine(buf: array<Byte>, r: nat, s: seq<Byte>, cur: nat, next: nat, dots: bool) returns (r': nat)
    requires cur <= next < |s| && s[next] == LF && LF !in s[cur..next]
    requires r + |Copies(s[cur..], dots)| <= buf.Length
    modifies buf
    ensures r' <= buf.Length
    ensures buf[..r'] + Copies(s[next + 1..], dots) == old(buf[..r]) + Copies(s[cur..], dots)
  {
    CopiesStep(s, cur, next, dots);
    hide Copies, Copied, Dot;
    ghost var line, rest := Copied(s[cur..next]), Copies(s[next + 1..], dots);
    var newline := NewlineBuf(s, next, dots);
    assert |Copies(s[cur..], dots)| == |line| + |newline| + |rest|;
    r' := CopyBoth(buf, r, s[cur..next], newline);
    Seqs.Assoc(old(buf[..r]), line + newline, rest);
  }

  method CopyBoth(buf: array<Byte>, r: nat, a: seq<Byte>, b: seq<Byte>) returns (r': nat)
    requires r + |a| + |b| <= buf.Length && 0 !in b
    modifies buf
    ensures r' == r + |a| + |b| && buf[..r'] == old(buf[..r]) + (Copied(a) + b)
  {
    StrnCpy(buf, r, a);
    StrnCpy(buf, r + |a|, b);
    CopiedWithoutNul(b);
    r' := r + |a| + |b|;
    Seqs.Assoc(old(buf[..r]), Copied(a), b);
  }

  /** get_preppedhdrs_from_map: the header, filling its buffer exactly; NULL without an empty line. */
  method GetPreppedHdrs(m: seq<Byte>) returns (buf: array?<Byte>)
    ensures buf == null <==> !Preparable(m)
    ensures buf != null ==> fresh(buf) && buf[..] == Plain(m[..HeaderLen(m)])
  {
    var h := FindHeaderEnd(m);
    if h == 0 {
      return null;
    }
    CopiesArePlain(m[..h]);
    assert Terminated(m[..h]);
    hide Plain, Copies, HeaderLen, Terminated, Preparable;
    var r;
    buf, r := Fill(m[..h], false);
    assert buf[..r] == buf[..];
  }

  /** get_prepped_mailbody_from_map: what is behind `filled` is never written, and as long as an unfinished line. */
  method GetPreppedMailbody(m: seq<Byte>) returns (buf: array?<Byte>, ghost filled: nat)
    ensures buf == null <==> !Preparable(m)
    ensures buf != null ==>
              fresh(buf) && filled + |Unfinished(Body(m))| == buf.Length && buf[..filled] == Copies(Body(m), true)
  {
    var h := FindHeaderEnd(m);
    if h == 0 {
      return null, 0;
    }
    assert m[h..] == Body(m);
    hide Copies, HeaderLen, Body, Preparable;
    var r;
    buf, r := Fill(m[h..], true);
    filled := r;
  }

  /** What write_replyto writes; the bytes of "Reply-To: " in front. */
  function ReplyTo(replyaddr: seq<Byte>): seq<Byte> {
    [82, 101, 112, 108, 121, 45, 84, 111, 58, 32] + replyaddr
  }

  function ReplyLine(replyto: Option<seq<Byte>>): seq<Byte> {
    if replyto.Some? then ReplyTo(replyto.value) + CRLF else []
  }

  /** A Reply-To line in front of what is sent arrives as another header line. */
  lemma ReplyToArrives(replyaddr: seq<Byte>, wire: seq<Byte>, x: seq<Byte>)
    requires LF !in replyaddr
    ensures Arrives(ReplyLine(Some(replyaddr)) + wire, ReplyTo(replyaddr) + [LF] + x) <==> Arrives(wire, x)
  {
    hide Arrives;
    ArrivesPlain(ReplyTo(replyaddr), wire, x);
    Seqs.Assoc(ReplyTo(replyaddr), CRLF, wire);
  }

  /** The To: line; the bytes of "To: " in front. */
  function ToLine(to: seq<Byte>): seq<Byte> {
    [84, 111, 58, 32] + to
  }

  function ToHeader(to: Option<seq<Byte>>): Option<seq<Byte>> {
    if to.Some? then Some(ToLine(to.value) + CRLF) else None
  }

  /** The mail with what is added to it: Reply-To in front, a To: line at the end of its header, if it has one. */
  function Addressed(m: seq<Byte>, replyto: Option<seq<Byte>>, to: Option<seq<Byte>>): seq<Byte> {
    (if replyto.Some? then ReplyTo(replyto.value) + [LF] else [])
    + (if to.Some? && HeaderLen(m) > 0 then WithTo(m, ToLine(to.value)) else m)
  }

  /** Without an empty line there is no place for a To: line. */
  lemma {:induction false} NoPlaceForTo(m: seq<Byte>, to: seq<Byte>)
    requires HeaderLen(m) == 0
    ensures StuffedTo(m, to) == Stuffed(m)
    decreases |m|
  {
    if LineLen(m) < |m| {
      var n, rest := LineLen(m), m[LineLen(m) + 1..];
      NoHeaderBehind(m, n);
      NoPlaceForTo(rest, to);
      Unfolded(m);
      ToUnfolded(m, to);
      hide LineLen, Stuffed, StuffedTo;
      Seqs.Assoc(m[..n] + CRLF, Dot(rest), Stuffed(rest));
    }
  }

  lemma {:induction false} NoHeaderBehind(m: seq<Byte>, n: nat)
    requires HeaderLen(m) == 0 && n < |m| && m[n] == LF
    ensures HeaderLen(m[n + 1..]) == 0 && (n + 1 < |m| ==> m[n + 1] != LF)
    decreases n
  {
    if n > 0 {
      NoHeaderBehind(m[1..], n - 1);
      assert m[1..][n..] == m[n + 1..];
    } else if |m| > 1 {
      assert HeaderLen(m[1..]) == 0;
    }
  }

  /** The streamed mail, with what is added to it, arrives exactly if it ends in LF and does not begin with a dot. */
  lemma StreamedArrives(m: seq<Byte>, replyto: Option<seq<Byte>>, to: Option<seq<Byte>>)
    requires (replyto.Some? ==> LF !in replyto.value) && (to.Some? ==> LF !in to.value)
    ensures Arrives(ReplyLine(replyto) + (Streamed(m, ToHeader(to)) + END), Addressed(m, replyto, to) + [LF])
            <==> Terminated(m) && (m != [] ==> m[0] != DOT)
  {
    var x := if to.Some? && HeaderLen(m) > 0 then WithTo(m, ToLine(to.value)) else m;
    if to.None? {
      StreamDelivers(m);
    } else if HeaderLen(m) > 0 {
      ToLineIsLine(to.value);
      hide HeaderLen, WithTo, Terminated, Arrives, StuffedTo, ToLine;
      StreamWithTo(m, ToLine(to.value));
    } else {
      NoPlaceForTo(m, ToLine(to.value) + CRLF);
      StreamDelivers(m);
    }
    hide HeaderLen, WithTo, Terminated, Arrives, ReplyTo, ToLine, Streamed;
    BehindReply(replyto, Streamed(m, ToHeader(to)) + END, x);
  }

  lemma ToLineIsLine(to: seq<Byte>)
    requires LF !in to
    ensures LF !in ToLine(to) && ToLine(to) != [] && ToLine(to)[0] != DOT
  {
  }

  lemma BehindReply(replyto: Option<seq<Byte>>, wire: seq<Byte>, x: seq<Byte>)
    requires replyto.Some? ==> LF !in replyto.value
    ensures Arrives(ReplyLine(replyto) + wire,
                    (if replyto.Some? then ReplyTo(replyto.value) + [LF] else []) + x + [LF])
            <==> Arrives(wire, x + [LF])
  {
    hide Arrives, ReplyTo;
    if replyto.Some? {
      ReplyToArrives(replyto.value, wire, x + [LF]);
      Seqs.Assoc(ReplyTo(replyto.value) + [LF], x, [LF]);
    } else {
      Seqs.Unit(wire);
      Seqs.Unit(x);
    }
  }

  /** The mail from memory arrives on the conditions of PreparedDelivers, whatever is added to it. */
  lemma PreparedArrives(m: seq<Byte>, replyto: Option<seq<Byte>>, to: Option<seq<Byte>>, tail: seq<Byte>)
    requires (replyto.Some? ==> LF !in replyto.value) && (to.Some? ==> LF !in to.value)
    requires HeaderLen(m) > 0 && |tail| == |Unfinished(Body(m))|
    ensures Arrives(ReplyLine(replyto) + (Prepared(m, LineOf(ToHeader(to)), tail) + END),
                    Addressed(m, replyto, to) + [LF])
            <==> Deliverable(m) && tail == Unfinished(Body(m))
  {
    hide HeaderLen, WithTo, Arrives, ReplyTo, ToLine, Prepared, Body, Unfinished, Deliverable;
    var x := if to.Some? then WithTo(m, ToLine(to.value)) else m;
    if to.None? {
      PreparedDelivers(m, tail);
    } else {
      ToLineIsLine(to.value);
      PreparedWithTo(m, ToLine(to.value), tail);
    }
    BehindReply(replyto, Prepared(m, LineOf(ToHeader(to)), tail) + END, x);
  }

  /**
   * send_mail from DATA on: the Reply-To line, the mail from memory or from the map, and the dot. The tests that
   * the writes of the first and the last have succeeded never fail, so something of these may be missing.
   */
  method SendData(sock: Socket, m: seq<Byte>, replyto: Option<seq<Byte>>, tohdr: Option<seq<Byte>>,
                  prepmailinmem: bool, hdrs: array?<Byte>, body: array?<Byte>, ghost tail: seq<Byte>)
    returns (ok: bool, ghost reply: seq<Byte>, ghost end: seq<Byte>)
    requires prepmailinmem ==>
               && hdrs != null && hdrs[..] == Plain(m[..HeaderLen(m)])
               && body != null && body[..] == Copies(Body(m), true) + tail
    modifies sock
    ensures reply <= ReplyLine(replyto) && end <= END
    ensures ok ==>
              sock.sent == old(sock.sent)
                + (reply
                   + ((if prepmailinmem then Prepared(m, LineOf(tohdr), tail) else Streamed(m, tohdr)) + end))
    ensures sock.healthy ==> ok && reply == ReplyLine(replyto) && end == END
  {
    hide Plain, Copies, HeaderLen, Body, Streamed, Prepared;
    ghost var before := sock.sent;
    reply, end := [], [];
    if replyto.Some? {
      var _ := sock.Writen(ReplyTo(replyto.value) + CRLF);
      reply := sock.sent[|before|..];
    }
    assert sock.sent == before + reply;
    ok := SendPayload(sock, m, tohdr, prepmailinmem, hdrs, body, tail);
    if !ok { return; }
    ghost var payload := if prepmailinmem then Prepared(m, LineOf(tohdr), tail) else Streamed(m, tohdr);
    var _ := sock.Writen(END);
    end := sock.sent[|before + reply + payload|..];
    Seqs.Assoc(before, reply, payload + end);
    Seqs.Assoc(before + reply, payload, end);
  }

  method SendPayload(sock: Socket, m: seq<Byte>, tohdr: Option<seq<Byte>>, prepmailinmem: bool,
                     hdrs: array?<Byte>, body: array?<Byte>, ghost tail: seq<Byte>) returns (ok: bool)
    requires prepmailinmem ==>
               && hdrs != null && hdrs[..] == Plain(m[..HeaderLen(m)])
               && body != null && body[..] == Copies(Body(m), true) + tail
    modifies sock
    ensures ok ==>
              sock.sent == old(sock.sent)
                + if prepmailinmem then Prepared(m, LineOf(tohdr), tail) else Streamed(m, tohdr)
    ensures sock.healthy ==> ok
  {
    hide Plain, Copies, HeaderLen, Body, Streamed;
    ghost var before := sock.sent;
    if !prepmailinmem {
      ok := WriteMailbody(sock, m, tohdr);
      return;
    }
    ghost var to := LineOf(tohdr);
    Seqs.Assoc(before, hdrs[..], to);
    Seqs.Assoc(before, hdrs[..] + to, body[..]);
    ok := sock.Writen(hdrs[..]);
    if !ok { return; }
    Seqs.Unit(sock.sent);
    if tohdr.Some? {
      ok := sock.Writen(tohdr.value);
      if !ok { return; }
    }
    ok := sock.Writen(body[..]);
  }

  /**
   * A mail of either size: it is prepared in memory unless it is too long for that, and then sent. What has
   * never been written in the buffer of the body goes out with it. On a healthy connection the receiver gets the mail
   * with the lines added to it exactly on the conditions that its form has.
   */
  method SendMail(sock: Socket, m: seq<Byte>, replyto: Option<seq<Byte>>, to: Option<seq<Byte>>, memmailsize: nat)
    returns (ok: bool, ghost tail: seq<Byte>, ghost reply: seq<Byte>, ghost end: seq<Byte>)
    modifies sock
    ensures |tail| == |Unfinished(Body(m))| && reply <= ReplyLine(replyto) && end <= END
    ensures ok && |m| > memmailsize ==> sock.sent == old(sock.sent) + (reply + (Streamed(m, ToHeader(to)) + end))
    ensures ok && |m| <= memmailsize ==>
              Preparable(m) && sock.sent == old(sock.sent) + (reply + (Prepared(m, LineOf(ToHeader(to)), tail) + end))
    ensures sock.healthy ==> (ok <==> |m| > memmailsize || Preparable(m))
    ensures sock.healthy && ok && (replyto.Some? ==> LF !in replyto.value) && (to.Some? ==> LF !in to.value) ==>
              (Arrives(sock.sent[|old(sock.sent)|..], Addressed(m, replyto, to) + [LF]) <==>
                 if |m| > memmailsize then Terminated(m) && (m != [] ==> m[0] != DOT)
                 else Deliverable(m) && tail == Unfinished(Body(m)))
  {
    ghost var before := sock.sent;
    ok, tail, reply, end := SendForm(sock, m, replyto, ToHeader(to), memmailsize);
    hide Plain, Copies, HeaderLen, Body, Streamed, Unfinished, Prepared, Arrives, Deliverable, Terminated, Addressed;
    if sock.healthy && ok && (replyto.Some? ==> LF !in replyto.value) && (to.Some? ==> LF !in to.value) {
      if |m| > memmailsize {
        Appended(before, ReplyLine(replyto) + (Streamed(m, ToHeader(to)) + END));
        StreamedArrives(m, replyto, to);
      } else {
        Appended(before, ReplyLine(replyto) + (Prepared(m, LineOf(ToHeader(to)), tail) + END));
        PreparedArrives(m, replyto, to, tail);
      }
    }
  }

  lemma Appended<T>(a: seq<T>, b: seq<T>)
    ensures (a + b)[|a|..] == b
  {
  }

  method SendForm(sock: Socket, m: seq<Byte>, replyto: Option<seq<Byte>>, tohdr: Option<seq<Byte>>, memmailsize: nat)
    returns (ok: bool, ghost tail: seq<Byte>, ghost reply: seq<Byte>, ghost end: seq<Byte>)
    modifies sock
    ensures |tail| == |Unfinished(Body(m))| && reply <= ReplyLine(replyto) && end <= END
    ensures ok && |m| > memmailsize ==> sock.sent == old(sock.sent) + (reply + (Streamed(m, tohdr) + end))
    ensures ok && |m| <= memmailsize ==>
              Preparable(m) && sock.sent == old(sock.sent) + (reply + (Prepared(m, LineOf(tohdr), tail) + end))
    ensures sock.healthy ==>
              (ok <==> |m| > memmailsize || Preparable(m)) && (ok ==> reply == ReplyLine(replyto) && end == END)
  {
    hide Plain, Copies, HeaderLen, Body, Streamed, Unfinished, Prepared, Preparable, ReplyLine;
    tail, reply, end := Unfinished(Body(m)), [], [];
    if |m| > memmailsize {
      ok, reply, end := SendData(sock, m, replyto, tohdr, false, null, null, tail);
      return;
    }
    var hdrs := GetPreppedHdrs(m);
    if hdrs == null {
      ok := false;
      return;
    }
    var body, filled := GetPreppedMailbody(m);
    if body == null {
      ok := false;
      return;
    }
    tail := body[filled..];
    assert body[..] == body[..filled] + tail;
    ok, reply, end := SendData(sock, m, replyto, tohdr, true, hdrs, body, tail);
  }
}
