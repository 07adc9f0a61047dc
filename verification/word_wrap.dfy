/**
 * Word wrapping of list texts, get_processed_text_line in src/prepstdreply.c: one paragraph read line
 * by line from one source, wrapindent 0, plain ASCII words with single spaces between them.
 */
module WordWrap {
  import opened Wrappers
  import Seqs

  predicate IsBlank(c: char) {
    c == ' ' || c == '\t'
  }

  /** A character without a meaning of its own to the text processor. */
  predicate IsPlain(c: char) {
    !IsBlank(c) && c != '\r' && c != '\n' && c != '\\' && c != '$' && c != '%' && 0 as char < c < 128 as char
  }

  ghost predicate IsWord(w: string) {
    w != "" && forall i :: 0 <= i < |w| ==> IsPlain(w[i])
  }

  ghost predicate AreWords(ws: seq<string>) {
    forall i :: 0 <= i < |ws| ==> IsWord(ws[i])
  }

  /** Words with one space between each two. */
  function Join(ws: seq<string>): string {
    if ws == [] then ""
    else if |ws| == 1 then ws[0]
    else Join(ws[..|ws| - 1]) + " " + ws[|ws| - 1]
  }

  /** Where word j begins. */
  function Start(ws: seq<string>, j: nat): nat
    requires j <= |ws|
  {
    if j == 0 then 0 else |Join(ws[..j])| + 1
  }

  lemma JoinNext(ws: seq<string>, j: nat)
    requires j < |ws|
    ensures |Join(ws[..j + 1])| == Start(ws, j) + |ws[j]|
    ensures Join(ws[..j + 1]) == if j == 0 then ws[0] else Join(ws[..j]) + " " + ws[j]
  {
    assert ws[..j + 1][..j] == ws[..j];
  }

  lemma {:induction false} JoinSplit(a: seq<string>, b: seq<string>)
    requires a != [] && b != []
    ensures Join(a + b) == Join(a) + " " + Join(b)
    decreases |b|
  {
    var n := |b| - 1;
    Seqs.DropLast(a, b);
    if n == 0 {
      assert b[..0] == [] && a + b[..0] == a;
    } else {
      JoinSplit(a, b[..n]);
      assert (Join(a) + " " + Join(b[..n])) + " " + b[n] == Join(a) + " " + (Join(b[..n]) + " " + b[n]);
    }
  }

  /** The characters of word j, and what stands behind it. */
  lemma JoinAt(ws: seq<string>, j: nat, p: nat)
    requires AreWords(ws) && j < |ws|
    requires Start(ws, j) <= p <= Start(ws, j) + |ws[j]|
    requires p < |Join(ws)|
    ensures p < Start(ws, j) + |ws[j]| ==> Join(ws)[p] == ws[j][p - Start(ws, j)] && IsPlain(Join(ws)[p])
    ensures p == Start(ws, j) + |ws[j]| ==> j + 1 < |ws| && Join(ws)[p] == ' ' && p + 1 == Start(ws, j + 1)
  {
    JoinNext(ws, j);
    if j + 1 < |ws| {
      JoinSplit(ws[..j + 1], ws[j + 1..]);
      Seqs.Rejoin(ws, j + 1);
    } else {
      assert ws[..j + 1] == ws;
    }
    assert p < Start(ws, j) + |ws[j]| ==> Join(ws[..j + 1])[p] == ws[j][p - Start(ws, j)];
    assert IsWord(ws[j]);
  }

  lemma JoinEnd(ws: seq<string>, j: nat)
    requires AreWords(ws) && j < |ws|
    ensures Start(ws, j) + |ws[j]| <= |Join(ws)|
    ensures j + 1 < |ws| ==> Start(ws, j) + |ws[j]| < |Join(ws)|
    ensures j + 1 == |ws| ==> Start(ws, j) + |ws[j]| == |Join(ws)|
  {
    JoinNext(ws, j);
    if j + 1 < |ws| {
      JoinSplit(ws[..j + 1], ws[j + 1..]);
      Seqs.Rejoin(ws, j + 1);
    } else {
      assert ws[..j + 1] == ws;
    }
  }

  /** Cutting in front of word j. */
  lemma JoinCut(ws: seq<string>, j: nat)
    requires j < |ws|
    ensures Start(ws, j) <= |Join(ws)|
    ensures Join(ws)[Start(ws, j)..] == Join(ws[j..])
    ensures j > 0 ==> Join(ws)[..Start(ws, j) - 1] == Join(ws[..j]) && Join(ws)[Start(ws, j) - 1] == ' '
  {
    if j > 0 {
      var a, b := ws[..j], ws[j..];
      JoinSplit(a, b);
      Seqs.Rejoin(ws, j);
      hide Join;
      assert Join(ws) == Join(a) + " " + Join(b);
    } else {
      assert ws[0..] == ws;
    }
  }

  // ---------------------------------------------------------------- the specification

  /** The width of the first n words on one line. */
  function Width(ws: seq<string>, n: nat): nat
    requires n <= |ws|
  {
    |Join(ws[..n])|
  }

  /** How many words go on a line: as many as keep it shorter than the width, but one at least. */
  function Fit(ws: seq<string>, width: nat, k: nat): (n: nat)
    requires 1 <= k <= |ws|
    ensures k <= n <= |ws|
    decreases |ws| - k
  {
    if k == |ws| || Width(ws, k + 1) >= width then k else Fit(ws, width, k + 1)
  }

  function Wrapped(ws: seq<string>, width: nat): seq<string>
    decreases |ws|
  {
    if ws == [] then []
    else
      var k := Fit(ws, width, 1);
      [Join(ws[..k])] + Wrapped(ws[k..], width)
  }

  /** Fit stops at the first place it can. */
  lemma {:induction false} FitStops(ws: seq<string>, width: nat, k: nat, n: nat)
    requires 1 <= k <= n <= |ws|
    requires forall i :: k < i <= n ==> Width(ws, i) < width
    requires n == |ws| || Width(ws, n + 1) >= width
    ensures Fit(ws, width, k) == n
    decreases n - k
  {
    if k < n {
      FitStops(ws, width, k + 1, n);
    }
  }

  /** A line of more than one word is shorter than the width. */
  lemma {:induction false} FitShort(ws: seq<string>, width: nat, k: nat)
    requires 1 <= k <= |ws|
    requires k == 1 || Width(ws, k) < width
    ensures var n := Fit(ws, width, k); n == 1 || Width(ws, n) < width
    decreases |ws| - k
  {
    if k < |ws| && Width(ws, k + 1) < width {
      FitShort(ws, width, k + 1);
    }
  }

  /** The next word would make the line too wide. */
  lemma {:induction false} FitFull(ws: seq<string>, width: nat, k: nat)
    requires 1 <= k <= |ws|
    ensures var n := Fit(ws, width, k); n < |ws| ==> Width(ws, n + 1) >= width
    decreases |ws| - k
  {
    if k < |ws| && Width(ws, k + 1) < width {
      FitFull(ws, width, k + 1);
    }
  }

  /** The words of the wrapped lines. */
  function Groups(ws: seq<string>, width: nat): seq<seq<string>>
    decreases |ws|
  {
    if ws == [] then []
    else
      var k := Fit(ws, width, 1);
      [ws[..k]] + Groups(ws[k..], width)
  }

  function Concat(groups: seq<seq<string>>): seq<string> {
    if groups == [] then [] else groups[0] + Concat(groups[1..])
  }

  /**
   * Wrapping keeps the word sequence: the lines are the words in order, cut into groups, and every
   * line is shorter than the width unless it is a single word, but with the next word it would not be.
   */
  lemma {:induction false} WrappedKeepsWords(ws: seq<string>, width: nat)
    ensures var g := Groups(ws, width);
            && Concat(g) == ws
            && |Wrapped(ws, width)| == |g|
            && forall i :: 0 <= i < |g| ==> LineOfGroup(g, i, Wrapped(ws, width)[i], width)
    decreases |ws|
  {
    if ws != [] {
      var k := Fit(ws, width, 1);
      var g, rest := Groups(ws, width), Groups(ws[k..], width);
      var lines, more := Wrapped(ws, width), Wrapped(ws[k..], width);
      assert g == [ws[..k]] + rest && lines == [Join(ws[..k])] + more;
      FirstWord(ws[k..], width);
      WrappedKeepsWords(ws[k..], width);
      Seqs.Rejoin(ws, k);
      assert g[1..] == rest;
      hide Wrapped, Groups, Concat, Join, Fit, LineOfGroup;
      FirstGroup(ws, width, g);
      forall i | 0 < i < |g| ensures LineOfGroup(g, i, lines[i], width) {
        LaterGroup(g, rest, i, more[i - 1], width);
      }
    }
  }

  /** A line of words, shorter than the width unless it is a single one, and too short for the next. */
  predicate LineOfGroup(g: seq<seq<string>>, i: nat, line: string, width: nat)
    requires i < |g|
  {
    && g[i] != [] && line == Join(g[i]) && (|g[i]| == 1 || |line| < width)
    && (i + 1 < |g| ==> g[i + 1] != [] && |line| + 1 + |g[i + 1][0]| >= width)
  }

  lemma LaterGroup(g: seq<seq<string>>, rest: seq<seq<string>>, i: nat, line: string, width: nat)
    requires 0 < i < |g| && g[1..] == rest && LineOfGroup(rest, i - 1, line, width)
    ensures LineOfGroup(g, i, line, width)
  {
    assert rest[i - 1] == g[i] && (i < |rest| ==> rest[i] == g[i + 1]);
    hide Join;
  }

  lemma FirstWord(ws: seq<string>, width: nat)
    ensures ws != [] ==> Groups(ws, width) != [] && Groups(ws, width)[0] != [] && Groups(ws, width)[0][0] == ws[0]
  {
    hide Fit;
  }

  lemma FirstGroup(ws: seq<string>, width: nat, g: seq<seq<string>>)
    requires ws != [] && g != [] && g[0] == ws[..Fit(ws, width, 1)]
    requires |g| > 1 ==> Fit(ws, width, 1) < |ws| && g[1] != [] && g[1][0] == ws[Fit(ws, width, 1)]
    ensures LineOfGroup(g, 0, Join(ws[..Fit(ws, width, 1)]), width)
  {
    var k := Fit(ws, width, 1);
    FitShort(ws, width, 1);
    FitFull(ws, width, 1);
    hide Fit, Join;
    if k < |ws| { JoinNext(ws, k); }
  }

  // ---------------------------------------------------------------- the program

  /** A source line holding these words, with or without its newline. */
  ghost predicate IsLine(s: string, ws: seq<string>) {
    ws != [] && AreWords(ws) && (s == Join(ws) || s == Join(ws) + "\n")
  }

  /** A line that ends a paragraph. */
  predicate IsWhite(s: string) {
    s == "" || s[0] == '\r' || s[0] == '\n' || (IsBlank(s[0]) && IsWhite(s[1..]))
  }

  class WrapText {
    var wrapwidth: nat
    var open: bool                  // txt->src is not NULL
    var lines: seq<string>          // what the source still has
    var upcoming: Option<string>
    var processedlen: nat
    var processedwidth: nat
    ghost var ready: seq<string>          // the words of upcoming
    ghost var rest: seq<seq<string>>      // the words of the following lines of the paragraph

    /** In a paragraph, between two calls. */
    ghost predicate Valid()
      reads this
    {
      && wrapwidth > 0
      && |rest| <= |lines|
      && (forall i :: 0 <= i < |rest| ==> IsLine(lines[i], rest[i]))
      && (|rest| < |lines| ==> IsWhite(lines[|rest|]))
      && (upcoming.None? ==> ready == [])
      && (upcoming.Some? ==> IsLine(upcoming.value, ready) && processedlen == processedwidth <= |ready[0]|)
      && (!open ==> lines == [] && upcoming.None?)
    }

    ghost function Remaining(): seq<string>
      reads this
    {
      ready + Concat(rest)
    }

    /** The paragraph is over: at the end of the source, or at a white line, which is kept for later. */
    ghost predicate Over()
      reads this
    {
      (!open && upcoming.None?) || (wrapwidth == 0 && upcoming.Some? && IsWhite(upcoming.value))
    }

    constructor (lines: seq<string>, width: nat, ghost paragraph: seq<seq<string>>)
      requires width > 0
      requires |paragraph| <= |lines| && forall i :: 0 <= i < |paragraph| ==> IsLine(lines[i], paragraph[i])
      requires |paragraph| < |lines| ==> IsWhite(lines[|paragraph|])
      ensures Valid() && Remaining() == Concat(paragraph) && wrapwidth == width
    {
      this.lines, wrapwidth, open, upcoming := lines, width, true, None;
      processedlen, processedwidth := 0, 0;
      ready, rest := [], paragraph;
      Seqs.Unit(Concat(paragraph));
    }

    /** The inner loop of get_processed_text_line: have a line in `upcoming`, unless the source ends. */
    method Refill()
      requires Valid()
      modifies this`open, this`lines, this`upcoming, this`processedlen, this`processedwidth, this`ready, this`rest
      ensures old(Remaining()) != [] ==> Valid() && upcoming.Some? && Remaining() == old(Remaining())
      ensures old(Remaining()) == [] ==>
                if upcoming.None? then !open else IsWhite(upcoming.value)
    {
      ghost var words := Remaining();
      NoWords(rest, lines);
      assert Fetching(words);
      while open && upcoming.None?
        invariant Fetching(words)
        decreases open, upcoming.None?
      {
        hide Fetching;
        if lines == [] {
          CloseSource(words);
        } else {
          NextLine(words);
        }
      }
    }

    /** Between reading lines: there are still these words to come, or there are none and a white line may follow. */
    ghost predicate Fetching(words: seq<string>)
      reads this
    {
      && (words != [] ==> Valid() && Remaining() == words)
      && (words == [] ==>
            if upcoming.Some? then IsWhite(upcoming.value)
            else rest == [] && (lines != [] ==> open && IsWhite(lines[0])))
    }

    method CloseSource(ghost words: seq<string>)
      requires Fetching(words) && lines == [] && upcoming.None?
      modifies this`open
      ensures Fetching(words) && !open && upcoming.None?
    {
      open := false;
    }

    method NextLine(ghost words: seq<string>)
      requires Fetching(words) && open && lines != [] && upcoming.None?
      modifies this`lines, this`upcoming, this`processedlen, this`processedwidth, this`ready, this`rest
      ensures Fetching(words) && upcoming.Some?
    {
      upcoming, lines := Some(lines[0]), lines[1..];
      processedlen, processedwidth := 0, 0;
      if |rest| > 0 {
        ready, rest := rest[0], rest[1..];
      }
    }

    /** A line of the paragraph has come out. */
    ghost predicate LineOut(all: seq<string>, width: nat, result: string)
      reads this
      requires all != []
    {
      var k := Fit(all, width, 1);
      && result == Join(all[..k])
      && (k < |all| ==> Valid() && Remaining() == all[k..] && wrapwidth == width)
      && (k == |all| ==> Over())
    }

    /** The text so far is whole lines, and nothing in it calls for a break. */
    ghost predicate Collecting(all: seq<string>, width: nat, prev: string, begun: bool, us: seq<string>)
      reads this
    {
      && Valid() && wrapwidth == width
      && all == us + Remaining()
      && (begun <==> us != [])
      && (begun ==> AreWords(us) && prev == Join(us) && Unbroken(us, |us|, width) && ready == [])
    }

    /**
     * get_processed_text_line on a paragraph: the next line is as many of the remaining words as fit,
     * and the paragraph is over exactly when no words remain.
     */
    method GetLine() returns (result: string)
      requires Valid() && Remaining() != []
      modifies this
      ensures LineOut(old(Remaining()), old(wrapwidth), result)
    {
      ghost var all, us := Remaining(), [];
      var begun, done := false, false;
      result := "";
      Seqs.Unit(all);
      while !done
        invariant !done ==> Collecting(all, old(wrapwidth), result, begun, us)
        invariant done ==> LineOut(all, old(wrapwidth), result)
        decreases !done, |Remaining()|
      {
        done, result, us := Round(result, begun, us, all);
        begun := true;
      }
    }

    /** One round of the outer loop: take up the next source line, then break the text or go on collecting. */
    method Round(prev: string, begun: bool, ghost us: seq<string>, ghost all: seq<string>)
      returns (done: bool, result: string, ghost us': seq<string>)
      requires all != [] && Collecting(all, wrapwidth, prev, begun, us)
      modifies this
      ensures done ==> LineOut(all, old(wrapwidth), result)
      ensures !done ==> Collecting(all, old(wrapwidth), result, true, us') && |Remaining()| < |old(Remaining())|
    {
      hide Join, Concat, IsLine, Fit, AreWords;
      us' := us;
      Seqs.Unit(us);
      Refill();
      if upcoming.None? {
        FitWhole(us, old(wrapwidth));
        return true, prev, us;
      }
      if begun {
        WhiteIsNoLine(upcoming.value, ready);
        var white, line := EndAtWhite(prev, us);
        if white {
          FitWhole(us, old(wrapwidth));
          return true, line, us;
        }
      }
      done, result, us' := WrapOrCollect(prev, begun, us, all);
    }

    method WrapOrCollect(prev: string, begun: bool, ghost us: seq<string>, ghost all: seq<string>)
      returns (done: bool, result: string, ghost us': seq<string>)
      requires all != [] && Valid() && upcoming.Some? && all == us + Remaining()
      requires begun <==> us != []
      requires begun ==> AreWords(us) && prev == Join(us)
      requires Unbroken(us, |us|, wrapwidth)
      modifies this
      ensures done ==> LineOut(all, old(wrapwidth), result)
      ensures !done ==> Collecting(all, old(wrapwidth), result, true, us') && |Remaining()| < |old(Remaining())|
    {
      hide Concat, Fit, AreWords, Start, Width;
      ghost var vs, more := us + ready, Concat(rest);
      Seqs.Assoc(us, ready, more);
      var line, len, linebreak := TakeUpcoming(prev, begun, us);
      hide Join, Concat, IsLine, Fit, AreWords;
      UnbrokenPrefix(us, vs, wrapwidth);
      ghost var j;
      len, linebreak, j := Scan(line, wrapwidth, len, linebreak, vs, |us|);
      if len < wrapwidth || linebreak <= 0 || linebreak >= len {
        LineKept(vs, j, len, linebreak, line, wrapwidth);
        Seqs.Unit(more);
        done, result, us' := false, line[..len], vs;
      } else {
        LineBroken(vs, j, len, linebreak, line, wrapwidth, all);
        Seqs.DropFront(vs, more, j);
        hide Unbroken, InWord;
        done, result, us' := true, line[..linebreak - 1], us;
        PutBack(line, len, linebreak, vs, j);
      }
    }

    /** At a white line the text so far is finished, the white line kept and wrapping switched off. */
    method EndAtWhite(prev: string, ghost us: seq<string>) returns (done: bool, line: string)
      requires upcoming.Some? && wrapwidth > 0
      requires us != [] && AreWords(us) && prev == Join(us)
      modifies this`wrapwidth, this`processedlen, this`processedwidth
      ensures line == prev
      ensures done == IsWhite(upcoming.value)
      ensures done ==> Over()
      ensures !done ==> unchanged(this)
    {
      JoinLast(us);
      var len := TrimEnd(prev);
      line := prev[..len];
      var at := SkipBlanks(upcoming.value);
      WhiteFrom(upcoming.value, at);
      done := at == |upcoming.value| || upcoming.value[at] == '\r' || upcoming.value[at] == '\n';
      if done {
        wrapwidth := 0;
        processedlen, processedwidth := 0, 0;
      }
    }

    /** The line to process: what is upcoming, behind the line so far if there is one. */
    method TakeUpcoming(prev: string, begun: bool, ghost us: seq<string>)
      returns (line: string, len: nat, linebreak: nat)
      requires Valid() && upcoming.Some?
      requires begun <==> us != []
      requires begun ==> AreWords(us) && prev == Join(us)
      modifies this`upcoming, this`ready
      ensures Valid() && upcoming.None?
      ensures IsLine(line, us + old(ready)) && InWord(us + old(ready), |us|, len, linebreak)
      ensures (us + old(ready))[..|us|] == us
    {
      line := upcoming.value;
      if begun {
        var at := SkipBlanks(line);
        JoinFirst(ready);
        assert line[0] == Join(ready)[0];
        assert line[at..] == line;
        line, len := Append(prev, line[at..]);
        linebreak := len;
        JoinSplit(us, ready);
      } else {
        Seqs.Unit(ready);
        len, linebreak := processedlen, 0;
      }
      upcoming, ready := None, [];
    }

    /** What is left of a broken line comes up next, as far as it is processed. */
    method PutBack(line: string, len: nat, linebreak: nat, ghost vs: seq<string>, ghost j: nat)
      requires Valid() && upcoming.None? && open
      requires IsLine(line, vs) && InWord(vs, j, len, linebreak) && len <= |Join(vs)|
      modifies this`upcoming, this`processedlen, this`processedwidth, this`ready
      ensures Valid() && ready == vs[j..]
    {
      // a newline that ended the loop has been replaced by the end of the string
      var end := if len < |line| && line[len] == '\n' then len else |line|;
      RestOfLine(line, vs, j, len, end);
      hide IsLine;
      upcoming := Some(line[linebreak..end]);
      processedlen, processedwidth := len - linebreak, len - linebreak;
      ready := vs[j..];
    }

    /** A paragraph without words has no lines. */
    static lemma NoWords(rest: seq<seq<string>>, lines: seq<string>)
      requires |rest| <= |lines| && forall i :: 0 <= i < |rest| ==> IsLine(lines[i], rest[i])
      ensures rest == [] <==> Concat(rest) == []
    {
      if rest != [] {
        assert IsLine(lines[0], rest[0]);
      }
    }
  }

  lemma FirstLine(lines: seq<string>, paragraph: seq<seq<string>>)
    requires |paragraph| <= |lines| && forall i :: 0 <= i < |paragraph| ==> IsLine(lines[i], paragraph[i])
    requires |paragraph| < |lines| ==> IsWhite(lines[|paragraph|])
    ensures (|lines| > 0 && !IsWhite(lines[0])) <==> Concat(paragraph) != []
  {
    WrapText.NoWords(paragraph, lines);
    if paragraph != [] {
      WhiteIsNoLine(lines[0], paragraph[0]);
    }
  }

  /** A whole paragraph over as many calls as it takes: the lines are the greedy wrapping of its words. */
  method WrapParagraph(lines: seq<string>, width: nat, ghost paragraph: seq<seq<string>>) returns (out: seq<string>)
    requires width > 0
    requires |paragraph| <= |lines| && forall i :: 0 <= i < |paragraph| ==> IsLine(lines[i], paragraph[i])
    requires |paragraph| < |lines| ==> IsWhite(lines[|paragraph|])
    ensures out == Wrapped(Concat(paragraph), width)
  {
    var text := new WrapText(lines, width, paragraph);
    out := [];
    ghost var words := Concat(paragraph);
    var more := |lines| > 0 && !IsWhite(lines[0]);
    FirstLine(lines, paragraph);
    Seqs.Unit(Wrapped(words, width));
    while more
      invariant more ==> words != [] && text.Valid() && text.Remaining() == words && text.wrapwidth == width
      invariant !more ==> words == []
      invariant out + Wrapped(words, width) == Wrapped(Concat(paragraph), width)
      decreases more, |words|
    {
      hide Fit, Concat;
      var line := text.GetLine();
      ghost var k := Fit(words, width, 1);
      Seqs.Assoc(out, [line], Wrapped(words[k..], width));
      out := out + [line];
      words := words[k..];
      more := text.open && text.wrapwidth > 0;
    }
    Seqs.Unit(out);
  }

  /** Trailing blanks of the line so far do not count. */
  method TrimEnd(s: string) returns (len: nat)
    ensures len <= |s|
    ensures forall i :: len <= i < |s| ==> IsBlank(s[i])
    ensures len > 0 ==> !IsBlank(s[len - 1])
  {
    len := |s|;
    while len > 0 && IsBlank(s[len - 1])
      invariant len <= |s|
      invariant forall i :: len <= i < |s| ==> IsBlank(s[i])
    {
      len := len - 1;
    }
  }

  method SkipBlanks(s: string) returns (at: nat)
    ensures at <= |s|
    ensures forall i :: 0 <= i < at ==> IsBlank(s[i])
    ensures at < |s| ==> !IsBlank(s[at])
  {
    at := 0;
    while at < |s| && IsBlank(s[at])
      invariant at <= |s|
      invariant forall i :: 0 <= i < at ==> IsBlank(s[i])
    {
      at := at + 1;
    }
  }

  /** Putting the next line behind the line so far, which begins at its wrap indent of 0. */
  method Append(prev: string, more: string) returns (line: string, len: nat)
    ensures line == if prev == "" then more else prev + " " + more
    ensures len == if prev == "" then 0 else |prev| + 1
  {
    len := |prev|;
    if prev == "" {
      line := more;
    } else if len > 0 {
      line := prev + " " + more;
      len := len + 1;
    } else {
      line := prev + more;
    }
  }

  /** No earlier place to break: every shorter line of two words or more is below the width. */
  ghost predicate Unbroken(ws: seq<string>, n: nat, width: nat)
    requires n <= |ws|
  {
    forall i :: 1 < i <= n ==> Width(ws, i) < width
  }

  /** A position in word j of a line, the last break opportunity being where that word begins. */
  ghost predicate InWord(vs: seq<string>, j: nat, p: nat, linebreak: nat) {
    j < |vs| && linebreak == Start(vs, j) <= p <= linebreak + |vs[j]|
  }

  /**
   * The character loop: go on from `from` until the line ends or is wide enough to be broken at the
   * last opportunity.
   */
  method Scan(line: string, wrapwidth: nat, from: nat, linebreak0: nat, ghost vs: seq<string>, ghost j0: nat)
    returns (len: nat, linebreak: nat, ghost j: nat)
    requires IsLine(line, vs) && InWord(vs, j0, from, linebreak0) && Unbroken(vs, j0, wrapwidth)
    ensures InWord(vs, j, len, linebreak) && Unbroken(vs, j, wrapwidth)
    ensures len <= |Join(vs)|
    ensures len == |Join(vs)| || (len >= wrapwidth && 0 < linebreak < len)
  {
    hide Join, Start, AreWords, Unbroken, Width;
    len, linebreak, j := from, linebreak0, j0;
    JoinEnd(vs, j);
    while len < |line|
      invariant InWord(vs, j, len, linebreak) && Unbroken(vs, j, wrapwidth)
      invariant len <= |Join(vs)|
    {
      hide IsLine;
      if len >= wrapwidth && linebreak > 0 && linebreak < len { return; }
      CharAt(line, vs, j, len);
      if line[len] == '\n' { return; }
      if line[len] == ' ' {
        linebreak := len + 1;
        OneMoreWord(vs, j, len, wrapwidth);
        j := j + 1;
      }
      len := len + 1;
      JoinEnd(vs, j);
    }
  }

  /** The character at a position in word j, and what it says about the position. */
  lemma CharAt(line: string, vs: seq<string>, j: nat, len: nat)
    requires IsLine(line, vs) && j < |vs| && Start(vs, j) <= len <= Start(vs, j) + |vs[j]|
    requires len <= |Join(vs)| && len < |line|
    ensures AreWords(vs)
    ensures line[len] == '\n' <==> len == |Join(vs)|
    ensures line[len] == ' ' ==>
              len == Start(vs, j) + |vs[j]| < |Join(vs)| && j + 1 < |vs| && len + 1 == Start(vs, j + 1)
    ensures line[len] != ' ' && line[len] != '\n' ==> len < Start(vs, j) + |vs[j]|
  {
    if len < |Join(vs)| {
      JoinAt(vs, j, len);
      hide Join, Start, AreWords;
      assert line[len] == Join(vs)[len];
    }
  }

  /** A word that ends below the width leaves the line unbroken. */
  lemma OneMoreWord(vs: seq<string>, j: nat, len: nat, width: nat)
    requires AreWords(vs) && j < |vs| && len == Start(vs, j) + |vs[j]| && Unbroken(vs, j, width)
    requires len < width || Start(vs, j) == 0 || Start(vs, j) >= len
    ensures Unbroken(vs, j + 1, width)
  {
    assert IsWord(vs[j]);
    JoinNext(vs, j);
  }

  // ---------------------------------------------------------------- lemmas for the loop

  lemma JoinLast(ws: seq<string>)
    requires ws != [] && AreWords(ws)
    ensures Join(ws) != "" && !IsBlank(Join(ws)[|Join(ws)| - 1])
  {
    assert IsWord(ws[|ws| - 1]);
  }

  lemma {:induction false} JoinFirst(ws: seq<string>)
    requires ws != [] && AreWords(ws)
    ensures Join(ws) != "" && IsPlain(Join(ws)[0])
    decreases |ws|
  {
    assert IsWord(ws[0]);
    if |ws| > 1 {
      JoinFirst(ws[..|ws| - 1]);
    }
  }

  lemma {:induction false} WhiteFrom(s: string, at: nat)
    requires at <= |s| && forall i :: 0 <= i < at ==> IsBlank(s[i])
    requires at < |s| ==> !IsBlank(s[at])
    ensures IsWhite(s) <==> at == |s| || s[at] == '\r' || s[at] == '\n'
    decreases at
  {
    if at > 0 {
      WhiteFrom(s[1..], at - 1);
    }
  }

  lemma WhiteIsNoLine(s: string, ws: seq<string>)
    ensures !(IsLine(s, ws) && IsWhite(s))
  {
    if IsLine(s, ws) {
      JoinFirst(ws);
      assert s[0] == Join(ws)[0];
    }
  }

  lemma UnbrokenPrefix(us: seq<string>, vs: seq<string>, width: nat)
    requires us <= vs && Unbroken(us, |us|, width)
    ensures Unbroken(vs, |us|, width)
  {
    forall i | 1 < i <= |us| ensures Width(vs, i) < width {
      assert vs[..i] == us[..i];
      assert Width(us, i) < width;
    }
  }

  lemma FitWhole(ws: seq<string>, width: nat)
    requires ws != [] && Unbroken(ws, |ws|, width)
    ensures Fit(ws, width, 1) == |ws|
    ensures ws[..|ws|] == ws
  {
    FitStops(ws, width, 1, |ws|);
  }

  /** The line ended below the width, or is one word: all of it is kept for joining. */
  lemma LineKept(vs: seq<string>, j: nat, len: nat, linebreak: nat, line: string, width: nat)
    requires IsLine(line, vs) && InWord(vs, j, len, linebreak) && Unbroken(vs, j, width)
    requires len == |Join(vs)| && (len < width || linebreak <= 0 || linebreak >= len)
    ensures line[..len] == Join(vs) && IsLine(line[..len], vs) && Unbroken(vs, |vs|, width)
  {
    hide Join;
    JoinEnd(vs, j);
    assert j + 1 == |vs|;
    assert vs[..|vs|] == vs;
    assert IsWord(vs[j]);
  }

  /** What stands from word j on is again a line. */
  lemma RestOfLine(line: string, vs: seq<string>, j: nat, len: nat, end: nat)
    requires j < |vs| && IsLine(line, vs) && InWord(vs, j, len, Start(vs, j)) && len <= |Join(vs)|
    requires end == if len < |line| && line[len] == '\n' then len else |line|
    ensures Start(vs, j) <= end && IsLine(line[Start(vs, j)..end], vs[j..])
  {
    JoinCut(vs, j);
    if len < |Join(vs)| {
      JoinAt(vs, j, len);
      assert line[len] == Join(vs)[len];
    }
    var lb, joined := Start(vs, j), Join(vs);
    assert AreWords(vs[j..]);
    hide Join, Start, AreWords, InWord;
    if end < |line| || line == joined {
      assert line[..end] == joined;
      Seqs.Slice(line, lb, end);
    } else {
      Seqs.DropFront(joined, "\n", lb);
      assert line[lb..end] == line[lb..];
    }
  }

  /** The line is broken in front of word j: exactly there the greedy rule breaks it. */
  lemma LineBroken(vs: seq<string>, j: nat, len: nat, linebreak: nat, line: string, width: nat, all: seq<string>)
    requires IsLine(line, vs) && InWord(vs, j, len, linebreak) && Unbroken(vs, j, width)
    requires len >= width && 0 < linebreak < len
    requires vs <= all
    ensures Fit(all, width, 1) == j < |all|
    ensures linebreak <= |line| && line[..linebreak - 1] == Join(all[..j])
  {
    JoinCut(vs, j);
    JoinNext(vs, j);
    assert line[..linebreak - 1] == Join(vs)[..linebreak - 1];
    hide Join, IsLine;
    forall i | 0 <= i <= |vs| ensures Width(all, i) == Width(vs, i) {
      assert all[..i] == vs[..i];
    }
    assert all[..j] == vs[..j];
    FitStops(all, width, 1, j);
  }
}
