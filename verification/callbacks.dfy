/** Where the callbacks of foot_filter make fill(), look() and empty() stop, told by the text alone. */
module Callbacks {
  import opened Bytes
  import opened Fifo
  import Seqs

  /** The callbacks that decide by the characters they are given. */
  predicate Scanning(kind: Kind) {
    kind in {OneChar, NChars, NCharsUntilMatch, UntilEol, CountingUntilEol, UntilMatch}
  }

  const NO_BUFFER := Buffer([], 0, 0, false, 0)

  lemma AnyBuffer(b: Buffer, w: Watch, kind: Kind, c: Code)
    requires Scanning(kind)
    ensures Ask(b, w, kind, c) == Ask(NO_BUFFER, w, kind, c)
  {
  }

  /** Given the characters of x one by one, the callback asks for more until the last of them. */
  ghost predicate Runs(w: Watch, kind: Kind, x: seq<Byte>, w': Watch)
    decreases |x|
  {
    x != [] &&
    var (next, more) := Ask(NO_BUFFER, w, kind, x[0]);
    if |x| == 1 then !more && next == w' else more && Runs(next, kind, x[1..], w')
  }

  /** It asks for more at each of them. */
  ghost predicate GoesOn(w: Watch, kind: Kind, x: seq<Byte>, w': Watch)
    decreases |x|
  {
    if x == [] then w == w'
    else
      var (next, more) := Ask(NO_BUFFER, w, kind, x[0]);
      more && GoesOn(next, kind, x[1..], w')
  }

  // ---------------------------------------------------------------- what the text says

  /** A line end is behind the n-th character. */
  predicate LineEndsAt(x: seq<Byte>, n: nat) {
    2 <= n <= |x| && x[n - 2] == CR && x[n - 1] == LF
  }

  /** The text is one line, with the CRLF that ends it. */
  ghost predicate IsLine(x: seq<Byte>) {
    LineEndsAt(x, |x|) && forall n :: 0 <= n < |x| ==> !LineEndsAt(x, n)
  }

  lemma LineRuns(w: Watch, x: seq<Byte>)
    requires IsLine(x) && !w.flag
    ensures Runs(w, UntilEol, x, w.(flag := true))
    ensures Runs(w, CountingUntilEol, x, w.(flag := true, count := w.count + |x|))
  {
    forall i | 0 <= i < |x| - 1 ensures !EndsLine(w.flag, x, i) {
      assert !LineEndsAt(x, i + 1);
    }
    LineRunsFrom(w, x);
  }

  /** The i-th character ends a line, if `cr` stands for a CR in front of x. */
  predicate EndsLine(cr: bool, x: seq<Byte>, i: nat)
    requires i < |x|
  {
    x[i] == LF && if i == 0 then cr else x[i - 1] == CR
  }

  lemma {:induction false} LineRunsFrom(w: Watch, x: seq<Byte>)
    requires x != [] && EndsLine(w.flag, x, |x| - 1) && forall i :: 0 <= i < |x| - 1 ==> !EndsLine(w.flag, x, i)
    ensures Runs(w, UntilEol, x, w.(flag := true))
    ensures Runs(w, CountingUntilEol, x, w.(flag := true, count := w.count + |x|))
    decreases |x|
  {
    if |x| > 1 {
      var rest, next := x[1..], w.(flag := x[0] == CR);
      assert forall i :: 0 <= i < |rest| ==> EndsLine(next.flag, rest, i) == EndsLine(w.flag, x, i + 1);
      assert !EndsLine(w.flag, x, 0);
      LineRunsFrom(next, rest);
      LineRunsFrom(next.(count := w.count + 1), rest);
    }
  }

  /** Without a line end it goes on. */
  lemma {:induction false} NoLineGoesOn(w: Watch, x: seq<Byte>)
    requires forall i :: 0 <= i < |x| ==> !EndsLine(w.flag, x, i)
    ensures GoesOn(w, UntilEol, x, w.(flag := if x == [] then w.flag else x[|x| - 1] == CR))
    ensures GoesOn(w, CountingUntilEol, x,
                   w.(flag := if x == [] then w.flag else x[|x| - 1] == CR, count := w.count + |x|))
    decreases |x|
  {
    if x != [] {
      var rest, next := x[1..], w.(flag := x[0] == CR);
      assert forall i :: 0 <= i < |rest| ==> EndsLine(next.flag, rest, i) == EndsLine(w.flag, x, i + 1);
      assert !EndsLine(w.flag, x, 0);
      NoLineGoesOn(next, rest);
      NoLineGoesOn(next.(count := w.count + 1), rest);
    }
  }

  lemma {:induction false} MatchRuns(w: Watch, x: seq<Byte>)
    requires x != [] && x[|x| - 1] == w.target && forall i :: 0 <= i < |x| - 1 ==> x[i] != w.target
    ensures Runs(w, UntilMatch, x, w)
  {
    if |x| > 1 {
      MatchRuns(w, x[1..]);
    }
  }

  lemma {:induction false} CountRuns(w: Watch, x: seq<Byte>)
    requires |x| == (if w.count > 1 then w.count else 1)
    ensures Runs(w, NChars, x, w.(count := w.count - |x|))
    decreases |x|
  {
    if |x| > 1 {
      CountRuns(w.(count := w.count - 1), x[1..]);
    }
  }

  /** So many characters, or up to the one looked for if that comes earlier; the flag says if it has come. */
  lemma {:induction false} CountOrMatchRuns(w: Watch, x: seq<Byte>)
    requires x != [] && forall i :: 0 <= i < |x| - 1 ==> x[i] != w.target
    requires var n := if w.count > 1 then w.count else 1; |x| == n || (|x| < n && x[|x| - 1] == w.target)
    ensures Runs(w, NCharsUntilMatch, x, w.(count := w.count - |x|, flag := x[|x| - 1] == w.target))
    decreases |x|
  {
    if |x| > 1 {
      CountOrMatchRuns(w.(count := w.count - 1, flag := false), x[1..]);
    }
  }

  lemma OneRuns(w: Watch, c: Byte)
    ensures Runs(w, OneChar, [c], w.(count := c))
  {
  }

  // ---------------------------------------------------------------- what the operations do then

  /** Output behind a text that has been delivered. */
  function Passed(output: seq<Byte>, cb: Callback, x: seq<Byte>): seq<Byte> {
    if cb.emits then output + x else output
  }

  lemma PassedOn(output: seq<Byte>, cb: Callback, x: seq<Byte>)
    requires x != []
    ensures Passed(Passed(output, cb, [x[0]]), cb, x[1..]) == Passed(output, cb, x)
  {
    Seqs.Assoc(output, [x[0]], x[1..]);
    assert [x[0]] + x[1..] == x;
  }

  /** There is room for so many bytes in memory, or room can always be made on disk. */
  predicate RoomFor(s: State, n: nat, whenFull: WhenFull) {
    |s.b.contents| - s.b.disk + n <= 65528 || whenFull == Shunt
  }

  /** The buffer with x read into it; how much of it is on disk is left open where room was made there. */
  ghost predicate HasRead(s: State, t: State, cb: Callback, x: seq<Byte>, w': Watch) {
    && |x| <= |s.input|
    && t == s.(b := s.b.(contents := s.b.contents + x, disk := t.b.disk), w := w', input := s.input[|x|..],
               output := Passed(s.output, cb, x))
    && (|s.b.contents| - s.b.disk + |x| <= 65528 ==> t.b.disk == s.b.disk)
  }

  /** One byte is read and delivered; only shunting changes anything else. */
  lemma ReadByte(s: State, cb: Callback, whenFull: WhenFull, n: nat) returns (t: State)
    requires Valid(s) && !s.atEof && s.input != [] && n > 0 && RoomFor(s, n, whenFull) && Scanning(cb.kind)
    ensures var (w, more) := Ask(NO_BUFFER, s.w, cb.kind, s.input[0]);
            && Valid(t) && !t.atEof && RoomFor(t, n - 1, whenFull) && t.w == w
            && HasRead(s, t, cb, [s.input[0]], w)
            && FillRun(s, cb, whenFull) == if more then FillRun(t, cb, whenFull) else Filled(t, true)
  {
    hide Ask;
    MakeRoomKeeps(s, whenFull);
    var room := MakeRoom(s, whenFull).s;
    assert room == s.(b := s.b.(disk := room.b.disk)) && RoomFor(room, n, whenFull);
    AnyBuffer(TakeInput(room).b, s.w, cb.kind, s.input[0]);
    t := Deliver(TakeInput(room), cb, s.input[0]).0;
    Seqs.Unit(s.output);
  }

  /** fill() takes exactly the text at which the callback stops it. */
  lemma {:induction false} FillsBehind(s: State, cb: Callback, whenFull: WhenFull, x: seq<Byte>, w': Watch)
    requires Valid(s) && !s.atEof && Scanning(cb.kind) && Runs(s.w, cb.kind, x, w')
    requires x <= s.input && RoomFor(s, |x|, whenFull)
    ensures var f := FillRun(s, cb, whenFull);
            f.Filled? && f.byCallback && HasRead(s, f.s, cb, x, w')
    decreases |x|
  {
    var t := ReadByte(s, cb, whenFull, |x|);
    if |x| > 1 {
      assert x[1..] <= t.input;
      FillsBehind(t, cb, whenFull, x[1..], w');
      var u := FillRun(t, cb, whenFull).s;
      hide *;
      ReadOn(s, t, u, cb, x, w');
    } else {
      assert x == [s.input[0]];
    }
  }

  lemma ReadOn(s: State, t: State, u: State, cb: Callback, x: seq<Byte>, w': Watch)
    requires |x| > 1 && s.input != [] && x[0] == s.input[0]
    requires HasRead(s, t, cb, [x[0]], t.w) && HasRead(t, u, cb, x[1..], w')
    ensures HasRead(s, u, cb, x, w')
  {
    PassedOn(s.output, cb, x);
    Seqs.Assoc(s.b.contents, [x[0]], x[1..]);
    assert [x[0]] + x[1..] == x;
    assert s.input[1..][|x| - 1..] == s.input[|x|..];
  }

  /** If nothing in the input stops the callback, everything is read, and it is asked about the end. */
  lemma {:induction false} FillsToEnd(s: State, cb: Callback, whenFull: WhenFull, w': Watch)
    requires Valid(s) && !s.atEof && Scanning(cb.kind) && GoesOn(s.w, cb.kind, s.input, w')
    requires RoomFor(s, |s.input| + 1, whenFull)
    ensures var f, (w, more) := FillRun(s, cb, whenFull), Ask(NO_BUFFER, w', cb.kind, EOF);
            && f.Filled? && f.byCallback == !more && f.s.atEof && f.s.input == [] && f.s.w == w
            && f.s.b == s.b.(contents := s.b.contents + s.input, disk := f.s.b.disk)
            && f.s.removed == s.removed && f.s.output == Passed(s.output, cb, s.input)
    decreases |s.input|
  {
    if s.input == [] {
      EndRead(s, cb, whenFull);
      Seqs.Unit(s.b.contents);
      Seqs.Unit(s.output);
    } else {
      var x := s.input;
      var t := ReadByte(s, cb, whenFull, |x| + 1);
      assert t.input == x[1..];
      FillsToEnd(t, cb, whenFull, w');
      PassedOn(s.output, cb, x);
      hide *;
      Seqs.Assoc(s.b.contents, [x[0]], x[1..]);
      assert [x[0]] + x[1..] == x;
      HasReadMeans(s, t, cb, [x[0]], t.w);
    }
  }

  lemma HasReadMeans(s: State, t: State, cb: Callback, x: seq<Byte>, w': Watch)
    requires HasRead(s, t, cb, x, w')
    ensures t.b == s.b.(contents := s.b.contents + x, disk := t.b.disk) && t.output == Passed(s.output, cb, x)
    ensures t.removed == s.removed
  {
  }

  lemma EndRead(s: State, cb: Callback, whenFull: WhenFull)
    requires Valid(s) && !s.atEof && s.input == [] && RoomFor(s, 1, whenFull) && Scanning(cb.kind)
    ensures var f, (w, more) := FillRun(s, cb, whenFull), Ask(NO_BUFFER, s.w, cb.kind, EOF);
            && f.Filled? && f.byCallback == !more
            && f.s == s.(b := s.b.(disk := f.s.b.disk), atEof := true, w := w)
  {
    hide Ask;
    MakeRoomKeeps(s, whenFull);
    var room := MakeRoom(s, whenFull).s;
    AnyBuffer(room.b, s.w, cb.kind, EOF);
    Seqs.Unit(s.output);
  }

  // ---------------------------------------------------------------- looking and emptying

  /** What is left after looking at the n bytes from pos on: only the read cursor has moved, if it was among them. */
  function LookedAt(s: State, cb: Callback, pos: nat, reading: bool, n: nat, w': Watch): State
    requires pos + n <= |s.b.contents|
  {
    var read := if reading && pos <= s.b.read < pos + n then pos + n else s.b.read;
    s.(b := s.b.(read := read), w := w', output := Passed(s.output, cb, s.b.contents[pos..pos + n]))
  }

  /** look() stops behind the text at which the callback stops it. */
  lemma {:induction false} LooksBehind(s: State, cb: Callback, pos: nat, reading: bool, n: nat, w': Watch)
    requires pos + n <= |s.b.contents| && Scanning(cb.kind) && Runs(s.w, cb.kind, s.b.contents[pos..pos + n], w')
    ensures LookRun(s, cb, pos, reading) == (LookedAt(s, cb, pos, reading, n, w'), true)
    decreases n
  {
    var x := s.b.contents[pos..pos + n];
    var t := LookOne(s, cb, pos, reading);
    if n > 1 {
      assert x[1..] == t.b.contents[pos + 1..pos + 1 + (n - 1)];
      LooksBehind(t, cb, pos + 1, reading, n - 1, w');
      hide *;
      LookOn(s, cb, pos, reading, n, t.w, w');
    } else {
      assert x == [s.b.contents[pos]];
    }
  }

  lemma LookOn(s: State, cb: Callback, pos: nat, reading: bool, n: nat, w: Watch, w': Watch)
    requires n > 1 && pos + n <= |s.b.contents|
    ensures LookedAt(LookedAt(s, cb, pos, reading, 1, w), cb, pos + 1, reading, n - 1, w')
            == LookedAt(s, cb, pos, reading, n, w')
  {
    var all := s.b.contents;
    assert all[pos..pos + 1] + all[pos + 1..pos + 1 + (n - 1)] == all[pos..pos + n];
    Seqs.Assoc(s.output, all[pos..pos + 1], all[pos + 1..pos + 1 + (n - 1)]);
  }

  lemma LookOne(s: State, cb: Callback, pos: nat, reading: bool) returns (t: State)
    requires pos < |s.b.contents| && Scanning(cb.kind)
    ensures var (w, more) := Ask(NO_BUFFER, s.w, cb.kind, s.b.contents[pos]);
            && t == LookedAt(s, cb, pos, reading, 1, w)
            && LookRun(s, cb, pos, reading) == if more then LookRun(t, cb, pos + 1, reading) else (t, true)
  {
    hide Ask;
    AnyBuffer(ReadAt(s, pos, reading).b, s.w, cb.kind, s.b.contents[pos]);
    assert s.b.contents[pos..pos + 1] == [s.b.contents[pos]];
    Seqs.Unit(s.output);
    t := Deliver(ReadAt(s, pos, reading), cb, s.b.contents[pos]).0;
    assert t.b == LookedAt(s, cb, pos, reading, 1, t.w).b;
    assert t.output == Passed(s.output, cb, [s.b.contents[pos]]);
  }

  /** empty() takes out exactly the text at which the callback stops it. */
  lemma {:induction false} EmptiesBehind(s: State, cb: Callback, n: nat, w': Watch)
    requires n <= |s.b.contents| && Scanning(cb.kind) && Runs(s.w, cb.kind, s.b.contents[..n], w')
    ensures EmptyRun(s, cb) == (DropAnd(s, n, cb.emits).(w := w'), true)
    decreases n
  {
    var x := s.b.contents[..n];
    var t := EmptyOne(s, cb);
    if n > 1 {
      assert t.b.contents == s.b.contents[1..] && x[1..] == t.b.contents[..n - 1];
      EmptiesBehind(t, cb, n - 1, w');
      hide *;
      DropTwice(s, 1, n, cb.emits);
      WatchAside(s, t, n, cb.emits, w');
    } else {
      assert x == [s.b.contents[0]];
    }
  }

  lemma EmptyOne(s: State, cb: Callback) returns (t: State)
    requires s.b.contents != [] && Scanning(cb.kind)
    ensures var (w, more) := Ask(NO_BUFFER, s.w, cb.kind, s.b.contents[0]);
            && t == DropAnd(s, 1, cb.emits).(w := w) && t.b.contents == s.b.contents[1..]
            && EmptyRun(s, cb) == if more then EmptyRun(t, cb) else (t, true)
  {
    hide Ask;
    AnyBuffer(Drop(s, 1).b, s.w, cb.kind, s.b.contents[0]);
    t := Deliver(Drop(s, 1), cb, s.b.contents[0]).0;
    FirstDrop(s, cb.emits);
  }

  lemma WatchAside(s: State, t: State, n: nat, emits: bool, w': Watch)
    requires 1 < n <= |s.b.contents| && t == DropAnd(s, 1, emits).(w := t.w) && |t.b.contents| == |s.b.contents| - 1
    requires DropAnd(DropAnd(s, 1, emits), n - 1, emits) == DropAnd(s, n, emits)
    ensures DropAnd(t, n - 1, emits).(w := w') == DropAnd(s, n, emits).(w := w')
  {
  }

  // ---------------------------------------------------------------- lines

  /** The first line of what is unread on the input. */
  ghost predicate FirstLine(input: seq<Byte>, a: seq<Byte>, rest: seq<Byte>) {
    input == a + [CR, LF] + rest && forall n :: 0 <= n <= |a| + 1 ==> !LineEndsAt(input, n)
  }

  lemma FirstIsLine(input: seq<Byte>, a: seq<Byte>, rest: seq<Byte>)
    requires FirstLine(input, a, rest)
    ensures var x := a + [CR, LF];
            IsLine(x) && x <= input && input[|x|..] == rest
  {
    var x := a + [CR, LF];
    forall n | 0 <= n < |x| ensures !LineEndsAt(x, n) {
      assert !LineEndsAt(input, n);
      assert n >= 2 ==> x[n - 2] == input[n - 2] && x[n - 1] == input[n - 1];
    }
  }

  /** Filling until the end of a line reads up to the first CRLF and leaves what is behind it unread. */
  lemma FillLine(s: State, kind: Kind, emits: bool, whenFull: WhenFull, a: seq<Byte>, rest: seq<Byte>)
    requires Valid(s) && !s.atEof && !s.w.flag && (kind == UntilEol || kind == CountingUntilEol)
    requires FirstLine(s.input, a, rest) && RoomFor(s, |a| + 2, whenFull)
    ensures var f, x := FillRun(s, Callback(kind, emits), whenFull), a + [CR, LF];
            && f.Filled? && f.byCallback
            && f.s.b == s.b.(contents := s.b.contents + x, disk := f.s.b.disk) && f.s.input == rest
            && f.s.output == (if emits then s.output + x else s.output)
            && f.s.removed == s.removed && !f.s.atEof
            && f.s.w.count == s.w.count + (if kind == CountingUntilEol then |x| else 0)
            && (|s.b.contents| - s.b.disk + |x| <= 65528 ==> f.s.b.disk == s.b.disk)
  {
    var x := a + [CR, LF];
    FirstIsLine(s.input, a, rest);
    LineRuns(s.w, x);
    var w' := s.w.(flag := true, count := s.w.count + if kind == CountingUntilEol then |x| else 0);
    FillsBehind(s, Callback(kind, emits), whenFull, x, w');
  }

  /** Looking until the end of a line, from the read cursor on, moves the cursor behind the first CRLF. */
  lemma LookLine(s: State, kind: Kind, emits: bool, reading: bool, a: seq<Byte>, rest: seq<Byte>)
    requires s.b.read <= |s.b.contents| && !s.w.flag && (kind == UntilEol || kind == CountingUntilEol)
    requires FirstLine(s.b.contents[s.b.read..], a, rest)
    ensures var (t, stopped), x := LookRun(s, Callback(kind, emits), s.b.read, reading), a + [CR, LF];
            && stopped
            && t.b == s.b.(read := if reading then s.b.read + |x| else s.b.read)
            && t.output == (if emits then s.output + x else s.output)
            && t.w.count == s.w.count + (if kind == CountingUntilEol then |x| else 0)
  {
    var x, pos := a + [CR, LF], s.b.read;
    FirstIsLine(s.b.contents[pos..], a, rest);
    assert s.b.contents[pos..pos + |x|] == x by {
      Seqs.Behind(s.b.contents, pos, |x|);
    }
    LineRuns(s.w, x);
    var w' := s.w.(flag := true, count := s.w.count + if kind == CountingUntilEol then |x| else 0);
    LooksBehind(s, Callback(kind, emits), pos, reading, |x|, w');
  }

  /** Input without a line end is read to its end, which is not where the callback asks to stop. */
  lemma FillLastLine(s: State, kind: Kind, emits: bool, whenFull: WhenFull)
    requires Valid(s) && !s.atEof && !s.w.flag && (kind == UntilEol || kind == CountingUntilEol)
    requires (forall n :: 0 <= n <= |s.input| ==> !LineEndsAt(s.input, n)) && RoomFor(s, |s.input| + 1, whenFull)
    ensures var f := FillRun(s, Callback(kind, emits), whenFull);
            && f.Filled? && !f.byCallback && f.s.atEof && f.s.input == []
            && f.s.b.contents == s.b.contents + s.input && f.s.b.read == s.b.read
            && f.s.w.count == s.w.count + (if kind == CountingUntilEol then |s.input| else 0)
  {
    var x := s.input;
    forall i | 0 <= i < |x| ensures !EndsLine(s.w.flag, x, i) {
      assert !LineEndsAt(x, i + 1);
    }
    NoLineGoesOn(s.w, x);
    var w' := s.w.(flag := if x == [] then s.w.flag else x[|x| - 1] == CR,
                   count := s.w.count + if kind == CountingUntilEol then |x| else 0);
    FillsToEnd(s, Callback(kind, emits), whenFull, w');
  }

  // ---------------------------------------------------------------- room

  /**
   * What is done when memory has 65528 bytes or more: shunting leaves 1024 in memory, and echoing or discarding
   * takes out whatever is on disk and then as much as there is too much of; only echoing passes it on.
   */
  lemma RoomMade(s: State, whenFull: WhenFull)
    requires Valid(s)
    ensures var r := MakeRoom(s, whenFull);
            if |s.b.contents| - s.b.disk < 65528 then r == Ready(s)
            else match whenFull
                 case Shunt => r == Ready(s.(b := s.b.(disk := |s.b.contents| - 1024)))
                 case Stop => r == NoRoom
                 case Fail => r == Exit
                 case _ => r.Ready? && Taken(s, |s.b.contents| - 65527, whenFull == Echo, r.s)
  {
    if |s.b.contents| - s.b.disk >= 65528 && (whenFull == Echo || whenFull == Discard) {
      RoomFreed(s, whenFull);
      hide *;
    }
  }

  lemma {:induction false} RoomFreed(s: State, whenFull: WhenFull)
    requires Valid(s) && |s.b.contents| - s.b.disk >= 65528 && (whenFull == Echo || whenFull == Discard)
    ensures var r := MakeRoom(s, whenFull);
            r.Ready? && Taken(s, |s.b.contents| - 65527, whenFull == Echo, r.s)
    decreases |s.b.contents|
  {
    var k, emits := s.b.disk + 1, whenFull == Echo;
    hide *;
    var next := FreeOne(s, whenFull);
    if |next.b.contents| >= 65528 {
      RoomFreed(next, whenFull);
      TakenTwice(s, k, next, |next.b.contents| - 65527, emits, MakeRoom(next, whenFull).s);
    } else {
      TakenFirst(s, k, emits, next);
    }
  }

  lemma FreeOne(s: State, whenFull: WhenFull) returns (next: State)
    requires Valid(s) && |s.b.contents| - s.b.disk >= 65528 && (whenFull == Echo || whenFull == Discard)
    ensures Valid(next) && next == DropAnd(s, s.b.disk + 1, whenFull == Echo).(w := next.w)
    ensures |next.b.contents| == |s.b.contents| - (s.b.disk + 1) && next.b.disk == 0
    ensures MakeRoom(s, whenFull) == if |next.b.contents| >= 65528 then MakeRoom(next, whenFull) else Ready(next)
  {
    var k, emits := s.b.disk + 1, whenFull == Echo;
    var t := DropAnd(s, k, emits);
    next := t.(w := t.w.(count := s.b.contents[k - 1]));
    FreeKeeps(s, emits, next.w);
    hide Stream, Valid;
  }

  /** k bytes have gone from the front, passed on or not. */
  ghost predicate Taken(s: State, k: nat, emits: bool, t: State) {
    && k <= |s.b.contents|
    && t.b == Cut(s.b, k) && t.removed == s.removed + s.b.contents[..k]
    && t.output == (if emits then s.output + s.b.contents[..k] else s.output)
    && t.input == s.input && t.atEof == s.atEof
  }

  lemma TakenTwice(s: State, k: nat, next: State, m: nat, emits: bool, r: State)
    requires k <= |s.b.contents| && next == DropAnd(s, k, emits).(w := next.w)
    requires Taken(next, m, emits, r) && |next.b.contents| == |s.b.contents| - k
    ensures Taken(s, k + m, emits, r)
  {
    DropTwice(s, k, k + m, emits);
  }

  lemma TakenFirst(s: State, k: nat, emits: bool, t: State)
    requires k <= |s.b.contents| && t == DropAnd(s, k, emits).(w := t.w)
    ensures Taken(s, k, emits, t)
  {
  }

  /** What the read cursor and the mark point at stays, as long as it is not taken out; then they are at the start. */
  lemma CutKeepsPlaces(b: Buffer, k: nat)
    requires k <= |b.contents| && b.read <= |b.contents| && (b.marked ==> b.mark <= |b.contents|)
    ensures var c := Cut(b, k);
            && c.contents == b.contents[k..]
            && (if k <= b.read then c.contents[c.read..] == b.contents[b.read..] else c.read == 0)
            && (c.marked <==> b.marked && k <= b.mark)
            && (c.marked ==> c.contents[c.mark..] == b.contents[b.mark..])
            && c.disk == if k <= b.disk then b.disk - k else 0
  {
  }
}
