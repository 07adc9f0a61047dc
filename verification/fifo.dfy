/**
 * The logical view of foot_filter's buffer: a plain FIFO with a read cursor and a mark. Only the
 * number of bytes that happen to lie on disk is visible; where they lie is not.
 */
module Fifo {
  import opened Bytes
  import Seqs

  const MEM_BUFFER_SIZE := 65536
  const MEM_BUFFER_KEEP := 1024
  const MEM_BUFFER_MARGIN := 8

  /** What the callbacks look at and change. */
  datatype Kind =
    | OneChar | NChars | NCharsUntilMatch | UntilEol | CountingUntilEol | UntilMatch
    | UntilNoLookbehind | UntilNoDiskBuffer | UntilNoBuffer | UntilStartMarked

  /** A callback; `emits` tells the echoing and encoding variants, which pass the character on. */
  datatype Callback = Callback(kind: Kind, emits: bool)

  datatype WhenFull = Echo | Discard | Shunt | Stop | Fail

  /** The buffer proper: its bytes, how many of them are on disk, the read cursor and the mark. */
  datatype Buffer = Buffer(contents: seq<Byte>, disk: nat, read: nat, marked: bool, mark: nat)

  /** callback_int, callback_bool and callback_match. */
  datatype Watch = Watch(count: int, flag: bool, target: Code)

  /** `removed` is the history of bytes taken out at the front, `input` what stdin still holds. */
  datatype State = State(b: Buffer, w: Watch, input: seq<Byte>, atEof: bool, removed: seq<Byte>, output: seq<Byte>)

  predicate Valid(s: State) {
    && s.b.disk <= |s.b.contents|
    && s.b.read <= |s.b.contents|
    && (s.b.marked ==> s.b.mark <= |s.b.contents|)
    && |s.b.contents| - s.b.disk <= MEM_BUFFER_SIZE
    && (s.atEof ==> s.input == [])
  }

  /** What a callback answers to a character, and what it notes down. */
  function Ask(b: Buffer, w: Watch, kind: Kind, c: Code): (Watch, bool) {
    match kind
    case OneChar => (w.(count := c), false)
    case NChars => (w.(count := w.count - 1), w.count - 1 > 0)
    case NCharsUntilMatch => (w.(flag := c == w.target, count := w.count - 1), w.count - 1 > 0 && c != w.target)
    case UntilEol => if c == LF then (w, !w.flag) else (w.(flag := c == CR), true)
    case CountingUntilEol =>
      var w := if c != EOF then w.(count := w.count + 1) else w;
      if c == LF then (w, !w.flag) else (w.(flag := c == CR), true)
    case UntilMatch => (w, c != w.target)
    case UntilNoLookbehind => (w, b.read != 0)
    case UntilNoDiskBuffer => (w, b.disk != 0)
    case UntilNoBuffer => (w, b.contents != [])
    case UntilStartMarked => (w, !(if b.marked then b.mark == 0 else b.read == 0))
  }

  /** Calling a callback with a character: its effect and whether it asks for more. */
  function Deliver(s: State, cb: Callback, c: Code): (State, bool) {
    var (w, more) := Ask(s.b, s.w, cb.kind, c);
    (s.(w := w, output := s.output + if cb.emits && c != EOF then [c] else []), more)
  }

  function Minus(a: nat, b: nat): nat {
    if a < b then 0 else a - b
  }

  function Cut(b: Buffer, k: nat): Buffer
    requires k <= |b.contents|
  {
    Buffer(b.contents[k..], Minus(b.disk, k), Minus(b.read, k), b.marked && k <= b.mark,
           if b.marked then Minus(b.mark, k) else b.mark)
  }

  /** Removing k bytes at the front, in FIFO terms. */
  function Drop(s: State, k: nat): State
    requires k <= |s.b.contents|
  {
    s.(b := Cut(s.b, k), removed := s.removed + s.b.contents[..k])
  }

  /** Removing k bytes and passing them on. */
  function DropAnd(s: State, k: nat, emits: bool): State
    requires k <= |s.b.contents|
  {
    if emits then Drop(s, k).(output := s.output + s.b.contents[..k]) else Drop(s, k)
  }

  /** empty(): remove and deliver until the callback stops it or EOF has been delivered. */
  function EmptyRun(s: State, cb: Callback): (State, bool)
    decreases |s.b.contents|
  {
    if s.b.contents == [] then
      var (t, more) := Deliver(s, cb, EOF);
      (t, !more)
    else
      var (t, more) := Deliver(Drop(s, 1), cb, s.b.contents[0]);
      if more then EmptyRun(t, cb) else (t, true)
  }

  function ReadAt(s: State, pos: nat, reading: bool): State {
    if reading && pos == s.b.read then s.(b := s.b.(read := s.b.read + 1)) else s
  }

  /** look(): deliver from a position on, moving the read cursor along if asked to. */
  function LookRun(s: State, cb: Callback, pos: nat, reading: bool): (State, bool)
    decreases |s.b.contents| - pos
  {
    if pos >= |s.b.contents| then
      var (t, more) := Deliver(s, cb, EOF);
      (t, !more)
    else
      var (t, more) := Deliver(ReadAt(s, pos, reading), cb, s.b.contents[pos]);
      if more then LookRun(t, cb, pos + 1, reading) else (t, true)
  }

  /** shunt_to_disk(): the logical contents do not change. */
  function ShuntRun(s: State, n: nat): State {
    s.(b := s.b.(disk := s.b.disk + n))
  }

  predicate Full(b: Buffer) {
    |b.contents| - b.disk >= MEM_BUFFER_SIZE - MEM_BUFFER_MARGIN
  }

  datatype Room = Ready(s: State) | NoRoom | Exit

  /** Making room in memory before a byte is read: the loop at the head of fill(). */
  function MakeRoom(s: State, whenFull: WhenFull): (r: Room)
    requires Valid(s)
    decreases |s.b.contents|
  {
    if !Full(s.b) then Ready(s)
    else if whenFull == Shunt then Ready(ShuntRun(s, |s.b.contents| - s.b.disk - MEM_BUFFER_KEEP))
    else if whenFull == Stop then NoRoom
    else if whenFull == Fail then Exit
    else
      var k := s.b.disk + 1;
      var t := DropAnd(s, k, whenFull == Echo);
      MakeRoom(t.(w := t.w.(count := s.b.contents[k - 1])), whenFull)
  }

  datatype Filled = Filled(s: State, byCallback: bool) | Exited

  function TakeInput(s: State): State
    requires s.input != []
  {
    s.(b := s.b.(contents := s.b.contents + [s.input[0]]), input := s.input[1..])
  }

  /** fill(): read and deliver until the callback, the end of input or a full buffer stops it. */
  function FillRun(s: State, cb: Callback, whenFull: WhenFull): Filled
    requires Valid(s)
    decreases |s.input|
  {
    if s.atEof then
      var (t, more) := Deliver(s, cb, EOF);
      Filled(t, !more)
    else match MakeRoom(s, whenFull)
      case NoRoom => Filled(s, false)
      case Exit => Exited
      case Ready(r) =>
        MakeRoomKeeps(s, whenFull);
        if r.input == [] then
          var (t, more) := Deliver(r.(atEof := true), cb, EOF);
          Filled(t, !more)
        else
          var (t, more) := Deliver(TakeInput(r), cb, r.input[0]);
          if more then FillRun(t, cb, whenFull) else Filled(t, true)
  }

  // ---------------------------------------------------------------- what every operation keeps

  /** Every byte ever read is either removed or still buffered, in order, ahead of what is unread. */
  function Stream(s: State): seq<Byte> {
    s.removed + s.b.contents + s.input
  }

  lemma DropKeeps(s: State, k: nat)
    requires Valid(s) && k <= |s.b.contents|
    ensures Valid(Drop(s, k)) && Stream(Drop(s, k)) == Stream(s)
  {
    Seqs.Rejoin(s.b.contents, k);
    Seqs.Assoc(s.removed, s.b.contents[..k], s.b.contents[k..]);
  }

  lemma DropValid(s: State)
    requires Valid(s) && s.b.contents != []
    ensures Valid(Drop(s, 1))
  {
  }

  lemma FreeKeeps(s: State, emits: bool, w: Watch)
    requires Valid(s) && Full(s.b)
    ensures var t := DropAnd(s, s.b.disk + 1, emits).(w := w);
            && Valid(t) && Stream(t) == Stream(s) && t.input == s.input && t.atEof == s.atEof
            && |t.b.contents| < |s.b.contents|
  {
    DropKeeps(s, s.b.disk + 1);
  }

  lemma {:induction false} MakeRoomKeeps(s: State, whenFull: WhenFull)
    requires Valid(s)
    ensures var r := MakeRoom(s, whenFull);
            r.Ready? ==>
              && Valid(r.s) && !Full(r.s.b) && Stream(r.s) == Stream(s)
              && r.s.input == s.input && r.s.atEof == s.atEof
    decreases |s.b.contents|
  {
    if Full(s.b) && (whenFull == Echo || whenFull == Discard) {
      var k := s.b.disk + 1;
      var t := DropAnd(s, k, whenFull == Echo);
      var next := t.(w := t.w.(count := s.b.contents[k - 1]));
      FreeKeeps(s, whenFull == Echo, next.w);
      assert MakeRoom(s, whenFull) == MakeRoom(next, whenFull);
      hide DropAnd, Full, Valid, Stream, MakeRoom;
      MakeRoomKeeps(next, whenFull);
    }
  }

  lemma {:induction false} EmptyKeeps(s: State, cb: Callback)
    requires Valid(s)
    ensures Valid(EmptyRun(s, cb).0) && Stream(EmptyRun(s, cb).0) == Stream(s)
    decreases |s.b.contents|
  {
    hide Ask;
    if s.b.contents != [] {
      DropKeeps(s, 1);
      EmptyKeeps(Deliver(Drop(s, 1), cb, s.b.contents[0]).0, cb);
    }
  }

  lemma {:induction false} LookKeeps(s: State, cb: Callback, pos: nat, reading: bool)
    requires Valid(s)
    ensures var t := LookRun(s, cb, pos, reading).0;
            && Valid(t) && Stream(t) == Stream(s)
            && t.b == s.b.(read := t.b.read) && s.b.read <= t.b.read && (!reading ==> t.b == s.b)
    decreases |s.b.contents| - pos
  {
    hide Ask;
    if pos < |s.b.contents| {
      LookKeeps(Deliver(ReadAt(s, pos, reading), cb, s.b.contents[pos]).0, cb, pos + 1, reading);
    }
  }

  lemma {:induction false} FillKeeps(s: State, cb: Callback, whenFull: WhenFull)
    requires Valid(s)
    ensures var f := FillRun(s, cb, whenFull);
            f.Filled? ==> Valid(f.s) && Stream(f.s) == Stream(s)
    decreases |s.input|
  {
    hide Ask, MakeRoom;
    MakeRoomKeeps(s, whenFull);
    var room := MakeRoom(s, whenFull);
    if !s.atEof && room.Ready? && room.s.input != [] {
      TakeInputKeeps(room.s);
      FillKeeps(Deliver(TakeInput(room.s), cb, room.s.input[0]).0, cb, whenFull);
    }
  }

  lemma TakeInputKeeps(r: State)
    requires Valid(r) && !Full(r.b) && r.input != []
    ensures Valid(TakeInput(r)) && Stream(TakeInput(r)) == Stream(r)
  {
    assert [r.input[0]] + r.input[1..] == r.input;
    Seqs.Assoc(r.removed, r.b.contents, [r.input[0]]);
    Seqs.Assoc(r.removed + r.b.contents, [r.input[0]], r.input[1..]);
  }

  // ---------------------------------------------------------------- any interleaving

  datatype Op = DoFill(cb: Callback, whenFull: WhenFull) | DoLook(cb: Callback, from: nat, reading: bool)
              | DoEmpty(cb: Callback) | DoShunt(n: nat)

  /** One operation; exiting ends a run, so it has no next state. */
  ghost predicate Step(s: State, op: Op, t: State)
    requires Valid(s)
  {
    match op
    case DoFill(cb, whenFull) => var f := FillRun(s, cb, whenFull); f.Filled? && t == f.s
    case DoLook(cb, from, reading) => t == LookRun(s, cb, from, reading).0
    case DoEmpty(cb) => t == EmptyRun(s, cb).0
    case DoShunt(n) => n <= |s.b.contents| - s.b.disk && t == ShuntRun(s, n)
  }

  ghost predicate Reaches(s: State, ops: seq<Op>, t: State)
    decreases |ops|
  {
    Valid(s) && if ops == [] then t == s else exists m :: Step(s, ops[0], m) && Reaches(m, ops[1..], t)
  }

  /** Over any interleaving: nothing is lost, duplicated or reordered, whatever was shunted, echoed or dropped. */
  lemma {:induction false} AnyRunKeepsStream(s: State, ops: seq<Op>, t: State)
    requires Reaches(s, ops, t)
    ensures Valid(t) && Stream(t) == Stream(s)
    decreases |ops|
  {
    if ops != [] {
      var m :| Step(s, ops[0], m) && Reaches(m, ops[1..], t);
      match ops[0] {
        case DoFill(cb, whenFull) => FillKeeps(s, cb, whenFull);
        case DoLook(cb, from, reading) => LookKeeps(s, cb, from, reading);
        case DoEmpty(cb) => EmptyKeeps(s, cb);
        case DoShunt(n) =>
      }
      AnyRunKeepsStream(m, ops[1..], t);
    }
  }

  // ---------------------------------------------------------------- callbacks that stop at a known place

  /** How many bytes these callbacks let empty() remove, when that many are there. */
  function Span(s: State, kind: Kind): nat {
    match kind
    case UntilNoLookbehind => s.b.read
    case UntilNoDiskBuffer => s.b.disk
    case UntilStartMarked => if s.b.marked then s.b.mark else s.b.read
    case UntilNoBuffer => |s.b.contents|
    case NChars => if s.w.count < 0 then 0 else s.w.count
    case _ => 1
  }

  predicate Counted(kind: Kind) {
    kind in {UntilNoLookbehind, UntilNoDiskBuffer, UntilStartMarked, UntilNoBuffer, NChars}
  }

  /** empty() under such a callback is a plain removal of that many bytes. */
  lemma {:induction false} EmptySpan(s: State, cb: Callback)
    requires Valid(s) && Counted(cb.kind)
    requires 0 < Span(s, cb.kind) <= |s.b.contents|
    ensures var t := DropAnd(s, Span(s, cb.kind), cb.emits);
            EmptyRun(s, cb) == (if cb.kind == NChars then t.(w := t.w.(count := 0)) else t, true)
    decreases |s.b.contents|
  {
    var k := Span(s, cb.kind);
    var (t, more) := Deliver(Drop(s, 1), cb, s.b.contents[0]);
    FirstDrop(s, cb.emits);
    DropKeeps(s, 1);
    SpanShrinks(s, cb);
    EmptyStep(s, cb);
    hide *;
    if more {
      EmptySpan(t, cb);
      DropTwice(s, 1, k, cb.emits);
      SpanSum(s, t, k, cb);
    }
  }

  lemma EmptyStep(s: State, cb: Callback)
    requires s.b.contents != []
    ensures var (t, more) := Deliver(Drop(s, 1), cb, s.b.contents[0]);
            EmptyRun(s, cb) == if more then EmptyRun(t, cb) else (t, true)
  {
    hide Deliver, Drop;
  }

  /** The rest of a removal whose first byte has been counted. */
  lemma SpanSum(s: State, t: State, k: nat, cb: Callback)
    requires 0 < k <= |s.b.contents| && |t.b.contents| == |s.b.contents| - 1
    requires t == DropAnd(s, 1, cb.emits).(w := t.w)
    requires t.w == if cb.kind == NChars then s.w.(count := s.w.count - 1) else s.w
    requires DropAnd(DropAnd(s, 1, cb.emits), k - 1, cb.emits) == DropAnd(s, k, cb.emits)
    ensures DropAnd(t, k - 1, cb.emits).(w := s.w) == DropAnd(s, k, cb.emits)
    ensures DropAnd(t, k - 1, cb.emits).w == t.w
  {
  }

  /** One character less to remove, until there is none. */
  lemma SpanShrinks(s: State, cb: Callback)
    requires Valid(s) && Counted(cb.kind)
    requires 0 < Span(s, cb.kind) <= |s.b.contents|
    ensures var (t, more) := Deliver(Drop(s, 1), cb, s.b.contents[0]);
            && (more <==> Span(s, cb.kind) > 1)
            && (more ==> Span(t, cb.kind) == Span(s, cb.kind) - 1)
            && t == Drop(s, 1).(output := t.output, w := t.w)
            && t.output == s.output + (if cb.emits then [s.b.contents[0]] else [])
            && t.w == if cb.kind == NChars then s.w.(count := s.w.count - 1) else s.w
  {
  }

  lemma FirstDrop(s: State, emits: bool)
    requires s.b.contents != []
    ensures s.b.contents[..1] == [s.b.contents[0]]
    ensures DropAnd(s, 1, emits) == Drop(s, 1).(output := s.output + if emits then [s.b.contents[0]] else [])
  {
    Seqs.Unit(s.output);
  }

  lemma DropTwice(s: State, j: nat, k: nat, emits: bool)
    requires j <= k <= |s.b.contents|
    ensures DropAnd(DropAnd(s, j, emits), k - j, emits) == DropAnd(s, k, emits)
  {
    var first, rest := s.b.contents[..j], s.b.contents[j..][..k - j];
    assert s.b.contents[j..][k - j..] == s.b.contents[k..];
    assert first + rest == s.b.contents[..k];
    Seqs.Assoc(s.removed, first, rest);
    Seqs.Assoc(s.output, first, rest);
  }
}
