/**
 * The two-level buffer of contrib/foot_filter/foot_filter.c: a prefix in a temporary file, then a
 * ring in memory, with fill, look, empty and shunt_to_disk over both and in-place decoding in the ring.
 * Every operation is proved to do what Fifo says on the logical contents, from whatever position and
 * with whatever callback it is called.
 */
module MailBuffer {
  import opened Bytes
  import opened Fifo
  import Seqs
  import Codec

  function Wrap(k: nat): nat
    requires k < 2 * MEM_BUFFER_SIZE
  {
    if k >= MEM_BUFFER_SIZE then k - MEM_BUFFER_SIZE else k
  }

  /** n bytes from index `first` on, around the end of a. */
  ghost function Around(a: seq<Byte>, first: nat, n: nat): (r: seq<Byte>)
    requires |a| == MEM_BUFFER_SIZE && first < MEM_BUFFER_SIZE && n <= MEM_BUFFER_SIZE
    ensures |r| == n
    ensures forall i :: 0 <= i < n ==> r[i] == a[Wrap(first + i)]
  {
    seq(n, i requires 0 <= i < n => a[Wrap(first + i)])
  }

  /** The memory half: mem_buffer_start and the pointers into it. */
  class Ring {
    const mem: array<Byte>
    var nextEmpty: nat      // logical start
    var nextFill: nat       // logical end
    var filled: nat
    ghost var contents: seq<Byte>

    ghost predicate Valid()
      reads this, mem
      ensures Valid() ==> |contents| == filled <= MEM_BUFFER_SIZE
    {
      && mem.Length == MEM_BUFFER_SIZE
      && nextEmpty < MEM_BUFFER_SIZE && filled <= MEM_BUFFER_SIZE
      && nextFill == Wrap(nextEmpty + filled)
      && contents == Around(mem[..], nextEmpty, filled)
    }

    constructor ()
      ensures Valid() && fresh(mem) && contents == [] && filled == 0
    {
      mem := new Byte[MEM_BUFFER_SIZE](_ => 0);
      nextEmpty, nextFill, filled, contents := 0, 0, 0, [];
    }

    method Take() returns (b: Byte)
      requires Valid() && filled > 0
      modifies this
      ensures Valid()
      ensures old(contents) == [b] + contents && filled == old(filled) - 1
    {
      b := mem[nextEmpty];
      nextEmpty := nextEmpty + 1;
      if nextEmpty == MEM_BUFFER_SIZE { nextEmpty := 0; }
      filled := filled - 1;
      contents := contents[1..];
    }

    method Store(b: Byte)
      requires Valid() && filled < MEM_BUFFER_SIZE
      modifies this, mem
      ensures Valid()
      ensures contents == old(contents) + [b] && filled == old(filled) + 1
    {
      mem[nextFill] := b;
      nextFill := nextFill + 1;
      if nextFill == MEM_BUFFER_SIZE { nextFill := 0; }
      filled := filled + 1;
      contents := contents + [b];
    }

    /** What lies in the ring, whatever `contents` still says. */
    ghost function View(): seq<Byte>
      reads this`nextEmpty, this`filled, mem
      requires mem.Length == MEM_BUFFER_SIZE && nextEmpty < MEM_BUFFER_SIZE && filled <= MEM_BUFFER_SIZE
    {
      Around(mem[..], nextEmpty, filled)
    }

    /** Store at a logical position and give the position after it. */
    method Poke(i: nat, at: nat, b: Byte) returns (next: nat)
      requires mem.Length == MEM_BUFFER_SIZE && nextEmpty < MEM_BUFFER_SIZE && filled <= MEM_BUFFER_SIZE
      requires i < filled && at == Wrap(nextEmpty + i)
      modifies mem
      ensures View() == old(View())[i := b]
      ensures next == Wrap(nextEmpty + i + 1)
    {
      mem[at] := b;
      next := at + 1;
      if next == MEM_BUFFER_SIZE { next := 0; }
    }

    /** Up to three bytes of one decoding step, stored from a logical position on. */
    method StoreDecoded(o: Codec.Decoded, i: nat, at: nat) returns (i': nat, at': nat)
      requires mem.Length == MEM_BUFFER_SIZE && nextEmpty < MEM_BUFFER_SIZE && filled <= MEM_BUFFER_SIZE
      requires i + |o.Stored()| <= filled && at == Wrap(nextEmpty + i)
      modifies mem
      ensures i' == i + |o.Stored()| && at' == Wrap(nextEmpty + i')
      ensures View()[..i'] == old(View())[..i] + o.Stored()
      ensures View()[i'..] == old(View())[i'..]
    {
      ghost var before := View();
      i', at' := i, at;
      if o.c1 != EOF {
        at' := Poke(i', at', o.c1);
        i' := i' + 1;
        if o.c2 != EOF {
          at' := Poke(i', at', o.c2);
          i' := i' + 1;
          if o.c3 != EOF {
            at' := Poke(i', at', o.c3);
            i' := i' + 1;
          }
        }
      }
      hide Around;
      StoredAt(before, View(), i, o.Stored());
    }

    /**
     * The loop of decode_lookahead: read at c, write at cc, both going around the ring. From a safe
     * start the writes stay behind the reads, so no byte is overwritten before it is decoded.
     */
    method DecodeInPlace(from: nat, decoder: Codec.Decoder)
      requires Valid() && from <= filled
      requires decoder.Valid() && Codec.SafeStart(decoder.Stage()) && decoder.buffer != mem
      modifies this, mem, decoder, decoder.buffer
      ensures Valid() && decoder.Valid()
      ensures var (stage, out) := Codec.DecodeRun(old(decoder.Stage()), old(contents)[from..]);
              decoder.Stage() == stage && contents == old(contents)[..from] + out
    {
      hide Codec.DecodeRun, Codec.DecodeStep, Codec.SafeStart;
      var c := nextEmpty + from;
      if c >= MEM_BUFFER_SIZE { c := c - MEM_BUFFER_SIZE; }
      var pos, decpos := DecodeLoop(from, c, decoder);
      assert View()[pos..] == [] && View()[..pos] == View();
      assert contents[from..pos] == contents[from..];
      // all three totals fall by pos - decpos; the fill pointer steps back around the ring
      nextFill := if nextFill + decpos < pos then nextFill + decpos + MEM_BUFFER_SIZE - pos
                  else nextFill + decpos - pos;
      ghost var view := View();
      filled := filled + decpos - pos;
      contents := view[..decpos];
    }

    /** What the loop has done when it has read up to pos and written up to decpos. */
    ghost predicate Decoding(text: seq<Byte>, from: nat, pos: nat, decpos: nat, stage0: Codec.Stage, stage: Codec.Stage)
      reads this`nextEmpty, this`filled, mem
      requires mem.Length == MEM_BUFFER_SIZE && nextEmpty < MEM_BUFFER_SIZE && filled <= MEM_BUFFER_SIZE
      requires from <= decpos <= pos <= filled == |text| && Codec.StageOk(stage0)
    {
      var r := Codec.DecodeRun(stage0, text[from..pos]);
      && r.0 == stage && decpos == from + |r.1|
      && View()[..decpos] == text[..from] + r.1
      && View()[pos..] == text[pos..]
    }

    method DecodeLoop(from: nat, start: nat, decoder: Codec.Decoder) returns (pos: nat, decpos: nat)
      requires Valid() && from <= filled && start == Wrap(nextEmpty + from)
      requires decoder.Valid() && Codec.SafeStart(decoder.Stage()) && decoder.buffer != mem
      modifies mem, decoder, decoder.buffer
      ensures mem.Length == MEM_BUFFER_SIZE && decoder.Valid()
      ensures from <= decpos <= pos == filled
      ensures Decoding(contents, from, pos, decpos, old(decoder.Stage()), decoder.Stage())
    {
      ghost var stage0, text := decoder.Stage(), contents;
      var c, cc := start, start;
      pos, decpos := from, from;
      hide Codec.DecodeStep, Codec.SafeStart, Codec.StageOk, Around;
      assert text[from..from] == [] && Codec.DecodeRun(stage0, []) == (stage0, []);
      Seqs.Unit(text[..from]);
      assert Decoding(text, from, pos, decpos, stage0, decoder.Stage());
      hide Decoding, View, Codec.DecodeRun;
      while pos < filled
        invariant from <= decpos <= pos <= filled
        invariant c == Wrap(nextEmpty + pos) && cc == Wrap(nextEmpty + decpos)
        invariant decoder.Valid() && Decoding(text, from, pos, decpos, stage0, decoder.Stage())
      {
        decpos, cc := DecodeOne(text, from, pos, c, decpos, cc, stage0, decoder);
        pos := pos + 1;
        c := c + 1;
        if c == MEM_BUFFER_SIZE { c := 0; }
      }
    }

    /** One round of the loop: decode the byte at pos, store what comes out at decpos. */
    method DecodeOne(ghost text: seq<Byte>, ghost from: nat, ghost pos: nat, c: nat, decpos: nat, cc: nat,
                     ghost stage0: Codec.Stage, decoder: Codec.Decoder)
      returns (decpos': nat, cc': nat)
      requires mem.Length == MEM_BUFFER_SIZE && nextEmpty < MEM_BUFFER_SIZE && filled <= MEM_BUFFER_SIZE
      requires from <= decpos <= pos < filled == |text|
      requires c == Wrap(nextEmpty + pos) && cc == Wrap(nextEmpty + decpos)
      requires Codec.StageOk(stage0) && Codec.SafeStart(stage0)
      requires decoder.Valid() && decoder.buffer != mem && Decoding(text, from, pos, decpos, stage0, decoder.Stage())
      modifies mem, decoder, decoder.buffer
      ensures from <= decpos' <= pos + 1
      ensures cc' == Wrap(nextEmpty + decpos')
      ensures decoder.Valid() && Decoding(text, from, pos + 1, decpos', stage0, decoder.Stage())
    {
      hide Codec.DecodeRun, Codec.DecodeStep, Codec.StageOk, Around;
      ghost var view := View();
      assert mem[c] == view[pos] == view[pos..][0] == text[pos..][0];
      ghost var r := Codec.DecodeRun(stage0, text[from..pos]);
      RunOneMore(stage0, text, from, pos);
      Codec.SafeNeverOvertakes(stage0, text[from..pos + 1]);
      hide View;
      var o := decoder.DecodeChar(mem[c]);
      // o.r is 0, so there is nothing to take back
      decpos', cc' := StoreDecoded(o, decpos, cc);
      NextDecoded(text, from, pos, view, View(), r.1, o.Stored());
    }

    static lemma RunOneMore(stage0: Codec.Stage, text: seq<Byte>, from: nat, pos: nat)
      requires from <= pos < |text| && Codec.StageOk(stage0)
      ensures var (s1, o1) := Codec.DecodeRun(stage0, text[from..pos]);
              var (s2, o2) := Codec.DecodeStep(s1, text[pos]);
              Codec.DecodeRun(stage0, text[from..pos + 1]) == (s2, o1 + o2)
    {
      hide *;
      Seqs.Grow(text, from, pos);
      Codec.DecodeRunOn(stage0, text[from..pos], text[pos]);
    }

    static lemma NextDecoded(text: seq<Byte>, from: nat, pos: nat, before: seq<Byte>, after: seq<Byte>,
                             out: seq<Byte>, stored: seq<Byte>)
      requires |before| == |after| == |text| && from + |out| <= pos < |text| && from + |out| + |stored| <= pos + 1
      requires before[..from + |out|] == text[..from] + out && before[pos..] == text[pos..]
      requires var k := from + |out| + |stored|;
               after[..k] == before[..from + |out|] + stored && after[k..] == before[k..]
      ensures after[..from + |out + stored|] == text[..from] + (out + stored)
      ensures after[pos + 1..] == text[pos + 1..]
    {
      var k := from + |out| + |stored|;
      Seqs.Assoc(text[..from], out, stored);
      Tails(before, after, k, pos + 1);
      Tails(text, before, pos, pos + 1);
    }

    static lemma Tails(a: seq<Byte>, b: seq<Byte>, k: nat, m: nat)
      requires k <= m <= |a| == |b| && a[k..] == b[k..]
      ensures a[m..] == b[m..]
    {
      assert a[m..] == a[k..][m - k..] && b[m..] == b[k..][m - k..];
    }

    /** Writing a few bytes at a position changes just those. */
    static lemma StoredAt(before: seq<Byte>, after: seq<Byte>, at: nat, bytes: seq<Byte>)
      requires at + |bytes| <= |before| && |bytes| <= 3
      requires after == match |bytes|
                        case 0 => before
                        case 1 => before[at := bytes[0]]
                        case 2 => before[at := bytes[0]][at + 1 := bytes[1]]
                        case _ => before[at := bytes[0]][at + 1 := bytes[1]][at + 2 := bytes[2]]
      ensures after[..at + |bytes|] == before[..at] + bytes
      ensures after[at + |bytes|..] == before[at + |bytes|..]
    {
    }
  }

  /** How fill() ended: the callback said so, input or room ran out, or the program exits. */
  datatype Outcome = ByCallback | Otherwise | Exiting

  class MailBuffer {
    const ring: Ring
    var disk: seq<Byte>     // the temporary file
    var diskStart: nat
    var diskFilled: nat
    var diskSought: nat     // the position in the temporary file
    var filled: nat
    var read: nat
    var mark: nat
    var marked: bool
    var char_: Code         // buffer_char
    var count: int          // callback_int
    var flag: bool          // callback_bool
    var target: Code        // callback_match
    var input: seq<Byte>
    var atEof: bool
    var output: seq<Byte>
    ghost var contents: seq<Byte>
    ghost var removed: seq<Byte>

    ghost predicate Valid()
      reads this, ring, ring.mem
    {
      && ring.Valid()
      && diskStart + diskFilled == |disk|
      && diskSought <= |disk|
      && contents == disk[diskStart..] + ring.contents
      && filled == ring.filled + diskFilled == |contents|
      && Fifo.Valid(State())
    }

    ghost function State(): Fifo.State
      reads this
    {
      Fifo.State(Fifo.Buffer(contents, diskFilled, read, marked, mark),
                 Watch(count, flag, target), input, atEof, removed, output)
    }

    constructor (input: seq<Byte>)
      ensures Valid() && fresh(ring) && fresh(ring.mem)
      ensures contents == [] && State().input == input && State().removed == [] && State().output == []
      ensures !atEof && read == 0 && !marked
    {
      ring := new Ring();
      disk, diskStart, diskFilled, diskSought := [], 0, 0, 0;
      filled, read, mark, marked := 0, 0, 0, false;
      char_, count, flag, target := EOF, 0, false, EOF;
      this.input, atEof, output := input, false, [];
      contents, removed := [], [];
    }

    /** The logical contents, position by position. */
    lemma ContentsAt(i: nat)
      requires Valid() && i < filled
      ensures contents[i] == if i < diskFilled then disk[diskStart + i]
                             else ring.mem[Wrap(ring.nextEmpty + (i - diskFilled))]
    {
    }

    // ---------------------------------------------------------------- callbacks

    /** (*callback)(): the character is in char_. */
    method Call(cb: Callback) returns (more: bool)
      requires Valid()
      modifies this`count, this`flag, this`output
      ensures Valid()
      ensures (State(), more) == Deliver(old(State()), cb, char_)
    {
      hide Ask, Ring.Valid;
      Seqs.Unit(output);
      if cb.emits && char_ != EOF { output := output + [char_]; }
      more := Answer(cb.kind);
    }

    /** What the callback notes down and whether it asks for more. */
    method Answer(kind: Kind) returns (more: bool)
      requires filled == |contents|
      modifies this`count, this`flag
      ensures (Watch(count, flag, target), more) == Ask(State().b, old(Watch(count, flag, target)), kind, char_)
    {
      match kind {
        case OneChar =>
          count := char_;
          more := false;
        case NChars =>
          count := count - 1;
          more := count > 0;
        case NCharsUntilMatch =>
          flag := char_ == target;
          count := count - 1;
          more := count > 0 && char_ != target;
        case UntilEol =>
          if char_ == LF { return !flag; }
          flag := char_ == CR;
          more := true;
        case CountingUntilEol =>
          if char_ != EOF { count := count + 1; }
          if char_ == LF { return !flag; }
          flag := char_ == CR;
          more := true;
        case UntilMatch => more := char_ != target;
        case UntilNoLookbehind => more := read != 0;
        case UntilNoDiskBuffer => more := diskFilled != 0;
        case UntilNoBuffer => more := filled != 0;
        case UntilStartMarked => more := !(if marked then mark == 0 else read == 0);
      }
    }

    // ---------------------------------------------------------------- empty

    /** The accounting common to both halves of empty(), for a byte that is already out of its place. */
    method CountRemoved(b: Byte, ghost onDisk: nat)
      requires filled == |contents| && contents != [] && contents[0] == b
      modifies this`filled, this`read, this`marked, this`mark, this`contents, this`removed
      ensures contents == old(contents[1..]) && filled == |contents|
      ensures Fifo.Buffer(contents, Minus(onDisk, 1), read, marked, mark)
              == Cut(old(Fifo.Buffer(contents, onDisk, read, marked, mark)), 1)
      ensures removed == old(removed + contents[..1])
    {
      filled := filled - 1;
      if read > 0 { read := read - 1; }
      if marked {
        if mark > 0 { mark := mark - 1; } else { marked := false; }
      }
      assert contents[..1] == [b];
      contents, removed := contents[1..], removed + contents[..1];
    }

    /** One byte off the front of the disk part. */
    method RemoveFromDisk()
      requires Valid() && diskFilled > 0 && diskSought == diskStart
      modifies this
      ensures Valid() && diskSought == diskStart
      ensures State() == Drop(old(State()), 1) && char_ == old(State()).b.contents[0]
      ensures diskFilled == old(diskFilled) - 1
    {
      FirstByte(disk, diskStart, ring.contents);
      hide Cut, Ring.Valid;
      char_ := disk[diskSought];
      diskSought := diskSought + 1;
      diskStart := diskStart + 1;
      diskFilled := diskFilled - 1;
      CountRemoved(char_, diskFilled + 1);
      DropValid(old(State()));
    }

    static lemma FirstByte(disk: seq<Byte>, start: nat, rest: seq<Byte>)
      requires start < |disk|
      ensures var c := disk[start..] + rest;
              c[0] == disk[start] && c[1..] == disk[start + 1..] + rest
    {
    }

    /** One byte off the front of the ring, the disk part being empty. */
    method RemoveFromMemory()
      requires Valid() && diskFilled == 0 && ring.filled > 0
      modifies this, ring
      ensures Valid() && diskFilled == 0
      ensures State() == Drop(old(State()), 1) && char_ == old(State()).b.contents[0]
      ensures ring.filled == old(ring.filled) - 1
    {
      hide Cut, Ring.Valid;
      char_ := ring.Take();
      assert contents == [char_] + ring.contents;
      hide Fifo.Valid;
      CountRemoved(char_, 0);
      DropValid(old(State()));
    }

    method Empty(cb: Callback) returns (stopped: bool)
      requires Valid()
      modifies this, ring
      ensures Valid()
      ensures (State(), stopped) == EmptyRun(old(State()), cb)
    {
      var more;
      hide Drop, Deliver, Ring.Valid;
      if diskFilled > 0 {
        if diskSought != diskStart { diskSought := diskStart; }
        while diskFilled > 0
          invariant Valid() && diskSought == diskStart
          invariant EmptyRun(State(), cb) == EmptyRun(old(State()), cb)
          decreases diskFilled
        {
          RemoveFromDisk();
          more := Call(cb);
          if !more { return true; }
        }
      }
      while ring.filled > 0
        invariant Valid() && diskFilled == 0
        invariant EmptyRun(State(), cb) == EmptyRun(old(State()), cb)
        decreases ring.filled
      {
        RemoveFromMemory();
        more := Call(cb);
        if !more { return true; }
      }
      char_ := EOF;
      more := Call(cb);
      stopped := !more;
    }

    // ---------------------------------------------------------------- look

    method Look(cb: Callback, from: nat, reading: bool) returns (stopped: bool)
      requires Valid()
      modifies this`char_, this`diskSought, this`read, this`count, this`flag, this`output
      ensures Valid()
      ensures (State(), stopped) == LookRun(old(State()), cb, from, reading)
    {
      var pos := from;
      var more := true;
      hide LookRun;
      if pos < diskFilled {
        pos, more := LookAtDisk(cb, from, reading);
      }
      if more && pos < filled {
        pos, more := LookAtMemory(cb, pos, reading);
      }
      if more {
        LookPastEnd(State(), cb, pos, reading);
        char_ := EOF;
        more := Call(cb);
      }
      stopped := !more;
    }

    static lemma LookStep(s: Fifo.State, cb: Callback, pos: nat, reading: bool)
      requires pos < |s.b.contents|
      ensures var (t, more) := Deliver(ReadAt(s, pos, reading), cb, s.b.contents[pos]);
              LookRun(s, cb, pos, reading) == if more then LookRun(t, cb, pos + 1, reading) else (t, true)
    {
    }

    static lemma LookPastEnd(s: Fifo.State, cb: Callback, pos: nat, reading: bool)
      requires pos >= |s.b.contents|
      ensures LookRun(s, cb, pos, reading) == (Deliver(s, cb, EOF).0, !Deliver(s, cb, EOF).1)
    {
    }

    /** The first loop of look(), over the disk part. */
    method LookAtDisk(cb: Callback, from: nat, reading: bool) returns (pos: nat, more: bool)
      requires Valid() && from < diskFilled
      modifies this`char_, this`diskSought, this`read, this`count, this`flag, this`output
      ensures Valid()
      ensures more ==>
                pos == diskFilled && LookRun(State(), cb, pos, reading) == LookRun(old(State()), cb, from, reading)
      ensures !more ==> (State(), true) == LookRun(old(State()), cb, from, reading)
    {
      hide Deliver, ReadAt, Ring.Valid, LookRun, Fifo.Valid;
      pos, more := from, true;
      if diskSought != diskStart + pos { diskSought := diskStart + pos; }
      while pos < diskFilled
        invariant Valid()
        invariant pos <= diskFilled && diskSought == diskStart + pos
        invariant LookRun(State(), cb, pos, reading) == LookRun(old(State()), cb, from, reading)
      {
        hide Valid;
        more := DiskStep(cb, pos, reading);
        pos := pos + 1;
        if !more { return; }
      }
      more := true;
    }

    /** The body of that loop. */
    method DiskStep(cb: Callback, pos: nat, reading: bool) returns (more: bool)
      requires Valid() && pos < diskFilled && diskSought == diskStart + pos
      modifies this`char_, this`diskSought, this`read, this`count, this`flag, this`output
      ensures Valid() && diskSought == diskStart + pos + 1
      ensures LookRun(old(State()), cb, pos, reading)
              == if more then LookRun(State(), cb, pos + 1, reading) else (State(), true)
    {
      hide Deliver, ReadAt, Ring.Valid, LookRun, Fifo.Valid;
      LookStep(State(), cb, pos, reading);
      GetFromDisk(pos);
      hide Valid;
      more := Visit(cb, pos, reading);
    }

    /** getc() on the temporary file, which stands at the byte wanted. */
    method GetFromDisk(pos: nat)
      requires Valid() && pos < diskFilled && diskSought == diskStart + pos
      modifies this`char_, this`diskSought
      ensures Valid() && State() == old(State())
      ensures char_ == contents[pos] && diskSought == diskStart + pos + 1
    {
      ContentsAt(pos);
      char_ := disk[diskSought];
      diskSought := diskSought + 1;
    }

    /** The second loop of look(), around the ring. */
    method LookAtMemory(cb: Callback, from: nat, reading: bool) returns (pos: nat, more: bool)
      requires Valid() && diskFilled <= from < filled
      modifies this`char_, this`read, this`count, this`flag, this`output
      ensures Valid()
      ensures more ==> pos == filled && LookRun(State(), cb, pos, reading) == LookRun(old(State()), cb, from, reading)
      ensures !more ==> (State(), true) == LookRun(old(State()), cb, from, reading)
    {
      hide Deliver, ReadAt, Around, LookRun, Fifo.Valid;
      pos, more := from, true;
      var memPos := ring.nextEmpty + (pos - diskFilled);
      if memPos >= MEM_BUFFER_SIZE { memPos := memPos - MEM_BUFFER_SIZE; }
      while pos < filled
        invariant Valid()
        invariant diskFilled <= pos <= filled && memPos == Wrap(ring.nextEmpty + (pos - diskFilled))
        invariant LookRun(State(), cb, pos, reading) == LookRun(old(State()), cb, from, reading)
      {
        hide Valid;
        more := MemoryStep(cb, pos, memPos, reading);
        memPos := memPos + 1;
        if memPos == MEM_BUFFER_SIZE { memPos := 0; }
        pos := pos + 1;
        if !more { return; }
      }
      more := true;
    }

    /** The body of that loop. */
    method MemoryStep(cb: Callback, pos: nat, memPos: nat, reading: bool) returns (more: bool)
      requires Valid() && diskFilled <= pos < filled && memPos == Wrap(ring.nextEmpty + (pos - diskFilled))
      modifies this`char_, this`read, this`count, this`flag, this`output
      ensures Valid()
      ensures LookRun(old(State()), cb, pos, reading)
              == if more then LookRun(State(), cb, pos + 1, reading) else (State(), true)
    {
      hide Deliver, ReadAt, Around, LookRun, Fifo.Valid;
      ContentsAt(pos);
      LookStep(State(), cb, pos, reading);
      char_ := ring.mem[memPos];
      more := Visit(cb, pos, reading);
    }

    /** Move the read cursor past pos if it is there, then call the callback. */
    method Visit(cb: Callback, pos: nat, reading: bool) returns (more: bool)
      requires Valid() && pos < filled && char_ == contents[pos]
      modifies this`read, this`count, this`flag, this`output
      ensures Valid()
      ensures (State(), more) == Deliver(ReadAt(old(State()), pos, reading), cb, char_)
      ensures contents == old(contents)
    {
      hide Deliver;
      if reading && pos == read { read := read + 1; }
      more := Call(cb);
    }

    // ---------------------------------------------------------------- shunt_to_disk and fill

    /** Moving n bytes from the ring to the end of the file: the logical contents stay. */
    method ShuntToDisk(n: nat)
      requires Valid() && n <= ring.filled
      modifies this`diskSought, this`disk, this`diskFilled, ring
      ensures Valid()
      ensures State() == ShuntRun(old(State()), n)
      ensures ring.filled == old(ring.filled) - n
    {
      if diskSought != diskStart + diskFilled { diskSought := diskStart + diskFilled; }
      var left := n;
      while left > 0
        invariant Valid()
        invariant 0 <= left <= n && ring.filled == old(ring.filled) - (n - left) && left <= ring.filled
        invariant diskSought == diskStart + diskFilled
        invariant State() == ShuntRun(old(State()), n - left)
      {
        ShuntByte();
        left := left - 1;
      }
    }

    method ShuntByte()
      requires Valid() && ring.filled > 0 && diskSought == diskStart + diskFilled
      modifies this`diskSought, this`disk, this`diskFilled, ring
      ensures Valid() && diskSought == diskStart + diskFilled
      ensures State() == ShuntRun(old(State()), 1)
      ensures ring.filled == old(ring.filled) - 1
    {
      var b := ring.Take();
      MoveByte(disk, diskStart, b, ring.contents);
      disk := disk + [b];
      diskSought := diskSought + 1;
      diskFilled := diskFilled + 1;
    }

    static lemma MoveByte(disk: seq<Byte>, start: nat, b: Byte, rest: seq<Byte>)
      requires start <= |disk|
      ensures (disk + [b])[start..] + rest == disk[start..] + ([b] + rest)
    {
    }

    /** One byte of input onto the end of the ring. */
    method StoreInput()
      requires Valid() && !Full(State().b) && input != [] && char_ == input[0]
      modifies this`input, this`filled, this`contents, ring, ring.mem
      ensures Valid()
      ensures State() == TakeInput(old(State()))
      ensures |input| < |old(input)| && !atEof
    {
      input := input[1..];
      Seqs.Assoc(disk[diskStart..], ring.contents, [char_]);
      ring.Store(char_);
      filled := filled + 1;
      contents := contents + [char_];
    }

    /** The loop that makes room; false when the option says not to go on. */
    method EnsureRoom(whenFull: WhenFull) returns (room: bool)
      requires Valid()
      modifies this, ring
      ensures Valid()
      ensures room ==> MakeRoom(old(State()), whenFull) == Ready(State()) && !Full(State().b)
      ensures !room ==>
                State() == old(State()) && MakeRoom(State(), whenFull) == if whenFull == Fail then Exit else NoRoom
    {
      while ring.filled >= MEM_BUFFER_SIZE - MEM_BUFFER_MARGIN
        invariant Valid()
        invariant MakeRoom(State(), whenFull) == MakeRoom(old(State()), whenFull)
        invariant whenFull == Stop || whenFull == Fail ==> State() == old(State())
        decreases filled, ring.filled
      {
        match whenFull {
          case Echo | Discard => FreeByte(whenFull == Echo);
          case Shunt => ShuntToDisk(ring.filled - MEM_BUFFER_KEEP);
          case Stop => return false;
          case Fail => return false;
        }
      }
      room := true;
    }

    /** The echo, encode and discard options: all of the disk part goes, then one byte from memory. */
    method FreeByte(emits: bool)
      requires Valid() && Full(State().b)
      modifies this, ring
      ensures Valid()
      ensures var s := old(State());
              var t := DropAnd(s, s.b.disk + 1, emits);
              State() == t.(w := t.w.(count := s.b.contents[s.b.disk]))
    {
      ghost var s := State();
      hide DropAnd;
      if diskFilled > 0 {
        EmptySpan(s, Callback(UntilNoDiskBuffer, emits));
        var _ := Empty(Callback(UntilNoDiskBuffer, emits));
      } else {
        DropNothing(s, emits);
      }
      assert State() == DropAnd(s, s.b.disk, emits);
      OneCharRoom(s, State(), emits);
      var _ := Empty(Callback(OneChar, emits));
    }

    static lemma DropNothing(s: Fifo.State, emits: bool)
      ensures DropAnd(s, 0, emits) == s
    {
      Seqs.Unit(s.removed);
      Seqs.Unit(s.output);
    }

    /** empty() with a one-character callback, after the disk part is gone. */
    static lemma OneCharRoom(s: Fifo.State, t: Fifo.State, emits: bool)
      requires Fifo.Valid(s) && s.b.disk < |s.b.contents| && t == DropAnd(s, s.b.disk, emits)
      ensures var k := s.b.disk + 1;
              var u := DropAnd(s, k, emits);
              EmptyRun(t, Callback(OneChar, emits)) == (u.(w := u.w.(count := s.b.contents[k - 1])), true)
    {
      DropTwice(s, s.b.disk, s.b.disk + 1, emits);
      FirstDrop(t, emits);
    }

    method Fill(cb: Callback, whenFull: WhenFull) returns (outcome: Outcome)
      requires Valid()
      modifies this, ring, ring.mem
      ensures Valid()
      ensures outcome == Exiting <==> FillRun(old(State()), cb, whenFull) == Exited
      ensures outcome != Exiting ==> FillRun(old(State()), cb, whenFull) == Filled(State(), outcome == ByCallback)
    {
      var more;
      hide MakeRoom, Deliver, TakeInput, FillRun, Ring.Valid;
      FillStep(State(), cb, whenFull);
      if atEof {
        char_ := EOF;
        more := Call(cb);
        return if more then Otherwise else ByCallback;
      }
      while true
        invariant Valid() && !atEof
        invariant FillRun(State(), cb, whenFull) == FillRun(old(State()), cb, whenFull)
        decreases |input|
      {
        FillStep(State(), cb, whenFull);
        MakeRoomKeeps(State(), whenFull);
        var room := EnsureRoom(whenFull);
        if !room {
          return if whenFull == Fail then Exiting else Otherwise;
        }
        more := Receive(cb);
        if !more { return ByCallback; }
        if atEof { return Otherwise; }
      }
    }

    /** Read one byte, or find the end of the input, and call the callback. */
    method Receive(cb: Callback) returns (more: bool)
      requires Valid() && !atEof && !Full(State().b)
      modifies this`char_, this`input, this`atEof, this`filled, this`contents, this`count, this`flag, this`output
      modifies ring, ring.mem
      ensures Valid()
      ensures var s := old(State());
              if s.input == [] then (State(), more) == Deliver(s.(atEof := true), cb, EOF)
              else (State(), more) == Deliver(TakeInput(s), cb, s.input[0])
      ensures atEof <==> old(input) == []
      ensures !atEof ==> |input| < old(|input|)
    {
      hide Deliver, TakeInput, Ring.Valid;
      if input == [] {
        atEof := true;
        char_ := EOF;
      } else {
        char_ := input[0];
        StoreInput();
      }
      more := Call(cb);
    }

    // ---------------------------------------------------------------- decoding in place

    /**
     * decode_lookahead: the unread part of the buffer becomes its decoding. The program exits if
     * part of that lies on disk, and by the time it decodes the mark is behind the cursor.
     */
    method DecodeLookahead(decoder: Codec.Decoder) returns (ok: bool)
      requires Valid() && (marked ==> mark <= read)
      requires decoder.Valid() && Codec.SafeStart(decoder.Stage()) && decoder.buffer != ring.mem
      modifies this`filled, this`contents, ring, ring.mem, decoder, decoder.buffer
      ensures Valid() && decoder.Valid()
      ensures ok <==> read >= diskFilled
      ensures !ok ==> State() == old(State()) && decoder.Stage() == old(decoder.Stage())
      ensures ok ==>
                var s := old(State());
                var (stage, out) := Codec.DecodeRun(old(decoder.Stage()), s.b.contents[s.b.read..]);
                && State() == s.(b := s.b.(contents := s.b.contents[..s.b.read] + out))
                && decoder.Stage() == stage
    {
      if read < diskFilled { return false; }
      hide Codec.DecodeRun, Codec.SafeStart, Codec.StageOk, Ring.Valid, Fifo.Valid;
      Codec.SafeNeverOvertakes(decoder.Stage(), contents[read..]);
      DecodedValid(State(), Codec.DecodeRun(decoder.Stage(), contents[read..]).1);
      ok := true;
      DecodeMemory(decoder);
    }

    /** The ring's part of it, and the totals. */
    method DecodeMemory(decoder: Codec.Decoder)
      requires ring.Valid() && diskFilled <= read <= filled == ring.filled + diskFilled
      requires diskStart + diskFilled == |disk| && contents == disk[diskStart..] + ring.contents && filled == |contents|
      requires decoder.Valid() && Codec.SafeStart(decoder.Stage()) && decoder.buffer != ring.mem
      modifies this`filled, this`contents, ring, ring.mem, decoder, decoder.buffer
      ensures ring.Valid() && decoder.Valid()
      ensures filled == |contents| == ring.filled + diskFilled && contents == disk[diskStart..] + ring.contents
      ensures var (stage, out) := Codec.DecodeRun(old(decoder.Stage()), old(contents)[read..]);
              decoder.Stage() == stage && contents == old(contents)[..read] + out
    {
      hide Codec.DecodeRun, Codec.SafeStart, Codec.StageOk, Ring.Valid;
      ghost var front, back, from := disk[diskStart..], ring.contents, read - diskFilled;
      Seqs.DropFrontAcross(front, back, read);
      ghost var out := Codec.DecodeRun(decoder.Stage(), back[from..]).1;
      var before := ring.filled;
      ring.DecodeInPlace(read - diskFilled, decoder);
      filled := filled + ring.filled - before;
      contents := disk[diskStart..] + ring.contents;
      Seqs.Assoc(front, back[..from], out);
    }

    static lemma DecodedValid(s: Fifo.State, out: seq<Byte>)
      requires Fifo.Valid(s) && s.b.disk <= s.b.read && (s.b.marked ==> s.b.mark <= s.b.read)
      requires |out| <= |s.b.contents| - s.b.read
      ensures Fifo.Valid(s.(b := s.b.(contents := s.b.contents[..s.b.read] + out)))
    {
    }

    static lemma FillStep(s: Fifo.State, cb: Callback, whenFull: WhenFull)
      requires Fifo.Valid(s)
      ensures s.atEof ==> FillRun(s, cb, whenFull) == Filled(Deliver(s, cb, EOF).0, !Deliver(s, cb, EOF).1)
      ensures !s.atEof ==>
                match MakeRoom(s, whenFull)
                case NoRoom => FillRun(s, cb, whenFull) == Filled(s, false)
                case Exit => FillRun(s, cb, whenFull) == Exited
                case Ready(r) =>
                  if r.input == [] then
                    var (t, more) := Deliver(r.(atEof := true), cb, EOF);
                    FillRun(s, cb, whenFull) == Filled(t, !more)
                  else
                    var (t, more) := Deliver(TakeInput(r), cb, r.input[0]);
                    FillRun(s, cb, whenFull) ==
                      if more then (MakeRoomKeeps(s, whenFull); TakeInputKeeps(r); FillRun(t, cb, whenFull))
                      else Filled(t, true)
    {
    }
  }
}
