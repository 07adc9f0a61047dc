/**
 * Replacing ranges of the part of foot_filter's buffer that has been read, while it is written out:
 * make_replacements, echo_lookbehind and encode_lookbehind of contrib/foot_filter/foot_filter.c. Ranges
 * come in any order, and are counted from the start of the buffer, which moves with each of them; they
 * do not overlap.
 */
module Replacements {
  import opened Bytes
  import opened Fifo
  import Seqs
  import MailBuffer

  /** One entry of the three replacement arrays; a NULL string is no text. */
  datatype Replacement = Replacement(start: int, end: int, text: seq<Byte>)

  function Shift(r: Replacement, base: int): Replacement {
    Replacement(r.start - base, r.end - base, r.text)
  }

  function ShiftAll(list: seq<Replacement>, base: int): (l: seq<Replacement>)
    ensures |l| == |list| && forall k :: 0 <= k < |l| ==> l[k] == Shift(list[k], base)
  {
    seq(|list|, k requires 0 <= k < |list| => Shift(list[k], base))
  }

  predicate Apart(a: Replacement, b: Replacement) {
    a.end <= b.start || b.end <= a.start
  }

  /** Non-empty, pairwise disjoint ranges of the first `limit` bytes, in any order. */
  ghost predicate Fit(list: seq<Replacement>, limit: int) {
    && (forall k :: 0 <= k < |list| ==> 0 <= list[k].start < list[k].end <= limit)
    && (forall j, k :: 0 <= j < k < |list| ==> Apart(list[j], list[k]))
  }

  /** The first entry starting at a position, or -1. */
  function Find(list: seq<Replacement>, at: int): (k: int)
    ensures -1 <= k < |list|
    ensures k >= 0 ==> list[k].start == at
    ensures k < 0 ==> forall j :: 0 <= j < |list| ==> list[j].start != at
  {
    if list == [] then -1
    else if list[0].start == at then 0
    else
      var k := Find(list[1..], at);
      assert k < 0 ==> forall j :: 0 < j < |list| ==> list[j] == list[1..][j - 1];
      if k < 0 then -1 else k + 1
  }

  /** The text from position i on with every range replaced: positions are those of the original text. */
  function Splice(text: seq<Byte>, list: seq<Replacement>, i: nat): seq<Byte>
    requires i <= |text|
    decreases |text| - i
  {
    if i == |text| then []
    else
      var k := Find(list, i);
      if k >= 0 && i < list[k].end <= |text| then list[k].text + Splice(text, list, list[k].end)
      else [text[i]] + Splice(text, list, i + 1)
  }

  /** A byte that stays, or bytes that are replaced. */
  datatype Stretch = Stays(b: Byte) | Goes(old_: seq<Byte>, new_: seq<Byte>)

  function Before(s: Stretch): seq<Byte> {
    if s.Stays? then [s.b] else s.old_
  }

  function After(s: Stretch): seq<Byte> {
    if s.Stays? then [s.b] else s.new_
  }

  function AllBefore(ss: seq<Stretch>): seq<Byte> {
    if ss == [] then [] else Before(ss[0]) + AllBefore(ss[1..])
  }

  function AllAfter(ss: seq<Stretch>): seq<Byte> {
    if ss == [] then [] else After(ss[0]) + AllAfter(ss[1..])
  }

  /** The ranges to replace, if the first stretch begins at this position. */
  function Ranges(ss: seq<Stretch>, at: nat): (list: seq<Replacement>)
    ensures forall k :: 0 <= k < |list| ==> list[k].start >= at
  {
    if ss == [] then []
    else
      (if ss[0].Goes? then [Replacement(at, at + |ss[0].old_|, ss[0].new_)] else [])
      + Ranges(ss[1..], at + |Before(ss[0])|)
  }

  ghost predicate NoneEmpty(ss: seq<Stretch>) {
    forall k :: 0 <= k < |ss| && ss[k].Goes? ==> ss[k].old_ != []
  }

  /** From a position on, the list has exactly these ranges. */
  ghost predicate Has(list: seq<Replacement>, ranges: seq<Replacement>, at: nat) {
    (forall r :: r in ranges ==> r in list) && forall r :: r in list && r.start >= at ==> r in ranges
  }

  /** Replacing in a text put together of stretches, with its ranges in any order, replaces them one by one. */
  lemma SpliceOfStretches(ss: seq<Stretch>, list: seq<Replacement>)
    requires NoneEmpty(ss) && multiset(list) == multiset(Ranges(ss, 0))
    ensures Splice(AllBefore(ss), list, 0) == AllAfter(ss)
  {
    forall r ensures r in list <==> r in Ranges(ss, 0) {
      assert r in list <==> r in multiset(list);
      assert r in Ranges(ss, 0) <==> r in multiset(Ranges(ss, 0));
    }
    hide Splice, AllBefore, AllAfter, Ranges;
    SpliceFrom([], ss, list);
    Seqs.Unit(AllBefore(ss));
  }

  lemma {:induction false} SpliceFrom(front: seq<Byte>, ss: seq<Stretch>, list: seq<Replacement>)
    requires NoneEmpty(ss) && Has(list, Ranges(ss, |front|), |front|)
    ensures Splice(front + AllBefore(ss), list, |front|) == AllAfter(ss)
    decreases |ss|
  {
    if ss == [] {
      Seqs.Unit(front);
    } else {
      var front' := front + Before(ss[0]);
      FirstStretch(front, ss, list);
      SpliceFrom(front', ss[1..], list);
      Seqs.Assoc(front, Before(ss[0]), AllBefore(ss[1..]));
    }
  }

  /** The first stretch is passed over in one step. */
  lemma FirstStretch(front: seq<Byte>, ss: seq<Stretch>, list: seq<Replacement>)
    requires ss != [] && NoneEmpty(ss) && Has(list, Ranges(ss, |front|), |front|)
    ensures var text, at := front + AllBefore(ss), |front|;
            && NoneEmpty(ss[1..]) && |front + Before(ss[0])| <= |text|
            && Has(list, Ranges(ss[1..], |front + Before(ss[0])|), |front + Before(ss[0])|)
            && Splice(text, list, at) == After(ss[0]) + Splice(text, list, |front + Before(ss[0])|)
  {
    hide *;
    var text, at := front + AllBefore(ss), |front|;
    HasRest(ss, list, at);
    InText(front, ss);
    StartsHere(ss, list, at);
    PieceIs(text, list, at, ss[0]);
  }

  lemma InText(front: seq<Byte>, ss: seq<Stretch>)
    requires ss != [] && |Before(ss[0])| > 0
    ensures |front| + |Before(ss[0])| <= |front + AllBefore(ss)|
    ensures (front + AllBefore(ss))[|front|] == Before(ss[0])[0]
  {
  }

  lemma PieceIs(text: seq<Byte>, list: seq<Replacement>, at: nat, s: Stretch)
    requires at < at + |Before(s)| <= |text| && text[at] == Before(s)[0]
    requires var k := Find(list, at);
             if s.Goes? then k >= 0 && list[k] == Replacement(at, at + |s.old_|, s.new_) else k < 0
    ensures Splice(text, list, at) == After(s) + Splice(text, list, at + |Before(s)|)
  {
    hide Splice, Find;
    assert Piece(text, list, at) == (After(s), at + |Before(s)|);
  }

  lemma HasRest(ss: seq<Stretch>, list: seq<Replacement>, at: nat)
    requires ss != [] && NoneEmpty(ss) && Has(list, Ranges(ss, at), at)
    ensures var next := at + |Before(ss[0])|;
            at < next && NoneEmpty(ss[1..]) && Has(list, Ranges(ss[1..], next), next)
  {
    forall k | 0 <= k < |ss[1..]| && ss[1..][k].Goes? ensures ss[1..][k].old_ != [] {
      assert ss[1..][k] == ss[k + 1];
    }
    RangesNext(ss, at);
    hide Ranges;
  }

  lemma StartsHere(ss: seq<Stretch>, list: seq<Replacement>, at: nat)
    requires ss != [] && NoneEmpty(ss) && Has(list, Ranges(ss, at), at)
    ensures var k := Find(list, at);
            if ss[0].Goes? then k >= 0 && list[k] == Replacement(at, at + |ss[0].old_|, ss[0].new_) else k < 0
  {
    HasRest(ss, list, at);
    RangesNext(ss, at);
    hide Ranges, NoneEmpty;
    var k := Find(list, at);
    if k >= 0 {
      assert list[k] in Ranges(ss, at);
    }
    if ss[0].Goes? {
      assert Replacement(at, at + |ss[0].old_|, ss[0].new_) in Ranges(ss, at);
    }
  }

  lemma RangesNext(ss: seq<Stretch>, at: nat)
    requires ss != []
    ensures Ranges(ss, at) ==
              (if ss[0].Goes? then [Replacement(at, at + |ss[0].old_|, ss[0].new_)] else [])
              + Ranges(ss[1..], at + |Before(ss[0])|)
  {
  }

  lemma {:induction false} SpliceNothing(text: seq<Byte>, i: nat)
    requires i <= |text|
    ensures Splice(text, [], i) == text[i..]
    decreases |text| - i
  {
    if i < |text| {
      SpliceNothing(text, i + 1);
    }
  }

  /** Up to the first start, the text is copied. */
  lemma {:induction false} SpliceCopies(text: seq<Byte>, list: seq<Replacement>, i: nat, m: nat)
    requires i <= m <= |text|
    requires forall k :: 0 <= k < |list| ==> list[k].start >= m
    ensures Splice(text, list, i) == text[i..m] + Splice(text, list, m)
    decreases m - i
  {
    if i == m {
      Seqs.Unit(Splice(text, list, m));
    } else {
      SpliceCopies(text, list, i + 1, m);
      assert text[i..m] == [text[i]] + text[i + 1..m];
      Seqs.Assoc([text[i]], text[i + 1..m], Splice(text, list, m));
    }
  }

  /** Both lists have the same entries at or behind `base`, one of them counted from there. */
  ghost predicate Rebased(list: seq<Replacement>, list': seq<Replacement>, base: int) {
    && (forall j :: 0 <= j < |list| && list[j].start >= base ==> Shift(list[j], base) in list')
    && (forall j :: 0 <= j < |list'| ==> exists k :: 0 <= k < |list| && list'[j] == Shift(list[k], base))
  }

  ghost predicate DistinctStarts(list: seq<Replacement>) {
    forall j, k :: 0 <= j < |list| && 0 <= k < |list| && list[j].start == list[k].start ==> list[j] == list[k]
  }

  /** The two lists answer alike for positions behind `base`. */
  lemma FindRebased(list: seq<Replacement>, list': seq<Replacement>, base: nat, i: nat)
    requires base <= i && Rebased(list, list', base) && DistinctStarts(list)
    ensures var k, k' := Find(list, i), Find(list', i - base);
            && (k >= 0 <==> k' >= 0)
            && (k >= 0 ==> list'[k'] == Shift(list[k], base))
  {
    hide Find;
    var k, k' := Find(list, i), Find(list', i - base);
    if k >= 0 {
      assert Shift(list[k], base) in list';
    }
    if k' >= 0 {
      var j :| 0 <= j < |list| && list'[k'] == Shift(list[j], base);
      assert list[j].start == i;
    }
  }

  /** What Splice writes at i, and where it goes on. */
  function Piece(text: seq<Byte>, list: seq<Replacement>, i: nat): (p: (seq<Byte>, nat))
    requires i < |text|
    ensures i < p.1 <= |text| && Splice(text, list, i) == p.0 + Splice(text, list, p.1)
  {
    var k := Find(list, i);
    if k >= 0 && i < list[k].end <= |text| then (list[k].text, list[k].end) else ([text[i]], i + 1)
  }

  lemma PieceRebased(text: seq<Byte>, rest: seq<Byte>, list: seq<Replacement>, list': seq<Replacement>, base: nat,
                     i: nat)
    requires base <= i < |text| && rest == text[base..]
    requires Rebased(list, list', base) && DistinctStarts(list)
    ensures |rest| == |text| - base
    ensures var (p, next) := Piece(text, list, i);
            Piece(rest, list', i - base) == (p, next - base)
  {
    hide Find, Rebased, DistinctStarts, Splice;
    FindRebased(list, list', base, i);
    assert rest[i - base] == text[i];
  }

  /** Positions counted from a new start, in both the text and the list, say the same. */
  lemma {:induction false} SpliceRebased(text: seq<Byte>, rest: seq<Byte>, list: seq<Replacement>,
                                         list': seq<Replacement>, base: nat, i: nat)
    requires base <= i <= |text| && rest == text[base..]
    requires Rebased(list, list', base) && DistinctStarts(list)
    ensures Splice(text, list, i) == Splice(rest, list', i - base)
    decreases |text| - i
  {
    if i < |text| {
      PieceRebased(text, rest, list, list', base, i);
      hide *;
      var (p, next) := Piece(text, list, i);
      SpliceRebased(text, rest, list, list', base, next);
      assert Splice(rest, list', i - base) == p + Splice(rest, list', next - base);
    }
  }

  /** What stands behind every range is copied. */
  lemma {:induction false} SpliceSuffix(text: seq<Byte>, list: seq<Replacement>, limit: nat, i: nat)
    requires i <= limit <= |text| && Fit(list, limit)
    ensures Splice(text, list, i) == Splice(text[..limit], list, i) + text[limit..]
    decreases |text| - i
  {
    var front := text[..limit];
    if i == limit {
      SpliceCopies(text, [], i, |text|);
      SpliceBehind(text, list, limit);
      Seqs.Unit(text[limit..]);
    } else {
      var k := Find(list, i);
      if k >= 0 {
        SpliceSuffix(text, list, limit, list[k].end);
        Seqs.Assoc(list[k].text, Splice(front, list, list[k].end), text[limit..]);
      } else {
        SpliceSuffix(text, list, limit, i + 1);
        Seqs.Assoc([text[i]], Splice(front, list, i + 1), text[limit..]);
      }
    }
  }

  lemma {:induction false} SpliceBehind(text: seq<Byte>, list: seq<Replacement>, i: nat)
    requires i <= |text|
    requires forall k :: 0 <= k < |list| ==> list[k].start < i
    ensures Splice(text, list, i) == text[i..]
    decreases |text| - i
  {
    if i < |text| {
      SpliceBehind(text, list, i + 1);
    }
  }

  function Without(list: seq<Replacement>, k: nat): seq<Replacement>
    requires k < |list|
  {
    list[..k] + list[k + 1..]
  }

  /** One round: copy to the first range, write its text, go on behind it with everything rebased. */
  lemma SpliceRound(text: seq<Byte>, list: seq<Replacement>, limit: nat, r: nat)
    requires limit <= |text| && Fit(list, limit) && r < |list|
    requires forall k :: 0 <= k < |list| ==> list[r].start <= list[k].start
    ensures var list' := ShiftAll(Without(list, r), list[r].end);
            && Fit(list', limit - list[r].end)
            && Splice(text, list, 0) ==
               text[..list[r].start] + list[r].text + Splice(text[list[r].end..], list', 0)
  {
    var m, e := list[r].start, list[r].end;
    var rest := Without(list, r);
    var list' := ShiftAll(rest, e);
    RestBehind(list, limit, r);
    SpliceCopies(text, list, 0, m);
    var k := Find(list, m);
    StartsDistinct(list, limit);
    assert list[k] == list[r];
    WithoutRebased(list, r, e);
    SpliceRebased(text, text[e..], list, list', e, e);
    Seqs.Assoc(text[..m], list[r].text, Splice(text[e..], list', 0));
  }

  lemma StartsDistinct(list: seq<Replacement>, limit: int)
    requires Fit(list, limit)
    ensures DistinctStarts(list)
  {
    forall j, k | 0 <= j < k < |list|
      ensures list[j].start != list[k].start
    {
      assert Apart(list[j], list[k]);
    }
  }

  lemma FitSome(list: seq<Replacement>, limit: int)
    requires Fit(list, limit) && list != []
    ensures limit > 0
  {
    assert list[0].start < list[0].end;
  }

  lemma RestBehind(list: seq<Replacement>, limit: int, r: nat)
    requires Fit(list, limit) && r < |list|
    requires forall k :: 0 <= k < |list| ==> list[r].start <= list[k].start
    ensures forall k :: 0 <= k < |list| && k != r ==> list[r].end <= list[k].start
    ensures Fit(ShiftAll(Without(list, r), list[r].end), limit - list[r].end)
  {
    forall k | 0 <= k < |list| && k != r
      ensures list[r].end <= list[k].start
    {
      assert if k < r then Apart(list[k], list[r]) else Apart(list[r], list[k]);
    }
    var rest := Without(list, r);
    forall j, k | 0 <= j < k < |rest|
      ensures Apart(Shift(rest[j], list[r].end), Shift(rest[k], list[r].end))
    {
      var j', k' := if j < r then j else j + 1, if k < r then k else k + 1;
      assert rest[j] == list[j'] && rest[k] == list[k'] && Apart(list[j'], list[k']);
    }
    forall k | 0 <= k < |rest|
      ensures list[r].end <= rest[k].start < rest[k].end <= limit
    {
      assert rest[k] == list[if k < r then k else k + 1];
    }
  }

  lemma WithoutRebased(list: seq<Replacement>, r: nat, base: int)
    requires r < |list| && list[r].start < base
    ensures Rebased(list, ShiftAll(Without(list, r), base), base)
  {
    var rest := Without(list, r);
    var list' := ShiftAll(rest, base);
    forall j | 0 <= j < |list| && list[j].start >= base
      ensures Shift(list[j], base) in list'
    {
      var j' := if j < r then j else j - 1;
      assert rest[j'] == list[j] && list'[j'] == Shift(rest[j'], base);
    }
    forall j | 0 <= j < |list'|
      ensures exists k :: 0 <= k < |list| && list'[j] == Shift(list[k], base)
    {
      assert rest[j] == list[if j < r then j else j + 1];
    }
  }

  class Replacer {
    const buffer: MailBuffer.MailBuffer
    var list: seq<Replacement>

    ghost predicate Valid()
      reads this, buffer, buffer.ring, buffer.ring.mem
    {
      buffer.Valid() && Fit(list, buffer.read)
    }

    constructor (buffer: MailBuffer.MailBuffer)
      ensures this.buffer == buffer && list == []
    {
      this.buffer := buffer;
      list := [];
    }

    /** Output so far, followed by what the buffer will become. */
    ghost function Total(): seq<Byte>
      reads this, buffer
    {
      buffer.output + Splice(buffer.contents, list, 0)
    }

    /** What stays true of the buffer while bytes leave it at the front. */
    static ghost predicate Forward(s: Fifo.State, t: Fifo.State) {
      && |t.b.contents| <= |s.b.contents|
      && var k := |s.b.contents| - |t.b.contents|;
      && k <= s.b.read && t.b.read == s.b.read - k
      && t.b.contents == s.b.contents[k..]
      && t.removed == s.removed + s.b.contents[..k]
      && t.input == s.input && t.atEof == s.atEof
    }

    static lemma ForwardTwice(s: Fifo.State, t: Fifo.State, u: Fifo.State)
      requires s.b.read <= |s.b.contents| && Forward(s, t) && Forward(t, u)
      ensures Forward(s, u)
    {
      var j, k := |s.b.contents| - |t.b.contents|, |t.b.contents| - |u.b.contents|;
      assert s.b.contents[j..][k..] == s.b.contents[j + k..];
      assert s.b.contents[..j] + s.b.contents[j..][..k] == s.b.contents[..j + k];
      Seqs.Assoc(s.removed, s.b.contents[..j], s.b.contents[j..][..k]);
    }

    /** The search of make_replacements for the entry that starts first. */
    method FirstEntry() returns (minr: nat)
      requires list != []
      modifies buffer`marked, buffer`mark
      requires forall k :: 0 <= k < |list| ==> list[k].start >= 0
      ensures minr < |list| && forall k :: 0 <= k < |list| ==> list[minr].start <= list[k].start
      ensures buffer.marked && buffer.mark == list[minr].start
    {
      minr := 0;
      buffer.marked := false;
      var r := 0;
      while r < |list|
        invariant 0 <= r <= |list|
        invariant r == 0 ==> !buffer.marked && minr == 0
        invariant r > 0 ==> buffer.marked && minr < r && buffer.mark == list[minr].start
        invariant forall k :: 0 <= k < r ==> list[minr].start <= list[k].start
      {
        if !buffer.marked || list[r].start < buffer.mark {
          buffer.marked := true;
          minr := r;
          buffer.mark := list[r].start;
        }
        r := r + 1;
      }
    }

    /** Every offset is counted from a new start of the buffer. */
    method Rebase(base: nat)
      modifies this`list
      ensures list == ShiftAll(old(list), base)
    {
      var r := 0;
      while r < |list|
        invariant 0 <= r <= |list| == |old(list)|
        invariant forall k :: 0 <= k < r ==> list[k] == Shift(old(list)[k], base)
        invariant forall k :: r <= k < |list| ==> list[k] == old(list)[k]
      {
        list := list[r := Shift(list[r], base)];
        r := r + 1;
      }
    }

    /** Passing a replacement's text to the one-character callback. */
    method EmitText(text: seq<Byte>)
      requires buffer.Valid()
      modifies buffer`char_, buffer`count, buffer`flag, buffer`output
      ensures buffer.Valid()
      ensures buffer.State() == old(buffer.State()).(w := buffer.State().w, output := old(buffer.output) + text)
    {
      var i := 0;
      Seqs.Unit(buffer.output);
      assert text[..0] == [];
      while i < |text|
        invariant 0 <= i <= |text|
        invariant buffer.Valid()
        invariant buffer.State()
                  == old(buffer.State()).(w := buffer.State().w, output := old(buffer.output) + text[..i])
      {
        buffer.char_ := text[i];
        var _ := buffer.Call(Callback(OneChar, true));
        Seqs.Snoc(text[..i + 1]);
        assert text[..i + 1][..i] == text[..i];
        Seqs.Assoc(old(buffer.output), text[..i], [text[i]]);
        i := i + 1;
      }
      assert text[..i] == text;
    }

    /** Empty up to the mark, which is ahead of the start of the buffer or at it. */
    method EmptyToMark(emits: bool)
      requires buffer.Valid() && buffer.marked && buffer.mark <= buffer.read
      modifies buffer, buffer.ring
      ensures buffer.Valid()
      ensures buffer.State() == DropAnd(old(buffer.State()), old(buffer.mark), emits)
    {
      if buffer.mark > 0 {
        EmptySpan(buffer.State(), Callback(UntilStartMarked, emits));
        var _ := buffer.Empty(Callback(UntilStartMarked, emits));
      } else {
        MailBuffer.MailBuffer.DropNothing(buffer.State(), emits);
      }
    }

    /** The first half of a pass: find the range that starts first and copy what is ahead of it. */
    method CopyAhead() returns (minr: nat)
      requires Valid() && list != []
      modifies this`list, buffer, buffer.ring
      ensures minr < |list| == |old(list)|
      ensures forall k :: 0 <= k < |list| ==> old(list)[minr].start <= old(list)[k].start
      ensures list == ShiftAll(old(list), old(list)[minr].start)
      ensures var m := old(list)[minr].start;
              && 0 <= m < old(list)[minr].end <= old(buffer.read)
              && buffer.Valid()
              && buffer.State()
                 == DropAnd(old(buffer.State()).(b := old(buffer.State()).b.(marked := true, mark := m)), m, true)
              && buffer.read == old(buffer.read) - m
    {
      ghost var s, all := buffer.State(), list;
      minr := FirstEntry();
      assert 0 <= all[minr].start < all[minr].end <= buffer.read;
      hide Fit, DropAnd;
      Rebase(buffer.mark);
      EmptyToMark(true);
      DropLeaves(s.(b := s.b.(marked := true, mark := all[minr].start)), all[minr].start, true);
    }

    /** One pass of the loop of make_replacements. */
    method Round()
      requires Valid() && list != []
      modifies this`list, buffer, buffer.ring
      ensures Valid() && |list| == |old(list)| - 1
      ensures Total() == old(Total())
      ensures Forward(old(buffer.State()), buffer.State())
    {
      ghost var s, all := buffer.State(), list;
      hide Splice, Fit, DropAnd, Fifo.Valid;
      var minr := CopyAhead();
      ghost var s1 := buffer.State();
      var skip := list[minr].end;
      WriteAndSkip(list[minr].text, skip);
      TwoDrops(s, all[minr].start, all[minr].end, all[minr].text, s1, buffer.State());
      Rebase(skip);
      RemoveEntry(minr);
      WithoutRebased(all, minr, all[minr].start, all[minr].end);
      RoundAddsUp(s, all, minr, buffer.State(), list);
    }

    /** The second half: write the text, drop the range. */
    method WriteAndSkip(text: seq<Byte>, end: nat)
      requires buffer.Valid() && end <= buffer.read
      modifies buffer, buffer.ring
      ensures buffer.Valid()
      ensures Skipped(old(buffer.State()), buffer.State(), end, text)
    {
      ghost var s := buffer.State();
      EmitText(text);
      buffer.marked := true;
      buffer.mark := end;
      hide DropAnd;
      EmptyToMark(false);
      buffer.marked := false;
    }

    static ghost predicate Skipped(s: Fifo.State, t: Fifo.State, k: nat, text: seq<Byte>)
    {
      && k <= |s.b.contents|
      && var u := DropAnd(s.(b := s.b.(marked := true, mark := k), w := t.w, output := s.output + text), k, false);
      && t == u.(b := u.b.(marked := false))
    }

    static lemma DropLeaves(s: Fifo.State, k: nat, emits: bool)
      requires k <= |s.b.contents|
      ensures DropAnd(s, k, emits).b.read == Minus(s.b.read, k)
    {
    }

    /** The last loop of a pass: later entries move down over the one that is done. */
    method RemoveEntry(minr: nat)
      requires minr < |list|
      modifies this`list
      ensures list == Without(old(list), minr)
    {
      ghost var whole := list;
      var r := minr;
      while r < |list| - 1
        invariant minr <= r < |list| == |whole|
        invariant forall k :: 0 <= k < minr || r <= k < |list| ==> list[k] == whole[k]
        invariant forall k :: minr <= k < r ==> list[k] == whole[k + 1]
      {
        list := list[r := list[r + 1]];
        r := r + 1;
      }
      list := list[..|list| - 1];
    }

    /** Twice rebased, and without an entry. */
    static lemma WithoutRebased(all: seq<Replacement>, k: nat, m: int, e: int)
      requires k < |all|
      ensures Without(ShiftAll(ShiftAll(all, m), e - m), k) == ShiftAll(Without(all, k), e)
    {
      var whole := ShiftAll(ShiftAll(all, m), e - m);
      assert forall j :: 0 <= j < |all| ==> whole[j] == Shift(all[j], e);
      hide Shift;
    }

    /** How one pass changed the buffer, in terms of the first range [m, e) and its text. */
    static ghost predicate Passed(s: Fifo.State, t: Fifo.State, m: nat, e: nat, text: seq<Byte>)
    {
      && m <= e <= |s.b.contents|
      && t.b.contents == s.b.contents[e..]
      && t.b.read == Minus(s.b.read, e)
      && t.removed == s.removed + s.b.contents[..e]
      && t.output == s.output + (s.b.contents[..m] + text)
      && t.input == s.input && t.atEof == s.atEof
    }

    static lemma TwoDrops(s: Fifo.State, m: nat, e: nat, text: seq<Byte>, s1: Fifo.State, t: Fifo.State)
      requires m <= e <= |s.b.contents|
      requires s1 == DropAnd(s.(b := s.b.(marked := true, mark := m)), m, true)
      requires Skipped(s1, t, e - m, text)
      ensures Passed(s, t, m, e, text)
    {
      assert s.b.contents[m..][e - m..] == s.b.contents[e..];
      assert s.b.contents[..m] + s.b.contents[m..][..e - m] == s.b.contents[..e];
      Seqs.Assoc(s.removed, s.b.contents[..m], s.b.contents[m..][..e - m]);
      Seqs.Assoc(s.output, s.b.contents[..m], text);
    }

    static lemma RoundAddsUp(s: Fifo.State, all: seq<Replacement>, r: nat, t: Fifo.State, list: seq<Replacement>)
      requires s.b.read <= |s.b.contents| && Fit(all, s.b.read) && r < |all|
      requires forall k :: 0 <= k < |all| ==> all[r].start <= all[k].start
      requires Passed(s, t, all[r].start, all[r].end, all[r].text)
      requires list == ShiftAll(Without(all, r), all[r].end)
      ensures Fit(list, t.b.read)
      ensures t.output + Splice(t.b.contents, list, 0) == s.output + Splice(s.b.contents, all, 0)
      ensures Forward(s, t)
    {
      var m, e := all[r].start, all[r].end;
      SpliceRound(s.b.contents, all, s.b.read, r);
      hide Fit, Splice;
      Seqs.Assoc(s.output, s.b.contents[..m] + all[r].text, Splice(t.b.contents, list, 0));
    }

    /** make_replacements: what was written and what is left add up to the text with every range replaced. */
    method MakeReplacements()
      requires Valid()
      modifies this`list, buffer, buffer.ring
      ensures Valid() && list == []
      ensures buffer.output + buffer.contents == old(Total())
      ensures Forward(old(buffer.State()), buffer.State())
    {
      SpliceNothing(buffer.contents, 0);
      if buffer.read == 0 {
        Seqs.Unit(buffer.removed);
        if list != [] {
          FitSome(list, buffer.read);
          assert false;
        }
        return;
      }
      buffer.marked := false;
      Seqs.Unit(buffer.removed);
      while |list| > 0
        invariant Valid()
        invariant Total() == old(Total())
        invariant Forward(old(buffer.State()), buffer.State())
        decreases |list|
      {
        ghost var t := buffer.State();
        Round();
        ForwardTwice(old(buffer.State()), t, buffer.State());
      }
      SpliceNothing(buffer.contents, 0);
    }

    /** echo_lookbehind and encode_lookbehind: everything read leaves, with its ranges replaced. */
    method FlushLookbehind()
      requires Valid()
      modifies this`list, buffer, buffer.ring
      ensures Valid() && list == [] && buffer.read == 0
      ensures buffer.output == old(buffer.output + Splice(buffer.contents[..buffer.read], list, 0))
      ensures buffer.contents == old(buffer.contents[buffer.read..])
      ensures buffer.removed == old(buffer.removed + buffer.contents[..buffer.read])
    {
      ghost var s := buffer.State();
      ghost var spliced := Splice(s.b.contents[..s.b.read], list, 0);
      SpliceSuffix(s.b.contents, list, s.b.read, 0);
      MakeReplacements();
      hide Splice, Forward, MailBuffer.MailBuffer.Valid;
      assert buffer.output + buffer.contents == s.output + (spliced + s.b.contents[s.b.read..]);
      FlushRest(s, spliced);
    }

    /** What has been read of the spliced text is all there is. */
    method FlushRest(ghost s: Fifo.State, ghost spliced: seq<Byte>)
      requires buffer.Valid() && Fifo.Valid(s) && Forward(s, buffer.State())
      requires buffer.output + buffer.contents == s.output + (spliced + s.b.contents[s.b.read..])
      modifies buffer, buffer.ring
      ensures buffer.Valid() && buffer.read == 0
      ensures buffer.output == s.output + spliced && buffer.contents == s.b.contents[s.b.read..]
      ensures buffer.removed == s.removed + s.b.contents[..s.b.read]
    {
      hide Fifo.Valid, Forward, MailBuffer.Ring.Valid;
      FlushAddsUp(s, buffer.State(), spliced);
      EmptyRead();
    }

    /** Everything that has been read is removed and passed on. */
    method EmptyRead()
      requires buffer.Valid()
      modifies buffer, buffer.ring
      ensures buffer.Valid() && buffer.State() == DropAnd(old(buffer.State()), old(buffer.read), true)
    {
      ghost var t := buffer.State();
      if buffer.read > 0 {
        EmptySpan(t, Callback(UntilNoLookbehind, true));
        var _ := buffer.Empty(Callback(UntilNoLookbehind, true));
      } else {
        MailBuffer.MailBuffer.DropNothing(t, true);
      }
    }

    static lemma FlushAddsUp(s: Fifo.State, t: Fifo.State, spliced: seq<Byte>)
      requires Fifo.Valid(s) && Fifo.Valid(t) && Forward(s, t)
      requires t.output + t.b.contents == s.output + (spliced + s.b.contents[s.b.read..])
      ensures var u := DropAnd(t, t.b.read, true);
              && u.output == s.output + spliced
              && u.b.contents == s.b.contents[s.b.read..]
              && u.removed == s.removed + s.b.contents[..s.b.read]
    {
      var k := |s.b.contents| - |t.b.contents|;
      var rest := s.b.contents[s.b.read..];
      assert s.b.contents[k..][t.b.read..] == rest;
      assert s.b.contents[..k] + s.b.contents[k..][..t.b.read] == s.b.contents[..s.b.read];
      Seqs.Assoc(s.removed, s.b.contents[..k], s.b.contents[k..][..t.b.read]);
      Seqs.Rejoin(t.b.contents, t.b.read);
      Seqs.Assoc(t.output, t.b.contents[..t.b.read], rest);
      Seqs.Assoc(s.output, spliced, rest);
      SameFront(t.output + t.b.contents[..t.b.read], s.output + spliced, rest);
    }

    static lemma SameFront(a: seq<Byte>, b: seq<Byte>, rest: seq<Byte>)
      requires a + rest == b + rest
      ensures a == b
    {
      assert a == (a + rest)[..|a + rest| - |rest|];
    }
  }
}
