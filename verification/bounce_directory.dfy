/**
 * The files on which src/mlmmj-bounce.c, src/mlmmj-maintd.c and src/mlmmj-send.c run BounceMachine. Names are
 * free of '/' and lower-case, as the callers make them.
 */
module BounceDirectory {
  import opened BounceMachine
  import Decimal
  import Subscription
  import opened Wrappers
  import Seqs

  // ---------------------------------------------------------------- names

  predicate EndsWith(s: string, suffix: string) {
    |s| >= |suffix| && s[|s| - |suffix|..] == suffix
  }

  /** The name of a record: neither that of a probe file nor that of a saved message, with '=' for the '@'. */
  predicate IsName(n: string) {
    !EndsWith(n, "-probe") && !EndsWith(n, ".lastmsg") && '=' in n && '@' !in n
  }

  function ProbeFile(n: string): (f: string)
    ensures EndsWith(f, "-probe") && Base(f) == n
  {
    n + "-probe"
  }

  /** The record a probe file belongs to. */
  function Base(f: string): string {
    if |f| >= 6 then f[..|f| - 6] else ""
  }

  function LastMsg(n: string): (f: string)
    ensures EndsWith(f, ".lastmsg")
  {
    n + ".lastmsg"
  }

  lemma LastMsgIsNoProbe(n: string)
    ensures !EndsWith(LastMsg(n), "-probe")
  {
    var f := LastMsg(n);
    assert f[|f| - 1] == 'g' && f[|f| - 6..][5] == f[|f| - 1];
  }

  function FirstIndex(s: string, c: char): (i: nat)
    ensures i <= |s| && c !in s[..i] && (i < |s| ==> s[i] == c)
  {
    if s == "" || s[0] == c then 0 else 1 + FirstIndex(s[1..], c)
  }

  function LastIndex(s: string, c: char): (i: nat)
    requires c in s
    ensures i < |s| && s[i] == c && c !in s[i + 1..]
  {
    if s[|s| - 1] == c then |s| - 1 else LastIndex(s[..|s| - 1], c)
  }

  /** The address that mlmmj-bounce looks up among the subscribers, and probes. */
  function BouncingAddress(n: string): string
    requires '=' in n
  {
    n[LastIndex(n, '=') := '@']
  }

  /** The address that unsub_bouncers unsubscribes. */
  function UnsubAddress(n: string): string
    requires '=' in n
  {
    n[FirstIndex(n, '=') := '@']
  }

  /** They are the same exactly if the name has a single '='. */
  lemma UnsubAddressIff(n: string)
    requires '=' in n
    ensures UnsubAddress(n) == BouncingAddress(n)
            <==> forall i, j :: 0 <= i < j < |n| && n[i] == '=' ==> n[j] != '='
  {
    var f, l := FirstIndex(n, '='), LastIndex(n, '=');
    assert forall k :: 0 <= k < f ==> n[k] == n[..f][k] != '=';
    assert forall k :: l < k < |n| ==> n[k] == n[l + 1..][k - l - 1] != '=';
    if f != l {
      assert UnsubAddress(n)[f] == '@' && BouncingAddress(n)[f] == '=';
    }
  }

  // ---------------------------------------------------------------- contents

  function FirstLine(s: string): string {
    s[..FirstIndex(s, '\n')]
  }

  /** What snprintf leaves of a text in a buffer, in front of the NUL. */
  function Snprintf(size: nat, text: string): (s: string)
    requires size > 0
    ensures |s| < size
  {
    if |text| < size then text else text[..size - 1]
  }

  /** The room for number, time and comment sign, without that for the text ctime_r puts behind them. */
  const HEADROOM := 20 + 1 + 20 + 28 + 1 - 26

  function Stamp(number: string, t: nat): string {
    number + (":" + (Decimal.Print(t) + " # "))
  }

  /** What mlmmj-bounce appends to a record. */
  function RecordLine(number: string, t: nat, ctime: string): string {
    Snprintf(HEADROOM, Stamp(number, t)) + (ctime + "\n")
  }

  /** The time of the first bounce, as unsub_bouncers reads it from a record. */
  function FirstBounce(s: string): Option<int> {
    var line := FirstLine(s);
    var hash := FirstIndex(line, '#');
    if hash == |line| then None
    else
      var colon := FirstIndex(line[..hash], ':');
      if colon == hash then None else Some(Decimal.Strtol(line[..hash][colon + 1..]))
  }

  /** A message number: what does not get in the way of reading the time behind it. */
  predicate IsNumber(s: string) {
    ':' !in s && '#' !in s && '\n' !in s
  }

  /** The text of a time, without its newline. */
  predicate IsCtime(s: string) {
    '#' !in s && '\n' !in s
  }

  /** With a number and time of these lengths the comment sign stays within the buffer. */
  predicate Fits(number: string, digits: nat) {
    |number| + digits <= 40
  }

  lemma {:induction false} IndexAt(s: string, c: char, i: nat)
    requires i <= |s| && c !in s[..i] && (i < |s| ==> s[i] == c)
    ensures FirstIndex(s, c) == i
    decreases i
  {
    if i > 0 {
      assert s[..i][0] == s[0] && s[1..][..i - 1] == s[..i][1..];
      IndexAt(s[1..], c, i - 1);
    }
  }

  lemma IndexAfter(a: string, c: char, rest: string)
    requires c !in a
    ensures FirstIndex(a + ([c] + rest), c) == |a|
    ensures (a + ([c] + rest))[..|a|] == a && (a + ([c] + rest))[|a| + 1..] == rest
  {
    IndexAt(a + ([c] + rest), c, |a|);
  }

  /** What maintenance reads from the part of a line in front of the comment sign. */
  function TimeIn(s: string): Option<int> {
    var colon := FirstIndex(s, ':');
    if colon == |s| then None else Some(Decimal.Strtol(s[colon + 1..]))
  }

  /** The first comment sign of a record is in its first line. */
  lemma SignAt(s: string, h: nat)
    requires h < |s| && s[h] == '#' && '#' !in s[..h] && '\n' !in s[..h]
    ensures FirstBounce(s) == TimeIn(s[..h])
  {
    var n := FirstIndex(s, '\n');
    assert forall i :: 0 <= i < h ==> s[i] == s[..h][i] != '\n';
    assert h < n;
    var line := FirstLine(s);
    assert line[..h] == s[..h] && line[h] == '#';
    IndexAt(line, '#', h);
  }

  /** A first line without a comment sign. */
  lemma NoSign(line: string, more: string)
    requires '\n' !in line && '#' !in line
    ensures FirstBounce(line + ("\n" + more)) == None
  {
    IndexAfter(line, '\n', more);
    IndexAt(line, '#', |line|);
  }

  /** The comment sign of a stamp, and what snprintf leaves of it. */
  lemma StampSign(number: string, t: nat)
    ensures var h, stamp := |number| + |Decimal.Print(t)| + 2, Stamp(number, t);
            && |stamp| == h + 2 && stamp[..h] == number + (":" + (Decimal.Print(t) + " ")) && stamp[h] == '#'
            && (Fits(number, |Decimal.Print(t)|) <==> h < |Snprintf(HEADROOM, stamp)|)
            && Snprintf(HEADROOM, stamp) <= stamp
  {
    var p := Decimal.Print(t);
    assert Stamp(number, t) == number + (":" + (p + " ")) + "# ";
  }

  /** The time written with the first bounce is the time read, as long as the comment sign is not cut off. */
  lemma FirstBounceOfRecord(number: string, t: nat, ctime: string, more: string)
    requires IsNumber(number) && IsCtime(ctime)
    ensures FirstBounce(RecordLine(number, t, ctime) + more)
            == if Fits(number, |Decimal.Print(t)|) then Some(t) else None
  {
    var p := Decimal.Print(t);
    var before, cut := number + (":" + (p + " ")), Snprintf(HEADROOM, Stamp(number, t));
    StampSign(number, t);
    NotIn(number, p);
    var s, h := RecordLine(number, t, ctime) + more, |before|;
    assert s == cut + ctime + ("\n" + more);
    hide *;
    if h < |cut| {
      SignFound(before, cut, s);
      TimeFound(number, t);
    } else {
      assert cut == before[..|cut|];
      SignCutOff(before, cut, ctime);
      NoSign(cut + ctime, more);
    }
  }

  lemma SignFound(before: string, cut: string, s: string)
    requires '#' !in before && '\n' !in before && cut <= s && before < cut && cut[|before|] == '#'
    ensures FirstBounce(s) == TimeIn(before)
  {
    hide FirstBounce, TimeIn;
    assert s[..|before|] == before && s[|before|] == '#';
    SignAt(s, |before|);
  }

  lemma SignCutOff(before: string, cut: string, ctime: string)
    requires '#' !in before && '\n' !in before && cut <= before && IsCtime(ctime)
    ensures '#' !in cut + ctime && '\n' !in cut + ctime
  {
  }

  lemma TimeFound(number: string, t: nat)
    requires IsNumber(number)
    ensures TimeIn(number + (":" + (Decimal.Print(t) + " "))) == Some(t)
  {
    hide Decimal.Print, Decimal.Strtol, FirstIndex;
    IndexAfter(number, ':', Decimal.Print(t) + " ");
    Decimal.StrtolOfPrint(t, " ");
  }

  lemma NotIn(number: string, p: string)
    requires IsNumber(number) && forall i :: 0 <= i < |p| ==> Decimal.IsDigit(p[i])
    ensures '\n' !in number + (":" + (p + " ")) && '#' !in number + (":" + (p + " "))
  {
  }

  /** What can be read from a number that is none: a time that has nothing to do with that of the bounce. */
  function ReadInstead(number: string): Option<int> {
    TimeIn(if '#' in number then number[..FirstIndex(number, '#')] else number + ":")
  }

  /** From any other number maintenance reads this, or nothing, at all times. */
  lemma OtherTime(number: string, t: nat, ctime: string, more: string)
    requires !IsNumber(number) && IsCtime(ctime)
    ensures var read := FirstBounce(RecordLine(number, t, ctime) + more);
            && (read == None || read == ReadInstead(number))
            && ('#' !in number && '\n' !in number && Fits(number, |Decimal.Print(t)|) ==> read == ReadInstead(number))
  {
    var p, cut := Decimal.Print(t), Snprintf(HEADROOM, Stamp(number, t));
    var before := number + (":" + (p + " "));
    StampSign(number, t);
    var s, h := RecordLine(number, t, ctime) + more, |before|;
    assert s == cut + (ctime + ("\n" + more));
    hide FirstBounce, RecordLine, Stamp, Snprintf, TimeIn;
    if '#' !in number && '\n' !in number {
      NoSignInDigits(number, p);
      if h < |cut| {
        assert cut[..h] == before && s[..h] == before && s[h] == '#';
        SignAt(s, h);
        FirstColon(number, p);
      } else {
        assert cut == before[..|cut|];
        assert s == cut + ctime + ("\n" + more);
        NoSign(cut + ctime, more);
      }
    } else {
      SignInNumber(number, cut, ctime, more);
    }
  }

  lemma NoSignInDigits(number: string, p: string)
    requires '#' !in number && '\n' !in number && forall i :: 0 <= i < |p| ==> Decimal.IsDigit(p[i])
    ensures '\n' !in number + (":" + (p + " ")) && '#' !in number + (":" + (p + " "))
  {
  }

  /** With a colon in the number, the time is behind a second one. */
  lemma FirstColon(number: string, p: string)
    requires ':' in number
    ensures TimeIn(number + (":" + (p + " "))) == TimeIn(number + ":")
  {
    var c := FirstIndex(number, ':');
    assert c < |number|;
    var a, s, u := number[c + 1..], number + (":" + (p + " ")), number + ":";
    assert s[..c] == number[..c] && s[c] == ':' && s[c + 1..] == a + (":" + (p + " "));
    assert u[..c] == number[..c] && u[c] == ':' && u[c + 1..] == a + (":" + "");
    IndexAt(s, ':', c);
    IndexAt(u, ':', c);
    hide FirstIndex, Decimal.Strtol;
    Decimal.StrtolStops(a, p + " ");
    Decimal.StrtolStops(a, "");
  }

  /** A comment sign or line end in the number, or in front of the cut, decides. */
  lemma SignInNumber(number: string, cut: string, ctime: string, more: string)
    requires ('#' in number || '\n' in number) && IsCtime(ctime)
    requires cut <= number || number <= cut
    ensures var read := FirstBounce(cut + (ctime + ("\n" + more)));
            read == None || read == ReadInstead(number)
  {
    var s := cut + (ctime + ("\n" + more));
    var h, e := FirstIndex(number, '#'), FirstIndex(number, '\n');
    var j := if h < e then h else e;
    assert j < |number| && '#' !in number[..j] && '\n' !in number[..j] by {
      assert number[..j] == number[..h][..j] == number[..e][..j];
    }
    hide FirstIndex, FirstBounce, TimeIn;
    if j >= |cut| {
      assert cut == number[..j][..|cut|];
      assert s == cut + ctime + ("\n" + more);
      NoSign(cut + ctime, more);
    } else {
      assert cut[j] == number[j] && cut[..j] == number[..j];
      assert s[j] == number[j] && s[..j] == number[..j];
      if h < e {
        SignAt(s, h);
      } else {
        assert s == s[..j] + ("\n" + s[j + 1..]);
        NoSign(s[..j], s[j + 1..]);
      }
    }
  }

  /** Times with this many digits are read back from the records of the number, whatever else is in the line. */
  ghost predicate Readable(number: string, digits: nat) {
    forall t: nat, ctime, more :: |Decimal.Print(t)| == digits && IsCtime(ctime) ==>
      FirstBounce(RecordLine(number, t, ctime) + more) == Some(t)
  }

  /** They are exactly if nothing in the number gets in the way and the comment sign fits the buffer. */
  lemma ReadableIff(number: string, digits: nat)
    requires digits > 0
    ensures Readable(number, digits) <==> IsNumber(number) && Fits(number, digits)
  {
    hide FirstBounce, RecordLine, ReadInstead, Fits, IsNumber, IsCtime;
    if IsNumber(number) && Fits(number, digits) {
      forall t: nat, ctime, more | |Decimal.Print(t)| == digits && IsCtime(ctime)
        ensures FirstBounce(RecordLine(number, t, ctime) + more) == Some(t)
      {
        FirstBounceOfRecord(number, t, ctime, more);
      }
    }
    if Readable(number, digits) {
      var t := Decimal.Least(digits);
      assert IsCtime("") by { NoTime(); }
      ReadsBack(number, digits, t);
      ReadsBack(number, digits, t + 1);
    }
  }

  lemma NoTime()
    ensures IsCtime("")
  {
  }

  lemma ReadsBack(number: string, digits: nat, t: nat)
    requires Readable(number, digits) && |Decimal.Print(t)| == digits
    ensures if IsNumber(number) then Fits(number, digits) else ReadInstead(number) == Some(t)
  {
    hide FirstBounce, RecordLine, ReadInstead, Fits, IsNumber;
    NoTime();
    assert FirstBounce(RecordLine(number, t, "") + "") == Some(t);
    if IsNumber(number) {
      FirstBounceOfRecord(number, t, "", "");
    } else {
      OtherTime(number, t, "", "");
    }
  }

  /** Any time can be put into a number, and is read in place of that of the bounce. */
  lemma PlantedTime(a: string, v: nat, t: nat, ctime: string, more: string)
    requires IsNumber(a) && IsCtime(ctime)
    ensures var number := a + (":" + Decimal.Print(v));
            Fits(number, |Decimal.Print(t)|) ==> FirstBounce(RecordLine(number, t, ctime) + more) == Some(v)
  {
    var number := a + (":" + Decimal.Print(v));
    NumberWithTime(a, v);
    ReadBehindColon(a, v);
    hide *;
    OtherTime(number, t, ctime, more);
  }

  lemma NumberWithTime(a: string, v: nat)
    requires IsNumber(a)
    ensures var number := a + (":" + Decimal.Print(v));
            '#' !in number && '\n' !in number && !IsNumber(number)
  {
    var p := Decimal.Print(v);
    var number := a + (":" + p);
    assert number[|a|] == ':';
    assert forall i :: 0 <= i < |p| ==> Decimal.IsDigit(p[i]);
  }

  lemma ReadBehindColon(a: string, v: nat)
    requires IsNumber(a)
    ensures ReadInstead(a + (":" + Decimal.Print(v))) == Some(v)
  {
    var p := Decimal.Print(v);
    var number := a + (":" + p);
    NumberWithTime(a, v);
    assert number + ":" == a + (":" + (p + ":"));
    hide Decimal.Print, Decimal.Strtol, FirstIndex;
    IndexAfter(a, ':', p + ":");
    Decimal.StrtolOfPrint(v, ":");
  }

  /** A record that begins with the number "1:0" can be unsubscribed at once. */
  lemma PlantedUnsubscribes(n: string, t: nat, ctime: string, life: int)
    requires IsCtime(ctime) && Fits("1:0", |Decimal.Print(t)|) && t >= life + WAITPROBE
    ensures Unsubscribes(Run([Tick(t), Bounce(n, FirstBounce(RecordLine("1:0", t, ctime)))], life), n, life)
  {
    assert Decimal.Print(0) == "0" && "1" + (":" + "0") == "1:0";
    PlantedTime("1", 0, t, ctime, "");
    Seqs.Unit(RecordLine("1:0", t, ctime));
    hide FirstBounce, RecordLine;
    var e := Bounce(n, Some(0));
    RunSnoc([], Tick(t), life);
    RunSnoc([Tick(t)], e, life);
    assert [] + [Tick(t)] == [Tick(t)] && [Tick(t)] + [e] == [Tick(t), e];
  }

  /** Later bounces do not change it. */
  lemma FirstBounceKept(s: string, more: string)
    requires '\n' in s
    ensures FirstBounce(s + more) == FirstBounce(s)
  {
    var i := FirstIndex(s, '\n');
    assert i < |s|;
    assert (s + more)[..i] == s[..i];
    IndexAt(s + more, '\n', i);
  }

  // ---------------------------------------------------------------- the directory

  type Files = map<string, string>

  /** The files of one address. */
  ghost predicate NameOk(files: Files, s: State, n: string) {
    && (n in files <==> n in s.records)
    && (n in files ==> '\n' in files[n] && FirstBounce(files[n]) == s.records[n])
    && (ProbeFile(n) in files <==> n in s.probes)
    && (n in s.probes ==> n in s.records && Decimal.Strtol(FirstLine(files[ProbeFile(n)])) == s.probes[n])
  }

  ghost predicate Represents(files: Files, s: State) {
    && (forall n :: IsName(n) ==> NameOk(files, s, n))
    && (forall n :: n in s.records ==> IsName(n))
    && (forall n :: n in s.probes ==> IsName(n))
    && (forall f :: f in files && EndsWith(f, "-probe") ==> IsName(Base(f)))
    && (forall f :: f in files ==> IsName(f) || EndsWith(f, "-probe") || EndsWith(f, ".lastmsg"))
  }

  /** Only files of one address change. */
  ghost predicate OnlyFilesOf(n: string, files: Files, files': Files) {
    forall f :: f != n && f != ProbeFile(n) && f != LastMsg(n) ==>
      (f in files <==> f in files') && (f in files ==> files'[f] == files[f])
  }

  ghost predicate OnlyRecordOf(n: string, s: State, s': State) {
    forall m :: m != n ==>
      && (m in s.records <==> m in s'.records) && (m in s.records ==> s'.records[m] == s.records[m])
      && (m in s.probes <==> m in s'.probes) && (m in s.probes ==> s'.probes[m] == s.probes[m])
  }

  lemma OtherNames(n: string, m: string)
    requires IsName(n) && IsName(m) && m != n
    ensures m != ProbeFile(n) && m != LastMsg(n)
    ensures ProbeFile(m) != n && ProbeFile(m) != ProbeFile(n) && ProbeFile(m) != LastMsg(n)
    ensures n != LastMsg(n) && n != ProbeFile(n) && ProbeFile(n) != LastMsg(n)
  {
    LastMsgIsNoProbe(n);
    assert Base(ProbeFile(m)) == m && Base(ProbeFile(n)) == n;
  }

  lemma OwnNames(n: string)
    requires IsName(n)
    ensures n != LastMsg(n) && n != ProbeFile(n) && ProbeFile(n) != LastMsg(n)
  {
    LastMsgIsNoProbe(n);
  }

  lemma Removing(n: string, files: Files, names: set<string>)
    requires names <= {n, ProbeFile(n), LastMsg(n)}
    ensures OnlyFilesOf(n, files, files - names)
  {
  }

  lemma Placing(n: string, files: Files, content: string)
    ensures OnlyFilesOf(n, files, files[ProbeFile(n) := content])
    ensures OnlyFilesOf(n, files, files[ProbeFile(n) := content] - {ProbeFile(n)})
  {
  }

  lemma StepConcerns(s: State, e: Event, n: string, life: int)
    requires !e.Tick? && e.n == n
    ensures OnlyRecordOf(n, s, Step(s, e, life))
  {
  }

  /** A step that concerns one address leaves all others alone. */
  lemma OneAddress(n: string, files: Files, files': Files, s: State, s': State)
    requires Represents(files, s) && IsName(n)
    requires OnlyFilesOf(n, files, files') && OnlyRecordOf(n, s, s') && NameOk(files', s', n)
    ensures Represents(files', s')
  {
    hide IsName, ProbeFile, LastMsg, FirstBounce, EndsWith, Base;
    forall m | IsName(m) ensures NameOk(files', s', m) {
      if m != n {
        OtherNames(n, m);
        assert NameOk(files, s, m);
      }
    }
    forall m | m in s'.records ensures IsName(m) {
      if m != n { assert m in s.records; }
    }
    forall m | m in s'.probes ensures IsName(m) {
      if m != n { assert m in s.probes; }
    }
    forall f | f in files' && EndsWith(f, "-probe") ensures IsName(Base(f)) {
      ProbeFilesOf(n, f);
    }
    forall f | f in files' ensures IsName(f) || EndsWith(f, "-probe") || EndsWith(f, ".lastmsg") {
      if f != n && f != ProbeFile(n) && f != LastMsg(n) { assert f in files; }
    }
  }

  lemma ProbeFilesOf(n: string, f: string)
    requires IsName(n) && EndsWith(f, "-probe")
    ensures f != n && f != LastMsg(n) && (f == ProbeFile(n) ==> Base(f) == n)
  {
    LastMsgIsNoProbe(n);
  }

  /** An unsubscription, and the point of the run at which the record of the address gave reason for it. */
  ghost predicate Founded(reason: (string, nat), address: string, trace: seq<Event>, bouncelife: int) {
    var (n, k) := reason;
    && k <= |trace| && Unsubscribes(Run(trace[..k], bouncelife), n, bouncelife)
    && '=' in n && address == UnsubAddress(n)
  }

  ghost predicate AllFounded(reasons: seq<(string, nat)>, addresses: seq<string>, trace: seq<Event>, bouncelife: int) {
    && |reasons| == |addresses|
    && forall i :: 0 <= i < |reasons| ==> Founded(reasons[i], addresses[i], trace, bouncelife)
  }

  lemma FoundedLater(reasons: seq<(string, nat)>, addresses: seq<string>, trace: seq<Event>, e: Event, bouncelife: int)
    requires AllFounded(reasons, addresses, trace, bouncelife)
    ensures AllFounded(reasons, addresses, trace + [e], bouncelife)
  {
    hide Run, Unsubscribes, UnsubAddress;
    forall i | 0 <= i < |reasons| ensures Founded(reasons[i], addresses[i], trace + [e], bouncelife) {
      assert Founded(reasons[i], addresses[i], trace, bouncelife);
      Seqs.DropFront(trace, [e], reasons[i].1);
    }
  }

  /** The first bounce that a record tells of is long enough ago. */
  predicate RipeRecord(s: string, now: nat, bouncelife: int) {
    FirstBounce(s).Some? && now - FirstBounce(s).value >= bouncelife + 43200
  }

  /** A line more in a record, and the message if it is kept. */
  function WithBounce(files: Files, address: string, line: string, mailname: bool): Files {
    var written := files[address := (if address in files then files[address] else "") + line];
    if mailname then written[address + ".lastmsg" := ""] else written
  }

  class BounceDir {
    const bouncelife: int
    var files: Files
    var now: nat
    var unsubscribed: seq<string>          // what mlmmj-unsub has been called with
    ghost var trace: seq<Event>            // the run of the machine so far
    ghost var reasons: seq<(string, nat)>  // for each unsubscription, the record, and when in the run

    ghost function State(): State
      reads this
    {
      Run(trace, bouncelife)
    }

    ghost predicate Valid()
      reads this
    {
      && now == State().now
      && Represents(files, State())
      && AllFounded(reasons, unsubscribed, trace, bouncelife)
    }

    /** The control file bouncelife; without it, or with 0 in it, the default. */
    constructor (bouncelifestr: Option<int>)
      ensures Valid() && files == map[] && unsubscribed == []
      ensures bouncelife == if bouncelifestr.Some? && bouncelifestr.value != 0 then bouncelifestr.value else 432000
    {
      var life := if bouncelifestr.Some? then bouncelifestr.value else 0;
      bouncelife := if life == 0 then BOUNCELIFE else life;
      files, now, unsubscribed, trace, reasons := map[], 0, [], [], [];
    }

    /** The next event of the run has happened to the files. */
    ghost method Happened(e: Event)
      requires Represents(files, Step(State(), e, bouncelife)) && now == Step(State(), e, bouncelife).now
      requires AllFounded(reasons, unsubscribed, trace, bouncelife)
      modifies this`trace
      ensures Valid() && trace == old(trace) + [e] && State() == Step(old(State()), e, bouncelife)
    {
      hide Represents, Step, AllFounded, Run;
      RunSnoc(trace, e, bouncelife);
      FoundedLater(reasons, unsubscribed, trace, e, bouncelife);
      trace := trace + [e];
    }

    /** time(NULL): the clock has gone on. */
    method Time() returns (t: nat)
      requires Valid()
      modifies this`now, this`trace
      ensures Valid() && t == now && old(trace) <= trace
      ensures State().records == old(State()).records && State().probes == old(State()).probes
    {
      hide Run, AllFounded, NameOk;
      var d: nat :| true;
      now := now + d;
      assert forall n :: NameOk(files, State(), n) ==> NameOk(files, Step(State(), Tick(d), bouncelife), n) by {
        SameFiles(files, State(), d, bouncelife);
      }
      Happened(Tick(d));
      t := now;
    }

    /** main of mlmmj-bounce for a bounced list mail: a line in the record of a subscribed address. */
    method RecordBounce(address: string, number: string, list: Subscription.ListDir, ctime: string, mailname: bool)
      requires Valid() && ('=' in address ==> IsName(address))
      modifies this`files, this`now, this`trace
      ensures Valid() && old(trace) <= trace
      ensures if '=' in address && list.VersionOf(BouncingAddress(address)) != Subscription.SubNone then
                && files == WithBounce(old(files), address, RecordLine(number, now, ctime), mailname)
                && |trace| > |old(trace)|
                && trace[|trace| - 1] == Bounce(address, FirstBounce(RecordLine(number, now, ctime)))
              else files == old(files) && trace == old(trace)
    {
      if '=' !in address {
        return;
      }
      var typesub := list.IsSubbed(BouncingAddress(address), false);
      if typesub == Subscription.SubNone {
        return;
      }
      AppendBounce(address, number, ctime, mailname);
    }

    method AppendBounce(address: string, number: string, ctime: string, mailname: bool)
      requires Valid() && IsName(address)
      modifies this`files, this`now, this`trace
      ensures Valid() && old(trace) < trace
      ensures files == WithBounce(old(files), address, RecordLine(number, now, ctime), mailname)
      ensures trace[|trace| - 1] == Bounce(address, FirstBounce(RecordLine(number, now, ctime)))
    {
      hide Run, AllFounded, IsName, Represents, RecordLine, Step, FirstBounce;
      var t := Time();
      ghost var was := files;
      WriteRecord(address, RecordLine(number, t, ctime), mailname);
      BounceRecorded(was, files, State(), address, number, ctime, bouncelife);
      ghost var e := Bounce(address, FirstBounce(RecordLine(number, t, ctime)));
      ClockStands(State(), e, bouncelife);
      Happened(e);
    }

    /** Append to the record, and keep the message. */
    method WriteRecord(address: string, line: string, mailname: bool)
      requires IsName(address)
      modifies this`files
      ensures OnlyFilesOf(address, old(files), files)
      ensures ProbeFile(address) in files <==> ProbeFile(address) in old(files)
      ensures ProbeFile(address) in files ==> files[ProbeFile(address)] == old(files)[ProbeFile(address)]
      ensures address in files && files[address] == (if address in old(files) then old(files)[address] else "") + line
      ensures files == WithBounce(old(files), address, line, mailname)
    {
      OwnNames(address);
      hide IsName, ProbeFile, LastMsg;
      var before := if address in files then files[address] else "";
      files := files[address := before + line];
      if mailname {
        files := files[LastMsg(address) := ""];
      }
    }

    /** main of mlmmj-bounce for a bounced probe, sent for whichever record. */
    method RecordProbeBounce(address: string, ghost record: nat)
      requires Valid() && IsName(address)
      modifies this`files, this`trace
      ensures Valid() && trace == old(trace) + [ProbeBounce(address, record)]
      ensures files == old(files) - {address + "-probe"}
    {
      hide Run, AllFounded, IsName, Represents;
      ghost var was := files;
      files := files - {ProbeFile(address)};
      ProbeRemoved(was, files, State(), address, record, bouncelife);
      Happened(ProbeBounce(address, record));
    }

    /** The body of the loop in clean_nolongerbouncing: a probe that has not bounced in time. */
    method CleanEntry(filename: string)
      requires Valid()
      modifies this`files, this`now, this`trace
      ensures Valid() && old(trace) <= trace
      ensures EndsWith(filename, "-probe") && filename in old(files) ==>
                && |trace| > |old(trace)| && trace[|trace| - 1] == Clean(Base(filename))
                && var n := Base(filename);
                   files == if now - Decimal.Strtol(FirstLine(old(files)[filename])) > 43200
                            then old(files) - {filename, n, n + ".lastmsg"} else old(files)
      ensures !EndsWith(filename, "-probe") ==> files == old(files)
      ensures forall m :: IsName(m) && ProbeFile(m) != filename ==> SameFilesOf(m, old(files), files)
    {
      hide Run, AllFounded, Represents, IsName, FirstLine, Decimal.Strtol, EndsWith, Base;
      if !EndsWith(filename, "-probe") || filename !in files {
        return;
      }
      var s := Base(filename);
      ProbeFound(files, State(), filename);
      var probetime := Decimal.Strtol(FirstLine(files[filename]));
      var t := Time();
      ghost var was := files;
      if t - probetime > WAITPROBE {
        files := files - {filename, s, LastMsg(s)};
      }
      OthersSame(s, was, {filename, s, LastMsg(s)});
      Cleaned(was, files, State(), s, bouncelife);
      ClockStands(State(), Clean(s), bouncelife);
      Happened(Clean(s));
    }

    /** The body of the loop in unsub_bouncers: a record that is old enough, and has no probe out. */
    method UnsubEntry(dname: string)
      requires Valid()
      modifies this`files, this`now, this`trace, this`unsubscribed, this`reasons
      ensures Valid() && old(trace) <= trace && old(unsubscribed) <= unsubscribed && old(reasons) <= reasons
      ensures IsName(dname) && dname in old(files) && ProbeFile(dname) !in old(files) ==>
                && |trace| > |old(trace)| && trace[|trace| - 1] == Unsub(dname)
                && (unsubscribed != old(unsubscribed) <==>
                      Unsubscribes(Run(trace[..|trace| - 1], bouncelife), dname, bouncelife))
                && (if RipeRecord(old(files)[dname], now, bouncelife) then
                      && unsubscribed == old(unsubscribed) + [UnsubAddress(dname)]
                      && files == old(files) - {dname, dname + ".lastmsg"}
                    else unsubscribed == old(unsubscribed) && files == old(files))
      ensures forall m :: IsName(m) && m != dname ==> SameFilesOf(m, old(files), files)
      ensures files.Keys <= old(files.Keys)
    {
      hide Run, AllFounded, Represents, FirstBounce, EndsWith, UnsubAddress, Founded;
      if EndsWith(dname, "-probe") || EndsWith(dname, ".lastmsg") || dname !in files {
        return;
      }
      if ProbeFile(dname) in files {
        return;
      }
      RecordFound(files, State(), dname);
      var firstbounce := FirstBounce(files[dname]);
      var t := Time();
      hide IsName, ProbeFile, LastMsg;
      ghost var was, before := files, trace;
      if firstbounce.Some? && t - firstbounce.value >= bouncelife + WAITPROBE && '=' in dname {
        NewReason(reasons, unsubscribed, trace, dname, bouncelife);
        unsubscribed, reasons := unsubscribed + [UnsubAddress(dname)], reasons + [(dname, |trace|)];
        files := files - {dname, LastMsg(dname)};
      }
      assert (before + [Unsub(dname)])[..|before|] == before;
      OthersSame(dname, was, {dname, LastMsg(dname)});
      Unsubscribed(was, files, State(), dname, bouncelife);
      ClockStands(State(), Unsub(dname), bouncelife);
      Happened(Unsub(dname));
    }

    /** The body of the loop in probe_bouncers, with do_probe and the mail server's answer to the probe. */
    method ProbeEntry(dname: string)
      requires Valid()
      modifies this`files, this`now, this`trace
      ensures Valid() && old(trace) <= trace
      ensures IsName(dname) && dname in old(files) && ProbeFile(dname) !in old(files) ==>
                && |trace| > |old(trace)| && trace[|trace| - 1] == Probe(dname, ProbeFile(dname) in files)
                && files == if ProbeFile(dname) in files then old(files)[ProbeFile(dname) := Decimal.Print(now)]
                            else old(files)
      ensures forall m :: IsName(m) ==> (m in files <==> m in old(files))
      ensures forall m :: IsName(m) && m != dname ==> SameFilesOf(m, old(files), files)
    {
      hide Run, AllFounded, Represents, FirstBounce, BouncingAddress, EndsWith, FirstLine, Decimal.Strtol;
      if EndsWith(dname, "-probe") || EndsWith(dname, ".lastmsg") || dname !in files {
        return;
      }
      if ProbeFile(dname) in files {
        return;
      }
      RecordFound(files, State(), dname);
      hide IsName, ProbeFile;
      var t := Time();
      ghost var was := files;
      files := files[ProbeFile(dname) := Decimal.Print(t)];
      var accepted := *;
      if !accepted {
        var probefile := FailedProbe(BouncingAddress(dname));
        ReaddressedBack(dname);
        files := files - {probefile};
      }
      ProbeFileOnly(dname, was, files);
      Probed(was, files, State(), dname, accepted, bouncelife);
      ClockStands(State(), Probe(dname, accepted), bouncelife);
      Happened(Probe(dname, accepted));
    }

    /** clean_nolongerbouncing: every probe file is looked at. */
    method CleanNoLongerBouncing()
      requires Valid()
      modifies this`files, this`now, this`trace
      ensures Valid() && old(trace) <= trace
      ensures forall n :: IsName(n) && ProbeFile(n) in old(files) ==> Happens(old(trace), trace, Clean(n))
      ensures forall n :: IsName(n) && ProbeFile(n) !in old(files) ==> SameFilesOf(n, old(files), files)
    {
      hide Valid, ProbeFile, IsName, EndsWith, Base, LastMsg;
      var entries := files.Keys;
      ghost var first := files;
      while entries != {}
        invariant Valid() && old(trace) <= trace
        invariant forall n :: IsName(n) && ProbeFile(n) in first && ProbeFile(n) !in entries ==>
                    Happens(old(trace), trace, Clean(n))
        invariant forall n :: IsName(n) && (ProbeFile(n) !in first || ProbeFile(n) in entries) ==>
                    SameFilesOf(n, first, files)
      {
        var dname :| dname in entries;
        ghost var was := trace;
        CleanEntry(dname);
        StillHappens(old(trace), was, trace);
        entries := entries - {dname};
      }
    }

    /** unsub_bouncers: every record without a probe is looked at. */
    method UnsubBouncers()
      requires Valid()
      modifies this`files, this`now, this`trace, this`unsubscribed, this`reasons
      ensures Valid() && old(trace) <= trace && old(unsubscribed) <= unsubscribed && old(reasons) <= reasons
      ensures forall n :: IsName(n) && n in old(files) && ProbeFile(n) !in old(files) ==>
                Happens(old(trace), trace, Unsub(n)) && ProbeFile(n) !in files
    {
      hide Valid, ProbeFile, IsName, EndsWith, Base, LastMsg;
      var entries := files.Keys;
      ghost var first := files;
      while entries != {}
        invariant Valid() && old(trace) <= trace && old(unsubscribed) <= unsubscribed && old(reasons) <= reasons
        invariant files.Keys <= first.Keys
        invariant forall n :: IsName(n) && n in first && ProbeFile(n) !in first && n !in entries ==>
                    Happens(old(trace), trace, Unsub(n))
        invariant forall n :: IsName(n) && n in entries ==> SameFilesOf(n, first, files)
      {
        var dname :| dname in entries;
        ghost var was := trace;
        UnsubEntry(dname);
        StillHappens(old(trace), was, trace);
        entries := entries - {dname};
      }
    }

    /** probe_bouncers: every record without a probe is sent one. */
    method ProbeBouncers()
      requires Valid()
      modifies this`files, this`now, this`trace
      ensures Valid() && old(trace) <= trace
      ensures forall n :: IsName(n) ==> (n in files <==> n in old(files))
      ensures forall n :: IsName(n) && n in old(files) && ProbeFile(n) !in old(files) ==>
                Happens(old(trace), trace, Probe(n, true)) || Happens(old(trace), trace, Probe(n, false))
    {
      hide Valid, ProbeFile, IsName, EndsWith, Base, LastMsg;
      var entries := files.Keys;
      ghost var first := files;
      while entries != {}
        invariant Valid() && old(trace) <= trace
        invariant forall n :: IsName(n) ==> (n in files <==> n in first)
        invariant forall n :: IsName(n) && n in first && ProbeFile(n) !in first && n !in entries ==>
                    Happens(old(trace), trace, Probe(n, true)) || Happens(old(trace), trace, Probe(n, false))
        invariant forall n :: IsName(n) && n in entries ==> SameFilesOf(n, first, files)
      {
        var dname :| dname in entries;
        ghost var was := trace;
        ProbeEntry(dname);
        StillHappens(old(trace), was, trace);
        entries := entries - {dname};
      }
    }

    /**
     * The three bounce steps of a maintenance run. Every probe that is out is looked at; and every record
     * without one is first tried for unsubscription and then, if it is still there, sent a probe.
     */
    method DoMaintenance()
      requires Valid()
      modifies this`files, this`now, this`trace, this`unsubscribed, this`reasons
      ensures Valid() && old(trace) <= trace && old(unsubscribed) <= unsubscribed && old(reasons) <= reasons
      ensures forall n :: IsName(n) && ProbeFile(n) in old(files) ==> Happens(old(trace), trace, Clean(n))
      ensures forall n :: IsName(n) && n in old(files) && ProbeFile(n) !in old(files) ==>
                && Happens(old(trace), trace, Unsub(n))
                && (n in files ==>
                      Happens(old(trace), trace, Probe(n, true)) || Happens(old(trace), trace, Probe(n, false)))
    {
      hide Valid, ProbeFile, IsName, EndsWith, Base, LastMsg;
      CleanNoLongerBouncing();
      ghost var cleaned := trace;
      UnsubBouncers();
      ghost var unsubbed := trace;
      StillHappens(old(trace), cleaned, unsubbed);
      ProbeBouncers();
      StillHappens(old(trace), cleaned, trace);
      StillHappens(old(trace), unsubbed, trace);
      HappensSince(old(trace), cleaned, unsubbed);
      HappensSince(old(trace), unsubbed, trace);
    }
  }

  /** An event is in the part of a run that is new. */
  ghost predicate Happens(before: seq<Event>, after: seq<Event>, e: Event) {
    exists i :: |before| <= i < |after| && after[i] == e
  }

  lemma StillHappens(before: seq<Event>, was: seq<Event>, after: seq<Event>)
    requires before <= was <= after
    ensures forall e :: Happens(before, was, e) ==> Happens(before, after, e)
    ensures |was| < |after| ==> Happens(before, after, after[|after| - 1])
  {
    forall e | Happens(before, was, e) ensures Happens(before, after, e) {
      var i :| |before| <= i < |was| && was[i] == e;
      assert after[i] == e;
    }
  }

  lemma HappensSince(before: seq<Event>, was: seq<Event>, after: seq<Event>)
    requires before <= was <= after
    ensures forall e :: Happens(was, after, e) ==> Happens(before, after, e)
  {
    forall e | Happens(was, after, e) ensures Happens(before, after, e) {
      var i :| |was| <= i < |after| && after[i] == e;
    }
  }

  /** The record and the probe of a name are there as before. */
  ghost predicate SameFilesOf(m: string, files: Files, files': Files) {
    (m in files <==> m in files') && (ProbeFile(m) in files <==> ProbeFile(m) in files')
  }

  lemma OthersSame(n: string, files: Files, names: set<string>)
    requires IsName(n) && names <= {n, ProbeFile(n), LastMsg(n)}
    ensures forall m :: IsName(m) && m != n ==> SameFilesOf(m, files, files - names)
  {
    hide IsName, ProbeFile, LastMsg;
    forall m | IsName(m) && m != n ensures SameFilesOf(m, files, files - names) {
      OtherNames(n, m);
    }
  }

  lemma ProbeFileOnly(n: string, files: Files, files': Files)
    requires IsName(n) && (forall f :: f != ProbeFile(n) ==> (f in files <==> f in files'))
    ensures forall m :: IsName(m) ==> (m in files' <==> m in files)
    ensures forall m :: IsName(m) && m != n ==> SameFilesOf(m, files, files')
  {
    hide IsName, ProbeFile, LastMsg;
    forall m | IsName(m) && m != n ensures SameFilesOf(m, files, files') && m != ProbeFile(n) {
      OtherNames(n, m);
    }
    OwnNames(n);
  }

  /** main of mlmmj-send when a probe cannot be sent: the probe file it removes. */
  function FailedProbe(to: string): string {
    var a := FirstIndex(to, '@');
    ProbeFile(if a < |to| then to[a := '='] else to)
  }

  /** It is the one that do_probe has made. */
  lemma ReaddressedBack(n: string)
    requires IsName(n)
    ensures FailedProbe(BouncingAddress(n)) == ProbeFile(n)
  {
    var l := LastIndex(n, '=');
    var to := BouncingAddress(n);
    assert '@' !in to[..l] by {
      assert to[..l] == n[..l];
    }
    IndexAt(to, '@', l);
    assert to[l := '='] == n;
  }

  lemma ProbeFound(files: Files, s: State, f: string)
    requires Represents(files, s) && EndsWith(f, "-probe") && f in files
    ensures var n := Base(f);
            && IsName(n) && f == ProbeFile(n) && n in s.probes
            && Decimal.Strtol(FirstLine(files[f])) == s.probes[n]
  {
    var n := Base(f);
    Seqs.Rejoin(f, |f| - 6);
    hide FirstBounce, FirstLine, Decimal.Strtol, IsName, EndsWith, Base;
    assert NameOk(files, s, n);
  }

  lemma RecordFound(files: Files, s: State, n: string)
    requires Represents(files, s) && n in files && !EndsWith(n, "-probe") && !EndsWith(n, ".lastmsg")
    requires ProbeFile(n) !in files
    ensures IsName(n) && n in s.records && n !in s.probes && FirstBounce(files[n]) == s.records[n]
  {
    hide FirstBounce, FirstLine, Decimal.Strtol, IsName, EndsWith, Base, ProbeFile;
    assert NameOk(files, s, n);
  }

  lemma Cleaned(files: Files, files': Files, s: State, n: string, life: int)
    requires Represents(files, s) && IsName(n) && n in s.probes
    requires files' == if s.now - s.probes[n] > WAITPROBE then files - {ProbeFile(n), n, LastMsg(n)} else files
    ensures Represents(files', Step(s, Clean(n), life))
  {
    hide FirstBounce, FirstLine, Decimal.Strtol, IsName, ProbeFile, LastMsg, EndsWith, Base;
    assert NameOk(files, s, n);
    hide Represents;
    OwnNames(n);
    Removing(n, files, {});
    assert files - {} == files;
    Removing(n, files, {ProbeFile(n), n, LastMsg(n)});
    StepConcerns(s, Clean(n), n, life);
    hide OnlyFilesOf, OnlyRecordOf;
    OneAddress(n, files, files', s, Step(s, Clean(n), life));
  }

  lemma Unsubscribed(files: Files, files': Files, s: State, n: string, life: int)
    requires Represents(files, s) && IsName(n) && n in s.records && n !in s.probes
    requires files' == if Unsubscribes(s, n, life) then files - {n, LastMsg(n)} else files
    ensures Represents(files', Step(s, Unsub(n), life))
  {
    hide FirstBounce, FirstLine, Decimal.Strtol, IsName, ProbeFile, LastMsg, EndsWith, Base;
    assert NameOk(files, s, n);
    hide Represents;
    OwnNames(n);
    Removing(n, files, {});
    assert files - {} == files;
    Removing(n, files, {n, LastMsg(n)});
    StepConcerns(s, Unsub(n), n, life);
    hide OnlyFilesOf, OnlyRecordOf;
    OneAddress(n, files, files', s, Step(s, Unsub(n), life));
  }

  lemma Probed(files: Files, files': Files, s: State, n: string, accepted: bool, life: int)
    requires Represents(files, s) && IsName(n) && n in s.records && n !in s.probes
    requires var made := files[ProbeFile(n) := Decimal.Print(s.now)];
             files' == if accepted then made else made - {ProbeFile(n)}
    ensures Represents(files', Step(s, Probe(n, accepted), life))
  {
    ProbeTime(s.now);
    hide FirstBounce, FirstLine, Decimal.Strtol, IsName, ProbeFile, LastMsg, EndsWith, Base;
    assert NameOk(files, s, n);
    hide Represents;
    OwnNames(n);
    Placing(n, files, Decimal.Print(s.now));
    StepConcerns(s, Probe(n, accepted), n, life);
    hide OnlyFilesOf, OnlyRecordOf;
    OneAddress(n, files, files', s, Step(s, Probe(n, accepted), life));
  }

  lemma ProbeTime(t: nat)
    ensures Decimal.Strtol(FirstLine(Decimal.Print(t))) == t
  {
    var p := Decimal.Print(t);
    Decimal.StrtolOfPrint(t, "");
    assert p + "" == p;
    hide Decimal.Print;
    IndexAt(p, '\n', |p|);
    assert p[..|p|] == p;
  }

  lemma NewReason(reasons: seq<(string, nat)>, addresses: seq<string>, trace: seq<Event>, n: string, life: int)
    requires AllFounded(reasons, addresses, trace, life)
    requires '=' in n && Unsubscribes(Run(trace, life), n, life)
    ensures AllFounded(reasons + [(n, |trace|)], addresses + [UnsubAddress(n)], trace, life)
  {
    assert trace[..|trace|] == trace;
    assert Founded((n, |trace|), UnsubAddress(n), trace, life);
  }

  lemma ClockStands(s: State, e: Event, life: int)
    requires !e.Tick?
    ensures Step(s, e, life).now == s.now
  {
  }

  lemma SameFiles(files: Files, s: State, d: nat, life: int)
    ensures forall n :: NameOk(files, s, n) ==> NameOk(files, Step(s, Tick(d), life), n)
  {
  }

  /** The files with one more line in a record. */
  lemma BounceRecorded(files: Files, files': Files, s: State, n: string, number: string, ctime: string, life: int)
    requires Represents(files, s) && IsName(n)
    requires OnlyFilesOf(n, files, files') && (ProbeFile(n) in files' <==> ProbeFile(n) in files)
    requires ProbeFile(n) in files ==> files'[ProbeFile(n)] == files[ProbeFile(n)]
    requires n in files' && files'[n] == (if n in files then files[n] else "") + RecordLine(number, s.now, ctime)
    ensures Represents(files', Step(s, Bounce(n, FirstBounce(RecordLine(number, s.now, ctime))), life))
  {
    hide FirstBounce, FirstLine, Decimal.Strtol, IsName, ProbeFile, LastMsg, EndsWith, Base, RecordLine;
    var line := RecordLine(number, s.now, ctime);
    var e := Bounce(n, FirstBounce(line));
    assert NameOk(files, s, n);
    hide Represents;
    EndsRecord(number, s.now, ctime);
    Seqs.Unit(line);
    if n in files {
      FirstBounceKept(files[n], line);
    }
    OwnNames(n);
    StepConcerns(s, e, n, life);
    hide OnlyRecordOf;
    OneAddress(n, files, files', s, Step(s, e, life));
  }

  lemma EndsRecord(number: string, t: nat, ctime: string)
    ensures '\n' in RecordLine(number, t, ctime)
  {
    var line := RecordLine(number, t, ctime);
    assert line[|line| - 1] == '\n';
  }

  lemma ProbeRemoved(files: Files, files': Files, s: State, n: string, record: nat, life: int)
    requires Represents(files, s) && IsName(n) && files' == files - {ProbeFile(n)}
    ensures Represents(files', Step(s, ProbeBounce(n, record), life))
  {
    hide FirstBounce, FirstLine, Decimal.Strtol, IsName, ProbeFile, LastMsg, EndsWith, Base;
    assert NameOk(files, s, n);
    hide Represents;
    OwnNames(n);
    Removing(n, files, {ProbeFile(n)});
    StepConcerns(s, ProbeBounce(n, record), n, life);
    hide OnlyFilesOf, OnlyRecordOf;
    OneAddress(n, files, files', s, Step(s, ProbeBounce(n, record), life));
  }
}
