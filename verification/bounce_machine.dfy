/**
 * Bounce records and probes as a machine over arbitrary sequences of events: bounces (src/mlmmj-bounce.c),
 * the clock, and the steps of maintenance (src/mlmmj-maintd.c).
 */
module BounceMachine {
  import opened Wrappers

  const WAITPROBE := 43200
  const BOUNCELIFE := 432000

  /**
   * The bounce directory: the time maintenance reads from each record, if it can read one, and the time each
   * probe was sent.
   */
  datatype State = State(now: nat, records: map<string, Option<int>>, probes: map<string, nat>)

  const START := State(0, map[], map[])

  datatype Event =
    | Tick(seconds: nat)
    | Bounce(n: string, time: Option<int>)     // a bounce is recorded, with this time to be read from its line
    | ProbeBounce(n: string, record: nat)      // a bounce of the probe of that record of the address arrives
    | Clean(n: string)                         // maintenance visits the probe file
    | Unsub(n: string)                         // maintenance visits the record, to unsubscribe
    | Probe(n: string, accepted: bool)         // maintenance visits the record, to send a probe

  /** What unsub_bouncers asks of a record before it unsubscribes the address. */
  predicate Unsubscribes(s: State, n: string, bouncelife: int) {
    && n in s.records && n !in s.probes
    && s.records[n].Some? && s.now - s.records[n].value >= bouncelife + WAITPROBE
  }

  function Step(s: State, e: Event, bouncelife: int): State {
    match e
    case Tick(d) => s.(now := s.now + d)
    case Bounce(n, time) => if n in s.records then s else s.(records := s.records[n := time])
    case ProbeBounce(n, _) => s.(probes := s.probes - {n})
    case Clean(n) =>
      if n in s.probes && s.now - s.probes[n] > WAITPROBE then
        s.(records := s.records - {n}, probes := s.probes - {n})
      else s
    case Unsub(n) => if Unsubscribes(s, n, bouncelife) then s.(records := s.records - {n}) else s
    case Probe(n, accepted) =>
      if n in s.records && n !in s.probes && accepted then s.(probes := s.probes[n := s.now]) else s
  }

  function Run(events: seq<Event>, bouncelife: int): State {
    if events == [] then START
    else Step(Run(events[..|events| - 1], bouncelife), events[|events| - 1], bouncelife)
  }

  lemma RunSnoc(events: seq<Event>, e: Event, bouncelife: int)
    ensures Run(events + [e], bouncelife) == Step(Run(events, bouncelife), e, bouncelife)
  {
    assert (events + [e])[..|events|] == events;
  }

  /** A probe is only out for a record. */
  lemma {:induction false} ProbesHaveRecords(events: seq<Event>, bouncelife: int)
    ensures Run(events, bouncelife).probes.Keys <= Run(events, bouncelife).records.Keys
    decreases |events|
  {
    if events != [] {
      ProbesHaveRecords(events[..|events| - 1], bouncelife);
    }
  }

  // ---------------------------------------------------------------- what has happened to a record

  /** The i-th event begins a record. */
  predicate Begins(events: seq<Event>, i: nat, n: string, bouncelife: int)
    requires i < |events|
  {
    events[i].Bounce? && events[i].n == n && n !in Run(events[..i], bouncelife).records
  }

  /** The i-th event sends a probe, or tries to. */
  predicate Sends(events: seq<Event>, i: nat, n: string, bouncelife: int)
    requires i < |events|
  {
    && events[i].Probe? && events[i].n == n
    && n in Run(events[..i], bouncelife).records && n !in Run(events[..i], bouncelife).probes
  }

  /** The i-th event says that the probe does not get through: it bounces, or cannot be sent. */
  predicate Answers(events: seq<Event>, i: nat, n: string, bouncelife: int)
    requires i < |events|
  {
    || (events[i].ProbeBounce? && events[i].n == n && n in Run(events[..i], bouncelife).probes)
    || (Sends(events, i, n, bouncelife) && !events[i].accepted)
  }

  /** The event that began the present record. */
  function Birth(events: seq<Event>, n: string, bouncelife: int): (i: nat)
    requires n in Run(events, bouncelife).records
    ensures i < |events|
    decreases |events|
  {
    var k := |events| - 1;
    if Begins(events, k, n, bouncelife) then k else Birth(events[..k], n, bouncelife)
  }

  /** The record has been there without interruption since then, and holds what its first line says. */
  lemma {:induction false} SinceBirth(events: seq<Event>, n: string, bouncelife: int)
    requires n in Run(events, bouncelife).records
    ensures var i := Birth(events, n, bouncelife);
            && Begins(events, i, n, bouncelife)
            && Run(events, bouncelife).records[n] == events[i].time
            && forall m :: i < m <= |events| ==> n in Run(events[..m], bouncelife).records
    decreases |events|
  {
    var k := |events| - 1;
    var i := Birth(events, n, bouncelife);
    assert events[..|events|] == events;
    if !Begins(events, k, n, bouncelife) {
      SinceBirth(events[..k], n, bouncelife);
      assert events[..k][..i] == events[..i];
      forall m | i < m <= |events| ensures n in Run(events[..m], bouncelife).records {
        if m <= k { assert events[..k][..m] == events[..m]; }
      }
    }
  }

  /** The last probe of the present record, if it has been probed. */
  function LastProbe(events: seq<Event>, n: string, bouncelife: int): (j: int)
    requires n in Run(events, bouncelife).records
    ensures j < |events|
    decreases |events|
  {
    var k := |events| - 1;
    if Begins(events, k, n, bouncelife) then -1
    else if Sends(events, k, n, bouncelife) then k
    else LastProbe(events[..k], n, bouncelife)
  }

  /** Whether its last probe has been answered, and by which event. */
  function LastAnswer(events: seq<Event>, n: string, bouncelife: int): (j: int)
    requires n in Run(events, bouncelife).records
    ensures j < |events|
    decreases |events|
  {
    var k := |events| - 1;
    if Begins(events, k, n, bouncelife) then -1
    else if Answers(events, k, n, bouncelife) then k
    else if Sends(events, k, n, bouncelife) then -1
    else LastAnswer(events[..k], n, bouncelife)
  }

  /** A record that has been probed has its probe out, or the probe has been answered. */
  lemma {:induction false} ProbedAndNotOut(events: seq<Event>, n: string, bouncelife: int)
    requires n in Run(events, bouncelife).records
    requires n !in Run(events, bouncelife).probes && LastProbe(events, n, bouncelife) >= 0
    ensures LastAnswer(events, n, bouncelife) >= LastProbe(events, n, bouncelife)
    decreases |events|
  {
    var k := |events| - 1;
    var front := events[..k];
    if !Answers(events, k, n, bouncelife) && !Sends(events, k, n, bouncelife) {
      assert n in Run(front, bouncelife).records;
      ProbedAndNotOut(front, n, bouncelife);
    }
  }

  /** The answer found is one, and came to the present record. */
  lemma {:induction false} TheAnswer(events: seq<Event>, n: string, bouncelife: int)
    requires n in Run(events, bouncelife).records && LastAnswer(events, n, bouncelife) >= 0
    ensures var j := LastAnswer(events, n, bouncelife);
            && Answers(events, j, n, bouncelife)
            && n in Run(events[..j], bouncelife).records
            && Birth(events[..j], n, bouncelife) == Birth(events, n, bouncelife)
    decreases |events|
  {
    var k := |events| - 1;
    var j := LastAnswer(events, n, bouncelife);
    if Answers(events, k, n, bouncelife) {
      ProbesHaveRecords(events[..k], bouncelife);
    } else {
      TheAnswer(events[..k], n, bouncelife);
      assert events[..k][..j] == events[..j];
    }
  }

  // ---------------------------------------------------------------- safety

  /** The i-th event begins a record from which an earlier time than that of the bounce is read. */
  predicate BeginsEarly(events: seq<Event>, i: nat, n: string, bouncelife: int)
    requires i < |events|
  {
    Begins(events, i, n, bouncelife) && events[i].time.Some? && events[i].time.value < Run(events[..i], bouncelife).now
  }

  /**
   * Over any run: an address is unsubscribed only with no probe out and bouncelife + WAITPROBE after the time read
   * from its record, which has been there ever since the bounce that began it, and so as long after that bounce,
   * unless the record says an earlier time; and if the record has been probed, only after a probe bounce for the
   * address has arrived, or the probe could not be sent, since the last probe.
   */
  lemma UnsubSafe(events: seq<Event>, n: string, bouncelife: int)
    requires Unsubscribes(Run(events, bouncelife), n, bouncelife)
    ensures var i := Birth(events, n, bouncelife);
            && Begins(events, i, n, bouncelife) && events[i].time.Some?
            && Run(events, bouncelife).now - events[i].time.value >= bouncelife + 43200
            && (forall m :: i < m <= |events| ==> n in Run(events[..m], bouncelife).records)
            && (BeginsEarly(events, i, n, bouncelife)
                || Run(events, bouncelife).now - Run(events[..i], bouncelife).now >= bouncelife + 43200)
    ensures n !in Run(events, bouncelife).probes
    ensures LastProbe(events, n, bouncelife) >= 0 ==>
              var j := LastAnswer(events, n, bouncelife);
              j >= LastProbe(events, n, bouncelife) && Answers(events, j, n, bouncelife)
  {
    SinceBirth(events, n, bouncelife);
    if LastProbe(events, n, bouncelife) >= 0 {
      ProbedAndNotOut(events, n, bouncelife);
      TheAnswer(events, n, bouncelife);
    }
  }

  /** An address that could be unsubscribed now has bounced long enough ago. */
  ghost predicate Waited(events: seq<Event>, n: string, bouncelife: int) {
    Unsubscribes(Run(events, bouncelife), n, bouncelife) ==>
      Run(events, bouncelife).now - Run(events[..Birth(events, n, bouncelife)], bouncelife).now
      >= bouncelife + WAITPROBE
  }

  /** Wherever the run is stopped, and however long is waited then, no unsubscription comes too soon. */
  ghost predicate NeverTooSoon(events: seq<Event>, bouncelife: int) {
    forall m, d: nat, n :: 0 <= m <= |events| ==> Waited(events[..m] + [Tick(d)], n, bouncelife)
  }

  ghost predicate NoneEarly(events: seq<Event>, bouncelife: int) {
    forall i, n :: 0 <= i < |events| ==> !BeginsEarly(events, i, n, bouncelife)
  }

  /**
   * A run never unsubscribes too soon exactly if no record in it begins with a time that is too early, or there is
   * nothing to wait for.
   */
  lemma NeverTooSoonIff(events: seq<Event>, bouncelife: int)
    ensures NeverTooSoon(events, bouncelife) <==> NoneEarly(events, bouncelife) || bouncelife + WAITPROBE <= 0
  {
    if NoneEarly(events, bouncelife) || bouncelife + WAITPROBE <= 0 {
      forall m, d: nat, n | 0 <= m <= |events| ensures Waited(events[..m] + [Tick(d)], n, bouncelife) {
        LongEnough(events, m, d, n, bouncelife);
      }
    }
    if NeverTooSoon(events, bouncelife) && bouncelife + WAITPROBE > 0 {
      forall i, n | 0 <= i < |events| ensures !BeginsEarly(events, i, n, bouncelife) {
        NotEarly(events, i, n, bouncelife);
      }
    }
  }

  lemma LongEnough(events: seq<Event>, m: nat, d: nat, n: string, bouncelife: int)
    requires m <= |events| && (NoneEarly(events, bouncelife) || bouncelife + WAITPROBE <= 0)
    ensures Waited(events[..m] + [Tick(d)], n, bouncelife)
  {
    var later := events[..m] + [Tick(d)];
    if Unsubscribes(Run(later, bouncelife), n, bouncelife) {
      SinceBirth(later, n, bouncelife);
      var i := Birth(later, n, bouncelife);
      assert i < m;
      assert later[..i] == events[..i] && later[i] == events[i];
      assert NoneEarly(events, bouncelife) ==> !BeginsEarly(events, i, n, bouncelife);
      ClockForward(later, i, bouncelife);
    }
  }

  lemma {:induction false} ClockForward(events: seq<Event>, i: nat, bouncelife: int)
    requires i <= |events|
    ensures Run(events[..i], bouncelife).now <= Run(events, bouncelife).now
    decreases |events|
  {
    if i < |events| {
      ClockForward(events[..|events| - 1], i, bouncelife);
      assert events[..|events| - 1][..i] == events[..i];
    } else {
      assert events[..i] == events;
    }
  }

  lemma NotEarly(events: seq<Event>, i: nat, n: string, bouncelife: int)
    requires bouncelife + WAITPROBE > 0 && i < |events| && NeverTooSoon(events, bouncelife)
    ensures !BeginsEarly(events, i, n, bouncelife)
  {
    var front := events[..i + 1];
    assert front[..i] == events[..i];
    if events[i].Bounce? && events[i].time.Some? {
      var d := Patience(events[i].time.value, Run(events[..i], bouncelife).now, bouncelife);
      assert Waited(front + [Tick(d)], n, bouncelife);
      if BeginsEarly(front, i, n, bouncelife) {
        EarlyComesTooSoon(front, i, n, bouncelife);
      }
    }
  }

  /** A record that begins with too early a time is unsubscribed too soon if nothing happens to it. */
  lemma EarlyComesTooSoon(events: seq<Event>, i: nat, n: string, bouncelife: int)
    requires bouncelife + WAITPROBE > 0 && i == |events| - 1 && BeginsEarly(events, i, n, bouncelife)
    ensures !Waited(events + [Tick(Patience(events[i].time.value, Run(events[..i], bouncelife).now, bouncelife))],
                    n, bouncelife)
  {
    var d := Patience(events[i].time.value, Run(events[..i], bouncelife).now, bouncelife);
    var later := events + [Tick(d)];
    assert later[..i + 1] == events && later[..|later| - 1] == events && later[..i] == events[..i];
    RunSnoc(events, Tick(d), bouncelife);
    ProbesHaveRecords(events[..i], bouncelife);
    SinceBirth(events, n, bouncelife);
    BirthPassed(later, n, bouncelife);
  }

  /**
   * A late bounce: the probe it answers was sent for an earlier record of the address, but the probe file
   * of the present record is the one it removes, as probes carry no number. Records without a time to be read
   * do not matter here, as their addresses are not unsubscribed.
   */
  predicate Stale(events: seq<Event>, k: nat, n: string, bouncelife: int)
    requires k < |events|
  {
    var before := Run(events[..k], bouncelife);
    && events[k].ProbeBounce? && events[k].n == n && n in before.probes
    && n in before.records && before.records[n].Some?
    && events[k].record != Birth(events[..k], n, bouncelife)
  }

  /** The probe of this very record bounced, or could not be sent. */
  predicate OwnAnswer(events: seq<Event>, j: nat, n: string, bouncelife: int)
    requires j < |events| && n in Run(events, bouncelife).records
  {
    && Answers(events, j, n, bouncelife)
    && (events[j].ProbeBounce? ==> events[j].record == Birth(events, n, bouncelife))
  }

  /** The answer that lets a probed address be unsubscribed is its own exactly if it is no late bounce. */
  lemma OwnAnswerIff(events: seq<Event>, n: string, bouncelife: int)
    requires Unsubscribes(Run(events, bouncelife), n, bouncelife) && LastProbe(events, n, bouncelife) >= 0
    ensures var j := LastAnswer(events, n, bouncelife);
            && j >= LastProbe(events, n, bouncelife)
            && (OwnAnswer(events, j, n, bouncelife) <==> !Stale(events, j, n, bouncelife))
  {
    UnsubSafe(events, n, bouncelife);
    TheAnswer(events, n, bouncelife);
    SameTime(events, LastAnswer(events, n, bouncelife), n, bouncelife);
  }

  lemma SameTime(events: seq<Event>, j: nat, n: string, bouncelife: int)
    requires j < |events| && n in Run(events, bouncelife).records && n in Run(events[..j], bouncelife).records
    requires Birth(events[..j], n, bouncelife) == Birth(events, n, bouncelife)
    ensures Run(events[..j], bouncelife).records[n] == Run(events, bouncelife).records[n]
  {
    SinceBirth(events, n, bouncelife);
    SinceBirth(events[..j], n, bouncelife);
  }

  /** An address that could be unsubscribed now has been probed in vain for this record, if it has been probed. */
  ghost predicate ForOwnProbe(events: seq<Event>, n: string, bouncelife: int) {
    Unsubscribes(Run(events, bouncelife), n, bouncelife) && LastProbe(events, n, bouncelife) >= 0 ==>
      var j := LastAnswer(events, n, bouncelife);
      j >= LastProbe(events, n, bouncelife) && OwnAnswer(events, j, n, bouncelife)
  }

  ghost predicate NoLateBounce(events: seq<Event>, bouncelife: int) {
    forall k, n :: 0 <= k < |events| ==> !Stale(events, k, n, bouncelife)
  }

  /** Wherever the run is stopped, and however long is waited then, every unsubscription is founded. */
  ghost predicate NeverAstray(events: seq<Event>, bouncelife: int) {
    forall m, d: nat, n :: 0 <= m <= |events| ==> ForOwnProbe(events[..m] + [Tick(d)], n, bouncelife)
  }

  /** A run never gets to an unfounded unsubscription exactly if it has no late bounce. */
  lemma NeverAstrayIff(events: seq<Event>, bouncelife: int)
    ensures NeverAstray(events, bouncelife) <==> NoLateBounce(events, bouncelife)
  {
    if NoLateBounce(events, bouncelife) {
      forall m, d: nat, n | 0 <= m <= |events| ensures ForOwnProbe(events[..m] + [Tick(d)], n, bouncelife) {
        UnsubForOwnProbe(events, m, d, n, bouncelife);
      }
    }
    if NeverAstray(events, bouncelife) {
      forall k, n | 0 <= k < |events| ensures !Stale(events, k, n, bouncelife) {
        NotStale(events, k, n, bouncelife);
      }
    }
  }

  lemma NotStale(events: seq<Event>, k: nat, n: string, bouncelife: int)
    requires k < |events| && NeverAstray(events, bouncelife)
    ensures !Stale(events, k, n, bouncelife)
  {
    var front := events[..k + 1];
    assert front[..k] == events[..k];
    if n in Run(events[..k], bouncelife).records && Run(events[..k], bouncelife).records[n].Some? {
      assert ForOwnProbe(front + [Tick(Wait(events[..k], n, bouncelife))], n, bouncelife);
      if Stale(front, k, n, bouncelife) {
        StaleLeadsAstray(front, k, n, bouncelife);
      }
    }
  }

  /** Without late bounces, the answer is that of a probe for the record itself, wherever the run is stopped. */
  lemma UnsubForOwnProbe(events: seq<Event>, m: nat, d: nat, n: string, bouncelife: int)
    requires m <= |events| && NoLateBounce(events, bouncelife)
    ensures ForOwnProbe(events[..m] + [Tick(d)], n, bouncelife)
  {
    var later := events[..m] + [Tick(d)];
    if Unsubscribes(Run(later, bouncelife), n, bouncelife) && LastProbe(later, n, bouncelife) >= 0 {
      OwnAnswerIff(later, n, bouncelife);
      var j := LastAnswer(later, n, bouncelife);
      if j < m {
        assert later[..j] == events[..j] && later[j] == events[j];
        assert !Stale(events, j, n, bouncelife);
      }
    }
  }

  /** How long it takes from now until a time has become old. */
  function Patience(time: int, now: nat, bouncelife: int): nat {
    var left := bouncelife + WAITPROBE + time - now;
    if left >= 0 then left else 0
  }

  function Wait(events: seq<Event>, n: string, bouncelife: int): nat
    requires n in Run(events, bouncelife).records && Run(events, bouncelife).records[n].Some?
  {
    Patience(Run(events, bouncelife).records[n].value, Run(events, bouncelife).now, bouncelife)
  }

  /**
   * Every late bounce can end in an unsubscription the record's own probes give no reason for: time only
   * has to go by.
   */
  lemma StaleLeadsAstray(events: seq<Event>, k: nat, n: string, bouncelife: int)
    requires k == |events| - 1 && Stale(events, k, n, bouncelife)
    ensures var later := events + [Tick(Wait(events[..k], n, bouncelife))];
            && Unsubscribes(Run(later, bouncelife), n, bouncelife)
            && LastProbe(later, n, bouncelife) >= 0
            && LastAnswer(later, n, bouncelife) == k
            && !OwnAnswer(later, k, n, bouncelife)
  {
    var d := Wait(events[..k], n, bouncelife);
    var later := events + [Tick(d)];
    assert later[..k + 1] == events && later[..|later| - 1] == events && later[..k] == events[..k];
    RunSnoc(events, Tick(d), bouncelife);
    assert n in Run(events, bouncelife).records;
    SinceBirth(events, n, bouncelife);
    OutMeansProbed(events[..k], n, bouncelife);
    BirthPassed(events, n, bouncelife);
  }

  /** While a probe is out, the record has been probed. */
  lemma {:induction false} OutMeansProbed(events: seq<Event>, n: string, bouncelife: int)
    requires n in Run(events, bouncelife).records && n in Run(events, bouncelife).probes
    ensures LastProbe(events, n, bouncelife) >= 0
    decreases |events|
  {
    var k := |events| - 1;
    ProbesHaveRecords(events[..k], bouncelife);
    if !Sends(events, k, n, bouncelife) {
      OutMeansProbed(events[..k], n, bouncelife);
    }
  }

  lemma BirthPassed(events: seq<Event>, n: string, bouncelife: int)
    requires |events| > 0 && n in Run(events, bouncelife).records
    requires !Begins(events, |events| - 1, n, bouncelife)
    ensures n in Run(events[..|events| - 1], bouncelife).records
    ensures Birth(events, n, bouncelife) == Birth(events[..|events| - 1], n, bouncelife)
  {
  }

  /** A run in which this happens, with the times the programs use. */
  lemma LateBounceExample()
    ensures var a := "joe=x.org";
            var events := [Bounce(a, Some(0)), Probe(a, true), Tick(WAITPROBE + 1), Clean(a),
                           Bounce(a, Some(WAITPROBE + 1)), Probe(a, true), ProbeBounce(a, 0)];
            Stale(events, 6, a, BOUNCELIFE)
  {
    var a, b := "joe=x.org", BOUNCELIFE;
    var e0: seq<Event> := [];
    RunSnoc(e0, Bounce(a, Some(0)), b);
    var e1 := e0 + [Bounce(a, Some(0))];
    RunSnoc(e1, Probe(a, true), b);
    var e2 := e1 + [Probe(a, true)];
    RunSnoc(e2, Tick(WAITPROBE + 1), b);
    var e3 := e2 + [Tick(WAITPROBE + 1)];
    RunSnoc(e3, Clean(a), b);
    var e4 := e3 + [Clean(a)];
    RunSnoc(e4, Bounce(a, Some(WAITPROBE + 1)), b);
    var e5 := e4 + [Bounce(a, Some(WAITPROBE + 1))];
    RunSnoc(e5, Probe(a, true), b);
    var e6 := e5 + [Probe(a, true)];
    var events := [Bounce(a, Some(0)), Probe(a, true), Tick(WAITPROBE + 1), Clean(a),
                   Bounce(a, Some(WAITPROBE + 1)), Probe(a, true), ProbeBounce(a, 0)];
    assert events[..6] == e6 && e6[..5] == e5 && e5[..4] == e4;
    assert Birth(e5, a, b) == 4;
    assert Birth(e6, a, b) == 4;
  }
}
