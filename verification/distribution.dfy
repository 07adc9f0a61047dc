/**
 * Distribution of one mail and the resending of what was not accepted: the batching loop, the senders
 * and requeuemail of src/mlmmj-send.c, and resend_requeue of src/mlmmj-maintd.c. Replies of the
 * mail server, signals and forks are nondeterministic outcomes; the writes to the requeue file succeed.
 */
module Distribution {
  import opened AddressFiles
  import opened Wrappers
  import Bags
  import Seqs

  predicate HasAt(a: Address) {
    '@' in a
  }

  // ---------------------------------------------------------------- the fate of one mail

  function AllLines(files: seq<string>): seq<Address> {
    if files == [] then [] else Lines(files[0]) + AllLines(files[1..])
  }

  /** The addresses among these that mail can be sent to. */
  function Sendable(addrs: seq<Address>): multiset<Address> {
    if addrs == [] then multiset{}
    else Sendable(addrs[..|addrs| - 1])
         + if HasAt(addrs[|addrs| - 1]) then multiset{addrs[|addrs| - 1]} else multiset{}
  }

  lemma {:induction false} SendableCount(addrs: seq<Address>, a: Address)
    ensures Sendable(addrs)[a] == if HasAt(a) then multiset(addrs)[a] else 0
  {
    if addrs != [] {
      SendableCount(addrs[..|addrs| - 1], a);
      Seqs.Snoc(addrs);
    }
  }

  /** The same as a list. */
  function Receivers(addrs: seq<Address>): (r: seq<Address>)
    ensures |r| <= |addrs|
  {
    if addrs == [] then []
    else Receivers(addrs[..|addrs| - 1]) + if HasAt(addrs[|addrs| - 1]) then [addrs[|addrs| - 1]] else []
  }

  /** One mail for each of them. */
  function Singles(addrs: seq<Address>): seq<seq<Address>> {
    if addrs == [] then []
    else Singles(addrs[..|addrs| - 1]) + if HasAt(addrs[|addrs| - 1]) then [[addrs[|addrs| - 1]]] else []
  }

  /** They are the addresses with an '@', in their order. */
  lemma {:induction false} ReceiversAre(addrs: seq<Address>)
    ensures multiset(Receivers(addrs)) == Sendable(addrs)
    ensures |Singles(addrs)| == |Receivers(addrs)|
    ensures forall i :: 0 <= i < |Receivers(addrs)| ==>
              '@' in Receivers(addrs)[i] && Singles(addrs)[i] == [Receivers(addrs)[i]]
  {
    if addrs != [] {
      ReceiversAre(addrs[..|addrs| - 1]);
    }
  }

  /** No mail goes to more than max addresses, and without VERP each to one. */
  predicate Bounded(mails: seq<seq<Address>>, max: nat, verp: bool) {
    forall i :: 0 <= i < |mails| ==> if verp then |mails[i]| <= max else |mails[i]| == 1
  }

  lemma {:induction false} SinglesBounded(mails: seq<seq<Address>>, addrs: seq<Address>, max: nat, verp: bool)
    requires Bounded(mails, max, verp) && max > 0
    ensures Bounded(mails + Singles(addrs), max, verp)
    decreases |addrs|
  {
    if addrs == [] {
      Seqs.Unit(mails);
    } else {
      var n := |addrs| - 1;
      SinglesBounded(mails, addrs[..n], max, verp);
      Seqs.Assoc(mails, Singles(addrs[..n]), if HasAt(addrs[n]) then [[addrs[n]]] else []);
    }
  }

  lemma TogetherBounded(mails: seq<seq<Address>>, addrs: seq<Address>, max: nat)
    requires Bounded(mails, max, true) && |addrs| <= max
    ensures Bounded(mails + [Receivers(addrs)], max, true)
  {
    hide Receivers;
  }

  /** What has been done with, and in which mails. */
  type Account = (multiset<Address>, seq<seq<Address>>)

  /** A mail has gone to each of these that mail can be sent to. */
  ghost predicate SentApart(before: Account, after: Account, addrs: seq<Address>) {
    after.0 == before.0 + Sendable(addrs) && after.1 == before.1 + Singles(addrs)
  }

  lemma SentNone(before: Account, addr: Address)
    requires !HasAt(addr)
    ensures SentApart(before, before, [addr])
  {
    assert [addr][..0] == [];
    Seqs.Unit(before.1);
  }

  lemma SentYet(before: Account, addrs: seq<Address>)
    ensures SentApart(before, before, addrs[..0])
  {
    Seqs.Unit(before.1);
  }

  lemma SentOne(before: Account, addr: Address)
    requires HasAt(addr)
    ensures SentApart(before, (before.0 + multiset{addr}, before.1 + [[addr]]), [addr])
  {
    assert [addr][..0] == [] && Sendable([]) == multiset{} && Singles([]) == [];
    assert Sendable([addr]) == multiset{addr} && Singles([addr]) == [[addr]];
  }

  lemma SentMore(before: Account, now: Account, after: Account, addrs: seq<Address>, i: nat)
    requires i < |addrs| && SentApart(before, now, addrs[..i]) && SentApart(now, after, [addrs[i]])
    ensures SentApart(before, after, addrs[..i + 1])
  {
    var a := addrs[i];
    NextAddress(addrs, i);
    assert [a][..0] == [];
    assert Sendable([a]) == if HasAt(a) then multiset{a} else multiset{};
    assert Singles([a]) == if HasAt(a) then [[a]] else [];
    hide Sendable, Singles, HasAt;
    Bags.Assoc(before.0, Sendable(addrs[..i]), Sendable([a]));
    Seqs.Assoc(before.1, Singles(addrs[..i]), Singles([a]));
  }

  /** In hand are the addresses from the i-th on, and others. */
  ghost predicate Holding(hand: multiset<Address>, kept: multiset<Address>, addrs: seq<Address>, i: nat) {
    i <= |addrs| && hand == kept + multiset(addrs[i..])
  }

  lemma HoldingAll(hand: multiset<Address>, addrs: seq<Address>)
    requires multiset(addrs) <= hand
    ensures Holding(hand, hand - multiset(addrs), addrs, 0)
  {
    assert addrs[0..] == addrs;
    Bags.Parts(hand, multiset(addrs));
  }

  lemma HoldingNone(hand: multiset<Address>, kept: multiset<Address>, addrs: seq<Address>)
    requires Holding(hand, kept, addrs, |addrs|)
    ensures hand == kept
  {
    assert addrs[|addrs|..] == [];
  }

  lemma HoldingOne(hand: multiset<Address>, kept: multiset<Address>, addrs: seq<Address>, i: nat)
    requires i < |addrs| && Holding(hand, kept, addrs, i)
    ensures addrs[i] in hand && hand - multiset{addrs[i]} == kept + multiset(addrs[i + 1..])
    ensures multiset(addrs[i..]) <= hand && hand - multiset(addrs[i..]) == kept
  {
    hide Lines, HasAt;
    NextAddress(addrs, i);
    Bags.Fits(kept, multiset(addrs[i..]));
    Bags.Fits(kept + multiset(addrs[i + 1..]), multiset{addrs[i]});
    Bags.Swap(kept, multiset{addrs[i]}, multiset(addrs[i + 1..]));
  }

  /** One mail: the addresses it is due to, and where each of them is. */
  class Delivery {
    ghost const total: multiset<Address>
    ghost const omitted: Option<Address>
    ghost var inHand: multiset<Address>    // still unread, or in the current batch
    ghost var acked: multiset<Address>     // accepted by the mail server or handed to bounce handling
    ghost var mails: seq<seq<Address>>     // what was sent for that: each time to these addresses at once
    var requeue: string                    // requeue/<index>/subscribers; empty if there is none
    var resending: string                  // requeue/<index>/subscribers.resending
    ghost var active: bool                 // the latter is being sent to
    var gotsigterm: bool
    var healthy: bool                      // nothing fails: mail is accepted, no signal comes, children start
    ghost var queuedBefore: string         // what the requeue file held when the program began

    /** Addresses whose fate counts. */
    ghost predicate Counts(a: Address) {
      HasAt(a) && omitted != Some(a)
    }

    ghost function Account(): Account
      reads this
    {
      (acked, mails)
    }

    ghost function Waiting(): multiset<Address>
      reads this
    {
      multiset(Lines(requeue)) + if active then multiset{} else multiset(Lines(resending))
    }

    /** Every address is in one place: nothing is lost, and nothing is there twice. */
    ghost predicate Valid()
      reads this
    {
      && EndsInNewline(requeue)
      && (resending != "" && !active ==> requeue == "")
      && Balanced(acked, inHand, Waiting())
      && (healthy ==> !gotsigterm && requeue == queuedBefore)
    }

    ghost predicate Balanced(acked: multiset<Address>, inHand: multiset<Address>, waiting: multiset<Address>) {
      && (forall a :: Counts(a) ==> acked[a] + inHand[a] + waiting[a] == total[a])
      && (Spared() ==> inHand[omitted.value] <= 1 && acked[omitted.value] == waiting[omitted.value] == 0)
    }

    /** The omitted address is held once at most: then it gets no mail. */
    ghost predicate Spared() {
      omitted.Some? && total[omitted.value] <= 1
    }

    ghost predicate Clear(batch: multiset<Address>) {
      Spared() ==> omitted.value !in batch
    }

    lemma ToAcked(acked: multiset<Address>, inHand: multiset<Address>, waiting: multiset<Address>, to: Address)
      requires Balanced(acked, inHand, waiting) && to in inHand && Clear(multiset{to})
      ensures Balanced(acked + multiset{to}, inHand - multiset{to}, waiting)
    {
    }

    lemma ToWaiting(acked: multiset<Address>, inHand: multiset<Address>, waiting: multiset<Address>,
                    batch: multiset<Address>)
      requires Balanced(acked, inHand, waiting) && batch <= inHand && Clear(batch)
      ensures Balanced(acked, inHand - batch, waiting + batch)
    {
    }

    lemma Accounted(a: Address)
      requires Valid() && !active && inHand == multiset{} && Counts(a)
      ensures acked[a] + multiset(Lines(requeue))[a] + multiset(Lines(resending))[a] == total[a]
    {
      hide Lines;
    }

    lemma SparedAtEnd()
      requires Valid() && !active && inHand == multiset{}
      ensures Spared() ==>
                omitted.value !in acked && omitted.value !in Lines(requeue) && omitted.value !in Lines(resending)
    {
      hide Lines;
      assert Spared() ==> Waiting()[omitted.value] == 0;
    }

    constructor (files: seq<string>, ghost omit: Option<Address>, healthy: bool)
      ensures Valid() && total == inHand == multiset(AllLines(files)) && omitted == omit
      ensures acked == multiset{} && mails == []
      ensures requeue == resending == queuedBefore == "" && !active && this.healthy == healthy
    {
      total, inHand, omitted, this.healthy := multiset(AllLines(files)), multiset(AllLines(files)), omit, healthy;
      acked, mails, requeue, resending, queuedBefore, active, gotsigterm := multiset{}, [], "", "", "", false, false;
    }

    /** send_mail, with whatever the mail server answers; 0 means done with the address. */
    method SendMail(to: Address) returns (res: bool)
      requires Valid() && to in inHand && Clear(multiset{to})
      modifies this`inHand, this`acked, this`mails
      ensures Valid() && (healthy ==> res)
      ensures res ==> inHand == old(inHand) - multiset{to} && acked == old(acked) + multiset{to}
      ensures !res ==> inHand == old(inHand) && acked == old(acked)
      ensures mails == if res then old(mails) + [[to]] else old(mails)
    {
      hide Lines, LineLen, EndsInNewline, Balanced, Clear;
      res :| healthy ==> res;
      if res {
        ToAcked(acked, inHand, Waiting(), to);
        inHand, acked, mails := inHand - multiset{to}, acked + multiset{to}, mails + [[to]];
      }
    }

    /** The TERM signal can come at any time and is remembered. */
    method SignalArrives()
      requires Valid()
      modifies this`gotsigterm
      ensures Valid() && (old(gotsigterm) ==> gotsigterm) && (healthy ==> !gotsigterm)
    {
      var term: bool :| healthy ==> !term;
      gotsigterm := gotsigterm || term;
    }

    /**
     * requeuemail: the addresses behind the failing one first, so that they are tried first, then that one.
     * It is only called when something has failed.
     */
    method RequeueMail(addrs: seq<Address>, addrcount: nat)
      requires Valid() && !healthy && addrcount < |addrs| && AreLines(addrs)
      requires multiset(addrs[addrcount..]) <= inHand && Clear(multiset(addrs)) && (active || resending == "")
      modifies this`requeue, this`inHand
      ensures Valid() && inHand == old(inHand) - multiset(addrs[addrcount..])
      ensures requeue == old(requeue) + Text(addrs[addrcount + 1..] + [addrs[addrcount]])
    {
      hide Lines, LineLen, Text, EndsInNewline, AreLines, Balanced, Sendable, Counts, Clear;
      ClearRest(addrs, addrcount);
      ghost var aside := if active then multiset{} else multiset(Lines(resending));
      Requeueing(acked, inHand, requeue, aside, addrs, addrcount);
      WriteLines(addrs, addrcount);
      inHand := inHand - multiset(addrs[addrcount..]);
    }

    lemma ClearRest(addrs: seq<Address>, k: nat)
      requires k <= |addrs| && Clear(multiset(addrs))
      ensures Clear(multiset(addrs[k..]))
      ensures k < |addrs| ==> Clear(multiset{addrs[k]})
    {
      Seqs.Rejoin(addrs, k);
      assert multiset(addrs) == multiset(addrs[..k]) + multiset(addrs[k..]);
    }

    lemma Requeueing(acked: multiset<Address>, inHand: multiset<Address>, before: string, aside: multiset<Address>,
                     addrs: seq<Address>, k: nat)
      requires k < |addrs| && AreLines(addrs) && EndsInNewline(before) && multiset(addrs[k..]) <= inHand
      requires Balanced(acked, inHand, multiset(Lines(before)) + aside) && Clear(multiset(addrs[k..]))
      ensures var now := before + Text(addrs[k + 1..] + [addrs[k]]);
              EndsInNewline(now)
              && Balanced(acked, inHand - multiset(addrs[k..]), multiset(Lines(now)) + aside)
    {
      hide Lines, LineLen, Text, EndsInNewline, AreLines, Balanced, Clear;
      Requeued(before, addrs, k);
      Bags.Swap(multiset(Lines(before)), aside, multiset(addrs[k..]));
      Bags.Assoc(multiset(Lines(before)), aside, multiset(addrs[k..]));
      ToWaiting(acked, inHand, multiset(Lines(before)) + aside, multiset(addrs[k..]));
    }

    /** The writes of requeuemail. */
    method WriteLines(addrs: seq<Address>, addrcount: nat)
      requires addrcount < |addrs|
      modifies this`requeue
      ensures requeue == old(requeue) + Text(addrs[addrcount + 1..] + [addrs[addrcount]])
    {
      ghost var queued: seq<Address> := [];
      Seqs.Unit(requeue);
      assert Text([]) == "";
      hide Text;
      var i := addrcount + 1;
      while i < |addrs|
        invariant addrcount < i <= |addrs| && queued == addrs[addrcount + 1..i]
        invariant requeue == old(requeue) + Text(queued)
      {
        AppendLine(requeue, old(requeue), queued, addrs[i]);
        Seqs.Grow(addrs, addrcount + 1, i);
        requeue := requeue + (addrs[i] + "\n");
        queued := queued + [addrs[i]];
        i := i + 1;
      }
      assert queued == addrs[addrcount + 1..];
      AppendLine(requeue, old(requeue), queued, addrs[addrcount]);
      requeue := requeue + (addrs[addrcount] + "\n");
    }

    /** A program begins: no signal has come to it. */
    method Begin(healthy: bool)
      requires Valid()
      modifies this`gotsigterm, this`healthy, this`queuedBefore
      ensures Valid() && queuedBefore == requeue && this.healthy == healthy
    {
      hide Lines, EndsInNewline, Balanced;
      gotsigterm, this.healthy, queuedBefore := false, healthy, requeue;
    }

    lemma NothingQueued()
      requires Valid() && healthy
      ensures requeue == queuedBefore
    {
    }

    /** rename(2). */
    method MoveFile()
      requires Valid() && !active && !healthy && requeue != ""
      modifies this`requeue, this`resending
      ensures Valid() && requeue == "" && resending == old(requeue)
    {
      hide Lines, LineLen, Balanced;
      NoLines();
      ghost var waiting := Waiting();
      requeue, resending := "", requeue;
      assert Waiting() == waiting;
    }

    /** The renamed file is opened: its addresses are in hand now. */
    ghost method Activate()
      requires Valid() && !active && inHand == multiset{} && requeue == ""
      modifies this`active, this`inHand
      ensures Valid() && active && inHand == multiset(Lines(resending)) && Clear(inHand)
    {
      hide Lines, LineLen, Balanced, EndsInNewline;
      NoLines();
      ToHand(acked, multiset(Lines(resending)));
      assert Waiting() == multiset(Lines(resending));
      active, inHand := true, multiset(Lines(resending));
      assert Waiting() == multiset{};
    }

    /** What has waited is taken in hand. */
    lemma ToHand(acked: multiset<Address>, file: multiset<Address>)
      ensures Balanced(acked, multiset{}, file) ==> Balanced(acked, file, multiset{}) && Clear(file)
    {
    }

    /** The renamed file is removed once it has been sent to. */
    method Unlink()
      requires Valid() && active && inHand == multiset{}
      modifies this`active, this`resending
      ensures Valid() && !active && resending == ""
    {
      assert Lines("") == [];
      hide LineLen, Lines;
      active, resending := false, "";
    }

    /** The addresses of a batch that are done with leave the current batch. */
    ghost method Ignore(addr: Address)
      requires Valid() && addr in inHand && !Counts(addr)
      modifies this`inHand
      ensures Valid() && inHand == old(inHand) - multiset{addr}
    {
      hide Lines, EndsInNewline;
      inHand := inHand - multiset{addr};
    }

    /**
     * send_mail_many_list: one mail an address, up to the first failure or signal at addrs[k]; from there
     * on everything is requeued.
     */
    method SendManyList(addrs: seq<Address>) returns (ghost k: nat)
      requires Valid() && AreLines(addrs) && multiset(addrs) <= inHand && (active || resending == "")
      requires Clear(multiset(addrs))
      modifies this`inHand, this`acked, this`mails, this`requeue, this`gotsigterm
      ensures Valid() && inHand == old(inHand) - multiset(addrs)
      ensures k <= |addrs| && SentApart(old(Account()), Account(), addrs[..k])
      ensures k == |addrs| ==> requeue == old(requeue)
      ensures k < |addrs| ==> HasAt(addrs[k]) && requeue == old(requeue) + Text(addrs[k + 1..] + [addrs[k]])
    {
      hide *;
      k := 0;
      var i := 0;
      ghost var kept := inHand - multiset(addrs);
      HoldingAll(inHand, addrs);
      SentYet(Account(), addrs);
      while i < |addrs|
        invariant k == i <= |addrs| && Valid() && requeue == old(requeue)
        invariant Holding(inHand, kept, addrs, i) && SentApart(old(Account()), Account(), addrs[..i])
      {
        ghost var now := Account();
        var done := SendNext(addrs, i, kept);
        if done {
          return;
        }
        SentMore(old(Account()), now, Account(), addrs, i);
        i, k := i + 1, i + 1;
      }
      HoldingNone(inHand, kept, addrs);
    }

    /** The loop body: one address, or the end of the list at a failure or a signal. */
    method SendNext(addrs: seq<Address>, i: nat, ghost kept: multiset<Address>) returns (done: bool)
      requires Valid() && AreLines(addrs) && (active || resending == "") && Clear(multiset(addrs))
      requires i < |addrs| && Holding(inHand, kept, addrs, i)
      modifies this`inHand, this`acked, this`mails, this`requeue, this`gotsigterm
      ensures Valid()
      ensures !done ==> Holding(inHand, kept, addrs, i + 1) && requeue == old(requeue)
                        && SentApart(old(Account()), Account(), [addrs[i]])
      ensures done ==> inHand == kept && HasAt(addrs[i]) && Account() == old(Account())
                       && requeue == old(requeue) + Text(addrs[i + 1..] + [addrs[i]])
    {
      hide Lines, Text, EndsInNewline, AreLines, SentApart, Valid, Clear, HasAt, Holding;
      SignalArrives();
      if !HasAt(addrs[i]) {
        Drop(addrs, i, kept);
        SentNone(Account(), addrs[i]);
        return false;
      }
      SentOne(Account(), addrs[i]);
      done := SendOrRequeue(addrs, i, kept);
    }

    ghost method Drop(addrs: seq<Address>, i: nat, kept: multiset<Address>)
      requires Valid() && i < |addrs| && Holding(inHand, kept, addrs, i) && !HasAt(addrs[i])
      modifies this`inHand
      ensures Valid() && Holding(inHand, kept, addrs, i + 1)
    {
      HoldingOne(inHand, kept, addrs, i);
      hide Valid;
      Ignore(addrs[i]);
    }

    method SendOrRequeue(addrs: seq<Address>, i: nat, ghost kept: multiset<Address>) returns (done: bool)
      requires Valid() && AreLines(addrs) && (active || resending == "") && Clear(multiset(addrs))
      requires i < |addrs| && Holding(inHand, kept, addrs, i)
      modifies this`inHand, this`acked, this`mails, this`requeue, this`gotsigterm
      ensures Valid()
      ensures !done ==> Holding(inHand, kept, addrs, i + 1) && acked == old(acked) + multiset{addrs[i]}
                        && requeue == old(requeue) && mails == old(mails) + [[addrs[i]]]
      ensures done ==> inHand == kept && Account() == old(Account())
                       && requeue == old(requeue) + Text(addrs[i + 1..] + [addrs[i]])
    {
      HoldingOne(inHand, kept, addrs, i);
      ClearRest(addrs, i);
      hide Lines, Text, EndsInNewline, AreLines, Sendable, Clear, Valid;
      var sent := TrySend(addrs[i]);
      if !sent {
        RequeueMail(addrs, i);
      }
      done := !sent;
    }

    method TrySend(addr: Address) returns (sent: bool)
      requires Valid() && addr in inHand && Clear(multiset{addr})
      modifies this`inHand, this`acked, this`mails
      ensures Valid() && (healthy ==> sent)
      ensures sent ==> inHand == old(inHand) - multiset{addr} && acked == old(acked) + multiset{addr}
      ensures !sent ==> inHand == old(inHand) && acked == old(acked)
      ensures mails == if sent then old(mails) + [[addr]] else old(mails)
    {
      HealthyRuns();
      hide Valid, Clear;
      if gotsigterm {
        return false;
      }
      sent := SendMail(addr);
    }

    lemma HealthyRuns()
      requires Valid()
      ensures healthy ==> !gotsigterm
    {
    }

    /** send_mail_verp: one mail for all addresses; unless it is accepted, none of them is done with. */
    method SendVerp(addrs: seq<Address>) returns (res: bool)
      requires Valid() && multiset(addrs) <= inHand && Clear(multiset(addrs))
      modifies this`inHand, this`acked, this`mails, this`gotsigterm
      ensures Valid()
      ensures res ==> inHand == old(inHand) - multiset(addrs) && acked == old(acked) + Sendable(addrs)
      ensures !res ==> !healthy && inHand == old(inHand) && acked == old(acked)
      ensures mails == if res then old(mails) + [Receivers(addrs)] else old(mails)
    {
      hide Lines, EndsInNewline, Sendable;
      var i := 0;
      while i < |addrs|
        invariant i <= |addrs| && Valid() && inHand == old(inHand) && acked == old(acked) && mails == old(mails)
      {
        SignalArrives();
        if gotsigterm {
          return false;
        }
        if HasAt(addrs[i]) {
          var accepted: bool :| healthy ==> accepted;
          if !accepted {
            return false;
          }
        }
        i := i + 1;
      }
      res :| healthy ==> res;
      if res {
        AllDone(addrs);
      }
    }

    /** The mail for all these addresses has been accepted. */
    ghost method AllDone(addrs: seq<Address>)
      requires Valid() && multiset(addrs) <= inHand && Clear(multiset(addrs))
      modifies this`inHand, this`acked, this`mails
      ensures Valid() && inHand == old(inHand) - multiset(addrs) && acked == old(acked) + Sendable(addrs)
      ensures mails == old(mails) + [Receivers(addrs)]
    {
      hide Lines, EndsInNewline, Sendable, Receivers, Balanced, Clear;
      AllToAcked(acked, inHand, Waiting(), addrs);
      inHand, acked, mails := inHand - multiset(addrs), acked + Sendable(addrs), mails + [Receivers(addrs)];
    }

    lemma AllToAcked(acked: multiset<Address>, inHand: multiset<Address>, waiting: multiset<Address>,
                     addrs: seq<Address>)
      requires Balanced(acked, inHand, waiting) && multiset(addrs) <= inHand && Clear(multiset(addrs))
      ensures Balanced(acked + Sendable(addrs), inHand - multiset(addrs), waiting)
    {
      hide Lines, EndsInNewline, Sendable;
      forall a ensures Sendable(addrs)[a] == if HasAt(a) then multiset(addrs)[a] else 0 {
        SendableCount(addrs, a);
      }
    }

    /** A batch: with VERP one mail for all its addresses, otherwise a mail for each up to the k-th, where it fails. */
    method SendBatch(addrs: seq<Address>, verp: bool, ghost max: nat) returns (ghost k: nat)
      requires Valid() && AreLines(addrs) && addrs != [] && multiset(addrs) <= inHand && (active || resending == "")
      requires Clear(multiset(addrs)) && |addrs| <= max && max > 0
      modifies this`inHand, this`acked, this`mails, this`requeue, this`gotsigterm
      ensures Valid() && inHand == old(inHand) - multiset(addrs)
      ensures k <= |addrs| && (k == |addrs| ==> requeue == old(requeue))
      ensures k < |addrs| ==> requeue == old(requeue) + Text(addrs[k + 1..] + [addrs[k]]) != old(requeue)
      ensures verp ==> k == 0 || k == |addrs|
      ensures verp && k == |addrs| ==>
                acked == old(acked) + Sendable(addrs) && mails == old(mails) + [Receivers(addrs)]
      ensures verp && k < |addrs| ==> acked == old(acked) && mails == old(mails)
      ensures !verp ==> acked == old(acked) + Sendable(addrs[..k]) && mails == old(mails) + Singles(addrs[..k])
      ensures old(Bounded(mails, max, verp)) ==> Bounded(mails, max, verp)
      ensures old(Bounded(mails, max, true)) ==> Bounded(mails, max, true)
    {
      hide Lines, Text, EndsInNewline, AreLines, Sendable, Singles, Receivers, Bounded, Valid, Clear;
      if verp {
        k := SendTogether(addrs);
        if old(Bounded(mails, max, true)) { TogetherBounded(old(mails), addrs, max); }
      } else {
        k := SendApart(addrs);
        if old(Bounded(mails, max, false)) { SinglesBounded(old(mails), addrs[..k], max, false); }
        if old(Bounded(mails, max, true)) { SinglesBounded(old(mails), addrs[..k], max, true); }
      }
    }

    method SendTogether(addrs: seq<Address>) returns (ghost k: nat)
      requires Valid() && AreLines(addrs) && addrs != [] && multiset(addrs) <= inHand && (active || resending == "")
      requires Clear(multiset(addrs))
      modifies this`inHand, this`acked, this`mails, this`requeue, this`gotsigterm
      ensures Valid() && inHand == old(inHand) - multiset(addrs) && (k == 0 || k == |addrs|)
      ensures k == |addrs| ==> requeue == old(requeue) && acked == old(acked) + Sendable(addrs)
                               && mails == old(mails) + [Receivers(addrs)]
      ensures k == 0 ==> requeue == old(requeue) + Text(addrs[1..] + [addrs[0]]) != old(requeue)
                         && acked == old(acked) && mails == old(mails)
    {
      QueuedText(addrs);
      hide Lines, Text, EndsInNewline, AreLines, Sendable, Receivers, Valid, Clear;
      var sent := SendVerp(addrs);
      k := |addrs|;
      if !sent {
        assert addrs[0..] == addrs;
        RequeueMail(addrs, 0);
        k := 0;
      }
    }

    method SendApart(addrs: seq<Address>) returns (ghost k: nat)
      requires Valid() && AreLines(addrs) && addrs != [] && multiset(addrs) <= inHand && (active || resending == "")
      requires Clear(multiset(addrs))
      modifies this`inHand, this`acked, this`mails, this`requeue, this`gotsigterm
      ensures Valid() && inHand == old(inHand) - multiset(addrs)
      ensures k <= |addrs| && (k == |addrs| ==> requeue == old(requeue))
      ensures acked == old(acked) + Sendable(addrs[..k]) && mails == old(mails) + Singles(addrs[..k])
      ensures k < |addrs| ==> requeue == old(requeue) + Text(addrs[k + 1..] + [addrs[k]]) != old(requeue)
    {
      QueuedText(addrs);
      hide Lines, Text, EndsInNewline, AreLines, Sendable, Singles, Valid, Clear;
      k := SendManyList(addrs);
    }
  }

  lemma AppendLine(now: string, before: string, queued: seq<Address>, a: Address)
    requires now == before + Text(queued)
    ensures now + (a + "\n") == before + Text(queued + [a])
  {
    TextConcat(queued, a);
    assert Text(queued + [a]) == Text(queued) + (a + "\n");
    Seqs.Assoc(before, Text(queued), a + "\n");
  }

  lemma Requeued(before: string, addrs: seq<Address>, k: nat)
    requires k < |addrs| && AreLines(addrs) && EndsInNewline(before)
    ensures var now := before + Text(addrs[k + 1..] + [addrs[k]]);
            && EndsInNewline(now)
            && multiset(Lines(now)) == multiset(Lines(before)) + multiset(addrs[k..])
  {
    var queued := addrs[k + 1..] + [addrs[k]];
    Rotated(addrs, k);
    hide Lines, Text, EndsInNewline, AreLines;
    LinesOfText(queued);
    LinesConcat(before, Text(queued));
    EndsConcat(before, Text(queued));
  }

  lemma Rotated(addrs: seq<Address>, k: nat)
    requires k < |addrs| && AreLines(addrs)
    ensures var queued := addrs[k + 1..] + [addrs[k]];
            AreLines(queued) && multiset(queued) == multiset(addrs[k..])
  {
    assert addrs[k..] == [addrs[k]] + addrs[k + 1..];
  }

  lemma QueuedText(addrs: seq<Address>)
    ensures forall k :: 0 <= k < |addrs| ==> Text(addrs[k + 1..] + [addrs[k]]) != ""
  {
  }

  lemma EndsConcat(s: string, t: string)
    requires EndsInNewline(s) && EndsInNewline(t)
    ensures EndsInNewline(s + t)
  {
  }

  lemma NextAddress(addrs: seq<Address>, i: nat)
    requires i < |addrs|
    ensures multiset(addrs[i..]) == multiset{addrs[i]} + multiset(addrs[i + 1..])
    ensures multiset(addrs[..i + 1]) == multiset(addrs[..i]) + multiset{addrs[i]}
    ensures Sendable(addrs[..i + 1])
            == Sendable(addrs[..i]) + if HasAt(addrs[i]) then multiset{addrs[i]} else multiset{}
    ensures Singles(addrs[..i + 1]) == Singles(addrs[..i]) + if HasAt(addrs[i]) then [[addrs[i]]] else []
  {
    assert addrs[i..] == [addrs[i]] + addrs[i + 1..];
    assert addrs[..i + 1] == addrs[..i] + [addrs[i]];
    assert addrs[..i + 1][..i] == addrs[..i];
  }

  // ---------------------------------------------------------------- the runs

  /** The inner loop that omits one address of a list: the entries behind it move up. */
  method RemoveAt(list: seq<Address>, at: nat) returns (r: seq<Address>)
    requires at < |list|
    ensures r == list[..at] + list[at + 1..]
  {
    r := list;
    var count, i := |list| - 1, at;
    while i < count
      invariant at <= i <= count && |r| == |list|
      invariant forall j :: 0 <= j < at ==> r[j] == list[j]
      invariant forall j :: at <= j < i ==> r[j] == list[j + 1]
      invariant forall j :: i <= j < |r| ==> r[j] == list[j]
    {
      r := r[i := r[i + 1]];
      i := i + 1;
    }
    r := r[..count];
  }

  /** Leaving out the address that is not to get the mail, once among those just read. */
  method OmitFrom(list: seq<Address>, start: nat, omit: Option<Address>) returns (r: seq<Address>)
    requires start <= |list|
    ensures |r| <= |list| && multiset(r) <= multiset(list)
    ensures if omit.Some? && omit.value in list[start..]
            then multiset(list) == multiset(r) + multiset{omit.value} && |r| + 1 == |list|
            else r == list
  {
    r := list;
    if omit.None? {
      return;
    }
    var i := start;
    while i < |list|
      invariant start <= i <= |list| && r == list
      invariant omit.value !in list[start..i]
    {
      if list[i] == omit.value {
        r := RemoveAt(list, i);
        assert list == list[..i] + [list[i]] + list[i + 1..];
        assert list[i] in list[start..];
        return;
      }
      assert list[start..i + 1] == list[start..i] + [list[i]];
      i := i + 1;
    }
  }

  /** Addresses move from the file to the batch. */
  lemma Taken(slist: seq<Address>, read: seq<Address>, unread: seq<Address>)
    requires AreLines(slist) && AreLines(read + unread)
    ensures AreLines(slist + read)
    ensures multiset(slist + read) + multiset(unread) == multiset(slist) + multiset(read + unread)
  {
    assert forall i :: 0 <= i < |read| ==> (read + unread)[i] == read[i];
  }

  /** A batch that is full is sent. */
  method Flush(mail: Delivery, max: nat, verp: bool, batch: seq<Address>, ghost rest: multiset<Address>)
    returns (stl: seq<Address>)
    requires mail.Valid() && (mail.active || mail.resending == "")
    requires |batch| <= max && 0 < max && AreLines(batch) && mail.inHand == multiset(batch) + rest
    requires mail.Clear(multiset(batch))
    modifies mail`inHand, mail`acked, mail`mails, mail`requeue, mail`gotsigterm
    ensures mail.Valid() && |stl| < max && AreLines(stl) && mail.inHand == multiset(stl) + rest
    ensures mail.Clear(multiset(stl))
    ensures old(Bounded(mail.mails, max, verp)) ==> Bounded(mail.mails, max, verp)
    ensures old(Bounded(mail.mails, max, true)) ==> Bounded(mail.mails, max, true)
  {
    stl := batch;
    if |stl| == max {
      Bags.Fits(rest, multiset(stl));
      ghost var _ := mail.SendBatch(stl, verp, max);
      stl := [];
    }
  }

  /** One read from a file of addresses to send to again. */
  method ReadMore(mail: Delivery, subscribers: AddressFile, max: nat, batch: seq<Address>)
    returns (stl: seq<Address>, left: nat)
    requires subscribers.Valid() && |batch| < max && AreLines(batch)
    requires mail.inHand == multiset(batch) + multiset(subscribers.Unread())
    modifies subscribers
    ensures subscribers.Valid() && |stl| <= max && AreLines(stl)
    ensures mail.inHand == multiset(stl) + multiset(subscribers.Unread())
    ensures left == |subscribers.bytes| - subscribers.offset
    ensures left == 0 ==> subscribers.Unread() == []
    ensures left < old(|subscribers.bytes| - subscribers.offset) || old(subscribers.offset) == |subscribers.bytes|
  {
    hide Lines;
    ghost var read;
    stl, left, read := subscribers.GetAddrs(batch, max);
    Taken(batch, read, subscribers.Unread());
  }

  /** send_mail_many_fd: a file of addresses in batches. */
  method SendManyFd(mail: Delivery, subscribers: AddressFile, max: nat)
    requires mail.Valid() && subscribers.Valid() && max > 0 && (mail.active || mail.resending == "")
    requires mail.inHand == multiset(subscribers.Unread()) && mail.Clear(mail.inHand)
    modifies subscribers, mail`inHand, mail`acked, mail`mails, mail`requeue, mail`gotsigterm
    ensures mail.Valid() && mail.inHand == multiset{}
    ensures old(Bounded(mail.mails, max, false)) ==> Bounded(mail.mails, max, false)
    ensures old(Bounded(mail.mails, max, true)) ==> Bounded(mail.mails, max, true)
  {
    assert AreLines([]);
    hide Lines, AreLines, mail.Valid, Sendable, Bounded;
    var stl: seq<Address>, left, first := [], 0, true;
    while first || left > 0
      invariant mail.Valid() && subscribers.Valid() && |stl| < max && AreLines(stl)
      invariant mail.inHand == multiset(stl) + multiset(subscribers.Unread()) && mail.Clear(mail.inHand)
      invariant !first ==> left == |subscribers.bytes| - subscribers.offset
      invariant !first && left == 0 ==> subscribers.Unread() == []
      invariant old(Bounded(mail.mails, max, false)) ==> Bounded(mail.mails, max, false)
      invariant old(Bounded(mail.mails, max, true)) ==> Bounded(mail.mails, max, true)
      decreases first, |subscribers.bytes| - subscribers.offset
    {
      stl, left := ReadMore(mail, subscribers, max, stl);
      first := false;
      stl := Flush(mail, max, false, stl, multiset(subscribers.Unread()));
    }
    if stl != [] {
      ghost var _ := mail.SendBatch(stl, false, max);
    }
  }

  /**
   * The batching loop of main: the subscriber files one after the other, batches carried from file to
   * file, the omitted address left out.
   */
  method Distribute(mail: Delivery, files: seq<string>, omit: Option<Address>, max: nat, verp: bool)
    requires mail.Valid() && max > 0 && mail.resending == "" && mail.omitted == omit
    requires mail.inHand == multiset(AllLines(files))
    modifies mail`inHand, mail`acked, mail`mails, mail`requeue, mail`gotsigterm
    ensures mail.Valid() && mail.inHand == multiset{}
    ensures mail.resending == "" && mail.active == old(mail.active)
    ensures mail.healthy ==> mail.requeue == old(mail.queuedBefore)
    ensures old(Bounded(mail.mails, max, verp)) ==> Bounded(mail.mails, max, verp)
  {
    hide mail.Valid, AreLines, mail.Clear, Bounded;
    var stl := DistributeFiles(mail, files, omit, max, verp);
    if stl != [] {
      ghost var _ := mail.SendBatch(stl, verp, max);
    }
    if mail.healthy {
      mail.NothingQueued();
    }
  }

  /** All subscriber files; what is left over is the last batch. */
  method DistributeFiles(mail: Delivery, files: seq<string>, omit: Option<Address>, max: nat, verp: bool)
    returns (stl: seq<Address>)
    requires mail.Valid() && max > 0 && mail.resending == "" && mail.omitted == omit
    requires mail.inHand == multiset(AllLines(files))
    modifies mail`inHand, mail`acked, mail`mails, mail`requeue, mail`gotsigterm
    ensures mail.Valid() && AreLines(stl) && mail.Clear(multiset(stl)) && mail.inHand == multiset(stl) && |stl| < max
    ensures old(Bounded(mail.mails, max, verp)) ==> Bounded(mail.mails, max, verp)
  {
    assert AreLines([]);
    assert AllLines(files[|files|..]) == [] && mail.Clear(multiset([]));
    hide Lines, LineLen, AreLines, AllLines, mail.Valid, mail.Clear, Bounded;
    stl := [];
    assert files[0..] == files;
    ghost var later := multiset(AllLines(files));
    var f := 0;
    while f < |files|
      invariant f <= |files| && mail.Valid() && |stl| < max && AreLines(stl) && mail.Clear(multiset(stl))
      invariant mail.inHand == multiset(stl) + later && later == multiset(AllLines(files[f..]))
      invariant old(Bounded(mail.mails, max, verp)) ==> Bounded(mail.mails, max, verp)
    {
      NextFile(files, f);
      ghost var here := multiset(Lines(files[f]));
      later := multiset(AllLines(files[f + 1..]));
      Bags.Assoc(multiset(stl), here, later);
      stl := DistributeFile(mail, files[f], omit, max, verp, stl, later);
      f := f + 1;
    }
  }

  lemma NextFile(files: seq<string>, f: nat)
    requires f < |files|
    ensures multiset(AllLines(files[f..])) == multiset(Lines(files[f])) + multiset(AllLines(files[f + 1..]))
  {
    hide Lines;
    assert files[f..][0] == files[f] && files[f..][1..] == files[f + 1..];
  }

  /** One subscriber file; `later` is what the following files hold. */
  method DistributeFile(mail: Delivery, file: string, omit: Option<Address>, max: nat, verp: bool, batch: seq<Address>,
                        ghost later: multiset<Address>) returns (stl: seq<Address>)
    requires mail.Valid() && max > 0 && mail.resending == "" && mail.omitted == omit
    requires |batch| < max && AreLines(batch) && mail.Clear(multiset(batch))
    requires mail.inHand == (multiset(batch) + multiset(Lines(file))) + later
    modifies mail`inHand, mail`acked, mail`mails, mail`requeue, mail`gotsigterm
    ensures mail.Valid() && |stl| < max && AreLines(stl) && mail.Clear(multiset(stl))
    ensures mail.inHand == multiset(stl) + later
    ensures old(Bounded(mail.mails, max, verp)) ==> Bounded(mail.mails, max, verp)
  {
    hide Lines, LineLen, Text, EndsInNewline, AreLines, Sendable, Bounded, mail.Valid, mail.Clear;
    var subscribers := new AddressFile(file);
    stl := batch;
    var left, first := 0, true;
    while first || left > 0
      invariant mail.Valid() && subscribers.Valid() && |stl| < max && AreLines(stl) && mail.Clear(multiset(stl))
      invariant mail.inHand == (multiset(stl) + multiset(subscribers.Unread())) + later
      invariant !first ==> left == |subscribers.bytes| - subscribers.offset
      invariant !first && left == 0 ==> subscribers.Unread() == []
      invariant old(Bounded(mail.mails, max, verp)) ==> Bounded(mail.mails, max, verp)
      decreases first, |subscribers.bytes| - subscribers.offset
    {
      stl, left := FileRound(mail, subscribers, omit, max, verp, stl, later);
      first := false;
    }
  }

  method FileRound(mail: Delivery, subscribers: AddressFile, omit: Option<Address>, max: nat, verp: bool,
                   batch: seq<Address>, ghost later: multiset<Address>) returns (stl: seq<Address>, left: nat)
    requires mail.Valid() && subscribers.Valid() && mail.resending == "" && mail.omitted == omit
    requires |batch| < max && AreLines(batch) && mail.Clear(multiset(batch))
    requires mail.inHand == (multiset(batch) + multiset(subscribers.Unread())) + later
    modifies subscribers, mail`inHand, mail`acked, mail`mails, mail`requeue, mail`gotsigterm
    ensures mail.Valid() && subscribers.Valid() && |stl| < max && AreLines(stl) && mail.Clear(multiset(stl))
    ensures mail.inHand == (multiset(stl) + multiset(subscribers.Unread())) + later
    ensures left == |subscribers.bytes| - subscribers.offset
    ensures left == 0 ==> subscribers.Unread() == []
    ensures left < old(|subscribers.bytes| - subscribers.offset) || old(subscribers.offset) == |subscribers.bytes|
    ensures old(Bounded(mail.mails, max, verp)) ==> Bounded(mail.mails, max, verp)
  {
    hide Lines, AreLines, mail.Valid, Sendable, Bounded;
    stl, left := NextBatch(mail, subscribers, omit, max, batch, later);
    ghost var unread := multiset(subscribers.Unread());
    Bags.Assoc(multiset(stl), unread, later);
    stl := Flush(mail, max, verp, stl, unread + later);
    Bags.Assoc(multiset(stl), unread, later);
  }

  /** One read from a subscriber file, and the search for the omitted address in it. */
  method NextBatch(mail: Delivery, subscribers: AddressFile, omit: Option<Address>, max: nat, batch: seq<Address>,
                   ghost later: multiset<Address>) returns (stl: seq<Address>, left: nat)
    requires mail.Valid() && subscribers.Valid() && mail.omitted == omit
    requires |batch| < max && AreLines(batch) && mail.Clear(multiset(batch))
    requires mail.inHand == (multiset(batch) + multiset(subscribers.Unread())) + later
    modifies subscribers, mail`inHand
    ensures mail.Valid() && subscribers.Valid() && |stl| <= max && AreLines(stl) && mail.Clear(multiset(stl))
    ensures mail.inHand == (multiset(stl) + multiset(subscribers.Unread())) + later
    ensures left == |subscribers.bytes| - subscribers.offset
    ensures left == 0 ==> subscribers.Unread() == []
    ensures left < old(|subscribers.bytes| - subscribers.offset) || old(subscribers.offset) == |subscribers.bytes|
  {
    hide Lines, mail.Valid;
    var list;
    ghost var read;
    list, left, read := subscribers.GetAddrs(batch, max);
    Taken(batch, read, subscribers.Unread());
    assert list[|batch|..] == read;
    HeldOnce(mail, batch, read, subscribers.Unread(), later);
    stl := OmitFrom(list, |batch|, omit);
    if |stl| < |list| {
      ghost var u := multiset(subscribers.Unread());
      Bags.TakeOne(multiset(list), multiset(stl), omit.value, u, later);
      mail.Ignore(omit.value);
      SubLines(stl, list);
    }
  }

  /** Among what has just been read, the omitted address is found once at most. */
  lemma HeldOnce(mail: Delivery, batch: seq<Address>, read: seq<Address>, unread: seq<Address>,
                 later: multiset<Address>)
    requires mail.Valid() && mail.Clear(multiset(batch))
    requires mail.inHand == (multiset(batch + read) + multiset(unread)) + later
    ensures mail.Spared() ==> multiset(batch + read)[mail.omitted.value] <= 1
    ensures mail.Spared() && mail.omitted.value !in read ==> mail.Clear(multiset(batch + read))
  {
  }

  lemma SubLines(part: seq<Address>, all: seq<Address>)
    requires AreLines(all) && multiset(part) <= multiset(all)
    ensures AreLines(part)
  {
    forall i | 0 <= i < |part| ensures '\n' !in part[i] {
      assert part[i] in multiset(part);
      assert part[i] in all;
    }
  }

  /**
   * One visit of resend_requeue to the directory of the mail: the file is renamed and mlmmj-send sends to
   * it and removes it. The mail may not be archived yet, and the child may not come up; if nothing fails,
   * the visit leaves nothing to send.
   */
  method ResendRequeue(mail: Delivery, max: nat, healthy: bool)
    requires mail.Valid() && max > 0 && !mail.active && mail.inHand == multiset{}
    modifies mail
    ensures mail.Valid() && !mail.active && mail.inHand == multiset{}
    ensures old(mail.requeue) == "" ==> mail.requeue == "" && mail.resending == old(mail.resending)
    ensures old(mail.requeue) != "" && healthy ==> mail.requeue == "" && mail.resending == ""
    ensures forall verp :: old(Bounded(mail.mails, max, verp)) ==> Bounded(mail.mails, max, verp)
  {
    hide Lines, mail.Valid, mail.Clear, Bounded;
    var archived: bool :| healthy ==> archived;
    if !archived || mail.requeue == "" {
      return;
    }
    Rename(mail, healthy);
    var started: bool :| healthy ==> started;
    if started {
      mail.Activate();
      var subscribers := new AddressFile(mail.resending);
      SendManyFd(mail, subscribers, max);
      mail.Unlink();
      if healthy {
        mail.NothingQueued();
      }
    }
  }

  method Rename(mail: Delivery, healthy: bool)
    requires mail.Valid() && !mail.active && mail.requeue != ""
    modifies mail`requeue, mail`resending, mail`gotsigterm, mail`healthy, mail`queuedBefore
    ensures mail.Valid() && mail.requeue == mail.queuedBefore == "" && mail.resending == old(mail.requeue)
    ensures mail.healthy == healthy
  {
    hide mail.Valid;
    mail.Begin(false);
    mail.MoveFile();
    mail.Begin(healthy);
  }

  /**
   * The whole life of a mail: its distribution, any number of resend runs, and another one when, perhaps,
   * nothing fails any more. Wherever it ends, each address with an '@' other than the omitted one has been
   * accepted or handed to bounce handling, or waits in one of the files, as often as the subscriber files
   * hold it; held once, it is in exactly one place. In the end none waits, unless in a file whose child
   * did not come up.
   */
  method LifeOfMail(files: seq<string>, omit: Option<Address>, max: nat, verp: bool, resends: nat, recovers: bool)
    returns (mail: Delivery)
    requires max > 0
    ensures fresh(mail) && mail.Valid() && mail.inHand == multiset{}
    ensures forall a :: '@' in a && omit != Some(a) ==>
              mail.acked[a] + multiset(Lines(mail.requeue))[a] + multiset(Lines(mail.resending))[a]
              == multiset(AllLines(files))[a]
    ensures omit.Some? && multiset(AllLines(files))[omit.value] <= 1 ==>
              omit.value !in mail.acked && omit.value !in Lines(mail.requeue) && omit.value !in Lines(mail.resending)
    ensures Bounded(mail.mails, max, verp)
    ensures recovers ==> mail.requeue == ""
    ensures recovers && mail.resending == "" ==>
              forall a :: '@' in a && omit != Some(a) ==> mail.acked[a] == multiset(AllLines(files))[a]
  {
    hide Lines, AllLines, mail.Valid;
    mail := new Delivery(files, omit, false);
    Distribute(mail, files, omit, max, verp);
    for i := 0 to resends
      invariant fresh(mail) && mail.Valid() && !mail.active && mail.inHand == multiset{}
      invariant mail.omitted == omit && mail.total == multiset(AllLines(files))
      invariant Bounded(mail.mails, max, verp)
    {
      ResendRequeue(mail, max, false);
    }
    if recovers {
      ResendRequeue(mail, max, true);
    }
    forall a | HasAt(a) && omit != Some(a)
      ensures mail.acked[a] + multiset(Lines(mail.requeue))[a] + multiset(Lines(mail.resending))[a]
              == multiset(AllLines(files))[a]
    {
      mail.Accounted(a);
    }
    mail.SparedAtEnd();
    NoLines();
  }

  lemma NoLines()
    ensures Lines("") == []
  {
  }

  /** A mail with which nothing fails: all have it after its distribution, and nothing is queued. */
  method Undisturbed(files: seq<string>, omit: Option<Address>, max: nat, verp: bool) returns (mail: Delivery)
    requires max > 0
    ensures fresh(mail) && mail.Valid() && mail.requeue == "" && mail.resending == ""
    ensures forall a :: '@' in a && omit != Some(a) ==> mail.acked[a] == multiset(AllLines(files))[a]
    ensures Bounded(mail.mails, max, verp)
  {
    hide Lines, AllLines, mail.Valid;
    mail := new Delivery(files, omit, true);
    Distribute(mail, files, omit, max, verp);
    forall a | HasAt(a) && omit != Some(a) ensures mail.acked[a] == multiset(AllLines(files))[a] {
      mail.Accounted(a);
      NoLines();
    }
  }
}
