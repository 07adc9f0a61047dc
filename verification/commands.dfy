/** The command table of src/listcontrol.c: each command is taken for itself. */
module Commands {
  import opened Verp
  import opened Letters
  import opened Wrappers
  import Decimal
  import Seqs

  /** Commands that the string does not begin with are passed over. */
  lemma {:induction false} Skip(s: string, i: nat, k: nat)
    requires i <= k <= |COMMANDS| && forall j :: i <= j < k ==> !(COMMANDS[j].0 <= s)
    ensures Lookup(s, i) == Lookup(s, k)
    decreases k - i
  {
    if i < k {
      Skip(s, i + 1, k);
    }
  }

  lemma Initial(j: nat)
    requires j < 24
    ensures |COMMANDS| == 24 && COMMANDS[j].0 != "" && COMMANDS[j].0[0] == "ssssccccuuucccbrrpomhfgl"[j]
  {
  }

  /** A command with no other in front of it that begins with the same letter. */
  lemma ByInitial(s: string, i: nat, k: nat)
    requires i <= k <= 24 && s != "" && forall j :: i <= j < k ==> "ssssccccuuucccbrrpomhfgl"[j] != s[0]
    ensures |COMMANDS| == 24 && Lookup(s, i) == Lookup(s, k)
  {
    Initial(0);
    forall j | i <= j < k ensures !(COMMANDS[j].0 <= s) {
      Initial(j);
    }
    hide COMMANDS, Lookup;
    Skip(s, i, k);
  }

  /** The command is there: it must end the string, or a '-' and its parameter follow. */
  lemma TakenPlain(i: nat)
    requires i < |COMMANDS| && !COMMANDS[i].1
    ensures Lookup(COMMANDS[i].0, i) == Command(i, None)
  {
  }

  lemma TakenWith(i: nat, param: string)
    requires i < |COMMANDS| && COMMANDS[i].1
    ensures Lookup(COMMANDS[i].0 + "-" + param, i) == if '/' in param then Rejected else Command(i, Some(param))
  {
    var (command, s) := (COMMANDS[i].0, COMMANDS[i].0 + "-" + param);
    assert s[..|command|] == command && s[|command|..] == "-" + param && ("-" + param)[1..] == param;
  }

  lemma Differs(s: string, j: nat, p: nat)
    requires j < |COMMANDS| && p < |COMMANDS[j].0| && (p < |s| ==> s[p] != COMMANDS[j].0[p])
    ensures !(COMMANDS[j].0 <= s) && Lookup(s, j) == Lookup(s, j + 1)
  {
  }

  // ---------------------------------------------------------------- commands without a parameter

  lemma Subscribe()
    ensures Lookup("subscribe-digest", 0) == Command(0, None)
    ensures Lookup("subscribe-nomail", 0) == Command(1, None)
    ensures Lookup("subscribe-both", 0) == Command(2, None)
    ensures Lookup("subscribe", 0) == Command(3, None)
  {
    hide Lookup;
    TakenPlain(0);
    Differs("subscribe-nomail", 0, 10);
    TakenPlain(1);
    Differs("subscribe-both", 0, 10);
    Differs("subscribe-both", 1, 10);
    TakenPlain(2);
    Differs("subscribe", 0, 9);
    Differs("subscribe", 1, 9);
    Differs("subscribe", 2, 9);
    TakenPlain(3);
  }

  lemma Unsubscribe()
    ensures Lookup("unsubscribe-digest", 0) == Command(8, None)
    ensures Lookup("unsubscribe-nomail", 0) == Command(9, None)
    ensures Lookup("unsubscribe", 0) == Command(10, None)
  {
    hide Lookup;
    ByInitial("unsubscribe-digest", 0, 8);
    TakenPlain(8);
    ByInitial("unsubscribe-nomail", 0, 8);
    Differs("unsubscribe-nomail", 8, 12);
    TakenPlain(9);
    ByInitial("unsubscribe", 0, 8);
    Differs("unsubscribe", 8, 11);
    Differs("unsubscribe", 9, 11);
    TakenPlain(10);
  }

  lemma Asking()
    ensures Lookup("help", 0) == Command(20, None)
    ensures Lookup("faq", 0) == Command(21, None)
    ensures Lookup("list", 0) == Command(23, None)
  {
    hide Lookup;
    ByInitial("help", 0, 20);
    TakenPlain(20);
    ByInitial("faq", 0, 21);
    TakenPlain(21);
    ByInitial("list", 0, 23);
    TakenPlain(23);
  }

  // ---------------------------------------------------------------- commands with a parameter

  /** The command at i with its parameter, which must not have a slash. */
  predicate Asked(s: string, i: nat, param: string) {
    Lookup(s, 0) == if '/' in param then Rejected else Command(i, Some(param))
  }

  lemma Deciding(param: string)
    ensures Asked("bounces" + "-" + param, 14, param)
    ensures Asked("permit" + "-" + param, 17, param)
    ensures Asked("obstruct" + "-" + param, 18, param)
    ensures Asked("moderate" + "-" + param, 19, param)
    ensures Asked("get" + "-" + param, 22, param)
  {
    hide Lookup;
    OnlyInitial("bounces", 14, param);
    OnlyInitial("permit", 17, param);
    OnlyInitial("obstruct", 18, param);
    OnlyInitial("moderate", 19, param);
    OnlyInitial("get", 22, param);
  }

  lemma OnlyInitial(command: string, i: nat, param: string)
    requires i < 24 && |COMMANDS| == 24 && COMMANDS[i] == (command, true) && command != ""
    requires forall j :: 0 <= j < i ==> "ssssccccuuucccbrrpomhfgl"[j] != command[0]
    ensures Asked(command + "-" + param, i, param)
  {
    hide COMMANDS, Lookup;
    ByInitial(command + "-" + param, 0, i);
    TakenWith(i, param);
  }

  lemma ReleaseAndReject(param: string)
    ensures Asked("release" + "-" + param, 15, param)
    ensures Asked("reject" + "-" + param, 16, param)
  {
    hide Lookup;
    OnlyInitial("release", 15, param);
    var s := "reject" + "-" + param;
    ByInitial(s, 0, 15);
    Differs(s, 15, 2);
    TakenWith(16, param);
  }

  lemma ConfirmUnsubscribing(param: string)
    ensures Asked("confunsub-digest" + "-" + param, 11, param)
    ensures Asked("confunsub-nomail" + "-" + param, 12, param)
  {
    hide Lookup;
    var s, t := "confunsub-digest" + "-" + param, "confunsub-nomail" + "-" + param;
    NoSubscribing(s);
    TakenWith(11, param);
    NoSubscribing(t);
    Differs(t, 11, 10);
    TakenWith(12, param);
  }

  lemma NoSubscribing(s: string)
    requires |s| > 5 && s[0] == 'c' && s[4] == 'u'
    ensures |COMMANDS| == 24 && Lookup(s, 0) == Lookup(s, 11)
  {
    hide Lookup, COMMANDS;
    NoConfsub(s);
    ByInitial(s, 0, 4);
    ByInitial(s, 8, 11);
  }

  lemma NoConfsub(s: string)
    requires |s| > 5 && s[4] == 'u'
    ensures |COMMANDS| == 24 && Lookup(s, 4) == Lookup(s, 8)
  {
    hide COMMANDS, Lookup;
    Initial(0);
    forall j | 4 <= j < 8 ensures !(COMMANDS[j].0 <= s) {
      FifthLetter(j);
    }
    Skip(s, 4, 8);
  }

  lemma FifthLetter(j: nat)
    requires 4 <= j < 8
    ensures |COMMANDS| == 24 && |COMMANDS[j].0| > 4 && COMMANDS[j].0[4] == 's'
  {
  }

  lemma ConfirmSubscribing(param: string)
    ensures Asked("confsub-digest" + "-" + param, 4, param)
    ensures Asked("confsub-nomail" + "-" + param, 5, param)
    ensures Asked("confsub-both" + "-" + param, 6, param)
  {
    hide Lookup;
    var s, t, u := "confsub-digest" + "-" + param, "confsub-nomail" + "-" + param, "confsub-both" + "-" + param;
    ByInitial(s, 0, 4);
    TakenWith(4, param);
    ByInitial(t, 0, 4);
    Differs(t, 4, 8);
    TakenWith(5, param);
    ByInitial(u, 0, 4);
    Differs(u, 4, 8);
    Differs(u, 5, 8);
    TakenWith(6, param);
  }

  /** The confirmation of a normal subscription is taken for one unless its parameter begins with another version. */
  lemma ConfirmNormal(param: string)
    ensures Lookup("confsub" + "-" + param, 0) != Command(7, Some(param)) <==>
              '/' in param || "digest" <= param || "nomail" <= param || "both" <= param
    ensures Lookup("confunsub" + "-" + param, 0) != Command(13, Some(param)) <==>
              '/' in param || "digest" <= param || "nomail" <= param
  {
    ConfsubNormal(param);
    ConfunsubNormal(param);
  }

  lemma ConfsubNormal(param: string)
    ensures Lookup("confsub" + "-" + param, 0) != Command(7, Some(param)) <==>
              '/' in param || "digest" <= param || "nomail" <= param || "both" <= param
  {
    hide Lookup;
    var s := "confsub" + "-" + param;
    ByInitial(s, 0, 4);
    TakenWith(7, param);
    Longer("confsub", "digest", param);
    Longer("confsub", "nomail", param);
    Longer("confsub", "both", param);
    assert COMMANDS[4].0 == "confsub-digest" && COMMANDS[5].0 == "confsub-nomail" && COMMANDS[6].0 == "confsub-both";
    hide COMMANDS;
    Otherwise(s, 4);
    Otherwise(s, 5);
    Otherwise(s, 6);
  }

  lemma ConfunsubNormal(param: string)
    ensures Lookup("confunsub" + "-" + param, 0) != Command(13, Some(param)) <==>
              '/' in param || "digest" <= param || "nomail" <= param
  {
    hide Lookup;
    var s := "confunsub" + "-" + param;
    NoSubscribing(s);
    TakenWith(13, param);
    Longer("confunsub", "digest", param);
    Longer("confunsub", "nomail", param);
    assert COMMANDS[11].0 == "confunsub-digest" && COMMANDS[12].0 == "confunsub-nomail";
    hide COMMANDS;
    Otherwise(s, 11);
    Otherwise(s, 12);
  }

  /** A command with a version is there exactly if the parameter begins with that version. */
  lemma Longer(command: string, version: string, param: string)
    ensures command + "-" + version <= command + "-" + param <==> version <= param
  {
    var s, c := command + "-" + param, command + "-" + version;
    assert s[|command| + 1..] == param && c[|command| + 1..] == version;
    if version <= param {
      assert s == c + param[|version|..];
    }
    if c <= s {
      assert s[..|c|] == c;
      assert param[..|version|] == s[..|c|][|command| + 1..];
    }
  }

  /** The command at i, or what is behind it in the table. */
  lemma Otherwise(s: string, i: nat)
    requires i < |COMMANDS|
    ensures !(COMMANDS[i].0 <= s) ==> Lookup(s, i) == Lookup(s, i + 1)
    ensures COMMANDS[i].0 <= s ==> Lookup(s, i) == Rejected || (Lookup(s, i).Command? && Lookup(s, i).ctrl == i)
  {
    hide COMMANDS;
  }
}
