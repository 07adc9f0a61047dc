/**
 * Bounce addresses, written by mlmmj-send and read by three programs one after the other: bounce_from_adr in
 * src/mlmmj-send.c, addrmatch in src/mlmmj-process.c, the command table and CTRL_BOUNCES in
 * src/listcontrol.c, and main of src/mlmmj-bounce.c.
 */
module Verp {
  import opened BounceDirectory
  import opened BounceMachine
  import opened Letters
  import opened Wrappers
  import Decimal
  import Seqs

  // ---------------------------------------------------------------- writing

  predicate OccursAt(s: string, d: string, p: nat) {
    p + |d| <= |s| && s[p..p + |d|] == d
  }

  /** strrchr, as a position behind the character; 0 without it. */
  function BehindLast(s: string, c: char): (i: nat)
    ensures i <= |s| && c !in s[i..] && (i > 0 ==> s[i - 1] == c)
  {
    if s == "" || s[|s| - 1] == c then |s| else BehindLast(s[..|s| - 1], c)
  }

  /** get_index_from_filename: the last part of the path, but for a mail kept in the requeue directory. */
  function IndexOfFile(filename: string): string {
    var name := if |filename| > 9 && EndsWith(filename, "/mailfile") then filename[..|filename| - 9] else filename;
    name[BehindLast(name, '/')..]
  }

  /** bounce_from_adr; None for a list address without '@', and for a static one, with which the program exits. */
  function BounceFrom(recipient: string, listadr: string, listdelim: string, mailfilename: string,
                      staticbounceaddr: Option<string>): Option<string> {
    var a, l := FirstIndex(recipient, '@'), FirstIndex(listadr, '@');
    var myrecipient := if a < |recipient| then recipient[a := '='] else recipient;
    if l == |listadr| then None
    else
      var name, domain, index := listadr[..l], listadr[l + 1..], IndexOfFile(mailfilename);
      match staticbounceaddr
      case None => Some(name + listdelim + "bounces-" + index + "-" + myrecipient + "@" + domain)
      case Some(addr) =>
        var s := FirstIndex(addr, '@');
        if s == |addr| then None
        else Some(addr[..s] + listdelim + name + "-bounces-" + index + "-" + myrecipient + "@" + addr[s + 1..])
  }

  lemma LastPart(path: string, name: string)
    requires '/' !in name
    ensures BehindLast(path + "/" + name, '/') == |path| + 1
    ensures (path + "/" + name)[|path| + 1..] == name
  {
    var s := path + "/" + name;
    assert s[|path| + 1..] == name && s[|path|] == '/';
    BehindLastAt(s, '/', |path| + 1);
  }

  lemma {:induction false} BehindLastAt(s: string, c: char, i: nat)
    requires i <= |s| && c !in s[i..] && (i > 0 ==> s[i - 1] == c)
    ensures BehindLast(s, c) == i
    decreases |s|
  {
    if i < |s| {
      var front := s[..|s| - 1];
      assert s[i..][|s| - 1 - i] == s[|s| - 1];
      assert front[i..] == s[i..][..|s| - 1 - i];
      BehindLastAt(front, c, i);
    }
  }

  /** Both places where an archived or requeued mail can be give its index back. */
  lemma IndexOfArchived(listdir: string, index: string)
    requires index != "" && forall i :: 0 <= i < |index| ==> Decimal.IsDigit(index[i])
    ensures IndexOfFile(listdir + "/archive" + "/" + index) == index
    ensures IndexOfFile(listdir + "/requeue" + "/" + index + "/mailfile") == index
  {
    var archived := listdir + "/archive" + "/" + index;
    LastPart(listdir + "/archive", index);
    assert archived[|archived| - 1] == index[|index| - 1];
    assert |archived| > 9 && archived[|archived| - 9..][8] == archived[|archived| - 1];
    LastPart(listdir + "/requeue", index);
    var kept := listdir + "/requeue" + "/" + index;
    assert (kept + "/mailfile")[..|kept|] == kept && (kept + "/mailfile")[|kept|..] == "/mailfile";
  }

  // ---------------------------------------------------------------- reading

  /** strstr from a position on. */
  function Search(s: string, d: string, p: nat): (r: Option<nat>)
    ensures match r
            case Some(q) => p <= q && OccursAt(s, d, q) && forall k :: p <= k < q ==> !OccursAt(s, d, k)
            case None => forall k :: p <= k ==> !OccursAt(s, d, k)
    decreases |s| - p
  {
    if OccursAt(s, d, p) then Some(p)
    else if p >= |s| then None
    else Search(s, d, p + 1)
  }

  /** addrmatch: None for no match; else the part between delimiter and '@', if there is one. */
  function Match(listaddr: string, addr: string, listdelim: string): Option<Option<string>> {
    if Same(listaddr, addr) then Some(None)
    else
      match Search(addr, listdelim, 0)
      case None => None
      case Some(p) =>
        var rest := addr[p + |listdelim|..];
        if p < |listaddr| && Same(listaddr[..p], addr[..p]) && listaddr[p] == '@' && '@' in rest
           && Same(listaddr[p + 1..], rest[LastIndex(rest, '@') + 1..])
        then Some(Some(rest[..LastIndex(rest, '@')]))
        else None
  }

  /** The command table, longer commands before their prefixes, and whether they take a parameter. */
  const COMMANDS: seq<(string, bool)> :=
    [("subscribe-digest", false), ("subscribe-nomail", false), ("subscribe-both", false), ("subscribe", false),
     ("confsub-digest", true), ("confsub-nomail", true), ("confsub-both", true), ("confsub", true),
     ("unsubscribe-digest", false), ("unsubscribe-nomail", false), ("unsubscribe", false),
     ("confunsub-digest", true), ("confunsub-nomail", true), ("confunsub", true),
     ("bounces", true), ("release", true), ("reject", true), ("permit", true), ("obstruct", true),
     ("moderate", true), ("help", false), ("faq", false), ("get", true), ("list", false)]

  const CTRL_BOUNCES := 14

  datatype Control = NoCommand | Rejected | Command(ctrl: nat, param: Option<string>)

  /** The first command of the table from i on that the string begins with. */
  function Lookup(controlstr: string, i: nat): (r: Control)
    requires i <= |COMMANDS|
    decreases |COMMANDS| - i
  {
    if i == |COMMANDS| then NoCommand
    else
      var (command, takes) := COMMANDS[i];
      if !(command <= controlstr) then Lookup(controlstr, i + 1)
      else
        var rest := controlstr[|command|..];
        if takes then
          if rest == "" || rest[0] != '-' || '/' in rest[1..] then Rejected else Command(i, Some(rest[1..]))
        else if rest == "" then Command(i, None)
        else Rejected
  }

  /** What mlmmj-bounce makes of its arguments -a and -n: the number, and the address with the '@' restored. */
  function Bounced(address: string, number: string): Option<(string, string)> {
    var n := LowerAll(address);
    if number == "confsub" || number == "confunsub" || number == "probe" || '=' !in n then None
    else Some((number, BouncingAddress(n)))
  }

  /** The way of a bounce through the programs; None if it gets lost, or is left to the parsing of the mail. */
  function ReadBack(listaddr: string, addr: string, listdelim: string): Option<(string, string)> {
    match Match(listaddr, addr, listdelim)
    case Some(Some(extra)) =>
      (match Lookup(extra, 0)
       case Command(ctrl, Some(param)) =>
         var c := FirstIndex(param, '-');
         if ctrl == CTRL_BOUNCES && c < |param| then Bounced(param[c + 1..], param[..c]) else None
       case _ => None)
    case _ => None
  }

  // ---------------------------------------------------------------- the round trip

  lemma SameIsReflexive(s: string)
    ensures Same(s, s)
  {
  }

  lemma {:induction false} LastIndexAt(s: string, c: char, i: nat)
    requires i < |s| && s[i] == c && c !in s[i + 1..]
    ensures LastIndex(s, c) == i
    decreases |s|
  {
    if s[|s| - 1] != c {
      var front := s[..|s| - 1];
      assert front[i + 1..] == s[i + 1..][..|s| - 2 - i];
      LastIndexAt(front, c, i);
    }
  }

  /** The delimiter is found where it was put, or the address is not taken for one of the list. */
  lemma DelimiterFound(name: string, domain: string, d: string, extra: string)
    requires d != "" && '@' !in name && '@' !in domain
    ensures var listaddr, addr := name + "@" + domain, name + d + extra + "@" + domain;
            Match(listaddr, addr, d) ==
              if Search(name + d, d, 0) == Some(|name|) then Some(Some(extra)) else None
  {
    var listaddr, addr := name + "@" + domain, name + d + extra + "@" + domain;
    DelimiterPosition(name, d, extra + "@" + domain);
    assert addr == name + d + (extra + "@" + domain);
    assert |listaddr| < |addr|;
    var p := Search(addr, d, 0).value;
    if p == |name| {
      AroundDelimiter(name, domain, d, extra);
    } else {
      assert listaddr[p] == name[p];
    }
  }

  lemma DelimiterPosition(name: string, d: string, tail: string)
    requires d != ""
    ensures var r := Search(name + d + tail, d, 0);
            r.Some? && r.value <= |name| && r == Search(name + d, d, 0)
  {
    var s, t := name + d, name + d + tail;
    hide Search;
    assert OccursAt(s, d, |name|) && OccursAt(t, d, |name|);
    assert Search(s, d, 0).Some? && Search(t, d, 0).Some?;
    forall k | 0 <= k <= |name| ensures OccursAt(s, d, k) <==> OccursAt(t, d, k) {
      assert s[k..k + |d|] == t[k..k + |d|];
    }
  }

  /** Exactly the list's address in any case matches by itself. */
  lemma ListItself(listaddr: string, addr: string, d: string)
    ensures Match(listaddr, addr, d) == Some(None) <==> OtherCase(listaddr, addr)
  {
    SameIff(listaddr, addr);
    hide Same, OtherCase, Search, LastIndex;
  }

  /** Only what is built of the list's address in any case, the delimiter and an extra part matches with that. */
  lemma MatchOnly(listaddr: string, addr: string, d: string) returns (name: string, domain: string)
    ensures var m := Match(listaddr, addr, d);
            m.Some? && m.value.Some? ==>
              addr == name + d + m.value.value + "@" + domain && OtherCase(listaddr, name + "@" + domain)
  {
    hide LastIndex, Search, Same, OtherCase;
    name, domain := "", "";
    var m := Match(listaddr, addr, d);
    if m.Some? && m.value.Some? {
      var p := Search(addr, d, 0).value;
      var rest := addr[p + |d|..];
      var l := LastIndex(rest, '@');
      name, domain := addr[..p], rest[l + 1..];
      hide *;
      TakenApart(addr, d, p, l);
      Seqs.Pick(listaddr, p);
      SameParts(listaddr[..p], name, listaddr[p + 1..], domain);
    }
  }

  lemma TakenApart(addr: string, d: string, p: nat, l: nat)
    requires OccursAt(addr, d, p)
    requires var rest := addr[p + |d|..]; l < |rest| && rest[l] == '@'
    ensures var rest := addr[p + |d|..]; addr == addr[..p] + d + rest[..l] + "@" + rest[l + 1..]
  {
    var rest := addr[p + |d|..];
    Seqs.Rejoin(addr, p);
    Seqs.Rejoin(addr[p..], |d|);
    Seqs.Behind(addr, p, |d|);
    Seqs.Pick(rest, l);
    Seqs.Assoc(addr[..p], d, rest);
    Seqs.Assoc(addr[..p] + d, rest[..l] + "@", rest[l + 1..]);
    Seqs.Assoc(addr[..p] + d, rest[..l], "@");
  }

  lemma SameParts(a: string, b: string, c: string, d: string)
    requires Same(a, b) && Same(c, d)
    ensures OtherCase(a + "@" + c, b + "@" + d)
  {
    SameIff(a + "@" + c, b + "@" + d);
    hide OtherCase, Lower;
  }

  lemma AroundDelimiter(name: string, domain: string, d: string, extra: string)
    requires '@' !in domain
    ensures var listaddr, addr, rest := name + "@" + domain, name + d + extra + "@" + domain, extra + "@" + domain;
            && addr[|name| + |d|..] == rest && Same(listaddr[..|name|], addr[..|name|]) && listaddr[|name|] == '@'
            && '@' in rest && LastIndex(rest, '@') == |extra| && rest[..|extra|] == extra
            && Same(listaddr[|name| + 1..], rest[|extra| + 1..])
  {
    hide Same, LastIndex;
    var listaddr, addr, rest := name + "@" + domain, name + d + extra + "@" + domain, extra + "@" + domain;
    Seqs.Assoc(name + d, extra, "@");
    Seqs.Assoc(name + d, extra + "@", domain);
    Seqs.Ends(name, d, rest);
    Seqs.Ends(name, "@", domain);
    Seqs.Ends(extra, "@", domain);
    assert rest[|extra|] == '@';
    LastIndexAt(rest, '@', |extra|);
    SameIsReflexive(name);
    SameIsReflexive(domain);
  }

  /** "bounces-" is taken for the command it is. */
  lemma BouncesCommand(param: string)
    ensures Lookup("bounces" + ("-" + param), 0)
            == if '/' in param then Rejected else Command(CTRL_BOUNCES, Some(param))
  {
    var extra := "bounces" + ("-" + param);
    assert extra[0] == 'b' && extra[..7] == "bounces" && extra[7..] == "-" + param;
    assert extra[7..][1..] == param;
    SkipTo(extra, 0);
  }

  /** Its parameter is split behind the number. */
  lemma BouncesParsed(index: string, address: string)
    requires '-' !in index && '/' !in index
    ensures var extra := "bounces-" + index + "-" + address;
            Lookup(extra, 0) == if '/' in address then Rejected else Command(CTRL_BOUNCES, Some(index + "-" + address))
    ensures var param := index + "-" + address;
            FirstIndex(param, '-') == |index| < |param| && param[..|index|] == index && param[|index| + 1..] == address
  {
    hide Lookup, FirstIndex;
    var param := index + "-" + address;
    assert param == index + ("-" + address);
    IndexAfter(index, '-', address);
    assert "bounces-" + index + "-" + address == "bounces" + ("-" + param);
    BouncesCommand(param);
    assert '/' in param <==> '/' in address;
  }

  lemma {:induction false} SkipTo(extra: string, i: nat)
    requires "bounces" <= extra && i <= CTRL_BOUNCES
    ensures Lookup(extra, i) == Lookup(extra, CTRL_BOUNCES)
    decreases CTRL_BOUNCES - i
  {
    if i < CTRL_BOUNCES {
      assert extra[0] == 'b';
      assert COMMANDS[i].0[0] != 'b';
      SkipTo(extra, i + 1);
    }
  }

  /** The recipient with '=' for '@' is restored exactly if it is lower-case and has no '=' behind its first '@'. */
  lemma RecipientRestored(recipient: string, number: string)
    requires '@' in recipient && number != "confsub" && number != "confunsub" && number != "probe"
    ensures var a := FirstIndex(recipient, '@');
            Bounced(recipient[a := '='], number) == Some((number, recipient))
            <==> LowerAll(recipient) == recipient && '=' !in recipient[a + 1..]
  {
    var a := FirstIndex(recipient, '@');
    assert a < |recipient|;
    var n := LowerAll(recipient[a := '=']);
    assert forall i :: 0 <= i < |n| ==> n[i] == if i == a then '=' else Lower(recipient[i]);
    hide FirstIndex, LowerAll, Lower, LastIndex;
    if LowerAll(recipient) == recipient && '=' !in recipient[a + 1..] {
      LowerMeans(recipient);
      RestoredIf(recipient, a, n);
    }
    if BouncingAddress(n) == recipient {
      RestoredOnlyIf(recipient, a, n);
      LowerMeans(recipient);
    }
  }

  lemma LowerMeans(s: string)
    ensures LowerAll(s) == s <==> forall i :: 0 <= i < |s| ==> Lower(s[i]) == s[i]
  {
  }

  lemma RestoredIf(recipient: string, a: nat, n: string)
    requires a < |recipient| == |n| && recipient[a] == '@' && '=' !in recipient[a + 1..]
    requires forall i :: 0 <= i < |n| ==> Lower(recipient[i]) == recipient[i]
    requires forall i :: 0 <= i < |n| ==> n[i] == if i == a then '=' else Lower(recipient[i])
    ensures '=' in n && BouncingAddress(n) == recipient
  {
    hide Lower, LastIndex;
    assert n[a + 1..] == recipient[a + 1..];
    LastIndexAt(n, '=', a);
    assert n[a := '@'] == recipient;
  }

  lemma RestoredOnlyIf(recipient: string, a: nat, n: string)
    requires a < |recipient| == |n| && recipient[a] == '@' && n[a] == '='
    requires forall i :: 0 <= i < |n| ==> n[i] == if i == a then '=' else Lower(recipient[i])
    requires BouncingAddress(n) == recipient
    ensures forall i :: 0 <= i < |n| ==> Lower(recipient[i]) == recipient[i]
    ensures '=' !in recipient[a + 1..]
  {
    hide LastIndex;
    var l := LastIndex(n, '=');
    var back := n[l := '@'];
    assert l == a by {
      assert back[a] == recipient[a];
    }
    assert forall i :: 0 <= i < |n| ==> recipient[i] == back[i];
    assert recipient[a + 1..] == n[a + 1..];
  }

  /**
   * The bounce address of an archived or requeued mail is read back to the index of the mail and the
   * recipient exactly if the delimiter is not found earlier in the list name than behind it, and the
   * recipient is free of '/', lower-case and without '=' behind its '@'. In front of it, '-', '+' and '='
   * do no harm.
   */
  lemma VerpRoundTrip(recipient: string, name: string, domain: string, d: string, listdir: string, index: string,
                      file: string)
    requires '@' in recipient && '@' !in name && '@' !in domain && d != ""
    requires index != "" && forall i :: 0 <= i < |index| ==> Decimal.IsDigit(index[i])
    requires file == listdir + "/archive" + "/" + index || file == listdir + "/requeue" + "/" + index + "/mailfile"
    ensures var listaddr := name + "@" + domain;
            var addr := BounceFrom(recipient, listaddr, d, file, None);
            && addr.Some?
            && (ReadBack(listaddr, addr.value, d) == Some((index, recipient)) <==>
                  && Search(name + d, d, 0) == Some(|name|)
                  && '/' !in recipient && LowerAll(recipient) == recipient
                  && '=' !in recipient[FirstIndex(recipient, '@') + 1..])
  {
    hide FirstIndex, Search, IndexOfFile, LowerAll, ReadBack;
    IndexOfArchived(listdir, index);
    Written(recipient, name, domain, d, index, file);
    hide BounceFrom;
    DigitsOnly(index);
    NumberRead(recipient, name, domain, d, index);
  }

  /**
   * Not only numbers are read back: everything without '-' and '/' is, but for the three words that say that
   * something else than a list mail has bounced.
   */
  lemma NumberRead(recipient: string, name: string, domain: string, d: string, number: string)
    requires '@' in recipient && '@' !in name && '@' !in domain && d != ""
    requires '-' !in number && '/' !in number && number != "confsub" && number != "confunsub" && number != "probe"
    ensures var sent := recipient[FirstIndex(recipient, '@') := '='];
            ReadBack(name + "@" + domain, name + d + ("bounces-" + number + "-" + sent) + "@" + domain, d)
            == Some((number, recipient)) <==>
              && Search(name + d, d, 0) == Some(|name|)
              && '/' !in recipient && LowerAll(recipient) == recipient
              && '=' !in recipient[FirstIndex(recipient, '@') + 1..]
  {
    hide FirstIndex, Search, Match, Lookup, Bounced, LowerAll;
    var sent := recipient[FirstIndex(recipient, '@') := '='];
    DelimiterFound(name, domain, d, "bounces-" + number + "-" + sent);
    BouncesParsed(number, sent);
    RecipientRestored(recipient, number);
    SlashKept(recipient);
  }

  /**
   * So a bounce of a subscribed address can bring its own time. With the number "1:0", an address without a record
   * can be unsubscribed as soon as maintenance comes by.
   */
  lemma PlantedBounce(recipient: string, name: string, domain: string, d: string, t: nat, ctime: string)
    requires '@' in recipient && '@' !in name && '@' !in domain && d != ""
    requires Search(name + d, d, 0) == Some(|name|)
    requires '/' !in recipient && LowerAll(recipient) == recipient
    requires '=' !in recipient[FirstIndex(recipient, '@') + 1..]
    requires IsCtime(ctime) && Fits("1:0", |Decimal.Print(t)|) && t >= BOUNCELIFE + WAITPROBE
    ensures var record := recipient[FirstIndex(recipient, '@') := '='];
            && ReadBack(name + "@" + domain, name + d + ("bounces-1:0-" + record) + "@" + domain, d)
               == Some(("1:0", recipient))
            && Unsubscribes(Run([Tick(t), Bounce(record, FirstBounce(RecordLine("1:0", t, ctime)))], BOUNCELIFE),
                            record, BOUNCELIFE)
  {
    hide FirstIndex, Search, LowerAll, ReadBack, RecordLine, FirstBounce;
    var record := recipient[FirstIndex(recipient, '@') := '='];
    NumberRead(recipient, name, domain, d, "1:0");
    assert "bounces-" + "1:0" + "-" + record == "bounces-1:0-" + record;
    PlantedUnsubscribes(record, t, ctime, BOUNCELIFE);
  }

  lemma SlashKept(recipient: string)
    requires '@' in recipient
    ensures var sent := recipient[FirstIndex(recipient, '@') := '=']; '/' in sent <==> '/' in recipient
  {
    var a := FirstIndex(recipient, '@');
    assert a < |recipient|;
    var sent := recipient[a := '='];
    assert forall i :: 0 <= i < |sent| && i != a ==> sent[i] == recipient[i];
    if '/' in recipient {
      var i :| 0 <= i < |recipient| && recipient[i] == '/';
      assert sent[i] == '/';
    }
  }

  lemma Written(recipient: string, name: string, domain: string, d: string, index: string, file: string)
    requires '@' in recipient && '@' !in name && IndexOfFile(file) == index
    ensures var sent := recipient[FirstIndex(recipient, '@') := '='];
            BounceFrom(recipient, name + "@" + domain, d, file, None)
            == Some(name + d + ("bounces-" + index + "-" + sent) + "@" + domain)
  {
    hide FirstIndex, IndexOfFile;
    var sent := recipient[FirstIndex(recipient, '@') := '='];
    ListAddress(name, domain);
    assert name + d + "bounces-" + index + "-" + sent == name + d + ("bounces-" + index + "-" + sent);
  }

  /**
   * With a static bounce address, bounces come to that address with the list's name in front of the rest: the part
   * behind the delimiter is found exactly as without one, and behind the name is what the list itself would be sent.
   */
  lemma StaticFound(recipient: string, listadr: string, d: string, file: string, name: string, domain: string)
    requires '@' in recipient && '@' in listadr && '@' !in name && '@' !in domain && d != ""
    ensures var address := name + "@" + domain;
            var sent := recipient[FirstIndex(recipient, '@') := '='];
            var list := listadr[..FirstIndex(listadr, '@')];
            var written := BounceFrom(recipient, listadr, d, file, Some(address));
            && written.Some?
            && Match(address, written.value, d) ==
                 if Search(name + d, d, 0) != Some(|name|) then None
                 else Some(Some(list + "-bounces-" + IndexOfFile(file) + "-" + sent))
  {
    hide FirstIndex, IndexOfFile, Match, Search;
    ListAddress(name, domain);
    var sent := recipient[FirstIndex(recipient, '@') := '='];
    var list, index := listadr[..FirstIndex(listadr, '@')], IndexOfFile(file);
    var extra := list + "-bounces-" + index + "-" + sent;
    assert name + d + list + "-bounces-" + index + "-" + sent + "@" + domain == name + d + extra + "@" + domain;
    DelimiterFound(name, domain, d, extra);
  }

  /** mlmmj-bounce does not care for the case of the letters it is given, and leaves no capital ones. */
  lemma BouncedInAnyCase(address: string, other: string, number: string)
    requires OtherCase(address, other)
    ensures Bounced(address, number) == Bounced(other, number)
    ensures Bounced(address, number).Some? ==> forall c :: c in Bounced(address, number).value.1 ==> c !in UPPER
  {
    SameIff(address, other);
    forall c ensures Lower(c) !in UPPER {
      Capital(Lower(c));
    }
    assert '@' !in UPPER by { Capital('@'); }
    hide Lower, OtherCase, LastIndex;
  }

  lemma ListAddress(name: string, domain: string)
    requires '@' !in name
    ensures var listaddr := name + "@" + domain;
            FirstIndex(listaddr, '@') == |name| && listaddr[..|name|] == name && listaddr[|name| + 1..] == domain
  {
    assert name + "@" + domain == name + ("@" + domain);
    IndexAfter(name, '@', domain);
  }

  lemma DigitsOnly(index: string)
    requires index != "" && forall i :: 0 <= i < |index| ==> Decimal.IsDigit(index[i])
    ensures '-' !in index && '/' !in index && index != "confsub" && index != "confunsub" && index != "probe"
  {
    assert Decimal.IsDigit(index[0]);
  }

  // ---------------------------------------------------------------- the programs

  method StrChr(s: string, c: char) returns (i: nat)
    ensures i == FirstIndex(s, c)
  {
    i := 0;
    assert s[..0] == "";
    while i < |s| && s[i] != c
      invariant i <= |s| && c !in s[..i]
    {
      i := i + 1;
    }
    IndexAt(s, c, i);
  }

  /** strrchr, as the position behind the character. */
  method StrRChr(s: string, c: char) returns (i: nat)
    ensures i == BehindLast(s, c)
  {
    i := |s|;
    assert s[i..] == "";
    while i > 0 && s[i - 1] != c
      invariant i <= |s| && c !in s[i..]
    {
      assert s[i - 1..] == [s[i - 1]] + s[i..];
      i := i - 1;
    }
    BehindLastAt(s, c, i);
  }

  method StrStr(s: string, d: string) returns (p: Option<nat>)
    ensures p == Search(s, d, 0)
  {
    var i := 0;
    while i <= |s|
      invariant Search(s, d, 0) == Search(s, d, i)
    {
      if OccursAt(s, d, i) {
        return Some(i);
      }
      i := i + 1;
    }
    p := None;
  }

  method GetIndexFromFilename(filename: string) returns (index: string)
    ensures index == IndexOfFile(filename)
  {
    var myfilename, len := filename, |filename|;
    if len > 9 && EndsWith(filename, "/mailfile") {
      myfilename := myfilename[..len - 9];
    }
    var indexstr := StrRChr(myfilename, '/');
    index := myfilename[indexstr..];
  }

  /** bounce_from_adr: nothing is cut off at the end of the buffer. */
  method BounceFromAdr(recipient: string, listadr: string, listdelim: string, mailfilename: string,
                       staticbounceaddr: Option<string>) returns (bounceaddr: Option<string>)
    ensures bounceaddr == BounceFrom(recipient, listadr, listdelim, mailfilename, staticbounceaddr)
  {
    var indexstr := GetIndexFromFilename(mailfilename);
    var myrecipient := recipient;
    var a := StrChr(myrecipient, '@');
    if a < |myrecipient| {
      myrecipient := myrecipient[a := '='];
    }
    var l := StrChr(listadr, '@');
    if l == |listadr| {
      return None;
    }
    var mylistadr, listdomain := listadr[..l], listadr[l + 1..];
    // 11 for "bounces-", "-", "@" and the NUL
    var len := |mylistadr| + |listdelim| + |myrecipient| + |indexstr| + |listdomain| + 11;
    if staticbounceaddr.Some? {
      var s := StrChr(staticbounceaddr.value, '@');
      if s == |staticbounceaddr.value| {
        return None;
      }
      var localpart, domain := staticbounceaddr.value[..s], staticbounceaddr.value[s + 1..];
      len := len + |localpart| + 1 + |domain|;
      bounceaddr := Some(Snprintf(len, localpart + listdelim + mylistadr + "-bounces-" + indexstr + "-" + myrecipient
                                       + "@" + domain));
    } else {
      bounceaddr := Some(Snprintf(len, mylistadr + listdelim + "bounces-" + indexstr + "-" + myrecipient + "@"
                                       + listdomain));
    }
  }

  lemma BehindIsLast(s: string, c: char, i: nat)
    requires i == BehindLast(s, c)
    ensures i > 0 <==> c in s
    ensures i > 0 ==> LastIndex(s, c) == i - 1
  {
    assert s[0..] == s;
    if i > 0 {
      LastIndexAt(s, c, i - 1);
    }
  }

  method AddrMatch(listaddr: string, addr: Option<string>, listdelim: Option<string>)
    returns (matched: bool, recipextra: Option<string>)
    ensures addr.None? ==> !matched
    ensures addr.Some? && listdelim.None? ==> (matched <==> Same(listaddr, addr.value)) && recipextra == None
    ensures addr.Some? && listdelim.Some? ==>
              Match(listaddr, addr.value, listdelim.value) == if matched then Some(recipextra) else None
  {
    hide Search, LastIndex, BehindLast, Same;
    recipextra := None;
    if addr.None? {
      return false, None;
    }
    if Same(listaddr, addr.value) {
      return true, None;
    }
    if listdelim.None? {
      return false, None;
    }
    var delim := StrStr(addr.value, listdelim.value);
    if delim.None? {
      return false, None;
    }
    var len := delim.value;
    if len >= |listaddr| || !Same(listaddr[..len], addr.value[..len]) || listaddr[len] != '@' {
      return false, None;
    }
    var rest := addr.value[len + |listdelim.value|..];
    var behind := StrRChr(rest, '@');
    BehindIsLast(rest, '@', behind);
    if behind == 0 {
      return false, None;
    }
    if !Same(listaddr[len + 1..], rest[behind..]) {
      return false, None;
    }
    return true, Some(rest[..behind - 1]);
  }

  /** The loop of listcontrol over the command table, and the checks of the parameter. */
  method ListControl(controlstr: string) returns (r: Control)
    ensures r == Lookup(controlstr, 0)
  {
    var ctrl := 0;
    while ctrl < |COMMANDS|
      invariant ctrl <= |COMMANDS| && Lookup(controlstr, 0) == Lookup(controlstr, ctrl)
    {
      var (command, takesParameter) := COMMANDS[ctrl];
      var cmdlen := |command|;
      if cmdlen <= |controlstr| && controlstr[..cmdlen] == command {
        if takesParameter {
          if cmdlen == |controlstr| || controlstr[cmdlen] != '-' {
            return Rejected;
          }
          var param := controlstr[cmdlen + 1..];
          assert controlstr[cmdlen..][1..] == param;
          var slash := StrChr(param, '/');
          if slash < |param| {
            return Rejected;
          }
          assert param[..slash] == param;
          return Command(ctrl, Some(param));
        }
        if cmdlen < |controlstr| {
          return Rejected;
        }
        return Command(ctrl, None);
      }
      ctrl := ctrl + 1;
    }
    r := NoCommand;
  }

  method ToLower(address: string) returns (lowcaseaddr: string)
    ensures lowcaseaddr == LowerAll(address)
  {
    var i := 0;
    lowcaseaddr := address;
    while i < |lowcaseaddr|
      invariant i <= |lowcaseaddr| == |address|
      invariant forall j :: 0 <= j < i ==> lowcaseaddr[j] == Lower(address[j])
      invariant forall j :: i <= j < |address| ==> lowcaseaddr[j] == address[j]
    {
      lowcaseaddr := lowcaseaddr[i := Lower(lowcaseaddr[i])];
      i := i + 1;
    }
  }

  /** main of mlmmj-bounce: lower the case of the address in place, then restore its '@'. */
  method MlmmjBounce(address: string, number: string) returns (r: Option<(string, string)>)
    ensures r == Bounced(address, number)
  {
    var lowcaseaddr := ToLower(address);
    hide LastIndex, LowerAll;
    if number == "confsub" || number == "confunsub" || number == "probe" {
      return None;
    }
    var a := StrRChr(lowcaseaddr, '=');
    if a == 0 {
      assert lowcaseaddr[0..] == lowcaseaddr;
      return None;
    }
    LastIndexAt(lowcaseaddr, '=', a - 1);
    lowcaseaddr := lowcaseaddr[a - 1 := '@'];
    r := Some((number, lowcaseaddr));
  }

  /** A bounce on its way through mlmmj-process, listcontrol and mlmmj-bounce. */
  method HandleBounce(listaddr: string, addr: string, listdelim: string) returns (r: Option<(string, string)>)
    ensures r == ReadBack(listaddr, addr, listdelim)
  {
    hide Match, Lookup, Bounced;
    var matched, recipextra := AddrMatch(listaddr, Some(addr), Some(listdelim));
    if !matched || recipextra.None? {
      return None;
    }
    var control := ListControl(recipextra.value);
    if !control.Command? || control.param.None? || control.ctrl != CTRL_BOUNCES {
      return None;
    }
    var param := control.param.value;
    var c := StrChr(param, '-');
    if c == |param| {
      return None;   // the address is taken from the mail
    }
    r := MlmmjBounce(param[c + 1..], param[..c]);
  }
}
