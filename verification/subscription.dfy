/**
 * Subscriber files and the versions of a subscription: src/subscriberfuncs.c, unsubscribe and
 * unsubscribe_type of src/mlmmj-unsub.c, subscribe_type and the version switch of src/mlmmj-sub.c.
 * One run after the other; mails, locks and failing system calls are not part of this model.
 */
module Subscription {
  import opened AddressFiles
  import opened Letters
  import Seqs

  // ---------------------------------------------------------------- one file

  /** The first line with the address, or the number of lines. */
  function Find(lines: seq<Address>, a: Address): (k: nat)
    ensures k <= |lines| && (k < |lines| ==> Same(a, lines[k]))
    ensures forall i :: 0 <= i < k ==> !Same(a, lines[i])
  {
    if lines == [] || Same(a, lines[0]) then 0 else 1 + Find(lines[1..], a)
  }

  predicate Listed(s: string, a: Address) {
    Find(Lines(s), a) < |Lines(s)|
  }

  /** Each address is in the file once at most. */
  predicate DupFree(s: string) {
    forall i, j :: 0 <= i < j < |Lines(s)| ==> !Same(Lines(s)[i], Lines(s)[j])
  }

  lemma FindAt(lines: seq<Address>, a: Address, k: nat)
    requires k <= |lines| && (k < |lines| ==> Same(a, lines[k]))
    requires forall i :: 0 <= i < k ==> !Same(a, lines[i])
    ensures Find(lines, a) == k
  {
  }

  lemma FindSome(lines: seq<Address>, a: Address, i: nat)
    requires i < |lines| && Same(a, lines[i])
    ensures Find(lines, a) <= i
  {
  }

  /** An address is looked up by its letters, whatever case they are in. */
  lemma FoundInAnyCase(lines: seq<Address>, a: Address, b: Address)
    requires OtherCase(a, b)
    ensures Find(lines, a) == Find(lines, b)
  {
    SameAlike(a, b);
    hide Same, OtherCase, Find;
    var k := Find(lines, b);
    assert k == |lines| || Same(a, lines[k]);
    FindAt(lines, a, k);
  }

  /** So a line is found by any spelling of the address on it, unless it is found earlier. */
  lemma FoundAsSpelled(lines: seq<Address>, a: Address)
    ensures var k := Find(lines, a);
            && (k < |lines| ==> OtherCase(a, lines[k]))
            && forall i :: 0 <= i < k ==> !OtherCase(a, lines[i])
  {
    hide Find, OtherCase, Same;
    forall line ensures Same(a, line) <==> OtherCase(a, line) {
      SameIff(a, line);
    }
  }

  lemma SameAlike(a: Address, b: Address)
    requires OtherCase(a, b)
    ensures forall c :: Same(a, c) <==> Same(b, c)
  {
    SameIff(a, b);
    hide Lower, OtherCase;
  }

  lemma {:induction false} TextAppend(a: seq<Address>, b: seq<Address>)
    ensures Text(a + b) == Text(a) + Text(b)
    decreases |b|
  {
    if b == [] {
      Seqs.Unit(a);
      Seqs.Unit(Text(a));
    } else {
      var n := |b| - 1;
      TextAppend(a, b[..n]);
      Seqs.DropLast(a, b);
      hide Text;
      TextConcat(a + b[..n], b[n]);
      TextConcat(b[..n], b[n]);
      Seqs.Snoc(a + b);
      Seqs.Snoc(b);
      Seqs.Assoc(Text(a), Text(b[..n]), b[n]);
      Seqs.Assoc(Text(a), Text(b[..n]) + b[n], "\n");
    }
  }

  /** A file taken apart around one of its lines; the last one may lack its newline. */
  lemma {:induction false} LineAt(s: string, k: nat) returns (rest: string)
    requires k < |Lines(s)|
    ensures Apart(s, Text(Lines(s)[..k]), Lines(s)[k], End(s, k, rest))
    ensures Ended(s, k) ==> Lines(rest) == Lines(s)[k + 1..] && (EndsInNewline(rest) <==> EndsInNewline(s))
    decreases k
  {
    var n := LineLen(s);
    if n == |s| {
      rest := "";
      Seqs.Unit(s);
    } else {
      FrontLine(s);
      hide Lines, LineLen, Text, EndsInNewline, Ended, Apart;
      var line, t := s[..n], s[n + 1..];
      if k == 0 {
        NoText(Lines(s));
        ApartFirst(line, t);
        return t;
      }
      rest := LineAt(t, k - 1);
      LaterLine(line, t, k);
      ApartLater(line, t, Text(Lines(t)[..k - 1]), Lines(t)[k - 1], End(t, k - 1, rest));
    }
  }

  /** What is behind a line. */
  function End(s: string, k: nat, rest: string): string {
    if Ended(s, k) then "\n" + rest else ""
  }

  predicate Apart(s: string, before: string, line: string, end: string) {
    s == before + line + end
  }

  lemma ApartFirst(line: string, t: string)
    ensures Apart(line + "\n" + t, "", line, "\n" + t)
  {
    Seqs.Unit(line);
    Seqs.Assoc(line, "\n", t);
  }

  lemma ApartLater(front: string, t: string, before: string, line: string, end: string)
    requires Apart(t, before, line, end)
    ensures Apart(front + "\n" + t, front + "\n" + before, line, end)
  {
    Seqs.Assoc(front + "\n", before + line, end);
    Seqs.Assoc(front + "\n", before, line);
  }

  lemma NoText(lines: seq<Address>)
    ensures Text(lines[..0]) == ""
  {
  }

  /** A file taken apart behind its first line. */
  lemma FrontLine(s: string)
    requires LineLen(s) < |s|
    ensures var t := s[LineLen(s) + 1..];
            && s == s[..LineLen(s)] + "\n" + t && Lines(s) == [s[..LineLen(s)]] + Lines(t)
            && (EndsInNewline(s) <==> EndsInNewline(t))
            && Ended(s, 0) && forall k :: 0 < k <= |Lines(t)| ==> (Ended(s, k) <==> Ended(t, k - 1))
  {
    hide LineLen;
    var n := LineLen(s);
    var t := s[n + 1..];
    Seqs.Pick(s, n);
    assert t != "" ==> t[|t| - 1] == s[|s| - 1];
    assert t == "" ==> Lines(t) == [];
    assert t != "" ==> Lines(t) != [];
  }

  lemma LaterLine(line: Address, t: string, k: nat)
    requires 0 < k <= |Lines(t)|
    ensures var ls := [line] + Lines(t);
            && Text(ls[..k]) == line + "\n" + Text(Lines(t)[..k - 1])
            && ls[k] == Lines(t)[k - 1] && ls[k + 1..] == Lines(t)[k..]
  {
    hide Text, Lines;
    var ls := [line] + Lines(t);
    assert ls[..k] == [line] + Lines(t)[..k - 1];
    TextAppend([line], Lines(t)[..k - 1]);
    TextOfOne(line);
  }

  /** A line has its newline, unless it is the last one of a file that does not end in one. */
  predicate Ended(s: string, k: nat) {
    k + 1 < |Lines(s)| || EndsInNewline(s)
  }

  lemma TextOfOne(a: Address)
    ensures Text([a]) == a + "\n"
  {
    assert [a][..0] == [];
    Seqs.Unit(a);
  }

  /** find_subscriber: where the first line with the address begins, or -1. */
  method FindSubscriber(s: string, address: Address) returns (off: int)
    ensures var k := Find(Lines(s), address);
            off == if k == |Lines(s)| then -1 else |Text(Lines(s)[..k])|
  {
    if |s| == 0 {
      return -1;
    }
    ghost var done: seq<Address> := [];
    var next, cur := 0, 0;
    StartScan(s, address);
    hide Scanned, Lines, LineLen, Text, Find, Same;
    while next < |s|
      invariant cur <= next <= |s| && '\n' !in s[cur..next] && Scanned(s, address, done, cur)
    {
      if s[next] == '\n' {
        ScanLine(s, address, done, cur, next);
        if Same(address, s[cur..next]) {
          return cur;
        }
        done := done + [s[cur..next]];
        cur := next + 1;
      } else {
        Extend(s, cur, next);
      }
      next := next + 1;
    }
    assert s[cur..next] == s[cur..];
    off := -1;
    if next > cur {
      ScanLast(s, address, done, cur);
      if Same(address, s[cur..]) {
        return cur;
      }
    } else {
      ScanEnd(s, address, done);
    }
  }

  /** The lines before cur are done, and the address is in none of them. */
  ghost predicate Scanned(s: string, a: Address, done: seq<Address>, cur: nat) {
    && cur <= |s|
    && Lines(s) == done + Lines(s[cur..]) && |Text(done)| == cur
    && forall i :: 0 <= i < |done| ==> !Same(a, done[i])
  }

  lemma StartScan(s: string, a: Address)
    ensures Scanned(s, a, [], 0) && '\n' !in s[0..0]
  {
    assert s[0..] == s;
    Seqs.Unit(Lines(s));
  }

  lemma ScanLine(s: string, a: Address, done: seq<Address>, cur: nat, next: nat)
    requires Scanned(s, a, done, cur) && cur <= next < |s| && s[next] == '\n' && '\n' !in s[cur..next]
    ensures var line := s[cur..next];
            if Same(a, line) then
              var k := Find(Lines(s), a); k < |Lines(s)| && |Text(Lines(s)[..k])| == cur
            else Scanned(s, a, done + [line], next + 1)
  {
    hide LineLen, Lines, Text, Find, Same;
    var line, rest := s[cur..next], Lines(s[next + 1..]);
    FirstOf(s, cur, next, next - cur);
    Seqs.Assoc(done, [line], rest);
    TextConcat(done, line);
    if Same(a, line) {
      FoundHere(s, a, done, line, rest);
    } else {
      NoneYet(done, line, a);
    }
  }

  lemma NoneYet(done: seq<Address>, line: Address, a: Address)
    requires !Same(a, line) && forall i :: 0 <= i < |done| ==> !Same(a, done[i])
    ensures forall i :: 0 <= i < |done + [line]| ==> !Same(a, (done + [line])[i])
  {
  }

  lemma ScanLast(s: string, a: Address, done: seq<Address>, cur: nat)
    requires Scanned(s, a, done, cur) && cur < |s| && '\n' !in s[cur..]
    ensures var k := Find(Lines(s), a);
            if Same(a, s[cur..]) then k < |Lines(s)| && |Text(Lines(s)[..k])| == cur else k == |Lines(s)|
  {
    LastLine(s, cur);
    hide Lines, Text, Find, Same;
    if Same(a, s[cur..]) {
      FoundHere(s, a, done, s[cur..], []);
    } else {
      NotFound(s, a);
    }
  }

  lemma ScanEnd(s: string, a: Address, done: seq<Address>)
    requires Scanned(s, a, done, |s|)
    ensures Find(Lines(s), a) == |Lines(s)|
  {
    assert s[|s|..] == "";
    Seqs.Unit(done);
    NotFound(s, a);
  }

  lemma LastLine(s: string, cur: nat)
    requires cur < |s| && '\n' !in s[cur..]
    ensures Lines(s[cur..]) == [s[cur..]] + []
  {
  }

  lemma FoundHere(s: string, a: Address, done: seq<Address>, line: Address, rest: seq<Address>)
    requires Lines(s) == done + ([line] + rest) && Same(a, line)
    requires forall i :: 0 <= i < |done| ==> !Same(a, done[i])
    ensures Find(Lines(s), a) == |done| < |Lines(s)| && Lines(s)[..|done|] == done
  {
    FindAt(Lines(s), a, |done|);
  }

  lemma NotFound(s: string, a: Address)
    requires forall i :: 0 <= i < |Lines(s)| ==> !Same(a, Lines(s)[i])
    ensures Find(Lines(s), a) == |Lines(s)|
  {
    FindAt(Lines(s), a, |Lines(s)|);
  }

  /** The lines without the first one with the address. */
  function Without(lines: seq<Address>, a: Address): seq<Address> {
    var k := Find(lines, a);
    if k == |lines| then lines else lines[..k] + lines[k + 1..]
  }

  /** The first line with the address is there, and ended. */
  predicate Removable(s: string, a: Address) {
    Listed(s, a) && Ended(s, Find(Lines(s), a))
  }

  /** A file without the first line with the address. */
  function Cut(s: string, a: Address): string
    requires Removable(s, a)
  {
    Around(s, a);
    var off := |Text(Lines(s)[..Find(Lines(s), a)])|;
    Excised(s, off, |a| + 1)
  }

  function Excised(s: string, off: nat, n: nat): string
    requires off + n <= |s|
  {
    s[..off] + s[off + n..]
  }

  /**
   * unsubscribe: the file without that line, and how long it is; -1 if there is no such line. For a line
   * without newline the number of bytes behind it comes to -1, which writen takes for a very large one; it
   * can only return -1 then.
   */
  method Unsubscribe(inmap: string, address: Address) returns (written: int, outfile: string)
    ensures if Removable(inmap, address) then outfile == Cut(inmap, address) && written == |outfile|
            else written == -1
  {
    var suboff := FindSubscriber(inmap, address);
    outfile := "";
    if suboff == -1 {
      return -1, "";
    }
    Around(inmap, address);
    hide Lines, Text, Find;
    var len := |address| + 1;
    if suboff > 0 {
      outfile := inmap[..suboff];
    }
    if len + suboff > |inmap| {
      return -1, outfile;
    }
    outfile := outfile + inmap[len + suboff..];
    written := |outfile|;
  }

  /** A part of the file whose going leaves these lines. */
  ghost predicate CutsOut(s: string, off: nat, n: nat, left: seq<Address>) {
    && off + n <= |s|
    && Lines(Excised(s, off, n)) == left && (EndsInNewline(s) ==> EndsInNewline(Excised(s, off, n)))
  }

  /** The file around the line that goes. */
  lemma Around(s: string, a: Address)
    requires Listed(s, a)
    ensures var ls, k := Lines(s), Find(Lines(s), a);
            var off := |Text(ls[..k])|;
            && off <= |s| && (off + |a| + 1 <= |s| <==> Removable(s, a))
            && (Removable(s, a) ==> CutsOut(s, off, |a| + 1, Without(ls, a)))
  {
    AtFind(s, a);
    if Removable(s, a) {
      AroundEnded(s, a);
      hide Removable, Listed, Lines, Text, Without, Find;
    } else {
      AroundLast(s, a);
      hide *;
    }
  }

  lemma AroundEnded(s: string, a: Address)
    requires Listed(s, a) && Removable(s, a)
    ensures var ls, k := Lines(s), Find(Lines(s), a);
            CutsOut(s, |Text(ls[..k])|, |a| + 1, Without(ls, a))
  {
    var ls, k := Lines(s), Find(Lines(s), a);
    AtFind(s, a);
    hide *;
    assert Ended(s, k) && |ls[k]| == |a|;
    var rest := LineAt(s, k);
    EndOf(s, k, rest);
    assert Without(ls, a) == ls[..k] + Lines(rest);
    CutBetween(s, ls[..k], ls[k], rest);
  }

  lemma AroundLast(s: string, a: Address)
    requires Listed(s, a) && !Removable(s, a)
    ensures |Text(Lines(s)[..Find(Lines(s), a)])| + |a| == |s|
  {
    AtFind(s, a);
    hide *;
    var ls, k := Lines(s), Find(Lines(s), a);
    var rest := LineAt(s, k);
    EndOf(s, k, rest);
    ApartLast(s, Text(ls[..k]), ls[k]);
  }

  lemma EndOf(s: string, k: nat, rest: string)
    ensures End(s, k, rest) == if Ended(s, k) then "\n" + rest else ""
  {
  }

  lemma ApartLast(s: string, before: string, line: string)
    requires Apart(s, before, line, "")
    ensures |before| + |line| == |s|
  {
  }

  lemma AtFind(s: string, a: Address)
    requires Listed(s, a)
    ensures var ls, k := Lines(s), Find(Lines(s), a);
            && k < |ls| && |ls[k]| == |a| && AreLines(ls[..k])
            && Without(ls, a) == ls[..k] + ls[k + 1..] && (Removable(s, a) <==> Ended(s, k))
  {
    hide Lines, Find, Ended;
  }

  lemma CutBetween(s: string, before: seq<Address>, line: Address, rest: string)
    requires AreLines(before) && Apart(s, Text(before), line, "\n" + rest)
    requires EndsInNewline(rest) <==> EndsInNewline(s)
    ensures CutsOut(s, |Text(before)|, |line| + 1, before + Lines(rest))
  {
    hide Lines;
    var p := Text(before);
    LinesOfText(before);
    LinesConcat(p, rest);
    hide Text;
    Seqs.Assoc(p + line, "\n", rest);
    Seqs.Assoc(p, line, "\n");
    Seqs.Ends(p, line + "\n", rest);
  }

  // ---------------------------------------------------------------- one directory

  /** The files of a subscriber directory by name. */
  type Dir = map<string, string>

  function Get(d: Dir, f: string): string {
    if f in d then d[f] else ""
  }

  ghost predicate InDir(d: Dir, a: Address) {
    exists f :: f in d && Listed(d[f], a)
  }

  /** Files whose lines are ended and hold no address twice; no temporary file is left over. */
  ghost predicate Proper(d: Dir) {
    && (forall f :: f in d ==> EndsInNewline(d[f]) && DupFree(d[f]))
    && (forall f :: f in d ==> !IsTemporary(f))
  }

  /** The names that unsubscribing writes to before it renames. */
  predicate IsTemporary(f: string) {
    |f| >= 4 && f[|f| - 4..] == ".new"
  }

  /** Not more than one file has the address. */
  ghost predicate OneFile(d: Dir, a: Address) {
    forall f, g :: f in d && g in d && Listed(d[f], a) && Listed(d[g], a) ==> f == g
  }

  /** The lines of a file that are about other addresses. */
  function Others(lines: seq<Address>, a: Address): seq<Address> {
    if lines == [] then []
    else Others(lines[..|lines| - 1], a) + if Same(a, lines[|lines| - 1]) then [] else [lines[|lines| - 1]]
  }

  /** All other lines of a directory are as they were, file by file and in order. */
  ghost predicate SameOthers(d: Dir, d': Dir, a: Address) {
    forall f :: Others(Lines(Get(d', f)), a) == Others(Lines(Get(d, f)), a)
  }

  /** A file after unsubscribing. */
  function Cleared(s: string, a: Address): string {
    if Removable(s, a) then Cut(s, a) else s
  }

  /** A directory after unsubscribing; files left empty are removed. */
  function Removed(d: Dir, a: Address): Dir {
    map f | f in d && (Removable(d[f], a) ==> Cleared(d[f], a) != "") :: Cleared(d[f], a)
  }

  /** A directory after subscribing: a line at the end of the file named by the first character. */
  function Added(d: Dir, a: Address): Dir
    requires a != ""
  {
    d[[a[0]] := Get(d, [a[0]]) + (a + "\n")]
  }

  lemma {:induction false} OthersConcat(p: seq<Address>, q: seq<Address>, a: Address)
    ensures Others(p + q, a) == Others(p, a) + Others(q, a)
    decreases |q|
  {
    if q == [] {
      Seqs.Unit(p);
      Seqs.Unit(Others(p, a));
    } else {
      var n := |q| - 1;
      Seqs.DropLast(p, q);
      OthersConcat(p, q[..n], a);
      Seqs.Assoc(Others(p, a), Others(q[..n], a), if Same(a, q[n]) then [] else [q[n]]);
    }
  }

  lemma OthersOfOne(line: Address, a: Address)
    ensures Others([line], a) == if Same(a, line) then [] else [line]
  {
    assert [line][..0] == [];
  }

  lemma WithoutOthers(ls: seq<Address>, a: Address)
    ensures Others(Without(ls, a), a) == Others(ls, a)
  {
    hide Others, Find, Same;
    var k := Find(ls, a);
    if k < |ls| {
      var p, q := ls[..k], ls[k + 1..];
      Seqs.Pick(ls, k);
      OthersConcat(p + [ls[k]], q, a);
      OthersConcat(p, [ls[k]], a);
      OthersOfOne(ls[k], a);
      OthersConcat(p, q, a);
      Seqs.Unit(Others(p, a));
    }
  }

  /** The address is on one line at most, which is ended. */
  predicate OnceEnded(s: string, a: Address) {
    Listed(s, a) ==>
      var k := Find(Lines(s), a);
      Ended(s, k) && forall i :: k < i < |Lines(s)| ==> !Same(a, Lines(s)[i])
  }

  /** Taking one line away takes the address away exactly if no later line has it; it makes no duplicate. */
  lemma WithoutGone(ls: seq<Address>, a: Address)
    ensures var k, w := Find(ls, a), Without(ls, a);
            (forall i :: 0 <= i < |w| ==> !Same(a, w[i])) <==> (forall i :: k < i < |ls| ==> !Same(a, ls[i]))
    ensures (forall i, j :: 0 <= i < j < |ls| ==> !Same(ls[i], ls[j])) ==>
              forall i, j :: 0 <= i < j < |Without(ls, a)| ==> !Same(Without(ls, a)[i], Without(ls, a)[j])
  {
    var k, w := Find(ls, a), Without(ls, a);
    hide Find, Same;
    forall i | 0 <= i < |w| ensures w[i] == ls[if i < k then i else i + 1] {
    }
    forall i | k < i < |ls| ensures w[i - 1] == ls[i] {
    }
  }

  lemma OnceWhereUnique(s: string, a: Address)
    requires EndsInNewline(s) && DupFree(s)
    ensures OnceEnded(s, a)
  {
    var ls, k := Lines(s), Find(Lines(s), a);
    hide Lines, Find;
    if k < |ls| {
      forall i | k < i < |ls| ensures !Same(a, ls[i]) {
        assert Same(a, ls[k]) && !Same(ls[k], ls[i]);
      }
    }
  }

  /** What a file keeps when it is cleared, and when the address is gone from it. */
  lemma ClearedFile(s: string, a: Address)
    ensures var t := Cleared(s, a);
            && (EndsInNewline(s) ==> EndsInNewline(t)) && (DupFree(s) ==> DupFree(t))
            && Others(Lines(t), a) == Others(Lines(s), a)
            && (Listed(t, a) <==> !OnceEnded(s, a))
  {
    if Removable(s, a) {
      Around(s, a);
      var ls, t := Lines(s), Cleared(s, a);
      assert Lines(t) == Without(ls, a);
      hide Lines, Others, Text, EndsInNewline, Without, Cut, Cleared, Find;
      WithoutOthers(ls, a);
      WithoutGone(ls, a);
      ListedSome(t, a);
    }
  }

  lemma ListedSome(s: string, a: Address)
    ensures Listed(s, a) <==> exists i :: 0 <= i < |Lines(s)| && Same(a, Lines(s)[i])
  {
    hide Lines, Same;
    if Listed(s, a) {
      assert Same(a, Lines(s)[Find(Lines(s), a)]);
    }
    if i :| 0 <= i < |Lines(s)| && Same(a, Lines(s)[i]) {
      FindSome(Lines(s), a, i);
    }
  }

  lemma ClearedListed(s: string, a: Address, b: Address)
    requires Listed(Cleared(s, a), b)
    ensures Listed(s, b)
  {
    if Removable(s, a) {
      assert Lines(Cleared(s, a)) == Without(Lines(s), a) by { Around(s, a); }
      hide *;
      assert Find(Without(Lines(s), a), b) < |Without(Lines(s), a)| by { ListedMeans(Cleared(s, a), b); }
      FindInWithout(Lines(s), a, b);
      ListedMeans(s, b);
    }
  }

  lemma ListedMeans(s: string, a: Address)
    ensures Listed(s, a) <==> Find(Lines(s), a) < |Lines(s)|
  {
  }

  lemma FindInWithout(ls: seq<Address>, a: Address, b: Address)
    requires Find(Without(ls, a), b) < |Without(ls, a)|
    ensures Find(ls, b) < |ls|
  {
    var i, k := Find(Without(ls, a), b), Find(ls, a);
    hide Find, Same;
    var j := if i < k then i else i + 1;
    assert Without(ls, a)[i] == ls[j];
    FindSome(ls, b, j);
  }

  /**
   * Unsubscribing touches no other address. It takes the address out of the directory exactly if no file
   * has it on two lines or on a last line without newline, so always in a proper directory.
   */
  lemma RemovedKeeps(d: Dir, a: Address)
    ensures var d' := Removed(d, a);
            SameOthers(d, d', a) && forall b :: InDir(d', b) ==> InDir(d, b)
    ensures !InDir(Removed(d, a), a) <==> forall f :: f in d ==> OnceEnded(d[f], a)
    ensures Proper(d) ==> Proper(Removed(d, a)) && !InDir(Removed(d, a), a)
  {
    var d' := Removed(d, a);
    EmptyFile();
    hide Listed, Lines, Others, DupFree, EndsInNewline, Cleared, OnceEnded, Removable, IsTemporary;
    forall f | f in d
      ensures ClearedWell(d[f], Cleared(d[f], a), a)
    {
      ClearedFile(d[f], a);
      forall b | Listed(Cleared(d[f], a), b) ensures Listed(d[f], b) {
        ClearedListed(d[f], a, b);
      }
      if EndsInNewline(d[f]) && DupFree(d[f]) {
        OnceWhereUnique(d[f], a);
      }
    }
    forall f ensures Others(Lines(Get(d', f)), a) == Others(Lines(Get(d, f)), a) {
      if f in d {
        assert ClearedWell(d[f], Cleared(d[f], a), a);
      }
    }
    forall b | InDir(d', b) ensures InDir(d, b) {
      var f :| f in d' && Listed(d'[f], b);
      assert ClearedWell(d[f], Cleared(d[f], a), a);
    }
    forall f | f in d ensures f in d' && Listed(d'[f], a) <==> !OnceEnded(d[f], a) {
      assert ClearedWell(d[f], Cleared(d[f], a), a);
    }
    if Proper(d) {
      forall f | f in d ensures OnceEnded(d[f], a) {
        assert ClearedWell(d[f], Cleared(d[f], a), a);
      }
      forall f | f in d' ensures EndsInNewline(d'[f]) && DupFree(d'[f]) {
        assert ClearedWell(d[f], Cleared(d[f], a), a);
      }
    }
  }

  ghost predicate ClearedWell(s: string, t: string, a: Address) {
    && (EndsInNewline(s) ==> EndsInNewline(t)) && (DupFree(s) ==> DupFree(t))
    && (EndsInNewline(s) && DupFree(s) ==> OnceEnded(s, a))
    && Others(Lines(t), a) == Others(Lines(s), a)
    && (Listed(t, a) <==> !OnceEnded(s, a))
    && forall b :: Listed(t, b) ==> Listed(s, b)
  }

  /** Behind a file whose last line is not ended, an address becomes part of that line. */
  lemma {:induction false} MergedLines(s: string, a: Address)
    requires !EndsInNewline(s) && '\n' !in a
    ensures var ls, k := Lines(s), |Lines(s)| - 1;
            k >= 0 && ls[k] != "" && Lines(s + (a + "\n")) == ls[..k] + [ls[k] + a]
    decreases |s|
  {
    var n := LineLen(s);
    if n == |s| {
      LinesOfOne(s + a);
      Seqs.Assoc(s, a, "\n");
    } else {
      FrontLine(s);
      var t := s[n + 1..];
      MergedLines(t, a);
      FirstLineConcat(s, a + "\n");
      hide *;
      var ls := Lines(t);
      var k := |ls| - 1;
      MergedBehind(s[..n], ls, ls[..k] + [ls[k] + a], ls[k] + a);
    }
  }

  lemma MergedBehind(line: Address, ls: seq<Address>, merged: seq<Address>, last: Address)
    requires |ls| > 0 && merged == ls[..|ls| - 1] + [last]
    ensures var all := [line] + ls;
            all[|all| - 1] == ls[|ls| - 1] && [line] + merged == all[..|all| - 1] + [last]
  {
  }

  /** Appending an address leaves the lines of others as they were exactly if the last line is ended. */
  lemma AppendedOthers(s: string, a: Address)
    requires a != "" && '\n' !in a
    ensures Others(Lines(s + (a + "\n")), a) == Others(Lines(s), a) <==> EndsInNewline(s)
    ensures EndsInNewline(s) ==> Lines(s + (a + "\n")) == Lines(s) + [a]
  {
    var ls := Lines(s);
    if EndsInNewline(s) {
      LinesConcat(s, a + "\n");
      LinesOfOne(a);
      hide Lines, Others;
      OthersConcat(ls, [a], a);
      OthersOfOne(a, a);
      Seqs.Unit(Others(ls, a));
    } else {
      MergedLines(s, a);
      hide Lines, Others;
      var k := |ls| - 1;
      Seqs.Snoc(ls);
      OthersConcat(ls[..k], [ls[k]], a);
      OthersConcat(ls[..k], [ls[k] + a], a);
      OthersOfOne(ls[k], a);
      OthersOfOne(ls[k] + a, a);
      LongerLine(Others(ls[..k], a), ls[k], a);
    }
  }

  lemma LongerLine(front: seq<Address>, u: Address, a: Address)
    requires u != "" && a != ""
    ensures !Same(a, u + a) && front + [u + a] != front + [] && front + [u + a] != front + [u]
  {
    assert |front + [u + a]| == |front| + 1;
    assert (front + [u + a])[|front|] != (front + [u])[|front|];
  }

  /**
   * Subscribing leaves the lines of other addresses as they were exactly if the file for the first character ends
   * in a newline, and then the address is there; in a proper directory that does not have it, it is there once.
   */
  lemma AddedKeeps(d: Dir, a: Address)
    requires a != "" && '\n' !in a
    ensures SameOthers(d, Added(d, a), a) <==> EndsInNewline(Get(d, [a[0]]))
    ensures EndsInNewline(Get(d, [a[0]])) ==> InDir(Added(d, a), a)
    ensures Proper(d) && !InDir(d, a) ==> Proper(Added(d, a)) && OneFile(Added(d, a), a)
  {
    var f, s := [a[0]], Get(d, [a[0]]);
    AddedIs(d, a);
    AppendedOthers(s, a);
    OthersIffOne(d, f, s + (a + "\n"), a);
    if EndsInNewline(s) {
      ListedAtEnd(s, a);
      hide *;
      ListedThere(d, f, s + (a + "\n"), a);
    }
    if Proper(d) && !InDir(d, a) {
      EmptyFile();
      NotThere(d, f, a);
      AddedFile(s, a);
      assert !IsTemporary(f);
      hide *;
      OneFileChanges(d, f, s + (a + "\n"), a);
    }
  }

  /** Where one file changes, the lines of others are the same in all if they are in this one. */
  lemma OthersIffOne(d: Dir, f: string, t: string, a: Address)
    ensures SameOthers(d, d[f := t], a) <==> Others(Lines(t), a) == Others(Lines(Get(d, f)), a)
  {
    hide Lines, Others;
    assert Get(d[f := t], f) == t;
    assert forall g :: g != f ==> Get(d[f := t], g) == Get(d, g);
  }

  lemma ListedThere(d: Dir, f: string, t: string, a: Address)
    requires Listed(t, a)
    ensures InDir(d[f := t], a)
  {
    hide Listed;
    assert f in d[f := t] && d[f := t][f] == t;
  }

  lemma NotThere(d: Dir, f: string, a: Address)
    requires Proper(d) && !InDir(d, a)
    ensures var s := Get(d, f); EndsInNewline(s) && DupFree(s) && !Listed(s, a)
  {
    EmptyFile();
    hide Listed, DupFree, EndsInNewline;
  }

  lemma ListedAtEnd(s: string, a: Address)
    requires a != "" && '\n' !in a && EndsInNewline(s)
    ensures Listed(s + (a + "\n"), a)
  {
    AppendedOthers(s, a);
    hide Lines, Others, EndsInNewline;
    var t := s + (a + "\n");
    assert Lines(t)[|Lines(s)|] == a;
    FindSome(Lines(t), a, |Lines(s)|);
  }

  lemma AddedIs(d: Dir, a: Address)
    requires a != ""
    ensures Added(d, a) == d[[a[0]] := Get(d, [a[0]]) + (a + "\n")]
  {
  }

  /** A directory in which one file changes. */
  lemma OneFileChanges(d: Dir, f: string, t: string, a: Address)
    requires Proper(d) && !InDir(d, a) && !IsTemporary(f)
    requires EndsInNewline(t) && DupFree(t) && Listed(t, a)
    requires Others(Lines(t), a) == Others(Lines(Get(d, f)), a)
    ensures var d' := d[f := t];
            Proper(d') && InDir(d', a) && OneFile(d', a) && SameOthers(d, d', a)
  {
    hide Listed, Lines, Others, DupFree, EndsInNewline, IsTemporary;
    var d' := d[f := t];
    assert f in d' && Listed(d'[f], a);
    forall g | g in d' && g != f ensures !Listed(d'[g], a) {
      assert d'[g] == d[g];
    }
  }

  lemma AddedFile(s: string, a: Address)
    requires a != "" && EndsInNewline(s) && DupFree(s) && !Listed(s, a) && '\n' !in a
    ensures var t := s + (a + "\n");
            && EndsInNewline(t) && DupFree(t) && Listed(t, a)
            && Others(Lines(t), a) == Others(Lines(s), a)
  {
    var t, ls := s + (a + "\n"), Lines(s);
    AppendedOthers(s, a);
    ListedAtEnd(s, a);
    assert EndsInNewline(t) by {
      assert t[|t| - 1] == '\n';
    }
    hide Lines, Others, Listed, EndsInNewline;
    assert forall i :: 0 <= i < |ls| ==> !Same(a, ls[i]) by { NotListed(s, a); }
    forall i, j | 0 <= i < j < |ls + [a]| ensures !Same((ls + [a])[i], (ls + [a])[j]) {
      if j == |ls| {
        assert !Same(a, ls[i]);
      }
    }
  }

  lemma NotListed(s: string, a: Address)
    requires !Listed(s, a)
    ensures forall i :: 0 <= i < |Lines(s)| ==> !Same(a, Lines(s)[i])
  {
  }

  lemma EmptyFile()
    ensures Lines("") == [] && EndsInNewline("") && DupFree("") && forall a :: !Listed("", a)
  {
  }

  /** is_subbed_in: the files in whatever order readdir gives them. */
  method IsSubbedIn(d: Dir, address: Address) returns (subbed: bool)
    ensures subbed <==> InDir(d, address)
  {
    hide Lines, Find, Text;
    var names := d.Keys;
    while names != {}
      invariant names <= d.Keys
      invariant forall f :: f in d && f !in names ==> !Listed(d[f], address)
    {
      var f :| f in names;
      var suboff := FindSubscriber(d[f], address);
      ListedMeans(d[f], address);
      if suboff != -1 {
        return true;
      }
      names := names - {f};
    }
    subbed := false;
  }

  /** Halfway through the directory: the files not among `names` have been dealt with. */
  ghost predicate Halfway(d: Dir, d': Dir, names: set<string>, a: Address) {
    && names <= d.Keys
    && (forall f :: f in names ==> f in d' && d'[f] == d[f])
    && (forall f :: f !in names ==> (f in d' <==> f in Removed(d, a)))
    && (forall f :: f in d' && f !in names ==> d'[f] == Removed(d, a)[f])
  }

  /** The directory loop of unsubscribe_type. */
  method UnsubscribeType(d: Dir, address: Address) returns (d': Dir)
    requires forall f :: f in d ==> f + ".new" !in d
    ensures d' == Removed(d, address)
  {
    hide Lines, Find, Text, Without, DupFree, Cleared, Removable, Removed;
    d' := d;
    var names := d.Keys;
    assert forall f :: f in Removed(d, address) ==> f in d by { RemovedFiles(d, address); }
    while names != {}
      invariant Halfway(d, d', names, address)
    {
      var dname :| dname in names;
      d' := UnsubscribeFile(d', dname, address);
      RemovedFile(d, dname, address);
      names := names - {dname};
    }
  }

  /** Of an address that is not there nothing is removed. */
  lemma RemovedNothing(d: Dir, a: Address)
    requires !InDir(d, a)
    ensures Removed(d, a) == d
  {
    hide Listed;
    assert forall f :: f in d ==> !Removable(d[f], a);
    hide *;
    RemovedWhere(d, a);
  }

  lemma RemovedWhere(d: Dir, a: Address)
    requires forall f :: f in d ==> !Removable(d[f], a)
    ensures Removed(d, a) == d
  {
    hide Removable;
  }

  /** The files that go are those with nothing on them but the address, on a line that is ended. */
  lemma FilesGone(d: Dir, a: Address)
    ensures forall f :: f in Removed(d, a) <==> f in d && !HoldsOnly(d[f], a)
    ensures forall f :: f in Removed(d, a) && !Removable(d[f], a) ==> Removed(d, a)[f] == d[f]
    ensures forall f :: f in Removed(d, a) && Removable(d[f], a) ==>
              Lines(Removed(d, a)[f]) == Without(Lines(d[f]), a)
  {
    hide Removable, Lines, HoldsOnly, Removed, Cleared, Without;
    forall f | f in d
      ensures (Removable(d[f], a) && Cleared(d[f], a) == "") <==> HoldsOnly(d[f], a)
      ensures Removable(d[f], a) ==> Lines(Cleared(d[f], a)) == Without(Lines(d[f]), a)
      ensures !Removable(d[f], a) ==> Cleared(d[f], a) == d[f]
    {
      ClearedLines(d[f], a);
    }
    RemovedFiles(d, a);
    forall f | f in d
      ensures f in Removed(d, a) <==> (Removable(d[f], a) ==> Cleared(d[f], a) != "")
      ensures f in Removed(d, a) ==> Removed(d, a)[f] == Cleared(d[f], a)
    {
      RemovedFile(d, f, a);
    }
  }

  predicate HoldsOnly(s: string, a: Address) {
    |Lines(s)| == 1 && OtherCase(a, Lines(s)[0]) && s[|s| - 1] == '\n'
  }

  lemma ClearedLines(s: string, a: Address)
    ensures (Removable(s, a) && Cleared(s, a) == "") <==> HoldsOnly(s, a)
    ensures Removable(s, a) ==> Lines(Cleared(s, a)) == Without(Lines(s), a)
    ensures !Removable(s, a) ==> Cleared(s, a) == s
  {
    assert |Lines(s)| == 1 ==> s != "";
    NoLines(Cleared(s, a));
    if Removable(s, a) { Around(s, a); }
    hide Lines, Cut, Same, OtherCase;
    if |Lines(s)| == 1 {
      SameIff(a, Lines(s)[0]);
    }
  }

  lemma NoLines(s: string)
    ensures Lines(s) == [] <==> s == ""
  {
  }

  lemma RemovedFiles(d: Dir, a: Address)
    ensures forall f :: f in Removed(d, a) ==> f in d
  {
  }

  lemma RemovedFile(d: Dir, f: string, a: Address)
    requires f in d
    ensures f in Removed(d, a) <==> (Removable(d[f], a) ==> Cleared(d[f], a) != "")
    ensures f in Removed(d, a) ==> Removed(d, a)[f] == Cleared(d[f], a)
  {
  }

  /** One file of the directory: copied without the line to a new file, which is renamed, or removed if empty. */
  method UnsubscribeFile(d: Dir, dname: string, address: Address) returns (d': Dir)
    requires dname in d && dname + ".new" !in d
    ensures forall f :: f != dname ==> (f in d' <==> f in d) && (f in d ==> d'[f] == d[f])
    ensures dname in d' <==> (Removable(d[dname], address) ==> Cleared(d[dname], address) != "")
    ensures dname in d' ==> d'[dname] == Cleared(d[dname], address)
  {
    hide Lines, Find, Text, Without, Cut, Ended;
    var suboff := FindSubscriber(d[dname], address);
    ListedMeans(d[dname], address);
    if suboff == -1 {
      return d;
    }
    var subwritename := dname + ".new";
    var unsubres, outfile := Unsubscribe(d[dname], address);
    hide Removable;
    d' := d[subwritename := outfile];
    if unsubres < 0 {
      d' := d' - {subwritename};
    } else if unsubres > 0 {
      d' := d'[dname := d'[subwritename]] - {subwritename};
    } else {
      d' := d' - {subwritename, dname};
    }
  }

  // ---------------------------------------------------------------- the versions of a subscription

  datatype SubType = SubNormal | SubDigest | SubNomail | SubAll | SubBoth | SubNone

  /** The version of a subscription, by the directories the address is in. */
  function Version(normal: bool, digest: bool, nomail: bool): SubType {
    if normal && digest then SubBoth
    else if digest then SubDigest
    else if nomail then SubNomail
    else if normal then SubNormal
    else SubNone
  }

  datatype Outcome = Refused | Failed | Completed

  /** The three subscriber directories of a list. */
  datatype Dirs = Dirs(subscribers: Dir, digesters: Dir, nomailsubs: Dir)

  /** The directories after mlmmj-unsub. */
  function Unsubscribed(ds: Dirs, address: Address, typesub: SubType): Dirs {
    var a := LowerAll(address);
    Dirs(if typesub in {SubNormal, SubAll} then Removed(ds.subscribers, a) else ds.subscribers,
         if typesub in {SubDigest, SubAll} then Removed(ds.digesters, a) else ds.digesters,
         if typesub in {SubNomail, SubAll} then Removed(ds.nomailsubs, a) else ds.nomailsubs)
  }

  ghost function VersionIn(ds: Dirs, a: Address): SubType {
    Version(InDir(ds.subscribers, a), InDir(ds.digesters, a), InDir(ds.nomailsubs, a))
  }

  /** What mlmmj-sub leaves first, having found the address subscribed in one version and wanting another. */
  function Vacated(ds: Dirs, a: Address, subbed: SubType, typesub: SubType): Dirs {
    if subbed == SubNone || (typesub == SubBoth && subbed != SubNomail) then ds
    else if subbed == SubBoth && typesub == SubNormal then Unsubscribed(ds, a, SubDigest)
    else if subbed == SubBoth && typesub == SubDigest then Unsubscribed(ds, a, SubNormal)
    else Unsubscribed(ds, a, SubAll)
  }

  /** The lines missing then. */
  function Joined(ds: Dirs, a: Address, subbed: SubType, typesub: SubType): Dirs
    requires a != ""
  {
    var (n, d) := (subbed in {SubNormal, SubBoth}, subbed in {SubDigest, SubBoth});
    match typesub
    case SubNormal => if subbed == SubBoth then ds else ds.(subscribers := Added(ds.subscribers, a))
    case SubDigest => if subbed == SubBoth then ds else ds.(digesters := Added(ds.digesters, a))
    case SubNomail => ds.(nomailsubs := Added(ds.nomailsubs, a))
    case SubBoth => Dirs(if n then ds.subscribers else Added(ds.subscribers, a),
                         if d then ds.digesters else Added(ds.digesters, a), ds.nomailsubs)
    case _ => ds
  }

  /** A request for the list itself, or for what is no address. */
  predicate Unwanted(address: Address, listaddr: Address) {
    '@' !in address || (|listaddr| <= |address| && OtherCase(listaddr, address[..|listaddr|]))
  }

  /** An address whose file would be a directory, or hidden. */
  predicate NoFileFor(a: Address) {
    a != "" && (a[0] == '.' || a[0] == '/')
  }

  /** Whether a version asks for a line that is not there yet. */
  predicate AsksForLine(subbed: SubType, typesub: SubType) {
    subbed != typesub && !(subbed == SubBoth && typesub in {SubNormal, SubDigest})
  }

  /** The directories once the wanted version has taken the place of the present one, as far as it can. */
  ghost function Exchanged(ds: Dirs, a: Address, typesub: SubType): Dirs
    requires a != ""
  {
    var subbed := VersionIn(ds, a);
    if subbed == typesub then ds
    else
      var left := Vacated(ds, a, subbed, typesub);
      if AsksForLine(subbed, typesub) && !NoFileFor(a) then Joined(left, a, subbed, typesub) else left
  }

  /** The directories after mlmmj-sub, and how it ends. */
  ghost function Switched(ds: Dirs, address: Address, typesub: SubType, listaddr: Address): (Dirs, Outcome) {
    var a := LowerAll(address);
    if a == "" || Unwanted(address, listaddr) then (ds, Refused)
    else (Exchanged(ds, a, typesub),
          if AsksForLine(VersionIn(ds, a), typesub) && NoFileFor(a) then Failed else Completed)
  }

  /** For either program it makes no difference in which case the letters of the address are written. */
  lemma CaseMakesNoDifference(ds: Dirs, address: Address, other: Address, typesub: SubType, listaddr: Address)
    requires OtherCase(address, other)
    ensures Unsubscribed(ds, address, typesub) == Unsubscribed(ds, other, typesub)
    ensures Switched(ds, address, typesub, listaddr) == Switched(ds, other, typesub, listaddr)
  {
    SameIff(address, other);
    UnwantedAlike(address, other, listaddr);
    hide OtherCase, Removed, Unwanted, VersionIn, Exchanged;
  }

  lemma UnwantedAlike(address: Address, other: Address, listaddr: Address)
    requires OtherCase(address, other)
    ensures Unwanted(address, listaddr) == Unwanted(other, listaddr)
  {
    var n := |listaddr|;
    AtSignsAlike(address, other);
    AtSignsAlike(other, address);
    hide CaseOnly;
    if n <= |address| {
      assert OtherCase(address[..n], other[..n]);
      hide OtherCase;
      SameIff(address[..n], other[..n]);
      SameIff(listaddr, address[..n]);
      SameIff(listaddr, other[..n]);
    }
  }

  lemma AtSignsAlike(address: Address, other: Address)
    requires OtherCase(address, other) || OtherCase(other, address)
    ensures '@' in address ==> '@' in other
  {
    if '@' in address {
      var i :| 0 <= i < |address| && address[i] == '@';
      SameLetter(address[i], other[i]);
      SameLetter(other[i], address[i]);
    }
  }

  class ListDir {
    var subscribers: Dir
    var digesters: Dir
    var nomailsubs: Dir

    ghost predicate Valid()
      reads this
    {
      Proper(subscribers) && Proper(digesters) && Proper(nomailsubs)
    }

    ghost function VersionOf(a: Address): SubType
      reads this
    {
      Version(InDir(subscribers, a), InDir(digesters, a), InDir(nomailsubs, a))
    }

    /** nomail does not stand beside another version. */
    ghost predicate Consistent(a: Address)
      reads this
    {
      InDir(nomailsubs, a) ==> !InDir(subscribers, a) && !InDir(digesters, a)
    }

    ghost predicate NoDuplicate(a: Address)
      reads this
    {
      OneFile(subscribers, a) && OneFile(digesters, a) && OneFile(nomailsubs, a)
    }

    /** Which of the three directories the address is in. */
    ghost function Places(a: Address): (bool, bool, bool)
      reads this
    {
      (InDir(subscribers, a), InDir(digesters, a), InDir(nomailsubs, a))
    }

    ghost function Now(): Dirs
      reads this
    {
      Dirs(subscribers, digesters, nomailsubs)
    }

    ghost predicate KeptSince(s0: Dir, d0: Dir, n0: Dir, a: Address)
      reads this
    {
      Kept(s0, subscribers, a) && Kept(d0, digesters, a) && Kept(n0, nomailsubs, a)
    }

    /** is_subbed. */
    method IsSubbed(address: Address, both: bool) returns (typesub: SubType)
      ensures both ==> typesub == VersionOf(address)
      ensures both ==>
                match typesub
                case SubBoth => Places(address).0 && Places(address).1
                case SubDigest => !Places(address).0 && Places(address).1
                case SubNomail => !Places(address).1 && Places(address).2
                case SubNormal => Places(address) == (true, false, false)
                case SubNone => Places(address) == (false, false, false)
                case SubAll => false
      ensures !both ==> (typesub == SubNone <==> VersionOf(address) == SubNone)
    {
      typesub := SubNone;
      var retval := IsSubbedIn(subscribers, address);
      if retval {
        if !both {
          return SubNormal;
        }
        typesub := SubNormal;
      }
      retval := IsSubbedIn(digesters, address);
      if retval {
        return if typesub == SubNormal then SubBoth else SubDigest;
      }
      retval := IsSubbedIn(nomailsubs, address);
      if retval {
        return SubNomail;
      }
    }

    /** subscribe_type: a line at the end of the file for the first character, if that can be a file. */
    method SubscribeType(address: Address, typesub: SubType) returns (ok: bool)
      requires Valid() && address != "" && '\n' !in address && typesub in {SubNormal, SubDigest, SubNomail}
      requires !InDir(if typesub == SubDigest then digesters else if typesub == SubNomail then nomailsubs
                      else subscribers, address)
      modifies this
      ensures Valid() && KeptSince(old(subscribers), old(digesters), old(nomailsubs), address)
      ensures ok <==> address[0] != '.' && address[0] != '/'
      ensures Now() == if !ok then old(Now())
                       else if typesub == SubNormal then old(Now().(subscribers := Added(subscribers, address)))
                       else if typesub == SubDigest then old(Now().(digesters := Added(digesters, address)))
                       else old(Now().(nomailsubs := Added(nomailsubs, address)))
      ensures Places(address) ==
                var p := old(Places(address));
                if !ok then p
                else if typesub == SubNormal then (true, p.1, p.2)
                else if typesub == SubDigest then (p.0, true, p.2)
                else (p.0, p.1, true)
    {
      hide Proper, InDir, Kept, Added;
      KeptSame(subscribers, address);
      KeptSame(digesters, address);
      KeptSame(nomailsubs, address);
      if address[0] == '.' || address[0] == '/' {
        return false;   // would open a directory
      }
      if typesub == SubDigest {
        AddedKept(digesters, address);
        digesters := AppendLine(digesters, address);
      } else if typesub == SubNomail {
        AddedKept(nomailsubs, address);
        nomailsubs := AppendLine(nomailsubs, address);
      } else {
        AddedKept(subscribers, address);
        subscribers := AppendLine(subscribers, address);
      }
      ok := true;
    }

    static method AppendLine(d: Dir, address: Address) returns (d': Dir)
      requires address != ""
      ensures d' == Added(d, address)
    {
      var chstr := [address[0]];
      d' := d[chstr := Get(d, chstr) + (address + "\n")];
    }

    /** main of mlmmj-unsub: out of one version, or of all; an address that is not there stays out. */
    method Unsub(address: Address, typesub: SubType)
      requires Valid() && typesub in {SubNormal, SubDigest, SubNomail, SubAll}
      modifies this
      ensures Valid() && KeptSince(old(subscribers), old(digesters), old(nomailsubs), LowerAll(address))
      ensures Places(LowerAll(address)) ==
                var p := old(Places(LowerAll(address)));
                if typesub == SubNormal then (false, p.1, p.2)
                else if typesub == SubDigest then (p.0, false, p.2)
                else if typesub == SubNomail then (p.0, p.1, false)
                else (false, false, false)
      ensures Now() == Unsubscribed(old(Now()), address, typesub)
    {
      hide Proper, InDir, Kept, Removed;
      var a := LowerAll(address);
      KeptSame(subscribers, a);
      KeptSame(digesters, a);
      KeptSame(nomailsubs, a);
      RemovedKept(subscribers, a);
      RemovedKept(digesters, a);
      RemovedKept(nomailsubs, a);
      var subbed;
      if typesub == SubAll {
        var version := IsSubbed(a, false);
        subbed := version != SubNone;
      } else {
        subbed := IsSubbedIn(if typesub == SubDigest then digesters else if typesub == SubNomail then nomailsubs
                             else subscribers, a);
      }
      if !subbed {
        NothingToRemove(a, typesub);
        return;
      }
      if typesub == SubNormal || typesub == SubAll {
        subscribers := UnsubscribeType(subscribers, a);
      }
      if typesub == SubDigest || typesub == SubAll {
        digesters := UnsubscribeType(digesters, a);
      }
      if typesub == SubNomail || typesub == SubAll {
        nomailsubs := UnsubscribeType(nomailsubs, a);
      }
    }

    lemma NothingToRemove(a: Address, typesub: SubType)
      requires typesub == SubAll ==> VersionOf(a) == SubNone
      requires typesub == SubNormal ==> !InDir(subscribers, a)
      requires typesub == SubDigest ==> !InDir(digesters, a)
      requires typesub == SubNomail ==> !InDir(nomailsubs, a)
      ensures typesub in {SubNormal, SubAll} ==> Removed(subscribers, a) == subscribers
      ensures typesub in {SubDigest, SubAll} ==> Removed(digesters, a) == digesters
      ensures typesub in {SubNomail, SubAll} ==> Removed(nomailsubs, a) == nomailsubs
    {
      hide InDir, Removed;
      if !InDir(subscribers, a) { RemovedNothing(subscribers, a); }
      if !InDir(digesters, a) { RemovedNothing(digesters, a); }
      if !InDir(nomailsubs, a) { RemovedNothing(nomailsubs, a); }
    }

    /**
     * main of mlmmj-sub for a request that is neither moderated nor to be confirmed: switch the address to
     * the wanted version, first leaving the present one where the new one does not include it. The switch
     * fails only for an address in all three versions that wants the normal one.
     */
    method Subscribe(address: Address, typesub: SubType, listaddr: Address) returns (outcome: Outcome)
      requires Valid() && typesub in {SubNormal, SubDigest, SubNomail, SubBoth}
      requires '\n' !in address
      modifies this
      ensures Valid() && KeptSince(old(subscribers), old(digesters), old(nomailsubs), LowerAll(address))
      ensures old(Consistent(LowerAll(address))) ==> Consistent(LowerAll(address))
      ensures old(NoDuplicate(LowerAll(address))) ==> NoDuplicate(LowerAll(address))
      ensures (Now(), outcome) == Switched(old(Now()), address, typesub, listaddr)
      ensures outcome == Refused <==>
                '@' !in address || (|listaddr| <= |address| && OtherCase(listaddr, address[..|listaddr|]))
      ensures outcome == Refused ==> Now() == old(Now())
      ensures outcome == Failed <==>
                && outcome != Refused && LowerAll(address)[0] in "./"
                && AsksForLine(old(VersionOf(LowerAll(address))), typesub)
      ensures outcome == Completed ==>
                (VersionOf(LowerAll(address)) == typesub
                 <==> !(old(Places(LowerAll(address))) == (true, true, true) && typesub == SubNormal))
      ensures outcome == Completed && old(Consistent(LowerAll(address))) ==>
                Places(LowerAll(address)) ==
                (typesub in {SubNormal, SubBoth}, typesub in {SubDigest, SubBoth}, typesub == SubNomail)
    {
      hide Proper, InDir, Kept, OneFile, IsPrefixOf, OtherCase, AsksForLine, Exchanged, Version;
      var a := LowerAll(address);
      KeptSame(subscribers, a);
      KeptSame(digesters, a);
      KeptSame(nomailsubs, a);
      PrefixInAnyCase(listaddr, address);
      if '@' !in address || IsPrefixOf(listaddr, a) {
        return Refused;
      }
      LowerOneLine(address);
      LowerTwice(address);
      var ok := Exchange(a, typesub);
      outcome := if ok then Completed else Failed;
    }

    /** The switch itself. */
    method Exchange(a: Address, typesub: SubType) returns (ok: bool)
      requires Valid() && typesub in {SubNormal, SubDigest, SubNomail, SubBoth}
      requires LowerAll(a) == a && '\n' !in a && a != ""
      modifies this
      ensures Valid() && KeptSince(old(subscribers), old(digesters), old(nomailsubs), a)
      ensures old(Consistent(a)) ==> Consistent(a)
      ensures old(NoDuplicate(a)) ==> NoDuplicate(a)
      ensures Now() == Exchanged(old(Now()), a, typesub)
      ensures !ok <==> a[0] in "./" && AsksForLine(old(VersionOf(a)), typesub)
      ensures ok ==>
                (VersionOf(a) == typesub <==> !(old(Places(a)) == (true, true, true) && typesub == SubNormal))
      ensures ok && old(Consistent(a)) ==>
                Places(a) == (typesub in {SubNormal, SubBoth}, typesub in {SubDigest, SubBoth}, typesub == SubNomail)
    {
      hide Proper, InDir, Kept, OneFile, Vacated, Joined;
      ghost var s0, d0, n0 := subscribers, digesters, nomailsubs;
      var subbed := IsSubbed(a, true);
      if subbed == typesub {
        KeptSame(subscribers, a);
        KeptSame(digesters, a);
        KeptSame(nomailsubs, a);
        return true;
      }
      Leave(a, subbed, typesub);
      ghost var s1, d1, n1 := subscribers, digesters, nomailsubs;
      ok := AddVersions(a, subbed, typesub);
      KeptTwice(s0, s1, subscribers, a);
      KeptTwice(d0, d1, digesters, a);
      KeptTwice(n0, n1, nomailsubs, a);
      KeptNoDuplicate(s0, subscribers, a);
      KeptNoDuplicate(d0, digesters, a);
      KeptNoDuplicate(n0, nomailsubs, a);
    }

    /** Leaving the present version, unless the new one includes it. */
    method Leave(a: Address, subbed: SubType, typesub: SubType)
      requires Valid() && LowerAll(a) == a && subbed == VersionOf(a) != typesub
      requires typesub in {SubNormal, SubDigest, SubNomail, SubBoth}
      modifies this
      ensures Valid() && KeptSince(old(subscribers), old(digesters), old(nomailsubs), a)
      ensures Places(a) ==
                var p := old(Places(a));
                if subbed == SubNone || (typesub == SubBoth && subbed != SubNomail) then p
                else if subbed == SubBoth && typesub == SubNormal then (true, false, p.2)
                else if subbed == SubBoth && typesub == SubDigest then (false, true, p.2)
                else (false, false, false)
      ensures Now() == Vacated(old(Now()), a, subbed, typesub)
    {
      hide Proper, InDir, Kept, Removed;
      KeptSame(subscribers, a);
      KeptSame(digesters, a);
      KeptSame(nomailsubs, a);
      if subbed != SubNone && !(typesub == SubBoth && subbed != SubNomail) {
        var flag := SubAll;
        if subbed == SubBoth {
          if typesub == SubNormal { flag := SubDigest; }
          if typesub == SubDigest { flag := SubNormal; }
        }
        Unsub(a, flag);
      }
    }

    /** The second half of the run: subscribe to what is missing. */
    method AddVersions(a: Address, subbed: SubType, typesub: SubType) returns (ok: bool)
      requires Valid() && a != "" && '\n' !in a && typesub in {SubNormal, SubDigest, SubNomail, SubBoth}
      requires subbed != typesub
      requires typesub == SubBoth && subbed != SubNormal ==> !InDir(subscribers, a)
      requires typesub == SubBoth && subbed != SubDigest ==> !InDir(digesters, a)
      requires typesub != SubBoth && !(subbed == SubBoth && typesub != SubNomail) ==>
                 Places(a) == (false, false, false)
      modifies this
      ensures Valid() && KeptSince(old(subscribers), old(digesters), old(nomailsubs), a)
      ensures !ok ==> (a[0] == '.' || a[0] == '/') && Places(a) == old(Places(a))
      ensures ok ==>
                (Places(a) ==
                 var p := old(Places(a));
                 if typesub == SubBoth then (p.0 || subbed != SubNormal, p.1 || subbed != SubDigest, p.2)
                 else if subbed == SubBoth && typesub != SubNomail then p
                 else (typesub == SubNormal, typesub == SubDigest, typesub == SubNomail))
      ensures !ok <==> AsksForLine(subbed, typesub) && NoFileFor(a)
      ensures Now() == if ok && AsksForLine(subbed, typesub) then Joined(old(Now()), a, subbed, typesub)
                       else old(Now())
    {
      hide Proper, InDir, Kept, Added;
      KeptSame(subscribers, a);
      KeptSame(digesters, a);
      KeptSame(nomailsubs, a);
      ok := true;
      if typesub == SubBoth {
        if subbed != SubNormal {
          ok := SubscribeType(a, SubNormal);
          if !ok { return; }
        }
        ghost var s1, d1, n1 := subscribers, digesters, nomailsubs;
        if subbed != SubDigest {
          ok := SubscribeType(a, SubDigest);
        }
        KeptSame(s1, a);
        KeptSame(d1, a);
        KeptSame(n1, a);
        KeptTwice(old(subscribers), s1, subscribers, a);
        KeptTwice(old(digesters), d1, digesters, a);
        KeptTwice(old(nomailsubs), n1, nomailsubs, a);
      } else if !(subbed == SubBoth && typesub != SubNomail) {
        ok := SubscribeType(a, typesub);
      }
    }
  }

  /** strncasecmp over the length of the list address. */
  predicate IsPrefixOf(listaddr: Address, a: Address) {
    |listaddr| <= |a| && Same(listaddr, a[..|listaddr|])
  }

  lemma PrefixInAnyCase(listaddr: Address, address: Address)
    ensures IsPrefixOf(listaddr, LowerAll(address)) <==>
              |listaddr| <= |address| && OtherCase(listaddr, address[..|listaddr|])
  {
    hide *;
    PrefixMeans(listaddr, LowerAll(address));
    if |listaddr| <= |address| {
      LowerPrefix(listaddr, address);
      SameIff(listaddr, address[..|listaddr|]);
    }
  }

  lemma PrefixMeans(listaddr: Address, a: Address)
    ensures IsPrefixOf(listaddr, a) <==> |listaddr| <= |a| && Same(listaddr, a[..|listaddr|])
  {
    hide Same;
  }

  lemma LowerPrefix(listaddr: Address, address: Address)
    requires |listaddr| <= |address|
    ensures Same(listaddr, LowerAll(address)[..|listaddr|]) <==> Same(listaddr, address[..|listaddr|])
  {
    LowerTwiceAt(address);
    hide Lower, LowerAll;
  }

  lemma LowerTwiceAt(a: Address)
    ensures forall i :: 0 <= i < |a| ==> Lower(LowerAll(a)[i]) == Lower(a[i])
  {
  }

  lemma LowerOneLine(a: Address)
    requires '\n' !in a && '@' in a
    ensures '\n' !in LowerAll(a) && LowerAll(a) != ""
  {
    forall i | 0 <= i < |a| ensures LowerAll(a)[i] != '\n' {
      assert a[i] in a;
    }
  }

  lemma LowerTwice(a: Address)
    ensures LowerAll(LowerAll(a)) == LowerAll(a)
  {
  }

  /** A directory has kept what is about other addresses, its form, and the address in one file at most. */
  ghost predicate Kept(d: Dir, d': Dir, a: Address) {
    SameOthers(d, d', a) && (Proper(d) ==> Proper(d')) && (OneFile(d, a) ==> OneFile(d', a))
  }

  lemma KeptSame(d: Dir, a: Address)
    ensures Kept(d, d, a)
  {
  }

  lemma KeptNoDuplicate(d: Dir, d': Dir, a: Address)
    requires Kept(d, d', a)
    ensures OneFile(d, a) ==> OneFile(d', a)
  {
  }

  lemma KeptTwice(d: Dir, d1: Dir, d2: Dir, a: Address)
    requires Kept(d, d1, a) && Kept(d1, d2, a)
    ensures Kept(d, d2, a)
  {
    hide Others, Lines, Get;
  }

  lemma AddedKept(d: Dir, a: Address)
    requires Proper(d) && !InDir(d, a) && a != "" && '\n' !in a
    ensures Kept(d, Added(d, a), a) && InDir(Added(d, a), a) && Proper(Added(d, a))
  {
    AddedKeeps(d, a);
  }

  lemma RemovedKept(d: Dir, a: Address)
    requires Proper(d)
    ensures Kept(d, Removed(d, a), a) && !InDir(Removed(d, a), a) && Proper(Removed(d, a))
    ensures forall f :: f in d ==> f + ".new" !in d
  {
    RemovedKeeps(d, a);
    hide Removed, Listed, Others, Lines, DupFree, EndsInNewline;
    forall f | f in d ensures f + ".new" !in d {
      assert IsTemporary(f + ".new");
    }
  }
}
