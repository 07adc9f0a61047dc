/** What skin in src/find_email_adr.c keeps: lists of addresses, quoted strings, and the spoken forms of '@'. */
module SkinLists {
  import opened Skin
  import Seqs

  // ---------------------------------------------------------------- several addresses

  /** What can follow a bracketed address: words, quoted strings of anything, and comments. */
  datatype Part = Words(text: string) | Quote(text: string) | Comment(text: string)

  predicate PartOk(p: Part) {
    p.Quote? || NoSpecials(p.text)
  }

  function Written(p: Part): string {
    match p
    case Words(text) => text
    case Quote(text) => "\"" + (Escaped(text) + "\"")
    case Comment(text) => "(" + (text + ")")
  }

  function WrittenAll(ps: seq<Part>): string {
    if ps == [] then "" else Written(ps[0]) + WrittenAll(ps[1..])
  }

  /** An address by itself, or in brackets behind a phrase, with what follows it. */
  datatype Entry = Bare(address: string) | Bracketed(phrase: string, address: string, trailer: seq<Part>)

  predicate EntryOk(e: Entry) {
    && NoSpecials(e.address) && ' ' !in e.address && e.address != ""
    && (e.Bracketed? ==> NoSpecials(e.phrase) && !(" " <= e.phrase) && AllPartsOk(e.trailer))
  }

  predicate AllPartsOk(ps: seq<Part>) {
    forall i :: 0 <= i < |ps| ==> PartOk(ps[i])
  }

  function Spelled(e: Entry): string {
    match e
    case Bare(address) => address
    case Bracketed(phrase, address, trailer) => phrase + "<" + address + ">" + WrittenAll(trailer)
  }

  /** The entries with commas between them. */
  function Listed(es: seq<Entry>): string {
    if es == [] then "" else if |es| == 1 then Spelled(es[0]) else Spelled(es[0]) + ", " + Listed(es[1..])
  }

  function Addresses(es: seq<Entry>): string {
    if es == [] then "" else if |es| == 1 then es[0].address else es[0].address + ", " + Addresses(es[1..])
  }

  /** Behind a comma, with everything written so far to be kept. */
  function Fresh(out: string): State {
    State(out, |out|, false, false)
  }

  /** Each address of a list is kept, in its place, with or without phrases. */
  lemma ListKept(es: seq<Entry>)
    requires forall i :: 0 <= i < |es| ==> EntryOk(es[i])
    ensures Skinned(Listed(es)) == Addresses(es)
  {
    if es == [] {
    } else {
      EntriesKept("", es);
      Seqs.Unit(Addresses(es));
      if '(' !in Listed(es) && '<' !in Listed(es) && ' ' !in Listed(es) {
        OnlyBare(es);
      }
    }
  }

  lemma OnlyBare(es: seq<Entry>)
    requires es != [] && '<' !in Listed(es) && ' ' !in Listed(es)
    ensures Listed(es) == Addresses(es)
  {
    if |es| > 1 {
      BlankBehindComma(es);
    } else if es[0].Bracketed? {
      BracketShows(es[0]);
    }
  }

  lemma BlankBehindComma(es: seq<Entry>)
    requires |es| > 1
    ensures ' ' in Listed(es)
  {
    assert Listed(es)[|Spelled(es[0])| + 1] == ' ';
  }

  lemma BracketShows(e: Entry)
    requires e.Bracketed?
    ensures '<' in Spelled(e)
  {
    assert Spelled(e)[|e.phrase|] == '<';
  }

  lemma {:induction false} EntriesKept(out: string, es: seq<Entry>)
    requires es != [] && forall i :: 0 <= i < |es| ==> EntryOk(es[i])
    ensures SkinFrom(Fresh(out), Listed(es)) == out + Addresses(es)
    decreases |es|
  {
    var e := es[0];
    if |es| == 1 {
      assert EntryOk(e);
      hide *;
      var st := EntryKept(out, e, "");
      Seqs.Unit(Spelled(e));
      Ends(st);
      OneEntry(es);
    } else {
      var out' := out + e.address + ", ";
      EntriesKept(out', es[1..]);
      FirstLetter(es[1..]);
      hide *;
      var tail := ", " + Listed(es[1..]);
      assert EntryOk(es[0]);
      var st := EntryKept(out, e, tail);
      CommaKept(st, Listed(es[1..]));
      MoreEntries(es);
      Seqs.Assoc(Spelled(e), ", ", Listed(es[1..]));
      Seqs.Assoc(out + e.address, ", ", Addresses(es[1..]));
      Seqs.Assoc(out, e.address, ", ");
      Seqs.Assoc(out, e.address + ", ", Addresses(es[1..]));
    }
  }

  lemma Ends(st: State)
    requires Sane(st)
    ensures SkinFrom(st, "") == st.out
  {
  }

  lemma OneEntry(es: seq<Entry>)
    requires |es| == 1
    ensures Listed(es) == Spelled(es[0]) && Addresses(es) == es[0].address
  {
  }

  lemma MoreEntries(es: seq<Entry>)
    requires |es| > 1
    ensures Listed(es) == Spelled(es[0]) + ", " + Listed(es[1..])
    ensures Addresses(es) == es[0].address + ", " + Addresses(es[1..])
  {
  }

  /** No list begins with a blank. */
  lemma FirstLetter(es: seq<Entry>)
    requires es != [] && forall i :: 0 <= i < |es| ==> EntryOk(es[i])
    ensures Listed(es) != "" && Listed(es)[0] != ' '
  {
    assert EntryOk(es[0]);
    var s := Spelled(es[0]);
    assert s != "" && s[0] != ' ';
    assert Listed(es)[0] == s[0];
  }

  /** One entry, with the end or a comma behind it. */
  lemma EntryKept(out: string, e: Entry, tail: string) returns (st: State)
    requires EntryOk(e) && (tail != "" ==> tail[0] == ',')
    ensures Sane(st) && !st.gotlt && !st.lastsp && st.out == out + e.address
    ensures SkinFrom(Fresh(out), Spelled(e) + tail) == SkinFrom(st, tail)
  {
    hide SkinFrom, NoSpecials;
    match e {
      case Bare(address) =>
        AddressCopied(Fresh(out), address, tail);
        st := Fresh(out).(out := out + address);
      case Bracketed(phrase, address, trailer) =>
        var closing := ">" + (WrittenAll(trailer) + tail);
        var bracketed := "<" + (address + closing);
        assert Spelled(e) + tail == phrase + bracketed;
        var st1 := PhrasePassed(Fresh(out), phrase, bracketed);
        var inside := State(out, |out|, true, false);
        BracketOpens(st1, address + closing, out);
        AddressCopied(inside, address, closing);
        st := BracketCloses(inside.(out := out + address), trailer, tail);
    }
  }

  lemma BracketOpens(st: State, rest: string, out: string)
    requires Sane(st) && st.keep == |out| && out <= st.out
    ensures SkinFrom(st, "<" + rest) == SkinFrom(State(out, |out|, true, false), rest)
  {
    assert ("<" + rest)[1..] == rest;
    assert st.out[..|out|] == out;
  }

  lemma BracketCloses(st: State, trailer: seq<Part>, tail: string) returns (st': State)
    requires Sane(st) && st.gotlt && AllPartsOk(trailer) && (tail != "" ==> tail[0] == ',')
    ensures st' == State(st.out, st.keep, false, false)
    ensures SkinFrom(st, ">" + (WrittenAll(trailer) + tail)) == SkinFrom(st', tail)
  {
    st' := State(st.out, st.keep, false, false);
    hide *;
    TrailerPassed(trailer, tail);
    var text := WrittenAll(trailer);
    var s := ">" + (text + tail);
    BehindBoth(">", text, tail);
    ClosingTaken(st, s);
    TakeNext(st, s);
  }

  lemma BehindBoth(a: string, b: string, c: string)
    ensures var s := a + (b + c); s[|a|..] == b + c && s[|a| + |b|..] == c
    ensures a != "" ==> (a + (b + c))[0] == a[0]
  {
  }

  lemma ClosingTaken(st: State, s: string)
    requires Sane(st) && st.gotlt && s != "" && s[0] == '>'
    ensures Take(st, s) == (State(st.out, st.keep, false, false), 1 + TrailerLen(s[1..]))
  {
    hide TrailerLen, Plain, Quoted, CommentLen;
  }

  /** Not even a comma within quotes or parentheses ends it. */
  lemma {:induction false} TrailerPassed(trailer: seq<Part>, tail: string)
    requires AllPartsOk(trailer) && (tail != "" ==> tail[0] == ',')
    ensures TrailerLen(WrittenAll(trailer) + tail) == |WrittenAll(trailer)|
  {
    if trailer == [] {
      Seqs.Unit(tail);
    } else {
      var p, rest := trailer[0], WrittenAll(trailer[1..]);
      TrailerPassed(trailer[1..], tail);
      assert PartOk(p);
      hide *;
      PartPassed(p, rest + tail);
      FirstWritten(trailer);
      Seqs.Assoc(Written(p), rest, tail);
    }
  }

  lemma FirstWritten(ps: seq<Part>)
    requires ps != []
    ensures WrittenAll(ps) == Written(ps[0]) + WrittenAll(ps[1..])
  {
  }

  lemma PartPassed(p: Part, rest: string)
    requires PartOk(p)
    ensures TrailerLen(Written(p) + rest) == |Written(p)| + TrailerLen(rest)
  {
    match p {
      case Words(text) => WordsPassed(text, rest);
      case Quote(text) =>
        QuotePassed(text, rest);
        OnePiece(Written(p), rest);
      case Comment(text) =>
        CommentPassed(text, rest);
        OnePiece(Written(p), rest);
    }
  }

  lemma OnePiece(piece: string, rest: string)
    requires piece != "" && piece[0] != ',' && Piece(piece + rest) == |piece|
    ensures TrailerLen(piece + rest) == |piece| + TrailerLen(rest)
  {
    hide Piece;
    assert (piece + rest)[|piece|..] == rest;
  }

  lemma {:induction false} WordsPassed(words: string, rest: string)
    requires NoSpecials(words)
    ensures TrailerLen(words + rest) == |words| + TrailerLen(rest)
  {
    if words == "" {
      Seqs.Unit(rest);
    } else {
      var s := words + rest;
      assert s[0] == words[0] && s[1..] == words[1..] + rest && words[0] !in "(),<>\"\\";
      WordsPassed(words[1..], rest);
    }
  }

  lemma QuotePassed(text: string, rest: string)
    ensures Piece("\"" + (Escaped(text) + "\"") + rest) == |Escaped(text)| + 2
  {
    var s := "\"" + (Escaped(text) + "\"") + rest;
    assert s[1..] == Escaped(text) + ("\"" + rest);
    QuotedRead(text, rest);
  }

  lemma {:induction false} QuotedRead(text: string, rest: string)
    ensures QuotedLen(Escaped(text) + ("\"" + rest)) == |Escaped(text)| + 1
  {
    if text != "" {
      var s := Escaped(text) + ("\"" + rest);
      assert s[0] == '\\' && s[2..] == Escaped(text[1..]) + ("\"" + rest);
      QuotedRead(text[1..], rest);
    }
  }

  lemma CommentPassed(text: string, rest: string)
    requires NoSpecials(text)
    ensures Piece("(" + (text + ")") + rest) == |text| + 2
  {
    var s := "(" + (text + ")") + rest;
    assert s[1..] == text + (")" + rest);
    CommentRead(text, rest);
  }

  lemma {:induction false} CommentRead(text: string, rest: string)
    requires NoSpecials(text)
    ensures CommentLen(text + (")" + rest), 1) == |text| + 1
  {
    var s := text + (")" + rest);
    if text != "" {
      assert s[0] == text[0] && s[1..] == text[1..] + (")" + rest) && text[0] !in "(),<>\"\\";
      CommentRead(text[1..], rest);
    }
  }

  lemma CommaKept(st: State, rest: string)
    requires Sane(st) && !st.gotlt && !st.lastsp && rest != "" && rest[0] != ' '
    ensures SkinFrom(st, ", " + rest) == SkinFrom(Fresh(st.out + ", "), rest)
  {
    var s := ", " + rest;
    Seqs.Ends(",", " ", rest);
    assert s[1..] == " " + rest && s[2..] == rest;
    CommaTaken(st, rest, s);
    hide *;
    TakeNext(st, s);
  }

  lemma CommaTaken(st: State, rest: string, s: string)
    requires Sane(st) && !st.gotlt && !st.lastsp && rest != "" && rest[0] != ' '
    requires |s| > 1 && s[0] == ',' && s[1..] == " " + rest
    ensures Take(st, s) == (Fresh(st.out + ", "), 2)
  {
    assert (" " + rest)[1..] == rest;
    assert BlanksLen(s[1..]) == 1;
    assert st.out + "," + " " == st.out + ", ";
  }

  lemma TakeNext(st: State, s: string)
    requires Sane(st) && s != ""
    ensures SkinFrom(st, s) == SkinFrom(Take(st, s).0, s[Take(st, s).1..])
  {
    hide Take;
  }

  // ---------------------------------------------------------------- quotes

  /** Any text as a quoted string, each character behind a backslash. */
  function Escaped(text: string): string {
    if text == "" then "" else "\\" + [text[0]] + Escaped(text[1..])
  }

  /** A quoted string stands for its text, whatever is in it. */
  lemma {:induction false} QuotedText(text: string, rest: string)
    ensures Quoted(Escaped(text) + ("\"" + rest)) == (text, |Escaped(text)| + 1)
  {
    var s := Escaped(text) + ("\"" + rest);
    if text != "" {
      QuotedText(text[1..], rest);
      assert s[0] == '\\' && s[1] == text[0] && s[2..] == Escaped(text[1..]) + ("\"" + rest);
      assert [text[0]] + text[1..] == text;
    }
  }

  /** In an address too; only the quotes and backslashes go. */
  lemma QuotesDropped(text: string, host: string)
    requires ' ' in text && NoSpecials(host) && ' ' !in host
    ensures Skinned("\"" + (Escaped(text) + ("\"" + host))) == text + host
  {
    var inner := Escaped(text) + ("\"" + host);
    var s := "\"" + inner;
    QuotedText(text, host);
    BlankStays(text);
    assert ' ' in inner && ' ' in s;
    assert s[1..] == inner && inner[|Escaped(text)| + 1..] == host && s[|Escaped(text)| + 2..] == host;
    var st := State(text, 0, false, false);
    assert "" + text == text;
    assert Take(START, s) == (st, |Escaped(text)| + 2);
    hide Take, Quoted, Escaped, NoSpecials;
    AddressCopied(st, host, "");
    Seqs.Unit(host);
    Ends(st.(out := text + host));
  }

  lemma {:induction false} BlankStays(text: string)
    requires ' ' in text
    ensures ' ' in Escaped(text)
  {
    if text[0] != ' ' {
      assert ' ' in text[1..];
      BlankStays(text[1..]);
    }
  }

  // ---------------------------------------------------------------- the spoken form

  /** " at " and " @ " between the parts of an address stand for its '@'. */
  lemma SpokenAt(local: string, host: string)
    requires NoSpecials(local) && ' ' !in local && NoSpecials(host) && ' ' !in host
    ensures Skinned(local + (" at " + host)) == local + "@" + host
    ensures Skinned(local + (" @ " + host)) == local + "@" + host
  {
    hide SkinFrom, NoSpecials;
    var st := START.(out := local);
    Seqs.Unit(local);
    assert (local + (" at " + host))[|local|] == ' ' && (local + (" @ " + host))[|local|] == ' ';
    AddressCopied(START, local, " at " + host);
    AddressCopied(START, local, " @ " + host);
    AtTaken(st, host);
    AddressCopied(st.(out := local + "@"), host, "");
    Seqs.Unit(host);
    Ends(st.(out := local + "@" + host));
  }

  lemma AtTaken(st: State, host: string)
    requires Sane(st)
    ensures SkinFrom(st, " at " + host) == SkinFrom(st.(out := st.out + "@"), host)
    ensures SkinFrom(st, " @ " + host) == SkinFrom(st.(out := st.out + "@"), host)
  {
    var s, t := " at " + host, " @ " + host;
    assert s[1..] == "at " + host && s[4..] == host;
    assert t[1..] == "@ " + host && t[3..] == host;
    AtRead(st, s, t, host);
    hide *;
    TakeNext(st, s);
    TakeNext(st, t);
  }

  lemma AtRead(st: State, s: string, t: string, host: string)
    requires Sane(st) && s != "" && s[0] == ' ' && s[1..] == "at " + host
    requires t != "" && t[0] == ' ' && t[1..] == "@ " + host
    ensures Take(st, s) == (st.(out := st.out + "@"), 4) && Take(st, t) == (st.(out := st.out + "@"), 3)
  {
    hide Quoted, CommentLen, Plain, TrailerLen;
    assert "at " <= "at " + host && "@ " <= "@ " + host;
    assert ("@ " + host)[0] != "at "[0];
  }
}
