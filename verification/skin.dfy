/**
 * The address of a header field, skin in src/find_email_adr.c: comments, quotes and the phrase in front of
 * a bracketed address are taken away (section 6.1 of RFC 822).
 */
module Skin {
  import Seqs

  /** How much skip_comment passes over, being `nesting` comments deep. */
  function CommentLen(s: string, nesting: nat): (n: nat)
    ensures n <= |s|
    decreases |s|
  {
    if nesting == 0 || s == "" then 0
    else if s[0] == '\\' then
      if |s| > 1 then 2 + CommentLen(s[2..], nesting) else 1
    else if s[0] == '(' then 1 + CommentLen(s[1..], nesting + 1)
    else if s[0] == ')' then 1 + CommentLen(s[1..], nesting - 1)
    else 1 + CommentLen(s[1..], nesting)
  }

  /** The text of a quoted string up to its closing quote or the end, and how much is read for it. */
  function Quoted(s: string): (r: (string, nat))
    ensures |r.0| <= r.1 <= |s|
    decreases |s|
  {
    if s == "" then ("", 0)
    else if s[0] == '"' then ("", 1)
    else if s[0] != '\\' then
      var (text, n) := Quoted(s[1..]);
      ([s[0]] + text, n + 1)
    else if |s| > 1 then
      var (text, n) := Quoted(s[2..]);
      ([s[1]] + text, n + 2)
    else ("", 1)
  }

  /** The rest of a quoted string behind the address, which is not kept. */
  function QuotedLen(s: string): (n: nat)
    ensures n <= |s|
    decreases |s|
  {
    if s == "" then 0
    else if s[0] == '"' then 1
    else if s[0] == '\\' && |s| > 1 then 2 + QuotedLen(s[2..])
    else 1 + QuotedLen(s[1..])
  }

  /** A comment, a quoted string or a single character. */
  function Piece(s: string): (n: nat)
    requires s != ""
    ensures 1 <= n <= |s|
  {
    1 + if s[0] == '(' then CommentLen(s[1..], 1) else if s[0] == '"' then QuotedLen(s[1..]) else 0
  }

  /** What is skipped behind a bracketed address: up to a comma outside comments and quotes. */
  function TrailerLen(s: string): (n: nat)
    ensures n <= |s|
    decreases |s|
  {
    if s == "" || s[0] == ',' then 0 else Piece(s) + TrailerLen(s[Piece(s)..])
  }

  function BlanksLen(s: string): (n: nat)
    ensures n <= |s|
  {
    if s != "" && s[0] == ' ' then 1 + BlanksLen(s[1..]) else 0
  }

  /** out is what has been written, keep how much of it is from before the last comma. */
  datatype State = State(out: string, keep: nat, gotlt: bool, lastsp: bool)

  predicate Sane(st: State) {
    st.keep <= |st.out|
  }

  const START := State("", 0, false, false)

  function Plain(st: State, s: string): (State, nat)
    requires s != ""
  {
    var out := (if st.lastsp then st.out + " " else st.out) + [s[0]];
    if s[0] == ',' && |s| > 1 && s[1] == ' ' && !st.gotlt then
      (State(out + " ", |out| + 1, st.gotlt, false), 1 + BlanksLen(s[1..]))
    else (State(out, st.keep, st.gotlt, false), 1)
  }

  /** One round of the loop: the new state, and how much is read. */
  function Take(st: State, s: string): (r: (State, nat))
    requires s != "" && Sane(st)
    ensures Sane(r.0) && 1 <= r.1 <= |s|
  {
    var rest := s[1..];
    if s[0] == '(' then (st.(lastsp := false), 1 + CommentLen(rest, 1))
    else if s[0] == '"' then
      var (text, n) := Quoted(rest);
      (st.(out := st.out + text, lastsp := false), 1 + n)
    else if s[0] == ' ' then
      if "at " <= rest then (st.(out := st.out + "@"), 4)
      else if "@ " <= rest then (st.(out := st.out + "@"), 3)
      else (st.(lastsp := true), 1)
    else if s[0] == '<' then (State(st.out[..st.keep], st.keep, true, false), 1)
    else if s[0] == '>' && st.gotlt then (State(st.out, st.keep, false, false), 1 + TrailerLen(rest))
    else Plain(st, s)
  }

  function SkinFrom(st: State, s: string): string
    requires Sane(st)
    decreases |s|
  {
    if s == "" then st.out
    else
      var (st', n) := Take(st, s);
      SkinFrom(st', s[n..])
  }

  /** skin. */
  function Skinned(name: string): string {
    if '(' !in name && '<' !in name && ' ' !in name then name else SkinFrom(START, name)
  }

  // ---------------------------------------------------------------- room in the buffer

  /** What is written, with the blank still to be written. */
  function Size(st: State): nat {
    |st.out| + if st.lastsp then 1 else 0
  }

  /** No round writes more than it reads, the blank it puts off included. */
  lemma TakeBounded(st: State, s: string)
    requires s != "" && Sane(st)
    ensures var (st', n) := Take(st, s); Size(st') <= Size(st) + n
  {
    if s[0] == ',' && |s| > 1 && s[1] == ' ' {
      assert BlanksLen(s[1..]) >= 1;
    }
  }

  /** So the result is never longer than the input, whose size the buffer has. */
  lemma {:induction false} SkinBounded(st: State, s: string)
    requires Sane(st)
    ensures |SkinFrom(st, s)| <= Size(st) + |s|
    decreases |s|
  {
    if s != "" {
      var (st', n) := Take(st, s);
      TakeBounded(st, s);
      SkinBounded(st', s[n..]);
    }
  }

  lemma {:induction false} SkinnedNotLonger(name: string)
    ensures |Skinned(name)| <= |name|
  {
    SkinBounded(START, name);
  }

  // ---------------------------------------------------------------- what is taken out

  /** Free of what has a meaning of its own. */
  predicate NoSpecials(s: string) {
    forall i :: 0 <= i < |s| ==> s[i] !in "(),<>\"\\"
  }

  /** Reading a phrase gets to its end, wherever the blanks in it are, and keeps nothing for good. */
  lemma {:induction false} PhrasePassed(st: State, phrase: string, tail: string) returns (st': State)
    requires Sane(st) && NoSpecials(phrase) && tail != "" && tail[0] == '<'
    ensures Sane(st') && st'.keep == st.keep && st.out <= st'.out && SkinFrom(st, phrase + tail) == SkinFrom(st', tail)
    decreases |phrase|
  {
    if phrase == "" {
      Seqs.Unit(tail);
      st' := st;
    } else {
      var s := phrase + tail;
      var (st1, n) := Take(st, s);
      PhraseStep(st, phrase, tail);
      assert s[n..] == phrase[n..] + tail;
      st' := PhrasePassed(st1, phrase[n..], tail);
    }
  }

  /** Not even " at " and " @ " reach over the bracket. */
  lemma PhraseStep(st: State, phrase: string, tail: string)
    requires Sane(st) && NoSpecials(phrase) && phrase != "" && tail != "" && tail[0] == '<'
    ensures var (st', n) := Take(st, phrase + tail); n <= |phrase| && st'.keep == st.keep && st.out <= st'.out
  {
    var s := phrase + tail;
    var rest := s[1..];
    assert s[0] == phrase[0] && s[|phrase|] == '<';
    assert phrase[0] !in "(),<>\"\\";
    if s[0] == ' ' {
      if "at " <= rest {
        assert s[1] == "at "[0] && s[2] == "at "[1] && s[3] == "at "[2];
      } else if "@ " <= rest {
        assert s[1] == "@ "[0] && s[2] == "@ "[1];
      }
    }
  }

  /** An address is copied as it stands. */
  lemma {:induction false} AddressCopied(st: State, address: string, tail: string)
    requires Sane(st) && NoSpecials(address) && ' ' !in address && !st.lastsp
    ensures var st' := st.(out := st.out + address);
            SkinFrom(st, address + tail) == SkinFrom(st', tail)
    decreases |address|
  {
    if address == "" {
      Seqs.Unit(tail);
      Seqs.Unit(st.out);
    } else {
      var s := address + tail;
      assert s[0] == address[0] && address[0] !in "(),<>\"\\" && s[0] != ' ';
      assert s[1..] == address[1..] + tail;
      var st1 := st.(out := st.out + [address[0]]);
      assert Take(st, s) == (st1, 1);
      AddressCopied(st1, address[1..], tail);
      Seqs.Assoc(st.out, [address[0]], address[1..]);
      assert [address[0]] + address[1..] == address;
    }
  }

  /** Of a phrase and a bracketed address, the address is left. */
  lemma PhraseDropped(phrase: string, address: string)
    requires NoSpecials(phrase) && NoSpecials(address) && ' ' !in address
    ensures Skinned(phrase + ("<" + (address + ">"))) == address
  {
    hide SkinFrom, Take, NoSpecials;
    var tail := "<" + (address + ">");
    assert (phrase + tail)[|phrase|] == '<';
    var st := PhrasePassed(START, phrase, tail);
    var inside := State("", 0, true, false);
    Opened(st, tail);
    assert tail[1..] == address + ">";
    AddressCopied(inside, address, ">");
    Seqs.Unit(address);
    Closed(address);
  }

  lemma Opened(st: State, s: string)
    requires st.keep == 0 && s != "" && s[0] == '<'
    ensures SkinFrom(st, s) == SkinFrom(State("", 0, true, false), s[1..])
  {
  }

  lemma Closed(address: string)
    ensures SkinFrom(State(address, 0, true, false), ">") == address
  {
    assert ">"[1..] == "";
    assert Take(State(address, 0, true, false), ">") == (State(address, 0, false, false), 1);
  }

  /** Nothing in front of the last parenthesis closes the comment; it may hold comments and escapes. */
  predicate ClosesAtEnd(comment: string) {
    CommentLen(comment + ")", 1) == |comment| + 1
  }

  /** Of an address and a comment behind it, the address is left. */
  lemma CommentDropped(address: string, comment: string)
    requires NoSpecials(address) && ' ' !in address && ClosesAtEnd(comment)
    ensures Skinned(address + (" (" + (comment + ")"))) == address
  {
    hide SkinFrom, NoSpecials, ClosesAtEnd;
    var tail := " (" + (comment + ")");
    assert (address + tail)[|address|] == ' ';
    AddressCopied(START, address, tail);
    Seqs.Unit(address);
    CommentRead(START.(out := address), comment);
  }

  /** The blank in front of a comment is put off, and the comment drops it. */
  lemma CommentRead(st: State, comment: string)
    requires Sane(st) && !st.lastsp && ClosesAtEnd(comment)
    ensures SkinFrom(st, " (" + (comment + ")")) == st.out
  {
    hide CommentLen;
    var tail, inner := " (" + (comment + ")"), "(" + (comment + ")");
    assert tail[1..] == inner && inner[1..] == comment + ")";
    assert tail[1] == '(';
    assert Take(st, tail) == (st.(lastsp := true), 1);
    assert Take(st.(lastsp := true), inner) == (st, |inner|);
    assert inner[|inner|..] == "";
    hide Take;
    assert SkinFrom(st, "") == st.out;
    assert SkinFrom(st.(lastsp := true), inner) == SkinFrom(st, "");
  }

  // ---------------------------------------------------------------- the program

  /** skip_comment. */
  method SkipComment(s: string, at: nat) returns (cp: nat)
    requires at <= |s|
    ensures cp == at + CommentLen(s[at..], 1)
  {
    var nesting: nat := 1;
    cp := at;
    while nesting > 0 && cp < |s|
      invariant at <= cp <= |s|
      invariant cp + CommentLen(s[cp..], nesting) == at + CommentLen(s[at..], 1)
      decreases |s| - cp
    {
      ghost var was := s[cp..];
      assert was[1..] == s[cp + 1..] && (cp + 2 <= |s| ==> was[2..] == s[cp + 2..]);
      match s[cp] {
        case '\\' =>
          if cp + 1 < |s| { cp := cp + 1; }
        case '(' => nesting := nesting + 1;
        case ')' => nesting := nesting - 1;
        case _ =>
      }
      cp := cp + 1;
    }
  }

  /** The loop that copies a quoted string, without its quotes and backslashes. */
  method CopyQuoted(name: string, at: nat, nbuf: array<char>, to: nat) returns (cp: nat, cp2: nat)
    requires at <= |name| && to + |Quoted(name[at..]).0| <= nbuf.Length
    modifies nbuf
    ensures cp == at + Quoted(name[at..]).1
    ensures cp2 == to + |Quoted(name[at..]).0| && nbuf[..cp2] == old(nbuf[..to]) + Quoted(name[at..]).0
  {
    cp, cp2 := at, to;
    ghost var (text, n) := Quoted(name[at..]);
    Seqs.Unit(nbuf[..to]);
    var closed := false;
    while cp < |name| && !closed
      invariant at <= cp <= |name| && to <= cp2 <= to + |text|
      invariant closed ==> cp == at + n && cp2 == to + |text| && nbuf[..cp2] == old(nbuf[..to]) + text
      invariant !closed ==> cp + Quoted(name[cp..]).1 == at + n && cp2 + |Quoted(name[cp..]).0| == to + |text|
      invariant !closed ==> nbuf[..cp2] + Quoted(name[cp..]).0 == old(nbuf[..to]) + text
      decreases |name| - cp, !closed
    {
      cp, cp2, closed := CopyOne(name, cp, nbuf, cp2);
    }
    if !closed {
      assert name[cp..] == "";
      Seqs.Unit(nbuf[..cp2]);
    }
  }

  method CopyOne(name: string, at: nat, nbuf: array<char>, to: nat) returns (cp: nat, cp2: nat, closed: bool)
    requires at < |name| && to + |Quoted(name[at..]).0| <= nbuf.Length
    modifies nbuf
    ensures at < cp <= |name| && to <= cp2
    ensures closed ==> cp == at + Quoted(name[at..]).1 && cp2 == to + |Quoted(name[at..]).0|
                       && nbuf[..cp2] == old(nbuf[..to]) + Quoted(name[at..]).0
    ensures !closed ==> cp + Quoted(name[cp..]).1 == at + Quoted(name[at..]).1
                        && cp2 + |Quoted(name[cp..]).0| == to + |Quoted(name[at..]).0|
                        && nbuf[..cp2] + Quoted(name[cp..]).0 == old(nbuf[..to]) + Quoted(name[at..]).0
  {
    ghost var s := name[at..];
    assert s[1..] == name[at + 1..] && (|s| > 1 ==> s[2..] == name[at + 2..] && s[1] == name[at + 1]);
    assert name[|name|..] == "";
    cp, cp2, closed := at + 1, to, false;
    ghost var before := nbuf[..to];
    Seqs.Unit(before);
    var c := name[at];
    if c == '"' {
      return cp, cp2, true;
    }
    if c == '\\' {
      if cp == |name| {
        return;
      }
      c := name[cp];
      cp := cp + 1;
    }
    nbuf[cp2] := c;
    cp2 := cp2 + 1;
    assert nbuf[..cp2] == before + [c];
    Seqs.Assoc(before, [c], Quoted(name[cp..]).0);
  }

  /** The quoted string in what is skipped behind the address. */
  method SkipQuoted(s: string, at: nat) returns (cp: nat)
    requires at <= |s|
    ensures cp == at + QuotedLen(s[at..])
  {
    cp := at;
    while cp < |s|
      invariant at <= cp <= |s| && cp + QuotedLen(s[cp..]) == at + QuotedLen(s[at..])
    {
      ghost var was := s[cp..];
      assert was[1..] == s[cp + 1..] && (cp + 2 <= |s| ==> was[2..] == s[cp + 2..]);
      var c := s[cp];
      cp := cp + 1;
      if c == '"' {
        return;
      }
      if c == '\\' && cp < |s| {
        cp := cp + 1;
      }
    }
  }

  /** The loop behind '>'. */
  method SkipTrailer(s: string, at: nat) returns (cp: nat)
    requires at <= |s|
    ensures cp == at + TrailerLen(s[at..])
  {
    hide TrailerLen;
    cp := at;
    while cp < |s| && s[cp] != ','
      invariant at <= cp <= |s| && cp + TrailerLen(s[cp..]) == at + TrailerLen(s[at..])
      decreases |s| - cp
    {
      hide Piece;
      ghost var n := Piece(s[cp..]);
      Seqs.Behind(s, cp, n);
      TrailerStep(s[cp..]);
      cp := SkipPiece(s, cp);
    }
    TrailerEnd(s[cp..]);
  }

  lemma TrailerStep(s: string)
    requires s != "" && s[0] != ','
    ensures TrailerLen(s) == Piece(s) + TrailerLen(s[Piece(s)..])
  {
  }

  lemma TrailerEnd(s: string)
    requires s == "" || s[0] == ','
    ensures TrailerLen(s) == 0
  {
  }

  method SkipPiece(s: string, at: nat) returns (cp: nat)
    requires at < |s|
    ensures cp == at + Piece(s[at..])
  {
    hide CommentLen, QuotedLen;
    Seqs.Behind(s, at, 1);
    var c := s[at];
    cp := at + 1;
    if c == '(' {
      cp := SkipComment(s, cp);
    } else if c == '"' {
      cp := SkipQuoted(s, cp);
    }
  }

  method SkipBlanks(s: string, at: nat) returns (cp: nat)
    requires at <= |s|
    ensures cp == at + BlanksLen(s[at..])
  {
    cp := at;
    while cp < |s| && s[cp] == ' '
      invariant at <= cp <= |s| && cp + BlanksLen(s[cp..]) == at + BlanksLen(s[at..])
    {
      assert s[cp..][1..] == s[cp + 1..];
      cp := cp + 1;
    }
  }

  /** The state of the loop, as the variables of the program hold it. */
  ghost predicate Holds(st: State, nbuf: array<char>, cp2: nat, bufend: nat, gotlt: nat, lastsp: bool)
    reads nbuf
  {
    && Sane(st) && cp2 <= nbuf.Length && nbuf[..cp2] == st.out && bufend == st.keep
    && (gotlt > 0 <==> st.gotlt) && lastsp == st.lastsp
  }

  /** skin: the address, in a buffer of the size of the input. */
  method Skin(name: string) returns (nbuf: array<char>, len: nat)
    ensures len < nbuf.Length == |name| + 1 && nbuf[len] == '\0' && nbuf[..len] == Skinned(name)
  {
    nbuf := new char[|name| + 1];
    if '(' !in name && '<' !in name && ' ' !in name {
      forall i | 0 <= i < |name| {
        nbuf[i] := name[i];
      }
      nbuf[|name|] := '\0';
      assert nbuf[..|name|] == name;
      return nbuf, |name|;
    }
    len := SkinLoop(name, nbuf);
  }

  method SkinLoop(name: string, nbuf: array<char>) returns (len: nat)
    requires nbuf.Length == |name| + 1
    modifies nbuf
    ensures len <= |name| && nbuf[len] == '\0' && nbuf[..len] == SkinFrom(START, name)
  {
    hide Take;
    var gotlt: nat, lastsp: bool, bufend: nat := 0, false, 0;
    var cp: nat, cp2: nat := 0, 0;
    ghost var st := START;
    assert name[0..] == name && nbuf[..0] == "";
    while cp < |name|
      invariant cp <= |name| && Sane(st) && Holds(st, nbuf, cp2, bufend, gotlt, lastsp)
      invariant Size(st) <= cp && SkinFrom(START, name) == SkinFrom(st, name[cp..])
      decreases |name| - cp
    {
      hide Holds, Size;
      ghost var s := name[cp..];
      ghost var (st', n) := Take(st, s);
      TakeBounded(st, s);
      Seqs.Behind(name, cp, n);
      cp, cp2, bufend, gotlt, lastsp := SkinStep(name, cp, nbuf, cp2, bufend, gotlt, lastsp, st);
      st := st';
    }
    assert name[cp..] == "";
    nbuf[cp2] := '\0';
    len := cp2;
  }

  /** The loop body. */
  method SkinStep(name: string, at: nat, nbuf: array<char>, cp2: nat, bufend: nat, gotlt: nat, lastsp: bool,
                  ghost st: State)
    returns (cp: nat, cp2': nat, bufend': nat, gotlt': nat, lastsp': bool)
    requires at < |name| && Holds(st, nbuf, cp2, bufend, gotlt, lastsp)
    requires nbuf.Length == |name| + 1 && Size(st) <= at
    modifies nbuf
    ensures var (st', n) := Take(st, name[at..]); cp == at + n && Holds(st', nbuf, cp2', bufend', gotlt', lastsp')
  {
    ghost var s := name[at..];
    ghost var rest := s[1..];
    Seqs.Behind(name, at, 1);
    TakeBounded(st, s);
    var c := name[at];
    cp, cp2', bufend', gotlt', lastsp' := at + 1, cp2, bufend, gotlt, lastsp;
    if c == '(' {
      cp := SkipComment(name, cp);
      lastsp' := false;
    } else if c == '"' {
      cp, cp2' := CopyQuoted(name, cp, nbuf, cp2);
      lastsp' := false;
    } else if c == ' ' {
      cp, cp2', lastsp' := Blank(name, at, nbuf, cp2, lastsp);
    } else if c == '<' {
      assert nbuf[..bufend] == nbuf[..cp2][..bufend];
      cp2' := bufend;
      gotlt' := gotlt + 1;
      lastsp' := false;
    } else if c == '>' && gotlt > 0 {
      gotlt' := 0;
      cp := SkipTrailer(name, cp);
      lastsp' := false;
    } else {
      cp, cp2', bufend', lastsp' := PutPlain(name, at, nbuf, cp2, bufend, gotlt, lastsp, st);
    }
  }

  /** A blank: part of " at " or " @ ", or put off. */
  method Blank(name: string, at: nat, nbuf: array<char>, cp2: nat, lastsp: bool)
    returns (cp: nat, cp2': nat, lastsp': bool)
    requires at < |name| && cp2 < nbuf.Length
    modifies nbuf
    ensures var rest := name[at..][1..];
            if "at " <= rest then
              cp == at + 4 && cp2' == cp2 + 1 && nbuf[..cp2'] == old(nbuf[..cp2]) + "@" && lastsp' == lastsp
            else if "@ " <= rest then
              cp == at + 3 && cp2' == cp2 + 1 && nbuf[..cp2'] == old(nbuf[..cp2]) + "@" && lastsp' == lastsp
            else cp == at + 1 && cp2' == cp2 && nbuf[..cp2'] == old(nbuf[..cp2]) && lastsp'
  {
    ghost var rest := name[at..][1..];
    assert forall i :: 0 <= i < |rest| ==> rest[i] == name[at + 1 + i];
    cp, cp2', lastsp' := at + 1, cp2, lastsp;
    if cp + 2 < |name| && name[cp] == 'a' && name[cp + 1] == 't' && name[cp + 2] == ' ' {
      assert "at " <= rest;
      cp := cp + 3;
      nbuf[cp2] := '@';
      cp2' := cp2 + 1;
    } else if cp + 1 < |name| && name[cp] == '@' && name[cp + 1] == ' ' {
      assert "@ " <= rest;
      cp := cp + 2;
      nbuf[cp2] := '@';
      cp2' := cp2 + 1;
    } else {
      lastsp' := true;
    }
  }

  /** Any other character, behind the blank that was put off; a comma ends an address. */
  method PutPlain(name: string, at: nat, nbuf: array<char>, cp2: nat, bufend: nat, gotlt: nat, lastsp: bool,
                  ghost st: State)
    returns (cp: nat, cp2': nat, bufend': nat, lastsp': bool)
    requires at < |name| && Holds(st, nbuf, cp2, bufend, gotlt, lastsp)
    requires |Plain(st, name[at..]).0.out| <= nbuf.Length
    modifies nbuf
    ensures var (st', n) := Plain(st, name[at..]); cp == at + n && Holds(st', nbuf, cp2', bufend', gotlt, lastsp')
  {
    ghost var s := name[at..];
    Seqs.Behind(name, at, 1);
    assert at + 1 < |name| ==> s[1] == name[at + 1];
    cp, cp2', bufend', lastsp' := at + 1, cp2, bufend, false;
    if lastsp {
      nbuf[cp2'] := ' ';
      cp2' := cp2' + 1;
      assert nbuf[..cp2'] == st.out + " ";
    }
    ghost var before := nbuf[..cp2'];
    nbuf[cp2'] := name[at];
    cp2' := cp2' + 1;
    assert nbuf[..cp2'] == before + [name[at]];
    if name[at] == ',' && cp < |name| && name[cp] == ' ' && gotlt == 0 {
      before := nbuf[..cp2'];
      nbuf[cp2'] := ' ';
      cp2' := cp2' + 1;
      assert nbuf[..cp2'] == before + " ";
      cp := SkipBlanks(name, cp);
      bufend' := cp2';
    }
  }
}
