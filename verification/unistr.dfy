/**
 * Growable strings of Unicode characters and their UTF-8 form, src/unistr.c. The encoding is the
 * one of section 2 of RFC 2279, with up to six octets a character.
 */
module Unistr {
  import opened Bytes
  import Seqs

  /** unistr_char, an unsigned int of 32 bits. */
  type Char = c: int | 0 <= c < 0x1_0000_0000

  const QUESTION: Byte := 63
  const LAST: Char := 0x7FFF_FFFF

  // ---------------------------------------------------------------- encoding

  function Width(c: Char): (n: nat)
    ensures 1 <= n <= 6
  {
    if c <= 0x7F then 1
    else if c <= 0x7FF then 2
    else if c <= 0xFFFF then 3
    else if c <= 0x1F_FFFF then 4
    else if c <= 0x3FF_FFFF then 5
    else 6
  }

  /** What is left of a character when n octets of six bits each are taken off its end. */
  function High(c: nat, n: nat): nat {
    if n == 0 then c else High(c, n - 1) / 64
  }

  /** Its last n groups of six bits, an octet each. */
  function Tail(c: nat, n: nat): (t: seq<Byte>)
    ensures |t| == n
  {
    if n == 0 then [] else [128 + High(c, n - 1) % 64] + Tail(c, n - 1)
  }

  /** The bits that announce a sequence of n octets. */
  function Mark(n: nat): nat {
    if n == 1 then 0
    else if n == 2 then 192
    else if n == 3 then 224
    else if n == 4 then 240
    else if n == 5 then 248
    else 252
  }

  /** How many values the bits beside the mark can take. */
  function Room(n: nat): nat {
    if n == 1 then 128
    else if n == 2 then 32
    else if n == 3 then 16
    else if n == 4 then 8
    else if n == 5 then 4
    else 2
  }

  lemma LeadFits(c: Char)
    requires c <= LAST
    ensures High(c, Width(c) - 1) < Room(Width(c))
  {
    Highs(c);
  }

  lemma Highs(c: nat)
    ensures High(c, 0) == c
    ensures High(c, 1) == c / 64
    ensures High(c, 2) == c / 0x1000
    ensures High(c, 3) == c / 0x4_0000
    ensures High(c, 4) == c / 0x100_0000
    ensures High(c, 5) == c / 0x4000_0000
  {
    assert High(c, 1) == High(c, 0) / 64;
    assert High(c, 2) == High(c, 1) / 64;
    assert High(c, 3) == High(c, 2) / 64;
    assert High(c, 4) == High(c, 3) / 64;
    assert High(c, 5) == High(c, 4) / 64;
  }

  function EncodeChar(c: Char): (t: seq<Byte>)
    requires c <= LAST
    ensures |t| == Width(c)
  {
    var n := Width(c);
    LeadFits(c);
    [Mark(n) + High(c, n - 1)] + Tail(c, n - 1)
  }

  /** The octets of a character, by its size. */
  lemma EncodedForms(c: Char)
    requires c <= LAST
    ensures EncodeChar(c) ==
              if c < 0x80 then [c]
              else if c < 0x800 then [192 + c / 64, 128 + c % 64]
              else if c < 0x1_0000 then [224 + c / 0x1000, 128 + c / 64 % 64, 128 + c % 64]
              else if c < 0x20_0000 then
                [240 + c / 0x4_0000, 128 + c / 0x1000 % 64, 128 + c / 64 % 64, 128 + c % 64]
              else if c < 0x400_0000 then
                [248 + c / 0x100_0000, 128 + c / 0x4_0000 % 64, 128 + c / 0x1000 % 64, 128 + c / 64 % 64, 128 + c % 64]
              else
                [252 + c / 0x4000_0000, 128 + c / 0x100_0000 % 64, 128 + c / 0x4_0000 % 64, 128 + c / 0x1000 % 64,
                 128 + c / 64 % 64, 128 + c % 64]
  {
    hide EncodeChar, Width;
    if c < 0x1_0000 {
      ShortForm(c);
    } else {
      LongForm(c);
    }
  }

  lemma ShortForm(c: Char)
    requires c < 0x1_0000
    ensures EncodeChar(c) ==
              if c < 0x80 then [c]
              else if c < 0x800 then [192 + c / 64, 128 + c % 64]
              else [224 + c / 0x1000, 128 + c / 64 % 64, 128 + c % 64]
  {
    Octets(c);
    hide EncodeChar, High, Tail;
  }

  lemma LongForm(c: Char)
    requires 0x1_0000 <= c <= LAST
    ensures EncodeChar(c) ==
              if c < 0x20_0000 then [240 + c / 0x4_0000, 128 + c / 0x1000 % 64, 128 + c / 64 % 64, 128 + c % 64]
              else if c < 0x400_0000 then
                [248 + c / 0x100_0000, 128 + c / 0x4_0000 % 64, 128 + c / 0x1000 % 64, 128 + c / 64 % 64, 128 + c % 64]
              else
                [252 + c / 0x4000_0000, 128 + c / 0x100_0000 % 64, 128 + c / 0x4_0000 % 64, 128 + c / 0x1000 % 64,
                 128 + c / 64 % 64, 128 + c % 64]
  {
    Octets(c);
    hide EncodeChar, High, Tail;
  }

  predicate Encodable(s: seq<Char>) {
    forall i :: 0 <= i < |s| ==> s[i] <= LAST
  }

  function Encode(s: seq<Char>): seq<Byte>
    requires Encodable(s)
  {
    if s == [] then [] else EncodeChar(s[0]) + Encode(s[1..])
  }

  lemma {:induction false} EncodeConcat(s: seq<Char>, t: seq<Char>)
    requires Encodable(s) && Encodable(t)
    ensures Encode(s + t) == Encode(s) + Encode(t)
  {
    if s == [] {
      Seqs.Unit(t);
      Seqs.Unit(Encode(t));
    } else {
      EncodeConcat(s[1..], t);
      assert (s + t)[1..] == s[1..] + t;
      Seqs.Assoc(EncodeChar(s[0]), Encode(s[1..]), Encode(t));
    }
  }

  lemma EncodeSnoc(s: seq<Char>, c: Char)
    requires Encodable(s) && c <= LAST
    ensures Encode(s + [c]) == Encode(s) + EncodeChar(c)
  {
    EncodeConcat(s, [c]);
    Seqs.Unit(EncodeChar(c));
    assert [c][1..] == [];
  }

  // ---------------------------------------------------------------- decoding

  predicate IsContinuation(b: Byte) {
    128 <= b < 192
  }

  /** A character, and how many octets it took. */
  datatype Read = Read(value: Char, used: nat)

  /** The largest value in front of n more continuation octets that stays within the encodable characters. */
  function Ceiling(n: nat): nat
    requires n <= 5
  {
    if n == 0 then 0x8000_0000
    else if n == 1 then 0x200_0000
    else if n == 2 then 0x8_0000
    else if n == 3 then 0x2000
    else if n == 4 then 0x80
    else 2
  }

  /**
   * The rest of a sequence: n continuation octets are due. The first octet that is none is taken too,
   * and turns the whole sequence into a question mark; at the end of s that octet is the terminator.
   */
  function Continue(s: seq<Byte>, ch: nat, n: nat, used: nat): (r: Read)
    requires n <= 5 && ch < Ceiling(n)
    ensures used <= r.used <= used + n
    ensures r.used <= used + |s| + 1
    ensures r.value <= LAST
    decreases n
  {
    if n == 0 then Read(ch, used)
    else if s == [] || !IsContinuation(s[0]) then Read(QUESTION, used + 1)
    else Continue(s[1..], ch * 64 + s[0] % 64, n - 1, used + 1)
  }

  /** The data bits of a leading octet and the number of octets that follow it, if it is one. */
  function Lead(b: Byte): (r: (nat, nat))
    ensures r.1 <= 5 && (r.1 > 0 ==> r.0 < Room(r.1 + 1) && b == Mark(r.1 + 1) + r.0 && r.0 < Ceiling(r.1))
    ensures r.1 == 0 ==> r.0 == 0
  {
    if b / 32 == 6 then (b % 32, 1)
    else if b / 16 == 14 then (b % 16, 2)
    else if b / 8 == 30 then (b % 8, 3)
    else if b / 4 == 62 then (b % 4, 4)
    else if b / 2 == 126 then (b % 2, 5)
    else (0, 0)
  }

  function DecodeOne(s: seq<Byte>): (r: Read)
    requires s != []
    ensures 1 <= r.used <= |s| + 1
    ensures r.value <= LAST
  {
    if s[0] <= 0x7F then Read(s[0], 1)
    else
      var (ch, n) := Lead(s[0]);
      if ch == 0 then Read(QUESTION, 1) else Continue(s[1..], ch, n, 1)
  }

  /** What is behind the first character; a sequence cut short has used the terminator. */
  function After(s: seq<Byte>): (t: seq<Byte>)
    requires s != []
    ensures |t| < |s|
  {
    var used := DecodeOne(s).used;
    if used <= |s| then s[used..] else []
  }

  function Decode(s: seq<Byte>): (r: seq<Char>)
    ensures Encodable(r)
    decreases |s|
  {
    if s == [] then [] else [DecodeOne(s).value] + Decode(After(s))
  }

  /** No sequence reaches behind the end of s. */
  predicate Complete(s: seq<Byte>)
    decreases |s|
  {
    s != [] ==> DecodeOne(s).used <= |s| && Complete(After(s))
  }

  /** What is in memory behind a string of octets, as far as a sequence cut short can reach. */
  type Behind = b: seq<Byte> | |b| == 5 witness [0, 0, 0, 0, 0]

  /** unistr_append_utf8: the last sequence is read to its end, behind the octets if need be. */
  function DecodeBefore(s: seq<Byte>, beyond: Behind): (r: seq<Char>)
    ensures Encodable(r)
    decreases |s|
  {
    if s == [] then []
    else
      var r := DecodeOne(s + beyond);
      [r.value] + DecodeBefore(if r.used <= |s| then s[r.used..] else [], beyond)
  }

  lemma {:induction false} ContinueFront(s: seq<Byte>, t: seq<Byte>, ch: nat, n: nat, used: nat)
    requires n <= 5 && ch < Ceiling(n) && t != []
    requires Continue(s, ch, n, used).used <= used + |s| || !IsContinuation(t[0])
    ensures Continue(s + t, ch, n, used) == Continue(s, ch, n, used)
    decreases n
  {
    if n > 0 && s == [] {
      Seqs.Unit(t);
    } else if n > 0 {
      assert (s + t)[1..] == s[1..] + t && (s + t)[0] == s[0];
      var h := ch * 64 + s[0] % 64;
      ContinueStep(s, ch, n, used, h);
      ContinueStep(s + t, ch, n, used, h);
      hide Continue, Ceiling;
      if IsContinuation(s[0]) {
        assert |s[1..]| == |s| - 1;
        ContinueFront(s[1..], t, h, n - 1, used + 1);
      }
    }
  }

  lemma ContinueStep(s: seq<Byte>, ch: nat, n: nat, used: nat, h: nat)
    requires s != [] && 0 < n <= 5 && ch < Ceiling(n) && h == ch * 64 + s[0] % 64
    ensures h < Ceiling(n - 1)
            && Continue(s, ch, n, used) == if IsContinuation(s[0]) then Continue(s[1..], h, n - 1, used + 1)
                                           else Read(QUESTION, used + 1)
  {
  }

  /** What is behind the octets matters only if they end within a sequence and it continues it. */
  lemma {:induction false} BehindUnread(s: seq<Byte>, beyond: Behind)
    requires Complete(s) || !IsContinuation(beyond[0])
    ensures DecodeBefore(s, beyond) == Decode(s)
    decreases |s|
  {
    if s != [] {
      BehindUnread(After(s), beyond);
      assert (s + beyond)[1..] == s[1..] + beyond;
      var (ch, n) := Lead(s[0]);
      hide Continue, Decode;
      if s[0] > 0x7F && ch != 0 {
        ContinueFront(s[1..], beyond, ch, n, 1);
      }
      assert DecodeOne(s + beyond) == DecodeOne(s);
    }
  }

  // ---------------------------------------------------------------- round trips

  /** The characters that survive: those whose leading octet has a data bit set, or that need only one. */
  predicate RoundTrips(c: Char) {
    c <= 0x7FF || 0x1000 <= c <= 0xFFFF || 0x4_0000 <= c <= 0x1F_FFFF
    || 0x100_0000 <= c <= 0x3FF_FFFF || 0x4000_0000 <= c <= LAST
  }

  lemma RoundTripsMeaning(c: Char)
    requires c <= LAST
    ensures RoundTrips(c) <==> Width(c) == 1 || High(c, Width(c) - 1) > 0
  {
    Highs(c);
  }

  lemma LeadOfMark(n: nat, d: nat)
    requires 2 <= n <= 6 && d < Room(n)
    ensures Mark(n) + d < 256 && Lead(Mark(n) + d) == (d, n - 1)
  {
  }

  lemma TailFront(c: nat, n: nat, rest: seq<Byte>)
    requires n > 0
    ensures var t := Tail(c, n) + rest; t[1..] == Tail(c, n - 1) + rest && t[0] == 128 + High(c, n - 1) % 64
  {
  }

  lemma Sextet(h: nat)
    ensures IsContinuation(128 + h % 64) && (128 + h % 64) % 64 == h % 64
    ensures h / 64 * 64 + h % 64 == h
  {
  }

  lemma {:induction false} ContinueTail(c: Char, n: nat, rest: seq<Byte>, used: nat)
    requires n <= 5 && High(c, n) < Ceiling(n)
    ensures Continue(Tail(c, n) + rest, High(c, n), n, used) == Read(c, used + n)
    decreases n
  {
    if n > 0 {
      ContinueTail(c, n - 1, rest, used + 1);
      TailFront(c, n, rest);
      var h := High(c, n - 1);
      assert High(c, n) == h / 64;
      Sextet(h);
      hide Tail, High;
    }
  }

  /** A character that round-trips is read back whole. */
  lemma DecodeOneOfEncode(c: Char, rest: seq<Byte>)
    requires c <= LAST && RoundTrips(c)
    ensures DecodeOne(EncodeChar(c) + rest) == Read(c, Width(c))
  {
    RoundTripsMeaning(c);
    LeadFits(c);
    var n := Width(c);
    var t := EncodeChar(c) + rest;
    if n == 1 {
      Highs(c);
    } else {
      LeadOfMark(n, High(c, n - 1));
      assert t[1..] == Tail(c, n - 1) + rest;
      ContinueTail(c, n - 1, rest, 1);
    }
  }

  function Questions(n: nat): seq<Char> {
    if n == 0 then [] else [QUESTION] + Questions(n - 1)
  }

  /** Continuation octets on their own are a question mark each. */
  lemma {:induction false} DecodeStray(c: Char, n: nat, rest: seq<Byte>)
    ensures Decode(Tail(c, n) + rest) == Questions(n) + Decode(rest)
    decreases n
  {
    if n == 0 {
      Seqs.Unit(rest);
      Seqs.Unit(Decode(rest));
    } else {
      DecodeStray(c, n - 1, rest);
      TailFront(c, n, rest);
      hide Decode, Tail;
      StrayOctet(Tail(c, n) + rest);
      Seqs.Assoc([QUESTION], Questions(n - 1), Decode(rest));
    }
  }

  lemma StrayOctet(t: seq<Byte>)
    requires t != [] && t[0] > 0x7F && (IsContinuation(t[0]) || Lead(t[0]).0 == 0)
    ensures Decode(t) == [QUESTION] + Decode(t[1..])
  {
    assert DecodeOne(t) == Read(QUESTION, 1);
    hide DecodeOne;
    assert After(t) == t[1..];
  }

  /** What one character comes back as. */
  function Restored(c: Char): seq<Char> {
    if RoundTrips(c) then [c] else Questions(Width(c))
  }

  lemma DecodeOfEncodeChar(c: Char, rest: seq<Byte>)
    requires c <= LAST
    ensures Decode(EncodeChar(c) + rest) == Restored(c) + Decode(rest)
  {
    var n := Width(c);
    var t := EncodeChar(c) + rest;
    assert t[n..] == rest;
    if RoundTrips(c) {
      DecodeOneOfEncode(c, rest);
    } else {
      RoundTripsMeaning(c);
      LeadOfMark(n, 0);
      assert t[1..] == Tail(c, n - 1) + rest;
      StrayOctet(t);
      DecodeStray(c, n - 1, rest);
      hide Decode;
      Seqs.Assoc([QUESTION], Questions(n - 1), Decode(rest));
    }
  }

  function AllRestored(s: seq<Char>): seq<Char> {
    if s == [] then [] else Restored(s[0]) + AllRestored(s[1..])
  }

  /** Decoding an encoded string, whatever characters it holds. */
  lemma {:induction false} DecodeOfEncode(s: seq<Char>)
    requires Encodable(s)
    ensures Decode(Encode(s)) == AllRestored(s)
  {
    if s != [] {
      DecodeOfEncodeChar(s[0], Encode(s[1..]));
      DecodeOfEncode(s[1..]);
    }
  }

  /** The round trip is the identity exactly on strings of characters that round-trip. */
  lemma {:induction false} RoundTripIff(s: seq<Char>)
    requires Encodable(s)
    ensures Decode(Encode(s)) == s <==> forall i :: 0 <= i < |s| ==> RoundTrips(s[i])
  {
    DecodeOfEncode(s);
    if s != [] {
      RoundTripIff(s[1..]);
      DecodeOfEncode(s[1..]);
      assert AllRestored(s) == Restored(s[0]) + AllRestored(s[1..]);
      assert RoundTrips(s[0]) ==> Restored(s[0]) == [s[0]];
      assert !RoundTrips(s[0]) ==> Restored(s[0])[0] == QUESTION != s[0];
      hide *;
      if RoundTrips(s[0]) {
        SameHead(s, AllRestored(s[1..]));
        assert forall i :: 0 < i < |s| ==> s[i] == s[1..][i - 1];
      } else {
        assert AllRestored(s)[0] != s[0];
      }
    }
  }

  lemma SameHead<T>(s: seq<T>, t: seq<T>)
    requires s != []
    ensures [s[0]] + t == s <==> t == s[1..]
  {
    assert ([s[0]] + t)[1..] == t;
    assert [s[0]] + s[1..] == s;
  }

  // ---------------------------------------------------------------- which octets are read back unchanged

  /** The first n octets are there and are continuation octets. */
  predicate Continued(s: seq<Byte>, n: nat) {
    n <= |s| && forall i :: 0 <= i < n ==> IsContinuation(s[i])
  }

  /** A single octet, or a leading octet with a data bit beyond those of a shorter form, and all its followers. */
  predicate Sound(t: seq<Byte>)
    requires t != []
  {
    t[0] <= 0x7F || (Lead(t[0]).0 != 0 && t[0] != 0xC1 && Continued(t[1..], Lead(t[0]).1))
  }

  predicate WellFormed(t: seq<Byte>)
    decreases |t|
  {
    t != [] ==> Sound(t) && WellFormed(After(t))
  }

  lemma {:induction false} ContinueSound(s: seq<Byte>, ch: nat, n: nat, used: nat)
    requires n <= 5 && ch < Ceiling(n) && Continued(s, n)
    ensures var r := Continue(s, ch, n, used);
            r.used == used + n && High(r.value, n) == ch && Tail(r.value, n) == s[..n]
    decreases n
  {
    if n > 0 {
      var h, s0, rest := ch * 64 + s[0] % 64, s[0], s[1..];
      assert IsContinuation(s0) && Continued(rest, n - 1);
      SextetOf(ch, s0, n);
      assert Continue(s, ch, n, used) == Continue(rest, h, n - 1, used + 1);
      hide Continue, Ceiling, IsContinuation, Continued;
      ContinueSound(rest, h, n - 1, used + 1);
      TailGrows(Continue(s, ch, n, used).value, n);
      hide High, Tail;
      assert s[..n] == [s0] + rest[..n - 1];
    }
  }

  lemma TailGrows(v: nat, n: nat)
    requires n > 0
    ensures High(v, n) == High(v, n - 1) / 64
    ensures Tail(v, n) == [128 + High(v, n - 1) % 64] + Tail(v, n - 1)
  {
  }

  lemma SextetOf(ch: nat, b: Byte, n: nat)
    requires IsContinuation(b) && 1 <= n <= 5 && ch < Ceiling(n)
    ensures var h := ch * 64 + b % 64; h / 64 == ch && 128 + h % 64 == b && h < Ceiling(n - 1)
  {
  }

  lemma WidthOfHigh(v: Char, n: nat)
    requires v <= LAST && 1 <= n <= 5 && 0 < High(v, n) < Room(n + 1) && (n == 1 ==> High(v, n) > 1)
    ensures Width(v) == n + 1 && RoundTrips(v)
  {
    Highs(v);
  }

  lemma SoundOne(t: seq<Byte>)
    requires t != [] && Sound(t)
    ensures var r := DecodeOne(t);
            RoundTrips(r.value) && r.used <= |t| && EncodeChar(r.value) == t[..r.used]
  {
    if t[0] > 0x7F {
      var (ch, n) := Lead(t[0]);
      ContinueSound(t[1..], ch, n, 1);
      var v := DecodeOne(t).value;
      hide Continue, Continued, Lead, DecodeOne;
      WidthOfHigh(v, n);
      assert t[..n + 1] == [t[0]] + t[1..][..n];
    } else {
      Highs(t[0]);
    }
  }

  lemma {:induction false} ContinueBroken(s: seq<Byte>, ch: nat, n: nat, used: nat)
    requires n <= 5 && ch < Ceiling(n) && !Continued(s, n)
    ensures Continue(s, ch, n, used).value == QUESTION && Continue(s, ch, n, used).used > used
    decreases n
  {
    if s != [] && IsContinuation(s[0]) {
      ContinueBroken(s[1..], ch * 64 + s[0] % 64, n - 1, used + 1);
    }
  }

  /** An octet that is not sound, or several, comes back as a single octet that is none of them. */
  lemma UnsoundOne(t: seq<Byte>)
    requires t != [] && !Sound(t)
    ensures var r := DecodeOne(t); Width(r.value) == 1 && r.value != t[0]
  {
    var (ch, n) := Lead(t[0]);
    if ch != 0 {
      if Continued(t[1..], n) {
        OverlongTwo(t);
      } else {
        ContinueBroken(t[1..], ch, n, 1);
      }
    }
  }

  lemma OverlongTwo(t: seq<Byte>)
    requires |t| >= 2 && t[0] == 0xC1 && IsContinuation(t[1])
    ensures DecodeOne(t).value <= 0x7F
  {
    assert Lead(t[0]) == (1, 1);
    assert Continue(t[2..], 64 + t[1] % 64, 0, 2).value == 64 + t[1] % 64;
  }

  lemma EncodeFront(c: Char, s: seq<Char>)
    requires c <= LAST && Encodable(s)
    ensures Encode([c] + s) == EncodeChar(c) + Encode(s)
  {
    assert ([c] + s)[1..] == s;
  }

  lemma DecodeStep(t: seq<Byte>)
    requires t != []
    ensures Encode(Decode(t)) == EncodeChar(DecodeOne(t).value) + Encode(Decode(After(t)))
  {
    EncodeFront(DecodeOne(t).value, Decode(After(t)));
  }

  /** Octets survive decoding and encoding exactly if they are well formed. */
  lemma {:induction false} ReencodeIff(t: seq<Byte>)
    ensures Encode(Decode(t)) == t <==> WellFormed(t)
    decreases |t|
  {
    if t != [] {
      var r := DecodeOne(t);
      DecodeStep(t);
      ReencodeIff(After(t));
      hide Decode, Encode, EncodeChar, DecodeOne;
      if Sound(t) {
        SoundOne(t);
        var e := EncodeChar(r.value);
        assert |e| == r.used && After(t) == t[r.used..];
        Seqs.Rejoin(t, r.used);
        assert (e + Encode(Decode(After(t))))[r.used..] == Encode(Decode(After(t)));
      } else {
        UnsoundOne(t);
        SingleOctet(r.value);
        assert Encode(Decode(t))[0] == r.value;
      }
    }
  }

  /** A sequence cut short does not survive either, whatever completes it. */
  lemma {:induction false} ReencodeBefore(t: seq<Byte>, beyond: Behind)
    ensures Encode(DecodeBefore(t, beyond)) == t <==> WellFormed(t)
    decreases |t|
  {
    if t != [] {
      var w := t + beyond;
      var r := DecodeOne(w);
      var rest := if r.used <= |t| then t[r.used..] else [];
      EncodeFront(r.value, DecodeBefore(rest, beyond));
      ReencodeBefore(rest, beyond);
      SoundBefore(t, beyond, w);
      hide Decode, Encode, EncodeChar, DecodeOne, WellFormed, Sound;
      var e := EncodeChar(r.value);
      if Sound(w) {
        SoundOne(w);
        assert |e| == r.used;
        if r.used <= |t| {
          assert w[..r.used] == t[..r.used];
          Seqs.Rejoin(t, r.used);
          assert (e + Encode(DecodeBefore(rest, beyond)))[r.used..] == Encode(DecodeBefore(rest, beyond));
        }
      } else {
        UnsoundOne(w);
        SingleOctet(r.value);
        assert (e + Encode(DecodeBefore(rest, beyond)))[0] == r.value != t[0];
      }
    }
  }

  lemma SoundBefore(t: seq<Byte>, beyond: Behind, w: seq<Byte>)
    requires t != [] && w == t + beyond
    ensures var r := DecodeOne(w);
            && (Sound(t) <==> Sound(w) && r.used <= |t|)
            && (WellFormed(t) <==> Sound(t) && WellFormed(if r.used <= |t| then t[r.used..] else []))
  {
    assert w[0] == t[0] && w[1..] == t[1..] + beyond;
    ContinuedFront(t[1..], beyond, Lead(t[0]).1);
    assert |t[1..]| == |t| - 1;
    hide *;
    SoundLonger(t, w);
  }

  /** The same for octets that begin a longer string. */
  lemma SoundLonger(t: seq<Byte>, w: seq<Byte>)
    requires t != [] && w != [] && t[0] == w[0]
    requires var n := Lead(t[0]).1; Continued(t[1..], n) <==> Continued(w[1..], n) && n < |t|
    ensures var r := DecodeOne(w);
            && (Sound(t) <==> Sound(w) && r.used <= |t|)
            && (WellFormed(t) <==> Sound(t) && WellFormed(if r.used <= |t| then t[r.used..] else []))
  {
    hide DecodeOne, Lead, Continued, WellFormed;
    if Sound(w) { SoundUsed(w); }
    assert Sound(t) <==> Sound(w) && DecodeOne(w).used <= |t|;
    hide Sound;
    if Sound(t) {
      SameUsed(t, w);
    }
    WellFormedStep(t);
  }

  lemma SameUsed(t: seq<Byte>, w: seq<Byte>)
    requires t != [] && w != [] && t[0] == w[0] && Sound(t) && Sound(w)
    ensures DecodeOne(t).used == DecodeOne(w).used
  {
    SoundUsed(t);
    SoundUsed(w);
  }

  lemma WellFormedStep(t: seq<Byte>)
    requires t != []
    ensures WellFormed(t) <==> Sound(t) && WellFormed(After(t))
    ensures After(t) == if DecodeOne(t).used <= |t| then t[DecodeOne(t).used..] else []
  {
  }

  /** A sound sequence takes its leading octet and as many followers as that announces. */
  lemma SoundUsed(t: seq<Byte>)
    requires t != [] && Sound(t)
    ensures DecodeOne(t).used == if t[0] <= 0x7F then 1 else Lead(t[0]).1 + 1
  {
    if t[0] > 0x7F {
      var (ch, n) := Lead(t[0]);
      ContinueSound(t[1..], ch, n, 1);
    }
  }

  lemma ContinuedFront(s: seq<Byte>, t: seq<Byte>, n: nat)
    ensures Continued(s, n) <==> Continued(s + t, n) && n < |s| + 1
  {
    assert forall i :: 0 <= i < |s| ==> (s + t)[i] == s[i];
  }

  lemma SingleOctet(c: Char)
    requires Width(c) == 1
    ensures EncodeChar(c) == [c]
  {
    Highs(c);
  }

  predicate AllRoundTrip(s: seq<Char>) {
    forall i :: 0 <= i < |s| ==> RoundTrips(s[i])
  }

  lemma {:induction false} WellFormedDecoded(t: seq<Byte>)
    requires WellFormed(t)
    ensures AllRoundTrip(Decode(t)) && Complete(t)
    decreases |t|
  {
    if t != [] {
      SoundOne(t);
      WellFormedDecoded(After(t));
    }
  }

  /** Well-formed octets are the encodings of round-tripping characters. */
  lemma WellFormedIff(t: seq<Byte>)
    ensures WellFormed(t) <==> exists s :: Encodable(s) && AllRoundTrip(s) && Encode(s) == t
    ensures WellFormed(t) ==> Complete(t)
  {
    ReencodeIff(t);
    if WellFormed(t) {
      WellFormedDecoded(t);
    }
    if s :| Encodable(s) && AllRoundTrip(s) && Encode(s) == t {
      RoundTripIff(s);
    }
  }

  // ---------------------------------------------------------------- the program

  /** unistr_append_usascii: what is not ASCII becomes a question mark. */
  function Ascii(s: seq<Byte>): (r: seq<Char>)
    ensures |r| == |s| && forall i :: 0 <= i < |s| ==> r[i] == if s[i] > 0x7F then QUESTION else s[i]
  {
    if s == [] then [] else Ascii(s[..|s| - 1]) + [if s[|s| - 1] > 0x7F then QUESTION else s[|s| - 1]]
  }

  /** unistr_append_iso88591: a NUL becomes a question mark. */
  function Latin1(s: seq<Byte>): (r: seq<Char>)
    ensures |r| == |s| && forall i :: 0 <= i < |s| ==> r[i] == if s[i] == 0 then QUESTION else s[i]
  {
    if s == [] then [] else Latin1(s[..|s| - 1]) + [if s[|s| - 1] == 0 then QUESTION else s[|s| - 1]]
  }

  class UniStr {
    var chars: array<Char>   // its length is alloc_len
    var len: nat

    ghost predicate Valid()
      reads this
    {
      len <= chars.Length && 0 < chars.Length
    }

    ghost function Contents(): seq<Char>
      requires Valid()
      reads this, chars
    {
      chars[..len]
    }

    constructor ()
      ensures Valid() && fresh(chars) && Contents() == []
    {
      len := 0;
      chars := new Char[64];
    }

    /** unistr_append_char: the store doubles when it is full. */
    method AppendChar(uc: Char)
      requires Valid()
      modifies this, chars
      ensures Valid() && (chars == old(chars) || fresh(chars))
      ensures Contents() == old(Contents()) + [uc]
      ensures chars.Length == if old(len) < old(chars).Length then old(chars).Length else 2 * old(chars).Length
    {
      if len >= chars.Length {
        var larger := new Char[chars.Length * 2];
        forall i | 0 <= i < len {
          larger[i] := chars[i];
        }
        chars := larger;
      }
      assert chars[..len] == old(Contents());
      chars[len] := uc;
      len := len + 1;
    }

    method AppendUsascii(s: seq<Byte>)
      requires Valid()
      modifies this, chars
      ensures Valid() && (chars == old(chars) || fresh(chars))
      ensures Contents() == old(Contents()) + Ascii(s)
    {
      Seqs.Unit(Contents());
      var i := 0;
      while i < |s|
        invariant i <= |s|
        invariant Valid() && (chars == old(chars) || fresh(chars))
        invariant Contents() == old(Contents()) + Ascii(s[..i])
      {
        var c := if s[i] > 0x7F then QUESTION else s[i];
        assert s[..i + 1][..i] == s[..i];
        Seqs.Assoc(old(Contents()), Ascii(s[..i]), [c]);
        AppendChar(c);
        i := i + 1;
      }
      assert s[..i] == s;
    }

    method AppendIso88591(s: seq<Byte>)
      requires Valid()
      modifies this, chars
      ensures Valid() && (chars == old(chars) || fresh(chars))
      ensures Contents() == old(Contents()) + Latin1(s)
    {
      Seqs.Unit(Contents());
      var i := 0;
      while i < |s|
        invariant i <= |s|
        invariant Valid() && (chars == old(chars) || fresh(chars))
        invariant Contents() == old(Contents()) + Latin1(s[..i])
      {
        var c := if s[i] == 0 then QUESTION else s[i];
        assert s[..i + 1][..i] == s[..i];
        Seqs.Assoc(old(Contents()), Latin1(s[..i]), [c]);
        AppendChar(c);
        i := i + 1;
      }
      assert s[..i] == s;
    }

    method AppendChars(s: seq<Char>)
      requires Valid()
      modifies this, chars
      ensures Valid() && (chars == old(chars) || fresh(chars))
      ensures Contents() == old(Contents()) + s
    {
      Seqs.Unit(Contents());
      var i := 0;
      while i < |s|
        invariant i <= |s|
        invariant Valid() && (chars == old(chars) || fresh(chars))
        invariant Contents() == old(Contents()) + s[..i]
      {
        AppendChar(s[i]);
        Seqs.Assoc(old(Contents()), s[..i], [s[i]]);
        assert s[..i + 1] == s[..i] + [s[i]];
        i := i + 1;
      }
      assert s[..i] == s;
    }

    /** unistr_append_utf8, with whatever is behind the octets in memory. */
    method AppendUtf8(bin: seq<Byte>, beyond: Behind)
      requires Valid()
      modifies this, chars
      ensures Valid() && (chars == old(chars) || fresh(chars))
      ensures Contents() == old(Contents()) + DecodeBefore(bin, beyond)
    {
      ghost var s, done: seq<Char> := bin, [];
      Seqs.Unit(Contents());
      Seqs.Unit(DecodeBefore(s, beyond));
      var mem := bin + beyond;
      assert mem[0..] == bin + beyond;
      var i := 0;
      while i < |bin|
        invariant Valid() && (chars == old(chars) || fresh(chars))
        invariant i <= |bin| ==> |s| == |bin| - i && mem[i..] == s + beyond
        invariant i > |bin| ==> s == []
        invariant Contents() == old(Contents()) + done
        invariant done + DecodeBefore(s, beyond) == DecodeBefore(bin, beyond)
      {
        var ch, used := ReadOne(mem, i);
        AppendChar(ch);
        ghost var rest := if used <= |s| then s[used..] else [];
        Seqs.Assoc(old(Contents()), done, [ch]);
        Seqs.Assoc(done, [ch], DecodeBefore(rest, beyond));
        done := done + [ch];
        hide DecodeBefore, DecodeOne;
        Seqs.Behind(mem, i, used);
        if used <= |s| {
          Seqs.DropFront(s, beyond, used);
        }
        s := rest;
        i := i + used;
      }
      Seqs.Unit(done);
    }

    /**
     * unistr_to_utf8: the octets and a NUL, in a buffer that the first pass has sized exactly; an
     * empty string when a character is out of range.
     */
    method ToUtf8() returns (ret: array<Byte>)
      requires Valid()
      ensures fresh(ret)
      ensures ret[..] == (if Encodable(Contents()) then Encode(Contents()) else []) + [0]
    {
      ghost var s := Contents();
      var ok, size := Size();
      if !ok {
        ret := new Byte[1];
        ret[0] := 0;
        return;
      }
      ret := new Byte[size + 1];
      var p, i := 0, 0;
      while i < len
        invariant i <= len && p == |Encode(s[..i])| <= size
        invariant ret[..p] == Encode(s[..i])
      {
        ghost var c := s[i];
        assert c == chars[i];
        Prefix(s, i);
        hide Encode, Encodable;
        p := PutChar(ret, p, chars[i]);
        i := i + 1;
      }
      assert s[..i] == s;
      ret[p] := 0;
      assert ret[..p] == Encode(s);
    }

    /** The sizing pass. */
    method Size() returns (ok: bool, size: nat)
      requires Valid()
      ensures ok <==> Encodable(Contents())
      ensures ok ==> size == |Encode(Contents())|
    {
      ghost var s := Contents();
      size := 0;
      var i := 0;
      while i < len
        invariant i <= len
        invariant Encodable(s[..i]) && size == |Encode(s[..i])|
      {
        var c := chars[i];
        assert c == s[i];
        if c > LAST {
          return false, 0;
        }
        assert s[..i + 1] == s[..i] + [c];
        EncodeSnoc(s[..i], c);
        if c <= 0x7F {
          size := size + 1;
        } else if c <= 0x7FF {
          size := size + 2;
        } else if c <= 0xFFFF {
          size := size + 3;
        } else if c <= 0x1F_FFFF {
          size := size + 4;
        } else if c <= 0x3FF_FFFF {
          size := size + 5;
        } else {
          size := size + 6;
        }
        i := i + 1;
      }
      assert s[..i] == s;
      ok := true;
    }
  }

  lemma Prefix(s: seq<Char>, i: nat)
    requires Encodable(s) && i < |s|
    ensures s[i] <= LAST && Encodable(s[..i]) && Encodable(s[..i + 1])
    ensures Encode(s[..i + 1]) == Encode(s[..i]) + EncodeChar(s[i])
    ensures |Encode(s[..i + 1])| <= |Encode(s)|
  {
    assert s[..i + 1] == s[..i] + [s[i]];
    EncodeSnoc(s[..i], s[i]);
    Seqs.Rejoin(s, i + 1);
    EncodeConcat(s[..i + 1], s[i + 1..]);
  }

  /** The octets of one character, written at p. */
  method PutChar(buf: array<Byte>, p: nat, c: Char) returns (q: nat)
    requires c <= LAST && p + Width(c) <= buf.Length
    modifies buf
    ensures q == p + Width(c)
    ensures buf[..q] == old(buf[..p]) + EncodeChar(c)
  {
    hide EncodeChar;
    if c <= 0x7F {
      Put1(buf, p, c);
      q := p + 1;
    } else if c <= 0x7FF {
      Put2(buf, p, c);
      q := p + 2;
    } else if c <= 0xFFFF {
      Put3(buf, p, c);
      q := p + 3;
    } else if c <= 0x1F_FFFF {
      Put4(buf, p, c);
      q := p + 4;
    } else if c <= 0x3FF_FFFF {
      Put5(buf, p, c);
      q := p + 5;
    } else {
      Put6(buf, p, c);
      q := p + 6;
    }
  }

  // The masks and shifts of the source are written as divisions: they take the same bits.

  method Put1(buf: array<Byte>, p: nat, c: Char)
    requires c <= LAST && Width(c) == 1 && p + 1 <= buf.Length
    modifies buf
    ensures buf[..p + 1] == old(buf[..p]) + EncodeChar(c)
  {
    buf[p] := c;
    SingleOctet(c);
  }

  method Put2(buf: array<Byte>, p: nat, c: Char)
    requires c <= LAST && Width(c) == 2 && p + 2 <= buf.Length
    modifies buf
    ensures buf[..p + 2] == old(buf[..p]) + EncodeChar(c)
  {
    Octets(c);
    hide EncodeChar, High, Tail;
    buf[p] := 192 + c / 64 % 32;
    buf[p + 1] := 128 + c % 64;
    Written(buf[..], old(buf[..p]), c);
  }

  method Put3(buf: array<Byte>, p: nat, c: Char)
    requires c <= LAST && Width(c) == 3 && p + 3 <= buf.Length
    modifies buf
    ensures buf[..p + 3] == old(buf[..p]) + EncodeChar(c)
  {
    Octets(c);
    hide EncodeChar, High, Tail;
    buf[p] := 224 + c / 0x1000 % 16;
    buf[p + 1] := 128 + c / 64 % 64;
    buf[p + 2] := 128 + c % 64;
    Written(buf[..], old(buf[..p]), c);
  }

  method Put4(buf: array<Byte>, p: nat, c: Char)
    requires c <= LAST && Width(c) == 4 && p + 4 <= buf.Length
    modifies buf
    ensures buf[..p + 4] == old(buf[..p]) + EncodeChar(c)
  {
    Octets(c);
    hide EncodeChar, High, Tail;
    buf[p] := 240 + c / 0x4_0000 % 8;
    buf[p + 1] := 128 + c / 0x1000 % 64;
    buf[p + 2] := 128 + c / 64 % 64;
    buf[p + 3] := 128 + c % 64;
    Written(buf[..], old(buf[..p]), c);
  }

  method Put5(buf: array<Byte>, p: nat, c: Char)
    requires c <= LAST && Width(c) == 5 && p + 5 <= buf.Length
    modifies buf
    ensures buf[..p + 5] == old(buf[..p]) + EncodeChar(c)
  {
    Octets(c);
    hide EncodeChar, High, Tail;
    buf[p] := 248 + c / 0x100_0000 % 4;
    buf[p + 1] := 128 + c / 0x4_0000 % 64;
    buf[p + 2] := 128 + c / 0x1000 % 64;
    buf[p + 3] := 128 + c / 64 % 64;
    buf[p + 4] := 128 + c % 64;
    Written(buf[..], old(buf[..p]), c);
  }

  method Put6(buf: array<Byte>, p: nat, c: Char)
    requires c <= LAST && Width(c) == 6 && p + 6 <= buf.Length
    modifies buf
    ensures buf[..p + 6] == old(buf[..p]) + EncodeChar(c)
  {
    Octets(c);
    hide EncodeChar, High, Tail;
    buf[p] := 252 + c / 0x4000_0000 % 2;
    buf[p + 1] := 128 + c / 0x100_0000 % 64;
    buf[p + 2] := 128 + c / 0x4_0000 % 64;
    buf[p + 3] := 128 + c / 0x1000 % 64;
    buf[p + 4] := 128 + c / 64 % 64;
    buf[p + 5] := 128 + c % 64;
    Written(buf[..], old(buf[..p]), c);
  }

  /** A buffer with the octets of c behind what was there. */
  lemma Written(buf: seq<Byte>, before: seq<Byte>, c: Char)
    requires c <= LAST && |before| + Width(c) <= |buf| && before <= buf
    requires forall k :: 0 <= k < Width(c) ==> buf[|before| + k] == EncodeChar(c)[k]
    ensures buf[..|before| + Width(c)] == before + EncodeChar(c)
  {
  }

  lemma Octets(c: Char)
    requires c <= LAST
    ensures var n, e := Width(c), EncodeChar(c);
            && e[0] == Mark(n) + High(c, n - 1)
            && forall k :: 1 <= k < n ==> e[k] == 128 + High(c, n - 1 - k) % 64
    ensures High(c, 0) == c
    ensures High(c, 1) == c / 64
    ensures High(c, 2) == c / 0x1000
    ensures High(c, 3) == c / 0x4_0000
    ensures High(c, 4) == c / 0x100_0000
    ensures High(c, 5) == c / 0x4000_0000
  {
    Highs(c);
    TailAt(c, Width(c) - 1);
  }

  lemma {:induction false} TailAt(c: nat, n: nat)
    ensures forall k :: 0 <= k < n ==> Tail(c, n)[k] == 128 + High(c, n - 1 - k) % 64
    decreases n
  {
    if n > 0 {
      TailAt(c, n - 1);
    }
  }

  /** The body of the decoding loop: the character at i, and the number of octets it takes. */
  method ReadOne(bin: seq<Byte>, i: nat) returns (ch: Char, used: nat)
    requires i + 6 <= |bin|
    ensures Read(ch, used) == DecodeOne(bin[i..]) && used <= 6
  {
    var b := bin[i];
    assert b == bin[i..][0] && bin[i..][1..] == bin[i + 1..];
    if b <= 0x7F {
      return b, 1;
    }
    var n;
    ch, n := ReadLead(b);
    if ch == 0 {
      return QUESTION, 1;
    }
    hide Continue;
    ch, used := ReadRest(bin, i + 1, ch, n);
  }

  method ReadLead(b: Byte) returns (ch: nat, n: nat)
    ensures (ch, n) == Lead(b)
  {
    if b / 32 == 6 {
      ch, n := b % 32, 1;
    } else if b / 16 == 14 {
      ch, n := b % 16, 2;
    } else if b / 8 == 30 {
      ch, n := b % 8, 3;
    } else if b / 4 == 62 {
      ch, n := b % 4, 4;
    } else if b / 2 == 126 {
      ch, n := b % 2, 5;
    } else {
      ch, n := 0, 0;
    }
  }

  /** The inner loop: the continuation octets from `at` on. */
  method ReadRest(bin: seq<Byte>, at: nat, first: nat, n: nat) returns (ch: Char, used: nat)
    requires n <= 5 && at + n <= |bin| && first < Ceiling(n)
    ensures Read(ch, used) == Continue(bin[at..], first, n, 1)
  {
    hide Continue, Ceiling;
    RestDone(bin[at..], first, n, 1);
    ch, used := first, 1;
    var j, i := n, at;
    while j > 0
      invariant 0 <= j <= 5 && ch < Ceiling(j) && at <= i && i + j <= |bin| && used == i - at + 1
      invariant Continue(bin[i..], ch, j, used) == Continue(bin[at..], first, n, 1)
    {
      RestStep(bin, i, ch, j, used);
      if !IsContinuation(bin[i]) {
        return QUESTION, used + 1;
      }
      ch := ch * 64 + bin[i] % 64;
      i, used := i + 1, used + 1;
      j := j - 1;
    }
    RestDone(bin[i..], ch, j, used);
  }

  lemma RestDone(s: seq<Byte>, ch: nat, n: nat, used: nat)
    requires n <= 5 && ch < Ceiling(n)
    ensures ch <= LAST
    ensures n == 0 ==> Continue(s, ch, n, used) == Read(ch, used)
  {
  }

  lemma RestStep(bin: seq<Byte>, i: nat, ch: nat, j: nat, used: nat)
    requires i < |bin| && 0 < j <= 5 && ch < Ceiling(j)
    ensures var r := Continue(bin[i..], ch, j, used);
            if IsContinuation(bin[i]) then
              && ch * 64 + bin[i] % 64 < Ceiling(j - 1) <= 0x8000_0000
              && r == Continue(bin[i + 1..], ch * 64 + bin[i] % 64, j - 1, used + 1)
            else r == Read(QUESTION, used + 1)
  {
    assert bin[i..][0] == bin[i] && bin[i..][1..] == bin[i + 1..];
  }
}
