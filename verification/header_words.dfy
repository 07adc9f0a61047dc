/**
 * Header texts as encoded words and back, src/unistr.c: unistr_utf8_to_header and
 * unistr_header_to_utf8, the "Q" and "B" encodings of section 4 of RFC 2047.
 */
module HeaderWords {
  import opened Bytes
  import Base64
  import Letters
  import Seqs
  import U = Unistr

  type Iconv = (seq<Byte>, seq<Byte>) -> seq<U.Char>

  /** What is behind the buffer of each decoded word, by what the header still had in front of it. */
  type Memory = nat -> U.Behind

  const QUESTION: Byte := 63
  const UNDERSCORE: Byte := 95

  /** The octets of a piece of ASCII text. */
  function Octets(s: string): (r: seq<Byte>)
    requires forall i :: 0 <= i < |s| ==> s[i] < 128 as char
    ensures |r| == |s| && forall i :: 0 <= i < |s| ==> r[i] == s[i] as int
  {
    seq(|s|, i requires 0 <= i < |s| => s[i] as int)
  }

  /** What separates words: " \t\n". */
  predicate IsGap(b: Byte) {
    b == SPACE || b == TAB || b == LF
  }

  predicate IsHex(b: Byte) {
    48 <= b <= 57 || 65 <= b <= 70 || 97 <= b <= 102
  }

  function Lowers(s: seq<Byte>): (r: seq<Byte>)
    ensures |r| == |s| && forall i :: 0 <= i < |s| ==> r[i] == Lower(s[i])
  {
    if s == [] then [] else [Lower(s[0])] + Lowers(s[1..])
  }

  function HexVal(b: Byte): (v: nat)
    ensures v < 16
  {
    if 97 <= Lower(b) <= 102 then 10 + Lower(b) - 97
    else if 48 <= b <= 57 then b - 48
    else 0
  }

  /** What stands in a header as it is. */
  predicate OkInHeader(b: Byte) {
    || 97 <= b <= 122 || 65 <= b <= 90 || 48 <= b <= 57
    || b == 46 || b == 44 || b == 58 || b == 59 || b == 45 || b == SPACE
  }

  /** A hexadecimal digit in either case stands for its place among them, and there are no others. */
  lemma HexPlaces(b: Byte)
    ensures forall n :: 0 <= n < 16 && (b == "0123456789abcdef"[n] as int || b == "0123456789ABCDEF"[n] as int) ==>
              IsHex(b) && HexVal(b) == n
    ensures IsHex(b) ==> b == "0123456789abcdef"[HexVal(b)] as int || b == "0123456789ABCDEF"[HexVal(b)] as int
  {
  }

  /** Letters, digits and a few marks; Lower on octets is that on letters. */
  lemma OkCharacters(b: Byte)
    ensures OkInHeader(b) <==>
              || b as char in Letters.UPPER || b as char in Letters.LOWER
              || b as char in "0123456789" || b as char in ".,:;- "
    ensures Lower(b) == Letters.Lower(b as char) as int
  {
    Letters.Capital(b as char);
    Letters.Small(b as char);
    Letters.InDigits(b as char);
  }

  /** The other character sets that are not left to iconv, for octets that have no meaning in them. */
  lemma InAscii(octets: seq<Byte>, iconv: Iconv, beyond: U.Behind)
    ensures var chars := Characters(Octets("us-ascii"), octets, iconv, beyond);
            && |chars| == |octets|
            && forall i :: 0 <= i < |octets| ==> chars[i] == if octets[i] <= 127 then octets[i] else '?' as int
  {
    LowerAlready(Octets("us-ascii"));
    hide Octets;
  }

  lemma InLatin1(octets: seq<Byte>, iconv: Iconv, beyond: U.Behind)
    ensures var chars := Characters(Octets("iso-8859-1"), octets, iconv, beyond);
            && |chars| == |octets|
            && forall i :: 0 <= i < |octets| ==> chars[i] == if octets[i] != 0 then octets[i] else '?' as int
  {
    LowerAlready(Octets("iso-8859-1"));
    AsciiIsLonger();
    assert |Octets("iso-8859-1")| == 10;
    Utf8();
    hide Octets;
  }

  // ---------------------------------------------------------------- splitting at gaps

  function GapLen(s: seq<Byte>): (n: nat)
    ensures n <= |s| && (forall i :: 0 <= i < n ==> IsGap(s[i])) && (n < |s| ==> !IsGap(s[n]))
  {
    if s != [] && IsGap(s[0]) then 1 + GapLen(s[1..]) else 0
  }

  function WordLen(s: seq<Byte>): (n: nat)
    ensures n <= |s| && (forall i :: 0 <= i < n ==> !IsGap(s[i])) && (n < |s| ==> IsGap(s[n]))
  {
    if s != [] && !IsGap(s[0]) then 1 + WordLen(s[1..]) else 0
  }

  /** The length without the gap at the end. */
  function EndLen(s: seq<Byte>): (n: nat)
    ensures n <= |s| && (forall i :: n <= i < |s| ==> IsGap(s[i])) && (n > 0 ==> !IsGap(s[n - 1]))
  {
    if s != [] && IsGap(s[|s| - 1]) then EndLen(s[..|s| - 1]) else |s|
  }

  function TrimStart(s: seq<Byte>): seq<Byte> {
    s[GapLen(s)..]
  }

  function TrimEnd(s: seq<Byte>): seq<Byte> {
    s[..EndLen(s)]
  }

  function Trim(s: seq<Byte>): seq<Byte> {
    TrimEnd(TrimStart(s))
  }

  // ---------------------------------------------------------------- decoding

  /** strchr: where b is first, or the end of s. */
  function Index(s: seq<Byte>, b: Byte): (n: nat)
    ensures n <= |s| && (forall i :: 0 <= i < n ==> s[i] != b) && (n < |s| ==> s[n] == b)
  {
    if s == [] || s[0] == b then 0 else 1 + Index(s[1..], b)
  }

  /** decode_qp. */
  function DecodeQ(s: seq<Byte>): seq<Byte> {
    if s == [] then []
    else if s[0] == EQUALS && |s| >= 3 && IsHex(s[1]) && IsHex(s[2]) then
      [HexVal(s[1]) * 16 + HexVal(s[2])] + DecodeQ(s[3..])
    else if s[0] == UNDERSCORE then [SPACE] + DecodeQ(s[1..])
    else [s[0]] + DecodeQ(s[1..])
  }

  function DecodeB(s: seq<Byte>): seq<Byte> {
    Base64.AccumulateRun(Base64.Accumulator(0, 0), s).1
  }

  datatype Word =
    | Plain
    | Broken                                             // looks like an encoded word but is none
    | Encoded(charset: seq<Byte>, octets: seq<Byte>)

  /** header_decode_word up to the choice of the character set. */
  function ParseWord(word: seq<Byte>): Word {
    if |word| < 2 || word[0] != EQUALS || word[1] != QUESTION then Plain
    else
      var i := Index(word[2..], QUESTION);
      if i == |word| - 2 then Broken else ParseEncoding(word[2..][..i], word[2..][i + 1..])
  }

  function ParseEncoding(charset: seq<Byte>, s: seq<Byte>): Word {
    var j := Index(s, QUESTION);
    if j == |s| then Broken else ParseText(charset, s[..j], s[j + 1..])
  }

  function ParseText(charset: seq<Byte>, encoding: seq<Byte>, s: seq<Byte>): Word {
    var k := Index(s, QUESTION);
    if k == |s| || s[k + 1..] != [EQUALS] then Broken
    else if encoding != [] && Lower(encoding[0]) == 113 then Encoded(charset, DecodeQ(s[..k]))
    else if encoding != [] && Lower(encoding[0]) == 98 then Encoded(charset, DecodeB(s[..k]))
    else Broken
  }

  /** The characters of a decoded word; other character sets are left to iconv. */
  function Characters(charset: seq<Byte>, octets: seq<Byte>, iconv: Iconv, beyond: U.Behind): seq<U.Char> {
    if Lowers(charset) == Octets("us-ascii") then U.Ascii(octets)
    else if Lowers(charset) == Octets("utf-8") then U.DecodeBefore(octets, beyond)
    else if Lowers(charset) == Octets("iso-8859-1") then U.Latin1(octets)
    else iconv(charset, octets)
  }

  /** A word by itself. */
  function WordText(word: seq<Byte>, iconv: Iconv, beyond: U.Behind): seq<U.Char> {
    match ParseWord(word)
    case Plain => U.Ascii(word)
    case Broken => U.Ascii(Octets("???"))
    case Encoded(charset, octets) => Characters(charset, octets, iconv, beyond)
  }

  predicate IsEncoded(word: seq<Byte>) {
    ParseWord(word).Encoded?
  }

  /** The gap in front of a word; it does not count between two encoded words. */
  function GapText(gap: seq<Byte>, decoded: bool, word: seq<Byte>): seq<U.Char> {
    if decoded && IsEncoded(word) then [] else U.Ascii(gap)
  }

  /** The text of a header from behind a word on: the words with the gaps in front of them, and no gap at the end. */
  function HeaderText(s: seq<Byte>, decoded: bool, iconv: Iconv, mem: Memory): seq<U.Char>
    decreases |s|
  {
    var g := GapLen(s);
    if g == |s| then []
    else
      var n := WordLen(s[g..]);
      var word, rest := s[g..][..n], s[g..][n..];
      GapText(s[..g], decoded, word) + WordText(word, iconv, mem(|s|)) + HeaderText(rest, IsEncoded(word), iconv, mem)
  }

  /** unistr_header_to_utf8. */
  function FromHeader(s: seq<Byte>, iconv: Iconv, mem: Memory): seq<Byte> {
    var text := HeaderText(TrimStart(s), false, iconv, mem);
    if U.Encodable(text) then U.Encode(text) else []
  }

  // ---------------------------------------------------------------- encoding

  /** =?charset?encoding?text?= */
  function EncodedWord(charset: seq<Byte>, encoding: seq<Byte>, text: seq<Byte>): seq<Byte> {
    [EQUALS, QUESTION] + (charset + ([QUESTION] + (encoding + ([QUESTION] + (text + ([QUESTION] + [EQUALS]))))))
  }

  function EscapeByte(b: Byte): (e: seq<Byte>)
    ensures forall i :: 0 <= i < |e| ==> e[i] != QUESTION && !IsGap(e[i])
  {
    if b == SPACE then [UNDERSCORE]
    else if OkInHeader(b) then [b]
    else [EQUALS, HexDigit(b / 16), HexDigit(b % 16)]
  }

  function Escape(s: seq<Byte>): (e: seq<Byte>)
    ensures forall i :: 0 <= i < |e| ==> e[i] != QUESTION && !IsGap(e[i])
  {
    if s == [] then [] else EscapeByte(s[0]) + Escape(s[1..])
  }

  /** Clean texts need no encoding; the gap at the end is looked at too. */
  predicate Clean(s: seq<Byte>) {
    forall i :: 0 <= i < |s| ==> OkInHeader(s[i])
  }

  /** unistr_utf8_to_header. */
  function ToHeader(s: seq<Byte>): seq<Byte> {
    if Clean(TrimStart(s)) then Trim(s)
    else EncodedWord(Octets("utf-8"), Octets("q"), Escape(Trim(s)))
  }

  // ---------------------------------------------------------------- the round trip

  lemma {:induction false} UnescapeByte(b: Byte, rest: seq<Byte>)
    ensures DecodeQ(EscapeByte(b) + rest) == [b] + DecodeQ(rest)
  {
    var e := EscapeByte(b);
    assert (e + rest)[|e|..] == rest;
    if |e| == 3 {
      assert b == b / 16 * 16 + b % 16;
      assert e + rest == [e[0], e[1], e[2]] + rest;
    }
  }

  /** Nothing in an encoded text is lost or added by the "Q" encoding. */
  lemma {:induction false} UnescapeEscape(s: seq<Byte>)
    ensures DecodeQ(Escape(s)) == s
  {
    if s != [] {
      UnescapeByte(s[0], Escape(s[1..]));
      UnescapeEscape(s[1..]);
      assert [s[0]] + s[1..] == s;
    }
  }

  lemma IndexSplit(a: seq<Byte>, b: Byte, rest: seq<Byte>)
    requires b !in a
    ensures var s := a + ([b] + rest);
            Index(s, b) == |a| < |s| && s[..|a|] == a && s[|a| + 1..] == rest
  {
    var s := a + ([b] + rest);
    assert s[|a|] == b;
    assert forall i :: 0 <= i < |a| ==> s[i] == a[i];
  }

  /** Any word put together from parts without question marks is taken apart into them. */
  lemma ParseEncoded(charset: seq<Byte>, encoding: seq<Byte>, text: seq<Byte>)
    requires QUESTION !in charset && QUESTION !in encoding && QUESTION !in text && encoding != []
    ensures ParseWord(EncodedWord(charset, encoding, text)) ==
              if Lower(encoding[0]) == 113 then Encoded(charset, DecodeQ(text))
              else if Lower(encoding[0]) == 98 then Encoded(charset, DecodeB(text))
              else Broken
  {
    hide Index, DecodeQ, DecodeB;
    var t3 := text + ([QUESTION] + [EQUALS]);
    var t2 := encoding + ([QUESTION] + t3);
    var t1 := charset + ([QUESTION] + t2);
    IndexSplit(text, QUESTION, [EQUALS]);
    IndexSplit(encoding, QUESTION, t3);
    assert ParseEncoding(charset, t2) == ParseText(charset, encoding, t3);
    hide ParseText;
    IndexSplit(charset, QUESTION, t2);
    assert ([EQUALS, QUESTION] + t1)[2..] == t1;
  }

  lemma {:induction false} AsciiConcat(s: seq<Byte>, t: seq<Byte>)
    ensures U.Ascii(s + t) == U.Ascii(s) + U.Ascii(t)
  {
  }

  lemma {:induction false} EncodeAscii(s: seq<Byte>)
    requires forall i :: 0 <= i < |s| ==> s[i] <= 0x7F
    ensures U.Encode(U.Ascii(s)) == s
    decreases |s|
  {
    if s != [] {
      EncodeAscii(s[1..]);
      assert U.Ascii(s)[1..] == U.Ascii(s[1..]);
      U.SingleOctet(s[0]);
      assert [s[0]] + s[1..] == s;
    }
  }

  /** A clean text that does not end in a gap is read as it stands. */
  lemma {:induction false} CleanText(s: seq<Byte>, iconv: Iconv, mem: Memory)
    requires Clean(s) && (s != [] ==> !IsGap(s[|s| - 1]))
    ensures HeaderText(s, false, iconv, mem) == U.Ascii(s)
    decreases |s|
  {
    hide ParseWord, OkInHeader, GapLen, WordLen, U.Ascii, HeaderText, Clean, IsGap;
    var g := GapLen(s);
    if g < |s| {
      var n := WordLen(s[g..]);
      HeaderStep(s, false, iconv, mem);
      CleanParts(s, g, n);
      PlainWord(s[g..][..n]);
      CleanText(s[g..][n..], iconv, mem);
      CleanJoined(s, g, n);
    } else {
      NothingBehind(s, iconv, mem);
    }
  }

  lemma NothingBehind(s: seq<Byte>, iconv: Iconv, mem: Memory)
    requires GapLen(s) == |s| && (s != [] ==> !IsGap(s[|s| - 1]))
    ensures HeaderText(s, false, iconv, mem) == U.Ascii(s)
  {
  }

  lemma CleanParts(s: seq<Byte>, g: nat, n: nat)
    requires Clean(s) && s != [] && !IsGap(s[|s| - 1])
    requires g < |s| && 0 < n <= |s| - g
    ensures var word, rest := s[g..][..n], s[g..][n..];
            && word != [] && OkInHeader(word[0])
            && Clean(rest) && (rest != [] ==> !IsGap(rest[|rest| - 1]))
  {
    hide OkInHeader, IsGap;
    Seqs.Behind(s, g, n);
    assert s[g..][..n][0] == s[g];
  }

  lemma PlainWord(word: seq<Byte>)
    requires word != [] && OkInHeader(word[0])
    ensures ParseWord(word) == Plain
  {
  }

  lemma CleanJoined(s: seq<Byte>, g: nat, n: nat)
    requires g + n <= |s|
    ensures U.Ascii(s[..g]) + U.Ascii(s[g..][..n]) + U.Ascii(s[g..][n..]) == U.Ascii(s)
  {
    hide *;
    AsciiConcat(s[..g], s[g..][..n]);
    AsciiConcat(s[..g] + s[g..][..n], s[g..][n..]);
    Seqs.Assoc(s[..g], s[g..][..n], s[g..][n..]);
    Seqs.Rejoin(s[g..], n);
    Seqs.Rejoin(s, g);
  }

  lemma CleanOctets(s: seq<Byte>)
    requires Clean(s)
    ensures forall i :: 0 <= i < |s| ==> s[i] <= 0x7F
    ensures U.WellFormed(s)
    decreases |s|
  {
    if s != [] {
      assert OkInHeader(s[0]);
      assert U.After(s) == s[1..];
      CleanOctets(s[1..]);
    }
  }

  /** A header that is one encoded word. */
  lemma OneWord(h: seq<Byte>, charset: seq<Byte>, octets: seq<Byte>, iconv: Iconv, mem: Memory)
    requires h != [] && (forall i :: 0 <= i < |h| ==> !IsGap(h[i]))
    requires ParseWord(h) == Encoded(charset, octets)
    ensures GapLen(h) == 0 && HeaderText(h, false, iconv, mem) == Characters(charset, octets, iconv, mem(|h|))
  {
    hide ParseWord, Characters, HeaderText, GapText;
    assert GapLen(h) == 0 && WordLen(h) == |h|;
    hide GapLen, WordLen, IsGap;
    WholeOf(h);
    HeaderStep(h, false, iconv, mem);
    NoText(h, true, iconv, mem);
    Seqs.Unit(Characters(charset, octets, iconv, mem(|h|)));
  }

  lemma WholeOf(h: seq<Byte>)
    ensures h[0..] == h && h[..|h|] == h && h[|h|..] == [] && h[..0] == []
  {
  }

  lemma NoText(word: seq<Byte>, decoded: bool, iconv: Iconv, mem: Memory)
    ensures HeaderText([], decoded, iconv, mem) == [] && GapText([], false, word) == []
  {
  }

  lemma IsUtf8(charset: seq<Byte>)
    requires charset == Octets("utf-8")
    ensures QUESTION !in charset && forall i :: 0 <= i < |charset| ==> !IsGap(charset[i])
    ensures Lowers(charset) == charset && charset != Octets("us-ascii")
  {
    Utf8();
    AsciiIsLonger();
    hide Octets, IsGap;
    Ordinary(charset);
  }

  lemma Ordinary(s: seq<Byte>)
    requires s == [117, 116, 102, 45, 56]
    ensures QUESTION !in s && (forall i :: 0 <= i < |s| ==> !IsGap(s[i])) && Lowers(s) == s
  {
    hide Lowers;
    assert forall i :: 0 <= i < |s| ==> s[i] == 117 || s[i] == 116 || s[i] == 102 || s[i] == 45 || s[i] == 56;
    LowerAlready(s);
  }

  lemma Utf8()
    ensures Octets("utf-8") == [117, 116, 102, 45, 56]
  {
  }

  lemma AsciiIsLonger()
    ensures |Octets("us-ascii")| == 8
  {
  }

  lemma LowerAlready(s: seq<Byte>)
    requires forall i :: 0 <= i < |s| ==> !(65 <= s[i] <= 90)
    ensures Lowers(s) == s
  {
  }

  /** An encoded word of octets in UTF-8 gives their characters, however they are encoded. */
  lemma EncodedText(encoding: seq<Byte>, text: seq<Byte>, t: seq<Byte>, iconv: Iconv, mem: Memory)
    requires (encoding == [113] && t == DecodeQ(text)) || (encoding == [98] && t == DecodeB(text))
    requires QUESTION !in text && forall b :: b in text ==> !IsGap(b)
    ensures var h := EncodedWord(Octets("utf-8"), encoding, text);
            GapLen(h) == 0 && HeaderText(h, false, iconv, mem) == U.DecodeBefore(t, mem(|h|))
  {
    var charset := Octets("utf-8");
    IsUtf8(charset);
    hide *;
    EncodedIn(charset, encoding, text, t, iconv, mem);
    InUtf8(charset, t, iconv, mem(|EncodedWord(charset, encoding, text)|));
  }

  lemma EncodedIn(charset: seq<Byte>, encoding: seq<Byte>, text: seq<Byte>, t: seq<Byte>, iconv: Iconv, mem: Memory)
    requires (encoding == [113] && t == DecodeQ(text)) || (encoding == [98] && t == DecodeB(text))
    requires QUESTION !in text && QUESTION !in charset && forall b :: b in text || b in charset ==> !IsGap(b)
    ensures var h := EncodedWord(charset, encoding, text);
            GapLen(h) == 0 && HeaderText(h, false, iconv, mem) == Characters(charset, t, iconv, mem(|h|))
  {
    NotGaps(encoding);
    hide *;
    ParseEncoded(charset, encoding, text);
    NoGaps(charset, encoding, text);
    OneWord(EncodedWord(charset, encoding, text), charset, t, iconv, mem);
  }

  lemma EncodingNames()
    ensures Octets("q") == [113] && Octets("b") == [98]
  {
  }

  lemma NotGaps(encoding: seq<Byte>)
    requires encoding == [113] || encoding == [98]
    ensures QUESTION !in encoding && encoding != [] && Lower(encoding[0]) == encoding[0]
    ensures forall b :: b in encoding ==> !IsGap(b)
  {
  }

  lemma InUtf8(charset: seq<Byte>, octets: seq<Byte>, iconv: Iconv, beyond: U.Behind)
    requires charset == Octets("utf-8")
    ensures Characters(charset, octets, iconv, beyond) == U.DecodeBefore(octets, beyond)
  {
    IsUtf8(charset);
    hide Octets, Lowers;
  }

  /** Decoding base64 undoes encoding it, with its lines or all on one. */
  lemma DecodeBOfText(s: seq<Byte>, column: nat)
    ensures DecodeB(Base64.Text(s, column)) == s
    ensures DecodeB(Base64.Unfolded(Base64.Text(s, column))) == s
  {
    var start := Base64.Accumulator(0, 0);
    Base64.AccumulateUnfolded(start, Base64.Text(s, column));
    Base64.AccumulateOfText(start, s, column);
  }

  /**
   * The base64 form of any octets, in an encoded word, gives them back exactly if they are well-formed UTF-8. A text
   * that has no line ends is taken as it is.
   */
  lemma Base64RoundTrip(s: seq<Byte>, iconv: Iconv, mem: Memory)
    ensures var text := Base64.Text(s, 0);
            && (FromHeader(EncodedWord(Octets("utf-8"), Octets("b"), Base64.Unfolded(text)), iconv, mem) == s
                <==> U.WellFormed(s))
            && (Base64.OnOneLine(text) ==> Base64.Unfolded(text) == text)
  {
    hide HeaderText, EncodedWord, Octets, DecodeB, DecodeQ, Base64.Text, Base64.Unfolded, U.DecodeBefore, U.Encode;
    var text := Base64.Unfolded(Base64.Text(s, 0));
    DecodeBOfText(s, 0);
    Base64.TextBare(s, 0);
    if Base64.OnOneLine(Base64.Text(s, 0)) {
      Base64.UnfoldedLine(Base64.Text(s, 0));
    }
    EncodingNames();
    EncodedText([98], text, s, iconv, mem);
    var h := EncodedWord(Octets("utf-8"), Octets("b"), text);
    assert h[0..] == h;
    U.ReencodeBefore(s, mem(|h|));
  }

  lemma NoGaps(charset: seq<Byte>, encoding: seq<Byte>, text: seq<Byte>)
    requires forall b :: b in charset || b in encoding || b in text ==> !IsGap(b)
    ensures forall b :: b in EncodedWord(charset, encoding, text) ==> !IsGap(b)
    ensures EncodedWord(charset, encoding, text) != []
  {
  }

  /**
   * Encoding a string and decoding the header gives the string trimmed of blanks exactly if that is
   * well-formed UTF-8 of characters that round-trip; clean strings always are.
   */
  lemma HeaderRoundTrip(s: seq<Byte>, iconv: Iconv, mem: Memory)
    ensures FromHeader(ToHeader(s), iconv, mem) == Trim(s) <==> U.WellFormed(Trim(s))
    ensures Clean(TrimStart(s)) ==> U.WellFormed(Trim(s))
  {
    if Clean(TrimStart(s)) {
      CleanRoundTrip(s, iconv, mem);
    } else {
      var t := Trim(s);
      UnescapeEscape(t);
      EncodingNames();
      EncodedText([113], Escape(t), t, iconv, mem);
      hide HeaderText, EncodedWord, Escape, Octets, U.DecodeBefore, U.Encode, EndLen;
      var h := ToHeader(s);
      assert h[0..] == h;
      U.ReencodeBefore(t, mem(|h|));
    }
  }

  lemma CleanRoundTrip(s: seq<Byte>, iconv: Iconv, mem: Memory)
    requires Clean(TrimStart(s))
    ensures ToHeader(s) == Trim(s) && FromHeader(Trim(s), iconv, mem) == Trim(s)
    ensures U.WellFormed(Trim(s))
  {
    hide EndLen, GapLen, TrimStart, FromHeader, U.WellFormed;
    TrimEnds(s);
    CleanDecoded(Trim(s), iconv, mem);
  }

  lemma CleanDecoded(t: seq<Byte>, iconv: Iconv, mem: Memory)
    requires Clean(t) && GapLen(t) == 0 && (t != [] ==> !IsGap(t[|t| - 1]))
    ensures FromHeader(t, iconv, mem) == t
    ensures U.WellFormed(t)
  {
    hide HeaderText, U.Ascii, U.Encode, GapLen, U.WellFormed, Clean;
    assert t[0..] == t;
    CleanOctets(t);
    CleanText(t, iconv, mem);
    EncodeAscii(t);
  }

  lemma TrimEnds(s: seq<Byte>)
    ensures var t := Trim(s);
            && GapLen(t) == 0 && (t != [] ==> !IsGap(t[|t| - 1]))
            && (Clean(TrimStart(s)) ==> Clean(t))
  {
    var u, t := TrimStart(s), Trim(s);
    assert forall i :: 0 <= i < |t| ==> t[i] == u[i];
  }

  // ---------------------------------------------------------------- several words

  /** A word with the gap in front of it, and the octets in UTF-8 it stands for. */
  datatype Item = Item(gap: seq<Byte>, word: seq<Byte>, encoded: bool, octets: seq<Byte>)

  ghost predicate ItemOk(x: Item) {
    && (forall i :: 0 <= i < |x.gap| ==> IsGap(x.gap[i]))
    && x.word != [] && (forall i :: 0 <= i < |x.word| ==> !IsGap(x.word[i]))
    && U.WellFormed(x.octets)
    && if x.encoded then ParseWord(x.word) == Encoded(Octets("utf-8"), x.octets)
       else !([EQUALS, QUESTION] <= x.word) && x.octets == x.word && forall i :: 0 <= i < |x.word| ==> x.word[i] <= 0x7F
  }

  /** All words but the first have a gap in front of them. */
  ghost predicate ItemsOk(items: seq<Item>) {
    (forall i :: 0 <= i < |items| ==> ItemOk(items[i])) && forall i :: 0 < i < |items| ==> items[i].gap != []
  }

  function Spelled(items: seq<Item>): seq<Byte> {
    if items == [] then [] else items[0].gap + (items[0].word + Spelled(items[1..]))
  }

  /** What is read: the gaps count but for those between two encoded words. */
  function Told(items: seq<Item>, decoded: bool): seq<Byte> {
    if items == [] then []
    else (if decoded && items[0].encoded then [] else items[0].gap) + items[0].octets
         + Told(items[1..], items[0].encoded)
  }

  /** A header of plain and encoded words in any order is read word by word. */
  lemma WordsAndGaps(items: seq<Item>, iconv: Iconv, mem: Memory)
    requires ItemsOk(items) && (items != [] ==> items[0].gap == [])
    ensures FromHeader(Spelled(items), iconv, mem) == Told(items, false)
  {
    ItemsRead(items, false, iconv, mem);
    hide HeaderText, U.Encode, Told;
    var s := Spelled(items);
    assert TrimStart(s) == s by {
      if items != [] {
        assert s[0] == items[0].word[0];
      }
    }
  }

  lemma {:induction false} ItemsRead(items: seq<Item>, decoded: bool, iconv: Iconv, mem: Memory)
    requires ItemsOk(items)
    ensures var text := HeaderText(Spelled(items), decoded, iconv, mem);
            U.Encodable(text) && U.Encode(text) == Told(items, decoded)
  {
    if items != [] {
      var x, rest := items[0], Spelled(items[1..]);
      RestBegins(items[1..]);
      ItemsRead(items[1..], x.encoded, iconv, mem);
      hide *;
      OneItem(x, rest, decoded, iconv, mem);
      EncodeThree(GapText(x.gap, decoded, x.word), WordText(x.word, iconv, mem(|x.gap + (x.word + rest)|)),
                  HeaderText(rest, x.encoded, iconv, mem));
    }
  }

  lemma RestBegins(items: seq<Item>)
    requires ItemsOk(items) && (items != [] ==> items[0].gap != [])
    ensures Spelled(items) != [] ==> IsGap(Spelled(items)[0])
  {
  }

  lemma OneItem(x: Item, rest: seq<Byte>, decoded: bool, iconv: Iconv, mem: Memory)
    requires ItemOk(x) && (rest != [] ==> IsGap(rest[0]))
    ensures var s := x.gap + (x.word + rest);
            && HeaderText(s, decoded, iconv, mem)
               == GapText(x.gap, decoded, x.word) + WordText(x.word, iconv, mem(|s|))
                  + HeaderText(rest, x.encoded, iconv, mem)
            && U.Encodable(GapText(x.gap, decoded, x.word)) && U.Encodable(WordText(x.word, iconv, mem(|s|)))
            && U.Encode(GapText(x.gap, decoded, x.word)) == (if decoded && x.encoded then [] else x.gap)
            && U.Encode(WordText(x.word, iconv, mem(|s|))) == x.octets
  {
    hide HeaderText, ParseWord;
    var s := x.gap + (x.word + rest);
    Cuts(x.gap, x.word, rest);
    HeaderStep(s, decoded, iconv, mem);
    ItemRead(x, iconv, mem(|s|));
    hide WordText;
    EncodeAscii(x.gap);
  }

  lemma Cuts(gap: seq<Byte>, word: seq<Byte>, rest: seq<Byte>)
    requires (forall i :: 0 <= i < |gap| ==> IsGap(gap[i])) && word != []
    requires (forall i :: 0 <= i < |word| ==> !IsGap(word[i])) && (rest != [] ==> IsGap(rest[0]))
    ensures var s := gap + (word + rest);
            && GapLen(s) == |gap| < |s| && s[..|gap|] == gap && s[|gap|..] == word + rest
            && WordLen(word + rest) == |word| && (word + rest)[..|word|] == word && (word + rest)[|word|..] == rest
  {
    var s := gap + (word + rest);
    assert s[|gap|] == word[0];
    assert forall i :: 0 <= i < |gap| ==> s[i] == gap[i];
    var t := word + rest;
    assert forall i :: 0 <= i < |word| ==> t[i] == word[i];
    assert rest != [] ==> t[|word|] == rest[0];
    hide IsGap;
  }

  lemma ItemRead(x: Item, iconv: Iconv, beyond: U.Behind)
    requires ItemOk(x)
    ensures IsEncoded(x.word) == x.encoded
    ensures U.Encodable(WordText(x.word, iconv, beyond)) && U.Encode(WordText(x.word, iconv, beyond)) == x.octets
  {
    hide ParseWord, Characters, Octets, U.Encode, U.WellFormed, IsGap, U.Ascii, U.DecodeBefore;
    if x.encoded {
      InUtf8(Octets("utf-8"), x.octets, iconv, beyond);
      U.ReencodeBefore(x.octets, beyond);
    } else {
      NotEncoded(x.word);
      EncodeAscii(x.word);
    }
  }

  lemma NotEncoded(word: seq<Byte>)
    requires !([EQUALS, QUESTION] <= word)
    ensures ParseWord(word) == Plain
  {
  }

  lemma EncodeThree(a: seq<U.Char>, b: seq<U.Char>, c: seq<U.Char>)
    requires U.Encodable(a) && U.Encodable(b) && U.Encodable(c)
    ensures U.Encodable(a + b + c) && U.Encode(a + b + c) == U.Encode(a) + U.Encode(b) + U.Encode(c)
  {
    U.EncodeConcat(a, b);
    U.EncodeConcat(a + b, c);
  }

  // ---------------------------------------------------------------- the program

  /** decode_qp: the buffer has the size of the encoded text, which is never shorter. */
  method DecodeQp(str: seq<Byte>) returns (binary: array<Byte>, binLen: nat)
    ensures fresh(binary) && binary.Length == |str| && binLen <= |str|
    ensures binary[..binLen] == DecodeQ(str)
  {
    binary, binLen := new Byte[|str|], 0;
    var i := 0;
    assert str[0..] == str && binary[..0] == [];
    while i < |str|
      invariant binLen <= i <= |str|
      invariant binary[..binLen] + DecodeQ(str[i..]) == DecodeQ(str)
    {
      ghost var rest := str[i..];
      var b, used := str[i], 1;
      if str[i] == EQUALS && i + 2 < |str| && IsHex(str[i + 1]) && IsHex(str[i + 2]) {
        b, used := HexVal(str[i + 1]) * 16 + HexVal(str[i + 2]), 3;
      } else if str[i] == UNDERSCORE {
        b := SPACE;
      }
      assert rest[used..] == str[i + used..];
      assert DecodeQ(rest) == [b] + DecodeQ(str[i + used..]);
      hide DecodeQ;
      ghost var before := binary[..binLen];
      Seqs.Assoc(before, [b], DecodeQ(str[i + used..]));
      binary[binLen] := b;
      assert binary[..binLen + 1] == before + [b];
      binLen := binLen + 1;
      i := i + used;
    }
    Seqs.Unit(binary[..binLen]);
  }

  /** decode_base64, on a 32-bit accumulator. */
  method DecodeBase64(str: seq<Byte>) returns (binary: array<Byte>, binLen: nat)
    ensures fresh(binary) && binary.Length == |str| && binLen <= |str|
    ensures binary[..binLen] == DecodeB(str)
  {
    binary, binLen := new Byte[|str|], 0;
    var out: nat, bits: nat := 0, 0;
    var i := 0;
    assert binary[..0] == [];
    while i < |str|
      invariant binLen <= i <= |str|
      invariant Base64.AccumulateRun(Base64.Accumulator(0, 0), str[..i])
                == (Base64.Accumulator(out, bits), binary[..binLen])
    {
      var val := Base64.Decode64(str[i]);
      assert str[..i + 1] == str[..i] + [str[i]];
      Base64.AccumulateSnoc(Base64.Accumulator(0, 0), str[..i], str[i]);
      hide Base64.AccumulateRun;
      Seqs.Unit(binary[..binLen]);
      i := i + 1;
      if val == EOF { continue; }
      out := out * 64 % Base64.UINT_RANGE + val;
      bits := bits + 6;
      if bits >= 8 {
        ghost var before := binary[..binLen];
        binary[binLen] := Base64.ShiftRight(out, bits - 8) % 256;
        assert binary[..binLen + 1] == before + [binary[binLen]];
        binLen := binLen + 1;
        bits := bits - 8;
      }
    }
    assert str[..i] == str;
  }

  /** strchr from a position on. */
  method Find(s: seq<Byte>, b: Byte) returns (n: nat)
    ensures n == Index(s, b)
  {
    n := 0;
    while n < |s| && s[n] != b
      invariant n <= |s| && forall i :: 0 <= i < n ==> s[i] != b
    {
      n := n + 1;
    }
  }

  method SkipGap(s: seq<Byte>, at: nat) returns (p: nat)
    requires at <= |s|
    ensures p == at + GapLen(s[at..])
  {
    p := at;
    while p < |s| && IsGap(s[p])
      invariant at <= p <= |s| && forall i :: at <= i < p ==> IsGap(s[i])
    {
      p := p + 1;
    }
    assert forall i :: 0 <= i < p - at ==> s[at..][i] == s[at + i];
    assert p < |s| ==> s[at..][p - at] == s[p];
  }

  method SkipWord(s: seq<Byte>, at: nat) returns (p: nat)
    requires at <= |s|
    ensures p == at + WordLen(s[at..])
  {
    p := at;
    while p < |s| && !IsGap(s[p])
      invariant at <= p <= |s| && forall i :: at <= i < p ==> !IsGap(s[i])
    {
      p := p + 1;
    }
    assert forall i :: 0 <= i < p - at ==> s[at..][i] == s[at + i];
    assert p < |s| ==> s[at..][p - at] == s[p];
  }

  /** What header_decode_word appends: the gap counts only if the word is not encoded. */
  function Appended(gap: seq<Byte>, word: seq<Byte>, iconv: Iconv, beyond: U.Behind): seq<U.Char> {
    if IsEncoded(word) then WordText(word, iconv, beyond) else U.Ascii(gap) + WordText(word, iconv, beyond)
  }

  /** header_decode_word. */
  method DecodeWord(gap: seq<Byte>, word: seq<Byte>, us: U.UniStr, iconv: Iconv, beyond: U.Behind)
    returns (decoded: bool)
    requires us.Valid()
    modifies us, us.chars
    ensures us.Valid() && (us.chars == old(us.chars) || fresh(us.chars))
    ensures us.Contents() == old(us.Contents()) + Appended(gap, word, iconv, beyond)
    ensures decoded == IsEncoded(word)
  {
    hide Index, ParseText, U.Ascii, Characters, Octets;
    if |word| < 2 || word[0] != EQUALS || word[1] != QUESTION {
      us.AppendUsascii(gap + word);
      AsciiConcat(gap, word);
      return false;
    }
    var charset := word[2..];
    var i := Find(charset, QUESTION);
    if i == |charset| {
      AppendBroken(gap, us);
      return false;
    }
    var encoding := charset[i + 1..];
    charset := charset[..i];
    var j := Find(encoding, QUESTION);
    if j == |encoding| {
      AppendBroken(gap, us);
      return false;
    }
    var text := encoding[j + 1..];
    encoding := encoding[..j];
    assert ParseWord(word) == ParseText(charset, encoding, text);
    decoded := DecodeText(gap, word, charset, encoding, text, us, iconv, beyond);
  }

  method AppendBroken(gap: seq<Byte>, us: U.UniStr)
    requires us.Valid()
    modifies us, us.chars
    ensures us.Valid() && (us.chars == old(us.chars) || fresh(us.chars))
    ensures us.Contents() == old(us.Contents()) + (U.Ascii(gap) + U.Ascii(Octets("???")))
  {
    us.AppendUsascii(gap);
    us.AppendUsascii(Octets("???"));
    Seqs.Assoc(old(us.Contents()), U.Ascii(gap), U.Ascii(Octets("???")));
  }

  method DecodeText(gap: seq<Byte>, ghost word: seq<Byte>, charset: seq<Byte>, encoding: seq<Byte>, text: seq<Byte>,
                    us: U.UniStr, iconv: Iconv, beyond: U.Behind) returns (decoded: bool)
    requires us.Valid() && ParseWord(word) == ParseText(charset, encoding, text)
    modifies us, us.chars
    ensures us.Valid() && (us.chars == old(us.chars) || fresh(us.chars))
    ensures us.Contents() == old(us.Contents()) + Appended(gap, word, iconv, beyond)
    ensures decoded == IsEncoded(word)
  {
    hide ParseWord, Index, DecodeQ, DecodeB, U.Ascii;
    var k := Find(text, QUESTION);
    if k == |text| || text[k + 1..] != [EQUALS] {
      AppendBroken(gap, us);
      return false;
    }
    var binary, binLen;
    if encoding != [] && Lower(encoding[0]) == 113 {
      binary, binLen := DecodeQp(text[..k]);
    } else if encoding != [] && Lower(encoding[0]) == 98 {
      binary, binLen := DecodeBase64(text[..k]);
    } else {
      AppendBroken(gap, us);
      return false;
    }
    AppendCharacters(charset, binary[..binLen], us, iconv, beyond);
    decoded := true;
  }

  method AppendCharacters(charset: seq<Byte>, octets: seq<Byte>, us: U.UniStr, iconv: Iconv, beyond: U.Behind)
    requires us.Valid()
    modifies us, us.chars
    ensures us.Valid() && (us.chars == old(us.chars) || fresh(us.chars))
    ensures us.Contents() == old(us.Contents()) + Characters(charset, octets, iconv, beyond)
  {
    hide Octets;
    if Lowers(charset) == Octets("us-ascii") {
      us.AppendUsascii(octets);
    } else if Lowers(charset) == Octets("utf-8") {
      us.AppendUtf8(octets, beyond);
    } else if Lowers(charset) == Octets("iso-8859-1") {
      us.AppendIso88591(octets);
    } else {
      us.AppendChars(iconv(charset, octets));
    }
  }

  /** Appending the gap first, or leaving it to header_decode_word, comes to the same. */
  lemma GapOnce(gap: seq<Byte>, decoded: bool, word: seq<Byte>, iconv: Iconv, beyond: U.Behind)
    ensures (if decoded then [] else U.Ascii(gap)) + Appended(if decoded then gap else [], word, iconv, beyond)
            == GapText(gap, decoded, word) + WordText(word, iconv, beyond)
  {
    hide WordText, IsEncoded;
    assert U.Ascii([]) == [];
    Seqs.Unit(WordText(word, iconv, beyond));
    Seqs.Unit(Appended(gap, word, iconv, beyond));
  }

  lemma GapAtStart(s: seq<Byte>)
    ensures GapLen(TrimStart(s)) == 0
  {
    if TrimStart(s) != [] {
      assert TrimStart(s)[0] == s[GapLen(s)];
    }
  }

  /** unistr_header_to_utf8: the octets and a NUL. */
  method HeaderToUtf8(str: seq<Byte>, iconv: Iconv, mem: Memory) returns (ret: array<Byte>)
    ensures ret[..] == FromHeader(str, iconv, mem) + [0]
  {
    var us := new U.UniStr();
    var p := SkipGap(str, 0);
    assert str[0..] == str;
    var wsp, decoded := p, false;
    GapAtStart(str);
    while p < |str|
      invariant wsp <= p <= |str| && p == wsp + GapLen(str[wsp..])
      invariant us.Valid() && fresh(us) && fresh(us.chars)
      invariant us.Contents() + HeaderText(str[wsp..], decoded, iconv, mem)
                == HeaderText(TrimStart(str), false, iconv, mem)
      decreases |str| - wsp
    {
      wsp, decoded := Step(str, wsp, p, decoded, us, iconv, mem);
      p := SkipGap(str, wsp);
    }
    Seqs.Unit(us.Contents());
    ret := us.ToUtf8();
  }

  /** The loop body: the word at p, behind the gap at wsp. */
  method Step(str: seq<Byte>, wsp: nat, p: nat, wasDecoded: bool, us: U.UniStr, iconv: Iconv,
              mem: Memory)
    returns (end: nat, decoded: bool)
    requires wsp <= p < |str| && p == wsp + GapLen(str[wsp..])
    requires us.Valid()
    modifies us, us.chars
    ensures us.Valid() && (us.chars == old(us.chars) || fresh(us.chars))
    ensures p < end <= |str|
    ensures us.Contents() + HeaderText(str[end..], decoded, iconv, mem)
            == old(us.Contents()) + HeaderText(str[wsp..], wasDecoded, iconv, mem)
  {
    hide HeaderText, IsEncoded, WordText, GapLen, WordLen, GapText;
    end := SkipWord(str, p);
    StepMeaning(str, wsp, p, wasDecoded, iconv, mem);
    ghost var rest := HeaderText(str[end..], IsEncoded(str[p..end]), iconv, mem);
    decoded := TakeWord(str[wsp..p], wasDecoded, str[p..end], us, iconv, mem(|str| - wsp));
    ghost var taken := GapText(str[wsp..p], wasDecoded, str[p..end]) + WordText(str[p..end], iconv, mem(|str| - wsp));
    Seqs.Assoc(old(us.Contents()), taken, rest);
  }

  lemma HeaderStep(s: seq<Byte>, decoded: bool, iconv: Iconv, mem: Memory)
    requires GapLen(s) < |s|
    ensures var g, n := GapLen(s), WordLen(s[GapLen(s)..]);
            && HeaderText(s, decoded, iconv, mem)
               == GapText(s[..g], decoded, s[g..][..n]) + WordText(s[g..][..n], iconv, mem(|s|))
                  + HeaderText(s[g..][n..], IsEncoded(s[g..][..n]), iconv, mem)
            && n > 0
  {
    assert s[GapLen(s)..][0] == s[GapLen(s)];
    hide GapText, WordText, IsEncoded, GapLen, WordLen;
  }

  lemma StepMeaning(str: seq<Byte>, wsp: nat, p: nat, decoded: bool, iconv: Iconv, mem: Memory)
    requires wsp <= p < |str| && p == wsp + GapLen(str[wsp..])
    ensures var end := p + WordLen(str[p..]);
            && p < end && WordLen(str[p..]) <= |str[p..]|
            && HeaderText(str[wsp..], decoded, iconv, mem)
               == GapText(str[wsp..p], decoded, str[p..end]) + WordText(str[p..end], iconv, mem(|str| - wsp))
                  + HeaderText(str[end..], IsEncoded(str[p..end]), iconv, mem)
  {
    hide *;
    var s, t := str[wsp..], str[p..];
    var g, n := p - wsp, WordLen(str[p..]);
    Seqs.Behind(str, wsp, g);
    Seqs.Behind(str, p, n);
    assert s[g..] == t && s[..g] == str[wsp..p];
    assert t[..n] == str[p..p + n] && t[n..] == str[p + n..];
    HeaderStep(s, decoded, iconv, mem);
  }

  method TakeWord(gap: seq<Byte>, wasDecoded: bool, word: seq<Byte>, us: U.UniStr, iconv: Iconv,
                  beyond: U.Behind)
    returns (decoded: bool)
    requires us.Valid()
    modifies us, us.chars
    ensures us.Valid() && (us.chars == old(us.chars) || fresh(us.chars))
    ensures us.Contents() == old(us.Contents()) + (GapText(gap, wasDecoded, word) + WordText(word, iconv, beyond))
    ensures decoded == IsEncoded(word)
  {
    hide WordText, IsEncoded, GapText, Appended;
    GapOnce(gap, wasDecoded, word, iconv, beyond);
    if wasDecoded {
      decoded := DecodeWord(gap, word, us, iconv, beyond);
      Seqs.Unit(Appended(gap, word, iconv, beyond));
    } else {
      us.AppendUsascii(gap);
      decoded := DecodeWord([], word, us, iconv, beyond);
      Seqs.Assoc(old(us.Contents()), U.Ascii(gap), Appended([], word, iconv, beyond));
    }
  }

  /** unistr_utf8_to_header: the octets and a NUL. */
  method Utf8ToHeader(str: seq<Byte>) returns (ret: array<Byte>)
    ensures ret[..] == ToHeader(str) + [0]
  {
    var start := SkipGap(str, 0);
    assert str[0..] == str;
    var s := str[start..];
    var clean, end := Inspect(s);
    var t := s[..end];
    hide EndLen, Escape;
    if clean {
      ret := StrDup(t);
    } else {
      ret := EncodeText(t);
    }
  }

  method StrDup(s: seq<Byte>) returns (ret: array<Byte>)
    ensures ret[..] == s + [0]
  {
    ret := new Byte[|s| + 1];
    forall i | 0 <= i < |s| {
      ret[i] := s[i];
    }
    ret[|s|] := 0;
  }

  method EncodeText(t: seq<Byte>) returns (ret: array<Byte>)
    ensures ret[..] == EncodedWord(Octets("utf-8"), Octets("q"), Escape(t)) + [0]
  {
    hide U.Ascii, U.Encode;
    var us := new U.UniStr();
    var prefix := Octets("=?utf-8?q?");
    us.AppendUsascii(prefix);
    Seqs.Unit(U.Ascii(prefix));
    ghost var text := Escape(t);
    AppendEscapes(t, us);
    AsciiConcat(prefix, text);
    us.AppendUsascii(Octets("?="));
    AsciiConcat(prefix + text, Octets("?="));
    EscapedIsAscii(t);
    EncodeAscii(prefix + text + Octets("?="));
    Pieces(text);
    hide Octets, Escape, EncodedWord;
    ret := us.ToUtf8();
  }

  method AppendEscapes(t: seq<Byte>, us: U.UniStr)
    requires us.Valid()
    modifies us, us.chars
    ensures us.Valid() && (us.chars == old(us.chars) || fresh(us.chars))
    ensures us.Contents() == old(us.Contents()) + U.Ascii(Escape(t))
  {
    ghost var done: seq<Byte> := [];
    var i := 0;
    assert t[0..] == t;
    Seqs.Unit(Escape(t));
    Seqs.Unit(us.Contents());
    assert U.Ascii(done) == [];
    while i < |t|
      invariant i <= |t| && us.Valid() && (us.chars == old(us.chars) || fresh(us.chars))
      invariant us.Contents() == old(us.Contents()) + U.Ascii(done)
      invariant done + Escape(t[i..]) == Escape(t)
    {
      hide U.Ascii, EscapeByte;
      AppendEscaped(t[i], us);
      Seqs.Assoc(old(us.Contents()), U.Ascii(done), U.Ascii(EscapeByte(t[i])));
      AsciiConcat(done, EscapeByte(t[i]));
      assert t[i..][1..] == t[i + 1..];
      Seqs.Assoc(done, EscapeByte(t[i]), Escape(t[i + 1..]));
      done := done + EscapeByte(t[i]);
      i := i + 1;
    }
    Seqs.Unit(done);
  }

  /** The loop that looks for a dirty character and for the gap at the end. */
  method Inspect(s: seq<Byte>) returns (clean: bool, end: nat)
    ensures clean <==> Clean(s)
    ensures end == EndLen(s)
  {
    clean := true;
    var wsp: int := -1;   // NULL
    var p := 0;
    while p < |s|
      invariant p <= |s| && -1 <= wsp < p
      invariant clean <==> forall i :: 0 <= i < p ==> OkInHeader(s[i])
      invariant wsp >= 0 ==> (forall i :: wsp <= i < p ==> IsGap(s[i])) && (wsp > 0 ==> !IsGap(s[wsp - 1]))
      invariant wsp < 0 && p > 0 ==> !IsGap(s[p - 1])
    {
      if IsGap(s[p]) {
        if wsp < 0 { wsp := p; }
      } else {
        wsp := -1;
      }
      if clean && !OkInHeader(s[p]) { clean := false; }
      p := p + 1;
    }
    end := if wsp >= 0 then wsp else |s|;
  }

  method AppendEscaped(b: Byte, us: U.UniStr)
    requires us.Valid()
    modifies us, us.chars
    ensures us.Valid() && (us.chars == old(us.chars) || fresh(us.chars))
    ensures us.Contents() == old(us.Contents()) + U.Ascii(EscapeByte(b))
  {
    if b == SPACE {
      us.AppendChar(UNDERSCORE);
    } else if OkInHeader(b) {
      us.AppendChar(b);
    } else {
      us.AppendUsascii([EQUALS, HexDigit(b / 16), HexDigit(b % 16)]);
    }
  }

  lemma {:induction false} EscapedIsAscii(s: seq<Byte>)
    ensures forall i :: 0 <= i < |Escape(s)| ==> Escape(s)[i] <= 0x7F
  {
    if s != [] {
      EscapedIsAscii(s[1..]);
      assert forall i :: 0 <= i < |EscapeByte(s[0])| ==> EscapeByte(s[0])[i] <= 0x7F;
    }
  }

  lemma Pieces(text: seq<Byte>)
    ensures Octets("=?utf-8?q?") + text + Octets("?=") == EncodedWord(Octets("utf-8"), Octets("q"), text)
  {
  }
}
