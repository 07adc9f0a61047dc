/** Octets as the C programs see them once read through an unsigned char, plus the EOF code. */
module Bytes {

  type Byte = b: int | 0 <= b < 256

  /** A byte or EOF, the domain of the character-at-a-time state machines. */
  type Code = c: int | -1 <= c < 256

  const EOF: Code := -1
  const TAB: Byte := 9
  const LF: Byte := 10
  const CR: Byte := 13
  const SPACE: Byte := 32
  const EQUALS: Byte := 61

  predicate IsBlank(c: Code) {
    c == SPACE || c == TAB
  }

  /** A hexadecimal digit, in upper case. */
  function HexDigit(n: nat): Byte
    requires n < 16
  {
    if n < 10 then '0' as int + n else 'A' as int + n - 10
  }

  function Lower(b: Byte): Byte {
    if 65 <= b <= 90 then b + 32 else b
  }

  predicate IsLineEnd(b: Byte) {
    b == CR || b == LF
  }

  /** No run of bytes between line ends is longer than `limit`; `column` bytes are already on the first line. */
  predicate LinesAtMost(s: seq<Byte>, column: nat, limit: nat) {
    s == [] ||
    if IsLineEnd(s[0]) then LinesAtMost(s[1..], 0, limit)
    else column < limit && LinesAtMost(s[1..], column + 1, limit)
  }

  /** The column reached after writing s from the given column. */
  function EndColumn(s: seq<Byte>, column: nat): nat {
    if s == [] then column
    else EndColumn(s[1..], if IsLineEnd(s[0]) then 0 else column + 1)
  }

  lemma {:induction false} LinesAtMostConcat(a: seq<Byte>, b: seq<Byte>, column: nat, limit: nat)
    ensures LinesAtMost(a + b, column, limit)
            <==> LinesAtMost(a, column, limit) && LinesAtMost(b, EndColumn(a, column), limit)
    ensures EndColumn(a + b, column) == EndColumn(b, EndColumn(a, column))
  {
    if a == [] {
      assert a + b == b;
    } else {
      assert (a + b)[1..] == a[1..] + b;
      LinesAtMostConcat(a[1..], b, if IsLineEnd(a[0]) then 0 else column + 1, limit);
    }
  }

  /** What LinesAtMost means without reference to columns: every stretch free of line ends is short. */
  lemma {:induction false} LinesAtMostMeaning(s: seq<Byte>, column: nat, limit: nat, i: nat, j: nat)
    requires LinesAtMost(s, column, limit)
    requires i <= j <= |s|
    requires forall k :: i <= k < j ==> !IsLineEnd(s[k])
    ensures j - i <= limit
    ensures i == 0 < j ==> column + j <= limit
  {
    if j == 0 {
    } else if i > 0 {
      LinesAtMostMeaning(s[1..], if IsLineEnd(s[0]) then 0 else column + 1, limit, i - 1, j - 1);
    } else {
      LinesAtMostMeaning(s[1..], column + 1, limit, 0, j - 1);
    }
  }

  /** No blank stands directly before a carriage return. */
  ghost predicate NoBlankBeforeBreak(s: seq<Byte>) {
    forall i {:trigger s[i]} :: 0 < i < |s| && s[i] == CR ==> !IsBlank(s[i - 1])
  }
}
