/** Letters without regard to their case, as tolower, strcasecmp and strncasecmp see them in the C locale. */
module Letters {

  const UPPER := "ABCDEFGHIJKLMNOPQRSTUVWXYZ"
  const LOWER := "abcdefghijklmnopqrstuvwxyz"

  function Lower(c: char): char {
    if 'A' <= c <= 'Z' then (c as int + 32) as char else c
  }

  function LowerAll(s: string): (r: string)
    ensures |r| == |s| && forall i :: 0 <= i < |s| ==> r[i] == Lower(s[i])
  {
    if s == "" then "" else [Lower(s[0])] + LowerAll(s[1..])
  }

  /** Equal but for the case of letters. */
  predicate Same(a: string, b: string) {
    |a| == |b| && forall i :: 0 <= i < |a| ==> Lower(a[i]) == Lower(b[i])
  }

  // ---------------------------------------------------------------- told by the alphabet

  lemma Alphabet(k: nat)
    requires k < 26
    ensures UPPER[k] == ('A' as int + k) as char && LOWER[k] == ('a' as int + k) as char
  {
  }

  lemma Capital(c: char)
    ensures c in UPPER <==> 'A' <= c <= 'Z'
  {
    if 'A' <= c <= 'Z' {
      Alphabet(c as int - 'A' as int);
    }
  }

  lemma Small(c: char)
    ensures c in LOWER <==> 'a' <= c <= 'z'
  {
    if 'a' <= c <= 'z' {
      Alphabet(c as int - 'a' as int);
    }
  }

  lemma InDigits(c: char)
    ensures c in "0123456789" <==> '0' <= c <= '9'
  {
    if '0' <= c <= '9' {
      assert "0123456789"[c as int - '0' as int] == c;
    }
  }

  /** The small letter of each capital one; all other characters stay. */
  lemma LowerLetters(c: char)
    ensures forall k :: 0 <= k < 26 && c == UPPER[k] ==> Lower(c) == LOWER[k]
    ensures c !in UPPER ==> Lower(c) == c
  {
    forall k | 0 <= k < 26 && c == UPPER[k] ensures Lower(c) == LOWER[k] {
      Alphabet(k);
    }
    if 'A' <= c <= 'Z' {
      Alphabet(c as int - 'A' as int);
    }
  }

  /** The same letter in either case. */
  predicate CaseOnly(c: char, d: char) {
    c == d || PairOfCases(c, d) || PairOfCases(d, c)
  }

  predicate PairOfCases(c: char, d: char) {
    exists k :: 0 <= k < 26 && c == UPPER[k] && d == LOWER[k]
  }

  predicate OtherCase(a: string, b: string) {
    |a| == |b| && forall i :: 0 <= i < |a| ==> CaseOnly(a[i], b[i])
  }

  lemma SameLetter(c: char, d: char)
    ensures Lower(c) == Lower(d) <==> CaseOnly(c, d)
  {
    PairMeans(c, d);
    PairMeans(d, c);
  }

  lemma PairMeans(c: char, d: char)
    ensures PairOfCases(c, d) <==> 'A' <= c <= 'Z' && d == Lower(c)
  {
    if k :| 0 <= k < 26 && c == UPPER[k] && d == LOWER[k] {
      Alphabet(k);
    }
    if 'A' <= c <= 'Z' {
      Alphabet(c as int - 'A' as int);
    }
  }

  /** Two strings are the same for these functions exactly if they differ in nothing but the case of letters. */
  lemma SameIff(a: string, b: string)
    ensures Same(a, b) <==> OtherCase(a, b)
    ensures LowerAll(a) == LowerAll(b) <==> OtherCase(a, b)
  {
    forall i, j | 0 <= i < |a| && 0 <= j < |b| ensures Lower(a[i]) == Lower(b[j]) <==> CaseOnly(a[i], b[j]) {
      SameLetter(a[i], b[j]);
    }
    hide Lower, CaseOnly;
    if LowerAll(a) == LowerAll(b) {
      assert forall i :: 0 <= i < |a| ==> LowerAll(a)[i] == LowerAll(b)[i];
    }
    if Same(a, b) {
      assert LowerAll(a) == LowerAll(b);
    }
  }
}
