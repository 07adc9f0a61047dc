/** Numbers as printf's %d and %ld write them and strtol reads them. */
module Decimal {
  predicate IsDigit(c: char) {
    '0' <= c <= '9'
  }

  function Digit(d: nat): (c: char)
    requires d < 10
    ensures IsDigit(c) && Value(c) == d
  {
    ('0' as int + d) as char
  }

  function Value(c: char): (d: nat)
    requires IsDigit(c)
    ensures d < 10
  {
    c as int - '0' as int
  }

  function Print(n: nat): (s: string)
    ensures s != "" && forall i :: 0 <= i < |s| ==> IsDigit(s[i])
  {
    if n < 10 then [Digit(n)] else Print(n / 10) + [Digit(n % 10)]
  }

  /** How many digits s begins with. */
  function DigitsLen(s: string): (n: nat)
    ensures n <= |s| && (forall i :: 0 <= i < n ==> IsDigit(s[i])) && (n < |s| ==> !IsDigit(s[n]))
  {
    if s != "" && IsDigit(s[0]) then 1 + DigitsLen(s[1..]) else 0
  }

  function Parse(s: string): nat
    requires forall i :: 0 <= i < |s| ==> IsDigit(s[i])
  {
    if s == "" then 0 else Parse(s[..|s| - 1]) * 10 + Value(s[|s| - 1])
  }

  predicate IsSpace(c: char) {
    c == ' ' || 9 <= c as int <= 13
  }

  /** strtol in base 10: white space, a sign, digits; what follows them is left alone. */
  function Strtol(s: string): int {
    if s != "" && IsSpace(s[0]) then Strtol(s[1..])
    else if s != "" && s[0] == '-' then
      var v: int := Parse(s[1..][..DigitsLen(s[1..])]);
      -v
    else if s != "" && s[0] == '+' then Parse(s[1..][..DigitsLen(s[1..])])
    else Parse(s[..DigitsLen(s)])
  }

  lemma {:induction false} ParseOfPrint(n: nat)
    ensures Parse(Print(n)) == n
  {
    if n >= 10 {
      ParseOfPrint(n / 10);
      var p := Print(n);
      assert p[..|p| - 1] == Print(n / 10);
    } else {
      assert Parse([]) == 0;
      assert Print(n)[..0] == [];
    }
  }

  /** Digits are written to the base ten, the last one at the end. */
  lemma InTens(n: nat, d: nat)
    requires d < 10
    ensures Print(d) == ["0123456789"[d]]
    ensures n > 0 ==> Print(10 * n + d) == Print(n) + ["0123456789"[d]]
  {
    assert (10 * n + d) / 10 == n && (10 * n + d) % 10 == d;
    assert "0123456789"[d] == Digit(d);
  }

  lemma {:induction false} DigitsEnd(s: string, n: nat)
    requires n <= |s| && (forall i :: 0 <= i < n ==> IsDigit(s[i])) && (n < |s| ==> !IsDigit(s[n]))
    ensures DigitsLen(s) == n
    decreases n
  {
    if n > 0 {
      DigitsEnd(s[1..], n - 1);
    }
  }

  /** A number is read back from in front of anything that is not a digit. */
  lemma StrtolOfPrint(n: nat, rest: string)
    requires rest == "" || !IsDigit(rest[0])
    ensures Strtol(Print(n) + rest) == n
  {
    var p := Print(n);
    var s := p + rest;
    assert s[0] == p[0] && IsDigit(p[0]);
    assert forall i :: 0 <= i < |p| ==> s[i] == p[i];
    DigitsEnd(s, |p|);
    assert s[..|p|] == p;
    ParseOfPrint(n);
  }

  /** A colon ends the number, whatever is behind it. */
  lemma {:induction false} StrtolStops(a: string, rest: string)
    ensures Strtol(a + (":" + rest)) == Strtol(a + ":")
  {
    var s, u := a + (":" + rest), a + ":";
    if a == "" {
      assert s[0] == ':' && u[0] == ':';
      DigitsStop("", rest);
    } else {
      assert s[0] == a[0] && u[0] == a[0];
      assert s[1..] == a[1..] + (":" + rest) && u[1..] == a[1..] + ":";
      if IsSpace(a[0]) {
        StrtolStops(a[1..], rest);
      } else {
        DigitsStop(a, rest);
        DigitsStop(a[1..], rest);
      }
    }
  }

  lemma DigitsStop(a: string, rest: string)
    ensures var s, u := a + (":" + rest), a + ":";
            DigitsLen(s) == DigitsLen(u) && s[..DigitsLen(s)] == u[..DigitsLen(u)]
  {
    var s, u, n := a + (":" + rest), a + ":", DigitsLen(a);
    assert s[|a|] == ':' && u[|a|] == ':';
    assert forall i :: 0 <= i < |a| ==> s[i] == a[i] == u[i];
    DigitsEnd(s, n);
    DigitsEnd(u, n);
  }

  /** A number with so many digits; the next one has as many. */
  function Least(digits: nat): (n: nat)
    requires digits > 0
    ensures n > 0 && |Print(n)| == |Print(n + 1)| == digits
  {
    if digits == 1 then 1
    else
      var m := Least(digits - 1);
      assert (10 * m) / 10 == m && (10 * m + 1) / 10 == m;
      10 * m
  }
}
