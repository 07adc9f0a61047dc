/**
 * Files of addresses, a line each, as subscriber and requeue files are; and their bounded, resumable
 * reader, src/getaddrsfromfd.c.
 */
module AddressFiles {
  import Seqs

  type Address = string

  /** A file of addresses as written: a line each. */
  function Text(addrs: seq<Address>): string {
    if addrs == [] then "" else Text(addrs[..|addrs| - 1]) + addrs[|addrs| - 1] + "\n"
  }

  /** The length of the first line, without its newline. */
  function LineLen(s: string): (n: nat)
    ensures n <= |s| && '\n' !in s[..n] && (n < |s| ==> s[n] == '\n')
  {
    if s == "" || s[0] == '\n' then 0 else 1 + LineLen(s[1..])
  }

  /** The lines of a file; a last line without newline is one too. */
  function Lines(s: string): (r: seq<Address>)
    ensures AreLines(r)
  {
    if s == "" then []
    else
      var n := LineLen(s);
      if n == |s| then [s] else [s[..n]] + Lines(s[n + 1..])
  }

  predicate AreLines(addrs: seq<Address>) {
    forall i :: 0 <= i < |addrs| ==> '\n' !in addrs[i]
  }

  predicate EndsInNewline(s: string) {
    s == "" || s[|s| - 1] == '\n'
  }

  lemma LineLenAt(s: string, n: nat)
    requires n <= |s| && '\n' !in s[..n] && (n < |s| ==> s[n] == '\n')
    ensures LineLen(s) == n
  {
  }

  /** Appending to a file whose lines are all ended adds the lines. */
  lemma {:induction false} LinesConcat(s: string, t: string)
    requires EndsInNewline(s)
    ensures Lines(s + t) == Lines(s) + Lines(t)
    decreases |s|
  {
    if s == "" {
      Seqs.Unit(t);
      Seqs.Unit(Lines(t));
    } else {
      var n := LineLen(s);
      assert n < |s|;
      var rest := s[n + 1..];
      assert rest != "" ==> rest[|rest| - 1] == s[|s| - 1];
      LinesConcat(rest, t);
      FirstLineConcat(s, t);
      hide LineLen;
      assert Lines(s) == [s[..n]] + Lines(rest);
      hide Lines;
      Seqs.Assoc([s[..n]], Lines(rest), Lines(t));
    }
  }

  lemma FirstLineConcat(s: string, t: string)
    requires LineLen(s) < |s|
    ensures var n := LineLen(s);
            Lines(s + t) == [s[..n]] + Lines(s[n + 1..] + t)
  {
    var n := LineLen(s);
    hide Lines;
    Seqs.DropFront(s, t, n);
    Seqs.DropFront(s, t, n + 1);
    assert (s + t)[n] == '\n';
    LineLenAt(s + t, n);
    hide LineLen;
    LinesStep(s + t);
  }

  lemma LinesStep(s: string)
    requires LineLen(s) < |s|
    ensures Lines(s) == [s[..LineLen(s)]] + Lines(s[LineLen(s) + 1..])
  {
    hide LineLen;
  }

  lemma LinesOfOne(a: Address)
    requires '\n' !in a
    ensures Lines(a + "\n") == [a]
  {
    assert (a + "\n")[..|a|] == a && (a + "\n")[|a| + 1..] == "";
    LineLenAt(a + "\n", |a|);
  }

  /** What requeuemail writes, getaddrsfromfd reads back. */
  lemma {:induction false} LinesOfText(addrs: seq<Address>)
    requires AreLines(addrs)
    ensures Lines(Text(addrs)) == addrs && EndsInNewline(Text(addrs))
    decreases |addrs|
  {
    if addrs != [] {
      var front, last := addrs[..|addrs| - 1], addrs[|addrs| - 1];
      LinesOfText(front);
      LinesOfOne(last);
      LinesConcat(Text(front), last + "\n");
      Seqs.Assoc(Text(front), last, "\n");
      Seqs.Snoc(addrs);
    }
  }

  lemma TextConcat(addrs: seq<Address>, a: Address)
    ensures Text(addrs + [a]) == Text(addrs) + a + "\n"
  {
    assert (addrs + [a])[..|addrs|] == addrs;
  }

  /** An open file of addresses, with its offset. */
  class AddressFile {
    const bytes: string
    var offset: nat

    ghost predicate Valid()
      reads this
    {
      offset <= |bytes|
    }

    ghost function Unread(): seq<Address>
      requires Valid()
      reads this
    {
      Lines(bytes[offset..])
    }

    constructor (bytes: string)
      ensures this.bytes == bytes && Valid() && Unread() == Lines(bytes)
    {
      this.bytes := bytes;
      offset := 0;
      new;
      assert this.bytes[0..] == bytes;
    }

    /** getaddrsfromfd: append addresses to the list until it has max of them or the file ends. */
    method GetAddrs(slist: seq<Address>, max: nat)
      returns (list: seq<Address>, left: nat, ghost fresh': seq<Address>)
      requires Valid()
      modifies this
      ensures Valid() && left == |bytes| - offset
      ensures list == slist + fresh' && old(Unread()) == fresh' + Unread()
      ensures left == 0 ==> Unread() == []
      ensures |slist| < max ==> |list| <= max
      ensures left > 0 ==> |list| >= max
      ensures left < old(|bytes| - offset) || old(offset) == |bytes|
    {
      hide Lines;
      LinesEnd(bytes);
      list, fresh' := slist, [];
      if |bytes| == 0 {
        Seqs.Unit(slist);
        Seqs.Unit(Unread());
        return list, 0, [];
      }
      var cur, next := offset, offset;
      Seqs.Unit(slist);
      Seqs.Unit(Unread());
      while next < |bytes|
        invariant old(offset) <= cur <= next <= |bytes| && (next == |bytes| ==> cur == next)
        invariant offset == old(offset)
        invariant '\n' !in bytes[cur..next]
        invariant list == slist + fresh' && old(Unread()) == fresh' + Lines(bytes[cur..])
        invariant |list| < max || fresh' == []
        invariant fresh' == [] ==> cur == offset
      {
        if bytes[next] == '\n' || next == |bytes| - 1 {
          var len := next - cur;
          if next == |bytes| - 1 && bytes[next] != '\n' {
            len := len + 1;
          }
          FirstOf(bytes, cur, next, len);
          var a := bytes[cur..cur + len];
          Seqs.Assoc(slist, fresh', [a]);
          Seqs.Assoc(fresh', [a], Lines(bytes[next + 1..]));
          list, fresh' := list + [a], fresh' + [a];
          cur := next + 1;
          if |list| >= max {
            offset := cur;
            return list, |bytes| - offset, fresh';
          }
        } else {
          Extend(bytes, cur, next);
        }
        next := next + 1;
      }
      offset := |bytes|;
      left := 0;
    }
  }

  lemma LinesEnd(bytes: string)
    ensures bytes[|bytes|..] == "" && Lines(bytes[|bytes|..]) == []
  {
  }

  /** A line found in a file is the first of its lines from there on. */
  lemma FirstOf(bytes: string, cur: nat, next: nat, len: nat)
    requires cur <= next < |bytes| && '\n' !in bytes[cur..next]
    requires bytes[next] == '\n' || next == |bytes| - 1
    requires len == if bytes[next] == '\n' then next - cur else next + 1 - cur
    ensures Lines(bytes[cur..]) == [bytes[cur..cur + len]] + Lines(bytes[next + 1..])
  {
    var s := bytes[cur..];
    assert s[..next - cur] == bytes[cur..next] && s[next - cur] == bytes[next];
    if bytes[next] == '\n' {
      LineLenAt(s, next - cur);
      assert s[next - cur + 1..] == bytes[next + 1..];
    } else {
      assert s == bytes[cur..next] + [bytes[next]];
      LineLenAt(s, |s|);
      assert bytes[cur..cur + len] == s;
    }
  }

  lemma Extend(bytes: string, cur: nat, next: nat)
    requires cur <= next < |bytes| && '\n' !in bytes[cur..next] && bytes[next] != '\n'
    ensures '\n' !in bytes[cur..next + 1]
  {
    assert bytes[cur..next + 1] == bytes[cur..next] + [bytes[next]];
  }
}
