/** The few functions of Go's `strings` package that the cleanup core relies on:
    `Split` with a one-character separator, `HasPrefix` and an ASCII `EqualFold`.
    `TakeUntil` and `DropThrough` are independent reference definitions used to
    say what the pieces of a split are. */
module Strings {

  /** The text of `s` before its first `c` (all of `s` when there is none). */
  function TakeUntil(s: string, c: char): (r: string)
    ensures r <= s
    ensures c !in r
    ensures |r| < |s| ==> s[|r|] == c
  {
    if |s| == 0 then []
    else if s[0] == c then []
    else [s[0]] + TakeUntil(s[1..], c)
  }

  /** The text of `s` after its first `c` (empty when there is none). */
  function DropThrough(s: string, c: char): (r: string)
    ensures c in s ==> s == TakeUntil(s, c) + [c] + r
    ensures c !in s ==> r == []
  {
    if |s| == 0 then []
    else if s[0] == c then s[1..]
    else DropThrough(s[1..], c)
  }

  /** The inverse of `Split`: the pieces glued back together with `c`. */
  function Join(parts: seq<string>, c: char): string
  {
    if |parts| == 0 then []
    else if |parts| == 1 then parts[0]
    else parts[0] + [c] + Join(parts[1..], c)
  }

  /** Go's `strings.Split(s, string(c))`: the maximal `c`-free pieces of `s`,
      one more than there are occurrences of `c`; the empty string gives `[""]`. */
  function Split(s: string, c: char): (parts: seq<string>)
    ensures |parts| >= 1
  {
    if |s| == 0 then [""]
    else
      var rest := Split(s[1..], c);
      if s[0] == c then [""] + rest
      else [[s[0]] + rest[0]] + rest[1..]
  }

  /** `Join` undoes `Split`, and no piece contains the separator: together
      these determine what the pieces are. */
  lemma {:induction false} SplitJoin(s: string, c: char)
    ensures forall i :: 0 <= i < |Split(s, c)| ==> c !in Split(s, c)[i]
    ensures Join(Split(s, c), c) == s
  {
    if |s| > 0 {
      SplitJoin(s[1..], c);
      var rest := Split(s[1..], c);
      if s[0] != c {
        if |rest| == 1 {
          assert Join(rest, c) == rest[0];
        } else {
          assert Join(rest, c) == rest[0] + [c] + Join(rest[1..], c);
          assert Join(Split(s, c), c) == [s[0]] + rest[0] + [c] + Join(rest[1..], c);
        }
      }
    }
  }

  /** The first piece of a split is the text before the first separator. */
  lemma {:induction false} SplitHead(s: string, c: char)
    ensures Split(s, c)[0] == TakeUntil(s, c)
  {
    if |s| > 0 && s[0] != c {
      SplitHead(s[1..], c);
    }
  }

  /** A split yields a single piece exactly when the separator does not occur. */
  lemma {:induction false} SplitSingle(s: string, c: char)
    ensures |Split(s, c)| == 1 <==> c !in s
  {
    if |s| > 0 {
      SplitSingle(s[1..], c);
      if s[0] != c {
        assert c in s <==> c in s[1..];
      }
    }
  }

  /** After the first piece, a split continues as the split of the text after
      the first separator. */
  lemma {:induction false} SplitTail(s: string, c: char)
    requires c in s
    ensures Split(s, c)[1..] == Split(DropThrough(s, c), c)
  {
    if s[0] != c {
      assert c in s[1..];
      SplitTail(s[1..], c);
    }
  }

  /** The second piece of a split is the text between the first and the second
      separator (or the end). */
  lemma SplitSecond(s: string, c: char)
    requires c in s
    ensures |Split(s, c)| >= 2
    ensures Split(s, c)[1] == TakeUntil(DropThrough(s, c), c)
  {
    SplitSingle(s, c);
    SplitTail(s, c);
    SplitHead(DropThrough(s, c), c);
  }

  /** `TakeUntil` and `DropThrough` cut `a + [c] + b` at the `c` when `a` is `c`-free. */
  lemma {:induction false} CutAtFirst(a: string, b: string, c: char)
    requires c !in a
    ensures TakeUntil(a + [c] + b, c) == a
    ensures DropThrough(a + [c] + b, c) == b
  {
    if |a| > 0 {
      assert (a + [c] + b)[1..] == a[1..] + [c] + b;
      CutAtFirst(a[1..], b, c);
    }
  }

  /** A `c`-free prefix passes through `TakeUntil` unchanged. */
  lemma {:induction false} TakeUntilAppend(a: string, b: string, c: char)
    requires c !in a
    ensures TakeUntil(a + b, c) == a + TakeUntil(b, c)
  {
    if |a| > 0 {
      assert (a + b)[0] == a[0] != c;
      assert (a + b)[1..] == a[1..] + b;
      assert TakeUntil(a + b, c) == [a[0]] + TakeUntil(a[1..] + b, c);
      TakeUntilAppend(a[1..], b, c);
      assert [a[0]] + (a[1..] + TakeUntil(b, c)) == a + TakeUntil(b, c);
    } else {
      assert a + b == b;
    }
  }

  /** Go's `strings.HasPrefix`. */
  predicate HasPrefix(s: string, prefix: string): (r: bool)
    ensures r <==> |prefix| <= |s| && s[..|prefix|] == prefix
  {
    prefix <= s
  }

  /** ASCII simple case folding: upper-case letters to lower case. */
  function FoldChar(ch: char): (r: char)
    ensures !('A' <= r <= 'Z')
    ensures 'A' <= ch <= 'Z' ==> r as int == ch as int + 32
    ensures !('A' <= ch <= 'Z') ==> r == ch
  {
    if 'A' <= ch <= 'Z' then (ch as int - 'A' as int + 'a' as int) as char else ch
  }

  /** Go's `strings.EqualFold`, restricted to ASCII case folding. */
  predicate EqualFold(a: string, b: string): (r: bool)
    ensures a == b ==> r
    ensures r ==> |a| == |b|
    ensures r ==> forall i :: 0 <= i < |a| && !('A' <= a[i] <= 'Z') && !('A' <= b[i] <= 'Z') ==> a[i] == b[i]
  {
    |a| == |b| && forall i :: 0 <= i < |a| ==> FoldChar(a[i]) == FoldChar(b[i])
  }
}
