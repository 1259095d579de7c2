/**
  String primitives of JavaScript that the merger relies on, over `seq<char>`:
  `indexOf` for a substring, `lastIndexOf` for a character class,
  `split(/\r?\n/)`, `join('\n')`, and the decimal rendering of numbers in
  template literals.
*/
module Text {

  /** `p` occurs in `s` starting at index `i`. */
  predicate MatchAt(s: string, p: string, i: int) {
    0 <= i && i + |p| <= |s| && s[i..i + |p|] == p
  }

  lemma MatchAtTail(s: string, p: string, j: int)
    requires |s| > 0 && j >= 0
    ensures MatchAt(s[1..], p, j) <==> MatchAt(s, p, j + 1)
  {
    if 0 <= j && j + |p| <= |s| - 1 {
      assert s[1..][j..j + |p|] == s[j + 1..j + 1 + |p|];
    }
  }

  /** JavaScript's `s.indexOf(p)`: the first index where `p` occurs, or -1. */
  function IndexOf(s: string, p: string): (r: int)
    ensures -1 <= r <= |s|
    ensures r >= 0 ==> MatchAt(s, p, r)
    ensures r >= 0 ==> forall j :: 0 <= j < r ==> !MatchAt(s, p, j)
    ensures r == -1 ==> forall j :: !MatchAt(s, p, j)
    decreases |s|
  {
    if |p| <= |s| && s[..|p|] == p then 0
    else if |s| == 0 then -1
    else
      var t := IndexOf(s[1..], p);
      assert forall j :: j >= 0 ==> (MatchAt(s[1..], p, j) <==> MatchAt(s, p, j + 1)) by {
        forall j | j >= 0 ensures MatchAt(s[1..], p, j) <==> MatchAt(s, p, j + 1) {
          MatchAtTail(s, p, j);
        }
      }
      assert !MatchAt(s, p, 0);
      if t < 0 then
        assert forall j :: !MatchAt(s, p, j) by {
          forall j ensures !MatchAt(s, p, j) {
            if j > 0 { assert !MatchAt(s[1..], p, j - 1); }
          }
        }
        -1
      else
        assert forall j :: 0 <= j < t + 1 ==> !MatchAt(s, p, j) by {
          forall j | 0 <= j < t + 1 ensures !MatchAt(s, p, j) {
            if j > 0 { assert !MatchAt(s[1..], p, j - 1); }
          }
        }
        t + 1
  }

  /** A one-character pattern matches exactly where that character stands. */
  lemma CharMatch(s: string, c: char, j: int)
    ensures MatchAt(s, [c], j) <==> 0 <= j < |s| && s[j] == c
  {
    if 0 <= j < |s| {
      assert s[j..j + 1] == [s[j]];
    }
  }

  /** Searching for one character finds its first occurrence. */
  lemma IndexOfChar(s: string, c: char)
    ensures IndexOf(s, [c]) == -1 <==> c !in s
    ensures IndexOf(s, [c]) >= 0 ==> s[IndexOf(s, [c])] == c
    ensures IndexOf(s, [c]) < |s|
    ensures forall k :: 0 <= k < IndexOf(s, [c]) ==> s[k] != c
  {
    forall j ensures MatchAt(s, [c], j) <==> 0 <= j < |s| && s[j] == c {
      CharMatch(s, c, j);
    }
  }

  /** The test `s.indexOf(p) !== -1` that every line scanner of the merger uses. */
  predicate Contains(s: string, p: string) {
    IndexOf(s, p) != -1
  }

  /** Largest index of a character of `cs` in `s`, or -1 (`lastIndexOf` on a character class). */
  function LastIndexIn(s: string, cs: set<char>): (r: int)
    ensures -1 <= r < |s|
    ensures r >= 0 ==> s[r] in cs
    ensures forall j :: r < j < |s| ==> s[j] !in cs
  {
    if |s| == 0 then -1
    else if s[|s| - 1] in cs then |s| - 1
    else LastIndexIn(s[..|s| - 1], cs)
  }

  // ---------------------------------------------------------------------------
  // Lines: `data.split(/\r?\n/)` and `lines.join('\n')`

  /** Drops one carriage return at the end: the optional `\r` of the `\r?\n` separator. */
  function DropCR(l: string): (r: string)
    ensures r <= l
  {
    if |l| > 0 && l[|l| - 1] == '\r' then l[..|l| - 1] else l
  }

  /**
    `s.split(/\r?\n/)`: every `\n` separates two lines and takes one `\r`
    immediately before it along; the last piece keeps its `\r`s.
  */
  function SplitLines(s: string): (r: seq<string>)
    ensures |r| >= 1
    ensures forall k :: 0 <= k < |r| ==> '\n' !in r[k]
    decreases |s|
  {
    var i := IndexOf(s, "\n");
    IndexOfChar(s, '\n');
    if i < 0 then
      [s]
    else
      var first := DropCR(s[..i]);
      assert '\n' !in first by {
        forall k | 0 <= k < |first| ensures first[k] != '\n' {
          assert first[k] == s[k];
        }
      }
      var rest := SplitLines(s[i + 1..]);
      assert forall k :: 0 < k < |rest| + 1 ==> ([first] + rest)[k] == rest[k - 1];
      [first] + rest
  }

  /** `lines.join('\n')`. */
  function JoinLines(ls: seq<string>): string {
    if |ls| == 0 then ""
    else if |ls| == 1 then ls[0]
    else ls[0] + "\n" + JoinLines(ls[1..])
  }

  /** One step of `SplitLines`: the text before the first `\n`, then the lines after it. */
  lemma SplitLinesStep(s: string)
    ensures IndexOf(s, "\n") < 0 ==> SplitLines(s) == [s]
    ensures IndexOf(s, "\n") >= 0 ==> var i := IndexOf(s, "\n");
      SplitLines(s) == [DropCR(s[..i])] + SplitLines(s[i + 1..])
  {
  }

  /** One step of `JoinLines`. */
  lemma JoinLinesCons(l: string, ls: seq<string>)
    requires |ls| >= 1
    ensures JoinLines([l] + ls) == l + "\n" + JoinLines(ls)
  {
    assert ([l] + ls)[1..] == ls;
  }

  /** A text is what comes before a line break at `i`, the break, and what follows. */
  lemma CutAtBreak(s: string, i: nat)
    requires i < |s| && s[i] == '\n'
    ensures s == s[..i] + "\n" + s[i + 1..]
  {
    assert s == s[..i] + s[i..i + 1] + s[i + 1..];
  }

  /** Without carriage returns, splitting into lines and joining them back gives the text again. */
  lemma {:induction false} JoinSplitLines(s: string)
    requires '\r' !in s
    ensures JoinLines(SplitLines(s)) == s
    decreases |s|
  {
    var i := IndexOf(s, "\n");
    IndexOfChar(s, '\n');
    SplitLinesStep(s);
    if i >= 0 {
      var first, rest := s[..i], s[i + 1..];
      assert '\r' !in rest by {
        forall k | 0 <= k < |rest| ensures rest[k] != '\r' { assert rest[k] == s[i + 1 + k]; }
      }
      assert DropCR(first) == first by {
        if i > 0 { assert first[i - 1] == s[i - 1]; }
      }
      JoinSplitLines(rest);
      JoinLinesCons(first, SplitLines(rest));
      CutAtBreak(s, i);
    }
  }

  /** Joining lines that hold no line break and end in no `\r`, then splitting, gives the lines back. */
  lemma {:induction false} SplitJoinLines(ls: seq<string>)
    requires |ls| >= 1
    requires forall k :: 0 <= k < |ls| ==> '\n' !in ls[k] && DropCR(ls[k]) == ls[k]
    ensures SplitLines(JoinLines(ls)) == ls
  {
    var l := ls[0];
    if |ls| == 1 {
      IndexOfChar(l, '\n');
    } else {
      var s := JoinLines(ls);
      var rest := JoinLines(ls[1..]);
      assert s == l + "\n" + rest;
      IndexOfChar(s, '\n');
      var i := IndexOf(s, "\n");
      assert s[|l|] == '\n';
      assert forall j :: 0 <= j < |l| ==> s[j] == l[j];
      assert i == |l|;
      assert s[..i] == l;
      assert s[i + 1..] == rest;
      SplitJoinLines(ls[1..]);
    }
  }

  // ---------------------------------------------------------------------------
  // Numbers in template literals

  predicate IsDigit(c: char) {
    '0' <= c <= '9'
  }

  function DigitChar(d: nat): (c: char)
    requires d < 10
    ensures IsDigit(c)
  {
    "0123456789"[d]
  }

  function DigitValue(c: char): (d: nat)
    requires IsDigit(c)
    ensures d < 10
  {
    (c as int - '0' as int) as nat
  }

  /** Decimal rendering of a natural number, as `${n}` prints it. */
  function NatToString(n: nat): (r: string)
    ensures |r| >= 1
    ensures forall k :: 0 <= k < |r| ==> IsDigit(r[k])
    ensures r[0] == '0' ==> n == 0
  {
    if n < 10 then [DigitChar(n)] else NatToString(n / 10) + [DigitChar(n % 10)]
  }

  /** Decimal value of a string of digits; the inverse of `NatToString`. */
  function ParseNat(s: string): nat
    requires forall k :: 0 <= k < |s| ==> IsDigit(s[k])
  {
    if |s| == 0 then 0 else ParseNat(s[..|s| - 1]) * 10 + DigitValue(s[|s| - 1])
  }

  lemma {:induction false} ParseNatToString(n: nat)
    ensures ParseNat(NatToString(n)) == n
  {
    if n >= 10 {
      var s := NatToString(n);
      assert s[..|s| - 1] == NatToString(n / 10);
      ParseNatToString(n / 10);
    }
  }

  /** Decimal rendering of an integer, with a leading `-` for negative values. */
  function IntToString(i: int): (r: string)
    ensures |r| >= 1
    ensures i < 0 <==> r[0] == '-'
    ensures i < 0 ==> r[1..] == NatToString(-i)
    ensures i >= 0 ==> r == NatToString(i)
  {
    if i < 0 then "-" + NatToString(-i) else NatToString(i)
  }

  /** Different numbers are printed differently. */
  lemma NatToStringInjective(m: nat, n: nat)
    requires NatToString(m) == NatToString(n)
    ensures m == n
  {
    ParseNatToString(m);
    ParseNatToString(n);
  }
}
