/**
  Orders on file names. `NameLe` compares code point by code point, which is
  what `localeCompare` does with the default (non-numeric) collation on the
  ASCII names the merger produces; `NaturalLe` compares the stem and then the
  trailing run of digits, the shorter run first and runs of one length code
  point by code point. That is numeric order on digit runs without leading
  zeros, such as the chapter file names `<format><index>`, which are meant to
  follow their index.
*/
module Collation {
  import opened Text

  /** Code-point lexicographic order: a prefix comes first. */
  predicate NameLe(a: string, b: string)
    decreases |a|
  {
    |a| == 0 || (|b| > 0 && (a[0] < b[0] || (a[0] == b[0] && NameLe(a[1..], b[1..]))))
  }

  lemma {:induction false} NameLeTotal(a: string, b: string)
    ensures NameLe(a, b) || NameLe(b, a)
    decreases |a|
  {
    if |a| > 0 && |b| > 0 && a[0] == b[0] {
      NameLeTotal(a[1..], b[1..]);
    }
  }

  lemma {:induction false} NameLeTransitive(a: string, b: string, c: string)
    requires NameLe(a, b) && NameLe(b, c)
    ensures NameLe(a, c)
    decreases |a|
  {
    if |a| > 0 && a[0] == b[0] && b[0] == c[0] {
      NameLeTransitive(a[1..], b[1..], c[1..]);
    }
  }

  lemma {:induction false} NameLeAntisymmetric(a: string, b: string)
    ensures NameLe(a, b) && NameLe(b, a) ==> a == b
    decreases |a|
  {
    if |a| > 0 && |b| > 0 && a[0] == b[0] {
      NameLeAntisymmetric(a[1..], b[1..]);
      assert a == [a[0]] + a[1..] && b == [b[0]] + b[1..];
    }
  }

  /** A common prefix does not change the comparison. */
  lemma {:induction false} NameLeCommonPrefix(p: string, a: string, b: string)
    ensures NameLe(p + a, p + b) <==> NameLe(a, b)
    decreases |p|
  {
    if |p| > 0 {
      assert (p + a)[0] == p[0] == (p + b)[0];
      assert (p + a)[1..] == p[1..] + a && (p + b)[1..] == p[1..] + b;
      NameLeCommonPrefix(p[1..], a, b);
    } else {
      assert p + a == a && p + b == b;
    }
  }

  /** Of two names of one length, the strictly smaller stays strictly smaller after any suffixes. */
  lemma {:induction false} NameLtAppend(a: string, b: string, x: string, y: string)
    requires |a| == |b| && !NameLe(b, a)
    ensures NameLe(a + x, b + y) && !NameLe(b + y, a + x)
    decreases |a|
  {
    if a[0] == b[0] {
      assert (a + x)[1..] == a[1..] + x && (b + y)[1..] == b[1..] + y;
      NameLtAppend(a[1..], b[1..], x, y);
    }
  }

  /** Shorter first, then code-point order: numeric order on digit strings without leading zeros. */
  predicate ShortLexLe(a: string, b: string) {
    |a| < |b| || (|a| == |b| && NameLe(a, b))
  }

  lemma ShortLexTransitive(a: string, b: string, c: string)
    requires ShortLexLe(a, b) && ShortLexLe(b, c)
    ensures ShortLexLe(a, c)
  {
    if |a| == |b| == |c| {
      NameLeTransitive(a, b, c);
    }
  }

  lemma DigitCharOrder(m: nat, n: nat)
    requires m < n < 10
    ensures DigitChar(m) < DigitChar(n)
  {
  }

  lemma NatToStringLength(n: nat)
    ensures n >= 10 ==> |NatToString(n)| >= 2
    ensures n < 10 ==> |NatToString(n)| == 1
  {
  }

  /** The decimal rendering orders numbers by shortlex. */
  lemma {:induction false} NatToStringShortLex(m: nat, n: nat)
    requires m < n
    ensures ShortLexLe(NatToString(m), NatToString(n)) && !ShortLexLe(NatToString(n), NatToString(m))
    decreases n
  {
    NatToStringLength(m);
    NatToStringLength(n);
    if n < 10 {
      DigitCharOrder(m, n);
    } else if m >= 10 {
      var pm, pn := NatToString(m / 10), NatToString(n / 10);
      var dm, dn := [DigitChar(m % 10)], [DigitChar(n % 10)];
      assert NatToString(m) == pm + dm && NatToString(n) == pn + dn;
      if m / 10 == n / 10 {
        DigitCharOrder(m % 10, n % 10);
        NameLeCommonPrefix(pm, dm, dn);
        NameLeCommonPrefix(pm, dn, dm);
      } else {
        NatToStringShortLex(m / 10, n / 10);
        if |pm| == |pn| {
          NameLtAppend(pm, pn, dm, dn);
        }
      }
    }
  }

  /** Splits a name into its stem and its trailing run of digits. */
  function SplitDigits(s: string): (r: (string, string))
    ensures r.0 + r.1 == s
    ensures forall k :: 0 <= k < |r.1| ==> IsDigit(r.1[k])
    ensures r.0 == "" || !IsDigit(r.0[|r.0| - 1])
    decreases |s|
  {
    if |s| == 0 || !IsDigit(s[|s| - 1]) then (s, "")
    else
      var (stem, digits) := SplitDigits(s[..|s| - 1]);
      (stem, digits + [s[|s| - 1]])
  }

  /** Appending digits extends the trailing run and keeps the stem. */
  lemma {:induction false} SplitDigitsAppend(a: string, b: string)
    requires forall k :: 0 <= k < |b| ==> IsDigit(b[k])
    ensures SplitDigits(a + b) == (SplitDigits(a).0, SplitDigits(a).1 + b)
    decreases |b|
  {
    if |b| == 0 {
      assert a + b == a && SplitDigits(a).1 + b == SplitDigits(a).1;
    } else {
      var b' := b[..|b| - 1];
      assert (a + b)[..|a + b| - 1] == a + b';
      SplitDigitsAppend(a, b');
      assert SplitDigits(a).1 + b' + [b[|b| - 1]] == SplitDigits(a).1 + b;
    }
  }

  /** Stems in code-point order; equal stems by their trailing digits, shorter run first (numeric without leading zeros). */
  predicate NaturalLe(a: string, b: string) {
    var (sa, da) := SplitDigits(a);
    var (sb, db) := SplitDigits(b);
    if sa == sb then ShortLexLe(da, db) else NameLe(sa, sb)
  }

  lemma NaturalLeTotal(a: string, b: string)
    ensures NaturalLe(a, b) || NaturalLe(b, a)
  {
    var (sa, da) := SplitDigits(a);
    var (sb, db) := SplitDigits(b);
    NameLeTotal(sa, sb);
    NameLeTotal(da, db);
  }

  lemma NaturalLeTransitive(a: string, b: string, c: string)
    requires NaturalLe(a, b) && NaturalLe(b, c)
    ensures NaturalLe(a, c)
  {
    var (sa, da) := SplitDigits(a);
    var (sb, db) := SplitDigits(b);
    var (sc, dc) := SplitDigits(c);
    NameLeAntisymmetric(sa, sb);
    if sa == sb && sb == sc {
      ShortLexTransitive(da, db, dc);
    } else if sa != sb && sb != sc {
      NameLeTransitive(sa, sb, sc);
    }
  }

  /**
    Chapter file names `<format><index>` of one format follow their indexes
    under the natural order.
  */
  lemma ChapterNamesNatural(format: string, m: nat, n: nat)
    requires m < n
    ensures NaturalLe(format + NatToString(m), format + NatToString(n))
    ensures !NaturalLe(format + NatToString(n), format + NatToString(m))
  {
    SplitDigitsAppend(format, NatToString(m));
    SplitDigitsAppend(format, NatToString(n));
    var d := SplitDigits(format).1;
    NatToStringShortLex(m, n);
    NameLeCommonPrefix(d, NatToString(m), NatToString(n));
    NameLeCommonPrefix(d, NatToString(n), NatToString(m));
  }

  /**
    Under code-point order the chapter with index 10 sorts before the one with
    index 2, whatever the format.
  */
  lemma TenBeforeTwo(format: string)
    ensures NameLe(format + NatToString(10), format + NatToString(2))
    ensures !NameLe(format + NatToString(2), format + NatToString(10))
  {
    assert NatToString(10) == "10" && NatToString(2) == "2";
    NameLeCommonPrefix(format, "10", "2");
    NameLeCommonPrefix(format, "2", "10");
  }

  /** Digit runs with leading zeros are not compared as numbers: the shorter run `8` comes first. */
  lemma LeadingZerosByLength()
    ensures NaturalLe("x8", "x007") && !NaturalLe("x007", "x8")
  {
    assert SplitDigits("x") == ("x", "");
    SplitDigitsAppend("x", "8");
    SplitDigitsAppend("x", "007");
    assert "x" + "8" == "x8" && "x" + "007" == "x007";
  }
}
