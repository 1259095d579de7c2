/**
  JavaScript's `String.prototype.replaceAll` and `String.prototype.replace`
  with a string search value, as the merger calls them: `line.replaceAll(before, after)`
  on chapter bodies and `dir.replace(opfDir, '')` when computing manifest hrefs.

  The replacement string is not literal in JavaScript: `$$`, `$&`, `` $` `` and `$'`
  are expanded (GetSubstitution, with no capture groups). The model keeps that
  and proves that a replacement without `$` is inserted literally.
*/
module Replace {
  import opened Text

  /**
    The text inserted for one match: `a` with `$$` read as `$`, `$&` as the
    matched text, `` $` `` as the text before the match and `$'` as the text after it.
    Any other `$` stays as it is.
  */
  function Substitute(a: string, matched: string, pre: string, post: string): string
    decreases |a|
  {
    if |a| == 0 then ""
    else if a[0] == '$' && |a| >= 2 && a[1] == '$' then "$" + Substitute(a[2..], matched, pre, post)
    else if a[0] == '$' && |a| >= 2 && a[1] == '&' then matched + Substitute(a[2..], matched, pre, post)
    else if a[0] == '$' && |a| >= 2 && a[1] == '`' then pre + Substitute(a[2..], matched, pre, post)
    else if a[0] == '$' && |a| >= 2 && a[1] == '\'' then post + Substitute(a[2..], matched, pre, post)
    else [a[0]] + Substitute(a[1..], matched, pre, post)
  }

  /** A replacement string without `$` is inserted as it is. */
  lemma {:induction false} SubstituteLiteral(a: string, matched: string, pre: string, post: string)
    requires '$' !in a
    ensures Substitute(a, matched, pre, post) == a
    decreases |a|
  {
    if |a| > 0 {
      assert '$' !in a[1..] by {
        forall k | 0 <= k < |a| - 1 ensures a[1..][k] != '$' { assert a[1..][k] == a[k + 1]; }
      }
      SubstituteLiteral(a[1..], matched, pre, post);
    }
  }

  /** Scan of `s` from index `i` for non-overlapping occurrences of a non-empty `b`, left to right. */
  function ReplaceAllFrom(s: string, b: string, a: string, i: nat): string
    requires |b| > 0 && i <= |s|
    decreases |s| - i
  {
    if i + |b| > |s| then s[i..]
    else if MatchAt(s, b, i) then Substitute(a, b, s[..i], s[i + |b|..]) + ReplaceAllFrom(s, b, a, i + |b|)
    else [s[i]] + ReplaceAllFrom(s, b, a, i + 1)
  }

  /** An empty search value matches at every position, before each character and at the end. */
  function ReplaceEmptyFrom(s: string, a: string, i: nat): string
    requires i <= |s|
    decreases |s| - i
  {
    var ins := Substitute(a, "", s[..i], s[i..]);
    if i == |s| then ins else ins + [s[i]] + ReplaceEmptyFrom(s, a, i + 1)
  }

  /** `s.replaceAll(b, a)`. */
  function ReplaceAll(s: string, b: string, a: string): string {
    if |b| == 0 then ReplaceEmptyFrom(s, a, 0) else ReplaceAllFrom(s, b, a, 0)
  }

  /** Reference reading of a literal replace-all: every occurrence, leftmost first, replaced by `a`. */
  function LiteralReplaceAll(s: string, b: string, a: string): string
    requires |b| > 0
    decreases |s|
  {
    if |s| < |b| then s
    else if s[..|b|] == b then a + LiteralReplaceAll(s[|b|..], b, a)
    else [s[0]] + LiteralReplaceAll(s[1..], b, a)
  }

  lemma {:induction false} ReplaceAllFromLiteral(s: string, b: string, a: string, i: nat)
    requires |b| > 0 && i <= |s| && '$' !in a
    ensures ReplaceAllFrom(s, b, a, i) == LiteralReplaceAll(s[i..], b, a)
    decreases |s| - i
  {
    var t := s[i..];
    if i + |b| <= |s| {
      assert t[..|b|] == s[i..i + |b|];
      if s[i..i + |b|] == b {
        var j := i + |b|;
        SubstituteLiteral(a, b, s[..i], s[j..]);
        assert ReplaceAllFrom(s, b, a, i) == a + ReplaceAllFrom(s, b, a, j);
        ReplaceAllFromLiteral(s, b, a, j);
        assert t[|b|..] == s[j..];
        assert LiteralReplaceAll(t, b, a) == a + LiteralReplaceAll(s[j..], b, a);
      } else {
        assert ReplaceAllFrom(s, b, a, i) == [s[i]] + ReplaceAllFrom(s, b, a, i + 1);
        ReplaceAllFromLiteral(s, b, a, i + 1);
        assert t[1..] == s[i + 1..];
        assert LiteralReplaceAll(t, b, a) == [s[i]] + LiteralReplaceAll(s[i + 1..], b, a);
      }
    } else {
      assert ReplaceAllFrom(s, b, a, i) == t;
      assert LiteralReplaceAll(t, b, a) == t;
    }
  }

  /** With a non-empty search value and no `$` in the replacement, `replaceAll` is the literal replace-all. */
  lemma ReplaceAllIsLiteral(s: string, b: string, a: string)
    requires |b| > 0 && '$' !in a
    ensures ReplaceAll(s, b, a) == LiteralReplaceAll(s, b, a)
  {
    ReplaceAllFromLiteral(s, b, a, 0);
    assert s[0..] == s;
  }

  lemma {:induction false} ReplaceAllFromNoMatch(s: string, b: string, a: string, i: nat)
    requires |b| > 0 && i <= |s|
    requires forall j :: i <= j ==> !MatchAt(s, b, j)
    ensures ReplaceAllFrom(s, b, a, i) == s[i..]
    decreases |s| - i
  {
    if i + |b| <= |s| {
      assert !MatchAt(s, b, i);
      ReplaceAllFromNoMatch(s, b, a, i + 1);
      assert s[i..] == [s[i]] + s[i + 1..];
    }
  }

  /** A non-empty search value that does not occur leaves the text unchanged. */
  lemma ReplaceAllAbsent(s: string, b: string, a: string)
    requires |b| > 0 && !Contains(s, b)
    ensures ReplaceAll(s, b, a) == s
  {
    ReplaceAllFromNoMatch(s, b, a, 0);
    assert s[0..] == s;
  }

  /** `$&` inserts the match and nothing else. */
  lemma SubstituteMatch(matched: string, pre: string, post: string)
    ensures Substitute("$&", matched, pre, post) == matched
  {
    assert "$&"[2..] == "";
    assert matched + "" == matched;
  }

  /** One step of the scan, at a position where the search value fits. */
  lemma ReplaceAllFromStep(s: string, b: string, a: string, i: nat)
    requires |b| > 0 && i + |b| <= |s|
    ensures MatchAt(s, b, i) ==>
      ReplaceAllFrom(s, b, a, i) == Substitute(a, b, s[..i], s[i + |b|..]) + ReplaceAllFrom(s, b, a, i + |b|)
    ensures !MatchAt(s, b, i) ==> ReplaceAllFrom(s, b, a, i) == [s[i]] + ReplaceAllFrom(s, b, a, i + 1)
  {
  }

  /** At a match, the suffix is the match followed by what comes after it. */
  lemma MatchJoin(s: string, b: string, i: nat)
    requires MatchAt(s, b, i)
    ensures b + s[i + |b|..] == s[i..]
  {
    assert s[i..] == s[i..i + |b|] + s[i + |b|..];
  }

  /** Replacing every match by `$&` (the match itself) leaves the scanned text unchanged. */
  lemma {:induction false} ReplaceAllFromSelf(s: string, b: string, i: nat)
    requires |b| > 0 && i <= |s|
    ensures ReplaceAllFrom(s, b, "$&", i) == s[i..]
    decreases |s| - i
  {
    if i + |b| <= |s| {
      var j := i + |b|;
      ReplaceAllFromStep(s, b, "$&", i);
      if MatchAt(s, b, i) {
        SubstituteMatch(b, s[..i], s[j..]);
        ReplaceAllFromSelf(s, b, j);
        MatchJoin(s, b, i);
      } else {
        ReplaceAllFromSelf(s, b, i + 1);
        assert s[i..] == [s[i]] + s[i + 1..];
      }
    }
  }

  lemma {:induction false} ReplaceEmptyFromSelf(s: string, i: nat)
    requires i <= |s|
    ensures ReplaceEmptyFrom(s, "$&", i) == s[i..]
    decreases |s| - i
  {
    if i < |s| {
      ReplaceEmptyFromSelf(s, i + 1);
      assert s[i..] == [s[i]] + s[i + 1..];
    }
  }

  /** Replacing every match by `$&` (the match itself) gives the text back, for any search value. */
  lemma ReplaceAllByMatchIsIdentity(s: string, b: string)
    ensures ReplaceAll(s, b, "$&") == s
  {
    assert s[0..] == s;
    if |b| == 0 {
      ReplaceEmptyFromSelf(s, 0);
    } else {
      ReplaceAllFromSelf(s, b, 0);
    }
  }

  /**
    `s.replace(p, '')`: the first occurrence of `p`, wherever it is, is cut out;
    the text is unchanged when `p` does not occur.
  */
  function RemoveFirst(s: string, p: string): (r: string)
    ensures !Contains(s, p) ==> r == s
    ensures Contains(s, p) ==> |r| == |s| - |p| && s == r[..IndexOf(s, p)] + p + r[IndexOf(s, p)..]
    ensures p <= s ==> r == s[|p|..]
  {
    var i := IndexOf(s, p);
    if i < 0 then s
    else
      assert p <= s ==> i == 0 by {
        if p <= s { assert MatchAt(s, p, 0); }
      }
      var r := s[..i] + s[i + |p|..];
      assert r[..i] == s[..i] && r[i..] == s[i + |p|..];
      assert s == s[..i] + s[i..i + |p|] + s[i + |p|..];
      r
  }
}
