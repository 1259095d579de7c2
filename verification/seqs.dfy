/** Sequence helpers shared by the scanners and the sort: filtering, mapping, counting, flattening. */
module Seqs {

  /** The elements of `s` satisfying `p`, in order. */
  function Filter<T>(p: T -> bool, s: seq<T>): (r: seq<T>)
    ensures |r| <= |s|
    ensures forall k :: 0 <= k < |r| ==> p(r[k]) && r[k] in s
  {
    if |s| == 0 then []
    else if p(s[0]) then [s[0]] + Filter(p, s[1..])
    else Filter(p, s[1..])
  }

  function MapSeq<T, U>(f: T -> U, s: seq<T>): (r: seq<U>)
    ensures |r| == |s|
    ensures forall k :: 0 <= k < |s| ==> r[k] == f(s[k])
  {
    seq(|s|, k requires 0 <= k < |s| => f(s[k]))
  }

  lemma MapSeqCons<T, U>(f: T -> U, x: T, s: seq<T>)
    ensures MapSeq(f, [x] + s) == [f(x)] + MapSeq(f, s)
  {
  }

  /** The number of elements satisfying `p`. */
  function CountIf<T>(p: T -> bool, s: seq<T>): (n: nat)
    ensures n <= |s|
  {
    |Filter(p, s)|
  }

  lemma {:induction false} FilterAppend<T>(p: T -> bool, a: seq<T>, b: seq<T>)
    ensures Filter(p, a + b) == Filter(p, a) + Filter(p, b)
    decreases |a|
  {
    if |a| > 0 {
      FilterAppend(p, a[1..], b);
      assert (a + b)[1..] == a[1..] + b;
    } else {
      assert a + b == b;
    }
  }

  /** Two positions satisfying `p` make a count of at least two. */
  lemma CountTwo<T>(p: T -> bool, s: seq<T>, i: int, j: int)
    requires 0 <= i < j < |s| && p(s[i]) && p(s[j])
    ensures CountIf(p, s) >= 2
  {
    assert s == s[..j] + s[j..];
    FilterAppend(p, s[..j], s[j..]);
    assert s[..j] == s[..i] + s[i..j];
    FilterAppend(p, s[..i], s[i..j]);
    assert s[i..j][0] == s[i];
    assert s[j..][0] == s[j];
  }

  /** A positive count has a witness. */
  lemma {:induction false} CountWitness<T>(p: T -> bool, s: seq<T>)
    requires CountIf(p, s) > 0
    ensures exists k :: 0 <= k < |s| && p(s[k])
    decreases |s|
  {
    if !p(s[0]) {
      CountWitness(p, s[1..]);
      var k :| 0 <= k < |s[1..]| && p(s[1..][k]);
      assert s[k + 1] == s[1..][k];
    }
  }

  /** No position satisfies `p` exactly when the count is zero. */
  lemma {:induction false} CountNone<T>(p: T -> bool, s: seq<T>)
    requires forall k :: 0 <= k < |s| ==> !p(s[k])
    ensures CountIf(p, s) == 0
    decreases |s|
  {
    if |s| > 0 {
      CountNone(p, s[1..]);
    }
  }

  /** A single position satisfying `p` makes a count of one. */
  lemma CountOne<T>(p: T -> bool, s: seq<T>, k: int)
    requires 0 <= k < |s| && p(s[k])
    requires forall j :: 0 <= j < |s| && j != k ==> !p(s[j])
    ensures CountIf(p, s) == 1
  {
    assert s == s[..k] + s[k..];
    FilterAppend(p, s[..k], s[k..]);
    assert s[k..] == [s[k]] + s[k + 1..];
    CountNone(p, s[..k]);
    CountNone(p, s[k + 1..]);
  }

  function Flatten<T>(groups: seq<seq<T>>): seq<T>
    decreases |groups|
  {
    if |groups| == 0 then [] else groups[0] + Flatten(groups[1..])
  }

  lemma FlattenCons<T>(g: seq<T>, groups: seq<seq<T>>)
    ensures Flatten([g] + groups) == g + Flatten(groups)
  {
    assert ([g] + groups)[1..] == groups;
  }
}
