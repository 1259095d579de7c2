/**
  The stable sort `Array.prototype.sort` performs with a comparator, as a
  pure insertion sort over a "less than or equal" relation. Stability means
  elements the relation cannot tell apart keep their input order.
*/
module Sorting {
  import opened Seqs

  /** `le` relates every pair one way or the other and is transitive. */
  ghost predicate TotalPreorder<T(!new)>(le: (T, T) -> bool) {
    && (forall a, b :: le(a, b) || le(b, a))
    && Transitive(le)
  }

  ghost predicate Transitive<T(!new)>(le: (T, T) -> bool) {
    forall a, b, c :: le(a, b) && le(b, c) ==> le(a, c)
  }

  predicate Sorted<T>(le: (T, T) -> bool, s: seq<T>) {
    forall i, j :: 0 <= i < j < |s| ==> le(s[i], s[j])
  }

  /** Places `x` before the first element it is `le`. */
  function Insert<T>(le: (T, T) -> bool, x: T, t: seq<T>): (r: seq<T>)
    ensures |r| == |t| + 1
    decreases |t|
  {
    if |t| == 0 then [x]
    else if le(x, t[0]) then [x] + t
    else [t[0]] + Insert(le, x, t[1..])
  }

  /** Insertion sort from the back, so that earlier equals end up first. */
  function Sort<T>(le: (T, T) -> bool, s: seq<T>): (r: seq<T>)
    ensures |r| == |s|
    decreases |s|
  {
    if |s| == 0 then [] else Insert(le, s[0], Sort(le, s[1..]))
  }

  lemma {:induction false} InsertPermutes<T>(le: (T, T) -> bool, x: T, t: seq<T>)
    ensures multiset(Insert(le, x, t)) == multiset{x} + multiset(t)
    decreases |t|
  {
    if |t| > 0 && !le(x, t[0]) {
      InsertPermutes(le, x, t[1..]);
      assert t == [t[0]] + t[1..];
    }
  }

  /** The sort is a permutation of its input. */
  lemma {:induction false} SortPermutes<T>(le: (T, T) -> bool, s: seq<T>)
    ensures multiset(Sort(le, s)) == multiset(s)
    decreases |s|
  {
    if |s| > 0 {
      SortPermutes(le, s[1..]);
      InsertPermutes(le, s[0], Sort(le, s[1..]));
      assert s == [s[0]] + s[1..];
    }
  }

  lemma {:induction false} InsertMaps<T, U>(le: (T, T) -> bool, f: T -> U, x: T, t: seq<T>)
    ensures multiset(MapSeq(f, Insert(le, x, t))) == multiset{f(x)} + multiset(MapSeq(f, t))
    decreases |t|
  {
    if |t| > 0 {
      if le(x, t[0]) {
        assert MapSeq(f, Insert(le, x, t)) == [f(x)] + MapSeq(f, t);
      } else {
        InsertMaps(le, f, x, t[1..]);
        assert MapSeq(f, Insert(le, x, t)) == [f(t[0])] + MapSeq(f, Insert(le, x, t[1..]));
        assert MapSeq(f, t) == [f(t[0])] + MapSeq(f, t[1..]);
      }
    }
  }

  /** Any projection of the sorted sequence is a permutation of the same projection of the input. */
  lemma {:induction false} SortPermutesMapped<T, U>(le: (T, T) -> bool, f: T -> U, s: seq<T>)
    ensures multiset(MapSeq(f, Sort(le, s))) == multiset(MapSeq(f, s))
    decreases |s|
  {
    if |s| > 0 {
      SortPermutesMapped(le, f, s[1..]);
      InsertMaps(le, f, s[0], Sort(le, s[1..]));
      assert MapSeq(f, s) == [f(s[0])] + MapSeq(f, s[1..]);
    }
  }

  lemma {:induction false} InsertSorted<T(!new)>(le: (T, T) -> bool, x: T, t: seq<T>)
    requires TotalPreorder(le)
    requires Sorted(le, t)
    ensures Sorted(le, Insert(le, x, t))
    ensures forall k :: 0 <= k < |t| + 1 ==> Insert(le, x, t)[k] == x || Insert(le, x, t)[k] in t
    decreases |t|
  {
    if |t| > 0 {
      if le(x, t[0]) {
        var r := [x] + t;
        forall i, j | 0 <= i < j < |r| ensures le(r[i], r[j]) {
          if i == 0 {
            if j > 1 {
              assert le(t[0], t[j - 1]);
            }
          }
        }
      } else {
        var rest := Insert(le, x, t[1..]);
        InsertSorted(le, x, t[1..]);
        assert le(t[0], x);
        var r := [t[0]] + rest;
        forall i, j | 0 <= i < j < |r| ensures le(r[i], r[j]) {
          if i == 0 {
            assert r[j] == rest[j - 1];
            if rest[j - 1] != x {
              assert rest[j - 1] in t[1..];
            }
          } else {
            assert r[i] == rest[i - 1] && r[j] == rest[j - 1];
          }
        }
      }
    }
  }

  /** Under a total preorder the result is sorted. */
  lemma {:induction false} SortSorted<T(!new)>(le: (T, T) -> bool, s: seq<T>)
    requires TotalPreorder(le)
    ensures Sorted(le, Sort(le, s))
    decreases |s|
  {
    if |s| > 0 {
      SortSorted(le, s[1..]);
      InsertSorted(le, s[0], Sort(le, s[1..]));
    }
  }

  /**
    `p` picks out exactly one class of elements the relation cannot tell
    apart.
  */
  ghost predicate IsClass<T(!new)>(le: (T, T) -> bool, p: T -> bool) {
    forall a, b :: p(a) ==> (p(b) <==> le(a, b) && le(b, a))
  }

  lemma {:induction false} InsertFilter<T(!new)>(le: (T, T) -> bool, p: T -> bool, x: T, t: seq<T>)
    requires Transitive(le)
    requires IsClass(le, p)
    ensures Filter(p, Insert(le, x, t)) == if p(x) then [x] + Filter(p, t) else Filter(p, t)
    decreases |t|
  {
    if |t| > 0 && !le(x, t[0]) {
      InsertFilter(le, p, x, t[1..]);
      if p(x) {
        assert !p(t[0]);
      }
    }
  }

  /** Stability: within each class the sorted order is the input order. */
  lemma {:induction false} SortStable<T(!new)>(le: (T, T) -> bool, p: T -> bool, s: seq<T>)
    requires Transitive(le)
    requires IsClass(le, p)
    ensures Filter(p, Sort(le, s)) == Filter(p, s)
    decreases |s|
  {
    if |s| > 0 {
      SortStable(le, p, s[1..]);
      InsertFilter(le, p, s[0], Sort(le, s[1..]));
    }
  }

  /** Every count is preserved by the sort. */
  lemma {:induction false} SortCounts<T>(le: (T, T) -> bool, p: T -> bool, s: seq<T>)
    ensures CountIf(p, Sort(le, s)) == CountIf(p, s)
    decreases |s|
  {
    if |s| > 0 {
      SortCounts(le, p, s[1..]);
      InsertCounts(le, p, s[0], Sort(le, s[1..]));
    }
  }

  lemma {:induction false} InsertCounts<T>(le: (T, T) -> bool, p: T -> bool, x: T, t: seq<T>)
    ensures CountIf(p, Insert(le, x, t)) == CountIf(p, t) + (if p(x) then 1 else 0)
    decreases |t|
  {
    if |t| > 0 && !le(x, t[0]) {
      InsertCounts(le, p, x, t[1..]);
    }
  }

  /** A subsequence picked by `p` out of a sorted sequence is sorted. */
  lemma {:induction false} FilterSorted<T>(le: (T, T) -> bool, p: T -> bool, s: seq<T>)
    requires Sorted(le, s)
    ensures Sorted(le, Filter(p, s))
    decreases |s|
  {
    if |s| > 0 {
      FilterSorted(le, p, s[1..]);
      var rest := Filter(p, s[1..]);
      if p(s[0]) {
        var r := [s[0]] + rest;
        forall i, j | 0 <= i < j < |r| ensures le(r[i], r[j]) {
          if i == 0 {
            assert r[j] == rest[j - 1] && rest[j - 1] in s[1..];
          } else {
            assert r[i] == rest[i - 1] && r[j] == rest[j - 1];
          }
        }
      }
    }
  }
}
