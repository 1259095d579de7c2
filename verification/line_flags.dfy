/**
  The merger's line scanners (`processEpubFile`, `updateOPF`) keep boolean
  flags such as "inside the body" or "inside the manifest" that certain marker
  lines switch on or off. This module states, once, what such a flag is at
  any line: it is on exactly when the last marker line before it switched it on.
*/
module LineFlags {

  /** What one line does to a flag. */
  datatype Effect = Raise | Lower | Hold

  function Apply(flag: bool, e: Effect): bool {
    match e
    case Raise => true
    case Lower => false
    case Hold => flag
  }

  /** The flag after the lines with effects `es`, starting from `flag`, scanned left to right. */
  function Run(flag: bool, es: seq<Effect>): bool
    decreases |es|
  {
    if |es| == 0 then flag else Run(Apply(flag, es[0]), es[1..])
  }

  /**
    Reference reading of a flag before line `i`: some earlier line raised it
    and no later line before `i` touched it, or it started on and nothing
    before `i` touched it.
  */
  ghost predicate RaisedBefore(flag: bool, es: seq<Effect>, i: int)
    requires 0 <= i <= |es|
  {
    || (exists j :: 0 <= j < i && es[j] == Raise && forall k :: j < k < i ==> es[k] == Hold)
    || (flag && forall k :: 0 <= k < i ==> es[k] == Hold)
  }

  /** The flag before line `i` is the flag before line `i - 1` of the lines after the first, started from the first line's effect. */
  lemma RunPrefixStep(flag: bool, es: seq<Effect>, i: int)
    requires 0 < i <= |es|
    ensures Run(flag, es[..i]) == Run(Apply(flag, es[0]), es[1..][..i - 1])
  {
    assert es[..i][0] == es[0];
    assert es[..i][1..] == es[1..][..i - 1];
  }

  lemma {:induction false} RunSnoc(flag: bool, es: seq<Effect>, e: Effect)
    ensures Run(flag, es + [e]) == Apply(Run(flag, es), e)
    decreases |es|
  {
    if |es| > 0 {
      assert (es + [e])[1..] == es[1..] + [e];
      RunSnoc(Apply(flag, es[0]), es[1..], e);
    }
  }

  /** The left-to-right scan agrees with the reference reading at every line. */
  lemma {:induction false} RunIsRaisedBefore(flag: bool, es: seq<Effect>, i: int)
    requires 0 <= i <= |es|
    ensures Run(flag, es[..i]) <==> RaisedBefore(flag, es, i)
    decreases i
  {
    if i > 0 {
      RunIsRaisedBefore(flag, es, i - 1);
      assert es[..i] == es[..i - 1] + [es[i - 1]];
      RunSnoc(flag, es[..i - 1], es[i - 1]);
      match es[i - 1]
      case Raise =>
        assert es[i - 1] == Raise;
      case Lower =>
        assert !RaisedBefore(flag, es, i) by {
          forall j | 0 <= j < i && es[j] == Raise ensures !(forall k :: j < k < i ==> es[k] == Hold) {
            assert j < i - 1;
            assert es[i - 1] != Hold;
          }
          assert es[i - 1] != Hold;
        }
      case Hold =>
        if RaisedBefore(flag, es, i - 1) {
          if exists j :: 0 <= j < i - 1 && es[j] == Raise && forall k :: j < k < i - 1 ==> es[k] == Hold {
            var j :| 0 <= j < i - 1 && es[j] == Raise && forall k :: j < k < i - 1 ==> es[k] == Hold;
            assert forall k :: j < k < i ==> es[k] == Hold;
          }
        }
        if RaisedBefore(flag, es, i) {
          if exists j :: 0 <= j < i && es[j] == Raise && forall k :: j < k < i ==> es[k] == Hold {
            var j :| 0 <= j < i && es[j] == Raise && forall k :: j < k < i ==> es[k] == Hold;
            assert j < i - 1;
          }
        }
    } else {
      assert es[..0] == [];
    }
  }
}
