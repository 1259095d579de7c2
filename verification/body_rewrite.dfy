/**
  `processEpubFile` of index.js: the configured replacements are applied,
  line by line, only to the lines between a `<body` line and the next
  `</body` line; everything else passes through. With no replacements the
  text is returned untouched.
*/
module BodyRewrite {
  import opened Text
  import opened Replace
  import opened LineFlags
  import opened Options

  /** A line holding `<body` switches the body state on; it is tested first. */
  predicate OpensBody(line: string) {
    Contains(line, "<body")
  }

  predicate ClosesBody(line: string) {
    Contains(line, "</body")
  }

  predicate IsBodyMarker(line: string) {
    OpensBody(line) || ClosesBody(line)
  }

  function BodyEffect(line: string): Effect {
    if OpensBody(line) then Raise else if ClosesBody(line) then Lower else Hold
  }

  function BodyEffects(lines: seq<string>): (r: seq<Effect>)
    ensures |r| == |lines|
    ensures forall k :: 0 <= k < |lines| ==> r[k] == BodyEffect(lines[k])
  {
    seq(|lines|, k requires 0 <= k < |lines| => BodyEffect(lines[k]))
  }

  /** Every replacement, in list order, each one a `replaceAll` on the result of the previous. */
  function ApplyReplacements(line: string, reps: seq<Replacement>): string
    decreases |reps|
  {
    if |reps| == 0 then line
    else ApplyReplacements(ReplaceAll(line, reps[0].before, reps[0].after), reps[1..])
  }

  /** The loop of `processEpubFile` over the lines, with `inBody` its state. */
  function ProcessLines(lines: seq<string>, reps: seq<Replacement>, inBody: bool): (r: seq<string>)
    ensures |r| == |lines|
    decreases |lines|
  {
    if |lines| == 0 then []
    else
      var line := lines[0];
      if OpensBody(line) then [line] + ProcessLines(lines[1..], reps, true)
      else if ClosesBody(line) then [line] + ProcessLines(lines[1..], reps, false)
      else if inBody then [ApplyReplacements(line, reps)] + ProcessLines(lines[1..], reps, inBody)
      else [line] + ProcessLines(lines[1..], reps, inBody)
  }

  /** `processEpubFile(data, replacements)`. */
  function ProcessEpubFile(data: string, reps: seq<Replacement>): (r: string)
    ensures |reps| == 0 ==> r == data
  {
    if |reps| == 0 then data
    else JoinLines(ProcessLines(SplitLines(data), reps, false))
  }

  lemma BodyEffectsTail(lines: seq<string>)
    requires |lines| > 0
    ensures BodyEffects(lines[1..]) == BodyEffects(lines)[1..]
  {
  }

  /** One step of the scan: the first line's output, and the rest scanned from the flag after it. */
  lemma ProcessLinesStep(lines: seq<string>, reps: seq<Replacement>, inBody: bool)
    requires |lines| > 0
    ensures var out := ProcessLines(lines, reps, inBody);
      && out[0] == (if IsBodyMarker(lines[0]) || !inBody then lines[0] else ApplyReplacements(lines[0], reps))
      && out[1..] == ProcessLines(lines[1..], reps, Apply(inBody, BodyEffect(lines[0])))
  {
  }

  /** Line `i` of the scan: markers and lines outside the body are kept, body lines rewritten. */
  lemma {:induction false} ProcessLinesAt(lines: seq<string>, reps: seq<Replacement>, inBody: bool, i: int)
    requires 0 <= i < |lines|
    ensures ProcessLines(lines, reps, inBody)[i] ==
      if IsBodyMarker(lines[i]) || !Run(inBody, BodyEffects(lines)[..i]) then lines[i]
      else ApplyReplacements(lines[i], reps)
    decreases i
  {
    var es := BodyEffects(lines);
    ProcessLinesStep(lines, reps, inBody);
    if i == 0 {
      assert es[..0] == [];
    } else {
      var next := Apply(inBody, BodyEffect(lines[0]));
      var out := ProcessLines(lines, reps, inBody);
      assert out[i] == out[1..][i - 1];
      ProcessLinesAt(lines[1..], reps, next, i - 1);
      RunPrefixStep(inBody, es, i);
      BodyEffectsTail(lines);
      assert lines[1..][i - 1] == lines[i];
    }
  }

  /**
    The output line `i` of `processEpubFile` is the input line with every
    replacement applied exactly when it is no marker and the last marker
    line before it opened the body; otherwise it is the input line.
  */
  lemma ProcessedLine(data: string, reps: seq<Replacement>, i: int)
    requires |reps| > 0
    requires 0 <= i < |SplitLines(data)|
    ensures ProcessEpubFile(data, reps) == JoinLines(ProcessLines(SplitLines(data), reps, false))
    ensures |ProcessLines(SplitLines(data), reps, false)| == |SplitLines(data)|
    ensures var lines := SplitLines(data);
      ProcessLines(lines, reps, false)[i] ==
        if !IsBodyMarker(lines[i]) && RaisedBefore(false, BodyEffects(lines), i)
        then ApplyReplacements(lines[i], reps)
        else lines[i]
  {
    var lines := SplitLines(data);
    ProcessLinesAt(lines, reps, false, i);
    RunIsRaisedBefore(false, BodyEffects(lines), i);
  }

  lemma {:induction false} ProcessLinesNoBody(lines: seq<string>, reps: seq<Replacement>)
    requires forall k :: 0 <= k < |lines| ==> !OpensBody(lines[k])
    ensures ProcessLines(lines, reps, false) == lines
    decreases |lines|
  {
    if |lines| > 0 {
      ProcessLinesNoBody(lines[1..], reps);
    }
  }

  /**
    A text with no `<body` line and no carriage return comes back unchanged,
    whatever the replacements.
  */
  lemma NoBodyNoChange(data: string, reps: seq<Replacement>)
    requires '\r' !in data
    requires forall k :: 0 <= k < |SplitLines(data)| ==> !OpensBody(SplitLines(data)[k])
    ensures ProcessEpubFile(data, reps) == data
  {
    if |reps| > 0 {
      ProcessLinesNoBody(SplitLines(data), reps);
      JoinSplitLines(data);
    }
  }

  /** Replacements whose `after` equals `$&` (the match itself) change nothing. */
  lemma {:induction false} SelfReplacementsChangeNothing(line: string, reps: seq<Replacement>)
    requires forall k :: 0 <= k < |reps| ==> reps[k].after == "$&"
    ensures ApplyReplacements(line, reps) == line
    decreases |reps|
  {
    if |reps| > 0 {
      ReplaceAllByMatchIsIdentity(line, reps[0].before);
      SelfReplacementsChangeNothing(line, reps[1..]);
    }
  }
}
