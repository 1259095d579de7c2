/**
  `splitFileName` of util/file-functions.js: a path is cut into the directory
  (everything up to and including the last `/` or `\`), the base name and the
  extension (from the last `.` of the remainder, unless that dot is its first
  character).
*/
module FileFunctions {
  import opened Wrappers
  import opened Text

  datatype FileParts = FileParts(dir: string, name: string, ext: string)

  datatype SplitError =
    /** The input was the single token `.`; carries the thrown message. */
    | InvalidFileName(message: string)
    /**
      The directory regex did not match, so reading its first group threw: the
      regex's `.` does not match line terminators and the pattern is anchored.
    */
    | NoMatch

  const Separators: set<char> := {'/', '\\'}

  /** The characters JavaScript regexes treat as line terminators. */
  predicate IsLineTerminator(c: char) {
    c == '\n' || c == '\r' || c == '\U{2028}' || c == '\U{2029}'
  }

  predicate HasLineTerminator(s: string) {
    exists k :: 0 <= k < |s| && IsLineTerminator(s[k])
  }

  predicate EndsInSeparator(s: string) {
    |s| > 0 && s[|s| - 1] in Separators
  }

  predicate NoSeparator(s: string) {
    forall k :: 0 <= k < |s| ==> s[k] !in Separators
  }

  /**
    Splits a remainder that holds no separator into name and extension. The
    extension starts at the last dot unless that dot is missing or first;
    then the whole remainder is the name. An extension holds exactly one
    dot, its first character.
  */
  function SplitExtension(rest: string): (r: (string, string))
    ensures r.0 + r.1 == rest
    ensures LastIndexIn(rest, {'.'}) <= 0 ==> r.1 == ""
    ensures LastIndexIn(rest, {'.'}) > 0 ==>
      && |r.0| == LastIndexIn(rest, {'.'})
      && r.1[0] == '.'
      && forall k :: 0 < k < |r.1| ==> r.1[k] != '.'
  {
    var d := LastIndexIn(rest, {'.'});
    if d <= 0 then (rest, "")
    else
      assert rest == rest[..d] + rest[d..];
      assert forall k :: 0 < k < |rest[d..]| ==> rest[d..][k] == rest[d + k];
      (rest[..d], rest[d..])
  }

  lemma AfterLastSeparator(s: string)
    ensures NoSeparator(s[LastIndexIn(s, Separators) + 1..])
  {
    var k := LastIndexIn(s, Separators);
    var rest := s[k + 1..];
    forall j | 0 <= j < |rest| ensures rest[j] !in Separators {
      assert rest[j] == s[k + 1 + j];
    }
  }

  /** Cutting a sequence and joining the pieces gives it back. */
  lemma CutJoin(s: string, i: int, a: string, b: string)
    requires 0 <= i <= |s| && a + b == s[i..]
    ensures s[..i] + a + b == s
  {
    assert s[..i] + s[i..] == s;
  }

  /** The split of a path the directory regex matches. */
  function SplitPath(s: string): (r: FileParts)
    ensures r.dir + r.name + r.ext == s
    ensures r.dir == "" || EndsInSeparator(r.dir)
    ensures NoSeparator(r.name + r.ext)
    ensures (r.name, r.ext) == SplitExtension(r.name + r.ext)
  {
    var k := LastIndexIn(s, Separators);
    var rest := s[k + 1..];
    AfterLastSeparator(s);
    var parts := SplitExtension(rest);
    CutJoin(s, k + 1, parts.0, parts.1);
    FileParts(s[..k + 1], parts.0, parts.1)
  }

  /** `splitFileName`: fails on the single token `.` and on a path the anchored directory regex cannot match. */
  function SplitFileName(s: string): (r: Result<FileParts, SplitError>)
    ensures r.Failure? <==> s == "." || HasLineTerminator(s)
    ensures s == "." ==> r == Failure(InvalidFileName("Invalid file name: ."))
    ensures r.Success? ==> r.value.dir + r.value.name + r.value.ext == s
    ensures r.Success? ==> r.value.dir == "" || EndsInSeparator(r.value.dir)
    ensures r.Success? ==> NoSeparator(r.value.name + r.value.ext)
    ensures r.Success? ==> (r.value.name, r.value.ext) == SplitExtension(r.value.name + r.value.ext)
  {
    if s == "." then Failure(InvalidFileName("Invalid file name: ."))
    else if HasLineTerminator(s) then Failure(NoMatch)
    else Success(SplitPath(s))
  }

  /** An empty input, or one ending in a separator, has an empty name and extension. */
  lemma EmptyRemainder(s: string)
    requires !HasLineTerminator(s)
    requires s == "" || EndsInSeparator(s)
    ensures SplitFileName(s) == Success(FileParts(s, "", ""))
  {
  }

  lemma LastSeparatorOfJoin(d: string, r: string)
    requires d == "" || EndsInSeparator(d)
    requires NoSeparator(r)
    ensures LastIndexIn(d + r, Separators) == |d| - 1
  {
    var s := d + r;
    assert forall j :: |d| <= j < |s| ==> s[j] == r[j - |d|];
    assert d != "" ==> s[|d| - 1] in Separators;
  }

  /**
    Dots in the directory never reach the name or extension: a remainder
    without separators under any directory splits as the remainder alone
    (the split `SplitFileName` returns whenever it succeeds).
  */
  lemma DirectoryDotsIgnored(d: string, r: string)
    requires d == "" || EndsInSeparator(d)
    requires NoSeparator(r)
    ensures SplitPath(d + r) == FileParts(d, SplitExtension(r).0, SplitExtension(r).1)
  {
    LastSeparatorOfJoin(d, r);
    assert (d + r)[|d|..] == r;
    assert (d + r)[..|d|] == d;
  }
}
