/**
  The per-job `fileOptions` the front end sends, the lookup of designated
  non-chapter documents (`nonChapterXHTMLIncludes`) and the de-duplication
  done before a merge (`cleanFileOptions`).
*/
module Options {
  import opened Wrappers

  /** A document to keep by exact base name, placed before or after the chapters. */
  datatype NonChapterDoc = NonChapterDoc(format: string, isBeforeChapters: bool, descriptor: string)

  /** One literal text replacement applied inside chapter bodies. */
  datatype Replacement = Replacement(before: string, after: string)

  /**
    `chapterFormat` holds the `format` strings of the chapter patterns in
    configured order; the running chapter counter `bodyInd` is threaded
    separately through extraction.
  */
  datatype FileOptions = FileOptions(
    chapterFormat: seq<string>,
    nonChapterXHTML: seq<NonChapterDoc>,
    replacements: seq<Replacement>,
    outputName: string)

  /** `format` occurs in `docs` before index `i`. */
  predicate FormatBefore(docs: seq<NonChapterDoc>, format: string, i: int)
    requires 0 <= i <= |docs|
  {
    exists j :: 0 <= j < i && docs[j].format == format
  }

  /**
    `nonChapterXHTMLIncludes`: the first designated document whose format is
    exactly `name`, or nothing (the source's `false`).
  */
  function NonChapterLookup(docs: seq<NonChapterDoc>, name: string): (r: Option<NonChapterDoc>)
    ensures r.None? <==> !FormatBefore(docs, name, |docs|)
    ensures r.Some? ==> exists i :: 0 <= i < |docs| && docs[i] == r.value && r.value.format == name
                                    && !FormatBefore(docs, name, i)
  {
    if |docs| == 0 then None
    else if docs[0].format == name then
      assert !FormatBefore(docs, name, 0);
      Some(docs[0])
    else
      var r := NonChapterLookup(docs[1..], name);
      assert forall j :: 0 < j < |docs| ==> docs[j] == docs[1..][j - 1];
      if r.Some? then
        var i :| 0 <= i < |docs[1..]| && docs[1..][i] == r.value && r.value.format == name
                 && !FormatBefore(docs[1..], name, i);
        assert docs[i + 1] == r.value;
        r
      else
        r
  }

  /** `docs` is a subsequence of `whole`: obtained by deleting elements, keeping order. */
  predicate IsSubsequence<T(==)>(docs: seq<T>, whole: seq<T>)
    decreases |whole|
  {
    |docs| == 0 || (|whole| > 0 && ((docs[0] == whole[0] && IsSubsequence(docs[1..], whole[1..])) || IsSubsequence(docs, whole[1..])))
  }

  /** The formats of `docs` are pairwise distinct. */
  predicate DistinctFormats(docs: seq<NonChapterDoc>) {
    forall i, j :: 0 <= i < j < |docs| ==> docs[i].format != docs[j].format
  }

  /**
    The `filter` of `cleanFileOptions`, with `seen` the formats already kept:
    keeps a document iff its format has not been kept before.
  */
  function DedupFrom(docs: seq<NonChapterDoc>, seen: seq<string>): (r: seq<NonChapterDoc>)
    ensures IsSubsequence(r, docs)
    ensures DistinctFormats(r)
    ensures forall k :: 0 <= k < |r| ==> r[k].format !in seen
    ensures forall name :: name !in seen ==> NonChapterLookup(r, name) == NonChapterLookup(docs, name)
    ensures forall name :: name in seen ==> NonChapterLookup(r, name).None?
    decreases |docs|
  {
    if |docs| == 0 then []
    else if docs[0].format in seen then
      var r := DedupFrom(docs[1..], seen);
      assert forall name :: name !in seen ==> NonChapterLookup(docs, name) == NonChapterLookup(docs[1..], name);
      r
    else
      var rest := DedupFrom(docs[1..], seen + [docs[0].format]);
      KeepFirst(docs[0], rest, seen);
      [docs[0]] + rest
  }

  /** The lookup of a name in a list that starts with `d`. */
  lemma LookupCons(d: NonChapterDoc, rest: seq<NonChapterDoc>)
    ensures forall name :: NonChapterLookup([d] + rest, name) == if d.format == name then Some(d) else NonChapterLookup(rest, name)
  {
    assert ([d] + rest)[1..] == rest;
  }

  /** The kept branch of `DedupFrom`: a new format in front of a list free of it. */
  lemma KeepFirst(d: NonChapterDoc, rest: seq<NonChapterDoc>, seen: seq<string>)
    requires DistinctFormats(rest)
    requires forall k :: 0 <= k < |rest| ==> rest[k].format !in seen + [d.format]
    requires forall name :: name in seen + [d.format] ==> NonChapterLookup(rest, name).None?
    requires d.format !in seen
    ensures DistinctFormats([d] + rest)
    ensures forall k :: 0 <= k < |[d] + rest| ==> ([d] + rest)[k].format !in seen
    ensures forall name :: name in seen ==> NonChapterLookup([d] + rest, name).None?
    ensures forall name :: name !in seen && name != d.format ==> NonChapterLookup([d] + rest, name) == NonChapterLookup(rest, name)
    ensures NonChapterLookup([d] + rest, d.format) == Some(d)
  {
    LookupCons(d, rest);
    var r := [d] + rest;
    assert forall k :: 0 < k < |r| ==> r[k] == rest[k - 1];
  }

  /** `cleanFileOptions`: designated documents de-duplicated by format, keeping the first. */
  function CleanFileOptions(opts: FileOptions): (r: FileOptions)
    ensures r.chapterFormat == opts.chapterFormat
    ensures r.replacements == opts.replacements && r.outputName == opts.outputName
    ensures IsSubsequence(r.nonChapterXHTML, opts.nonChapterXHTML)
    ensures DistinctFormats(r.nonChapterXHTML)
    ensures forall name :: NonChapterLookup(r.nonChapterXHTML, name) == NonChapterLookup(opts.nonChapterXHTML, name)
    ensures DedupFrom(r.nonChapterXHTML, []) == r.nonChapterXHTML
  {
    var docs := DedupFrom(opts.nonChapterXHTML, []);
    DedupDistinct(docs, []);
    opts.(nonChapterXHTML := docs)
  }

  /** Every format of the input survives the clean-up, as its first occurrence. */
  lemma CleanKeepsFirstOccurrence(opts: FileOptions, i: int)
    requires 0 <= i < |opts.nonChapterXHTML|
    requires !FormatBefore(opts.nonChapterXHTML, opts.nonChapterXHTML[i].format, i)
    ensures opts.nonChapterXHTML[i] in CleanFileOptions(opts).nonChapterXHTML
  {
    var docs := opts.nonChapterXHTML;
    var name := docs[i].format;
    var r := NonChapterLookup(docs, name);
    assert FormatBefore(docs, name, |docs|);
    var i' :| 0 <= i' < |docs| && docs[i'] == r.value && r.value.format == name && !FormatBefore(docs, name, i');
    assert forall j :: 0 <= j < i ==> docs[j].format != name;
    assert forall j :: 0 <= j < i' ==> docs[j].format != name;
    assert i' == i;
    var cleaned := CleanFileOptions(opts).nonChapterXHTML;
    var c := NonChapterLookup(cleaned, name);
    assert c == r;
    var k :| 0 <= k < |cleaned| && cleaned[k] == c.value && c.value.format == name && !FormatBefore(cleaned, name, k);
  }

  lemma {:induction false} DedupDistinct(docs: seq<NonChapterDoc>, seen: seq<string>)
    requires DistinctFormats(docs)
    requires forall k :: 0 <= k < |docs| ==> docs[k].format !in seen
    ensures DedupFrom(docs, seen) == docs
    decreases |docs|
  {
    if |docs| > 0 {
      assert forall k :: 0 <= k < |docs[1..]| ==> docs[1..][k] == docs[k + 1];
      DedupDistinct(docs[1..], seen + [docs[0].format]);
    }
  }
}
