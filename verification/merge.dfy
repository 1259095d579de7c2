/**
  One merge job, in the order the upload handler of index.js runs the
  stages: clean the options, extract every archive into one working tree,
  order the files, write the navigation document and the NCX, and rewrite
  the package document. Writes replace what is at a path; reads of a path
  that is not in the tree fail and are caught, leaving the tree unchanged.
*/
module Merge {
  import opened Wrappers
  import opened Text
  import opened Options
  import opened Entries
  import opened Seqs
  import opened Extract
  import opened FileOrder
  import opened Toc
  import opened Opf

  datatype Merged = Merged(tree: map<string, string>, files: seq<OrderedFile>)

  /** The loop of the handler over the uploaded archives, sharing one job. */
  function PopulateAll(opts: FileOptions, job: Job, archives: seq<Option<seq<ArchiveEntry>>>): Job
    decreases |archives|
  {
    if |archives| == 0 then job
    else PopulateAll(opts, PopulateEpubDirectory(opts, job, archives[0]), archives[1..])
  }

  lemma {:induction false} PopulateAllPreserves(opts: FileOptions, job: Job, archives: seq<Option<seq<ArchiveEntry>>>)
    requires Consistent(job)
    ensures Consistent(PopulateAll(opts, job, archives))
    ensures job.files <= PopulateAll(opts, job, archives).files
    decreases |archives|
  {
    if |archives| > 0 {
      var next := PopulateEpubDirectory(opts, job, archives[0]);
      if archives[0].Some? {
        ExtractEntriesPreserves(opts, job, archives[0].value);
      }
      PopulateAllPreserves(opts, next, archives[1..]);
    }
  }

  /** Every listed file exists in the tree. */
  ghost predicate AllPresent(m: Merged) {
    forall k :: 0 <= k < |m.files| ==> PathOf(m.files[k].file) in m.tree
  }

  /** Writes a generated document at its entry's path and lists it, or does nothing when generation failed. */
  function WriteGenerated(m: Merged, g: Option<Generated>): (r: Merged)
    ensures g.None? ==> r == m
    ensures g.Some? ==> r.files == m.files + [g.value.entry]
    ensures g.Some? ==> r.tree == m.tree[PathOf(g.value.entry.file) := g.value.text]
    ensures AllPresent(m) ==> AllPresent(r)
  {
    match g
    case None => m
    case Some(gen) => Merged(m.tree[PathOf(gen.entry.file) := gen.text], m.files + [gen.entry])
  }

  /**
    `updateOPF` against the tree: the package document is read from and
    written back to its path; every other path keeps its content.
  */
  function RewriteOpf(m: Merged, title: string): (r: Merged)
    ensures r.files == m.files && r.tree.Keys == m.tree.Keys
    ensures FirstOpf(m.files).None? ==> r == m
    ensures FirstOpf(m.files).Some? ==>
      var path := PathOf(FirstOpf(m.files).value.file);
      && (forall p :: p in m.tree && p != path ==> r.tree[p] == m.tree[p])
      && (path in m.tree ==> r.tree[path] == UpdateOpf(m.files, m.tree[path], title).value)
    ensures AllPresent(m) ==> AllPresent(r)
  {
    match FirstOpf(m.files)
    case None => m
    case Some(opf) =>
      var path := PathOf(opf.file);
      if path !in m.tree then m
      else m.(tree := m.tree[path := UpdateOpf(m.files, m.tree[path], title).value])
  }

  lemma OrderedPresent(le: (FileRecord, FileRecord) -> bool, job: Job)
    requires Consistent(job)
    ensures AllPresent(Merged(job.tree, OrderWith(le, job.files)))
  {
    var r := OrderWith(le, job.files);
    forall k | 0 <= k < |r| ensures PathOf(r[k].file) in job.tree {
      OrderWithBands(le, job.files);
      assert MapSeq(FileOf, r)[k] == r[k].file;
      assert r[k].file in multiset(job.files);
      var p :| 0 <= p < |job.files| && job.files[p] == r[k].file;
    }
  }

  /**
    The entries the handler lists after the ordered files: `contents.xhtml`
    when the navigation template qualifies (`nav`), then `toc.ncx` when the
    NCX template does (`ncx`), both in the directory of the first chapter
    `fc`; nothing when there is no first chapter.
  */
  function TocList(fc: Option<OrderedFile>, nav: bool, ncx: bool): seq<OrderedFile> {
    if fc.None? then []
    else (if nav then [ContentsEntry(fc.value)] else []) + (if ncx then [TocEntry(fc.value)] else [])
  }

  /** `TocList` is the navigation entry, if any, followed by the NCX entry, if any. */
  lemma TocListSplit(files: seq<OrderedFile>, fc: Option<OrderedFile>, nav: bool, ncx: bool)
    ensures files + TocList(fc, nav, ncx) ==
      files + (if fc.Some? && nav then [ContentsEntry(fc.value)] else []) + (if fc.Some? && ncx then [TocEntry(fc.value)] else [])
  {
    var navPart: seq<OrderedFile> := if fc.Some? && nav then [ContentsEntry(fc.value)] else [];
    var ncxPart: seq<OrderedFile> := if fc.Some? && ncx then [TocEntry(fc.value)] else [];
    assert TocList(fc, nav, ncx) == navPart + ncxPart;
    assert files + navPart + ncxPart == files + (navPart + ncxPart);
  }

  /** Writing the navigation document appends `contents.xhtml` exactly when it is generated, and keeps the first chapter. */
  lemma NavStage(m: Merged, navTemplate: string)
    ensures var fc := FirstNumbered(m.files);
      var files := WriteGenerated(m, GenerateTocXhtml(navTemplate, m.files)).files;
      && files == m.files + (if fc.Some? && ListBeforeStart(SplitLines(navTemplate)) then [ContentsEntry(fc.value)] else [])
      && FirstNumbered(files) == fc
  {
    var nav := GenerateTocXhtml(navTemplate, m.files);
    if nav.Some? {
      FirstNumberedAppend(m.files, nav.value.entry);
    }
  }

  /** Writing the NCX appends `toc.ncx` exactly when it is generated. */
  lemma NcxStage(m: Merged, ncxTemplate: string)
    ensures var fc := FirstNumbered(m.files);
      WriteGenerated(m, GenerateTocNcx(ncxTemplate, m.files)).files ==
        m.files + (if fc.Some? && HasNcxList(SplitLines(ncxTemplate)) then [TocEntry(fc.value)] else [])
  {
  }

  /**
    Writing the navigation document and then the NCX appends `contents.xhtml`
    and `toc.ncx` exactly when each is generated; the NCX sees the same
    first chapter, since `contents.xhtml` has no chapter number.
  */
  lemma TocsAppended(m: Merged, navTemplate: string, ncxTemplate: string)
    ensures var withNav := WriteGenerated(m, GenerateTocXhtml(navTemplate, m.files));
      WriteGenerated(withNav, GenerateTocNcx(ncxTemplate, withNav.files)).files ==
        m.files + TocList(FirstNumbered(m.files), ListBeforeStart(SplitLines(navTemplate)), HasNcxList(SplitLines(ncxTemplate)))
  {
    var withNav := WriteGenerated(m, GenerateTocXhtml(navTemplate, m.files));
    NavStage(m, navTemplate);
    NcxStage(withNav, ncxTemplate);
    TocListSplit(m.files, FirstNumbered(m.files), ListBeforeStart(SplitLines(navTemplate)), HasNcxList(SplitLines(ncxTemplate)));
  }

  /**
    The whole job, with the comparator of the first sort of
    `establishFileOrder` as a parameter: the handler as written runs it with
    `ByName`, the corrected ordering with `ByNaturalName`. The templates are
    inputs, as are the archives (`None` for one that cannot be read). Every
    file the merged list names exists in the output tree. The list is the
    extracted files, ordered, followed by `contents.xhtml` when there is a
    first chapter and the navigation template lists before it links, and
    then by `toc.ncx` when there is a first chapter and the NCX template has
    a list line; both sit in the first chapter's directory.
  */
  function MergeEpubs(le: (FileRecord, FileRecord) -> bool, opts: FileOptions, archives: seq<Option<seq<ArchiveEntry>>>,
                      navTemplate: string, ncxTemplate: string): (r: Merged)
    ensures AllPresent(r)
    ensures var job := PopulateAll(CleanFileOptions(opts), Job(0, map[], []), archives);
      var ordered := OrderWith(le, job.files);
      r.files == ordered + TocList(FirstNumbered(ordered), ListBeforeStart(SplitLines(navTemplate)), HasNcxList(SplitLines(ncxTemplate)))
  {
    var clean := CleanFileOptions(opts);
    var job := PopulateAll(clean, Job(0, map[], []), archives);
    PopulateAllPreserves(clean, Job(0, map[], []), archives);
    OrderedPresent(le, job);
    var ordered := Merged(job.tree, OrderWith(le, job.files));
    var withNav := WriteGenerated(ordered, GenerateTocXhtml(navTemplate, ordered.files));
    TocsAppended(ordered, navTemplate, ncxTemplate);
    var withNcx := WriteGenerated(withNav, GenerateTocNcx(ncxTemplate, withNav.files));
    RewriteOpf(withNcx, clean.outputName)
  }
}
