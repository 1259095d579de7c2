/**
  The per-entry decision logic of `populateEpubDirectory` (index.js): each
  archive entry is split into directory, name and extension; a content
  document (`.xhtml`) is a designated non-chapter document, a chapter
  (renamed to its pattern plus the running chapter counter) or dropped;
  `.ncx` files are dropped; everything else is kept as an asset. A kept file
  is written only when nothing exists yet at its path (first writer wins).

  The working tree is a map from path to content; the zip library and the
  filesystem are replaced by that map and by the list of entries.
*/
module Extract {
  import opened Wrappers
  import opened Text
  import opened Options
  import opened FileFunctions
  import opened BodyRewrite
  import opened Entries

  /** One entry of a source archive, in enumeration order. */
  datatype ArchiveEntry = ArchiveEntry(path: string, isDir: bool, content: string)

  datatype Classification =
    | Asset                           // not a content document
    | Designated(doc: NonChapterDoc)  // matched a designated document by exact name
    | Chapter(format: string)         // matched a chapter pattern by substring
    | Unmatched                       // a content document matching nothing: dropped

  /** The job state shared by all archives of one merge. */
  datatype Job = Job(bodyInd: nat, tree: map<string, string>, files: seq<FileRecord>)

  /** The first chapter pattern, in configured order, that occurs in `name`. */
  function FirstPattern(patterns: seq<string>, name: string): (r: Option<string>)
    ensures r.None? <==> forall k :: 0 <= k < |patterns| ==> !Contains(name, patterns[k])
    ensures r.Some? ==> exists k :: 0 <= k < |patterns| && patterns[k] == r.value && Contains(name, r.value)
                                    && forall j :: 0 <= j < k ==> !Contains(name, patterns[j])
  {
    if |patterns| == 0 then None
    else if Contains(name, patterns[0]) then Some(patterns[0])
    else
      var r := FirstPattern(patterns[1..], name);
      assert forall k :: 0 < k < |patterns| ==> patterns[k] == patterns[1..][k - 1];
      if r.Some? then
        var k :| 0 <= k < |patterns[1..]| && patterns[1..][k] == r.value && Contains(name, r.value)
                 && forall j :: 0 <= j < k ==> !Contains(name, patterns[1..][j]);
        assert patterns[k + 1] == r.value;
        r
      else r
  }

  /**
    How a file with base name `name` and extension `ext` is treated: a
    designated document takes precedence over every chapter pattern, and the
    first pattern that occurs in the name wins.
  */
  function Classify(opts: FileOptions, name: string, ext: string): (r: Classification)
    ensures ext != ContentExt <==> r.Asset?
    ensures ext == ContentExt ==>
      && (r.Designated? <==> FormatBefore(opts.nonChapterXHTML, name, |opts.nonChapterXHTML|))
      && (r.Designated? ==> r.doc == NonChapterLookup(opts.nonChapterXHTML, name).value && r.doc.format == name)
      && (r.Chapter? <==> !r.Designated? && exists k :: 0 <= k < |opts.chapterFormat| && Contains(name, opts.chapterFormat[k]))
      && (r.Chapter? ==> FirstPattern(opts.chapterFormat, name) == Some(r.format))
  {
    if ext != ContentExt then Asset
    else match NonChapterLookup(opts.nonChapterXHTML, name)
      case Some(doc) => Designated(doc)
      case None =>
        match FirstPattern(opts.chapterFormat, name)
        case Some(f) => Chapter(f)
        case None => Unmatched
  }

  /** The keep rule: no legacy index files, and no content document that matched nothing. */
  predicate Keeps(ext: string, c: Classification) {
    ext != LegacyIndexExt && !c.Unmatched?
  }

  /** The record a classified file is listed under; a chapter is renamed to pattern plus counter. */
  function RecordFor(parts: FileParts, c: Classification, bodyInd: nat): (f: FileRecord)
    ensures f.dir == parts.dir && f.ext == parts.ext
    ensures f.isBody <==> c.Chapter?
    ensures c.Chapter? ==> f.name == c.format + NatToString(bodyInd)
    ensures !c.Chapter? ==> f.name == parts.name
    ensures f.isBeforeChapters <==> c.Designated? && c.doc.isBeforeChapters
    ensures f.descriptor == if c.Designated? then c.doc.descriptor else DefaultDescriptor
  {
    match c
    case Chapter(format) =>
      FileRecord(format + NatToString(bodyInd), parts.dir, parts.ext, true, false, DefaultDescriptor)
    case Designated(doc) =>
      FileRecord(parts.name, parts.dir, parts.ext, false, doc.isBeforeChapters, doc.descriptor)
    case _ =>
      FileRecord(parts.name, parts.dir, parts.ext, false, false, DefaultDescriptor)
  }

  /** The entry is a file whose path splits and that classifies as a chapter. */
  predicate CountsAsChapter(opts: FileOptions, e: ArchiveEntry) {
    && !e.isDir
    && SplitFileName(e.path).Success?
    && Classify(opts, SplitFileName(e.path).value.name, SplitFileName(e.path).value.ext).Chapter?
  }

  /**
    Lists `rec` and writes `content` at its path when the file is kept and
    nothing exists there yet; otherwise only the counter moves.
  */
  function Admit(job: Job, rec: FileRecord, content: string, keep: bool, bodyInd: nat): (r: Job)
    ensures r.bodyInd == bodyInd
    ensures job.files <= r.files && |r.files| <= |job.files| + 1
    ensures |r.files| == |job.files| + 1 <==> keep && PathOf(rec) !in job.tree
    ensures forall p :: p in job.tree ==> p in r.tree && r.tree[p] == job.tree[p]
    ensures |r.files| == |job.files| ==> r.tree == job.tree
    ensures |r.files| == |job.files| + 1 ==>
      && r.files[|job.files|] == rec
      && r.tree.Keys == job.tree.Keys + {PathOf(rec)}
      && r.tree[PathOf(rec)] == content
  {
    if !keep || PathOf(rec) in job.tree then job.(bodyInd := bodyInd)
    else Job(bodyInd, job.tree[PathOf(rec) := content], job.files + [rec])
  }

  /**
    One entry of the loop of `populateEpubDirectory`. `None` when splitting
    its path throws, which abandons the rest of that archive.
  */
  function ExtractEntry(opts: FileOptions, job: Job, e: ArchiveEntry): (r: Option<Job>)
    ensures r.None? <==> !e.isDir && SplitFileName(e.path).Failure?
    ensures r.Some? ==> r.value.bodyInd == job.bodyInd + (if CountsAsChapter(opts, e) then 1 else 0)
    ensures r.Some? ==> job.files <= r.value.files && |r.value.files| <= |job.files| + 1
    ensures r.Some? ==> forall p :: p in job.tree ==> p in r.value.tree && r.value.tree[p] == job.tree[p]
    ensures r.Some? && |r.value.files| == |job.files| ==> r.value.tree == job.tree
    ensures r.Some? && |r.value.files| == |job.files| + 1 ==>
      var f := r.value.files[|job.files|];
      && PathOf(f) !in job.tree
      && r.value.tree.Keys == job.tree.Keys + {PathOf(f)}
  {
    if e.isDir then Some(job)
    else match SplitFileName(e.path)
      case Failure(_) => None
      case Success(parts) =>
        var c := Classify(opts, parts.name, parts.ext);
        var rec := RecordFor(parts, c, job.bodyInd);
        var content := if parts.ext == ContentExt then ProcessEpubFile(e.content, opts.replacements) else e.content;
        Some(Admit(job, rec, content, Keeps(parts.ext, c), if c.Chapter? then job.bodyInd + 1 else job.bodyInd))
  }

  /**
    A file that splits is listed iff it is kept by the extension rule and
    nothing exists yet at its path; a content document is written through
    the body replacements.
  */
  lemma ListedIff(opts: FileOptions, job: Job, e: ArchiveEntry)
    requires !e.isDir && SplitFileName(e.path).Success?
    ensures var parts := SplitFileName(e.path).value;
      var c := Classify(opts, parts.name, parts.ext);
      var rec := RecordFor(parts, c, job.bodyInd);
      var r := ExtractEntry(opts, job, e).value;
      && (|r.files| == |job.files| + 1 <==> parts.ext != LegacyIndexExt && !(parts.ext == ContentExt && c.Unmatched?) && PathOf(rec) !in job.tree)
      && (|r.files| == |job.files| + 1 ==>
            && r.files[|job.files|] == rec
            && r.tree[PathOf(rec)] == (if parts.ext == ContentExt then ProcessEpubFile(e.content, opts.replacements) else e.content))
  {
  }

  /** The loop over one archive's entries; it stops at the first entry whose path cannot be split. */
  function ExtractEntries(opts: FileOptions, job: Job, entries: seq<ArchiveEntry>): (r: Job)
    ensures job.files <= r.files && r.bodyInd >= job.bodyInd
    ensures forall p :: p in job.tree ==> p in r.tree && r.tree[p] == job.tree[p]
    decreases |entries|
  {
    if |entries| == 0 then job
    else match ExtractEntry(opts, job, entries[0])
      case None => job
      case Some(next) => ExtractEntries(opts, next, entries[1..])
  }

  /**
    `populateEpubDirectory` for one archive; `None` stands for an archive that
    could not be read or unzipped, which is logged and contributes nothing.
  */
  function PopulateEpubDirectory(opts: FileOptions, job: Job, archive: Option<seq<ArchiveEntry>>): (r: Job)
    ensures archive.None? ==> r == job
    ensures job.files <= r.files && r.bodyInd >= job.bodyInd
    ensures forall p :: p in job.tree ==> p in r.tree && r.tree[p] == job.tree[p]
  {
    match archive
    case None => job
    case Some(entries) => ExtractEntries(opts, job, entries)
  }

  /** Every listed file is in the tree, and no two listed files share a path. */
  ghost predicate Consistent(job: Job) {
    && (forall k :: 0 <= k < |job.files| ==> PathOf(job.files[k]) in job.tree)
    && (forall i, j :: 0 <= i < j < |job.files| ==> PathOf(job.files[i]) != PathOf(job.files[j]))
  }

  /** Appending one file at a fresh path, while keeping the tree's entries, keeps a job consistent. */
  lemma GrowPreserves(job: Job, next: Job)
    requires Consistent(job)
    requires job.files <= next.files && |next.files| <= |job.files| + 1
    requires job.tree.Keys <= next.tree.Keys
    requires |next.files| == |job.files| + 1 ==>
      PathOf(next.files[|job.files|]) !in job.tree && PathOf(next.files[|job.files|]) in next.tree
    ensures Consistent(next)
  {
    forall i | 0 <= i < |job.files| ensures next.files[i] == job.files[i] {
    }
  }

  /**
    Extraction keeps the job consistent, only appends to the file list and
    never overwrites what is already in the tree (first writer wins).
  */
  lemma {:induction false} ExtractEntriesPreserves(opts: FileOptions, job: Job, entries: seq<ArchiveEntry>)
    requires Consistent(job)
    ensures var r := ExtractEntries(opts, job, entries);
      && Consistent(r)
      && job.files <= r.files
      && r.bodyInd >= job.bodyInd
      && forall p :: p in job.tree ==> p in r.tree && r.tree[p] == job.tree[p]
    decreases |entries|
  {
    if |entries| > 0 {
      var step := ExtractEntry(opts, job, entries[0]);
      if step.Some? {
        GrowPreserves(job, step.value);
        ExtractEntriesPreserves(opts, step.value, entries[1..]);
      }
    }
  }

  /** The number of entries that classify as chapters. */
  function ChapterEntries(opts: FileOptions, entries: seq<ArchiveEntry>): nat {
    if |entries| == 0 then 0
    else (if CountsAsChapter(opts, entries[0]) then 1 else 0) + ChapterEntries(opts, entries[1..])
  }

  /**
    When every path splits, the chapter counter advances by exactly one per
    chapter entry, whether or not the chapter was written.
  */
  lemma {:induction false} CounterAdvancesPerChapter(opts: FileOptions, job: Job, entries: seq<ArchiveEntry>)
    requires forall k :: 0 <= k < |entries| ==> entries[k].isDir || SplitFileName(entries[k].path).Success?
    ensures ExtractEntries(opts, job, entries).bodyInd == job.bodyInd + ChapterEntries(opts, entries)
    decreases |entries|
  {
    if |entries| > 0 {
      var next := ExtractEntry(opts, job, entries[0]).value;
      CounterAdvancesPerChapter(opts, next, entries[1..]);
    }
  }

  /** Two chapters renamed under the same pattern at different counter values get different names. */
  lemma ChapterNamesDistinct(format: string, m: nat, n: nat)
    requires m != n
    ensures format + NatToString(m) != format + NatToString(n)
  {
    if format + NatToString(m) == format + NatToString(n) {
      assert (format + NatToString(m))[|format|..] == NatToString(m);
      assert (format + NatToString(n))[|format|..] == NatToString(n);
      NatToStringInjective(m, n);
    }
  }
}
