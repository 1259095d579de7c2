/**
  `updateOPF` of index.js: the package document of the first `.opf` file in
  the list is rewritten line by line. The manifest and the spine of the EPUB
  package document are regenerated from the file list, the old
  contents between their opening and closing lines are dropped, and the
  title and guide reference lines are replaced.

  The document's text is an input (the source reads it from the `.opf`
  file's path); the result is the text written back, or `None` when the
  list holds no `.opf` file (the source's TypeError, caught and logged).
*/
module Opf {
  import opened Wrappers
  import opened Text
  import opened Replace
  import opened LineFlags
  import opened Entries
  import opened Seqs

  /** The first package document in the list. */
  function FirstOpf(files: seq<OrderedFile>): (r: Option<OrderedFile>)
    ensures r.None? <==> forall k :: 0 <= k < |files| ==> files[k].file.ext != ".opf"
    ensures r.Some? ==> exists k :: 0 <= k < |files| && files[k] == r.value && r.value.file.ext == ".opf"
                                    && forall j :: 0 <= j < k ==> files[j].file.ext != ".opf"
  {
    if |files| == 0 then None
    else if files[0].file.ext == ".opf" then Some(files[0])
    else
      var r := FirstOpf(files[1..]);
      assert forall k :: 0 < k < |files| ==> files[k] == files[1..][k - 1];
      if r.Some? then
        var k :| 0 <= k < |files[1..]| && files[1..][k] == r.value && r.value.file.ext == ".opf"
                 && forall j :: 0 <= j < k ==> files[1..][j].file.ext != ".opf";
        assert files[k + 1] == r.value;
        r
      else r
  }

  /** The href of a file relative to the package document: the first occurrence of its directory is cut out. */
  function ManifestHref(f: FileRecord, opfDir: string): string {
    RemoveFirst(f.dir, opfDir) + f.name + f.ext
  }

  /** The extensions that get a manifest item. */
  predicate InManifest(f: OrderedFile) {
    f.file.ext in {LegacyIndexExt, ContentExt, ".png", ".css", ".jpeg"}
  }

  /** The manifest item of one file, for a file `InManifest`. */
  function ManifestItem(opfDir: string, f: OrderedFile): string {
    var href := ManifestHref(f.file, opfDir);
    var ext := f.file.ext;
    if ext == LegacyIndexExt then
      "\t\t<item id=\"ncx\" href=\"" + href + "\" media-type=\"application/x-dtbncx+xml\" fallback=\"contents\"/>"
    else if ext == ContentExt then
      if f.file.name == ContentsName then
        "\t\t<item id=\"contents\" properties=\"nav\" href=\"" + href + "\" media-type=\"application/xhtml+xml\"/>"
      else
        "\t\t<item id=\"" + f.file.name + "\" href=\"" + href + "\" media-type=\"application/xhtml+xml\"/>"
    else if ext == ".png" then
      "\t\t<item id=\"png-" + f.file.name + "\" href=\"" + href + "\" media-type=\"image/png\"/>"
    else if ext == ".css" then
      "\t\t<item id=\"css-" + f.file.name + "\" href=\"" + href + "\" media-type=\"text/css\"/>"
    else
      "\t\t<item id=\"jpeg-" + f.file.name + "\" href=\"" + href + "\" media-type=\"image/jpeg\"/>"
  }

  /** The loop over the file list at a `<manifest` line. */
  function ManifestItems(files: seq<OrderedFile>, opfDir: string): seq<string>
    decreases |files|
  {
    if |files| == 0 then []
    else
      var f := files[0];
      var ext := f.file.ext;
      if ext == LegacyIndexExt || ext == ContentExt || ext == ".png" || ext == ".css" || ext == ".jpeg" then
        [ManifestItem(opfDir, f)] + ManifestItems(files[1..], opfDir)
      else ManifestItems(files[1..], opfDir)
  }

  /**
    The manifest holds exactly one item per file with a listed extension, in
    list order; every other file (`.jpg`, `.opf`, ...) gets none.
  */
  lemma {:induction false} ManifestItemsAreFiltered(files: seq<OrderedFile>, opfDir: string)
    ensures ManifestItems(files, opfDir) == MapSeq((f: OrderedFile) => ManifestItem(opfDir, f), Filter(InManifest, files))
    ensures |ManifestItems(files, opfDir)| == CountIf(InManifest, files)
    decreases |files|
  {
    if |files| > 0 {
      ManifestItemsAreFiltered(files[1..], opfDir);
      MapSeqCons((f: OrderedFile) => ManifestItem(opfDir, f), files[0], Filter(InManifest, files[1..]));
    }
  }

  /** Spine entries: every content document except the navigation document. */
  predicate InSpine(f: OrderedFile) {
    f.file.ext == ContentExt && f.file.name != ContentsName
  }

  function SpineItem(f: OrderedFile): string {
    "\t\t<itemref idref=\"" + f.file.name + "\" linear=\"yes\"/>"
  }

  const ContentsRef: string := "\t\t<itemref idref=\"contents\" linear=\"yes\"/>"
  const ReferenceLine: string := "\t\t<reference type=\"toc\" title=\"Contents\" href=\"contents.xhtml\"/>"

  function TitleLine(title: string): string {
    "\t\t<dc:title>" + title + "</dc:title>"
  }

  /** The loop over the file list at a `<spine` line. */
  function SpineItems(files: seq<OrderedFile>): seq<string>
    decreases |files|
  {
    if |files| == 0 then []
    else if files[0].file.ext == ContentExt && files[0].file.name != ContentsName then
      [SpineItem(files[0])] + SpineItems(files[1..])
    else SpineItems(files[1..])
  }

  /** One itemref per content document other than `contents`, in list order. */
  lemma {:induction false} SpineItemsAreFiltered(files: seq<OrderedFile>)
    ensures SpineItems(files) == MapSeq(SpineItem, Filter(InSpine, files))
    decreases |files|
  {
    if |files| > 0 {
      SpineItemsAreFiltered(files[1..]);
      MapSeqCons(SpineItem, files[0], Filter(InSpine, files[1..]));
    }
  }

  /** Which branch of the scan a line takes; the tests are made in this order. */
  datatype LineKind = ManifestOpen | SpineOpen | Reference | Title | Other

  function KindOfLine(line: string): (k: LineKind)
    ensures k == ManifestOpen <==> Contains(line, "<manifest")
    ensures k == Other <==> !Contains(line, "<manifest") && !Contains(line, "<spine")
                            && !Contains(line, "<reference") && !Contains(line, "<dc:title")
  {
    if Contains(line, "<manifest") then ManifestOpen
    else if Contains(line, "<spine") then SpineOpen
    else if Contains(line, "<reference") then Reference
    else if Contains(line, "<dc:title") then Title
    else Other
  }

  /** What a line does to "inside the manifest"; only an ordinary line can close it. */
  function ManifestEffect(line: string): Effect {
    match KindOfLine(line)
    case ManifestOpen => Raise
    case Other => if Contains(line, "</manifest>") then Lower else Hold
    case _ => Hold
  }

  function SpineEffect(line: string): Effect {
    match KindOfLine(line)
    case SpineOpen => Raise
    case Other => if Contains(line, "</spine") then Lower else Hold
    case _ => Hold
  }

  function ManifestEffects(lines: seq<string>): (r: seq<Effect>)
    ensures |r| == |lines| && forall k :: 0 <= k < |lines| ==> r[k] == ManifestEffect(lines[k])
  {
    seq(|lines|, k requires 0 <= k < |lines| => ManifestEffect(lines[k]))
  }

  function SpineEffects(lines: seq<string>): (r: seq<Effect>)
    ensures |r| == |lines| && forall k :: 0 <= k < |lines| ==> r[k] == SpineEffect(lines[k])
  {
    seq(|lines|, k requires 0 <= k < |lines| => SpineEffect(lines[k]))
  }

  /** What one line is rewritten to, given the two flags as they are after that line. */
  function Rewrite(files: seq<OrderedFile>, opfDir: string, title: string, line: string, inManifest: bool, inSpine: bool): seq<string> {
    match KindOfLine(line)
    case ManifestOpen => [line] + ManifestItems(files, opfDir)
    case SpineOpen => [line, ContentsRef] + SpineItems(files)
    case Reference => [ReferenceLine]
    case Title => [TitleLine(title)]
    case Other => if !inManifest && !inSpine then [line] else []
  }

  /** The loop of `updateOPF` over the document's lines. */
  function OpfScan(files: seq<OrderedFile>, opfDir: string, title: string, lines: seq<string>, inManifest: bool, inSpine: bool): seq<string>
    decreases |lines|
  {
    if |lines| == 0 then []
    else
      var m := Apply(inManifest, ManifestEffect(lines[0]));
      var s := Apply(inSpine, SpineEffect(lines[0]));
      Rewrite(files, opfDir, title, lines[0], m, s) + OpfScan(files, opfDir, title, lines[1..], m, s)
  }

  /**
    `updateOPF`, given the text of the package document: nothing without a
    listed package document, else each line rewritten as its flags so far say.
  */
  function UpdateOpf(files: seq<OrderedFile>, opfText: string, title: string): (r: Option<string>)
    ensures r.None? <==> FirstOpf(files).None?
    ensures r.Some? ==>
      r.value == JoinLines(Flatten(RewriteFrom(files, FirstOpf(files).value.file.dir, title, SplitLines(opfText), 0)))
  {
    match FirstOpf(files)
    case None => None
    case Some(opf) =>
      OpfScanIsRewrites(files, opf.file.dir, title, SplitLines(opfText));
      Some(JoinLines(OpfScan(files, opf.file.dir, title, SplitLines(opfText), false, false)))
  }

  /** The rewrite of line `i`, with the flags read off the lines up to and including it. */
  function RewriteAt(files: seq<OrderedFile>, opfDir: string, title: string, lines: seq<string>, i: int): seq<string>
    requires 0 <= i < |lines|
  {
    Rewrite(files, opfDir, title, lines[i],
            Run(false, ManifestEffects(lines)[..i + 1]), Run(false, SpineEffects(lines)[..i + 1]))
  }

  function RewriteFrom(files: seq<OrderedFile>, opfDir: string, title: string, lines: seq<string>, i: nat): seq<seq<string>>
    requires i <= |lines|
    decreases |lines| - i
  {
    if i == |lines| then [] else [RewriteAt(files, opfDir, title, lines, i)] + RewriteFrom(files, opfDir, title, lines, i + 1)
  }

  lemma RunStep(es: seq<Effect>, i: int)
    requires 0 <= i < |es|
    ensures Run(false, es[..i + 1]) == Apply(Run(false, es[..i]), es[i])
  {
    assert es[..i + 1] == es[..i] + [es[i]];
    RunSnoc(false, es[..i], es[i]);
  }

  lemma {:induction false} OpfScanFrom(files: seq<OrderedFile>, opfDir: string, title: string, lines: seq<string>, i: nat)
    requires i <= |lines|
    ensures OpfScan(files, opfDir, title, lines[i..], Run(false, ManifestEffects(lines)[..i]), Run(false, SpineEffects(lines)[..i]))
         == Flatten(RewriteFrom(files, opfDir, title, lines, i))
    decreases |lines| - i
  {
    if i < |lines| {
      RunStep(ManifestEffects(lines), i);
      RunStep(SpineEffects(lines), i);
      assert lines[i..][1..] == lines[i + 1..];
      OpfScanFrom(files, opfDir, title, lines, i + 1);
      assert ([RewriteAt(files, opfDir, title, lines, i)] + RewriteFrom(files, opfDir, title, lines, i + 1))[1..]
          == RewriteFrom(files, opfDir, title, lines, i + 1);
    }
  }

  /** The scan is the concatenation of the per-line rewrites, each flag read off the lines so far. */
  lemma OpfScanIsRewrites(files: seq<OrderedFile>, opfDir: string, title: string, lines: seq<string>)
    ensures OpfScan(files, opfDir, title, lines, false, false) == Flatten(RewriteFrom(files, opfDir, title, lines, 0))
  {
    OpfScanFrom(files, opfDir, title, lines, 0);
    assert lines[0..] == lines;
    assert ManifestEffects(lines)[..0] == [] && SpineEffects(lines)[..0] == [];
  }

  /** `Rewrite` with the flags read off any two effect sequences, stated through the reference reading. */
  lemma RewriteWithFlags(files: seq<OrderedFile>, opfDir: string, title: string, line: string,
                         ms: seq<Effect>, ss: seq<Effect>, i: int)
    requires 0 <= i <= |ms| && i <= |ss|
    ensures Rewrite(files, opfDir, title, line, Run(false, ms[..i]), Run(false, ss[..i])) ==
        match KindOfLine(line)
        case ManifestOpen => [line] + ManifestItems(files, opfDir)
        case SpineOpen => [line, ContentsRef] + SpineItems(files)
        case Reference => [ReferenceLine]
        case Title => [TitleLine(title)]
        case Other =>
          if !RaisedBefore(false, ms, i) && !RaisedBefore(false, ss, i) then [line] else []
  {
    RunIsRaisedBefore(false, ms, i);
    RunIsRaisedBefore(false, ss, i);
  }

  /**
    Line `i`: a `<manifest` line is kept and followed by the manifest items;
    a `<spine` line by the contents itemref and the spine items; reference
    and title lines are replaced; any other line is kept iff neither region
    is open after it, a region being open when its last marker line so far
    opened it.
  */
  lemma RewriteAtSpec(files: seq<OrderedFile>, opfDir: string, title: string, lines: seq<string>, i: int)
    requires 0 <= i < |lines|
    ensures var line := lines[i];
      RewriteAt(files, opfDir, title, lines, i) ==
        match KindOfLine(line)
        case ManifestOpen => [line] + ManifestItems(files, opfDir)
        case SpineOpen => [line, ContentsRef] + SpineItems(files)
        case Reference => [ReferenceLine]
        case Title => [TitleLine(title)]
        case Other =>
          if !RaisedBefore(false, ManifestEffects(lines), i + 1) && !RaisedBefore(false, SpineEffects(lines), i + 1)
          then [line] else []
  {
    RewriteWithFlags(files, opfDir, title, lines[i], ManifestEffects(lines), SpineEffects(lines), i + 1);
  }

  /**
    A document with no manifest, spine, reference or title line is written
    back unchanged, apart from line endings.
  */
  lemma {:induction false} PlainLinesKept(files: seq<OrderedFile>, opfDir: string, title: string, lines: seq<string>)
    requires forall k :: 0 <= k < |lines| ==> KindOfLine(lines[k]) == Other
    ensures OpfScan(files, opfDir, title, lines, false, false) == lines
    decreases |lines|
  {
    if |lines| > 0 {
      PlainLinesKept(files, opfDir, title, lines[1..]);
    }
  }
}
