/**
  `generateTOCXHTML` and `generateTOCNCX` of index.js: template lines are
  copied, a placeholder line is replaced by one list entry per file that has
  a reading-order position, and the start link and the output directory come
  from the first such file with a chapter number. The navigation document is
  the EPUB 3 navigation document; the NCX is the legacy table of contents
  of OPF 2.0.1.

  A thrown TypeError (reading a field of the still-undefined first chapter)
  is caught and logged by the source: nothing is written and no file is
  listed, modelled as `None`.
*/
module Toc {
  import opened Wrappers
  import opened Text
  import opened Entries
  import opened Seqs
  import FileOrder

  /** The written document and the file the source appends to the list. */
  datatype Generated = Generated(text: string, entry: OrderedFile)

  /** A file that gets a list entry: it has a reading-order position. */
  predicate Listed(f: OrderedFile) {
    f.order != Unordered
  }

  /** A listed file with a chapter number: a candidate for the first chapter. */
  predicate Numbered(f: OrderedFile) {
    Listed(f) && f.chapterNumber != Unordered
  }

  /** The first numbered file in list order. */
  function FirstNumbered(files: seq<OrderedFile>): (r: Option<OrderedFile>)
    ensures r.None? <==> forall k :: 0 <= k < |files| ==> !Numbered(files[k])
    ensures r.Some? ==> exists k :: 0 <= k < |files| && files[k] == r.value && Numbered(r.value)
                                    && forall j :: 0 <= j < k ==> !Numbered(files[j])
  {
    if |files| == 0 then None
    else if Numbered(files[0]) then Some(files[0])
    else
      var r := FirstNumbered(files[1..]);
      assert forall k :: 0 < k < |files| ==> files[k] == files[1..][k - 1];
      if r.Some? then
        var k :| 0 <= k < |files[1..]| && files[1..][k] == r.value && Numbered(r.value)
                 && forall j :: 0 <= j < k ==> !Numbered(files[1..][j]);
        assert files[k + 1] == r.value;
        r
      else r
  }

  /** Listing a file without a chapter number after the others does not change the first chapter. */
  lemma {:induction false} FirstNumberedAppend(files: seq<OrderedFile>, x: OrderedFile)
    requires !Numbered(x)
    ensures FirstNumbered(files + [x]) == FirstNumbered(files)
  {
    if |files| > 0 {
      assert (files + [x])[0] == files[0];
      assert (files + [x])[1..] == files[1..] + [x];
      FirstNumberedAppend(files[1..], x);
    }
  }

  function Href(f: OrderedFile): string {
    f.file.name + f.file.ext
  }

  // ---- navigation document ----

  const NavList: string := "TOCLIST1"
  const NavStart: string := "TOCLIST2"

  function NavLabel(f: OrderedFile): string {
    if f.chapterNumber != Unordered then "CHAPTER " + IntToString(f.chapterNumber) else f.file.descriptor
  }

  function NavItem(f: OrderedFile): string {
    "\t<li><a href=\"" + Href(f) + "\">" + NavLabel(f) + "</a></li>"
  }

  function StartLink(first: OrderedFile): string {
    "\t\t<li><a epub:type=\"bodymatter\" href=\"" + Href(first) + "\">Start of Content</a></li>"
  }

  /**
    The inner loop at a `TOCLIST1` line: the list items, and the first
    chapter, recorded the first time a numbered file is met.
  */
  function NavListing(files: seq<OrderedFile>, first: Option<OrderedFile>): (r: (seq<string>, Option<OrderedFile>))
    decreases |files|
  {
    if |files| == 0 then ([], first)
    else
      var f := files[0];
      var first' := if Numbered(f) && first.None? then Some(f) else first;
      var rest := NavListing(files[1..], first');
      if Listed(f) then ([NavItem(f)] + rest.0, rest.1) else rest
  }

  /** The listing holds one item per listed file, in list order. */
  lemma {:induction false} NavListingIsItems(files: seq<OrderedFile>, first: Option<OrderedFile>)
    ensures NavListing(files, first).0 == MapSeq(NavItem, Filter(Listed, files))
    decreases |files|
  {
    if |files| > 0 {
      var f := files[0];
      var first' := if Numbered(f) && first.None? then Some(f) else first;
      NavListingIsItems(files[1..], first');
      MapSeqCons(NavItem, f, Filter(Listed, files[1..]));
    }
  }

  /** The listing records the first numbered file unless a first chapter is already known. */
  lemma {:induction false} NavListingFirst(files: seq<OrderedFile>, first: Option<OrderedFile>)
    ensures NavListing(files, first).1 == if first.Some? then first else FirstNumbered(files)
    decreases |files|
  {
    if |files| > 0 {
      var f := files[0];
      var first' := if Numbered(f) && first.None? then Some(f) else first;
      NavListingFirst(files[1..], first');
    }
  }

  datatype Scan = Scan(out: seq<string>, first: Option<OrderedFile>)

  /** The template loop; `None` when a `TOCLIST2` line is met before the first chapter is known. */
  function NavScan(files: seq<OrderedFile>, lines: seq<string>, st: Scan): Option<Scan>
    decreases |lines|
  {
    if |lines| == 0 then Some(st)
    else
      var line := lines[0];
      if Contains(line, NavList) then
        var listing := NavListing(files, st.first);
        NavScan(files, lines[1..], Scan(st.out + listing.0, listing.1))
      else if Contains(line, NavStart) then
        if st.first.None? then None
        else NavScan(files, lines[1..], Scan(st.out + [StartLink(st.first.value)], st.first))
      else NavScan(files, lines[1..], Scan(st.out + [line], st.first))
  }

  function ContentsEntry(first: OrderedFile): OrderedFile {
    OrderedFile(FileRecord(ContentsName, first.file.dir, ContentExt, false, false, DefaultDescriptor), Unordered, Unordered)
  }

  /**
    `generateTOCXHTML` with the template's text as input.
    The navigation document is produced exactly when there is a numbered
    file and a `TOCLIST1` line precedes every `TOCLIST2` line. It is then the
    template with each `TOCLIST1` line replaced by one item per listed file
    and each `TOCLIST2` line by the start link to the first numbered file,
    all other lines unchanged; `contents.xhtml` is listed in that file's
    directory.
  */
  function GenerateTocXhtml(template: string, files: seq<OrderedFile>): (r: Option<Generated>)
    ensures var fc := FirstNumbered(files);
      && (r.Some? <==> fc.Some? && ListBeforeStart(SplitLines(template)))
      && (r.Some? ==>
            && r.value.text == JoinLines(NavExpandAll(files, fc.value, SplitLines(template)))
            && r.value.entry == ContentsEntry(fc.value))
  {
    NavScanUnknown(files, SplitLines(template), []);
    assert forall f :: [] + NavExpandAll(files, f, SplitLines(template)) == NavExpandAll(files, f, SplitLines(template));
    match NavScan(files, SplitLines(template), Scan([], None))
    case None => None
    case Some(sc) =>
      if sc.first.None? then None
      else Some(Generated(JoinLines(sc.out), ContentsEntry(sc.first.value)))
  }

  /** What one template line becomes, once the first chapter `first` is known. */
  function NavExpand(files: seq<OrderedFile>, first: OrderedFile, line: string): seq<string> {
    if Contains(line, NavList) then MapSeq(NavItem, Filter(Listed, files))
    else if Contains(line, NavStart) then [StartLink(first)]
    else [line]
  }

  function NavExpandAll(files: seq<OrderedFile>, first: OrderedFile, lines: seq<string>): seq<string>
    decreases |lines|
  {
    if |lines| == 0 then [] else NavExpand(files, first, lines[0]) + NavExpandAll(files, first, lines[1..])
  }

  /** A `TOCLIST2` line that is not a `TOCLIST1` line (that test comes first). */
  predicate IsStartLine(line: string) {
    !Contains(line, NavList) && Contains(line, NavStart)
  }

  /** Some `TOCLIST1` line comes before every `TOCLIST2` line. */
  predicate ListBeforeStart(lines: seq<string>) {
    exists i :: 0 <= i < |lines| && Contains(lines[i], NavList) && NoStartBefore(lines, i)
  }

  predicate NoStartBefore(lines: seq<string>, i: int)
    requires 0 <= i <= |lines|
  {
    forall j :: 0 <= j < i ==> !IsStartLine(lines[j])
  }

  lemma {:induction false} NavScanKnown(files: seq<OrderedFile>, lines: seq<string>, out: seq<string>, first: OrderedFile)
    ensures NavScan(files, lines, Scan(out, Some(first))) == Some(Scan(out + NavExpandAll(files, first, lines), Some(first)))
    decreases |lines|
  {
    if |lines| > 0 {
      var line := lines[0];
      NavListingIsItems(files, Some(first));
      NavListingFirst(files, Some(first));
      var out' := out + NavExpand(files, first, line);
      NavScanKnown(files, lines[1..], out', first);
      assert out' + NavExpandAll(files, first, lines[1..]) == out + NavExpandAll(files, first, lines);
    } else {
      assert out + [] == out;
    }
  }

  lemma {:induction false} NavScanUnknown(files: seq<OrderedFile>, lines: seq<string>, out: seq<string>)
    ensures var r := NavScan(files, lines, Scan(out, None));
      var fc := FirstNumbered(files);
      && (r.Some? && r.value.first.Some? <==> fc.Some? && ListBeforeStart(lines))
      && (r.Some? && r.value.first.Some? ==> r.value == Scan(out + NavExpandAll(files, fc.value, lines), fc))
    decreases |lines|
  {
    var fc := FirstNumbered(files);
    if |lines| > 0 {
      var line := lines[0];
      NavListingIsItems(files, None);
      NavListingFirst(files, None);
      if Contains(line, NavList) {
        var out' := out + MapSeq(NavItem, Filter(Listed, files));
        if fc.Some? {
          NavScanKnown(files, lines[1..], out', fc.value);
          assert out' + NavExpandAll(files, fc.value, lines[1..]) == out + NavExpandAll(files, fc.value, lines);
        } else {
          NavScanUnknown(files, lines[1..], out');
        }
        assert ListBeforeStart(lines) by {
          assert Contains(lines[0], NavList) && NoStartBefore(lines, 0);
        }
      } else if Contains(line, NavStart) {
        assert !ListBeforeStart(lines) by {
          forall i | 0 <= i < |lines| && Contains(lines[i], NavList)
            ensures !NoStartBefore(lines, i)
          {
            assert i != 0;
            assert IsStartLine(lines[0]);
          }
        }
      } else {
        NavScanUnknown(files, lines[1..], out + [line]);
        ShiftListBeforeStart(lines);
        if fc.Some? && ListBeforeStart(lines) {
          assert NavExpand(files, fc.value, line) == [line];
          assert out + [line] + NavExpandAll(files, fc.value, lines[1..]) == out + NavExpandAll(files, fc.value, lines);
        }
      }
    }
  }

  lemma ShiftListBeforeStart(lines: seq<string>)
    requires |lines| > 0 && !Contains(lines[0], NavList) && !Contains(lines[0], NavStart)
    ensures ListBeforeStart(lines) <==> ListBeforeStart(lines[1..])
  {
    if ListBeforeStart(lines) {
      var i :| 0 <= i < |lines| && Contains(lines[i], NavList) && NoStartBefore(lines, i);
      assert i > 0;
      assert lines[1..][i - 1] == lines[i];
      assert forall j :: 0 <= j < i - 1 ==> lines[1..][j] == lines[j + 1];
    }
    if ListBeforeStart(lines[1..]) {
      var i :| 0 <= i < |lines[1..]| && Contains(lines[1..][i], NavList) && NoStartBefore(lines[1..], i);
      assert lines[i + 1] == lines[1..][i];
      assert forall j :: 0 < j < i + 1 ==> lines[j] == lines[1..][j - 1];
    }
  }

  // ---- legacy NCX ----

  const NcxList: string := "TOCLIST"

  function NcxLabel(f: OrderedFile): string {
    if f.chapterNumber != Unordered then "Chapter " + IntToString(f.chapterNumber) else f.file.descriptor
  }

  /** The six lines of one navigation point; `playOrder` is the file's position. */
  function NavPoint(f: OrderedFile): (r: seq<string>)
    ensures |r| == 6
  {
    [ "\t<navPoint id=\"navPoint-" + IntToString(f.order) + "\" playOrder=\"" + IntToString(f.order) + "\">",
      "\t\t<navLabel>",
      "\t\t\t<text>" + NcxLabel(f) + "</text>",
      "\t\t</navLabel>",
      "\t\t<content src=\"" + Href(f) + "\"/>",
      "\t</navPoint>" ]
  }

  /** The inner loop at a `TOCLIST` line, with the first chapter recorded as in the navigation document. */
  function NcxListing(files: seq<OrderedFile>, first: Option<OrderedFile>): (r: (seq<string>, Option<OrderedFile>))
    decreases |files|
  {
    if |files| == 0 then ([], first)
    else
      var f := files[0];
      var first' := if Numbered(f) && first.None? then Some(f) else first;
      var rest := NcxListing(files[1..], first');
      if Listed(f) then (NavPoint(f) + rest.0, rest.1) else rest
  }

  lemma {:induction false} NcxListingIsPoints(files: seq<OrderedFile>, first: Option<OrderedFile>)
    ensures NcxListing(files, first).0 == Flatten(MapSeq(NavPoint, Filter(Listed, files)))
    decreases |files|
  {
    if |files| > 0 {
      var f := files[0];
      var first' := if Numbered(f) && first.None? then Some(f) else first;
      NcxListingIsPoints(files[1..], first');
      MapSeqCons(NavPoint, f, Filter(Listed, files[1..]));
      FlattenCons(NavPoint(f), MapSeq(NavPoint, Filter(Listed, files[1..])));
    }
  }

  lemma {:induction false} NcxListingFirst(files: seq<OrderedFile>, first: Option<OrderedFile>)
    ensures NcxListing(files, first).1 == if first.Some? then first else FirstNumbered(files)
    decreases |files|
  {
    if |files| > 0 {
      var f := files[0];
      var first' := if Numbered(f) && first.None? then Some(f) else first;
      NcxListingFirst(files[1..], first');
    }
  }

  function NcxScan(files: seq<OrderedFile>, lines: seq<string>, st: Scan): Scan
    decreases |lines|
  {
    if |lines| == 0 then st
    else if Contains(lines[0], NcxList) then
      var listing := NcxListing(files, st.first);
      NcxScan(files, lines[1..], Scan(st.out + listing.0, listing.1))
    else NcxScan(files, lines[1..], Scan(st.out + [lines[0]], st.first))
  }

  function TocEntry(first: OrderedFile): OrderedFile {
    OrderedFile(FileRecord("toc", first.file.dir, LegacyIndexExt, false, false, DefaultDescriptor), Unordered, Unordered)
  }

  /**
    `generateTOCNCX` with the template's text as input.
    The NCX is produced exactly when there is a numbered file and a
    `TOCLIST` line. It is then the template with each `TOCLIST` line replaced
    by six lines per listed file, all other lines unchanged; `toc.ncx` is
    listed in the first numbered file's directory.
  */
  function GenerateTocNcx(template: string, files: seq<OrderedFile>): (r: Option<Generated>)
    ensures var fc := FirstNumbered(files);
      && (r.Some? <==> fc.Some? && HasNcxList(SplitLines(template)))
      && (r.Some? ==>
            && r.value.text == JoinLines(NcxExpandAll(files, SplitLines(template)))
            && r.value.entry == TocEntry(fc.value))
  {
    NcxScanOut(files, SplitLines(template), [], None);
    NcxScanFirst(files, SplitLines(template), [], None);
    assert [] + NcxExpandAll(files, SplitLines(template)) == NcxExpandAll(files, SplitLines(template));
    var sc := NcxScan(files, SplitLines(template), Scan([], None));
    if sc.first.None? then None
    else Some(Generated(JoinLines(sc.out), TocEntry(sc.first.value)))
  }

  /** What one template line of the NCX becomes. */
  function NcxExpand(files: seq<OrderedFile>, line: string): seq<string> {
    if Contains(line, NcxList) then Flatten(MapSeq(NavPoint, Filter(Listed, files))) else [line]
  }

  function NcxExpandAll(files: seq<OrderedFile>, lines: seq<string>): seq<string>
    decreases |lines|
  {
    if |lines| == 0 then [] else NcxExpand(files, lines[0]) + NcxExpandAll(files, lines[1..])
  }

  predicate HasNcxList(lines: seq<string>) {
    exists i :: 0 <= i < |lines| && Contains(lines[i], NcxList)
  }

  lemma ShiftHasNcxList(lines: seq<string>)
    requires |lines| > 0 && !Contains(lines[0], NcxList)
    ensures HasNcxList(lines) <==> HasNcxList(lines[1..])
  {
    if HasNcxList(lines) {
      var i :| 0 <= i < |lines| && Contains(lines[i], NcxList);
      assert lines[1..][i - 1] == lines[i];
    }
    if HasNcxList(lines[1..]) {
      var i :| 0 <= i < |lines[1..]| && Contains(lines[1..][i], NcxList);
      assert lines[i + 1] == lines[1..][i];
    }
  }

  /** One step of the scan appends the expansion of the current line. */
  lemma NcxScanStep(files: seq<OrderedFile>, lines: seq<string>, out: seq<string>, first: Option<OrderedFile>)
    returns (first': Option<OrderedFile>)
    requires |lines| > 0
    ensures NcxScan(files, lines, Scan(out, first))
         == NcxScan(files, lines[1..], Scan(out + NcxExpand(files, lines[0]), first'))
  {
    if Contains(lines[0], NcxList) {
      NcxListingIsPoints(files, first);
      first' := NcxListing(files, first).1;
    } else {
      first' := first;
    }
  }

  /** The scan writes the expansion of every line, in order. */
  lemma {:induction false} NcxScanOut(files: seq<OrderedFile>, lines: seq<string>, out: seq<string>, first: Option<OrderedFile>)
    ensures NcxScan(files, lines, Scan(out, first)).out == out + NcxExpandAll(files, lines)
    decreases |lines|
  {
    if |lines| > 0 {
      var first' := NcxScanStep(files, lines, out, first);
      var head := NcxExpand(files, lines[0]);
      NcxScanOut(files, lines[1..], out + head, first');
      assert NcxExpandAll(files, lines) == head + NcxExpandAll(files, lines[1..]);
      assert out + head + NcxExpandAll(files, lines[1..]) == out + (head + NcxExpandAll(files, lines[1..]));
    } else {
      assert out + [] == out;
    }
  }

  /** The scan ends knowing the first numbered file iff some `TOCLIST` line was expanded. */
  lemma {:induction false} NcxScanFirst(files: seq<OrderedFile>, lines: seq<string>, out: seq<string>, first: Option<OrderedFile>)
    ensures NcxScan(files, lines, Scan(out, first)).first ==
      if first.Some? || !HasNcxList(lines) then first else FirstNumbered(files)
    decreases |lines|
  {
    if |lines| > 0 {
      if Contains(lines[0], NcxList) {
        NcxListingFirst(files, first);
        var listing := NcxListing(files, first);
        NcxScanFirst(files, lines[1..], out + listing.0, listing.1);
        assert HasNcxList(lines);
      } else {
        NcxScanFirst(files, lines[1..], out + [lines[0]], first);
        ShiftHasNcxList(lines);
      }
    }
  }

  /** Each listed file contributes six lines, so a `TOCLIST` line becomes six lines per listed file. */
  lemma {:induction false} NavPointsLength(fs: seq<OrderedFile>)
    ensures |Flatten(MapSeq(NavPoint, fs))| == 6 * |fs|
    decreases |fs|
  {
    if |fs| > 0 {
      NavPointsLength(fs[1..]);
      assert MapSeq(NavPoint, fs)[1..] == MapSeq(NavPoint, fs[1..]);
    }
  }

  /**
    After `establishFileOrder`, whatever the comparator of its first sort,
    the first numbered file is chapter 1, and one exists exactly when there
    is a chapter.
  */
  lemma FirstNumberedAfterOrdering(le: (FileRecord, FileRecord) -> bool, files: seq<FileRecord>)
    ensures var fc := FirstNumbered(FileOrder.OrderWith(le, files));
      && (fc.Some? <==> FileOrder.Count(files, FileOrder.Chapter) > 0)
      && (fc.Some? ==> fc.value.chapterNumber == 1 && FileOrder.KindOf(fc.value.file) == FileOrder.Chapter)
  {
    var r := FileOrder.OrderWith(le, files);
    var nF, nC, n := FileOrder.Count(files, FileOrder.Front), FileOrder.Count(files, FileOrder.Chapter), FileOrder.CountContent(files);
    FileOrder.OrderWithWellOrdered(le, files);
    var fc := FirstNumbered(r);
    if fc.Some? {
      var k :| 0 <= k < |r| && r[k] == fc.value && Numbered(fc.value) && forall j :: 0 <= j < k ==> !Numbered(r[j]);
      forall i | 0 <= i < k ensures r[i].chapterNumber == Unordered {
        assert FileOrder.InBand(r[i], nF, nC, n);
        assert !Numbered(r[i]);
      }
      FileOrder.FirstNumberedIsChapterOne(r, nF, nC, n, k);
      assert FileOrder.InBand(r[k], nF, nC, n);
    } else if nC > 0 {
      assert FileOrder.HasPosition(r, nF + 1);
      var q :| 0 <= q < |r| && r[q].order == nF + 1;
      assert FileOrder.InBand(r[q], nF, nC, n);
      assert Numbered(r[q]);
    }
  }
}
