/**
  `establishFileOrder` of index.js: the file list is sorted by name, each
  content document gets a reading-order position (front matter first, then
  the chapters, then the back matter) and chapters get consecutive chapter
  numbers; every other file gets -1 for both. The list is then sorted by
  position, so the -1 files come first.

  The source's name comparison puts `ch10` before `ch2`, so from the
  eleventh chapter on the chapters are numbered out of extraction order.
  `EstablishFileOrderAsWritten` keeps that comparison; `EstablishFileOrder`
  compares the trailing index shorter run first, which is numeric order on
  the indexes the counter writes. Everything about bands and
  positions is proved for any first comparator (`OrderWith`).
*/
module FileOrder {
  import opened Entries
  import opened Seqs
  import opened Sorting
  import opened Text
  import opened Collation

  datatype Kind = Asset | Front | Chapter | Back

  /** The branch a file takes: `isBody` is tested before `isBeforeChapters`. */
  function KindOf(f: FileRecord): Kind {
    if f.ext != ContentExt then Asset
    else if f.isBody then Chapter
    else if f.isBeforeChapters then Front
    else Back
  }

  function KindIs(k: Kind): FileRecord -> bool {
    (f: FileRecord) => KindOf(f) == k
  }

  function Count(files: seq<FileRecord>, k: Kind): nat {
    CountIf(KindIs(k), files)
  }

  /** The number of content documents. */
  function CountContent(files: seq<FileRecord>): nat {
    Count(files, Front) + Count(files, Chapter) + Count(files, Back)
  }

  /** The loop body of the second pass, given the totals and the running counters. */
  function Place(f: FileRecord, nFront: nat, nChapters: nat, front: nat, chapters: nat, back: nat): OrderedFile {
    match KindOf(f)
    case Chapter => OrderedFile(f, nFront + chapters + 1, chapters + 1)
    case Front => OrderedFile(f, front + 1, Unordered)
    case Back => OrderedFile(f, nFront + nChapters + back + 1, Unordered)
    case Asset => OrderedFile(f, Unordered, Unordered)
  }

  lemma CountStep(s: seq<FileRecord>, k: Kind, i: int)
    requires 0 <= i < |s|
    ensures Count(s[..i + 1], k) == Count(s[..i], k) + (if KindOf(s[i]) == k then 1 else 0)
    ensures Count(s[..i + 1], k) <= Count(s, k)
  {
    assert s[..i + 1] == s[..i] + [s[i]];
    FilterAppend(KindIs(k), s[..i], [s[i]]);
    assert s == s[..i + 1] + s[i + 1..];
    FilterAppend(KindIs(k), s[..i + 1], s[i + 1..]);
  }

  lemma CountFront(s: seq<FileRecord>, k: Kind)
    requires |s| > 0
    ensures Count(s, k) == (if KindOf(s[0]) == k then 1 else 0) + Count(s[1..], k)
  {
  }

  /** One for a file of the given kind, zero otherwise. */
  function Is(f: FileRecord, kind: Kind): nat {
    if KindOf(f) == kind then 1 else 0
  }

  lemma CountShift(s: seq<FileRecord>, k: int, kind: Kind)
    requires 0 < k <= |s|
    ensures Count(s[..k], kind) == Is(s[0], kind) + Count(s[1..][..k - 1], kind)
  {
    assert s[..k][1..] == s[1..][..k - 1];
    CountFront(s[..k], kind);
  }

  /** The second pass of `establishFileOrder`, carrying its three running counters. */
  function AssignFrom(files: seq<FileRecord>, nFront: nat, nChapters: nat, front: nat, chapters: nat, back: nat): (r: seq<OrderedFile>)
    ensures |r| == |files|
    decreases |files|
  {
    if |files| == 0 then []
    else
      var kind := KindOf(files[0]);
      [Place(files[0], nFront, nChapters, front, chapters, back)]
      + AssignFrom(files[1..], nFront, nChapters,
                   if kind == Front then front + 1 else front,
                   if kind == Chapter then chapters + 1 else chapters,
                   if kind == Back then back + 1 else back)
  }

  lemma AssignFromTail(files: seq<FileRecord>, nFront: nat, nChapters: nat, front: nat, chapters: nat, back: nat, k: int)
    requires 0 < k < |files|
    ensures AssignFrom(files, nFront, nChapters, front, chapters, back)[k] ==
      AssignFrom(files[1..], nFront, nChapters,
                 front + Is(files[0], Front), chapters + Is(files[0], Chapter), back + Is(files[0], Back))[k - 1]
  {
  }

  /**
    The running counters hold the numbers of front, chapter and back
    documents before the entry: entry `k` is placed as if counted afresh.
  */
  lemma {:induction false} AssignFromAt(files: seq<FileRecord>, nFront: nat, nChapters: nat, front: nat, chapters: nat, back: nat, k: int)
    requires 0 <= k < |files|
    ensures AssignFrom(files, nFront, nChapters, front, chapters, back)[k] ==
      Place(files[k], nFront, nChapters,
            front + Count(files[..k], Front), chapters + Count(files[..k], Chapter), back + Count(files[..k], Back))
    decreases k
  {
    if k == 0 {
      assert files[..0] == [];
    } else {
      AssignFromTail(files, nFront, nChapters, front, chapters, back, k);
      AssignFromAt(files[1..], nFront, nChapters,
                   front + Is(files[0], Front), chapters + Is(files[0], Chapter), back + Is(files[0], Back), k - 1);
      assert files[1..][k - 1] == files[k];
      CountShift(files, k, Front);
      CountShift(files, k, Chapter);
      CountShift(files, k, Back);
    }
  }

  /** Both passes over a list already in name order. */
  function AssignOrders(files: seq<FileRecord>): seq<OrderedFile> {
    AssignFrom(files, Count(files, Front), Count(files, Chapter), 0, 0, 0)
  }

  /**
    Where a file may sit, given the totals: front matter in 1..nFront,
    chapter `n` at nFront + n for n in 1..nChapters, back matter after the
    chapters up to the number of content documents, anything else at -1.
  */
  predicate InBand(x: OrderedFile, nFront: nat, nChapters: nat, nContent: nat) {
    match KindOf(x.file)
    case Asset => x.order == Unordered && x.chapterNumber == Unordered
    case Front => 1 <= x.order <= nFront && x.chapterNumber == Unordered
    case Chapter => 1 <= x.chapterNumber <= nChapters && x.order == nFront + x.chapterNumber
    case Back => nFront + nChapters < x.order <= nContent && x.chapterNumber == Unordered
  }

  lemma AssignedFiles(files: seq<FileRecord>)
    ensures MapSeq(FileOf, AssignOrders(files)) == files
  {
    forall k | 0 <= k < |files| ensures AssignOrders(files)[k].file == files[k] {
      AssignFromAt(files, Count(files, Front), Count(files, Chapter), 0, 0, 0, k);
    }
  }

  /** Every file of the assignment lands in its band. */
  lemma AssignedInBand(files: seq<FileRecord>, k: int)
    requires 0 <= k < |files|
    ensures AssignOrders(files)[k].file == files[k]
    ensures InBand(AssignOrders(files)[k], Count(files, Front), Count(files, Chapter), CountContent(files))
  {
    AssignFromAt(files, Count(files, Front), Count(files, Chapter), 0, 0, 0, k);
    CountStep(files, KindOf(files[k]), k);
  }

  /** Within one kind, positions (and chapter numbers) strictly increase along the list. */
  lemma AssignedIncreasing(files: seq<FileRecord>, i: int, j: int)
    requires 0 <= i < j < |files|
    requires KindOf(files[i]) == KindOf(files[j]) != Asset
    ensures AssignOrders(files)[i].order < AssignOrders(files)[j].order
    ensures KindOf(files[i]) == Chapter ==> AssignOrders(files)[i].chapterNumber < AssignOrders(files)[j].chapterNumber
  {
    var kind := KindOf(files[i]);
    CountStep(files[..j], kind, i);
    assert files[..j][..i + 1] == files[..i + 1];
    assert files[..j][..i] == files[..i];
    assert Count(files[..i], kind) < Count(files[..j], kind);
    AssignFromAt(files, Count(files, Front), Count(files, Chapter), 0, 0, 0, i);
    AssignFromAt(files, Count(files, Front), Count(files, Chapter), 0, 0, 0, j);
  }

  /** `OrderIs(m)` holds of the files at position `m`. */
  function OrderIs(m: int): OrderedFile -> bool {
    (x: OrderedFile) => x.order == m
  }

  /** There is a file of kind `k` with exactly `m` files of that kind before it, for each `m` below the total. */
  lemma {:induction false} NthOfKind(s: seq<FileRecord>, k: Kind, m: nat)
    requires m < Count(s, k)
    ensures exists i :: 0 <= i < |s| && KindOf(s[i]) == k && Count(s[..i], k) == m
    decreases |s|
  {
    CountFront(s, k);
    if KindOf(s[0]) == k && m == 0 {
      assert s[..0] == [];
      assert KindOf(s[0]) == k && Count(s[..0], k) == m;
    } else {
      var m' := if KindOf(s[0]) == k then m - 1 else m;
      NthOfKind(s[1..], k, m');
      var i :| 0 <= i < |s[1..]| && KindOf(s[1..][i]) == k && Count(s[1..][..i], k) == m';
      assert s[..i + 1][1..] == s[1..][..i];
      CountFront(s[..i + 1], k);
      assert KindOf(s[i + 1]) == k && Count(s[..i + 1], k) == m;
    }
  }

  /** Each position 1..n of the `n` content documents is held by exactly one file. */
  lemma AssignedPositionsUnique(files: seq<FileRecord>, m: int)
    requires 1 <= m <= CountContent(files)
    ensures CountIf(OrderIs(m), AssignOrders(files)) == 1
  {
    var a := AssignOrders(files);
    var nF, nC := Count(files, Front), Count(files, Chapter);
    var kind := if m <= nF then Front else if m <= nF + nC then Chapter else Back;
    var rank := if m <= nF then m - 1 else if m <= nF + nC then m - nF - 1 else m - nF - nC - 1;
    NthOfKind(files, kind, rank);
    var k :| 0 <= k < |files| && KindOf(files[k]) == kind && Count(files[..k], kind) == rank;
    AssignedPosition(files, k);
    forall j | 0 <= j < |a| && j != k ensures !OrderIs(m)(a[j]) {
      PositionsDiffer(files, k, j);
    }
    CountOne(OrderIs(m), a, k);
  }

  /** The position of a content document: its band's start plus the number of its kind before it. */
  lemma AssignedPosition(files: seq<FileRecord>, k: int)
    requires 0 <= k < |files|
    ensures var nF, nC, c := Count(files, Front), Count(files, Chapter), Count(files[..k], KindOf(files[k]));
      AssignOrders(files)[k].order == match KindOf(files[k])
        case Front => c + 1
        case Chapter => nF + c + 1
        case Back => nF + nC + c + 1
        case Asset => Unordered
  {
    AssignFromAt(files, Count(files, Front), Count(files, Chapter), 0, 0, 0, k);
  }

  /** A content document's position is held by no other file. */
  lemma PositionsDiffer(files: seq<FileRecord>, k: int, j: int)
    requires 0 <= k < |files| && 0 <= j < |files| && j != k
    requires KindOf(files[k]) != Asset
    ensures AssignOrders(files)[j].order != AssignOrders(files)[k].order
  {
    AssignedInBand(files, j);
    AssignedInBand(files, k);
    if KindOf(files[j]) == KindOf(files[k]) {
      if j < k {
        AssignedIncreasing(files, j, k);
      } else {
        AssignedIncreasing(files, k, j);
      }
    }
  }

  /** The comparator of the first sort as the source writes it: `a.name.localeCompare(b.name)`. */
  predicate ByName(x: FileRecord, y: FileRecord) {
    NameLe(x.name, y.name)
  }

  /** The corrected comparator of the first sort: stems, then trailing numbers. */
  predicate ByNaturalName(x: FileRecord, y: FileRecord) {
    NaturalLe(x.name, y.name)
  }

  /** The comparator of the second sort: `a.order - b.order <= 0`. */
  predicate ByOrder(x: OrderedFile, y: OrderedFile) {
    x.order <= y.order
  }

  /** A comparator on files lifted to ordered files. */
  function OnFile(le: (FileRecord, FileRecord) -> bool): (OrderedFile, OrderedFile) -> bool {
    (x: OrderedFile, y: OrderedFile) => le(x.file, y.file)
  }

  function FileOf(x: OrderedFile): FileRecord {
    x.file
  }

  lemma ByNameTotalPreorder()
    ensures TotalPreorder(ByName)
  {
    forall a, b ensures ByName(a, b) || ByName(b, a) {
      NameLeTotal(a.name, b.name);
    }
    forall a, b, c | ByName(a, b) && ByName(b, c) ensures ByName(a, c) {
      NameLeTransitive(a.name, b.name, c.name);
    }
  }

  lemma ByNaturalNameTotalPreorder()
    ensures TotalPreorder(ByNaturalName)
  {
    forall a, b ensures ByNaturalName(a, b) || ByNaturalName(b, a) {
      NaturalLeTotal(a.name, b.name);
    }
    forall a, b, c | ByNaturalName(a, b) && ByNaturalName(b, c) ensures ByNaturalName(a, c) {
      NaturalLeTransitive(a.name, b.name, c.name);
    }
  }

  lemma ByOrderTotalPreorder()
    ensures TotalPreorder(ByOrder)
  {
  }

  /** `establishFileOrder` with the first sort's comparator as a parameter. */
  function OrderWith(le: (FileRecord, FileRecord) -> bool, files: seq<FileRecord>): (r: seq<OrderedFile>)
    ensures |r| == |files|
  {
    Sort(ByOrder, AssignOrders(Sort(le, files)))
  }

  /**
    `establishFileOrder` as written: names compared code point by code point.
    Files of one kind come out in code-point name order, and so do the other files.
  */
  function EstablishFileOrderAsWritten(files: seq<FileRecord>): (r: seq<OrderedFile>)
    ensures forall i, j :: 0 <= i < j < |r| && KindOf(r[i].file) == KindOf(r[j].file) != Asset ==>
              NameLe(r[i].file.name, r[j].file.name)
    ensures Sorted(OnFile(ByName), Filter(OrderIs(Unordered), r))
  {
    ByNameTotalPreorder();
    OrderWithKinds(ByName, files);
    OrderWith(ByName, files)
  }

  /**
    `establishFileOrder` with chapter indexes compared as numbers, the
    corrected ordering. Files of one kind come out in natural name order, and
    so do the other files.
  */
  function EstablishFileOrder(files: seq<FileRecord>): (r: seq<OrderedFile>)
    ensures forall i, j :: 0 <= i < j < |r| && KindOf(r[i].file) == KindOf(r[j].file) != Asset ==>
              NaturalLe(r[i].file.name, r[j].file.name)
    ensures Sorted(OnFile(ByNaturalName), Filter(OrderIs(Unordered), r))
  {
    ByNaturalNameTotalPreorder();
    OrderWithKinds(ByNaturalName, files);
    OrderWith(ByNaturalName, files)
  }

  /** The first sort keeps the files and the counts of each kind. */
  lemma FirstSortCounts(le: (FileRecord, FileRecord) -> bool, files: seq<FileRecord>)
    ensures var sorted := Sort(le, files);
      && multiset(sorted) == multiset(files)
      && Count(sorted, Front) == Count(files, Front)
      && Count(sorted, Chapter) == Count(files, Chapter)
      && Count(sorted, Back) == Count(files, Back)
  {
    SortPermutes(le, files);
    SortCounts(le, KindIs(Front), files);
    SortCounts(le, KindIs(Chapter), files);
    SortCounts(le, KindIs(Back), files);
  }

  /** Every output element is one of the assignment's. */
  lemma FromAssignment(le: (FileRecord, FileRecord) -> bool, files: seq<FileRecord>, k: int) returns (p: int)
    requires 0 <= k < |files|
    ensures var a := AssignOrders(Sort(le, files));
      0 <= p < |a| && OrderWith(le, files)[k] == a[p]
  {
    var a := AssignOrders(Sort(le, files));
    var r := OrderWith(le, files);
    SortPermutes(ByOrder, a);
    assert r[k] in multiset(r);
    assert r[k] in a;
    p :| 0 <= p < |a| && a[p] == r[k];
  }

  /**
    Whatever the first comparator, the output holds the input's files, each
    once, sorted by position, and every file sits in its band computed from
    the input's totals.
  */
  lemma OrderWithBands(le: (FileRecord, FileRecord) -> bool, files: seq<FileRecord>)
    ensures var r := OrderWith(le, files);
      && multiset(MapSeq(FileOf, r)) == multiset(files)
      && Sorted(ByOrder, r)
      && forall k :: 0 <= k < |r| ==>
           InBand(r[k], Count(files, Front), Count(files, Chapter), CountContent(files))
  {
    var sorted := Sort(le, files);
    var a := AssignOrders(sorted);
    var r := OrderWith(le, files);
    FirstSortCounts(le, files);
    SortPermutesMapped(ByOrder, FileOf, a);
    AssignedFiles(sorted);
    ByOrderTotalPreorder();
    SortSorted(ByOrder, a);
    forall k | 0 <= k < |r|
      ensures InBand(r[k], Count(files, Front), Count(files, Chapter), CountContent(files))
    {
      var p := FromAssignment(le, files, k);
      AssignedInBand(sorted, p);
    }
  }

  /** In the assignment, position `m` of 1..n is held exactly once, and so it is in the output. */
  lemma OutputPositionCount(le: (FileRecord, FileRecord) -> bool, files: seq<FileRecord>, m: int)
    requires 1 <= m <= CountContent(files)
    ensures CountIf(OrderIs(m), OrderWith(le, files)) == 1
  {
    var sorted := Sort(le, files);
    FirstSortCounts(le, files);
    AssignedPositionsUnique(sorted, m);
    SortCounts(ByOrder, OrderIs(m), AssignOrders(sorted));
  }

  /** Some file sits at position `m`. */
  predicate HasPosition(r: seq<OrderedFile>, m: int) {
    exists k :: 0 <= k < |r| && r[k].order == m
  }

  /**
    The content documents of the output hold the positions 1..n, each
    exactly once and in increasing order; everything else comes first.
  */
  lemma OrderWithPositions(le: (FileRecord, FileRecord) -> bool, files: seq<FileRecord>)
    ensures var r := OrderWith(le, files);
      && (forall i, j :: 0 <= i < j < |r| && r[i].order != Unordered ==> r[i].order < r[j].order)
      && (forall m :: 1 <= m <= CountContent(files) ==> HasPosition(r, m))
  {
    var r := OrderWith(le, files);
    OrderWithBands(le, files);
    forall i, j | 0 <= i < j < |r| && r[i].order != Unordered ensures r[i].order < r[j].order {
      var m := r[i].order;
      assert ByOrder(r[i], r[j]);
      assert 1 <= m <= CountContent(files);
      if r[j].order == m {
        CountTwo(OrderIs(m), r, i, j);
        OutputPositionCount(le, files, m);
      }
    }
    forall m | 1 <= m <= CountContent(files) ensures HasPosition(r, m) {
      OutputPositionCount(le, files, m);
      CountWitness(OrderIs(m), r);
    }
  }

  /**
    Content documents of one kind keep the first sort's order, and the
    other files keep it among themselves.
  */
  lemma OrderWithKinds(le: (FileRecord, FileRecord) -> bool, files: seq<FileRecord>)
    requires TotalPreorder(le)
    ensures var r := OrderWith(le, files);
      && (forall i, j :: 0 <= i < j < |r| && KindOf(r[i].file) == KindOf(r[j].file) != Asset ==>
            le(r[i].file, r[j].file))
      && Sorted(OnFile(le), Filter(OrderIs(Unordered), r))
  {
    var sorted := Sort(le, files);
    var a := AssignOrders(sorted);
    var r := OrderWith(le, files);
    SortSorted(le, files);
    FirstSortCounts(le, files);
    OrderWithPositions(le, files);
    OrderWithBands(le, files);
    forall i, j | 0 <= i < j < |r| && KindOf(r[i].file) == KindOf(r[j].file) != Asset
      ensures le(r[i].file, r[j].file)
    {
      var p := FromAssignment(le, files, i);
      var q := FromAssignment(le, files, j);
      assert r[i].order < r[j].order;
      AssignedFiles(sorted);
      if q < p {
        AssignedIncreasing(sorted, q, p);
      }
      assert p < q;
      assert le(sorted[p], sorted[q]);
    }
    assert Sorted(OnFile(le), a) by {
      AssignedFiles(sorted);
      forall i, j | 0 <= i < j < |a| ensures OnFile(le)(a[i], a[j]) {
        assert le(sorted[i], sorted[j]);
      }
    }
    SortStable(ByOrder, OrderIs(Unordered), a);
    FilterSorted(OnFile(le), OrderIs(Unordered), a);
  }

  /** What the theorems above establish about an output list, with the totals it was built from. */
  ghost predicate WellOrdered(r: seq<OrderedFile>, nFront: nat, nChapters: nat, nContent: nat) {
    && nFront + nChapters <= nContent
    && (forall k :: 0 <= k < |r| ==> InBand(r[k], nFront, nChapters, nContent))
    && (forall i, j :: 0 <= i < j < |r| && r[i].order != Unordered ==> r[i].order < r[j].order)
    && (forall m :: 1 <= m <= nContent ==> HasPosition(r, m))
  }

  lemma OrderWithWellOrdered(le: (FileRecord, FileRecord) -> bool, files: seq<FileRecord>)
    ensures WellOrdered(OrderWith(le, files), Count(files, Front), Count(files, Chapter), CountContent(files))
  {
    OrderWithBands(le, files);
    OrderWithPositions(le, files);
  }

  /**
    In a well-ordered list the first file that has a chapter number is a
    chapter with number 1.
  */
  lemma FirstNumberedIsChapterOne(r: seq<OrderedFile>, nFront: nat, nChapters: nat, nContent: nat, k: int)
    requires WellOrdered(r, nFront, nChapters, nContent)
    requires 0 <= k < |r| && r[k].chapterNumber != Unordered
    requires forall i :: 0 <= i < k ==> r[i].chapterNumber == Unordered
    ensures r[k].chapterNumber == 1 && KindOf(r[k].file) == Chapter
  {
    assert InBand(r[k], nFront, nChapters, nContent);
    assert HasPosition(r, nFront + 1);
    var q :| 0 <= q < |r| && r[q].order == nFront + 1;
    assert InBand(r[q], nFront, nChapters, nContent);
    assert r[q].chapterNumber == 1;
    assert k <= q;
    assert r[k].order <= r[q].order;
  }

  /** In a well-ordered list, a chapter listed earlier has the smaller chapter number. */
  lemma ChapterNumbersFollowList(r: seq<OrderedFile>, nFront: nat, nChapters: nat, nContent: nat, i: int, j: int)
    requires WellOrdered(r, nFront, nChapters, nContent)
    requires 0 <= i < j < |r| && KindOf(r[i].file) == Chapter && KindOf(r[j].file) == Chapter
    ensures r[i].chapterNumber < r[j].chapterNumber
  {
    assert InBand(r[i], nFront, nChapters, nContent) && InBand(r[j], nFront, nChapters, nContent);
  }

  /**
    As written, the chapter file with index 10 of a format is listed, and
    numbered, before the one with index 2.
  */
  lemma AsWrittenTenBeforeTwo(files: seq<FileRecord>, format: string, i: int, j: int)
    requires var r := EstablishFileOrderAsWritten(files);
      && 0 <= i < |r| && 0 <= j < |r|
      && r[i].file.name == format + NatToString(2) && KindOf(r[i].file) == Chapter
      && r[j].file.name == format + NatToString(10) && KindOf(r[j].file) == Chapter
    ensures var r := EstablishFileOrderAsWritten(files);
      j < i && r[j].chapterNumber < r[i].chapterNumber
  {
    var r := EstablishFileOrderAsWritten(files);
    TenBeforeTwo(format);
    assert !NameLe(r[i].file.name, r[j].file.name);
    OrderWithWellOrdered(ByName, files);
    if j < i {
      ChapterNumbersFollowList(r, Count(files, Front), Count(files, Chapter), CountContent(files), j, i);
    }
  }

  /**
    Corrected: chapter files of one format are listed, and numbered, in the
    order of their indexes, that is in the order they were extracted.
  */
  lemma ChaptersInIndexOrder(files: seq<FileRecord>, format: string, m: nat, n: nat, i: int, j: int)
    requires m < n
    requires var r := EstablishFileOrder(files);
      && 0 <= i < |r| && 0 <= j < |r|
      && r[i].file.name == format + NatToString(m) && KindOf(r[i].file) == Chapter
      && r[j].file.name == format + NatToString(n) && KindOf(r[j].file) == Chapter
    ensures var r := EstablishFileOrder(files);
      i < j && r[i].chapterNumber < r[j].chapterNumber
  {
    var r := EstablishFileOrder(files);
    var a, b := r[i].file.name, r[j].file.name;
    ChapterNamesNatural(format, m, n);
    assert NaturalLe(a, b) && !NaturalLe(b, a);
    assert i != j;
    assert j < i ==> NaturalLe(b, a);
    OrderWithWellOrdered(ByNaturalName, files);
    if i < j {
      ChapterNumbersFollowList(r, Count(files, Front), Count(files, Chapter), CountContent(files), i, j);
    }
  }
}
