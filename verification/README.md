# EPUB merger — a Dafny model

This project models the core of an EPUB merging service. The service receives several EPUB archives and a set of file options. It extracts every archive into one working tree and renames chapter documents `<format><index>` with a counter that runs across all archives. Inside `<body>` it applies text replacements to XHTML documents. It then orders the documents (front matter, chapters, back matter), writes a fresh navigation document (`contents.xhtml`) and NCX (`toc.ncx`) from templates, and rewrites the manifest, spine, title and guide reference of the package document (`.opf`).

Modules, one per component of `index.js` and `util/file-functions.js`:

- `Text`: JavaScript string basics used by the source.
  - `indexOf` and `includes`.
  - `split(/\r?\n/)` and `join('\n')`.
  - Template-literal rendering of numbers.
- `Replace`: `String.prototype.replaceAll` with a string replacement, including its `$` patterns, and `String.prototype.replace` with a string pattern.
- `LineFlags`: a boolean flag raised and lowered by lines, as the source's `inBody`, `inManifest` and `inSpine` are.
- `FileFunctions`: `splitFileName`.
- `Options`: the file options, `nonChapterXHTMLIncludes` and `cleanFileOptions`.
- `BodyRewrite`: `processEpubFile`.
- `Entries`: the file records of the file list.
- `Extract`: `populateEpubDirectory`. It classifies and renames archive entries and grows the working tree and the file list.
- `Seqs` and `Sorting`: filtering and counting, and the stable sort `Array.prototype.sort` performs.
- `Collation`: name orders, namely code-point order, as `localeCompare` compares these names, and natural order.
- `FileOrder`: `establishFileOrder`.
- `Toc`: `generateTOCXHTML` and `generateTOCNCX`.
- `Opf`: `updateOPF`.
- `Merge`: the upload handler's sequence of these steps over a working tree.

## Model

| member | source | states |
|---|---|---|
| FileFunctions.SplitFileName | util/file-functions.js:3-30 | Fails exactly for `.` (with the source's message) and for names containing a line terminator (the regex cannot match). Otherwise dir + name + ext rebuilds the input, the dir is empty or ends in a separator, and name + ext holds no separator. |
| FileFunctions.SplitExtension | util/file-functions.js:16-24 | The extension starts at the last dot unless that dot is absent or first; the two parts rebuild the input. |
| FileFunctions.EmptyRemainder | util/file-functions.js:25-27 | A path ending in a separator (or empty) splits into itself as dir with empty name and ext. |
| FileFunctions.DirectoryDotsIgnored | util/file-functions.js:9-24 | Dots in the directory never affect name or extension: a separator-free remainder under any directory gets that directory, and the name and extension of the remainder alone. |
| Text.IndexOf | index.js:150-151 | Returns the first match position or -1 exactly when there is no match. |
| Text.JoinSplitLines | index.js:360-384 | Joining the split lines with `\n` gives back any text without `\r`. |
| Text.SplitJoinLines | index.js:360-384 | Splitting lines joined with `\n` gives back the lines when none holds `\n` or a trailing `\r`. |
| Text.ParseNatToString | index.js:66 | The decimal rendering of the chapter counter can be read back to the number. |
| Text.NatToStringInjective | index.js:66 | Different counter values render differently. |
| Replace.ReplaceAllIsLiteral | index.js:375 | `replaceAll` with a replacement without `$` is literal substitution of every non-overlapping occurrence, left to right. |
| Replace.ReplaceAllAbsent | index.js:375 | `replaceAll` leaves a line without the pattern unchanged. |
| Replace.ReplaceAllByMatchIsIdentity | index.js:375 | Replacing by `$&` (the match itself) changes nothing, including for an empty pattern. |
| Replace.RemoveFirst | index.js:272 | `dir.replace(opfDir, '')` removes the first occurrence wherever it is (a prefix when the dir starts with it) and nothing when absent. |
| LineFlags.RunIsRaisedBefore | index.js:359-371 | The flag after a run of lines is set iff a raising line occurs with no lowering line after it (or the flag started set and no lowering line occurs). |
| Options.NonChapterLookup | index.js:127-134 | Finds the first designated document whose format equals the name, and none exactly when no format equals it. |
| Options.DedupFrom | index.js:446-453 | Keeps a subsequence with distinct formats, drops formats already seen, and answers every lookup of an unseen name as the input does. |
| Options.CleanFileOptions | index.js:443-454 | Keeps the other options and leaves distinct formats; every lookup answers as before cleaning; cleaning the result again changes nothing. |
| Options.CleanKeepsFirstOccurrence | index.js:446-453 | The first document of each format survives cleaning. |
| Options.DedupDistinct | index.js:446-453 | A list that already has distinct, unseen formats is kept whole. |
| BodyRewrite.ProcessEpubFile | index.js:354-357 | With no replacements the document is returned unchanged, `\r` included. |
| BodyRewrite.ProcessedLine | index.js:358-384 | Line `i` of the output is line `i` of the input with every replacement applied in order when it is not a `<body`/`</body` line and an opening line occurs before it with no closing line after that; otherwise it is copied. |
| BodyRewrite.ProcessLinesAt | index.js:362-383 | The same per-line statement for the scan from any starting state. |
| BodyRewrite.ProcessLinesNoBody | index.js:362-383 | Without a `<body` line no line is changed. |
| BodyRewrite.NoBodyNoChange | index.js:354-385 | A document without `\r` and without a `<body` line is returned unchanged. |
| BodyRewrite.SelfReplacementsChangeNothing | index.js:374-376 | Replacements whose `after` is `$&` leave a line unchanged. |
| Extract.FirstPattern | index.js:64-73 | The chapter format chosen is the first one the name includes, and there is none exactly when the name includes no format. |
| Extract.Classify | index.js:57-75 | Non-`.xhtml` files are assets. A designated name wins over chapter formats and carries its document's settings. Otherwise the document is a chapter iff its name includes a format. |
| Extract.RecordFor | index.js:51-100 | A chapter is renamed format + counter and marked as body; others keep their name. Only designated front matter is marked before the chapters. A designated document takes its descriptor from the options; every other file gets `Default descriptor`. |
| Extract.ExtractEntries | index.js:47-108 | Extracting an archive's entries in turn only appends to the list, never lowers the counter, and leaves every existing path's text as it was. |
| Extract.PopulateEpubDirectory | index.js:41-115 | An archive that cannot be read leaves the job unchanged; a readable one only appends to the list, never lowers the counter, and keeps every existing path's text. |
| Extract.ExtractEntry | index.js:48-107 | Fails exactly on a file whose name cannot be split. The counter rises by one per chapter. The list grows by at most one file, whose path is new to the tree, and the tree grows by exactly that path. |
| Extract.ListedIff | index.js:76-107 | A file is listed iff it is not `.ncx`, is not an unmatched `.xhtml`, and its path is not yet in the tree; its content is the processed document for `.xhtml`, else the archive bytes. |
| Extract.ExtractEntriesPreserves | index.js:47-109 | Extracting an archive keeps every listed file's path in the tree, extends the list, never lowers the counter and never overwrites a path. |
| Extract.CounterAdvancesPerChapter | index.js:64-68 | Over an archive whose names all split, the counter rises by the number of chapter documents. |
| Extract.ChapterNamesDistinct | index.js:66 | Two chapters of one format with different counter values get different names. |
| Sorting.SortPermutes | index.js:394-396 | The sort returns a permutation of its input. |
| Sorting.SortSorted | index.js:433-435 | Under a total preorder the result is sorted. |
| Sorting.SortStable | index.js:433-435 | Elements the comparator cannot tell apart keep their input order. |
| Sorting.SortCounts | index.js:394-396 | The sort keeps the number of elements with any property. |
| Collation.TenBeforeTwo | index.js:394-396 | Code-point order puts `<format>10` strictly before `<format>2`. |
| Collation.ChapterNamesNatural | index.js:66 | Natural order puts `<format>m` strictly before `<format>n` whenever m < n. |
| Collation.NaturalLeTransitive | index.js:394-396 | The corrected name order is transitive. |
| FileOrder.AssignFromAt | index.js:412-431 | The counter-based assignment gives each file the position and chapter number computed from the counts of each kind before it. |
| FileOrder.AssignedInBand | index.js:398-431 | Front matter sits in 1..front, chapter n at front + n, back matter after the chapters, and everything else at -1. |
| FileOrder.AssignedIncreasing | index.js:412-431 | Within one kind, later files get larger positions and chapters larger numbers. |
| FileOrder.AssignedPositionsUnique | index.js:398-431 | Each position 1..n is given to exactly one file. |
| FileOrder.OrderWithBands | index.js:393-436 | The output is a permutation of the input files, sorted by position, each in its band. |
| FileOrder.OrderWithPositions | index.js:393-436 | Positions are strictly increasing after the unordered files, and every position 1..n occurs. |
| FileOrder.OrderWithWellOrdered | index.js:393-436 | The output is well ordered with the input's totals. |
| FileOrder.EstablishFileOrderAsWritten | index.js:393-436 | As written, files of one kind come out in code-point name order, and unordered files too. |
| FileOrder.EstablishFileOrder | index.js:393-436 | Corrected, files of one kind come out in natural name order, and unordered files too. |
| FileOrder.FirstNumberedIsChapterOne | index.js:412-431 | In a well-ordered list the first file with a chapter number is chapter 1. |
| FileOrder.ChapterNumbersFollowList | index.js:414-417 | A chapter listed earlier has a smaller chapter number. |
| FileOrder.AsWrittenTenBeforeTwo | index.js:394-396 | As written, the chapter `<format>10` is listed and numbered before `<format>2`. |
| FileOrder.ChaptersInIndexOrder | index.js:394-396 | Corrected, chapters of one format are listed and numbered in counter order. |
| Toc.FirstNumbered | index.js:152-157 | The first chapter is the first listed file with a chapter number, and none exists iff there is no such file. |
| Toc.NavListingIsItems | index.js:152-163 | The `TOCLIST1` expansion is one list item per file with a position, in list order. |
| Toc.NavListingFirst | index.js:152-157 | Expanding `TOCLIST1` fixes the first chapter if none was known. |
| Toc.NavScanUnknown | index.js:149-172 | Scanning the template succeeds with a first chapter iff one exists and a `TOCLIST1` line precedes every `TOCLIST2` line, and the output is the line-by-line expansion. |
| Toc.GenerateTocXhtml | index.js:143-188 | The navigation document is written (and listed as `contents.xhtml` in the first chapter's directory) iff the list has a chapter number and the template's `TOCLIST1` comes before any `TOCLIST2`; its text is the template with both placeholders expanded. |
| Toc.NcxListingIsPoints | index.js:206-222 | The `TOCLIST` expansion is one six-line navPoint per file with a position, in list order. |
| Toc.NcxScanOut | index.js:203-226 | The NCX text is the template with every `TOCLIST` line expanded, whatever the first chapter. |
| Toc.GenerateTocNcx | index.js:197-241 | The NCX is written (and listed as `toc.ncx`) iff the list has a chapter number and the template has a `TOCLIST` line; its text is the expanded template. |
| Toc.NavPointsLength | index.js:208-220 | The NCX listing has six lines per listed file. |
| Toc.FirstNumberedAfterOrdering | index.js:153-157 | For any comparator of the first sort (the source's `localeCompare` or the corrected natural order), after ordering a first chapter exists iff some chapter was extracted, and it is chapter 1. |
| Opf.FirstOpf | index.js:257-262 | The package document is the first `.opf` file listed, and none exists iff none is listed. |
| Opf.ManifestItemsAreFiltered | index.js:270-286 | The manifest gets one item per `.ncx`, `.xhtml`, `.png`, `.css` or `.jpeg` file, in list order. |
| Opf.SpineItemsAreFiltered | index.js:293-297 | The spine gets one itemref per `.xhtml` file other than `contents`, in list order. |
| Opf.KindOfLine | index.js:265-307 | A line opens the manifest iff it contains `<manifest`, and is a plain line iff it contains none of `<manifest`, `<spine`, `<reference`, `<dc:title`. |
| Opf.UpdateOpf | index.js:251-327 | No package document is produced iff no `.opf` file is listed; otherwise the new text is the old one split into lines, each line rewritten on its own with the manifest and spine flags after that line (over the lines up to and including it), joined with newlines. |
| Opf.OpfScanIsRewrites | index.js:265-322 | The stateful scan equals rewriting each line on its own with the flags after that line, computed over the lines up to and including it. |
| Opf.RewriteAtSpec | index.js:265-322 | Opening lines are kept and followed by the regenerated items, reference and title lines are replaced, and any other line is kept iff neither the manifest nor the spine is open after it. |
| Opf.PlainLinesKept | index.js:303-317 | A document without any of the markers is rewritten to itself. |
| Merge.PopulateAllPreserves | index.js:549-552 | Extracting the archives in turn keeps every listed file's path in the tree and only appends to the list. |
| Merge.WriteGenerated | index.js:173-184 | When no document was generated, nothing changes. Otherwise its entry is appended to the list and its text is stored at its path, every other path being untouched; every listed file stays present. |
| Merge.RewriteOpf | index.js:256-323 | With no `.opf` file listed, nothing changes. Otherwise the first listed `.opf` path holds the `UpdateOpf` rewrite of its old text and every other path keeps its text; the list and the set of paths are unchanged. |
| Merge.MergeEpubs | index.js:543-556 | Every file the merged list names exists in the output tree. The list is the extracted files ordered with the given first-sort comparator (the handler as written uses code-point order), then `contents.xhtml` exactly when there is a first chapter and the navigation template has `TOCLIST1` before any `TOCLIST2`, then `toc.ncx` exactly when there is a first chapter and the NCX template has a `TOCLIST` line; both are in the first chapter's directory. |
| Merge.TocsAppended | index.js:554-555 | Writing the navigation document and then the NCX appends their entries exactly when each is generated; the NCX sees the same first chapter, since `contents.xhtml` has no chapter number. |

## Left out

- The HTTP layer is left out: the Express routes, multer uploads, CORS, the `.epub` filter on uploads, the 400 responses, and config. `Merge.MergeEpubs` takes the archives already read.
- Reading and writing the file system and zip archives is left out: `generateEpubDirectory`, `generateEpub`, `cleanUploads`, `cleanFinished`, `cleanTempFolders`, `checkPathExists` and `generateDirectory`. The working tree is a map from path to text, and an archive is a sequence of entries, or `None` when it cannot be read.
- The asynchronous fan-out in `populateEpubDirectory` is modelled as a sequential fold. The source's writes and `fileList.push` calls can complete in any order, and an existence check can race a pending write.
- The enumeration order of `Object.getOwnPropertyNames(epub.files)` is taken to be the order of the entry sequence.
- `path.join` normalisation is left out: paths are the concatenation of directory, name and extension.
- Write failures and console logging are left out; a failing write would leave the file unlisted in the source.
- Template texts are inputs, not files read from `templates/`.
- The image/text distinction of `zip.file(...).async(type)` is left out: content is one string type.
- `new Set` over `chapterFormat` in `cleanFileOptions` is left out. The source's formats are objects, so the set removes only identical references; the model keeps the list as is.
- Strings are modelled as sequences of Unicode code points, while JavaScript strings are sequences of UTF-16 code units. Orders therefore differ on names holding characters above U+FFFF, and `replaceAll('', x)` (`Replace.ReplaceEmptyFrom`) inserts `x` between code points where JavaScript also inserts it between the two halves of a surrogate pair.
- `localeCompare` is modelled as code-point order. This agrees with the default ICU collation on names made of lower-case ASCII letters and digits; the two differ on case and on punctuation.
- `calculateDiagnostics` and `startServer` are left out.

## Findings

| source | as written | input that shows it | evidently intended | confidence | as-written member | corrected member |
|---|---|---|---|---|---|---|
| index.js:394-396 | The first sort compares chapter names `<format><index>` with `localeCompare`, which compares digits as characters. | Eleven chapter documents of one format, named `ch0` … `ch10`: `ch10` sorts between `ch1` and `ch2`, so it becomes chapter 3 and each later chapter moves down one. | Chapters numbered in the order of their counter (extraction order), as with `localeCompare(b, undefined, {numeric: true})`. | high; not executed | FileOrder.AsWrittenTenBeforeTwo | FileOrder.ChaptersInIndexOrder |

`FileOrder.EstablishFileOrder` is the corrected ordering. It compares the name's stem in code-point order and then its trailing run of digits, the shorter run first and runs of one length in code-point order (`Collation.NaturalLe`). That is numeric order for digit runs without leading zeros, which covers every chapter name the counter produces; `x8` still comes before `x007`. `FileOrder.EstablishFileOrderAsWritten` keeps the source's comparison (`FileOrder.ByName`). Both are `FileOrder.OrderWith` at their first comparator, and the band and position theorems are proved for any first comparator, so they hold for both. `Merge.MergeEpubs` takes the first comparator as a parameter: at `ByName` it is the handler as written, at `ByNaturalName` the corrected one.
