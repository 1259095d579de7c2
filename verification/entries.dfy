/** The file list threaded through every stage of a merge job. */
module Entries {

  /** One extracted file, as `populateEpubDirectory` pushes it on `fileList`. */
  datatype FileRecord = FileRecord(
    name: string,
    dir: string,
    ext: string,
    isBody: bool,
    isBeforeChapters: bool,
    descriptor: string)

  /** A file after `establishFileOrder` set its `order` and `chapterNumber` (-1 when unset). */
  datatype OrderedFile = OrderedFile(file: FileRecord, order: int, chapterNumber: int)

  /** The marker `order` and `chapterNumber` take for files outside the reading order. */
  const Unordered: int := -1

  const DefaultDescriptor: string := "Default descriptor"

  /** The extension of content documents (XHTML). */
  const ContentExt: string := ".xhtml"

  /** The extension of the NCX table of contents. */
  const LegacyIndexExt: string := ".ncx"

  /** The name of the generated navigation document, `contents.xhtml`. */
  const ContentsName: string := "contents"

  /** Where the file sits inside the job's working tree. */
  function PathOf(f: FileRecord): string {
    f.dir + f.name + f.ext
  }
}
