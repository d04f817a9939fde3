/** The files the planner and the expander work on. Contents and modification
    times, which the program reads from disk on demand, are given here as data. */
module Files {

  /** A Document is a pseudo-html page (a `.html` or `.htm` file); anything else
      is a Blob, whose bytes are copied but never read as text. */
  datatype Kind = Document | Blob

  /** `content` is meaningful only for a Document; `mtime` stands for the
      platform's modification timestamp, which is only ever compared. */
  datatype File = File(relpath: string, kind: Kind, content: string, mtime: int)
}
