/** One word's appearance in one document: libraries/yacymodel/rwi_posting.go. */
module RwiPostings {
  import opened Appearances
  import opened ByteStrings

  /** Hashes are texts of twelve symbols; the day and the counts are machine integers. */
  datatype Posting = Posting(
    word: Bytes,
    url: Bytes,
    lastModified: int,
    titleWords: int,
    textWords: int,
    phrases: int,
    documentType: Byte,
    language: Bytes,
    localLinks: int,
    externalLinks: int,
    urlLength: int,
    urlComponents: int,
    appearance: Appearance,
    hits: int,
    textPosition: int,
    phraseRelativePosition: int,
    phrasePosition: int
  )
}
