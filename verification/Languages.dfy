/** Two-letter language codes: libraries/yacymodel/language.go. */
module Languages {
  import opened ByteStrings

  const CODE_LENGTH := 2

  predicate IsLanguage(code: Bytes) {
    |code| == CODE_LENGTH && forall i | 0 <= i < CODE_LENGTH :: 'a' as int <= code[i] <= 'z' as int
  }
}
