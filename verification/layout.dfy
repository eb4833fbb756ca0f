/**
 How every extractor cuts a source text: the text is decoded, split into sections at
 `##########`, and each stripped section is split into paragraphs at blank lines.
 */
module Layout {
  import opened Strings
  import opened Normalizer
  import opened External

  const SectionMarker: String := "##########"
  const ParagraphBreak: String := "\n\n"

  /** The sections of a text, after entity decoding and backslash processing. */
  function Sections(text: String, o: Oracles): (sections: seq<String>)
    ensures |sections| >= 1
  {
    Split(Normalize(o.unescape, text), SectionMarker)
  }
}
