/**
 Worked paragraphs for the flat-list extractor.
 */
module FlatExamples {
  import opened Strings
  import opened Punctuation
  import opened PunctuationVectors
  import opened FlatExtractor

  /** `Dr. Ahmad: ...`: the loose label class admits the full stop that the JSONL label
      class refuses (compare `JsonlExamples.StopInLabelRejected`), so the dialogue is kept
      whenever it passes both filters. */
  lemma LooseLabelAccepted(d: String, isArabic: String -> bool)
    requires Listed(d, isArabic)
    ensures ParagraphOutputs("Dr. Ahmad" + ": " + d, isArabic) == [d]
  {
    assert "Dr. Ahmad" != [] && !IsSpace("Dr. Ahmad"[0]) && ':' !in "Dr. Ahmad" by {}
    FormattedParagraphOutputs("Dr. Ahmad", d, isArabic);
  }

  /** `أحمد: مرحبا بالعالم!`: a single sentence mark is not enough; the paragraph adds
      nothing, whatever the language detector says. */
  lemma SingleMarkDropped(isArabic: String -> bool)
    ensures ParagraphOutputs("أحمد" + ": " + "مرحبا بالعالم!", isArabic) == []
  {
    assert "أحمد" != [] && !IsSpace("أحمد"[0]) && ':' !in "أحمد" by {}
    assert "مرحبا بالعالم!" != [] && IsStripped("مرحبا بالعالم!") && '\n' !in "مرحبا بالعالم!" by {}
    SingleRunFails("مرحبا بالعالم!", SentenceMarks, 13, 14);
    FormattedParagraphOutputs("أحمد", "مرحبا بالعالم!", isArabic);
  }

  /** `أحمد: مرحبا. كيف حالك؟`: a full stop and a later Arabic question mark form two
      groups, so an Arabic dialogue like this one is kept. */
  lemma TwoGroupsKept(isArabic: String -> bool)
    requires isArabic("مرحبا. كيف حالك؟")
    ensures ParagraphOutputs("أحمد" + ": " + "مرحبا. كيف حالك؟", isArabic) == ["مرحبا. كيف حالك؟"]
  {
    assert "أحمد" != [] && !IsSpace("أحمد"[0]) && ':' !in "أحمد" by {}
    assert "مرحبا. كيف حالك؟" != [] && IsStripped("مرحبا. كيف حالك؟") && '\n' !in "مرحبا. كيف حالك؟" by {}
    assert HasMultiplePunctuationMarks("مرحبا. كيف حالك؟", SentenceMarks) by {
      Passes("مرحبا. كيف حالك؟", SentenceMarks, 5, 6, 15);
    }
    FormattedParagraphOutputs("أحمد", "مرحبا. كيف حالك؟", isArabic);
  }
}
