/**
 Worked paragraphs for the JSONL builder. Facts about the literal strings involved are
 kept in small lemmas of their own, one fact each.
 */
module JsonlExamples {
  import opened Wrappers
  import opened Strings
  import opened SpeakerPattern
  import opened JsonlExtractor

  /** `أحمد: مرحبا كيف حالك`: a one-word label followed by an Arabic greeting is
      recorded as is. */
  lemma AhmadGreeting(isArabic: String -> bool)
    requires isArabic("مرحبا كيف حالك")
    ensures ParagraphTurn("أحمد" + ": " + "مرحبا كيف حالك", isArabic) == Some(Turn("أحمد", "مرحبا كيف حالك"))
  {
    AhmadShape();
    AhmadSpaces();
    GreetingShape();
    RecordLineRoundTrip("أحمد", "مرحبا كيف حالك", isArabic);
  }

  /** The two-word label `لقد قال` is within the four-part limit, so a paragraph such as
      `لقد قال: لا بأس، سوف أذهب معهم اليوم وأنا سعيد بذلك جدا` is recorded; the Arabic
      comma after the colon belongs to the dialogue. */
  lemma TwoWordLabelAccepted(dialogue: String, isArabic: String -> bool)
    requires ValidDialogue(dialogue) && isArabic(dialogue)
    ensures ParagraphTurn("لقد قال" + ": " + dialogue, isArabic) == Some(Turn("لقد قال", dialogue))
  {
    TwoWordShape();
    TwoWordSpaces();
    RecordLineRoundTrip("لقد قال", dialogue, isArabic);
  }

  /** `a b c d e: مرحبا`: a label of five space-separated parts is too long. */
  lemma FivePartLabelRejected(isArabic: String -> bool)
    ensures ParagraphTurn("a b c d e" + ": " + "مرحبا", isArabic) == None
  {
    FivePartShape();
    FivePartSpaces();
    HelloShape();
    LongLabelRejected("a b c d e", "مرحبا", isArabic);
  }

  /** `Dr. Ahmad: مرحبا`: a full stop before the colon ends the label class early, so
      the paragraph does not match. */
  lemma StopInLabelRejected(isArabic: String -> bool)
    ensures ParagraphTurn("Dr. Ahmad: مرحبا", isArabic) == None
  {
    var p := "Dr. Ahmad: مرحبا";
    assert IsStripped(p);
    assert p[2] == '.' && p[0] !in StrictLabelStops && p[1] !in StrictLabelStops;
    assert FirstStop(p, StrictLabelStops) == 2;
  }

  lemma AhmadShape() ensures LabelShaped("أحمد") {}

  lemma AhmadSpaces() ensures CountChar("أحمد", ' ') == 0 {}

  lemma GreetingShape() ensures ValidDialogue("مرحبا كيف حالك") {}

  lemma TwoWordShape() ensures LabelShaped("لقد قال") {}

  lemma TwoWordSpaces() ensures CountChar("لقد قال", ' ') == 1 {}

  lemma FivePartShape() ensures LabelShaped("a b c d e") {}

  lemma FivePartSpaces() ensures CountChar("a b c d e", ' ') == 4 {}

  lemma HelloShape() ensures ValidDialogue("مرحبا") {}
}
