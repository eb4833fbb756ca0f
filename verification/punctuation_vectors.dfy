/**
 The test vectors of the standalone punctuation script, and the two mark sets told apart
 on small inputs. Each outcome follows from the run/separation characterisation of the
 grouper rather than from evaluating it.
 */
module PunctuationVectors {
  import opened Strings
  import opened Punctuation

  lemma Passes(text: String, marks: set<char>, i: nat, m: nat, j: nat)
    requires i < m < j < |text|
    requires text[i] in marks && text[m] !in marks && text[j] in marks
    ensures HasMultiplePunctuationMarks(text, marks)
  {
    MultipleMarksMeansSeparated(text, marks);
  }

  /** No mark: "Hello world". */
  lemma NoMarkLatin()
    ensures !HasMultiplePunctuationMarks("Hello world", SentenceMarksWithColon)
  {
    SingleRunFails("Hello world", SentenceMarksWithColon, 0, 0);
  }

  /** No mark: "مرحبا بالعالم". */
  lemma NoMarkArabic()
    ensures !HasMultiplePunctuationMarks("مرحبا بالعالم", SentenceMarksWithColon)
  {
    SingleRunFails("مرحبا بالعالم", SentenceMarksWithColon, 0, 0);
  }

  /** One trailing `!`. */
  lemma OneMarkLatin()
    ensures !HasMultiplePunctuationMarks("Hello world!", SentenceMarksWithColon)
  {
    SingleRunFails("Hello world!", SentenceMarksWithColon, 11, 12);
  }

  /** One trailing `!`, Arabic text. */
  lemma OneMarkArabic()
    ensures !HasMultiplePunctuationMarks("مرحبا بالعالم!", SentenceMarksWithColon)
  {
    SingleRunFails("مرحبا بالعالم!", SentenceMarksWithColon, 13, 14);
  }

  /** A doubled `!!` is one group. */
  lemma AdjacentPairLatin()
    ensures !HasMultiplePunctuationMarks("Hello world!!", SentenceMarksWithColon)
  {
    SingleRunFails("Hello world!!", SentenceMarksWithColon, 11, 13);
  }

  /** A doubled `!!` is one group, Arabic text. */
  lemma AdjacentPairArabic()
    ensures !HasMultiplePunctuationMarks("مرحبا بالعالم!!", SentenceMarksWithColon)
  {
    SingleRunFails("مرحبا بالعالم!!", SentenceMarksWithColon, 13, 15);
  }

  /** Two separated marks. */
  lemma SeparatedLatin()
    ensures HasMultiplePunctuationMarks("Hello world! How are you?", SentenceMarksWithColon)
  {
    Passes("Hello world! How are you?", SentenceMarksWithColon, 11, 12, 24);
  }

  /** Two separated marks, the second the Arabic question mark. */
  lemma SeparatedArabic()
    ensures HasMultiplePunctuationMarks("مرحبا بالعالم! كيف حالك؟", SentenceMarksWithColon)
  {
    Passes("مرحبا بالعالم! كيف حالك؟", SentenceMarksWithColon, 13, 14, 23);
  }

  /** A doubled mark, then a single one. */
  lemma DoubledThenSingleLatin()
    ensures HasMultiplePunctuationMarks("Hello world!! How are you?", SentenceMarksWithColon)
  {
    Passes("Hello world!! How are you?", SentenceMarksWithColon, 12, 13, 25);
  }

  /** A single mark, then a doubled one. */
  lemma SingleThenDoubledLatin()
    ensures HasMultiplePunctuationMarks("Hello world! How are you!!", SentenceMarksWithColon)
  {
    Passes("Hello world! How are you!!", SentenceMarksWithColon, 11, 12, 24);
  }

  /** A doubled mark, then the Arabic question mark. */
  lemma DoubledThenSingleArabic()
    ensures HasMultiplePunctuationMarks("مرحبا بالعالم!! كيف حالك؟", SentenceMarksWithColon)
  {
    Passes("مرحبا بالعالم!! كيف حالك؟", SentenceMarksWithColon, 14, 15, 24);
  }

  /** A single mark, then a doubled one, Arabic text. */
  lemma SingleThenDoubledArabic()
    ensures HasMultiplePunctuationMarks("مرحبا بالعالم! كيف حالك!!", SentenceMarksWithColon)
  {
    Passes("مرحبا بالعالم! كيف حالك!!", SentenceMarksWithColon, 13, 14, 23);
  }

  /** Two doubled runs are two groups, although the script's comment expects one. */
  lemma TwoDoubledLatin()
    ensures HasMultiplePunctuationMarks("Hello world!! How are you!!", SentenceMarksWithColon)
  {
    Passes("Hello world!! How are you!!", SentenceMarksWithColon, 12, 13, 25);
  }

  /** Two doubled runs are two groups, Arabic text. */
  lemma TwoDoubledArabic()
    ensures HasMultiplePunctuationMarks("مرحبا بالعالم!! كيف حالك!!", SentenceMarksWithColon)
  {
    Passes("مرحبا بالعالم!! كيف حالك!!", SentenceMarksWithColon, 14, 15, 24);
  }

  /** `:` is a mark in the variant set: "a: b!" has two groups there. */
  lemma ColonCountsInVariant()
    ensures HasMultiplePunctuationMarks("a: b!", SentenceMarksWithColon)
  {
    Passes("a: b!", SentenceMarksWithColon, 1, 2, 4);
  }

  /** `:` is not a mark in the main set: "a: b!" has one group there. */
  lemma ColonIgnoredInMainSet()
    ensures !HasMultiplePunctuationMarks("a: b!", SentenceMarks)
  {
    SingleRunFails("a: b!", SentenceMarks, 4, 5);
  }

  /** The Latin comma is not a mark. */
  lemma LatinCommaIgnored()
    ensures !HasMultiplePunctuationMarks("a, b!", SentenceMarks)
  {
    SingleRunFails("a, b!", SentenceMarks, 4, 5);
  }

  /** The Arabic comma is a mark. */
  lemma ArabicCommaCounts()
    ensures HasMultiplePunctuationMarks("a\U{060C} b!", SentenceMarks)
  {
    Passes("a\U{060C} b!", SentenceMarks, 1, 2, 4);
  }
}
