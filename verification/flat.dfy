/**
 The flat-list extractor of the Rewayat preprocessing script. Every section of the decoded
 text (all of them: there is no cap) is cut into paragraphs; a paragraph of the form
 `label: dialogue`, with a label free of `:`, contributes its dialogue when the dialogue is
 Arabic and holds at least two separate groups of sentence marks. The result is a single
 list of dialogues in text order, with no speaker and no section boundaries.
 */
module FlatExtractor {
  import opened Wrappers
  import opened Strings
  import opened SpeakerPattern
  import opened Punctuation
  import opened External
  import opened Collect
  import opened Layout

  /** A dialogue as listed: non-blank, stripped, on one line, Arabic, and with at least two
      separate groups of sentence marks. */
  predicate Listed(d: String, isArabic: String -> bool) {
    && d != [] && IsStripped(d) && '\n' !in d
    && isArabic(d) && HasMultiplePunctuationMarks(d, SentenceMarks)
  }

  /** One pass of the inner loop over the pieces of `dialogue.split('\n\n')`: a piece that
      is not blank and has two mark groups lets the whole dialogue through, provided the
      dialogue is Arabic and has two mark groups itself. */
  function PieceOutput(piece: String, dialogue: String, isArabic: String -> bool): Option<String> {
    if Strip(piece) == [] then None
    else if !HasMultiplePunctuationMarks(piece, SentenceMarks) then None
    else if !isArabic(dialogue) then None
    else if !HasMultiplePunctuationMarks(dialogue, SentenceMarks) then None
    else Some(dialogue)
  }

  /** The inner loop's step for each piece of `dialogue`, one entry per piece. */
  function PieceOutputs(pieces: seq<String>, dialogue: String, isArabic: String -> bool): seq<Option<String>>
  {
    seq(|pieces|, i requires 0 <= i < |pieces| => PieceOutput(pieces[i], dialogue, isArabic))
  }

  /** The inner loop: what a matched dialogue appends, once per qualifying piece. */
  function DialogueOutputs(dialogue: String, isArabic: String -> bool): seq<String> {
    Somes(PieceOutputs(Split(dialogue, ParagraphBreak), dialogue, isArabic))
  }

  /** What one paragraph of a section appends to the list. */
  function ParagraphOutputs(raw: String, isArabic: String -> bool): seq<String> {
    var p := Strip(raw);
    if p == [] then []
    else match MatchSpeaker(p, LooseLabelStops)
      case None => []
      case Some(m) =>
        var dialogue := Strip(m.dialogue);
        if dialogue == [] then [] else DialogueOutputs(dialogue, isArabic)
  }

  /** What each paragraph of a section appends, one entry per paragraph. */
  function ParagraphOutputLists(paragraphs: seq<String>, isArabic: String -> bool): seq<seq<String>>
  {
    seq(|paragraphs|, i requires 0 <= i < |paragraphs| => ParagraphOutputs(paragraphs[i], isArabic))
  }

  /** What the paragraphs of a section append, in order. */
  function ParagraphsOutputs(paragraphs: seq<String>, isArabic: String -> bool): seq<String> {
    Concat(ParagraphOutputLists(paragraphs, isArabic))
  }

  /** What one section appends: nothing for a blank section, otherwise what its
      paragraphs append. */
  function SectionOutputs(section: String, isArabic: String -> bool): seq<String> {
    if Strip(section) == [] then []
    else ParagraphsOutputs(Split(Strip(section), ParagraphBreak), isArabic)
  }

  /** What each section appends, one entry per section. */
  function SectionOutputLists(sections: seq<String>, isArabic: String -> bool): seq<seq<String>>
  {
    seq(|sections|, j requires 0 <= j < |sections| => SectionOutputs(sections[j], isArabic))
  }

  /** What a list of sections appends, in order. */
  function SectionsOutputs(sections: seq<String>, isArabic: String -> bool): seq<String> {
    Concat(SectionOutputLists(sections, isArabic))
  }

  /** `extract_speaker_paragraphs_with_punctuation(text)`. */
  function ExtractSpeakerParagraphsWithPunctuation(text: String, o: Oracles): seq<String> {
    SectionsOutputs(Sections(text, o), o.isArabic)
  }

  /** A matched dialogue is on one line, so `split('\n\n')` leaves it whole and the inner
      loop runs once: it appends the dialogue exactly when the dialogue passes both
      filters. */
  lemma DialogueOutputsOnce(dialogue: String, isArabic: String -> bool)
    requires dialogue != [] && IsStripped(dialogue) && '\n' !in dialogue
    ensures DialogueOutputs(dialogue, isArabic) ==
      if isArabic(dialogue) && HasMultiplePunctuationMarks(dialogue, SentenceMarks) then [dialogue] else []
  {
    NoSeparatorChar(dialogue, ParagraphBreak);
    SplitNoSeparator(dialogue, ParagraphBreak);
    assert Strip(dialogue) == dialogue;
    var xs := PieceOutputs([dialogue], dialogue, isArabic);
    assert xs == [PieceOutput(dialogue, dialogue, isArabic)];
    SomesSingle(PieceOutput(dialogue, dialogue, isArabic));
  }

  /** What a paragraph that matches appends: its dialogue, when that passes both
      filters. */
  lemma MatchedParagraphOutputs(raw: String, isArabic: String -> bool) returns (m: Turn)
    requires MatchSpeaker(Strip(raw), LooseLabelStops).Some?
    ensures MatchSpeaker(Strip(raw), LooseLabelStops) == Some(m) && IsMatch(Strip(raw), LooseLabelStops, m)
    ensures ParagraphOutputs(raw, isArabic) == if Listed(m.dialogue, isArabic) then [m.dialogue] else []
  {
    m := MatchedParagraph(raw, isArabic);
    DialogueOutputsOnce(m.dialogue, isArabic);
  }

  /** A paragraph that matches appends what the inner loop makes of its dialogue. */
  lemma MatchedParagraph(raw: String, isArabic: String -> bool) returns (m: Turn)
    requires MatchSpeaker(Strip(raw), LooseLabelStops).Some?
    ensures MatchSpeaker(Strip(raw), LooseLabelStops) == Some(m) && IsMatch(Strip(raw), LooseLabelStops, m)
    ensures ParagraphOutputs(raw, isArabic) == DialogueOutputs(m.dialogue, isArabic)
    ensures m.dialogue != [] && IsStripped(m.dialogue) && '\n' !in m.dialogue
  {
    var p := Strip(raw);
    m := MatchSpeaker(p, LooseLabelStops).value;
    MatchedDialogueIsStripped(p, LooseLabelStops);
  }

  /** A paragraph that does not match appends nothing. */
  lemma UnmatchedParagraph(raw: String, isArabic: String -> bool)
    requires MatchSpeaker(Strip(raw), LooseLabelStops).None?
    ensures ParagraphOutputs(raw, isArabic) == []
  {
  }

  /** A paragraph appends at most one dialogue: the inner loop sees a single piece. */
  lemma ParagraphOutputsAtMostOne(raw: String, isArabic: String -> bool)
    ensures |ParagraphOutputs(raw, isArabic)| <= 1
  {
    if MatchSpeaker(Strip(raw), LooseLabelStops).None? {
      UnmatchedParagraph(raw, isArabic);
    } else {
      var m := MatchedParagraphOutputs(raw, isArabic);
    }
  }

  /** What a paragraph appends is the dialogue of a match of it, and is listed: Arabic,
      with two groups of sentence marks. */
  lemma ParagraphOutputKept(raw: String, isArabic: String -> bool, d: String) returns (name: String)
    requires d in ParagraphOutputs(raw, isArabic)
    ensures IsMatch(Strip(raw), LooseLabelStops, Turn(name, d)) && Listed(d, isArabic)
  {
    ParagraphWithOutputMatches(raw, isArabic, d);
    var m := MatchedParagraphOutputs(raw, isArabic);
    name := m.speaker;
  }

  /** A paragraph that appends anything matches. */
  lemma ParagraphWithOutputMatches(raw: String, isArabic: String -> bool, d: String)
    requires d in ParagraphOutputs(raw, isArabic)
    ensures MatchSpeaker(Strip(raw), LooseLabelStops).Some?
  {
    if MatchSpeaker(Strip(raw), LooseLabelStops).None? {
      UnmatchedParagraph(raw, isArabic);
    }
  }

  /** A paragraph that matches with a dialogue passing both filters appends exactly that
      dialogue. */
  lemma KeptParagraphOutputs(raw: String, isArabic: String -> bool, name: String, d: String)
    requires IsMatch(Strip(raw), LooseLabelStops, Turn(name, d))
    requires isArabic(d) && HasMultiplePunctuationMarks(d, SentenceMarks)
    ensures ParagraphOutputs(raw, isArabic) == [d]
  {
    MatchIsUnique(Strip(raw), LooseLabelStops, Turn(name, d));
    var m := MatchedParagraphOutputs(raw, isArabic);
  }

  /** Writing a dialogue behind a label as `label: dialogue` and extracting it gives the
      dialogue back exactly when it passes both filters, for a label that starts with a
      non-space and holds no colon. */
  lemma FormattedParagraphOutputs(name: String, d: String, isArabic: String -> bool)
    requires name != [] && !IsSpace(name[0]) && ':' !in name
    requires d != [] && IsStripped(d) && '\n' !in d
    ensures ParagraphOutputs(name + ": " + d, isArabic) == if Listed(d, isArabic) then [d] else []
  {
    FormatThenMatch(name, d, LooseLabelStops);
    var m := MatchedParagraphOutputs(name + ": " + d, isArabic);
  }

  /** Paragraphs contribute in order: what `a + b` appends is what `a` appends followed
      by what `b` appends. */
  lemma ParagraphsOutputsAppend(a: seq<String>, b: seq<String>, isArabic: String -> bool)
    ensures ParagraphsOutputs(a + b, isArabic) == ParagraphsOutputs(a, isArabic) + ParagraphsOutputs(b, isArabic)
  {
    var xa, xb := ParagraphOutputLists(a, isArabic), ParagraphOutputLists(b, isArabic);
    var xs := ParagraphOutputLists(a + b, isArabic);
    assert |xs| == |xa + xb|;
    forall i | 0 <= i < |xs| ensures xs[i] == (xa + xb)[i] {
      if i < |a| {
        assert (a + b)[i] == a[i];
        assert xs[i] == ParagraphOutputs(a[i], isArabic) == xa[i];
      } else {
        assert (a + b)[i] == b[i - |a|];
        assert xs[i] == ParagraphOutputs(b[i - |a|], isArabic) == xb[i - |a|];
      }
    }
    assert xs == xa + xb;
    ConcatAppend(xa, xb);
  }

  /** Sections contribute in order and none is dropped, however many there are: what
      `a + b` appends is what `a` appends followed by what `b` appends. */
  lemma SectionsOutputsAppend(a: seq<String>, b: seq<String>, isArabic: String -> bool)
    ensures SectionsOutputs(a + b, isArabic) == SectionsOutputs(a, isArabic) + SectionsOutputs(b, isArabic)
  {
    var xa, xb := SectionOutputLists(a, isArabic), SectionOutputLists(b, isArabic);
    var xs := SectionOutputLists(a + b, isArabic);
    assert |xs| == |xa + xb|;
    forall j | 0 <= j < |xs| ensures xs[j] == (xa + xb)[j] {
      if j < |a| {
        assert (a + b)[j] == a[j];
        assert xs[j] == SectionOutputs(a[j], isArabic) == xa[j];
      } else {
        assert (a + b)[j] == b[j - |a|];
        assert xs[j] == SectionOutputs(b[j - |a|], isArabic) == xb[j - |a|];
      }
    }
    assert xs == xa + xb;
    ConcatAppend(xa, xb);
  }

  /** Every dialogue in the list comes from a matching paragraph `i` of a non-blank
      section `j` of the text, and is listed: stripped, on one line, Arabic, with two
      groups of sentence marks. */
  lemma ExtractedDialogueSource(text: String, o: Oracles, d: String) returns (j: nat, i: nat, name: String)
    requires d in ExtractSpeakerParagraphsWithPunctuation(text, o)
    ensures var sections := Sections(text, o);
      && j < |sections| && Strip(sections[j]) != []
      && var paragraphs := Split(Strip(sections[j]), ParagraphBreak);
      && i < |paragraphs| && IsMatch(Strip(paragraphs[i]), LooseLabelStops, Turn(name, d))
      && Listed(d, o.isArabic)
  {
    var sections := Sections(text, o);
    var xss := SectionOutputLists(sections, o.isArabic);
    ConcatFrom(xss, d);
    j :| 0 <= j < |xss| && d in xss[j];
    var paragraphs := Split(Strip(sections[j]), ParagraphBreak);
    var yss := ParagraphOutputLists(paragraphs, o.isArabic);
    ConcatFrom(yss, d);
    i :| 0 <= i < |yss| && d in yss[i];
    name := ParagraphOutputKept(paragraphs[i], o.isArabic, d);
  }

  /** Every matching paragraph of a non-blank section whose dialogue passes both filters
      has its dialogue in the list. */
  lemma KeptDialogueExtracted(text: String, o: Oracles, j: nat, i: nat, name: String, d: String)
    requires var sections := Sections(text, o);
      && j < |sections| && Strip(sections[j]) != []
      && var paragraphs := Split(Strip(sections[j]), ParagraphBreak);
      && i < |paragraphs| && IsMatch(Strip(paragraphs[i]), LooseLabelStops, Turn(name, d))
    requires o.isArabic(d) && HasMultiplePunctuationMarks(d, SentenceMarks)
    ensures d in ExtractSpeakerParagraphsWithPunctuation(text, o)
  {
    var sections := Sections(text, o);
    var paragraphs := Split(Strip(sections[j]), ParagraphBreak);
    KeptParagraphOutputs(paragraphs[i], o.isArabic, name, d);
    var yss := ParagraphOutputLists(paragraphs, o.isArabic);
    ConcatHas(yss, i, d);
    var xss := SectionOutputLists(sections, o.isArabic);
    ConcatHas(xss, j, d);
  }
}
