/**
 The JSONL builder: a source text is decoded, cut into sections at `##########`, and
 each of the first ten sections is cut into paragraphs at blank lines. Every paragraph
 of the form `label: dialogue` whose label has at most four space-separated parts and
 whose dialogue is Arabic becomes a record; a section with more than ten records is
 written to a file named by the short digest of `"{file_id}_{section_idx}"`.
 */
module JsonlExtractor {
  import opened Wrappers
  import opened Strings
  import opened SpeakerPattern
  import opened SectionId
  import opened External
  import opened Collect
  import opened Layout

  /** Only this many sections of a text are looked at. */
  const SectionCap: nat := 10

  /** A section is written only when it yields more than this many records. */
  const MinRecords: nat := 10

  /** A label may have at most this many parts when split at single spaces. */
  const MaxLabelParts: nat := 4

  /** One line of an output file: `{"line_id", "file_id", "speaker", "text"}`. */
  datatype Record = Record(lineId: nat, fileId: String, speaker: String, text: String)

  /** One file write: the file's name (the digest, without directory or extension) and
      the records written to it, one per line. */
  datatype SectionFile = SectionFile(name: String, records: seq<Record>)

  /** A speaker as recorded: non-blank, stripped, free of the label stop characters, with
      at most three single spaces. */
  predicate ValidSpeaker(s: String) {
    LabelShaped(s) && CountChar(s, ' ') < MaxLabelParts
  }

  /** Non-blank, stripped and free of the label stop characters: what a label must be
      to be read back from `label: dialogue` whole. */
  predicate LabelShaped(s: String) {
    && s != [] && IsStripped(s)
    && (forall c :: c in s ==> c !in StrictLabelStops)
  }

  /** A dialogue as recorded: non-blank, stripped and on one line. */
  predicate ValidDialogue(s: String) {
    s != [] && IsStripped(s) && '\n' !in s
  }

  /** The stripped paragraph matches the speaker pattern as `m`, the stripped label has
      at most three spaces, and the dialogue is Arabic. */
  predicate Accepts(raw: String, isArabic: String -> bool, m: Turn) {
    && IsMatch(Strip(raw), StrictLabelStops, m)
    && CountChar(Strip(m.speaker), ' ') < MaxLabelParts
    && isArabic(m.dialogue)
  }

  /** The speaker and dialogue one paragraph contributes, if it passes every guard. */
  function ParagraphTurn(raw: String, isArabic: String -> bool): (t: Option<Turn>)
    ensures t.Some? ==> ValidTurn(t.value, isArabic)
  {
    var p := Strip(raw);
    if p == [] then None
    else match MatchSpeaker(p, StrictLabelStops)
      case None => None
      case Some(m) =>
        var speaker := Strip(m.speaker);
        SplitCharCount(speaker, ' ');
        if |Split(speaker, " ")| > MaxLabelParts then None
        else
          MatchShape(p);
          var dialogue := Strip(m.dialogue);
          if dialogue == [] then None
          else if !isArabic(dialogue) then None
          else Some(Turn(speaker, dialogue))
  }

  /** A strict match has a label that strips to something label-shaped and a dialogue
      already in recorded form. */
  lemma MatchShape(p: String)
    requires IsStripped(p) && MatchSpeaker(p, StrictLabelStops).Some?
    ensures var m := MatchSpeaker(p, StrictLabelStops).value;
      LabelShaped(Strip(m.speaker)) && ValidDialogue(m.dialogue)
  {
    MatchedDialogueIsStripped(p, StrictLabelStops);
    MatchedLabelNotBlank(p, StrictLabelStops);
    LabelFreeOfStops(p, StrictLabelStops);
  }

  /** An accepted paragraph yields the stripped label and the matched dialogue. */
  lemma AcceptedParagraphYields(raw: String, isArabic: String -> bool, m: Turn)
    requires Accepts(raw, isArabic, m)
    ensures ParagraphTurn(raw, isArabic) == Some(Turn(Strip(m.speaker), m.dialogue))
  {
    var p := Strip(raw);
    MatchIsUnique(p, StrictLabelStops, m);
    MatchedDialogueIsStripped(p, StrictLabelStops);
    SplitCharCount(Strip(m.speaker), ' ');
  }

  /** A paragraph that yields a turn is accepted, with the turn built from its match. */
  lemma YieldingParagraphAccepted(raw: String, isArabic: String -> bool)
    requires ParagraphTurn(raw, isArabic).Some?
    ensures exists m ::
      Accepts(raw, isArabic, m) && ParagraphTurn(raw, isArabic).value == Turn(Strip(m.speaker), m.dialogue)
  {
    var p := Strip(raw);
    var m := MatchSpeaker(p, StrictLabelStops).value;
    SplitCharCount(Strip(m.speaker), ' ');
    MatchedDialogueIsStripped(p, StrictLabelStops);
    assert Accepts(raw, isArabic, m);
  }

  /** A record's speaker and text, written back as `speaker: text`, form a paragraph
      that yields that same speaker and text. */
  lemma RecordLineRoundTrip(speaker: String, text: String, isArabic: String -> bool)
    requires ValidSpeaker(speaker) && ValidDialogue(text) && isArabic(text)
    ensures ParagraphTurn(speaker + ": " + text, isArabic) == Some(Turn(speaker, text))
  {
    FormatThenMatch(speaker, text, StrictLabelStops);
    AcceptedParagraphYields(speaker + ": " + text, isArabic, Turn(speaker, text));
  }

  /** Stripping `name: dialogue` keeps `name:` at its front. */
  lemma StrippedLabelFront(name: String, dialogue: String)
    requires name != [] && !IsSpace(name[0])
    ensures var p := Strip(name + ": " + dialogue);
      |name| < |p| && p[..|name|] == name && p[|name|] == ':'
  {
    var raw := name + ": " + dialogue;
    assert raw[0] == name[0] && raw[|name|] == ':';
    StripKeepsFront(raw, |name|);
    var p := Strip(raw);
    assert p[..|name|] == p[..|name| + 1][..|name|];
    assert raw[..|name| + 1][..|name|] == name;
    assert p[|name|] == p[..|name| + 1][|name|];
  }

  /** Whatever follows `name: `, a turn read from the paragraph has `name` as its
      speaker: the colon after `name` is the first stop character. */
  lemma FormattedSpeaker(name: String, dialogue: String, isArabic: String -> bool)
    requires LabelShaped(name)
    ensures var t := ParagraphTurn(name + ": " + dialogue, isArabic); t.Some? ==> t.value.speaker == name
  {
    var p := Strip(name + ": " + dialogue);
    StrippedLabelFront(name, dialogue);
    if MatchSpeaker(p, StrictLabelStops).Some? {
      MatchedLabelIsPrefix(p, StrictLabelStops, name);
    }
  }

  /** The converse guard: a label with more than four parts is refused, whatever
      follows it. */
  lemma LongLabelRejected(name: String, dialogue: String, isArabic: String -> bool)
    requires LabelShaped(name) && CountChar(name, ' ') >= MaxLabelParts
    ensures ParagraphTurn(name + ": " + dialogue, isArabic) == None
  {
    FormattedSpeaker(name, dialogue, isArabic);
  }

  /** A turn as recorded: valid speaker, valid dialogue, Arabic dialogue. */
  predicate ValidTurn(t: Turn, isArabic: String -> bool) {
    ValidSpeaker(t.speaker) && ValidDialogue(t.dialogue) && isArabic(t.dialogue)
  }

  /** What each paragraph of a section yields, one entry per paragraph. */
  function ParagraphTurns(paragraphs: seq<String>, isArabic: String -> bool): seq<Option<Turn>>
  {
    seq(|paragraphs|, i requires 0 <= i < |paragraphs| => ParagraphTurn(paragraphs[i], isArabic))
  }

  /** The turns of the accepted paragraphs of a section, in paragraph order. */
  function Turns(paragraphs: seq<String>, isArabic: String -> bool): seq<Turn> {
    Somes(ParagraphTurns(paragraphs, isArabic))
  }

  /** Every turn found is valid. */
  lemma TurnsValid(paragraphs: seq<String>, isArabic: String -> bool)
    ensures forall k :: 0 <= k < |Turns(paragraphs, isArabic)| ==> ValidTurn(Turns(paragraphs, isArabic)[k], isArabic)
  {
    var xs := ParagraphTurns(paragraphs, isArabic);
    var ts := Somes(xs);
    forall k | 0 <= k < |ts| ensures ValidTurn(ts[k], isArabic) {
      SomesFrom(xs, ts[k]);
    }
  }

  /** Turns are found paragraph by paragraph: those of `a + b` are those of `a` followed
      by those of `b`. */
  lemma TurnsAppend(a: seq<String>, b: seq<String>, isArabic: String -> bool)
    ensures Turns(a + b, isArabic) == Turns(a, isArabic) + Turns(b, isArabic)
  {
    var xa, xb := ParagraphTurns(a, isArabic), ParagraphTurns(b, isArabic);
    var xs := ParagraphTurns(a + b, isArabic);
    assert |xs| == |xa + xb|;
    forall i | 0 <= i < |xs| ensures xs[i] == (xa + xb)[i] {
      if i < |a| {
        assert (a + b)[i] == a[i];
        assert xs[i] == ParagraphTurn(a[i], isArabic) == xa[i];
      } else {
        assert (a + b)[i] == b[i - |a|];
        assert xs[i] == ParagraphTurn(b[i - |a|], isArabic) == xb[i - |a|];
      }
    }
    assert xs == xa + xb;
    SomesAppend(ParagraphTurns(a, isArabic), ParagraphTurns(b, isArabic));
  }

  /** The paragraph loop of one section as written, over what each paragraph's guards
      give: `lineId` is the running counter, which starts at 0 and advances only after
      a record has been appended; a refused paragraph leaves it as it is. */
  function NumberFrom(outcomes: seq<Option<Turn>>, fileId: String, lineId: nat): seq<Record>
    decreases |outcomes|
  {
    if outcomes == [] then []
    else match outcomes[0]
      case None => NumberFrom(outcomes[1..], fileId, lineId)
      case Some(t) => [Record(lineId, fileId, t.speaker, t.dialogue)] + NumberFrom(outcomes[1..], fileId, lineId + 1)
  }

  /** The counter numbers the accepted turns consecutively from its start value, in
      order: one record per turn, and no other records. */
  lemma {:induction false} NumberFromSomes(outcomes: seq<Option<Turn>>, fileId: String, lineId: nat)
    ensures |NumberFrom(outcomes, fileId, lineId)| == |Somes(outcomes)|
    ensures forall k :: 0 <= k < |NumberFrom(outcomes, fileId, lineId)| ==>
      var t := Somes(outcomes)[k];
      NumberFrom(outcomes, fileId, lineId)[k] == Record(lineId + k, fileId, t.speaker, t.dialogue)
    decreases |outcomes|
  {
    if outcomes != [] {
      var rest := outcomes[1..];
      var rs, ts := NumberFrom(outcomes, fileId, lineId), Somes(outcomes);
      match outcomes[0]
      case None =>
        NumberFromSomes(rest, fileId, lineId);
        assert rs == NumberFrom(rest, fileId, lineId) && ts == Somes(rest);
      case Some(t) =>
        NumberFromSomes(rest, fileId, lineId + 1);
        var tail, tt := NumberFrom(rest, fileId, lineId + 1), Somes(rest);
        assert rs == [Record(lineId, fileId, t.speaker, t.dialogue)] + tail;
        assert ts == [t] + tt;
        forall k | 0 < k < |rs| ensures rs[k] == Record(lineId + k, fileId, ts[k].speaker, ts[k].dialogue) {
          assert rs[k] == tail[k - 1] && ts[k] == tt[k - 1];
        }
    }
  }

  /** The name of the file written for section `index` of `fileId`. */
  function SectionFileName(fileId: String, index: nat, o: Oracles): String {
    o.shortHash(SectionKey(fileId, index))
  }

  /** The records of one section, numbered from 0 and tagged with the file's name. */
  function SectionOutput(section: String, name: String, isArabic: String -> bool): seq<Record> {
    NumberFrom(ParagraphTurns(Split(Strip(section), ParagraphBreak), isArabic), name, 0)
  }

  /** The records of a file carry their own position as line id, the file's name as
      file id, and a valid speaker with Arabic dialogue. */
  predicate WellFormed(f: SectionFile, isArabic: String -> bool) {
    forall k :: 0 <= k < |f.records| ==>
      && f.records[k].lineId == k && f.records[k].fileId == f.name
      && ValidTurn(Turn(f.records[k].speaker, f.records[k].text), isArabic)
  }

  lemma SectionOutputWellFormed(section: String, name: String, isArabic: String -> bool)
    ensures WellFormed(SectionFile(name, SectionOutput(section, name, isArabic)), isArabic)
  {
    var paragraphs := Split(Strip(section), ParagraphBreak);
    TurnsValid(paragraphs, isArabic);
    NumberFromSomes(ParagraphTurns(paragraphs, isArabic), name, 0);
    var ts := Turns(paragraphs, isArabic);
    var rs := SectionOutput(section, name, isArabic);
    forall k | 0 <= k < |rs| ensures ValidTurn(Turn(rs[k].speaker, rs[k].text), isArabic) {
      assert Turn(rs[k].speaker, rs[k].text) == ts[k];
    }
  }

  /** Section `index` qualifies: it is not blank and yields more than ten records. */
  predicate Qualifies(section: String, index: nat, fileId: String, o: Oracles) {
    !AllSpace(section) && |SectionOutput(section, SectionFileName(fileId, index, o), o.isArabic)| > MinRecords
  }

  /** The write made for section `index`, if any. */
  function SectionWrite(section: String, index: nat, fileId: String, o: Oracles): (w: Option<SectionFile>)
    ensures w.Some? <==> Qualifies(section, index, fileId, o)
    ensures w.Some? ==> w.value.name == SectionFileName(fileId, index, o)
    ensures w.Some? ==> w.value.records == SectionOutput(section, w.value.name, o.isArabic)
    ensures w.Some? ==> |w.value.records| > MinRecords && WellFormed(w.value, o.isArabic)
  {
    var name := SectionFileName(fileId, index, o);
    if Strip(section) == [] then None
    else
      var records := SectionOutput(section, name, o.isArabic);
      if |records| > MinRecords then
        SectionOutputWellFormed(section, name, o.isArabic);
        Some(SectionFile(name, records))
      else None
  }

  /** A blank section is never written, whatever its index. */
  lemma BlankSectionWritesNothing(section: String, index: nat, fileId: String, o: Oracles)
    requires AllSpace(section)
    ensures SectionWrite(section, index, fileId, o) == None
  {
  }

  /** A qualifying section is written under the name of its own index. */
  lemma QualifyingSectionWrite(section: String, index: nat, fileId: String, o: Oracles) returns (w: SectionFile)
    requires Qualifies(section, index, fileId, o)
    ensures SectionWrite(section, index, fileId, o) == Some(w) && w.name == SectionFileName(fileId, index, o)
  {
    w := SectionWrite(section, index, fileId, o).value;
  }

  /** The write each section calls for, one entry per section, by raw section index. */
  function SectionWrites(sections: seq<String>, fileId: String, o: Oracles): seq<Option<SectionFile>>
  {
    seq(|sections|, j requires 0 <= j < |sections| => SectionWrite(sections[j], j, fileId, o))
  }

  /** `sections[:10]`. */
  function FirstSections(sections: seq<String>): (capped: seq<String>)
    ensures capped <= sections
    ensures |capped| == if |sections| > SectionCap then SectionCap else |sections|
  {
    if |sections| > SectionCap then sections[..SectionCap] else sections
  }

  /** Every file write the extractor makes for one source text, in order. */
  function ExtractSpeakerParagraphs(text: String, fileId: String, o: Oracles): (writes: seq<SectionFile>)
    ensures |writes| <= SectionCap
    ensures forall w :: w in writes ==> |w.records| > MinRecords && WellFormed(w, o.isArabic)
    ensures forall w :: w in writes ==>
      exists j :: 0 <= j < SectionCap && w.name == SectionFileName(fileId, j, o)
    ensures forall w :: w in writes ==>
      exists j :: 0 <= j < |FirstSections(Sections(text, o))|
        && SectionWrite(FirstSections(Sections(text, o))[j], j, fileId, o) == Some(w)
  {
    var sections := FirstSections(Sections(text, o));
    var xs := SectionWrites(sections, fileId, o);
    assert forall w :: w in Somes(xs) ==>
      && |w.records| > MinRecords && WellFormed(w, o.isArabic)
      && (exists j :: 0 <= j < SectionCap && w.name == SectionFileName(fileId, j, o))
      && exists j :: 0 <= j < |sections| && SectionWrite(sections[j], j, fileId, o) == Some(w)
    by {
      forall w | w in Somes(xs)
        ensures |w.records| > MinRecords && WellFormed(w, o.isArabic)
        ensures exists j :: 0 <= j < SectionCap && w.name == SectionFileName(fileId, j, o)
        ensures exists j :: 0 <= j < |sections| && SectionWrite(sections[j], j, fileId, o) == Some(w)
      {
        SomesFrom(xs, w);
      }
    }
    Somes(xs)
  }

  /** A section among the first ten that qualifies is written, under the name derived
      from its raw index. */
  lemma QualifyingSectionWritten(text: String, fileId: String, o: Oracles, j: nat)
    requires j < |FirstSections(Sections(text, o))|
    requires Qualifies(FirstSections(Sections(text, o))[j], j, fileId, o)
    ensures var section := FirstSections(Sections(text, o))[j];
      var name := SectionFileName(fileId, j, o);
      SectionFile(name, SectionOutput(section, name, o.isArabic)) in ExtractSpeakerParagraphs(text, fileId, o)
  {
    var sections := FirstSections(Sections(text, o));
    SomesHas(SectionWrites(sections, fileId, o), j);
  }
}
