/**
 The two prototype extractors the repository keeps as scripts: one lists the dialogue of
 every `label: dialogue` paragraph of a transcript, the other keeps only dialogues with two
 marks more than one position apart. Both cut the stripped text at blank lines, use the
 loose label class `[^:]`, and return the kept dialogues joined by blank lines.
 */
module Prototypes {
  import opened Wrappers
  import opened Strings
  import opened SpeakerPattern
  import opened Punctuation
  import opened Layout

  /** The dialogue of one paragraph, if it has the speaker form. */
  function MatchedDialogue(raw: String): Option<String> {
    var p := Strip(raw);
    if p == [] then None
    else match MatchSpeaker(p, LooseLabelStops)
      case None => None
      case Some(m) =>
        var dialogue := Strip(m.dialogue);
        if dialogue == [] then None else Some(dialogue)
  }

  /** The same, kept only when two of the marks `[.!?،؛:؟]` are more than one position
      apart. */
  function GapFilteredDialogue(raw: String): Option<String> {
    match MatchedDialogue(raw)
    case None => None
    case Some(dialogue) =>
      if HasNonAdjacentMarks(dialogue, SentenceMarksWithColon) then Some(dialogue) else None
  }

  function AsList(x: Option<String>): seq<String> {
    match x
    case None => []
    case Some(v) => [v]
  }

  /** The loop of `extract_speaker_dialogue` over the paragraphs. */
  function Dialogues(paragraphs: seq<String>): seq<String>
    decreases |paragraphs|
  {
    if paragraphs == [] then [] else AsList(MatchedDialogue(paragraphs[0])) + Dialogues(paragraphs[1..])
  }

  /** The loop of `extract_speaker_dialogue_with_punctuation` over the paragraphs. */
  function FilteredDialogues(paragraphs: seq<String>): seq<String>
    decreases |paragraphs|
  {
    if paragraphs == [] then [] else AsList(GapFilteredDialogue(paragraphs[0])) + FilteredDialogues(paragraphs[1..])
  }

  /** The paragraphs of a transcript: the stripped text cut at blank lines. */
  function TranscriptParagraphs(text: String): seq<String> {
    Split(Strip(text), ParagraphBreak)
  }

  /** `extract_speaker_dialogue(text)`. */
  function ExtractSpeakerDialogue(text: String): String {
    Join(Dialogues(TranscriptParagraphs(text)), ParagraphBreak)
  }

  /** `extract_speaker_dialogue_with_punctuation(text)`. */
  function ExtractSpeakerDialogueWithPunctuation(text: String): String {
    Join(FilteredDialogues(TranscriptParagraphs(text)), ParagraphBreak)
  }

  /** The reference filter: the dialogues of `ds` with two marks more than one position
      apart, in order. */
  function Marked(ds: seq<String>): seq<String>
    decreases |ds|
  {
    if ds == [] then []
    else (if HasNonAdjacentMarks(ds[0], SentenceMarksWithColon) then [ds[0]] else []) + Marked(ds[1..])
  }

  /** A dialogue as listed: non-blank, stripped and on one line. */
  predicate Plain(d: String) {
    d != [] && IsStripped(d) && '\n' !in d
  }

  /** The dialogue of a paragraph is the match's dialogue, already stripped. */
  lemma MatchedDialogueIsPlain(raw: String)
    requires MatchedDialogue(raw).Some?
    ensures Plain(MatchedDialogue(raw).value)
    ensures exists name :: IsMatch(Strip(raw), LooseLabelStops, Turn(name, MatchedDialogue(raw).value))
  {
    var p := Strip(raw);
    var m := MatchSpeaker(p, LooseLabelStops).value;
    MatchedDialogueIsStripped(p, LooseLabelStops);
    assert IsMatch(p, LooseLabelStops, Turn(m.speaker, m.dialogue));
  }

  /** Every dialogue of a list is plain. */
  predicate AllPlain(ds: seq<String>) {
    forall k :: 0 <= k < |ds| ==> Plain(ds[k])
  }

  lemma AllPlainAppend(a: seq<String>, b: seq<String>)
    requires AllPlain(a) && AllPlain(b)
    ensures AllPlain(a + b)
  {
    forall k | 0 <= k < |a + b| ensures Plain((a + b)[k]) {
      if k < |a| {
        assert (a + b)[k] == a[k];
      } else {
        assert (a + b)[k] == b[k - |a|];
      }
    }
  }

  /** Every dialogue listed is plain. */
  lemma {:induction false} DialoguesArePlain(paragraphs: seq<String>)
    ensures AllPlain(Dialogues(paragraphs))
    decreases |paragraphs|
  {
    if paragraphs != [] {
      DialoguesArePlain(paragraphs[1..]);
      var head := AsList(MatchedDialogue(paragraphs[0]));
      if MatchedDialogue(paragraphs[0]).Some? {
        MatchedDialogueIsPlain(paragraphs[0]);
      }
      assert AllPlain(head);
      AllPlainAppend(head, Dialogues(paragraphs[1..]));
    }
  }

  /** The filtering prototype lists exactly the dialogues of the plain prototype that pass
      the gap test, in the same order. */
  lemma {:induction false} FilteredIsMarked(paragraphs: seq<String>)
    ensures FilteredDialogues(paragraphs) == Marked(Dialogues(paragraphs))
    decreases |paragraphs|
  {
    if paragraphs != [] {
      FilteredIsMarked(paragraphs[1..]);
      MarkedAppend(AsList(MatchedDialogue(paragraphs[0])), Dialogues(paragraphs[1..]));
      MarkedHead(paragraphs[0]);
    }
  }

  /** On one paragraph, filtering the listed dialogue is the gap-filtered dialogue. */
  lemma MarkedHead(raw: String)
    ensures Marked(AsList(MatchedDialogue(raw))) == AsList(GapFilteredDialogue(raw))
  {
    match MatchedDialogue(raw)
    case None =>
    case Some(d) => MarkedSingle(d);
  }

  lemma MarkedSingle(d: String)
    ensures Marked([d]) == if HasNonAdjacentMarks(d, SentenceMarksWithColon) then [d] else []
  {
    assert [d][1..] == [];
  }

  lemma {:induction false} MarkedAppend(a: seq<String>, b: seq<String>)
    ensures Marked(a + b) == Marked(a) + Marked(b)
    decreases |a|
  {
    if a == [] {
      assert a + b == b;
    } else {
      var head := if HasNonAdjacentMarks(a[0], SentenceMarksWithColon) then [a[0]] else [];
      assert (a + b)[0] == a[0] && (a + b)[1..] == a[1..] + b;
      MarkedAppend(a[1..], b);
      calc {
        Marked(a + b);
        head + Marked(a[1..] + b);
        head + (Marked(a[1..]) + Marked(b));
        (head + Marked(a[1..])) + Marked(b);
        Marked(a) + Marked(b);
      }
    }
  }

  /** The gap test of the prototype agrees with the run-grouping test of the production
      filter on the prototype's mark set. */
  lemma GapTestIsGrouping(d: String)
    ensures HasNonAdjacentMarks(d, SentenceMarksWithColon) == HasMultiplePunctuationMarks(d, SentenceMarksWithColon)
  {
    GroupingMatchesGapScan(d, SentenceMarksWithColon);
  }

  /** The result of the plain prototype is empty exactly when no paragraph has the speaker
      form. */
  lemma EmptyExactlyWhenNoDialogue(text: String)
    ensures ExtractSpeakerDialogue(text) == [] <==> Dialogues(TranscriptParagraphs(text)) == []
  {
    var ds := Dialogues(TranscriptParagraphs(text));
    if ds != [] {
      DialoguesArePlain(TranscriptParagraphs(text));
      assert Plain(ds[0]);
      JoinStartsWithFirst(ds, ParagraphBreak);
    }
  }

  lemma JoinStartsWithFirst(parts: seq<String>, sep: String)
    requires |parts| >= 1 && parts[0] != []
    ensures Join(parts, sep) != []
  {
  }

  /** Cutting the plain prototype's result at blank lines gives the listed dialogues
      back, one per piece, whenever there is at least one. */
  lemma DialogueTextRoundTrip(text: String)
    requires Dialogues(TranscriptParagraphs(text)) != []
    ensures Split(ExtractSpeakerDialogue(text), ParagraphBreak) == Dialogues(TranscriptParagraphs(text))
  {
    var ds := Dialogues(TranscriptParagraphs(text));
    DialoguesArePlain(TranscriptParagraphs(text));
    assert forall k :: 0 <= k < |ds| ==> ParagraphBreak[0] !in ds[k] by {
      forall k | 0 <= k < |ds| ensures ParagraphBreak[0] !in ds[k] {
        assert Plain(ds[k]);
      }
    }
    SplitJoin(ds, ParagraphBreak);
  }

  /** The gap filter keeps only dialogues of its input, so it keeps them plain. */
  lemma {:induction false} MarkedArePlain(ds: seq<String>)
    requires AllPlain(ds)
    ensures AllPlain(Marked(ds))
    decreases |ds|
  {
    if ds != [] {
      assert AllPlain(ds[1..]) by {
        forall k | 0 <= k < |ds[1..]| ensures Plain(ds[1..][k]) {
          assert ds[1..][k] == ds[k + 1];
        }
      }
      MarkedArePlain(ds[1..]);
      var head := if HasNonAdjacentMarks(ds[0], SentenceMarksWithColon) then [ds[0]] else [];
      assert AllPlain(head);
      AllPlainAppend(head, Marked(ds[1..]));
    }
  }

  /** Every dialogue the filtering prototype lists is plain. */
  lemma FilteredArePlain(text: String)
    ensures AllPlain(FilteredDialogues(TranscriptParagraphs(text)))
  {
    var ps := TranscriptParagraphs(text);
    FilteredIsMarked(ps);
    DialoguesArePlain(ps);
    MarkedArePlain(Dialogues(ps));
  }

  /** The filtering prototype's result is empty exactly when no dialogue of the plain
      prototype passes the gap test. */
  lemma FilteredEmptyExactlyWhenNoneMarked(text: String)
    ensures ExtractSpeakerDialogueWithPunctuation(text) == [] <==> Marked(Dialogues(TranscriptParagraphs(text))) == []
  {
    var ps := TranscriptParagraphs(text);
    var fs := FilteredDialogues(ps);
    FilteredIsMarked(ps);
    if fs != [] {
      FilteredArePlain(text);
      assert Plain(fs[0]);
      JoinStartsWithFirst(fs, ParagraphBreak);
    }
  }

  /** Cutting the filtering prototype's result at blank lines gives back the plain
      prototype's dialogues that pass the gap test, one per piece, whenever there is at
      least one. */
  lemma FilteredTextRoundTrip(text: String)
    requires Marked(Dialogues(TranscriptParagraphs(text))) != []
    ensures Split(ExtractSpeakerDialogueWithPunctuation(text), ParagraphBreak) == Marked(Dialogues(TranscriptParagraphs(text)))
  {
    var ps := TranscriptParagraphs(text);
    var fs := FilteredDialogues(ps);
    FilteredIsMarked(ps);
    FilteredArePlain(text);
    assert forall k :: 0 <= k < |fs| ==> ParagraphBreak[0] !in fs[k] by {
      forall k | 0 <= k < |fs| ensures ParagraphBreak[0] !in fs[k] {
        assert Plain(fs[k]);
      }
    }
    SplitJoin(fs, ParagraphBreak);
  }

  /** A paragraph with no colon yields no dialogue. */
  lemma NoColonNoDialogue(raw: String)
    requires ':' !in Strip(raw)
    ensures MatchedDialogue(raw) == None
  {
  }

  /** A paragraph that ends at its colon, such as `اماني:`, yields no dialogue. */
  lemma ColonAtEndNoDialogue(name: String)
    requires name != [] && !IsSpace(name[0]) && ':' !in name
    ensures MatchedDialogue(name + ":") == None
  {
    var p := name + ":";
    assert IsStripped(p);
    assert FirstStop(p, LooseLabelStops) == |name| by {
      assert p[|name|] == ':';
      forall n | 0 <= n < |name| ensures p[n] !in LooseLabelStops {
        assert p[n] == name[n];
      }
    }
  }

  /** The transcript line `اماني : الو`: the space before the colon stays in the label,
      and the dialogue is `الو`. */
  lemma AmaniDialogue()
    ensures MatchedDialogue("اماني : الو") == Some("الو")
  {
    AmaniExample();
    AmaniStripped();
    HelloStripped();
  }

  lemma AmaniStripped()
    ensures Strip("اماني : الو") == "اماني : الو"
  {
    var s := "اماني : الو";
    assert |s| == 11 && s[0] == 'ا' && s[10] == 'و';
    assert IsStripped(s);
  }

  lemma HelloStripped()
    ensures Strip("الو") == "الو"
  {
  }
}
