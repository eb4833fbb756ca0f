# Speaker-dialogue extraction from Arabic novel transcripts

This project is a Dafny model of the text-processing core of the `ara_dialectical_fragments`
scripts. The scripts read novel text in which each paragraph of dialogue has the form
`label: dialogue`. They keep the Arabic dialogues that pass their filters.

The model covers five pieces.

- **Normalisation** (`Normalizer`). HTML entities are decoded, then `process_backslashes`
  replaces six literal escape sequences in a fixed order, one whole `str.replace` pass
  each.
- **Punctuation grouping** (`Punctuation`). `has_multiple_punctuation_marks` collects the
  positions of the sentence marks, groups adjacent positions into runs, and passes a text
  with at least two runs. The model covers both mark sets, the main one and the variant
  with `:`. It also covers the pairwise-gap scan of the dialogue-filter prototype, and
  proves that the two tests agree.
- **Speaker pattern** (`SpeakerPattern`). The two regular expressions `^(label):\s*(.+)$`
  are modelled as scanners. One uses the strict label class, which excludes `:` and the
  sentence and clause marks. The other uses the loose class `[^:]`.
- **The JSONL builder** (`JsonlExtractor`). The normalised text is cut into sections at
  `##########`, and only the first ten sections are visited. Each paragraph of a section
  yields a numbered `{line_id, file_id, speaker, text}` record when its label has at most
  four space-separated parts and its dialogue is Arabic. A section is written to a file
  named by the short hash of `<file_id>_<index>`, but only when it has more than ten
  records.
- **The flat-list extractor** (`FlatExtractor`) and **the two prototypes**
  (`Prototypes`). The flat-list extractor visits every section and uses the loose label
  class. It keeps a dialogue that is Arabic and passes the punctuation test. The
  prototypes work on one transcript and return the kept dialogues joined by blank lines.

Three library calls are opaque: `html.unescape`, the 4-byte BLAKE2s `short_hash`, and the
lingua Arabic detector. They are fields of `External.Oracles`, passed in as functions. So
every property holds whatever those calls compute.

Notes on the code as written:

- The JSONL builder applies no punctuation filter, although its name and docstring
  (build_jsonl_data.py:70-71) speak of paragraphs "with multiple punctuation marks".
- The JSONL label class (build_jsonl_data.py:104) refuses `:`, `.`, `,`, `!`, `?`, `;`,
  `،`, `؛` and `؟`. A label such as `Dr. Ahmad` therefore does not match.
- The label limit (build_jsonl_data.py:112) counts the pieces of `split(" ")`, so a label
  of up to four parts, that is at most three single spaces, is accepted
  (`JsonlExamples.TwoWordLabelAccepted`, `JsonlExtractor.LongLabelRejected`).
- In the flat-list extractor (rewayat_hf_preprocessing.py:97-112), the inner loop over
  `dialogue.split('\n\n')` reuses the name `paragraph` and appends `dialogue`, not the
  piece. This is harmless: a matched dialogue never holds a line feed, so there is
  exactly one piece and at most one output per paragraph
  (`FlatExtractor.DialogueOutputsOnce`).
- In the punctuation test script (test_punctuation_function.py:45), the case
  `"Hello world!! How are you!!"` carries the comment "should count as 1". The function
  finds two runs, so the text passes, which is what the code computes
  (`PunctuationVectors.TwoDoubledLatin`).

## Model

| member | source | states |
|---|---|---|
| `Strings.Strip` | build_jsonl_data.py:98 | The result has no whitespace at either end. It is empty exactly when the input is all whitespace. A stripped input comes back unchanged, and the result only holds characters of the input. |
| `Strings.StripIsInfix` | build_jsonl_data.py:98 | `strip()` removes only leading and trailing whitespace: the result is a contiguous slice `s[a:b]` of the input, with only whitespace before `a` and after `b`. |
| `Strings.StripKeepsFront` | build_jsonl_data.py:98 | When the first character is not whitespace, stripping keeps every character up to any later non-whitespace position. |
| `Strings.IndexOf` | build_jsonl_data.py:93 | The result is the leftmost occurrence of the pattern; `None` means there is no occurrence at all. |
| `Strings.Split` | build_jsonl_data.py:93 | `str.split(sep)` gives at least one piece. |
| `Strings.SplitPiecesFree` | build_jsonl_data.py:93 | No piece of a split contains the separator. |
| `Strings.SplitCutsLeftmost` | build_jsonl_data.py:93 | There is one piece exactly when the separator does not occur. Otherwise the first cut is at the leftmost occurrence and the other pieces are the split of what follows it, so `"a\n\n\nb".split("\n\n")` is `["a", "\nb"]`. |
| `Strings.JoinSplit` | build_jsonl_data.py:93 | Joining the pieces of a split with the same separator gives the original string back. |
| `Strings.SplitJoin` | test_speaker_extraction.py:45 | Splitting a `sep.join(parts)` gives the parts back when no part holds the separator's first character. |
| `Strings.Replace` | build_jsonl_data.py:28-33 | A replacement no longer than the target never lengthens the string. |
| `Strings.ReplaceWithoutTarget` | build_jsonl_data.py:28-33 | A string in which the target does not occur is unchanged. |
| `Strings.ReplaceIsJoinOfSplit` | build_jsonl_data.py:28-33 | `s.replace(old, new)` equals `new.join(s.split(old))` for every string. |
| `Strings.SplitCharCount` | build_jsonl_data.py:112 | `len(s.split(" "))` is one more than the number of spaces in `s`. |
| `Normalizer.ProcessBackslashes` | build_jsonl_data.py:26-34 | The six replacement passes never lengthen the text. Text containing none of the six escape sequences is returned unchanged. |
| `Normalizer.NoBackslashUnchanged` | build_jsonl_data.py:26-34 | Text with no backslash passes through `process_backslashes` unchanged. |
| `Normalizer.EscapeOrder` | build_jsonl_data.py:28-33 | Because `\n` is replaced before `\\`, the characters backslash, backslash, `n` become a backslash and a line feed. |
| `Normalizer.TwoBackslashesBecomeOne` | build_jsonl_data.py:33 | A doubled backslash becomes a single one. |
| `Normalizer.FourBackslashesBecomeTwo` | build_jsonl_data.py:33 | Four backslashes become two, so the normalisation is not idempotent. |
| `Normalizer.Normalize` | build_jsonl_data.py:73-74 | The result is no longer than the decoded text. When the decoded text has no backslash, the result is the decoded text. |
| `SectionId.SectionKey` | build_jsonl_data.py:86 | The key `f"{file_id}_{section_idx}"` starts with the file id, followed by `_`. |
| `SectionId.DecimalRoundTrip` | build_jsonl_data.py:86 | Reading the decimal digits of a section index back gives the index. |
| `SectionId.DecimalInjective` | build_jsonl_data.py:86 | Two section indices with the same decimal text are equal. |
| `SectionId.KeySeparator` | build_jsonl_data.py:86 | No `_` follows the one that separates the file id from the index. |
| `SectionId.SectionKeyInjective` | build_jsonl_data.py:86 | Two keys are equal only when both the file id and the section index are equal. |
| `Punctuation.MarkPositions` | build_jsonl_data.py:42-45 | The list of positions is increasing. Every listed position holds a mark, and every mark of the text is listed. |
| `Punctuation.GroupFrom` | build_jsonl_data.py:52-65 | From any loop state, the grouping loop ends with groups that lay end to end to the positions. Each group is a maximal run of adjacent positions, and there are two or more groups exactly when two successive positions are not adjacent. |
| `Punctuation.ExtendStep` | build_jsonl_data.py:56-58 | An adjacent position joins the current group and keeps the loop invariant. |
| `Punctuation.CloseStep` | build_jsonl_data.py:59-62 | A non-adjacent position closes the current group, opens a new one, and keeps the loop invariant. |
| `Punctuation.FinishStep` | build_jsonl_data.py:64-65 | Appending the last group after the loop gives a grouping of all positions. |
| `Punctuation.GroupPositions` | build_jsonl_data.py:51-65 | The groups concatenate to the positions and are maximal runs. There are at least two groups exactly when some successive positions are not adjacent. |
| `Punctuation.MultipleMarksMeansSeparated` | build_jsonl_data.py:36-68 | The test passes if and only if the text has two marks with a non-mark character somewhere between them. |
| `Punctuation.BreakGivesSeparatedMarks` | build_jsonl_data.py:51-68 | Two groups imply two marks with a non-mark character between them. |
| `Punctuation.SeparatedMarksGiveBreak` | build_jsonl_data.py:51-68 | Two marks with a non-mark character between them imply two groups. |
| `Punctuation.AtMostOneMark` | build_jsonl_data.py:47-49 | A text with at most one mark never passes. |
| `Punctuation.SingleRunFails` | build_jsonl_data.py:51-68 | A text whose marks form one unbroken run never passes; for example `!!` is one group. |
| `Punctuation.WideGapFromMeans` | test_punctuation_filter.py:58-64 | The early-exit pairwise scan succeeds exactly when some successive pair of positions is more than one apart. |
| `Punctuation.GroupingMatchesGapScan` | test_punctuation_filter.py:58-64 | On every text and mark set, the run-grouping test and the pairwise-gap test give the same answer. |
| `PunctuationVectors.Passes` | build_jsonl_data.py:36-68 | A mark, a later non-mark character and a later mark are enough to pass. |
| `PunctuationVectors.NoMarkLatin` | test_punctuation_function.py:39 | `Hello world` fails. |
| `PunctuationVectors.OneMarkLatin` | test_punctuation_function.py:40 | `Hello world!` fails. |
| `PunctuationVectors.AdjacentPairLatin` | test_punctuation_function.py:41 | `Hello world!!` fails, because the adjacent pair is one group. |
| `PunctuationVectors.SeparatedLatin` | test_punctuation_function.py:42 | `Hello world! How are you?` passes. |
| `PunctuationVectors.DoubledThenSingleLatin` | test_punctuation_function.py:43 | `Hello world!! How are you?` passes. |
| `PunctuationVectors.SingleThenDoubledLatin` | test_punctuation_function.py:44 | `Hello world! How are you!!` passes. |
| `PunctuationVectors.TwoDoubledLatin` | test_punctuation_function.py:45 | `Hello world!! How are you!!` passes, as two groups. |
| `PunctuationVectors.NoMarkArabic` | test_punctuation_function.py:46 | `مرحبا بالعالم` fails. |
| `PunctuationVectors.OneMarkArabic` | test_punctuation_function.py:47 | `مرحبا بالعالم!` fails. |
| `PunctuationVectors.AdjacentPairArabic` | test_punctuation_function.py:48 | `مرحبا بالعالم!!` fails. |
| `PunctuationVectors.SeparatedArabic` | test_punctuation_function.py:49 | `مرحبا بالعالم! كيف حالك؟` passes. |
| `PunctuationVectors.DoubledThenSingleArabic` | test_punctuation_function.py:50 | `مرحبا بالعالم!! كيف حالك؟` passes. |
| `PunctuationVectors.SingleThenDoubledArabic` | test_punctuation_function.py:51 | `مرحبا بالعالم! كيف حالك!!` passes. |
| `PunctuationVectors.TwoDoubledArabic` | test_punctuation_function.py:52 | `مرحبا بالعالم!! كيف حالك!!` passes. |
| `PunctuationVectors.ColonCountsInVariant` | test_punctuation_function.py:6 | With the variant set, the colon counts as a mark, so `a: b!` passes. |
| `PunctuationVectors.ColonIgnoredInMainSet` | build_jsonl_data.py:39 | With the main set, the colon is not a mark, so `a: b!` fails. |
| `PunctuationVectors.LatinCommaIgnored` | build_jsonl_data.py:39 | The Latin comma is not a mark, so `a, b!` fails. |
| `PunctuationVectors.ArabicCommaCounts` | build_jsonl_data.py:39 | The Arabic comma is a mark, so `a، b!` passes. |
| `SpeakerPattern.MatchSpeaker` | build_jsonl_data.py:104-108 | On a stripped paragraph, a result is a decomposition the pattern admits. No result means the pattern admits no decomposition. |
| `SpeakerPattern.MatchIsForced` | build_jsonl_data.py:104 | In any decomposition the pattern admits, the colon is the first label-stop character. The rest after it, left-stripped, is non-empty and on one line. |
| `SpeakerPattern.MatchIsUnique` | build_jsonl_data.py:104-105 | Any decomposition the pattern admits is exactly the one the scanner returns. |
| `SpeakerPattern.NoMatchElsewhere` | build_jsonl_data.py:107-108 | If the first stop character is not a colon followed by a one-line dialogue, the pattern matches nowhere. |
| `SpeakerPattern.FormatThenMatch` | build_jsonl_data.py:104-105 | Writing `label: dialogue`, with a label free of stop characters and a stripped one-line dialogue, and matching it gives back the label and the dialogue. |
| `SpeakerPattern.MatchedDialogueIsStripped` | build_jsonl_data.py:115-118 | The dialogue group is non-empty, already stripped, and free of line feeds, so `dialogue.strip()` changes nothing and never leaves it empty. |
| `SpeakerPattern.MatchedLabelNotBlank` | build_jsonl_data.py:110 | The stripped label of a match is not empty. |
| `SpeakerPattern.LabelFreeOfStops` | build_jsonl_data.py:104 | The stripped label of a match holds no stop character. |
| `SpeakerPattern.MatchedLabelIsPrefix` | build_jsonl_data.py:104-110 | When a stripped paragraph starts with `name:` and `name` holds no stop character, any match has `name` as its label. |
| `SpeakerPattern.AmaniExample` | test_speaker_extraction.py:16 | In `اماني : الو` the label keeps the space before the colon, and the dialogue is `الو`. |
| `JsonlExtractor.ParagraphTurn` | build_jsonl_data.py:97-125 | A paragraph that yields a turn gives a valid speaker (stripped, non-blank, free of stop characters, at most three spaces) and a stripped, one-line, Arabic dialogue. |
| `JsonlExtractor.AcceptedParagraphYields` | build_jsonl_data.py:98-125 | A paragraph that matches, has a short label and Arabic dialogue yields the stripped label and the dialogue. |
| `JsonlExtractor.YieldingParagraphAccepted` | build_jsonl_data.py:98-125 | A paragraph yields a turn only when it matches, its stripped label has fewer than four spaces, and its dialogue is Arabic. This is the converse of `AcceptedParagraphYields`. |
| `JsonlExtractor.RecordLineRoundTrip` | build_jsonl_data.py:104-118 | Writing a valid speaker and an Arabic dialogue as `speaker: dialogue` and reading it back gives the same speaker and dialogue. |
| `JsonlExtractor.FormattedSpeaker` | build_jsonl_data.py:104-110 | Whatever text follows `name: `, a turn read from that paragraph has `name` as its speaker, for a label-shaped `name`. |
| `JsonlExtractor.LongLabelRejected` | build_jsonl_data.py:104-113 | A label-shaped label with five or more space-separated parts is rejected whatever text follows it. |
| `JsonlExtractor.TurnsValid` | build_jsonl_data.py:97-129 | Every turn collected from a section is valid. |
| `JsonlExtractor.TurnsAppend` | build_jsonl_data.py:97-129 | The paragraph loop keeps paragraph order: the turns of two concatenated paragraph lists are the turns of each, in order. |
| `JsonlExtractor.NumberFromSomes` | build_jsonl_data.py:95-129 | The `line_id` counter, which starts at its initial value and advances only after an append, numbers the accepted turns consecutively in paragraph order: one record per accepted turn, record `k` carrying id `start + k`, the file's name, and turn `k`'s speaker and text. |
| `JsonlExtractor.SectionOutputWellFormed` | build_jsonl_data.py:93-129 | The records of any section are numbered from 0 without gaps, tagged with the file's name, and hold valid turns. |
| `JsonlExtractor.SectionWrite` | build_jsonl_data.py:84-134 | A section is written exactly when it is not blank and has more than ten records. The file is named after the hash of its key, and it holds exactly this section's records, which are well formed. |
| `JsonlExtractor.BlankSectionWritesNothing` | build_jsonl_data.py:90-91 | A blank section writes no file. |
| `JsonlExtractor.QualifyingSectionWrite` | build_jsonl_data.py:131-134 | A qualifying section is written under the name derived from its index. |
| `JsonlExtractor.FirstSections` | build_jsonl_data.py:79 | The kept sections are a prefix of the list of length `min(10, len)`: exactly the first ten of a longer list, and the whole of a shorter one. |
| `JsonlExtractor.ExtractSpeakerParagraphs` | build_jsonl_data.py:70-136 | At most ten files are written. Each holds more than ten well-formed records, and each is exactly the write of one of the first ten sections, with that section's records under the name of its index. |
| `JsonlExtractor.QualifyingSectionWritten` | build_jsonl_data.py:77-134 | Every qualifying section among the first ten is written, with its records, under the name of its raw index. |
| `JsonlExamples.AhmadGreeting` | build_jsonl_data.py:104-127 | `أحمد: مرحبا كيف حالك` gives speaker `أحمد` and the greeting, when the greeting is Arabic. |
| `JsonlExamples.TwoWordLabelAccepted` | build_jsonl_data.py:112 | The two-word label `لقد قال` is accepted with any valid Arabic dialogue. |
| `JsonlExamples.FivePartLabelRejected` | build_jsonl_data.py:112-113 | `a b c d e: مرحبا` is rejected. |
| `JsonlExamples.StopInLabelRejected` | build_jsonl_data.py:104 | `Dr. Ahmad: مرحبا` does not match, because the full stop ends the strict label class. |
| `FlatExtractor.DialogueOutputsOnce` | rewayat_hf_preprocessing.py:97-112 | For a one-line dialogue, the inner loop appends the dialogue once if it is Arabic and passes the punctuation test, and otherwise appends nothing. |
| `FlatExtractor.MatchedParagraph` | rewayat_hf_preprocessing.py:79-95 | A matching paragraph contributes what the inner loop makes of its dialogue, and that dialogue is non-empty, stripped and on one line. |
| `FlatExtractor.MatchedParagraphOutputs` | rewayat_hf_preprocessing.py:79-112 | A matching paragraph contributes its dialogue exactly when the dialogue is Arabic and passes the test, and otherwise contributes nothing. |
| `FlatExtractor.UnmatchedParagraph` | rewayat_hf_preprocessing.py:86-90 | A paragraph the pattern does not match contributes nothing. |
| `FlatExtractor.ParagraphOutputsAtMostOne` | rewayat_hf_preprocessing.py:97-112 | One paragraph contributes at most one dialogue. |
| `FlatExtractor.ParagraphOutputKept` | rewayat_hf_preprocessing.py:79-112 | Whatever a paragraph contributes is the dialogue of a match of that paragraph, and it is Arabic and passes the test. |
| `FlatExtractor.KeptParagraphOutputs` | rewayat_hf_preprocessing.py:79-112 | A paragraph that matches with an Arabic dialogue passing the test contributes exactly that dialogue. |
| `FlatExtractor.FormattedParagraphOutputs` | rewayat_hf_preprocessing.py:86-112 | `name: dialogue`, for a name with no colon, contributes the dialogue exactly when it is Arabic and passes the test. |
| `FlatExtractor.ParagraphsOutputsAppend` | rewayat_hf_preprocessing.py:79-112 | The paragraph loop keeps order: the output of two concatenated paragraph lists is the output of each, in order. |
| `FlatExtractor.SectionsOutputsAppend` | rewayat_hf_preprocessing.py:73-112 | The section loop keeps order in the same way. |
| `FlatExtractor.ExtractedDialogueSource` | rewayat_hf_preprocessing.py:63-114 | Every listed dialogue comes from a matching paragraph of a non-blank section, and is Arabic and passes the test. |
| `FlatExtractor.KeptDialogueExtracted` | rewayat_hf_preprocessing.py:63-114 | Conversely, the dialogue of any matching paragraph of a non-blank section that is Arabic and passes the test is listed. |
| `FlatExamples.LooseLabelAccepted` | rewayat_hf_preprocessing.py:86 | `Dr. Ahmad: <dialogue>` is kept under the loose label class whenever the dialogue passes both filters. |
| `FlatExamples.SingleMarkDropped` | rewayat_hf_preprocessing.py:102-103 | `أحمد: مرحبا بالعالم!` contributes nothing, whatever the detector says. |
| `FlatExamples.TwoGroupsKept` | rewayat_hf_preprocessing.py:102-112 | `أحمد: مرحبا. كيف حالك؟` contributes its dialogue when the dialogue is Arabic. |
| `Prototypes.MatchedDialogueIsPlain` | test_speaker_extraction.py:23-43 | A listed dialogue is non-empty, stripped and on one line, and it is the dialogue of a match of its stripped paragraph. |
| `Prototypes.DialoguesArePlain` | test_speaker_extraction.py:23-43 | Every dialogue the plain prototype lists is non-empty, stripped and on one line. |
| `Prototypes.EmptyExactlyWhenNoDialogue` | test_speaker_extraction.py:45 | The joined result is empty exactly when no paragraph yields a dialogue. |
| `Prototypes.DialogueTextRoundTrip` | test_speaker_extraction.py:20-45 | Cutting the joined result at blank lines gives back the listed dialogues, one per piece. |
| `Prototypes.NoColonNoDialogue` | test_speaker_extraction.py:30-33 | A paragraph without a colon yields no dialogue. |
| `Prototypes.ColonAtEndNoDialogue` | test_speaker_extraction.py:30-33 | A paragraph that ends at its colon, with nothing after it, yields no dialogue. |
| `Prototypes.AmaniDialogue` | test_speaker_extraction.py:16 | The paragraph `اماني : الو` yields the dialogue `الو`. |
| `Prototypes.MarkedHead` | test_punctuation_filter.py:49-69 | For one paragraph, filtering its listed dialogue by the gap test gives the filtering prototype's result. |
| `Prototypes.FilteredIsMarked` | test_punctuation_filter.py:32-69 | The filtering prototype lists exactly the plain prototype's dialogues that pass the gap test, in order. |
| `Prototypes.MarkedArePlain` | test_punctuation_filter.py:49-69 | The gap filter keeps only dialogues of its input, so a list of non-empty, stripped, one-line dialogues stays so. |
| `Prototypes.FilteredArePlain` | test_punctuation_filter.py:32-69 | Every dialogue the filtering prototype lists is non-empty, stripped and on one line. |
| `Prototypes.FilteredEmptyExactlyWhenNoneMarked` | test_punctuation_filter.py:76 | The filtering prototype's joined result is empty exactly when no dialogue of the plain prototype passes the gap test. |
| `Prototypes.FilteredTextRoundTrip` | test_punctuation_filter.py:24-76 | Cutting the filtering prototype's result at blank lines gives back exactly the plain prototype's dialogues that pass the gap test, in order, one per piece. |
| `Prototypes.GapTestIsGrouping` | test_punctuation_filter.py:58-64 | With the colon-inclusive mark set, the prototype's inline gap test equals `has_multiple_punctuation_marks`. |

## Left out

- `html.unescape`, the BLAKE2s `short_hash` and the lingua language detector are not modelled. They are parameters (`External.Oracles`), and the properties hold for any functions in their place.
- File output is left out: `open`, `json.dumps`, the output directory and the `.jsonl` extension. A written file is modelled as a `SectionFile` value: its name and its records in order.
- Two sections whose keys have the same short hash would overwrite one file. The model lists both writes in order. `SectionId.SectionKeyInjective` shows the keys themselves are distinct, and hash collisions are outside the model.
- The `__main__` blocks are left out (`glob` over the input directory, file reading, pandas TSV output), and so are the `print` calls of the prototypes. They are I/O.
- `rewayat_annotation.py` and `rewayat_build_hf_dataset.py` are not part of this model. They drive the extractors over files and datasets.
- Python's regular-expression engine is not modelled in general. Only the two speaker patterns are modelled, as scanners, and the per-character mark test as set membership.
- `SpeakerPattern.MatchSpeaker`: requires a stripped paragraph, which every caller supplies by stripping first. On an unstripped paragraph, `$` could also match before a final line feed; that case never arises in the scripts.
- Whitespace is the fixed set of characters for which Python's `str.isspace()` holds. The same set is used for `strip()` and for the regex `\s`.
- `Layout.Sections` only states that there is at least one section. Its content is given by `Strings.Split` and `Normalizer.Normalize`, each with its own properties.
