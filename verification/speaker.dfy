/**
 The speaker pattern `^([^STOPS]+):\s*(.+)$`, applied with `re.match` to a paragraph that
 has already been stripped. The label class is `[^:.,!?;،؛؟]` in the JSONL extractor and
 `[^:]` everywhere else; `.` does not match a line feed.
 */
module SpeakerPattern {
  import opened Wrappers
  import opened Strings

  /** The two capture groups of a match: the label and the dialogue. */
  datatype Turn = Turn(speaker: String, dialogue: String)

  /** `[^:.,!?;،؛؟]`: what a JSONL speaker label may not contain. */
  const StrictLabelStops: set<char> := {':', '.', ',', '!', '?', ';', '\U{060C}', '\U{061B}', '\U{061F}'}

  /** `[^:]`: what the label of every other extractor may not contain. */
  const LooseLabelStops: set<char> := {':'}

  /** The index of the first character of `s` at or after `i` that is in `stops`, or
      `|s|`. */
  function FirstStopFrom(s: String, stops: set<char>, i: nat): (k: nat)
    requires i <= |s|
    ensures i <= k <= |s|
    ensures forall n :: i <= n < k ==> s[n] !in stops
    ensures k < |s| ==> s[k] in stops
    decreases |s| - i
  {
    if i == |s| || s[i] in stops then i else FirstStopFrom(s, stops, i + 1)
  }

  /** The index of the first character of `s` that is in `stops`, or `|s|`. */
  function FirstStop(s: String, stops: set<char>): (k: nat)
    ensures k <= |s|
    ensures forall n :: 0 <= n < k ==> s[n] !in stops
    ensures k < |s| ==> s[k] in stops
  {
    FirstStopFrom(s, stops, 0)
  }

  /** The pattern matches `p` with label `p[..k]`, the colon at `k`, optional whitespace
      `p[k + 1..j]` and dialogue `p[j..]`. */
  predicate MatchesAt(p: String, stops: set<char>, k: nat, j: nat) {
    && 0 < k < j < |p|
    && p[k] == ':'
    && (forall i :: 0 <= i < k ==> p[i] !in stops)
    && (forall i :: k < i < j ==> IsSpace(p[i]))
    && (forall i :: j <= i < |p| ==> p[i] != '\n')
  }

  /** `t` is a match of `p`: its groups are the text before and after a `MatchesAt`
      split, and `\s*` took all the whitespace behind the colon. */
  predicate IsMatch(p: String, stops: set<char>, t: Turn) {
    && |t.speaker| < |p| - |t.dialogue|
    && MatchesAt(p, stops, |t.speaker|, |p| - |t.dialogue|)
    && t.speaker == p[..|t.speaker|]
    && t.dialogue == p[|p| - |t.dialogue|..]
    && !IsSpace(p[|p| - |t.dialogue|])
  }

  /** No split of `p` matches the pattern. */
  ghost predicate NoMatch(p: String, stops: set<char>) {
    forall k: nat, j: nat :: !MatchesAt(p, stops, k, j)
  }

  /** What the regular-expression engine returns for a stripped paragraph: the label runs
      to the first stop character, which must be the colon; `\s*` takes all the
      whitespace after it; and the rest, non-empty, must hold no line feed. */
  function MatchSpeaker(p: String, stops: set<char>): (m: Option<Turn>)
    requires ':' in stops && IsStripped(p)
    ensures m.Some? ==> IsMatch(p, stops, m.value)
    ensures m.None? ==> NoMatch(p, stops)
  {
    var k := FirstStop(p, stops);
    if Found(p, stops, k) then
      MatchFound(p, stops, k);
      Some(Turn(p[..k], LStrip(p[k + 1..])))
    else
      NoMatchElsewhere(p, stops);
      None
  }

  /** The scanner's acceptance test at the first stop `k`. */
  predicate Found(p: String, stops: set<char>, k: nat) {
    && 0 < k < |p| && p[k] == ':'
    && var d := LStrip(p[k + 1..]); d != [] && '\n' !in d
  }

  /** Any match has its colon at the first stop character, and its dialogue is what is
      left after dropping the whitespace behind that colon. */
  lemma MatchIsForced(p: String, stops: set<char>, k: nat, j: nat)
    requires ':' in stops && IsStripped(p)
    requires MatchesAt(p, stops, k, j)
    ensures k == FirstStop(p, stops)
    ensures var d := LStrip(p[k + 1..]); d != [] && '\n' !in d
  {
    var k0 := FirstStop(p, stops);
    assert k0 <= k by {
      assert p[k] in stops;
    }
    assert k0 >= k by {
      assert forall i :: 0 <= i < k ==> p[i] !in stops;
    }
    Remainder(p, k, j);
  }

  /** Whitespace after the colon at `k` up to `j`, then a single line ending in a
      non-space: stripping the whitespace leaves a non-blank, single-line dialogue. */
  lemma Remainder(p: String, k: nat, j: nat)
    requires k < j < |p| && !IsSpace(p[|p| - 1])
    requires forall i :: k < i < j ==> IsSpace(p[i])
    requires forall i :: j <= i < |p| ==> p[i] != '\n'
    ensures var d := LStrip(p[k + 1..]); d != [] && '\n' !in d
  {
    var d := LStrip(p[k + 1..]);
    var j0 := |p| - |d|;
    DialogueStart(p, k, j);
    forall i | 0 <= i < |d| ensures d[i] != '\n' {
      assert d[i] == p[j0 + i];
    }
  }

  /** Under the hypotheses of `Remainder`, the left-stripped rest after the colon starts
      at or after `j` and is not empty. */
  lemma DialogueStart(p: String, k: nat, j: nat)
    requires k < j < |p| && !IsSpace(p[|p| - 1])
    requires forall i :: k < i < j ==> IsSpace(p[i])
    ensures var d := LStrip(p[k + 1..]); var j0 := |p| - |d|;
      j <= j0 < |p| && d == p[j0..]
  {
    var d := LStrip(p[k + 1..]);
    var j0 := |p| - |d|;
    LStripTail(p, k + 1);
    assert j0 < |p| by {
      assert !IsSpace(p[|p| - 1]);
    }
    assert j <= j0 by {
      assert !IsSpace(p[j0]) by {
        assert p[j0] == d[0];
      }
    }
  }

  /** When the first stop is a colon with a non-blank, single-line remainder, the
      remainder after its leading whitespace is a match. */
  lemma MatchFound(p: String, stops: set<char>, k: nat)
    requires ':' in stops && IsStripped(p)
    requires Found(p, stops, k) && forall n :: 0 <= n < k ==> p[n] !in stops
    ensures IsMatch(p, stops, Turn(p[..k], LStrip(p[k + 1..])))
  {
    var d := LStrip(p[k + 1..]);
    var j := |p| - |d|;
    AfterColon(p, k);
    assert MatchesAt(p, stops, k, j);
    var t := Turn(p[..k], d);
    assert |t.speaker| == k && |p| - |t.dialogue| == j;
  }

  /** The non-blank, single-line remainder after the colon at `k`, read back in `p`. */
  lemma AfterColon(p: String, k: nat)
    requires k < |p|
    requires var d := LStrip(p[k + 1..]); d != [] && '\n' !in d
    ensures var d := LStrip(p[k + 1..]); var j := |p| - |d|;
      && k < j < |p| && d == p[j..] && !IsSpace(p[j])
      && (forall i :: k < i < j ==> IsSpace(p[i]))
      && (forall i :: j <= i < |p| ==> p[i] != '\n')
  {
    var d := LStrip(p[k + 1..]);
    var j := |p| - |d|;
    LStripTail(p, k + 1);
    assert k < j < |p| && d == p[j..];
    assert !IsSpace(p[j]) by {
      assert p[j] == d[0];
    }
    forall i | j <= i < |p| ensures p[i] != '\n' {
      assert p[i] == d[i - j];
    }
  }

  /** When `p` starts with a label free of stop characters followed by a colon, any
      match takes that label as the speaker. */
  lemma MatchedLabelIsPrefix(p: String, stops: set<char>, name: String)
    requires ':' in stops && IsStripped(p)
    requires |name| < |p| && p[..|name|] == name && p[|name|] == ':'
    requires forall c :: c in name ==> c !in stops
    requires MatchSpeaker(p, stops).Some?
    ensures MatchSpeaker(p, stops).value.speaker == name
  {
    var m := MatchSpeaker(p, stops).value;
    var k, j := MatchGroups(p, stops, m);
    MatchIsForced(p, stops, k, j);
    forall n | 0 <= n < |name| ensures p[n] !in stops {
      assert p[n] == name[n];
    }
    assert FirstStop(p, stops) == |name|;
  }

  lemma NoMatchElsewhere(p: String, stops: set<char>)
    requires ':' in stops && IsStripped(p)
    requires !Found(p, stops, FirstStop(p, stops))
    ensures NoMatch(p, stops)
  {
    forall k: nat, j: nat | MatchesAt(p, stops, k, j) ensures false {
      MatchIsForced(p, stops, k, j);
    }
  }

  /** The dialogue of a match is already stripped and non-empty, so the `if not dialogue`
      guard that follows the match in the extractors can never fire. */
  lemma MatchedDialogueIsStripped(p: String, stops: set<char>)
    requires ':' in stops && IsStripped(p)
    requires MatchSpeaker(p, stops).Some?
    ensures var d := MatchSpeaker(p, stops).value.dialogue;
      d != [] && Strip(d) == d && '\n' !in d
  {
    var d := MatchSpeaker(p, stops).value.dialogue;
    assert d[|d| - 1] == p[|p| - 1];
  }

  /** The label of a match is never blank: the paragraph is stripped, so the label starts
      with a non-space character. */
  lemma MatchedLabelNotBlank(p: String, stops: set<char>)
    requires ':' in stops && IsStripped(p)
    requires MatchSpeaker(p, stops).Some?
    ensures Strip(MatchSpeaker(p, stops).value.speaker) != []
  {
    var l := MatchSpeaker(p, stops).value.speaker;
    assert l[0] == p[0];
  }

  /** The label of a match holds no stop character, and neither does its stripped
      form. */
  lemma LabelFreeOfStops(p: String, stops: set<char>)
    requires ':' in stops && IsStripped(p)
    requires MatchSpeaker(p, stops).Some?
    ensures forall c :: c in Strip(MatchSpeaker(p, stops).value.speaker) ==> c !in stops
  {
    var l := MatchSpeaker(p, stops).value.speaker;
    forall c | c in Strip(l) ensures c !in stops {
      var i :| 0 <= i < |l| && l[i] == c;
      assert l[i] == p[i];
    }
  }

  /** A match is unique: whenever `t` is a match of `p`, it is the one returned. */
  lemma MatchIsUnique(p: String, stops: set<char>, t: Turn)
    requires ':' in stops && IsStripped(p)
    requires IsMatch(p, stops, t)
    ensures MatchSpeaker(p, stops) == Some(t)
  {
    var k, j := MatchGroups(p, stops, t);
    MatchReturned(p, stops, k, j);
  }

  /** The split a match makes. */
  lemma MatchGroups(p: String, stops: set<char>, t: Turn) returns (k: nat, j: nat)
    requires IsMatch(p, stops, t)
    ensures MatchesAt(p, stops, k, j) && !IsSpace(p[j]) && t == Turn(p[..k], p[j..])
  {
    k, j := |t.speaker|, |p| - |t.dialogue|;
  }

  /** The pattern's answer for a paragraph with a match split at `k` and `j`. */
  lemma MatchReturned(p: String, stops: set<char>, k: nat, j: nat)
    requires ':' in stops && IsStripped(p)
    requires MatchesAt(p, stops, k, j) && !IsSpace(p[j])
    ensures MatchSpeaker(p, stops) == Some(Turn(p[..k], p[j..]))
  {
    MatchSplit(p, stops, k, j);
    ReturnedWhenFound(p, stops, k);
  }

  /** The split of a match sits at the first stop, and its dialogue is what
      `lstrip` leaves after the colon. */
  lemma MatchSplit(p: String, stops: set<char>, k: nat, j: nat)
    requires ':' in stops && IsStripped(p)
    requires MatchesAt(p, stops, k, j) && !IsSpace(p[j])
    ensures k == FirstStop(p, stops) && Found(p, stops, k) && LStrip(p[k + 1..]) == p[j..]
  {
    MatchIsForced(p, stops, k, j);
    LStripStopsAt(p, k + 1, j);
  }

  lemma ReturnedWhenFound(p: String, stops: set<char>, k: nat)
    requires ':' in stops && IsStripped(p)
    requires k == FirstStop(p, stops) && Found(p, stops, k)
    ensures MatchSpeaker(p, stops) == Some(Turn(p[..k], LStrip(p[k + 1..])))
  {
  }

  /** Writing a turn as `label: dialogue` and matching it gives the turn back, for a
      label that starts with a non-space and holds no stop character and a non-blank,
      stripped, single-line dialogue. */
  lemma FormatThenMatch(name: String, dialogue: String, stops: set<char>)
    requires ':' in stops
    requires name != [] && !IsSpace(name[0]) && forall c :: c in name ==> c !in stops
    requires dialogue != [] && IsStripped(dialogue) && '\n' !in dialogue
    ensures IsStripped(name + ": " + dialogue)
    ensures MatchSpeaker(name + ": " + dialogue, stops) == Some(Turn(name, dialogue))
  {
    var p := name + ": " + dialogue;
    var k, j := |name|, |name| + 2;
    assert p[0] == name[0] && p[|p| - 1] == dialogue[|dialogue| - 1];
    assert p[..k] == name && p[j..] == dialogue;
    assert p[k] == ':' && p[k + 1] == ' ';
    forall i | 0 <= i < k ensures p[i] !in stops {
      assert p[i] == name[i];
    }
    forall i | j <= i < |p| ensures p[i] != '\n' {
      assert p[i] == dialogue[i - j];
    }
    assert MatchesAt(p, stops, k, j);
    MatchReturned(p, stops, k, j);
  }

  /** The transcript line `اماني : الو`: the label keeps the space before the colon
      (the callers strip it) and the dialogue is `الو`. */
  lemma AmaniExample()
    ensures MatchSpeaker("اماني : الو", LooseLabelStops) == Some(Turn("اماني ", "الو"))
  {
    assert "اماني : الو" == "اماني " + ": " + "الو";
    FormatThenMatch("اماني ", "الو", LooseLabelStops);
  }
}
