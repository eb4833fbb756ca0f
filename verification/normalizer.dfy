/**
 The text normaliser: HTML entity decoding followed by the fixed chain of
 backslash-escape replacements of `process_backslashes`.
 */
module Normalizer {
  import opened Wrappers
  import opened Strings

  const Backslash: char := '\\'

  /** The six two-character escape sequences, in the order they are replaced, each with
      the character it becomes. */
  const Escapes: seq<(String, String)> := [
    ([Backslash, 'n'], "\n"),
    ([Backslash, 't'], "\t"),
    ([Backslash, 'r'], "\r"),
    ([Backslash, '"'], "\""),
    ([Backslash, '\''], "'"),
    ([Backslash, Backslash], [Backslash])
  ]

  /** Applies `Escapes[i..]` in order, each as one whole `str.replace` pass. */
  function ReplaceFrom(s: String, i: nat): (r: String)
    requires i <= |Escapes|
    ensures |r| <= |s|
    decreases |Escapes| - i
  {
    if i == |Escapes| then s
    else ReplaceFrom(Replace(s, Escapes[i].0, Escapes[i].1), i + 1)
  }

  /** `process_backslashes`: literal escape sequences become the characters they name,
      with `\\` handled last and no rescanning of replaced output. */
  function ProcessBackslashes(s: String): (r: String)
    ensures |r| <= |s|
    ensures (forall k :: 0 <= k < |Escapes| ==> !Contains(s, Escapes[k].0)) ==> r == s
  {
    assert (forall k :: 0 <= k < |Escapes| ==> !Contains(s, Escapes[k].0)) ==> ReplaceFrom(s, 0) == s by {
      if forall k :: 0 <= k < |Escapes| ==> !Contains(s, Escapes[k].0) {
        SkipAbsent(s, 0, |Escapes|);
      }
    }
    ReplaceFrom(s, 0)
  }

  /** Text with no backslash at all passes through unchanged. */
  lemma NoBackslashUnchanged(s: String)
    requires Backslash !in s
    ensures ProcessBackslashes(s) == s
  {
    forall k | 0 <= k < |Escapes| ensures !Contains(s, Escapes[k].0) {
      EscapeStartsWithBackslash(k);
      NoSeparatorChar(s, Escapes[k].0);
    }
  }

  /** Every escape sequence starts with a backslash. */
  lemma EscapeStartsWithBackslash(k: nat)
    requires k < |Escapes|
    ensures |Escapes[k].0| > 0 && Escapes[k].0[0] == Backslash
  {
  }

  /** Because `\n` is replaced first, the three characters backslash, backslash, `n`
      end up as a backslash followed by a line feed, not as backslash and `n`. */
  lemma EscapeOrder()
    ensures ProcessBackslashes([Backslash, Backslash, 'n']) == [Backslash, '\n']
  {
    var s := [Backslash, Backslash, 'n'];
    assert IndexOf(s, [Backslash, 'n']) == Some(1) by {
      assert s[0..2] != [Backslash, 'n'] by { assert s[0..2][1] == s[1]; }
      assert s[1..3] == [Backslash, 'n'];
      assert IndexFrom(s, [Backslash, 'n'], 1) == Some(1);
    }
    var s1 := Replace(s, [Backslash, 'n'], "\n");
    assert s1 == [Backslash, '\n'] by {
      assert s[3..] == [];
    }
    forall k | 1 <= k < |Escapes| ensures !Contains(s1, Escapes[k].0) {
      forall j: nat | j <= |s1| ensures !OccursAt(s1, Escapes[k].0, j) {
        if j + 2 <= |s1| {
          assert s1[j..j + 2][1] == s1[j + 1];
        }
      }
    }
  }

  /** Four backslashes become two: only the final `\\` pass changes them. */
  lemma FourBackslashesBecomeTwo()
    ensures ProcessBackslashes([Backslash, Backslash, Backslash, Backslash]) == [Backslash, Backslash]
  {
    var s := [Backslash, Backslash, Backslash, Backslash];
    var bb := [Backslash, Backslash];
    assert IndexOf(s, bb) == Some(0) by { assert s[0..2] == bb; }
    calc {
      ProcessBackslashes(s);
      ReplaceFrom(s, 0);
      { NoEarlyEscape(s); FinalPass(s); }
      Replace(s, bb, [Backslash]);
      { ReplaceAtFirst(s, bb, [Backslash]); assert s[..0] == [] && s[2..] == bb; }
      [Backslash] + Replace(bb, bb, [Backslash]);
      { ReplaceWhole(bb); }
      [Backslash, Backslash];
    }
  }

  /** When none of the first five escapes occurs, only the final `\\` pass changes
      the text. */
  lemma FinalPass(s: String)
    requires forall k :: 0 <= k < 5 ==> !Contains(s, Escapes[k].0)
    ensures ReplaceFrom(s, 0) == Replace(s, [Backslash, Backslash], [Backslash])
  {
    SkipAbsent(s, 0, 5);
    LastPass(s);
  }

  /** The last pass alone is one `\\` replacement. */
  lemma LastPass(s: String)
    ensures ReplaceFrom(s, 5) == Replace(s, [Backslash, Backslash], [Backslash])
  {
    var r := Replace(s, Escapes[5].0, Escapes[5].1);
    assert ReplaceFrom(s, 5) == ReplaceFrom(r, 6);
  }

  /** None of the first five escapes occurs in a run of backslashes. */
  lemma NoEarlyEscape(s: String)
    requires forall i :: 0 <= i < |s| ==> s[i] == Backslash
    ensures forall k :: 0 <= k < 5 ==> !Contains(s, Escapes[k].0)
  {
    forall k | 0 <= k < 5 ensures !Contains(s, Escapes[k].0) {
      EscapeSecondChar(k);
      SecondCharAbsent(s, Escapes[k].0);
    }
  }

  /** The first five escapes are a backslash followed by something else. */
  lemma EscapeSecondChar(k: nat)
    requires k < 5
    ensures |Escapes[k].0| == 2 && Escapes[k].0[1] != Backslash
  {
  }

  /** A pattern whose second character is missing from the text does not occur in it. */
  lemma SecondCharAbsent(s: String, pat: String)
    requires |pat| >= 2 && pat[1] !in s
    ensures !Contains(s, pat)
  {
    forall j: nat | j + |pat| <= |s| ensures !OccursAt(s, pat, j) {
      assert s[j..j + |pat|][1] == s[j + 1];
    }
  }

  /** Passes whose escape does not occur leave the text as it is. */
  lemma {:induction false} SkipAbsent(s: String, i: nat, j: nat)
    requires i <= j <= |Escapes|
    requires forall k :: i <= k < j ==> !Contains(s, Escapes[k].0)
    ensures ReplaceFrom(s, i) == ReplaceFrom(s, j)
    decreases j - i
  {
    if i < j {
      ReplaceWithoutTarget(s, Escapes[i].0, Escapes[i].1);
      SkipAbsent(s, i + 1, j);
    }
  }

  lemma ReplaceWhole(bb: String)
    requires bb == [Backslash, Backslash]
    ensures Replace(bb, bb, [Backslash]) == [Backslash]
  {
    assert OccursAt(bb, bb, 0) by { assert bb[0..2] == bb; }
    assert bb[..0] == [] && bb[2..] == [];
  }

  /** Two backslashes become one, so normalising twice is not normalising once: the
      four backslashes above end up as a single one after a second pass. */
  lemma TwoBackslashesBecomeOne()
    ensures ProcessBackslashes([Backslash, Backslash]) == [Backslash]
  {
    var bb := [Backslash, Backslash];
    calc {
      ProcessBackslashes(bb);
      ReplaceFrom(bb, 0);
      { NoEarlyEscape(bb); FinalPass(bb); }
      Replace(bb, bb, [Backslash]);
      { ReplaceWhole(bb); }
      [Backslash];
    }
  }

  /** `clean_html_entities` followed by `process_backslashes`; HTML entity decoding is an
      opaque library function supplied by the caller. */
  function Normalize(unescape: String -> String, raw: String): (r: String)
    ensures |r| <= |unescape(raw)|
    ensures Backslash !in unescape(raw) ==> r == unescape(raw)
  {
    var decoded := unescape(raw);
    assert Backslash !in decoded ==> ProcessBackslashes(decoded) == decoded by {
      if Backslash !in decoded {
        NoBackslashUnchanged(decoded);
      }
    }
    ProcessBackslashes(decoded)
  }
}
