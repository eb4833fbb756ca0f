/**
 The punctuation grouper `has_multiple_punctuation_marks`: the positions of the marks in a
 text are coalesced into maximal runs of adjacent positions, and the text passes when
 there are at least two runs. Also the pairwise-gap formulation of the same test used
 by the dialogue-filter prototype.
 */
module Punctuation {
  import opened Strings

  /** `[.!?،؛؟!]`: Latin full stop, exclamation and question marks, Arabic comma,
      Arabic semicolon and Arabic question mark. */
  const SentenceMarks: set<char> := {'.', '!', '?', '\U{060C}', '\U{061B}', '\U{061F}'}

  /** `[.!?،؛:؟!]`: the variant set of the standalone test script, which also counts `:`. */
  const SentenceMarksWithColon: set<char> := SentenceMarks + {':'}

  predicate Increasing(ps: seq<int>) {
    forall a, b :: 0 <= a < b < |ps| ==> ps[a] < ps[b]
  }

  /** The list `punctuation_positions`: every index of `text` holding a mark, in order. */
  function MarkPositions(text: String, marks: set<char>): (ps: seq<int>)
    ensures Increasing(ps)
    ensures forall k :: 0 <= k < |ps| ==> 0 <= ps[k] < |text| && text[ps[k]] in marks
    ensures forall i :: 0 <= i < |text| && text[i] in marks ==> i in ps
    decreases |text|
  {
    if text == [] then []
    else
      var n := |text| - 1;
      MarkPositions(text[..n], marks) + (if text[n] in marks then [n] else [])
  }

  /** A non-empty run of consecutive integers. */
  predicate IsRun(g: seq<int>) {
    |g| > 0 && forall k :: 0 <= k < |g| ==> g[k] == g[0] + k
  }

  function Last(g: seq<int>): int
    requires |g| > 0
  {
    g[|g| - 1]
  }

  /** Every group is a run, and no group starts right where the previous one ended. */
  predicate MaximalRuns(gs: seq<seq<int>>) {
    && (forall k :: 0 <= k < |gs| ==> IsRun(gs[k]))
    && (forall k :: 0 < k < |gs| ==> Last(gs[k - 1]) + 1 != gs[k][0])
  }

  /** The groups laid end to end. */
  function Flatten(gs: seq<seq<int>>): seq<int> {
    if gs == [] then [] else Flatten(gs[..|gs| - 1]) + gs[|gs| - 1]
  }

  /** Entries `k` and `k + 1` of `ps` are not one apart. */
  predicate BreakAt(ps: seq<int>, k: nat) {
    k + 1 < |ps| && ps[k + 1] - ps[k] != 1
  }

  /** Some two successive entries among the first `n` are not one apart. */
  predicate HasBreak(ps: seq<int>, n: nat) {
    exists k: nat :: k + 1 < n && BreakAt(ps, k)
  }

  /** `gs` splits `ps` into maximal runs, and there are two or more of them exactly
      when `ps` has a break. */
  predicate Grouping(ps: seq<int>, gs: seq<seq<int>>) {
    && Flatten(gs) == ps
    && MaximalRuns(gs)
    && (|gs| >= 2 <==> HasBreak(ps, |ps|))
  }

  /** What holds at the top of each iteration of the grouping loop. */
  predicate LoopState(ps: seq<int>, i: nat, current: seq<int>, groups: seq<seq<int>>) {
    && 1 <= i <= |ps|
    && IsRun(current) && Last(current) == ps[i - 1]
    && Flatten(groups) + current == ps[..i]
    && MaximalRuns(groups + [current])
    && (|groups| > 0 <==> HasBreak(ps, i))
  }

  /** One pass of the grouping loop: `current` is `current_group`, `groups` is
      `punctuation_groups`, and `ps[i..]` is what the loop has still to visit. */
  function GroupFrom(ps: seq<int>, i: nat, current: seq<int>, groups: seq<seq<int>>): (gs: seq<seq<int>>)
    requires LoopState(ps, i, current, groups)
    ensures Grouping(ps, gs)
    decreases |ps| - i
  {
    if i == |ps| then
      FinishStep(ps, current, groups);
      groups + [current]
    else if ps[i] - ps[i - 1] == 1 then
      ExtendStep(ps, i, current, groups);
      GroupFrom(ps, i + 1, current + [ps[i]], groups)
    else
      CloseStep(ps, i, current, groups);
      GroupFrom(ps, i + 1, [ps[i]], groups + [current])
  }

  /** The loop has visited every position: the last group is appended. */
  lemma FinishStep(ps: seq<int>, current: seq<int>, groups: seq<seq<int>>)
    requires LoopState(ps, |ps|, current, groups)
    ensures Grouping(ps, groups + [current])
  {
    FlattenSnoc(groups, current);
    assert ps[..|ps|] == ps;
  }

  lemma FlattenSnoc(gs: seq<seq<int>>, g: seq<int>)
    ensures Flatten(gs + [g]) == Flatten(gs) + g
  {
    assert (gs + [g])[..|gs|] == gs;
  }

  /** The loop step for an adjacent position: it joins the current group. */
  lemma ExtendStep(ps: seq<int>, i: nat, current: seq<int>, groups: seq<seq<int>>)
    requires LoopState(ps, i, current, groups) && i < |ps|
    requires ps[i] - ps[i - 1] == 1
    ensures LoopState(ps, i + 1, current + [ps[i]], groups)
  {
    PrefixSnoc(ps, i);
    AppendAssoc(Flatten(groups), current, [ps[i]]);
    ExtendRun(current, ps[i]);
    ExtendKeepsMaximal(groups, current, ps[i]);
    ExtendKeepsBreaks(ps, i);
  }

  lemma PrefixSnoc(ps: seq<int>, i: nat)
    requires i < |ps|
    ensures ps[..i + 1] == ps[..i] + [ps[i]]
  {
  }

  lemma AppendAssoc(a: seq<int>, b: seq<int>, c: seq<int>)
    ensures a + (b + c) == (a + b) + c
  {
  }

  lemma ExtendRun(current: seq<int>, x: int)
    requires IsRun(current) && x == Last(current) + 1
    ensures IsRun(current + [x]) && Last(current + [x]) == x
  {
  }

  lemma ExtendKeepsMaximal(groups: seq<seq<int>>, current: seq<int>, x: int)
    requires IsRun(current) && x == Last(current) + 1
    requires MaximalRuns(groups + [current])
    ensures MaximalRuns(groups + [current + [x]])
  {
    var gs := groups + [current];
    var gs' := groups + [current + [x]];
    forall k | 0 <= k < |gs'| ensures IsRun(gs'[k]) {
      if k < |groups| {
        assert gs'[k] == gs[k];
      }
    }
    forall k | 0 < k < |gs'| ensures Last(gs'[k - 1]) + 1 != gs'[k][0] {
      assert gs'[k][0] == gs[k][0];
      if k < |groups| {
        assert gs'[k - 1] == gs[k - 1];
      } else {
        assert gs'[k - 1] == gs[k - 1] == groups[k - 1];
      }
    }
  }

  lemma ExtendKeepsBreaks(ps: seq<int>, i: nat)
    requires 1 <= i < |ps| && ps[i] - ps[i - 1] == 1
    ensures HasBreak(ps, i) <==> HasBreak(ps, i + 1)
  {
    assert !BreakAt(ps, i - 1);
    assert forall k: nat :: k + 1 < i + 1 && BreakAt(ps, k) ==> k + 1 < i;
  }

  /** The loop step for a non-adjacent position: the current group is closed and a new
      one started. */
  lemma CloseStep(ps: seq<int>, i: nat, current: seq<int>, groups: seq<seq<int>>)
    requires LoopState(ps, i, current, groups) && i < |ps|
    requires ps[i] - ps[i - 1] != 1
    ensures LoopState(ps, i + 1, [ps[i]], groups + [current])
  {
    FlattenSnoc(groups, current);
    PrefixSnoc(ps, i);
    var gs := groups + [current];
    var gs' := gs + [[ps[i]]];
    forall k | 0 <= k < |gs'| ensures IsRun(gs'[k]) {
      if k < |gs| {
        assert gs'[k] == gs[k];
      }
    }
    forall k | 0 < k < |gs'| ensures Last(gs'[k - 1]) + 1 != gs'[k][0] {
      if k < |gs| {
        assert gs'[k] == gs[k] && gs'[k - 1] == gs[k - 1];
      }
    }
    assert BreakAt(ps, i - 1);
  }

  /** The grouping loop of `has_multiple_punctuation_marks` over non-empty positions. */
  function GroupPositions(ps: seq<int>): (gs: seq<seq<int>>)
    requires |ps| >= 1
    ensures Flatten(gs) == ps
    ensures MaximalRuns(gs)
    ensures |gs| >= 2 <==> HasBreak(ps, |ps|)
  {
    assert Flatten([]) + [ps[0]] == ps[..1];
    assert !HasBreak(ps, 1);
    assert LoopState(ps, 1, [ps[0]], []);
    GroupFrom(ps, 1, [ps[0]], [])
  }

  /** `has_multiple_punctuation_marks(text)`, over the given mark set. */
  function HasMultiplePunctuationMarks(text: String, marks: set<char>): bool {
    var ps := MarkPositions(text, marks);
    if |ps| < 2 then false else |GroupPositions(ps)| >= 2
  }

  /** The pairwise scan with early exit: is there a gap wider than one between two
      successive entries of `ps[i..]`? */
  function WideGapFrom(ps: seq<int>, i: nat): bool
    decreases |ps| - i
  {
    if i + 1 >= |ps| then false
    else if ps[i + 1] - ps[i] > 1 then true
    else WideGapFrom(ps, i + 1)
  }

  /** The inline test of the dialogue-filter prototype: at least two marks, and some
      successive pair of positions more than one apart. */
  function HasNonAdjacentMarks(text: String, marks: set<char>): bool {
    var ps := MarkPositions(text, marks);
    |ps| >= 2 && WideGapFrom(ps, 0)
  }

  /** Two marks with a non-mark character somewhere between them. */
  predicate TwoSeparatedMarks(text: String, marks: set<char>) {
    exists i, m, j :: 0 <= i < m < j < |text| && text[i] in marks && text[m] !in marks && text[j] in marks
  }

  /** Entries `k` and `k + 1` of `ps` are more than one apart. */
  predicate WideGapAt(ps: seq<int>, k: nat) {
    k + 1 < |ps| && ps[k + 1] - ps[k] > 1
  }

  lemma {:induction false} WideGapFromMeans(ps: seq<int>, i: nat)
    ensures WideGapFrom(ps, i) <==> exists k: nat :: i <= k && WideGapAt(ps, k)
    decreases |ps| - i
  {
    if i + 1 >= |ps| {
      assert forall k: nat :: i <= k ==> !WideGapAt(ps, k);
    } else if ps[i + 1] - ps[i] > 1 {
      assert WideGapAt(ps, i);
    } else {
      WideGapFromMeans(ps, i + 1);
      assert !WideGapAt(ps, i);
      assert forall k: nat :: i <= k && WideGapAt(ps, k) ==> i + 1 <= k;
    }
  }

  /** The run-grouping test and the pairwise-gap test agree on every text and mark set. */
  lemma GroupingMatchesGapScan(text: String, marks: set<char>)
    ensures HasMultiplePunctuationMarks(text, marks) == HasNonAdjacentMarks(text, marks)
  {
    var ps := MarkPositions(text, marks);
    WideGapFromMeans(ps, 0);
    BreakIsWideGap(ps);
  }

  /** For increasing positions, "not one apart" and "more than one apart" coincide. */
  lemma BreakIsWideGap(ps: seq<int>)
    requires Increasing(ps)
    ensures HasBreak(ps, |ps|) <==> exists k: nat :: 0 <= k && WideGapAt(ps, k)
  {
    forall k: nat | k + 1 < |ps| ensures BreakAt(ps, k) <==> WideGapAt(ps, k) {
      assert ps[k] < ps[k + 1];
    }
  }

  /** Without a break, positions that are `t` entries apart are exactly `t` apart. */
  lemma {:induction false} NoBreakConsecutive(ps: seq<int>, a: nat, t: nat)
    requires a + t < |ps| && !HasBreak(ps, |ps|)
    ensures ps[a + t] == ps[a] + t
    decreases t
  {
    if t > 0 {
      NoBreakConsecutive(ps, a, t - 1);
      assert !BreakAt(ps, a + t - 1);
    }
  }

  /** The grouping test holds exactly when two marks are separated by at least one
      other character: one mark, or one unbroken run of marks, is not enough. */
  lemma MultipleMarksMeansSeparated(text: String, marks: set<char>)
    ensures HasMultiplePunctuationMarks(text, marks) <==> TwoSeparatedMarks(text, marks)
  {
    if HasMultiplePunctuationMarks(text, marks) {
      BreakGivesSeparatedMarks(text, marks);
    }
    if TwoSeparatedMarks(text, marks) {
      SeparatedMarksGiveBreak(text, marks);
    }
  }

  lemma BreakGivesSeparatedMarks(text: String, marks: set<char>)
    requires HasMultiplePunctuationMarks(text, marks)
    ensures TwoSeparatedMarks(text, marks)
  {
    var ps := MarkPositions(text, marks);
    var k: nat :| k + 1 < |ps| && BreakAt(ps, k);
    var i, m, j := ps[k], ps[k] + 1, ps[k + 1];
    assert i < j;
    BetweenNotListed(ps, k, m);
    assert 0 <= i < m < j < |text| && text[i] in marks && text[m] !in marks && text[j] in marks;
  }

  lemma SeparatedMarksGiveBreak(text: String, marks: set<char>)
    requires TwoSeparatedMarks(text, marks)
    ensures HasMultiplePunctuationMarks(text, marks)
  {
    var ps := MarkPositions(text, marks);
    var i, m, j :| 0 <= i < m < j < |text| && text[i] in marks && text[m] !in marks && text[j] in marks;
    var a := IndexIn(ps, i);
    var b := IndexIn(ps, j);
    IncreasingIndexOrder(ps, a, b);
    UnlistedBetweenIsBreak(ps, a, b, m);
  }

  /** An unlisted value strictly between two listed ones means a break. */
  lemma UnlistedBetweenIsBreak(ps: seq<int>, a: nat, b: nat, x: int)
    requires Increasing(ps) && a < b < |ps| && ps[a] < x < ps[b] && x !in ps
    ensures HasBreak(ps, |ps|)
  {
    if !HasBreak(ps, |ps|) {
      NoBreakConsecutive(ps, a, b - a);
      NoBreakConsecutive(ps, a, x - ps[a]);
    }
  }

  /** No listed position lies strictly between two successive entries. */
  lemma BetweenNotListed(ps: seq<int>, k: nat, x: int)
    requires Increasing(ps) && k + 1 < |ps| && ps[k] < x < ps[k + 1]
    ensures x !in ps
  {
    forall a | 0 <= a < |ps| ensures ps[a] != x {
      if a <= k {
        assert a == k || ps[a] < ps[k];
      } else {
        assert a == k + 1 || ps[k + 1] < ps[a];
      }
    }
  }

  lemma IncreasingIndexOrder(ps: seq<int>, a: nat, b: nat)
    requires Increasing(ps) && a < |ps| && b < |ps| && ps[a] < ps[b]
    ensures a < b
  {
  }

  lemma IndexIn(ps: seq<int>, x: int) returns (a: nat)
    requires x in ps
    ensures a < |ps| && ps[a] == x
  {
    a :| 0 <= a < |ps| && ps[a] == x;
  }

  /** Text holding at most one mark never passes. */
  lemma AtMostOneMark(text: String, marks: set<char>)
    requires forall i, j :: 0 <= i < j < |text| && text[i] in marks ==> text[j] !in marks
    ensures !HasMultiplePunctuationMarks(text, marks)
  {
    MultipleMarksMeansSeparated(text, marks);
  }

  /** Marks that form one unbroken run `text[lo..hi]` (possibly empty) never pass: a
      lone mark or a doubled `!!` is one group. */
  lemma SingleRunFails(text: String, marks: set<char>, lo: nat, hi: nat)
    requires lo <= hi <= |text|
    requires forall k :: 0 <= k < |text| ==> (text[k] in marks <==> lo <= k < hi)
    ensures !HasMultiplePunctuationMarks(text, marks)
  {
    MultipleMarksMeansSeparated(text, marks);
  }
}
