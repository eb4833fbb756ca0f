/**
 Python `str` primitives used by the extraction scripts, on strings as `seq<char>`:
 `strip`, `split(sep)`, `sep.join(parts)` and `replace(old, new)`, together with the
 leftmost-occurrence search they share.
 */
module Strings {
  import opened Wrappers

  type String = seq<char>

  /** The characters for which Python's `str.isspace()` holds; `strip()` and the
      regular-expression class `\s` both use this set. */
  predicate IsSpace(c: char) {
    || c == ' '
    || '\t' <= c <= '\r'                  // tab, line feed, vertical tab, form feed, carriage return
    || '\U{1C}' <= c <= '\U{1F}'          // information separators
    || c == '\U{85}' || c == '\U{A0}' || c == '\U{1680}'
    || '\U{2000}' <= c <= '\U{200A}'      // en quad .. hair space
    || c == '\U{2028}' || c == '\U{2029}' || c == '\U{202F}' || c == '\U{205F}' || c == '\U{3000}'
  }

  predicate AllSpace(s: String) {
    forall i :: 0 <= i < |s| ==> IsSpace(s[i])
  }

  /** Neither end of `s` is whitespace: what `strip()` leaves behind. */
  predicate IsStripped(s: String) {
    s == [] || (!IsSpace(s[0]) && !IsSpace(s[|s| - 1]))
  }

  /** The number of whitespace characters at the front of `s`. */
  function LeadingSpaces(s: String): (n: nat)
    ensures n <= |s|
    ensures forall i :: 0 <= i < n ==> IsSpace(s[i])
    ensures n == |s| || !IsSpace(s[n])
    decreases |s|
  {
    if |s| > 0 && IsSpace(s[0]) then 1 + LeadingSpaces(s[1..]) else 0
  }

  /** The number of whitespace characters at the end of `s`. */
  function TrailingSpaces(s: String): (n: nat)
    ensures n <= |s|
    ensures forall i :: |s| - n <= i < |s| ==> IsSpace(s[i])
    ensures n == |s| || !IsSpace(s[|s| - n - 1])
    decreases |s|
  {
    if |s| > 0 && IsSpace(s[|s| - 1]) then 1 + TrailingSpaces(s[..|s| - 1]) else 0
  }

  /** `s.lstrip()`: the longest suffix of `s` that does not start with whitespace. */
  function LStrip(s: String): (r: String)
    ensures |r| <= |s| && r == s[|s| - |r|..]
    ensures forall i :: 0 <= i < |s| - |r| ==> IsSpace(s[i])
    ensures r == [] || !IsSpace(r[0])
  {
    s[LeadingSpaces(s)..]
  }

  /** `s.rstrip()`: the longest prefix of `s` that does not end with whitespace. */
  function RStrip(s: String): (r: String)
    ensures |r| <= |s| && r == s[..|r|]
    ensures forall i :: |r| <= i < |s| ==> IsSpace(s[i])
    ensures r == [] || !IsSpace(r[|r| - 1])
  {
    s[..|s| - TrailingSpaces(s)]
  }

  /** `s.strip()`. */
  function Strip(s: String): (r: String)
    ensures IsStripped(r)
    ensures r == [] <==> AllSpace(s)
    ensures |r| <= |s|
    ensures forall c :: c in r ==> c in s
    ensures IsStripped(s) ==> r == s
  {
    var l := LStrip(s);
    var r := RStrip(l);
    assert r != [] ==> r[0] == l[0];
    r
  }

  /** What `strip()` keeps is a slice of `s` with only whitespace cut from either side. */
  lemma StripIsInfix(s: String) returns (a: nat, b: nat)
    ensures a <= b <= |s| && Strip(s) == s[a..b]
    ensures AllSpace(s[..a]) && AllSpace(s[b..])
  {
    var l := LStrip(s);
    var r := RStrip(l);
    a, b := |s| - |l|, |s| - |l| + |r|;
    assert r == s[a..b];
    forall i | 0 <= i < |s[b..]| ensures IsSpace(s[b..][i]) {
      assert s[b..][i] == l[|r| + i];
    }
  }

  /** Stripping keeps the front of `s` up to and including index `n` when neither the
      first character nor the one at `n` is whitespace. */
  lemma StripKeepsFront(s: String, n: nat)
    requires n < |s| && !IsSpace(s[0]) && !IsSpace(s[n])
    ensures n < |Strip(s)| && Strip(s)[..n + 1] == s[..n + 1]
  {
    assert LStrip(s) == s;
    var r := RStrip(s);
    assert n < |r|;
    assert r[..n + 1] == s[..n + 1];
  }

  /** `p[a..].lstrip()` read back in `p`: it is the suffix from some `j >= a`, and
      everything between `a` and `j` is whitespace. */
  lemma LStripTail(p: String, a: nat)
    requires a <= |p|
    ensures var j := |p| - |LStrip(p[a..])|;
      a <= j && LStrip(p[a..]) == p[j..] && forall i :: a <= i < j ==> IsSpace(p[i])
  {
    var r := p[a..];
    var d := LStrip(r);
    var j := |p| - |d|;
    assert r[|r| - |d|..] == p[j..];
    forall i | a <= i < j ensures IsSpace(p[i]) {
      assert p[i] == r[i - a];
    }
  }

  /** When `p[a..j]` is whitespace and `p[j]` is not, `p[a..].lstrip()` is `p[j..]`. */
  lemma LStripStopsAt(p: String, a: nat, j: nat)
    requires a <= j < |p| && !IsSpace(p[j])
    requires forall i :: a <= i < j ==> IsSpace(p[i])
    ensures LStrip(p[a..]) == p[j..]
  {
    var d := LStrip(p[a..]);
    var j0 := |p| - |d|;
    LStripTail(p, a);
    assert j0 <= j;
    assert j <= j0 by {
      assert !IsSpace(p[j0]) by {
        assert p[j0] == d[0];
      }
    }
  }

  /** `pat` occurs in `s` starting at index `i`. */
  predicate OccursAt(s: String, pat: String, i: nat) {
    i + |pat| <= |s| && s[i..i + |pat|] == pat
  }

  predicate Contains(s: String, pat: String) {
    exists i: nat | i <= |s| :: OccursAt(s, pat, i)
  }

  /** The leftmost occurrence of `pat` in `s` at or after index `k`, if any. */
  function IndexFrom(s: String, pat: String, k: nat): (r: Option<nat>)
    requires |pat| > 0 && k <= |s|
    ensures r.Some? ==> k <= r.value && OccursAt(s, pat, r.value)
    ensures r.Some? ==> forall j: nat :: k <= j < r.value ==> !OccursAt(s, pat, j)
    ensures r.None? ==> forall j: nat :: k <= j ==> !OccursAt(s, pat, j)
    decreases |s| - k
  {
    if k + |pat| > |s| then None
    else if s[k..k + |pat|] == pat then Some(k)
    else IndexFrom(s, pat, k + 1)
  }

  /** `s.find(pat)`: the leftmost occurrence of `pat` in `s`, if any. */
  function IndexOf(s: String, pat: String): (r: Option<nat>)
    requires |pat| > 0
    ensures r.Some? ==> OccursAt(s, pat, r.value)
    ensures r.Some? ==> forall j: nat :: j < r.value ==> !OccursAt(s, pat, j)
    ensures r.None? ==> !Contains(s, pat)
  {
    IndexFrom(s, pat, 0)
  }

  /** `s.split(sep)` for a non-empty separator: the pieces between the non-overlapping
      occurrences of `sep`, found left to right. */
  function Split(s: String, sep: String): (parts: seq<String>)
    requires |sep| > 0
    ensures |parts| >= 1
    decreases |s|
  {
    match IndexOf(s, sep)
    case None => [s]
    case Some(i) => [s[..i]] + Split(s[i + |sep|..], sep)
  }

  /** No piece of a split contains the separator. */
  lemma {:induction false} SplitPiecesFree(s: String, sep: String)
    requires |sep| > 0
    ensures forall k :: 0 <= k < |Split(s, sep)| ==> !Contains(Split(s, sep)[k], sep)
    decreases |s|
  {
    if IndexOf(s, sep).Some? {
      var i := IndexOf(s, sep).value;
      var tail := Split(s[i + |sep|..], sep);
      SplitPiecesFree(s[i + |sep|..], sep);
      SplitAtFirst(s, sep, i);
      PrefixBeforeFirst(s, sep, i);
      forall k | 0 < k < |Split(s, sep)| ensures !Contains(Split(s, sep)[k], sep) {
        assert Split(s, sep)[k] == tail[k - 1];
      }
    }
  }

  /** The text before the leftmost occurrence does not contain the pattern. */
  lemma PrefixBeforeFirst(s: String, sep: String, i: nat)
    requires |sep| > 0 && IndexOf(s, sep) == Some(i)
    ensures !Contains(s[..i], sep)
  {
    forall j: nat | j <= i ensures !OccursAt(s[..i], sep, j) {
      if j + |sep| <= i {
        assert j < i;
        assert !OccursAt(s, sep, j);
        assert s[..i][j..j + |sep|] == s[j..j + |sep|];
      }
    }
  }

  /** `sep.join(parts)`. */
  function Join(parts: seq<String>, sep: String): String {
    if |parts| == 0 then []
    else if |parts| == 1 then parts[0]
    else parts[0] + sep + Join(parts[1..], sep)
  }

  lemma JoinCons(x: String, ys: seq<String>, sep: String)
    requires |ys| >= 1
    ensures Join([x] + ys, sep) == x + sep + Join(ys, sep)
  {
    assert ([x] + ys)[1..] == ys;
  }

  /** Joining the pieces of a split with the same separator gives back the string. */
  lemma {:induction false} JoinSplit(s: String, sep: String)
    requires |sep| > 0
    ensures Join(Split(s, sep), sep) == s
    decreases |s|
  {
    match IndexOf(s, sep)
    case None =>
    case Some(i) =>
      var rest := s[i + |sep|..];
      var tail := Split(rest, sep);
      JoinSplit(rest, sep);
      assert Split(s, sep) == [s[..i]] + tail;
      JoinCons(s[..i], tail, sep);
      assert Join(tail, sep) == rest;
      assert OccursAt(s, sep, i);
      assert s == s[..i] + sep + rest by {
        assert s == s[..i] + s[i..i + |sep|] + s[i + |sep|..];
      }
  }

  /** Splitting a string that holds no separator gives the string itself. */
  lemma SplitNoSeparator(s: String, sep: String)
    requires |sep| > 0 && !Contains(s, sep)
    ensures Split(s, sep) == [s]
  {
  }

  /** Python's cut rule: the split has a single piece exactly when the separator does
      not occur; otherwise the first piece ends at the leftmost occurrence and the
      remaining pieces are the split of what follows it. Overlapping occurrences, as in
      `"a\n\n\nb"`, are therefore cut at the left one. */
  lemma SplitCutsLeftmost(s: String, sep: String)
    requires |sep| > 0
    ensures |Split(s, sep)| == 1 <==> !Contains(s, sep)
    ensures |Split(s, sep)| > 1 ==> IndexOf(s, sep) == Some(|Split(s, sep)[0]|)
    ensures |Split(s, sep)| > 1 ==> Split(s, sep)[1..] == Split(s[|Split(s, sep)[0]| + |sep|..], sep)
  {
    SplitSinglePiece(s, sep);
    if IndexOf(s, sep).Some? {
      var i := IndexOf(s, sep).value;
      var tail := Split(s[i + |sep|..], sep);
      SplitAtFirst(s, sep, i);
      assert ([s[..i]] + tail)[1..] == tail;
    }
  }

  /** One step of a split: the piece before the leftmost separator, then the split of
      what follows it. */
  lemma SplitAtFirst(s: String, sep: String, i: nat)
    requires |sep| > 0 && IndexOf(s, sep) == Some(i)
    ensures Split(s, sep) == [s[..i]] + Split(s[i + |sep|..], sep)
  {
  }

  lemma SplitSinglePiece(s: String, sep: String)
    requires |sep| > 0
    ensures |Split(s, sep)| == 1 <==> !Contains(s, sep)
  {
    if IndexOf(s, sep).Some? {
      assert OccursAt(s, sep, IndexOf(s, sep).value);
    }
  }

  /** A string without the separator's first character does not contain it. */
  lemma NoSeparatorChar(s: String, sep: String)
    requires |sep| > 0 && sep[0] !in s
    ensures !Contains(s, sep)
  {
    forall i: nat | i + |sep| <= |s| ensures !OccursAt(s, sep, i) {
      assert s[i..i + |sep|][0] == s[i];
    }
  }

  /** A separator followed by a string made of characters the separator does not
      start with: the leftmost occurrence is the one at the front. */
  lemma {:induction false} SplitOnePiece(x: String, sep: String, rest: String)
    requires |sep| > 0 && sep[0] !in x
    ensures Split(x + sep + rest, sep) == [x] + Split(rest, sep)
  {
    var s := x + sep + rest;
    assert OccursAt(s, sep, |x|) by {
      assert s[|x|..|x| + |sep|] == sep;
    }
    forall j: nat | j < |x| ensures !OccursAt(s, sep, j) {
      assert s[j] == x[j];
    }
    var i := IndexOf(s, sep).value;
    assert i == |x|;
    assert s[..i] == x;
    assert s[i + |sep|..] == rest;
  }

  /** Splitting what was joined gives the parts back, when no part holds the separator's
      first character. */
  lemma {:induction false} SplitJoin(parts: seq<String>, sep: String)
    requires |sep| > 0 && |parts| >= 1
    requires forall k :: 0 <= k < |parts| ==> sep[0] !in parts[k]
    ensures Split(Join(parts, sep), sep) == parts
    decreases |parts|
  {
    if |parts| == 1 {
      NoSeparatorChar(parts[0], sep);
      SplitNoSeparator(parts[0], sep);
    } else {
      SplitJoin(parts[1..], sep);
      SplitOnePiece(parts[0], sep, Join(parts[1..], sep));
      assert parts == [parts[0]] + parts[1..];
    }
  }

  /** `s.replace(old, new)`: every non-overlapping occurrence of `old`, left to right,
      replaced by `new` (here `target` and `replacement`). */
  function Replace(s: String, target: String, replacement: String): (r: String)
    requires |target| > 0
    ensures |replacement| <= |target| ==> |r| <= |s|
    decreases |s|
  {
    match IndexOf(s, target)
    case None => s
    case Some(i) => s[..i] + replacement + Replace(s[i + |target|..], target, replacement)
  }

  /** Python's own identity `s.replace(old, new) == new.join(s.split(old))`. */
  lemma {:induction false} ReplaceIsJoinOfSplit(s: String, target: String, replacement: String)
    requires |target| > 0
    ensures Replace(s, target, replacement) == Join(Split(s, target), replacement)
    decreases |s|, 1
  {
    if IndexOf(s, target).None? {
      ReplaceJoinNoTarget(s, target, replacement);
    } else {
      ReplaceJoinStep(s, target, replacement);
    }
  }

  /** The base case of `ReplaceIsJoinOfSplit`: without the target, both sides are `s`. */
  lemma ReplaceJoinNoTarget(s: String, target: String, replacement: String)
    requires |target| > 0 && IndexOf(s, target).None?
    ensures Replace(s, target, replacement) == Join(Split(s, target), replacement)
  {
    assert Replace(s, target, replacement) == s;
    assert Split(s, target) == [s];
  }

  /** The inductive step of `ReplaceIsJoinOfSplit`: both sides cut at the leftmost
      occurrence and agree on the text after it. */
  lemma {:induction false} ReplaceJoinStep(s: String, target: String, replacement: String)
    requires |target| > 0 && IndexOf(s, target).Some?
    ensures Replace(s, target, replacement) == Join(Split(s, target), replacement)
    decreases |s|, 0
  {
    var i := IndexOf(s, target).value;
    var rest := s[i + |target|..];
    var tail := Split(rest, target);
    ReplaceIsJoinOfSplit(rest, target, replacement);
    ReplaceAtFirst(s, target, replacement);
    calc {
      Replace(s, target, replacement);
      s[..i] + replacement + Replace(rest, target, replacement);
      s[..i] + replacement + Join(tail, replacement);
      { JoinCons(s[..i], tail, replacement); }
      Join([s[..i]] + tail, replacement);
      { SplitAtFirst(s, target, i); }
      Join(Split(s, target), replacement);
    }
  }

  /** One step of a replacement: the text before the leftmost occurrence, the
      replacement, then the replacement in what follows. */
  lemma ReplaceAtFirst(s: String, target: String, replacement: String)
    requires |target| > 0 && IndexOf(s, target).Some?
    ensures var i := IndexOf(s, target).value;
      Replace(s, target, replacement) == s[..i] + replacement + Replace(s[i + |target|..], target, replacement)
  {
  }

  /** A string in which the target does not occur is left as it is. */
  lemma ReplaceWithoutTarget(s: String, target: String, replacement: String)
    requires |target| > 0 && !Contains(s, target)
    ensures Replace(s, target, replacement) == s
  {
  }

  /** The number of times `c` occurs in `s`. */
  function CountChar(s: String, c: char): nat {
    if s == [] then 0 else (if s[0] == c then 1 else 0) + CountChar(s[1..], c)
  }

  lemma {:induction false} CountCharAppend(a: String, b: String, c: char)
    ensures CountChar(a + b, c) == CountChar(a, c) + CountChar(b, c)
    decreases |a|
  {
    if a == [] {
      assert a + b == b;
    } else {
      assert (a + b)[1..] == a[1..] + b;
      CountCharAppend(a[1..], b, c);
    }
  }

  lemma {:induction false} CountCharAbsent(s: String, c: char)
    requires c !in s
    ensures CountChar(s, c) == 0
    decreases |s|
  {
    if s != [] {
      assert c !in s[1..];
      CountCharAbsent(s[1..], c);
    }
  }

  /** A one-character pattern that occurs nowhere before `n` leaves the character out
      of the first `n` characters. */
  lemma NoOccurrenceBefore(s: String, c: char, n: nat)
    requires n <= |s| && forall j: nat :: j < n ==> !OccursAt(s, [c], j)
    ensures c !in s[..n]
  {
    forall j | 0 <= j < n ensures s[..n][j] != c {
      assert s[j..j + 1] == [s[j]];
      assert !OccursAt(s, [c], j);
    }
  }

  /** Splitting on one character yields one piece more than there are occurrences of
      that character. */
  lemma {:induction false} SplitCharCount(s: String, c: char)
    ensures |Split(s, [c])| == CountChar(s, c) + 1
    decreases |s|
  {
    match IndexOf(s, [c])
    case None =>
      NoOccurrenceBefore(s, c, |s|);
      assert s[..|s|] == s;
      CountCharAbsent(s, c);
    case Some(i) =>
      SplitCharCount(s[i + 1..], c);
      SplitCharStep(s, c, i);
  }

  /** One step of a split on `c`: a piece, then the split of what follows the first
      `c`, which is also where counting resumes. */
  lemma SplitCharStep(s: String, c: char, i: nat)
    requires IndexOf(s, [c]) == Some(i)
    ensures |Split(s, [c])| == 1 + |Split(s[i + 1..], [c])|
    ensures CountChar(s, c) == 1 + CountChar(s[i + 1..], c)
  {
    assert s[i] == c by {
      assert s[i..i + 1] == [c];
    }
    NoOccurrenceBefore(s, c, i);
    CountCharFirst(s, c, i);
  }

  /** Counting from the first occurrence of `c`: one, plus those after it. */
  lemma CountCharFirst(s: String, c: char, i: nat)
    requires i < |s| && s[i] == c && c !in s[..i]
    ensures CountChar(s, c) == 1 + CountChar(s[i + 1..], c)
  {
    var rest := s[i + 1..];
    CountCharAbsent(s[..i], c);
    assert s == s[..i] + [c] + rest;
    CountCharAppend(s[..i] + [c], rest, c);
    CountCharAppend(s[..i], [c], c);
  }
}
