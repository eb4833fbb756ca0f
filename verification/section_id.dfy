/**
 The identifier of one section of one source file: the key `"{file_id}_{section_idx}"`
 and its rendering of the index in decimal. The 8-hex-digit digest of the key that names
 the output file is supplied by the caller (see `External.Oracles`).
 */
module SectionId {
  import opened Strings

  predicate IsDigit(c: char) {
    '0' <= c <= '9'
  }

  predicate IsDigits(s: String) {
    forall i :: 0 <= i < |s| ==> IsDigit(s[i])
  }

  function Digit(d: nat): (c: char)
    requires d < 10
    ensures IsDigit(c) && c as int - '0' as int == d
  {
    ('0' as int + d) as char
  }

  /** `str(n)`: the decimal digits of `n`, most significant first, without leading
      zeros. */
  function Decimal(n: nat): (s: String)
    ensures |s| >= 1 && IsDigits(s)
    ensures s[0] == '0' ==> n == 0
    decreases n
  {
    if n < 10 then [Digit(n)] else Decimal(n / 10) + [Digit(n % 10)]
  }

  /** The number a string of decimal digits denotes. */
  function DigitsValue(s: String): nat
    requires IsDigits(s)
    decreases |s|
  {
    if s == [] then 0 else DigitsValue(s[..|s| - 1]) * 10 + (s[|s| - 1] as int - '0' as int)
  }

  /** Reading the decimal rendering back gives the number. */
  lemma {:induction false} DecimalRoundTrip(n: nat)
    ensures DigitsValue(Decimal(n)) == n
    decreases n
  {
    if n >= 10 {
      DecimalRoundTrip(n / 10);
      var s := Decimal(n);
      assert s[..|s| - 1] == Decimal(n / 10);
    }
  }

  lemma DecimalInjective(a: nat, b: nat)
    requires Decimal(a) == Decimal(b)
    ensures a == b
  {
    DecimalRoundTrip(a);
    DecimalRoundTrip(b);
  }

  /** `f"{file_id}_{section_idx}"`. */
  function SectionKey(fileId: String, index: nat): (key: String)
    ensures |key| > |fileId| + 1 && key[..|fileId|] == fileId && key[|fileId|] == '_'
  {
    fileId + "_" + Decimal(index)
  }

  /** The last `_` of a key is the one before the index, because the index is all
      digits. */
  lemma {:induction false} KeySeparator(fileId: String, index: nat)
    ensures forall i :: |fileId| < i < |SectionKey(fileId, index)| ==> SectionKey(fileId, index)[i] != '_'
  {
    var d := Decimal(index);
    var key := SectionKey(fileId, index);
    forall i | |fileId| < i < |key| ensures key[i] != '_' {
      assert key[i] == d[i - |fileId| - 1];
    }
  }

  /** Distinct (file, section) pairs have distinct keys: the key determines both the
      file identifier and the section index. */
  lemma {:induction false} SectionKeyInjective(f1: String, a: nat, f2: String, b: nat)
    requires SectionKey(f1, a) == SectionKey(f2, b)
    ensures f1 == f2 && a == b
  {
    var key := SectionKey(f1, a);
    KeySeparator(f1, a);
    KeySeparator(f2, b);
    assert |f1| <= |f2| by {
      assert key[|f2|] == '_';
    }
    assert |f2| <= |f1| by {
      assert key[|f1|] == '_';
    }
    assert f1 == key[..|f1|] == f2;
    assert Decimal(a) == key[|f1| + 1..] == Decimal(b);
    DecimalInjective(a, b);
  }
}
