/**
 The per-record normalisation of a captured waveform file: the first
 field of each CSV row is stripped of surrounding whitespace and every
 `i` becomes `j`, turning a `1+2i` literal into Python's `1+2j` before it
 is parsed as a complex number.
 */
module Records {

  /** Python's `str.isspace`, listed by code point. */
  predicate IsSpace(c: char) {
    var n := c as int;
    (9 <= n <= 13) || (28 <= n <= 32) || n == 0x85 || n == 0xA0 || n == 0x1680
    || (0x2000 <= n <= 0x200A) || n == 0x2028 || n == 0x2029 || n == 0x202F
    || n == 0x205F || n == 0x3000
  }

  /** The end of the whitespace run starting at `i`: the first non-whitespace position at or after `i`. */
  function LeadingEnd(s: string, i: nat): (n: nat)
    requires i <= |s|
    ensures i <= n <= |s|
    ensures forall k :: i <= k < n ==> IsSpace(s[k])
    ensures n == |s| || !IsSpace(s[n])
    decreases |s| - i
  {
    if i < |s| && IsSpace(s[i]) then LeadingEnd(s, i + 1) else i
  }

  /** The start of the whitespace run ending at `j`, going no lower than `lo`. */
  function TrailingStart(s: string, lo: nat, j: nat): (m: nat)
    requires lo <= j <= |s|
    ensures lo <= m <= j
    ensures forall k :: m <= k < j ==> IsSpace(s[k])
    ensures m == lo || !IsSpace(s[m - 1])
  {
    if lo < j && IsSpace(s[j - 1]) then TrailingStart(s, lo, j - 1) else j
  }

  /** `r` is the slice `s[lo..lo + |r|]` and everything around it is whitespace. */
  predicate IsCoreOf(s: string, r: string, lo: nat) {
    lo + |r| <= |s| && r == s[lo..lo + |r|]
    && (forall i :: 0 <= i < lo ==> IsSpace(s[i]))
    && (forall i :: lo + |r| <= i < |s| ==> IsSpace(s[i]))
  }

  /** A string that neither starts nor ends with whitespace. */
  predicate Trimmed(r: string) {
    |r| == 0 || (!IsSpace(r[0]) && !IsSpace(r[|r| - 1]))
  }

  /**
   The bounds `str.strip()` keeps: leading whitespace is skipped first,
   then trailing whitespace down to that point.
   */
  function StripBounds(s: string): (b: (nat, nat))
    ensures b.0 <= b.1 <= |s|
    ensures IsCoreOf(s, s[b.0..b.1], b.0)
    ensures Trimmed(s[b.0..b.1])
  {
    var lo := LeadingEnd(s, 0);
    (lo, TrailingStart(s, lo, |s|))
  }

  /** `str.strip()`: the whitespace-free core of `s`. */
  function Strip(s: string): (r: string)
    ensures Trimmed(r)
    ensures exists lo :: IsCoreOf(s, r, lo)
  {
    var b := StripBounds(s);
    s[b.0..b.1]
  }

  /** A string that is already trimmed keeps all of itself. */
  lemma StripBoundsTrimmed(s: string)
    requires Trimmed(s)
    ensures StripBounds(s) == (0, |s|)
  {
    assert LeadingEnd(s, 0) == 0;
  }

  /** A string that is already trimmed comes back from `strip` unchanged. */
  lemma StripTrimmed(s: string)
    requires Trimmed(s)
    ensures Strip(s) == s
  {
    StripBoundsTrimmed(s);
    assert s[0..|s|] == s;
  }

  /** The trimmed core is unique: any non-empty trimmed slice surrounded by whitespace is `Strip(s)`. */
  lemma StripUnique(s: string, r: string, lo: nat)
    requires Trimmed(r) && IsCoreOf(s, r, lo)
    requires |r| > 0
    ensures Strip(s) == r
  {
    var b := StripBounds(s);
    var hi := lo + |r|;
    assert !IsSpace(s[lo]) && !IsSpace(s[hi - 1]) by {
      assert r[0] == s[lo] && r[|r| - 1] == s[hi - 1];
    }
    assert b.0 <= lo < b.1;
    assert !IsSpace(s[b.0]) && !IsSpace(s[b.1 - 1]) by {
      var t := s[b.0..b.1];
      assert t[0] == s[b.0] && t[|t| - 1] == s[b.1 - 1];
    }
    assert b.0 == lo;
    assert b.1 == hi;
  }

  /** Stripping twice is stripping once. */
  lemma StripIdempotent(s: string)
    ensures Strip(Strip(s)) == Strip(s)
  {
    StripTrimmed(Strip(s));
  }

  /** `str.replace(a, b)` for single characters. */
  function ReplaceChar(s: string, a: char, b: char): (r: string)
    ensures |r| == |s|
    ensures forall i :: 0 <= i < |s| ==> r[i] == if s[i] == a then b else s[i]
  {
    if |s| == 0 then [] else ReplaceChar(s[..|s| - 1], a, b) + [if s[|s| - 1] == a then b else s[|s| - 1]]
  }

  /** After replacing `a` by a different `b` no `a` is left. */
  lemma ReplaceRemoves(s: string, a: char, b: char)
    requires a != b
    ensures forall i :: 0 <= i < |s| ==> ReplaceChar(s, a, b)[i] != a
  {
  }

  /**
   `r` is the slice of `field` starting at `lo`, with every `i` turned into
   `j`, and everything around the slice is whitespace.
   */
  predicate NormalisedAt(field: string, r: string, lo: nat) {
    lo + |r| <= |field|
    && (forall i :: 0 <= i < lo ==> IsSpace(field[i]))
    && (forall i :: lo + |r| <= i < |field| ==> IsSpace(field[i]))
    && forall i :: 0 <= i < |r| ==> r[i] == if field[lo + i] == 'i' then 'j' else field[lo + i]
  }

  /**
   The record text handed to `complex()`: stripped, with every `i` turned
   into `j`; every other character of the core is kept in place.
   */
  function Normalise(field: string): (r: string)
    ensures Trimmed(r)
    ensures forall i :: 0 <= i < |r| ==> r[i] != 'i'
    ensures exists lo :: NormalisedAt(field, r, lo)
  {
    var b := StripBounds(field);
    var core := field[b.0..b.1];
    var r := ReplaceChar(core, 'i', 'j');
    assert NormalisedAt(field, r, b.0) by {
      assert forall i :: 0 <= i < |core| ==> core[i] == field[b.0 + i];
    }
    ReplaceTrimmed(core);
    r
  }

  /** Turning `i` into `j` keeps a trimmed string trimmed: neither is whitespace. */
  lemma ReplaceTrimmed(s: string)
    requires Trimmed(s)
    ensures Trimmed(ReplaceChar(s, 'i', 'j'))
  {
    assert !IsSpace('j');
  }

  /** Normalising a normalised record changes nothing. */
  lemma NormaliseIdempotent(field: string)
    ensures Normalise(Normalise(field)) == Normalise(field)
  {
    var r := Normalise(field);
    StripBoundsTrimmed(r);
    assert r[0..|r|] == r;
    assert ReplaceChar(r, 'i', 'j') == r;
  }
}
