/** `np.argmax` on a one-dimensional sequence: the first index holding the maximum. */
module ArgMax {

  /** `i` holds a largest element of `s`, and no earlier index holds one. */
  predicate IsFirstMax(s: seq<int>, i: nat) {
    && i < |s|
    && (forall j :: 0 <= j < |s| ==> s[j] <= s[i])
    && (forall j :: 0 <= j < i ==> s[j] < s[i])
  }

  /** Scans left to right and moves only on a strictly larger element, as numpy does. */
  function ArgMax(s: seq<int>): (i: nat)
    requires |s| > 0
    ensures IsFirstMax(s, i)
  {
    if |s| == 1 then 0
    else
      var i := ArgMax(s[..|s| - 1]);
      if s[|s| - 1] > s[i] then |s| - 1 else i
  }

  /** The first maximum is unique, so any index with that property is the argmax. */
  lemma FirstMaxUnique(s: seq<int>, i: nat, j: nat)
    requires IsFirstMax(s, i) && IsFirstMax(s, j)
    ensures i == j
  {
    assert s[i] <= s[j] && s[j] <= s[i];
  }
}
