/**
 Aggregation across frequency hypotheses: draining the result queue into a
 dictionary keyed `fshift_<val>` (`get_all_fshift_corr`), the global argmax
 over that dictionary (`max_fshift_corr`), and the two together
 (`process_max_corr`).
 */
module Aggregator {
  import opened Wrappers
  import ArgMax
  import Decimal
  import opened Evaluator

  /** The record stored in the dictionary for one hypothesis. */
  datatype Entry = Entry(fshiftData: int, nid2: nat, corrInd: nat, corrVal: nat)

  /** The key `fshift_<val>`. */
  function FshiftKey(fshift: int): string {
    "fshift_" + Decimal.IntToString(fshift)
  }

  /** A key is the prefix followed by text that reads back to its offset. */
  lemma FshiftKeyReadsBack(fshift: int)
    ensures |FshiftKey(fshift)| > 7 && FshiftKey(fshift)[..7] == "fshift_"
    ensures Decimal.ParseInt(FshiftKey(fshift)[7..]) == fshift
  {
    Decimal.ParseIntToString(fshift);
    assert FshiftKey(fshift)[7..] == Decimal.IntToString(fshift);
  }

  /** The keys the search actually builds, rendered as Python renders them. */
  lemma KeyRenderings()
    ensures FshiftKey(0) == "fshift_0" && FshiftKey(15000) == "fshift_15000"
    ensures FshiftKey(-15000) == "fshift_-15000"
    ensures PssBank.PssKey(0) == "NID2_0" && PssBank.PssKey(2) == "NID2_2"
  {
  }

  /** Distinct hypotheses never share a key. */
  lemma FshiftKeyInjective(a: int, b: int)
    ensures FshiftKey(a) == FshiftKey(b) ==> a == b
  {
    if FshiftKey(a) == FshiftKey(b) {
      assert Decimal.IntToString(a) == FshiftKey(a)[7..];
      assert Decimal.IntToString(b) == FshiftKey(b)[7..];
      Decimal.IntToStringInjective(a, b);
    }
  }

  /** The dictionary record built from a payload: `int()`/`float()` change nothing here. */
  function EntryOf(p: Payload): Entry {
    Entry(p.fshift, p.nid2, p.ind, p.val)
  }

  /**
   A Python dictionary: its keys in insertion order and the value of each.
   Assigning to a key that is already there replaces the value and keeps the
   key's place; a new key goes to the end.
   */
  datatype Dict = Dict(order: seq<string>, vals: map<string, Entry>)

  /** Each key is listed once, and the listed keys are the keys that have values. */
  predicate Valid(d: Dict) {
    && (forall i, j :: 0 <= i < j < |d.order| ==> d.order[i] != d.order[j])
    && d.vals.Keys == set k | k in d.order
  }

  /** `d[k] = e`. */
  function Put(d: Dict, k: string, e: Entry): (r: Dict)
    requires Valid(d)
    ensures Valid(r)
  {
    if k in d.vals then Dict(d.order, d.vals[k := e]) else Dict(d.order + [k], d.vals[k := e])
  }

  /** No later payload in `q` carries the same hypothesis as `q[i]`. */
  predicate IsLastFor(q: seq<Payload>, i: nat)
    requires i < |q|
  {
    forall j :: i < j < |q| ==> q[j].fshift != q[i].fshift
  }

  /** `get_all_fshift_corr`: every payload in arrival order, each stored under its key. */
  function GetAllFshiftCorr(q: seq<Payload>): (d: Dict)
    ensures Valid(d)
  {
    if |q| == 0 then Dict([], map[])
    else
      var p := q[|q| - 1];
      Put(GetAllFshiftCorr(q[..|q| - 1]), FshiftKey(p.fshift), EntryOf(p))
  }

  /** One more payload: its key gets its entry, and is appended if it is new. */
  lemma DrainStep(q: seq<Payload>)
    requires |q| > 0
    ensures var p := q[|q| - 1];
            var d' := GetAllFshiftCorr(q[..|q| - 1]);
            && GetAllFshiftCorr(q).vals == d'.vals[FshiftKey(p.fshift) := EntryOf(p)]
            && GetAllFshiftCorr(q).order ==
                 if FshiftKey(p.fshift) in d'.vals then d'.order else d'.order + [FshiftKey(p.fshift)]
  {
    var p := q[|q| - 1];
    assert GetAllFshiftCorr(q) == Put(GetAllFshiftCorr(q[..|q| - 1]), FshiftKey(p.fshift), EntryOf(p));
  }

  /** The drained dictionary holds a key exactly when some payload carries that hypothesis. */
  lemma {:induction false} DrainKeys(q: seq<Payload>)
    ensures forall k :: k in GetAllFshiftCorr(q).vals <==> exists i :: 0 <= i < |q| && FshiftKey(q[i].fshift) == k
  {
    if |q| > 0 {
      var q' := q[..|q| - 1];
      var p := q[|q| - 1];
      DrainKeys(q');
      DrainStep(q);
      forall k | k in GetAllFshiftCorr(q).vals
        ensures exists i :: 0 <= i < |q| && FshiftKey(q[i].fshift) == k
      {
        if k != FshiftKey(p.fshift) {
          var i :| 0 <= i < |q'| && FshiftKey(q'[i].fshift) == k;
          assert q[i] == q'[i];
        } else {
          assert FshiftKey(q[|q| - 1].fshift) == k;
        }
      }
      forall k | exists i :: 0 <= i < |q| && FshiftKey(q[i].fshift) == k
        ensures k in GetAllFshiftCorr(q).vals
      {
        var i :| 0 <= i < |q| && FshiftKey(q[i].fshift) == k;
        if i < |q| - 1 {
          assert q'[i] == q[i];
        }
      }
    }
  }

  /**
   Under each key the dictionary holds the fields of the last payload of that
   hypothesis: a later payload overwrites an earlier one.
   */
  lemma {:induction false} DrainLastWins(q: seq<Payload>)
    ensures forall i :: 0 <= i < |q| && IsLastFor(q, i) ==>
              FshiftKey(q[i].fshift) in GetAllFshiftCorr(q).vals
              && GetAllFshiftCorr(q).vals[FshiftKey(q[i].fshift)] == EntryOf(q[i])
  {
    if |q| > 0 {
      var q' := q[..|q| - 1];
      var p := q[|q| - 1];
      DrainLastWins(q');
      DrainStep(q);
      forall i | 0 <= i < |q| && IsLastFor(q, i)
        ensures FshiftKey(q[i].fshift) in GetAllFshiftCorr(q).vals
        ensures GetAllFshiftCorr(q).vals[FshiftKey(q[i].fshift)] == EntryOf(q[i])
      {
        if i < |q| - 1 {
          FshiftKeyInjective(q[i].fshift, p.fshift);
          assert q[i] == q'[i];
          assert IsLastFor(q', i);
        }
      }
    }
  }

  /** The index of the first payload at or after `i` with hypothesis key `k`, or `|q|` when none has it. */
  function FirstFrom(q: seq<Payload>, k: string, i: nat): (f: nat)
    requires i <= |q|
    ensures i <= f <= |q|
    ensures f < |q| ==> FshiftKey(q[f].fshift) == k
    ensures forall j :: i <= j < f ==> FshiftKey(q[j].fshift) != k
    decreases |q| - i
  {
    if i == |q| then |q|
    else if FshiftKey(q[i].fshift) == k then i
    else FirstFrom(q, k, i + 1)
  }

  /** The index of the first payload of hypothesis key `k`, or `|q|` when none has it. */
  function FirstArrival(q: seq<Payload>, k: string): (i: nat)
    ensures i <= |q|
    ensures i < |q| ==> FshiftKey(q[i].fshift) == k
    ensures forall j :: 0 <= j < i ==> FshiftKey(q[j].fshift) != k
  {
    FirstFrom(q, k, 0)
  }

  /** A key carried by an earlier payload keeps its first arrival when one more arrives. */
  lemma FirstArrivalKept(q: seq<Payload>, k: string, a: nat)
    requires a < |q| - 1 && FshiftKey(q[a].fshift) == k
    ensures FirstArrival(q, k) == FirstArrival(q[..|q| - 1], k) <= a
  {
    var q' := q[..|q| - 1];
    assert forall j :: 0 <= j < |q'| ==> q'[j] == q[j];
    var f, f' := FirstArrival(q, k), FirstArrival(q', k);
    assert f <= a && f' <= a;
    assert FshiftKey(q[f].fshift) == k && FshiftKey(q'[f'].fshift) == k;
  }

  /** A key no earlier payload carried first arrives with the last payload. */
  lemma FirstArrivalNew(q: seq<Payload>, k: string)
    requires |q| > 0 && FshiftKey(q[|q| - 1].fshift) == k
    requires forall a :: 0 <= a < |q| - 1 ==> FshiftKey(q[a].fshift) != k
    ensures FirstArrival(q, k) == |q| - 1
  {
  }

  /** `order` lists keys in strictly increasing order of first arrival in `q`, each arriving in `q`. */
  predicate InArrivalOrder(q: seq<Payload>, order: seq<string>) {
    forall i, j :: 0 <= i < j < |order| ==> FirstArrival(q, order[i]) < FirstArrival(q, order[j]) < |q|
  }

  /** Keys already drained keep their first arrival, and their order, when one more payload arrives. */
  lemma KeptKeysArrival(q: seq<Payload>, q': seq<Payload>, order': seq<string>)
    requires |q| > 0 && q' == q[..|q| - 1] && order' == GetAllFshiftCorr(q').order
    requires InArrivalOrder(q', order')
    ensures forall i :: 0 <= i < |order'| ==> FirstArrival(q, order'[i]) < |q| - 1
    ensures forall i, j :: 0 <= i < j < |order'| ==> FirstArrival(q, order'[i]) < FirstArrival(q, order'[j])
  {
    var d' := GetAllFshiftCorr(q');
    DrainKeys(q');
    forall i | 0 <= i < |order'|
      ensures FirstArrival(q, order'[i]) == FirstArrival(q', order'[i]) < |q'|
    {
      var k := order'[i];
      assert k in d'.vals;
      var a :| 0 <= a < |q'| && FshiftKey(q'[a].fshift) == k;
      assert q[a] == q'[a];
      FirstArrivalKept(q, k, a);
    }
  }

  /** A key not yet drained first arrives with the last payload. */
  lemma NewKeyArrival(q: seq<Payload>)
    requires |q| > 0
    requires FshiftKey(q[|q| - 1].fshift) !in GetAllFshiftCorr(q[..|q| - 1]).vals
    ensures FirstArrival(q, FshiftKey(q[|q| - 1].fshift)) == |q| - 1
  {
    var q' := q[..|q| - 1];
    var kp := FshiftKey(q[|q| - 1].fshift);
    DrainKeys(q');
    forall a | 0 <= a < |q| - 1
      ensures FshiftKey(q[a].fshift) != kp
    {
      assert q[a] == q'[a];
    }
    FirstArrivalNew(q, kp);
  }

  /** One more payload keeps the key order the order of first arrival. */
  lemma DrainKeyOrderStep(q: seq<Payload>)
    requires |q| > 0
    requires InArrivalOrder(q[..|q| - 1], GetAllFshiftCorr(q[..|q| - 1]).order)
    ensures InArrivalOrder(q, GetAllFshiftCorr(q).order)
  {
    var q' := q[..|q| - 1];
    var kp := FshiftKey(q[|q| - 1].fshift);
    var d' := GetAllFshiftCorr(q');
    var order := GetAllFshiftCorr(q).order;
    KeptKeysArrival(q, q', d'.order);
    assert kp !in d'.vals ==> FirstArrival(q, kp) == |q| - 1 by {
      if kp !in d'.vals {
        NewKeyArrival(q);
      }
    }
    assert order == if kp in d'.vals then d'.order else d'.order + [kp] by {
      DrainStep(q);
    }
    OrderStepDict(q, d'.order, d'.vals, kp, order);
  }

  /** The key-order step on the key lists alone. */
  lemma OrderStepDict(q: seq<Payload>, order': seq<string>, vals': map<string, Entry>, kp: string, order: seq<string>)
    requires |q| > 0
    requires forall i :: 0 <= i < |order'| ==> FirstArrival(q, order'[i]) < |q| - 1
    requires forall i, j :: 0 <= i < j < |order'| ==> FirstArrival(q, order'[i]) < FirstArrival(q, order'[j])
    requires kp !in vals' ==> FirstArrival(q, kp) == |q| - 1
    requires order == if kp in vals' then order' else order' + [kp]
    ensures InArrivalOrder(q, order)
  {
    forall i, j | 0 <= i < j < |order|
      ensures FirstArrival(q, order[i]) < FirstArrival(q, order[j]) < |q|
    {
      assert order[i] == order'[i];
      if j < |order'| {
        assert order[j] == order'[j];
      }
    }
  }

  /**
   The dictionary lists its keys in order of first arrival, so a tie in the
   global argmax goes to the hypothesis whose payload arrived first.
   */
  lemma {:induction false} DrainKeyOrder(q: seq<Payload>)
    ensures InArrivalOrder(q, GetAllFshiftCorr(q).order)
  {
    if |q| > 0 {
      DrainKeyOrder(q[..|q| - 1]);
      DrainKeyOrderStep(q);
    }
  }

  /** What `max_fshift_corr` returns: `(sel_fshift, sel_NID2, sel_corr_ind, sel_corr_val)`. */
  datatype Selection = Selection(fshift: string, nid2: nat, ind: nat, val: nat)

  /** The selection a single payload would produce. */
  function SelectionOf(p: Payload): Selection {
    Selection(FshiftKey(p.fshift), p.nid2, p.ind, p.val)
  }

  /** `[x['fshift_corr_val'] for x in fshift_corr.values()]`, in key order. */
  function CorrVals(d: Dict): (vs: seq<int>)
    requires Valid(d)
    ensures |vs| == |d.order|
  {
    seq(|d.order|, i requires 0 <= i < |d.order| => d.vals[d.order[i]].corrVal)
  }

  /**
   `s` reports the key at position `i` with that key's own fields, and `i`
   is the first position of largest `corr_val`.
   */
  predicate SelectedAt(d: Dict, i: nat, s: Selection)
    requires Valid(d)
  {
    && i < |d.order|
    && s.fshift == d.order[i]
    && s.nid2 == d.vals[d.order[i]].nid2
    && s.ind == d.vals[d.order[i]].corrInd
    && s.val == d.vals[d.order[i]].corrVal
    && ArgMax.IsFirstMax(CorrVals(d), i)
  }

  /**
   `max_fshift_corr`: the key of largest `corr_val`, ties going to the key
   inserted first, with the fields stored under that key. An empty
   dictionary makes `np.argmax` raise.
   */
  function MaxFshiftCorr(d: Dict): (res: Result<Selection>)
    requires Valid(d)
    ensures res.Err? <==> |d.order| == 0
    ensures res.Err? ==> res.error == EmptyArgMax
    ensures res.Ok? ==> exists i :: SelectedAt(d, i, res.value)
  {
    if |d.order| == 0 then Err(EmptyArgMax)
    else
      var i := ArgMax.ArgMax(CorrVals(d));
      var sel := d.order[i];
      assert sel in d.vals;
      var e := d.vals[sel];
      var s := Selection(sel, e.nid2, e.corrInd, e.corrVal);
      assert SelectedAt(d, i, s);
      Ok(s)
  }

  /** Every payload has a last payload of the same hypothesis at or after it. */
  lemma ExistsLast(q: seq<Payload>, a: nat)
    requires a < |q|
    ensures exists b :: a <= b < |q| && q[b].fshift == q[a].fshift && IsLastFor(q, b)
    decreases |q| - a
  {
    if !IsLastFor(q, a) {
      var j :| a < j < |q| && q[j].fshift == q[a].fshift;
      ExistsLast(q, j);
    }
  }

  /** A selection made from the drained dictionary is that of a payload no later payload overwrote. */
  lemma SelectionIsLastPayload(q: seq<Payload>, i: nat, s: Selection)
    requires SelectedAt(GetAllFshiftCorr(q), i, s)
    ensures exists a :: 0 <= a < |q| && IsLastFor(q, a) && s == SelectionOf(q[a])
  {
    var d := GetAllFshiftCorr(q);
    var k := d.order[i];
    assert exists a0 :: 0 <= a0 < |q| && FshiftKey(q[a0].fshift) == k by {
      assert k in d.vals;
      DrainKeys(q);
    }
    var a0 :| 0 <= a0 < |q| && FshiftKey(q[a0].fshift) == k;
    ExistsLast(q, a0);
    var a :| a0 <= a < |q| && q[a].fshift == q[a0].fshift && IsLastFor(q, a);
    assert d.vals[k] == EntryOf(q[a]) by {
      DrainLastWins(q);
    }
    SelectionMatches(d, i, s, q[a]);
  }

  /** The selection at a key holding a payload's entry is that payload's selection. */
  lemma SelectionMatches(d: Dict, i: nat, s: Selection, p: Payload)
    requires Valid(d) && SelectedAt(d, i, s)
    requires FshiftKey(p.fshift) == d.order[i] && d.vals[d.order[i]] == EntryOf(p)
    ensures s == SelectionOf(p)
  {
  }

  /** The value of a selection made from the drained dictionary bounds every surviving payload. */
  lemma SelectionBoundsLast(q: seq<Payload>, i: nat, s: Selection)
    requires SelectedAt(GetAllFshiftCorr(q), i, s)
    ensures forall j :: 0 <= j < |q| && IsLastFor(q, j) ==> q[j].val <= s.val
  {
    forall j | 0 <= j < |q| && IsLastFor(q, j)
      ensures q[j].val <= s.val
    {
      SurvivorBounded(q, i, s, j);
    }
  }

  lemma SurvivorBounded(q: seq<Payload>, i: nat, s: Selection, j: nat)
    requires SelectedAt(GetAllFshiftCorr(q), i, s)
    requires j < |q| && IsLastFor(q, j)
    ensures q[j].val <= s.val
  {
    DrainLastWins(q);
    SelectedBoundsAll(GetAllFshiftCorr(q), i, s, FshiftKey(q[j].fshift));
  }

  /** The selected value bounds the value under every key. */
  lemma SelectedBoundsAll(d: Dict, i: nat, s: Selection, k: string)
    requires Valid(d) && SelectedAt(d, i, s) && k in d.vals
    ensures d.vals[k].corrVal <= s.val
  {
    var vs := CorrVals(d);
    assert k in d.order;
    var pos :| 0 <= pos < |d.order| && d.order[pos] == k;
    assert vs[pos] == d.vals[k].corrVal;
  }

  lemma SelectionFromLast(q: seq<Payload>, s: Selection)
    requires exists i :: SelectedAt(GetAllFshiftCorr(q), i, s)
    ensures exists a :: 0 <= a < |q| && IsLastFor(q, a) && s == SelectionOf(q[a])
    ensures forall j :: 0 <= j < |q| && IsLastFor(q, j) ==> q[j].val <= s.val
  {
    var i :| SelectedAt(GetAllFshiftCorr(q), i, s);
    SelectionIsLastPayload(q, i, s);
    SelectionBoundsLast(q, i, s);
  }

  /**
   `process_max_corr`: drain the queue, then select. The result is an error
   exactly when the queue is empty; otherwise it is the selection of one
   payload that no later payload overwrote, with the largest value among them.
   */
  function ProcessMaxCorr(q: seq<Payload>): (res: Result<Selection>)
    ensures res.Err? <==> |q| == 0
    ensures res.Err? ==> res.error == EmptyArgMax
    ensures res.Ok? ==> exists a :: 0 <= a < |q| && IsLastFor(q, a) && res.value == SelectionOf(q[a])
    ensures res.Ok? ==> forall j :: 0 <= j < |q| && IsLastFor(q, j) ==> q[j].val <= res.value.val
  {
    var d := GetAllFshiftCorr(q);
    DrainNonEmpty(q);
    var res := MaxFshiftCorr(d);
    if res.Ok? then SelectionFromLast(q, res.value); res else res
  }

  /** A non-empty queue drains into a non-empty dictionary. */
  lemma DrainNonEmpty(q: seq<Payload>)
    ensures |GetAllFshiftCorr(q).order| == 0 <==> |q| == 0
  {
    DrainKeys(q);
    if |q| > 0 {
      assert FshiftKey(q[0].fshift) in GetAllFshiftCorr(q).vals;
    }
  }

  /** A selected position comes no later than any other position holding the same value. */
  lemma SelectedFirstAmongTies(d: Dict, i: nat, s: Selection, pos: nat)
    requires Valid(d) && SelectedAt(d, i, s)
    requires pos < |d.order| && d.vals[d.order[pos]].corrVal == s.val
    ensures i <= pos
  {
    assert CorrVals(d)[pos] == CorrVals(d)[i];
  }

  /**
   Ties across hypotheses: every surviving payload whose value equals the
   selected one belongs to a hypothesis that arrived no earlier than the
   selected hypothesis did.
   */
  lemma ProcessMaxCorrTieBreak(q: seq<Payload>, j: nat)
    requires j < |q| && IsLastFor(q, j)
    ensures MaxFshiftCorr(GetAllFshiftCorr(q)).Ok?
    ensures q[j].val == MaxFshiftCorr(GetAllFshiftCorr(q)).value.val ==>
              FirstArrival(q, MaxFshiftCorr(GetAllFshiftCorr(q)).value.fshift) <= FirstArrival(q, FshiftKey(q[j].fshift))
  {
    DrainNonEmpty(q);
    DrainLastWins(q);
    DrainKeyOrder(q);
    TieBreakOnDict(q, GetAllFshiftCorr(q), FshiftKey(q[j].fshift), q[j].val);
  }

  /** The tie-break on a dictionary whose keys are listed in order of first arrival. */
  lemma TieBreakOnDict(q: seq<Payload>, d: Dict, k: string, v: nat)
    requires Valid(d) && |d.order| > 0 && InArrivalOrder(q, d.order)
    requires k in d.vals && d.vals[k].corrVal == v
    ensures MaxFshiftCorr(d).Ok?
    ensures v == MaxFshiftCorr(d).value.val ==> FirstArrival(q, MaxFshiftCorr(d).value.fshift) <= FirstArrival(q, k)
  {
    var s := MaxFshiftCorr(d).value;
    var i :| SelectedAt(d, i, s);
    var pos := KeyPosition(d, k);
    if v == s.val {
      TieBreakDict(q, d, i, s, pos);
    }
  }

  /** Every key with a value has a place in the key order. */
  lemma KeyPosition(d: Dict, k: string) returns (pos: nat)
    requires Valid(d) && k in d.vals
    ensures pos < |d.order| && d.order[pos] == k
  {
    assert k in d.order;
    pos :| 0 <= pos < |d.order| && d.order[pos] == k;
  }

  lemma TieBreakDict(q: seq<Payload>, d: Dict, i: nat, s: Selection, pos: nat)
    requires Valid(d) && SelectedAt(d, i, s)
    requires forall a, b :: 0 <= a < b < |d.order| ==> FirstArrival(q, d.order[a]) < FirstArrival(q, d.order[b])
    requires pos < |d.order| && d.vals[d.order[pos]].corrVal == s.val
    ensures FirstArrival(q, s.fshift) <= FirstArrival(q, d.order[pos])
  {
    SelectedFirstAmongTies(d, i, s, pos);
  }
}
