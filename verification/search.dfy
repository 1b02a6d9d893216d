/**
 The parallel search of `__main__`: one worker per frequency hypothesis,
 the queue they fill, and the completion gate that lets aggregation run
 only when the queue holds one result per hypothesis. The queue is the
 sequence of published payloads in arrival order; which order the
 processes finish in is not fixed, so it is left free, tied to the
 workers only by holding the same payloads.
 */
module Search {
  import opened Wrappers
  import opened Iq
  import opened Evaluator
  import opened Aggregator

  /** The frequency hypotheses of the search, in Hz. */
  const Fshifts: seq<int> := [0, 15000, 30000, 45000]

  /** The four hypotheses are distinct. */
  lemma FshiftsDistinct()
    ensures forall i, j :: 0 <= i < j < |Fshifts| ==> Fshifts[i] != Fshifts[j]
  {
    assert Fshifts == [0, 15000, 30000, 45000];
  }

  /** What each worker ends with: a published payload, or a failure that publishes nothing. */
  function RunWorkers(fshifts: seq<int>, prepare: int -> seq<Complex>, refs: map<string, seq<Complex>>): (outs: seq<Result<Payload>>)
    ensures |outs| == |fshifts|
    ensures forall i :: 0 <= i < |fshifts| ==> outs[i] == Worker(fshifts[i], prepare, refs)
    ensures forall i :: 0 <= i < |outs| ==>
              (outs[i].Ok? <==> forall n :: 0 <= n < 3 ==> Correlator.Usable(prepare(fshifts[i]), refs, n))
    ensures forall i :: 0 <= i < |outs| && outs[i].Ok? ==> outs[i].value.fshift == fshifts[i]
  {
    seq(|fshifts|, i requires 0 <= i < |fshifts| => Worker(fshifts[i], prepare, refs))
  }

  /** The payloads of the workers that published, in worker order. */
  function Published(outs: seq<Result<Payload>>): (ps: seq<Payload>)
    ensures |ps| <= |outs|
    ensures forall p :: p in ps <==> exists i :: 0 <= i < |outs| && outs[i] == Ok(p)
  {
    if |outs| == 0 then []
    else
      var rest := Published(outs[..|outs| - 1]);
      assert forall i :: 0 <= i < |outs| - 1 ==> outs[..|outs| - 1][i] == outs[i];
      match outs[|outs| - 1]
      case Ok(p) => rest + [p]
      case Err(_) => rest
  }

  /** `queue` holds exactly the published payloads, in some arrival order. */
  predicate IsArrivalOrder(outs: seq<Result<Payload>>, queue: seq<Payload>) {
    multiset(queue) == multiset(Published(outs))
  }

  /**
   The gate after all workers are joined: aggregation runs only when the
   queue holds as many results as there are hypotheses; otherwise nothing
   is produced.
   */
  function Main(fshifts: seq<int>, queue: seq<Payload>): (r: Option<Result<Selection>>)
    ensures r.Some? <==> |queue| == |fshifts|
    ensures r.Some? ==> (r.value.Err? <==> |fshifts| == 0)
  {
    if |queue| == |fshifts| then Some(ProcessMaxCorr(queue)) else None
  }

  /** Every worker published exactly when nothing was dropped. */
  lemma {:induction false} PublishedAll(outs: seq<Result<Payload>>)
    ensures |Published(outs)| == |outs| <==> forall i :: 0 <= i < |outs| ==> outs[i].Ok?
    ensures (forall i :: 0 <= i < |outs| ==> outs[i].Ok?) ==>
              forall i :: 0 <= i < |outs| ==> Published(outs)[i] == outs[i].value
  {
    if |outs| > 0 {
      var init := outs[..|outs| - 1];
      PublishedAll(init);
      assert forall i :: 0 <= i < |init| ==> init[i] == outs[i];
      if outs[|outs| - 1].Ok? {
        assert Published(outs) == Published(init) + [outs[|outs| - 1].value];
      } else {
        assert Published(outs) == Published(init);
      }
    }
  }

  /** The gate opens exactly when every worker published its payload. */
  lemma GateOpensIffAllPublished(fshifts: seq<int>, outs: seq<Result<Payload>>, queue: seq<Payload>)
    requires |outs| == |fshifts|
    requires IsArrivalOrder(outs, queue)
    ensures Main(fshifts, queue).Some? <==> forall i :: 0 <= i < |outs| ==> outs[i].Ok?
  {
    assert |queue| == |multiset(queue)| == |Published(outs)|;
    PublishedAll(outs);
  }

  /** No two payloads of `q` are for the same hypothesis. */
  predicate DistinctFshifts(q: seq<Payload>) {
    forall i, j :: 0 <= i < j < |q| ==> q[i].fshift != q[j].fshift
  }

  /** With distinct hypotheses, no payload is overwritten. */
  lemma DistinctAllLast(q: seq<Payload>)
    requires DistinctFshifts(q)
    ensures forall i :: 0 <= i < |q| ==> IsLastFor(q, i)
  {
  }

  /** A payload that occurs twice counts twice. */
  lemma RepeatCountsTwice(b: seq<Payload>, j: nat, k: nat)
    requires j < k < |b|
    ensures b[j] == b[k] ==> multiset(b)[b[j]] >= 2
  {
    assert b == b[..k] + [b[k]] + b[k + 1..];
    assert b[..k][j] == b[j];
  }

  /** In a queue of distinct hypotheses each payload occurs once. */
  lemma DistinctCountsOnce(a: seq<Payload>, p: nat)
    requires DistinctFshifts(a) && p < |a|
    ensures multiset(a)[a[p]] == 1
  {
    assert a == a[..p] + [a[p]] + a[p + 1..];
    assert a[p] !in a[..p];
    assert a[p] !in a[p + 1..];
  }

  /** Rearranging a queue keeps its hypotheses distinct. */
  lemma DistinctUnderArrival(a: seq<Payload>, b: seq<Payload>)
    requires multiset(a) == multiset(b) && DistinctFshifts(a)
    ensures DistinctFshifts(b)
  {
    forall j, k | 0 <= j < k < |b|
      ensures b[j].fshift != b[k].fshift
    {
      assert b[j] in multiset(a) && b[k] in multiset(a);
      var p :| 0 <= p < |a| && a[p] == b[j];
      var p' :| 0 <= p' < |a| && a[p'] == b[k];
      DistinctCountsOnce(a, p);
      RepeatCountsTwice(b, j, k);
      assert p != p';
    }
  }

  /**
   With distinct hypotheses and a single payload of largest value, the
   global selection does not depend on the order the results arrived in.
   */
  lemma SelectionIndependentOfArrival(q1: seq<Payload>, q2: seq<Payload>, m: nat)
    requires multiset(q1) == multiset(q2) && DistinctFshifts(q1)
    requires m < |q1| && forall j :: 0 <= j < |q1| && j != m ==> q1[j].val < q1[m].val
    ensures ProcessMaxCorr(q1) == ProcessMaxCorr(q2) == Ok(SelectionOf(q1[m]))
  {
    DistinctUnderArrival(q1, q2);
    DistinctAllLast(q1);
    DistinctAllLast(q2);
    UniqueMaxSelected(q1, m);
    assert q1[m] in multiset(q2);
    var m2 :| 0 <= m2 < |q2| && q2[m2] == q1[m];
    forall j | 0 <= j < |q2| && j != m2
      ensures q2[j].val < q2[m2].val
    {
      assert q2[j] in multiset(q1);
      var a :| 0 <= a < |q1| && q1[a] == q2[j];
      DistinctCountsOnce(q1, m);
      RepeatCountsTwice(q2, if j < m2 then j else m2, if j < m2 then m2 else j);
      assert a != m;
    }
    UniqueMaxSelected(q2, m2);
  }

  /** A unique largest payload, never overwritten, is the one selected. */
  lemma UniqueMaxSelected(q: seq<Payload>, m: nat)
    requires DistinctFshifts(q)
    requires m < |q| && forall j :: 0 <= j < |q| && j != m ==> q[j].val < q[m].val
    ensures ProcessMaxCorr(q) == Ok(SelectionOf(q[m]))
  {
    DistinctAllLast(q);
    var s := ProcessMaxCorr(q).value;
    var a :| 0 <= a < |q| && IsLastFor(q, a) && s == SelectionOf(q[a]);
    assert q[m].val <= s.val;
  }

  /**
   Aggregating any arrival order of payloads with distinct hypotheses
   selects one of them, with a value at least every other's.
   */
  lemma BestOfArrival(ps: seq<Payload>, queue: seq<Payload>)
    requires multiset(queue) == multiset(ps) && DistinctFshifts(ps) && |ps| > 0
    ensures ProcessMaxCorr(queue).Ok?
    ensures exists w :: 0 <= w < |ps| && ProcessMaxCorr(queue).value == SelectionOf(ps[w])
    ensures forall i :: 0 <= i < |ps| ==> ps[i].val <= ProcessMaxCorr(queue).value.val
  {
    DistinctUnderArrival(ps, queue);
    DistinctAllLast(queue);
    assert |queue| == |multiset(queue)| == |ps|;
    var s := ProcessMaxCorr(queue).value;
    var a :| 0 <= a < |queue| && IsLastFor(queue, a) && s == SelectionOf(queue[a]);
    assert queue[a] in multiset(ps);
    var w :| 0 <= w < |ps| && ps[w] == queue[a];
    forall i | 0 <= i < |ps|
      ensures ps[i].val <= s.val
    {
      assert ps[i] in multiset(queue);
      var b :| 0 <= b < |queue| && queue[b] == ps[i];
    }
  }

  /**
   When every worker of distinct hypotheses publishes, the gate opens and
   the result is the selection of one worker's payload whose value is at
   least every worker's value, whatever order the results arrived in.
   */
  lemma GatedSelectionIsBest(fshifts: seq<int>, outs: seq<Result<Payload>>, queue: seq<Payload>)
    requires |outs| == |fshifts| > 0
    requires forall i, j :: 0 <= i < j < |fshifts| ==> fshifts[i] != fshifts[j]
    requires forall i :: 0 <= i < |outs| ==> outs[i].Ok? && outs[i].value.fshift == fshifts[i]
    requires IsArrivalOrder(outs, queue)
    ensures Main(fshifts, queue).Some? && Main(fshifts, queue).value.Ok?
    ensures exists i :: 0 <= i < |outs| && Main(fshifts, queue).value.value == SelectionOf(outs[i].value)
    ensures forall i :: 0 <= i < |outs| ==> outs[i].value.val <= Main(fshifts, queue).value.value.val
  {
    var ps := Published(outs);
    PublishedAll(outs);
    GateOpensIffAllPublished(fshifts, outs, queue);
    assert DistinctFshifts(ps) by {
      forall i, j | 0 <= i < j < |ps|
        ensures ps[i].fshift != ps[j].fshift
      {
        assert ps[i].fshift == fshifts[i] && ps[j].fshift == fshifts[j];
      }
    }
    BestOfArrival(ps, queue);
  }

  /** Workers that all succeed publish payloads carrying their own hypotheses. */
  lemma WorkersPublish(fshifts: seq<int>, prepare: int -> seq<Complex>, refs: map<string, seq<Complex>>)
    requires forall i :: 0 <= i < |fshifts| ==> Worker(fshifts[i], prepare, refs).Ok?
    ensures var outs := RunWorkers(fshifts, prepare, refs);
            forall i :: 0 <= i < |outs| ==> outs[i].Ok? && outs[i].value.fshift == fshifts[i]
  {
    var outs := RunWorkers(fshifts, prepare, refs);
    forall i | 0 <= i < |outs|
      ensures outs[i].Ok? && outs[i].value.fshift == fshifts[i]
    {
      assert outs[i] == Worker(fshifts[i], prepare, refs);
    }
  }

  /**
   A search over distinct hypotheses whose workers all succeed: the gate
   opens and the result is the selection of one worker's payload whose
   value is at least every worker's value, in any arrival order.
   */
  lemma SearchSelectsBest(fshifts: seq<int>, prepare: int -> seq<Complex>, refs: map<string, seq<Complex>>, queue: seq<Payload>)
    requires |fshifts| > 0
    requires forall i, j :: 0 <= i < j < |fshifts| ==> fshifts[i] != fshifts[j]
    requires IsArrivalOrder(RunWorkers(fshifts, prepare, refs), queue)
    requires forall i :: 0 <= i < |fshifts| ==> Worker(fshifts[i], prepare, refs).Ok?
    ensures Main(fshifts, queue).Some? && Main(fshifts, queue).value.Ok?
    ensures exists i :: 0 <= i < |fshifts| &&
              Main(fshifts, queue).value.value == SelectionOf(Worker(fshifts[i], prepare, refs).value)
    ensures forall i :: 0 <= i < |fshifts| ==>
              Worker(fshifts[i], prepare, refs).value.val <= Main(fshifts, queue).value.value.val
  {
    var outs := RunWorkers(fshifts, prepare, refs);
    WorkersPublish(fshifts, prepare, refs);
    GatedSelectionIsBest(fshifts, outs, queue);
    var s := Main(fshifts, queue).value.value;
    var w :| 0 <= w < |outs| && s == SelectionOf(outs[w].value);
    assert outs[w] == Worker(fshifts[w], prepare, refs);
  }

  /**
   The whole search over the four hypotheses: when every worker publishes,
   the gate opens and the result is the selection of one worker's payload
   whose value is at least every worker's value, in any arrival order.
   */
  lemma SearchSelectsBestWorker(prepare: int -> seq<Complex>, refs: map<string, seq<Complex>>, queue: seq<Payload>)
    requires IsArrivalOrder(RunWorkers(Fshifts, prepare, refs), queue)
    requires forall i :: 0 <= i < |Fshifts| ==> Worker(Fshifts[i], prepare, refs).Ok?
    ensures Main(Fshifts, queue).Some? && Main(Fshifts, queue).value.Ok?
    ensures exists i :: 0 <= i < |Fshifts| &&
              Main(Fshifts, queue).value.value == SelectionOf(Worker(Fshifts[i], prepare, refs).value)
    ensures forall i :: 0 <= i < |Fshifts| ==>
              Worker(Fshifts[i], prepare, refs).value.val <= Main(Fshifts, queue).value.value.val
  {
    FshiftsDistinct();
    SearchSelectsBest(Fshifts, prepare, refs, queue);
  }

  /**
   An aggregation example: magnitudes 1, 5, 3 and 2 for the
   hypotheses 0, 15000, 30000 and 45000 select `fshift_15000`, in every
   arrival order.
   */
  lemma AggregationExample(queue: seq<Payload>)
    requires multiset(queue) == multiset([Payload(0, 0, 0, 1), Payload(15000, 1, 7, 5),
                                          Payload(30000, 2, 3, 3), Payload(45000, 0, 9, 2)])
    ensures ProcessMaxCorr(queue).Ok? && ProcessMaxCorr(queue).value.fshift == FshiftKey(15000)
  {
    var q := [Payload(0, 0, 0, 1), Payload(15000, 1, 7, 5), Payload(30000, 2, 3, 3), Payload(45000, 0, 9, 2)];
    SelectionIndependentOfArrival(q, queue, 1);
  }
}
