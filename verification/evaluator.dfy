/**
 The per-hypothesis evaluation (`peak_one_fshift`) and the worker pipeline
 of one frequency hypothesis (`processing_fshift`).
 */
module Evaluator {
  import opened Wrappers
  import opened Iq
  import ArgMax
  import PssBank
  import Correlator

  /** The group identifier chosen for one hypothesis, with its peak index and magnitude. */
  datatype Outcome = Outcome(nid2: nat, ind: nat, val: nat)

  /**
   The group of largest peak magnitude, ties going to the lowest NID2, with
   that group's own index and magnitude.
   */
  function PeakOneFshift(c: Correlator.CorrPeaks): (o: Outcome)
    requires |c.ind| == 3 && |c.val| == 3
    ensures o.nid2 < 3
    ensures o.ind == c.ind[o.nid2] && o.val == c.val[o.nid2]
    ensures forall n :: 0 <= n < 3 ==> c.val[n] <= o.val
    ensures forall n :: 0 <= n < o.nid2 ==> c.val[n] < o.val
  {
    var n := ArgMax.ArgMax(c.val);
    Outcome(n, c.ind[n], c.val[n])
  }

  /** The tuple a worker puts on the queue: `(fshift, NID2, corr_ind, corr_val)`. */
  datatype Payload = Payload(fshift: int, nid2: nat, ind: nat, val: nat)

  /**
   One worker: `prepare` stands for the frequency correction and the
   resampling to the search rate (floating-point code outside this model);
   the rest correlates, evaluates and packs the payload. A failure means
   the worker dies without putting anything on the queue.
   */
  function Worker(fshift: int, prepare: int -> seq<Complex>, refs: map<string, seq<Complex>>): (res: Result<Payload>)
    ensures res.Ok? <==> forall n :: 0 <= n < 3 ==> Correlator.Usable(prepare(fshift), refs, n)
    ensures res.Ok? ==> res.value.fshift == fshift && res.value.nid2 < 3
    ensures res.Ok? ==> Correlator.Usable(prepare(fshift), refs, res.value.nid2)
    ensures res.Ok? ==> Correlator.IsPeak(prepare(fshift), refs[PssBank.PssKey(res.value.nid2)], res.value.ind, res.value.val)
    ensures res.Ok? ==> forall n :: 0 <= n < res.value.nid2 ==>
              Correlator.PeakFor(prepare(fshift), refs, n).Ok? && Correlator.PeakFor(prepare(fshift), refs, n).value.1 < res.value.val
  {
    var ds := prepare(fshift);
    match Correlator.Correlate(ds, refs)
    case Err(e) => Err(e)
    case Ok(c) =>
      var o := PeakOneFshift(c);
      OutcomeIsPeak(ds, refs, c);
      EntriesArePeaks(ds, refs, c);
      Ok(Payload(fshift, o.nid2, o.ind, o.val))
  }

  /** Entry `n` of a successful `correlate` is what the lookup of reference `n` alone gives. */
  lemma EntriesArePeaks(ds: seq<Complex>, refs: map<string, seq<Complex>>, c: Correlator.CorrPeaks)
    requires Correlator.Correlate(ds, refs) == Ok(c)
    ensures |c.ind| == 3 && |c.val| == 3
    ensures forall n :: 0 <= n < 3 ==> Correlator.PeakFor(ds, refs, n) == Ok((c.ind[n], c.val[n]))
  {
    forall n | 0 <= n < 3
      ensures Correlator.PeakFor(ds, refs, n) == Ok((c.ind[n], c.val[n]))
    {
      var p := Correlator.PeakFor(ds, refs, n).value;
      Correlator.PeakUnique(ds, refs[PssBank.PssKey(n)], p.0, p.1, c.ind[n], c.val[n]);
    }
  }

  /** The chosen group's own entries are that group's peak. */
  lemma OutcomeIsPeak(ds: seq<Complex>, refs: map<string, seq<Complex>>, c: Correlator.CorrPeaks)
    requires Correlator.Correlate(ds, refs) == Ok(c)
    ensures |c.ind| == 3 && |c.val| == 3
    ensures Correlator.Usable(ds, refs, PeakOneFshift(c).nid2)
    ensures Correlator.IsPeak(ds, refs[PssBank.PssKey(PeakOneFshift(c).nid2)], PeakOneFshift(c).ind, PeakOneFshift(c).val)
  {
    var o := PeakOneFshift(c);
    assert Correlator.Usable(ds, refs, o.nid2) && Correlator.IsPeak(ds, refs[PssBank.PssKey(o.nid2)], c.ind[o.nid2], c.val[o.nid2]);
  }

  /**
   A worker's published value bounds the magnitude of every output of
   every one of the three correlations it ran.
   */
  lemma WorkerValueIsBest(fshift: int, prepare: int -> seq<Complex>, refs: map<string, seq<Complex>>)
    requires Worker(fshift, prepare, refs).Ok?
    ensures forall n, k ::
              0 <= n < 3 && Correlator.Usable(prepare(fshift), refs, n)
              && 0 <= k < Correlator.OutLength(prepare(fshift), refs[PssBank.PssKey(n)])
              ==> Correlator.OutMag(prepare(fshift), refs[PssBank.PssKey(n)], k) <= Worker(fshift, prepare, refs).value.val
  {
    var ds := prepare(fshift);
    var c := Correlator.Correlate(ds, refs).value;
    OutcomeDominates(ds, refs, c);
  }

  /** The chosen magnitude bounds every output of every reference. */
  lemma OutcomeDominates(ds: seq<Complex>, refs: map<string, seq<Complex>>, c: Correlator.CorrPeaks)
    requires Correlator.Correlate(ds, refs) == Ok(c)
    ensures |c.ind| == 3 && |c.val| == 3
    ensures forall n, k ::
              0 <= n < 3 && Correlator.Usable(ds, refs, n)
              && 0 <= k < Correlator.OutLength(ds, refs[PssBank.PssKey(n)])
              ==> Correlator.OutMag(ds, refs[PssBank.PssKey(n)], k) <= PeakOneFshift(c).val
  {
    var o := PeakOneFshift(c);
    forall n, k |
      0 <= n < 3 && Correlator.Usable(ds, refs, n)
      && 0 <= k < Correlator.OutLength(ds, refs[PssBank.PssKey(n)])
      ensures Correlator.OutMag(ds, refs[PssBank.PssKey(n)], k) <= o.val
    {
      assert Correlator.IsPeak(ds, refs[PssBank.PssKey(n)], c.ind[n], c.val[n]);
      assert c.val[n] <= o.val;
    }
  }
}
