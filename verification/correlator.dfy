/**
 Valid-mode cross-correlation of a downsampled waveform against the three
 PSS references, and the per-reference peak (`correlate`).
 */
module Correlator {
  import opened Wrappers
  import opened Iq
  import ArgMax
  import PssBank

  /** The partial sum `w[k]·conj(r[0]) + … + w[k+n-1]·conj(r[n-1])`. */
  function Dot(w: seq<Complex>, r: seq<Complex>, k: nat, n: nat): Complex
    requires n <= |r| && k + n <= |w|
  {
    if n == 0 then Zero else Add(Dot(w, r, k, n - 1), Mul(w[k + n - 1], Conj(r[n - 1])))
  }

  /** Output `k` of the correlation: the reference laid over the waveform at offset `k`. */
  function Lag(w: seq<Complex>, r: seq<Complex>, k: nat): Complex
    requires k + |r| <= |w|
  {
    Dot(w, r, k, |r|)
  }

  /**
   The length of the valid-mode output: one entry per offset at which the
   shorter sequence lies wholly inside the longer one.
   */
  function OutLength(w: seq<Complex>, r: seq<Complex>): nat {
    if |r| <= |w| then |w| - |r| + 1 else |r| - |w| + 1
  }

  /**
   Entry `t` of `scipy.signal.correlate(w, r, 'valid')`. When the reference
   is the longer sequence scipy swaps the inputs, correlates the waveform
   across the reference, and undoes the swap by reversing and conjugating.
   */
  function Out(w: seq<Complex>, r: seq<Complex>, t: nat): Complex
    requires t < OutLength(w, r)
  {
    if |r| <= |w| then Lag(w, r, t) else Conj(Lag(r, w, |r| - |w| - t))
  }

  /** The squared magnitude of entry `t`, standing in for `np.abs(temp)[t]`. */
  function OutMag(w: seq<Complex>, r: seq<Complex>, t: nat): nat
    requires t < OutLength(w, r)
  {
    NormSq(Out(w, r, t))
  }

  /**
   The direct double loop of valid-mode correlation with the reference no
   longer than the waveform: one output per full overlap, each the sum of
   waveform times conjugated reference.
   */
  method CorrelateDirect(w: seq<Complex>, r: seq<Complex>) returns (z: seq<Complex>)
    requires |r| <= |w|
    ensures |z| == |w| - |r| + 1
    ensures forall k :: 0 <= k < |z| ==> z[k] == Lag(w, r, k)
  {
    z := [];
    var k := 0;
    while k < |w| - |r| + 1
      invariant k <= |w| - |r| + 1
      invariant |z| == k
      invariant forall j :: 0 <= j < k ==> z[j] == Lag(w, r, j)
    {
      var acc := Zero;
      var l := 0;
      while l < |r|
        invariant l <= |r|
        invariant acc == Dot(w, r, k, l)
      {
        acc := Add(acc, Mul(w[k + l], Conj(r[l])));
        l := l + 1;
      }
      z := z + [acc];
      k := k + 1;
    }
  }

  /**
   `scipy.signal.correlate(w, r, 'valid')`: an empty input is rejected
   (scipy hands it to `np.convolve`, which raises), otherwise the outputs
   `Out(w, r, t)` in order.
   */
  method CorrelateValid(w: seq<Complex>, r: seq<Complex>) returns (res: Result<seq<Complex>>)
    ensures res.Err? <==> |w| == 0 || |r| == 0
    ensures res.Err? ==> res.error == EmptyOperand
    ensures res.Ok? ==> |res.value| == OutLength(w, r)
    ensures res.Ok? ==> forall t :: 0 <= t < |res.value| ==> res.value[t] == Out(w, r, t)
  {
    if |w| == 0 || |r| == 0 {
      res := Err(EmptyOperand);
    } else if |r| <= |w| {
      var z := CorrelateDirect(w, r);
      res := Ok(z);
    } else {
      var y := CorrelateDirect(r, w);
      res := Ok(seq(|y|, t requires 0 <= t < |y| => Conj(y[|y| - 1 - t])));
    }
  }

  /** The magnitudes of all valid outputs. */
  function OutMags(w: seq<Complex>, r: seq<Complex>): (m: seq<nat>)
    ensures |m| == OutLength(w, r)
  {
    seq(OutLength(w, r), t requires 0 <= t < OutLength(w, r) => OutMag(w, r, t))
  }

  /**
   Correlating the other way round gives the same magnitudes in reverse
   order: swapping the inputs only reverses and conjugates the output.
   */
  lemma OutMagSwap(w: seq<Complex>, r: seq<Complex>, t: nat)
    requires |w| < |r| && t < OutLength(w, r)
    ensures OutLength(r, w) == OutLength(w, r)
    ensures OutMag(w, r, t) == OutMag(r, w, OutLength(w, r) - 1 - t)
  {
    ConjNormSq(Lag(r, w, |r| - |w| - t));
  }

  /**
   `ind` is the first output of largest magnitude and `val` that magnitude:
   what `np.argmax(np.abs(temp))` and `np.abs(temp[ind])` return.
   */
  predicate IsPeak(w: seq<Complex>, r: seq<Complex>, ind: nat, val: nat) {
    && 0 < |w| && 0 < |r|
    && ind < OutLength(w, r)
    && val == OutMag(w, r, ind)
    && (forall t :: 0 <= t < OutLength(w, r) ==> OutMag(w, r, t) <= val)
    && (forall t :: 0 <= t < ind ==> OutMag(w, r, t) < val)
  }

  /** A waveform and reference have at most one peak. */
  lemma PeakUnique(w: seq<Complex>, r: seq<Complex>, i: nat, u: nat, j: nat, v: nat)
    requires IsPeak(w, r, i, u) && IsPeak(w, r, j, v)
    ensures i == j && u == v
  {
    var m := OutMags(w, r);
    assert ArgMax.IsFirstMax(m, i);
    assert ArgMax.IsFirstMax(m, j);
    ArgMax.FirstMaxUnique(m, i, j);
  }

  /**
   The peak of one correlation. An empty input makes the correlation
   itself raise, before any argmax is taken.
   */
  function PeakOf(w: seq<Complex>, r: seq<Complex>): (res: Result<(nat, nat)>)
    ensures res.Ok? <==> 0 < |w| && 0 < |r|
    ensures res.Err? ==> res.error == EmptyOperand
    ensures res.Ok? ==> IsPeak(w, r, res.value.0, res.value.1)
  {
    if |w| == 0 || |r| == 0 then Err(EmptyOperand)
    else
      var m := OutMags(w, r);
      var i := ArgMax.ArgMax(m);
      FirstMaxIsPeak(w, r, i);
      Ok((i, m[i]))
  }

  lemma FirstMaxIsPeak(w: seq<Complex>, r: seq<Complex>, i: nat)
    requires 0 < |w| && 0 < |r|
    requires ArgMax.IsFirstMax(OutMags(w, r), i)
    ensures IsPeak(w, r, i, OutMags(w, r)[i])
  {
    var m := OutMags(w, r);
    forall t | 0 <= t < OutLength(w, r)
      ensures OutMag(w, r, t) <= m[i]
    {
      assert m[t] == OutMag(w, r, t);
    }
    forall t | 0 <= t < i
      ensures OutMag(w, r, t) < m[i]
    {
      assert m[t] == OutMag(w, r, t);
    }
  }

  /** The reference of group `nid2` is in the bank, and neither it nor the waveform is empty. */
  predicate Usable(w: seq<Complex>, refs: map<string, seq<Complex>>, nid2: nat) {
    PssBank.PssKey(nid2) in refs && 0 < |refs[PssBank.PssKey(nid2)]| && 0 < |w|
  }

  /** Looks the reference up under `NID2_<k>` and takes its peak. */
  function PeakFor(w: seq<Complex>, refs: map<string, seq<Complex>>, nid2: nat): (res: Result<(nat, nat)>)
    ensures res.Ok? <==> Usable(w, refs, nid2)
    ensures PssBank.PssKey(nid2) !in refs ==> res == Err(KeyError(PssBank.PssKey(nid2)))
    ensures res.Ok? ==> IsPeak(w, refs[PssBank.PssKey(nid2)], res.value.0, res.value.1)
  {
    var key := PssBank.PssKey(nid2);
    if key !in refs then Err(KeyError(key)) else PeakOf(w, refs[key])
  }

  /** `corr_ind` and `corr_val`, indexed by NID2. */
  datatype CorrPeaks = CorrPeaks(ind: seq<nat>, val: seq<nat>)

  /**
   `correlate`: the peak of each of the three references, in NID2 order; the
   first reference that is missing or empty aborts the whole call.
   */
  function Correlate(w: seq<Complex>, refs: map<string, seq<Complex>>): (res: Result<CorrPeaks>)
    ensures res.Ok? <==> forall n :: 0 <= n < 3 ==> Usable(w, refs, n)
    ensures res.Ok? ==> |res.value.ind| == 3 && |res.value.val| == 3
    ensures res.Ok? ==> forall n :: 0 <= n < 3 ==>
              Usable(w, refs, n) && IsPeak(w, refs[PssBank.PssKey(n)], res.value.ind[n], res.value.val[n])
  {
    var p0 :- PeakFor(w, refs, 0);
    var p1 :- PeakFor(w, refs, 1);
    var p2 :- PeakFor(w, refs, 2);
    Ok(CorrPeaks([p0.0, p1.0, p2.0], [p0.1, p1.1, p2.1]))
  }

  /** Output `k` is the energy of the reference when the waveform repeats it at `k`. */
  lemma {:induction false} DotOfCopy(w: seq<Complex>, r: seq<Complex>, k: nat, n: nat)
    requires n <= |r| && k + n <= |w|
    requires forall l :: 0 <= l < n ==> w[k + l] == r[l]
    ensures Dot(w, r, k, n) == Complex(Energy(r, n), 0)
  {
    if n > 0 {
      DotOfCopy(w, r, k, n - 1);
      MulConjSelf(r[n - 1]);
    }
  }

  /** `|r[0]|^2 + … + |r[n-1]|^2`. */
  function Energy(r: seq<Complex>, n: nat): nat
    requires n <= |r|
  {
    if n == 0 then 0 else Energy(r, n - 1) + NormSq(r[n - 1])
  }

  /**
   When the waveform contains the reference exactly at offset `k0`, the
   output there is the reference's energy, so the reported peak is at least
   that energy squared (squared, because magnitudes are squared norms).
   */
  lemma PeakAtLeastMatchEnergy(w: seq<Complex>, r: seq<Complex>, k0: nat, ind: nat, val: nat)
    requires k0 + |r| <= |w|
    requires forall l :: 0 <= l < |r| ==> w[k0 + l] == r[l]
    requires IsPeak(w, r, ind, val)
    ensures val >= Energy(r, |r|) * Energy(r, |r|)
  {
    DotOfCopy(w, r, k0, |r|);
    assert OutMag(w, r, k0) == Square(Energy(r, |r|));
  }
}
