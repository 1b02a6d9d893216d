/** The transmit loops of the bladeRF script (`transmit_tone`, `transmit_file`). */
module Transmit {
  import opened Radio

  /**
   `transmit_tone`: switch the channel on, send the buffer once per repeat
   (not at all when `repeat` is zero or negative), switch it off.
   */
  method TransmitTone(numSamples: int, repeat: int) returns (ev: seq<Event>)
    ensures Bracketed(ev)
    ensures TxCount(ev) == if repeat >= 1 then repeat else 0
    ensures forall i :: 0 < i < |ev| - 1 ==> ev[i] == SyncTx(numSamples)
  {
    var remaining := repeat - 1;
    ev := [Enable(true)];
    while remaining >= 0
      invariant |ev| >= 1 && ev[0] == Enable(true)
      invariant forall i :: 0 < i < |ev| ==> ev[i] == SyncTx(numSamples)
      invariant TxCount(ev) == |ev| - 1
      invariant remaining <= repeat - 1
      invariant |ev| == repeat - remaining
      invariant remaining < 0 ==> |ev| == 1
      decreases remaining + 1
    {
      CountsSnoc(ev, SyncTx(numSamples));
      ev := ev + [SyncTx(numSamples)];
      if remaining > 0 {
        remaining := remaining - 1;
      } else {
        break;
      }
    }
    CountsSnoc(ev, Enable(false));
    ev := ev + [Enable(false)];
  }

  /** `transmit_file`: switch the channel on, send the samples once, switch it off. */
  method TransmitFile(numSamples: int) returns (ev: seq<Event>)
    ensures Bracketed(ev)
    ensures TxCount(ev) == 1
    ensures forall i :: 0 < i < |ev| - 1 ==> ev[i] == SyncTx(numSamples)
  {
    ev := [Enable(true)];
    CountsSnoc(ev, SyncTx(numSamples));
    ev := ev + [SyncTx(numSamples)];
    CountsSnoc(ev, Enable(false));
    ev := ev + [Enable(false)];
  }
}
