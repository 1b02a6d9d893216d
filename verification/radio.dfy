/**
 The bladeRF calls the scripts make, recorded as events instead of being
 performed: switching a channel on or off, one synchronous receive of
 `count` samples, one synchronous transmit of `num` samples.
 */
module Radio {

  datatype Event = Enable(on: bool) | SyncRx(count: nat) | SyncTx(num: int)

  /** The channel is switched on first, off last, and not touched in between. */
  predicate Bracketed(ev: seq<Event>) {
    && |ev| >= 2
    && ev[0] == Enable(true)
    && ev[|ev| - 1] == Enable(false)
    && forall i :: 0 < i < |ev| - 1 ==> !ev[i].Enable?
  }

  /** The number of `sync_tx` calls. */
  function TxCount(ev: seq<Event>): nat {
    if |ev| == 0 then 0
    else TxCount(ev[..|ev| - 1]) + (if ev[|ev| - 1].SyncTx? then 1 else 0)
  }

  /** The number of `sync_rx` calls. */
  function RxCount(ev: seq<Event>): nat {
    if |ev| == 0 then 0
    else RxCount(ev[..|ev| - 1]) + (if ev[|ev| - 1].SyncRx? then 1 else 0)
  }

  /** The samples asked for by all `sync_rx` calls together. */
  function RxTotal(ev: seq<Event>): nat {
    if |ev| == 0 then 0
    else RxTotal(ev[..|ev| - 1]) + (if ev[|ev| - 1].SyncRx? then ev[|ev| - 1].count else 0)
  }

  /** Appending one event adds it to the counts and nothing else. */
  lemma CountsSnoc(ev: seq<Event>, e: Event)
    ensures TxCount(ev + [e]) == TxCount(ev) + (if e.SyncTx? then 1 else 0)
    ensures RxCount(ev + [e]) == RxCount(ev) + (if e.SyncRx? then 1 else 0)
    ensures RxTotal(ev + [e]) == RxTotal(ev) + (if e.SyncRx? then e.count else 0)
  {
    assert (ev + [e])[..|ev|] == ev;
  }
}
