/**
 The chunked receive loop of the bladeRF receive script
 (`receive_samples`): the output is filled in chunks of at most one
 buffer's worth of samples. `sync_rx` is an opaque step: `rx(c, j)` is the
 sample at position `j` of the buffer after the `c`-th call.
 */
module Receive {
  import opened Iq
  import opened Radio

  /** SC16 Q11 samples take four bytes each. */
  const BytesPerSample: nat := 4

  /** The receive buffer holds 1024 samples. */
  const BufBytes: nat := 1024 * BytesPerSample

  /** The most samples one `sync_rx` call delivers: `len(buf) // bytes_per_sample`. */
  const ChunkMax: nat := BufBytes / BytesPerSample

  function Min(a: int, b: int): int {
    if a <= b then a else b
  }

  /** What call `c` asks for out of `n` samples: a full buffer, or what is left. */
  function ChunkSize(n: nat, c: nat): int {
    Min(ChunkMax, n - c * ChunkMax)
  }

  /** The number of calls needed for `n` samples: `n / ChunkMax` rounded up. */
  function Calls(n: nat): nat {
    (n + ChunkMax - 1) / ChunkMax
  }

  /** Each of the calls needed for `n` samples asks for at least one and at most `ChunkMax`. */
  lemma ChunkSizeBounds(n: nat, c: nat)
    requires c < Calls(n)
    ensures 1 <= ChunkSize(n, c) <= ChunkMax
  {
  }

  /** Sample `c * ChunkMax + j` lies at position `j` of chunk `c`. */
  lemma ChunkPosition(c: nat, j: nat)
    requires j < ChunkMax
    ensures (c * ChunkMax + j) / ChunkMax == c
    ensures (c * ChunkMax + j) % ChunkMax == j
  {
  }

  /** The calls made until `n` samples are read are the calls `n` needs. */
  lemma CallsExact(n: nat, calls: nat)
    requires (calls - 1) * ChunkMax < n <= calls * ChunkMax
    ensures calls == Calls(n)
  {
  }

  /** Switching off after the calls `n` needs closes a well-formed log. */
  lemma CloseLog(log: seq<Event>, n: nat)
    requires |log| == Calls(n) + 1 && log[0] == Enable(true)
    requires forall i :: 0 < i < |log| ==> log[i] == SyncRx(ChunkSize(n, i - 1))
    ensures var ev := log + [Enable(false)];
            && Bracketed(ev)
            && (forall i :: 0 < i < |ev| - 1 ==> ev[i].SyncRx? && 1 <= ev[i].count <= ChunkMax)
            && (forall c :: 0 <= c < Calls(n) ==> ev[c + 1] == SyncRx(ChunkSize(n, c)))
  {
    var ev := log + [Enable(false)];
    forall c | 0 <= c < Calls(n)
      ensures ev[c + 1] == SyncRx(ChunkSize(n, c))
    {
      assert ev[c + 1] == log[c + 1];
    }
    forall i | 0 < i < |ev| - 1
      ensures ev[i].SyncRx? && 1 <= ev[i].count <= ChunkMax
    {
      assert ev[i] == log[i];
      ChunkSizeBounds(n, i - 1);
    }
  }

  /**
   Storing the `c`-th chunk at `read == c * ChunkMax` keeps every sample
   up to the end of the chunk at its place in the call it came from.
   */
  lemma StoreChunk(x: seq<Complex>, read: nat, c: nat, samples: seq<Complex>, rx: (nat, nat) -> Complex)
    requires read == c * ChunkMax && |samples| <= ChunkMax && read + |samples| <= |x|
    requires forall j :: 0 <= j < |samples| ==> samples[j] == rx(c, j)
    requires forall i :: 0 <= i < read ==> x[i] == rx(i / ChunkMax, i % ChunkMax)
    ensures var x' := x[..read] + samples + x[read + |samples|..];
            |x'| == |x| && forall i :: 0 <= i < read + |samples| ==> x'[i] == rx(i / ChunkMax, i % ChunkMax)
  {
    var x' := x[..read] + samples + x[read + |samples|..];
    forall i | 0 <= i < read + |samples|
      ensures x'[i] == rx(i / ChunkMax, i % ChunkMax)
    {
      if read <= i {
        ChunkPosition(c, i - read);
      }
    }
  }

  /**
   `receive_samples` for a positive sample count: the channel is switched
   on, call `c` asks for `min(ChunkMax, num_samples - c * ChunkMax)`
   samples, that is a full buffer except possibly for the last call, the chunks
   are written back to back so that sample `i` of the output comes from
   position `i % ChunkMax` of call `i / ChunkMax`, the number of calls is
   `num_samples / 1024` rounded up, and the channel is switched off.
   */
  method ReceiveSamples(numSamples: nat, rx: (nat, nat) -> Complex) returns (x: seq<Complex>, ev: seq<Event>)
    requires numSamples > 0
    ensures |x| == numSamples
    ensures forall i :: 0 <= i < numSamples ==> x[i] == rx(i / ChunkMax, i % ChunkMax)
    ensures Bracketed(ev)
    ensures forall i :: 0 < i < |ev| - 1 ==> ev[i].SyncRx? && 1 <= ev[i].count <= ChunkMax
    ensures |ev| == Calls(numSamples) + 2
    ensures forall c :: 0 <= c < Calls(numSamples) ==> ev[c + 1] == SyncRx(ChunkSize(numSamples, c))
    ensures RxCount(ev) == Calls(numSamples)
    ensures RxTotal(ev) == numSamples
  {
    ev := [Enable(true)];
    x := seq(numSamples, _ => Zero);
    var read := 0;
    var calls := 0;
    while true
      invariant 0 <= read <= numSamples
      invariant |x| == numSamples
      invariant read < numSamples ==> read == calls * ChunkMax
      invariant read == numSamples ==> (calls - 1) * ChunkMax < numSamples <= calls * ChunkMax
      invariant forall i :: 0 <= i < read ==> x[i] == rx(i / ChunkMax, i % ChunkMax)
      invariant |ev| == calls + 1 && ev[0] == Enable(true)
      invariant forall i :: 0 < i < |ev| ==> ev[i] == SyncRx(ChunkSize(numSamples, i - 1))
      invariant RxCount(ev) == calls && RxTotal(ev) == read
      decreases numSamples - read
    {
      if numSamples > 0 && read == numSamples {
        break;
      }
      var num: nat := Min(BufBytes / BytesPerSample, numSamples - read);
      assert num == ChunkSize(numSamples, calls);
      CountsSnoc(ev, SyncRx(num));
      ev := ev + [SyncRx(num)];
      var samples := seq(num, (j: nat) => rx(calls, j));
      StoreChunk(x, read, calls, samples, rx);
      x := x[..read] + samples + x[read + num..];
      read := read + num;
      calls := calls + 1;
    }
    CallsExact(numSamples, calls);
    CountsSnoc(ev, Enable(false));
    CloseLog(ev, numSamples);
    ev := ev + [Enable(false)];
  }
}
