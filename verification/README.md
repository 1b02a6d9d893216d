# Frequency-offset / PSS correlation search, modelled in Dafny

This project models the acquisition core of a small 5G cell-search script.
A captured baseband waveform is tried against four carrier-frequency-offset
hypotheses (0, 15000, 30000 and 45000 Hz). Each hypothesis gets its own worker
process. A worker de-rotates and downsamples the waveform. It then correlates
the result in valid mode against the three primary synchronisation sequences
(PSS, one per group identifier NID2 = 0, 1, 2), keeps the strongest NID2, and
puts `(fshift, NID2, peak index, peak value)` on a shared queue. Once all
workers have joined, and only if the queue holds one message per hypothesis,
an aggregator drains the queue into a dictionary keyed `fshift_<offset>` and
selects the entry with the largest correlation value.

Around that core the model also covers:
- the chunked receive loop of the bladeRF receive script;
- the two transmit loops;
- the per-record normalisation that turns `i`-suffixed complex literals in the srsRAN capture files into Python's `j` form.

Modules, leaves first:
- `Wrappers`: `Option`, `Result` and the error kinds.
  - `KeyError` is a missing dictionary key.
  - `IoError` is a file that cannot be read or parsed.
  - `EmptyArgMax` is `np.argmax` of an empty array.
  - `EmptyOperand` is the `ValueError` that `scipy.signal.correlate` raises for an empty input (it passes the operands on to `np.convolve`).
- `Iq`: integer complex samples, and the squared magnitude that stands in for `abs`.
- `ArgMax`: `np.argmax`, that is, the first index of a maximum.
- `Decimal`: the decimal rendering used by the f-string keys, with its parser and injectivity.
- `PssBank`: the `NID2_<n>` keys, the file paths, and loading of the three reference sequences.
- `Correlator`: valid-mode cross-correlation, the per-NID2 peak, and `correlate` for all three references.
- `Evaluator`: `peak_one_fshift` and one worker (`processing_fshift`).
- `Aggregator`: `get_all_fshift_corr` (an insertion-ordered dictionary), `max_fshift_corr` and `process_max_corr`.
- `Search`: the four workers, the queue as an arbitrary arrival order of what they published, and the `__main__` completeness gate.
- `Radio`, `Receive`, `Transmit`: hardware calls recorded as events, `receive_samples`, `transmit_tone` and `transmit_file`.
- `Records`: `strip()` followed by `replace('i', 'j')`.

Modelling choices:
- **Samples and magnitudes.** Samples are pairs of integers. The magnitude `abs(z)` is replaced by the squared norm `re² + im²`. Squaring a non-negative number is monotone, so every argmax and every comparison between magnitudes comes out the same.
- **Correlation formula.** When the reference is no longer than the waveform, output `k` is `Σ conj(r[l]) · w[k + l]`. When the reference is longer, `scipy.signal.correlate` does not fail in valid mode. It swaps the inputs, correlates the waveform across the reference, and reverses and conjugates the result. The model does the same, so a too-short waveform is not an error.
- **Workers and the queue.** Workers are pure functions of their offset. The queue is any sequence whose multiset equals the payloads the workers put. A worker whose pipeline fails puts nothing, because the process dies before `Queue.put`.
- **Frequency shift and resampling.** `waveform_fshift` followed by `waveformDS` is an opaque parameter `prepare: int -> seq<Complex>`, one waveform per offset.

## Model

| member | source | states |
|---|---|---|
| Iq.MulConjSelf | multiprocess.py:68-69 | a sample times its conjugate is the real number re² + im², the squared magnitude used in place of `abs` |
| ArgMax.ArgMax | multiprocess.py:69 | for a non-empty array, the index returned holds a maximum and every earlier element is strictly smaller (`np.argmax` picks the first maximum) |
| ArgMax.FirstMaxUnique | multiprocess.py:78 | only one index can be the first maximum, so any two correct argmax results agree |
| Decimal.NatToString | multiprocess.py:47 | the f-string rendering of a non-negative number is a non-empty string of decimal digits with no leading zero (except `0` itself); with ParseNatToString this pins the rendering uniquely |
| Decimal.ParseNatToString | multiprocess.py:47 | reading the digits back gives the original number |
| Decimal.ParseIntToString | multiprocess.py:119 | the rendering of a signed offset, with a leading `-` when negative, reads back to the offset |
| Decimal.NatToStringInjective | multiprocess.py:47 | distinct numbers render to distinct strings |
| Decimal.IntToStringInjective | multiprocess.py:119 | distinct signed offsets render to distinct strings |
| PssBank.PssKey | multiprocess.py:47 | the dictionary key of group n is `NID2_` followed by the decimal rendering of n |
| PssBank.PssKeyReadsBack | multiprocess.py:47 | every key starts with `NID2_` and the rest reads back as its group |
| PssBank.PssKeyInjective | multiprocess.py:47 | distinct NID2 values get distinct `NID2_<n>` keys |
| PssBank.PssPath | multiprocess.py:47 | the file of group n is `<base>/NID2_<n>.csv` |
| PssBank.PssPathInjective | multiprocess.py:47 | distinct groups are read from distinct files |
| PssBank.FilesFor | multiprocess.py:46-48 | the path table has exactly one key per NID2 in the list, each mapped to `<base>/NID2_<n>.csv` |
| PssBank.PssFiles | multiprocess.py:39-48 | for NID2 in [0, 1, 2], the keys are exactly the three `NID2_<n>` and each maps to its csv path |
| PssBank.LoadFrom | multiprocess.py:50-56 | the reading loop over the listed groups succeeds if and only if every group's file can be read; then the keys are exactly those groups' keys, each holding its file's samples; otherwise the error is IoError naming the first file, in visiting order, that cannot be read |
| PssBank.LoadPssSeq | multiprocess.py:37-58 | the bank loads if and only if all three files can be read; then its keys are exactly the three NID2 keys and each holds its file's samples; otherwise the error is IoError naming the lowest NID2 whose file cannot be read, all lower ones being readable |
| Correlator.Out | multiprocess.py:68 | entry t of `scipy.signal.correlate(w, r, 'valid')`: the lag-t sum when the reference is no longer than the waveform, otherwise the conjugate of the swapped correlation taken from the far end |
| Correlator.CorrelateDirect | multiprocess.py:68 | when the reference is no longer than the waveform, the valid-mode output has length M - L + 1, and output k is the lag-k sum of the waveform times the conjugated reference |
| Correlator.CorrelateValid | multiprocess.py:68 | `scipy.signal.correlate(w, r, 'valid')` fails with EmptyOperand if and only if an input is empty; otherwise it has length abs(M - L) + 1 and entry t is `Out(w, r, t)`, so a reference longer than the waveform yields the reversed conjugate of the swapped correlation |
| Iq.ConjNormSq | multiprocess.py:69 | conjugation keeps the squared magnitude |
| Correlator.OutMagSwap | multiprocess.py:68-69 | when the reference is the longer input, the magnitudes are those of the swapped correlation in reverse order |
| Correlator.PeakUnique | multiprocess.py:69-70 | a waveform and reference have at most one (index, value) peak: the first output of maximum magnitude |
| Correlator.FirstMaxIsPeak | multiprocess.py:69-70 | the first maximum of the magnitude array is a peak: no output exceeds it and every earlier output is strictly below it |
| Correlator.PeakOf | multiprocess.py:68-70 | for one reference, the peak exists if and only if neither input is empty, and otherwise the error is that of the correlation itself (EmptyOperand); a success is the index of the first output of maximum magnitude, with that magnitude |
| Correlator.PeakFor | multiprocess.py:68-70 | the lookup `refWaveforms['NID2_<n>']` fails with KeyError naming the key when it is missing; it succeeds exactly when the reference is present and neither it nor the waveform is empty, and the result is that reference's peak |
| Correlator.Correlate | multiprocess.py:60-73 | succeeds if and only if all three references are present and non-empty and the waveform is non-empty; then `corr_ind` and `corr_val` have length 3 and entry n is the peak of the waveform against reference n |
| Correlator.DotOfCopy | multiprocess.py:68 | at a lag where the waveform copies the reference, the correlation is the reference's energy, a real number |
| Correlator.PeakAtLeastMatchEnergy | multiprocess.py:68-70 | if the reference occurs verbatim in the waveform, the peak value is at least the squared energy of the reference |
| Evaluator.PeakOneFshift | multiprocess.py:75-82 | the chosen NID2 is one of 0..2; its index and value are that NID2's entries; its value bounds all three; every lower NID2 has a strictly smaller value |
| Evaluator.Worker | multiprocess.py:87-98 | a worker publishes if and only if its prepared waveform and all three references are present and non-empty; the payload carries its own offset, a NID2 below 3, and the peak of that NID2's correlation; every lower NID2's peak value is strictly smaller, so ties go to the lowest NID2 as with `np.argmax` |
| Evaluator.EntriesArePeaks | multiprocess.py:60-73 | entry n of a successful `correlate` equals the peak found for reference n on its own |
| Evaluator.OutcomeIsPeak | multiprocess.py:91-92 | the outcome picked from a successful `correlate` is the peak of the chosen reference |
| Evaluator.OutcomeDominates | multiprocess.py:75-82 | the chosen value bounds the magnitude of every output of every one of the three correlations |
| Evaluator.WorkerValueIsBest | multiprocess.py:87-98 | the published value bounds every output of every reference's correlation for that offset |
| Aggregator.FshiftKey | multiprocess.py:119 | the dictionary key of an offset is `fshift_` followed by its signed decimal rendering |
| Aggregator.FshiftKeyReadsBack | multiprocess.py:119 | every key starts with `fshift_` and the rest reads back as its offset |
| Aggregator.KeyRenderings | multiprocess.py:47 | the keys come out as Python prints them: `fshift_0`, `fshift_15000`, `fshift_-15000`, `NID2_0`, `NID2_2` |
| Aggregator.FshiftKeyInjective | multiprocess.py:119 | distinct offsets get distinct `fshift_<offset>` keys |
| Aggregator.Put | multiprocess.py:119-124 | assigning a key keeps the dictionary well formed: distinct keys in insertion order, each with a value |
| Aggregator.GetAllFshiftCorr | multiprocess.py:107-130 | the drained dictionary is well formed |
| Aggregator.DrainKeys | multiprocess.py:110-124 | a key is in the dictionary if and only if some payload in the queue has that offset |
| Aggregator.DrainLastWins | multiprocess.py:119-124 | the value under each key is the entry of the last payload with that offset |
| Aggregator.FirstArrival | multiprocess.py:119 | the position of the first payload with a given key, or the queue length if there is none |
| Aggregator.DrainKeyOrder | multiprocess.py:119 | the dictionary's key order is the order of first arrival in the queue |
| Aggregator.MaxFshiftCorr | multiprocess.py:132-144 | the selection fails, as an empty argmax, if and only if the dictionary is empty; otherwise it is the first key, in insertion order, whose value is maximal, returned with that key's NID2, index and value |
| Aggregator.SelectionIsLastPayload | multiprocess.py:135-142 | the selection after draining equals the selection of a payload that is the last one for its offset |
| Aggregator.SelectionBoundsLast | multiprocess.py:135-136 | the selected value bounds the value of every surviving (last-per-offset) payload |
| Aggregator.SelectedBoundsAll | multiprocess.py:135-136 | the selected value bounds the value of every dictionary entry |
| Aggregator.SelectionFromLast | multiprocess.py:146-150 | a selection from the drained queue comes from a surviving payload and bounds all surviving payloads |
| Aggregator.ProcessMaxCorr | multiprocess.py:146-150 | it fails, as an empty argmax, if and only if the queue is empty; otherwise the result is a surviving payload's selection whose value bounds every surviving payload |
| Aggregator.DrainNonEmpty | multiprocess.py:110 | the drained dictionary is empty if and only if the queue was empty |
| Aggregator.SelectedFirstAmongTies | multiprocess.py:136 | no earlier key in insertion order has the selected value |
| Aggregator.ProcessMaxCorrTieBreak | multiprocess.py:136-138 | among surviving payloads tied with the selected value, the selected offset first arrived no later |
| Search.FshiftsDistinct | multiprocess.py:172 | the four hypotheses 0, 15000, 30000, 45000 are distinct |
| Search.RunWorkers | multiprocess.py:173-187 | one outcome per hypothesis; outcome i is a payload exactly when all three references are usable against the waveform prepared for hypothesis i, and that payload carries hypothesis i |
| Search.Published | multiprocess.py:94 | a payload is put on the queue if and only if some worker ended with it; failed workers put nothing; there are no more messages than workers |
| Search.IsArrivalOrder | multiprocess.py:110-111 | the queue is drained in some order of exactly the published payloads, each as often as it was put |
| Search.PublishedAll | multiprocess.py:189 | every worker published if and only if the published count equals the number of workers, and then the published payloads are the workers' payloads in order |
| Search.Main | multiprocess.py:184-191 | the aggregator starts if and only if the queue size equals the number of hypotheses; once started it fails only when there are no hypotheses |
| Search.GateOpensIffAllPublished | multiprocess.py:184-191 | the gate opens if and only if every worker succeeded |
| Search.DistinctAllLast | multiprocess.py:119 | with distinct offsets every payload survives the draining |
| Search.DistinctUnderArrival | multiprocess.py:110-111 | any arrival order of distinct-offset payloads still has distinct offsets |
| Search.SelectionIndependentOfArrival | multiprocess.py:146-150 | with distinct offsets and a strict maximum, two arrival orders of the same payloads select the same result, the maximum's |
| Search.UniqueMaxSelected | multiprocess.py:146-150 | with distinct offsets, a strictly largest payload is the one selected |
| Search.BestOfArrival | multiprocess.py:146-150 | for any arrival order of distinct-offset payloads, the selection is one of the payloads and bounds them all |
| Search.GatedSelectionIsBest | multiprocess.py:184-191 | when all workers succeed on distinct hypotheses, the gate opens for every arrival order and the selection is one worker's payload whose value bounds every worker's |
| Search.SearchSelectsBestWorker | multiprocess.py:172-191 | for the four fixed hypotheses whose workers all succeed, the search selects one worker's payload, and its value bounds the best correlation of every worker |
| Search.AggregationExample | multiprocess.py:132-144 | for values [1, 5, 3, 2] on the four offsets, in any arrival order, the selected key is `fshift_15000` |
| Receive.ReceiveSamples | test_rx.py:23-53 | the channel is enabled, then call c of `sync_rx` asks for min(1024, num_samples - 1024·c) samples, so every call but the last reads a full buffer, then it is disabled; the chunks add up to num_samples and fill the output back to back, so sample i comes from position i mod 1024 of call i div 1024; the number of calls is num_samples / 1024 rounded up |
| Transmit.TransmitTone | zmq_txrx.py:36-53 | the channel is enabled, then `sync_tx(buf, num_samples)` is called `repeat` times, or never when repeat < 1, then it is disabled |
| Transmit.TransmitFile | zmq_txrx.py:81-91 | exactly one `sync_tx` call, with the file's sample count, between enabling and disabling the channel |
| Records.IsSpace | zmq_txrx.py:70 | the characters `str.strip()` removes: those for which Python's `str.isspace` holds |
| Records.LeadingEnd | zmq_txrx.py:70 | the scan for leading whitespace stops at the first non-whitespace position at or after its start; everything it passed is whitespace |
| Records.TrailingStart | zmq_txrx.py:70 | the scan for trailing whitespace stops just after the last non-whitespace position above its floor; everything it passed is whitespace |
| Records.StripBounds | zmq_txrx.py:70 | the kept slice has only whitespace around it and neither starts nor ends with whitespace |
| Records.StripBoundsTrimmed | zmq_txrx.py:70 | a string without surrounding whitespace keeps all of itself |
| Records.Strip | zmq_txrx.py:70 | `strip()` returns a slice that neither starts nor ends with whitespace and has only whitespace around it |
| Records.StripTrimmed | zmq_txrx.py:70 | a string already free of surrounding whitespace is returned unchanged |
| Records.StripUnique | zmq_txrx.py:70 | any non-empty trimmed slice with only whitespace around it is the result of `strip()` |
| Records.StripIdempotent | zmq_txrx.py:70 | stripping twice is stripping once |
| Records.ReplaceChar | zmq_txrx.py:70 | `replace` keeps the length and changes exactly the positions holding the old character |
| Records.ReplaceRemoves | zmq_txrx.py:70 | after replacing a character by a different one, none of it is left |
| Records.Normalise | zmq_txrx.py:70 | the normalised record (also at multiprocess.py lines 16-17) has no `i` and no surrounding whitespace; it is a slice of the field, with only whitespace around it, in which every `i` became `j` |
| Records.NormaliseIdempotent | zmq_txrx.py:70 | normalising a normalised record changes nothing |

## Left out

- Correlator.PeakAtLeastMatchEnergy: states only a lower bound for a verbatim match. That the peak lies exactly at the matching lag would need the Cauchy–Schwarz inequality over the integers, and it is not proved.
- `waveform_fshift` and `waveformDS`: complex exponentials and polyphase resampling are floating-point signal processing. They are the opaque parameter `prepare`.
- Floating point: samples are integers and magnitudes are squared norms. The `/ 2048.0` scaling in `receive_samples` and the `* 32767` scaling in `load_rx_srsRAN` are not modelled.
- Concurrency: `multiprocessing.Process`, `start` and `join` are not modelled. The queue is modelled as an arbitrary arrival order of the published payloads.
- Worker failures: a failing worker process dies before `Queue.put`, so it publishes nothing. No explicit failure message is modelled, because the code sends none.
- File I/O, CSV reading and `complex()` parsing: these are the opaque `read` parameter of `LoadPssSeq`. `Records` models the per-field text transformation that comes before `complex()`.
- `print` calls, `kPSS`, `t`, `carrier` and `sampleRate` inside `correlate`: they do not affect the result.
- Hardware: `setup_receiver`, `setup_transmitter`, `sync_config` and the `__main__` blocks of the radio scripts are not modelled. `sync_tx` and `sync_rx` are recorded as events; what `sync_rx` writes into the buffer is the opaque `rx(call, position)`.
- Transmit.TransmitTone: the buffer contents are not tracked, only the sample count passed to each call.
- Transmit.TransmitFile: the samples sent are not tracked, only the count passed to the one `sync_tx` call.
- Receive.ReceiveSamples: requires num_samples > 0. A count of 0 takes the full-buffer branch, and numpy would reject its first store into the empty output array as a shape mismatch. A negative count is already rejected by `np.zeros`. Neither failure is modelled.
- Receive.ReceiveSamples: the source function has no `return` statement, so its caller gets `None`, and the filled array `x` is only printed. The model returns `x` only to state what the loop writes into it.
- The commented-out `get_queue` function is dead code.
