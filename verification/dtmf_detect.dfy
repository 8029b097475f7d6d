/** The segmentation logic of `dtmf_detect` in DTMF/src/dtmf.c. The Goertzel
    classifier is abstracted away: `syms[b]` is the symbol it reports for the b-th
    complete block of `blockSize` samples ('\0' when no tone is recognized), and
    `tail` is the number of samples of the incomplete block at end of input. The
    minimum-duration test, done in seconds in floating point, is a threshold
    `minSamples` on the sample count. */
module DtmfDetect {

  import opened DtmfEvents
  import opened DtmfGenerate

  /** The dummy "previous symbol" before the first block is classified. */
  const NoBlock: char := '$'

  /** The sixteen symbols of the DTMF keypad, row by row. The table the classifier
      indexes (`dtmf_symbol_names`) is declared in a header that is not part of
      this model; it holds these characters. */
  const Keypad: seq<char> := "123A456B789C*0#D"

  /** The classifier reports '\0' or a keypad symbol; in particular never the
      dummy. */
  predicate Classified(syms: seq<char>) {
    forall q :: 0 <= q < |syms| ==> syms[q] == Silence || syms[q] in Keypad
  }

  /** The `while (1)` loop of `dtmf_detect` from block `p` on: `lower` is
      `lower_block_index`, `prev` is `prev_symbol`. A run ends at the first block
      whose symbol differs; a silent run is dropped, any other run is written when
      long enough. With `intended` false this is the code as written: at end of
      input the current run is written, whatever its symbol, when the number of
      samples read MINUS ONE BLOCK reaches the threshold. With `intended` true the
      last run is judged like every other one. */
  function DetectFrom(syms: seq<char>, p: nat, lower: nat, prev: char,
                      blockSize: nat, tail: nat, minSamples: nat, intended: bool): (r: seq<Event>)
    requires p <= |syms| && blockSize >= 1
    // every event carries a tone and lasts the minimum, except, as written, the last
    ensures forall k :: 0 <= k < |r| ==>
              (&& r[k].symbol != Silence && r[k].symbol != NoBlock
               && r[k].upper - r[k].lower >= minSamples)
              || (!intended && k == |r| - 1)
    decreases |syms| - p
  {
    if p == |syms| then
      var total := |syms| * blockSize + tail;
      var written := if intended then prev != Silence && prev != NoBlock && total - lower >= minSamples
                     else total - blockSize >= minSamples;
      if written then [Event(lower, total, prev)] else []
    else
      var current := syms[p];
      var start := p * blockSize;  // current_sample_index - block_size
      if prev == NoBlock then DetectFrom(syms, p + 1, lower, current, blockSize, tail, minSamples, intended)
      else if prev == current then DetectFrom(syms, p + 1, lower, prev, blockSize, tail, minSamples, intended)
      else if prev == Silence then DetectFrom(syms, p + 1, start, current, blockSize, tail, minSamples, intended)
      else
        (if start - lower >= minSamples then [Event(lower, start, prev)] else [])
        + DetectFrom(syms, p + 1, start, current, blockSize, tail, minSamples, intended)
  }

  /** `dtmf_detect` as written, after the header. */
  function Detect(syms: seq<char>, blockSize: nat, tail: nat, minSamples: nat): (r: seq<Event>)
    requires blockSize >= 1 && tail < blockSize
    ensures Classified(syms) ==> r == SelectedAsWritten(Runs(syms, 0), |syms|, blockSize, tail, minSamples)
  {
    var r := DetectFrom(syms, 0, 0, NoBlock, blockSize, tail, minSamples, false);
    if Classified(syms) && |syms| > 0 then
      DetectFromAsWritten(syms, 0, 1, blockSize, tail, minSamples);
      r
    else r
  }

  /** `dtmf_detect` with the end-of-input rule corrected. */
  function DetectIntended(syms: seq<char>, blockSize: nat, tail: nat, minSamples: nat): (r: seq<Event>)
    requires blockSize >= 1 && tail < blockSize
    ensures Classified(syms) ==> r == Selected(Runs(syms, 0), |syms|, blockSize, tail, minSamples)
  {
    var r := DetectFrom(syms, 0, 0, NoBlock, blockSize, tail, minSamples, true);
    if Classified(syms) && |syms| > 0 then
      DetectFromIntended(syms, 0, 1, blockSize, tail, minSamples);
      r
    else r
  }

  /** A maximal run of equal symbols: blocks [first, end). */
  datatype Run = Run(first: nat, end: nat, symbol: char)

  /** The block after the run of blocks equal to block `i`. */
  function RunEnd(syms: seq<char>, i: nat): (j: nat)
    requires i < |syms|
    ensures i < j <= |syms|
    ensures forall q :: i <= q < j ==> syms[q] == syms[i]
    ensures j < |syms| ==> syms[j] != syms[i]
    decreases |syms| - i
  {
    if i + 1 == |syms| || syms[i + 1] != syms[i] then i + 1 else RunEnd(syms, i + 1)
  }

  /** Reference: the partition of the blocks from `i` on into maximal runs. */
  function Runs(syms: seq<char>, i: nat): seq<Run>
    requires i <= |syms|
    decreases |syms| - i
  {
    if i == |syms| then []
    else
      var j := RunEnd(syms, i);
      [Run(i, j, syms[i])] + Runs(syms, j)
  }

  /** The event a run stands for: from the start of its first block to the start of
      the first differing block, or to the last sample read for the final run. */
  function RunEvent(r: Run, n: nat, blockSize: nat, tail: nat): Event {
    Event(r.first * blockSize, if r.end == n then n * blockSize + tail else r.end * blockSize, r.symbol)
  }

  /** A run worth reporting: a tone, lasting at least the minimum duration. */
  predicate Significant(e: Event, minSamples: nat) {
    e.symbol != Silence && e.upper - e.lower >= minSamples
  }

  /** Reference for the documented behaviour: the significant runs, in order. */
  function Selected(runs: seq<Run>, n: nat, blockSize: nat, tail: nat, minSamples: nat): seq<Event>
    decreases |runs|
  {
    if |runs| == 0 then []
    else
      var e := RunEvent(runs[0], n, blockSize, tail);
      (if Significant(e, minSamples) then [e] else [])
      + Selected(runs[1..], n, blockSize, tail, minSamples)
  }

  /** Reference for the code as written: every run but the last is selected as
      documented; the last is written when the samples read, less one block, reach
      the threshold, whatever its symbol. */
  function SelectedAsWritten(runs: seq<Run>, n: nat, blockSize: nat, tail: nat, minSamples: nat): seq<Event>
    decreases |runs|
  {
    if |runs| == 0 then []
    else
      var e := RunEvent(runs[0], n, blockSize, tail);
      if |runs| == 1 then
        (if n * blockSize + tail - blockSize >= minSamples then [e] else [])
      else
        (if Significant(e, minSamples) then [e] else [])
        + SelectedAsWritten(runs[1..], n, blockSize, tail, minSamples)
  }

  /** The loop in the middle of run `i`, at block `p`, computes the as-written
      selection of the runs from `i` on. */
  lemma {:induction false} DetectFromAsWritten(syms: seq<char>, i: nat, p: nat,
                                               blockSize: nat, tail: nat, minSamples: nat)
    requires Classified(syms) && blockSize >= 1
    requires i < p <= |syms|
    requires forall q :: i <= q < p ==> syms[q] == syms[i]
    ensures DetectFrom(syms, p, i * blockSize, syms[i], blockSize, tail, minSamples, false)
            == SelectedAsWritten(Runs(syms, i), |syms|, blockSize, tail, minSamples)
    decreases |syms| - p
  {
    var j := RunEnd(syms, i);
    var runs := Runs(syms, i);
    assert runs == [Run(i, j, syms[i])] + Runs(syms, j);
    if p == |syms| {
      assert Runs(syms, j) == [];
    } else if syms[p] == syms[i] {
      DetectFromAsWritten(syms, i, p + 1, blockSize, tail, minSamples);
    } else {
      assert j == p;
      assert syms[p] != NoBlock;
      DetectFromAsWritten(syms, p, p + 1, blockSize, tail, minSamples);
      assert runs[1..] == Runs(syms, p);
    }
  }

  /** `dtmf_detect` as written: mid-stream, each maximal run of one tone becomes one
      event [start of its first block, start of the first differing block) and is
      written exactly when long enough, and silent runs are never written; the
      final run follows the end-of-input rule. */
  lemma DetectAsWritten(syms: seq<char>, blockSize: nat, tail: nat, minSamples: nat)
    requires Classified(syms) && blockSize >= 1 && tail < blockSize
    ensures Detect(syms, blockSize, tail, minSamples)
            == SelectedAsWritten(Runs(syms, 0), |syms|, blockSize, tail, minSamples)
  {
    if |syms| > 0 {
      DetectFromAsWritten(syms, 0, 1, blockSize, tail, minSamples);
    }
  }

  /** The loop in the middle of run `i`, at block `p`, computes the documented
      selection of the runs from `i` on once the end-of-input rule is corrected. */
  lemma {:induction false} DetectFromIntended(syms: seq<char>, i: nat, p: nat,
                                              blockSize: nat, tail: nat, minSamples: nat)
    requires Classified(syms) && blockSize >= 1
    requires i < p <= |syms|
    requires forall q :: i <= q < p ==> syms[q] == syms[i]
    ensures DetectFrom(syms, p, i * blockSize, syms[i], blockSize, tail, minSamples, true)
            == Selected(Runs(syms, i), |syms|, blockSize, tail, minSamples)
    decreases |syms| - p
  {
    var j := RunEnd(syms, i);
    var runs := Runs(syms, i);
    assert runs == [Run(i, j, syms[i])] + Runs(syms, j);
    if p == |syms| {
      assert Runs(syms, j) == [];
      assert syms[i] != NoBlock;
    } else if syms[p] == syms[i] {
      DetectFromIntended(syms, i, p + 1, blockSize, tail, minSamples);
    } else {
      assert j == p;
      assert syms[p] != NoBlock;
      DetectFromIntended(syms, p, p + 1, blockSize, tail, minSamples);
      assert runs[1..] == Runs(syms, p);
    }
  }

  /** Corrected `dtmf_detect`: exactly the maximal runs of a tone lasting at least
      the minimum duration become events, the last one ending at the last sample. */
  lemma DetectIntendedSelects(syms: seq<char>, blockSize: nat, tail: nat, minSamples: nat)
    requires Classified(syms) && blockSize >= 1 && tail < blockSize
    ensures DetectIntended(syms, blockSize, tail, minSamples)
            == Selected(Runs(syms, 0), |syms|, blockSize, tail, minSamples)
  {
    if |syms| > 0 {
      DetectFromIntended(syms, 0, 1, blockSize, tail, minSamples);
    }
  }

  /** Block `j` starts at least one block after block `i` when i < j. */
  lemma {:induction false} BlockStarts(i: nat, j: nat, blockSize: nat)
    requires i < j
    ensures i * blockSize + blockSize <= j * blockSize
    decreases j - i
  {
    if j > i + 1 {
      BlockStarts(i, j - 1, blockSize);
    }
    assert j * blockSize == (j - 1) * blockSize + blockSize;
  }

  /** Tone events in order, each at least one block long, none before `from`. */
  predicate Shaped(events: seq<Event>, from: nat, blockSize: nat) {
    && WellFormed(events)
    && forall k :: 0 <= k < |events| ==>
         from <= events[k].lower && events[k].lower + blockSize <= events[k].upper
         && events[k].symbol in Keypad
  }

  lemma ShapedCons(e: Event, rest: seq<Event>, from: nat, next: nat, blockSize: nat)
    requires Shaped(rest, next, blockSize)
    requires from <= e.lower && e.lower + blockSize <= e.upper && e.symbol in Keypad
    requires |rest| > 0 ==> e.upper <= next
    ensures Shaped([e] + rest, from, blockSize)
  {
    var all := [e] + rest;
    forall k | 0 <= k < |all| - 1 ensures all[k].upper + 0 <= all[k + 1].lower {
      if k > 0 { assert all[k] == rest[k - 1] && all[k + 1] == rest[k]; }
    }
  }

  lemma ShapedFrom(events: seq<Event>, from: nat, from': nat, blockSize: nat)
    requires Shaped(events, from, blockSize) && from' <= from
    ensures Shaped(events, from', blockSize)
  {
  }

  /** Shape of the documented selection from run `i` on. */
  lemma {:induction false} SelectedShape(syms: seq<char>, i: nat, blockSize: nat, tail: nat, minSamples: nat)
    requires Classified(syms) && i <= |syms| && blockSize >= 1
    ensures Shaped(Selected(Runs(syms, i), |syms|, blockSize, tail, minSamples), i * blockSize, blockSize)
    decreases |syms| - i
  {
    if i < |syms| {
      var n := |syms|;
      var j := RunEnd(syms, i);
      var runs := Runs(syms, i);
      assert runs == [Run(i, j, syms[i])] + Runs(syms, j);
      assert runs[1..] == Runs(syms, j);
      var e := RunEvent(runs[0], n, blockSize, tail);
      var rest := Selected(Runs(syms, j), n, blockSize, tail, minSamples);
      SelectedShape(syms, j, blockSize, tail, minSamples);
      BlockStarts(i, j, blockSize);
      assert i * blockSize <= j * blockSize;
      ShapedFrom(rest, j * blockSize, i * blockSize, blockSize);
      if j == n {
        assert rest == [];
      }
      assert Selected(runs, n, blockSize, tail, minSamples)
             == (if Significant(e, minSamples) then [e] else []) + rest;
      if Significant(e, minSamples) {
        assert e.lower == i * blockSize;
        assert e.lower + blockSize <= e.upper;
        assert e.symbol in Keypad;
        ShapedCons(e, rest, i * blockSize, j * blockSize, blockSize);
      }
    }
  }

  /** Every event the corrected detector writes is a tone event of at least one
      block, and the events are in order without overlap, as `dtmf_generate`
      expects of its input. */
  lemma DetectIntendedWellFormed(syms: seq<char>, blockSize: nat, tail: nat, minSamples: nat)
    requires Classified(syms) && blockSize >= 1 && tail < blockSize
    ensures WellFormed(DetectIntended(syms, blockSize, tail, minSamples))
    ensures forall k :: 0 <= k < |DetectIntended(syms, blockSize, tail, minSamples)| ==>
              && DetectIntended(syms, blockSize, tail, minSamples)[k].upper
                 >= DetectIntended(syms, blockSize, tail, minSamples)[k].lower + blockSize
              && DetectIntended(syms, blockSize, tail, minSamples)[k].symbol in Keypad
  {
    DetectIntendedSelects(syms, blockSize, tail, minSamples);
    SelectedShape(syms, 0, blockSize, tail, minSamples);
  }

  /** Every event line the corrected detector writes reads back, through
      `read_DTMF_event`, as the same event. */
  lemma DetectedEventsReadBack(syms: seq<char>, blockSize: nat, tail: nat, minSamples: nat,
                               k: nat, rest: seq<char>)
    requires Classified(syms) && blockSize >= 1 && tail < blockSize
    requires k < |DetectIntended(syms, blockSize, tail, minSamples)|
    ensures var e := DetectIntended(syms, blockSize, tail, minSamples)[k];
            ReadEvent(FormatEvent(e) + rest) == Got(e.lower, e.upper, e.symbol, rest)
  {
    DetectIntendedWellFormed(syms, blockSize, tail, minSamples);
    ReadFormatted(DetectIntended(syms, blockSize, tail, minSamples)[k], rest);
  }

  /** As written, the final run is judged on the samples read less one block: a
      tone run long enough by the documented rule is dropped ... */
  lemma FinalRunShortened()
    ensures Detect(['1'], 100, 50, 100) == []
    ensures DetectIntended(['1'], 100, 50, 100) == [Event(0, 150, '1')]
  {
    assert DetectFrom(['1'], 1, 0, '1', 100, 50, 100, false) == [];
  }

  /** ... and a final run too short by the documented rule is written. */
  lemma FinalShortRunWritten()
    ensures Detect(['1', '1', '2'], 100, 0, 150) == [Event(0, 200, '1'), Event(200, 300, '2')]
    ensures DetectIntended(['1', '1', '2'], 100, 0, 150) == [Event(0, 200, '1')]
  {
    var syms := ['1', '1', '2'];
    assert DetectFrom(syms, 3, 200, '2', 100, 0, 150, false) == [Event(200, 300, '2')];
    assert DetectFrom(syms, 2, 0, '1', 100, 0, 150, false) == [Event(0, 200, '1'), Event(200, 300, '2')];
    assert DetectFrom(syms, 3, 200, '2', 100, 0, 150, true) == [];
    assert DetectFrom(syms, 2, 0, '1', 100, 0, 150, true) == [Event(0, 200, '1')];
  }

  /** As written, a silent final run is written as an event with symbol '\0'. */
  lemma TrailingSilenceWritten()
    ensures Detect(['1', Silence], 100, 0, 100) == [Event(0, 100, '1'), Event(100, 200, Silence)]
    ensures DetectIntended(['1', Silence], 100, 0, 100) == [Event(0, 100, '1')]
  {
    var syms := ['1', Silence];
    assert DetectFrom(syms, 2, 100, Silence, 100, 0, 100, false) == [Event(100, 200, Silence)];
    assert DetectFrom(syms, 1, 0, '1', 100, 0, 100, false) == [Event(0, 100, '1'), Event(100, 200, Silence)];
    assert DetectFrom(syms, 2, 100, Silence, 100, 0, 100, true) == [];
    assert DetectFrom(syms, 1, 0, '1', 100, 0, 100, true) == [Event(0, 100, '1')];
  }
}
