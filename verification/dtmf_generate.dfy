/** The sample-scheduling logic of `dtmf_generate` in DTMF/src/dtmf.c. The waveform
    (cosines, noise mixing) is abstracted away: the model records, for each sample
    index, the DTMF symbol whose tone is synthesized there, or `Silence` for a
    zero (or pure-noise) sample. The events are what successive calls of
    `read_DTMF_event` return; running out of them is end of file. */
module DtmfGenerate {

  import opened Optional
  import opened DtmfEvents
  import Audio

  /** The header `dtmf_generate` writes before the samples: `data_size` is
      `length * 2` in 32-bit unsigned arithmetic. */
  function GeneratedHeader(length: Audio.u32): (h: Audio.AudioHeader)
    ensures Audio.Acceptable(h) && h.dataOffset == 24
    ensures h.dataSize == (2 * length) % 0x1_0000_0000
  {
    Audio.AudioHeader(Audio.Magic, 24, (length * 2) % 0x1_0000_0000,
                      Audio.Pcm16, Audio.FrameRate, Audio.Mono)
  }

  /** What `dtmf_generate` writes is accepted by `audio_read_header`, the reader
      `dtmf_detect` starts with. */
  lemma GeneratedHeaderReadable(length: Audio.u32, samples: seq<Audio.byte>, hp: Audio.AudioHeader)
    ensures var out := Audio.WriteHeader(Audio.Open([]), GeneratedHeader(length)).out;
            && out.Open?
            && Audio.ReadHeader(Audio.Open(out.bytes + samples), hp)
               == Audio.HeaderRead(0, GeneratedHeader(length), Audio.Open(samples))
  {
    var h := GeneratedHeader(length);
    assert [] + Audio.HeaderBytes(h) == Audio.HeaderBytes(h);
    Audio.HeaderRoundTrip(h, samples, hp);
  }

  /** Does event `e` cover sample index `i`? */
  predicate Covers(e: Event, i: int) {
    e.lower <= i < e.upper
  }

  /** Reference: the symbol of the first event covering `i`, or silence. */
  function SymbolAt(events: seq<Event>, m: nat, i: nat): char
    requires m <= |events|
    decreases |events| - m
  {
    if m == |events| then Silence
    else if Covers(events[m], i) then events[m].symbol
    else SymbolAt(events, m + 1, i)
  }

  /** Reference: the symbol at every index from `i` up to `length`. */
  function Timeline(events: seq<Event>, i: nat, length: nat): seq<char>
    decreases length - i
  {
    if i >= length then [] else [SymbolAt(events, 0, i)] + Timeline(events, i + 1, length)
  }

  /** Events as `dtmf_generate` documents them: each [lower, upper) in order, and
      each starting at least `gap` samples after the previous one ended. */
  predicate Ordered(events: seq<Event>, gap: nat) {
    && (forall k :: 0 <= k < |events| ==> events[k].lower <= events[k].upper)
    && (forall k :: 0 <= k < |events| - 1 ==> events[k].upper + gap <= events[k + 1].lower)
  }

  /** Non-overlapping events in increasing order (they may touch). */
  predicate WellFormed(events: seq<Event>) {
    Ordered(events, 0)
  }

  /** Well-formed, and no event starts where its predecessor ends. */
  predicate Separated(events: seq<Event>) {
    Ordered(events, 1)
  }

  lemma {:induction false} OrderedSpan(events: seq<Event>, gap: nat, k: nat, j: nat)
    requires Ordered(events, gap) && k < j < |events|
    ensures events[k].upper + gap <= events[j].lower
    decreases j - k
  {
    if j > k + 1 {
      OrderedSpan(events, gap, k + 1, j);
    }
  }

  /** When every event but `k` misses `i`, the reference symbol is `k`'s or silence. */
  lemma {:induction false} OnlyCandidate(events: seq<Event>, m: nat, k: nat, i: nat)
    requires m <= |events| && k < |events|
    requires forall j :: m <= j < |events| && j != k ==> !Covers(events[j], i)
    ensures SymbolAt(events, m, i)
            == (if m <= k && Covers(events[k], i) then events[k].symbol else Silence)
    decreases |events| - m
  {
    if m < |events| {
      OnlyCandidate(events, m + 1, k, i);
    }
  }

  /** The main loop of `dtmf_generate`, from sample index `i` with event `k` in hand;
      `noMore` is the `no_DTMF_Event` flag. When the index reaches the end of the
      current event the next event is read, and that index itself is silent. */
  function GenerateFrom(events: seq<Event>, k: nat, noMore: bool, i: nat, length: nat): (r: seq<char>)
    requires k < |events|
    ensures |r| == if i < length then length - i else 0
    decreases length - i
  {
    if i >= length then []
    else
      var e := events[k];
      if i < e.lower then [Silence] + GenerateFrom(events, k, noMore, i + 1, length)
      else if i < e.upper then [e.symbol] + GenerateFrom(events, k, noMore, i + 1, length)
      else if !noMore then
        if k + 1 < |events| then [Silence] + GenerateFrom(events, k + 1, false, i + 1, length)
        else [Silence] + GenerateFrom(events, k, true, i + 1, length)
      else [Silence] + GenerateFrom(events, k, true, i + 1, length)
  }

  /** `dtmf_generate`, as written: None (the -1 return) when not even one event can
      be read, otherwise the `length` scheduled samples. */
  function Generate(events: seq<Event>, length: nat): (r: Option<seq<char>>)
    ensures r.None? <==> |events| == 0
    ensures r.Some? ==> |r.value| == length
  {
    if |events| == 0 then None else Some(GenerateFrom(events, 0, false, 0, length))
  }

  /** Sample `c` at index `i` is silent or the tone of an event covering `i`. */
  predicate Permitted(events: seq<Event>, c: char, i: nat) {
    c == Silence || exists m :: 0 <= m < |events| && Covers(events[m], i) && c == events[m].symbol
  }

  /** Whatever the events, a tone is only ever written inside an event that has it:
      every sample is silent or carries the symbol of an event covering its index. */
  lemma {:induction false} GenerateFromSound(events: seq<Event>, k: nat, noMore: bool, i: nat, length: nat)
    requires k < |events|
    ensures forall j :: 0 <= j < |GenerateFrom(events, k, noMore, i, length)| ==>
              Permitted(events, GenerateFrom(events, k, noMore, i, length)[j], i + j)
    decreases length - i
  {
    if i < length {
      var e := events[k];
      var r := GenerateFrom(events, k, noMore, i, length);
      var past := e.lower <= i && e.upper <= i;
      var k' := if past && !noMore && k + 1 < |events| then k + 1 else k;
      var noMore' := if past && !noMore && k + 1 < |events| then false
                     else if past then true else noMore;
      GenerateFromSound(events, k', noMore', i + 1, length);
      var tail := GenerateFrom(events, k', noMore', i + 1, length);
      assert r == [r[0]] + tail;
      assert Permitted(events, r[0], i + 0);
      forall j | 1 <= j < |r| ensures Permitted(events, r[j], i + j) {
        assert r[j] == tail[j - 1];
        assert Permitted(events, tail[j - 1], (i + 1) + (j - 1));
      }
    }
  }

  /** With at least one sample of silence between consecutive events, the loop as
      written produces exactly the documented timeline. */
  lemma {:induction false} GenerateFromSeparated(events: seq<Event>, k: nat, noMore: bool, i: nat, length: nat)
    requires Separated(events) && k < |events|
    requires forall j :: 0 <= j < k ==> events[j].upper <= i
    requires k + 1 < |events| ==> i <= events[k].upper
    requires noMore ==> k + 1 == |events|
    ensures GenerateFrom(events, k, noMore, i, length) == Timeline(events, i, length)
    decreases length - i
  {
    if i < length {
      var e := events[k];
      forall j | k < j < |events| ensures e.upper + 1 <= events[j].lower {
        OrderedSpan(events, 1, k, j);
      }
      if e.upper <= i && !noMore && k + 1 < |events| {
        // the index where the next event is fetched: i == e.upper, covered by nobody
        OnlyCandidate(events, 0, k, i);
        GenerateFromSeparated(events, k + 1, false, i + 1, length);
      } else {
        OnlyCandidate(events, 0, k, i);
        GenerateFromSeparated(events, k, noMore || e.upper <= i, i + 1, length);
      }
    }
  }

  lemma GenerateSeparated(events: seq<Event>, length: nat)
    requires Separated(events) && |events| > 0
    ensures Generate(events, length) == Some(Timeline(events, 0, length))
  {
    GenerateFromSeparated(events, 0, false, 0, length);
  }

  /** As written, an event that starts exactly where its predecessor ends loses its
      first sample: the index at which it is read is always written silent. */
  lemma AdjacentEventLosesFirstSample()
    ensures Generate([Event(0, 1, '1'), Event(1, 2, '2')], 2) == Some(['1', Silence])
    ensures Timeline([Event(0, 1, '1'), Event(1, 2, '2')], 0, 2) == ['1', '2']
  {
    var events := [Event(0, 1, '1'), Event(1, 2, '2')];
    assert GenerateFrom(events, 1, false, 2, 2) == [];
    assert GenerateFrom(events, 0, false, 1, 2) == [Silence];
    assert GenerateFrom(events, 0, false, 0, 2) == ['1', Silence];
    assert SymbolAt(events, 0, 1) == '2';
  }

  /** The index at which the loop as written reads event `k`. Event 0 is read
      before the loop, which we place at index -1. Event `k` (k >= 1) is read at
      the first index, after the one at which event k-1 was read, that is not
      before the end of event k-1. */
  function FetchAt(events: seq<Event>, k: nat): int
    requires k < |events|
  {
    if k == 0 then -1
    else
      var next := FetchAt(events, k - 1) + 1;
      if next < events[k - 1].upper then events[k - 1].upper else next
  }

  /** The indices at which an event is read inside the loop. */
  function Fetches(events: seq<Event>): set<int> {
    set k | 1 <= k < |events| :: FetchAt(events, k)
  }

  /** Reference for the loop as written on any well-formed schedule: every index at
      which an event is read is silent, every other index is the timeline's. */
  function Scheduled(events: seq<Event>, i: nat, length: nat): seq<char>
    decreases length - i
  {
    if i >= length then []
    else [if i in Fetches(events) then Silence else SymbolAt(events, 0, i)] + Scheduled(events, i + 1, length)
  }

  /** Each read uses up its own index: the read indices strictly increase. */
  lemma {:induction false} FetchIncreases(events: seq<Event>, j: nat, k: nat)
    requires j < k < |events|
    ensures FetchAt(events, j) < FetchAt(events, k)
    decreases k - j
  {
    if k > j + 1 {
      FetchIncreases(events, j, k - 1);
    }
  }

  /** An index after the read of event `k` and before the read of event k+1 is no
      read index. */
  lemma NotAFetch(events: seq<Event>, k: nat, i: int)
    requires k < |events| && FetchAt(events, k) < i
    requires k + 1 < |events| ==> i < FetchAt(events, k + 1)
    ensures i !in Fetches(events)
  {
    forall j | 1 <= j < |events| ensures FetchAt(events, j) != i {
      if j < k {
        FetchIncreases(events, j, k);
      } else if j > k + 1 {
        FetchIncreases(events, k + 1, j);
      }
    }
  }

  /** While event `k` is current and has not ended, only `k` can cover the index. */
  lemma CurrentOnly(events: seq<Event>, k: nat, i: nat)
    requires WellFormed(events) && k < |events| && FetchAt(events, k) < i
    requires k + 1 < |events| ==> i < events[k].upper
    ensures SymbolAt(events, 0, i) == if Covers(events[k], i) then events[k].symbol else Silence
  {
    forall j | 0 <= j < k ensures events[j].upper <= FetchAt(events, k) {
      if j + 1 < k { FetchIncreases(events, j + 1, k); }
    }
    forall j | k < j < |events| ensures events[k].upper <= events[j].lower {
      OrderedSpan(events, 0, k, j);
    }
    OnlyCandidate(events, 0, k, i);
  }

  lemma {:induction false} GenerateFromScheduled(events: seq<Event>, k: nat, noMore: bool, i: nat, length: nat)
    requires WellFormed(events) && k < |events|
    requires FetchAt(events, k) < i
    requires k + 1 < |events| ==> i <= FetchAt(events, k + 1)
    requires noMore ==> k + 1 == |events| && events[k].upper <= i
    ensures GenerateFrom(events, k, noMore, i, length) == Scheduled(events, i, length)
    decreases length - i
  {
    if i < length {
      var e := events[k];
      var past := e.lower <= i && e.upper <= i;
      if past && !noMore && k + 1 < |events| {
        assert i == FetchAt(events, k + 1);
        assert i in Fetches(events);
        GenerateFromScheduled(events, k + 1, false, i + 1, length);
      } else {
        NotAFetch(events, k, i);
        CurrentOnly(events, k, i);
        GenerateFromScheduled(events, k, noMore || past, i + 1, length);
      }
    }
  }

  /** On every well-formed list of events, touching ones included, the loop as
      written produces the timeline except at the indices where it reads an event,
      which are silent. */
  lemma GenerateWellFormed(events: seq<Event>, length: nat)
    requires WellFormed(events) && |events| > 0
    ensures Generate(events, length) == Some(Scheduled(events, 0, length))
  {
    GenerateFromScheduled(events, 0, false, 0, length);
  }

  /** `Scheduled` differs from `Timeline` exactly by silencing the read indices. */
  lemma {:induction false} ScheduledIsTimelineOffFetches(events: seq<Event>, i: nat, length: nat)
    ensures |Scheduled(events, i, length)| == |Timeline(events, i, length)|
    ensures forall j :: 0 <= j < |Scheduled(events, i, length)| ==>
              Scheduled(events, i, length)[j]
              == if i + j in Fetches(events) then Silence else Timeline(events, i, length)[j]
    decreases length - i
  {
    if i < length {
      ScheduledIsTimelineOffFetches(events, i + 1, length);
      var s := Scheduled(events, i, length);
      var tl := Timeline(events, i, length);
      forall j | 1 <= j < |s|
        ensures s[j] == if i + j in Fetches(events) then Silence else tl[j]
      {
        assert s[j] == Scheduled(events, i + 1, length)[j - 1];
        assert tl[j] == Timeline(events, i + 1, length)[j - 1];
        assert (i + 1) + (j - 1) == i + j;
      }
    }
  }

  /** The loop with the evidently intended behaviour: when the current event is over
      and another one can be read, read it and examine the SAME index again. */
  function GenerateIntendedFrom(events: seq<Event>, k: nat, i: nat, length: nat): (r: seq<char>)
    requires k < |events|
    ensures |r| == if i < length then length - i else 0
    decreases length - i, |events| - k
  {
    if i >= length then []
    else
      var e := events[k];
      if e.upper <= i && k + 1 < |events| then GenerateIntendedFrom(events, k + 1, i, length)
      else [if Covers(e, i) then e.symbol else Silence] + GenerateIntendedFrom(events, k, i + 1, length)
  }

  function GenerateIntended(events: seq<Event>, length: nat): (r: Option<seq<char>>)
    ensures r.None? <==> |events| == 0
  {
    if |events| == 0 then None else Some(GenerateIntendedFrom(events, 0, 0, length))
  }

  lemma {:induction false} GenerateIntendedFromCorrect(events: seq<Event>, k: nat, i: nat, length: nat)
    requires WellFormed(events) && k < |events|
    requires forall j :: 0 <= j < k ==> events[j].upper <= i
    ensures GenerateIntendedFrom(events, k, i, length) == Timeline(events, i, length)
    decreases length - i, |events| - k
  {
    if i < length {
      var e := events[k];
      if e.upper <= i && k + 1 < |events| {
        GenerateIntendedFromCorrect(events, k + 1, i, length);
      } else {
        forall j | k < j < |events| ensures e.upper <= events[j].lower {
          OrderedSpan(events, 0, k, j);
        }
        OnlyCandidate(events, 0, k, i);
        GenerateIntendedFromCorrect(events, k, i + 1, length);
      }
    }
  }

  /** The intended loop produces the documented timeline for every well-formed
      list of events, touching events included. */
  lemma GenerateIntendedCorrect(events: seq<Event>, length: nat)
    requires WellFormed(events) && |events| > 0
    ensures GenerateIntended(events, length) == Some(Timeline(events, 0, length))
  {
    GenerateIntendedFromCorrect(events, 0, 0, length);
  }
}
