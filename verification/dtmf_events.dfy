/** The textual DTMF event line of DTMF/src/dtmf.c: `write_DTMF_2_file` prints
    "lower TAB upper TAB symbol NEWLINE" and `read_DTMF_event` parses one such line
    from a stream. Streams are sequences of byte-valued characters; the end of the
    sequence is end of file. */
module DtmfEvents {

  import opened Optional
  import Decimal

  /** A DTMF event: samples [lower, upper) carry `symbol`. */
  datatype Event = Event(lower: nat, upper: nat, symbol: char)

  /** The symbol of a sample without tone: what `dtmf_generate` passes to
      `write_2_file` outside every event, and what the classifier reports for a
      block in which `dtmf_detect` recognizes no tone. */
  const Silence: char := '\0'

  /** `write_DTMF_2_file`. A zero lower index is printed as "0", but the upper index
      goes through the digit loops alone, which print nothing for 0. */
  function FormatEvent(e: Event): seq<char> {
    (if e.lower == 0 then "0" else Decimal.Digits(e.lower))
      + "\t" + Decimal.Digits(e.upper) + "\t" + [e.symbol] + "\n"
  }

  /** The outcome of `read_DTMF_event`. `Overrun` stands for the inputs on which the
      C code runs past its data. Without a newline before end of file, the
      buffering loop stores EOF bytes past the end of `line_buf` and never stops.
      A line lacking its two tabs makes the field loops read past the newline into
      stale buffer contents. */
  datatype ReadResult =
    | Got(lower: int, upper: int, symbol: char, rest: seq<char>)
    | EndOfInput
    | Overrun

  /** `fgetc`'s EOF (-1) stored into a signed `char` and compared with -1: a first
      byte 0xFF reads as end of file too. */
  const EofByte: char := 0xFF as char

  /** First index at or after `from` holding `c`. */
  function Find(s: seq<char>, c: char, from: nat): (r: Option<nat>)
    ensures r.Some? ==> from <= r.value < |s| && s[r.value] == c
    ensures r.Some? ==> forall k :: from <= k < r.value ==> s[k] != c
    ensures r.None? ==> forall k :: from <= k < |s| ==> s[k] != c
    decreases |s| - from
  {
    if from >= |s| then None
    else if s[from] == c then Some(from)
    else Find(s, c, from + 1)
  }

  lemma FindAt(s: seq<char>, c: char, from: nat, k: nat)
    requires from <= k < |s| && s[k] == c
    requires forall j :: from <= j < k ==> s[j] != c
    ensures Find(s, c, from) == Some(k)
  {
  }

  /** `read_DTMF_event`. The first byte is read on its own; bytes are then buffered
      until a newline, so the line always holds at least one byte before its
      newline. Each number field is a do-while loop: its first byte is accumulated
      even when it is a tab, and accumulation stops at the next tab. The symbol is
      the byte after the second tab. */
  function ReadEvent(input: seq<char>): (r: ReadResult)
    ensures r.Got? ==> |r.rest| < |input|
  {
    if |input| == 0 || input[0] == EofByte then EndOfInput
    else match Find(input, '\n', 1)
      case None => Overrun
      case Some(nl) =>
        var line := input[..nl + 1];
        match Find(line, '\t', 1)
        case None => Overrun
        case Some(tab1) =>
          match Find(line, '\t', tab1 + 2)
          case None => Overrun
          case Some(tab2) =>
            Got(Decimal.Fold(0, line[..tab1]),
                Decimal.Fold(0, line[tab1 + 1..tab2]),
                line[tab2 + 1],
                input[nl + 1..])
  }

  /** The text of a number field as `FormatEvent` prints the lower index. */
  function LowerText(n: nat): (t: seq<char>)
    ensures |t| > 0 && Decimal.AllDigits(t) && Decimal.Value(t) == n
  {
    Decimal.DigitsValue(n);
    if n == 0 then "0" else Decimal.Digits(n)
  }

  /** Neither tab nor newline. */
  predicate Plain(t: seq<char>) {
    forall k :: 0 <= k < |t| ==> t[k] != '\t' && t[k] != '\n'
  }

  /** Any line of the shape `read_DTMF_event` expects is parsed field by field. */
  lemma ParseLine(lo: seq<char>, up: seq<char>, sym: char, rest: seq<char>)
    requires |lo| > 0 && |up| > 0 && Plain(lo) && Plain(up)
    requires lo[0] != EofByte && sym != '\n'
    ensures ReadEvent(lo + "\t" + up + "\t" + [sym] + "\n" + rest)
            == Got(Decimal.Fold(0, lo), Decimal.Fold(0, up), sym, rest)
  {
    var line := lo + "\t" + up + "\t" + [sym] + "\n";
    var input := line + rest;
    assert input == lo + "\t" + up + "\t" + [sym] + "\n" + rest;
    var tab1 := |lo|;
    var tab2 := tab1 + 1 + |up|;
    var nl := tab2 + 2;
    assert |line| == nl + 1;
    assert forall k :: 0 <= k < tab1 ==> line[k] == lo[k];
    assert forall k :: tab1 < k < tab2 ==> line[k] == up[k - tab1 - 1];
    assert line[tab1] == '\t' && line[tab2] == '\t' && line[tab2 + 1] == sym && line[nl] == '\n';
    assert forall k :: 0 <= k < |line| ==> input[k] == line[k];
    FindAt(input, '\n', 1, nl);
    assert input[..nl + 1] == line;
    FindAt(line, '\t', 1, tab1);
    FindAt(line, '\t', tab1 + 2, tab2);
    assert line[..tab1] == lo;
    assert line[tab1 + 1..tab2] == up;
    assert input[nl + 1..] == rest;
  }

  lemma DigitsArePlain(t: seq<char>)
    requires Decimal.AllDigits(t)
    ensures Plain(t)
  {
    forall k | 0 <= k < |t| ensures t[k] != '\t' && t[k] != '\n' {
      assert Decimal.IsDigit(t[k]);
    }
  }

  /** Reading back a printed event gives the event and leaves the rest of the
      stream, provided the upper index is positive and the symbol is not a newline. */
  lemma ReadFormatted(e: Event, rest: seq<char>)
    requires e.upper >= 1 && e.symbol != '\n'
    ensures ReadEvent(FormatEvent(e) + rest) == Got(e.lower, e.upper, e.symbol, rest)
  {
    var lo := LowerText(e.lower);
    var up := Decimal.Digits(e.upper);
    Decimal.DigitsValue(e.upper);
    DigitsArePlain(lo);
    DigitsArePlain(up);
    assert Decimal.IsDigit(lo[0]);
    ParseLine(lo, up, e.symbol, rest);
  }

  /** An event with upper index 0 is printed with an empty upper field, and the line
      cannot be read back: the parser searches for a second tab that is not there. */
  lemma ZeroUpperUnreadable(lower: nat, symbol: char, rest: seq<char>)
    requires symbol != '\t' && symbol != '\n'
    ensures ReadEvent(FormatEvent(Event(lower, 0, symbol)) + rest) == Overrun
  {
    var lo := LowerText(lower);
    var text := FormatEvent(Event(lower, 0, symbol));
    assert text == lo + "\t\t" + [symbol] + "\n";
    var input := text + rest;
    var nl := |text| - 1;
    forall k | 1 <= k < nl ensures input[k] != '\n' {
      if k < |lo| { assert input[k] == lo[k]; }
    }
    FindAt(input, '\n', 1, nl);
    var line := input[..nl + 1];
    assert line == text;
    forall k | 1 <= k < |lo| ensures line[k] != '\t' {
      assert line[k] == lo[k];
    }
    FindAt(line, '\t', 1, |lo|);
    assert Find(line, '\t', |lo| + 2) == None;
    SecondTabMissing(input, nl, |lo|);
  }

  /** A line whose second tab is missing is not read. */
  lemma SecondTabMissing(input: seq<char>, nl: nat, tab1: nat)
    requires |input| > 0 && input[0] != EofByte && Find(input, '\n', 1) == Some(nl)
    requires Find(input[..nl + 1], '\t', 1) == Some(tab1)
    requires Find(input[..nl + 1], '\t', tab1 + 2) == None
    ensures ReadEvent(input) == Overrun
  {
  }
}
