# DTMF tone tool and finddup, modelled in Dafny

This project models the computational core of two small C programs.

- **The DTMF tool** (`DTMF/src`) has three parts.
  - It converts a list of DTMF *events* to a Sun `.au` audio file (`dtmf -g`). Each event is a text line "lower TAB upper TAB symbol": samples `[lower, upper)` carry the tone of keypad `symbol`.
  - It converts an audio file back to events (`dtmf -d`).
  - It checks its command line (`validargs`).

  The model covers four pieces of the code. The first is the argument checker with its string helpers. The second is the event-line writer and reader. The third is the `.au` codec (32-bit header fields, 16-bit samples, the six-field header). The fourth is the sample scheduling of `dtmf_generate` and the run segmentation of `dtmf_detect`.
- **finddup** (`finddup/src/finddup.c`) lists hard links and duplicate files. Its file list is sorted with the comparator `comp1`, and pass `scan2` groups it in place. The model covers the comparator, the flag macros, `str_to_int`, and the two in-array passes of `scan2`: link marking, and the move that gathers duplicates.

Module layout:

| file | module | contents |
|---|---|---|
| `optional.dfy` | `Optional` | `Option` |
| `cstring.dfy` | `CString` | C strings as the characters before the NUL |
| `decimal.dfy` | `Decimal` | decimal text: digit loops shared by both `str_to_int`s, the digit writer |
| `dtmf_args.dfy` | `DtmfArgs` | `str_comp`, `str_to_int`, `validargs`, the mode dispatch of `main` |
| `dtmf_events.dfy` | `DtmfEvents` | `write_DTMF_2_file`, `read_DTMF_event` |
| `audio.dfy` | `Audio` | `audio.c` |
| `dtmf_generate.dfy` | `DtmfGenerate` | header and sample schedule of `dtmf_generate` |
| `dtmf_detect.dfy` | `DtmfDetect` | block/run segmentation of `dtmf_detect` |
| `finddup.dfy` | `FindDup` | `comp1`, `GetFlag`/`SetFlag`, `str_to_int`, `scan2` |

How the model treats things the C code does:

- **Streams.** A `FILE *` is a value: a byte sequence still to be read, or the bytes written so far (`Audio.Stream`, with `Null` for a NULL pointer). A routine returns its status together with the stream it leaves behind.
- **Global variables.** The DTMF program's globals (`global_options`, `audio_samples`, `noise_level`, `block_size`, `noise_file`) form one `DtmfArgs.Config` value. `validargs` receives it and returns it.
- **Waveforms.** Generation is modelled as the symbol written at each sample index, with silence as `'\0'`. Detection is modelled from the per-block symbols that the Goertzel classifier reports.
- **Integers.** Integers are unbounded. The code's fixed-width arithmetic is written out in five places:
  - `data_size = length*2` in `uint32_t`;
  - the `int` accumulator of `unit32_read_file`;
  - the `int16_t` conversion of the sample codec (`Audio.ToInt16`);
  - the truncation of `comp1`'s differences to `int`;
  - the signed `char` reading of bytes (`Decimal.CharCode`): a byte from 0x80 up counts as negative in `c - 48`, and a 0xFF byte read into a `char` compares equal to EOF (`DtmfEvents.EofByte`).
- **fullcmp.** finddup's content comparison `fullcmp` is a parameter `same`.

Several contracts come with an independent reference definition that an all-inputs lemma ties them to:

- `Timeline`, for the generator's schedule;
- `Runs`/`Selected`, for the detector's segmentation;
- `U32At`, for the codec;
- `Value`, for the digit loops;
- `LinkMarked` and `Moved`, for the `scan2` passes;
- `GenerateSettings`, for the `-g` options.

## Model

| member | source | states |
|---|---|---|
| Decimal.ParseDigits | DTMF/src/dtmf.c:427-436 | the digit loop of both `str_to_int`s: on an all-digit string it yields acc·10^n plus the positional value, and it gives up on any other string |
| Decimal.Fold | DTMF/src/dtmf.c:525-537 | the `n = n*10 + (c-48)` accumulation of `read_DTMF_event`: on a digit string it gives acc·10^n plus the positional value |
| Decimal.FoldIsValue | DTMF/src/dtmf.c:525-537 | the unchecked `n = n*10 + (c-48)` accumulation of `read_DTMF_event` equals the positional value on digit strings |
| Decimal.Digits | DTMF/src/dtmf.c:684-696 | the digits `write_DTMF_2_file` prints for n: all digits, empty exactly for 0, no leading zero |
| Decimal.DigitsValue | DTMF/src/dtmf.c:684-696 | reading the printed digits back gives n, both by positional value and by the C accumulation |
| DtmfArgs.MatchThrough | DTMF/src/dtmf.c:404-409 | the character loop of `str_comp` succeeds iff the buffers agree at every compared position |
| DtmfArgs.StrComp | DTMF/src/dtmf.c:382-412 | `str_comp` returns only 0 or 1, and 1 exactly when the strings are equal |
| DtmfArgs.StrToInt | DTMF/src/dtmf.c:414-439 | an optional '-' negates the decimal value of the digits; any non-digit gives -111 |
| DtmfArgs.GenerateOptions | DTMF/src/dtmf.c:300-345 | the `-g` option loop succeeds iff every option pair is a valid `-t`, `-n` or `-l` with a value in range; on success the settings are those of the last occurrence of each option; the block size is never touched |
| DtmfArgs.ValidArgs | DTMF/src/dtmf.c:272-379 | return value 0 or -1. No flag fails with the globals untouched. `-h` selects help whatever follows. `-g` accepts exactly the even, at most 8 argument lines with valid pairs, with the settings they name. `-d` accepts a bare `-d` (no mode set) or `-b` with 10..1000. Anything else fails with the defaults stored |
| DtmfArgs.Dispatch | DTMF/src/main.c:23-37 | a total case split: usage-and-fail exactly on a failed validation, usage-and-succeed exactly when the help bit is set, generate exactly for mode 2, detect exactly for mode 4, failure exit for every other mode |
| DtmfArgs.DispatchAfterValidation | DTMF/src/main.c:23-37 | from the initial mode 0, `main` after `validargs` shows help exactly for `-h`, generates exactly for an accepted `-g` with options, detects exactly for an accepted `-d -b`, and exits with failure exactly for a bare `-g` or `-d` |
| DtmfArgs.BareModeFlagSelectsNothing | DTMF/src/dtmf.c:350-354 | `dtmf -g` and `dtmf -d` alone are accepted without selecting a mode, so `main` exits with failure |
| DtmfArgs.ValidArgsIntended | DTMF/src/dtmf.c:296-372 | corrected `validargs`: accepts the same command lines, and an accepted `-g` or `-d` always runs that mode |
| DtmfEvents.FormatEvent | DTMF/src/dtmf.c:656-701 | the line `write_DTMF_2_file` prints: lower (0 as "0"), TAB, upper, TAB, symbol, newline |
| DtmfEvents.Find | DTMF/src/dtmf.c:519-537 | the buffered scan for a character finds its first occurrence at or after the start, if any |
| DtmfEvents.ReadEvent | DTMF/src/dtmf.c:512-547 | end of input (or a 0xFF first byte) is EOF; otherwise one line is consumed and split at its first two tabs |
| DtmfEvents.ReadFormatted | DTMF/src/dtmf.c:512-547 | every event line written with upper ≥ 1 and a symbol other than newline reads back as the same event, leaving the rest of the input |
| DtmfEvents.ZeroUpperUnreadable | DTMF/src/dtmf.c:682-697 | an upper index 0 is printed as nothing, and the line it produces is not readable |
| Audio.U32Bytes | DTMF/src/audio.c:95-117 | the four bytes written for a 32-bit field are its big-endian encoding |
| Audio.WriteU32 | DTMF/src/audio.c:95-117 | writing a field fails only on NULL; otherwise it appends the encoding |
| Audio.ReadU32 | DTMF/src/audio.c:119-134 | reading a field fails only on NULL. With four bytes it gives their big-endian value and consumes them. A short read is not detected: the value ends in byte 0xFF and the input is exhausted |
| Audio.U32RoundTrip | DTMF/src/audio.c:95-134 | reading back a written field gives the field and the rest of the stream |
| Audio.ShortReadLowByte | DTMF/src/audio.c:123-127 | a missing byte shifted into the accumulator leaves 0xFF in the low byte |
| Audio.ToInt16 | DTMF/src/audio.c:69-74 | storing an `int` into the `int16_t` accumulator keeps its value modulo 2^16, and leaves values that fit unchanged |
| Audio.SampleBytes | DTMF/src/audio.c:81-93 | the two bytes written for a sample are its 16-bit two's-complement pattern, high byte first |
| Audio.WriteSample | DTMF/src/audio.c:81-93 | writing a sample fails only on NULL; otherwise it appends its two bytes |
| Audio.ReadSample | DTMF/src/audio.c:63-79 | reading succeeds iff the stream is open with two bytes left; it consumes them, and the value is their big-endian 16-bit pattern as a signed number |
| Audio.SampleRoundTrip | DTMF/src/audio.c:63-93 | every sample reads back as written |
| Audio.HeaderBytes | DTMF/src/audio.c:50-61 | the 24 header bytes carry the six fields in order, each big-endian |
| Audio.WriteHeader | DTMF/src/audio.c:50-61 | writing the header fails only on NULL; otherwise it appends the 24 bytes |
| Audio.ReadHeader | DTMF/src/audio.c:16-48 | the header reader returns only 0 or EOF |
| Audio.ReadHeaderAccepts | DTMF/src/audio.c:16-48 | the header is accepted iff the input has 24 bytes with magic 0x2e736e64, encoding 3, rate 8000 and 1 channel; it is then stored whole and exactly 24 bytes are consumed |
| Audio.TruncatedHeaderRejected | DTMF/src/audio.c:16-48 | a stream shorter than 24 bytes is rejected |
| Audio.ReadHeaderStopsAtRejection | DTMF/src/audio.c:21-42 | on any input that holds the rejected field in full: when a field check fails the reader stops right after that field, with exactly the fields read before it stored |
| Audio.ReadHeaderCutOff | DTMF/src/audio.c:16-48 | on an input that ends inside a field: the first fixed field cut short is rejected (its low byte reads 0xFF), the stream is left empty, and the fields before it are stored, the offset and size with their values when their bytes were there |
| Audio.HeaderRoundTrip | DTMF/src/audio.c:16-61 | an acceptable header written by `audio_write_header` is read back unchanged |
| DtmfGenerate.GeneratedHeader | DTMF/src/dtmf.c:110-118 | the header `dtmf_generate` writes is acceptable to the reader, has offset 24 and data size 2·length in 32-bit arithmetic |
| DtmfGenerate.GeneratedHeaderReadable | DTMF/src/dtmf.c:110-118 | what `dtmf_generate` writes is read back by `audio_read_header` as that header |
| DtmfGenerate.GenerateFrom | DTMF/src/dtmf.c:130-153 | the sample loop writes exactly the samples from the current index up to `length` |
| DtmfGenerate.Generate | DTMF/src/dtmf.c:128-156 | fails iff not one event can be read; otherwise writes `length` samples |
| DtmfGenerate.GenerateFromSound | DTMF/src/dtmf.c:130-153 | whatever the events, every sample is silent or has the tone of an event covering its index |
| DtmfGenerate.GenerateSeparated | DTMF/src/dtmf.c:128-153 | for ordered events with at least one silent sample between them, the output is exactly the documented timeline |
| DtmfGenerate.AdjacentEventLosesFirstSample | DTMF/src/dtmf.c:142-146 | as written, an event starting where its predecessor ends has its first sample silenced |
| DtmfGenerate.FetchIncreases | DTMF/src/dtmf.c:142-146 | each event is read at its own index: the indices at which the loop reads events strictly increase |
| DtmfGenerate.GenerateWellFormed | DTMF/src/dtmf.c:128-156 | for every ordered, non-overlapping event list, touching events included, the loop as written writes the schedule that silences each index at which it reads an event and otherwise follows the events |
| DtmfGenerate.ScheduledIsTimelineOffFetches | DTMF/src/dtmf.c:142-146 | that schedule equals the documented timeline except that every index at which an event is read is silent |
| DtmfGenerate.GenerateIntended | DTMF/src/dtmf.c:128-153 | corrected loop: fails iff there are no events |
| DtmfGenerate.GenerateIntendedCorrect | DTMF/src/dtmf.c:128-153 | the corrected loop writes exactly the documented timeline for every ordered, non-overlapping event list |
| DtmfDetect.DetectFrom | DTMF/src/dtmf.c:198-251 | the detection loop from a given block: every event it writes carries a tone (neither silence nor the dummy start symbol) and lasts at least the minimum, except, as written, the last one |
| DtmfDetect.Detect | DTMF/src/dtmf.c:184-251 | `dtmf_detect` as written, on classified blocks: the maximal runs selected as documented, except that the last run is written whatever its symbol when the samples read less one block reach the minimum |
| DtmfDetect.DetectIntended | DTMF/src/dtmf.c:184-251 | `dtmf_detect` with the end-of-input rule corrected, on classified blocks: exactly the maximal tone runs lasting at least the minimum |
| DtmfDetect.RunEnd | DTMF/src/dtmf.c:233 | the end of a run of equal block symbols: the run is maximal |
| DtmfDetect.DetectAsWritten | DTMF/src/dtmf.c:184-251 | `dtmf_detect` as written writes each run of a tone, except the last, as one event when it is long enough, and drops silent runs; it writes the last run, of any symbol, when the samples read less one block reach the threshold |
| DtmfDetect.DetectIntendedSelects | DTMF/src/dtmf.c:184-251 | with the end-of-input rule corrected, exactly the maximal tone runs lasting at least the minimum become events |
| DtmfDetect.DetectIntendedWellFormed | DTMF/src/dtmf.c:184-251 | the corrected detector's events are ordered and disjoint, each at least one block long and carrying a keypad symbol |
| DtmfDetect.DetectedEventsReadBack | DTMF/src/dtmf.c:512-547 | every event line the corrected detector writes is read back by `read_DTMF_event` as the same event |
| DtmfDetect.FinalRunShortened | DTMF/src/dtmf.c:217-222 | as written, a final tone run long enough is dropped because one block is subtracted |
| DtmfDetect.FinalShortRunWritten | DTMF/src/dtmf.c:217-222 | as written, a final run shorter than the minimum is written |
| DtmfDetect.TrailingSilenceWritten | DTMF/src/dtmf.c:217-222 | as written, a trailing silent run is written as an event with symbol '\0' |
| FindDup.SetFlag | finddup/src/finddup.c:49 | `SetFlag` replaces the flags byte: afterwards exactly the bits of the new mask are set, and no other field changes |
| FindDup.GetFlag | finddup/src/finddup.c:48 | true iff some bit of the mask is set |
| FindDup.DupMarkClearsLink | finddup/src/finddup.c:33-35 | marking an entry a duplicate clears its link and CRC marks |
| FindDup.ToInt32 | finddup/src/finddup.c:284-287 | truncation to `int` keeps the value modulo 2^32 in the signed 32-bit range |
| FindDup.Comp1 | finddup/src/finddup.c:277-290 | `comp1` is 0 iff length, CRC, device and inode all agree modulo 2^32; otherwise it is the `int`-truncated difference of the first of length, CRC, device, inode whose difference is non-zero modulo 2^32 |
| FindDup.Comp1NotTransitive | finddup/src/finddup.c:285 | CRCs 0, 0x7fffffff and 0xfffffffe compare cyclically: `comp1` is not an order |
| FindDup.KeyCompare | finddup/src/finddup.c:277-290 | the corrected comparator is 0 exactly for equal keys |
| FindDup.KeyCompareTransitive | finddup/src/finddup.c:277-290 | the corrected comparator is transitive |
| FindDup.KeyCompareAntisymmetric | finddup/src/finddup.c:277-290 | swapping the arguments negates the corrected comparator |
| FindDup.Comp1AgreesWhenSmall | finddup/src/finddup.c:277-290 | when every difference fits in an `int`, `comp1` has the sign of the corrected comparator |
| FindDup.StrToInt | finddup/src/finddup.c:506-524 | the decimal value of an all-digit string ("" gives 0); -1 otherwise; no sign accepted |
| FindDup.StrToIntDigits | finddup/src/finddup.c:506-524 | every natural number's decimal text converts back to it |
| FindDup.LinkPass | finddup/src/finddup.c:329-351 | the link pass marks `FL_LNK` exactly on the entries naming the same node as the entry before them; all other entries are unchanged |
| FindDup.Moved | finddup/src/finddup.c:372-376 | the move puts entry ix2 at lastix and shifts lastix..ix2-1 up one place |
| FindDup.MovedPermutes | finddup/src/finddup.c:372-376 | the move loses and duplicates no entry |
| FindDup.MoveDown | finddup/src/finddup.c:372-376 | the shifting loop performs exactly that move, a permutation |
| FindDup.DupStep | finddup/src/finddup.c:363-383 | one entry of the inner dup loop: it matches iff it is a link after a match or `same` says so; a match is marked `FL_DUP` and lands at `lastix`, which advances by one (as written, only when the entry moved); otherwise nothing changes; nothing before the head or after the entry moves |
| FindDup.DupFrom | finddup/src/finddup.c:355-385 | the dup pass for one head keeps the list length and everything up to the head, and returns a `lastix` after the head |
| FindDup.DupStepPermutes | finddup/src/finddup.c:363-377 | marking and moving one duplicate only reorders entries and changes flags |
| FindDup.DupFromPermutes | finddup/src/finddup.c:355-385 | the dup pass for one head only reorders entries and changes flags |
| FindDup.DupGroupIntended | finddup/src/finddup.c:357-377 | corrected, the shape of a group: after a head's pass the entries ix+1..lastix-1 are all marked and have the head's length and CRC, and (on a list with no marks after the head) no later entry is marked |
| FindDup.DupsMembers | finddup/src/finddup.c:363-377 | the reference lists: an entry is in the matched list iff it is a matched window entry, marked; in the unmatched list iff it is an unmatched window entry |
| FindDup.WindowEnd | finddup/src/finddup.c:357-359 | the inner loop's window is the maximal run of entries after the head with the head's length and CRC |
| FindDup.DupPartition | finddup/src/finddup.c:355-385 | corrected: a head's pass leaves head part, then the matched entries marked in their original order, then the unmatched ones unchanged in their order, then the rest; `lastix` is right after the matched ones |
| FindDup.DupGroupHasMatches | finddup/src/finddup.c:363-377 | corrected: every window entry `same` matches, and every link after a match, is found marked in ix+1..lastix-1 |
| FindDup.DupGroupOnlyMatches | finddup/src/finddup.c:363-377 | corrected: every entry in ix+1..lastix-1 is a matched window entry, marked |
| FindDup.DupGroupRest | finddup/src/finddup.c:363-377 | corrected: every unmatched window entry is found unchanged between lastix and the window's end |
| FindDup.DupMarks | finddup/src/finddup.c:355-385 | as written and corrected: after a head's pass the window holds, in some order, exactly the matched entries marked and the unmatched ones unchanged; nothing outside it changes |
| FindDup.DupGroupAsWrittenSplits | finddup/src/finddup.c:368-376 | as written, three mutual duplicates leave a marked duplicate outside ix+1..lastix-1 |
| FindDup.DupPass | finddup/src/finddup.c:355-385 | the outer dup loop keeps the list length |
| FindDup.DupPassPermutes | finddup/src/finddup.c:355-385 | the whole dup pass only reorders entries and changes flags |

## Left out

- Waveform synthesis and noise mixing (`write_2_file`, DTMF/src/dtmf.c:441-510) are left out. They are floating point, so generation is modelled as the symbol at each sample index.
- The Goertzel classifier is left out (`init_goertzel_state`, `update_goertzel_steps`, `find_strongest_freqs`, DTMF/src/dtmf.c:549-654, and goertzel.c). It is floating point. Detection takes each block's classified symbol as input, together with the size of the incomplete final block.
- DtmfDetect.DetectAsWritten: the duration test in seconds, `x / 8000.0 >= MIN_DTMF_DURATION`, is modelled as an integer sample threshold `minSamples`.
- The `data_offset - 24` bytes skipped after a header, in `dtmf_detect` and for the noise file, are left out. The detector starts at the first sample.
- The noise file of `dtmf_generate` is left out: opening it (`fopen` is not checked, DTMF/src/dtmf.c:122), reading its header, and mixing its samples. Without a noise file the schedule is what `Generate` states.
- DtmfGenerate.Generate: with a noise file that runs short, `write_2_file` prints "error reading noise" and returns without writing that sample (DTMF/src/dtmf.c:453-456, 491-494). The output then holds fewer samples than the header's `data_size` announces, and every later sample shifts one place earlier. The model writes every sample, so it does not cover this case.
- `Generate` takes the events as the sequence that successive `read_DTMF_event` calls return. A line that cannot be parsed (`Overrun`) is not modelled inside the generator.
- DtmfEvents.ReadEvent: when the input ends before a newline, `fgetc` keeps returning -1. Stored in a `char`, -1 never equals `'\n'`, so the buffering loop (DTMF/src/dtmf.c:520-523) never ends and writes 0xFF past the end of `line_buf` without bound. The model reports `Overrun` for this case.
- DtmfEvents.ReadEvent: a line that has its newline but lacks one of its two tabs makes the field loops read past the newline, into stale contents of `line_buf`. This is also modelled as `Overrun`. The fixed-size `line_buf` is unbounded here.
- DtmfEvents.ReadEvent: the accumulators `n1` and `n2` (DTMF/src/dtmf.c:526-537) are `int`; their overflow on long fields is not modelled.
- Event indices are `nat`. `write_DTMF_2_file` with a negative index, which `dtmf_detect` never produces, is not modelled.
- DtmfGenerate.Generate: `ReadEvent` can return a negative index (a '-' or another non-digit in a field gives `c - 48 < 0`). `Generate` takes `nat` indices, so events read with negative indices are outside the model.
- DtmfArgs.StrToInt and FindDup.StrToInt do not model `int` overflow on long digit strings, because it is undefined behaviour in C. The same holds for `msec*8` in `validargs`.
- The `USAGE` message text and the process exit are left out; `Dispatch` returns which of them `main` performs.
- In finddup, reading the file list is left out, because it is I/O. This covers `getline`, `lstat`, the names file, `getfn`, `get_crc`/`rc_crc32`, `fullcmp`'s file reading (a parameter here), `getopt` and every `printf`.
- `scan1` and `scan3` are left out. `scan1` also reads `filelist[n_files]`, one past the end (finddup/src/finddup.c:299-300).
- The `qsort` call is left out; the comparator is modelled.
- The list-building loop's `memset` after `realloc` is left out. It wipes entries already recorded (finddup/src/finddup.c:194-195) and is part of the I/O front end.
- FindDup.DupPass: only the list length and the permutation property are stated for the outer loop. Contiguity is proved per head.
- The allocator under "Dynamic Memory Allocator" is not part of this model.

## Findings

| source | as written | input that shows it | evidently intended | confidence | as-written member | corrected member |
|---|---|---|---|---|---|---|
| DTMF/src/dtmf.c:350-354 | `return EXIT_SUCCESS;` precedes `global_options = 0x4;`, and the `-g` branch sets a mode only inside an option, so a bare `-g` or `-d` is accepted with no mode | argv `dtmf -d` (or `dtmf -g`) with `global_options` 0 | select detect (generate) with default settings | high; not executed | DtmfArgs.BareModeFlagSelectsNothing | DtmfArgs.ValidArgsIntended |
| DTMF/src/dtmf.c:142-146 | when the current event ends, the next event is read and the same index is written silent | events (0,1,'1'), (1,2,'2'), length 2: samples '1', silence | index 1 carries '2', since the next event covers it | high; not executed | DtmfGenerate.AdjacentEventLosesFirstSample | DtmfGenerate.GenerateIntendedCorrect |
| DTMF/src/dtmf.c:206-210, 217-222 | at end of input the duration tested is `current_sample_index - block_size` | blocks '1' with 50 trailing samples, block 100, minimum 100 samples: nothing written | the run's own length, `current - lower`: event (0,150,'1') | medium; not executed | DtmfDetect.FinalRunShortened | DtmfDetect.DetectIntendedSelects |
| DTMF/src/dtmf.c:206-210, 217-222 | the final run is written even when short, since its own length is never tested | blocks '1','1','2', block 100, minimum 150: event (200,300,'2') is written | only runs reaching the minimum are written | medium; not executed | DtmfDetect.FinalShortRunWritten | DtmfDetect.DetectIntendedSelects |
| DTMF/src/dtmf.c:206-210, 217-222 | the final run is written whatever its symbol | blocks '1', '\0', block 100, minimum 100: event (100,200,'\0') | silent runs are never written, as mid-stream | high; not executed | DtmfDetect.TrailingSilenceWritten | DtmfDetect.DetectIntendedSelects |
| finddup/src/finddup.c:284-287 | differences of 64-bit fields are truncated to `int` | CRCs 0, 0x7fffffff, 0xfffffffe: a<b, b<c, c<a | compare by sign, lexicographically | high; not executed | FindDup.Comp1NotTransitive | FindDup.KeyCompareTransitive |
| finddup/src/finddup.c:368-376 | `lastix` is advanced only when the duplicate had to move | three mutual duplicates: both later entries marked, `lastix` 2 | `lastix` counts every duplicate: the group is ix+1..lastix-1 | high; not executed | FindDup.DupGroupAsWrittenSplits | FindDup.DupPartition |
