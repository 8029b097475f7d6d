/** Command-line handling of the DTMF tool: `str_comp`, `str_to_int` and `validargs`
    from DTMF/src/dtmf.c, and the mode dispatch of DTMF/src/main.c.

    The program's global variables are one `Config` value: `validargs` receives
    the globals as they were and returns them as it leaves them. */
module DtmfArgs {

  import opened Optional
  import opened CString
  import Decimal

  /** The `for (index = 0; index <= len1; index++)` comparison of `str_comp`: do the
      two buffers agree at every position from `i` through `last`? */
  function MatchThrough(b1: seq<char>, b2: seq<char>, i: nat, last: nat): (r: bool)
    requires last < |b1| && last < |b2| && i <= last + 1
    ensures r <==> forall k :: i <= k <= last ==> b1[k] == b2[k]
    decreases last + 1 - i
  {
    if i > last then true
    else if b1[i] != b2[i] then false
    else MatchThrough(b1, b2, i + 1, last)
  }

  /** `str_comp`: 1 when the strings are equal, 0 otherwise. Lengths are compared
      first; only strings of equal length are compared character by character, up
      to and including the terminator. */
  function StrComp(str1: CStr, str2: CStr): (r: int)
    ensures r == 0 || r == 1
    ensures r == 1 <==> str1 == str2
  {
    if |str1| != |str2| then 0
    else if MatchThrough(Terminated(str1), Terminated(str2), 0, |str1|) then
      assert str1 == Terminated(str1)[..|str1|] && str2 == Terminated(str2)[..|str2|];
      1
    else 0
  }

  /** The value `str_to_int` returns for a string it cannot convert. */
  const NotANumber := -111

  /** `str_to_int` of dtmf.c: an optional leading '-' negates, every further
      character must be a decimal digit, otherwise the result is -111. The empty
      string and "-" convert to 0. */
  function StrToInt(str: CStr): (r: int)
    ensures var negative := |str| > 0 && str[0] == '-';
            var digits := if negative then str[1..] else str;
            && (Decimal.AllDigits(digits) ==>
                  r == (if negative then -1 else 1) * Decimal.Value(digits))
            && (!Decimal.AllDigits(digits) ==> r == NotANumber)
  {
    var negative := |str| > 0 && str[0] == '-';
    var sign := if negative then -1 else 1;
    var digits := if negative then str[1..] else str;
    match Decimal.ParseDigits(digits, 0)
    case None => NotANumber
    case Some(num) => sign * num
  }

  /** Mode bits of `global_options`. */
  const HelpMode := 0x1
  const GenerateMode := 0x2
  const DetectMode := 0x4

  /** The globals `validargs` reads and writes. */
  datatype Config = Config(
    globalOptions: int,
    audioSamples: int,
    noiseLevel: int,
    blockSize: int,
    noiseFile: Option<CStr>)

  /** `validargs`' return value (0 or -1) together with the globals it leaves. */
  datatype Validation = Validation(ret: int, config: Config)

  /** The defaults `validargs` stores before looking at any flag. */
  function Defaults(g: Config): Config {
    g.(audioSamples := 1000 * 8, noiseLevel := 0, blockSize := 100, noiseFile := None)
  }

  /** Number of (option, value) pairs following "-g". */
  function PairCount(argv: seq<CStr>): nat
    requires |argv| >= 2
  {
    (|argv| - 2) / 2
  }

  /** Whether pair `j` is one the "-g" loop accepts: "-t" with a non-negative
      duration, "-n" with any file name, "-l" with a level in [-30, 30]. */
  predicate PairOk(argv: seq<CStr>, j: nat)
    requires |argv| >= 2 && |argv| % 2 == 0 && j < PairCount(argv)
  {
    var flag := argv[2 + 2 * j];
    var value := argv[3 + 2 * j];
    || (flag == "-t" && StrToInt(value) >= 0)
    || flag == "-n"
    || (flag == "-l" && -30 <= StrToInt(value) <= 30)
  }

  /** The value given with the LAST pair, from pair `k` on, whose option is `key`. */
  function LastValue(argv: seq<CStr>, key: CStr, k: nat): Option<CStr>
    requires |argv| >= 2 && |argv| % 2 == 0 && k <= PairCount(argv)
    decreases PairCount(argv) - k
  {
    if k == PairCount(argv) then None
    else match LastValue(argv, key, k + 1)
      case Some(v) => Some(v)
      case None => if argv[2 + 2 * k] == key then Some(argv[3 + 2 * k]) else None
  }

  /** Reference for a fully accepted option list: each setting comes from the last
      pair naming it (later pairs override earlier ones), settings nobody names keep
      their value, and the mode becomes "generate" as soon as one pair is given. */
  function GenerateSettings(argv: seq<CStr>, k: nat, c: Config): Config
    requires |argv| >= 2 && |argv| % 2 == 0 && k <= PairCount(argv)
  {
    c.(audioSamples :=
         match LastValue(argv, "-t", k)
         case None => c.audioSamples
         case Some(v) => 8 * StrToInt(v),
       noiseLevel :=
         match LastValue(argv, "-l", k)
         case None => c.noiseLevel
         case Some(v) => StrToInt(v),
       noiseFile :=
         match LastValue(argv, "-n", k)
         case None => c.noiseFile
         case Some(v) => Some(v),
       globalOptions := if k < PairCount(argv) then GenerateMode else c.globalOptions)
  }

  /** The `for` loop over option pairs in the "-g" branch, from pair `k` on. A pair
      is `argv[2 + 2k]` followed by its value `argv[3 + 2k]`. */
  function GenerateOptions(argv: seq<CStr>, k: nat, c: Config): (r: Validation)
    requires |argv| >= 2 && |argv| % 2 == 0 && k <= PairCount(argv)
    ensures r.ret == 0 || r.ret == -1
    ensures r.ret == 0 <==> forall j :: k <= j < PairCount(argv) ==> PairOk(argv, j)
    ensures r.ret == 0 ==> r.config == GenerateSettings(argv, k, c)
    ensures r.config.blockSize == c.blockSize
    decreases PairCount(argv) - k
  {
    if k == PairCount(argv) then Validation(0, c)
    else
      var flag := argv[2 + 2 * k];
      var value := argv[3 + 2 * k];
      if StrComp(flag, "-t") == 1 then
        var msec := StrToInt(value);
        // `msec <= UINT32_MAX` compares as unsigned and always holds
        if msec >= 0 then
          GenerateOptions(argv, k + 1, c.(audioSamples := msec * 8, globalOptions := GenerateMode))
        else
          assert !PairOk(argv, k) by { assert flag[1] == 't'; }
          Validation(-1, c)
      else if StrComp(flag, "-n") == 1 then
        GenerateOptions(argv, k + 1, c.(noiseFile := Some(value), globalOptions := GenerateMode))
      else if StrComp(flag, "-l") == 1 then
        var level := StrToInt(value);
        if -30 <= level <= 30 then
          GenerateOptions(argv, k + 1, c.(noiseLevel := level, globalOptions := GenerateMode))
        else
          assert !PairOk(argv, k) by { assert flag[1] == 'l'; }
          Validation(-1, c)
      else
        assert !PairOk(argv, k);
        Validation(-1, c)
  }

  /** `validargs`, as written. `argv[0]` is the program name, so `|argv|` is argc. */
  function ValidArgs(argv: seq<CStr>, g: Config): (r: Validation)
    requires |argv| >= 1
    ensures r.ret == 0 || r.ret == -1
    ensures |argv| == 1 ==> r == Validation(-1, g)
    // "-h" wins whatever follows it
    ensures |argv| > 1 && argv[1] == "-h" ==>
              r == Validation(0, Defaults(g).(globalOptions := HelpMode))
    ensures |argv| > 1 && argv[1] == "-g" ==>
              && (r.ret == 0 <==>
                    && |argv| <= 8 && |argv| % 2 == 0
                    && forall j :: 0 <= j < PairCount(argv) ==> PairOk(argv, j))
              && (r.ret == 0 ==> r.config == GenerateSettings(argv, 0, Defaults(g)))
    ensures |argv| > 1 && argv[1] == "-d" ==>
              && (r.ret == 0 <==>
                    || |argv| == 2
                    || (|argv| == 4 && argv[2] == "-b" && 10 <= StrToInt(argv[3]) <= 1000))
              && (r.ret == 0 && |argv| == 2 ==> r.config == Defaults(g))
              && (r.ret == 0 && |argv| == 4 ==>
                    r.config == Defaults(g).(blockSize := StrToInt(argv[3]), globalOptions := DetectMode))
    ensures |argv| > 1 && argv[1] != "-h" && argv[1] != "-g" && argv[1] != "-d" ==>
              r == Validation(-1, Defaults(g))
  {
    var argc := |argv|;
    if argc == 1 then Validation(-1, g)
    else
      var d := Defaults(g);
      var flag := argv[1];
      if StrComp(flag, "-h") == 1 then
        Validation(0, d.(globalOptions := HelpMode))
      else if StrComp(flag, "-g") == 1 then
        if argc > 8 || argc % 2 != 0 then Validation(-1, d)
        else GenerateOptions(argv, 0, d)
      else if StrComp(flag, "-d") == 1 then
        if argc > 4 || argc % 2 != 0 then Validation(-1, d)
        // the assignment of DetectMode that follows this return is never reached
        else if argc == 2 then Validation(0, d)
        else if StrComp(argv[2], "-b") == 1 then
          var size := StrToInt(argv[3]);
          if 10 <= size <= 1000 then
            Validation(0, d.(blockSize := size, globalOptions := DetectMode))
          else Validation(-1, d)
        else Validation(-1, d)
      else Validation(-1, d)
  }

  /** What `main` does with the outcome of `validargs`. */
  datatype Action = UsageFailure | UsageSuccess | RunGenerate | RunDetect | ExitFailure

  /** The dispatch in `main`: usage on a validation failure or in help mode, then
      generate for mode 0x2, detect for mode 0x4, failure for anything else. */
  function Dispatch(v: Validation): (a: Action)
    ensures a == UsageFailure <==> v.ret != 0
    ensures a == UsageSuccess <==> v.ret == 0 && v.config.globalOptions % 2 != 0
    ensures a == RunGenerate <==> v.ret == 0 && v.config.globalOptions == GenerateMode
    ensures a == RunDetect <==> v.ret == 0 && v.config.globalOptions == DetectMode
    ensures a == ExitFailure <==>
              && v.ret == 0 && v.config.globalOptions % 2 == 0
              && v.config.globalOptions != GenerateMode && v.config.globalOptions != DetectMode
  {
    if v.ret != 0 then UsageFailure
    else if v.config.globalOptions % 2 != 0 then UsageSuccess
    else if v.config.globalOptions == GenerateMode then RunGenerate
    else if v.config.globalOptions == DetectMode then RunDetect
    else ExitFailure
  }

  /** `main` after `validargs`, starting from the globals' initial mode 0: the
      action follows from the first flag, and a bare "-g" or "-d" is the only
      accepted command line that leads to the failure exit. */
  lemma DispatchAfterValidation(argv: seq<CStr>, g: Config)
    requires |argv| >= 1 && g.globalOptions == 0
    ensures var a := Dispatch(ValidArgs(argv, g));
            && (a == UsageFailure <==> ValidArgs(argv, g).ret != 0)
            && (a == UsageSuccess <==> |argv| > 1 && argv[1] == "-h")
            && (a == RunGenerate <==> |argv| > 2 && argv[1] == "-g" && ValidArgs(argv, g).ret == 0)
            && (a == RunDetect <==> |argv| > 2 && argv[1] == "-d" && ValidArgs(argv, g).ret == 0)
            && (a == ExitFailure <==> |argv| == 2 && (argv[1] == "-g" || argv[1] == "-d"))
  {
  }

  /** As written, a bare "-g" or a bare "-d" is accepted but selects no mode: with the
      globals in their initial state (mode 0) the program exits with failure
      instead of generating or detecting with default settings. */
  lemma BareModeFlagSelectsNothing(g: Config)
    requires g.globalOptions == 0
    ensures ValidArgs(["dtmf", "-g"], g).ret == 0
    ensures Dispatch(ValidArgs(["dtmf", "-g"], g)) == ExitFailure
    ensures ValidArgs(["dtmf", "-d"], g).ret == 0
    ensures Dispatch(ValidArgs(["dtmf", "-d"], g)) == ExitFailure
  {
    assert PairCount(["dtmf", "-g"]) == 0;
  }

  /** `validargs` with a successful validation always recording the mode its first
      flag names, as its documentation promises: "-g" and "-d" without further
      options select generation and detection with the default settings. */
  function ValidArgsIntended(argv: seq<CStr>, g: Config): (r: Validation)
    requires |argv| >= 1
    ensures r.ret == ValidArgs(argv, g).ret
    ensures r.ret == 0 ==>
              Dispatch(r) == (if argv[1] == "-h" then UsageSuccess
                              else if argv[1] == "-g" then RunGenerate
                              else RunDetect)
    ensures r.ret == 0 && argv[1] != "-h" ==>
              r.config == ValidArgs(argv, g).config.(globalOptions := r.config.globalOptions)
  {
    var v := ValidArgs(argv, g);
    if v.ret == 0 && |argv| == 2 && argv[1] == "-g" then
      v.(config := v.config.(globalOptions := GenerateMode))
    else if v.ret == 0 && |argv| == 2 && argv[1] == "-d" then
      v.(config := v.config.(globalOptions := DetectMode))
    else v
  }
}
