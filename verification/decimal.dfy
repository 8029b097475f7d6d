/** Decimal text as the C helpers in the DTMF tool and in finddup read and write it.
    Characters are bytes; arithmetic on a character is arithmetic on its code as a
    (signed) C `char`. */
module Decimal {

  import opened Optional

  predicate IsDigit(c: char) {
    '0' <= c <= '9'
  }

  predicate AllDigits(s: seq<char>) {
    forall i :: 0 <= i < |s| ==> IsDigit(s[i])
  }

  /** The value of a byte read as a signed 8-bit C `char`. */
  function CharCode(c: char): int {
    if 128 <= c as int < 256 then c as int - 256 else c as int
  }

  /** `c - 48`, which the C code applies to any character, digit or not. */
  function DigitValue(c: char): int {
    CharCode(c) - 48
  }

  function Pow10(n: nat): nat {
    if n == 0 then 1 else 10 * Pow10(n - 1)
  }

  /** Reference meaning of a digit string: positional notation, most significant
      digit first. */
  function Value(s: seq<char>): int
    decreases |s|
  {
    if |s| == 0 then 0 else Value(s[..|s| - 1]) * 10 + DigitValue(s[|s| - 1])
  }

  /** The accumulation `num = num * 10 + (c - 48)` run over every character of `s`,
      left to right, without looking at what the characters are. */
  function Fold(acc: int, s: seq<char>): (r: int)
    ensures AllDigits(s) ==> r == acc * Pow10(|s|) + Value(s)
    decreases |s|
  {
    if |s| == 0 then acc
    else
      var r := Fold(acc * 10 + DigitValue(s[0]), s[1..]);
      assert AllDigits(s) ==> r == acc * Pow10(|s|) + Value(s) by {
        if AllDigits(s) {
          assert AllDigits(s[1..]) by {
            forall i | 0 <= i < |s[1..]| ensures IsDigit(s[1..][i]) {
              assert s[1..][i] == s[i + 1];
            }
          }
          FoldStep(s, acc);
        }
      }
      r
  }

  /** The digit loop shared by both `str_to_int`s: accumulate while the characters
      are digits, give up (None) at the first one that is not. */
  function ParseDigits(s: seq<char>, acc: int): (r: Option<int>)
    ensures AllDigits(s) ==> r == Some(acc * Pow10(|s|) + Value(s))
    ensures !AllDigits(s) ==> r == None
    decreases |s|
  {
    if |s| == 0 then Some(acc)
    else if !IsDigit(s[0]) then None
    else
      var r := ParseDigits(s[1..], acc * 10 + DigitValue(s[0]));
      assert AllDigits(s) <==> AllDigits(s[1..]) by {
        if AllDigits(s[1..]) {
          forall i | 0 <= i < |s| ensures IsDigit(s[i]) {
            if i > 0 { assert s[i] == s[1..][i - 1]; }
          }
        }
      }
      assert AllDigits(s) ==> r == Some(acc * Pow10(|s|) + Value(s)) by {
        if AllDigits(s) { FoldStep(s, acc); }
      }
      r
  }

  /** Splitting off the leading character, which is how the C loop consumes it. */
  lemma {:induction false} ValueCons(c: char, s: seq<char>)
    ensures Value([c] + s) == DigitValue(c) * Pow10(|s|) + Value(s)
    decreases |s|
  {
    if |s| == 0 {
      assert ([c] + s)[..0] == [];
    } else {
      var t := [c] + s;
      var init := s[..|s| - 1];
      var last := DigitValue(s[|s| - 1]);
      assert t[..|t| - 1] == [c] + init;
      assert t[|t| - 1] == s[|s| - 1];
      assert Value(t) == Value([c] + init) * 10 + last;
      ValueCons(c, init);
      assert Value(s) == Value(init) * 10 + last;
      assert Pow10(|s|) == 10 * Pow10(|init|);
      Regroup(DigitValue(c), Pow10(|init|), Value(init), last, Value([c] + init), Pow10(|s|), Value(s));
    }
  }

  /** Appending one more digit at the end: the arithmetic of `ValueCons`. */
  lemma Regroup(d: int, p: int, v: int, last: int, front: int, scaled: int, value: int)
    requires front == d * p + v && scaled == 10 * p && value == v * 10 + last
    ensures front * 10 + last == d * scaled + value
  {
  }

  lemma FoldStep(s: seq<char>, acc: int)
    requires |s| > 0
    ensures (acc * 10 + DigitValue(s[0])) * Pow10(|s| - 1) + Value(s[1..])
            == acc * Pow10(|s|) + Value(s)
  {
    var rest := s[1..];
    var p := Pow10(|rest|);
    var v := Value(rest);
    var d := DigitValue(s[0]);
    assert s == [s[0]] + rest;
    ValueCons(s[0], rest);
    assert Pow10(|s|) == 10 * p;
    Shift(acc, d, p, v, Pow10(|s|), Value(s));
  }

  /** Accumulating one more digit in front: the arithmetic of `FoldStep`. */
  lemma Shift(acc: int, d: int, p: int, v: int, scaled: int, value: int)
    requires scaled == 10 * p && value == d * p + v
    ensures (acc * 10 + d) * p + v == acc * scaled + value
  {
  }

  /** The left-to-right accumulation computes the positional value. */
  lemma {:induction false} FoldIsValue(acc: int, s: seq<char>)
    ensures Fold(acc, s) == acc * Pow10(|s|) + Value(s)
    decreases |s|
  {
    if |s| > 0 {
      FoldIsValue(acc * 10 + DigitValue(s[0]), s[1..]);
      FoldStep(s, acc);
    }
  }

  /** The decimal digits of `n` without leading zeros; 0 has none. This is what the
      C code's "count the digits, store them least significant first, emit them in
      reverse" loops produce. */
  function Digits(n: nat): (r: seq<char>)
    ensures AllDigits(r)
    ensures n == 0 <==> |r| == 0
    ensures n > 0 ==> r[0] != '0'
    decreases n
  {
    if n == 0 then [] else Digits(n / 10) + [('0' as int + n % 10) as char]
  }

  /** Printing then reading back the digits gives the number. */
  lemma {:induction false} DigitsValue(n: nat)
    ensures Value(Digits(n)) == n
    ensures Fold(0, Digits(n)) == n
    decreases n
  {
    if n > 0 {
      DigitsValue(n / 10);
      var d := Digits(n);
      assert d[..|d| - 1] == Digits(n / 10);
    }
    FoldIsValue(0, Digits(n));
  }
}
