/** Vocabulary and counting facts shared by the component models. */
module Common {

  datatype Option<+T> = None | Some(value: T)

  function Max(a: int, b: int): int {
    if a < b then b else a
  }

  function Min(a: real, b: real): real {
    if a < b then a else b
  }

  /** 2^n, for the waits that double. */
  function Pow2(n: nat): nat {
    if n == 0 then 1 else 2 * Pow2(n - 1)
  }

  /** `n` times `x`, as a sum. */
  function Repeated(n: nat, x: real): real {
    if n == 0 then 0.0 else Repeated(n - 1, x) + x
  }

  lemma {:induction false} RepeatedIsProduct(n: nat, x: real)
    ensures Repeated(n, x) == n as real * x
  {
    if n == 0 {
    } else {
      RepeatedIsProduct(n - 1, x);
      var before := (n - 1) as real;
      assert n as real == before + 1.0;
      assert (before + 1.0) * x == before * x + x;
    }
  }

  ghost predicate NoDuplicates<T>(s: seq<T>) {
    forall i, j :: 0 <= i < j < |s| ==> s[i] != s[j]
  }

  /** A sequence without repetitions that lives in a finite set is no longer than the set is large. */
  lemma {:induction false} NoDuplicatesFit<T>(s: seq<T>, bound: set<T>)
    requires NoDuplicates(s)
    requires forall x :: x in s ==> x in bound
    ensures |s| <= |bound|
  {
    if s == [] {
    } else {
      var rest := s[1..];
      forall x | x in rest
        ensures x in bound - {s[0]}
      {
        var i :| 0 <= i < |rest| && rest[i] == x;
        assert s[i + 1] == x;
      }
      NoDuplicatesFit(rest, bound - {s[0]});
    }
  }

  /** The set {1, ..., n}. */
  function UpTo(n: nat): (s: set<nat>)
    ensures forall k :: k in s <==> 1 <= k <= n
    ensures |s| == n
  {
    if n == 0 then {} else UpTo(n - 1) + {n}
  }

  // ---------------------------------------------------------------- numbers as text

  predicate OnlyDigits(text: string) {
    forall i :: 0 <= i < |text| ==> '0' <= text[i] <= '9'
  }

  predicate IsNumeral(text: string) {
    text != "" && OnlyDigits(text)
  }

  function DigitValue(c: char): (n: nat)
    requires '0' <= c <= '9'
    ensures n < 10
  {
    c as int - '0' as int
  }

  function Digit(n: nat): (c: char)
    requires n < 10
    ensures '0' <= c <= '9' && DigitValue(c) == n
  {
    ('0' as int + n) as char
  }

  /** The number in decimal, without leading zeros. */
  function Decimal(n: nat): (text: string)
    ensures IsNumeral(text)
  {
    if n < 10 then [Digit(n)] else Decimal(n / 10) + [Digit(n % 10)]
  }

  /** The number that a text of digits stands for. */
  function Numeral(text: string): nat
    requires OnlyDigits(text)
  {
    if text == "" then 0 else 10 * Numeral(text[..|text| - 1]) + DigitValue(text[|text| - 1])
  }

  lemma NumeralMore(text: string, c: char)
    requires OnlyDigits(text) && '0' <= c <= '9'
    ensures OnlyDigits(text + [c]) && Numeral(text + [c]) == 10 * Numeral(text) + DigitValue(c)
  {
    assert (text + [c])[..|text|] == text;
  }

  function Zeros(n: nat): (text: string)
    ensures OnlyDigits(text)
  {
    if n == 0 then "" else Zeros(n - 1) + "0"
  }

  /** What is written is read back, with any zeros before it. */
  lemma {:induction false} PaddedIsRead(zeros: nat, n: nat)
    ensures OnlyDigits(Zeros(zeros) + Decimal(n)) && Numeral(Zeros(zeros) + Decimal(n)) == n
    decreases n
  {
    if n < 10 {
      ZerosAreZero(zeros);
      NumeralMore(Zeros(zeros), Digit(n));
    } else {
      PaddedIsRead(zeros, n / 10);
      PaddedMore(zeros, n);
    }
  }

  lemma Associated(a: string, b: string, c: string)
    ensures a + (b + c) == a + b + c
  {
  }

  lemma PaddedMore(zeros: nat, n: nat)
    requires n >= 10 && Numeral(Zeros(zeros) + Decimal(n / 10)) == n / 10
    ensures Numeral(Zeros(zeros) + Decimal(n)) == n
  {
    var shorter, last := Decimal(n / 10), Digit(n % 10);
    NumeralMore(Zeros(zeros) + shorter, last);
    assert Decimal(n) == shorter + [last];
    Associated(Zeros(zeros), shorter, [last]);
  }

  lemma {:induction false} ZerosAreZero(n: nat)
    ensures Numeral(Zeros(n)) == 0
  {
    if n == 0 {
    } else {
      ZerosAreZero(n - 1);
      NumeralMore(Zeros(n - 1), '0');
    }
  }

  /** Every numeral is some number in decimal, after some zeros. */
  lemma {:induction false} NumeralIsPadded(text: string) returns (zeros: nat)
    requires IsNumeral(text)
    ensures text == Zeros(zeros) + Decimal(Numeral(text))
  {
    var before, last := text[..|text| - 1], text[|text| - 1];
    NumeralMore(before, last);
    assert text == before + [last] && Digit(DigitValue(last)) == last;
    if before == "" {
      zeros := 0;
    } else {
      var fewer := NumeralIsPadded(before);
      zeros := PaddedAgain(fewer, Numeral(before), last);
    }
  }

  lemma PaddedAgain(fewer: nat, n: nat, last: char) returns (zeros: nat)
    requires '0' <= last <= '9'
    ensures Zeros(fewer) + Decimal(n) + [last] == Zeros(zeros) + Decimal(10 * n + DigitValue(last))
  {
    assert Digit(DigitValue(last)) == last;
    if n == 0 {
      zeros := fewer + 1;
      assert Decimal(0) == "0";
    } else {
      zeros := fewer;
      var m := 10 * n + DigitValue(last);
      assert m / 10 == n && m % 10 == DigitValue(last);
      assert Decimal(m) == Decimal(n) + [last];
    }
  }
}
