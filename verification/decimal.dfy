/** Base-10 text for Go's `int64`: `strconv.FormatInt(n, 10)` and
    `strconv.ParseInt(s, 10, 64)`.

    `ParseInt` accepts an optional `+` or `-` followed by one or more ASCII
    digits whose value lies in the `int64` range; it accepts leading zeros
    and a `+` sign, which `FormatInt` never writes, so several texts parse to
    the same number but only one of them is what `FormatInt` produces. */
module Decimal {
  import opened GoTypes
  import opened Wrappers

  const Zero: byte := 48   // '0'
  const Plus: byte := 43   // '+'
  const Minus: byte := 45  // '-'

  predicate IsDigit(c: byte) {
    Zero <= c <= Zero + 9
  }

  predicate AllDigits(s: seq<byte>) {
    forall i :: 0 <= i < |s| ==> IsDigit(s[i])
  }

  /** The decimal digits of `n`, most significant first, without leading
      zeros. */
  function Digits(n: nat): (s: seq<byte>)
    ensures |s| >= 1 && AllDigits(s)
    ensures s[0] == Zero ==> n == 0 && |s| == 1
    decreases n
  {
    if n < 10 then [Zero + n]
    else
      var front := Digits(n / 10);
      var s := front + [Zero + n % 10];
      assert forall i :: 0 <= i < |front| ==> s[i] == front[i];
      s
  }

  /** The number a string of digits denotes. */
  function ValueOf(s: seq<byte>): nat
    requires AllDigits(s)
    decreases |s|
  {
    if |s| == 0 then 0
    else ValueOf(s[..|s| - 1]) * 10 + (s[|s| - 1] - Zero)
  }

  /** `strconv.FormatInt(n, 10)`. */
  function FormatInt(n: int64): seq<byte> {
    if n < 0 then [Minus] + Digits(-(n as int)) else Digits(n)
  }

  /** `strconv.ParseInt(s, 10, 64)`, with every error (empty input, a bare
      sign, a non-digit, a value outside the `int64` range) as `None`. */
  function ParseInt(s: seq<byte>): Option<int64> {
    if |s| == 0 then None
    else
      var body := if s[0] == Plus || s[0] == Minus then s[1..] else s;
      if |body| == 0 || !AllDigits(body) then None
      else
        var n: int := if s[0] == Minus then -(ValueOf(body) as int) else ValueOf(body);
        if MinInt64 <= n <= MaxInt64 then Some(n) else None
  }

  /** The texts `FormatInt` writes: `0`, or an optional `-` then digits
      that do not start with `0`. */
  predicate Canonical(s: seq<byte>) {
    || (|s| >= 1 && AllDigits(s) && (s[0] != Zero || |s| == 1))
    || (|s| >= 2 && s[0] == Minus && AllDigits(s[1..]) && s[1] != Zero)
  }

  // ---------------------------------------------------------------- properties

  /** The digits of `n` denote `n`. */
  lemma {:induction false} ValueOfDigits(n: nat)
    ensures ValueOf(Digits(n)) == n
    decreases n
  {
    if n >= 10 {
      ValueOfDigits(n / 10);
      var s := Digits(n);
      assert s[..|s| - 1] == Digits(n / 10);
    }
  }

  /** Digits without a leading zero are the digits of the number they denote. */
  lemma {:induction false} DigitsOfValue(s: seq<byte>)
    requires |s| >= 1 && AllDigits(s) && (s[0] != Zero || |s| == 1)
    ensures Digits(ValueOf(s)) == s
    decreases |s|
  {
    if |s| >= 2 {
      var front := s[..|s| - 1];
      DigitsOfValue(front);
      ValuePositive(front);
      assert front + [s[|s| - 1]] == s;
    }
  }

  /** Digits that do not start with `0` denote a positive number. */
  lemma {:induction false} ValuePositive(s: seq<byte>)
    requires |s| >= 1 && AllDigits(s) && s[0] != Zero
    ensures ValueOf(s) >= 1
    decreases |s|
  {
    if |s| >= 2 {
      ValuePositive(s[..|s| - 1]);
    }
  }

  /** Round trip: parsing what `FormatInt` writes gives the number back. */
  lemma ParseOfFormat(n: int64)
    ensures ParseInt(FormatInt(n)) == Some(n)
  {
    if n < 0 {
      ValueOfDigits(-(n as int));
      assert FormatInt(n)[1..] == Digits(-(n as int));
    } else {
      ValueOfDigits(n);
    }
  }

  /** What `FormatInt` writes is canonical. */
  lemma FormatCanonical(n: int64)
    ensures Canonical(FormatInt(n))
  {
    if n < 0 {
      assert FormatInt(n)[1..] == Digits(-(n as int));
    }
  }

  /** Canonicality: a text that parses is exactly the formatting of its
      value if and only if it is canonical. So `+123` and `0123` both parse
      to 123, but neither is what `FormatInt(123)` writes. */
  lemma FormatOfParse(s: seq<byte>, n: int64)
    requires ParseInt(s) == Some(n)
    ensures FormatInt(n) == s <==> Canonical(s)
  {
    if Canonical(s) {
      if s[0] == Minus {
        DigitsOfValue(s[1..]);
        ValuePositive(s[1..]);
        assert [Minus] + s[1..] == s;
      } else {
        DigitsOfValue(s);
      }
    } else {
      FormatCanonical(n);
    }
  }
}
