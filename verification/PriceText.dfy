/** Prices as text. */
module PriceText {
  import opened GoArith

  datatype Parsed = Bad | Number(value: int)

  function Digit(d: nat): char
    requires d < 10
  {
    '0' + d as char
  }

  /** Decimal notation. */
  function Decimal(n: nat): string {
    if n < 10 then [Digit(n)] else Decimal(n / 10) + [Digit(n % 10)]
  }

  /** The number a digit string denotes. */
  function ParseNat(s: string): Parsed {
    if s == [] || !('0' <= s[|s| - 1] <= '9') then Bad
    else
      var d := (s[|s| - 1] as int) - ('0' as int);
      if |s| == 1 then Number(d)
      else
        match ParseNat(s[..|s| - 1])
        case Bad => Bad
        case Number(v) => Number(10 * v + d)
  }

  lemma {:induction false} ParseDecimal(n: nat)
    ensures ParseNat(Decimal(n)) == Number(n)
    ensures Decimal(n)[0] != '-'
  {
    if n >= 10 {
      ParseDecimal(n / 10);
      assert Decimal(n)[..|Decimal(n)| - 1] == Decimal(n / 10);
    }
  }

  function ParseInt(s: string): Parsed {
    if s != [] && s[0] == '-' then
      match ParseNat(s[1..])
      case Bad => Bad
      case Number(v) => Number(-v)
    else ParseNat(s)
  }

  /** What `itoa` writes: the least int64 overflows on negation and keeps only its sign. */
  function IntText(n: int64): string {
    if n == MIN_INT64 then "-" else if n < 0 then "-" + Decimal(-n) else Decimal(n)
  }

  /** `itoa` inverts decimal parsing for every int64 but the least, which it cannot write. */
  lemma IntRoundTrip(n: int64)
    ensures if n == MIN_INT64 then ParseInt(IntText(n)) == Bad else ParseInt(IntText(n)) == Number(n)
  {
    if n != MIN_INT64 {
      ParseDecimal(if n < 0 then -n else n);
    }
  }

  function Pow10(k: nat): nat {
    if k == 0 then 1 else 10 * Pow10(k - 1)
  }

  lemma NineteenDigits()
    ensures Pow10(19) == 10_000_000_000_000_000_000
  {
    assert Pow10(4) == 10_000;
    assert Pow10(9) == 100_000 * Pow10(4);
    assert Pow10(14) == 100_000 * Pow10(9);
    assert Pow10(19) == 100_000 * Pow10(14);
  }

  /** The digit loop fills its 20-byte buffer from the end and never runs past its start. */
  method Itoa(n0: int64) returns (s: string)
    ensures s == IntText(n0)
  {
    if n0 == 0 {
      return "0";
    }
    var neg := n0 < 0;
    var n: int64 := if neg then Neg64(n0) else n0;
    var buf := new char[20];
    var i := 20;
    ghost var start := n;
    Starts(n0);
    while n > 0
      invariant i <= 20 && Writing(n0, start, n, i, buf[i..])
      decreases n
    {
      ghost var tail := buf[i..];
      WriteDigit(n0, start, n, i, tail);
      i := i - 1;
      buf[i] := Digit(n % 10);
      assert buf[i..] == [Digit(n % 10)] + tail;
      n := n / 10;
    }
    Finishes(n0, start, n, i, buf[i..]);
    s := buf[i..];
    if neg {
      s := "-" + s;
    }
  }

  /** What the digit loop has still to write. */
  ghost function Written(n: int): string {
    if n > 0 then Decimal(n) else ""
  }

  /** What is left of a number fits in k digits; the least int64 is never taken apart. */
  ghost predicate Fits(n0: int64, n: int, k: nat) {
    if n0 == MIN_INT64 then n == n0 && k == 19 else 0 <= n < Pow10(k)
  }

  /** The loop's state: the digits of `start` but for those of n are in the buffer from i on. */
  ghost predicate Writing(n0: int64, start: int, n: int, i: nat, tail: string) {
    && 1 <= i <= 20 && Fits(n0, n, i - 1) && Written(start) == Written(n) + tail
    && start == if n0 < 0 then Neg64(n0) else n0
  }

  lemma Starts(n0: int64)
    ensures var start := if n0 < 0 then Neg64(n0) else n0; Writing(n0, start, start, 20, "")
  {
    NineteenDigits();
    var start := if n0 < 0 then Neg64(n0) else n0;
    assert Written(start) + "" == Written(start);
  }

  lemma WriteDigit(n0: int64, start: int, n: nat, i: nat, tail: string)
    requires 0 < n && Writing(n0, start, n, i, tail)
    ensures i > 1 && Writing(n0, start, n / 10, i - 1, [Digit(n % 10)] + tail)
  {
    assert Written(n) == Written(n / 10) + [Digit(n % 10)];
    assert (Written(n / 10) + [Digit(n % 10)]) + tail == Written(n / 10) + ([Digit(n % 10)] + tail);
  }

  lemma Finishes(n0: int64, start: int, n: int, i: nat, tail: string)
    requires n0 != 0 && n <= 0 && Writing(n0, start, n, i, tail)
    ensures IntText(n0) == if n0 < 0 then "-" + tail else tail
  {
    assert Written(n) + tail == tail;
    if n0 == MIN_INT64 {
      assert tail == "" && "-" + "" == "-";
    }
  }

  method Pad2(n: int64) returns (s: string)
    requires 0 <= n < 100
    ensures s == TwoDigits(n)
  {
    s := Itoa(n);
    assert s == Decimal(n) && Decimal(n / 10) == [Digit(n / 10)];
    if n < 10 {
      assert Digit(0) == '0';
      s := "0" + s;
    }
  }

  function TwoDigits(n: nat): string
    requires n < 100
  {
    [Digit(n / 10), Digit(n % 10)]
  }

  /** A price in cents as the tag shows it: truncated dollars and the cents' magnitude. */
  function PriceText(cents: int64): string {
    var c := Mod(cents, 100);
    "$" + IntText(Div(cents, 100)) + "." + TwoDigits(if c < 0 then -c else c)
  }

  method FormatPrice(cents: int64) returns (s: string)
    ensures s == PriceText(cents)
  {
    var d := Div(cents, 100);
    var c := Mod(cents, 100);
    if c < 0 {
      c := -c;
    }
    var whole := Itoa(d);
    var rest := Pad2(c);
    s := "$" + whole + "." + rest;
  }

  /** Reads "$<dollars>.<two digits>", the sign of the dollars applying to the whole. */
  function ParsePrice(s: string): Parsed {
    if |s| < 5 || s[0] != '$' || s[|s| - 3] != '.' then Bad
    else
      var dollars, cents := ParseInt(s[1..|s| - 3]), ParseNat(s[|s| - 2..]);
      if dollars.Bad? || cents.Bad? then Bad
      else Number(100 * dollars.value + (if s[1] == '-' then -cents.value else cents.value))
  }

  lemma TwoDigitsParse(n: nat)
    requires n < 100
    ensures ParseNat(TwoDigits(n)) == Number(n)
  {
    var s := TwoDigits(n);
    assert s[..|s| - 1] == [Digit(n / 10)];
  }

  lemma ParseParts(whole: string, rest: string)
    requires whole != "" && |rest| == 2
    ensures var dollars, cents := ParseInt(whole), ParseNat(rest);
            dollars.Number? && cents.Number? ==>
              ParsePrice("$" + whole + "." + rest)
              == Number(100 * dollars.value + (if whole[0] == '-' then -cents.value else cents.value))
  {
    PriceParts(whole, rest);
  }

  lemma TruncatedParts(cents: int64)
    ensures var d, c := Div(cents, 100), Mod(cents, 100);
            && cents == 100 * d + c && MIN_INT64 < d <= MAX_INT64 && -100 < c < 100
            && (d < 0 ==> c <= 0) && (c < 0 ==> cents < 0) && (c > 0 ==> cents > 0)
  {
  }

  lemma SignShown(n: int64)
    ensures IntText(n) != "" && (IntText(n)[0] == '-' <==> n < 0)
  {
    if n >= 0 {
      ParseDecimal(n);
    }
  }

  /** A digit, and a string of them. */
  predicate IsDigit(c: char) {
    '0' <= c <= '9'
  }

  predicate Digits(s: string) {
    s != "" && forall i | 0 <= i < |s| :: IsDigit(s[i])
  }

  /** A number as people write it: no sign but a minus, digits, and a leading zero only for zero itself. */
  predicate Plain(s: string) {
    if s != "" && s[0] == '-' then Digits(s[1..]) && s[1] != '0' else Digits(s) && (s[0] == '0' ==> s == "0")
  }

  lemma {:induction false} DecimalIsPlain(n: nat)
    ensures Digits(Decimal(n)) && (Decimal(n)[0] == '0' <==> n == 0) && (n == 0 ==> Decimal(n) == "0")
  {
    if n >= 10 {
      DecimalIsPlain(n / 10);
    }
  }

  lemma IntIsPlain(n: int64)
    requires n != MIN_INT64
    ensures Plain(IntText(n))
  {
    DecimalIsPlain(if n < 0 then -n else n);
    if n < 0 {
      assert IntText(n)[1..] == Decimal(-n);
    }
  }

  /** The shape of a price text: a dollar sign, a number without leading zeros, a point and two digits. */
  lemma PriceShape(cents: int64)
    ensures var s := PriceText(cents);
            && |s| >= 5 && s[0] == '$' && s[|s| - 3] == '.' && IsDigit(s[|s| - 2]) && IsDigit(s[|s| - 1])
            && Plain(s[1..|s| - 3])
  {
    TruncatedParts(cents);
    var d, c := Div(cents, 100), Mod(cents, 100);
    var rest := TwoDigits(if c < 0 then -c else c);
    IntIsPlain(d);
    PriceParts(IntText(d), rest);
  }

  lemma PriceParts(whole: string, rest: string)
    requires whole != "" && |rest| == 2
    ensures var s := "$" + whole + "." + rest;
            && |s| == |whole| + 4 && s[0] == '$' && s[|s| - 3] == '.' && s[1..|s| - 3] == whole
            && s[|s| - 2..] == rest && s[|s| - 2] == rest[0] && s[|s| - 1] == rest[1] && s[1] == whole[0]
  {
  }

  /** Reading a price text back: exactly the amounts between -100 and 0 cents come back with their sign lost. */
  lemma PriceRoundTrip(cents: int64)
    ensures ParsePrice(PriceText(cents)) == Number(if -100 < cents < 0 then -cents else cents)
    ensures ParsePrice(PriceText(cents)) == Number(cents) <==> !(-100 < cents < 0)
  {
    TruncatedParts(cents);
    var d, c := Div(cents, 100), Mod(cents, 100);
    var a := if c < 0 then -c else c;
    IntRoundTrip(d);
    TwoDigitsParse(a);
    SignShown(d);
    ParseParts(IntText(d), TwoDigits(a));
  }
}
