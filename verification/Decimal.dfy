// Decimal printing and parsing: utils/resparse/credis encoder.go (the itoa
// table) and decoder.go (Btoi64), against strconv.FormatInt and ParseInt.
module Decimal {
  import opened Bytes

  const ZERO: Byte := 48
  const MIN_INT64 := -0x8000_0000_0000_0000
  const MAX_INT64 := 0x7fff_ffff_ffff_ffff
  type Int64 = x: int | MIN_INT64 <= x <= MAX_INT64

  predicate IsDigit(b: Byte) { ZERO <= b <= ZERO + 9 }

  predicate AllDigits(s: seq<Byte>) { forall i :: 0 <= i < |s| ==> IsDigit(s[i]) }

  // Decimal digits of a natural number, most significant first.
  function Digits(n: nat): (s: seq<Byte>)
    ensures s != [] && AllDigits(s)
  {
    if n < 10 then [ZERO + n] else Digits(n / 10) + [ZERO + n % 10]
  }

  // strconv.FormatInt(n, 10).
  function Dec(n: int): (s: seq<Byte>)
    ensures s != [] && LF !in s && CR !in s
  {
    if n < 0 then [MINUS] + Digits(-n) else Digits(n)
  }

  // The number a digit string denotes.
  function Value(s: seq<Byte>): (v: nat)
    requires AllDigits(s)
  {
    if s == [] then 0 else Value(s[..|s| - 1]) * 10 + (s[|s| - 1] - ZERO)
  }

  predicate Signed(s: seq<Byte>) { s != [] && (s[0] == MINUS || s[0] == PLUS) }

  function Body(s: seq<Byte>): seq<Byte> { if Signed(s) then s[1..] else s }

  // strconv.ParseInt(s, 10, 64): an optional sign, at least one digit, nothing
  // else, and a value that fits 64 bits.
  function ParseInt(s: seq<Byte>): Result<Int64> {
    var body := Body(s);
    if body == [] || !AllDigits(body) then Err(BadNumber)
    else
      var v: int := if s[0] == MINUS then 0 - Value(body) else Value(body);
      if MIN_INT64 <= v <= MAX_INT64 then Ok(v) else Err(BadNumber)
  }

  function Pow10(k: nat): (p: nat) ensures p >= 1 { if k == 0 then 1 else 10 * Pow10(k - 1) }

  lemma {:induction false} ValueDigits(n: nat)
    ensures Value(Digits(n)) == n
  {
    if n >= 10 {
      ValueDigits(n / 10);
      assert Digits(n)[..|Digits(n)| - 1] == Digits(n / 10);
    } else {
      assert Digits(n) == [ZERO + n];
      assert Value([]) == 0;
    }
  }

  // Printing and then parsing an int64 returns it.
  lemma ParseDec(n: Int64)
    ensures ParseInt(Dec(n)) == Ok(n)
  {
    var m: int := if n < 0 then 0 - n else n;
    ValueDigits(m);
    assert Body(Dec(n)) == Digits(m);
  }

  // A plus sign is accepted too.
  lemma ParsePlus(n: Int64)
    requires n >= 0
    ensures ParseInt(Ascii("+") + Dec(n)) == Ok(n)
  {
    ValueDigits(n);
    assert Ascii("+") == [43];
    assert Body(Ascii("+") + Dec(n)) == Digits(n);
  }

  // The digits and the sign are the ASCII ones.
  lemma DecIsAscii()
    ensures Dec(9876543210) == Ascii("9876543210") && Dec(-1) == Ascii("-1")
  {
    assert Digits(98765) == Digits(9876) + [ZERO + 5];
    assert Digits(9876543) == Digits(98765) + [ZERO + 4] + [ZERO + 3];
    assert Digits(987654321) == Digits(9876543) + [ZERO + 2] + [ZERO + 1];
    assert Digits(9876543210) == Digits(987654321) + [ZERO];
    assert Digits(9876) == Ascii("9876");
    assert Ascii("9876543210") == Ascii("9876") + [53, 52, 51, 50, 49, 48];
  }

  // k digits denote a number below 10^k ...
  lemma {:induction false} ValueBelow(s: seq<Byte>)
    requires AllDigits(s)
    ensures Value(s) < Pow10(|s|)
  {
    if s != [] {
      ValueBelow(s[..|s| - 1]);
    }
  }

  // ... and a number below 10^k prints in at most k digits.
  lemma {:induction false} DigitsWidth(n: nat, k: nat)
    requires k >= 1 && n < Pow10(k)
    ensures |Digits(n)| <= k
  {
    if n >= 10 {
      assert k >= 2 by { assert Pow10(1) == 10 * Pow10(0); }
      DigitsWidth(n / 10, k - 1);
    }
  }

  lemma {:induction false} PowMono(a: nat, b: nat)
    requires a <= b
    ensures Pow10(a) <= Pow10(b)
  {
    if a < b {
      PowMono(a, b - 1);
    }
  }

  lemma PowNine()
    ensures Pow10(9) == 1_000_000_000
  {
    assert Pow10(3) == 1000;
    assert Pow10(6) == 1000 * Pow10(3);
    assert Pow10(9) == 1000 * Pow10(6);
  }

  // Nine digits are far from the edge of an int64.
  lemma ShortValue(s: seq<Byte>)
    requires AllDigits(s) && |s| <= 9
    ensures Value(s) < 1_000_000_000
  {
    ValueBelow(s);
    PowMono(|s|, 9);
    PowNine();
  }

  lemma NoDigits(s: seq<Byte>)
    ensures AllDigits(s[..0]) && Value(s[..0]) == 0
  {
  }

  // One digit more, while they are few.
  lemma GrowDigits(s: seq<Byte>, j: nat)
    requires j < |s| && j < 9 && AllDigits(s[..j]) && IsDigit(s[j])
    ensures AllDigits(s[..j + 1]) && Value(s[..j + 1]) == Value(s[..j]) * 10 + (s[j] - ZERO)
    ensures Value(s[..j + 1]) < 1_000_000_000
  {
    assert s[..j + 1][..j] == s[..j];
    ShortValue(s[..j + 1]);
  }

  // Btoi64: the short fast path and its fallback accept the same strings with
  // the same values as strconv.ParseInt alone.
  method Btoi64(b: seq<Byte>) returns (r: Result<Int64>)
    ensures r == ParseInt(b)
  {
    if 0 != |b| < 10 {
      var neg, i := false, 0;
      if b[0] == MINUS {
        neg, i := true, 1;
      } else if b[0] == PLUS {
        i := 1;
      }
      ghost var body := b[i..];
      assert b[0..] == b;
      assert body == Body(b);
      if |b| != i {
        hide Value, AllDigits;
        ghost var start := i;
        var n: Int64 := 0;
        NoDigits(body);
        while i < |b| && IsDigit(b[i])
          invariant start <= i <= |b|
          invariant AllDigits(body[..i - start]) && n == Value(body[..i - start]) < 1_000_000_000
        {
          GrowDigits(body, i - start);
          n := b[i] - ZERO + n * 10;
          i := i + 1;
        }
        if |b| == i {
          assert body[..i - start] == body;
          return Ok(if neg then 0 - n else n);
        }
      }
    }
    r := ParseInt(b);
  }
}
