/** `fast_atoi` on a wrapping 64-bit accumulator, and the decimal form `fast_itoa` prints. */
module Decimal {
  import opened Bytes

  predicate IsDigit(c: Byte) {
    48 <= c <= 57
  }

  function DigitOf(c: Byte): nat
    requires IsDigit(c)
  {
    c - 48
  }

  /** Reads digits into `acc`, wrapping like `size_t`, up to the first byte that is none. */
  function AtoiFrom(acc: nat, s: seq<Byte>): nat
    decreases |s|
  {
    if s == [] || !IsDigit(s[0]) then acc else AtoiFrom((acc * 10 + DigitOf(s[0])) % TWO_64, s[1..])
  }

  function Atoi(s: seq<Byte>): nat {
    AtoiFrom(0, s)
  }

  method FastAtoi(s: seq<Byte>) returns (result: nat)
    ensures result == Atoi(s) && result < TWO_64
  {
    result := 0;
    var i := 0;
    while i < |s|
      invariant 0 <= i <= |s| && result < TWO_64
      invariant AtoiFrom(result, s[i..]) == Atoi(s)
    {
      if !IsDigit(s[i]) {
        break;
      }
      assert s[i..][1..] == s[i + 1..];
      result := (result * 10 + DigitOf(s[i])) % TWO_64;
      i := i + 1;
    }
  }

  /** The shortest decimal form, as `std::to_chars` writes it. */
  function Digits(n: nat): (s: seq<Byte>)
    ensures s != [] && forall c :: c in s ==> IsDigit(c)
  {
    if n < 10 then [48 + n] else Digits(n / 10) + [48 + n % 10]
  }

  /** `fast_itoa` into a buffer of `room` characters: nothing if the digits do not fit. */
  function Itoa(room: nat, value: nat): seq<Byte> {
    if |Digits(value)| <= room then Digits(value) else []
  }

  /** The number a digit string stands for. */
  function Value(s: seq<Byte>): nat
    requires forall c :: c in s ==> IsDigit(c)
  {
    if s == [] then 0 else 10 * Value(s[..|s| - 1]) + DigitOf(s[|s| - 1])
  }

  /** Digits read one after the other: the accumulator after `a` is where `b` starts. */
  lemma {:induction false} AtoiAppend(acc: nat, a: seq<Byte>, b: seq<Byte>)
    requires forall c :: c in a ==> IsDigit(c)
    ensures AtoiFrom(acc, a + b) == AtoiFrom(AtoiFrom(acc, a), b)
    decreases |a|
  {
    if a == [] {
      assert a + b == b;
    } else {
      assert (a + b)[1..] == a[1..] + b;
      AtoiAppend((acc * 10 + DigitOf(a[0])) % TWO_64, a[1..], b);
    }
  }

  lemma WrapStep(v: nat, d: nat)
    ensures (v % TWO_64 * 10 + d) % TWO_64 == (10 * v + d) % TWO_64
  {
    var q, r := v / TWO_64, v % TWO_64;
    assert 10 * v + d == (10 * q) * TWO_64 + (10 * r + d);
    ModSkip(10 * q, 10 * r + d);
  }

  lemma {:induction false} ModSkip(q: nat, r: nat)
    ensures (q * TWO_64 + r) % TWO_64 == r % TWO_64
  {
    if q > 0 {
      ModSkip(q - 1, r);
      assert q * TWO_64 + r == ((q - 1) * TWO_64 + r) + TWO_64;
    }
  }

  /** Parsing a digit string, whatever non-digit follows it, gives its value modulo 2^64. */
  lemma {:induction false} AtoiIsValue(s: seq<Byte>, tail: seq<Byte>)
    requires forall c :: c in s ==> IsDigit(c)
    requires tail == [] || tail[0] < 48 || tail[0] > 57
    ensures Atoi(s + tail) == Value(s) % 0x1_0000_0000_0000_0000
    decreases |s|
  {
    AtoiAppend(0, s, tail);
    if s != [] {
      var front, last := s[..|s| - 1], s[|s| - 1];
      assert s == front + [last];
      AtoiIsValue(front, []);
      assert front + [] == front;
      AtoiAppend(0, front, [last]);
      assert [last][1..] == [];
      WrapStep(Value(front), DigitOf(last));
    }
  }

  lemma {:induction false} ValueOfDigits(n: nat)
    ensures Value(Digits(n)) == n
  {
    if n >= 10 {
      ValueOfDigits(n / 10);
      assert Digits(n)[..|Digits(n)| - 1] == Digits(n / 10);
    } else {
      assert Digits(n)[..0] == [];
    }
  }

  /** Parsing what was printed is the identity exactly on the 64-bit sizes. */
  lemma DecimalRoundTrip(n: nat, tail: seq<Byte>)
    requires tail == [] || tail[0] < 48 || tail[0] > 57
    ensures Atoi(Digits(n) + tail) == n <==> n < 0x1_0000_0000_0000_0000
  {
    AtoiIsValue(Digits(n), tail);
    ValueOfDigits(n);
  }

  function Pow10(k: nat): (p: nat)
    ensures p > 0
  {
    if k == 0 then 1 else 10 * Pow10(k - 1)
  }

  lemma {:induction false} DigitsLength(n: nat, k: nat)
    requires k > 0
    ensures |Digits(n)| <= k <==> n < Pow10(k)
  {
    if n >= 10 {
      if k > 1 {
        DigitsLength(n / 10, k - 1);
      } else {
        assert Pow10(1) == 10 * Pow10(0);
      }
    }
  }

  /** `k` characters hold exactly the values below 10^k; for any other nothing is written. */
  lemma ItoaExactly(k: nat, value: nat)
    requires k > 0
    ensures Itoa(k, value) == if value < Pow10(k) then Digits(value) else []
  {
    DigitsLength(value, k);
  }

  /** Twenty characters hold any `size_t`, so the 24-character buffer always suffices. */
  lemma ItoaAlwaysFits(value: nat)
    requires value < TWO_64
    ensures |Digits(value)| <= 20 && Itoa(24, value) == Digits(value)
  {
    assert Pow10(10) == 10_000_000_000;
    assert Pow10(20) == 100_000_000_000_000_000_000;
    DigitsLength(value, 20);
  }
}
