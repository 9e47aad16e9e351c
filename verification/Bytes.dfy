/** Bytes, decimal numerals and `fast_atoi`. */
module Bytes {
  import opened Common

  type byte = x: int | 0 <= x < 256
  type Bytes = seq<byte>

  const SOH: byte := 1
  const EQUALS: byte := 61
  const ZERO: byte := 48
  const MINUS: byte := 45

  const USHORT := 0x10000
  const UNSIGNED := 0x1_0000_0000

  predicate IsDigit(b: byte) { ZERO <= b <= 57 }

  predicate AllDigits(s: Bytes) { forall b <- s :: IsDigit(b) }

  /** What one character adds in `fast_atoi`; `char` is signed. */
  function DigitValue(b: byte): int { (if b < 128 then b else b - 256) - ZERO }

  /** The value `fast_atoi` accumulates, before truncation to the result type. */
  function Atoi(s: Bytes): int {
    if s == [] then 0 else Atoi(s[..|s| - 1]) * 10 + DigitValue(s[|s| - 1])
  }

  function Decimal(n: nat): (s: Bytes)
    ensures s != [] && AllDigits(s)
  {
    if n < 10 then [ZERO + n] else Decimal(n / 10) + [ZERO + n % 10]
  }

  /** The text an int field prints. */
  function IntText(n: int): Bytes { if n < 0 then [MINUS] + Decimal(-n) else Decimal(n) }

  /** Digits without a leading zero, other than "0" itself. */
  predicate CanonicalNumeral(s: Bytes) { s != [] && AllDigits(s) && (|s| > 1 ==> s[0] != ZERO) }

  lemma AtoiSnoc(s: Bytes, b: byte)
    ensures Atoi([]) == 0 && Atoi(s + [b]) == Atoi(s) * 10 + DigitValue(b)
  {
    assert (s + [b])[..|s|] == s;
  }

  /** One character: a digit counts for itself, and a byte from 128 on as the negative number it is in a signed `char`. */
  lemma OneCharacter(b: byte)
    ensures IsDigit(b) ==> Atoi([b]) == b - 48
    ensures b >= 128 ==> Atoi([b]) == b - 304
  {
    AtoiSnoc([], b);
    assert [] + [b] == [b];
  }

  lemma {:induction false} AtoiDecimal(n: nat)
    ensures Atoi(Decimal(n)) == n
  {
    if n >= 10 {
      AtoiDecimal(n / 10);
      assert Decimal(n)[..|Decimal(n)| - 1] == Decimal(n / 10);
    } else {
      assert Decimal(n)[..0] == [];
    }
  }

  lemma {:induction false} AtoiOfDigits(s: Bytes)
    requires AllDigits(s)
    ensures 0 <= Atoi(s)
    ensures s != [] && s[0] != ZERO ==> Atoi(s) > 0
  {
    if s != [] {
      var front := s[..|s| - 1];
      forall b | b in front ensures IsDigit(b) {}
      AtoiOfDigits(front);
      assert IsDigit(s[|s| - 1]);
      if |s| == 1 {
        assert front == [];
      }
    }
  }

  /** Printing undoes parsing on canonical numerals. */
  lemma {:induction false} DecimalAtoi(s: Bytes)
    requires CanonicalNumeral(s)
    ensures 0 <= Atoi(s) && Decimal(Atoi(s)) == s
  {
    AtoiOfDigits(s);
    var front, last := s[..|s| - 1], s[|s| - 1];
    assert IsDigit(last);
    assert s == front + [last];
    if |s| == 1 {
      assert front == [];
    } else {
      forall b | b in front ensures IsDigit(b) {}
      AtoiOfDigits(front);
      DecimalAtoi(front);
      assert (Atoi(front) * 10 + DigitValue(last)) / 10 == Atoi(front);
    }
  }

  /** `fast_atoi<unsigned>` and `fast_atoi<unsigned short>`: the loop truncates after every character. */
  method FastAtoi(s: Bytes, term: byte, modulus: int) returns (r: nat)
    requires term in s && (modulus == USHORT || modulus == UNSIGNED)
    ensures r == Atoi(Before(s, term)) % modulus
  {
    hide Truncated, Atoi;
    TruncatedIs(Atoi(s[..0]), modulus);
    AtoiSnoc([], 0);
    assert s[..0] == [];
    r := Truncated(0, modulus);
    var i := 0;
    while s[i] != term
      invariant i < |s| && term !in s[..i] && term in s[i..]
      invariant r == Truncated(Atoi(s[..i]), modulus)
      decreases |s| - i
    {
      TruncateStep(Atoi(s[..i]), DigitValue(s[i]), modulus);
      AtoiSnoc(s[..i], s[i]);
      r := Truncated(r * 8 + r * 2 + DigitValue(s[i]), modulus);
      assert s[..i + 1] == s[..i] + [s[i]];
      assert s[i..] == [s[i]] + s[i + 1..];
      i := i + 1;
    }
    BeforeIs(s, term, i);
    TruncatedIs(Atoi(s[..i]), modulus);
  }

  /** A value as an unsigned type of that many values keeps it. */
  function Truncated(n: int, modulus: int): nat
    requires modulus == USHORT || modulus == UNSIGNED
  {
    n % modulus
  }

  lemma TruncatedIs(n: int, modulus: int)
    requires modulus == USHORT || modulus == UNSIGNED
    ensures Truncated(n, modulus) == n % modulus
  {}

  lemma TruncateStep(a: int, d: int, m: int)
    requires m == USHORT || m == UNSIGNED
    ensures Truncated(Truncated(a, m) * 10 + d, m) == Truncated(a * 10 + d, m)
  {
    ModStep(a, d, m);
  }

  /** The `int` a number wraps to. */
  function Int32(n: int): (r: int)
    ensures -0x8000_0000 <= r < 0x8000_0000 && (-0x8000_0000 <= n < 0x8000_0000 ==> r == n)
  {
    (n + 0x8000_0000) % UNSIGNED - 0x8000_0000
  }

  /** `fast_atoi<int>`, which int fields use, on a machine whose arithmetic wraps. A sign is a digit of value -3. */
  method FastAtoiInt(s: Bytes, term: byte) returns (r: int)
    requires term in s
    ensures r == Int32(Atoi(Before(s, term)))
  {
    r := 0;
    var i := 0;
    assert s[..0] == [];
    while s[i] != term
      invariant i < |s| && term !in s[..i] && term in s[i..]
      invariant r == Int32(Atoi(s[..i]))
      decreases |s| - i
    {
      AtoiSnoc(s[..i], s[i]);
      WrapStep(Atoi(s[..i]), DigitValue(s[i]));
      r := Int32(r * 8 + r * 2 + DigitValue(s[i]));
      assert s[..i + 1] == s[..i] + [s[i]];
      assert s[i..] == [s[i]] + s[i + 1..];
      i := i + 1;
    }
    BeforeIs(s, term, i);
  }

  lemma ModStep(a: int, d: int, m: int)
    requires m == USHORT || m == UNSIGNED
    ensures ((a % m) * 10 + d) % m == (a * 10 + d) % m
  {
    if m == USHORT {
      assert a * 10 + d == ((a % 0x10000) * 10 + d) + 0x10000 * (10 * (a / 0x10000));
      ModUShort((a % 0x10000) * 10 + d, 10 * (a / 0x10000));
    } else {
      assert a * 10 + d == ((a % 0x1_0000_0000) * 10 + d) + 0x1_0000_0000 * (10 * (a / 0x1_0000_0000));
      ModUnsigned((a % 0x1_0000_0000) * 10 + d, 10 * (a / 0x1_0000_0000));
    }
  }

  lemma WrapStep(a: int, d: int)
    ensures Int32(Int32(a) * 10 + d) == Int32(a * 10 + d)
  {
    var q := (a + 0x8000_0000) / 0x1_0000_0000;
    assert Int32(a) == a - 0x1_0000_0000 * q;
    ModUnsigned(Int32(a) * 10 + d + 0x8000_0000, 10 * q);
  }

  lemma ModUShort(n: int, k: int)
    ensures (n + 0x10000 * k) % 0x10000 == n % 0x10000
  {}

  lemma ModUnsigned(n: int, k: int)
    ensures (n + 0x1_0000_0000 * k) % 0x1_0000_0000 == n % 0x1_0000_0000
  {}

  function Pow10(n: nat): nat { if n == 0 then 1 else 10 * Pow10(n - 1) }

  /** The bytes before the first `term`, or all of them. */
  function Before(s: Bytes, term: byte): Bytes {
    if s == [] || s[0] == term then [] else [s[0]] + Before(s[1..], term)
  }

  lemma {:induction false} BeforeIs(s: Bytes, term: byte, i: nat)
    requires i <= |s| && term !in s[..i] && (i < |s| ==> s[i] == term)
    ensures Before(s, term) == s[..i]
  {
    if i > 0 {
      assert s[0] == s[..i][0];
      var front := s[1..][..i - 1];
      forall j | 0 <= j < |front| ensures front[j] != term { assert s[..i][j + 1] in s[..i]; }
      BeforeIs(s[1..], term, i - 1);
      assert s[..i] == [s[0]] + front;
    }
  }

  /** The part of a value a C string constructor sees. */
  function CString(s: Bytes): Bytes { Before(s, 0) }
}
