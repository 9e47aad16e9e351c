/** Numerals in any base from 2 to 36, written backwards into a buffer and then reversed in place. */
module Itoa {
  import opened Common
  import opened Bytes

  function DigitChar(d: nat): byte
    requires d < 36
  {
    if d < 10 then ZERO + d else 97 + (d - 10)
  }

  /** Entry `i` of the 71-character table, which is symmetric about the digit 0 in its middle. */
  function Table(i: nat): byte
    requires i < 71
  {
    DigitChar(if i < 35 then 35 - i else i - 35)
  }

  /** The table as the code spells it. */
  const TABLE := "zyxwvutsrqponmlkjihgfedcba" + "987654321" + "0123456789" + "abcdefghijklmnopqrstuvwxyz"

  lemma TableIs(i: nat)
    requires i < 71
    ensures |TABLE| == 71 && Table(i) == TABLE[i] as int
  {
    if i < 26 {
      FromZ(i);
    } else if i < 35 {
      From9(i - 26);
    } else if i < 45 {
      From0(i - 35);
    } else {
      FromA(i - 45);
    }
  }

  lemma FromA(j: nat)
    requires j < 26
    ensures "abcdefghijklmnopqrstuvwxyz"[j] as int == 97 + j
  {}

  lemma FromZ(j: nat)
    requires j < 26
    ensures "zyxwvutsrqponmlkjihgfedcba"[j] as int == 122 - j
  {}

  lemma From0(j: nat)
    requires j < 10
    ensures "0123456789"[j] as int == 48 + j
  {}

  lemma From9(j: nat)
    requires j < 9
    ensures "987654321"[j] as int == 57 - j
  {}

  function Magnitude(v: int): nat { if v < 0 then -v else v }

  // Quotient, remainder and product under names of their own: the proofs below reason with `QuotRemd` alone.

  function Remd(a: nat, b: nat): (r: nat)
    requires b >= 2
    ensures r < b && (a < b ==> r == a)
  {
    a % b
  }

  function Times(a: int, b: int): int { a * b }

  lemma QuotRemd(a: nat, b: nat)
    requires b >= 2
    ensures a == Times(Quot(a, b), b) + Remd(a, b)
    ensures Times(-Quot(a, b), b) == -Times(Quot(a, b), b)
    ensures 0 <= Times(Quot(a, b), b) <= a
  {
    var q := a / b;
    assert a == q * b + a % b;
    assert (-q) * b == -(q * b);
  }

  predicate Base(b: int) { 2 <= b <= 36 }

  /** Both instances of the template: `int` and `unsigned int`. */
  predicate Word32(v: int) { -0x8000_0000 <= v < 0x1_0000_0000 }

  function Numeral(n: nat, base: nat): (s: Bytes)
    requires Base(base)
    ensures s != []
  {
    if n < base then [DigitChar(n)] else Numeral(Quot(n, base), base) + [DigitChar(Remd(n, base))]
  }

  function Text(v: int, base: nat): Bytes
    requires Base(base)
  {
    if v < 0 then [MINUS] + Numeral(-v, base) else Numeral(v, base)
  }

  function DigitOf(b: byte): int { if b < 97 then b - ZERO else b - 97 + 10 }

  function Value(s: Bytes, base: nat): int {
    if s == [] then 0 else Times(Value(s[..|s| - 1], base), base) + DigitOf(s[|s| - 1])
  }

  /** The numeral means the number. */
  lemma {:induction false} NumeralMeans(n: nat, base: nat)
    requires Base(base)
    ensures Value(Numeral(n, base), base) == n
  {
    var s := Numeral(n, base);
    if n >= base {
      NumeralMeans(Quot(n, base), base);
      assert s[..|s| - 1] == Numeral(Quot(n, base), base);
      QuotRemd(n, base);
      hide Quot, Remd, Times;
    } else {
      assert s[..0] == [];
      assert Times(0, base) == 0;
    }
  }

  /** It has no leading zero and contains no NUL. */
  lemma {:induction false} NumeralCanonical(n: nat, base: nat)
    requires Base(base)
    ensures 0 !in Numeral(n, base) && (n > 0 ==> Numeral(n, base)[0] != ZERO)
  {
    if n >= base { NumeralCanonical(Quot(n, base), base); }
  }

  lemma {:induction false} NumeralIsDecimal(n: nat)
    ensures Numeral(n, 10) == Decimal(n)
  {
    if n >= 10 { NumeralIsDecimal(n / 10); }
  }

  /** In base 10 `fast_atoi<unsigned>` undoes it for every unsigned value. */
  lemma AtoiUndoesItoa(v: nat)
    requires v < UNSIGNED
    ensures Atoi(Text(v, 10)) % UNSIGNED == v
  {
    NumeralIsDecimal(v);
    AtoiDecimal(v);
  }

  function Rev(s: Bytes): (r: Bytes)
    ensures |r| == |s|
  {
    if s == [] then [] else Rev(s[1..]) + [s[0]]
  }

  lemma {:induction false} RevAt(s: Bytes, k: nat)
    requires k < |s|
    ensures Rev(s)[k] == s[|s| - 1 - k]
  {
    if k < |s| - 1 { RevAt(s[1..], k); }
  }

  lemma {:induction false} RevSnoc(s: Bytes, b: byte)
    ensures Rev(s + [b]) == [b] + Rev(s)
  {
    if s == [] {
      assert s + [b] == [b] && [b][1..] == [];
    } else {
      assert (s + [b])[1..] == s[1..] + [b];
      RevSnoc(s[1..], b);
    }
  }

  /** The digits of a value, lowest first: what the loop has written when it ends. */
  function Backwards(v: nat, base: nat): (s: Bytes)
    requires Base(base)
    decreases v
  {
    if v < base then [DigitChar(v)] else [DigitChar(Remd(v, base))] + Backwards(Quot(v, base), base)
  }

  lemma {:induction false} BackwardsIsRev(v: nat, base: nat)
    requires Base(base)
    ensures Rev(Backwards(v, base)) == Numeral(v, base)
    decreases v
  {
    if v >= base {
      BackwardsIsRev(Quot(v, base), base);
      var rest := Backwards(Quot(v, base), base);
      assert ([DigitChar(Remd(v, base))] + rest)[1..] == rest;
    } else {
      assert [DigitChar(v)][1..] == [];
    }
  }

  /** A digit step of the loop keeps the sign and shrinks the value, without overflow. */
  lemma DigitStep(v: int, base: nat)
    requires Base(base)
    ensures var q := TruncDiv(v, base);
            && Magnitude(v - Times(q, base)) == Remd(Magnitude(v), base) && Magnitude(q) == Quot(Magnitude(v), base)
            && (v != 0 ==> Magnitude(q) < Magnitude(v)) && (q != 0 ==> (q < 0 <==> v < 0))
            && (Word32(v) ==> Word32(Times(q, base)) && Word32(q))
  {
    hide Quot, Remd, Times;
    QuotRemd(Magnitude(v), base);
  }

  /** What the digit loop has written after `p` digits, and what is left to write. */
  ghost predicate Writing(out: Bytes, value: int, v: int, base: nat, done: bool)
    requires Base(base)
  {
    var all := Backwards(Magnitude(value), base);
    if done then out == all
    else all == out + Backwards(Magnitude(v), base) && (v != 0 ==> (v < 0 <==> value < 0)) && (v == 0 ==> value == 0)
  }

  lemma WritingStep(out: Bytes, value: int, v: int, base: nat)
    requires Base(base) && Writing(out, value, v, base, false)
    ensures var q := TruncDiv(v, base);
            && Magnitude(v - Times(q, base)) < base && (v < 0 <==> value < 0)
            && Writing(out + [DigitChar(Magnitude(v - Times(q, base)))], value, q, base, q == 0)
            && |out| < |Backwards(Magnitude(value), base)|
  {
    hide Quot, Remd, Times;
    DigitStep(v, base);
    var q, d := TruncDiv(v, base), DigitChar(Remd(Magnitude(v), base));
    if q == 0 {
      assert Backwards(Magnitude(v), base) == [d];
    } else {
      assert Backwards(Magnitude(v), base) == [d] + Backwards(Magnitude(q), base);
      assert out + ([d] + Backwards(Magnitude(q), base)) == (out + [d]) + Backwards(Magnitude(q), base);
    }
  }

  /** The digit loop: lowest digit first; the last value divided tells the sign. */
  method WriteDigits(value: int, result: array<byte>, base: int) returns (p: nat, tmp: int)
    requires Word32(value) && Base(base) && result.Length >= |Backwards(Magnitude(value), base)|
    modifies result
    ensures p == |Backwards(Magnitude(value), base)| && result[..p] == Backwards(Magnitude(value), base)
    ensures result[p..] == old(result[p..]) && (tmp < 0 <==> value < 0)
  {
    hide Backwards, Quot, Remd, Times;
    var v := value;
    p, tmp := 0, 0;
    var done := false;
    assert result[..0] + Backwards(Magnitude(value), base) == Backwards(Magnitude(value), base);
    while !done
      invariant p <= |Backwards(Magnitude(value), base)| && result[p..] == old(result[p..])
      invariant Writing(result[..p], value, v, base, done)
      invariant (p > 0 ==> (tmp < 0 <==> value < 0)) && (done ==> p > 0) && Word32(v)
      decreases if done then 0 else 1 + Magnitude(v), !done
    {
      WritingStep(result[..p], value, v, base);
      DigitStep(v, base);
      hide Writing, TruncDiv;
      tmp := v;
      v := TruncDiv(v, base);
      assert Word32(Times(v, base));
      result[p] := Table(35 + (tmp - Times(v, base)));
      assert result[..p + 1] == result[..p] + [result[p]];
      p := p + 1;
      done := v == 0;
    }
  }

  lemma TextReversed(value: int, base: nat)
    requires Base(base)
    ensures var all := Backwards(Magnitude(value), base);
            Rev(if value < 0 then all + [MINUS] else all) == Text(value, base)
  {
    hide Backwards, Numeral;
    BackwardsIsRev(Magnitude(value), base);
    RevSnoc(Backwards(Magnitude(value), base), MINUS);
  }

  /** Writes the text of `value` and a NUL; returns the length of the text. */
  method Itoa(value: int, result: array<byte>, base: int) returns (size: nat)
    requires Word32(value) && result.Length >= 1
    requires Base(base) ==> result.Length > |Text(value, base)|
    modifies result
    ensures Base(base) ==> size == |Text(value, base)| && result[..size] == Text(value, base)
    ensures !Base(base) ==> size == 0
    ensures result[size] == 0 && result[size + 1..] == old(result[size + 1..])
  {
    if base < 2 || base > 36 {
      result[0] := 0;
      return 0;
    }
    hide Backwards, Numeral, Rev, Text;
    size := Write(value, result, base);
  }

  /** The two loops of a legal base. */
  method Write(value: int, result: array<byte>, base: int) returns (size: nat)
    requires Word32(value) && Base(base) && result.Length > |Text(value, base)|
    modifies result
    ensures size == |Text(value, base)| && result[..size] == Text(value, base)
    ensures result[size] == 0 && result[size + 1..] == old(result[size + 1..])
  {
    hide Numeral, Rev, Text, Backwards;
    TextReversed(value, base);
    ghost var was, all := result[..], Backwards(Magnitude(value), base);
    var n, tmp := WriteDigits(value, result, base);
    ghost var digits := result[..];
    assert digits[..n] == all && digits[n..] == was[n..];
    size := Terminate(result, n, tmp < 0);
    ghost var written := result[..];
    assert all + [] == all;
    assert written[..size] == if value < 0 then all + [MINUS] else all;
    assert written[size + 1..] == digits[size + 1..];
    TailKept(was, digits, n, size + 1);
    ReverseInPlace(result, size);
    assert result[..][size..] == written[size..];
    HeadOfTail(written, result[..], size);
  }

  /** The sign and the NUL. */
  method Terminate(result: array<byte>, n: nat, negative: bool) returns (p: nat)
    requires n + (if negative then 1 else 0) < result.Length
    modifies result
    ensures p == n + (if negative then 1 else 0)
    ensures result[..p] == old(result[..n]) + (if negative then [MINUS] else [])
    ensures result[p] == 0 && result[p + 1..] == old(result[p + 1..])
  {
    p := n;
    if negative {
      result[p] := MINUS;
      p := p + 1;
    }
    result[p] := 0;
  }

  lemma TailKept(s: Bytes, t: Bytes, n: nat, m: nat)
    requires |s| == |t| && n <= m <= |s| && s[n..] == t[n..]
    ensures s[m..] == t[m..]
  {
    assert s[n..][m - n..] == s[m..] && t[n..][m - n..] == t[m..];
  }

  lemma HeadOfTail(s: Bytes, t: Bytes, p: nat)
    requires |s| == |t| && p < |s| && s[p..] == t[p..]
    ensures s[p] == t[p] && s[p + 1..] == t[p + 1..]
  {
    assert s[p..][0] == s[p] && t[p..][0] == t[p];
    TailKept(s, t, p, p + 1);
  }

  method ReverseInPlace(a: array<byte>, n: nat)
    requires n <= a.Length
    modifies a
    ensures a[..n] == Rev(old(a[..n])) && a[n..] == old(a[n..])
  {
    ghost var was := a[..n];
    var i, j := 0, n - 1;
    while i < j
      invariant 0 <= i && i + j == n - 1
      invariant forall k :: 0 <= k < n && (k < i || j < k) ==> a[k] == was[n - 1 - k]
      invariant forall k :: i <= k <= j ==> a[k] == was[k]
      invariant a[n..] == old(a[n..])
    {
      a[i], a[j] := a[j], a[i];
      i, j := i + 1, j - 1;
    }
    forall k | 0 <= k < n ensures a[k] == Rev(was)[k] { RevAt(was, k); }
  }
}
