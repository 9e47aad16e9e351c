/**
 The word-parallel checksum. Words are numbers below 2^64; `And` and `Xor` are the bitwise operations on them.
 */
module Checksum {
  import opened Bytes

  const WORD := 0x1_0000_0000_0000_0000
  const OVERFLOW_MASK := 0x0101_0101_0101_0100

  function And(x: nat, y: nat): nat {
    if x == 0 || y == 0 then 0 else 2 * And(x / 2, y / 2) + (if x % 2 == 1 && y % 2 == 1 then 1 else 0)
  }

  function Xor(x: nat, y: nat): nat {
    if x == 0 then y else if y == 0 then x else 2 * Xor(x / 2, y / 2) + (if x % 2 == y % 2 then 0 else 1)
  }

  /** Little-endian load. */
  function Load(s: Bytes): nat { if s == [] then 0 else s[0] + 256 * Load(s[1..]) }

  /** Byte `j` of a word. */
  function Lane(x: nat, j: nat): nat { if j == 0 then x % 256 else Lane(x / 256, j - 1) }

  function LaneSum(x: nat, k: nat): nat { if k == 0 then 0 else x % 256 + LaneSum(x / 256, k - 1) }

  /** The sum the protocol asks for. */
  function Sum(s: Bytes): nat { if s == [] then 0 else Sum(s[..|s| - 1]) + s[|s| - 1] }

  function Collapse(x: nat): nat {
    (x + x / 0x100 + x / 0x1_0000 + x / 0x100_0000 + x / 0x1_0000_0000 + x / 0x100_0000_0000
     + x / 0x1_0000_0000_0000 + x / 0x100_0000_0000_0000) % WORD
  }

  // ---------------------------------------------------------------- the carry trick

  /** The carry into byte `j` when adding `x`, `y` and `c`. */
  function CarryAt(x: nat, y: nat, c: nat, j: nat): nat {
    if j == 0 then c else CarryAt(x / 256, y / 256, (x % 256 + y % 256 + c) / 256, j - 1)
  }

  /** The carries into the next `k` bytes, one per byte. */
  function Carries(x: nat, y: nat, c: nat, k: nat): nat {
    if k == 0 then 0
    else (x % 256 + y % 256 + c) / 256 + 256 * Carries(x / 256, y / 256, (x % 256 + y % 256 + c) / 256, k - 1)
  }

  function CarrySum(x: nat, y: nat, c: nat, k: nat): nat {
    if k == 0 then 0
    else (x % 256 + y % 256 + c) / 256 + CarrySum(x / 256, y / 256, (x % 256 + y % 256 + c) / 256, k - 1)
  }

  /** The lowest bit of every byte, `k` bytes. */
  function Ones(k: nat): nat { if k == 0 then 0 else 1 + 256 * Ones(k - 1) }

  function Parity(x: nat, y: nat, z: nat, k: nat): nat {
    if k == 0 then 0 else (x + y + z) % 2 + 256 * Parity(x / 256, y / 256, z / 256, k - 1)
  }

  lemma AndShift(x: nat, m: nat)
    ensures And(x, 2 * m) == 2 * And(x / 2, m)
  {
    assert (2 * m) / 2 == m && (2 * m) % 2 == 0;
  }

  lemma AndShift4(x: nat, m: nat)
    ensures And(x, 16 * m) == 16 * And(x / 16, m)
  {
    AndShift(x, 8 * m);
    AndShift(x / 2, 4 * m);
    AndShift(x / 4, 2 * m);
    AndShift(x / 8, m);
    hide And;
    assert 16 * m == 2 * (8 * m) && 8 * m == 2 * (4 * m) && 4 * m == 2 * (2 * m);
    assert x / 2 / 2 == x / 4 && x / 4 / 2 == x / 8 && x / 8 / 2 == x / 16;
  }

  lemma AndOdd(x: nat, m: nat)
    ensures And(x, 1 + 2 * m) == x % 2 + 2 * And(x / 2, m)
  {
    assert (1 + 2 * m) / 2 == m && (1 + 2 * m) % 2 == 1;
  }

  lemma AndByte(x: nat, m: nat)
    ensures And(x, 256 * m) == 256 * And(x / 256, m)
    ensures And(x, 1 + 256 * m) == x % 2 + 256 * And(x / 256, m)
  {
    hide And;
    AndShift4(x, 16 * m);
    AndShift4(x / 16, m);
    assert 256 * m == 16 * (16 * m) && x / 16 / 16 == x / 256;
    AndOdd(x, 128 * m);
    AndShift(x, 128 * m);
    assert 1 + 256 * m == 1 + 2 * (128 * m) && 256 * m == 2 * (128 * m);
  }

  lemma XorShift(x: nat, y: nat)
    ensures Xor(x, y) % 2 == (x + y) % 2 && Xor(x, y) / 2 == Xor(x / 2, y / 2)
  {
    hide Xor;
    if x == 0 || y == 0 {
      XorZero(x, y);
      XorZero(x / 2, y / 2);
    } else {
      XorUnfold(x, y);
      Halve(Xor(x / 2, y / 2), (x + y) % 2);
    }
  }

  lemma XorUnfold(x: nat, y: nat)
    requires x > 0 && y > 0
    ensures Xor(x, y) == 2 * Xor(x / 2, y / 2) + (x + y) % 2
  {
    ParityBit(x, y);
  }

  lemma ParityBit(x: nat, y: nat)
    ensures (x + y) % 2 == if x % 2 == y % 2 then 0 else 1
  {}

  lemma Halve(q: nat, b: nat)
    requires b < 2
    ensures (2 * q + b) % 2 == b && (2 * q + b) / 2 == q
  {}

  lemma XorZero(x: nat, y: nat)
    requires x == 0 || y == 0
    ensures Xor(x, y) == x + y
  {}

  lemma XorShift4(x: nat, y: nat)
    ensures Xor(x, y) / 16 == Xor(x / 16, y / 16)
  {
    XorShift(x, y);
    XorShift(x / 2, y / 2);
    XorShift(x / 4, y / 4);
    XorShift(x / 8, y / 8);
    hide Xor;
    assert x / 2 / 2 == x / 4 && x / 4 / 2 == x / 8 && x / 8 / 2 == x / 16;
    assert y / 2 / 2 == y / 4 && y / 4 / 2 == y / 8 && y / 8 / 2 == y / 16;
    var z := Xor(x, y);
    assert z / 2 / 2 == z / 4 && z / 4 / 2 == z / 8 && z / 8 / 2 == z / 16;
  }

  lemma XorByte(x: nat, y: nat)
    ensures Xor(x, y) % 2 == (x + y) % 2 && Xor(x, y) / 256 == Xor(x / 256, y / 256)
  {
    XorShift(x, y);
    hide Xor;
    XorShift4(x, y);
    XorShift4(x / 16, y / 16);
    assert x / 16 / 16 == x / 256 && y / 16 / 16 == y / 256 && Xor(x, y) / 16 / 16 == Xor(x, y) / 256;
  }

  /** Masking keeps the lowest bit of each byte; on those bits two exclusive-ors are parity. */
  lemma {:induction false} MaskedParity(x: nat, y: nat, z: nat, k: nat)
    ensures And(Xor(Xor(And(x, Ones(k)), And(y, Ones(k))), z), Ones(k)) == Parity(x, y, z, k)
  {
    hide And, Xor, Parity;
    ParityNone(x, y, z);
    if k == 0 {
      AndNone(Xor(Xor(And(x, 0), And(y, 0)), z));
    } else {
      var m := Ones(k - 1);
      AndByte(x, m);
      AndByte(y, m);
      var a, b := And(x, 1 + 256 * m), And(y, 1 + 256 * m);
      var a', b' := And(x / 256, m), And(y / 256, m);
      LowBits(x, y, a', b');
      XorByte(a, b);
      var u := Xor(a, b);
      XorByte(u, z);
      var v := Xor(u, z);
      SumParity(u, z, x + y);
      assert v / 256 == Xor(Xor(a', b'), z / 256);
      AndByte(v, m);
      MaskedParity(x / 256, y / 256, z / 256, k - 1);
      ParityUnfold(x, y, z, k);
    }
  }

  lemma ParityNone(x: nat, y: nat, z: nat)
    ensures Parity(x, y, z, 0) == 0
  {}

  lemma LowBits(x: nat, y: nat, a: nat, b: nat)
    ensures (x % 2 + 256 * a) / 256 == a && (y % 2 + 256 * b) / 256 == b
    ensures ((x % 2 + 256 * a) + (y % 2 + 256 * b)) % 2 == (x + y) % 2
  {
    HighByte(x % 2, a);
    HighByte(y % 2, b);
    var m := 128 * a + 128 * b - x / 2 - y / 2;
    assert (x % 2 + 256 * a) + (y % 2 + 256 * b) == x + y + 2 * m;
    EvenDifference(x + y, m);
  }

  lemma HighByte(b: nat, a: nat)
    requires b < 256
    ensures (b + 256 * a) / 256 == a
  {}

  lemma EvenDifference(n: int, m: int)
    ensures (n + 2 * m) % 2 == n % 2
  {}

  lemma SumParity(u: nat, z: nat, n: nat)
    requires u % 2 == n % 2
    ensures (u + z) % 2 == (n + z) % 2
  {}

  lemma AndNone(x: nat)
    ensures And(x, 0) == 0
  {}

  lemma {:induction false} ParityIsCarry(x: nat, y: nat, c: nat, k: nat)
    requires c <= 1
    ensures Carries(x, y, c, k) == Parity(x / 256, y / 256, (x + y + c) / 256, k)
  {
    if k > 0 {
      var c1 := (x % 256 + y % 256 + c) / 256;
      var a, b := x / 256, y / 256;
      assert c1 <= 1 && (x + y + c) / 256 == a + b + c1;
      ParityIsCarry(a, b, c1, k - 1);
      TwiceAndCarry(a + b, c1);
      hide Parity, Carries;
      CarriesUnfold(x, y, c, k);
      ParityUnfold(a, b, a + b + c1, k);
    }
  }

  lemma EvenTerm(n: nat, m: nat)
    ensures (n + 2 * m) % 2 == n % 2
  {}

  lemma TwiceAndCarry(n: nat, c: nat)
    requires c <= 1
    ensures (n + (n + c)) % 2 == c
  {}

  lemma CarriesUnfold(x: nat, y: nat, c: nat, k: nat)
    requires k > 0
    ensures var c1 := (x % 256 + y % 256 + c) / 256; Carries(x, y, c, k) == c1 + 256 * Carries(x / 256, y / 256, c1, k - 1)
  {}

  lemma ParityUnfold(x: nat, y: nat, z: nat, k: nat)
    requires k > 0
    ensures Parity(x, y, z, k) == (x + y + z) % 2 + 256 * Parity(x / 256, y / 256, z / 256, k - 1)
  {}

  function Pow256(k: nat): (p: nat)
    ensures p >= 1
  { if k == 0 then 1 else 256 * Pow256(k - 1) }

  /** Truncating the sum to a word does not change the carries below it. */
  lemma {:induction false} ParityTruncated(x: nat, y: nat, z: nat, t: nat, k: nat)
    ensures Parity(x, y, z + Pow256(k) * t, k) == Parity(x, y, z, k)
  {
    if k > 0 {
      var u := Pow256(k - 1) * t;
      assert Pow256(k) * t == 256 * u;
      assert (z + 256 * u) / 256 == z / 256 + u;
      assert (x + y + (z + 256 * u)) % 2 == (x + y + z) % 2 by { EvenTerm(x + y + z, 128 * u); }
      ParityTruncated(x / 256, y / 256, z / 256, t, k - 1);
      hide Parity, Pow256;
      ParityUnfold(x, y, z + 256 * u, k);
      ParityUnfold(x, y, z, k);
    }
  }

  lemma MaskIsOnes()
    ensures OVERFLOW_MASK == 256 * Ones(7)
  {
    assert Ones(1) == 0x1 && Ones(2) == 0x101 && Ones(3) == 0x1_0101 && Ones(4) == 0x101_0101;
    assert Ones(5) == 0x1_0101_0101 && Ones(6) == 0x101_0101_0101 && Ones(7) == 0x1_0101_0101_0101;
  }

  lemma Pow256Is()
    ensures Pow256(7) == 0x100_0000_0000_0000
  {
    assert Pow256(2) == 0x1_0000 && Pow256(4) == 0x1_0000_0000 && Pow256(6) == 0x1_0000_0000_0000;
  }

  /** The carries into bytes 1 to 7 when `w` is added to `ret`, as the loop computes them. */
  function Expected(ret: nat, w: nat): nat { Xor(And(ret, OVERFLOW_MASK), And(OVERFLOW_MASK, w)) }

  lemma {:induction false} AndCommutes(x: nat, y: nat)
    ensures And(x, y) == And(y, x)
  {
    if x != 0 && y != 0 { AndCommutes(x / 2, y / 2); }
  }

  lemma CarryTrick(ret: nat, w: nat)
    requires ret < WORD && w < WORD
    ensures And(Xor(Expected(ret, w), (ret + w) % WORD), OVERFLOW_MASK) == 256 * Carries(ret, w, 0, 7)
  {
    hide And, Xor, Parity, Carries, Pow256, Ones;
    var z, m := (ret + w) % WORD, Ones(7);
    MaskIsOnes();
    AndCommutes(OVERFLOW_MASK, w);
    AndByte(ret, m);
    AndByte(w, m);
    var a, b := And(ret / 256, m), And(w / 256, m);
    XorByte(256 * a, 256 * b);
    XorByte(Xor(256 * a, 256 * b), z);
    AndByte(Xor(Xor(256 * a, 256 * b), z), m);
    assert 256 * a / 256 == a && 256 * b / 256 == b;
    MaskedParity(ret / 256, w / 256, z / 256, 7);
    ParityIsCarry(ret, w, 0, 7);
    Pow256Is();
    var t := (ret + w) / WORD;
    assert (ret + w) / 256 == z / 256 + 0x100_0000_0000_0000 * t;
    ParityTruncated(ret / 256, w / 256, z / 256, t, 7);
  }

  // ---------------------------------------------------------------- byte sums

  /** Adding word-wise adds each byte, plus the carry in, minus what is carried out. */
  lemma {:induction false} SumOfLanes(x: nat, y: nat, c: nat, k: nat)
    ensures LaneSum(x + y + c, k + 1) % 256 == (LaneSum(x, k + 1) + LaneSum(y, k + 1) + c + CarrySum(x, y, c, k)) % 256
  {
    hide LaneSum, CarrySum;
    var s := x % 256 + y % 256 + c;
    LowByte(x, y, c);
    LaneUnfold(x, k);
    LaneUnfold(y, k);
    LaneUnfold(x + y + c, k);
    CarrySumUnfold(x, y, c, k);
    if k > 0 {
      var a, b := LaneSum(x / 256, k), LaneSum(y / 256, k);
      SumOfLanes(x / 256, y / 256, s / 256, k - 1);
      ModAdd(s, LaneSum(x / 256 + y / 256 + s / 256, k), a + b + s / 256 + CarrySum(x / 256, y / 256, s / 256, k - 1));
    }
  }

  lemma LowByte(x: nat, y: nat, c: nat)
    ensures var s := x % 256 + y % 256 + c;
            (x + y + c) % 256 == s % 256 && (x + y + c) / 256 == x / 256 + y / 256 + s / 256
  {
    assert x + y + c == (x % 256 + y % 256 + c) + 256 * (x / 256 + y / 256);
  }

  lemma CarrySumUnfold(x: nat, y: nat, c: nat, k: nat)
    ensures var c1 := (x % 256 + y % 256 + c) / 256;
            CarrySum(x, y, c, k) == if k == 0 then 0 else c1 + CarrySum(x / 256, y / 256, c1, k - 1)
  {}

  lemma LaneUnfold(x: nat, k: nat)
    ensures LaneSum(x, k + 1) == x % 256 + LaneSum(x / 256, k)
    ensures k == 0 ==> LaneSum(x / 256, k) == 0
  {}

  lemma ModAdd(r: nat, p: nat, q: nat)
    requires p % 256 == q % 256
    ensures (r % 256 + p) % 256 == (r + q) % 256
  {
    var d := p / 256 - q / 256 - r / 256;
    assert r % 256 + p == r + q + 256 * d;
    ModMultiple(r + q, d);
  }

  lemma ModMultiple(n: int, d: int)
    ensures (n + 256 * d) % 256 == n % 256
  {}

  lemma {:induction false} LanesTruncated(z: nat, t: nat, k: nat)
    ensures LaneSum(z + Pow256(k) * t, k) == LaneSum(z, k)
  {
    if k > 0 {
      var u := Pow256(k - 1) * t;
      assert Pow256(k) * t == 256 * u;
      assert (z + 256 * u) / 256 == z / 256 + u && (z + 256 * u) % 256 == z % 256;
      LanesTruncated(z / 256, t, k - 1);
    }
  }

  lemma {:induction false} CarriesSum(x: nat, y: nat, c: nat, k: nat)
    requires c <= 1
    ensures LaneSum(256 * Carries(x, y, c, k), k + 1) == CarrySum(x, y, c, k)
  {
    if k > 0 {
      var c1 := (x % 256 + y % 256 + c) / 256;
      var rest := Carries(x / 256, y / 256, c1, k - 1);
      CarriesSum(x / 256, y / 256, c1, k - 1);
      assert (256 * rest) / 256 == rest && (c1 + 256 * rest) / 256 == rest && (c1 + 256 * rest) % 256 == c1;
      assert (256 * (c1 + 256 * rest)) / 256 == c1 + 256 * rest;
      assert (256 * (c1 + 256 * rest)) % 256 == 0 && (256 * rest) % 256 == 0;
    }
  }

  // ---------------------------------------------------------------- the accumulators

  /** `lost` counts the times a packed counter passed 255 and carried into the next one. */
  datatype Acc = Acc(ret: nat, overflow: nat, lost: nat)

  function StepAcc(a: Acc, w: nat): Acc {
    var carries := 256 * Carries(a.ret, w, 0, 7);
    Acc((a.ret + w) % WORD, (a.overflow + carries) % WORD, a.lost + CarrySum(a.overflow, carries, 0, 7))
  }

  function Words(s: Bytes, n: nat): Acc
    requires 8 * n <= |s|
  {
    if n == 0 then Acc(0, 0, 0) else StepAcc(Words(s, n - 1), Load(s[8 * (n - 1)..8 * n]))
  }

  // ---------------------------------------------------------------- what is lost

  /** Sum of byte `j` over the first `n` words. */
  function LaneTotal(s: Bytes, n: nat, j: nat): nat
    requires 8 * n <= |s| && j < 8
  {
    if n == 0 then 0 else LaneTotal(s, n - 1, j) + s[8 * (n - 1) + j]
  }

  /** How often adding up the words carries into byte `j`: the carries out of the byte before it. */
  function Into(s: Bytes, n: nat, j: nat): nat
    requires 8 * n <= |s| && j <= 8
  {
    if j == 0 then 0 else (LaneTotal(s, n, j - 1) + Into(s, n, j - 1)) / 256
  }

  /** How often the packed counter before byte `j` passes 255: it counts `Into(j - 1)` and what spills into itself. */
  function Spills(s: Bytes, n: nat, j: nat): nat
    requires 8 * n <= |s| && j <= 8
  {
    if j == 0 then 0 else (Into(s, n, j - 1) + Spills(s, n, j - 1)) / 256
  }

  function SpillSum(s: Bytes, n: nat, k: nat): nat
    requires 8 * n <= |s| && k <= 8
  {
    if k == 0 then 0 else SpillSum(s, n, k - 1) + Spills(s, n, k)
  }

  /** How many counter carries the checksum of `s` suffers, from the byte totals of its words alone. */
  function Lost(s: Bytes): nat { SpillSum(s, |s| / 8, 7) }

  lemma {:induction false} LoadBound(s: Bytes)
    ensures Load(s) < Pow256(|s|)
  {
    if s != [] { LoadBound(s[1..]); }
  }

  lemma {:induction false} LoadSum(s: Bytes)
    ensures LaneSum(Load(s), |s|) == SumLeft(s)
  {
    if s != [] {
      LoadSum(s[1..]);
      assert Load(s) % 256 == s[0] && Load(s) / 256 == Load(s[1..]);
    }
  }

  function SumLeft(s: Bytes): nat { if s == [] then 0 else s[0] + SumLeft(s[1..]) }

  lemma {:induction false} SumConcat(s: Bytes, t: Bytes)
    ensures Sum(s + t) == Sum(s) + SumLeft(t)
    decreases |t|
  {
    if t == [] {
      assert s + t == s;
    } else {
      assert s + t == (s + [t[0]]) + t[1..];
      SumConcat(s + [t[0]], t[1..]);
      assert (s + [t[0]])[..|s|] == s;
    }
  }

  lemma WordPow()
    ensures Pow256(8) == WORD
  {
    Pow256Is();
    assert Pow256(8) == 256 * Pow256(7);
  }

  lemma LaneSumWord(z: nat)
    ensures LaneSum(z % WORD, 8) == LaneSum(z, 8)
  {
    hide LaneSum, Pow256;
    WordPow();
    assert z == z % WORD + WORD * (z / WORD);
    LanesTruncated(z % WORD, z / WORD, 8);
  }

  /** Equal in the last byte. */
  predicate Same(p: int, q: int) { p % 256 == q % 256 }

  /** One word keeps the balance: byte sum of `ret`, plus what was lost, is the plain sum plus the counters. */
  lemma StepBalance(a: Acc, w: nat, plain: nat)
    requires Same(LaneSum(a.ret, 8) + a.lost, plain + LaneSum(a.overflow, 8))
    ensures var b := StepAcc(a, w); Same(LaneSum(b.ret, 8) + b.lost, plain + LaneSum(w, 8) + LaneSum(b.overflow, 8))
  {
    hide LaneSum, CarrySum, Carries;
    var inc := 256 * Carries(a.ret, w, 0, 7);
    LaneSumWord(a.ret + w);
    LaneSumWord(a.overflow + inc);
    SumOfLanes(a.ret, w, 0, 7);
    SumOfLanes(a.overflow, inc, 0, 7);
    CarriesSum(a.ret, w, 0, 7);
    assert a.ret + w + 0 == a.ret + w && a.overflow + inc + 0 == a.overflow + inc;
    SameModSum(LaneSum(a.ret, 8), LaneSum(w, 8), CarrySum(a.ret, w, 0, 7));
    SameModSum(LaneSum(a.overflow, 8), LaneSum(inc, 8), CarrySum(a.overflow, inc, 0, 7));
    Balance(LaneSum(a.ret, 8), a.lost, plain, LaneSum(a.overflow, 8), LaneSum(w, 8), CarrySum(a.ret, w, 0, 7),
            CarrySum(a.overflow, inc, 0, 7), LaneSum(a.ret + w, 8), LaneSum(a.overflow + inc, 8));
  }

  lemma SameModSum(p: int, q: int, k: int)
    ensures (p + q + 0 + k) % 256 == (p + q + k) % 256
  {}

  lemma Balance(r: int, lost: int, plain: int, o: int, w: int, k: int, l: int, r': int, o': int)
    requires (r + lost) % 256 == (plain + o) % 256
    requires r' % 256 == (r + w + k) % 256 && o' % 256 == (o + k + l) % 256
    ensures (r' + (lost + l)) % 256 == (plain + w + o') % 256
  {
    var d := (r' - (r + w + k)) / 256;
    assert r' == r + w + k + 256 * d by { SameMod(r', r + w + k); }
    var e := (o' - (o + k + l)) / 256;
    assert o' == o + k + l + 256 * e by { SameMod(o', o + k + l); }
    var f := ((r + lost) - (plain + o)) / 256;
    assert r + lost == plain + o + 256 * f by { SameMod(r + lost, plain + o); }
    assert r' + (lost + l) == (plain + w + o') + 256 * (d - e + f);
    ModMultiple(plain + w + o', d - e + f);
  }

  lemma SameMod(p: int, q: int)
    requires p % 256 == q % 256
    ensures p == q + 256 * ((p - q) / 256)
  {
    assert p - q == 256 * (p / 256 - q / 256);
  }

  /** What the accumulator knows of a plain sum, up to multiples of 256. */
  predicate InBalance(a: Acc, plain: nat) {
    Same(LaneSum(a.ret, 8) + a.lost, plain + LaneSum(a.overflow, 8)) && a.ret < WORD && a.overflow < WORD
  }

  lemma StepInBalance(a: Acc, w: nat, plain: nat)
    requires InBalance(a, plain)
    ensures InBalance(StepAcc(a, w), plain + LaneSum(w, 8))
  {
    hide LaneSum, StepAcc, Same;
    StepBounds(a, w);
    StepBalance(a, w, plain);
  }

  lemma {:induction false} WordsBalance(s: Bytes, n: nat)
    requires 8 * n <= |s|
    ensures InBalance(Words(s, n), Sum(s[..8 * n]))
  {
    hide InBalance, StepAcc, Load, Sum, LaneSum;
    if n == 0 {
      assert s[..0] == [];
      NothingInBalance();
    } else {
      var w := s[8 * (n - 1)..8 * n];
      WordsBalance(s, n - 1);
      LoadSum(w);
      assert s[..8 * n] == s[..8 * (n - 1)] + w;
      SumConcat(s[..8 * (n - 1)], w);
      StepInBalance(Words(s, n - 1), Load(w), Sum(s[..8 * (n - 1)]));
    }
  }

  lemma NothingInBalance()
    ensures InBalance(Acc(0, 0, 0), Sum([]))
  {}

  lemma StepBounds(a: Acc, w: nat)
    ensures StepAcc(a, w).ret < WORD && StepAcc(a, w).overflow < WORD
  {}

  lemma CollapseSum(x: nat)
    ensures Collapse(x) % 256 == LaneSum(x, 8) % 256
  {
    hide LaneSum;
    LaneSumLiteral(x);
    SumOfMods(x, x / 0x100, x / 0x1_0000, x / 0x100_0000, x / 0x1_0000_0000, x / 0x100_0000_0000,
              x / 0x1_0000_0000_0000, x / 0x100_0000_0000_0000);
  }

  lemma SumOfMods(a: nat, b: nat, c: nat, d: nat, e: nat, f: nat, g: nat, h: nat)
    ensures ((a + b + c + d + e + f + g + h) % WORD) % 256
         == (a % 256 + b % 256 + c % 256 + d % 256 + e % 256 + f % 256 + g % 256 + h % 256) % 256
  {
    var y, z := a + b + c + d + e + f + g + h, a % 256 + b % 256 + c % 256 + d % 256 + e % 256 + f % 256 + g % 256 + h % 256;
    var q := a / 256 + b / 256 + c / 256 + d / 256 + e / 256 + f / 256 + g / 256 + h / 256;
    assert y == z + 256 * q;
    ModMultiple(z, q);
    ModWord(y);
  }

  lemma ModWord(y: int)
    ensures (y % WORD) % 256 == y % 256
  {
    var q := y / WORD;
    assert y == y % WORD + 256 * (0x100_0000_0000_0000 * q);
    ModMultiple(y % WORD, 0x100_0000_0000_0000 * q);
  }

  lemma LaneSumLiteral(x: nat)
    ensures LaneSum(x, 8) == x % 256 + x / 0x100 % 256 + x / 0x1_0000 % 256 + x / 0x100_0000 % 256
                             + x / 0x1_0000_0000 % 256 + x / 0x100_0000_0000 % 256
                             + x / 0x1_0000_0000_0000 % 256 + x / 0x100_0000_0000_0000 % 256
  {
    hide LaneSum;
    DivChain(x);
    Chain8(x, x / 0x100, x / 0x1_0000, x / 0x100_0000, x / 0x1_0000_0000, x / 0x100_0000_0000,
           x / 0x1_0000_0000_0000, x / 0x100_0000_0000_0000);
  }

  lemma Chain8(a: nat, b: nat, c: nat, d: nat, e: nat, f: nat, g: nat, h: nat)
    requires b == a / 256 && c == b / 256 && d == c / 256 && e == d / 256 && f == e / 256 && g == f / 256
    requires h == g / 256
    ensures LaneSum(a, 8) == a % 256 + b % 256 + c % 256 + d % 256 + e % 256 + f % 256 + g % 256 + h % 256
  {
    LaneUnfold(a, 7);
    LaneUnfold(b, 6);
    LaneUnfold(c, 5);
    LaneUnfold(d, 4);
    LaneUnfold(e, 3);
    LaneUnfold(f, 2);
    LaneUnfold(g, 1);
    LaneUnfold(h, 0);
    hide LaneSum;
  }

  lemma DivChain(x: nat)
    ensures x / 0x100 / 256 == x / 0x1_0000 && x / 0x1_0000 / 256 == x / 0x100_0000
    ensures x / 0x100_0000 / 256 == x / 0x1_0000_0000 && x / 0x1_0000_0000 / 256 == x / 0x100_0000_0000
    ensures x / 0x100_0000_0000 / 256 == x / 0x1_0000_0000_0000
    ensures x / 0x1_0000_0000_0000 / 256 == x / 0x100_0000_0000_0000
  {}

  // ---------------------------------------------------------------- the method

  /** A `char` added to an `unsigned long`: bytes from 128 on are negative. */
  function SignExtend(b: byte): nat { if b < 128 then b else WORD - 256 + b }

  /** `calc_chksum`. Its result misses the plain byte sum modulo 256 by exactly the counter carries it lost. */
  method CalcChksum(from: Bytes, offset: nat, len: nat) returns (r: nat)
    requires offset + len <= |from|
    ensures var s := from[offset..offset + len]; r == (Sum(s) - Lost(s)) % 256
  {
    hide And, Xor, Carries, CarrySum, Load, Pow256, Lost;
    ghost var s := from[offset..offset + len];
    var ret, overflow, i := 0, 0, 0;
    ghost var n := 0;
    WholeWords(len);
    while i < len - len % 8
      invariant i == 8 * n && n <= len / 8
      invariant ret == Words(s, n).ret && overflow == Words(s, n).overflow && ret < WORD
    {
      var w := Load(from[offset + i..offset + i + 8]);
      SubSlice(from, offset, len, i, i + 8);
      LoadBound(from[offset + i..offset + i + 8]);
      WordPow();
      CarryTrick(ret, w);
      var expected := Xor(And(ret, OVERFLOW_MASK), And(OVERFLOW_MASK, w));
      ret := (ret + w) % WORD;
      overflow := (overflow + And(Xor(expected, ret), OVERFLOW_MASK)) % WORD;
      i, n := i + 8, n + 1;
    }
    r := AddTail(from, offset, len, i, ret, overflow);
  }

  lemma WholeWords(len: nat)
    ensures len - len % 8 == 8 * (len / 8)
  {}

  lemma SubSlice(s: Bytes, offset: nat, len: nat, i: nat, j: nat)
    requires offset + len <= |s| && i <= j <= len
    ensures s[offset + i..offset + j] == s[offset..offset + len][i..j]
  {
    var t := s[offset..offset + len];
    forall k | 0 <= k < j - i ensures s[offset + i..offset + j][k] == t[i..j][k] {
      assert t[i + k] == s[offset + (i + k)];
    }
  }

  /** The collapsed accumulators, the bytes that fill no word, and the final subtraction. */
  method AddTail(from: Bytes, offset: nat, len: nat, start: nat, words: nat, counters: nat) returns (r: nat)
    requires offset + len <= |from| && start == len - len % 8
    requires var a := Words(from[offset..offset + len], len / 8); words == a.ret && counters == a.overflow
    ensures var s := from[offset..offset + len]; r == (Sum(s) - Lost(s)) % 256
  {
    hide Words, LaneSum, Collapse, Lost;
    ghost var s := from[offset..offset + len];
    ghost var lost := Words(s, len / 8).lost;
    LostIs(s);
    WordsBalance(s, len / 8);
    CollapseSum(words);
    CollapseSum(counters);
    var i, ret, overflow := start, Collapse(words), Collapse(counters);
    Shift(ret, LaneSum(words, 8), lost, Sum(s[..i]), overflow, LaneSum(counters, 8));
    while i < len
      invariant start <= i <= len
      invariant (ret + lost) % 256 == (Sum(s[..i]) + overflow) % 256
    {
      assert s[..i + 1][..i] == s[..i] && s[..i + 1][i] == from[offset + i];
      AddByte(ret, lost, Sum(s[..i]) + overflow, from[offset + i]);
      ret := (ret + SignExtend(from[offset + i])) % WORD;
      i := i + 1;
    }
    assert s[..len] == s;
    ModWord(ret - overflow);
    Difference(ret, lost, Sum(s), overflow);
    return ((ret - overflow) % WORD) % 256;
  }

  lemma Shift(r: int, r0: int, lost: int, plain: int, o: int, o0: int)
    requires (r0 + lost) % 256 == (plain + o0) % 256 && r % 256 == r0 % 256 && o % 256 == o0 % 256
    ensures (r + lost) % 256 == (plain + o) % 256
  {
    SameMod(r, r0);
    SameMod(o, o0);
    SameMod(r0 + lost, plain + o0);
    var d := (r - r0) / 256 - (o - o0) / 256 + ((r0 + lost) - (plain + o0)) / 256;
    assert r + lost == (plain + o) + 256 * d;
    ModMultiple(plain + o, d);
  }

  lemma AddByte(ret: int, lost: int, total: int, b: byte)
    requires (ret + lost) % 256 == total % 256
    ensures ((ret + SignExtend(b)) % WORD + lost) % 256 == (total + b) % 256
  {
    ModWord(ret + SignExtend(b));
    var y := (ret + SignExtend(b)) % WORD;
    SameMod(y, ret + SignExtend(b));
    SameMod(ret + lost, total);
    var c := if b < 128 then 0 else 0x100_0000_0000_0000 - 1;
    var d := (y - (ret + SignExtend(b))) / 256 + ((ret + lost) - total) / 256 + c;
    assert y + lost == (total + b) + 256 * d;
    ModMultiple(total + b, d);
  }

  lemma Difference(ret: int, lost: int, plain: int, overflow: int)
    requires (ret + lost) % 256 == (plain + overflow) % 256
    ensures (ret - overflow) % 256 == (plain - lost) % 256
  {
    SameMod(ret + lost, plain + overflow);
    var d := ((ret + lost) - (plain + overflow)) / 256;
    assert ret - overflow == (plain - lost) + 256 * d;
    ModMultiple(plain - lost, d);
  }

  // ---------------------------------------------------------------- the running totals of each byte position

  lemma {:induction false} LaneAdd(x: nat, y: nat, c: nat, j: nat)
    ensures Lane(x + y + c, j) + 256 * CarryAt(x, y, c, j + 1) == Lane(x, j) + Lane(y, j) + CarryAt(x, y, c, j)
  {
    var s := x % 256 + y % 256 + c;
    LowByte(x, y, c);
    if j > 0 { LaneAdd(x / 256, y / 256, s / 256, j - 1); }
  }

  lemma {:induction false} LaneTruncated(z: nat, t: nat, k: nat, j: nat)
    requires j < k
    ensures Lane(z + Pow256(k) * t, j) == Lane(z, j)
  {
    var u := Pow256(k - 1) * t;
    assert Pow256(k) * t == 256 * u;
    assert (z + 256 * u) / 256 == z / 256 + u && (z + 256 * u) % 256 == z % 256;
    if j > 0 { LaneTruncated(z / 256, t, k - 1, j - 1); }
  }

  lemma LaneOfWord(z: nat, j: nat)
    requires j < 8
    ensures Lane(z % WORD, j) == Lane(z, j)
  {
    hide Lane, Pow256;
    WordPow();
    assert z == z % WORD + WORD * (z / WORD);
    LaneTruncated(z % WORD, z / WORD, 8, j);
  }

  /** Byte `j` of the packed carries is the carry into byte `j`. */
  lemma {:induction false} LaneOfCarries(x: nat, y: nat, c: nat, k: nat, j: nat)
    requires c <= 1 && j < k
    ensures Lane(Carries(x, y, c, k), j) == CarryAt(x, y, c, j + 1) <= 1
  {
    var c1 := (x % 256 + y % 256 + c) / 256;
    var rest := Carries(x / 256, y / 256, c1, k - 1);
    assert (c1 + 256 * rest) / 256 == rest && (c1 + 256 * rest) % 256 == c1;
    if j > 0 { LaneOfCarries(x / 256, y / 256, c1, k - 1, j - 1); }
  }

  lemma {:induction false} LaneOfLoad(s: Bytes, j: nat)
    requires j < |s|
    ensures Lane(Load(s), j) == s[j]
  {
    assert Load(s) % 256 == s[0] && Load(s) / 256 == Load(s[1..]);
    if j > 0 { LaneOfLoad(s[1..], j - 1); }
  }

  function Packed(ret: nat, w: nat): nat { 256 * Carries(ret, w, 0, 7) }

  lemma LaneOfPacked(ret: nat, w: nat, j: nat)
    requires j < 8
    ensures Lane(Packed(ret, w), j) == CarryAt(ret, w, 0, j) && (j == 0 ==> CarryAt(ret, w, 0, j) == 0)
  {
    var c := Carries(ret, w, 0, 7);
    assert (256 * c) % 256 == 0 && (256 * c) / 256 == c;
    hide Carries;
    if j > 0 { LaneOfCarries(ret, w, 0, 7, j - 1); }
  }

  lemma {:induction false} LaneBound(x: nat, j: nat)
    ensures Lane(x, j) <= 255
  {
    if j > 0 { LaneBound(x / 256, j - 1); }
  }

  lemma {:induction false} LaneZero(j: nat)
    ensures Lane(0, j) == 0
  {
    if j > 0 { LaneZero(j - 1); }
  }

  /** Adding `d` to a total whose last byte is `l` gives last byte `r` and `c` more carries. */
  lemma CarryOut(t: nat, d: nat, l: nat, r: nat, c: nat)
    requires t % 256 == l && l + d == r + 256 * c && r < 256
    ensures (t + d) / 256 == t / 256 + c && (t + d) % 256 == r
  {
    assert t + d == 256 * (t / 256 + c) + r;
  }

  /** The last bytes of the two running totals of byte `j` are what the two accumulators hold there. */
  ghost predicate LaneHeld(s: Bytes, n: nat, a: Acc, j: nat)
    requires 8 * n <= |s| && j < 8
  {
    && Lane(a.ret, j) == (LaneTotal(s, n, j) + Into(s, n, j)) % 256
    && Lane(a.overflow, j) == (Into(s, n, j) + Spills(s, n, j)) % 256
  }

  ghost predicate Held(s: Bytes, n: nat, a: Acc)
    requires 8 * n <= |s|
  {
    a.lost == SpillSum(s, n, 7) && forall j :: 0 <= j < 8 ==> LaneHeld(s, n, a, j)
  }

  /** One more word carries into byte `j` as the addition says. */
  lemma {:induction false} IntoStep(s: Bytes, n: nat, a: Acc, w: nat, j: nat)
    requires 8 * (n + 1) <= |s| && j <= 8 && Held(s, n, a) && w == Load(s[8 * n..8 * (n + 1)])
    ensures Into(s, n + 1, j) == Into(s, n, j) + CarryAt(a.ret, w, 0, j)
    ensures j < 8 ==> Lane(a.ret + w, j) == (LaneTotal(s, n + 1, j) + Into(s, n + 1, j)) % 256
  {
    if j > 0 { IntoStep(s, n, a, w, j - 1); }
    hide Lane, CarryAt, Load, Spills;
    if j > 0 { IntoLane(s, n, a, w, j - 1); }
    IntoNone(s, n, a.ret, w);
    if j < 8 { IntoLane(s, n, a, w, j); }
  }

  lemma IntoNone(s: Bytes, n: nat, x: nat, y: nat)
    requires 8 * (n + 1) <= |s|
    ensures Into(s, n, 0) == 0 && Into(s, n + 1, 0) == 0 && CarryAt(x, y, 0, 0) == 0
  {}

  lemma IntoLane(s: Bytes, n: nat, a: Acc, w: nat, j: nat)
    requires 8 * (n + 1) <= |s| && j < 8 && LaneHeld(s, n, a, j) && w == Load(s[8 * n..8 * (n + 1)])
    requires Into(s, n + 1, j) == Into(s, n, j) + CarryAt(a.ret, w, 0, j)
    ensures Into(s, n + 1, j + 1) == Into(s, n, j + 1) + CarryAt(a.ret, w, 0, j + 1)
    ensures Lane(a.ret + w, j) == (LaneTotal(s, n + 1, j) + Into(s, n + 1, j)) % 256
  {
    hide Lane, CarryAt, Load, Spills;
    LaneAdd(a.ret, w, 0, j);
    LaneOfLoad(s[8 * n..8 * (n + 1)], j);
    LaneBound(a.ret + w, j);
    var c := CarryAt(a.ret, w, 0, j);
    CarryOut(LaneTotal(s, n, j) + Into(s, n, j), s[8 * n + j] + c, Lane(a.ret, j), Lane(a.ret + w, j),
             CarryAt(a.ret, w, 0, j + 1));
  }

  /** And the counters spill as their addition says. */
  lemma {:induction false} SpillStep(s: Bytes, n: nat, a: Acc, w: nat, j: nat)
    requires 8 * (n + 1) <= |s| && j <= 8 && Held(s, n, a) && w == Load(s[8 * n..8 * (n + 1)])
    ensures Spills(s, n + 1, j) == Spills(s, n, j) + CarryAt(a.overflow, Packed(a.ret, w), 0, j)
    ensures j < 8 ==> Lane(a.overflow + Packed(a.ret, w), j) == (Into(s, n + 1, j) + Spills(s, n + 1, j)) % 256
  {
    if j > 0 { SpillStep(s, n, a, w, j - 1); }
    hide Lane, CarryAt, Load, Into, Packed;
    if j > 0 {
      IntoStep(s, n, a, w, j - 1);
      SpillLane(s, n, a, w, j - 1);
    }
    SpillNone(s, n, a.overflow, Packed(a.ret, w));
    if j < 8 {
      IntoStep(s, n, a, w, j);
      SpillLane(s, n, a, w, j);
    }
  }

  lemma SpillNone(s: Bytes, n: nat, x: nat, y: nat)
    requires 8 * (n + 1) <= |s|
    ensures Spills(s, n, 0) == 0 && Spills(s, n + 1, 0) == 0 && CarryAt(x, y, 0, 0) == 0
  {}

  lemma SpillLane(s: Bytes, n: nat, a: Acc, w: nat, j: nat)
    requires 8 * (n + 1) <= |s| && j < 8 && LaneHeld(s, n, a, j)
    requires Into(s, n + 1, j) == Into(s, n, j) + CarryAt(a.ret, w, 0, j)
    requires Spills(s, n + 1, j) == Spills(s, n, j) + CarryAt(a.overflow, Packed(a.ret, w), 0, j)
    ensures Spills(s, n + 1, j + 1) == Spills(s, n, j + 1) + CarryAt(a.overflow, Packed(a.ret, w), 0, j + 1)
    ensures Lane(a.overflow + Packed(a.ret, w), j) == (Into(s, n + 1, j) + Spills(s, n + 1, j)) % 256
  {
    hide Lane, CarryAt, Into, Packed, LaneTotal;
    var inc := Packed(a.ret, w);
    LaneAdd(a.overflow, inc, 0, j);
    LaneOfPacked(a.ret, w, j);
    LaneBound(a.overflow + inc, j);
    var d := CarryAt(a.ret, w, 0, j) + CarryAt(a.overflow, inc, 0, j);
    CarryOut(Into(s, n, j) + Spills(s, n, j), d, Lane(a.overflow, j), Lane(a.overflow + inc, j),
             CarryAt(a.overflow, inc, 0, j + 1));
  }

  lemma {:induction false} CarrySumLast(x: nat, y: nat, c: nat, k: nat)
    requires k > 0
    ensures CarrySum(x, y, c, k) == CarrySum(x, y, c, k - 1) + CarryAt(x, y, c, k)
  {
    var c1 := (x % 256 + y % 256 + c) / 256;
    if k > 1 { CarrySumLast(x / 256, y / 256, c1, k - 1); }
  }

  lemma {:induction false} SpillSumStep(s: Bytes, n: nat, a: Acc, w: nat, k: nat)
    requires 8 * (n + 1) <= |s| && k <= 8 && Held(s, n, a) && w == Load(s[8 * n..8 * (n + 1)])
    ensures SpillSum(s, n + 1, k) == SpillSum(s, n, k) + CarrySum(a.overflow, Packed(a.ret, w), 0, k)
  {
    hide Load, Packed, Spills, Held;
    if k > 0 {
      SpillSumStep(s, n, a, w, k - 1);
      SpillStep(s, n, a, w, k);
      CarrySumLast(a.overflow, Packed(a.ret, w), 0, k);
    }
  }

  lemma StepHeld(s: Bytes, n: nat, a: Acc)
    requires 8 * (n + 1) <= |s| && Held(s, n, a)
    ensures Held(s, n + 1, StepAcc(a, Load(s[8 * n..8 * (n + 1)])))
  {
    hide Load, Lane, CarryAt, CarrySum, LaneTotal, Into, Spills, SpillSum, Carries;
    var w, m := Load(s[8 * n..8 * (n + 1)]), n + 1;
    var b := StepAcc(a, w);
    SpillSumStep(s, n, a, w, 7);
    forall j | 0 <= j < 8 ensures LaneHeld(s, m, b, j) {
      IntoStep(s, n, a, w, j);
      SpillStep(s, n, a, w, j);
      LaneOfWord(a.ret + w, j);
      LaneOfWord(a.overflow + Packed(a.ret, w), j);
    }
  }

  lemma {:induction false} WordsHeld(s: Bytes, n: nat)
    requires 8 * n <= |s|
    ensures Held(s, n, Words(s, n))
  {
    hide Held, StepAcc, Load;
    if n == 0 {
      NothingHeld(s);
    } else {
      WordsHeld(s, n - 1);
      StepHeld(s, n - 1, Words(s, n - 1));
    }
  }

  lemma NothingHeld(s: Bytes)
    ensures Held(s, 0, Acc(0, 0, 0))
  {
    forall j | 0 <= j < 8 ensures LaneHeld(s, 0, Acc(0, 0, 0), j) {
      LaneZero(j);
      NothingInto(s, j);
    }
    forall k | 0 <= k <= 7 ensures SpillSum(s, 0, k) == 0 { NothingSpills(s, k); }
  }

  lemma {:induction false} NothingInto(s: Bytes, j: nat)
    requires j <= 8
    ensures Into(s, 0, j) == 0 && Spills(s, 0, j) == 0
  {
    if j > 0 { NothingInto(s, j - 1); }
  }

  lemma {:induction false} NothingSpills(s: Bytes, k: nat)
    requires k <= 8
    ensures SpillSum(s, 0, k) == 0
  {
    NothingInto(s, k);
    if k > 0 { NothingSpills(s, k - 1); }
  }

  /** The loop loses exactly what the byte totals say. */
  lemma LostIs(s: Bytes)
    ensures Words(s, |s| / 8).lost == Lost(s)
  {
    WordsHeld(s, |s| / 8);
  }

  // ---------------------------------------------------------------- when the checksum is exact

  /** The checksum is the plain byte sum exactly when the counter carries that the byte totals of the words give are
      0 modulo 256. */
  lemma ExactWhen(s: Bytes)
    ensures Words(s, |s| / 8).lost == Lost(s)
    ensures (Sum(s) - Lost(s)) % 256 == Sum(s) % 256 <==>
            (Spills(s, |s| / 8, 1) + Spills(s, |s| / 8, 2) + Spills(s, |s| / 8, 3) + Spills(s, |s| / 8, 4)
             + Spills(s, |s| / 8, 5) + Spills(s, |s| / 8, 6) + Spills(s, |s| / 8, 7)) % 256 == 0
  {
    hide Sum, Spills, SpillSum, Words;
    LostIs(s);
    SpillSumIs(s, |s| / 8);
    CancelsWhen(Sum(s), Lost(s));
  }

  lemma SpillSumIs(s: Bytes, n: nat)
    requires 8 * n <= |s|
    ensures SpillSum(s, n, 7) == Spills(s, n, 1) + Spills(s, n, 2) + Spills(s, n, 3) + Spills(s, n, 4)
                                 + Spills(s, n, 5) + Spills(s, n, 6) + Spills(s, n, 7)
  {
    hide Spills;
    assert SpillSum(s, n, 1) == SpillSum(s, n, 0) + Spills(s, n, 1);
    assert SpillSum(s, n, 3) == SpillSum(s, n, 2) + Spills(s, n, 3);
    assert SpillSum(s, n, 5) == SpillSum(s, n, 4) + Spills(s, n, 5);
  }

  lemma CancelsWhen(p: int, l: int)
    ensures (p - l) % 256 == p % 256 <==> l % 256 == 0
  {
    if (p - l) % 256 == p % 256 {
      SameMod(p, p - l);
      ModMultiple(0, (p - (p - l)) / 256);
    } else if l % 256 == 0 {
      ModMultiple(p, -(l / 256));
    }
  }

  const LANE_LIMIT := 255 * 256

  /** No byte position sums to more than 255 * 256. */
  ghost predicate Light(s: Bytes, n: nat)
    requires 8 * n <= |s|
  {
    forall j :: 0 <= j < 8 ==> LaneTotal(s, n, j) <= LANE_LIMIT
  }

  lemma {:induction false} LightSpillsNothing(s: Bytes, n: nat, j: nat)
    requires 8 * n <= |s| && Light(s, n) && j <= 8
    ensures Into(s, n, j) <= 255 && Spills(s, n, j) == 0
  {
    if j > 0 { LightSpillsNothing(s, n, j - 1); }
  }

  lemma ExactWhenLight(s: Bytes)
    requires Light(s, |s| / 8)
    ensures Lost(s) == 0
  {
    forall j | 0 <= j <= 7 ensures Spills(s, |s| / 8, j) == 0 { LightSpillsNothing(s, |s| / 8, j); }
    SpillSumIs(s, |s| / 8);
  }

  lemma {:induction false} LaneTotalBound(s: Bytes, n: nat, j: nat, m: nat)
    requires 8 * n <= |s| && j < 8 && forall b <- s :: b <= m
    ensures LaneTotal(s, n, j) <= m * n
  {
    if n > 0 {
      LaneTotalBound(s, n - 1, j, m);
      assert s[8 * (n - 1) + j] in s;
      assert m * n == m * (n - 1) + m;
    }
  }

  /** Every buffer of at most 256 full words plus a tail: 2055 bytes. */
  lemma ExactUpTo256Words(s: Bytes)
    requires |s| <= 2055
    ensures Lost(s) == 0
  {
    forall j | 0 <= j < 8 ensures LaneTotal(s, |s| / 8, j) <= LANE_LIMIT { LaneTotalBound(s, |s| / 8, j, 255); }
    ExactWhenLight(s);
  }

  /** Seven-bit data up to 514 full words plus a tail: 4119 bytes. */
  lemma ExactOnAscii(s: Bytes)
    requires |s| <= 4119 && forall b <- s :: b <= 127
    ensures Lost(s) == 0
  {
    forall j | 0 <= j < 8 ensures LaneTotal(s, |s| / 8, j) <= LANE_LIMIT { LaneTotalBound(s, |s| / 8, j, 127); }
    ExactWhenLight(s);
  }

  predicate AllMax(s: Bytes) { forall i :: 0 <= i < |s| ==> s[i] == 255 }

  lemma {:induction false} MaxTotal(s: Bytes, n: nat, j: nat)
    requires 8 * n <= |s| && j < 8 && AllMax(s)
    ensures LaneTotal(s, n, j) == 255 * n
  {
    if n > 0 { MaxTotal(s, n - 1, j); }
  }

  /** One word more than the bound: 257 words of all-ones bytes lose five carries, so their checksum is wrong by 5. */
  lemma WrongAt257Words(s: Bytes)
    requires |s| == 2056 && AllMax(s)
    ensures Lost(s) == 5 && (Sum(s) - Lost(s)) % 256 != Sum(s) % 256
  {
    hide Sum;
    MaxInto(s, 7);
    SpillSumIs(s, 257);
    CancelsWhen(Sum(s), Lost(s));
  }

  lemma {:induction false} MaxInto(s: Bytes, j: nat)
    requires |s| == 2056 && AllMax(s) && j <= 7
    ensures Into(s, 257, j) == if j == 0 then 0 else if j == 1 then 255 else 256
    ensures Spills(s, 257, j) == if j <= 2 then 0 else 1
    ensures forall i :: 0 <= i <= j ==> Spills(s, 257, i) == if i <= 2 then 0 else 1
  {
    if j > 0 {
      MaxInto(s, j - 1);
      MaxTotal(s, 257, j - 1);
    }
  }
}
