/** EID check digits: the decimal number modulo 97 must be 1 (section 10 of GSMA SGP.29 v1.1). */
module Eid {

  type Byte = x: int | 0 <= x < 256

  const TWO32 := 0x1_0000_0000

  /** The digits as one decimal number, most significant first. */
  function Value(d: seq<int>): int {
    if d == [] then 0 else 10 * Value(d[..|d| - 1]) + d[|d| - 1]
  }

  predicate Digits(d: seq<int>) {
    forall i :: 0 <= i < |d| ==> 0 <= d[i] <= 9
  }

  /** Prefix 89 is reserved for the ITU-T E.118 scheme (section 9). */
  predicate Reserved(d: seq<int>)
    requires |d| >= 2
  {
    d[0] == 8 && d[1] == 9
  }

  predicate Valid(d: seq<int>)
    requires |d| >= 2
  {
    Digits(d) && !Reserved(d) && Value(d) % 97 == 1
  }

  lemma FoldStep(v: int, x: int)
    ensures (10 * v + x) % 97 == (v % 97 * 10 + x) % 97
  {
    assert 10 * v + x == 97 * (10 * (v / 97)) + (v % 97 * 10 + x);
    ModMultiple(10 * (v / 97), v % 97 * 10 + x);
  }

  lemma ModMultiple(q: int, r: int)
    ensures (97 * q + r) % 97 == r % 97
  {
    assert 97 * q + r == 97 * (q + r / 97) + r % 97;
  }

  /** The early-reduced fold in a 32-bit word decides exactly the standard's rule, for any number of
      digits; the word never wraps. */
  method EidValid(d: seq<Byte>) returns (ok: bool)
    requires |d| >= 2
    ensures ok <==> Valid(d)
    ensures ok <==> (forall i :: 0 <= i < |d| ==> d[i] <= 9) && !(d[0] == 8 && d[1] == 9) && Value(d) % 97 == 1
  {
    ok := true;
    for i := 0 to |d|
      invariant ok <==> forall j :: 0 <= j < i ==> d[j] <= 9
    {
      if d[i] > 9 { ok := false; }
    }
    if d[0] == 8 && d[1] == 9 { ok := false; }
    var acc := Remainder(d);
    if acc != 1 { ok := false; }
  }

  /** The second loop: the value modulo 97, reduced digit by digit in 32 bits. */
  method Remainder(d: seq<Byte>) returns (acc: int)
    ensures acc == Value(d) % 97
  {
    acc := 0;
    for i := 0 to |d|
      invariant 0 <= acc < 97 && acc == Value(d[..i]) % 97
    {
      assert d[..i + 1][..i] == d[..i];
      FoldStep(Value(d[..i]), d[i]);
      assert acc * 10 + d[i] < TWO32;
      acc := (acc * 10 + d[i]) % TWO32 % 97;
    }
    assert d[..|d|] == d;
  }

  // ---------- powers of ten modulo 97 ----------

  function Pow10(k: nat): (p: int)
    ensures p >= 1
  {
    if k == 0 then 1 else 10 * Pow10(k - 1)
  }

  /** Divisibility by 97 survives division by anything invertible modulo 97. */
  lemma Cancel(a: int, inv: int, b: int)
    requires (a * inv) % 97 == 1 && (a * b) % 97 == 0
    ensures b % 97 == 0
  {
    var p, q := a * inv / 97, a * b / 97;
    assert a * inv == 97 * p + 1 && a * b == 97 * q;
    assert inv * (a * b) == (a * inv) * b;
    assert inv * (97 * q) == 97 * (p * b) + b;
    assert b == 97 * (inv * q - p * b);
    ModMultiple(inv * q - p * b, 0);
  }

  lemma {:induction false} CancelPow10(k: nat, b: int)
    requires (Pow10(k) * b) % 97 == 0
    ensures b % 97 == 0
  {
    if k > 0 {
      assert Pow10(k) * b == 10 * (Pow10(k - 1) * b);
      Cancel(10, 68, Pow10(k - 1) * b);
      CancelPow10(k - 1, b);
    }
  }

  function Inverse(a: int): int
    requires 1 <= a <= 9
  {
    [1, 49, 65, 73, 39, 81, 14, 85, 54][a - 1]
  }

  lemma CancelDigit(a: int, b: int)
    requires -9 <= a <= 9 && a != 0 && (a * b) % 97 == 0
    ensures b % 97 == 0
  {
    if a > 0 {
      assert (a * Inverse(a)) % 97 == 1;
      Cancel(a, Inverse(a), b);
    } else {
      assert (-a) * b == -(a * b);
      assert a * b == 97 * (a * b / 97);
      ModMultiple(-(a * b / 97), 0);
      assert ((-a) * Inverse(-a)) % 97 == 1;
      Cancel(-a, Inverse(-a), b);
    }
  }

  lemma {:induction false} Pow10Add(a: nat, b: nat)
    ensures Pow10(a + b) == Pow10(a) * Pow10(b)
  {
    if b > 0 {
      Pow10Add(a, b - 1);
      assert Pow10(a) * (10 * Pow10(b - 1)) == 10 * (Pow10(a) * Pow10(b - 1));
    }
  }

  lemma ProductMod(x: int, y: int)
    ensures (x * y) % 97 == (x % 97 * (y % 97)) % 97
  {
    var p, q, a, b := x / 97, y / 97, x % 97, y % 97;
    assert x * y == (97 * p + a) * y;
    assert (97 * p + a) * y == 97 * (p * y) + a * y;
    assert a * y == 97 * (a * q) + a * b;
    ModMultiple(p * y, a * y);
    ModMultiple(a * q, a * b);
  }

  lemma Pow10Sum(a: nat, b: nat)
    ensures Pow10(a + b) % 97 == (Pow10(a) % 97 * (Pow10(b) % 97)) % 97
  {
    Pow10Add(a, b);
    ProductMod(Pow10(a), Pow10(b));
  }

  /** The powers that decide the order of 10. */
  lemma KnownPowers()
    ensures Pow10(32) % 97 == 61 && Pow10(48) % 97 == 96 && Pow10(64) % 97 == 35 && Pow10(96) % 97 == 1
  {
    hide Pow10;
    Ten();
    PowerOf(1, 1, 10, 10, 3);
    PowerOf(2, 2, 3, 3, 9);
    PowerOf(4, 4, 9, 9, 81);
    PowerOf(8, 8, 81, 81, 62);
    PowerOf(16, 16, 62, 62, 61);
    PowerOf(32, 16, 61, 62, 96);
    PowerOf(32, 32, 61, 61, 35);
    PowerOf(48, 48, 96, 96, 1);
  }

  lemma PowerOf(a: nat, b: nat, x: int, y: int, z: int)
    requires Pow10(a) % 97 == x && Pow10(b) % 97 == y && (x * y) % 97 == z
    ensures Pow10(a + b) % 97 == z
  {
    hide Pow10;
    Pow10Sum(a, b);
  }

  lemma Ten()
    ensures Pow10(1) == 10
  {
  }

  lemma OneLess(c: nat, k: nat)
    requires c > 0
    ensures c * k == (c - 1) * k + k && (c - 1) * k >= 0
  {
  }

  lemma {:induction false} Pow10Multiple(c: nat, k: nat)
    requires Pow10(k) % 97 == 1
    ensures Pow10(c * k) % 97 == 1
  {
    if c == 0 {
      assert c * k == 0;
    } else {
      hide Pow10;
      Pow10Multiple(c - 1, k);
      OneLess(c, k);
      Pow10Sum((c - 1) * k, k);
    }
  }

  lemma Pow10Reduce(k: nat)
    ensures Pow10(k) % 97 == Pow10(k % 96) % 97
  {
    hide Pow10;
    KnownPowers();
    Pow10Multiple(k / 96, 96);
    PowerOf(k / 96 * 96, k % 96, 1, Pow10(k % 96) % 97, Pow10(k % 96) % 97);
  }

  /** 10 has order 96 modulo 97. */
  lemma OrderIs96(k: nat)
    ensures Pow10(k) % 97 == 1 <==> k % 96 == 0
  {
    hide Pow10;
    Pow10Reduce(k);
    One();
    if k % 96 != 0 { NotOne(k % 96); }
  }

  lemma One()
    ensures Pow10(0) % 97 == 1
  {
  }

  /** Some multiple of r is 32, 64 or 48 modulo 96, and none of those powers is 1. */
  lemma NotOne(r: nat)
    requires 0 < r < 96
    ensures Pow10(r) % 97 != 1
  {
    hide Pow10;
    if Pow10(r) % 97 == 1 {
      var c := Factor(r, 1);
      KnownPowers();
      Pow10Multiple(c, r);
      Pow10Reduce(c * r);
    }
  }

  lemma OddTimes48(u: nat)
    requires u % 2 == 1
    ensures (48 * u) % 96 == 48
  {
    assert 48 * u == 96 * (u / 2) + 48;
  }

  lemma Regroup(a: int, b: int, c: int)
    ensures a * (b * c) == (a * c) * b && a * (c * b) == (a * c) * b
  {
  }

  /** Halving out the factors of two below 32. */
  lemma {:induction false} Factor(u: nat, p: nat) returns (c: nat)
    requires (p == 1 || p == 2 || p == 4 || p == 8 || p == 16 || p == 32) && 0 < u * p < 96
    ensures c * (u * p) % 96 == 32 || c * (u * p) % 96 == 64 || c * (u * p) % 96 == 48
    decreases u
  {
    if p == 32 {
      c := 1;
    } else if u % 2 == 1 {
      c := 48 / p;
      OddTimes48(u);
      Regroup(c, u, p);
    } else {
      Regroup(u / 2, p, 2);
      c := Factor(u / 2, 2 * p);
    }
  }

  // ---------- single-digit errors and swaps ----------

  lemma {:induction false} ValueConcat(a: seq<int>, b: seq<int>)
    ensures Value(a + b) == Value(a) * Pow10(|b|) + Value(b)
  {
    if b == [] {
      assert a + b == a;
    } else {
      var n := |b| - 1;
      ValueConcat(a, b[..n]);
      assert (a + b)[..|a + b| - 1] == a + b[..n];
      assert 10 * (Value(a) * Pow10(n)) == Value(a) * (10 * Pow10(n));
    }
  }

  lemma OneDigit(x: int)
    ensures Value([x]) == x
  {
    assert [x][..0] == [];
  }

  lemma Distribute(h: int, p: int, x: int, y: int, q: int)
    ensures (h * p + x * q) - (h * p + y * q) == q * (x - y)
  {
  }

  /** A changed digit moves the value by the difference times its power of ten. */
  lemma ValueChange(d: seq<int>, i: nat, x: int)
    requires i < |d|
    ensures Value(d[i := x]) == Value(d) + Pow10(|d| - 1 - i) * (x - d[i])
  {
    hide Value, Pow10;
    var hi, lo := d[..i], d[i + 1..];
    assert d == hi + ([d[i]] + lo) && d[i := x] == hi + ([x] + lo);
    ValueConcat(hi, [d[i]] + lo);
    ValueConcat(hi, [x] + lo);
    ValueConcat([d[i]], lo);
    ValueConcat([x], lo);
    OneDigit(d[i]);
    OneDigit(x);
    Distribute(Value(hi), Pow10(|lo| + 1), x, d[i], Pow10(|lo|));
  }

  lemma SameRemainder(a: int, b: int)
    requires a % 97 == b % 97
    ensures (a - b) % 97 == 0
  {
    assert a - b == 97 * (a / 97 - b / 97);
    ModMultiple(a / 97 - b / 97, 0);
  }

  lemma MultipleKeeps(a: int, b: int)
    requires b % 97 == 0
    ensures (a + b) % 97 == a % 97
  {
    assert a + b == 97 * (b / 97) + a;
    ModMultiple(b / 97, a);
  }

  /** From a valid EID, changing any one digit to any other byte is rejected, at every length. */
  lemma SingleErrorRejected(d: seq<Byte>, i: nat, x: Byte)
    requires |d| >= 2 && Valid(d) && i < |d| && x != d[i]
    ensures !Valid(d[i := x])
  {
    hide Value, Pow10;
    var e := d[i := x];
    assert e[i] == x;
    if Valid(e) {
      ValueChange(d, i, x);
      SameRemainder(Value(e), Value(d));
      CancelPow10(|d| - 1 - i, x - d[i]);
    }
  }

  function Swap(d: seq<int>, i: nat, j: nat): (e: seq<int>)
    requires i < |d| && j < |d|
    ensures |e| == |d|
  {
    d[i := d[j]][j := d[i]]
  }

  lemma ValueSwap(d: seq<int>, i: nat, j: nat)
    requires i < j < |d|
    ensures Value(Swap(d, i, j)) - Value(d) == Pow10(|d| - 1 - j) * ((d[j] - d[i]) * (Pow10(j - i) - 1))
  {
    hide Value, Pow10;
    ValueChange(d, i, d[j]);
    ValueChange(d[i := d[j]], j, d[i]);
    Pow10Add(|d| - 1 - j, j - i);
    Factored(Pow10(|d| - 1 - j), Pow10(j - i), d[j] - d[i]);
  }

  lemma Factored(p: int, q: int, c: int)
    ensures (p * q) * c + p * (-c) == p * (c * (q - 1))
  {
    assert (p * q) * c == p * (c * q);
    assert c * (q - 1) == c * q - c;
    assert p * (c * q - c) == p * (c * q) - p * c;
  }

  lemma SameRemainderIsOrder(d: seq<int>, i: nat, j: nat)
    requires Digits(d) && i < j < |d| && d[i] != d[j] && Value(Swap(d, i, j)) % 97 == Value(d) % 97
    ensures Pow10(j - i) % 97 == 1
  {
    hide Pow10, Value;
    var q, c := Pow10(j - i), d[j] - d[i];
    ValueSwap(d, i, j);
    SameRemainder(Value(Swap(d, i, j)), Value(d));
    CancelPow10(|d| - 1 - j, c * (q - 1));
    CancelDigit(c, q - 1);
    MultipleKeeps(1, q - 1);
  }

  lemma OrderKeepsRemainder(d: seq<int>, i: nat, j: nat)
    requires i < j < |d| && Pow10(j - i) % 97 == 1
    ensures Value(Swap(d, i, j)) % 97 == Value(d) % 97
  {
    hide Pow10, Value;
    var p, q, c := Pow10(|d| - 1 - j), Pow10(j - i), d[j] - d[i];
    ValueSwap(d, i, j);
    SameRemainder(q, 1);
    DivisibleProduct(c, q - 1);
    DivisibleProduct(p, c * (q - 1));
    MultipleKeeps(Value(d), p * (c * (q - 1)));
  }

  /** Swapping two unequal digits of a digit string keeps the remainder exactly when their distance is a
      multiple of 96. */
  lemma SwapKeepsRemainder(d: seq<int>, i: nat, j: nat)
    requires Digits(d) && i < j < |d| && d[i] != d[j]
    ensures Value(Swap(d, i, j)) % 97 == Value(d) % 97 <==> (j - i) % 96 == 0
  {
    hide Pow10, Value, Swap;
    OrderIs96(j - i);
    if Value(Swap(d, i, j)) % 97 == Value(d) % 97 { SameRemainderIsOrder(d, i, j); }
    if (j - i) % 96 == 0 { OrderKeepsRemainder(d, i, j); }
  }

  lemma DivisibleProduct(a: int, b: int)
    requires b % 97 == 0
    ensures (a * b) % 97 == 0
  {
    ProductMod(a, b);
  }

  /** From a valid 32-digit EID, swapping any two unequal digits is rejected. */
  lemma SwapRejected(d: seq<Byte>, i: nat, j: nat)
    requires |d| == 32 && Valid(d) && i < j < 32 && d[i] != d[j]
    ensures !Valid(Swap(d, i, j))
  {
    SwapKeepsRemainder(d, i, j);
  }
}
