/** `hash_str`: each code point x of the message weighs
    ((x^3000) + (x^x) - (3^x)) * (7^x); the weights are summed, the sum is
    reduced modulo 65536 and rendered in lower-case hexadecimal. */
module KeyedHash {

  const Modulus: int := 65536

  /** b to the power e, exactly. */
  ghost function Pow(b: int, e: nat): int
    decreases e
  {
    if e == 0 then 1 else b * Pow(b, e - 1)
  }

  /** The weight of code point x, exactly as `hash_str` in `utils.rb` states it. */
  ghost function Weight(x: nat): int
  {
    (Pow(x, 3000) + Pow(x, x) - Pow(3, x)) * Pow(7, x)
  }

  /** The exact sum of the weights of the code points of s. */
  ghost function SumWeights(s: string): int
  {
    if s == [] then 0 else Weight(s[0] as nat) + SumWeights(s[1..])
  }

  // ---------------------------------------------------------------------------
  // Modular arithmetic

  /** The quotient and remainder of Euclidean division are unique. */
  lemma ModUnique(x: int, m: int, q: int, r: int)
    requires m > 0 && 0 <= r < m && x == q * m + r
    ensures x % m == r
  {
    var q', r' := x / m, x % m;
    var d := q - q';
    assert d * m == r' - r;
    if d >= 1 {
      MulAtLeast(d, m);
      assert false;
    } else if d <= -1 {
      MulAtLeast(-d, m);
      assert false;
    }
  }

  lemma MulAtLeast(d: int, m: int)
    requires d >= 1 && m > 0
    ensures d * m >= m
  {
    assert d * m == (d - 1) * m + m;
  }

  lemma ModAddMultiple(k: int, x: int, m: int)
    requires m > 0
    ensures (k * m + x) % m == x % m
  {
    var q := x / m;
    assert k * m + x == (k + q) * m + x % m;
    ModUnique(k * m + x, m, k + q, x % m);
  }

  lemma ModAdd(a: int, b: int, m: int)
    requires m > 0
    ensures (a + b) % m == (a % m + b % m) % m
  {
    var qa, qb := a / m, b / m;
    assert a + b == (qa + qb) * m + (a % m + b % m);
    ModAddMultiple(qa + qb, a % m + b % m, m);
  }

  lemma ModSub(a: int, b: int, m: int)
    requires m > 0
    ensures (a - b) % m == (a % m - b % m) % m
  {
    var qa, qb := a / m, b / m;
    assert a - b == (qa - qb) * m + (a % m - b % m);
    ModAddMultiple(qa - qb, a % m - b % m, m);
  }

  lemma ModMul(a: int, b: int, m: int)
    requires m > 0
    ensures (a * b) % m == ((a % m) * (b % m)) % m
  {
    var qa, ra, qb, rb := a / m, a % m, b / m, b % m;
    assert a == qa * m + ra;
    assert b == qb * m + rb;
    assert a * b == qa * m * b + ra * b;
    assert ra * b == ra * qb * m + ra * rb;
    var k := qa * b + ra * qb;
    assert a * b == k * m + ra * rb;
    ModAddMultiple(k, ra * rb, m);
  }

  lemma {:induction false} PowAdd(b: int, e1: nat, e2: nat)
    ensures Pow(b, e1 + e2) == Pow(b, e1) * Pow(b, e2)
    decreases e1
  {
    if e1 > 0 {
      PowAdd(b, e1 - 1, e2);
    }
  }

  lemma {:induction false} PowSquare(b: int, k: nat)
    ensures Pow(b * b, k) == Pow(b, 2 * k)
    decreases k
  {
    if k > 0 {
      PowSquare(b, k - 1);
      PowAdd(b, 2, 2 * k - 2);
    }
  }

  /** Reducing the base modulo m does not change the power modulo m. */
  lemma {:induction false} PowModBase(b: int, e: nat, m: int)
    requires m > 0
    ensures Pow(b % m, e) % m == Pow(b, e) % m
    decreases e
  {
    if e > 0 {
      var r := b % m;
      var p', p := Pow(r, e - 1), Pow(b, e - 1);
      PowModBase(b, e - 1, m);
      assert p' % m == p % m;
      assert Pow(r, e) == r * p';
      assert Pow(b, e) == b * p;
      ModMul(r, p', m);
      ModMul(b, p, m);
      ModUnique(r, m, 0, r);
    }
  }

  // ---------------------------------------------------------------------------
  // The computable hash

  /** b to the power e modulo m, by repeated squaring. */
  function PowMod(b: int, e: nat, m: int): (r: int)
    requires m > 0
    ensures 0 <= r < m
    ensures r == Pow(b, e) % m
    decreases e
  {
    if e == 0 then 1 % m
    else if e % 2 == 0 then
      var r := PowMod(b * b % m, e / 2, m);
      PowModBase(b * b, e / 2, m);
      PowSquare(b, e / 2);
      r
    else
      var r := (b % m) * PowMod(b, e - 1, m) % m;
      ModMul(b, Pow(b, e - 1), m);
      r
  }

  /** a + b - c modulo m depends only on the residues of a, b and c. */
  lemma ModAddSub(a: int, b: int, c: int, m: int)
    requires m > 0
    ensures (a + b - c) % m == (a % m + b % m - c % m) % m
  {
    var ra, rb, rc := a % m, b % m, c % m;
    var s, s' := a + b, ra + rb;
    ModAdd(a, b, m);
    assert s % m == s' % m;
    ModSub(s, c, m);
    assert (s - c) % m == (s % m - rc) % m;
    ModSub(s', rc, m);
    ModUnique(rc, m, 0, rc);
    assert (s' - rc) % m == (s' % m - rc) % m;
  }

  /** (a + b - c) * d modulo m depends only on the residues of a, b, c, d. */
  lemma WeightModSteps(a: int, b: int, c: int, d: int, m: int)
    requires m > 0
    ensures ((a + b - c) * d) % m == ((a % m + b % m - c % m) * (d % m)) % m
  {
    var rd := d % m;
    var e, e' := a + b - c, a % m + b % m - c % m;
    ModAddSub(a, b, c, m);
    ModMul(e, d, m);
    ModMul(e', rd, m);
    ModUnique(rd, m, 0, rd);
  }

  /** The weight of code point x, reduced modulo 65536. */
  function WeightMod(x: nat): (w: int)
    ensures 0 <= w < Modulus
    ensures w == Weight(x) % Modulus
  {
    var p, q, t, s := PowMod(x, 3000, Modulus), PowMod(x, x, Modulus), PowMod(3, x, Modulus), PowMod(7, x, Modulus);
    WeightModSteps(Pow(x, 3000), Pow(x, x), Pow(3, x), Pow(7, x), Modulus);
    (p + q - t) * s % Modulus
  }

  /** The sum of the weights of s modulo 65536 (Ruby's `%` with a positive
      modulus, which never yields a negative value). */
  function HashValue(s: string): (h: int)
    ensures 0 <= h < Modulus
    ensures h == SumWeights(s) % Modulus
  {
    if s == [] then 0
    else
      var w, rest := WeightMod(s[0] as nat), HashValue(s[1..]);
      SumStep(Weight(s[0] as nat), SumWeights(s[1..]), w, rest);
      (w + rest) % Modulus
  }

  /** Adding residues gives the residue of the sum. */
  lemma SumStep(w: int, rest: int, w': int, rest': int)
    requires w' == w % Modulus && rest' == rest % Modulus
    ensures (w' + rest') % Modulus == (w + rest) % Modulus
  {
    ModAdd(w, rest, Modulus);
  }

  // ---------------------------------------------------------------------------
  // Integer#to_s(16)

  predicate IsHexDigit(c: char) { '0' <= c <= '9' || 'a' <= c <= 'f' }

  function HexDigitValue(c: char): nat
    requires IsHexDigit(c)
  {
    if c <= '9' then c as int - '0' as int else c as int - 'a' as int + 10
  }

  /** The lower-case character that renders d in base 16. */
  function HexDigit(d: nat): (c: char)
    requires d < 16
    ensures IsHexDigit(c) && HexDigitValue(c) == d
  {
    if d < 10 then ('0' as int + d) as char else ('a' as int + d - 10) as char
  }

  /** Reads a string of lower-case hexadecimal digits. */
  function FromHex(s: string): nat
    requires forall i :: 0 <= i < |s| ==> IsHexDigit(s[i])
  {
    if s == [] then 0 else 16 * FromHex(s[..|s| - 1]) + HexDigitValue(s[|s| - 1])
  }

  /** `n.to_s(16)`: lower-case hexadecimal, no leading zeros, "0" for zero. */
  function ToHex(n: nat): (r: string)
    ensures |r| >= 1
    ensures forall i :: 0 <= i < |r| ==> IsHexDigit(r[i])
    ensures |r| > 1 ==> r[0] != '0'
    ensures FromHex(r) == n
    ensures n < 16 ==> |r| == 1
    ensures n < 256 ==> |r| <= 2
    ensures n < 4096 ==> |r| <= 3
    ensures n < 65536 ==> |r| <= 4
  {
    var d := HexDigit(n % 16);
    if n < 16 then [d]
    else
      var r := ToHex(n / 16) + [d];
      assert r[..|r| - 1] == ToHex(n / 16);
      r
  }

  /** `hash_str(message)`: one to four lower-case hexadecimal digits, no
      leading zero, whose value is the exact sum of the weights modulo 65536. */
  function HashStr(message: string): (r: string)
    ensures 1 <= |r| <= 4
    ensures forall i :: 0 <= i < |r| ==> IsHexDigit(r[i])
    ensures |r| > 1 ==> r[0] != '0'
    ensures FromHex(r) == SumWeights(message) % Modulus
  {
    ToHex(HashValue(message))
  }
}
