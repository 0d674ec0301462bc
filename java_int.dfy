/**
 * Java's 32-bit `int`: its range and its wrap-around arithmetic.
 */
module JavaInt {

  const Modulus: int := 0x1_0000_0000
  const MinValue: int := -0x8000_0000
  const MaxValue: int := 0x7FFF_FFFF

  newtype int32 = v: int | -0x8000_0000 <= v < 0x8000_0000

  predicate InRange(v: int)
  {
    MinValue <= v <= MaxValue
  }

  /** `a` and `b` are the same `int` once wrapped: they differ by a multiple of 2^32. */
  predicate Congruent(a: int, b: int)
  {
    (a - b) % Modulus == 0
  }

  /** The `int` that the mathematical value `v` wraps to: the one congruent to it modulo 2^32. */
  function Wrap(v: int): (r: int32)
    ensures InRange(v) ==> r as int == v
    ensures (v - r as int) % Modulus == 0
  {
    ((v - MinValue) % Modulus + MinValue) as int32
  }

  /** Java's `a + b` on `int`. */
  function Add(a: int32, b: int32): (r: int32)
    ensures InRange(a as int + b as int) ==> r as int == a as int + b as int
    ensures a as int + b as int > MaxValue ==> r as int == a as int + b as int - Modulus
    ensures a as int + b as int < MinValue ==> r as int == a as int + b as int + Modulus
    ensures Congruent(r as int, a as int + b as int)
  {
    Wrap(a as int + b as int)
  }

  /** Java's `a * b` on `int`. */
  function Mul(a: int32, b: int32): (r: int32)
    ensures InRange(a as int * b as int) ==> r as int == a as int * b as int
    ensures Congruent(r as int, a as int * b as int)
  {
    Wrap(a as int * b as int)
  }

  /** Adding two different offsets in -1 .. 1 gives different `int`s, wrap-around or not. */
  lemma AddSmallOffsetsDiffer(a: int32, d: int32, e: int32)
    requires -1 <= d <= 1 && -1 <= e <= 1 && d != e
    ensures Add(a, d) != Add(a, e)
  {
  }

  /**
   * `java.util.Arrays.hashCode` of the element hashes `hs`, which is what
   * `Objects.hash` returns: start from 1 and, for each element in turn,
   * multiply by 31 and add its hash, in `int` arithmetic. The result is
   * the documented polynomial reduced to 32 bits, and is that polynomial
   * whenever it fits.
   */
  function HashAll(hs: seq<int32>): (h: int32)
    ensures Congruent(h as int, HashPolynomial(hs))
    ensures InRange(HashPolynomial(hs)) ==> h as int == HashPolynomial(hs)
  {
    if hs == [] then 1
    else
      var init, last := hs[..|hs| - 1], hs[|hs| - 1];
      assert hs == init + [last];
      var prev := HashAll(init);
      HashStep(prev, init, last);
      var h := Add(Mul(31, prev), last);
      if InRange(HashPolynomial(hs)) then
        CongruentInRange(h as int, HashPolynomial(hs));
        h
      else h
  }

  /** 31 to the power `n`. */
  function Pow31(n: nat): (p: int)
    ensures p >= 1
  {
    if n == 0 then 1 else 31 * Pow31(n - 1)
  }

  /**
   * The polynomial that `Arrays.hashCode` documents, in unbounded integers:
   * `31^n + hs[0] * 31^(n-1) + ... + hs[n-1]` for `n` elements.
   */
  function HashPolynomial(hs: seq<int32>): int
  {
    Pow31(|hs|) + Weighted(hs)
  }

  /** The sum of `hs[i] * 31^(n-1-i)`. */
  function Weighted(hs: seq<int32>): int
  {
    if hs == [] then 0 else hs[0] as int * Pow31(|hs| - 1) + Weighted(hs[1..])
  }

  /** Appending an element multiplies the weighted sum by 31 and adds the element. */
  lemma {:induction false} WeightedSnoc(hs: seq<int32>, h: int32)
    ensures Weighted(hs + [h]) == 31 * Weighted(hs) + h as int
    decreases |hs|
  {
    if hs == [] {
      assert Weighted([h]) == h as int + Weighted([]);
    } else {
      assert (hs + [h])[1..] == hs[1..] + [h];
      WeightedSnoc(hs[1..], h);
      assert Pow31(|hs + [h]| - 1) == 31 * Pow31(|hs| - 1);
      assert hs[0] as int * (31 * Pow31(|hs| - 1)) == 31 * (hs[0] as int * Pow31(|hs| - 1));
    }
  }

  lemma CongruentTrans(a: int, b: int, c: int)
    requires Congruent(a, b) && Congruent(b, c)
    ensures Congruent(a, c)
  {
    var k := (a - b) / Modulus;
    var l := (b - c) / Modulus;
    assert a - c == Modulus * (k + l);
  }

  lemma CongruentScale(a: int, b: int, c: int)
    requires Congruent(a, b)
    ensures Congruent(c * a, c * b)
  {
    var k := (a - b) / Modulus;
    assert a - b == Modulus * k;
    assert c * a - c * b == Modulus * (c * k) by {
      assert c * a - c * b == c * (a - b);
    }
  }

  lemma CongruentShift(a: int, b: int, d: int)
    requires Congruent(a, b)
    ensures Congruent(a + d, b + d)
  {
  }

  /** Two values in the `int` range that agree modulo 2^32 are equal. */
  lemma CongruentInRange(a: int, b: int)
    requires InRange(a) && InRange(b) && Congruent(a, b)
    ensures a == b
  {
    var k := (a - b) / Modulus;
    assert a - b == Modulus * k;
  }

  /** One step of the fold keeps it congruent to the polynomial. */
  lemma HashStep(prev: int32, init: seq<int32>, last: int32)
    requires Congruent(prev as int, HashPolynomial(init))
    ensures Congruent(Add(Mul(31, prev), last) as int, HashPolynomial(init + [last]))
  {
    WeightedSnoc(init, last);
    assert HashPolynomial(init + [last]) == 31 * HashPolynomial(init) + last as int;
    var m := Mul(31, prev);
    CongruentScale(prev as int, HashPolynomial(init), 31);
    CongruentTrans(m as int, 31 * prev as int, 31 * HashPolynomial(init));
    CongruentShift(m as int, 31 * HashPolynomial(init), last as int);
    CongruentTrans(Add(m, last) as int, m as int + last as int, HashPolynomial(init + [last]));
  }
}
