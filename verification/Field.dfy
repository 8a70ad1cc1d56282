/** Arithmetic modulo the group order. Scalars are residues; points are their discrete logarithms
    to a fixed base, so a scalar multiple is a product and a sum of points a sum. */
module Field {
  import opened Arith

  type Modulus = q: nat | q > 1 witness 2

  function Add(q: Modulus, a: nat, b: nat): nat { (a + b) % q }

  function Sub(q: Modulus, a: nat, b: nat): nat { (a - b) % q }

  function Mul(q: Modulus, a: nat, b: nat): nat { (a * b) % q }

  /** Two integers with the same residue. */
  ghost predicate Cong(q: Modulus, a: int, b: int) { a % q == b % q }

  lemma ModShift(q: Modulus, a: int, k: int)
    ensures (a + k * q) % q == a % q
    decreases if k < 0 then -k else k
  {
    if k > 0 {
      ModShift(q, a, k - 1);
      ModStep(q, a + (k - 1) * q);
      assert a + k * q == (a + (k - 1) * q) + q;
    } else if k < 0 {
      ModShift(q, a, k + 1);
      ModStep(q, a + k * q);
      assert a + (k + 1) * q == (a + k * q) + q;
    }
  }

  lemma ModStep(q: Modulus, a: int)
    ensures (a + q) % q == a % q
  {
    var d, r := a / q, a % q;
    assert a == d * q + r;
    DivMod(a + q, q, d + 1, r);
  }

  /** Congruence from an explicit multiple of the modulus. */
  lemma CongBy(q: Modulus, a: int, b: int, k: int)
    requires a == b + k * q
    ensures Cong(q, a, b)
  {
    ModShift(q, b, k);
  }

  lemma CongWitness(q: Modulus, a: int, b: int) returns (k: int)
    requires Cong(q, a, b)
    ensures a == b + k * q
  {
    k := a / q - b / q;
    assert a == (a / q) * q + a % q && b == (b / q) * q + b % q;
    assert k * q == (a / q) * q - (b / q) * q;
  }

  lemma CongAdd(q: Modulus, a: int, a': int, b: int, b': int)
    requires Cong(q, a, a') && Cong(q, b, b')
    ensures Cong(q, a + b, a' + b')
    ensures Cong(q, a - b, a' - b')
  {
    var i := CongWitness(q, a, a');
    var j := CongWitness(q, b, b');
    assert (i + j) * q == i * q + j * q && (i - j) * q == i * q - j * q;
    CongBy(q, a + b, a' + b', i + j);
    CongBy(q, a - b, a' - b', i - j);
  }

  lemma CongMul(q: Modulus, a: int, a': int, b: int)
    requires Cong(q, a, a')
    ensures Cong(q, a * b, a' * b)
    ensures Cong(q, b * a, b * a')
  {
    var i := CongWitness(q, a, a');
    calc {
      a * b;
      (a' + i * q) * b;
      a' * b + (i * q) * b;
      a' * b + (i * b) * q;
    }
    CongBy(q, a * b, a' * b, i * b);
  }

  lemma CongMod(q: Modulus, a: int)
    ensures Cong(q, a % q, a)
  {
    DivMod(a % q, q, 0, a % q);
  }

  lemma AddCong(q: Modulus, a: nat, b: nat)
    ensures Cong(q, Add(q, a, b), a + b)
  {
    CongMod(q, a + b);
  }

  lemma SubCong(q: Modulus, a: nat, b: nat)
    ensures Cong(q, Sub(q, a, b), a - b)
  {
    CongMod(q, a - b);
  }

  lemma MulCong(q: Modulus, a: nat, b: nat)
    ensures Cong(q, Mul(q, a, b), a * b)
  {
    CongMod(q, a * b);
  }

  /** The identity behind a Schnorr response: with `r = alpha - c*x` and `k = x*p`,
      `r*p + c*k` is `alpha*p`. */
  lemma ResponseCancels(q: Modulus, alpha: nat, c: nat, x: nat, p: nat)
    ensures Cong(q, Mul(q, Sub(q, alpha, Mul(q, c, x)), p) + Mul(q, c, Mul(q, x, p)), Mul(q, alpha, p))
  {
    var cx := Mul(q, c, x);
    var r := Sub(q, alpha, cx);
    var k := Mul(q, x, p);
    MulCong(q, c, x);
    SubCong(q, alpha, cx);
    CongAdd(q, alpha, alpha, cx, c * x);
    assert Cong(q, r, alpha - c * x);
    CongMul(q, r, alpha - c * x, p);
    MulCong(q, r, p);
    MulCong(q, x, p);
    CongMul(q, k, x * p, c);
    MulCong(q, c, k);
    CongAdd(q, Mul(q, r, p), (alpha - c * x) * p, Mul(q, c, k), c * (x * p));
    assert (alpha - c * x) * p + c * (x * p) == alpha * p;
    MulCong(q, alpha, p);
  }
}
