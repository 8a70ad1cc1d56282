/** Bit strings as numbers: digits of a fixed width, most significant first, and the buffer that
    carries bits from one width to another. */
module Digits {
  import opened Arith

  /** Shifts `x` left by `k` bits and puts `d` in the bits that become free. */
  function ShiftLeft(x: nat, k: nat, d: nat): nat { x * Pow2(k) + d }

  function ShiftRight(x: nat, k: nat): nat { Quotient(x, Pow2(k)) }

  /** The `k` low bits of `x`. */
  function Low(x: nat, k: nat): nat { x % Pow2(k) }

  /** The number that digits of `width` bits spell. */
  function Value(digits: seq<nat>, width: nat): nat {
    if digits == [] then 0
    else Value(digits[..|digits| - 1], width) * Pow2(width) + digits[|digits| - 1]
  }

  predicate Fits(digits: seq<nat>, width: nat) {
    forall i | 0 <= i < |digits| :: digits[i] < Pow2(width)
  }

  /** `out` and the `count` low bits of the buffer together spell `v`. */
  predicate Carries(v: nat, out: seq<nat>, width: nat, low: nat, count: nat) {
    v == Value(out, width) * Pow2(count) + low && low < Pow2(count)
  }

  lemma {:induction false} Pow2Add(a: nat, b: nat)
    ensures Pow2(a + b) == Pow2(a) * Pow2(b)
  {
    if a > 0 { Pow2Add(a - 1, b); }
  }

  lemma SmallPowers()
    ensures Pow2(3) == 8 && Pow2(8) == 256 && Pow2(11) == 2048
  {
  }

  lemma ValueOfAppend(digits: seq<nat>, d: nat, width: nat)
    ensures Value(digits + [d], width) == ShiftLeft(Value(digits, width), width, d)
  {
    assert (digits + [d])[..|digits|] == digits;
  }

  lemma ShiftSum(x: nat, c: nat, low: nat, p: nat, d: nat)
    requires low < c && d < p
    ensures (x * c + low) * p + d == x * (c * p) + (low * p + d)
    ensures low * p + d < c * p
  {
    assert (x * c) * p == x * (c * p);
    assert (x * c + low) * p == (x * c) * p + low * p;
    AtLeast(c - low, p);
    assert (c - low) * p == c * p - low * p;
  }

  lemma DropDigit(x: nat, p: nat, d: nat, w: nat)
    requires p > 0 && d < w
    ensures (x * w + d) / (p * w) == x / p
  {
    ShiftSum(x / p, p, x % p, w, d);
    DivMod(x * w + d, p * w, x / p, (x % p) * w + d);
  }

  lemma SplitSum(x: nat, w: nat, rest: nat, low: nat)
    requires rest > 0 && low < w * rest
    ensures low / rest < w
    ensures (x * w + low / rest) * rest + low % rest == x * (w * rest) + low
  {
    var d := low / rest;
    assert low == d * rest + low % rest;
    assert (x * w) * rest == x * (w * rest);
    assert (x * w + d) * rest == (x * w) * rest + d * rest;
    if d >= w { Scales(w, d, rest); }
  }

  /** Digits of one width and number are determined by what they spell. */
  lemma {:induction false} DigitsAreUnique(a: seq<nat>, b: seq<nat>, width: nat)
    requires |a| == |b| && Fits(a, width) && Fits(b, width)
    requires Value(a, width) == Value(b, width)
    ensures a == b
  {
    if a != [] {
      var n, p := |a| - 1, Pow2(width);
      DivMod(Value(a, width), p, Value(a[..n], width), a[n]);
      DivMod(Value(b, width), p, Value(b[..n], width), b[n]);
      DigitsAreUnique(a[..n], b[..n], width);
      assert a == a[..n] + [a[n]] && b == b[..n] + [b[n]];
    }
  }

  /** Shifting `width'` more bits into the buffer. */
  lemma ShiftIn(v: nat, out: seq<nat>, width: nat, low: nat, count: nat, d: nat, width': nat)
    requires Carries(v, out, width, low, count) && d < Pow2(width')
    ensures Carries(ShiftLeft(v, width', d), out, width, ShiftLeft(low, width', d), count + width')
  {
    hide Value, Pow2;
    Pow2Add(count, width');
    ShiftSum(Value(out, width), Pow2(count), low, Pow2(width'), d);
  }

  /** Taking the `width` high bits of the buffer out as the next digit. */
  lemma TakeOut(v: nat, out: seq<nat>, width: nat, low: nat, count: nat)
    requires Carries(v, out, width, low, count) && width <= count
    ensures
      var d := ShiftRight(low, count - width);
      d < Pow2(width) && Carries(v, out + [d], width, Low(low, count - width), count - width)
  {
    hide Value, Pow2;
    var rest := Pow2(count - width);
    Pow2Add(width, count - width);
    ValueOfAppend(out, low / rest, width);
    SplitSum(Value(out, width), Pow2(width), rest, low);
  }

  /** The leading `n` bits do not depend on the bytes that follow them. */
  lemma {:induction false} LeadingBits(bytes: seq<nat>, j: nat, n: nat)
    requires Fits(bytes, 8) && j <= |bytes| && n <= 8 * j
    ensures Value(bytes, 8) / Pow2(8 * |bytes| - n) == Value(bytes[..j], 8) / Pow2(8 * j - n)
    decreases |bytes|
  {
    if j == |bytes| {
      assert bytes[..j] == bytes;
    } else {
      hide Value, Pow2;
      var m := |bytes| - 1;
      var shorter := bytes[..m];
      LeadingBits(shorter, j, n);
      assert shorter[..j] == bytes[..j] && shorter + [bytes[m]] == bytes;
      ValueOfAppend(shorter, bytes[m], 8);
      Pow2Add(8 * m - n, 8);
      assert 8 * |bytes| - n == (8 * m - n) + 8;
      DropDigit(Value(shorter, 8), Pow2(8 * m - n), bytes[m], Pow2(8));
    }
  }

  // ----- Reading a window of bits

  lemma AddMultiple(m: nat, p: nat, y: nat)
    requires p > 0
    ensures (m * p + y) / p == m + y / p && (m * p + y) % p == y % p
  {
    assert m * p + y == (m + y / p) * p + y % p by {
      assert (m + y / p) * p == m * p + (y / p) * p;
    }
    DivMod(m * p + y, p, m + y / p, y % p);
  }

  /** Dropping `a` bits, or `a + k` bits and then putting the lowest `k` of the dropped ones back. */
  lemma Resplit(x: nat, a: nat, k: nat)
    ensures ShiftRight(x, a) == ShiftLeft(ShiftRight(x, a + k), k, Low(ShiftRight(x, a), k))
  {
    hide Pow2;
    var p, w, y := Pow2(a), Pow2(k), ShiftRight(x, a);
    Pow2Add(k, a);
    assert k + a == a + k;
    ShiftSum(y / w, w, y % w, p, x % p);
    DivMod(x, w * p, y / w, (y % w) * p + x % p);
  }

  /** A window of `k` bits does not see the bits above it. */
  lemma WindowIgnores(x: nat, n: nat, low: nat, a: nat, k: nat)
    requires a + k <= n
    ensures Low(ShiftRight(ShiftLeft(x, n, low), a), k) == Low(ShiftRight(low, a), k)
  {
    hide Pow2;
    var u, w, p := Pow2(n - a - k), Pow2(k), Pow2(a);
    Pow2Add(n - a - k, k);
    Pow2Add(n - a, a);
    assert n - a - k + k == n - a && n - a + a == n;
    Regroup(x, u, w, p);
    AddMultiple(x * u * w, p, low);
    AddMultiple(x * u, w, low / p);
  }

  lemma Regroup(x: nat, u: nat, w: nat, p: nat)
    ensures x * ((u * w) * p) == ((x * u) * w) * p
  {
    assert x * ((u * w) * p) == (x * (u * w)) * p;
    assert x * (u * w) == (x * u) * w;
  }

  lemma LowIgnores(x: nat, n: nat, low: nat, a: nat)
    requires a <= n
    ensures Low(ShiftLeft(x, n, low), a) == Low(low, a)
  {
    hide Pow2;
    Pow2Add(n - a, a);
    assert n - a + a == n;
    assert x * (Pow2(n - a) * Pow2(a)) == (x * Pow2(n - a)) * Pow2(a);
    AddMultiple(x * Pow2(n - a), Pow2(a), low);
  }

  /** Taking a byte from a buffer that still holds older bits above its `count` low ones. */
  lemma DirtyBuffer(buffer: nat, count: nat)
    requires count >= 8
    ensures Low(ShiftRight(buffer, count - 8), 8) == ShiftRight(Low(buffer, count), count - 8)
    ensures Low(buffer, count - 8) == Low(Low(buffer, count), count - 8)
  {
    hide Pow2, Value;
    var low := Low(buffer, count);
    assert buffer == ShiftLeft(ShiftRight(buffer, count), count, low);
    WindowIgnores(ShiftRight(buffer, count), count, low, count - 8, 8);
    LowIgnores(ShiftRight(buffer, count), count, low, count - 8);
    Pow2Add(8, count - 8);
    SplitSum(0, Pow2(8), Pow2(count - 8), low);
    DivMod(ShiftRight(low, count - 8), Pow2(8), 0, ShiftRight(low, count - 8));
  }
}
