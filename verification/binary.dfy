/** Powers of two and the big-endian binary form of a row number: the arithmetic
    behind the layout of the stored (input) columns. */
module Binary {
  import opened Common

  function Pow2(k: nat): (p: nat)
    ensures p >= 1
  {
    if k == 0 then 1 else 2 * Pow2(k - 1)
  }

  lemma {:induction false} Pow2Add(a: nat, b: nat)
    ensures Pow2(a + b) == Pow2(a) * Pow2(b)
    decreases b
  {
    if b > 0 {
      Pow2Add(a, b - 1);
      calc {
        Pow2(a + b);
        2 * Pow2(a + b - 1);
        2 * (Pow2(a) * Pow2(b - 1));
        Pow2(a) * (2 * Pow2(b - 1));
        Pow2(a) * Pow2(b);
      }
    }
  }

  lemma MulAtLeast(d: int, k: int)
    requires d > 0 && k >= 1
    ensures d * k >= d
  {
    assert d * k == d + d * (k - 1);
  }

  /** Euclidean division is determined by any quotient/remainder pair with 0 <= t < d. */
  lemma {:induction false} DivUnique(r: int, d: int, q: int, t: int)
    requires d > 0 && 0 <= t < d && r == d * q + t
    ensures r / d == q && r % d == t
  {
    var q', t' := r / d, r % d;
    assert d * q + t == d * q' + t';
    if q > q' {
      assert d * (q - q') == t' - t;
      MulAtLeast(d, q - q');
      assert false;
    } else if q < q' {
      assert d * (q' - q) == t - t';
      MulAtLeast(d, q' - q);
      assert false;
    }
  }

  /** Halving first and then dividing by p is dividing by 2p. */
  lemma {:induction false} HalveThenDivide(r: nat, p: nat)
    requires p >= 1
    ensures (r / 2) / p == r / (2 * p)
  {
    var h := r / 2;
    var s, t := h / p, h % p;
    assert r == 2 * h + r % 2;
    assert h == p * s + t;
    assert r == (2 * p) * s + (2 * t + r % 2);
    DivUnique(r, 2 * p, s, 2 * t + r % 2);
  }

  /** The n-bit big-endian binary form of r (the most significant bit first). */
  function Bits(n: nat, r: nat): (bits: seq<Bit>)
    ensures |bits| == n
  {
    if n == 0 then [] else Bits(n - 1, r / 2) + [r % 2]
  }

  /** The number a big-endian bit sequence denotes. */
  function Value(bits: seq<Bit>): nat
  {
    if |bits| == 0 then 0 else 2 * Value(bits[..|bits| - 1]) + bits[|bits| - 1]
  }

  lemma {:induction false} ValueBound(bits: seq<Bit>)
    ensures Value(bits) < Pow2(|bits|)
    decreases |bits|
  {
    if |bits| > 0 {
      ValueBound(bits[..|bits| - 1]);
    }
  }

  /** Reading back the binary form of a row below 2^n gives the row. */
  lemma {:induction false} ValueOfBits(n: nat, r: nat)
    requires r < Pow2(n)
    ensures Value(Bits(n, r)) == r
    decreases n
  {
    if n > 0 {
      ValueOfBits(n - 1, r / 2);
      var bits := Bits(n, r);
      assert bits[..n - 1] == Bits(n - 1, r / 2);
    }
  }

  /** Every bit sequence is the binary form of its own value. */
  lemma {:induction false} BitsOfValue(bits: seq<Bit>)
    ensures Bits(|bits|, Value(bits)) == bits
    decreases |bits|
  {
    if |bits| > 0 {
      var init, last := bits[..|bits| - 1], bits[|bits| - 1];
      BitsOfValue(init);
      DivUnique(Value(bits), 2, Value(init), last);
      assert bits == init + [last];
    }
  }

  /** Bit i (from the left) of the n-bit form of r is r / 2^(n-1-i) mod 2. */
  lemma {:induction false} BitsAt(n: nat, r: nat, i: nat)
    requires i < n
    ensures Bits(n, r)[i] == (r / Pow2(n - 1 - i)) % 2
    decreases n
  {
    if i == n - 1 {
      assert Pow2(0) == 1;
    } else {
      BitsAt(n - 1, r / 2, i);
      HalveThenDivide(r, Pow2(n - 2 - i));
    }
  }

  /** Every entry of s is v. */
  predicate Constant(s: seq<Bit>, v: Bit)
  {
    forall i :: 0 <= i < |s| ==> s[i] == v
  }

  lemma {:induction false} BitsOfZero(n: nat)
    ensures Constant(Bits(n, 0), 0)
    decreases n
  {
    if n > 0 {
      BitsOfZero(n - 1);
    }
  }

  lemma {:induction false} BitsOfAllOnes(n: nat)
    ensures Constant(Bits(n, Pow2(n) - 1), 1)
    decreases n
  {
    if n > 0 {
      BitsOfAllOnes(n - 1);
      DivUnique(Pow2(n) - 1, 2, Pow2(n - 1) - 1, 1);
    }
  }
}
