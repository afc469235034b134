/** Unsigned integers as bit strings of a fixed width, most significant bit first. */
module BitStrings {

  function Pow2(n: nat): (r: nat)
    ensures r > 0
  {
    if n == 0 then 1 else 2 * Pow2(n - 1)
  }

  function Bit(b: bool): nat {
    if b then 1 else 0
  }

  /** The number a bit string stands for. */
  function Value(bits: seq<bool>): nat {
    if bits == [] then 0 else 2 * Value(bits[..|bits| - 1]) + Bit(bits[|bits| - 1])
  }

  /** The low `width` bits of a number. */
  function ToBits(n: nat, width: nat): (r: seq<bool>)
    ensures |r| == width
    decreases width
  {
    if width == 0 then [] else ToBits(n / 2, width - 1) + [n % 2 == 1]
  }

  lemma {:induction false} ValueBound(bits: seq<bool>)
    ensures Value(bits) < Pow2(|bits|)
  {
    if bits != [] {
      ValueBound(bits[..|bits| - 1]);
    }
  }

  /** A number that fits its width is read back unchanged. */
  lemma {:induction false} ToBitsRoundTrip(n: nat, width: nat)
    requires n < Pow2(width)
    ensures Value(ToBits(n, width)) == n
    decreases width
  {
    if width > 0 {
      var init := ToBits(n / 2, width - 1);
      assert (init + [n % 2 == 1])[..width - 1] == init;
      ToBitsRoundTrip(n / 2, width - 1);
    }
  }

  lemma {:induction false} ValueRoundTrip(bits: seq<bool>)
    ensures ToBits(Value(bits), |bits|) == bits
  {
    if bits != [] {
      var init, last := bits[..|bits| - 1], bits[|bits| - 1];
      ValueRoundTrip(init);
      assert Value(bits) / 2 == Value(init) && Value(bits) % 2 == Bit(last);
      assert bits == init + [last];
    }
  }

  lemma ValueInjective(a: seq<bool>, b: seq<bool>)
    requires |a| == |b| && Value(a) == Value(b)
    ensures a == b
  {
    ValueRoundTrip(a);
    ValueRoundTrip(b);
  }

  /** Concatenation is multiplication by the width of the lower part. */
  lemma {:induction false} ValueConcat(a: seq<bool>, b: seq<bool>)
    ensures Value(a + b) == Value(a) * Pow2(|b|) + Value(b)
  {
    if b == [] {
      assert a + b == a;
    } else {
      var init := b[..|b| - 1];
      assert (a + b)[..|a + b| - 1] == a + init;
      ValueConcat(a, init);
      assert Value(a) * Pow2(|b|) == 2 * (Value(a) * Pow2(|init|)) by {
        assert Pow2(|b|) == 2 * Pow2(|init|);
        MulTwo(Value(a), Pow2(|init|));
      }
    }
  }

  lemma MulTwo(x: nat, y: nat)
    ensures x * (2 * y) == 2 * (x * y)
  {
  }

  lemma ValueSnoc(bits: seq<bool>, b: bool)
    ensures Value(bits + [b]) == 2 * Value(bits) + Bit(b)
  {
    assert (bits + [b])[..|bits|] == bits;
  }

  lemma ValueOfFour(a: bool, b: bool, c: bool, d: bool)
    ensures Value([a, b, c, d]) == 8 * Bit(a) + 4 * Bit(b) + 2 * Bit(c) + Bit(d)
  {
    assert Value([a]) == Bit(a);
    ValueSnoc([a], b);
    assert [a] + [b] == [a, b];
    ValueSnoc([a, b], c);
    assert [a, b] + [c] == [a, b, c];
    ValueSnoc([a, b, c], d);
    assert [a, b, c] + [d] == [a, b, c, d];
  }

  // ---------------------------------------------------------------------------
  // Bitwise exclusive or, on bit strings and on numbers

  function Xor(a: seq<bool>, b: seq<bool>): (r: seq<bool>)
    requires |a| == |b|
    ensures |r| == |a| && forall i :: 0 <= i < |r| ==> r[i] == (a[i] != b[i])
  {
    seq(|a|, i requires 0 <= i < |a| => a[i] != b[i])
  }

  /** `m ^ n` on unbounded natural numbers. */
  function XorNat(m: nat, n: nat): nat
    decreases m + n
  {
    if m == 0 then n else if n == 0 then m else 2 * XorNat(m / 2, n / 2) + (m + n) % 2
  }

  lemma {:induction false} ToBitsZero(width: nat)
    ensures forall i :: 0 <= i < width ==> !ToBits(0, width)[i]
    decreases width
  {
    if width > 0 {
      ToBitsZero(width - 1);
    }
  }

  lemma {:induction false} XorNatBits(m: nat, n: nat, width: nat)
    ensures ToBits(XorNat(m, n), width) == Xor(ToBits(m, width), ToBits(n, width))
    decreases width
  {
    if m == 0 || n == 0 {
      XorWithZero(m, n, width);
    } else if width > 0 {
      var x := XorNat(m, n);
      assert x / 2 == XorNat(m / 2, n / 2) && x % 2 == (m + n) % 2;
      XorNatBits(m / 2, n / 2, width - 1);
      XorLast(m, n, x, width);
    }
  }

  lemma XorWithZero(m: nat, n: nat, width: nat)
    requires m == 0 || n == 0
    ensures ToBits(m + n, width) == Xor(ToBits(m, width), ToBits(n, width))
  {
    hide ToBits;
    ToBitsZero(width);
  }

  lemma XorLast(m: nat, n: nat, x: nat, width: nat)
    requires width > 0 && x % 2 == (m + n) % 2
    requires ToBits(x / 2, width - 1) == Xor(ToBits(m / 2, width - 1), ToBits(n / 2, width - 1))
    ensures ToBits(x, width) == Xor(ToBits(m, width), ToBits(n, width))
  {
    hide *;
    ToBitsStep(m, width);
    ToBitsStep(n, width);
    ToBitsStep(x, width);
    var a, b := ToBits(m / 2, width - 1), ToBits(n / 2, width - 1);
    XorSnoc(a, m % 2 == 1, b, n % 2 == 1);
    assert (x % 2 == 1) == ((m % 2 == 1) != (n % 2 == 1));
  }

  lemma ToBitsStep(n: nat, width: nat)
    requires width > 0
    ensures ToBits(n, width) == ToBits(n / 2, width - 1) + [n % 2 == 1]
  {
  }

  lemma XorSnoc(a: seq<bool>, p: bool, b: seq<bool>, q: bool)
    requires |a| == |b|
    ensures Xor(a + [p], b + [q]) == Xor(a, b) + [p != q]
  {
  }

  /** The low bits do not see what lies above them. */
  lemma {:induction false} ToBitsMod(n: nat, width: nat)
    ensures ToBits(n % Pow2(width), width) == ToBits(n, width)
    decreases width
  {
    if width > 0 {
      ModTwice(n, Pow2(width - 1));
      ToBitsMod(n / 2, width - 1);
    }
  }

  lemma ModTwice(n: nat, p: nat)
    requires p > 0
    ensures n % (2 * p) / 2 == n / 2 % p
    ensures n % (2 * p) % 2 == n % 2
  {
    var q, r := n / 2 / p, n / 2 % p;
    assert n / 2 == p * q + r;
    assert n == 2 * p * q + (2 * r + n % 2);
    ModUnique(n, 2 * p, q, 2 * r + n % 2);
  }

  lemma ModUnique(n: nat, d: nat, q: nat, r: nat)
    requires n == d * q + r && r < d
    ensures n % d == r && n / d == q
  {
    var k, r' := n / d - q, n % d;
    assert d * k == r - r' by {
      assert d * (n / d) == d * q + d * k;
    }
    MulGrows(d, k);
  }

  lemma MulGrows(d: nat, k: int)
    ensures k >= 1 ==> d * k >= d
    ensures k <= -1 ==> d * k <= -(d as int)
  {
    if k >= 1 {
      MulNonNegative(d, k - 1);
      assert d * k == d * (k - 1) + d;
    } else if k <= -1 {
      MulNonNegative(d, -1 - k);
      assert d * k == -(d * (-1 - k)) - d;
    }
  }

  lemma MulNonNegative(x: nat, y: nat)
    ensures x * y >= 0
  {
  }

  /** The top bit, and what is left without it. */
  lemma {:induction false} ToBitsTop(n: nat, width: nat)
    requires width > 0
    ensures ToBits(n, width)[0] <==> n / Pow2(width - 1) % 2 == 1
    ensures ToBits(n, width)[1..] == ToBits(n, width - 1)
    decreases width
  {
    if width > 1 {
      ToBitsTop(n / 2, width - 1);
      DivTwice(n, Pow2(width - 2));
    }
  }

  lemma DivTwice(n: nat, p: nat)
    requires p > 0
    ensures n / 2 / p == n / (2 * p)
  {
    var q, r := n / 2 / p, n / 2 % p;
    assert n / 2 == p * q + r;
    assert n == 2 * p * q + (2 * r + n % 2);
    ModUnique(n, 2 * p, q, 2 * r + n % 2);
  }

  lemma SmallPowers()
    ensures Pow2(3) == 8 && Pow2(4) == 16 && Pow2(8) == 256
    ensures Pow2(12) == 4096 && Pow2(13) == 8192 && Pow2(14) == 16384 && Pow2(15) == 0x8000
    ensures Pow2(16) == 65536 && Pow2(27) == 134217728
  {
    assert Pow2(4) == 16;
    assert Pow2(8) == 256;
    assert Pow2(12) == 4096;
    assert Pow2(16) == 65536;
    assert Pow2(20) == 1048576;
    assert Pow2(24) == 16777216;
    assert Pow2(27) == 134217728;
  }
}
