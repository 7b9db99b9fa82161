/** Octets and big-endian unsigned integers, as used by the extended
    payload-length fields of RFC 6455, section 5.2. */
module Bytes {

  /** An octet, as the frame's bytes and a `Uint8Array` hold them. */
  newtype byte = x: int | 0 <= x < 256

  /** 256 raised to the power `k`: the number of values `k` bytes can hold. */
  function Pow256(k: nat): (p: nat)
    ensures p > 0
  {
    if k == 0 then 1 else 256 * Pow256(k - 1)
  }

  /** The `width` low-order bytes of `n`, most significant byte first.
      Bytes above `width` are dropped, as a shift-and-mask loop drops them. */
  function BigEndian(n: nat, width: nat): (r: seq<byte>)
    ensures |r| == width
  {
    if width == 0 then [] else BigEndian(n / 256, width - 1) + [(n % 256) as byte]
  }

  /** The unsigned integer that the bytes `bs` denote, most significant first. */
  function FromBigEndian(bs: seq<byte>): (n: nat)
    ensures n < Pow256(|bs|)
  {
    if |bs| == 0 then 0
    else
      var high := FromBigEndian(bs[..|bs| - 1]);
      assert high * 256 <= (Pow256(|bs| - 1) - 1) * 256;
      high * 256 + bs[|bs| - 1] as nat
  }

  /** Splitting off the low byte: the quotient keeps the remaining places. */
  lemma DivModSplit(n: nat, p: nat)
    requires p > 0
    ensures (n / 256) % p * 256 + n % 256 == n % (256 * p)
  {
    var q, r := n / 256, n % 256;
    var a, b := q / p, q % p;
    assert n == 256 * q + r;
    assert q == a * p + b;
    assert n == (256 * p) * a + (256 * b + r);
    assert 0 <= 256 * b + r < 256 * p;
    ModOfDecomposition(n, 256 * p, a, 256 * b + r);
  }

  /** The quotient and remainder of a division are the only ones possible. */
  lemma ModOfDecomposition(n: int, d: int, q: int, r: int)
    requires d > 0 && n == d * q + r && 0 <= r < d
    ensures n % d == r && n / d == q
  {
    var q', r' := n / d, n % d;
    assert n == d * q' + r';
    assert d * (q - q') == r' - r;
    OnlyZeroMultipleBelow(d, q - q');
  }

  /** The only multiple of `d` strictly between `-d` and `d` is zero. */
  lemma OnlyZeroMultipleBelow(d: int, k: int)
    requires d > 0 && -d < d * k < d
    ensures k == 0
  {
    if k >= 1 {
      MulAtLeast(d, k);
      assert false;
    } else if k <= -1 {
      MulAtLeast(d, -k);
      assert false;
    }
  }

  lemma MulAtLeast(d: int, k: int)
    requires d > 0 && k >= 1
    ensures d * k >= d
  {
  }

  /** Reading back `width` big-endian bytes of `n` gives `n` reduced to
      what `width` bytes can hold. */
  lemma {:induction false} BigEndianRoundTrip(n: nat, width: nat)
    ensures FromBigEndian(BigEndian(n, width)) == n % Pow256(width)
  {
    if width > 0 {
      var p := Pow256(width - 1);
      assert FromBigEndian(BigEndian(n, width)) == (n / 256) % p * 256 + n % 256 by {
        var bs := BigEndian(n, width);
        assert bs[..width - 1] == BigEndian(n / 256, width - 1);
        assert bs[width - 1] as nat == n % 256;
        BigEndianRoundTrip(n / 256, width - 1);
      }
      DivModSplit(n, p);
    }
  }

  /** A value that fits in `width` bytes reads back exactly. */
  lemma BigEndianExact(n: nat, width: nat)
    requires n < Pow256(width)
    ensures FromBigEndian(BigEndian(n, width)) == n
  {
    BigEndianRoundTrip(n, width);
    ModOfDecomposition(n, Pow256(width), 0, n);
  }

  /** 2 raised to the power `k`. */
  function Pow2(k: nat): (p: nat)
    ensures p > 0
  {
    if k == 0 then 1 else 2 * Pow2(k - 1)
  }

  /** The bitwise exclusive or of the low `k` bits of `a` and `b`, built
      from the lowest bit up. */
  function XorBits(a: nat, b: nat, k: nat): nat {
    if k == 0 then 0 else 2 * XorBits(a / 2, b / 2, k - 1) + (a + b) % 2
  }

  /** The exclusive or of `k` bits fits in `k` bits. */
  lemma {:induction false} XorBitsBound(a: nat, b: nat, k: nat)
    ensures XorBits(a, b, k) < Pow2(k)
  {
    if k > 0 {
      XorBitsBound(a / 2, b / 2, k - 1);
    }
  }

  /** Bit `j` of `x`, counting from the lowest. */
  function BitAt(x: nat, j: nat): (bit: nat)
    ensures bit < 2
  {
    (x / Pow2(j)) % 2
  }

  /** Bit `j` of a byte. */
  function ByteBit(x: byte, j: nat): (bit: nat)
    ensures bit < 2
  {
    BitAt(x as nat, j)
  }

  /** The bitwise exclusive or of two bytes, JavaScript's `^` on them: each
      bit of the result is set exactly when the two bytes differ in it. */
  function Xor(a: byte, b: byte): (r: byte)
    ensures forall j :: 0 <= j < 8 ==>
      ByteBit(r, j) == if ByteBit(a, j) == ByteBit(b, j) then 0 else 1
  {
    XorBitsBound(a as nat, b as nat, 8);
    assert Pow2(8) == 256;
    XorBitsEachBit(a as nat, b as nat, 8);
    XorBits(a as nat, b as nat, 8) as byte
  }

  /** Every one of the `k` low bits of `XorBits` is the exclusive or of the
      operands' bits. */
  lemma XorBitsEachBit(a: nat, b: nat, k: nat)
    ensures forall j :: 0 <= j < k ==>
      BitAt(XorBits(a, b, k), j) == if BitAt(a, j) == BitAt(b, j) then 0 else 1
  {
    forall j | 0 <= j < k
      ensures BitAt(XorBits(a, b, k), j) == if BitAt(a, j) == BitAt(b, j) then 0 else 1
    {
      XorBitsBit(a, b, k, j);
    }
  }

  /** Bit `j` of `XorBits(a, b, k)`, by induction on `j`: the lowest bit is
      the parity of the operands' lowest bits, and the others are those of
      the exclusive or of the halves. */
  lemma {:induction false} XorBitsBit(a: nat, b: nat, k: nat, j: nat)
    requires j < k
    ensures BitAt(XorBits(a, b, k), j) == if BitAt(a, j) == BitAt(b, j) then 0 else 1
  {
    var h := XorBits(a / 2, b / 2, k - 1);
    var x := XorBits(a, b, k);
    assert x == 2 * h + (a + b) % 2;
    LowBitOff(h, (a + b) % 2);
    if j == 0 {
      assert Pow2(0) == 1;
    } else {
      var p := Pow2(j - 1);
      assert Pow2(j) == 2 * p;
      assert BitAt(x, j) == BitAt(h, j - 1) by {
        DivDouble(x, p);
      }
      assert BitAt(a, j) == BitAt(a / 2, j - 1) by {
        DivDouble(a, p);
      }
      assert BitAt(b, j) == BitAt(b / 2, j - 1) by {
        DivDouble(b, p);
      }
      XorBitsBit(a / 2, b / 2, k - 1, j - 1);
    }
  }

  /** Dividing by `2 * p` is halving and then dividing by `p`. */
  lemma DivDouble(x: nat, p: nat)
    requires p > 0
    ensures x / (2 * p) == (x / 2) / p
  {
    var q, r1, r0 := (x / 2) / p, (x / 2) % p, x % 2;
    assert x == 2 * (x / 2) + r0;
    assert x / 2 == p * q + r1;
    assert x == (2 * p) * q + (2 * r1 + r0);
    ModOfDecomposition(x, 2 * p, q, 2 * r1 + r0);
  }

  /** XOR-ing twice with the same bits gives back the value. */
  lemma {:induction false} XorBitsCancel(a: nat, b: nat, k: nat)
    requires a < Pow2(k)
    ensures XorBits(XorBits(a, b, k), b, k) == a
  {
    if k > 0 {
      var half := XorBits(a / 2, b / 2, k - 1);
      var c := XorBits(a, b, k);
      assert c / 2 == half && (c + b) % 2 == a % 2 by {
        assert c == 2 * half + (a + b) % 2;
        LowBitOff(half, (a + b) % 2);
        LowBitCancel(a, b, c);
      }
      assert a / 2 < Pow2(k - 1) by {
        assert a < 2 * Pow2(k - 1);
      }
      calc {
        XorBits(c, b, k);
        2 * XorBits(c / 2, b / 2, k - 1) + (c + b) % 2;
        2 * XorBits(half, b / 2, k - 1) + a % 2;
        { XorBitsCancel(a / 2, b / 2, k - 1); }
        2 * (a / 2) + a % 2;
        { HalfAndLowBit(a); }
        a;
      }
    }
  }

  lemma HalfAndLowBit(a: nat)
    ensures 2 * (a / 2) + a % 2 == a
  {
  }

  lemma LowBitOff(h: nat, bit: nat)
    requires bit < 2
    ensures (2 * h + bit) / 2 == h && (2 * h + bit) % 2 == bit
  {
  }

  lemma LowBitCancel(a: nat, b: nat, c: nat)
    requires c % 2 == (a + b) % 2
    ensures (c + b) % 2 == a % 2
  {
  }

  lemma XorTwice(a: byte, b: byte)
    ensures Xor(Xor(a, b), b) == a
  {
    assert Pow2(8) == 256;
    XorBitsCancel(a as nat, b as nat, 8);
  }
}
