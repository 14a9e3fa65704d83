/**
 The rolling fingerprint: Java's 64-bit arithmetic with wrap-around and signed
 remainders, against the plain polynomial of the current window.
 */
module Fingerprint {

  newtype Byte = x: int | -0x80 <= x < 0x80

  const Q: int := 0x1_0000_0000

  /** byte & 0xFF */
  function Unsigned(b: Byte): (v: int)
    ensures 0 <= v < 0x100
  {
    if b < 0 then b as int + 0x100 else b as int
  }

  /** The value of a long after an overflowing operation. */
  function Wrap64(x: int): (v: int)
    ensures -0x8000_0000_0000_0000 <= v < 0x8000_0000_0000_0000
  {
    (x + 0x8000_0000_0000_0000) % 0x1_0000_0000_0000_0000 - 0x8000_0000_0000_0000
  }

  function Wrap32(x: int): (v: int)
    ensures -0x8000_0000 <= v < 0x8000_0000
  {
    (x + 0x8000_0000) % Q - 0x8000_0000
  }

  /** Java's %: the result has the sign of the dividend. */
  function Rem(a: int, q: int): (r: int)
    requires q > 0
    ensures -q < r < q
  {
    if a >= 0 then a % q else -((-a) % q)
  }

  /** Congruence modulo 2^32. */
  predicate Cong(a: int, b: int) {
    (a - b) % Q == 0
  }

  ghost function IntPow(d: int, k: nat): int {
    if k == 0 then 1 else d * IntPow(d, k - 1)
  }

  /** The polynomial of a window, most significant byte first, over the integers. */
  ghost function Poly(window: seq<Byte>, d: int): int {
    if window == [] then 0
    else d * Poly(window[..|window| - 1], d) + Unsigned(window[|window| - 1])
  }

  ghost function Pow2(k: nat): (p: nat)
    ensures p >= 1
  {
    if k == 0 then 1 else 2 * Pow2(k - 1)
  }

  // ---- what the arithmetic means, in plain numbers

  lemma WrapsAndRemainders(x: int, q: int)
    requires q > 0
    ensures (Wrap64(x) - x) % 18446744073709551616 == 0 && (Wrap32(x) - x) % 4294967296 == 0
    ensures Rem(x, q) == if x >= 0 then x % q else -((0 - x) % q)
  {
    var k := (x + 0x8000_0000_0000_0000) / 0x1_0000_0000_0000_0000;
    assert Wrap64(x) - x == -k * 18446744073709551616;
    Wrap32IsCongruent(x);
    hide Wrap32;
  }

  lemma Wrap32IsCongruent(x: int)
    ensures (Wrap32(x) - x) % 4294967296 == 0
  {
    var j := (x + 0x8000_0000) / 0x1_0000_0000;
    assert Wrap32(x) - x == -j * 4294967296;
  }

  /** Each byte counts with its residue modulo 256, the last one least. */
  lemma PolyOfBytes(window: seq<Byte>, t: Byte, d: int)
    ensures Poly([], d) == 0
    ensures Poly(window + [t], d) == d * Poly(window, d) + t as int % 0x100
  {
    assert (window + [t])[..|window|] == window;
    ByteResidue(t);
  }

  lemma ByteResidue(t: Byte)
    ensures Unsigned(t) == t as int % 0x100 && (Unsigned(t) - t as int) % 0x100 == 0
  {
  }

  /** The anchor test on a window of two bytes, in full. */
  lemma AnchorOfTwoBytes(h: Byte, t: Byte, d: int, b: int)
    ensures IsAnchor([h, t], d, b) <==>
              ((h as int % 0x100) * d + (t as int % 0x100)) % Pow2(if b <= 0 then 0 else if b < 32 then b else 32) == 0
  {
    hide Poly, Pow2;
    PolyOfTwoBytes(h, t, d);
  }

  lemma PolyOfTwoBytes(h: Byte, t: Byte, d: int)
    ensures Poly([h, t], d) == (h as int % 0x100) * d + t as int % 0x100
  {
    hide Poly;
    PolyOfBytes([], h, d);
    PolyOfBytes([h], t, d);
    assert [] + [h] == [h] && [h] + [t] == [h, t];
  }

  /** The bytes 01 FD form an anchor for base 3 and two bits, and FD counts 253. */
  lemma HighByteExample()
    ensures IsAnchor([1, -3], 3, 2)
  {
    AnchorOfTwoBytes(1, -3, 3, 2);
    assert Pow2(2) == 4;
  }

  // ---- congruence

  lemma CongIntro(a: int, b: int, k: int)
    requires a - b == Q * k
    ensures Cong(a, b)
  {
  }

  lemma CongElim(a: int, b: int) returns (k: int)
    requires Cong(a, b)
    ensures a - b == Q * k
  {
    k := (a - b) / Q;
  }

  lemma CongTrans(a: int, b: int, c: int)
    requires Cong(a, b) && Cong(b, c)
    ensures Cong(a, c)
  {
  }

  lemma CongMul(a: int, b: int, c: int)
    requires Cong(a, b)
    ensures Cong(a * c, b * c) && Cong(c * a, c * b)
  {
    var k := CongElim(a, b);
    assert a * c - b * c == (a - b) * c;
    assert (Q * k) * c == Q * (k * c);
    CongIntro(a * c, b * c, k * c);
    assert c * a == a * c && c * b == b * c;
  }

  lemma CongProduct(a: int, b: int, c: int, e: int)
    requires Cong(a, b) && Cong(c, e)
    ensures Cong(a * c, b * e)
  {
    CongMul(a, b, c);
    CongMul(c, e, b);
    CongTrans(a * c, b * c, b * e);
  }

  lemma CongAdd(a: int, b: int, c: int, d: int)
    requires Cong(a, b) && Cong(c, d)
    ensures Cong(a + c, b + d) && Cong(a - c, b - d)
  {
  }

  lemma WrapCong(x: int)
    ensures Cong(Wrap64(x), x)
  {
    var k := (x + 0x8000_0000_0000_0000) / 0x1_0000_0000_0000_0000;
    assert Wrap64(x) == x - 0x1_0000_0000_0000_0000 * k;
    CongIntro(Wrap64(x), x, -Q * k);
  }

  lemma RemCong(a: int)
    ensures Cong(Rem(a, Q), a)
  {
    if a < 0 {
      CongIntro(Rem(a, Q), a, (-a) / Q);
    } else {
      CongIntro(Rem(a, Q), a, -(a / Q));
    }
  }

  /** (a * b) % q on longs. */
  function MulRem(a: int, b: int): (r: int)
    ensures -Q < r < Q
  {
    Rem(Wrap64(a * b), Q)
  }

  lemma MulRemCong(a: int, b: int)
    ensures Cong(MulRem(a, b), a * b)
  {
    WrapCong(a * b);
    RemCong(Wrap64(a * b));
    CongTrans(MulRem(a, b), Wrap64(a * b), a * b);
  }

  lemma Distribute(d: int, h: int, p: int, r: int)
    ensures d * (h * p + r) == h * (d * p) + d * r
  {
    assert d * (h * p) == h * (d * p);
  }

  // ---- the polynomial of a sliding window

  lemma {:induction false} PolyHead(window: seq<Byte>, d: int)
    requires window != []
    ensures Poly(window, d) == Unsigned(window[0]) * IntPow(d, |window| - 1) + Poly(window[1..], d)
  {
    var n := |window|;
    if n == 1 {
      assert window[..0] == [] && window[1..] == [];
    } else {
      var front := window[..n - 1];
      PolyHead(front, d);
      assert front[1..] == window[1..][..n - 2];
      assert window[1..][n - 2] == window[n - 1];
      Distribute(d, Unsigned(window[0]), IntPow(d, n - 2), Poly(front[1..], d));
    }
  }

  /** Sliding by one byte. */
  lemma PolySlide(window: seq<Byte>, t: Byte, d: int)
    requires window != []
    ensures Poly(window[1..] + [t], d)
            == d * Poly(window, d) - Unsigned(window[0]) * IntPow(d, |window|) + Unsigned(t)
  {
    PolyHead(window, d);
    assert (window[1..] + [t])[..|window| - 1] == window[1..];
    SlideTerms(d, Unsigned(window[0]), IntPow(d, |window| - 1), Poly(window[1..], d), Poly(window, d));
  }

  lemma SlideTerms(d: int, h: int, p: int, r: int, x: int)
    requires x == h * p + r
    ensures d * r == d * x - h * (d * p)
  {
    Distribute(d, h, p, r);
  }

  lemma {:induction false} IntPowSquare(d: int, k: nat)
    ensures IntPow(d * d, k) == IntPow(d, 2 * k)
  {
    if k > 0 {
      IntPowSquare(d, k - 1);
      var p := IntPow(d, 2 * k - 2);
      assert IntPow(d, 2 * k) == d * IntPow(d, 2 * k - 1) == d * (d * p);
      assert d * (d * p) == (d * d) * p;
    }
  }

  lemma {:induction false} IntPowCong(a: int, b: int, k: nat)
    requires Cong(a, b)
    ensures Cong(IntPow(a, k), IntPow(b, k))
  {
    if k > 0 {
      IntPowCong(a, b, k - 1);
      CongMul(IntPow(a, k - 1), IntPow(b, k - 1), a);
      CongMul(a, b, IntPow(b, k - 1));
      CongTrans(a * IntPow(a, k - 1), a * IntPow(b, k - 1), b * IntPow(b, k - 1));
    }
  }

  /** One squaring step of square-and-multiply. */
  lemma SquareStep(p: int, p': int, d: int, d': int, m: nat, goal: int)
    requires m > 0 && Cong(p * IntPow(d, m), goal)
    requires p' == if m % 2 == 1 then MulRem(p, d) else p
    requires d' == MulRem(d, d)
    ensures Cong(p' * IntPow(d', m / 2), goal)
  {
    var h := m / 2;
    var e := IntPow(d, 2 * h);
    MulRemCong(d, d);
    IntPowCong(d', d * d, h);
    IntPowSquare(d, h);
    if m % 2 == 1 {
      MulRemCong(p, d);
      CongProduct(p', p * d, IntPow(d', h), e);
      assert IntPow(d, m) == d * e;
      MulAssoc(p, d, e);
    } else {
      assert m == 2 * h;
      CongProduct(p', p, IntPow(d', h), e);
    }
    CongTrans(p' * IntPow(d', h), p * IntPow(d, m), goal);
  }

  lemma MulAssoc(a: int, b: int, c: int)
    ensures (a * b) * c == a * (b * c)
  {
  }

  // ---- the values the rolling code computes

  ghost function Horner(f: int, t: Byte, d: int): (r: int) {
    Rem(MulRem(f, d) + Unsigned(t), Q)
  }

  /** firstRFP of a window, byte by byte. */
  ghost function FirstRFP(window: seq<Byte>, d: int): (r: int)
    requires window != []
  {
    if |window| == 1 then Unsigned(window[0])
    else Horner(FirstRFP(window[..|window| - 1], d), window[|window| - 1], d)
  }

  /** firstRFP after dropping `head` and taking `tail`. */
  ghost function NextRFP(f: int, head: Byte, tail: Byte, d: int, dPowerM: int): (r: int) {
    Rem(Rem(MulRem(d, f) - MulRem(Unsigned(head), dPowerM), Q) + Unsigned(tail), Q)
  }

  /** The rolling fingerprint after `k` slides over a file. */
  ghost function RolledRFP(file: seq<Byte>, m: nat, d: int, dPowerM: int, k: nat): (r: int)
    requires 1 <= m && k + m <= |file|
  {
    if k == 0 then FirstRFP(file[..m], d)
    else NextRFP(RolledRFP(file, m, d, dPowerM, k - 1), file[k - 1], file[k - 1 + m], d, dPowerM)
  }

  lemma {:induction false} FirstRFPCong(window: seq<Byte>, d: int)
    requires window != []
    ensures Cong(FirstRFP(window, d), Poly(window, d))
  {
    var n := |window|;
    if n == 1 {
      assert window[..0] == [];
    } else {
      var front := window[..n - 1];
      FirstRFPCong(front, d);
      var f, p, t := FirstRFP(front, d), Poly(front, d), Unsigned(window[n - 1]);
      MulRemCong(f, d);
      CongMul(f, p, d);
      CongTrans(MulRem(f, d), f * d, p * d);
      CongAdd(MulRem(f, d), p * d, t, t);
      RemCong(MulRem(f, d) + t);
      CongTrans(FirstRFP(window, d), MulRem(f, d) + t, p * d + t);
    }
  }

  /** The arithmetic of one slide, whatever the numbers stand for. */
  lemma SlideCong(f: int, p: int, h: int, dPowerM: int, e: int, t: int, d: int)
    requires Cong(f, p) && Cong(dPowerM, e)
    ensures Cong(Rem(Rem(MulRem(d, f) - MulRem(h, dPowerM), Q) + t, Q), d * p - h * e + t)
  {
    MulRemCong(d, f);
    CongMul(f, p, d);
    CongTrans(MulRem(d, f), d * f, d * p);
    MulRemCong(h, dPowerM);
    CongMul(dPowerM, e, h);
    CongTrans(MulRem(h, dPowerM), h * dPowerM, h * e);
    CongAdd(MulRem(d, f), d * p, MulRem(h, dPowerM), h * e);
    SubRemCong(MulRem(d, f) - MulRem(h, dPowerM), d * p - h * e, t);
  }

  lemma SubRemCong(x: int, y: int, t: int)
    requires Cong(x, y)
    ensures Cong(Rem(Rem(x, Q) + t, Q), y + t)
  {
    RemCong(x);
    CongTrans(Rem(x, Q), x, y);
    CongAdd(Rem(x, Q), y, t, t);
    RemCong(Rem(x, Q) + t);
    CongTrans(Rem(Rem(x, Q) + t, Q), Rem(x, Q) + t, y + t);
  }

  lemma NextRFPCong(f: int, window: seq<Byte>, tail: Byte, d: int, dPowerM: int)
    requires window != [] && Cong(f, Poly(window, d)) && Cong(dPowerM, IntPow(d, |window|))
    ensures Cong(NextRFP(f, window[0], tail, d, dPowerM), Poly(window[1..] + [tail], d))
  {
    SlideCong(f, Poly(window, d), Unsigned(window[0]), dPowerM, IntPow(d, |window|), Unsigned(tail), d);
    PolySlide(window, tail, d);
  }

  /** After any number of slides the rolling value is the polynomial of the window, modulo 2^32. */
  lemma {:induction false} RollingIsDirect(file: seq<Byte>, m: nat, d: int, dPowerM: int, k: nat)
    requires 1 <= m && k + m <= |file| && Cong(dPowerM, IntPow(d, m))
    ensures Cong(RolledRFP(file, m, d, dPowerM, k), Poly(file[k..k + m], d))
  {
    if k == 0 {
      FirstRFPCong(file[..m], d);
    } else {
      RollingIsDirect(file, m, d, dPowerM, k - 1);
      var window := file[k - 1..k - 1 + m];
      NextRFPCong(RolledRFP(file, m, d, dPowerM, k - 1), window, file[k - 1 + m], d, dPowerM);
      assert window[1..] + [file[k - 1 + m]] == file[k..k + m];
    }
  }

  // ---- the anchor test

  /** Bitwise and of two natural numbers. */
  function BitAnd(x: nat, y: nat): (r: nat) {
    if x == 0 || y == 0 then 0
    else 2 * BitAnd(x / 2, y / 2) + (if x % 2 == 1 && y % 2 == 1 then 1 else 0)
  }

  lemma {:induction false} BitAndOnes(x: nat, b: nat)
    ensures BitAnd(x, Pow2(b) - 1) == x % Pow2(b)
  {
    if b == 0 {
      assert Pow2(b) == 1;
    } else if x == 0 {
      ModUnique(0, Pow2(b), 0, 0);
    } else {
      BitAndOnes(x / 2, b - 1);
      HalveOnes(Pow2(b - 1));
      ModTwice(x, Pow2(b - 1));
    }
  }

  lemma HalveOnes(p: nat)
    requires p > 0
    ensures (2 * p - 1) / 2 == p - 1 && (2 * p - 1) % 2 == 1
  {
  }

  lemma ModTwice(x: nat, p: nat)
    requires p > 0
    ensures x % (2 * p) == 2 * ((x / 2) % p) + x % 2
  {
    var h := x / 2;
    var k, r := h / p, h % p;
    assert h == p * k + r;
    assert (2 * p) * k == 2 * (p * k);
    ModUnique(x, 2 * p, k, 2 * r + x % 2);
  }

  lemma MulAtLeast(p: nat, j: int)
    requires j >= 1
    ensures p * j >= p
  {
  }

  lemma ModUnique(x: int, p: nat, k: int, r: int)
    requires p > 0 && x == p * k + r && 0 <= r < p
    ensures x % p == r
  {
    var k', r' := x / p, x % p;
    assert x == p * k' + r';
    DistributeSub(p, k, k');
    DistributeSub(p, k', k);
    if k > k' {
      MulAtLeast(p, k - k');
    } else if k < k' {
      MulAtLeast(p, k' - k);
    }
  }

  lemma DistributeSub(p: int, a: int, b: int)
    ensures p * (a - b) == p * a - p * b
  {
  }

  lemma Wrap32Low(x: int)
    ensures Wrap32(x) % Q == x % Q
  {
    var k := (x + 0x8000_0000) / Q;
    ModUnique(Wrap32(x), Q, x / Q - k, x % Q);
  }

  /** Number of low bits an anchor mask keeps; the shifts drop everything above 32. */
  function MaskBits(b: int): (bits: nat)
    ensures bits <= 32
  {
    if b <= 0 then 0 else if b >= 32 then 32 else b
  }

  lemma {:induction false} Pow2Splits(a: nat, b: nat)
    ensures Pow2(a + b) == Pow2(a) * Pow2(b)
  {
    if a > 0 {
      Pow2Splits(a - 1, b);
      MulAssoc(2, Pow2(a - 1), Pow2(b));
    }
  }

  lemma Pow2Is32()
    ensures Pow2(32) == Q
  {
    assert Pow2(8) == 0x100;
    Pow2Splits(8, 8);
    Pow2Splits(16, 16);
  }

  /** Congruence modulo 2^32 fixes every residue modulo a smaller power of two. */
  lemma CongLowBits(x: int, y: int, b: nat)
    requires Cong(x, y) && b <= 32
    ensures x % Pow2(b) == y % Pow2(b)
  {
    var k := CongElim(x, y);
    Pow2Is32();
    Pow2Splits(b, 32 - b);
    MultipleKeepsResidue(x, y, Pow2(b), Pow2(32 - b), k);
  }

  lemma MultipleKeepsResidue(x: int, y: int, p: nat, c: nat, k: int)
    requires p > 0 && x - y == (p * c) * k
    ensures x % p == y % p
  {
    var j, r := y / p, y % p;
    assert (p * c) * k == p * (c * k);
    assert y == p * j + r;
    assert p * (c * k + j) == p * (c * k) + p * j;
    ModUnique(x, p, c * k + j, r);
  }

  /** A mask of ones tests whether that many low bits of the fingerprint are zero. */
  lemma MaskedBits(rfp: int, mask: int, bits: nat)
    requires bits <= 32 && mask % Q == Pow2(bits) - 1
    ensures BitAnd(Wrap32(rfp) % Q, mask % Q) == rfp % Pow2(bits)
  {
    Wrap32Low(rfp);
    BitAndOnes(rfp % Q, bits);
    CongIntro(rfp % Q, rfp, -(rfp / Q));
    CongLowBits(rfp % Q, rfp, bits);
  }

  /** ((int) rfp & mask) == 0, on the 32-bit patterns of both operands. */
  predicate PassesMask(rfp: int, mask: int) {
    BitAnd(Wrap32(rfp) % Q, mask % Q) == 0
  }

  /** The anchor test on the true hash of a window. */
  ghost predicate IsAnchor(window: seq<Byte>, d: int, b: int) {
    Poly(window, d) % Pow2(MaskBits(b)) == 0
  }

  /** The test on the rolling value is the test on the true hash. */
  lemma AnchorTestIsDirect(rfp: int, window: seq<Byte>, d: int, b: int, mask: int)
    requires Cong(rfp, Poly(window, d)) && mask % Q == Pow2(MaskBits(b)) - 1
    ensures PassesMask(rfp, mask) <==> IsAnchor(window, d, b)
  {
    hide BitAnd, Pow2, Poly, Cong, Wrap32;
    MaskedBits(rfp, mask, MaskBits(b));
    CongLowBits(rfp, Poly(window, d), MaskBits(b));
  }

  /** So is divisibility of the rolling value itself. */
  lemma DivisibleIsAnchor(rfp: int, window: seq<Byte>, d: int, b: int, mask: int)
    requires Cong(rfp, Poly(window, d)) && mask % Q == Pow2(MaskBits(b)) - 1
    ensures rfp % Pow2(MaskBits(b)) == 0 <==> IsAnchor(window, d, b)
  {
    hide BitAnd, Pow2, Poly, Cong, Wrap32;
    AnchorTestIsDirect(rfp, window, d, b, mask);
    MaskedBits(rfp, mask, MaskBits(b));
  }
}
