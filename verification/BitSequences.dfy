/** Sequences of bits, most significant first: what a buffer holds, and how integers look in it. */
module BitSequences {
  import opened Bits

  ghost function ByteBits(b: bv8): (r: seq<bool>)
    ensures |r| == 8
  {
    LowBits(b, 8)
  }

  ghost function BitsOf(s: seq<bv8>): (r: seq<bool>)
    ensures |r| == 8 * |s|
  {
    seq(8 * |s|, i requires 0 <= i < 8 * |s| => BitAt(s[i / 8], i % 8))
  }

  ghost function Zeros(n: nat): (r: seq<bool>)
    ensures |r| == n
  {
    seq(n, i => false)
  }

  /** x' is x with the bits from pos on replaced by piece. */
  ghost predicate Overwrites(x: seq<bool>, x': seq<bool>, pos: nat, piece: seq<bool>) {
    && |x'| == |x|
    && pos + |piece| <= |x|
    && forall i | 0 <= i < |x| :: x'[i] == if pos <= i < pos + |piece| then piece[i - pos] else x[i]
  }

  lemma BitsOfBytes(a: seq<bv8>, b: seq<bv8>)
    ensures BitsOf(a + b) == BitsOf(a) + BitsOf(b)
  {
    hide BitAt;
    forall i | 0 <= i < 8 * |a + b| ensures BitsOf(a + b)[i] == (BitsOf(a) + BitsOf(b))[i] {
      if i >= 8 * |a| {
        assert i / 8 == (i - 8 * |a|) / 8 + |a| && i % 8 == (i - 8 * |a|) % 8;
      }
    }
  }

  lemma BitsOfByte(b: bv8)
    ensures BitsOf([b]) == ByteBits(b)
  {
    hide BitAt;
  }

  lemma BitsOfSlice(s: seq<bv8>, from: nat, to: nat)
    requires from <= to <= |s|
    ensures BitsOf(s[from..to]) == BitsOf(s)[8 * from..8 * to]
  {
    BitsOfBytes(s[..from], s[from..to]);
    BitsOfBytes(s[..to], s[to..]);
    assert s[..to] == s[..from] + s[from..to] && s == s[..to] + s[to..];
  }

  lemma BitsOfIsInjective(s: seq<bv8>, t: seq<bv8>)
    requires BitsOf(s) == BitsOf(t)
    ensures s == t
  {
    hide BitAt;
    assert |s| == |t|;
    forall j | 0 <= j < |s| ensures s[j] == t[j] {
      forall k | 0 <= k < 8 ensures BitAt(s[j], k) == BitAt(t[j], k) {
        assert BitsOf(s)[8 * j + k] == BitsOf(t)[8 * j + k];
      }
      SameBits(s[j], t[j]);
    }
  }

  /** The effect on the buffer's bits of writing up to eight bits into bytes cur and cur + 1. */
  lemma WriteBits(s: seq<bv8>, s': seq<bv8>, cur: nat, cb: nat, piece: seq<bool>)
    requires cb < 8 && |piece| <= 8 && 8 * cur + cb + |piece| <= 8 * |s| && |s'| == |s| && cur < |s|
    requires forall j | 0 <= j < |s| && j != cur && !(j == cur + 1 && cb + |piece| > 8) :: s'[j] == s[j]
    requires forall k | 0 <= k < 8 :: BitAt(s'[cur], k) == if cb <= k < cb + |piece| then piece[k - cb] else BitAt(s[cur], k)
    requires cb + |piece| > 8 ==> forall k {:trigger BitAt(s'[cur + 1], k)} | 0 <= k < 8 ::
      BitAt(s'[cur + 1], k) == if k + 8 < cb + |piece| then piece[k + 8 - cb] else BitAt(s[cur + 1], k)
    ensures Overwrites(BitsOf(s), BitsOf(s'), 8 * cur + cb, piece)
  {
    hide BitAt;
    forall i | 0 <= i < 8 * |s|
      ensures BitsOf(s')[i] == if 8 * cur + cb <= i < 8 * cur + cb + |piece| then piece[i - 8 * cur - cb] else BitsOf(s)[i]
    {
      var j, k := i / 8, i % 8;
      assert BitsOf(s')[i] == BitAt(s'[j], k) && BitsOf(s)[i] == BitAt(s[j], k);
      if j == cur {
      } else if j == cur + 1 && cb + |piece| > 8 {
        assert BitAt(s'[cur + 1], k) == if k + 8 < cb + |piece| then piece[k + 8 - cb] else BitAt(s[cur + 1], k);
      } else {
        assert s'[j] == s[j];
      }
    }
  }

  // ---------- integers ----------

  function Pow2(n: nat): (p: nat)
    ensures p > 0
  {
    if n == 0 then 1 else 2 * Pow2(n - 1)
  }

  /** The n low bits of v. */
  ghost function NatBits(v: nat, n: nat): (r: seq<bool>)
    ensures |r| == n
  {
    if n == 0 then [] else NatBits(v / 2, n - 1) + [v % 2 == 1]
  }

  /** The number a bit string denotes. */
  ghost function BitsNat(x: seq<bool>): nat {
    if x == [] then 0 else 2 * BitsNat(x[..|x| - 1]) + (if x[|x| - 1] then 1 else 0)
  }

  lemma {:induction false} NatBitsValue(v: nat, n: nat)
    requires v < Pow2(n)
    ensures BitsNat(NatBits(v, n)) == v
  {
    if n > 0 { NatBitsValue(v / 2, n - 1); }
  }

  lemma {:induction false} BitsNatBits(x: seq<bool>)
    ensures BitsNat(x) < Pow2(|x|) && NatBits(BitsNat(x), |x|) == x
  {
    if x != [] { BitsNatBits(x[..|x| - 1]); }
  }

  lemma {:induction false} Pow2Add(a: nat, b: nat)
    ensures Pow2(a + b) == Pow2(a) * Pow2(b)
  {
    if a > 0 {
      Pow2Add(a - 1, b);
      assert Pow2(a + b) == 2 * Pow2(a - 1 + b);
    }
  }

  lemma Pow2Values()
    ensures Pow2(1) == 2 && Pow2(3) == 8 && Pow2(4) == 16 && Pow2(7) == 128 && Pow2(8) == 0x100
    ensures Pow2(15) == 0x8000 && Pow2(16) == 0x1_0000 && Pow2(24) == 0x100_0000 && Pow2(32) == 0x1_0000_0000
    ensures Pow2(64) == 0x1_0000_0000_0000_0000
  {
    hide Pow2;
    SmallPowers();
    Pow2Add(4, 4); Pow2Add(8, 8); Pow2Add(8, 16); Pow2Add(16, 16); Pow2Add(32, 32); Pow2Add(7, 8); Pow2Add(3, 4);
  }

  lemma SmallPowers()
    ensures Pow2(1) == 2 && Pow2(2) == 4 && Pow2(3) == 8 && Pow2(4) == 16
  {}

  /** v >> n */
  function ShiftRight(v: nat, n: nat): nat {
    if n == 0 then v else ShiftRight(v / 2, n - 1)
  }

  lemma {:induction false} ShiftRightValue(v: nat, n: nat)
    ensures ShiftRight(v, n) == v / Pow2(n)
  {
    if n > 0 {
      ShiftRightValue(v / 2, n - 1);
      DivTwice(v, Pow2(n - 1));
    }
  }

  lemma DivTwice(v: nat, p: nat)
    requires p > 0
    ensures v / 2 / p == v / (2 * p)
  {
    var q, r := v / 2 / p, v / 2 % p;
    assert v == (2 * p) * q + (2 * r + v % 2);
    DivModUnique(v, 2 * p, q, 2 * r + v % 2);
  }

  lemma DivModUnique(v: nat, d: nat, q: nat, r: nat)
    requires d > 0 && v == d * q + r && r < d
    ensures v / d == q && v % d == r
  {
    var q', r' := v / d, v % d;
    assert d * (q' - q) == r - r' && d * (q - q') == r' - r;
    if q < q' { MulGrows(d, q' - q); }
    if q' < q { MulGrows(d, q - q'); }
  }

  lemma MulGrows(d: nat, k: nat)
    requires k > 0
    ensures d * k >= d
  {}

  /** Splitting a number splits its bits. */
  lemma {:induction false} NatBitsSplit(v: nat, a: nat, b: nat)
    ensures NatBits(v, a + b) == NatBits(ShiftRight(v, b), a) + NatBits(v, b)
    decreases b
  {
    if b > 0 { NatBitsSplit(v / 2, a, b - 1); }
  }

  /** Bits above the n-th do not matter. */
  lemma {:induction false} NatBitsModulo(v: nat, w: nat, n: nat)
    requires v % Pow2(n) == w % Pow2(n)
    ensures NatBits(v, n) == NatBits(w, n)
  {
    if n > 0 {
      var p := Pow2(n - 1);
      ModHalf(v, p); ModHalf(w, p);
      NatBitsModulo(v / 2, w / 2, n - 1);
    }
  }

  lemma ModHalf(v: nat, p: nat)
    requires p > 0
    ensures v / 2 % p == v % (2 * p) / 2 && v % (2 * p) % 2 == v % 2
  {
    var q, r := v / 2 / p, v / 2 % p;
    assert v == (2 * p) * q + (2 * r + v % 2);
    DivModUnique(v, 2 * p, q, 2 * r + v % 2);
  }

  lemma LeadingZeros(v: nat, n: nat, m: nat)
    requires v < Pow2(m) && m <= n
    ensures NatBits(v, n) == Zeros(n - m) + NatBits(v, m)
  {
    NatBitsSplit(v, n - m, m);
    ShiftRightValue(v, m);
    DivModUnique(v, Pow2(m), 0, v);
    ZeroBits(n - m);
  }

  lemma {:induction false} ZeroBits(n: nat)
    ensures NatBits(0, n) == Zeros(n)
  {
    if n > 0 { ZeroBits(n - 1); }
  }

  /** A byte's bits are the bits of its value. */
  lemma ByteBitsValue(b: bv8)
    ensures ByteBits(b) == NatBits(b as nat, 8)
  {
    ByteValue(b);
    var v := b as nat;
    BitsNatBits(ByteBits(b));
    BitsNatEight(ByteBits(b));
  }

  lemma BitsNatEight(x: seq<bool>)
    requires |x| == 8
    ensures BitsNat(x) == (if x[0] then 128 else 0) + (if x[1] then 64 else 0) + (if x[2] then 32 else 0) + (if x[3] then 16 else 0)
                        + (if x[4] then 8 else 0) + (if x[5] then 4 else 0) + (if x[6] then 2 else 0) + (if x[7] then 1 else 0)
  {
    hide BitsNat;
    BitsNatStep(x, 8); BitsNatStep(x, 7); BitsNatStep(x, 6); BitsNatStep(x, 5);
    BitsNatStep(x, 4); BitsNatStep(x, 3); BitsNatStep(x, 2); BitsNatStep(x, 1);
  }

  lemma BitsNatStep(x: seq<bool>, n: nat)
    requires 0 < n <= |x|
    ensures BitsNat(x[..n]) == 2 * BitsNat(x[..n - 1]) + (if x[n - 1] then 1 else 0)
    ensures n == 1 ==> BitsNat(x[..n - 1]) == 0
    ensures n == |x| ==> x[..n] == x
  {
    assert x[..n][..n - 1] == x[..n - 1];
  }
}
