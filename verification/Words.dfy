/**
 Machine words, bytes and bit sequences.

 Words are non-negative integers below a power of two; every wrap-around is written out.
 The bit sequence of a word is big endian: the most significant bit comes first.
 Everything the streams do with 64-bit shifts is proved equal to slicing such sequences.
 */
module Words {

  type byte = x: int | 0 <= x < 0x100
  type u16 = x: int | 0 <= x < 0x1_0000
  type u32 = x: int | 0 <= x < 0x1_0000_0000
  type u64 = x: int | 0 <= x < 0x1_0000_0000_0000_0000

  function Pow2(n: nat): (p: nat)
    ensures p > 0
  {
    if n == 0 then 1 else 2 * Pow2(n - 1)
  }

  /** The `n` low bits of `v`, most significant first. */
  function BitsOf(v: nat, n: nat): (b: seq<bool>)
    ensures |b| == n
  {
    if n == 0 then [] else BitsOf(v / 2, n - 1) + [v % 2 == 1]
  }

  /** The number a big-endian bit sequence denotes. */
  function Val(b: seq<bool>): nat {
    if b == [] then 0 else 2 * Val(b[..|b| - 1]) + (if b[|b| - 1] then 1 else 0)
  }

  function Zeros(n: nat): (b: seq<bool>)
    ensures |b| == n
    ensures forall i :: 0 <= i < n ==> !b[i]
  {
    seq(n, _ => false)
  }

  /** The bits of a byte string, in stream order. */
  function Bits(s: seq<byte>): (b: seq<bool>)
    ensures |b| == 8 * |s|
  {
    if s == [] then [] else BitsOf(s[0], 8) + Bits(s[1..])
  }

  function ZeroBytes(n: nat): (s: seq<byte>)
    ensures |s| == n
    ensures forall i :: 0 <= i < n ==> s[i] == 0
  {
    seq(n, _ => 0)
  }

  // ---- Machine operations ----

  /** `w >> k`, one bit at a time; ShiftRightIsDivision says it is division by a power of two. */
  function ShiftRight(w: nat, k: nat): nat {
    if k == 0 then w else ShiftRight(w / 2, k - 1)
  }

  /** The `k` low bits of `w`; LowIsRemainder says it is the remainder by a power of two. */
  function Low(w: nat, k: nat): nat {
    if k == 0 then 0 else 2 * Low(w / 2, k - 1) + w % 2
  }

  /** `w << k` on a `width`-bit word. */
  function ShiftLeft(w: nat, k: nat, width: nat): nat {
    Low(w * Pow2(k), width)
  }

  /** `a | b`. */
  function Or(a: nat, b: nat): nat
    decreases a + b
  {
    if a == 0 && b == 0 then 0
    else 2 * Or(a / 2, b / 2) + (if a % 2 == 1 || b % 2 == 1 then 1 else 0)
  }

  /** Memory image of an `n`-byte word on a big-endian host. */
  function BigEndian(w: nat, n: nat): (s: seq<byte>)
    ensures |s| == n
  {
    if n == 0 then [] else BigEndian(w / 256, n - 1) + [w % 256]
  }

  function FromBigEndian(s: seq<byte>): nat {
    if s == [] then 0 else 256 * FromBigEndian(s[..|s| - 1]) + s[|s| - 1]
  }

  /** Memory image of an `n`-byte word on the modelled, little-endian, host. */
  function StoreWord(w: nat, n: nat): (s: seq<byte>)
    ensures |s| == n
  {
    if n == 0 then [] else [w % 256] + StoreWord(w / 256, n - 1)
  }

  /** The word a little-endian host loads from memory. */
  function LoadWord(s: seq<byte>): nat {
    if s == [] then 0 else s[0] + 256 * LoadWord(s[1..])
  }

  /** `byteswapBE` on a little-endian host: the word whose memory image is the mirror image. */
  function ByteSwap(w: nat, n: nat): nat {
    LoadWord(BigEndian(w, n))
  }

  // ---- Bit sequences and numbers ----

  lemma {:induction false} ValBound(b: seq<bool>)
    ensures Val(b) < Pow2(|b|)
  {
    if b != [] { ValBound(b[..|b| - 1]); }
  }

  lemma {:induction false} ValBitsOf(v: nat, n: nat)
    ensures Val(BitsOf(v, n)) == Low(v, n)
  {
    if n > 0 {
      ValBitsOf(v / 2, n - 1);
      assert BitsOf(v, n)[..n - 1] == BitsOf(v / 2, n - 1);
    }
  }

  lemma {:induction false} LowShift(v: nat, n: nat)
    ensures v == ShiftRight(v, n) * Pow2(n) + Low(v, n)
    ensures Low(v, n) < Pow2(n)
  {
    if n > 0 {
      LowShift(v / 2, n - 1);
      var q, p := ShiftRight(v, n), Pow2(n - 1);
      assert 2 * (q * p) == q * (2 * p);
    }
  }

  lemma Gap(e: int, d: nat)
    ensures e > 0 ==> e * d >= d
    ensures e < 0 ==> e * d + d <= 0
  {
  }

  lemma DivModUnique(v: nat, d: nat, q: nat, r: nat)
    requires d > 0 && r < d && v == q * d + r
    ensures v / d == q && v % d == r
  {
    var e := v / d - q;
    assert v == (v / d) * d + v % d;
    assert e * d == (v / d) * d - q * d;
    Gap(e, d);
  }

  lemma Distribute(q: nat, r: nat, a: nat, b: nat)
    requires r < b
    ensures (q * b + r) * a == q * (a * b) + r * a
    ensures r * a + a <= a * b
  {
    assert (r + 1) * a <= b * a;
    assert q * b * a == q * (a * b);
  }

  lemma DivDiv(w: nat, a: nat, b: nat)
    requires a > 0 && b > 0
    ensures w / (a * b) == w / a / b
  {
    var q, r := w / a / b, w / a % b;
    assert w / a == q * b + r;
    assert w == w / a * a + w % a;
    Distribute(q, r, a, b);
    DivModUnique(w, a * b, q, r * a + w % a);
  }

  /** The shift is division and the mask is the remainder. */
  lemma ShiftRightIsDivision(v: nat, n: nat)
    ensures ShiftRight(v, n) == v / Pow2(n)
    ensures Low(v, n) == v % Pow2(n)
  {
    LowShift(v, n);
    DivModUnique(v, Pow2(n), ShiftRight(v, n), Low(v, n));
  }

  lemma {:induction false} LowOfSmall(v: nat, n: nat)
    requires v < Pow2(n)
    ensures Low(v, n) == v && ShiftRight(v, n) == 0
  {
    if n > 0 { LowOfSmall(v / 2, n - 1); }
  }

  lemma {:induction false} BitsOfVal(b: seq<bool>)
    ensures BitsOf(Val(b), |b|) == b
  {
    if b != [] {
      BitsOfVal(b[..|b| - 1]);
      assert b == b[..|b| - 1] + [b[|b| - 1]];
    }
  }

  lemma {:induction false} BitsOfSplit(v: nat, m: nat, n: nat)
    ensures BitsOf(v, m + n) == BitsOf(ShiftRight(v, n), m) + BitsOf(v, n)
  {
    if n > 0 {
      BitsOfSplit(v / 2, m, n - 1);
      assert BitsOf(v, m + n) == BitsOf(v / 2, m + (n - 1)) + [v % 2 == 1];
    } else {
      assert BitsOf(v, m) + [] == BitsOf(v, m);
    }
  }

  lemma {:induction false} BitsOfLow(v: nat, m: nat, n: nat)
    requires n <= m
    ensures BitsOf(Low(v, m), n) == BitsOf(v, n)
  {
    if n > 0 { BitsOfLow(v / 2, m - 1, n - 1); }
  }

  lemma {:induction false} BitsOfZero(n: nat)
    ensures BitsOf(0, n) == Zeros(n)
  {
    if n > 0 { BitsOfZero(n - 1); }
  }

  lemma BitsOfSmall(v: nat, k: nat, n: nat)
    requires v < Pow2(n)
    ensures BitsOf(v, k + n) == Zeros(k) + BitsOf(v, n)
  {
    BitsOfSplit(v, k, n);
    LowOfSmall(v, n);
    BitsOfZero(k);
  }

  /** Equal low bits mean equal numbers: the bit view loses nothing. */
  lemma BitsOfInjective(v: nat, w: nat, n: nat)
    requires v < Pow2(n) && w < Pow2(n)
    requires BitsOf(v, n) == BitsOf(w, n)
    ensures v == w
  {
    ValBitsOf(v, n);
    ValBitsOf(w, n);
    LowOfSmall(v, n);
    LowOfSmall(w, n);
  }

  // ---- Machine operations on bit sequences ----

  lemma {:induction false} BitsOfTimes(v: nat, k: nat, n: nat)
    requires k <= n
    ensures BitsOf(v * Pow2(k), n) == BitsOf(v, n - k) + Zeros(k)
  {
    if k > 0 {
      var x := v * Pow2(k - 1);
      assert v * Pow2(k) == 2 * x;
      BitsOfTimes(v, k - 1, n - 1);
      assert BitsOf(v, n - k) + Zeros(k) == BitsOf(v, n - k) + Zeros(k - 1) + [false];
    } else {
      assert v * Pow2(0) == v;
    }
  }

  lemma ShiftLeftBits(w: nat, k: nat, width: nat)
    requires k <= width
    ensures BitsOf(ShiftLeft(w, k, width), width) == BitsOf(w, width)[k..] + Zeros(k)
  {
    BitsOfLow(w * Pow2(k), width, width);
    BitsOfTimes(w, k, width);
    BitsOfSplit(w, k, width - k);
  }

  lemma ShiftRightBits(w: nat, k: nat, width: nat)
    requires k <= width && w < Pow2(width)
    ensures BitsOf(ShiftRight(w, k), width) == Zeros(k) + BitsOf(w, width)[..width - k]
  {
    BitsOfSplit(w, width, k);
    BitsOfSmall(w, k, width);
    var b := BitsOf(w, width);
    assert (Zeros(k) + b)[..width] == Zeros(k) + b[..width - k];
    assert BitsOf(ShiftRight(w, k), width) == BitsOf(w, width + k)[..width];
  }

  function OrBits(a: seq<bool>, b: seq<bool>): (r: seq<bool>)
    requires |a| == |b|
    ensures |r| == |a|
  {
    seq(|a|, i requires 0 <= i < |a| => a[i] || b[i])
  }

  lemma {:induction false} OrOnBits(a: nat, b: nat, n: nat)
    ensures BitsOf(Or(a, b), n) == OrBits(BitsOf(a, n), BitsOf(b, n))
  {
    if n > 0 {
      OrOnBits(a / 2, b / 2, n - 1);
      assert Or(a, b) / 2 == Or(a / 2, b / 2);
    }
  }

  lemma {:induction false} OrBound(a: nat, b: nat, n: nat)
    requires a < Pow2(n) && b < Pow2(n)
    ensures Or(a, b) < Pow2(n)
  {
    if n > 0 { OrBound(a / 2, b / 2, n - 1); }
  }

  /** OR of fields that do not overlap is their sum. */
  lemma {:induction false} OrDisjoint(a: nat, b: nat, k: nat)
    requires a < Pow2(k)
    ensures Or(a, b * Pow2(k)) == a + b * Pow2(k)
  {
    if k == 0 {
      OrZero(b);
    } else {
      var x := b * Pow2(k - 1);
      assert b * Pow2(k) == 2 * x;
      OrDisjoint(a / 2, b, k - 1);
    }
  }

  lemma {:induction false} OrCommutes(a: nat, b: nat)
    ensures Or(a, b) == Or(b, a)
    decreases a + b
  {
    if a != 0 || b != 0 { OrCommutes(a / 2, b / 2); }
  }

  /** A field of `w` bits ORed below what was collected so far. */
  lemma OrBelow(m: nat, v: nat, w: nat, k: nat)
    requires v < Pow2(w)
    ensures Or(m * Pow2(k + w), v * Pow2(k)) == (m * Pow2(w) + v) * Pow2(k)
  {
    hide Or, Pow2;
    Pow2Sum(k, w);
    OrCommutes(m * Pow2(k + w), v * Pow2(k));
    ScaledBelow(v, Pow2(w), Pow2(k));
    OrDisjoint(v * Pow2(k), m, k + w);
    Regroup(m, Pow2(w), Pow2(k), v);
  }

  lemma ScaledBelow(v: nat, a: nat, b: nat)
    requires v < a && b > 0
    ensures v * b < a * b
  {
    assert (a - v) * b > 0;
  }

  lemma Regroup(m: nat, a: nat, b: nat, v: nat)
    ensures m * (b * a) + v * b == (m * a + v) * b
  {
    assert m * (b * a) == m * a * b;
  }

  lemma {:induction false} OrZero(b: nat)
    ensures Or(0, b) == b
  {
    if b > 0 { OrZero(b / 2); }
  }

  // ---- Bytes ----

  lemma {:induction false} BitsConcat(a: seq<byte>, b: seq<byte>)
    ensures Bits(a + b) == Bits(a) + Bits(b)
  {
    if a == [] {
      assert a + b == b;
    } else {
      BitsConcat(a[1..], b);
      assert (a + b)[1..] == a[1..] + b;
    }
  }

  lemma BitsSlice(s: seq<byte>, i: nat, j: nat)
    requires i <= j <= |s|
    ensures Bits(s)[8 * i..8 * j] == Bits(s[i..j])
  {
    hide Bits;
    var x, y, z := Parts(s, i, j);
    BitsConcat(x + y, z);
    BitsConcat(x, y);
    MiddlePart(Bits(x), Bits(y), Bits(z));
  }

  lemma Parts(s: seq<byte>, i: nat, j: nat) returns (x: seq<byte>, y: seq<byte>, z: seq<byte>)
    requires i <= j <= |s|
    ensures s == x + y + z && |x| == i && |y| == j - i && y == s[i..j]
  {
    x, y, z := s[..i], s[i..j], s[j..];
  }

  lemma MiddlePart(x: seq<bool>, y: seq<bool>, z: seq<bool>)
    ensures (x + y + z)[|x|..|x| + |y|] == y
  {
  }

  lemma {:induction false} BitsZeroBytes(n: nat)
    ensures Bits(ZeroBytes(n)) == Zeros(8 * n)
  {
    if n > 0 {
      assert ZeroBytes(n)[1..] == ZeroBytes(n - 1);
      BitsZeroBytes(n - 1);
      BitsOfZero(8);
    }
  }

  lemma {:induction false} BitsInjective(a: seq<byte>, b: seq<byte>)
    requires Bits(a) == Bits(b)
    ensures a == b
  {
    assert |a| == |b|;
    if a != [] {
      assert Bits(a)[..8] == BitsOf(a[0], 8) && Bits(b)[..8] == BitsOf(b[0], 8);
      assert Bits(a)[8..] == Bits(a[1..]) && Bits(b)[8..] == Bits(b[1..]);
      BitsOfInjective(a[0], b[0], 8);
      BitsInjective(a[1..], b[1..]);
      assert a == [a[0]] + a[1..] && b == [b[0]] + b[1..];
    }
  }

  lemma Pow2At8()
    ensures Pow2(8) == 256
  {
    assert Pow2(4) == 16;
  }

  lemma SplitByte(w: nat, m: nat)
    ensures BitsOf(w, m + 8) == BitsOf(w / 256, m) + BitsOf(w % 256, 8)
  {
    Pow2At8();
    ShiftRightIsDivision(w, 8);
    BitsOfSplit(w, m, 8);
    BitsOfLow(w, 8, 8);
  }

  lemma {:induction false} FromBigEndianBound(s: seq<byte>)
    ensures FromBigEndian(s) < Pow2(8 * |s|)
  {
    if s != [] {
      FromBigEndianBound(s[..|s| - 1]);
      Pow2Sum(8 * (|s| - 1), 8);
      Pow2At8();
    } else {
      assert Pow2(0) == 1;
    }
  }

  lemma AppendByte(w: nat, last: byte, m: nat)
    ensures BitsOf(256 * w + last, m + 8) == BitsOf(w, m) + BitsOf(last, 8)
  {
    hide BitsOf;
    DivModUnique(256 * w + last, 256, w, last);
    SplitByte(256 * w + last, m);
  }

  lemma BitsSnoc(s: seq<byte>, last: byte)
    ensures Bits(s + [last]) == Bits(s) + BitsOf(last, 8)
  {
    BitsConcat(s, [last]);
    assert Bits([last]) == BitsOf(last, 8) + Bits([]);
  }

  lemma {:induction false} BigEndianBits(w: nat, n: nat)
    ensures Bits(BigEndian(w, n)) == BitsOf(w, 8 * n)
  {
    if n > 0 {
      BigEndianBits(w / 256, n - 1);
      BitsConcat(BigEndian(w / 256, n - 1), [w % 256]);
      SplitByte(w, 8 * (n - 1));
      assert Bits([w % 256]) == BitsOf(w % 256, 8) + Bits([]);
    }
  }

  lemma FromBigEndianSnoc(s: seq<byte>)
    requires s != []
    ensures FromBigEndian(s) == 256 * FromBigEndian(s[..|s| - 1]) + s[|s| - 1]
  {
  }

  lemma {:induction false} FromBigEndianBits(s: seq<byte>)
    ensures BitsOf(FromBigEndian(s), 8 * |s|) == Bits(s)
  {
    if s != [] {
      hide Bits, BitsOf, FromBigEndian;
      var init, last := s[..|s| - 1], s[|s| - 1];
      FromBigEndianBits(init);
      FromBigEndianSnoc(s);
      assert s == init + [last];
      BitsSnoc(init, last);
      AppendByte(FromBigEndian(init), last, 8 * |init|);
    }
  }

  lemma FromBigEndianVal(s: seq<byte>)
    ensures FromBigEndian(s) == Val(Bits(s))
  {
    FromBigEndianBits(s);
    FromBigEndianBound(s);
    ValBitsOf(FromBigEndian(s), 8 * |s|);
    LowOfSmall(FromBigEndian(s), 8 * |s|);
  }

  lemma {:induction false} Pow2Sum(m: nat, n: nat)
    ensures Pow2(m + n) == Pow2(m) * Pow2(n)
  {
    if n > 0 {
      Pow2Sum(m, n - 1);
      assert Pow2(m) * (2 * Pow2(n - 1)) == 2 * (Pow2(m) * Pow2(n - 1));
    }
  }

  lemma FromBigEndianOf(w: nat, n: nat)
    requires w < Pow2(8 * n)
    ensures FromBigEndian(BigEndian(w, n)) == w
  {
    FromBigEndianVal(BigEndian(w, n));
    BigEndianBits(w, n);
    ValBitsOf(w, 8 * n);
    LowOfSmall(w, 8 * n);
  }

  /** Two fields of `m` and `n` bits side by side are one field of `m + n` bits. */
  lemma JoinFields(a: nat, b: nat, m: nat, n: nat, p: nat)
    requires p == Pow2(n) && b < p
    ensures BitsOf(a, m) + BitsOf(b, n) == BitsOf(a * p + b, m + n)
  {
    LowShift(a * p + b, n);
    DivModUnique(a * p + b, p, a, b);
    ShiftRightIsDivision(a * p + b, n);
    BitsOfSplit(a * p + b, m, n);
    BitsOfLow(a * p + b, n, n);
  }

  lemma BigEndianSplit(v: u32)
    ensures BigEndian(v, 4) == BigEndian(v / 0x1_0000, 2) + BigEndian(v % 0x1_0000, 2)
  {
    hide BigEndian, Bits, BitsOf;
    var hi, lo := v / 0x1_0000, v % 0x1_0000;
    BigEndianBits(v, 4);
    BigEndianBits(hi, 2);
    BigEndianBits(lo, 2);
    BitsConcat(BigEndian(hi, 2), BigEndian(lo, 2));
    Pow2At8();
    Pow2Sum(8, 8);
    JoinFields(hi, lo, 16, 16, 0x1_0000);
    BitsInjective(BigEndian(v, 4), BigEndian(hi, 2) + BigEndian(lo, 2));
  }

  lemma {:induction false} StoreLoad(s: seq<byte>)
    ensures StoreWord(LoadWord(s), |s|) == s
  {
    if s != [] {
      StoreLoad(s[1..]);
      DivModUnique(LoadWord(s), 256, LoadWord(s[1..]), s[0]);
      assert s == [s[0]] + s[1..];
    }
  }

  lemma {:induction false} LoadBound(s: seq<byte>)
    ensures LoadWord(s) < Pow2(8 * |s|)
  {
    if s != [] {
      LoadBound(s[1..]);
      Pow2Sum(8 * (|s| - 1), 8);
      Pow2At8();
    } else {
      assert Pow2(0) == 1;
    }
  }

  lemma {:induction false} FromBigEndianStore(w: nat, n: nat)
    ensures FromBigEndian(StoreWord(w, n)) == ByteSwap(w, n)
  {
    Mirror(w, n);
    LoadMirror(BigEndian(w, n));
  }

  function Reverse<T>(s: seq<T>): (r: seq<T>)
    ensures |r| == |s|
    ensures forall i :: 0 <= i < |s| ==> r[i] == s[|s| - 1 - i]
  {
    seq(|s|, i requires 0 <= i < |s| => s[|s| - 1 - i])
  }

  lemma {:induction false} Mirror(w: nat, n: nat)
    ensures StoreWord(w, n) == Reverse(BigEndian(w, n))
  {
    if n > 0 {
      Mirror(w / 256, n - 1);
    }
  }

  lemma {:induction false} LoadMirror(s: seq<byte>)
    ensures FromBigEndian(Reverse(s)) == LoadWord(s)
  {
    if s != [] {
      LoadMirror(s[1..]);
      assert Reverse(s)[..|s| - 1] == Reverse(s[1..]);
    }
  }

  /** Swapping the loaded word reads the memory as a big-endian number. */
  lemma ByteSwapOfLoad(s: seq<byte>)
    ensures ByteSwap(LoadWord(s), |s|) == FromBigEndian(s)
  {
    StoreLoad(s);
    FromBigEndianStore(LoadWord(s), |s|);
  }

  /** The memory image of the swapped word is the big-endian image. */
  lemma StoreOfByteSwap(w: nat, n: nat)
    ensures StoreWord(ByteSwap(w, n), n) == BigEndian(w, n)
  {
    StoreLoad(BigEndian(w, n));
  }

  /** `byteswapBE` is its own inverse on words of its width. */
  lemma ByteSwapInvolution(w: nat, n: nat)
    requires w < Pow2(8 * n)
    ensures ByteSwap(ByteSwap(w, n), n) == w
  {
    ByteSwapOfLoad(BigEndian(w, n));
    FromBigEndianOf(w, n);
  }
}
