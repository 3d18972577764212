/**
 The internet checksum: a scalar loop, a block-parallel one, and the incremental update.

 All additions wrap at 32 bits and the carries are folded in once. The laws say what the
 functions compute and exactly when the single fold is enough.
 */
module Checksum {
  import opened Words

  const WRAP := 0x1_0000_0000

  /** Sum of the big-endian 16-bit words; a last odd byte is the high half of a word. */
  function WordSum(b: seq<byte>): nat {
    if |b| == 0 then 0
    else if |b| == 1 then 256 * (b[0] as int)
    else 256 * (b[0] as int) + b[1] + WordSum(b[2..])
  }

  /** One carry fold, cut to 16 bits. */
  function Fold(sum: u32): u16 {
    (sum / 0x1_0000 + sum % 0x1_0000) % 0x1_0000
  }

  /** The fold loses no carry. */
  predicate FoldsCleanly(sum: u32) {
    sum / 0x1_0000 + sum % 0x1_0000 <= 0xffff
  }

  /** What both loops return. */
  function ChecksumSpec(buffer: seq<byte>, initial: u32): u16 {
    Fold((initial + WordSum(buffer)) % WRAP)
  }

  lemma {:induction false} WordSumConcat(a: seq<byte>, b: seq<byte>)
    requires |a| % 2 == 0
    ensures WordSum(a + b) == WordSum(a) + WordSum(b)
  {
    if a == [] {
      assert a + b == b;
    } else {
      assert (a + b)[2..] == a[2..] + b;
      WordSumConcat(a[2..], b);
    }
  }

  lemma WordSumSlice(b: seq<byte>, i: nat, j: nat)
    requires i <= j <= |b| && i % 2 == 0
    ensures WordSum(b[..j]) == WordSum(b[..i]) + WordSum(b[i..j])
  {
    assert b[..j] == b[..i] + b[i..j];
    WordSumConcat(b[..i], b[i..j]);
  }

  /** The 16-bit word at a byte offset: loaded little endian, then swapped. */
  function HostWord(b: seq<byte>, at: nat): nat
    requires at + 2 <= |b|
  {
    ByteSwap(LoadWord(b[at..at + 2]), 2)
  }

  lemma HostWordIsBigEndian(b: seq<byte>, at: nat)
    requires at + 2 <= |b|
    ensures HostWord(b, at) == 256 * (b[at] as int) + b[at + 1] == WordSum(b[at..at + 2])
  {
    var w := b[at..at + 2];
    ByteSwapOfLoad(w);
    assert FromBigEndian(w[..1][..0]) == 0;
    assert w[2..] == [];
  }

  lemma NextWord(b: seq<byte>, at: nat, total: nat, sum: u32)
    requires at + 2 <= |b| && at % 2 == 0
    requires sum == (total + WordSum(b[..at])) % WRAP
    ensures (sum + HostWord(b, at)) % WRAP == (total + WordSum(b[..at + 2])) % WRAP
  {
    HostWordIsBigEndian(b, at);
    WordSumSlice(b, at, at + 2);
    AddMod(total + WordSum(b[..at]), HostWord(b, at));
  }

  lemma AddMod(x: nat, y: nat)
    ensures (x % WRAP + y) % WRAP == (x + y) % WRAP
  {
    var q := x / WRAP;
    assert x + y == WRAP * q + (x % WRAP + y);
  }

  /** The last odd byte. */
  lemma OddByte(b: seq<byte>, total: nat, sum: u32)
    requires |b| % 2 == 1
    requires sum == (total + WordSum(b[..|b| - 1])) % WRAP
    ensures (sum + 256 * (b[|b| - 1] as int)) % WRAP == (total + WordSum(b)) % WRAP
  {
    var n := |b| - 1;
    assert b == b[..n] + [b[n]];
    WordSumConcat(b[..n], [b[n]]);
    AddMod(total + WordSum(b[..n]), 256 * (b[n] as int));
  }

  // ---- The scalar loop ----

  /** The word loop: `n` words from the even offset `at` on. */
  method AddWords(buffer: seq<byte>, at: nat, n: nat, initial: u32, before: u32) returns (sum: u32)
    requires at % 2 == 0 && at + 2 * n <= |buffer|
    requires before == (initial + WordSum(buffer[..at])) % WRAP
    ensures sum == (initial + WordSum(buffer[..at + 2 * n])) % WRAP
  {
    hide WordSum, HostWord;
    sum := before;
    var i := 0;
    while i < n
      invariant 0 <= i <= n
      invariant sum == (initial + WordSum(buffer[..at + 2 * i])) % WRAP
    {
      NextWord(buffer, at + 2 * i, initial, sum);
      sum := (sum + HostWord(buffer, at + 2 * i)) % WRAP;
      i := i + 1;
    }
  }

  /** The odd byte, if any, and the carry fold. */
  method Finish(buffer: seq<byte>, initial: u32, words: u32) returns (r: u16)
    requires words == (initial + WordSum(buffer[..2 * (|buffer| / 2)])) % WRAP
    ensures r == ChecksumSpec(buffer, initial)
  {
    hide WordSum;
    var sum: u32 := words;
    if |buffer| % 2 == 1 {
      OddByte(buffer, initial, sum);
      sum := (sum + 256 * (buffer[|buffer| - 1] as int)) % WRAP;
    } else {
      assert buffer[..|buffer|] == buffer;
    }
    sum := sum / 0x1_0000 + sum % 0x1_0000;
    return sum % 0x1_0000;
  }

  method OnesComplementChecksumScalar(buffer: seq<byte>, initial: u32) returns (r: u16)
    ensures r == ChecksumSpec(buffer, initial)
  {
    hide WordSum;
    var sizeWords := |buffer| / 2;
    EmptySum(buffer);
    var sum := AddWords(buffer, 0, sizeWords, initial, initial);
    r := Finish(buffer, initial, sum);
  }

  lemma EmptySum(b: seq<byte>)
    ensures WordSum(b[..0]) == 0
  {
  }

  // ---- The block-parallel loop ----

  type Lanes = s: seq<u32> | |s| == 8 witness [0, 0, 0, 0, 0, 0, 0, 0]

  /** Swap adjacent bytes of a 16-byte block. */
  function ShuffleBytes(block: seq<byte>): (r: seq<byte>)
    requires |block| == 16
    ensures |r| == 16
  {
    seq(16, i requires 0 <= i < 16 => if i % 2 == 0 then block[i + 1] else block[i - 1])
  }

  /** The eight little-endian 16-bit lanes, widened. */
  function WidenLanes(block: seq<byte>): (r: Lanes)
    requires |block| == 16
    ensures forall k :: 0 <= k < 8 ==> r[k] == block[2 * k] + 256 * (block[2 * k + 1] as int)
  {
    seq(8, k requires 0 <= k < 8 => block[2 * k] + 256 * (block[2 * k + 1] as int))
  }

  function AddLanes(a: Lanes, b: Lanes): (r: Lanes)
    ensures forall k :: 0 <= k < 8 ==> r[k] == ((a[k] as int) + b[k]) % WRAP
  {
    seq(8, k requires 0 <= k < 8 => ((a[k] as int) + b[k]) % WRAP)
  }

  function LaneTotal(s: seq<u32>): nat {
    if s == [] then 0 else LaneTotal(s[..|s| - 1]) + s[|s| - 1]
  }

  lemma LaneStep(s: seq<u32>, n: nat)
    requires n < |s|
    ensures LaneTotal(s[..n + 1]) == LaneTotal(s[..n]) + s[n]
  {
    assert s[..n + 1][..n] == s[..n];
  }

  function SumOfWords(b: seq<byte>, n: nat): nat
    requires 2 * n <= |b|
    decreases n
  {
    if n == 0 then 0 else SumOfWords(b, n - 1) + 256 * (b[2 * n - 2] as int) + b[2 * n - 1]
  }

  lemma {:induction false} SumOfWordsIs(b: seq<byte>, n: nat)
    requires 2 * n <= |b|
    ensures WordSum(b[..2 * n]) == SumOfWords(b, n)
  {
    if n > 0 {
      SumOfWordsIs(b, n - 1);
      WordSumSlice(b, 2 * n - 2, 2 * n);
      HostWordIsBigEndian(b, 2 * n - 2);
    }
  }

  /** A block's lanes are its eight big-endian words. */
  lemma LanesOfBlock(block: seq<byte>)
    requires |block| == 16
    ensures LaneTotal(WidenLanes(ShuffleBytes(block))) == WordSum(block)
  {
    var w := WidenLanes(ShuffleBytes(block));
    FirstLanes(block, 8);
    assert w[..8] == w && block[..16] == block;
    SumOfWordsIs(block, 8);
  }

  lemma {:induction false} FirstLanes(block: seq<byte>, n: nat)
    requires |block| == 16 && n <= 8
    ensures LaneTotal(WidenLanes(ShuffleBytes(block))[..n]) == SumOfWords(block, n)
  {
    hide LaneTotal;
    var w := WidenLanes(ShuffleBytes(block));
    if n > 0 {
      FirstLanes(block, n - 1);
      LaneStep(w, n - 1);
    } else {
      NoLanes(w);
    }
  }

  /** Lane-wise addition, each lane wrapping on its own, adds the totals modulo 2^32. */
  lemma AddLanesTotal(a: Lanes, b: Lanes)
    ensures LaneTotal(AddLanes(a, b)) % WRAP == (LaneTotal(a) + LaneTotal(b)) % WRAP
  {
    AddFirstLanes(a, b, 8);
    assert a[..8] == a && b[..8] == b && AddLanes(a, b)[..8] == AddLanes(a, b);
  }

  lemma {:induction false} AddFirstLanes(a: Lanes, b: Lanes, n: nat)
    requires n <= 8
    ensures LaneTotal(AddLanes(a, b)[..n]) % WRAP == (LaneTotal(a[..n]) + LaneTotal(b[..n])) % WRAP
  {
    hide LaneTotal;
    var r := AddLanes(a, b);
    if n == 0 {
      NoLanes(a); NoLanes(b); NoLanes(r);
    } else {
      var k := n - 1;
      AddFirstLanes(a, b, k);
      LaneStep(a, k); LaneStep(b, k); LaneStep(r, k);
      SumMods(LaneTotal(r[..k]), LaneTotal(a[..k]) + LaneTotal(b[..k]), r[k], (a[k] as int) + b[k]);
    }
  }

  lemma SumMods(x: nat, x': nat, y: nat, y': nat)
    requires x % WRAP == x' % WRAP && y % WRAP == y' % WRAP
    ensures (x + y) % WRAP == (x' + y') % WRAP
  {
    AddMod(x, y);
    AddMod(x', y);
    AddMod(y, x');
    AddMod(y', x');
  }

  /** Whole 16-byte blocks, accumulated lane by lane. */
  method AddBlocks(buffer: seq<byte>, begin: nat, n: nat) returns (acc: Lanes)
    requires begin + 16 * n <= |buffer|
    ensures LaneTotal(acc) % WRAP == WordSum(buffer[begin..begin + 16 * n]) % WRAP
  {
    hide WordSum, LaneTotal, AddLanes, WidenLanes, ShuffleBytes;
    acc := [0, 0, 0, 0, 0, 0, 0, 0];
    NoBlocks(buffer, begin, acc);
    var i := 0;
    while i < n
      invariant 0 <= i <= n
      invariant LaneTotal(acc) % WRAP == WordSum(buffer[begin..begin + 16 * i]) % WRAP
    {
      var block := begin + 16 * i;
      var a := ShuffleBytes(buffer[block..block + 16]);
      NextBlock(buffer, begin, block, acc);
      acc := AddLanes(acc, WidenLanes(a));
      i := i + 1;
    }
  }

  /** The lanes folded into the running sum from the left. */
  method FoldLanes(acc: Lanes, before: u32) returns (sum: u32)
    ensures sum == (before + LaneTotal(acc)) % WRAP
  {
    hide LaneTotal;
    sum := before;
    var k := 0;
    NoLanes(acc);
    while k < 8
      invariant 0 <= k <= 8
      invariant sum == (before + LaneTotal(acc[..k])) % WRAP
    {
      LaneStep(acc, k);
      AddMod(before + LaneTotal(acc[..k]), acc[k]);
      sum := (sum + acc[k]) % WRAP;
      k := k + 1;
    }
    assert acc[..8] == acc;
  }

  /** `ptr` is the address of the buffer; only its alignment matters. */
  method OnesComplementChecksumAVX(buffer: seq<byte>, initial: u32, ptr: nat) returns (r: u16)
    ensures r == ChecksumSpec(buffer, initial)
  {
    hide WordSum, LaneTotal, ChecksumSpec;
    var size := |buffer|;
    if ptr % 2 != 0 {
      r := OnesComplementChecksumScalar(buffer, initial);
      return;
    }

    // unaligned head
    var toBoundary := (-(ptr as int)) % 16;
    var align := if toBoundary < size then toBoundary else size;
    EmptySum(buffer);
    HeadFits(size, align);
    var sum := AddWords(buffer, 0, align / 2, initial, initial);

    // aligned blocks
    var blocks := (size - align) / 16;
    var lastBlock := align + 16 * blocks;
    Layout(size, ptr, align, blocks);
    var acc := AddBlocks(buffer, align, blocks);
    ghost var before := sum;
    sum := FoldLanes(acc, sum);
    ghost var head := 2 * (align / 2);
    HeadAligned(buffer, align, head, blocks);
    LanesAdded(buffer, initial, head, head + 16 * blocks, before, LaneTotal(acc), sum);

    // the remaining words and the odd byte
    var remainder := (size - align) % 16;
    if remainder > 1 {
      sum := AddWords(buffer, lastBlock, remainder / 2, initial, sum);
    }
    r := Finish(buffer, initial, sum);
  }

  lemma HeadFits(size: nat, align: nat)
    requires align <= size
    ensures 2 * (align / 2) <= align
  {
  }

  /** Head, blocks and tail cover the buffer; an odd head is all of it. */
  lemma Layout(size: nat, ptr: nat, align: nat, blocks: nat)
    requires ptr % 2 == 0 && blocks == (size - align) / 16
    requires align == if (-(ptr as int)) % 16 < size then (-(ptr as int)) % 16 else size
    ensures align + 16 * blocks + (size - align) % 16 == size
    ensures align % 2 == 1 ==> align == size && blocks == 0
    ensures align % 2 == 0 ==> 2 * (align / 2) == align && (align + 16 * blocks) % 2 == 0
    ensures 2 * (align / 2) + 16 * blocks <= size
  {
    EvenBoundary(ptr);
    Halving(align);
    assert (size - align) / 16 * 16 + (size - align) % 16 == size - align;
  }

  lemma Halving(align: nat)
    ensures align % 2 == 0 ==> 2 * (align / 2) == align
    ensures 2 * (align / 2) <= align
  {
  }

  lemma EvenBoundary(ptr: nat)
    requires ptr % 2 == 0
    ensures (-(ptr as int)) % 16 % 2 == 0
  {
    var q, r := (-(ptr as int)) / 16, (-(ptr as int)) % 16;
    assert -(ptr as int) == 16 * q + r;
  }

  /** An odd head is the whole of a short buffer; then there are no blocks. */
  lemma HeadAligned(b: seq<byte>, align: nat, head: nat, blocks: nat)
    requires align <= |b| && head == 2 * (align / 2) && align + 16 * blocks <= |b|
    requires align % 2 == 0 || blocks == 0
    ensures WordSum(b[align..align + 16 * blocks]) == WordSum(b[head..head + 16 * blocks])
  {
    assert blocks == 0 ==> b[align..align] == b[head..head] == [];
  }

  lemma NoBlocks(b: seq<byte>, head: nat, acc: Lanes)
    requires head <= |b| && acc == [0, 0, 0, 0, 0, 0, 0, 0]
    ensures LaneTotal(acc) == 0 && WordSum(b[head..head]) == 0
  {
    ZeroLanes(acc, 8);
    assert acc[..8] == acc;
  }

  lemma {:induction false} ZeroLanes(acc: Lanes, n: nat)
    requires n <= 8 && acc == [0, 0, 0, 0, 0, 0, 0, 0]
    ensures LaneTotal(acc[..n]) == 0
  {
    if n > 0 {
      ZeroLanes(acc, n - 1);
      LaneStep(acc, n - 1);
    }
  }

  lemma NoLanes(acc: Lanes)
    ensures LaneTotal(acc[..0]) == 0
  {
  }

  lemma NextBlock(b: seq<byte>, head: nat, block: nat, acc: Lanes)
    requires head <= block && block + 16 <= |b| && (block - head) % 16 == 0
    requires LaneTotal(acc) % WRAP == WordSum(b[head..block]) % WRAP
    ensures LaneTotal(AddLanes(acc, WidenLanes(ShuffleBytes(b[block..block + 16])))) % WRAP
         == WordSum(b[head..block + 16]) % WRAP
  {
    hide LaneTotal, WordSum, AddLanes, WidenLanes, ShuffleBytes;
    var lanes := WidenLanes(ShuffleBytes(b[block..block + 16]));
    AddLanesTotal(acc, lanes);
    LanesOfBlock(b[block..block + 16]);
    assert b[head..block + 16] == b[head..block] + b[block..block + 16];
    WordSumConcat(b[head..block], b[block..block + 16]);
    AddMod(LaneTotal(acc), LaneTotal(lanes));
    AddMod(WordSum(b[head..block]), LaneTotal(lanes));
  }

  lemma LanesAdded(b: seq<byte>, initial: nat, i: nat, j: nat, before: nat, total: nat, sum: nat)
    requires i <= j <= |b| && i % 2 == 0
    requires before == (initial + WordSum(b[..i])) % WRAP
    requires total % WRAP == WordSum(b[i..j]) % WRAP
    requires sum == (before + total) % WRAP
    ensures sum == (initial + WordSum(b[..j])) % WRAP
  {
    hide WordSum;
    WordSumSlice(b, i, j);
    AddMod(initial + WordSum(b[..i]), total);
    AddMod(total, initial + WordSum(b[..i]));
    AddMod(WordSum(b[i..j]), initial + WordSum(b[..i]));
  }

  // ---- Laws of the fold ----

  /** One fold is congruent to the sum modulo 65535 exactly when it loses no carry. */
  lemma FoldLaw(sum: u32)
    ensures Fold(sum) % 0xffff == sum % 0xffff <==> FoldsCleanly(sum)
  {
    var hi, lo := sum / 0x1_0000, sum % 0x1_0000;
    assert sum == 0xffff * hi + (hi + lo);
    if hi + lo > 0xffff {
      assert Fold(sum) == hi + lo - 0x1_0000;
      assert sum == 0xffff * (hi + 1) + (Fold(sum) + 1);
    }
  }

  /**
   The loops return the one's complement sum of the whole buffer exactly when the wrap-arounds of
   the 32-bit addition and the carry the fold loses come to a multiple of 65535 together.
   */
  lemma BufferLaw(buffer: seq<byte>, initial: u32)
    ensures var sum := initial + WordSum(buffer);
            (ChecksumSpec(buffer, initial) % 0xffff == sum % 0xffff
             <==> (sum / WRAP + if FoldsCleanly(sum % WRAP) then 0 else 1) % 0xffff == 0)
  {
    hide WordSum;
    var sum := initial + WordSum(buffer);
    var k, u := sum / WRAP, sum % WRAP;
    var hi, lo := u / 0x1_0000, u % 0x1_0000;
    var lost := if FoldsCleanly(u) then 0 else 1;
    assert Fold(u) == hi + lo - 0x1_0000 * lost;
    // u = 65535 hi + (hi + lo) and 2^32 = 65535 * 65537 + 1
    assert Fold(u) == sum - (k + lost) - 0xffff * (hi + lost + k * 0x1_0001);
    ModShift(sum - (k + lost), hi + lost + k * 0x1_0001);
    CongruentBy(sum, k + lost);
  }

  lemma CongruentBy(s: int, d: int)
    ensures (s - d) % 0xffff == s % 0xffff <==> d % 0xffff == 0
  {
    var q, r := d / 0xffff, d % 0xffff;
    assert s - d == s - r - 0xffff * q;
    ModShift(s - r, q);
  }

  /** For a packet that is when neither happens. */
  lemma PacketLaw(buffer: seq<byte>, initial: u32)
    requires |buffer| <= 0xffff
    ensures var sum := initial + WordSum(buffer);
            (ChecksumSpec(buffer, initial) % 0xffff == sum % 0xffff <==> sum < WRAP && FoldsCleanly(sum))
  {
    hide WordSum, ChecksumSpec, FoldsCleanly;
    WordSumBound(buffer);
    BufferLaw(buffer, initial);
  }

  lemma {:induction false} WordSumBound(b: seq<byte>)
    ensures 2 * WordSum(b) <= 0xffff * (|b| + 1)
  {
    if |b| > 1 { WordSumBound(b[2..]); }
  }

  /** The checksum field: complement of the folded sum. */
  function InternetChecksum(buffer: seq<byte>, initial: u32): u16 {
    0xffff - ChecksumSpec(buffer, initial)
  }

  /** Adding the checksum to the sum it complements gives all ones, exactly when the fold was clean. */
  lemma ChecksumVerifies(sum: u32)
    ensures Fold((sum + (0xffff - Fold(sum))) % WRAP) == 0xffff <==> FoldsCleanly(sum)
  {
    var hi, lo := sum / 0x1_0000, sum % 0x1_0000;
    if hi + lo <= 0xffff {
      Refold(hi, 0xffff - hi);
    } else {
      assert Fold(sum) == hi + lo - 0x1_0000;
      Refold(hi + 1, 0xffff - hi);
    }
  }

  lemma Refold(hi: nat, lo: nat)
    requires lo <= 0xffff && hi <= 0x1_0000
    ensures (0x1_0000 * hi + lo) % WRAP == if hi == 0x1_0000 then lo else 0x1_0000 * hi + lo
    ensures Fold((0x1_0000 * hi + lo) % WRAP) == ((if hi == 0x1_0000 then 0 else hi) + lo) % 0x1_0000
  {
  }

  // ---- Incremental update ----

  function UpdateInternetChecksum(chksum: u16, add: u32, sub: u32): u16 {
    var sum := UpdatedSum(chksum, add, sub);
    var folded := sum / 0x1_0000 + sum % 0x1_0000;
    var nonzero := if folded == 0 then 0xffff else folded;
    (0xffff_ffff - nonzero) % 0x1_0000
  }

  /** `~chksum + add - sub` in 32-bit arithmetic. */
  function UpdatedSum(chksum: u16, add: u32, sub: u32): u32 {
    ((0xffff - chksum) as int + add - sub) % WRAP
  }

  /** How often that arithmetic wraps: 1 above, -1 below. */
  function Wraps(chksum: u16, add: u32, sub: u32): int {
    var s := (0xffff - chksum) as int + add - sub;
    if s >= WRAP then 1 else if s < 0 then -1 else 0
  }

  /** The update agrees with RFC 1624, section 3: HC' = ~(~HC + ~m + m') in one's complement arithmetic. */
  ghost predicate UpdateAgrees(chksum: u16, add: u32, sub: u32) {
    (0xffff - UpdateInternetChecksum(chksum, add, sub)) as int % 0xffff == ((0xffff - chksum) as int + add - sub) % 0xffff
  }

  /**
   For all arguments: the update agrees with recomputation modulo 65535 exactly when the carry
   the fold loses is the one the 32-bit wrap-around gained.
   */
  lemma UpdateLaw(chksum: u16, add: u32, sub: u32)
    ensures UpdateAgrees(chksum, add, sub)
       <==> Wraps(chksum, add, sub) == if FoldsCleanly(UpdatedSum(chksum, add, sub)) then 0 else -1
  {
    var s := (0xffff - chksum) as int + add - sub;
    var u := UpdatedSum(chksum, add, sub);
    var k := Wraps(chksum, add, sub);
    assert u == s - k * WRAP by { WrapsOnce(s, k); }
    var hi, lo := u / 0x1_0000, u % 0x1_0000;
    var r := UpdateInternetChecksum(chksum, add, sub);
    Complement(hi + lo);
    var lost := if hi + lo <= 0xffff then 0 else 1;
    assert (0xffff - r) % 0xffff == (hi + lo - 0x1_0000 * lost) % 0xffff;
    // u = 65535 hi + (hi + lo) and 2^32 = 65535 * 65537 + 1
    assert hi + lo - 0x1_0000 * lost == s - k - lost - 0xffff * (hi + lost + k * 0x1_0001);
    ModShift(s - k - lost, hi + lost + k * 0x1_0001);
    Congruent(s, k + lost);
  }

  /** Sums of two words for which the update differs from RFC 1624: a carry lost, and a wrap-around gained. */
  lemma TwoWordsDisagree()
    ensures !UpdateAgrees(0, 0x1_0000, 0)
    ensures !UpdateAgrees(0xffff, 0, 0x1_0000)
  {
    UpdateLaw(0, 0x1_0000, 0);
    UpdateLaw(0xffff, 0, 0x1_0000);
  }

  lemma WrapsOnce(s: int, k: int)
    requires -WRAP < s < 2 * WRAP
    requires k == if s >= WRAP then 1 else if s < 0 then -1 else 0
    ensures s % WRAP == s - k * WRAP
  {
  }

  lemma Complement(folded: nat)
    requires folded <= 0x1_fffe
    ensures var nonzero := if folded == 0 then 0xffff else folded;
            (0xffff - (0xffff_ffff - nonzero) % 0x1_0000) % 0xffff
              == (folded - 0x1_0000 * (if folded <= 0xffff then 0 else 1)) % 0xffff
  {
  }

  lemma ModShift(x: int, q: int)
    ensures (x - 0xffff * q) % 0xffff == x % 0xffff
  {
  }

  lemma Congruent(s: int, d: int)
    requires -1 <= d <= 2
    ensures (s - d) % 0xffff == s % 0xffff <==> d == 0
  {
  }

  /** Replacing one word always agrees, even when the subtraction wraps. */
  lemma SingleWordUpdate(chksum: u16, add: u16, sub: u16)
    ensures UpdateAgrees(chksum, add, sub)
  {
    UpdateLaw(chksum, add, sub);
  }

  /** The recomputed checksum word, of the two words for zero the one one's complement sums produce. */
  function Recomputed(chksum: u16, add: u32, sub: u32): u16 {
    var residue := ((0xffff - chksum) as int + add - sub) % 0xffff;
    if residue == 0 then 0 else 0xffff - residue
  }

  /**
   The word returned is the recomputed word exactly when both agree modulo 65535 and the fold is
   not 0x10000, a zero the normalisation overlooks.
   */
  lemma UpdateExact(chksum: u16, add: u32, sub: u32)
    ensures UpdateInternetChecksum(chksum, add, sub) == Recomputed(chksum, add, sub)
       <==> UpdateAgrees(chksum, add, sub)
            && UpdatedSum(chksum, add, sub) / 0x1_0000 + UpdatedSum(chksum, add, sub) % 0x1_0000 != 0x1_0000
  {
    var u := UpdatedSum(chksum, add, sub);
    var folded, r := u / 0x1_0000 + u % 0x1_0000, UpdateInternetChecksum(chksum, add, sub);
    ReturnedWord(folded);
    SmallResidue(0xffff - r);
  }

  lemma ReturnedWord(folded: nat)
    requires folded <= 0x1_fffe
    ensures var nonzero := if folded == 0 then 0xffff else folded;
            (0xffff_ffff - nonzero) % 0x1_0000 == 0xffff <==> folded == 0x1_0000
  {
  }

  lemma SmallResidue(x: nat)
    requires x <= 0xffff
    ensures x % 0xffff == if x == 0xffff then 0 else x
  {
  }

  /** For a single word the returned word is the recomputed one except in one case: removing 0xffff from all ones. */
  lemma SingleWordExact(chksum: u16, add: u16, sub: u16)
    ensures UpdateInternetChecksum(chksum, add, sub) == Recomputed(chksum, add, sub)
       <==> !(chksum == 0xffff && add == 0 && sub == 0xffff)
  {
    SingleWordUpdate(chksum, add, sub);
    UpdateExact(chksum, add, sub);
  }
}
