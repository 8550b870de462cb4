/** LZ4 compression, and decompression into a buffer of unknown size by doubling it.

    The codec is a parameter that obeys a small contract.  Whatever it leaves in the buffer
    beyond its result, or after a failed attempt, is arbitrary. */
module Lz4 {
  import opened Bytes

  const I32_MAX: int := 0x7FFF_FFFF
  const MAX_INPUT: int := 0x7E00_0000
  const ATTEMPTS: nat := 10

  datatype Mode = Default | Fast

  datatype Codec = Codec(
    encode: (seq<Byte>, Mode, int) -> seq<Byte>,
    decode: seq<Byte> -> Option<seq<Byte>>)

  /** The worst-case compressed size, 0 for an input the codec cannot take. */
  function Bound(n: int): int {
    if n > MAX_INPUT then 0 else n + n / 255 + 16
  }

  ghost predicate Lawful(codec: Codec) {
    forall x, mode, acceleration {:trigger codec.encode(x, mode, acceleration)} ::
      0 < |x| <= MAX_INPUT ==>
        var s := codec.encode(x, mode, acceleration);
        0 < |s| <= Bound(|x|) && codec.decode(s) == Some(x)
  }

  /** 32-bit two's complement arithmetic, as compiled for release. */
  function Wrap(x: int): (r: int)
    ensures -0x8000_0000 <= r <= I32_MAX
  {
    (x + 0x8000_0000) % 0x1_0000_0000 - 0x8000_0000
  }

  /** A length as a 32-bit number, 0 when it does not fit. */
  function Length32(n: nat): int {
    if n <= I32_MAX then n else 0
  }

  function Pow2(k: nat): (r: nat)
    ensures r >= 1
  {
    if k == 0 then 1 else 2 * Pow2(k - 1)
  }

  /** `s` doubled `k` times. */
  function Doubled(s: nat, k: nat): (r: nat)
    ensures r >= s
  {
    if k == 0 then s else 2 * Doubled(s, k - 1)
  }

  lemma {:induction false} DoubledIsProduct(s: nat, k: nat)
    ensures Doubled(s, k) == s * Pow2(k)
  {
    if k > 0 {
      DoubledIsProduct(s, k - 1);
      assert s * (2 * Pow2(k - 1)) == 2 * (s * Pow2(k - 1));
    }
  }

  /** What the codec's decompressor returns for a buffer of `capacity` bytes. */
  function DecodedSize(codec: Codec, src: seq<Byte>, capacity: int): int {
    match codec.decode(src)
    case Some(x) => if |x| <= capacity then |x| else -1
    case None => -1
  }

  method CallDecoder(codec: Codec, src: seq<Byte>, dst: Vec) returns (size: int)
    modifies dst
    ensures size == DecodedSize(codec, src, |old(dst.data)|)
    ensures |dst.data| == |old(dst.data)|
    ensures size >= 0 ==> size <= |dst.data| && codec.decode(src) == Some(dst.data[..size])
  {
    var junk: seq<Byte> :| |junk| == |dst.data|;
    match codec.decode(src)
    case Some(x) =>
      if |x| <= |dst.data| {
        dst.data := x + junk[|x|..];
        return |x|;
      }
      dst.data := junk;
      return -1;
    case None =>
      dst.data := junk;
      return -1;
  }

  method CallEncoder(codec: Codec, src: seq<Byte>, mode: Mode, acceleration: int, dst: Vec) returns (size: int)
    requires Lawful(codec) && 0 < |src| <= MAX_INPUT && |dst.data| >= Bound(|src|)
    modifies dst
    ensures |dst.data| == |old(dst.data)| && 0 < size <= |dst.data|
    ensures dst.data[..size] == codec.encode(src, mode, acceleration)
  {
    var junk: seq<Byte> :| |junk| == |dst.data|;
    var s := codec.encode(src, mode, acceleration);
    dst.data := s + junk[|s|..];
    return |s|;
  }

  method Compress(dst: Vec, src: seq<Byte>, mode: Mode, acceleration: int, codec: Codec) returns (ok: bool)
    requires Lawful(codec)
    modifies dst
    ensures ok <==> 0 < |src| <= MAX_INPUT
    ensures ok ==> dst.data == codec.encode(src, mode, acceleration)
    ensures !ok ==> dst.data == old(dst.data)
  {
    var srcLen := Length32(|src|);
    if srcLen == 0 {
      return false;
    }
    var maxDstSize := Bound(srcLen);
    if maxDstSize <= 0 {
      return false;
    }
    dst.Clear();
    dst.Resize(maxDstSize);
    var newSize := CallEncoder(codec, src, mode, acceleration, dst);
    if newSize > 0 {
      dst.SetLen(newSize);
      return true;
    }
    return false;
  }

  /** Attempt `k` can hold `n` bytes and its capacity, doubled `k` times, is a 32-bit number. */
  predicate Fits(s: nat, n: nat, k: nat) {
    n <= Doubled(s, k) <= I32_MAX
  }

  ghost predicate SomeAttemptFits(s: nat, n: nat) {
    exists k :: 1 <= k <= ATTEMPTS && Fits(s, n, k)
  }

  /** What decompression recovers from `src`: nothing but `src` and the codec decides it. */
  ghost function Recovered(codec: Codec, src: seq<Byte>): Option<seq<Byte>> {
    match codec.decode(src)
    case Some(x) => if 0 < |src| && 0 < |x| && SomeAttemptFits(|src|, |x|) then Some(x) else None
    case None => None
  }

  /** The result does not depend on the old contents of `dst`, nor on what failed attempts
      leave there. */
  method DeCompress(dst: Vec, src: seq<Byte>, codec: Codec) returns (ok: bool)
    modifies dst
    ensures ok <==> Recovered(codec, src).Some?
    ensures ok ==> dst.data == Recovered(codec, src).value
  {
    hide Wrap, Doubled;
    var srcLen := Length32(|src|);
    if srcLen == 0 {
      assert forall k :: Doubled(|src|, k) >= |src|;
      return false;
    }
    var maxDstSize := Wrap(srcLen * 2);
    var retSize := 0;
    dst.Clear();
    for i := 0 to ATTEMPTS
      invariant maxDstSize == Capacity(srcLen, i)
      invariant forall j :: 0 <= j < i ==> Capacity(srcLen, j) > 0
      invariant retSize <= 0 && (i == 0 ==> retSize == 0)
      invariant forall k :: 1 <= k <= i ==> DecodedSize(codec, src, Doubled(srcLen, k)) <= 0
    {
      CapacityExactOrNegative(srcLen, i);
      if maxDstSize <= 0 {
        LaterAttemptsOverflow(srcLen, i);
        break;
      }
      dst.Resize(maxDstSize);
      retSize := CallDecoder(codec, src, dst);
      if retSize > 0 {
        assert Fits(|src|, retSize, i + 1);
        break;
      }
      maxDstSize := Wrap(maxDstSize * 2);
    }
    if retSize > 0 {
      dst.SetLen(retSize);
      return true;
    }
    return false;
  }

  // ---------------------------------------------------------------- the doubling

  /** The capacity of attempt `i`, counted from 0, in wrapping arithmetic. */
  function Capacity(s: int, i: nat): int {
    if i == 0 then Wrap(s * 2) else Wrap(Capacity(s, i - 1) * 2)
  }

  /** As long as all the earlier capacities were positive, the next is either exactly the
      doubled length or negative: a wrapped positive capacity is never used. */
  lemma {:induction false} CapacityExactOrNegative(s: nat, i: nat)
    requires 0 < s <= I32_MAX
    requires forall j :: 0 <= j < i ==> Capacity(s, j) > 0
    ensures Capacity(s, i) == Doubled(s, i + 1) <= I32_MAX ||
            (Capacity(s, i) < 0 && Doubled(s, i + 1) > I32_MAX)
  {
    hide Wrap;
    if i == 0 {
      WrapDouble(s);
      assert Doubled(s, 1) == 2 * Doubled(s, 0);
    } else {
      CapacityExactOrNegative(s, i - 1);
      WrapDouble(Capacity(s, i - 1));
      assert Doubled(s, i + 1) == 2 * Doubled(s, i);
    }
  }

  lemma WrapDouble(c: int)
    requires 0 < c <= I32_MAX
    ensures if c * 2 <= I32_MAX then Wrap(c * 2) == c * 2 else Wrap(c * 2) < 0
  {
  }

  lemma {:induction false} DoubledMonotone(s: nat, i: nat, k: nat)
    requires i <= k
    ensures Doubled(s, i) <= Doubled(s, k)
  {
    if i < k {
      DoubledMonotone(s, i, k - 1);
    }
  }

  lemma LaterAttemptsOverflow(s: nat, i: nat)
    requires Doubled(s, i + 1) > I32_MAX
    ensures forall k :: k > i ==> Doubled(s, k) > I32_MAX
  {
    forall k | k > i
      ensures Doubled(s, k) > I32_MAX
    {
      DoubledMonotone(s, i + 1, k);
    }
  }

  // ---------------------------------------------------------------- round trips

  /** Compressing and then decompressing, through buffers with any old contents: the original
      comes back exactly when it can be compressed and one of the ten doublings of the
      compressed length holds it within 32 bits; otherwise decompression fails. */
  method RoundTrip(x: seq<Byte>, mode: Mode, acceleration: int, codec: Codec, old1: seq<Byte>, old2: seq<Byte>)
    returns (compressed: bool, recovered: bool, y: seq<Byte>)
    requires Lawful(codec)
    ensures compressed <==> 0 < |x| <= 0x7E00_0000
    ensures var s := |codec.encode(x, mode, acceleration)|;
            recovered <==> compressed && exists k :: 1 <= k <= 10 && Fits(s, |x|, k)
    ensures recovered ==> y == x
  {
    var packed := new Vec();
    var unpacked := new Vec();
    packed.data, unpacked.data := old1, old2;
    compressed := Compress(packed, x, mode, acceleration, codec);
    if !compressed {
      return false, false, [];
    }
    recovered := DeCompress(unpacked, packed.data, codec);
    y := unpacked.data;
  }

  lemma FitsTold(s: nat, n: nat, k: nat)
    ensures Fits(s, n, k) <==> n <= s * Pow2(k) && s * Pow2(k) <= 0x7FFF_FFFF
  {
    DoubledIsProduct(s, k);
  }

  /** In plain sizes: below 1 GiB on both sides, a compression ratio of up to 1024 always
      makes the round trip. */
  lemma RoundTripBelowOneGiB(codec: Codec, x: seq<Byte>, mode: Mode, acceleration: int)
    requires Lawful(codec) && 0 < |x| <= 0x4000_0000
    requires |codec.encode(x, mode, acceleration)| < 0x4000_0000
    requires |x| <= 1024 * |codec.encode(x, mode, acceleration)|
    ensures Recovered(codec, codec.encode(x, mode, acceleration)) == Some(x)
  {
    var s := |codec.encode(x, mode, acceleration)|;
    var k := LeastDoubling(s, |x|, 1);
    assert Fits(s, |x|, k);
  }

  /** The least number of doublings, at least `k`, that holds `n` bytes. */
  lemma LeastDoubling(s: nat, n: nat, k: nat) returns (m: nat)
    requires 1 <= k <= ATTEMPTS && s < 0x4000_0000 && n <= 0x4000_0000 && n <= 1024 * s
    requires k > 1 ==> n > Doubled(s, k - 1)
    ensures k <= m <= ATTEMPTS && Fits(s, n, m)
    decreases ATTEMPTS - k
  {
    assert Doubled(s, k) == 2 * Doubled(s, k - 1);
    if n <= Doubled(s, k) {
      m := k;
      assert Doubled(s, 1) == 2 * Doubled(s, 0);
    } else {
      TenDoublings(s);
      m := LeastDoubling(s, n, k + 1);
    }
  }

  lemma PowersUpTo10()
    ensures Pow2(10) == 1024
  {
    assert Pow2(5) == 32;
    assert Pow2(8) == 256;
  }

  lemma TenDoublings(s: nat)
    ensures Doubled(s, 10) == 1024 * s
  {
    PowersUpTo10();
    DoubledIsProduct(s, 10);
  }

  /** Compressed input of 1 GiB or more is never decompressed: the first doubling overflows. */
  lemma LargeSourceIsNeverRecovered(codec: Codec, src: seq<Byte>)
    requires |src| >= 0x4000_0000
    ensures Recovered(codec, src) == None
  {
    forall k | 1 <= k <= ATTEMPTS
      ensures Doubled(|src|, k) > I32_MAX
    {
      DoubledMonotone(|src|, 1, k);
      assert Doubled(|src|, 1) == 2 * Doubled(|src|, 0);
    }
  }

  /** A ratio above 1024 is out of reach of ten doublings. */
  lemma HighRatioIsNeverRecovered(codec: Codec, src: seq<Byte>)
    requires codec.decode(src).Some? && |codec.decode(src).value| > 1024 * |src|
    ensures Recovered(codec, src) == None
  {
    forall k | 1 <= k <= ATTEMPTS
      ensures Doubled(|src|, k) <= 1024 * |src|
    {
      TenDoublings(|src|);
      DoubledMonotone(|src|, k, 10);
    }
  }
}
