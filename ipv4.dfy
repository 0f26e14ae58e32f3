/** 32-bit address arithmetic shared by the three copies of the record engine:
    `int2ip` and `binary.BigEndian.Uint32`, masking an address to a prefix, the uint32
    sum behind `nextStartIP`, the shift-and-parity test of `Sum`, `canStart`, and
    `simpleMaskLength`. Addresses are naturals below 2^32; bytes are naturals below 256. */
module IPv4 {

  type Byte = x: int | 0 <= x < 256

  /** The number of IPv4 addresses, 2^32. */
  const AddrSpace: nat := 0x1_0000_0000

  function Pow2(n: nat): (r: nat)
    ensures r > 0
  {
    if n == 0 then 1 else 2 * Pow2(n - 1)
  }

  lemma {:induction false} Pow2Add(a: nat, b: nat)
    ensures Pow2(a + b) == Pow2(a) * Pow2(b)
  {
    if a > 0 {
      Pow2Add(a - 1, b);
    }
  }

  lemma {:induction false} Pow2Monotone(a: nat, b: nat)
    requires a <= b
    ensures Pow2(a) <= Pow2(b)
    decreases b
  {
    if a < b {
      Pow2Monotone(a, b - 1);
    }
  }

  lemma Pow2Constants()
    ensures Pow2(8) == 256 && Pow2(16) == 0x1_0000 && Pow2(24) == 0x100_0000
    ensures Pow2(32) == AddrSpace
  {
    Pow2Add(8, 8);
    Pow2Add(16, 8);
    Pow2Add(16, 16);
  }

  lemma MulAtLeast(x: int, m: int)
    requires x >= 1 && m > 0
    ensures x * m >= m
  {
  }

  lemma MulMonotone(x: int, y: int, m: int)
    requires x <= y && m >= 0
    ensures x * m <= y * m
  {
  }

  /** Euclidean division has one quotient and one remainder. */
  lemma DivModUnique(a: int, m: int, q: int, r: int)
    requires m > 0 && 0 <= r < m && a == q * m + r
    ensures a / m == q && a % m == r
  {
    var q', r' := a / m, a % m;
    assert a == q' * m + r';
    if q > q' {
      MulAtLeast(q - q', m);
    } else if q < q' {
      MulAtLeast(q' - q, m);
    }
  }

  /** Dropping the remainder leaves the multiple of `m` just below `a`. */
  lemma RoundDown(a: nat, m: int)
    requires m > 0
    ensures 0 <= a - a % m <= a < a - a % m + m
    ensures (a - a % m) % m == 0
  {
    var q := a / m;
    assert a == q * m + a % m;
    DivModUnique(a - a % m, m, q, 0);
  }

  lemma MultipleMod(k: nat, m: nat)
    requires m > 0
    ensures (k * m) % m == 0 && (k * m) / m == k
  {
    DivModUnique(k * m, m, k, 0);
  }

  // ---------------------------------------------------------------------------
  // int2ip and binary.BigEndian.Uint32

  /** int2ip: the four big-endian bytes of a 32-bit value. */
  function Int2IP(n: nat): (ip: seq<Byte>)
    requires n < AddrSpace
    ensures |ip| == 4
  {
    [n / 0x100_0000, n / 0x1_0000 % 256, n / 0x100 % 256, n % 256]
  }

  /** binary.BigEndian.Uint32: the first four bytes read as one big-endian number. */
  function Uint32(ip: seq<Byte>): (n: nat)
    requires |ip| >= 4
    ensures n < AddrSpace
  {
    var a: int, b: int, c: int, d: int := ip[0], ip[1], ip[2], ip[3];
    ((a * 256 + b) * 256 + c) * 256 + d
  }

  lemma Uint32OfInt2IP(n: nat)
    requires n < AddrSpace
    ensures Uint32(Int2IP(n)) == n
  {
    var q1 := n / 256;
    var q2 := q1 / 256;
    var q3 := q2 / 256;
    assert n == q1 * 256 + n % 256;
    assert q1 == q2 * 256 + q1 % 256;
    assert q2 == q3 * 256 + q2 % 256;
    assert q2 == n / 0x1_0000;
    assert q3 == n / 0x100_0000;
  }

  lemma Int2IPOfUint32(ip: seq<Byte>)
    requires |ip| == 4
    ensures Int2IP(Uint32(ip)) == ip
  {
    var n := Uint32(ip);
    var a: int, b: int, c: int, d: int := ip[0], ip[1], ip[2], ip[3];
    var q2 := a * 256 + b;
    var q1 := q2 * 256 + c;
    assert n / 256 == q1 && n % 256 == d;
    assert q1 / 256 == q2 && q1 % 256 == c;
    assert q2 / 256 == a && q2 % 256 == b;
    assert n / 0x1_0000 == q2;
    assert n / 0x100_0000 == a;
  }

  // ---------------------------------------------------------------------------
  // Blocks of 2^(32 - prefix) addresses

  /** The number of addresses in a block with the given prefix length. */
  function BlockSize(prefix: int): (size: nat)
    requires 0 <= prefix <= 32
    ensures size > 0
  {
    Pow2(32 - prefix)
  }

  /** `ip.Mask(m)` for the mask of `prefix` leading one bits: the low 32 - prefix bits are
      cleared, which leaves the start of the block holding `a`. */
  function Mask(a: nat, prefix: int): (r: nat)
    requires 0 <= prefix <= 32
    ensures r <= a < r + BlockSize(prefix)
    ensures r % BlockSize(prefix) == 0
  {
    var size := BlockSize(prefix);
    RoundDown(a, size);
    a - a % size
  }

  /** A start is aligned to a prefix when masking to that prefix leaves it unchanged. */
  lemma MaskOfAligned(a: nat, prefix: int)
    requires 0 <= prefix <= 32 && a % BlockSize(prefix) == 0
    ensures Mask(a, prefix) == a
  {
  }

  /** `uint32(1) << uint(32 - prefix)`: a shift by 32 or more gives 0 in 32 bits, and a
      negative count converts to a huge unsigned count. */
  function Shl32(k: int): nat
  {
    if 0 <= k < 32 then Pow2(k) else 0
  }

  /** nextStartIP: the block start plus its size, summed as uint32. */
  function NextStart(start: nat, prefix: int): (r: nat)
    ensures r < AddrSpace
    ensures 1 <= prefix <= 32 ==> r == (start + BlockSize(prefix)) % AddrSpace
    ensures prefix == 0 ==> r == start % AddrSpace
  {
    (start + Shl32(32 - prefix)) % AddrSpace
  }

  /** Division of naturals. */
  function DivNat(a: nat, d: nat): nat
    requires d > 0
  {
    a / d
  }

  /** `IPStartInt >> uint(32 - prefix)` on a non-negative int: the address bits above the
      block; a negative count converts to a huge one and shifts everything out. */
  function HighBits(start: nat, prefix: int): nat
  {
    if prefix > 32 then 0 else DivNat(start, Pow2(32 - prefix))
  }

  /** canStart: re-parse the start with prefix - 1 and test that masking keeps it, which
      fails (false) when prefix - 1 is not a valid IPv4 prefix. */
  function CanStart(start: nat, prefix: int): bool
  {
    if prefix - 1 < 0 || prefix - 1 > 32 then false else Mask(start, prefix - 1) == start
  }

  /** Halving the prefix doubles the block. */
  lemma BlockSizeParent(prefix: int)
    requires 1 <= prefix <= 32
    ensures BlockSize(prefix - 1) == 2 * BlockSize(prefix)
  {
  }

  /** A multiple of `b` is a multiple of `2 * b` exactly when its quotient by `b` is even. */
  lemma EvenMultiple(a: nat, b: int)
    requires b > 0 && a % b == 0
    ensures (a % (2 * b) == 0) <==> ((a / b) % 2 == 0)
  {
    var q := a / b;
    assert a == q * b + a % b;
    var h := q / 2;
    assert q == 2 * h + q % 2;
    if q % 2 == 0 {
      assert q * b == h * (2 * b);
      DivModUnique(a, 2 * b, h, 0);
    } else {
      assert q * b == (2 * h + 1) * b == h * (2 * b) + b;
      DivModUnique(a, 2 * b, h, b);
    }
  }

  /** A start aligned to `prefix` is aligned to `prefix - 1` exactly when the bits above
      its block are even; this is the parity test of Sum. */
  lemma {:induction false} AlignedParentIffEven(start: nat, prefix: int)
    requires 1 <= prefix <= 32 && start % BlockSize(prefix) == 0
    ensures (start % BlockSize(prefix - 1) == 0) <==> (HighBits(start, prefix) % 2 == 0)
  {
    var b := BlockSize(prefix);
    BlockSizeParent(prefix);
    assert HighBits(start, prefix) == start / b;
    EvenMultiple(start, b);
  }

  /** On an aligned start, canStart says the block is the lower half of its parent, which
      is the same test Sum makes with the shift. */
  lemma CanStartIsLowerHalf(start: nat, prefix: int)
    requires 1 <= prefix <= 32 && start % BlockSize(prefix) == 0
    ensures CanStart(start, prefix) <==> HighBits(start, prefix) % 2 == 0
  {
    AlignedParentIffEven(start, prefix);
  }

  // ---------------------------------------------------------------------------
  // simpleMaskLength

  /** A byte whose top `ones` bits are set and the rest clear. */
  function OnesByte(ones: nat): Byte
    requires ones <= 8
  {
    Pow2Monotone(8 - ones, 8);
    Pow2Constants();
    256 - Pow2(8 - ones)
  }

  function Clamp8(x: int): nat
  {
    if x < 0 then 0 else if x > 8 then 8 else x
  }

  /** The mask of `len` bytes whose first `ones` bits are set and the rest clear. */
  function PrefixMask(ones: nat, len: nat): (m: seq<Byte>)
    ensures |m| == len
  {
    seq(len, k requires 0 <= k < len => OnesByte(Clamp8(ones - 8 * k)))
  }

  lemma OnesByteStep(j: nat)
    requires j < 8
    ensures OnesByte(j + 1) == OnesByte(j) + Pow2(7 - j)
    ensures Pow2(7 - j) * Pow2(j + 1) == 256
  {
    Pow2Add(7 - j, j + 1);
    Pow2Constants();
  }

  lemma {:induction false} OnesByteStrict(a: nat, b: nat)
    requires a < b <= 8
    ensures OnesByte(a) < OnesByte(b)
    decreases b - a
  {
    OnesByteStep(a);
    if a + 1 < b {
      OnesByteStrict(a + 1, b);
    }
  }

  lemma OnesByteInjective(a: nat, b: nat)
    requires a <= 8 && b <= 8 && OnesByte(a) == OnesByte(b)
    ensures a == b
  {
    if a < b {
      OnesByteStrict(a, b);
    } else if b < a {
      OnesByteStrict(b, a);
    }
  }

  lemma OnesByteEnds()
    ensures OnesByte(0) == 0 && OnesByte(8) == 255
  {
    Pow2Constants();
  }

  /** If `mask` is a prefix mask whose first `i` bytes are 0xff and whose byte `i` is not,
      the mask's length in bits is 8 * i plus the ones of byte `i`. */
  lemma PrefixMaskAt(mask: seq<Byte>, i: nat, ones: nat)
    requires i < |mask| && mask == PrefixMask(ones, |mask|)
    requires forall k :: 0 <= k < i ==> mask[k] == 255
    requires mask[i] != 255
    ensures 8 * i <= ones < 8 * i + 8
    ensures mask[i] == OnesByte(ones - 8 * i)
    ensures forall k :: i < k < |mask| ==> mask[k] == 0
  {
    OnesByteEnds();
    if i > 0 {
      assert mask[i - 1] == OnesByte(Clamp8(ones - 8 * (i - 1))) == 255;
      OnesByteInjective(Clamp8(ones - 8 * (i - 1)), 8);
    }
    forall k | i < k < |mask|
      ensures mask[k] == 0
    {
      assert mask[k] == OnesByte(Clamp8(ones - 8 * k));
    }
  }

  /** The arithmetic of one shift: `q * p == 128` splits the byte at bit 7 - j. */
  lemma ShiftArith(t: int, p: int, q: int)
    requires p >= 1 && q >= 1 && q * p == 128 && 0 <= t <= 2 * q - 1 && t * p >= 128
    ensures t >= q && t * p <= 256 - p
    ensures (t * p * 2) % 256 == (t - q) * (2 * p)
  {
    if t < q {
      MulMonotone(t, q - 1, p);
    }
    MulMonotone(t, 2 * q - 1, p);
    DivModUnique(t * p * 2, 256, 1, t * p * 2 - 256);
  }

  /** One step of the shift loop: with the top bit of the residue set, the byte has
      one more leading one, and doubling the residue in 8 bits keeps the bookkeeping. */
  lemma ShiftStep(b: Byte, j: nat, t: int, v: int)
    requires b != 255 && j < 8 && t == b - OnesByte(j) && t >= 0 && v == t * Pow2(j)
    requires v >= 128
    ensures j < 7 && t >= Pow2(7 - j)
    ensures 0 <= (v * 2) % 256 == (t - Pow2(7 - j)) * Pow2(j + 1)
  {
    var p, q := Pow2(j), Pow2(7 - j);
    OnesByteStep(j);
    Pow2Add(7 - j, j);
    assert Pow2(7) == 128 by { Pow2Constants(); }
    assert Pow2(j + 1) == 2 * p;
    assert Pow2(8 - j) == 2 * q;
    ShiftArith(t, p, q);
    if j == 7 {
      OnesByteEnds();
    }
  }

  /** The arithmetic of the stop: below 128 after scaling by `p`, the residue is below `q`. */
  lemma StopArith(t: int, p: int, q: int)
    requires p >= 1 && q * p == 128 && t >= 0 && t * p < 128
    ensures t < q
    ensures t * p == 0 <==> t == 0
  {
    if t >= q {
      MulMonotone(q, t, p);
    }
    if t > 0 {
      MulAtLeast(t, p);
    }
  }

  /** The loop stops with the top bit of the residue clear: the byte is below the next
      all-ones-then-zeros value. */
  lemma ShiftStop(b: Byte, j: nat, t: int, v: int)
    requires j < 8 && t == b - OnesByte(j) && t >= 0 && v == t * Pow2(j)
    requires v < 128
    ensures b < OnesByte(j + 1)
    ensures v == 0 <==> b == OnesByte(j)
  {
    var p, q := Pow2(j), Pow2(7 - j);
    OnesByteStep(j);
    Pow2Add(7 - j, j);
    assert Pow2(7) == 128 by { Pow2Constants(); }
    StopArith(t, p, q);
  }

  /** Counts the ones of one byte the way simpleMaskLength does: shift left while the top
      bit is set. The residue `v` is zero exactly when the byte is all ones then all zeros. */
  method CountLeadingOnes(b: Byte) returns (j: nat, v: Byte)
    requires b != 255
    ensures j < 8 && OnesByte(j) <= b < OnesByte(j + 1)
    ensures v == 0 <==> b == OnesByte(j)
  {
    OnesByteEnds();
    j, v := 0, b;
    ghost var t: int := b;
    while v >= 128
      invariant j < 8
      invariant t == b - OnesByte(j) && t >= 0
      invariant v == t * Pow2(j)
      decreases 8 - j
    {
      ShiftStep(b, j, t, v);
      OnesByteStep(j);
      v := (v * 2) % 256;
      t := t - Pow2(7 - j);
      j := j + 1;
    }
    ShiftStop(b, j, t, v);
  }

  /** A byte strictly between two neighbouring all-ones-then-zeros values, after 0xff
      bytes only, makes the mask no prefix mask. */
  lemma NotPrefixMaskBadByte(mask: seq<Byte>, i: nat, ones: nat)
    requires i < |mask| && forall k :: 0 <= k < i ==> mask[k] == 255
    requires ones < 8 && OnesByte(ones) < mask[i] < OnesByte(ones + 1)
    ensures forall k: nat :: k <= 8 * |mask| ==> mask != PrefixMask(k, |mask|)
  {
    OnesByteGap(mask[i], ones);
    forall k: nat | k <= 8 * |mask|
      ensures mask != PrefixMask(k, |mask|)
    {
      if mask == PrefixMask(k, |mask|) {
        PrefixMaskAt(mask, i, k);
      }
    }
  }

  /** No all-ones-then-zeros byte lies strictly between two neighbouring ones. */
  lemma OnesByteGap(x: Byte, ones: nat)
    requires ones < 8 && OnesByte(ones) < x < OnesByte(ones + 1)
    ensures x != 255
    ensures forall c: nat :: c <= 8 ==> OnesByte(c) != x
  {
    OnesByteEnds();
    if ones + 1 < 8 {
      OnesByteStrict(ones + 1, 8);
    }
    forall c: nat | c <= 8
      ensures OnesByte(c) != x
    {
      if c < ones {
        OnesByteStrict(c, ones);
      } else if c > ones + 1 {
        OnesByteStrict(ones + 1, c);
      }
    }
  }

  /** A non-zero byte after the byte that is not 0xff makes the mask no prefix mask. */
  lemma NotPrefixMaskBadTail(mask: seq<Byte>, i: nat, t: nat)
    requires i < t < |mask| && forall k :: 0 <= k < i ==> mask[k] == 255
    requires mask[i] != 255 && mask[t] != 0
    ensures forall k: nat :: k <= 8 * |mask| ==> mask != PrefixMask(k, |mask|)
  {
    forall k: nat | k <= 8 * |mask|
      ensures mask != PrefixMask(k, |mask|)
    {
      if mask == PrefixMask(k, |mask|) {
        PrefixMaskAt(mask, i, k);
      }
    }
  }

  /** 0xff bytes, then one byte of `ones` leading ones, then zero bytes make the prefix
      mask of 8 * i + ones bits. */
  lemma PrefixMaskOfParts(mask: seq<Byte>, i: nat, ones: nat)
    requires i <= |mask| && ones < 8 && (i == |mask| ==> ones == 0)
    requires forall k :: 0 <= k < i ==> mask[k] == 255
    requires i < |mask| ==> mask[i] == OnesByte(ones)
    requires forall k :: i < k < |mask| ==> mask[k] == 0
    ensures mask == PrefixMask(8 * i + ones, |mask|)
  {
    OnesByteEnds();
    var n := 8 * i + ones;
    forall k | 0 <= k < |mask|
      ensures mask[k] == PrefixMask(n, |mask|)[k]
    {
      if k < i {
        assert Clamp8(n - 8 * k) == 8;
      } else if k == i {
        assert Clamp8(n - 8 * k) == ones;
      } else {
        assert Clamp8(n - 8 * k) == 0;
      }
    }
  }

  /** simpleMaskLength: the number of leading one bits of a mask made of ones followed by
      zeros, and -1 for any other mask. */
  method SimpleMaskLength(mask: seq<Byte>) returns (n: int)
    ensures n >= 0 ==> n <= 8 * |mask| && mask == PrefixMask(n, |mask|)
    ensures n < 0 ==> n == -1 && forall k: nat :: k <= 8 * |mask| ==> mask != PrefixMask(k, |mask|)
  {
    n := 0;
    var i := 0;
    while i < |mask|
      invariant 0 <= i <= |mask| && n == 8 * i
      invariant forall k :: 0 <= k < i ==> mask[k] == 255
    {
      if mask[i] == 255 {
        n := n + 8;
        i := i + 1;
        continue;
      }
      var ones, v := CountLeadingOnes(mask[i]);
      n := n + ones;
      if v != 0 {
        NotPrefixMaskBadByte(mask, i, ones);
        return -1;
      }
      var t := i + 1;
      while t < |mask|
        invariant i + 1 <= t <= |mask|
        invariant forall k :: i < k < t ==> mask[k] == 0
      {
        if mask[t] != 0 {
          NotPrefixMaskBadTail(mask, i, t);
          return -1;
        }
        t := t + 1;
      }
      PrefixMaskOfParts(mask, i, ones);
      return n;
    }
    PrefixMaskOfParts(mask, i, 0);
  }
}
