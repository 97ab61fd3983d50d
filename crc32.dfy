/** CRC-32 as Go's hash/crc32 computes it, and the GF(2) multiplication `crcmulTable` of
    lib/crc32.go. hash/crc32 itself is not part of this model: its table, `Update` and
    `Checksum` are defined here from the bit-at-a-time definition of the reflected CRC.

    A Go `uint32` register is modelled as its 32 bits, least significant first (element i
    is bit i). Every operation the CRC code applies to a register (exclusive or, shifts,
    bit reversal, truncation, multiplication by a single bit) is a rearrangement of bits,
    so each is defined here bit by bit. The reflected IEEE 802.3 polynomial (clause 3.2.9)
    is `IEEE`; the definitions take the polynomial as a parameter, as the Go code takes the
    table built from it. */
module Crc32 {

  import opened Common

  /** A 32-bit register, bit 0 first. */
  type Word = w: seq<bool> | |w| == 32 witness seq(32, _ => false)

  // ---------------------------------------------------------------------------------------
  // Bit sequences

  function Falses(n: nat): (r: seq<bool>)
    ensures |r| == n
  {
    seq(n, _ => false)
  }

  /** The register 0. */
  const Zero: Word := Falses(32)

  function Xor(a: seq<bool>, b: seq<bool>): (r: seq<bool>)
    requires |a| == |b|
    ensures |r| == |a|
  {
    seq(|a|, i requires 0 <= i < |a| => a[i] != b[i])
  }

  /** Go's `^x`. */
  function Not(a: seq<bool>): (r: seq<bool>)
    ensures |r| == |a|
  {
    seq(|a|, i requires 0 <= i < |a| => !a[i])
  }

  /** Go's `x >> n`: bit i takes bit i + n, zeros come in at the top. */
  function Shr(a: seq<bool>, n: nat): (r: seq<bool>)
    ensures |r| == |a|
  {
    seq(|a|, i requires 0 <= i < |a| => i + n < |a| && a[i + n])
  }

  /** Go's `x << n` within the width of x: bit i takes bit i - n. */
  function Shl(a: seq<bool>, n: nat): (r: seq<bool>)
    ensures |r| == |a|
  {
    seq(|a|, i requires 0 <= i < |a| => i >= n && a[i - n])
  }

  /** math/bits.Reverse8/32/64: bit i takes bit width - 1 - i. */
  function Reverse(a: seq<bool>): (r: seq<bool>)
    ensures |r| == |a|
  {
    seq(|a|, i requires 0 <= i < |a| => a[|a| - 1 - i])
  }

  /** The low n bits of a 32-bit value, least significant first. */
  function BitsOf(x: bv32, n: nat): (r: seq<bool>)
    requires n <= 32
    ensures |r| == n
  {
    if n == 0 then [] else [x & 1 == 1] + BitsOf(x >> 1, n - 1)
  }

  /** The reflected IEEE 802.3 polynomial 0xEDB88320 (Go's crc32.IEEE). */
  const IEEE: Word := BitsOf(0xEDB8_8320, 32)

  /** Bit i of a byte. */
  function Bit8(b: byte, i: nat): bool
    requires i < 8
  {
    if i == 0 then b & 1 != 0 else if i == 1 then b & 2 != 0
    else if i == 2 then b & 4 != 0 else if i == 3 then b & 8 != 0
    else if i == 4 then b & 16 != 0 else if i == 5 then b & 32 != 0
    else if i == 6 then b & 64 != 0 else b & 128 != 0
  }

  /** The eight bits of a byte, bit 0 first. */
  function ByteBits(b: byte): (r: seq<bool>)
    ensures |r| == 8
  {
    seq(8, i requires 0 <= i < 8 => Bit8(b, i))
  }

  /** A byte widened to a register (Go's `uint32(b)`). */
  function ByteReg(b: byte): Word {
    ByteBits(b) + Falses(24)
  }

  // ---------------------------------------------------------------------------------------
  // The CRC

  /** One bit of reflected polynomial division (the inner loop of crc32.MakeTable): shift
      right, and fold the polynomial in when the bit shifted out was 1. */
  function Step(poly: Word, c: Word): Word {
    seq(32, i requires 0 <= i < 32 => (i < 31 && c[i + 1]) != (c[0] && poly[i]))
  }

  /** n bit steps. */
  function Steps(poly: Word, c: Word, n: nat): Word
    decreases n, c
  {
    if n == 0 then c else Steps(poly, Step(poly, c), n - 1)
  }

  /** Entry i of the 256-entry table crc32.MakeTable(poly) builds, indexed by the bits of i. */
  function Table(poly: Word, i: seq<bool>): Word
    requires |i| == 8
  {
    Steps(poly, i + Falses(24), 8)
  }

  /** The table-driven byte update `t[byte(c)^b] ^ (c >> 8)`. */
  function TableStep(poly: Word, c: Word, b: byte): Word {
    Xor(Table(poly, Xor(c[..8], ByteBits(b))), Shr(c, 8))
  }

  /** The register after feeding `data` to it, with no presetting and no final inversion
      (what lib/crc32.go calls an unmasked CRC). */
  function Raw(poly: Word, c: Word, data: seq<byte>): Word
    decreases |data|
  {
    if |data| == 0 then c else Raw(poly, TableStep(poly, c, data[0]), data[1..])
  }

  /** Go's crc32.Update(crc, tab, p): the register is inverted on the way in and out. */
  function Update(poly: Word, crc: Word, p: seq<byte>): Word {
    Not(Raw(poly, Not(crc), p))
  }

  /** Go's crc32.Checksum(p, tab): the CRC-32 of p. */
  function Checksum(poly: Word, p: seq<byte>): Word {
    Update(poly, Zero, p)
  }

  /** The reference definition: the register is xored with each byte and then divided
      eight bits at a time, with no table. */
  function BitwiseRaw(poly: Word, c: Word, data: seq<byte>): Word
    decreases |data|
  {
    if |data| == 0 then c else BitwiseRaw(poly, Steps(poly, Xor(c, ByteReg(data[0])), 8), data[1..])
  }

  /** `n` zero bytes. */
  function Zeros(n: nat): (z: seq<byte>)
    ensures |z| == n && forall i :: 0 <= i < n ==> z[i] == 0
  {
    seq(n, _ => 0)
  }

  /** Bytewise exclusive or of two sequences of equal length. */
  function XorBytes(x: seq<byte>, y: seq<byte>): (r: seq<byte>)
    requires |x| == |y|
    ensures |r| == |x| && forall i :: 0 <= i < |x| ==> r[i] == x[i] ^ y[i]
  {
    seq(|x|, i requires 0 <= i < |x| => x[i] ^ y[i])
  }

  // ---------------------------------------------------------------------------------------
  // crcmulTable

  /** `c*(a&(1<<k))` on uint64 values whose product cannot overflow (c < 2^32, k < 8): the
      mask is 0 or 2^k, so the product is 0 or c shifted left by k. */
  function Prod(c: seq<bool>, a: seq<bool>, k: nat): (r: seq<bool>)
    requires |c| == 64 && |a| == 64 && k < 64
    ensures |r| == 64
  {
    if a[k] then Shl(c, k) else Falses(64)
  }

  /** `crcmulTable` of lib/crc32.go: multiplies the complement of a (masked) CRC by an 8-bit
      value in GF(2). The carry-less product of the bit-reversed operands is a sum of
      single-bit products; after reversing it back, the low 32 bits of the product are its
      high word, and the eight bits that overflow the register are reduced with one table
      lookup. */
  function CrcMulTable(poly: Word, crc: Word, val: byte): Word {
    var c := Reverse(Not(crc)) + Falses(32);
    var a := Reverse(ByteBits(val)) + Falses(56);
    var m := Xor(Xor(Xor(Xor(Xor(Xor(Xor(Prod(c, a, 7), Prod(c, a, 6)), Prod(c, a, 5)),
               Prod(c, a, 4)), Prod(c, a, 3)), Prod(c, a, 2)), Prod(c, a, 1)), Prod(c, a, 0));
    var m' := Reverse(m);
    var r := Xor(Shr(m', 32)[..32], Table(poly, Shr(m', 24)[..8]));
    Not(r)
  }

  /** The reference product: r times the polynomial of byte v, that is the sum over the bits
      t set in v (bit 0 being the highest-degree coefficient, as in the reflected CRC) of r
      advanced 7 - t bit steps; MulPrefix sums the terms of bits 0 .. n - 1. */
  function MulPrefix(poly: Word, r: Word, v: seq<bool>, n: nat): Word
    requires |v| == 8 && n <= 8
  {
    if n == 0 then Zero
    else Xor(MulPrefix(poly, r, v, n - 1), if v[n - 1] then Steps(poly, r, 8 - n) else Zero)
  }

  function ByteMul(poly: Word, r: Word, v: byte): Word {
    MulPrefix(poly, r, ByteBits(v), 8)
  }

  // ---------------------------------------------------------------------------------------
  // Division is linear over GF(2)

  /** Step is crc32.MakeTable's branch: `if crc&1 == 1 { crc = (crc >> 1) ^ poly } else
      { crc >>= 1 }`. */
  lemma StepBranches(poly: Word, c: Word)
    ensures Step(poly, c) == if c[0] then Xor(Shr(c, 1), poly) else Shr(c, 1)
  {
  }

  lemma StepLinear(poly: Word, a: Word, b: Word)
    ensures Step(poly, Xor(a, b)) == Xor(Step(poly, a), Step(poly, b))
  {
  }

  lemma {:induction false} StepsLinear(poly: Word, a: Word, b: Word, n: nat)
    ensures Steps(poly, Xor(a, b), n) == Xor(Steps(poly, a, n), Steps(poly, b, n))
    decreases n
  {
    if n > 0 {
      StepLinear(poly, a, b);
      StepsLinear(poly, Step(poly, a), Step(poly, b), n - 1);
    }
  }

  lemma {:induction false} StepsAdd(poly: Word, c: Word, m: nat, n: nat)
    ensures Steps(poly, Steps(poly, c, m), n) == Steps(poly, c, m + n)
    decreases m
  {
    if m > 0 {
      StepsAdd(poly, Step(poly, c), m - 1, n);
    }
  }

  /** While only zero bits are shifted out, division is a plain shift. */
  lemma {:induction false} StepsShift(poly: Word, c: Word, n: nat)
    requires n <= 32 && forall i :: 0 <= i < n ==> !c[i]
    ensures Steps(poly, c, n) == Shr(c, n)
    decreases n
  {
    if n > 0 {
      assert Step(poly, c) == Shr(c, 1);
      StepsShift(poly, Shr(c, 1), n - 1);
      assert Shr(Shr(c, 1), n - 1) == Shr(c, n);
    }
  }

  lemma {:induction false} StepsZero(poly: Word, n: nat)
    ensures Steps(poly, Zero, n) == Zero
    decreases n
  {
    if n > 0 {
      assert Step(poly, Zero) == Zero;
      StepsZero(poly, n - 1);
    }
  }

  lemma Bit8Xor(a: byte, b: byte, i: nat)
    requires i < 8
    ensures Bit8(a ^ b, i) == (Bit8(a, i) != Bit8(b, i))
  {
    var m: byte := if i == 0 then 1 else if i == 1 then 2 else if i == 2 then 4
      else if i == 3 then 8 else if i == 4 then 16 else if i == 5 then 32
      else if i == 6 then 64 else 128;
    assert Bit8(a ^ b, i) == ((a ^ b) & m != 0);
    assert Bit8(a, i) == (a & m != 0);
    assert Bit8(b, i) == (b & m != 0);
    assert ((a ^ b) & m != 0) == ((a & m != 0) != (b & m != 0));
  }

  lemma ByteBitsXor(a: byte, b: byte)
    ensures ByteBits(a ^ b) == Xor(ByteBits(a), ByteBits(b))
  {
    forall i | 0 <= i < 8
      ensures ByteBits(a ^ b)[i] == Xor(ByteBits(a), ByteBits(b))[i]
    {
      Bit8Xor(a, b, i);
    }
  }

  lemma TableLinear(poly: Word, i: seq<bool>, j: seq<bool>)
    requires |i| == 8 && |j| == 8
    ensures Table(poly, Xor(i, j)) == Xor(Table(poly, i), Table(poly, j))
  {
    assert Xor(i, j) + Falses(24) == Xor(i + Falses(24), j + Falses(24));
    StepsLinear(poly, i + Falses(24), j + Falses(24), 8);
  }

  lemma TableZero(poly: Word)
    ensures Table(poly, Falses(8)) == Zero
  {
    assert Falses(8) + Falses(24) == Zero;
    StepsZero(poly, 8);
  }

  // ---------------------------------------------------------------------------------------
  // The table-driven CRC is the bitwise one

  function Low(x: Word): Word { x[..8] + Falses(24) }

  function High(x: Word): (r: Word)
    ensures forall i :: 0 <= i < 8 ==> !r[i]
  {
    Falses(8) + x[8..]
  }

  lemma SplitLowHigh(x: Word)
    ensures x == Xor(Low(x), High(x))
  {
  }

  lemma ShrXorByteReg(c: Word, b: byte)
    ensures Shr(High(Xor(c, ByteReg(b))), 8) == Shr(c, 8)
  {
  }

  lemma LowXorByte(c: Word, b: byte)
    ensures Xor(c, ByteReg(b))[..8] + Falses(24) == Xor(c[..8], ByteBits(b)) + Falses(24)
  {
  }

  /** One table lookup does the work of xoring in the byte and eight bit steps. */
  lemma TableStepIsBitwise(poly: Word, c: Word, b: byte)
    ensures TableStep(poly, c, b) == Steps(poly, Xor(c, ByteReg(b)), 8)
  {
    var x := Xor(c, ByteReg(b));
    SplitLowHigh(x);
    StepsLinear(poly, Low(x), High(x), 8);
    StepsShift(poly, High(x), 8);
    ShrXorByteReg(c, b);
    LowXorByte(c, b);
  }

  /** The table-driven fold that Go runs is the bitwise CRC. */
  lemma {:induction false} RawIsBitwise(poly: Word, c: Word, data: seq<byte>)
    ensures Raw(poly, c, data) == BitwiseRaw(poly, c, data)
    decreases |data|
  {
    if |data| > 0 {
      TableStepIsBitwise(poly, c, data[0]);
      RawIsBitwise(poly, TableStep(poly, c, data[0]), data[1..]);
    }
  }

  // ---------------------------------------------------------------------------------------
  // Properties of the fold

  lemma ByteRegXor(u: byte, v: byte)
    ensures ByteReg(u ^ v) == Xor(ByteReg(u), ByteReg(v))
  {
    ByteBitsXor(u, v);
  }

  lemma ByteRegZero()
    ensures ByteReg(0) == Zero
  {
    assert forall i | 0 <= i < 8 :: !Bit8(0, i);
  }

  /** A zero byte only divides the register eight bits further. */
  lemma TableStepZeroByte(poly: Word, c: Word)
    ensures TableStep(poly, c, 0) == Steps(poly, c, 8)
  {
    TableStepIsBitwise(poly, c, 0);
    ByteRegZero();
    assert Xor(c, Zero) == c;
  }

  lemma XorSwap(a: Word, b: Word, c: Word, d: Word)
    ensures Xor(Xor(a, b), Xor(c, d)) == Xor(Xor(a, c), Xor(b, d))
  {
  }

  lemma TableStepLinear(poly: Word, a: Word, b: Word, u: byte, v: byte)
    ensures TableStep(poly, Xor(a, b), u ^ v) == Xor(TableStep(poly, a, u), TableStep(poly, b, v))
  {
    TableStepIsBitwise(poly, Xor(a, b), u ^ v);
    TableStepIsBitwise(poly, a, u);
    TableStepIsBitwise(poly, b, v);
    ByteRegXor(u, v);
    XorSwap(a, b, ByteReg(u), ByteReg(v));
    StepsLinear(poly, Xor(a, ByteReg(u)), Xor(b, ByteReg(v)), 8);
  }

  /** Feeding two pieces one after the other is feeding their concatenation. */
  lemma {:induction false} RawAppend(poly: Word, c: Word, x: seq<byte>, y: seq<byte>)
    ensures Raw(poly, c, x + y) == Raw(poly, Raw(poly, c, x), y)
    decreases |x|
  {
    if |x| == 0 {
      assert x + y == y;
    } else {
      assert (x + y)[0] == x[0];
      assert (x + y)[1..] == x[1..] + y;
      RawAppend(poly, TableStep(poly, c, x[0]), x[1..], y);
    }
  }

  /** Go's Update composes: updating by x and then by y is updating by x + y. */
  lemma UpdateAppend(poly: Word, crc: Word, x: seq<byte>, y: seq<byte>)
    ensures Update(poly, Update(poly, crc, x), y) == Update(poly, crc, x + y)
  {
    RawAppend(poly, Not(crc), x, y);
    assert Not(Not(Raw(poly, Not(crc), x))) == Raw(poly, Not(crc), x);
  }

  /** The fold is linear over GF(2) in the register and the data together. */
  lemma {:induction false} RawLinear(poly: Word, a: Word, b: Word, x: seq<byte>, y: seq<byte>)
    requires |x| == |y|
    ensures Raw(poly, Xor(a, b), XorBytes(x, y)) == Xor(Raw(poly, a, x), Raw(poly, b, y))
    decreases |x|
  {
    if |x| > 0 {
      var xy := XorBytes(x, y);
      TableStepLinear(poly, a, b, x[0], y[0]);
      assert xy[1..] == XorBytes(x[1..], y[1..]);
      RawLinear(poly, TableStep(poly, a, x[0]), TableStep(poly, b, y[0]), x[1..], y[1..]);
    }
  }

  /** n zero bytes divide the register 8n bits further. */
  lemma {:induction false} RawZeros(poly: Word, c: Word, n: nat)
    ensures Raw(poly, c, Zeros(n)) == Steps(poly, c, 8 * n)
    decreases n
  {
    if n > 0 {
      var z := Zeros(n);
      assert z[0] == 0 && z[1..] == Zeros(n - 1);
      calc {
        Raw(poly, c, z);
        Raw(poly, TableStep(poly, c, 0), Zeros(n - 1));
        { TableStepZeroByte(poly, c); }
        Raw(poly, Steps(poly, c, 8), Zeros(n - 1));
        { RawZeros(poly, Steps(poly, c, 8), n - 1); }
        Steps(poly, Steps(poly, c, 8), 8 * (n - 1));
        { StepsAdd(poly, c, 8, 8 * (n - 1)); }
        Steps(poly, c, 8 * n);
      }
    }
  }

  /** A byte followed by n zero bytes, fed to a clear register. */
  lemma RawByteZeros(poly: Word, b: byte, n: nat)
    ensures Raw(poly, Zero, [b] + Zeros(n)) == Steps(poly, ByteReg(b), 8 * (n + 1))
  {
    var r := ByteReg(b);
    calc {
      Raw(poly, Zero, [b] + Zeros(n));
      { RawAppend(poly, Zero, [b], Zeros(n)); }
      Raw(poly, Raw(poly, Zero, [b]), Zeros(n));
      { assert Raw(poly, Zero, [b]) == TableStep(poly, Zero, b);
        TableStepIsBitwise(poly, Zero, b);
        assert Xor(Zero, r) == r; }
      Raw(poly, Steps(poly, r, 8), Zeros(n));
      { RawZeros(poly, Steps(poly, r, 8), n); }
      Steps(poly, Steps(poly, r, 8), 8 * n);
      { StepsAdd(poly, r, 8, 8 * n); }
      Steps(poly, r, 8 * (n + 1));
    }
  }

  /** A leading zero byte leaves the unmasked CRC unchanged. */
  lemma RawLeadingZero(poly: Word, data: seq<byte>)
    ensures Raw(poly, Zero, [0] + data) == Raw(poly, Zero, data)
  {
    RawAppend(poly, Zero, [0], data);
    TableStepZeroByte(poly, Zero);
    StepsZero(poly, 8);
  }

  /** The CRC-32 of a window is its unmasked CRC xored with the CRC-32 of as many zero bytes:
      the identity that RollingCRC.Sum32 relies on. */
  lemma ChecksumSplit(poly: Word, w: seq<byte>)
    ensures Checksum(poly, w) == Xor(Raw(poly, Zero, w), Checksum(poly, Zeros(|w|)))
  {
    var ones := Not(Zero);
    RawLinear(poly, Zero, ones, w, Zeros(|w|));
    assert Xor(Zero, ones) == ones;
    assert XorBytes(w, Zeros(|w|)) == w;
    var x := Raw(poly, Zero, w);
    var y := Raw(poly, ones, Zeros(|w|));
    assert Not(Xor(x, y)) == Xor(x, Not(y));
  }

  // ---------------------------------------------------------------------------------------
  // crcmulTable multiplies

  /** The reduction at the end of crcmulTable, before the final inversion. */
  function Reduce(poly: Word, m: seq<bool>): Word
    requires |m| == 64
  {
    var m' := Reverse(m);
    Xor(Shr(m', 32)[..32], Table(poly, Shr(m', 24)[..8]))
  }

  /** The partial sums of the product in the order the Go expression adds them:
      `c*(a&0x80) ^ c*(a&0x40) ^ ...`, the first n terms. */
  function GoSum(c: seq<bool>, a: seq<bool>, n: nat): (r: seq<bool>)
    requires |c| == 64 && |a| == 64 && 1 <= n <= 8
    ensures |r| == 64
  {
    if n == 1 then Prod(c, a, 7) else Xor(GoSum(c, a, n - 1), Prod(c, a, 8 - n))
  }

  lemma CrcMulTableReduces(poly: Word, crc: Word, val: byte)
    ensures CrcMulTable(poly, crc, val)
         == Not(Reduce(poly, GoSum(Reverse(Not(crc)) + Falses(32), Reverse(ByteBits(val)) + Falses(56), 8)))
  {
    var c := Reverse(Not(crc)) + Falses(32);
    var a := Reverse(ByteBits(val)) + Falses(56);
    assert GoSum(c, a, 2) == Xor(Prod(c, a, 7), Prod(c, a, 6));
    assert GoSum(c, a, 3) == Xor(GoSum(c, a, 2), Prod(c, a, 5));
    assert GoSum(c, a, 4) == Xor(GoSum(c, a, 3), Prod(c, a, 4));
    assert GoSum(c, a, 5) == Xor(GoSum(c, a, 4), Prod(c, a, 3));
    assert GoSum(c, a, 6) == Xor(GoSum(c, a, 5), Prod(c, a, 2));
    assert GoSum(c, a, 7) == Xor(GoSum(c, a, 6), Prod(c, a, 1));
    assert GoSum(c, a, 8) == Xor(GoSum(c, a, 7), Prod(c, a, 0));
  }

  lemma ReduceLinear(poly: Word, x: seq<bool>, y: seq<bool>)
    requires |x| == 64 && |y| == 64
    ensures Reduce(poly, Xor(x, y)) == Xor(Reduce(poly, x), Reduce(poly, y))
  {
    var rx, ry, rxy := Reverse(x), Reverse(y), Reverse(Xor(x, y));
    assert Shr(rxy, 24)[..8] == Xor(Shr(rx, 24)[..8], Shr(ry, 24)[..8]);
    TableLinear(poly, Shr(rx, 24)[..8], Shr(ry, 24)[..8]);
    assert Shr(rxy, 32)[..32] == Xor(Shr(rx, 32)[..32], Shr(ry, 32)[..32]);
    XorSwap(Shr(rx, 32)[..32], Shr(ry, 32)[..32],
            Table(poly, Shr(rx, 24)[..8]), Table(poly, Shr(ry, 24)[..8]));
  }

  /** The bits of r that a shift right by k drops, placed where crcmulTable finds them: at
      the top of the overflow byte. */
  function LowPart(r: Word, k: nat): (p: seq<bool>)
    requires k <= 8
    ensures |p| == 8
  {
    seq(8, u requires 0 <= u < 8 => u >= 8 - k && r[u + k - 8])
  }

  /** One single-bit product, reduced: r shifted by k plus the table entry of the bits that
      overflowed; or nothing when the bit of a is clear. */
  lemma ReduceProd(poly: Word, r: Word, a: seq<bool>, k: nat)
    requires |a| == 64 && k < 8
    ensures Reduce(poly, Prod(Reverse(r) + Falses(32), a, k))
         == if a[k] then Xor(Shr(r, k), Table(poly, LowPart(r, k))) else Zero
  {
    var c := Reverse(r) + Falses(32);
    if a[k] {
      var m' := Reverse(Shl(c, k));
      assert Shr(m', 32)[..32] == Shr(r, k);
      assert Shr(m', 24)[..8] == LowPart(r, k);
    } else {
      assert Reverse(Falses(64)) == Falses(64);
      assert Shr(Falses(64), 32)[..32] == Zero;
      assert Shr(Falses(64), 24)[..8] == Falses(8);
      TableZero(poly);
    }
  }

  /** The bits of r below k, and those from k up. */
  function BitsBelow(r: Word, k: nat): Word {
    seq(32, i requires 0 <= i < 32 => i < k && r[i])
  }

  function BitsFrom(r: Word, k: nat): (h: Word)
    ensures forall i :: 0 <= i < k && i < 32 ==> !h[i]
  {
    seq(32, i requires 0 <= i < 32 => i >= k && r[i])
  }

  lemma SplitBits(r: Word, k: nat)
    ensures r == Xor(BitsBelow(r, k), BitsFrom(r, k))
    ensures Shr(BitsFrom(r, k), k) == Shr(r, k)
  {
  }

  lemma WidenLowPart(r: Word, k: nat)
    requires k <= 8
    ensures Shr(LowPart(r, k) + Falses(24), 8 - k) == BitsBelow(r, k)
  {
  }

  /** The table entry of the k dropped bits is k steps of division of those bits. */
  lemma TableLowPart(poly: Word, r: Word, k: nat)
    requires k <= 8
    ensures Table(poly, LowPart(r, k)) == Steps(poly, BitsBelow(r, k), k)
  {
    var wide: Word := LowPart(r, k) + Falses(24);
    calc {
      Table(poly, LowPart(r, k));
      Steps(poly, wide, 8);
      { StepsAdd(poly, wide, 8 - k, k); }
      Steps(poly, Steps(poly, wide, 8 - k), k);
      { StepsShift(poly, wide, 8 - k); }
      Steps(poly, Shr(wide, 8 - k), k);
      { WidenLowPart(r, k); }
      Steps(poly, BitsBelow(r, k), k);
    }
  }

  lemma XorComm(a: Word, b: Word)
    ensures Xor(a, b) == Xor(b, a)
  {
  }

  /** Shifting right by k and reducing the k dropped bits with the table is k bit steps of
      division. */
  lemma ShiftAndTable(poly: Word, r: Word, k: nat)
    requires k <= 8
    ensures Xor(Shr(r, k), Table(poly, LowPart(r, k))) == Steps(poly, r, k)
  {
    var lo, hi := BitsBelow(r, k), BitsFrom(r, k);
    calc {
      Steps(poly, r, k);
      { SplitBits(r, k); }
      Steps(poly, Xor(lo, hi), k);
      { StepsLinear(poly, lo, hi, k); }
      Xor(Steps(poly, lo, k), Steps(poly, hi, k));
      { StepsShift(poly, hi, k); SplitBits(r, k); }
      Xor(Steps(poly, lo, k), Shr(r, k));
      { TableLowPart(poly, r, k); }
      Xor(Table(poly, LowPart(r, k)), Shr(r, k));
      { XorComm(Table(poly, LowPart(r, k)), Shr(r, k)); }
      Xor(Shr(r, k), Table(poly, LowPart(r, k)));
    }
  }

  /** The reduced single-bit product of bit n - 1 of the byte is MulPrefix's term n. */
  lemma ReduceTerm(poly: Word, r: Word, val: byte, n: nat)
    requires 1 <= n <= 8
    ensures Reduce(poly, Prod(Reverse(r) + Falses(32), Reverse(ByteBits(val)) + Falses(56), 8 - n))
         == if ByteBits(val)[n - 1] then Steps(poly, r, 8 - n) else Zero
  {
    var a := Reverse(ByteBits(val)) + Falses(56);
    assert a[8 - n] == ByteBits(val)[n - 1];
    ReduceProd(poly, r, a, 8 - n);
    ShiftAndTable(poly, r, 8 - n);
  }

  lemma {:induction false} GoSumReduces(poly: Word, r: Word, val: byte, n: nat)
    requires 1 <= n <= 8
    ensures Reduce(poly, GoSum(Reverse(r) + Falses(32), Reverse(ByteBits(val)) + Falses(56), n))
         == MulPrefix(poly, r, ByteBits(val), n)
    decreases n
  {
    var c := Reverse(r) + Falses(32);
    var a := Reverse(ByteBits(val)) + Falses(56);
    var v := ByteBits(val);
    var t := if v[n - 1] then Steps(poly, r, 8 - n) else Zero;
    if n == 1 {
      calc {
        Reduce(poly, GoSum(c, a, 1));
        Reduce(poly, Prod(c, a, 7));
        { ReduceTerm(poly, r, val, 1); }
        t;
        { assert Xor(Zero, t) == t; }
        Xor(MulPrefix(poly, r, v, 0), t);
        MulPrefix(poly, r, v, 1);
      }
    } else {
      calc {
        Reduce(poly, GoSum(c, a, n));
        Reduce(poly, Xor(GoSum(c, a, n - 1), Prod(c, a, 8 - n)));
        { ReduceLinear(poly, GoSum(c, a, n - 1), Prod(c, a, 8 - n)); }
        Xor(Reduce(poly, GoSum(c, a, n - 1)), Reduce(poly, Prod(c, a, 8 - n)));
        { GoSumReduces(poly, r, val, n - 1); ReduceTerm(poly, r, val, n); }
        Xor(MulPrefix(poly, r, v, n - 1), t);
        MulPrefix(poly, r, v, n);
      }
    }
  }

  /** crcmulTable computes the product of the complemented register and the byte. */
  lemma CrcMulTableIsByteMul(poly: Word, crc: Word, val: byte)
    ensures Not(CrcMulTable(poly, crc, val)) == ByteMul(poly, Not(crc), val)
  {
    CrcMulTableReduces(poly, crc, val);
    GoSumReduces(poly, Not(crc), val, 8);
    var x := ByteMul(poly, Not(crc), val);
    assert Not(Not(x)) == x;
  }

  // ---------------------------------------------------------------------------------------
  // Multiplying by the CRC of 0x80 and zeros shifts a byte to the front of a window

  /** The register with only bit j set. */
  function Unit(j: nat): Word {
    seq(32, i requires 0 <= i < 32 => i == j)
  }

  /** Bits 0 .. n - 1 of a byte, widened to a register. */
  function PartialReg(v: byte, n: nat): Word
    requires n <= 8
  {
    seq(32, i requires 0 <= i < 32 => i < n && ByteBits(v)[i])
  }

  lemma Steps0x80(poly: Word, j: nat)
    requires j < 8
    ensures Steps(poly, ByteReg(0x80), 7 - j) == Unit(j)
  {
    var b := ByteReg(0x80);
    assert forall i | 0 <= i < 8 :: b[i] == (i == 7);
    StepsShift(poly, b, 7 - j);
  }

  /** The term of bit n - 1 in MulPrefix, when r is 0x80 divided m more bits. */
  lemma MulTermOf0x80(poly: Word, m: nat, n: nat)
    requires 1 <= n <= 8
    ensures Steps(poly, Steps(poly, ByteReg(0x80), m), 8 - n) == Steps(poly, Unit(n - 1), m)
  {
    var b := ByteReg(0x80);
    calc {
      Steps(poly, Steps(poly, b, m), 8 - n);
      { StepsAdd(poly, b, m, 8 - n); }
      Steps(poly, b, m + (8 - n));
      { StepsAdd(poly, b, 8 - n, m); }
      Steps(poly, Steps(poly, b, 8 - n), m);
      { Steps0x80(poly, n - 1); }
      Steps(poly, Unit(n - 1), m);
    }
  }

  lemma {:induction false} MulPrefixOf0x80(poly: Word, v: byte, m: nat, n: nat)
    requires n <= 8
    ensures MulPrefix(poly, Steps(poly, ByteReg(0x80), m), ByteBits(v), n)
         == Steps(poly, PartialReg(v, n), m)
    decreases n
  {
    var r := Steps(poly, ByteReg(0x80), m);
    if n == 0 {
      assert PartialReg(v, 0) == Zero;
      StepsZero(poly, m);
    } else {
      var bit := ByteBits(v)[n - 1];
      var u := if bit then Unit(n - 1) else Zero;
      assert PartialReg(v, n) == Xor(PartialReg(v, n - 1), u);
      calc {
        MulPrefix(poly, r, ByteBits(v), n);
        Xor(MulPrefix(poly, r, ByteBits(v), n - 1), if bit then Steps(poly, r, 8 - n) else Zero);
        { MulPrefixOf0x80(poly, v, m, n - 1);
          MulTermOf0x80(poly, m, n);
          StepsZero(poly, m); }
        Xor(Steps(poly, PartialReg(v, n - 1), m), Steps(poly, u, m));
        { StepsLinear(poly, PartialReg(v, n - 1), u, m); }
        Steps(poly, PartialReg(v, n), m);
      }
    }
  }

  /** The identity RollingCRC rests on: multiplying the unmasked CRC of 0x80 followed by k
      zero bytes by a byte v gives the unmasked CRC of v followed by k zero bytes, that is
      v's contribution to the CRC of a window it is the first of k + 1 bytes of. */
  lemma ByteMulWindow(poly: Word, v: byte, k: nat)
    ensures ByteMul(poly, Raw(poly, Zero, [0x80] + Zeros(k)), v) == Raw(poly, Zero, [v] + Zeros(k))
  {
    RawByteZeros(poly, 0x80, k);
    RawByteZeros(poly, v, k);
    MulPrefixOf0x80(poly, v, 8 * (k + 1), 8);
    assert PartialReg(v, 8) == ByteReg(v);
  }

  /** Removing the first byte of a window: its contribution is the CRC of that byte followed
      by zeros, and xoring it out leaves the CRC of the rest. */
  lemma RemoveFront(poly: Word, w: seq<byte>)
    requires |w| >= 1
    ensures Xor(Raw(poly, Zero, w), Raw(poly, Zero, [w[0]] + Zeros(|w| - 1))) == Raw(poly, Zero, w[1..])
  {
    var front := [w[0]] + Zeros(|w| - 1);
    var rest := [0 as byte] + w[1..];
    assert XorBytes(front, rest) == w;
    assert Xor(Zero, Zero) == Zero;
    RawLinear(poly, Zero, Zero, front, rest);
    RawLeadingZero(poly, w[1..]);
    var a, b := Raw(poly, Zero, front), Raw(poly, Zero, w[1..]);
    assert Xor(Xor(a, b), a) == b;
  }

  // ---------------------------------------------------------------------------------------
  // Division by a polynomial with its constant term is invertible

  lemma StepInjective(poly: Word, a: Word, b: Word)
    requires poly[31]
    requires Step(poly, a) == Step(poly, b)
    ensures a == b
  {
    assert Step(poly, a)[31] == a[0] && Step(poly, b)[31] == b[0];
    forall i | 0 <= i < 32
      ensures a[i] == b[i]
    {
      if i > 0 {
        assert Step(poly, a)[i - 1] == Step(poly, b)[i - 1];
      }
    }
  }

  lemma {:induction false} StepsInjective(poly: Word, a: Word, b: Word, n: nat)
    requires poly[31]
    requires Steps(poly, a, n) == Steps(poly, b, n)
    ensures a == b
    decreases n
  {
    if n > 0 {
      StepsInjective(poly, Step(poly, a), Step(poly, b), n - 1);
      StepInjective(poly, a, b);
    }
  }

  /** With the constant term present, the same data never maps two registers to one. */
  lemma RawInjective(poly: Word, a: Word, b: Word, data: seq<byte>)
    requires poly[31]
    requires Raw(poly, a, data) == Raw(poly, b, data)
    ensures a == b
  {
    assert XorBytes(data, data) == Zeros(|data|);
    RawLinear(poly, a, b, data, data);
    var d := Raw(poly, a, data);
    assert Xor(d, d) == Zero;
    RawZeros(poly, Xor(a, b), |data|);
    StepsZero(poly, 8 * |data|);
    StepsInjective(poly, Xor(a, b), Zero, 8 * |data|);
    assert Xor(Xor(a, b), b) == a;
  }

  /** The constant term of 0xEDB88320 (its top bit, in reflected order). */
  lemma IEEETopBit()
    ensures IEEE[31]
  {
    assert BitsOf(0x1, 1)[0];
    assert BitsOf(0x3, 2)[1];
    assert BitsOf(0x7, 3)[2];
    assert BitsOf(0xE, 4)[3];
    assert BitsOf(0x1D, 5)[4];
    assert BitsOf(0x3B, 6)[5];
    assert BitsOf(0x76, 7)[6];
    assert BitsOf(0xED, 8)[7];
    assert BitsOf(0x1DB, 9)[8];
    assert BitsOf(0x3B6, 10)[9];
    assert BitsOf(0x76D, 11)[10];
    assert BitsOf(0xEDB, 12)[11];
    assert BitsOf(0x1DB7, 13)[12];
    assert BitsOf(0x3B6E, 14)[13];
    assert BitsOf(0x76DC, 15)[14];
    assert BitsOf(0xEDB8, 16)[15];
    assert BitsOf(0x1DB71, 17)[16];
    assert BitsOf(0x3B6E2, 18)[17];
    assert BitsOf(0x76DC4, 19)[18];
    assert BitsOf(0xEDB88, 20)[19];
    assert BitsOf(0x1DB710, 21)[20];
    assert BitsOf(0x3B6E20, 22)[21];
    assert BitsOf(0x76DC41, 23)[22];
    assert BitsOf(0xEDB883, 24)[23];
    assert BitsOf(0x1DB7106, 25)[24];
    assert BitsOf(0x3B6E20C, 26)[25];
    assert BitsOf(0x76DC419, 27)[26];
    assert BitsOf(0xEDB8832, 28)[27];
    assert BitsOf(0x1DB71064, 29)[28];
    assert BitsOf(0x3B6E20C8, 30)[29];
    assert BitsOf(0x76DC4190, 31)[30];
    assert BitsOf(0xEDB88320, 32)[31];
  }

  /** The low coefficients of 0xEDB88320. */
  lemma IEEELowBits()
    ensures !IEEE[0] && !IEEE[1] && !IEEE[2] && !IEEE[3] && !IEEE[4] && IEEE[5] && !IEEE[6]
  {
    assert BitsOf(0xEDB88320, 32) == [false] + BitsOf(0x76DC4190, 31);
    assert BitsOf(0x76DC4190, 31) == [false] + BitsOf(0x3B6E20C8, 30);
    assert BitsOf(0x3B6E20C8, 30) == [false] + BitsOf(0x1DB71064, 29);
    assert BitsOf(0x1DB71064, 29) == [false] + BitsOf(0xEDB8832, 28);
    assert BitsOf(0xEDB8832, 28) == [false] + BitsOf(0x76DC419, 27);
    assert BitsOf(0x76DC419, 27) == [true] + BitsOf(0x3B6E20C, 26);
    assert BitsOf(0x3B6E20C, 26) == [false] + BitsOf(0x1DB7106, 25);
  }

  /** The bits of 0xEDB88320 that the proofs below use. */
  lemma IEEEBits()
    ensures IEEE[31] && !IEEE[0] && !IEEE[1] && !IEEE[2] && !IEEE[3] && !IEEE[4] && IEEE[5] && !IEEE[6]
  {
    IEEETopBit();
    IEEELowBits();
  }

  /** Eight divisions of the all-ones register by the IEEE polynomial clear its top bit. */
  lemma OnesEightSteps()
    ensures !Steps(IEEE, Not(Zero), 8)[31]
  {
    IEEEBits();
    var s0: Word := Not(Zero);
    var s1 := Step(IEEE, s0);
    var s2 := Step(IEEE, s1);
    var s3 := Step(IEEE, s2);
    var s4 := Step(IEEE, s3);
    var s5 := Step(IEEE, s4);
    var s6 := Step(IEEE, s5);
    var s7 := Step(IEEE, s6);
    assert s0[0] && s0[7] && s0[1];
    assert s1[0] && s1[6];
    assert !s2[5];
    assert !s3[4];
    assert !s4[3];
    assert !s5[2];
    assert !s6[1];
    assert !s7[0];
    assert Steps(IEEE, s0, 8) == Steps(IEEE, s1, 7) == Steps(IEEE, s2, 6) == Steps(IEEE, s3, 5);
    assert Steps(IEEE, s3, 5) == Steps(IEEE, s4, 4) == Steps(IEEE, s5, 3) == Steps(IEEE, s6, 2);
    assert Steps(IEEE, s6, 2) == Steps(IEEE, s7, 1) == Step(IEEE, s7);
  }

  /** Under the IEEE polynomial, one zero byte moves the all-ones preset somewhere else. */
  lemma OnesZeroByte()
    ensures Raw(IEEE, Not(Zero), [0]) != Not(Zero)
  {
    OnesEightSteps();
    assert [0 as byte] == Zeros(1);
    RawZeros(IEEE, Not(Zero), 1);
  }
}
