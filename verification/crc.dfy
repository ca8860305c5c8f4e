/** The chip's 16-bit checksum: a bit-serial CRC with polynomial 0x8005,
    zero initial value and no final xor, fed least-significant bit first.
    It is kept in a streaming context (begin / update / end) and also
    offered as a one-shot function. */
module Crc {
  import opened Esp

  const Polynomial: bv16 := 0x8005

  /** Bit `i` of byte `b` as a 0/1 register-width value. */
  function Bit(b: byte, i: nat): bv16
    requires i < 8
  {
    ((b as bv16) >> i) & 1
  }

  /** One step of the shift register. The top bit of the accumulator falls
      out, the accumulator shifts left with 16-bit wrap-around, and the
      polynomial is xored in when the data bit differs from the bit that
      fell out. The condition is written as an all-ones or all-zeros mask
      over the polynomial; `ShiftIsSourceStep` shows it is the branch. */
  function Shift(crc: bv16, dataBit: bv16): bv16
  {
    (crc << 1) ^ (Polynomial & (0 - (((crc >> 15) ^ dataBit) & 1)))
  }

  /** The register after the byte loop has fed the lowest `n` bits of `b`,
      lowest first. */
  function FeedBits(crc: bv16, b: byte, n: nat): bv16
    requires n <= 8
  {
    if n == 0 then crc else Shift(FeedBits(crc, b, n - 1), Bit(b, n - 1))
  }

  /** Feeds one whole byte: exactly eight steps. */
  function FeedByte(crc: bv16, b: byte): bv16
  {
    FeedBits(crc, b, 8)
  }

  /** Feeds a byte sequence, first byte first. */
  function Feed(crc: bv16, data: seq<byte>): bv16
    decreases |data|
  {
    if |data| == 0 then crc else Feed(FeedByte(crc, data[0]), data[1..])
  }

  /** The streaming context: just the accumulator. */
  datatype Context = Context(crc: bv16)

  function Begin(): Context
  {
    Context(0x0000)
  }

  /** Feeds the bytes of `data` to the accumulator, first byte first; an
      empty update leaves the context as it was. */
  function Update(ctx: Context, data: seq<byte>): (r: Context)
    ensures |data| == 0 ==> r == ctx
  {
    Context(Feed(ctx.crc, data))
  }

  function End(ctx: Context): bv16
  {
    ctx.crc
  }

  /** The one-shot checksum: begin, one update, end. */
  function Checksum(data: seq<byte>): (r: bv16)
    ensures |data| == 0 ==> r == 0x0000
  {
    End(Update(Begin(), data))
  }

  /** The per-bit step is the source's branch: remember bit 15, shift
      left within 16 bits, and xor the polynomial in exactly when the data
      bit differs from the remembered bit. */
  lemma ShiftIsSourceStep(crc: bv16, dataBit: bv16)
    requires dataBit == 0 || dataBit == 1
    ensures Shift(crc, dataBit) ==
      (var crcBit := crc >> 15;
       var shifted := crc << 1;
       if dataBit != crcBit then shifted ^ Polynomial else shifted)
  {
    if crc >> 15 == 0 {
      if dataBit == 0 {} else {}
    } else {
      if dataBit == 0 {} else {}
    }
  }

  /** The byte loop's mask `1 << i` runs through the eight single-bit values
      and wraps to zero after the eighth, which ends the loop; testing the
      byte against the mask reads exactly bit `i`. */
  lemma ShiftRegisterMask(b: byte, i: nat)
    requires i <= 8
    ensures ((1 as bv8) << i == 0) <==> i == 8
    ensures i < 8 ==> ((b & ((1 as bv8) << i) != 0) <==> Bit(b, i) == 1)
  {
  }

  /** Feeding `a` and then `b` is feeding `a + b`. */
  lemma {:induction false} FeedAppend(crc: bv16, a: seq<byte>, b: seq<byte>)
    ensures Feed(Feed(crc, a), b) == Feed(crc, a + b)
    decreases |a|
  {
    if |a| == 0 {
      assert a + b == b;
    } else {
      assert (a + b)[0] == a[0];
      assert (a + b)[1..] == a[1..] + b;
      FeedAppend(FeedByte(crc, a[0]), a[1..], b);
    }
  }

  /** Two update calls give the same context as one call over the
      concatenation, so the checksum does not depend on call granularity. */
  lemma StreamingSplit(ctx: Context, a: seq<byte>, b: seq<byte>)
    ensures Update(Update(ctx, a), b) == Update(ctx, a + b)
  {
    FeedAppend(ctx.crc, a, b);
  }

  /** Concatenation of a list of chunks. */
  function Flatten(parts: seq<seq<byte>>): seq<byte>
    decreases |parts|
  {
    if |parts| == 0 then [] else parts[0] + Flatten(parts[1..])
  }

  /** Feeding the chunks one update call at a time. */
  function UpdateAll(ctx: Context, parts: seq<seq<byte>>): Context
    decreases |parts|
  {
    if |parts| == 0 then ctx else UpdateAll(Update(ctx, parts[0]), parts[1..])
  }

  /** Splitting the input across any number of update calls yields the
      same checksum as one call over the concatenation. */
  lemma {:induction false} StreamingAnySplit(ctx: Context, parts: seq<seq<byte>>)
    ensures UpdateAll(ctx, parts) == Update(ctx, Flatten(parts))
    decreases |parts|
  {
    if |parts| == 0 {
      assert Feed(ctx.crc, []) == ctx.crc;
    } else {
      StreamingAnySplit(Update(ctx, parts[0]), parts[1..]);
      StreamingSplit(ctx, parts[0], Flatten(parts[1..]));
    }
  }

  /** The wake acknowledgement 04 11 carries the checksum 0x4333, so the
      four-byte wake response is 04 11 33 43. */
  lemma WakeVector()
    ensures Checksum([0x04, 0x11]) == 0x4333
  {
  }

  /** The success status response 04 00 carries the checksum 0x4003. */
  lemma SuccessVector()
    ensures Checksum([0x04, 0x00]) == 0x4003
  {
  }

  // ---------------------------------------------------------------------
  // Linearity: with zero initial value and no final xor the checksum is a
  // linear map over GF(2), which gives single-bit error detection.

  function Xor(a: seq<byte>, b: seq<byte>): (r: seq<byte>)
    requires |a| == |b|
    ensures IsXor(a, b, r)
  {
    seq(|a|, i requires 0 <= i < |a| => a[i] ^ b[i])
  }

  lemma BitXor(b1: byte, b2: byte, i: nat)
    requires i < 8
    ensures Bit(b1 ^ b2, i) == Bit(b1, i) ^ Bit(b2, i)
  {
    // one case per bit position keeps every shift amount constant
    if i == 0 {} else if i == 1 {} else if i == 2 {} else if i == 3 {}
    else if i == 4 {} else if i == 5 {} else if i == 6 {} else {}
  }

  lemma ShiftLinear(c1: bv16, c2: bv16, x1: bv16, x2: bv16)
    ensures Shift(c1 ^ c2, x1 ^ x2) == Shift(c1, x1) ^ Shift(c2, x2)
  {
  }

  // The third register and byte are passed separately (rather than as
  // `c1 ^ c2`) so that the solver only has to chain equalities here.
  lemma {:induction false} FeedBitsLinear(c1: bv16, c2: bv16, c3: bv16, b1: byte, b2: byte, b3: byte, n: nat)
    requires n <= 8 && c3 == c1 ^ c2 && b3 == b1 ^ b2
    ensures FeedBits(c3, b3, n) == FeedBits(c1, b1, n) ^ FeedBits(c2, b2, n)
  {
    if n > 0 {
      FeedBitsLinear(c1, c2, c3, b1, b2, b3, n - 1);
      BitXor(b1, b2, n - 1);
      ShiftLinear(FeedBits(c1, b1, n - 1), FeedBits(c2, b2, n - 1), Bit(b1, n - 1), Bit(b2, n - 1));
    }
  }

  lemma FeedByteLinear(c1: bv16, c2: bv16, c3: bv16, b1: byte, b2: byte, b3: byte)
    requires c3 == c1 ^ c2 && b3 == b1 ^ b2
    ensures FeedByte(c3, b3) == FeedByte(c1, b1) ^ FeedByte(c2, b2)
  {
    FeedBitsLinear(c1, c2, c3, b1, b2, b3, 8);
  }

  lemma FeedStep(crc: bv16, a: seq<byte>)
    requires |a| > 0
    ensures Feed(crc, a) == Feed(FeedByte(crc, a[0]), a[1..])
  {
  }

  /** `a3` is the bytewise xor of `a1` and `a2`. */
  predicate IsXor(a1: seq<byte>, a2: seq<byte>, a3: seq<byte>)
  {
    |a1| == |a2| == |a3| && forall k :: 0 <= k < |a3| ==> a3[k] == a1[k] ^ a2[k]
  }

  lemma XorTail(a1: seq<byte>, a2: seq<byte>, a3: seq<byte>)
    requires IsXor(a1, a2, a3) && |a1| > 0
    ensures IsXor(a1[1..], a2[1..], a3[1..])
  {
    forall k | 0 <= k < |a3| - 1
      ensures a3[1..][k] == a1[1..][k] ^ a2[1..][k]
    {
      assert a3[k + 1] == a1[k + 1] ^ a2[k + 1];
    }
  }

  lemma {:induction false} FeedLinear(c1: bv16, c2: bv16, c3: bv16, a1: seq<byte>, a2: seq<byte>, a3: seq<byte>)
    requires c3 == c1 ^ c2 && IsXor(a1, a2, a3)
    ensures Feed(c3, a3) == Feed(c1, a1) ^ Feed(c2, a2)
    decreases |a1|
  {
    if |a1| > 0 {
      var d1, d2, d3 := FeedByte(c1, a1[0]), FeedByte(c2, a2[0]), FeedByte(c3, a3[0]);
      var t1, t2, t3 := a1[1..], a2[1..], a3[1..];
      calc {
        Feed(c3, a3);
      == { FeedStep(c3, a3); }
        Feed(d3, t3);
      == { FeedByteLinear(c1, c2, c3, a1[0], a2[0], a3[0]);
           XorTail(a1, a2, a3);
           FeedLinear(d1, d2, d3, t1, t2, t3); }
        Feed(d1, t1) ^ Feed(d2, t2);
      == { FeedStep(c1, a1); FeedStep(c2, a2); }
        Feed(c1, a1) ^ Feed(c2, a2);
      }
    }
  }

  /** The checksum of the xor of two equal-length messages is the xor of
      their checksums. */
  lemma ChecksumLinear(a: seq<byte>, b: seq<byte>)
    requires |a| == |b|
    ensures Checksum(Xor(a, b)) == Checksum(a) ^ Checksum(b)
  {
    FeedLinear(0, 0, 0, a, b, Xor(a, b));
  }

  /** `p` with bit `j` of byte `i` inverted. */
  function Flip(p: seq<byte>, i: nat, j: nat): (r: seq<byte>)
    requires i < |p| && j < 8
    ensures |r| == |p|
  {
    p[i := p[i] ^ ((1 as bv8) << j)]
  }

  /** An all-zero byte sequence. */
  function Zeros(n: nat): (r: seq<byte>)
    ensures |r| == n
    ensures forall k :: 0 <= k < n ==> r[k] == 0
  {
    seq(n, k => 0)
  }

  /** Shifting in a zero bit keeps a zero register at zero and a non-zero
      register non-zero: a set top bit leaves through the xor with the
      polynomial, whose lowest bit is set. */
  lemma ShiftZero(crc: bv16)
    ensures (Shift(crc, 0) == 0) <==> (crc == 0)
  {
  }

  lemma {:induction false} FeedZeroBits(crc: bv16, n: nat)
    requires n <= 8
    ensures (FeedBits(crc, 0, n) == 0) <==> (crc == 0)
  {
    if n > 0 {
      FeedZeroBits(crc, n - 1);
      assert Bit(0, n - 1) == 0;
      ShiftZero(FeedBits(crc, 0, n - 1));
    }
  }

  lemma {:induction false} FeedZeros(crc: bv16, n: nat)
    ensures (Feed(crc, Zeros(n)) == 0) <==> (crc == 0)
    decreases n
  {
    if n > 0 {
      FeedZeroBits(crc, 8);
      assert Zeros(n)[1..] == Zeros(n - 1);
      FeedZeros(FeedByte(crc, 0), n - 1);
      FeedStep(crc, Zeros(n));
    }
  }

  /** A single set bit drives the zero register to a non-zero value. */
  lemma SingleBitByte(j: nat)
    requires j < 8
    ensures FeedByte(0, (1 as bv8) << j) != 0
  {
    if j == 0 { assert FeedByte(0, 0x01) == 0x8303; }
    else if j == 1 { assert FeedByte(0, 0x02) == 0x8183; }
    else if j == 2 { assert FeedByte(0, 0x04) == 0x80C3; }
    else if j == 3 { assert FeedByte(0, 0x08) == 0x8063; }
    else if j == 4 { assert FeedByte(0, 0x10) == 0x8033; }
    else if j == 5 { assert FeedByte(0, 0x20) == 0x801B; }
    else if j == 6 { assert FeedByte(0, 0x40) == 0x800F; }
    else { assert FeedByte(0, 0x80) == 0x8005; }
  }

  /** Flipping any single bit of a message changes its checksum. */
  lemma SingleBitErrorDetected(p: seq<byte>, i: nat, j: nat)
    requires i < |p| && j < 8
    ensures Checksum(Flip(p, i, j)) != Checksum(p)
  {
    var e := Zeros(i) + [(1 as bv8) << j] + Zeros(|p| - i - 1);
    assert Xor(p, e) == Flip(p, i, j);
    ChecksumLinear(p, e);
    FeedAppend(0, Zeros(i), [(1 as bv8) << j] + Zeros(|p| - i - 1));
    assert Zeros(i) + ([(1 as bv8) << j] + Zeros(|p| - i - 1)) == e;
    FeedZeros(0, i);
    var c := Feed(0, Zeros(i));
    assert c == 0;
    SingleBitByte(j);
    var rest := [(1 as bv8) << j] + Zeros(|p| - i - 1);
    assert rest[0] == (1 as bv8) << j;
    assert rest[1..] == Zeros(|p| - i - 1);
    FeedStep(0, rest);
    FeedZeros(FeedByte(0, (1 as bv8) << j), |p| - i - 1);
    assert Checksum(e) != 0;
  }
}
