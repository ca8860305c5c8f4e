/** Validation of the checksum that trails every response of the chip:
    the last two bytes hold, least significant byte first, the checksum of
    everything before them. */
module Util {
  import opened Esp
  import opened Crc

  /** A 16-bit value as it travels on the wire: low byte first. */
  function LittleEndian(w: bv16): (r: seq<byte>)
    ensures |r| == 2
  {
    [(w & 0xFF) as byte, (w >> 8) as byte]
  }

  /** The checksum stored in the last two bytes of a response. */
  function StoredCrc(resp: seq<byte>): (w: bv16)
    requires |resp| >= 2
    ensures LittleEndian(w) == resp[|resp| - 2..]
  {
    (resp[|resp| - 2] as bv16) | ((resp[|resp| - 1] as bv16) << 8)
  }

  /** Reading back a value written little-endian gives the value again. */
  lemma LittleEndianRoundTrip(w: bv16)
    ensures StoredCrc(LittleEndian(w)) == w
  {
  }

  /** A payload followed by its own checksum. */
  function Seal(p: seq<byte>): (r: seq<byte>)
    ensures |r| == |p| + 2
    ensures r[..|p|] == p
  {
    p + LittleEndian(Checksum(p))
  }

  /** Accepts a response exactly when its last two bytes are the
      little-endian checksum of the bytes before them, and otherwise reports
      a checksum error; there is no third outcome. Responses shorter than two
      bytes never reach it. */
  function CheckCrc(resp: seq<byte>): (r: Result<()>)
    requires |resp| >= 2
    ensures r == Ok(()) || r == Err(ErrInvalidCrc)
    ensures r.Ok? <==> resp == Seal(resp[..|resp| - 2])
  {
    assert resp == resp[..|resp| - 2] + resp[|resp| - 2..];
    if StoredCrc(resp) == Checksum(resp[..|resp| - 2]) then Ok(()) else Err(ErrInvalidCrc)
  }

  /** Any slice within the payload part of a sealed response is the
      payload's own slice. */
  lemma SealSlice(p: seq<byte>, i: nat, j: nat)
    requires i <= j <= |p|
    ensures Seal(p)[i..j] == p[i..j]
  {
    assert Seal(p)[i..j] == Seal(p)[..|p|][i..j];
  }

  /** A sealed payload is accepted. */
  lemma SealAccepted(p: seq<byte>)
    ensures CheckCrc(Seal(p)) == Ok(())
  {
    assert Seal(p)[..|p|] == p;
  }

  /** With the payload fixed, exactly one trailer is accepted: replacing the
      trailing checksum by any other 16-bit value is a checksum error. */
  lemma TrailerDecides(p: seq<byte>, w: bv16)
    ensures CheckCrc(p + LittleEndian(w)) == (if w == Checksum(p) then Ok(()) else Err(ErrInvalidCrc))
  {
    var resp := p + LittleEndian(w);
    assert resp[..|resp| - 2] == p;
    assert resp[|resp| - 2..] == LittleEndian(w);
    if w != Checksum(p) {
      LittleEndianRoundTrip(w);
      LittleEndianRoundTrip(Checksum(p));
      assert LittleEndian(w) != LittleEndian(Checksum(p));
    }
  }

  /** Inverting any single bit of a sealed response, in the payload or in the
      trailer, makes the check fail with a checksum error. */
  lemma BitFlipRejected(p: seq<byte>, i: nat, j: nat)
    requires i < |p| + 2 && j < 8
    ensures CheckCrc(Flip(Seal(p), i, j)) == Err(ErrInvalidCrc)
  {
    var s := Seal(p);
    var f := Flip(s, i, j);
    FlipChanges(s[i], j);
    if i < |p| {
      assert f[..|p|] == Flip(p, i, j);
      assert f == Flip(p, i, j) + LittleEndian(Checksum(p));
      SingleBitErrorDetected(p, i, j);
      TrailerDecides(Flip(p, i, j), Checksum(p));
    } else {
      assert f[..|p|] == p;
      assert f[|p|..] != LittleEndian(Checksum(p));
      assert f != Seal(p);
    }
  }

  /** Xoring a single set bit into a byte changes it. */
  lemma FlipChanges(b: byte, j: nat)
    requires j < 8
    ensures b ^ ((1 as bv8) << j) != b
  {
    if j == 0 {} else if j == 1 {} else if j == 2 {} else if j == 3 {}
    else if j == 4 {} else if j == 5 {} else if j == 6 {} else {}
  }
}
