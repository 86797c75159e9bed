/** The two big-endian helpers of Go's encoding/binary that the block header
    uses: reading a uint32 from the first four bytes of a slice, and writing
    a uint32 into the first four bytes of a slice in place. */
module Binary {

  /** A Go byte. */
  type byte = x: int | 0 <= x < 0x100

  /** A Go uint32. */
  type uint32 = x: int | 0 <= x < 0x1_0000_0000

  /** A Go uint64. */
  type uint64 = x: int | 0 <= x < 0x1_0000_0000_0000_0000

  /** The modulus of uint32 arithmetic. */
  const TwoTo32: int := 0x1_0000_0000

  /** binary.BigEndian.Uint32: the four leading bytes, most significant first.
      Go ORs the bytes shifted by 24, 16, 8 and 0; the lanes do not overlap,
      so the OR is a sum. */
  function Uint32(b: seq<byte>): uint32
    requires |b| >= 4
  {
    (b[0] as int) * 0x100_0000 + (b[1] as int) * 0x1_0000 + (b[2] as int) * 0x100 + b[3]
  }

  /** The four bytes binary.BigEndian.PutUint32 writes for v:
      byte(v >> 24), byte(v >> 16), byte(v >> 8), byte(v). */
  function Uint32Bytes(v: uint32): (b: seq<byte>)
    ensures |b| == 4
  {
    [(v / 0x100_0000) % 0x100, (v / 0x1_0000) % 0x100, (v / 0x100) % 0x100, v % 0x100]
  }

  /** binary.BigEndian.PutUint32 on b: overwrites b[0..4] and nothing else. */
  method PutUint32(b: array<byte>, v: uint32)
    requires b.Length >= 4
    modifies b
    ensures b[..] == Uint32Bytes(v) + old(b[4..])
  {
    b[0] := (v / 0x100_0000) % 0x100;
    b[1] := (v / 0x1_0000) % 0x100;
    b[2] := (v / 0x100) % 0x100;
    b[3] := v % 0x100;
  }

  /** Reading back what PutUint32 wrote gives the number that was written. */
  lemma Uint32OfBytes(v: uint32)
    ensures Uint32(Uint32Bytes(v)) == v
  {
    var q1, r0 := v / 0x100, v % 0x100;
    var q2, r1 := q1 / 0x100, q1 % 0x100;
    var q3, r2 := q2 / 0x100, q2 % 0x100;
    assert v / 0x1_0000 == q2;
    assert v / 0x100_0000 == q3;
    assert q3 < 0x100;
    assert v == ((q3 * 0x100 + r2) * 0x100 + r1) * 0x100 + r0;
  }

  /** Writing the number read from four bytes reproduces those bytes. */
  lemma BytesOfUint32(b: seq<byte>)
    requires |b| >= 4
    ensures Uint32Bytes(Uint32(b)) == b[..4]
  {
    var h1 := b[0] as int;
    var h2 := h1 * 0x100 + b[1];
    var h3 := h2 * 0x100 + b[2];
    var v := h3 * 0x100 + b[3];
    assert Uint32(b) == v;
    ShiftByte(h3, b[3]);
    ShiftByte(h2, b[2]);
    ShiftByte(h1, b[1]);
    assert v / 0x1_0000 == h2 by {
      DivTwice(v, h3, h2);
    }
    assert v / 0x100_0000 == h1 by {
      DivThrice(v, h3, h2, h1);
    }
  }

  /** Appending a low byte to a number and shifting it off again. */
  lemma ShiftByte(h: nat, r: byte)
    ensures (h * 0x100 + r) / 0x100 == h
    ensures (h * 0x100 + r) % 0x100 == r
  {
  }

  /** Dividing by 256 twice is dividing by 65536. */
  lemma DivTwice(v: nat, q1: nat, q2: nat)
    requires v / 0x100 == q1 && q1 / 0x100 == q2
    ensures v / 0x1_0000 == q2
  {
  }

  /** Dividing by 256 three times is dividing by 2^24. */
  lemma DivThrice(v: nat, q1: nat, q2: nat, q3: nat)
    requires v / 0x100 == q1 && q1 / 0x100 == q2 && q2 / 0x100 == q3
    ensures v / 0x100_0000 == q3
  {
  }
}
