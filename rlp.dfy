/** The item layer of the RLP codec the header is serialized with.

    RLP serializes a tree whose leaves are byte strings and whose inner nodes
    are lists. A Go struct becomes the list of its fields in declaration order;
    a fixed-size byte array or a byte slice becomes a string; an unsigned
    integer becomes the string of its big-endian bytes with no leading zero
    (zero is the empty string), and the decoder rejects any other spelling of
    a number. Turning an item into bytes and back is left to the abstract
    codec in module Externals. */
module Rlp {
  import opened Binary
  import opened Wrappers

  datatype Item = Str(bytes: seq<byte>) | List(items: seq<Item>)

  /** The number a big-endian byte string spells. */
  function BeValue(b: seq<byte>): nat
  {
    if b == [] then 0 else BeValue(b[..|b| - 1]) * 0x100 + b[|b| - 1]
  }

  /** 256 to the power k. */
  function Pow256(k: nat): (r: nat)
    ensures r > 0
  {
    if k == 0 then 1 else 0x100 * Pow256(k - 1)
  }

  /** The canonical string an unsigned integer is encoded as. */
  function UintBytes(n: nat): seq<byte>
  {
    if n == 0 then [] else UintBytes(n / 0x100) + [n % 0x100]
  }

  /** The canonical string spells n, is empty exactly for zero, and has no
      leading zero byte. */
  lemma {:induction false} UintBytesSpec(n: nat)
    ensures BeValue(UintBytes(n)) == n
    ensures n == 0 <==> UintBytes(n) == []
    ensures UintBytes(n) != [] ==> UintBytes(n)[0] != 0
  {
    if n > 0 {
      var front := UintBytes(n / 0x100);
      UintBytesSpec(n / 0x100);
      var b := UintBytes(n);
      assert b == front + [n % 0x100];
      assert b[..|b| - 1] == front;
    }
  }

  /** Decoding a string as an unsigned integer: a leading zero byte is a
      non-canonical integer and is refused. */
  function UintOf(b: seq<byte>): Option<nat>
  {
    if |b| > 0 && b[0] == 0 then None else Some(BeValue(b))
  }

  /** A string without a leading zero is the canonical spelling of its value. */
  lemma {:induction false} CanonicalBytes(b: seq<byte>)
    requires b == [] || b[0] != 0
    ensures UintBytes(BeValue(b)) == b
  {
    if b != [] {
      var front, last := b[..|b| - 1], b[|b| - 1];
      if front != [] {
        assert front[0] == b[0];
      }
      CanonicalBytes(front);
      PositiveValue(b);
      var v := BeValue(front);
      var n := BeValue(b);
      assert n == v * 0x100 + last;
      ShiftByte(v, last);
      assert UintBytes(n) == UintBytes(v) + [last];
      assert b == front + [last];
    }
  }

  /** Decoding accepts a string only if it is the canonical spelling of the
      number it returns. */
  lemma UintOfCanonical(b: seq<byte>)
    requires UintOf(b).Some?
    ensures UintBytes(UintOf(b).value) == b
  {
    CanonicalBytes(b);
  }

  /** A string that starts with a non-zero byte spells a positive number. */
  lemma {:induction false} PositiveValue(b: seq<byte>)
    requires b != [] && b[0] != 0
    ensures BeValue(b) > 0
  {
    if |b| > 1 {
      PositiveValue(b[..|b| - 1]);
    }
  }

  /** Unsigned integers survive encoding followed by decoding. */
  lemma UintRoundTrip(n: nat)
    ensures UintOf(UintBytes(n)) == Some(n)
  {
    UintBytesSpec(n);
  }

  /** A string of k bytes spells a number below 256^k. */
  lemma {:induction false} ValueBound(b: seq<byte>)
    ensures BeValue(b) < Pow256(|b|)
  {
    if b != [] {
      ValueBound(b[..|b| - 1]);
    }
  }

  /** A number below 256^k is encoded in at most k bytes. */
  lemma {:induction false} ShortEncoding(n: nat, k: nat)
    requires n < Pow256(k)
    ensures |UintBytes(n)| <= k
  {
    if n > 0 {
      assert k > 0;
      ShortEncoding(n / 0x100, k - 1);
      assert UintBytes(n) == UintBytes(n / 0x100) + [n % 0x100];
    }
  }

  /** 2^64 is 256^8: a uint64 has at most eight bytes. */
  lemma Pow256Eight()
    ensures Pow256(8) == 0x1_0000_0000_0000_0000
  {
    assert Pow256(4) == 0x1_0000_0000;
  }

  /** Powers of 256 grow with the exponent. */
  lemma {:induction false} Pow256Monotone(j: nat, k: nat)
    requires j <= k
    ensures Pow256(j) <= Pow256(k)
  {
    if j < k {
      Pow256Monotone(j, k - 1);
    }
  }

  /** A string of at most eight bytes spells a number that fits a uint64. */
  lemma Uint64Bound(b: seq<byte>)
    requires |b| <= 8
    ensures BeValue(b) < 0x1_0000_0000_0000_0000
  {
    ValueBound(b);
    Pow256Monotone(|b|, 8);
    Pow256Eight();
  }

  /** Every uint64 is encoded in at most eight bytes. */
  lemma Uint64Short(n: nat)
    requires n < 0x1_0000_0000_0000_0000
    ensures |UintBytes(n)| <= 8
  {
    Pow256Eight();
    ShortEncoding(n, 8);
  }
}
