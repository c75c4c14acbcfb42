/** Octets, big-endian integers and Go strings (which are octet sequences). */
module Bytes {
  type byte = x: int | 0 <= x < 0x100
  type u16 = x: int | 0 <= x < 0x1_0000
  type u32 = x: int | 0 <= x < 0x1_0000_0000
  type bytes = seq<byte>

  /** `binary.BigEndian.PutUint16`. */
  function Put16(v: u16): (b: bytes)
    ensures |b| == 2
  {
    [v / 0x100, v % 0x100]
  }

  /** `binary.BigEndian.Uint16(msg[off : off+2])`. */
  function Get16(msg: bytes, off: nat): u16
    requires off + 2 <= |msg|
  {
    0x100 * (msg[off] as int) + msg[off + 1] as int
  }

  /** `binary.BigEndian.PutUint32`. */
  function Put32(v: u32): (b: bytes)
    ensures |b| == 4
  {
    Put16(v / 0x1_0000) + Put16(v % 0x1_0000)
  }

  /** `binary.BigEndian.Uint32(msg[off : off+4])`. */
  function Get32(msg: bytes, off: nat): u32
    requires off + 4 <= |msg|
  {
    0x1_0000 * (Get16(msg, off) as int) + Get16(msg, off + 2) as int
  }

  /** A slice of a slice is a slice. */
  lemma SubSlice(msg: bytes, lo: nat, hi: nat, i: nat, j: nat)
    requires lo <= hi <= |msg| && i <= j <= hi - lo
    ensures msg[lo..hi][i..j] == msg[lo + i..lo + j]
  {
    forall k | 0 <= k < j - i
      ensures msg[lo..hi][i..j][k] == msg[lo + i..lo + j][k]
    {
      assert msg[lo..hi][i..j][k] == msg[lo..hi][i + k];
    }
    assert |msg[lo..hi][i..j]| == j - i;
  }

  /** `part` stands in `msg` at `off`. */
  ghost predicate Holds(msg: bytes, off: nat, part: bytes) {
    off + |part| <= |msg| && msg[off..off + |part|] == part
  }

  lemma HoldsConcat(msg: bytes, off: nat, a: bytes, b: bytes)
    ensures Holds(msg, off, a + b) <==> Holds(msg, off, a) && Holds(msg, off + |a|, b)
  {
    if Holds(msg, off, a + b) {
      SubSlice(msg, off, off + |a + b|, 0, |a|);
      SubSlice(msg, off, off + |a + b|, |a|, |a + b|);
    }
    if Holds(msg, off, a) && Holds(msg, off + |a|, b) {
      assert msg[off..off + |a + b|] == msg[off..off + |a|] + msg[off + |a|..off + |a| + |b|];
    }
  }

  /** Four parts written one after another stand where their lengths say. */
  lemma HoldsParts(a: bytes, b: bytes, c: bytes, d: bytes)
    ensures Holds(a + b + c + d, 0, a)
    ensures Holds(a + b + c + d, |a|, b)
    ensures Holds(a + b + c + d, |a| + |b|, c)
    ensures Holds(a + b + c + d, |a| + |b| + |c|, d)
  {
    var whole := a + b + c + d;
    assert whole == whole[0..|whole|];
    HoldsConcat(whole, 0, a + b + c, d);
    HoldsConcat(whole, 0, a + b, c);
    HoldsConcat(whole, 0, a, b);
  }

  /** A 16-bit field written at `off` is read back from there. */
  lemma Get16Holds(msg: bytes, off: nat, v: u16)
    requires Holds(msg, off, Put16(v))
    ensures Get16(msg, off) == v
  {
    assert msg[off..off + 2][0] == msg[off] && msg[off..off + 2][1] == msg[off + 1];
  }

  lemma Get32Holds(msg: bytes, off: nat, v: u32)
    requires Holds(msg, off, Put32(v))
    ensures Get32(msg, off) == v
  {
    HoldsConcat(msg, off, Put16(v / 0x1_0000), Put16(v % 0x1_0000));
    Get16Holds(msg, off, v / 0x1_0000);
    Get16Holds(msg, off + 2, v % 0x1_0000);
  }
}
