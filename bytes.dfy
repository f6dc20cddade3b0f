/** Bytes and big-endian 32-bit words, as the wxapkg decoder reads them
    (`convert_to_u32` in src/lib.rs). */
module Bytes {

  /** One octet of the package buffer (a Rust `u8`). */
  newtype u8 = x: int | 0 <= x < 0x100

  /** The values of a Rust `u32`. */
  type u32 = x: nat | x < 0x1_0000_0000

  /** The unsigned value of four octets, most significant first. */
  function BeU32(s: seq<u8>): u32
    requires |s| == 4
  {
    s[0] as int * 0x100_0000 + s[1] as int * 0x1_0000 + s[2] as int * 0x100 + s[3] as int
  }

  /** The four octets of a word, most significant first: the layout a writer
      of the format puts down for every length, count and offset. */
  function U32Bytes(n: u32): (s: seq<u8>)
    ensures |s| == 4
  {
    [(n / 0x100_0000) as u8, (n / 0x1_0000 % 0x100) as u8, (n / 0x100 % 0x100) as u8, (n % 0x100) as u8]
  }

  /** Reading back the octets of a word gives the word. */
  lemma BeU32OfU32Bytes(n: u32)
    ensures BeU32(U32Bytes(n)) == n
  {
    var s := U32Bytes(n);
    assert n == (n / 0x100) * 0x100 + n % 0x100;
    assert n / 0x100 == (n / 0x1_0000) * 0x100 + n / 0x100 % 0x100;
    assert n / 0x1_0000 == (n / 0x100_0000) * 0x100 + n / 0x1_0000 % 0x100;
  }

  /** Four octets are determined by their big-endian value. */
  lemma U32BytesOfBeU32(s: seq<u8>)
    requires |s| == 4
    ensures U32Bytes(BeU32(s)) == s
  {
    var n := BeU32(s);
    assert n / 0x100 == s[0] as int * 0x1_0000 + s[1] as int * 0x100 + s[2] as int;
    assert n / 0x1_0000 == s[0] as int * 0x100 + s[1] as int;
    assert n / 0x100_0000 == s[0] as int;
  }

  /** The big-endian value of a prefix of the word being read. */
  ghost function BigEndian(s: seq<u8>): nat
  {
    if s == [] then 0 else BigEndian(s[..|s| - 1]) * 0x100 + s[|s| - 1] as int
  }

  /** `(ret << 8) | b` on a `u32`: the shift drops every bit above bit 31, and
      the OR fills the eight zero bits the shift opened at the bottom. */
  function ShiftInByte(ret: u32, b: u8): (r: u32)
    ensures r % 0x100 == b as int
    ensures r / 0x100 == ret % 0x100_0000
  {
    assert ret * 0x100 % 0x1_0000_0000 == ret % 0x100_0000 * 0x100 by {
      assert ret * 0x100 == (ret / 0x100_0000) * 0x1_0000_0000 + ret % 0x100_0000 * 0x100;
    }
    ret * 0x100 % 0x1_0000_0000 + b as int
  }

  /** `convert_to_u32`: shifts the four octets one by one into an accumulator.
      The result is the big-endian value b0*2^24 + b1*2^16 + b2*2^8 + b3, which
      the type keeps below 2^32. */
  method ConvertToU32(bytes: seq<u8>) returns (r: u32)
    requires |bytes| == 4
    ensures r == BeU32(bytes)
  {
    var ret: u32 := 0;
    for i := 0 to 4
      invariant ret == BigEndian(bytes[..i])
      invariant ret < [1, 0x100, 0x1_0000, 0x100_0000, 0x1_0000_0000][i]
    {
      assert bytes[..i + 1][..i] == bytes[..i];
      ret := ShiftInByte(ret, bytes[i]);
    }
    assert bytes[..4] == bytes;
    assert bytes[..4][..3] == bytes[..3] && bytes[..3][..2] == bytes[..2] && bytes[..2][..1] == bytes[..1];
    assert bytes[..1][..0] == [];
    assert BigEndian(bytes[..1]) == bytes[0] as int;
    assert BigEndian(bytes[..2]) == bytes[0] as int * 0x100 + bytes[1] as int;
    assert BigEndian(bytes[..3]) == (bytes[0] as int * 0x100 + bytes[1] as int) * 0x100 + bytes[2] as int;
    r := ret;
  }
}
