/** UTF-8 as defined in section 4 of RFC 3629: the check `std::str::from_utf8`
    applies to a filename before the decoder accepts it (src/lib.rs). A `char`
    here is a Unicode scalar value (U+0000..U+10FFFF without the surrogates),
    as a Rust `char` is, so a `string` is what a Rust `String` holds. */
module Utf8 {
  import opened Bytes

  datatype Option<+T> = None | Some(value: T)

  /** UTF8-tail = %x80-BF */
  predicate IsTail(b: u8)
  {
    0x80 <= b <= 0xBF
  }

  /** The second octet of a three-octet character, given the first:
      %xE0 %xA0-BF, %xED %x80-9F (no surrogates), otherwise a tail. */
  predicate IsSecondOfThree(b0: u8, b1: u8)
  {
    if b0 == 0xE0 then 0xA0 <= b1 <= 0xBF
    else if b0 == 0xED then 0x80 <= b1 <= 0x9F
    else IsTail(b1)
  }

  /** The second octet of a four-octet character, given the first:
      %xF0 %x90-BF, %xF4 %x80-8F (nothing above U+10FFFF), otherwise a tail. */
  predicate IsSecondOfFour(b0: u8, b1: u8)
  {
    if b0 == 0xF0 then 0x90 <= b1 <= 0xBF
    else if b0 == 0xF4 then 0x80 <= b1 <= 0x8F
    else IsTail(b1)
  }

  /** The UTF-8 octets of one character: one octet below U+0080, two below
      U+0800, three below U+10000, four above. */
  function EncodeChar(c: char): (r: seq<u8>)
    ensures 1 <= |r| <= 4
  {
    var n := c as int;
    if n < 0x80 then
      [n as u8]
    else if n < 0x800 then
      [(0xC0 + n / 0x40) as u8, (0x80 + n % 0x40) as u8]
    else if n < 0x1_0000 then
      [(0xE0 + n / 0x1000) as u8, (0x80 + n / 0x40 % 0x40) as u8, (0x80 + n % 0x40) as u8]
    else
      [(0xF0 + n / 0x4_0000) as u8, (0x80 + n / 0x1000 % 0x40) as u8,
       (0x80 + n / 0x40 % 0x40) as u8, (0x80 + n % 0x40) as u8]
  }

  /** The character that `s` starts with, and how many octets it takes, when
      `s` starts with a UTF8-char of the grammar; None otherwise. */
  function DecodeChar(s: seq<u8>): (r: Option<(char, nat)>)
    requires s != []
    ensures r.Some? ==> 1 <= r.value.1 <= |s| && r.value.1 <= 4
  {
    var b0 := s[0] as int;
    if b0 <= 0x7F then
      Some((b0 as char, 1))
    else if 0xC2 <= b0 <= 0xDF then
      if |s| >= 2 && IsTail(s[1]) then
        Some((((b0 - 0xC0) * 0x40 + (s[1] as int - 0x80)) as char, 2))
      else None
    else if 0xE0 <= b0 <= 0xEF then
      if |s| >= 3 && IsSecondOfThree(s[0], s[1]) && IsTail(s[2]) then
        Some((((b0 - 0xE0) * 0x1000 + (s[1] as int - 0x80) * 0x40 + (s[2] as int - 0x80)) as char, 3))
      else None
    else if 0xF0 <= b0 <= 0xF4 then
      if |s| >= 4 && IsSecondOfFour(s[0], s[1]) && IsTail(s[2]) && IsTail(s[3]) then
        Some((((b0 - 0xF0) * 0x4_0000 + (s[1] as int - 0x80) * 0x1000
               + (s[2] as int - 0x80) * 0x40 + (s[3] as int - 0x80)) as char, 4))
      else None
    else None
  }

  /** UTF8-octets = *( UTF8-char ): the decoded text, or None when the octets
      are not well-formed UTF-8. */
  function Decode(s: seq<u8>): (r: Option<string>)
    ensures r.Some? ==> Encode(r.value) == s
    decreases |s|
  {
    if s == [] then Some("")
    else match DecodeChar(s)
      case None => None
      case Some((c, width)) =>
        match Decode(s[width..])
        case None => None
        case Some(rest) =>
          EncodeCharOfDecodeChar(s);
          assert ([c] + rest)[1..] == rest;
          Some([c] + rest)
  }

  /** Well-formed UTF-8, the octets `from_utf8` accepts. */
  predicate IsValid(s: seq<u8>)
  {
    Decode(s).Some?
  }

  /** The UTF-8 octets of a text. */
  function Encode(text: string): seq<u8>
  {
    if text == "" then [] else EncodeChar(text[0]) + Encode(text[1..])
  }

  /** Every character's encoding is read back as that character, whatever follows it. */
  lemma DecodeCharOfEncodeChar(c: char, rest: seq<u8>)
    ensures DecodeChar(EncodeChar(c) + rest) == Some((c, |EncodeChar(c)|))
  {
    var n := c as int;
    if n < 0x80 {
    } else if n < 0x800 {
      DecodeTwoOctets(c, rest);
    } else if n < 0x1_0000 {
      DecodeThreeOctets(c, rest);
    } else {
      DecodeFourOctets(c, rest);
    }
  }

  lemma DecodeTwoOctets(c: char, rest: seq<u8>)
    requires 0x80 <= c as int < 0x800
    ensures DecodeChar(EncodeChar(c) + rest) == Some((c, 2))
  {
    var n := c as int;
    assert n == (n / 0x40) * 0x40 + n % 0x40;
  }

  lemma DecodeThreeOctets(c: char, rest: seq<u8>)
    requires 0x800 <= c as int < 0x1_0000
    ensures DecodeChar(EncodeChar(c) + rest) == Some((c, 3))
  {
    var n := c as int;
    assert n / 0x40 == (n / 0x1000) * 0x40 + n / 0x40 % 0x40;
    assert n == (n / 0x40) * 0x40 + n % 0x40;
  }

  lemma DecodeFourOctets(c: char, rest: seq<u8>)
    requires 0x1_0000 <= c as int
    ensures DecodeChar(EncodeChar(c) + rest) == Some((c, 4))
  {
    var n := c as int;
    assert n / 0x1000 == (n / 0x4_0000) * 0x40 + n / 0x1000 % 0x40;
    assert n / 0x40 == (n / 0x1000) * 0x40 + n / 0x40 % 0x40;
    assert n == (n / 0x40) * 0x40 + n % 0x40;
  }

  /** Splitting off six low bits: the quotient and remainder by 0x40. */
  lemma SixBits(high: nat, low: nat)
    requires low < 0x40
    ensures (high * 0x40 + low) / 0x40 == high && (high * 0x40 + low) % 0x40 == low
  {
  }

  /** The octets a character is read from are exactly that character's
      encoding: the grammar admits no second (overlong) form of a character. */
  lemma EncodeCharOfDecodeChar(s: seq<u8>)
    requires s != [] && DecodeChar(s).Some?
    ensures EncodeChar(DecodeChar(s).value.0) == s[..DecodeChar(s).value.1]
  {
    var b0 := s[0] as int;
    if b0 <= 0x7F {
    } else if b0 <= 0xDF {
      SixBits(b0 - 0xC0, s[1] as int - 0x80);
    } else if b0 <= 0xEF {
      EncodeThreeOctets(s);
    } else {
      EncodeFourOctets(s);
    }
  }

  lemma EncodeThreeOctets(s: seq<u8>)
    requires s != [] && 0xE0 <= s[0] <= 0xEF && DecodeChar(s).Some?
    ensures EncodeChar(DecodeChar(s).value.0) == s[..3]
  {
    var b0 := s[0] as int;
    var n := DecodeChar(s).value.0 as int;
    var hi := (b0 - 0xE0) * 0x40 + (s[1] as int - 0x80);
    assert n == hi * 0x40 + (s[2] as int - 0x80);
    SixBits(hi, s[2] as int - 0x80);
    SixBits(b0 - 0xE0, s[1] as int - 0x80);
    assert n / 0x1000 == b0 - 0xE0 by {
      assert n / 0x1000 == n / 0x40 / 0x40;
    }
  }

  lemma EncodeFourOctets(s: seq<u8>)
    requires s != [] && 0xF0 <= s[0] && DecodeChar(s).Some?
    ensures EncodeChar(DecodeChar(s).value.0) == s[..4]
  {
    var b0 := s[0] as int;
    var n := DecodeChar(s).value.0 as int;
    var hi := (b0 - 0xF0) * 0x40 + (s[1] as int - 0x80);
    var mid := hi * 0x40 + (s[2] as int - 0x80);
    assert n == mid * 0x40 + (s[3] as int - 0x80);
    SixBits(mid, s[3] as int - 0x80);
    SixBits(hi, s[2] as int - 0x80);
    SixBits(b0 - 0xF0, s[1] as int - 0x80);
    assert n / 0x1000 == hi by {
      assert n / 0x1000 == n / 0x40 / 0x40;
    }
    assert n / 0x4_0000 == b0 - 0xF0 by {
      assert n / 0x4_0000 == n / 0x1000 / 0x40;
    }
  }

  /** Decoding inverts encoding. */
  lemma {:induction false} DecodeOfEncode(text: string)
    ensures Decode(Encode(text)) == Some(text)
  {
    if text != "" {
      var head := EncodeChar(text[0]);
      var tail := Encode(text[1..]);
      DecodeCharOfEncodeChar(text[0], tail);
      assert (head + tail)[|head|..] == tail;
      DecodeOfEncode(text[1..]);
      assert [text[0]] + text[1..] == text;
    }
  }

  /** Two texts with the same UTF-8 octets are the same text. */
  lemma EncodeInjective(a: string, b: string)
    requires Encode(a) == Encode(b)
    ensures a == b
  {
    DecodeOfEncode(a);
    DecodeOfEncode(b);
  }

  /** Well-formed octets start with a character and go on with well-formed
      octets, which decode to the rest of the text. */
  lemma DecodeFirst(s: seq<u8>)
    requires s != [] && IsValid(s)
    ensures DecodeChar(s).Some?
    ensures IsValid(s[DecodeChar(s).value.1..])
    ensures Decode(s).value == [DecodeChar(s).value.0] + Decode(s[DecodeChar(s).value.1..]).value
  {
  }

  /** Whatever decodes is the encoding of what it decodes to: the octets
      `from_utf8` accepts are exactly the encodings of texts. */
  lemma {:induction false} EncodeOfDecode(s: seq<u8>)
    requires IsValid(s)
    ensures Encode(Decode(s).value) == s
    decreases |s|
  {
    if s != [] {
      DecodeFirst(s);
      var (c, width) := DecodeChar(s).value;
      var text := Decode(s).value;
      EncodeCharOfDecodeChar(s);
      EncodeOfDecode(s[width..]);
      assert text != [] && text[0] == c && text[1..] == Decode(s[width..]).value;
      calc {
        Encode(text);
        EncodeChar(c) + Encode(text[1..]);
        s[..width] + s[width..];
        s;
      }
    }
  }
}
