/** The base64 encoding of section 4 of RFC 4648 ("Base 64 Encoding"): each
    24-bit group of input becomes four characters of the 64-character
    alphabet of its Table 1, and a final group of one or two bytes is padded
    with `=`. Both encoders that lib/utils.ts may use (`btoa` over the bytes
    read as Latin-1 characters, and Node's `Buffer.toString("base64")`)
    produce this encoding. */
module Base64 {
  import opened Common

  newtype byte = x: int | 0 <= x < 256

  /** Table 1 of RFC 4648: the character for a 6-bit value. */
  function EncodeSextet(v: int): (c: char)
    requires 0 <= v < 64
  {
    if v < 26 then ('A' as int + v) as char
    else if v < 52 then ('a' as int + (v - 26)) as char
    else if v < 62 then ('0' as int + (v - 52)) as char
    else if v == 62 then '+'
    else '/'
  }

  /** The 64 characters of the alphabet. */
  predicate IsAlphabetChar(c: char) {
    ('A' <= c <= 'Z') || ('a' <= c <= 'z') || ('0' <= c <= '9') || c == '+' || c == '/'
  }

  /** Table 1 read backwards. */
  function DecodeSextet(c: char): (v: int)
    requires IsAlphabetChar(c)
    ensures 0 <= v < 64
  {
    if 'A' <= c <= 'Z' then c as int - 'A' as int
    else if 'a' <= c <= 'z' then c as int - 'a' as int + 26
    else if '0' <= c <= '9' then c as int - '0' as int + 52
    else if c == '+' then 62
    else 63
  }

  lemma SextetRoundTrip(v: int)
    requires 0 <= v < 64
    ensures IsAlphabetChar(EncodeSextet(v)) && DecodeSextet(EncodeSextet(v)) == v
  {
  }

  /** The 24-bit group made of three bytes, the first one most significant;
      missing bytes of a final group are zero bits. */
  function Group(b0: byte, b1: byte, b2: byte): (n: int)
    ensures 0 <= n < 0x100_0000
  {
    (b0 as int * 256 + b1 as int) * 256 + b2 as int
  }

  /** The four 6-bit values of a 24-bit group, most significant first. */
  function Sextets(n: int): (s: seq<int>)
    requires 0 <= n < 0x100_0000
    ensures |s| == 4 && forall i :: 0 <= i < 4 ==> 0 <= s[i] < 64
  {
    [n / 64 / 64 / 64, n / 64 / 64 % 64, n / 64 % 64, n % 64]
  }

  function Chars(n: int, count: nat): (s: string)
    requires 0 <= n < 0x100_0000 && count <= 4
    ensures |s| == count && forall i :: 0 <= i < count ==> IsAlphabetChar(s[i])
  {
    var v := Sextets(n);
    [EncodeSextet(v[0]), EncodeSextet(v[1]), EncodeSextet(v[2]), EncodeSextet(v[3])][..count]
  }

  /** The encoding: full groups of three bytes give four characters; a final
      single byte gives two characters and `==`; a final pair gives three
      characters and `=`. */
  function Encode(b: seq<byte>): (s: string)
    decreases |b|
  {
    if |b| == 0 then ""
    else if |b| == 1 then Chars(Group(b[0], 0, 0), 2) + "=="
    else if |b| == 2 then Chars(Group(b[0], b[1], 0), 3) + "="
    else Chars(Group(b[0], b[1], b[2]), 4) + Encode(b[3..])
  }

  /** The number of alphabet characters before the padding. */
  function BodyLength(n: nat): nat {
    4 * (n / 3) + (if n % 3 == 0 then 0 else n % 3 + 1)
  }

  /** The encoding has 4 characters per started group, alphabet characters
      first, then `(3 - n % 3) % 3` padding characters. */
  lemma {:induction false} EncodeShape(b: seq<byte>)
    ensures |Encode(b)| == 4 * ((|b| + 2) / 3)
    ensures BodyLength(|b|) <= |Encode(b)| == BodyLength(|b|) + (3 - |b| % 3) % 3
    ensures forall i :: 0 <= i < BodyLength(|b|) ==> IsAlphabetChar(Encode(b)[i])
    ensures forall i :: BodyLength(|b|) <= i < |Encode(b)| ==> Encode(b)[i] == '='
    decreases |b|
  {
    if |b| >= 3 {
      var head := Chars(Group(b[0], b[1], b[2]), 4);
      var rest := Encode(b[3..]);
      EncodeShape(b[3..]);
      assert Encode(b) == head + rest;
      assert |b[3..]| == |b| - 3;
      assert BodyLength(|b|) == 4 + BodyLength(|b| - 3);
      forall i | 0 <= i < BodyLength(|b|) ensures IsAlphabetChar(Encode(b)[i]) {
        if i >= 4 {
          assert Encode(b)[i] == rest[i - 4];
        }
      }
      forall i | BodyLength(|b|) <= i < |Encode(b)| ensures Encode(b)[i] == '=' {
        assert Encode(b)[i] == rest[i - 4];
      }
    }
  }

  /** The 16 random bytes of a nonce encode to 22 alphabet characters and `==`. */
  lemma SixteenBytes(b: seq<byte>)
    requires |b| == 16
    ensures |Encode(b)| == 24
    ensures EndsWith(Encode(b), "==")
    ensures forall i :: 0 <= i < 22 ==> IsAlphabetChar(Encode(b)[i])
  {
    EncodeShape(b);
    assert BodyLength(16) == 22;
    assert Encode(b)[22..] == "==";
  }

  /** The byte a 24-bit group holds at position 0, 1 or 2. */
  function GroupByte(n: int, i: nat): byte
    requires 0 <= n < 0x100_0000 && i < 3
  {
    (if i == 0 then n / 256 / 256 else if i == 1 then n / 256 % 256 else n % 256) as byte
  }

  /** The 24-bit group that four 6-bit values denote. */
  function Ungroup(c0: int, c1: int, c2: int, c3: int): (n: int)
    requires 0 <= c0 < 64 && 0 <= c1 < 64 && 0 <= c2 < 64 && 0 <= c3 < 64
    ensures 0 <= n < 0x100_0000
  {
    ((c0 * 64 + c1) * 64 + c2) * 64 + c3
  }

  /** Decoding: the inverse of `Encode` on its image, `None` on a length that
      is not a multiple of 4 or on a character outside the alphabet or
      misplaced padding. Bits below the last whole byte are ignored. */
  function Decode(s: string): Option<seq<byte>>
    decreases |s|
  {
    if |s| == 0 then Some([])
    else if |s| < 4 || !IsAlphabetChar(s[0]) || !IsAlphabetChar(s[1]) then None
    else if |s| == 4 && s[2] == '=' && s[3] == '=' then
      Some([GroupByte(Ungroup(DecodeSextet(s[0]), DecodeSextet(s[1]), 0, 0), 0)])
    else if !IsAlphabetChar(s[2]) then None
    else if |s| == 4 && s[3] == '=' then
      var n := Ungroup(DecodeSextet(s[0]), DecodeSextet(s[1]), DecodeSextet(s[2]), 0);
      Some([GroupByte(n, 0), GroupByte(n, 1)])
    else if !IsAlphabetChar(s[3]) then None
    else
      var n := Ungroup(DecodeSextet(s[0]), DecodeSextet(s[1]), DecodeSextet(s[2]), DecodeSextet(s[3]));
      match Decode(s[4..])
      case None => None
      case Some(rest) => Some([GroupByte(n, 0), GroupByte(n, 1), GroupByte(n, 2)] + rest)
  }

  /** Splitting a 24-bit group into sextets and joining them gives it back. */
  lemma SextetsUngroup(n: int)
    requires 0 <= n < 0x100_0000
    ensures var v := Sextets(n); Ungroup(v[0], v[1], v[2], v[3]) == n
  {
    var q1 := n / 64;
    var q2 := q1 / 64;
    assert n == q1 * 64 + n % 64;
    assert q1 == q2 * 64 + q1 % 64;
    assert q2 == (q2 / 64) * 64 + q2 % 64;
    assert q2 / 64 < 64;
    assert q2 % 64 == q2 - (q2 / 64) * 64;
  }

  /** The bytes of a group are those it was made of. */
  lemma GroupBytes(b0: byte, b1: byte, b2: byte)
    ensures GroupByte(Group(b0, b1, b2), 0) == b0
    ensures GroupByte(Group(b0, b1, b2), 1) == b1
    ensures GroupByte(Group(b0, b1, b2), 2) == b2
  {
    var n := Group(b0, b1, b2);
    var hi := b0 as int * 256 + b1 as int;
    assert n == hi * 256 + b2 as int;
    assert n / 256 == hi;
    assert hi / 256 == b0 as int && hi % 256 == b1 as int;
  }

  /** Decoding the characters of a group gives back its group. */
  lemma CharsUngroup(n: int, count: nat)
    requires 0 <= n < 0x100_0000 && 2 <= count <= 4
    ensures var s := Chars(n, count); var v := Sextets(n);
            DecodeSextet(s[0]) == v[0] && DecodeSextet(s[1]) == v[1]
            && (count >= 3 ==> DecodeSextet(s[2]) == v[2])
            && (count == 4 ==> DecodeSextet(s[3]) == v[3])
  {
    var v := Sextets(n);
    SextetRoundTrip(v[0]);
    SextetRoundTrip(v[1]);
    SextetRoundTrip(v[2]);
    SextetRoundTrip(v[3]);
  }

  /** The low twelve bits of a group made of one byte are zero. */
  lemma OneByteLowSextets(b0: byte)
    ensures Sextets(Group(b0, 0, 0))[2] == 0 && Sextets(Group(b0, 0, 0))[3] == 0
  {
    var n := Group(b0, 0, 0);
    assert n == b0 as int * 65536;
    assert n / 64 == b0 as int * 1024;
  }

  /** The low six bits of a group made of two bytes are zero. */
  lemma TwoBytesLowSextet(b0: byte, b1: byte)
    ensures Sextets(Group(b0, b1, 0))[3] == 0
  {
    var n := Group(b0, b1, 0);
    assert n == (b0 as int * 256 + b1 as int) * 256;
  }

  /** A final single byte decodes back from its two characters and `==`. */
  lemma DecodeLastByte(b0: byte)
    ensures Decode(Encode([b0])) == Some([b0])
  {
    var n := Group(b0, 0, 0);
    var s := Encode([b0]);
    assert s == Chars(n, 2) + "==";
    CharsUngroup(n, 2);
    OneByteLowSextets(b0);
    SextetsUngroup(n);
    GroupBytes(b0, 0, 0);
    var v := Sextets(n);
    assert |s| == 4 && s[2] == '=' && s[3] == '=';
    assert IsAlphabetChar(s[0]) && IsAlphabetChar(s[1]);
    var m := Ungroup(DecodeSextet(s[0]), DecodeSextet(s[1]), 0, 0);
    assert m == Ungroup(v[0], v[1], v[2], v[3]);
    assert Decode(s) == Some([GroupByte(m, 0)]);
  }

  /** A final pair of bytes decodes back from its three characters and `=`. */
  lemma DecodeLastPair(b0: byte, b1: byte)
    ensures Decode(Encode([b0, b1])) == Some([b0, b1])
  {
    var n := Group(b0, b1, 0);
    var s := Encode([b0, b1]);
    assert s == Chars(n, 3) + "=";
    CharsUngroup(n, 3);
    TwoBytesLowSextet(b0, b1);
    SextetsUngroup(n);
    GroupBytes(b0, b1, 0);
    var v := Sextets(n);
    assert |s| == 4 && s[2] != '=' && s[3] == '=';
    assert IsAlphabetChar(s[0]) && IsAlphabetChar(s[1]) && IsAlphabetChar(s[2]);
    var m := Ungroup(DecodeSextet(s[0]), DecodeSextet(s[1]), DecodeSextet(s[2]), 0);
    assert m == Ungroup(v[0], v[1], v[2], v[3]);
    assert Decode(s) == Some([GroupByte(m, 0), GroupByte(m, 1)]);
  }

  /** Four alphabet characters at the front decode as one full group. */
  lemma DecodeStep(s: string)
    requires |s| >= 4
    requires IsAlphabetChar(s[0]) && IsAlphabetChar(s[1]) && IsAlphabetChar(s[2]) && IsAlphabetChar(s[3])
    ensures var n := Ungroup(DecodeSextet(s[0]), DecodeSextet(s[1]), DecodeSextet(s[2]), DecodeSextet(s[3]));
            Decode(s) == match Decode(s[4..])
                         case None => None
                         case Some(rest) => Some([GroupByte(n, 0), GroupByte(n, 1), GroupByte(n, 2)] + rest)
  {
    assert s[2] != '=' && s[3] != '=';
  }

  /** The characters of a full group decode back to the group's bytes,
      followed by whatever the rest decodes to. */
  lemma DecodeGroupThen(n: int, rest: string)
    requires 0 <= n < 0x100_0000
    ensures Decode(Chars(n, 4) + rest) == match Decode(rest)
                                          case None => None
                                          case Some(r) => Some([GroupByte(n, 0), GroupByte(n, 1), GroupByte(n, 2)] + r)
  {
    var c := Chars(n, 4);
    var s := c + rest;
    CharsUngroup(n, 4);
    SextetsUngroup(n);
    assert s[4..] == rest;
    assert s[0] == c[0] && s[1] == c[1] && s[2] == c[2] && s[3] == c[3];
    DecodeStep(s);
  }

  /** The first three bytes come back out of their group. */
  lemma GroupPrefix(b: seq<byte>)
    requires |b| >= 3
    ensures var n := Group(b[0], b[1], b[2]);
            [GroupByte(n, 0), GroupByte(n, 1), GroupByte(n, 2)] + b[3..] == b
  {
    GroupBytes(b[0], b[1], b[2]);
  }

  /** A full group decodes back in front of a rest that decodes back. */
  lemma DecodeFullGroup(b: seq<byte>)
    requires |b| >= 3
    requires Decode(Encode(b[3..])) == Some(b[3..])
    ensures Decode(Encode(b)) == Some(b)
  {
    var n := Group(b[0], b[1], b[2]);
    GroupPrefix(b);
    var rest := Encode(b[3..]);
    assert Encode(b) == Chars(n, 4) + rest;
    DecodeGroupThen(n, rest);
  }

  /** The round trip of section 4: decoding an encoding gives the bytes back. */
  lemma {:induction false} DecodeEncode(b: seq<byte>)
    ensures Decode(Encode(b)) == Some(b)
    decreases |b|
  {
    if |b| == 1 {
      assert b == [b[0]];
      DecodeLastByte(b[0]);
    } else if |b| == 2 {
      assert b == [b[0], b[1]];
      DecodeLastPair(b[0], b[1]);
    } else if |b| >= 3 {
      DecodeEncode(b[3..]);
      DecodeFullGroup(b);
    }
  }
}
