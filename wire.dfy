/** Bytes on the wire of the hash cache: `u64::to_le_bytes` /
    `u64::from_le_bytes`, and UTF-8 as Rust's `str::as_bytes` and
    `std::str::from_utf8` produce and accept it. */
module Wire {
  import opened Wrappers

  type byte = b: int | 0 <= b < 0x100
  type u64 = x: int | 0 <= x < 0x1_0000_0000_0000_0000

  function Pow256(k: nat): (p: nat)
    ensures p > 0
  {
    if k == 0 then 1 else 256 * Pow256(k - 1)
  }

  /** The k low-order bytes of x, least significant first. */
  function LeBytes(x: nat, k: nat): (bs: seq<byte>)
    ensures |bs| == k
  {
    if k == 0 then [] else [x % 256] + LeBytes(x / 256, k - 1)
  }

  /** The number whose little-endian bytes are bs. */
  function FromLe(bs: seq<byte>): (x: nat)
    ensures x < Pow256(|bs|)
  {
    if bs == [] then 0 else bs[0] + 256 * FromLe(bs[1..])
  }

  /** `u64::to_le_bytes` */
  function U64Le(x: u64): (bs: seq<byte>)
    ensures |bs| == 8
  {
    LeBytes(x, 8)
  }

  /** `u64::from_le_bytes` on the first eight bytes of bs. */
  function ReadU64(bs: seq<byte>): u64
    requires |bs| >= 8
  {
    assert Pow256(8) == 0x1_0000_0000_0000_0000;
    FromLe(bs[..8])
  }

  lemma {:induction false} FromLeOfLeBytes(x: nat, k: nat)
    requires x < Pow256(k)
    ensures FromLe(LeBytes(x, k)) == x
  {
    if k > 0 {
      var bs := LeBytes(x, k);
      assert bs[1..] == LeBytes(x / 256, k - 1);
      FromLeOfLeBytes(x / 256, k - 1);
    }
  }

  lemma {:induction false} LeBytesOfFromLe(bs: seq<byte>)
    ensures LeBytes(FromLe(bs), |bs|) == bs
  {
    if bs != [] {
      var x := FromLe(bs);
      assert x % 256 == bs[0] && x / 256 == FromLe(bs[1..]);
      LeBytesOfFromLe(bs[1..]);
    }
  }

  /** Reading eight little-endian bytes inverts `to_le_bytes`, whatever
      follows them, and every eight bytes are the encoding of what they
      read as. */
  lemma ReadU64Le(x: u64, rest: seq<byte>)
    ensures ReadU64(U64Le(x) + rest) == x
  {
    assert (U64Le(x) + rest)[..8] == U64Le(x);
    assert Pow256(8) == 0x1_0000_0000_0000_0000;
    FromLeOfLeBytes(x, 8);
  }

  lemma U64LeOfRead(bs: seq<byte>)
    requires |bs| >= 8
    ensures U64Le(ReadU64(bs)) == bs[..8]
  {
    LeBytesOfFromLe(bs[..8]);
  }

  // ---------------------------------------------------------------- UTF-8

  /** The UTF-8 encoding of one Unicode scalar value. */
  function EncodeChar(c: char): (bs: seq<byte>)
    ensures 1 <= |bs| <= 4
  {
    var x := c as int;
    if x < 0x80 then [x]
    else if x < 0x800 then [0xC0 + x / 64, 0x80 + x % 64]
    else if x < 0x1_0000 then [0xE0 + x / 4096, 0x80 + (x / 64) % 64, 0x80 + x % 64]
    else [0xF0 + x / 262144, 0x80 + (x / 4096) % 64, 0x80 + (x / 64) % 64, 0x80 + x % 64]
  }

  /** `str::as_bytes`: the UTF-8 encoding of a string. */
  function Encode(s: string): seq<byte> {
    if s == [] then [] else EncodeChar(s[0]) + Encode(s[1..])
  }

  predicate IsContinuation(b: byte) {
    0x80 <= b <= 0xBF
  }

  /** The first character of bs and the number of bytes it takes, when bs
      starts with a well-formed UTF-8 sequence (the well-formed sequences of
      Table 3-7 of the Unicode Standard, which are what `from_utf8`
      accepts: no overlong forms, no surrogates, nothing above U+10FFFF). */
  function DecodeChar(bs: seq<byte>): (r: Option<(char, nat)>)
    ensures r.Some? ==> 1 <= r.value.1 <= |bs|
  {
    if bs == [] then None
    else
      var b0: int := bs[0];
      if b0 < 0x80 then Some((b0 as char, 1))
      else if 0xC2 <= b0 <= 0xDF then
        if |bs| >= 2 && IsContinuation(bs[1])
        then Some((Value2(b0, bs[1]) as char, 2))
        else None
      else if 0xE0 <= b0 <= 0xEF then
        var lo := if b0 == 0xE0 then 0xA0 else 0x80;
        var hi := if b0 == 0xED then 0x9F else 0xBF;
        if |bs| >= 3 && lo <= bs[1] <= hi && IsContinuation(bs[2])
        then Some((Value3(b0, bs[1], bs[2]) as char, 3))
        else None
      else if 0xF0 <= b0 <= 0xF4 then
        var lo := if b0 == 0xF0 then 0x90 else 0x80;
        var hi := if b0 == 0xF4 then 0x8F else 0xBF;
        if |bs| >= 4 && lo <= bs[1] <= hi && IsContinuation(bs[2]) && IsContinuation(bs[3])
        then Some((Value4(b0, bs[1], bs[2], bs[3]) as char, 4))
        else None
      else None
  }

  /** The scalar value a two-, three- or four-byte sequence carries. */
  function Value2(b0: int, b1: int): int {
    (b0 - 0xC0) * 64 + (b1 - 0x80)
  }

  function Value3(b0: int, b1: int, b2: int): int {
    (b0 - 0xE0) * 4096 + (b1 - 0x80) * 64 + (b2 - 0x80)
  }

  function Value4(b0: int, b1: int, b2: int, b3: int): int {
    (b0 - 0xF0) * 262144 + (b1 - 0x80) * 4096 + (b2 - 0x80) * 64 + (b3 - 0x80)
  }

  /** `std::str::from_utf8`: the string bs encodes, or None when bs is not
      well-formed UTF-8. */
  function Decode(bs: seq<byte>): Option<string>
    decreases |bs|
  {
    if bs == [] then Some([])
    else
      match DecodeChar(bs)
      case None => None
      case Some((c, n)) =>
        match Decode(bs[n..])
        case None => None
        case Some(s) => Some([c] + s)
  }

  lemma DecodeEncodeChar2(x: int)
    requires 0x80 <= x < 0x800
    ensures 0xC2 <= 0xC0 + x / 64 <= 0xDF && 0x80 <= 0x80 + x % 64 <= 0xBF
    ensures Value2(0xC0 + x / 64, 0x80 + x % 64) == x
  {
  }

  lemma DecodeEncodeChar3(x: int)
    requires 0x800 <= x < 0x1_0000 && !(0xD800 <= x < 0xE000)
    ensures var b0, b1 := 0xE0 + x / 4096, 0x80 + (x / 64) % 64;
      && 0xE0 <= b0 <= 0xEF
      && (if b0 == 0xE0 then 0xA0 else 0x80) <= b1 <= (if b0 == 0xED then 0x9F else 0xBF)
      && Value3(b0, b1, 0x80 + x % 64) == x
  {
    var a, b, d := x / 4096, (x / 64) % 64, x % 64;
    assert x / 64 == a * 64 + b;
    assert x == a * 4096 + b * 64 + d;
  }

  lemma DecodeEncodeChar4(x: int)
    requires 0x1_0000 <= x < 0x11_0000
    ensures var b0, b1 := 0xF0 + x / 262144, 0x80 + (x / 4096) % 64;
      && 0xF0 <= b0 <= 0xF4
      && (if b0 == 0xF0 then 0x90 else 0x80) <= b1 <= (if b0 == 0xF4 then 0x8F else 0xBF)
      && Value4(b0, b1, 0x80 + (x / 64) % 64, 0x80 + x % 64) == x
  {
    var a, b, d, e := x / 262144, (x / 4096) % 64, (x / 64) % 64, x % 64;
    assert x / 4096 == a * 64 + b;
    assert x / 64 == (a * 64 + b) * 64 + d;
    assert x == a * 262144 + b * 4096 + d * 64 + e;
  }

  lemma DecodeEncodeChar(c: char, rest: seq<byte>)
    ensures DecodeChar(EncodeChar(c) + rest) == Some((c, |EncodeChar(c)|))
  {
    var x := c as int;
    if x < 0x80 {
    } else if x < 0x800 {
      DecodeTwo(c, rest);
    } else if x < 0x1_0000 {
      DecodeThree(c, rest);
    } else {
      DecodeFour(c, rest);
    }
  }

  lemma DecodeTwo(c: char, rest: seq<byte>)
    requires 0x80 <= c as int < 0x800
    ensures DecodeChar(EncodeChar(c) + rest) == Some((c, 2))
  {
    var x := c as int;
    var bs := EncodeChar(c) + rest;
    DecodeEncodeChar2(x);
    assert bs[0] == 0xC0 + x / 64 && bs[1] == 0x80 + x % 64;
  }

  lemma DecodeThree(c: char, rest: seq<byte>)
    requires 0x800 <= c as int < 0x1_0000
    ensures DecodeChar(EncodeChar(c) + rest) == Some((c, 3))
  {
    var x := c as int;
    var bs := EncodeChar(c) + rest;
    DecodeEncodeChar3(x);
    assert bs[0] == 0xE0 + x / 4096 && bs[1] == 0x80 + (x / 64) % 64 && bs[2] == 0x80 + x % 64;
  }

  lemma DecodeFour(c: char, rest: seq<byte>)
    requires 0x1_0000 <= c as int
    ensures DecodeChar(EncodeChar(c) + rest) == Some((c, 4))
  {
    var x := c as int;
    var bs := EncodeChar(c) + rest;
    DecodeEncodeChar4(x);
    assert bs[0] == 0xF0 + x / 262144 && bs[1] == 0x80 + (x / 4096) % 64;
    assert bs[2] == 0x80 + (x / 64) % 64 && bs[3] == 0x80 + x % 64;
  }

  /** `from_utf8` reads back what `as_bytes` wrote. */
  lemma {:induction false} DecodeEncode(s: string)
    ensures Decode(Encode(s)) == Some(s)
  {
    if s != [] {
      var bs := Encode(s);
      DecodeEncodeChar(s[0], Encode(s[1..]));
      assert bs[|EncodeChar(s[0])|..] == Encode(s[1..]);
      DecodeEncode(s[1..]);
      assert [s[0]] + s[1..] == s;
    }
  }

  lemma DivMod64(x: int, q: int, r: int)
    requires 0 <= r < 64 && x == q * 64 + r
    ensures x / 64 == q && x % 64 == r
  {
  }

  lemma EncodeDecodeChar(bs: seq<byte>)
    requires DecodeChar(bs).Some?
    ensures EncodeChar(DecodeChar(bs).value.0) == bs[..DecodeChar(bs).value.1]
  {
    var n := DecodeChar(bs).value.1;
    if n == 2 {
      EncodeValue2(bs[0], bs[1]);
      assert bs[..2] == [bs[0], bs[1]];
    } else if n == 3 {
      EncodeValue3(bs[0], bs[1], bs[2]);
      assert bs[..3] == [bs[0], bs[1], bs[2]];
    } else if n == 4 {
      EncodeValue4(bs[0], bs[1], bs[2], bs[3]);
      assert bs[..4] == [bs[0], bs[1], bs[2], bs[3]];
    }
  }

  lemma EncodeValue2(b0: byte, b1: byte)
    requires 0xC2 <= b0 <= 0xDF && IsContinuation(b1)
    ensures 0x80 <= Value2(b0 as int, b1 as int) < 0x800
    ensures EncodeChar(Value2(b0 as int, b1 as int) as char) == [b0, b1]
  {
    var x := Value2(b0 as int, b1 as int);
    DivMod64(x, b0 as int - 0xC0, b1 as int - 0x80);
  }

  lemma EncodeValue3(b0: byte, b1: byte, b2: byte)
    requires 0xE0 <= b0 <= 0xEF && IsContinuation(b2)
    requires (if b0 == 0xE0 then 0xA0 else 0x80) <= b1 <= (if b0 == 0xED then 0x9F else 0xBF)
    ensures var x := Value3(b0 as int, b1 as int, b2 as int);
      0x800 <= x < 0x1_0000 && !(0xD800 <= x < 0xE000)
    ensures EncodeChar(Value3(b0 as int, b1 as int, b2 as int) as char) == [b0, b1, b2]
  {
    var x := Value3(b0 as int, b1 as int, b2 as int);
    var a: int, b: int, d: int := b0 as int - 0xE0, b1 as int - 0x80, b2 as int - 0x80;
    DivMod64(x, a * 64 + b, d);
    DivMod64(x / 64, a, b);
    assert x / 4096 == (x / 64) / 64;
  }

  lemma EncodeValue4(b0: byte, b1: byte, b2: byte, b3: byte)
    requires 0xF0 <= b0 <= 0xF4 && IsContinuation(b2) && IsContinuation(b3)
    requires (if b0 == 0xF0 then 0x90 else 0x80) <= b1 <= (if b0 == 0xF4 then 0x8F else 0xBF)
    ensures 0x1_0000 <= Value4(b0 as int, b1 as int, b2 as int, b3 as int) < 0x11_0000
    ensures EncodeChar(Value4(b0 as int, b1 as int, b2 as int, b3 as int) as char) == [b0, b1, b2, b3]
  {
    var x := Value4(b0 as int, b1 as int, b2 as int, b3 as int);
    var a: int, b: int, d: int, e: int := b0 as int - 0xF0, b1 as int - 0x80, b2 as int - 0x80, b3 as int - 0x80;
    DivMod64(x, (a * 64 + b) * 64 + d, e);
    DivMod64(x / 64, a * 64 + b, d);
    DivMod64(x / 64 / 64, a, b);
    assert x / 4096 == (x / 64) / 64;
    assert x / 262144 == (x / 64 / 64) / 64;
  }

  /** `from_utf8` accepts nothing but encodings: whatever it decodes is
      written back byte for byte by `as_bytes`. */
  lemma {:induction false} EncodeDecode(bs: seq<byte>)
    requires Decode(bs).Some?
    ensures Encode(Decode(bs).value) == bs
    decreases |bs|
  {
    if bs != [] {
      var n := DecodeChar(bs).value.1;
      DecodeCons(bs);
      EncodeDecodeChar(bs);
      EncodeDecode(bs[n..]);
      Reassemble(bs, n, DecodeChar(bs).value.0, Decode(bs[n..]).value);
    }
  }

  lemma Reassemble(bs: seq<byte>, n: nat, c: char, s: string)
    requires n <= |bs| && EncodeChar(c) == bs[..n] && Encode(s) == bs[n..]
    ensures Encode([c] + s) == bs
  {
    EncodeCons(c, s);
    assert bs == bs[..n] + bs[n..];
  }

  lemma DecodeCons(bs: seq<byte>)
    requires bs != [] && Decode(bs).Some?
    ensures var (c, n) := DecodeChar(bs).value;
      Decode(bs[n..]).Some? && Decode(bs).value == [c] + Decode(bs[n..]).value
  {
  }

  lemma EncodeCons(c: char, s: string)
    ensures Encode([c] + s) == EncodeChar(c) + Encode(s)
  {
    assert ([c] + s)[1..] == s;
  }
}
