/** UTF-8 as `str.encode()` and `bytes.decode()` use it (RFC 3629): the
    change file stores task names as their UTF-8 bytes, and decoding
    is strict, rejecting overlong forms, surrogates and code points
    beyond U+10FFFF. */
module Utf8 {
  import opened Values

  predicate IsContinuation(x: byte) {
    0x80 <= x < 0xC0
  }

  function EncodeChar(c: char): (r: seq<byte>)
    ensures 1 <= |r| <= 4
  {
    var n := c as int;
    if n < 0x80 then
      [n as byte]
    else if n < 0x800 then
      [(0xC0 + n / 64) as byte, (0x80 + n % 64) as byte]
    else if n < 0x10000 then
      [(0xE0 + n / 4096) as byte, (0x80 + (n / 64) % 64) as byte, (0x80 + n % 64) as byte]
    else
      [(0xF0 + n / 262144) as byte, (0x80 + (n / 4096) % 64) as byte,
       (0x80 + (n / 64) % 64) as byte, (0x80 + n % 64) as byte]
  }

  /** `str.encode()`: one to four bytes per character. */
  function Encode(s: string): (r: seq<byte>)
    ensures |s| <= |r| <= 4 * |s|
  {
    if s == [] then [] else EncodeChar(s[0]) + Encode(s[1..])
  }

  /** The character that a well-formed sequence starting `b` encodes,
      with the number of bytes it takes; `None` when `b` does not start
      with a well-formed sequence. */
  function DecodeFirst(b: seq<byte>): (r: Option<(char, nat)>)
    requires |b| > 0
    ensures r.Some? ==> 1 <= r.value.1 <= |b|
  {
    var b0 := b[0] as int;
    if b0 < 0x80 then
      Some((b0 as char, 1))
    else if 0xC2 <= b0 < 0xE0 then
      if |b| >= 2 && IsContinuation(b[1]) then
        Some((((b0 - 0xC0) * 64 + (b[1] as int - 0x80)) as char, 2))
      else None
    else if 0xE0 <= b0 < 0xF0 then
      if |b| >= 3 && IsContinuation(b[1]) && IsContinuation(b[2])
         && (b0 == 0xE0 ==> b[1] >= 0xA0) && (b0 == 0xED ==> b[1] < 0xA0)
      then
        var n := (b0 - 0xE0) * 4096 + (b[1] as int - 0x80) * 64 + (b[2] as int - 0x80);
        Some((n as char, 3))
      else None
    else if 0xF0 <= b0 < 0xF5 then
      if |b| >= 4 && IsContinuation(b[1]) && IsContinuation(b[2]) && IsContinuation(b[3])
         && (b0 == 0xF0 ==> b[1] >= 0x90) && (b0 == 0xF4 ==> b[1] < 0x90)
      then
        var n := (b0 - 0xF0) * 262144 + (b[1] as int - 0x80) * 4096
                 + (b[2] as int - 0x80) * 64 + (b[3] as int - 0x80);
        Some((n as char, 4))
      else None
    else
      None
  }

  /** `bytes.decode()`: the characters of a well-formed sequence, at
      most one per byte, or UnicodeDecodeError. */
  function Decode(b: seq<byte>): (r: Result<string>)
    ensures r.Ok? ==> |r.value| <= |b|
    ensures r.Err? ==> r.error == UnicodeDecodeError
    decreases |b|
  {
    if b == [] then Ok([])
    else
      match DecodeFirst(b)
      case None => Err(UnicodeDecodeError)
      case Some((c, k)) =>
        match Decode(b[k..])
        case Ok(rest) => Ok([c] + rest)
        case Err(e) => Err(e)
  }

  lemma DecodeFirstEncodeChar(c: char, rest: seq<byte>)
    ensures DecodeFirst(EncodeChar(c) + rest) == Some((c, |EncodeChar(c)|))
  {
    var n := c as int;
    if n < 0x80 {
    } else if n < 0x800 {
      DecodeTwo(c, rest);
    } else if n < 0x10000 {
      DecodeThree(c, rest);
    } else {
      DecodeFour(c, rest);
    }
  }

  lemma DecodeTwo(c: char, rest: seq<byte>)
    requires 0x80 <= c as int < 0x800
    ensures DecodeFirst(EncodeChar(c) + rest) == Some((c, 2))
  {
    var n := c as int;
    var hi, lo := n / 64, n % 64;
    assert hi * 64 + lo == n;
    var b := EncodeChar(c) + rest;
    assert b[0] as int == 0xC0 + hi && b[1] as int == 0x80 + lo;
    assert (b[0] as int - 0xC0) * 64 + (b[1] as int - 0x80) == n;
  }

  lemma DecodeThree(c: char, rest: seq<byte>)
    requires 0x800 <= c as int < 0x10000
    ensures DecodeFirst(EncodeChar(c) + rest) == Some((c, 3))
  {
    var n := c as int;
    var x, y, z := n / 4096, (n / 64) % 64, n % 64;
    assert n / 64 == x * 64 + y;
    assert x * 4096 + y * 64 + z == n;
    var b := EncodeChar(c) + rest;
    assert b[0] as int == 0xE0 + x && b[1] as int == 0x80 + y && b[2] as int == 0x80 + z;
    assert x == 0 ==> y >= 32;
    assert x == 13 ==> y < 32;
  }

  lemma DecodeFour(c: char, rest: seq<byte>)
    requires 0x10000 <= c as int
    ensures DecodeFirst(EncodeChar(c) + rest) == Some((c, 4))
  {
    var n := c as int;
    var w, x, y, z := n / 262144, (n / 4096) % 64, (n / 64) % 64, n % 64;
    assert n / 4096 == w * 64 + x;
    assert n / 64 == (w * 64 + x) * 64 + y;
    assert w * 262144 + x * 4096 + y * 64 + z == n;
    var b := EncodeChar(c) + rest;
    assert b[0] as int == 0xF0 + w && b[1] as int == 0x80 + x;
    assert b[2] as int == 0x80 + y && b[3] as int == 0x80 + z;
    assert w == 0 ==> x >= 16;
    assert w == 4 ==> x < 16;
  }

  /** A two-byte sequence the decoder accepts is the encoding of the
      character it decodes to. */
  lemma EncodeTwoBytes(b: seq<byte>)
    requires |b| >= 2 && 0xC2 <= b[0] as int < 0xE0 && IsContinuation(b[1])
    ensures var n := (b[0] as int - 0xC0) * 64 + (b[1] as int - 0x80);
      0x80 <= n < 0x800 && EncodeChar(n as char) == b[..2]
  {
    var hi, lo := b[0] as int - 0xC0, b[1] as int - 0x80;
    var n := hi * 64 + lo;
    assert n / 64 == hi && n % 64 == lo;
    assert EncodeChar(n as char) == [b[0], b[1]];
  }

  /** A three-byte sequence the decoder accepts is the encoding of the
      character it decodes to. */
  lemma EncodeThreeBytes(b: seq<byte>)
    requires |b| >= 3 && 0xE0 <= b[0] as int < 0xF0 && IsContinuation(b[1]) && IsContinuation(b[2])
    requires (b[0] == 0xE0 ==> b[1] >= 0xA0) && (b[0] == 0xED ==> b[1] < 0xA0)
    ensures var n := (b[0] as int - 0xE0) * 4096 + (b[1] as int - 0x80) * 64 + (b[2] as int - 0x80);
      0x800 <= n < 0x10000 && !(0xD800 <= n < 0xE000) && EncodeChar(n as char) == b[..3]
  {
    var x, y, z := b[0] as int - 0xE0, b[1] as int - 0x80, b[2] as int - 0x80;
    var n := x * 4096 + y * 64 + z;
    assert n / 64 == x * 64 + y && n % 64 == z;
    assert n / 4096 == x && (n / 64) % 64 == y;
    assert EncodeChar(n as char) == [b[0], b[1], b[2]];
  }

  /** A four-byte sequence the decoder accepts is the encoding of the
      character it decodes to. */
  lemma EncodeFourBytes(b: seq<byte>)
    requires |b| >= 4 && 0xF0 <= b[0] as int < 0xF5
    requires IsContinuation(b[1]) && IsContinuation(b[2]) && IsContinuation(b[3])
    requires (b[0] == 0xF0 ==> b[1] >= 0x90) && (b[0] == 0xF4 ==> b[1] < 0x90)
    ensures var n := (b[0] as int - 0xF0) * 262144 + (b[1] as int - 0x80) * 4096
                     + (b[2] as int - 0x80) * 64 + (b[3] as int - 0x80);
      0x10000 <= n < 0x110000 && EncodeChar(n as char) == b[..4]
  {
    var w, x, y, z := b[0] as int - 0xF0, b[1] as int - 0x80, b[2] as int - 0x80, b[3] as int - 0x80;
    var n := w * 262144 + x * 4096 + y * 64 + z;
    assert n / 64 == (w * 64 + x) * 64 + y && n % 64 == z;
    assert n / 4096 == w * 64 + x && (n / 64) % 64 == y;
    assert n / 262144 == w && (n / 4096) % 64 == x;
    assert EncodeChar(n as char) == [b[0], b[1], b[2], b[3]];
  }

  /** The decoder is strict: the leading sequence it accepts is exactly
      the encoding of the character it returns, so overlong forms,
      surrogates and code points past U+10FFFF are never accepted. */
  lemma EncodeOfDecodeFirst(b: seq<byte>)
    requires |b| > 0 && DecodeFirst(b).Some?
    ensures EncodeChar(DecodeFirst(b).value.0) == b[..DecodeFirst(b).value.1]
  {
    var b0 := b[0] as int;
    if b0 < 0x80 {
      assert b[..1] == [b[0]];
    } else if b0 < 0xE0 {
      EncodeTwoBytes(b);
    } else if b0 < 0xF0 {
      EncodeThreeBytes(b);
    } else {
      EncodeFourBytes(b);
    }
  }

  /** One step of a successful decode: the first character, then the
      decoding of the bytes after it. */
  lemma DecodeStep(b: seq<byte>)
    requires b != [] && Decode(b).Ok?
    ensures DecodeFirst(b).Some?
    ensures var k := DecodeFirst(b).value.1;
      Decode(b[k..]).Ok? && Decode(b).value == [DecodeFirst(b).value.0] + Decode(b[k..]).value
  {
  }

  lemma EncodeCons(c: char, rest: string)
    ensures Encode([c] + rest) == EncodeChar(c) + Encode(rest)
  {
    assert ([c] + rest)[0] == c && ([c] + rest)[1..] == rest;
  }

  /** Encoding what `bytes.decode()` accepted gives the bytes back: the
      decoder accepts only well-formed UTF-8. */
  lemma {:induction false} EncodeDecode(b: seq<byte>)
    ensures Decode(b).Ok? ==> Encode(Decode(b).value) == b
    decreases |b|
  {
    if b != [] && Decode(b).Ok? {
      DecodeStep(b);
      var c, k := DecodeFirst(b).value.0, DecodeFirst(b).value.1;
      EncodeOfDecodeFirst(b);
      EncodeDecode(b[k..]);
      EncodeAssemble(b, k, c, Decode(b[k..]).value, Decode(b).value);
    }
  }

  lemma EncodeAssemble(b: seq<byte>, k: nat, c: char, rest: string, d: string)
    requires k <= |b| && d == [c] + rest
    requires EncodeChar(c) == b[..k] && Encode(rest) == b[k..]
    ensures Encode(d) == b
  {
    EncodeCons(c, rest);
    assert b[..k] + b[k..] == b;
  }

  /** Decoding what `str.encode()` wrote gives the string back. */
  lemma {:induction false} DecodeEncode(s: string)
    ensures Decode(Encode(s)) == Ok(s)
  {
    if s != [] {
      var e, t := EncodeChar(s[0]), Encode(s[1..]);
      assert Encode(s) == e + t;
      DecodeFirstEncodeChar(s[0], t);
      assert (e + t)[|e|..] == t;
      DecodeEncode(s[1..]);
      assert [s[0]] + s[1..] == s;
    }
  }
}
