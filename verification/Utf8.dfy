/** UTF-8, as protobuf strings carry text. */
module Utf8 {
  import opened Basics

  function EncodeChar(c: char): Bytes {
    var n := c as int;
    if n < 0x80 then [n]
    else if n < 0x800 then [0xC0 + n / 64, 0x80 + n % 64]
    else if n < 0x10000 then [0xE0 + n / 4096, 0x80 + n / 64 % 64, 0x80 + n % 64]
    else [0xF0 + n / 262144, 0x80 + n / 4096 % 64, 0x80 + n / 64 % 64, 0x80 + n % 64]
  }

  function Encode(s: string): Bytes {
    if |s| == 0 then [] else EncodeChar(s[0]) + Encode(s[1..])
  }

  predicate Continuation(b: byte) {
    0x80 <= b < 0xC0
  }

  function Payload(b: byte, base: int): int {
    b - base
  }

  /** The character at the front and how many bytes it takes; overlong forms,
      surrogates and stray continuation bytes are refused. */
  function DecodeChar(b: Bytes): Option<(char, nat)>
    requires |b| > 0
  {
    if b[0] < 0x80 then Some((b[0] as char, 1))
    else if 0xC2 <= b[0] < 0xE0 && |b| >= 2 && Continuation(b[1]) then
      Some(((Payload(b[0], 0xC0) * 64 + Payload(b[1], 0x80)) as char, 2))
    else if 0xE0 <= b[0] < 0xF0 && |b| >= 3 && Continuation(b[1]) && Continuation(b[2]) then
      var n := Payload(b[0], 0xE0) * 4096 + Payload(b[1], 0x80) * 64 + Payload(b[2], 0x80);
      if 0x800 <= n < 0xD800 || 0xE000 <= n then Some((n as char, 3)) else None
    else if 0xF0 <= b[0] < 0xF8 && |b| >= 4 && Continuation(b[1]) && Continuation(b[2]) && Continuation(b[3]) then
      var n := Payload(b[0], 0xF0) * 262144 + Payload(b[1], 0x80) * 4096 + Payload(b[2], 0x80) * 64
               + Payload(b[3], 0x80);
      if 0x10000 <= n < 0x110000 then Some((n as char, 4)) else None
    else None
  }

  function Decode(b: Bytes): Option<string> {
    if |b| == 0 then Some("")
    else
      var c := DecodeChar(b);
      if c.None? || c.value.1 > |b| || c.value.1 == 0 then None
      else
        var rest := Decode(b[c.value.1..]);
        if rest.None? then None else Some([c.value.0] + rest.value)
  }

  lemma CharRoundTrip(c: char, rest: Bytes)
    ensures |EncodeChar(c)| > 0
    ensures DecodeChar(EncodeChar(c) + rest) == Some((c, |EncodeChar(c)|))
  {
    var n := c as int;
    if 0x800 <= n < 0x10000 {
      ThreeDigits(n);
    } else if n >= 0x10000 {
      FourDigits(n);
    }
  }

  lemma ThreeDigits(n: nat)
    ensures n == n / 4096 * 4096 + n / 64 % 64 * 64 + n % 64
  {
    assert n / 4096 == n / 64 / 64;
  }

  lemma FourDigits(n: nat)
    ensures n == n / 262144 * 262144 + n / 4096 % 64 * 4096 + n / 64 % 64 * 64 + n % 64
  {
    ThreeDigits(n);
    assert n / 262144 == n / 4096 / 64;
  }

  lemma {:induction false} RoundTrip(s: string)
    ensures Decode(Encode(s)) == Some(s)
  {
    if |s| > 0 {
      CharRoundTrip(s[0], Encode(s[1..]));
      var b, k := Encode(s), |EncodeChar(s[0])|;
      assert b[k..] == Encode(s[1..]);
      RoundTrip(s[1..]);
      assert s == [s[0]] + s[1..];
    }
  }

  lemma CharDecodedIsEncoded(b: Bytes)
    requires |b| > 0 && DecodeChar(b).Some?
    ensures var (c, k) := DecodeChar(b).value; 0 < k <= |b| && EncodeChar(c) == b[..k]
  {
    if 0xE0 <= b[0] < 0xF0 {
      ThreeBytes(Payload(b[0], 0xE0), Payload(b[1], 0x80), Payload(b[2], 0x80));
    } else if 0xF0 <= b[0] {
      FourBytes(Payload(b[0], 0xF0), Payload(b[1], 0x80), Payload(b[2], 0x80), Payload(b[3], 0x80));
    }
  }

  lemma ThreeBytes(x: nat, y: nat, z: nat)
    requires y < 64 && z < 64
    ensures var n := x * 4096 + y * 64 + z; n / 4096 == x && n / 64 % 64 == y && n % 64 == z
  {
    var n := x * 4096 + y * 64 + z;
    assert n == (x * 64 + y) * 64 + z;
    assert n / 64 == x * 64 + y;
    assert n / 64 / 64 == x;
  }

  lemma FourBytes(w: nat, x: nat, y: nat, z: nat)
    requires x < 64 && y < 64 && z < 64
    ensures var n := w * 262144 + x * 4096 + y * 64 + z;
            n / 262144 == w && n / 4096 % 64 == x && n / 64 % 64 == y && n % 64 == z
  {
    ThreeBytes(w * 64 + x, y, z);
  }

  /** Nothing else is accepted: bytes decode to a string only if they are its encoding,
      so overlong forms and surrogates are refused. */
  lemma {:induction false} DecodedIsEncoded(b: Bytes)
    requires Decode(b).Some?
    ensures Encode(Decode(b).value) == b
    decreases |b|
  {
    hide EncodeChar, DecodeChar;
    if |b| > 0 {
      var (c, k) := DecodeChar(b).value;
      CharDecodedIsEncoded(b);
      DecodedIsEncoded(b[k..]);
      var rest := Decode(b[k..]).value;
      assert Decode(b).value == [c] + rest && ([c] + rest)[1..] == rest;
      assert b == b[..k] + b[k..];
    }
  }
}
