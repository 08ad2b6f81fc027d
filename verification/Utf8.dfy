/** UTF-8, as RFC 3629 defines it: the shortest form only, no surrogates. */
module Utf8 {
  import opened Text

  type Byte = n: int | 0 <= n < 256

  predicate IsScalar(v: int) {
    0 <= v < 0xD800 || 0xE000 <= v < 0x11_0000
  }

  predicate IsTail(b: Byte) {
    0x80 <= b < 0xC0
  }

  function EncodeChar(c: char): (r: seq<Byte>)
    ensures 1 <= |r| <= 4
    ensures c < 128 as char ==> r == [c as int]
    ensures c >= 128 as char ==> forall i :: 0 <= i < |r| ==> r[i] >= 128
  {
    var v := c as int;
    var u := v / 64;
    var t := u / 64;
    if v < 0x80 then [v]
    else if v < 0x800 then [0xC0 + u, 0x80 + v % 64]
    else if v < 0x1_0000 then [0xE0 + t, 0x80 + u % 64, 0x80 + v % 64]
    else [0xF0 + t / 64, 0x80 + t % 64, 0x80 + u % 64, 0x80 + v % 64]
  }

  /** Six more bits. */
  function Shift(v: int, b: Byte): int {
    v * 64 + (b as int - 0x80)
  }

  function Lead(b: Byte, mark: int): int {
    b as int - mark
  }

  function Encode(s: string): seq<Byte> {
    if s == "" then [] else EncodeChar(s[0]) + Encode(s[1..])
  }

  /** The first character of a text and its length in bytes. */
  function DecodeChar(b: seq<Byte>): (r: Option<(char, nat)>)
    requires b != []
    ensures r.Some? ==> 1 <= r.value.1 <= |b|
  {
    if b[0] < 0x80 then Some((b[0] as char, 1))
    else if 0xC2 <= b[0] < 0xE0 && |b| >= 2 && IsTail(b[1]) then
      Some((Shift(Lead(b[0], 0xC0), b[1]) as char, 2))
    else if 0xE0 <= b[0] < 0xF0 && |b| >= 3 && IsTail(b[1]) && IsTail(b[2]) then
      var v := Shift(Shift(Lead(b[0], 0xE0), b[1]), b[2]);
      if 0x800 <= v && IsScalar(v) then Some((v as char, 3)) else None
    else if 0xF0 <= b[0] < 0xF5 && |b| >= 4 && IsTail(b[1]) && IsTail(b[2]) && IsTail(b[3]) then
      var v := Shift(Shift(Shift(Lead(b[0], 0xF0), b[1]), b[2]), b[3]);
      if 0x1_0000 <= v && IsScalar(v) then Some((v as char, 4)) else None
    else None
  }

  function Decode(b: seq<Byte>): Option<string> {
    if b == [] then Some("") else
      var first := DecodeChar(b);
      if first.None? then None else
        var rest := Decode(b[first.value.1..]);
        if rest.None? then None else Some([first.value.0] + rest.value)
  }

  /** Every text is read back. */
  lemma {:induction false} DecodeEncode(s: string)
    ensures Decode(Encode(s)) == Some(s)
  {
    if s != "" {
      var c := EncodeChar(s[0]);
      var rest := Encode(s[1..]);
      assert DecodeChar(EncodeChar(s[0]) + rest) == Some((s[0], |EncodeChar(s[0])|));
      assert (c + rest)[|c|..] == rest;
      DecodeEncode(s[1..]);
      assert s == [s[0]] + s[1..];
    }
  }

  lemma EncodeDecodedChar(b: seq<Byte>)
    requires b != [] && DecodeChar(b).Some?
    ensures EncodeChar(DecodeChar(b).value.0) == b[..DecodeChar(b).value.1]
  {
    var (c, n) := DecodeChar(b).value;
    var v := c as int;
    if n == 2 {
      Unshift(Lead(b[0], 0xC0), b[1]);
    } else if n == 3 {
      Unshift(Lead(b[0], 0xE0), b[1]);
      Unshift(Shift(Lead(b[0], 0xE0), b[1]), b[2]);
    } else if n == 4 {
      var t := Shift(Lead(b[0], 0xF0), b[1]);
      Unshift(Lead(b[0], 0xF0), b[1]);
      Unshift(t, b[2]);
      Unshift(Shift(t, b[2]), b[3]);
    }
  }

  lemma Unshift(v: int, b: Byte)
    requires v >= 0 && IsTail(b)
    ensures Shift(v, b) / 64 == v && Shift(v, b) % 64 == b as int - 0x80
  {
  }

  /** And there is only one way to write it. */
  lemma {:induction false} EncodeDecode(b: seq<Byte>)
    requires Decode(b).Some?
    ensures Encode(Decode(b).value) == b
    decreases |b|
  {
    hide EncodeChar, DecodeChar;
    if b != [] {
      var (c, n) := DecodeChar(b).value;
      EncodeDecodedChar(b);
      EncodeDecode(b[n..]);
      assert b == b[..n] + b[n..];
      assert Decode(b).value[1..] == Decode(b[n..]).value;
    }
  }

  /** The bits of a character's number as the table in section 3 of RFC 3629 distributes them, six to each byte
      after the first. */
  lemma EncodeExactly(a: nat, b: nat, c: nat, d: nat)
    requires b < 64 && c < 64 && d < 64
    ensures a < 0x80 ==> EncodeChar(a as char) == [a]
    ensures 0x80 <= 64 * a + b < 0x800 ==> EncodeChar((64 * a + b) as char) == [0xC0 + a, 0x80 + b]
    ensures 0x800 <= 4096 * a + 64 * b + c < 0x1_0000 && IsScalar(4096 * a + 64 * b + c) ==>
      EncodeChar((4096 * a + 64 * b + c) as char) == [0xE0 + a, 0x80 + b, 0x80 + c]
    ensures 0x1_0000 <= 262144 * a + 4096 * b + 64 * c + d < 0x11_0000 ==>
      EncodeChar((262144 * a + 4096 * b + 64 * c + d) as char) == [0xF0 + a, 0x80 + b, 0x80 + c, 0x80 + d]
  {
    hide EncodeChar;
    if a < 0x80 { OneByte(a); }
    if 0x80 <= 64 * a + b < 0x800 { TwoBytes(a, b); }
    if 0x800 <= 4096 * a + 64 * b + c < 0x1_0000 && IsScalar(4096 * a + 64 * b + c) { ThreeBytes(a, b, c); }
    if 0x1_0000 <= 262144 * a + 4096 * b + 64 * c + d < 0x11_0000 { FourBytes(a, b, c, d); }
  }

  lemma OneByte(a: nat)
    requires a < 0x80
    ensures EncodeChar(a as char) == [a]
  {
  }

  lemma TwoBytes(a: nat, b: nat)
    requires b < 64 && 0x80 <= 64 * a + b < 0x800
    ensures EncodeChar((64 * a + b) as char) == [0xC0 + a, 0x80 + b]
  {
  }

  lemma ThreeBytes(a: nat, b: nat, c: nat)
    requires b < 64 && c < 64 && 0x800 <= 4096 * a + 64 * b + c < 0x1_0000 && IsScalar(4096 * a + 64 * b + c)
    ensures EncodeChar((4096 * a + 64 * b + c) as char) == [0xE0 + a, 0x80 + b, 0x80 + c]
  {
    var v := 4096 * a + 64 * b + c;
    assert v / 64 == 64 * a + b && v % 64 == c;
    assert (64 * a + b) / 64 == a && (64 * a + b) % 64 == b;
  }

  lemma FourBytes(a: nat, b: nat, c: nat, d: nat)
    requires b < 64 && c < 64 && d < 64 && 0x1_0000 <= 262144 * a + 4096 * b + 64 * c + d < 0x11_0000
    ensures EncodeChar((262144 * a + 4096 * b + 64 * c + d) as char) == [0xF0 + a, 0x80 + b, 0x80 + c, 0x80 + d]
  {
    var v := 262144 * a + 4096 * b + 64 * c + d;
    assert v / 64 == 4096 * a + 64 * b + c && v % 64 == d;
    assert (4096 * a + 64 * b + c) / 64 == 64 * a + b && (4096 * a + 64 * b + c) % 64 == c;
    assert (64 * a + b) / 64 == a && (64 * a + b) % 64 == b;
  }
}
