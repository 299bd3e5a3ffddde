/** UTF-8 (section 3 of RFC 3629): the encoding every string of the modelled programs has in memory and on the wire. */
module Utf8 {
  import opened Wrappers

  type Byte = b: int | 0 <= b < 256
  type Bytes = seq<Byte>

  function EncodeChar(c: char): (r: Bytes)
    ensures 1 <= |r| <= 4
    ensures r[0] < 0x80 || 0xC0 <= r[0]
    ensures forall i :: 1 <= i < |r| ==> Continuation(r[i])
    ensures (c as int < 0x80) == (r == [c as int])
    ensures 0x80 <= c as int ==> forall i :: 0 <= i < |r| ==> 0x80 <= r[i]
  {
    var n := c as int;
    if n < 0x80 then [n]
    else if n < 0x800 then [0xC0 + n / 64, 0x80 + n % 64]
    else if n < 0x10000 then [0xE0 + n / 4096, 0x80 + n / 64 % 64, 0x80 + n % 64]
    else [0xF0 + n / 262144, 0x80 + n / 4096 % 64, 0x80 + n / 64 % 64, 0x80 + n % 64]
  }

  predicate Continuation(b: Byte) {
    0x80 <= b < 0xC0
  }

  function Encode(s: string): (r: Bytes)
  {
    if s == "" then [] else EncodeChar(s[0]) + Encode(s[1..])
  }

  predicate IsScalar(n: int) {
    0 <= n < 0xD800 || 0xE000 <= n < 0x110000
  }

  /** Values of two, three and four byte sequences, before the range checks. */
  function Two(a: int, b: int): int {
    (a - 0xC0) * 64 + (b - 0x80)
  }

  function Three(a: int, b: int, c: int): int {
    ((a - 0xE0) * 64 + (b - 0x80)) * 64 + (c - 0x80)
  }

  function Four(a: int, b: int, c: int, d: int): int {
    (((a - 0xF0) * 64 + (b - 0x80)) * 64 + (c - 0x80)) * 64 + (d - 0x80)
  }

  /** The code point announced by the first bytes of `b` and its length, or (-1, 0) when they announce none. */
  function Leading(b: Bytes): (r: (int, nat))
    ensures r.1 <= |b|
    ensures 0 <= r.0 ==> 0 < r.1 && IsScalar(r.0)
  {
    if b == [] then (-1, 0)
    else if b[0] < 0x80 then (b[0], 1)
    else if 0xC2 <= b[0] < 0xE0 && 2 <= |b| && Continuation(b[1]) then
      (Two(b[0], b[1]), 2)
    else if 0xE0 <= b[0] < 0xF0 && 3 <= |b| && Continuation(b[1]) && Continuation(b[2]) then
      var n := Three(b[0], b[1], b[2]);
      if 0x800 <= n && IsScalar(n) then (n, 3) else (-1, 0)
    else if 0xF0 <= b[0] < 0xF5 && 4 <= |b| && Continuation(b[1]) && Continuation(b[2]) && Continuation(b[3]) then
      var n := Four(b[0], b[1], b[2], b[3]);
      if 0x10000 <= n && IsScalar(n) then (n, 4) else (-1, 0)
    else (-1, 0)
  }

  lemma TwoDigits(x: int, y: int)
    requires 0 <= y < 64
    ensures (x * 64 + y) / 64 == x && (x * 64 + y) % 64 == y
  {
  }

  lemma ThreeDigits(x: int, y: int, z: int)
    requires 0 <= y < 64 && 0 <= z < 64
    ensures var n := (x * 64 + y) * 64 + z; n % 64 == z && n / 64 % 64 == y && n / 4096 == x
  {
    TwoDigits(x * 64 + y, z);
    TwoDigits(x, y);
    var n := (x * 64 + y) * 64 + z;
    assert n / 4096 == n / 64 / 64;
  }

  lemma FourDigits(x: int, y: int, z: int, w: int)
    requires 0 <= y < 64 && 0 <= z < 64 && 0 <= w < 64
    ensures var n := ((x * 64 + y) * 64 + z) * 64 + w;
      n % 64 == w && n / 64 % 64 == z && n / 4096 % 64 == y && n / 262144 == x
  {
    var m := (x * 64 + y) * 64 + z;
    ThreeDigits(x, y, z);
    TwoDigits(m, w);
    var n := m * 64 + w;
    assert n / 4096 == n / 64 / 64;
    assert n / 262144 == n / 64 / 4096;
  }

  lemma EncodeTwo(x: Byte, y: Byte)
    requires 0xC2 <= x < 0xE0 && Continuation(y)
    ensures EncodeChar(Two(x, y) as char) == [x, y]
  {
    TwoDigits(x - 0xC0, y - 0x80);
  }

  lemma EncodeThree(x: Byte, y: Byte, z: Byte)
    requires 0xE0 <= x < 0xF0 && Continuation(y) && Continuation(z)
    requires 0x800 <= Three(x, y, z) && IsScalar(Three(x, y, z))
    ensures EncodeChar(Three(x, y, z) as char) == [x, y, z]
  {
    ThreeDigits(x - 0xE0, y - 0x80, z - 0x80);
  }

  lemma EncodeFour(x: Byte, y: Byte, z: Byte, w: Byte)
    requires 0xF0 <= x < 0xF5 && Continuation(y) && Continuation(z) && Continuation(w)
    requires 0x10000 <= Four(x, y, z, w) && IsScalar(Four(x, y, z, w))
    ensures EncodeChar(Four(x, y, z, w) as char) == [x, y, z, w]
  {
    FourDigits(x - 0xF0, y - 0x80, z - 0x80, w - 0x80);
  }

  lemma EncodeLeading(b: Bytes)
    requires 0 <= Leading(b).0
    ensures EncodeChar(Leading(b).0 as char) == b[..Leading(b).1]
  {
    hide Two, Three, Four;
    var k := Leading(b).1;
    if k == 2 {
      EncodeTwo(b[0], b[1]);
    } else if k == 3 {
      EncodeThree(b[0], b[1], b[2]);
    } else if k == 4 {
      EncodeFour(b[0], b[1], b[2], b[3]);
    }
  }

  /** `String::from_utf8`: the text, or nothing when the bytes are not well formed. */
  function Decode(b: Bytes): (r: Option<string>)
    decreases |b|
  {
    if b == [] then Some("")
    else
      var (n, k) := Leading(b);
      if n < 0 then None
      else
        match Decode(b[k..])
        case None => None
        case Some(t) => Some([n as char] + t)
  }

  /** The digits `EncodeChar` writes put the code point back together. */
  lemma DigitsCombine(n: int)
    requires 0 <= n
    ensures Two(0xC0 + n / 64, 0x80 + n % 64) == n
    ensures Three(0xE0 + n / 4096, 0x80 + n / 64 % 64, 0x80 + n % 64) == n
    ensures Four(0xF0 + n / 262144, 0x80 + n / 4096 % 64, 0x80 + n / 64 % 64, 0x80 + n % 64) == n
  {
    assert n == n / 64 * 64 + n % 64;
    assert n / 64 == n / 4096 * 64 + n / 64 % 64;
    assert n / 4096 == n / 262144 * 64 + n / 4096 % 64;
  }

  lemma LeadingOfEncodeChar(c: char, rest: Bytes)
    ensures Leading(EncodeChar(c) + rest) == (c as int, |EncodeChar(c)|)
  {
    hide Two, Three, Four;
    var e := EncodeChar(c);
    var b := e + rest;
    assert forall i :: 0 <= i < |e| ==> b[i] == e[i];
    DigitsCombine(c as int);
  }

  lemma {:induction false} DecodeEncode(s: string)
    ensures Decode(Encode(s)) == Some(s)
  {
    if s != "" {
      LeadingOfEncodeChar(s[0], Encode(s[1..]));
      assert Encode(s)[|EncodeChar(s[0])|..] == Encode(s[1..]);
      DecodeEncode(s[1..]);
      assert s == [s[0]] + s[1..];
    }
  }

  lemma {:induction false} EncodeDecode(b: Bytes)
    requires Decode(b).Some?
    ensures Encode(Decode(b).value) == b
    decreases |b|
  {
    hide EncodeChar, Leading;
    if b != [] {
      EncodeLeading(b);
      var k := Leading(b).1;
      EncodeDecode(b[k..]);
      assert Decode(b).value[1..] == Decode(b[k..]).value;
      assert b == b[..k] + b[k..];
    }
  }

  lemma {:induction false} EncodeConcat(s: string, t: string)
    ensures Encode(s + t) == Encode(s) + Encode(t)
  {
    hide EncodeChar;
    if s == "" {
      assert s + t == t;
    } else {
      var all := s + t;
      assert all != "" && all[0] == s[0] && all[1..] == s[1..] + t;
      EncodeConcat(s[1..], t);
      assert EncodeChar(s[0]) + (Encode(s[1..]) + Encode(t)) == EncodeChar(s[0]) + Encode(s[1..]) + Encode(t);
    }
  }

  /** An ASCII byte occurs in the encoding exactly when its character occurs in the text. */
  lemma {:induction false} AsciiInEncode(s: string, c: char)
    requires c as int < 0x80
    ensures (c as int in Encode(s)) == (c in s)
  {
    hide EncodeChar;
    if s != "" {
      AsciiInEncode(s[1..], c);
      assert s == [s[0]] + s[1..];
    }
  }

  lemma {:induction false} EncodeLength(s: string)
    ensures |s| <= |Encode(s)|
  {
    if s != "" {
      EncodeLength(s[1..]);
    }
  }
}
