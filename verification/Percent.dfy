/**
 Percent-encoding (section 2.1 of RFC 3986) with the three character sets the clients use, and the decoder that undoes
 it.
 */
module Percent {
  import opened Wrappers
  import opened Utf8

  /** The bytes an encoder leaves as they are. */
  type Kept = Byte -> bool

  /** Only ASCII is kept, and never the escape character itself. */
  ghost predicate Escaping(keep: Kept) {
    !keep('%' as int) && forall b: Byte :: keep(b) ==> b < 0x80
  }

  predicate IsAlnumByte(b: Byte) {
    'a' as int <= b <= 'z' as int || 'A' as int <= b <= 'Z' as int || '0' as int <= b <= '9' as int
  }

  /** `PATH_SEGMENT`: everything printable except the characters that could end or escape a segment. */
  predicate KeptInPath(b: Byte) {
    0x20 < b < 0x7F && b !in PATH_RESERVED
  }

  const PATH_RESERVED: set<int> :=
    {'"' as int, '#' as int, '%' as int, '<' as int, '>' as int, '?' as int, '`' as int, '{' as int, '}' as int,
     '/' as int, '@' as int, ':' as int, '[' as int, ']' as int}

  /** `NON_ALPHANUMERIC` of the kleos client. */
  predicate KeptInQuery(b: Byte) {
    IsAlnumByte(b)
  }

  /** The unreserved characters of section 2.3 of RFC 3986, kept by the forge client. */
  predicate Unreserved(b: Byte) {
    IsAlnumByte(b) || b == '-' as int || b == '_' as int || b == '.' as int || b == '~' as int
  }

  function HexDigit(n: int): (c: char)
    requires 0 <= n < 16
    ensures HexValue(c) == n && IsUpperHex(c)
  {
    if n < 10 then ('0' as int + n) as char else ('A' as int + n - 10) as char
  }

  predicate IsUpperHex(c: char) {
    '0' <= c <= '9' || 'A' <= c <= 'F'
  }

  /** The value of a hexadecimal digit of either case, or -1. */
  function HexValue(c: char): int {
    if '0' <= c <= '9' then c as int - '0' as int
    else if 'A' <= c <= 'F' then c as int - 'A' as int + 10
    else if 'a' <= c <= 'f' then c as int - 'a' as int + 10
    else -1
  }

  function EncodeByte(keep: Kept, b: Byte): string {
    if keep(b) then [b as char] else ['%', HexDigit(b / 16), HexDigit(b % 16)]
  }

  function EncodeBytes(keep: Kept, bytes: Bytes): (r: string)
  {
    if bytes == [] then "" else EncodeByte(keep, bytes[0]) + EncodeBytes(keep, bytes[1..])
  }

  /** `utf8_percent_encode`. */
  function PercentEncode(keep: Kept, s: string): string {
    EncodeBytes(keep, Encode(s))
  }

  /** The bytes a percent-encoded ASCII text stands for. */
  function DecodeBytes(t: string): (r: Option<Bytes>)
    decreases |t|
  {
    if t == "" then Some([])
    else if t[0] == '%' then
      if |t| < 3 || HexValue(t[1]) < 0 || HexValue(t[2]) < 0 then None
      else match DecodeBytes(t[3..])
        case None => None
        case Some(rest) => Some([HexValue(t[1]) * 16 + HexValue(t[2])] + rest)
    else if 0x80 <= t[0] as int then None
    else match DecodeBytes(t[1..])
      case None => None
      case Some(rest) => Some([t[0] as int] + rest)
  }

  function PercentDecode(t: string): (r: Option<string>)
  {
    match DecodeBytes(t) case None => None case Some(bytes) => Decode(bytes)
  }

  lemma DecodeOneByte(keep: Kept, b: Byte, rest: string)
    requires Escaping(keep) && DecodeBytes(rest).Some?
    ensures DecodeBytes(EncodeByte(keep, b) + rest) == Some([b] + DecodeBytes(rest).value)
  {
    if keep(b) {
      DecodeKept(b, rest);
    } else {
      DecodeEscape(b / 16, b % 16, rest);
    }
  }

  lemma DecodeKept(b: Byte, rest: string)
    requires b < 0x80 && b != '%' as int && DecodeBytes(rest).Some?
    ensures DecodeBytes([b as char] + rest) == Some([b] + DecodeBytes(rest).value)
  {
    hide HexValue;
    var t := [b as char] + rest;
    assert t[0] == b as char && t[1..] == rest;
  }

  lemma DecodeEscape(high: int, low: int, rest: string)
    requires 0 <= high < 16 && 0 <= low < 16 && DecodeBytes(rest).Some?
    ensures DecodeBytes(['%', HexDigit(high), HexDigit(low)] + rest) ==
      Some([high * 16 + low] + DecodeBytes(rest).value)
  {
    hide HexDigit, HexValue;
    var t := ['%', HexDigit(high), HexDigit(low)] + rest;
    assert t[0] == '%' && t[1] == HexDigit(high) && t[2] == HexDigit(low) && t[3..] == rest;
  }

  lemma {:induction false} DecodeEncodedBytes(keep: Kept, bytes: Bytes)
    requires Escaping(keep)
    ensures DecodeBytes(EncodeBytes(keep, bytes)) == Some(bytes)
  {
    hide EncodeByte, Escaping;
    if bytes == [] {
      DecodeNothing(keep);
    } else {
      hide DecodeBytes;
      DecodeEncodedBytes(keep, bytes[1..]);
      DecodeOneByte(keep, bytes[0], EncodeBytes(keep, bytes[1..]));
      assert bytes == [bytes[0]] + bytes[1..];
    }
  }

  lemma DecodeNothing(keep: Kept)
    ensures DecodeBytes("") == Some([]) && EncodeBytes(keep, []) == ""
  {
  }

  /** Every encoder that escapes is undone by the same decoder, so all of them agree on what an encoded text means. */
  lemma EncodeIsInvertible(keep: Kept, s: string)
    requires Escaping(keep)
    ensures PercentDecode(PercentEncode(keep, s)) == Some(s)
  {
    hide Encode, Decode;
    DecodeEncodedBytes(keep, Encode(s));
    DecodeEncode(s);
  }

  /** Encoded text holds kept characters, percent signs and upper-case hexadecimal digits, nothing else. */
  lemma {:induction false} EncodedAlphabet(keep: Kept, bytes: Bytes, c: char)
    requires Escaping(keep) && c in EncodeBytes(keep, bytes)
    ensures c == '%' || IsUpperHex(c) || (c as int < 0x80 && keep(c as int))
  {
    if bytes != [] && c !in EncodeByte(keep, bytes[0]) {
      EncodedAlphabet(keep, bytes[1..], c);
    }
  }

  /** A character the encoder does not keep never shows up in its output. */
  lemma NotEncoded(keep: Kept, s: string, c: char)
    requires Escaping(keep) && c != '%' && !IsUpperHex(c) && c as int < 0x80 && !keep(c as int)
    ensures c !in PercentEncode(keep, s)
  {
    hide Encode, EncodeBytes;
    if c in PercentEncode(keep, s) {
      EncodedAlphabet(keep, Encode(s), c);
    }
  }

  lemma PathEscapes()
    ensures Escaping(KeptInPath)
  {
  }

  /** Dots go into a path as they are. */
  lemma EncodedDots()
    ensures PercentEncode(KeptInPath, ".") == "." && PercentEncode(KeptInPath, "..") == ".."
  {
    assert Encode("") == [];
    assert "."[1..] == "" && ".."[1..] == ".";
    assert Encode(".") == ['.' as int] && Encode("..") == ['.' as int, '.' as int];
    assert EncodeBytes(KeptInPath, []) == "" && EncodeBytes(KeptInPath, ['.' as int]) == ".";
    assert ['.' as int, '.' as int][1..] == ['.' as int];
  }

  lemma QueryEscapes()
    ensures Escaping(KeptInQuery) && Escaping(Unreserved)
  {
  }

  /** A single ASCII character: itself when kept, else a percent sign and its two upper-case hexadecimal digits. */
  lemma EncodeOne(keep: Kept, c: char)
    requires Escaping(keep)
    ensures
      if 0x80 <= c as int then PercentEncode(keep, [c]) != [c]
      else if keep(c as int) then PercentEncode(keep, [c]) == [c]
      else PercentEncode(keep, [c]) == ['%', "0123456789ABCDEF"[c as int / 16], "0123456789ABCDEF"[c as int % 16]]
  {
    assert [c][1..] == "" && Encode([c]) == EncodeChar(c) + [];
    if c as int < 0x80 {
      var b := c as int;
      assert [b][1..] == [] && EncodeBytes(keep, [b]) == EncodeByte(keep, b) + "";
      HexDigitIs(b / 16);
      HexDigitIs(b % 16);
    } else {
      EncodedAlphabetOne(keep, c);
    }
  }

  lemma EncodedAlphabetOne(keep: Kept, c: char)
    requires Escaping(keep) && 0x80 <= c as int
    ensures PercentEncode(keep, [c]) != [c]
  {
    hide Encode, EncodeBytes;
    if c in PercentEncode(keep, [c]) { EncodedAlphabet(keep, Encode([c]), c); }
    assert c in [c];
  }

  lemma HexDigitIs(n: int)
    requires 0 <= n < 16
    ensures HexDigit(n) == "0123456789ABCDEF"[n]
  {
  }

  lemma EncodeSplits(keep: Kept, a: string, b: string)
    ensures PercentEncode(keep, a + b) == PercentEncode(keep, a) + PercentEncode(keep, b)
  {
    hide Encode, EncodeBytes;
    EncodeConcat(a, b);
    EncodeBytesSplit(keep, Encode(a), Encode(b));
  }

  lemma {:induction false} EncodeBytesSplit(keep: Kept, a: Bytes, b: Bytes)
    ensures EncodeBytes(keep, a + b) == EncodeBytes(keep, a) + EncodeBytes(keep, b)
  {
    hide EncodeByte;
    if a == [] {
      assert a + b == b;
    } else {
      assert (a + b)[1..] == a[1..] + b;
      EncodeBytesSplit(keep, a[1..], b);
    }
  }

  /**
   The three alphabets, in characters: what a path segment, a query of the kleos client and a query of the forge client
   leave as they are.
   */
  lemma Alphabets(c: char)
    ensures PercentEncode(KeptInPath, [c]) == [c] <==> '!' <= c <= '~' && c !in "\"#%/:<>?@[]`{}"
    ensures PercentEncode(KeptInQuery, [c]) == [c] <==> 'a' <= c <= 'z' || 'A' <= c <= 'Z' || '0' <= c <= '9'
    ensures PercentEncode(Unreserved, [c]) == [c] <==>
      'a' <= c <= 'z' || 'A' <= c <= 'Z' || '0' <= c <= '9' || c in "-._~"
  {
    hide PercentEncode;
    PathEscapes();
    QueryEscapes();
    EncodeOne(KeptInPath, c);
    EncodeOne(KeptInQuery, c);
    EncodeOne(Unreserved, c);
    if c as int < 0x80 { KeptCharacters(c); }
  }

  lemma KeptCharacters(c: char)
    requires c as int < 0x80
    ensures KeptInPath(c as int) <==> '!' <= c <= '~' && c !in "\"#%/:<>?@[]`{}"
    ensures Unreserved(c as int) <==> 'a' <= c <= 'z' || 'A' <= c <= 'Z' || '0' <= c <= '9' || c in "-._~"
  {
  }

  lemma {:induction false} EncodeBytesSnoc(keep: Kept, front: Bytes, b: Byte)
    ensures EncodeBytes(keep, front + [b]) == EncodeBytes(keep, front) + EncodeByte(keep, b)
  {
    if front == [] {
      assert front + [b] == [b];
      assert EncodeBytes(keep, [b][1..]) == "";
    } else {
      assert (front + [b])[1..] == front[1..] + [b];
      EncodeBytesSnoc(keep, front[1..], b);
    }
  }

  /** `percent_encode_query` of the forge client: a loop over the bytes. */
  method PercentEncodeQuery(s: string) returns (out: string)
    ensures out == PercentEncode(Unreserved, s)
  {
    hide Encode, EncodeBytes;
    out := "";
    var bytes := Encode(s);
    assert bytes[..0] == [];
    assert EncodeBytes(Unreserved, []) == "" by { DecodeNothing(Unreserved); }
    for i := 0 to |bytes|
      invariant out == EncodeBytes(Unreserved, bytes[..i])
    {
      var b := bytes[i];
      assert bytes[..i + 1] == bytes[..i] + [b];
      EncodeBytesSnoc(Unreserved, bytes[..i], b);
      if Unreserved(b) {
        out := out + [b as char];
      } else {
        out := out + ['%'] + [HexDigit(b / 16)] + [HexDigit(b % 16)];
      }
    }
    assert bytes[..|bytes|] == bytes;
  }

  // ----- splitting at a separator

  function JoinWith(sep: char, parts: seq<string>): (r: string)
  {
    if parts == [] then "" else if |parts| == 1 then parts[0] else parts[0] + [sep] + JoinWith(sep, parts[1..])
  }

  /** The part before the first separator and, when there is one, what follows it. */
  function CutAt(sep: char, s: string): (r: (string, Option<string>))
  {
    if s == "" then ("", None)
    else if s[0] == sep then ("", Some(s[1..]))
    else var (a, rest) := CutAt(sep, s[1..]); ([s[0]] + a, rest)
  }

  lemma {:induction false} CutAtFirst(sep: char, a: string, b: string)
    requires sep !in a
    ensures CutAt(sep, a + [sep] + b) == (a, Some(b)) && CutAt(sep, a) == (a, None)
  {
    if a == "" {
      assert a + [sep] + b == [sep] + b;
    } else {
      assert (a + [sep] + b)[1..] == a[1..] + [sep] + b;
      CutAtFirst(sep, a[1..], b);
      assert a == [a[0]] + a[1..];
    }
  }

  /** What is cut is what stood there, and the front has no separator. */
  lemma {:induction false} CutAtParts(sep: char, s: string)
    ensures sep !in CutAt(sep, s).0
    ensures match CutAt(sep, s).1
      case None => s == CutAt(sep, s).0
      case Some(rest) => s == CutAt(sep, s).0 + [sep] + rest
  {
    if s != "" && s[0] != sep {
      CutAtParts(sep, s[1..]);
      assert s == [s[0]] + s[1..];
    }
  }

  lemma {:induction false} CutAtShrinks(sep: char, s: string)
    ensures CutAt(sep, s).1.Some? ==> |CutAt(sep, s).1.value| < |s|
  {
    if s != "" && s[0] != sep {
      CutAtShrinks(sep, s[1..]);
    }
  }

  function SplitAt(sep: char, s: string): (r: seq<string>)
    decreases |s|
  {
    CutAtShrinks(sep, s);
    var (a, rest) := CutAt(sep, s);
    if rest.None? then [a] else [a] + SplitAt(sep, rest.value)
  }

  lemma {:induction false} SplitJoined(sep: char, parts: seq<string>)
    requires parts != [] && forall i :: 0 <= i < |parts| ==> sep !in parts[i]
    ensures SplitAt(sep, JoinWith(sep, parts)) == parts
  {
    hide CutAt;
    if |parts| == 1 {
      CutAtFirst(sep, parts[0], "");
    } else {
      CutAtFirst(sep, parts[0], JoinWith(sep, parts[1..]));
      SplitJoined(sep, parts[1..]);
      assert parts == [parts[0]] + parts[1..];
    }
  }
}
