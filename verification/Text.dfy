/** The parts of Rust's `str` the modelled code leans on: trimming, prefixes, decimal numbers. */
module Text {
  import opened Wrappers

  /** `char::is_whitespace`: the Unicode White_Space property. */
  predicate IsSpace(c: char) {
    var n := c as int;
    || 9 <= n <= 13 || n == 0x20 || n == 0x85 || n == 0xA0 || n == 0x1680
    || 0x2000 <= n <= 0x200A || n == 0x2028 || n == 0x2029 || n == 0x202F || n == 0x205F || n == 0x3000
  }

  predicate Blank(s: string) {
    forall i :: 0 <= i < |s| ==> IsSpace(s[i])
  }

  /** Neither end is white space. */
  predicate Trimmed(s: string) {
    s != "" ==> !IsSpace(s[0]) && !IsSpace(s[|s| - 1])
  }

  function TrimStart(s: string): (r: string)
    ensures |r| <= |s| && r == s[|s| - |r|..]
    ensures forall i :: 0 <= i < |s| - |r| ==> IsSpace(s[i])
    ensures r != "" ==> !IsSpace(r[0])
  {
    hide IsSpace;
    if s != "" && IsSpace(s[0]) then
      assert forall i :: 1 <= i < |s| ==> s[i] == s[1..][i - 1];
      TrimStart(s[1..])
    else s
  }

  function TrimEnd(s: string): (r: string)
    ensures |r| <= |s| && r == s[..|r|]
    ensures forall i :: |r| <= i < |s| ==> IsSpace(s[i])
    ensures r != "" ==> !IsSpace(r[|r| - 1])
  {
    hide IsSpace;
    if s != "" && IsSpace(s[|s| - 1]) then
      TrimEnd(s[..|s| - 1])
    else s
  }

  function Trim(s: string): (r: string)
    ensures Trimmed(r)
    ensures |r| <= |s|
  {
    TrimEnd(TrimStart(s))
  }

  lemma TrimStartParts(s: string) returns (a: string)
    ensures s == a + TrimStart(s) && Blank(a)
  {
    hide IsSpace, TrimStart;
    a := s[..|s| - |TrimStart(s)|];
  }

  lemma TrimEndParts(s: string) returns (b: string)
    ensures s == TrimEnd(s) + b && Blank(b)
  {
    hide IsSpace, TrimEnd;
    b := s[|TrimEnd(s)|..];
  }

  /** What trimming removes: white space in front and behind, nothing else. */
  lemma TrimParts(s: string) returns (a: string, b: string)
    ensures s == a + Trim(s) + b && Blank(a) && Blank(b)
  {
    hide IsSpace, TrimStart, TrimEnd;
    a := TrimStartParts(s);
    b := TrimEndParts(TrimStart(s));
  }

  lemma {:induction false} TrimStartUnique(a: string, t: string)
    requires Blank(a) && (t != "" ==> !IsSpace(t[0]))
    ensures TrimStart(a + t) == t
  {
    hide IsSpace;
    if a == "" {
      assert a + t == t;
    } else {
      assert (a + t)[1..] == a[1..] + t;
      TrimStartUnique(a[1..], t);
    }
  }

  lemma {:induction false} TrimEndUnique(t: string, b: string)
    requires Blank(b) && (t != "" ==> !IsSpace(t[|t| - 1]))
    ensures TrimEnd(t + b) == t
  {
    hide IsSpace;
    if b == "" {
      assert t + b == t;
    } else {
      assert (t + b)[..|t + b| - 1] == t + b[..|b| - 1];
      TrimEndUnique(t, b[..|b| - 1]);
    }
  }

  /** Any trimmed core between white space is what `Trim` returns. */
  lemma TrimUnique(a: string, t: string, b: string)
    requires Blank(a) && Blank(b) && Trimmed(t)
    ensures Trim(a + t + b) == t
  {
    hide IsSpace;
    if t == "" {
      assert a + t + b == a + b + "";
      TrimStartUnique(a + b, "");
    } else {
      assert a + t + b == a + (t + b);
      TrimStartUnique(a, t + b);
      TrimEndUnique(t, b);
    }
  }

  lemma TrimIdempotent(s: string)
    requires Trimmed(s)
    ensures Trim(s) == s
  {
    hide IsSpace;
    assert s == "" + s + "";
    TrimUnique("", s, "");
  }

  lemma TrimTail(s: string, w: string)
    requires Blank(w)
    ensures Trim(s + w) == Trim(s)
  {
    hide IsSpace, Trim;
    var a, b := TrimParts(s);
    assert s + w == a + Trim(s) + (b + w);
    TrimUnique(a, Trim(s), b + w);
  }

  /** Nothing is left exactly of a text that is all white space. */
  lemma TrimBlank(s: string)
    ensures Trim(s) == "" <==> Blank(s)
  {
    hide IsSpace, Trim;
    var a, b := TrimParts(s);
    if Blank(s) {
      assert s == s + "" + "";
      TrimUnique(s, "", "");
    }
  }

  predicate StartsWith(s: string, p: string) {
    |p| <= |s| && s[..|p|] == p
  }

  // ----- decimal numbers

  predicate IsDigit(c: char) {
    '0' <= c <= '9'
  }

  predicate AllDigits(s: string) {
    forall i :: 0 <= i < |s| ==> IsDigit(s[i])
  }

  function DigitsValue(s: string): (n: nat)
    requires AllDigits(s)
  {
    if s == "" then 0 else DigitsValue(s[..|s| - 1]) * 10 + (s[|s| - 1] as int - '0' as int)
  }

  /** The decimal numeral of a natural number, as `{}` formatting prints it. */
  function Numeral(n: nat): (s: string)
    ensures s != "" && AllDigits(s)
  {
    var last := [('0' as int + n % 10) as char];
    if n < 10 then last else Numeral(n / 10) + last
  }

  lemma {:induction false} NumeralValue(n: nat)
    ensures DigitsValue(Numeral(n)) == n
  {
    var s := Numeral(n);
    if n < 10 {
      assert s[..|s| - 1] == "";
    } else {
      assert s[..|s| - 1] == Numeral(n / 10);
      NumeralValue(n / 10);
    }
  }

  const USIZE_BOUND: nat := 0x1_0000_0000_0000_0000

  /** `str::parse::<usize>` on a 64-bit target: optional plus sign, at least one digit, no overflow. */
  function ParseUsize(s: string): (r: Option<nat>)
  {
    var t := if 1 < |s| && s[0] == '+' then s[1..] else s;
    if t != "" && AllDigits(t) && DigitsValue(t) < USIZE_BOUND then Some(DigitsValue(t)) else None
  }

  /** The characters with the property White_Space, one by one, and the decimal digits. */
  lemma Tables(c: char)
    ensures IsSpace(c) <==>
      c in "\t\n\U{B}\U{C}\r \U{85}\U{A0}\U{1680}\U{2000}\U{2001}\U{2002}\U{2003}\U{2004}\U{2005}\U{2006}\U{2007}"
           + "\U{2008}\U{2009}\U{200A}\U{2028}\U{2029}\U{202F}\U{205F}\U{3000}"
    ensures IsDigit(c) <==> c in "0123456789"
  {
  }

  /** A number is digits, possibly behind one plus sign, that stay below 2^64. */
  lemma UsizeExactly(s: string)
    ensures var digits := if s != "" && s[0] == '+' then s[1..] else s;
      ParseUsize(s) ==
        if digits != "" && AllDigits(digits) && DigitsValue(digits) < 0x1_0000_0000_0000_0000 then
          Some(DigitsValue(digits))
        else None
  {
    assert s == "+" ==> !IsDigit(s[0]);
  }

  /** Digits weigh ten times as much as those behind them. */
  lemma DigitsPositional(digits: string, i: nat)
    requires AllDigits(digits) && i <= |digits|
    ensures DigitsValue("") == 0
    ensures i < |digits| ==>
      DigitsValue(digits[..i + 1]) == DigitsValue(digits[..i]) * 10 + (digits[i] as int - '0' as int)
  {
    if i < |digits| {
      assert digits[..i + 1][..i] == digits[..i];
    }
  }

  lemma DigitHasNoSign(digits: string)
    requires digits != "" && AllDigits(digits)
    ensures digits[0] != '+' && digits[0] != '-'
  {
  }
}
