/**
 Cutting UTF-8 text to a byte budget without splitting a character: `truncate` and `body_excerpt` of the kleos client.
 */
module Truncate {
  import opened Utf8
  import opened Text

  /** `str::is_char_boundary`. */
  predicate IsBoundary(b: Bytes, i: nat) {
    i == 0 || i == |b| || (i < |b| && !Continuation(b[i]))
  }

  /** The loop of both helpers: step back until a boundary. */
  method WalkBack(b: Bytes, max: nat) returns (end: nat)
    requires max < |b|
    ensures end <= max && IsBoundary(b, end)
    ensures forall i :: end < i <= max ==> !IsBoundary(b, i)
  {
    end := max;
    while 0 < end && !IsBoundary(b, end)
      invariant end <= max
      invariant forall i :: end < i <= max ==> !IsBoundary(b, i)
    {
      end := end - 1;
    }
  }

  /** How many characters fit in `max` bytes: the reference. */
  function Fitting(s: string, max: nat): (k: nat)
    ensures k <= |s|
  {
    if s == "" || max < |EncodeChar(s[0])| then 0 else 1 + Fitting(s[1..], max - |EncodeChar(s[0])|)
  }

  lemma EncodeCons(s: string, k: nat)
    requires s != "" && 0 < k <= |s|
    ensures Encode(s[..k]) == EncodeChar(s[0]) + Encode(s[1..][..k - 1])
  {
    assert s[..k][1..] == s[1..][..k - 1];
  }

  /** Nothing longer fits: one more character would go over the budget. */
  lemma {:induction false} FittingIsMaximal(s: string, max: nat)
    ensures var k := Fitting(s, max);
      && |Encode(s[..k])| <= max
      && (k < |s| ==> max < |Encode(s[..k])| + |EncodeChar(s[k])|)
  {
    hide EncodeChar;
    if s != "" && |EncodeChar(s[0])| <= max {
      var rest := max - |EncodeChar(s[0])|;
      FittingIsMaximal(s[1..], rest);
      EncodeCons(s, 1 + Fitting(s[1..], rest));
    }
  }

  /** The bytes around character `k`. */
  lemma EncodeAround(s: string, k: nat)
    requires k < |s|
    ensures Encode(s) == Encode(s[..k]) + (EncodeChar(s[k]) + Encode(s[k + 1..]))
  {
    var front, back := s[..k], s[k..];
    assert s == front + back && back[0] == s[k] && back[1..] == s[k + 1..];
    EncodeFirst(back);
    hide Encode, EncodeChar;
    EncodeConcat(front, back);
  }

  lemma EncodeFirst(s: string)
    requires s != ""
    ensures Encode(s) == EncodeChar(s[0]) + Encode(s[1..])
  {
    hide EncodeChar;
  }

  /**
   Truncation is maximal: the last boundary within the budget is where the last whole character that fits ends, at most
   three bytes below the budget.
   */
  lemma LastBoundary(s: string, max: nat, end: nat)
    requires max < |Encode(s)| && end <= max && IsBoundary(Encode(s), end)
    requires forall i :: end < i <= max ==> !IsBoundary(Encode(s), i)
    ensures Encode(s)[..end] == Encode(s[..Fitting(s, max)]) && max - end <= 3
  {
    hide EncodeChar, Encode, Fitting;
    var b, k := Encode(s), Fitting(s, max);
    FittingIsMaximal(s, max);
    assert s[..|s|] == s;
    EncodeAround(s, k);
    var front, c := Encode(s[..k]), EncodeChar(s[k]);
    var e := |front|;
    assert b[e] == c[0];
    assert IsBoundary(b, e);
    assert e <= end;
    assert forall i :: e < i < e + |c| ==> b[i] == c[i - e];
    assert b[..e] == front;
  }

  /** `truncate`: a text over the budget is cut to the characters that fit. */
  method TruncateTo(s: string, max: nat) returns (r: Bytes)
    ensures r == if |Encode(s)| <= max then Encode(s) else Encode(s[..Fitting(s, max)])
    ensures |Encode(s)| > max ==> max - 3 <= |r| <= max
  {
    hide Encode, Fitting;
    var b := Encode(s);
    if |b| <= max {
      return b;
    }
    var end := WalkBack(b, max);
    LastBoundary(s, max, end);
    return b[..end];
  }

  /** `body_excerpt`: lossy text of the body, cut at 512 bytes with a note of the body's size. */
  method BodyExcerpt(body: Bytes, lossy: Bytes -> string) returns (r: Bytes)
    ensures var s := lossy(body);
      if |Encode(s)| <= 512 then r == Encode(s)
      else
        var kept := Encode(s[..Fitting(s, 512)]);
        && 509 <= |kept| <= 512
        && r == kept + Encode("... (" + Numeral(|body|) + " bytes total)")
  {
    hide Encode, Fitting, Numeral;
    var s := lossy(body);
    var b := Encode(s);
    if |b| <= 512 {
      return b;
    }
    var end := WalkBack(b, 512);
    LastBoundary(s, 512, end);
    return b[..end] + Encode("... (" + Numeral(|body|) + " bytes total)");
  }
}
