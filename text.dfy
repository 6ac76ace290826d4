/**
 * The pieces of Python's string handling that the grid's text form relies on:
 * `str()` of a natural number, `int()` of a decimal token, right-aligned
 * padding (`"{el: >{w}}"`), `str.split(",")` and `",".join`.
 */
module Text {
  import opened Wrappers

  predicate IsDigit(ch: char) {
    '0' <= ch <= '9'
  }

  function DigitChar(d: nat): (ch: char)
    requires d < 10
    ensures IsDigit(ch) && ch as int - '0' as int == d
  {
    ['0', '1', '2', '3', '4', '5', '6', '7', '8', '9'][d]
  }

  /** Python `str(n)` for a natural number. */
  function NatToString(n: nat): (s: string)
    ensures 1 <= |s|
  {
    if n < 10 then [DigitChar(n)] else NatToString(n / 10) + [DigitChar(n % 10)]
  }

  predicate AllDigits(s: string) {
    forall i :: 0 <= i < |s| ==> IsDigit(s[i])
  }

  /** `str(n)` is the decimal digits of `n` without a leading zero. */
  lemma {:induction false} NatToStringIsDecimal(n: nat)
    ensures AllDigits(NatToString(n))
    ensures |NatToString(n)| > 1 ==> NatToString(n)[0] != '0'
  {
    if n >= 10 {
      NatToStringIsDecimal(n / 10);
      var s := NatToString(n);
      assert s[..|s| - 1] == NatToString(n / 10);
      assert s[0] == NatToString(n / 10)[0];
    }
  }

  /** The number a string of decimal digits denotes. */
  function DigitsValue(s: string): nat
    requires forall i :: 0 <= i < |s| ==> IsDigit(s[i])
  {
    if |s| == 0 then 0
    else DigitsValue(s[..|s| - 1]) * 10 + DigitValue(s[|s| - 1])
  }

  function DigitValue(ch: char): (d: nat)
    requires IsDigit(ch)
    ensures d < 10 && DigitChar(d) == ch
  {
    ch as int - '0' as int
  }

  /**
   * Python `int(token)` restricted to tokens of decimal digits: anything else
   * (the empty token included) raises `ValueError`, modelled as `None`.
   */
  function ParseNat(token: string): (r: Option<nat>)
    ensures r.Some? <==> |token| > 0 && forall i :: 0 <= i < |token| ==> IsDigit(token[i])
  {
    if |token| > 0 && forall i :: 0 <= i < |token| ==> IsDigit(token[i])
    then Some(DigitsValue(token))
    else None
  }

  /** The ASCII characters `str.isspace` accepts. */
  predicate IsSpace(ch: char) {
    ch == ' ' || 9 <= ch as int <= 13 || 28 <= ch as int <= 31
  }

  /** `s` without its leading whitespace. */
  function TrimStart(s: string): (r: string)
    ensures |r| <= |s| && r == s[|s| - |r|..]
    ensures forall i :: 0 <= i < |s| - |r| ==> IsSpace(s[i])
    ensures |r| > 0 ==> !IsSpace(r[0])
  {
    if |s| > 0 && IsSpace(s[0]) then TrimStart(s[1..]) else s
  }

  /** `s` without its trailing whitespace. */
  function TrimEnd(s: string): (r: string)
    ensures |r| <= |s| && r == s[..|r|]
    ensures forall i :: |r| <= i < |s| ==> IsSpace(s[i])
    ensures |r| > 0 ==> !IsSpace(r[|r| - 1])
  {
    if |s| > 0 && IsSpace(s[|s| - 1]) then TrimEnd(s[..|s| - 1]) else s
  }

  /** Python `s.strip()` (ASCII whitespace). */
  function Strip(s: string): string
  {
    TrimEnd(TrimStart(s))
  }

  /**
   * Python `int(token)`: surrounding whitespace, an optional sign and decimal
   * digits; anything else raises `ValueError`, modelled as `None`.
   */
  function ParseInt(token: string): (r: Option<int>)
    ensures r.Some? ==> |Strip(token)| > 0
  {
    ParseSigned(Strip(token))
  }

  /** An optional sign followed by decimal digits. */
  function ParseSigned(t: string): (r: Option<int>)
    ensures r.Some? ==> |t| > 0
    ensures ParseNat(t).Some? ==> r == Some(ParseNat(t).value as int)
    ensures r.Some? && r.value < 0 ==> t[0] == '-'
  {
    if |t| > 0 && (t[0] == '+' || t[0] == '-') then
      var v := ParseNat(t[1..]);
      if v.None? then None else if t[0] == '-' then Some(-(v.value as int)) else Some(v.value as int)
    else
      var v := ParseNat(t);
      if v.None? then None else Some(v.value as int)
  }

  /** Whitespace around a token does not change what `int()` reads. */
  lemma StripPadded(pad: string, s: string)
    requires forall i :: 0 <= i < |pad| ==> IsSpace(pad[i])
    requires |s| > 0 && !IsSpace(s[0]) && !IsSpace(s[|s| - 1])
    ensures Strip(pad + s) == s
  {
    TrimStartPadded(pad, s);
    assert TrimEnd(s) == s;
  }

  lemma {:induction false} TrimStartPadded(pad: string, s: string)
    requires forall i :: 0 <= i < |pad| ==> IsSpace(pad[i])
    requires |s| > 0 && !IsSpace(s[0])
    ensures TrimStart(pad + s) == s
  {
    if |pad| > 0 {
      assert (pad + s)[1..] == pad[1..] + s;
      TrimStartPadded(pad[1..], s);
    } else {
      assert pad + s == s;
    }
  }

  /** `int()` reads back a right-aligned `str()` of a natural number. */
  lemma ParseIntPadded(n: nat, w: nat)
    ensures ParseInt(PadLeft(NatToString(n), w)) == Some(n)
  {
    var s := NatToString(n);
    var p := PadLeft(s, w);
    NatToStringIsDecimal(n);
    PadLeftShape(s, w);
    var pad := p[..|p| - |s|];
    assert p == pad + s;
    assert forall i :: 0 <= i < |pad| ==> IsSpace(pad[i]) by {
      forall i | 0 <= i < |pad| ensures IsSpace(pad[i]) {
        assert pad[i] == p[i];
      }
    }
    assert IsDigit(s[0]) && IsDigit(s[|s| - 1]);
    StripPadded(pad, s);
    assert ParseInt(p) == ParseSigned(s);
    ParseNatToString(n);
  }

  /** Parsing what `str()` prints gives the number back. */
  lemma {:induction false} ParseNatToString(n: nat)
    ensures ParseNat(NatToString(n)) == Some(n)
  {
    ValueOfNatToString(n);
  }

  lemma {:induction false} ValueOfNatToString(n: nat)
    ensures AllDigits(NatToString(n))
    ensures DigitsValue(NatToString(n)) == n
  {
    var s := NatToString(n);
    NatToStringIsDecimal(n);
    if n >= 10 {
      ValueOfNatToString(n / 10);
      assert s[..|s| - 1] == NatToString(n / 10);
    }
  }

  /** A larger number never prints shorter: the basis of the renderer's column width. */
  lemma {:induction false} NatToStringMonotone(a: nat, b: nat)
    requires a <= b
    ensures |NatToString(a)| <= |NatToString(b)|
  {
    if a >= 10 {
      NatToStringMonotone(a / 10, b / 10);
    }
  }

  /** Python `"{s: >{w}}"`: spaces on the left up to width `w`; never truncates. */
  function PadLeft(s: string, w: nat): (r: string)
    ensures |r| == if |s| < w then w else |s|
  {
    if |s| < w then " " + PadLeft(s, w - 1) else s
  }

  /** The padded string is `s` behind a run of spaces. */
  lemma PadLeftShape(s: string, w: nat)
    ensures var r := PadLeft(s, w);
      r[|r| - |s|..] == s && forall i :: 0 <= i < |r| - |s| ==> r[i] == ' '
  {
    PadLeftEndsWith(s, w);
    forall i | 0 <= i < |PadLeft(s, w)| - |s| ensures PadLeft(s, w)[i] == ' ' {
      PadLeftSpaceAt(s, w, i);
    }
  }

  lemma PadLeftEndsWith(s: string, w: nat)
    ensures PadLeft(s, w)[|PadLeft(s, w)| - |s|..] == s
  {
    var r := PadLeft(s, w);
    var tail := r[|r| - |s|..];
    forall j | 0 <= j < |s| ensures tail[j] == s[j] {
      PadLeftCharAt(s, w, j);
    }
    assert tail == s;
  }

  lemma {:induction false} PadLeftCharAt(s: string, w: nat, j: nat)
    requires j < |s|
    ensures PadLeft(s, w)[|PadLeft(s, w)| - |s| + j] == s[j]
  {
    if |s| < w {
      PadLeftCharAt(s, w - 1, j);
    }
  }

  lemma {:induction false} PadLeftSpaceAt(s: string, w: nat, i: nat)
    requires i < |PadLeft(s, w)| - |s|
    ensures PadLeft(s, w)[i] == ' '
  {
    if i > 0 {
      PadLeftSpaceAt(s, w - 1, i - 1);
    }
  }

  /** A right-aligned number contains only spaces and digits. */
  lemma PaddedNumberAvoids(ch: char, n: nat, w: nat)
    requires ch != ' ' && !IsDigit(ch)
    ensures ch !in PadLeft(NatToString(n), w)
  {
    var s := NatToString(n);
    NatToStringIsDecimal(n);
    PadLeftShape(s, w);
    var r := PadLeft(s, w);
    forall i | 0 <= i < |r| ensures r[i] != ch {
      if i >= |r| - |s| {
        assert r[i] == s[i - (|r| - |s|)];
      }
    }
  }

  /** The first index of `ch` in `s`, or `|s|` when it does not occur. */
  function IndexOf(s: string, ch: char): (i: nat)
    ensures i <= |s|
    ensures i < |s| ==> s[i] == ch
    ensures forall j :: 0 <= j < i ==> s[j] != ch
  {
    if |s| == 0 then 0
    else if s[0] == ch then 0
    else 1 + IndexOf(s[1..], ch)
  }

  /** Python `s.split(sep)` for a one-character separator. */
  function Split(s: string, sep: char): (parts: seq<string>)
    ensures |parts| >= 1
    ensures forall i :: 0 <= i < |parts| ==> sep !in parts[i]
    decreases |s|
  {
    var i := IndexOf(s, sep);
    if i == |s| then [s] else [s[..i]] + Split(s[i + 1..], sep)
  }

  /** Python `sep.join(parts)`. */
  function Join(parts: seq<string>, sep: char): string
  {
    if |parts| == 0 then ""
    else if |parts| == 1 then parts[0]
    else parts[0] + [sep] + Join(parts[1..], sep)
  }

  /** Joining the parts of a split gives the original string back. */
  lemma {:induction false} JoinSplit(s: string, sep: char)
    ensures Join(Split(s, sep), sep) == s
    decreases |s|
  {
    var i := IndexOf(s, sep);
    if i < |s| {
      JoinSplit(s[i + 1..], sep);
      assert s == s[..i] + [sep] + s[i + 1..];
    }
  }

  /** Splitting a join of separator-free parts gives the parts back. */
  lemma {:induction false} SplitJoin(parts: seq<string>, sep: char)
    requires |parts| >= 1
    requires forall i :: 0 <= i < |parts| ==> sep !in parts[i]
    ensures Split(Join(parts, sep), sep) == parts
  {
    if |parts| > 1 {
      var s := Join(parts, sep);
      var rest := Join(parts[1..], sep);
      assert s == parts[0] + [sep] + rest;
      IndexOfPrefix(parts[0], rest, sep);
      assert s[..|parts[0]|] == parts[0];
      assert s[|parts[0]| + 1..] == rest;
      SplitJoin(parts[1..], sep);
    } else {
      assert IndexOf(parts[0], sep) == |parts[0]|;
    }
  }

  lemma IndexOfPrefix(a: string, rest: string, sep: char)
    requires sep !in a
    ensures IndexOf(a + [sep] + rest, sep) == |a|
  {
    var s := a + [sep] + rest;
    assert s[|a|] == sep;
    assert forall j :: 0 <= j < |a| ==> s[j] == a[j];
  }
}
