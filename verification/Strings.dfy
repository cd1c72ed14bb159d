/** Strings: number formatting and parsing, trimming, splitting, lines. */
module Strings {
  import opened Bytes

  // ---- whitespace: char::is_whitespace and str::trim ----

  predicate IsWhitespace(c: char)
  {
    || '\t' <= c <= '\r' || c == ' '
    || c == '\U{85}' || c == '\U{A0}' || c == '\U{1680}'
    || '\U{2000}' <= c <= '\U{200A}'
    || c == '\U{2028}' || c == '\U{2029}' || c == '\U{202F}' || c == '\U{205F}' || c == '\U{3000}'
  }

  /** The characters of Unicode's White_Space. */
  lemma WhitespaceIs(c: char)
    ensures IsWhitespace(c) <==>
            c in "\t\n\U{B}\U{C}\r \U{85}\U{A0}\U{1680}\U{2000}\U{2001}\U{2002}\U{2003}\U{2004}\U{2005}"
                 + "\U{2006}\U{2007}\U{2008}\U{2009}\U{200A}\U{2028}\U{2029}\U{202F}\U{205F}\U{3000}"
  {
  }

  function TrimStart(s: string): (r: string)
  {
    if s != "" && IsWhitespace(s[0]) then TrimStart(s[1..]) else s
  }

  function TrimEnd(s: string): (r: string)
  {
    if s != "" && IsWhitespace(s[|s| - 1]) then TrimEnd(s[..|s| - 1]) else s
  }

  function Trim(s: string): (r: string)
  {
    TrimEnd(TrimStart(s))
  }

  /** Text with no whitespace at either end is its own trimmed form. */
  predicate Trimmed(s: string)
  {
    s == "" || (!IsWhitespace(s[0]) && !IsWhitespace(s[|s| - 1]))
  }

  /** Trimming takes away exactly the whitespace at both ends. */
  lemma {:induction false} TrimIs(s: string) returns (i: nat, j: nat)
    ensures i <= j <= |s| && Trim(s) == s[i..j] && Trimmed(Trim(s))
    ensures forall k :: 0 <= k < i || j <= k < |s| ==> IsWhitespace(s[k])
  {
    hide IsWhitespace;
    if s != "" && IsWhitespace(s[0]) {
      i, j := TrimIs(s[1..]);
      assert s[1..][i..j] == s[i + 1..j + 1];
      assert forall k :: 1 <= k < |s| ==> s[k] == s[1..][k - 1];
      i, j := i + 1, j + 1;
    } else {
      i := 0;
      j := TrimEndIs(s);
    }
  }

  lemma {:induction false} TrimEndIs(s: string) returns (j: nat)
    ensures j <= |s| && TrimEnd(s) == s[..j] && (j > 0 ==> !IsWhitespace(s[j - 1]))
    ensures forall k :: j <= k < |s| ==> IsWhitespace(s[k])
  {
    hide IsWhitespace;
    if s != "" && IsWhitespace(s[|s| - 1]) {
      j := TrimEndIs(s[..|s| - 1]);
    } else {
      j := |s|;
    }
  }

  lemma TrimIsIdentity(s: string)
    requires Trimmed(s)
    ensures Trim(s) == s && Trim(" " + s) == s
  {
    assert (" " + s)[1..] == s;
  }

  // ---- integers in radix 10 and 16 ----

  function DigitChar(d: nat): (c: char)
    requires d < 16
  {
    if d < 10 then '0' + d as char else 'a' + (d - 10) as char
  }

  lemma DigitCharIs(d: nat)
    requires d < 16
    ensures DigitChar(d) == "0123456789abcdef"[d]
  {
  }

  function DigitValue(c: char, radix: nat): (r: Option<nat>)
    ensures r.Some? ==> r.value < radix
  {
    var v :=
      if '0' <= c <= '9' then (c - '0') as nat
      else if 'a' <= c <= 'z' then (c - 'a') as nat + 10
      else if 'A' <= c <= 'Z' then (c - 'A') as nat + 10
      else radix;
    if v < radix then Some(v) else None
  }

  /** Each digit's value, in either case. */
  lemma DigitValueIs(d: nat, radix: nat)
    requires d < 16 && radix <= 16
    ensures
      var value := if d < radix then Some(d) else None;
      DigitValue("0123456789abcdef"[d], radix) == value == DigitValue("0123456789ABCDEF"[d], radix)
  {
  }

  /** Nothing else has one. */
  lemma OnlyDigitsHaveValues(c: char, radix: nat)
    requires radix <= 16 && DigitValue(c, radix).Some?
    ensures
      var d := DigitValue(c, radix).value;
      if d < 10 then c == '0' + d as char else c == 'a' + (d - 10) as char || c == 'A' + (d - 10) as char
  {
  }

  lemma DigitRoundTrip(d: nat, radix: nat)
    requires d < radix <= 16
    ensures DigitValue(DigitChar(d), radix) == Some(d)
  {
  }

  /** Most significant digit first, without leading zeros; zero is "0". */
  function ToRadix(n: nat, radix: nat): (s: string)
    requires 2 <= radix <= 16
    ensures s != ""
  {
    if n < radix then [DigitChar(n)] else ToRadix(n / radix, radix) + [DigitChar(n % radix)]
  }

  function Decimal(n: nat): (s: string) { ToRadix(n, 10) }

  function DigitsValue(s: string, radix: nat): (r: Option<nat>)
  {
    if s == "" then Some(0)
    else match (DigitsValue(s[..|s| - 1], radix), DigitValue(s[|s| - 1], radix))
      case (Some(h), Some(d)) => Some(h * radix + d)
      case _ => None
  }

  /** `from_str_radix` of an unsigned type with `limit` values: an optional plus sign, at
      least one digit, no overflow. */
  function FromStrRadix(s: string, radix: nat, limit: nat): (r: Option<nat>)
    ensures r.Some? ==> r.value < limit
  {
    var digits := if |s| > 1 && s[0] == '+' then s[1..] else s;
    if digits == "" then None
    else match DigitsValue(digits, radix)
      case Some(n) => if n < limit then Some(n) else None
      case None => None
  }

  predicate IsDigitText(s: string, radix: nat)
  {
    forall i :: 0 <= i < |s| ==> DigitValue(s[i], radix).Some?
  }

  lemma {:induction false} RadixRoundTrip(n: nat, radix: nat)
    requires radix == 10 || radix == 16
    ensures IsDigitText(ToRadix(n, radix), radix)
    ensures DigitsValue(ToRadix(n, radix), radix) == Some(n)
  {
    var s := ToRadix(n, radix);
    if n < radix {
      DigitRoundTrip(n, radix);
      assert s[..|s| - 1] == "";
    } else {
      RadixRoundTrip(n / radix, radix);
      DigitRoundTrip(n % radix, radix);
      assert s[..|s| - 1] == ToRadix(n / radix, radix);
      assert n / radix * radix + n % radix == n;
    }
  }

  /** A formatted number parses back, in any type wide enough for it. */
  lemma ParseFormatted(n: nat, radix: nat, limit: nat)
    requires radix == 10 || radix == 16
    requires n < limit
    ensures FromStrRadix(ToRadix(n, radix), radix, limit) == Some(n)
  {
    RadixRoundTrip(n, radix);
    var s := ToRadix(n, radix);
    assert DigitValue(s[0], radix).Some?;
    assert s[0] != '+';
  }

  /** One plus sign in front is allowed; no digits, or a plus sign alone, are no number. */
  lemma PlusSign(t: string, radix: nat, limit: nat)
    requires radix <= 36
    ensures FromStrRadix("", radix, limit) == None && FromStrRadix("+", radix, limit) == None
    ensures t != "" && t[0] != '+' ==> FromStrRadix("+" + t, radix, limit) == FromStrRadix(t, radix, limit)
  {
    assert "+"[..0] == "";
    assert ("+" + t)[1..] == t;
  }

  lemma DigitTextIsTrimmed(s: string, radix: nat)
    requires IsDigitText(s, radix) && radix <= 36
    ensures Trimmed(s)
    ensures forall i :: 0 <= i < |s| ==> s[i] != '.' && s[i] != '\n' && s[i] != '\r' && s[i] != ':'
  {
    forall i | 0 <= i < |s|
      ensures !IsWhitespace(s[i]) && s[i] != '.' && s[i] != '\n' && s[i] != '\r' && s[i] != ':'
    {
      assert DigitValue(s[i], radix).Some?;
    }
  }

  lemma DigitsAreAscii(s: string, radix: nat)
    requires IsDigitText(s, radix) && radix <= 36
    ensures forall i :: 0 <= i < |s| ==> s[i] < '\U{80}'
  {
    forall i | 0 <= i < |s|
      ensures s[i] < '\U{80}'
    {
      assert DigitValue(s[i], radix).Some?;
    }
  }

  // ---- splitting at a character ----

  function IndexOf(s: string, c: char): (r: Option<nat>)
    ensures r.Some? ==> r.value < |s| && s[r.value] == c && forall i :: 0 <= i < r.value ==> s[i] != c
    ensures r.None? ==> c !in s
  {
    if s == "" then None
    else if s[0] == c then Some(0)
    else match IndexOf(s[1..], c)
      case Some(i) => Some(i + 1)
      case None => None
  }

  lemma IndexOfIs(s: string, c: char, i: nat)
    requires i < |s| && s[i] == c && forall j :: 0 <= j < i ==> s[j] != c
    ensures IndexOf(s, c) == Some(i)
  {
  }

  /** `split(c)`: the parts between the occurrences of `c`, one more than there are. */
  function Split(s: string, c: char): (parts: seq<string>)
    ensures parts != []
    decreases |s|
  {
    match IndexOf(s, c)
    case None => [s]
    case Some(i) => [s[..i]] + Split(s[i + 1..], c)
  }

  function Join(parts: seq<string>, c: char): (s: string)
  {
    if parts == [] then ""
    else if |parts| == 1 then parts[0]
    else parts[0] + [c] + Join(parts[1..], c)
  }

  lemma {:induction false} SplitJoin(parts: seq<string>, c: char)
    requires parts != []
    requires forall i :: 0 <= i < |parts| ==> c !in parts[i]
    ensures Split(Join(parts, c), c) == parts
  {
    var s := Join(parts, c);
    if |parts| == 1 {
      assert s == parts[0] && parts == [s];
    } else {
      var p := parts[0];
      var rest := Join(parts[1..], c);
      assert s == p + [c] + rest;
      assert forall j :: 0 <= j < |p| ==> s[j] == p[j] && p[j] in p;
      IndexOfIs(s, c, |p|);
      assert s[..|p|] == p;
      assert s[|p| + 1..] == rest;
      SplitJoin(parts[1..], c);
    }
  }

  // ---- bytes as text ----

  /** ASCII bytes are their characters; any other byte decodes to something that is neither
      a digit nor whitespace, here the replacement character. */
  function AsText(s: seq<byte>): (t: string)
    ensures |t| == |s|
  {
    seq(|s|, i requires 0 <= i < |s| => if s[i] < 128 then s[i] as char else '\U{FFFD}')
  }

  function Ascii(t: string): (s: seq<byte>)
    requires forall i :: 0 <= i < |t| ==> t[i] < '\U{80}'
    ensures |s| == |t| && AsText(s) == t
  {
    seq(|t|, i requires 0 <= i < |t| => t[i] as int)
  }

  function LowerChar(c: char): (r: char)
  {
    if 'A' <= c <= 'Z' then (c - 'A') + 'a' else c
  }

  function Lower(s: string): (r: string)
    ensures |r| == |s|
  {
    seq(|s|, i requires 0 <= i < |s| => LowerChar(s[i]))
  }
}
