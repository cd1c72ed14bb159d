/**
 UTF-8 text as bytes: which byte strings are text, where its characters begin, and what
 `String::from_utf8_lossy` makes of a byte string that is none.
 */
module Utf8Text {
  import opened Bytes

  type Data = seq<byte>

  /** U+FFFD, the replacement character. */
  const REPLACEMENT: Data := [0xEF, 0xBF, 0xBD]

  predicate IsAscii(a: Data)
  {
    forall i :: 0 <= i < |a| ==> a[i] < 0x80
  }

  predicate Continues(b: byte) { 0x80 <= b < 0xC0 }

  /** How long a character with this first byte is; none starts with any other byte. */
  function WidthBy(lead: byte): (n: nat)
    ensures n <= 4
  {
    if lead < 0x80 then 1
    else if 0xC2 <= lead <= 0xDF then 2
    else if 0xE0 <= lead <= 0xEF then 3
    else if 0xF0 <= lead <= 0xF4 then 4
    else 0
  }

  /** The second bytes a first byte admits: no overlong forms, no surrogates, no code point
      beyond the last. */
  predicate SecondFits(lead: byte, second: byte)
  {
    && Continues(second)
    && (lead == 0xE0 ==> second >= 0xA0)
    && (lead == 0xED ==> second < 0xA0)
    && (lead == 0xF0 ==> second >= 0x90)
    && (lead == 0xF4 ==> second < 0x90)
  }

  /** What stands at the front of a byte string: a character of `n` bytes, or `n` bytes that
      begin one and do not go on as one. */
  datatype Front = Char(n: nat) | Junk(n: nat)

  function FrontOf(s: Data): (r: Front)
    requires s != []
    ensures 0 < r.n <= |s| && (r.Char? ==> r.n <= 4) && (r.Junk? ==> r.n <= 3)
  {
    var w := WidthBy(s[0]);
    if w == 1 then Char(1)
    else if w == 0 || |s| < 2 || !SecondFits(s[0], s[1]) then Junk(1)
    else if w == 2 then Char(2)
    else if |s| < 3 || !Continues(s[2]) then Junk(2)
    else if w == 3 then Char(3)
    else if |s| < 4 || !Continues(s[3]) then Junk(3)
    else Char(4)
  }

  /** The lossy decoding: junk becomes the replacement character. */
  function Lossy(s: Data): (r: Data)
  {
    if s == [] then []
    else
      var f := FrontOf(s);
      (if f.Char? then s[..f.n] else REPLACEMENT) + Lossy(s[f.n..])
  }

  /** Text: characters all the way. */
  predicate Valid(s: Data)
  {
    s == [] || (FrontOf(s).Char? && Valid(s[FrontOf(s).n..]))
  }

  /** `is_char_boundary` of text. */
  predicate IsBoundary(s: Data, i: nat)
  {
    i == 0 || i == |s| || (i < |s| && !Continues(s[i]))
  }

  // ---- characters are the encodings of code points (section 3 of RFC 3629) ----

  /** A code point that is no surrogate. */
  predicate IsScalar(c: nat)
  {
    c < 0xD800 || 0xE000 <= c <= 0x10FFFF
  }

  function EncodeScalar(c: nat): (s: Data)
    requires IsScalar(c)
    ensures 1 <= |s| <= 4
  {
    if c < 0x80 then [c]
    else if c < 0x800 then [0xC0 + c / 64, 0x80 + c % 64]
    else if c < 0x1_0000 then [0xE0 + c / 4096, 0x80 + c / 64 % 64, 0x80 + c % 64]
    else [0xF0 + c / 262144, 0x80 + c / 4096 % 64, 0x80 + c / 64 % 64, 0x80 + c % 64]
  }

  lemma EncodingIsChar(c: nat)
    requires IsScalar(c)
    ensures FrontOf(EncodeScalar(c)) == Char(|EncodeScalar(c)|)
  {
  }

  /** What is taken for a character is the encoding of a code point. */
  lemma CharIsEncoding(s: Data) returns (c: nat)
    requires s != [] && FrontOf(s).Char?
    ensures IsScalar(c) && EncodeScalar(c) == s[..FrontOf(s).n]
  {
    var n := FrontOf(s).n;
    if n == 1 {
      c := s[0];
    } else if n == 2 {
      c := TwoBytes(s[0], s[1]);
    } else if n == 3 {
      c := ThreeBytes(s[0], s[1], s[2]);
    } else {
      c := FourBytes(s[0], s[1], s[2], s[3]);
    }
    assert |EncodeScalar(c)| == n;
    assert s[..n] == if n == 1 then [s[0]] else if n == 2 then [s[0], s[1]]
                     else if n == 3 then [s[0], s[1], s[2]] else [s[0], s[1], s[2], s[3]];
  }

  /** Sextets joined and taken apart again. */
  lemma Sextets(w: nat, x: nat, y: nat, z: nat)
    requires x < 64 && y < 64 && z < 64
    ensures
      var c := ((w * 64 + x) * 64 + y) * 64 + z;
      c / 262144 == w && c / 4096 % 64 == x && c / 64 % 64 == y && c % 64 == z && c / 4096 == w * 64 + x
      && c / 64 == (w * 64 + x) * 64 + y
  {
    var d := w * 64 + x;
    var e := d * 64 + y;
    var c := e * 64 + z;
    QuotientIs(c, 64, e, z);
    QuotientIs(c, 4096, d, y * 64 + z);
    QuotientIs(c, 262144, w, (x * 64 + y) * 64 + z);
    QuotientIs(d, 64, w, x);
    QuotientIs(e, 64, d, y);
  }

  lemma TwoBytes(b0: int, b1: int) returns (c: nat)
    requires 0xC2 <= b0 <= 0xDF && 0x80 <= b1 < 0xC0
    ensures IsScalar(c) && EncodeScalar(c) == [b0, b1]
  {
    c := (b0 - 0xC0) * 64 + (b1 - 0x80);
    Sextets(0, 0, b0 - 0xC0, b1 - 0x80);
  }

  lemma ThreeBytes(b0: int, b1: int, b2: int) returns (c: nat)
    requires 0xE0 <= b0 <= 0xEF && 0x80 <= b1 < 0xC0 && 0x80 <= b2 < 0xC0
    requires (b0 == 0xE0 ==> b1 >= 0xA0) && (b0 == 0xED ==> b1 < 0xA0)
    ensures IsScalar(c) && EncodeScalar(c) == [b0, b1, b2]
  {
    c := ((b0 - 0xE0) * 64 + (b1 - 0x80)) * 64 + (b2 - 0x80);
    Sextets(0, b0 - 0xE0, b1 - 0x80, b2 - 0x80);
  }

  lemma FourBytes(b0: int, b1: int, b2: int, b3: int) returns (c: nat)
    requires 0xF0 <= b0 <= 0xF4 && 0x80 <= b1 < 0xC0 && 0x80 <= b2 < 0xC0 && 0x80 <= b3 < 0xC0
    requires (b0 == 0xF0 ==> b1 >= 0x90) && (b0 == 0xF4 ==> b1 < 0x90)
    ensures IsScalar(c) && EncodeScalar(c) == [b0, b1, b2, b3]
  {
    c := (((b0 - 0xF0) * 64 + (b1 - 0x80)) * 64 + (b2 - 0x80)) * 64 + (b3 - 0x80);
    Sextets(b0 - 0xF0, b1 - 0x80, b2 - 0x80, b3 - 0x80);
  }

  /** So text is exactly what encoding a string of code points gives. */
  function EncodeAllScalars(cs: seq<nat>): (s: Data)
    requires forall i :: 0 <= i < |cs| ==> IsScalar(cs[i])
  {
    if cs == [] then [] else EncodeScalar(cs[0]) + EncodeAllScalars(cs[1..])
  }

  lemma {:induction false} EncodedIsValid(cs: seq<nat>)
    requires forall i :: 0 <= i < |cs| ==> IsScalar(cs[i])
    ensures Valid(EncodeAllScalars(cs))
  {
    hide FrontOf, EncodeScalar;
    if cs != [] {
      var first, rest := EncodeScalar(cs[0]), EncodeAllScalars(cs[1..]);
      EncodedIsValid(cs[1..]);
      EncodingIsChar(cs[0]);
      CharStays(first, rest);
      assert (first + rest)[|first|..] == rest;
    }
  }

  lemma {:induction false} ValidIsEncoded(s: Data) returns (cs: seq<nat>)
    requires Valid(s)
    ensures (forall i :: 0 <= i < |cs| ==> IsScalar(cs[i])) && EncodeAllScalars(cs) == s
  {
    hide FrontOf, EncodeScalar;
    cs := [];
    if s != [] {
      var n := FrontOf(s).n;
      var c := CharIsEncoding(s);
      var rest := ValidIsEncoded(s[n..]);
      cs := [c] + rest;
      assert cs[1..] == rest && s == s[..n] + s[n..];
    }
  }

  /** Junk is as much as begins some character, and at least one byte: no character begins with
      one byte more. */
  lemma JunkIsMaximal(s: Data, c: nat)
    requires s != [] && FrontOf(s).Junk? && IsScalar(c)
    ensures var n := FrontOf(s).n; n < |s| ==> !(s[..n + 1] <= EncodeScalar(c))
  {
    var n, e := FrontOf(s).n, EncodeScalar(c);
    EncodingIsChar(c);
    if n < |s| && s[..n + 1] <= e {
      assert forall i :: 0 <= i < n + 1 ==> e[i] == s[..n + 1][i] == s[i];
    }
  }

  lemma JunkBegins(s: Data) returns (c: nat)
    requires s != [] && FrontOf(s).Junk? && FrontOf(s).n > 1
    ensures IsScalar(c) && s[..FrontOf(s).n] <= EncodeScalar(c)
  {
    var n := FrontOf(s).n;
    var full := if n == 2 then (if WidthBy(s[0]) == 3 then s[..2] + [0x80] else s[..2] + [0x80, 0x80]) else s[..3] + [0x80];
    assert FrontOf(full) == Char(|full|);
    c := CharIsEncoding(full);
    assert full[..|full|] == full;
  }

  lemma ReplacementIsFffd()
    ensures EncodeScalar(0xFFFD) == REPLACEMENT
  {
  }

  // ---- a character is read the same whatever follows ----

  lemma CharStays(s: Data, more: Data)
    requires s != [] && FrontOf(s).Char?
    ensures var n := FrontOf(s).n; FrontOf(s[..n] + more) == Char(n) && FrontOf(s + more) == Char(n)
  {
  }

  /** Nor does an ASCII byte behind, or at the end of, a byte string change what is read. */
  lemma FrontStays(a: Data, b: Data)
    requires a != [] && (b == [] || b[0] < 0x80 || a[|a| - 1] < 0x80)
    ensures FrontOf(a + b) == FrontOf(a)
  {
    var s := a + b;
    assert s[0] == a[0];
    assert |a| > 1 ==> s[1] == a[1];
    assert |a| > 2 ==> s[2] == a[2];
    assert |a| > 3 ==> s[3] == a[3];
    assert b != [] ==> s[|a|] == b[0];
  }

  lemma {:induction false} LossySplits(a: Data, b: Data)
    requires a == [] || b == [] || b[0] < 0x80 || a[|a| - 1] < 0x80
    ensures Lossy(a + b) == Lossy(a) + Lossy(b)
    decreases |a|
  {
    if a == [] {
      assert a + b == b;
    } else {
      FrontStays(a, b);
      var f := FrontOf(a);
      var rest := a[f.n..];
      assert (a + b)[..f.n] == a[..f.n] && (a + b)[f.n..] == rest + b;
      assert rest != [] ==> rest[|rest| - 1] == a[|a| - 1];
      LossySplits(rest, b);
      Assoc(if f.Char? then a[..f.n] else REPLACEMENT, Lossy(rest), Lossy(b));
    }
  }

  lemma {:induction false} AsciiIsValid(a: Data)
    requires IsAscii(a)
    ensures Valid(a)
  {
    if a != [] {
      AsciiIsValid(a[1..]);
    }
  }

  /** Text, and only text, is its own lossy decoding; anything else becomes text that is no
      shorter. */
  lemma {:induction false} LossyIsText(s: Data)
    ensures Lossy(s) == s <==> Valid(s)
    ensures |Lossy(s)| >= |s|
  {
    if s != [] {
      var f := FrontOf(s);
      var rest := s[f.n..];
      LossyIsText(rest);
      assert s == s[..f.n] + rest;
      if f.Junk? {
        if f.n == 3 {
          JunkDiffers(s);
          assert Lossy(s)[0] == 0xEF;
        } else {
          assert |Lossy(s)| > |s|;
        }
      } else {
        assert Lossy(s)[f.n..] == Lossy(rest);
      }
    }
  }

  lemma JunkDiffers(s: Data)
    requires s != [] && FrontOf(s) == Junk(3)
    ensures s[0] != 0xEF
  {
  }

  lemma {:induction false} LossyIsValid(s: Data)
    ensures Valid(Lossy(s))
  {
    if s != [] {
      var f := FrontOf(s);
      var rest := Lossy(s[f.n..]);
      LossyIsValid(s[f.n..]);
      if f.Char? {
        CharStays(s, rest);
        assert (s[..f.n] + rest)[f.n..] == rest;
      } else {
        ReplacementIsChar(rest);
        assert (REPLACEMENT + rest)[3..] == rest;
      }
    }
  }

  lemma ReplacementIsChar(more: Data)
    ensures FrontOf(REPLACEMENT + more) == Char(3)
  {
  }

  // ---- cutting text ----

  /** The bytes of a character after its first are continuation bytes. */
  lemma InsideContinues(s: Data, i: nat)
    requires s != [] && FrontOf(s).Char? && 0 < i < FrontOf(s).n
    ensures Continues(s[i])
  {
  }

  lemma BoundaryShifts(s: Data, n: nat, i: nat)
    requires n <= i <= |s| && IsBoundary(s, i)
    ensures IsBoundary(s[n..], i - n)
  {
  }

  /** Text cut at a boundary is text. */
  lemma {:induction false} ValidPrefix(s: Data, i: nat)
    requires Valid(s) && i <= |s| && IsBoundary(s, i)
    ensures Valid(s[..i])
  {
    if i > 0 {
      var n := FrontOf(s).n;
      if i < n {
        InsideContinues(s, i);
      }
      BoundaryShifts(s, n, i);
      ValidPrefix(s[n..], i - n);
      assert s[..i][n..] == s[n..][..i - n];
      assert s[..i] == s[..n] + s[n..i];
      CharStays(s, s[n..i]);
    }
  }

  /** The whole characters at the front of a byte string. */
  function WholeChars(s: Data): (r: Data)
    ensures r <= s
  {
    if s == [] || FrontOf(s).Junk? then []
    else
      var n := FrontOf(s).n;
      s[..n] + WholeChars(s[n..])
  }

  /** Text cut anywhere: the whole characters before the cut, and a replacement character if
      the cut is inside one; that one then has at most three bytes before the cut. */
  lemma {:induction false} CutText(s: Data, i: nat)
    requires Valid(s) && i <= |s|
    ensures
      var part := s[..i]; var whole := WholeChars(part);
      && Valid(whole) && |whole| <= i
      && (IsBoundary(s, i) <==> whole == part)
      && Lossy(part) == whole + if IsBoundary(s, i) then [] else REPLACEMENT
  {
    if i > 0 {
      var n := FrontOf(s).n;
      var part := s[..i];
      if i < n {
        InsideContinues(s, i);
        CutInsideChar(s, i);
      } else {
        CharStays(s, []);
        assert s[..i] == s[..n] + s[n..i];
        CharStays(s, s[n..i]);
        assert part[..n] == s[..n] && part[n..] == s[n..][..i - n];
        CutText(s[n..], i - n);
        BoundaryAt(s, n, i);
        var rest := WholeChars(part[n..]);
        CharStays(s, rest);
        assert (s[..n] + rest)[n..] == rest;
        assert WholeChars(part) == s[..n] + rest;
        Assoc(s[..n], rest, if IsBoundary(s, i) then [] else REPLACEMENT);
      }
    }
  }

  lemma BoundaryAt(s: Data, n: nat, i: nat)
    requires Valid(s) && s != [] && n == FrontOf(s).n && n <= i <= |s|
    ensures IsBoundary(s, i) <==> IsBoundary(s[n..], i - n)
  {
    if i == n && i < |s| {
      assert s[n..] != [] && FrontOf(s[n..]).Char?;
    }
  }

  lemma CutInsideChar(s: Data, i: nat)
    requires s != [] && FrontOf(s).Char? && 0 < i < FrontOf(s).n
    ensures FrontOf(s[..i]) == Junk(i) && Lossy(s[..i]) == REPLACEMENT
  {
    assert s[..i][i..] == [];
    assert REPLACEMENT + [] == REPLACEMENT;
  }
}
