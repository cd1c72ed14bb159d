/**
 Base64 (section 4 of RFC 4648) as the code computes it, bit by bit: the two encoders and
 the decoder of node identity tokens.  Characters are their ASCII codes.
 */
module Base64 {

  type Octets = seq<bv8>

  const PAD: bv8 := 61   // '='

  // ---- alphabet ----

  /** B64[s] for a six-bit value. */
  function Symbol(s: bv8): (c: bv8)
    requires s < 64
  {
    if s < 26 then s + 65
    else if s < 52 then s - 26 + 97
    else if s < 62 then s - 52 + 48
    else if s == 62 then 43
    else 47
  }

  /** The decoder's table: 255 for a character outside the alphabet, 0 beyond ASCII. */
  function Sextet(c: bv8): (v: bv8)
  {
    if c >= 128 then 0
    else if 65 <= c <= 90 then c - 65
    else if 97 <= c <= 122 then c - 97 + 26
    else if 48 <= c <= 57 then c - 48 + 52
    else if c == 43 then 62
    else if c == 47 then 63
    else 255
  }

  lemma SymbolRoundTrip(s: bv8)
    requires s < 64
    ensures Sextet(Symbol(s)) == s && Symbol(s) != PAD
  {
  }

  /** The alphabet: A to Z, a to z, 0 to 9, + and /. */
  lemma Alphabet(s: bv8)
    requires s < 64
    ensures Symbol(0) == 65 && Symbol(25) == 90 && Symbol(26) == 97 && Symbol(51) == 122
    ensures Symbol(52) == 48 && Symbol(61) == 57 && Symbol(62) == 43 && Symbol(63) == 47
    ensures s != 25 && s != 51 && s < 61 ==> Symbol(s + 1) == Symbol(s) + 1
  {
  }

  /** A character of the table stands for its place in the alphabet. */
  lemma SextetIs(c: bv8)
    requires c < 128 && Sextet(c) != 255
    ensures Sextet(c) < 64 && Symbol(Sextet(c)) == c
  {
  }

  // ---- one group ----

  function Triple(b0: bv8, b1: bv8, b2: bv8): (t: bv32)
  {
    (b0 as bv32 << 16) | (b1 as bv32 << 8) | b2 as bv32
  }

  /** Six bits of the triple, from the given position up. */
  function Part18(t: bv32): (s: bv8) ensures s < 64 { ((t >> 18) & 0x3F) as bv8 }
  function Part12(t: bv32): (s: bv8) ensures s < 64 { ((t >> 12) & 0x3F) as bv8 }
  function Part6(t: bv32): (s: bv8) ensures s < 64 { ((t >> 6) & 0x3F) as bv8 }
  function Part0(t: bv32): (s: bv8) ensures s < 64 { (t & 0x3F) as bv8 }

  /** The four symbols of a group of one to three bytes, padded. */
  function EncodeGroup(g: Octets): (r: Octets)
    requires 1 <= |g| <= 3
    ensures |r| == 4
  {
    var t := Triple(g[0], if |g| > 1 then g[1] else 0, if |g| > 2 then g[2] else 0);
    [Symbol(Part18(t)), Symbol(Part12(t)),
     if |g| > 1 then Symbol(Part6(t)) else PAD,
     if |g| > 2 then Symbol(Part0(t)) else PAD]
  }

  function Joined(v0: bv8, v1: bv8, v2: bv8, v3: bv8): (t: bv32)
  {
    (v0 as bv32 << 18) | (v1 as bv32 << 12) | (v2 as bv32 << 6) | v3 as bv32
  }

  function Octet16(t: bv32): (b: bv8) { ((t >> 16) & 0xFF) as bv8 }
  function Octet8(t: bv32): (b: bv8) { ((t >> 8) & 0xFF) as bv8 }
  function Octet0(t: bv32): (b: bv8) { (t & 0xFF) as bv8 }

  /** The bytes of a group of two to four symbols. */
  function DecodeGroup(g: Octets): (r: Octets)
    requires 2 <= |g| <= 4
    ensures |r| == |g| - 1
  {
    var t := Joined(Sextet(g[0]), Sextet(g[1]), if |g| > 2 then Sextet(g[2]) else 0, if |g| > 3 then Sextet(g[3]) else 0);
    [Octet16(t)] + (if |g| > 2 then [Octet8(t)] else []) + (if |g| > 3 then [Octet0(t)] else [])
  }

  lemma JoinedParts(t: bv32)
    requires t < 0x100_0000
    ensures Joined(Part18(t), Part12(t), Part6(t), Part0(t)) == t
  {
  }

  lemma OctetsOfTriple(b0: bv8, b1: bv8, b2: bv8)
    ensures
      var t := Triple(b0, b1, b2);
      t < 0x100_0000 && Octet16(t) == b0 && Octet8(t) == b1 && Octet0(t) == b2
  {
  }

  /** Absent bytes leave no bits in the parts that padding stands for. */
  lemma PaddedParts(b0: bv8, b1: bv8)
    ensures Part0(Triple(b0, b1, 0)) == 0 && Part6(Triple(b0, 0, 0)) == 0
  {
  }

  /** "M", "Ma" and "Man" are "TQ==", "TWE=" and "TWFu". */
  lemma KnownGroups()
    ensures EncodeGroup([77]) == [84, 81, 61, 61]
    ensures EncodeGroup([77, 97]) == [84, 87, 69, 61]
    ensures EncodeGroup([77, 97, 110]) == [84, 87, 70, 117]
  {
  }

  /** A group without its padding decodes to the bytes it came from. */
  lemma GroupRoundTrip(g: Octets)
    requires 1 <= |g| <= 3
    ensures forall i :: 0 <= i < |g| + 1 ==> EncodeGroup(g)[i] != PAD
    ensures forall i :: |g| + 1 <= i < 4 ==> EncodeGroup(g)[i] == PAD
    ensures DecodeGroup(EncodeGroup(g)[..|g| + 1]) == g
  {
    var t := Triple(g[0], if |g| > 1 then g[1] else 0, if |g| > 2 then g[2] else 0);
    var p0, p1, p2, p3 := Part18(t), Part12(t), Part6(t), Part0(t);
    SymbolRoundTrip(p0);
    SymbolRoundTrip(p1);
    SymbolRoundTrip(p2);
    SymbolRoundTrip(p3);
    OctetsOfTriple(g[0], if |g| > 1 then g[1] else 0, if |g| > 2 then g[2] else 0);
    JoinedParts(t);
    PaddedParts(g[0], if |g| > 1 then g[1] else 0);
    hide Symbol, Sextet, Part18, Part12, Part6, Part0, Octet16, Octet8, Octet0, Joined, Triple;
  }

  // ---- whole sequences ----

  function Encode(bytes: Octets): (s: Octets)
  {
    if |bytes| == 0 then []
    else if |bytes| <= 3 then EncodeGroup(bytes)
    else EncodeGroup(bytes[..3]) + Encode(bytes[3..])
  }

  function WithoutPadding(s: Octets): (r: Octets)
  {
    if s == [] then []
    else (if s[0] != PAD then [s[0]] else []) + WithoutPadding(s[1..])
  }

  /** Groups of four symbols; a lone trailing symbol ends the decoding. */
  function DecodeSymbols(s: Octets): (r: Octets)
  {
    if |s| < 2 then []
    else if |s| <= 4 then DecodeGroup(s)
    else DecodeGroup(s[..4]) + DecodeSymbols(s[4..])
  }

  function Decode(s: Octets): (r: Octets)
  {
    DecodeSymbols(WithoutPadding(s))
  }

  lemma {:induction false} WithoutPaddingAppend(a: Octets, b: Octets)
    ensures WithoutPadding(a + b) == WithoutPadding(a) + WithoutPadding(b)
  {
    if a == [] {
      assert a + b == b;
    } else {
      assert (a + b)[0] == a[0] && (a + b)[1..] == a[1..] + b;
      WithoutPaddingAppend(a[1..], b);
    }
  }

  lemma {:induction false} WithoutPaddingIsPrefix(s: Octets, n: nat)
    requires n <= |s|
    requires forall i :: 0 <= i < n ==> s[i] != PAD
    requires forall i :: n <= i < |s| ==> s[i] == PAD
    ensures WithoutPadding(s) == s[..n]
  {
    if s != [] {
      WithoutPaddingIsPrefix(s[1..], if n > 0 then n - 1 else 0);
      if n > 0 {
        assert s[..n] == [s[0]] + s[1..][..n - 1];
      }
    }
  }

  /** Decoding inverts encoding, for every length modulo three. */
  lemma {:induction false} DecodeInvertsEncode(bytes: Octets)
    ensures Decode(Encode(bytes)) == bytes
    decreases |bytes|
  {
    hide EncodeGroup, DecodeGroup;
    if 0 < |bytes| <= 3 {
      GroupRoundTrip(bytes);
      WithoutPaddingIsPrefix(EncodeGroup(bytes), |bytes| + 1);
    } else if |bytes| > 3 {
      var g, rest := bytes[..3], bytes[3..];
      GroupRoundTrip(g);
      WithoutPaddingIsPrefix(EncodeGroup(g), 4);
      assert EncodeGroup(g)[..4] == EncodeGroup(g);
      WithoutPaddingAppend(EncodeGroup(g), Encode(rest));
      DecodeInvertsEncode(rest);
      FirstGroup(EncodeGroup(g), WithoutPadding(Encode(rest)));
      assert bytes == g + rest;
    }
  }

  lemma FirstGroup(g: Octets, more: Octets)
    requires |g| == 4
    ensures DecodeSymbols(g + more) == DecodeGroup(g) + DecodeSymbols(more)
  {
    hide DecodeGroup;
    assert (g + more)[..4] == g && (g + more)[4..] == more;
    if more == [] {
      assert g + more == g;
      assert DecodeGroup(g) + [] == DecodeGroup(g);
    } else if |more| == 1 {
      assert DecodeSymbols(more) == [];
    }
  }

  // ---- the loops ----

  /** `b64_bytes` in api.rs and the loop of `identity_base64` in brain.rs are the same
      loop over groups of three. */
  method B64Bytes(bytes: Octets) returns (out: Octets)
    ensures out == Encode(bytes)
  {
    hide EncodeGroup;
    out := [];
    var pos := 0;
    assert bytes[0..] == bytes;
    while pos < |bytes|
      invariant 0 <= pos <= |bytes|
      invariant Encode(bytes) == out + Encode(bytes[pos..])
    {
      var end := if pos + 3 < |bytes| then pos + 3 else |bytes|;
      var chunk := bytes[pos..end];
      ghost var rest := bytes[pos..];
      assert end < |bytes| ==> rest[..3] == chunk && rest[3..] == bytes[end..];
      assert end == |bytes| ==> rest == chunk && bytes[end..] == [];
      assert Encode(rest) == EncodeGroup(chunk) + Encode(bytes[end..]);
      assert out + (EncodeGroup(chunk) + Encode(bytes[end..])) == (out + EncodeGroup(chunk)) + Encode(bytes[end..]);
      out := out + EncodeGroup(chunk);
      pos := end;
    }
  }

  method DecodeLoop(text: Octets) returns (bytes: Octets)
    ensures bytes == Decode(text)
  {
    hide DecodeGroup;
    var chars := WithoutPadding(text);
    bytes := [];
    var pos := 0;
    assert chars[0..] == chars;
    while pos < |chars|
      invariant 0 <= pos <= |chars|
      invariant DecodeSymbols(chars) == bytes + DecodeSymbols(chars[pos..])
    {
      var end := if pos + 4 < |chars| then pos + 4 else |chars|;
      var chunk := chars[pos..end];
      if |chunk| < 2 { break; }
      ghost var rest := chars[pos..];
      assert end < |chars| ==> rest[..4] == chunk && rest[4..] == chars[end..];
      assert end == |chars| ==> rest == chunk && chars[end..] == [];
      assert DecodeSymbols(rest) == DecodeGroup(chunk) + DecodeSymbols(chars[end..]);
      assert bytes + (DecodeGroup(chunk) + DecodeSymbols(chars[end..])) ==
             (bytes + DecodeGroup(chunk)) + DecodeSymbols(chars[end..]);
      bytes := bytes + DecodeGroup(chunk);
      pos := end;
    }
  }

  // ---- identity tokens ----

  /** A 32-bit float as its bits, little endian. */
  function FloatBytes(f: bv32): (r: Octets)
    ensures |r| == 4
  {
    [(f & 0xFF) as bv8, ((f >> 8) & 0xFF) as bv8, ((f >> 16) & 0xFF) as bv8, ((f >> 24) & 0xFF) as bv8]
  }

  function FloatFrom(b: Octets): (f: bv32)
    requires |b| == 4
  {
    b[0] as bv32 | (b[1] as bv32 << 8) | (b[2] as bv32 << 16) | (b[3] as bv32 << 24)
  }

  function TokenBytes(token: seq<bv32>): (r: Octets)
  {
    if token == [] then [] else FloatBytes(token[0]) + TokenBytes(token[1..])
  }

  /** Complete groups of four bytes; a shorter rest is dropped. */
  function TokenFrom(b: Octets): (token: seq<bv32>)
  {
    if |b| < 4 then [] else [FloatFrom(b[..4])] + TokenFrom(b[4..])
  }

  lemma FloatRoundTrip(f: bv32)
    ensures FloatFrom(FloatBytes(f)) == f
  {
  }

  lemma {:induction false} TokenBytesRoundTrip(token: seq<bv32>)
    ensures TokenFrom(TokenBytes(token)) == token
  {
    if token != [] {
      FloatRoundTrip(token[0]);
      TokenBytesRoundTrip(token[1..]);
      hide FloatBytes, FloatFrom;
      var b := TokenBytes(token);
      assert b[..4] == FloatBytes(token[0]) && b[4..] == TokenBytes(token[1..]);
    }
  }

  /** A token sent in a header is the token received, float for float. */
  method SendIdentity(token: seq<bv32>) returns (received: seq<bv32>)
    ensures received == token
  {
    var text := B64Bytes(TokenBytes(token));
    var bytes := DecodeLoop(text);
    DecodeInvertsEncode(TokenBytes(token));
    TokenBytesRoundTrip(token);
    received := TokenFrom(bytes);
  }
}
