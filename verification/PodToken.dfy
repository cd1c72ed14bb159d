/**
 Pod identity tokens: "nrns-v2.{hex(pod)}.{hex(namespace)}.{issued at}.{hex(signature)}".

 HMAC-SHA256 is a parameter, any function of secret and payload.  Names are the UTF-8 bytes
 of strings, with the validity test as a parameter; tokens are ASCII text.
 */
module PodToken {
  import opened Bits
  import opened Bytes
  import opened Strings

  type Octets = seq<byte>

  datatype Crypto = Crypto(hmac: (Octets, Octets) -> Octets, isUtf8: Octets -> bool)

  const PREFIX := "nrns-v2."
  const U64 := 0x1_0000_0000_0000_0000
  const COLON: byte := 58

  // ---- hexadecimal ----

  function HexEncode(bs: Octets): (s: string)
    ensures |s| == 2 * |bs|
  {
    if bs == [] then ""
    else HexEncode(bs[..|bs| - 1]) + [DigitChar(bs[|bs| - 1] / 16), DigitChar(bs[|bs| - 1] % 16)]
  }

  /** The first `k` pairs of characters, each through `u8::from_str_radix`; a bad pair
      fails the whole. */
  function HexPairs(s: string, k: nat): (r: Option<Octets>)
    requires 2 * k <= |s|
  {
    if k == 0 then Some([])
    else
      var front, b := HexPairs(s, k - 1), FromStrRadix(s[2 * k - 2..2 * k], 16, 256);
      if front.Some? && b.Some? then Some(front.value + [b.value]) else None
  }

  function HexDecode(s: string): (r: Option<Octets>)
  {
    if |s| % 2 != 0 then None else HexPairs(s, |s| / 2)
  }

  method HexDecodeBytes(s: string) returns (r: Option<Octets>)
    ensures r == HexDecode(s)
  {
    hide FromStrRadix;
    if |s| % 2 != 0 { return None; }
    var out: Octets := [];
    for k := 0 to |s| / 2
      invariant HexPairs(s, k) == Some(out)
    {
      var b := FromStrRadix(s[2 * k..2 * k + 2], 16, 256);
      if b.None? {
        BadPair(s, k + 1, |s| / 2);
        return None;
      }
      out := out + [b.value];
    }
    r := Some(out);
  }

  /** Once a prefix fails to decode, so does the whole. */
  lemma {:induction false} BadPair(s: string, k: nat, n: nat)
    requires k <= n && 2 * n <= |s| && HexPairs(s, k).None?
    ensures HexPairs(s, n).None?
    decreases n
  {
    hide FromStrRadix;
    if k < n {
      BadPair(s, k, n - 1);
    }
  }

  /** Later characters do not matter. */
  lemma {:induction false} HexOfPrefix(s: string, more: string, k: nat)
    requires 2 * k <= |s|
    ensures HexPairs(s + more, k) == HexPairs(s, k)
  {
    hide FromStrRadix;
    if k > 0 {
      HexOfPrefix(s, more, k - 1);
      assert (s + more)[2 * k - 2..2 * k] == s[2 * k - 2..2 * k];
    }
  }

  lemma HexPair(b: byte)
    ensures FromStrRadix([DigitChar(b / 16), DigitChar(b % 16)], 16, 256) == Some(b)
    ensures '.' !in [DigitChar(b / 16), DigitChar(b % 16)]
  {
    var s := [DigitChar(b / 16), DigitChar(b % 16)];
    DigitRoundTrip(b / 16, 16);
    DigitRoundTrip(b % 16, 16);
    assert s[..1] == [DigitChar(b / 16)] && s[..1][..0] == "";
    assert DigitsValue(s[..1], 16) == Some(b / 16);
    assert DigitsValue(s, 16) == Some(b / 16 * 16 + b % 16);
    assert s[0] != '+';
  }

  lemma HexOneMore(text: string, pair: string, bs: Octets, b: byte)
    requires |text| == 2 * |bs| && HexPairs(text, |bs|) == Some(bs)
    requires |pair| == 2 && FromStrRadix(pair, 16, 256) == Some(b)
    ensures HexPairs(text + pair, |bs| + 1) == Some(bs + [b])
  {
    hide FromStrRadix;
    HexOfPrefix(text, pair, |bs|);
    assert (text + pair)[2 * |bs|..2 * |bs| + 2] == pair;
  }

  lemma {:induction false} HexRoundTrip(bs: Octets)
    ensures HexPairs(HexEncode(bs), |bs|) == Some(bs) && HexDecode(HexEncode(bs)) == Some(bs)
    ensures '.' !in HexEncode(bs)
  {
    hide FromStrRadix, DigitChar;
    if bs != [] {
      var front, last := bs[..|bs| - 1], bs[|bs| - 1];
      var text, pair := HexEncode(front), [DigitChar(last / 16), DigitChar(last % 16)];
      HexRoundTrip(front);
      HexPair(last);
      HexOneMore(text, pair, front, last);
      hide HexPairs;
      assert HexEncode(bs) == text + pair;
      assert bs == front + [last];
    }
  }

  /** Two lower-case hexadecimal digits for each byte, the higher one first. */
  lemma {:induction false} HexDigits(bs: Octets, i: nat)
    requires i < |bs|
    ensures HexEncode(bs)[2 * i..2 * i + 2] == ["0123456789abcdef"[bs[i] / 16], "0123456789abcdef"[bs[i] % 16]]
  {
    hide DigitChar;
    DigitCharIs(bs[i] / 16);
    DigitCharIs(bs[i] % 16);
    if i < |bs| - 1 {
      HexDigits(bs[..|bs| - 1], i);
    }
  }

  // ---- minting ----

  function Digits(n: nat): (r: Octets)
  {
    RadixRoundTrip(n, 10);
    DigitsAreAscii(Decimal(n), 10);
    Ascii(Decimal(n))
  }

  function Payload(pod: Octets, namespace: Octets, issued: nat): (r: Octets)
  {
    pod + [COLON] + namespace + [COLON] + Digits(issued)
  }

  /** `now` is the clock in seconds. */
  function GeneratePodToken(k: Crypto, pod: Octets, namespace: Octets, secret: Octets, now: nat): (token: string)
  {
    var sig := k.hmac(secret, Payload(pod, namespace, now));
    PREFIX + HexEncode(pod) + "." + HexEncode(namespace) + "." + Decimal(now) + "." + HexEncode(sig)
  }

  /** What a token and its payload look like: the prefix in front of the token, and colons
      between the payload's parts. */
  lemma TokenLooks(k: Crypto, pod: Octets, namespace: Octets, secret: Octets, now: nat)
    ensures "nrns-v2." <= GeneratePodToken(k, pod, namespace, secret, now)
    ensures Payload(pod, namespace, now)[|pod|] == 58 == Payload(pod, namespace, now)[|pod| + 1 + |namespace|]
    ensures Payload(pod, namespace, now)[..|pod|] == pod
    ensures Payload(pod, namespace, now)[|pod| + 1..|pod| + 1 + |namespace|] == namespace
  {
    hide Digits, HexEncode, Decimal;
    assert PREFIX == "nrns-v2.";
    var sig := HexEncode(k.hmac(secret, Payload(pod, namespace, now)));
    BehindPrefix(HexEncode(pod), HexEncode(namespace), Decimal(now), sig);
  }

  /** A time of 2^64 or more does not parse. */
  lemma IssuedMustFit(n: nat)
    requires n >= 0x1_0000_0000_0000_0000
    ensures FromStrRadix(Decimal(n), 10, U64) == None
  {
    RadixRoundTrip(n, 10);
    assert DigitValue(Decimal(n)[0], 10).Some?;
    assert Decimal(n)[0] != '+';
  }

  // ---- verifying ----

  /** The comparison loop: the accumulated difference is zero exactly for equal bytes. */
  method ConstantTimeEqual(expected: Octets, presented: Octets) returns (equal: bool)
    requires |expected| == |presented|
    ensures equal <==> expected == presented
  {
    hide Or, Xor;
    var diff: byte := 0;
    for i := 0 to |expected|
      invariant diff == 0 <==> expected[..i] == presented[..i]
    {
      AccumulatedDifference(diff, expected[i], presented[i]);
      assert expected[..i + 1] == expected[..i] + [expected[i]];
      assert presented[..i + 1] == presented[..i] + [presented[i]];
      diff := Or(diff, Xor(expected[i], presented[i]));
    }
    assert expected[..|expected|] == expected && presented[..|presented|] == presented;
    equal := diff == 0;
  }

  /** A decoded token. */
  datatype Claims = Claims(pod: Octets, namespace: Octets, issued: nat, signature: Octets)

  function HexString(k: Crypto, s: string): (r: Option<Octets>)
  {
    match HexDecode(s)
    case Some(bs) => if k.isUtf8(bs) then Some(bs) else None
    case None => None
  }

  /** The claims a token carries, if it is well formed. */
  function ClaimsOf(k: Crypto, token: string): (r: Option<Claims>)
  {
    if !(PREFIX <= token) then None
    else
      var parts := Split(token[|PREFIX|..], '.');
      if |parts| != 4 then None
      else match (HexString(k, parts[0]), HexString(k, parts[1]), FromStrRadix(parts[2], 10, U64), HexDecode(parts[3]))
        case (Some(pod), Some(namespace), Some(issued), Some(sig)) => Some(Claims(pod, namespace, issued, sig))
        case _ => None
  }

  /** Accepts exactly the well-formed tokens whose signature is the HMAC of their claims. */
  method VerifyPodToken(k: Crypto, token: string, secret: Octets) returns (ok: bool)
    ensures ok <==>
              var c := ClaimsOf(k, token);
              c.Some? && c.value.signature == k.hmac(secret, Payload(c.value.pod, c.value.namespace, c.value.issued))
  {
    hide HexDecode, FromStrRadix, Split;
    if !(PREFIX <= token) { return false; }
    var parts := Split(token[|PREFIX|..], '.');
    if |parts| != 4 { return false; }
    var pod := HexString(k, parts[0]);
    if pod.None? { return false; }
    var namespace := HexString(k, parts[1]);
    if namespace.None? { return false; }
    var issued := FromStrRadix(parts[2], 10, U64);
    if issued.None? { return false; }
    var expected := k.hmac(secret, Payload(pod.value, namespace.value, issued.value));
    var presented := HexDecodeBytes(parts[3]);
    if presented.None? { return false; }
    if |presented.value| != |expected| { return false; }
    ok := ConstantTimeEqual(expected, presented.value);
  }

  // ---- a minted token verifies ----

  /** Every field of a minted token decodes back: the hexadecimal and decimal fields hold no
      dot, so the split has exactly four parts. */
  lemma MintedClaims(k: Crypto, pod: Octets, namespace: Octets, secret: Octets, now: nat)
    requires k.isUtf8(pod) && k.isUtf8(namespace) && now < U64
    ensures ClaimsOf(k, GeneratePodToken(k, pod, namespace, secret, now)) ==
            Some(Claims(pod, namespace, now, k.hmac(secret, Payload(pod, namespace, now))))
  {
    hide HexDecode, HexPairs, HexEncode, FromStrRadix, Split, Join, Decimal, Payload;
    var sig := k.hmac(secret, Payload(pod, namespace, now));
    var parts := [HexEncode(pod), HexEncode(namespace), Decimal(now), HexEncode(sig)];
    var token := GeneratePodToken(k, pod, namespace, secret, now);
    HexRoundTrip(pod);
    HexRoundTrip(namespace);
    HexRoundTrip(sig);
    DecimalField(now);
    JoinFour(parts);
    BehindPrefix(parts[0], parts[1], parts[2], parts[3]);
    SplitJoin(parts, '.');
  }

  lemma BehindPrefix(a: string, b: string, c: string, d: string)
    ensures PREFIX <= PREFIX + a + "." + b + "." + c + "." + d
    ensures (PREFIX + a + "." + b + "." + c + "." + d)[|PREFIX|..] == a + "." + b + "." + c + "." + d
  {
  }

  lemma DecimalField(n: nat)
    requires n < U64
    ensures '.' !in Decimal(n) && FromStrRadix(Decimal(n), 10, U64) == Some(n)
  {
    RadixRoundTrip(n, 10);
    ParseFormatted(n, 10, U64);
    DigitTextIsTrimmed(Decimal(n), 10);
  }

  lemma JoinFour(parts: seq<string>)
    requires |parts| == 4
    ensures Join(parts, '.') == parts[0] + "." + parts[1] + "." + parts[2] + "." + parts[3]
  {
    var p1, p2 := parts[1..], parts[2..];
    assert p1[1..] == p2 && p2[1..] == [parts[3]];
    assert Join(p2, '.') == parts[2] + "." + parts[3];
    assert Join(p1, '.') == parts[1] + "." + Join(p2, '.');
  }

  /** Mint, then verify: true with the minting secret; with any secret, exactly if the two
      secrets sign this payload alike. */
  method MintAndVerify(k: Crypto, pod: Octets, namespace: Octets, secret: Octets, now: nat, other: Octets)
    returns (own: bool, foreign: bool)
    requires k.isUtf8(pod) && k.isUtf8(namespace) && now < U64
    ensures own
    ensures foreign <==> k.hmac(other, Payload(pod, namespace, now)) == k.hmac(secret, Payload(pod, namespace, now))
  {
    hide GeneratePodToken, Payload, ClaimsOf;
    var token := GeneratePodToken(k, pod, namespace, secret, now);
    MintedClaims(k, pod, namespace, secret, now);
    own := VerifyPodToken(k, token, secret);
    foreign := VerifyPodToken(k, token, other);
  }

  // ---- which claims share a signature ----

  lemma NotLater(d: Octets, i: nat)
    requires COLON !in d && i < |[COLON] + d| && ([COLON] + d)[i] == COLON
    ensures i == 0
  {
  }

  lemma ColonAt(x: Octets, d: Octets, i: nat)
    requires COLON !in d && i < |x + [COLON] + d| && (x + [COLON] + d)[i] == COLON
    ensures i <= |x| && (COLON !in x ==> i == |x|)
  {
    assert x + [COLON] + d == x + ([COLON] + d);
    if i < |x| {
      assert x[i] in x;
    } else {
      assert ([COLON] + d)[i - |x|] == COLON;
      NotLater(d, i - |x|);
    }
  }

  /** The last part is whatever stands behind the last colon. */
  lemma LastPart(x: Octets, d: Octets, x': Octets, d': Octets)
    requires COLON !in d && COLON !in d'
    requires x + [COLON] + d == x' + [COLON] + d'
    ensures x == x' && d == d'
  {
    var s, s' := x + [COLON] + d, x' + [COLON] + d';
    ColonAt(x, d, |x'|);
    ColonAt(x', d', |x|);
    assert s[..|x|] == x && s'[..|x|] == x' && s[|x| + 1..] == d && s'[|x| + 1..] == d';
  }

  lemma DigitsHaveNoColon(n: nat)
    ensures AsText(Digits(n)) == Decimal(n) && COLON !in Digits(n)
  {
    RadixRoundTrip(n, 10);
    DigitTextIsTrimmed(Decimal(n), 10);
    forall i | 0 <= i < |Digits(n)|
      ensures Digits(n)[i] != COLON
    {
      assert AsText(Digits(n))[i] == Decimal(n)[i] != ':';
    }
  }

  /** Two payloads are the same exactly if the times are and the names joined by a colon are. */
  lemma SamePayloadIff(pod: Octets, ns: Octets, n: nat, pod': Octets, ns': Octets, n': nat)
    ensures Payload(pod, ns, n) == Payload(pod', ns', n') <==>
            n == n' && pod + [COLON] + ns == pod' + [COLON] + ns'
  {
    hide Decimal;
    DigitsHaveNoColon(n);
    DigitsHaveNoColon(n');
    if Payload(pod, ns, n) == Payload(pod', ns', n') {
      LastPart(pod + [COLON] + ns, Digits(n), pod' + [COLON] + ns', Digits(n'));
      RadixRoundTrip(n, 10);
      RadixRoundTrip(n', 10);
      SameDecimal(n, n');
    }
  }

  lemma SameDecimal(n: nat, n': nat)
    requires Decimal(n) == Decimal(n')
    ensures n == n'
  {
    RadixRoundTrip(n, 10);
    RadixRoundTrip(n', 10);
  }

  /** A payload stands for one set of claims only, if and only if neither name holds a colon. */
  lemma PayloadIsInjectiveIff(pod: Octets, ns: Octets, n: nat)
    ensures (forall pod', ns', n': nat :: Payload(pod', ns', n') == Payload(pod, ns, n) ==>
               pod' == pod && ns' == ns && n' == n) <==> COLON !in pod && COLON !in ns
  {
    hide Payload;
    if COLON !in pod && COLON !in ns {
      forall pod', ns', n': nat | Payload(pod', ns', n') == Payload(pod, ns, n)
        ensures pod' == pod && ns' == ns && n' == n
      {
        SamePayloadIff(pod', ns', n', pod, ns, n);
        OneColon(pod, ns, pod', ns');
      }
    } else if COLON in pod {
      var i :| 0 <= i < |pod| && pod[i] == COLON;
      var pod', ns' := pod[..i], pod[i + 1..] + [COLON] + ns;
      assert pod' + [COLON] + ns' == pod + [COLON] + ns;
      SamePayloadIff(pod', ns', n, pod, ns, n);
      assert pod' != pod;
    } else {
      var i :| 0 <= i < |ns| && ns[i] == COLON;
      var pod', ns' := pod + [COLON] + ns[..i], ns[i + 1..];
      assert pod' + [COLON] + ns' == pod + [COLON] + ns;
      SamePayloadIff(pod', ns', n, pod, ns, n);
      assert |pod'| != |pod|;
    }
  }

  lemma OneColon(pod: Octets, ns: Octets, pod': Octets, ns': Octets)
    requires COLON !in pod && COLON !in ns && pod' + [COLON] + ns' == pod + [COLON] + ns
    ensures pod' == pod && ns' == ns
  {
    var s, s' := pod + [COLON] + ns, pod' + [COLON] + ns';
    assert s'[|pod'|] == COLON;
    ColonAt(pod, ns, |pod'|);
    assert s[..|pod|] == pod && s'[..|pod|] == pod' && s[|pod| + 1..] == ns && s'[|pod| + 1..] == ns';
  }
}
