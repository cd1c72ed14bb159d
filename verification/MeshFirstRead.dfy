/**
 The cross-node hop without encryption.  The peer decides by its first read alone, and that
 read may end anywhere in the framed head: in the request line, in the injected headers, or
 after them.  What it then takes for the pod and the port is determined for every length of
 the first read.
 */
module MeshFirstRead {
  import opened Bytes
  import opened Strings
  import opened MeshRouting
  import opened ClusterTypes

  // ---- what is used of UTF-8 here ----

  predicate AsciiText(s: string)
  {
    forall i :: 0 <= i < |s| ==> s[i] < '\U{80}'
  }

  /** ASCII characters and bytes are the same on both sides. */
  ghost predicate AsciiIsItself(u: Utf8, s: string)
  {
    AsciiText(s) ==>
      |u.encode(s)| == |s|
      && (forall i :: 0 <= i < |s| ==> u.encode(s)[i] == s[i] as int)
      && forall n :: 0 <= n <= |s| ==> u.decode(u.encode(s)[..n]) == s[..n]
  }

  ghost predicate Joins(u: Utf8, s: string, t: string)
  {
    u.encode(s + t) == u.encode(s) + u.encode(t)
  }

  /** An ASCII byte that is not there decodes to nothing, and conversely. */
  ghost predicate SeesAscii(u: Utf8, a: Octets, b: byte)
  {
    b < 128 && b !in a ==> b as char !in u.decode(a)
  }

  ghost predicate WritesAscii(u: Utf8, s: string, b: byte)
  {
    b < 128 && b as char !in s ==> b !in u.encode(s)
  }

  /** A cut-off character decodes to at most one. */
  ghost predicate Shrinks(u: Utf8, s: string, n: nat)
  {
    n <= |u.encode(s)| ==> |u.decode(u.encode(s)[..n])| <= |s|
  }

  ghost predicate Utf8Laws(u: Utf8)
  {
    && Lawful(u)
    && (forall s :: AsciiIsItself(u, s))
    && (forall s, t :: Joins(u, s, t))
    && (forall a, b :: SeesAscii(u, a, b))
    && (forall s, b :: WritesAscii(u, s, b))
    && (forall s, n :: Shrinks(u, s, n))
  }

  // ---- header lines ----

  const COLON: byte := 58

  lemma HeaderOf(key: string, v: string, name: string)
    requires ':' !in key && Trimmed(key)
    ensures HeaderValue(key + (":" + v), name) == if Lower(key) == Lower(name) then Some(Trim(v)) else None
  {
    hide IndexOf, Trim, Trimmed, Lower;
    FirstColon(key, v);
    TrimIsIdentity(key);
  }

  lemma NoColon(line: string, name: string)
    requires ':' !in line
    ensures HeaderValue(line, name) == None
  {
  }

  /** Text without a line feed is one line, and the last one. */
  lemma SingleLine(line: string, name: string)
    requires '\n' !in line
    ensures ParseHeader(line, name) == if line == "" then None else HeaderValue(line, name)
  {
    hide HeaderValue;
    if line == "" {
      NoLines();
    } else {
      assert Lines(line) == [line];
      assert [line][1..] == [] && ScanLines([], name) == NotFound;
      assert ScanLines([line], name) == match HeaderValue(line, name) case Some(v) => Found(v) case None => NotFound;
    }
  }

  lemma TrimTo(v: string)
    requires Trimmed(v)
    ensures Trim(" " + v) == v && Trim(" " + v + "\r") == v
  {
    TrimIsIdentity(v);
    assert (" " + v + "\r")[1..] == v + "\r";
    assert TrimStart(" " + v + "\r") == TrimStart(v + "\r");
    if v != "" {
      assert (v + "\r")[..|v|] == v;
      assert (v + "\r")[0] == v[0];
      assert TrimEnd(v + "\r") == TrimEnd(v);
    } else {
      assert v + "\r" == "\r" && "\r"[1..] == "";
      assert TrimStart("\r") == TrimStart("") == "";
    }
  }

  lemma {:induction false} TrimEndShrinks(s: string)
    ensures |TrimEnd(s)| <= |s|
  {
    if s != "" && IsWhitespace(s[|s| - 1]) {
      TrimEndShrinks(s[..|s| - 1]);
    }
  }

  lemma {:induction false} TrimShrinks(s: string)
    ensures |Trim(s)| <= |s|
  {
    if s != "" && IsWhitespace(s[0]) {
      TrimShrinks(s[1..]);
    } else {
      TrimEndShrinks(s);
    }
  }

  // ---- a read that ends in the request line ----

  /** Cutting a line keeps its key or takes away its colon. */
  lemma CutLineIsNoHeader(u: Utf8, line: Octets, part: Octets, name: string)
    requires Utf8Laws(u) && part <= line + [CR]
    requires HeaderValue(u.decode(line), name).None?
    ensures HeaderValue(u.decode(part), name).None?
  {
    hide HeaderValue, Lower, Trim, Utf8Laws;
    if COLON in part {
      FirstAt(part, COLON);
      var k :| 0 <= k < |part| && part[k] == COLON && COLON !in part[..k];
      SameKey(line, part, k);
      KeyDecodes(u, part[..k], part[k + 1..], name);
      KeyDecodes(u, part[..k], line[k + 1..], name);
    } else {
      SeesColon(u, part);
      NoColon(u.decode(part), name);
    }
  }

  lemma SeesColon(u: Utf8, a: Octets)
    requires Utf8Laws(u)
    ensures SeesAscii(u, a, COLON)
  {
  }

  lemma SameKey(line: Octets, part: Octets, k: nat)
    requires part <= line + [CR] && k < |part| && part[k] == COLON
    ensures k < |line|
    ensures part == part[..k] + ([COLON] + part[k + 1..]) && line == part[..k] + ([COLON] + line[k + 1..])
  {
    assert (line + [CR])[k] == COLON;
    assert line[k] == COLON && line[..k] == part[..k];
  }

  lemma {:induction false} FirstAt(s: Octets, b: byte)
    requires b in s
    ensures exists k :: 0 <= k < |s| && s[k] == b && b !in s[..k]
  {
    if s[0] == b {
      assert b !in s[..0];
    } else {
      FirstAt(s[1..], b);
      var k :| 0 <= k < |s[1..]| && s[1..][k] == b && b !in s[1..][..k];
      assert s[..k + 1] == [s[0]] + s[1..][..k];
      assert s[k + 1] == b && b !in s[..k + 1];
    }
  }

  /** Whether bytes with a colon are a header depends only on what stands before it. */
  lemma KeyDecodes(u: Utf8, key: Octets, v: Octets, name: string)
    requires Utf8Laws(u) && COLON !in key
    ensures HeaderValue(u.decode(key + ([COLON] + v)), name).None? <==> Lower(Trim(u.decode(key))) != Lower(name)
  {
    hide IndexOf, Trim, Lower;
    assert Boundary(key, [COLON] + v) && Boundary([COLON], v);
    assert AsciiIsItself(u, ":");
    assert u.encode(":")[..1] == [COLON];
    assert u.decode([COLON]) == ":";
    assert SeesAscii(u, key, COLON);
    FirstColon(u.decode(key), u.decode(v));
  }

  lemma CutRequestLine(u: Utf8, raw: Octets, n: nat)
    requires Utf8Laws(u) && PlainRequest(u, raw) && n <= |RequestLine(raw)|
    ensures
      var t := u.decode(RequestLine(raw)[..n]);
      ParseHeader(t, POD) == None && ParseHeader(t, PORT) == None
  {
    hide ScanLines, Lines, HeaderValue;
    var whole := RequestLine(raw);
    if n == |whole| {
      assert whole[..n] == whole;
      PlainHeadIsSkipped(u, raw);
    } else {
      var pos := Find(raw, CRLF);
      OccursCrlf(raw, pos.value);
      var line, part := raw[..pos.value], whole[..n];
      assert whole == line + CRLF;
      assert part <= line + [CR];
      assert LF !in part;
      assert SeesAscii(u, part, LF);
      SingleLine(u.decode(part), POD);
      SingleLine(u.decode(part), PORT);
      CutLineIsNoHeader(u, line, part, POD);
      CutLineIsNoHeader(u, line, part, PORT);
    }
  }

  // ---- a read that ends in the injected headers ----

  const POD_KEY := "X-Royak-Pod: "
  const PORT_KEY := "X-Royak-Port: "

  /** The hand-off behind the pod's name, all of it ASCII. */
  function AfterPod(port: u16): (s: string)
  {
    "\r\n" + (PORT_KEY + (Decimal(port) + "\r\n"))
  }

  lemma DecimalIsAscii(n: nat)
    ensures AsciiText(Decimal(n))
  {
    RadixRoundTrip(n, 10);
    DigitsAreAscii(Decimal(n), 10);
  }

  lemma HandoffPieces(pod: string, port: u16)
    ensures Handoff(pod, port) == POD_KEY + (pod + AfterPod(port))
    ensures AsciiText(POD_KEY) && AsciiText(AfterPod(port)) && |POD_KEY| == 13
  {
    hide Decimal;
    DecimalIsAscii(port);
    var d := Decimal(port);
    assert Handoff(pod, port) == POD_KEY + pod + "\r\n" + (PORT_KEY + d) + "\r\n";
  }

  /** The first `m` bytes of the hand-off, as the peer decodes them. */
  function CutHandoff(u: Utf8, pod: string, port: u16, m: nat): (t: string)
    requires m <= |POD_KEY| + |u.encode(pod)| + |AfterPod(port)|
  {
    var podEnd := |POD_KEY| + |u.encode(pod)|;
    if m <= |POD_KEY| then POD_KEY[..m]
    else if m <= podEnd then POD_KEY + u.decode(u.encode(pod)[..m - |POD_KEY|])
    else POD_KEY + (pod + AfterPod(port)[..m - podEnd])
  }

  /** ASCII text in front is decoded on its own, however much follows. */
  lemma DecodeAfterAscii(u: Utf8, s: string, rest: Octets)
    requires Utf8Laws(u) && AsciiText(s) && s != ""
    ensures u.decode(u.encode(s) + rest) == s + u.decode(rest)
  {
    assert AsciiIsItself(u, s);
    assert u.encode(s)[|s| - 1] < 128;
    assert Boundary(u.encode(s), rest);
  }

  lemma DecodeBeforeAscii(u: Utf8, pod: string, s: string, n: nat)
    requires Utf8Laws(u) && AsciiText(s) && 0 < n <= |s|
    ensures |u.encode(s)| == |s| && u.decode(u.encode(pod) + u.encode(s)[..n]) == pod + s[..n]
  {
    assert AsciiIsItself(u, s);
    assert u.encode(s)[..n][0] < 128;
    assert Boundary(u.encode(pod), u.encode(s)[..n]);
  }

  lemma DecodeCutHandoff(u: Utf8, pod: string, port: u16, m: nat)
    requires Utf8Laws(u) && m <= |u.encode(Handoff(pod, port))|
    ensures |u.encode(Handoff(pod, port))| == |POD_KEY| + |u.encode(pod)| + |AfterPod(port)|
    ensures u.decode(u.encode(Handoff(pod, port))[..m]) == CutHandoff(u, pod, port, m)
  {
    hide Handoff, AfterPod, Utf8Laws, AsciiText;
    HandoffPieces(pod, port);
    var key, name, tail := u.encode(POD_KEY), u.encode(pod), u.encode(AfterPod(port));
    EncodedPieces(u, pod, AfterPod(port));
    CutOfThree(key, name, tail, m);
    if m <= |key| {
      DecodeAscii(u, POD_KEY, m);
    } else if m <= |key| + |name| {
      DecodeAfterAscii(u, POD_KEY, name[..m - |key|]);
    } else {
      var k := m - |key| - |name|;
      DecodeAfterAscii(u, POD_KEY, name + tail[..k]);
      DecodeBeforeAscii(u, pod, AfterPod(port), k);
    }
  }

  lemma DecodeAscii(u: Utf8, s: string, n: nat)
    requires Utf8Laws(u) && AsciiText(s) && n <= |s|
    ensures |u.encode(s)| == |s| && u.decode(u.encode(s)[..n]) == s[..n]
  {
    assert AsciiIsItself(u, s);
  }

  lemma CutOfThree(a: Octets, b: Octets, c: Octets, m: nat)
    requires m <= |a| + |b| + |c|
    ensures (a + (b + c))[..m] ==
            if m <= |a| then a[..m]
            else if m <= |a| + |b| then a + b[..m - |a|]
            else a + (b + c[..m - |a| - |b|])
  {
  }

  lemma EncodedPieces(u: Utf8, pod: string, tail: string)
    requires Utf8Laws(u) && AsciiText(tail) && AsciiText(POD_KEY)
    ensures u.encode(POD_KEY + (pod + tail)) == u.encode(POD_KEY) + (u.encode(pod) + u.encode(tail))
    ensures |u.encode(POD_KEY)| == |POD_KEY| && |u.encode(tail)| == |tail|
  {
    assert Joins(u, POD_KEY, pod + tail) && Joins(u, pod, tail);
    assert AsciiIsItself(u, POD_KEY) && AsciiIsItself(u, tail);
  }

  // ---- what is read from it ----

  lemma TrimBlank(v: string)
    ensures Trim(" " + v) == Trim(v)
  {
    assert (" " + v)[1..] == v;
  }

  /** A line cut inside its key, or right behind it. */
  lemma ReadCutKey(key: string, m: nat, name: string)
    requires ':' !in key && '\n' !in key && Trimmed(key) && m <= |key| + 2
    ensures ParseHeader((key + ": ")[..m], name) ==
            if m > |key| && Lower(key) == Lower(name) then Some("") else None
  {
    hide HeaderValue, ParseHeader, Lower, Trimmed;
    var line := (key + ": ")[..m];
    assert '\n' !in line;
    SingleLine(line, name);
    if m <= |key| {
      assert ':' !in line;
      NoColon(line, name);
    } else {
      var v := " "[..m - |key| - 1];
      assert line == key + (":" + v);
      HeaderOf(key, v, name);
      assert v == "" || v == " " + "";
      TrimBlank("");
      assert Trim("") == "";
    }
  }

  /** A line cut inside its value. */
  lemma ReadCutValue(key: string, v: string, name: string)
    requires ':' !in key && '\n' !in key && Trimmed(key) && '\n' !in v
    ensures ParseHeader(key + ": " + v, name) == if Lower(key) == Lower(name) then Some(Trim(v)) else None
  {
    hide HeaderValue, ParseHeader, Lower, Trimmed, Trim;
    var line := key + ": " + v;
    assert line == key + (":" + (" " + v));
    SingleLine(line, name);
    HeaderOf(key, " " + v, name);
    TrimBlank(v);
  }

  lemma SecondLine(pod: string, rest: string)
    requires HeaderSafe(pod)
    ensures
      var t := PodLine(pod) + "\r\n" + rest;
      ParseHeader(t, POD) == Some(pod) && ParseHeader(t, PORT) == ParseHeader(rest, PORT)
  {
    hide Lines, HeaderValue;
    var line := PodLine(pod);
    HandoffValues(pod, 0);
    OneLine(line);
    LinesAppend(line + "\r\n", rest);
    var lines := [line] + Lines(rest);
    assert lines[0] == line && lines[1..] == Lines(rest);
  }

  /** The port header cut after `j` characters: nothing, or the digits that are there. */
  lemma ReadCutPort(port: u16, j: nat)
    requires j <= |PORT_KEY| + |Decimal(port)| + 2
    ensures
      var d, k := Decimal(port), |PORT_KEY|;
      ParseHeader((PORT_KEY + (d + "\r\n"))[..j], PORT) ==
      if j <= 12 then None else Some(if j <= k then "" else if j <= k + |d| then d[..j - k] else d)
  {
    hide ParseHeader, Decimal, Trim, HeaderValue;
    HandoffKeys();
    var key, d, k := "X-Royak-Port", Decimal(port), |PORT_KEY|;
    var t := (PORT_KEY + (d + "\r\n"))[..j];
    assert PORT_KEY == key + ": " && k == 14;
    if j <= k {
      assert t == (key + ": ")[..j];
      ReadCutKey(key, j, PORT);
    } else if j <= k + |d| {
      var v := d[..j - k];
      assert t == key + ": " + v;
      DigitsAreTrimmed(port, j - k);
      ReadCutValue(key, v, PORT);
      TrimIsIdentity(v);
    } else if j == k + |d| + 1 {
      assert t == key + ": " + (d + "\r");
      DigitsAreTrimmed(port, |d|);
      assert d[..|d|] == d;
      ReadCutValue(key, d + "\r", PORT);
      TrimTo(d);
      TrimBlank(d + "\r");
      assert " " + d + "\r" == " " + (d + "\r");
    } else {
      assert t == PortLine(port) + "\r\n";
      WholePortLine(port);
    }
  }

  lemma WholePortLine(port: u16)
    ensures ParseHeader(PortLine(port) + "\r\n", PORT) == Some(Decimal(port))
  {
    hide Lines, HeaderValue;
    HandoffValues("", port);
    DigitsAreTrimmed(port, |Decimal(port)|);
    assert Decimal(port)[..|Decimal(port)|] == Decimal(port);
    OneLine(PortLine(port));
  }

  lemma DigitsAreTrimmed(port: u16, n: nat)
    requires n <= |Decimal(port)|
    ensures Trimmed(Decimal(port)[..n]) && '\n' !in Decimal(port)[..n]
  {
    RadixRoundTrip(port, 10);
    DigitTextIsTrimmed(Decimal(port)[..n], 10);
  }

  /** The first digits of a number are a smaller number. */
  lemma {:induction false} DigitPrefix(n: nat, j: nat)
    requires n > 0 && 0 < j <= |Decimal(n)|
    ensures
      var v := DigitsValue(Decimal(n)[..j], 10);
      v.Some? && 0 < v.value <= n && (v.value == n <==> j == |Decimal(n)|)
  {
    var d := Decimal(n);
    RadixRoundTrip(n, 10);
    if j == |d| {
      assert d[..j] == d;
    } else {
      assert n >= 10;
      assert d == Decimal(n / 10) + [DigitChar(n % 10)];
      assert d[..j] == Decimal(n / 10)[..j];
      DigitPrefix(n / 10, j);
    }
  }

  /** The number the peer parses from the first `j` digits of the port. */
  function PortPrefix(port: u16, j: nat): (r: u16)
    requires port != 0 && 0 < j <= |Decimal(port)|
    ensures 0 < r <= port && (r == port <==> j == |Decimal(port)|)
  {
    DigitPrefix(port, j);
    DigitsValue(Decimal(port)[..j], 10).value
  }

  lemma PortOfDigits(port: u16, j: nat)
    requires port != 0 && j <= |Decimal(port)|
    ensures PortOr80(Some(Decimal(port)[..j])) == if j == 0 then 80 else PortPrefix(port, j)
  {
    hide Trimmed, Trim, DigitsValue, Decimal;
    var v := Decimal(port)[..j];
    DigitsAreTrimmed(port, j);
    TrimIsIdentity(v);
    if j > 0 {
      FirstIsDigit(port);
      DigitPrefix(port, j);
      assert v[0] == Decimal(port)[0];
      assert FromStrRadix(v, 10, U16) == Some(PortPrefix(port, j));
    } else {
      assert v == "";
    }
  }

  lemma FirstIsDigit(n: nat)
    ensures |Decimal(n)| > 0 && Decimal(n)[0] != '+'
  {
    RadixRoundTrip(n, 10);
    assert DigitValue(Decimal(n)[0], 10).Some?;
  }

  // ---- the first read ----

  /** Cut in or right after the pod's name: one line, read as far as it goes. */
  lemma ReadCutPod(u: Utf8, pod: string, port: u16, m: nat)
    requires Utf8Laws(u) && HeaderSafe(pod) && m <= |POD_KEY| + |u.encode(pod)|
    ensures
      var t := CutHandoff(u, pod, port, m);
      && ParseHeader(t, PORT) == None
      && ParseHeader(t, POD) ==
         if m < 12 then None else Some(if m <= 13 then "" else Trim(u.decode(u.encode(pod)[..m - 13])))
  {
    hide ParseHeader, Trim, AfterPod;
    HandoffKeys();
    var key := "X-Royak-Pod";
    assert POD_KEY == key + ": " && |POD_KEY| == 13;
    if m <= 13 {
      ReadCutKey(key, m, POD);
      ReadCutKey(key, m, PORT);
    } else {
      var part := u.encode(pod)[..m - 13];
      assert WritesAscii(u, pod, LF) && SeesAscii(u, part, LF);
      ReadCutValue(key, u.decode(part), POD);
      ReadCutValue(key, u.decode(part), PORT);
    }
  }

  /** Cut after the pod's name: the pod is read, and of the port what is there. */
  lemma ReadCutAfterPod(pod: string, port: u16, k: nat)
    requires HeaderSafe(pod) && port != 0 && 0 < k <= |AfterPod(port)|
    ensures |AfterPod(port)| == 18 + |Decimal(port)|
    ensures
      var t := POD_KEY + (pod + AfterPod(port)[..k]);
      && ParseHeader(t, POD) == Some(pod)
      && ParsePodPort(t) ==
         if k <= 16 then 80 else if k <= 16 + |Decimal(port)| then PortPrefix(port, k - 16) else port
  {
    hide ParseHeader, Trim, PortOr80, Decimal, PortPrefix;
    var t, d := POD_KEY + (pod + AfterPod(port)[..k]), Decimal(port);
    assert |AfterPod(port)| == 18 + |d|;
    if k == 1 {
      HandoffKeys();
      var key := "X-Royak-Pod";
      assert t == key + ": " + (pod + "\r");
      ReadCutValue(key, pod + "\r", POD);
      ReadCutValue(key, pod + "\r", PORT);
      TrimTo(pod);
      TrimBlank(pod + "\r");
      assert " " + pod + "\r" == " " + (pod + "\r");
      NoPort();
    } else {
      var rest := (PORT_KEY + (d + "\r\n"))[..k - 2];
      assert t == PodLine(pod) + "\r\n" + rest;
      SecondLine(pod, rest);
      ReadCutPort(port, k - 2);
      PortOfCut(port, k - 2);
    }
  }

  lemma NoPort()
    ensures PortOr80(None) == 80
  {
  }

  lemma PortOfCut(port: u16, j: nat)
    requires port != 0 && j <= 16 + |Decimal(port)|
    ensures
      var d := Decimal(port);
      var v := if j <= 12 then None else Some(if j <= 14 then "" else if j <= 14 + |d| then d[..j - 14] else d);
      PortOr80(v) == if j <= 14 then 80 else if j <= 14 + |d| then PortPrefix(port, j - 14) else port
  {
    hide PortOr80, Decimal, DigitsValue;
    var d := Decimal(port);
    FirstIsDigit(port);
    if j <= 12 {
      NoPort();
    } else if j <= 14 {
      PortOfDigits(port, 0);
      assert d[..0] == "";
    } else if j <= 14 + |d| {
      PortOfDigits(port, j - 14);
    } else {
      PortOfDigits(port, |d|);
      assert d[..|d|] == d;
    }
  }

  /** Behind a plain request line only the hand-off counts. */
  lemma SkipRequestLine(u: Utf8, raw: Octets, rest: Octets)
    requires Utf8Laws(u) && PlainRequest(u, raw)
    ensures ParseHeader(u.decode(RequestLine(raw) + rest), POD) == ParseHeader(u.decode(rest), POD)
    ensures ParseHeader(u.decode(RequestLine(raw) + rest), PORT) == ParseHeader(u.decode(rest), PORT)
  {
    hide Lines, ScanLines, RequestLine, Find;
    var line, t := RequestLine(raw), u.decode(rest);
    RequestLineEnds(u, raw);
    assert Boundary(line, rest);
    PlainHeadIsSkipped(u, raw);
    NoLines();
    var head := u.decode(line);
    if head == "" {
      assert head + t == t;
    } else {
      LinesAppend(head, t);
    }
    ScanAppend(Lines(head), Lines(t), POD);
    ScanAppend(Lines(head), Lines(t), PORT);
    assert [] + Lines(t) == Lines(t);
  }

  /** How many bytes of the injected headers a first read of `n` bytes holds; negative if it
      ends in the request line. */
  function Past(raw: Octets, n: nat): int { n - |RequestLine(raw)| }

  /** Where, counted like this, the pod's name ends and where the port's digits begin and end. */
  function PodEnd(u: Utf8, pod: string): nat { 13 + |u.encode(pod)| }
  function DigitsFrom(u: Utf8, pod: string): nat { PodEnd(u, pod) + 16 }
  function DigitsTo(u: Utf8, pod: string, port: u16): nat { DigitsFrom(u, pod) + |Decimal(port)| }

  /** What a peer takes for pod and port, for every plain request and every length of its
      first read: no pod while the header's colon is missing, then as much of the pod's name
      as is there; port 80 until a digit is there, then the number the digits make. */
  lemma PlaintextFirstRead(u: Utf8, raw: Octets, pod: string, port: u16, n: nat)
    requires Utf8Laws(u) && HeaderSafe(pod) && port != 0 && PlainRequest(u, raw)
    requires n <= |InjectHandoff(u, raw, pod, port)|
    ensures
      var first, m := u.decode(InjectHandoff(u, raw, pod, port)[..n]), Past(raw, n);
      && ParseHeader(first, POD) ==
         (if m < 12 then None
          else if m <= 13 then Some("")
          else if m < PodEnd(u, pod) then Some(Trim(u.decode(u.encode(pod)[..m - 13])))
          else Some(pod))
      && ParsePodPort(first) ==
         (if m <= DigitsFrom(u, pod) then 80
          else if m < DigitsTo(u, pod, port) then PortPrefix(port, m - DigitsFrom(u, pod))
          else port)
  {
    hide ParseHeader, Trim, PortOr80, InjectHandoff, RequestLine, AfterRequestLine, Decimal, PortPrefix, Lawful, Utf8Laws,
         Handoff, PlainRequest, HeaderSafe;
    var line, headers, after := RequestLine(raw), u.encode(Handoff(pod, port)), AfterRequestLine(raw);
    InjectedBytes(u, raw, pod, port, []);
    assert InjectHandoff(u, raw, pod, port) + [] == InjectHandoff(u, raw, pod, port) && after + [] == after;
    CutOfThree(line, headers, after, n);
    DecodeCutHandoff(u, pod, port, 0);
    NoPort();
    if n <= |line| {
      CutRequestLine(u, raw, n);
    } else if n <= |line| + |headers| {
      SkipRequestLine(u, raw, headers[..n - |line|]);
      ReadCutHandoff(u, pod, port, n - |line|);
    } else {
      var x := after[..n - |line| - |headers|];
      SkipRequestLine(u, raw, headers + x);
      ReadWholeHandoff(u, pod, port, x);
    }
  }

  lemma ReadCutHandoff(u: Utf8, pod: string, port: u16, m: nat)
    requires Utf8Laws(u) && HeaderSafe(pod) && port != 0 && m <= |u.encode(Handoff(pod, port))|
    ensures
      var t := u.decode(u.encode(Handoff(pod, port))[..m]);
      && ParseHeader(t, POD) ==
         (if m < 12 then None
          else if m <= 13 then Some("")
          else if m < PodEnd(u, pod) then Some(Trim(u.decode(u.encode(pod)[..m - 13])))
          else Some(pod))
      && ParsePodPort(t) ==
         (if m <= DigitsFrom(u, pod) then 80
          else if m < DigitsTo(u, pod, port) then PortPrefix(port, m - DigitsFrom(u, pod))
          else port)
  {
    hide ParseHeader, Trim, PortOr80, Decimal, Handoff, AfterPod;
    DecodeCutHandoff(u, pod, port, m);
    assert |POD_KEY| == 13;
    NoPort();
    if m <= PodEnd(u, pod) {
      ReadCutPod(u, pod, port, m);
      if m == PodEnd(u, pod) {
        assert u.encode(pod)[..m - 13] == u.encode(pod);
        TrimIsIdentity(pod);
      }
    } else {
      ReadCutAfterPod(pod, port, m - PodEnd(u, pod));
    }
  }

  lemma ReadWholeHandoff(u: Utf8, pod: string, port: u16, x: Octets)
    requires Utf8Laws(u) && HeaderSafe(pod) && port != 0
    ensures
      var t := u.decode(u.encode(Handoff(pod, port)) + x);
      && ParseHeader(t, POD) == Some(pod) && ParsePodPort(t) == port
      && |u.encode(Handoff(pod, port))| == DigitsTo(u, pod, port) + 2
  {
    hide ParseHeader, Handoff, Decimal, PortOr80, Utf8Laws, Lawful, HeaderSafe, DigitsValue, PodLine, PortLine;
    LawsAreLawful(u);
    DecodeHandoff(u, pod, port, x);
    FirstIsDigit(port);
    ReadHandoffText(pod, port, u.decode(x));
    PortOfDigits(port, |Decimal(port)|);
    assert Decimal(port)[..|Decimal(port)|] == Decimal(port);
    DecodeCutHandoff(u, pod, port, 0);
    assert |AfterPod(port)| == 18 + |Decimal(port)|;
  }

  lemma ReadHandoffText(pod: string, port: u16, rest: string)
    requires HeaderSafe(pod)
    ensures ParseHeader(Handoff(pod, port) + rest, POD) == Some(pod)
    ensures ParseHeader(Handoff(pod, port) + rest, PORT) == Some(Decimal(port))
  {
    hide Lines, ScanLines, Handoff, Trimmed, PodLine, PortLine, Decimal;
    HandoffLines(pod, port, rest);
    HandoffScan(pod, port, Lines(rest));
    HandoffKeys();
  }

  lemma LawsAreLawful(u: Utf8)
    requires Utf8Laws(u)
    ensures Lawful(u)
  {
  }

  /** The name ends in an ASCII character, as every resolved pod's does. */
  predicate EndsInAscii(pod: string)
  {
    pod != "" && pod[|pod| - 1] < '\U{80}'
  }

  lemma PodNameEndsInAscii(deployment: string, i: nat)
    ensures EndsInAscii(PodName(deployment, i))
  {
    DecimalIsAscii(i);
    var pod, d := PodName(deployment, i), Decimal(i);
    assert pod[|pod| - 1] == d[|d| - 1];
  }

  /** A cut name is another name. */
  lemma CutNameDiffers(u: Utf8, pod: string, n: nat)
    requires Utf8Laws(u) && EndsInAscii(pod)
    ensures u.encode(pod) != []
    ensures n < |u.encode(pod)| ==> Trim(u.decode(u.encode(pod)[..n])) != pod
  {
    hide Trim, Lawful;
    var q, last := pod[..|pod| - 1], pod[|pod| - 1..];
    assert pod == q + last;
    assert Joins(u, q, last) && AsciiIsItself(u, last) && Shrinks(u, q, n);
    if n < |u.encode(pod)| {
      assert u.encode(pod)[..n] == u.encode(q)[..n];
      TrimShrinks(u.decode(u.encode(pod)[..n]));
    }
  }

  /** The peer takes the right pod and port from its first read if and only if that holds the
      whole name and either all digits, or none while the port is the default one. */
  lemma PlaintextFirstReadIff(u: Utf8, raw: Octets, pod: string, port: u16, n: nat)
    requires Utf8Laws(u) && HeaderSafe(pod) && EndsInAscii(pod) && port != 0 && PlainRequest(u, raw)
    requires n <= |InjectHandoff(u, raw, pod, port)|
    ensures
      var first, m := u.decode(InjectHandoff(u, raw, pod, port)[..n]), Past(raw, n);
      (ParseHeader(first, POD) == Some(pod) && ParsePodPort(first) == port) <==>
      m >= PodEnd(u, pod) && (m >= DigitsTo(u, pod, port) || (port == 80 && m <= DigitsFrom(u, pod)))
  {
    hide ParseHeader, ParsePodPort, Trim, InjectHandoff, RequestLine, Decimal, Utf8Laws, HeaderSafe, PlainRequest, DigitsValue;
    PlaintextFirstRead(u, raw, pod, port, n);
    FirstIsDigit(port);
    var m := Past(raw, n);
    CutNameDiffers(u, pod, if m < 13 then 0 else m - 13);
  }
}
