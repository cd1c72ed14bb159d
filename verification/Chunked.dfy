/**
 Chunked transfer coding (section 7.1 of RFC 9112): the two decoders used on Docker's
 responses against one encoding.  One works on the bytes; the other on the lossily decoded
 text, by byte positions of which those inside a character make it panic.
 */
module Chunked {
  import opened Bytes
  import opened Strings

  import opened Utf8Text

  const USIZE := 0x1_0000_0000_0000_0000

  /** A size line: hexadecimal, surrounding whitespace allowed. */
  function HexSize(line: Data): (r: Option<nat>)
  {
    FromStrRadix(Trim(AsText(line)), 16, USIZE)
  }

  /** The decoders use nothing of the size line but the number it stands for, so they and
      the laws take its reader as a parameter; `HexSize` is the one in use. */
  type SizeReader = Data -> Option<nat>

  // ---- decoders ----

  /** One turn of the byte decoder's loop: stop, take a last piece, or take one and go on. */
  datatype Turn = Stop | Final(piece: Data) | Next(piece: Data, rest: Data)

  function DechunkTurn(sizeOf: SizeReader, rest: Data): (t: Turn)
    ensures t.Next? ==> |t.rest| < |rest|
  {
    match Find(rest, CRLF)
    case None => Stop
    case Some(pos) =>
      var size := sizeOf(rest[..pos]);
      if size.None? || size.value == 0 then Stop
      else
        var start := pos + 2;
        var end := if start + size.value < |rest| then start + size.value else |rest|;
        if end + 2 <= |rest| then Next(rest[start..end], rest[end + 2..]) else Final(rest[start..end])
  }

  function Dechunk(sizeOf: SizeReader, rest: Data): (out: Data)
    decreases |rest|
  {
    match DechunkTurn(sizeOf, rest)
    case Stop => []
    case Final(piece) => piece
    case Next(piece, more) => piece + Dechunk(sizeOf, more)
  }

  method DechunkBytes(sizeOf: SizeReader, data: Data) returns (out: Data)
    ensures out == Dechunk(sizeOf, data)
  {
    hide Find;
    out := [];
    var rest := data;
    while true
      invariant Dechunk(sizeOf, data) == out + Dechunk(sizeOf, rest)
      decreases |rest|
    {
      var turn := DechunkTurn(sizeOf, rest);
      match turn {
        case Stop =>
          return;
        case Final(piece) =>
          out := out + piece;
          return;
        case Next(piece, more) =>
          Assoc(out, piece, Dechunk(sizeOf, more));
          out := out + piece;
          rest := more;
      }
    }
  }

  function SkipCrlf(s: Data): (r: Data)
    ensures |r| <= |s|
  {
    if CRLF <= s then s[2..] else s
  }

  /** What the text decoder returns, or that it slices inside a character. */
  datatype Outcome = Done(text: Data) | Panics

  function Prepend(piece: Data, rest: Outcome): (r: Outcome)
  {
    match rest
    case Done(text) => Done(piece + text)
    case Panics => Panics
  }

  /** One turn of the text decoder's loop: an end, or a piece and where to go on. */
  datatype TextTurn = End(r: Outcome) | Go(piece: Data, rest: Data)

  function ParseTurn(sizeOf: SizeReader, rest: Data): (t: TextTurn)
    ensures t.Go? ==> |t.rest| < |rest|
  {
    match Find(rest, CRLF)
    case None => End(Done(rest))
    case Some(pos) =>
      var size := sizeOf(rest[..pos]);
      if size.None? || size.value == 0 then End(Done([]))
      else
        var body := rest[pos + 2..];
        if |body| < size.value then End(Done(body))
        else if !IsBoundary(body, size.value) then End(Panics)
        else Go(body[..size.value], SkipCrlf(body[size.value..]))
  }

  function ParseText(sizeOf: SizeReader, rest: Data): (r: Outcome)
    decreases |rest|
  {
    match ParseTurn(sizeOf, rest)
    case End(r) => r
    case Go(piece, more) => Prepend(piece, ParseText(sizeOf, more))
  }

  /** The text decoder on the bytes of a body: they are decoded lossily first. */
  function DecodeText(sizeOf: SizeReader, body: Data): (r: Outcome)
  {
    ParseText(sizeOf, Lossy(body))
  }

  method ParseChunked(sizeOf: SizeReader, data: Data) returns (r: Outcome)
    ensures r == ParseText(sizeOf, data)
  {
    hide ParseTurn;
    var result: Data := [];
    var remaining := data;
    while true
      invariant ParseText(sizeOf, data) == Prepend(result, ParseText(sizeOf, remaining))
      decreases |remaining|
    {
      var turn := ParseTurn(sizeOf, remaining);
      match turn {
        case End(last) =>
          return if last.Done? then Done(result + last.text) else Panics;
        case Go(piece, more) =>
          PrependTwice(result, piece, ParseText(sizeOf, more));
          result := result + piece;
          remaining := more;
      }
    }
  }

  lemma PrependTwice(a: Data, b: Data, r: Outcome)
    ensures Prepend(a, Prepend(b, r)) == Prepend(a + b, r)
  {
    if r.Done? {
      Assoc(a, b, r.text);
    }
  }

  // ---- encoding ----

  datatype Chunk = Chunk(line: Data, data: Data)

  /** A non-empty chunk with any size line that announces its length: either letter case,
      leading zeros and surrounding blanks included. */
  predicate WellFormed(sizeOf: SizeReader, c: Chunk)
  {
    c.data != [] && Find(c.line, CRLF).None? && sizeOf(c.line) == Some(|c.data|)
  }

  function Encode(c: Chunk): (r: Data)
  {
    c.line + CRLF + c.data + CRLF
  }

  function EncodeAll(chunks: seq<Chunk>): (r: Data)
  {
    if chunks == [] then [] else Encode(chunks[0]) + EncodeAll(chunks[1..])
  }

  /** A complete message: the chunks, a last-chunk line, and whatever follows it. */
  function Message(chunks: seq<Chunk>, last: Data, trailer: Data): (r: Data)
  {
    EncodeAll(chunks) + (last + CRLF + trailer)
  }

  function Content(chunks: seq<Chunk>): (r: Data)
  {
    if chunks == [] then [] else chunks[0].data + Content(chunks[1..])
  }

  /** The size line ends at the first CRLF, also when the data holds more of them. */
  lemma LineEnds(line: Data, more: Data)
    requires Find(line, CRLF).None?
    ensures Find(line + CRLF + more, CRLF) == Some(|line|)
    ensures (line + CRLF + more)[..|line|] == line
  {
    var s := line + CRLF + more;
    OccursCrlf(s, |line|);
    forall j: nat | j < |line|
      ensures !OccursAt(s, CRLF, j)
    {
      OccursCrlf(s, j);
      OccursCrlf(line, j);
    }
    FindIs(s, CRLF, |line|);
  }

  /** The pieces of an encoded chunk in front of other bytes. */
  lemma Shape(c: Chunk, more: Data)
    ensures
      var s, start, end := Encode(c) + more, |c.line| + 2, |c.line| + 2 + |c.data|;
      && s == c.line + CRLF + (c.data + CRLF + more)
      && |s| == end + 2 + |more|
      && s[start..end] == c.data
      && s[end + 2..] == more
      && s[start..][..|c.data|] == c.data
      && s[start..][|c.data|..] == CRLF + more
  {
  }

  lemma DechunkOne(sizeOf: SizeReader, c: Chunk, more: Data)
    requires WellFormed(sizeOf, c)
    ensures Dechunk(sizeOf, Encode(c) + more) == c.data + Dechunk(sizeOf, more)
  {
    hide Find;
    Shape(c, more);
    LineEnds(c.line, c.data + CRLF + more);
  }

  /** A chunk in text: the slice behind its data is at a boundary. */
  lemma ParseOne(sizeOf: SizeReader, c: Chunk, more: Data)
    requires WellFormed(sizeOf, c)
    ensures ParseText(sizeOf, Encode(c) + more) == Prepend(c.data, ParseText(sizeOf, more))
  {
    hide Find;
    Shape(c, more);
    LineEnds(c.line, c.data + CRLF + more);
    var body := c.data + CRLF + more;
    assert body[|c.data|] == CR && IsBoundary(body, |c.data|);
    assert SkipCrlf(CRLF + more) == more;
  }

  /** A last-chunk line: nothing after it is decoded. */
  lemma LastChunk(sizeOf: SizeReader, line: Data, more: Data)
    requires Find(line, CRLF).None? && sizeOf(line) == Some(0)
    ensures Dechunk(sizeOf, line + CRLF + more) == [] && ParseText(sizeOf, line + CRLF + more) == Done([])
  {
    hide Find;
    LineEnds(line, more);
  }

  predicate AllWellFormed(sizeOf: SizeReader, chunks: seq<Chunk>)
  {
    forall i :: 0 <= i < |chunks| ==> WellFormed(sizeOf, chunks[i])
  }

  predicate IsLast(sizeOf: SizeReader, line: Data)
  {
    Find(line, CRLF).None? && sizeOf(line) == Some(0) && IsAscii(line)
  }

  /** The byte decoder returns the concatenated chunks of a complete message, so it does not
      depend on how the content was cut into chunks. */
  lemma {:induction false} DechunkInvertsEncoding(sizeOf: SizeReader, chunks: seq<Chunk>, last: Data, trailer: Data)
    requires AllWellFormed(sizeOf, chunks) && IsLast(sizeOf, last)
    ensures Dechunk(sizeOf, Message(chunks, last, trailer)) == Content(chunks)
  {
    hide Find, Dechunk, Encode;
    if chunks == [] {
      LastChunk(sizeOf, last, trailer);
      assert Message(chunks, last, trailer) == last + CRLF + trailer;
    } else {
      FirstChunk(chunks, last, trailer);
      DechunkOne(sizeOf, chunks[0], Message(chunks[1..], last, trailer));
      DechunkInvertsEncoding(sizeOf, chunks[1..], last, trailer);
    }
  }

  lemma FirstChunk(chunks: seq<Chunk>, last: Data, trailer: Data)
    requires chunks != []
    ensures Message(chunks, last, trailer) == Encode(chunks[0]) + Message(chunks[1..], last, trailer)
  {
    hide Encode;
    Assoc(Encode(chunks[0]), EncodeAll(chunks[1..]), last + CRLF + trailer);
  }

  /** Decoding a chunk and what follows: the framing is ASCII, so the data is decoded alone. */
  lemma LossyChunk(c: Chunk, more: Data)
    requires IsAscii(c.line)
    ensures Lossy(Encode(c) + more) == Encode(Chunk(c.line, Lossy(c.data))) + Lossy(more)
  {
    hide Lossy;
    var front, back := c.line + CRLF, CRLF + more;
    assert Encode(c) + more == front + (c.data + back);
    LossySplits(front, c.data + back);
    LossySplits(c.data, back);
    LossySplits(CRLF, more);
    AsciiIsItself(front);
    AsciiIsItself(CRLF);
    assert front + (Lossy(c.data) + (CRLF + Lossy(more))) == Encode(Chunk(c.line, Lossy(c.data))) + Lossy(more);
  }

  lemma AsciiIsItself(a: Data)
    requires IsAscii(a)
    ensures Lossy(a) == a
  {
    AsciiIsValid(a);
    LossyIsText(a);
  }

  /** The framing in front of the data is ASCII. */
  lemma LossyBody(line: Data, body: Data)
    requires IsAscii(line)
    ensures Lossy(line + CRLF + body) == line + CRLF + Lossy(body)
  {
    hide Lossy;
    LossySplits(line + CRLF, body);
    AsciiIsItself(line + CRLF);
  }

  predicate AllText(chunks: seq<Chunk>)
  {
    forall i :: 0 <= i < |chunks| ==> Valid(chunks[i].data)
  }

  predicate AsciiLines(chunks: seq<Chunk>)
  {
    forall i :: 0 <= i < |chunks| ==> IsAscii(chunks[i].line)
  }

  /** A chunk whose data is text. */
  lemma DecodeTextChunk(sizeOf: SizeReader, c: Chunk, more: Data)
    requires WellFormed(sizeOf, c) && IsAscii(c.line) && Valid(c.data)
    ensures DecodeText(sizeOf, Encode(c) + more) == Prepend(c.data, DecodeText(sizeOf, more))
  {
    hide Lossy, ParseText, Encode, Find;
    LossyIsText(c.data);
    LossyChunk(c, more);
    ParseOne(sizeOf, c, Lossy(more));
  }

  /** A chunk whose data is not: whatever comes out does not start with the data. */
  lemma DecodeJunkChunk(sizeOf: SizeReader, c: Chunk, more: Data)
    requires WellFormed(sizeOf, c) && IsAscii(c.line) && !Valid(c.data)
    ensures
      var r := DecodeText(sizeOf, Encode(c) + more);
      r.Panics? || (|r.text| >= |c.data| && r.text[..|c.data|] != c.data)
    ensures !IsBoundary(Lossy(c.data), |c.data|) ==> DecodeText(sizeOf, Encode(c) + more).Panics?
  {
    hide Lossy, Valid, IsBoundary, ParseText;
    var text, n := Lossy(c.data), |c.data|;
    LossyIsText(c.data);
    LossyIsValid(c.data);
    LossyChunk(c, more);
    var tail := CRLF + Lossy(more);
    JunkIsNotKept(c.data, text, tail);
    assert Encode(Chunk(c.line, text)) + Lossy(more) == c.line + CRLF + (text + tail);
    SliceAt(sizeOf, c.line, text + tail, n);
    var r := DecodeText(sizeOf, Encode(c) + more);
    if r.Done? {
      assert r.text[..n] == (text + tail)[..n];
    }
  }

  /** A slice of text is text, so it is not the data that is none. */
  lemma JunkIsNotKept(data: Data, text: Data, tail: Data)
    requires !Valid(data) && Valid(text) && |data| <= |text| && |tail| > 0 && !Continues(tail[0])
    ensures IsBoundary(text + tail, |data|) <==> IsBoundary(text, |data|)
    ensures IsBoundary(text, |data|) ==> (text + tail)[..|data|] != data
  {
    var n, body := |data|, text + tail;
    assert n < |text| ==> body[n] == text[n];
    assert n == |text| ==> body[n] == tail[0];
    assert body[..n] == text[..n];
    if IsBoundary(text, n) {
      ValidPrefix(text, n);
    }
  }

  lemma SliceAt(sizeOf: SizeReader, line: Data, body: Data, n: nat)
    requires Find(line, CRLF).None? && sizeOf(line) == Some(n) && 0 < n <= |body|
    ensures
      var r := ParseText(sizeOf, line + CRLF + body);
      if IsBoundary(body, n) then r.Panics? || body[..n] <= r.text else r.Panics?
  {
    hide Find;
    LineEnds(line, body);
    assert (line + CRLF + body)[|line| + 2..] == body;
  }

  /** The text decoder returns the content of a complete message if and only if every chunk is
      text by itself; so unlike the byte decoder it does depend on the chunks. */
  lemma {:induction false} TextInvertsEncodingIff(sizeOf: SizeReader, chunks: seq<Chunk>, last: Data, trailer: Data)
    requires AllWellFormed(sizeOf, chunks) && AsciiLines(chunks) && IsLast(sizeOf, last)
    ensures DecodeText(sizeOf, Message(chunks, last, trailer)) == Done(Content(chunks)) <==> AllText(chunks)
  {
    hide Find, Encode, DecodeText, Lossy, Valid;
    if chunks == [] {
      assert Message(chunks, last, trailer) == last + CRLF + trailer;
      DecodeLastLine(sizeOf, last, trailer);
    } else {
      var c, rest := chunks[0], Message(chunks[1..], last, trailer);
      FirstChunk(chunks, last, trailer);
      TextInvertsEncodingIff(sizeOf, chunks[1..], last, trailer);
      assert AllText(chunks) <==> Valid(c.data) && AllText(chunks[1..]) by { TextChunks(chunks); }
      if Valid(c.data) {
        DecodeTextChunk(sizeOf, c, rest);
        SameTail(c.data, DecodeText(sizeOf, rest), Content(chunks[1..]));
      } else {
        DecodeJunkChunk(sizeOf, c, rest);
        assert (c.data + Content(chunks[1..]))[..|c.data|] == c.data;
      }
    }
  }

  lemma TextChunks(chunks: seq<Chunk>)
    requires chunks != []
    ensures AllText(chunks) <==> Valid(chunks[0].data) && AllText(chunks[1..])
  {
    hide Valid;
    assert forall i :: 0 < i < |chunks| ==> chunks[i] == chunks[1..][i - 1];
  }

  lemma SameTail(a: Data, r: Outcome, b: Data)
    ensures Prepend(a, r) == Done(a + b) <==> r == Done(b)
  {
    if r.Done? {
      assert (a + r.text)[|a|..] == r.text && (a + b)[|a|..] == b;
    }
  }

  lemma DecodeLastLine(sizeOf: SizeReader, last: Data, trailer: Data)
    requires IsLast(sizeOf, last)
    ensures DecodeText(sizeOf, last + CRLF + trailer) == Done([])
  {
    hide Lossy, ParseText;
    LossyBody(last, trailer);
    LastChunk(sizeOf, last, Lossy(trailer));
  }

  /** Both decoders return the content of every complete message whose chunks are text, and
      agree. */
  lemma DecodersAgree(sizeOf: SizeReader, chunks: seq<Chunk>, last: Data, trailer: Data)
    requires AllWellFormed(sizeOf, chunks) && AsciiLines(chunks) && IsLast(sizeOf, last)
    ensures
      var message := Message(chunks, last, trailer);
      DecodeText(sizeOf, message) == Done(Dechunk(sizeOf, message)) <==> AllText(chunks)
  {
    hide Dechunk, DecodeText, Message, AllText;
    DechunkInvertsEncoding(sizeOf, chunks, last, trailer);
    TextInvertsEncodingIff(sizeOf, chunks, last, trailer);
  }

  /** A character sent in two chunks: with the first byte alone in its chunk the text decoder
      panics, whatever was sent before and comes after. */
  lemma {:induction false} SplitCharacterPanics(sizeOf: SizeReader, before: seq<Chunk>, c: Chunk, more: Data)
    requires AllWellFormed(sizeOf, before) && AsciiLines(before) && AllText(before)
    requires WellFormed(sizeOf, c) && IsAscii(c.line) && |c.data| == 1 && c.data[0] >= 0x80
    ensures DecodeText(sizeOf, EncodeAll(before) + (Encode(c) + more)).Panics?
  {
    hide Find, Encode, DecodeText, Lossy, Valid;
    if before == [] {
      LoneByte(c.data[0]);
      assert c.data == [c.data[0]];
      DecodeJunkChunk(sizeOf, c, more);
      assert EncodeAll(before) + (Encode(c) + more) == Encode(c) + more;
    } else {
      SplitCharacterPanics(sizeOf, before[1..], c, more);
      var rest := EncodeAll(before[1..]) + (Encode(c) + more);
      Assoc(Encode(before[0]), EncodeAll(before[1..]), Encode(c) + more);
      DecodeTextChunk(sizeOf, before[0], rest);
    }
  }

  lemma LoneByte(b: byte)
    requires b >= 0x80
    ensures !Valid([b]) && !IsBoundary(Lossy([b]), 1)
  {
    assert [b][1..] == [] && Lossy([b]) == REPLACEMENT + [];
  }

  /** The size line a sender writes. */
  function SizeLine(n: nat): (line: Data)
  {
    RadixRoundTrip(n, 16);
    DigitsAreAscii(ToRadix(n, 16), 16);
    Ascii(ToRadix(n, 16))
  }

  /** Every data block below the address-space limit has a well-formed chunk. */
  lemma SizeLineIsWellFormed(data: Data)
    requires 0 < |data| < USIZE
    ensures WellFormed(HexSize, Chunk(SizeLine(|data|), data))
  {
    var n := |data|;
    var t, line := ToRadix(n, 16), SizeLine(n);
    RadixRoundTrip(n, 16);
    ParseFormatted(n, 16, USIZE);
    DigitTextIsTrimmed(t, 16);
    TrimIsIdentity(t);
    forall j: nat
      ensures !OccursAt(line, CRLF, j)
    {
      OccursCrlf(line, j);
      assert j < |line| ==> t[j] == AsText(line)[j];
    }
  }

  /** A size of 2^64 or more is no size. */
  lemma HugeSizeIsNone(n: nat)
    requires n >= 0x1_0000_0000_0000_0000
    ensures HexSize(SizeLine(n)) == None
  {
    var t := ToRadix(n, 16);
    RadixRoundTrip(n, 16);
    DigitTextIsTrimmed(t, 16);
    TrimIsIdentity(t);
    assert DigitValue(t[0], 16).Some?;
    assert t[0] != '+';
  }

  lemma LastLineIsWellFormed()
    ensures IsLast(HexSize, SizeLine(0))
  {
    var t, line := ToRadix(0, 16), SizeLine(0);
    assert line == [48] && t == "0";
    RadixRoundTrip(0, 16);
    ParseFormatted(0, 16, USIZE);
    TrimIsIdentity(t);
    forall j: nat
      ensures !OccursAt(line, CRLF, j)
    {
      OccursCrlf(line, j);
    }
  }

  /** Only ASCII lines announce a size. */
  lemma HexLinesAreAscii(line: Data)
    requires HexSize(line).Some?
    ensures IsAscii(line)
  {
    var t := AsText(line);
    var trimmed := Trim(t);
    var digits := if |trimmed| > 1 && trimmed[0] == '+' then trimmed[1..] else trimmed;
    DigitsOnly(digits, 16);
    forall i | 0 <= i < |line|
      ensures line[i] < 0x80
    {
      if line[i] >= 0x80 {
        assert t[i] == '\U{FFFD}' && t[i] in t;
        TrimKeeps(t, t[i]);
      }
    }
  }

  lemma {:induction false} DigitsOnly(s: string, radix: nat)
    requires DigitsValue(s, radix).Some?
    ensures IsDigitText(s, radix)
  {
    if s != "" {
      DigitsOnly(s[..|s| - 1], radix);
      assert forall i :: 0 <= i < |s| - 1 ==> s[i] == s[..|s| - 1][i];
    }
  }

  lemma {:induction false} TrimKeeps(s: string, x: char)
    requires x in s && !IsWhitespace(x)
    ensures x in Trim(s)
  {
    if IsWhitespace(s[0]) {
      TrimKeeps(s[1..], x);
    } else {
      TrimEndKeeps(s, x);
    }
  }

  lemma {:induction false} TrimEndKeeps(s: string, x: char)
    requires x in s && !IsWhitespace(x)
    ensures x in TrimEnd(s)
  {
    if IsWhitespace(s[|s| - 1]) {
      TrimEndKeeps(s[..|s| - 1], x);
    }
  }

  // ---- truncated messages ----

  /** The data bytes among the first `n` bytes of a message. */
  function Arrived(chunks: seq<Chunk>, n: nat): (r: Data)
  {
    if chunks == [] then []
    else
      var c := chunks[0];
      var start := |c.line| + 2;
      if n >= |Encode(c)| then c.data + Arrived(chunks[1..], n - |Encode(c)|)
      else if n <= start then []
      else if n <= start + |c.data| then c.data[..n - start]
      else c.data
  }

  /** The same up to the last whole character. */
  function TextArrived(chunks: seq<Chunk>, n: nat): (r: Data)
  {
    if chunks == [] then []
    else
      var c := chunks[0];
      var start := |c.line| + 2;
      if n >= |Encode(c)| then c.data + TextArrived(chunks[1..], n - |Encode(c)|)
      else if n <= start then []
      else if n <= start + |c.data| then WholeChars(c.data[..n - start])
      else c.data
  }

  /** What the text decoder takes for data when the message ends after `n` bytes: the part of
      a size line that was cut, a CR cut from its LF behind the data, or a replacement for a
      cut character. */
  function Leak(chunks: seq<Chunk>, last: Data, n: nat): (r: Data)
  {
    if chunks == [] then if n < |last| + 2 then (last + CRLF)[..n] else []
    else
      var c := chunks[0];
      var start := |c.line| + 2;
      if n >= |Encode(c)| then Leak(chunks[1..], last, n - |Encode(c)|)
      else if n < start then (c.line + CRLF)[..n]
      else if n <= start + |c.data| then if IsBoundary(c.data, n - start) then [] else REPLACEMENT
      else [CR]
  }

  /** The cut is inside a character so near to the end of its chunk that the replacement,
      three bytes long, reaches beyond it. */
  predicate CutPanics(chunks: seq<Chunk>, n: nat)
  {
    chunks != [] &&
    var c := chunks[0];
    var start := |c.line| + 2;
    if n >= |Encode(c)| then CutPanics(chunks[1..], n - |Encode(c)|)
    else
      start < n < start + |c.data| && !IsBoundary(c.data, n - start)
      && |WholeChars(c.data[..n - start])| + 3 > |c.data|
  }

  /** No CRLF inside a cut-off line. */
  lemma NoLineEnd(line: Data, n: nat)
    requires Find(line, CRLF).None? && n < |line| + 2
    ensures Find((line + CRLF)[..n], CRLF).None?
  {
    hide Find;
    var s := (line + CRLF)[..n];
    forall j: nat
      ensures !OccursAt(s, CRLF, j)
    {
      OccursCrlf(s, j);
      OccursCrlf(line, j);
    }
  }

  lemma CutLine(sizeOf: SizeReader, line: Data, n: nat)
    requires Find(line, CRLF).None? && n < |line| + 2
    ensures Dechunk(sizeOf, (line + CRLF)[..n]) == []
    ensures IsAscii(line) ==> DecodeText(sizeOf, (line + CRLF)[..n]) == Done((line + CRLF)[..n])
  {
    NoLineEnd(line, n);
    hide Find, Lossy;
    if IsAscii(line) {
      AsciiIsItself((line + CRLF)[..n]);
    }
  }

  /** A chunk whose data has not all arrived, over bytes. */
  lemma CutBytes(sizeOf: SizeReader, c: Chunk, part: Data)
    requires WellFormed(sizeOf, c) && part <= c.data && part != c.data
    ensures Dechunk(sizeOf, c.line + CRLF + part) == part
  {
    LineEnds(c.line, part);
    hide Find;
    var s := c.line + CRLF + part;
    assert s[|c.line| + 2..] == part && |part| < |c.data|;
    assert s[|c.line| + 2..|s|] == part;
  }

  /** Over text, where a cut character has become a replacement. */
  lemma CutData(sizeOf: SizeReader, c: Chunk, m: nat)
    requires WellFormed(sizeOf, c) && IsAscii(c.line) && Valid(c.data) && m < |c.data|
    ensures
      var part := c.data[..m]; var whole := WholeChars(part);
      DecodeText(sizeOf, c.line + CRLF + part) ==
      if IsBoundary(c.data, m) then Done(part)
      else if |whole| + 3 > |c.data| then Panics
      else Done(whole + REPLACEMENT)
  {
    var part := c.data[..m];
    var whole := WholeChars(part);
    CutText(c.data, m);
    hide Lossy, WholeChars, Valid, IsBoundary;
    LossyBody(c.line, part);
    var body := Lossy(part);
    assert whole + [] == whole;
    ShortBody(sizeOf, c.line, body, |c.data|);
    if !IsBoundary(c.data, m) && |whole| + 3 > |c.data| {
      InsideReplacement(whole, |c.data|);
    }
  }

  lemma InsideReplacement(whole: Data, n: nat)
    requires |whole| < n < |whole| + 3
    ensures !IsBoundary(whole + REPLACEMENT, n)
  {
    assert (whole + REPLACEMENT)[n] == REPLACEMENT[n - |whole|];
  }

  /** Text that ends before, with, or after the announced data and nothing behind it. */
  lemma ShortBody(sizeOf: SizeReader, line: Data, body: Data, n: nat)
    requires Find(line, CRLF).None? && sizeOf(line) == Some(n) && n > 0
    ensures |body| <= n ==> ParseText(sizeOf, line + CRLF + body) == Done(body)
    ensures |body| > n && !IsBoundary(body, n) ==> ParseText(sizeOf, line + CRLF + body) == Panics
  {
    LineEnds(line, body);
    NothingLeft(sizeOf);
    hide Find;
    assert (line + CRLF + body)[|line| + 2..] == body;
    if |body| == n {
      assert body[..n] == body && body[n..] == [] && SkipCrlf([]) == [];
      assert body + [] == body;
    }
  }

  lemma NothingLeft(sizeOf: SizeReader)
    ensures ParseText(sizeOf, []) == Done([]) && ParseText(sizeOf, [CR]) == Done([CR])
  {
    forall j: nat
      ensures !OccursAt<byte>([], CRLF, j) && !OccursAt([CR], CRLF, j)
    {
      OccursCrlf([], j);
      OccursCrlf([CR], j);
    }
  }

  /** All data has arrived, but not the whole CRLF behind it. */
  lemma CutAfterData(sizeOf: SizeReader, c: Chunk, rest: Data)
    requires WellFormed(sizeOf, c) && (rest == [] || rest == [CR])
    ensures Dechunk(sizeOf, c.line + CRLF + (c.data + rest)) == c.data
    ensures IsAscii(c.line) && Valid(c.data) ==>
              DecodeText(sizeOf, c.line + CRLF + (c.data + rest)) == Done(c.data + rest)
  {
    hide ParseText, Dechunk;
    DataAndRest(sizeOf, c, rest);
    if IsAscii(c.line) && Valid(c.data) {
      LossyRest(c, rest);
    }
  }

  lemma LossyRest(c: Chunk, rest: Data)
    requires IsAscii(c.line) && Valid(c.data) && (rest == [] || rest == [CR])
    ensures Lossy(c.line + CRLF + (c.data + rest)) == c.line + CRLF + (c.data + rest)
  {
    hide Lossy;
    LossyBody(c.line, c.data + rest);
    LossySplits(c.data, rest);
    LossyIsText(c.data);
    AsciiIsItself(rest);
  }

  lemma DataAndRest(sizeOf: SizeReader, c: Chunk, rest: Data)
    requires WellFormed(sizeOf, c) && (rest == [] || rest == [CR])
    ensures Dechunk(sizeOf, c.line + CRLF + (c.data + rest)) == c.data
    ensures ParseText(sizeOf, c.line + CRLF + (c.data + rest)) == Done(c.data + rest)
  {
    var body := c.data + rest;
    LineEnds(c.line, body);
    NothingLeft(sizeOf);
    hide Find;
    var s, start := c.line + CRLF + body, |c.line| + 2;
    assert s[start..] == body && body[..|c.data|] == c.data && body[|c.data|..] == rest;
    assert s[start..start + |c.data|] == c.data;
    assert IsBoundary(body, |c.data|) && SkipCrlf(rest) == rest;
  }

  /** The places a cut can fall in a chunk. */
  lemma CutChunk(sizeOf: SizeReader, c: Chunk, n: nat)
    requires WellFormed(sizeOf, c) && n < |Encode(c)|
    ensures Dechunk(sizeOf, Encode(c)[..n]) == Arrived([c], n)
    ensures IsAscii(c.line) && Valid(c.data) ==>
              DecodeText(sizeOf, Encode(c)[..n]) ==
              if CutPanics([c], n) then Panics else Done(TextArrived([c], n) + Leak([c], [], n))
  {
    hide Find, Dechunk, DecodeText, Valid, WholeChars, IsBoundary;
    var s, start := Encode(c)[..n], |c.line| + 2;
    if n < start {
      assert s == (c.line + CRLF)[..n];
      CutLine(sizeOf, c.line, n);
      assert [] + s == s;
    } else if n < start + |c.data| {
      var m := n - start;
      assert s == c.line + CRLF + c.data[..m];
      CutBytes(sizeOf, c, c.data[..m]);
      if IsAscii(c.line) && Valid(c.data) {
        CutData(sizeOf, c, m);
        WholePart(c.data, m);
      }
    } else {
      var rest := CRLF[..n - start - |c.data|];
      assert s == c.line + CRLF + (c.data + rest);
      CutAfterData(sizeOf, c, rest);
      assert c.data[..|c.data|] == c.data;
      if Valid(c.data) {
        WholePart(c.data, |c.data|);
      }
    }
  }

  lemma WholePart(s: Data, m: nat)
    requires Valid(s) && m <= |s|
    ensures IsBoundary(s, m) ==> WholeChars(s[..m]) == s[..m] && WholeChars(s[..m]) + [] == s[..m]
    ensures IsBoundary(s, 0) && IsBoundary(s, |s|) && WholeChars([]) == []
  {
    CutText(s, m);
  }

  lemma CutLastLine(sizeOf: SizeReader, last: Data, trailer: Data, n: nat)
    requires IsLast(sizeOf, last) && n <= |last + CRLF + trailer|
    ensures
      var s := (last + CRLF + trailer)[..n];
      Dechunk(sizeOf, s) == [] && DecodeText(sizeOf, s) == Done(Leak([], last, n))
  {
    hide Find, Dechunk, DecodeText;
    var s := (last + CRLF + trailer)[..n];
    if n < |last| + 2 {
      assert s == (last + CRLF)[..n];
      CutLine(sizeOf, last, n);
    } else {
      var part := trailer[..n - |last| - 2];
      assert s == last + CRLF + part;
      LastChunk(sizeOf, last, part);
      DecodeLastLine(sizeOf, last, part);
    }
  }

  lemma CutInFirst(chunks: seq<Chunk>, last: Data, n: nat)
    requires chunks != [] && n < |Encode(chunks[0])|
    ensures Arrived(chunks, n) == Arrived([chunks[0]], n) <= Content(chunks)
    ensures TextArrived(chunks, n) == TextArrived([chunks[0]], n) <= Content(chunks)
    ensures Leak(chunks, last, n) == Leak([chunks[0]], [], n)
    ensures CutPanics(chunks, n) <==> CutPanics([chunks[0]], n)
  {
    hide WholeChars, IsBoundary;
    var c := chunks[0];
    var start := |c.line| + 2;
    if start < n <= start + |c.data| {
      var part := c.data[..n - start];
      WholeIsPrefix(part);
      PrefixOfPrefix(WholeChars(part), part, c.data);
    }
  }

  lemma WholeIsPrefix(s: Data)
    ensures WholeChars(s) <= s
  {
  }

  lemma PrefixOfPrefix(a: Data, b: Data, c: Data)
    requires a <= b && b <= c
    ensures a <= c
  {
  }

  /** Of every message and every cut: the byte decoder returns exactly the data that has
      arrived. */
  lemma {:induction false} TruncatedBytes(sizeOf: SizeReader, chunks: seq<Chunk>, last: Data, trailer: Data, n: nat)
    requires AllWellFormed(sizeOf, chunks) && IsLast(sizeOf, last) && n <= |Message(chunks, last, trailer)|
    ensures Dechunk(sizeOf, Message(chunks, last, trailer)[..n]) == Arrived(chunks, n) <= Content(chunks)
  {
    hide Find, Dechunk, Encode, DecodeText, Message;
    if chunks == [] {
      NoChunks(last, trailer);
      CutLastLine(sizeOf, last, trailer, n);
    } else {
      var c, rest := chunks[0], Message(chunks[1..], last, trailer);
      FirstChunk(chunks, last, trailer);
      if n >= |Encode(c)| {
        var m := n - |Encode(c)|;
        assert (Encode(c) + rest)[..n] == Encode(c) + rest[..m];
        TruncatedBytes(sizeOf, chunks[1..], last, trailer, m);
        DechunkOne(sizeOf, c, rest[..m]);
      } else {
        assert (Encode(c) + rest)[..n] == Encode(c)[..n];
        CutChunk(sizeOf, c, n);
        CutInFirst(chunks, last, n);
      }
    }
  }

  lemma NoChunks(last: Data, trailer: Data)
    ensures Message([], last, trailer) == last + CRLF + trailer
  {
  }

  /** Of every message whose chunks are text and every cut: the text decoder panics, or returns
      the whole characters that have arrived and the leak. */
  lemma {:induction false} TruncatedText(sizeOf: SizeReader, chunks: seq<Chunk>, last: Data, trailer: Data, n: nat)
    requires AllWellFormed(sizeOf, chunks) && AsciiLines(chunks) && AllText(chunks) && IsLast(sizeOf, last)
    requires n <= |Message(chunks, last, trailer)|
    ensures TextArrived(chunks, n) <= Content(chunks)
    ensures DecodeText(sizeOf, Message(chunks, last, trailer)[..n]) ==
            if CutPanics(chunks, n) then Panics else Done(TextArrived(chunks, n) + Leak(chunks, last, n))
  {
    hide Find, Dechunk, Encode, DecodeText, Message, Valid, WholeChars, IsBoundary;
    if chunks == [] {
      NoChunks(last, trailer);
      CutLastLine(sizeOf, last, trailer, n);
      assert [] + Leak([], last, n) == Leak([], last, n);
    } else {
      var c, rest := chunks[0], Message(chunks[1..], last, trailer);
      FirstChunk(chunks, last, trailer);
      if n >= |Encode(c)| {
        var m := n - |Encode(c)|;
        assert (Encode(c) + rest)[..n] == Encode(c) + rest[..m];
        TruncatedText(sizeOf, chunks[1..], last, trailer, m);
        DecodeTextChunk(sizeOf, c, rest[..m]);
        Assoc(c.data, TextArrived(chunks[1..], m), Leak(chunks[1..], last, m));
      } else {
        assert (Encode(c) + rest)[..n] == Encode(c)[..n];
        CutChunk(sizeOf, c, n);
        CutInFirst(chunks, last, n);
      }
    }
  }

  /** The text decoder's result is a prefix of the content if and only if the cut does not
      make it panic and what it leaks happens to be what the content goes on with. */
  lemma TruncatedTextIsPrefixIff(sizeOf: SizeReader, chunks: seq<Chunk>, last: Data, trailer: Data, n: nat)
    requires AllWellFormed(sizeOf, chunks) && AsciiLines(chunks) && AllText(chunks) && IsLast(sizeOf, last)
    requires n <= |Message(chunks, last, trailer)|
    ensures
      var r, arrived := DecodeText(sizeOf, Message(chunks, last, trailer)[..n]), TextArrived(chunks, n);
      && arrived <= Content(chunks)
      && ((r.Done? && r.text <= Content(chunks)) <==>
          !CutPanics(chunks, n) && Leak(chunks, last, n) <= Content(chunks)[|arrived|..])
  {
    hide DecodeText, Message, TextArrived, Leak, Content, Find, CutPanics, AllText;
    TruncatedText(sizeOf, chunks, last, trailer, n);
    var arrived, leak, content := TextArrived(chunks, n), Leak(chunks, last, n), Content(chunks);
    var after := content[|arrived|..];
    assert content == arrived + after;
    if arrived + leak <= content {
      assert leak == (arrived + leak)[|arrived|..] == content[|arrived|..|arrived| + |leak|];
    }
    if leak <= after {
      assert arrived + leak == content[..|arrived| + |leak|];
    }
  }

  /** Both ways of leaking framing, between any two chunks: cut between the CR and the LF
      behind the first one's data, and after the first byte of the second one's size line.
      Unless the content happens to go on with that byte, the result is not a prefix of it. */
  lemma TruncatedTextLeaks(sizeOf: SizeReader, c: Chunk, d: Chunk, last: Data, trailer: Data)
    requires WellFormed(sizeOf, c) && WellFormed(sizeOf, d) && d.line != []
    requires AsciiLines([c, d]) && AllText([c, d]) && IsLast(sizeOf, last)
    ensures
      var s, n := Message([c, d], last, trailer), |Encode(c)|;
      && n < |s| && Content([c, d]) == c.data + d.data
      && DecodeText(sizeOf, s[..n - 1]) == Done(c.data + [CR])
      && DecodeText(sizeOf, s[..n + 1]) == Done(c.data + [d.line[0]])
      && (c.data + [CR] <= Content([c, d]) <==> d.data[0] == CR)
      && (c.data + [d.line[0]] <= Content([c, d]) <==> d.data[0] == d.line[0])
  {
    hide Find, DecodeText, Dechunk, WholeChars, Valid, AllText;
    var chunks, n := [c, d], |Encode(c)|;
    assert chunks[1..] == [d] && [d][1..] == [];
    assert Content([d]) == d.data + [] == d.data;
    assert EncodeAll([d]) == Encode(d) + [] == Encode(d);
    TruncatedText(sizeOf, chunks, last, trailer, n - 1);
    TruncatedText(sizeOf, chunks, last, trailer, n + 1);
    assert TextArrived([d], 1) == [] && Leak([d], last, 1) == (d.line + CRLF)[..1] == [d.line[0]];
    assert c.data + [] == c.data;
    NextByte(c.data, d.data, CR);
    NextByte(c.data, d.data, d.line[0]);
  }

  lemma NextByte(a: Data, b: Data, x: byte)
    requires b != []
    ensures a + [x] <= a + b <==> b[0] == x
  {
    assert (a + [x])[|a|] == x && (a + b)[|a|] == b[0];
    assert (a + b)[..|a| + 1] == a + [b[0]];
  }
}
