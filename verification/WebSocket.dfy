/**
 WebSocket frames (sections 5.2 and 5.3 of RFC 6455): the server's frame builder and the
 reader that takes one frame off the connection, with its three length forms and masks.
 */
module WebSocket {
  import opened Bits
  import opened Bytes
  import opened Framing

  datatype Frame = Frame(opcode: nat, payload: Text)

  const CAP := 16 * 1024 * 1024

  // ---- building ----

  function LengthField(n: nat, masked: bool): (s: Text)
    requires n < Pow256(8)
  {
    PowersOf256();
    var m := if masked then 128 else 0;
    if n < 126 then [m + n]
    else if n <= 0xFFFF then [m + 126] + ToBE(n, 2)
    else [m + 127] + ToBE(n, 8)
  }

  /** The server's frame: FIN set (`0x80 | opcode`), unmasked. */
  function WsFrame(opcode: byte, payload: Text): (s: Text)
    requires |payload| < Pow256(8)
  {
    [128 + opcode % 128] + LengthField(|payload|, false) + payload
  }

  /** One message of the exec channel protocol: a channel byte in front of the payload. */
  function WsBinaryFrame(channel: byte, payload: Text): (s: Text)
    requires |payload| + 1 < Pow256(8)
  {
    WsFrame(2, [channel] + payload)
  }

  function Masked(payload: Text, key: Text): (r: Text)
    requires |key| == 4
    ensures |r| == |payload|
  {
    seq(|payload|, i requires 0 <= i < |payload| => Xor(payload[i], key[i % 4]))
  }

  lemma UnmaskMask(payload: Text, key: Text)
    requires |key| == 4
    ensures Masked(Masked(payload, key), key) == payload
  {
    forall i | 0 <= i < |payload|
      ensures Masked(Masked(payload, key), key)[i] == payload[i]
    {
      XorInvolutive(payload[i], key[i % 4]);
    }
  }

  /** A client's frame: FIN set, masked with `key`. */
  function ClientFrame(opcode: byte, payload: Text, key: Text): (s: Text)
    requires |payload| < Pow256(8) && |key| == 4
  {
    [128 + opcode % 128] + LengthField(|payload|, true) + key + Masked(payload, key)
  }

  /** The bytes of a server's frame in the three length forms of section 5.2. */
  lemma FrameBytes(opcode: byte, payload: Text)
    requires opcode < 16 && |payload| < Pow256(8)
    ensures
      var n, first := |payload|, 128 + opcode;
      WsFrame(opcode, payload) ==
      if n <= 125 then [first, n] + payload
      else if n <= 65535 then [first, 126, ByteOf(n, 1), ByteOf(n, 0)] + payload
      else [first, 127, ByteOf(n, 7), ByteOf(n, 6), ByteOf(n, 5), ByteOf(n, 4),
            ByteOf(n, 3), ByteOf(n, 2), ByteOf(n, 1), ByteOf(n, 0)] + payload
  {
    hide ByteOf, ToBE;
    var n := |payload|;
    if 126 <= n <= 65535 {
      BigEndianByte(n, 2, 0);
      BigEndianByte(n, 2, 1);
      assert ToBE(n, 2) == [ByteOf(n, 1), ByteOf(n, 0)] by { BigEndianLength(n, 2); }
    } else if n > 65535 {
      EightBytes(n);
    }
  }

  lemma BigEndianLength(n: nat, k: nat)
    ensures |ToBE(n, k)| == k
  {
  }

  lemma EightBytes(n: nat)
    ensures ToBE(n, 8) == [ByteOf(n, 7), ByteOf(n, 6), ByteOf(n, 5), ByteOf(n, 4),
                           ByteOf(n, 3), ByteOf(n, 2), ByteOf(n, 1), ByteOf(n, 0)]
  {
    hide ByteOf, ToBE;
    BigEndianLength(n, 8);
    BigEndianByte(n, 8, 0);
    BigEndianByte(n, 8, 1);
    BigEndianByte(n, 8, 2);
    BigEndianByte(n, 8, 3);
    BigEndianByte(n, 8, 4);
    BigEndianByte(n, 8, 5);
    BigEndianByte(n, 8, 6);
    BigEndianByte(n, 8, 7);
  }

  /** Masking turns every bit over where the mask's byte for that position has one
      (section 5.3). */
  lemma MaskedBit(payload: Text, key: Text, i: nat, bit: nat)
    requires |key| == 4 && i < |payload| && bit < 8
    ensures Bit(Masked(payload, key)[i], bit) == if Bit(payload[i], bit) == Bit(key[i % 4], bit) then 0 else 1
  {
    XorBit(payload[i], key[i % 4], 8, bit);
  }

  /** The cap is sixteen megabytes. */
  lemma CapIs(buf: Text)
    requires ReadHeader(buf).Some?
    ensures ReadFrame(buf) == Bad <==> ReadHeader(buf).value.len > 16_777_216
  {
  }

  // ---- reading ----

  /** How many bytes the length form takes and the length it gives. */
  datatype Header = Header(size: nat, len: nat)

  function ReadHeader(buf: Text): (h: Option<Header>)
    ensures h.Some? ==> 2 <= h.value.size <= |buf|
  {
    if |buf| < 2 then None
    else
      var len := buf[1] % 128;
      if len == 126 then
        if |buf| < 4 then None else Some(Header(4, FromBE(buf[2..4])))
      else if len == 127 then
        if |buf| < 10 then None else Some(Header(10, FromBE(buf[2..10])))
      else Some(Header(2, len))
  }

  /** Reads one frame from the bytes the connection will yield.  `NeedMore` is the reader
      waiting (and giving up if the connection closes), `Bad` the sanity cap. */
  function ReadFrame(buf: Text): (r: Parsed<Frame>)
    ensures r.Whole? ==> 0 < r.consumed <= |buf|
  {
    var h := ReadHeader(buf);
    if h.None? then NeedMore
    else if h.value.len > CAP then Bad
    else
      var masked := buf[1] >= 128;
      var start := h.value.size + if masked then 4 else 0;
      var end := start + h.value.len;
      if |buf| < end then NeedMore
      else
        var raw := buf[start..end];
        Whole(Frame(buf[0] % 16, if masked then Masked(raw, buf[h.value.size..start]) else raw), end)
  }

  /** The in-place unmasking loop. */
  method Unmask(payload: array<byte>, mask: Text)
    requires |mask| == 4
    modifies payload
    ensures payload[..] == Masked(old(payload[..]), mask)
  {
    for i := 0 to payload.Length
      invariant forall j :: 0 <= j < i ==> payload[j] == Masked(old(payload[..]), mask)[j]
      invariant forall j :: i <= j < payload.Length ==> payload[j] == old(payload[j])
    {
      payload[i] := Xor(payload[i], mask[i % 4]);
    }
  }

  function Reader(): (parse: Parser<Frame>)
    ensures Progresses(parse)
  {
    buf => ReadFrame(buf)
  }

  lemma HeaderIsStable(buf: Text, more: Text)
    requires ReadHeader(buf).Some?
    ensures ReadHeader(buf + more) == ReadHeader(buf)
  {
    var all := buf + more;
    assert |buf| >= 4 ==> all[2..4] == buf[2..4];
    assert |buf| >= 10 ==> all[2..10] == buf[2..10];
  }

  lemma ReadIsStable(buf: Text, more: Text)
    requires !ReadFrame(buf).NeedMore?
    ensures ReadFrame(buf + more) == ReadFrame(buf)
  {
    hide ReadHeader, Masked;
    HeaderIsStable(buf, more);
    var h := ReadHeader(buf).value;
    if h.len <= CAP {
      var start := h.size + if buf[1] >= 128 then 4 else 0;
      SliceStays(buf, more, start, start + h.len);
      SliceStays(buf, more, h.size, start);
    }
  }

  lemma SliceStays(buf: Text, more: Text, i: nat, j: nat)
    requires i <= j <= |buf|
    ensures (buf + more)[i..j] == buf[i..j]
  {
  }

  lemma ReaderIsStable()
    ensures Stable(Reader())
  {
    forall buf, more
      ensures StableAt(Reader(), buf, more)
    {
      if !ReadFrame(buf).NeedMore? {
        ReadIsStable(buf, more);
      }
    }
  }

  // ---- the reader inverts the builders ----

  /** Each of the three length forms reads back, behind any first byte and before any rest. */
  lemma HeaderRoundTrip(first: byte, n: nat, masked: bool, more: Text)
    requires n < Pow256(8)
    ensures
      var field := LengthField(n, masked);
      var s := [first] + field + more;
      && ReadHeader(s) == Some(Header(1 + |field|, n))
      && (s[1] >= 128 <==> masked)
      && s[0] == first
  {
    PowersOf256();
    if n < 126 {
    } else if n <= 0xFFFF {
      ExtendedHeader(first, n, 2, (if masked then 128 else 0) + 126, more);
    } else {
      ExtendedHeader(first, n, 8, (if masked then 128 else 0) + 127, more);
    }
  }

  lemma ExtendedHeader(first: byte, n: nat, k: nat, marker: byte, more: Text)
    requires (k == 2 && marker % 128 == 126) || (k == 8 && marker % 128 == 127)
    requires n < Pow256(k)
    ensures ReadHeader([first] + ([marker] + ToBE(n, k)) + more) == Some(Header(2 + k, n))
  {
    hide ToBE, FromBE;
    var s := [first] + ([marker] + ToBE(n, k)) + more;
    BigEndianRoundTrip(n, k);
    assert s[1] == marker;
    assert s[2..2 + k] == ToBE(n, k);
  }

  /** A server frame is read exactly when its payload is within the cap, and then the
      low four opcode bits and the payload come back and exactly the frame is consumed. */
  lemma ReadServerFrame(opcode: byte, payload: Text, more: Text)
    requires |payload| < Pow256(8)
    ensures
      var wire := WsFrame(opcode, payload);
      ReadFrame(wire + more) == if |payload| <= CAP then Whole(Frame(opcode % 16, payload), |wire|) else Bad
  {
    hide LengthField, ReadHeader, Pow256, Masked;
    var first: byte, field := 128 + opcode % 128, LengthField(|payload|, false);
    Regroup(first, field, payload, more);
    HeaderRoundTrip(first, |payload|, false, payload + more);
  }

  lemma Regroup(first: byte, field: Text, payload: Text, more: Text)
    ensures
      var s := [first] + field + payload + more;
      s == [first] + field + (payload + more) && s[1 + |field|..1 + |field| + |payload|] == payload
  {
  }

  /** A client frame under any mask key likewise. */
  lemma ReadClientFrame(opcode: byte, payload: Text, key: Text, more: Text)
    requires |payload| < Pow256(8) && |key| == 4
    ensures
      var wire := ClientFrame(opcode, payload, key);
      ReadFrame(wire + more) == if |payload| <= CAP then Whole(Frame(opcode % 16, payload), |wire|) else Bad
  {
    hide LengthField, ReadHeader, Masked;
    var field, body := LengthField(|payload|, true), Masked(payload, key);
    var s := ClientFrame(opcode, payload, key) + more;
    assert s == [128 + opcode % 128] + field + (key + body + more);
    HeaderRoundTrip(128 + opcode % 128, |payload|, true, key + body + more);
    assert s[1 + |field|..1 + |field| + 4] == key;
    assert s[1 + |field| + 4..1 + |field| + 4 + |payload|] == body;
    UnmaskMask(payload, key);
  }

  /** Either kind of frame, as it may come off one connection. */
  datatype Sent =
    | FromServer(frame: Frame)
    | FromClient(frame: Frame, key: Text)

  predicate Sendable(x: Sent)
  {
    x.frame.opcode < 16 && |x.frame.payload| <= CAP && (x.FromClient? ==> |x.key| == 4)
  }

  function Wire(x: Sent): (s: Text)
    requires Sendable(x)
  {
    PowersOf256();
    match x
    case FromServer(f) => WsFrame(f.opcode, f.payload)
    case FromClient(f, key) => ClientFrame(f.opcode, f.payload, key)
  }

  function WireAll(xs: seq<Sent>): (s: seq<Text>)
    requires forall i :: 0 <= i < |xs| ==> Sendable(xs[i])
  {
    seq(|xs|, i requires 0 <= i < |xs| => Wire(xs[i]))
  }

  function Frames(xs: seq<Sent>): (s: seq<Frame>)
  {
    seq(|xs|, i requires 0 <= i < |xs| => xs[i].frame)
  }

  lemma WireReadsBack(x: Sent)
    requires Sendable(x)
    ensures Encodes(Reader(), Wire(x), x.frame)
  {
    hide WsFrame, ClientFrame, ReadFrame;
    PowersOf256();
    forall more: Text
      ensures Reader()(Wire(x) + more) == Whole(x.frame, |Wire(x)|)
    {
      match x {
        case FromServer(f) => ReadServerFrame(f.opcode, f.payload, more);
        case FromClient(f, key) => ReadClientFrame(f.opcode, f.payload, key, more);
      }
    }
  }

  /** Any concatenation of frames, masked or not and of any mix of lengths, reads back as
      the same list of opcodes and payloads, and exactly those bytes are consumed. */
  lemma ReadConcatenation(xs: seq<Sent>, more: Text)
    requires forall i :: 0 <= i < |xs| ==> Sendable(xs[i])
    ensures
      var rest := Drain(Reader(), more);
      Drain(Reader(), Flatten(WireAll(xs)) + more) == Drained(Frames(xs) + rest.items, rest.rest)
  {
    hide Wire;
    forall i | 0 <= i < |xs|
      ensures Encodes(Reader(), WireAll(xs)[i], Frames(xs)[i])
    {
      WireReadsBack(xs[i]);
    }
    DrainFrames(Reader(), WireAll(xs), Frames(xs), more);
  }

  /** A reader that gets the same bytes in any pieces: whatever has arrived yields the first
      frames of the list, and what is left of it yields the others once the rest arrives. */
  method ReadCut(xs: seq<Sent>, segments: seq<Text>) returns (frames: seq<Frame>)
    requires forall i :: 0 <= i < |xs| ==> Sendable(xs[i])
    requires Flatten(segments) == Flatten(WireAll(xs))
    ensures frames == Frames(xs)
  {
    hide Wire, ReadFrame, WireAll, Frames;
    ReaderIsStable();
    var parse := Reader();
    var acc: Text := [];
    frames := [];
    NothingRead();
    for n := 0 to |segments|
      invariant InStep(parse, [], segments, n, frames, acc)
    {
      frames, acc := Receive(parse, [], segments, n, frames, acc);
    }
    assert segments[..|segments|] == segments;
    assert [] + Flatten(segments) == Flatten(segments);
    ReadConcatenation(xs, []);
    assert Flatten(WireAll(xs)) + [] == Flatten(WireAll(xs));
    assert Frames(xs) + [] == Frames(xs);
  }

  lemma NothingRead()
    ensures Drain(Reader(), []) == Drained([], [])
  {
  }

  /** After any number of bytes the frames read are the first ones of the list, and none of
      them changes when more arrives. */
  lemma PartialStream(xs: seq<Sent>, n: nat)
    requires forall i :: 0 <= i < |xs| ==> Sendable(xs[i])
    requires n <= |Flatten(WireAll(xs))|
    ensures
      var wire := Flatten(WireAll(xs));
      var first := Drain(Reader(), wire[..n]);
      first.items <= Frames(xs)
      && Drain(Reader(), first.rest + wire[n..]) == Drained(Frames(xs)[|first.items|..], [])
  {
    hide Wire, ReadFrame, WireAll, Frames, Drain;
    var wire := Flatten(WireAll(xs));
    ReaderIsStable();
    NothingRead();
    ReadConcatenation(xs, []);
    assert wire + [] == wire && Frames(xs) + [] == Frames(xs);
    DrainIsIncremental(Reader(), wire[..n], wire[n..]);
    assert wire[..n] + wire[n..] == wire;
    var first := Drain(Reader(), wire[..n]);
    var second := Drain(Reader(), first.rest + wire[n..]);
    assert (first.items + second.items)[|first.items|..] == second.items;
  }
}
