/**
 Docker's multiplexed exec stream behind an HTTP response head.

 Captured exec reads the whole stream and demultiplexes it in one loop; interactive exec
 demultiplexes as chunks arrive and forwards messages over a WebSocket.  The two are
 compared on every stream and every cut of it into chunks.
 */
module StreamDemux {
  import opened Bytes
  import opened Framing
  import opened Strings
  import Chunked
  import WebSocket

  const STDOUT: byte := 1
  const STDERR: byte := 2

  /** One message of the channel protocol. */
  datatype Message = Message(channel: byte, payload: Text)

  // ---- Docker frames: {type, 0, 0, 0, length, payload} ----

  function DockerFrame(buf: Text): (r: Parsed<Message>)
    ensures r.Whole? ==> 0 < r.consumed <= |buf|
  {
    if |buf| < 8 then NeedMore
    else
      var len := FromBE(buf[4..8]);
      if |buf| < 8 + len then NeedMore
      else Whole(Message(if buf[0] == STDERR then STDERR else STDOUT, buf[8..8 + len]), 8 + len)
  }

  function Docker(): (parse: Parser<Message>)
    ensures Progresses(parse)
  {
    buf => DockerFrame(buf)
  }

  lemma DockerIsStable()
    ensures Stable(Docker())
  {
    forall buf, more
      ensures StableAt(Docker(), buf, more)
    {
      if !DockerFrame(buf).NeedMore? {
        var len := FromBE(buf[4..8]);
        assert (buf + more)[4..8] == buf[4..8];
        assert (buf + more)[8..8 + len] == buf[8..8 + len];
      }
    }
  }

  function DockerEncode(stype: byte, payload: Text): (s: Text)
  {
    [stype, 0, 0, 0] + ToBE(|payload|, 4) + payload
  }

  lemma DockerReadsBack(stype: byte, payload: Text)
    requires |payload| < Pow256(4)
    ensures Encodes(Docker(), DockerEncode(stype, payload), Message(if stype == STDERR then STDERR else STDOUT, payload))
  {
    var wire := DockerEncode(stype, payload);
    BigEndianRoundTrip(|payload|, 4);
    forall more: Text
      ensures DockerFrame(wire + more) == Whole(Message(if stype == STDERR then STDERR else STDOUT, payload), |wire|)
    {
      assert (wire + more)[4..8] == ToBE(|payload|, 4);
      assert (wire + more)[8..8 + |payload|] == payload;
    }
  }

  /** The bytes sent on one channel, in order. */
  function OnChannel(messages: seq<Message>, channel: byte): (r: Text)
  {
    if messages == [] then []
    else OnChannel(messages[..|messages| - 1], channel) +
         if messages[|messages| - 1].channel == channel then messages[|messages| - 1].payload else []
  }

  // ---- the batch demultiplexer ----

  /** What the batch loop takes of a last, incomplete frame: the part of its payload that
      did arrive. */
  function Leftover(rest: Text, channel: byte): (r: Text)
  {
    if |rest| >= 8 && (rest[0] == STDERR <==> channel == STDERR) then rest[8..] else []
  }

  /** `items` are the frames before position `i` of the payload. */
  ghost predicate BatchAt(payload: Text, i: nat, items: seq<Message>)
  {
    i <= |payload| &&
    var d := Drain(Docker(), payload[i..]);
    Drain(Docker(), payload) == Drained(items + d.items, d.rest)
  }

  lemma TakeFrame(payload: Text, i: nat, items: seq<Message>, m: Message, len: nat)
    requires BatchAt(payload, i, items) && i + 8 + len <= |payload|
    requires DockerFrame(payload[i..]) == Whole(m, 8 + len)
    ensures BatchAt(payload, i + 8 + len, items + [m])
  {
    hide DockerFrame;
    assert payload[i..][8 + len..] == payload[i + 8 + len..];
    Assoc(items, [m], Drain(Docker(), payload[i + 8 + len..]).items);
  }

  lemma NoFrame(payload: Text, i: nat, items: seq<Message>)
    requires BatchAt(payload, i, items) && DockerFrame(payload[i..]).NeedMore?
    ensures Drain(Docker(), payload) == Drained(items, payload[i..])
  {
    hide DockerFrame;
    assert items + [] == items;
  }

  lemma OnChannelSnoc(items: seq<Message>, m: Message, channel: byte)
    ensures OnChannel(items + [m], channel) == OnChannel(items, channel) + if m.channel == channel then m.payload else []
  {
    assert (items + [m])[..|items|] == items;
  }

  method DemuxBatch(payload: Text) returns (stdout: Text, stderr: Text)
    ensures
      var d := Drain(Docker(), payload);
      && stdout == OnChannel(d.items, STDOUT) + Leftover(d.rest, STDOUT)
      && stderr == OnChannel(d.items, STDERR) + Leftover(d.rest, STDERR)
  {
    hide FromBE, Drain, OnChannel, BatchAt;
    stdout, stderr := [], [];
    var i := 0;
    ghost var items: seq<Message> := [];
    StartBatch(payload);
    while i + 8 <= |payload|
      invariant 0 <= i <= |payload|
      invariant stdout == OnChannel(items, STDOUT) && stderr == OnChannel(items, STDERR)
      invariant BatchAt(payload, i, items)
    {
      var stype := payload[i];
      var len := FromBE(payload[i + 4..i + 8]);
      assert payload[i..][4..8] == payload[i + 4..i + 8];
      var end := if i + 8 + len < |payload| then i + 8 + len else |payload|;
      assert payload[i..][8..end - i] == payload[i + 8..end];
      ghost var m := Message(if stype == STDERR then STDERR else STDOUT, payload[i + 8..end]);
      OnChannelSnoc(items, m, STDOUT);
      OnChannelSnoc(items, m, STDERR);
      if stype == STDERR {
        stderr := stderr + payload[i + 8..end];
      } else {
        stdout := stdout + payload[i + 8..end];
      }
      if i + 8 + len > |payload| {
        NoFrame(payload, i, items);
        return;
      }
      TakeFrame(payload, i, items, m, len);
      items := items + [m];
      i := end;
    }
    NoFrame(payload, i, items);
  }

  lemma StartBatch(payload: Text)
    ensures BatchAt(payload, 0, []) && OnChannel([], STDOUT) == [] == OnChannel([], STDERR)
  {
    assert payload[0..] == payload;
    assert [] + Drain(Docker(), payload).items == Drain(Docker(), payload).items;
  }

  // ---- the incremental demultiplexer ----

  /** What follows the HTTP response head. */
  function Body(raw: Text): (r: Option<Text>)
  {
    match Find(raw, CRLFCRLF)
    case Some(pos) => Some(raw[pos + 4..])
    case None => None
  }

  lemma BodyGrows(raw: Text, more: Text)
    requires Body(raw).Some?
    ensures Body(raw + more) == Some(Body(raw).value + more)
  {
    FindStable(raw, CRLFCRLF, more);
    var pos := Find(raw, CRLFCRLF).value;
    assert (raw + more)[pos + 4..] == raw[pos + 4..] + more;
  }

  function Messages(raw: Text): (r: seq<Message>)
  {
    match Body(raw)
    case Some(body) => Drain(Docker(), body).items
    case None => []
  }

  function Payloads(messages: seq<Message>): (r: seq<Text>)
    ensures |r| == |messages|
  {
    seq(|messages|, i requires 0 <= i < |messages| => messages[i].payload)
  }

  // State of the forwarding task between chunks, and within one chunk.

  ghost predicate AllStdout(sent: seq<Message>)
  {
    forall i :: 0 <= i < |sent| ==> sent[i].channel == STDOUT
  }

  ghost predicate Forwarded(raw: Text, tty: bool, headDone: bool, carry: Text, sent: seq<Message>)
  {
    && (headDone <==> Body(raw).Some?)
    && (!headDone ==> carry == raw && sent == [])
    && (headDone && !tty ==> Drain(Docker(), Body(raw).value) == Drained(sent, carry))
    && (headDone && tty ==> carry == [] && AllStdout(sent) && Flatten(Payloads(sent)) == Body(raw).value)
  }

  /** `data` is what has to be dealt with, `sent` what has been. */
  ghost predicate Pending(raw: Text, tty: bool, data: Text, sent: seq<Message>)
  {
    && Body(raw).Some?
    && (tty ==> AllStdout(sent) && Flatten(Payloads(sent)) + data == Body(raw).value)
    && (!tty ==>
          var d := Drain(Docker(), data);
          Drain(Docker(), Body(raw).value) == Drained(sent + d.items, d.rest))
  }

  lemma HeadArrives(data: Text, tty: bool, pos: nat)
    requires Find(data, CRLFCRLF) == Some(pos)
    ensures Pending(data, tty, data[pos + 4..], [])
  {
    hide Find;
    var body := data[pos + 4..];
    assert [] + Drain(Docker(), body).items == Drain(Docker(), body).items;
    assert Flatten(Payloads([])) + body == body;
  }

  lemma BodyContinues(raw: Text, tty: bool, carry: Text, sent: seq<Message>, chunk: Text)
    requires Forwarded(raw, tty, true, carry, sent)
    ensures Pending(raw + chunk, tty, carry + chunk, sent)
  {
    hide Body;
    DockerIsStable();
    BodyGrows(raw, chunk);
    if tty {
      assert carry + chunk == chunk;
    } else {
      DrainIsIncremental(Docker(), Body(raw).value, chunk);
    }
  }

  lemma NothingPending(raw: Text, tty: bool, sent: seq<Message>)
    requires Pending(raw, tty, [], sent)
    ensures Forwarded(raw, tty, true, [], sent)
  {
    hide Body;
    assert sent + [] == sent;
    assert Flatten(Payloads(sent)) + [] == Flatten(Payloads(sent));
  }

  lemma SendRaw(raw: Text, data: Text, sent: seq<Message>)
    requires Pending(raw, true, data, sent)
    ensures Forwarded(raw, true, true, [], sent + [Message(STDOUT, data)])
  {
    hide Body;
    assert Payloads(sent + [Message(STDOUT, data)]) == Payloads(sent) + [data];
    FlattenSnoc(Payloads(sent), data);
  }

  /** The task that turns Docker's output into WebSocket messages: strip the head, then
      either forward raw chunks (a terminal) or demultiplex with a carried remainder.
      However the stream is cut, the messages are those of the whole stream; on a terminal
      they are all on stdout and concatenate to the body. */
  method ForwardOutput(chunks: seq<Text>, tty: bool) returns (sent: seq<Message>)
    ensures !tty ==> sent == Messages(Flatten(chunks))
    ensures tty ==> Flatten(Payloads(sent)) == (if Body(Flatten(chunks)).Some? then Body(Flatten(chunks)).value else [])
    ensures tty ==> AllStdout(sent)
  {
    hide Find, Drain;
    sent := [];
    var headDone := false;
    var carry: Text := [];
    assert forall j: nat :: !OccursAt<byte>([], CRLFCRLF, j);
    for n := 0 to |chunks|
      invariant Forwarded(Flatten(chunks[..n]), tty, headDone, carry, sent)
    {
      ghost var raw := Flatten(chunks[..n]);
      FlattenSnoc(chunks[..n], chunks[n]);
      assert chunks[..n + 1] == chunks[..n] + [chunks[n]];
      var data := carry + chunks[n];
      if !headDone {
        var pos := Find(data, CRLFCRLF);
        if pos.None? {
          carry := data;
          continue;
        }
        HeadArrives(data, tty, pos.value);
        data := data[pos.value + 4..];
        headDone := true;
        if data == [] {
          NothingPending(raw + chunks[n], tty, sent);
          carry := [];
          continue;
        }
      } else {
        BodyContinues(raw, tty, carry, sent, chunks[n]);
      }
      if tty {
        SendRaw(raw + chunks[n], data, sent);
        carry := [];
        sent := sent + [Message(STDOUT, data)];
      } else {
        var batch: seq<Message>;
        batch, carry := DrainLoop(Docker(), data);
        sent := sent + batch;
      }
    }
    assert chunks[..|chunks|] == chunks;
  }

  // ---- the two agree ----

  /** The head announces a transfer encoding, in any letter case. */
  predicate IsChunked(head: Text)
  {
    Find(Lower(AsText(head)), "transfer-encoding: ").Some?
  }

  const FIELD := "transfer-encoding: "

  /** The byte is the ASCII letter or sign, a letter in either case. */
  predicate EitherCase(b: byte, c: char)
  {
    b == c as int || ('a' <= c <= 'z' && b == c as int - 32)
  }

  /** The field name, its colon and one blank stand at position `i`. */
  predicate FieldAt(head: Text, i: nat)
  {
    i + |FIELD| <= |head| && forall j :: 0 <= j < |FIELD| ==> EitherCase(head[i + j], FIELD[j])
  }

  /** Byte by byte, and in whatever mix of cases. */
  lemma IsChunkedIff(head: Text)
    ensures IsChunked(head) <==> exists i :: FieldAt(head, i)
  {
    var text := Lower(AsText(head));
    forall i: nat
      ensures OccursAt(text, FIELD, i) <==> FieldAt(head, i)
    {
      if i + |FIELD| <= |head| {
        forall j | 0 <= j < |FIELD|
          ensures text[i..i + |FIELD|][j] == FIELD[j] <==> EitherCase(head[i + j], FIELD[j])
        {
          LowerOf(head, i + j, FIELD[j]);
        }
        if FieldAt(head, i) {
          assert text[i..i + |FIELD|] == FIELD;
        }
      }
    }
  }

  lemma LowerOf(head: Text, k: nat, c: char)
    requires k < |head| && c < '\U{80}' && !('A' <= c <= 'Z')
    ensures Lower(AsText(head))[k] == c <==> EitherCase(head[k], c)
  {
  }

  /** The usual spelling, anywhere in the head. */
  lemma UsualSpellingIsChunked(before: Text, after: Text)
    ensures IsChunked(before + Ascii("Transfer-Encoding: chunked") + after)
  {
    var field := Ascii("Transfer-Encoding: chunked");
    var head := before + field + after;
    forall j | 0 <= j < |FIELD|
      ensures EitherCase(head[|before| + j], FIELD[j])
    {
      assert head[|before| + j] == field[j];
      SpellingOf(field, j);
    }
    assert FieldAt(head, |before|);
    IsChunkedIff(head);
  }

  lemma SpellingOf(field: Text, j: nat)
    requires field == Ascii("Transfer-Encoding: chunked") && j < |FIELD|
    ensures EitherCase(field[j], FIELD[j])
  {
    assert field[j] == "Transfer-Encoding: chunked"[j] as int by {
      assert AsText(field)[j] == "Transfer-Encoding: chunked"[j];
    }
  }

  /** What captured exec demultiplexes: the bytes after the head, dechunked if need be; a
      response without a head is taken whole. */
  function CapturedBody(raw: Text): (payload: Text)
  {
    var head := Find(raw, CRLFCRLF);
    var start := if head.Some? then head.value + 4 else 0;
    if IsChunked(raw[..start]) then Chunked.Dechunk(Chunked.HexSize, raw[start..]) else raw[start..]
  }

  method ExecCapture(raw: Text) returns (stdout: Text, stderr: Text)
    ensures
      var d := Drain(Docker(), CapturedBody(raw));
      && stdout == OnChannel(d.items, STDOUT) + Leftover(d.rest, STDOUT)
      && stderr == OnChannel(d.items, STDERR) + Leftover(d.rest, STDERR)
  {
    hide Drain, OnChannel, Find, IsChunked;
    var head := Find(raw, CRLFCRLF);
    var start := if head.Some? then head.value + 4 else 0;
    var payload := raw[start..];
    if IsChunked(raw[..start]) {
      payload := Chunked.DechunkBytes(Chunked.HexSize, payload);
    }
    stdout, stderr := DemuxBatch(payload);
  }

  /** Behind a chunked head and a complete message, what is demultiplexed is the chunks' data,
      however they were cut; so the channels are those of the data. */
  lemma CapturesChunkedContent(head: Text, chunks: seq<Chunked.Chunk>, last: Text, trailer: Text)
    requires IsChunked(head + CRLFCRLF) && Find(head + CRLFCRLF, CRLFCRLF) == Some(|head|)
    requires Chunked.AllWellFormed(Chunked.HexSize, chunks) && Chunked.IsLast(Chunked.HexSize, last)
    ensures CapturedBody(head + CRLFCRLF + Chunked.Message(chunks, last, trailer)) == Chunked.Content(chunks)
  {
    hide Find, IsChunked, Chunked.Dechunk, Chunked.Message, Chunked.Content;
    var body := Chunked.Message(chunks, last, trailer);
    Chunked.DechunkInvertsEncoding(Chunked.HexSize, chunks, last, trailer);
    BodyBehind(head, body);
    BodyParts(head + CRLFCRLF + body);
  }

  /** What captured exec returns for a channel. */
  function Captured(d: Drained<Message>, channel: byte): (r: Text)
  {
    OnChannel(d.items, channel) + Leftover(d.rest, channel)
  }

  /** The head of a response that has one. */
  function HeadOf(raw: Text): (r: Text)
  {
    match Find(raw, CRLFCRLF)
    case Some(pos) => raw[..pos + 4]
    case None => []
  }

  /** Nothing in it for either channel. */
  ghost predicate Quiet(d: Drained<Message>)
  {
    |d.rest| <= 8 && forall m :: m in d.items ==> m.payload == []
  }

  /** When the channels agree.  Without a head interactive exec sends nothing, so captured
      exec must have found nothing; behind an unchunked head the stream must not end inside a
      frame's payload.  Behind a chunked one interactive exec takes the chunked bytes
      themselves for frames: if they do not even start with a complete one it sends nothing,
      else what it sends has to be the same. */
  ghost predicate Agreement(raw: Text)
  {
    match Body(raw)
    case None => Quiet(Drain(Docker(), raw))
    case Some(body) =>
      var wire := Drain(Docker(), body);
      if !IsChunked(HeadOf(raw)) then |wire.rest| <= 8
      else
        var d := Drain(Docker(), Chunked.Dechunk(Chunked.HexSize, body));
        if DockerFrame(body).NeedMore? then Quiet(d)
        else Captured(d, STDOUT) == OnChannel(wire.items, STDOUT) && Captured(d, STDERR) == OnChannel(wire.items, STDERR)
  }

  /** One stream through both programs, for every stream and every cut into chunks. */
  method BothWays(chunks: seq<Text>) returns (agree: bool)
    ensures agree <==> Agreement(Flatten(chunks))
  {
    hide Find, Drain, OnChannel, Messages, IsChunked, Agreement, Body, CapturedBody, HeadOf;
    ghost var raw := Flatten(chunks);
    var sent := ForwardOutput(chunks, false);
    var stdout, stderr := ExecCapture(Flatten(chunks));
    agree := stdout == OnChannel(sent, STDOUT) && stderr == OnChannel(sent, STDERR);
    ChannelsAgree(raw);
  }

  lemma ChannelsAgree(raw: Text)
    ensures
      var d, sent := Drain(Docker(), CapturedBody(raw)), Messages(raw);
      (Captured(d, STDOUT) == OnChannel(sent, STDOUT) && Captured(d, STDERR) == OnChannel(sent, STDERR))
      <==> Agreement(raw)
  {
    hide Find, Drain, OnChannel, IsChunked, DockerFrame, Chunked.Dechunk;
    var d, sent := Drain(Docker(), CapturedBody(raw)), Messages(raw);
    BodyParts(raw);
    NoMessages(STDOUT);
    NoMessages(STDERR);
    QuietMeansNothing(CapturedBody(raw));
    if Body(raw).Some? {
      AppendsNothing(OnChannel(sent, STDOUT), Leftover(d.rest, STDOUT));
      AppendsNothing(OnChannel(sent, STDERR), Leftover(d.rest, STDERR));
      if DockerFrame(Body(raw).value).NeedMore? {
        NoFrameAtAll(Body(raw).value);
      }
    }
  }

  lemma NoFrameAtAll(body: Text)
    requires DockerFrame(body).NeedMore?
    ensures Drain(Docker(), body).items == []
  {
  }

  lemma QuietMeansNothing(payload: Text)
    ensures
      var d := Drain(Docker(), payload);
      (Captured(d, STDOUT) == [] && Captured(d, STDERR) == []) <==> Quiet(d)
  {
    hide Drain, OnChannel;
    DockerChannels(payload);
    NothingCaptured(Drain(Docker(), payload).items);
  }

  lemma NoMessages(channel: byte)
    ensures OnChannel([], channel) == []
  {
  }

  lemma BodyParts(raw: Text)
    ensures CapturedBody(raw) ==
            match Body(raw)
            case None => raw
            case Some(body) => if IsChunked(HeadOf(raw)) then Chunked.Dechunk(Chunked.HexSize, body) else body
  {
    if Body(raw).None? {
      assert raw[..0] == [] && raw[0..] == raw;
      assert Lower(AsText([])) == "";
    }
  }

  /** Every message is on one of the two channels. */
  lemma {:induction false} DockerChannels(raw: Text)
    ensures forall m :: m in Drain(Docker(), raw).items ==> m.channel == STDOUT || m.channel == STDERR
    decreases |raw|
  {
    var p := DockerFrame(raw);
    if p.Whole? {
      FrameChannel(raw);
      hide DockerFrame;
      DockerChannels(raw[p.consumed..]);
    }
  }

  function Quad(a: int, b: int, c: int, d: int): (n: int)
  {
    ((a * 256 + b) * 256 + c) * 256 + d
  }

  /** A frame of type 2 is for channel 2, any other for channel 1, and its payload has the
      length announced in bytes 4 to 7, most significant first. */
  lemma FrameIs(buf: Text)
    requires DockerFrame(buf).Whole?
    ensures
      var len := Quad(buf[4], buf[5], buf[6], buf[7]);
      && DockerFrame(buf).item.channel == (if buf[0] == 2 then 2 else 1)
      && |buf| >= 8 + len && DockerFrame(buf).item.payload == buf[8..8 + len] && DockerFrame(buf).consumed == 8 + len
  {
    FourBytes(buf, 4);
    BigEndian(buf[4], buf[5], buf[6], buf[7]);
  }

  lemma FrameChannel(buf: Text)
    requires DockerFrame(buf).Whole?
    ensures DockerFrame(buf).item.channel == STDOUT || DockerFrame(buf).item.channel == STDERR
  {
  }

  lemma {:induction false} NothingCaptured(items: seq<Message>)
    requires forall m :: m in items ==> m.channel == STDOUT || m.channel == STDERR
    ensures OnChannel(items, STDOUT) == [] == OnChannel(items, STDERR) <==> forall m :: m in items ==> m.payload == []
  {
    if items != [] {
      var init, last := items[..|items| - 1], items[|items| - 1];
      NothingCaptured(init);
      assert forall m :: m in items <==> m in init || m == last;
      assert last.payload != [] ==> OnChannel(items, last.channel) != [];
    }
  }

  // ---- chunked streams ----

  /** The body starts with a size line of at least two characters, then a frame header for
      stdout or stderr. */
  predicate OrdinaryChunks(body: Text, line: Text)
  {
    && |line| >= 2 && (forall i :: 0 <= i < |line| ==> line[i] >= 48)
    && |line| + 6 <= |body| && body[..|line| + 2] == line + CRLF
    && (body[|line| + 2] == STDOUT || body[|line| + 2] == STDERR)
  }

  /** So starts every chunked stream whose first chunk has at least sixteen bytes and begins
      with a frame for stdout or stderr. */
  lemma EncodedIsOrdinary(data: Text, more: Text)
    requires 16 <= |data| < Chunked.USIZE && (data[0] == STDOUT || data[0] == STDERR)
    ensures
      var line := Chunked.SizeLine(|data|);
      OrdinaryChunks(Chunked.Encode(Chunked.Chunk(line, data)) + more, line)
  {
    var line := Chunked.SizeLine(|data|);
    SizeLineDigits(|data|);
    var body := Chunked.Encode(Chunked.Chunk(line, data)) + more;
    hide Chunked.SizeLine;
    assert body[..|line| + 2] == line + CRLF;
    assert body[|line| + 2] == data[0];
  }

  lemma SizeLineDigits(n: nat)
    requires n >= 16
    ensures |Chunked.SizeLine(n)| >= 2 && forall i :: 0 <= i < |Chunked.SizeLine(n)| ==> Chunked.SizeLine(n)[i] >= 48
  {
    var line, t := Chunked.SizeLine(n), ToRadix(n, 16);
    RadixRoundTrip(n, 16);
    assert t == ToRadix(n / 16, 16) + [DigitChar(n % 16)];
    forall i | 0 <= i < |line|
      ensures line[i] >= 48
    {
      assert AsText(line)[i] == t[i] && DigitValue(t[i], 16).Some?;
    }
  }

  /** The length interactive exec reads from such a body has a non-zero top byte. */
  lemma MisreadLength(body: Text, line: Text)
    requires OrdinaryChunks(body, line) && |body| < 0x100_0000
    ensures DockerFrame(body).NeedMore?
  {
    assert forall i :: 0 <= i < |line| + 2 ==> body[i] == (line + CRLF)[i];
    assert body[4] != 0 by {
      if |line| >= 5 {
        assert body[4] == line[4];
      }
    }
    if |body| >= 8 {
      assert body[4..8] == [body[4], body[5], body[6], body[7]];
      BigEndian(body[4], body[5], body[6], body[7]);
    }
  }

  /** For every such stream below sixteen megabytes, whatever is in it: interactive exec sends
      nothing, so the two agree if and only if nothing is captured. */
  lemma ChunkedStreamsAgreeIff(head: Text, body: Text, line: Text)
    requires IsChunked(head + CRLFCRLF) && Find(head + CRLFCRLF, CRLFCRLF) == Some(|head|)
    requires OrdinaryChunks(body, line) && |body| < 0x100_0000
    ensures
      var raw := head + CRLFCRLF + body;
      && Messages(raw) == []
      && (Agreement(raw) <==> Quiet(Drain(Docker(), Chunked.Dechunk(Chunked.HexSize, body))))
  {
    hide Find, IsChunked, Drain, DockerFrame, Chunked.Dechunk;
    MisreadLength(body, line);
    BodyBehind(head, body);
    NoFrameAtAll(body);
  }

  function OneByteChunk(stype: byte, x: byte): (c: Chunked.Chunk)
  {
    Chunked.Chunk(Chunked.SizeLine(9), DockerEncode(stype, [x]))
  }

  /** One frame with one byte, sent as one chunk and the last-chunk line. */
  function OneByteChunked(stype: byte, x: byte): (body: Text)
  {
    Chunked.Message([OneByteChunk(stype, x)], Chunked.SizeLine(0), CRLF)
  }

  /** With a size line of one character, too, for every type and byte: the capture yields the
      byte, the interactive side takes the size line for an empty frame and yields nothing. */
  lemma ShortSizeLineDisagrees(head: Text, stype: byte, x: byte)
    requires IsChunked(head + CRLFCRLF) && Find(head + CRLFCRLF, CRLFCRLF) == Some(|head|)
    ensures
      var raw := head + CRLFCRLF + OneByteChunked(stype, x);
      var channel := if stype == STDERR then STDERR else STDOUT;
      && Drain(Docker(), CapturedBody(raw)) == Drained([Message(channel, [x])], [])
      && OnChannel(Messages(raw), STDOUT) == [] == OnChannel(Messages(raw), STDERR)
      && !Agreement(raw)
  {
    hide Find, IsChunked, Drain, OnChannel, DockerFrame, OneByteChunked, Agreement, Leftover, Chunked.Dechunk;
    var body, channel := OneByteChunked(stype, x), if stype == STDERR then STDERR else STDOUT;
    var raw := head + CRLFCRLF + body;
    BodyBehind(head, body);
    hide Body, HeadOf, CapturedBody;
    BodyParts(raw);
    DechunkOneByte(stype, x);
    MisreadOneByte(stype, x);
    OneMessage(Message(channel, [x]));
    OneMessage(Message(STDOUT, []));
    ChannelsAgree(raw);
    NothingLeft(channel);
  }

  lemma NothingLeft(channel: byte)
    ensures Leftover([], channel) == []
  {
  }

  lemma BodyBehind(head: Text, body: Text)
    requires Find(head + CRLFCRLF, CRLFCRLF) == Some(|head|)
    ensures
      var raw := head + CRLFCRLF + body;
      Body(raw) == Some(body) && HeadOf(raw) == head + CRLFCRLF
  {
    hide Find;
    var raw := head + CRLFCRLF + body;
    FindStable(head + CRLFCRLF, CRLFCRLF, body);
    assert raw[|head| + 4..] == body && raw[..|head| + 4] == head + CRLFCRLF;
  }

  lemma OneMessage(m: Message)
    ensures OnChannel([m], m.channel) == m.payload
    ensures m.payload == [] ==> forall c: byte :: OnChannel([m], c) == []
  {
    assert [] + [m] == [m];
    forall c: byte
      ensures OnChannel([m], c) == if m.channel == c then m.payload else []
    {
      OnChannelSnoc([], m, c);
      NoMessages(c);
    }
  }

  lemma DechunkOneByte(stype: byte, x: byte)
    ensures
      var channel := if stype == STDERR then STDERR else STDOUT;
      Drain(Docker(), Chunked.Dechunk(Chunked.HexSize, OneByteChunked(stype, x))) == Drained([Message(channel, [x])], [])
  {
    hide Chunked.Dechunk, Chunked.ParseText, Chunked.SizeLine, Chunked.HexSize, Drain, DockerEncode;
    var c := OneByteChunk(stype, x);
    EncodedLength(stype, [x]);
    Chunked.SizeLineIsWellFormed(c.data);
    Chunked.LastLineIsWellFormed();
    Chunked.DechunkInvertsEncoding(Chunked.HexSize, [c], Chunked.SizeLine(0), CRLF);
    assert [c][1..] == [];
    assert Chunked.Content([c]) == c.data + [] == c.data;
    OneFrameDrains(stype, [x]);
  }

  lemma EncodedLength(stype: byte, payload: Text)
    ensures |DockerEncode(stype, payload)| == 8 + |payload|
  {
  }

  lemma OneFrameDrains(stype: byte, payload: Text)
    requires |payload| < Pow256(4)
    ensures Drain(Docker(), DockerEncode(stype, payload)) ==
            Drained([Message(if stype == STDERR then STDERR else STDOUT, payload)], [])
  {
    hide DockerEncode, DockerFrame;
    var wire := DockerEncode(stype, payload);
    DockerReadsBack(stype, payload);
    DrainOneFrame(Docker(), wire, Message(if stype == STDERR then STDERR else STDOUT, payload), []);
    assert wire + [] == wire;
    NoBytesNoFrame();
  }

  /** The size line and the first bytes of the frame pass for an empty frame; what follows
      announces more bytes than there are. */
  lemma MisreadOneByte(stype: byte, x: byte)
    ensures Drain(Docker(), OneByteChunked(stype, x)).items == [Message(STDOUT, [])]
  {
    hide OneByteChunked, FromBE;
    var body := OneByteChunked(stype, x);
    ChunkedBytes(stype, x);
    BigEndian(0, 0, 0, 0);
    BigEndian(13, 10, 48, 13);
    FourBytes(body, 4);
    FourBytes(body[8..], 4);
    assert body[8..8] == [];
    assert DockerFrame(body) == Whole(Message(STDOUT, []), 8);
    assert DockerFrame(body[8..]) == NeedMore;
  }

  lemma FourBytes(s: Text, i: nat)
    requires i + 4 <= |s|
    ensures s[i..i + 4] == [s[i], s[i + 1], s[i + 2], s[i + 3]]
  {
  }

  lemma BigEndian(a: byte, b: byte, c: byte, d: byte)
    ensures FromBE([a, b, c, d]) == ((a * 256 + b) * 256 + c) * 256 + d
  {
    assert [a][..0] == [] && FromBE([a]) == a;
    assert [a, b][..1] == [a] && FromBE([a, b]) == a * 256 + b;
    assert [a, b, c][..2] == [a, b] && FromBE([a, b, c]) == (a * 256 + b) * 256 + c;
    assert [a, b, c, d][..3] == [a, b, c];
  }

  lemma ChunkedBytes(stype: byte, x: byte)
    ensures OneByteChunked(stype, x) == [57, 13, 10, stype, 0, 0, 0, 0, 0, 0, 1, x, 13, 10, 48, 13, 10, 13, 10]
  {
    hide Chunked.SizeLine, ToBE;
    var c := OneByteChunk(stype, x);
    SizeLines();
    OneInFourBytes();
    assert c.data == [stype, 0, 0, 0, 0, 0, 0, 1, x];
    assert [c][1..] == [];
    assert Chunked.EncodeAll([c]) == Chunked.Encode(c) + [] == Chunked.Encode(c);
    assert Chunked.Encode(c) == [57, 13, 10, stype, 0, 0, 0, 0, 0, 0, 1, x, 13, 10];
  }

  lemma SizeLines()
    ensures Chunked.SizeLine(9) == [57] && Chunked.SizeLine(0) == [48]
  {
    assert ToRadix(9, 16) == "9" && ToRadix(0, 16) == "0";
  }

  lemma OneInFourBytes()
    ensures ToBE(1, 4) == [0, 0, 0, 1]
  {
    assert ToBE(0, 0) == [] && ToBE(0, 1) == [0] && ToBE(0, 2) == [0, 0] && ToBE(0, 3) == [0, 0, 0];
  }

  lemma AppendsNothing(a: Text, b: Text)
    ensures a + b == a <==> b == []
  {
  }

  /** A stream of complete frames of either kind leaves nothing over. */
  lemma CompleteFramesLeaveNothing(types: seq<byte>, payloads: seq<Text>)
    requires |types| == |payloads|
    requires forall i :: 0 <= i < |payloads| ==> |payloads[i]| < Pow256(4)
    ensures
      var wires := seq(|types|, i requires 0 <= i < |types| => DockerEncode(types[i], payloads[i]));
      var items := seq(|types|, i requires 0 <= i < |types| =>
                         Message(if types[i] == STDERR then STDERR else STDOUT, payloads[i]));
      Drain(Docker(), Flatten(wires)) == Drained(items, [])
  {
    hide DockerEncode, DockerFrame;
    var wires := seq(|types|, i requires 0 <= i < |types| => DockerEncode(types[i], payloads[i]));
    var items := seq(|types|, i requires 0 <= i < |types| =>
                       Message(if types[i] == STDERR then STDERR else STDOUT, payloads[i]));
    forall i | 0 <= i < |types|
      ensures Encodes(Docker(), wires[i], items[i])
    {
      DockerReadsBack(types[i], payloads[i]);
    }
    DrainFrames(Docker(), wires, items, []);
    assert Flatten(wires) + [] == Flatten(wires);
    NoBytesNoFrame();
    assert items + [] == items;
  }

  /** Behind an unchunked head, complete frames: the two agree, and each channel is the
      concatenation of its payloads on either side. */
  lemma CompleteStreamsAgree(head: Text, types: seq<byte>, payloads: seq<Text>)
    requires !IsChunked(head + CRLFCRLF) && Find(head + CRLFCRLF, CRLFCRLF) == Some(|head|)
    requires |types| == |payloads| && forall i :: 0 <= i < |payloads| ==> |payloads[i]| < Pow256(4)
    ensures
      var wires := seq(|types|, i requires 0 <= i < |types| => DockerEncode(types[i], payloads[i]));
      var raw := head + CRLFCRLF + Flatten(wires);
      Agreement(raw)
      && Messages(raw) == seq(|types|, i requires 0 <= i < |types| =>
                                Message(if types[i] == STDERR then STDERR else STDOUT, payloads[i]))
  {
    hide Find, IsChunked, Drain, DockerFrame, DockerEncode;
    var wires := seq(|types|, i requires 0 <= i < |types| => DockerEncode(types[i], payloads[i]));
    CompleteFramesLeaveNothing(types, payloads);
    BodyBehind(head, Flatten(wires));
  }

  lemma NoBytesNoFrame()
    ensures DockerFrame([]).NeedMore?
  {
  }

  // ---- through the WebSocket ----

  function AsSent(m: Message): (x: WebSocket.Sent)
  {
    WebSocket.FromServer(WebSocket.Frame(2, [m.channel] + m.payload))
  }

  function AsSentAll(messages: seq<Message>): (xs: seq<WebSocket.Sent>)
  {
    seq(|messages|, i requires 0 <= i < |messages| => AsSent(messages[i]))
  }

  /** What the client's end decodes from the bytes written for the messages is the list of
      binary frames, one per message, each with its channel byte in front. */
  lemma ClientSeesMessages(messages: seq<Message>)
    requires forall i :: 0 <= i < |messages| ==> |messages[i].payload| < WebSocket.CAP
    ensures
      && (forall i :: 0 <= i < |messages| ==> WebSocket.Sendable(AsSentAll(messages)[i]))
      && Drain(WebSocket.Reader(), Flatten(WebSocket.WireAll(AsSentAll(messages)))) ==
         Drained(WebSocket.Frames(AsSentAll(messages)), [])
  {
    hide WebSocket.Wire, WebSocket.ReadFrame;
    WebSocket.ReadConcatenation(AsSentAll(messages), []);
    var wire := Flatten(WebSocket.WireAll(AsSentAll(messages)));
    assert wire + [] == wire;
    WebSocket.NothingRead();
    assert WebSocket.Frames(AsSentAll(messages)) + [] == WebSocket.Frames(AsSentAll(messages));
  }

  /** The bytes written for a message are `ws_binary_frame` of its channel and payload. */
  lemma WrittenBytes(m: Message)
    requires |m.payload| < WebSocket.CAP
    ensures |m.payload| + 1 < Pow256(8) && WebSocket.Sendable(AsSent(m))
    ensures WebSocket.Wire(AsSent(m)) == WebSocket.WsBinaryFrame(m.channel, m.payload)
  {
    PowersOf256();
  }
}
