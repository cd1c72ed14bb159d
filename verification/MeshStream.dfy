/**
 The encrypted node-to-node stream: sealed frames cut into arbitrary TCP reads and
 reassembled by the accumulate / open / drain loops of the mesh proxy.

 AES-256-GCM is a parameter: all that is used of it is that opening a sealed text under
 the same key and nonce gives the text back.
 */
module MeshStream {
  import opened Bytes
  import opened Framing

  type Key = seq<byte>

  datatype Aead = Aead(
    seal: (Key, Text, Text) -> Text,          // key, nonce, plaintext
    open: (Key, Text, Text) -> Option<Text>)  // key, nonce, ciphertext

  ghost predicate Correct(a: Aead)
  {
    forall k: Key, nonce: Text, pt: Text :: a.open(k, nonce, a.seal(k, nonce, pt)) == Some(pt)
  }

  const MAX_FRAME := 4 * 1024 * 1024
  const NONCE := 12
  /** "RKMESHc1" */
  const MAGIC: Text := [82, 75, 77, 69, 83, 72, 99, 49]

  // ---- frames ----

  function SealFrame(a: Aead, key: Key, pt: Text, nonce: Text): (out: Text)
  {
    var ct := a.seal(key, nonce, pt);
    ToBE(NONCE + |ct|, 4) + nonce + ct
  }

  function OpenFrame(a: Aead, key: Key, buf: Text): (r: Parsed<Text>)
    ensures r.Whole? ==> 0 < r.consumed <= |buf|
  {
    if |buf| < 4 then NeedMore
    else
      var payload := FromBE(buf[..4]);
      if payload < NONCE || payload > MAX_FRAME then Bad
      else if |buf| < 4 + payload then NeedMore
      else match a.open(key, buf[4..16], buf[16..4 + payload])
        case Some(pt) => Whole(pt, 4 + payload)
        case None => Bad
  }

  /** A sealed frame: the length of what follows, most significant byte first, the nonce, the
      sealed text. */
  lemma FrameLayout(a: Aead, key: Key, pt: Text, nonce: Text, i: nat)
    requires |nonce| == 12 && i < 4
    ensures
      var f, ct := SealFrame(a, key, pt, nonce), a.seal(key, nonce, pt);
      |f| == 16 + |ct| && f[4..16] == nonce && f[16..] == ct && f[3 - i] == ByteOf(12 + |ct|, i)
  {
    BigEndianByte(NONCE + |a.seal(key, nonce, pt)|, 4, i);
  }

  /** The announced length decides before anything else: below the nonce's 12 bytes or above
      four megabytes it is an error at once, in between the frame is awaited. */
  lemma AnnouncedLength(a: Aead, key: Key, buf: Text)
    ensures |buf| < 4 ==> OpenFrame(a, key, buf) == NeedMore
    ensures |buf| >= 4 && (FromBE(buf[..4]) < 12 || FromBE(buf[..4]) > 4_194_304) ==> OpenFrame(a, key, buf) == Bad
    ensures |buf| >= 4 && 12 <= FromBE(buf[..4]) <= 4_194_304 ==>
              (OpenFrame(a, key, buf) == NeedMore <==> |buf| < 4 + FromBE(buf[..4]))
  {
  }

  /** A chunk whose sealed frame is within the frame limit. */
  ghost predicate Fits(a: Aead, key: Key, pt: Text, nonce: Text)
  {
    |nonce| == NONCE && NONCE + |a.seal(key, nonce, pt)| <= MAX_FRAME
  }

  /** A sealed frame opens to its plaintext and consumes exactly its own bytes, whatever
      follows it. */
  lemma OpenSealed(a: Aead, key: Key, pt: Text, nonce: Text, more: Text)
    requires Correct(a) && Fits(a, key, pt, nonce)
    ensures OpenFrame(a, key, SealFrame(a, key, pt, nonce) + more) == Whole(pt, |SealFrame(a, key, pt, nonce)|)
  {
    var ct := a.seal(key, nonce, pt);
    var buf := SealFrame(a, key, pt, nonce) + more;
    PowersOf256();
    BigEndianRoundTrip(NONCE + |ct|, 4);
    assert buf[..4] == ToBE(NONCE + |ct|, 4);
    assert buf[4..16] == nonce;
    assert buf[16..4 + NONCE + |ct|] == ct;
  }

  /** Verdicts are stable: bytes that arrive later change neither a whole frame nor an error. */
  lemma OpenIsStable(a: Aead, key: Key, buf: Text, more: Text)
    requires !OpenFrame(a, key, buf).NeedMore?
    ensures OpenFrame(a, key, buf + more) == OpenFrame(a, key, buf)
  {
    var all := buf + more;
    assert all[..4] == buf[..4];
    var payload := FromBE(buf[..4]);
    if NONCE <= payload <= MAX_FRAME {
      assert all[4..16] == buf[4..16];
      assert all[16..4 + payload] == buf[16..4 + payload];
    }
  }

  /** Every strict prefix of a sealed frame asks for more bytes. */
  lemma PrefixNeedsMore(a: Aead, key: Key, pt: Text, nonce: Text, n: nat)
    requires Fits(a, key, pt, nonce)
    requires n < |SealFrame(a, key, pt, nonce)|
    ensures OpenFrame(a, key, SealFrame(a, key, pt, nonce)[..n]) == NeedMore
  {
    var ct := a.seal(key, nonce, pt);
    PowersOf256();
    BigEndianRoundTrip(NONCE + |ct|, 4);
    if n >= 4 {
      assert SealFrame(a, key, pt, nonce)[..n][..4] == ToBE(NONCE + |ct|, 4);
    }
  }

  /** `open_frame` with the key fixed, as the stream loops use it. */
  function Opener(a: Aead, key: Key): (parse: Parser<Text>)
    ensures Progresses(parse)
  {
    buf => OpenFrame(a, key, buf)
  }

  lemma OpenerIsStable(a: Aead, key: Key)
    ensures Stable(Opener(a, key))
  {
    forall buf, more
      ensures StableAt(Opener(a, key), buf, more)
    {
      if !OpenFrame(a, key, buf).NeedMore? {
        OpenIsStable(a, key, buf, more);
      }
    }
  }

  /** The plaintext a receiver delivers from a byte stream. */
  function Delivered(a: Aead, key: Key, stream: Text): (pt: Text)
  {
    Flatten(Drain(Opener(a, key), stream).items)
  }

  // ---- the loops ----

  /** The response direction of the forwarding side: read, accumulate, drain. */
  method PumpReads(a: Aead, key: Key, segments: seq<Text>) returns (out: Text)
    ensures out == Delivered(a, key, Flatten(segments))
  {
    var parse := Opener(a, key);
    OpenerIsStable(a, key);
    var items: seq<Text>, acc: Text := [], [];
    for i := 0 to |segments|
      invariant InStep(parse, [], segments, i, items, acc)
    {
      items, acc := Receive(parse, [], segments, i, items, acc);
    }
    assert segments[..|segments|] == segments;
    assert [] + Flatten(segments) == Flatten(segments);
    out := Flatten(items);
  }

  /** Once `acc` is drained, `items` and what it yields are everything the bytes read so far
      hold. */
  ghost predicate Pending(parse: Parser<Text>, start: Text, segments: seq<Text>, n: nat, items: seq<Text>, acc: Text)
    requires Progresses(parse)
  {
    var d := Drain(parse, acc);
    n <= |segments| && Drain(parse, start + Flatten(segments[..n])) == Drained(items + d.items, d.rest)
  }

  lemma ReadOne(parse: Parser<Text>, start: Text, segments: seq<Text>, n: nat, items: seq<Text>, acc: Text)
    requires Progresses(parse) && Stable(parse) && n < |segments|
    requires InStep(parse, start, segments, n, items, acc)
    ensures Pending(parse, start, segments, n + 1, items, acc + segments[n])
  {
    FlattenSnoc(segments[..n], segments[n]);
    assert segments[..n + 1] == segments[..n] + [segments[n]];
    Assoc(start, Flatten(segments[..n]), segments[n]);
    DrainIsIncremental(parse, start + Flatten(segments[..n]), segments[n]);
  }

  /** Drains, stops if `done` holds of the plaintext so far or the peer has closed, and reads
      again: the loop of both phases of the serving side. */
  method DrainUntil(parse: Parser<Text>, ghost start: Text, segments: seq<Text>, next0: nat, items0: seq<Text>, acc0: Text,
                    done: Text -> bool)
    returns (items: seq<Text>, acc: Text, next: nat)
    requires Progresses(parse) && Stable(parse)
    requires Pending(parse, start, segments, next0, items0, acc0)
    ensures next0 <= next <= |segments| && items0 <= items
    ensures InStep(parse, start, segments, next, items, acc)
    ensures done(Flatten(items)) || next == |segments|
  {
    items, acc, next := items0, acc0, next0;
    while true
      invariant next0 <= next <= |segments| && items0 <= items
      invariant Pending(parse, start, segments, next, items, acc)
      decreases |segments| - next
    {
      var batch: seq<Text>;
      batch, acc := DrainLoop(parse, acc);
      items := items + batch;
      if done(Flatten(items)) || next == |segments| { return; }
      ReadOne(parse, start, segments, next, items, acc);
      acc := acc + segments[next];
      next := next + 1;
    }
  }

  /** The serving side.  Phase one drains `early` and reads until the request head is
      complete (`headDone`), which always is after a whole number of frames; phase two takes
      the partly consumed buffer over and pumps the rest of the same socket to the pod. */
  method ServePeer(a: Aead, key: Key, early: Text, segments: seq<Text>, headDone: Text -> bool)
    returns (plain: Text, toPod: Text, ghost frames: nat)
    ensures toPod == Delivered(a, key, early + Flatten(segments))
    ensures
      var items := Drain(Opener(a, key), early + Flatten(segments)).items;
      frames <= |items| && plain == Flatten(items[..frames])
    ensures plain <= toPod
    ensures headDone(plain) || plain == toPod
  {
    var parse := Opener(a, key);
    OpenerIsStable(a, key);
    assert early + Flatten(segments[..0]) == early;
    var head, acc, next := DrainUntil(parse, early, segments, 0, [], early, headDone);
    plain := Flatten(head);
    var all, _, last := DrainUntil(parse, early, segments, next, head, acc, _ => false);
    toPod := Flatten(all);
    frames := |head|;
    assert segments[..last] == segments;
    FlattenAppend(head, all[|head|..]);
    assert all == head + all[|head|..] && all[..frames] == head;
    assert next == last ==> head == all;
  }

  // ---- end to end ----

  function SealAll(a: Aead, key: Key, chunks: seq<Text>, nonces: seq<Text>): (frames: seq<Text>)
    requires |chunks| == |nonces|
  {
    seq(|chunks|, i requires 0 <= i < |chunks| => SealFrame(a, key, chunks[i], nonces[i]))
  }

  ghost predicate AllFit(a: Aead, key: Key, chunks: seq<Text>, nonces: seq<Text>)
  {
    |chunks| == |nonces| && forall i :: 0 <= i < |chunks| ==> Fits(a, key, chunks[i], nonces[i])
  }

  lemma DrainSealed(a: Aead, key: Key, chunks: seq<Text>, nonces: seq<Text>, more: Text)
    requires Correct(a) && AllFit(a, key, chunks, nonces)
    ensures
      var d := Drain(Opener(a, key), more);
      Drain(Opener(a, key), Flatten(SealAll(a, key, chunks, nonces)) + more) == Drained(chunks + d.items, d.rest)
  {
    OpenerIsStable(a, key);
    forall i | 0 <= i < |chunks|
      ensures Encodes(Opener(a, key), SealAll(a, key, chunks, nonces)[i], chunks[i])
    {
      forall m {
        OpenSealed(a, key, chunks[i], nonces[i], m);
      }
    }
    DrainFrames(Opener(a, key), SealAll(a, key, chunks, nonces), chunks, more);
  }

  /** An intact sealed stream delivers exactly the plaintext and leaves nothing over. */
  lemma IntactStreamIsDelivered(a: Aead, key: Key, chunks: seq<Text>, nonces: seq<Text>)
    requires Correct(a) && AllFit(a, key, chunks, nonces)
    ensures Delivered(a, key, Flatten(SealAll(a, key, chunks, nonces))) == Flatten(chunks)
    ensures Drain(Opener(a, key), Flatten(SealAll(a, key, chunks, nonces))).rest == []
  {
    var wire := Flatten(SealAll(a, key, chunks, nonces));
    DrainSealed(a, key, chunks, nonces, []);
    assert wire + [] == wire;
    assert chunks + [] == chunks;
  }

  /** With a bad frame in the stream, delivery is exactly the plaintext before it, whatever
      follows. */
  lemma BadFrameEndsDelivery(a: Aead, key: Key, chunks: seq<Text>, nonces: seq<Text>, bad: Text, more: Text)
    requires Correct(a) && AllFit(a, key, chunks, nonces)
    requires OpenFrame(a, key, bad).Bad?
    ensures Delivered(a, key, Flatten(SealAll(a, key, chunks, nonces)) + (bad + more)) == Flatten(chunks)
  {
    OpenerIsStable(a, key);
    DrainSealed(a, key, chunks, nonces, bad + more);
    BadStops(Opener(a, key), bad, more);
    assert chunks + [] == chunks;
  }

  /** A stream that ends inside a frame delivers the whole frames before it. */
  lemma CutStreamDeliversWholeFrames(a: Aead, key: Key, chunks: seq<Text>, nonces: seq<Text>,
                                     pt: Text, nonce: Text, n: nat)
    requires Correct(a) && AllFit(a, key, chunks, nonces) && Fits(a, key, pt, nonce)
    requires n < |SealFrame(a, key, pt, nonce)|
    ensures
      var part := SealFrame(a, key, pt, nonce)[..n];
      Drain(Opener(a, key), Flatten(SealAll(a, key, chunks, nonces)) + part) == Drained(chunks, part)
  {
    PrefixNeedsMore(a, key, pt, nonce, n);
    DrainSealed(a, key, chunks, nonces, SealFrame(a, key, pt, nonce)[..n]);
    assert chunks + [] == chunks;
  }

  /** A relayed request.  The forwarding side writes the magic, the sealed head and one
      frame per client read; the serving side's first socket read is `first`, the rest are
      `segments`, cut anywhere.  If the first read holds the magic, the pod receives exactly
      the head and the client's bytes; a first read shorter than the magic is not taken for
      a peer connection at all. */
  method RelayRequest(a: Aead, key: Key, head: Text, clientReads: seq<Text>, nonces: seq<Text>,
                      first: Text, segments: seq<Text>, headDone: Text -> bool)
    returns (toPod: Option<Text>)
    requires Correct(a) && AllFit(a, key, [head] + clientReads, nonces)
    requires first + Flatten(segments) == MAGIC + Flatten(SealAll(a, key, [head] + clientReads, nonces))
    ensures toPod == if |first| >= |MAGIC| then Some(head + Flatten(clientReads)) else None
  {
    ghost var wire := Flatten(SealAll(a, key, [head] + clientReads, nonces));
    if |first| >= |MAGIC| {
      assert first[..|MAGIC|] == (first + Flatten(segments))[..|MAGIC|];
    }
    if |first| >= |MAGIC| && first[..|MAGIC|] == MAGIC {
      var early := first[|MAGIC|..];
      assert early + Flatten(segments) == (first + Flatten(segments))[|MAGIC|..] == wire;
      var plain, all, _ := ServePeer(a, key, early, segments, headDone);
      IntactStreamIsDelivered(a, key, [head] + clientReads, nonces);
      assert ([head] + clientReads)[1..] == clientReads;
      toPod := Some(all);
    } else {
      toPod := None;
    }
  }
}
