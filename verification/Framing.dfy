/**
 Length-prefixed frames on a byte stream, independent of the frame format.

 A parser looks at the front of a buffer and reports one whole frame, asks for more
 bytes, or rejects.  Everything the stream loops rely on is that a verdict, once given,
 does not change when more bytes arrive.
 */
module Framing {
  import opened Bytes

  type Text = seq<byte>

  datatype Parsed<+T> =
    | Whole(item: T, consumed: nat)
    | NeedMore
    | Bad

  type Parser<T> = Text -> Parsed<T>

  /** A whole frame consumes at least one of the bytes present. */
  ghost predicate Progresses<T(!new)>(parse: Parser<T>)
  {
    forall buf :: parse(buf).Whole? ==> 0 < parse(buf).consumed <= |buf|
  }

  ghost predicate StableAt<T(!new)>(parse: Parser<T>, buf: Text, more: Text)
  {
    !parse(buf).NeedMore? ==> parse(buf + more) == parse(buf)
  }

  ghost predicate Stable<T(!new)>(parse: Parser<T>)
  {
    forall buf, more :: StableAt(parse, buf, more)
  }

  datatype Drained<T> = Drained(items: seq<T>, rest: Text)

  /** All whole frames at the front of `buf`, in order; what is left starts with a partial
      or a rejected frame. */
  function Drain<T(!new)>(parse: Parser<T>, buf: Text): (r: Drained<T>)
    requires Progresses(parse)
    ensures !parse(r.rest).Whole?
    decreases |buf|
  {
    var p := parse(buf);
    if p.Whole? then
      var tail := Drain(parse, buf[p.consumed..]);
      Drained([p.item] + tail.items, tail.rest)
    else
      Drained([], buf)
  }

  /** Draining early and draining late agree, for every byte stream, well formed or not. */
  lemma {:induction false} DrainIsIncremental<T(!new)>(parse: Parser<T>, buf: Text, more: Text)
    requires Progresses(parse) && Stable(parse)
    ensures
      var first := Drain(parse, buf);
      var second := Drain(parse, first.rest + more);
      Drain(parse, buf + more) == Drained(first.items + second.items, second.rest)
    decreases |buf|
  {
    var p := parse(buf);
    if p.Whole? {
      var tail := buf[p.consumed..];
      assert StableAt(parse, buf, more);
      assert (buf + more)[p.consumed..] == tail + more;
      DrainIsIncremental(parse, tail, more);
      var first := Drain(parse, tail);
      var second := Drain(parse, first.rest + more);
      Assoc([p.item], first.items, second.items);
    } else {
      assert Drain(parse, buf) == Drained([], buf);
    }
  }

  /** After a rejected frame nothing is delivered again. */
  lemma BadStops<T(!new)>(parse: Parser<T>, buf: Text, more: Text)
    requires Progresses(parse) && Stable(parse)
    requires parse(buf).Bad?
    ensures Drain(parse, buf + more) == Drained([], buf + more)
  {
    assert StableAt(parse, buf, more);
  }

  /** `wire` is a frame for `item`: it parses to it whatever follows. */
  ghost predicate Encodes<T(!new)>(parse: Parser<T>, wire: Text, item: T)
  {
    forall more :: parse(wire + more) == Whole(item, |wire|)
  }

  lemma DrainOneFrame<T(!new)>(parse: Parser<T>, wire: Text, item: T, more: Text)
    requires Progresses(parse) && Encodes(parse, wire, item)
    ensures var d := Drain(parse, more); Drain(parse, wire + more) == Drained([item] + d.items, d.rest)
  {
    assert parse(wire + more) == Whole(item, |wire|);
    assert (wire + more)[|wire|..] == more;
  }

  /** Any concatenation of frames, followed by any bytes, drains to the items and then to
      whatever the remaining bytes yield on their own. */
  lemma {:induction false} DrainFrames<T(!new)>(parse: Parser<T>, wires: seq<Text>, items: seq<T>, more: Text)
    requires Progresses(parse)
    requires |wires| == |items|
    requires forall i :: 0 <= i < |wires| ==> Encodes(parse, wires[i], items[i])
    ensures
      var d := Drain(parse, more);
      Drain(parse, Flatten(wires) + more) == Drained(items + d.items, d.rest)
  {
    var d := Drain(parse, more);
    if wires == [] {
      assert Flatten(wires) + more == more;
      assert items + d.items == d.items;
    } else {
      var rest := Flatten(wires[1..]) + more;
      Assoc(wires[0], Flatten(wires[1..]), more);
      DrainFrames(parse, wires[1..], items[1..], more);
      DrainOneFrame(parse, wires[0], items[0], rest);
      Assoc([items[0]], items[1..], d.items);
      assert items == [items[0]] + items[1..];
    }
  }

  /** `while let Ok(Some((item, consumed))) = parse(&acc) { emit(item); acc.drain(..consumed) }` */
  method DrainLoop<T(!new)>(parse: Parser<T>, buf: Text) returns (items: seq<T>, acc: Text)
    requires Progresses(parse)
    ensures Drained(items, acc) == Drain(parse, buf)
  {
    items, acc := [], buf;
    var p := parse(acc);
    while p.Whole?
      invariant p == parse(acc)
      invariant var d := Drain(parse, acc); Drain(parse, buf) == Drained(items + d.items, d.rest)
      decreases |acc|
    {
      Assoc(items, [p.item], Drain(parse, acc[p.consumed..]).items);
      items := items + [p.item];
      acc := acc[p.consumed..];
      p := parse(acc);
    }
  }

  /** `items` have been emitted and `acc` is left over after reading `start` and the first
      `n` segments, however those were cut. */
  ghost predicate InStep<T(!new)>(parse: Parser<T>, start: Text, segments: seq<Text>, n: nat, items: seq<T>, acc: Text)
    requires Progresses(parse)
  {
    n <= |segments| && Drain(parse, start + Flatten(segments[..n])) == Drained(items, acc)
  }

  /** One more read: accumulate and drain. */
  method Receive<T(!new)>(parse: Parser<T>, ghost start: Text, segments: seq<Text>, n: nat, items: seq<T>, acc: Text)
    returns (items': seq<T>, acc': Text)
    requires Progresses(parse) && Stable(parse) && n < |segments|
    requires InStep(parse, start, segments, n, items, acc)
    ensures InStep(parse, start, segments, n + 1, items', acc') && items <= items'
  {
    ghost var arrived := start + Flatten(segments[..n]);
    FlattenSnoc(segments[..n], segments[n]);
    assert segments[..n + 1] == segments[..n] + [segments[n]];
    Assoc(start, Flatten(segments[..n]), segments[n]);
    DrainIsIncremental(parse, arrived, segments[n]);
    var batch: seq<T>;
    batch, acc' := DrainLoop(parse, acc + segments[n]);
    items' := items + batch;
  }
}
