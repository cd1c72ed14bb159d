/**
 The binary file of the neural state store:
   "NRNS", version u32, count u32, dim u32, counter u64 (little endian), then per entry
   key length, key, dim 32-bit floats, value length, value.

 A float is its bit pattern.  Keys are the UTF-8 bytes of strings; reading them goes
 through the lossy decoder, a parameter here, which leaves valid UTF-8 as it is.
 */
module StateFile {
  import opened Bytes

  type Text = seq<byte>
  type F32 = x: int | 0 <= x < 0x1_0000_0000

  datatype Entry = Entry(key: Text, embedding: seq<F32>, value: Text)

  /** What a file stands for. */
  datatype Image = Image(dim: nat, entries: seq<Entry>, version: nat)

  type Decoder = Text -> Text

  /** "NRNS" */
  const MAGIC: Text := [78, 82, 78, 83]
  const STATE_VERSION := 1
  const HEADER := 24

  // ---- writing ----

  function Block(b: Text): (s: Text)
    ensures |s| == 4 + |b|
  {
    ToLE(|b|, 4) + b
  }

  function Floats(fs: seq<F32>): (s: Text)
    ensures |s| == 4 * |fs|
  {
    if fs == [] then [] else Floats(fs[..|fs| - 1]) + ToLE(fs[|fs| - 1], 4)
  }

  function EncodeEntry(e: Entry): (s: Text)
  {
    Block(e.key) + Floats(e.embedding) + Block(e.value)
  }

  function EncodeEntries(es: seq<Entry>): (s: Text)
  {
    if es == [] then [] else EncodeEntry(es[0]) + EncodeEntries(es[1..])
  }

  function EncodeHeader(img: Image): (s: Text)
    ensures |s| == HEADER
  {
    MAGIC + ToLE(STATE_VERSION, 4) + ToLE(|img.entries|, 4) + ToLE(img.dim, 4) + ToLE(img.version, 8)
  }

  function Encode(img: Image): (s: Text)
  {
    EncodeHeader(img) + EncodeEntries(img.entries)
  }

  /** The 24 bytes of the header: "NRNS", version 1, then entry count, dimension and counter,
      least significant byte first. */
  lemma HeaderLayout(img: Image, i: nat)
    requires i < 8
    ensures
      var h := EncodeHeader(img);
      && |h| == 24 && h[..8] == [78, 82, 78, 83, 1, 0, 0, 0]
      && (i < 4 ==> h[8 + i] == ByteOf(|img.entries|, i) && h[12 + i] == ByteOf(img.dim, i))
      && h[16 + i] == ByteOf(img.version, i)
  {
    hide ByteOf;
    assert ToLE(1, 4) == [1, 0, 0, 0] by { OneInLittleEndian(); }
    hide ToLE;
    LittleEndianByte(img.version, 8, i);
    if i < 4 {
      LittleEndianByte(|img.entries|, 4, i);
      LittleEndianByte(img.dim, 4, i);
    }
  }

  lemma OneInLittleEndian()
    ensures ToLE(1, 4) == [1, 0, 0, 0]
  {
    assert ToLE(0, 0) == [] && ToLE(0, 1) == [0] && ToLE(0, 2) == [0, 0] && ToLE(0, 3) == [0, 0, 0];
  }

  /** A key or value: its length in four bytes, then its bytes. */
  lemma BlockLayout(b: Text, i: nat)
    requires i < 4
    ensures Block(b)[i] == ByteOf(|b|, i) && Block(b)[4..] == b
  {
    LittleEndianByte(|b|, 4, i);
  }

  /** Each float takes four bytes, least significant first. */
  lemma {:induction false} FloatLayout(fs: seq<F32>, j: nat, i: nat)
    requires j < |fs| && i < 4
    ensures Floats(fs)[4 * j + i] == ByteOf(fs[j], i)
  {
    if j == |fs| - 1 {
      LittleEndianByte(fs[j], 4, i);
    } else {
      FloatLayout(fs[..|fs| - 1], j, i);
    }
  }

  lemma {:induction false} EntriesSnoc(es: seq<Entry>, e: Entry)
    ensures EncodeEntries(es + [e]) == EncodeEntries(es) + EncodeEntry(e)
  {
    hide EncodeEntry;
    if es == [] {
      assert [e][1..] == [] && [] + [e] == [e];
    } else {
      EntriesSnoc(es[1..], e);
      assert (es + [e])[1..] == es[1..] + [e] && (es + [e])[0] == es[0];
      Assoc(EncodeEntry(es[0]), EncodeEntries(es[1..]), EncodeEntry(e));
    }
  }

  /** `save`, as the writes it issues. */
  method Save(img: Image) returns (file: Text)
    ensures file == Encode(img)
  {
    hide EncodeEntry, ToLE;
    file := MAGIC;
    file := file + ToLE(STATE_VERSION, 4);
    file := file + ToLE(|img.entries|, 4);
    file := file + ToLE(img.dim, 4);
    file := file + ToLE(img.version, 8);
    for i := 0 to |img.entries|
      invariant file == EncodeHeader(img) + EncodeEntries(img.entries[..i])
    {
      var bytes := SaveEntry(img.entries[i]);
      EntriesSnoc(img.entries[..i], img.entries[i]);
      assert img.entries[..i + 1] == img.entries[..i] + [img.entries[i]];
      Assoc(EncodeHeader(img), EncodeEntries(img.entries[..i]), bytes);
      file := file + bytes;
    }
    assert img.entries[..|img.entries|] == img.entries;
  }

  method SaveEntry(e: Entry) returns (bytes: Text)
    ensures bytes == EncodeEntry(e)
  {
    hide ToLE;
    bytes := ToLE(|e.key|, 4) + e.key;
    for j := 0 to |e.embedding|
      invariant bytes == Block(e.key) + Floats(e.embedding[..j])
    {
      assert e.embedding[..j + 1][..j] == e.embedding[..j];
      Assoc(Block(e.key), Floats(e.embedding[..j]), ToLE(e.embedding[j], 4));
      bytes := bytes + ToLE(e.embedding[j], 4);
    }
    assert e.embedding[..|e.embedding|] == e.embedding;
    Assoc(bytes, ToLE(|e.value|, 4), e.value);
    bytes := bytes + ToLE(|e.value|, 4) + e.value;
  }

  // ---- reading ----

  datatype LoadError =
    | TooSmall
    | BadMagic
    | Unsupported(ver: nat)
    | TruncatedEntry(i: nat)
    | TruncatedKey(i: nat)
    | TruncatedEmbedding(i: nat)
    | TruncatedValueHeader(i: nat)
    | TruncatedValue(i: nat)

  /** `Panics` is a slice out of range: a file of 20 to 23 bytes passes the size guard and
      has no complete header. */
  datatype Outcome =
    | Loaded(image: Image)
    | Failed(error: LoadError)
    | Panics

  datatype BlockRead = CutHeader | CutBody | Got(bytes: Text, consumed: nat)

  function ReadBlock(rest: Text): (r: BlockRead)
    ensures r.Got? ==> 4 <= r.consumed <= |rest|
  {
    if |rest| < 4 then CutHeader
    else
      var len := FromLE(rest[..4]);
      if |rest| < 4 + len then CutBody else Got(rest[4..4 + len], 4 + len)
  }

  function ReadFloats(s: Text, n: nat): (r: seq<F32>)
    requires |s| == 4 * n
    ensures |r| == n
  {
    if n == 0 then []
    else
      PowersOf256();
      ReadFloats(s[..4 * (n - 1)], n - 1) + [FromLE(s[4 * (n - 1)..])]
  }

  datatype EntryRead = EntryOk(entry: Entry, consumed: nat) | EntryCut(error: LoadError)

  function ReadEntry(decode: Decoder, rest: Text, dim: nat, i: nat): (r: EntryRead)
    ensures r.EntryOk? ==> 0 < r.consumed <= |rest|
  {
    match ReadBlock(rest)
    case CutHeader => EntryCut(TruncatedEntry(i))
    case CutBody => EntryCut(TruncatedKey(i))
    case Got(key, n) =>
      var n' := n + 4 * dim;
      if |rest| < n' then EntryCut(TruncatedEmbedding(i))
      else match ReadBlock(rest[n'..])
        case CutHeader => EntryCut(TruncatedValueHeader(i))
        case CutBody => EntryCut(TruncatedValue(i))
        case Got(value, m) => EntryOk(Entry(decode(key), ReadFloats(rest[n..n'], dim), value), n' + m)
  }

  datatype EntriesRead = EntriesOk(entries: seq<Entry>) | EntriesCut(error: LoadError)

  /** Entries `i` to `count` from `rest`. */
  function ReadEntries(decode: Decoder, rest: Text, dim: nat, i: nat, count: nat): (r: EntriesRead)
    requires i <= count
    ensures r.EntriesOk? ==> |r.entries| == count - i
    decreases count - i
  {
    if i == count then EntriesOk([])
    else match ReadEntry(decode, rest, dim, i)
      case EntryCut(e) => EntriesCut(e)
      case EntryOk(entry, n) =>
        match ReadEntries(decode, rest[n..], dim, i + 1, count)
        case EntriesCut(e) => EntriesCut(e)
        case EntriesOk(more) => EntriesOk([entry] + more)
  }

  function Parse(decode: Decoder, data: Text): (r: Outcome)
  {
    if |data| < 20 then Failed(TooSmall)
    else if data[..4] != MAGIC then Failed(BadMagic)
    else if FromLE(data[4..8]) != STATE_VERSION then Failed(Unsupported(FromLE(data[4..8])))
    else if |data| < HEADER then Panics
    else
      var count, dim := FromLE(data[8..12]), FromLE(data[12..16]);
      match ReadEntries(decode, data[HEADER..], dim, 0, count)
      case EntriesCut(e) => Failed(e)
      case EntriesOk(entries) => Loaded(Image(dim, entries, FromLE(data[16..24])))
  }

  /** `load`, advancing a position through the file. */
  method Load(decode: Decoder, data: Text) returns (r: Outcome)
    ensures r == Parse(decode, data)
  {
    hide ReadEntry, FromLE;
    if |data| < 20 { return Failed(TooSmall); }
    if data[0..4] != MAGIC { return Failed(BadMagic); }
    var ver := FromLE(data[4..8]);
    if ver != STATE_VERSION { return Failed(Unsupported(ver)); }
    if |data| < HEADER { return Panics; }
    var count, dim, version := FromLE(data[8..12]), FromLE(data[12..16]), FromLE(data[16..24]);
    var pos := HEADER;
    var entries: seq<Entry> := [];
    for i := 0 to count
      invariant HEADER <= pos <= |data|
      invariant ReadEntries(decode, data[HEADER..], dim, 0, count) ==
                match ReadEntries(decode, data[pos..], dim, i, count)
                case EntriesCut(e) => EntriesCut(e)
                case EntriesOk(more) => EntriesOk(entries + more)
    {
      var one := LoadEntry(decode, data, pos, dim, i);
      if one.EntryCut? {
        return Failed(one.error);
      }
      assert data[pos..][one.consumed..] == data[pos + one.consumed..];
      ghost var tail := ReadEntries(decode, data[pos + one.consumed..], dim, i + 1, count);
      if tail.EntriesOk? {
        Assoc(entries, [one.entry], tail.entries);
      }
      pos := pos + one.consumed;
      entries := entries + [one.entry];
    }
    assert entries + [] == entries;
    r := Loaded(Image(dim, entries, version));
  }

  method LoadEntry(decode: Decoder, data: Text, start: nat, dim: nat, i: nat) returns (r: EntryRead)
    requires start <= |data|
    ensures r == ReadEntry(decode, data[start..], dim, i)
  {
    hide ReadBlock, ReadFloats;
    ghost var rest := data[start..];
    var key := LoadBlock(data, start);
    if key.CutHeader? { return EntryCut(TruncatedEntry(i)); }
    if key.CutBody? { return EntryCut(TruncatedKey(i)); }
    var pos := start + key.consumed;
    if pos + 4 * dim > |data| { return EntryCut(TruncatedEmbedding(i)); }
    var embedding := LoadFloats(data[pos..pos + 4 * dim], dim);
    assert rest[key.consumed..key.consumed + 4 * dim] == data[pos..pos + 4 * dim];
    pos := pos + 4 * dim;
    assert rest[key.consumed + 4 * dim..] == data[pos..];
    var value := LoadBlock(data, pos);
    if value.CutHeader? { return EntryCut(TruncatedValueHeader(i)); }
    if value.CutBody? { return EntryCut(TruncatedValue(i)); }
    pos := pos + value.consumed;
    r := EntryOk(Entry(decode(key.bytes), embedding, value.bytes), pos - start);
  }

  /** A length and that many bytes, at a position of the file. */
  method LoadBlock(data: Text, pos: nat) returns (r: BlockRead)
    requires pos <= |data|
    ensures r == ReadBlock(data[pos..])
  {
    hide FromLE;
    ghost var rest := data[pos..];
    if pos + 4 > |data| { return CutHeader; }
    assert rest[..4] == data[pos..pos + 4];
    var len := FromLE(data[pos..pos + 4]);
    if pos + 4 + len > |data| { return CutBody; }
    assert rest[4..4 + len] == data[pos + 4..pos + 4 + len];
    r := Got(data[pos + 4..pos + 4 + len], 4 + len);
  }

  method LoadFloats(s: Text, n: nat) returns (fs: seq<F32>)
    requires |s| == 4 * n
    ensures fs == ReadFloats(s, n)
  {
    hide FromLE;
    fs := [];
    PowersOf256();
    for j := 0 to n
      invariant fs == ReadFloats(s[..4 * j], j)
    {
      assert s[..4 * (j + 1)][..4 * j] == s[..4 * j];
      assert s[..4 * (j + 1)][4 * j..] == s[4 * j..4 * j + 4];
      fs := fs + [FromLE(s[4 * j..4 * j + 4])];
    }
    assert s[..4 * n] == s;
  }

  // ---- load inverts save ----

  predicate EntryFits(decode: Decoder, e: Entry, dim: nat)
  {
    && |e.key| < Pow256(4) && |e.value| < Pow256(4) && |e.embedding| == dim
    && decode(e.key) == e.key
  }

  /** A store whose lengths fit their fields and whose keys are strings. */
  predicate Fits(decode: Decoder, img: Image)
  {
    && |img.entries| < Pow256(4) && img.dim < Pow256(4) && img.version < Pow256(8)
    && forall i :: 0 <= i < |img.entries| ==> EntryFits(decode, img.entries[i], img.dim)
  }

  /** Every store of up to 2^32 - 1 entries, dimensions, and bytes in a key or value fits. */
  lemma SizedStoreFits(decode: Decoder, img: Image)
    requires |img.entries| < 0x1_0000_0000 && img.dim < 0x1_0000_0000 && img.version < 0x1_0000_0000_0000_0000
    requires forall e :: e in img.entries ==>
               |e.key| < 0x1_0000_0000 && |e.value| < 0x1_0000_0000 && |e.embedding| == img.dim && decode(e.key) == e.key
    ensures Fits(decode, img)
  {
    PowersOf256();
    hide Pow256;
    assert forall i :: 0 <= i < |img.entries| ==> img.entries[i] in img.entries;
  }

  lemma BlockRoundTrip(b: Text, more: Text)
    requires |b| < Pow256(4)
    ensures ReadBlock(Block(b) + more) == Got(b, 4 + |b|)
  {
    LittleEndianRoundTrip(|b|, 4);
    hide ToLE, FromLE;
    assert (Block(b) + more)[..4] == ToLE(|b|, 4);
    assert (Block(b) + more)[4..4 + |b|] == b;
  }

  lemma BlockCut(b: Text, n: nat)
    requires |b| < Pow256(4) && n < 4 + |b|
    ensures !ReadBlock(Block(b)[..n]).Got?
  {
    LittleEndianRoundTrip(|b|, 4);
    hide ToLE, FromLE;
    if n >= 4 {
      assert Block(b)[..n][..4] == ToLE(|b|, 4);
    }
  }

  lemma {:induction false} FloatsRoundTrip(fs: seq<F32>)
    ensures ReadFloats(Floats(fs), |fs|) == fs
  {
    if fs != [] {
      var n := |fs|;
      PowersOf256();
      FloatsRoundTrip(fs[..n - 1]);
      LittleEndianRoundTrip(fs[n - 1], 4);
      hide ToLE, FromLE;
      assert Floats(fs)[..4 * (n - 1)] == Floats(fs[..n - 1]);
      assert Floats(fs)[4 * (n - 1)..] == ToLE(fs[n - 1], 4);
    }
  }

  lemma EntryRoundTrip(decode: Decoder, e: Entry, dim: nat, i: nat, more: Text)
    requires EntryFits(decode, e, dim)
    ensures ReadEntry(decode, EncodeEntry(e) + more, dim, i) == EntryOk(e, |EncodeEntry(e)|)
  {
    hide Block, Floats, ReadBlock, ReadFloats;
    var s := EncodeEntry(e) + more;
    var n := 4 + |e.key|;
    assert s == Block(e.key) + (Floats(e.embedding) + Block(e.value) + more);
    BlockRoundTrip(e.key, Floats(e.embedding) + Block(e.value) + more);
    assert s[n..n + 4 * dim] == Floats(e.embedding);
    FloatsRoundTrip(e.embedding);
    assert s[n + 4 * dim..] == Block(e.value) + more;
    BlockRoundTrip(e.value, more);
  }

  /** An entry cut off anywhere is reported as truncated. */
  lemma EntryCutOff(decode: Decoder, e: Entry, dim: nat, i: nat, n: nat)
    requires EntryFits(decode, e, dim) && n < |EncodeEntry(e)|
    ensures ReadEntry(decode, EncodeEntry(e)[..n], dim, i).EntryCut?
  {
    hide Block, Floats, ReadBlock, ReadFloats;
    var s := EncodeEntry(e)[..n];
    var k := 4 + |e.key|;
    if n < k {
      assert s == Block(e.key)[..n];
      BlockCut(e.key, n);
    } else {
      assert s == Block(e.key) + s[k..];
      BlockRoundTrip(e.key, s[k..]);
      if n >= k + 4 * dim {
        assert s[k + 4 * dim..] == Block(e.value)[..n - k - 4 * dim];
        BlockCut(e.value, n - k - 4 * dim);
      }
    }
  }

  lemma OneMoreEntry(decode: Decoder, wire: Text, rest: Text, dim: nat, i: nat, count: nat, e: Entry)
    requires i < count && ReadEntry(decode, wire + rest, dim, i) == EntryOk(e, |wire|)
    ensures
      var tail := ReadEntries(decode, rest, dim, i + 1, count);
      ReadEntries(decode, wire + rest, dim, i, count) ==
        if tail.EntriesOk? then EntriesOk([e] + tail.entries) else tail
  {
    hide ReadEntry;
    assert (wire + rest)[|wire|..] == rest;
  }

  lemma {:induction false} EntriesRoundTrip(decode: Decoder, es: seq<Entry>, dim: nat, i: nat, more: Text)
    requires forall j :: 0 <= j < |es| ==> EntryFits(decode, es[j], dim)
    ensures ReadEntries(decode, EncodeEntries(es) + more, dim, i, i + |es|) == EntriesOk(es)
    decreases |es|
  {
    hide EncodeEntry, ReadEntry;
    if es != [] {
      var e, wire, rest := es[0], EncodeEntry(es[0]), EncodeEntries(es[1..]);
      EntriesRoundTrip(decode, es[1..], dim, i + 1, more);
      hide ReadEntries;
      EntryRoundTrip(decode, e, dim, i, rest + more);
      OneMoreEntry(decode, wire, rest + more, dim, i, i + |es|, e);
      Assoc(wire, rest, more);
      assert es == [e] + es[1..];
    }
  }

  lemma {:induction false} EntriesCutOff(decode: Decoder, es: seq<Entry>, dim: nat, i: nat, n: nat)
    requires forall j :: 0 <= j < |es| ==> EntryFits(decode, es[j], dim)
    requires n < |EncodeEntries(es)|
    ensures ReadEntries(decode, EncodeEntries(es)[..n], dim, i, i + |es|).EntriesCut?
    decreases |es|
  {
    hide EncodeEntry, ReadEntry;
    var e, tail := es[0], EncodeEntries(es[1..]);
    var whole := EncodeEntry(e);
    if n < |whole| {
      assert (whole + tail)[..n] == whole[..n];
      EntryCutOff(decode, e, dim, i, n);
    } else {
      var more := tail[..n - |whole|];
      assert (whole + tail)[..n] == whole + more;
      EntryRoundTrip(decode, e, dim, i, more);
      OneMoreEntry(decode, whole, more, dim, i, i + |es|, e);
      EntriesCutOff(decode, es[1..], dim, i + 1, n - |whole|);
    }
  }

  /** The header fields as `load` slices them out. */
  lemma HeaderFields(img: Image, body: Text)
    requires |img.entries| < Pow256(4) && img.dim < Pow256(4) && img.version < Pow256(8)
    ensures
      var data := EncodeHeader(img) + body;
      && data[..4] == MAGIC && FromLE(data[4..8]) == STATE_VERSION
      && FromLE(data[8..12]) == |img.entries| && FromLE(data[12..16]) == img.dim
      && FromLE(data[16..24]) == img.version && data[HEADER..] == body
  {
    hide ToLE, FromLE;
    PowersOf256();
    hide Pow256;
    LittleEndianRoundTrip(STATE_VERSION, 4);
    LittleEndianRoundTrip(|img.entries|, 4);
    LittleEndianRoundTrip(img.dim, 4);
    LittleEndianRoundTrip(img.version, 8);
    HeaderSlices(ToLE(STATE_VERSION, 4), ToLE(|img.entries|, 4), ToLE(img.dim, 4), ToLE(img.version, 8), body);
  }

  lemma HeaderSlices(a: Text, b: Text, c: Text, d: Text, body: Text)
    requires |a| == 4 && |b| == 4 && |c| == 4 && |d| == 8
    ensures
      var data := MAGIC + a + b + c + d + body;
      && data[..4] == MAGIC && data[4..8] == a && data[8..12] == b && data[12..16] == c && data[16..24] == d
      && data[24..] == body
  {
  }

  /** `load` of `save`'s bytes restores keys, order, embeddings, values and counter;
      trailing bytes are ignored. */
  lemma LoadRestores(decode: Decoder, img: Image, trailing: Text)
    requires Fits(decode, img)
    ensures Parse(decode, Encode(img) + trailing) == Loaded(img)
  {
    hide EncodeHeader, EncodeEntries, ReadEntries, FromLE;
    var body := EncodeEntries(img.entries) + trailing;
    Assoc(EncodeHeader(img), EncodeEntries(img.entries), trailing);
    HeaderFields(img, body);
    EntriesRoundTrip(decode, img.entries, img.dim, 0, trailing);
  }

  /** Every strict prefix of a saved file is refused, except that lengths 20 to 23 pass
      the size guard and make `load` index out of range. */
  lemma TruncatedFileIsRefused(decode: Decoder, img: Image, n: nat)
    requires Fits(decode, img) && n < |Encode(img)|
    ensures
      var r := Parse(decode, Encode(img)[..n]);
      if 20 <= n < HEADER then r == Panics else r.Failed?
  {
    hide EncodeHeader, EncodeEntries, ReadEntries, FromLE;
    var data := Encode(img)[..n];
    HeaderFields(img, EncodeEntries(img.entries));
    if n >= HEADER {
      var body := EncodeEntries(img.entries)[..n - HEADER];
      assert data == EncodeHeader(img) + body;
      HeaderFields(img, body);
      EntriesCutOff(decode, img.entries, img.dim, 0, n - HEADER);
    } else if n >= 20 {
      assert data[..4] == Encode(img)[..4];
      assert data[4..8] == Encode(img)[4..8];
    }
  }

  /** Two stores with one file are one store. */
  lemma SaveIsInjective(decode: Decoder, a: Image, b: Image)
    requires Fits(decode, a) && Fits(decode, b) && Encode(a) == Encode(b)
    ensures a == b
  {
    LoadRestores(decode, a, []);
    LoadRestores(decode, b, []);
  }
}
