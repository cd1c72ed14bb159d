/**
 The neural key-value store: an entry vector, a hash index into it, a lazily built matrix
 of key embeddings and a modification counter.  Deletion swaps the last entry into the
 freed slot.  Seen from outside it is a plain map.
 */
module NeuralState {
  import opened Bytes
  import opened StateFile

  type Key = Text
  type Value = Text

  const DEFAULT_DIM := 64

  /** The deterministic key embedding; its float arithmetic is not modelled. */
  type Embed = (Key, nat) -> seq<F32>

  // ---- the representation ----

  /** Entries and index are in bijection: no key twice, every slot indexed under its key. */
  predicate Indexed(entries: seq<Entry>, index: map<Key, nat>)
  {
    && (forall i :: 0 <= i < |entries| ==> entries[i].key in index && index[entries[i].key] == i)
    && (forall k :: k in index ==> index[k] < |entries| && entries[index[k]].key == k)
  }

  function Embeddings(entries: seq<Entry>): (rows: seq<seq<F32>>)
    ensures |rows| == |entries|
  {
    seq(|entries|, i requires 0 <= i < |entries| => entries[i].embedding)
  }

  function ContentsOf(entries: seq<Entry>, index: map<Key, nat>): (m: map<Key, Value>)
    requires Indexed(entries, index)
  {
    map k | k in index :: entries[index[k]].value
  }

  predicate DistinctKeys(entries: seq<Entry>)
  {
    forall i, j :: 0 <= i < j < |entries| ==> entries[i].key != entries[j].key
  }

  lemma {:induction false} KeysCount(entries: seq<Entry>)
    requires DistinctKeys(entries)
    ensures |set i | 0 <= i < |entries| :: entries[i].key| == |entries|
  {
    var all := set i | 0 <= i < |entries| :: entries[i].key;
    if entries != [] {
      var init := entries[..|entries| - 1];
      KeysCount(init);
      var few := set i | 0 <= i < |init| :: init[i].key;
      assert all == few + {entries[|entries| - 1].key};
    }
  }

  /** The map has as many keys as there are entries. */
  lemma LengthIsCardinality(entries: seq<Entry>, index: map<Key, nat>)
    requires Indexed(entries, index)
    ensures |ContentsOf(entries, index)| == |entries|
  {
    KeysCount(entries);
    assert ContentsOf(entries, index).Keys == set i | 0 <= i < |entries| :: entries[i].key;
  }

  /** The freed slot takes the last entry. */
  function SwapRemove(entries: seq<Entry>, i: nat): (r: seq<Entry>)
    requires i < |entries|
  {
    var last := |entries| - 1;
    if i == last then entries[..last] else entries[i := entries[last]][..last]
  }

  function IndexAfterDelete(entries: seq<Entry>, index: map<Key, nat>, key: Key): (r: map<Key, nat>)
    requires entries != [] && key in index
  {
    var last := |entries| - 1;
    var rest := index - {key};
    if index[key] == last then rest else rest[entries[last].key := index[key]]
  }

  lemma Lookup(entries: seq<Entry>, index: map<Key, nat>, key: Key)
    requires Indexed(entries, index) && key in index
    ensures index[key] < |entries| && entries[index[key]].key == key && key in ContentsOf(entries, index)
  {
  }

  lemma AbsentKey(entries: seq<Entry>, index: map<Key, nat>, key: Key)
    requires Indexed(entries, index) && key !in index
    ensures key !in ContentsOf(entries, index) && ContentsOf(entries, index) - {key} == ContentsOf(entries, index)
  {
  }

  lemma DeleteKeepsBijection(entries: seq<Entry>, index: map<Key, nat>, key: Key)
    requires Indexed(entries, index) && key in index
    ensures
      var entries' := SwapRemove(entries, index[key]);
      var index' := IndexAfterDelete(entries, index, key);
      Indexed(entries', index') && ContentsOf(entries', index') == ContentsOf(entries, index) - {key}
  {
  }

  lemma SetKeepsBijection(entries: seq<Entry>, index: map<Key, nat>, key: Key, value: Value, embedding: seq<F32>)
    requires Indexed(entries, index)
    ensures key in index ==>
              var entries' := entries[index[key] := entries[index[key]].(value := value)];
              Indexed(entries', index) && ContentsOf(entries', index) == ContentsOf(entries, index)[key := value]
    ensures key !in index ==>
              var entries', index' := entries + [Entry(key, embedding, value)], index[key := |entries|];
              Indexed(entries', index') && ContentsOf(entries', index') == ContentsOf(entries, index)[key := value]
  {
  }

  // ---- the store ----

  datatype Op = SetOp(key: Key, value: Value) | DeleteOp(key: Key) | SearchOp

  /** The effect of one operation on the plain map. */
  function Apply(m: map<Key, Value>, op: Op): (r: map<Key, Value>)
  {
    match op
    case SetOp(k, v) => m[k := v]
    case DeleteOp(k) => m - {k}
    case SearchOp => m
  }

  function ApplyAll(m: map<Key, Value>, ops: seq<Op>): (r: map<Key, Value>)
  {
    if ops == [] then m else Apply(ApplyAll(m, ops[..|ops| - 1]), ops[|ops| - 1])
  }

  class NeuralState {
    const embed: Embed
    const dim: nat
    var entries: seq<Entry>
    var index: map<Key, nat>
    var keyMatrix: Option<seq<seq<F32>>>
    var version: nat

    ghost predicate Valid()
      reads this
    {
      && Indexed(entries, index)
      && (forall i :: 0 <= i < |entries| ==> |entries[i].embedding| == dim)
      && (keyMatrix.Some? ==> keyMatrix.value == Embeddings(entries))
      && (forall k :: |embed(k, dim)| == dim)
      && version < 0x1_0000_0000_0000_0000
    }

    ghost function Contents(): map<Key, Value>
      requires Valid()
      reads this
    {
      ContentsOf(entries, index)
    }

    constructor (embed: Embed)
      requires forall k :: |embed(k, DEFAULT_DIM)| == DEFAULT_DIM
      ensures Valid() && Contents() == map[] && version == 0
      ensures this.embed == embed && dim == 64
    {
      this.embed, dim := embed, DEFAULT_DIM;
      entries, index, keyMatrix, version := [], map[], None, 0;
    }

    method Set(key: Key, value: Value)
      requires Valid() && (dim > 0 || key in Contents() || key == [])
      modifies this
      ensures Valid() && Contents() == old(Contents())[key := value]
      ensures version == (old(version) + 1) % 0x1_0000_0000_0000_0000 && keyMatrix == None
      ensures entries == if key in old(index)
                         then old(entries)[old(index)[key] := old(entries)[old(index)[key]].(value := value)]
                         else old(entries) + [Entry(key, embed(key, dim), value)]
    {
      hide Indexed, ContentsOf;
      SetKeepsBijection(entries, index, key, value, embed(key, dim));
      if key in index {
        Lookup(entries, index, key);
      }
      keyMatrix := None;
      version := (version + 1) % 0x1_0000_0000_0000_0000;
      if key in index {
        var i := index[key];
        entries := entries[i := entries[i].(value := value)];
      } else {
        var i := |entries|;
        entries := entries + [Entry(key, embed(key, dim), value)];
        index := index[key := i];
      }
    }

    method Get(key: Key) returns (r: Option<Value>)
      requires Valid()
      ensures r == if key in Contents() then Some(Contents()[key]) else None
    {
      r := if key in index then Some(entries[index[key]].value) else None;
    }

    method Delete(key: Key) returns (existed: bool)
      requires Valid()
      modifies this
      ensures Valid() && Contents() == old(Contents()) - {key}
      ensures existed == (key in old(Contents()))
      ensures existed ==> version == (old(version) + 1) % 0x1_0000_0000_0000_0000 && keyMatrix == None
      ensures existed ==> entries == SwapRemove(old(entries), old(index)[key])
      ensures !existed ==> unchanged(this)
    {
      hide Indexed, ContentsOf;
      if key !in index {
        AbsentKey(entries, index, key);
        return false;
      }
      Lookup(entries, index, key);
      DeleteKeepsBijection(entries, index, key);
      var i := index[key];
      index := index - {key};
      keyMatrix := None;
      version := (version + 1) % 0x1_0000_0000_0000_0000;
      var last := |entries| - 1;
      if i != last {
        var lastKey := entries[last].key;
        entries := entries[i := entries[last]][last := entries[i]];
        index := index[lastKey := i];
      }
      entries := entries[..last];
      assert entries == SwapRemove(old(entries), i);
      existed := true;
    }

    /** All keys with a prefix, each once; the order is the hash map's. */
    method ListPrefix(prefix: Key) returns (keys: seq<Key>)
      requires Valid()
      ensures forall k :: k in keys <==> k in Contents() && prefix <= k
      ensures forall i, j :: 0 <= i < j < |keys| ==> keys[i] != keys[j]
    {
      keys := [];
      var rest := index.Keys;
      while rest != {}
        invariant rest <= index.Keys
        invariant forall i :: 0 <= i < |keys| ==> keys[i] in index.Keys && keys[i] !in rest && prefix <= keys[i]
        invariant forall k :: k in index.Keys && k !in rest && prefix <= k ==> k in keys
        invariant forall i, j :: 0 <= i < j < |keys| ==> keys[i] != keys[j]
        decreases rest
      {
        var k :| k in rest;
        ghost var before := keys;
        if prefix <= k {
          keys := keys + [k];
          assert keys[|before|] == k;
        }
        rest := rest - {k};
        assert forall x :: x in before ==> x in keys;
      }
    }

    /** The cached part of a fuzzy search: the matrix the scores are computed from. */
    method SearchMatrix() returns (rows: seq<seq<F32>>)
      requires Valid()
      modifies this`keyMatrix
      ensures Valid() && Contents() == old(Contents())
      ensures rows == Embeddings(entries)
      ensures entries != [] ==> keyMatrix == Some(rows)
      ensures entries == [] ==> keyMatrix == old(keyMatrix)
    {
      if entries == [] {
        return [];
      }
      if keyMatrix.None? {
        var mat: seq<seq<F32>> := [];
        for i := 0 to |entries|
          invariant mat == Embeddings(entries[..i])
          invariant Valid() && keyMatrix == old(keyMatrix)
        {
          mat := mat + [entries[i].embedding];
        }
        assert entries[..|entries|] == entries;
        keyMatrix := Some(mat);
      }
      rows := keyMatrix.value;
    }

    method Len() returns (n: nat)
      requires Valid()
      ensures n == |Contents()|
    {
      LengthIsCardinality(entries, index);
      n := |entries|;
    }

    /** Through every sequence of operations the store is the plain map. */
    method Run(ops: seq<Op>)
      requires Valid() && dim > 0
      modifies this
      ensures Valid() && Contents() == ApplyAll(old(Contents()), ops)
    {
      for i := 0 to |ops|
        invariant Valid() && Contents() == ApplyAll(old(Contents()), ops[..i])
      {
        assert ops[..i + 1][..i] == ops[..i];
        match ops[i] {
          case SetOp(k, v) => Set(k, v);
          case DeleteOp(k) => var _ := Delete(k);
          case SearchOp => var _ := SearchMatrix();
        }
      }
      assert ops[..|ops|] == ops;
    }

    ghost function Snapshot(): Image
      reads this
    {
      Image(dim, entries, version)
    }

    method SaveTo() returns (file: Text)
      ensures file == Encode(Snapshot())
    {
      file := Save(Image(dim, entries, version));
    }

    /** A store read back from a file.  The index is rebuilt entry by entry, so a key that
        occurs twice in the file leaves the index on its last entry. */
    constructor FromImage(embed: Embed, img: Image)
      requires forall k :: |embed(k, img.dim)| == img.dim
      requires forall i :: 0 <= i < |img.entries| ==> |img.entries[i].embedding| == img.dim
      requires img.version < 0x1_0000_0000_0000_0000
      ensures Snapshot() == img && this.embed == embed && keyMatrix == None
      ensures index == LastIndex(img.entries)
      ensures Valid() <==> DistinctKeys(img.entries)
    {
      hide Indexed;
      this.embed, dim, version := embed, img.dim, img.version;
      keyMatrix := None;
      entries := img.entries;
      index := map[];
      new;
      for i := 0 to |img.entries|
        invariant index == LastIndex(img.entries[..i])
        invariant Snapshot() == img && keyMatrix == None
      {
        assert img.entries[..i + 1][..i] == img.entries[..i];
        index := index[img.entries[i].key := i];
      }
      assert img.entries[..|img.entries|] == img.entries;
      LastIndexIsBijection(img.entries);
    }
  }

  function LastIndex(entries: seq<Entry>): (m: map<Key, nat>)
  {
    if entries == [] then map[]
    else
      var last := |entries| - 1;
      LastIndex(entries[..last])[entries[last].key := last]
  }

  lemma {:induction false} LastIndexInRange(entries: seq<Entry>, k: Key)
    requires k in LastIndex(entries)
    ensures LastIndex(entries)[k] < |entries| && entries[LastIndex(entries)[k]].key == k
  {
    var last := |entries| - 1;
    if entries[last].key != k {
      LastIndexInRange(entries[..last], k);
    }
  }

  lemma {:induction false} LastIndexIsLast(entries: seq<Entry>, i: nat)
    requires i < |entries|
    ensures entries[i].key in LastIndex(entries) && i <= LastIndex(entries)[entries[i].key]
  {
    var last := |entries| - 1;
    if i < last {
      LastIndexIsLast(entries[..last], i);
    }
  }

  lemma LastIndexPointsBack(entries: seq<Entry>)
    ensures forall k :: k in LastIndex(entries) ==>
              LastIndex(entries)[k] < |entries| && entries[LastIndex(entries)[k]].key == k
    ensures forall i :: 0 <= i < |entries| ==>
              entries[i].key in LastIndex(entries) && i <= LastIndex(entries)[entries[i].key]
  {
    hide LastIndex;
    forall k | k in LastIndex(entries)
      ensures LastIndex(entries)[k] < |entries| && entries[LastIndex(entries)[k]].key == k
    {
      LastIndexInRange(entries, k);
    }
    forall i | 0 <= i < |entries|
      ensures entries[i].key in LastIndex(entries) && i <= LastIndex(entries)[entries[i].key]
    {
      LastIndexIsLast(entries, i);
    }
  }

  /** The rebuilt index is a bijection exactly when no key repeats. */
  lemma LastIndexIsBijection(entries: seq<Entry>)
    ensures Indexed(entries, LastIndex(entries)) <==> DistinctKeys(entries)
  {
    hide LastIndex;
    LastIndexPointsBack(entries);
    var m := LastIndex(entries);
    if DistinctKeys(entries) {
      forall i | 0 <= i < |entries|
        ensures m[entries[i].key] == i
      {
        var j := m[entries[i].key];
        assert entries[j].key == entries[i].key && i <= j;
      }
    }
  }

  /** What a repeated key does.  In a store loaded with entries b, a, a the index knows the
      last a; deleting a and then b brings the first a back, with its old value. */
  lemma RepeatedKeyComesBack(b: Entry, a: Entry, a': Entry)
    requires a.key == a'.key != b.key
    ensures
      var entries := [b, a, a'];
      var index := LastIndex(entries);
      && index == map[b.key := 0, a.key := 2]
      && var entries1, index1 := SwapRemove(entries, 2), IndexAfterDelete(entries, index, a.key);
         && entries1 == [b, a] && index1 == map[b.key := 0]
         && SwapRemove(entries1, 0) == [a] && IndexAfterDelete(entries1, index1, b.key) == map[a.key := 0]
  {
    var entries := [b, a, a'];
    assert entries[..2] == [b, a] && entries[..2][..1] == [b] && entries[..2][..1][..0] == [];
    assert LastIndex([b]) == map[b.key := 0];
    assert LastIndex([b, a]) == map[b.key := 0, a.key := 1];
    assert LastIndex(entries) == map[b.key := 0, a.key := 2];
    assert [b, a][0 := a][..1] == [a];
    assert map[b.key := 0, a.key := 2] - {a.key} == map[b.key := 0];
    assert map[b.key := 0] - {b.key} == map[];
  }

  /** Save, reload: the same entries, order, counter and contents. */
  method SaveAndReload(decode: Decoder, store: NeuralState) returns (loaded: NeuralState)
    requires store.Valid() && Fits(decode, store.Snapshot())
    ensures fresh(loaded) && loaded.Valid() && loaded.Snapshot() == store.Snapshot()
    ensures loaded.Contents() == store.Contents()
  {
    var file := store.SaveTo();
    var r := Load(decode, file);
    LoadRestores(decode, store.Snapshot(), []);
    assert file + [] == file;
    loaded := new NeuralState.FromImage(store.embed, r.image);
    SameIndex(store.entries, store.index);
  }

  /** The reloaded store goes on as the saved one would: after any later operations on both
      they have the same contents. */
  method ReloadedStoreGoesOn(decode: Decoder, store: NeuralState, ops: seq<Op>) returns (loaded: NeuralState)
    requires store.Valid() && Fits(decode, store.Snapshot()) && store.dim > 0
    modifies store
    ensures fresh(loaded) && loaded.Valid() && store.Valid()
    ensures loaded.Contents() == store.Contents() == ApplyAll(old(store.Contents()), ops)
  {
    loaded := SaveAndReload(decode, store);
    assert loaded.Snapshot().dim == store.Snapshot().dim;
    loaded.Run(ops);
    store.Run(ops);
  }

  lemma SameIndex(entries: seq<Entry>, index: map<Key, nat>)
    requires Indexed(entries, index)
    ensures DistinctKeys(entries) && LastIndex(entries) == index
  {
    hide LastIndex;
    LastIndexPointsBack(entries);
    LastIndexIsBijection(entries);
    var m := LastIndex(entries);
    assert m.Keys == index.Keys;
  }
}
