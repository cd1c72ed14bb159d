/**
 Strategic merge of a JSON patch into a manifest (kubectl patch/apply).

 `Merge` is the value a merge leaves in the base tree.  Objects merge field by field, a
 null field deletes, arrays of objects merge by the first merge key that every element
 of both sides holds, everything else is replaced.
 */
module StrategicMerge {
  import opened Bytes

  /** Numbers are only ever compared for equality, so an integer stands for each. */
  datatype Json =
    | Null
    | Bool(b: bool)
    | Num(n: int)
    | Str(s: string)
    | Arr(items: seq<Json>)
    | Obj(fields: map<string, Json>)

  const MERGE_KEYS: seq<string> := ["name", "containerPort", "mountPath"]

  function Get(v: Json, k: string): (r: Option<Json>)
  {
    if v.Obj? && k in v.fields then Some(v.fields[k]) else None
  }

  predicate AllHold(xs: seq<Json>, k: string)
  {
    forall i :: 0 <= i < |xs| ==> Get(xs[i], k).Some?
  }

  predicate Usable(b: seq<Json>, p: seq<Json>, k: string)
  {
    AllHold(p, k) && AllHold(b, k) && p != []
  }

  /** The merge key both sides use, in priority order. */
  function ChooseKey(b: seq<Json>, p: seq<Json>): (r: Option<string>)
    ensures r.Some? ==> r.value in MERGE_KEYS && Usable(b, p, r.value)
    ensures r.None? ==> forall k :: k in MERGE_KEYS ==> !Usable(b, p, k)
  {
    if Usable(b, p, "name") then Some("name")
    else if Usable(b, p, "containerPort") then Some("containerPort")
    else if Usable(b, p, "mountPath") then Some("mountPath")
    else None
  }

  /** Index of the first element whose `k` field is `v`. */
  function FirstMatch(xs: seq<Json>, k: string, v: Option<Json>): (r: Option<nat>)
    ensures r.Some? ==> r.value < |xs| && Get(xs[r.value], k) == v
    ensures r.Some? ==> forall i :: 0 <= i < r.value ==> Get(xs[i], k) != v
    ensures r.None? ==> forall i :: 0 <= i < |xs| ==> Get(xs[i], k) != v
  {
    if xs == [] then None
    else if Get(xs[0], k) == v then Some(0)
    else match FirstMatch(xs[1..], k, v)
      case None => None
      case Some(i) => assert xs[1..][i] == xs[1 + i]; Some(i + 1)
  }

  lemma FirstMatchIs(xs: seq<Json>, k: string, v: Option<Json>, i: nat)
    requires i < |xs| && Get(xs[i], k) == v
    requires forall h :: 0 <= h < i ==> Get(xs[h], k) != v
    ensures FirstMatch(xs, k, v) == Some(i)
  {
  }

  // ---- the merge as a function of base and patch ----

  function Merge(b: Json, p: Json): (r: Json)
    decreases p, 0
  {
    if b.Obj? && p.Obj? then
      Obj(map k | k in b.fields.Keys + p.fields.Keys && !(k in p.fields && p.fields[k].Null?) ::
            if k !in p.fields then b.fields[k]
            else if k !in b.fields then p.fields[k]
            else MergeValue(b.fields[k], p.fields[k]))
    else p
  }

  function MergeValue(bv: Json, pv: Json): (r: Json)
    decreases pv, 1
  {
    if bv.Arr? && pv.Arr? then Arr(MergeArrays(bv.items, pv.items))
    else if bv.Obj? && pv.Obj? then Merge(bv, pv)
    else pv
  }

  function MergeArrays(b: seq<Json>, p: seq<Json>): (r: seq<Json>)
    decreases p, 1
  {
    match ChooseKey(b, p)
    case Some(k) => MergeElements(b, p, k)
    case None => p
  }

  /** The patch elements taken one after the other, in patch order. */
  function MergeElements(b: seq<Json>, p: seq<Json>, k: string): (r: seq<Json>)
    decreases p, 0
  {
    if p == [] then b
    else
      var acc := MergeElements(b, p[..|p| - 1], k);
      var pe := p[|p| - 1];
      match FirstMatch(acc, k, Get(pe, k))
      case Some(i) => acc[i := Merge(acc[i], pe)]
      case None => acc + [pe]
  }

  // ---- the merge as the code performs it ----

  method StrategicMerge(base: Json, patch: Json) returns (r: Json)
    ensures r == Merge(base, patch)
    decreases patch, 0
  {
    if base.Obj? && patch.Obj? {
      var b := base.fields;
      var rest := patch.fields.Keys;
      while rest != {}
        invariant rest <= patch.fields.Keys
        invariant forall k :: k in rest ==> (k in b <==> k in base.fields) && (k in b ==> b[k] == base.fields[k])
        invariant forall k :: k !in rest ==> (k in b <==> k in Merge(base, patch).fields)
        invariant forall k :: k !in rest && k in b ==> b[k] == Merge(base, patch).fields[k]
        decreases rest
      {
        var k :| k in rest;
        var pv := patch.fields[k];
        if pv.Null? {
          b := b - {k};
        } else if k in b {
          var bv := b[k];
          if bv.Arr? && pv.Arr? {
            bv := MergeArraysInPlace(bv, pv);
          } else if bv.Obj? && pv.Obj? {
            bv := StrategicMerge(bv, pv);
          } else {
            bv := pv;
          }
          b := b[k := bv];
        } else {
          b := b[k := pv];
        }
        rest := rest - {k};
      }
      r := Obj(b);
      assert b == Merge(base, patch).fields;
    } else {
      r := patch;
    }
  }

  method MergeArraysInPlace(base: Json, patch: Json) returns (r: Json)
    requires base.Arr? && patch.Arr?
    ensures r == MergeValue(base, patch)
    decreases patch, 1
  {
    var b, p := base.items, patch.items;
    var key := ChooseKey(b, p);
    if key.None? {
      return patch;
    }
    var k := key.value;
    var merged := b;
    for i := 0 to |p|
      invariant merged == MergeElements(b, p[..i], k)
    {
      var pe := p[i];
      assert p[..i + 1][..i] == p[..i];
      var at := FirstMatch(merged, k, Get(pe, k));
      if at.Some? {
        var be := StrategicMerge(merged[at.value], pe);
        merged := merged[at.value := be];
      } else {
        merged := merged + [pe];
      }
    }
    assert p[..|p|] == p;
    r := Arr(merged);
  }
}
