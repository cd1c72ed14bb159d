/**
 What a strategic merge leaves behind, and when merging twice is merging once.

 Three results, over documents of any depth:
 - `MergeIsAsDescribed`: the result stated without the element-by-element loop;
 - `PatchIsContained`: every patch value is found at its path in the result;
 - `MergeIsIdempotent`: re-applying the same patch changes nothing, for a patch whose nulls
   only delete, with distinct keys and a stable key choice, and each hypothesis is needed.
 */
module StrategicMergeLaws {
  import opened Bytes
  import opened StrategicMerge

  // ---- vocabulary ----

  predicate NullFree(p: Json)
  {
    match p
    case Null => false
    case Arr(items) => forall i :: 0 <= i < |items| ==> NullFree(items[i])
    case Obj(fields) => forall k :: k in fields ==> NullFree(fields[k])
    case _ => true
  }

  predicate DistinctKeys(p: seq<Json>, k: string)
  {
    forall i, j :: 0 <= i < j < |p| ==> Get(p[i], k) != Get(p[j], k)
  }

  /** Patch element `j` merges into base element `i`. */
  predicate Touches(b: seq<Json>, p: seq<Json>, k: string, j: nat, i: nat)
    requires j < |p|
  {
    FirstMatch(b, k, Get(p[j], k)) == Some(i)
  }

  /** Patch elements whose key no base element has, in patch order. */
  function Fresh(b: seq<Json>, p: seq<Json>, k: string): (r: seq<Json>)
  {
    if p == [] then []
    else
      var last := p[|p| - 1];
      Fresh(b, p[..|p| - 1], k) +
      if FirstMatch(b, k, Get(last, k)).None? then [last] else []
  }

  predicate IsScalar(v: Json)
  {
    v.Bool? || v.Num? || v.Str?
  }

  // ---- the closed form of the array loop ----

  /** Every element of `p` holds key `k`, and merging a key value into itself keeps it. */
  predicate KeysSurvive(p: seq<Json>, k: string)
  {
    forall j :: 0 <= j < |p| ==>
      Get(p[j], k).Some? && !Get(p[j], k).value.Null? &&
      MergeValue(Get(p[j], k).value, Get(p[j], k).value) == Get(p[j], k).value
  }

  /** The merged array, position by position: base order is kept, a base element is merged
      with the patch element of its key if it is the first with that key, and is unchanged
      otherwise; the patch elements with new keys follow in patch order. */
  ghost predicate ClosedForm(b: seq<Json>, p: seq<Json>, k: string, r: seq<Json>)
  {
    && |r| >= |b|
    && (forall i, j :: 0 <= i < |b| && 0 <= j < |p| && Touches(b, p, k, j, i) ==> r[i] == Merge(b[i], p[j]))
    && (forall i :: 0 <= i < |b| && (forall j :: 0 <= j < |p| ==> !Touches(b, p, k, j, i)) ==> r[i] == b[i])
    && r[|b|..] == Fresh(b, p, k)
  }

  lemma MergeKeepsKey(be: Json, pe: Json, k: string)
    requires Get(pe, k).Some? && Get(be, k) == Get(pe, k)
    requires !Get(pe, k).value.Null?
    requires MergeValue(Get(pe, k).value, Get(pe, k).value) == Get(pe, k).value
    ensures Get(Merge(be, pe), k) == Get(pe, k)
  {
  }

  /** Keys of the merged array: those of the base, then those of the fresh elements. */
  lemma ClosedFormKeys(b: seq<Json>, p: seq<Json>, k: string, r: seq<Json>)
    requires KeysSurvive(p, k)
    requires ClosedForm(b, p, k, r)
    ensures forall i :: 0 <= i < |b| ==> Get(r[i], k) == Get(b[i], k)
  {
    forall i | 0 <= i < |b|
      ensures Get(r[i], k) == Get(b[i], k)
    {
      if j :| 0 <= j < |p| && Touches(b, p, k, j, i) {
        MergeKeepsKey(b[i], p[j], k);
      }
    }
  }

  lemma {:induction false} FreshMembers(b: seq<Json>, p: seq<Json>, k: string)
    ensures forall e :: e in Fresh(b, p, k) ==>
              exists j :: 0 <= j < |p| && p[j] == e && FirstMatch(b, k, Get(p[j], k)).None?
    ensures forall j :: 0 <= j < |p| && FirstMatch(b, k, Get(p[j], k)).None? ==> p[j] in Fresh(b, p, k)
  {
    if p != [] {
      var q := p[..|p| - 1];
      FreshMembers(b, q, k);
      forall e | e in Fresh(b, p, k)
        ensures exists j :: 0 <= j < |p| && p[j] == e && FirstMatch(b, k, Get(p[j], k)).None?
      {
        if e in Fresh(b, q, k) {
          var j :| 0 <= j < |q| && q[j] == e && FirstMatch(b, k, Get(q[j], k)).None?;
          assert p[j] == e;
        } else {
          assert p[|p| - 1] == e;
        }
      }
      forall j | 0 <= j < |p| && FirstMatch(b, k, Get(p[j], k)).None?
        ensures p[j] in Fresh(b, p, k)
      {
        if j < |q| { assert q[j] == p[j]; }
      }
    }
  }

  /** Where the next patch element lands: in the base element it matches, which no earlier
      patch element has changed, or nowhere. */
  lemma NextLanding(b: seq<Json>, q: seq<Json>, pe: Json, k: string, acc: seq<Json>)
    requires KeysSurvive(q, k) && ClosedForm(b, q, k, acc)
    requires Get(pe, k).Some?
    requires forall j :: 0 <= j < |q| ==> Get(q[j], k) != Get(pe, k)
    ensures FirstMatch(acc, k, Get(pe, k)) == FirstMatch(b, k, Get(pe, k))
    ensures var at := FirstMatch(b, k, Get(pe, k)); at.Some? ==> acc[at.value] == b[at.value]
  {
    ClosedFormKeys(b, q, k, acc);
    var at := FirstMatch(b, k, Get(pe, k));
    if at.Some? {
      FirstMatchIs(acc, k, Get(pe, k), at.value);
      assert forall j :: 0 <= j < |q| ==> !Touches(b, q, k, j, at.value);
    } else {
      FreshMembers(b, q, k);
      forall i | 0 <= i < |acc|
        ensures Get(acc[i], k) != Get(pe, k)
      {
        if i >= |b| {
          assert acc[i] == acc[|b|..][i - |b|];
          assert acc[i] in Fresh(b, q, k);
        }
      }
    }
  }

  /** One more patch element. */
  ghost predicate Extended(b: seq<Json>, acc: seq<Json>, pe: Json, at: Option<nat>, r: seq<Json>)
    requires |acc| >= |b| && (at.Some? ==> at.value < |b|)
  {
    match at
    case Some(i) => r == acc[i := Merge(b[i], pe)]
    case None => r == acc + [pe]
  }

  lemma ExtendTouched(b: seq<Json>, p: seq<Json>, k: string, acc: seq<Json>, r: seq<Json>, i: nat, j: nat)
    requires p != [] && ClosedForm(b, p[..|p| - 1], k, acc) && DistinctKeys(p, k)
    requires Extended(b, acc, p[|p| - 1], FirstMatch(b, k, Get(p[|p| - 1], k)), r)
    requires i < |b| && j < |p| && Touches(b, p, k, j, i)
    ensures r[i] == Merge(b[i], p[j])
  {
    var q := p[..|p| - 1];
    if j < |q| {
      assert Touches(b, q, k, j, i);
      assert Get(p[j], k) != Get(p[|p| - 1], k);
    }
  }

  lemma ExtendUntouched(b: seq<Json>, p: seq<Json>, k: string, acc: seq<Json>, r: seq<Json>, i: nat)
    requires p != [] && ClosedForm(b, p[..|p| - 1], k, acc)
    requires Extended(b, acc, p[|p| - 1], FirstMatch(b, k, Get(p[|p| - 1], k)), r)
    requires i < |b| && forall j :: 0 <= j < |p| ==> !Touches(b, p, k, j, i)
    ensures r[i] == b[i]
  {
    var q := p[..|p| - 1];
    assert !Touches(b, p, k, |p| - 1, i);
    assert forall j :: 0 <= j < |q| ==> !Touches(b, q, k, j, i) by {
      assert forall j :: 0 <= j < |q| ==> Touches(b, p, k, j, i) == Touches(b, q, k, j, i);
    }
  }

  /** The loop over the patch elements computes the closed form. */
  lemma {:induction false} ElementsClosedForm(b: seq<Json>, p: seq<Json>, k: string)
    requires KeysSurvive(p, k) && DistinctKeys(p, k)
    ensures ClosedForm(b, p, k, MergeElements(b, p, k))
  {
    if p == [] {
      assert b[|b|..] == [];
    } else {
      var q, pe := p[..|p| - 1], p[|p| - 1];
      ElementsClosedForm(b, q, k);
      var acc, r := MergeElements(b, q, k), MergeElements(b, p, k);
      var at := FirstMatch(b, k, Get(pe, k));
      NextLanding(b, q, pe, k, acc);
      assert Extended(b, acc, pe, at, r);
      forall i, j | 0 <= i < |b| && 0 <= j < |p| && Touches(b, p, k, j, i)
        ensures r[i] == Merge(b[i], p[j])
      {
        ExtendTouched(b, p, k, acc, r, i, j);
      }
      forall i | 0 <= i < |b| && (forall j :: 0 <= j < |p| ==> !Touches(b, p, k, j, i))
        ensures r[i] == b[i]
      {
        ExtendUntouched(b, p, k, acc, r, i);
      }
      assert r[|b|..] == if at.Some? then acc[|b|..] else acc[|b|..] + [pe];
    }
  }

  // ---- the description of the result ----

  /** What a merge leaves, stated on the result `r` alone: deleted fields are gone, fields
      the patch does not mention and keyed elements it does not name are unchanged, new
      fields and elements are the patch's own. */
  ghost predicate Described(b: Json, p: Json, r: Json)
    decreases p, 0
  {
    if b.Obj? && p.Obj? then
      && r.Obj?
      && r.fields.Keys == (b.fields.Keys + p.fields.Keys) - (set k | k in p.fields && p.fields[k].Null?)
      && (forall k :: k in r.fields && k !in p.fields ==> r.fields[k] == b.fields[k])
      && (forall k :: k in r.fields && k !in b.fields ==> r.fields[k] == p.fields[k])
      && (forall k :: k in r.fields && k in b.fields && k in p.fields ==>
            DescribedValue(b.fields[k], p.fields[k], r.fields[k]))
    else
      r == p
  }

  ghost predicate DescribedValue(b: Json, p: Json, r: Json)
    decreases p, 1
  {
    if b.Arr? && p.Arr? then
      r.Arr? && DescribedArray(b.items, p.items, r.items)
    else if b.Obj? && p.Obj? then
      Described(b, p, r)
    else
      r == p
  }

  ghost predicate DescribedArray(b: seq<Json>, p: seq<Json>, r: seq<Json>)
    decreases p, 1
  {
    match ChooseKey(b, p)
    case None => r == p
    case Some(k) =>
      && |r| == |b| + |Fresh(b, p, k)|
      && (forall i, j :: 0 <= i < |b| && 0 <= j < |p| && Touches(b, p, k, j, i) ==> Described(b[i], p[j], r[i]))
      && (forall i :: 0 <= i < |b| && (forall j :: 0 <= j < |p| ==> !Touches(b, p, k, j, i)) ==> r[i] == b[i])
      && r[|b|..] == Fresh(b, p, k)
  }

  /** Wherever two arrays meet and are merged by a key, the patch's values of that key are
      scalar and distinct. */
  predicate KeyedFor(b: Json, p: Json)
    decreases p, 0
  {
    b.Obj? && p.Obj? ==>
      forall k :: k in b.fields && k in p.fields ==> KeyedForValue(b.fields[k], p.fields[k])
  }

  predicate KeyedForValue(b: Json, p: Json)
    decreases p, 1
  {
    && (b.Obj? && p.Obj? ==> KeyedFor(b, p))
    && (b.Arr? && p.Arr? ==> KeyedForArray(b.items, p.items))
  }

  predicate KeyedForArray(b: seq<Json>, p: seq<Json>)
    decreases p, 1
  {
    match ChooseKey(b, p)
    case None => true
    case Some(k) =>
      && DistinctKeys(p, k)
      && (forall j :: 0 <= j < |p| ==> IsScalar(Get(p[j], k).value))
      && (forall i, j :: 0 <= i < |b| && 0 <= j < |p| && Touches(b, p, k, j, i) ==> KeyedFor(b[i], p[j]))
  }

  /** The merged document is the described one, whatever the depth and the order of the
      patch elements. */
  lemma {:induction false} MergeIsAsDescribed(b: Json, p: Json)
    requires KeyedFor(b, p)
    ensures Described(b, p, Merge(b, p))
    decreases p, 0
  {
    if b.Obj? && p.Obj? {
      forall k | k in b.fields && k in p.fields
        ensures DescribedValue(b.fields[k], p.fields[k], MergeValue(b.fields[k], p.fields[k]))
      {
        ValueIsAsDescribed(b.fields[k], p.fields[k]);
      }
    }
  }

  lemma {:induction false} ValueIsAsDescribed(b: Json, p: Json)
    requires KeyedForValue(b, p)
    ensures DescribedValue(b, p, MergeValue(b, p))
    decreases p, 1
  {
    if b.Arr? && p.Arr? {
      var key := ChooseKey(b.items, p.items);
      if key.Some? {
        ElementsClosedForm(b.items, p.items, key.value);
        forall i, j | 0 <= i < |b.items| && 0 <= j < |p.items| && Touches(b.items, p.items, key.value, j, i)
          ensures Described(b.items[i], p.items[j], Merge(b.items[i], p.items[j]))
        {
          MergeIsAsDescribed(b.items[i], p.items[j]);
        }
      }
    } else if b.Obj? && p.Obj? {
      MergeIsAsDescribed(b, p);
    }
  }

  // ---- every patch value is in the result ----

  /** `r` contains the patch: fields at their names, array elements at the first element
      that carries the same merge key value. */
  ghost predicate Contains(r: Json, p: Json)
    decreases p
  {
    match p
    case Obj(fields) => r.Obj? && forall k :: k in fields ==> k in r.fields && Contains(r.fields[k], fields[k])
    case Arr(items) => r == p || (r.Arr? && exists k :: k in MERGE_KEYS && ContainsKeyed(r.items, items, k))
    case _ => r == p
  }

  ghost predicate ContainsKeyed(r: seq<Json>, p: seq<Json>, k: string)
    decreases p
  {
    AllHold(p, k) &&
    forall j :: 0 <= j < |p| ==>
      var at := FirstMatch(r, k, Get(p[j], k));
      at.Some? && Contains(r[at.value], p[j])
  }

  lemma {:induction false} ContainsItself(p: Json)
    requires NullFree(p)
    ensures Contains(p, p)
  {
    if p.Obj? {
      forall k | k in p.fields
        ensures Contains(p.fields[k], p.fields[k])
      {
        ContainsItself(p.fields[k]);
      }
    }
  }

  lemma LocatedInBase(b: seq<Json>, p: seq<Json>, k: string, r: seq<Json>, j: nat, i: nat)
    requires KeysSurvive(p, k) && ClosedForm(b, p, k, r)
    requires j < |p| && Touches(b, p, k, j, i)
    ensures FirstMatch(r, k, Get(p[j], k)) == Some(i) && r[i] == Merge(b[i], p[j])
  {
    ClosedFormKeys(b, p, k, r);
    FirstMatchIs(r, k, Get(p[j], k), i);
  }

  lemma LocatedAfterBase(b: seq<Json>, p: seq<Json>, k: string, r: seq<Json>, j: nat)
    requires KeysSurvive(p, k) && DistinctKeys(p, k) && ClosedForm(b, p, k, r)
    requires j < |p| && FirstMatch(b, k, Get(p[j], k)).None?
    ensures var at := FirstMatch(r, k, Get(p[j], k)); at.Some? && r[at.value] == p[j]
  {
    ClosedFormKeys(b, p, k, r);
    FreshMembers(b, p, k);
    var v, added := Get(p[j], k), Fresh(b, p, k);
    var h :| 0 <= h < |added| && added[h] == p[j];
    assert r[|b| + h] == r[|b|..][h];
    var at := FirstMatch(r, k, v);
    assert r[at.value] == r[|b|..][at.value - |b|];
    assert r[at.value] in added;
  }

  lemma {:induction false} PatchIsContained(b: Json, p: Json)
    requires NullFree(p) && KeyedFor(b, p)
    ensures Contains(Merge(b, p), p)
    decreases p, 0
  {
    if b.Obj? && p.Obj? {
      forall k | k in p.fields
        ensures k in Merge(b, p).fields && Contains(Merge(b, p).fields[k], p.fields[k])
      {
        if k in b.fields {
          ValueIsContained(b.fields[k], p.fields[k]);
        } else {
          ContainsItself(p.fields[k]);
        }
      }
    } else {
      ContainsItself(p);
    }
  }

  lemma {:induction false} ElementIsContained(b: seq<Json>, p: seq<Json>, k: string, r: seq<Json>, j: nat)
    requires j < |p| && NullFree(p[j])
    requires KeysSurvive(p, k) && DistinctKeys(p, k) && ClosedForm(b, p, k, r)
    requires forall i :: 0 <= i < |b| && Touches(b, p, k, j, i) ==> KeyedFor(b[i], p[j])
    ensures var at := FirstMatch(r, k, Get(p[j], k)); at.Some? && Contains(r[at.value], p[j])
    decreases p, 0
  {
    var inBase := FirstMatch(b, k, Get(p[j], k));
    if inBase.Some? {
      LocatedInBase(b, p, k, r, j, inBase.value);
      PatchIsContained(b[inBase.value], p[j]);
    } else {
      LocatedAfterBase(b, p, k, r, j);
      ContainsItself(p[j]);
    }
  }

  lemma {:induction false} ValueIsContained(b: Json, p: Json)
    requires NullFree(p) && KeyedForValue(b, p)
    ensures Contains(MergeValue(b, p), p)
    decreases p, 1
  {
    if b.Arr? && p.Arr? {
      var key := ChooseKey(b.items, p.items);
      if key.Some? {
        var k, r := key.value, MergeElements(b.items, p.items, key.value);
        ElementsClosedForm(b.items, p.items, k);
        hide MergeElements;
        forall j | 0 <= j < |p.items|
          ensures var at := FirstMatch(r, k, Get(p.items[j], k)); at.Some? && Contains(r[at.value], p.items[j])
        {
          ElementIsContained(b.items, p.items, k, r, j);
        }
        assert ContainsKeyed(r, p.items, k);
      }
    } else if b.Obj? && p.Obj? {
      PatchIsContained(b, p);
    } else {
      ContainsItself(p);
    }
  }

  // ---- merging twice ----

  /** A patch with no null whose arrays, where they have a common merge key, have
      distinct values of it. */
  predicate WellKeyed(p: Json)
  {
    match p
    case Null => false
    case Arr(items) =>
      && (forall i :: 0 <= i < |items| ==> WellKeyed(items[i]))
      && (ChooseKey(items, items).Some? ==> DistinctKeys(items, ChooseKey(items, items).value))
    case Obj(fields) => forall k :: k in fields ==> WellKeyed(fields[k])
    case _ => true
  }

  /** The patch is well-keyed wherever it is inserted or replaces; where objects meet, its
      nulls may delete fields, though not the key by which array elements meet. */
  predicate WellKeyedFor(b: Json, p: Json)
    decreases p, 0
  {
    if b.Obj? && p.Obj? then
      forall k :: k in p.fields && !p.fields[k].Null? ==>
        if k in b.fields then WellKeyedForValue(b.fields[k], p.fields[k]) else WellKeyed(p.fields[k])
    else
      WellKeyed(p)
  }

  predicate WellKeyedForValue(b: Json, p: Json)
    decreases p, 1
  {
    if b.Arr? && p.Arr? then WellKeyedForArray(b.items, p.items)
    else if b.Obj? && p.Obj? then WellKeyedFor(b, p)
    else WellKeyed(p)
  }

  predicate WellKeyedForArray(b: seq<Json>, p: seq<Json>)
    decreases p, 1
  {
    match ChooseKey(b, p)
    case None => WellKeyed(Arr(p))
    case Some(k) =>
      forall j :: 0 <= j < |p| ==>
        && WellKeyed(Get(p[j], k).value)
        && match FirstMatch(b, k, Get(p[j], k))
           case Some(i) => WellKeyedFor(b[i], p[j])
           case None => WellKeyed(p[j])
  }

  /** In particular a patch that is well-keyed throughout. */
  lemma {:induction false} WellKeyedAnywhere(b: Json, p: Json)
    requires WellKeyed(p)
    ensures WellKeyedFor(b, p) && WellKeyedForValue(b, p)
    decreases p
  {
    if b.Obj? && p.Obj? {
      forall k | k in p.fields && k in b.fields
        ensures WellKeyedForValue(b.fields[k], p.fields[k])
      {
        WellKeyedAnywhere(b.fields[k], p.fields[k]);
      }
    } else if b.Arr? && p.Arr? && ChooseKey(b.items, p.items).Some? {
      var k := ChooseKey(b.items, p.items).value;
      forall j | 0 <= j < |p.items|
        ensures WellKeyed(Get(p.items[j], k).value)
        ensures forall i :: 0 <= i < |b.items| ==> WellKeyedFor(b.items[i], p.items[j])
      {
        assert Get(p.items[j], k).Some? && WellKeyed(p.items[j]);
        forall i | 0 <= i < |b.items|
          ensures WellKeyedFor(b.items[i], p.items[j])
        {
          WellKeyedAnywhere(b.items[i], p.items[j]);
        }
      }
    }
  }

  predicate Precedes(k': string, k: string)
  {
    (k' == "name" && (k == "containerPort" || k == "mountPath")) || (k' == "containerPort" && k == "mountPath")
  }

  predicate Untouched(b: seq<Json>, p: seq<Json>, k: string, i: nat)
  {
    forall j :: 0 <= j < |p| ==> !Touches(b, p, k, j, i)
  }

  /** After the merge, element `i` is without `k'`: it was, untouched, or the patch deletes it. */
  predicate Lacks(b: seq<Json>, p: seq<Json>, k: string, k': string, i: nat)
    requires i < |b|
  {
    || (Untouched(b, p, k, i) && Get(b[i], k').None?)
    || exists j :: 0 <= j < |p| && Touches(b, p, k, j, i) && Get(p[j], k') == Some(Null)
  }

  /** No key of higher priority becomes usable by the merge itself: each such key that all
      patch elements hold is missing from some element afterwards. */
  predicate KeyStays(b: seq<Json>, p: seq<Json>, k: string)
  {
    forall k' :: k' in MERGE_KEYS && Precedes(k', k) && AllHold(p, k') ==>
      exists i :: 0 <= i < |b| && Lacks(b, p, k, k', i)
  }

  /** Wherever two arrays meet and are merged by a key, that key's values are distinct in
      the patch and the key stays the one to choose. */
  predicate StableKeys(b: Json, p: Json)
    decreases p, 0
  {
    b.Obj? && p.Obj? ==>
      forall k :: k in b.fields && k in p.fields ==> StableValue(b.fields[k], p.fields[k])
  }

  predicate StableValue(b: Json, p: Json)
    decreases p, 1
  {
    && (b.Obj? && p.Obj? ==> StableKeys(b, p))
    && (b.Arr? && p.Arr? ==> StableArray(b.items, p.items))
  }

  predicate StableArray(b: seq<Json>, p: seq<Json>)
    decreases p, 1
  {
    match ChooseKey(b, p)
    case None => true
    case Some(k) =>
      && DistinctKeys(p, k)
      && KeyStays(b, p, k)
      && (forall i, j :: 0 <= i < |b| && 0 <= j < |p| && Touches(b, p, k, j, i) ==> StableKeys(b[i], p[j]))
  }

  /** If every patch element already sits, merged, at the place of its key, the loop
      changes nothing. */
  lemma {:induction false} ElementsFixpoint(r: seq<Json>, p: seq<Json>, k: string)
    requires forall j :: 0 <= j < |p| ==>
               var at := FirstMatch(r, k, Get(p[j], k)); at.Some? && Merge(r[at.value], p[j]) == r[at.value]
    ensures MergeElements(r, p, k) == r
  {
    if p != [] {
      ElementsFixpoint(r, p[..|p| - 1], k);
    }
  }

  /** A well-keyed patch merged into itself is itself. */
  lemma {:induction false} MergeIntoItself(p: Json)
    requires WellKeyed(p)
    ensures MergeValue(p, p) == p
    ensures p.Obj? ==> Merge(p, p) == p
  {
    if p.Obj? {
      forall k | k in p.fields
        ensures MergeValue(p.fields[k], p.fields[k]) == p.fields[k]
      {
        MergeIntoItself(p.fields[k]);
      }
      assert Merge(p, p).fields == p.fields;
    } else if p.Arr? && ChooseKey(p.items, p.items).Some? {
      var k := ChooseKey(p.items, p.items).value;
      forall j | 0 <= j < |p.items|
        ensures FirstMatch(p.items, k, Get(p.items[j], k)) == Some(j) && Merge(p.items[j], p.items[j]) == p.items[j]
      {
        FirstMatchIs(p.items, k, Get(p.items[j], k), j);
        assert Get(p.items[j], k).Some?;
        MergeIntoItself(p.items[j]);
      }
      ElementsFixpoint(p.items, p.items, k);
    }
  }

  lemma WellKeyedKeysSurvive(p: seq<Json>, k: string)
    requires AllHold(p, k)
    requires forall i :: 0 <= i < |p| ==> WellKeyed(Get(p[i], k).value)
    ensures KeysSurvive(p, k)
  {
    forall j | 0 <= j < |p|
      ensures !Get(p[j], k).value.Null?
      ensures MergeValue(Get(p[j], k).value, Get(p[j], k).value) == Get(p[j], k).value
    {
      MergeIntoItself(Get(p[j], k).value);
    }
  }

  /** Which merged element holds a key that all patch elements hold. */
  lemma KeyHeldAgain(b: seq<Json>, p: seq<Json>, k: string, r: seq<Json>, k': string, i: nat)
    requires ClosedForm(b, p, k, r) && AllHold(b, k) && AllHold(p, k') && i < |r|
    ensures Get(r[i], k').None? <==> i < |b| && Lacks(b, p, k, k', i)
  {
    if i >= |b| {
      FreshMembers(b, p, k);
      assert r[i] == r[|b|..][i - |b|];
      assert r[i] in Fresh(b, p, k);
    } else if !Untouched(b, p, k, i) {
      var j :| 0 <= j < |p| && Touches(b, p, k, j, i);
      assert Get(b[i], k).Some? && Get(p[j], k').Some?;
      assert r[i] == Merge(b[i], p[j]);
      assert Get(r[i], k').None? <==> p[j].fields[k'].Null?;
      forall h | 0 <= h < |p| && Touches(b, p, k, h, i)
        ensures Get(p[h], k') == Some(Null) <==> Get(r[i], k').None?
      {
        assert Get(p[h], k').Some? && r[i] == Merge(b[i], p[h]);
      }
    }
  }

  lemma ChooseKeyIs(b: seq<Json>, p: seq<Json>, k: string)
    requires k in MERGE_KEYS && Usable(b, p, k)
    ensures ChooseKey(b, p) == Some(k) <==>
              forall k' :: k' in MERGE_KEYS && Precedes(k', k) ==> !Usable(b, p, k')
  {
    assert MERGE_KEYS[0] == "name" && MERGE_KEYS[1] == "containerPort" && MERGE_KEYS[2] == "mountPath";
    assert "name" in MERGE_KEYS && "containerPort" in MERGE_KEYS && "mountPath" in MERGE_KEYS;
  }

  /** A preceding key is usable again exactly when no element is without it. */
  lemma PrecedingKeyUsable(b: seq<Json>, p: seq<Json>, k: string, r: seq<Json>, k': string)
    requires ClosedForm(b, p, k, r) && AllHold(b, k) && p != []
    ensures Usable(r, p, k') <==> AllHold(p, k') && !exists i :: 0 <= i < |b| && Lacks(b, p, k, k', i)
  {
    hide ClosedForm, Lacks, FirstMatch;
    assert |r| >= |b| by { AtLeastBase(b, p, k, r); }
    if AllHold(p, k') {
      forall i | 0 <= i < |r|
        ensures Get(r[i], k').None? <==> i < |b| && Lacks(b, p, k, k', i)
      {
        KeyHeldAgain(b, p, k, r, k', i);
      }
    }
  }

  lemma AtLeastBase(b: seq<Json>, p: seq<Json>, k: string, r: seq<Json>)
    requires ClosedForm(b, p, k, r)
    ensures |r| >= |b|
  {
  }

  lemma KeyHeldByAll(b: seq<Json>, p: seq<Json>, k: string, r: seq<Json>)
    requires ClosedForm(b, p, k, r) && KeysSurvive(p, k) && AllHold(b, k)
    ensures AllHold(r, k)
  {
    ClosedFormKeys(b, p, k, r);
    FreshMembers(b, p, k);
    forall i | 0 <= i < |r|
      ensures Get(r[i], k).Some?
    {
      if i >= |b| {
        assert r[i] == r[|b|..][i - |b|];
        assert r[i] in Fresh(b, p, k);
      }
    }
  }

  /** The second merge chooses the key of the first exactly when `KeyStays`. */
  lemma KeyChoiceRepeats(b: seq<Json>, p: seq<Json>, k: string)
    requires KeysSurvive(p, k) && ChooseKey(b, p) == Some(k) && DistinctKeys(p, k)
    ensures ChooseKey(MergeElements(b, p, k), p) == Some(k) <==> KeyStays(b, p, k)
  {
    hide ClosedForm, Lacks, MergeElements;
    var r := MergeElements(b, p, k);
    ElementsClosedForm(b, p, k);
    KeyHeldByAll(b, p, k, r);
    ChooseKeyIs(r, p, k);
    forall k' | k' in MERGE_KEYS && Precedes(k', k)
      ensures Usable(r, p, k') <==> AllHold(p, k') && !exists i :: 0 <= i < |b| && Lacks(b, p, k, k', i)
    {
      PrecedingKeyUsable(b, p, k, r, k');
    }
  }

  /** In the merged array the second merge of one patch element is a no-op. */
  lemma {:induction false} ElementIdempotent(b: seq<Json>, p: seq<Json>, k: string, r: seq<Json>, j: nat)
    requires j < |p| && Get(p[j], k).Some?
    requires match FirstMatch(b, k, Get(p[j], k))
             case Some(i) => WellKeyedFor(b[i], p[j])
             case None => WellKeyed(p[j])
    requires KeysSurvive(p, k) && DistinctKeys(p, k) && ClosedForm(b, p, k, r)
    requires forall i :: 0 <= i < |b| && Touches(b, p, k, j, i) ==> StableKeys(b[i], p[j])
    ensures var at := FirstMatch(r, k, Get(p[j], k)); at.Some? && Merge(r[at.value], p[j]) == r[at.value]
    decreases p, 0
  {
    var inBase := FirstMatch(b, k, Get(p[j], k));
    if inBase.Some? {
      var i := inBase.value;
      LocatedInBase(b, p, k, r, j, i);
      MergeIsIdempotent(b[i], p[j]);
    } else {
      LocatedAfterBase(b, p, k, r, j);
      MergeIntoItself(p[j]);
    }
  }

  lemma {:induction false} ArrayIdempotent(b: seq<Json>, p: seq<Json>)
    requires WellKeyedForArray(b, p) && StableArray(b, p)
    ensures MergeArrays(MergeArrays(b, p), p) == MergeArrays(b, p)
    decreases p, 1
  {
    var key := ChooseKey(b, p);
    if key.None? {
      MergeIntoItself(Arr(p));
    } else {
      var k, r := key.value, MergeElements(b, p, key.value);
      WellKeyedKeysSurvive(p, k);
      ElementsClosedForm(b, p, k);
      KeyChoiceRepeats(b, p, k);
      forall j | 0 <= j < |p|
        ensures var at := FirstMatch(r, k, Get(p[j], k)); at.Some? && Merge(r[at.value], p[j]) == r[at.value]
      {
        ElementIdempotent(b, p, k, r, j);
      }
      ElementsFixpoint(r, p, k);
    }
  }

  lemma {:induction false} ValueIdempotent(b: Json, p: Json)
    requires WellKeyedForValue(b, p) && StableValue(b, p)
    ensures MergeValue(MergeValue(b, p), p) == MergeValue(b, p)
    decreases p, 1
  {
    if b.Arr? && p.Arr? {
      ArrayIdempotent(b.items, p.items);
    } else if b.Obj? && p.Obj? {
      MergeIsIdempotent(b, p);
    } else {
      MergeIntoItself(p);
    }
  }

  /** Re-applying a patch changes nothing. */
  lemma {:induction false} MergeIsIdempotent(b: Json, p: Json)
    requires WellKeyedFor(b, p) && StableKeys(b, p)
    ensures Merge(Merge(b, p), p) == Merge(b, p)
    decreases p, 0
  {
    var r := Merge(b, p);
    if b.Obj? && p.Obj? {
      forall k | k in p.fields && !p.fields[k].Null?
        ensures k in r.fields && MergeValue(r.fields[k], p.fields[k]) == r.fields[k]
      {
        if k in b.fields {
          ValueIdempotent(b.fields[k], p.fields[k]);
        } else {
          MergeIntoItself(p.fields[k]);
        }
      }
      assert Merge(r, p).fields == r.fields;
    } else if p.Obj? {
      MergeIntoItself(p);
    }
  }

  // ---- same keys on every element ----

  predicate SameMergeKeys(e: Json, e': Json)
  {
    forall k :: k in MERGE_KEYS ==> (Get(e, k).Some? <==> Get(e', k).Some?)
  }

  /** Elements of matching arrays all carry the same merge keys: the usual shape of a
      manifest.  Arrays match at the same field of matching objects, and array elements match
      by the chosen key. */
  predicate Uniform(b: Json, p: Json)
    decreases p, 0
  {
    b.Obj? && p.Obj? ==>
      forall k :: k in b.fields && k in p.fields ==> UniformValue(b.fields[k], p.fields[k])
  }

  predicate UniformValue(b: Json, p: Json)
    decreases p, 1
  {
    && (b.Obj? && p.Obj? ==> Uniform(b, p))
    && (b.Arr? && p.Arr? ==> UniformArray(b.items, p.items))
  }

  predicate UniformArray(b: seq<Json>, p: seq<Json>)
    decreases p, 1
  {
    && (forall e, e' :: e in b + p && e' in b + p ==> SameMergeKeys(e, e'))
    && match ChooseKey(b, p)
       case None => true
       case Some(k) =>
         forall i, j :: 0 <= i < |b| && 0 <= j < |p| && Touches(b, p, k, j, i) ==> Uniform(b[i], p[j])
  }

  lemma {:induction false} UniformIsStable(b: Json, p: Json)
    requires WellKeyed(p) && Uniform(b, p)
    ensures StableKeys(b, p)
    decreases p, 0
  {
    if b.Obj? && p.Obj? {
      forall k | k in b.fields && k in p.fields
        ensures StableValue(b.fields[k], p.fields[k])
      {
        UniformValueIsStable(b.fields[k], p.fields[k]);
      }
    }
  }

  lemma {:induction false} UniformValueIsStable(b: Json, p: Json)
    requires WellKeyed(p) && UniformValue(b, p)
    ensures StableValue(b, p)
    decreases p, 1
  {
    if b.Obj? && p.Obj? {
      UniformIsStable(b, p);
    } else if b.Arr? && p.Arr? && ChooseKey(b.items, p.items).Some? {
      var k := ChooseKey(b.items, p.items).value;
      UniformChoice(b.items, p.items, k);
      forall i, j | 0 <= i < |b.items| && 0 <= j < |p.items| && Touches(b.items, p.items, k, j, i)
        ensures StableKeys(b.items[i], p.items[j])
      {
        UniformIsStable(b.items[i], p.items[j]);
      }
    }
  }

  lemma UniformChoice(b: seq<Json>, p: seq<Json>, k: string)
    requires forall e, e' :: e in b + p && e' in b + p ==> SameMergeKeys(e, e')
    requires ChooseKey(b, p) == Some(k)
    ensures ChooseKey(p, p) == Some(k) && KeyStays(b, p, k)
  {
    forall k' | k' in MERGE_KEYS && AllHold(p, k')
      ensures AllHold(b, k')
    {
      forall i | 0 <= i < |b|
        ensures Get(b[i], k').Some?
      {
        assert b[i] in b + p && p[0] in b + p;
        assert SameMergeKeys(b[i], p[0]);
      }
    }
  }

  /** Uniform documents: a well-keyed patch is idempotent. */
  lemma UniformMergeIsIdempotent(b: Json, p: Json)
    requires WellKeyed(p) && Uniform(b, p)
    ensures Merge(Merge(b, p), p) == Merge(b, p)
  {
    UniformIsStable(b, p);
    WellKeyedAnywhere(b, p);
    MergeIsIdempotent(b, p);
  }

  // ---- when a patch changes nothing ----

  /** The document already holds what the patch asks for: no deleted field, every other field
      with a value that holds its patch, array elements located by the key of the merge. */
  ghost predicate Holds(x: Json, p: Json)
    decreases p, 0
  {
    if x.Obj? && p.Obj? then
      forall k :: k in p.fields ==>
        if p.fields[k].Null? then k !in x.fields else k in x.fields && HoldsValue(x.fields[k], p.fields[k])
    else
      x == p
  }

  ghost predicate HoldsValue(x: Json, p: Json)
    decreases p, 1
  {
    if x.Arr? && p.Arr? then HoldsArray(x.items, p.items)
    else if x.Obj? && p.Obj? then Holds(x, p)
    else x == p
  }

  ghost predicate HoldsArray(x: seq<Json>, p: seq<Json>)
    decreases p, 1
  {
    match ChooseKey(x, p)
    case None => x == p
    case Some(k) => forall j :: 0 <= j < |p| ==> HoldsElement(x, p, k, j)
  }

  ghost predicate HoldsElement(x: seq<Json>, p: seq<Json>, k: string, j: nat)
    requires j < |p|
    decreases p, 0
  {
    var at := FirstMatch(x, k, Get(p[j], k));
    at.Some? && Holds(x[at.value], p[j])
  }

  /** A patch leaves a document as it is if and only if the document already holds it. */
  lemma {:induction false} UnchangedIff(x: Json, p: Json)
    requires KeyedFor(x, p)
    ensures Merge(x, p) == x <==> Holds(x, p)
    decreases p, 0
  {
    if x.Obj? && p.Obj? {
      forall k | k in p.fields && k in x.fields
        ensures MergeValue(x.fields[k], p.fields[k]) == x.fields[k] <==> HoldsValue(x.fields[k], p.fields[k])
      {
        ValueUnchangedIff(x.fields[k], p.fields[k]);
      }
      FieldsUnchangedIff(x, p);
    }
  }

  /** Field by field. */
  lemma FieldsUnchangedIff(x: Json, p: Json)
    requires x.Obj? && p.Obj?
    ensures Merge(x, p) == x <==>
            forall k :: k in p.fields ==>
              if p.fields[k].Null? then k !in x.fields
              else k in x.fields && MergeValue(x.fields[k], p.fields[k]) == x.fields[k]
  {
    hide Merge, MergeValue;
    forall k | k in p.fields {
      FieldOfMerge(x, p, k);
    }
    OtherFieldsOfMerge(x, p);
    var r := Merge(x, p);
    if forall k :: k in p.fields ==>
         if p.fields[k].Null? then k !in x.fields
         else k in x.fields && MergeValue(x.fields[k], p.fields[k]) == x.fields[k] {
      assert r.fields == x.fields;
    }
  }

  lemma OtherFieldsOfMerge(b: Json, p: Json)
    requires b.Obj? && p.Obj?
    ensures Merge(b, p).Obj?
    ensures forall k :: k !in p.fields ==> (k in Merge(b, p).fields <==> k in b.fields)
    ensures forall k :: k !in p.fields && k in b.fields ==> Merge(b, p).fields[k] == b.fields[k]
  {
  }

  lemma {:induction false} ValueUnchangedIff(x: Json, p: Json)
    requires KeyedForValue(x, p)
    ensures MergeValue(x, p) == x <==> HoldsValue(x, p)
    decreases p, 1
  {
    if x.Arr? && p.Arr? {
      ArrayUnchangedIff(x.items, p.items);
    } else if x.Obj? && p.Obj? {
      UnchangedIff(x, p);
    }
  }

  lemma {:induction false} ArrayUnchangedIff(x: seq<Json>, p: seq<Json>)
    requires KeyedForArray(x, p)
    ensures MergeArrays(x, p) == x <==> HoldsArray(x, p)
    decreases p, 1
  {
    hide MergeElements, Merge, MergeValue, Holds;
    var key := ChooseKey(x, p);
    if key.Some? {
      var k := key.value;
      ScalarsSurvive(p, k);
      ElementsUnchangedIff(x, p, k);
      forall j | 0 <= j < |p|
        ensures
          var at := FirstMatch(x, k, Get(p[j], k));
          (at.Some? && Merge(x[at.value], p[j]) == x[at.value]) <==> HoldsElement(x, p, k, j)
      {
        var at := FirstMatch(x, k, Get(p[j], k));
        if at.Some? {
          assert Touches(x, p, k, j, at.value);
          UnchangedIff(x[at.value], p[j]);
        }
      }
    }
  }

  lemma ScalarsSurvive(p: seq<Json>, k: string)
    requires AllHold(p, k) && forall j :: 0 <= j < |p| ==> IsScalar(Get(p[j], k).value)
    ensures KeysSurvive(p, k)
  {
  }

  /** Element by element, for distinct keys. */
  lemma ElementsUnchangedIff(x: seq<Json>, p: seq<Json>, k: string)
    requires KeysSurvive(p, k) && DistinctKeys(p, k)
    ensures MergeElements(x, p, k) == x <==>
            forall j :: 0 <= j < |p| ==>
              var at := FirstMatch(x, k, Get(p[j], k)); at.Some? && Merge(x[at.value], p[j]) == x[at.value]
  {
    hide Merge, FirstMatch;
    var r := MergeElements(x, p, k);
    ElementsClosedForm(x, p, k);
    if r == x {
      assert r[|x|..] == [];
      FreshMembers(x, p, k);
      forall j | 0 <= j < |p|
        ensures var at := FirstMatch(x, k, Get(p[j], k)); at.Some? && Merge(x[at.value], p[j]) == x[at.value]
      {
        var at := FirstMatch(x, k, Get(p[j], k));
        assert at.Some?;
        assert Touches(x, p, k, j, at.value);
      }
    }
    if forall j :: 0 <= j < |p| ==>
         var at := FirstMatch(x, k, Get(p[j], k)); at.Some? && Merge(x[at.value], p[j]) == x[at.value] {
      ElementsFixpoint(x, p, k);
    }
  }

  /** Merging twice is merging once if and only if the first result holds the patch. */
  lemma IdempotentIff(b: Json, p: Json)
    requires KeyedFor(Merge(b, p), p)
    ensures Merge(Merge(b, p), p) == Merge(b, p) <==> Holds(Merge(b, p), p)
  {
    UnchangedIff(Merge(b, p), p);
  }

  // ---- each hypothesis is needed ----

  /** A null inside an object that the patch inserts, or that replaces something else, is
      copied by the first merge and deletes in the second. */
  lemma NullBreaksIdempotence(b: Json, p: Json, k: string, x: string)
    requires b.Obj? && p.Obj? && k in p.fields && p.fields[k].Obj? && (k in b.fields ==> !b.fields[k].Obj?)
    requires x in p.fields[k].fields && p.fields[k].fields[x].Null?
    ensures Merge(Merge(b, p), p) != Merge(b, p)
  {
    hide Merge, MergeValue;
    var r, v := Merge(b, p), p.fields[k];
    FieldOfMerge(b, p, k);
    FieldOfMerge(r, p, k);
    FieldOfMerge(v, v, x);
    ValueIsMerge(v, v);
    if k in b.fields {
      ValueIsMerge(b.fields[k], v);
    }
  }

  lemma FieldOfMerge(b: Json, p: Json, k: string)
    requires b.Obj? && p.Obj? && k in p.fields
    ensures Merge(b, p).Obj?
    ensures
      var r := Merge(b, p).fields;
      if p.fields[k].Null? then k !in r
      else k in r && r[k] == if k in b.fields then MergeValue(b.fields[k], p.fields[k]) else p.fields[k]
  {
  }

  lemma ValueIsMerge(b: Json, p: Json)
    requires p.Obj?
    ensures MergeValue(b, p) == if b.Obj? then Merge(b, p) else p
  {
  }

  function Port(n: int): Json { Obj(map["containerPort" := Num(n)]) }
  function Named(n: int): Json { Obj(map["name" := Str("a"), "containerPort" := Num(n)]) }
  function Ports(xs: seq<Json>): Json { Obj(map["name" := Str("c"), "ports" := Arr(xs)]) }

  lemma MergePorts(b: seq<Json>, p: seq<Json>)
    ensures Merge(Ports(b), Ports(p)) == Ports(MergeArrays(b, p))
  {
    assert Merge(Ports(b), Ports(p)).fields == Ports(MergeArrays(b, p)).fields;
  }

  lemma MergeNamed(e: Json, n: int, m: int)
    requires e == Port(m) || e == Named(m)
    ensures Merge(e, Named(n)) == Named(n)
    ensures m == n ==> Merge(Named(m), Port(n)) == Named(n)
  {
    assert Merge(e, Named(n)).fields == Named(n).fields;
    assert m == n ==> Merge(Named(m), Port(n)).fields == Named(n).fields;
  }

  lemma OneElement(b: seq<Json>, p: seq<Json>, k: string, i: nat)
    requires p != [] && i < |MergeElements(b, p[..|p| - 1], k)|
    requires
      var acc, pe := MergeElements(b, p[..|p| - 1], k), p[|p| - 1];
      Get(acc[i], k) == Get(pe, k) && forall h :: 0 <= h < i ==> Get(acc[h], k) != Get(pe, k)
    ensures
      var acc, pe := MergeElements(b, p[..|p| - 1], k), p[|p| - 1];
      MergeElements(b, p, k) == acc[i := Merge(acc[i], pe)]
  {
    FirstMatchIs(MergeElements(b, p[..|p| - 1], k), k, Get(p[|p| - 1], k), i);
  }

  /** A port that gains a name ... */
  lemma PortGainsName()
    ensures MergeArrays([Named(2), Port(1)], [Named(1)]) == [Named(2), Named(1)]
  {
    var b, p := [Named(2), Port(1)], [Named(1)];
    assert Get(b[1], "name").None?;
    assert ChooseKey(b, p) == Some("containerPort");
    assert p[..0] == [];
    OneElement(b, p, "containerPort", 1);
    MergeNamed(Port(1), 1, 1);
  }

  /** ... moves the second merge to another element. */
  lemma NameMovesTheMerge()
    ensures MergeArrays([Named(2), Named(1)], [Named(1)]) == [Named(1), Named(1)]
  {
    var b, p := [Named(2), Named(1)], [Named(1)];
    assert ChooseKey(b, p) == Some("name");
    assert p[..0] == [];
    OneElement(b, p, "name", 0);
    MergeNamed(Named(2), 1, 2);
  }

  lemma PortsMergeBack()
    ensures MergeArrays([Named(2), Named(1)], [Named(2), Port(1)]) == [Named(2), Named(1)]
  {
    var b, p := [Named(2), Named(1)], [Named(2), Port(1)];
    assert Get(p[1], "name").None?;
    assert ChooseKey(b, p) == Some("containerPort");
    assert p[..1] == [Named(2)] && p[..1][..0] == [];
    MergeNamed(Named(2), 2, 2);
    OneElement(b, p[..1], "containerPort", 0);
    assert MergeElements(b, p[..1], "containerPort") == b;
    OneElement(b, p, "containerPort", 1);
    MergeNamed(Named(1), 1, 1);
  }

  /** A base element that gains a higher-priority key from the patch changes the key of
      the second merge, which then lands on another element. */
  lemma UnstableKeyBreaksIdempotence()
    ensures exists b, p :: WellKeyed(p) && !StableKeys(b, p) && Merge(Merge(b, p), p) != Merge(b, p)
  {
    var b, p := Ports([Named(2), Port(1)]), Ports([Named(1)]);
    PortGainsName();
    NameMovesTheMerge();
    MergePorts([Named(2), Port(1)], [Named(1)]);
    MergePorts([Named(2), Named(1)], [Named(1)]);
    SamePorts([Named(2), Named(1)], [Named(1), Named(1)]);
    WellKeyedPorts([Named(1)]);
    if StableKeys(b, p) {
      WellKeyedAnywhere(b, p);
      MergeIsIdempotent(b, p);
    }
  }

  lemma SamePorts(x: seq<Json>, y: seq<Json>)
    requires |x| == |y| == 2 && x[0] == Named(2) && y[0] == Named(1)
    ensures Ports(x) != Ports(y)
  {
    assert x[0].fields["containerPort"] != y[0].fields["containerPort"];
    assert Ports(x).fields["ports"] != Ports(y).fields["ports"];
  }

  lemma WellKeyedPorts(xs: seq<Json>)
    requires xs == [Named(1)] || xs == [Named(2), Port(1)]
    ensures WellKeyed(Ports(xs)) && NullFree(Ports(xs))
  {
    assert forall e :: e in xs ==> WellKeyed(e) && NullFree(e);
    if |xs| == 2 {
      assert Get(xs[1], "name").None?;
      assert ChooseKey(xs, xs) == Some("containerPort");
      assert Get(xs[0], "containerPort") != Get(xs[1], "containerPort");
    }
    assert WellKeyed(Arr(xs)) && NullFree(Arr(xs));
  }

  lemma DuplicateFirstPass(p1: seq<Json>, p2: seq<Json>) returns (once: seq<Json>)
    ensures once == MergeArrays([], [Ports(p1), Ports(p2)]) == [Merge(Ports(p1), Ports(p2))]
  {
    var patch := [Ports(p1), Ports(p2)];
    assert patch[..1] == [Ports(p1)] && patch[..1][..0] == [];
    assert ChooseKey([], patch) == Some("name");
    assert MergeElements([], patch[..1], "name") == [Ports(p1)];
    OneElement([], patch, "name", 0);
    once := MergeArrays([], patch);
  }

  lemma DuplicateSecondPass(x: seq<Json>, p1: seq<Json>, p2: seq<Json>) returns (twice: seq<Json>)
    requires Merge(Ports(x), Ports(p1)) == Ports(x)
    ensures twice == MergeArrays([Ports(x)], [Ports(p1), Ports(p2)]) == [Merge(Ports(x), Ports(p2))]
  {
    var b, patch := [Ports(x)], [Ports(p1), Ports(p2)];
    assert patch[..1] == [Ports(p1)] && patch[..1][..0] == [];
    assert ChooseKey(b, patch) == Some("name");
    OneElement(b, patch[..1], "name", 0);
    OneElement(b, patch, "name", 0);
    twice := MergeArrays(b, patch);
  }

  lemma DuplicatePatchShape(p1: seq<Json>, p2: seq<Json>)
    requires NullFree(Ports(p1)) && NullFree(Ports(p2))
    ensures var p := Ports([Ports(p1), Ports(p2)]); NullFree(p) && Uniform(Ports([]), p)
  {
    var patch := [Ports(p1), Ports(p2)];
    assert NullFree(Arr(patch));
    UniformPair(Ports(p1), Ports(p2));
    hide UniformArray;
    assert UniformValue(Arr([]), Arr(patch));
    assert UniformValue(Str("c"), Str("c"));
  }

  lemma UniformPair(x: Json, y: Json)
    requires SameMergeKeys(x, y)
    ensures UniformArray([], [x, y])
  {
    assert [] + [x, y] == [x, y];
    assert forall e :: e in [x, y] ==> e == x || e == y;
  }

  lemma DuplicateMerges(p1: seq<Json>, p2: seq<Json>, r: seq<Json>, r': seq<Json>)
    requires MergeArrays(p1, p2) == r && MergeArrays(r, p1) == r && MergeArrays(r, p2) == r'
    ensures
      var b, p := Ports([]), Ports([Ports(p1), Ports(p2)]);
      Merge(b, p) == Ports([Ports(r)]) && Merge(Merge(b, p), p) == Ports([Ports(r')])
  {
    var patch := [Ports(p1), Ports(p2)];
    MergePorts(p1, p2);
    MergePorts(r, p1);
    MergePorts(r, p2);
    var once := DuplicateFirstPass(p1, p2);
    var twice := DuplicateSecondPass(r, p1, p2);
    MergePorts([], patch);
    MergePorts([Ports(r)], patch);
  }

  /** Two patch elements with one key value: the second merge starts from their combined
      result and combines them differently. */
  lemma DuplicateKeysBreakIdempotence()
    ensures exists b, p :: NullFree(p) && Uniform(b, p) && Merge(Merge(b, p), p) != Merge(b, p)
  {
    var p1, p2, r, r' := [Named(2), Port(1)], [Named(1)], [Named(2), Named(1)], [Named(1), Named(1)];
    PortGainsName();
    PortsMergeBack();
    NameMovesTheMerge();
    DuplicateMerges(p1, p2, r, r');
    WellKeyedPorts(p1);
    WellKeyedPorts(p2);
    DuplicatePatchShape(p1, p2);
    SamePorts(r, r');
    assert [Ports(r)][0] != [Ports(r')][0];
    assert Ports([Ports(r)]).fields["ports"] != Ports([Ports(r')]).fields["ports"];
  }
}
