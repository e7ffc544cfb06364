/**
 * The edge store (src/data/Project.js:61): label -> fromKey -> bucket, a bucket being the
 * ordered siblings of `Buckets`. `Lookup` is the three-level `getEdge`; `Insert`,
 * `Delete` and `Drop` give the store after `_insertEdge`, `_deleteEdge` and the container
 * clean-up of `removeNode`. A label in the store need not have a specification.
 */
module EdgeStore {
  import opened Records
  import opened Buckets

  type Store = map<string, map<string, seq<Edge>>>

  /** The edge specifications, keyed by label. */
  type Specs = map<string, EdgeSpec>

  /** A bucket in its place: sorted, targets distinct, every edge carrying the label and
      the source under which it is filed. */
  ghost predicate BucketOk(b: seq<Edge>, edgeLabel: string, fromKey: string)
  {
    && Sorted(b)
    && DistinctTargets(b)
    && forall i :: 0 <= i < |b| ==> b[i].edgeLabel == edgeLabel && b[i].fromKey == fromKey
  }

  ghost predicate WellFormed(E: Store)
  {
    forall l, f :: l in E && f in E[l] ==> BucketOk(E[l][f], l, f)
  }

  /** The bucket of `edgeLabel` and `fromKey`, empty when a container is missing. */
  function BucketOf(E: Store, edgeLabel: string, fromKey: string): seq<Edge>
  {
    if edgeLabel in E && fromKey in E[edgeLabel] then E[edgeLabel][fromKey] else []
  }

  /** `getEdge(label, fromKey, toKey)`: the three-level lookup `edges[label][fromKey][toKey]`,
      absent when the label map, the source bucket or the target entry is missing. */
  function Lookup(E: Store, edgeLabel: string, fromKey: string, toKey: string): (r: Option<Edge>)
    ensures r.Some? ==> edgeLabel in E && fromKey in E[edgeLabel]
    ensures r.Some? ==> r.value in E[edgeLabel][fromKey] && r.value.toKey == toKey
    ensures r.None? <==>
      || edgeLabel !in E
      || fromKey !in E[edgeLabel]
      || forall x :: x in E[edgeLabel][fromKey] ==> x.toKey != toKey
  {
    if edgeLabel in E && fromKey in E[edgeLabel] then Find(E[edgeLabel][fromKey], toKey) else None
  }

  /** In a well-formed store a found edge is filed under its own label, source and target,
      and it is the only such edge. */
  lemma LookupIsMember(E: Store, edgeLabel: string, fromKey: string, toKey: string, e: Edge)
    requires WellFormed(E)
    ensures Lookup(E, edgeLabel, fromKey, toKey) == Some(e) <==>
      edgeLabel in E && fromKey in E[edgeLabel] && e in E[edgeLabel][fromKey] && e.toKey == toKey
    ensures Lookup(E, edgeLabel, fromKey, toKey) == Some(e) ==>
      e.edgeLabel == edgeLabel && e.fromKey == fromKey
  {
    if edgeLabel in E && fromKey in E[edgeLabel] {
      FindIsMember(E[edgeLabel][fromKey], toKey, e);
    }
  }

  /** The store after `_insertEdge(e)`: the containers for `e`'s label and source exist and
      `e` stands at its ordered place in its bucket; an identical edge already filed there
      is left as it is. */
  function Insert(E: Store, e: Edge): Store
  {
    var byFrom := if e.edgeLabel in E then E[e.edgeLabel] else map[];
    var bucket := BucketOf(E, e.edgeLabel, e.fromKey);
    if Find(bucket, e.toKey).Some? then E
    else E[e.edgeLabel := byFrom[e.fromKey := Inserted(bucket, e)]]
  }

  /** What may be inserted: the target is free, or already holds this very edge. */
  ghost predicate Insertable(E: Store, e: Edge)
  {
    var found := Lookup(E, e.edgeLabel, e.fromKey, e.toKey);
    found.None? || found == Some(e)
  }

  /** After an insertion the inserted edge is found under its triple, and every other
      triple finds what it found before. */
  lemma LookupInsert(E: Store, e: Edge, l: string, f: string, t: string)
    requires WellFormed(E) && Insertable(E, e)
    ensures Lookup(Insert(E, e), l, f, t) ==
      if l == e.edgeLabel && f == e.fromKey && t == e.toKey then Some(e) else Lookup(E, l, f, t)
  {
    var bucket := BucketOf(E, e.edgeLabel, e.fromKey);
    assert BucketOk(bucket, e.edgeLabel, e.fromKey);
    if Find(bucket, e.toKey).None? && l == e.edgeLabel && f == e.fromKey {
      FindInserted(bucket, e, t);
    }
  }

  /** `_insertEdge` creates the label and source containers when they are missing, adds no
      other container and leaves every other bucket as it was. */
  lemma InsertContainers(E: Store, e: Edge)
    ensures e.edgeLabel in Insert(E, e) && e.fromKey in Insert(E, e)[e.edgeLabel]
    ensures Insert(E, e).Keys == E.Keys + {e.edgeLabel}
    ensures Insert(E, e)[e.edgeLabel].Keys == (if e.edgeLabel in E then E[e.edgeLabel].Keys else {}) + {e.fromKey}
    ensures forall l :: l in E && l != e.edgeLabel ==> Insert(E, e)[l] == E[l]
    ensures forall l, f :: (l != e.edgeLabel || f != e.fromKey) ==> BucketOf(Insert(E, e), l, f) == BucketOf(E, l, f)
  {
  }

  /** An insertion keeps every bucket sorted, its targets distinct and its edges in place. */
  lemma InsertWellFormed(E: Store, e: Edge)
    requires WellFormed(E) && Insertable(E, e)
    ensures WellFormed(Insert(E, e))
  {
    var bucket := BucketOf(E, e.edgeLabel, e.fromKey);
    assert BucketOk(bucket, e.edgeLabel, e.fromKey);
    if Find(bucket, e.toKey).None? {
      InsertedBucketOk(bucket, e);
      PlaceBucket(E, e.edgeLabel, e.fromKey, Inserted(bucket, e));
    }
  }

  lemma InsertedBucketOk(b: seq<Edge>, e: Edge)
    requires BucketOk(b, e.edgeLabel, e.fromKey)
    requires Find(b, e.toKey).None?
    ensures BucketOk(Inserted(b, e), e.edgeLabel, e.fromKey)
  {
    var r := Inserted(b, e);
    InsertedSorted(b, e);
    InsertedDistinct(b, e);
    var p := InsertionPoint(b, e.order);
    forall i | 0 <= i < |r|
      ensures r[i].edgeLabel == e.edgeLabel && r[i].fromKey == e.fromKey
    {
      if i < p {
        assert r[i] == b[i];
      } else if i > p {
        assert r[i] == b[i - 1];
      }
    }
  }

  /** Filing a well-formed bucket in its place keeps the store well-formed. */
  lemma PlaceBucket(E: Store, edgeLabel: string, fromKey: string, b: seq<Edge>)
    requires WellFormed(E) && BucketOk(b, edgeLabel, fromKey)
    ensures var byFrom := if edgeLabel in E then E[edgeLabel] else map[];
      WellFormed(E[edgeLabel := byFrom[fromKey := b]])
  {
  }

  /** The store after `delete edges[label][fromKey][toKey]`. */
  function Delete(E: Store, edgeLabel: string, fromKey: string, toKey: string): Store
    requires edgeLabel in E && fromKey in E[edgeLabel]
  {
    E[edgeLabel := E[edgeLabel][fromKey := Removed(E[edgeLabel][fromKey], toKey)]]
  }

  /** The error `_deleteEdge` raises for a triple it cannot find, by the level at which
      the lookup breaks off. */
  function Missing(E: Store, edgeLabel: string, fromKey: string, toKey: string): GraphError
  {
    if edgeLabel !in E then MissingLabel(edgeLabel, fromKey, toKey)
    else if fromKey !in E[edgeLabel] then MissingFromKey(edgeLabel, fromKey, toKey)
    else MissingToKey(edgeLabel, fromKey, toKey)
  }

  /** A deletion empties no container: every label and every bucket stays filed. */
  lemma DeleteKeepsContainers(E: Store, edgeLabel: string, fromKey: string, toKey: string)
    requires edgeLabel in E && fromKey in E[edgeLabel]
    ensures Delete(E, edgeLabel, fromKey, toKey).Keys == E.Keys
    ensures forall l :: l in E ==> Delete(E, edgeLabel, fromKey, toKey)[l].Keys == E[l].Keys
  {
  }

  /** After a deletion the deleted triple is absent, and every other triple finds what it
      found before. */
  lemma LookupDelete(E: Store, edgeLabel: string, fromKey: string, toKey: string, l: string, f: string, t: string)
    requires WellFormed(E) && edgeLabel in E && fromKey in E[edgeLabel]
    ensures Lookup(Delete(E, edgeLabel, fromKey, toKey), l, f, t) ==
      if l == edgeLabel && f == fromKey && t == toKey then None else Lookup(E, l, f, t)
  {
    assert BucketOk(E[edgeLabel][fromKey], edgeLabel, fromKey);
    if l == edgeLabel && f == fromKey {
      FindRemoved(E[edgeLabel][fromKey], toKey, t);
    }
  }

  /** A deletion keeps every bucket sorted, its targets distinct and its edges in place,
      and keeps every container. */
  lemma DeleteWellFormed(E: Store, edgeLabel: string, fromKey: string, toKey: string)
    requires WellFormed(E) && edgeLabel in E && fromKey in E[edgeLabel]
    ensures WellFormed(Delete(E, edgeLabel, fromKey, toKey))
    ensures Retains(E, Delete(E, edgeLabel, fromKey, toKey))
  {
    var b := E[edgeLabel][fromKey];
    assert BucketOk(b, edgeLabel, fromKey);
    RemovedBucketOk(b, edgeLabel, fromKey, toKey);
    PlaceBucket(E, edgeLabel, fromKey, Removed(b, toKey));
    RemovedSubseq(b, toKey);
    var D := Delete(E, edgeLabel, fromKey, toKey);
    forall l, f | l in D && f in D[l]
      ensures Subseq(D[l][f], E[l][f])
    {
      if l != edgeLabel || f != fromKey {
        SubseqRefl(E[l][f]);
      }
    }
  }

  lemma RemovedBucketOk(b: seq<Edge>, edgeLabel: string, fromKey: string, toKey: string)
    requires BucketOk(b, edgeLabel, fromKey)
    ensures BucketOk(Removed(b, toKey), edgeLabel, fromKey)
  {
    RemovedSortedDistinct(b, toKey);
    match FindIndex(b, toKey)
    case None =>
    case Some(i) => RemovedAt(b, i);
  }

  /** Insert-then-delete round trip: deleting the edge just inserted into an existing
      bucket gives back the store. */
  lemma DeleteInsert(E: Store, e: Edge)
    requires WellFormed(E) && e.edgeLabel in E && e.fromKey in E[e.edgeLabel]
    requires Lookup(E, e.edgeLabel, e.fromKey, e.toKey).None?
    ensures e.edgeLabel in Insert(E, e) && e.fromKey in Insert(E, e)[e.edgeLabel]
    ensures Delete(Insert(E, e), e.edgeLabel, e.fromKey, e.toKey) == E
  {
    var b := E[e.edgeLabel][e.fromKey];
    assert Find(b, e.toKey).None?;
    RemovedInserted(b, e);
    var I := Insert(E, e);
    assert I == E[e.edgeLabel := E[e.edgeLabel][e.fromKey := Inserted(b, e)]];
    assert I[e.edgeLabel][e.fromKey] == Inserted(b, e);
    var D := Delete(I, e.edgeLabel, e.fromKey, e.toKey);
    assert D == I[e.edgeLabel := I[e.edgeLabel][e.fromKey := b]];
    assert I[e.edgeLabel][e.fromKey := b] == E[e.edgeLabel];
    assert D == E[e.edgeLabel := E[e.edgeLabel]];
  }

  /** The mirror of `e` under `inverseLabel`: reversed endpoints, same data and order. */
  function Mirror(e: Edge, inverseLabel: string): Edge
  {
    Edge(inverseLabel, e.toKey, e.fromKey, e.data, e.order)
  }

  /** The store after a successful `addEdge` of `e` under `spec`: `e` is inserted, and so
      is its mirror when the label has an inverse. */
  function Linked(E: Store, spec: EdgeSpec, e: Edge): Store
  {
    var E1 := Insert(E, e);
    if spec.HasInverse() then Insert(E1, Mirror(e, spec.inverseLabel)) else E1
  }

  /** The store after a successful `removeEdge` of (`edgeLabel`, `fromKey`, `toKey`) under
      `spec`: the edge is deleted, and so is its mirror when the label has an inverse. */
  function Unlinked(E: Store, spec: EdgeSpec, edgeLabel: string, fromKey: string, toKey: string): Store
    requires edgeLabel in E && fromKey in E[edgeLabel]
    requires spec.HasInverse() ==> spec.inverseLabel in E && toKey in E[spec.inverseLabel]
  {
    var mid := Delete(E, edgeLabel, fromKey, toKey);
    if spec.HasInverse() then Delete(mid, spec.inverseLabel, toKey, fromKey) else mid
  }

  /** What `removeEdge(edgeLabel, fromKey, toKey)` does to `E`, giving outcome `r` and store
      `E2`: a label without a specification and a missing edge fail with nothing changed;
      otherwise the edge is deleted, and then its mirror, whose absence fails with the
      edge already gone. */
  ghost predicate Removal(specs: Specs, E: Store, edgeLabel: string, fromKey: string, toKey: string,
                          r: Outcome, E2: Store)
  {
    if edgeLabel !in specs then r == Fail(UnknownLabel(edgeLabel)) && E2 == E
    else if Lookup(E, edgeLabel, fromKey, toKey).None? then
      r == Fail(Missing(E, edgeLabel, fromKey, toKey)) && E2 == E
    else
      var spec := specs[edgeLabel];
      var mid := Delete(E, edgeLabel, fromKey, toKey);
      if spec.HasInverse() && Lookup(mid, spec.inverseLabel, toKey, fromKey).None? then
        r == Fail(Missing(mid, spec.inverseLabel, toKey, fromKey)) && E2 == mid
      else
        DeleteKeepsContainers(E, edgeLabel, fromKey, toKey);
        r == Pass && E2 == Unlinked(E, spec, edgeLabel, fromKey, toKey)
  }

  /** After a successful `addEdge` the edge is found under its triple, its mirror (same data
      and order) under the reversed triple when the label has an inverse, and every other
      triple finds what it found before. */
  lemma LookupLinked(E: Store, spec: EdgeSpec, e: Edge, l: string, f: string, t: string)
    requires WellFormed(E)
    requires Lookup(E, e.edgeLabel, e.fromKey, e.toKey).None?
    requires spec.HasInverse() ==> Lookup(E, spec.inverseLabel, e.toKey, e.fromKey).None?
    ensures WellFormed(Linked(E, spec, e))
    ensures Lookup(Linked(E, spec, e), l, f, t) ==
      if l == e.edgeLabel && f == e.fromKey && t == e.toKey then Some(e)
      else if spec.HasInverse() && l == spec.inverseLabel && f == e.toKey && t == e.fromKey
        then Some(Mirror(e, spec.inverseLabel))
      else Lookup(E, l, f, t)
  {
    var E1 := Insert(E, e);
    InsertWellFormed(E, e);
    LookupInsert(E, e, l, f, t);
    if spec.HasInverse() {
      var m := Mirror(e, spec.inverseLabel);
      LookupInsert(E, e, m.edgeLabel, m.fromKey, m.toKey);
      InsertWellFormed(E1, m);
      LookupInsert(E1, m, l, f, t);
    }
  }

  /** addEdge-then-removeEdge round trip: removing an edge just added, together with its
      mirror, gives back the store, provided the containers were already there and the
      mirror is a different triple from the edge. */
  lemma UnlinkedLinked(E: Store, spec: EdgeSpec, e: Edge)
    requires WellFormed(E)
    requires e.edgeLabel in E && e.fromKey in E[e.edgeLabel]
    requires Lookup(E, e.edgeLabel, e.fromKey, e.toKey).None?
    requires spec.HasInverse() ==>
      && spec.inverseLabel in E && e.toKey in E[spec.inverseLabel]
      && Lookup(E, spec.inverseLabel, e.toKey, e.fromKey).None?
      && (spec.inverseLabel != e.edgeLabel || e.toKey != e.fromKey)
    ensures Unlinked(Linked(E, spec, e), spec, e.edgeLabel, e.fromKey, e.toKey) == E
  {
    var l, f, t := e.edgeLabel, e.fromKey, e.toKey;
    var E1 := Insert(E, e);
    DeleteInsert(E, e);
    InsertWellFormed(E, e);
    if spec.HasInverse() {
      var inv := spec.inverseLabel;
      var m := Mirror(e, inv);
      var B1 := E[l][f];
      var B2 := E[inv][t];
      assert E1 == E[l := E[l][f := Inserted(B1, e)]];
      LookupInsert(E, e, inv, t, f);
      assert E1[inv][t] == B2;
      var E2 := Insert(E1, m);
      assert E2 == E1[inv := E1[inv][t := Inserted(B2, m)]];
      assert E2[l][f] == Inserted(B1, e);
      assert Find(B1, t).None?;
      assert Find(B2, f).None?;
      RemovedInserted(B1, e);
      RemovedInserted(B2, m);
      var E3 := Delete(E2, l, f, t);
      assert E3 == E2[l := E2[l][f := B1]];
      var E4 := Delete(E3, inv, t, f);
      assert E3[inv][t] == Inserted(B2, m);
      assert E4 == E3[inv := E3[inv][t := B2]];
      RestoreTwo(E, l, f, inv, t, Inserted(B1, e), Inserted(B2, m));
    }
  }

  /** addEdge-then-removeEdge as `getEdge` sees it: whatever containers the addition
      created, every triple finds afterwards what it found before, provided the mirror is
      a different triple from the edge. */
  lemma LookupUnlinkedLinked(E: Store, spec: EdgeSpec, e: Edge, l: string, f: string, t: string)
    requires WellFormed(E)
    requires Lookup(E, e.edgeLabel, e.fromKey, e.toKey).None?
    requires spec.HasInverse() ==>
      && Lookup(E, spec.inverseLabel, e.toKey, e.fromKey).None?
      && (spec.inverseLabel != e.edgeLabel || e.toKey != e.fromKey)
    ensures e.edgeLabel in Linked(E, spec, e) && e.fromKey in Linked(E, spec, e)[e.edgeLabel]
    ensures spec.HasInverse() ==>
      spec.inverseLabel in Linked(E, spec, e) && e.toKey in Linked(E, spec, e)[spec.inverseLabel]
    ensures Lookup(Unlinked(Linked(E, spec, e), spec, e.edgeLabel, e.fromKey, e.toKey), l, f, t)
      == Lookup(E, l, f, t)
  {
    var L := Linked(E, spec, e);
    LookupLinked(E, spec, e, e.edgeLabel, e.fromKey, e.toKey);
    LookupLinked(E, spec, e, l, f, t);
    var mid := Delete(L, e.edgeLabel, e.fromKey, e.toKey);
    LookupDelete(L, e.edgeLabel, e.fromKey, e.toKey, l, f, t);
    if spec.HasInverse() {
      LookupLinked(E, spec, e, spec.inverseLabel, e.toKey, e.fromKey);
      DeleteKeepsContainers(L, e.edgeLabel, e.fromKey, e.toKey);
      DeleteWellFormed(L, e.edgeLabel, e.fromKey, e.toKey);
      LookupDelete(mid, spec.inverseLabel, e.toKey, e.fromKey, l, f, t);
    }
  }

  /** A removal with its mirror deletes exactly the edge's triple and, when the label has
      an inverse, the reversed triple under the inverse; it keeps the store well formed,
      keeps every container and adds nothing. */
  lemma LookupUnlinked(E: Store, spec: EdgeSpec, edgeLabel: string, fromKey: string, toKey: string,
                       l: string, f: string, t: string)
    requires WellFormed(E)
    requires edgeLabel in E && fromKey in E[edgeLabel]
    requires spec.HasInverse() ==> spec.inverseLabel in E && toKey in E[spec.inverseLabel]
    ensures Lookup(Unlinked(E, spec, edgeLabel, fromKey, toKey), l, f, t) ==
      if (l == edgeLabel && f == fromKey && t == toKey)
        || (spec.HasInverse() && l == spec.inverseLabel && f == toKey && t == fromKey)
      then None else Lookup(E, l, f, t)
  {
    var mid := Delete(E, edgeLabel, fromKey, toKey);
    LookupDelete(E, edgeLabel, fromKey, toKey, l, f, t);
    if spec.HasInverse() {
      DeleteWellFormed(E, edgeLabel, fromKey, toKey);
      DeleteKeepsContainers(E, edgeLabel, fromKey, toKey);
      LookupDelete(mid, spec.inverseLabel, toKey, fromKey, l, f, t);
    }
  }

  lemma UnlinkedWellFormed(E: Store, spec: EdgeSpec, edgeLabel: string, fromKey: string, toKey: string)
    requires WellFormed(E)
    requires edgeLabel in E && fromKey in E[edgeLabel]
    requires spec.HasInverse() ==> spec.inverseLabel in E && toKey in E[spec.inverseLabel]
    ensures WellFormed(Unlinked(E, spec, edgeLabel, fromKey, toKey))
    ensures Retains(E, Unlinked(E, spec, edgeLabel, fromKey, toKey))
    ensures Unlinked(E, spec, edgeLabel, fromKey, toKey).Keys == E.Keys
    ensures forall l :: l in E ==> Unlinked(E, spec, edgeLabel, fromKey, toKey)[l].Keys == E[l].Keys
  {
    var mid := Delete(E, edgeLabel, fromKey, toKey);
    DeleteWellFormed(E, edgeLabel, fromKey, toKey);
    DeleteKeepsContainers(E, edgeLabel, fromKey, toKey);
    if spec.HasInverse() {
      DeleteWellFormed(mid, spec.inverseLabel, toKey, fromKey);
      DeleteKeepsContainers(mid, spec.inverseLabel, toKey, fromKey);
      RetainsTrans(E, mid, Delete(mid, spec.inverseLabel, toKey, fromKey));
    }
  }

  /** Two bucket replacements in distinct containers, undone in the same order, leave the
      store as it was. */
  lemma RestoreTwo(E: Store, l: string, f: string, inv: string, t: string, I1: seq<Edge>, I2: seq<Edge>)
    requires l in E && f in E[l] && inv in E && t in E[inv]
    requires l != inv || f != t
    ensures
      var E1 := E[l := E[l][f := I1]];
      var E2 := E1[inv := E1[inv][t := I2]];
      var E3 := E2[l := E2[l][f := E[l][f]]];
      E3[inv := E3[inv][t := E[inv][t]]] == E
  {
    var E1 := E[l := E[l][f := I1]];
    var E2 := E1[inv := E1[inv][t := I2]];
    var E3 := E2[l := E2[l][f := E[l][f]]];
    var E4 := E3[inv := E3[inv][t := E[inv][t]]];
    if inv == l {
      var M := E[l];
      assert E3[l] == M[f := I1][t := I2][f := M[f]];
      assert M[f := I1][t := I2][f := M[f]] == M[t := I2];
      assert M[t := I2][t := M[t]] == M;
    } else {
      assert E3[inv] == E[inv][t := I2];
      assert E4[inv] == E[inv];
      assert E4[l] == E[l];
    }
  }

  /** The store after `delete labelEdges[key]`: the bucket container of `fromKey` under
      `edgeLabel` is dropped. */
  function Drop(E: Store, edgeLabel: string, fromKey: string): Store
    requires edgeLabel in E
  {
    E[edgeLabel := E[edgeLabel] - {fromKey}]
  }

  /** Dropping a container loses the triples filed under it and nothing else. */
  lemma LookupDrop(E: Store, edgeLabel: string, fromKey: string, l: string, f: string, t: string)
    requires edgeLabel in E
    ensures Lookup(Drop(E, edgeLabel, fromKey), l, f, t) ==
      if l == edgeLabel && f == fromKey then None else Lookup(E, l, f, t)
  {
  }

  /** Dropping an empty container changes no lookup. */
  lemma DropEmpty(E: Store, edgeLabel: string, fromKey: string)
    requires edgeLabel in E && fromKey in E[edgeLabel] && E[edgeLabel][fromKey] == []
    ensures forall l, f, t :: Lookup(Drop(E, edgeLabel, fromKey), l, f, t) == Lookup(E, l, f, t)
  {
    forall l, f, t
      ensures Lookup(Drop(E, edgeLabel, fromKey), l, f, t) == Lookup(E, l, f, t)
    {
      LookupDrop(E, edgeLabel, fromKey, l, f, t);
    }
  }

  /** `E2` is `E` with some containers dropped and some edges deleted: nothing was added,
      and every surviving bucket keeps its edges in their previous order. */
  ghost predicate Retains(E: Store, E2: Store)
  {
    forall l :: l in E2 ==>
      && l in E
      && E2[l].Keys <= E[l].Keys
      && forall f :: f in E2[l] ==> Subseq(E2[l][f], E[l][f])
  }

  lemma RetainsRefl(E: Store)
    ensures Retains(E, E)
  {
    forall l, f | l in E && f in E[l]
      ensures Subseq(E[l][f], E[l][f])
    {
      SubseqRefl(E[l][f]);
    }
  }

  lemma DropRetains(E: Store, edgeLabel: string, fromKey: string)
    requires WellFormed(E) && edgeLabel in E
    ensures WellFormed(Drop(E, edgeLabel, fromKey))
    ensures Retains(E, Drop(E, edgeLabel, fromKey))
  {
    var D := Drop(E, edgeLabel, fromKey);
    forall l, f | l in D && f in D[l]
      ensures Subseq(D[l][f], E[l][f])
    {
      SubseqRefl(E[l][f]);
    }
  }

  lemma RetainsTrans(E: Store, E2: Store, E3: Store)
    requires Retains(E, E2) && Retains(E2, E3)
    ensures Retains(E, E3)
  {
    forall l, f | l in E3 && f in E3[l]
      ensures Subseq(E3[l][f], E[l][f])
    {
      SubseqTrans(E3[l][f], E2[l][f], E[l][f]);
    }
  }

  /** What a retained store still finds, the original store found: a retained store
      never gains an edge or changes one. */
  lemma RetainsLookup(E: Store, E2: Store, l: string, f: string, t: string)
    requires WellFormed(E) && Retains(E, E2)
    requires Lookup(E2, l, f, t).Some?
    ensures Lookup(E, l, f, t) == Lookup(E2, l, f, t)
  {
    var x := Lookup(E2, l, f, t).value;
    SubseqMembers(E2[l][f], E[l][f]);
    LookupIsMember(E, l, f, t, x);
  }
}
