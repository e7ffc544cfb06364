/**
 * Inverse edges kept in step (src/data/Project.js:96-169): under specifications that
 * declare every inverse back, an edge is filed exactly when its mirror is, with the same
 * data and order. `addEdge`, `removeEdge` (whatever its outcome) and the dropping of an
 * emptied container keep that pairing.
 */
module Pairing {
  import opened Records
  import opened EdgeStore

  /** Every inverse names a specified label that has an inverse, and that inverse is the
      first label. */
  ghost predicate Symmetric(specs: Specs)
  {
    forall l :: l in specs && specs[l].HasInverse() ==>
      && specs[l].inverseLabel in specs
      && specs[specs[l].inverseLabel].HasInverse()
      && specs[specs[l].inverseLabel].inverseLabel == l
  }

  /** The mirror under `inverseLabel` of what a lookup found, if anything. */
  function MirrorOf(found: Option<Edge>, inverseLabel: string): Option<Edge>
  {
    if found.Some? then Some(Mirror(found.value, inverseLabel)) else None
  }

  /** Under every specified label with an inverse, (`l`, `f`, `t`) finds an edge exactly
      when (inverse, `t`, `f`) finds its mirror, with the same data and order. */
  ghost predicate InStep(E: Store, specs: Specs)
  {
    forall l, f, t :: l in specs && specs[l].HasInverse() ==>
      Lookup(E, specs[l].inverseLabel, t, f) == MirrorOf(Lookup(E, l, f, t), specs[l].inverseLabel)
  }

  /** A successful `addEdge` keeps the edges in step with their mirrors. */
  lemma LinkedInStep(E: Store, specs: Specs, e: Edge)
    requires WellFormed(E) && Symmetric(specs) && InStep(E, specs)
    requires e.edgeLabel in specs
    requires Lookup(E, e.edgeLabel, e.fromKey, e.toKey).None?
    requires specs[e.edgeLabel].HasInverse() ==>
      Lookup(E, specs[e.edgeLabel].inverseLabel, e.toKey, e.fromKey).None?
    ensures InStep(Linked(E, specs[e.edgeLabel], e), specs)
  {
    var spec := specs[e.edgeLabel];
    var E2 := Linked(E, spec, e);
    forall l, f, t | l in specs && specs[l].HasInverse()
      ensures Lookup(E2, specs[l].inverseLabel, t, f) == MirrorOf(Lookup(E2, l, f, t), specs[l].inverseLabel)
    {
      var m := specs[l].inverseLabel;
      LookupLinked(E, spec, e, l, f, t);
      LookupLinked(E, spec, e, m, t, f);
      assert specs[m].inverseLabel == l;
      if l == e.edgeLabel && f == e.fromKey && t == e.toKey {
        assert Lookup(E2, l, f, t) == Some(e);
      } else if spec.HasInverse() && l == spec.inverseLabel && f == e.toKey && t == e.fromKey {
        assert m == e.edgeLabel;
        assert Mirror(Mirror(e, l), m) == e;
      } else {
        assert spec.HasInverse() ==> specs[spec.inverseLabel].inverseLabel == e.edgeLabel;
        assert Lookup(E2, l, f, t) == Lookup(E, l, f, t);
        assert Lookup(E2, m, t, f) == Lookup(E, m, t, f);
      }
    }
  }

  /** `removeEdge` keeps the edges in step with their mirrors, whether it succeeds or
      fails: a failure on the mirror can only be a self-loop that is its own mirror. */
  lemma RemovalInStep(specs: Specs, E: Store, edgeLabel: string, fromKey: string, toKey: string,
                      r: Outcome, E2: Store)
    requires WellFormed(E) && Symmetric(specs) && InStep(E, specs)
    requires Removal(specs, E, edgeLabel, fromKey, toKey, r, E2)
    ensures InStep(E2, specs)
  {
    if edgeLabel in specs && Lookup(E, edgeLabel, fromKey, toKey).Some? {
      var spec := specs[edgeLabel];
      var mid := Delete(E, edgeLabel, fromKey, toKey);
      if spec.HasInverse() && Lookup(mid, spec.inverseLabel, toKey, fromKey).None? {
        DeletedInStep(specs, E, edgeLabel, fromKey, toKey);
      } else {
        DeleteKeepsContainers(E, edgeLabel, fromKey, toKey);
        UnlinkedInStep(specs, E, edgeLabel, fromKey, toKey);
      }
    }
  }

  /** Deleting an edge and its mirror keeps the pairing. */
  lemma UnlinkedInStep(specs: Specs, E: Store, edgeLabel: string, fromKey: string, toKey: string)
    requires WellFormed(E) && Symmetric(specs) && InStep(E, specs)
    requires edgeLabel in specs
    requires edgeLabel in E && fromKey in E[edgeLabel]
    requires specs[edgeLabel].HasInverse() ==>
      specs[edgeLabel].inverseLabel in E && toKey in E[specs[edgeLabel].inverseLabel]
    ensures InStep(Unlinked(E, specs[edgeLabel], edgeLabel, fromKey, toKey), specs)
  {
    var spec := specs[edgeLabel];
    var E2 := Unlinked(E, spec, edgeLabel, fromKey, toKey);
    forall l, f, t | l in specs && specs[l].HasInverse()
      ensures Lookup(E2, specs[l].inverseLabel, t, f) == MirrorOf(Lookup(E2, l, f, t), specs[l].inverseLabel)
    {
      var m := specs[l].inverseLabel;
      LookupUnlinked(E, spec, edgeLabel, fromKey, toKey, l, f, t);
      LookupUnlinked(E, spec, edgeLabel, fromKey, toKey, m, t, f);
      assert specs[m].inverseLabel == l;
      assert spec.HasInverse() ==> specs[spec.inverseLabel].inverseLabel == edgeLabel;
      var gone := (l == edgeLabel && f == fromKey && t == toKey)
        || (spec.HasInverse() && l == spec.inverseLabel && f == toKey && t == fromKey);
      var mirrorGone := (m == edgeLabel && t == fromKey && f == toKey)
        || (spec.HasInverse() && m == spec.inverseLabel && t == toKey && f == fromKey);
      assert gone <==> mirrorGone;
    }
  }

  /** When the mirror is gone once the edge itself is deleted, the edge was its own mirror,
      and deleting it alone keeps the pairing. */
  lemma DeletedInStep(specs: Specs, E: Store, edgeLabel: string, fromKey: string, toKey: string)
    requires WellFormed(E) && Symmetric(specs) && InStep(E, specs)
    requires edgeLabel in specs && specs[edgeLabel].HasInverse()
    requires Lookup(E, edgeLabel, fromKey, toKey).Some?
    requires edgeLabel in E && fromKey in E[edgeLabel]
    requires Lookup(Delete(E, edgeLabel, fromKey, toKey), specs[edgeLabel].inverseLabel, toKey, fromKey).None?
    ensures specs[edgeLabel].inverseLabel == edgeLabel && toKey == fromKey
    ensures InStep(Delete(E, edgeLabel, fromKey, toKey), specs)
  {
    var inv := specs[edgeLabel].inverseLabel;
    var E2 := Delete(E, edgeLabel, fromKey, toKey);
    LookupDelete(E, edgeLabel, fromKey, toKey, inv, toKey, fromKey);
    assert Lookup(E, inv, toKey, fromKey).Some?;
    forall l, f, t | l in specs && specs[l].HasInverse()
      ensures Lookup(E2, specs[l].inverseLabel, t, f) == MirrorOf(Lookup(E2, l, f, t), specs[l].inverseLabel)
    {
      var m := specs[l].inverseLabel;
      LookupDelete(E, edgeLabel, fromKey, toKey, l, f, t);
      LookupDelete(E, edgeLabel, fromKey, toKey, m, t, f);
      assert specs[m].inverseLabel == l;
    }
  }

  /** Dropping an emptied container keeps the pairing. */
  lemma DropInStep(specs: Specs, E: Store, edgeLabel: string, fromKey: string)
    requires InStep(E, specs)
    requires edgeLabel in E && fromKey in E[edgeLabel] && E[edgeLabel][fromKey] == []
    ensures InStep(Drop(E, edgeLabel, fromKey), specs)
  {
    DropEmpty(E, edgeLabel, fromKey);
  }
}
