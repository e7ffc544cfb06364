/**
 * The cascade of `removeNode(key)` (src/data/Project.js:74-94). For every label with a
 * specification, every edge leaving `key` is removed with `removeEdge` (which also removes
 * its mirror), then the emptied bucket container is dropped. The labels are visited in
 * the order of the specification object's keys; the predicates below do not depend on
 * that order, so they hold whichever order the labels are visited in.
 */
module Cascade {
  import opened Records
  import opened Buckets
  import opened EdgeStore

  /** (`l`, `f`, `key`) is the mirror of an edge that left `key` in `E0` under a specified
      label whose inverse is `l`. */
  ghost predicate MirrorOfOutgoing(E0: Store, specs: Specs, key: string, l: string, f: string)
  {
    exists L :: L in specs && specs[L].HasInverse() && specs[L].inverseLabel == l && Lookup(E0, L, key, f).Some?
  }

  /** The triples a completed cascade may change: the edges leaving `key` under specified
      labels, and the mirrors of those edges. */
  ghost predicate Touched(E0: Store, specs: Specs, key: string, l: string, f: string, t: string)
  {
    || (f == key && l in specs)
    || (t == key && MirrorOfOutgoing(E0, specs, key, l, f))
  }

  /** The triples a completed cascade certainly empties. A mirror of a self-loop is left out:
      whether it is removed depends on the order in which the labels are visited. */
  ghost predicate Severed(E0: Store, specs: Specs, key: string, l: string, f: string, t: string)
  {
    || (f == key && l in specs)
    || (t == key && f != key && MirrorOfOutgoing(E0, specs, key, l, f))
  }

  /** Every triple the cascade may not change finds in `E` what it found in `E0`. */
  ghost predicate Spared(E0: Store, E: Store, specs: Specs, key: string)
  {
    forall l, f, t :: !Touched(E0, specs, key, l, f, t) ==> Lookup(E, l, f, t) == Lookup(E0, l, f, t)
  }

  /** `E` is what the cascade has made of `E0` once the labels in `done` are finished:
      nothing was added or reordered, the finished labels hold no container for `key`,
      every other container is still there, only touched triples changed, and an edge
      leaving `key` that has gone took its mirror with it. */
  ghost predicate Cascaded(E0: Store, E: Store, specs: Specs, key: string, done: set<string>)
  {
    && Retains(E0, E)
    && (forall l :: l in done && l in E ==> key !in E[l])
    && (forall l, f :: l in E0 && f in E0[l] && !(l in done && f == key) ==> l in E && f in E[l])
    && Spared(E0, E, specs, key)
    && (forall L, t ::
          L in specs && specs[L].HasInverse() && t != key &&
          Lookup(E0, L, key, t).Some? && Lookup(E, L, key, t).None?
          ==> Lookup(E, specs[L].inverseLabel, t, key).None?)
  }

  /** The mirrors of the edges leaving `key` are where `removeEdge` will look for them: no
      such edge is a self-loop, each has its mirror, and no two specified labels sharing
      an inverse both lead from `key` to the same target (they would share one mirror). */
  ghost predicate MirrorsIntact(E0: Store, specs: Specs, key: string)
  {
    forall L, t :: L in specs && specs[L].HasInverse() && Lookup(E0, L, key, t).Some? ==>
      && t != key
      && Lookup(E0, specs[L].inverseLabel, t, key).Some?
      && (forall L2 ::
            L2 in specs && L2 != L && specs[L2].HasInverse() && specs[L2].inverseLabel == specs[L].inverseLabel
            ==> Lookup(E0, L2, key, t).None?)
  }

  /** Every edge still leaving `key` under a specified label with an inverse has its mirror. */
  ghost predicate MirrorsPresent(E: Store, specs: Specs, key: string)
  {
    forall L, t :: L in specs && specs[L].HasInverse() && Lookup(E, L, key, t).Some? ==>
      Lookup(E, specs[L].inverseLabel, t, key).Some?
  }

  /** The loop invariant of `removeNode` once the labels in `done` are finished. */
  ghost predicate OnCourse(E0: Store, E: Store, specs: Specs, key: string, done: set<string>)
  {
    && WellFormed(E)
    && Cascaded(E0, E, specs, key, done)
    && (MirrorsIntact(E0, specs, key) ==> MirrorsPresent(E, specs, key))
  }

  /** Before the first label, nothing has happened. */
  lemma CascadeStart(E0: Store, specs: Specs, key: string)
    requires WellFormed(E0)
    ensures OnCourse(E0, E0, specs, key, {})
  {
    RetainsRefl(E0);
  }

  /** Once every specified label is finished: the triples the cascade severs are empty,
      untouched triples find what they found before, and whatever is still found was
      there before. */
  lemma CascadeOutcome(E0: Store, E: Store, specs: Specs, key: string, l: string, f: string, t: string)
    requires WellFormed(E0)
    requires Cascaded(E0, E, specs, key, specs.Keys)
    ensures Severed(E0, specs, key, l, f, t) ==> Lookup(E, l, f, t).None?
    ensures !Touched(E0, specs, key, l, f, t) ==> Lookup(E, l, f, t) == Lookup(E0, l, f, t)
    ensures Lookup(E, l, f, t).Some? ==> Lookup(E, l, f, t) == Lookup(E0, l, f, t)
  {
    if Lookup(E, l, f, t).Some? {
      RetainsLookup(E0, E, l, f, t);
    }
    if Severed(E0, specs, key, l, f, t) && !(f == key && l in specs) {
      var L :| L in specs && specs[L].HasInverse() && specs[L].inverseLabel == l && Lookup(E0, L, key, f).Some?;
      assert Lookup(E, L, key, f).None?;
    }
  }

  /** One `removeEdge` of an edge leaving `key` under the label being visited, when it
      succeeds, keeps the cascade on course and shortens that label's bucket for `key`. */
  lemma CascadeUnlink(E0: Store, E: Store, specs: Specs, key: string, done: set<string>, current: string, t: string)
    requires WellFormed(E0) && WellFormed(E)
    requires Cascaded(E0, E, specs, key, done)
    requires current in specs && current !in done
    requires Lookup(E, current, key, t).Some?
    requires specs[current].HasInverse() ==>
      Lookup(Delete(E, current, key, t), specs[current].inverseLabel, t, key).Some?
    ensures specs[current].HasInverse() ==> specs[current].inverseLabel in E && t in E[specs[current].inverseLabel]
    ensures WellFormed(Unlinked(E, specs[current], current, key, t))
    ensures Cascaded(E0, Unlinked(E, specs[current], current, key, t), specs, key, done)
    ensures current in Unlinked(E, specs[current], current, key, t) && key in Unlinked(E, specs[current], current, key, t)[current]
    ensures |Unlinked(E, specs[current], current, key, t)[current][key]| < |E[current][key]|
  {
    var spec := specs[current];
    var mid := Delete(E, current, key, t);
    DeleteKeepsContainers(E, current, key, t);
    RemovedLength(E[current][key], t);
    if spec.HasInverse() && spec.inverseLabel == current && t == key {
      LookupDelete(E, current, key, t, current, key, key);
      assert false;
    }
    var E2 := Unlinked(E, spec, current, key, t);
    UnlinkedWellFormed(E, spec, current, key, t);
    RetainsTrans(E0, E, E2);
    RetainsLookup(E0, E, current, key, t);
    assert Spared(E0, E, specs, key);
    forall l, f, t' | !Touched(E0, specs, key, l, f, t')
      ensures Lookup(E2, l, f, t') == Lookup(E0, l, f, t')
    {
      LookupUnlinked(E, spec, current, key, t, l, f, t');
    }
    assert Spared(E0, E2, specs, key);
    forall L, t2 |
      L in specs && specs[L].HasInverse() && t2 != key &&
      Lookup(E0, L, key, t2).Some? && Lookup(E2, L, key, t2).None?
      ensures Lookup(E2, specs[L].inverseLabel, t2, key).None?
    {
      LookupUnlinked(E, spec, current, key, t, L, key, t2);
      LookupUnlinked(E, spec, current, key, t, specs[L].inverseLabel, t2, key);
    }
  }

  /** Under `MirrorsIntact`, removing an edge that leaves `key` finds its mirror, and the
      remaining edges leaving `key` keep theirs. */
  lemma IntactUnlinkSucceeds(E0: Store, E: Store, specs: Specs, key: string, current: string, t: string)
    requires WellFormed(E0) && WellFormed(E) && Retains(E0, E)
    requires MirrorsIntact(E0, specs, key) && MirrorsPresent(E, specs, key)
    requires current in specs && Lookup(E, current, key, t).Some?
    ensures specs[current].HasInverse() ==>
      Lookup(Delete(E, current, key, t), specs[current].inverseLabel, t, key).Some?
    ensures MirrorsPresent(Unlinked(E, specs[current], current, key, t), specs, key)
  {
    var spec := specs[current];
    var mid := Delete(E, current, key, t);
    RetainsLookup(E0, E, current, key, t);
    DeleteWellFormed(E, current, key, t);
    DeleteKeepsContainers(E, current, key, t);
    LookupDelete(E, current, key, t, spec.inverseLabel, t, key);
    var E2 := Unlinked(E, spec, current, key, t);
    forall l, f, t' | Lookup(E2, l, f, t').Some?
      ensures Lookup(E, l, f, t') == Lookup(E2, l, f, t')
      ensures !(l == current && f == key && t' == t)
      ensures !(spec.HasInverse() && l == spec.inverseLabel && f == t && t' == key)
    {
      LookupDelete(E, current, key, t, l, f, t');
      if spec.HasInverse() {
        LookupDelete(mid, spec.inverseLabel, t, key, l, f, t');
      }
    }
    forall L, t2 | L in specs && specs[L].HasInverse() && Lookup(E2, L, key, t2).Some?
      ensures Lookup(E2, specs[L].inverseLabel, t2, key).Some?
    {
      RetainsLookup(E0, E, L, key, t2);
      var inv2 := specs[L].inverseLabel;
      LookupDelete(E, current, key, t, inv2, t2, key);
      if spec.HasInverse() {
        LookupDelete(mid, spec.inverseLabel, t, key, inv2, t2, key);
      }
    }
  }

  /** Dropping the emptied container of the label being visited finishes that label. */
  lemma CascadeDrop(E0: Store, E: Store, specs: Specs, key: string, done: set<string>, current: string)
    requires WellFormed(E0) && OnCourse(E0, E, specs, key, done)
    requires current in specs && current in E && key in E[current] && E[current][key] == []
    ensures OnCourse(E0, Drop(E, current, key), specs, key, done + {current})
  {
    var D := Drop(E, current, key);
    DropRetains(E, current, key);
    DropEmpty(E, current, key);
    DroppedCascaded(E0, E, specs, key, done, current);
    if MirrorsIntact(E0, specs, key) {
      assert MirrorsPresent(E, specs, key);
      SameLookupsMirrorsPresent(E, D, specs, key);
    }
  }

  lemma DroppedCascaded(E0: Store, E: Store, specs: Specs, key: string, done: set<string>, current: string)
    requires WellFormed(E0) && WellFormed(E) && Cascaded(E0, E, specs, key, done)
    requires current in E && key in E[current] && E[current][key] == []
    ensures Cascaded(E0, Drop(E, current, key), specs, key, done + {current})
  {
    var D := Drop(E, current, key);
    DropRetains(E, current, key);
    RetainsTrans(E0, E, D);
    DropEmpty(E, current, key);
  }

  lemma SameLookupsMirrorsPresent(E: Store, D: Store, specs: Specs, key: string)
    requires MirrorsPresent(E, specs, key)
    requires forall l, f, t :: Lookup(D, l, f, t) == Lookup(E, l, f, t)
    ensures MirrorsPresent(D, specs, key)
  {
  }

  /** A label with no container for `key` is finished at once. */
  lemma CascadeSkip(E0: Store, E: Store, specs: Specs, key: string, done: set<string>, current: string)
    requires OnCourse(E0, E, specs, key, done)
    requires current !in E || key !in E[current]
    ensures OnCourse(E0, E, specs, key, done + {current})
  {
    forall l, f | l in E0 && f in E0[l] && !(l in done + {current} && f == key)
      ensures l in E && f in E[l]
    {
    }
  }

  /** One pass of `removeNode`'s inner loop: `removeEdge` of the first edge of the
      container of `key` under the label being visited. It adds nothing and changes no
      triple the cascade may not touch; a failure is a missing mirror pointing back to `key`; a success keeps the cascade on course and
      shortens the container; and under `MirrorsIntact` it cannot fail. */
  lemma ClearStep(E0: Store, E: Store, E2: Store, specs: Specs, key: string, done: set<string>,
                  current: string, r: Outcome)
    requires WellFormed(E0) && OnCourse(E0, E, specs, key, done)
    requires current in specs && current !in done
    requires current in E && key in E[current] && E[current][key] != []
    requires Removal(specs, E, E[current][key][0].edgeLabel, E[current][key][0].fromKey,
                     E[current][key][0].toKey, r, E2)
    ensures Retains(E0, E2) && Spared(E0, E2, specs, key)
    ensures r.Fail? ==>
      (r.error.MissingLabel? || r.error.MissingFromKey? || r.error.MissingToKey?) && r.error.toKey == key
    ensures r.Pass? ==>
      && OnCourse(E0, E2, specs, key, done)
      && current in E2 && key in E2[current]
      && |E2[current][key]| < |E[current][key]|
    ensures MirrorsIntact(E0, specs, key) ==> r.Pass?
  {
    var edge := E[current][key][0];
    var t := edge.toKey;
    LookupIsMember(E, current, key, t, edge);
    var mid := Delete(E, current, key, t);
    DeleteWellFormed(E, current, key, t);
    RetainsTrans(E0, E, mid);
    if MirrorsIntact(E0, specs, key) {
      IntactUnlinkSucceeds(E0, E, specs, key, current, t);
    }
    if r.Pass? {
      CascadeUnlink(E0, E, specs, key, done, current, t);
    } else {
      forall l, f, t' | !Touched(E0, specs, key, l, f, t')
        ensures Lookup(E2, l, f, t') == Lookup(E0, l, f, t')
      {
        LookupDelete(E, current, key, t, l, f, t');
      }
    }
  }
}
