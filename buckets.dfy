/**
 * One sibling bucket of the edge store: the edges that share a label and a source key
 * (src/data/Project.js:61, 115-157). The source keeps a bucket as an object keyed by
 * `toKey` whose key order is the sibling order; here a bucket is a sequence, so the
 * order is explicit and a key occurs at most once.
 */
module Buckets {
  import opened Records

  /** Siblings appear in non-decreasing `order`. */
  ghost predicate Sorted(b: seq<Edge>)
  {
    forall i, j :: 0 <= i < j < |b| ==> b[i].order <= b[j].order
  }

  /** No two siblings point to the same target: a bucket is an object keyed by `toKey`. */
  ghost predicate DistinctTargets(b: seq<Edge>)
  {
    forall i, j :: 0 <= i < j < |b| ==> b[i].toKey != b[j].toKey
  }

  /** The position of the sibling pointing to `toKey` (`edgesOfTypeFromKey[toKey]`). */
  function FindIndex(b: seq<Edge>, toKey: string): (r: Option<nat>)
    ensures r.Some? ==> r.value < |b| && b[r.value].toKey == toKey
    ensures r.Some? ==> forall j :: 0 <= j < r.value ==> b[j].toKey != toKey
    ensures r.None? <==> forall j :: 0 <= j < |b| ==> b[j].toKey != toKey
  {
    if b == [] then None
    else if b[0].toKey == toKey then Some(0)
    else match FindIndex(b[1..], toKey)
      case Some(i) => Some(i + 1)
      case None => None
  }

  /** The sibling pointing to `toKey`, if there is one. */
  function Find(b: seq<Edge>, toKey: string): Option<Edge>
  {
    match FindIndex(b, toKey)
    case Some(i) => Some(b[i])
    case None => None
  }

  /** In a bucket without repeated targets, looking up `toKey` yields exactly the member
      pointing to `toKey`, and nothing when no member does. */
  lemma FindIsMember(b: seq<Edge>, toKey: string, e: Edge)
    requires DistinctTargets(b)
    ensures Find(b, toKey) == Some(e) <==> e in b && e.toKey == toKey
    ensures Find(b, toKey).None? <==> forall x :: x in b ==> x.toKey != toKey
  {
    if e in b && e.toKey == toKey {
      var i :| 0 <= i < |b| && b[i] == e;
      var j := FindIndex(b, toKey).value;
      assert i == j;
    }
  }

  /** `obj[v.toKey] = v` on a bucket object: a key already present keeps its place and
      takes the new value; a new key goes last. */
  function Put(s: seq<Edge>, v: Edge): seq<Edge>
  {
    match FindIndex(s, v.toKey)
    case Some(i) => s[i := v]
    case None => s + [v]
  }

  /** Where the ordered insertion puts an edge of order `order`: just before the first
      sibling whose order is strictly greater, or at the end when there is none. */
  function InsertionPoint(b: seq<Edge>, order: int): (p: nat)
    ensures p <= |b|
    ensures forall j :: 0 <= j < p ==> b[j].order <= order
    ensures p < |b| ==> b[p].order > order
  {
    if b == [] || b[0].order > order then 0 else 1 + InsertionPoint(b[1..], order)
  }

  /** The bucket after the ordered insertion of `e`. */
  function Inserted(b: seq<Edge>, e: Edge): seq<Edge>
  {
    var p := InsertionPoint(b, e.order);
    b[..p] + [e] + b[p..]
  }

  /** The loop of `_insertEdge` (src/data/Project.js:128-145): the bucket is rebuilt
      sibling by sibling, and the new edge is put in front of the first sibling with a
      strictly greater order, or last. The caller has already checked that `e.toKey` is
      free or already bound to this very edge; in the second case the assignment only
      rewrites the identical value in place. */
  method InsertOrdered(b: seq<Edge>, e: Edge) returns (r: seq<Edge>)
    requires Sorted(b) && DistinctTargets(b)
    requires Find(b, e.toKey) == None || Find(b, e.toKey) == Some(e)
    ensures Find(b, e.toKey).None? ==> r == Inserted(b, e)
    ensures Find(b, e.toKey).Some? ==> r == b
  {
    ghost var p := InsertionPoint(b, e.order);
    ghost var absent := FindIndex(b, e.toKey).None?;
    PutPrefix(b, e, p);
    r := [];
    var inserted := false;
    for i := 0 to |b|
      invariant inserted <==> p < i
      invariant r == Built(b, e, p, absent, i)
    {
      var existing := b[i];
      BuildStep(b, e, p, absent, i);
      if !inserted && existing.order > e.order {
        r := Put(r, e);
        inserted := true;
      }
      r := Put(r, existing);
    }
    assert b[..|b|] == b;
    if !inserted {
      r := Put(r, e);
    }
  }

  /** What the loop of `_insertEdge` has built after visiting the first `i` siblings: the
      siblings so far, with `e` in its place `p` once that place is passed and `e.toKey`
      is new (`absent`). */
  ghost function Built(b: seq<Edge>, e: Edge, p: nat, absent: bool, i: nat): seq<Edge>
    requires p <= |b| && i <= |b|
  {
    if absent && p < i then b[..p] + [e] + b[p..i] else b[..i]
  }

  /** One turn of the loop: `e` is put when the visited sibling is the first of greater
      order, then the sibling itself is put. */
  lemma BuildStep(b: seq<Edge>, e: Edge, p: nat, absent: bool, i: nat)
    requires DistinctTargets(b) && p <= |b| && i < |b|
    requires forall j :: 0 <= j < p ==> b[j].order <= e.order
    requires p < |b| ==> b[p].order > e.order
    requires absent <==> forall j :: 0 <= j < |b| ==> b[j].toKey != e.toKey
    requires Put(b[..p], e) == if absent then b[..p] + [e] else b[..p]
    ensures p == i <==> p >= i && b[i].order > e.order
    ensures Put(if p == i then Put(Built(b, e, p, absent, i), e) else Built(b, e, p, absent, i), b[i])
      == Built(b, e, p, absent, i + 1)
  {
    var mid := if p == i then Put(Built(b, e, p, absent, i), e) else Built(b, e, p, absent, i);
    assert mid == if absent && p <= i then b[..p] + [e] + b[p..i] else b[..i];
    BuiltFresh(b, e, p, i, absent, mid);
    PutAppends(mid, b[i]);
    if absent && p <= i {
      Snoc(b, b[..p] + [e], p, i);
    } else {
      assert b[..i + 1] == b[..i] + [b[i]];
    }
  }

  /** The sibling visited at turn `i` is not yet in what the loop has built. */
  lemma BuiltFresh(b: seq<Edge>, e: Edge, p: nat, i: nat, absent: bool, r: seq<Edge>)
    requires DistinctTargets(b) && p <= |b| && i < |b|
    requires absent ==> e.toKey != b[i].toKey
    requires r == if absent && p <= i then b[..p] + [e] + b[p..i] else b[..i]
    ensures forall x :: x in r ==> x.toKey != b[i].toKey
  {
    forall x | x in r
      ensures x.toKey != b[i].toKey
    {
      if absent && p <= i {
        if x in b[..p] {
          var j :| 0 <= j < p && b[..p][j] == x;
          assert b[j] == x;
        } else if x in b[p..i] {
          var j :| 0 <= j < i - p && b[p..i][j] == x;
          assert b[p + j] == x;
        }
      } else {
        var j :| 0 <= j < i && b[..i][j] == x;
        assert b[j] == x;
      }
    }
  }

  /** Putting a value whose key is new appends it. */
  lemma PutAppends(r: seq<Edge>, v: Edge)
    requires forall x :: x in r ==> x.toKey != v.toKey
    ensures Put(r, v) == r + [v]
  {
    assert FindIndex(r, v.toKey).None?;
  }

  lemma Snoc(b: seq<Edge>, front: seq<Edge>, p: nat, i: nat)
    requires p <= i < |b|
    ensures front + b[p..i + 1] == front + b[p..i] + [b[i]]
  {
    assert b[p..i + 1] == b[p..i] + [b[i]];
  }

  /** Putting `e` at position `p` of the loop: a new key is appended to the prefix, an
      identical edge already in the prefix is rewritten in place. */
  lemma PutPrefix(b: seq<Edge>, e: Edge, p: nat)
    requires Sorted(b) && DistinctTargets(b)
    requires Find(b, e.toKey) == None || Find(b, e.toKey) == Some(e)
    requires p == InsertionPoint(b, e.order)
    ensures FindIndex(b, e.toKey).None? ==> Put(b[..p], e) == b[..p] + [e]
    ensures FindIndex(b, e.toKey).Some? ==> Put(b[..p], e) == b[..p]
  {
    match FindIndex(b, e.toKey)
    case None =>
      assert FindIndex(b[..p], e.toKey).None?;
    case Some(q) =>
      assert b[q] == e;
      assert q < p;
      PutPresent(b[..p], e, q);
  }

  /** Putting an edge already present, first among its target's entries, changes nothing. */
  lemma PutPresent(s: seq<Edge>, e: Edge, q: nat)
    requires q < |s| && s[q] == e
    requires forall j :: 0 <= j < q ==> s[j].toKey != e.toKey
    ensures Put(s, e) == s
  {
    assert FindIndex(s, e.toKey) == Some(q);
    assert s[q := e] == s;
  }

  /** The ordered insertion keeps a sorted bucket sorted. */
  lemma InsertedSorted(b: seq<Edge>, e: Edge)
    requires Sorted(b)
    ensures Sorted(Inserted(b, e))
  {
    var p := InsertionPoint(b, e.order);
    var r := Inserted(b, e);
    forall i, j | 0 <= i < j < |r|
      ensures r[i].order <= r[j].order
    {
      if j > p && p < |b| {
        assert b[p].order <= r[j].order;
      }
    }
  }

  /** The new edge goes after exactly those siblings whose order is not greater than its
      own: ties keep the new edge after them, and every later sibling is strictly greater. */
  lemma InsertedAfterTies(b: seq<Edge>, e: Edge)
    requires Sorted(b)
    ensures forall j :: 0 <= j < |b| ==> (j < InsertionPoint(b, e.order) <==> b[j].order <= e.order)
  {
    var p := InsertionPoint(b, e.order);
    forall j | p <= j < |b|
      ensures b[j].order > e.order
    {
      assert b[p].order <= b[j].order;
    }
  }

  /** The insertion adds exactly the new edge and loses none of the siblings. */
  lemma InsertedMembers(b: seq<Edge>, e: Edge)
    ensures multiset(Inserted(b, e)) == multiset(b) + multiset{e}
  {
    var p := InsertionPoint(b, e.order);
    assert b == b[..p] + b[p..];
  }

  /** A fresh target keeps the targets of the bucket distinct. */
  lemma InsertedDistinct(b: seq<Edge>, e: Edge)
    requires DistinctTargets(b)
    requires Find(b, e.toKey).None?
    ensures DistinctTargets(Inserted(b, e))
  {
    var p := InsertionPoint(b, e.order);
    var r := Inserted(b, e);
    forall i, j | 0 <= i < j < |r|
      ensures r[i].toKey != r[j].toKey
    {
      var bi := if i < p then i else i - 1;
      var bj := if j <= p then j else j - 1;
      if i != p && j != p {
        assert r[i] == b[bi] && r[j] == b[bj] && bi < bj;
      }
    }
  }

  /** After an insertion, the new target finds the new edge and every other lookup is unchanged. */
  lemma FindInserted(b: seq<Edge>, e: Edge, other: string)
    requires DistinctTargets(b)
    requires Find(b, e.toKey).None?
    ensures Find(Inserted(b, e), other) == if other == e.toKey then Some(e) else Find(b, other)
  {
    var r := Inserted(b, e);
    InsertedMembers(b, e);
    InsertedDistinct(b, e);
    assert forall x :: x in r <==> x in b || x == e by {
      forall x ensures x in r <==> x in b || x == e {
        assert x in r <==> x in multiset(r);
        assert x in b <==> x in multiset(b);
      }
    }
    FindIsMember(r, other, e);
    match Find(b, other)
    case None =>
      FindIsMember(b, other, e);
    case Some(x) =>
      FindIsMember(b, other, x);
      FindIsMember(r, other, x);
      FindIsMember(b, e.toKey, x);
  }

  /** `delete edgesOfTypeFromKey[toKey]`: the bucket without the sibling pointing to `toKey`. */
  function Removed(b: seq<Edge>, toKey: string): seq<Edge>
  {
    match FindIndex(b, toKey)
    case Some(i) => DropAt(b, i)
    case None => b
  }

  /** The bucket without its `i`-th sibling. */
  function DropAt(b: seq<Edge>, i: nat): seq<Edge>
    requires i < |b|
  {
    b[..i] + b[i + 1..]
  }

  /** Deleting a present target shortens the bucket by exactly one. */
  lemma RemovedLength(b: seq<Edge>, toKey: string)
    requires Find(b, toKey).Some?
    ensures |Removed(b, toKey)| == |b| - 1
  {
  }

  /** The siblings that survive a deletion are those pointing elsewhere. */
  lemma RemovedMembers(b: seq<Edge>, toKey: string)
    requires DistinctTargets(b)
    ensures forall x :: x in Removed(b, toKey) <==> x in b && x.toKey != toKey
  {
    match FindIndex(b, toKey)
    case None =>
    case Some(i) =>
      var r := Removed(b, toKey);
      RemovedAt(b, i);
      forall x | x in b && x.toKey != toKey
        ensures x in r
      {
        var k :| 0 <= k < |b| && b[k] == x;
        if k < i { assert r[k] == x; } else { assert r[k - 1] == x; }
      }
      forall x | x in r
        ensures x in b && x.toKey != toKey
      {
        var k :| 0 <= k < |r| && r[k] == x;
        assert x == b[if k < i then k else k + 1];
      }
  }

  /** Position by position, deleting the sibling at `i` shifts the later ones down. */
  lemma RemovedAt(b: seq<Edge>, i: nat)
    requires i < |b|
    ensures |DropAt(b, i)| == |b| - 1
    ensures forall k :: 0 <= k < i ==> DropAt(b, i)[k] == b[k]
    ensures forall k :: i <= k < |b| - 1 ==> DropAt(b, i)[k] == b[k + 1]
  {
  }

  /** Deleting keeps the bucket sorted and its targets distinct. */
  lemma RemovedSortedDistinct(b: seq<Edge>, toKey: string)
    ensures Sorted(b) ==> Sorted(Removed(b, toKey))
    ensures DistinctTargets(b) ==> DistinctTargets(Removed(b, toKey))
  {
    match FindIndex(b, toKey)
    case None =>
    case Some(i) =>
      RemovedAt(b, i);
  }

  /** After a deletion, the deleted target is gone and every other lookup is unchanged. */
  lemma FindRemoved(b: seq<Edge>, toKey: string, other: string)
    requires DistinctTargets(b)
    ensures Find(Removed(b, toKey), other) == if other == toKey then None else Find(b, other)
  {
    var r := Removed(b, toKey);
    RemovedMembers(b, toKey);
    RemovedSortedDistinct(b, toKey);
    match Find(b, other)
    case None =>
      FindIsMember(b, other, Edge("", "", "", "", 0));
      FindIsMember(r, other, Edge("", "", "", "", 0));
    case Some(e) =>
      FindIsMember(b, other, e);
      FindIsMember(r, other, e);
      if other == toKey {
        FindIsMember(r, other, e);
      }
  }

  /** Insert-then-delete round trip: deleting the edge just inserted gives back the bucket. */
  lemma RemovedInserted(b: seq<Edge>, e: Edge)
    requires Find(b, e.toKey).None?
    ensures Removed(Inserted(b, e), e.toKey) == b
  {
    var p := InsertionPoint(b, e.order);
    var r := Inserted(b, e);
    assert r[p] == e;
    assert forall j :: 0 <= j < p ==> r[j] == b[j];
    assert FindIndex(r, e.toKey) == Some(p);
    assert r[..p] == b[..p] && r[p + 1..] == b[p..];
    assert b == b[..p] + b[p..];
  }

  /** `c` is `b` with some siblings taken out and the others in their previous order. */
  ghost predicate Subseq(c: seq<Edge>, b: seq<Edge>)
    decreases |b|
  {
    c == [] || (b != [] && ((c[0] == b[0] && Subseq(c[1..], b[1..])) || Subseq(c, b[1..])))
  }

  lemma {:induction false} SubseqRefl(b: seq<Edge>)
    ensures Subseq(b, b)
    decreases |b|
  {
    if b != [] {
      SubseqRefl(b[1..]);
    }
  }

  lemma {:induction false} SubseqTrans(c: seq<Edge>, b: seq<Edge>, a: seq<Edge>)
    requires Subseq(c, b) && Subseq(b, a)
    ensures Subseq(c, a)
    decreases |a|
  {
    if c == [] {
    } else if b == [] {
    } else if Subseq(b, a[1..]) {
      SubseqTrans(c, b, a[1..]);
    } else if c[0] == b[0] && Subseq(c[1..], b[1..]) {
      SubseqTrans(c[1..], b[1..], a[1..]);
    } else {
      SubseqTrans(c, b[1..], a[1..]);
    }
  }

  /** Whatever a subsequence holds, the original holds. */
  lemma {:induction false} SubseqMembers(c: seq<Edge>, b: seq<Edge>)
    requires Subseq(c, b)
    ensures forall x :: x in c ==> x in b
    decreases |b|
  {
    if c != [] {
      if c[0] == b[0] && Subseq(c[1..], b[1..]) {
        SubseqMembers(c[1..], b[1..]);
        assert c == [c[0]] + c[1..];
      } else {
        SubseqMembers(c, b[1..]);
      }
      assert b == [b[0]] + b[1..];
    }
  }

  lemma {:induction false} DropIndexSubseq(b: seq<Edge>, i: nat)
    requires i < |b|
    ensures Subseq(b[..i] + b[i + 1..], b)
    decreases i
  {
    var c := b[..i] + b[i + 1..];
    if i == 0 {
      assert c == b[1..];
      SubseqRefl(b[1..]);
    } else {
      DropIndexSubseq(b[1..], i - 1);
      assert c[1..] == b[1..][..i - 1] + b[1..][i..];
    }
  }

  /** A deletion keeps the surviving siblings in their previous order. */
  lemma RemovedSubseq(b: seq<Edge>, toKey: string)
    ensures Subseq(Removed(b, toKey), b)
  {
    match FindIndex(b, toKey)
    case None => SubseqRefl(b);
    case Some(i) => DropIndexSubseq(b, i);
  }
}
