/**
 * The spec registry (src/data/Project.js:3-13, 57-59): the node-spec and edge-spec
 * lists are folded into maps keyed by `type` and `label`. A later item with the same
 * key overwrites an earlier one; duplicates are not rejected.
 */
module Registry {
  import opened Records

  /** `keyOf({type: null})`: node specifications are keyed by their type. */
  function NodeSpecKey(s: NodeSpec): string { s.nodeType }

  /** `keyOf({label: null})`: edge specifications are keyed by their label (`edgeLabel`; `label` is a Dafny keyword). */
  function EdgeSpecKey(s: EdgeSpec): string { s.edgeLabel }

  /** `items[i]` is the last item of `items` whose key is `k`. */
  ghost predicate LastWithKey<T>(items: seq<T>, key: T -> string, k: string, i: int)
  {
    && 0 <= i < |items|
    && key(items[i]) == k
    && forall j :: i < j < |items| ==> key(items[j]) != k
  }

  /** `r` is the map `pull(items, key)` builds: its domain is exactly the keys of the
      items, and each key is bound to the last item that carries it. */
  ghost predicate PulledFrom<T>(r: map<string, T>, items: seq<T>, key: T -> string)
  {
    && r.Keys == (set i | 0 <= i < |items| :: key(items[i]))
    && forall k :: k in r ==> exists i :: LastWithKey(items, key, k, i) && r[k] == items[i]
  }

  /** `pull(arr, key)`: the `forEach` that fills a fresh object item by item. */
  method Pull<T>(items: seq<T>, key: T -> string) returns (r: map<string, T>)
    ensures PulledFrom(r, items, key)
  {
    r := map[];
    for n := 0 to |items|
      invariant PulledFrom(r, items[..n], key)
    {
      var k := key(items[n]);
      ghost var prefix := items[..n + 1];
      assert prefix[..n] == items[..n];
      var next := r[k := items[n]];
      forall k' | k' in next
        ensures exists i :: LastWithKey(prefix, key, k', i) && next[k'] == prefix[i]
      {
        if k' == k {
          assert LastWithKey(prefix, key, k', n);
        } else {
          var i :| LastWithKey(items[..n], key, k', i) && r[k'] == items[..n][i];
          assert LastWithKey(prefix, key, k', i);
        }
      }
      assert (set i | 0 <= i < |prefix| :: key(prefix[i]))
          == (set i | 0 <= i < n :: key(items[..n][i])) + {k};
      r := next;
    }
    assert items[..|items|] == items;
  }

  /** The registry is determined by the list: two maps both pulled from it are equal. */
  lemma PulledUnique<T>(r1: map<string, T>, r2: map<string, T>, items: seq<T>, key: T -> string)
    requires PulledFrom(r1, items, key) && PulledFrom(r2, items, key)
    ensures r1 == r2
  {
    forall k | k in r1
      ensures r1[k] == r2[k]
    {
      var i1 :| LastWithKey(items, key, k, i1) && r1[k] == items[i1];
      var i2 :| LastWithKey(items, key, k, i2) && r2[k] == items[i2];
      assert i1 == i2;
    }
  }

  /** Last one wins: the item bound to a key is the last item of the list with that key. */
  lemma PulledLastWins<T>(r: map<string, T>, items: seq<T>, key: T -> string, i: int)
    requires PulledFrom(r, items, key)
    requires 0 <= i < |items|
    requires LastWithKey(items, key, key(items[i]), i)
    ensures key(items[i]) in r && r[key(items[i])] == items[i]
  {
    var k := key(items[i]);
    assert k in r;
    var j :| LastWithKey(items, key, k, j) && r[k] == items[j];
    assert i == j;
  }
}
