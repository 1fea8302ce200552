/** Walks and hop distances in a directed graph, given as a map from each node to its successors.
    This is the reference definition that the routing code is measured against. */
module Graphs {

  type Graph<V> = map<V, set<V>>

  /** Every edge ends at a node of the graph. */
  ghost predicate Closed<V>(g: Graph<V>) {
    forall v | v in g :: g[v] <= g.Keys
  }

  /** There is a walk of exactly `n` edges from `s` to `t`. */
  ghost predicate Walk<V>(g: Graph<V>, s: V, t: V, n: nat) {
    if n == 0 then s == t
    else exists u :: u in g && Walk(g, s, u, n - 1) && t in g[u]
  }

  ghost predicate Reachable<V>(g: Graph<V>, s: V, t: V) {
    exists n: nat :: Walk(g, s, t, n)
  }

  /** `d` is the least number of hops from `s` to `t`. */
  ghost predicate IsDistance<V>(g: Graph<V>, s: V, t: V, d: nat) {
    && Walk(g, s, t, d)
    && forall n: nat | Walk(g, s, t, n) :: d <= n
  }

  lemma Stay<V>(g: Graph<V>, s: V)
    ensures Walk(g, s, s, 0)
  {
  }

  lemma Extend<V>(g: Graph<V>, s: V, u: V, t: V, n: nat)
    requires u in g && Walk(g, s, u, n) && t in g[u]
    ensures Walk(g, s, t, n + 1)
  {
  }

  /** Walks compose. */
  lemma {:induction false} Compose<V>(g: Graph<V>, s: V, u: V, t: V, m: nat, n: nat)
    requires Walk(g, s, u, m) && Walk(g, u, t, n)
    ensures Walk(g, s, t, m + n)
    decreases n
  {
    if n > 0 {
      var w :| w in g && Walk(g, u, w, n - 1) && t in g[w];
      Compose(g, s, u, w, m, n - 1);
      Extend(g, s, w, t, m + n - 1);
    }
  }

  lemma Edge<V>(g: Graph<V>, s: V, t: V)
    requires s in g && t in g[s]
    ensures Walk(g, s, t, 1)
  {
    assert Walk(g, s, s, 0);
  }

  /** A labelling that is 0 at the source, is realised by walks, and never drops by more than one
      hop across an edge, is the distance; nodes without a label are unreachable. */
  ghost predicate Certificate<V>(g: Graph<V>, s: V, d: map<V, int>) {
    && d.Keys == g.Keys
    && s in d && d[s] == 0
    && (forall v | v in d && d[v] >= 0 :: Walk(g, s, v, d[v]))
    && (forall u, v | u in g && v in g[u] && d[u] >= 0 :: v in d && 0 <= d[v] <= d[u] + 1)
  }

  lemma {:induction false} CertificateBounds<V>(g: Graph<V>, s: V, d: map<V, int>, t: V, n: nat)
    requires Certificate(g, s, d) && Walk(g, s, t, n)
    ensures t in d && 0 <= d[t] <= n
    decreases n
  {
    if n > 0 {
      var u :| u in g && Walk(g, s, u, n - 1) && t in g[u];
      CertificateBounds(g, s, d, u, n - 1);
    }
  }

  lemma CertificateIsDistance<V>(g: Graph<V>, s: V, d: map<V, int>)
    requires Certificate(g, s, d)
    ensures forall v | v in d && d[v] >= 0 :: IsDistance(g, s, v, d[v])
    ensures forall v | v in d && d[v] < 0 :: !Reachable(g, s, v)
  {
    forall v, n: nat | v in d && Walk(g, s, v, n)
      ensures 0 <= d[v] <= n
    {
      CertificateBounds(g, s, d, v, n);
    }
  }

  /** Every node on a shortest walk is reached by its own shortest walk. */
  lemma SuffixIsShortest<V>(g: Graph<V>, s: V, y: V, t: V, m: nat, n: nat)
    requires IsDistance(g, s, t, m + n) && Walk(g, s, y, m) && Walk(g, y, t, n)
    ensures IsDistance(g, y, t, n)
  {
    forall k: nat | Walk(g, y, t, k)
      ensures n <= k
    {
      Compose(g, s, y, t, m, k);
    }
  }

  /** A reachable node has a distance. */
  lemma DistanceExists<V>(g: Graph<V>, s: V, t: V) returns (d: nat)
    requires Reachable(g, s, t)
    ensures IsDistance(g, s, t, d)
  {
    d :| Walk(g, s, t, d);
    while exists n: nat :: n < d && Walk(g, s, t, n)
      invariant Walk(g, s, t, d)
      decreases d
    {
      var n: nat :| n < d && Walk(g, s, t, n);
      d := n;
    }
  }

  /** `h` is `g` with its nodes renamed by the injective function `f`. */
  ghost predicate Renames<U, V>(g: Graph<U>, h: Graph<V>, f: U -> V) {
    && Closed(g)
    && (forall u, v | u in g && v in g && f(u) == f(v) :: u == v)
    && (forall u | u in g :: f(u) in h && forall v | v in g :: v in g[u] <==> f(v) in h[f(u)])
    && (forall x | x in h :: exists u | u in g :: f(u) == x)
  }

  lemma {:induction false} RenamedWalk<U, V>(g: Graph<U>, h: Graph<V>, f: U -> V, s: U, t: U, n: nat)
    requires Renames(g, h, f) && s in g && t in g && Walk(g, s, t, n)
    ensures Walk(h, f(s), f(t), n)
    decreases n
  {
    if n > 0 {
      var u :| u in g && Walk(g, s, u, n - 1) && t in g[u];
      RenamedWalk(g, h, f, s, u, n - 1);
    }
  }

  lemma {:induction false} WalkBeforeRenaming<U, V>(g: Graph<U>, h: Graph<V>, f: U -> V, s: U, t: U, n: nat)
    requires Renames(g, h, f) && s in g && t in g && Walk(h, f(s), f(t), n)
    ensures Walk(g, s, t, n)
    decreases n
  {
    if n > 0 {
      var x :| x in h && Walk(h, f(s), x, n - 1) && f(t) in h[x];
      var u :| u in g && f(u) == x;
      WalkBeforeRenaming(g, h, f, s, u, n - 1);
    }
  }

  /** Renaming keeps distances. */
  lemma RenamedDistance<U, V>(g: Graph<U>, h: Graph<V>, f: U -> V, s: U, t: U, d: nat)
    requires Renames(g, h, f) && s in g && t in g && IsDistance(g, s, t, d)
    ensures IsDistance(h, f(s), f(t), d)
  {
    hide Walk, Renames;
    RenamedWalk(g, h, f, s, t, d);
    forall n: nat | Walk(h, f(s), f(t), n)
      ensures d <= n
    {
      WalkBeforeRenaming(g, h, f, s, t, n);
    }
  }
}
