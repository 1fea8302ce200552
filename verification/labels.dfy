/** The labels that Dijkstra's algorithm keeps on a graph with unit costs, as values, and what each
    of its steps preserves. The topology code keeps the same labels in the routers themselves. */
module PathLabels {
  import opened Graphs

  /** `dist` is -1 for a node not reached yet; `prev` holds a predecessor for each node reached other
      than the source; `known` are the nodes already visited. */
  datatype Labels<V> = Labels(dist: map<V, int>, prev: map<V, V>, known: set<V>)

  ghost predicate Sound<V>(g: Graph<V>, s: V, l: Labels<V>) {
    && Closed(g) && s in g && l.dist.Keys == g.Keys && l.known <= g.Keys && l.prev.Keys <= g.Keys
    && l.dist[s] == 0 && s !in l.prev && (forall v | v in g :: -1 <= l.dist[v])
    && (forall v | v in g && v != s :: v in l.prev <==> 0 <= l.dist[v])
    && (forall v | v in l.prev :: l.prev[v] in l.known && v in g[l.prev[v]] && l.dist[v] == l.dist[l.prev[v]] + 1)
    && (forall v | v in l.known :: 0 <= l.dist[v])
  }

  /** The visited nodes are at least as close as every node reached but not visited. */
  ghost predicate Frontier<V>(l: Labels<V>)
    requires l.known <= l.dist.Keys
  {
    forall u, v | u in l.known && v in l.dist && v !in l.known && 0 <= l.dist[v] :: l.dist[u] <= l.dist[v]
  }

  ghost predicate EdgeRelaxed<V>(l: Labels<V>, u: V, v: V) {
    u in l.dist && v in l.dist && 0 <= l.dist[v] <= l.dist[u] + 1
  }

  ghost predicate Relaxed<V>(g: Graph<V>, l: Labels<V>, u: V)
    requires u in g
  {
    forall v | v in g[u] :: EdgeRelaxed(l, u, v)
  }

  /** `u` has just been marked visited and its edges are being relaxed. */
  ghost predicate Visiting<V>(g: Graph<V>, s: V, l: Labels<V>, u: V) {
    && Sound(g, s, l) && u in l.known
    && (forall v | v in g && v !in l.known && 0 <= l.dist[v] :: l.dist[u] <= l.dist[v])
    && (forall x | x in l.known :: l.dist[x] <= l.dist[u])
    && (forall x | x in l.known && x != u :: Relaxed(g, l, x))
  }

  /** Between two visits. */
  ghost predicate Settled<V>(g: Graph<V>, s: V, l: Labels<V>) {
    && Sound(g, s, l) && Frontier(l)
    && (forall x | x in l.known :: Relaxed(g, l, x))
  }

  ghost function Relax<V>(l: Labels<V>, u: V, w: V): Labels<V>
    requires u in l.dist && w in l.dist
  {
    if w !in l.known && (l.dist[u] + 1 < l.dist[w] || l.dist[w] < 0)
    then l.(dist := l.dist[w := l.dist[u] + 1], prev := l.prev[w := u])
    else l
  }

  ghost function InitialLabels<V>(nodes: set<V>, s: V): Labels<V> {
    Labels(map v | v in nodes :: if v == s then 0 else -1, map[], {})
  }

  lemma InitiallySettled<V>(g: Graph<V>, s: V)
    requires Closed(g) && s in g
    ensures Settled(g, s, InitialLabels(g.Keys, s))
  {
  }

  /** Marking a closest unvisited node starts a visit. */
  lemma VisitClosest<V>(g: Graph<V>, s: V, l: Labels<V>, u: V)
    requires Settled(g, s, l) && u in g && u !in l.known && 0 <= l.dist[u]
    requires forall v | v in g && v !in l.known && 0 <= l.dist[v] :: l.dist[u] <= l.dist[v]
    ensures Visiting(g, s, l.(known := l.known + {u}), u)
  {
    var l' := l.(known := l.known + {u});
    forall x | x in l'.known && x != u
      ensures Relaxed(g, l', x)
    {
      assert Relaxed(g, l, x);
      assert forall v | v in g[x] :: EdgeRelaxed(l, x, v) && EdgeRelaxed(l', x, v);
    }
  }

  lemma RelaxKeepsSound<V>(g: Graph<V>, s: V, l: Labels<V>, u: V, w: V)
    requires Sound(g, s, l) && u in l.known && w in g[u]
    ensures Sound(g, s, Relax(l, u, w))
  {
    var l' := Relax(l, u, w);
    forall v | v in l'.prev
      ensures l'.prev[v] in l'.known && v in g[l'.prev[v]] && l'.dist[v] == l'.dist[l'.prev[v]] + 1
    {
      if v in l.prev {
        assert l.prev[v] in l.known;
      }
    }
  }

  lemma RelaxKeepsRelaxed<V>(g: Graph<V>, s: V, l: Labels<V>, u: V, w: V, x: V)
    requires Visiting(g, s, l, u) && w in g[u]
    requires x in l.known && Relaxed(g, l, x)
    ensures Relaxed(g, Relax(l, u, w), x)
  {
    forall v | v in g[x]
      ensures EdgeRelaxed(Relax(l, u, w), x, v)
    {
      assert EdgeRelaxed(l, x, v);
    }
  }

  lemma RelaxKeepsBounds<V>(g: Graph<V>, s: V, l: Labels<V>, u: V, w: V)
    requires Visiting(g, s, l, u) && w in g[u]
    ensures var l' := Relax(l, u, w);
            && l'.known == l.known && l'.dist.Keys == l.dist.Keys
            && (forall v | v in g && v !in l'.known && 0 <= l'.dist[v] :: l'.dist[u] <= l'.dist[v])
            && (forall x | x in l'.known :: l'.dist[x] <= l'.dist[u])
            && EdgeRelaxed(l', u, w) && (forall v | EdgeRelaxed(l, u, v) :: EdgeRelaxed(l', u, v))
  {
    hide Relaxed;
  }

  /** Relaxing one edge keeps the visit going, settles that edge, and never raises a label. */
  lemma RelaxStep<V>(g: Graph<V>, s: V, l: Labels<V>, u: V, w: V)
    requires Visiting(g, s, l, u) && w in g[u]
    ensures Visiting(g, s, Relax(l, u, w), u)
    ensures EdgeRelaxed(Relax(l, u, w), u, w)
    ensures forall v | EdgeRelaxed(l, u, v) :: EdgeRelaxed(Relax(l, u, w), u, v)
  {
    RelaxKeepsSound(g, s, l, u, w);
    RelaxKeepsBounds(g, s, l, u, w);
    assert w in l.dist;
    hide Sound, Relaxed, Relax, EdgeRelaxed;
    forall x | x in Relax(l, u, w).known && x != u
      ensures Relaxed(g, Relax(l, u, w), x)
    {
      RelaxKeepsRelaxed(g, s, l, u, w, x);
    }
  }

  lemma VisitDone<V>(g: Graph<V>, s: V, l: Labels<V>, u: V)
    requires Visiting(g, s, l, u) && Relaxed(g, l, u)
    ensures Settled(g, s, l)
  {
  }

  /** A label is the length of the walk along the predecessors. */
  lemma {:induction false} LabelIsWalk<V>(g: Graph<V>, s: V, l: Labels<V>, v: V)
    requires Sound(g, s, l) && v in g && 0 <= l.dist[v]
    ensures Walk(g, s, v, l.dist[v])
    decreases l.dist[v]
  {
    if v != s {
      LabelIsWalk(g, s, l, l.prev[v]);
      Extend(g, s, l.prev[v], v, l.dist[l.prev[v]]);
    }
  }

  /** Final labels: exactly the distances, with predecessors one hop closer. */
  ghost predicate Final<V>(g: Graph<V>, s: V, l: Labels<V>) {
    && Sound(g, s, l)
    && (forall v | v in g && 0 <= l.dist[v] :: IsDistance(g, s, v, l.dist[v]))
    && (forall v | v in g && l.dist[v] < 0 :: !Reachable(g, s, v))
  }

  /** When no unvisited node has a label the labels are final. */
  lemma NothingLeft<V>(g: Graph<V>, s: V, l: Labels<V>)
    requires Settled(g, s, l)
    requires forall v | v in g && v !in l.known :: l.dist[v] < 0
    ensures Final(g, s, l)
  {
    forall u, v | u in g && v in g[u] && 0 <= l.dist[u]
      ensures v in l.dist && 0 <= l.dist[v] <= l.dist[u] + 1
    {
      assert Relaxed(g, l, u) && EdgeRelaxed(l, u, v);
    }
    forall v | v in l.dist && 0 <= l.dist[v]
      ensures Walk(g, s, v, l.dist[v])
    {
      LabelIsWalk(g, s, l, v);
    }
    CertificateIsDistance(g, s, l.dist);
  }

  /** What final labels say about one node. */
  lemma FinalAt<V>(g: Graph<V>, s: V, l: Labels<V>, v: V)
    requires Final(g, s, l) && v in g && v != s
    ensures v !in l.prev ==> !Reachable(g, s, v) && l.dist[v] == -1
    ensures v in l.prev ==>
              && l.prev[v] in g && v in g[l.prev[v]] && (l.prev[v] != s ==> l.prev[v] in l.prev)
              && l.dist[v] == l.dist[l.prev[v]] + 1 && 0 <= l.dist[l.prev[v]]
              && Reachable(g, s, v) && IsDistance(g, s, v, l.dist[v])
  {
    if v in l.prev {
      assert l.prev[v] in l.known;
      assert Walk(g, s, v, l.dist[v]);
    }
  }
}
