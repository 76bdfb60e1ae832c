/** Wait-for graphs in which every thread waits for at most one other. */
module WaitGraph {
  type Graph = map<nat, nat>

  /** Following `n` edges from `a` ends at `b`. */
  predicate Reaches(g: Graph, a: nat, b: nat, n: nat)
    decreases n
  {
    if n == 0 then a == b else a in g && Reaches(g, g[a], b, n - 1)
  }

  ghost predicate HasPath(g: Graph, a: nat, b: nat) {
    exists n: nat :: Reaches(g, a, b, n)
  }

  ghost predicate Acyclic(g: Graph) {
    forall a: nat, n: nat :: n > 0 ==> !Reaches(g, a, a, n)
  }

  lemma {:induction false} ReachesTrans(g: Graph, a: nat, b: nat, c: nat, m: nat, n: nat)
    requires Reaches(g, a, b, m) && Reaches(g, b, c, n)
    ensures Reaches(g, a, c, m + n)
    decreases m
  {
    if m > 0 { ReachesTrans(g, g[a], b, c, m - 1, n); }
  }

  /** More edges keep the paths, as long as no edge is redirected. */
  lemma {:induction false} ReachesGrows(g: Graph, h: Graph, a: nat, b: nat, n: nat)
    requires forall x :: x in g ==> x in h && h[x] == g[x]
    requires Reaches(g, a, b, n)
    ensures Reaches(h, a, b, n)
    decreases n
  {
    if n > 0 { ReachesGrows(g, h, g[a], b, n - 1); }
  }

  lemma SubgraphAcyclic(g: Graph, h: Graph)
    requires forall x :: x in g ==> x in h && h[x] == g[x]
    requires Acyclic(h)
    ensures Acyclic(g)
  {
    forall a: nat, n: nat | n > 0 && Reaches(g, a, a, n) ensures false {
      ReachesGrows(g, h, a, a, n);
    }
  }

  /** A path either avoids `x` or comes to it for a first time. */
  lemma {:induction false} AvoidsOrMeets(g: Graph, x: nat, a: nat, b: nat, n: nat) returns (k: nat)
    requires Reaches(g, a, b, n)
    ensures k <= n
    ensures Reaches(g - {x}, a, b, n) || (Reaches(g - {x}, a, x, k) && Reaches(g, x, b, n - k))
    decreases n
  {
    if n == 0 || a == x {
      k := 0;
    } else {
      var j := AvoidsOrMeets(g, x, g[a], b, n - 1);
      k := j + 1;
    }
  }

  /** A new edge closes a cycle exactly when its end already leads to its start. */
  lemma EdgeClosesCycle(g: Graph, a: nat, b: nat)
    requires a !in g && Acyclic(g)
    ensures Acyclic(g[a := b]) <==> !HasPath(g, b, a)
  {
    var h := g[a := b];
    assert h - {a} == g;
    if n: nat :| Reaches(g, b, a, n) {
      ReachesGrows(g, h, b, a, n);
      assert Reaches(h, a, a, n + 1);
    }
    forall c: nat, n: nat | n > 0 && Reaches(h, c, c, n) ensures HasPath(g, b, a) {
      CycleThroughNewEdge(g, a, b, c, n);
    }
  }

  lemma CycleThroughNewEdge(g: Graph, a: nat, b: nat, c: nat, n: nat)
    requires a !in g && Acyclic(g) && n > 0 && Reaches(g[a := b], c, c, n)
    ensures HasPath(g, b, a)
  {
    var h := g[a := b];
    assert h - {a} == g;
    var k := AvoidsOrMeets(h, a, c, c, n);
    assert Reaches(g, c, a, k) && Reaches(h, a, c, n - k);
    ReachesGrows(g, h, c, a, k);
    ReachesTrans(h, b, c, a, n - k - 1, k);
    var j := AvoidsOrMeets(h, a, b, a, n - 1);
  }

  /** Edges to a thread that waits for nobody close no cycle. */
  lemma EdgesToSink(g: Graph, h: Graph, sink: nat)
    requires Acyclic(g) && sink !in h
    requires forall x :: x in h ==> (x in g && g[x] == h[x]) || h[x] == sink
    ensures Acyclic(h)
  {
    forall a: nat, n: nat | n > 0 && Reaches(h, a, a, n) ensures false {
      AvoidsSink(g, h, sink, a, a, n);
    }
  }

  lemma {:induction false} AvoidsSink(g: Graph, h: Graph, sink: nat, a: nat, b: nat, n: nat)
    requires sink !in h && b in h
    requires forall x :: x in h ==> (x in g && g[x] == h[x]) || h[x] == sink
    requires Reaches(h, a, b, n)
    ensures Reaches(g, a, b, n)
    decreases n
  {
    if n > 0 {
      AvoidsSink(g, h, sink, h[a], b, n - 1);
    }
  }

  /** In an acyclic graph every path comes to a thread that waits for nobody. */
  lemma PathEnds(g: Graph, a: nat) returns (b: nat, n: nat)
    requires Acyclic(g)
    ensures Reaches(g, a, b, n) && b !in g
  {
    var seen: set<nat> := {};
    b, n := a, 0;
    while b in g
      invariant Reaches(g, a, b, n) && LedHere(g, seen, b)
      decreases g.Keys - seen
    {
      NewThread(g, seen, b);
      LedFurther(g, seen, b);
      assert Reaches(g, b, g[b], 1) by { assert Reaches(g, g[b], g[b], 0); }
      ReachesTrans(g, a, b, g[b], n, 1);
      seen, b, n := seen + {b}, g[b], n + 1;
    }
  }

  /** Every thread in `seen` leads to `b` in at least one step. */
  ghost predicate LedHere(g: Graph, seen: set<nat>, b: nat) {
    forall x :: x in seen ==> Leads(g, x, b)
  }

  ghost predicate Leads(g: Graph, a: nat, b: nat) {
    exists n: nat :: n > 0 && Reaches(g, a, b, n)
  }

  lemma NewThread(g: Graph, seen: set<nat>, b: nat)
    requires Acyclic(g) && LedHere(g, seen, b)
    ensures b !in seen
  {
    NoSelfLead(g, b);
  }

  lemma NoSelfLead(g: Graph, b: nat)
    requires Acyclic(g)
    ensures !Leads(g, b, b)
  {
  }

  lemma LedFurther(g: Graph, seen: set<nat>, b: nat)
    requires LedHere(g, seen, b) && b in g
    ensures LedHere(g, seen + {b}, g[b])
  {
    assert Reaches(g, g[b], g[b], 0);
    assert Reaches(g, b, g[b], 1);
    forall x | x in seen ensures Leads(g, x, g[b]) {
      assert Leads(g, x, b);
      var n: nat :| n > 0 && Reaches(g, x, b, n);
      ReachesTrans(g, x, b, g[b], n, 1);
      assert n + 1 > 0 && Reaches(g, x, g[b], n + 1);
    }
    assert Leads(g, b, g[b]);
  }

  /** Beyond the end of a path there is nothing. */
  lemma {:induction false} NothingBeyond(g: Graph, a: nat, x: nat, n: nat, b: nat, m: nat)
    requires Reaches(g, a, x, n) && x !in g && Reaches(g, a, b, m)
    ensures m <= n
    decreases n
  {
    if n > 0 && m > 0 { NothingBeyond(g, g[a], x, n - 1, b, m - 1); }
  }

  lemma {:induction false} SameStep(g: Graph, a: nat, x: nat, y: nat, n: nat)
    requires Reaches(g, a, x, n) && Reaches(g, a, y, n)
    ensures x == y
    decreases n
  {
    if n > 0 { SameStep(g, g[a], x, y, n - 1); }
  }
}
