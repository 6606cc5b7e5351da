/** Undirected conflict graphs over candidate indices, maximum conflict-free sets, and the two
    peeling rules that the LED conflict resolution relies on. */
module ConflictGraph {

  /** The edges of an undirected graph, each listed in both directions. */
  type Graph = set<(nat, nat)>

  ghost predicate Undirected(g: Graph) {
    forall i, j | (i, j) in g :: i != j && (j, i) in g
  }

  ghost function Neighbours(g: Graph, u: set<nat>, i: nat): set<nat> {
    set j | j in u && (i, j) in g
  }

  ghost predicate ConflictFree(g: Graph, s: set<nat>) {
    forall i, j | i in s && j in s :: (i, j) !in g
  }

  /** `s` is a largest conflict-free subset of `u`. */
  ghost predicate MaximumIn(g: Graph, u: set<nat>, s: set<nat>) {
    && s <= u
    && ConflictFree(g, s)
    && forall t | t <= u && ConflictFree(g, t) :: |t| <= |s|
  }

  lemma SubsetSize(s: set<nat>, t: set<nat>)
    requires s <= t
    ensures |s| <= |t|
  {
    if s != {} {
      var x :| x in s;
      SubsetSize(s - {x}, t - {x});
    }
  }

  lemma MaximumExistsFrom(g: Graph, u: set<nat>, s: set<nat>)
    requires s <= u && ConflictFree(g, s)
    ensures exists t :: MaximumIn(g, u, t)
    decreases |u| - |s|
  {
    SubsetSize(s, u);
    if !MaximumIn(g, u, s) {
      var t :| t <= u && ConflictFree(g, t) && |s| < |t|;
      SubsetSize(t, u);
      MaximumExistsFrom(g, u, t);
    }
  }

  lemma MaximumExists(g: Graph, u: set<nat>)
    ensures exists t :: MaximumIn(g, u, t)
  {
    MaximumExistsFrom(g, u, {});
  }

  /** The independence number of the graph induced on `u`. */
  ghost function Alpha(g: Graph, u: set<nat>): (k: nat)
    ensures forall t | MaximumIn(g, u, t) :: |t| == k
  {
    MaximumExists(g, u);
    var t :| MaximumIn(g, u, t);
    |t|
  }

  lemma ConflictFreeWith(g: Graph, u: set<nat>, m: nat, c: nat, s: set<nat>)
    requires Undirected(g)
    requires Neighbours(g, u, m) <= {c}
    requires s <= u - {m, c} && ConflictFree(g, s)
    ensures ConflictFree(g, {m} + s)
  {
    forall j | j in s ensures (m, j) !in g && (j, m) !in g {
      assert j !in Neighbours(g, u, m);
    }
  }

  /** Exchange argument: `m` has at most the one neighbour `c` in `u`, so some maximum
      conflict-free set of `u` contains `m`. With `c == m` the candidate has no neighbour. */
  lemma Exchange(g: Graph, u: set<nat>, m: nat, c: nat, s: set<nat>)
    requires Undirected(g)
    requires m in u && c in u
    requires Neighbours(g, u, m) <= {c}
    requires c != m ==> (m, c) in g
    requires MaximumIn(g, u - {m, c}, s)
    ensures MaximumIn(g, u, {m} + s)
  {
    ConflictFreeWith(g, u, m, c, s);
    assert |{m} + s| == 1 + |s|;
    forall t | t <= u && ConflictFree(g, t) ensures |t| <= |{m} + s| {
      var rest := t - {m, c};
      assert rest <= u - {m, c} && ConflictFree(g, rest);
      assert |rest| <= |s|;
    }
  }

  ghost predicate Separated(g: Graph, accepted: set<nat>, unresolved: set<nat>) {
    forall i, j | i in accepted && j in unresolved :: (i, j) !in g
  }

  ghost predicate Dominated(g: Graph, all: set<nat>, accepted: set<nat>, unresolved: set<nat>) {
    forall r | r in all && r !in accepted && r !in unresolved :: Neighbours(g, accepted, r) != {}
  }

  ghost predicate Completes(g: Graph, all: set<nat>, accepted: set<nat>, unresolved: set<nat>) {
    forall s | MaximumIn(g, unresolved, s) :: MaximumIn(g, all, accepted + s)
  }

  /** What every step of the peeling keeps: `accepted` is conflict-free, separated from the
      `unresolved` candidates, dominates every rejected candidate, and completes to a maximum
      conflict-free set of the whole graph by any maximum one of the unresolved part. */
  ghost predicate Peeled(g: Graph, all: set<nat>, accepted: set<nat>, unresolved: set<nat>) {
    && accepted <= all && unresolved <= all && accepted !! unresolved
    && ConflictFree(g, accepted)
    && Separated(g, accepted, unresolved)
    && Dominated(g, all, accepted, unresolved)
    && Completes(g, all, accepted, unresolved)
  }

  lemma PeeledInitially(g: Graph, all: set<nat>)
    ensures Peeled(g, all, {}, all)
  {
    forall s | MaximumIn(g, all, s) ensures MaximumIn(g, all, {} + s) {
      assert {} + s == s;
    }
  }

  lemma CompletesStep(g: Graph, all: set<nat>, accepted: set<nat>, unresolved: set<nat>, m: nat, c: nat)
    requires Undirected(g)
    requires Completes(g, all, accepted, unresolved)
    requires m in unresolved && c in unresolved
    requires Neighbours(g, unresolved, m) <= {c}
    requires c != m ==> (m, c) in g
    ensures Completes(g, all, accepted + {m}, unresolved - {m, c})
  {
    hide MaximumIn, Neighbours, Undirected;
    forall s | MaximumIn(g, unresolved - {m, c}, s) ensures MaximumIn(g, all, accepted + {m} + s) {
      Exchange(g, unresolved, m, c, s);
      assert accepted + ({m} + s) == accepted + {m} + s;
    }
  }

  /** Accepting `m`, whose only possible unresolved neighbour `c` is dropped, keeps `Peeled`. */
  lemma PeelStep(g: Graph, all: set<nat>, accepted: set<nat>, unresolved: set<nat>, m: nat, c: nat)
    requires Undirected(g)
    requires Peeled(g, all, accepted, unresolved)
    requires m in unresolved && c in unresolved
    requires Neighbours(g, unresolved, m) <= {c}
    requires c != m ==> (m, c) in g
    ensures Peeled(g, all, accepted + {m}, unresolved - {m, c})
  {
    CompletesStep(g, all, accepted, unresolved, m, c);
    forall j | j in unresolved - {m, c} ensures (m, j) !in g {
      assert j !in Neighbours(g, unresolved, m);
    }
    forall r | r in all && r !in accepted + {m} && r !in unresolved - {m, c}
      ensures Neighbours(g, accepted + {m}, r) != {}
    {
      if r == c {
        assert m in Neighbours(g, accepted + {m}, r);
      } else {
        assert Neighbours(g, accepted, r) <= Neighbours(g, accepted + {m}, r);
      }
    }
  }

  /** The independence number splits exactly into what was accepted and what is left. */
  lemma AlphaSplits(g: Graph, all: set<nat>, accepted: set<nat>, unresolved: set<nat>)
    requires Peeled(g, all, accepted, unresolved)
    ensures Alpha(g, all) == |accepted| + Alpha(g, unresolved)
  {
    MaximumExists(g, unresolved);
    var s :| MaximumIn(g, unresolved, s);
    assert MaximumIn(g, all, accepted + s);
    assert |accepted + s| == |accepted| + |s|;
  }

  lemma AlphaPositive(g: Graph, u: set<nat>, x: nat)
    requires Undirected(g) && x in u
    ensures Alpha(g, u) >= 1
  {
    MaximumExists(g, u);
    var s :| MaximumIn(g, u, s);
    assert {x} <= u && ConflictFree(g, {x});
    assert |{x}| <= |s|;
  }

  /** The accepted set is itself maximum exactly when nothing is left unresolved. */
  lemma MaximumIffAllResolved(g: Graph, all: set<nat>, accepted: set<nat>, unresolved: set<nat>)
    requires Undirected(g)
    requires Peeled(g, all, accepted, unresolved)
    ensures MaximumIn(g, all, accepted) <==> unresolved == {}
  {
    if unresolved == {} {
      assert MaximumIn(g, unresolved, {});
      assert accepted + {} == accepted;
    } else {
      AlphaSplits(g, all, accepted, unresolved);
      var x :| x in unresolved;
      AlphaPositive(g, unresolved, x);
    }
  }

  /** A candidate that neither rule can resolve: it keeps two unresolved conflicts, or it forms
      an isolated pair with its only one. */
  ghost predicate Stuck(g: Graph, unresolved: set<nat>, i: nat) {
    || 2 <= |Neighbours(g, unresolved, i)|
    || exists c :: Neighbours(g, unresolved, i) == {c} && Neighbours(g, unresolved, c) == {i}
  }

  /** Accepting a candidate without unresolved conflicts leaves the others as stuck as before. */
  lemma StuckSurvivesIsolated(g: Graph, unresolved: set<nat>, m: nat, i: nat)
    requires Undirected(g)
    requires Neighbours(g, unresolved, m) == {} && i in unresolved && i != m
    requires Stuck(g, unresolved, i)
    ensures Stuck(g, unresolved - {m}, i)
  {
    forall j | j in unresolved ensures Neighbours(g, unresolved - {m}, j) == Neighbours(g, unresolved, j) {
      assert j !in Neighbours(g, unresolved, m);
      assert (j, m) !in g;
    }
    if |Neighbours(g, unresolved, i)| < 2 {
      var c :| Neighbours(g, unresolved, i) == {c} && Neighbours(g, unresolved, c) == {i};
      assert c in Neighbours(g, unresolved, i);
    }
  }
}
