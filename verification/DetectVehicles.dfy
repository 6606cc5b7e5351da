/** LED vehicle detection: the conflict matrix between vehicle candidates and its in-place
    resolution by leaf peeling. */
module DetectVehicles {
  import opened ConflictGraph

  const ULONG_MAX: nat := 0xffff_ffff_ffff_ffff

  /** Indices of the three outer LED points and of the identification LED, or ULONG_MAX. */
  type Candidate = c: seq<nat> | |c| == 4 witness [0, 0, 0, 0]

  ghost predicate SharePoint(a: Candidate, b: Candidate) {
    exists p :: p in a && p in b && p != ULONG_MAX
  }

  ghost function Indices(n: nat): (s: set<nat>)
    ensures forall i: nat :: i in s <==> i < n
  {
    if n == 0 then {} else Indices(n - 1) + {n - 1}
  }

  /** Two different candidates conflict when they use a common LED point. */
  ghost function ConflictsOf(candidates: seq<Candidate>): (g: Graph)
    ensures Undirected(g)
  {
    set i: nat, j: nat | i < |candidates| && j < |candidates| && i != j && SharePoint(candidates[i], candidates[j]) :: (i, j)
  }

  method ArraysHaveCommonElement(a: Candidate, b: Candidate) returns (common: bool)
    ensures common <==> SharePoint(a, b)
  {
    for k := 0 to 4
      invariant forall p | p in a[..k] && p != ULONG_MAX :: p !in b
    {
      if a[k] != ULONG_MAX {
        for l := 0 to 4
          invariant a[k] !in b[..l]
        {
          if a[k] == b[l] {
            assert a[k] in a && a[k] in b;
            return true;
          }
        }
        assert b[..4] == b;
      }
    }
    assert a[..4] == a;
    return false;
  }

  method DetermineConflicts(candidates: seq<Candidate>) returns (conflicts: array2<bool>)
    ensures fresh(conflicts)
    ensures conflicts.Length0 == |candidates| && conflicts.Length1 == |candidates|
    ensures forall i, j | 0 <= i < |candidates| && 0 <= j < |candidates| ::
              conflicts[i, j] <==> (i, j) in ConflictsOf(candidates)
  {
    var n := |candidates|;
    conflicts := new bool[n, n]((_, _) => false);
    if n <= 1 {
      return;
    }
    for i := 0 to n - 1
      invariant forall k, l | 0 <= k < n && 0 <= l < n ::
                  conflicts[k, l] <==> (k < i || l < i) && (k, l) in ConflictsOf(candidates)
    {
      for j := i + 1 to n
        invariant forall k, l | 0 <= k < n && 0 <= l < n ::
                    conflicts[k, l] <==> (k < i || l < i || (k == i && l < j) || (l == i && k < j))
                                         && (k, l) in ConflictsOf(candidates)
      {
        var common := ArraysHaveCommonElement(candidates[i], candidates[j]);
        if common {
          conflicts[i, j] := true;
          conflicts[j, i] := true;
        }
      }
    }
  }

  /** The columns that are set in one row, in ascending order. */
  method RowConflicts(conflicts: array2<bool>, m: nat) returns (columns: seq<nat>)
    requires m < conflicts.Length0
    ensures forall n: nat :: n in columns <==> n < conflicts.Length1 && conflicts[m, n]
    ensures forall i, j | 0 <= i < j < |columns| :: columns[i] < columns[j]
  {
    columns := [];
    for n := 0 to conflicts.Length1
      invariant forall k: nat :: k in columns <==> k < n && conflicts[m, k]
      invariant forall i | 0 <= i < |columns| :: columns[i] < n
      invariant forall i, j | 0 <= i < j < |columns| :: columns[i] < columns[j]
    {
      if conflicts[m, n] {
        columns := columns + [n];
      }
    }
  }

  method ZeroColumn(conflicts: array2<bool>, c: nat)
    requires c < conflicts.Length1
    modifies conflicts
    ensures forall i, j | 0 <= i < conflicts.Length0 && 0 <= j < conflicts.Length1 ::
              conflicts[i, j] == (old(conflicts[i, j]) && j != c)
  {
    for r := 0 to conflicts.Length0
      invariant forall i, j | 0 <= i < conflicts.Length0 && 0 <= j < conflicts.Length1 ::
                  conflicts[i, j] == (old(conflicts[i, j]) && !(j == c && i < r))
    {
      conflicts[r, c] := false;
    }
  }

  ghost function Elements(s: seq<nat>): set<nat> {
    set i | i in s
  }

  ghost predicate Distinct(s: seq<nat>) {
    forall i, j | 0 <= i < j < |s| :: s[i] != s[j]
  }

  /** The half-zeroed matrix still shows, in the rows of unresolved candidates, exactly the
      conflicts with unresolved candidates. */
  ghost predicate ShowsUnresolved(conflicts: array2<bool>, g: Graph, n: nat, unresolved: set<nat>)
    requires conflicts.Length0 == n && conflicts.Length1 == n
    reads conflicts
  {
    forall i: nat, j: nat | i < n && j < n && i in unresolved ::
      conflicts[i, j] <==> (i, j) in g && j in unresolved
  }

  lemma SingletonRow(g: Graph, unresolved: set<nat>, i: nat, columns: seq<nat>)
    requires forall n: nat :: n in columns <==> n in Neighbours(g, unresolved, i)
    requires forall k, l | 0 <= k < l < |columns| :: columns[k] < columns[l]
    ensures |columns| == 0 ==> Neighbours(g, unresolved, i) == {}
    ensures |columns| == 1 ==> Neighbours(g, unresolved, i) == {columns[0]}
    ensures |columns| >= 2 ==> |Neighbours(g, unresolved, i)| >= 2
  {
    if |columns| == 1 {
      forall n | n in Neighbours(g, unresolved, i) ensures n == columns[0] {
        assert n in columns;
      }
      assert columns[0] in columns;
    } else if |columns| >= 2 {
      assert columns[0] in columns && columns[1] in columns;
      SubsetSize({columns[0], columns[1]}, Neighbours(g, unresolved, i));
    } else {
      forall n: nat ensures n !in Neighbours(g, unresolved, i) {
        assert n !in columns;
      }
    }
  }

  /** The resolution state between two visits: the flags and the half-zeroed matrix agree with
      the ghost sets, and the candidates chosen so far are a peeling of the conflict graph. */
  ghost predicate Resolving(g: Graph, candidates: seq<Candidate>, conflicts: array2<bool>, resolved: array<bool>,
                            vehicles: seq<Candidate>, accepted: seq<nat>, unresolved: set<nat>)
    reads conflicts, resolved
  {
    && conflicts.Length0 == |candidates| && conflicts.Length1 == |candidates|
    && resolved.Length == |candidates|
    && (forall i: nat | i < |candidates| :: resolved[i] <==> i !in unresolved)
    && ShowsUnresolved(conflicts, g, |candidates|, unresolved)
    && Chosen(candidates, vehicles, accepted)
    && Peeled(g, Indices(|candidates|), Elements(accepted), unresolved)
  }

  ghost predicate Chosen(candidates: seq<Candidate>, vehicles: seq<Candidate>, accepted: seq<nat>) {
    && Distinct(accepted) && |vehicles| == |accepted|
    && forall k | 0 <= k < |vehicles| :: accepted[k] < |candidates| && vehicles[k] == candidates[accepted[k]]
  }

  ghost predicate AllStuck(g: Graph, unresolved: set<nat>, below: nat) {
    forall i | i in unresolved && i < below :: Stuck(g, unresolved, i)
  }

  lemma AcceptPeels(g: Graph, all: set<nat>, accepted: seq<nat>, unresolved: set<nat>, m: nat, c: nat)
    requires Undirected(g)
    requires Peeled(g, all, Elements(accepted), unresolved)
    requires m in unresolved && c in unresolved
    requires Neighbours(g, unresolved, m) <= {c}
    requires c != m ==> (m, c) in g
    ensures Peeled(g, all, Elements(accepted + [m]), unresolved - {m, c})
    ensures m in all && m !in Elements(accepted)
  {
    PeelStep(g, all, Elements(accepted), unresolved, m, c);
    assert Elements(accepted + [m]) == Elements(accepted) + {m};
  }

  lemma AcceptChooses(candidates: seq<Candidate>, vehicles: seq<Candidate>, accepted: seq<nat>, m: nat)
    requires Chosen(candidates, vehicles, accepted)
    requires m !in Elements(accepted) && m < |candidates|
    ensures Chosen(candidates, vehicles + [candidates[m]], accepted + [m])
  {
    forall i | 0 <= i < |accepted| ensures accepted[i] != m {
      assert accepted[i] in Elements(accepted);
    }
  }

  /** Bookkeeping of accepting `m` and dropping `c`. */
  lemma Accept(g: Graph, candidates: seq<Candidate>, vehicles: seq<Candidate>, accepted: seq<nat>, unresolved: set<nat>, m: nat, c: nat)
    requires Undirected(g)
    requires Chosen(candidates, vehicles, accepted)
    requires Peeled(g, Indices(|candidates|), Elements(accepted), unresolved)
    requires m in unresolved && c in unresolved
    requires Neighbours(g, unresolved, m) <= {c}
    requires c != m ==> (m, c) in g
    ensures m < |candidates|
    ensures Chosen(candidates, vehicles + [candidates[m]], accepted + [m])
    ensures Peeled(g, Indices(|candidates|), Elements(accepted + [m]), unresolved - {m, c})
    ensures |unresolved - {m, c}| < |unresolved|
  {
    AcceptPeels(g, Indices(|candidates|), accepted, unresolved, m, c);
    AcceptChooses(candidates, vehicles, accepted, m);
  }

  lemma AllStuckSurvives(g: Graph, unresolved: set<nat>, m: nat)
    requires Undirected(g)
    requires m in unresolved && Neighbours(g, unresolved, m) == {}
    requires AllStuck(g, unresolved, m)
    ensures AllStuck(g, unresolved - {m}, m + 1)
  {
    forall i | i in unresolved - {m} && i < m + 1 ensures Stuck(g, unresolved - {m}, i) {
      StuckSurvivesIsolated(g, unresolved, m, i);
    }
  }

  /** One visit of the inner loop at candidate `m`. */
  method Visit(ghost g: Graph, candidates: seq<Candidate>, conflicts: array2<bool>, resolved: array<bool>, m: nat,
               vehicles: seq<Candidate>, ghost accepted: seq<nat>, ghost unresolved: set<nat>)
    returns (vehicles': seq<Candidate>, progress: bool, ghost accepted': seq<nat>, ghost unresolved': set<nat>)
    requires Undirected(g)
    requires Resolving(g, candidates, conflicts, resolved, vehicles, accepted, unresolved)
    requires m < |candidates|
    modifies conflicts, resolved
    ensures Resolving(g, candidates, conflicts, resolved, vehicles', accepted', unresolved')
    ensures if progress then |unresolved'| < |unresolved| else |unresolved'| <= |unresolved|
    ensures !progress && AllStuck(g, unresolved, m) ==> AllStuck(g, unresolved', m + 1)
  {
    vehicles', progress, accepted', unresolved' := vehicles, false, accepted, unresolved;
    if resolved[m] {
      return;
    }
    var own := RowConflicts(conflicts, m);
    SingletonRow(g, unresolved, m, own);
    if |own| == 0 {
      vehicles' := vehicles + [candidates[m]];
      accepted', unresolved' := TakeIsolated(g, candidates, conflicts, resolved, m, vehicles, accepted, unresolved);
      if AllStuck(g, unresolved, m) {
        AllStuckSurvives(g, unresolved, m);
      }
    } else if |own| == 1 {
      vehicles', progress, accepted', unresolved' :=
        TryLeaf(g, candidates, conflicts, resolved, m, own[0], vehicles, accepted, unresolved);
    } else {
      StuckNow(g, unresolved, m);
    }
  }

  lemma StuckNow(g: Graph, unresolved: set<nat>, m: nat)
    requires Stuck(g, unresolved, m)
    ensures AllStuck(g, unresolved, m) ==> AllStuck(g, unresolved, m + 1)
  {
  }

  /** A candidate with one conflict `c` is accepted if `c` has more; else the two are a pair. */
  method TryLeaf(ghost g: Graph, candidates: seq<Candidate>, conflicts: array2<bool>, resolved: array<bool>, m: nat, c: nat,
                 vehicles: seq<Candidate>, ghost accepted: seq<nat>, ghost unresolved: set<nat>)
    returns (vehicles': seq<Candidate>, progress: bool, ghost accepted': seq<nat>, ghost unresolved': set<nat>)
    requires Undirected(g)
    requires Resolving(g, candidates, conflicts, resolved, vehicles, accepted, unresolved)
    requires m < |candidates| && m in unresolved && Neighbours(g, unresolved, m) == {c}
    modifies conflicts, resolved
    ensures Resolving(g, candidates, conflicts, resolved, vehicles', accepted', unresolved')
    ensures progress <==> |Neighbours(g, unresolved, c)| > 1
    ensures vehicles' == if progress then vehicles + [candidates[m]] else vehicles
    ensures if progress then |unresolved'| < |unresolved| else unresolved' == unresolved
    ensures !progress && AllStuck(g, unresolved, m) ==> AllStuck(g, unresolved', m + 1)
  {
    hide AllStuck;
    vehicles', progress, accepted', unresolved' := vehicles, false, accepted, unresolved;
    var others := RowConflicts(conflicts, c);
    SingletonRow(g, unresolved, c, others);
    if |others| > 1 {
      vehicles' := vehicles + [candidates[m]];
      progress := true;
      accepted', unresolved' := TakeLeaf(g, candidates, conflicts, resolved, m, c, vehicles, accepted, unresolved);
    } else {
      assert m in others;
      StuckNow(g, unresolved, m);
    }
  }

  /** Marks `m`, which has no unresolved conflict, as resolved; its column is left as it is. */
  method TakeIsolated(ghost g: Graph, candidates: seq<Candidate>, conflicts: array2<bool>, resolved: array<bool>, m: nat,
                      ghost vehicles: seq<Candidate>, ghost accepted: seq<nat>, ghost unresolved: set<nat>)
    returns (ghost accepted': seq<nat>, ghost unresolved': set<nat>)
    requires Undirected(g)
    requires Resolving(g, candidates, conflicts, resolved, vehicles, accepted, unresolved)
    requires m < |candidates| && m in unresolved && Neighbours(g, unresolved, m) == {}
    modifies resolved
    ensures Resolving(g, candidates, conflicts, resolved, vehicles + [candidates[m]], accepted', unresolved')
    ensures unresolved' == unresolved - {m} && |unresolved'| < |unresolved|
  {
    Accept(g, candidates, vehicles, accepted, unresolved, m, m);
    assert unresolved - {m, m} == unresolved - {m};
    accepted', unresolved' := accepted + [m], unresolved - {m};
    assert forall i | i in unresolved' :: i !in Neighbours(g, unresolved, m);
    resolved[m] := true;
  }

  /** Marks the leaf `m` and its only unresolved conflict `c` as resolved and zeroes their columns. */
  method TakeLeaf(ghost g: Graph, candidates: seq<Candidate>, conflicts: array2<bool>, resolved: array<bool>, m: nat, c: nat,
                  ghost vehicles: seq<Candidate>, ghost accepted: seq<nat>, ghost unresolved: set<nat>)
    returns (ghost accepted': seq<nat>, ghost unresolved': set<nat>)
    requires Undirected(g)
    requires Resolving(g, candidates, conflicts, resolved, vehicles, accepted, unresolved)
    requires m < |candidates| && m in unresolved && Neighbours(g, unresolved, m) == {c}
    modifies conflicts, resolved
    ensures Resolving(g, candidates, conflicts, resolved, vehicles + [candidates[m]], accepted', unresolved')
    ensures |unresolved'| < |unresolved|
  {
    assert c in Neighbours(g, unresolved, m);
    Accept(g, candidates, vehicles, accepted, unresolved, m, c);
    accepted', unresolved' := accepted + [m], unresolved - {m, c};
    resolved[m] := true;
    ZeroColumn(conflicts, m);
    resolved[c] := true;
    ZeroColumn(conflicts, c);
  }

  /** One pass of the inner loop over all candidates. */
  method Pass(ghost g: Graph, candidates: seq<Candidate>, conflicts: array2<bool>, resolved: array<bool>,
              vehicles: seq<Candidate>, ghost accepted: seq<nat>, ghost unresolved: set<nat>)
    returns (vehicles': seq<Candidate>, progress: bool, ghost accepted': seq<nat>, ghost unresolved': set<nat>)
    requires Undirected(g)
    requires Resolving(g, candidates, conflicts, resolved, vehicles, accepted, unresolved)
    modifies conflicts, resolved
    ensures Resolving(g, candidates, conflicts, resolved, vehicles', accepted', unresolved')
    ensures if progress then |unresolved'| < |unresolved| else |unresolved'| <= |unresolved|
    ensures !progress ==> AllStuck(g, unresolved', |candidates|)
  {
    vehicles', progress, accepted', unresolved' := vehicles, false, accepted, unresolved;
    for m := 0 to |candidates|
      invariant Resolving(g, candidates, conflicts, resolved, vehicles', accepted', unresolved')
      invariant !progress ==> AllStuck(g, unresolved', m)
      invariant if progress then |unresolved'| < |unresolved| else |unresolved'| <= |unresolved|
    {
      var step;
      vehicles', step, accepted', unresolved' := Visit(g, candidates, conflicts, resolved, m, vehicles', accepted', unresolved');
      progress := progress || step;
    }
  }

  lemma NothingChosen(g: Graph, all: set<nat>)
    ensures Peeled(g, all, Elements([]), all)
  {
    assert Elements([]) == {};
    PeeledInitially(g, all);
  }

  /** The peeling loop over a conflict matrix that shows the graph `g`. */
  method Peel(ghost g: Graph, candidates: seq<Candidate>, conflicts: array2<bool>)
    returns (vehicles: seq<Candidate>, unsolvable: bool, ghost accepted: seq<nat>, ghost unresolved: set<nat>)
    requires Undirected(g)
    requires conflicts.Length0 == |candidates| && conflicts.Length1 == |candidates|
    requires ShowsUnresolved(conflicts, g, |candidates|, Indices(|candidates|))
    modifies conflicts
    ensures Chosen(candidates, vehicles, accepted)
    ensures Peeled(g, Indices(|candidates|), Elements(accepted), unresolved)
    ensures AllStuck(g, unresolved, |candidates|)
    ensures unsolvable <==> unresolved != {}
  {
    hide ConflictFree, Separated, Dominated, Completes, ShowsUnresolved, AllStuck;
    var n := |candidates|;
    accepted, unresolved, vehicles := [], Indices(n), [];
    NothingChosen(g, unresolved);
    var resolved := new bool[n](_ => false);
    var isConflictSolvable := true;
    while isConflictSolvable
      invariant fresh(resolved)
      invariant Resolving(g, candidates, conflicts, resolved, vehicles, accepted, unresolved)
      invariant !isConflictSolvable ==> AllStuck(g, unresolved, n)
      decreases |unresolved|, isConflictSolvable
    {
      vehicles, isConflictSolvable, accepted, unresolved := Pass(g, candidates, conflicts, resolved, vehicles, accepted, unresolved);
    }
    assert forall i | i in unresolved :: i in Indices(n);
    unsolvable := AnyUnresolved(resolved, unresolved);
  }

  /** The final scan that decides whether the warning is logged. */
  method AnyUnresolved(resolved: array<bool>, ghost unresolved: set<nat>) returns (any: bool)
    requires forall i: nat | i < resolved.Length :: resolved[i] <==> i !in unresolved
    requires forall i | i in unresolved :: i < resolved.Length
    ensures any <==> unresolved != {}
  {
    for m := 0 to resolved.Length
      invariant forall i: nat | i < m :: i !in unresolved
    {
      if !resolved[m] {
        assert m in unresolved;
        return true;
      }
    }
    return false;
  }

  /** In-place conflict resolution. `accepted` lists the indices of the returned candidates and
      `unresolved` the candidates about which nothing was decided; the flag is the warning that
      is logged. */
  method ResolveConflicts(candidates: seq<Candidate>)
    returns (vehicles: seq<Candidate>, unsolvable: bool, ghost accepted: seq<nat>, ghost unresolved: set<nat>)
    ensures Chosen(candidates, vehicles, accepted)
    ensures Peeled(ConflictsOf(candidates), Indices(|candidates|), Elements(accepted), unresolved)
    ensures forall i | i in unresolved :: Stuck(ConflictsOf(candidates), unresolved, i)
    ensures unsolvable <==> unresolved != {}
    ensures forall v | v in vehicles :: v in candidates
    ensures forall k, l | 0 <= k < l < |vehicles| :: !SharePoint(vehicles[k], vehicles[l])
    ensures |vehicles| == Alpha(ConflictsOf(candidates), Indices(|candidates|)) <==> !unsolvable
  {
    hide Peeled, ConflictsOf, Alpha, SharePoint, Stuck, AllStuck;
    var conflicts := DetermineConflicts(candidates);
    if conflicts.Length0 * conflicts.Length1 <= 1 {
      vehicles, accepted, unresolved := FewCandidates(candidates);
      unsolvable := false;
    } else {
      vehicles, unsolvable, accepted, unresolved := Peel(ConflictsOf(candidates), candidates, conflicts);
      NoneLeftOut(ConflictsOf(candidates), |candidates|, Elements(accepted), unresolved);
    }
    PointsAssignedOnce(candidates, vehicles, accepted, unresolved);
    LargestIffNoWarning(candidates, vehicles, accepted, unresolved);
    AlphaZeroIff(ConflictsOf(candidates), unresolved);
  }

  lemma NoneLeftOut(g: Graph, n: nat, accepted: set<nat>, unresolved: set<nat>)
    requires Peeled(g, Indices(n), accepted, unresolved) && AllStuck(g, unresolved, n)
    ensures forall i | i in unresolved :: Stuck(g, unresolved, i)
  {
    hide Stuck;
  }

  /** A candidate alone is free of conflicts. */
  lemma AlphaZeroIff(g: Graph, u: set<nat>)
    requires Undirected(g)
    ensures Alpha(g, u) == 0 <==> u == {}
  {
    MaximumExists(g, u);
    var t :| MaximumIn(g, u, t);
    if u != {} {
      var i :| i in u;
      assert ConflictFree(g, {i});
      assert |{i}| <= |t|;
    }
  }

  /** What the contract of ResolveConflicts means for LED points: the returned vehicles share no
      point, and every rejected candidate shares one with a returned vehicle. */
  lemma PointsAssignedOnce(candidates: seq<Candidate>, vehicles: seq<Candidate>, accepted: seq<nat>, unresolved: set<nat>)
    requires Chosen(candidates, vehicles, accepted)
    requires Peeled(ConflictsOf(candidates), Indices(|candidates|), Elements(accepted), unresolved)
    ensures forall k, l | 0 <= k < l < |vehicles| :: !SharePoint(vehicles[k], vehicles[l])
    ensures forall r: nat | r < |candidates| && r !in accepted && r !in unresolved ::
              exists k :: 0 <= k < |vehicles| && SharePoint(candidates[r], vehicles[k])
  {
    var g := ConflictsOf(candidates);
    forall k, l | 0 <= k < l < |vehicles| ensures !SharePoint(vehicles[k], vehicles[l]) {
      assert accepted[k] in Elements(accepted) && accepted[l] in Elements(accepted);
      assert (accepted[k], accepted[l]) !in g;
    }
    forall r: nat | r < |candidates| && r !in accepted && r !in unresolved
      ensures exists k :: 0 <= k < |vehicles| && SharePoint(candidates[r], vehicles[k])
    {
      assert r in Indices(|candidates|) && r !in Elements(accepted);
      var a :| a in Neighbours(g, Elements(accepted), r);
      assert (r, a) in g;
      var k :| 0 <= k < |accepted| && accepted[k] == a;
      assert SharePoint(candidates[r], vehicles[k]);
    }
  }

  lemma {:induction false} DistinctSize(s: seq<nat>)
    requires Distinct(s)
    ensures |Elements(s)| == |s|
  {
    if s == [] {
      assert Elements(s) == {};
    } else {
      var k := |s| - 1;
      DistinctSize(s[..k]);
      assert s[..k] + [s[k]] == s;
      assert Elements(s) == Elements(s[..k]) + {s[k]};
    }
  }

  /** No conflict-free choice of candidates has more members than were returned exactly when no
      warning is due; in general the result misses Alpha of the unresolved part. */
  lemma LargestIffNoWarning(candidates: seq<Candidate>, vehicles: seq<Candidate>, accepted: seq<nat>, unresolved: set<nat>)
    requires Chosen(candidates, vehicles, accepted)
    requires Peeled(ConflictsOf(candidates), Indices(|candidates|), Elements(accepted), unresolved)
    ensures MaximumIn(ConflictsOf(candidates), Indices(|candidates|), Elements(accepted)) <==> unresolved == {}
    ensures Alpha(ConflictsOf(candidates), Indices(|candidates|))
            == |vehicles| + Alpha(ConflictsOf(candidates), unresolved)
  {
    DistinctSize(accepted);
    MaximumIffAllResolved(ConflictsOf(candidates), Indices(|candidates|), Elements(accepted), unresolved);
    AlphaSplits(ConflictsOf(candidates), Indices(|candidates|), Elements(accepted), unresolved);
  }

  lemma AtMostOne(n: nat)
    requires n * n <= 1
    ensures n <= 1
  {
    assert n >= 2 ==> n * n >= 2 * n;
  }

  /** With at most one candidate the input is returned unchanged, and that is a full peeling. */
  method FewCandidates(candidates: seq<Candidate>)
    returns (vehicles: seq<Candidate>, ghost accepted: seq<nat>, ghost unresolved: set<nat>)
    requires |candidates| * |candidates| <= 1
    ensures vehicles == candidates && unresolved == {}
    ensures Chosen(candidates, vehicles, accepted)
    ensures Peeled(ConflictsOf(candidates), Indices(|candidates|), Elements(accepted), unresolved)
  {
    ghost var g, all := ConflictsOf(candidates), Indices(|candidates|);
    vehicles, accepted, unresolved := candidates, [], all;
    PeeledInitially(g, all);
    assert Elements([]) == {};
    AtMostOne(|candidates|);
    if |candidates| == 1 {
      assert Neighbours(g, all, 0) == {};
      Accept(g, candidates, [], [], all, 0, 0);
      accepted, unresolved := [0], all - {0, 0};
      assert [] + [candidates[0]] == candidates && [] + [0] == [0];
    }
  }
}
