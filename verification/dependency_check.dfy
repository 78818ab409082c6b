/** Validation of the loaded dependency graph before anything runs
    (`BootTask.checkDependencyChains`, both overloads).

    The graph maps each loaded step type to the step dependencies it declared.
    The recursive search walks every dependency path from a root, keeping the
    path so far (the chain); it fails on a dependency that was never loaded and
    on a dependency already on the chain. The `checked` set of the source is only
    written by the recursion, never read by it, so the recursion here returns the
    types it would have added (`Pass(marked)`) and the top-level loop unions them. */
module DependencyCheck {
  import opened Types

  /** Loaded step type to its declared step dependencies, in declaration order. */
  type Graph = map<StepType, seq<StepType>>

  /** The outcome of the recursive search from one step. */
  datatype Verdict = Pass(marked: set<StepType>) | Fail(defect: DependencyDefect)

  /** The outcome of validating the whole graph. */
  datatype Validation = Valid | Invalid(defect: DependencyDefect)

  // ---------------------------------------------------------------------------
  // Graph vocabulary

  /** Every declared dependency names a loaded step. */
  ghost predicate AllLoaded(g: Graph)
  {
    forall k, i :: k in g && 0 <= i < |g[k]| ==> g[k][i] in g
  }

  /** A non-empty sequence following dependency edges: each element but the last
      is loaded and the next one is among its declared dependencies. */
  ghost predicate IsWalk(g: Graph, w: seq<StepType>)
  {
    |w| >= 1 && forall i :: 0 <= i < |w| - 1 ==> w[i] in g && w[i + 1] in g[w[i]]
  }

  /** No step depends, directly or through others, on itself. */
  ghost predicate Acyclic(g: Graph)
  {
    forall w :: IsWalk(g, w) && |w| >= 2 ==> w[0] != w[|w| - 1]
  }

  /** Every path out of `x` visits each step at most once and ends at a loaded step. */
  ghost predicate Safe(g: Graph, x: StepType)
  {
    forall w :: IsWalk(g, w) && w[0] == x ==> NoDuplicates(w) && w[|w| - 1] in g
  }

  /** The loaded steps the chain has not visited yet; shrinks on every descent. */
  function Unvisited(g: Graph, chain: seq<StepType>): set<StepType>
  {
    g.Keys - Elems(chain)
  }

  lemma UnvisitedShrinks(g: Graph, chain: seq<StepType>, t: StepType)
    requires t in g && t !in chain
    ensures |Unvisited(g, chain + [t])| < |Unvisited(g, chain)|
  {
    assert Unvisited(g, chain + [t]) == Unvisited(g, chain) - {t};
  }

  // ---------------------------------------------------------------------------
  // The search

  /** `checkDependencyChains(cursor, chain, checked)`. A step without step
      dependencies passes at once; otherwise each dependency is checked in
      declaration order and the search descends into it with an extended copy of
      the chain. A missing dependency names itself and the step that declared it;
      a repeated one reports the chain reaching it. */
  function CheckNode(g: Graph, cursor: StepType, chain: seq<StepType>): (r: Verdict)
    requires cursor in g && Elems(chain) <= g.Keys
    ensures r.Pass? ==> cursor in r.marked && r.marked <= g.Keys
    ensures r.Fail? && r.defect.MissingDependency? ==>
      var d := r.defect; d.dependent in g && d.missing in g[d.dependent] && d.missing !in g
    ensures r.Fail? && r.defect.CircularDependency? && IsWalk(g, chain) && chain[|chain| - 1] == cursor ==>
      var d := r.defect; d.tail in d.chain && IsWalk(g, d.chain + [d.tail])
    decreases |Unvisited(g, chain)|, 1, 0
  {
    if |g[cursor]| == 0 then
      Pass({cursor})
    else
      match CheckDeps(g, cursor, chain, 0)
      case Fail(d) => Fail(d)
      case Pass(m) => Pass(m + {cursor})
  }

  /** The loop of `checkDependencyChains(cursor, chain, checked)` over the
      dependencies of `cursor` from position `i` on. */
  function CheckDeps(g: Graph, cursor: StepType, chain: seq<StepType>, i: nat): (r: Verdict)
    requires cursor in g && i <= |g[cursor]| && Elems(chain) <= g.Keys
    ensures r.Pass? ==> r.marked <= g.Keys
    ensures r.Fail? && r.defect.MissingDependency? ==>
      var d := r.defect; d.dependent in g && d.missing in g[d.dependent] && d.missing !in g
    ensures r.Fail? && r.defect.CircularDependency? && IsWalk(g, chain) && chain[|chain| - 1] == cursor ==>
      var d := r.defect; d.tail in d.chain && IsWalk(g, d.chain + [d.tail])
    decreases |Unvisited(g, chain)|, 0, |g[cursor]| - i
  {
    if i == |g[cursor]| then
      Pass({})
    else
      var t := g[cursor][i];
      WalkExtends(g, chain, cursor, t);
      if t !in g then
        Fail(MissingDependency(t, cursor))
      else if t in chain then
        Fail(CircularDependency(chain, t))
      else
        UnvisitedShrinks(g, chain, t);
        assert (chain + [t])[|chain + [t]| - 1] == t;
        var sub := CheckNode(g, t, chain + [t]);
        if sub.Fail? then
          sub
        else
          var rest := CheckDeps(g, cursor, chain, i + 1);
          if rest.Fail? then rest else Pass(sub.marked + rest.marked)
  }

  /** Following one more edge from the end of a path gives a path. */
  lemma WalkExtends(g: Graph, chain: seq<StepType>, cursor: StepType, t: StepType)
    requires cursor in g && t in g[cursor]
    ensures IsWalk(g, chain) && chain[|chain| - 1] == cursor ==> IsWalk(g, chain + [t])
  {
    if IsWalk(g, chain) && chain[|chain| - 1] == cursor {
      var w := chain + [t];
      forall k | 0 <= k < |w| - 1 ensures w[k] in g && w[k + 1] in g[w[k]] {
        if k < |chain| - 1 { assert w[k] == chain[k] && w[k + 1] == chain[k + 1]; }
      }
    }
  }

  /** `checkDependencyChains()`: tries every loaded step as a root, in the map's
      iteration order, skipping roots some earlier search already marked. */
  function CheckFrom(g: Graph, order: seq<StepType>, i: nat, checked: set<StepType>): (r: Validation)
    requires i <= |order| && Elems(order) <= g.Keys
    ensures r.Invalid? ==> Genuine(g, r.defect)
    decreases |order| - i
  {
    if i == |order| then
      Valid
    else if order[i] in checked then
      CheckFrom(g, order, i + 1, checked)
    else
      match CheckNode(g, order[i], [order[i]])
      case Fail(d) => Invalid(d)
      case Pass(m) => CheckFrom(g, order, i + 1, checked + m)
  }

  /** A reported defect is a real one: a missing dependency really is declared
      and really is not loaded, and a circular one comes with a path that
      returns to a step it already visited. */
  ghost predicate Genuine(g: Graph, d: DependencyDefect)
  {
    match d
    case MissingDependency(t, k) => k in g && t in g[k] && t !in g
    case CircularDependency(c, t) => t in c && IsWalk(g, c + [t])
  }

  /** `checkDependencyChains()`, the overload `start` calls: a failure names a
      real defect. That it passes exactly on a loaded, acyclic graph is
      `ValidationExact`. */
  function CheckDependencyChains(g: Graph, order: seq<StepType>): (r: Validation)
    requires Elems(order) == g.Keys
    ensures r.Invalid? ==> Genuine(g, r.defect)
  {
    CheckFrom(g, order, 0, {})
  }

  // ---------------------------------------------------------------------------
  // What a defect means

  /** A path that revisits a step contains a cycle. */
  lemma RepeatGivesCycle(g: Graph, w: seq<StepType>, a: nat, b: nat)
    requires IsWalk(g, w) && a < b < |w| && w[a] == w[b]
    ensures !Acyclic(g)
  {
    var c := w[a..b + 1];
    assert IsWalk(g, c) by {
      forall k | 0 <= k < |c| - 1
        ensures c[k] in g && c[k + 1] in g[c[k]]
      {
        assert c[k] == w[a + k] && c[k + 1] == w[a + k + 1];
      }
    }
    assert c[0] == c[|c| - 1];
  }

  /** A path that revisits a step contains a cycle (sequence-membership form). */
  lemma RevisitGivesCycle(g: Graph, c: seq<StepType>, t: StepType)
    requires t in c && IsWalk(g, c + [t])
    ensures !Acyclic(g)
  {
    var w := c + [t];
    var a :| 0 <= a < |c| && c[a] == t;
    RepeatGivesCycle(g, w, a, |c|);
  }

  // ---------------------------------------------------------------------------
  // Soundness: passing means every path is simple and ends at a loaded step

  /** A passing dependency loop has checked each later dependency: it is loaded,
      off the chain, and its own search passed with the extended chain. */
  lemma {:induction false} DepsPassed(g: Graph, n: StepType, chain: seq<StepType>, i: nat, j: nat)
    requires n in g && i <= j < |g[n]| && Elems(chain) <= g.Keys
    requires CheckDeps(g, n, chain, i).Pass?
    ensures g[n][j] in g && g[n][j] !in chain
    ensures CheckNode(g, g[n][j], chain + [g[n][j]]).Pass?
    decreases j - i
  {
    if i < j {
      var t := g[n][i];
      assert t in g && t !in chain;
      assert CheckNode(g, t, chain + [t]).Pass?;
      DepsPassed(g, n, chain, i + 1, j);
    }
  }

  /** If the search from the end of a duplicate-free chain passes, every path out of
      that step continues the chain without repeating a step, and ends at a loaded step. */
  lemma {:induction false} PassMeansSimplePaths(g: Graph, n: StepType, chain: seq<StepType>, w: seq<StepType>)
    requires n in g && Elems(chain) <= g.Keys && |chain| > 0 && chain[|chain| - 1] == n
    requires NoDuplicates(chain)
    requires CheckNode(g, n, chain).Pass?
    requires IsWalk(g, w) && w[0] == n
    ensures NoDuplicates(chain + w[1..]) && w[|w| - 1] in g
    decreases |w|
  {
    if |w| == 1 {
      assert chain + w[1..] == chain;
    } else {
      var t := w[1];
      assert t in g[n];
      var j :| 0 <= j < |g[n]| && g[n][j] == t;
      assert CheckDeps(g, n, chain, 0).Pass?;
      DepsPassed(g, n, chain, 0, j);
      var chain' := chain + [t];
      assert NoDuplicates(chain') by {
        forall a, b | 0 <= a < b < |chain'| ensures chain'[a] != chain'[b] {
          if b < |chain| { assert chain'[a] == chain[a] && chain'[b] == chain[b]; }
          else { assert chain'[a] == chain[a] && chain'[b] == t; }
        }
      }
      var w' := w[1..];
      assert IsWalk(g, w') by {
        forall k | 0 <= k < |w'| - 1 ensures w'[k] in g && w'[k + 1] in g[w'[k]] {
          assert w'[k] == w[k + 1] && w'[k + 1] == w[k + 2];
        }
      }
      PassMeansSimplePaths(g, t, chain', w');
      assert chain' + w'[1..] == chain + w[1..];
    }
  }

  /** The search from a single step passes only if that step is safe. */
  lemma RootPassMeansSafe(g: Graph, n: StepType)
    requires n in g && CheckNode(g, n, [n]).Pass?
    ensures Safe(g, n)
  {
    forall w | IsWalk(g, w) && w[0] == n
      ensures NoDuplicates(w) && w[|w| - 1] in g
    {
      PassMeansSimplePaths(g, n, [n], w);
      assert [n] + w[1..] == w;
    }
  }

  /** Everything a passing search marks is reachable from where it started. */
  lemma {:induction false} MarkedReachable(g: Graph, n: StepType, chain: seq<StepType>, x: StepType)
    returns (p: seq<StepType>)
    requires n in g && Elems(chain) <= g.Keys
    requires CheckNode(g, n, chain).Pass? && x in CheckNode(g, n, chain).marked
    ensures IsWalk(g, p) && p[0] == n && p[|p| - 1] == x
    decreases |Unvisited(g, chain)|, 1, 0
  {
    if x == n {
      p := [n];
    } else {
      assert |g[n]| > 0;
      p := MarkedReachableDeps(g, n, chain, 0, x);
    }
  }

  lemma {:induction false} MarkedReachableDeps(g: Graph, n: StepType, chain: seq<StepType>, i: nat, x: StepType)
    returns (p: seq<StepType>)
    requires n in g && i <= |g[n]| && Elems(chain) <= g.Keys
    requires CheckDeps(g, n, chain, i).Pass? && x in CheckDeps(g, n, chain, i).marked
    ensures IsWalk(g, p) && p[0] == n && p[|p| - 1] == x
    decreases |Unvisited(g, chain)|, 0, |g[n]| - i
  {
    var t := g[n][i];
    UnvisitedShrinks(g, chain, t);
    var m := CheckNode(g, t, chain + [t]).marked;
    if x in m {
      var q := MarkedReachable(g, t, chain + [t], x);
      p := [n] + q;
      assert IsWalk(g, p) by {
        forall k | 0 <= k < |p| - 1 ensures p[k] in g && p[k + 1] in g[p[k]] {
          if k > 0 { assert p[k] == q[k - 1] && p[k + 1] == q[k]; }
        }
      }
    } else {
      p := MarkedReachableDeps(g, n, chain, i + 1, x);
    }
  }

  /** Safety passes down every path. */
  lemma SafeAlongPath(g: Graph, p: seq<StepType>)
    requires IsWalk(g, p) && Safe(g, p[0])
    ensures Safe(g, p[|p| - 1])
  {
    var x := p[|p| - 1];
    forall w | IsWalk(g, w) && w[0] == x
      ensures NoDuplicates(w) && w[|w| - 1] in g
    {
      var joined := p + w[1..];
      assert IsWalk(g, joined) by {
        forall k | 0 <= k < |joined| - 1 ensures joined[k] in g && joined[k + 1] in g[joined[k]] {
          if k < |p| - 1 {
            assert joined[k] == p[k] && joined[k + 1] == p[k + 1];
          } else {
            assert joined[k] == w[k - |p| + 1] && joined[k + 1] == w[k - |p| + 2];
          }
        }
      }
      assert joined[0] == p[0];
      forall a, b | 0 <= a < b < |w| ensures w[a] != w[b] {
        assert w[a] == joined[|p| - 1 + a] && w[b] == joined[|p| - 1 + b];
      }
      assert joined[|joined| - 1] == w[|w| - 1];
    }
  }

  /** The top-level loop passes only if every root from position `i` on is safe,
      given that whatever it has marked so far is safe. */
  lemma {:induction false} ValidMeansSafeFrom(g: Graph, order: seq<StepType>, i: nat, checked: set<StepType>)
    requires i <= |order| && Elems(order) <= g.Keys
    requires forall x :: x in checked ==> Safe(g, x)
    requires CheckFrom(g, order, i, checked).Valid?
    ensures forall j :: i <= j < |order| ==> Safe(g, order[j])
    decreases |order| - i
  {
    if i < |order| {
      var n := order[i];
      if n in checked {
        ValidMeansSafeFrom(g, order, i + 1, checked);
      } else {
        var m := CheckNode(g, n, [n]).marked;
        RootPassMeansSafe(g, n);
        forall x | x in m ensures Safe(g, x) {
          var p := MarkedReachable(g, n, [n], x);
          SafeAlongPath(g, p);
        }
        ValidMeansSafeFrom(g, order, i + 1, checked + m);
      }
    }
  }

  /** Soundness, the intent stated on `checkDependencyChains`: if validation passes,
      every dependency is loaded and there is no circular dependency. */
  lemma ValidationSound(g: Graph, order: seq<StepType>)
    requires Elems(order) == g.Keys
    requires CheckDependencyChains(g, order).Valid?
    ensures AllLoaded(g) && Acyclic(g)
  {
    ValidMeansSafeFrom(g, order, 0, {});
    assert forall k :: k in g ==> Safe(g, k) by {
      forall k | k in g ensures Safe(g, k) {
        var j :| 0 <= j < |order| && order[j] == k;
      }
    }
    forall k, i | k in g && 0 <= i < |g[k]| ensures g[k][i] in g {
      var w := [k, g[k][i]];
      assert IsWalk(g, w);
    }
    forall w | IsWalk(g, w) && |w| >= 2 ensures w[0] != w[|w| - 1] {
      assert Safe(g, w[0]);
    }
  }

  // ---------------------------------------------------------------------------
  // Completeness: a graph without defects passes

  lemma {:induction false} NodePassesOnSoundGraph(g: Graph, n: StepType, chain: seq<StepType>)
    requires AllLoaded(g) && Acyclic(g)
    requires n in g && Elems(chain) <= g.Keys && IsWalk(g, chain) && chain[|chain| - 1] == n
    ensures CheckNode(g, n, chain).Pass?
    decreases |Unvisited(g, chain)|, 1, 0
  {
    if |g[n]| > 0 {
      DepsPassOnSoundGraph(g, n, chain, 0);
    }
  }

  lemma {:induction false} DepsPassOnSoundGraph(g: Graph, n: StepType, chain: seq<StepType>, i: nat)
    requires AllLoaded(g) && Acyclic(g)
    requires n in g && i <= |g[n]| && Elems(chain) <= g.Keys && IsWalk(g, chain) && chain[|chain| - 1] == n
    ensures CheckDeps(g, n, chain, i).Pass?
    decreases |Unvisited(g, chain)|, 0, |g[n]| - i
  {
    if i < |g[n]| {
      var t := g[n][i];
      assert t in g;
      var w := chain + [t];
      assert IsWalk(g, w) by {
        forall k | 0 <= k < |w| - 1 ensures w[k] in g && w[k + 1] in g[w[k]] {
          if k < |chain| - 1 { assert w[k] == chain[k] && w[k + 1] == chain[k + 1]; }
        }
      }
      if t in chain {
        RevisitGivesCycle(g, chain, t);
        assert false;
      }
      UnvisitedShrinks(g, chain, t);
      NodePassesOnSoundGraph(g, t, w);
      DepsPassOnSoundGraph(g, n, chain, i + 1);
    }
  }

  lemma {:induction false} ValidFromOnSoundGraph(g: Graph, order: seq<StepType>, i: nat, checked: set<StepType>)
    requires AllLoaded(g) && Acyclic(g)
    requires i <= |order| && Elems(order) <= g.Keys
    ensures CheckFrom(g, order, i, checked).Valid?
    decreases |order| - i
  {
    if i < |order| {
      var n := order[i];
      if n in checked {
        ValidFromOnSoundGraph(g, order, i + 1, checked);
      } else {
        NodePassesOnSoundGraph(g, n, [n]);
        ValidFromOnSoundGraph(g, order, i + 1, checked + CheckNode(g, n, [n]).marked);
      }
    }
  }

  /** Validation passes exactly when every dependency is loaded and there is no
      circular dependency, whatever order the roots are tried in. */
  lemma ValidationExact(g: Graph, order: seq<StepType>)
    requires Elems(order) == g.Keys
    ensures CheckDependencyChains(g, order).Valid? <==> AllLoaded(g) && Acyclic(g)
  {
    if CheckDependencyChains(g, order).Valid? {
      ValidationSound(g, order);
    } else if AllLoaded(g) && Acyclic(g) {
      ValidFromOnSoundGraph(g, order, 0, {});
    }
  }

  /** A missing dependency is reported as such, naming the type that is missing
      and a step that declared it; a circular one comes with a path that
      revisits a step. */
  lemma ValidationFailureExplained(g: Graph, order: seq<StepType>)
    requires Elems(order) == g.Keys
    requires CheckDependencyChains(g, order).Invalid?
    ensures var d := CheckDependencyChains(g, order).defect;
      match d
      case MissingDependency(t, k) => k in g && t in g[k] && t !in g && !AllLoaded(g)
      case CircularDependency(c, t) => t in c && IsWalk(g, c + [t]) && !Acyclic(g)
  {
    var d := CheckDependencyChains(g, order).defect;
    if d.CircularDependency? {
      RevisitGivesCycle(g, d.chain, d.tail);
    } else {
      var k := d.dependent;
      var j :| 0 <= j < |g[k]| && g[k][j] == d.missing;
    }
  }

  /** A step that declares a dependency on itself fails validation. */
  lemma SelfDependencyIsCircular(g: Graph, order: seq<StepType>, k: StepType)
    requires Elems(order) == g.Keys
    requires k in g && k in g[k]
    ensures CheckDependencyChains(g, order).Invalid?
  {
    assert IsWalk(g, [k, k]);
    ValidationExact(g, order);
  }

  /** When every dependency is loaded, a step that declares a dependency on
      itself is reported as a circular dependency (otherwise a missing
      dependency met earlier may be reported instead). */
  lemma SelfDependencyReportedCircular(g: Graph, order: seq<StepType>, k: StepType)
    requires Elems(order) == g.Keys
    requires AllLoaded(g) && k in g && k in g[k]
    ensures CheckDependencyChains(g, order).Invalid?
    ensures CheckDependencyChains(g, order).defect.CircularDependency?
  {
    SelfDependencyIsCircular(g, order, k);
    ValidationFailureExplained(g, order);
  }

  // ---------------------------------------------------------------------------
  // Ranked graphs

  /** Every dependency sits strictly lower than the step that declares it. */
  ghost predicate Ranked(g: Graph, rank: map<StepType, nat>)
  {
    && g.Keys <= rank.Keys
    && forall k, i :: k in g && 0 <= i < |g[k]| && g[k][i] in rank ==> rank[g[k][i]] < rank[k]
  }

  lemma {:induction false} RankFallsAlongPath(g: Graph, rank: map<StepType, nat>, w: seq<StepType>)
    requires Ranked(g, rank) && AllLoaded(g) && IsWalk(g, w) && |w| >= 2
    ensures w[0] in rank && w[|w| - 1] in rank && rank[w[|w| - 1]] < rank[w[0]]
    decreases |w|
  {
    assert w[1] in g[w[0]];
    var j :| 0 <= j < |g[w[0]]| && g[w[0]][j] == w[1];
    if |w| > 2 {
      var w' := w[1..];
      assert IsWalk(g, w') by {
        forall k | 0 <= k < |w'| - 1 ensures w'[k] in g && w'[k + 1] in g[w'[k]] {
          assert w'[k] == w[k + 1] && w'[k + 1] == w[k + 2];
        }
      }
      RankFallsAlongPath(g, rank, w');
    }
  }

  /** A graph whose dependencies can be ranked below their dependents passes
      validation, in particular one where two paths meet again at the same step. */
  lemma RankedGraphIsValid(g: Graph, order: seq<StepType>, rank: map<StepType, nat>)
    requires Elems(order) == g.Keys
    requires AllLoaded(g) && Ranked(g, rank)
    ensures CheckDependencyChains(g, order).Valid?
  {
    forall w | IsWalk(g, w) && |w| >= 2 ensures w[0] != w[|w| - 1] {
      RankFallsAlongPath(g, rank, w);
    }
    ValidationExact(g, order);
  }
}
