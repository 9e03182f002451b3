/**
  The transition configuration of a machine: explicit edges, wildcard targets
  and sources, and the child -> parent hierarchy, with the structural validity
  check and the substate query built on them.
*/
module Graph {
  import opened Machines

  /** `addTransition(from, to)`: `to` becomes directly reachable from `from`. */
  function AddTransition<T(==,!new)>(m: Machine<T>, from: T, to: T): (r: Machine<T>)
    ensures IsValidTransition(r, from, to)
    ensures forall a, b :: IsValidTransition(r, a, b) <==> IsValidTransition(m, a, b) || (a == from && b == to)
    ensures SameCurrentAndHistory(m, r) && r.hierarchy == m.hierarchy
  {
    // indexing a missing key default-constructs an empty set, as `_transition[from]` does
    var targets := if from in m.edges then m.edges[from] else {};
    m.(edges := m.edges[from := targets + {to}])
  }

  /** `addTransition(from, StatemachineAny)`: every state becomes reachable from `from`. */
  function AddTransitionToAny<T(==,!new)>(m: Machine<T>, from: T): (r: Machine<T>)
    ensures forall b :: IsValidTransition(r, from, b)
    ensures forall a, b :: IsValidTransition(r, a, b) <==> IsValidTransition(m, a, b) || a == from
    ensures SameCurrentAndHistory(m, r) && r.hierarchy == m.hierarchy
  {
    m.(wildcardSources := m.wildcardSources + {from})
  }

  /** `addTransition(StatemachineAny, to)`: `to` becomes reachable from every state. */
  function AddTransitionFromAny<T(==,!new)>(m: Machine<T>, to: T): (r: Machine<T>)
    ensures forall a :: IsValidTransition(r, a, to)
    ensures forall a, b :: IsValidTransition(r, a, b) <==> IsValidTransition(m, a, b) || b == to
    ensures SameCurrentAndHistory(m, r) && r.hierarchy == m.hierarchy
  {
    m.(wildcardTargets := m.wildcardTargets + {to})
  }

  /** Configuration changes never touch the current state, the history or the registries. */
  ghost predicate SameCurrentAndHistory<T>(m: Machine<T>, r: Machine<T>)
  {
    && r.current == m.current
    && r.history == m.history
    && r.onEnter == m.onEnter
    && r.onExit == m.onExit
    && r.onTransition == m.onTransition
    && r.onRefused == m.onRefused
    && r.guards == m.guards
  }

  /** `isValidTransition`: an explicit edge, a wildcard target or a wildcard source permits the move. */
  predicate IsValidTransition<T(==,!new)>(m: Machine<T>, from: T, to: T)
  {
    || (from in m.edges && to in m.edges[from])
    || to in m.wildcardTargets
    || from in m.wildcardSources
  }

  /** A freshly constructed machine permits no move at all. */
  lemma FreshPermitsNothing<T(!new)>(a: T, b: T)
    ensures !IsValidTransition(Fresh<T>(), a, b)
  {
  }

  /** The three `addTransition` overloads, as data. */
  datatype Rule<T> = Edge(from: T, to: T) | ToAny(from: T) | FromAny(to: T)

  /** Whether one configured rule, on its own, permits the move `a -> b`. */
  predicate Permits<T(==,!new)>(rule: Rule<T>, a: T, b: T)
  {
    match rule
    case Edge(from, to) => a == from && b == to
    case ToAny(from) => a == from
    case FromAny(to) => b == to
  }

  function Apply<T(==,!new)>(m: Machine<T>, rule: Rule<T>): Machine<T>
  {
    match rule
    case Edge(from, to) => AddTransition(m, from, to)
    case ToAny(from) => AddTransitionToAny(m, from)
    case FromAny(to) => AddTransitionFromAny(m, to)
  }

  /** Applies the rules in order, as a series of `addTransition` calls would. */
  function Configure<T(==,!new)>(m: Machine<T>, rules: seq<Rule<T>>): Machine<T>
    decreases |rules|
  {
    if |rules| == 0 then m else Configure(Apply(m, rules[0]), rules[1..])
  }

  /**
    Validity depends only on which rules were configured: after any series of
    `addTransition` calls on a fresh machine, a move is valid exactly when one
    of the calls permits it, whatever their order or repetition.
  */
  lemma {:induction false} ValidIffSomeRulePermits<T(!new)>(m: Machine<T>, rules: seq<Rule<T>>, a: T, b: T)
    ensures IsValidTransition(Configure(m, rules), a, b)
        <==> IsValidTransition(m, a, b) || exists i :: 0 <= i < |rules| && Permits(rules[i], a, b)
    decreases |rules|
  {
    if |rules| > 0 {
      var m1 := Apply(m, rules[0]);
      ValidIffSomeRulePermits(m1, rules[1..], a, b);
      assert IsValidTransition(m1, a, b) <==> IsValidTransition(m, a, b) || Permits(rules[0], a, b);
      if exists i :: 0 <= i < |rules| && Permits(rules[i], a, b) {
        var i :| 0 <= i < |rules| && Permits(rules[i], a, b);
        if i > 0 {
          assert rules[1..][i - 1] == rules[i];
        }
      }
      if exists j :: 0 <= j < |rules[1..]| && Permits(rules[1..][j], a, b) {
        var j :| 0 <= j < |rules[1..]| && Permits(rules[1..][j], a, b);
        assert Permits(rules[j + 1], a, b);
      }
    }
  }

  /** Adding an edge that is already there leaves the machine exactly as it was. */
  lemma AddTransitionIdempotent<T(!new)>(m: Machine<T>, from: T, to: T)
    ensures AddTransition(AddTransition(m, from, to), from, to) == AddTransition(m, from, to)
  {
    var m1 := AddTransition(m, from, to);
    assert m1.edges[from] + {to} == m1.edges[from];
  }

  /** Adding a wildcard source or target twice is the same as adding it once. */
  lemma WildcardsIdempotent<T(!new)>(m: Machine<T>, s: T)
    ensures AddTransitionToAny(AddTransitionToAny(m, s), s) == AddTransitionToAny(m, s)
    ensures AddTransitionFromAny(AddTransitionFromAny(m, s), s) == AddTransitionFromAny(m, s)
  {
    assert m.wildcardSources + {s} + {s} == m.wildcardSources + {s};
    assert m.wildcardTargets + {s} + {s} == m.wildcardTargets + {s};
  }

  /** `setParentState(child, parent)`: records `parent` as the only parent of `child`, replacing any earlier one. */
  function SetParentState<T(==,!new)>(m: Machine<T>, child: T, parent: T): (r: Machine<T>)
    ensures child in r.hierarchy && r.hierarchy[child] == parent
    ensures forall c :: c != child ==> (c in r.hierarchy <==> c in m.hierarchy)
    ensures forall c :: c != child && c in m.hierarchy ==> r.hierarchy[c] == m.hierarchy[c]
    ensures parent in Ancestors(r.hierarchy, child, |r.hierarchy|)
    ensures SameCurrentAndHistory(m, r) && r.edges == m.edges
    ensures r.wildcardSources == m.wildcardSources && r.wildcardTargets == m.wildcardTargets
  {
    m.(hierarchy := m.hierarchy[child := parent])
  }

  /** `x`'s parent chain leaves the map (reaches a state without a parent) within `fuel` steps. */
  predicate ReachesRoot<T(==,!new)>(h: map<T, T>, x: T, fuel: nat)
    decreases fuel
  {
    x !in h || (fuel > 0 && ReachesRoot(h, h[x], fuel - 1))
  }

  /**
    The hierarchy has no cycle: from every child, the parent chain ends within
    `|h|` steps (an acyclic chain visits each child at most once).
  */
  predicate Acyclic<T(==,!new)>(h: map<T, T>)
  {
    forall x :: x in h ==> ReachesRoot(h, x, |h|)
  }

  /** The first `fuel` states strictly above `x` on its parent chain, nearest first. */
  function Ancestors<T(==,!new)>(h: map<T, T>, x: T, fuel: nat): seq<T>
    decreases fuel
  {
    if x !in h || fuel == 0 then [] else [h[x]] + Ancestors(h, h[x], fuel - 1)
  }

  /**
    The walk up from `x` in search of `parent` stops within `fuel` steps,
    either by meeting `parent` or by reaching a state without a parent.
  */
  predicate WalkEnds<T(==,!new)>(h: map<T, T>, x: T, parent: T, fuel: nat)
    decreases fuel
  {
    x !in h || (fuel > 0 && (h[x] == parent || WalkEnds(h, h[x], parent, fuel - 1)))
  }

  /**
    `isSubstateOf(child, parent)`: walks up the parent chain from `child`,
    answering true as soon as it meets `parent` and false when the chain
    ends. The walk ends exactly when it meets `parent` or a root before it
    repeats a state. Each step starts from a distinct child in that case, so
    `|h|` steps suffice, and the precondition asks for exactly that. A cyclic
    hierarchy is therefore accepted whenever the walk meets `parent` on the
    way.
  */
  method IsSubstateOf<T(==,!new)>(m: Machine<T>, child: T, parent: T) returns (b: bool)
    requires WalkEnds(m.hierarchy, child, parent, |m.hierarchy|)
    ensures b <==> parent in Ancestors(m.hierarchy, child, |m.hierarchy|)
  {
    var h := m.hierarchy;
    var current := child;
    ghost var fuel: nat := |h|;
    while current in h
      invariant WalkEnds(h, current, parent, fuel)
      invariant parent in Ancestors(h, child, |h|) <==> parent in Ancestors(h, current, fuel)
      decreases fuel
    {
      current := h[current];
      fuel := fuel - 1;
      if current == parent {
        return true;
      }
    }
    return false;
  }

  /** On an acyclic hierarchy every walk ends, so `isSubstateOf` may be asked anything. */
  lemma {:induction false} AcyclicWalkEnds<T(!new)>(h: map<T, T>, x: T, parent: T, fuel: nat)
    requires ReachesRoot(h, x, fuel)
    ensures WalkEnds(h, x, parent, fuel)
    decreases fuel
  {
    if x in h {
      AcyclicWalkEnds(h, h[x], parent, fuel - 1);
    }
  }

  /**
    Two cyclic hierarchies whose walks still end: with A and B each other's
    parent, A is a substate of B and of itself; with A under B beside a
    separate C/D cycle, A is a substate of B.
  */
  lemma CyclicHierarchiesAnswered()
    ensures var h := map[0 := 1, 1 := 0];
            && !Acyclic(h)
            && WalkEnds(h, 0, 1, |h|) && 1 in Ancestors(h, 0, |h|)
            && WalkEnds(h, 0, 0, |h|) && 0 in Ancestors(h, 0, |h|)
    ensures var h := map[0 := 1, 2 := 3, 3 := 2];
            && !Acyclic(h)
            && WalkEnds(h, 0, 1, |h|) && 1 in Ancestors(h, 0, |h|)
  {
    var h := map[0 := 1, 1 := 0];
    assert |h| == 2;
    assert Ancestors(h, 0, 2) == [1, 0];
    var h2 := map[0 := 1, 2 := 3, 3 := 2];
    assert |h2| == 3;
    assert Ancestors(h2, 0, 3) == [1];
    CycleNeverReachesRoot(h, 0, 2);
    CycleNeverReachesRoot(h2, 2, 3);
  }

  lemma {:induction false} CycleNeverReachesRoot(h: map<int, int>, x: int, fuel: nat)
    requires x in h && h[x] in h && h[h[x]] == x
    ensures !ReachesRoot(h, x, fuel)
    decreases fuel
  {
    if fuel >= 2 {
      CycleNeverReachesRoot(h, x, fuel - 2);
    }
  }

  lemma {:induction false} ReachesRootMonotone<T(!new)>(h: map<T, T>, x: T, n: nat, k: nat)
    requires n <= k && ReachesRoot(h, x, n)
    ensures ReachesRoot(h, x, k)
    decreases n
  {
    if x in h {
      ReachesRootMonotone(h, h[x], n - 1, k - 1);
    }
  }

  /** Climbing to an ancestor takes at least one of the steps the chain has left. */
  lemma {:induction false} AncestorReachesRootSooner<T(!new)>(h: map<T, T>, x: T, y: T, n: nat, k: nat)
    requires y in Ancestors(h, x, n) && ReachesRoot(h, x, k)
    ensures k >= 1 && ReachesRoot(h, y, k - 1)
    decreases n
  {
    if y != h[x] {
      AncestorReachesRootSooner(h, h[x], y, n - 1, k - 1);
      ReachesRootMonotone(h, y, k - 2, k - 1);
    }
  }

  /** A state that is its own ancestor sits on a cycle, so its chain never ends. */
  lemma {:induction false} SelfAncestorNeverReachesRoot<T(!new)>(h: map<T, T>, x: T, n: nat, k: nat)
    requires x in Ancestors(h, x, n)
    ensures !ReachesRoot(h, x, k)
    decreases k
  {
    if ReachesRoot(h, x, k) {
      AncestorReachesRootSooner(h, x, x, n, k);
      SelfAncestorNeverReachesRoot(h, x, n, k - 1);
    }
  }

  /** In an acyclic hierarchy no state is a substate of itself. */
  lemma NotSubstateOfItself<T(!new)>(h: map<T, T>, x: T)
    requires Acyclic(h)
    ensures x !in Ancestors(h, x, |h|)
  {
    if x in Ancestors(h, x, |h|) {
      SelfAncestorNeverReachesRoot(h, x, |h|, |h|);
    }
  }
}
