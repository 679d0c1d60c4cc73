/** Dependency graphs: chains, cycles and topological orders.
 */
module Graphs {
  import opened Sequences

  type Dependencies = nat -> set<nat>

  /** Every node comes after all of its dependencies. */
  ghost predicate Topological(deps: Dependencies, order: seq<nat>) {
    forall i, d :: 0 <= i < |order| && d in deps(order[i]) ==> d in order[..i]
  }

  /** Each member depends on the next. */
  ghost predicate Chain(deps: Dependencies, c: seq<nat>) {
    forall i :: 0 <= i < |c| - 1 ==> c[i + 1] in deps(c[i])
  }

  /** A chain whose last member depends on its first. */
  ghost predicate IsCycle(deps: Dependencies, c: seq<nat>) {
    c != [] && Chain(deps, c) && c[0] in deps(c[|c| - 1])
  }

  /** `c` leads from `m` to `d`. */
  ghost predicate Reaches(deps: Dependencies, m: nat, c: seq<nat>, d: nat) {
    c != [] && c[0] == m && c[|c| - 1] == d && Chain(deps, c)
  }

  /** In a topological order everything that a member reaches is a member too. */
  lemma {:induction false} ReachesKnown(deps: Dependencies, order: seq<nat>, c: seq<nat>, i: nat)
    requires Topological(deps, order) && Distinct(order) && i < |order|
    requires c != [] && Chain(deps, c) && c[0] == order[i]
    ensures forall k :: 1 <= k < |c| ==> c[k] in order[..i]
    decreases |c|
  {
    if |c| > 1 {
      assert c[0 + 1] in deps(c[0]);
      var j :| 0 <= j < |order[..i]| && order[..i][j] == c[1];
      var rest := c[1..];
      forall k | 0 <= k < |rest| - 1
        ensures rest[k + 1] in deps(rest[k])
      {
        assert c[k + 1 + 1] in deps(c[k + 1]);
      }
      ReachesKnown(deps, order, rest, j);
      forall k | 1 <= k < |c|
        ensures c[k] in order[..i]
      {
        if k > 1 {
          assert rest[k - 1] in order[..j];
        }
      }
    }
  }

  /** A node from which a cycle can be reached is never in a topological order. */
  lemma CyclesStayUnresolved(deps: Dependencies, order: seq<nat>, m: nat, lead: seq<nat>, cycle: seq<nat>)
    requires Topological(deps, order) && Distinct(order)
    requires IsCycle(deps, cycle) && Reaches(deps, m, lead, cycle[0])
    ensures m !in order
  {
    if m in order {
      var i :| 0 <= i < |order| && order[i] == m;
      ReachesKnown(deps, order, lead, i);
      var entry := cycle[0];
      assert entry in order;
      var j :| 0 <= j < |order| && order[j] == entry;
      var round := cycle + [entry];
      assert Chain(deps, round) && round[|cycle|] == order[j];
      ReachesKnown(deps, order, round, j);
    }
  }

  lemma {:induction false} ChainConcat(deps: Dependencies, a: seq<nat>, b: seq<nat>)
    requires Chain(deps, a) && Chain(deps, b)
    requires a != [] && b != [] ==> b[0] in deps(a[|a| - 1])
    ensures Chain(deps, a + b)
  {
    var c := a + b;
    forall i | 0 <= i < |c| - 1
      ensures c[i + 1] in deps(c[i])
    {
      if i < |a| - 1 {
        assert a[i + 1] in deps(a[i]);
      } else if i >= |a| {
        assert b[i - |a| + 1] in deps(b[i - |a|]);
      }
    }
  }

  /** Going around a cycle gives chains of any length. */
  lemma {:induction false} CyclePumps(deps: Dependencies, cycle: seq<nat>, n: nat) returns (c: seq<nat>)
    requires IsCycle(deps, cycle)
    ensures Chain(deps, c) && |c| >= n && (c != [] ==> c[0] == cycle[0])
    decreases n
  {
    if n == 0 {
      c := [];
    } else {
      var rest := CyclePumps(deps, cycle, n - 1);
      ChainConcat(deps, cycle, rest);
      c := cycle + rest;
    }
  }

  lemma AcyclicWhenResolved(deps: Dependencies, order: seq<nat>)
    requires Topological(deps, order) && Distinct(order)
    ensures forall c :: IsCycle(deps, c) ==> c[0] !in order
  {
    forall c | IsCycle(deps, c)
      ensures c[0] !in order
    {
      CyclesStayUnresolved(deps, order, c[0], [c[0]], c);
    }
  }

  lemma Appended(deps: Dependencies, order: seq<nat>, m: nat)
    requires Distinct(order) && m !in order
    ensures Distinct(order + [m])
    ensures Topological(deps, order) && (forall d :: d in deps(m) ==> d in order) ==> Topological(deps, order + [m])
  {
    if Topological(deps, order) && forall d :: d in deps(m) ==> d in order {
      var all := order + [m];
      forall i, d | 0 <= i < |all| && d in deps(all[i])
        ensures d in all[..i]
      {
        assert all[..i] == order[..i];
        if i == |order| {
          assert order[..i] == order;
        }
      }
    }
  }
}
