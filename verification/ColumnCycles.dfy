/** Detecting cycles among generated columns in a depth-first search that its
    clients drive.
 */
module ColumnCycles {
  import opened Graphs
  import opened Sequences

  type Edges = map<nat, set<nat>>

  function Targets(edges: Edges, c: nat): set<nat> {
    if c in edges then edges[c] else {}
  }

  function AsDependencies(edges: Edges): Dependencies {
    c => Targets(edges, c)
  }

  function AddEdge(edges: Edges, c: nat, d: nat): Edges {
    edges[c := Targets(edges, c) + {d}]
  }

  datatype Status =
    | Ok
    | Recursive(columns: seq<nat>)
    | Internal

  /** The columns being visited are those on the stack, each of which depends on the
      next. */
  ghost predicate StackOk(edges: Edges, visiting: set<nat>, stack: seq<nat>) {
    && (forall c :: c in visiting <==> c in stack)
    && Distinct(stack) && Chain(AsDependencies(edges), stack)
  }

  /** Every column with a dependency is finished or on the stack. */
  ghost predicate SourcesKnown(edges: Edges, stack: seq<nat>, finished: seq<nat>) {
    forall c :: c in edges ==> c in stack || c in finished
  }

  ghost predicate InOrder(edges: Edges, finished: seq<nat>) {
    Topological(AsDependencies(edges), finished) && Distinct(finished)
  }

  /** A finished column is being visited again. */
  ghost predicate Revisiting(stack: seq<nat>, finished: seq<nat>) {
    exists c :: c in stack && c in finished
  }

  /** The finish order is topological as long as clients were disciplined, and can no
      longer become so once they were not. */
  ghost predicate OrderOk(edges: Edges, stack: seq<nat>, finished: seq<nat>, disciplined: bool) {
    if disciplined then InOrder(edges, finished) && !Revisiting(stack, finished)
    else !InOrder(edges, finished) || Revisiting(stack, finished)
  }

  class ColumnCycleDetector {
    var edges: Edges
    var visiting: set<nat>
    var stack: seq<nat>
    /** The columns in the order in which they were finished. */
    ghost var finished: seq<nat>
    /** No finished column was visited again, and every column was finished after all
        columns it depends on. */
    ghost var disciplined: bool
    /** Set by the first error, which ends a run. */
    ghost var ended: bool

    constructor ()
      ensures Valid() && !ended && disciplined && stack == [] && edges == map[] && finished == []
    {
      edges, visiting, stack, finished, disciplined, ended := map[], {}, [], [], true, false;
    }

    ghost predicate Valid()
      reads this
    {
      !ended ==>
        && StackOk(edges, visiting, stack) && SourcesKnown(edges, stack, finished)
        && OrderOk(edges, stack, finished, disciplined)
    }

    /** Starts visiting a column on which the current one depends. A column that is
        not such a dependency is left among the columns being visited. */
    method VisitNewColumn(c: nat) returns (ok: bool)
      requires Valid() && !ended
      modifies this
      ensures Valid() && ended == !ok && finished == old(finished) && edges.Keys >= old(edges.Keys)
      ensures ok <==> c !in old(stack) && (old(stack) == [] || c in Targets(edges, old(stack)[|old(stack)| - 1]))
      ensures forall x :: Targets(edges, x) == Targets(old(edges), x)
      ensures stack == if ok then old(stack) + [c] else old(stack)
      ensures visiting == old(visiting) + {c}
      ensures disciplined == (old(disciplined) && (ok ==> c !in finished))
    {
      hide StackOk, SourcesKnown, OrderOk;
      InStack(edges, visiting, stack, c);
      if c in visiting {
        ended := true;
        assert visiting + {c} == visiting;
        return false;
      }
      visiting := visiting + {c};
      if stack != [] {
        var current := stack[|stack| - 1];
        if current !in edges {
          edges := edges[current := {}];
        }
        if c !in edges[current] {
          ended := true;
          return false;
        }
      }
      Visited(old(edges), edges, old(visiting), stack, finished, disciplined, c);
      disciplined := disciplined && c !in finished;
      stack := stack + [c];
      ok := true;
    }

    method FinishCurrentColumn() returns (ok: bool)
      requires Valid() && !ended
      modifies this
      ensures Valid() && ended == !ok && edges == old(edges)
      ensures ok <==> old(stack) != []
      ensures ok ==>
                var c := old(stack)[|old(stack)| - 1];
                && stack == old(stack)[..|old(stack)| - 1] && finished == old(finished) + [c]
                && disciplined == (old(disciplined) && forall d :: d in Targets(edges, c) ==> d in old(finished))
    {
      hide StackOk, SourcesKnown, OrderOk;
      if stack == [] {
        ended := true;
        return false;
      }
      var c := stack[|stack| - 1];
      InStack(edges, visiting, stack, c);
      if c !in visiting {
        assert false; // the current column is on the stack
      }
      Finished(edges, visiting, stack, finished, disciplined);
      visiting := visiting - {c};
      stack := stack[..|stack| - 1];
      disciplined := disciplined && forall d :: d in Targets(edges, c) ==> d in finished;
      finished := finished + [c];
      ok := true;
    }

    /** Records that the current column depends on `c`. A new dependency on a column
        being visited closes a cycle. */
    method AddDependencyOn(c: nat) returns (r: Status)
      requires Valid() && !ended
      modifies this
      ensures Valid() && ended == !r.Ok? && stack == old(stack) && visiting == old(visiting)
      ensures finished == old(finished) && disciplined == old(disciplined)
      ensures r.Internal? <==> stack == []
      ensures stack != [] ==> edges == AddEdge(old(edges), stack[|stack| - 1], c)
      ensures r.Recursive? <==> stack != [] && c in stack && c !in Targets(old(edges), stack[|stack| - 1])
      ensures r.Recursive? ==>
                && r.columns == stack
                && exists k :: 0 <= k < |stack| && stack[k] == c && IsCycle(AsDependencies(edges), stack[k..])
    {
      hide StackOk, SourcesKnown, OrderOk;
      if stack == [] {
        ended := true;
        return Internal;
      }
      var current := stack[|stack| - 1];
      ghost var before := edges;
      InStack(edges, visiting, stack, c);
      if c in Targets(edges, current) {
        assert AddEdge(edges, current, c) == edges by { SameEdges(edges, current, c); }
        return Ok;
      }
      edges := AddEdge(edges, current, c);
      if c in visiting {
        ClosesCycle(before, visiting, stack, c);
        ended := true;
        return Recursive(stack);
      }
      DependencyAdded(before, visiting, stack, finished, disciplined, c);
      r := Ok;
    }
  }

  lemma SameEdges(edges: Edges, c: nat, d: nat)
    requires d in Targets(edges, c)
    ensures AddEdge(edges, c, d) == edges
  {
    assert Targets(edges, c) + {d} == Targets(edges, c);
  }

  lemma InStack(edges: Edges, visiting: set<nat>, stack: seq<nat>, c: nat)
    requires StackOk(edges, visiting, stack)
    ensures c in visiting <==> c in stack
  {
  }

  /** Edges that have the same targets are the same graph. */
  lemma SameTargets(a: Edges, b: Edges, stack: seq<nat>, finished: seq<nat>)
    requires forall x :: Targets(a, x) == Targets(b, x)
    ensures Chain(AsDependencies(a), stack) <==> Chain(AsDependencies(b), stack)
    ensures InOrder(a, finished) <==> InOrder(b, finished)
  {
    hide Targets;
    assert forall x :: AsDependencies(a)(x) == AsDependencies(b)(x);
  }

  lemma Visited(before: Edges, edges: Edges, visiting: set<nat>, stack: seq<nat>, finished: seq<nat>,
                disciplined: bool, c: nat)
    requires StackOk(before, visiting, stack) && SourcesKnown(before, stack, finished)
    requires OrderOk(before, stack, finished, disciplined)
    requires forall x :: Targets(edges, x) == Targets(before, x)
    requires forall x :: x in edges ==> x in before || (stack != [] && x == stack[|stack| - 1])
    requires c !in visiting && (stack != [] ==> c in Targets(edges, stack[|stack| - 1]))
    ensures StackOk(edges, visiting + {c}, stack + [c]) && SourcesKnown(edges, stack + [c], finished)
    ensures OrderOk(edges, stack + [c], finished, disciplined && c !in finished)
  {
    hide Targets, InOrder;
    SameTargets(before, edges, stack, finished);
    DistinctAppend(stack, c);
    ChainConcat(AsDependencies(edges), stack, [c]);
    RevisitingMore(stack, finished, c);
  }

  lemma RevisitingMore(stack: seq<nat>, finished: seq<nat>, c: nat)
    ensures Revisiting(stack + [c], finished) <==> Revisiting(stack, finished) || c in finished
  {
    if x :| x in stack && x in finished {
      assert x in stack + [c];
    }
    if c in finished {
      assert c in stack + [c];
    }
  }

  lemma Finished(edges: Edges, visiting: set<nat>, stack: seq<nat>, finished: seq<nat>, disciplined: bool)
    requires stack != [] && StackOk(edges, visiting, stack) && SourcesKnown(edges, stack, finished)
    requires OrderOk(edges, stack, finished, disciplined)
    ensures var n := |stack| - 1;
            var c := stack[n];
            && StackOk(edges, visiting - {c}, stack[..n]) && SourcesKnown(edges, stack[..n], finished + [c])
            && OrderOk(edges, stack[..n], finished + [c],
                       disciplined && forall d :: d in Targets(edges, c) ==> d in finished)
  {
    hide Targets, InOrder;
    var n := |stack| - 1;
    var c, rest := stack[n], stack[..n];
    assert stack == rest + [c];
    ChainFront(AsDependencies(edges), rest, c);
    NotBefore(stack, n);
    RevisitingMore(rest, finished, c);
    RevisitingFinished(rest, finished, c);
    FinishOrder(edges, finished, c);
  }

  lemma ChainFront(deps: Dependencies, front: seq<nat>, c: nat)
    requires Chain(deps, front + [c])
    ensures Chain(deps, front)
  {
    forall i | 0 <= i < |front| - 1
      ensures front[i + 1] in deps(front[i])
    {
      assert (front + [c])[i + 1] in deps((front + [c])[i]);
    }
  }

  lemma RevisitingFinished(stack: seq<nat>, finished: seq<nat>, c: nat)
    requires c !in stack
    ensures Revisiting(stack, finished + [c]) <==> Revisiting(stack, finished)
  {
    if x :| x in stack && x in finished {
      assert x in finished + [c];
    }
  }

  /** Finishing a column keeps the order exactly when it is new and its dependencies
      are finished. */
  lemma FinishOrder(edges: Edges, finished: seq<nat>, c: nat)
    ensures InOrder(edges, finished + [c]) <==>
            InOrder(edges, finished) && c !in finished && forall d :: d in Targets(edges, c) ==> d in finished
  {
    hide Targets;
    var deps, all, n := AsDependencies(edges), finished + [c], |finished|;
    if InOrder(edges, finished) && c !in finished && forall d :: d in Targets(edges, c) ==> d in finished {
      Appended(deps, finished, c);
    }
    if InOrder(edges, all) {
      forall i, d | 0 <= i < n && d in deps(finished[i])
        ensures d in finished[..i]
      {
        assert all[i] == finished[i] && all[..i] == finished[..i];
      }
      assert all[n] == c && all[..n] == finished;
      NotBefore(all, n);
      forall i, j | 0 <= i < j < n
        ensures finished[i] != finished[j]
      {
        assert all[i] != all[j];
      }
    }
  }

  lemma ClosesCycle(edges: Edges, visiting: set<nat>, stack: seq<nat>, c: nat)
    requires stack != [] && StackOk(edges, visiting, stack) && c in stack
    ensures var more := AddEdge(edges, stack[|stack| - 1], c);
            exists k :: 0 <= k < |stack| && stack[k] == c && IsCycle(AsDependencies(more), stack[k..])
  {
    var more := AddEdge(edges, stack[|stack| - 1], c);
    var k :| 0 <= k < |stack| && stack[k] == c;
    var cycle := stack[k..];
    forall i | 0 <= i < |cycle| - 1
      ensures cycle[i + 1] in AsDependencies(more)(cycle[i])
    {
      assert stack[k + i + 1] in AsDependencies(edges)(stack[k + i]);
    }
    assert IsCycle(AsDependencies(more), cycle);
  }

  lemma DependencyAdded(edges: Edges, visiting: set<nat>, stack: seq<nat>, finished: seq<nat>, disciplined: bool,
                        c: nat)
    requires stack != [] && StackOk(edges, visiting, stack) && SourcesKnown(edges, stack, finished)
    requires OrderOk(edges, stack, finished, disciplined)
    ensures var more := AddEdge(edges, stack[|stack| - 1], c);
            && StackOk(more, visiting, stack) && SourcesKnown(more, stack, finished)
            && OrderOk(more, stack, finished, disciplined)
  {
    hide InOrder, Revisiting;
    var current := stack[|stack| - 1];
    var more := AddEdge(edges, current, c);
    forall i | 0 <= i < |stack| - 1
      ensures stack[i + 1] in AsDependencies(more)(stack[i])
    {
      assert stack[i + 1] in AsDependencies(edges)(stack[i]);
    }
    EdgeOrder(edges, stack, finished, current, c);
  }

  /** A new edge of a column that is not finished does not affect the order. */
  lemma EdgeOrder(edges: Edges, stack: seq<nat>, finished: seq<nat>, current: nat, c: nat)
    requires current in stack
    ensures InOrder(AddEdge(edges, current, c), finished) ==> InOrder(edges, finished)
    ensures !Revisiting(stack, finished) && InOrder(edges, finished) ==> InOrder(AddEdge(edges, current, c), finished)
  {
    var deps, more := AsDependencies(edges), AsDependencies(AddEdge(edges, current, c));
    assert forall x :: deps(x) <= more(x);
    if InOrder(AddEdge(edges, current, c), finished) {
      forall i, d | 0 <= i < |finished| && d in deps(finished[i])
        ensures d in finished[..i]
      {
        assert d in more(finished[i]);
      }
    }
    if !Revisiting(stack, finished) && InOrder(edges, finished) {
      forall i, d | 0 <= i < |finished| && d in more(finished[i])
        ensures d in finished[..i]
      {
        assert finished[i] in finished && finished[i] != current;
      }
    }
  }

  /** At the end of a run without errors, with nothing left to visit: the finish order
      is a topological order of all recorded edges exactly when clients were
      disciplined, and then no cycle is recorded. */
  lemma FinishOrderTopological(edges: Edges, visiting: set<nat>, finished: seq<nat>, disciplined: bool)
    requires StackOk(edges, visiting, []) && SourcesKnown(edges, [], finished)
    requires OrderOk(edges, [], finished, disciplined)
    ensures disciplined <==> InOrder(edges, finished)
    ensures disciplined ==> forall c, d :: c in edges && d in edges[c] ==> c in finished && d in finished
    ensures disciplined ==> forall cycle :: !IsCycle(AsDependencies(edges), cycle)
  {
    if disciplined {
      forall c, d | c in edges && d in edges[c]
        ensures c in finished && d in finished
      {
        var i :| 0 <= i < |finished| && finished[i] == c;
        assert d in AsDependencies(edges)(finished[i]);
        assert d in finished[..i];
      }
      forall cycle
        ensures !IsCycle(AsDependencies(edges), cycle)
      {
        if IsCycle(AsDependencies(edges), cycle) {
          CycleSource(edges, cycle);
          CyclesStayUnresolved(AsDependencies(edges), finished, cycle[0], [cycle[0]], cycle);
        }
      }
    }
  }

  lemma CycleSource(edges: Edges, cycle: seq<nat>)
    requires IsCycle(AsDependencies(edges), cycle)
    ensures cycle[0] in edges
  {
    if |cycle| > 1 {
      assert cycle[0 + 1] in AsDependencies(edges)(cycle[0]);
    }
  }

  /** Finishing a column before a column it depends on hides a cycle. */
  method CycleMissedWithoutDiscipline() returns (ok: bool, edges: Edges)
    ensures ok && IsCycle(AsDependencies(edges), [0, 1])
  {
    hide StackOk, SourcesKnown, OrderOk, IsCycle;
    var detector := new ColumnCycleDetector();
    ok := detector.VisitNewColumn(0);
    var r := detector.AddDependencyOn(1);
    var done := detector.FinishCurrentColumn();
    var visited := detector.VisitNewColumn(1);
    var s := detector.AddDependencyOn(0);
    var finished := detector.FinishCurrentColumn();
    ok := ok && r.Ok? && done && visited && s.Ok? && finished;
    edges := detector.edges;
    assert 1 in Targets(edges, 0) && 0 in Targets(edges, 1);
    SmallCycle(edges);
  }

  lemma SmallCycle(edges: Edges)
    requires 1 in Targets(edges, 0) && 0 in Targets(edges, 1)
    ensures IsCycle(AsDependencies(edges), [0, 1])
  {
  }
}
