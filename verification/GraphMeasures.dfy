/** Resolution of graph measures that refer to each other: each measure is tried,
    a failed attempt names a measure that is not known yet, that one is resolved
    first, and the attempt is repeated.
 */
module GraphMeasures {
  import opened Graphs
  import opened Sequences

  /** At most this many attempts for one measure. */
  const MAX_ATTEMPTS := 20

  /** At most this many measures are being resolved at the same time. */
  const MAX_DEPTH := 10

  /** One attempt to resolve a measure, given the measures known so far. */
  datatype Outcome =
    | Resolved
    | Unrecognized(name: nat)
    | Error

  datatype Status =
    | Done
    | Cycle(members: seq<nat>, again: nat)
    | TooDeep
    | TooMany
    | Failed

  /** The attempt may depend on the measures known so far, and on anything else by
      way of the number of attempts made before. */
  type Oracle = (nat, seq<nat>, nat) -> Outcome

  // ----- Oracles -----

  ghost predicate TruthfulAt(oracle: Oracle, deps: Dependencies, m: nat, known: seq<nat>, tick: nat) {
    var o := oracle(m, known, tick);
    && (o.Resolved? ==> forall d :: d in deps(m) ==> d in known)
    && (o.Unrecognized? ==> o.name in deps(m) && o.name !in known)
  }

  /** The oracle accepts a measure only when its dependencies are known, and names
      only dependencies that are not. It may also fail for reasons of its own. */
  ghost predicate Truthful(oracle: Oracle, deps: Dependencies) {
    forall m, known, tick :: TruthfulAt(oracle, deps, m, known, tick)
  }

  /** In addition the oracle never fails for reasons of its own on a declared
      measure, whose dependencies are declared too. */
  ghost predicate Honest(oracle: Oracle, deps: Dependencies, measures: set<nat>) {
    && Truthful(oracle, deps)
    && (forall m, known, tick :: m in measures ==> !oracle(m, known, tick).Error?)
    && (forall m :: m in measures ==> deps(m) <= measures)
  }

  // ----- Limits -----

  /** No chain from a declared measure, with or without repetition, is longer than the
      depth limit. */
  ghost predicate NoLongChain(deps: Dependencies, measures: set<nat>) {
    forall c :: c != [] && c[0] in measures && Chain(deps, c) ==> |c| <= 10
  }

  ghost function Members(s: seq<nat>): set<nat> {
    set x | x in s
  }

  /** No measure has 20 or more dependencies that are not known. */
  ghost predicate FewUnknown(deps: Dependencies, measures: set<nat>, known: seq<nat>) {
    forall m :: m in measures ==> |deps(m) - Members(known)| < 20
  }

  /** No measure has more than 19 dependencies. */
  ghost predicate FewDependencies(deps: Dependencies, measures: set<nat>) {
    forall m :: m in measures ==> |deps(m)| <= 19
  }

  lemma NoLongChainNoCycle(deps: Dependencies, measures: set<nat>, cycle: seq<nat>)
    requires NoLongChain(deps, measures) && cycle != [] && cycle[0] in measures
    ensures !IsCycle(deps, cycle)
  {
    if IsCycle(deps, cycle) {
      var c := CyclePumps(deps, cycle, 10 + 1);
    }
  }

  // ----- The resolver -----

  /** `m` may be resolved next while `visited` are being resolved: each waits for
      the following one, and the first is a declared measure. */
  ghost predicate Waiting(deps: Dependencies, measures: set<nat>, visited: seq<nat>, m: nat) {
    Chain(deps, visited + [m]) && (visited + [m])[0] in measures
  }

  /** What makes resolution succeed. */
  ghost predicate Favourable(oracle: Oracle, deps: Dependencies, measures: set<nat>, known: seq<nat>) {
    Honest(oracle, deps, measures) && NoLongChain(deps, measures) && FewUnknown(deps, measures, known)
  }

  /** All dependencies of `m` are without dependencies of their own. */
  ghost predicate OnlyLeaves(deps: Dependencies, m: nat) {
    forall d :: d in deps(m) ==> deps(d) == {}
  }

  /** The reported cycle: from the measure that came up again to the end. */
  ghost predicate RealCycle(deps: Dependencies, s: Status)
    requires s.Cycle?
  {
    exists k :: 0 <= k < |s.members| && s.members[k] == s.again && IsCycle(deps, s.members[k..])
  }

  /** The measures being resolved are different and not resolved yet. */
  ghost predicate Open(visited: seq<nat>, known: seq<nat>) {
    Distinct(visited) && forall x :: x in visited ==> x !in known
  }

  /** A chain of more different measures than the depth limit, none of them known. */
  ghost predicate DeepChain(deps: Dependencies, known: seq<nat>) {
    exists c :: Chain(deps, c) && |c| > 10 && Open(c, known)
  }

  /** A measure with 20 or more dependencies that are not known. */
  ghost predicate ManyUnknown(deps: Dependencies, known: seq<nat>) {
    exists m :: |deps(m) - Members(known)| >= 20
  }

  /** A limit is reported only when it is exceeded. */
  ghost predicate LimitExplained(oracle: Oracle, deps: Dependencies, measures: set<nat>, visited: seq<nat>, m: nat,
                                 before: seq<nat>, r: Status) {
    Truthful(oracle, deps) ==>
      && (r.TooDeep? && Waiting(deps, measures, visited, m) && Open(visited, before) ==> DeepChain(deps, before))
      && (r.TooMany? ==> ManyUnknown(deps, before))
  }

  /** What the answer to resolving `m` says, while `visited` are being resolved, with
      `before` and `after` the resolved measures: a reported cycle is real; under
      favourable conditions the answer is success; with an honest oracle a failure is
      a cycle or a limit, and a limit that is reported is exceeded; and a measure whose
      dependencies have none is resolved if and only if fewer than 20 of them are
      unknown. */
  ghost predicate Explained(oracle: Oracle, deps: Dependencies, measures: set<nat>, visited: seq<nat>, m: nat,
                            before: seq<nat>, after: seq<nat>, r: Status) {
    && (r.Cycle? && Truthful(oracle, deps) && Waiting(deps, measures, visited, m) ==> RealCycle(deps, r))
    && (Favourable(oracle, deps, measures, before) && Waiting(deps, measures, visited, m) ==> r.Done?)
    && (Honest(oracle, deps, measures) ==> !r.Failed?)
    && LimitExplained(oracle, deps, measures, visited, m, before, r)
    && LeafExplained(oracle, deps, measures, visited, m, before, after, r)
    && (Honest(oracle, deps, measures) && OnlyLeaves(deps, m) && m !in before
        && m !in visited && |visited| + 2 <= 10 && Waiting(deps, measures, visited, m) ==>
          (r.Done? <==> |deps(m) - Members(before)| < 20))
  }

  ghost predicate LeafExplained(oracle: Oracle, deps: Dependencies, measures: set<nat>, visited: seq<nat>, m: nat,
                                before: seq<nat>, after: seq<nat>, r: Status) {
    deps(m) == {} ==>
      && (Honest(oracle, deps, measures) && m !in visited && |visited| < 10 ==> r.Done?)
      && (r.Done? && Truthful(oracle, deps) && m !in before ==> after == before + [m])
  }

  /** Each attempt so far has resolved a dependency of `m`. */
  ghost predicate Counted(oracle: Oracle, deps: Dependencies, m: nat, before: seq<nat>, now: seq<nat>, attempts: nat) {
    && before <= now
    && (Truthful(oracle, deps) ==> |deps(m) - Members(now)| + attempts <= |deps(m) - Members(before)|)
    && (Truthful(oracle, deps) && deps(m) == {} ==> now == before)
  }

  ghost predicate CountedExactly(deps: Dependencies, m: nat, before: seq<nat>, now: seq<nat>, attempts: nat) {
    |deps(m) - Members(now)| + attempts == |deps(m) - Members(before)|
  }

  /** None of the measures being resolved was resolved in between. */
  ghost predicate Untouched(visited: seq<nat>, before: seq<nat>, now: seq<nat>) {
    forall x :: x in visited && x in now ==> x in before
  }

  class MeasureResolver {
    const measures: set<nat>
    const oracle: Oracle
    ghost const deps: Dependencies
    /** The measures being resolved, outermost first. */
    var visited: seq<nat>
    /** The measures resolved so far, in order. */
    var resolved: seq<nat>
    var ticks: nat

    constructor (measures: set<nat>, oracle: Oracle, ghost deps: Dependencies)
      ensures Valid() && visited == [] && resolved == []
      ensures this.measures == measures && this.oracle == oracle && this.deps == deps
    {
      this.measures, this.oracle, this.deps := measures, oracle, deps;
      visited, resolved, ticks := [], [], 0;
    }

    ghost predicate Valid()
      reads this
    {
      && Open(visited, resolved) && |visited| <= MAX_DEPTH
      && Distinct(resolved) && (forall x :: x in resolved ==> x in measures)
      && (Truthful(oracle, deps) ==> Topological(deps, resolved))
    }

    /** Resolves a measure and, before it, what it depends on. It ends for every
        oracle. Whatever happens, the measures being resolved are as before, and the
        resolved ones only grow and stay in a topological order. */
    method ResolveMeasure(m: nat) returns (r: Status)
      requires Valid() && m in measures
      modifies this
      ensures Valid() && visited == old(visited) && old(resolved) <= resolved
      ensures Untouched(visited, old(resolved), resolved)
      ensures r.Done? ==> m in resolved
      ensures m !in old(resolved) && m in visited ==> r == Cycle(visited, m)
      ensures m !in old(resolved) && m !in visited && |visited| == 10 ==> r.TooDeep?
      ensures Explained(oracle, deps, measures, visited, m, old(resolved), resolved, r)
      decreases MAX_DEPTH + 1 - |visited|
    {
      hide Truthful, Topological, Distinct, Explained, Counted, CountedExactly, TruthfulAt, Untouched, Open;
      UntouchedStart(visited, resolved);
      if m in resolved {
        ExplainKnown(oracle, deps, measures, visited, m, resolved);
        return Done;
      }
      if m in visited {
        ExplainCycle(oracle, deps, measures, visited, m, resolved);
        return Cycle(visited, m);
      }
      OpenAppend(visited, m, resolved);
      ghost var outer, before := visited, resolved;
      visited := visited + [m];
      if |visited| > MAX_DEPTH {
        visited := visited[..|visited| - 1];
        ExplainDeep(oracle, deps, measures, visited, m, resolved);
        return TooDeep;
      }
      var attempts := 0;
      CountedStart(oracle, deps, m, resolved);
      while true
        invariant Valid() && visited == outer + [m] && before <= resolved && m !in resolved
        invariant Untouched(outer, before, resolved) && Open(outer, resolved)
        invariant attempts <= MAX_ATTEMPTS && Counted(oracle, deps, m, before, resolved, attempts)
        invariant Truthful(oracle, deps) && OnlyLeaves(deps, m) ==> CountedExactly(deps, m, before, resolved, attempts)
        decreases MAX_ATTEMPTS - attempts
      {
        attempts := attempts + 1;
        if attempts > MAX_ATTEMPTS {
          visited := visited[..|visited| - 1];
          ExplainMany(oracle, deps, measures, outer, m, before, resolved);
          return TooMany;
        }
        var o := oracle(m, resolved, ticks);
        ghost var tick := ticks;
        ticks := ticks + 1;
        match o {
          case Resolved =>
            ExplainResolved(oracle, deps, measures, outer, m, before, resolved, tick, attempts - 1);
            DistinctAppend(resolved, m);
            UntouchedDone(outer, m, before, resolved);
            OpenDone(outer, m, resolved);
            resolved := resolved + [m];
            visited := visited[..|visited| - 1];
            return Done;
          case Error =>
            ExplainError(oracle, deps, measures, outer, m, before, resolved, tick);
            visited := visited[..|visited| - 1];
            return Failed;
          case Unrecognized(d) =>
            if d !in measures {
              ExplainError(oracle, deps, measures, outer, m, before, resolved, tick);
              visited := visited[..|visited| - 1];
              return Failed;
            }
            ghost var known := resolved;
            var s := ResolveMeasure(d);
            UntouchedNested(outer, m, before, known, resolved);
            OpenPrefix(outer, m, resolved);
            if !s.Done? {
              ExplainNested(oracle, deps, measures, outer, m, before, known, resolved, tick, d, s);
              visited := visited[..|visited| - 1];
              return s;
            }
            CountedNext(oracle, deps, measures, outer, m, before, known, resolved, tick, d, attempts - 1);
        }
      }
    }

    /** Resolves all measures of a property list in turn. If that succeeds, exactly
        the measures of the list are resolved, in a topological order, and none of
        them lies on a cycle. It does succeed for an honest oracle when no chain is
        longer than 10 measures and no measure has more than 19 dependencies. */
    method ResolveAll(properties: seq<nat>) returns (r: Status)
      requires Valid() && visited == [] && resolved == [] && Members(properties) == measures
      modifies this
      ensures Valid() && visited == []
      ensures r.Done? ==> Members(resolved) == measures
      ensures r.Done? && Truthful(oracle, deps) ==>
                Topological(deps, resolved) && forall c :: IsCycle(deps, c) ==> c[0] !in measures
      ensures r.Cycle? && Truthful(oracle, deps) ==> RealCycle(deps, r)
      ensures Favourable(oracle, deps, measures, []) ==> r.Done?
      ensures Truthful(oracle, deps) ==> (r.TooDeep? ==> DeepChain(deps, [])) && (r.TooMany? ==> ManyUnknown(deps, []))
      ensures Honest(oracle, deps, measures) && NoLongChain(deps, measures) && FewDependencies(deps, measures) ==>
                r.Done?
    {
      hide Truthful, Topological, Distinct, Favourable, Waiting, IsCycle, RealCycle, LeafExplained, DeepChain,
           ManyUnknown;
      FewEnough(oracle, deps, measures);
      for i := 0 to |properties|
        invariant Valid() && visited == []
        invariant forall k :: 0 <= k < i ==> properties[k] in resolved
      {
        ghost var before := resolved;
        assert properties[i] in Members(properties);
        var s := ResolveMeasure(properties[i]);
        WaitingAlone(deps, measures, properties[i]);
        DeepEarlier(deps, [], before);
        FavourableLater(oracle, deps, measures, [], before);
        if !s.Done? {
          return s;
        }
      }
      assert forall x :: x in measures ==> x in Members(properties);
      if Truthful(oracle, deps) {
        AcyclicWhenResolved(deps, resolved);
      }
      r := Done;
    }
  }

  lemma WaitingAlone(deps: Dependencies, measures: set<nat>, m: nat)
    requires m in measures
    ensures Waiting(deps, measures, [], m)
  {
  }

  /** Nineteen dependencies are not too many. */
  lemma FewEnough(oracle: Oracle, deps: Dependencies, measures: set<nat>)
    ensures Honest(oracle, deps, measures) && NoLongChain(deps, measures) && FewDependencies(deps, measures) ==>
              Favourable(oracle, deps, measures, [])
  {
    hide Honest, NoLongChain;
    forall m | m in measures
      ensures deps(m) - Members([]) == deps(m)
    {
    }
  }

  lemma OpenAppend(visited: seq<nat>, m: nat, known: seq<nat>)
    requires Open(visited, known) && m !in visited && m !in known
    ensures Open(visited + [m], known)
  {
  }

  lemma OpenPrefix(visited: seq<nat>, m: nat, known: seq<nat>)
    requires Open(visited + [m], known)
    ensures Open(visited, known)
  {
    assert forall i :: 0 <= i < |visited| ==> visited[i] == (visited + [m])[i];
    assert forall x :: x in visited ==> x in visited + [m];
  }

  lemma OpenDone(visited: seq<nat>, m: nat, known: seq<nat>)
    requires Open(visited, known) && m !in visited
    ensures Open(visited, known + [m])
  {
  }

  lemma DeepEarlier(deps: Dependencies, before: seq<nat>, known: seq<nat>)
    requires before <= known
    ensures DeepChain(deps, known) ==> DeepChain(deps, before)
    ensures ManyUnknown(deps, known) ==> ManyUnknown(deps, before)
  {
    if DeepChain(deps, known) {
      var c :| Chain(deps, c) && |c| > 10 && Open(c, known);
      assert Open(c, before);
    }
    if ManyUnknown(deps, known) {
      var m :| |deps(m) - Members(known)| >= 20;
      Fewer(deps(m) - Members(known), deps(m) - Members(before));
    }
  }

  lemma UntouchedStart(visited: seq<nat>, known: seq<nat>)
    ensures Untouched(visited, known, known)
  {
  }

  lemma UntouchedDone(visited: seq<nat>, m: nat, before: seq<nat>, now: seq<nat>)
    requires Untouched(visited, before, now) && m !in visited
    ensures Untouched(visited, before, now + [m])
  {
  }

  lemma UntouchedNested(visited: seq<nat>, m: nat, before: seq<nat>, known: seq<nat>, now: seq<nat>)
    requires Untouched(visited, before, known) && Untouched(visited + [m], known, now) && m !in known
    ensures Untouched(visited, before, now) && m !in now
  {
    assert m in visited + [m];
    forall x | x in visited && x in now
      ensures x in before
    {
      assert x in visited + [m];
    }
  }

  lemma ExplainKnown(oracle: Oracle, deps: Dependencies, measures: set<nat>, visited: seq<nat>, m: nat, known: seq<nat>)
    requires m in known
    ensures Explained(oracle, deps, measures, visited, m, known, known, Done)
  {
  }

  lemma ExplainCycle(oracle: Oracle, deps: Dependencies, measures: set<nat>, visited: seq<nat>, m: nat, known: seq<nat>)
    requires m in visited && m in measures
    ensures Explained(oracle, deps, measures, visited, m, known, known, Cycle(visited, m))
  {
    hide Honest, Waiting, RealCycle, NoLongChain, FewUnknown, OnlyLeaves;
    CycleFound(deps, measures, visited, m);
  }

  lemma ExplainDeep(oracle: Oracle, deps: Dependencies, measures: set<nat>, visited: seq<nat>, m: nat, known: seq<nat>)
    requires |visited| >= MAX_DEPTH && m !in visited && m !in known
    ensures Explained(oracle, deps, measures, visited, m, known, known, TooDeep)
  {
    hide Honest, Waiting, RealCycle, NoLongChain, FewUnknown, OnlyLeaves, Open, DeepChain, Truthful;
    DepthFine(deps, measures, visited, m);
    DepthExceeded(deps, measures, visited, m, known);
  }

  lemma DepthExceeded(deps: Dependencies, measures: set<nat>, visited: seq<nat>, m: nat, known: seq<nat>)
    requires |visited| >= MAX_DEPTH && m !in visited && m !in known
    ensures Waiting(deps, measures, visited, m) && Open(visited, known) ==> DeepChain(deps, known)
  {
    if Waiting(deps, measures, visited, m) && Open(visited, known) {
      OpenAppend(visited, m, known);
      assert Chain(deps, visited + [m]);
    }
  }

  lemma CountedStart(oracle: Oracle, deps: Dependencies, m: nat, known: seq<nat>)
    ensures Counted(oracle, deps, m, known, known, 0) && CountedExactly(deps, m, known, known, 0)
  {
  }

  lemma ExplainMany(oracle: Oracle, deps: Dependencies, measures: set<nat>, visited: seq<nat>, m: nat,
                    before: seq<nat>, now: seq<nat>)
    requires m in measures && Counted(oracle, deps, m, before, now, MAX_ATTEMPTS)
    ensures Explained(oracle, deps, measures, visited, m, before, now, TooMany)
  {
    hide Truthful, Waiting, RealCycle, NoLongChain, OnlyLeaves, DeepChain, Open;
    FavourableMeans(oracle, deps, measures, before, m);
    if Truthful(oracle, deps) {
      assert |deps(m) - Members(before)| >= MAX_ATTEMPTS;
    }
    LeafUnknown(deps, m, before);
  }

  lemma LeafUnknown(deps: Dependencies, m: nat, known: seq<nat>)
    ensures deps(m) == {} ==> |deps(m) - Members(known)| == 0
  {
    assert deps(m) == {} ==> deps(m) - Members(known) == {};
  }

  lemma ExplainResolved(oracle: Oracle, deps: Dependencies, measures: set<nat>, visited: seq<nat>, m: nat,
                        before: seq<nat>, now: seq<nat>, tick: nat, attempts: nat)
    requires oracle(m, now, tick).Resolved? && m !in now && attempts < MAX_ATTEMPTS
    requires Counted(oracle, deps, m, before, now, attempts)
    requires Distinct(now) && (Truthful(oracle, deps) ==> Topological(deps, now))
    requires Truthful(oracle, deps) && OnlyLeaves(deps, m) ==> CountedExactly(deps, m, before, now, attempts)
    ensures Explained(oracle, deps, measures, visited, m, before, now + [m], Done)
    ensures Truthful(oracle, deps) ==> Topological(deps, now + [m])
  {
    hide Truthful, Waiting, RealCycle, NoLongChain, OnlyLeaves, Topological, FewUnknown;
    TruthfulMeans(oracle, deps, m, now, tick);
    Appended(deps, now, m);
    if Truthful(oracle, deps) {
      assert deps(m) - Members(now) == {};
    }
  }

  lemma ExplainError(oracle: Oracle, deps: Dependencies, measures: set<nat>, visited: seq<nat>, m: nat,
                     before: seq<nat>, now: seq<nat>, tick: nat)
    requires m in measures
    requires var o := oracle(m, now, tick); o.Error? || (o.Unrecognized? && o.name !in measures)
    ensures Explained(oracle, deps, measures, visited, m, before, now, Failed)
  {
    hide Truthful, Waiting, RealCycle, NoLongChain, OnlyLeaves, FewUnknown;
    TruthfulMeans(oracle, deps, m, now, tick);
    HonestMeans(oracle, deps, measures, m, now, tick);
  }

  lemma ExplainNested(oracle: Oracle, deps: Dependencies, measures: set<nat>, visited: seq<nat>, m: nat,
                      before: seq<nat>, known: seq<nat>, now: seq<nat>, tick: nat, d: nat, s: Status)
    requires m in measures && before <= known && oracle(m, known, tick) == Unrecognized(d) && !s.Done?
    requires Explained(oracle, deps, measures, visited + [m], d, known, now, s) && Open(visited + [m], known)
    ensures Explained(oracle, deps, measures, visited, m, before, now, s)
  {
    hide Truthful, Waiting, RealCycle, NoLongChain, FewUnknown, Favourable, DeepChain, ManyUnknown, Open;
    DeepEarlier(deps, before, known);
    TruthfulMeans(oracle, deps, m, known, tick);
    HonestMeans(oracle, deps, measures, m, known, tick);
    NextWaiting(deps, measures, visited, m, d);
    FavourableLater(oracle, deps, measures, before, known);
    FavourableMeans(oracle, deps, measures, before, m);
  }

  lemma CountedNext(oracle: Oracle, deps: Dependencies, measures: set<nat>, visited: seq<nat>, m: nat,
                    before: seq<nat>, known: seq<nat>, now: seq<nat>, tick: nat, d: nat, attempts: nat)
    requires oracle(m, known, tick) == Unrecognized(d) && known <= now && d in now
    requires Counted(oracle, deps, m, before, known, attempts)
    requires Truthful(oracle, deps) && OnlyLeaves(deps, m) ==> CountedExactly(deps, m, before, known, attempts)
    requires Explained(oracle, deps, measures, visited + [m], d, known, now, Done)
    ensures Counted(oracle, deps, m, before, now, attempts + 1)
    ensures Truthful(oracle, deps) && OnlyLeaves(deps, m) ==> CountedExactly(deps, m, before, now, attempts + 1)
  {
    hide Truthful, Waiting, RealCycle, NoLongChain, FewUnknown, Favourable;
    TruthfulMeans(oracle, deps, m, known, tick);
    OneFewer(deps, m, known, now, d);
  }

  lemma CycleFound(deps: Dependencies, measures: set<nat>, visited: seq<nat>, m: nat)
    requires m in visited && m in measures
    ensures Waiting(deps, measures, visited, m) ==> RealCycle(deps, Cycle(visited, m)) && !NoLongChain(deps, measures)
  {
    if Waiting(deps, measures, visited, m) {
      var k :| 0 <= k < |visited| && visited[k] == m;
      var cycle := visited[k..];
      var all := visited + [m];
      forall i | 0 <= i < |cycle| - 1
        ensures cycle[i + 1] in deps(cycle[i])
      {
        assert all[k + i + 1] in deps(all[k + i]);
      }
      assert all[|visited| - 1 + 1] in deps(all[|visited| - 1]);
      assert IsCycle(deps, cycle);
      if NoLongChain(deps, measures) {
        NoLongChainNoCycle(deps, measures, cycle);
      }
    }
  }

  lemma DepthFine(deps: Dependencies, measures: set<nat>, visited: seq<nat>, m: nat)
    ensures Waiting(deps, measures, visited, m) && NoLongChain(deps, measures) ==> |visited| < MAX_DEPTH
  {
  }

  lemma FavourableMeans(oracle: Oracle, deps: Dependencies, measures: set<nat>, known: seq<nat>, m: nat)
    requires m in measures
    ensures Favourable(oracle, deps, measures, known) ==>
              Honest(oracle, deps, measures) && NoLongChain(deps, measures) && |deps(m) - Members(known)| < MAX_ATTEMPTS
  {
  }

  lemma FavourableLater(oracle: Oracle, deps: Dependencies, measures: set<nat>, known: seq<nat>, more: seq<nat>)
    requires known <= more
    ensures Favourable(oracle, deps, measures, known) ==> Favourable(oracle, deps, measures, more)
  {
    hide Honest, NoLongChain;
    forall m | m in measures
      ensures |deps(m) - Members(more)| <= |deps(m) - Members(known)|
    {
      Fewer(deps(m) - Members(more), deps(m) - Members(known));
    }
  }

  lemma {:induction false} Fewer(a: set<nat>, b: set<nat>)
    requires a <= b
    ensures |a| <= |b|
  {
    assert b == a + (b - a);
  }

  lemma HonestMeans(oracle: Oracle, deps: Dependencies, measures: set<nat>, m: nat, known: seq<nat>, tick: nat)
    requires m in measures
    ensures Honest(oracle, deps, measures) ==>
              Truthful(oracle, deps) && !oracle(m, known, tick).Error? && deps(m) <= measures
  {
  }

  lemma TruthfulMeans(oracle: Oracle, deps: Dependencies, m: nat, known: seq<nat>, tick: nat)
    ensures Truthful(oracle, deps) ==> TruthfulAt(oracle, deps, m, known, tick)
  {
  }

  lemma NextWaiting(deps: Dependencies, measures: set<nat>, visited: seq<nat>, m: nat, d: nat)
    ensures Waiting(deps, measures, visited, m) && d in deps(m) ==> Waiting(deps, measures, visited + [m], d)
    ensures Waiting(deps, measures, visited + [m], d) && deps(d) == {} ==> d !in visited + [m]
  {
    var all := visited + [m] + [d];
    if Waiting(deps, measures, visited, m) && d in deps(m) {
      ChainConcat(deps, visited + [m], [d]);
    }
    if Waiting(deps, measures, visited + [m], d) {
      forall k | 0 <= k < |visited| + 1
        ensures deps((visited + [m])[k]) != {}
      {
        assert all[k + 1] in deps(all[k]);
      }
    }
  }

  lemma OneFewer(deps: Dependencies, m: nat, before: seq<nat>, after: seq<nat>, d: nat)
    requires before <= after && d in after
    ensures d in deps(m) && d !in before ==> |deps(m) - Members(after)| + 1 <= |deps(m) - Members(before)|
    ensures d in deps(m) && d !in before && after == before + [d] ==>
              |deps(m) - Members(after)| + 1 == |deps(m) - Members(before)|
  {
    var a, b := deps(m) - Members(after), deps(m) - Members(before);
    if d in deps(m) && d !in before {
      assert a + {d} <= b;
      Fewer(a + {d}, b);
      if after == before + [d] {
        assert b <= a + {d};
        Fewer(b, a + {d});
      }
    }
  }
}
