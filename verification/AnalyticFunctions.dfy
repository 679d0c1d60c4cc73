/** The analytic functions of a query: each OVER clause puts its function into the
    group of its window, and one scan is built from all groups.
 */
module AnalyticFunctions {
  import opened Sequences
  import opened Types
  import opened Windows

  /** A partitioning or ordering expression: a reference to a column, or something
      that has to be computed. */
  datatype WindowExpr = Ref(column: nat) | Computed(expr: nat)

  datatype WindowExprInfo = WindowExprInfo(expr: WindowExpr, column: Option<nat>)

  datatype ComputedColumn = ComputedColumn(column: nat, expr: nat)

  /** Functions with the same PARTITION BY and ORDER BY, by their columns. */
  datatype Group = Group(partition: Option<nat>, order: Option<nat>, columns: seq<nat>)

  /** A group with its clauses resolved to columns. */
  datatype ResolvedGroup = ResolvedGroup(partition: Option<seq<nat>>, order: Option<seq<nat>>, columns: seq<nat>)

  type ClauseInfo = map<nat, seq<WindowExprInfo>>

  function AllColumns(groups: seq<Group>): seq<nat> {
    if groups == [] then [] else AllColumns(groups[..|groups| - 1]) + groups[|groups| - 1].columns
  }

  function ColumnsOf(cs: seq<ComputedColumn>): (s: seq<nat>)
    ensures |s| == |cs| && forall k :: 0 <= k < |s| ==> s[k] == cs[k].column
  {
    seq(|cs|, k requires 0 <= k < |cs| => cs[k].column)
  }

  // ----- Windows -----

  /** Every window flattened so far has a legal chain, and so have the windows on it. */
  ghost predicate ChainsOk(chains: map<nat, seq<Spec>>) {
    forall id :: id in chains ==>
      && chains[id] != [] && Legal(chains[id]) && chains[id][0].id == id
      && forall i :: 0 <= i < |chains[id]| ==> ChainFrom(chains, chains[id], i)
  }

  ghost predicate ChainFrom(chains: map<nat, seq<Spec>>, chain: seq<Spec>, i: nat)
    requires i < |chain|
  {
    chain[i].id in chains && chains[chain[i].id] == chain[i..]
  }

  ghost predicate NamedOk(named: map<string, FlattenedWindowInfo>, chains: map<nat, seq<Spec>>) {
    forall n :: n in named ==>
      named[n].spec.id in chains && chains[named[n].spec.id] != [] && named[n] == Flatten(chains[named[n].spec.id])
  }

  /** The chain of a window specification, if the windows it refers to exist. */
  ghost function ChainOf(named: map<string, FlattenedWindowInfo>, chains: map<nat, seq<Spec>>, w: Spec): seq<Spec>
    requires NamedOk(named, chains)
  {
    if w.base.None? then [w] else if w.base.value in named then [w] + chains[named[w.base.value].spec.id] else []
  }

  lemma ChainAdded(chains: map<nat, seq<Spec>>, w: Spec, chain: seq<Spec>)
    requires ChainsOk(chains) && w.id !in chains && chain != [] && Legal(chain) && chain[0] == w
    requires |chain| > 1 ==> chain[1].id in chains && chains[chain[1].id] == chain[1..]
    ensures ChainsOk(chains[w.id := chain])
  {
    hide Legal;
    var more: map<nat, seq<Spec>> := chains[w.id := chain];
    forall id | id in more
      ensures more[id] != [] && Legal(more[id]) && more[id][0].id == id
      ensures forall i :: 0 <= i < |more[id]| ==> ChainFrom(more, more[id], i)
    {
      forall i | 0 <= i < |more[id]|
        ensures ChainFrom(more, more[id], i)
      {
        if id != w.id {
          assert ChainFrom(chains, chains[id], i);
        } else if i > 0 {
          assert ChainFrom(chains, chain[1..], i - 1);
          SuffixAt(chain, i);
        } else {
          assert chain[0..] == chain;
        }
      }
    }
  }

  /** Windows with the same grouping window have the same PARTITION BY and ORDER BY. */
  lemma SameGroupingSameClauses(chains: map<nat, seq<Spec>>, a: nat, b: nat)
    requires ChainsOk(chains) && a in chains && b in chains
    requires Flatten(chains[a]).grouping == Flatten(chains[b]).grouping
    ensures Flatten(chains[a]).partition == Flatten(chains[b]).partition
    ensures Flatten(chains[a]).order == Flatten(chains[b]).order
  {
    hide Flatten, Legal;
    if Flatten(chains[a]).grouping.Some? {
      var i := GroupingOnChain(chains[a]);
      var j := GroupingOnChain(chains[b]);
      assert ChainFrom(chains, chains[a], i) && ChainFrom(chains, chains[b], j);
    } else {
      GroupingIffClauses(chains[a]);
      GroupingIffClauses(chains[b]);
    }
  }

  // ----- Groups -----

  /** The window of each call, by the column of the call. */
  type CallWindows = map<nat, nat>

  ghost predicate CallsOk(chains: map<nat, seq<Spec>>, windowOf: CallWindows, groups: seq<Group>,
                          keys: seq<Option<nat>>) {
    && |keys| == |groups|
    && forall g, k :: 0 <= g < |groups| && 0 <= k < |groups[g].columns| ==>
         CallIn(chains, windowOf, groups[g], keys[g], groups[g].columns[k])
  }

  /** The call has the grouping window and the clauses of its group. */
  ghost predicate CallIn(chains: map<nat, seq<Spec>>, windowOf: CallWindows, g: Group, key: Option<nat>, column: nat) {
    && column in windowOf && windowOf[column] in chains && chains[windowOf[column]] != []
    && var f := Flatten(chains[windowOf[column]]);
    && f.grouping == key && f.partition == g.partition && f.order == g.order
  }

  ghost predicate KeysOk(groups: seq<Group>, groupOf: map<Option<nat>, nat>, keys: seq<Option<nat>>) {
    && |keys| == |groups|
    && (forall i :: 0 <= i < |keys| ==> keys[i] in groupOf && groupOf[keys[i]] == i)
    && (forall k :: k in groupOf ==> groupOf[k] < |keys| && keys[groupOf[k]] == k)
    && (forall i :: 0 <= i < |groups| ==> groups[i].columns != [])
  }

  ghost predicate ClausesKnown(groups: seq<Group>, info: ClauseInfo) {
    forall i :: 0 <= i < |groups| ==>
      && (groups[i].partition.Some? ==> groups[i].partition.value in info)
      && (groups[i].order.Some? ==> groups[i].order.value in info)
  }

  /** The groups hold exactly the columns of the calls, each once. */
  ghost predicate GroupsOk(chains: map<nat, seq<Spec>>, windowOf: CallWindows, groups: seq<Group>,
                           groupOf: map<Option<nat>, nat>,
                           keys: seq<Option<nat>>, calls: seq<nat>, next: nat) {
    && CallsOk(chains, windowOf, groups, keys) && KeysOk(groups, groupOf, keys)
    && multiset(AllColumns(groups)) == multiset(calls) && Distinct(calls) && (forall c :: c in calls ==> c < next)
  }

  lemma {:induction false} AllColumnsUpdate(groups: seq<Group>, i: nat, column: nat)
    requires i < |groups|
    ensures multiset(AllColumns(groups[i := groups[i].(columns := groups[i].columns + [column])])) ==
            multiset(AllColumns(groups)) + multiset{column}
    decreases |groups|
  {
    var n := |groups| - 1;
    var more := groups[i := groups[i].(columns := groups[i].columns + [column])];
    if i < n {
      AllColumnsUpdate(groups[..n], i, column);
      assert more[..n] == groups[..n][i := groups[..n][i].(columns := groups[..n][i].columns + [column])];
    } else {
      assert more[..n] == groups[..n];
    }
  }

  lemma AllColumnsAppend(groups: seq<Group>, g: Group)
    ensures AllColumns(groups + [g]) == AllColumns(groups) + g.columns
  {
    assert (groups + [g])[..|groups|] == groups;
  }

  lemma {:induction false} AllColumnsMember(groups: seq<Group>, g: nat, k: nat)
    requires g < |groups| && k < |groups[g].columns|
    ensures groups[g].columns[k] in AllColumns(groups)
    decreases |groups|
  {
    var n := |groups| - 1;
    if g < n {
      AllColumnsMember(groups[..n], g, k);
    }
  }

  // ----- Columns for window expressions -----

  /** The place of a window expression: its clause and its position there. */
  type Place = (nat, nat)

  ghost predicate At(info: ClauseInfo, p: Place) {
    p.0 in info && p.1 < |info[p.0]|
  }

  /** Each computed expression that has a column has one of its own, and each such
      column is waiting to be computed. */
  ghost predicate InfoOk(info: ClauseInfo, pending: seq<ComputedColumn>, owner: map<nat, Place>, next: nat) {
    && (forall p: Place :: At(info, p) && info[p.0][p.1].column.Some? ==> Given(info[p.0][p.1], pending, owner, p))
    && (forall c :: c in owner ==> c < next && At(info, owner[c]) && info[owner[c].0][owner[c].1].column == Some(c))
    && (forall k :: 0 <= k < |pending| ==> pending[k].column in owner)
    && Distinct(ColumnsOf(pending))
  }

  ghost predicate Given(x: WindowExprInfo, pending: seq<ComputedColumn>, owner: map<nat, Place>, p: Place) {
    x.column.Some? &&
    match x.expr
    case Ref(c) => x.column.value == c
    case Computed(e) =>
      x.column.value in owner && owner[x.column.value] == p && ComputedColumn(x.column.value, e) in pending
  }

  /** `after` has the expressions of `before`, and every column given before. */
  ghost predicate Keeps(before: ClauseInfo, after: ClauseInfo) {
    forall cl :: cl in before ==> cl in after && KeepsClause(before[cl], after[cl])
  }

  ghost predicate KeepsClause(before: seq<WindowExprInfo>, after: seq<WindowExprInfo>) {
    && |after| == |before|
    && forall i :: 0 <= i < |before| ==>
         after[i].expr == before[i].expr && (before[i].column.Some? ==> after[i].column == before[i].column)
  }

  lemma KeepsTransitive(a: ClauseInfo, b: ClauseInfo, c: ClauseInfo)
    requires Keeps(a, b) && Keeps(b, c)
    ensures Keeps(a, c)
  {
    forall cl | cl in a
      ensures cl in c && KeepsClause(a[cl], c[cl])
    {
      assert KeepsClause(a[cl], b[cl]) && KeepsClause(b[cl], c[cl]);
    }
  }

  function Update(info: ClauseInfo, cl: nat, i: nat, column: nat): ClauseInfo
    requires cl in info && i < |info[cl]|
  {
    info[cl := info[cl][i := info[cl][i].(column := Some(column))]]
  }

  lemma UpdateKeeps(info: ClauseInfo, cl: nat, i: nat, column: nat)
    requires cl in info && i < |info[cl]| && info[cl][i].column.None?
    ensures Keeps(info, Update(info, cl, i, column))
  {
  }

  /** A reference keeps its column. */
  lemma GiveRef(info: ClauseInfo, pending: seq<ComputedColumn>, owner: map<nat, Place>, next: nat, cl: nat, i: nat)
    requires InfoOk(info, pending, owner, next) && cl in info && i < |info[cl]|
    requires info[cl][i].column.None? && info[cl][i].expr.Ref?
    ensures InfoOk(Update(info, cl, i, info[cl][i].expr.column), pending, owner, next)
  {
    hide Distinct, ColumnsOf;
    var after := Update(info, cl, i, info[cl][i].expr.column);
    forall p: Place | At(after, p) && after[p.0][p.1].column.Some?
      ensures Given(after[p.0][p.1], pending, owner, p)
    {
      if p != (cl, i) {
        assert At(info, p) && after[p.0][p.1] == info[p.0][p.1];
      }
    }
  }

  /** A computed expression gets a fresh column. */
  lemma GiveComputed(info: ClauseInfo, pending: seq<ComputedColumn>, owner: map<nat, Place>, next: nat, cl: nat, i: nat)
    requires InfoOk(info, pending, owner, next) && cl in info && i < |info[cl]|
    requires info[cl][i].column.None? && info[cl][i].expr.Computed?
    ensures InfoOk(Update(info, cl, i, next), pending + [ComputedColumn(next, info[cl][i].expr.expr)],
                   owner[next := (cl, i)], next + 1)
  {
    hide ColumnsOf;
    var after, entry := Update(info, cl, i, next), ComputedColumn(next, info[cl][i].expr.expr);
    var pending', owner' := pending + [entry], owner[next := (cl, i)];
    assert entry in pending';
    forall p: Place | At(after, p) && after[p.0][p.1].column.Some?
      ensures Given(after[p.0][p.1], pending', owner', p)
    {
      if p != (cl, i) {
        assert At(info, p) && after[p.0][p.1] == info[p.0][p.1];
        assert Given(info[p.0][p.1], pending, owner, p);
      }
    }
    forall c | c in owner'
      ensures c < next + 1 && At(after, owner'[c]) && after[owner'[c].0][owner'[c].1].column == Some(c)
    {
      if c != next {
        assert At(info, owner[c]) && info[owner[c].0][owner[c].1].column == Some(c);
        assert owner[c] != (cl, i);
      }
    }
    forall k | 0 <= k < |pending|
      ensures pending[k].column < next
    {
    }
  }

  /** The references of a clause that has all of its columns. */
  ghost predicate RefsOf(info: ClauseInfo, cl: nat, refs: seq<nat>) {
    && cl in info && |refs| == |info[cl]|
    && forall i :: 0 <= i < |refs| ==> info[cl][i].column == Some(refs[i])
  }

  lemma RefsKept(before: ClauseInfo, after: ClauseInfo, cl: nat, refs: seq<nat>)
    requires Keeps(before, after) && RefsOf(before, cl, refs)
    ensures RefsOf(after, cl, refs)
  {
    assert KeepsClause(before[cl], after[cl]);
  }

  /** The clauses and functions of a group, resolved. */
  ghost predicate GroupResolved(info: ClauseInfo, g: Group, r: ResolvedGroup) {
    && r.columns == g.columns
    && (g.partition.None? <==> r.partition.None?) && (g.order.None? <==> r.order.None?)
    && (g.partition.Some? ==> RefsOf(info, g.partition.value, r.partition.value))
    && (g.order.Some? ==> RefsOf(info, g.order.value, r.order.value))
  }

  lemma GroupResolvedKept(before: ClauseInfo, after: ClauseInfo, g: Group, r: ResolvedGroup)
    requires Keeps(before, after) && GroupResolved(before, g, r)
    ensures GroupResolved(after, g, r)
  {
    hide Keeps, RefsOf;
    if g.partition.Some? { RefsKept(before, after, g.partition.value, r.partition.value); }
    if g.order.Some? { RefsKept(before, after, g.order.value, r.order.value); }
  }

  /** Every reference is to a column of the input or to a computed column. */
  ghost predicate RefsKnown(refs: seq<nat>, input: seq<nat>, computed: seq<ComputedColumn>) {
    forall i :: 0 <= i < |refs| ==> refs[i] in input || refs[i] in ColumnsOf(computed)
  }

  /** A bare reference of the clause is to a column of the input. */
  ghost predicate ClauseInInput(info: ClauseInfo, cl: nat, input: seq<nat>) {
    cl in info && forall i :: 0 <= i < |info[cl]| && info[cl][i].expr.Ref? ==> info[cl][i].expr.column in input
  }

  ghost predicate GroupInInput(info: ClauseInfo, g: Group, input: seq<nat>) {
    && (g.partition.Some? ==> ClauseInInput(info, g.partition.value, input))
    && (g.order.Some? ==> ClauseInInput(info, g.order.value, input))
  }

  /** References are to columns that have been allocated. */
  ghost predicate ExprsAllocated(es: seq<WindowExpr>, next: nat) {
    forall i :: 0 <= i < |es| && es[i].Ref? ==> es[i].column < next
  }

  ghost predicate RefsAllocated(info: ClauseInfo, next: nat) {
    forall p: Place :: At(info, p) && info[p.0][p.1].expr.Ref? ==> info[p.0][p.1].expr.column < next
  }

  lemma AllocatedLater(info: ClauseInfo, next: nat, later: nat)
    requires RefsAllocated(info, next) && next <= later
    ensures RefsAllocated(info, later)
  {
  }

  lemma AllocatedMore(info: ClauseInfo, next: nat, cl: nat, infos: seq<WindowExprInfo>)
    requires RefsAllocated(info, next)
    requires forall i :: 0 <= i < |infos| && infos[i].expr.Ref? ==> infos[i].expr.column < next
    ensures RefsAllocated(info[cl := infos], next)
  {
    var more := info[cl := infos];
    forall p: Place | At(more, p) && more[p.0][p.1].expr.Ref?
      ensures more[p.0][p.1].expr.column < next
    {
      if p.0 != cl { assert At(info, p); }
    }
  }

  /** The references that a clause is resolved to are known exactly when its bare
      references are to columns of the input: the computed columns are new. */
  lemma ClauseRefsKnown(before: ClauseInfo, start: nat, info: ClauseInfo, pending: seq<ComputedColumn>,
                        owner: map<nat, Place>, next: nat, input: seq<nat>, cl: nat, refs: seq<nat>)
    requires InfoOk(info, pending, owner, next) && RefsOf(info, cl, refs) && Keeps(before, info) && cl in before
    requires RefsAllocated(before, start) && forall c :: c in owner ==> c >= start
    ensures RefsKnown(refs, input, pending) <==> ClauseInInput(before, cl, input)
  {
    hide InfoOk, Keeps, RefsAllocated, ColumnsOf;
    assert KeepsClause(before[cl], info[cl]) by { ClauseKept(before, info, cl); }
    forall i | 0 <= i < |refs|
      ensures refs[i] in input || refs[i] in ColumnsOf(pending) <==>
              (before[cl][i].expr.Ref? ==> before[cl][i].expr.column in input)
    {
      RefKnown(info, pending, owner, next, start, cl, i, refs[i]);
      if before[cl][i].expr.Ref? {
        RefOld(before, start, cl, i);
      }
    }
  }

  lemma ClauseKept(before: ClauseInfo, info: ClauseInfo, cl: nat)
    requires Keeps(before, info) && cl in before
    ensures cl in info && KeepsClause(before[cl], info[cl])
  {
  }

  lemma RefOld(info: ClauseInfo, start: nat, cl: nat, i: nat)
    requires RefsAllocated(info, start) && cl in info && i < |info[cl]| && info[cl][i].expr.Ref?
    ensures info[cl][i].expr.column < start
  {
    assert At(info, (cl, i));
  }

  lemma RefKnown(info: ClauseInfo, pending: seq<ComputedColumn>, owner: map<nat, Place>, next: nat, start: nat,
                 cl: nat, i: nat, ref: nat)
    requires InfoOk(info, pending, owner, next) && cl in info && i < |info[cl]| && info[cl][i].column == Some(ref)
    requires forall c :: c in owner ==> c >= start
    ensures info[cl][i].expr.Ref? ==> ref == info[cl][i].expr.column && (ref in ColumnsOf(pending) ==> ref >= start)
    ensures info[cl][i].expr.Computed? ==> ref in ColumnsOf(pending)
  {
    hide Distinct;
    var x := info[cl][i];
    assert At(info, (cl, i));
    assert Given(x, pending, owner, (cl, i));
    if x.expr.Computed? {
      var k :| 0 <= k < |pending| && pending[k] == ComputedColumn(ref, x.expr.expr);
      assert ColumnsOf(pending)[k] == ref;
    }
  }

  /** The expressions of a clause, before any has a column. */
  function Unresolved(es: seq<WindowExpr>): seq<WindowExprInfo> {
    seq(|es|, i requires 0 <= i < |es| => WindowExprInfo(es[i], None))
  }

  /** Every clause of `after` is one of `before` or has the expressions `exprs`. */
  ghost predicate InfoFrom(before: ClauseInfo, after: ClauseInfo, exprs: nat -> Option<seq<WindowExpr>>) {
    && (forall cl :: cl in before ==> cl in after && after[cl] == before[cl])
    && forall cl :: cl in after ==> cl in before || (exprs(cl).Some? && after[cl] == Unresolved(exprs(cl).value))
  }

  // ----- The resolver -----

  class AnalyticFunctionResolver {
    /** The windows of the WINDOW clause, by lower-case name. */
    var named: map<string, FlattenedWindowInfo>
    /** Set when references to named windows are no longer allowed. */
    var namedDisabled: bool
    var groups: seq<Group>
    /** The group of each grouping window. */
    var groupOf: map<Option<nat>, nat>
    var info: ClauseInfo
    var pending: seq<ComputedColumn>
    var nextColumn: nat
    ghost var chains: map<nat, seq<Spec>>
    ghost var keys: seq<Option<nat>>
    ghost var windowOf: CallWindows
    /** The columns of the calls, in the order of the OVER clauses. */
    ghost var calls: seq<nat>
    ghost var owner: map<nat, Place>
    ghost var scanned: bool

    constructor ()
      ensures Valid() && !scanned && calls == [] && chains == map[] && named == map[] && info == map[] && !namedDisabled
    {
      named, namedDisabled, groups, groupOf, info, pending, nextColumn := map[], false, [], map[], map[], [], 0;
      chains, keys, windowOf, calls, owner, scanned := map[], [], map[], [], map[], false;
    }

    ghost predicate Valid()
      reads this
    {
      && ChainsOk(chains) && NamedOk(named, chains)
      && GroupsOk(chains, windowOf, groups, groupOf, keys, calls, nextColumn) && ClausesKnown(groups, info)
      && (!scanned ==> InfoOk(info, pending, owner, nextColumn) && pending == [] && Fresh(info))
      && (!scanned ==> RefsAllocated(info, nextColumn))
    }

    /** Other parts of the resolver allocate columns too. */
    method AllocateColumnId() returns (c: nat)
      requires Valid()
      modifies this`nextColumn
      ensures Valid() && c == old(nextColumn) && nextColumn == c + 1
    {
      hide ChainsOk, NamedOk, GroupsOk, ClausesKnown, Fresh, InfoOk, RefsAllocated;
      c := nextColumn;
      if !scanned {
        InfoNext(info, pending, owner, nextColumn);
        AllocatedLater(info, nextColumn, nextColumn + 1);
      }
      GroupsNext(chains, windowOf, groups, groupOf, keys, calls, nextColumn);
      nextColumn := nextColumn + 1;
    }

    /** From here on an OVER clause may not refer to a named window. */
    method DisableNamedWindowRefs()
      requires Valid()
      modifies this`namedDisabled
      ensures Valid() && namedDisabled
    {
      namedDisabled := true;
    }

    /** Flattens a window specification: fails on an unknown or conflicting reference,
        otherwise gives the flattening of its chain. */
    method Extract(w: Spec) returns (f: Option<FlattenedWindowInfo>)
      requires Valid()
      ensures var chain := ChainOf(named, chains, w);
              && f == (if chain != [] && Legal(chain) then Some(Flatten(chain)) else None)
              && (f.Some? <==> Linked(chain) && PartitionLast(chain) && OneEach(chain))
    {
      ghost var chain := ChainOf(named, chains, w);
      LegalIff(chain);
      if w.base.None? {
        return Some(Inline(w));
      }
      if w.base.value !in named {
        return None;
      }
      var referenced := named[w.base.value];
      assert chain[1..] == chains[referenced.spec.id];
      if Conflicts(w, referenced) {
        return None;
      }
      f := Some(Inherit(Inline(w), referenced));
    }

    /** Flattens the windows of a WINDOW clause, each of which may refer to windows
        before it. */
    method SetWindowClause(defs: seq<(string, Spec)>) returns (ok: bool)
      requires Valid() && named == map[]
      requires forall i :: 0 <= i < |defs| ==> defs[i].1.id !in chains
      requires forall i, j :: 0 <= i < j < |defs| ==> defs[i].1.id != defs[j].1.id
      modifies this`named, this`chains
      ensures Valid()
      ensures ok <==> forall i :: 0 <= i < |defs| ==> FirstOf(defs, i) && Legal(ChainAt(defs, i))
      ensures ok ==> forall i :: 0 <= i < |defs| ==> Defined(defs, i, named, chains)
      ensures forall n :: n in named ==> exists i :: 0 <= i < |defs| && defs[i].0 == n
    {
      hide ChainsOk, NamedOk, GroupsOk, ClausesKnown, InfoOk, Fresh, Legal, Flatten, ChainAt, ChainOf, FirstOf,
           RefsAllocated;
      for k := 0 to |defs|
        invariant Valid()
        invariant forall i :: 0 <= i < k ==>
                    FirstOf(defs, i) && Legal(ChainAt(defs, i)) && Defined(defs, i, named, chains)
        invariant forall n :: n in named ==> exists i :: 0 <= i < k && defs[i].0 == n
        invariant forall i :: k <= i < |defs| ==> defs[i].1.id !in chains
      {
        var (name, w) := defs[k];
        NamedAt(defs, k, named, chains);
        LegalNonEmpty(ChainAt(defs, k));
        if name in named {
          return false;
        }
        var f := Extract(w);
        if f.None? {
          return false;
        }
        ghost var chain := ChainAt(defs, k);
        ChainTail(named, chains, w);
        ChainAdded(chains, w, chain);
        NamedMore(named, chains, w.id, chain, name, f.value);
        GroupsMore(chains, windowOf, groups, groupOf, keys, calls, nextColumn, w.id, chain);
        DefinedMore(defs, k, named, chains, f.value, named[name := f.value], chains[w.id := chain]);
        chains := chains[w.id := chain];
        named := named[name := f.value];
      }
      ok := true;
    }

    /** Resolves the expressions of a clause once. */
    method ResolveClauseExprs(clause: nat, exprs: nat -> Option<seq<WindowExpr>>) returns (ok: bool)
      requires Valid() && !scanned
      requires exprs(clause).Some? ==> ExprsAllocated(exprs(clause).value, nextColumn)
      modifies this`info
      ensures Valid() && ok == (clause in old(info) || exprs(clause).Some?) && (ok ==> clause in info)
      ensures forall cl :: cl in info ==> cl in old(info) || cl == clause
      ensures InfoFrom(old(info), info, exprs)
    {
      hide ChainsOk, NamedOk, GroupsOk, InfoOk, Fresh, RefsAllocated;
      if clause in info {
        return true;
      }
      var es := exprs(clause);
      if es.None? {
        return false;
      }
      var infos := Unresolved(es.value);
      InfoMore(info, pending, owner, nextColumn, clause, infos);
      AllocatedMore(info, nextColumn, clause, infos);
      info := info[clause := infos];
      ok := true;
    }

    /** Flattens the window of an OVER clause and resolves its clauses and its frame. */
    method ResolveWindow(w: Spec, supported: FlattenedWindowInfo -> bool, exprs: nat -> Option<seq<WindowExpr>>,
                         framed: FlattenedWindowInfo -> bool)
        returns (f: Option<FlattenedWindowInfo>)
      requires Valid() && !scanned
      requires forall cl :: exprs(cl).Some? ==> ExprsAllocated(exprs(cl).value, nextColumn)
      modifies this`info
      ensures Valid() && InfoFrom(old(info), info, exprs)
      ensures var chain := ChainOf(named, chains, w);
              if CanResolve(chain, w.base.Some? && namedDisabled, supported, exprs, framed, old(info)) then
                f == Some(Flatten(chain)) && ClausesKnown([Group(f.value.partition, f.value.order, [])], info)
              else f.None?
    {
      hide ChainsOk, NamedOk, GroupsOk, InfoOk, Fresh, Legal, Flatten, ChainOf, RefsAllocated;
      if w.base.Some? && namedDisabled {
        return None;
      }
      f := Extract(w);
      if f.None? || !supported(f.value) {
        return None;
      }
      if f.value.partition.Some? {
        var ok := ResolveClauseExprs(f.value.partition.value, exprs);
        if !ok {
          return None;
        }
      }
      if f.value.order.Some? {
        var ok := ResolveClauseExprs(f.value.order.value, exprs);
        if !ok {
          return None;
        }
      }
      if !framed(f.value) {
        return None;
      }
    }

    /** Puts a column into the group of its grouping window, which has its clauses. */
    method AddToGroup(f: FlattenedWindowInfo, c: nat, ghost id: nat)
      requires ChainsOk(chains) && id in chains && chains[id] != [] && f == Flatten(chains[id])
      requires GroupsOk(chains, windowOf, groups, groupOf, keys, calls, c)
      requires ClausesKnown(groups, info) && ClausesKnown([Group(f.partition, f.order, [])], info)
      modifies this`groups, this`groupOf, this`keys
      ensures GroupsOk(chains, windowOf[c := id], groups, groupOf, keys, calls + [c], c + 1)
      ensures ClausesKnown(groups, info)
    {
      hide ChainsOk, GroupsOk, Flatten, ClausesKnown;
      if f.grouping in groupOf {
        var i := groupOf[f.grouping];
        JoinGroup(chains, windowOf, groups, groupOf, keys, calls, id, f, c);
        ClausesJoin(groups, info, i, c);
        groups := groups[i := groups[i].(columns := groups[i].columns + [c])];
      } else {
        NewGroup(chains, windowOf, groups, groupOf, keys, calls, id, f, c);
        ClausesNew(groups, info, f.partition, f.order, c);
        groupOf := groupOf[f.grouping := |groups|];
        groups := groups + [Group(f.partition, f.order, [c])];
        keys := keys + [f.grouping];
      }
    }

    /** Resolves an OVER clause: the call gets a column of its own, which joins the
        group of the grouping window of its window. */
    method ResolveOverClause(w: Spec, supported: FlattenedWindowInfo -> bool, exprs: nat -> Option<seq<WindowExpr>>,
                             framed: FlattenedWindowInfo -> bool)
        returns (column: Option<nat>)
      requires Valid() && !scanned && w.id !in chains
      requires forall cl :: exprs(cl).Some? ==> ExprsAllocated(exprs(cl).value, nextColumn)
      modifies this`info, this`nextColumn, this`groups, this`groupOf, this`chains, this`keys, this`windowOf, this`calls
      ensures Valid() && InfoFrom(old(info), info, exprs)
      ensures column.Some? <==>
                CanResolve(ChainOf(named, old(chains), w), w.base.Some? && namedDisabled, supported, exprs, framed,
                           old(info))
      ensures column.Some? ==>
                && column.value == old(nextColumn) == nextColumn - 1 && calls == old(calls) + [column.value]
                && chains == old(chains)[w.id := ChainOf(named, old(chains), w)]
                && windowOf == old(windowOf)[column.value := w.id]
      ensures column.None? ==>
                calls == old(calls) && groups == old(groups) && chains == old(chains) && nextColumn == old(nextColumn)
    {
      hide ChainsOk, NamedOk, GroupsOk, InfoOk, Fresh, Legal, Flatten, ChainOf, ClausesKnown, RefsAllocated,
           CanResolve, InfoFrom, ExprsAllocated, Unresolved;
      var found := ResolveWindow(w, supported, exprs, framed);
      if found.None? {
        return None;
      }
      var f := found.value;
      var c := nextColumn;
      ghost var chain := ChainOf(named, chains, w);
      ResolvedLegal(chain, w.base.Some? && namedDisabled, supported, exprs, framed, old(info));
      WindowAdded(named, chains, w);
      GroupsMore(chains, windowOf, groups, groupOf, keys, calls, c, w.id, chain);
      chains := chains[w.id := chain];
      AddToGroup(f, c, w.id);
      InfoNext(info, pending, owner, c);
      AllocatedLater(info, c, c + 1);
      nextColumn := nextColumn + 1;
      windowOf := windowOf[c := w.id];
      calls := calls + [c];
      column := Some(c);
    }

    /** Gives every expression of a clause a column, unless it has one. */
    method ResolveClause(clause: nat) returns (refs: seq<nat>)
      requires clause in info && InfoOk(info, pending, owner, nextColumn)
      modifies this`info, this`pending, this`nextColumn, this`owner
      ensures InfoOk(info, pending, owner, nextColumn) && RefsOf(info, clause, refs)
      ensures Keeps(old(info), info) && info.Keys == old(info.Keys) && nextColumn >= old(nextColumn)
      ensures forall c :: c in owner ==> c in old(owner) || c >= old(nextColumn)
    {
      hide InfoOk, Keeps, Update;
      refs := [];
      KeepsItself(info);
      for i := 0 to |info[clause]|
        invariant InfoOk(info, pending, owner, nextColumn) && Keeps(old(info), info) && info.Keys == old(info.Keys)
        invariant |info[clause]| == |old(info[clause])| && |refs| == i
        invariant forall k :: 0 <= k < i ==> info[clause][k].column == Some(refs[k])
        invariant nextColumn >= old(nextColumn) && forall c :: c in owner ==> c in old(owner) || c >= old(nextColumn)
      {
        if info[clause][i].column.None? {
          ghost var known := info;
          AddColumn(clause, i);
          KeepsTransitive(old(info), known, info);
        }
        refs := refs + [info[clause][i].column.value];
      }
    }

    method AddColumn(clause: nat, i: nat)
      requires clause in info && i < |info[clause]| && info[clause][i].column.None?
      requires InfoOk(info, pending, owner, nextColumn)
      modifies this`info, this`pending, this`nextColumn, this`owner
      ensures InfoOk(info, pending, owner, nextColumn) && Keeps(old(info), info) && info.Keys == old(info.Keys)
      ensures nextColumn >= old(nextColumn) && forall c :: c in owner ==> c in old(owner) || c >= old(nextColumn)
      ensures |info[clause]| == |old(info[clause])| && info[clause][i].column.Some?
      ensures forall k :: 0 <= k < |info[clause]| && k != i ==> info[clause][k] == old(info[clause][k])
    {
      hide InfoOk, Keeps;
      match info[clause][i].expr {
        case Ref(c) =>
          GiveRef(info, pending, owner, nextColumn, clause, i);
          UpdateKeeps(info, clause, i, c);
          info := Update(info, clause, i, c);
        case Computed(e) =>
          GiveComputed(info, pending, owner, nextColumn, clause, i);
          UpdateKeeps(info, clause, i, nextColumn);
          info := Update(info, clause, i, nextColumn);
          pending := pending + [ComputedColumn(nextColumn, e)];
          owner := owner[nextColumn := (clause, i)];
          nextColumn := nextColumn + 1;
      }
    }

    /** Resolves the clauses of one group. */
    method ResolveGroup(g: Group) returns (r: ResolvedGroup)
      requires ClausesKnown([g], info) && InfoOk(info, pending, owner, nextColumn)
      modifies this`info, this`pending, this`nextColumn, this`owner
      ensures InfoOk(info, pending, owner, nextColumn) && GroupResolved(info, g, r)
      ensures Keeps(old(info), info) && info.Keys == old(info.Keys) && nextColumn >= old(nextColumn)
      ensures forall c :: c in owner ==> c in old(owner) || c >= old(nextColumn)
    {
      hide InfoOk, Keeps, RefsOf;
      assert [g][0] == g;
      r := ResolvedGroup(None, None, g.columns);
      KeepsItself(info);
      if g.partition.Some? {
        var refs := ResolveClause(g.partition.value);
        r := r.(partition := Some(refs));
      }
      ghost var between := info;
      KeepsItself(info);
      if g.order.Some? {
        var refs := ResolveClause(g.order.value);
        r := r.(order := Some(refs));
      }
      KeepsTransitive(old(info), between, info);
      if g.partition.Some? {
        RefsKept(between, info, g.partition.value, r.partition.value);
      }
    }

    /** Builds the scan over all groups. Its output is the input and, once each, the
        columns of all calls. The partitioning and ordering references of a group are
        to columns of the input or to the computed columns that the wrapper around the
        input provides, if and only if each bare reference in its clauses is to a column
        of the input. No two expressions share a computed column. */
    method CreateAnalyticScan(input: seq<nat>)
        returns (output: seq<nat>, wrapper: seq<ComputedColumn>, resolved: seq<ResolvedGroup>)
      requires Valid() && !scanned && groups != []
      requires forall c :: c in input ==> c < nextColumn && c !in calls
      modifies this
      ensures Valid() && scanned && pending == [] && groups == old(groups) && calls == old(calls)
      ensures output == input + AllColumns(groups) && multiset(output) == multiset(input) + multiset(calls)
      ensures |resolved| == |groups| && forall i :: 0 <= i < |groups| ==> GroupResolved(info, groups[i], resolved[i])
      ensures forall i :: 0 <= i < |groups| ==>
                (GroupRefsKnown(resolved[i], input, wrapper) <==> GroupInInput(old(info), groups[i], input))
      ensures InfoOk(info, wrapper, owner, nextColumn) && Keeps(old(info), info)
      ensures forall k :: 0 <= k < |wrapper| ==> wrapper[k].column !in input && wrapper[k].column !in calls
    {
      hide ChainsOk, NamedOk, GroupsOk, ClausesKnown, InfoOk, Keeps, RefsAllocated, GroupResolved, AllColumns,
           GroupRefsKnown, GroupInInput, Fresh;
      output, resolved := input, [];
      KeepsItself(info);
      ghost var start, before := nextColumn, info;
      NoOwners(info, pending, owner, nextColumn);
      NoGroups(groups);
      for i := 0 to |groups|
        invariant unchanged(this`chains, this`named, this`groups, this`groupOf, this`keys, this`windowOf, this`calls)
        invariant InfoOk(info, pending, owner, nextColumn) && Keeps(before, info) && info.Keys == before.Keys
        invariant nextColumn >= start && forall c :: c in owner ==> c >= start
        invariant output == input + AllColumns(groups[..i])
        invariant |resolved| == i && forall k :: 0 <= k < i ==> GroupResolved(info, groups[k], resolved[k])
      {
        ghost var known := info;
        ClauseAt(groups, before, info, i);
        var r := ResolveGroup(groups[i]);
        KeepsTransitive(before, known, info);
        forall k | 0 <= k < i
          ensures GroupResolved(info, groups[k], resolved[k])
        {
          GroupResolvedKept(known, info, groups[k], resolved[k]);
        }
        resolved := resolved + [r];
        OutputStep(input, groups, i);
        output := output + groups[i].columns;
      }
      assert groups[..|groups|] == groups;
      forall i | 0 <= i < |groups|
        ensures GroupRefsKnown(resolved[i], input, pending) <==> GroupInInput(before, groups[i], input)
      {
        ClauseAt(groups, before, before, i);
        ResolvedKnown(before, start, info, pending, owner, nextColumn, input, groups[i], resolved[i]);
      }
      WrapperFresh(chains, windowOf, groups, groupOf, keys, calls, start, info, pending, owner, nextColumn);
      GroupsLater(chains, windowOf, groups, groupOf, keys, calls, start, nextColumn);
      ClausesKept(groups, before, info);
      wrapper := pending;
      pending := [];
      scanned := true;
    }
  }

  /** An OVER clause with this chain is accepted: the function supports the window, the
      expressions of its clauses can be resolved, and then its frame and the call pass
      their checks. */
  ghost predicate CanResolve(chain: seq<Spec>, disabled: bool, supported: FlattenedWindowInfo -> bool,
                             exprs: nat -> Option<seq<WindowExpr>>, framed: FlattenedWindowInfo -> bool,
                             info: ClauseInfo) {
    && !disabled && chain != [] && Legal(chain)
    && var f := Flatten(chain);
    && supported(f) && framed(f)
    && (f.partition.Some? ==> f.partition.value in info || exprs(f.partition.value).Some?)
    && (f.order.Some? ==> f.order.value in info || exprs(f.order.value).Some?)
  }

  lemma ResolvedLegal(chain: seq<Spec>, disabled: bool, supported: FlattenedWindowInfo -> bool,
                      exprs: nat -> Option<seq<WindowExpr>>, framed: FlattenedWindowInfo -> bool, info: ClauseInfo)
    requires CanResolve(chain, disabled, supported, exprs, framed, info)
    ensures chain != [] && Legal(chain)
  {
  }

  /** No window expression has been given a column. */
  ghost predicate Fresh(info: ClauseInfo) {
    forall p: Place :: At(info, p) ==> info[p.0][p.1].column.None?
  }

  // ----- The WINDOW clause -----

  /** The last definition of `name` among the first `n`. */
  function LastDefinition(defs: seq<(string, Spec)>, n: nat, name: string): (j: Option<nat>)
    requires n <= |defs|
    ensures j.Some? ==> j.value < n && defs[j.value].0 == name
    ensures j.None? ==> forall i :: 0 <= i < n ==> defs[i].0 != name
  {
    if n == 0 then None else if defs[n - 1].0 == name then Some(n - 1) else LastDefinition(defs, n - 1, name)
  }

  /** Definition `k` does not repeat a name. */
  predicate FirstOf(defs: seq<(string, Spec)>, k: nat)
    requires k < |defs|
  {
    LastDefinition(defs, k, defs[k].0).None?
  }

  /** The chain of the `k`-th definition: itself, then what it refers to among the
      definitions before it; empty when there is no such definition. */
  function ChainAt(defs: seq<(string, Spec)>, k: nat): seq<Spec>
    requires k < |defs|
  {
    var w := defs[k].1;
    if w.base.None? then [w]
    else
      var j := LastDefinition(defs, k, w.base.value);
      if j.None? then [] else [w] + ChainAt(defs, j.value)
  }

  ghost predicate Defined(defs: seq<(string, Spec)>, i: nat, named: map<string, FlattenedWindowInfo>,
                          chains: map<nat, seq<Spec>>)
    requires i < |defs|
  {
    && defs[i].0 in named && ChainAt(defs, i) != []
    && named[defs[i].0] == Flatten(ChainAt(defs, i)) && named[defs[i].0].spec == defs[i].1
    && defs[i].1.id in chains && chains[defs[i].1.id] == ChainAt(defs, i)
  }

  /** The windows known so far agree with the definitions before the `k`-th. */
  lemma NamedAt(defs: seq<(string, Spec)>, k: nat, named: map<string, FlattenedWindowInfo>, chains: map<nat, seq<Spec>>)
    requires k < |defs| && NamedOk(named, chains)
    requires forall i :: 0 <= i < k ==> Defined(defs, i, named, chains)
    requires forall n :: n in named ==> exists i :: 0 <= i < k && defs[i].0 == n
    ensures ChainOf(named, chains, defs[k].1) == ChainAt(defs, k)
    ensures defs[k].0 in named <==> !FirstOf(defs, k)
  {
    hide Flatten;
    var w := defs[k].1;
    if w.base.Some? {
      var j := LastDefinition(defs, k, w.base.value);
      if j.Some? {
        assert Defined(defs, j.value, named, chains);
      }
    }
    var d := LastDefinition(defs, k, defs[k].0);
    if d.Some? {
      assert Defined(defs, d.value, named, chains);
    }
  }

  lemma LegalNonEmpty(chain: seq<Spec>)
    ensures Legal(chain) ==> chain != []
  {
  }

  lemma DefinedMore(defs: seq<(string, Spec)>, k: nat, named: map<string, FlattenedWindowInfo>,
                    chains: map<nat, seq<Spec>>,
                    f: FlattenedWindowInfo, named': map<string, FlattenedWindowInfo>, chains': map<nat, seq<Spec>>)
    requires k < |defs| && defs[k].0 !in named && defs[k].1.id !in chains
    requires named' == named[defs[k].0 := f] && chains' == chains[defs[k].1.id := ChainAt(defs, k)]
    requires ChainAt(defs, k) != [] && f == Flatten(ChainAt(defs, k)) && f.spec == defs[k].1
    requires forall i :: 0 <= i < k ==> Defined(defs, i, named, chains)
    ensures forall i :: 0 <= i <= k ==> Defined(defs, i, named', chains')
  {
    hide Flatten, ChainAt;
    forall i | 0 <= i < k
      ensures Defined(defs, i, named', chains')
    {
      assert Defined(defs, i, named, chains);
    }
  }

  lemma ChainTail(named: map<string, FlattenedWindowInfo>, chains: map<nat, seq<Spec>>, w: Spec)
    requires ChainsOk(chains) && NamedOk(named, chains)
    ensures var chain := ChainOf(named, chains, w);
            && (chain != [] ==> chain[0] == w && Flatten(chain).spec == w)
            && (|chain| > 1 ==> chain[1].id in chains && chains[chain[1].id] == chain[1..])
  {
    hide Legal;
    var chain := ChainOf(named, chains, w);
    if chain != [] && w.base.Some? {
      var rest := chains[named[w.base.value].spec.id];
      assert chain[1..] == rest;
      assert ChainFrom(chains, rest, 0);
    }
    FlattenSpec(chain);
  }

  lemma WindowAdded(named: map<string, FlattenedWindowInfo>, chains: map<nat, seq<Spec>>, w: Spec)
    requires ChainsOk(chains) && NamedOk(named, chains) && w.id !in chains
    requires ChainOf(named, chains, w) != [] && Legal(ChainOf(named, chains, w))
    ensures var more := chains[w.id := ChainOf(named, chains, w)];
            ChainsOk(more) && NamedOk(named, more)
  {
    hide Legal, Flatten, ChainOf, ChainsOk, NamedOk;
    var chain := ChainOf(named, chains, w);
    ChainTail(named, chains, w);
    ChainAdded(chains, w, chain);
    NamedKept(named, chains, w.id, chain);
  }

  lemma FlattenSpec(chain: seq<Spec>)
    ensures chain != [] ==> Flatten(chain).spec == chain[0]
  {
  }

  lemma NamedKept(named: map<string, FlattenedWindowInfo>, chains: map<nat, seq<Spec>>, id: nat, chain: seq<Spec>)
    requires NamedOk(named, chains) && id !in chains
    ensures NamedOk(named, chains[id := chain])
  {
    hide Flatten;
  }

  lemma NamedMore(named: map<string, FlattenedWindowInfo>, chains: map<nat, seq<Spec>>, id: nat, chain: seq<Spec>,
                  name: string, f: FlattenedWindowInfo)
    requires NamedOk(named, chains) && id !in chains && chain != [] && f == Flatten(chain) && f.spec.id == id
    ensures NamedOk(named[name := f], chains[id := chain])
  {
    hide Flatten;
  }

  // ----- Joining groups -----

  lemma CallsMore(chains: map<nat, seq<Spec>>, windowOf: CallWindows, groups: seq<Group>, keys: seq<Option<nat>>,
                  id: nat, chain: seq<Spec>)
    requires CallsOk(chains, windowOf, groups, keys) && id !in chains
    ensures CallsOk(chains[id := chain], windowOf, groups, keys)
  {
    hide Flatten;
    forall g, k | 0 <= g < |groups| && 0 <= k < |groups[g].columns|
      ensures CallIn(chains[id := chain], windowOf, groups[g], keys[g], groups[g].columns[k])
    {
      assert CallIn(chains, windowOf, groups[g], keys[g], groups[g].columns[k]);
    }
  }

  lemma ClausesJoin(groups: seq<Group>, info: ClauseInfo, i: nat, c: nat)
    requires ClausesKnown(groups, info) && i < |groups|
    ensures ClausesKnown(groups[i := groups[i].(columns := groups[i].columns + [c])], info)
  {
  }

  lemma ClausesNew(groups: seq<Group>, info: ClauseInfo, partition: Option<nat>, order: Option<nat>, c: nat)
    requires ClausesKnown(groups, info) && ClausesKnown([Group(partition, order, [])], info)
    ensures ClausesKnown(groups + [Group(partition, order, [c])], info)
  {
    assert [Group(partition, order, [])][0].partition == partition && [Group(partition, order, [])][0].order == order;
  }

  lemma GroupsMore(chains: map<nat, seq<Spec>>, windowOf: CallWindows, groups: seq<Group>,
                   groupOf: map<Option<nat>, nat>,
                   keys: seq<Option<nat>>, calls: seq<nat>, next: nat, id: nat, chain: seq<Spec>)
    requires GroupsOk(chains, windowOf, groups, groupOf, keys, calls, next) && id !in chains
    ensures GroupsOk(chains[id := chain], windowOf, groups, groupOf, keys, calls, next)
  {
    hide CallsOk, KeysOk, AllColumns, Distinct;
    CallsMore(chains, windowOf, groups, keys, id, chain);
  }

  lemma GroupsNext(chains: map<nat, seq<Spec>>, windowOf: CallWindows, groups: seq<Group>,
                   groupOf: map<Option<nat>, nat>,
                   keys: seq<Option<nat>>, calls: seq<nat>, next: nat)
    requires GroupsOk(chains, windowOf, groups, groupOf, keys, calls, next)
    ensures GroupsOk(chains, windowOf, groups, groupOf, keys, calls, next + 1)
  {
    hide CallsOk, KeysOk, AllColumns, Distinct;
  }

  lemma InfoMore(info: ClauseInfo, pending: seq<ComputedColumn>, owner: map<nat, Place>, next: nat, cl: nat,
                 infos: seq<WindowExprInfo>)
    requires InfoOk(info, pending, owner, next) && Fresh(info) && cl !in info
    requires forall i :: 0 <= i < |infos| ==> infos[i].column.None?
    ensures InfoOk(info[cl := infos], pending, owner, next) && Fresh(info[cl := infos])
  {
    hide ColumnsOf, Distinct;
    var more := info[cl := infos];
    forall p: Place | At(more, p)
      ensures more[p.0][p.1].column.None?
    {
      if p.0 != cl { assert At(info, p); }
    }
  }

  lemma InfoNext(info: ClauseInfo, pending: seq<ComputedColumn>, owner: map<nat, Place>, next: nat)
    requires InfoOk(info, pending, owner, next)
    ensures InfoOk(info, pending, owner, next + 1)
  {
  }

  lemma CallAdded(calls: seq<nat>, c: nat)
    requires Distinct(calls) && forall x :: x in calls ==> x < c
    ensures Distinct(calls + [c])
  {
    forall i | 0 <= i < |calls|
      ensures calls[i] < c
    {
      assert calls[i] in calls;
    }
  }

  lemma JoinGroup(chains: map<nat, seq<Spec>>, windowOf: CallWindows, groups: seq<Group>,
                  groupOf: map<Option<nat>, nat>,
                  keys: seq<Option<nat>>, calls: seq<nat>, id: nat, f: FlattenedWindowInfo, c: nat)
    requires ChainsOk(chains) && GroupsOk(chains, windowOf, groups, groupOf, keys, calls, c)
    requires id in chains && chains[id] != [] && f == Flatten(chains[id]) && f.grouping in groupOf
    ensures groupOf[f.grouping] < |groups| && groups[groupOf[f.grouping]].partition == f.partition
    ensures groups[groupOf[f.grouping]].order == f.order
    ensures var i := groupOf[f.grouping];
            var more := groups[i := groups[i].(columns := groups[i].columns + [c])];
            GroupsOk(chains, windowOf[c := id], more, groupOf, keys, calls + [c], c + 1)
  {
    hide Flatten, ChainsOk, Distinct, AllColumns;
    CallAdded(calls, c);
    var i := groupOf[f.grouping];
    var more := groups[i := groups[i].(columns := groups[i].columns + [c])];
    AllColumnsUpdate(groups, i, c);
    var first := groups[i].columns[0];
    assert CallIn(chains, windowOf, groups[i], keys[i], first);
    SameGroupingSameClauses(chains, windowOf[first], id);
    forall g, k | 0 <= g < |more| && 0 <= k < |more[g].columns|
      ensures CallIn(chains, windowOf[c := id], more[g], keys[g], more[g].columns[k])
    {
      if k < |groups[g].columns| {
        OldCall(chains, windowOf, groups, keys, calls, id, c, g, k);
      }
    }
  }

  /** An earlier call is not affected by a new one. */
  lemma OldCall(chains: map<nat, seq<Spec>>, windowOf: CallWindows, groups: seq<Group>, keys: seq<Option<nat>>,
                calls: seq<nat>, id: nat, c: nat, g: nat, k: nat)
    requires CallsOk(chains, windowOf, groups, keys) && g < |groups| && k < |groups[g].columns|
    requires multiset(AllColumns(groups)) == multiset(calls) && forall x :: x in calls ==> x < c
    ensures groups[g].columns[k] != c
    ensures CallIn(chains, windowOf[c := id], groups[g], keys[g], groups[g].columns[k])
  {
    hide Flatten, AllColumns;
    var x := groups[g].columns[k];
    assert CallIn(chains, windowOf, groups[g], keys[g], x);
    AllColumnsMember(groups, g, k);
    assert x in multiset(AllColumns(groups));
    assert x in calls;
  }

  lemma NewGroup(chains: map<nat, seq<Spec>>, windowOf: CallWindows, groups: seq<Group>, groupOf: map<Option<nat>, nat>,
                 keys: seq<Option<nat>>, calls: seq<nat>, id: nat, f: FlattenedWindowInfo, c: nat)
    requires GroupsOk(chains, windowOf, groups, groupOf, keys, calls, c)
    requires id in chains && chains[id] != [] && f == Flatten(chains[id]) && f.grouping !in groupOf
    ensures var more := groups + [Group(f.partition, f.order, [c])];
            GroupsOk(chains, windowOf[c := id], more, groupOf[f.grouping := |groups|], keys + [f.grouping],
                     calls + [c], c + 1)
  {
    hide Flatten, AllColumns, Distinct;
    CallAdded(calls, c);
    var group := Group(f.partition, f.order, [c]);
    AllColumnsAppend(groups, group);
    var more := groups + [group];
    forall g, k | 0 <= g < |more| && 0 <= k < |more[g].columns|
      ensures CallIn(chains, windowOf[c := id], more[g], (keys + [f.grouping])[g], more[g].columns[k])
    {
      if g < |groups| {
        OldCall(chains, windowOf, groups, keys, calls, id, c, g, k);
      }
    }
  }

  // ----- Building the scan -----

  lemma KeepsItself(info: ClauseInfo)
    ensures Keeps(info, info)
  {
  }

  ghost predicate GroupRefsKnown(r: ResolvedGroup, input: seq<nat>, wrapper: seq<ComputedColumn>) {
    && (r.partition.Some? ==> RefsKnown(r.partition.value, input, wrapper))
    && (r.order.Some? ==> RefsKnown(r.order.value, input, wrapper))
  }

  lemma ClauseAt(groups: seq<Group>, before: ClauseInfo, info: ClauseInfo, i: nat)
    requires ClausesKnown(groups, before) && before.Keys == info.Keys && i < |groups|
    ensures ClausesKnown([groups[i]], info)
  {
  }

  lemma OutputStep(input: seq<nat>, groups: seq<Group>, i: nat)
    requires i < |groups|
    ensures input + AllColumns(groups[..i + 1]) == input + AllColumns(groups[..i]) + groups[i].columns
  {
    assert groups[..i + 1][..i] == groups[..i];
  }

  lemma NoOwners(info: ClauseInfo, pending: seq<ComputedColumn>, owner: map<nat, Place>, next: nat)
    requires InfoOk(info, pending, owner, next) && Fresh(info)
    ensures forall c :: c !in owner
  {
  }

  lemma NoGroups(groups: seq<Group>)
    ensures AllColumns(groups[..0]) == []
  {
  }

  lemma ResolvedKnown(before: ClauseInfo, start: nat, info: ClauseInfo, pending: seq<ComputedColumn>,
                      owner: map<nat, Place>, next: nat, input: seq<nat>, g: Group, r: ResolvedGroup)
    requires InfoOk(info, pending, owner, next) && GroupResolved(info, g, r) && Keeps(before, info)
    requires ClausesKnown([g], before) && RefsAllocated(before, start) && forall c :: c in owner ==> c >= start
    ensures GroupRefsKnown(r, input, pending) <==> GroupInInput(before, g, input)
  {
    hide InfoOk, RefsAllocated, RefsOf, RefsKnown, Keeps, ClauseInInput;
    assert [g][0] == g;
    if g.partition.Some? {
      ClauseRefsKnown(before, start, info, pending, owner, next, input, g.partition.value, r.partition.value);
    }
    if g.order.Some? {
      ClauseRefsKnown(before, start, info, pending, owner, next, input, g.order.value, r.order.value);
    }
  }

  lemma WrapperFresh(chains: map<nat, seq<Spec>>, windowOf: CallWindows, groups: seq<Group>,
                     groupOf: map<Option<nat>, nat>,
                     keys: seq<Option<nat>>, calls: seq<nat>, start: nat,
                     info: ClauseInfo, pending: seq<ComputedColumn>, owner: map<nat, Place>, next: nat)
    requires GroupsOk(chains, windowOf, groups, groupOf, keys, calls, start)
    requires InfoOk(info, pending, owner, next) && forall c :: c in owner ==> c >= start
    ensures multiset(AllColumns(groups)) == multiset(calls)
    ensures forall k :: 0 <= k < |pending| ==> pending[k].column >= start && pending[k].column !in calls
  {
    hide CallsOk, KeysOk, AllColumns, Distinct;
  }

  lemma GroupsLater(chains: map<nat, seq<Spec>>, windowOf: CallWindows, groups: seq<Group>,
                    groupOf: map<Option<nat>, nat>,
                    keys: seq<Option<nat>>, calls: seq<nat>, next: nat, later: nat)
    requires GroupsOk(chains, windowOf, groups, groupOf, keys, calls, next) && next <= later
    ensures GroupsOk(chains, windowOf, groups, groupOf, keys, calls, later)
  {
    hide CallsOk, KeysOk, AllColumns, Distinct;
  }

  lemma ClausesKept(groups: seq<Group>, before: ClauseInfo, info: ClauseInfo)
    requires ClausesKnown(groups, before) && before.Keys == info.Keys
    ensures ClausesKnown(groups, info)
  {
  }

  /** In every state, two calls are in the same group exactly when their windows have
      the same grouping window. */
  lemma SameGroupIffSameGrouping(chains: map<nat, seq<Spec>>, windowOf: CallWindows, groups: seq<Group>,
                                 groupOf: map<Option<nat>, nat>,
                                 keys: seq<Option<nat>>, calls: seq<nat>, next: nat, g1: nat, k1: nat, g2: nat, k2: nat)
    requires GroupsOk(chains, windowOf, groups, groupOf, keys, calls, next)
    requires g1 < |groups| && k1 < |groups[g1].columns| && g2 < |groups| && k2 < |groups[g2].columns|
    ensures var c1, c2 := groups[g1].columns[k1], groups[g2].columns[k2];
            && CallIn(chains, windowOf, groups[g1], keys[g1], c1) && CallIn(chains, windowOf, groups[g2], keys[g2], c2)
            && (g1 == g2 <==> Flatten(chains[windowOf[c1]]).grouping == Flatten(chains[windowOf[c2]]).grouping)
  {
    hide Flatten, AllColumns, Distinct;
    assert CallIn(chains, windowOf, groups[g1], keys[g1], groups[g1].columns[k1]);
    assert CallIn(chains, windowOf, groups[g2], keys[g2], groups[g2].columns[k2]);
  }

  /** In every state each call is in one place of one group. */
  lemma OneGroupPerCall(chains: map<nat, seq<Spec>>, windowOf: CallWindows, groups: seq<Group>,
                        groupOf: map<Option<nat>, nat>,
                        keys: seq<Option<nat>>, calls: seq<nat>, next: nat, c: nat)
    requires GroupsOk(chains, windowOf, groups, groupOf, keys, calls, next)
    ensures multiset(AllColumns(groups))[c] == if c in calls then 1 else 0
  {
    hide CallsOk, KeysOk, AllColumns;
    DistinctOnce(calls, c);
  }

  // ----- A correlated reference -----

  const OUTER: Spec := Spec(0, None, Some(7), None, None)

  /** The expressions of `PARTITION BY outer_key`, a column of the enclosing query. */
  function OuterKey(column: nat): nat -> Option<seq<WindowExpr>> {
    clause => Some([Ref(column)])
  }

  /** A single call with one bare reference to partition by. */
  lemma OneCall(chains: map<nat, seq<Spec>>, windowOf: CallWindows, groups: seq<Group>, groupOf: map<Option<nat>, nat>,
                keys: seq<Option<nat>>, column: nat, next: nat, info: ClauseInfo, outerKey: nat, input: seq<nat>)
    requires GroupsOk(chains, windowOf, groups, groupOf, keys, [column], next) && ClausesKnown(groups, info)
    requires column in windowOf && windowOf[column] in chains && chains[windowOf[column]] == [OUTER]
    requires InfoFrom(map[], info, OuterKey(outerKey)) && outerKey !in input
    ensures groups != [] && !GroupInInput(info, groups[0], input)
  {
    assert column in multiset([column]);
    assert groups != [];
    assert groups[0].columns != [];
    AllColumnsMember(groups, 0, 0);
    assert groups[0].columns[0] in multiset(AllColumns(groups));
    assert CallIn(chains, windowOf, groups[0], keys[0], groups[0].columns[0]);
    assert info[7] == Unresolved([Ref(outerKey)]);
    assert info[7][0].expr == Ref(outerKey);
  }

  /** `f() OVER (PARTITION BY outer_key)` in a subquery: the reference of the resolved
      group is neither to the input of the scan nor to the wrapper. */
  method CorrelatedReference() returns (input: seq<nat>, wrapper: seq<ComputedColumn>, resolved: seq<ResolvedGroup>)
    ensures resolved != [] && !GroupRefsKnown(resolved[0], input, wrapper)
  {
    hide ChainsOk, NamedOk, GroupsOk, ClausesKnown, InfoOk, Fresh, RefsAllocated, InfoFrom, GroupRefsKnown,
         GroupInInput,
         GroupResolved, Keeps, AllColumns;
    var resolver := new AnalyticFunctionResolver();
    var outerKey := resolver.AllocateColumnId();
    var key := resolver.AllocateColumnId();
    var ok := (f: FlattenedWindowInfo) => true;
    assert CanResolve([OUTER], false, ok, OuterKey(outerKey), ok, map[]);
    var column := resolver.ResolveOverClause(OUTER, ok, OuterKey(outerKey), ok);
    assert resolver.chains[0] == [OUTER] && resolver.calls == [column.value];
    input := [key];
    OneCall(resolver.chains, resolver.windowOf, resolver.groups, resolver.groupOf, resolver.keys, column.value,
            resolver.nextColumn, resolver.info, outerKey, input);
    var output;
    output, wrapper, resolved := resolver.CreateAnalyticScan(input);
  }
}
