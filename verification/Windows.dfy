/** Window specifications and their flattening along chains of named windows.
 */
module Windows {
  import opened Types

  /** A window specification; `id` stands for its syntax node, and the clauses are
      given by theirs. */
  datatype Spec = Spec(id: nat, base: Option<string>, partition: Option<nat>, order: Option<nat>, frame: Option<nat>)

  /** The inline and inherited clauses of a window. `grouping` is the window that
      identifies the group of functions with the same PARTITION BY and ORDER BY. */
  datatype FlattenedWindowInfo = FlattenedWindowInfo(
    spec: Spec, partition: Option<nat>, order: Option<nat>, frame: Option<nat>, grouping: Option<nat>)

  function Inline(w: Spec): FlattenedWindowInfo {
    FlattenedWindowInfo(w, w.partition, w.order, w.frame,
                        if w.partition.Some? || w.order.Some? then Some(w.id) else None)
  }

  /** The rules of the SQL standard for a window that refers to another. */
  predicate Conflicts(w: Spec, referenced: FlattenedWindowInfo) {
    || w.partition.Some?
    || ((w.order.Some? || w.frame.Some?) && referenced.frame.Some?)
    || (w.order.Some? && referenced.order.Some?)
  }

  function Inherit(f: FlattenedWindowInfo, referenced: FlattenedWindowInfo): FlattenedWindowInfo {
    f.(grouping := if f.partition.None? && f.order.None? then referenced.grouping else f.grouping,
       partition := if f.partition.None? then referenced.partition else f.partition,
       order := if f.order.None? then referenced.order else f.order,
       frame := if f.frame.None? then referenced.frame else f.frame)
  }

  // ----- Chains -----

  /** A window, the window it refers to, and so on. */
  function Flatten(chain: seq<Spec>): FlattenedWindowInfo
    requires chain != []
  {
    if |chain| == 1 then Inline(chain[0]) else Inherit(Inline(chain[0]), Flatten(chain[1..]))
  }

  predicate Legal(chain: seq<Spec>) {
    && chain != []
    && (|chain| == 1 ==> chain[0].base.None?)
    && (|chain| > 1 ==> chain[0].base.Some? && Legal(chain[1..]) && !Conflicts(chain[0], Flatten(chain[1..])))
  }

  /** At most the last window of a chain partitions. */
  ghost predicate PartitionLast(chain: seq<Spec>) {
    forall i :: 0 <= i < |chain| - 1 ==> chain[i].partition.None?
  }

  /** At most one window orders, at most one has a frame, and no window before the
      one with the frame orders. */
  ghost predicate OneEach(chain: seq<Spec>) {
    forall i, j :: 0 <= i < j < |chain| ==>
      && !(chain[i].order.Some? && chain[j].order.Some?)
      && !((chain[i].frame.Some? || chain[i].order.Some?) && chain[j].frame.Some?)
  }

  lemma SuffixAt(chain: seq<Spec>, i: nat)
    requires 1 <= i < |chain|
    ensures chain[1..][i - 1] == chain[i] && chain[1..][i - 1..] == chain[i..]
  {
  }

  /** What a flattened clause says about the windows of the chain. */
  ghost predicate Inherited(chain: seq<Spec>) {
    && chain != []
    && var f := Flatten(chain);
    && (f.partition.None? <==> forall i :: 0 <= i < |chain| ==> chain[i].partition.None?)
    && (f.order.None? <==> forall i :: 0 <= i < |chain| ==> chain[i].order.None?)
    && (f.frame.None? <==> forall i :: 0 <= i < |chain| ==> chain[i].frame.None?)
    && (forall i :: 0 <= i < |chain| && chain[i].partition.Some? ==> f.partition == chain[i].partition)
    && (forall i :: 0 <= i < |chain| && chain[i].order.Some? ==> f.order == chain[i].order)
    && (forall i :: 0 <= i < |chain| && chain[i].frame.Some? ==> f.frame == chain[i].frame)
  }

  /** In a legal chain each clause comes from at most one window, which is the one
      that the flattened clause is taken from: PARTITION BY from the last window,
      then ORDER BY, then the frame on the way to the first. */
  lemma {:induction false} EachClauseOnce(chain: seq<Spec>)
    requires Legal(chain)
    ensures PartitionLast(chain) && OneEach(chain) && Inherited(chain)
    decreases |chain|
  {
    if |chain| > 1 {
      var rest := chain[1..];
      EachClauseOnce(rest);
      forall i | 1 <= i < |chain|
        ensures rest[i - 1] == chain[i]
      {
        SuffixAt(chain, i);
      }
      ChainStep(chain, rest);
    }
  }

  lemma ChainStep(chain: seq<Spec>, rest: seq<Spec>)
    requires |chain| > 1 && rest == chain[1..] && (forall i :: 1 <= i < |chain| ==> rest[i - 1] == chain[i])
    requires !Conflicts(chain[0], Flatten(rest)) && PartitionLast(rest) && OneEach(rest) && Inherited(rest)
    ensures PartitionLast(chain) && OneEach(chain) && Inherited(chain)
  {
    hide Flatten;
    var f := Flatten(chain);
    assert f == Inherit(Inline(chain[0]), Flatten(rest)) by { FlattenStep(chain); }
    assert PartitionLast(chain);
    assert OneEach(chain);
  }

  lemma FlattenStep(chain: seq<Spec>)
    requires |chain| > 1
    ensures Flatten(chain) == Inherit(Inline(chain[0]), Flatten(chain[1..]))
  {
  }

  /** Each window of the chain refers to the next, and the last to none. */
  ghost predicate Linked(chain: seq<Spec>) {
    chain != [] && forall i :: 0 <= i < |chain| ==> (chain[i].base.None? <==> i == |chain| - 1)
  }

  /** A chain is legal exactly when its windows are linked, only the last one partitions,
      at most one orders and at most one, not before that one, has a frame. */
  lemma {:induction false} LegalIff(chain: seq<Spec>)
    ensures Legal(chain) <==> Linked(chain) && PartitionLast(chain) && OneEach(chain)
    decreases |chain|
  {
    if |chain| > 1 {
      var rest := chain[1..];
      forall i | 1 <= i < |chain|
        ensures rest[i - 1] == chain[i]
      {
        SuffixAt(chain, i);
      }
      LegalIff(rest);
      if Legal(chain) {
        EachClauseOnce(chain);
        LinkedStep(chain, rest);
      }
      if Linked(chain) && PartitionLast(chain) && OneEach(chain) {
        RestStandard(chain, rest);
        EachClauseOnce(rest);
        NoConflict(chain, rest);
      }
    }
  }

  lemma LinkedStep(chain: seq<Spec>, rest: seq<Spec>)
    requires |chain| > 1 && |rest| == |chain| - 1 && forall i :: 1 <= i < |chain| ==> rest[i - 1] == chain[i]
    requires chain[0].base.Some? && Linked(rest)
    ensures Linked(chain)
  {
  }

  lemma RestStandard(chain: seq<Spec>, rest: seq<Spec>)
    requires |chain| > 1 && |rest| == |chain| - 1 && forall i :: 1 <= i < |chain| ==> rest[i - 1] == chain[i]
    requires Linked(chain) && PartitionLast(chain) && OneEach(chain)
    ensures Linked(rest) && PartitionLast(rest) && OneEach(rest) && chain[0].base.Some?
  {
    forall i | 0 <= i < |rest|
      ensures rest[i] == chain[i + 1]
    {
      assert rest[i + 1 - 1] == chain[i + 1];
    }
  }

  lemma NoConflict(chain: seq<Spec>, rest: seq<Spec>)
    requires |chain| > 1 && |rest| == |chain| - 1 && forall i :: 1 <= i < |chain| ==> rest[i - 1] == chain[i]
    requires PartitionLast(chain) && OneEach(chain) && Inherited(rest)
    ensures !Conflicts(chain[0], Flatten(rest))
  {
    hide Flatten;
    forall i | 0 <= i < |rest|
      ensures rest[i] == chain[i + 1]
      ensures chain[0].order.Some? ==> rest[i].order.None? && rest[i].frame.None?
      ensures chain[0].frame.Some? ==> rest[i].frame.None?
    {
      assert rest[i + 1 - 1] == chain[i + 1];
    }
  }

  /** There is a grouping window exactly when there is a PARTITION BY or an ORDER BY. */
  lemma {:induction false} GroupingIffClauses(chain: seq<Spec>)
    requires chain != []
    ensures var f := Flatten(chain); f.grouping.None? <==> f.partition.None? && f.order.None?
    decreases |chain|
  {
    if |chain| > 1 {
      GroupingIffClauses(chain[1..]);
    }
  }

  /** The grouping window is the first one on the chain with a PARTITION BY or an ORDER
      BY of its own, and has the same PARTITION BY, ORDER BY and grouping window as the
      chain. */
  lemma {:induction false} GroupingOnChain(chain: seq<Spec>) returns (i: nat)
    requires Legal(chain) && Flatten(chain).grouping.Some?
    ensures i < |chain| && Some(chain[i].id) == Flatten(chain).grouping
    ensures chain[i].partition.Some? || chain[i].order.Some?
    ensures forall j :: 0 <= j < i ==> chain[j].partition.None? && chain[j].order.None?
    ensures var f, g := Flatten(chain), Flatten(chain[i..]);
            f.partition == g.partition && f.order == g.order && g.grouping == f.grouping
    decreases |chain|
  {
    assert chain[0..] == chain;
    if |chain| == 1 || chain[0].order.Some? {
      i := 0;
    } else {
      var k := GroupingOnChain(chain[1..]);
      i := k + 1;
      SuffixAt(chain, i);
      forall j | 0 <= j < i
        ensures chain[j].partition.None? && chain[j].order.None?
      {
        if j > 0 { SuffixAt(chain, j); }
      }
    }
  }
}
