/** Reordering the arguments of a call by its index mapping, with default values
    in the place of omitted arguments.
 */
module Reordering {
  import opened Sequences
  import opened Types
  import opened Signatures
  import opened ArgumentMapping
  import opened ArgumentMappingProperties

  /** What stands in for an omitted argument: the default value, a NULL of the
      parameter's type, or an untyped NULL. */
  function Injected(p: Parameter): InputArg {
    if p.default.Some? then p.default.value
    else if p.kind.Fixed? then InputArg(NullLiteral, p.kind.typ, false)
    else InputArg(UntypedNull, Int64Type, false)
  }

  ghost predicate RowsInRange(ps: seq<Parameter>, m: seq<Entry>, n: nat) {
    forall k :: 0 <= k < |m| ==> m[k].sigIndex < |ps| && -1 <= m[k].callIndex < n
  }

  /** The reordered argument list. */
  function Reordered(ps: seq<Parameter>, m: seq<Entry>, args: seq<InputArg>): (out: seq<InputArg>)
    requires RowsInRange(ps, m, |args|)
    ensures |out| == |m|
  {
    seq(|m|, k requires 0 <= k < |m| =>
      if m[k].callIndex >= 0 then args[m[k].callIndex] else Injected(ps[m[k].sigIndex]))
  }

  /** The injected values, in the order of the rows. */
  function InjectedRows(ps: seq<Parameter>, m: seq<Entry>): seq<InputArg>
    requires forall k :: 0 <= k < |m| ==> m[k].sigIndex < |ps|
  {
    if m == [] then []
    else (if m[0].callIndex >= 0 then [] else [Injected(ps[m[0].sigIndex])]) + InjectedRows(ps, m[1..])
  }

  /** Builds the reordered list. An omitted parameter that is not optional fails
      the call. */
  method ReorderInputArguments(ps: seq<Parameter>, m: seq<Entry>, args: seq<InputArg>)
      returns (ok: bool, out: seq<InputArg>)
    requires RowsInRange(ps, m, |args|)
    ensures ok <==> forall k :: 0 <= k < |m| && m[k].callIndex == -1 ==> ps[m[k].sigIndex].card.Optional?
    ensures ok ==> out == Reordered(ps, m, args)
  {
    out := [];
    for k := 0 to |m|
      invariant out == Reordered(ps, m, args)[..k]
      invariant forall j :: 0 <= j < k && m[j].callIndex == -1 ==> ps[m[j].sigIndex].card.Optional?
    {
      var row := m[k];
      if row.callIndex >= 0 {
        out := out + [args[row.callIndex]];
      } else {
        if !ps[row.sigIndex].card.Optional? {
          return false, out;
        }
        out := out + [Injected(ps[row.sigIndex])];
      }
    }
    ok := true;
  }

  /** No argument of the call stands in two rows. */
  ghost predicate TakenOnce(m: seq<Entry>, n: nat)
    requires n <= |m|
  {
    forall k1, k2 :: 0 <= k1 < k2 < n && m[k1].callIndex >= 0 ==> m[k1].callIndex != m[k2].callIndex
  }

  /** An earlier row has the argument of row `k`. */
  ghost predicate TakenBefore(m: seq<Entry>, k: nat)
    requires k < |m|
  {
    m[k].callIndex >= 0 && Taken(m[..k], m[k].callIndex)
  }

  /** Reorders the expressions of the arguments by moving them out of the original
      list, where a moved one leaves nothing behind. `injected` are the literals made
      for the omitted rows. A row is left without an expression exactly when an
      earlier row has taken it. */
  method ReorderExpressions<E>(m: seq<Entry>, args: seq<E>, injected: seq<E>) returns (out: seq<Option<E>>)
    requires |injected| == |m| && forall k :: 0 <= k < |m| ==> -1 <= m[k].callIndex < |args|
    ensures |out| == |m|
    ensures forall k :: 0 <= k < |m| ==> (out[k].None? <==> TakenBefore(m, k))
    ensures forall k :: 0 <= k < |m| && out[k].Some? ==>
              out[k].value == if m[k].callIndex >= 0 then args[m[k].callIndex] else injected[k]
    ensures (forall k :: 0 <= k < |m| ==> out[k].Some?) <==> TakenOnce(m, |m|)
  {
    var original := seq(|args|, i requires 0 <= i < |args| => Some(args[i]));
    out := [];
    for k := 0 to |m|
      invariant |out| == k && |original| == |args|
      invariant forall i :: 0 <= i < |args| ==> original[i] == if Taken(m[..k], i) then None else Some(args[i])
      invariant forall j :: 0 <= j < k ==> (out[j].None? <==> TakenBefore(m, j))
      invariant forall j :: 0 <= j < k && out[j].Some? ==>
                  out[j].value == if m[j].callIndex >= 0 then args[m[j].callIndex] else injected[j]
    {
      var row := m[k];
      forall i: nat
        ensures Taken(m[..k + 1], i) <==> Taken(m[..k], i) || row.callIndex == i
      {
        TakenNext(m, k, i);
      }
      if row.callIndex >= 0 {
        out := out + [original[row.callIndex]];
        original := original[row.callIndex := None];
      } else {
        out := out + [Some(injected[k])];
      }
    }
    assert m[..|m|] == m;
    OnceIffNoneBefore(m);
  }

  lemma TakenNext(m: seq<Entry>, k: nat, i: nat)
    requires k < |m|
    ensures Taken(m[..k + 1], i) <==> Taken(m[..k], i) || m[k].callIndex == i
  {
    var next := m[..k + 1];
    assert forall j :: 0 <= j < k ==> m[..k][j] == next[j];
    assert next[k] == m[k];
  }

  lemma OnceIffNoneBefore(m: seq<Entry>)
    ensures TakenOnce(m, |m|) <==> forall k :: 0 <= k < |m| ==> !TakenBefore(m, k)
  {
    if !TakenOnce(m, |m|) {
      var k1, k2 :| 0 <= k1 < k2 < |m| && m[k1].callIndex >= 0 && m[k1].callIndex == m[k2].callIndex;
      assert m[..k2][k1] == m[k1];
      assert TakenBefore(m, k2);
    }
    if k :| 0 <= k < |m| && TakenBefore(m, k) {
      var j :| 0 <= j < k && m[..k][j].callIndex == m[k].callIndex;
      assert m[j].callIndex == m[k].callIndex;
    }
  }

  /** By the mapping of a call, every expression arrives exactly when no name in the
      call is shared with a positional-only parameter. */
  lemma ExpressionsArriveIff(ps: seq<Parameter>, c: Call, r: nat, always: bool)
    requires Matched(ps, c, r)
    ensures TakenOnce(Mapping(ps, c, r, always), |Mapping(ps, c, r, always)|) <==> NamesUnambiguous(ps, c)
  {
    hide Mapping, Matched, NamesUnambiguous, Taken;
    AllTaken(ps, c, r, always);
    EachArgumentOnce(ps, c, r, always);
  }

  /** What stands in for each omitted row: the default of its parameter, without one a
      NULL of its type, without a type an untyped NULL. */
  lemma OmittedValues(ps: seq<Parameter>, m: seq<Entry>, args: seq<InputArg>, k: nat)
    requires RowsInRange(ps, m, |args|) && k < |m| && m[k].callIndex == -1
    ensures var p, a := ps[m[k].sigIndex], Reordered(ps, m, args)[k];
            && (p.default.Some? ==> a == p.default.value)
            && (p.default.None? && p.kind.Fixed? ==> a.form == NullLiteral && a.typ == p.kind.typ && !a.isDefault)
            && (p.default.None? && !p.kind.Fixed? ==> a.form == UntypedNull && !a.isDefault)
  {
  }

  /** Every optional parameter with a default that the call leaves out has its default
      among the reordered arguments. */
  lemma DefaultsInjected(ps: seq<Parameter>, c: Call, r: nat, always: bool, args: seq<InputArg>, s: nat)
    requires Matched(ps, c, r) && RowsInRange(ps, Mapping(ps, c, r, always), |args|)
    requires s < |ps| && ps[s].card.Optional? && ps[s].default.Some? && NotTaken(Mapping(ps, c, r, always), s)
    ensures exists k :: 0 <= k < |Mapping(ps, c, r, always)| && Mapping(ps, c, r, always)[k] == Entry(s, -1) &&
              Reordered(ps, Mapping(ps, c, r, always), args)[k] == ps[s].default.value
  {
    hide Mapping, Mappable, NotTaken, Reordered;
    OmittedRowIff(ps, c, r, always, s);
    assert DefaultFrom(ps, s);
    var m := Mapping(ps, c, r, always);
    var k :| 0 <= k < |m| && m[k] == Entry(s, -1);
    OmittedValues(ps, m, args, k);
  }

  // ----- A permutation plus the injected values -----

  /** The call indices of the rows that have one. */
  function CallIndices(m: seq<Entry>): seq<nat> {
    if m == [] then []
    else (if m[0].callIndex >= 0 then [m[0].callIndex] else []) + CallIndices(m[1..])
  }

  ghost predicate Below(idx: seq<nat>, n: nat) {
    forall k :: 0 <= k < |idx| ==> idx[k] < n
  }

  ghost predicate Onto(idx: seq<nat>, n: nat) {
    forall i :: 0 <= i < n ==> i in idx
  }

  /** `args` in the order of the indices `idx`. */
  function Select(idx: seq<nat>, args: seq<InputArg>): (out: seq<InputArg>)
    requires Below(idx, |args|)
    ensures |out| == |idx| && forall k :: 0 <= k < |out| ==> out[k] == args[idx[k]]
  {
    seq(|idx|, k requires 0 <= k < |idx| => args[idx[k]])
  }

  lemma {:induction false} CallIndicesRange(m: seq<Entry>, n: nat)
    requires forall k :: 0 <= k < |m| ==> m[k].callIndex < n
    ensures Below(CallIndices(m), n)
    decreases |m|
  {
    if m != [] {
      CallIndicesRange(m[1..], n);
    }
  }

  lemma {:induction false} CallIndicesTaken(m: seq<Entry>, i: nat)
    ensures i in CallIndices(m) <==> Taken(m, i)
    decreases |m|
  {
    if m != [] {
      var rest := m[1..];
      CallIndicesTaken(rest, i);
      if Taken(m, i) && m[0].callIndex != i {
        var k :| 0 <= k < |m| && m[k].callIndex == i;
        assert rest[k - 1].callIndex == i;
      }
      if Taken(rest, i) {
        var k :| 0 <= k < |rest| && rest[k].callIndex == i;
        assert m[k + 1].callIndex == i;
      }
    }
  }

  lemma {:induction false} CallIndicesDistinct(m: seq<Entry>)
    ensures Distinct(CallIndices(m)) <==> TakenOnce(m, |m|)
    decreases |m|
  {
    if m != [] {
      var rest := m[1..];
      CallIndicesDistinct(rest);
      OnceCons(m);
      if m[0].callIndex >= 0 {
        CallIndicesTaken(rest, m[0].callIndex);
        DistinctCons(m[0].callIndex, CallIndices(rest));
      } else {
        assert CallIndices(m) == CallIndices(rest);
      }
    }
  }

  lemma OnceCons(m: seq<Entry>)
    requires m != []
    ensures TakenOnce(m, |m|) <==>
              TakenOnce(m[1..], |m| - 1) && (m[0].callIndex >= 0 ==> !Taken(m[1..], m[0].callIndex))
  {
    var rest := m[1..];
    assert forall k :: 0 <= k < |rest| ==> rest[k] == m[k + 1];
    if TakenOnce(m, |m|) {
      forall k1, k2 | 0 <= k1 < k2 < |rest| && rest[k1].callIndex >= 0
        ensures rest[k1].callIndex != rest[k2].callIndex
      {
        assert rest[k1] == m[k1 + 1] && rest[k2] == m[k2 + 1];
      }
    }
    if TakenOnce(rest, |rest|) && (m[0].callIndex >= 0 ==> !Taken(rest, m[0].callIndex)) {
      forall k1, k2 | 0 <= k1 < k2 < |m| && m[k1].callIndex >= 0
        ensures m[k1].callIndex != m[k2].callIndex
      {
        assert m[k2] == rest[k2 - 1];
        if k1 > 0 { assert m[k1] == rest[k1 - 1]; }
      }
    }
  }

  lemma DistinctCons(x: nat, s: seq<nat>)
    ensures Distinct([x] + s) <==> Distinct(s) && x !in s
  {
    var all := [x] + s;
    assert forall k :: 0 <= k < |s| ==> all[k + 1] == s[k];
    if Distinct(all) {
      forall i, j | 0 <= i < j < |s|
        ensures s[i] != s[j]
      {
        assert s[i] == all[i + 1] && s[j] == all[j + 1];
      }
    }
    if x in s {
      var k :| 0 <= k < |s| && s[k] == x;
      assert all[0] == all[k + 1];
    }
  }

  function Without(idx: seq<nat>, p: nat): (rest: seq<nat>)
    requires p < |idx|
    ensures |rest| == |idx| - 1
  {
    idx[..p] + idx[p + 1..]
  }

  lemma StillThere(idx: seq<nat>, p: nat, k: nat)
    requires p < |idx| && k < |idx| && k != p
    ensures idx[k] in Without(idx, p)
  {
    assert idx[k] == Without(idx, p)[if k < p then k else k - 1];
  }

  /** A list of all indices below `n` with a repetition is longer than `n`. */
  lemma {:induction false} OntoLength(idx: seq<nat>, n: nat)
    requires Onto(idx, n)
    ensures |idx| >= n
    ensures !Distinct(idx) ==> |idx| > n
    decreases |idx|
  {
    if n == 0 {
      assert idx == [] ==> Distinct(idx);
    } else if !Distinct(idx) {
      var i, j :| 0 <= i < j < |idx| && idx[i] == idx[j];
      forall x | 0 <= x < n
        ensures x in Without(idx, j)
      {
        assert x in idx;
        var k :| 0 <= k < |idx| && idx[k] == x;
        StillThere(idx, j, if k == j then i else k);
      }
      OntoLength(Without(idx, j), n);
    } else {
      assert n - 1 in idx;
      var p :| 0 <= p < |idx| && idx[p] == n - 1;
      forall x | 0 <= x < n - 1
        ensures x in Without(idx, p)
      {
        assert x in idx;
        var k :| 0 <= k < |idx| && idx[k] == x;
        StillThere(idx, p, k);
      }
      OntoLength(Without(idx, p), n - 1);
    }
  }

  /** Listing every index once permutes the arguments. */
  lemma {:induction false} SelectPermutes(idx: seq<nat>, args: seq<InputArg>)
    requires Distinct(idx) && Below(idx, |args|) && Onto(idx, |args|)
    ensures multiset(Select(idx, args)) == multiset(args)
    decreases |args|
  {
    hide Select;
    if args == [] {
      NoneBelow(idx, 0);
    } else {
      var n := |args| - 1;
      assert n in idx;
      var p :| 0 <= p < |idx| && idx[p] == n;
      RemoveLast(idx, p, n);
      SelectPermutes(Without(idx, p), args[..n]);
      SelectInsert(idx, p, args);
      assert args == args[..n] + [args[n]];
    }
  }

  lemma NoneBelow(idx: seq<nat>, n: nat)
    requires Below(idx, n)
    ensures idx == [] || n > 0
  {
    if idx != [] {
      assert idx[0] < n;
    }
  }

  lemma SelectInsert(idx: seq<nat>, p: nat, args: seq<InputArg>)
    requires args != [] && Below(idx, |args|) && p < |idx| && idx[p] == |args| - 1
    requires Below(Without(idx, p), |args| - 1)
    ensures multiset(Select(idx, args)) ==
            multiset(Select(Without(idx, p), args[..|args| - 1])) + multiset{args[|args| - 1]}
  {
    hide Select;
    var n := |args| - 1;
    var all, out := Select(idx, args), Select(Without(idx, p), args[..n]);
    assert all == all[..p] + [args[n]] + all[p + 1..];
    assert out == all[..p] + all[p + 1..];
  }

  lemma RemoveLast(idx: seq<nat>, p: nat, n: nat)
    requires p < |idx| && idx[p] == n && Distinct(idx) && Below(idx, n + 1) && Onto(idx, n + 1)
    ensures Distinct(Without(idx, p)) && Below(Without(idx, p), n) && Onto(Without(idx, p), n)
  {
    var idx' := Without(idx, p);
    assert forall k :: 0 <= k < |idx'| ==> idx'[k] == if k < p then idx[k] else idx[k + 1];
    forall i | 0 <= i < n
      ensures i in idx'
    {
      assert i in idx;
      var k :| 0 <= k < |idx| && idx[k] == i;
      assert idx'[if k < p then k else k - 1] == i;
    }
  }

  /** One more row in front. */
  lemma ReorderedStep(ps: seq<Parameter>, m: seq<Entry>, args: seq<InputArg>)
    requires RowsInRange(ps, m, |args|) && m != []
    ensures RowsInRange(ps, m[1..], |args|)
    ensures Reordered(ps, m, args) == [Reordered(ps, m, args)[0]] + Reordered(ps, m[1..], args)
  {
  }

  lemma {:induction false} ReorderedSplit(ps: seq<Parameter>, m: seq<Entry>, args: seq<InputArg>)
    requires RowsInRange(ps, m, |args|)
    ensures Below(CallIndices(m), |args|)
    ensures multiset(Reordered(ps, m, args)) == multiset(Select(CallIndices(m), args)) + multiset(InjectedRows(ps, m))
    decreases |m|
  {
    hide Select, Reordered, Injected;
    CallIndicesRange(m, |args|);
    if m != [] {
      var rest := m[1..];
      ReorderedStep(ps, m, args);
      ReorderedSplit(ps, rest, args);
      RowSplit(ps, m, args);
    }
  }

  lemma {:induction false} RowSplit(ps: seq<Parameter>, m: seq<Entry>, args: seq<InputArg>)
    requires RowsInRange(ps, m, |args|) && m != []
    requires Below(CallIndices(m), |args|) && Below(CallIndices(m[1..]), |args|)
    ensures var first := [Reordered(ps, m, args)[0]];
            if m[0].callIndex >= 0 then
              && Select(CallIndices(m), args) == first + Select(CallIndices(m[1..]), args)
              && InjectedRows(ps, m) == InjectedRows(ps, m[1..])
            else
              && Select(CallIndices(m), args) == Select(CallIndices(m[1..]), args)
              && InjectedRows(ps, m) == first + InjectedRows(ps, m[1..])
  {
    hide Injected;
  }

  /** The reordered list is a permutation of the arguments of the call together
      with one injected value per omitted row, if and only if no argument stands in
      two rows. */
  lemma ReorderingConserves(ps: seq<Parameter>, m: seq<Entry>, args: seq<InputArg>)
    requires RowsInRange(ps, m, |args|) && forall i :: 0 <= i < |args| ==> Taken(m, i)
    ensures multiset(Reordered(ps, m, args)) == multiset(args) + multiset(InjectedRows(ps, m)) <==>
            EachOnce(m, |args|)
  {
    hide Reordered, Select, CallIndices, InjectedRows, Taken;
    ReorderedSplit(ps, m, args);
    CallIndicesDistinct(m);
    forall i | 0 <= i < |args|
      ensures i in CallIndices(m)
    {
      CallIndicesTaken(m, i);
    }
    assert EachOnce(m, |args|) <==> TakenOnce(m, |m|);
    var idx := CallIndices(m);
    if Distinct(idx) {
      SelectPermutes(idx, args);
    } else {
      OntoLength(idx, |args|);
      assert |multiset(Reordered(ps, m, args))| == |idx| + |multiset(InjectedRows(ps, m))|;
    }
  }
}
