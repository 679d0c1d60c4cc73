/** The matcher finds every exact instantiation: when the arguments of a call have
    just the types that some choice of types for the templated kinds gives to their
    parameters, the signature matches, and that choice is what is inferred.
 */
module TemplateCompleteness {
  import opened Types
  import opened Signatures
  import opened ArgumentMapping
  import opened Templates
  import opened SignatureMatching
  import opened ConcreteSignatures
  import opened Matcher

  /** A choice of types for the templated kinds. */
  type Instance = Kind -> Type

  ghost predicate Coherent(inst: Instance) {
    && (forall i :: inst(ArrayAny(i)) == ArrayType(inst(Any(i))))
    && inst(RangeAny1) == RangeType(inst(Any(1)))
    && inst(MapAny12) == MapType(inst(Any(1)), inst(Any(2)))
    && inst(MeasureAny1) == MeasureType(inst(Any(1)))
    && inst(ProtoMapAny) == ArrayType(MapEntryType(inst(ProtoMapKeyAny), inst(ProtoMapValueAny)))
    && inst(EnumAny).EnumType? && inst(ProtoAny).IsProto() && inst(StructAny).StructType?
  }

  /** Arguments of one type have that type as their common supertype. */
  ghost predicate KeepsEqualTypes(co: Coercer) {
    forall args: seq<InputArg>, d: InputArg ::
      d in args && SameType(args, d.typ) ==> co.superType(args, d) == Some(d.typ)
  }

  predicate SameType(args: seq<InputArg>, t: Type) {
    forall i :: 0 <= i < |args| ==> args[i].typ == t
  }

  /** The language has the type that the kind is given. */
  ghost predicate Allowed(co: Coercer, inst: Instance, k: Kind) {
    match k
    case ArrayAny(i) => inst(Any(i)).ArrayType? ==> co.arrayOfArray
    case RangeAny1 => co.rangeable(inst(Any(1)))
    case MapAny12 => co.groupable(inst(Any(1)))
    case StringAny => forall a: InputArg :: a.typ == inst(k) ==> co.coerces(a, STRING)
    case _ => true
  }

  /** The argument has exactly the type that its parameter is given. A measure is never
      a literal or a query parameter. */
  ghost predicate ExactArg(inst: Instance, k: Kind, a: InputArg) {
    && !a.IsUntyped() && MeasureAllowed(k, a.typ) && (k.MeasureAny1? ==> a.form.NonLiteral?)
    && match k
       case Fixed(t) => a.typ == t
       case Arbitrary => true
       case _ => a.typ == inst(k)
  }

  /** The kinds that an argument of kind `k` determines. */
  function Parts(k: Kind): set<Kind> {
    match k
    case Fixed(_) => {}
    case Arbitrary => {}
    case ArrayAny(i) => {k, Any(i)}
    case RangeAny1 => {k, Any(1)}
    case MapAny12 => {k, Any(1), Any(2)}
    case MeasureAny1 => {k, Any(1)}
    case ProtoMapAny => {k, ProtoMapKeyAny, ProtoMapValueAny}
    case _ => {k}
  }

  // ----- Collecting -----

  ghost predicate ExactSet(inst: Instance, k: Kind, ts: TypeSet) {
    && ts.TypedSet? && ts.args != [] && SameType(ts.args, inst(k))
    && (k.MeasureAny1? ==> ts.args == [InputArg(NonLiteral, inst(k), false)])
  }

  /** Everything collected so far agrees with the instance. */
  ghost predicate ExactSets(co: Coercer, inst: Instance, c: Collected) {
    && (forall k :: k in c ==> ExactSet(inst, k, c[k]) && Allowed(co, inst, k))
    && (forall k :: k in c ==> Parts(k) <= c.Keys)
  }

  lemma InsertExact(inst: Instance, c: Collected, k: Kind, a: InputArg, d: bool)
    requires k in c ==> ExactSet(inst, k, c[k])
    requires a.typ == inst(k) && (k.MeasureAny1? ==> a == InputArg(NonLiteral, inst(k), false))
    ensures ExactSet(inst, k, Insert(c, k, a, d)[k])
    ensures Insert(c, k, a, d).Keys == c.Keys + {k}
    ensures forall j :: j in c && j != k ==> Insert(c, k, a, d)[j] == c[j]
  {
  }

  /** `d` is `c` with the kinds `ks` added or extended, exactly. */
  ghost predicate ExtendedBy(inst: Instance, c: Collected, d: Collected, ks: set<Kind>) {
    && d.Keys == c.Keys + ks
    && (forall k :: k in ks ==> ExactSet(inst, k, d[k]))
    && (forall k :: k in c && k !in ks ==> d[k] == c[k])
  }

  lemma InsertExtends(inst: Instance, c: Collected, d: Collected, ks: set<Kind>, k: Kind, a: InputArg, dom: bool)
    requires ExtendedBy(inst, c, d, ks) && k !in ks
    requires (k in c ==> ExactSet(inst, k, c[k])) && a.typ == inst(k)
    requires k.MeasureAny1? ==> a == InputArg(NonLiteral, inst(k), false)
    ensures ExtendedBy(inst, c, Insert(d, k, a, dom), ks + {k})
  {
    hide ExactSet, Insert;
    InsertExact(inst, d, k, a, dom);
  }

  /** An argument of a compound kind has the shape of that kind, and its components
      have the types of the component kinds. */
  lemma PartTypes(inst: Instance, k: Kind, t: Type)
    requires Coherent(inst) && TemplatedKind(k) && t == inst(k)
    ensures Fits(k, t)
    ensures k.ArrayAny? ==> t.element == inst(Any(k.k))
    ensures k.RangeAny1? ==> t.element == inst(Any(1))
    ensures k.MeasureAny1? ==> t.result == inst(Any(1))
    ensures k.ProtoMapAny? ==> t.element.key == inst(ProtoMapKeyAny) && t.element.value == inst(ProtoMapValueAny)
    ensures k.MapAny12? ==> t.key == inst(Any(1)) && t.value == inst(Any(2))
  {
  }

  lemma SetsExact(co: Coercer, inst: Instance, c: Collected)
    requires ExactSets(co, inst, c)
    ensures forall k :: k in c ==> ExactSet(inst, k, c[k])
    ensures ExtendedBy(inst, c, c, {})
  {
    hide ExactSet, Allowed, Parts;
  }

  lemma CollectExtends(co: Coercer, inst: Instance, c: Collected, k: Kind, a: InputArg)
    requires Coherent(inst) && ExactSets(co, inst, c) && TemplatedKind(k) && ExactArg(inst, k, a)
    ensures CollectTyped(c, k, a).Some? && ExtendedBy(inst, c, CollectTyped(c, k, a).value, Parts(k))
  {
    hide ExactSet, Insert, MeasureAllowed, Coherent, ExactSets, ExtendedBy;
    PartTypes(inst, k, a.typ);
    SetsExact(co, inst, c);
    InsertExtends(inst, c, c, {}, k, a.Bare(), false);
    var c1 := Insert(c, k, a.Bare(), false);
    assert {} + {k} == {k};
    match k {
      case ArrayAny(i) =>
        InsertExtends(inst, c, c1, {k}, Any(i), Component(a, a.typ.element), false);
        assert {k} + {Any(i)} == Parts(k);
      case RangeAny1 =>
        InsertExtends(inst, c, c1, {k}, Any(1), Component(a, a.typ.element), false);
        assert {k} + {Any(1)} == Parts(k);
      case MeasureAny1 =>
        InsertExtends(inst, c, c1, {k}, Any(1), Component(a, a.typ.result), true);
        assert {k} + {Any(1)} == Parts(k);
      case ProtoMapAny =>
        InsertTwo(inst, c, c1, k, ProtoMapKeyAny, Component(a, a.typ.element.key), ProtoMapValueAny,
                  Component(a, a.typ.element.value));
      case MapAny12 =>
        InsertTwo(inst, c, c1, k, Any(1), Component(a, a.typ.key), Any(2), Component(a, a.typ.value));
      case _ =>
    }
  }

  lemma InsertTwo(inst: Instance, c: Collected, c1: Collected, k: Kind, k1: Kind, a1: InputArg, k2: Kind, a2: InputArg)
    requires ExtendedBy(inst, c, c1, {k}) && k != k1 && k != k2 && k1 != k2 && !k1.MeasureAny1? && !k2.MeasureAny1?
    requires (k1 in c ==> ExactSet(inst, k1, c[k1])) && (k2 in c ==> ExactSet(inst, k2, c[k2]))
    requires a1.typ == inst(k1) && a2.typ == inst(k2)
    ensures ExtendedBy(inst, c, Insert(Insert(c1, k1, a1, true), k2, a2, true), {k, k1, k2})
  {
    hide ExactSet, Insert, ExtendedBy;
    InsertExtends(inst, c, c1, {k}, k1, a1, true);
    assert {k} + {k1} == {k, k1};
    InsertExtends(inst, c, Insert(c1, k1, a1, true), {k, k1}, k2, a2, true);
    assert {k, k1} + {k2} == {k, k1, k2};
  }

  lemma CheckExact(co: Coercer, inst: Instance, c: Collected, k: Kind, a: InputArg)
    requires Coherent(inst) && ExactSets(co, inst, c) && ExactArg(inst, k, a) && Allowed(co, inst, k)
    requires TemplatedKind(k) || k.Fixed? || k.Arbitrary?
    ensures CheckSingle(co, c, k, a).Some?
    ensures var d := CheckSingle(co, c, k, a).value;
            ExactSets(co, inst, d) && c.Keys + Parts(k) == d.Keys
  {
    hide ExactSet, CollectTyped, CollectUntyped, MeasureAllowed;
    if TemplatedKind(k) {
      CollectExtends(co, inst, c, k, a);
      var d := CollectTyped(c, k, a).value;
      forall j | j in d
        ensures ExactSet(inst, j, d[j]) && Allowed(co, inst, j) && Parts(j) <= d.Keys
      {
      }
    }
  }

  ghost predicate ExactArgs(co: Coercer, inst: Instance, ps: seq<Parameter>, walk: seq<nat>, args: seq<InputArg>)
    requires |args| <= |walk| && InRange(ps, walk)
  {
    forall i :: 0 <= i < |args| ==> ExactArg(inst, ps[walk[i]].kind, args[i]) && Allowed(co, inst, ps[walk[i]].kind)
  }

  lemma {:induction false} CheckAllExact(co: Coercer, inst: Instance, ps: seq<Parameter>, walk: seq<nat>,
                                         args: seq<InputArg>, c: Collected)
    requires |args| <= |walk| && InRange(ps, walk) && KindsValid(ps)
    requires Coherent(inst) && ExactSets(co, inst, c) && ExactArgs(co, inst, ps, walk, args)
    ensures CheckAll(co, ps, walk, args, c).Some?
    ensures var d := CheckAll(co, ps, walk, args, c).value;
            && ExactSets(co, inst, d) && c.Keys <= d.Keys
            && forall i :: 0 <= i < |args| ==> Parts(ps[walk[i]].kind) <= d.Keys
    decreases |args|
  {
    hide CheckSingle, ExactSets, ExactArg, Allowed, Coherent, Parts;
    if args != [] {
      var k := ps[walk[0]].kind;
      assert ExactArg(inst, k, args[0]) && Allowed(co, inst, k);
      CheckExact(co, inst, c, k, args[0]);
      var c1 := CheckSingle(co, c, k, args[0]).value;
      var walk', args' := walk[1..], args[1..];
      assert forall i :: 0 <= i < |args'| ==> walk'[i] == walk[i + 1] && args'[i] == args[i + 1];
      CheckAllExact(co, inst, ps, walk', args', c1);
      var d := CheckAll(co, ps, walk, args, c).value;
      forall i | 0 <= i < |args|
        ensures Parts(ps[walk[i]].kind) <= d.Keys
      {
        if i > 0 {
          assert Parts(ps[walk'[i - 1]].kind) <= d.Keys;
        }
      }
    }
  }

  // ----- Resolving -----

  /** What is needed to resolve a kind: its set is exact, or it is a compound kind
      that only the result asks for. */
  ghost predicate Ready(co: Coercer, inst: Instance, c: Collected, k: Kind)
    requires k in c
  {
    && TemplatedKind(k) && Allowed(co, inst, k)
    && (ExactSet(inst, k, c[k]) || (c[k].NullSet? && (k.ArrayAny? || k.RangeAny1? || k.MapAny12? || k.ProtoMapAny?)))
    && (k.ArrayAny? ==> Any(k.k) in c && c[Any(k.k)].TypedSet?)
    && (k.RangeAny1? ==> Any(1) in c && c[Any(1)].TypedSet?)
    && (k.MapAny12? ==> Any(1) in c && c[Any(1)].TypedSet? && Any(2) in c && c[Any(2)].TypedSet?)
    && (c[k].TypedSet? ==> c[k].dominant in c[k].args)
  }

  ghost predicate ResolvedTo(inst: Instance, c: Collected, types: map<Kind, Type>, k: Kind)
    requires k in c
  {
    k in types && (c[k].TypedSet? ==> types[k] == inst(k))
  }

  lemma ResolveReady(co: Coercer, inst: Instance, c: Collected, k: Kind, types: map<Kind, Type>)
    requires Honest(co) && KeepsEqualTypes(co) && Coherent(inst) && k in c && Ready(co, inst, c, k)
    requires k.ArrayAny? ==> ResolvedTo(inst, c, types, Any(k.k))
    requires k.RangeAny1? ==> ResolvedTo(inst, c, types, Any(1))
    requires k.MapAny12? ==> ResolvedTo(inst, c, types, Any(1)) && ResolvedTo(inst, c, types, Any(2))
    ensures var r := ResolveKind(co, k, c[k], types);
            r.Resolved? && r.types.Keys == types.Keys + {k} && ResolvedTo(inst, c, r.types, k)
            && forall j :: j in types && j != k ==> r.types[j] == types[j]
  {
    var ts := c[k];
    if ts.TypedSet? {
      EqualCoerce(co, ts.args, inst(k));
      assert ts.args[0].typ == inst(k);
      var i :| 0 <= i < |ts.args| && ts.args[i] == ts.dominant;
      assert ts.dominant.typ == inst(k);
    }
  }

  lemma EqualCoerce(co: Coercer, args: seq<InputArg>, t: Type)
    requires Honest(co) && SameType(args, t)
    ensures AllCoerce(co, args, t)
  {
  }

  /** The kinds that come first are resolved, and only they. */
  ghost predicate DoneUpTo(inst: Instance, c: Collected, types: map<Kind, Type>, n: nat)
    requires n <= |KINDS|
  {
    forall i :: 0 <= i < n && KINDS[i] in c ==> ResolvedTo(inst, c, types, KINDS[i])
  }

  lemma MapAfterParts(n: nat)
    requires n < |KINDS| && KINDS[n].MapAny12?
    ensures n > 1 && KINDS[0] == Any(1) && KINDS[1] == Any(2)
  {
  }

  lemma {:induction false} ResolveExact(co: Coercer, inst: Instance, c: Collected, types: map<Kind, Type>, n: nat)
    requires Honest(co) && KeepsEqualTypes(co) && Coherent(inst) && n <= |KINDS| && DoneUpTo(inst, c, types, n)
    requires forall k :: k in c ==> Ready(co, inst, c, k)
    ensures ResolveFrom(co, c, types, n).Resolved?
    ensures forall k :: k in c ==> ResolvedTo(inst, c, ResolveFrom(co, c, types, n).types, k)
    decreases |KINDS| - n
  {
    hide ResolveKind, Ready, ResolvedTo, Honest, KeepsEqualTypes, Coherent, KINDS;
    if n == |KINDS| {
      forall k | k in c
        ensures ResolvedTo(inst, c, types, k)
      {
        ReadyTemplated(co, inst, c, k);
        AllKinds(k);
      }
    } else if KINDS[n] !in c {
      ResolveExact(co, inst, c, types, n + 1);
    } else {
      var k := KINDS[n];
      PartsDone(co, inst, c, types, n);
      ResolveReady(co, inst, c, k, types);
      var r := ResolveKind(co, k, c[k], types);
      StillDone(inst, c, types, r.types, n);
      ResolveExact(co, inst, c, r.types, n + 1);
    }
  }

  lemma ReadyTemplated(co: Coercer, inst: Instance, c: Collected, k: Kind)
    requires k in c && Ready(co, inst, c, k)
    ensures TemplatedKind(k)
  {
  }

  lemma PartsDone(co: Coercer, inst: Instance, c: Collected, types: map<Kind, Type>, n: nat)
    requires n < |KINDS| && KINDS[n] in c && Ready(co, inst, c, KINDS[n]) && DoneUpTo(inst, c, types, n)
    ensures var k := KINDS[n];
            && (k.ArrayAny? ==> Any(k.k) in c && ResolvedTo(inst, c, types, Any(k.k)))
            && (k.RangeAny1? ==> Any(1) in c && ResolvedTo(inst, c, types, Any(1)))
            && (k.MapAny12? ==> Any(1) in c && ResolvedTo(inst, c, types, Any(1)))
            && (k.MapAny12? ==> Any(2) in c && ResolvedTo(inst, c, types, Any(2)))
  {
    hide KINDS, ResolvedTo;
    KindsOrdered(n);
    if KINDS[n].MapAny12? {
      MapAfterParts(n);
    }
  }

  lemma StillDone(inst: Instance, c: Collected, types: map<Kind, Type>, types': map<Kind, Type>, n: nat)
    requires n < |KINDS| && KINDS[n] in c && DoneUpTo(inst, c, types, n) && ResolvedTo(inst, c, types', KINDS[n])
    requires types.Keys <= types'.Keys && forall j :: j in types && j != KINDS[n] ==> types'[j] == types[j]
    ensures DoneUpTo(inst, c, types', n + 1)
  {
    hide KINDS;
    KindsOrdered(n);
  }

  // ----- The theorem -----

  /** The arguments determine the kind of the result. */
  ghost predicate ResultDetermined(co: Coercer, inst: Instance, result: Kind, seen: set<Kind>) {
    || result.Fixed? || result.Arbitrary? || result in seen
    || (&& Allowed(co, inst, result)
        && match result
           case ArrayAny(i) => Any(i) in seen
           case RangeAny1 => Any(1) in seen
           case MapAny12 => Any(1) in seen && Any(2) in seen
           case ProtoMapAny => ProtoMapKeyAny in seen || ProtoMapValueAny in seen
           case _ => false)
  }

  lemma ReadyAfterResult(co: Coercer, inst: Instance, c: Collected, result: Kind, seen: set<Kind>)
    requires Consistent(c) && ExactSets(co, inst, c) && seen <= c.Keys && ResultDetermined(co, inst, result, seen)
    requires TemplatedKind(result) || result.Fixed? || result.Arbitrary?
    ensures var d := CollectResult(c, result);
            && (forall k :: k in d ==> Ready(co, inst, d, k))
            && (forall k :: k in c ==> k in d && d[k] == c[k])
            && (TemplatedKind(result) ==> result in d)
  {
    hide SameType, Allowed;
    var d := CollectResult(c, result);
    assert forall k :: k in c ==> k in d && d[k] == c[k];
    forall k | k in d && (k in c || k == result)
      ensures Ready(co, inst, d, k)
    {
      if k in c {
        assert Parts(k) <= c.Keys;
      }
    }
  }

  /** A call whose arguments have exactly the types of an instance matches, and that
      instance is inferred. */
  lemma ExactCallMatches(co: Coercer, sig: Signature, args: seq<InputArg>, walk: seq<nat>, inst: Instance,
                         seen: set<Kind>)
    requires Honest(co) && KeepsEqualTypes(co) && sig.Valid() && |args| <= |walk| && InRange(sig.params, walk)
    requires Coherent(inst) && ExactArgs(co, inst, sig.params, walk, args)
    requires forall k :: k in seen ==> exists i :: 0 <= i < |args| && k in Parts(sig.params[walk[i]].kind)
    requires ResultDetermined(co, inst, sig.result, seen)
    ensures MatchesTypes(co, sig, args, walk)
    ensures var c := CollectResult(CheckAll(co, sig.params, walk, args, map[]).value, sig.result);
            forall i :: 0 <= i < |args| && TemplatedKind(sig.params[walk[i]].kind) ==>
              var types := ResolveFrom(co, c, map[], 0).types;
              sig.params[walk[i]].kind in types && types[sig.params[walk[i]].kind] == inst(sig.params[walk[i]].kind)
  {
    hide Honest, KeepsEqualTypes, Coherent, ExactArgs, ExactSets, Consistent, CheckAll, CollectResult, Parts, Ready,
         ResultDetermined, ResolveFrom, KINDS;
    var ps := sig.params;
    EmptyConsistent(co);
    EmptyExact(co, inst);
    CheckAllExact(co, inst, ps, walk, args, map[]);
    CheckAllKeeps(co, ps, walk, args, map[]);
    var c := CheckAll(co, ps, walk, args, map[]).value;
    forall k | k in seen
      ensures k in c
    {
      var i :| 0 <= i < |args| && k in Parts(ps[walk[i]].kind);
      assert Parts(ps[walk[i]].kind) <= c.Keys;
    }
    ReadyAfterResult(co, inst, c, sig.result, seen);
    var d := CollectResult(c, sig.result);
    ResolveExact(co, inst, d, map[], 0);
    forall i | 0 <= i < |args| && TemplatedKind(ps[walk[i]].kind)
      ensures ps[walk[i]].kind in d && d[ps[walk[i]].kind].TypedSet?
    {
      KindInParts(ps[walk[i]].kind);
      assert Parts(ps[walk[i]].kind) <= c.Keys;
      ExactTyped(co, inst, c, ps[walk[i]].kind);
    }
  }

  lemma EmptyExact(co: Coercer, inst: Instance)
    ensures ExactSets(co, inst, map[])
  {
  }

  lemma KindInParts(k: Kind)
    requires TemplatedKind(k)
    ensures k in Parts(k)
  {
  }

  lemma ExactTyped(co: Coercer, inst: Instance, c: Collected, k: Kind)
    requires ExactSets(co, inst, c) && k in c
    ensures c[k].TypedSet?
  {
  }
}
