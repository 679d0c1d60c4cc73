/** Template inference: collecting the argument types seen for each templated
    kind, and resolving each kind to one type.
 */
module Templates {
  import opened Types

  /** What the matcher asks of the coercer, the type factory and the language
      options. The common supertype of a set may depend on its dominant argument. */
  datatype Coercer = Coercer(
    coerces: (InputArg, Type) -> bool,
    superType: (seq<InputArg>, InputArg) -> Option<Type>,
    customCoercion: (Type, Type) -> bool,
    allowCoercion: bool,
    arrayOfArray: bool,
    groupable: Type -> bool,
    rangeable: Type -> bool)

  /** A common supertype is one that every argument coerces to, an argument coerces
      to its own type, and being a default value makes no difference. */
  ghost predicate Honest(co: Coercer) {
    && (forall args, d, t, a :: co.superType(args, d) == Some(t) && a in args ==> co.coerces(a, t))
    && (forall a: InputArg :: co.coerces(a, a.typ))
    && (forall a: InputArg, t :: co.coerces(a, t) == co.coerces(a.Bare(), t))
  }

  /** The argument types seen for one kind. A set only moves to the right. */
  datatype TypeSet =
    | NullSet
    | EmptyArraySet
    | TypedSet(args: seq<InputArg>, dominant: InputArg)
  {
    function Rank(): nat {
      match this
      case NullSet => 0
      case EmptyArraySet => 1
      case TypedSet(_, _) => 2
    }
  }

  type Collected = map<Kind, TypeSet>

  /** Adds a typed argument, once. The first typed argument is dominant until a
      dominant one is given or a simple one gives way to a compound one. */
  function InsertTyped(ts: TypeSet, a: InputArg, setDominant: bool): TypeSet {
    match ts
    case TypedSet(args, dominant) =>
      TypedSet(if a in args then args else args + [a],
               if setDominant || (dominant.typ.IsSimple() && !a.typ.IsSimple()) then a else dominant)
    case _ => TypedSet([a], a)
  }

  function SetOf(c: Collected, k: Kind): TypeSet {
    if k in c then c[k] else NullSet
  }

  function Ensure(c: Collected, k: Kind): Collected {
    c[k := SetOf(c, k)]
  }

  function Insert(c: Collected, k: Kind, a: InputArg, setDominant: bool): Collected {
    c[k := InsertTyped(SetOf(c, k), a, setDominant)]
  }

  /** The argument that a component type of `a` stands for. */
  function Component(a: InputArg, t: Type): (r: InputArg)
    ensures r.typ == t && !r.isDefault && !r.IsUntyped()
    ensures r.IsLiteral() <==> a.IsLiteral()
    ensures r.form == QueryParameter <==> a.form == QueryParameter
  {
    InputArg(if a.IsLiteral() then NullLiteral else if a.form.QueryParameter? then QueryParameter else NonLiteral,
             t, false)
  }

  /** A templated parameter given an untyped NULL or an untyped empty array. */
  function CollectUntyped(c: Collected, k: Kind, a: InputArg): Option<Collected> {
    var ts := SetOf(c, k);
    var c1 := c[k := if !ts.TypedSet? && a.form.UntypedEmptyArray? then EmptyArraySet else ts];
    var c2 := if k.ArrayAny? then Ensure(c1, Any(k.k)) else c1;
    if k.ProtoMapAny? || k.MeasureAny1? then None
    else if k.ProtoMapKeyAny? || k.ProtoMapValueAny? then Some(Ensure(c2, ProtoMapAny))
    else Some(c2)
  }

  /** The argument has the shape that the kind asks for. */
  predicate Fits(k: Kind, t: Type) {
    match k
    case ArrayAny(_) => t.ArrayType?
    case ProtoMapAny => t.IsProtoMap()
    case RangeAny1 => t.RangeType?
    case EnumAny => t.EnumType?
    case ProtoAny => t.IsProto()
    case StructAny => t.StructType?
    case MapAny12 => t.MapType?
    case MeasureAny1 => t.MeasureType?
    case _ => true
  }

  /** A templated parameter given a typed argument. */
  function CollectTyped(c: Collected, k: Kind, a: InputArg): Option<Collected> {
    if !Fits(k, a.typ) then None
    else
      var c1 := Insert(c, k, a.Bare(), false);
      Some(match k
           case ArrayAny(i) => Insert(c1, Any(i), Component(a, a.typ.element), false)
           case RangeAny1 => Insert(c1, Any(1), Component(a, a.typ.element), false)
           case ProtoMapAny =>
             Insert(Insert(c1, ProtoMapKeyAny, Component(a, a.typ.element.key), true),
                    ProtoMapValueAny, Component(a, a.typ.element.value), true)
           case MapAny12 =>
             Insert(Insert(c1, Any(1), Component(a, a.typ.key), true), Any(2), Component(a, a.typ.value), true)
           case MeasureAny1 => Insert(c1, Any(1), Component(a, a.typ.result), true)
           case _ => c1)
  }

  predicate ContainsMeasure(t: Type) {
    match t
    case MeasureType(_) => true
    case MapEntryType(k, v) => ContainsMeasure(k) || ContainsMeasure(v)
    case ArrayType(e) => ContainsMeasure(e)
    case RangeType(e) => ContainsMeasure(e)
    case MapType(k, v) => ContainsMeasure(k) || ContainsMeasure(v)
    case _ => false
  }

  /** Measures are only accepted as such, and never inside a container. */
  predicate MeasureAllowed(k: Kind, t: Type) {
    if t.MeasureType? then k.MeasureAny1? else !ContainsMeasure(t)
  }

  /** Checks one argument against a parameter of kind `k`. */
  function CheckSingle(co: Coercer, c: Collected, k: Kind, a: InputArg): Option<Collected> {
    var r := match k
      case Arbitrary => Some(c)
      case Fixed(t) =>
        if a.typ == t || (co.allowCoercion && (co.coerces(a, t) || co.customCoercion(t, a.typ))) then Some(c) else None
      case _ =>
        if k.StringAny? && !co.coerces(a, STRING) then None
        else if a.IsUntyped() then CollectUntyped(c, k, a)
        else CollectTyped(c, k, a);
    if r.Some? && MeasureAllowed(k, a.typ) then r else None
  }

  /** A result kind built on a kind that was seen is seen itself. */
  function CollectResult(c: Collected, result: Kind): Collected {
    match result
    case ArrayAny(i) => if Any(i) in c then Ensure(c, result) else c
    case ProtoMapAny => if ProtoMapKeyAny in c || ProtoMapValueAny in c then Ensure(c, result) else c
    case RangeAny1 => if Any(1) in c then Ensure(c, result) else c
    case MapAny12 => if Any(1) in c || Any(2) in c then Ensure(c, result) else c
    case _ => c
  }

  // ----- What collection keeps -----

  /** The kinds in the order of their enumeration values, which is the order in
      which they are resolved. */
  const KINDS: seq<Kind> := [
    Any(1), Any(2), ArrayAny(1), ArrayAny(2), ProtoAny, StructAny, EnumAny,
    ProtoMapAny, ProtoMapKeyAny, ProtoMapValueAny, RangeAny1,
    Any(3), ArrayAny(3), Any(4), ArrayAny(4), Any(5), ArrayAny(5), MapAny12, MeasureAny1, StringAny]

  predicate TemplatedKind(k: Kind) {
    match k
    case Fixed(_) => false
    case Arbitrary => false
    case Any(i) => 1 <= i <= 5
    case ArrayAny(i) => 1 <= i <= 5
    case _ => true
  }

  /** Array, map and measure kinds never appear without their component kinds. */
  ghost predicate Consistent(c: Collected) {
    && (forall k :: k in c ==> TemplatedKind(k))
    && (forall k :: k in c && k.ArrayAny? ==> Any(k.k) in c)
    && (RangeAny1 in c && c[RangeAny1].TypedSet? ==> Any(1) in c)
    && (MeasureAny1 in c ==> c[MeasureAny1].TypedSet?)
    && (forall k :: k in c && c[k].TypedSet? ==> c[k].dominant in c[k].args)
  }

  /** Every set of `c` is still in `d`, no lower and with at least its arguments. */
  ghost predicate Raised(c: Collected, d: Collected) {
    forall k :: k in c ==>
      && k in d && c[k].Rank() <= d[k].Rank()
      && (c[k].TypedSet? ==> forall a :: a in c[k].args ==> a in d[k].args)
  }

  lemma InsertKeeps(c: Collected, k: Kind, a: InputArg, setDominant: bool)
    ensures Raised(c, Insert(c, k, a, setDominant))
    ensures k in Insert(c, k, a, setDominant) && Insert(c, k, a, setDominant)[k].TypedSet?
    ensures a in Insert(c, k, a, setDominant)[k].args
    ensures SetOf(c, k).TypedSet? && SetOf(c, k).dominant in SetOf(c, k).args ==>
              Insert(c, k, a, setDominant)[k].dominant in Insert(c, k, a, setDominant)[k].args
    ensures !SetOf(c, k).TypedSet? ==>
              Insert(c, k, a, setDominant)[k].dominant in Insert(c, k, a, setDominant)[k].args
  {
  }

  lemma RaisedTransitive(c: Collected, d: Collected, e: Collected)
    requires Raised(c, d) && Raised(d, e)
    ensures Raised(c, e)
  {
  }

  lemma InsertConsistent(c: Collected, k: Kind, a: InputArg, setDominant: bool)
    requires Consistent(c) && TemplatedKind(k)
    requires k.ArrayAny? ==> Any(k.k) in c
    requires k.RangeAny1? ==> Any(1) in c
    ensures Consistent(Insert(c, k, a, setDominant))
  {
    InsertKeeps(c, k, a, setDominant);
  }

  /** Inserting a compound argument and then its component leaves the same sets
      as doing so in the other order. */
  lemma InsertSwap(c: Collected, k1: Kind, a1: InputArg, d1: bool, k2: Kind, a2: InputArg, d2: bool)
    requires k1 != k2
    ensures Insert(Insert(c, k1, a1, d1), k2, a2, d2) == Insert(Insert(c, k2, a2, d2), k1, a1, d1)
  {
  }

  lemma TypedKeeps(c: Collected, k: Kind, a: InputArg)
    requires Consistent(c) && TemplatedKind(k) && CollectTyped(c, k, a).Some?
    ensures var d := CollectTyped(c, k, a).value;
            Consistent(d) && Raised(c, d) && k in d && d[k].TypedSet? && a.Bare() in d[k].args
  {
    hide Insert, Consistent, Raised;
    var b := a.Bare();
    var c1 := Insert(c, k, b, false);
    InsertKeeps(c, k, b, false);
    match k {
      case ArrayAny(i) =>
        InsertBoth(c, k, b, false, Any(i), Component(a, a.typ.element), false);
      case RangeAny1 =>
        InsertBoth(c, k, b, false, Any(1), Component(a, a.typ.element), false);
      case ProtoMapAny =>
        InsertBoth(c, k, b, false, ProtoMapKeyAny, Component(a, a.typ.element.key), true);
        InsertAfter(c, Insert(c1, ProtoMapKeyAny, Component(a, a.typ.element.key), true), k, b,
                    ProtoMapValueAny, Component(a, a.typ.element.value));
      case MapAny12 =>
        InsertBoth(c, k, b, false, Any(1), Component(a, a.typ.key), true);
        InsertAfter(c, Insert(c1, Any(1), Component(a, a.typ.key), true), k, b, Any(2), Component(a, a.typ.value));
      case MeasureAny1 =>
        InsertBoth(c, k, b, false, Any(1), Component(a, a.typ.result), true);
      case _ =>
        InsertConsistent(c, k, b, false);
    }
  }

  /** Inserts a component first, so that the compound kind finds it. */
  lemma InsertBoth(c: Collected, k: Kind, a: InputArg, d1: bool, k2: Kind, a2: InputArg, d2: bool)
    requires Consistent(c) && TemplatedKind(k) && TemplatedKind(k2) && k != k2
    requires !k2.ArrayAny? && !k2.RangeAny1?
    requires k.ArrayAny? ==> k2 == Any(k.k)
    requires k.RangeAny1? ==> k2 == Any(1)
    ensures var d := Insert(Insert(c, k, a, d1), k2, a2, d2);
            Consistent(d) && Raised(c, d) && k in d && d[k].TypedSet? && a in d[k].args
  {
    hide Insert, Consistent, Raised;
    InsertSwap(c, k, a, d1, k2, a2, d2);
    InsertConsistent(c, k2, a2, d2);
    var c2 := Insert(c, k2, a2, d2);
    InsertKeeps(c, k2, a2, d2);
    InsertConsistent(c2, k, a, d1);
    InsertKeeps(c2, k, a, d1);
    RaisedTransitive(c, c2, Insert(c2, k, a, d1));
  }

  lemma InsertAfter(c: Collected, d: Collected, k: Kind, a: InputArg, k2: Kind, a2: InputArg)
    requires Consistent(d) && Raised(c, d) && k in d && d[k].TypedSet? && a in d[k].args
    requires TemplatedKind(k2) && !k2.ArrayAny? && !k2.RangeAny1? && k2 != k
    ensures var e := Insert(d, k2, a2, true);
            Consistent(e) && Raised(c, e) && k in e && e[k].TypedSet? && a in e[k].args
  {
    InsertConsistent(d, k2, a2, true);
    InsertKeeps(d, k2, a2, true);
    RaisedTransitive(c, d, Insert(d, k2, a2, true));
  }

  lemma UntypedKeeps(c: Collected, k: Kind, a: InputArg)
    requires Consistent(c) && TemplatedKind(k) && CollectUntyped(c, k, a).Some?
    ensures var d := CollectUntyped(c, k, a).value;
            Consistent(d) && Raised(c, d) && k in d
  {
  }

  /** One argument check keeps the collection consistent, never lowers a set, and
      records the argument under the kind of its parameter. */
  lemma CheckSingleKeeps(co: Coercer, c: Collected, k: Kind, a: InputArg)
    requires Consistent(c) && (TemplatedKind(k) || k.Fixed? || k.Arbitrary?)
    requires CheckSingle(co, c, k, a).Some?
    ensures var d := CheckSingle(co, c, k, a).value;
            && Consistent(d) && Raised(c, d)
            && (TemplatedKind(k) ==> k in d)
            && (TemplatedKind(k) && !a.IsUntyped() ==> d[k].TypedSet? && a.Bare() in d[k].args)
  {
    hide Consistent, CollectTyped, CollectUntyped;
    if TemplatedKind(k) {
      if a.IsUntyped() { UntypedKeeps(c, k, a); } else { TypedKeeps(c, k, a); }
    }
  }

  lemma CollectResultKeeps(c: Collected, result: Kind)
    requires Consistent(c) && (TemplatedKind(result) || result.Fixed? || result.Arbitrary?)
    ensures Consistent(CollectResult(c, result)) && Raised(c, CollectResult(c, result))
  {
  }

  // ----- Resolution -----

  datatype ResolveResult = Resolved(types: map<Kind, Type>) | Invalid | Internal

  predicate AllCoerce(co: Coercer, args: seq<InputArg>, t: Type) {
    forall i :: 0 <= i < |args| ==> co.coerces(args[i], t)
  }

  /** The type of a kind that is resolved on its own. */
  function Infer(co: Coercer, k: Kind, ts: TypeSet): Option<Type> {
    var shaped := k in {ProtoAny, StructAny, EnumAny, RangeAny1};
    match ts
    case NullSet => if shaped then None else Some(Int64Type)
    case EmptyArraySet => if shaped then None else Some(ArrayType(Int64Type))
    case TypedSet(args, dominant) => co.superType(args, dominant)
  }

  /** The step for one kind, given the kinds resolved before it. */
  function ResolveKind(co: Coercer, k: Kind, ts: TypeSet, types: map<Kind, Type>): ResolveResult {
    match k
    case ProtoMapKeyAny | ProtoMapValueAny =>
      if !ts.TypedSet? then Resolved(types)
      else if AllCoerce(co, ts.args, ts.dominant.typ) then Resolved(types[k := ts.dominant.typ])
      else Invalid
    case RangeAny1 =>
      if Any(1) in types then
        if co.rangeable(types[Any(1)]) then Resolved(types[k := RangeType(types[Any(1)])]) else Invalid
      else if Infer(co, k, ts).None? then Invalid
      else Internal
    case MapAny12 =>
      if Any(1) !in types || Any(2) !in types || !co.groupable(types[Any(1)]) then Invalid
      else
        var t := MapType(types[Any(1)], types[Any(2)]);
        if ts.TypedSet? && !AllCoerce(co, ts.args, t) then Invalid else Resolved(types[k := t])
    case MeasureAny1 =>
      if !ts.TypedSet? || |ts.args| != 1 then Invalid else Resolved(types[k := ts.args[0].typ])
    case ArrayAny(i) =>
      if Any(i) !in types then Internal
      else if types[Any(i)].ArrayType? && !co.arrayOfArray then Invalid
      else
        var t := ArrayType(types[Any(i)]);
        if ts.TypedSet? && !AllCoerce(co, ts.args, t) then Invalid else Resolved(types[k := t])
    case _ =>
      var t := Infer(co, k, ts);
      if t.None? then Invalid else Resolved(types[k := t.value])
  }

  /** Resolves the collected kinds from the `n`-th on. */
  function ResolveFrom(co: Coercer, c: Collected, types: map<Kind, Type>, n: nat): ResolveResult
    requires n <= |KINDS|
    decreases |KINDS| - n
  {
    if n == |KINDS| then Resolved(types)
    else if KINDS[n] !in c then ResolveFrom(co, c, types, n + 1)
    else
      var r := ResolveKind(co, KINDS[n], c[KINDS[n]], types);
      if r.Resolved? then ResolveFrom(co, c, r.types, n + 1) else r
  }

  /** Resolves every collected kind to one type, in the order of the kinds. */
  method DetermineResolvedTypes(co: Coercer, c: Collected) returns (r: ResolveResult)
    ensures r == ResolveFrom(co, c, map[], 0)
  {
    hide ResolveKind;
    var types: map<Kind, Type> := map[];
    for n := 0 to |KINDS|
      invariant ResolveFrom(co, c, types, n) == ResolveFrom(co, c, map[], 0)
    {
      var k := KINDS[n];
      if k in c {
        r := ResolveKind(co, k, c[k], types);
        if !r.Resolved? {
          return;
        }
        types := r.types;
      }
    }
    r := Resolved(types);
  }

  /** `after` is `before` with at most the kind `k` added. */
  ghost predicate Extends(before: map<Kind, Type>, after: map<Kind, Type>, k: Kind) {
    && before.Keys <= after.Keys <= before.Keys + {k}
    && forall j :: j in before ==> after[j] == before[j]
  }

  /** What the type of a resolved kind satisfies. */
  ghost predicate KindResolved(co: Coercer, k: Kind, ts: TypeSet, types: map<Kind, Type>) {
    && (k in types <==> !(k in {ProtoMapKeyAny, ProtoMapValueAny} && !ts.TypedSet?))
    && (k.ArrayAny? ==> Any(k.k) in types && types[k] == ArrayType(types[Any(k.k)]))
    && (k.RangeAny1? ==> Any(1) in types && types[k] == RangeType(types[Any(1)]))
    && (k.MapAny12? ==> Any(1) in types && Any(2) in types && types[k] == MapType(types[Any(1)], types[Any(2)]))
    && (ts.TypedSet? && !k.RangeAny1? ==> AllCoerce(co, ts.args, types[k]))
  }

  /** Every collected kind among the first `n` is resolved, and nothing else. */
  ghost predicate ResolvedUpTo(co: Coercer, c: Collected, types: map<Kind, Type>, n: nat)
    requires n <= |KINDS|
  {
    && (forall i :: 0 <= i < n && KINDS[i] in c ==> KindResolved(co, KINDS[i], c[KINDS[i]], types))
    && (forall k :: k in types ==> k in c && exists i :: 0 <= i < n && KINDS[i] == k)
  }

  /** Component kinds come before the kinds built on them. */
  lemma KindsOrdered(n: nat)
    requires n < |KINDS|
    ensures forall i :: 0 <= i < |KINDS| && KINDS[i] == KINDS[n] ==> i == n
    ensures TemplatedKind(KINDS[n])
    ensures KINDS[n].ArrayAny? ==> exists i :: 0 <= i < n && KINDS[i] == Any(KINDS[n].k)
    ensures KINDS[n].RangeAny1? ==> exists i :: 0 <= i < n && KINDS[i] == Any(1)
  {
    assert KINDS[0] == Any(1) && KINDS[1] == Any(2) && KINDS[11] == Any(3);
    assert KINDS[13] == Any(4) && KINDS[15] == Any(5);
  }

  lemma AllKinds(k: Kind)
    requires TemplatedKind(k)
    ensures exists i :: 0 <= i < |KINDS| && KINDS[i] == k
  {
    assert KINDS[0] == Any(1) && KINDS[1] == Any(2) && KINDS[2] == ArrayAny(1) && KINDS[3] == ArrayAny(2);
    assert KINDS[4] == ProtoAny && KINDS[5] == StructAny && KINDS[6] == EnumAny && KINDS[7] == ProtoMapAny;
    assert KINDS[8] == ProtoMapKeyAny && KINDS[9] == ProtoMapValueAny && KINDS[10] == RangeAny1;
    assert KINDS[11] == Any(3) && KINDS[12] == ArrayAny(3) && KINDS[13] == Any(4) && KINDS[14] == ArrayAny(4);
    assert KINDS[15] == Any(5) && KINDS[16] == ArrayAny(5) && KINDS[17] == MapAny12 && KINDS[18] == MeasureAny1;
    assert KINDS[19] == StringAny;
    match k {
      case Any(i) => assert i == 1 || i == 2 || i == 3 || i == 4 || i == 5;
      case ArrayAny(i) => assert i == 1 || i == 2 || i == 3 || i == 4 || i == 5;
      case _ =>
    }
  }

  lemma KindResolvedKeeps(co: Coercer, k: Kind, ts: TypeSet, types: map<Kind, Type>, types': map<Kind, Type>, j: Kind)
    requires KindResolved(co, k, ts, types) && Extends(types, types', j) && j != k
    ensures KindResolved(co, k, ts, types')
  {
  }

  lemma ResolveKindSound(co: Coercer, k: Kind, ts: TypeSet, types: map<Kind, Type>)
    requires Honest(co) && TemplatedKind(k) && k !in types
    requires k.ArrayAny? ==> Any(k.k) in types
    requires k.RangeAny1? && ts.TypedSet? ==> Any(1) in types
    requires ts.TypedSet? ==> ts.dominant in ts.args
    ensures var r := ResolveKind(co, k, ts, types);
            !r.Internal? && (r.Resolved? ==> Extends(types, r.types, k) && KindResolved(co, k, ts, r.types))
  {
  }

  /** On a consistent collection the internal failures of the resolution cannot
      happen, and every kind that is resolved fits its arguments and components. */
  lemma {:induction false} ResolveSound(co: Coercer, c: Collected, types: map<Kind, Type>, n: nat)
    requires Honest(co) && Consistent(c) && n <= |KINDS| && ResolvedUpTo(co, c, types, n)
    ensures var r := ResolveFrom(co, c, types, n);
            && !r.Internal?
            && (r.Resolved? ==> r.types.Keys <= c.Keys && forall k :: k in c ==> KindResolved(co, k, c[k], r.types))
            && (r.Resolved? ==> forall k :: k in types ==> k in r.types && r.types[k] == types[k])
    decreases |KINDS| - n
  {
    hide ResolveKind, KindResolved, Honest, KINDS;
    if n == |KINDS| {
      forall k | k in c
        ensures KindResolved(co, k, c[k], types)
      {
        AllKinds(k);
      }
    } else if KINDS[n] !in c {
      ResolvedSkip(co, c, types, n);
      ResolveSound(co, c, types, n + 1);
    } else {
      KindsOrdered(n);
      ComponentResolved(co, c, types, n);
      ResolveKindSound(co, KINDS[n], c[KINDS[n]], types);
      var r := ResolveKind(co, KINDS[n], c[KINDS[n]], types);
      if r.Resolved? {
        ResolvedStep(co, c, types, r.types, n);
        ResolveSound(co, c, r.types, n + 1);
      }
    }
  }

  lemma ComponentResolved(co: Coercer, c: Collected, types: map<Kind, Type>, n: nat)
    requires n < |KINDS| && KINDS[n] in c && Consistent(c) && ResolvedUpTo(co, c, types, n)
    ensures KINDS[n] !in types
    ensures KINDS[n].ArrayAny? ==> Any(KINDS[n].k) in types
    ensures KINDS[n].RangeAny1? && c[KINDS[n]].TypedSet? ==> Any(1) in types
  {
    hide KINDS;
    KindsOrdered(n);
  }

  lemma ResolvedStep(co: Coercer, c: Collected, types: map<Kind, Type>, types': map<Kind, Type>, n: nat)
    requires n < |KINDS| && KINDS[n] in c && ResolvedUpTo(co, c, types, n)
    requires Extends(types, types', KINDS[n]) && KindResolved(co, KINDS[n], c[KINDS[n]], types')
    ensures ResolvedUpTo(co, c, types', n + 1)
  {
    hide KindResolved;
    KindsOrdered(n);
    forall i | 0 <= i < n && KINDS[i] in c
      ensures KindResolved(co, KINDS[i], c[KINDS[i]], types')
    {
      KindResolvedKeeps(co, KINDS[i], c[KINDS[i]], types, types', KINDS[n]);
    }
  }

  lemma ResolvedSkip(co: Coercer, c: Collected, types: map<Kind, Type>, n: nat)
    requires n < |KINDS| && KINDS[n] !in c && ResolvedUpTo(co, c, types, n)
    ensures ResolvedUpTo(co, c, types, n + 1)
  {
  }

  /** One of the two types is the array of the other. */
  predicate Paired(t: Type, related: Type) {
    related == ArrayType(t) || (!related.ArrayType? && t == ArrayType(related))
  }

  ghost predicate KindsPaired(types: map<Kind, Type>, n: nat) {
    forall i :: 1 <= i < n && Any(i) in types && ArrayAny(i) in types ==> Paired(types[Any(i)], types[ArrayAny(i)])
  }

  /** The consistency check after resolution, for ANY_1 to ANY_5. */
  method CheckArrayKinds(types: map<Kind, Type>) returns (ok: bool)
    ensures ok <==> KindsPaired(types, 6)
  {
    for i := 1 to 6
      invariant KindsPaired(types, i)
    {
      if Any(i) in types && ArrayAny(i) in types {
        var t, related := types[Any(i)], types[ArrayAny(i)];
        if !related.ArrayType? {
          if !t.ArrayType? || t.element != related {
            return false;
          }
        } else if related.element != t {
          return false;
        }
      }
    }
    ok := true;
  }

  /** The check cannot fail: every array kind is the array of its element kind. */
  lemma ArraysAgree(co: Coercer, c: Collected, types: map<Kind, Type>)
    requires types.Keys <= c.Keys && forall k :: k in c ==> KindResolved(co, k, c[k], types)
    ensures forall i :: Any(i) in types && ArrayAny(i) in types ==> types[ArrayAny(i)] == ArrayType(types[Any(i)])
    ensures KindsPaired(types, 6)
  {
  }

  // ----- Range arguments are not checked -----

  /** A range coerces to its own type only. */
  ghost predicate RangesRigid(co: Coercer) {
    forall a: InputArg, t :: a.typ.RangeType? ==> (co.coerces(a, t) <==> t == a.typ)
  }

  /** ANY_1 is resolved on its own, to the type inferred from its own arguments. */
  lemma AnyOneInferred(co: Coercer, c: Collected)
    requires Honest(co) && Consistent(c) && Any(1) in c && ResolveFrom(co, c, map[], 0).Resolved?
    ensures var types := ResolveFrom(co, c, map[], 0).types;
            Any(1) in types && Infer(co, Any(1), c[Any(1)]) == Some(types[Any(1)])
  {
    hide Honest, Consistent, Infer;
    assert KINDS[0] == Any(1);
    var t := Infer(co, Any(1), c[Any(1)]);
    assert ResolveFrom(co, c, map[], 0) == ResolveFrom(co, c, map[Any(1) := t.value], 1);
    OneResolved(co, c, t.value);
    ResolveSound(co, c, map[Any(1) := t.value], 1);
  }

  lemma OneResolved(co: Coercer, c: Collected, t: Type)
    requires Honest(co) && Any(1) in c && Infer(co, Any(1), c[Any(1)]) == Some(t)
    ensures ResolvedUpTo(co, c, map[Any(1) := t], 1)
  {
    assert KINDS[0] == Any(1);
    hide KINDS;
  }

  const DATE := ScalarType(1)
  const DATETIME := ScalarType(2)

  /** Dates coerce to datetimes; nothing else coerces to another type. */
  const DateCoercer := Coercer(
    (a: InputArg, t) => a.typ == t || (a.typ == DATE && t == DATETIME),
    (args: seq<InputArg>, d) =>
      if forall i :: 0 <= i < |args| ==> args[i].typ == DATE then Some(DATE)
      else if forall i :: 0 <= i < |args| ==> args[i].typ in {DATE, DATETIME} then Some(DATETIME)
      else None,
    (s, t) => false, true, false, t => true, t => true)

  lemma DateCoercerHonest()
    ensures Honest(DateCoercer) && RangesRigid(DateCoercer)
  {
  }

  const DATES := InputArg(NonLiteral, RangeType(DATE), false)
  const MOMENT := InputArg(NonLiteral, DATETIME, false)

  /** What RANGE_CONTAINS(RANGE<T1>, T1) collects from a range of dates and a datetime. */
  const SEEN: Collected := map[
    RangeAny1 := TypedSet([DATES], DATES),
    Any(1) := TypedSet([Component(DATES, DATE), MOMENT], Component(DATES, DATE))]

  lemma DatesCollected()
    ensures var c1 := CheckSingle(DateCoercer, map[], RangeAny1, DATES);
            c1.Some? && CheckSingle(DateCoercer, c1.value, Any(1), MOMENT) == Some(SEEN)
  {
    var first := Component(DATES, DATE);
    var c1: Collected := map[RangeAny1 := TypedSet([DATES], DATES), Any(1) := TypedSet([first], first)];
    assert DATES.Bare() == DATES && MOMENT.Bare() == MOMENT;
    assert Insert(map[], RangeAny1, DATES, false) == map[RangeAny1 := TypedSet([DATES], DATES)];
    assert Insert(map[RangeAny1 := TypedSet([DATES], DATES)], Any(1), first, false) == c1;
    assert CollectTyped(map[], RangeAny1, DATES) == Some(c1);
    assert MOMENT !in [first] && [first] + [MOMENT] == [first, MOMENT];
    assert InsertTyped(c1[Any(1)], MOMENT, false) == SEEN[Any(1)];
    assert Insert(c1, Any(1), MOMENT, false) == SEEN;
  }

  lemma DatesResolved()
    ensures ResolveKind(DateCoercer, Any(1), SEEN[Any(1)], map[]) == Resolved(map[Any(1) := DATETIME])
    ensures ResolveKind(DateCoercer, RangeAny1, SEEN[RangeAny1], map[Any(1) := DATETIME]) ==
            Resolved(map[Any(1) := DATETIME, RangeAny1 := RangeType(DATETIME)])
  {
    var args := SEEN[Any(1)].args;
    assert forall i :: 0 <= i < |args| ==> args[i].typ in {DATE, DATETIME};
    assert args[1].typ != DATE;
    assert DateCoercer.superType(args, SEEN[Any(1)].dominant) == Some(DATETIME);
  }

  /** RANGE_CONTAINS(RANGE<T1>, T1) with a range of dates and a datetime: the range is
      taken for a range of datetimes, which it does not coerce to. */
  lemma RangeNotChecked()
    ensures Honest(DateCoercer) && RangesRigid(DateCoercer)
    ensures var c1 := CheckSingle(DateCoercer, map[], RangeAny1, DATES);
            && c1.Some?
            && var c2 := CheckSingle(DateCoercer, c1.value, Any(1), MOMENT);
            && c2.Some?
            && var r := ResolveFrom(DateCoercer, c2.value, map[], 0);
            && r.Resolved? && RangeAny1 in r.types
            && r.types[RangeAny1] == RangeType(DATETIME)
            && !DateCoercer.coerces(DATES, r.types[RangeAny1])
  {
    hide Honest, CheckSingle, ResolveKind, ResolveFrom;
    DateCoercerHonest();
    DatesCollected();
    DatesResolved();
    assert SEEN.Keys == {Any(1), RangeAny1};
    ResolveTwo(DateCoercer, SEEN, map[Any(1) := DATETIME], map[Any(1) := DATETIME, RangeAny1 := RangeType(DATETIME)]);
  }

  lemma ResolveTwo(co: Coercer, c: Collected, t1: map<Kind, Type>, t2: map<Kind, Type>)
    requires c.Keys == {Any(1), RangeAny1}
    requires ResolveKind(co, Any(1), c[Any(1)], map[]) == Resolved(t1)
    requires ResolveKind(co, RangeAny1, c[RangeAny1], t1) == Resolved(t2)
    ensures ResolveFrom(co, c, map[], 0) == Resolved(t2)
  {
    hide ResolveKind;
    ResolveNone(co, c, t2, 11);
    assert KINDS[10] == RangeAny1;
    assert ResolveFrom(co, c, t1, 10) == ResolveFrom(co, c, t2, 11);
    ResolveBetween(co, c, t1, 1);
    assert KINDS[0] == Any(1);
  }

  lemma {:induction false} ResolveBetween(co: Coercer, c: Collected, types: map<Kind, Type>, n: nat)
    requires c.Keys == {Any(1), RangeAny1} && 1 <= n <= 10
    ensures ResolveFrom(co, c, types, n) == ResolveFrom(co, c, types, 10)
    decreases 10 - n
  {
    hide ResolveKind;
    if n < 10 {
      assert KINDS[n] !in c;
      ResolveBetween(co, c, types, n + 1);
    }
  }

  lemma {:induction false} ResolveNone(co: Coercer, c: Collected, types: map<Kind, Type>, n: nat)
    requires c.Keys == {Any(1), RangeAny1} && 11 <= n <= |KINDS|
    ensures ResolveFrom(co, c, types, n) == Resolved(types)
    decreases |KINDS| - n
  {
    hide ResolveKind;
    if n < |KINDS| {
      assert KINDS[n] !in c;
      ResolveNone(co, c, types, n + 1);
    }
  }
}
