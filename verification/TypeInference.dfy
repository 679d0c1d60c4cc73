/** What type checking and inference decide, stated on the arguments: which arguments a
    parameter accepts, what the arguments say about each templated kind, and which
    choices of types for the kinds are solutions. A signature matches exactly when all
    arguments are accepted and there is a solution.
 */
module TypeInference {
  import opened Types
  import opened Signatures
  import opened ArgumentMapping
  import opened Templates
  import opened SignatureMatching
  import opened ConcreteSignatures
  import opened Matcher

  // ----- Which arguments are accepted -----

  /** The type and the types it is built from. */
  function TypeParts(t: Type): set<Type> {
    match t
    case MapEntryType(k, v) => {t} + TypeParts(k) + TypeParts(v)
    case ArrayType(e) => {t} + TypeParts(e)
    case RangeType(e) => {t} + TypeParts(e)
    case MapType(k, v) => {t} + TypeParts(k) + TypeParts(v)
    case MeasureType(r) => {t} + TypeParts(r)
    case _ => {t}
  }

  ghost predicate HasMeasure(t: Type) {
    exists p :: p in TypeParts(t) && p.MeasureType?
  }

  lemma {:induction false} ContainsMeasureIff(t: Type)
    ensures ContainsMeasure(t) <==> HasMeasure(t)
  {
    match t {
      case MapEntryType(k, v) =>
        ContainsMeasureIff(k);
        ContainsMeasureIff(v);
      case ArrayType(e) => ContainsMeasureIff(e);
      case RangeType(e) => ContainsMeasureIff(e);
      case MapType(k, v) =>
        ContainsMeasureIff(k);
        ContainsMeasureIff(v);
      case MeasureType(_) => assert t in TypeParts(t);
      case _ =>
    }
  }

  /** A parameter of kind `k` accepts the argument. Untyped arguments are accepted where
      their type can be inferred; measures only where one is asked for. */
  ghost predicate Accepted(co: Coercer, k: Kind, a: InputArg) {
    && (if k.MeasureAny1? then a.typ.MeasureType? else !HasMeasure(a.typ))
    && match k
       case Arbitrary => true
       case Fixed(t) => a.typ == t || (co.allowCoercion && (co.coerces(a, t) || co.customCoercion(t, a.typ)))
       case StringAny => co.coerces(a, STRING)
       case ArrayAny(_) => a.IsUntyped() || a.typ.ArrayType?
       case EnumAny => a.IsUntyped() || a.typ.EnumType?
       case StructAny => a.IsUntyped() || a.typ.StructType?
       case ProtoAny => a.IsUntyped() || a.typ.ProtoType? || a.typ.MapEntryType?
       case RangeAny1 => a.IsUntyped() || a.typ.RangeType?
       case MapAny12 => a.IsUntyped() || a.typ.MapType?
       case ProtoMapAny => !a.IsUntyped() && a.typ.ArrayType? && a.typ.element.MapEntryType?
       case MeasureAny1 => !a.IsUntyped()
       case _ => true
  }

  lemma AcceptedIff(co: Coercer, c: Collected, k: Kind, a: InputArg)
    ensures CheckSingle(co, c, k, a).Some? <==> Accepted(co, k, a)
  {
    hide HasMeasure, Insert;
    ContainsMeasureIff(a.typ);
    if k.MeasureAny1? && !a.typ.MeasureType? {
      assert !Fits(k, a.typ);
    }
  }

  // ----- What the arguments say about a kind -----

  /** An argument type seen for a kind; a strong one sets what is dominant. */
  datatype Item = Item(arg: InputArg, strong: bool)

  /** What an argument given for a parameter of kind `j` says about kind `k`. */
  function Says(j: Kind, a: InputArg, k: Kind): Option<Item> {
    if a.IsUntyped() || j.Fixed? || j.Arbitrary? then None
    else if j == k then Some(Item(a.Bare(), false))
    else
      match j
      case ArrayAny(i) =>
        if k == Any(i) && a.typ.ArrayType? then Some(Item(Component(a, a.typ.element), false)) else None
      case RangeAny1 =>
        if k == Any(1) && a.typ.RangeType? then Some(Item(Component(a, a.typ.element), false)) else None
      case MapAny12 =>
        if !a.typ.MapType? then None
        else if k == Any(1) then Some(Item(Component(a, a.typ.key), true))
        else if k == Any(2) then Some(Item(Component(a, a.typ.value), true))
        else None
      case MeasureAny1 =>
        if k == Any(1) && a.typ.MeasureType? then Some(Item(Component(a, a.typ.result), true)) else None
      case ProtoMapAny =>
        if !(a.typ.ArrayType? && a.typ.element.MapEntryType?) then None
        else if k == ProtoMapKeyAny then Some(Item(Component(a, a.typ.element.key), true))
        else if k == ProtoMapValueAny then Some(Item(Component(a, a.typ.element.value), true))
        else None
      case _ => None
  }

  /** All that the arguments say about kind `k`, in their order. */
  function Said(kinds: seq<Kind>, args: seq<InputArg>, k: Kind, n: nat): seq<Item>
    requires n <= |args| <= |kinds|
  {
    if n == 0 then []
    else
      var last := Says(kinds[n - 1], args[n - 1], k);
      Said(kinds, args, k, n - 1) + if last.Some? then [last.value] else []
  }

  /** The argument types, each once, in the order in which they come up. */
  function Once(items: seq<Item>): seq<InputArg> {
    if items == [] then []
    else
      var front, x := Once(items[..|items| - 1]), items[|items| - 1].arg;
      if x in front then front else front + [x]
  }

  /** The first argument type, until a strong one or, after a simple one, a compound one
      comes up. */
  function Dominant(items: seq<Item>): InputArg
    requires items != []
  {
    var n := |items| - 1;
    if n == 0 then items[0].arg
    else
      var before := Dominant(items[..n]);
      if items[n].strong || (before.typ.IsSimple() && !items[n].arg.typ.IsSimple()) then items[n].arg else before
  }

  /** An argument without a type bears on kind `k`. */
  predicate Mentions(j: Kind, a: InputArg, k: Kind) {
    || (j == k && !k.Fixed? && !k.Arbitrary?)
    || (j.ArrayAny? && k == Any(j.k))
    || (j in {ProtoMapKeyAny, ProtoMapValueAny} && k == ProtoMapAny && a.IsUntyped())
  }

  ghost predicate Mentioned(kinds: seq<Kind>, args: seq<InputArg>, k: Kind, n: nat)
    requires n <= |args| <= |kinds|
  {
    exists i :: 0 <= i < n && Mentions(kinds[i], args[i], k)
  }

  predicate EmptyArrayGiven(j: Kind, a: InputArg, k: Kind) {
    Mentions(j, a, k) && j == k && a.form.UntypedEmptyArray?
  }

  ghost predicate EmptyArrayFor(kinds: seq<Kind>, args: seq<InputArg>, k: Kind, n: nat)
    requires n <= |args| <= |kinds|
  {
    exists i :: 0 <= i < n && EmptyArrayGiven(kinds[i], args[i], k)
  }

  /** What the first `n` arguments leave for kind `k`. */
  ghost function SetFor(kinds: seq<Kind>, args: seq<InputArg>, k: Kind, n: nat): Option<TypeSet>
    requires n <= |args| <= |kinds|
  {
    var items := Said(kinds, args, k, n);
    if items != [] then Some(TypedSet(Once(items), Dominant(items)))
    else if !Mentioned(kinds, args, k, n) then None
    else if EmptyArrayFor(kinds, args, k, n) then Some(EmptyArraySet)
    else Some(NullSet)
  }

  /** The collection holds just what the first `n` arguments leave. */
  ghost predicate Holds(c: Collected, kinds: seq<Kind>, args: seq<InputArg>, n: nat)
    requires n <= |args| <= |kinds|
  {
    forall k :: HoldsFor(c, kinds, args, k, n)
  }

  ghost predicate HoldsFor(c: Collected, kinds: seq<Kind>, args: seq<InputArg>, k: Kind, n: nat)
    requires n <= |args| <= |kinds|
  {
    SetFor(kinds, args, k, n) == if k in c then Some(c[k]) else None
  }

  function EntryFor(c: Collected, k: Kind): Option<TypeSet> {
    if k in c then Some(c[k]) else None
  }

  /** What one check does to the set of kind `k`. */
  lemma TypedEntry(c: Collected, j: Kind, a: InputArg, k: Kind)
    requires !j.Fixed? && !j.Arbitrary? && !a.IsUntyped() && Fits(j, a.typ)
    ensures var d := CollectTyped(c, j, a).value;
            EntryFor(d, k) == match Says(j, a, k)
                           case Some(x) => Some(InsertTyped(SetOf(c, k), x.arg, x.strong))
                           case None => EntryFor(c, k)
  {
    hide InsertTyped, Component;
  }

  lemma UntypedEntry(c: Collected, j: Kind, a: InputArg, k: Kind)
    requires !j.Fixed? && !j.Arbitrary? && a.IsUntyped() && CollectUntyped(c, j, a).Some?
    ensures var d := CollectUntyped(c, j, a).value;
            EntryFor(d, k) ==
              if !Mentions(j, a, k) then EntryFor(c, k)
              else if EmptyArrayGiven(j, a, k) && !SetOf(c, k).TypedSet? then Some(EmptyArraySet)
              else Some(SetOf(c, k))
  {
  }

  /** One more argument type. */
  lemma SetSnoc(items: seq<Item>, x: Item)
    ensures items == [] ==> Once(items + [x]) == [x.arg] && Dominant(items + [x]) == x.arg
    ensures items != [] ==>
              TypedSet(Once(items + [x]), Dominant(items + [x])) ==
              InsertTyped(TypedSet(Once(items), Dominant(items)), x.arg, x.strong)
  {
    assert (items + [x])[..|items|] == items;
    assert Once([]) == [];
  }

  lemma SaidStep(kinds: seq<Kind>, args: seq<InputArg>, k: Kind, n: nat)
    requires n < |args| <= |kinds| && Says(kinds[n], args[n], k).Some?
    ensures var x := Says(kinds[n], args[n], k).value;
            var before := SetFor(kinds, args, k, n);
            SetFor(kinds, args, k, n + 1) ==
              Some(InsertTyped(if before.Some? then before.value else NullSet, x.arg, x.strong))
  {
    hide Says, Mentioned, EmptyArrayFor, Once, Dominant;
    var items, x := Said(kinds, args, k, n), Says(kinds[n], args[n], k).value;
    assert Said(kinds, args, k, n + 1) == items + [x];
    SetSnoc(items, x);
  }

  lemma MentionedStep(kinds: seq<Kind>, args: seq<InputArg>, k: Kind, n: nat)
    requires n < |args| <= |kinds| && Says(kinds[n], args[n], k).None?
    ensures Said(kinds, args, k, n + 1) == Said(kinds, args, k, n)
    ensures Mentioned(kinds, args, k, n + 1) <==> Mentioned(kinds, args, k, n) || Mentions(kinds[n], args[n], k)
    ensures EmptyArrayFor(kinds, args, k, n + 1) <==>
              EmptyArrayFor(kinds, args, k, n) || EmptyArrayGiven(kinds[n], args[n], k)
    ensures EmptyArrayFor(kinds, args, k, n) ==> Mentioned(kinds, args, k, n)
  {
    hide Says, Mentions;
  }

  lemma HoldsStep(co: Coercer, c: Collected, kinds: seq<Kind>, args: seq<InputArg>, k: Kind, n: nat)
    requires n < |args| <= |kinds| && HoldsFor(c, kinds, args, k, n) && CheckSingle(co, c, kinds[n], args[n]).Some?
    ensures HoldsFor(CheckSingle(co, c, kinds[n], args[n]).value, kinds, args, k, n + 1)
  {
    hide Says, Mentions, Said, Mentioned, EmptyArrayFor, EmptyArrayGiven, CollectTyped, CollectUntyped, InsertTyped,
         Once, Dominant, MeasureAllowed;
    var j, a := kinds[n], args[n];
    if Says(j, a, k).Some? {
      SaysTyped(j, a, k);
      SaidStep(kinds, args, k, n);
      CollectFits(c, j, a);
      TypedEntry(c, j, a, k);
    } else {
      MentionedStep(kinds, args, k, n);
      MentionsUntyped(j, a, k);
      if !j.Fixed? && !j.Arbitrary? {
        if a.IsUntyped() {
          UntypedEntry(c, j, a, k);
        } else {
          CollectFits(c, j, a);
          TypedEntry(c, j, a, k);
        }
      }
    }
  }

  lemma SaysTyped(j: Kind, a: InputArg, k: Kind)
    requires Says(j, a, k).Some?
    ensures !j.Fixed? && !j.Arbitrary? && !a.IsUntyped()
  {
  }

  lemma CollectFits(c: Collected, j: Kind, a: InputArg)
    requires CollectTyped(c, j, a).Some?
    ensures Fits(j, a.typ)
  {
  }

  lemma MentionsUntyped(j: Kind, a: InputArg, k: Kind)
    requires Says(j, a, k).None?
    ensures j.Fixed? || j.Arbitrary? ==> !Mentions(j, a, k)
    ensures !a.IsUntyped() && Fits(j, a.typ) ==> !Mentions(j, a, k)
    ensures EmptyArrayGiven(j, a, k) ==> Mentions(j, a, k)
  {
  }

  ghost function KindsAlong(ps: seq<Parameter>, walk: seq<nat>): (kinds: seq<Kind>)
    requires InRange(ps, walk)
    ensures |kinds| == |walk| && forall i :: 0 <= i < |kinds| ==> kinds[i] == ps[walk[i]].kind
  {
    seq(|walk|, i requires 0 <= i < |walk| => ps[walk[i]].kind)
  }

  ghost predicate AllAccepted(co: Coercer, kinds: seq<Kind>, args: seq<InputArg>, n: nat)
    requires n <= |args| <= |kinds|
  {
    forall i :: n <= i < |args| ==> Accepted(co, kinds[i], args[i])
  }

  /** The walk succeeds exactly when every argument is accepted, and then it has
      collected, for each kind, just what the arguments say about it. */
  lemma {:induction false} CollectedIs(co: Coercer, ps: seq<Parameter>, walk: seq<nat>, args: seq<InputArg>, n: nat,
                                       c: Collected)
    requires InRange(ps, walk) && n <= |args| <= |walk| && Holds(c, KindsAlong(ps, walk), args, n)
    ensures CheckAll(co, ps, walk[n..], args[n..], c).Some? <==> AllAccepted(co, KindsAlong(ps, walk), args, n)
    ensures var all := CheckAll(co, ps, walk[n..], args[n..], c);
            all.Some? ==> Holds(all.value, KindsAlong(ps, walk), args, |args|)
    decreases |args| - n
  {
    hide CheckSingle, Accepted, HoldsFor;
    if n < |args| {
      var kinds := KindsAlong(ps, walk);
      assert walk[n..][1..] == walk[n + 1..] && args[n..][1..] == args[n + 1..];
      AcceptedIff(co, c, kinds[n], args[n]);
      var d := CheckSingle(co, c, kinds[n], args[n]);
      if d.Some? {
        HoldsNext(co, c, d.value, kinds, args, n);
        CollectedIs(co, ps, walk, args, n + 1, d.value);
      }
    } else {
      assert args[n..] == [];
    }
  }

  lemma HoldsNext(co: Coercer, c: Collected, d: Collected, kinds: seq<Kind>, args: seq<InputArg>, n: nat)
    requires n < |args| <= |kinds| && Holds(c, kinds, args, n) && CheckSingle(co, c, kinds[n], args[n]) == Some(d)
    ensures Holds(d, kinds, args, n + 1)
  {
    hide CheckSingle, HoldsFor;
    var next := n + 1;
    forall k
      ensures HoldsFor(d, kinds, args, k, next)
    {
      HoldsStep(co, c, kinds, args, k, n);
    }
  }

  lemma HoldsNothing(kinds: seq<Kind>, args: seq<InputArg>)
    requires |args| <= |kinds|
    ensures Holds(map[], kinds, args, 0)
  {
  }

  /** The set of a kind has each argument type that was said, once, and nothing else. */
  lemma {:induction false} OnceMeans(items: seq<Item>)
    ensures forall x :: x in Once(items) <==> exists i :: 0 <= i < |items| && items[i].arg == x
    ensures forall i, j :: 0 <= i < j < |Once(items)| ==> Once(items)[i] != Once(items)[j]
    decreases |items|
  {
    if items != [] {
      var n := |items| - 1;
      OnceMeans(items[..n]);
      forall x
        ensures x in Once(items) <==> exists i :: 0 <= i < |items| && items[i].arg == x
      {
        if x in Once(items[..n]) {
          var i :| 0 <= i < n && items[..n][i].arg == x;
          assert items[i].arg == x;
        }
        if i :| 0 <= i < |items| && items[i].arg == x {
          assert i < n ==> items[..n][i].arg == x;
        }
      }
    }
  }

  /** Place `q` is where the dominant argument type was said: no later one is strong; no
      later one is compound unless it is itself; and unless it is the first or strong, it
      is the first compound one after simple ones from the first or a strong one on. */
  ghost predicate DominantAt(items: seq<Item>, q: nat) {
    && q < |items|
    && (forall j :: q < j < |items| ==> !items[j].strong)
    && (items[q].arg.typ.IsSimple() ==> forall j :: q < j < |items| ==> items[j].arg.typ.IsSimple())
    && (q > 0 && !items[q].strong ==>
          !items[q].arg.typ.IsSimple() && exists p: nat :: p < q && StartsAt(items, p, q))
  }

  ghost predicate StartsAt(items: seq<Item>, p: nat, q: nat)
    requires p < q < |items|
  {
    && (p == 0 || items[p].strong)
    && (forall j :: p <= j < q ==> items[j].arg.typ.IsSimple())
    && forall j :: p < j < q ==> !items[j].strong
  }

  lemma {:induction false} DominantMeans(items: seq<Item>) returns (q: nat)
    requires items != []
    ensures DominantAt(items, q) && Dominant(items) == items[q].arg
    decreases |items|
  {
    var n := |items| - 1;
    if n == 0 {
      q := 0;
    } else {
      var front := items[..n];
      var b := DominantMeans(front);
      assert forall j :: 0 <= j < n ==> front[j] == items[j];
      if items[n].strong || (items[b].arg.typ.IsSimple() && !items[n].arg.typ.IsSimple()) {
        q := n;
        if !items[n].strong {
          assert StartsAt(items, b, n);
        }
      } else {
        q := b;
        if b > 0 && !items[b].strong {
          var p: nat :| p < b && StartsAt(front, p, b);
          assert StartsAt(items, p, b);
        }
      }
    }
  }

  // ----- Solutions -----

  /** What the arguments and the result say about kind `k`. */
  ghost function SeenSet(kinds: seq<Kind>, args: seq<InputArg>, result: Kind, k: Kind): Option<TypeSet>
    requires |args| <= |kinds|
  {
    var ts := SetFor(kinds, args, k, |args|);
    if ts.None? && k == result && exists part :: part in PartsOf(k) && SetFor(kinds, args, part, |args|).Some? then
      Some(NullSet)
    else ts
  }

  /** The kinds that a compound kind is built from. */
  function PartsOf(k: Kind): set<Kind> {
    match k
    case ArrayAny(i) => {Any(i)}
    case RangeAny1 => {Any(1)}
    case MapAny12 => {Any(1), Any(2)}
    case ProtoMapAny => {ProtoMapKeyAny, ProtoMapValueAny}
    case _ => {}
  }

  ghost predicate CoerceTo(co: Coercer, ts: TypeSet, t: Type) {
    ts.TypedSet? ==> forall a :: a in ts.args ==> co.coerces(a, t)
  }

  /** The type of kind `k` is right: compound kinds are built from their parts and their
      arguments coerce to them; without typed arguments a kind is INT64 or ARRAY<INT64>,
      unless it needs a certain shape; otherwise it is the common supertype. */
  ghost predicate Right(co: Coercer, k: Kind, ts: TypeSet, types: map<Kind, Type>) {
    match k
    case ProtoMapKeyAny | ProtoMapValueAny =>
      if ts.TypedSet? then k in types && types[k] == ts.dominant.typ && CoerceTo(co, ts, types[k]) else k !in types
    case ArrayAny(i) =>
      && k in types && Any(i) in types && types[k] == ArrayType(types[Any(i)]) && CoerceTo(co, ts, types[k])
      && (types[Any(i)].ArrayType? ==> co.arrayOfArray)
    case RangeAny1 =>
      k in types && Any(1) in types && types[k] == RangeType(types[Any(1)]) && co.rangeable(types[Any(1)])
    case MapAny12 =>
      && k in types && Any(1) in types && Any(2) in types && types[k] == MapType(types[Any(1)], types[Any(2)])
      && co.groupable(types[Any(1)]) && CoerceTo(co, ts, types[k])
    case MeasureAny1 => k in types && ts.TypedSet? && |ts.args| == 1 && types[k] == ts.args[0].typ
    case _ =>
      && k in types
      && match ts
         case NullSet => types[k] == Int64Type && k !in {ProtoAny, StructAny, EnumAny}
         case EmptyArraySet => types[k] == ArrayType(Int64Type) && k !in {ProtoAny, StructAny, EnumAny}
         case TypedSet(args, dominant) => co.superType(args, dominant) == Some(types[k])
  }

  /** A solution: the type of every kind that was seen is right, and no other has one. */
  ghost predicate Solution(co: Coercer, c: Collected, types: map<Kind, Type>) {
    && (forall k :: k in types ==> k in c)
    && (forall k :: k in c ==> Right(co, k, c[k], types))
  }

  ghost predicate Agree(types: map<Kind, Type>, solution: map<Kind, Type>, n: nat)
    requires n <= |KINDS|
  {
    && (forall k :: k in types ==> k in solution && types[k] == solution[k])
    && (forall i :: 0 <= i < n && KINDS[i] in solution ==> KINDS[i] in types)
    && (forall k :: k in types ==> exists i :: 0 <= i < n && KINDS[i] == k)
  }

  lemma CoerceIff(co: Coercer, ts: TypeSet, t: Type)
    ensures CoerceTo(co, ts, t) <==> (ts.TypedSet? ==> AllCoerce(co, ts.args, t))
  {
    if ts.TypedSet? && CoerceTo(co, ts, t) {
      assert forall i :: 0 <= i < |ts.args| ==> ts.args[i] in ts.args;
    }
  }

  lemma StepRight(co: Coercer, k: Kind, ts: TypeSet, types: map<Kind, Type>)
    requires TemplatedKind(k) && k !in types
    ensures var r := ResolveKind(co, k, ts, types);
            r.Resolved? ==> Extends(types, r.types, k) && Right(co, k, ts, r.types)
  {
    hide AllCoerce, CoerceTo;
    var r := ResolveKind(co, k, ts, types);
    if r.Resolved? && k in r.types {
      CoerceIff(co, ts, r.types[k]);
    }
  }

  lemma RightKept(co: Coercer, k: Kind, ts: TypeSet, types: map<Kind, Type>, types': map<Kind, Type>, j: Kind)
    requires Right(co, k, ts, types) && Extends(types, types', j) && j != k
    ensures Right(co, k, ts, types')
  {
    hide CoerceTo;
  }

  /** The kinds that come first have their types, and only they. */
  ghost predicate RightUpTo(co: Coercer, c: Collected, types: map<Kind, Type>, n: nat)
    requires n <= |KINDS|
  {
    && (forall i :: 0 <= i < n && KINDS[i] in c ==> Right(co, KINDS[i], c[KINDS[i]], types))
    && (forall k :: k in types ==> k in c && exists i :: 0 <= i < n && KINDS[i] == k)
  }

  lemma {:induction false} ResolvedIsSolution(co: Coercer, c: Collected, types: map<Kind, Type>, n: nat)
    requires (forall k :: k in c ==> TemplatedKind(k)) && n <= |KINDS| && RightUpTo(co, c, types, n)
    ensures var r := ResolveFrom(co, c, types, n);
            r.Resolved? ==> Solution(co, c, r.types)
    decreases |KINDS| - n
  {
    hide ResolveKind, Right, KINDS;
    if n == |KINDS| {
      forall k | k in c
        ensures Right(co, k, c[k], types)
      {
        AllKinds(k);
      }
    } else if KINDS[n] !in c {
      ResolvedIsSolution(co, c, types, n + 1);
    } else {
      var k := KINDS[n];
      KindsOrdered(n);
      StepRight(co, k, c[k], types);
      var r := ResolveKind(co, k, c[k], types);
      if r.Resolved? {
        forall i | 0 <= i < n && KINDS[i] in c
          ensures Right(co, KINDS[i], c[KINDS[i]], r.types)
        {
          RightKept(co, KINDS[i], c[KINDS[i]], types, r.types, k);
        }
        ResolvedIsSolution(co, c, r.types, n + 1);
      }
    }
  }

  lemma StepResolves(co: Coercer, k: Kind, ts: TypeSet, types: map<Kind, Type>, solution: map<Kind, Type>)
    requires TemplatedKind(k) && Right(co, k, ts, solution)
    requires forall part :: part in types ==> part in solution && types[part] == solution[part]
    requires forall part :: part in PartsOf(k) && part in solution ==> part in types
    ensures ResolveKind(co, k, ts, types) == Resolved(if k in solution then types[k := solution[k]] else types)
  {
    hide AllCoerce, CoerceTo;
    if k in solution {
      CoerceIff(co, ts, solution[k]);
    }
  }

  lemma PartsEarlier(n: nat, part: Kind)
    requires n < |KINDS| && part in PartsOf(KINDS[n]) && !KINDS[n].ProtoMapAny?
    ensures exists i :: 0 <= i < n && KINDS[i] == part
  {
    hide KINDS;
    KindsOrdered(n);
    if KINDS[n].MapAny12? {
      MapPartsFirst(n);
    }
  }

  lemma MapPartsFirst(n: nat)
    requires n < |KINDS| && KINDS[n].MapAny12?
    ensures n > 1 && KINDS[0] == Any(1) && KINDS[1] == Any(2)
  {
  }

  lemma {:induction false} SolutionResolves(co: Coercer, c: Collected, types: map<Kind, Type>,
                                            solution: map<Kind, Type>, n: nat)
    requires (forall k :: k in c ==> TemplatedKind(k)) && Solution(co, c, solution)
    requires n <= |KINDS| && Agree(types, solution, n)
    ensures ResolveFrom(co, c, types, n) == Resolved(solution)
    decreases |KINDS| - n
  {
    hide ResolveKind, Right, KINDS;
    if n == |KINDS| {
      forall k | k in solution
        ensures k in types
      {
        AllKinds(k);
      }
      assert types == solution;
    } else if KINDS[n] !in c {
      AgreeNext(types, types, solution, n);
      SolutionResolves(co, c, types, solution, n + 1);
    } else {
      var k := KINDS[n];
      KindsOrdered(n);
      if k.ProtoMapAny? {
        MapEntryResolves(co, c[k], types, solution);
      } else {
        PartsAgree(types, solution, n);
        StepResolves(co, k, c[k], types, solution);
      }
      var next := if k in solution then types[k := solution[k]] else types;
      AgreeNext(types, next, solution, n);
      SolutionResolves(co, c, next, solution, n + 1);
    }
  }

  lemma MapEntryResolves(co: Coercer, ts: TypeSet, types: map<Kind, Type>, solution: map<Kind, Type>)
    requires Right(co, ProtoMapAny, ts, solution)
    ensures ProtoMapAny in solution
    ensures ResolveKind(co, ProtoMapAny, ts, types) == Resolved(types[ProtoMapAny := solution[ProtoMapAny]])
  {
  }

  lemma PartsAgree(types: map<Kind, Type>, solution: map<Kind, Type>, n: nat)
    requires n < |KINDS| && Agree(types, solution, n) && !KINDS[n].ProtoMapAny?
    ensures forall part :: part in PartsOf(KINDS[n]) && part in solution ==> part in types
  {
    hide KINDS, PartsOf;
    forall part | part in PartsOf(KINDS[n]) && part in solution
      ensures part in types
    {
      PartsEarlier(n, part);
    }
  }

  lemma AgreeNext(types: map<Kind, Type>, next: map<Kind, Type>, solution: map<Kind, Type>, n: nat)
    requires n < |KINDS| && Agree(types, solution, n)
    requires next == if KINDS[n] in solution then types[KINDS[n] := solution[KINDS[n]]] else types
    ensures Agree(next, solution, n + 1)
  {
    hide KINDS;
  }

  /** Resolution succeeds exactly when there is a solution, and finds it; there is at most
      one. */
  lemma ResolvesIffSolution(co: Coercer, c: Collected)
    requires forall k :: k in c ==> TemplatedKind(k)
    ensures ResolveFrom(co, c, map[], 0).Resolved? <==> exists types :: Solution(co, c, types)
    ensures forall types :: Solution(co, c, types) ==> ResolveFrom(co, c, map[], 0) == Resolved(types)
  {
    hide ResolveFrom, Solution, KINDS;
    assert RightUpTo(co, c, map[], 0);
    ResolvedIsSolution(co, c, map[], 0);
    forall types | Solution(co, c, types)
      ensures ResolveFrom(co, c, map[], 0) == Resolved(types)
    {
      assert Agree(map[], types, 0);
      SolutionResolves(co, c, map[], types, 0);
    }
  }

  // ----- The theorem -----

  /** The types of the kinds that the arguments and the result bring up are right. */
  ghost predicate Typing(co: Coercer, kinds: seq<Kind>, args: seq<InputArg>, result: Kind, types: map<Kind, Type>)
    requires |args| <= |kinds|
  {
    && (forall k :: k in types ==> SeenSet(kinds, args, result, k).Some?)
    && (forall k :: RightIfSeen(co, kinds, args, result, k, types))
    && (result.Fixed? || result.Arbitrary? || result in types)
  }

  ghost predicate RightIfSeen(co: Coercer, kinds: seq<Kind>, args: seq<InputArg>, result: Kind, k: Kind,
                              types: map<Kind, Type>)
    requires |args| <= |kinds|
  {
    SeenSet(kinds, args, result, k).Some? ==> Right(co, k, SeenSet(kinds, args, result, k).value, types)
  }

  lemma ResultSeen(c: Collected, kinds: seq<Kind>, args: seq<InputArg>, result: Kind, k: Kind)
    requires |args| <= |kinds| && Holds(c, kinds, args, |args|)
    ensures EntryFor(CollectResult(c, result), k) == SeenSet(kinds, args, result, k)
  {
    hide SetFor;
    assert HoldsFor(c, kinds, args, k, |args|);
    forall part | part in PartsOf(k)
      ensures part in c <==> SetFor(kinds, args, part, |args|).Some?
    {
      assert HoldsFor(c, kinds, args, part, |args|);
    }
  }

  lemma SolutionIffTyping(co: Coercer, c: Collected, kinds: seq<Kind>, args: seq<InputArg>, result: Kind,
                          types: map<Kind, Type>)
    requires |args| <= |kinds| && Holds(c, kinds, args, |args|)
    ensures Typing(co, kinds, args, result, types) <==>
              && Solution(co, CollectResult(c, result), types)
              && (result.Fixed? || result.Arbitrary? || result in types)
  {
    hide Holds, CollectResult, Right, SeenSet;
    var d := CollectResult(c, result);
    forall k
      ensures EntryFor(d, k) == SeenSet(kinds, args, result, k)
    {
      ResultSeen(c, kinds, args, result, k);
    }
    if Solution(co, d, types) {
      forall k
        ensures RightIfSeen(co, kinds, args, result, k, types)
      {
        assert EntryFor(d, k) == SeenSet(kinds, args, result, k);
      }
    }
    if Typing(co, kinds, args, result, types) {
      forall k | k in d
        ensures Right(co, k, d[k], types)
      {
        assert EntryFor(d, k) == SeenSet(kinds, args, result, k);
        assert RightIfSeen(co, kinds, args, result, k, types);
      }
    }
  }

  /** The arguments match the types of a signature exactly when each is accepted by the
      parameter at its place and the kinds have right types, which are then the inferred
      ones. */
  lemma MatchesTypesIff(co: Coercer, sig: Signature, args: seq<InputArg>, walk: seq<nat>)
    requires sig.Valid() && |args| <= |walk| && InRange(sig.params, walk)
    ensures var kinds := KindsAlong(sig.params, walk);
            MatchesTypes(co, sig, args, walk) <==>
              AllAccepted(co, kinds, args, 0) && exists types :: Typing(co, kinds, args, sig.result, types)
    ensures var kinds := KindsAlong(sig.params, walk);
            MatchesTypes(co, sig, args, walk) ==>
              var c := CollectResult(CheckAll(co, sig.params, walk, args, map[]).value, sig.result);
              Typing(co, kinds, args, sig.result, ResolveFrom(co, c, map[], 0).types)
  {
    hide Holds, CheckAll, CollectResult, Consistent, Typing, AllAccepted, ResolveFrom, Solution, KINDS;
    var kinds := KindsAlong(sig.params, walk);
    assert walk[0..] == walk && args[0..] == args;
    HoldsNothing(kinds, args);
    CollectedIs(co, sig.params, walk, args, 0, map[]);
    if AllAccepted(co, kinds, args, 0) {
      var c := CheckAll(co, sig.params, walk, args, map[]).value;
      var d := CollectResult(c, sig.result);
      EmptyConsistent(co);
      CheckAllKeeps(co, sig.params, walk, args, map[]);
      TemplatedOnly(c, sig.result);
      ResolvesIffSolution(co, d);
      forall types
        ensures Solution(co, d, types) && (sig.result.Fixed? || sig.result.Arbitrary? || sig.result in types) <==>
                  Typing(co, kinds, args, sig.result, types)
      {
        SolutionIffTyping(co, c, kinds, args, sig.result, types);
      }
    }
  }

  lemma TemplatedOnly(c: Collected, result: Kind)
    requires Consistent(c) && (TemplatedKind(result) || result.Fixed? || result.Arbitrary?)
    ensures forall k :: k in CollectResult(c, result) ==> TemplatedKind(k)
  {
  }

  // ----- Without templates -----

  predicate Untemplated(k: Kind) {
    k.Fixed? || k.Arbitrary?
  }

  lemma {:induction false} NothingSaid(kinds: seq<Kind>, args: seq<InputArg>, k: Kind, n: nat)
    requires n <= |args| <= |kinds| && forall i :: 0 <= i < |kinds| ==> Untemplated(kinds[i])
    ensures SetFor(kinds, args, k, n).None?
    decreases n
  {
    if n > 0 {
      NothingSaid(kinds, args, k, n - 1);
    }
  }

  /** Against a signature without templates, arguments without measures match exactly when
      each has the type at its place or, where coercion is allowed, coerces to it or may
      be coerced by a rule of the parameter; and nothing is left without a type. */
  lemma FixedMatchIff(co: Coercer, sig: Signature, args: seq<InputArg>, r: nat)
    requires sig.Valid() && Untemplated(sig.result) && |args| <= |Expansion(sig.params, r)|
    requires InRange(sig.params, Expansion(sig.params, r))
    requires forall i :: 0 <= i < |sig.params| ==> Untemplated(sig.params[i].kind)
    requires forall i :: 0 <= i < |args| ==> !HasMeasure(args[i].typ)
    ensures MatchesTypes(co, sig, args, Expansion(sig.params, r)) <==>
              forall i :: 0 <= i < |args| && sig.params[Expansion(sig.params, r)[i]].kind.Fixed? ==>
                var t := sig.params[Expansion(sig.params, r)[i]].kind.typ;
                args[i].typ == t || (co.allowCoercion && (co.coerces(args[i], t) || co.customCoercion(t, args[i].typ)))
    ensures !MapPartUntyped(sig.params, args, r)
  {
    hide Expansion, MatchesTypes, HasMeasure, SetFor, Right;
    var walk := Expansion(sig.params, r);
    var kinds := KindsAlong(sig.params, walk);
    MatchesTypesIff(co, sig, args, walk);
    forall k
      ensures SetFor(kinds, args, k, |args|).None?
    {
      NothingSaid(kinds, args, k, |args|);
    }
    assert Typing(co, kinds, args, sig.result, map[]);
    assert AllAccepted(co, kinds, args, 0) <==> forall i :: 0 <= i < |args| ==> Accepted(co, kinds[i], args[i]);
  }

  // ----- Common supertypes -----

  predicate AnyKind(k: Kind) {
    Untemplated(k) || k.Any? || k.ArrayAny?
  }

  /** The types `choice` are the common supertypes of what the arguments say about
      ANY_1 to ANY_5, and the arrays coerce to arrays of them. */
  ghost predicate Supertypes(co: Coercer, kinds: seq<Kind>, args: seq<InputArg>, choice: nat -> Type)
    requires |args| <= |kinds|
  {
    && (forall i :: Said(kinds, args, Any(i), |args|) != [] ==>
          var items := Said(kinds, args, Any(i), |args|);
          co.superType(Once(items), Dominant(items)) == Some(choice(i)))
    && (forall j :: 0 <= j < |args| && kinds[j].ArrayAny? && !args[j].IsUntyped() ==>
          co.coerces(args[j].Bare(), ArrayType(choice(kinds[j].k))))
  }

  /** Every kind that is mentioned, or that the result needs, is said something about. */
  ghost predicate Determined(kinds: seq<Kind>, args: seq<InputArg>, result: Kind)
    requires |args| <= |kinds|
  {
    && (forall i :: Mentioned(kinds, args, Any(i), |args|) ==> Said(kinds, args, Any(i), |args|) != [])
    && (result.Any? || result.ArrayAny? ==> Said(kinds, args, Any(result.k), |args|) != [])
  }

  function TypeFor(choice: nat -> Type, k: Kind): Type {
    match k
    case ArrayAny(i) => ArrayType(choice(i))
    case Any(i) => choice(i)
    case _ => Int64Type
  }

  /** The types that the choice gives to the kinds that were seen. */
  ghost function Chosen(kinds: seq<Kind>, args: seq<InputArg>, result: Kind, choice: nat -> Type): map<Kind, Type>
    requires |args| <= |kinds|
  {
    map k | k in KINDS && SeenSet(kinds, args, result, k).Some? :: TypeFor(choice, k)
  }

  ghost predicate AnyKinds(kinds: seq<Kind>) {
    forall i :: 0 <= i < |kinds| ==> AnyKind(kinds[i]) && (TemplatedKind(kinds[i]) || Untemplated(kinds[i]))
  }

  /** Only ANY and ARRAY_ANY kinds come up. */
  lemma {:induction false} SeenAny(kinds: seq<Kind>, args: seq<InputArg>, k: Kind, n: nat)
    requires n <= |args| <= |kinds| && AnyKinds(kinds) && SetFor(kinds, args, k, n).Some?
    ensures (k.Any? || k.ArrayAny?) && TemplatedKind(k)
    ensures Mentioned(kinds, args, if k.ArrayAny? then Any(k.k) else k, n)
    decreases n
  {
    hide Once, Dominant;
    if n > 0 && SetFor(kinds, args, k, n - 1).Some? {
      SeenAny(kinds, args, k, n - 1);
    } else if n > 0 {
      assert AnyKind(kinds[n - 1]);
    }
  }

  /** What is said about an array kind is said by the arguments given for it. */
  lemma {:induction false} SaidByArrays(kinds: seq<Kind>, args: seq<InputArg>, k: Kind, n: nat, x: Item)
    requires n <= |args| <= |kinds| && k.ArrayAny? && x in Said(kinds, args, k, n)
    ensures exists j :: 0 <= j < n && kinds[j] == k && !args[j].IsUntyped() && x.arg == args[j].Bare()
    decreases n
  {
    if n > 0 {
      var last := Says(kinds[n - 1], args[n - 1], k);
      if last != Some(x) {
        SaidByArrays(kinds, args, k, n - 1, x);
      }
    }
  }

  lemma ArraysRight(co: Coercer, kinds: seq<Kind>, args: seq<InputArg>, choice: nat -> Type, k: Kind)
    requires |args| <= |kinds| && k.ArrayAny? && Supertypes(co, kinds, args, choice)
    requires SetFor(kinds, args, k, |args|).Some?
    ensures CoerceTo(co, SetFor(kinds, args, k, |args|).value, ArrayType(choice(k.k)))
  {
    hide Says, Dominant, Once;
    var items := Said(kinds, args, k, |args|);
    if items != [] {
      OnceMeans(items);
      forall a | a in Once(items)
        ensures co.coerces(a, ArrayType(choice(k.k)))
      {
        var i :| 0 <= i < |items| && items[i].arg == a;
        SaidByArrays(kinds, args, k, |args|, items[i]);
      }
    }
  }

  lemma ChosenRight(co: Coercer, kinds: seq<Kind>, args: seq<InputArg>, result: Kind, choice: nat -> Type, k: Kind)
    requires |args| <= |kinds| && AnyKinds(kinds) && AnyKinds([result])
    requires Supertypes(co, kinds, args, choice) && Determined(kinds, args, result)
    requires co.arrayOfArray || forall i :: !choice(i).ArrayType?
    requires SeenSet(kinds, args, result, k).Some?
    ensures TemplatedKind(k) && Right(co, k, SeenSet(kinds, args, result, k).value, Chosen(kinds, args, result, choice))
  {
    hide Once, Dominant, Said, Mentioned, KINDS, CoerceTo, EmptyArrayFor;
    assert [result][0] == result;
    var ts := SetFor(kinds, args, k, |args|);
    if ts.Some? {
      SeenAny(kinds, args, k, |args|);
    }
    AllKinds(k);
    if k.ArrayAny? {
      AllKinds(Any(k.k));
      assert Said(kinds, args, Any(k.k), |args|) != [];
      if ts.Some? {
        ArraysRight(co, kinds, args, choice, k);
      } else {
        NothingCoerces(co, ArrayType(choice(k.k)));
      }
    }
  }

  lemma NothingCoerces(co: Coercer, t: Type)
    ensures CoerceTo(co, NullSet, t)
  {
  }

  /** Arguments given for ANY and ARRAY_ANY parameters match when those of each kind have
      a common supertype and the arrays coerce; the supertypes are what is inferred. */
  lemma SupertypesMatch(co: Coercer, sig: Signature, args: seq<InputArg>, walk: seq<nat>, choice: nat -> Type)
    requires sig.Valid() && |args| <= |walk| && InRange(sig.params, walk)
    requires AnyKinds(KindsAlong(sig.params, walk)) && AnyKinds([sig.result])
    requires AllAccepted(co, KindsAlong(sig.params, walk), args, 0)
    requires Supertypes(co, KindsAlong(sig.params, walk), args, choice)
    requires Determined(KindsAlong(sig.params, walk), args, sig.result)
    requires co.arrayOfArray || forall i :: !choice(i).ArrayType?
    ensures MatchesTypes(co, sig, args, walk)
    ensures var kinds := KindsAlong(sig.params, walk);
            Typing(co, kinds, args, sig.result, Chosen(kinds, args, sig.result, choice))
  {
    hide MatchesTypes, AllAccepted, Supertypes, Determined, SeenSet, Right, KINDS, AnyKinds;
    var kinds := KindsAlong(sig.params, walk);
    var types := Chosen(kinds, args, sig.result, choice);
    MatchesTypesIff(co, sig, args, walk);
    forall k
      ensures RightIfSeen(co, kinds, args, sig.result, k, types)
    {
      if SeenSet(kinds, args, sig.result, k).Some? {
        ChosenRight(co, kinds, args, sig.result, choice, k);
      }
    }
    ResultChosen(co, kinds, args, sig.result, choice);
    assert Typing(co, kinds, args, sig.result, types);
  }

  lemma ResultChosen(co: Coercer, kinds: seq<Kind>, args: seq<InputArg>, result: Kind, choice: nat -> Type)
    requires |args| <= |kinds| && AnyKinds([result]) && Determined(kinds, args, result)
    ensures Untemplated(result) || result in Chosen(kinds, args, result, choice)
  {
    hide Once, Dominant, Said, Mentioned, KINDS, EmptyArrayFor;
    assert [result][0] == result;
    if !Untemplated(result) {
      AllKinds(result);
      assert SetFor(kinds, args, Any(result.k), |args|).Some?;
      if result.ArrayAny? {
        assert Any(result.k) in PartsOf(result);
      }
      assert SeenSet(kinds, args, result, result).Some?;
      assert result in KINDS;
    }
  }
}
