/** The whole match of an argument list against one signature, and what a
    successful match guarantees for every argument.
 */
module Matcher {
  import opened Types
  import opened Signatures
  import opened ArgumentCount
  import opened ArgumentMapping
  import opened Templates
  import opened SignatureMatching
  import opened ConcreteSignatures

  datatype Signature = Signature(params: seq<Parameter>, result: Kind) {
    ghost predicate Valid() {
      Signatures.Valid(params) && KindsValid(params) && (TemplatedKind(result) || result.Fixed? || result.Arbitrary?)
    }
  }

  datatype MatchResult =
    | NoMatch
    | InternalFailure
    | Match(list: seq<Concrete>, indices: seq<int>)

  /** The arguments pass the type checks along `walk`, every templated kind is
      resolved, and so is the result. */
  ghost predicate MatchesTypes(co: Coercer, sig: Signature, args: seq<InputArg>, walk: seq<nat>) {
    && |args| <= |walk| && InRange(sig.params, walk)
    && var all := CheckAll(co, sig.params, walk, args, map[]);
    && all.Some?
    && var res := ResolveFrom(co, CollectResult(all.value, sig.result), map[], 0);
    && res.Resolved? && (sig.result.Arbitrary? || TypeOf(sig.result, res.types).Some?)
  }

  /** Default values stand only at places of parameters that have one. */
  ghost predicate DefaultsPlaced(ps: seq<Parameter>, args: seq<InputArg>, r: nat) {
    forall k :: 0 <= k < |args| && k < |Expansion(ps, r)| && args[k].isDefault ==>
      Expansion(ps, r)[k] < |ps| && ps[Expansion(ps, r)[k]].default.Some?
  }

  /** The type `t` of a concrete argument is right for the argument `a` of a
      parameter of kind `k`. Untyped arguments take any type; a range argument is
      not checked against the inferred range type. */
  ghost predicate Accepts(co: Coercer, k: Kind, a: InputArg, t: Type) {
    match k
    case Arbitrary => t == a.typ
    case Fixed(f) => t == f && (a.typ == f || (co.allowCoercion && (co.coerces(a, f) || co.customCoercion(f, a.typ))))
    case RangeAny1 => t.RangeType?
    case ArrayAny(_) => t.ArrayType? && (a.IsUntyped() || co.coerces(a, t))
    case _ => a.IsUntyped() || co.coerces(a, t)
  }

  /** The argument fits its concrete type in every case: a range argument does too. */
  ghost predicate FitsFully(co: Coercer, k: Kind, a: InputArg, t: Type) {
    Accepts(co, k, a, t) && (k.RangeAny1? ==> a.IsUntyped() || co.coerces(a, t))
  }

  ghost predicate AllFit(co: Coercer, ps: seq<Parameter>, args: seq<InputArg>, r: nat, list: seq<Concrete>)
    requires Sound(co, ps, args, r, list)
  {
    forall k :: 0 <= k < |args| ==>
      FitsFully(co, ps[Expansion(ps, r)[k]].kind, args[k], ConcreteArguments(list)[k].typ.value)
  }

  /** The type that the arguments recorded for ANY_1 have in common. */
  ghost function AnyOne(co: Coercer, ps: seq<Parameter>, args: seq<InputArg>, walk: seq<nat>): Option<Type>
    requires |args| <= |walk| && InRange(ps, walk)
  {
    var all := CheckAll(co, ps, walk, args, map[]);
    if all.Some? && Any(1) in all.value then Infer(co, Any(1), all.value[Any(1)]) else None
  }

  /** The element type of every range argument is the type inferred for ANY_1. */
  ghost predicate RangesAgree(co: Coercer, ps: seq<Parameter>, args: seq<InputArg>, walk: seq<nat>)
    requires |args| <= |walk| && InRange(ps, walk)
  {
    forall k :: 0 <= k < |args| && ps[walk[k]].kind.RangeAny1? && !args[k].IsUntyped() ==>
      args[k].typ.RangeType? && AnyOne(co, ps, args, walk) == Some(args[k].typ.element)
  }

  /** Every argument has a concrete argument of its own, made from the parameter at
      its place in the expansion and with a type it may have. */
  ghost predicate Sound(co: Coercer, ps: seq<Parameter>, args: seq<InputArg>, r: nat, list: seq<Concrete>) {
    var flat, walk := ConcreteArguments(list), Expansion(ps, r);
    && |flat| == |args| <= |walk| && InRange(ps, walk)
    && forall k :: 0 <= k < |args| ==> PlaceSound(co, ps, walk[k], args[k], flat[k])
  }

  ghost predicate PlaceSound(co: Coercer, ps: seq<Parameter>, s: nat, a: InputArg, c: Concrete) {
    s < |ps| && c.origin == s && c.typ.Some? && Accepts(co, ps[s].kind, a, c.typ.value)
  }

  /** Some parameter for the key or the value of a proto map has arguments, but no
      argument that determines its type. */
  ghost predicate MapPartUntyped(ps: seq<Parameter>, args: seq<InputArg>, r: nat)
    requires |args| <= |Expansion(ps, r)| && InRange(ps, Expansion(ps, r))
  {
    exists i :: 0 <= i < |args| && UntypedPart(ps, Expansion(ps, r), args, ps[Expansion(ps, r)[i]].kind)
  }

  ghost predicate UntypedPart(ps: seq<Parameter>, walk: seq<nat>, args: seq<InputArg>, part: Kind)
    requires |args| <= |walk| && InRange(ps, walk)
  {
    && part in {ProtoMapKeyAny, ProtoMapValueAny}
    && forall j :: 0 <= j < |args| && Determines(ps[walk[j]].kind, part) ==> args[j].IsUntyped()
  }

  // ----- Places and occurrences -----

  /** A parameter occurs if and only if it has a place among the arguments. */
  lemma OccursIffPlaced(ps: seq<Parameter>, args: seq<InputArg>, r: nat, o: nat, s: nat)
    requires Counted(ps, args, r, o) && s < |ps|
    ensures Occurrences(ps, r, o, s) > 0 <==> exists k :: 0 <= k < |args| && Expansion(ps, r)[k] == s
  {
    hide Expansion, Occurrences, BlockStart, BlockEnd, NumOptional, Expanded;
    if Occurrences(ps, r, o, s) > 0 {
      if ps[s].card.Repeated? {
        RepeatedPlaced(ps, |args|, r, o, s);
      } else {
        SinglePlaced(ps, args, r, o, s);
      }
    }
    if k :| 0 <= k < |args| && Expansion(ps, r)[k] == s {
      PlacedOccurs(ps, |args|, r, o, s, k);
    }
  }

  lemma RepeatedPlaced(ps: seq<Parameter>, n: nat, r: nat, o: nat, s: nat)
    requires Valid(ps) && Solves(ps, n, r, o) && s < |ps| && ps[s].card.Repeated?
    requires Occurrences(ps, r, o, s) > 0
    ensures s < n && s < |Expansion(ps, r)| && Expansion(ps, r)[s] == s
  {
    hide Valid, BlockStart, BlockEnd, Range, NumOptional, Expanded;
    Layout(ps);
    var b, e := BlockStart(ps), BlockEnd(ps);
    assert r > 0 by { if Expanded(ps, r) { ExpandedRepeats(ps, r); } }
    assert Repeat(Range(b, e), r) == Range(b, e) + Repeat(Range(b, e), r - 1);
    MoreRepetitions(e - b, 1, r);
    ExpansionLength(ps, r);
  }

  lemma SinglePlaced(ps: seq<Parameter>, args: seq<InputArg>, r: nat, o: nat, s: nat)
    requires Counted(ps, args, r, o) && s < |ps| && !ps[s].card.Repeated? && Occurrences(ps, r, o, s) > 0
    ensures exists k :: 0 <= k < |args| && Expansion(ps, r)[k] == s
  {
    hide Expansion, Occurrences, BlockStart, BlockEnd, NumOptional, Expanded, Listing, Position;
    ListingInRange(ps, r);
    Listed(ps, r, s);
    var j :| 0 <= j < |Listing(ps, r)| && Listing(ps, r)[j] == s;
    PositionPlace(ps, args, r, o, j);
  }

  lemma PlacedOccurs(ps: seq<Parameter>, n: nat, r: nat, o: nat, s: nat, k: nat)
    requires Valid(ps) && Solves(ps, n, r, o) && s < |ps| && k < n <= |Expansion(ps, r)| && Expansion(ps, r)[k] == s
    ensures Occurrences(ps, r, o, s) > 0
  {
    ExpansionLength(ps, r);
    ExpansionTail(ps, r, k);
    if ps[s].card.Repeated? && r == 0 {
      NotPlaced(ps, s, k);
    }
    hide Valid, Expansion, BlockStart, BlockEnd, NumOptional;
  }

  lemma NotPlaced(ps: seq<Parameter>, s: nat, k: nat)
    requires Valid(ps) && s < |ps| && ps[s].card.Repeated? && k < |Expansion(ps, 0)|
    ensures Expansion(ps, 0)[k] != s
  {
    hide Valid, BlockStart, BlockEnd, Range;
    Layout(ps);
  }

  // ----- Soundness -----

  lemma KindSound(co: Coercer, c: Collected, types: map<Kind, Type>, k: Kind, a: InputArg)
    requires Honest(co) && (TemplatedKind(k) || k.Fixed? || k.Arbitrary?)
    requires Recorded(co, c, k, a)
    requires TemplatedKind(k) && k in c ==> KindResolved(co, k, c[k], types)
    requires TypeOf(k, types).Some? || k.Arbitrary?
    ensures var t := if k.Arbitrary? then a.typ else TypeOf(k, types).value;
            Accepts(co, k, a, t)
  {
    if TemplatedKind(k) && !a.IsUntyped() && !k.RangeAny1? {
      var i :| 0 <= i < |c[k].args| && c[k].args[i] == a.Bare();
      assert co.coerces(c[k].args[i], types[k]);
    }
  }

  /** What the checks before the concrete signature leave behind. */
  ghost predicate Inferred(co: Coercer, ps: seq<Parameter>, args: seq<InputArg>, r: nat, c: Collected,
                           types: map<Kind, Type>) {
    var walk := Expansion(ps, r);
    && |args| <= |walk| && InRange(ps, walk)
    && types.Keys <= c.Keys
    && (forall k :: k in c ==> KindResolved(co, k, c[k], types))
    && (forall i :: 0 <= i < |args| ==> Recorded(co, c, ps[walk[i]].kind, args[i]))
    && (forall part :: part in {ProtoMapKeyAny, ProtoMapValueAny} && SetOf(c, part).TypedSet? ==>
          exists i :: 0 <= i < |args| && Determines(ps[walk[i]].kind, part) && !args[i].IsUntyped())
    && (Any(1) in types ==> AnyOne(co, ps, args, walk) == Some(types[Any(1)]))
  }

  lemma Infers(co: Coercer, ps: seq<Parameter>, result: Kind, args: seq<InputArg>, r: nat, c: Collected)
    requires Honest(co) && KindsValid(ps) && (TemplatedKind(result) || result.Fixed? || result.Arbitrary?)
    requires |args| <= |Expansion(ps, r)| && InRange(ps, Expansion(ps, r))
    requires CheckAll(co, ps, Expansion(ps, r), args, map[]) == Some(c)
    ensures var d := CollectResult(c, result);
            var res := ResolveFrom(co, d, map[], 0);
            Consistent(d) && !res.Internal? && (res.Resolved? ==> Inferred(co, ps, args, r, d, res.types))
  {
    hide CheckAll, Expansion, CollectResult, Consistent, ResolveFrom, KindResolved, Recorded, Raised, Honest,
         Determines;
    var walk, d := Expansion(ps, r), CollectResult(c, result);
    EmptyConsistent(co);
    CheckAllKeeps(co, ps, walk, args, map[]);
    CollectResultKeeps(c, result);
    EmptyResolved(co, d);
    ResolveSound(co, d, map[], 0);
    forall i | 0 <= i < |args|
      ensures Recorded(co, d, ps[walk[i]].kind, args[i])
    {
      RecordedRaised(co, c, d, ps[walk[i]].kind, args[i]);
    }
    forall part | part in {ProtoMapKeyAny, ProtoMapValueAny} && SetOf(d, part).TypedSet?
      ensures exists i :: 0 <= i < |args| && Determines(ps[walk[i]].kind, part) && !args[i].IsUntyped()
    {
      ResultTyped(c, result, part);
      PartsFromArguments(co, ps, walk, args, map[], part);
    }
    ResultKeepsAny(c, result);
    if ResolveFrom(co, d, map[], 0).Resolved? && Any(1) in d {
      AnyOneInferred(co, d);
    }
  }

  lemma ResultKeepsAny(c: Collected, result: Kind)
    ensures Any(1) in CollectResult(c, result) <==> Any(1) in c
    ensures Any(1) in c ==> CollectResult(c, result)[Any(1)] == c[Any(1)]
  {
  }

  lemma EmptyConsistent(co: Coercer)
    ensures Consistent(map[])
  {
  }

  lemma EmptyResolved(co: Coercer, c: Collected)
    ensures ResolvedUpTo(co, c, map[], 0)
  {
  }

  lemma ResultTyped(c: Collected, result: Kind, part: Kind)
    ensures SetOf(CollectResult(c, result), part).TypedSet? ==> SetOf(c, part).TypedSet?
  {
  }

  /** A parameter that occurs has no type only when it is the key or the value of a
      proto map that no argument determines. */
  lemma UnresolvedIsMapPart(co: Coercer, ps: seq<Parameter>, args: seq<InputArg>, r: nat, o: nat, c: Collected,
                            types: map<Kind, Type>)
    requires Counted(ps, args, r, o) && KindsValid(ps) && Inferred(co, ps, args, r, c, types)
    ensures (exists s :: Unresolved(ps, types, r, o, s)) <==> MapPartUntyped(ps, args, r)
  {
    hide Expansion, Occurrences, Counted, Determines;
    if s :| Unresolved(ps, types, r, o, s) {
      OccursIffPlaced(ps, args, r, o, s);
      var i :| 0 <= i < |args| && Expansion(ps, r)[i] == s;
      UnresolvedPlace(co, ps, args, r, c, types, i);
    }
    if MapPartUntyped(ps, args, r) {
      var i :| 0 <= i < |args| && UntypedPart(ps, Expansion(ps, r), args, ps[Expansion(ps, r)[i]].kind);
      OccursIffPlaced(ps, args, r, o, Expansion(ps, r)[i]);
      UnresolvedPlace(co, ps, args, r, c, types, i);
      assert Unresolved(ps, types, r, o, Expansion(ps, r)[i]);
    }
  }

  lemma UnresolvedPlace(co: Coercer, ps: seq<Parameter>, args: seq<InputArg>, r: nat, c: Collected,
                        types: map<Kind, Type>, i: nat)
    requires KindsValid(ps) && Inferred(co, ps, args, r, c, types) && i < |args|
    ensures var k := ps[Expansion(ps, r)[i]].kind;
            !k.Arbitrary? && TypeOf(k, types).None? <==> UntypedPart(ps, Expansion(ps, r), args, k)
  {
    hide Expansion;
    var walk := Expansion(ps, r);
    var k := ps[walk[i]].kind;
    assert Recorded(co, c, k, args[i]);
    if TemplatedKind(k) {
      assert KindResolved(co, k, c[k], types);
      if !c[k].TypedSet? {
        forall j | 0 <= j < |args| && Determines(ps[walk[j]].kind, k)
          ensures k in {ProtoMapKeyAny, ProtoMapValueAny} ==> args[j].IsUntyped()
        {
          assert Recorded(co, c, ps[walk[j]].kind, args[j]);
        }
      } else if k in {ProtoMapKeyAny, ProtoMapValueAny} {
        assert SetOf(c, k).TypedSet?;
      }
    }
  }

  lemma MatchSound(co: Coercer, ps: seq<Parameter>, args: seq<InputArg>, r: nat, o: nat, c: Collected,
                   types: map<Kind, Type>, list: seq<Concrete>)
    requires Honest(co) && Counted(ps, args, r, o) && KindsValid(ps) && Inferred(co, ps, args, r, c, types)
    requires !exists s :: Unresolved(ps, types, r, o, s)
    requires Agrees(ps, args, types, r, ConcreteArguments(list))
    ensures Sound(co, ps, args, r, list)
  {
    hide Expansion, Occurrences, ConcreteArguments, Recorded, KindResolved, Accepts, Signatures.Valid, Solves, Honest;
    var walk, flat := Expansion(ps, r), ConcreteArguments(list);
    forall k | 0 <= k < |args|
      ensures PlaceSound(co, ps, walk[k], args[k], flat[k])
    {
      var kind := ps[walk[k]].kind;
      OccursIffPlaced(ps, args, r, o, walk[k]);
      assert Occurrences(ps, r, o, walk[k]) > 0;
      assert !Unresolved(ps, types, r, o, walk[k]);
      assert Recorded(co, c, kind, args[k]);
      KindSound(co, c, types, kind, args[k]);
    }
  }

  /** With rigid ranges, every argument of a match fits its concrete type if and only
      if the element type of every range argument is the type inferred for ANY_1. */
  lemma AllFitIffRangesAgree(co: Coercer, ps: seq<Parameter>, args: seq<InputArg>, r: nat, o: nat, c: Collected,
                             types: map<Kind, Type>, list: seq<Concrete>)
    requires Counted(ps, args, r, o) && KindsValid(ps) && Inferred(co, ps, args, r, c, types) && RangesRigid(co)
    requires Sound(co, ps, args, r, list) && Agrees(ps, args, types, r, ConcreteArguments(list))
    ensures AllFit(co, ps, args, r, list) <==> RangesAgree(co, ps, args, Expansion(ps, r))
  {
    hide Expansion, ConcreteArguments, KindResolved, Recorded, Counted, AnyOne, RangesRigid, Accepts;
    var walk, flat := Expansion(ps, r), ConcreteArguments(list);
    forall k | 0 <= k < |args|
      ensures FitsFully(co, ps[walk[k]].kind, args[k], flat[k].typ.value) <==>
              (ps[walk[k]].kind.RangeAny1? && !args[k].IsUntyped() ==>
                 args[k].typ.RangeType? && AnyOne(co, ps, args, walk) == Some(args[k].typ.element))
    {
      assert PlaceSound(co, ps, walk[k], args[k], flat[k]);
      assert Recorded(co, c, ps[walk[k]].kind, args[k]);
      if ps[walk[k]].kind.RangeAny1? && !args[k].IsUntyped() {
        RangeFits(co, c, types, args[k]);
      }
    }
  }

  lemma RangeFits(co: Coercer, c: Collected, types: map<Kind, Type>, a: InputArg)
    requires RangesRigid(co) && Recorded(co, c, RangeAny1, a) && !a.IsUntyped()
    requires forall k :: k in c ==> KindResolved(co, k, c[k], types)
    ensures a.typ.RangeType? && RangeAny1 in types && Any(1) in types
    ensures co.coerces(a, types[RangeAny1]) <==> types[Any(1)] == a.typ.element
  {
    assert KindResolved(co, RangeAny1, c[RangeAny1], types);
  }

  /** Matches an argument list against a signature. A match gives every argument a
      concrete argument with a type it may have. The only internal failure is a
      proto map key or value whose type nothing determines. */
  method SignatureMatches(co: Coercer, sig: Signature, args: seq<InputArg>)
      returns (res: MatchResult, repetitions: nat, optionals: nat)
    requires Honest(co) && sig.Valid()
    requires forall r, o :: Solves(sig.params, |args|, r, o) ==> DefaultsPlaced(sig.params, args, r)
    ensures res.NoMatch? <==>
              !(&& Counts(sig.params, |args|, repetitions)
                && MatchesTypes(co, sig, args, Expansion(sig.params, repetitions)))
    ensures (exists x, y :: Solves(sig.params, |args|, x, y)) ==> Counts(sig.params, |args|, repetitions)
    ensures !res.NoMatch? ==> Counted(sig.params, args, repetitions, optionals)
    ensures res.InternalFailure? ==> MapPartUntyped(sig.params, args, repetitions)
    ensures res.Match? ==> !MapPartUntyped(sig.params, args, repetitions)
    ensures res.Match? ==> Sound(co, sig.params, args, repetitions, res.list)
    ensures res.Match? && RangesRigid(co) ==>
              (AllFit(co, sig.params, args, repetitions, res.list) <==>
               RangesAgree(co, sig.params, args, Expansion(sig.params, repetitions)))
    ensures res.Match? ==> TotalOccurrences(res.list) == |args|
    ensures res.Match? ==> Indexed(sig.params, args, repetitions, res.list, res.indices)
  {
    hide Signatures.Valid, Honest, Counted, Expansion, Sound, Indexed, TotalOccurrences, MapPartUntyped, CheckAll,
         CollectResult, Consistent, Inferred, Built, Agrees, Listing, Solves, ResolveFrom, RangesRigid, RangesAgree,
         AllFit;
    var ps := sig.params;
    var ok;
    ok, repetitions, optionals := SignatureArgumentCountMatches(ps, |args|);
    if !ok {
      return NoMatch, repetitions, optionals;
    }
    var collected := CheckArgumentTypes(co, ps, sig.result, args, repetitions);
    CountedFrom(ps, args, repetitions, optionals);
    if collected.None? {
      return NoMatch, repetitions, optionals;
    }
    ghost var c := CheckAll(co, ps, Expansion(ps, repetitions), args, map[]).value;
    Infers(co, ps, sig.result, args, repetitions, c);
    var resolved := DetermineResolvedTypes(co, collected.value);
    if !resolved.Resolved? {
      return NoMatch, repetitions, optionals;
    }
    InferredResolved(co, ps, args, repetitions, collected.value, resolved.types);
    var consistent := CheckArrayKinds(resolved.types);
    ArraysAgree(co, collected.value, resolved.types);
    if !consistent {
      assert false; // array kinds always agree with their element kinds
    }
    if !sig.result.Arbitrary? && TypeOf(sig.result, resolved.types).None? {
      return NoMatch, repetitions, optionals;
    }
    var internalError, list, indices := GetConcreteArguments(ps, args, resolved.types, repetitions, optionals);
    UnresolvedIsMapPart(co, ps, args, repetitions, optionals, collected.value, resolved.types);
    if internalError {
      return InternalFailure, repetitions, optionals;
    }
    Finish(ps, args, resolved.types, repetitions, optionals, list, indices);
    MatchSound(co, ps, args, repetitions, optionals, collected.value, resolved.types, list);
    if RangesRigid(co) {
      AllFitIffRangesAgree(co, ps, args, repetitions, optionals, collected.value, resolved.types, list);
    }
    res := Match(list, indices);
  }

  lemma CountedFrom(ps: seq<Parameter>, args: seq<InputArg>, r: nat, o: nat)
    requires Valid(ps) && Solves(ps, |args|, r, o) && DefaultsPlaced(ps, args, r)
    ensures Counted(ps, args, r, o)
  {
    ExpansionInRange(ps, r);
    ExpansionLength(ps, r);
  }

  lemma InferredResolved(co: Coercer, ps: seq<Parameter>, args: seq<InputArg>, r: nat, c: Collected,
                         types: map<Kind, Type>)
    requires Inferred(co, ps, args, r, c, types)
    ensures types.Keys <= c.Keys && forall k :: k in c ==> KindResolved(co, k, c[k], types)
    ensures |args| <= |Expansion(ps, r)| && InRange(ps, Expansion(ps, r))
  {
  }

  /** The recorded index of an argument outside the repeated block leads to the
      concrete argument made from that argument's own parameter. */
  ghost predicate Indexed(ps: seq<Parameter>, args: seq<InputArg>, r: nat, list: seq<Concrete>, indices: seq<int>)
  {
    var walk := Expansion(ps, r);
    && |indices| == |args| <= |walk| && InRange(ps, walk)
    && forall k :: 0 <= k < |args| && !ps[walk[k]].card.Repeated? ==>
         0 <= indices[k] < |list| && list[indices[k]].origin == walk[k] && list[indices[k]].card == ps[walk[k]].card
  }

  lemma Finish(ps: seq<Parameter>, args: seq<InputArg>, types: map<Kind, Type>, r: nat, o: nat, list: seq<Concrete>,
               indices: seq<int>)
    requires Counted(ps, args, r, o) && InRange(ps, Listing(ps, r))
    requires |list| == |Listing(ps, r)| && Built(ps, args, types, r, o, list, indices)
    ensures |args| <= |Expansion(ps, r)| && InRange(ps, Expansion(ps, r))
    ensures Agrees(ps, args, types, r, ConcreteArguments(list))
    ensures TotalOccurrences(list) == |args|
    ensures Indexed(ps, args, r, list, indices)
  {
    hide Listing, Expansion, ConcreteAt, Agrees, ConcreteArguments, Position, Occurrences, Signatures.Valid,
         TotalOccurrences;
    ConcreteFollowsExpansion(ps, args, types, r, o, list);
    OccurrencesAddUp(ps, args, types, r, o, list);
    var walk := Expansion(ps, r);
    forall k | 0 <= k < |args| && !ps[walk[k]].card.Repeated?
      ensures 0 <= indices[k] < |list| && list[indices[k]].origin == walk[k]
      ensures list[indices[k]].card == ps[walk[k]].card
    {
      var j := IndexOf(ps, args, types, r, o, list, indices, k);
    }
  }

  /** The concrete argument of the argument at place `k`. */
  lemma IndexOf(ps: seq<Parameter>, args: seq<InputArg>, types: map<Kind, Type>, r: nat, o: nat,
                list: seq<Concrete>, indices: seq<int>, k: nat) returns (j: nat)
    requires Counted(ps, args, r, o) && InRange(ps, Listing(ps, r))
    requires |list| == |Listing(ps, r)| && Built(ps, args, types, r, o, list, indices)
    requires k < |args| && !ps[Expansion(ps, r)[k]].card.Repeated?
    ensures j < |list| && indices[k] == j && list[j].origin == Expansion(ps, r)[k]
    ensures list[j].card == ps[Expansion(ps, r)[k]].card
  {
    hide Listing, Expansion, Position, Occurrences, Signatures.Valid, Solves, Unresolved;
    var s := Expansion(ps, r)[k];
    Listed(ps, r, s);
    j :| 0 <= j < |Listing(ps, r)| && Listing(ps, r)[j] == s;
    OccursIffPlaced(ps, args, r, o, s);
    PositionPlace(ps, args, r, o, j);
    OnlyPlace(ps, r, k, Position(ps, r, |args|, j));
    OccurrencesOf(ps, args, types, r, o, j);
    assert list[j] == ConcreteAt(ps, args, types, r, o, j);
  }

  lemma OnlyPlace(ps: seq<Parameter>, r: nat, i: nat, j: nat)
    requires Valid(ps) && i < |Expansion(ps, r)| && j < |Expansion(ps, r)| && Expansion(ps, r)[i] == Expansion(ps, r)[j]
    requires Expansion(ps, r)[i] < |ps| && !ps[Expansion(ps, r)[i]].card.Repeated?
    ensures i == j
  {
    hide Valid, BlockStart, BlockEnd, Range, Repeat;
    Layout(ps);
    var b, e := BlockStart(ps), BlockEnd(ps);
    var mid := Repeat(Range(b, e), r);
    RepeatMembers(Range(b, e), r);
    assert forall k :: b <= k < b + |mid| ==> Expansion(ps, r)[k] == mid[k - b] && mid[k - b] in Range(b, e);
  }

  // ----- The internal failure can happen -----

  const KEY := Parameter(Required, ProtoMapKeyAny, "", PositionalOnly, None)
  const NOTHING := InputArg(UntypedNull, Int64Type, false)
  const NULLS: Collected := map[ProtoMapKeyAny := NullSet, ProtoMapAny := NullSet]

  /** A function of the key of a proto map, called with an untyped NULL only: all checks
      pass, and the key is left without a type. */
  lemma MapKeyOfNull(co: Coercer)
    ensures var sig := Signature([KEY], Fixed(Int64Type));
            && sig.Valid() && Counts(sig.params, 1, 0) && Expansion(sig.params, 0) == [0]
            && MatchesTypes(co, sig, [NOTHING], [0]) && MapPartUntyped(sig.params, [NOTHING], 0)
  {
    hide Signatures.Valid, Counts, Expansion, CheckAll, ResolveFrom, KINDS;
    OneParameter([KEY]);
    KeyCollected(co);
    NullsResolve(co, NULLS, map[], 0);
    var walk := Expansion([KEY], 0);
    assert walk == [0];
    assert UntypedPart([KEY], walk, [NOTHING], [KEY][walk[0]].kind);
  }

  lemma KeyCollected(co: Coercer)
    ensures CheckAll(co, [KEY], [0], [NOTHING], map[]) == Some(NULLS)
  {
    hide KINDS;
    assert CollectUntyped(map[], ProtoMapKeyAny, NOTHING) == Some(NULLS);
    assert CheckSingle(co, map[], ProtoMapKeyAny, NOTHING) == Some(NULLS);
    assert [0][1..] == [] && [NOTHING][1..] == [];
    CheckAllDone(co, [KEY], [], [], NULLS);
  }

  lemma OneParameter(ps: seq<Parameter>)
    requires |ps| == 1 && ps[0].card.Required? && ps[0].default.None? && ps[0].naming.PositionalOnly?
    ensures Valid(ps) && Counts(ps, 1, 0) && Expansion(ps, 0) == [0]
  {
    assert Solves(ps, 1, 0, 0);
  }

  lemma {:induction false} NullsResolve(co: Coercer, c: Collected, types: map<Kind, Type>, n: nat)
    requires n <= |KINDS| && c == NULLS
    ensures ResolveFrom(co, c, types, n).Resolved?
    decreases |KINDS| - n
  {
    hide KINDS;
    if n < |KINDS| {
      if KINDS[n] in c {
        NullsResolve(co, c, ResolveKind(co, KINDS[n], c[KINDS[n]], types).types, n + 1);
      } else {
        NullsResolve(co, c, types, n + 1);
      }
    }
  }
}
