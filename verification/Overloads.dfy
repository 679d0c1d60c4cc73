/** Overload resolution: trying every signature of a function on a call and
    keeping the closest match.
 */
module Overloads {
  import opened Types
  import opened Signatures
  import opened ArgumentCount
  import opened ArgumentMapping
  import opened ArgumentMappingProperties
  import opened Reordering
  import opened Templates
  import opened ConcreteSignatures
  import opened Matcher

  // ----- Costs -----

  /** How far a match is from taking the arguments as they are. */
  datatype Cost = Cost(nonLiterals: nat, nonLiteralDistance: nat, literals: nat, literalDistance: nat)

  const FREE := Cost(0, 0, 0, 0)

  predicate Closer(a: Cost, b: Cost) {
    if a.nonLiterals != b.nonLiterals then a.nonLiterals < b.nonLiterals
    else if a.nonLiteralDistance != b.nonLiteralDistance then a.nonLiteralDistance < b.nonLiteralDistance
    else if a.literals != b.literals then a.literals < b.literals
    else a.literalDistance < b.literalDistance
  }

  /** The cost of one argument that is given the type `t`. */
  function Charge(distance: (InputArg, Type) -> nat, a: InputArg, t: Option<Type>, c: Cost): Cost {
    if t.None? || a.typ == t.value then c
    else if a.IsUntyped() || a.IsLiteral() then
      c.(literals := c.literals + 1, literalDistance := c.literalDistance + distance(a, t.value))
    else
      c.(nonLiterals := c.nonLiterals + 1, nonLiteralDistance := c.nonLiteralDistance + distance(a, t.value))
  }

  /** The cost of the first `n` arguments. */
  function CostOf(distance: (InputArg, Type) -> nat, args: seq<InputArg>, flat: seq<Concrete>, n: nat): Cost
    requires n <= |args| == |flat|
  {
    if n == 0 then FREE else Charge(distance, args[n - 1], flat[n - 1].typ, CostOf(distance, args, flat, n - 1))
  }

  method CoercionCost(distance: (InputArg, Type) -> nat, args: seq<InputArg>, list: seq<Concrete>) returns (cost: Cost)
    requires |ConcreteArguments(list)| == |args|
    ensures cost == CostOf(distance, args, ConcreteArguments(list), |args|)
  {
    hide ConcreteArguments, Charge;
    var flat := ConcreteArguments(list);
    cost := FREE;
    for k := 0 to |args|
      invariant cost == CostOf(distance, args, flat, k)
    {
      cost := Charge(distance, args[k], flat[k].typ, cost);
    }
  }

  /** Every argument already has the type of its concrete argument. */
  ghost predicate Exact(args: seq<InputArg>, flat: seq<Concrete>, n: nat)
    requires n <= |args| == |flat|
  {
    forall k :: 0 <= k < n && flat[k].typ.Some? ==> args[k].typ == flat[k].typ.value
  }

  /** A match is free of cost exactly when it takes the arguments as they are. */
  lemma {:induction false} FreeIffExact(distance: (InputArg, Type) -> nat, args: seq<InputArg>, flat: seq<Concrete>,
                                        n: nat)
    requires n <= |args| == |flat|
    ensures CostOf(distance, args, flat, n) == FREE <==> Exact(args, flat, n)
    ensures var c := CostOf(distance, args, flat, n); c.nonLiterals == 0 && c.literals == 0 ==> c == FREE
  {
    if n > 0 {
      FreeIffExact(distance, args, flat, n - 1);
    }
  }

  // ----- Trying one signature -----

  datatype Overload = Overload(signature: Signature, internal: bool, enabled: bool, constraint: seq<InputArg> -> bool) {
    ghost predicate Valid() {
      signature.Valid()
    }
  }

  datatype Attempt =
    | Mismatched
    | Failed
    | Candidate(args: seq<InputArg>, entries: seq<Entry>, list: seq<Concrete>, indices: seq<int>, cost: Cost)

  /** The candidate was built from the call by way of `r` repetitions. */
  ghost predicate Built(co: Coercer, distance: (InputArg, Type) -> nat, ps: seq<Parameter>, c: Call,
                        args: seq<InputArg>, r: nat, a: Attempt)
    requires a.Candidate?
  {
    && Matched(ps, c, r) && a.entries == Mapping(ps, c, r, true)
    && RowsInRange(ps, a.entries, |args|)
    && a.args == Reordered(ps, a.entries, args)
    && Sound(co, ps, a.args, r, a.list)
    && Indexed(ps, a.args, r, a.list, a.indices)
    && TotalOccurrences(a.list) == |a.args|
    && a.cost == CostOf(distance, a.args, ConcreteArguments(a.list), |a.args|)
  }

  ghost predicate FromCall(co: Coercer, distance: (InputArg, Type) -> nat, ps: seq<Parameter>, c: Call,
                           args: seq<InputArg>, a: Attempt) {
    a.Candidate? ==> exists r :: Built(co, distance, ps, c, args, r, a)
  }

  /** The call passes every check of the overload by way of `r` repetitions. */
  ghost predicate SuitsWith(co: Coercer, o: Overload, c: Call, args: seq<InputArg>, r: nat)
    requires o.Valid()
  {
    var ps := o.signature.params;
    && Counts(ps, c.n, r) && Mappable(ps, c, r) && RowsInRange(ps, Mapping(ps, c, r, true), |args|)
    && var reordered := Reordered(ps, Mapping(ps, c, r, true), args);
    && MatchesTypes(co, o.signature, reordered, Expansion(ps, r))
    && !MapPartUntyped(ps, reordered, r)
    && o.constraint(reordered)
  }

  ghost predicate Suits(co: Coercer, o: Overload, matchInternal: bool, c: Call, args: seq<InputArg>)
    requires o.Valid()
  {
    (matchInternal || !o.internal) && o.enabled && exists r :: SuitsWith(co, o, c, args, r)
  }

  /** By way of `r` repetitions the call is in error whatever the other overloads
      say: it cannot be mapped to any of them, or it passes every check of this one
      but leaves the type of a proto map part open. */
  ghost predicate FailsWith(co: Coercer, o: Overload, c: Call, args: seq<InputArg>, r: nat)
    requires o.Valid()
  {
    var ps := o.signature.params;
    && Counts(ps, c.n, r)
    && (|| CallError(ps, c, r)
        || RepeatedNamed(ps, c, r)
        || (&& o.enabled && Mappable(ps, c, r) && RowsInRange(ps, Mapping(ps, c, r, true), |args|)
            && var reordered := Reordered(ps, Mapping(ps, c, r, true), args);
            && MatchesTypes(co, o.signature, reordered, Expansion(ps, r))
            && MapPartUntyped(ps, reordered, r)))
  }

  ghost predicate NamesKnown(ps: seq<Parameter>, c: Call) {
    forall i :: 0 <= i < |c.named| ==> HasNamedArgument(ps, c.named[i].name)
  }

  ghost predicate Fails(co: Coercer, o: Overload, matchInternal: bool, c: Call, args: seq<InputArg>)
    requires o.Valid()
  {
    (matchInternal || !o.internal) && NamesKnown(o.signature.params, c) && exists r :: FailsWith(co, o, c, args, r)
  }

  lemma CountsOnce(ps: seq<Parameter>, n: nat, r: nat, r': nat)
    requires Counts(ps, n, r) && Counts(ps, n, r')
    ensures r == r'
  {
    hide Solves;
  }

  /** What an attempt tells about its overload. */
  ghost predicate Tried(co: Coercer, distance: (InputArg, Type) -> nat, o: Overload, matchInternal: bool, c: Call,
                        args: seq<InputArg>, a: Attempt)
    requires o.Valid()
  {
    && FromCall(co, distance, o.signature.params, c, args, a)
    && (a.Candidate? <==> Suits(co, o, matchInternal, c, args))
    && (a.Failed? <==> Fails(co, o, matchInternal, c, args))
  }

  ghost predicate CallOk(c: Call, args: seq<InputArg>) {
    c.Valid() && c.n == |args| && forall i :: 0 <= i < |args| ==> !args[i].isDefault
  }

  /** The count check of the extended list finds the same expansion again. */
  lemma SameExpansion(ps: seq<Parameter>, c: Call, r: nat, always: bool, x: nat, y: nat)
    requires Matched(ps, c, r) && Solves(ps, |Mapping(ps, c, r, always)|, x, y)
    ensures Expansion(ps, x) == Expansion(ps, r)
  {
    hide Mapping, Mappable, Signatures.Valid, NumOptional;
    if NumRepeated(ps) > 0 {
      CountAgain(ps, c, r, always);
      var m := Mapping(ps, c, r, always);
      SolutionUnique(ps, |m|, x, y, r, |m| - NumRequired(ps) - r * NumRepeated(ps));
    } else {
      assert BlockStart(ps) >= BlockEnd(ps);
      RepeatLength(Range(BlockStart(ps), BlockEnd(ps)), x);
      RepeatLength(Range(BlockStart(ps), BlockEnd(ps)), r);
    }
  }

  /** A row of a parameter up to the last one with a default is at its own place. */
  lemma {:induction false} OmittedUpToDefault(ps: seq<Parameter>, always: bool, i: nat, k: nat)
    requires i <= |ps| && k < |Omitted(ps, always, Range(i, |ps|))|
    requires Omitted(ps, always, Range(i, |ps|))[k].sigIndex <= LastDefault(ps)
    ensures Omitted(ps, always, Range(i, |ps|))[k].sigIndex == i + k
    decreases |ps| - i
  {
    hide Range, LastDefault, LastNamed, Omitted;
    OmittedIncreasing(ps, always, i);
    OmittedAtEnd(ps, always);
    if i < |ps| {
      OmittedStep(ps, always, i);
      assert Included(ps, always, i);
      if k > 0 {
        OmittedUpToDefault(ps, always, i + 1, k - 1);
      }
    }
  }

  lemma DefaultAtOwnPlace(ps: seq<Parameter>, c: Call, r: nat, always: bool, k: nat)
    requires Matched(ps, c, r) && k < |Mapping(ps, c, r, always)|
    requires var e := Mapping(ps, c, r, always)[k];
             e.callIndex == -1 && e.sigIndex < |ps| && ps[e.sigIndex].default.Some?
    ensures k < |Expansion(ps, r)| && Expansion(ps, r)[k] == Mapping(ps, c, r, always)[k].sigIndex
  {
    hide Mapping, Mappable, Signatures.Valid, Expansion, Omitted, Range, Lookup;
    var m, walk := Mapping(ps, c, r, always), Expansion(ps, r);
    MappingFollowsExpansion(ps, c, r, always);
    if c.named != [] {
      MappingNamed(ps, c, r, always);
    } else {
      MappingUnnamed(ps, c, r, always);
      OmittedTail(ps, c, r);
      assert m[k] == m[c.n..][k - c.n];
      OmittedUpToDefault(ps, always, FirstOmitted(ps, c, r), k - c.n);
      assert walk[k] == walk[c.n..][k - c.n];
    }
  }

  lemma MappingRange(ps: seq<Parameter>, c: Call, r: nat, always: bool)
    requires Matched(ps, c, r)
    ensures RowsInRange(ps, Mapping(ps, c, r, always), c.n)
    ensures forall k :: 0 <= k < |Mapping(ps, c, r, always)| && Mapping(ps, c, r, always)[k].callIndex == -1 ==>
              ps[Mapping(ps, c, r, always)[k].sigIndex].card.Optional?
  {
    hide Mapping, Mappable;
    AllTaken(ps, c, r, always);
    forall k | 0 <= k < |Mapping(ps, c, r, always)|
      ensures var e := Mapping(ps, c, r, always)[k];
              e.sigIndex < |ps| && (e.callIndex == -1 ==> ps[e.sigIndex].card.Optional?)
    {
      OmittedRowsAreOptional(ps, c, r, always, k);
    }
  }

  /** Injected default values stand at places of parameters that have a default. */
  lemma ReorderedDefaults(ps: seq<Parameter>, c: Call, r: nat, args: seq<InputArg>, x: nat, y: nat)
    requires Matched(ps, c, r) && CallOk(c, args) && RowsInRange(ps, Mapping(ps, c, r, true), |args|)
    requires Solves(ps, |Mapping(ps, c, r, true)|, x, y)
    ensures DefaultsPlaced(ps, Reordered(ps, Mapping(ps, c, r, true), args), x)
  {
    hide Mapping, Mappable, Signatures.Valid, Expansion, Solves;
    var m := Mapping(ps, c, r, true);
    SameExpansion(ps, c, r, true, x, y);
    forall k | 0 <= k < |m| && k < |Expansion(ps, r)| && Reordered(ps, m, args)[k].isDefault
      ensures Expansion(ps, r)[k] < |ps| && ps[Expansion(ps, r)[k]].default.Some?
    {
      assert m[k].callIndex == -1;
      DefaultAtOwnPlace(ps, c, r, true, k);
    }
  }

  method TrySignature(co: Coercer, distance: (InputArg, Type) -> nat, o: Overload, matchInternal: bool, c: Call,
                      args: seq<InputArg>)
      returns (a: Attempt)
    requires Honest(co) && o.Valid() && CallOk(c, args)
    ensures Tried(co, distance, o, matchInternal, c, args, a)
  {
    hide Signatures.Valid, Mappable, Mapping, SuitsWith, FailsWith, Solves, CallError, RepeatedNamed, HasNamedArgument,
         Honest, Built;
    var ps := o.signature.params;
    if o.internal && !matchInternal {
      return Mismatched;
    }
    for i := 0 to |c.named|
      invariant forall k :: 0 <= k < i ==> HasNamedArgument(ps, c.named[k].name)
    {
      var found := ParameterByName(ps, c.named[i].name);
      if !found {
        UnknownNameUnsuited(co, o, c, args, i);
        return Mismatched;
      }
    }
    var ok, r, optionals := SignatureArgumentCountMatches(ps, |args|);
    if !ok {
      UncountedUnsuited(co, o, c, args);
      return Mismatched;
    }
    assert Counts(ps, c.n, r);
    var mapping := GetFunctionArgumentIndexMapping(ps, c, r, true);
    if !mapping.Mapped? {
      UnmappedUnsuited(co, o, c, args, r);
      return if mapping.Mismatch? then Mismatched else Failed;
    }
    SuitsOnlyWith(co, o, c, args, r);
    a := MatchReordered(co, distance, o, c, args, r, mapping.entries);
  }

  lemma SuitsOnlyWith(co: Coercer, o: Overload, c: Call, args: seq<InputArg>, r: nat)
    requires o.Valid() && Counts(o.signature.params, c.n, r)
    ensures (exists r' :: SuitsWith(co, o, c, args, r')) <==> SuitsWith(co, o, c, args, r)
    ensures (exists r' :: FailsWith(co, o, c, args, r')) <==> FailsWith(co, o, c, args, r)
  {
    hide Mappable, Mapping, MatchesTypes, MapPartUntyped, Counts, Overload.Valid, Reordered, RowsInRange, Expansion,
         CallError, RepeatedNamed;
    if r' :| SuitsWith(co, o, c, args, r') {
      CountsOnce(o.signature.params, c.n, r, r');
    }
    if r' :| FailsWith(co, o, c, args, r') {
      CountsOnce(o.signature.params, c.n, r, r');
    }
  }

  lemma UnknownNameUnsuited(co: Coercer, o: Overload, c: Call, args: seq<InputArg>, i: nat)
    requires o.Valid() && i < |c.named| && !HasNamedArgument(o.signature.params, c.named[i].name)
    ensures !NamesKnown(o.signature.params, c)
    ensures !exists r :: SuitsWith(co, o, c, args, r)
  {
    hide Mapping, MatchesTypes, MapPartUntyped, Counts, Overload.Valid, Reordered, RowsInRange, Expansion,
         HasNamedArgument;
  }

  lemma UncountedUnsuited(co: Coercer, o: Overload, c: Call, args: seq<InputArg>)
    requires o.Valid() && !exists x, y :: Solves(o.signature.params, c.n, x, y)
    ensures !exists r :: SuitsWith(co, o, c, args, r)
    ensures !exists r :: FailsWith(co, o, c, args, r)
  {
    hide Mapping, Mappable, MatchesTypes, MapPartUntyped, Overload.Valid, Reordered, RowsInRange, Expansion, Solves,
         CallError, RepeatedNamed;
  }

  lemma UnmappedUnsuited(co: Coercer, o: Overload, c: Call, args: seq<InputArg>, r: nat)
    requires o.Valid() && Counts(o.signature.params, c.n, r) && !Mappable(o.signature.params, c, r)
    ensures !exists r' :: SuitsWith(co, o, c, args, r')
    ensures (exists r' :: FailsWith(co, o, c, args, r')) <==>
              CallError(o.signature.params, c, r) || RepeatedNamed(o.signature.params, c, r)
  {
    hide Mapping, Mappable, MatchesTypes, MapPartUntyped, Counts, Overload.Valid, Reordered, RowsInRange, Expansion,
         CallError, RepeatedNamed;
    SuitsOnlyWith(co, o, c, args, r);
  }

  /** Matches the reordered arguments of a mapped call. */
  method MatchReordered(co: Coercer, distance: (InputArg, Type) -> nat, o: Overload, c: Call, args: seq<InputArg>,
                        r: nat, m: seq<Entry>)
      returns (a: Attempt)
    requires Honest(co) && o.Valid() && CallOk(c, args)
    requires Counts(o.signature.params, c.n, r) && Mappable(o.signature.params, c, r)
    requires m == Mapping(o.signature.params, c, r, true)
    ensures FromCall(co, distance, o.signature.params, c, args, a)
    ensures a.Candidate? <==> o.enabled && SuitsWith(co, o, c, args, r)
    ensures a.Failed? <==> FailsWith(co, o, c, args, r)
  {
    hide Signatures.Valid, Mappable, Mapping, Sound, Indexed, TotalOccurrences, CostOf, Reordered, RowsInRange,
         Expansion, Counted, MapPartUntyped, DefaultsPlaced, Honest, Solves, MatchesTypes, CallError,
         RepeatedNamed;
    var ps := o.signature.params;
    MappableVerdict(ps, c, r);
    MappingRange(ps, c, r, true);
    var moved, reordered := ReorderInputArguments(ps, m, args);
    forall x, y | Solves(ps, |reordered|, x, y)
      ensures DefaultsPlaced(ps, reordered, x)
    {
      ReorderedDefaults(ps, c, r, args, x, y);
    }
    if !o.enabled {
      return Mismatched;
    }
    var res, x, y := SignatureMatches(co, o.signature, reordered);
    CountsAgain(ps, c, r, x, reordered);
    if res.InternalFailure? {
      return Failed;
    }
    if res.NoMatch? || !o.constraint(reordered) {
      return Mismatched;
    }
    SameMatch(co, ps, c, r, reordered, x, y, res.list, res.indices);
    SoundLength(co, ps, reordered, r, res.list);
    var cost := CoercionCost(distance, reordered, res.list);
    a := Candidate(reordered, m, res.list, res.indices, cost);
    assert Built(co, distance, ps, c, args, r, a);
  }

  /** The reordered arguments are counted again, with the same expansion. */
  lemma CountsAgain(ps: seq<Parameter>, c: Call, r: nat, x: nat, args: seq<InputArg>)
    requires Matched(ps, c, r) && |args| == |Mapping(ps, c, r, true)|
    requires (exists x', y :: Solves(ps, |args|, x', y)) ==> Counts(ps, |args|, x)
    ensures Counts(ps, |args|, x) && Expansion(ps, x) == Expansion(ps, r)
    ensures |args| <= |Expansion(ps, r)| && InRange(ps, Expansion(ps, r))
    ensures MapPartUntyped(ps, args, x) <==> MapPartUntyped(ps, args, r)
  {
    hide Mapping, Mappable, Expansion, Signatures.Valid, UntypedPart;
    CountAgain(ps, c, r, true);
    ExpansionInRange(ps, r);
    ExpansionLength(ps, r);
    assert Counts(ps, |args|, x);
    var y :| Solves(ps, |args|, x, y);
    SameExpansion(ps, c, r, true, x, y);
  }

  lemma MappableVerdict(ps: seq<Parameter>, c: Call, r: nat)
    requires Valid(ps) && Mappable(ps, c, r)
    ensures !CallError(ps, c, r) && !RepeatedNamed(ps, c, r)
  {
    hide HasNamedArgument;
    MappedVerdict(ps, c, r);
  }

  lemma SoundLength(co: Coercer, ps: seq<Parameter>, args: seq<InputArg>, r: nat, list: seq<Concrete>)
    requires Sound(co, ps, args, r, list)
    ensures |ConcreteArguments(list)| == |args|
  {
  }

  /** What the match says about the expansion it found holds for that of the mapping. */
  lemma SameMatch(co: Coercer, ps: seq<Parameter>, c: Call, r: nat, args: seq<InputArg>, x: nat, y: nat,
                  list: seq<Concrete>, indices: seq<int>)
    requires Matched(ps, c, r) && |args| == |Mapping(ps, c, r, true)| && Counted(ps, args, x, y)
    requires Sound(co, ps, args, x, list) && Indexed(ps, args, x, list, indices)
    ensures Sound(co, ps, args, r, list) && Indexed(ps, args, r, list, indices)
  {
    hide Mapping, Mappable, Signatures.Valid, Expansion, Solves, ConcreteArguments, PlaceSound;
    SameExpansion(ps, c, r, true, x, y);
  }

  // ----- What a candidate guarantees -----

  /** Row `k` of a candidate is about the parameter at place `k`: an argument of the
      call was given that parameter's concrete argument and type, and an omitted
      row leads to the concrete argument of its own optional parameter. */
  ghost predicate RowSound(co: Coercer, ps: seq<Parameter>, args: seq<InputArg>, a: Attempt, k: nat)
    requires a.Candidate? && k < |a.entries|
  {
    var row, flat := a.entries[k], ConcreteArguments(a.list);
    && row.sigIndex < |ps| && -1 <= row.callIndex < |args| && |flat| == |a.entries| == |a.indices|
    && flat[k].origin == row.sigIndex && flat[k].typ.Some?
    && (row.callIndex >= 0 ==> Accepts(co, ps[row.sigIndex].kind, args[row.callIndex], flat[k].typ.value))
    && (row.callIndex == -1 ==>
          && 0 <= a.indices[k] < |a.list|
          && a.list[a.indices[k]].origin == row.sigIndex && a.list[a.indices[k]].card.Optional?)
  }

  /** In a candidate every row is checked against, and made concrete as, the very
      parameter the mapping names, if and only if the signature has no gap. */
  lemma RowsSoundIffGapFree(co: Coercer, distance: (InputArg, Type) -> nat, ps: seq<Parameter>, c: Call,
                            args: seq<InputArg>, r: nat, a: Attempt)
    requires a.Candidate? && |args| == c.n && Built(co, distance, ps, c, args, r, a)
    ensures (forall k :: 0 <= k < |a.entries| ==> RowSound(co, ps, args, a, k)) <==> GapFree(ps, c, r, true)
  {
    hide Mapping, Mappable, Signatures.Valid, Expansion, ConcreteArguments, Accepts, CostOf, TotalOccurrences, GapFree,
         RowSound;
    var m, walk := a.entries, Expansion(ps, r);
    MappingFollowsExpansion(ps, c, r, true);
    if GapFree(ps, c, r, true) {
      forall k | 0 <= k < |m|
        ensures RowSound(co, ps, args, a, k)
      {
        assert SigIndices(m)[k] == walk[..|m|][k] == walk[k];
        OmittedRowsAreOptional(ps, c, r, true, k);
        RowSoundAt(co, distance, ps, c, args, r, a, k);
      }
    }
    if forall k :: 0 <= k < |m| ==> RowSound(co, ps, args, a, k) {
      forall k | 0 <= k < |m|
        ensures m[k].sigIndex == walk[k]
      {
        RowPlace(co, distance, ps, c, args, r, a, k);
      }
      assert SigIndices(m) == walk[..|m|];
    }
  }

  lemma RowSoundAt(co: Coercer, distance: (InputArg, Type) -> nat, ps: seq<Parameter>, c: Call, args: seq<InputArg>,
                   r: nat, a: Attempt, k: nat)
    requires a.Candidate? && |args| == c.n && Built(co, distance, ps, c, args, r, a) && k < |a.entries|
    requires k < |Expansion(ps, r)| && a.entries[k].sigIndex == Expansion(ps, r)[k]
    requires a.entries[k].callIndex == -1 ==> a.entries[k].sigIndex < |ps| && ps[a.entries[k].sigIndex].card.Optional?
    ensures RowSound(co, ps, args, a, k)
  {
    hide Mapping, Matched, Expansion, ConcreteArguments, Accepts, CostOf, TotalOccurrences;
    assert PlaceSound(co, ps, Expansion(ps, r)[k], a.args[k], ConcreteArguments(a.list)[k]);
  }

  lemma RowPlace(co: Coercer, distance: (InputArg, Type) -> nat, ps: seq<Parameter>, c: Call, args: seq<InputArg>,
                 r: nat, a: Attempt, k: nat)
    requires a.Candidate? && Built(co, distance, ps, c, args, r, a) && k < |a.entries| && RowSound(co, ps, args, a, k)
    ensures k < |Expansion(ps, r)| && a.entries[k].sigIndex == Expansion(ps, r)[k]
  {
    hide Mapping, Matched, Expansion, ConcreteArguments, Accepts, CostOf, TotalOccurrences;
    assert PlaceSound(co, ps, Expansion(ps, r)[k], a.args[k], ConcreteArguments(a.list)[k]);
  }

  /** Gap or no gap, the concrete argument of an omitted row is optional, and the
      reordered arguments are those of the call plus the injected ones, if and only
      if no name in the call is shared with a positional-only parameter. */
  lemma CandidateConserves(co: Coercer, distance: (InputArg, Type) -> nat, ps: seq<Parameter>, c: Call,
                           args: seq<InputArg>, r: nat, a: Attempt)
    requires a.Candidate? && |args| == c.n && Built(co, distance, ps, c, args, r, a)
    ensures multiset(a.args) == multiset(args) + multiset(InjectedRows(ps, a.entries)) <==> NamesUnambiguous(ps, c)
    ensures forall k :: 0 <= k < |a.entries| && a.entries[k].callIndex == -1 ==>
              0 <= k < |a.indices| && 0 <= a.indices[k] < |a.list| && a.list[a.indices[k]].card.Optional?
  {
    hide Mapping, Mappable, Signatures.Valid, Expansion, ConcreteArguments, Accepts, CostOf, TotalOccurrences, Sound,
         EachOnce, NamesUnambiguous;
    AllTaken(ps, c, r, true);
    ReorderingConserves(ps, a.entries, args);
    EachArgumentOnce(ps, c, r, true);
    CountAgain(ps, c, r, true);
    ExpansionLength(ps, r);
    forall k | 0 <= k < |a.entries| && a.entries[k].callIndex == -1
      ensures 0 <= k < |a.indices| && 0 <= a.indices[k] < |a.list| && a.list[a.indices[k]].card.Optional?
    {
      OmittedRowsAreOptional(ps, c, r, true, k);
      ExpansionTail(ps, r, k);
    }
  }

  // ----- Choosing among the overloads -----

  /** Attempt `i` is a candidate that no attempt beats and no earlier one equals. */
  ghost predicate EarliestBest(attempts: seq<Attempt>, i: nat) {
    && i < |attempts| && attempts[i].Candidate?
    && (forall j :: 0 <= j < |attempts| && attempts[j].Candidate? ==> !Closer(attempts[j].cost, attempts[i].cost))
    && (forall j :: 0 <= j < i && attempts[j].Candidate? ==> Closer(attempts[i].cost, attempts[j].cost))
  }

  ghost function Mismatches(attempts: seq<Attempt>): nat {
    if attempts == [] then 0
    else Mismatches(attempts[..|attempts| - 1]) + if attempts[|attempts| - 1].Mismatched? then 1 else 0
  }

  /** The order of costs is strict and any two different costs compare. */
  lemma CloserOrder(a: Cost, b: Cost, c: Cost)
    ensures !Closer(a, a)
    ensures Closer(a, b) && Closer(b, c) ==> Closer(a, c)
    ensures a != b ==> Closer(a, b) || Closer(b, a)
    ensures Closer(a, b) ==> !Closer(b, a)
  {
  }

  /** The attempts so far, with the best of them. */
  ghost predicate Progress(attempts: seq<Attempt>, best: Option<nat>, a: Attempt) {
    match best
    case None => forall j :: 0 <= j < |attempts| ==> attempts[j].Mismatched?
    case Some(i) => EarliestBest(attempts, i) && a == attempts[i]
  }

  lemma ProgressStep(attempts: seq<Attempt>, best: Option<nat>, a: Attempt, next: Attempt)
    requires Progress(attempts, best, a) && !next.Failed?
    ensures next.Mismatched? ==> Progress(attempts + [next], best, a)
    ensures next.Candidate? && (best.None? || Closer(next.cost, a.cost)) ==>
              Progress(attempts + [next], Some(|attempts|), next)
    ensures next.Candidate? && best.Some? && !Closer(next.cost, a.cost) ==> Progress(attempts + [next], best, a)
  {
    var all := attempts + [next];
    if next.Candidate? && best.Some? && Closer(next.cost, a.cost) {
      forall j | 0 <= j < |attempts| && attempts[j].Candidate?
        ensures Closer(next.cost, all[j].cost) && !Closer(all[j].cost, next.cost)
      {
        CloserOrder(a.cost, attempts[j].cost, next.cost);
        CloserOrder(next.cost, a.cost, attempts[j].cost);
      }
    }
  }

  /** Tries all overloads in order. Unless the call itself is in error, the result is
      the earliest candidate that no other beats, with the arguments and the mapping
      of that very candidate, and every other overload either is a candidate too or
      has left exactly one mismatch message. */
  method FindMatchingSignature(co: Coercer, distance: (InputArg, Type) -> nat, overloads: seq<Overload>,
                               matchInternal: bool,
                               c: Call, args: seq<InputArg>)
      returns (error: bool, best: Option<nat>, result: Attempt, messages: nat, ghost attempts: seq<Attempt>)
    requires Honest(co) && CallOk(c, args) && forall i :: 0 <= i < |overloads| ==> overloads[i].Valid()
    ensures |attempts| <= |overloads| && messages == Mismatches(attempts)
    ensures forall i :: 0 <= i < |attempts| ==> Tried(co, distance, overloads[i], matchInternal, c, args, attempts[i])
    ensures error <==> exists i :: 0 <= i < |overloads| && Fails(co, overloads[i], matchInternal, c, args)
    ensures if error then |attempts| < |overloads| && Fails(co, overloads[|attempts|], matchInternal, c, args)
            else |attempts| == |overloads|
    ensures !error ==> Progress(attempts, best, result)
    ensures !error && best.None? ==> messages == |overloads|
    ensures !error && best.Some? ==> messages < |overloads|
  {
    hide Honest, FromCall, Suits, Fails, Progress, Closer, CallOk, Overload.Valid, Mismatches;
    best, result, messages, attempts := None, Mismatched, 0, [];
    ProgressEmpty();
    for i := 0 to |overloads|
      invariant |attempts| == i && messages == Mismatches(attempts) && Progress(attempts, best, result)
      invariant forall k :: 0 <= k < i ==> Tried(co, distance, overloads[k], matchInternal, c, args, attempts[k])
      invariant forall k :: 0 <= k < i ==> !Fails(co, overloads[k], matchInternal, c, args)
      invariant best.Some? ==> result.Candidate?
    {
      var a := TrySignature(co, distance, overloads[i], matchInternal, c, args);
      if a.Failed? {
        return true, best, result, messages, attempts;
      }
      ProgressStep(attempts, best, result, a);
      MismatchesStep(attempts, a);
      attempts := attempts + [a];
      if a.Mismatched? {
        messages := messages + 1;
      } else if best.None? || Closer(a.cost, result.cost) {
        best, result := Some(i), a;
      }
    }
    error := false;
    MessagesCount(attempts, best, result);
  }

  lemma MismatchesStep(attempts: seq<Attempt>, a: Attempt)
    ensures Mismatches(attempts + [a]) == Mismatches(attempts) + if a.Mismatched? then 1 else 0
  {
    assert (attempts + [a])[..|attempts|] == attempts;
  }

  lemma ProgressEmpty()
    ensures Progress([], None, Mismatched) && Mismatches([]) == 0
  {
  }

  lemma {:induction false} MismatchesAll(attempts: seq<Attempt>)
    ensures Mismatches(attempts) <= |attempts|
    ensures Mismatches(attempts) == |attempts| <==> forall j :: 0 <= j < |attempts| ==> attempts[j].Mismatched?
    decreases |attempts|
  {
    if attempts != [] {
      var front := attempts[..|attempts| - 1];
      MismatchesAll(front);
      assert forall j :: 0 <= j < |front| ==> front[j] == attempts[j];
    }
  }

  lemma MessagesCount(attempts: seq<Attempt>, best: Option<nat>, a: Attempt)
    requires Progress(attempts, best, a)
    ensures best.None? <==> Mismatches(attempts) == |attempts|
    ensures Mismatches(attempts) <= |attempts|
  {
    MismatchesAll(attempts);
  }

  // ----- What the chosen overload minimises -----

  /** The `k`-th argument is given a type other than its own. */
  predicate Changed(args: seq<InputArg>, flat: seq<Concrete>, k: nat)
    requires k < |args| == |flat|
  {
    flat[k].typ.Some? && flat[k].typ.value != args[k].typ
  }

  /** A column or another expression, or a query parameter with a type. */
  predicate IsExpression(a: InputArg) {
    a.form == NonLiteral || a.form == QueryParameter
  }

  /** The places whose argument is given another type: those of expressions, or those of
      literals and untyped arguments. */
  function ChangedPlaces(args: seq<InputArg>, flat: seq<Concrete>, expressions: bool, n: nat): set<nat>
    requires n <= |args| == |flat|
  {
    set k: nat | k < n && Changed(args, flat, k) && IsExpression(args[k]) == expressions
  }

  /** The distances of those types, added up. */
  function ChangedDistance(distance: (InputArg, Type) -> nat, args: seq<InputArg>, flat: seq<Concrete>,
                           expressions: bool, n: nat): nat
    requires n <= |args| == |flat|
  {
    if n == 0 then 0
    else
      ChangedDistance(distance, args, flat, expressions, n - 1) +
      if n - 1 in ChangedPlaces(args, flat, expressions, n) then distance(args[n - 1], flat[n - 1].typ.value) else 0
  }

  lemma PlacesStep(args: seq<InputArg>, flat: seq<Concrete>, expressions: bool, n: nat)
    requires n < |args| == |flat|
    ensures |ChangedPlaces(args, flat, expressions, n + 1)| ==
            |ChangedPlaces(args, flat, expressions, n)| +
            if Changed(args, flat, n) && IsExpression(args[n]) == expressions then 1 else 0
  {
    hide Changed, IsExpression;
    var before, after := ChangedPlaces(args, flat, expressions, n), ChangedPlaces(args, flat, expressions, n + 1);
    if Changed(args, flat, n) && IsExpression(args[n]) == expressions {
      assert after == before + {n};
    } else {
      assert after == before;
    }
  }

  /** The four parts of a cost: how many expressions are given another type and how far
      away, then the same for literals and untyped arguments. */
  lemma {:induction false} CostMeans(distance: (InputArg, Type) -> nat, args: seq<InputArg>, flat: seq<Concrete>,
                                     n: nat)
    requires n <= |args| == |flat|
    ensures var c := CostOf(distance, args, flat, n);
            && c.nonLiterals == |ChangedPlaces(args, flat, true, n)|
            && c.nonLiteralDistance == ChangedDistance(distance, args, flat, true, n)
            && c.literals == |ChangedPlaces(args, flat, false, n)|
            && c.literalDistance == ChangedDistance(distance, args, flat, false, n)
  {
    hide ChangedPlaces;
    if n == 0 {
      NoPlaces(args, flat);
    } else {
      CostMeans(distance, args, flat, n - 1);
      PlacesStep(args, flat, true, n - 1);
      PlacesStep(args, flat, false, n - 1);
      LastPlace(args, flat, n);
    }
  }

  lemma NoPlaces(args: seq<InputArg>, flat: seq<Concrete>)
    requires |args| == |flat|
    ensures forall expressions :: ChangedPlaces(args, flat, expressions, 0) == {}
  {
  }

  lemma LastPlace(args: seq<InputArg>, flat: seq<Concrete>, n: nat)
    requires 0 < n <= |args| == |flat|
    ensures forall expressions :: n - 1 in ChangedPlaces(args, flat, expressions, n) <==>
              Changed(args, flat, n - 1) && IsExpression(args[n - 1]) == expressions
  {
  }

  /** What a candidate changes, in order of importance. */
  function Changes(distance: (InputArg, Type) -> nat, a: Attempt): seq<nat>
    requires a.Candidate? && |ConcreteArguments(a.list)| == |a.args|
  {
    var flat := ConcreteArguments(a.list);
    [|ChangedPlaces(a.args, flat, true, |a.args|)|, ChangedDistance(distance, a.args, flat, true, |a.args|),
     |ChangedPlaces(a.args, flat, false, |a.args|)|, ChangedDistance(distance, a.args, flat, false, |a.args|)]
  }

  /** At the first of the four in which they differ, `x` is smaller. */
  ghost predicate FirstSmaller(x: seq<nat>, y: seq<nat>)
    requires |x| == |y|
  {
    exists i :: 0 <= i < |x| && x[i] < y[i] && forall j :: 0 <= j < i ==> x[j] == y[j]
  }

  function Parts(c: Cost): seq<nat> {
    [c.nonLiterals, c.nonLiteralDistance, c.literals, c.literalDistance]
  }

  lemma CloserIffFirstSmaller(a: Cost, b: Cost)
    ensures Closer(a, b) <==> FirstSmaller(Parts(a), Parts(b))
  {
    var x, y := Parts(a), Parts(b);
    if Closer(a, b) {
      var i := if x[0] != y[0] then 0 else if x[1] != y[1] then 1 else if x[2] != y[2] then 2 else 3;
      assert x[i] < y[i];
    }
    if FirstSmaller(x, y) {
      var i :| 0 <= i < 4 && x[i] < y[i] && forall j :: 0 <= j < i ==> x[j] == y[j];
      assert i > 0 ==> x[0] == y[0];
      assert i > 1 ==> x[1] == y[1];
      assert i > 2 ==> x[2] == y[2];
    }
  }

  /** The chosen overload changes the fewest expressions; among those that change as few,
      none changes them less far; then the same for literals and untyped arguments; and
      no earlier overload is as good in all four. */
  lemma ChosenChangesLeast(co: Coercer, distance: (InputArg, Type) -> nat, ps1: seq<Parameter>, ps2: seq<Parameter>,
                           c: Call, args: seq<InputArg>, attempts: seq<Attempt>, i: nat, j: nat)
    requires EarliestBest(attempts, i) && j < |attempts| && attempts[j].Candidate?
    requires FromCall(co, distance, ps1, c, args, attempts[i]) && FromCall(co, distance, ps2, c, args, attempts[j])
    ensures |ConcreteArguments(attempts[i].list)| == |attempts[i].args|
    ensures |ConcreteArguments(attempts[j].list)| == |attempts[j].args|
    ensures var x, y := Changes(distance, attempts[i]), Changes(distance, attempts[j]);
            && !FirstSmaller(y, x)
            && (j < i ==> FirstSmaller(x, y))
  {
    hide ConcreteArguments, CostOf, Matched, FirstSmaller, Closer, ChangedPlaces, ChangedDistance, Indexed, PlaceSound;
    CandidateCost(co, distance, ps1, c, args, attempts[i]);
    CandidateCost(co, distance, ps2, c, args, attempts[j]);
    CloserIffFirstSmaller(attempts[i].cost, attempts[j].cost);
    CloserIffFirstSmaller(attempts[j].cost, attempts[i].cost);
  }

  lemma CandidateCost(co: Coercer, distance: (InputArg, Type) -> nat, ps: seq<Parameter>, c: Call,
                      args: seq<InputArg>, a: Attempt)
    requires a.Candidate? && FromCall(co, distance, ps, c, args, a)
    ensures |ConcreteArguments(a.list)| == |a.args|
    ensures Changes(distance, a) == Parts(a.cost)
  {
    hide ConcreteArguments, CostOf, Matched, ChangedPlaces, ChangedDistance, Indexed, PlaceSound, TotalOccurrences;
    var r :| Built(co, distance, ps, c, args, r, a);
    CostMeans(distance, a.args, ConcreteArguments(a.list), |a.args|);
  }

  /** If some overload takes the arguments as they are, so does the chosen one. */
  lemma ExactMatchWins(co: Coercer, distance: (InputArg, Type) -> nat, overloads: seq<Overload>, c: Call,
                       args: seq<InputArg>,
                       attempts: seq<Attempt>, i: nat, j: nat)
    requires |attempts| == |overloads| && EarliestBest(attempts, i) && j < |attempts| && attempts[j].Candidate?
    requires FromCall(co, distance, overloads[i].signature.params, c, args, attempts[i])
    requires FromCall(co, distance, overloads[j].signature.params, c, args, attempts[j])
    requires |ConcreteArguments(attempts[j].list)| == |attempts[j].args|
    requires Exact(attempts[j].args, ConcreteArguments(attempts[j].list), |attempts[j].args|)
    ensures |ConcreteArguments(attempts[i].list)| == |attempts[i].args|
    ensures Exact(attempts[i].args, ConcreteArguments(attempts[i].list), |attempts[i].args|)
  {
    hide ConcreteArguments, Exact, CostOf, Matched;
    FreeIffExact(distance, attempts[j].args, ConcreteArguments(attempts[j].list), |attempts[j].args|);
    var r :| Built(co, distance, overloads[i].signature.params, c, args, r, attempts[i]);
    FreeIffExact(distance, attempts[i].args, ConcreteArguments(attempts[i].list), |attempts[i].args|);
    CloserOrder(attempts[j].cost, attempts[i].cost, FREE);
  }
}
