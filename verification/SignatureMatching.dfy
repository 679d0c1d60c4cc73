/** Checking the types of an argument list along the expansion of a signature.
 */
module SignatureMatching {
  import opened Types
  import opened Signatures
  import opened ArgumentCount
  import opened ArgumentMapping
  import opened Templates

  // ----- Checking the types -----

  ghost predicate KindsValid(ps: seq<Parameter>) {
    forall i :: 0 <= i < |ps| ==> TemplatedKind(ps[i].kind) || ps[i].kind.Fixed? || ps[i].kind.Arbitrary?
  }

  /** Checks each argument against the parameter at its place in `walk`. */
  ghost function CheckAll(co: Coercer, ps: seq<Parameter>, walk: seq<nat>, args: seq<InputArg>,
                          c: Collected): Option<Collected>
    requires |args| <= |walk| && InRange(ps, walk)
    decreases |args|
  {
    if args == [] then Some(c)
    else
      var d := CheckSingle(co, c, ps[walk[0]].kind, args[0]);
      if d.None? then None else CheckAll(co, ps, walk[1..], args[1..], d.value)
  }

  lemma RestStep(ps: seq<Parameter>, sig: nat, left: nat)
    requires Valid(ps) && sig < |ps| && !(BlockStart(ps) <= sig < BlockEnd(ps) && left == 0)
    ensures BlockStart(ps) <= sig == BlockEnd(ps) - 1 && left > 1 ==>
              Rest(ps, sig, left) == [sig] + Rest(ps, BlockStart(ps), left - 1)
    ensures !(BlockStart(ps) <= sig == BlockEnd(ps) - 1 && left > 1) ==>
              Rest(ps, sig, left) == [sig] + Rest(ps, sig + 1, left)
  {
    hide BlockStart, BlockEnd, Valid;
    if BlockStart(ps) <= sig == BlockEnd(ps) - 1 && left == 1 {
      RestAfterBlock(ps, sig + 1, 0);
      RestAfterBlock(ps, sig + 1, 1);
    }
  }

  /** One argument of the loop below. */
  lemma TypeStep(co: Coercer, ps: seq<Parameter>, walk: seq<nat>, args: seq<InputArg>, c: Collected, sig: nat,
                 left: nat, k: nat)
    requires Valid(ps) && InRange(ps, walk) && k < |args| <= |walk| && sig <= |ps|
    requires walk[k..] == Rest(ps, sig, left) && !(BlockStart(ps) <= sig < BlockEnd(ps) && left == 0)
    ensures sig < |ps|
    ensures walk[k + 1..] ==
            if BlockStart(ps) <= sig == BlockEnd(ps) - 1 && left > 1 then Rest(ps, BlockStart(ps), left - 1)
            else Rest(ps, sig + 1, left)
    ensures var d := CheckSingle(co, c, ps[sig].kind, args[k]);
            CheckAll(co, ps, walk[k..], args[k..], c) ==
            if d.None? then None else CheckAll(co, ps, walk[k + 1..], args[k + 1..], d.value)
  {
    hide CheckSingle, BlockStart, BlockEnd, Valid;
    assert walk[k..] != [];
    RestStep(ps, sig, left);
    assert walk[k..][1..] == walk[k + 1..] && args[k..][1..] == args[k + 1..];
  }

  /** Walks the signature alongside the arguments, rewinding for repetitions. */
  method CheckArgumentTypes(co: Coercer, ps: seq<Parameter>, result: Kind, args: seq<InputArg>, repetitions: nat)
      returns (r: Option<Collected>)
    requires Valid(ps) && exists o :: Solves(ps, |args|, repetitions, o)
    ensures |args| <= |Expansion(ps, repetitions)| && InRange(ps, Expansion(ps, repetitions))
    ensures var all := CheckAll(co, ps, Expansion(ps, repetitions), args, map[]);
            r == if all.None? then None else Some(CollectResult(all.value, result))
  {
    hide CheckSingle, CollectResult, BlockStart, BlockEnd, Valid, Expansion, NumOptional;
    Layout(ps);
    ExpansionLength(ps, repetitions);
    ExpansionInRange(ps, repetitions);
    WalkIsExpansion(ps, repetitions);
    ghost var walk := Expansion(ps, repetitions);
    r := CheckAlong(co, ps, args, repetitions, walk);
    if r.Some? {
      r := Some(CollectResult(r.value, result));
    }
  }

  /** The loop of `CheckArgumentTypes`. */
  method CheckAlong(co: Coercer, ps: seq<Parameter>, args: seq<InputArg>, repetitions: nat, ghost walk: seq<nat>)
      returns (r: Option<Collected>)
    requires Valid(ps) && InRange(ps, walk) && |args| <= |walk| && walk == Rest(ps, 0, repetitions)
    requires forall i :: 0 <= i < |ps| ==> (ps[i].card.Repeated? <==> BlockStart(ps) <= i < BlockEnd(ps))
    ensures r == CheckAll(co, ps, walk, args, map[])
  {
    hide CheckSingle, BlockStart, BlockEnd, Valid, CheckAll, Rest;
    var c: Collected := map[];
    var sig: nat := 0;
    var repetition: nat := 0;
    assert walk[0..] == walk && args[0..] == args;
    for k := 0 to |args|
      invariant sig <= |ps| && repetition <= repetitions && (repetitions > 0 ==> repetition < repetitions)
      invariant repetitions == 0 ==> sig <= BlockStart(ps) || BlockEnd(ps) <= sig
      invariant walk[k..] == Rest(ps, sig, repetitions - repetition)
      invariant CheckAll(co, ps, walk[k..], args[k..], c) == CheckAll(co, ps, walk, args, map[])
    {
      if repetitions == 0 && BlockStart(ps) == sig < BlockEnd(ps) {
        RestSkip(ps);
        sig := BlockEnd(ps);
      }
      TypeStep(co, ps, walk, args, c, sig, repetitions - repetition, k);
      assert sig < |ps|; // a place remains for every argument, so the sanity check holds
      var d := CheckSingle(co, c, ps[sig].kind, args[k]);
      if d.None? {
        return None;
      }
      c := d.value;
      if ps[sig].card.Repeated? && sig == BlockEnd(ps) - 1 && repetition < repetitions - 1 {
        repetition := repetition + 1;
        sig := BlockStart(ps);
      } else {
        sig := sig + 1;
      }
    }
    CheckAllDone(co, ps, walk[|args|..], args[|args|..], c);
    return Some(c);
  }

  lemma RestSkip(ps: seq<Parameter>)
    requires BlockStart(ps) < BlockEnd(ps)
    ensures Rest(ps, BlockStart(ps), 0) == Rest(ps, BlockEnd(ps), 0)
  {
  }

  lemma CheckAllDone(co: Coercer, ps: seq<Parameter>, walk: seq<nat>, args: seq<InputArg>, c: Collected)
    requires InRange(ps, walk) && args == []
    ensures CheckAll(co, ps, walk, args, c) == Some(c)
  {
  }

  /** What a successful check of all arguments leaves behind: a consistent
      collection in which each typed argument is recorded under the kind of the
      parameter at its place. */
  lemma {:induction false} CheckAllKeeps(co: Coercer, ps: seq<Parameter>, walk: seq<nat>, args: seq<InputArg>,
                                         c: Collected)
    requires |args| <= |walk| && InRange(ps, walk) && KindsValid(ps) && Consistent(c)
    requires CheckAll(co, ps, walk, args, c).Some?
    ensures var d := CheckAll(co, ps, walk, args, c).value;
            && Consistent(d) && Raised(c, d)
            && forall i :: 0 <= i < |args| ==> Recorded(co, d, ps[walk[i]].kind, args[i])
    decreases |args|
  {
    hide CheckSingle, Consistent, Recorded, Raised;
    if args == [] {
      RaisedReflexive(c);
    } else {
      var k := ps[walk[0]].kind;
      var c1 := CheckSingle(co, c, k, args[0]).value;
      CheckSingleKeeps(co, c, k, args[0]);
      CheckAllKeeps(co, ps, walk[1..], args[1..], c1);
      var d := CheckAll(co, ps, walk, args, c).value;
      RecordedFirst(co, c, c1, k, args[0]);
      RecordedRaised(co, c1, d, k, args[0]);
      RaisedTransitive(c, c1, d);
      forall i | 0 <= i < |args|
        ensures Recorded(co, d, ps[walk[i]].kind, args[i])
      {
        if i > 0 {
          assert walk[1..][i - 1] == walk[i] && args[1..][i - 1] == args[i];
        }
      }
    }
  }

  /** The argument passed the check for kind `k` and left its trace. */
  ghost predicate Recorded(co: Coercer, d: Collected, k: Kind, a: InputArg) {
    match k
    case Arbitrary => true
    case Fixed(t) => a.typ == t || (co.allowCoercion && (co.coerces(a, t) || co.customCoercion(t, a.typ)))
    case _ =>
      && k in d && (!a.IsUntyped() ==> d[k].TypedSet? && a.Bare() in d[k].args && Templates.Fits(k, a.typ))
      && (k.ProtoMapAny? ==> SetOf(d, ProtoMapKeyAny).TypedSet? && SetOf(d, ProtoMapValueAny).TypedSet?)
  }

  lemma RaisedReflexive(c: Collected)
    ensures Raised(c, c)
  {
  }

  lemma RecordedFirst(co: Coercer, c: Collected, d: Collected, k: Kind, a: InputArg)
    requires Consistent(c) && (TemplatedKind(k) || k.Fixed? || k.Arbitrary?)
    requires CheckSingle(co, c, k, a) == Some(d)
    ensures Recorded(co, d, k, a)
  {
    hide Consistent, CollectUntyped, Insert;
    CheckSingleKeeps(co, c, k, a);
    if k.ProtoMapAny? && !a.IsUntyped() {
      var c1 := Insert(c, k, a.Bare(), false);
      var c2 := Insert(c1, ProtoMapKeyAny, Component(a, a.typ.element.key), true);
      InsertKeeps(c1, ProtoMapKeyAny, Component(a, a.typ.element.key), true);
      InsertKeeps(c2, ProtoMapValueAny, Component(a, a.typ.element.value), true);
    }
    UntypedMap(c, k, a);
  }

  lemma UntypedMap(c: Collected, k: Kind, a: InputArg)
    ensures k.ProtoMapAny? ==> CollectUntyped(c, k, a).None?
  {
  }

  /** The kinds that a typed argument of kind `k` determines, among the key and the
      value of a proto map. */
  predicate Determines(k: Kind, part: Kind) {
    k == part || k.ProtoMapAny?
  }

  lemma PartSource(co: Coercer, c: Collected, k: Kind, a: InputArg, part: Kind)
    requires part in {ProtoMapKeyAny, ProtoMapValueAny} && CheckSingle(co, c, k, a).Some?
    requires SetOf(CheckSingle(co, c, k, a).value, part).TypedSet?
    ensures SetOf(c, part).TypedSet? || (Determines(k, part) && !a.IsUntyped())
  {
  }

  /** The type of the key or the value of a proto map comes from an argument. */
  lemma {:induction false} PartsFromArguments(co: Coercer, ps: seq<Parameter>, walk: seq<nat>, args: seq<InputArg>,
                                              c: Collected, part: Kind)
    requires |args| <= |walk| && InRange(ps, walk) && part in {ProtoMapKeyAny, ProtoMapValueAny}
    requires CheckAll(co, ps, walk, args, c).Some? && SetOf(CheckAll(co, ps, walk, args, c).value, part).TypedSet?
    ensures SetOf(c, part).TypedSet? ||
            exists i :: 0 <= i < |args| && Determines(ps[walk[i]].kind, part) && !args[i].IsUntyped()
    decreases |args|
  {
    hide CheckSingle, Determines;
    if args != [] {
      var c1 := CheckSingle(co, c, ps[walk[0]].kind, args[0]).value;
      PartsFromArguments(co, ps, walk[1..], args[1..], c1, part);
      if SetOf(c1, part).TypedSet? {
        PartSource(co, c, ps[walk[0]].kind, args[0], part);
      } else {
        var i :| 0 <= i < |args[1..]| && Determines(ps[walk[1..][i]].kind, part) && !args[1..][i].IsUntyped();
        assert walk[1..][i] == walk[i + 1] && args[1..][i] == args[i + 1];
      }
    }
  }

  lemma RecordedRaised(co: Coercer, c: Collected, d: Collected, k: Kind, a: InputArg)
    requires Recorded(co, c, k, a) && Raised(c, d)
    ensures Recorded(co, d, k, a)
  {
  }
}
