/** What the index mapping guarantees: each argument of the call is used exactly
    once, omitted rows are optional parameters, the rows follow the canonical
    expansion, and the extended argument list passes the count check again with
    the same number of repetitions. Two of these need a condition on the
    signature; each comes with the exact condition and a signature that fails it.
 */
module ArgumentMappingProperties {
  import opened Types
  import opened Signatures
  import opened ArgumentCount
  import opened ArgumentMapping

  // ----- The expansion -----

  /** A parameter outside the repeated block has exactly one place. */
  lemma OnePlace(ps: seq<Parameter>, r: nat, s: nat)
    requires Valid(ps) && s < |ps| && !ps[s].card.Repeated?
    ensures exists j :: 0 <= j < |Expansion(ps, r)| && Expansion(ps, r)[j] == s
    ensures forall j1, j2 :: 0 <= j1 < j2 < |Expansion(ps, r)| && Expansion(ps, r)[j1] == s ==>
              Expansion(ps, r)[j2] != s
  {
    hide Valid, BlockStart, BlockEnd, Range, Repeat;
    Layout(ps);
    var b, e := BlockStart(ps), BlockEnd(ps);
    var mid := Repeat(Range(b, e), r);
    RepeatMembers(Range(b, e), r);
    var walk := Expansion(ps, r);
    var j := if s < b then s else s - e + b + |mid|;
    assert walk[j] == s;
    forall i | 0 <= i < |mid|
      ensures mid[i] != s
    {
      assert mid[i] in Range(b, e);
    }
    assert forall i :: b <= i < b + |mid| ==> walk[i] == mid[i - b];
  }

  // ----- The shape of the mapping -----

  /** The argument at position `k` of a call with named arguments. */
  function CallAt(ps: seq<Parameter>, c: Call, s: nat, k: nat): int
    requires s < |ps|
  {
    if k < c.Positionals() then k
    else if Used(ps, c, s) then Lookup(c.named, ps[s].name).value
    else -1
  }

  lemma {:induction false} RowsNamed(ps: seq<Parameter>, c: Call, always: bool, walk: seq<nat>, pos: nat)
    requires InRange(ps, walk) && PlacesOk(ps, c, walk, pos) && c.named != []
    ensures |Rows(ps, c, always, walk, pos)| == |walk|
    ensures forall k :: 0 <= k < |walk| ==>
              Rows(ps, c, always, walk, pos)[k] == Entry(walk[k], CallAt(ps, c, walk[k], pos + k))
    decreases |walk|
  {
    if walk != [] {
      PlacesOkStep(ps, c, walk, pos);
      RowsNamed(ps, c, always, walk[1..], pos + 1);
      assert PlaceOk(ps, c, walk[0], pos);
      assert RowAt(ps, c, always, walk[0], pos) == [Entry(walk[0], CallAt(ps, c, walk[0], pos))];
    }
  }

  /** The rows of omitted parameters in a call without named arguments. */
  function Omitted(ps: seq<Parameter>, always: bool, walk: seq<nat>): (es: seq<Entry>)
    requires forall i :: 0 <= i < |walk| ==> walk[i] < |ps|
    ensures forall k :: 0 <= k < |es| ==> es[k].callIndex == -1 && es[k].sigIndex in walk
    ensures |es| <= |walk|
  {
    if walk == [] then []
    else (if Included(ps, always, walk[0]) then [Entry(walk[0], -1)] else []) + Omitted(ps, always, walk[1..])
  }

  lemma {:induction false} RowsUnnamed(ps: seq<Parameter>, c: Call, always: bool, walk: seq<nat>, pos: nat)
    requires InRange(ps, walk) && PlacesOk(ps, c, walk, pos) && c.named == []
    requires pos <= c.n <= pos + |walk|
    ensures var placed := c.n - pos;
            && |Rows(ps, c, always, walk, pos)| == placed + |Omitted(ps, always, walk[placed..])|
            && (forall k :: 0 <= k < placed ==> Rows(ps, c, always, walk, pos)[k] == Entry(walk[k], pos + k))
            && Rows(ps, c, always, walk, pos)[placed..] == Omitted(ps, always, walk[placed..])
    decreases |walk|
  {
    hide Omitted, PlacesOk, Used;
    if pos < c.n {
      PlacesOkStep(ps, c, walk, pos);
      RowsUnnamed(ps, c, always, walk[1..], pos + 1);
      assert walk[1..][c.n - pos - 1..] == walk[c.n - pos..];
    } else {
      RowsOmitted(ps, c, always, walk, pos);
      assert walk[0..] == walk;
    }
  }

  lemma {:induction false} RowsOmitted(ps: seq<Parameter>, c: Call, always: bool, walk: seq<nat>, pos: nat)
    requires InRange(ps, walk) && PlacesOk(ps, c, walk, pos) && c.named == [] && c.n <= pos
    ensures Rows(ps, c, always, walk, pos) == Omitted(ps, always, walk)
    decreases |walk|
  {
    if walk != [] {
      PlacesOkStep(ps, c, walk, pos);
      RowsOmitted(ps, c, always, walk[1..], pos + 1);
      assert PlaceOk(ps, c, walk[0], pos);
    }
  }

  /** The call has a mapping, and `r` is what the count check found. */
  ghost predicate Matched(ps: seq<Parameter>, c: Call, r: nat) {
    && Valid(ps) && c.Valid()
    && (exists o :: Solves(ps, c.n, r, o))
    && Mappable(ps, c, r)
  }

  lemma PositionalsFit(ps: seq<Parameter>, c: Call, r: nat)
    requires Matched(ps, c, r)
    ensures c.Positionals() <= c.n <= |Expansion(ps, r)|
  {
    ExpansionLength(ps, r);
  }

  lemma MappingNamed(ps: seq<Parameter>, c: Call, r: nat, always: bool)
    requires Matched(ps, c, r) && c.named != []
    ensures var m, walk := Mapping(ps, c, r, always), Expansion(ps, r);
            && |m| == |walk| && InRange(ps, walk)
            && forall k :: 0 <= k < |m| ==> m[k] == Entry(walk[k], CallAt(ps, c, walk[k], k))
  {
    ExpansionInRange(ps, r);
    RowsNamed(ps, c, always, Expansion(ps, r), 0);
  }

  lemma MappingUnnamed(ps: seq<Parameter>, c: Call, r: nat, always: bool)
    requires Matched(ps, c, r) && c.named == []
    ensures var m, walk := Mapping(ps, c, r, always), Expansion(ps, r);
            && c.n <= |walk| && InRange(ps, walk)
            && |m| >= c.n && m[c.n..] == Omitted(ps, always, walk[c.n..])
            && forall k :: 0 <= k < c.n ==> m[k] == Entry(walk[k], k)
  {
    hide Expansion, Omitted, Rows, Signatures.Valid, PlacesOk, SkipOk, NamesOk, NamedLast, BlockStart, BlockEnd;
    ExpansionInRange(ps, r);
    PositionalsFit(ps, c, r);
    RowsUnnamed(ps, c, always, Expansion(ps, r), 0);
  }

  // ----- Every argument exactly once -----

  ghost predicate Taken(m: seq<Entry>, i: nat) {
    exists k :: 0 <= k < |m| && m[k].callIndex == i
  }

  ghost predicate EachOnce(m: seq<Entry>, n: nat) {
    && (forall k :: 0 <= k < |m| ==> -1 <= m[k].callIndex < n)
    && (forall i :: 0 <= i < n ==> Taken(m, i))
    && (forall k1, k2 :: 0 <= k1 < k2 < |m| && m[k1].callIndex >= 0 ==> m[k1].callIndex != m[k2].callIndex)
  }

  /** No name used in the call is carried by a second, positional-only parameter. */
  ghost predicate NamesUnambiguous(ps: seq<Parameter>, c: Call) {
    forall s :: 0 <= s < |ps| && ps[s].naming.PositionalOnly? && Used(ps, c, s) ==> ps[s].card.Repeated?
  }

  /** The parameter that a name used in the call refers to. */
  lemma NamedParameter(ps: seq<Parameter>, c: Call, s: nat) returns (t: nat)
    requires Valid(ps) && NamesOk(ps, c) && s < |ps| && Used(ps, c, s)
    ensures t < |ps| && ps[t].name == ps[s].name && !ps[t].naming.PositionalOnly?
    ensures !ps[t].card.Repeated? && Used(ps, c, t)
  {
    var i :| 0 <= i < |c.named| && c.named[i].name == ps[s].name;
    assert HasNamedArgument(ps, c.named[i].name);
    t :| 0 <= t < |ps| && !ps[t].naming.PositionalOnly? && ps[t].name == c.named[i].name;
  }

  /** The `i`-th argument of the call, if named, is where the lookup of its name leads. */
  lemma NamedIndex(ps: seq<Parameter>, c: Call, i: nat) returns (t: nat)
    requires Valid(ps) && NamesOk(ps, c) && NamedLast(c) && c.Positionals() <= i < c.n
    ensures t < |ps| && Used(ps, c, t) && Lookup(c.named, ps[t].name) == Some(i)
    ensures !ps[t].naming.PositionalOnly? && !ps[t].card.Repeated?
  {
    hide Lookup;
    var k := i - (c.n - |c.named|);
    assert c.named[k].index == i;
    assert HasNamedArgument(ps, c.named[k].name);
    t :| 0 <= t < |ps| && !ps[t].naming.PositionalOnly? && ps[t].name == c.named[k].name;
    assert Lookup(c.named, ps[t].name) == Some(i);
  }

  lemma LookupRange(ps: seq<Parameter>, c: Call, s: nat)
    requires NamedLast(c) && s < |ps| && Used(ps, c, s)
    ensures c.Positionals() <= Lookup(c.named, ps[s].name).value < c.n
  {
    hide Lookup;
  }

  /** Same position in the call means same name. */
  lemma LookupInjective(ps: seq<Parameter>, c: Call, s1: nat, s2: nat)
    requires NamedLast(c) && s1 < |ps| && s2 < |ps| && Used(ps, c, s1) && Used(ps, c, s2)
    requires Lookup(c.named, ps[s1].name) == Lookup(c.named, ps[s2].name)
    ensures ps[s1].name == ps[s2].name
  {
    hide Lookup;
  }

  /** A used, non-repeated parameter has a place after the positional arguments. */
  lemma UsedPlace(ps: seq<Parameter>, c: Call, r: nat, always: bool, s: nat) returns (j: nat)
    requires Matched(ps, c, r) && s < |ps| && Used(ps, c, s) && !ps[s].card.Repeated?
    ensures var m := Mapping(ps, c, r, always);
            j < |m| && m[j] == Entry(s, Lookup(c.named, ps[s].name).value)
  {
    hide Lookup, Expansion, Mapping;
    MappingNamed(ps, c, r, always);
    OnePlace(ps, r, s);
    j :| 0 <= j < |Expansion(ps, r)| && Expansion(ps, r)[j] == s;
    assert PlaceOk(ps, c, Expansion(ps, r)[j], 0 + j);
  }

  /** The rows stay within the call and leave no argument out. */
  lemma AllTaken(ps: seq<Parameter>, c: Call, r: nat, always: bool)
    requires Matched(ps, c, r)
    ensures forall k :: 0 <= k < |Mapping(ps, c, r, always)| ==> -1 <= Mapping(ps, c, r, always)[k].callIndex < c.n
    ensures forall i :: 0 <= i < c.n ==> Taken(Mapping(ps, c, r, always), i)
  {
    hide Mapping;
    if c.named == [] {
      UnnamedOnce(ps, c, r, always);
    } else {
      NamedTaken(ps, c, r, always);
    }
  }

  lemma NamedTaken(ps: seq<Parameter>, c: Call, r: nat, always: bool)
    requires Matched(ps, c, r) && c.named != []
    ensures forall k :: 0 <= k < |Mapping(ps, c, r, always)| ==> -1 <= Mapping(ps, c, r, always)[k].callIndex < c.n
    ensures forall i :: 0 <= i < c.n ==> Taken(Mapping(ps, c, r, always), i)
  {
    hide Lookup, Expansion, Mapping;
    var m, walk := Mapping(ps, c, r, always), Expansion(ps, r);
    MappingNamed(ps, c, r, always);
    PositionalsFit(ps, c, r);
    forall k | 0 <= k < |m|
      ensures -1 <= m[k].callIndex < c.n
    {
      if Used(ps, c, walk[k]) { LookupRange(ps, c, walk[k]); }
    }
    forall i | 0 <= i < c.n
      ensures Taken(m, i)
    {
      if i < c.Positionals() {
        assert m[i].callIndex == i;
      } else {
        var t := NamedIndex(ps, c, i);
        var j := UsedPlace(ps, c, r, always, t);
      }
    }
  }

  lemma OnceIfUnambiguous(ps: seq<Parameter>, c: Call, r: nat, always: bool)
    requires Matched(ps, c, r) && c.named != [] && NamesUnambiguous(ps, c)
    ensures EachOnce(Mapping(ps, c, r, always), c.n)
  {
    hide Mapping;
    var m := Mapping(ps, c, r, always);
    NamedTaken(ps, c, r, always);
    forall k1, k2 | 0 <= k1 < k2 < |m| && m[k1].callIndex >= 0
      ensures m[k1].callIndex != m[k2].callIndex
    {
      DistinctRows(ps, c, r, always, k1, k2);
    }
  }

  lemma DistinctRows(ps: seq<Parameter>, c: Call, r: nat, always: bool, k1: nat, k2: nat)
    requires Matched(ps, c, r) && c.named != [] && NamesUnambiguous(ps, c)
    requires k1 < k2 < |Mapping(ps, c, r, always)| && Mapping(ps, c, r, always)[k1].callIndex >= 0
    ensures Mapping(ps, c, r, always)[k1].callIndex != Mapping(ps, c, r, always)[k2].callIndex
  {
    hide Lookup, Expansion, Mapping;
    var m, walk := Mapping(ps, c, r, always), Expansion(ps, r);
    MappingNamed(ps, c, r, always);
    var s1, s2 := walk[k1], walk[k2];
    assert PlaceOk(ps, c, walk[k1], 0 + k1) && PlaceOk(ps, c, walk[k2], 0 + k2);
    if Used(ps, c, s1) { LookupRange(ps, c, s1); }
    if Used(ps, c, s2) { LookupRange(ps, c, s2); }
    if k1 >= c.Positionals() && m[k1].callIndex == m[k2].callIndex {
      LookupInjective(ps, c, s1, s2);
      assert s1 == s2;
      OnePlace(ps, r, s1);
    }
  }

  lemma AmbiguousIfNot(ps: seq<Parameter>, c: Call, r: nat, always: bool)
    requires Matched(ps, c, r) && EachOnce(Mapping(ps, c, r, always), c.n)
    ensures NamesUnambiguous(ps, c)
  {
    hide Lookup, Expansion, Mapping;
    forall s | 0 <= s < |ps| && ps[s].naming.PositionalOnly? && Used(ps, c, s)
      ensures ps[s].card.Repeated?
    {
      if !ps[s].card.Repeated? {
        LookupRange(ps, c, s);
        var t := NamedParameter(ps, c, s);
        var j1 := UsedPlace(ps, c, r, always, s);
        var j2 := UsedPlace(ps, c, r, always, t);
      }
    }
  }

  /** Reordering by the mapping uses every argument of the call exactly once, if
      and only if no name in the call is shared with a positional-only parameter. */
  lemma EachArgumentOnce(ps: seq<Parameter>, c: Call, r: nat, always: bool)
    requires Matched(ps, c, r)
    ensures EachOnce(Mapping(ps, c, r, always), c.n) <==> NamesUnambiguous(ps, c)
  {
    hide Expansion, Mapping, EachOnce;
    if EachOnce(Mapping(ps, c, r, always), c.n) {
      AmbiguousIfNot(ps, c, r, always);
    }
    if c.named != [] {
      if NamesUnambiguous(ps, c) {
        OnceIfUnambiguous(ps, c, r, always);
      }
    } else {
      UnnamedOnce(ps, c, r, always);
    }
  }

  lemma UnnamedOnce(ps: seq<Parameter>, c: Call, r: nat, always: bool)
    requires Matched(ps, c, r) && c.named == []
    ensures EachOnce(Mapping(ps, c, r, always), c.n)
  {
    hide Expansion, Mapping;
    var m := Mapping(ps, c, r, always);
    MappingUnnamed(ps, c, r, always);
    assert forall k :: c.n <= k < |m| ==> m[k] == m[c.n..][k - c.n];
    forall i | 0 <= i < c.n
      ensures Taken(m, i)
    {
      assert m[i].callIndex == i;
    }
  }

  /** `f(x, [x])`, where the first `x` is positional-only and the second may be
      named, called as `f(x => 1)`: the one argument is taken for both. */
  lemma AmbiguousNameTakenTwice()
    ensures var x := Parameter(Required, Arbitrary, "x", PositionalOnly, None);
            var ps := [x, x.(card := Optional, naming := PositionalOrNamed)];
            var c := Call(1, [NamedArg("x", 0)]);
            && Matched(ps, c, 0) && !NamesUnambiguous(ps, c)
            && Mapping(ps, c, 0, true) == [Entry(0, 0), Entry(1, 0)]
  {
    var x := Parameter(Required, Arbitrary, "x", PositionalOnly, None);
    var y := x.(card := Optional, naming := PositionalOrNamed);
    var ps := [x, y];
    var c := Call(1, [NamedArg("x", 0)]);
    SmallSignature(ps);
    assert HasNamedArgument(ps, "x") by { assert ps[1] == y; }
    assert Solves(ps, c.n, 0, 0);
    assert Used(ps, c, 0) && Used(ps, c, 1);
    assert Matched(ps, c, 0);
    MappingNamed(ps, c, 0, true);
  }

  /** The counts of a two-parameter signature without repeated parameters. */
  lemma SmallSignature(ps: seq<Parameter>)
    requires |ps| == 2 && !ps[0].card.Repeated? && !ps[1].card.Repeated? && ps[1].card.Optional?
    ensures NumRepeated(ps) == 0 && NumOptional(ps) == (if ps[0].card.Optional? then 2 else 1)
    ensures BlockStart(ps) == BlockEnd(ps) == 2
    ensures forall r :: Expansion(ps, r) == [0, 1]
  {
    forall r: nat
      ensures Expansion(ps, r) == [0, 1]
    {
      RepeatLength(Range(2, 2), r);
    }
  }

  // ----- Omitted rows -----

  /** A row without an argument belongs to an optional parameter. */
  lemma OmittedRowsAreOptional(ps: seq<Parameter>, c: Call, r: nat, always: bool, k: nat)
    requires Matched(ps, c, r) && k < |Mapping(ps, c, r, always)|
    ensures var e := Mapping(ps, c, r, always)[k];
            e.sigIndex < |ps| && (e.callIndex == -1 ==> ps[e.sigIndex].card.Optional?)
  {
    hide Lookup, Expansion, Mapping;
    var m, walk := Mapping(ps, c, r, always), Expansion(ps, r);
    if c.named != [] {
      MappingNamed(ps, c, r, always);
      assert PlaceOk(ps, c, walk[k], 0 + k);
    } else {
      MappingUnnamed(ps, c, r, always);
      if k >= c.n {
        assert m[k] == m[c.n..][k - c.n];
        var j :| 0 <= j < |walk[c.n..]| && walk[c.n..][j] == m[k].sigIndex;
        assert PlaceOk(ps, c, walk[c.n + j], 0 + (c.n + j));
      }
    }
  }

  // ----- Which calls can be mapped -----

  /** The call passes an argument by this name. */
  ghost predicate ByName(c: Call, name: string) {
    name != "" && exists i :: 0 <= i < |c.named| && c.named[i].name == name
  }

  lemma UsedIffByName(ps: seq<Parameter>, c: Call, s: nat)
    requires s < |ps|
    ensures Used(ps, c, s) <==> ByName(c, ps[s].name)
  {
    hide Lookup;
  }

  /** Passing over a block without repetitions meets no name of the call: of its first
      parameter when positional arguments are left, of any of its parameters otherwise. */
  ghost predicate BlockUnnamed(ps: seq<Parameter>, c: Call) {
    forall i :: BlockStart(ps) <= i < BlockEnd(ps) && i < |ps| ==>
      (BlockStart(ps) < c.Positionals() ==> i == BlockStart(ps)) ==> !ByName(c, ps[i].name)
  }

  /** A call can be mapped exactly when its names are known and different and come last,
      every positional argument is at the place of a parameter that may be positional and
      is not also named, every required parameter without a positional argument is named,
      no repeated place is left, and a block that is passed over is not named. */
  lemma MappableIff(ps: seq<Parameter>, c: Call, r: nat)
    requires Valid(ps)
    ensures Mappable(ps, c, r) <==>
              && NamesOk(ps, c) && NamedLast(c) && InRange(ps, Expansion(ps, r))
              && (forall k :: 0 <= k < |Expansion(ps, r)| && k < c.Positionals() ==>
                    var p := ps[Expansion(ps, r)[k]];
                    p.naming != NamedOnly && !ByName(c, p.name))
              && (forall k :: c.Positionals() <= k < |Expansion(ps, r)| ==>
                    var p := ps[Expansion(ps, r)[k]];
                    p.card == Optional || (p.card == Required && ByName(c, p.name)))
              && (r == 0 ==> BlockUnnamed(ps, c))
  {
    hide Signatures.Valid, Expansion, NamesOk, NamedLast, Used, ByName, BlockStart, BlockEnd;
    ExpansionInRange(ps, r);
    forall s | 0 <= s < |ps|
      ensures Used(ps, c, s) <==> ByName(c, ps[s].name)
    {
      UsedIffByName(ps, c, s);
    }
    BlockInside(ps);
  }

  lemma BlockInside(ps: seq<Parameter>)
    requires Valid(ps)
    ensures BlockEnd(ps) <= |ps|
  {
  }

  // ----- Which omitted parameters get a row -----

  lemma {:induction false} OmittedHas(ps: seq<Parameter>, always: bool, i: nat, s: nat)
    requires i <= s < |ps|
    ensures Entry(s, -1) in Omitted(ps, always, Range(i, |ps|)) <==> Included(ps, always, s)
    decreases s - i
  {
    hide Included, Range, Omitted;
    OmittedStep(ps, always, i);
    if i < s {
      OmittedHas(ps, always, i + 1, s);
    } else {
      var rest := Omitted(ps, always, Range(i + 1, |ps|));
      forall k | 0 <= k < |rest|
        ensures rest[k].sigIndex > s
      {
        IncludedInOmitted(ps, always, i + 1, k);
      }
    }
  }

  /** No row takes an argument of the call for parameter `s`. */
  ghost predicate NotTaken(m: seq<Entry>, s: nat) {
    forall k :: 0 <= k < |m| && m[k].sigIndex == s ==> m[k].callIndex == -1
  }

  ghost predicate DefaultFrom(ps: seq<Parameter>, s: nat) {
    exists t :: s <= t < |ps| && ps[t].default.Some?
  }

  ghost predicate NameableFrom(ps: seq<Parameter>, s: nat) {
    exists t :: s <= t < |ps| && !ps[t].naming.PositionalOnly?
  }

  lemma IncludedIff(ps: seq<Parameter>, always: bool, s: nat)
    requires s < |ps|
    ensures Included(ps, always, s) <==>
              DefaultFrom(ps, s) || (always && (ps[s].name != "" || NameableFrom(ps, s)))
  {
    hide LastDefault, LastNamed;
  }

  /** An optional parameter that the call does not fill gets a row exactly when the call
      has named arguments, or it or a later parameter has a default, or omitted named
      parameters are wanted and it has a name or it or a later one can be named. */
  lemma OmittedRowIff(ps: seq<Parameter>, c: Call, r: nat, always: bool, s: nat)
    requires Matched(ps, c, r) && s < |ps| && ps[s].card.Optional? && NotTaken(Mapping(ps, c, r, always), s)
    ensures Entry(s, -1) in Mapping(ps, c, r, always) <==>
              || c.named != []
              || DefaultFrom(ps, s)
              || (always && (ps[s].name != "" || NameableFrom(ps, s)))
  {
    hide Mapping, Mappable, Signatures.Valid, Expansion, Omitted, Range, Lookup, Included;
    var m, walk := Mapping(ps, c, r, always), Expansion(ps, r);
    OnePlace(ps, r, s);
    var j :| 0 <= j < |walk| && walk[j] == s;
    if c.named != [] {
      MappingNamed(ps, c, r, always);
      assert m[j] == Entry(s, -1);
    } else {
      MappingUnnamed(ps, c, r, always);
      OmittedTail(ps, c, r);
      IncludedIff(ps, always, s);
      assert j >= c.n;
      assert walk[c.n..][j - c.n] == s;
      OmittedHas(ps, always, FirstOmitted(ps, c, r), s);
      TailHas(m, c.n, s);
    }
  }

  lemma TailHas(m: seq<Entry>, n: nat, s: nat)
    requires n <= |m| && forall k :: 0 <= k < n ==> m[k].callIndex == k
    ensures Entry(s, -1) in m <==> Entry(s, -1) in m[n..]
  {
    assert m == m[..n] + m[n..];
  }

  // ----- The rows follow the expansion -----

  function SigIndices(m: seq<Entry>): (s: seq<nat>)
    ensures |s| == |m| && forall k :: 0 <= k < |s| ==> s[k] == m[k].sigIndex
  {
    seq(|m|, k requires 0 <= k < |m| => m[k].sigIndex)
  }

  /** An omitted parameter that gets no row is followed by one that does: an
      unnamed parameter past the last default and the last nameable parameter,
      before a positional-only parameter that carries a name. */
  ghost predicate Gap(ps: seq<Parameter>, s1: nat, s2: nat) {
    && s1 < s2 < |ps|
    && s1 > LastDefault(ps) && s1 > LastNamed(ps)
    && ps[s1].name == "" && ps[s2].name != ""
  }

  /** The first parameter that a call without named arguments omits. */
  ghost function FirstOmitted(ps: seq<Parameter>, c: Call, r: nat): int {
    |ps| - (|Expansion(ps, r)| - c.n)
  }

  ghost predicate GapFree(ps: seq<Parameter>, c: Call, r: nat, always: bool) {
    c.named == [] && always ==> forall s1, s2 :: FirstOmitted(ps, c, r) <= s1 ==> !Gap(ps, s1, s2)
  }

  lemma GapIffIncluded(ps: seq<Parameter>, always: bool, s1: nat, s2: nat)
    requires s1 < s2 < |ps|
    ensures Included(ps, always, s2) && !Included(ps, always, s1) <==> always && Gap(ps, s1, s2)
  {
    hide LastDefault, LastNamed;
  }

  /** From `i` on, no excluded parameter comes before an included one. */
  ghost predicate Closed(ps: seq<Parameter>, always: bool, i: nat) {
    forall s1, s2 :: i <= s1 < s2 < |ps| && Included(ps, always, s2) ==> Included(ps, always, s1)
  }

  lemma ClosedStep(ps: seq<Parameter>, always: bool, i: nat)
    requires i < |ps|
    ensures Included(ps, always, i) ==> (Closed(ps, always, i) <==> Closed(ps, always, i + 1))
    ensures !Included(ps, always, i) ==>
              (Closed(ps, always, i) <==> forall s :: i < s < |ps| ==> !Included(ps, always, s))
  {
    hide Included;
  }

  /** The included ones among the parameters from `i` on are the first of them
      exactly when no excluded one comes before an included one. */
  lemma {:induction false} IncludedPrefix(ps: seq<Parameter>, always: bool, i: nat)
    requires i <= |ps|
    ensures var inc := SigIndices(Omitted(ps, always, Range(i, |ps|)));
            |inc| <= |ps| - i && (inc == Range(i, i + |inc|) <==> Closed(ps, always, i))
    decreases |ps| - i
  {
    hide Included, Range, Closed, SigIndices, Omitted;
    if i == |ps| {
      ClosedAtEnd(ps, always);
    } else {
      IncludedPrefix(ps, always, i + 1);
      ClosedStep(ps, always, i);
      OmittedStep(ps, always, i);
      var es, rest := Omitted(ps, always, Range(i, |ps|)), Omitted(ps, always, Range(i + 1, |ps|));
      if Included(ps, always, i) {
        PrefixCons(i, SigIndices(es), SigIndices(rest));
      } else if rest == [] {
        NoneIncluded(ps, always, i + 1);
        assert SigIndices(es) == [] == Range(i, i);
      } else {
        IncludedInOmitted(ps, always, i + 1, 0);
        assert SigIndices(es)[0] != i == Range(i, i + |es|)[0];
      }
    }
  }

  lemma OmittedStep(ps: seq<Parameter>, always: bool, i: nat)
    requires i < |ps|
    ensures Omitted(ps, always, Range(i, |ps|)) ==
            (if Included(ps, always, i) then [Entry(i, -1)] else []) + Omitted(ps, always, Range(i + 1, |ps|))
  {
    hide Included, Range;
    assert Range(i, |ps|)[1..] == Range(i + 1, |ps|);
  }

  lemma ClosedAtEnd(ps: seq<Parameter>, always: bool)
    ensures Closed(ps, always, |ps|)
  {
  }

  lemma PrefixCons(i: nat, s: seq<nat>, t: seq<nat>)
    requires |s| == |t| + 1 && s[0] == i && forall k :: 0 <= k < |t| ==> s[k + 1] == t[k]
    ensures s == Range(i, i + |s|) <==> t == Range(i + 1, i + 1 + |t|)
  {
    hide Range;
    assert s == [i] + t;
    assert Range(i, i + |s|) == [i] + Range(i + 1, i + 1 + |t|);
    assert Range(i, i + |s|)[1..] == Range(i + 1, i + 1 + |t|);
    assert s[1..] == t;
  }

  lemma {:induction false} NoneIncluded(ps: seq<Parameter>, always: bool, i: nat)
    requires i <= |ps| && Omitted(ps, always, Range(i, |ps|)) == []
    ensures forall s :: i <= s < |ps| ==> !Included(ps, always, s)
    decreases |ps| - i
  {
    hide Included, Range;
    if i < |ps| {
      assert Range(i, |ps|)[1..] == Range(i + 1, |ps|);
      NoneIncluded(ps, always, i + 1);
    }
  }

  lemma OmittedAtEnd(ps: seq<Parameter>, always: bool)
    ensures Omitted(ps, always, Range(|ps|, |ps|)) == []
  {
  }

  lemma {:induction false} IncludedInOmitted(ps: seq<Parameter>, always: bool, i: nat, k: nat)
    requires i <= |ps| && k < |Omitted(ps, always, Range(i, |ps|))|
    ensures var s := Omitted(ps, always, Range(i, |ps|))[k].sigIndex;
            i <= s < |ps| && Included(ps, always, s)
    decreases |ps| - i
  {
    hide Included, Range, Omitted;
    OmittedAtEnd(ps, always);
    OmittedStep(ps, always, i);
    if Included(ps, always, i) {
      if k > 0 {
        IncludedInOmitted(ps, always, i + 1, k - 1);
      }
    } else {
      IncludedInOmitted(ps, always, i + 1, k);
    }
  }

  /** Past the arguments of a call without named ones the expansion lists the
      omitted parameters. */
  lemma OmittedTail(ps: seq<Parameter>, c: Call, r: nat)
    requires Matched(ps, c, r)
    ensures c.n <= |Expansion(ps, r)| && 0 <= FirstOmitted(ps, c, r) <= |ps|
    ensures Expansion(ps, r)[c.n..] == Range(FirstOmitted(ps, c, r), |ps|)
  {
    hide Expansion, Range;
    ExpansionLength(ps, r);
    var tail := Expansion(ps, r)[c.n..];
    forall k | 0 <= k < |tail|
      ensures tail[k] == FirstOmitted(ps, c, r) + k
    {
      ExpansionTail(ps, r, c.n + k);
    }
  }

  /** The rows name, in order, the parameters at the first positions of the
      canonical expansion, if and only if the signature has no gap among the
      omitted parameters. */
  lemma MappingFollowsExpansion(ps: seq<Parameter>, c: Call, r: nat, always: bool)
    requires Matched(ps, c, r)
    ensures var m := Mapping(ps, c, r, always);
            |m| <= |Expansion(ps, r)| &&
            (SigIndices(m) == Expansion(ps, r)[..|m|] <==> GapFree(ps, c, r, always))
  {
    hide Expansion, Mapping, SigIndices, GapFree;
    if c.named != [] {
      var m, walk := Mapping(ps, c, r, always), Expansion(ps, r);
      MappingNamed(ps, c, r, always);
      assert walk[..|m|] == walk;
      assert GapFree(ps, c, r, always) by { NamedGapFree(ps, c, r, always); }
    } else {
      UnnamedFollowsExpansion(ps, c, r, always);
    }
  }

  lemma NamedGapFree(ps: seq<Parameter>, c: Call, r: nat, always: bool)
    requires c.named != []
    ensures GapFree(ps, c, r, always)
  {
  }

  lemma UnnamedFollowsExpansion(ps: seq<Parameter>, c: Call, r: nat, always: bool)
    requires Matched(ps, c, r) && c.named == []
    ensures var m := Mapping(ps, c, r, always);
            |m| <= |Expansion(ps, r)| &&
            (SigIndices(m) == Expansion(ps, r)[..|m|] <==> GapFree(ps, c, r, always))
  {
    hide Expansion, Mapping, Closed, SigIndices, Range, Omitted, GapFree, Signatures.Valid, Mappable;
    MappingUnnamed(ps, c, r, always);
    OmittedTail(ps, c, r);
    var m, walk := Mapping(ps, c, r, always), Expansion(ps, r);
    var from := FirstOmitted(ps, c, r);
    IncludedPrefix(ps, always, from);
    ClosedIffGapFree(ps, c, r, always);
    PrefixSplit(SigIndices(m), SigIndices(m[c.n..]), walk, c.n, from, |ps|);
  }

  lemma PrefixSplit(s: seq<nat>, t: seq<nat>, walk: seq<nat>, n: nat, from: nat, end: nat)
    requires n <= |s| && n <= |walk| && from <= end
    requires |t| == |s| - n <= end - from && forall k :: 0 <= k < |t| ==> t[k] == s[n + k]
    requires forall k :: 0 <= k < n ==> s[k] == walk[k]
    requires walk[n..] == Range(from, end)
    ensures |s| <= |walk| && (s == walk[..|s|] <==> t == Range(from, from + |t|))
  {
    hide Range;
    assert forall k :: 0 <= k < |t| ==> walk[n + k] == walk[n..][k] == from + k;
    if t == Range(from, from + |t|) {
      forall k | 0 <= k < |s|
        ensures s[k] == walk[k]
      {
        if k >= n { assert t[k - n] == s[k]; }
      }
    }
    if s == walk[..|s|] {
      forall k | 0 <= k < |t|
        ensures t[k] == from + k
      {
        assert s[n + k] == walk[n + k];
      }
    }
  }

  lemma ClosedIffGapFree(ps: seq<Parameter>, c: Call, r: nat, always: bool)
    requires c.named == [] && 0 <= FirstOmitted(ps, c, r) <= |ps|
    ensures Closed(ps, always, FirstOmitted(ps, c, r)) <==> GapFree(ps, c, r, always)
  {
    hide Expansion, Included, Gap;
    forall s1: nat, s2: nat | s1 < s2 < |ps|
      ensures Included(ps, always, s2) && !Included(ps, always, s1) <==> always && Gap(ps, s1, s2)
    {
      GapIffIncluded(ps, always, s1, s2);
    }
    assert forall s1: nat, s2: nat :: Gap(ps, s1, s2) ==> s1 < s2 < |ps| by {
      forall s1: nat, s2: nat | Gap(ps, s1, s2)
        ensures s1 < s2 < |ps|
      {
        GapOrdered(ps, s1, s2);
      }
    }
  }

  lemma GapOrdered(ps: seq<Parameter>, s1: nat, s2: nat)
    requires Gap(ps, s1, s2)
    ensures s1 < s2 < |ps|
  {
  }

  /** `f([a], [b])` with an unnamed first and a positional-only named second
      parameter, called as `f()`: the only row is that of the second parameter,
      while the first place of the expansion belongs to the first. */
  lemma GapLosesParameter()
    ensures var a := Parameter(Optional, Arbitrary, "", PositionalOnly, None);
            var ps := [a, a.(name := "b")];
            var c := Call(0, []);
            && Matched(ps, c, 0) && !GapFree(ps, c, 0, true)
            && Mapping(ps, c, 0, true) == [Entry(1, -1)]
            && Expansion(ps, 0) == [0, 1]
  {
    var a := Parameter(Optional, Arbitrary, "", PositionalOnly, None);
    var ps := [a, a.(name := "b")];
    var c := Call(0, []);
    SmallSignature(ps);
    assert Solves(ps, c.n, 0, 0);
    assert Matched(ps, c, 0);
    assert LastDefault(ps) == -1 && LastNamed(ps) == -1;
    assert Gap(ps, 0, 1);
    MappingUnnamed(ps, c, 0, true);
    var m := Mapping(ps, c, 0, true);
    assert Expansion(ps, 0)[0..] == [0, 1];
    assert m[0..] == m;
    assert Included(ps, true, 1) && !Included(ps, true, 0);
    assert Omitted(ps, true, [0, 1]) == [Entry(1, -1)] by {
      assert [0, 1][1..] == [1] && [1][1..] == [];
      assert Omitted(ps, true, [1]) == [Entry(1, -1)];
    }
  }

  // ----- Counting again -----

  /** The argument list extended by the omitted rows passes the count check with
      the same number of repetitions, and its optional arguments are exactly the
      rows of optional parameters, which come last. */
  lemma CountAgain(ps: seq<Parameter>, c: Call, r: nat, always: bool)
    requires Matched(ps, c, r)
    ensures var m := Mapping(ps, c, r, always);
            var o := |m| - NumRequired(ps) - r * NumRepeated(ps);
            && o >= 0 && Solves(ps, |m|, r, o)
            && (forall k :: 0 <= k < |m| ==>
                  m[k].sigIndex < |ps| && (ps[m[k].sigIndex].card.Optional? <==> k >= |m| - o))
  {
    hide Expansion, Mapping, Lookup;
    var m, walk := Mapping(ps, c, r, always), Expansion(ps, r);
    ExpansionLength(ps, r);
    if c.named != [] { MappingNamed(ps, c, r, always); } else { MappingUnnamed(ps, c, r, always); }
    MappingFollowsExpansion(ps, c, r, always);
    assert c.n <= |m| <= |walk| by { PositionalsFit(ps, c, r); }
    forall k | 0 <= k < |m|
      ensures m[k].sigIndex < |ps| && (ps[m[k].sigIndex].card.Optional? <==> k >= NumRequired(ps) + r * NumRepeated(ps))
    {
      OmittedRowsAreOptional(ps, c, r, always, k);
      if c.named != [] || k < c.n {
        ExpansionTail(ps, r, k);
      } else {
        assert m[k] == m[c.n..][k - c.n];
      }
    }
  }

  /** The second count check finds the same number of repetitions. */
  lemma CountAgainUnique(ps: seq<Parameter>, c: Call, r: nat, always: bool, x: nat)
    requires Matched(ps, c, r) && Counts(ps, c.n, r)
    requires Counts(ps, |Mapping(ps, c, r, always)|, x)
    ensures x == r
  {
    hide Mapping, Mappable, Signatures.Valid, NumOptional, NumRepeated, NumRequired;
    CountAgain(ps, c, r, always);
    var m := Mapping(ps, c, r, always);
    var o := |m| - NumRequired(ps) - r * NumRepeated(ps);
    var y :| Solves(ps, |m|, x, y);
    if NumRepeated(ps) > 0 {
      SolutionUnique(ps, |m|, x, y, r, o);
    } else {
      assert Solves(ps, |m|, 0, o);
      var y' :| Solves(ps, c.n, r, y');
      assert Solves(ps, c.n, 0, y');
    }
  }

  // ----- Order -----

  /** One step through the signature: forward, or from the end of the repeated
      block back to its start. */
  ghost predicate Step(ps: seq<Parameter>, s: nat, t: nat) {
    s < t || (s == BlockEnd(ps) - 1 && t == BlockStart(ps))
  }

  lemma {:induction false} RestSteps(ps: seq<Parameter>, i: nat, left: nat)
    requires i <= |ps|
    ensures forall k :: 0 <= k < |Rest(ps, i, left)| - 1 ==> Step(ps, Rest(ps, i, left)[k], Rest(ps, i, left)[k + 1])
    ensures Rest(ps, i, left) != [] ==> Rest(ps, i, left)[0] >= i
    ensures Rest(ps, i, left) != [] && BlockStart(ps) == i < BlockEnd(ps) && left > 0 ==> Rest(ps, i, left)[0] == i
    decreases left, |ps| - i
  {
    hide BlockStart, BlockEnd;
    var rest := Rest(ps, i, left);
    if i < |ps| {
      if BlockStart(ps) <= i < BlockEnd(ps) && left == 0 {
        RestSteps(ps, BlockEnd(ps), 0);
      } else {
        var i', left' := i + 1, left;
        if i == BlockEnd(ps) - 1 && BlockStart(ps) < BlockEnd(ps) && left > 0 {
          i', left' := if left > 1 then BlockStart(ps) else i + 1, left - 1;
        }
        RestSteps(ps, i', left');
        assert rest == [i] + Rest(ps, i', left');
        forall k | 0 <= k < |rest| - 1
          ensures Step(ps, rest[k], rest[k + 1])
        {
          if k > 0 { assert Step(ps, Rest(ps, i', left')[k - 1], Rest(ps, i', left')[k]); }
        }
      }
    }
  }

  lemma {:induction false} OmittedIncreasing(ps: seq<Parameter>, always: bool, i: nat)
    requires i <= |ps|
    ensures var es := Omitted(ps, always, Range(i, |ps|));
            && (forall k :: 0 <= k < |es| ==> es[k].sigIndex >= i)
            && (forall k1, k2 :: 0 <= k1 < k2 < |es| ==> es[k1].sigIndex < es[k2].sigIndex)
    decreases |ps| - i
  {
    hide Included, Range, Omitted;
    if i < |ps| {
      OmittedStep(ps, always, i);
      OmittedIncreasing(ps, always, i + 1);
    } else {
      assert Range(i, |ps|) == [];
    }
  }

  /** Consecutive rows go forward through the signature, except from the end of
      the repeated block back to its start. */
  lemma RowsInOrder(ps: seq<Parameter>, c: Call, r: nat, always: bool, k: nat)
    requires Matched(ps, c, r) && k + 1 < |Mapping(ps, c, r, always)|
    ensures Step(ps, Mapping(ps, c, r, always)[k].sigIndex, Mapping(ps, c, r, always)[k + 1].sigIndex)
  {
    hide Expansion, Mapping, Lookup, Omitted;
    var m, walk := Mapping(ps, c, r, always), Expansion(ps, r);
    WalkIsExpansion(ps, r);
    RestSteps(ps, 0, r);
    if c.named != [] {
      MappingNamed(ps, c, r, always);
    } else {
      MappingUnnamed(ps, c, r, always);
      if k + 1 >= c.n {
        UnnamedOrder(ps, c, r, always, k);
      }
    }
  }

  lemma UnnamedOrder(ps: seq<Parameter>, c: Call, r: nat, always: bool, k: nat)
    requires Matched(ps, c, r) && c.named == [] && c.n <= k + 1 < |Mapping(ps, c, r, always)|
    ensures Mapping(ps, c, r, always)[k].sigIndex < Mapping(ps, c, r, always)[k + 1].sigIndex
  {
    hide Expansion, Mapping, Lookup, Omitted, Signatures.Valid, Mappable, Range;
    var m, walk := Mapping(ps, c, r, always), Expansion(ps, r);
    var from := FirstOmitted(ps, c, r);
    MappingUnnamed(ps, c, r, always);
    OmittedTail(ps, c, r);
    OmittedIncreasing(ps, always, from);
    assert m[k + 1] == m[c.n..][k + 1 - c.n];
    if k >= c.n {
      assert m[k] == m[c.n..][k - c.n];
    } else {
      LastPlaced(ps, c, r, k);
    }
  }

  lemma LastPlaced(ps: seq<Parameter>, c: Call, r: nat, k: nat)
    requires Matched(ps, c, r) && k + 1 == c.n < |Expansion(ps, r)|
    ensures Expansion(ps, r)[k] < FirstOmitted(ps, c, r)
  {
    hide Expansion;
    ExpansionLength(ps, r);
    ExpansionTail(ps, r, k);
    Layout(ps);
  }
}
