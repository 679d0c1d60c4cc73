/** Function signatures: required, repeated and optional parameters, the validity
    rules a signature obeys, and the one expansion of a signature that every walk
    over it must follow.
 */
module Signatures {
  import opened Types

  datatype Cardinality = Required | Repeated | Optional

  datatype NamedKind = PositionalOnly | PositionalOrNamed | NamedOnly

  /** A signature argument. The empty name means "no name"; names are compared
      case-insensitively by the analyzer and are taken here in lower case. */
  datatype Parameter = Parameter(
    card: Cardinality, kind: Kind, name: string, naming: NamedKind, default: Option<InputArg>)

  /** Indices `lo, lo+1, ..., hi-1`. */
  function Range(lo: nat, hi: nat): (s: seq<nat>)
    requires lo <= hi
    ensures |s| == hi - lo
    ensures forall i :: 0 <= i < |s| ==> s[i] == lo + i
  {
    seq(hi - lo, (i: nat) => lo + i)
  }

  /** `n` copies of `s`, one after the other. */
  function Repeat<T>(s: seq<T>, n: nat): seq<T> {
    if n == 0 then [] else s + Repeat(s, n - 1)
  }

  lemma {:induction false} RepeatLength<T>(s: seq<T>, n: nat)
    ensures |Repeat(s, n)| == n * |s|
  {
    if n > 0 {
      RepeatLength(s, n - 1);
      assert n * |s| == (n - 1) * |s| + |s|;
    }
  }

  lemma {:induction false} RepeatMembers<T>(s: seq<T>, n: nat)
    ensures forall x :: x in Repeat(s, n) ==> x in s
  {
    if n > 0 {
      RepeatMembers(s, n - 1);
    }
  }

  function FirstRepeated(ps: seq<Parameter>): (i: int)
    ensures -1 <= i < |ps|
    ensures i == -1 <==> forall j :: 0 <= j < |ps| ==> !ps[j].card.Repeated?
    ensures i >= 0 ==> ps[i].card.Repeated? && forall j :: 0 <= j < i ==> !ps[j].card.Repeated?
  {
    if ps == [] then -1
    else
      var front := ps[..|ps| - 1];
      var k := FirstRepeated(front);
      assert forall j :: 0 <= j < |front| ==> front[j] == ps[j];
      if k >= 0 then k else if ps[|ps| - 1].card.Repeated? then |ps| - 1 else -1
  }

  function LastRepeated(ps: seq<Parameter>): (i: int)
    ensures -1 <= i < |ps|
    ensures i == -1 <==> forall j :: 0 <= j < |ps| ==> !ps[j].card.Repeated?
    ensures i >= 0 ==> ps[i].card.Repeated? && forall j :: i < j < |ps| ==> !ps[j].card.Repeated?
  {
    if ps == [] then -1
    else if ps[|ps| - 1].card.Repeated? then |ps| - 1
    else
      var front := ps[..|ps| - 1];
      assert forall j :: 0 <= j < |front| ==> front[j] == ps[j];
      LastRepeated(front)
  }

  /** The number of trailing optional parameters. */
  function NumOptional(ps: seq<Parameter>): (n: nat)
    ensures n <= |ps|
    ensures forall j :: |ps| - n <= j < |ps| ==> ps[j].card.Optional?
    ensures n < |ps| ==> !ps[|ps| - n - 1].card.Optional?
  {
    if ps == [] || !ps[|ps| - 1].card.Optional? then 0 else
      var front := ps[..|ps| - 1];
      assert forall j :: 0 <= j < |front| ==> front[j] == ps[j];
      1 + NumOptional(front)
  }

  /** The repeated block is `ps[BlockStart..BlockEnd]`; without repeated
      parameters it is the empty block at the end. */
  function BlockStart(ps: seq<Parameter>): (b: nat)
    ensures b <= |ps|
  {
    if FirstRepeated(ps) == -1 then |ps| else FirstRepeated(ps)
  }

  function BlockEnd(ps: seq<Parameter>): (e: nat)
    ensures BlockStart(ps) <= e <= |ps|
  {
    if FirstRepeated(ps) == -1 then |ps| else
      assert LastRepeated(ps) >= FirstRepeated(ps);
      LastRepeated(ps) + 1
  }

  function NumRepeated(ps: seq<Parameter>): nat {
    BlockEnd(ps) - BlockStart(ps)
  }

  /** What the construction of a signature checks. */
  ghost predicate Valid(ps: seq<Parameter>) {
    && OptionalsLast(ps)
    && RepeatedContiguous(ps)
    && DefaultsLast(ps)
    && NamesWellFormed(ps)
    && (NumRepeated(ps) > 0 ==> NumRepeated(ps) > NumOptional(ps))
  }

  ghost predicate OptionalsLast(ps: seq<Parameter>) {
    forall i, j :: 0 <= i < j < |ps| && ps[i].card.Optional? ==> ps[j].card.Optional?
  }

  /** Everything from the first repeated parameter to the last one is repeated. */
  ghost predicate RepeatedContiguous(ps: seq<Parameter>) {
    forall j :: 0 <= j < |ps| && FirstRepeated(ps) <= j <= LastRepeated(ps) ==>
      FirstRepeated(ps) == -1 || ps[j].card.Repeated?
  }

  /** Only optional parameters have defaults, and the ones that do come last.
      A default of a parameter with a fixed type has that type. */
  ghost predicate DefaultsLast(ps: seq<Parameter>) {
    && (forall i :: 0 <= i < |ps| && ps[i].default.Some? ==>
          && ps[i].card.Optional?
          && ps[i].default.value.isDefault
          && (ps[i].kind.Fixed? ==> ps[i].default.value.typ == ps[i].kind.typ))
    && (forall i, j :: 0 <= i < j < |ps| && ps[i].default.Some? ==> ps[j].default.Some?)
  }

  /** Parameters that may be passed by name have distinct, non-empty names;
      repeated parameters are positional-only. A positional-only parameter may
      carry any name, or none. */
  ghost predicate NamesWellFormed(ps: seq<Parameter>) {
    && (forall i :: 0 <= i < |ps| && !ps[i].naming.PositionalOnly? ==> ps[i].name != "")
    && (forall i :: 0 <= i < |ps| && ps[i].card.Repeated? ==> ps[i].naming.PositionalOnly?)
    && (forall i, j :: 0 <= i < j < |ps| && !ps[i].naming.PositionalOnly? && !ps[j].naming.PositionalOnly?
                       ==> ps[i].name != ps[j].name)
  }

  function NumRequired(ps: seq<Parameter>): int {
    |ps| - NumRepeated(ps) - NumOptional(ps)
  }

  /** Where each cardinality sits in a valid signature. */
  lemma Layout(ps: seq<Parameter>)
    requires Valid(ps)
    ensures forall i :: 0 <= i < |ps| ==> (ps[i].card.Repeated? <==> BlockStart(ps) <= i < BlockEnd(ps))
    ensures forall i :: 0 <= i < |ps| ==> (ps[i].card.Optional? <==> |ps| - NumOptional(ps) <= i)
    ensures NumRepeated(ps) > 0 ==> BlockEnd(ps) <= |ps| - NumOptional(ps)
    ensures NumRequired(ps) >= 0
    ensures NumRepeated(ps) > 0 <==> FirstRepeated(ps) >= 0
  {
    hide FirstRepeated, LastRepeated, NumOptional;
    var o := |ps| - NumOptional(ps);
    forall i | 0 <= i < o
      ensures !ps[i].card.Optional?
    {
      assert !ps[o - 1].card.Optional?;
    }
  }

  /** The canonical expansion for `r` repetitions: the parameters before the
      repeated block, the block `r` times, the parameters after it. */
  function Expansion(ps: seq<Parameter>, r: nat): seq<nat> {
    Range(0, BlockStart(ps)) + Repeat(Range(BlockStart(ps), BlockEnd(ps)), r) + Range(BlockEnd(ps), |ps|)
  }

  /** The walk that is still to come at parameter `i` with `left` repetitions of
      the block to go (the current one included when `i` is inside the block). */
  function Rest(ps: seq<Parameter>, i: nat, left: nat): seq<nat>
    requires i <= |ps|
    decreases left, |ps| - i
  {
    if i == |ps| then []
    else if BlockStart(ps) <= i < BlockEnd(ps) then
      if left == 0 then Rest(ps, BlockEnd(ps), 0)
      else if i == BlockEnd(ps) - 1 then
        [i] + (if left > 1 then Rest(ps, BlockStart(ps), left - 1) else Rest(ps, i + 1, 0))
      else [i] + Rest(ps, i + 1, left)
    else [i] + Rest(ps, i + 1, left)
  }

  lemma {:induction false} RestAfterBlock(ps: seq<Parameter>, i: nat, left: nat)
    requires BlockEnd(ps) <= i <= |ps|
    ensures Rest(ps, i, left) == Range(i, |ps|)
    decreases |ps| - i
  {
    hide BlockStart, BlockEnd, Range;
    if i < |ps| {
      RestAfterBlock(ps, i + 1, left);
      assert Range(i, |ps|) == [i] + Range(i + 1, |ps|);
    }
  }

  lemma {:induction false} RestInBlock(ps: seq<Parameter>, i: nat, left: nat)
    requires BlockStart(ps) <= i < BlockEnd(ps) && left > 0
    ensures Rest(ps, i, left) ==
            Range(i, BlockEnd(ps)) + Repeat(Range(BlockStart(ps), BlockEnd(ps)), left - 1) + Range(BlockEnd(ps), |ps|)
    decreases left, BlockEnd(ps) - i
  {
    hide BlockStart, BlockEnd, Range;
    var b, e := BlockStart(ps), BlockEnd(ps);
    var block, after := Range(b, e), Range(e, |ps|);
    assert Range(i, e) == [i] + Range(i + 1, e);
    if i < e - 1 {
      RestInBlock(ps, i + 1, left);
      Assoc([i], Range(i + 1, e), Repeat(block, left - 1), after);
    } else if left > 1 {
      RestInBlock(ps, b, left - 1);
      Assoc([i], block, Repeat(block, left - 2), after);
    } else {
      RestAfterBlock(ps, e, 0);
    }
  }

  lemma Assoc(a: seq<nat>, b: seq<nat>, c: seq<nat>, d: seq<nat>)
    ensures a + (b + c + d) == (a + b) + c + d == a + (b + c) + d
  {
  }

  lemma RestAtBlock(ps: seq<Parameter>, r: nat)
    ensures Rest(ps, BlockStart(ps), r) ==
            Repeat(Range(BlockStart(ps), BlockEnd(ps)), r) + Range(BlockEnd(ps), |ps|)
  {
    hide BlockStart, BlockEnd, Range;
    var b, e := BlockStart(ps), BlockEnd(ps);
    if b == e {
      RepeatLength(Range(b, e), r);
      RestAfterBlock(ps, b, r);
    } else if r == 0 {
      RestAfterBlock(ps, e, 0);
    } else {
      RestInBlock(ps, b, r);
    }
  }

  lemma {:induction false} RestBeforeBlock(ps: seq<Parameter>, i: nat, r: nat)
    requires i <= BlockStart(ps)
    ensures Rest(ps, i, r) ==
            Range(i, BlockStart(ps)) + Repeat(Range(BlockStart(ps), BlockEnd(ps)), r) + Range(BlockEnd(ps), |ps|)
    decreases BlockStart(ps) - i
  {
    hide BlockStart, BlockEnd, Range;
    var b, e := BlockStart(ps), BlockEnd(ps);
    if i < b {
      RestBeforeBlock(ps, i + 1, r);
      assert Range(i, b) == [i] + Range(i + 1, b);
    } else {
      RestAtBlock(ps, r);
    }
  }

  /** Walking the signature with rewinds visits exactly the canonical expansion. */
  lemma WalkIsExpansion(ps: seq<Parameter>, r: nat)
    ensures Rest(ps, 0, r) == Expansion(ps, r)
  {
    RestBeforeBlock(ps, 0, r);
  }

  lemma ExpansionLength(ps: seq<Parameter>, r: nat)
    requires Valid(ps)
    ensures |Expansion(ps, r)| == NumRequired(ps) + r * NumRepeated(ps) + NumOptional(ps)
  {
    hide Valid, BlockStart, BlockEnd, Range, Repeat, NumOptional;
    RepeatLength(Range(BlockStart(ps), BlockEnd(ps)), r);
  }

  /** The optional parameters are the last positions of the expansion, in order. */
  lemma ExpansionTail(ps: seq<Parameter>, r: nat, pos: nat)
    requires Valid(ps) && pos < |Expansion(ps, r)|
    ensures Expansion(ps, r)[pos] < |ps|
    ensures pos >= |Expansion(ps, r)| - NumOptional(ps) ==>
              Expansion(ps, r)[pos] == pos + |ps| - |Expansion(ps, r)|
    ensures ps[Expansion(ps, r)[pos]].card.Optional? <==> pos >= |Expansion(ps, r)| - NumOptional(ps)
  {
    hide Valid, BlockStart, BlockEnd, Range, NumOptional;
    Layout(ps);
    var b, e := BlockStart(ps), BlockEnd(ps);
    var mid := Repeat(Range(b, e), r);
    if b == e {
      RepeatLength(Range(b, e), r);
    } else if b <= pos < b + |mid| {
      RepeatMembers(Range(b, e), r);
      assert Expansion(ps, r)[pos] == mid[pos - b];
      assert mid[pos - b] in Range(b, e);
    }
  }
}
