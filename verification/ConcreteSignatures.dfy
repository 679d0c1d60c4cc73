/** The concrete signature of a call: how often each parameter occurs, with which
    type, and which concrete argument each argument of the call belongs to.
 */
module ConcreteSignatures {
  import opened Types
  import opened Signatures
  import opened ArgumentCount
  import opened ArgumentMapping

  /** A concrete argument. `origin` is the parameter it was made from. */
  datatype Concrete = Concrete(typ: Option<Type>, occurrences: nat, card: Cardinality, origin: nat)

  /** A repeated parameter of arbitrary type makes each repetition an argument of
      its own. */
  predicate HasRepeatedArbitrary(ps: seq<Parameter>) {
    exists i :: 0 <= i < |ps| && ps[i].card.Repeated? && ps[i].kind.Arbitrary?
  }

  /** An argument list that the count check explains by `r` repetitions and `o`
      optional arguments. A default value only stands at the place of a parameter
      that has one. */
  ghost predicate Counted(ps: seq<Parameter>, args: seq<InputArg>, r: nat, o: nat) {
    && Valid(ps) && Solves(ps, |args|, r, o)
    && |args| <= |Expansion(ps, r)| && InRange(ps, Expansion(ps, r))
    && forall k :: 0 <= k < |args| && args[k].isDefault ==> ps[Expansion(ps, r)[k]].default.Some?
  }

  // ----- Specification -----

  predicate Expanded(ps: seq<Parameter>, r: nat) {
    HasRepeatedArbitrary(ps) && r > 0
  }

  /** The parameters in the order of the concrete arguments. */
  ghost function Listing(ps: seq<Parameter>, r: nat): seq<nat> {
    if Expanded(ps, r) then Expansion(ps, r) else Range(0, |ps|)
  }

  /** How often the concrete argument made from parameter `s` occurs. */
  function Occurrences(ps: seq<Parameter>, r: nat, o: nat, s: nat): nat
    requires s < |ps|
  {
    match ps[s].card
    case Required => 1
    case Repeated => if Expanded(ps, r) then 1 else r
    case Optional => if s < |ps| - NumOptional(ps) + o then 1 else 0
  }

  function Times(a: nat, b: nat): nat {
    a * b
  }

  /** The number of arguments before parameter `j` when the block `[b, e)` occurs
      `r` times, not counting beyond the `n` arguments there are. */
  function PlainPosition(b: nat, e: nat, r: nat, n: nat, j: nat): nat
    requires b <= e
  {
    var p := if j <= b then j else if j <= e then b + Times(j - b, r) else j - (e - b) + Times(e - b, r);
    if p <= n then p else n
  }

  /** The first argument of the concrete argument at position `j` of the listing. */
  function Position(ps: seq<Parameter>, r: nat, n: nat, j: nat): nat {
    if Expanded(ps, r) then (if j <= n then j else n)
    else PlainPosition(BlockStart(ps), BlockEnd(ps), r, n, j)
  }

  /** The type of a parameter that is not of arbitrary type. */
  function TypeOf(k: Kind, types: map<Kind, Type>): Option<Type> {
    if k.Fixed? then Some(k.typ) else if k in types then Some(types[k]) else None
  }

  ghost function ConcreteAt(ps: seq<Parameter>, args: seq<InputArg>, types: map<Kind, Type>, r: nat, o: nat,
                            j: nat): Concrete
    requires j < |Listing(ps, r)| && InRange(ps, Listing(ps, r))
  {
    var s := Listing(ps, r)[j];
    var occurrences := Occurrences(ps, r, o, s);
    var p := Position(ps, r, |args|, j);
    var typ := if !ps[s].kind.Arbitrary? then TypeOf(ps[s].kind, types)
               else if occurrences > 0 && p < |args| then Some(args[p].typ)
               else None;
    Concrete(typ, occurrences, ps[s].card, s)
  }

  // ----- Positions -----

  lemma ListingInRange(ps: seq<Parameter>, r: nat)
    requires Valid(ps)
    ensures InRange(ps, Listing(ps, r))
  {
    ExpansionInRange(ps, r);
  }

  lemma Distribute(i: nat, r: nat)
    ensures (i + 1) * r == i * r + r
  {
  }

  /** Passing a concrete argument moves on by its occurrences. */
  lemma PositionStep(ps: seq<Parameter>, args: seq<InputArg>, r: nat, o: nat, j: nat)
    requires Counted(ps, args, r, o) && j < |Listing(ps, r)| && InRange(ps, Listing(ps, r))
    ensures var occ := Occurrences(ps, r, o, Listing(ps, r)[j]);
            && Position(ps, r, |args|, j + 1) == Position(ps, r, |args|, j) + occ
            && (occ > 0 ==> Position(ps, r, |args|, j) < |args|)
  {
    Layout(ps);
    ExpansionLength(ps, r);
    if Expanded(ps, r) {
      ExpansionTail(ps, r, j);
      hide Valid, Expansion, BlockStart, BlockEnd;
      assert |args| == |Expansion(ps, r)| - NumOptional(ps) + o;
    } else {
      PositionStepPlain(ps, |args|, r, o, j);
    }
  }

  lemma PositionStepPlain(ps: seq<Parameter>, n: nat, r: nat, o: nat, j: nat)
    requires Valid(ps) && Solves(ps, n, r, o) && j < |ps| && !Expanded(ps, r)
    ensures var occ := Occurrences(ps, r, o, j);
            && Position(ps, r, n, j + 1) == Position(ps, r, n, j) + occ
            && (occ > 0 ==> Position(ps, r, n, j) < n)
  {
    hide Valid, BlockStart, BlockEnd, NumOptional, Expanded, PlainPosition;
    Layout(ps);
    var b, e := BlockStart(ps), BlockEnd(ps);
    assert r * (e - b) == Times(e - b, r);
    PlainStep(b, e, |ps|, NumOptional(ps), r, o, n, j);
  }

  lemma PlainStep(b: nat, e: nat, size: nat, opt: nat, r: nat, o: nat, n: nat, j: nat)
    requires b <= e <= size && opt <= size && (b < e ==> e <= size - opt) && o <= opt && j < size
    requires n == size - (e - b) - opt + Times(e - b, r) + o
    ensures var occ := if b <= j < e then r else if j < size - opt + o then 1 else 0;
            && PlainPosition(b, e, r, n, j + 1) == PlainPosition(b, e, r, n, j) + occ
            && (occ > 0 ==> PlainPosition(b, e, r, n, j) < n)
  {
    if b <= j < e {
      Distribute(j - b, r);
      MoreRepetitions(r, j + 1 - b, e - b);
    }
    if b == e {
      assert Times(e - b, r) == 0;
    }
    hide Times;
  }

  // ----- Building the list -----

  /** Reports an internal error for a parameter that occurs and has no type. */
  ghost predicate Unresolved(ps: seq<Parameter>, types: map<Kind, Type>, r: nat, o: nat, s: nat) {
    && s < |ps| && Occurrences(ps, r, o, s) > 0
    && !ps[s].kind.Arbitrary? && TypeOf(ps[s].kind, types).None?
  }

  /** The list built so far and, for each argument where a concrete argument
      starts, the index of that concrete argument; -1 for every other argument. */
  ghost predicate Built(ps: seq<Parameter>, args: seq<InputArg>, types: map<Kind, Type>, r: nat, o: nat,
                        list: seq<Concrete>, indices: seq<int>)
    requires InRange(ps, Listing(ps, r))
  {
    && |list| <= |Listing(ps, r)| && |indices| == |args|
    && (forall j :: 0 <= j < |list| ==> list[j] == ConcreteAt(ps, args, types, r, o, j))
    && (forall j :: 0 <= j < |list| ==> !Unresolved(ps, types, r, o, Listing(ps, r)[j]))
    && Starts(ps, r, |args|, list, indices)
    && IndicesBack(ps, r, |args|, |list|, indices)
  }

  /** The index of a concrete argument is recorded at its first argument. */
  ghost predicate Starts(ps: seq<Parameter>, r: nat, n: nat, list: seq<Concrete>, indices: seq<int>) {
    |indices| == n && forall j :: 0 <= j < |list| && list[j].occurrences > 0 ==>
      Position(ps, r, n, j) < n && indices[Position(ps, r, n, j)] == j
  }

  lemma StartsStep(ps: seq<Parameter>, args: seq<InputArg>, r: nat, o: nat, list: seq<Concrete>, indices: seq<int>,
                   c: Concrete)
    requires Counted(ps, args, r, o) && InRange(ps, Listing(ps, r)) && |list| < |Listing(ps, r)|
    requires Starts(ps, r, |args|, list, indices) && c.occurrences == Occurrences(ps, r, o, Listing(ps, r)[|list|])
    requires forall j :: 0 <= j < |list| ==> list[j].occurrences == Occurrences(ps, r, o, Listing(ps, r)[j])
    ensures var p := Position(ps, r, |args|, |list|);
            && (c.occurrences > 0 ==> p < |args|)
            && Starts(ps, r, |args|, list + [c], if c.occurrences > 0 then indices[p := |list|] else indices)
  {
    hide Counted, Position, Occurrences, Listing;
    var p := Position(ps, r, |args|, |list|);
    PositionStep(ps, args, r, o, |list|);
    forall j | 0 <= j < |list| && list[j].occurrences > 0
      ensures Position(ps, r, |args|, j) < p
    {
      PositionStep(ps, args, r, o, j);
      PositionMonotone(ps, args, r, o, j + 1, |list|);
    }
  }

  /** Every recorded index leads back to the argument where it is recorded. */
  ghost predicate IndicesBack(ps: seq<Parameter>, r: nat, n: nat, size: nat, indices: seq<int>) {
    |indices| == n && forall k :: 0 <= k < n ==> indices[k] == -1 || BackAt(ps, r, n, size, indices[k], k)
  }

  ghost predicate BackAt(ps: seq<Parameter>, r: nat, n: nat, size: nat, j: int, k: nat) {
    0 <= j < size && Position(ps, r, n, j) == k
  }

  lemma IndicesBackStep(ps: seq<Parameter>, r: nat, n: nat, size: nat, indices: seq<int>)
    requires IndicesBack(ps, r, n, size, indices)
    ensures IndicesBack(ps, r, n, size + 1, indices)
    ensures Position(ps, r, n, size) < n ==> IndicesBack(ps, r, n, size + 1, indices[Position(ps, r, n, size) := size])
  {
    hide Position;
  }

  lemma {:induction false} PositionMonotone(ps: seq<Parameter>, args: seq<InputArg>, r: nat, o: nat, i: nat, j: nat)
    requires Counted(ps, args, r, o) && i <= j <= |Listing(ps, r)| && InRange(ps, Listing(ps, r))
    ensures Position(ps, r, |args|, i) <= Position(ps, r, |args|, j)
    decreases j - i
  {
    hide Counted, Position, Occurrences;
    if i < j {
      PositionStep(ps, args, r, o, i);
      PositionMonotone(ps, args, r, o, i + 1, j);
    }
  }

  lemma BuiltStep(ps: seq<Parameter>, args: seq<InputArg>, types: map<Kind, Type>, r: nat, o: nat,
                  list: seq<Concrete>, indices: seq<int>)
    requires Counted(ps, args, r, o) && InRange(ps, Listing(ps, r))
    requires Built(ps, args, types, r, o, list, indices) && |list| < |Listing(ps, r)|
    requires !Unresolved(ps, types, r, o, Listing(ps, r)[|list|])
    ensures var c := ConcreteAt(ps, args, types, r, o, |list|);
            var p := Position(ps, r, |args|, |list|);
            && (c.occurrences > 0 ==> p < |args|)
            && Built(ps, args, types, r, o, list + [c], if c.occurrences > 0 then indices[p := |list|] else indices)
            && Position(ps, r, |args|, |list| + 1) == p + c.occurrences
  {
    hide Counted, Position, Occurrences, Unresolved, IndicesBack, Starts, ConcreteAt, Listing;
    var c := ConcreteAt(ps, args, types, r, o, |list|);
    forall j | 0 <= j <= |list|
      ensures ConcreteAt(ps, args, types, r, o, j).occurrences == Occurrences(ps, r, o, Listing(ps, r)[j])
    {
      OccurrencesOf(ps, args, types, r, o, j);
    }
    PositionStep(ps, args, r, o, |list|);
    StartsStep(ps, args, r, o, list, indices, c);
    IndicesBackStep(ps, r, |args|, |list|, indices);
  }

  /** Every parameter is listed. */
  lemma Listed(ps: seq<Parameter>, r: nat, s: nat)
    requires Valid(ps) && s < |ps|
    ensures exists j :: 0 <= j < |Listing(ps, r)| && Listing(ps, r)[j] == s
  {
    hide Valid, BlockStart, BlockEnd, Range, Expanded;
    if Expanded(ps, r) {
      var b, e := BlockStart(ps), BlockEnd(ps);
      assert r > 0 by { ExpandedRepeats(ps, r); }
      var mid := Repeat(Range(b, e), r);
      assert mid == Range(b, e) + Repeat(Range(b, e), r - 1);
      var j := if s < e then s else s - e + b + |mid|;
      assert Listing(ps, r)[j] == s;
    } else {
      assert Listing(ps, r)[s] == s;
    }
  }

  lemma ExpandedRepeats(ps: seq<Parameter>, r: nat)
    requires Expanded(ps, r)
    ensures r > 0
  {
  }

  lemma BuiltResolved(ps: seq<Parameter>, args: seq<InputArg>, types: map<Kind, Type>, r: nat, o: nat,
                      list: seq<Concrete>, indices: seq<int>)
    requires Valid(ps) && InRange(ps, Listing(ps, r))
    requires Built(ps, args, types, r, o, list, indices) && |list| == |Listing(ps, r)|
    ensures !exists s :: Unresolved(ps, types, r, o, s)
  {
    hide Listing, Occurrences;
    forall s: nat
      ensures !Unresolved(ps, types, r, o, s)
    {
      if s < |ps| { Listed(ps, r, s); }
    }
  }

  /** The argument at the position of a concrete argument belongs to the same
      parameter, or both are repeated. */
  lemma PositionPlace(ps: seq<Parameter>, args: seq<InputArg>, r: nat, o: nat, j: nat)
    requires Counted(ps, args, r, o) && j < |Listing(ps, r)| && InRange(ps, Listing(ps, r))
    requires Occurrences(ps, r, o, Listing(ps, r)[j]) > 0
    ensures var p, s := Position(ps, r, |args|, j), Listing(ps, r)[j];
            && p < |args|
            && (Expansion(ps, r)[p] == s || (ps[s].card.Repeated? && ps[Expansion(ps, r)[p]].card.Repeated?))
            && (Expanded(ps, r) || !ps[s].card.Repeated? ==> Expansion(ps, r)[p] == s)
  {
    PositionStep(ps, args, r, o, j);
    if !Expanded(ps, r) {
      PlainPlace(ps, |args|, r, j);
    }
  }

  lemma PlainPlace(ps: seq<Parameter>, n: nat, r: nat, j: nat)
    requires Valid(ps) && j < |ps| && !Expanded(ps, r) && n <= |Expansion(ps, r)| && InRange(ps, Expansion(ps, r))
    requires Position(ps, r, n, j) < n && (ps[j].card.Repeated? ==> r > 0)
    ensures var t := Expansion(ps, r)[Position(ps, r, n, j)];
            if ps[j].card.Repeated? then ps[t].card.Repeated? else t == j
  {
    hide Valid, BlockStart, BlockEnd, Range, Repeat, Expanded, PlainPosition;
    Layout(ps);
    var b, e := BlockStart(ps), BlockEnd(ps);
    var mid := Repeat(Range(b, e), r);
    var p := Position(ps, r, n, j);
    RepeatLength(Range(b, e), r);
    RepeatMembers(Range(b, e), r);
    assert |mid| == Times(e - b, r);
    PlainBounds(b, e, r, n, j);
    if b <= j < e {
      assert Expansion(ps, r)[p] == mid[p - b];
      assert mid[p - b] in Range(b, e);
    }
  }

  /** A position inside the block belongs to a block parameter, and only then. */
  lemma PlainBounds(b: nat, e: nat, r: nat, n: nat, j: nat)
    requires b <= e && PlainPosition(b, e, r, n, j) < n && (b <= j < e ==> r > 0)
    ensures var p := PlainPosition(b, e, r, n, j);
            && (j < b ==> p == j)
            && (b <= j < e ==> b <= p < b + Times(e - b, r))
            && (e <= j ==> p == j - (e - b) + Times(e - b, r))
  {
    if b <= j < e {
      MoreRepetitions(r, j - b, e - b);
      MoreRepetitions(r, j - b, j + 1 - b);
      MoreRepetitions(r, j + 1 - b, e - b);
    }
    if j == b == e {
      assert Times(0, r) == 0;
    }
  }

  /** The optional arguments not yet given to a parameter before `sig`. */
  function OptionalsLeft(ps: seq<Parameter>, o: nat, sig: nat): nat {
    var first := |ps| - NumOptional(ps);
    if sig <= first then o else if sig <= first + o then o - (sig - first) else 0
  }

  /** The parameters still to be listed. */
  ghost function ToList(ps: seq<Parameter>, r: nat, sig: nat, left: nat): seq<nat>
    requires sig <= |ps|
  {
    if Expanded(ps, r) then Rest(ps, sig, left) else Range(sig, |ps|)
  }

  /** Where the loop stands. */
  ghost predicate Standing(ps: seq<Parameter>, r: nat, o: nat, n: nat, j: nat, sig: nat, left: nat, pos: nat,
                           opt: nat) {
    && sig <= |ps| && j <= |Listing(ps, r)|
    && Listing(ps, r)[j..] == ToList(ps, r, sig, left)
    && pos == Position(ps, r, n, j)
    && opt == OptionalsLeft(ps, o, sig)
    && (sig < BlockEnd(ps) ==> left <= r && (Expanded(ps, r) ==> left > 0) && (!Expanded(ps, r) ==> left == r))
    && (sig < BlockStart(ps) ==> left == r)
  }

  lemma StandingHead(ps: seq<Parameter>, r: nat, o: nat, n: nat, j: nat, sig: nat, left: nat, pos: nat, opt: nat)
    requires Valid(ps) && sig < |ps| && Standing(ps, r, o, n, j, sig, left, pos, opt)
    ensures j < |Listing(ps, r)| && Listing(ps, r)[j] == sig
    ensures Occurrences(ps, r, o, sig) ==
            match ps[sig].card
            case Required => 1
            case Repeated => if HasRepeatedArbitrary(ps) && left > 0 then 1 else left
            case Optional => if opt == 0 then 0 else 1
  {
    hide Valid, BlockStart, BlockEnd, NumOptional, Listing, Range;
    Layout(ps);
    assert Listing(ps, r)[j..][0] == sig;
  }

  lemma StandingNext(ps: seq<Parameter>, r: nat, o: nat, n: nat, j: nat, sig: nat, left: nat, pos: nat, opt: nat,
                     sig': nat, left': nat)
    requires Valid(ps) && sig < |ps| && Standing(ps, r, o, n, j, sig, left, pos, opt)
    requires if BlockStart(ps) <= sig == BlockEnd(ps) - 1 then
               && left >= Occurrences(ps, r, o, sig) && left' == left - Occurrences(ps, r, o, sig)
               && sig' == if left' > 0 then BlockStart(ps) else sig + 1
             else left' == left && sig' == sig + 1
    requires Position(ps, r, n, j + 1) == pos + Occurrences(ps, r, o, sig)
    ensures Standing(ps, r, o, n, j + 1, sig', left', pos + Occurrences(ps, r, o, sig),
                     if ps[sig].card.Optional? then OptionalsLeft(ps, o, sig + 1) else opt)
  {
    hide Valid, BlockStart, BlockEnd, Listing, Position, ToList, OptionalsLeft, Occurrences;
    StandingHead(ps, r, o, n, j, sig, left, pos, opt);
    Layout(ps);
    if BlockStart(ps) <= sig == BlockEnd(ps) - 1 {
      NextLeft(ps, r, o, sig, left);
    }
    ToListNext(ps, r, o, sig, left, sig', left');
    assert Listing(ps, r)[j..][1..] == Listing(ps, r)[j + 1..];
    if !ps[sig].card.Optional? {
      OptionalsNext(ps, o, sig);
    }
  }

  lemma OptionalsNext(ps: seq<Parameter>, o: nat, sig: nat)
    requires Valid(ps) && sig < |ps| && !ps[sig].card.Optional?
    ensures OptionalsLeft(ps, o, sig) == OptionalsLeft(ps, o, sig + 1)
    ensures BlockStart(ps) < BlockEnd(ps) ==> OptionalsLeft(ps, o, sig) == OptionalsLeft(ps, o, BlockStart(ps))
  {
    hide Valid, BlockEnd, NumOptional;
    Layout(ps);
  }

  /** In the block a plain listing uses up all repetitions at once, an expanded one
      one at a time. */
  lemma NextLeft(ps: seq<Parameter>, r: nat, o: nat, sig: nat, left: nat)
    requires Valid(ps) && BlockStart(ps) <= sig == BlockEnd(ps) - 1
    requires left <= r && (Expanded(ps, r) ==> left > 0) && (!Expanded(ps, r) ==> left == r)
    ensures Occurrences(ps, r, o, sig) == if Expanded(ps, r) then 1 else left
  {
    Layout(ps);
  }

  lemma ToListNext(ps: seq<Parameter>, r: nat, o: nat, sig: nat, left: nat, sig': nat, left': nat)
    requires Valid(ps) && sig < |ps| && sig' <= |ps|
    requires sig < BlockEnd(ps) ==> left <= r && (Expanded(ps, r) ==> left > 0) && (!Expanded(ps, r) ==> left == r)
    requires if BlockStart(ps) <= sig == BlockEnd(ps) - 1 then
               && left >= Occurrences(ps, r, o, sig) && left' == left - Occurrences(ps, r, o, sig)
               && sig' == if left' > 0 then BlockStart(ps) else sig + 1
             else left' == left && sig' == sig + 1
    ensures ToList(ps, r, sig, left) == [sig] + ToList(ps, r, sig', left')
  {
    hide Valid, BlockStart, BlockEnd, ToList, Occurrences, Expanded;
    ToListStep(ps, r, sig, left);
    if BlockStart(ps) <= sig == BlockEnd(ps) - 1 {
      NextLeft(ps, r, o, sig, left);
      if !Expanded(ps, r) {
        ToListPlain(ps, r, sig + 1, left, left');
      }
    }
  }

  lemma ToListPlain(ps: seq<Parameter>, r: nat, sig: nat, left: nat, left': nat)
    requires sig <= |ps| && !Expanded(ps, r)
    ensures ToList(ps, r, sig, left) == ToList(ps, r, sig, left')
  {
  }

  lemma ToListStep(ps: seq<Parameter>, r: nat, sig: nat, left: nat)
    requires Valid(ps) && sig < |ps|
    requires Expanded(ps, r) && BlockStart(ps) <= sig < BlockEnd(ps) ==> left > 0
    ensures ToList(ps, r, sig, left) ==
            if Expanded(ps, r) && BlockStart(ps) <= sig == BlockEnd(ps) - 1 then
              [sig] + (if left > 1 then ToList(ps, r, BlockStart(ps), left - 1) else ToList(ps, r, sig + 1, left - 1))
            else [sig] + ToList(ps, r, sig + 1, left)
  {
    hide Valid, BlockStart, BlockEnd, Range, Expanded;
    if !Expanded(ps, r) {
      assert Range(sig, |ps|) == [sig] + Range(sig + 1, |ps|);
    }
  }

  /** The state of the loop, and one turn of it. */
  ghost predicate Turn(ps: seq<Parameter>, args: seq<InputArg>, types: map<Kind, Type>, r: nat, o: nat,
                       list: seq<Concrete>, indices: seq<int>, sig: nat, left: nat, pos: nat, opt: nat) {
    && Counted(ps, args, r, o) && InRange(ps, Listing(ps, r))
    && Built(ps, args, types, r, o, list, indices)
    && Standing(ps, r, o, |args|, |list|, sig, left, pos, opt)
  }

  /** What one turn looks at: the occurrences, the concrete argument, and that the
      default value check holds. */
  lemma TurnHead(ps: seq<Parameter>, args: seq<InputArg>, types: map<Kind, Type>, r: nat, o: nat,
                 list: seq<Concrete>, indices: seq<int>, sig: nat, left: nat, pos: nat, opt: nat)
    requires Turn(ps, args, types, r, o, list, indices, sig, left, pos, opt) && sig < |ps|
    ensures |list| < |Listing(ps, r)| && Listing(ps, r)[|list|] == sig
    ensures Occurrences(ps, r, o, sig) ==
            match ps[sig].card
            case Required => 1
            case Repeated => if HasRepeatedArbitrary(ps) && left > 0 then 1 else left
            case Optional => if opt == 0 then 0 else 1
    ensures Occurrences(ps, r, o, sig) > 0 ==>
              pos < |args| && (args[pos].isDefault ==> ps[sig].default.Some?)
    ensures sig == BlockEnd(ps) - 1 && BlockStart(ps) <= sig ==> Occurrences(ps, r, o, sig) <= left
    ensures ps[sig].card.Optional? ==> OptionalsLeft(ps, o, sig + 1) == opt - Occurrences(ps, r, o, sig)
    ensures |indices| == |args|
    ensures ConcreteAt(ps, args, types, r, o, |list|) ==
            Concrete(if !ps[sig].kind.Arbitrary? then TypeOf(ps[sig].kind, types)
                     else if Occurrences(ps, r, o, sig) > 0 then Some(args[pos].typ) else None,
                     Occurrences(ps, r, o, sig), ps[sig].card, sig)
  {
    hide Listing, Valid, Occurrences, Expansion;
    StandingHead(ps, r, o, |args|, |list|, sig, left, pos, opt);
    Layout(ps);
    if Occurrences(ps, r, o, sig) > 0 {
      PositionPlace(ps, args, r, o, |list|);
      NoRepeatedDefault(ps);
    }
  }

  lemma NoRepeatedDefault(ps: seq<Parameter>)
    requires Valid(ps)
    ensures forall s :: 0 <= s < |ps| && ps[s].card.Repeated? ==> ps[s].default.None?
  {
  }

  lemma TurnNext(ps: seq<Parameter>, args: seq<InputArg>, types: map<Kind, Type>, r: nat, o: nat,
                 list: seq<Concrete>, indices: seq<int>, sig: nat, left: nat, pos: nat, opt: nat, sig': nat, left': nat)
    requires Turn(ps, args, types, r, o, list, indices, sig, left, pos, opt) && sig < |ps|
    requires !Unresolved(ps, types, r, o, sig)
    requires if BlockStart(ps) <= sig == BlockEnd(ps) - 1 then
               && left >= Occurrences(ps, r, o, sig) && left' == left - Occurrences(ps, r, o, sig)
               && sig' == if left' > 0 then BlockStart(ps) else sig + 1
             else left' == left && sig' == sig + 1
    ensures InRange(ps, Listing(ps, r)) && |list| < |Listing(ps, r)|
    ensures var c := ConcreteAt(ps, args, types, r, o, |list|);
            && (c.occurrences > 0 ==> pos < |indices|)
            && Turn(ps, args, types, r, o, list + [c], if c.occurrences > 0 then indices[pos := |list|] else indices,
                    sig', left', pos + c.occurrences,
                    if ps[sig].card.Optional? then OptionalsLeft(ps, o, sig + 1) else opt)
  {
    hide Listing, Valid, Occurrences, Expansion, Built, BlockStart, BlockEnd, OptionalsLeft;
    TurnHead(ps, args, types, r, o, list, indices, sig, left, pos, opt);
    BuiltStep(ps, args, types, r, o, list, indices);
    BuiltLength(ps, args, types, r, o, list, indices);
    StandingNext(ps, r, o, |args|, |list|, sig, left, pos, opt, sig', left');
  }

  lemma BuiltLength(ps: seq<Parameter>, args: seq<InputArg>, types: map<Kind, Type>, r: nat, o: nat,
                    list: seq<Concrete>, indices: seq<int>)
    requires InRange(ps, Listing(ps, r)) && Built(ps, args, types, r, o, list, indices)
    ensures |indices| == |args|
  {
  }

  lemma UnresolvedIff(ps: seq<Parameter>, types: map<Kind, Type>, r: nat, o: nat, s: nat)
    requires s < |ps|
    ensures Unresolved(ps, types, r, o, s) <==>
            Occurrences(ps, r, o, s) > 0 && !ps[s].kind.Arbitrary? && TypeOf(ps[s].kind, types).None?
  {
  }

  lemma TurnInit(ps: seq<Parameter>, args: seq<InputArg>, types: map<Kind, Type>, r: nat, o: nat)
    requires Counted(ps, args, r, o)
    ensures Turn(ps, args, types, r, o, [], seq(|args|, _ => -1), 0, r, 0, o)
  {
    ListingInRange(ps, r);
    WalkIsExpansion(ps, r);
    assert Listing(ps, r)[0..] == Listing(ps, r);
  }

  lemma TurnDone(ps: seq<Parameter>, args: seq<InputArg>, types: map<Kind, Type>, r: nat, o: nat,
                 list: seq<Concrete>, indices: seq<int>, sig: nat, left: nat, pos: nat, opt: nat)
    requires Turn(ps, args, types, r, o, list, indices, sig, left, pos, opt) && sig == |ps|
    ensures InRange(ps, Listing(ps, r)) && |list| == |Listing(ps, r)| && opt == 0
    ensures Built(ps, args, types, r, o, list, indices)
    ensures !exists s :: Unresolved(ps, types, r, o, s)
  {
    hide Listing, Occurrences, Expansion, Unresolved;
    assert Listing(ps, r)[|list|..] == [];
    BuiltResolved(ps, args, types, r, o, list, indices);
  }

  /** The general loop. */
  method GetConcreteArgumentsGeneral(ps: seq<Parameter>, args: seq<InputArg>, types: map<Kind, Type>,
                                     repetitions: nat, optionals: nat)
      returns (internalError: bool, list: seq<Concrete>, indices: seq<int>)
    requires Counted(ps, args, repetitions, optionals)
    ensures InRange(ps, Listing(ps, repetitions))
    ensures internalError <==> exists s :: Unresolved(ps, types, repetitions, optionals, s)
    ensures !internalError ==>
              && |list| == |Listing(ps, repetitions)|
              && Built(ps, args, types, repetitions, optionals, list, indices)
  {
    hide Turn, Counted, Built, Listing, Unresolved, OptionalsLeft, Occurrences, ConcreteAt;
    indices := seq(|args|, _ => -1);
    list := [];
    TurnInit(ps, args, types, repetitions, optionals);
    var expanded := HasRepeatedArbitrary(ps);
    var sig: nat, left: nat, pos: nat, opt: nat := 0, repetitions, 0, optionals;
    while sig < |ps|
      invariant sig <= |ps|
      invariant Turn(ps, args, types, repetitions, optionals, list, indices, sig, left, pos, opt)
      decreases left, |ps| - sig
    {
      TurnHead(ps, args, types, repetitions, optionals, list, indices, sig, left, pos, opt);
      UnresolvedIff(ps, types, repetitions, optionals, sig);
      var occurrences := 1;
      if ps[sig].card.Repeated? {
        occurrences := if expanded && left > 0 then 1 else left;
      } else if ps[sig].card.Optional? && opt == 0 {
        occurrences := 0;
      }
      var typ := if ps[sig].kind.Arbitrary? then (if occurrences > 0 then Some(args[pos].typ) else None)
                 else TypeOf(ps[sig].kind, types);
      if occurrences > 0 && typ.None? {
        return true, list, indices;
      }
      ghost var before := (list, indices, sig, left, pos, opt);
      if occurrences > 0 {
        indices := indices[pos := |list|];
      }
      list := list + [Concrete(typ, occurrences, ps[sig].card, sig)];
      opt := if ps[sig].card.Optional? then opt - occurrences else opt;
      pos := pos + occurrences;
      if BlockStart(ps) <= sig == BlockEnd(ps) - 1 {
        left := left - occurrences;
        sig := if left > 0 then BlockStart(ps) else sig + 1;
      } else {
        sig := sig + 1;
      }
      TurnNext(ps, args, types, repetitions, optionals, before.0, before.1, before.2, before.3, before.4, before.5,
               sig, left);
    }
    TurnDone(ps, args, types, repetitions, optionals, list, indices, sig, left, pos, opt);
    internalError := false;
  }

  /** The loop for signatures without optional and repeated parameters, whose
      parameters correspond to the arguments one to one. */
  method GetConcreteArgumentsFast(ps: seq<Parameter>, args: seq<InputArg>, types: map<Kind, Type>, ghost r: nat,
                                  ghost o: nat)
      returns (internalError: bool, list: seq<Concrete>, indices: seq<int>)
    requires Counted(ps, args, r, o) && NumOptional(ps) == 0 && NumRepeated(ps) == 0
    ensures InRange(ps, Listing(ps, r))
    ensures internalError <==> exists s :: Unresolved(ps, types, r, o, s)
    ensures !internalError ==> |list| == |Listing(ps, r)| && Built(ps, args, types, r, o, list, indices)
  {
    hide Counted, Built, Unresolved, ConcreteAt, Listing;
    FastCounts(ps, args, r, o);
    ListingInRange(ps, r);
    indices := seq(|args|, _ => -1);
    list := [];
    BuiltEmpty(ps, args, types, r, o);
    for i := 0 to |ps|
      invariant |list| == i && |indices| == |args| && Built(ps, args, types, r, o, list, indices)
    {
      UnresolvedIff(ps, types, r, o, i);
      FastAt(ps, args, types, r, o, i);
      var typ := if ps[i].kind.Arbitrary? then Some(args[i].typ) else TypeOf(ps[i].kind, types);
      if typ.None? {
        return true, list, indices;
      }
      BuiltStep(ps, args, types, r, o, list, indices);
      list := list + [Concrete(typ, 1, ps[i].card, i)];
      indices := indices[i := i];
    }
    BuiltResolved(ps, args, types, r, o, list, indices);
    internalError := false;
  }

  lemma FastCounts(ps: seq<Parameter>, args: seq<InputArg>, r: nat, o: nat)
    requires Counted(ps, args, r, o) && NumOptional(ps) == 0 && NumRepeated(ps) == 0
    ensures Valid(ps) && |args| == |ps| == |Listing(ps, r)|
  {
    ExpansionLength(ps, r);
  }

  lemma BuiltEmpty(ps: seq<Parameter>, args: seq<InputArg>, types: map<Kind, Type>, r: nat, o: nat)
    requires InRange(ps, Listing(ps, r))
    ensures Built(ps, args, types, r, o, [], seq(|args|, _ => -1))
  {
  }

  lemma FastAt(ps: seq<Parameter>, args: seq<InputArg>, types: map<Kind, Type>, r: nat, o: nat, i: nat)
    requires Counted(ps, args, r, o) && NumOptional(ps) == 0 && NumRepeated(ps) == 0
    requires i < |ps| == |args| == |Listing(ps, r)| && InRange(ps, Listing(ps, r))
    ensures Listing(ps, r)[i] == i && Occurrences(ps, r, o, i) == 1 && Position(ps, r, |args|, i) == i
    ensures ConcreteAt(ps, args, types, r, o, i) ==
            Concrete(if ps[i].kind.Arbitrary? then Some(args[i].typ) else TypeOf(ps[i].kind, types), 1, ps[i].card, i)
  {
    Layout(ps);
  }

  /** Builds the concrete arguments. An internal error means that a parameter that
      occurs has no type; the sanity checks on the way hold. */
  method GetConcreteArguments(ps: seq<Parameter>, args: seq<InputArg>, types: map<Kind, Type>, repetitions: nat,
                              optionals: nat)
      returns (internalError: bool, list: seq<Concrete>, indices: seq<int>)
    requires Counted(ps, args, repetitions, optionals)
    ensures InRange(ps, Listing(ps, repetitions))
    ensures internalError <==> exists s :: Unresolved(ps, types, repetitions, optionals, s)
    ensures !internalError ==>
              && |list| == |Listing(ps, repetitions)|
              && Built(ps, args, types, repetitions, optionals, list, indices)
  {
    hide Counted, Built, Listing, Unresolved;
    if NumOptional(ps) == 0 && NumRepeated(ps) == 0 {
      internalError, list, indices := GetConcreteArgumentsFast(ps, args, types, repetitions, optionals);
    } else {
      internalError, list, indices := GetConcreteArgumentsGeneral(ps, args, types, repetitions, optionals);
    }
  }

  /** The fast path gives what the general path gives: without optional and repeated
      parameters there is only one answer. */
  lemma FastEqualsGeneral(ps: seq<Parameter>, args: seq<InputArg>, types: map<Kind, Type>, r: nat, o: nat,
                          list: seq<Concrete>, indices: seq<int>, list': seq<Concrete>, indices': seq<int>)
    requires Counted(ps, args, r, o) && NumOptional(ps) == 0 && NumRepeated(ps) == 0 && InRange(ps, Listing(ps, r))
    requires |list| == |Listing(ps, r)| && Built(ps, args, types, r, o, list, indices)
    requires |list'| == |Listing(ps, r)| && Built(ps, args, types, r, o, list', indices')
    ensures list == list' && indices == indices'
  {
    hide Counted, ConcreteAt, Listing, Unresolved, Position, Occurrences, IndicesBack;
    FastCounts(ps, args, r, o);
    forall i | 0 <= i < |ps|
      ensures list[i] == list'[i] && indices[i] == indices'[i]
    {
      FastAt(ps, args, types, r, o, i);
      assert list[i] == ConcreteAt(ps, args, types, r, o, i) == list'[i];
    }
  }

  // ----- The concrete argument of each argument -----

  /** The concrete arguments that occur once. */
  function Present(list: seq<Concrete>): seq<Concrete> {
    if list == [] then []
    else (if list[0].occurrences == 1 then [list[0]] else []) + Present(list[1..])
  }

  /** The concrete arguments as a signature of their own. */
  function AsParameters(list: seq<Concrete>): (ps: seq<Parameter>)
    ensures |ps| == |list| && forall i :: 0 <= i < |list| ==> ps[i].card == list[i].card
  {
    seq(|list|, i requires 0 <= i < |list| => Parameter(list[i].card, Arbitrary, "", PositionalOnly, None))
  }

  function FirstRepeatedIn(list: seq<Concrete>): (i: int)
    ensures -1 <= i < |list|
    ensures i == -1 <==> forall j :: 0 <= j < |list| ==> !list[j].card.Repeated?
    ensures i >= 0 ==> list[i].card.Repeated? && forall j :: 0 <= j < i ==> !list[j].card.Repeated?
  {
    FirstRepeated(AsParameters(list))
  }

  function LastRepeatedIn(list: seq<Concrete>): (i: int)
    ensures -1 <= i < |list|
    ensures i == -1 <==> forall j :: 0 <= j < |list| ==> !list[j].card.Repeated?
    ensures i >= 0 ==> list[i].card.Repeated? && forall j :: i < j < |list| ==> !list[j].card.Repeated?
  {
    LastRepeated(AsParameters(list))
  }

  /** The concrete argument of each argument in turn: the block of repeated ones as
      often as its first occurs, every other one if it occurs. */
  function ConcreteArguments(list: seq<Concrete>): seq<Concrete> {
    var f, l := FirstRepeatedIn(list), LastRepeatedIn(list);
    if f == -1 then Present(list)
    else
      assert f <= l;
      Present(list[..f]) + Repeat(list[f..l + 1], list[f].occurrences) + Present(list[l + 1..])
  }

  lemma {:induction false} PresentPrefix(list: seq<Concrete>, h: nat)
    requires h <= |list|
    requires forall i :: 0 <= i < |list| ==> (list[i].occurrences == 1 <==> i < h)
    ensures Present(list) == list[..h]
    decreases |list|
  {
    if list != [] {
      var rest := list[1..];
      assert forall i :: 0 <= i < |rest| ==> rest[i] == list[i + 1];
      PresentPrefix(rest, if h == 0 then 0 else h - 1);
    }
  }

  lemma {:induction false} RepeatPointwise(s: seq<Concrete>, t: seq<nat>, n: nat)
    requires |s| == |t| && forall i :: 0 <= i < |s| ==> s[i].origin == t[i]
    ensures |Repeat(s, n)| == |Repeat(t, n)|
    ensures forall k :: 0 <= k < |Repeat(s, n)| ==> Repeat(s, n)[k].origin == Repeat(t, n)[k] && Repeat(s, n)[k] in s
    decreases n
  {
    if n > 0 {
      RepeatPointwise(s, t, n - 1);
    }
  }

  /** The type of the `k`-th argument's parameter: for an arbitrary parameter the
      type of that very argument. */
  ghost function PlaceType(ps: seq<Parameter>, args: seq<InputArg>, types: map<Kind, Type>, r: nat,
                           k: nat): Option<Type>
    requires k < |args| <= |Expansion(ps, r)| && InRange(ps, Expansion(ps, r))
  {
    var kind := ps[Expansion(ps, r)[k]].kind;
    if kind.Arbitrary? then Some(args[k].typ) else TypeOf(kind, types)
  }

  /** The concrete arguments `flat` are, one by one, those of the arguments. */
  ghost predicate Agrees(ps: seq<Parameter>, args: seq<InputArg>, types: map<Kind, Type>, r: nat, flat: seq<Concrete>)
    requires |args| <= |Expansion(ps, r)| && InRange(ps, Expansion(ps, r))
  {
    && |flat| == |args|
    && forall k :: 0 <= k < |args| ==>
         flat[k].origin == Expansion(ps, r)[k] && flat[k].typ == PlaceType(ps, args, types, r, k)
  }

  ghost predicate Complete(ps: seq<Parameter>, args: seq<InputArg>, types: map<Kind, Type>, r: nat, o: nat,
                           list: seq<Concrete>)
    requires InRange(ps, Listing(ps, r))
  {
    && |list| == |Listing(ps, r)|
    && forall j :: 0 <= j < |list| ==> list[j] == ConcreteAt(ps, args, types, r, o, j)
  }

  /** A concrete argument that is the only one for its argument. */
  lemma SingleType(ps: seq<Parameter>, args: seq<InputArg>, types: map<Kind, Type>, r: nat, o: nat, j: nat)
    requires Counted(ps, args, r, o) && InRange(ps, Listing(ps, r)) && j < |Listing(ps, r)|
    requires Occurrences(ps, r, o, Listing(ps, r)[j]) > 0
    requires Expanded(ps, r) || !ps[Listing(ps, r)[j]].card.Repeated?
    ensures var c, k := ConcreteAt(ps, args, types, r, o, j), Position(ps, r, |args|, j);
            k < |args| && c.origin == Expansion(ps, r)[k] && c.typ == PlaceType(ps, args, types, r, k)
  {
    hide Listing, Expansion, Occurrences, Position, Valid;
    PositionPlace(ps, args, r, o, j);
  }

  lemma FlatExpanded(ps: seq<Parameter>, args: seq<InputArg>, types: map<Kind, Type>, r: nat, o: nat,
                     list: seq<Concrete>)
    requires Counted(ps, args, r, o) && InRange(ps, Listing(ps, r)) && Complete(ps, args, types, r, o, list)
    requires Expanded(ps, r)
    ensures ConcreteArguments(list) == list[..|args|]
  {
    hide Occurrences, Expansion, BlockStart, BlockEnd, ConcreteArguments, Valid, Expanded, ConcreteAt;
    ExpandedShape(ps, r);
    forall j | 0 <= j < |list|
      ensures list[j].occurrences == (if j < |args| then 1 else 0)
      ensures list[j].card.Repeated? <==> BlockStart(ps) <= j < BlockStart(ps) + r * (BlockEnd(ps) - BlockStart(ps))
    {
      ExpandedAt(ps, args, types, r, o, j);
    }
    ExpansionLength(ps, r);
    FlatList(list, BlockStart(ps), BlockStart(ps) + r * (BlockEnd(ps) - BlockStart(ps)), |args|);
  }

  lemma ExpandedAt(ps: seq<Parameter>, args: seq<InputArg>, types: map<Kind, Type>, r: nat, o: nat, j: nat)
    requires Counted(ps, args, r, o) && Expanded(ps, r) && InRange(ps, Listing(ps, r)) && j < |Listing(ps, r)|
    ensures Listing(ps, r) == Expansion(ps, r)
    ensures var c := ConcreteAt(ps, args, types, r, o, j);
            c.occurrences == (if j < |args| then 1 else 0) && c.card == ps[Expansion(ps, r)[j]].card
  {
    hide Expansion, BlockStart, BlockEnd;
    ExpansionLength(ps, r);
    ExpansionTail(ps, r, j);
    Layout(ps);
  }

  lemma FlatList(list: seq<Concrete>, b: nat, end: nat, n: nat)
    requires b < end <= n <= |list|
    requires forall j :: 0 <= j < |list| ==> list[j].occurrences == (if j < n then 1 else 0)
    requires forall j :: 0 <= j < |list| ==> (list[j].card.Repeated? <==> b <= j < end)
    ensures ConcreteArguments(list) == list[..n]
  {
    hide Repeat, Present, FirstRepeatedIn, LastRepeatedIn;
    BlockIn(list, b, end);
    PresentSlice(list, 0, b, b);
    PresentSlice(list, end, |list|, n);
    RepeatOnce(list[b..end]);
    ThreeParts(list, b, end, n);
  }

  lemma PresentSlice(list: seq<Concrete>, lo: nat, hi: nat, h: nat)
    requires lo <= h <= hi <= |list|
    requires forall i :: lo <= i < hi ==> (list[i].occurrences == 1 <==> i < h)
    ensures Present(list[lo..hi]) == list[lo..h]
  {
    hide Present;
    var part := list[lo..hi];
    assert forall i :: 0 <= i < |part| ==> part[i] == list[lo + i];
    PresentPrefix(part, h - lo);
    assert part[..h - lo] == list[lo..h];
  }

  lemma ThreeParts(list: seq<Concrete>, b: nat, end: nat, n: nat)
    requires b <= end <= n <= |list|
    ensures list[0..b] == list[..b] && list[end..|list|] == list[end..]
    ensures list[..b] + list[b..end] + list[end..n] == list[..n]
  {
  }

  lemma BlockIn(list: seq<Concrete>, b: nat, end: nat)
    requires b < end <= |list|
    requires forall j :: 0 <= j < |list| ==> (list[j].card.Repeated? <==> b <= j < end)
    ensures FirstRepeatedIn(list) == b && LastRepeatedIn(list) == end - 1
  {
    hide FirstRepeatedIn, LastRepeatedIn;
    assert list[b].card.Repeated? && list[end - 1].card.Repeated?;
  }

  lemma RepeatOnce(s: seq<Concrete>)
    ensures Repeat(s, 1) == s
  {
    assert Repeat(s, 1) == s + Repeat(s, 0);
  }

  /** The block of an expanded listing. */
  lemma ExpandedShape(ps: seq<Parameter>, r: nat)
    requires Valid(ps) && Expanded(ps, r) && InRange(ps, Expansion(ps, r))
    ensures BlockStart(ps) < BlockEnd(ps) && r * (BlockEnd(ps) - BlockStart(ps)) > 0
    ensures BlockStart(ps) + r * (BlockEnd(ps) - BlockStart(ps)) <= |Expansion(ps, r)| - NumOptional(ps)
    ensures forall j :: 0 <= j < |Expansion(ps, r)| ==>
              (ps[Expansion(ps, r)[j]].card.Repeated? <==>
               BlockStart(ps) <= j < BlockStart(ps) + r * (BlockEnd(ps) - BlockStart(ps)))
  {
    hide Valid, BlockStart, BlockEnd, Range, Repeat;
    Layout(ps);
    var b, e := BlockStart(ps), BlockEnd(ps);
    var mid := Repeat(Range(b, e), r);
    RepeatLength(Range(b, e), r);
    RepeatMembers(Range(b, e), r);
    MoreRepetitions(e - b, 1, r);
    forall j | 0 <= j < |Expansion(ps, r)|
      ensures ps[Expansion(ps, r)[j]].card.Repeated? <==> b <= j < b + |mid|
    {
      if b <= j < b + |mid| {
        assert Expansion(ps, r)[j] == mid[j - b];
        assert mid[j - b] in Range(b, e);
      }
    }
  }

  lemma FlatPlain(list: seq<Concrete>, b: nat, e: nat, h: nat, r: nat)
    requires b < e <= h <= |list|
    requires forall j :: 0 <= j < |list| && !(b <= j < e) ==> list[j].occurrences == (if j < h then 1 else 0)
    requires forall j :: b <= j < e ==> list[j].occurrences == r
    requires forall j :: 0 <= j < |list| ==> (list[j].card.Repeated? <==> b <= j < e)
    ensures ConcreteArguments(list) == list[..b] + Repeat(list[b..e], r) + list[e..h]
  {
    hide Repeat, Present, FirstRepeatedIn, LastRepeatedIn;
    BlockIn(list, b, e);
    PresentPrefix(list[..b], b);
    PresentPrefix(list[e..], h - e);
    assert list[e..][..h - e] == list[e..h];
  }

  lemma FlatSingle(list: seq<Concrete>, h: nat)
    requires h <= |list|
    requires forall j :: 0 <= j < |list| ==> list[j].occurrences == (if j < h then 1 else 0)
    requires forall j :: 0 <= j < |list| ==> !list[j].card.Repeated?
    ensures ConcreteArguments(list) == list[..h]
  {
    hide Present;
    PresentPrefix(list, h);
  }

  /** What the plain listing says about each parameter. */
  lemma PlainAt(ps: seq<Parameter>, args: seq<InputArg>, types: map<Kind, Type>, r: nat, o: nat, j: nat)
    requires Counted(ps, args, r, o) && !Expanded(ps, r) && InRange(ps, Listing(ps, r)) && j < |ps|
    ensures |Listing(ps, r)| == |ps| && Listing(ps, r)[j] == j
    ensures var c := ConcreteAt(ps, args, types, r, o, j);
            && c.origin == j && c.card == ps[j].card
            && c.occurrences == (if BlockStart(ps) <= j < BlockEnd(ps) then r
                                 else if j < |ps| - NumOptional(ps) + o then 1 else 0)
            && (c.card.Repeated? <==> BlockStart(ps) <= j < BlockEnd(ps))
            && (c.card.Repeated? && r > 0 ==> !ps[j].kind.Arbitrary? && c.typ == TypeOf(ps[j].kind, types))
  {
    hide BlockStart, BlockEnd, Valid, Expansion;
    Layout(ps);
  }

  /** The `k`-th argument of a call, when repetitions share their concrete argument. */
  lemma AgreesPlain(ps: seq<Parameter>, args: seq<InputArg>, types: map<Kind, Type>, r: nat, o: nat,
                    list: seq<Concrete>, flat: seq<Concrete>, k: nat)
    requires Counted(ps, args, r, o) && InRange(ps, Listing(ps, r)) && Complete(ps, args, types, r, o, list)
    requires !Expanded(ps, r) && BlockStart(ps) < BlockEnd(ps) <= |ps| - NumOptional(ps) + o <= |list|
    requires flat == list[..BlockStart(ps)] + Repeat(list[BlockStart(ps)..BlockEnd(ps)], r)
                   + list[BlockEnd(ps)..|ps| - NumOptional(ps) + o]
    requires k < |args| == |flat| && |list| == |ps|
    ensures flat[k].origin == Expansion(ps, r)[k] && flat[k].typ == PlaceType(ps, args, types, r, k)
  {
    hide BlockStart, BlockEnd, Valid, Range, Repeat, Occurrences, ConcreteAt, Expanded, Listing, Expansion, Position;
    PlainAt(ps, args, types, r, o, 0);
    var b, e := BlockStart(ps), BlockEnd(ps);
    RepeatLength(list[b..e], r);
    var block := r * (e - b);
    if b <= k < b + block {
      assert flat[k] == Repeat(list[b..e], r)[k - b];
      AgreesBlock(ps, args, types, r, o, list, k);
    } else {
      var j := if k < b then k else k - block + (e - b);
      assert flat[k] == list[j];
      AgreesOutside(ps, args, types, r, o, j, k);
    }
  }

  lemma AgreesBlock(ps: seq<Parameter>, args: seq<InputArg>, types: map<Kind, Type>, r: nat, o: nat,
                    list: seq<Concrete>, k: nat)
    requires Counted(ps, args, r, o) && InRange(ps, Listing(ps, r)) && Complete(ps, args, types, r, o, list)
    requires !Expanded(ps, r) && BlockStart(ps) < BlockEnd(ps) <= |list| == |ps|
    requires BlockStart(ps) <= k < |args| && k - BlockStart(ps) < |Repeat(list[BlockStart(ps)..BlockEnd(ps)], r)|
    ensures var c := Repeat(list[BlockStart(ps)..BlockEnd(ps)], r)[k - BlockStart(ps)];
            c.origin == Expansion(ps, r)[k] && c.typ == PlaceType(ps, args, types, r, k)
  {
    hide BlockStart, BlockEnd, Valid, Range, Repeat, Occurrences, ConcreteAt, Expanded, Listing;
    var b, e := BlockStart(ps), BlockEnd(ps);
    forall i | b <= i < e
      ensures list[i].origin == i
    {
      PlainAt(ps, args, types, r, o, i);
    }
    RepeatPointwise(list[b..e], Range(b, e), r);
    var c := Repeat(list[b..e], r)[k - b];
    assert Expansion(ps, r)[k] == Repeat(Range(b, e), r)[k - b];
    var i :| 0 <= i < |list[b..e]| && list[b..e][i] == c;
    PlainAt(ps, args, types, r, o, b + i);
    NonEmptyRepeat(list[b..e], r);
  }

  lemma AgreesOutside(ps: seq<Parameter>, args: seq<InputArg>, types: map<Kind, Type>, r: nat, o: nat, j: nat, k: nat)
    requires Counted(ps, args, r, o) && InRange(ps, Listing(ps, r)) && j < |Listing(ps, r)| == |ps| && k < |args|
    requires !Expanded(ps, r) && j < |ps| - NumOptional(ps) + o
    requires if j < BlockStart(ps) then k == j
             else BlockEnd(ps) <= j && k == j - NumRepeated(ps) + r * NumRepeated(ps)
    ensures var c := ConcreteAt(ps, args, types, r, o, j);
            c.origin == Expansion(ps, r)[k] && c.typ == PlaceType(ps, args, types, r, k)
  {
    hide BlockStart, BlockEnd, Valid, Expansion, ConcreteAt, Expanded, Listing, Position, Occurrences, PlaceType,
         NumOptional;
    PlainAt(ps, args, types, r, o, j);
    OccurrencesOf(ps, args, types, r, o, j);
    SingleType(ps, args, types, r, o, j);
    PositionOutside(ps, |args|, r, o, j, k);
  }

  lemma PositionOutside(ps: seq<Parameter>, n: nat, r: nat, o: nat, j: nat, k: nat)
    requires Valid(ps) && Solves(ps, n, r, o) && !Expanded(ps, r) && j < |ps| && k < n
    requires if j < BlockStart(ps) then k == j
             else BlockEnd(ps) <= j && k == j - NumRepeated(ps) + r * NumRepeated(ps)
    ensures Position(ps, r, n, j) == k
  {
    hide BlockStart, BlockEnd, Valid, NumOptional, Expanded;
    var b, e := BlockStart(ps), BlockEnd(ps);
    assert Times(e - b, r) == r * (e - b);
    if b == e {
      assert Times(e - b, r) == 0;
    }
    if j == b {
      assert Times(j - b, r) == 0;
    }
  }

  lemma NonEmptyRepeat(s: seq<Concrete>, r: nat)
    requires Repeat(s, r) != []
    ensures r > 0
  {
  }

  /** One expansion for all walks: taking the concrete arguments in turn, the `k`-th
      was made from the parameter at the `k`-th place of the expansion, with the
      type that place asks for. */
  lemma ConcreteFollowsExpansion(ps: seq<Parameter>, args: seq<InputArg>, types: map<Kind, Type>, r: nat, o: nat,
                                 list: seq<Concrete>)
    requires Counted(ps, args, r, o) && InRange(ps, Listing(ps, r)) && Complete(ps, args, types, r, o, list)
    ensures Agrees(ps, args, types, r, ConcreteArguments(list))
  {
    var flat := ConcreteArguments(list);
    if Expanded(ps, r) {
      AgreesExpanded(ps, args, types, r, o, list);
    } else {
      PlainFlat(ps, args, types, r, o, list);
    }
  }

  lemma AgreesExpanded(ps: seq<Parameter>, args: seq<InputArg>, types: map<Kind, Type>, r: nat, o: nat,
                       list: seq<Concrete>)
    requires Counted(ps, args, r, o) && InRange(ps, Listing(ps, r))
    requires Complete(ps, args, types, r, o, list) && Expanded(ps, r)
    ensures Agrees(ps, args, types, r, ConcreteArguments(list))
  {
    hide ConcreteArguments, Expansion, Occurrences, ConcreteAt, Valid;
    FlatExpanded(ps, args, types, r, o, list);
    forall k | 0 <= k < |args|
      ensures list[k].origin == Expansion(ps, r)[k] && list[k].typ == PlaceType(ps, args, types, r, k)
    {
      ExpandedAt(ps, args, types, r, o, k);
      OccurrencesOf(ps, args, types, r, o, k);
      SingleType(ps, args, types, r, o, k);
    }
  }

  lemma OccurrencesOf(ps: seq<Parameter>, args: seq<InputArg>, types: map<Kind, Type>, r: nat, o: nat, j: nat)
    requires j < |Listing(ps, r)| && InRange(ps, Listing(ps, r))
    ensures ConcreteAt(ps, args, types, r, o, j).occurrences == Occurrences(ps, r, o, Listing(ps, r)[j])
  {
  }

  lemma PlainFlat(ps: seq<Parameter>, args: seq<InputArg>, types: map<Kind, Type>, r: nat, o: nat, list: seq<Concrete>)
    requires Counted(ps, args, r, o) && InRange(ps, Listing(ps, r))
    requires Complete(ps, args, types, r, o, list) && !Expanded(ps, r)
    ensures Agrees(ps, args, types, r, ConcreteArguments(list))
  {
    hide ConcreteArguments, Expansion, Occurrences, ConcreteAt, Valid, BlockStart, BlockEnd, Expanded;
    Layout(ps);
    var b, e, h := BlockStart(ps), BlockEnd(ps), |ps| - NumOptional(ps) + o;
    var flat := ConcreteArguments(list);
    assert |list| == |ps|;
    forall j | 0 <= j < |list|
      ensures list[j].occurrences == (if b <= j < e then r else if j < h then 1 else 0)
      ensures list[j].card.Repeated? <==> b <= j < e
    {
      PlainAt(ps, args, types, r, o, j);
    }
    if b < e {
      FlatPlain(list, b, e, h, r);
      RepeatLength(list[b..e], r);
      forall k | 0 <= k < |args|
        ensures flat[k].origin == Expansion(ps, r)[k] && flat[k].typ == PlaceType(ps, args, types, r, k)
      {
        AgreesPlain(ps, args, types, r, o, list, flat, k);
      }
    } else {
      FlatSingle(list, h);
      forall k | 0 <= k < |args|
        ensures flat[k].origin == Expansion(ps, r)[k] && flat[k].typ == PlaceType(ps, args, types, r, k)
      {
        PlainAt(ps, args, types, r, o, k);
        OccurrencesOf(ps, args, types, r, o, k);
        SingleType(ps, args, types, r, o, k);
      }
    }
  }

  function TotalOccurrences(list: seq<Concrete>): nat {
    if list == [] then 0 else TotalOccurrences(list[..|list| - 1]) + list[|list| - 1].occurrences
  }

  /** The occurrences of the concrete arguments add up to the number of arguments. */
  lemma OccurrencesAddUp(ps: seq<Parameter>, args: seq<InputArg>, types: map<Kind, Type>, r: nat, o: nat,
                         list: seq<Concrete>)
    requires Counted(ps, args, r, o) && InRange(ps, Listing(ps, r)) && Complete(ps, args, types, r, o, list)
    ensures TotalOccurrences(list) == |args|
  {
    OccurrencesUpTo(ps, args, types, r, o, list, |list|);
    assert list[..|list|] == list;
    LastPosition(ps, args, r, o);
  }

  lemma LastPosition(ps: seq<Parameter>, args: seq<InputArg>, r: nat, o: nat)
    requires Counted(ps, args, r, o)
    ensures Position(ps, r, |args|, |Listing(ps, r)|) == |args|
  {
    hide Valid, Expansion, BlockStart, BlockEnd, NumOptional, Expanded, PlainPosition;
    Layout(ps);
    if !Expanded(ps, r) {
      var b, e := BlockStart(ps), BlockEnd(ps);
      assert r * (e - b) == Times(e - b, r);
      PlainEnd(b, e, |ps|, NumOptional(ps), r, o, |args|);
    }
  }

  lemma PlainEnd(b: nat, e: nat, size: nat, opt: nat, r: nat, o: nat, n: nat)
    requires b <= e <= size && opt <= size && (b < e ==> e <= size - opt) && o <= opt
    requires n == size - (e - b) - opt + Times(e - b, r) + o
    ensures PlainPosition(b, e, r, n, size) == n
  {
    if b == e {
      assert Times(e - b, r) == 0;
    }
    hide Times;
  }

  lemma {:induction false} OccurrencesUpTo(ps: seq<Parameter>, args: seq<InputArg>, types: map<Kind, Type>, r: nat,
                                           o: nat,
                                           list: seq<Concrete>, j: nat)
    requires Counted(ps, args, r, o) && InRange(ps, Listing(ps, r))
    requires Complete(ps, args, types, r, o, list) && j <= |list|
    ensures TotalOccurrences(list[..j]) == Position(ps, r, |args|, j)
    decreases j
  {
    hide Counted, Occurrences, ConcreteAt;
    if j == 0 {
      assert Position(ps, r, |args|, 0) == 0;
    } else {
      OccurrencesUpTo(ps, args, types, r, o, list, j - 1);
      assert list[..j][..j - 1] == list[..j - 1];
      OccurrencesOf(ps, args, types, r, o, j - 1);
      PositionStep(ps, args, r, o, j - 1);
    }
  }
}
