/** Mapping the arguments of a call to the parameters of a signature.
 */
module ArgumentMapping {
  import opened Types
  import opened Signatures
  import opened ArgumentCount

  /** A `name => value` argument at position `index` of the call. */
  datatype NamedArg = NamedArg(name: string, index: nat)

  /** A call with `n` arguments, some of them named. */
  datatype Call = Call(n: nat, named: seq<NamedArg>) {
    /** Named arguments are listed in the order of the call. */
    ghost predicate Valid() {
      && (forall i :: 0 <= i < |named| ==> named[i].index < n)
      && (forall i, j :: 0 <= i < j < |named| ==> named[i].index < named[j].index)
    }

    /** The number of arguments before the first named one. */
    function Positionals(): nat {
      if named == [] then n else named[0].index
    }
  }

  /** One row of the mapping; `callIndex` is -1 for an omitted argument. */
  datatype Entry = Entry(sigIndex: nat, callIndex: int)

  datatype MapResult =
    | Mapped(entries: seq<Entry>)
    | Mismatch
    | SqlError
    | InternalError

  // ----- Specification -----

  /** The position of the argument passed by `name`, if there is one. */
  function Lookup(named: seq<NamedArg>, name: string): (r: Option<nat>)
    ensures r.None? <==> forall i :: 0 <= i < |named| ==> named[i].name != name
    ensures r.Some? ==> exists i :: 0 <= i < |named| && named[i] == NamedArg(name, r.value)
  {
    if named == [] then None
    else
      var last := named[|named| - 1];
      var front := named[..|named| - 1];
      assert forall i :: 0 <= i < |front| ==> front[i] == named[i];
      if last.name == name then
        assert named[|named| - 1] == NamedArg(name, last.index);
        Some(last.index)
      else
        var r := Lookup(front, name);
        assert r.Some? ==> exists i :: 0 <= i < |front| && front[i] == NamedArg(name, r.value);
        r
  }

  /** The call passes an argument by the name of parameter `s`. */
  predicate Used(ps: seq<Parameter>, c: Call, s: nat)
    requires s < |ps|
  {
    ps[s].name != "" && Lookup(c.named, ps[s].name).Some?
  }

  ghost predicate HasNamedArgument(ps: seq<Parameter>, name: string) {
    exists i :: 0 <= i < |ps| && !ps[i].naming.PositionalOnly? && ps[i].name == name
  }

  /** A name is used twice before any unknown name comes up. */
  ghost predicate DuplicateFirst(ps: seq<Parameter>, c: Call) {
    exists j: nat :: DuplicateAt(c, j) && forall i :: 0 <= i < j ==> HasNamedArgument(ps, c.named[i].name)
  }

  ghost predicate DuplicateAt(c: Call, j: nat) {
    j < |c.named| && exists i :: 0 <= i < j && c.named[i].name == c.named[j].name
  }

  /** Place `k` of the expansion is the first one that cannot be filled. */
  ghost predicate FirstBad(ps: seq<Parameter>, c: Call, walk: seq<nat>, k: nat)
    requires InRange(ps, walk)
  {
    k < |walk| && !PlaceOk(ps, c, walk[k], k) && Filled(ps, c, walk, k)
  }

  /** The first `n` places can be filled. */
  ghost predicate Filled(ps: seq<Parameter>, c: Call, walk: seq<nat>, n: nat)
    requires InRange(ps, walk) && n <= |walk|
  {
    forall j :: 0 <= j < n ==> PlaceOk(ps, c, walk[j], j)
  }

  /** The first place that cannot be filled comes after the positional arguments and
      belongs to a repeated parameter, whose name is used or not. */
  ghost predicate RepeatedFirst(ps: seq<Parameter>, c: Call, walk: seq<nat>, used: bool)
    requires InRange(ps, walk)
  {
    exists k: nat ::
      FirstBad(ps, c, walk, k) && c.Positionals() <= k && ps[walk[k]].card.Repeated? && Used(ps, c, walk[k]) == used
  }

  /** The whole call is in error: a name is used twice, a positional argument follows a
      named one, or a repeated place is left empty. */
  ghost predicate CallError(ps: seq<Parameter>, c: Call, r: nat)
    requires Valid(ps)
  {
    ExpansionInRange(ps, r);
    || DuplicateFirst(ps, c)
    || (NamesOk(ps, c) && !NamedLast(c))
    || (NamesOk(ps, c) && NamedLast(c) && RepeatedFirst(ps, c, Expansion(ps, r), false))
  }

  /** The sanity check that repeated parameters are not passed by name fails. */
  ghost predicate RepeatedNamed(ps: seq<Parameter>, c: Call, r: nat)
    requires Valid(ps)
  {
    ExpansionInRange(ps, r);
    && NamesOk(ps, c) && NamedLast(c)
    && (|| RepeatedFirst(ps, c, Expansion(ps, r), true)
        || (r == 0 && NamedInBlock(ps, c, Expansion(ps, r))))
  }

  /** A block that is passed over after the positional arguments has a used name. */
  ghost predicate NamedInBlock(ps: seq<Parameter>, c: Call, walk: seq<nat>)
    requires InRange(ps, walk)
  {
    && c.Positionals() <= BlockStart(ps) <= |walk| && BlockEnd(ps) <= |ps| && Filled(ps, c, walk, BlockStart(ps))
    && exists i :: BlockStart(ps) <= i < BlockEnd(ps) && Used(ps, c, i)
  }

  ghost predicate NamesOk(ps: seq<Parameter>, c: Call) {
    && (forall i, j :: 0 <= i < j < |c.named| ==> c.named[i].name != c.named[j].name)
    && (forall i :: 0 <= i < |c.named| ==> HasNamedArgument(ps, c.named[i].name))
  }

  /** No positional argument follows a named one. */
  ghost predicate NamedLast(c: Call) {
    c.named == [] || (|c.named| <= c.n && forall i :: 0 <= i < |c.named| ==> c.named[i].index == c.n - |c.named| + i)
  }

  function LastDefault(ps: seq<Parameter>): (i: int)
    ensures -1 <= i < |ps|
    ensures forall j :: i < j < |ps| ==> ps[j].default.None?
    ensures i >= 0 ==> ps[i].default.Some?
  {
    if ps == [] then -1
    else if ps[|ps| - 1].default.Some? then |ps| - 1
    else
      var front := ps[..|ps| - 1];
      assert forall j :: 0 <= j < |front| ==> front[j] == ps[j];
      LastDefault(front)
  }

  function LastNamed(ps: seq<Parameter>): (i: int)
    ensures -1 <= i < |ps|
    ensures forall j :: i < j < |ps| ==> ps[j].naming.PositionalOnly?
    ensures i >= 0 ==> !ps[i].naming.PositionalOnly?
  {
    if ps == [] then -1
    else if !ps[|ps| - 1].naming.PositionalOnly? then |ps| - 1
    else
      var front := ps[..|ps| - 1];
      assert forall j :: 0 <= j < |front| ==> front[j] == ps[j];
      LastNamed(front)
  }

  /** An omitted optional parameter of a call without named arguments gets a row. */
  predicate Included(ps: seq<Parameter>, always: bool, s: nat)
    requires s < |ps|
  {
    s <= LastDefault(ps) || (always && (ps[s].name != "" || s <= LastNamed(ps)))
  }

  /** The row, if any, of parameter `s` at position `pos` of the expansion. */
  function RowAt(ps: seq<Parameter>, c: Call, always: bool, s: nat, pos: nat): seq<Entry>
    requires s < |ps|
  {
    if pos < c.Positionals() then [Entry(s, pos)]
    else if Used(ps, c, s) then [Entry(s, Lookup(c.named, ps[s].name).value)]
    else if ps[s].card.Optional? && (c.named != [] || Included(ps, always, s)) then [Entry(s, -1)]
    else []
  }

  ghost predicate InRange(ps: seq<Parameter>, walk: seq<nat>) {
    forall i :: 0 <= i < |walk| ==> walk[i] < |ps|
  }

  /** The rows for the parameters `walk`, the first of them at position `pos`. */
  ghost function Rows(ps: seq<Parameter>, c: Call, always: bool, walk: seq<nat>, pos: nat): seq<Entry>
    requires InRange(ps, walk)
  {
    if walk == [] then []
    else RowAt(ps, c, always, walk[0], pos) + Rows(ps, c, always, walk[1..], pos + 1)
  }

  /** Position `pos` of the expansion can be filled: positionally by a parameter
      that accepts that, otherwise by name or by omission. */
  predicate PlaceOk(ps: seq<Parameter>, c: Call, s: nat, pos: nat)
    requires s < |ps|
  {
    if pos < c.Positionals() then !Used(ps, c, s) && !ps[s].naming.NamedOnly?
    else if Used(ps, c, s) then !ps[s].card.Repeated?
    else ps[s].card.Optional?
  }

  ghost predicate PlacesOk(ps: seq<Parameter>, c: Call, walk: seq<nat>, pos: nat)
    requires InRange(ps, walk)
  {
    forall i :: 0 <= i < |walk| ==> PlaceOk(ps, c, walk[i], pos + i)
  }

  /** With zero repetitions the block is passed over: in one jump when arguments
      are still being placed positionally, parameter by parameter afterwards. */
  ghost predicate SkipOk(ps: seq<Parameter>, c: Call) {
    var b := BlockStart(ps);
    if b < c.Positionals() then b < |ps| ==> !Used(ps, c, b)
    else forall i :: b <= i < BlockEnd(ps) ==> !Used(ps, c, i)
  }

  lemma ExpansionInRange(ps: seq<Parameter>, r: nat)
    requires Valid(ps)
    ensures InRange(ps, Expansion(ps, r))
  {
    forall i | 0 <= i < |Expansion(ps, r)|
      ensures Expansion(ps, r)[i] < |ps|
    {
      ExpansionTail(ps, r, i);
    }
  }

  /** The call can be mapped to the signature. */
  ghost predicate Mappable(ps: seq<Parameter>, c: Call, r: nat)
    requires Valid(ps)
  {
    ExpansionInRange(ps, r);
    && NamesOk(ps, c)
    && NamedLast(c)
    && PlacesOk(ps, c, Expansion(ps, r), 0)
    && (r == 0 && BlockStart(ps) < BlockEnd(ps) ==> SkipOk(ps, c))
  }

  ghost function Mapping(ps: seq<Parameter>, c: Call, r: nat, always: bool): seq<Entry>
    requires Valid(ps)
  {
    ExpansionInRange(ps, r);
    Rows(ps, c, always, Expansion(ps, r), 0)
  }

  // ----- The mapping loop -----

  /** The first `k` named arguments: known, different, and collected in `names`. */
  ghost predicate Collected(ps: seq<Parameter>, c: Call, names: map<string, nat>, k: nat)
    requires k <= |c.named|
  {
    && (forall i, j :: 0 <= i < j < k ==> c.named[i].name != c.named[j].name)
    && (forall i :: 0 <= i < k ==> HasNamedArgument(ps, c.named[i].name))
    && (forall i :: 0 <= i < k ==> c.named[i].name in names && names[c.named[i].name] == c.named[i].index)
    && (forall x :: x in names ==> NameAmong(c, x, k))
  }

  ghost predicate NameAmong(c: Call, x: string, k: nat)
    requires k <= |c.named|
  {
    exists i :: 0 <= i < k && c.named[i].name == x
  }

  lemma CollectedStep(ps: seq<Parameter>, c: Call, names: map<string, nat>, k: nat)
    requires k < |c.named| && Collected(ps, c, names, k)
    ensures c.named[k].name in names ==> !NamesOk(ps, c) && DuplicateFirst(ps, c)
    ensures c.named[k].name !in names && !HasNamedArgument(ps, c.named[k].name) ==>
              !NamesOk(ps, c) && !DuplicateFirst(ps, c)
    ensures c.named[k].name !in names && HasNamedArgument(ps, c.named[k].name) ==>
              Collected(ps, c, names[c.named[k].name := c.named[k].index], k + 1)
  {
    hide HasNamedArgument;
    var x := c.named[k].name;
    if x in names {
      var i :| 0 <= i < k && c.named[i].name == x;
      assert DuplicateAt(c, k);
    } else if !HasNamedArgument(ps, x) {
      UnknownFirst(ps, c, names, k);
    }
    if x !in names && HasNamedArgument(ps, x) {
      var more := names[x := c.named[k].index];
      forall y | y in more
        ensures NameAmong(c, y, k + 1)
      {
        if y != x {
          var i :| 0 <= i < k && c.named[i].name == y;
        }
      }
    }
  }

  lemma UnknownFirst(ps: seq<Parameter>, c: Call, names: map<string, nat>, k: nat)
    requires k < |c.named| && Collected(ps, c, names, k)
    requires c.named[k].name !in names && !HasNamedArgument(ps, c.named[k].name)
    ensures !DuplicateFirst(ps, c)
  {
    hide HasNamedArgument;
    forall j: nat | DuplicateAt(c, j)
      ensures j > k
    {
      var i :| 0 <= i < j && c.named[i].name == c.named[j].name;
    }
  }

  lemma CollectedAll(ps: seq<Parameter>, c: Call, names: map<string, nat>, x: string)
    requires Collected(ps, c, names, |c.named|)
    ensures NamesOk(ps, c) && !DuplicateFirst(ps, c)
    ensures x in names <==> Lookup(c.named, x).Some?
    ensures x in names ==> Lookup(c.named, x) == Some(names[x])
  {
    hide Lookup, HasNamedArgument;
  }

  /** The extent of the first `k` named arguments. */
  ghost predicate Extent(c: Call, k: nat, first: int, last: int)
    requires k <= |c.named|
  {
    if k == 0 then first == c.n && last == -1 else first == c.named[0].index && last == c.named[k - 1].index
  }

  lemma ExtentStep(c: Call, k: nat, first: int, last: int)
    requires c.Valid() && k < |c.named| && Extent(c, k, first, last)
    ensures var i := c.named[k].index;
            Extent(c, k + 1, if i < first then i else first, if i > last then i else last)
  {
  }

  /** Checks the named arguments of the call and collects their positions. */
  method CollectNamedArguments(ps: seq<Parameter>, c: Call)
      returns (error: Option<MapResult>, names: map<string, nat>, first: int, last: int)
    requires Valid(ps) && c.Valid()
    ensures error.None? <==> NamesOk(ps, c)
    ensures error.Some? ==> error.value == if DuplicateFirst(ps, c) then SqlError else Mismatch
    ensures error.None? ==> !DuplicateFirst(ps, c)
    ensures error.None? ==> forall x :: (x in names <==> Lookup(c.named, x).Some?)
    ensures error.None? ==> forall x :: x in names ==> Lookup(c.named, x) == Some(names[x])
    ensures error.None? && c.named != [] ==> first == c.named[0].index && last == c.named[|c.named| - 1].index
  {
    hide Lookup, HasNamedArgument, Signatures.Valid, NamesOk, Collected, DuplicateFirst;
    names := map[];
    first, last := c.n, -1;
    assert Collected(ps, c, names, 0) by { CollectedNone(ps, c); }
    for k := 0 to |c.named|
      invariant Collected(ps, c, names, k) && Extent(c, k, first, last)
    {
      var arg := c.named[k];
      CollectedStep(ps, c, names, k);
      ExtentStep(c, k, first, last);
      if arg.name in names {
        return Some(SqlError), names, first, last;
      }
      var found := ParameterByName(ps, arg.name);
      if !found {
        return Some(Mismatch), names, first, last;
      }
      names := names[arg.name := arg.index];
      first := if arg.index < first then arg.index else first;
      last := if arg.index > last then arg.index else last;
    }
    error := None;
    CollectedAll(ps, c, names, "");
    forall x
      ensures x in names <==> Lookup(c.named, x).Some?
      ensures x in names ==> Lookup(c.named, x) == Some(names[x])
    {
      CollectedAll(ps, c, names, x);
    }
  }

  lemma CollectedNone(ps: seq<Parameter>, c: Call)
    ensures Collected(ps, c, map[], 0)
  {
  }

  method ParameterByName(ps: seq<Parameter>, name: string) returns (found: bool)
    ensures found == HasNamedArgument(ps, name)
  {
    for i := 0 to |ps|
      invariant forall j :: 0 <= j < i ==> ps[j].naming.PositionalOnly? || ps[j].name != name
    {
      if !ps[i].naming.PositionalOnly? && ps[i].name == name {
        return true;
      }
    }
    found := false;
  }

  /** The check `last - first < |named|` and `last + 1 >= n` says that exactly the
      last arguments are named. */
  lemma NamedLastIff(c: Call)
    requires c.Valid() && c.named != []
    ensures NamedLast(c) <==>
            var first, last := c.named[0].index, c.named[|c.named| - 1].index;
            last - first < |c.named| && last + 1 >= c.n
  {
    var first, last := c.named[0].index, c.named[|c.named| - 1].index;
    forall i | 0 <= i < |c.named|
      ensures first + i <= c.named[i].index <= last - (|c.named| - 1 - i)
    {
      IndexBounds(c, i);
    }
  }

  lemma {:induction false} IndexBounds(c: Call, i: nat)
    requires c.Valid() && i < |c.named|
    ensures c.named[0].index + i <= c.named[i].index
    ensures c.named[i].index + (|c.named| - 1 - i) <= c.named[|c.named| - 1].index
  {
    for k := 0 to i
      invariant c.named[0].index + k <= c.named[k].index
    {
    }
    for k := i to |c.named| - 1
      invariant c.named[i].index + (k - i) <= c.named[k].index
    {
    }
  }

  lemma PlacesOkStep(ps: seq<Parameter>, c: Call, walk: seq<nat>, pos: nat)
    requires InRange(ps, walk) && walk != []
    ensures InRange(ps, walk[1..])
    ensures PlacesOk(ps, c, walk, pos) <==> PlaceOk(ps, c, walk[0], pos) && PlacesOk(ps, c, walk[1..], pos + 1)
  {
    var rest := walk[1..];
    assert forall i :: 0 <= i < |rest| ==> rest[i] == walk[i + 1];
    if PlaceOk(ps, c, walk[0], pos) && PlacesOk(ps, c, rest, pos + 1) {
      forall i | 0 <= i < |walk|
        ensures PlaceOk(ps, c, walk[i], pos + i)
      {
        if i > 0 { assert rest[i - 1] == walk[i]; }
      }
    }
    if PlacesOk(ps, c, walk, pos) {
      forall i | 0 <= i < |rest|
        ensures PlaceOk(ps, c, rest[i], pos + 1 + i)
      {
        assert PlaceOk(ps, c, walk[i + 1], pos + (i + 1));
      }
    }
  }

  /** `SkipOk` as far as the loop has come. */
  ghost predicate SkippedOk(ps: seq<Parameter>, c: Call, sig: nat) {
    var b := BlockStart(ps);
    if b < c.Positionals() then BlockEnd(ps) <= sig && (b < |ps| ==> !Used(ps, c, b))
    else forall i :: b <= i < BlockEnd(ps) && i < sig ==> !Used(ps, c, i)
  }

  /** Where the loop stands: at parameter `sig` with `left` repetitions to go,
      after `pos` positions of the expansion have been given their `entries`. */
  datatype State = State(sig: nat, left: nat, pos: nat, entries: seq<Entry>)

  /** What the loop is to arrive at: the expansion, its rows, and whether each of
      its places can be filled. */
  datatype Goal = Goal(r: nat, walk: seq<nat>, rows: seq<Entry>, ok: bool)

  ghost predicate Inv(ps: seq<Parameter>, c: Call, always: bool, g: Goal, st: State) {
    && InRange(ps, g.walk)
    && st.sig <= |ps| && st.pos <= |g.walk|
    && g.walk[st.pos..] == Rest(ps, st.sig, st.left)
    && st.entries + Rows(ps, c, always, g.walk[st.pos..], st.pos) == g.rows
    && (g.ok <==> PlacesOk(ps, c, g.walk[st.pos..], st.pos))
    && InvSkipped(ps, c, g.r, st)
  }

  ghost predicate InvSkipped(ps: seq<Parameter>, c: Call, r: nat, st: State) {
    && (r == 0 && st.sig <= BlockEnd(ps) ==>
          st.pos == if st.sig <= BlockStart(ps) then st.sig else BlockStart(ps))
    && (r == 0 && BlockStart(ps) < st.sig ==> SkippedOk(ps, c, st.sig))
    && (r == 0 ==> st.left == 0)
    && (st.sig < BlockStart(ps) ==> st.left == r)
    && (Skipping(ps, st) ==> r == 0)
  }

  /** The loop passes over the block without placing anything. */
  predicate Skipping(ps: seq<Parameter>, st: State) {
    BlockStart(ps) <= st.sig < BlockEnd(ps) && st.left == 0
  }

  /** The state after a row for `st.sig`, rewinding at the end of the block. */
  ghost function Advance(ps: seq<Parameter>, c: Call, always: bool, st: State): State
    requires st.sig < |ps|
  {
    var entries := st.entries + RowAt(ps, c, always, st.sig, st.pos);
    if st.sig == BlockEnd(ps) - 1 && BlockStart(ps) < BlockEnd(ps) && st.left > 0 then
      State(if st.left > 1 then BlockStart(ps) else st.sig + 1, st.left - 1, st.pos + 1, entries)
    else State(st.sig + 1, st.left, st.pos + 1, entries)
  }

  lemma InvBound(ps: seq<Parameter>, c: Call, always: bool, g: Goal, st: State)
    requires Inv(ps, c, always, g, st)
    ensures st.sig <= |ps|
  {
  }

  lemma InvHead(ps: seq<Parameter>, c: Call, always: bool, g: Goal, st: State)
    requires Inv(ps, c, always, g, st)
    requires st.sig < |ps| && !Skipping(ps, st)
    ensures st.pos < |g.walk| && g.walk[st.pos] == st.sig
    ensures g.ok ==> PlaceOk(ps, c, st.sig, st.pos)
  {
    hide BlockStart, BlockEnd;
    var tail := g.walk[st.pos..];
    assert tail[0] == st.sig;
    PlacesOkStep(ps, c, tail, st.pos);
  }

  lemma {:induction false} AdvanceWalk(ps: seq<Parameter>, c: Call, always: bool, st: State)
    requires st.sig < |ps| && !Skipping(ps, st)
    ensures var st' := Advance(ps, c, always, st);
            st'.sig <= |ps| && Rest(ps, st.sig, st.left) == [st.sig] + Rest(ps, st'.sig, st'.left)
  {
    hide BlockStart, BlockEnd;
  }

  lemma {:induction false} AdvanceRows(ps: seq<Parameter>, c: Call, always: bool, tail: seq<nat>, pos: nat,
                                       entries: seq<Entry>)
    requires tail != [] && InRange(ps, tail)
    ensures InRange(ps, tail[1..])
    ensures entries + Rows(ps, c, always, tail, pos)
         == (entries + RowAt(ps, c, always, tail[0], pos)) + Rows(ps, c, always, tail[1..], pos + 1)
  {
  }

  lemma {:induction false} AdvanceSkipped(ps: seq<Parameter>, c: Call, always: bool, r: nat, st: State)
    requires st.sig < |ps| && !Skipping(ps, st) && InvSkipped(ps, c, r, st)
    ensures InvSkipped(ps, c, r, Advance(ps, c, always, st))
  {
  }

  lemma {:induction false} InvAdvance(ps: seq<Parameter>, c: Call, always: bool, g: Goal, st: State)
    requires Inv(ps, c, always, g, st)
    requires st.sig < |ps| && !Skipping(ps, st)
    requires PlaceOk(ps, c, st.sig, st.pos)
    ensures Inv(ps, c, always, g, Advance(ps, c, always, st))
  {
    hide BlockStart, BlockEnd, RowAt, PlaceOk, Rows, PlacesOk, InvSkipped, Rest;
    var tail := g.walk[st.pos..];
    AdvanceWalk(ps, c, always, st);
    var st' := Advance(ps, c, always, st);
    assert tail[1..] == Rest(ps, st'.sig, st'.left);
    assert tail[1..] == g.walk[st'.pos..];
    AdvanceRows(ps, c, always, tail, st.pos, st.entries);
    PlacesOkStep(ps, c, tail, st.pos);
    AdvanceSkipped(ps, c, always, g.r, st);
  }

  /** Passing over the block, either in one jump or by one parameter. */
  lemma {:induction false} InvSkip(ps: seq<Parameter>, c: Call, always: bool, g: Goal, st: State, sig': nat)
    requires Inv(ps, c, always, g, st)
    requires st.sig < |ps| && Skipping(ps, st)
    requires !Used(ps, c, st.sig)
    requires if sig' == st.sig + 1 then st.pos >= c.Positionals() || sig' == BlockEnd(ps)
             else sig' == BlockEnd(ps) && (st.pos < c.Positionals() || c.named == [])
    ensures Inv(ps, c, always, g, st.(sig := sig'))
  {
    hide BlockStart, BlockEnd;
  }

  lemma PlaceIsOptional(ps: seq<Parameter>, c: Call, r: nat, pos: nat)
    requires Valid(ps) && exists o :: Solves(ps, c.n, r, o)
    requires c.n <= pos < |Expansion(ps, r)|
    ensures Expansion(ps, r)[pos] < |ps| && ps[Expansion(ps, r)[pos]].card.Optional?
  {
    ExpansionLength(ps, r);
    ExpansionTail(ps, r, pos);
  }

  /** The call cannot be mapped: a place cannot be filled, or the block that is
      passed over has the name of an argument. */
  ghost predicate Failed(ps: seq<Parameter>, c: Call, g: Goal) {
    !g.ok || (g.r == 0 && BlockStart(ps) < BlockEnd(ps) && !SkipOk(ps, c))
  }

  /** The loop stops: at a place that cannot be filled, or at a used name in the block
      that it passes over. */
  ghost predicate Stopped(ps: seq<Parameter>, c: Call, g: Goal, st: State) {
    && st.sig < |ps|
    && if Skipping(ps, st) then Used(ps, c, st.sig)
       else st.pos < |g.walk| && g.walk[st.pos] == st.sig && !PlaceOk(ps, c, st.sig, st.pos)
  }

  lemma StopFails(ps: seq<Parameter>, c: Call, always: bool, g: Goal, st: State)
    requires Inv(ps, c, always, g, st) && st.sig < |ps|
    requires if Skipping(ps, st) then Used(ps, c, st.sig) else !PlaceOk(ps, c, st.sig, st.pos)
    ensures Failed(ps, c, g) && Stopped(ps, c, g, st)
  {
    if !Skipping(ps, st) {
      InvHead(ps, c, always, g, st);
    }
  }

  ghost function GoalOf(ps: seq<Parameter>, c: Call, r: nat, always: bool): Goal
    requires Valid(ps)
  {
    ExpansionInRange(ps, r);
    Goal(r, Expansion(ps, r), Mapping(ps, c, r, always), PlacesOk(ps, c, Expansion(ps, r), 0))
  }

  lemma GoalInit(ps: seq<Parameter>, c: Call, r: nat, always: bool)
    requires Valid(ps)
    ensures Inv(ps, c, always, GoalOf(ps, c, r, always), State(0, r, 0, []))
  {
    WalkIsExpansion(ps, r);
    ExpansionInRange(ps, r);
    var walk := Expansion(ps, r);
    assert walk[0..] == walk;
  }

  lemma InvDone(ps: seq<Parameter>, c: Call, always: bool, g: Goal, st: State)
    requires Inv(ps, c, always, g, st) && st.sig == |ps|
    ensures !Failed(ps, c, g) && st.entries == g.rows
  {
    assert g.walk[st.pos..] == [];
  }

  /** The number of positional arguments consumed after `pos` positions. */
  function CallIndex(c: Call, pos: nat): nat {
    if pos <= c.Positionals() then pos else c.Positionals()
  }

  /** Past the arguments of a call without names only optional places remain. */
  lemma OnlyOptionalLeft(ps: seq<Parameter>, c: Call, always: bool, r: nat, st: State)
    requires Valid(ps) && (exists o :: Solves(ps, c.n, r, o))
    requires Inv(ps, c, always, GoalOf(ps, c, r, always), st)
    requires st.sig < |ps| && !Skipping(ps, st) && c.n <= st.pos
    ensures ps[st.sig].card.Optional?
  {
    InvHead(ps, c, always, GoalOf(ps, c, r, always), st);
    PlaceIsOptional(ps, c, r, st.pos);
  }

  /** The part of the loop that places arguments by position. */
  method PlaceByPosition(ps: seq<Parameter>, c: Call, always: bool, used: bool, ghost g: Goal,
                         sig0: nat, left0: nat, callIndex0: nat, entries0: seq<Entry>, ghost pos: nat)
      returns (error: Option<MapResult>, sig: nat, left: nat, callIndex: nat, entries: seq<Entry>)
    requires Valid(ps) && sig0 < |ps| && used == Used(ps, c, sig0)
    requires Inv(ps, c, always, g, State(sig0, left0, pos, entries0))
    requires callIndex0 == CallIndex(c, pos) && c.Positionals() <= c.n
    requires pos < c.Positionals() || (c.named == [] && ps[sig0].name == "")
    requires pos >= c.Positionals() && !Skipping(ps, State(sig0, left0, pos, entries0)) ==> ps[sig0].card.Optional?
    ensures error.Some? ==> error.value.Mismatch? && Failed(ps, c, g) && pos < c.Positionals()
    ensures error.Some? ==> Stopped(ps, c, g, State(sig0, left0, pos, entries0))
    ensures error.None? && !Skipping(ps, State(sig0, left0, pos, entries0)) ==> PlaceOk(ps, c, sig0, pos)
    ensures error.None? ==>
              var skipped := left0 == 0 && BlockStart(ps) <= sig0 < BlockEnd(ps);
              && Inv(ps, c, always, g, State(sig, left, if skipped then pos else pos + 1, entries))
              && callIndex == CallIndex(c, if skipped then pos else pos + 1)
              && (left < left0 || (left == left0 && sig > sig0))
  {
    hide Inv, Failed, Stopped;
    ghost var st := State(sig0, left0, pos, entries0);
    sig, left, callIndex, entries := sig0, left0, callIndex0, entries0;
    if used {
      StopFails(ps, c, always, g, st);
      return Some(Mismatch), sig, left, callIndex, entries;
    }
    if ps[sig].name != "" && ps[sig].naming.NamedOnly? {
      Layout(ps);
      StopFails(ps, c, always, g, st);
      return Some(Mismatch), sig, left, callIndex, entries;
    }
    error := None;
    if left == 0 && BlockStart(ps) <= sig < BlockEnd(ps) {
      InvSkip(ps, c, always, g, st, BlockEnd(ps));
      sig := BlockEnd(ps);
      return;
    }
    if callIndex < c.n {
      entries := entries + [Entry(sig, callIndex)];
      callIndex := callIndex + 1;
    } else if sig <= LastDefault(ps) || (always && sig <= LastNamed(ps)) {
      entries := entries + [Entry(sig, -1)];
    }
    assert entries == st.entries + RowAt(ps, c, always, sig, pos);
    InvAdvance(ps, c, always, g, st);
    if BlockStart(ps) < BlockEnd(ps) && sig == BlockEnd(ps) - 1 {
      left := left - 1;
      sig := if left > 0 then BlockStart(ps) else sig + 1;
    } else {
      sig := sig + 1;
    }
  }

  /** The part of the loop that places arguments by name or leaves them out. */
  method PlaceByName(ps: seq<Parameter>, c: Call, always: bool, byName: Option<nat>, ghost g: Goal,
                     sig0: nat, left: nat, entries0: seq<Entry>, ghost pos: nat)
      returns (error: Option<MapResult>, sig: nat, entries: seq<Entry>)
    requires Valid(ps) && sig0 < |ps|
    requires Inv(ps, c, always, g, State(sig0, left, pos, entries0))
    requires byName == if Used(ps, c, sig0) then Lookup(c.named, ps[sig0].name) else None
    requires byName.Some? ==> byName.value < c.n
    requires pos >= c.Positionals() && (c.named == [] ==> ps[sig0].name != "")
    ensures error.Some? ==> !error.value.Mapped? && Failed(ps, c, g)
    ensures error.Some? ==> Stopped(ps, c, g, State(sig0, left, pos, entries0))
    ensures error.Some? ==> (error.value.SqlError? <==> ps[sig0].card.Repeated? && !Used(ps, c, sig0))
    ensures error.Some? ==> (error.value.InternalError? <==> ps[sig0].card.Repeated? && Used(ps, c, sig0))
    ensures error.None? && !Skipping(ps, State(sig0, left, pos, entries0)) ==> PlaceOk(ps, c, sig0, pos)
    ensures error.None? ==>
              var skipped := left == 0 && BlockStart(ps) <= sig0 < BlockEnd(ps);
              && Inv(ps, c, always, g, State(sig, left, if skipped then pos else pos + 1, entries))
              && sig == sig0 + 1
  {
    hide Inv, Signatures.Valid, Lookup, Failed, Stopped, BlockStart, BlockEnd, LastDefault, LastNamed;
    Layout(ps);
    ghost var st := State(sig0, left, pos, entries0);
    sig, entries := sig0, entries0;
    if byName.None? {
      if left != 0 && ps[sig].card.Repeated? {
        StopFails(ps, c, always, g, st);
        return Some(SqlError), sig, entries;
      }
      if ps[sig].card.Required? {
        StopFails(ps, c, always, g, st);
        return Some(Mismatch), sig, entries;
      }
      if ps[sig].card.Optional? && (always || c.named != [] || sig <= LastDefault(ps)) {
        entries := entries + [Entry(sig, -1)];
      }
      if Skipping(ps, st) {
        InvSkip(ps, c, always, g, st, sig + 1);
      } else {
        InvAdvance(ps, c, always, g, st);
        assert entries == entries0 + RowAt(ps, c, always, sig, pos);
      }
      return None, sig + 1, entries;
    }
    if ps[sig].card.Repeated? || byName.value >= c.n {
      StopFails(ps, c, always, g, st);
      return Some(InternalError), sig, entries;
    }
    InvAdvance(ps, c, always, g, st);
    return None, sig + 1, entries + [Entry(sig, byName.value)];
  }

  lemma FilledNone(ps: seq<Parameter>, c: Call, walk: seq<nat>)
    requires InRange(ps, walk)
    ensures Filled(ps, c, walk, 0)
  {
  }

  lemma FilledNext(ps: seq<Parameter>, c: Call, always: bool, g: Goal, st: State)
    requires Inv(ps, c, always, g, st) && st.sig < |ps| && Filled(ps, c, g.walk, st.pos)
    requires !Skipping(ps, st) ==> PlaceOk(ps, c, st.sig, st.pos)
    ensures !Skipping(ps, st) ==> st.pos < |g.walk| && Filled(ps, c, g.walk, st.pos + 1)
  {
    if !Skipping(ps, st) {
      InvHead(ps, c, always, g, st);
    }
  }

  /** Without repetitions no place belongs to a repeated parameter. */
  lemma NoRepeatedPlaces(ps: seq<Parameter>, c: Call, used: bool)
    requires Valid(ps)
    ensures InRange(ps, Expansion(ps, 0)) && !RepeatedFirst(ps, c, Expansion(ps, 0), used)
    ensures BlockStart(ps) <= |Expansion(ps, 0)| && BlockEnd(ps) <= |ps|
  {
    hide Signatures.Valid, PlaceOk, Filled, Used;
    Layout(ps);
    ExpansionInRange(ps, 0);
    assert Repeat(Range(BlockStart(ps), BlockEnd(ps)), 0) == [];
    assert forall k :: 0 <= k < |Expansion(ps, 0)| ==> !ps[Expansion(ps, 0)[k]].card.Repeated?;
  }

  lemma FirstBadOnce(ps: seq<Parameter>, c: Call, walk: seq<nat>, k: nat)
    requires InRange(ps, walk) && FirstBad(ps, c, walk, k)
    ensures forall used :: RepeatedFirst(ps, c, walk, used) <==>
              c.Positionals() <= k && ps[walk[k]].card.Repeated? && Used(ps, c, walk[k]) == used
  {
    hide PlaceOk, Used;
    forall j: nat | FirstBad(ps, c, walk, j)
      ensures j == k
    {
    }
  }

  /** The loop stops inside a block that it passes over. */
  lemma StoppedInBlock(ps: seq<Parameter>, c: Call, r: nat, walk: seq<nat>, st: State)
    requires InvSkipped(ps, c, r, st) && Skipping(ps, st) && st.sig < |ps| && Used(ps, c, st.sig)
    requires InRange(ps, walk) && st.pos <= |walk| && Filled(ps, c, walk, st.pos) && BlockEnd(ps) <= |ps|
    ensures r == 0
    ensures NamedInBlock(ps, c, walk) <==> c.Positionals() <= st.pos
  {
    hide BlockStart, BlockEnd, PlaceOk, Used, Filled;
  }

  /** A block that has been passed over has no used name. */
  lemma StoppedPastBlock(ps: seq<Parameter>, c: Call, walk: seq<nat>, st: State)
    requires InvSkipped(ps, c, 0, st) && !Skipping(ps, st)
    requires InRange(ps, walk) && FirstBad(ps, c, walk, st.pos)
    ensures !NamedInBlock(ps, c, walk)
  {
    hide BlockStart, BlockEnd, PlaceOk, Used;
  }

  /** Where the loop stops tells which error it reports. */
  lemma StoppedVerdict(ps: seq<Parameter>, c: Call, always: bool, r: nat, st: State)
    requires Valid(ps) && NamesOk(ps, c) && NamedLast(c) && !DuplicateFirst(ps, c)
    requires var g := GoalOf(ps, c, r, always);
             && Inv(ps, c, always, g, st) && InRange(ps, g.walk)
             && Filled(ps, c, g.walk, st.pos) && Stopped(ps, c, g, st)
    ensures st.sig < |ps|
    ensures CallError(ps, c, r) <==> c.Positionals() <= st.pos && ps[st.sig].card.Repeated? && !Used(ps, c, st.sig)
    ensures RepeatedNamed(ps, c, r) <==> c.Positionals() <= st.pos && ps[st.sig].card.Repeated? && Used(ps, c, st.sig)
  {
    hide Signatures.Valid, PlaceOk, PlacesOk, NamesOk, NamedLast, DuplicateFirst, RepeatedFirst, NamedInBlock,
         Filled, Expansion, Rows, Rest, Used, BlockStart, BlockEnd, InvSkipped;
    Layout(ps);
    var walk := Expansion(ps, r);
    if r == 0 {
      NoRepeatedPlaces(ps, c, true);
      NoRepeatedPlaces(ps, c, false);
    }
    if Skipping(ps, st) {
      StoppedInBlock(ps, c, r, walk, st);
    } else {
      FirstBadOnce(ps, c, walk, st.pos);
      if r == 0 {
        StoppedPastBlock(ps, c, walk, st);
      }
    }
  }

  /** A call that can be mapped is not in error. */
  lemma MappedVerdict(ps: seq<Parameter>, c: Call, r: nat)
    requires Valid(ps) && Mappable(ps, c, r) && !DuplicateFirst(ps, c)
    ensures !CallError(ps, c, r) && !RepeatedNamed(ps, c, r)
  {
    hide Signatures.Valid, PlaceOk, NamesOk, NamedLast, DuplicateFirst, Filled, Expansion, Used, BlockStart, BlockEnd;
  }

  /** Maps the arguments of a call to the parameters of a signature. `repetitions`
      is what the count check found for this call. */
  method GetFunctionArgumentIndexMapping(ps: seq<Parameter>, c: Call, repetitions: nat, always: bool)
      returns (res: MapResult)
    requires Valid(ps) && c.Valid()
    requires exists o :: Solves(ps, c.n, repetitions, o)
    ensures res.Mapped? <==> Mappable(ps, c, repetitions)
    ensures res.Mapped? ==> res.entries == Mapping(ps, c, repetitions, always)
    ensures res.SqlError? <==> CallError(ps, c, repetitions)
    ensures res.InternalError? <==> RepeatedNamed(ps, c, repetitions)
  {
    hide Inv, Signatures.Valid, Lookup, PlacesOk, SkipOk, NamesOk, DuplicateFirst, RepeatedFirst, NamedInBlock, Filled,
         Expansion, Rows, BlockStart, BlockEnd, NumOptional, Solves, Stopped;
    var error, names, first, last := CollectNamedArguments(ps, c);
    if error.Some? {
      return error.value;
    }
    if c.named != [] {
      NamedLastIff(c);
      if last - first >= |c.named| || last + 1 < c.n {
        return SqlError;
      }
    }
    ghost var g := GoalOf(ps, c, repetitions, always);
    ghost var pos: nat := 0;
    var entries: seq<Entry> := [];
    var callIndex: nat := 0;
    var left: nat := repetitions;
    var sig: nat := 0;
    GoalInit(ps, c, repetitions, always);
    FilledNone(ps, c, g.walk);
    while sig < |ps|
      invariant sig <= |ps| && Inv(ps, c, always, g, State(sig, left, pos, entries))
      invariant callIndex == CallIndex(c, pos)
      invariant InRange(ps, g.walk) && pos <= |g.walk| && Filled(ps, c, g.walk, pos)
      decreases left, |ps| - sig
    {
      var name := ps[sig].name;
      var byName := if name != "" && name in names then Some(names[name]) else None;
      ghost var skipped := left == 0 && BlockStart(ps) <= sig < BlockEnd(ps);
      ghost var st := State(sig, left, pos, entries);
      if (c.named == [] || callIndex < first) && (callIndex < c.n || name == "") {
        if callIndex >= c.n && !skipped {
          OnlyOptionalLeft(ps, c, always, repetitions, State(sig, left, pos, entries));
        }
        error, sig, left, callIndex, entries :=
          PlaceByPosition(ps, c, always, byName.Some?, g, sig, left, callIndex, entries, pos);
      } else {
        error, sig, entries := PlaceByName(ps, c, always, byName, g, sig, left, entries, pos);
      }
      if error.Some? {
        StoppedVerdict(ps, c, always, repetitions, st);
        return error.value;
      }
      FilledNext(ps, c, always, g, st);
      pos := if skipped then pos else pos + 1;
      InvBound(ps, c, always, g, State(sig, left, pos, entries));
    }
    InvDone(ps, c, always, g, State(sig, left, pos, entries));
    MappedVerdict(ps, c, repetitions);
    return Mapped(entries);
  }
}
