/** The paths of a FILTER_FIELDS call: a trie of included and excluded fields that
    is grown path by path, and the check that no required field is cleared.
 */
module FilterFields {
  import opened Types

  /** A protobuf field. An extension lives outside the declared fields of its
      message and is never required. */
  datatype Field = Field(required: bool, extension: bool, message: Option<nat>)

  /** The known fields of each message by number, and the numbers of its declared
      fields in order of declaration. Messages may be recursive. */
  datatype Schema = Schema(field: (nat, int) -> Option<Field>, declared: nat -> seq<int>) {
    ghost predicate Valid() {
      && (forall m, n :: field(m, n).Some? ==> (n in declared(m) <==> !field(m, n).value.extension))
      && (forall m, n :: n in declared(m) ==> field(m, n).Some?)
      && (forall m, n :: field(m, n).Some? && field(m, n).value.required ==> !field(m, n).value.extension)
    }
  }

  /** A field named by its containing message and its number. */
  datatype FieldRef = FieldRef(container: nat, number: int)

  /** A field path, as field numbers from the root message. */
  type Path = seq<int>

  function Parent(p: Path): Path
    requires p != []
  {
    p[..|p| - 1]
  }

  function Numbers(fields: seq<FieldRef>): (p: Path)
    ensures |p| == |fields| && forall i :: 0 <= i < |p| ==> p[i] == fields[i].number
  {
    seq(|fields|, i requires 0 <= i < |fields| => fields[i].number)
  }

  /** The message type at a path, if there is one. */
  function MessageAt(s: Schema, root: nat, p: Path): Option<nat> {
    if p == [] then Some(root)
    else
      var m := MessageAt(s, root, Parent(p));
      if m.None? || s.field(m.value, p[|p| - 1]).None? then None else s.field(m.value, p[|p| - 1]).value.message
  }

  // ----- What a list of paths means -----

  /** The flag of the longest added prefix of `p`; without one, the default. */
  function Effective(flags: map<Path, bool>, initial: bool, p: Path): bool {
    if p in flags then flags[p] else if p == [] then initial else Effective(flags, initial, Parent(p))
  }

  /** A field is retained when it or something in it is included. */
  ghost predicate Retained(flags: map<Path, bool>, initial: bool, p: Path) {
    exists q :: p <= q && Effective(flags, initial, q)
  }

  lemma {:induction false} LongestPrefixWins(flags: map<Path, bool>, initial: bool, p: Path, q: Path)
    requires p <= q && forall x :: x in flags && x <= q ==> x <= p
    ensures Effective(flags, initial, q) == Effective(flags, initial, p)
    ensures p in flags ==> Effective(flags, initial, q) == flags[p]
    decreases |q|
  {
    if p != q {
      assert p <= Parent(q) && Parent(q) <= q;
      LongestPrefixWins(flags, initial, p, Parent(q));
    }
  }

  /** Adding a path changes nothing outside of it. */
  lemma {:induction false} EffectiveElsewhere(flags: map<Path, bool>, initial: bool, a: Path, included: bool, q: Path)
    requires !(a <= q)
    ensures Effective(flags[a := included], initial, q) == Effective(flags, initial, q)
    decreases |q|
  {
    if q != [] {
      assert Parent(q) <= q;
      EffectiveElsewhere(flags, initial, a, included, Parent(q));
    }
  }

  // ----- The trie -----

  datatype Node = Node(descriptor: Option<nat>, included: bool)

  type Trie = map<Path, Node>

  predicate HasChildren(t: Trie, p: Path) {
    exists q :: q in t && q != [] && Parent(q) == p
  }

  /** The trie holds exactly the prefixes of the added paths, each with the flag
      that its longest added prefix gives it. */
  ghost predicate Represents(s: Schema, root: nat, t: Trie, flags: map<Path, bool>, initial: bool) {
    && [] in t
    && (forall q :: q in t && q != [] ==> Parent(q) in t && MessageAt(s, root, Parent(q)).Some?)
    && (forall q :: q in t ==> t[q] == Node(MessageAt(s, root, q), Effective(flags, initial, q)))
    && (forall a :: a in flags ==> a in t && a != [])
    && (forall q :: q in t && q != [] && !HasChildren(t, q) ==> q in flags)
  }

  /** Every added path flips the flag that it would have without itself. */
  ghost predicate Alternates(flags: map<Path, bool>, initial: bool) {
    forall a :: a in flags ==> a != [] && flags[a] != Effective(flags, initial, Parent(a))
  }

  lemma {:induction false} PrefixInTrie(t: Trie, p: Path, q: Path)
    requires q in t && p <= q && forall x :: x in t && x != [] ==> Parent(x) in t
    ensures p in t
    decreases |q|
  {
    if p != q {
      assert p <= Parent(q);
      PrefixInTrie(t, p, Parent(q));
    }
  }

  /** A node with something below it has a child on the way there. */
  lemma ChildTowards(t: Trie, p: Path, q: Path)
    requires q in t && p < q && forall x :: x in t && x != [] ==> Parent(x) in t
    ensures q[..|p| + 1] in t && Parent(q[..|p| + 1]) == p && HasChildren(t, p)
  {
    var c := q[..|p| + 1];
    PrefixInTrie(t, c, q);
    assert Parent(c) == p;
  }

  // ----- Adding a path -----

  /** The path may be added: it is no prefix of an earlier path, nor equal to one,
      and it flips the flag of its longest added prefix. */
  ghost predicate Acceptable(flags: map<Path, bool>, initial: bool, p: Path, included: bool) {
    (forall a :: a in flags ==> !(p <= a)) && Effective(flags, initial, p) != included
  }

  ghost predicate WellTyped(s: Schema, root: nat, fields: seq<FieldRef>) {
    forall i :: 0 <= i < |fields| ==> TypedAt(s, root, fields, i)
  }

  ghost predicate TypedAt(s: Schema, root: nat, fields: seq<FieldRef>, i: nat)
    requires i < |fields|
  {
    && MessageAt(s, root, Numbers(fields)[..i]) == Some(fields[i].container)
    && s.field(fields[i].container, fields[i].number).Some?
  }

  datatype Status = Ok | Invalid | Internal

  /** The trie during the walk: `base` and, below depth `d`, copies of the flag
      found there. */
  ghost predicate Grown(s: Schema, root: nat, base: Trie, t: Trie, p: Path, d: nat, i: nat)
    requires d <= i <= |p|
  {
    && p[..d] in base && (d < i ==> p[..d + 1] !in base)
    && (forall q :: q in t <==> q in base || NewNode(p, d, i, q))
    && (forall q :: q in base ==> t[q] == base[q])
    && (forall k :: d < k <= i ==> p[..k] in t && t[p[..k]] == Node(MessageAt(s, root, p[..k]), base[p[..d]].included))
  }

  ghost predicate NewNode(p: Path, d: nat, i: nat, q: Path)
    requires i <= |p|
  {
    exists k :: d < k <= i && q == p[..k]
  }

  class FilterFieldsPathValidator {
    const schema: Schema
    const root: nat
    var nodes: Trie
    ghost var flags: map<Path, bool>
    ghost var initial: bool
    /** Set by the first error, which ends a run. */
    ghost var ended: bool

    constructor (schema: Schema, root: nat)
      ensures Valid() && flags == map[] && !ended && this.schema == schema && this.root == root
    {
      this.schema, this.root := schema, root;
      nodes, flags, initial, ended := map[], map[], false, false;
    }

    ghost predicate Valid()
      reads this
    {
      !ended ==>
        && (flags == map[] <==> nodes == map[])
        && (nodes != map[] ==> Represents(schema, root, nodes, flags, initial) && Alternates(flags, initial))
    }

    /** What fields get that no path mentions: the opposite of the first path. */
    ghost function Initial(included: bool): bool
      reads this
    {
      if nodes == map[] then !included else initial
    }

    /** Adds a path. A well-typed path is accepted if and only if it flips the flag
        of its longest added prefix and is no prefix of an earlier path. */
    method ValidateFieldPath(included: bool, fields: seq<FieldRef>) returns (r: Status)
      requires Valid() && !ended && fields != []
      modifies this
      ensures Valid()
      ensures r.Ok? ==> WellTyped(schema, root, fields)
      ensures WellTyped(schema, root, fields) ==>
                !r.Internal? && (r.Ok? <==> Acceptable(old(flags), old(Initial(included)), Numbers(fields), included))
      ensures initial == old(Initial(included))
      ensures old(flags) == map[] ==> initial == !included && (WellTyped(schema, root, fields) ==> r.Ok?)
      ensures old(flags) != map[] ==> initial == old(initial)
      ensures flags == if r.Ok? then old(flags)[Numbers(fields) := included] else old(flags)
      ensures ended == !r.Ok?
    {
      hide Represents, Alternates, Grown, Effective, MessageAt, Numbers, TypedAt, Acceptable;
      var p := Numbers(fields);
      initial := Initial(included);
      if nodes == map[] {
        nodes := map[[] := Node(Some(root), !included)];
        FirstNode(schema, root, included);
      }
      ghost var base, d := nodes, 0;
      GrownStart(schema, root, base, flags, initial, p);
      for i := 0 to |fields|
        invariant unchanged(this`flags, this`ended) && initial == old(Initial(included))
        invariant d <= i && p[..d] in base && Grown(schema, root, base, nodes, p, d, i)
        invariant i == |fields| ==> d < i
        invariant d < i ==> base[p[..d]].included != included
        invariant forall k :: 0 <= k < i ==> TypedAt(schema, root, fields, k)
      {
        GrownAt(schema, root, base, nodes, flags, initial, p, d, i);
        var node := nodes[p[..i]];
        if node.descriptor != Some(fields[i].container) || schema.field(fields[i].container, fields[i].number).None? {
          NotTyped(schema, root, fields, i);
          ended := true;
          return Internal;
        }
        Typed(schema, root, fields, i);
        if p[..i + 1] !in nodes {
          if node.included == included {
            NotFlipping(schema, root, base, nodes, flags, initial, p, d, i, included);
            ended := true;
            return Invalid;
          }
          GrownCreate(schema, root, base, nodes, p, d, i);
          var message := schema.field(fields[i].container, fields[i].number).value.message;
          nodes := nodes[p[..i + 1] := Node(message, node.included)];
        } else {
          GrownPast(schema, root, base, nodes, p, i);
          d := i + 1;
          if i == |fields| - 1 {
            assert p[..i + 1] == p;
            AlreadyThere(schema, root, base, flags, initial, p, included);
            ended := true;
            return Invalid;
          }
        }
      }
      WalkDone(schema, root, fields, base, nodes, flags, initial, d, included);
      nodes := nodes[p := nodes[p].(included := included)];
      flags := flags[p := included];
      assert p in flags && p in nodes;
      r := Ok;
    }

    /** Checks the required fields at a node and, through declared fields, below. */
    method RecursivelyValidateNode(p: Path) returns (ok: bool)
      requires schema.Valid() && Valid() && !ended && nodes != map[] && p in nodes
      ensures ok <==> SubtreeOk(schema, root, nodes, p)
      decreases Below(nodes, p)
    {
      hide Represents, Alternates, SubtreeOk, FieldOk, Below, MessageAt, HasChildren;
      if !HasChildren(nodes, p) {
        LeafOk(schema, root, nodes, flags, initial, p);
        return true;
      }
      NodeMessage(schema, root, nodes, flags, initial, p);
      var m := nodes[p].descriptor.value;
      var numbers := schema.declared(m);
      SubtreeStep(schema, root, nodes, flags, initial, p, m);
      for i := 0 to |numbers|
        invariant forall j :: 0 <= j < i ==> FieldOk(schema, root, nodes, p, m, numbers[j])
      {
        var n := numbers[i];
        FieldKnown(schema, m, i);
        var child := p + [n];
        var included := nodes[p].included;
        var below := true;
        if child in nodes {
          included := nodes[child].included || HasChildren(nodes, child);
          BelowShrinks(nodes, p, child);
          below := RecursivelyValidateNode(child);
          if !below {
            FieldStatus(schema, root, nodes, p, m, n);
            return false;
          }
        }
        FieldStatus(schema, root, nodes, p, m, n);
        if !included && schema.field(m, n).value.required {
          return false;
        }
      }
      ok := true;
    }

    method FinalValidation(resetClearedRequiredFields: bool) returns (r: Status)
      requires schema.Valid() && Valid() && !ended
      ensures r.Invalid? <==>
                nodes == map[] || (!resetClearedRequiredFields && !PlainKept(schema, root, flags, initial))
      ensures !r.Internal?
    {
      hide Represents, Alternates, SubtreeOk, PlainKept;
      if nodes == map[] {
        return Invalid;
      }
      if resetClearedRequiredFields {
        return Ok;
      }
      RootInTrie(schema, root, nodes, flags, initial);
      TrieDecides(schema, root, nodes, flags, initial);
      var ok := RecursivelyValidateNode([]);
      r := if ok then Ok else Invalid;
    }
  }

  lemma FirstNode(s: Schema, root: nat, included: bool)
    ensures Represents(s, root, map[[] := Node(Some(root), !included)], map[], !included)
    ensures Alternates(map[], !included)
  {
  }

  lemma GrownStart(s: Schema, root: nat, base: Trie, flags: map<Path, bool>, initial: bool, p: Path)
    requires Represents(s, root, base, flags, initial)
    ensures p[..0] in base && Grown(s, root, base, base, p, 0, 0)
  {
  }

  /** The node that the walk has reached. */
  lemma GrownAt(s: Schema, root: nat, base: Trie, t: Trie, flags: map<Path, bool>, initial: bool, p: Path, d: nat,
                i: nat)
    requires d <= i < |p| && Represents(s, root, base, flags, initial) && Grown(s, root, base, t, p, d, i)
    ensures p[..i] in t && p[..d] in base && t[p[..i]] == Node(MessageAt(s, root, p[..i]), base[p[..d]].included)
    ensures p[..i + 1] in t <==> d == i && p[..i + 1] in base
  {
    hide MessageAt, Effective;
    if d < i && p[..i + 1] in base {
      PrefixInTrie(base, p[..d + 1], p[..i + 1]);
    }
    forall k | d < k <= i
      ensures p[..k] != p[..i + 1]
    {
      assert |p[..k]| == k;
    }
  }

  lemma Typed(s: Schema, root: nat, fields: seq<FieldRef>, i: nat)
    requires i < |fields| && MessageAt(s, root, Numbers(fields)[..i]) == Some(fields[i].container)
    requires s.field(fields[i].container, fields[i].number).Some?
    ensures TypedAt(s, root, fields, i)
    ensures MessageAt(s, root, Numbers(fields)[..i + 1]) == s.field(fields[i].container, fields[i].number).value.message
  {
    var p := Numbers(fields);
    assert Parent(p[..i + 1]) == p[..i];
  }

  lemma TypedComplete(s: Schema, root: nat, fields: seq<FieldRef>)
    requires WellTyped(s, root, fields)
    ensures forall k :: 0 <= k < |fields| ==> MessageAt(s, root, Numbers(fields)[..k]).Some?
  {
    forall k | 0 <= k < |fields|
      ensures MessageAt(s, root, Numbers(fields)[..k]).Some?
    {
      assert TypedAt(s, root, fields, k);
    }
  }

  lemma NotTyped(s: Schema, root: nat, fields: seq<FieldRef>, i: nat)
    requires i < |fields|
    requires MessageAt(s, root, Numbers(fields)[..i]) != Some(fields[i].container) ||
             s.field(fields[i].container, fields[i].number).None?
    ensures !WellTyped(s, root, fields)
  {
    assert !TypedAt(s, root, fields, i);
  }

  /** Nothing was added on the way from `p[..d]` to `p[..k]`. */
  lemma FlagFrom(s: Schema, root: nat, base: Trie, flags: map<Path, bool>, initial: bool, p: Path, d: nat, k: nat)
    requires d <= k <= |p| && Represents(s, root, base, flags, initial)
    requires p[..d] in base && (d < k ==> p[..d + 1] !in base)
    ensures Effective(flags, initial, p[..k]) == Effective(flags, initial, p[..d]) == base[p[..d]].included
  {
    hide MessageAt, Effective;
    forall x | x in flags && x <= p[..k]
      ensures x <= p[..d]
    {
      if |x| > d {
        assert p[..d + 1] <= x;
        PrefixInTrie(base, p[..d + 1], x);
      } else {
        assert x == p[..k][..|x|] == p[..d][..|x|];
      }
    }
    assert p[..d] <= p[..k];
    LongestPrefixWins(flags, initial, p[..d], p[..k]);
  }

  lemma NotFlipping(s: Schema, root: nat, base: Trie, t: Trie, flags: map<Path, bool>, initial: bool, p: Path, d: nat,
                    i: nat, included: bool)
    requires d <= i < |p| && Represents(s, root, base, flags, initial) && Grown(s, root, base, t, p, d, i)
    requires p[..i] in t && p[..i + 1] !in t && t[p[..i]].included == included && d == i
    ensures !Acceptable(flags, initial, p, included)
  {
    hide MessageAt, Effective;
    FlagFrom(s, root, base, flags, initial, p, d, |p|);
    assert p[..|p|] == p;
  }

  lemma GrownCreate(s: Schema, root: nat, base: Trie, t: Trie, p: Path, d: nat, i: nat)
    requires d <= i < |p| && Grown(s, root, base, t, p, d, i) && p[..i] in t && p[..i + 1] !in t
    requires t[p[..i]].included == base[p[..d]].included
    ensures Grown(s, root, base, t[p[..i + 1] := Node(MessageAt(s, root, p[..i + 1]), t[p[..i]].included)], p, d, i + 1)
  {
    hide MessageAt;
    var t' := t[p[..i + 1] := Node(MessageAt(s, root, p[..i + 1]), t[p[..i]].included)];
    forall q
      ensures q in t' <==> q in base || NewNode(p, d, i + 1, q)
    {
      if q in t' && q !in base && q != p[..i + 1] {
        var k :| d < k <= i && q == p[..k];
        assert NewNode(p, d, i + 1, q);
      }
      if NewNode(p, d, i + 1, q) && q != p[..i + 1] {
        var k :| d < k <= i + 1 && q == p[..k];
        assert NewNode(p, d, i, q);
      }
    }
    forall k | d < k <= i + 1
      ensures p[..k] in t' && t'[p[..k]] == Node(MessageAt(s, root, p[..k]), base[p[..d]].included)
    {
      if k <= i { assert |p[..k]| != |p[..i + 1]|; }
    }
  }

  lemma GrownPast(s: Schema, root: nat, base: Trie, t: Trie, p: Path, i: nat)
    requires i < |p| && Grown(s, root, base, t, p, i, i) && p[..i + 1] in t
    ensures p[..i + 1] in base && Grown(s, root, base, t, p, i + 1, i + 1)
  {
    hide MessageAt;
    assert forall q :: !NewNode(p, i, i, q) && !NewNode(p, i + 1, i + 1, q);
  }

  /** The nodes of the trie strictly below `p`. */
  ghost function Below(t: Trie, p: Path): set<Path> {
    set q | q in t && p < q
  }

  lemma BelowShrinks(t: Trie, p: Path, c: Path)
    requires c in t && p < c
    ensures Below(t, c) < Below(t, p)
  {
    assert c in Below(t, p) && c !in Below(t, c);
  }

  /** Below every node of the trie there is an added path. */
  lemma {:induction false} AddedBelow(s: Schema, root: nat, t: Trie, flags: map<Path, bool>, initial: bool, p: Path)
      returns (a: Path)
    requires Represents(s, root, t, flags, initial) && p in t && (p != [] || HasChildren(t, p))
    ensures a in flags && p <= a
    decreases Below(t, p)
  {
    hide MessageAt, Effective, Below, Represents;
    if HasChildren(t, p) {
      var c :| c in t && c != [] && Parent(c) == p;
      BelowShrinks(t, p, c);
      a := AddedBelow(s, root, t, flags, initial, c);
    } else {
      LeafAdded(s, root, t, flags, initial, p);
      a := p;
    }
  }

  lemma LeafAdded(s: Schema, root: nat, t: Trie, flags: map<Path, bool>, initial: bool, p: Path)
    requires Represents(s, root, t, flags, initial) && p in t && p != [] && !HasChildren(t, p)
    ensures p in flags
  {
  }

  lemma AlreadyThere(s: Schema, root: nat, base: Trie, flags: map<Path, bool>, initial: bool, p: Path, included: bool)
    requires Represents(s, root, base, flags, initial) && p in base && p != []
    ensures !Acceptable(flags, initial, p, included)
  {
    var a := AddedBelow(s, root, base, flags, initial, p);
  }

  lemma WalkDone(s: Schema, root: nat, fields: seq<FieldRef>, base: Trie, t: Trie, flags: map<Path, bool>,
                 initial: bool,
                 d: nat, included: bool)
    requires Represents(s, root, base, flags, initial) && Alternates(flags, initial) && WellTyped(s, root, fields)
    requires d < |fields| && Grown(s, root, base, t, Numbers(fields), d, |fields|)
    requires Numbers(fields)[..d] in base && base[Numbers(fields)[..d]].included != included
    ensures var p := Numbers(fields);
            && Acceptable(flags, initial, p, included) && p in t
            && Represents(s, root, t[p := t[p].(included := included)], flags[p := included], initial)
            && Alternates(flags[p := included], initial)
  {
    hide Represents, Alternates, Grown, Effective, MessageAt, Numbers, WellTyped, Acceptable;
    var p := Numbers(fields);
    TypedComplete(s, root, fields);
    AddedAcceptable(s, root, base, t, flags, initial, p, d, included);
    Added(s, root, base, t, flags, initial, p, d, included);
    AddedAlternates(s, root, base, t, flags, initial, p, d, included);
  }

  /** The trie after a whole path was walked and its last node given its flag. */
  ghost predicate Complete(s: Schema, root: nat, base: Trie, t: Trie, flags: map<Path, bool>, initial: bool, p: Path,
                           d: nat, included: bool) {
    && Represents(s, root, base, flags, initial) && Alternates(flags, initial)
    && d < |p| && Grown(s, root, base, t, p, d, |p|)
    && base[p[..d]].included != included
    && forall k :: 0 <= k < |p| ==> MessageAt(s, root, p[..k]).Some?
  }

  lemma AddedAcceptable(s: Schema, root: nat, base: Trie, t: Trie, flags: map<Path, bool>, initial: bool, p: Path,
                        d: nat, included: bool)
    requires Complete(s, root, base, t, flags, initial, p, d, included)
    ensures Acceptable(flags, initial, p, included)
    ensures p !in base && forall q :: q in base ==> !(p <= q)
  {
    hide MessageAt, Effective;
    FlagFrom(s, root, base, flags, initial, p, d, |p|);
    assert p[..|p|] == p;
    forall q | q in base
      ensures !(p <= q)
    {
      if p <= q {
        assert p[..d + 1] <= q;
        PrefixInTrie(base, p[..d + 1], q);
      }
    }
  }

  lemma AddedNode(s: Schema, root: nat, base: Trie, t: Trie, flags: map<Path, bool>, initial: bool, p: Path, d: nat,
                  included: bool, q: Path)
    requires Complete(s, root, base, t, flags, initial, p, d, included) && q in t
    ensures p in t
    ensures var t' := t[p := t[p].(included := included)];
            t'[q] == Node(MessageAt(s, root, q), Effective(flags[p := included], initial, q))
    ensures q != [] ==> Parent(q) in t && MessageAt(s, root, Parent(q)).Some?
  {
    hide MessageAt, Effective, HasChildren, Represents, Alternates;
    AddedAcceptable(s, root, base, t, flags, initial, p, d, included);
    assert p[..|p|] == p;
    if q in base {
      EffectiveElsewhere(flags, initial, p, included, q);
      OldNode(s, root, base, flags, initial, q);
    } else {
      assert NewNode(p, d, |p|, q);
      var k :| d < k <= |p| && q == p[..k];
      assert Parent(q) == p[..k - 1];
      FlagAtNew(s, root, base, flags, initial, p, d, k, included);
    }
  }

  lemma OldNode(s: Schema, root: nat, t: Trie, flags: map<Path, bool>, initial: bool, q: Path)
    requires Represents(s, root, t, flags, initial) && q in t
    ensures t[q] == Node(MessageAt(s, root, q), Effective(flags, initial, q))
    ensures q != [] ==> Parent(q) in t && MessageAt(s, root, Parent(q)).Some?
  {
    hide MessageAt, Effective, HasChildren;
  }

  lemma FlagAtNew(s: Schema, root: nat, base: Trie, flags: map<Path, bool>, initial: bool, p: Path, d: nat, k: nat,
                  included: bool)
    requires d < k <= |p| && Represents(s, root, base, flags, initial) && p[..d] in base && p[..d + 1] !in base
    ensures Effective(flags[p := included], initial, p[..k]) == if k == |p| then included else base[p[..d]].included
  {
    hide MessageAt, HasChildren;
    if k == |p| {
      assert p[..k] == p;
    } else {
      assert !(p <= p[..k]);
      EffectiveElsewhere(flags, initial, p, included, p[..k]);
      FlagFrom(s, root, base, flags, initial, p, d, k);
    }
  }

  lemma Added(s: Schema, root: nat, base: Trie, t: Trie, flags: map<Path, bool>, initial: bool, p: Path, d: nat,
              included: bool)
    requires Complete(s, root, base, t, flags, initial, p, d, included)
    ensures p in t
    ensures Represents(s, root, t[p := t[p].(included := included)], flags[p := included], initial)
  {
    hide MessageAt, Effective, HasChildren;
    assert p[..|p|] == p && p in t;
    var t', flags' := t[p := t[p].(included := included)], flags[p := included];
    forall q | q in t'
      ensures t'[q] == Node(MessageAt(s, root, q), Effective(flags', initial, q))
      ensures q != [] ==> Parent(q) in t' && MessageAt(s, root, Parent(q)).Some?
    {
      AddedNode(s, root, base, t, flags, initial, p, d, included, q);
    }
    forall q | q in t' && q != []
      ensures q in flags' || HasChildren(t', q)
    {
      AddedLeaf(s, root, base, t, flags, initial, p, d, included, q);
    }
  }

  lemma AddedLeaf(s: Schema, root: nat, base: Trie, t: Trie, flags: map<Path, bool>, initial: bool, p: Path, d: nat,
                  included: bool, q: Path)
    requires Complete(s, root, base, t, flags, initial, p, d, included) && q in t && q != [] && p in t
    ensures q in flags[p := included] || HasChildren(t[p := t[p].(included := included)], q)
  {
    hide MessageAt, Effective, Grown, HasChildren;
    if q in base {
      if q !in flags {
        ChildKept(s, root, base, t, p, d, included, q);
      }
    } else {
      NewLeaf(s, root, base, t, p, d, included, q);
    }
  }

  lemma ChildKept(s: Schema, root: nat, base: Trie, t: Trie, p: Path, d: nat, included: bool, q: Path)
    requires d < |p| && Grown(s, root, base, t, p, d, |p|) && p in t && HasChildren(base, q)
    ensures HasChildren(t[p := t[p].(included := included)], q)
  {
    hide MessageAt, NewNode;
    var c :| c in base && c != [] && Parent(c) == q;
    assert c in t;
  }

  lemma NewLeaf(s: Schema, root: nat, base: Trie, t: Trie, p: Path, d: nat, included: bool, q: Path)
    requires d < |p| && Grown(s, root, base, t, p, d, |p|) && p in t && q in t && q !in base
    ensures q == p || HasChildren(t[p := t[p].(included := included)], q)
  {
    hide MessageAt;
    var k :| d < k <= |p| && q == p[..k];
    if k < |p| {
      var c := p[..k + 1];
      assert c in t && Parent(c) == q;
    }
  }

  lemma GrownFrom(s: Schema, root: nat, base: Trie, t: Trie, p: Path, d: nat)
    requires d < |p| && Grown(s, root, base, t, p, d, |p|)
    ensures p[..d] in base && p[..d + 1] !in base
  {
  }

  lemma AddedAlternates(s: Schema, root: nat, base: Trie, t: Trie, flags: map<Path, bool>, initial: bool, p: Path,
                        d: nat, included: bool)
    requires Complete(s, root, base, t, flags, initial, p, d, included)
    ensures Alternates(flags[p := included], initial)
  {
    hide MessageAt, Effective, HasChildren, Grown, Acceptable;
    AddedAcceptable(s, root, base, t, flags, initial, p, d, included);
    forall a | a in flags[p := included]
      ensures a != [] && flags[p := included][a] != Effective(flags[p := included], initial, Parent(a))
    {
      if a != p {
        assert Parent(a) in base;
        EffectiveElsewhere(flags, initial, p, included, Parent(a));
      } else {
        assert !(p <= Parent(p));
        EffectiveElsewhere(flags, initial, p, included, Parent(p));
        GrownFrom(s, root, base, t, p, d);
        FlagFrom(s, root, base, flags, initial, p, d, |p| - 1);
      }
    }
  }

  // ----- Looking up -----

  /** The flag of the deepest node of the trie on the way to `p`. */
  function Find(t: Trie, p: Path): bool
    requires [] in t
  {
    if p in t then t[p].included else Find(t, Parent(p))
  }

  /** A trie lookup gives the flag of the longest added prefix. */
  lemma {:induction false} FindIsEffective(s: Schema, root: nat, t: Trie, flags: map<Path, bool>, initial: bool,
                                           p: Path)
    requires Represents(s, root, t, flags, initial)
    ensures Find(t, p) == Effective(flags, initial, p)
    decreases |p|
  {
    hide MessageAt, HasChildren;
    if p !in t {
      FindIsEffective(s, root, t, flags, initial, Parent(p));
    }
  }

  // ----- Required fields -----

  /** A required field of a message that is retained is retained, for messages at
      any depth of the schema. */
  ghost predicate RequiredKept(s: Schema, root: nat, flags: map<Path, bool>, initial: bool) {
    forall p, n :: Required(s, root, p, n) && Retained(flags, initial, p) ==> Retained(flags, initial, p + [n])
  }

  /** The same, for messages that are reached through declared fields only. */
  ghost predicate PlainKept(s: Schema, root: nat, flags: map<Path, bool>, initial: bool) {
    forall p, n :: Plain(s, root, [], p) && Required(s, root, p, n) && Retained(flags, initial, p) ==>
      Retained(flags, initial, p + [n])
  }

  ghost predicate Required(s: Schema, root: nat, p: Path, n: int) {
    var m := MessageAt(s, root, p);
    m.Some? && s.field(m.value, n).Some? && s.field(m.value, n).value.required
  }

  /** The way from `p` to `q` goes through declared fields. */
  ghost predicate Plain(s: Schema, root: nat, p: Path, q: Path) {
    p <= q && forall k :: |p| <= k < |q| ==> DeclaredAt(s, root, q, k)
  }

  ghost predicate DeclaredAt(s: Schema, root: nat, q: Path, k: nat)
    requires k < |q|
  {
    var m := MessageAt(s, root, q[..k]);
    m.Some? && q[k] in s.declared(m.value)
  }

  /** What the trie says about a field of a node. */
  predicate Kept(t: Trie, p: Path, n: int)
    requires p in t
  {
    if p + [n] in t then t[p + [n]].included || HasChildren(t, p + [n]) else t[p].included
  }

  ghost predicate NodeOk(s: Schema, root: nat, t: Trie, q: Path)
    requires q in t
  {
    HasChildren(t, q) ==> forall n :: Required(s, root, q, n) ==> Kept(t, q, n)
  }

  ghost predicate SubtreeOk(s: Schema, root: nat, t: Trie, p: Path) {
    forall q :: q in t && Plain(s, root, p, q) ==> NodeOk(s, root, t, q)
  }

  ghost predicate FieldOk(s: Schema, root: nat, t: Trie, p: Path, m: nat, n: int)
    requires p in t
  {
    && (Required(s, root, p, n) ==> Kept(t, p, n))
    && (p + [n] in t ==> SubtreeOk(s, root, t, p + [n]))
  }

  lemma RootInTrie(s: Schema, root: nat, t: Trie, flags: map<Path, bool>, initial: bool)
    requires Represents(s, root, t, flags, initial)
    ensures [] in t
  {
  }

  lemma NodeMessage(s: Schema, root: nat, t: Trie, flags: map<Path, bool>, initial: bool, p: Path)
    requires Represents(s, root, t, flags, initial) && p in t && HasChildren(t, p)
    ensures MessageAt(s, root, p).Some? && t[p].descriptor == MessageAt(s, root, p)
  {
    hide MessageAt, Effective;
    var c :| c in t && c != [] && Parent(c) == p;
  }

  lemma FieldKnown(s: Schema, m: nat, i: nat)
    requires s.Valid() && i < |s.declared(m)|
    ensures s.field(m, s.declared(m)[i]).Some?
  {
    var n := s.declared(m)[i];
    assert n in s.declared(m);
    assert s.field(m, n).Some?;
  }

  lemma FieldStatus(s: Schema, root: nat, t: Trie, p: Path, m: nat, n: int)
    requires p in t && MessageAt(s, root, p) == Some(m) && s.field(m, n).Some?
    ensures FieldOk(s, root, t, p, m, n) <==>
            && (s.field(m, n).value.required ==>
                  if p + [n] in t then t[p + [n]].included || HasChildren(t, p + [n]) else t[p].included)
            && (p + [n] in t ==> SubtreeOk(s, root, t, p + [n]))
  {
    hide SubtreeOk, HasChildren, MessageAt;
  }

  lemma LeafOk(s: Schema, root: nat, t: Trie, flags: map<Path, bool>, initial: bool, p: Path)
    requires Represents(s, root, t, flags, initial) && p in t && !HasChildren(t, p)
    ensures SubtreeOk(s, root, t, p)
  {
    hide MessageAt, Effective, HasChildren;
    forall q | q in t && Plain(s, root, p, q)
      ensures q == p
    {
      NothingBelow(s, root, t, flags, initial, p, q);
    }
  }

  lemma NothingBelow(s: Schema, root: nat, t: Trie, flags: map<Path, bool>, initial: bool, p: Path, q: Path)
    requires Represents(s, root, t, flags, initial) && !HasChildren(t, p) && q in t
    ensures !(p < q)
  {
    hide MessageAt, Effective, HasChildren;
    if p < q {
      ChildTowards(t, p, q);
    }
  }

  /** A subtree is in order when every declared field of its root is. */
  lemma SubtreeStep(s: Schema, root: nat, t: Trie, flags: map<Path, bool>, initial: bool, p: Path, m: nat)
    requires s.Valid() && Represents(s, root, t, flags, initial)
    requires p in t && HasChildren(t, p) && MessageAt(s, root, p) == Some(m)
    ensures SubtreeOk(s, root, t, p) <==>
            forall j :: 0 <= j < |s.declared(m)| ==> FieldOk(s, root, t, p, m, s.declared(m)[j])
  {
    hide MessageAt, Effective, HasChildren, NodeOk, Kept;
    var numbers := s.declared(m);
    if SubtreeOk(s, root, t, p) {
      forall j | 0 <= j < |numbers|
        ensures FieldOk(s, root, t, p, m, numbers[j])
      {
        SubtreeDown(s, root, t, p, m, numbers[j]);
      }
    }
    if forall j :: 0 <= j < |numbers| ==> FieldOk(s, root, t, p, m, numbers[j]) {
      forall q | q in t && Plain(s, root, p, q)
        ensures NodeOk(s, root, t, q)
      {
        if q == p {
          NodeFromFields(s, root, t, p, m);
        } else {
          var j := NextField(s, root, t, flags, initial, p, m, q);
          assert FieldOk(s, root, t, p, m, numbers[j]);
        }
      }
    }
  }

  lemma SubtreeDown(s: Schema, root: nat, t: Trie, p: Path, m: nat, n: int)
    requires SubtreeOk(s, root, t, p) && p in t && HasChildren(t, p)
    requires MessageAt(s, root, p) == Some(m) && n in s.declared(m)
    ensures FieldOk(s, root, t, p, m, n)
  {
    hide MessageAt, HasChildren, Kept;
    assert Plain(s, root, p, p);
    assert NodeOk(s, root, t, p);
    var c := p + [n];
    forall q | q in t && Plain(s, root, c, q)
      ensures NodeOk(s, root, t, q)
    {
      assert DeclaredAt(s, root, q, |p|) by { assert q[..|p|] == p && q[|p|] == n; }
      assert Plain(s, root, p, q);
    }
  }

  lemma NodeFromFields(s: Schema, root: nat, t: Trie, p: Path, m: nat)
    requires s.Valid() && p in t && MessageAt(s, root, p) == Some(m)
    requires forall j :: 0 <= j < |s.declared(m)| ==> FieldOk(s, root, t, p, m, s.declared(m)[j])
    ensures NodeOk(s, root, t, p)
  {
    hide MessageAt, HasChildren, Kept, SubtreeOk;
    forall n | Required(s, root, p, n)
      ensures Kept(t, p, n)
    {
      assert n in s.declared(m);
      var j :| 0 <= j < |s.declared(m)| && s.declared(m)[j] == n;
      assert FieldOk(s, root, t, p, m, s.declared(m)[j]);
    }
  }

  /** The declared field through which the way to `q` goes. */
  lemma NextField(s: Schema, root: nat, t: Trie, flags: map<Path, bool>, initial: bool, p: Path, m: nat, q: Path)
      returns (j: nat)
    requires Represents(s, root, t, flags, initial) && q in t && p < q
    requires Plain(s, root, p, q) && MessageAt(s, root, p) == Some(m)
    ensures j < |s.declared(m)| && p + [s.declared(m)[j]] in t && Plain(s, root, p + [s.declared(m)[j]], q)
  {
    hide MessageAt, Effective, HasChildren;
    assert DeclaredAt(s, root, q, |p|) && q[..|p|] == p;
    j :| 0 <= j < |s.declared(m)| && s.declared(m)[j] == q[|p|];
    ChildTowards(t, p, q);
    assert q[..|p| + 1] == p + [q[|p|]];
  }

  // ----- The trie decides -----

  /** No added path lies strictly below `p`, so everything below has its flag. */
  lemma RetainedFlat(s: Schema, root: nat, t: Trie, flags: map<Path, bool>, initial: bool, p: Path)
    requires Represents(s, root, t, flags, initial) && (p !in t || !HasChildren(t, p))
    ensures Retained(flags, initial, p) <==> Effective(flags, initial, p)
    ensures forall q :: p <= q ==> Effective(flags, initial, q) == Effective(flags, initial, p)
  {
    hide MessageAt, Effective, HasChildren;
    forall q | p <= q
      ensures Effective(flags, initial, q) == Effective(flags, initial, p)
    {
      forall x | x in flags && x <= q
        ensures x <= p
      {
        if p < x {
          PrefixInTrie(t, p, x);
          ChildTowards(t, p, x);
        }
      }
      LongestPrefixWins(flags, initial, p, q);
    }
    assert p <= p;
  }

  /** A node with children is retained: on the way down the flags alternate. */
  lemma ParentRetained(s: Schema, root: nat, t: Trie, flags: map<Path, bool>, initial: bool, p: Path)
    requires Represents(s, root, t, flags, initial) && Alternates(flags, initial) && p in t && HasChildren(t, p)
    ensures Retained(flags, initial, p)
  {
    hide MessageAt, Effective;
    var c :| c in t && c != [] && Parent(c) == p;
    var a := AddedBelow(s, root, t, flags, initial, c);
    assert p <= c <= a && p <= Parent(a);
    assert Effective(flags, initial, a) == flags[a] by { AddedFlag(flags, initial, a); }
    assert flags[a] != Effective(flags, initial, Parent(a));
  }

  lemma AddedFlag(flags: map<Path, bool>, initial: bool, a: Path)
    requires a in flags
    ensures Effective(flags, initial, a) == flags[a]
  {
  }

  /** What the trie says about a field is whether it is retained. */
  lemma KeptIsRetained(s: Schema, root: nat, t: Trie, flags: map<Path, bool>, initial: bool, p: Path, n: int)
    requires Represents(s, root, t, flags, initial) && Alternates(flags, initial) && p in t
    ensures Kept(t, p, n) <==> Retained(flags, initial, p + [n])
  {
    hide MessageAt, Effective, HasChildren, Retained, Alternates;
    var c := p + [n];
    if c in t && HasChildren(t, c) {
      ParentRetained(s, root, t, flags, initial, c);
    } else {
      RetainedFlat(s, root, t, flags, initial, c);
      if c !in t {
        forall x | x in flags && x <= c
          ensures x <= p
        {
          assert x != c;
        }
        LongestPrefixWins(flags, initial, p, c);
      }
    }
  }

  /** One message, at a node with children or anywhere else. */
  lemma MessageDecided(s: Schema, root: nat, t: Trie, flags: map<Path, bool>, initial: bool, p: Path)
    requires Represents(s, root, t, flags, initial) && Alternates(flags, initial)
    ensures (p in t ==> NodeOk(s, root, t, p)) <==>
            (forall n :: Required(s, root, p, n) && Retained(flags, initial, p) ==> Retained(flags, initial, p + [n]))
  {
    hide MessageAt, Effective, HasChildren, Retained, Alternates, Represents, Required, Kept;
    if p in t && HasChildren(t, p) {
      ParentRetained(s, root, t, flags, initial, p);
      forall n
        ensures Kept(t, p, n) <==> Retained(flags, initial, p + [n])
      {
        KeptIsRetained(s, root, t, flags, initial, p, n);
      }
    } else {
      RetainedFlat(s, root, t, flags, initial, p);
      forall n | Retained(flags, initial, p)
        ensures Retained(flags, initial, p + [n])
      {
        assert p <= p + [n];
        SelfRetained(flags, initial, p + [n]);
      }
    }
  }

  lemma SelfRetained(flags: map<Path, bool>, initial: bool, p: Path)
    requires Effective(flags, initial, p)
    ensures Retained(flags, initial, p)
  {
    assert p <= p;
  }

  /** Walking the trie through declared fields decides whether every required field
      of every retained message that such fields reach is retained. */
  lemma TrieDecides(s: Schema, root: nat, t: Trie, flags: map<Path, bool>, initial: bool)
    requires Represents(s, root, t, flags, initial) && Alternates(flags, initial)
    ensures SubtreeOk(s, root, t, []) <==> PlainKept(s, root, flags, initial)
  {
    hide MessageAt, Effective, HasChildren, Retained, Alternates, Represents, Required, Kept, NodeOk, Plain;
    if SubtreeOk(s, root, t, []) {
      forall p, n | Plain(s, root, [], p) && Required(s, root, p, n) && Retained(flags, initial, p)
        ensures Retained(flags, initial, p + [n])
      {
        MessageDecided(s, root, t, flags, initial, p);
      }
    }
    if PlainKept(s, root, flags, initial) {
      forall q | q in t && Plain(s, root, [], q)
        ensures NodeOk(s, root, t, q)
      {
        MessageDecided(s, root, t, flags, initial, q);
      }
    }
  }

  // ----- Extensions are not followed -----

  /** The field or something in it is named by the added paths. */
  ghost predicate KeptByPaths(flags: map<Path, bool>, initial: bool, c: Path) {
    Effective(flags, initial, c) || exists a :: a in flags && c < a
  }

  /** The required fields of the messages that the check does not visit, because an
      extension on an added path leads to them, are kept by the added paths. */
  ghost predicate UnvisitedOk(s: Schema, root: nat, flags: map<Path, bool>, initial: bool) {
    forall a, k :: a in flags && 0 <= k < |a| ==> UnvisitedAt(s, root, flags, initial, a[..k])
  }

  ghost predicate UnvisitedAt(s: Schema, root: nat, flags: map<Path, bool>, initial: bool, q: Path) {
    !Plain(s, root, [], q) ==> forall n :: Required(s, root, q, n) ==> KeptByPaths(flags, initial, q + [n])
  }

  /** The nodes with children are the proper prefixes of the added paths. */
  lemma ChildrenIffPrefix(s: Schema, root: nat, t: Trie, flags: map<Path, bool>, initial: bool, q: Path)
    requires Represents(s, root, t, flags, initial)
    ensures q in t && HasChildren(t, q) <==> exists a :: a in flags && q < a
  {
    hide MessageAt, Effective;
    if q in t && HasChildren(t, q) {
      var c :| c in t && c != [] && Parent(c) == q;
      var a := AddedBelow(s, root, t, flags, initial, c);
      assert q < c <= a;
    }
    if a :| a in flags && q < a {
      PrefixInTrie(t, q, a);
      ChildTowards(t, q, a);
    }
  }

  /** What the trie says about a field, on the added paths. */
  lemma KeptIffPaths(s: Schema, root: nat, t: Trie, flags: map<Path, bool>, initial: bool, q: Path, n: int)
    requires Represents(s, root, t, flags, initial) && q in t
    ensures Kept(t, q, n) <==> KeptByPaths(flags, initial, q + [n])
  {
    hide MessageAt, Effective, HasChildren;
    var c := q + [n];
    ChildrenIffPrefix(s, root, t, flags, initial, c);
    if c !in t {
      forall x | x in flags && x <= c
        ensures x <= q
      {
        assert x != c;
      }
      LongestPrefixWins(flags, initial, q, c);
    }
  }

  lemma UnvisitedNodes(s: Schema, root: nat, t: Trie, flags: map<Path, bool>, initial: bool)
    requires Represents(s, root, t, flags, initial)
    ensures UnvisitedOk(s, root, flags, initial) <==>
              forall q :: q in t && !Plain(s, root, [], q) ==> NodeOk(s, root, t, q)
  {
    hide MessageAt, Effective, HasChildren, Represents, Required, Kept, KeptByPaths, Plain;
    forall q
      ensures q in t && HasChildren(t, q) <==> exists a :: a in flags && q < a
    {
      ChildrenIffPrefix(s, root, t, flags, initial, q);
    }
    forall q, n | q in t
      ensures Kept(t, q, n) <==> KeptByPaths(flags, initial, q + [n])
    {
      KeptIffPaths(s, root, t, flags, initial, q, n);
    }
    if UnvisitedOk(s, root, flags, initial) {
      forall q | q in t && !Plain(s, root, [], q)
        ensures NodeOk(s, root, t, q)
      {
        if HasChildren(t, q) {
          var a :| a in flags && q < a;
          assert q == a[..|q|];
          assert UnvisitedAt(s, root, flags, initial, q);
        }
      }
    }
    if forall q :: q in t && !Plain(s, root, [], q) ==> NodeOk(s, root, t, q) {
      forall a, k | a in flags && 0 <= k < |a|
        ensures UnvisitedAt(s, root, flags, initial, a[..k])
      {
        assert a[..k] < a;
      }
    }
  }

  /** The check decides the property for all retained messages exactly when the
      messages behind extensions, which it does not visit, are in order. */
  lemma KeptIffUnvisitedOk(s: Schema, root: nat, t: Trie, flags: map<Path, bool>, initial: bool)
    requires Represents(s, root, t, flags, initial) && Alternates(flags, initial)
    ensures RequiredKept(s, root, flags, initial) <==>
              PlainKept(s, root, flags, initial) && UnvisitedOk(s, root, flags, initial)
  {
    hide MessageAt, Effective, HasChildren, Retained, Alternates, Represents, Required, Kept, NodeOk, Plain,
         UnvisitedOk;
    UnvisitedNodes(s, root, t, flags, initial);
    if RequiredKept(s, root, flags, initial) {
      forall q | q in t && !Plain(s, root, [], q)
        ensures NodeOk(s, root, t, q)
      {
        MessageDecided(s, root, t, flags, initial, q);
      }
    }
    if PlainKept(s, root, flags, initial) && UnvisitedOk(s, root, flags, initial) {
      forall p, n | Required(s, root, p, n) && Retained(flags, initial, p)
        ensures Retained(flags, initial, p + [n])
      {
        MessageDecided(s, root, t, flags, initial, p);
      }
    }
  }

  /** No added path goes on from an extension. */
  ghost predicate ExtensionsLast(s: Schema, root: nat, flags: map<Path, bool>) {
    forall a :: a in flags ==> a != [] && Plain(s, root, [], Parent(a))
  }

  /** Without paths that go on from an extension the check is exact. */
  lemma KeptWithoutExtensions(s: Schema, root: nat, t: Trie, flags: map<Path, bool>, initial: bool)
    requires Represents(s, root, t, flags, initial) && Alternates(flags, initial) && ExtensionsLast(s, root, flags)
    ensures RequiredKept(s, root, flags, initial) <==> PlainKept(s, root, flags, initial)
  {
    hide Represents, Alternates, RequiredKept, PlainKept, KeptByPaths, Required, MessageAt;
    forall a, k | a in flags && 0 <= k < |a|
      ensures UnvisitedAt(s, root, flags, initial, a[..k])
    {
      PlainPrefix(s, root, Parent(a), a[..k]);
    }
    KeptIffUnvisitedOk(s, root, t, flags, initial);
  }

  lemma PlainPrefix(s: Schema, root: nat, p: Path, q: Path)
    requires Plain(s, root, [], p) && q <= p
    ensures Plain(s, root, [], q)
  {
    hide MessageAt;
    forall k | 0 <= k < |q|
      ensures DeclaredAt(s, root, q, k)
    {
      assert DeclaredAt(s, root, p, k) && p[..k] == q[..k];
    }
  }

  /** Message 0 has an extension 1 of type message 1; message 1 declares a required
      field 1 and an optional field 2. */
  const EXTENDED := Schema(
    (m, n) =>
      if m == 0 && n == 1 then Some(Field(false, true, Some(1)))
      else if m == 1 && n == 1 then Some(Field(true, false, None))
      else if m == 1 && n == 2 then Some(Field(false, false, None))
      else None,
    m => if m == 1 then [1, 2] else [])

  /** Including only `(extension).2` clears the required field next to it, and the
      check does not see it. */
  lemma ExtensionHidesRequired()
    ensures EXTENDED.Valid()
    ensures Acceptable(map[], false, [1, 2], true)
    ensures PlainKept(EXTENDED, 0, map[[1, 2] := true], false)
    ensures !RequiredKept(EXTENDED, 0, map[[1, 2] := true], false)
  {
    var flags: map<Path, bool> := map[[1, 2] := true];
    assert Parent([1, 2]) == [1] && Parent([1]) == [];
    forall p, n
      ensures !(Plain(EXTENDED, 0, [], p) && Required(EXTENDED, 0, p, n))
    {
      assert p != [] ==> p[..0] == [] && !DeclaredAt(EXTENDED, 0, p, 0);
    }
    assert Required(EXTENDED, 0, [1], 1);
    assert Effective(flags, false, [1, 2]) && [1] <= [1, 2];
    assert Retained(flags, false, [1]);
    forall q | [1] + [1] <= q
      ensures !Effective(flags, false, q)
    {
      assert q[1] == 1;
      LongestPrefixWins(flags, false, [], q);
    }
    assert !Retained(flags, false, [1] + [1]);
  }
}
