/** Comparison and hashing of generalized field paths.
 */
module FieldPaths {
  import opened Types
  import opened ExprMatching

  datatype MatchingOption = Expression | FieldPath | UpdateItemElement

  /** Whether two paths match. Only proto, struct and JSON accesses over column and
      argument references can. */
  predicate IsSameFieldPath(a: Expr, b: Expr, option: MatchingOption)
    decreases a
  {
    NodeKind(a) == NodeKind(b) && a.typ.kind == b.typ.kind &&
    match a
    case GetProtoField(t, e, n, d, h, f, u) =>
      && e.typ.kind == b.expr.typ.kind && n == b.number && d == b.defaultValue && h == b.hasBit && f == b.format
      && u == b.defaultWhenUnset && IsSameFieldPath(e, b.expr, option)
      && (option.FieldPath? || (t == b.typ && e.typ == b.expr.typ))
    case GetStructField(t, e, i, _) =>
      && e.typ.kind == b.expr.typ.kind && i == b.index && IsSameFieldPath(e, b.expr, option)
      && (option.FieldPath? || t == b.typ)
    case ColumnRef(_, c, _) => option.UpdateItemElement? || c == b.column
    case ArgumentRef(t, n, k) => n == b.name && k == b.argumentKind && t == b.typ
    case GetJsonField(t, e, n) => n == b.name && t == b.typ && IsSameFieldPath(e, b.expr, option)
    case _ => false
  }

  /** What is hashed at a node; `rest` is the hash of the rest of the path. */
  datatype HashInput<H> =
    | NumberedField(nodeKind: nat, typeKind: nat, number: int, rest: H)
    | NamedField(nodeKind: nat, typeKind: nat, name: string, rest: H)
    | Property(nodeKind: nat, typeKind: nat, property: nat, propertyName: H, rest: H)
    | Column(nodeKind: nat, id: nat)
    | Node(nodeKind: nat)

  /** The hash of a path by a hash function; `none` stands for a missing property name. */
  function FieldPathHash<H>(hash: HashInput<H> -> H, none: H, e: Expr): H
    decreases e
  {
    match e
    case GetProtoField(t, e1, n, _, _, _, _) =>
      hash(NumberedField(NodeKind(e), t.kind, n, FieldPathHash(hash, none, e1)))
    case GetStructField(t, e1, i, _) => hash(NumberedField(NodeKind(e), t.kind, i, FieldPathHash(hash, none, e1)))
    case GetRowField(t, e1, c) => hash(NumberedField(NodeKind(e), t.kind, c, FieldPathHash(hash, none, e1)))
    case GetJsonField(t, e1, n) => hash(NamedField(NodeKind(e), t.kind, n, FieldPathHash(hash, none, e1)))
    case GetElementProperty(t, e1, n, p) =>
      var name := if n.None? then none else FieldPathHash(hash, none, n.value);
      hash(Property(NodeKind(e), t.kind, p, name, FieldPathHash(hash, none, e1)))
    case ColumnRef(_, c, _) => hash(Column(NodeKind(e), c))
    case _ => hash(Node(NodeKind(e)))
  }

  /** What a hash can tell: the same accesses, in kind, kind of type and field, from the
      same column. */
  predicate SameAccesses(a: Expr, b: Expr)
    decreases a
  {
    NodeKind(a) == NodeKind(b) &&
    match a
    case GetProtoField(t, e, n, _, _, _, _) => t.kind == b.typ.kind && n == b.number && SameAccesses(e, b.expr)
    case GetStructField(t, e, i, _) => t.kind == b.typ.kind && i == b.index && SameAccesses(e, b.expr)
    case GetRowField(t, e, c) => t.kind == b.typ.kind && c == b.column && SameAccesses(e, b.expr)
    case GetJsonField(t, e, n) => t.kind == b.typ.kind && n == b.name && SameAccesses(e, b.expr)
    case GetElementProperty(t, e, n, p) =>
      && t.kind == b.typ.kind && p == b.property && SameAccesses(e, b.expr)
      && (n.None? <==> b.propertyName.None?) && (n.Some? ==> SameAccesses(n.value, b.propertyName.value))
    case ColumnRef(_, c, _) => c == b.column
    case _ => true
  }

  /** A hash that keeps everything. */
  datatype HashTree = NoName | Hashed(input: HashInput<HashTree>)

  const KEEP: HashInput<HashTree> -> HashTree := h => Hashed(h)

  lemma {:induction false} SameAccessesSameHash<H>(hash: HashInput<H> -> H, none: H, a: Expr, b: Expr)
    requires SameAccesses(a, b)
    ensures FieldPathHash(hash, none, a) == FieldPathHash(hash, none, b)
    decreases a
  {
    match a {
      case GetProtoField(_, e, _, _, _, _, _) => SameAccessesSameHash(hash, none, e, b.expr);
      case GetStructField(_, e, _, _) => SameAccessesSameHash(hash, none, e, b.expr);
      case GetRowField(_, e, _) => SameAccessesSameHash(hash, none, e, b.expr);
      case GetJsonField(_, e, _) => SameAccessesSameHash(hash, none, e, b.expr);
      case GetElementProperty(_, e, n, _) =>
        SameAccessesSameHash(hash, none, e, b.expr);
        if n.Some? { SameAccessesSameHash(hash, none, n.value, b.propertyName.value); }
      case _ =>
    }
  }

  /** The hash depends on the accesses and the column of a path and on nothing else:
      every hash function agrees on the same accesses, and one that keeps everything
      tells different ones apart. */
  lemma {:induction false} HashTellsAccesses(a: Expr, b: Expr)
    ensures FieldPathHash(KEEP, NoName, a) == FieldPathHash(KEEP, NoName, b) <==> SameAccesses(a, b)
    decreases a
  {
    if SameAccesses(a, b) {
      SameAccessesSameHash(KEEP, NoName, a, b);
    }
    if FieldPathHash(KEEP, NoName, a) == FieldPathHash(KEEP, NoName, b) {
      SameHashedNode(a, b);
      match a {
        case GetProtoField(_, e, _, _, _, _, _) => HashTellsAccesses(e, b.expr);
        case GetStructField(_, e, _, _) => HashTellsAccesses(e, b.expr);
        case GetRowField(_, e, _) => HashTellsAccesses(e, b.expr);
        case GetJsonField(_, e, _) => HashTellsAccesses(e, b.expr);
        case GetElementProperty(_, e, n, _) =>
          HashTellsAccesses(e, b.expr);
          if n.Some? && b.propertyName.Some? { HashTellsAccesses(n.value, b.propertyName.value); }
        case _ =>
      }
    }
  }

  lemma SameHashedNode(a: Expr, b: Expr)
    requires FieldPathHash(KEEP, NoName, a) == FieldPathHash(KEEP, NoName, b)
    ensures NodeKind(a) == NodeKind(b)
  {
    HashedKind(a);
    HashedKind(b);
  }

  lemma HashedKind(e: Expr)
    ensures FieldPathHash(KEEP, NoName, e).Hashed? && FieldPathHash(KEEP, NoName, e).input.nodeKind == NodeKind(e)
  {
  }

  lemma {:induction false} SamePathSameAccesses(a: Expr, b: Expr, option: MatchingOption)
    requires IsSameFieldPath(a, b, option) && !option.UpdateItemElement?
    ensures SameAccesses(a, b)
    decreases a
  {
    match a {
      case GetProtoField(_, e, _, _, _, _, _) => SamePathSameAccesses(e, b.expr, option);
      case GetStructField(_, e, _, _) => SamePathSameAccesses(e, b.expr, option);
      case GetJsonField(_, e, _) => SamePathSameAccesses(e, b.expr, option);
      case _ =>
    }
  }

  /** Paths that match have the same hash, for every hash function, unless columns
      are left out of the comparison. */
  lemma SamePathSameHash<H>(hash: HashInput<H> -> H, none: H, a: Expr, b: Expr, option: MatchingOption)
    requires IsSameFieldPath(a, b, option) && !option.UpdateItemElement?
    ensures FieldPathHash(hash, none, a) == FieldPathHash(hash, none, b)
  {
    SamePathSameAccesses(a, b, option);
    SameAccessesSameHash(hash, none, a, b);
  }

  /** The column that a path starts from, if it starts from one. */
  function Root(e: Expr): Option<nat>
    decreases e
  {
    match e
    case GetProtoField(_, e1, _, _, _, _, _) => Root(e1)
    case GetStructField(_, e1, _, _) => Root(e1)
    case GetJsonField(_, e1, _) => Root(e1)
    case ColumnRef(_, c, _) => Some(c)
    case _ => None
  }

  /** A hash that passes the column of the root through. */
  function RootHash(h: HashInput<nat>): nat {
    match h
    case NumberedField(_, _, _, rest) => rest
    case NamedField(_, _, _, rest) => rest
    case Property(_, _, _, _, rest) => rest
    case Column(_, id) => id
    case Node(_) => 0
  }

  lemma {:induction false} SameRootSamePath(a: Expr, b: Expr)
    requires IsSameFieldPath(a, b, UpdateItemElement) && Root(a) == Root(b)
    ensures IsSameFieldPath(a, b, Expression)
    decreases a
  {
    match a {
      case GetProtoField(_, e, _, _, _, _, _) => SameRootSamePath(e, b.expr);
      case GetStructField(_, e, _, _) => SameRootSamePath(e, b.expr);
      case GetJsonField(_, e, _) => SameRootSamePath(e, b.expr);
      case _ =>
    }
  }

  lemma {:induction false} RootsHashed(a: Expr, b: Expr)
    requires IsSameFieldPath(a, b, UpdateItemElement)
    ensures FieldPathHash(RootHash, 0, a) == FieldPathHash(RootHash, 0, b) <==> Root(a) == Root(b)
    ensures Root(a).Some? <==> Root(b).Some?
    decreases a
  {
    match a {
      case GetProtoField(_, e, _, _, _, _, _) => RootsHashed(e, b.expr);
      case GetStructField(_, e, _, _) => RootsHashed(e, b.expr);
      case GetJsonField(_, e, _) => RootsHashed(e, b.expr);
      case _ =>
    }
  }

  /** When columns are left out of the comparison, matching paths hash equally under
      every hash function exactly when they start from the same column. */
  lemma UpdateItemsHashIffSameRoot(a: Expr, b: Expr)
    requires IsSameFieldPath(a, b, UpdateItemElement)
    ensures (forall hash: HashInput<nat> -> nat :: FieldPathHash(hash, 0, a) == FieldPathHash(hash, 0, b)) <==>
              Root(a) == Root(b)
  {
    hide FieldPathHash, IsSameFieldPath, Root;
    RootsHashed(a, b);
    if Root(a) == Root(b) {
      SameRootSamePath(a, b);
      forall hash: HashInput<nat> -> nat
        ensures FieldPathHash(hash, 0, a) == FieldPathHash(hash, 0, b)
      {
        SamePathSameHash(hash, 0, a, b, Expression);
      }
    }
  }

  /** Two columns match as update items and hash differently. */
  lemma UpdateItemsMayHashDifferently()
    ensures var a, b := ColumnRef(ExprType(0, 0), 1, false), ColumnRef(ExprType(0, 0), 2, false);
            IsSameFieldPath(a, b, UpdateItemElement) && FieldPathHash(RootHash, 0, a) != FieldPathHash(RootHash, 0, b)
  {
    var a, b := ColumnRef(ExprType(0, 0), 1, false), ColumnRef(ExprType(0, 0), 2, false);
    RootsHashed(a, b);
  }

  /** Paths that match as expressions are interchangeable. */
  lemma {:induction false} SamePathSameValue(env: Environment, a: Expr, b: Expr)
    requires IsSameFieldPath(a, b, Expression)
    ensures Eval(env, a) == Eval(env, b)
    decreases a
  {
    match a {
      case GetProtoField(_, e, _, _, _, _, _) => SamePathSameValue(env, e, b.expr);
      case GetStructField(_, e, _, _) => SamePathSameValue(env, e, b.expr);
      case GetJsonField(_, e, _) => SamePathSameValue(env, e, b.expr);
      case _ =>
    }
  }

  /** Proto, struct and JSON accesses over a column or an argument. */
  predicate SimplePath(e: Expr)
    decreases e
  {
    match e
    case GetProtoField(_, e1, _, _, _, _, _) => SimplePath(e1)
    case GetStructField(_, e1, _, _) => SimplePath(e1)
    case GetJsonField(_, e1, _) => SimplePath(e1)
    case ColumnRef(_, _, _) => true
    case ArgumentRef(_, _, _) => true
    case _ => false
  }

  // ----- What the options compare -----

  /** A path as an option sees it. Of a column only the kind of its type counts. */
  datatype PathShape =
    | ColumnShape(kind: nat, column: Option<nat>)
    | ArgumentShape(typ: ExprType, name: string, argumentKind: nat)
    | ProtoShape(kind: nat, types: Option<(ExprType, ExprType)>, field: (int, int, bool, nat, bool), inner: PathShape)
    | StructShape(kind: nat, fieldType: Option<ExprType>, index: nat, inner: PathShape)
    | JsonShape(typ: ExprType, name: string, inner: PathShape)
    | NoShape

  /** `FieldPath` sees only the kinds of the types of proto and struct accesses, and
      `UpdateItemElement` does not see the column. */
  function Shape(e: Expr, option: MatchingOption): PathShape
    decreases e
  {
    match e
    case ColumnRef(t, c, _) => ColumnShape(t.kind, if option.UpdateItemElement? then None else Some(c))
    case ArgumentRef(t, n, k) => ArgumentShape(t, n, k)
    case GetProtoField(t, e1, n, d, h, f, u) =>
      var types := if option.FieldPath? then None else Some((t, e1.typ));
      ProtoShape(t.kind, types, (n, d, h, f, u), Shape(e1, option))
    case GetStructField(t, e1, i, _) =>
      StructShape(t.kind, if option.FieldPath? then None else Some(t), i, Shape(e1, option))
    case GetJsonField(t, e1, n) => JsonShape(t, n, Shape(e1, option))
    case _ => NoShape
  }

  lemma {:induction false} SameShapeSimple(a: Expr, b: Expr, option: MatchingOption)
    requires SimplePath(a) && Shape(a, option) == Shape(b, option)
    ensures SimplePath(b) && NodeKind(a) == NodeKind(b)
    decreases a
  {
    match a {
      case GetProtoField(_, e, _, _, _, _, _) => SameShapeSimple(e, b.expr, option);
      case GetStructField(_, e, _, _) => SameShapeSimple(e, b.expr, option);
      case GetJsonField(_, e, _) => SameShapeSimple(e, b.expr, option);
      case _ =>
    }
  }

  lemma {:induction false} SamePathSameShape(a: Expr, b: Expr, option: MatchingOption)
    requires IsSameFieldPath(a, b, option)
    ensures SimplePath(a) && Shape(a, option) == Shape(b, option)
    decreases a
  {
    match a {
      case GetProtoField(_, e, _, _, _, _, _) => SamePathSameShape(e, b.expr, option);
      case GetStructField(_, e, _, _) => SamePathSameShape(e, b.expr, option);
      case GetJsonField(_, e, _) => SamePathSameShape(e, b.expr, option);
      case _ =>
    }
  }

  lemma {:induction false} SameShapeSamePath(a: Expr, b: Expr, option: MatchingOption)
    requires SimplePath(a) && Shape(a, option) == Shape(b, option)
    ensures IsSameFieldPath(a, b, option)
    decreases a
  {
    SameShapeSimple(a, b, option);
    match a {
      case GetProtoField(_, e, _, _, _, _, _) => SameShapeSamePath(e, b.expr, option);
      case GetStructField(_, e, _, _) => SameShapeSamePath(e, b.expr, option);
      case GetJsonField(_, e, _) => SameShapeSamePath(e, b.expr, option);
      case _ =>
    }
  }

  /** Paths match exactly when they are simple and the option sees the same of them. */
  lemma SamePathIffShape(a: Expr, b: Expr, option: MatchingOption)
    ensures IsSameFieldPath(a, b, option) <==> SimplePath(a) && Shape(a, option) == Shape(b, option)
  {
    hide IsSameFieldPath, Shape, SimplePath;
    if IsSameFieldPath(a, b, option) {
      SamePathSameShape(a, b, option);
    }
    if SimplePath(a) && Shape(a, option) == Shape(b, option) {
      SameShapeSamePath(a, b, option);
    }
  }

  /** Matching as expressions is the strictest option. */
  lemma {:induction false} ExpressionIsStrictest(a: Expr, b: Expr, option: MatchingOption)
    requires IsSameFieldPath(a, b, Expression)
    ensures IsSameFieldPath(a, b, option)
    decreases a
  {
    match a {
      case GetProtoField(_, e, _, _, _, _, _) => ExpressionIsStrictest(e, b.expr, option);
      case GetStructField(_, e, _, _) => ExpressionIsStrictest(e, b.expr, option);
      case GetJsonField(_, e, _) => ExpressionIsStrictest(e, b.expr, option);
      case _ =>
    }
  }

  /** A path matches itself exactly when it is simple. */
  lemma ReflexiveIffSimple(a: Expr, option: MatchingOption)
    ensures IsSameFieldPath(a, a, option) <==> SimplePath(a)
  {
    SamePathIffShape(a, a, option);
  }

  lemma SamePathSymmetric(a: Expr, b: Expr, option: MatchingOption)
    ensures IsSameFieldPath(a, b, option) == IsSameFieldPath(b, a, option)
  {
    hide IsSameFieldPath, Shape, SimplePath;
    SamePathIffShape(a, b, option);
    SamePathIffShape(b, a, option);
    if SimplePath(a) && Shape(a, option) == Shape(b, option) { SameShapeSimple(a, b, option); }
    if SimplePath(b) && Shape(a, option) == Shape(b, option) { SameShapeSimple(b, a, option); }
  }

  lemma SamePathTransitive(a: Expr, b: Expr, c: Expr, option: MatchingOption)
    requires IsSameFieldPath(a, b, option) && IsSameFieldPath(b, c, option)
    ensures IsSameFieldPath(a, c, option)
  {
    hide IsSameFieldPath, Shape, SimplePath;
    SamePathIffShape(a, b, option);
    SamePathIffShape(b, c, option);
    SamePathIffShape(a, c, option);
  }
}
