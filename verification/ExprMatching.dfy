/** Syntactic comparison of resolved expressions for GROUP BY.
 */
module ExprMatching {
  import opened Types

  /** A type as the comparison sees it: its kind, and its identity. */
  datatype ExprType = ExprType(kind: nat, id: nat)

  datatype Function = Function(id: nat, volatile: bool)

  const MICROS_IN_DAY := 86400000000
  const MICROS_IN_MONTH := 30 * MICROS_IN_DAY

  /** The value of a literal. An interval has months, days, microseconds and nanosecond
      fractions, each with a meaning of its own; a floating point zero has a sign. Any
      other value is given by its class under SQL equality and its exact contents. */
  datatype Value =
    | Interval(months: int, days: int, micros: int, nanos: nat)
    | Zero(negative: bool)
    | Other(group: int, exact: int)
  {
    /** SQL equality: an interval counts a month as 30 days and a day as 24 hours. */
    predicate Equals(that: Value) {
      match this
      case Interval(_, _, _, n) => that.Interval? && n == that.nanos && AsMicros() == that.AsMicros()
      case Zero(_) => that.Zero?
      case Other(g, _) => that.Other? && g == that.group
    }

    function AsMicros(): int
      requires Interval?
    {
      months * MICROS_IN_MONTH + days * MICROS_IN_DAY + micros
    }

    /** One value for all that are equal to this one. */
    function Representative(): Value {
      match this
      case Interval(_, _, _, n) => Interval(0, 0, AsMicros(), n)
      case Zero(_) => Zero(false)
      case Other(g, _) => Other(g, 0)
    }
  }

  /** SQL equality is an equivalence: it compares representatives. */
  lemma EqualsIffSameRepresentative(v: Value, w: Value)
    ensures v.Equals(w) <==> v.Representative() == w.Representative()
  {
  }

  /** Resolved expressions. Three fields carry no meaning and are not compared:
      whether a column reference is correlated, whether a struct access was by
      position, and the `site` of a call, which tells occurrences apart. The default
      value of a proto field is fixed by the message type and the field number. */
  datatype Expr =
    | Literal(typ: ExprType, value: Value)
    | Parameter(typ: ExprType, name: string, position: int)
    | ExpressionColumn(typ: ExprType, name: string)
    | ColumnRef(typ: ExprType, column: nat, correlated: bool)
    | ArgumentRef(typ: ExprType, name: string, argumentKind: nat)
    | GetStructField(typ: ExprType, expr: Expr, index: nat, positional: bool)
    | GetProtoField(typ: ExprType, expr: Expr, number: int, defaultValue: int, hasBit: bool, format: nat,
                    defaultWhenUnset: bool)
    | GetRowField(typ: ExprType, expr: Expr, column: nat)
    | GetJsonField(typ: ExprType, expr: Expr, name: string)
    | GetElementProperty(typ: ExprType, expr: Expr, propertyName: Option<Expr>, property: nat)
    | Cast(typ: ExprType, expr: Expr, nullOnError: bool, castFormat: Option<Expr>, timeZone: Option<Expr>,
           modifiers: nat)
    | Call(typ: ExprType, function_: Function, errorMode: nat, args: seq<Expr>, collations: seq<nat>, generic: bool,
           site: nat)
    | MakeStruct(typ: ExprType, fields: seq<Expr>)
    | Unsupported(typ: ExprType, nodeKind: nat, site: nat)

  /** `Internal` is the failed sanity check on collations. */
  datatype Answer = Equal | NotEqual | Unknown | Internal

  function Both(a: Answer, b: Answer): Answer {
    if a.Equal? then b else a
  }

  function When(same: bool): Answer {
    if same then Equal else NotEqual
  }

  function NodeKind(e: Expr): nat {
    match e
    case Literal(_, _) => 0
    case Parameter(_, _, _) => 1
    case ExpressionColumn(_, _) => 2
    case ColumnRef(_, _, _) => 3
    case ArgumentRef(_, _, _) => 4
    case GetStructField(_, _, _, _) => 5
    case GetProtoField(_, _, _, _, _, _, _) => 6
    case GetRowField(_, _, _) => 7
    case GetJsonField(_, _, _) => 8
    case GetElementProperty(_, _, _, _) => 9
    case Cast(_, _, _, _, _, _) => 10
    case Call(_, _, _, _, _, _, _) => 11
    case MakeStruct(_, _) => 12
    case Unsupported(_, k, _) => 13 + k
  }

  /** Compares two expressions; `structs` enables the comparison of struct
      constructors. */
  function Test(a: Expr, b: Expr, structs: bool): Answer
    decreases a
  {
    if NodeKind(a) != NodeKind(b) || a.typ != b.typ then NotEqual
    else
      match a
      case Literal(_, v) => When(v.Equals(b.value))
      case Parameter(_, n, p) => When(n == b.name && p == b.position)
      case ExpressionColumn(_, n) => When(n == b.name)
      case ColumnRef(_, c, _) => When(c == b.column)
      case GetStructField(_, e, i, _) => Both(Test(e, b.expr, structs), When(i == b.index))
      case GetProtoField(_, e, n, d, h, f, u) =>
        Both(Test(e, b.expr, structs),
             When(&& e.typ.kind == b.expr.typ.kind && n == b.number && d == b.defaultValue
                  && h == b.hasBit && f == b.format && u == b.defaultWhenUnset))
      case GetRowField(_, e, c) => Both(Test(e, b.expr, structs), When(c == b.column))
      case GetJsonField(_, e, n) => Both(Test(e, b.expr, structs), When(n == b.name))
      case GetElementProperty(_, e, n, p) =>
        Both(Both(Test(e, b.expr, structs), TestOption(n, b.propertyName, structs)), When(p == b.property))
      case Cast(_, e, n, f, z, m) =>
        Both(Both(Both(Both(Test(e, b.expr, structs), When(n == b.nullOnError)), TestOption(f, b.castFormat, structs)),
                  TestOption(z, b.timeZone, structs)),
             When(m == b.modifiers))
      case Call(_, f, m, args, cs, generic, _) =>
        if f != b.function_ || m != b.errorMode || f.volatile then NotEqual
        else if generic || b.generic then Unknown
        else if |args| != |b.args| then NotEqual
        else Both(TestAll(args, b.args, structs),
                  if |cs| != |b.collations| then NotEqual else if cs != b.collations then Internal else Equal)
      case MakeStruct(_, fields) =>
        if !structs then Unknown
        else if |fields| != |b.fields| then NotEqual
        else TestAll(fields, b.fields, structs)
      case ArgumentRef(_, _, _) => Unknown
      case Unsupported(_, _, _) => Unknown
  }

  function TestAll(as1: seq<Expr>, as2: seq<Expr>, structs: bool): Answer
    requires |as1| == |as2|
    decreases as1
  {
    if as1 == [] then Equal else Both(Test(as1[0], as2[0], structs), TestAll(as1[1..], as2[1..], structs))
  }

  function TestOption(a: Option<Expr>, b: Option<Expr>, structs: bool): Answer
    decreases a
  {
    if a.None? != b.None? then NotEqual else if a.None? then Equal else Test(a.value, b.value, structs)
  }

  // ----- The whole answer is symmetric -----

  lemma {:induction false} Symmetric(a: Expr, b: Expr, structs: bool)
    ensures Test(a, b, structs) == Test(b, a, structs)
    decreases a
  {
    if NodeKind(a) == NodeKind(b) && a.typ == b.typ {
      match a {
        case GetStructField(_, e, _, _) => Symmetric(e, b.expr, structs);
        case GetProtoField(_, e, _, _, _, _, _) => Symmetric(e, b.expr, structs);
        case GetRowField(_, e, _) => Symmetric(e, b.expr, structs);
        case GetJsonField(_, e, _) => Symmetric(e, b.expr, structs);
        case GetElementProperty(_, e, n, _) =>
          Symmetric(e, b.expr, structs);
          SymmetricOption(n, b.propertyName, structs);
        case Cast(_, e, _, f, z, _) =>
          Symmetric(e, b.expr, structs);
          SymmetricOption(f, b.castFormat, structs);
          SymmetricOption(z, b.timeZone, structs);
        case Call(_, _, _, args, _, _, _) =>
          if |args| == |b.args| { SymmetricAll(args, b.args, structs); }
        case MakeStruct(_, fields) =>
          if |fields| == |b.fields| { SymmetricAll(fields, b.fields, structs); }
        case _ =>
      }
    }
  }

  lemma {:induction false} SymmetricAll(as1: seq<Expr>, as2: seq<Expr>, structs: bool)
    requires |as1| == |as2|
    ensures TestAll(as1, as2, structs) == TestAll(as2, as1, structs)
    decreases as1
  {
    if as1 != [] {
      Symmetric(as1[0], as2[0], structs);
      SymmetricAll(as1[1..], as2[1..], structs);
    }
  }

  lemma {:induction false} SymmetricOption(a: Option<Expr>, b: Option<Expr>, structs: bool)
    ensures TestOption(a, b, structs) == TestOption(b, a, structs)
    decreases a
  {
    if a.Some? && b.Some? { Symmetric(a.value, b.value, structs); }
  }

  // ----- What `Equal` means -----

  /** The expression without the fields that carry no meaning, and with one
      representative for literals that SQL calls equal. */
  function Erase(e: Expr): Expr
    decreases e
  {
    match e
    case Literal(t, v) => Expr.Literal(t, v.Representative())
    case ColumnRef(t, c, _) => ColumnRef(t, c, false)
    case GetStructField(t, e1, i, _) => GetStructField(t, Erase(e1), i, false)
    case GetProtoField(t, e1, n, d, h, f, u) => GetProtoField(t, Erase(e1), n, d, h, f, u)
    case GetRowField(t, e1, c) => GetRowField(t, Erase(e1), c)
    case GetJsonField(t, e1, n) => GetJsonField(t, Erase(e1), n)
    case GetElementProperty(t, e1, n, p) => GetElementProperty(t, Erase(e1), EraseOption(n), p)
    case Cast(t, e1, n, f, z, m) => Cast(t, Erase(e1), n, EraseOption(f), EraseOption(z), m)
    case Call(t, f, m, args, c, g, _) => Call(t, f, m, EraseAll(args), c, g, 0)
    case MakeStruct(t, fs) => MakeStruct(t, EraseAll(fs))
    case Unsupported(t, k, _) => Unsupported(t, k, 0)
    case _ => e
  }

  function EraseAll(es: seq<Expr>): (rs: seq<Expr>)
    ensures |rs| == |es|
    decreases es
  {
    if es == [] then [] else [Erase(es[0])] + EraseAll(es[1..])
  }

  function EraseOption(o: Option<Expr>): Option<Expr>
    decreases o
  {
    if o.None? then None else Some(Erase(o.value))
  }

  /** Only supported nodes, and no volatile function, anywhere in the expression. */
  predicate Comparable(e: Expr, structs: bool)
    decreases e
  {
    match e
    case ArgumentRef(_, _, _) => false
    case Unsupported(_, _, _) => false
    case GetStructField(_, e1, _, _) => Comparable(e1, structs)
    case GetProtoField(_, e1, _, _, _, _, _) => Comparable(e1, structs)
    case GetRowField(_, e1, _) => Comparable(e1, structs)
    case GetJsonField(_, e1, _) => Comparable(e1, structs)
    case GetElementProperty(_, e1, n, _) => Comparable(e1, structs) && ComparableOption(n, structs)
    case Cast(_, e1, _, f, z, _) =>
      Comparable(e1, structs) && ComparableOption(f, structs) && ComparableOption(z, structs)
    case Call(_, f, _, args, _, g, _) => !f.volatile && !g && ComparableAll(args, structs)
    case MakeStruct(_, fs) => structs && ComparableAll(fs, structs)
    case _ => true
  }

  predicate ComparableAll(es: seq<Expr>, structs: bool)
    decreases es
  {
    es == [] || (Comparable(es[0], structs) && ComparableAll(es[1..], structs))
  }

  predicate ComparableOption(o: Option<Expr>, structs: bool)
    decreases o
  {
    o.None? || Comparable(o.value, structs)
  }

  /** Two expressions are equal exactly when they are the same up to fields without
      meaning and SQL equality of literals, and consist of supported, non-volatile nodes
      only. */
  lemma {:induction false} EqualIffSame(a: Expr, b: Expr, structs: bool)
    ensures Test(a, b, structs).Equal? <==> Erase(a) == Erase(b) && Comparable(a, structs)
    decreases a
  {
    EraseKeeps(a);
    EraseKeeps(b);
    if NodeKind(a) == NodeKind(b) && a.typ == b.typ {
      match a {
        case Literal(_, v) => EqualsIffSameRepresentative(v, b.value);
        case GetStructField(_, e, _, _) => EqualIffSame(e, b.expr, structs);
        case GetProtoField(_, e, _, _, _, _, _) =>
          EqualIffSame(e, b.expr, structs);
          EraseKeeps(e);
          EraseKeeps(b.expr);
        case GetRowField(_, e, _) => EqualIffSame(e, b.expr, structs);
        case GetJsonField(_, e, _) => EqualIffSame(e, b.expr, structs);
        case GetElementProperty(_, e, n, _) =>
          EqualIffSame(e, b.expr, structs);
          EqualIffSameOption(n, b.propertyName, structs);
        case Cast(_, e, _, f, z, _) =>
          EqualIffSame(e, b.expr, structs);
          EqualIffSameOption(f, b.castFormat, structs);
          EqualIffSameOption(z, b.timeZone, structs);
        case Call(_, _, _, args, _, _, _) =>
          if |args| == |b.args| { EqualIffSameAll(args, b.args, structs); }
        case MakeStruct(_, fields) =>
          if |fields| == |b.fields| { EqualIffSameAll(fields, b.fields, structs); }
        case _ =>
      }
    }
  }

  lemma EraseKeeps(e: Expr)
    ensures Erase(e).typ == e.typ && NodeKind(Erase(e)) == NodeKind(e)
  {
  }

  lemma {:induction false} EqualIffSameAll(as1: seq<Expr>, as2: seq<Expr>, structs: bool)
    requires |as1| == |as2|
    ensures TestAll(as1, as2, structs).Equal? <==> EraseAll(as1) == EraseAll(as2) && ComparableAll(as1, structs)
    decreases as1
  {
    if as1 != [] {
      EqualIffSame(as1[0], as2[0], structs);
      EqualIffSameAll(as1[1..], as2[1..], structs);
      ConsEqual(Erase(as1[0]), EraseAll(as1[1..]), Erase(as2[0]), EraseAll(as2[1..]));
    }
  }

  lemma ConsEqual(x: Expr, xs: seq<Expr>, y: Expr, ys: seq<Expr>)
    ensures [x] + xs == [y] + ys <==> x == y && xs == ys
  {
    if [x] + xs == [y] + ys {
      assert ([x] + xs)[0] == x && ([y] + ys)[0] == y;
      assert ([x] + xs)[1..] == xs && ([y] + ys)[1..] == ys;
    }
  }

  lemma {:induction false} EqualIffSameOption(a: Option<Expr>, b: Option<Expr>, structs: bool)
    ensures TestOption(a, b, structs).Equal? <==> EraseOption(a) == EraseOption(b) && ComparableOption(a, structs)
    decreases a
  {
    if a.Some? && b.Some? { EqualIffSame(a.value, b.value, structs); }
  }

  lemma Transitive(a: Expr, b: Expr, c: Expr, structs: bool)
    requires Test(a, b, structs).Equal? && Test(b, c, structs).Equal?
    ensures Test(a, c, structs).Equal?
  {
    EqualIffSame(a, b, structs);
    EqualIffSame(b, c, structs);
    EqualIffSame(a, c, structs);
  }

  /** An expression equals itself exactly when it is comparable. */
  lemma ReflexiveIffComparable(a: Expr, structs: bool)
    ensures Test(a, a, structs).Equal? <==> Comparable(a, structs)
  {
    EqualIffSame(a, a, structs);
  }

  /** The expression with other values in the fields that carry no meaning. */
  function Remark(e: Expr, mark: bool, site: nat): Expr
    decreases e
  {
    match e
    case ColumnRef(t, c, _) => ColumnRef(t, c, mark)
    case GetStructField(t, e1, i, _) => GetStructField(t, Remark(e1, mark, site), i, mark)
    case GetProtoField(t, e1, n, d, h, f, u) => GetProtoField(t, Remark(e1, mark, site), n, d, h, f, u)
    case GetRowField(t, e1, c) => GetRowField(t, Remark(e1, mark, site), c)
    case GetJsonField(t, e1, n) => GetJsonField(t, Remark(e1, mark, site), n)
    case GetElementProperty(t, e1, n, p) =>
      GetElementProperty(t, Remark(e1, mark, site), RemarkOption(n, mark, site), p)
    case Cast(t, e1, n, f, z, m) =>
      Cast(t, Remark(e1, mark, site), n, RemarkOption(f, mark, site), RemarkOption(z, mark, site), m)
    case Call(t, f, m, args, c, g, _) => Call(t, f, m, RemarkAll(args, mark, site), c, g, site)
    case MakeStruct(t, fs) => MakeStruct(t, RemarkAll(fs, mark, site))
    case Unsupported(t, k, _) => Unsupported(t, k, site)
    case _ => e
  }

  function RemarkAll(es: seq<Expr>, mark: bool, site: nat): seq<Expr>
    decreases es
  {
    if es == [] then [] else [Remark(es[0], mark, site)] + RemarkAll(es[1..], mark, site)
  }

  function RemarkOption(o: Option<Expr>, mark: bool, site: nat): Option<Expr>
    decreases o
  {
    if o.None? then None else Some(Remark(o.value, mark, site))
  }

  lemma {:induction false} EraseRemarked(e: Expr, mark: bool, site: nat)
    ensures Erase(Remark(e, mark, site)) == Erase(e)
    decreases e
  {
    match e {
      case GetStructField(_, e1, _, _) => EraseRemarked(e1, mark, site);
      case GetProtoField(_, e1, _, _, _, _, _) => EraseRemarked(e1, mark, site);
      case GetRowField(_, e1, _) => EraseRemarked(e1, mark, site);
      case GetJsonField(_, e1, _) => EraseRemarked(e1, mark, site);
      case GetElementProperty(_, e1, n, _) =>
        EraseRemarked(e1, mark, site);
        EraseRemarkedOption(n, mark, site);
      case Cast(_, e1, _, f, z, _) =>
        EraseRemarked(e1, mark, site);
        EraseRemarkedOption(f, mark, site);
        EraseRemarkedOption(z, mark, site);
      case Call(_, _, _, args, _, _, _) => EraseRemarkedAll(args, mark, site);
      case MakeStruct(_, fields) => EraseRemarkedAll(fields, mark, site);
      case _ =>
    }
  }

  lemma {:induction false} EraseRemarkedOption(o: Option<Expr>, mark: bool, site: nat)
    ensures EraseOption(RemarkOption(o, mark, site)) == EraseOption(o)
    decreases o
  {
    hide Erase, Remark;
    if o.Some? { EraseRemarked(o.value, mark, site); }
  }

  lemma {:induction false} EraseRemarkedAll(es: seq<Expr>, mark: bool, site: nat)
    ensures EraseAll(RemarkAll(es, mark, site)) == EraseAll(es)
    decreases es
  {
    if es != [] {
      var r := RemarkAll(es, mark, site);
      EraseRemarked(es[0], mark, site);
      EraseRemarkedAll(es[1..], mark, site);
      assert r[0] == Remark(es[0], mark, site) && r[1..] == RemarkAll(es[1..], mark, site);
    }
  }

  /** Whether a column reference is correlated, whether a struct access was by position,
      and where a call occurs make no difference to the comparison. */
  lemma MarksIgnored(e: Expr, mark: bool, site: nat, structs: bool)
    ensures Test(e, Remark(e, mark, site), structs).Equal? <==> Comparable(e, structs)
  {
    hide Test, Erase, Remark, Comparable;
    EraseRemarked(e, mark, site);
    EqualIffSame(e, Remark(e, mark, site), structs);
  }

  // ----- What `Unknown` and `Internal` mean -----

  function Somes(es: seq<Expr>): (os: seq<Option<Expr>>)
    ensures |os| == |es| && forall i :: 0 <= i < |os| ==> os[i] == Some(es[i])
  {
    seq(|es|, i requires 0 <= i < |es| => Some(es[i]))
  }

  /** The parts of a node, in the order in which they are compared. */
  function Children(e: Expr): seq<Option<Expr>> {
    match e
    case GetStructField(_, e1, _, _) => [Some(e1)]
    case GetProtoField(_, e1, _, _, _, _, _) => [Some(e1)]
    case GetRowField(_, e1, _) => [Some(e1)]
    case GetJsonField(_, e1, _) => [Some(e1)]
    case GetElementProperty(_, e1, n, _) => [Some(e1), n]
    case Cast(_, e1, _, f, z, _) => [Some(e1), f, z]
    case Call(_, _, _, args, _, _, _) => Somes(args)
    case MakeStruct(_, fields) => Somes(fields)
    case _ => []
  }

  /** Nodes of one kind and type; calls are of one function that is not volatile. */
  predicate SameNode(a: Expr, b: Expr) {
    && NodeKind(a) == NodeKind(b) && a.typ == b.typ
    && (a.Call? ==> a.function_ == b.function_ && a.errorMode == b.errorMode && !a.function_.volatile)
  }

  /** Nothing that is compared before the `i`-th part, other than parts, differs. */
  predicate HeadsAgree(a: Expr, b: Expr, structs: bool, i: nat) {
    && SameNode(a, b) && |Children(a)| == |Children(b)|
    && (a.Cast? && i > 0 ==> a.nullOnError == b.nullOnError)
    && (a.Call? ==> !a.generic && !b.generic)
    && (a.MakeStruct? ==> structs)
  }

  /** The two nodes cannot be compared: they are of an unsupported kind, or one is a call
      with generic arguments. */
  predicate Incomparable(a: Expr, b: Expr, structs: bool) {
    && SameNode(a, b)
    && match a
       case ArgumentRef(_, _, _) => true
       case Unsupported(_, _, _) => true
       case Call(_, _, _, _, _, generic, _) => generic || b.generic
       case MakeStruct(_, _) => !structs
       case _ => false
  }

  /** Two calls with the same arguments and as many, but not the same, collations. */
  predicate CollationsDiffer(a: Expr, b: Expr, structs: bool) {
    && SameNode(a, b) && a.Call? && !a.generic && !b.generic
    && EraseAll(a.args) == EraseAll(b.args) && ComparableAll(a.args, structs)
    && |a.collations| == |b.collations| && a.collations != b.collations
  }

  /** The parts before the `i`-th are the same and comparable. */
  predicate SameBefore(a: Expr, b: Expr, structs: bool, i: nat)
    requires i < |Children(a)| && i < |Children(b)|
  {
    HeadsAgree(a, b, structs, i) && SameParts(Children(a), Children(b), structs, i)
  }

  /** The first `n` parts are the same and comparable. */
  predicate SameParts(ps1: seq<Option<Expr>>, ps2: seq<Option<Expr>>, structs: bool, n: nat)
    requires n <= |ps1| && n <= |ps2|
  {
    forall j :: 0 <= j < n ==> SamePart(ps1[j], ps2[j], structs)
  }

  predicate SamePart(a: Option<Expr>, b: Option<Expr>, structs: bool) {
    EraseOption(a) == EraseOption(b) && ComparableOption(a, structs)
  }

  /** What the comparison may come upon. */
  datatype Trouble = Unsupportable | Collations

  predicate TroubleHere(a: Expr, b: Expr, structs: bool, t: Trouble) {
    match t
    case Unsupportable => Incomparable(a, b, structs)
    case Collations => CollationsDiffer(a, b, structs)
  }

  /** Following `path` down both expressions, everything before is the same, and the
      nodes at its end are in trouble. */
  predicate TroubleAt(a: Expr, b: Expr, structs: bool, t: Trouble, path: seq<nat>)
    decreases |path|
  {
    if path == [] then TroubleHere(a, b, structs, t)
    else
      && path[0] < |Children(a)| && path[0] < |Children(b)| && SameBefore(a, b, structs, path[0])
      && Children(a)[path[0]].Some? && Children(b)[path[0]].Some?
      && TroubleAt(Children(a)[path[0]].value, Children(b)[path[0]].value, structs, t, path[1..])
  }

  ghost predicate HasTrouble(a: Expr, b: Expr, structs: bool, t: Trouble) {
    exists path :: TroubleAt(a, b, structs, t, path)
  }

  function AnswerFor(t: Trouble): Answer {
    match t
    case Unsupportable => Unknown
    case Collations => Internal
  }

  ghost predicate OptionTrouble(a: Option<Expr>, b: Option<Expr>, structs: bool, t: Trouble) {
    a.Some? && b.Some? && HasTrouble(a.value, b.value, structs, t)
  }

  /** The trouble is in the `i`-th part. */
  ghost predicate PartTrouble(a: Expr, b: Expr, structs: bool, t: Trouble, i: nat) {
    && i < |Children(a)| && i < |Children(b)|
    && SameBefore(a, b, structs, i) && OptionTrouble(Children(a)[i], Children(b)[i], structs, t)
  }

  lemma TroubleStep(a: Expr, b: Expr, structs: bool, t: Trouble)
    ensures HasTrouble(a, b, structs, t) <==>
              TroubleHere(a, b, structs, t) || exists i: nat :: PartTrouble(a, b, structs, t, i)
  {
    hide TroubleHere, PartTrouble, TroubleAt, HasTrouble;
    if HasTrouble(a, b, structs, t) {
      TroubleFound(a, b, structs, t);
    }
    if TroubleHere(a, b, structs, t) {
      TroubleNone(a, b, structs, t);
      TroubleWitness(a, b, structs, t, []);
    }
    if i: nat :| PartTrouble(a, b, structs, t, i) {
      TroubleAbove(a, b, structs, t, i);
    }
  }

  lemma TroubleWitness(a: Expr, b: Expr, structs: bool, t: Trouble, path: seq<nat>)
    requires TroubleAt(a, b, structs, t, path)
    ensures HasTrouble(a, b, structs, t)
  {
    hide TroubleAt;
  }

  lemma TroubleFound(a: Expr, b: Expr, structs: bool, t: Trouble)
    requires HasTrouble(a, b, structs, t)
    ensures TroubleHere(a, b, structs, t) || exists i: nat :: PartTrouble(a, b, structs, t, i)
  {
    hide TroubleHere, PartTrouble, TroubleAt;
    var path :| TroubleAt(a, b, structs, t, path);
    if path == [] {
      TroubleNone(a, b, structs, t);
    } else {
      TroubleBelow(a, b, structs, t, path);
    }
  }

  lemma TroubleNone(a: Expr, b: Expr, structs: bool, t: Trouble)
    ensures TroubleAt(a, b, structs, t, []) <==> TroubleHere(a, b, structs, t)
  {
    hide TroubleHere;
  }

  lemma TroubleBelow(a: Expr, b: Expr, structs: bool, t: Trouble, path: seq<nat>)
    requires path != [] && TroubleAt(a, b, structs, t, path)
    ensures PartTrouble(a, b, structs, t, path[0])
  {
    hide SameBefore, TroubleHere, Children;
  }

  lemma TroubleAbove(a: Expr, b: Expr, structs: bool, t: Trouble, i: nat)
    requires PartTrouble(a, b, structs, t, i)
    ensures HasTrouble(a, b, structs, t)
  {
    hide SameBefore, TroubleHere, Children, TroubleAt;
    var path :| TroubleAt(Children(a)[i].value, Children(b)[i].value, structs, t, path);
    TroubleUnder(a, b, structs, t, i, path);
  }

  lemma TroubleUnder(a: Expr, b: Expr, structs: bool, t: Trouble, i: nat, path: seq<nat>)
    requires i < |Children(a)| && i < |Children(b)| && SameBefore(a, b, structs, i)
    requires Children(a)[i].Some? && Children(b)[i].Some?
    requires TroubleAt(Children(a)[i].value, Children(b)[i].value, structs, t, path)
    ensures TroubleAt(a, b, structs, t, [i] + path)
  {
    hide SameBefore, TroubleHere, Children;
    assert ([i] + path)[0] == i && ([i] + path)[1..] == path;
  }

  lemma SamePartIff(a: Option<Expr>, b: Option<Expr>, structs: bool)
    ensures SamePart(a, b, structs) <==> TestOption(a, b, structs).Equal?
  {
    hide Test, Erase, Comparable;
    EqualIffSameOption(a, b, structs);
  }

  lemma OnePart(a: Expr, b: Expr, structs: bool, t: Trouble)
    requires SameNode(a, b) && |Children(a)| == |Children(b)| == 1 && !a.Cast? && !a.Call? && !a.MakeStruct?
    ensures (exists i: nat :: PartTrouble(a, b, structs, t, i)) <==>
              OptionTrouble(Children(a)[0], Children(b)[0], structs, t)
  {
    hide OptionTrouble, Children;
    assert PartTrouble(a, b, structs, t, 0) <==> OptionTrouble(Children(a)[0], Children(b)[0], structs, t);
    assert forall i: nat :: i > 0 ==> !PartTrouble(a, b, structs, t, i);
  }

  lemma PropertyParts(a: Expr, b: Expr, structs: bool, t: Trouble)
    requires SameNode(a, b) && a.GetElementProperty? && b.GetElementProperty?
    ensures (exists i: nat :: PartTrouble(a, b, structs, t, i)) <==>
              || HasTrouble(a.expr, b.expr, structs, t)
              || (&& SamePart(Some(a.expr), Some(b.expr), structs)
                  && OptionTrouble(a.propertyName, b.propertyName, structs, t))
  {
    hide HasTrouble, SamePart;
    assert PartTrouble(a, b, structs, t, 0) <==> HasTrouble(a.expr, b.expr, structs, t);
    assert PartTrouble(a, b, structs, t, 1) <==>
        && SamePart(Some(a.expr), Some(b.expr), structs)
        && OptionTrouble(a.propertyName, b.propertyName, structs, t);
    assert forall i: nat :: i > 1 ==> !PartTrouble(a, b, structs, t, i);
  }

  lemma CastParts(a: Expr, b: Expr, structs: bool, t: Trouble)
    requires SameNode(a, b) && a.Cast? && b.Cast?
    ensures (exists i: nat :: PartTrouble(a, b, structs, t, i)) <==>
              || HasTrouble(a.expr, b.expr, structs, t)
              || (&& SamePart(Some(a.expr), Some(b.expr), structs) && a.nullOnError == b.nullOnError
                  && (|| OptionTrouble(a.castFormat, b.castFormat, structs, t)
                      || (&& SamePart(a.castFormat, b.castFormat, structs)
                          && OptionTrouble(a.timeZone, b.timeZone, structs, t))))
  {
    hide HasTrouble, SamePart;
    assert PartTrouble(a, b, structs, t, 0) <==> HasTrouble(a.expr, b.expr, structs, t);
    assert PartTrouble(a, b, structs, t, 1) <==>
        && SamePart(Some(a.expr), Some(b.expr), structs) && a.nullOnError == b.nullOnError
        && OptionTrouble(a.castFormat, b.castFormat, structs, t);
    assert PartTrouble(a, b, structs, t, 2) <==>
        && SamePart(Some(a.expr), Some(b.expr), structs) && a.nullOnError == b.nullOnError
        && SamePart(a.castFormat, b.castFormat, structs) && OptionTrouble(a.timeZone, b.timeZone, structs, t);
    assert forall i: nat :: i > 2 ==> !PartTrouble(a, b, structs, t, i);
  }

  ghost predicate ElementTrouble(as1: seq<Expr>, as2: seq<Expr>, structs: bool, t: Trouble, i: nat) {
    && i < |as1| && i < |as2| && HasTrouble(as1[i], as2[i], structs, t)
    && forall j :: 0 <= j < i ==> SamePart(Some(as1[j]), Some(as2[j]), structs)
  }

  /** Arguments of a call or fields of a struct. */
  lemma ListParts(a: Expr, b: Expr, structs: bool, t: Trouble, as1: seq<Expr>, as2: seq<Expr>)
    requires !a.Cast? && Children(a) == Somes(as1) && Children(b) == Somes(as2)
    ensures (exists i: nat :: PartTrouble(a, b, structs, t, i)) <==>
              HeadsAgree(a, b, structs, 0) && exists i: nat :: ElementTrouble(as1, as2, structs, t, i)
  {
    hide PartTrouble, ElementTrouble, HeadsAgree, Children, Somes;
    forall i: nat
      ensures PartTrouble(a, b, structs, t, i) <==>
                HeadsAgree(a, b, structs, 0) && ElementTrouble(as1, as2, structs, t, i)
    {
      if i < |as1| && i < |as2| {
        HeadsAnyPart(a, b, structs, i);
        ListPart(a, b, structs, t, as1, as2, i);
      } else {
        NoListPart(a, b, structs, t, as1, as2, i);
      }
    }
  }

  lemma ListPart(a: Expr, b: Expr, structs: bool, t: Trouble, as1: seq<Expr>, as2: seq<Expr>, i: nat)
    requires i < |as1| && i < |as2| && Children(a) == Somes(as1) && Children(b) == Somes(as2)
    ensures PartTrouble(a, b, structs, t, i) <==>
              HeadsAgree(a, b, structs, i) && ElementTrouble(as1, as2, structs, t, i)
  {
    hide HasTrouble, SameParts, SamePart, Children, HeadsAgree, Somes, NodeKind;
    SameSomes(as1, as2, structs, i);
  }

  lemma NoListPart(a: Expr, b: Expr, structs: bool, t: Trouble, as1: seq<Expr>, as2: seq<Expr>, i: nat)
    requires !(i < |as1| && i < |as2|) && Children(a) == Somes(as1) && Children(b) == Somes(as2)
    ensures !PartTrouble(a, b, structs, t, i) && !ElementTrouble(as1, as2, structs, t, i)
  {
    hide HasTrouble, SameBefore, SamePart, Children, Somes;
  }

  lemma HeadsAnyPart(a: Expr, b: Expr, structs: bool, i: nat)
    requires !a.Cast?
    ensures HeadsAgree(a, b, structs, i) <==> HeadsAgree(a, b, structs, 0)
  {
    hide Children, SameNode;
  }

  lemma SameSomes(as1: seq<Expr>, as2: seq<Expr>, structs: bool, n: nat)
    requires n <= |as1| && n <= |as2|
    ensures SameParts(Somes(as1), Somes(as2), structs, n) <==>
              forall j :: 0 <= j < n ==> SamePart(Some(as1[j]), Some(as2[j]), structs)
  {
    hide SamePart, Somes;
  }

  lemma {:induction false} AllTrouble(as1: seq<Expr>, as2: seq<Expr>, structs: bool, t: Trouble)
    requires |as1| == |as2|
    ensures TestAll(as1, as2, structs) == AnswerFor(t) <==> exists i: nat :: ElementTrouble(as1, as2, structs, t, i)
    decreases as1
  {
    hide HasTrouble, SamePart, Test;
    if as1 != [] {
      var r1, r2 := as1[1..], as2[1..];
      TroubleIff(as1[0], as2[0], structs, t);
      AllTrouble(r1, r2, structs, t);
      SamePartIff(Some(as1[0]), Some(as2[0]), structs);
      assert ElementTrouble(as1, as2, structs, t, 0) <==> HasTrouble(as1[0], as2[0], structs, t);
      if i: nat :| ElementTrouble(r1, r2, structs, t, i) {
        LaterElement(as1, as2, structs, t, i);
      }
      if i: nat :| i > 0 && ElementTrouble(as1, as2, structs, t, i) {
        LaterElement(as1, as2, structs, t, i - 1);
      }
    }
  }

  lemma LaterElement(as1: seq<Expr>, as2: seq<Expr>, structs: bool, t: Trouble, i: nat)
    requires as1 != [] && as2 != []
    ensures ElementTrouble(as1, as2, structs, t, i + 1) <==>
              SamePart(Some(as1[0]), Some(as2[0]), structs) && ElementTrouble(as1[1..], as2[1..], structs, t, i)
  {
    hide HasTrouble, SamePart;
    var r1, r2 := as1[1..], as2[1..];
    assert forall j :: 0 <= j < |r1| ==> r1[j] == as1[j + 1];
    assert forall j :: 0 <= j < |r2| ==> r2[j] == as2[j + 1];
    if ElementTrouble(as1, as2, structs, t, i + 1) {
      forall j | 0 <= j < i
        ensures SamePart(Some(r1[j]), Some(r2[j]), structs)
      {
        assert SamePart(Some(as1[j + 1]), Some(as2[j + 1]), structs);
      }
    }
    if SamePart(Some(as1[0]), Some(as2[0]), structs) && ElementTrouble(r1, r2, structs, t, i) {
      forall j | 0 <= j < i + 1
        ensures SamePart(Some(as1[j]), Some(as2[j]), structs)
      {
        if j > 0 { assert SamePart(Some(r1[j - 1]), Some(r2[j - 1]), structs); }
      }
    }
  }

  lemma {:induction false} OptionTroubleIff(a: Option<Expr>, b: Option<Expr>, structs: bool, t: Trouble)
    ensures TestOption(a, b, structs) == AnswerFor(t) <==> OptionTrouble(a, b, structs, t)
    decreases a
  {
    hide HasTrouble, Test;
    if a.Some? && b.Some? { TroubleIff(a.value, b.value, structs, t); }
  }

  /** The comparison is undecided exactly when, before any difference, it comes upon
      nodes that cannot be compared; and it fails exactly when, before any difference, it
      comes upon the same calls with as many but different collations. */
  lemma {:induction false} TroubleIff(a: Expr, b: Expr, structs: bool, t: Trouble)
    ensures Test(a, b, structs) == AnswerFor(t) <==> HasTrouble(a, b, structs, t)
    decreases a, 1
  {
    hide HasTrouble, Erase, Comparable, SamePart, PartTrouble;
    TroubleStep(a, b, structs, t);
    if SameNode(a, b) {
      match a {
        case GetStructField(_, e, _, _) =>
          OnePart(a, b, structs, t);
          TroubleIff(e, b.expr, structs, t);
        case GetProtoField(_, e, _, _, _, _, _) =>
          OnePart(a, b, structs, t);
          TroubleIff(e, b.expr, structs, t);
        case GetRowField(_, e, _) =>
          OnePart(a, b, structs, t);
          TroubleIff(e, b.expr, structs, t);
        case GetJsonField(_, e, _) =>
          OnePart(a, b, structs, t);
          TroubleIff(e, b.expr, structs, t);
        case GetElementProperty(_, _, _, _) => PropertyTrouble(a, b, structs, t);
        case Cast(_, _, _, _, _, _) => CastTrouble(a, b, structs, t);
        case Call(_, _, _, _, _, _, _) => CallTrouble(a, b, structs, t);
        case MakeStruct(_, fields) =>
          ListParts(a, b, structs, t, fields, b.fields);
          if |fields| == |b.fields| { AllTrouble(fields, b.fields, structs, t); }
        case _ =>
          NoParts(a, b, structs, t);
      }
    } else {
      NoTroubleApart(a, b, structs, t);
    }
  }

  lemma {:induction false} PropertyTrouble(a: Expr, b: Expr, structs: bool, t: Trouble)
    requires SameNode(a, b) && a.GetElementProperty? && b.GetElementProperty?
    ensures Test(a, b, structs) == AnswerFor(t) <==> exists i: nat :: PartTrouble(a, b, structs, t, i)
    decreases a, 0
  {
    hide HasTrouble, Erase, Comparable, SamePart, PartTrouble;
    PropertyParts(a, b, structs, t);
    TroubleIff(a.expr, b.expr, structs, t);
    SamePartIff(Some(a.expr), Some(b.expr), structs);
    OptionTroubleIff(a.propertyName, b.propertyName, structs, t);
  }

  lemma {:induction false} CastTrouble(a: Expr, b: Expr, structs: bool, t: Trouble)
    requires SameNode(a, b) && a.Cast? && b.Cast?
    ensures Test(a, b, structs) == AnswerFor(t) <==> exists i: nat :: PartTrouble(a, b, structs, t, i)
    decreases a, 0
  {
    hide HasTrouble, Erase, Comparable, SamePart, PartTrouble;
    CastParts(a, b, structs, t);
    TroubleIff(a.expr, b.expr, structs, t);
    SamePartIff(Some(a.expr), Some(b.expr), structs);
    OptionTroubleIff(a.castFormat, b.castFormat, structs, t);
    SamePartIff(a.castFormat, b.castFormat, structs);
    OptionTroubleIff(a.timeZone, b.timeZone, structs, t);
  }

  lemma {:induction false} CallTrouble(a: Expr, b: Expr, structs: bool, t: Trouble)
    requires SameNode(a, b) && a.Call? && b.Call?
    ensures Test(a, b, structs) == AnswerFor(t) <==>
              TroubleHere(a, b, structs, t) || exists i: nat :: PartTrouble(a, b, structs, t, i)
    decreases a, 0
  {
    hide HasTrouble, Erase, Comparable, SamePart, PartTrouble, ElementTrouble, TestAll, EraseAll, ComparableAll;
    ListParts(a, b, structs, t, a.args, b.args);
    if |a.args| == |b.args| {
      AllTrouble(a.args, b.args, structs, t);
      EqualIffSameAll(a.args, b.args, structs);
    } else {
      ErasedLengths(a.args, b.args);
    }
  }

  lemma ErasedLengths(as1: seq<Expr>, as2: seq<Expr>)
    ensures |as1| != |as2| ==> EraseAll(as1) != EraseAll(as2)
  {
  }

  lemma NoParts(a: Expr, b: Expr, structs: bool, t: Trouble)
    requires Children(a) == []
    ensures !exists i: nat :: PartTrouble(a, b, structs, t, i)
  {
  }

  lemma NoTroubleApart(a: Expr, b: Expr, structs: bool, t: Trouble)
    requires !SameNode(a, b)
    ensures !TroubleHere(a, b, structs, t) && !exists i: nat :: PartTrouble(a, b, structs, t, i)
  {
    hide Children, SameNode;
  }

  lemma {:induction false} ComparableAt(es: seq<Expr>, structs: bool, i: nat)
    requires ComparableAll(es, structs) && i < |es|
    ensures Comparable(es[i], structs)
    decreases es
  {
    if i > 0 {
      ComparableAt(es[1..], structs, i - 1);
    }
  }

  lemma ChildComparable(e: Expr, structs: bool, i: nat)
    requires Comparable(e, structs) && i < |Children(e)|
    ensures ComparableOption(Children(e)[i], structs)
  {
    match e {
      case Call(_, _, _, args, _, _, _) => ComparableAt(args, structs, i);
      case MakeStruct(_, fields) => ComparableAt(fields, structs, i);
      case _ =>
    }
  }

  lemma {:induction false} NoneIncomparable(a: Expr, b: Expr, structs: bool, path: seq<nat>)
    requires Comparable(a, structs) && Comparable(b, structs)
    ensures !TroubleAt(a, b, structs, Unsupportable, path)
    decreases |path|
  {
    if TroubleAt(a, b, structs, Unsupportable, path) && path != [] {
      var i := path[0];
      ChildComparable(a, structs, i);
      ChildComparable(b, structs, i);
      NoneIncomparable(Children(a)[i].value, Children(b)[i].value, structs, path[1..]);
    }
  }

  /** The comparison of comparable expressions is decided. */
  lemma ComparableDecided(a: Expr, b: Expr, structs: bool)
    requires Comparable(a, structs) && Comparable(b, structs)
    ensures !Test(a, b, structs).Unknown?
  {
    hide Test, Comparable, TroubleAt;
    TroubleIff(a, b, structs, Unsupportable);
    forall path
      ensures !TroubleAt(a, b, structs, Unsupportable, path)
    {
      NoneIncomparable(a, b, structs, path);
    }
  }

  // ----- Evaluation -----

  /** What an expression evaluates to: the exact value of a literal, or something made
      of values. */
  datatype Result = Exact(value: Value) | Made(parts: seq<Result>)

  /** The meaning of the nodes, as functions of the values of their parts. A
      volatile function may give another value at each site. */
  datatype Environment = Environment(
    column: nat -> Result,
    parameter: (string, int) -> Result,
    expressionColumn: string -> Result,
    argument: (string, nat) -> Result,
    structField: (nat, Result) -> Result,
    protoField: (ExprType, (int, int, bool, nat, bool), Result) -> Result,
    rowField: (nat, Result) -> Result,
    jsonField: (string, Result) -> Result,
    property: (nat, Option<Result>, Result) -> Result,
    cast: (ExprType, (bool, nat), Result, Option<Result>, Option<Result>) -> Result,
    call: (Function, (nat, seq<nat>), seq<Result>) -> Result,
    atSite: (nat, nat, seq<Result>) -> Result,
    makeStruct: (ExprType, seq<Result>) -> Result)

  function Eval(env: Environment, e: Expr): Result
    decreases e
  {
    match e
    case Literal(_, v) => Exact(v)
    case Parameter(_, n, p) => env.parameter(n, p)
    case ExpressionColumn(_, n) => env.expressionColumn(n)
    case ColumnRef(_, c, _) => env.column(c)
    case ArgumentRef(_, n, k) => env.argument(n, k)
    case GetStructField(_, e1, i, _) => env.structField(i, Eval(env, e1))
    case GetProtoField(t, e1, n, d, h, f, u) => env.protoField(t, (n, d, h, f, u), Eval(env, e1))
    case GetRowField(_, e1, c) => env.rowField(c, Eval(env, e1))
    case GetJsonField(_, e1, n) => env.jsonField(n, Eval(env, e1))
    case GetElementProperty(_, e1, n, p) => env.property(p, EvalOption(env, n), Eval(env, e1))
    case Cast(t, e1, n, f, z, m) => env.cast(t, (n, m), Eval(env, e1), EvalOption(env, f), EvalOption(env, z))
    case Call(_, f, m, args, cs, _, site) =>
      if f.volatile then env.atSite(site, f.id, EvalAll(env, args)) else env.call(f, (m, cs), EvalAll(env, args))
    case MakeStruct(t, fs) => env.makeStruct(t, EvalAll(env, fs))
    case Unsupported(_, k, site) => env.atSite(site, k, [])
  }

  function EvalAll(env: Environment, es: seq<Expr>): seq<Result>
    decreases es
  {
    if es == [] then [] else [Eval(env, es[0])] + EvalAll(env, es[1..])
  }

  function EvalOption(env: Environment, o: Option<Expr>): Option<Result>
    decreases o
  {
    if o.None? then None else Some(Eval(env, o.value))
  }

  /** Literals at the same place of two expressions are exactly the same. */
  predicate SameLiterals(a: Expr, b: Expr)
    decreases a
  {
    NodeKind(a) == NodeKind(b) ==>
      match a
      case Literal(_, v) => v == b.value
      case GetStructField(_, e, _, _) => SameLiterals(e, b.expr)
      case GetProtoField(_, e, _, _, _, _, _) => SameLiterals(e, b.expr)
      case GetRowField(_, e, _) => SameLiterals(e, b.expr)
      case GetJsonField(_, e, _) => SameLiterals(e, b.expr)
      case GetElementProperty(_, e, n, _) => SameLiterals(e, b.expr) && SameLiteralsOption(n, b.propertyName)
      case Cast(_, e, _, f, z, _) =>
        SameLiterals(e, b.expr) && SameLiteralsOption(f, b.castFormat) && SameLiteralsOption(z, b.timeZone)
      case Call(_, _, _, args, _, _, _) => SameLiteralsAll(args, b.args)
      case MakeStruct(_, fields) => SameLiteralsAll(fields, b.fields)
      case _ => true
  }

  predicate SameLiteralsAll(as1: seq<Expr>, as2: seq<Expr>)
    decreases as1
  {
    as1 != [] && as2 != [] ==> SameLiterals(as1[0], as2[0]) && SameLiteralsAll(as1[1..], as2[1..])
  }

  predicate SameLiteralsOption(a: Option<Expr>, b: Option<Expr>)
    decreases a
  {
    a.Some? && b.Some? ==> SameLiterals(a.value, b.value)
  }

  /** Equal expressions with exactly the same literals have the same value. */
  lemma {:induction false} SameLiteralsSameValue(env: Environment, a: Expr, b: Expr, structs: bool)
    requires Test(a, b, structs).Equal? && SameLiterals(a, b)
    ensures Eval(env, a) == Eval(env, b)
    decreases a
  {
    match a {
      case GetStructField(_, e, _, _) => SameLiteralsSameValue(env, e, b.expr, structs);
      case GetProtoField(_, e, _, _, _, _, _) => SameLiteralsSameValue(env, e, b.expr, structs);
      case GetRowField(_, e, _) => SameLiteralsSameValue(env, e, b.expr, structs);
      case GetJsonField(_, e, _) => SameLiteralsSameValue(env, e, b.expr, structs);
      case GetElementProperty(_, e, n, _) =>
        SameLiteralsSameValue(env, e, b.expr, structs);
        SameLiteralsSameOption(env, n, b.propertyName, structs);
      case Cast(_, e, _, f, z, _) =>
        SameLiteralsSameValue(env, e, b.expr, structs);
        SameLiteralsSameOption(env, f, b.castFormat, structs);
        SameLiteralsSameOption(env, z, b.timeZone, structs);
      case Call(_, _, _, args, _, _, _) => SameLiteralsSameValues(env, args, b.args, structs);
      case MakeStruct(_, fields) => SameLiteralsSameValues(env, fields, b.fields, structs);
      case _ =>
    }
  }

  lemma {:induction false} SameLiteralsSameValues(env: Environment, as1: seq<Expr>, as2: seq<Expr>, structs: bool)
    requires |as1| == |as2| && TestAll(as1, as2, structs).Equal? && SameLiteralsAll(as1, as2)
    ensures EvalAll(env, as1) == EvalAll(env, as2)
    decreases as1
  {
    if as1 != [] {
      SameLiteralsSameValue(env, as1[0], as2[0], structs);
      SameLiteralsSameValues(env, as1[1..], as2[1..], structs);
    }
  }

  lemma {:induction false} SameLiteralsSameOption(env: Environment, a: Option<Expr>, b: Option<Expr>, structs: bool)
    requires TestOption(a, b, structs).Equal? && SameLiteralsOption(a, b)
    ensures EvalOption(env, a) == EvalOption(env, b)
    decreases a
  {
    if a.Some? { SameLiteralsSameValue(env, a.value, b.value, structs); }
  }

  function Parts(o: Option<Result>): Result {
    if o.None? then Made([]) else Made([o.value])
  }

  /** An environment in which every node keeps the values of its parts. */
  const FREE := Environment(
    c => Made([]),
    (n, p) => Made([]),
    n => Made([]),
    (n, k) => Made([]),
    (i, v) => Made([v]),
    (t, x, v) => Made([v]),
    (c, v) => Made([v]),
    (n, v) => Made([v]),
    (p, n, v) => Made([v, Parts(n)]),
    (t, x, v, f, z) => Made([v, Parts(f), Parts(z)]),
    (f, x, vs) => Made(vs),
    (site, k, vs) => Made(vs),
    (t, vs) => Made(vs))

  lemma PartsInjective(o: Option<Result>, p: Option<Result>)
    ensures Parts(o) == Parts(p) <==> o == p
  {
    if o.Some? && p.Some? && Parts(o) == Parts(p) {
      assert [o.value][0] == [p.value][0];
    }
  }

  lemma MadeOne(v: Result, w: Result)
    ensures Made([v]) == Made([w]) <==> v == w
  {
    if Made([v]) == Made([w]) {
      assert [v][0] == [w][0];
    }
  }

  /** Equal expressions with the same value there have exactly the same literals. */
  lemma {:induction false} FreeTellsLiterals(a: Expr, b: Expr, structs: bool)
    requires Test(a, b, structs).Equal? && Eval(FREE, a) == Eval(FREE, b)
    ensures SameLiterals(a, b)
    decreases a
  {
    match a {
      case GetStructField(_, e, _, _) =>
        MadeOne(Eval(FREE, e), Eval(FREE, b.expr));
        FreeTellsLiterals(e, b.expr, structs);
      case GetProtoField(_, e, _, _, _, _, _) =>
        MadeOne(Eval(FREE, e), Eval(FREE, b.expr));
        FreeTellsLiterals(e, b.expr, structs);
      case GetRowField(_, e, _) =>
        MadeOne(Eval(FREE, e), Eval(FREE, b.expr));
        FreeTellsLiterals(e, b.expr, structs);
      case GetJsonField(_, e, _) =>
        MadeOne(Eval(FREE, e), Eval(FREE, b.expr));
        FreeTellsLiterals(e, b.expr, structs);
      case GetElementProperty(_, e, n, _) =>
        FreeProperty(a, b);
        FreeTellsLiterals(e, b.expr, structs);
        FreeTellsOption(n, b.propertyName, structs);
      case Cast(_, e, _, f, z, _) =>
        FreeCast(a, b);
        FreeTellsLiterals(e, b.expr, structs);
        FreeTellsOption(f, b.castFormat, structs);
        FreeTellsOption(z, b.timeZone, structs);
      case Call(_, _, _, args, _, _, _) => FreeTellsAll(args, b.args, structs);
      case MakeStruct(_, fields) => FreeTellsAll(fields, b.fields, structs);
      case _ =>
    }
  }

  lemma FreeProperty(a: Expr, b: Expr)
    requires a.GetElementProperty? && b.GetElementProperty? && Eval(FREE, a) == Eval(FREE, b)
    ensures Eval(FREE, a.expr) == Eval(FREE, b.expr)
    ensures EvalOption(FREE, a.propertyName) == EvalOption(FREE, b.propertyName)
  {
    var v, w := Eval(FREE, a).parts, Eval(FREE, b).parts;
    assert v[0] == w[0] && v[1] == w[1];
    PartsInjective(EvalOption(FREE, a.propertyName), EvalOption(FREE, b.propertyName));
  }

  lemma FreeCast(a: Expr, b: Expr)
    requires a.Cast? && b.Cast? && Eval(FREE, a) == Eval(FREE, b)
    ensures Eval(FREE, a.expr) == Eval(FREE, b.expr)
    ensures EvalOption(FREE, a.castFormat) == EvalOption(FREE, b.castFormat)
    ensures EvalOption(FREE, a.timeZone) == EvalOption(FREE, b.timeZone)
  {
    var v, w := Eval(FREE, a).parts, Eval(FREE, b).parts;
    assert v[0] == w[0] && v[1] == w[1] && v[2] == w[2];
    PartsInjective(EvalOption(FREE, a.castFormat), EvalOption(FREE, b.castFormat));
    PartsInjective(EvalOption(FREE, a.timeZone), EvalOption(FREE, b.timeZone));
  }

  lemma {:induction false} FreeTellsAll(as1: seq<Expr>, as2: seq<Expr>, structs: bool)
    requires |as1| == |as2| && TestAll(as1, as2, structs).Equal? && EvalAll(FREE, as1) == EvalAll(FREE, as2)
    ensures SameLiteralsAll(as1, as2)
    decreases as1
  {
    if as1 != [] {
      var v, w := EvalAll(FREE, as1), EvalAll(FREE, as2);
      assert v[0] == w[0] && v[1..] == w[1..];
      assert v[1..] == EvalAll(FREE, as1[1..]) && w[1..] == EvalAll(FREE, as2[1..]);
      FreeTellsLiterals(as1[0], as2[0], structs);
      FreeTellsAll(as1[1..], as2[1..], structs);
    }
  }

  lemma {:induction false} FreeTellsOption(a: Option<Expr>, b: Option<Expr>, structs: bool)
    requires TestOption(a, b, structs).Equal? && EvalOption(FREE, a) == EvalOption(FREE, b)
    ensures SameLiteralsOption(a, b)
    decreases a
  {
    if a.Some? { FreeTellsLiterals(a.value, b.value, structs); }
  }

  /** The node at the end of a path down the expression. */
  function NodeAt(e: Expr, path: seq<nat>): Option<Expr>
    decreases |path|
  {
    if path == [] then Some(e)
    else if path[0] >= |Children(e)| || Children(e)[path[0]].None? then None
    else NodeAt(Children(e)[path[0]].value, path[1..])
  }

  /** A node that the comparison supports and that calls no volatile function. */
  predicate NodeComparable(e: Expr, structs: bool) {
    match e
    case ArgumentRef(_, _, _) => false
    case Unsupported(_, _, _) => false
    case Call(_, f, _, _, _, generic, _) => !f.volatile && !generic
    case MakeStruct(_, _) => structs
    case _ => true
  }

  ghost predicate NodesComparable(e: Expr, structs: bool) {
    forall path :: NodeAt(e, path).Some? ==> NodeComparable(NodeAt(e, path).value, structs)
  }

  ghost predicate HasVolatile(e: Expr) {
    exists path :: NodeAt(e, path).Some? && NodeAt(e, path).value.Call? && NodeAt(e, path).value.function_.volatile
  }

  lemma {:induction false} ComparableNode(e: Expr, structs: bool, path: seq<nat>)
    requires Comparable(e, structs) && NodeAt(e, path).Some?
    ensures NodeComparable(NodeAt(e, path).value, structs)
    decreases |path|
  {
    if path != [] {
      ChildComparable(e, structs, path[0]);
      ComparableNode(Children(e)[path[0]].value, structs, path[1..]);
    }
  }

  lemma ChildNodes(e: Expr, structs: bool, i: nat)
    requires NodesComparable(e, structs) && i < |Children(e)| && Children(e)[i].Some?
    ensures NodesComparable(Children(e)[i].value, structs)
  {
    hide Children, NodeComparable;
    var child := Children(e)[i].value;
    forall path | NodeAt(child, path).Some?
      ensures NodeComparable(NodeAt(child, path).value, structs)
    {
      assert ([i] + path)[1..] == path;
      assert NodeAt(e, [i] + path) == NodeAt(child, path);
    }
  }

  /** An expression is comparable exactly when each of its nodes is. */
  lemma {:induction false} ComparableIffNodes(e: Expr, structs: bool)
    ensures Comparable(e, structs) <==> NodesComparable(e, structs)
    decreases e
  {
    hide NodesComparable;
    if Comparable(e, structs) {
      NodesOfComparable(e, structs);
    }
    if NodesComparable(e, structs) {
      RootComparable(e, structs);
      match e {
        case GetStructField(_, e1, _, _) =>
          ChildNodes(e, structs, 0);
          ComparableIffNodes(e1, structs);
        case GetProtoField(_, e1, _, _, _, _, _) =>
          ChildNodes(e, structs, 0);
          ComparableIffNodes(e1, structs);
        case GetRowField(_, e1, _) =>
          ChildNodes(e, structs, 0);
          ComparableIffNodes(e1, structs);
        case GetJsonField(_, e1, _) =>
          ChildNodes(e, structs, 0);
          ComparableIffNodes(e1, structs);
        case GetElementProperty(_, e1, n, _) =>
          ChildNodes(e, structs, 0);
          ComparableIffNodes(e1, structs);
          if n.Some? {
            ChildNodes(e, structs, 1);
            ComparableIffNodes(n.value, structs);
          }
        case Cast(_, e1, _, f, z, _) =>
          ChildNodes(e, structs, 0);
          ComparableIffNodes(e1, structs);
          if f.Some? {
            ChildNodes(e, structs, 1);
            ComparableIffNodes(f.value, structs);
          }
          if z.Some? {
            ChildNodes(e, structs, 2);
            ComparableIffNodes(z.value, structs);
          }
        case Call(_, _, _, args, _, _, _) =>
          forall i | 0 <= i < |args|
            ensures NodesComparable(args[i], structs)
          {
            ChildNodes(e, structs, i);
          }
          AllComparable(args, structs);
        case MakeStruct(_, fields) =>
          forall i | 0 <= i < |fields|
            ensures NodesComparable(fields[i], structs)
          {
            ChildNodes(e, structs, i);
          }
          AllComparable(fields, structs);
        case _ =>
      }
    }
  }

  lemma {:induction false} AllComparable(es: seq<Expr>, structs: bool)
    requires forall i :: 0 <= i < |es| ==> NodesComparable(es[i], structs)
    ensures ComparableAll(es, structs)
    decreases es
  {
    hide NodesComparable, Comparable;
    if es != [] {
      ComparableIffNodes(es[0], structs);
      AllComparable(es[1..], structs);
    }
  }

  lemma NodesOfComparable(e: Expr, structs: bool)
    requires Comparable(e, structs)
    ensures NodesComparable(e, structs)
  {
    hide Comparable, NodeAt, NodeComparable;
    forall path | NodeAt(e, path).Some?
      ensures NodeComparable(NodeAt(e, path).value, structs)
    {
      ComparableNode(e, structs, path);
    }
  }

  lemma RootComparable(e: Expr, structs: bool)
    requires NodesComparable(e, structs)
    ensures NodeComparable(e, structs)
  {
    assert NodeAt(e, []) == Some(e);
  }

  lemma ComparableNotVolatile(e: Expr, structs: bool)
    requires Comparable(e, structs)
    ensures !HasVolatile(e)
  {
    hide Comparable, NodeAt;
    ComparableIffNodes(e, structs);
  }

  ghost predicate SameValue(a: Expr, b: Expr) {
    forall env: Environment :: Eval(env, a) == Eval(env, b)
  }

  lemma SameValueIff(a: Expr, b: Expr, structs: bool)
    requires Test(a, b, structs).Equal?
    ensures SameValue(a, b) <==> SameLiterals(a, b)
  {
    if SameValue(a, b) {
      FreeTellsLiterals(a, b, structs);
    }
    if SameLiterals(a, b) {
      forall env: Environment
        ensures Eval(env, a) == Eval(env, b)
      {
        SameLiteralsSameValue(env, a, b, structs);
      }
    }
  }

  /** Equal expressions call no volatile function anywhere, and they have the same value
      in every environment exactly when their literals are exactly the same. */
  lemma EqualMeansSameValue(a: Expr, b: Expr, structs: bool)
    requires Test(a, b, structs).Equal?
    ensures SameValue(a, b) <==> SameLiterals(a, b)
    ensures !HasVolatile(a) && !HasVolatile(b)
  {
    hide Test, Erase, Comparable, SameValue, HasVolatile, SameLiterals;
    SameValueIff(a, b, structs);
    EqualIffSame(a, b, structs);
    Symmetric(a, b, structs);
    EqualIffSame(b, a, structs);
    ComparableNotVolatile(a, structs);
    ComparableNotVolatile(b, structs);
  }

  const INTERVAL := ExprType(1, 1)
  const EXTRACT_MONTH := Function(1, false)

  /** `EXTRACT(MONTH FROM v)` for a literal `v`. */
  function MonthOf(v: Value): Expr {
    Call(ExprType(0, 0), EXTRACT_MONTH, 0, [Expr.Literal(INTERVAL, v)], [], false, 0)
  }

  /** An environment in which that function gives the months of an interval. */
  const MONTHS := FREE.(call := (f: Function, x: (nat, seq<nat>), vs: seq<Result>) =>
    if f == EXTRACT_MONTH && |vs| == 1 && vs[0].Exact? && vs[0].value.Interval? then
      Exact(Other(vs[0].value.months, vs[0].value.months))
    else Made(vs))

  /** `INTERVAL '1' MONTH` and `INTERVAL '30' DAY` are equal literals of different
      values, and so are the floating point zeros. */
  lemma EqualIntervalsDiffer()
    ensures var a, b := Interval(1, 0, 0, 0), Interval(0, 30, 0, 0);
            && Test(MonthOf(a), MonthOf(b), false).Equal? && !SameLiterals(MonthOf(a), MonthOf(b))
            && Eval(MONTHS, MonthOf(a)) == Exact(Other(1, 1)) && Eval(MONTHS, MonthOf(b)) == Exact(Other(0, 0))
    ensures Zero(false).Equals(Zero(true)) && Interval(0, 1, 0, 0).Equals(Interval(0, 0, 24 * 3600 * 1000000, 0))
  {
    var a, b := Interval(1, 0, 0, 0), Interval(0, 30, 0, 0);
    assert a.Equals(b);
    OneArgument(a);
    OneArgument(b);
    assert TestAll([Expr.Literal(INTERVAL, a)], [Expr.Literal(INTERVAL, b)], false).Equal?;
    assert !SameLiterals(Expr.Literal(INTERVAL, a), Expr.Literal(INTERVAL, b));
    assert !SameLiteralsAll([Expr.Literal(INTERVAL, a)], [Expr.Literal(INTERVAL, b)]);
  }

  lemma OneArgument(v: Value)
    ensures EvalAll(MONTHS, [Expr.Literal(INTERVAL, v)]) == [Exact(v)]
  {
  }
}
