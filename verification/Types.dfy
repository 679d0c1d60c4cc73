/** The value-level vocabulary of signature matching: SQL types, templated
    argument kinds and the arguments of a call.
 */
module Types {

  datatype Option<+T> = None | Some(value: T)

  const STRING := ScalarType(0)

  /** SQL types, as far as template matching tells them apart. */
  datatype Type =
    | Int64Type
    | ScalarType(id: nat)
    | EnumType(id: nat)
    | StructType(id: nat)
    | ProtoType(id: nat)
    | MapEntryType(key: Type, value: Type)
    | ArrayType(element: Type)
    | RangeType(element: Type)
    | MapType(key: Type, value: Type)
    | MeasureType(result: Type)
  {
    /** A proto map is an array of map-entry protos. */
    predicate IsProtoMap() {
      ArrayType? && element.MapEntryType?
    }

    predicate IsProto() {
      ProtoType? || MapEntryType?
    }

    predicate IsSimple() {
      Int64Type? || ScalarType?
    }
  }

  /** How the value of an argument is given. Untyped arguments carry a
      conventional type (INT64 or ARRAY<INT64>) that matching does not use. */
  datatype Form =
    | NonLiteral
    | QueryParameter
    | Literal
    | NullLiteral
    | EmptyArrayLiteral
    | UntypedNull
    | UntypedParameter
    | UntypedEmptyArray

  /** One argument of a call. `isDefault` marks the default value of an omitted
      argument, which is otherwise like any other. */
  datatype InputArg = InputArg(form: Form, typ: Type, isDefault: bool) {
    predicate IsUntyped() {
      form.UntypedNull? || form.UntypedParameter? || form.UntypedEmptyArray?
    }

    predicate IsLiteral() {
      form.Literal? || form.NullLiteral? || form.EmptyArrayLiteral?
    }

    /** What comparisons of arguments see. */
    function Bare(): InputArg {
      this.(isDefault := false)
    }
  }

  /** The kinds a signature argument or result can have. `Fixed` carries its type;
      the index of `Any` and `ArrayAny` runs over 1..5. */
  datatype Kind =
    | Fixed(typ: Type)
    | Arbitrary
    | Any(k: nat)
    | ArrayAny(k: nat)
    | EnumAny
    | ProtoAny
    | StructAny
    | ProtoMapAny
    | ProtoMapKeyAny
    | ProtoMapValueAny
    | RangeAny1
    | MapAny12
    | MeasureAny1
    | StringAny
}
