/**
 Executable documents as the GraphQL grammar builds them, and what the canonical form
 keeps of one. String values are evaluated, numbers are kept as written.
 */
module Ast {
  import opened Bytes
  import opened Lexical

  datatype Value =
    | Variable(name: bytes)
    | IntValue(text: bytes)
    | FloatValue(text: bytes)
    | StringValue(value: bytes)
    | BooleanValue(b: bool)
    | NullValue
    | EnumValue(name: bytes)
    | ListValue(items: seq<Value>)
    | ObjectValue(fields: seq<ObjectField>)

  datatype ObjectField = ObjectField(name: bytes, value: Value)

  datatype Argument = Argument(name: bytes, value: Value)

  datatype Directive = Directive(name: bytes, arguments: seq<Argument>)

  /** NonNull never wraps a NonNull, see WfType in module Grammar. */
  datatype Type = Named(name: bytes) | ListType(inner: Type) | NonNull(inner: Type)

  datatype VariableDefinition = VariableDefinition(
    description: Option<bytes>, name: bytes, ty: Type, default: Option<Value>, directives: seq<Directive>)

  /** A field without a selection set has selections == []. */
  datatype Selection =
    | Field(alias: Option<bytes>, name: bytes, arguments: seq<Argument>, directives: seq<Directive>,
            selections: seq<Selection>)
    | FragmentSpread(name: bytes, directives: seq<Directive>)
    | InlineFragment(condition: Option<bytes>, directives: seq<Directive>, selections: seq<Selection>)

  datatype Kind = Query | Mutation | Subscription

  /** shorthand marks `{...}` without the keyword `query`. */
  datatype Definition =
    | Operation(description: Option<bytes>, shorthand: bool, kind: Kind, opName: Option<bytes>,
                variables: seq<VariableDefinition>, directives: seq<Directive>, selections: seq<Selection>)
    | Fragment(description: Option<bytes>, name: bytes, condition: bytes,
               directives: seq<Directive>, selections: seq<Selection>)

  type Document = seq<Definition>
}
