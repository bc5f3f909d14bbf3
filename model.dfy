/**
 * The data the decoding engine works on: the position-tagged value tree, the
 * descriptors that stand in for Kotlin reflection (`KType`, `KClass`,
 * constructor parameters), the objects decoders produce and the failures they
 * report.
 *
 * Both API generations share this tree: the older one names the variants
 * `StringValue`, `NullValue`, `UndefinedValue`, `MapValue`, `ListValue`, the
 * newer one `StringNode`, `NullNode`, `Undefined`, `MapNode`, `ArrayNode`.
 */
module Model {

  /** Where a node came from: `Pos.NoPos` or `Pos.LineColPos`. */
  datatype Pos = NoPos | LineColPos(line: int, col: int, source: string)

  /** A 64-bit floating-point payload, kept opaque as its bit pattern. */
  datatype Double = Double(bits: bv64)

  /** A node of the untyped value tree; `path` locates it from the root. */
  datatype Node =
    | StringNode(text: string, pos: Pos, path: string)
    | LongNode(long: int, pos: Pos, path: string)
    | DoubleNode(double: Double, pos: Pos, path: string)
    | BooleanNode(boolean: bool, pos: Pos, path: string)
    | NullNode(pos: Pos, path: string)
    | MapNode(entries: map<string, Node>, pos: Pos, path: string)
    | ArrayNode(elements: seq<Node>, pos: Pos, path: string)
    | Undefined

  /** `node.pos`; the `Undefined` sentinel has no position. */
  function PosOf(node: Node): Pos {
    if node.Undefined? then NoPos else node.pos
  }

  /** `node.isDefined`: every node but the `Undefined` sentinel. */
  predicate IsDefined(node: Node) {
    !node.Undefined?
  }

  /** `node.atKey(key)`: the entry of a map node, `Undefined` for anything else. */
  function AtKey(node: Node, key: string): Node {
    if node.MapNode? && key in node.entries then node.entries[key] else Undefined
  }

  /** What reflection reports about a class: data class, enum (with the string
      forms of its constants, in declaration order), a subtype of `Set`, or
      another class. */
  datatype ClassKind = DataClass | EnumClass(constants: seq<string>) | SetClass | OtherClass

  /** A class and the parameters of its first constructor. */
  datatype KClass = KClass(name: string, kind: ClassKind, params: seq<Param>)

  /** `KType.classifier`: a class, or a type parameter. */
  datatype Classifier = Class(klass: KClass) | TypeParameter(name: string)

  /** `KType`: classifier, `isMarkedNullable` and the type arguments. */
  datatype KType = KType(classifier: Classifier, nullable: bool, args: seq<KType>)

  /** `KParameter`: its name, its type and `isOptional` (it has a default). */
  datatype Param = Param(name: string, paramType: KType, isOptional: bool)

  predicate IsClass(t: KType) {
    t.classifier.Class?
  }

  predicate IsDataClass(t: KType) {
    t.classifier.Class? && t.classifier.klass.kind.DataClass?
  }

  /** The parameters of the first constructor of the type's class. */
  function Params(t: KType): (ps: seq<Param>)
    ensures WellFormed(t) ==> forall i | 0 <= i < |ps| :: IsClass(ps[i].paramType) && WellFormed(ps[i].paramType)
    ensures WellFormed(t) ==> forall i, j | 0 <= i < j < |ps| :: ps[i].name != ps[j].name
  {
    if t.classifier.Class? then t.classifier.klass.params else []
  }

  /** The type `U::class.createType()` gives: not nullable, no arguments. */
  function CreateType(k: KClass): KType {
    KType(Class(k), false, [])
  }

  /**
   * The types the decoders are modelled on: every classifier is a class, a
   * `Set` type has its one type argument, and the parameter names of a
   * constructor are distinct; the same holds of every type argument and every
   * parameter type. Resolution throws only for a classifier that is not a
   * class, and only when it is reached, so this excludes more than the source
   * does: a type parameter anywhere in the tree is ruled out, even where no
   * decoder is ever resolved for it.
   */
  predicate WellFormed(t: KType)
    decreases t
  {
    && t.classifier.Class?
    && (t.classifier.klass.kind.SetClass? ==> |t.args| == 1)
    && (forall i, j | 0 <= i < j < |t.classifier.klass.params| ::
          t.classifier.klass.params[i].name != t.classifier.klass.params[j].name)
    && (forall i | 0 <= i < |t.args| :: IsClass(t.args[i]) && WellFormed(t.args[i]))
    && (forall i | 0 <= i < |t.classifier.klass.params| ::
          IsClass(t.classifier.klass.params[i].paramType) && WellFormed(t.classifier.klass.params[i].paramType))
  }

  /** What a decoder produces: the JVM object a configuration value becomes. */
  datatype Obj =
    | NullObj
    | StringObj(s: string)
    | LongObj(n: int)
    | DoubleObj(d: Double)
    | BooleanObj(b: bool)
    | FileObj(filePath: string)
    | PathObj(pathText: string)
    | EnumObj(enumClass: string, ordinal: nat)
    | SetObj(members: set<Obj>)
    | InstanceObj(className: string, fields: map<string, Obj>)

  /** `ConfigFailure` and the older top-level failures. */
  datatype Failure =
    | MissingValue
    | NullValueForNonNullField(node: Node)
    | NoDataClassDecoder
    | NoSuchDecoder(ktype: KType)
    | DecodeError(node: Node, ktype: KType)
    | ParamFailure(param: Param, cause: Failure)
    | DataClassFieldErrors(errors: seq<Failure>, ktype: KType, pos: Pos)
    | InvalidConstructorParameters(ktype: KType, args: map<string, Obj>)
    | CollectionElementErrors(node: Node, errors: seq<Failure>)
    | UnsupportedCollectionType(node: Node, collection: string)
    | NullForNonNull(node: Node, paramName: string)
    | ConversionFailure(klass: KClass, node: Node)
}
