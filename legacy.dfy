/**
 * The older decoder generation (`Decoder.kt` and `files.kt`): a registry that
 * returns the first decoder supporting a type, the `map` combinator on
 * decoders, and the `File` and `Path` leaf decoders, which rely on the
 * null-handling of `NonNullableDecoder`.
 */
module LegacyDecoders {
  import opened Validation
  import opened Model
  import opened Nullability

  /** `java.io.File` and `java.nio.file.Path`. */
  const FileClass: KClass := KClass("java.io.File", OtherClass, [])
  const PathClass: KClass := KClass("java.nio.file.Path", OtherClass, [])

  /**
   * A decoder of the older generation: the two file decoders, a decoder
   * mapped by a function to the class `target` (`Decoder.map`), or any other
   * decoder, given by its `supports` predicate and its decoding function.
   */
  datatype Decoder =
    | FileDecoder
    | PathDecoder
    | Mapped(inner: Decoder, f: Obj -> Obj, target: KClass)
    | Custom(supportsFn: KType -> bool, decodeFn: (Node, KType) -> Validated<Obj, Failure>)

  /** `decoder.supports(type)`. */
  predicate Supports(d: Decoder, t: KType) {
    match d
    case FileDecoder => t.classifier == Class(FileClass)
    case PathDecoder => t.classifier == Class(PathClass)
    case Mapped(_, _, target) => t == CreateType(target)
    case Custom(supportsFn, _) => supportsFn(t)
  }

  /** `FileDecoder.safeDecode`: a string value names a file, anything else is a decode error. */
  function FileSafeDecode(node: Node, t: KType): Validated<Obj, Failure> {
    if node.StringNode? then Valid(FileObj(node.text)) else Invalid(DecodeError(node, t))
  }

  /** `PathDecoder.safeDecode`: a string value names a path, anything else is a decode error. */
  function PathSafeDecode(node: Node, t: KType): Validated<Obj, Failure> {
    if node.StringNode? then Valid(PathObj(node.text)) else Invalid(DecodeError(node, t))
  }

  /** `Validated.map`: the function applied to a value, a failure passed through. */
  function MapValid(v: Validated<Obj, Failure>, f: Obj -> Obj): (r: Validated<Obj, Failure>)
    ensures r.Valid? <==> v.Valid?
    ensures r.Valid? ==> r.value == f(v.value)
    ensures r.Invalid? ==> r == v
  {
    match v
    case Valid(x) => Valid(f(x))
    case Invalid(e) => Invalid(e)
  }

  /** `decoder.decode(value, type, registry)`. */
  function Decode(d: Decoder, node: Node, t: KType): Validated<Obj, Failure>
    decreases d
  {
    match d
    case FileDecoder => NonNullable(node, t, n => FileSafeDecode(n, t))
    case PathDecoder => NonNullable(node, t, n => PathSafeDecode(n, t))
    case Mapped(inner, f, _) => MapValid(Decode(inner, node, t), f)
    case Custom(_, decodeFn) => decodeFn(node, t)
  }

  /**
   * The file decoder: an absent value is null or missing, an explicit null is
   * null or a null-for-non-null failure carrying that node, a string names a
   * file with exactly that text, and any other value is a decode error.
   */
  lemma FileDecoderCases(node: Node, t: KType)
    ensures node.Undefined? ==> Decode(FileDecoder, node, t) == if t.nullable then Valid(NullObj) else Invalid(MissingValue)
    ensures node.NullNode? ==>
              Decode(FileDecoder, node, t) == if t.nullable then Valid(NullObj) else Invalid(NullValueForNonNullField(node))
    ensures node.StringNode? ==> Decode(FileDecoder, node, t) == Valid(FileObj(node.text))
    ensures IsDefined(node) && !node.NullNode? && !node.StringNode? ==> Decode(FileDecoder, node, t) == Invalid(DecodeError(node, t))
  {
  }

  /** The path decoder, alike. */
  lemma PathDecoderCases(node: Node, t: KType)
    ensures node.Undefined? ==> Decode(PathDecoder, node, t) == if t.nullable then Valid(NullObj) else Invalid(MissingValue)
    ensures node.NullNode? ==>
              Decode(PathDecoder, node, t) == if t.nullable then Valid(NullObj) else Invalid(NullValueForNonNullField(node))
    ensures node.StringNode? ==> Decode(PathDecoder, node, t) == Valid(PathObj(node.text))
    ensures IsDefined(node) && !node.NullNode? && !node.StringNode? ==> Decode(PathDecoder, node, t) == Invalid(DecodeError(node, t))
  {
  }

  /** The file decoder supports `File` and the path decoder `Path`, whatever
      the nullability and arguments; neither supports the other's class. */
  lemma FileDecodersSupportOwnClass(t: KType)
    ensures Supports(FileDecoder, t) <==> t.classifier == Class(FileClass)
    ensures Supports(PathDecoder, t) <==> t.classifier == Class(PathClass)
    ensures !(Supports(FileDecoder, t) && Supports(PathDecoder, t))
  {
  }

  /** A mapped decoder supports exactly the type `U::class.createType()`:
      not nullable, no arguments, whatever the inner decoder supports. */
  lemma MappedSupportsTarget(d: Decoder, f: Obj -> Obj, k: KClass, t: KType)
    ensures Supports(Mapped(d, f, k), t) <==> t == CreateType(k)
    ensures Supports(Mapped(d, f, k), t) ==> !t.nullable && t.args == [] && t.classifier == Class(k)
  {
  }

  /** Functor identity: mapping by the identity decodes as the inner decoder. */
  lemma MapIdentity(d: Decoder, k: KClass, node: Node, t: KType)
    ensures Decode(Mapped(d, x => x, k), node, t) == Decode(d, node, t)
  {
    var v := Decode(d, node, t);
    if v.Valid? {
      assert Decode(Mapped(d, x => x, k), node, t) == Valid(v.value);
    }
  }

  /** Functor composition: mapping by `f` then by `g` decodes as mapping by `g ∘ f`. */
  lemma MapComposition(d: Decoder, f: Obj -> Obj, g: Obj -> Obj, k1: KClass, k2: KClass, node: Node, t: KType)
    ensures Decode(Mapped(Mapped(d, f, k1), g, k2), node, t) == Decode(Mapped(d, x => g(f(x)), k2), node, t)
  {
  }

  /** `DefaultDecoderRegistry(decoders)` of the older generation. */
  datatype DecoderRegistry = DecoderRegistry(decoders: seq<Decoder>)

  /** `DecoderRegistry.zero`. */
  const Zero: DecoderRegistry := DecoderRegistry([])

  /** `register(decoder)`: a new registry with the decoder appended; the
      receiver, a value, is left as it was. */
  function Register(r: DecoderRegistry, d: Decoder): (r': DecoderRegistry)
    ensures |r'.decoders| == |r.decoders| + 1
    ensures r'.decoders[..|r.decoders|] == r.decoders && r'.decoders[|r.decoders|] == d
  {
    DecoderRegistry(r.decoders + [d])
  }

  /** `defaultDecoderRegistry()` with the discovered list given. */
  function FromList(ds: seq<Decoder>): DecoderRegistry
    decreases |ds|
  {
    if ds == [] then Zero else Register(FromList(ds[..|ds| - 1]), ds[|ds| - 1])
  }

  /** Folding `register` over a list from `zero` yields a registry of exactly that list. */
  lemma {:induction false} FromListHoldsList(ds: seq<Decoder>)
    ensures FromList(ds).decoders == ds
    decreases |ds|
  {
    if ds != [] {
      var init, last := ds[..|ds| - 1], ds[|ds| - 1];
      FromListHoldsList(init);
      assert FromList(ds).decoders == FromList(init).decoders + [last];
      assert init + [last] == ds;
    }
  }

  /** `decoders.find { it.supports(type) }`: the position of the first
      supporting decoder, all before it not supporting the type. */
  function FindFirst(ds: seq<Decoder>, t: KType): (k: Option<nat>)
    ensures k.Some? ==> k.value < |ds| && Supports(ds[k.value], t)
    ensures k.Some? ==> forall j | 0 <= j < k.value :: !Supports(ds[j], t)
    ensures k.None? ==> forall j | 0 <= j < |ds| :: !Supports(ds[j], t)
  {
    if ds == [] then None
    else if Supports(ds[0], t) then Some(0)
    else match FindFirst(ds[1..], t)
      case None => None
      case Some(k) => Some(k + 1)
  }

  /**
   * `DefaultDecoderRegistry.decoder(type)`: the first registered decoder that
   * supports the type, else `NoSuchDecoder(type)`.
   */
  function Lookup(r: DecoderRegistry, t: KType): (res: Validated<Decoder, Failure>)
    ensures res.Invalid? <==> forall j | 0 <= j < |r.decoders| :: !Supports(r.decoders[j], t)
    ensures res.Invalid? ==> res.error == NoSuchDecoder(t)
    ensures res.Valid? ==>
              exists k | 0 <= k < |r.decoders| ::
                && res.value == r.decoders[k]
                && Supports(r.decoders[k], t)
                && forall j | 0 <= j < k :: !Supports(r.decoders[j], t)
  {
    match FindFirst(r.decoders, t)
    case None => Invalid(NoSuchDecoder(t))
    case Some(k) => Valid(r.decoders[k])
  }

  /**
   * Registering never shadows: after `register(d)` a type that was found is
   * found as before, and a type that was not is found exactly when `d`
   * supports it, then as `d`.
   */
  lemma LookupAfterRegister(r: DecoderRegistry, d: Decoder, t: KType)
    ensures Lookup(r, t).Valid? ==> Lookup(Register(r, d), t) == Lookup(r, t)
    ensures Lookup(r, t).Invalid? ==>
              Lookup(Register(r, d), t) == if Supports(d, t) then Valid(d) else Invalid(NoSuchDecoder(t))
  {
    var ds, ds' := r.decoders, Register(r, d).decoders;
    assert forall j | 0 <= j < |ds| :: ds'[j] == ds[j];
    if Lookup(r, t).Valid? {
      var k :| 0 <= k < |ds| && Lookup(r, t).value == ds[k] && Supports(ds[k], t)
        && forall j | 0 <= j < k :: !Supports(ds[j], t);
      var k' :| 0 <= k' < |ds'| && Lookup(Register(r, d), t).value == ds'[k'] && Supports(ds'[k'], t)
        && forall j | 0 <= j < k' :: !Supports(ds'[j], t);
      assert k == k';
    } else if Supports(d, t) {
      assert Supports(ds'[|ds|], t);
      var k' :| 0 <= k' < |ds'| && Lookup(Register(r, d), t).value == ds'[k'] && Supports(ds'[k'], t)
        && forall j | 0 <= j < k' :: !Supports(ds'[j], t);
      assert k' == |ds|;
    }
  }
}
