/**
 * The null-handling wrapper of `NonNullableDecoder` (and of its newer
 * counterpart `NullHandlingDecoder`): an absent node and an explicit null are
 * settled before the wrapped decoder's `safeDecode` is consulted.
 */
module Nullability {
  import opened Validation
  import opened Model

  /**
   * The outcome the wrapper settles without the wrapped decoder: `Some` for
   * `Undefined` and `NullNode`, `None` when `safeDecode` must run.
   */
  function Intercept(node: Node, t: KType): (r: Option<Validated<Obj, Failure>>)
    ensures r.None? <==> IsDefined(node) && !node.NullNode?
    ensures r.Some? && r.value.Valid? ==> t.nullable && r.value.value == NullObj
  {
    match node
    case Undefined => Some(if t.nullable then Valid(NullObj) else Invalid(MissingValue))
    case NullNode(_, _) => Some(if t.nullable then Valid(NullObj) else Invalid(NullValueForNonNullField(node)))
    case _ => None
  }

  /** `NonNullableDecoder.decode(value, type, registry)`, with `safeDecode` fixed to the other arguments. */
  function NonNullable(node: Node, t: KType, safeDecode: Node -> Validated<Obj, Failure>): (r: Validated<Obj, Failure>)
    ensures node.Undefined? ==> r == if t.nullable then Valid(NullObj) else Invalid(MissingValue)
    ensures node.NullNode? ==> r == if t.nullable then Valid(NullObj) else Invalid(NullValueForNonNullField(node))
    ensures IsDefined(node) && !node.NullNode? ==> r == safeDecode(node)
  {
    match Intercept(node, t)
    case Some(settled) => settled
    case None => safeDecode(node)
  }

  /** On `Undefined` or `NullNode` the wrapped decoder is never consulted:
      any two `safeDecode` functions give the same outcome. */
  lemma SafeDecodeNotConsultedOnNull(node: Node, t: KType, s1: Node -> Validated<Obj, Failure>, s2: Node -> Validated<Obj, Failure>)
    requires node.Undefined? || node.NullNode?
    ensures NonNullable(node, t, s1) == NonNullable(node, t, s2)
  {
  }
}
