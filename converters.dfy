/**
 * The older converters (`DataClassConverter.kt` and `enum.kt`): a data-class
 * converter that binds each constructor parameter by its own name and
 * accumulates every failure, and an enum converter that picks the first
 * constant whose string form equals the input.
 *
 * A converter's result is `ConfigResult<T>`, a `ValidatedNel`: a value or a
 * list of failures.
 */
module Converters {
  import opened Validation
  import opened Model

  /** `Converter<T>.convert`: a value or the failures of the conversion. */
  type Converter = Node -> Validated<Obj, seq<Failure>>

  /**
   * What the data-class converter draws on besides the value: the converter
   * registry (`converterFor`, which may have no converter for a type) and the
   * class's first constructor (`constructors.first().call`).
   */
  datatype ConverterEnv = ConverterEnv(
    converterFor: KType -> Validated<Converter, seq<Failure>>,
    call: seq<Obj> -> Obj)

  /**
   * The binding of one parameter: the value's entry under the parameter's own
   * name; an explicit null binds null when the parameter type is nullable and
   * fails with `NullForNonNull` otherwise; anything else is converted by the
   * converter for the parameter type.
   */
  function ConvertParam(value: Node, p: Param, env: ConverterEnv): Validated<Obj, seq<Failure>> {
    var vv := AtKey(value, p.name);
    if vv.NullNode? then
      if p.paramType.nullable then Valid(NullObj) else Invalid([NullForNonNull(vv, p.name)])
    else
      match env.converterFor(p.paramType)
      case Invalid(e) => Invalid(e)
      case Valid(c) => c(vv)
  }

  /** The binding of each constructor parameter, in declaration order. */
  function ParamResults(klass: KClass, value: Node, env: ConverterEnv): (rs: seq<Validated<Obj, seq<Failure>>>)
    ensures |rs| == |klass.params|
    ensures forall i | 0 <= i < |rs| :: rs[i] == ConvertParam(value, klass.params[i], env)
  {
    seq(|klass.params|, i requires 0 <= i < |klass.params| => ConvertParam(value, klass.params[i], env))
  }

  /** The constructor arguments when every parameter is bound: one per
      parameter, in declaration order. */
  function Args(klass: KClass, value: Node, env: ConverterEnv): seq<Obj>
    requires forall i | 0 <= i < |klass.params| :: ConvertParam(value, klass.params[i], env).Valid?
  {
    seq(|klass.params|, i requires 0 <= i < |klass.params| => ConvertParam(value, klass.params[i], env).value)
  }

  /**
   * `DataClassConverter.convert(value)`: every parameter is bound and the
   * results are sequenced. It succeeds exactly when every parameter does, and
   * then calls the constructor with the arguments in parameter order;
   * otherwise it reports the failures of the failing parameters.
   */
  function Convert(klass: KClass, value: Node, env: ConverterEnv): (r: Validated<Obj, seq<Failure>>)
    ensures r.Valid? <==> forall i | 0 <= i < |klass.params| :: ConvertParam(value, klass.params[i], env).Valid?
    ensures r.Valid? ==> r.value == env.call(Args(klass, value, env))
    ensures r.Invalid? ==> r.error == Flatten(Failures(ParamResults(klass, value, env)))
  {
    var rs := ParamResults(klass, value, env);
    match Sequence(rs)
    case Valid(args) =>
      assert args == Args(klass, value, env);
      Valid(env.call(args))
    case Invalid(ess) => Invalid(Flatten(ess))
  }

  /**
   * How one parameter is bound: null or `NullForNonNull` for an explicit null,
   * the failure of a missing converter unchanged, otherwise the converter's
   * outcome on the value at the parameter's name.
   */
  lemma ConvertParamCases(value: Node, p: Param, env: ConverterEnv)
    ensures var vv := AtKey(value, p.name);
      && (vv.NullNode? && p.paramType.nullable ==> ConvertParam(value, p, env) == Valid(NullObj))
      && (vv.NullNode? && !p.paramType.nullable ==> ConvertParam(value, p, env) == Invalid([NullForNonNull(vv, p.name)]))
      && (!vv.NullNode? && env.converterFor(p.paramType).Invalid? ==>
            ConvertParam(value, p, env) == Invalid(env.converterFor(p.paramType).error))
      && (!vv.NullNode? && env.converterFor(p.paramType).Valid? ==>
            ConvertParam(value, p, env) == env.converterFor(p.paramType).value(vv))
  {
  }

  /** A parameter is looked up by its own name only: two values that agree
      at that name bind it alike. */
  lemma ConvertParamReadsOwnName(v1: Node, v2: Node, p: Param, env: ConverterEnv)
    requires AtKey(v1, p.name) == AtKey(v2, p.name)
    ensures ConvertParam(v1, p, env) == ConvertParam(v2, p, env)
  {
  }

  /**
   * Every parameter failure is reported and nothing else: a failure is in the
   * converter's failure list exactly when it is among the failures of some
   * parameter; and a failing conversion has at least one failing parameter.
   */
  lemma ConvertReportsEveryFailure(klass: KClass, value: Node, env: ConverterEnv)
    requires Convert(klass, value, env).Invalid?
    ensures exists i | 0 <= i < |klass.params| :: ConvertParam(value, klass.params[i], env).Invalid?
    ensures forall f :: f in Convert(klass, value, env).error <==>
              exists i | 0 <= i < |klass.params| ::
                ConvertParam(value, klass.params[i], env).Invalid? && f in ConvertParam(value, klass.params[i], env).error
  {
    var rs := ParamResults(klass, value, env);
    FlattenFailuresMembers(rs);
  }

  /** `EnumConverter(klass)`. */
  datatype EnumConverter = EnumConverter(klass: KClass)

  /** `EnumConverterProvider.provide(type)`: a converter exactly for an enum class. */
  function Provide(t: KType): (r: Option<EnumConverter>)
    ensures r.Some? <==> t.classifier.Class? && t.classifier.klass.kind.EnumClass?
    ensures r.Some? ==> r.value.klass == t.classifier.klass
  {
    match t.classifier
    case Class(c) => if c.kind.EnumClass? then Some(EnumConverter(c)) else None
    case TypeParameter(_) => None
  }

  /** `enumConstants.find { it.toString() == s }`: the first constant whose
      string form equals `s` exactly. */
  function FindConstant(constants: seq<string>, s: string): (k: Option<nat>)
    ensures k.Some? ==> k.value < |constants| && constants[k.value] == s
    ensures k.Some? ==> forall j | 0 <= j < k.value :: constants[j] != s
    ensures k.None? <==> s !in constants
  {
    if constants == [] then None
    else if constants[0] == s then Some(0)
    else match FindConstant(constants[1..], s)
      case None => None
      case Some(k) => Some(k + 1)
  }

  /**
   * `EnumConverter.apply(cursor)`, given the cursor's value and its string
   * reading (`cursor.string()`, absent when the value is not a string). It
   * succeeds exactly when the string is one of the constants, with the first
   * such constant; otherwise it fails with `ConversionFailure(klass, value)`.
   */
  function EnumApply(c: EnumConverter, value: Node, str: Option<string>): (r: Validated<Obj, seq<Failure>>)
    requires c.klass.kind.EnumClass?
    ensures r.Valid? <==> str.Some? && str.value in c.klass.kind.constants
    ensures r.Valid? ==>
              && r.value.EnumObj? && r.value.enumClass == c.klass.name
              && r.value.ordinal < |c.klass.kind.constants|
              && c.klass.kind.constants[r.value.ordinal] == str.value
              && forall j | 0 <= j < r.value.ordinal :: c.klass.kind.constants[j] != str.value
    ensures r.Invalid? ==> r.error == [ConversionFailure(c.klass, value)]
  {
    var found := if str.Some? then FindConstant(c.klass.kind.constants, str.value) else None;
    match found
    case Some(k) => Valid(EnumObj(c.klass.name, k))
    case None => Invalid([ConversionFailure(c.klass, value)])
  }

  /**
   * Round trip: when the constants' string forms are distinct, converting the
   * string form of the constant at position `k` yields that very constant.
   */
  lemma {:induction false} EnumRoundTrip(c: EnumConverter, value: Node, k: nat)
    requires c.klass.kind.EnumClass?
    requires k < |c.klass.kind.constants|
    requires forall i, j | 0 <= i < j < |c.klass.kind.constants| :: c.klass.kind.constants[i] != c.klass.kind.constants[j]
    ensures EnumApply(c, value, Some(c.klass.kind.constants[k])) == Valid(EnumObj(c.klass.name, k))
  {
    var cs := c.klass.kind.constants;
    var r := EnumApply(c, value, Some(cs[k]));
    assert r.Valid?;
    var o := r.value.ordinal;
    assert cs[o] == cs[k];
    assert o == k;
  }

  /** Matching is exact, so case-sensitive: `"red"` is not the constant `"Red"`. */
  lemma EnumIsCaseSensitive(value: Node)
    ensures var c := EnumConverter(KClass("Color", EnumClass(["Red", "Green"]), []));
      && EnumApply(c, value, Some("red")) == Invalid([ConversionFailure(c.klass, value)])
      && EnumApply(c, value, Some("Red")) == Valid(EnumObj("Color", 0))
  {
    var cs := ["Red", "Green"];
    assert cs[0] == "Red" && cs[1] == "Green";
    assert "red" != "Red" && "red" != "Green";
    assert "red" !in cs;
  }
}
