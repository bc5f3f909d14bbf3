/**
 * The newer decoding engine: `DataClassDecoder` and `SetDecoder` resolving the
 * decoders of nested types through a `DecoderContext`. Decoding recurses into
 * the parameter types of a data class and the element type of a set, so every
 * recursive call is on a smaller type.
 */
module Decoding {
  import opened Validation
  import opened Model
  import opened Registry
  import opened Nullability
  import Text

  /**
   * `DecoderContext`: the registry, the parameter-name mappers and the node
   * preprocessors, plus `callBy`, which stands for reflective invocation of a
   * class's first constructor (`None` when it throws `IllegalArgumentException`).
   */
  datatype DecoderContext = DecoderContext(
    registry: DecoderRegistry,
    paramMappers: seq<Param -> string>,
    preprocessors: seq<Node -> Node>,
    callBy: (KType, map<string, Obj>) -> Option<Obj>)

  // ---------------------------------------------------------------------
  // Locating and preprocessing the node of one constructor parameter
  // ---------------------------------------------------------------------

  /** The fold over the parameter mappers: a defined node is kept, otherwise
      the next mapper's name is looked up in `node`. */
  function MapperFold(node: Node, p: Param, mappers: seq<Param -> string>): Node
    decreases |mappers|
  {
    if mappers == [] then Undefined
    else
      var n := MapperFold(node, p, mappers[..|mappers| - 1]);
      if IsDefined(n) then n else AtKey(node, mappers[|mappers| - 1](p))
  }

  /** The node under the first mapper's name that is present, else `Undefined`. */
  function FirstDefined(node: Node, p: Param, mappers: seq<Param -> string>): Node {
    if mappers == [] then Undefined
    else if IsDefined(AtKey(node, mappers[0](p))) then AtKey(node, mappers[0](p))
    else FirstDefined(node, p, mappers[1..])
  }

  /** The mapper fold is first-match: the node bound to a parameter is the one
      found under the first mapper whose lookup is defined. */
  lemma {:induction false} MapperFoldIsFirstDefined(node: Node, p: Param, mappers: seq<Param -> string>)
    ensures MapperFold(node, p, mappers) == FirstDefined(node, p, mappers)
    decreases |mappers|
  {
    if mappers != [] {
      var init, last := mappers[..|mappers| - 1], mappers[|mappers| - 1];
      MapperFoldIsFirstDefined(node, p, init);
      FirstDefinedAppend(node, p, init, last);
      assert mappers == init + [last];
    }
  }

  lemma {:induction false} FirstDefinedAppend(node: Node, p: Param, mappers: seq<Param -> string>, m: Param -> string)
    ensures FirstDefined(node, p, mappers + [m])
         == if IsDefined(FirstDefined(node, p, mappers)) then FirstDefined(node, p, mappers) else AtKey(node, m(p))
    decreases |mappers|
  {
    if mappers == [] {
      assert [m][1..] == [];
    } else {
      assert (mappers + [m])[1..] == mappers[1..] + [m];
      FirstDefinedAppend(node, p, mappers[1..], m);
    }
  }

  /** The first-defined lookup is undefined only when every mapper's lookup is,
      and otherwise is the lookup of a mapper all of whose predecessors missed. */
  lemma {:induction false} FirstDefinedWitness(node: Node, p: Param, mappers: seq<Param -> string>)
    ensures !IsDefined(FirstDefined(node, p, mappers)) <==>
              forall i | 0 <= i < |mappers| :: !IsDefined(AtKey(node, mappers[i](p)))
    ensures IsDefined(FirstDefined(node, p, mappers)) ==>
              exists i | 0 <= i < |mappers| ::
                && FirstDefined(node, p, mappers) == AtKey(node, mappers[i](p))
                && forall j | 0 <= j < i :: !IsDefined(AtKey(node, mappers[j](p)))
  {
    if mappers != [] {
      FirstDefinedWitness(node, p, mappers[1..]);
      assert forall i | 0 < i < |mappers| :: mappers[i] == mappers[1..][i - 1];
      if !IsDefined(AtKey(node, mappers[0](p))) && IsDefined(FirstDefined(node, p, mappers[1..])) {
        var i :| 0 <= i < |mappers[1..]|
          && FirstDefined(node, p, mappers[1..]) == AtKey(node, mappers[1..][i](p))
          && forall j | 0 <= j < i :: !IsDefined(AtKey(node, mappers[1..][j](p)));
        assert FirstDefined(node, p, mappers) == AtKey(node, mappers[i + 1](p));
      }
    }
  }

  /** `preprocessors.fold(n) { acc, pp -> pp.process(acc) }`. */
  function Preprocess(n: Node, pps: seq<Node -> Node>): Node
    decreases |pps|
  {
    if pps == [] then n else pps[|pps| - 1](Preprocess(n, pps[..|pps| - 1]))
  }

  /** Preprocessing by a concatenation is preprocessing by each part in turn. */
  lemma {:induction false} PreprocessConcat(n: Node, a: seq<Node -> Node>, b: seq<Node -> Node>)
    ensures Preprocess(n, a + b) == Preprocess(Preprocess(n, a), b)
    decreases |b|
  {
    if b == [] {
      assert a + b == a;
    } else {
      var init := b[..|b| - 1];
      PreprocessConcat(n, a, init);
      assert (a + b)[..|a + b| - 1] == a + init;
    }
  }

  /** Preprocessors run left to right: the first in the list sees the node first. */
  lemma PreprocessLeftToRight(n: Node, pps: seq<Node -> Node>)
    requires pps != []
    ensures Preprocess(n, pps) == Preprocess(pps[0](n), pps[1..])
  {
    PreprocessConcat(n, [pps[0]], pps[1..]);
    assert [pps[0]] + pps[1..] == pps;
    assert [pps[0]][..0] == [];
  }

  /** The node a parameter is decoded from: mapped, then preprocessed. */
  function ParamNode(node: Node, p: Param, ctx: DecoderContext): Node {
    Preprocess(MapperFold(node, p, ctx.paramMappers), ctx.preprocessors)
  }

  // ---------------------------------------------------------------------
  // The decoders
  // ---------------------------------------------------------------------

  /** `decoder.decode(node, type, context)` for a decoder that supports the type. */
  function Decode(d: Decoder, node: Node, t: KType, ctx: DecoderContext): Validated<Obj, Failure>
    requires WellFormed(t) && Supports(d, t)
    decreases t, 3
  {
    match d
    case DataClassDecoder => DataClassDecode(node, t, ctx)
    case SetDecoder =>
      (match Intercept(node, t)
       case Some(settled) => settled
       case None => SetSafeDecode(node, t, ctx))
    case LeafDecoder(_, _, decodeFn) => decodeFn(node, t)
  }

  /**
   * One parameter of `DataClassDecoder.decode` (the `mapNotNull` body):
   * `None` skips an optional parameter with no value; otherwise the binding of
   * the parameter or its failure.
   */
  function BindParam(node: Node, t: KType, i: nat, ctx: DecoderContext): (r: Option<Validated<(Param, Obj), Failure>>)
    requires WellFormed(t) && i < |Params(t)|
    // skipped exactly when the parameter is optional and has no value
    ensures r.None? <==> Params(t)[i].isOptional && ParamNode(node, Params(t)[i], ctx).Undefined?
    // a binding is always for this parameter
    ensures r.Some? && r.value.Valid? ==> r.value.value.0 == Params(t)[i]
    decreases t, 0
  {
    var p := Params(t)[i];
    var processed := ParamNode(node, p, ctx);
    if p.isOptional && processed.Undefined? then None
    else if p.paramType.nullable && processed.Undefined? then Some(Valid((p, NullObj)))
    else if p.paramType.nullable && processed.NullNode? then Some(Valid((p, NullObj)))
    else if processed.Undefined? then Some(Invalid(MissingValue))
    else if processed.NullNode? then Some(Invalid(NullValueForNonNullField(node)))
    else
      Some(match Resolve(ctx.registry, p.paramType)
           case Invalid(f) => Invalid(ParamFailure(p, f))
           case Valid(pd) =>
             (match Decode(pd, processed, p.paramType, ctx)
              case Invalid(f) => Invalid(ParamFailure(p, f))
              case Valid(v) => Valid((p, v))))
  }

  /**
   * The classification of one parameter's node, in the order the source tests
   * it: skipped, bound to null, missing, null for a non-null field, or decoded
   * by the decoder resolved for the parameter's type.
   */
  lemma BindParamClassifies(node: Node, t: KType, i: nat, ctx: DecoderContext)
    requires WellFormed(t) && i < |Params(t)|
    ensures var p, n, r := Params(t)[i], ParamNode(node, Params(t)[i], ctx), BindParam(node, t, i, ctx);
      // a nullable parameter with no value or an explicit null is bound to null
      && (r.Some? && p.paramType.nullable && (n.Undefined? || n.NullNode?) ==> r.value == Valid((p, NullObj)))
      // a non-nullable parameter with no value is missing
      && (r.Some? && !p.paramType.nullable && n.Undefined? ==> r.value == Invalid(MissingValue))
      // a non-nullable parameter with an explicit null reports the enclosing node
      && (!p.paramType.nullable && n.NullNode? ==> r == Some(Invalid(NullValueForNonNullField(node))))
    ensures var p, n, r := Params(t)[i], ParamNode(node, Params(t)[i], ctx), BindParam(node, t, i, ctx);
      // any other node is decoded by the decoder resolved for the parameter's
      // type, and a failure of either step is attributed to the parameter
      IsDefined(n) && !n.NullNode? ==>
        var found := Resolve(ctx.registry, p.paramType);
        && r.Some?
        && (found.Invalid? ==> r.value == Invalid(ParamFailure(p, found.error)))
        && (found.Valid? && Decode(found.value, n, p.paramType, ctx).Invalid? ==>
              r.value == Invalid(ParamFailure(p, Decode(found.value, n, p.paramType, ctx).error)))
        && (found.Valid? && Decode(found.value, n, p.paramType, ctx).Valid? ==>
              r.value == Valid((p, Decode(found.value, n, p.paramType, ctx).value)))
  {
  }

  /** The outcome of every constructor parameter, in declaration order. */
  function Outcomes(node: Node, t: KType, ctx: DecoderContext): seq<Option<Validated<(Param, Obj), Failure>>>
    requires WellFormed(t)
    decreases t, 1
  {
    seq(|Params(t)|, i requires 0 <= i < |Params(t)| => BindParam(node, t, i, ctx))
  }

  /** `List<Pair<KParameter, Any?>>.toMap()`, keyed by parameter name. */
  function ArgMap(pairs: seq<(Param, Obj)>): map<string, Obj>
    decreases |pairs|
  {
    if pairs == [] then map[]
    else ArgMap(pairs[..|pairs| - 1])[pairs[|pairs| - 1].0.name := pairs[|pairs| - 1].1]
  }

  /** `construct`: the constructor's result, or `InvalidConstructorParameters`
      when it rejects the arguments. */
  function Construct(t: KType, args: map<string, Obj>, ctx: DecoderContext): (r: Validated<Obj, Failure>)
    ensures r.Valid? <==> ctx.callBy(t, args).Some?
    ensures r.Valid? ==> r.value == ctx.callBy(t, args).value
    ensures r.Invalid? ==> r.error == InvalidConstructorParameters(t, args)
  {
    match ctx.callBy(t, args)
    case Some(v) => Valid(v)
    case None => Invalid(InvalidConstructorParameters(t, args))
  }

  /** `DataClassDecoder.decode`. */
  function DataClassDecode(node: Node, t: KType, ctx: DecoderContext): Validated<Obj, Failure>
    requires WellFormed(t)
    decreases t, 2
  {
    match Sequence(Present(Outcomes(node, t, ctx)))
    case Invalid(failures) => Invalid(DataClassFieldErrors(failures, t, PosOf(node)))
    case Valid(pairs) => Construct(t, ArgMap(pairs), ctx)
  }

  /** The string tokens of a delimited string node, each keeping the node's position and path. */
  function StringTokens(text: string, pos: Pos, path: string): seq<Node> {
    var parts := Text.Split(text, ',');
    seq(|parts|, i requires 0 <= i < |parts| => StringNode(Text.Trim(parts[i]), pos, path))
  }

  /** There is one token more than there are commas; each is a trimmed piece of
      the text, free of commas, at the string node's position and path. */
  lemma StringTokensShape(text: string, pos: Pos, path: string)
    ensures var tokens := StringTokens(text, pos, path);
      && |tokens| == |Text.Split(text, ',')| == Text.Count(text, ',') + 1
      && forall k | 0 <= k < |tokens| ::
           && tokens[k].StringNode? && tokens[k].pos == pos && tokens[k].path == path
           && tokens[k].text == Text.Trim(Text.Split(text, ',')[k])
           && ',' !in tokens[k].text
  {
    Text.SplitCount(text, ',');
    Text.SplitJoin(text, ',');
  }

  /** The nodes a set is decoded from: the elements of an array, the tokens of a string. */
  function SetElementNodes(node: Node): seq<Node>
    requires node.ArrayNode? || node.StringNode?
  {
    if node.ArrayNode? then node.elements else StringTokens(node.text, node.pos, node.path)
  }

  /** `SetDecoder.safeDecode`. */
  function SetSafeDecode(node: Node, t: KType, ctx: DecoderContext): (r: Validated<Obj, Failure>)
    requires WellFormed(t) && t.classifier.klass.kind.SetClass?
    // no decoder for the element type: that failure, whatever the node
    ensures Resolve(ctx.registry, t.args[0]).Invalid? ==> r == Invalid(Resolve(ctx.registry, t.args[0]).error)
    // neither an array nor a string: unsupported
    ensures Resolve(ctx.registry, t.args[0]).Valid? && !node.ArrayNode? && !node.StringNode? ==>
              r == Invalid(UnsupportedCollectionType(node, "Set"))
    decreases t, 2
  {
    assert WellFormed(t.args[0]) && IsClass(t.args[0]);
    match Resolve(ctx.registry, t.args[0])
    case Invalid(f) => Invalid(f)
    case Valid(ed) =>
      if node.ArrayNode? || node.StringNode? then
        CollectSet(node, DecodeEach(ed, SetElementNodes(node), t, ctx))
      else
        Invalid(UnsupportedCollectionType(node, "Set"))
  }

  /** Every node decoded, independently, against the element type `t.args[0]`. */
  function DecodeEach(d: Decoder, nodes: seq<Node>, t: KType, ctx: DecoderContext): (rs: seq<Validated<Obj, Failure>>)
    requires WellFormed(t) && |t.args| == 1 && Supports(d, t.args[0])
    ensures |rs| == |nodes|
    ensures forall k | 0 <= k < |nodes| :: rs[k] == Decode(d, nodes[k], t.args[0], ctx)
    decreases t, 1, |nodes|
  {
    if nodes == [] then []
    else DecodeEach(d, nodes[..|nodes| - 1], t, ctx) + [Decode(d, nodes[|nodes| - 1], t.args[0], ctx)]
  }

  /** `sequence()`, failures wrapped in `CollectionElementErrors`, values made a set. */
  function CollectSet(node: Node, rs: seq<Validated<Obj, Failure>>): (r: Validated<Obj, Failure>)
    ensures r.Valid? <==> AllValid(rs)
    ensures r.Valid? ==> r.value.SetObj? && forall x :: x in r.value.members <==> exists k | 0 <= k < |rs| :: rs[k] == Valid(x)
    ensures r.Invalid? ==> r.error == CollectionElementErrors(node, Failures(rs)) && Failures(rs) != []
  {
    match Sequence(rs)
    case Invalid(failures) => Invalid(CollectionElementErrors(node, failures))
    case Valid(values) => Valid(SetObj(set v | v in values))
  }

  /**
   * An array or string node is decoded element by element with the decoder
   * resolved for the element type: the set is valid exactly when every element
   * is, and then holds exactly the decoded elements (duplicates collapse);
   * otherwise every element failure is reported, in element order.
   */
  lemma SetDecodesEachElement(node: Node, t: KType, ctx: DecoderContext)
    requires WellFormed(t) && t.classifier.klass.kind.SetClass?
    requires Resolve(ctx.registry, t.args[0]).Valid?
    requires node.ArrayNode? || node.StringNode?
    ensures |t.args| == 1
    ensures var ed, es := Resolve(ctx.registry, t.args[0]).value, SetElementNodes(node);
      var rs, r := DecodeEach(ed, es, t, ctx), SetSafeDecode(node, t, ctx);
      && |rs| == |es| && (forall k | 0 <= k < |es| :: rs[k] == Decode(ed, es[k], t.args[0], ctx))
      && (r.Valid? <==> forall k | 0 <= k < |rs| :: rs[k].Valid?)
      && (r.Valid? ==> r.value.SetObj? && forall x :: x in r.value.members <==> exists k | 0 <= k < |rs| :: rs[k] == Valid(x))
      && (r.Invalid? ==> r.error == CollectionElementErrors(node, Failures(rs)))
  {
    SetSafeDecodeCollects(node, t, ctx);
  }

  // ---------------------------------------------------------------------
  // Properties of the data-class decoder
  // ---------------------------------------------------------------------

  /**
   * Failure accumulation over the parameter outcomes (`Outcomes(node, t, ctx)[i]`
   * is the outcome of parameter `i`): the decoder reports `DataClassFieldErrors`
   * exactly when some parameter fails; it then holds the failures of the failing
   * parameters in parameter order, every one of them and nothing else, with the
   * type and the node's position.
   */
  lemma DataClassFieldErrorsIff(node: Node, t: KType, ctx: DecoderContext)
    requires WellFormed(t)
    ensures var os, r := Outcomes(node, t, ctx), DataClassDecode(node, t, ctx);
      && |os| == |Params(t)|
      && ((r.Invalid? && r.error.DataClassFieldErrors?) <==> exists i | 0 <= i < |os| :: FailsAt(os, i))
      && ((exists i | 0 <= i < |os| :: FailsAt(os, i)) ==>
            r == Invalid(DataClassFieldErrors(PresentFailures(os), t, PosOf(node))))
      && (forall f :: f in PresentFailures(os) <==> exists i | 0 <= i < |os| :: os[i] == Some(Invalid(f)))
  {
    var os := Outcomes(node, t, ctx);
    FailuresOfPresent(os);
    PresentFailuresMembers(os);
  }

  /** The arguments bound by the valid outcomes, position by position. */
  function BoundArgs(os: seq<Option<Validated<(Param, Obj), Failure>>>): map<string, Obj>
    decreases |os|
  {
    if os == [] then map[]
    else
      var last := os[|os| - 1];
      if last.Some? && last.value.Valid? then BoundArgs(os[..|os| - 1])[last.value.value.0.name := last.value.value.1]
      else BoundArgs(os[..|os| - 1])
  }

  /** With no failure present, `toMap` of the sequenced bindings is the map the outcomes bind. */
  lemma {:induction false} ArgMapIsBoundArgs(os: seq<Option<Validated<(Param, Obj), Failure>>>)
    requires forall k | 0 <= k < |os| :: !FailsAt(os, k)
    ensures AllValid(Present(os))
    ensures ArgMap(Sequence(Present(os)).value) == BoundArgs(os)
    decreases |os|
  {
    FailuresOfPresent(os);
    if os != [] {
      var init := os[..|os| - 1];
      assert forall k | 0 <= k < |init| :: FailsAt(init, k) == FailsAt(os, k);
      ArgMapIsBoundArgs(init);
      SequencePresentStep(os);
      var ws := Sequence(Present(os)).value;
      if os[|os| - 1].Some? {
        assert !FailsAt(os, |os| - 1);
        assert ws[..|ws| - 1] == Sequence(Present(init)).value;
      } else {
        assert ws == Sequence(Present(init)).value;
      }
    }
  }

  /** Every present outcome is bound under its parameter's name, when names are distinct. */
  lemma {:induction false} BoundArgsHoldsPresent(os: seq<Option<Validated<(Param, Obj), Failure>>>, ps: seq<Param>)
    requires |os| == |ps|
    requires forall k | 0 <= k < |os| :: !FailsAt(os, k)
    requires forall k | 0 <= k < |os| && os[k].Some? && os[k].value.Valid? :: os[k].value.value.0 == ps[k]
    requires forall i, j | 0 <= i < j < |ps| :: ps[i].name != ps[j].name
    ensures forall k | 0 <= k < |os| && os[k].Some? ::
              os[k].value.Valid? && ps[k].name in BoundArgs(os) && BoundArgs(os)[ps[k].name] == os[k].value.value.1
    decreases |os|
  {
    if os != [] {
      var n := |os|;
      var init, pinit := os[..n - 1], ps[..n - 1];
      assert forall k | 0 <= k < n - 1 :: init[k] == os[k] && pinit[k] == ps[k] && FailsAt(init, k) == FailsAt(os, k);
      BoundArgsHoldsPresent(init, pinit);
      var args := BoundArgs(os);
      assert !FailsAt(os, n - 1);
      forall k | 0 <= k < n && os[k].Some?
        ensures os[k].value.Valid? && ps[k].name in args && args[ps[k].name] == os[k].value.value.1
      {
        assert !FailsAt(os, k);
        if k < n - 1 {
          assert init[k].Some? && ps[k].name != ps[n - 1].name;
        }
      }
    }
  }

  /** Every bound name is the name of a present outcome's parameter. */
  lemma {:induction false} BoundArgsOnlyPresent(os: seq<Option<Validated<(Param, Obj), Failure>>>, ps: seq<Param>)
    requires |os| == |ps|
    requires forall k | 0 <= k < |os| && os[k].Some? && os[k].value.Valid? :: os[k].value.value.0 == ps[k]
    ensures forall key | key in BoundArgs(os) :: exists k | 0 <= k < |os| :: os[k].Some? && ps[k].name == key
    decreases |os|
  {
    if os != [] {
      var n := |os|;
      var init, pinit := os[..n - 1], ps[..n - 1];
      assert forall k | 0 <= k < n - 1 :: init[k] == os[k] && pinit[k] == ps[k];
      BoundArgsOnlyPresent(init, pinit);
      var before, args := BoundArgs(init), BoundArgs(os);
      forall key | key in args ensures exists k | 0 <= k < n :: os[k].Some? && ps[k].name == key {
        if key in before {
          var k :| 0 <= k < |init| && init[k].Some? && pinit[k].name == key;
          assert os[k].Some? && ps[k].name == key;
        } else {
          assert os[n - 1].Some? && ps[n - 1].name == key;
        }
      }
    }
  }

  /** A skipped parameter's name is not bound, when names are distinct. */
  lemma {:induction false} BoundArgsSkipsAbsent(os: seq<Option<Validated<(Param, Obj), Failure>>>, ps: seq<Param>)
    requires |os| == |ps|
    requires forall k | 0 <= k < |os| && os[k].Some? && os[k].value.Valid? :: os[k].value.value.0 == ps[k]
    requires forall i, j | 0 <= i < j < |ps| :: ps[i].name != ps[j].name
    ensures forall k | 0 <= k < |os| && os[k].None? :: ps[k].name !in BoundArgs(os)
    decreases |os|
  {
    if os != [] {
      var n := |os|;
      var init, pinit := os[..n - 1], ps[..n - 1];
      assert forall k | 0 <= k < n - 1 :: init[k] == os[k] && pinit[k] == ps[k];
      BoundArgsSkipsAbsent(init, pinit);
      BoundArgsOnlyPresent(init, pinit);
      var args := BoundArgs(os);
      forall k | 0 <= k < n && os[k].None? ensures ps[k].name !in args {
        if k < n - 1 {
          assert init[k].None? && ps[k].name != ps[n - 1].name;
        }
      }
    }
  }

  /** The bound map for parameters with distinct names: one entry per present
      outcome, under its parameter's name, and no other entry. */
  lemma BoundArgsByName(os: seq<Option<Validated<(Param, Obj), Failure>>>, ps: seq<Param>)
    requires |os| == |ps|
    requires forall k | 0 <= k < |os| :: !FailsAt(os, k)
    requires forall k | 0 <= k < |os| && os[k].Some? && os[k].value.Valid? :: os[k].value.value.0 == ps[k]
    requires forall i, j | 0 <= i < j < |ps| :: ps[i].name != ps[j].name
    ensures var args := BoundArgs(os);
      && (forall k | 0 <= k < |os| && os[k].Some? ::
            os[k].value.Valid? && ps[k].name in args && args[ps[k].name] == os[k].value.value.1)
      && (forall key | key in args :: exists k | 0 <= k < |os| :: os[k].Some? && ps[k].name == key)
      && (forall k | 0 <= k < |os| && os[k].None? :: ps[k].name !in args)
  {
    BoundArgsHoldsPresent(os, ps);
    BoundArgsOnlyPresent(os, ps);
    BoundArgsSkipsAbsent(os, ps);
  }

  /**
   * When no parameter fails, the constructor is called with a map holding one
   * argument per parameter that was not skipped, under the parameter's name and
   * with its decoded value; a skipped optional parameter has no entry at all.
   */
  lemma DataClassConstructs(node: Node, t: KType, ctx: DecoderContext)
    requires WellFormed(t)
    requires forall i | 0 <= i < |Params(t)| :: !FailsAt(Outcomes(node, t, ctx), i)
    ensures var os, ps, args := Outcomes(node, t, ctx), Params(t), BoundArgs(Outcomes(node, t, ctx));
      && DataClassDecode(node, t, ctx) == Construct(t, args, ctx)
      && (forall i | 0 <= i < |ps| && os[i].Some? ::
            os[i].value.Valid? && ps[i].name in args && args[ps[i].name] == os[i].value.value.1)
      && (forall i | 0 <= i < |ps| && os[i].None? :: ps[i].name !in args)
      && (forall key | key in args :: exists i | 0 <= i < |ps| :: ps[i].name == key)
  {
    var os, ps := Outcomes(node, t, ctx), Params(t);
    assert forall i | 0 <= i < |os| && os[i].Some? && os[i].value.Valid? :: os[i].value.value.0 == ps[i] by {
      forall i | 0 <= i < |os| && os[i].Some? && os[i].value.Valid? ensures os[i].value.value.0 == ps[i] {
        assert os[i] == BindParam(node, t, i, ctx);
      }
    }
    ArgMapIsBoundArgs(os);
    BoundArgsByName(os, ps);
    var args := BoundArgs(os);
    ConstructsWhenAllValid(node, t, ctx);
    assert forall key | key in args :: exists i | 0 <= i < |ps| :: ps[i].name == key by {
      forall key | key in args ensures exists i | 0 <= i < |ps| :: ps[i].name == key {
        var k :| 0 <= k < |os| && os[k].Some? && ps[k].name == key;
      }
    }
  }

  /** When every present outcome is valid the decoder's result is the constructor's. */
  lemma ConstructsWhenAllValid(node: Node, t: KType, ctx: DecoderContext)
    requires WellFormed(t) && AllValid(Present(Outcomes(node, t, ctx)))
    ensures DataClassDecode(node, t, ctx) == Construct(t, ArgMap(Sequence(Present(Outcomes(node, t, ctx))).value), ctx)
  {
  }

  // ---------------------------------------------------------------------
  // Properties of the set decoder
  // ---------------------------------------------------------------------

  /** The set decoder accepts a `Set` type whether or not it is marked nullable. */
  lemma SetDecoderSupportsEitherNullability(t: KType)
    ensures Supports(SetDecoder, t) <==> Supports(SetDecoder, t.(nullable := true))
    ensures Supports(SetDecoder, t) <==> Supports(SetDecoder, t.(nullable := false))
  {
  }

  /** The set decoder settles an absent node and an explicit null itself and
      hands every other node to its `safeDecode`. */
  lemma SetDecoderHandlesNull(node: Node, t: KType, ctx: DecoderContext)
    requires WellFormed(t) && Supports(SetDecoder, t)
    ensures node.Undefined? ==>
              Decode(SetDecoder, node, t, ctx) == if t.nullable then Valid(NullObj) else Invalid(MissingValue)
    ensures node.NullNode? ==>
              Decode(SetDecoder, node, t, ctx) == if t.nullable then Valid(NullObj) else Invalid(NullValueForNonNullField(node))
    ensures IsDefined(node) && !node.NullNode? ==> Decode(SetDecoder, node, t, ctx) == SetSafeDecode(node, t, ctx)
  {
  }

  /** The class `kotlin.String`, and a decoder for it that takes a string node's text. */
  const StringClass: KClass := KClass("kotlin.String", OtherClass, [])
  const StringType: KType := KType(Class(StringClass), false, [])
  const StringDecoder: Decoder :=
    LeafDecoder((t: KType) => t.classifier == Class(StringClass), DefaultPriority,
                (n: Node, t: KType) => if n.StringNode? then Valid(StringObj(n.text)) else Invalid(DecodeError(n, t)))

  /** `Set<String>`. */
  const SetOfString: KType := KType(Class(KClass("kotlin.collections.Set", SetClass, [])), false, [StringType])

  /** With the set and string decoders registered, `String` resolves to the string decoder. */
  lemma StringDecoderResolved(ctx: DecoderContext)
    requires ctx.registry == DecoderRegistry([SetDecoder, StringDecoder])
    ensures Resolve(ctx.registry, StringType) == Valid(StringDecoder)
  {
    assert Supports(ctx.registry.decoders[1], StringType);
    assert !Supports(ctx.registry.decoders[0], StringType);
  }

  /** The string decoder takes a string node's text. */
  lemma StringDecoderDecodes(n: Node, ctx: DecoderContext)
    requires n.StringNode?
    ensures Decode(StringDecoder, n, StringType, ctx) == Valid(StringObj(n.text))
  {
  }

  /** An array or string node is decoded element by element and collected. */
  lemma SetSafeDecodeCollects(node: Node, t: KType, ctx: DecoderContext)
    requires WellFormed(t) && t.classifier.klass.kind.SetClass?
    requires Resolve(ctx.registry, t.args[0]).Valid?
    requires node.ArrayNode? || node.StringNode?
    ensures WellFormed(t.args[0]) && |t.args| == 1
    ensures SetSafeDecode(node, t, ctx)
         == CollectSet(node, DecodeEach(Resolve(ctx.registry, t.args[0]).value, SetElementNodes(node), t, ctx))
  {
  }

  /** Valid results are collected into the set of their values. */
  lemma CollectSetOf(node: Node, rs: seq<Validated<Obj, Failure>>, xs: set<Obj>)
    requires AllValid(rs)
    requires forall x :: x in xs <==> exists k | 0 <= k < |rs| :: rs[k] == Valid(x)
    ensures CollectSet(node, rs) == Valid(SetObj(xs))
  {
    var r := CollectSet(node, rs);
    assert r.value.members == xs;
  }

  /** A set whose elements all decode is the set of the decoded values. */
  lemma SetOfDecoded(node: Node, t: KType, ctx: DecoderContext, xs: set<Obj>)
    requires WellFormed(t) && t.classifier.klass.kind.SetClass?
    requires Resolve(ctx.registry, t.args[0]).Valid?
    requires node.ArrayNode? || node.StringNode?
    requires var ed, es := Resolve(ctx.registry, t.args[0]).value, SetElementNodes(node);
      forall k | 0 <= k < |es| :: Decode(ed, es[k], t.args[0], ctx).Valid?
    requires var ed, es := Resolve(ctx.registry, t.args[0]).value, SetElementNodes(node);
      forall x :: x in xs <==> exists k | 0 <= k < |es| :: Decode(ed, es[k], t.args[0], ctx) == Valid(x)
    ensures SetSafeDecode(node, t, ctx) == Valid(SetObj(xs))
  {
    var ed, es := Resolve(ctx.registry, t.args[0]).value, SetElementNodes(node);
    SetSafeDecodeCollects(node, t, ctx);
    var rs := DecodeEach(ed, es, t, ctx);
    CollectSetOf(node, rs, xs);
  }

  /** The decoded set of the element nodes `es` when each decodes to its text. */
  lemma StringSetOf(node: Node, ctx: DecoderContext, es: seq<Node>, texts: set<string>)
    requires Resolve(ctx.registry, StringType) == Valid(StringDecoder)
    requires (node.ArrayNode? || node.StringNode?) && SetElementNodes(node) == es
    requires forall k | 0 <= k < |es| :: es[k].StringNode?
    requires forall s :: s in texts <==> exists k | 0 <= k < |es| :: es[k].text == s
    ensures SetSafeDecode(node, SetOfString, ctx) == Valid(SetObj(set s | s in texts :: StringObj(s)))
  {
    var xs := set s | s in texts :: StringObj(s);
    forall k | 0 <= k < |es| ensures Decode(StringDecoder, es[k], StringType, ctx) == Valid(StringObj(es[k].text)) {
      StringDecoderDecodes(es[k], ctx);
    }
    forall x ensures x in xs <==> exists k | 0 <= k < |es| :: Decode(StringDecoder, es[k], StringType, ctx) == Valid(x) {
      if x in xs {
        var s :| s in texts && x == StringObj(s);
        var k :| 0 <= k < |es| && es[k].text == s;
        assert Decode(StringDecoder, es[k], StringType, ctx) == Valid(x);
      }
    }
    assert SetOfString.args[0] == StringType;
    SetOfDecoded(node, SetOfString, ctx, xs);
  }

  /**
   * The two shapes a set accepts decode alike, and duplicates collapse: the
   * delimited string `"a, b, a"` and the array `["a", "b", "a"]` both give `{a, b}`.
   */
  lemma DuplicatesCollapse(ctx: DecoderContext, pos: Pos, path: string)
    requires ctx.registry == DecoderRegistry([SetDecoder, StringDecoder])
    ensures SetSafeDecode(StringNode("a, b, a", pos, path), SetOfString, ctx) == Valid(SetObj({StringObj("a"), StringObj("b")}))
    ensures SetSafeDecode(ArrayNode([StringNode("a", pos, path), StringNode("b", pos, path), StringNode("a", pos, path)], pos, path),
                          SetOfString, ctx)
         == Valid(SetObj({StringObj("a"), StringObj("b")}))
  {
    var ab: set<string> := {"a", "b"};
    assert (set s | s in ab :: StringObj(s)) == {StringObj("a"), StringObj("b")};
    var arr := [StringNode("a", pos, path), StringNode("b", pos, path), StringNode("a", pos, path)];
    assert forall s :: s in ab <==> exists k | 0 <= k < |arr| :: arr[k].text == s by {
      assert arr[0].text == "a" && arr[1].text == "b";
    }
    StringDecoderResolved(ctx);
    StringSetOf(ArrayNode(arr, pos, path), ctx, arr, ab);
    TokensOfABA(pos, path);
    StringSetOf(StringNode("a, b, a", pos, path), ctx, arr, ab);
  }

  // ---------------------------------------------------------------------
  // Unfolding the literal "a, b, a" for DuplicatesCollapse, one step per
  // lemma so that each proof stays small
  // ---------------------------------------------------------------------

  /** The tokens of `"a, b, a"`. */
  lemma TokensOfABA(pos: Pos, path: string)
    ensures SetElementNodes(StringNode("a, b, a", pos, path))
         == [StringNode("a", pos, path), StringNode("b", pos, path), StringNode("a", pos, path)]
  {
    SplitABA();
    TokensOfPieces("a, b, a", ["a", " b", " a"], pos, path);
    TrimmedABA(pos, path);
  }

  lemma SplitABA()
    ensures Text.Split("a, b, a", ',') == ["a", " b", " a"]
  {
    assert "a, b, a" == "a" + [','] + " b, a";
    assert " b, a" == " b" + [','] + " a";
    Text.SplitAtFirst("a", ',', " b, a");
    Text.SplitAtFirst(" b", ',', " a");
    Text.SplitNoDelimiter(" a", ',');
  }

  lemma TrimmedABA(pos: Pos, path: string)
    ensures seq(3, k requires 0 <= k < 3 => StringNode(Text.Trim(["a", " b", " a"][k]), pos, path))
         == [StringNode("a", pos, path), StringNode("b", pos, path), StringNode("a", pos, path)]
  {
    TrimsOfABA();
  }

  /** The tokens of a text whose pieces are known. */
  lemma TokensOfPieces(text: string, pieces: seq<string>, pos: Pos, path: string)
    requires Text.Split(text, ',') == pieces
    ensures StringTokens(text, pos, path) == seq(|pieces|, k requires 0 <= k < |pieces| => StringNode(Text.Trim(pieces[k]), pos, path))
  {
  }

  lemma TrimsOfABA()
    ensures Text.Trim("a") == "a" && Text.Trim(" a") == "a" && Text.Trim(" b") == "b"
  {
    TrimOneSpace('a');
    assert " a" == [' ', 'a'] && "a" == ['a'];
    TrimSpaceB();
  }

  lemma TrimSpaceB()
    ensures Text.Trim(" b") == "b"
  {
    TrimOneSpace('b');
    assert " b" == [' ', 'b'] && "b" == ['b'];
  }

  /** Trimming a character after at most one leading space. */
  lemma TrimOneSpace(c: char)
    requires !Text.IsWhitespace(c)
    ensures Text.Trim([' ', c]) == [c] && Text.Trim([c]) == [c]
  {
    assert [' ', c][1..] == [c];
    assert Text.LeadingSpace([c]) == 0;
    assert Text.LeadingSpace([' ', c]) == 1;
    assert Text.TrailingSpace([c], 0) == 0;
    assert Text.TrailingSpace([' ', c], 1) == 0;
  }
}
