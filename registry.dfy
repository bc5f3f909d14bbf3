/**
 * The newer, priority-based decoder registry (`DefaultDecoderRegistry` of
 * `DecoderRegistry.kt`): a persistent list of decoders; resolution keeps the
 * decoders that support the type and takes the one of highest priority.
 */
module Registry {
  import opened Validation
  import opened Model

  /** `Int.MIN_VALUE`, the priority of the data-class decoder. */
  const IntMinValue: int := -0x8000_0000

  /** The priority of a decoder that does not override `priority()`; the
      interface that declares it is not part of this model, 0 is assumed. */
  const DefaultPriority: int := 0

  /**
   * A decoder of the newer generation. The data-class and set decoders are
   * built in; `LeafDecoder` is any other decoder, given by its `supports`
   * predicate, its priority and its (non-recursive) decoding function.
   */
  datatype Decoder =
    | DataClassDecoder
    | SetDecoder
    | LeafDecoder(supportsFn: KType -> bool, priorityValue: int, decodeFn: (Node, KType) -> Validated<Obj, Failure>)

  /** `decoder.supports(type)`. */
  predicate Supports(d: Decoder, t: KType) {
    match d
    case DataClassDecoder => IsDataClass(t)
    case SetDecoder => t.classifier.Class? && t.classifier.klass.kind.SetClass?
    case LeafDecoder(supportsFn, _, _) => supportsFn(t)
  }

  /** `decoder.priority()`. */
  function Priority(d: Decoder): int {
    match d
    case DataClassDecoder => IntMinValue
    case SetDecoder => DefaultPriority
    case LeafDecoder(_, p, _) => p
  }

  /** `DefaultDecoderRegistry(decoders)`. */
  datatype DecoderRegistry = DecoderRegistry(decoders: seq<Decoder>)

  /** `DecoderRegistry.zero`. */
  const Zero: DecoderRegistry := DecoderRegistry([])

  /** `registry.size`. */
  function Size(r: DecoderRegistry): nat {
    |r.decoders|
  }

  /** `register(decoder)`: a new registry with the decoder appended; the
      receiver, a value, is left as it was. */
  function Register(r: DecoderRegistry, d: Decoder): (r': DecoderRegistry)
    ensures Size(r') == Size(r) + 1
    ensures r'.decoders[..Size(r)] == r.decoders && r'.decoders[Size(r)] == d
  {
    DecoderRegistry(r.decoders + [d])
  }

  /** `defaultDecoderRegistry()` with the discovered list given: a left fold
      of `register` starting from `zero`. */
  function FromList(ds: seq<Decoder>): DecoderRegistry
    decreases |ds|
  {
    if ds == [] then Zero else Register(FromList(ds[..|ds| - 1]), ds[|ds| - 1])
  }

  /** Folding `register` over a list yields a registry of exactly that list. */
  lemma {:induction false} FromListHoldsList(ds: seq<Decoder>)
    ensures FromList(ds).decoders == ds && Size(FromList(ds)) == |ds|
    decreases |ds|
  {
    if ds != [] {
      var init, last := ds[..|ds| - 1], ds[|ds| - 1];
      FromListHoldsList(init);
      assert FromList(ds).decoders == FromList(init).decoders + [last];
      assert init + [last] == ds;
    }
  }

  lemma ZeroIsEmpty()
    ensures Size(Zero) == 0
  {
  }

  /** `decoders.filter { it.supports(type) }`. */
  function Supporting(ds: seq<Decoder>, t: KType): seq<Decoder>
    decreases |ds|
  {
    if ds == [] then []
    else Supporting(ds[..|ds| - 1], t) + (if Supports(ds[|ds| - 1], t) then [ds[|ds| - 1]] else [])
  }

  /** `maxBy { it.priority() }`: a scan that replaces the best so far only by
      a strictly higher priority, so the first maximum is kept. */
  function MaxByPriority(ds: seq<Decoder>): Decoder
    requires ds != []
    decreases |ds|
  {
    if |ds| == 1 then ds[0]
    else
      var best := MaxByPriority(ds[..|ds| - 1]);
      if Priority(best) < Priority(ds[|ds| - 1]) then ds[|ds| - 1] else best
  }

  /**
   * Position `k` holds the decoder resolution must pick: it supports `t`, no
   * supporting decoder has a higher priority, and every supporting decoder
   * registered before it has a strictly lower one.
   */
  ghost predicate IsFirstMax(ds: seq<Decoder>, t: KType, k: int) {
    && 0 <= k < |ds|
    && Supports(ds[k], t)
    && (forall j | 0 <= j < |ds| && Supports(ds[j], t) :: Priority(ds[j]) <= Priority(ds[k]))
    && (forall j | 0 <= j < k && Supports(ds[j], t) :: Priority(ds[j]) < Priority(ds[k]))
  }

  /** The filter is empty exactly when no decoder supports the type. */
  lemma {:induction false} SupportingEmptyIff(ds: seq<Decoder>, t: KType)
    ensures Supporting(ds, t) == [] <==> forall j | 0 <= j < |ds| :: !Supports(ds[j], t)
    decreases |ds|
  {
    if ds != [] {
      var prefix := ds[..|ds| - 1];
      SupportingEmptyIff(prefix, t);
      assert forall j | 0 <= j < |prefix| :: prefix[j] == ds[j];
    }
  }

  /** A last decoder that beats every earlier supporting one is the first maximum. */
  lemma FirstMaxAtEnd(ds: seq<Decoder>, t: KType)
    requires ds != [] && Supports(ds[|ds| - 1], t)
    requires forall j | 0 <= j < |ds| - 1 && Supports(ds[j], t) :: Priority(ds[j]) < Priority(ds[|ds| - 1])
    ensures IsFirstMax(ds, t, |ds| - 1)
  {
  }

  /** A first maximum of the prefix stays one when the appended decoder does not beat it. */
  lemma FirstMaxKept(ds: seq<Decoder>, t: KType, k: int)
    requires ds != [] && IsFirstMax(ds[..|ds| - 1], t, k)
    requires Supports(ds[|ds| - 1], t) ==> Priority(ds[|ds| - 1]) <= Priority(ds[k])
    ensures IsFirstMax(ds, t, k)
  {
    var prefix := ds[..|ds| - 1];
    assert forall j | 0 <= j < |prefix| :: prefix[j] == ds[j];
  }

  /** Appending to the scanned list: the newcomer wins only on a strictly higher priority. */
  lemma MaxByAppend(ds: seq<Decoder>, x: Decoder)
    requires ds != []
    ensures MaxByPriority(ds + [x]) == if Priority(MaxByPriority(ds)) < Priority(x) then x else MaxByPriority(ds)
  {
    assert (ds + [x])[..|ds|] == ds;
  }

  /** Filtering then taking the first maximum picks the first maximum among
      the supporting decoders of the whole list. */
  lemma {:induction false} FilterThenMax(ds: seq<Decoder>, t: KType)
    ensures Supporting(ds, t) != [] ==>
      exists k | 0 <= k < |ds| :: IsFirstMax(ds, t, k) && MaxByPriority(Supporting(ds, t)) == ds[k]
    decreases |ds|
  {
    if ds != [] {
      var prefix, last := ds[..|ds| - 1], ds[|ds| - 1];
      var sp := Supporting(prefix, t);
      FilterThenMax(prefix, t);
      SupportingEmptyIff(prefix, t);
      assert forall j | 0 <= j < |prefix| :: prefix[j] == ds[j];
      if Supports(last, t) {
        assert Supporting(ds, t) == sp + [last];
        if sp == [] {
          FirstMaxAtEnd(ds, t);
          assert MaxByPriority(Supporting(ds, t)) == ds[|ds| - 1];
        } else {
          var kp :| 0 <= kp < |prefix| && IsFirstMax(prefix, t, kp) && MaxByPriority(sp) == prefix[kp];
          MaxByAppend(sp, last);
          if Priority(ds[kp]) < Priority(last) {
            FirstMaxAtEnd(ds, t);
            assert MaxByPriority(Supporting(ds, t)) == ds[|ds| - 1];
          } else {
            FirstMaxKept(ds, t, kp);
            assert MaxByPriority(Supporting(ds, t)) == ds[kp];
          }
        }
      } else if sp != [] {
        var kp :| 0 <= kp < |prefix| && IsFirstMax(prefix, t, kp) && MaxByPriority(sp) == prefix[kp];
        assert Supporting(ds, t) == sp;
        FirstMaxKept(ds, t, kp);
        assert MaxByPriority(Supporting(ds, t)) == ds[kp];
      }
    }
  }

  /**
   * `DefaultDecoderRegistry.decoder(type)`. With no supporting decoder it
   * fails with `NoDataClassDecoder` for a data class and `NoSuchDecoder(type)`
   * otherwise; else it returns a registered decoder that supports the type,
   * whose priority no supporting decoder exceeds, and that is the earliest
   * registered among the supporting decoders of that priority.
   */
  function Resolve(r: DecoderRegistry, t: KType): (res: Validated<Decoder, Failure>)
    requires IsClass(t)
    ensures res.Invalid? <==> forall j | 0 <= j < |r.decoders| :: !Supports(r.decoders[j], t)
    ensures res.Invalid? ==> res.error == if IsDataClass(t) then NoDataClassDecoder else NoSuchDecoder(t)
    ensures res.Valid? ==> Supports(res.value, t)
    ensures res.Valid? ==> exists k | 0 <= k < |r.decoders| :: IsFirstMax(r.decoders, t, k) && res.value == r.decoders[k]
  {
    SupportingEmptyIff(r.decoders, t);
    FilterThenMax(r.decoders, t);
    var supporting := Supporting(r.decoders, t);
    if supporting == [] && IsDataClass(t) then Invalid(NoDataClassDecoder)
    else if supporting == [] then Invalid(NoSuchDecoder(t))
    else Valid(MaxByPriority(supporting))
  }

  /** Only one position can be the first maximum. */
  lemma FirstMaxUnique(ds: seq<Decoder>, t: KType, k1: int, k2: int)
    requires IsFirstMax(ds, t, k1) && IsFirstMax(ds, t, k2)
    ensures k1 == k2
  {
  }

  /** Resolution yields exactly the first decoder of top priority among
      those supporting the type. */
  lemma ResolvesFirstMax(r: DecoderRegistry, t: KType, k: int)
    requires IsClass(t) && IsFirstMax(r.decoders, t, k)
    ensures Resolve(r, t) == Valid(r.decoders[k])
  {
    var k' :| 0 <= k' < |r.decoders| && IsFirstMax(r.decoders, t, k') && Resolve(r, t).value == r.decoders[k'];
    FirstMaxUnique(r.decoders, t, k', k);
  }

  /** The resolved decoder's priority is at least that of every supporting decoder. */
  lemma ResolvedHasTopPriority(r: DecoderRegistry, t: KType, j: nat)
    requires IsClass(t) && j < |r.decoders| && Supports(r.decoders[j], t)
    ensures Resolve(r, t).Valid? && Priority(r.decoders[j]) <= Priority(Resolve(r, t).value)
  {
  }

  /** The supporting decoders of a list have pairwise distinct priorities. */
  ghost predicate DistinctPriorities(ds: seq<Decoder>, t: KType) {
    forall i, j | 0 <= i < j < |ds| && Supports(ds[i], t) && Supports(ds[j], t) :: Priority(ds[i]) != Priority(ds[j])
  }

  /**
   * When the supporting priorities are distinct, resolution does not depend on
   * registration order: two registries holding the same decoders, in any order,
   * resolve a type to the same decoder.
   */
  lemma ResolveIndependentOfOrder(r1: DecoderRegistry, r2: DecoderRegistry, t: KType)
    requires IsClass(t)
    requires forall d :: d in r1.decoders <==> d in r2.decoders
    requires DistinctPriorities(r1.decoders, t) && DistinctPriorities(r2.decoders, t)
    ensures Resolve(r1, t) == Resolve(r2, t)
  {
    var res1, res2 := Resolve(r1, t), Resolve(r2, t);
    forall j | 0 <= j < |r1.decoders| && Supports(r1.decoders[j], t) ensures res2.Valid? {
      assert r1.decoders[j] in r2.decoders;
    }
    forall j | 0 <= j < |r2.decoders| && Supports(r2.decoders[j], t) ensures res1.Valid? {
      assert r2.decoders[j] in r1.decoders;
    }
    if res1.Valid? && res2.Valid? {
      var k1 :| 0 <= k1 < |r1.decoders| && IsFirstMax(r1.decoders, t, k1) && res1.value == r1.decoders[k1];
      var k2 :| 0 <= k2 < |r2.decoders| && IsFirstMax(r2.decoders, t, k2) && res2.value == r2.decoders[k2];
      assert r1.decoders[k1] in r2.decoders;
      assert r2.decoders[k2] in r1.decoders;
      var j1 :| 0 <= j1 < |r1.decoders| && r1.decoders[j1] == r2.decoders[k2];
      SamePriorityIsSame(r1.decoders, t, k1, j1);
    }
  }

  /** Under distinct priorities, two supporting positions of equal priority coincide. */
  lemma SamePriorityIsSame(ds: seq<Decoder>, t: KType, i: int, j: int)
    requires DistinctPriorities(ds, t)
    requires 0 <= i < |ds| && 0 <= j < |ds| && Supports(ds[i], t) && Supports(ds[j], t)
    requires Priority(ds[i]) == Priority(ds[j])
    ensures i == j
  {
  }

  /** Of two supporting decoders, the one of higher priority is resolved,
      whichever of them was registered first. */
  lemma HigherPriorityWins(low: Decoder, high: Decoder, t: KType)
    requires IsClass(t) && Supports(low, t) && Supports(high, t)
    requires Priority(low) < Priority(high)
    ensures Resolve(FromList([low, high]), t) == Valid(high)
    ensures Resolve(FromList([high, low]), t) == Valid(high)
  {
    var a, b := [low, high], [high, low];
    FromListHoldsList(a);
    FromListHoldsList(b);
    assert IsFirstMax(a, t, 1);
    assert IsFirstMax(b, t, 0);
    ResolvesFirstMax(FromList(a), t, 1);
    ResolvesFirstMax(FromList(b), t, 0);
  }

  /** The data-class decoder has the lowest possible priority: any other
      supporting decoder of higher priority is resolved instead of it. */
  lemma DataClassDecoderYields(r: DecoderRegistry, t: KType, j: nat)
    requires IsClass(t) && j < |r.decoders| && Supports(r.decoders[j], t)
    requires Priority(r.decoders[j]) > IntMinValue
    ensures Resolve(r, t).Valid? && !Resolve(r, t).value.DataClassDecoder?
  {
  }
}
