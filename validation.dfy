/**
 * Validated results and the applicative accumulation of failures.
 *
 * hoplite returns `Validated<ConfigFailure, T>` from every decoder and combines
 * the results of independent sub-decodes with `sequence()`, which keeps going
 * after a failure and concatenates every failure, left to right, into one
 * non-empty list.
 */
module Validation {

  datatype Option<+T> = None | Some(value: T)

  /** Either a decoded value or a failure. */
  datatype Validated<+T, +E> = Valid(value: T) | Invalid(error: E)

  predicate AllValid<T, E>(rs: seq<Validated<T, E>>) {
    forall i | 0 <= i < |rs| :: rs[i].Valid?
  }

  /** The failures of `rs`, front to back, one per invalid result. */
  function Failures<T, E>(rs: seq<Validated<T, E>>): seq<E> {
    if rs == [] then []
    else (if rs[0].Invalid? then [rs[0].error] else []) + Failures(rs[1..])
  }

  /** The positions of the invalid results of `rs`, in increasing order. */
  function InvalidPositions<T, E>(rs: seq<Validated<T, E>>): seq<nat>
    decreases |rs|
  {
    if rs == [] then []
    else
      InvalidPositions(rs[..|rs| - 1])
      + (if rs[|rs| - 1].Invalid? then [|rs| - 1] else [])
  }

  /** One step of the applicative rule: failures on either side are kept. */
  function Combine<T, E>(acc: Validated<seq<T>, seq<E>>, r: Validated<T, E>): Validated<seq<T>, seq<E>> {
    match acc
    case Valid(xs) => (match r case Valid(x) => Valid(xs + [x]) case Invalid(e) => Invalid([e]))
    case Invalid(es) => (match r case Valid(_) => Invalid(es) case Invalid(e) => Invalid(es + [e]))
  }

  /**
   * `List<Validated<E, T>>.sequence()`: a left fold of `Combine` starting
   * from an empty valid list. It is valid exactly when every input is, and then
   * holds every value in order; otherwise it holds every failure in order.
   */
  function Sequence<T, E>(rs: seq<Validated<T, E>>): (r: Validated<seq<T>, seq<E>>)
    ensures r.Valid? <==> AllValid(rs)
    ensures r.Valid? ==> |r.value| == |rs| && forall i | 0 <= i < |rs| :: r.value[i] == rs[i].value
    ensures r.Invalid? ==> r.error == Failures(rs) && r.error != []
    decreases |rs|
  {
    if rs == [] then Valid([])
    else
      var prefix, last := rs[..|rs| - 1], rs[|rs| - 1];
      assert rs == prefix + [last];
      FailuresAppend(prefix, last);
      FailuresEmptyIffAllValid(prefix);
      Combine(Sequence(prefix), last)
  }

  lemma {:induction false} FailuresAppend<T, E>(rs: seq<Validated<T, E>>, x: Validated<T, E>)
    ensures Failures(rs + [x]) == Failures(rs) + (if x.Invalid? then [x.error] else [])
    decreases |rs|
  {
    var t := if x.Invalid? then [x.error] else [];
    if rs == [] {
      assert rs + [x] == [x];
      assert [x][1..] == [];
    } else {
      var ys := rs + [x];
      var h := if rs[0].Invalid? then [rs[0].error] else [];
      assert ys[0] == rs[0];
      assert ys[1..] == rs[1..] + [x];
      FailuresAppend(rs[1..], x);
      assert Failures(ys) == h + (Failures(rs[1..]) + t);
      assert Failures(rs) == h + Failures(rs[1..]);
    }
  }

  /**
   * No failure is dropped and none is invented: the failures are exactly the
   * errors of the invalid results, taken in their positions' order.
   */
  lemma {:induction false} FailuresInOrder<T, E>(rs: seq<Validated<T, E>>)
    ensures var ps := InvalidPositions(rs);
      && |Failures(rs)| == |ps|
      && (forall k | 0 <= k < |ps| :: ps[k] < |rs| && rs[ps[k]].Invalid? && Failures(rs)[k] == rs[ps[k]].error)
      && (forall k, l | 0 <= k < l < |ps| :: ps[k] < ps[l])
      && (forall i | 0 <= i < |rs| && rs[i].Invalid? :: i in ps)
    decreases |rs|
  {
    if rs != [] {
      var prefix, last := rs[..|rs| - 1], rs[|rs| - 1];
      assert rs == prefix + [last];
      FailuresInOrder(prefix);
      FailuresAppend(prefix, last);
      var ps := InvalidPositions(rs);
      var pp := InvalidPositions(prefix);
      assert forall k | 0 <= k < |pp| :: pp[k] < |prefix|;
      forall i | 0 <= i < |rs| && rs[i].Invalid?
        ensures i in ps
      {
        if i < |prefix| {
          assert prefix[i] == rs[i];
          assert i in pp;
        }
      }
    }
  }

  /** The failure list is empty exactly when every result is valid. */
  lemma {:induction false} FailuresEmptyIffAllValid<T, E>(rs: seq<Validated<T, E>>)
    ensures Failures(rs) == [] <==> AllValid(rs)
    decreases |rs|
  {
    if rs != [] {
      FailuresEmptyIffAllValid(rs[1..]);
      if AllValid(rs[1..]) && rs[0].Valid? {
        forall i | 0 <= i < |rs| ensures rs[i].Valid? {
          if i > 0 { assert rs[i] == rs[1..][i - 1]; }
        }
      }
    }
  }

  /** Concatenation of a list of non-empty failure lists (the `Nel` combine). */
  function Flatten<E>(ess: seq<seq<E>>): seq<E> {
    if ess == [] then [] else ess[0] + Flatten(ess[1..])
  }

  /** A failure is reported exactly when some result holds it. */
  lemma {:induction false} FailuresMembers<T, E>(rs: seq<Validated<T, E>>)
    ensures forall e :: e in Failures(rs) <==> exists i | 0 <= i < |rs| :: rs[i] == Invalid(e)
  {
    if rs != [] {
      FailuresMembers(rs[1..]);
      forall e ensures e in Failures(rs) <==> exists i | 0 <= i < |rs| :: rs[i] == Invalid(e) {
        if e in Failures(rs[1..]) {
          var i :| 0 <= i < |rs[1..]| && rs[1..][i] == Invalid(e);
          assert rs[i + 1] == Invalid(e);
        }
        if exists i | 0 <= i < |rs| :: rs[i] == Invalid(e) {
          var i :| 0 <= i < |rs| && rs[i] == Invalid(e);
          if i > 0 { assert rs[1..][i - 1] == Invalid(e); }
        }
      }
    }
  }

  /** An element of the concatenation is an element of one of the lists. */
  lemma {:induction false} FlattenMembers<E>(ess: seq<seq<E>>)
    ensures forall e :: e in Flatten(ess) <==> exists i | 0 <= i < |ess| :: e in ess[i]
  {
    if ess != [] {
      FlattenMembers(ess[1..]);
      forall e ensures e in Flatten(ess) <==> exists i | 0 <= i < |ess| :: e in ess[i] {
        if e in Flatten(ess[1..]) {
          var i :| 0 <= i < |ess[1..]| && e in ess[1..][i];
          assert e in ess[i + 1];
        }
        if exists i | 0 <= i < |ess| :: e in ess[i] {
          var i :| 0 <= i < |ess| && e in ess[i];
          if i > 0 { assert ess[1..][i - 1] == ess[i]; }
        }
      }
    }
  }

  /** A failure of the flattened failure lists is a failure of some invalid result. */
  lemma FlattenFailuresMembers<T, E>(rs: seq<Validated<T, seq<E>>>)
    ensures forall e :: e in Flatten(Failures(rs)) <==> exists i | 0 <= i < |rs| :: rs[i].Invalid? && e in rs[i].error
  {
    var ess := Failures(rs);
    FailuresMembers(rs);
    FlattenMembers(ess);
    forall e ensures e in Flatten(ess) <==> exists i | 0 <= i < |rs| :: rs[i].Invalid? && e in rs[i].error {
      if e in Flatten(ess) {
        var k :| 0 <= k < |ess| && e in ess[k];
        assert ess[k] in ess;
        var i :| 0 <= i < |rs| && rs[i] == Invalid(ess[k]);
        assert rs[i].Invalid? && e in rs[i].error;
      }
      if exists i | 0 <= i < |rs| :: rs[i].Invalid? && e in rs[i].error {
        var i :| 0 <= i < |rs| && rs[i].Invalid? && e in rs[i].error;
        assert rs[i] == Invalid(rs[i].error);
        assert rs[i].error in ess;
        var k :| 0 <= k < |ess| && ess[k] == rs[i].error;
        assert e in ess[k];
      }
    }
  }

  /** `mapNotNull`: the present values, in order. */
  function Present<T>(os: seq<Option<T>>): seq<T>
    decreases |os|
  {
    if os == [] then []
    else Present(os[..|os| - 1]) + (if os[|os| - 1].Some? then [os[|os| - 1].value] else [])
  }

  /** Position `k` holds a present failure. */
  predicate FailsAt<T, E>(os: seq<Option<Validated<T, E>>>, k: int)
    requires 0 <= k < |os|
  {
    os[k].Some? && os[k].value.Invalid?
  }

  /** The failures among the present results, position by position. */
  function PresentFailures<T, E>(os: seq<Option<Validated<T, E>>>): seq<E>
    decreases |os|
  {
    if os == [] then []
    else PresentFailures(os[..|os| - 1]) + (if FailsAt(os, |os| - 1) then [os[|os| - 1].value.error] else [])
  }

  /**
   * Dropping the absent results and then accumulating the failures of the rest
   * reports exactly the present failures, in position order; the present
   * results are all valid exactly when no position fails.
   */
  lemma {:induction false} FailuresOfPresent<T, E>(os: seq<Option<Validated<T, E>>>)
    ensures Failures(Present(os)) == PresentFailures(os)
    ensures AllValid(Present(os)) <==> forall k | 0 <= k < |os| :: !FailsAt(os, k)
    decreases |os|
  {
    if os != [] {
      var init, last := os[..|os| - 1], os[|os| - 1];
      FailuresOfPresent(init);
      var prev := Present(init);
      assert forall k | 0 <= k < |init| :: FailsAt(init, k) == FailsAt(os, k);
      if last.Some? {
        var ps := Present(os);
        assert ps == prev + [last.value];
        FailuresAppend(prev, last.value);
        assert forall k | 0 <= k < |prev| :: ps[k] == prev[k];
        assert ps[|prev|] == last.value;
      } else {
        assert Present(os) == prev;
      }
    }
  }

  /** A failure is among the present failures exactly when some position holds it. */
  lemma {:induction false} PresentFailuresMembers<T, E>(os: seq<Option<Validated<T, E>>>)
    ensures forall e :: e in PresentFailures(os) <==> exists k | 0 <= k < |os| :: os[k] == Some(Invalid(e))
    decreases |os|
  {
    if os != [] {
      var init, last := os[..|os| - 1], os[|os| - 1];
      PresentFailuresMembers(init);
      var tail := if FailsAt(os, |os| - 1) then [last.value.error] else [];
      assert PresentFailures(os) == PresentFailures(init) + tail;
      forall e ensures e in PresentFailures(os) <==> exists k | 0 <= k < |os| :: os[k] == Some(Invalid(e)) {
        if e in tail {
          assert os[|os| - 1] == Some(Invalid(e));
        } else if e in PresentFailures(init) {
          var k :| 0 <= k < |init| && init[k] == Some(Invalid(e));
          assert os[k] == Some(Invalid(e));
        }
        if exists k | 0 <= k < |os| :: os[k] == Some(Invalid(e)) {
          var k :| 0 <= k < |os| && os[k] == Some(Invalid(e));
          if k < |init| {
            assert init[k] == Some(Invalid(e));
          }
        }
      }
    }
  }

  /** With no failure present, the values accumulated from `os` grow by the
      value of the last position when it is present. */
  lemma SequencePresentStep<T, E>(os: seq<Option<Validated<T, E>>>)
    requires os != [] && forall k | 0 <= k < |os| :: !FailsAt(os, k)
    ensures AllValid(Present(os)) && AllValid(Present(os[..|os| - 1]))
    ensures Sequence(Present(os)).value
         == Sequence(Present(os[..|os| - 1])).value + (if os[|os| - 1].Some? then [os[|os| - 1].value.value] else [])
  {
    var init, last := os[..|os| - 1], os[|os| - 1];
    assert forall k | 0 <= k < |init| :: FailsAt(init, k) == FailsAt(os, k);
    FailuresOfPresent(os);
    FailuresOfPresent(init);
    var prev := Present(init);
    if last.Some? {
      var bs := Present(os);
      assert bs == prev + [last.value];
      var vs, ws := Sequence(prev).value, Sequence(bs).value;
      forall k | 0 <= k < |ws| ensures ws[k] == (vs + [last.value.value])[k] {
        if k < |vs| { assert bs[k] == prev[k]; }
      }
    } else {
      assert Present(os) == prev;
    }
  }
}
