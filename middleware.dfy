/**
 * Request pipelines: an exported handler is an ordered list of middleware,
 * each of which either calls `next()` or `next(error)`; the first error ends
 * the request. Shared guards used by both controllers live here too.
 */
module Middleware {
  import opened Js

  /** What `next(error)` carries to the error handler. */
  datatype Failure =
    | Rejected(status: nat, message: string)  // next({ status, message })
    | MissingProperty(name: string)           // the required-properties guard
    | Thrown                                  // an exception the framework turns into an error

  /** The result of one guard: `next()` or `next(error)`. */
  datatype Outcome = Pass | Fail(failure: Failure)

  /** The result of a whole handler: a value for the response, or the error. */
  datatype Result<+T> = Ok(value: T) | Err(failure: Failure)

  /**
   * Runs the guards in order and stops at the first failure: the pipeline
   * passes exactly when every guard passes, and otherwise reports the failure
   * of the first guard that fails.
   */
  function Run<C>(checks: seq<C>, apply: C -> Outcome): (o: Outcome)
    ensures o.Pass? <==> forall i :: 0 <= i < |checks| ==> apply(checks[i]).Pass?
    ensures o.Fail? ==>
      exists i :: 0 <= i < |checks| && apply(checks[i]) == o &&
        forall j :: 0 <= j < i ==> apply(checks[j]).Pass?
  {
    if checks == [] then Pass
    else if apply(checks[0]).Fail? then apply(checks[0])
    else
      var o := Run(checks[1..], apply);
      assert forall i :: 1 <= i < |checks| ==> checks[1..][i - 1] == checks[i];
      if o.Fail? then
        var k :| 0 <= k < |checks| - 1 && apply(checks[1..][k]) == o &&
          forall j :: 0 <= j < k ==> apply(checks[1..][j]).Pass?;
        assert apply(checks[k + 1]) == o;
        o
      else o
  }

  /** A guard outcome taken as it is: the `apply` of a pipeline of computed outcomes. */
  function Itself(g: Outcome): Outcome {
    g
  }

  /** A pipeline whose first guard fails reports it; one whose first guard passes runs the rest. */
  lemma RunCons(g: Outcome, gs: seq<Outcome>)
    ensures Run([g] + gs, Itself) == if g.Fail? then g else Run(gs, Itself)
  {
    assert ([g] + gs)[1..] == gs;
  }

  /** A pipeline of six guards, written out: it reports the first failure, and passes when all pass. */
  lemma RunSix(a: Outcome, b: Outcome, c: Outcome, d: Outcome, e: Outcome, f: Outcome)
    ensures var o := Run([a, b, c, d, e, f], Itself);
      (o.Pass? <==> a.Pass? && b.Pass? && c.Pass? && d.Pass? && e.Pass? && f.Pass?) &&
      (a.Fail? ==> o == a) &&
      (a.Pass? && b.Fail? ==> o == b) &&
      (a.Pass? && b.Pass? && c.Fail? ==> o == c) &&
      (a.Pass? && b.Pass? && c.Pass? && d.Fail? ==> o == d) &&
      (a.Pass? && b.Pass? && c.Pass? && d.Pass? && e.Fail? ==> o == e) &&
      (a.Pass? && b.Pass? && c.Pass? && d.Pass? && e.Pass? ==> o == f)
  {
    assert [a, b, c, d, e, f] == [a] + [b, c, d, e, f];
    RunCons(a, [b, c, d, e, f]);
    RunFive(b, c, d, e, f);
  }

  /** A pipeline of five guards, written out. */
  lemma RunFive(a: Outcome, b: Outcome, c: Outcome, d: Outcome, e: Outcome)
    ensures var o := Run([a, b, c, d, e], Itself);
      (o.Pass? <==> a.Pass? && b.Pass? && c.Pass? && d.Pass? && e.Pass?) &&
      (a.Fail? ==> o == a) &&
      (a.Pass? && b.Fail? ==> o == b) &&
      (a.Pass? && b.Pass? && c.Fail? ==> o == c) &&
      (a.Pass? && b.Pass? && c.Pass? && d.Fail? ==> o == d) &&
      (a.Pass? && b.Pass? && c.Pass? && d.Pass? ==> o == e)
  {
    assert [a, b, c, d, e] == [a] + [b, c, d, e];
    RunCons(a, [b, c, d, e]);
    RunFour(b, c, d, e);
  }

  lemma RunFour(a: Outcome, b: Outcome, c: Outcome, d: Outcome)
    ensures var o := Run([a, b, c, d], Itself);
      (o.Pass? <==> a.Pass? && b.Pass? && c.Pass? && d.Pass?) &&
      (a.Fail? ==> o == a) &&
      (a.Pass? && b.Fail? ==> o == b) &&
      (a.Pass? && b.Pass? && c.Fail? ==> o == c) &&
      (a.Pass? && b.Pass? && c.Pass? ==> o == d)
  {
    assert [a, b, c, d] == [a] + [b, c, d];
    RunCons(a, [b, c, d]);
    RunThree(b, c, d);
  }

  lemma RunThree(a: Outcome, b: Outcome, c: Outcome)
    ensures var o := Run([a, b, c], Itself);
      (o.Pass? <==> a.Pass? && b.Pass? && c.Pass?) &&
      (a.Fail? ==> o == a) &&
      (a.Pass? && b.Fail? ==> o == b) &&
      (a.Pass? && b.Pass? ==> o == c)
  {
    assert [a, b, c] == [a] + [b, c];
    assert [b, c] == [b] + [c];
    assert [c] == [c] + [];
    RunCons(a, [b, c]);
    RunCons(b, [c]);
    RunCons(c, []);
  }

  /**
   * The required-properties guard: every named key must be present in `data`.
   * The first absent key, in the order given, is the one reported.
   */
  function HasProperties(names: seq<string>, data: Option<Payload>): (o: Outcome)
    ensures o.Pass? <==> forall i :: 0 <= i < |names| ==> Get(data, names[i]).Some?
    ensures o.Fail? ==>
      exists i :: 0 <= i < |names| && o == Fail(MissingProperty(names[i])) && Get(data, names[i]).None? &&
        forall j :: 0 <= j < i ==> Get(data, names[j]).Some?
  {
    Run(names, (n: string) => if Get(data, n).Some? then Pass else Fail(MissingProperty(n)))
  }

  /** The keys outside the whitelist, in the order the payload lists them. */
  function InvalidFields(keys: seq<string>, allowed: seq<string>): (r: seq<string>)
    ensures forall k :: k in r <==> k in keys && k !in allowed
    ensures |r| <= |keys|
    ensures keys == [] ==> r == []
  {
    if keys == [] then []
    else
      var rest := InvalidFields(keys[1..], allowed);
      assert forall k :: k in keys <==> k == keys[0] || k in keys[1..];
      if keys[0] in allowed then rest else [keys[0]] + rest
  }

  /** The first key is reported exactly when it is outside the whitelist. */
  lemma InvalidFirst(keys: seq<string>, allowed: seq<string>)
    requires keys != []
    ensures InvalidFields(keys, allowed) == (if keys[0] in allowed then [] else [keys[0]]) + InvalidFields(keys[1..], allowed)
  {
  }

  /** Each key outside the whitelist is reported as often as the payload lists it, and no other key is. */
  lemma {:induction false} InvalidFieldsCount(keys: seq<string>, allowed: seq<string>, k: string)
    ensures multiset(InvalidFields(keys, allowed))[k] == if k in allowed then 0 else multiset(keys)[k]
  {
    if keys != [] {
      InvalidFieldsCount(keys[1..], allowed, k);
      InvalidFirst(keys, allowed);
      assert keys == [keys[0]] + keys[1..];
      assert multiset(keys) == multiset{keys[0]} + multiset(keys[1..]);
    }
  }

  /** The report keeps the payload's order: it distributes over concatenation. */
  lemma {:induction false} InvalidFieldsConcat(a: seq<string>, b: seq<string>, allowed: seq<string>)
    ensures InvalidFields(a + b, allowed) == InvalidFields(a, allowed) + InvalidFields(b, allowed)
  {
    if a == [] {
      assert a + b == b;
    } else {
      var ab := a + b;
      assert ab[0] == a[0] && ab[1..] == a[1..] + b;
      InvalidFieldsConcat(a[1..], b, allowed);
      InvalidFirst(ab, allowed);
      InvalidFirst(a, allowed);
      var head: seq<string> := if a[0] in allowed then [] else [a[0]];
      var x, y := InvalidFields(a[1..], allowed), InvalidFields(b, allowed);
      assert InvalidFields(ab, allowed) == head + (x + y);
      assert InvalidFields(a, allowed) == head + x;
      ConcatAssoc(head, x, y);
    }
  }

  lemma ConcatAssoc<T>(h: seq<T>, x: seq<T>, y: seq<T>)
    ensures h + (x + y) == (h + x) + y
  {
  }

  /** Keys listed once (as `Object.keys` lists them) are reported once each. */
  lemma {:induction false} InvalidFieldsOnce(keys: seq<string>, allowed: seq<string>)
    requires forall i, j :: 0 <= i < j < |keys| ==> keys[i] != keys[j]
    ensures var r := InvalidFields(keys, allowed);
      forall i, j :: 0 <= i < j < |r| ==> r[i] != r[j]
  {
    if keys != [] {
      InvalidFieldsOnce(keys[1..], allowed);
      InvalidFirst(keys, allowed);
      assert keys[0] !in keys[1..];
    }
  }

  /**
   * The shared shape of the people and capacity guards: `v.length || v === 0`
   * rejects; reading `length` of null or undefined throws.
   */
  function CountCheck(v: Option<Json>, message: string): (o: Outcome)
    ensures v.None? || v.value.JNull? ==> o == Fail(Thrown)
    ensures v.Some? && v.value.JNum? ==> (o.Pass? <==> v.value.n != 0)
    ensures v.Some? && v.value.JStr? ==> (o.Pass? <==> v.value.s == "")
    ensures v.Some? && v.value.JArr? ==> (o.Pass? <==> v.value.items == [])
    ensures v.Some? && v.value.JBool? ==> o.Pass?
    ensures o.Fail? && o != Fail(Thrown) ==> o == Fail(Rejected(400, message))
  {
    if v.None? || v.value.JNull? then Fail(Thrown)
    else if Truthy(LengthOf(v.value)) || v.value == JNum(0) then Fail(Rejected(400, message))
    else Pass
  }
}
