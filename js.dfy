/**
 * The JavaScript value semantics the controllers depend on: JSON values as
 * decoded from a request body, truthiness, the `length` property, the `<`
 * operator on strings and conversion of a value to a string.
 */
module Js {

  datatype Option<+T> = None | Some(value: T)

  /** A JSON value. Numbers are integers in this model. */
  datatype Json =
    | JNull
    | JBool(b: bool)
    | JNum(n: int)
    | JStr(s: string)
    | JArr(items: seq<Json>)
    | JObj(members: seq<(string, Json)>)

  /** `JSON.parse` keeps one member per key. */
  predicate DistinctKeys(ms: seq<(string, Json)>) {
    forall i, j :: 0 <= i < j < |ms| ==> ms[i].0 != ms[j].0
  }

  /** The decoded `data` object of a request body, members in source order. */
  type Payload = ms: seq<(string, Json)> | DistinctKeys(ms) witness []

  /** `o[k]` over an object's members; None is `undefined`. A later member wins. */
  function Lookup(ms: seq<(string, Json)>, k: string): (v: Option<Json>)
    ensures v.None? <==> forall i :: 0 <= i < |ms| ==> ms[i].0 != k
    ensures v.Some? ==> exists i :: 0 <= i < |ms| && ms[i] == (k, v.value)
  {
    if ms == [] then None
    else
      var rest := Lookup(ms[1..], k);
      if rest.Some? then
        assert ms[1..][0] == ms[1];
        rest
      else if ms[0].0 == k then Some(ms[0].1)
      else None
  }

  /** In an object with one member per key, looking a member's key up finds that member. */
  lemma LookupDistinct(ms: seq<(string, Json)>, i: int)
    requires DistinctKeys(ms) && 0 <= i < |ms|
    ensures Lookup(ms, ms[i].0) == Some(ms[i].1)
  {
  }

  /** `{ ...o, k: v }`: member k takes value v (in place if present, else appended); no other member changes. */
  function Spread(o: Payload, k: string, v: Json): (r: Payload)
    ensures Lookup(r, k) == Some(v)
    ensures forall k' :: k' != k ==> Lookup(r, k') == Lookup(o, k')
  {
    if Lookup(o, k).None? then
      var r: seq<(string, Json)> := o + [(k, v)];
      assert DistinctKeys(r);
      LookupDistinct(r, |o|);
      assert forall k' :: k' != k ==> Lookup(r, k') == Lookup(o, k') by {
        forall k' | k' != k ensures Lookup(r, k') == Lookup(o, k') {
          if Lookup(o, k').Some? {
            var j :| 0 <= j < |o| && o[j].0 == k';
            LookupDistinct(o, j);
            LookupDistinct(r, j);
          }
        }
      }
      r
    else
      var r: seq<(string, Json)> := seq(|o|, i requires 0 <= i < |o| => if o[i].0 == k then (k, v) else o[i]);
      assert DistinctKeys(r);
      var i :| 0 <= i < |o| && o[i].0 == k;
      LookupDistinct(r, i);
      assert forall k' :: k' != k ==> Lookup(r, k') == Lookup(o, k') by {
        forall k' | k' != k ensures Lookup(r, k') == Lookup(o, k') {
          if Lookup(o, k').Some? {
            var j :| 0 <= j < |o| && o[j].0 == k';
            LookupDistinct(o, j);
            LookupDistinct(r, j);
          }
        }
      }
      r
  }

  /** `data.k` where the handler destructures `data = {}`: an absent body gives `undefined`. */
  function Get(data: Option<Payload>, k: string): Option<Json> {
    if data.None? then None else Lookup(data.value, k)
  }

  /** `Object.keys(o)`, in member order. */
  function Keys(ms: seq<(string, Json)>): (ks: seq<string>)
    ensures |ks| == |ms|
    ensures forall i :: 0 <= i < |ms| ==> ks[i] == ms[i].0
  {
    seq(|ms|, i requires 0 <= i < |ms| => ms[i].0)
  }

  /** JavaScript truthiness of a possibly `undefined` (None) value. */
  predicate Truthy(v: Option<Json>) {
    match v
    case None => false
    case Some(JNull) => false
    case Some(JBool(b)) => b
    case Some(JNum(n)) => n != 0
    case Some(JStr(s)) => s != ""
    case Some(_) => true
  }

  /** `v.length` for a value that is neither null nor undefined; None is `undefined`. */
  function LengthOf(v: Json): Option<Json> {
    match v
    case JStr(s) => Some(JNum(|s|))
    case JArr(items) => Some(JNum(|items|))
    case JObj(ms) => Lookup(ms, "length")
    case _ => None
  }

  /** JavaScript `a < b` on two strings: lexicographic by character, a proper prefix is smaller. */
  predicate StrLess(a: string, b: string) {
    if b == [] then false
    else if a == [] then true
    else if a[0] != b[0] then a[0] < b[0]
    else StrLess(a[1..], b[1..])
  }

  function DigitChar(d: nat): char
    requires d < 10
  {
    "0123456789"[d]
  }

  /** Decimal notation of a natural number. */
  function NatToString(n: nat): (s: string)
    ensures |s| > 0
    ensures forall i :: 0 <= i < |s| ==> '0' <= s[i] <= '9'
  {
    if n < 10 then [DigitChar(n)] else NatToString(n / 10) + [DigitChar(n % 10)]
  }

  /** One or more decimal digits and nothing else. */
  predicate IsDecimal(s: string) {
    |s| > 0 && forall i :: 0 <= i < |s| ==> '0' <= s[i] <= '9'
  }

  /** The number a decimal text denotes, leading zeros allowed. */
  function DecimalValue(s: string): nat
    requires IsDecimal(s)
  {
    var d := (s[|s| - 1] as int) - ('0' as int);
    if |s| == 1 then d else DecimalValue(s[..|s| - 1]) * 10 + d
  }

  lemma DigitCharValue(d: nat)
    requires d < 10
    ensures (DigitChar(d) as int) - ('0' as int) == d
  {
    if d < 5 {
      if d == 0 {} else if d == 1 {} else if d == 2 {} else if d == 3 {} else {}
    } else {
      if d == 5 {} else if d == 6 {} else if d == 7 {} else if d == 8 {} else {}
    }
  }

  /** Reading back the decimal notation of n gives n. */
  lemma {:induction false} DecimalOfNatToString(n: nat)
    ensures IsDecimal(NatToString(n)) && DecimalValue(NatToString(n)) == n
  {
    DigitCharValue(n % 10);
    if n >= 10 {
      DecimalOfNatToString(n / 10);
      var s := NatToString(n);
      assert s[..|s| - 1] == NatToString(n / 10);
    }
  }

  function IntToString(n: int): string {
    if n < 0 then "-" + NatToString(-n) else NatToString(n)
  }

  function Join(xs: seq<string>, sep: string): string {
    if xs == [] then "" else if |xs| == 1 then xs[0] else xs[0] + sep + Join(xs[1..], sep)
  }

  /** `String(v)`, as a template literal `${v}` converts it. */
  function JsString(v: Json): string {
    match v
    case JNull => "null"
    case JBool(b) => if b then "true" else "false"
    case JNum(n) => IntToString(n)
    case JStr(s) => s
    case JArr(items) =>
      // Array.prototype.join(","): null elements become empty strings
      Join(seq(|items|, i requires 0 <= i < |items| => if items[i].JNull? then "" else JsString(items[i])), ",")
    case JObj(_) => "[object Object]"
  }
}
