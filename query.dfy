/**
 * What a row-store query returns, stated over an in-memory table: a scan of
 * the rows, a WHERE filter, an ORDER BY on a text column and the
 * `LIKE '%p%'` substring test.
 */
module Query {
  import opened Js

  /**
   * What `WHERE id = v` makes of a JSON value compared with an integer id
   * column: None when the database raises an error (the value is not an
   * integer text), Some(None) when it names no row that can exist (null,
   * a negative number), Some(Some(n)) when it names id n.
   */
  function RowKey(v: Json): (k: Option<Option<nat>>)
    ensures v.JNum? ==> k == Some(if v.n >= 0 then Some(v.n) else None)
    ensures v.JNull? ==> k == Some(None)
    ensures v.JStr? && IsDecimal(v.s) ==> k == Some(Some(DecimalValue(v.s)))
    ensures k.None? <==> !v.JNum? && !v.JNull? && !(v.JStr? && IsDecimal(v.s))
  {
    match v
    case JNum(n) => Some(if n >= 0 then Some(n) else None)
    case JNull => Some(None)
    case JStr(s) => if IsDecimal(s) then Some(Some(DecimalValue(s))) else None
    case _ => None
  }

  /** The text a number is stored as names the same row as the number. */
  lemma RowKeyOfNumberText(n: nat)
    ensures RowKey(JStr(NatToString(n))) == RowKey(JNum(n)) == Some(Some(n))
  {
    DecimalOfNatToString(n);
  }

  /** The order used by ORDER BY on a text column: JavaScript string order. */
  predicate StrLeq(a: string, b: string) {
    a == b || StrLess(a, b)
  }

  lemma {:induction false} StrLessIrreflexive(a: string)
    ensures !StrLess(a, a)
  {
    if a != [] {
      StrLessIrreflexive(a[1..]);
    }
  }

  /** Any two strings are equal or one is below the other. */
  lemma {:induction false} StrLessTotal(a: string, b: string)
    ensures a == b || StrLess(a, b) || StrLess(b, a)
  {
    if a != [] && b != [] && a[0] == b[0] {
      StrLessTotal(a[1..], b[1..]);
      if a[1..] == b[1..] {
        assert a == [a[0]] + a[1..] && b == [b[0]] + b[1..];
      }
    }
  }

  lemma {:induction false} StrLessTransitive(a: string, b: string, c: string)
    requires StrLess(a, b) && StrLess(b, c)
    ensures StrLess(a, c)
  {
    if a != [] && a[0] == b[0] && b[0] == c[0] {
      StrLessTransitive(a[1..], b[1..], c[1..]);
    }
  }

  lemma StrLeqTotal(a: string, b: string)
    ensures StrLeq(a, b) || StrLeq(b, a)
  {
    StrLessTotal(a, b);
  }

  lemma StrLeqTransitive(a: string, b: string, c: string)
    requires StrLeq(a, b) && StrLeq(b, c)
    ensures StrLeq(a, c)
  {
    if a != b && b != c {
      StrLessTransitive(a, b, c);
    }
  }

  /** The rows are in non-decreasing order of their key column. */
  predicate SortedBy<R>(rs: seq<R>, key: R -> string) {
    forall i, j :: 0 <= i < j < |rs| ==> StrLeq(key(rs[i]), key(rs[j]))
  }

  /** Inserts `x` before the first row whose key is not below x's. */
  function Insert<R(==)>(x: R, rs: seq<R>, key: R -> string): (out: seq<R>)
    ensures multiset(out) == multiset(rs) + multiset{x}
    ensures SortedBy(rs, key) ==> SortedBy(out, key)
  {
    if rs == [] then [x]
    else if StrLeq(key(x), key(rs[0])) then
      PrependSorted(x, rs, key);
      [x] + rs
    else
      var tail := Insert(x, rs[1..], key);
      assert rs == [rs[0]] + rs[1..];
      if SortedBy(rs, key) then
        HeadBelowTail(x, rs, tail, key);
        [rs[0]] + tail
      else
        [rs[0]] + tail
  }

  /** A row whose key is not above the first key of a sorted run can go in front. */
  lemma PrependSorted<R>(x: R, rs: seq<R>, key: R -> string)
    requires rs != [] && StrLeq(key(x), key(rs[0]))
    ensures SortedBy(rs, key) ==> SortedBy([x] + rs, key)
  {
    if SortedBy(rs, key) {
      forall j | 0 <= j < |rs| ensures StrLeq(key(x), key(rs[j])) {
        if j > 0 { StrLeqTransitive(key(x), key(rs[0]), key(rs[j])); }
      }
    }
  }

  /** The first row of a sorted run stays in front of the sorted rest with a larger row inserted. */
  lemma HeadBelowTail<R>(x: R, rs: seq<R>, tail: seq<R>, key: R -> string)
    requires rs != [] && SortedBy(rs, key) && SortedBy(tail, key)
    requires !StrLeq(key(x), key(rs[0]))
    requires multiset(tail) == multiset(rs[1..]) + multiset{x}
    ensures SortedBy([rs[0]] + tail, key)
  {
    StrLeqTotal(key(x), key(rs[0]));
    forall j | 0 <= j < |tail| ensures StrLeq(key(rs[0]), key(tail[j])) {
      assert tail[j] in multiset(tail);
      if tail[j] != x {
        assert tail[j] in multiset(rs[1..]);
        var k :| 0 <= k < |rs[1..]| && rs[1..][k] == tail[j];
        assert rs[k + 1] == tail[j];
      }
    }
  }

  /** ORDER BY key, as an insertion sort: the same rows, in non-decreasing key order. */
  function SortBy<R(==)>(rs: seq<R>, key: R -> string): (out: seq<R>)
    ensures multiset(out) == multiset(rs)
    ensures SortedBy(out, key)
  {
    if rs == [] then []
    else
      assert rs == [rs[0]] + rs[1..];
      Insert(rs[0], SortBy(rs[1..], key), key)
  }

  /** WHERE p: the rows satisfying p, each as often as in rs, in scan order. */
  function Filter<R(==,!new)>(rs: seq<R>, p: R -> bool): (out: seq<R>)
    ensures forall r :: r in out <==> r in rs && p(r)
    ensures |out| <= |rs|
  {
    if rs == [] then []
    else
      var rest := Filter(rs[1..], p);
      assert forall r :: r in rs <==> r == rs[0] || r in rs[1..];
      if p(rs[0]) then [rs[0]] + rest else rest
  }

  /** Filtering keeps scan order: filtering a concatenation concatenates the filtered parts. */
  lemma {:induction false} FilterConcat<R(!new)>(a: seq<R>, b: seq<R>, p: R -> bool)
    ensures Filter(a + b, p) == Filter(a, p) + Filter(b, p)
  {
    if a == [] {
      assert a + b == b;
    } else {
      var ab := a + b;
      assert ab[0] == a[0] && ab[1..] == a[1..] + b;
      FilterConcat(a[1..], b, p);
      FilterFirst(ab, p);
      FilterFirst(a, p);
      var head := if p(a[0]) then [a[0]] else [];
      assert head + (Filter(a[1..], p) + Filter(b, p)) == (head + Filter(a[1..], p)) + Filter(b, p);
    }
  }

  /** Filtering keeps each row satisfying p as often as it occurs, and no other row. */
  lemma {:induction false} FilterCount<R(!new)>(rs: seq<R>, p: R -> bool)
    ensures forall r :: multiset(Filter(rs, p))[r] == if p(r) then multiset(rs)[r] else 0
  {
    if rs != [] {
      FilterCount(rs[1..], p);
      FilterFirst(rs, p);
      assert rs == [rs[0]] + rs[1..];
      assert multiset(rs) == multiset{rs[0]} + multiset(rs[1..]);
    }
  }

  /** The first row is kept exactly when it satisfies p. */
  lemma FilterFirst<R(!new)>(rs: seq<R>, p: R -> bool)
    requires rs != []
    ensures Filter(rs, p) == (if p(rs[0]) then [rs[0]] else []) + Filter(rs[1..], p)
  {
  }

  /** A least element of a non-empty finite set of ids, found by induction on the set. */
  lemma {:induction false} LeastOf(s: set<nat>) returns (k: nat)
    requires s != {}
    ensures k in s && forall j :: j in s ==> k <= j
  {
    var x :| x in s;
    var rest := s - {x};
    if rest == {} {
      k := x;
      forall j | j in s ensures k <= j {
        assert j !in rest;
      }
    } else {
      var m := LeastOf(rest);
      k := if x < m then x else m;
      forall j | j in s ensures k <= j {
        if j != x { assert j in rest; }
      }
    }
  }

  /** Every non-empty finite set of ids has a least element. */
  lemma LeastExists(s: set<nat>)
    requires s != {}
    ensures exists k :: k in s && forall j :: j in s ==> k <= j
  {
    var k := LeastOf(s);
  }

  function Least(s: set<nat>): (k: nat)
    requires s != {}
    ensures k in s && forall j :: j in s ==> k <= j
  {
    LeastExists(s);
    var k :| k in s && forall j :: j in s ==> k <= j;
    k
  }

  /** The ids holding row r. */
  function IdsOf<R(==)>(m: map<nat, R>, r: R): set<nat> {
    set k | k in m && m[k] == r
  }

  /** Removing id k from the table removes k from the ids of its row and nothing else. */
  lemma IdsOfRemove<R>(m: map<nat, R>, k: nat, r: R)
    requires k in m
    ensures |IdsOf(m, r)| == |IdsOf(m - {k}, r)| + (if m[k] == r then 1 else 0)
  {
    var rest := m - {k};
    if m[k] == r {
      assert IdsOf(m, r) == IdsOf(rest, r) + {k};
    } else {
      assert IdsOf(m, r) == IdsOf(rest, r);
    }
  }

  /** A full table scan: every row once per id holding it. */
  function Scan<R(==,!new)>(m: map<nat, R>): (rs: seq<R>)
    ensures |rs| == |m|
    ensures forall r :: multiset(rs)[r] == |IdsOf(m, r)|
    ensures forall r :: r in rs <==> r in m.Values
    decreases |m|
  {
    if |m| == 0 then []
    else
      var k := Least(m.Keys);
      var rest := m - {k};
      assert m.Keys == rest.Keys + {k};
      assert |rest| == |m| - 1;
      var tail := Scan(rest);
      assert forall r :: multiset([m[k]] + tail)[r] == |IdsOf(m, r)| by {
        forall r ensures multiset([m[k]] + tail)[r] == |IdsOf(m, r)| {
          IdsOfRemove(m, k, r);
        }
      }
      assert forall r :: r in m.Values <==> r == m[k] || r in rest.Values by {
        forall r ensures r in m.Values <==> r == m[k] || r in rest.Values {
          if r in m.Values {
            var j :| j in m && m[j] == r;
            if j != k { assert rest[j] == r; }
          }
          if r in rest.Values {
            var j :| j in rest && rest[j] == r;
            assert m[j] == r;
          }
        }
      }
      [m[k]] + tail
  }

  /** Two row lists holding the same rows, counted with multiplicity, hold the same rows. */
  lemma SameMembers<R>(a: seq<R>, b: seq<R>)
    requires multiset(a) == multiset(b)
    ensures forall r :: r in a <==> r in b
  {
    forall r ensures r in a <==> r in b {
      assert r in a <==> r in multiset(a);
      assert r in b <==> r in multiset(b);
    }
  }

  /**
   * `SELECT ... WHERE p ORDER BY key`: each row satisfying p once per id
   * holding it, no other row, in non-decreasing key order.
   */
  function Select<R(==,!new)>(m: map<nat, R>, p: R -> bool, key: R -> string): (out: seq<R>)
    ensures forall r :: multiset(out)[r] == if p(r) then |IdsOf(m, r)| else 0
    ensures forall r :: r in out <==> r in m.Values && p(r)
    ensures SortedBy(out, key)
  {
    var picked := Filter(Scan(m), p);
    FilterCount(Scan(m), p);
    var out := SortBy(picked, key);
    SameMembers(out, picked);
    out
  }

  /** p occurs in s at position i. */
  predicate OccursAt(s: string, p: string, i: int) {
    0 <= i <= |s| - |p| && s[i..i + |p|] == p
  }

  /** SQL `s LIKE '%p%'` for a pattern without wildcards: p occurs in s. */
  predicate Contains(s: string, p: string)
    ensures Contains(s, p) <==> exists i :: OccursAt(s, p, i)
  {
    if |p| > |s| then false
    else if s[..|p|] == p then
      assert OccursAt(s, p, 0);
      true
    else
      var r := Contains(s[1..], p);
      assert forall i :: OccursAt(s, p, i) && i > 0 ==> OccursAt(s[1..], p, i - 1) by {
        forall i | OccursAt(s, p, i) && i > 0 ensures OccursAt(s[1..], p, i - 1) {
          assert s[1..][i - 1..i - 1 + |p|] == s[i..i + |p|];
        }
      }
      assert r ==> exists i :: OccursAt(s, p, i) by {
        if r {
          var i :| OccursAt(s[1..], p, i);
          assert s[1..][i..i + |p|] == s[i + 1..i + 1 + |p|];
          assert OccursAt(s, p, i + 1);
        }
      }
      r
  }
}
