/**
 Python's ordering of `str` and `bytes` values (lexicographic, shorter prefix first) and the
 `sorted` built-in, which the checkers use to make every iteration order deterministic.
 */
module Ordering {

  predicate Lt(a: string, b: string) {
    if b == [] then false
    else if a == [] then true
    else a[0] < b[0] || (a[0] == b[0] && Lt(a[1..], b[1..]))
  }

  predicate Le(a: string, b: string) {
    a == b || Lt(a, b)
  }

  lemma {:induction false} LtTrans(a: string, b: string, c: string)
    requires Lt(a, b) && Lt(b, c)
    ensures Lt(a, c)
  {
    if a != [] && a[0] == b[0] && b[0] == c[0] {
      LtTrans(a[1..], b[1..], c[1..]);
    }
  }

  lemma {:induction false} LtTotal(a: string, b: string)
    ensures a == b || Lt(a, b) || Lt(b, a)
  {
    if a != [] && b != [] && a[0] == b[0] {
      LtTotal(a[1..], b[1..]);
      assert a == [a[0]] + a[1..] && b == [b[0]] + b[1..];
    }
  }

  lemma {:induction false} LtIrreflexive(a: string)
    ensures !Lt(a, a)
  {
    if a != [] {
      LtIrreflexive(a[1..]);
    }
  }

  lemma LtAsymmetric(a: string, b: string)
    requires Lt(a, b)
    ensures !Lt(b, a)
  {
    if Lt(b, a) {
      LtTrans(a, b, a);
      LtIrreflexive(a);
    }
  }

  /** Strictly increasing: `sorted` of a collection without duplicates. */
  ghost predicate Increasing(s: seq<string>) {
    forall i, j :: 0 <= i < j < |s| ==> Lt(s[i], s[j])
  }

  predicate IsMinimum(m: string, s: set<string>) {
    m in s && forall x :: x in s ==> Le(m, x)
  }

  lemma MinimumExists(s: set<string>) returns (m: string)
    requires s != {}
    ensures IsMinimum(m, s)
    decreases |s|
  {
    var x :| x in s;
    if s - {x} == {} {
      assert s == {x};
      m := x;
    } else {
      m := MinimumExists(s - {x});
      LtTotal(x, m);
      if Lt(x, m) {
        forall y | y in s ensures Le(x, y) {
          if y != x && y != m {
            assert y in s - {x} && Le(m, y);
            LtTrans(x, m, y);
          }
        }
        m := x;
      }
    }
  }

  lemma MinimumUnique(s: set<string>, a: string, b: string)
    requires IsMinimum(a, s) && IsMinimum(b, s)
    ensures a == b
  {
    assert Le(a, b) && Le(b, a);
    if a != b { LtAsymmetric(a, b); }
  }

  lemma MinimumDefined(s: set<string>)
    requires s != {}
    ensures exists m :: m in s && IsMinimum(m, s)
    ensures forall a, b :: IsMinimum(a, s) && IsMinimum(b, s) ==> a == b
  {
    var m := MinimumExists(s);
    forall a, b | IsMinimum(a, s) && IsMinimum(b, s) ensures a == b {
      MinimumUnique(s, a, b);
    }
  }

  /** The least element of a non-empty set. */
  function Minimum(s: set<string>): (m: string)
    requires s != {}
    ensures IsMinimum(m, s)
  {
    MinimumDefined(s);
    var m :| m in s && IsMinimum(m, s);
    m
  }

  /** `sorted(s)` for a set `s`: every element once, in increasing order. */
  function Sorted(s: set<string>): (r: seq<string>)
    ensures Increasing(r)
    ensures forall x :: x in r <==> x in s
    ensures |r| == |s|
    decreases |s|
  {
    if s == {} then []
    else
      var m := Minimum(s);
      var rest := Sorted(s - {m});
      assert forall i :: 0 <= i < |rest| ==> rest[i] in s && Lt(m, rest[i]) by {
        forall i | 0 <= i < |rest| ensures rest[i] in s && Lt(m, rest[i]) {
          assert rest[i] in rest;
        }
      }
      [m] + rest
  }

  /** The sorted order of a set is unique. */
  lemma {:induction false} IncreasingUnique(r: seq<string>, q: seq<string>)
    requires Increasing(r) && Increasing(q)
    requires forall x :: x in r <==> x in q
    ensures r == q
  {
    assert r != [] ==> r[0] in q;
    assert q != [] ==> q[0] in r;
    if r != [] && q != [] {
      var i :| 0 <= i < |q| && q[i] == r[0];
      var j :| 0 <= j < |r| && r[j] == q[0];
      if i > 0 && j > 0 {
        LtAsymmetric(q[0], q[i]);
      }
      assert r[0] == q[0];
      LtIrreflexive(r[0]);
      forall x ensures x in r[1..] <==> x in q[1..] {
        assert x in r <==> x == r[0] || x in r[1..];
        assert x in q <==> x == q[0] || x in q[1..];
      }
      IncreasingUnique(r[1..], q[1..]);
      assert r == [r[0]] + r[1..] && q == [q[0]] + q[1..];
    }
  }

  lemma IncreasingDistinct(r: seq<string>, i: nat, j: nat)
    requires Increasing(r) && i < |r| && j < |r| && r[i] == r[j]
    ensures i == j
  {
    LtIrreflexive(r[i]);
  }

  // ----- Sequences of strings in lexicographic order

  /** Python's order on tuples of strings or bytes. */
  predicate LexLt(a: seq<string>, b: seq<string>) {
    if b == [] then false
    else if a == [] then true
    else Lt(a[0], b[0]) || (a[0] == b[0] && LexLt(a[1..], b[1..]))
  }

  lemma {:induction false} LexTrans(a: seq<string>, b: seq<string>, c: seq<string>)
    requires LexLt(a, b) && LexLt(b, c)
    ensures LexLt(a, c)
  {
    hide Lt;
    if a != [] {
      if a[0] == b[0] && b[0] == c[0] && LexLt(a[1..], b[1..]) && LexLt(b[1..], c[1..]) {
        LexTrans(a[1..], b[1..], c[1..]);
      } else if Lt(a[0], b[0]) && Lt(b[0], c[0]) {
        LtTrans(a[0], b[0], c[0]);
      }
    }
  }

  lemma {:induction false} LexTotal(a: seq<string>, b: seq<string>)
    ensures a == b || LexLt(a, b) || LexLt(b, a)
  {
    hide Lt;
    if a != [] && b != [] {
      LtTotal(a[0], b[0]);
      LexTotal(a[1..], b[1..]);
      assert a == [a[0]] + a[1..] && b == [b[0]] + b[1..];
    }
  }

  lemma {:induction false} LexIrreflexive(a: seq<string>)
    ensures !LexLt(a, a)
  {
    hide Lt;
    if a != [] {
      LtIrreflexive(a[0]);
      LexIrreflexive(a[1..]);
    }
  }

  lemma LexAsymmetric(a: seq<string>, b: seq<string>)
    requires LexLt(a, b)
    ensures !LexLt(b, a)
  {
    if LexLt(b, a) {
      LexTrans(a, b, a);
      LexIrreflexive(a);
    }
  }

  // ----- Sorting records by a key

  datatype Keyed<T> = Keyed(key: string, value: T)

  function Keys<T>(s: seq<Keyed<T>>): seq<string> {
    seq(|s|, i requires 0 <= i < |s| => s[i].key)
  }

  function Insert<T>(x: Keyed<T>, s: seq<Keyed<T>>): (r: seq<Keyed<T>>)
    ensures multiset(r) == multiset(s) + multiset{x}
  {
    if s == [] || Le(x.key, s[0].key) then [x] + s
    else
      assert s == [s[0]] + s[1..];
      [s[0]] + Insert(x, s[1..])
  }

  /** `sorted(s, key=...)`: a stable sort of the records by their keys. */
  function SortKeyed<T>(s: seq<Keyed<T>>): (r: seq<Keyed<T>>)
    ensures multiset(r) == multiset(s)
  {
    if s == [] then []
    else
      assert s == [s[0]] + s[1..];
      Insert(s[0], SortKeyed(s[1..]))
  }

  ghost predicate DistinctKeys<T>(s: seq<Keyed<T>>) {
    forall i, j :: 0 <= i < j < |s| ==> s[i].key != s[j].key
  }

  ghost predicate Ascending<T>(s: seq<Keyed<T>>) {
    forall i, j :: 0 <= i < j < |s| ==> Le(s[i].key, s[j].key)
  }

  lemma LeTrans(a: string, b: string, c: string)
    requires Le(a, b) && Le(b, c)
    ensures Le(a, c)
  {
    if a != b && b != c {
      LtTrans(a, b, c);
    }
  }

  lemma {:induction false} InsertAscending<T>(x: Keyed<T>, s: seq<Keyed<T>>)
    requires Ascending(s)
    ensures Ascending(Insert(x, s))
  {
    hide Lt;
    if s == [] {
    } else if Le(x.key, s[0].key) {
      forall j | 0 <= j < |s| ensures Le(x.key, s[j].key) {
        LeTrans(x.key, s[0].key, s[j].key);
      }
    } else {
      LtTotal(x.key, s[0].key);
      var r := Insert(x, s[1..]);
      InsertAscending(x, s[1..]);
      forall j | 0 <= j < |r| ensures Le(s[0].key, r[j].key) {
        assert r[j] in multiset(r);
        assert r[j] == x || r[j] in s[1..];
      }
    }
  }

  lemma {:induction false} SortAscending<T>(s: seq<Keyed<T>>)
    ensures Ascending(SortKeyed(s))
  {
    if s != [] {
      SortAscending(s[1..]);
      InsertAscending(s[0], SortKeyed(s[1..]));
    }
  }

  lemma SortLength<T>(s: seq<Keyed<T>>)
    ensures |SortKeyed(s)| == |s|
  {
    assert |SortKeyed(s)| == |multiset(SortKeyed(s))| == |multiset(s)|;
  }

  lemma SortMembers<T>(s: seq<Keyed<T>>, x: Keyed<T>)
    ensures x in SortKeyed(s) <==> x in s
  {
    assert x in multiset(SortKeyed(s)) <==> x in multiset(s);
  }

  lemma SortKeysMembers<T>(s: seq<Keyed<T>>, k: string)
    ensures k in Keys(SortKeyed(s)) <==> k in Keys(s)
  {
    hide SortKeyed;
    var r := SortKeyed(s);
    if k in Keys(r) {
      var i :| 0 <= i < |r| && Keys(r)[i] == k;
      SortMembers(s, r[i]);
      var j :| 0 <= j < |s| && s[j] == r[i];
      assert Keys(s)[j] == k;
    }
    if k in Keys(s) {
      var i :| 0 <= i < |s| && Keys(s)[i] == k;
      SortMembers(s, s[i]);
      var j :| 0 <= j < |r| && r[j] == s[i];
      assert Keys(r)[j] == k;
    }
  }

  /** Distinct keys come out in strictly increasing order. */
  lemma SortIncreasing<T>(s: seq<Keyed<T>>)
    requires DistinctKeys(s)
    ensures Increasing(Keys(SortKeyed(s))) && |SortKeyed(s)| == |s|
    ensures forall k :: k in Keys(SortKeyed(s)) <==> k in Keys(s)
  {
    hide Lt, SortKeyed;
    SortAscending(s);
    assert |SortKeyed(s)| == |multiset(SortKeyed(s))| == |multiset(s)|;
    DistinctSorted(s);
    forall k { SortKeysMembers(s, k); }
  }

  lemma {:induction false} DistinctSorted<T>(s: seq<Keyed<T>>)
    requires DistinctKeys(s)
    ensures DistinctKeys(SortKeyed(s))
  {
    if s != [] {
      DistinctSorted(s[1..]);
      forall x | x in SortKeyed(s[1..]) ensures x.key != s[0].key {
        SortMembers(s[1..], x);
        var j :| 0 <= j < |s[1..]| && s[1..][j] == x;
        assert s[j + 1] == x;
      }
      DistinctInsert(s[0], SortKeyed(s[1..]));
    }
  }

  lemma {:induction false} DistinctInsert<T>(x: Keyed<T>, s: seq<Keyed<T>>)
    requires DistinctKeys(s) && forall y :: y in s ==> y.key != x.key
    ensures DistinctKeys(Insert(x, s))
  {
    hide Lt;
    if s != [] && !Le(x.key, s[0].key) {
      DistinctInsert(x, s[1..]);
      var r := Insert(x, s[1..]);
      forall j | 0 <= j < |r| ensures r[j].key != s[0].key {
        assert r[j] in multiset(r);
        assert r[j] == x || r[j] in s[1..];
      }
    }
  }

  /** Records with distinct keys sort to one sequence, whatever their order was. */
  lemma SortOrderIndependent<T>(s: seq<Keyed<T>>, t: seq<Keyed<T>>)
    requires DistinctKeys(s) && DistinctKeys(t) && forall x :: x in s <==> x in t
    ensures SortKeyed(s) == SortKeyed(t)
  {
    hide SortKeyed, Increasing, Lt;
    SortIncreasing(s);
    SortIncreasing(t);
    forall k ensures k in Keys(s) <==> k in Keys(t) { SameKeys(s, t, k); }
    IncreasingUnique(Keys(SortKeyed(s)), Keys(SortKeyed(t)));
    assert |SortKeyed(s)| == |Keys(SortKeyed(s))| == |SortKeyed(t)|;
    forall i | 0 <= i < |SortKeyed(s)| ensures SortKeyed(s)[i] == SortKeyed(t)[i] {
      assert Keys(SortKeyed(s))[i] == Keys(SortKeyed(t))[i];
      SortMembers(s, SortKeyed(s)[i]);
      SortMembers(t, SortKeyed(t)[i]);
      KeyDetermines(s, SortKeyed(s)[i], SortKeyed(t)[i]);
    }
  }

  lemma SameKeys<T>(s: seq<Keyed<T>>, t: seq<Keyed<T>>, k: string)
    requires forall x :: x in s <==> x in t
    ensures k in Keys(s) <==> k in Keys(t)
  {
    if k in Keys(s) {
      var i :| 0 <= i < |s| && Keys(s)[i] == k;
      assert s[i] in t;
      var j :| 0 <= j < |t| && t[j] == s[i];
      assert Keys(t)[j] == k;
    }
    if k in Keys(t) {
      var i :| 0 <= i < |t| && Keys(t)[i] == k;
      assert t[i] in s;
      var j :| 0 <= j < |s| && s[j] == t[i];
      assert Keys(s)[j] == k;
    }
  }

  lemma KeyDetermines<T>(s: seq<Keyed<T>>, x: Keyed<T>, y: Keyed<T>)
    requires DistinctKeys(s) && x in s && y in s && x.key == y.key
    ensures x == y
  {
    var i :| 0 <= i < |s| && s[i] == x;
    var j :| 0 <= j < |s| && s[j] == y;
    assert i == j;
  }
}
