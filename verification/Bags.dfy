/**
 Counting and sorting shared by the ratchets: Python's `sorted` under a total order and the scan
 that reports every entry beyond the allowance of its content.
 */
module Bags {
  import opened Collections

  ghost predicate TotalOrder<T(!new)>(less: (T, T) -> bool) {
    && (forall a :: !less(a, a))
    && (forall a, b :: a == b || less(a, b) || less(b, a))
    && (forall a, b, c :: less(a, b) && less(b, c) ==> less(a, c))
  }

  predicate IsLeast<T(!new)>(m: T, b: multiset<T>, less: (T, T) -> bool) {
    m in b && forall x :: x in b ==> !less(x, m)
  }

  lemma LeastExists<T(!new)>(b: multiset<T>, less: (T, T) -> bool) returns (m: T)
    requires TotalOrder(less) && b != multiset{}
    ensures IsLeast(m, b, less)
    decreases |b|
  {
    var x :| x in b;
    var rest := b - multiset{x};
    assert b == rest + multiset{x};
    m := x;
    if rest != multiset{} {
      m := LeastExists(rest, less);
      if less(x, m) {
        m := x;
      }
    }
  }

  lemma LeastDefined<T(!new)>(b: multiset<T>, less: (T, T) -> bool)
    requires TotalOrder(less) && b != multiset{}
    ensures exists m :: m in b && IsLeast(m, b, less)
    ensures forall m, n :: IsLeast(m, b, less) && IsLeast(n, b, less) ==> m == n
  {
    var m := LeastExists(b, less);
  }

  ghost predicate Ascends<T>(s: seq<T>, less: (T, T) -> bool) {
    forall i, j :: 0 <= i < j < |s| ==> !less(s[j], s[i])
  }

  lemma LeastFirst<T(!new)>(b: multiset<T>, less: (T, T) -> bool, m: T, rest: seq<T>)
    requires IsLeast(m, b, less) && multiset(rest) == b - multiset{m} && Ascends(rest, less)
    ensures multiset([m] + rest) == b && Ascends([m] + rest, less)
  {
    assert b == multiset{m} + (b - multiset{m});
    forall i | 0 <= i < |rest| ensures !less(rest[i], m) {
      assert rest[i] in multiset(rest);
    }
  }

  /** `sorted` of a collection with the given elements. */
  function SortedBag<T(!new)>(b: multiset<T>, less: (T, T) -> bool): (r: seq<T>)
    requires TotalOrder(less)
    ensures multiset(r) == b && Ascends(r, less)
    decreases |b|
  {
    if b == multiset{} then []
    else
      LeastDefined(b, less);
      hide TotalOrder, IsLeast, Ascends;
      var m :| m in b && IsLeast(m, b, less);
      var rest := SortedBag(b - multiset{m}, less);
      LeastFirst(b, less, m, rest);
      [m] + rest
  }

  lemma TwiceIn<T>(keys: seq<T>, i: nat, j: nat)
    requires i < j < |keys| && keys[i] == keys[j]
    ensures multiset(keys)[keys[i]] >= 2
  {
    assert keys == keys[..j] + keys[j..];
    assert keys[..j][i] == keys[i] && keys[j..][0] == keys[i];
    assert keys[i] in multiset(keys[..j]) && keys[i] in multiset(keys[j..]);
  }

  /** A listing of a set has every element once. */
  lemma ListingIsDistinct<T>(keys: seq<T>, s: set<T>)
    requires multiset(keys) == multiset(s)
    ensures Distinct(keys) && Elems(keys) == s
  {
    forall k ensures k in keys <==> k in s {
      assert k in multiset(keys) <==> k in multiset(s);
    }
    forall i, j | 0 <= i < j < |keys| ensures keys[i] != keys[j] {
      if keys[i] == keys[j] {
        TwiceIn(keys, i, j);
      }
    }
  }

  // ----- Entries beyond an allowance

  function Contents<K, C>(keys: seq<K>, content: K -> C): (r: seq<C>)
    ensures |r| == |keys|
  {
    seq(|keys|, i requires 0 <= i < |keys| => content(keys[i]))
  }

  /** The entries whose occurrence number, among the entries of equal content so far, exceeds the allowance. */
  function Excess<K, C(==)>(keys: seq<K>, content: K -> C, allowed: multiset<C>): seq<K> {
    if keys == [] then []
    else
      var n := |keys| - 1;
      var c := content(keys[n]);
      Excess(keys[..n], content, allowed)
      + (if multiset(Contents(keys, content))[c] > allowed[c] then [keys[n]] else [])
  }

  lemma ContentsSnoc<K, C>(keys: seq<K>, k: K, content: K -> C)
    ensures Contents(keys + [k], content) == Contents(keys, content) + [content(k)]
  {
  }

  /** The contents of the reported entries are the multiset difference. */
  lemma {:induction false} ExcessIsDifference<K, C>(keys: seq<K>, content: K -> C, allowed: multiset<C>)
    ensures multiset(Contents(Excess(keys, content, allowed), content)) == multiset(Contents(keys, content)) - allowed
  {
    if keys != [] {
      var n := |keys| - 1;
      assert keys == keys[..n] + [keys[n]];
      ContentsSnoc(keys[..n], keys[n], content);
      ExcessIsDifference(keys[..n], content, allowed);
      var before := Excess(keys[..n], content, allowed);
      ContentsSnoc(before, keys[n], content);
      assert before + [] == before;
    }
  }

  /** Entry `i` is reported by its occurrence number alone. */
  ghost predicate Exceeds<K, C>(keys: seq<K>, content: K -> C, allowed: multiset<C>, i: nat)
    requires i < |keys|
  {
    multiset(Contents(keys[..i + 1], content))[content(keys[i])] > allowed[content(keys[i])]
  }

  lemma PrefixExceeds<K, C>(init: seq<K>, last: K, content: K -> C, allowed: multiset<C>, i: nat)
    requires i < |init|
    ensures Exceeds(init + [last], content, allowed, i) <==> Exceeds(init, content, allowed, i)
  {
    assert (init + [last])[..i + 1] == init[..i + 1];
  }

  lemma {:induction false} ExcessMembers<K, C>(keys: seq<K>, content: K -> C, allowed: multiset<C>, k: K)
    ensures k in Excess(keys, content, allowed) <==>
            exists i: nat :: i < |keys| && keys[i] == k && Exceeds(keys, content, allowed, i)
  {
    if keys != [] {
      var n := |keys| - 1;
      var init, last := keys[..n], keys[n];
      assert keys == init + [last] && keys[..n + 1] == keys;
      assert Exceeds(keys, content, allowed, n) <==> multiset(Contents(keys, content))[content(last)] > allowed[content(last)];
      var early := Excess(init, content, allowed);
      assert Excess(keys, content, allowed) == early + (if Exceeds(keys, content, allowed, n) then [last] else []);
      ExcessMembers(init, content, allowed, k);
      hide Exceeds, Excess, Contents;
      forall i: nat | i < n ensures Exceeds(init, content, allowed, i) <==> Exceeds(keys, content, allowed, i) {
        PrefixExceeds(init, last, content, allowed, i);
      }
    }
  }

  lemma ExcessAt<K, C>(keys: seq<K>, content: K -> C, allowed: multiset<C>, i: nat)
    requires Distinct(keys) && i < |keys|
    ensures keys[i] in Excess(keys, content, allowed) <==> Exceeds(keys, content, allowed, i)
  {
    hide Excess, Exceeds;
    ExcessMembers(keys, content, allowed, keys[i]);
  }

  lemma ExcessWithin<K, C>(keys: seq<K>, content: K -> C, allowed: multiset<C>)
    ensures forall k :: k in Excess(keys, content, allowed) ==> k in keys
  {
    forall k | k in Excess(keys, content, allowed) ensures k in keys {
      ExcessMembers(keys, content, allowed, k);
    }
  }

  ghost predicate Increases<T>(s: seq<T>, less: (T, T) -> bool) {
    forall i, j :: 0 <= i < j < |s| ==> less(s[i], s[j])
  }

  lemma IncreasesSnoc<T>(s: seq<T>, x: T, less: (T, T) -> bool)
    requires Increases(s, less) && forall i :: 0 <= i < |s| ==> less(s[i], x)
    ensures Increases(s + [x], less)
  {
  }

  lemma AscendsIncreases<T(!new)>(s: seq<T>, less: (T, T) -> bool)
    requires TotalOrder(less) && Ascends(s, less) && Distinct(s)
    ensures Increases(s, less)
  {
    forall i, j | 0 <= i < j < |s| ensures less(s[i], s[j]) {
      assert s[i] != s[j] && !less(s[j], s[i]);
    }
  }

  /** Reported entries keep the order of the entries. */
  lemma {:induction false} ExcessIncreases<K, C>(keys: seq<K>, content: K -> C, allowed: multiset<C>, less: (K, K) -> bool)
    requires Increases(keys, less)
    ensures Increases(Excess(keys, content, allowed), less)
  {
    hide Contents;
    if keys != [] {
      var n := |keys| - 1;
      assert Increases(keys[..n], less);
      ExcessIncreases(keys[..n], content, allowed, less);
      ExcessWithin(keys[..n], content, allowed);
      var early := Excess(keys[..n], content, allowed);
      forall i | 0 <= i < |early| ensures less(early[i], keys[n]) {
        assert early[i] in early && early[i] in keys[..n];
        var k :| 0 <= k < n && keys[..n][k] == early[i];
        assert less(keys[k], keys[n]);
      }
      IncreasesSnoc(early, keys[n], less);
    }
  }

  lemma ExcessSnoc<K, C>(keys: seq<K>, i: nat, content: K -> C, allowed: multiset<C>)
    requires i < |keys|
    ensures var c := content(keys[i]);
            var seen := multiset(Contents(keys[..i], content)) + multiset{c};
            && multiset(Contents(keys[..i + 1], content)) == seen
            && Excess(keys[..i + 1], content, allowed) == Excess(keys[..i], content, allowed) + (if seen[c] > allowed[c] then [keys[i]] else [])
  {
    assert keys[..i + 1] == keys[..i] + [keys[i]] && keys[..i + 1][..i] == keys[..i];
    ContentsSnoc(keys[..i], keys[i], content);
  }

  /** The loop over sorted keys with its running counter. */
  method FindExcess<K, C(==)>(keys: seq<K>, content: K -> C, allowed: multiset<C>) returns (r: seq<K>)
    ensures r == Excess(keys, content, allowed)
  {
    hide Contents, Excess;
    r := [];
    var seen: multiset<C> := multiset{};
    NothingYet(content, allowed);
    for i := 0 to |keys|
      invariant seen == multiset(Contents(keys[..i], content))
      invariant r == Excess(keys[..i], content, allowed)
    {
      ExcessSnoc(keys, i, content, allowed);
      var c := content(keys[i]);
      seen := seen + multiset{c};
      if seen[c] > allowed[c] {
        r := r + [keys[i]];
      }
    }
    assert keys[..|keys|] == keys;
  }

  lemma NothingYet<K, C>(content: K -> C, allowed: multiset<C>)
    ensures Contents([], content) == [] && Excess([], content, allowed) == []
  {
  }
}
