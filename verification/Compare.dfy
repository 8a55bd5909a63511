/**
 scripts/intent_bounded_replay/compare.py: the first differing JSON Pointer of two artifacts, in
 canonical order. Pointers follow sections 3 and 4 of RFC 6901.
 */
module Compare {
  import opened CanonicalJson
  import opened Collections
  import opened Digits
  import opened JsonStrings
  import opened Ordering
  import opened Results

  const TILDE: CodePoint := 0x7E
  const SLASH: CodePoint := 0x2F
  const ZERO: CodePoint := 0x30
  const ONE: CodePoint := 0x31

  // ----- JSON Pointer text

  /** `s.replace(c, sub)` for a one-character pattern. */
  function ReplaceChar(s: Text, c: CodePoint, sub: Text): Text {
    if s == [] then []
    else (if s[0] == c then sub else [s[0]]) + ReplaceChar(s[1..], c, sub)
  }

  /** `s.replace([a, b], [sub])` for a two-character pattern. */
  function ReplacePair(s: Text, a: CodePoint, b: CodePoint, sub: CodePoint): Text {
    if |s| < 2 then s
    else if s[0] == a && s[1] == b then [sub] + ReplacePair(s[2..], a, b, sub)
    else [s[0]] + ReplacePair(s[1..], a, b, sub)
  }

  function Escape(component: Text): Text {
    ReplaceChar(ReplaceChar(component, TILDE, [TILDE, ZERO]), SLASH, [TILDE, ONE])
  }

  /** Section 4 of RFC 6901: first "~1" to "/", then "~0" to "~". */
  function Unescape(token: Text): Text {
    ReplacePair(ReplacePair(token, TILDE, ONE, SLASH), TILDE, ZERO, TILDE)
  }

  function PointerChild(path: Text, component: Text): Text {
    path + [SLASH] + Escape(component)
  }

  function Pointer(tokens: seq<Text>): Text {
    if tokens == [] then [] else [SLASH] + Escape(tokens[0]) + Pointer(tokens[1..])
  }

  lemma {:induction false} EscapeStep(c: CodePoint, s: Text)
    ensures Escape([c] + s) ==
      (if c == TILDE then [TILDE, ZERO] else if c == SLASH then [TILDE, ONE] else [c]) + Escape(s)
  {
    var t := [c] + s;
    assert t[1..] == s;
    var inner := ReplaceChar(s, TILDE, [TILDE, ZERO]);
    if c == TILDE {
      var u := [TILDE, ZERO] + inner;
      assert ReplaceChar(t, TILDE, [TILDE, ZERO]) == u;
      assert u[1..] == [ZERO] + inner && u[1..][1..] == inner;
      assert ReplaceChar(u, SLASH, [TILDE, ONE]) == [TILDE] + ReplaceChar(u[1..], SLASH, [TILDE, ONE]);
      assert ReplaceChar(u[1..], SLASH, [TILDE, ONE]) == [ZERO] + ReplaceChar(inner, SLASH, [TILDE, ONE]);
    } else {
      var u := [c] + inner;
      assert ReplaceChar(t, TILDE, [TILDE, ZERO]) == u;
      assert u[1..] == inner;
    }
  }

  /** Escaping is inverted by the unescaping rule of the standard, and leaves no slash. */
  lemma {:induction false} UnescapeEscape(s: Text)
    ensures Unescape(Escape(s)) == s && forall i :: 0 <= i < |Escape(s)| ==> Escape(s)[i] != SLASH
  {
    if s != [] {
      var c, rest := s[0], s[1..];
      assert s == [c] + rest;
      UnescapeEscape(rest);
      EscapeStep(c, rest);
      UnescapeStep(c, Escape(rest));
    }
  }

  lemma {:induction false} UnescapeStep(c: CodePoint, e: Text)
    ensures Unescape((if c == TILDE then [TILDE, ZERO] else if c == SLASH then [TILDE, ONE] else [c]) + e)
         == [c] + Unescape(e)
  {
    var inner := ReplacePair(e, TILDE, ONE, SLASH);
    if c == TILDE {
      var t := [TILDE, ZERO] + e;
      assert t[1..] == [ZERO] + e && t[1..][1..] == e;
      PairStep(ZERO, e, TILDE, ONE, SLASH);
      assert ReplacePair(t, TILDE, ONE, SLASH) == [TILDE] + ReplacePair(t[1..], TILDE, ONE, SLASH);
      var u := [TILDE, ZERO] + inner;
      assert ReplacePair(t, TILDE, ONE, SLASH) == u && u[2..] == inner;
    } else if c == SLASH {
      var t := [TILDE, ONE] + e;
      assert t[2..] == e;
      PairStep(SLASH, inner, TILDE, ZERO, TILDE);
    } else {
      PairStep(c, e, TILDE, ONE, SLASH);
      PairStep(c, inner, TILDE, ZERO, TILDE);
    }
  }

  lemma PairStep(c: CodePoint, e: Text, a: CodePoint, b: CodePoint, sub: CodePoint)
    requires c != a
    ensures ReplacePair([c] + e, a, b, sub) == [c] + ReplacePair(e, a, b, sub)
  {
    assert ([c] + e)[1..] == e;
  }

  /** The pointer text determines its tokens. */
  lemma {:induction false} PointerInjective(p: seq<Text>, q: seq<Text>)
    requires Pointer(p) == Pointer(q)
    ensures p == q
  {
    hide Escape, Unescape;
    if p != [] && q != [] {
      var ep, eq := Escape(p[0]), Escape(q[0]);
      var rp, rq := Pointer(p[1..]), Pointer(q[1..]);
      UnescapeEscape(p[0]);
      UnescapeEscape(q[0]);
      assert Pointer(p)[1..] == ep + rp && Pointer(q)[1..] == eq + rq;
      SlashSplit(ep, rp, eq, rq);
      PointerInjective(p[1..], q[1..]);
      assert p == [p[0]] + p[1..] && q == [q[0]] + q[1..];
    }
  }

  lemma SlashSplit(a: Text, r: Text, b: Text, s: Text)
    requires a + r == b + s
    requires (forall i :: 0 <= i < |a| ==> a[i] != SLASH) && (forall i :: 0 <= i < |b| ==> b[i] != SLASH)
    requires (r == [] || r[0] == SLASH) && (s == [] || s[0] == SLASH)
    ensures a == b && r == s
  {
    var t := a + r;
    assert forall i :: 0 <= i < |a| ==> t[i] == a[i];
    assert forall i :: 0 <= i < |b| ==> t[i] == b[i];
    assert r != [] ==> t[|a|] == r[0];
    assert s != [] ==> t[|b|] == s[0];
    assert |a| == |b|;
    assert a == t[..|a|] && b == t[..|b|] && r == t[|a|..] && s == t[|b|..];
  }

  // ----- The first divergence

  /** The position of `k` among the members, or their number if it is absent. */
  function FindKey(ms: seq<Member>, k: Text): (i: nat)
    ensures i <= |ms| && (i < |ms| ==> ms[i].key == k)
    ensures forall j :: 0 <= j < i ==> ms[j].key != k
  {
    if ms == [] then 0
    else if ms[0].key == k then 0
    else
      var i := FindKey(ms[1..], k);
      assert forall j :: 0 < j < i + 1 ==> ms[j] == ms[1..][j - 1];
      i + 1
  }

  predicate Has(ms: seq<Member>, k: Text) {
    FindKey(ms, k) < |ms|
  }

  function Child(ms: seq<Member>, k: Text): Json
    requires Has(ms, k)
  {
    ms[FindKey(ms, k)].child
  }

  function Names(ms: seq<Member>): seq<Text> {
    seq(|ms|, i requires 0 <= i < |ms| => ms[i].key)
  }

  function MissingNames(xs: seq<Member>, ys: seq<Member>): seq<Text> {
    if ys == [] then []
    else (if Has(xs, ys[0].key) then [] else [ys[0].key]) + MissingNames(xs, ys[1..])
  }

  function KeyNames(names: seq<Text>): Result<seq<Keyed<Text>>> {
    if names == [] then Success([])
    else
      var bytes :- EncodeUtf8(names[0]);
      var rest :- KeyNames(names[1..]);
      Success([Keyed(bytes, names[0])] + rest)
  }

  /** `sorted(set(old) | set(new), key=lambda key: key.encode("utf-8"))` */
  function UnionKeys(xs: seq<Member>, ys: seq<Member>): Result<seq<Keyed<Text>>> {
    var keyed :- KeyNames(Names(xs) + MissingNames(xs, ys));
    Success(SortKeyed(keyed))
  }

  /** `str(index)` */
  function IndexToken(n: nat): Text {
    var digits := NatText(n);
    seq(|digits|, i requires 0 <= i < |digits| => digits[i] as int)
  }

  /** The token of an array index is its decimal text. */
  lemma IndexTokenIs(n: nat) returns (digits: string)
    ensures AllDigits(digits) && Minimal(digits) && Value(digits) == n
    ensures |IndexToken(n)| == |digits| && forall i :: 0 <= i < |digits| ==> IndexToken(n)[i] == digits[i] as int
  {
    digits := NatText(n);
    NatTextValue(n);
  }

  function FirstDivergence(before: Json, after: Json, path: Text): Result<Option<Text>>
    decreases before, 1
  {
    var oldBytes :- Canonical(before);
    var newBytes :- Canonical(after);
    if oldBytes == newBytes then Success(None)
    else if before.Obj? && after.Obj? then
      var keys :- UnionKeys(before.members, after.members);
      DivergeKeys(before, after, keys, path)
    else if before.Arr? && after.Arr? then DivergeItems(before, after, 0, path)
    else Success(Some(path))
  }

  function DivergeKeys(before: Json, after: Json, keys: seq<Keyed<Text>>, path: Text): Result<Option<Text>>
    requires before.Obj? && after.Obj?
    decreases before, 0, |keys|
  {
    if keys == [] then Success(Some(path))
    else
      var key := keys[0].value;
      var childPath := PointerChild(path, key);
      if !Has(before.members, key) || !Has(after.members, key) then Success(Some(childPath))
      else
        var divergence :- FirstDivergence(before.members[FindKey(before.members, key)].child, Child(after.members, key), childPath);
        if divergence.Some? then Success(divergence) else DivergeKeys(before, after, keys[1..], path)
  }

  function DivergeItems(before: Json, after: Json, n: nat, path: Text): Result<Option<Text>>
    requires before.Arr? && after.Arr? && n <= Min(|before.items|, |after.items|)
    decreases before, 0, |before.items| - n
  {
    if n < |before.items| && n < |after.items| then
      var divergence :- FirstDivergence(before.items[n], after.items[n], PointerChild(path, IndexToken(n)));
      if divergence.Some? then Success(divergence) else DivergeItems(before, after, n + 1, path)
    else if |before.items| != |after.items| then Success(Some(PointerChild(path, IndexToken(n))))
    else Success(Some(path))
  }

  // ----- What a first divergence is

  ghost predicate KeyLt(j: Text, k: Text) {
    EncodeUtf8(j).Success? && EncodeUtf8(k).Success? && Lt(EncodeUtf8(j).value, EncodeUtf8(k).value)
  }

  ghost predicate AgreeAt(xs: seq<Member>, ys: seq<Member>, k: Text) {
    Has(xs, k) && Has(ys, k) && Same(Child(xs, k), Child(ys, k))
  }

  /** Every key of either object whose bytes precede those of `k` has the same value in both. */
  ghost predicate EarlierKeysAgree(xs: seq<Member>, ys: seq<Member>, k: Text) {
    forall j :: (Has(xs, j) || Has(ys, j)) && KeyLt(j, k) ==> AgreeAt(xs, ys, j)
  }

  /**
   `tokens` leads, through containers of one kind whose earlier children are all the same, to a
   member or element that only one side has, or to unequal values that are not both objects and not
   both arrays.
   */
  ghost predicate FirstAt(before: Json, after: Json, tokens: seq<Text>)
    decreases |tokens|
  {
    if before.Obj? && after.Obj? then
      && tokens != []
      && EarlierKeysAgree(before.members, after.members, tokens[0])
      && if Has(before.members, tokens[0]) && Has(after.members, tokens[0])
         then FirstAt(Child(before.members, tokens[0]), Child(after.members, tokens[0]), tokens[1..])
         else |tokens| == 1 && (Has(before.members, tokens[0]) || Has(after.members, tokens[0]))
    else if before.Arr? && after.Arr? then
      && tokens != []
      && exists n: nat ::
           && tokens[0] == IndexToken(n)
           && n <= |before.items| && n <= |after.items|
           && (forall i :: 0 <= i < n ==> Same(before.items[i], after.items[i]))
           && if n < |before.items| && n < |after.items|
              then FirstAt(before.items[n], after.items[n], tokens[1..])
              else |tokens| == 1 && |before.items| != |after.items|
    else tokens == [] && !Same(before, after)
  }

  // ----- The union of the keys

  ghost predicate Listed(keys: seq<Keyed<Text>>, j: Text) {
    exists k :: 0 <= k < |keys| && keys[k].value == j
  }

  /** The sorted union: every key of either object once, by increasing bytes. */
  ghost predicate IsUnion(xs: seq<Member>, ys: seq<Member>, keys: seq<Keyed<Text>>) {
    && Increasing(Keys(keys))
    && (forall k :: 0 <= k < |keys| ==> EncodeUtf8(keys[k].value) == Success(keys[k].key))
    && (forall j :: Listed(keys, j) <==> Has(xs, j) || Has(ys, j))
  }

  lemma {:induction false} MissingNamesAre(xs: seq<Member>, ys: seq<Member>, j: Text)
    ensures j in MissingNames(xs, ys) <==> !Has(xs, j) && Has(ys, j)
  {
    if ys != [] {
      MissingNamesAre(xs, ys[1..], j);
    }
  }

  lemma {:induction false} MissingNamesDistinct(xs: seq<Member>, ys: seq<Member>)
    requires DistinctNames(ys)
    ensures var m := MissingNames(xs, ys); forall i, j :: 0 <= i < j < |m| ==> m[i] != m[j]
  {
    if ys != [] {
      MissingNamesDistinct(xs, ys[1..]);
      MissingNamesAre(xs, ys[1..], ys[0].key);
      AbsentLater(ys);
    }
  }

  lemma AbsentLater(ys: seq<Member>)
    requires ys != [] && DistinctNames(ys)
    ensures !Has(ys[1..], ys[0].key)
  {
    assert forall i :: 0 <= i < |ys[1..]| ==> ys[1..][i] == ys[i + 1];
  }

  lemma {:induction false} KeyNamesPointwise(names: seq<Text>)
    requires forall i :: 0 <= i < |names| ==> NoSurrogate(names[i])
    ensures KeyNames(names).Success? && |KeyNames(names).value| == |names|
    ensures forall i :: 0 <= i < |names| ==>
              KeyNames(names).value[i].value == names[i] && EncodeUtf8(names[i]) == Success(KeyNames(names).value[i].key)
  {
    if names != [] {
      EncodableIff(names[0]);
      KeyNamesPointwise(names[1..]);
      assert forall i :: 0 < i < |names| ==> names[i] == names[1..][i - 1];
    }
  }

  lemma NamesAre(ms: seq<Member>, j: Text)
    ensures j in Names(ms) <==> Has(ms, j)
  {
    var i := FindKey(ms, j);
    if i < |ms| {
      assert Names(ms)[i] == j;
    }
    if j in Names(ms) {
      var k :| 0 <= k < |ms| && Names(ms)[k] == j;
      assert ms[k].key == j;
    }
  }

  /** The names to compare, before sorting. */
  ghost function AllNames(xs: seq<Member>, ys: seq<Member>): seq<Text> {
    Names(xs) + MissingNames(xs, ys)
  }

  lemma AllNamesAre(xs: seq<Member>, ys: seq<Member>, j: Text)
    ensures j in AllNames(xs, ys) <==> Has(xs, j) || Has(ys, j)
  {
    NamesAre(xs, j);
    MissingNamesAre(xs, ys, j);
  }

  lemma AllNamesDistinct(xs: seq<Member>, ys: seq<Member>)
    requires DistinctNames(xs) && DistinctNames(ys)
    ensures var m := AllNames(xs, ys); forall i, j :: 0 <= i < j < |m| ==> m[i] != m[j]
  {
    MissingNamesDistinct(xs, ys);
    var m := AllNames(xs, ys);
    forall i, j | 0 <= i < j < |m| ensures m[i] != m[j] {
      if i < |xs| <= j {
        NamesAre(xs, m[i]);
        assert m[i] in Names(xs) && m[j] in MissingNames(xs, ys);
        MissingNamesAre(xs, ys, m[j]);
      }
    }
  }

  ghost predicate NamesEncodable(ms: seq<Member>) {
    DistinctNames(ms) && forall i :: 0 <= i < |ms| ==> NoSurrogate(ms[i].key)
  }

  lemma UnionKeysAre(xs: seq<Member>, ys: seq<Member>)
    requires NamesEncodable(xs) && NamesEncodable(ys)
    ensures UnionKeys(xs, ys).Success? && IsUnion(xs, ys, UnionKeys(xs, ys).value)
  {
    var names := AllNames(xs, ys);
    forall i | 0 <= i < |names| ensures NoSurrogate(names[i]) {
      AllNamesAre(xs, ys, names[i]);
    }
    KeyNamesPointwise(names);
    AllNamesDistinct(xs, ys);
    var keyed := KeyNames(names).value;
    SortedNames(names, keyed);
    hide KeyNames, SortKeyed, EncodeUtf8, Increasing, FindKey;
    forall j ensures Listed(SortKeyed(keyed), j) <==> Has(xs, j) || Has(ys, j) {
      AllNamesAre(xs, ys, j);
    }
  }

  lemma SortedNames(names: seq<Text>, keyed: seq<Keyed<Text>>)
    requires |keyed| == |names| && forall i, j :: 0 <= i < j < |names| ==> names[i] != names[j]
    requires forall i :: 0 <= i < |names| ==> keyed[i].value == names[i] && EncodeUtf8(names[i]) == Success(keyed[i].key)
    ensures Increasing(Keys(SortKeyed(keyed)))
    ensures forall k :: 0 <= k < |SortKeyed(keyed)| ==> EncodeUtf8(SortKeyed(keyed)[k].value) == Success(SortKeyed(keyed)[k].key)
    ensures forall j :: Listed(SortKeyed(keyed), j) <==> j in names
  {
    hide SortKeyed, EncodeUtf8, Increasing;
    var r := SortKeyed(keyed);
    forall i, j | 0 <= i < j < |keyed| ensures keyed[i].key != keyed[j].key {
      if keyed[i].key == keyed[j].key {
        EncodeUtf8Injective(names[i], names[j]);
      }
    }
    SortIncreasing(keyed);
    forall k | 0 <= k < |r| ensures r[k].value in names && EncodeUtf8(r[k].value) == Success(r[k].key) {
      SortMembers(keyed, r[k]);
    }
    forall j | j in names ensures Listed(r, j) {
      var i :| 0 <= i < |names| && names[i] == j;
      SortMembers(keyed, keyed[i]);
      var k :| 0 <= k < |r| && r[k] == keyed[i];
    }
  }

  // ----- The search finds the first divergence

  lemma FoundKey(ms: seq<Member>, i: nat)
    requires DistinctNames(ms) && i < |ms|
    ensures Has(ms, ms[i].key) && Child(ms, ms[i].key) == ms[i].child
  {
    assert FindKey(ms, ms[i].key) == i;
  }

  /** If every key of either object agrees, the objects are the same. */
  lemma AllAgreeSame(before: Json, after: Json, keys: seq<Keyed<Text>>)
    requires before.Obj? && after.Obj? && DistinctNames(before.members) && DistinctNames(after.members)
    requires IsUnion(before.members, after.members, keys)
    requires forall k :: 0 <= k < |keys| ==> AgreeAt(before.members, after.members, keys[k].value)
    ensures Same(before, after)
  {
    hide EncodeUtf8, Increasing;
    var xs, ys := before.members, after.members;
    forall i | 0 <= i < |xs| ensures AgreeAt(xs, ys, xs[i].key) {
      FoundKey(xs, i);
      assert Listed(keys, xs[i].key);
    }
    forall j | 0 <= j < |ys| ensures AgreeAt(xs, ys, ys[j].key) {
      FoundKey(ys, j);
      assert Listed(keys, ys[j].key);
    }
    AgreeingObjectsSame(before, after);
  }

  lemma AgreeingObjectsSame(before: Json, after: Json)
    requires before.Obj? && after.Obj? && DistinctNames(before.members) && DistinctNames(after.members)
    requires forall i :: 0 <= i < |before.members| ==> AgreeAt(before.members, after.members, before.members[i].key)
    requires forall j :: 0 <= j < |after.members| ==> AgreeAt(before.members, after.members, after.members[j].key)
    ensures Same(before, after)
  {
    var xs, ys := before.members, after.members;
    forall i | 0 <= i < |xs| ensures HasKey(ys, xs[i].key) {
      assert ys[FindKey(ys, xs[i].key)].key == xs[i].key;
    }
    forall j | 0 <= j < |ys| ensures HasKey(xs, ys[j].key) {
      assert xs[FindKey(xs, ys[j].key)].key == ys[j].key;
    }
    forall i, j | 0 <= i < |xs| && 0 <= j < |ys| && xs[i].key == ys[j].key ensures Same(xs[i].child, ys[j].child) {
      FoundKey(xs, i);
      FoundKey(ys, j);
      assert AgreeAt(xs, ys, xs[i].key);
    }
  }

  lemma EarlierAgree(xs: seq<Member>, ys: seq<Member>, keys: seq<Keyed<Text>>, n: nat)
    requires IsUnion(xs, ys, keys) && n < |keys|
    requires forall k :: 0 <= k < n ==> AgreeAt(xs, ys, keys[k].value)
    ensures EarlierKeysAgree(xs, ys, keys[n].value)
  {
    hide EncodeUtf8, Lt, Has, AgreeAt;
    forall j | (Has(xs, j) || Has(ys, j)) && KeyLt(j, keys[n].value) ensures AgreeAt(xs, ys, j) {
      assert Listed(keys, j);
      var k :| 0 <= k < |keys| && keys[k].value == j;
      assert Lt(keys[k].key, keys[n].key);
      if k >= n {
        KeysOrdered(keys, n, k);
      }
    }
  }

  lemma KeysOrdered(keys: seq<Keyed<Text>>, n: nat, k: nat)
    requires Increasing(Keys(keys)) && n <= k < |keys|
    ensures !Lt(keys[k].key, keys[n].key)
  {
    if n == k {
      LtIrreflexive(keys[k].key);
    } else {
      assert Lt(Keys(keys)[n], Keys(keys)[k]);
      LtAsymmetric(keys[n].key, keys[k].key);
    }
  }

  lemma PointerExtends(path: Text, token: Text, rest: seq<Text>)
    ensures PointerChild(path, token) + Pointer(rest) == path + Pointer([token] + rest)
  {
    assert ([token] + rest)[1..] == rest;
  }

  lemma PointerSingle(path: Text, token: Text)
    ensures PointerChild(path, token) == path + Pointer([token])
  {
    PointerExtends(path, token, []);
    assert PointerChild(path, token) + [] == PointerChild(path, token) && [token] + [] == [token];
  }

  /** What `_first_divergence` returns for canonical values: nothing, or the first divergence. */
  ghost predicate Diverges(before: Json, after: Json, path: Text, r: Result<Option<Text>>, tokens: seq<Text>) {
    && r.Success?
    && (r.value.None? <==> Same(before, after))
    && (r.value.Some? ==> FirstAt(before, after, tokens) && r.value.value == path + Pointer(tokens))
  }

  lemma {:induction false} FirstDivergenceFinds(before: Json, after: Json, path: Text) returns (tokens: seq<Text>)
    requires Accepted(before) && Accepted(after)
    ensures Diverges(before, after, path, FirstDivergence(before, after, path), tokens)
    decreases before, 1
  {
    AcceptedIff(before);
    AcceptedIff(after);
    CanonicalIffSame(before, after);
    tokens := [];
    if Canonical(before) == Canonical(after) {
    } else if before.Obj? && after.Obj? {
      UnionKeysAre(before.members, after.members);
      var keys := UnionKeys(before.members, after.members).value;
      assert keys[0..] == keys;
      tokens := DivergeKeysFinds(before, after, keys, 0, path);
    } else if before.Arr? && after.Arr? {
      tokens := DivergeItemsFinds(before, after, 0, path);
    } else {
      assert path + Pointer([]) == path;
    }
  }

  lemma {:induction false} DivergeKeysFinds(before: Json, after: Json, keys: seq<Keyed<Text>>, n: nat, path: Text) returns (tokens: seq<Text>)
    requires before.Obj? && after.Obj? && Accepted(before) && Accepted(after) && !Same(before, after)
    requires IsUnion(before.members, after.members, keys) && n <= |keys|
    requires forall k :: 0 <= k < n ==> AgreeAt(before.members, after.members, keys[k].value)
    ensures Diverges(before, after, path, DivergeKeys(before, after, keys[n..], path), tokens)
    decreases before, 0, |keys| - n
  {
    var xs, ys := before.members, after.members;
    if n == |keys| {
      AllAgreeSame(before, after, keys);
      assert false;
    }
    hide Same, EncodeUtf8, IsUnion, EarlierKeysAgree, FindKey, Escape;
    var key := keys[n].value;
    assert keys[n..][0] == keys[n] && keys[n..][1..] == keys[n + 1..];
    EarlierAgree(xs, ys, keys, n);
    UnionHas(xs, ys, keys, n);
    if !Has(xs, key) || !Has(ys, key) {
      tokens := [key];
      PointerSingle(path, key);
    } else {
      var a, b := xs[FindKey(xs, key)].child, Child(ys, key);
      var rest := FirstDivergenceFinds(a, b, PointerChild(path, key));
      if Same(a, b) {
        tokens := DivergeKeysFinds(before, after, keys, n + 1, path);
      } else {
        tokens := [key] + rest;
        PointerExtends(path, key, rest);
        assert tokens[1..] == rest;
      }
    }
  }

  lemma UnionHas(xs: seq<Member>, ys: seq<Member>, keys: seq<Keyed<Text>>, n: nat)
    requires IsUnion(xs, ys, keys) && n < |keys|
    ensures Has(xs, keys[n].value) || Has(ys, keys[n].value)
  {
    assert Listed(keys, keys[n].value);
  }

  lemma ItemsOf(before: Json, after: Json)
    requires before.Arr? && after.Arr? && Accepted(before) && Accepted(after) && !Same(before, after)
    ensures forall i :: 0 <= i < |before.items| ==> Accepted(before.items[i])
    ensures forall i :: 0 <= i < |after.items| ==> Accepted(after.items[i])
    ensures |before.items| == |after.items| ==>
              exists i :: 0 <= i < |before.items| && !Same(before.items[i], after.items[i])
  {
  }

  lemma ItemFirstAt(before: Json, after: Json, n: nat, rest: seq<Text>)
    requires before.Arr? && after.Arr? && n <= |before.items| && n <= |after.items|
    requires forall i :: 0 <= i < n ==> Same(before.items[i], after.items[i])
    requires if n < |before.items| && n < |after.items| then FirstAt(before.items[n], after.items[n], rest)
             else rest == [] && |before.items| != |after.items|
    ensures FirstAt(before, after, [IndexToken(n)] + rest)
  {
    hide Same, IndexToken;
    assert ([IndexToken(n)] + rest)[1..] == rest;
  }

  lemma {:induction false} DivergeItemsFinds(before: Json, after: Json, n: nat, path: Text) returns (tokens: seq<Text>)
    requires before.Arr? && after.Arr? && Accepted(before) && Accepted(after) && !Same(before, after)
    requires n <= Min(|before.items|, |after.items|)
    requires forall i :: 0 <= i < n ==> Same(before.items[i], after.items[i])
    ensures Diverges(before, after, path, DivergeItems(before, after, n, path), tokens)
    decreases before, 0, |before.items| - n
  {
    hide Same, Accepted, FirstDivergence, Pointer, PointerChild, IndexToken, FirstAt;
    ItemsOf(before, after);
    var xs, ys := before.items, after.items;
    if n < |xs| && n < |ys| {
      var rest := FirstDivergenceFinds(xs[n], ys[n], PointerChild(path, IndexToken(n)));
      if Same(xs[n], ys[n]) {
        tokens := DivergeItemsFinds(before, after, n + 1, path);
      } else {
        tokens := [IndexToken(n)] + rest;
        PointerExtends(path, IndexToken(n), rest);
        ItemFirstAt(before, after, n, rest);
      }
    } else {
      tokens := [IndexToken(n)];
      LengthsDiverge(before, after, n, path);
    }
  }

  lemma LengthsDiverge(before: Json, after: Json, n: nat, path: Text)
    requires before.Arr? && after.Arr? && !Same(before, after) && n == Min(|before.items|, |after.items|)
    requires |before.items| != |after.items| && forall i :: 0 <= i < n ==> Same(before.items[i], after.items[i])
    ensures Diverges(before, after, path, DivergeItems(before, after, n, path), [IndexToken(n)])
  {
    hide Same, FirstDivergence, Pointer, PointerChild, IndexToken, FirstAt;
    PointerSingle(path, IndexToken(n));
    ItemFirstAt(before, after, n, []);
    assert [IndexToken(n)] + [] == [IndexToken(n)];
  }

  // ----- What the pointer points at

  lemma IndexTokenInjective(m: nat, n: nat)
    requires IndexToken(m) == IndexToken(n)
    ensures m == n
  {
    var s, t := NatText(m), NatText(n);
    assert |s| == |IndexToken(m)| == |t|;
    forall i | 0 <= i < |s| ensures s[i] == t[i] {
      assert IndexToken(m)[i] == s[i] as int && IndexToken(n)[i] == t[i] as int;
    }
    assert s == t;
    NatTextInjective(m, n);
  }

  /** Evaluation of a pointer, section 4 of RFC 6901. */
  ghost function Resolve(v: Json, tokens: seq<Text>): Option<Json>
    decreases |tokens|
  {
    if tokens == [] then Some(v)
    else if v.Obj? && Has(v.members, tokens[0]) then Resolve(Child(v.members, tokens[0]), tokens[1..])
    else if v.Arr? && exists n: nat :: n < |v.items| && tokens[0] == IndexToken(n) then
      var n: nat :| n < |v.items| && tokens[0] == IndexToken(n);
      Resolve(v.items[n], tokens[1..])
    else None
  }

  /** One side is absent there, or the two values differ and are not both objects or both arrays. */
  ghost predicate Divergent(a: Option<Json>, b: Option<Json>) {
    || (a.None? && b.Some?)
    || (a.Some? && b.None?)
    || (a.Some? && b.Some? && !Same(a.value, b.value)
        && !(a.value.Obj? && b.value.Obj?) && !(a.value.Arr? && b.value.Arr?))
  }

  lemma {:induction false} FirstAtDiverges(before: Json, after: Json, tokens: seq<Text>)
    requires FirstAt(before, after, tokens)
    ensures Divergent(Resolve(before, tokens), Resolve(after, tokens))
    decreases |tokens|
  {
    hide EarlierKeysAgree, FindKey;
    if before.Obj? && after.Obj? {
      var k := tokens[0];
      if Has(before.members, k) && Has(after.members, k) {
        FirstAtDiverges(Child(before.members, k), Child(after.members, k), tokens[1..]);
      } else {
        assert tokens[1..] == [];
      }
    } else if before.Arr? && after.Arr? {
      var xs, ys := before.items, after.items;
      var n: nat :|
        && tokens[0] == IndexToken(n)
        && n <= |xs| && n <= |ys|
        && (forall i :: 0 <= i < n ==> Same(xs[i], ys[i]))
        && if n < |xs| && n < |ys| then FirstAt(xs[n], ys[n], tokens[1..]) else |tokens| == 1 && |xs| != |ys|;
      ResolveItem(xs, tokens, n);
      ResolveItem(ys, tokens, n);
      if n < |xs| && n < |ys| {
        FirstAtDiverges(xs[n], ys[n], tokens[1..]);
      } else {
        assert tokens[1..] == [];
      }
    }
  }

  lemma ResolveItem(xs: seq<Json>, tokens: seq<Text>, n: nat)
    requires tokens != [] && tokens[0] == IndexToken(n)
    ensures Resolve(Arr(xs), tokens) == if n < |xs| then Resolve(xs[n], tokens[1..]) else None
  {
    hide IndexToken;
    forall m: nat | tokens[0] == IndexToken(m) ensures m == n {
      IndexTokenInjective(m, n);
    }
  }

  // ----- Artifacts

  /** A Python string literal as code points. */
  function Literal(s: string): Text {
    seq(|s|, i requires 0 <= i < |s| => s[i] as int)
  }

  function SelfHashFields(): seq<Text> {
    [Literal("artifact_sha256"), Literal("attestation_sha256"), Literal("manifest_sha256")]
  }

  function PresentFields(ms: seq<Member>, fields: seq<Text>): seq<Text> {
    if fields == [] then []
    else (if Has(ms, fields[0]) then [fields[0]] else []) + PresentFields(ms, fields[1..])
  }

  function Without(ms: seq<Member>, k: Text): seq<Member>
    requires Has(ms, k)
  {
    ms[..FindKey(ms, k)] + ms[FindKey(ms, k) + 1..]
  }

  /** The artifact with its own top-level self-hash omitted; two such fields are an error. */
  function ArtifactBody(artifact: Json): Result<Json> {
    if !artifact.Obj? then Success(artifact)
    else
      var present := PresentFields(artifact.members, SelfHashFields());
      if |present| > 1 then Failure
      else if present == [] then Success(artifact)
      else
        PresentHas(artifact.members, SelfHashFields());
        Success(Obj(Without(artifact.members, present[0])))
  }

  lemma {:induction false} PresentHas(ms: seq<Member>, fields: seq<Text>)
    ensures forall i :: 0 <= i < |PresentFields(ms, fields)| ==>
              Has(ms, PresentFields(ms, fields)[i]) && PresentFields(ms, fields)[i] in fields
    ensures forall f :: f in fields && Has(ms, f) ==> f in PresentFields(ms, fields)
  {
    if fields != [] {
      PresentHas(ms, fields[1..]);
    }
  }

  /** `dict(artifact)` minus one key: the key is gone and every other key keeps its value. */
  lemma WithoutRemoves(ms: seq<Member>, k: Text, j: Text)
    requires DistinctNames(ms) && Has(ms, k)
    ensures DistinctNames(Without(ms, k))
    ensures Has(Without(ms, k), j) <==> Has(ms, j) && j != k
    ensures Has(Without(ms, k), j) ==> Child(Without(ms, k), j) == Child(ms, j)
  {
    var n := FindKey(ms, k);
    var w := Without(ms, k);
    assert forall i :: 0 <= i < |w| ==> w[i] == ms[if i < n then i else i + 1];
    assert DistinctNames(w);
    if Has(ms, j) && j != k {
      var i := FindKey(ms, j);
      var i' := if i < n then i else i - 1;
      assert w[i'] == ms[i];
      FoundKey(w, i');
    }
    if Has(w, j) {
      var i' := FindKey(w, j);
      FoundKey(ms, if i' < n then i' else i' + 1);
    }
  }

  /** One of the three fields in which an artifact carries its own hash. */
  ghost predicate IsSelfHash(k: Text) {
    k == Literal("artifact_sha256") || k == Literal("attestation_sha256") || k == Literal("manifest_sha256")
  }

  lemma SelfHashNamesDiffer()
    ensures Literal("artifact_sha256") != Literal("attestation_sha256")
    ensures Literal("artifact_sha256") != Literal("manifest_sha256")
    ensures Literal("attestation_sha256") != Literal("manifest_sha256")
  {
    var a, b, c := Literal("artifact_sha256"), Literal("attestation_sha256"), Literal("manifest_sha256");
    assert a[0] == 'a' as int && b[0] == 'a' as int && c[0] == 'm' as int;
    assert a[1] == 'r' as int && b[1] == 't' as int;
  }

  lemma HasIff(ms: seq<Member>, k: Text)
    ensures Has(ms, k) <==> HasKey(ms, k)
  {
  }

  /** Two different self-hash fields are present. */
  ghost predicate TwoSelfHashes(ms: seq<Member>) {
    exists i, j :: 0 <= i < |ms| && 0 <= j < |ms| && IsSelfHash(ms[i].key) && IsSelfHash(ms[j].key) && ms[i].key != ms[j].key
  }

  /**
   The body of an artifact: an error exactly if it is an object with two self-hash fields; otherwise the
   object with exactly its other members, or the artifact itself if it is no object.
   */
  lemma ArtifactBodyIs(artifact: Json)
    requires artifact.Obj? ==> DistinctNames(artifact.members)
    ensures !artifact.Obj? ==> ArtifactBody(artifact) == Success(artifact)
    ensures artifact.Obj? ==> (ArtifactBody(artifact).Failure? <==> TwoSelfHashes(artifact.members))
    ensures artifact.Obj? && ArtifactBody(artifact).Success? ==>
              var body := ArtifactBody(artifact).value;
              && body.Obj? && DistinctNames(body.members)
              && forall m :: m in body.members <==> m in artifact.members && !IsSelfHash(m.key)
  {
    if artifact.Obj? {
      var ms := artifact.members;
      var a, b, c := Literal("artifact_sha256"), Literal("attestation_sha256"), Literal("manifest_sha256");
      SelfHashNamesDiffer();
      HasIff(ms, a);
      HasIff(ms, b);
      HasIff(ms, c);
      PresentAre(ms);
      TwoIff(ms);
      hide Literal, Has, TwoSelfHashes, DistinctNames;
      var present := PresentFields(ms, SelfHashFields());
      if |present| == 1 {
        BodyMembers(ms, present[0]);
        OnlyPresent(ms, present[0]);
      } else if present == [] {
        forall m | m in ms ensures !IsSelfHash(m.key) {
          var i :| 0 <= i < |ms| && ms[i] == m;
          assert HasKey(ms, m.key);
        }
      }
    }
  }

  lemma PresentAre(ms: seq<Member>)
    ensures var a, b, c := Literal("artifact_sha256"), Literal("attestation_sha256"), Literal("manifest_sha256");
            PresentFields(ms, SelfHashFields())
            == (if Has(ms, a) then [a] else []) + (if Has(ms, b) then [b] else []) + (if Has(ms, c) then [c] else [])
  {
    var a, b, c := Literal("artifact_sha256"), Literal("attestation_sha256"), Literal("manifest_sha256");
    hide Literal, Has;
    var fields := SelfHashFields();
    var two: seq<Text>, one: seq<Text> := [b, c], [c];
    assert fields == [a, b, c] && fields[1..] == two && two[1..] == one && |one[1..]| == 0;
    assert PresentFields(ms, one) == if Has(ms, c) then [c] else [];
    assert PresentFields(ms, two) == (if Has(ms, b) then [b] else []) + PresentFields(ms, one);
  }

  lemma TwoIff(ms: seq<Member>)
    ensures var a, b, c := Literal("artifact_sha256"), Literal("attestation_sha256"), Literal("manifest_sha256");
            TwoSelfHashes(ms) <==>
              (HasKey(ms, a) && HasKey(ms, b)) || (HasKey(ms, a) && HasKey(ms, c)) || (HasKey(ms, b) && HasKey(ms, c))
  {
    SelfHashNamesDiffer();
    hide Literal;
  }

  lemma OnlyPresent(ms: seq<Member>, k: Text)
    requires var a, b, c := Literal("artifact_sha256"), Literal("attestation_sha256"), Literal("manifest_sha256");
             [k] == (if Has(ms, a) then [a] else []) + (if Has(ms, b) then [b] else []) + (if Has(ms, c) then [c] else [])
    ensures IsSelfHash(k) && forall m :: m in ms && IsSelfHash(m.key) ==> m.key == k
  {
    var a, b, c := Literal("artifact_sha256"), Literal("attestation_sha256"), Literal("manifest_sha256");
    var all := (if Has(ms, a) then [a] else []) + (if Has(ms, b) then [b] else []) + (if Has(ms, c) then [c] else []);
    assert all[0] == k && |all| == 1;
    forall m | m in ms && IsSelfHash(m.key) ensures m.key == k {
      HasIff(ms, m.key);
      var i :| 0 <= i < |ms| && ms[i] == m;
      assert HasKey(ms, m.key);
      hide Literal, Has;
    }
  }

  lemma BodyMembers(ms: seq<Member>, k: Text)
    requires DistinctNames(ms) && Has(ms, k)
    ensures DistinctNames(Without(ms, k)) && forall m :: m in Without(ms, k) <==> m in ms && m.key != k
  {
    var n, w := FindKey(ms, k), Without(ms, k);
    assert forall i :: 0 <= i < |w| ==> w[i] == ms[if i < n then i else i + 1];
    forall m | m in ms && m.key != k ensures m in w {
      var i :| 0 <= i < |ms| && ms[i] == m;
      assert w[if i < n then i else i - 1] == m;
    }
  }

  datatype Report = Report(equal: bool, oldHash: string, newHash: string, firstDivergence: Option<Option<Text>>)

  /** `canonical_artifact_hash_v1`, for a given SHA-256. */
  function ArtifactHash(sha: string -> string, artifact: Json): Result<string> {
    var body :- ArtifactBody(artifact);
    var bytes :- Canonical(body);
    Success(sha(bytes))
  }

  function CompareReport(sha: string -> string, before: Json, after: Json): Result<Report> {
    var oldHash :- ArtifactHash(sha, before);
    var newHash :- ArtifactHash(sha, after);
    if oldHash == newHash then Success(Report(true, oldHash, newHash, None))
    else
      var oldBody :- ArtifactBody(before);
      var newBody :- ArtifactBody(after);
      var divergence :- FirstDivergence(oldBody, newBody, []);
      Success(Report(false, oldHash, newHash, Some(divergence)))
  }

  /** An artifact has a hash: it has a body, and the body can be encoded. */
  ghost predicate Hashable(artifact: Json) {
    ArtifactBody(artifact).Success? && Accepted(ArtifactBody(artifact).value)
  }

  /**
   There is a report exactly when both artifacts have a hash. If the bodies are the same it says equal;
   unequal hashes always come with the pointer of the first divergence of the bodies; and if the hash
   does not collide on the two bodies, "equal" means the same JSON value.
   */
  lemma CompareReportMeaning(sha: string -> string, before: Json, after: Json) returns (tokens: seq<Text>)
    ensures CompareReport(sha, before, after).Success? <==> Hashable(before) && Hashable(after)
    ensures Hashable(before) && Hashable(after) ==>
            var r := CompareReport(sha, before, after).value;
            var x := ArtifactBody(before).value;
            var y := ArtifactBody(after).value;
            && r.oldHash == sha(Canonical(x).value) && r.newHash == sha(Canonical(y).value)
            && (r.equal <==> r.oldHash == r.newHash)
            && (Same(x, y) ==> r.equal)
            && (!r.equal ==> r.firstDivergence == Some(Some(Pointer(tokens))) && FirstAt(x, y, tokens))
            && (r.equal ==> r.firstDivergence == None)
            && (r.equal && (Canonical(x) != Canonical(y) ==> sha(Canonical(x).value) != sha(Canonical(y).value)) ==> Same(x, y))
  {
    hide Canonical, Same, FirstAt, Accepted, ArtifactBody, FirstDivergence, Pointer;
    if ArtifactBody(before).Success? {
      AcceptedIff(ArtifactBody(before).value);
    }
    if ArtifactBody(after).Success? {
      AcceptedIff(ArtifactBody(after).value);
    }
    tokens := [];
    if Hashable(before) && Hashable(after) {
      var x, y := ArtifactBody(before).value, ArtifactBody(after).value;
      CanonicalIffSame(x, y);
      tokens := FirstDivergenceFinds(x, y, []);
      assert [] + Pointer(tokens) == Pointer(tokens);
    }
  }

  /** Artifacts that agree in all members but one self-hash each are reported equal, whatever the self-hashes are. */
  lemma SelfHashIsIgnored(sha: string -> string, before: Json, after: Json)
    requires before.Obj? && after.Obj? && DistinctNames(before.members) && DistinctNames(after.members)
    requires !TwoSelfHashes(before.members) && !TwoSelfHashes(after.members)
    requires forall m :: m in before.members && !IsSelfHash(m.key) ==> NoSurrogate(m.key) && Accepted(m.child)
    requires forall m: Member :: !IsSelfHash(m.key) ==> (m in before.members <==> m in after.members)
    ensures CompareReport(sha, before, after).Success? && CompareReport(sha, before, after).value.equal
  {
    ArtifactBodyIs(before);
    ArtifactBodyIs(after);
    var x, y := ArtifactBody(before).value, ArtifactBody(after).value;
    hide ArtifactBody, IsSelfHash, TwoSelfHashes, CompareReport, NoSurrogate;
    forall i | 0 <= i < |x.members| ensures NoSurrogate(x.members[i].key) && Accepted(x.members[i].child) {
      assert x.members[i] in x.members;
    }
    SameMembers(x, y);
    var tokens := CompareReportMeaning(sha, before, after);
  }

  /** Objects with the same members are the same value and equally acceptable. */
  lemma SameMembers(x: Json, y: Json)
    requires x.Obj? && y.Obj? && DistinctNames(x.members) && DistinctNames(y.members) && Accepted(x)
    requires forall m :: m in x.members <==> m in y.members
    ensures Accepted(y) && Same(x, y)
  {
    hide NoSurrogate;
    var xs, ys := x.members, y.members;
    forall j | 0 <= j < |ys| ensures NoSurrogate(ys[j].key) && Accepted(ys[j].child) && HasKey(xs, ys[j].key) {
      assert ys[j] in xs;
    }
    forall i | 0 <= i < |xs| ensures HasKey(ys, xs[i].key) {
      assert xs[i] in ys;
    }
    forall i, j | 0 <= i < |xs| && 0 <= j < |ys| && xs[i].key == ys[j].key ensures Same(xs[i].child, ys[j].child) {
      assert xs[i] in ys;
      var k :| 0 <= k < |ys| && ys[k] == xs[i];
      assert k == j;
      AcceptedSelf(xs[i].child);
    }
  }

  lemma AcceptedSelf(v: Json)
    requires Accepted(v)
    ensures Same(v, v)
  {
    hide Canonical, Same, Accepted;
    AcceptedIff(v);
    CanonicalIffSame(v, v);
  }
}
