/**
 `canonical_json` of scripts/intent_bounded_replay/normalize.py on finite JSON trees: two accepted
 values have the same bytes iff they are the same JSON value.
 */
module CanonicalJson {
  import opened CanonicalNumber
  import opened JsonStrings
  import opened Ordering
  import opened Results
  import opened Strings

  datatype Member = Member(key: Text, child: Json)

  /** `Foreign` stands for a Python value of any type that JSON does not have. */
  datatype Json =
    | Null
    | Bool(b: bool)
    | Num(x: Number)
    | Str(s: Text)
    | Arr(items: seq<Json>)
    | Obj(members: seq<Member>)
    | Foreign

  predicate DistinctNames(ms: seq<Member>) {
    forall i, j :: 0 <= i < j < |ms| ==> ms[i].key != ms[j].key
  }

  /** A member with its encoded text, `key:value`. */
  datatype Entry = Entry(member: Member, text: string)

  function Texts(es: seq<Keyed<Entry>>): seq<string> {
    seq(|es|, i requires 0 <= i < |es| => es[i].value.text)
  }

  function Canonical(v: Json): Result<string>
    decreases v, 1
  {
    match v
    case Null => Success("null")
    case Bool(b) => Success(if b then "true" else "false")
    case Num(x) => CanonicalText(x)
    case Str(s) => CanonicalString(s)
    case Arr(items) =>
      var texts :- CanonicalItems(items);
      Success("[" + Join(",", texts) + "]")
    case Obj(members) =>
      if !DistinctNames(members) then Failure
      else
        var entries :- CanonicalMembers(members);
        Success("{" + Join(",", Texts(SortKeyed(entries))) + "}")
    case Foreign => Failure
  }

  function CanonicalItems(items: seq<Json>): Result<seq<string>>
    decreases items, 0
  {
    if items == [] then Success([])
    else
      var first :- Canonical(items[0]);
      var rest :- CanonicalItems(items[1..]);
      Success([first] + rest)
  }

  function CanonicalMembers(ms: seq<Member>): Result<seq<Keyed<Entry>>>
    decreases ms, 0
  {
    if ms == [] then Success([])
    else
      var keyBytes :- EncodeUtf8(ms[0].key);
      var name :- CanonicalString(ms[0].key);
      var child :- Canonical(ms[0].child);
      var rest :- CanonicalMembers(ms[1..]);
      Success([Keyed(keyBytes, Entry(ms[0], name + ":" + child))] + rest)
  }

  // ----- Sameness of JSON values

  /** Scalars by value, numbers numerically, arrays elementwise, objects as key maps. */
  ghost predicate Same(v: Json, w: Json)
    decreases v
  {
    match (v, w)
    case (Num(x), Num(y)) => SameNumber(x, y)
    case (Arr(xs), Arr(ys)) =>
      |xs| == |ys| && forall i :: 0 <= i < |xs| ==> Same(xs[i], ys[i])
    case (Obj(xs), Obj(ys)) =>
      && (forall i :: 0 <= i < |xs| ==> HasKey(ys, xs[i].key))
      && (forall j :: 0 <= j < |ys| ==> HasKey(xs, ys[j].key))
      && (forall i, j :: 0 <= i < |xs| && 0 <= j < |ys| && xs[i].key == ys[j].key ==> Same(xs[i].child, ys[j].child))
    case _ => v == w
  }

  ghost predicate HasKey(ms: seq<Member>, k: Text) {
    exists i :: 0 <= i < |ms| && ms[i].key == k
  }

  // ----- What the encoders of lists compute

  lemma {:induction false} ItemsPointwise(items: seq<Json>)
    ensures CanonicalItems(items).Success? <==> forall i :: 0 <= i < |items| ==> Canonical(items[i]).Success?
    ensures CanonicalItems(items).Success? ==> |CanonicalItems(items).value| == |items|
    ensures CanonicalItems(items).Success? ==>
              forall i :: 0 <= i < |items| ==> Canonical(items[i]) == Success(CanonicalItems(items).value[i])
  {
    if items != [] {
      ItemsPointwise(items[1..]);
      assert items == [items[0]] + items[1..];
      assert forall i :: 0 <= i < |items[1..]| ==> items[1..][i] == items[i + 1];
    }
  }

  /** `e` is what the encoder makes of the member `m`. */
  ghost predicate EntryOf(m: Member, e: Keyed<Entry>) {
    && EncodeUtf8(m.key) == Success(e.key)
    && e.value.member == m
    && CanonicalString(m.key).Success? && Canonical(m.child).Success?
    && e.value.text == CanonicalString(m.key).value + ":" + Canonical(m.child).value
  }

  ghost predicate Encodable(m: Member) {
    EncodeUtf8(m.key).Success? && Canonical(m.child).Success?
  }

  lemma {:induction false} MembersPointwise(ms: seq<Member>)
    ensures CanonicalMembers(ms).Success? <==> forall i :: 0 <= i < |ms| ==> Encodable(ms[i])
    ensures CanonicalMembers(ms).Success? ==> |CanonicalMembers(ms).value| == |ms|
    ensures CanonicalMembers(ms).Success? ==>
              forall i :: 0 <= i < |ms| ==> EntryOf(ms[i], CanonicalMembers(ms).value[i])
  {
    if ms != [] {
      EncodableIff(ms[0].key);
      MembersPointwise(ms[1..]);
      assert ms == [ms[0]] + ms[1..];
      assert forall i :: 0 <= i < |ms[1..]| ==> ms[1..][i] == ms[i + 1];
      hide Canonical, EncodeUtf8, CanonicalString;
    }
  }

  /** `e` encodes some member of `ms`. */
  ghost predicate FromMembers(ms: seq<Member>, e: Keyed<Entry>) {
    exists i :: 0 <= i < |ms| && EntryOf(ms[i], e)
  }

  ghost predicate HasEntry(r: seq<Keyed<Entry>>, m: Member) {
    exists k :: 0 <= k < |r| && r[k].value.member == m
  }

  /** The sorted entries of an object: each member once, by increasing key bytes. */
  ghost predicate EntriesOf(ms: seq<Member>, r: seq<Keyed<Entry>>) {
    && (forall k :: 0 <= k < |r| ==> FromMembers(ms, r[k]))
    && (forall i :: 0 <= i < |ms| ==> HasEntry(r, ms[i]))
    && Increasing(Keys(r))
  }

  lemma SortedEntries(ms: seq<Member>)
    requires DistinctNames(ms) && CanonicalMembers(ms).Success?
    ensures EntriesOf(ms, SortKeyed(CanonicalMembers(ms).value))
  {
    hide CanonicalMembers, Canonical, CanonicalString, EncodeUtf8, SortKeyed, Increasing, EntryOf;
    MembersPointwise(ms);
    var es := CanonicalMembers(ms).value;
    EntryKeysDistinct(ms, es);
    SortIncreasing(es);
    forall x { SortMembers(es, x); }
    PermutedEntries(ms, es, SortKeyed(es));
  }

  lemma PermutedEntries(ms: seq<Member>, es: seq<Keyed<Entry>>, r: seq<Keyed<Entry>>)
    requires |es| == |ms| && forall i :: 0 <= i < |ms| ==> EntryOf(ms[i], es[i])
    requires forall x :: x in r <==> x in es
    ensures forall k :: 0 <= k < |r| ==> FromMembers(ms, r[k])
    ensures forall i :: 0 <= i < |ms| ==> HasEntry(r, ms[i])
  {
    hide Canonical, CanonicalString, EncodeUtf8;
    forall k | 0 <= k < |r| ensures FromMembers(ms, r[k]) {
      assert r[k] in es;
      var i :| 0 <= i < |es| && es[i] == r[k];
      assert EntryOf(ms[i], r[k]);
    }
    forall i | 0 <= i < |ms| ensures HasEntry(r, ms[i]) {
      assert EntryOf(ms[i], es[i]) && es[i] in r;
    }
  }

  lemma EntryKeysDistinct(ms: seq<Member>, es: seq<Keyed<Entry>>)
    requires DistinctNames(ms) && |es| == |ms| && forall i :: 0 <= i < |ms| ==> EntryOf(ms[i], es[i])
    ensures DistinctKeys(es)
  {
    hide Canonical, CanonicalString, EncodeUtf8;
    forall i, j | 0 <= i < j < |es| ensures es[i].key != es[j].key {
      assert EntryOf(ms[i], es[i]) && EntryOf(ms[j], es[j]);
      if es[i].key == es[j].key {
        EncodeUtf8Injective(ms[i].key, ms[j].key);
      }
    }
  }

  // ----- Equal bytes come from the same value

  predicate Stops(u: string) {
    u == "" || u[0] == ',' || u[0] == ']' || u[0] == '}'
  }

  predicate HeadFits(v: Json, c: char) {
    match v
    case Null => c == 'n'
    case Bool(b) => c == if b then 't' else 'f'
    case Num(_) => NumberChar(c)
    case Str(_) => c == '"'
    case Arr(_) => c == '['
    case Obj(_) => c == '{'
    case Foreign => false
  }

  lemma HeadOf(v: Json)
    requires Canonical(v).Success?
    ensures Canonical(v).value != "" && HeadFits(v, Canonical(v).value[0])
  {
    match v
    case Num(x) => CanonicalTextChars(x);
    case _ =>
  }

  /** What follows the first part of a joined list and its closing bracket. */
  function AfterFirst(parts: seq<string>, close: string): string
    requires parts != []
  {
    if |parts| == 1 then close else "," + (Join(",", parts[1..]) + close)
  }

  lemma JoinFirst(parts: seq<string>, close: string)
    requires parts != []
    ensures Join(",", parts) + close == parts[0] + AfterFirst(parts, close)
  {
    if |parts| > 1 {
      assert Join(",", parts) == parts[0] + "," + Join(",", parts[1..]);
    }
  }

  lemma Bracketed(open: char, body: string, close: char, rest: string)
    ensures ([open] + body + [close] + rest)[1..] == body + ([close] + rest)
  {
  }

  /** An empty list is recognised by its closing bracket. */
  lemma EmptyJoin(pa: seq<string>, pb: seq<string>, c: char, u: string, t: string)
    requires pa == [] || (pa[0] != "" && pa[0][0] != c)
    requires pb == [] || (pb[0] != "" && pb[0][0] != c)
    requires Join(",", pa) + ([c] + u) == Join(",", pb) + ([c] + t)
    ensures pa == [] <==> pb == []
    ensures pa == [] ==> u == t
  {
    var whole := Join(",", pa) + ([c] + u);
    if pa != [] {
      JoinFirst(pa, [c] + u);
      assert whole[0] == pa[0][0];
    }
    if pb != [] {
      JoinFirst(pb, [c] + t);
      assert whole[0] == pb[0][0];
    }
    assert pa == [] ==> whole == [c] + u;
    assert pb == [] ==> whole == [c] + t;
    assert u == ([c] + u)[1..] && t == ([c] + t)[1..];
  }

  /** After the first part, a bracket ends the list and a comma continues it. */
  lemma AfterFirstUnique(pa: seq<string>, pb: seq<string>, c: char, u: string, t: string)
    requires pa != [] && pb != [] && c != ','
    requires AfterFirst(pa, [c] + u) == AfterFirst(pb, [c] + t)
    ensures |pa| == 1 <==> |pb| == 1
    ensures |pa| == 1 ==> u == t
    ensures |pa| > 1 ==> Join(",", pa[1..]) + ([c] + u) == Join(",", pb[1..]) + ([c] + t)
  {
    hide Join;
    var ra, rb := AfterFirst(pa, [c] + u), AfterFirst(pb, [c] + t);
    assert ra[0] == if |pa| == 1 then c else ',';
    assert rb[0] == if |pb| == 1 then c else ',';
    assert |pa| == 1 ==> u == ra[1..];
    assert |pb| == 1 ==> t == rb[1..];
    assert |pa| > 1 ==> Join(",", pa[1..]) + ([c] + u) == ra[1..];
    assert |pb| > 1 ==> Join(",", pb[1..]) + ([c] + t) == rb[1..];
  }

  lemma {:induction false} CanonicalPrefix(v: Json, w: Json, u: string, t: string)
    requires Canonical(v).Success? && Canonical(w).Success? && Stops(u) && Stops(t)
    requires Canonical(v).value + u == Canonical(w).value + t
    ensures Same(v, w) && u == t
    decreases v, 1
  {
    var a, b := Canonical(v).value, Canonical(w).value;
    HeadOf(v);
    HeadOf(w);
    assert (a + u)[0] == a[0] && (b + t)[0] == b[0];
    SameKind(v, w, a[0]);
    if v.Num? {
      CanonicalTextChars(v.x);
      CanonicalTextChars(w.x);
      SpanUnique(NumberChar, a, u, b, t);
      CanonicalTextIffSame(v.x, w.x);
    } else if v.Str? {
      CanonicalStringPrefix(v.s, w.s, u, t);
    } else if v.Arr? {
      var ta, tb := CanonicalItems(v.items).value, CanonicalItems(w.items).value;
      Bracketed('[', Join(",", ta), ']', u);
      Bracketed('[', Join(",", tb), ']', t);
      ItemsPrefix(v.items, w.items, u, t);
    } else if v.Obj? {
      ObjectPrefix(v, w, u, t);
    } else {
      assert v == w && a == b;
      assert u == (a + u)[|a|..] && t == (b + t)[|b|..];
    }
  }

  lemma SameKind(v: Json, w: Json, c: char)
    requires HeadFits(v, c) && HeadFits(w, c)
    ensures v.Num? <==> w.Num?
    ensures v.Str? <==> w.Str?
    ensures v.Arr? <==> w.Arr?
    ensures v.Obj? <==> w.Obj?
    ensures v.Num? || v.Str? || v.Arr? || v.Obj? || v == w
  {
  }

  lemma {:induction false} ItemsPrefix(xs: seq<Json>, ys: seq<Json>, u: string, t: string)
    requires CanonicalItems(xs).Success? && CanonicalItems(ys).Success?
    requires Join(",", CanonicalItems(xs).value) + ("]" + u) == Join(",", CanonicalItems(ys).value) + ("]" + t)
    ensures |xs| == |ys| && (forall i :: 0 <= i < |xs| ==> Same(xs[i], ys[i])) && u == t
    decreases xs, 0
  {
    hide Same;
    var ta, tb := CanonicalItems(xs).value, CanonicalItems(ys).value;
    ItemsHead(xs);
    ItemsHead(ys);
    EmptyJoin(ta, tb, ']', u, t);
    if xs != [] {
      var ra, rb := AfterFirst(ta, "]" + u), AfterFirst(tb, "]" + t);
      JoinFirst(ta, "]" + u);
      JoinFirst(tb, "]" + t);
      CanonicalPrefix(xs[0], ys[0], ra, rb);
      AfterFirstUnique(ta, tb, ']', u, t);
      if |xs| > 1 {
        assert ta[1..] == CanonicalItems(xs[1..]).value && tb[1..] == CanonicalItems(ys[1..]).value;
        ItemsPrefix(xs[1..], ys[1..], u, t);
        assert xs == [xs[0]] + xs[1..] && ys == [ys[0]] + ys[1..];
      }
    }
  }

  lemma ItemsHead(xs: seq<Json>)
    requires CanonicalItems(xs).Success?
    ensures var ts := CanonicalItems(xs).value;
            |ts| == |xs| && (xs != [] ==> ts[0] != "" && ts[0][0] != ']' && Canonical(xs[0]) == Success(ts[0]))
  {
    ItemsPointwise(xs);
    hide CanonicalItems, Canonical;
    if xs != [] {
      HeadOf(xs[0]);
    }
  }

  lemma {:induction false} ObjectPrefix(v: Json, w: Json, u: string, t: string)
    requires v.Obj? && w.Obj? && Canonical(v).Success? && Canonical(w).Success?
    requires Canonical(v).value + u == Canonical(w).value + t
    ensures Same(v, w) && u == t
    decreases v, 0
  {
    hide Canonical, CanonicalMembers, SortKeyed, Same, Aligned, EntriesOf, FromMembers, Join, Texts, DistinctNames;
    var r := ObjectEntries(v);
    var q := ObjectEntries(w);
    Bracketed('{', Join(",", Texts(r)), '}', u);
    Bracketed('{', Join(",", Texts(q)), '}', t);
    EntriesPrefix(v, w, r, q, u, t);
    AlignedEntriesSame(v, w, r, q);
  }

  lemma ObjectEntries(v: Json) returns (r: seq<Keyed<Entry>>)
    requires v.Obj? && Canonical(v).Success?
    ensures DistinctNames(v.members) && EntriesOf(v.members, r)
    ensures forall k :: 0 <= k < |r| ==> FromMembers(v.members, r[k])
    ensures Canonical(v).value == "{" + Join(",", Texts(r)) + "}"
    ensures CanonicalMembers(v.members).Success? && r == SortKeyed(CanonicalMembers(v.members).value)
  {
    hide CanonicalMembers, SortKeyed, CanonicalString, EncodeUtf8;
    r := SortKeyed(CanonicalMembers(v.members).value);
    SortedEntries(v.members);
  }

  /** The entries at one position have one key and the same value. */
  ghost predicate Aligned(r: seq<Keyed<Entry>>, q: seq<Keyed<Entry>>) {
    && |r| == |q|
    && forall k :: 0 <= k < |r| ==>
         && r[k].value.member.key == q[k].value.member.key
         && Same(r[k].value.member.child, q[k].value.member.child)
  }

  lemma {:induction false} EntriesPrefix(v: Json, w: Json, r: seq<Keyed<Entry>>, q: seq<Keyed<Entry>>, u: string, t: string)
    requires v.Obj? && w.Obj?
    requires forall k :: 0 <= k < |r| ==> FromMembers(v.members, r[k])
    requires forall k :: 0 <= k < |q| ==> FromMembers(w.members, q[k])
    requires Join(",", Texts(r)) + ("}" + u) == Join(",", Texts(q)) + ("}" + t)
    ensures Aligned(r, q) && u == t
    decreases v, 0, |r|
  {
    hide Canonical, CanonicalString, EncodeUtf8, Same, FromMembers, Join;
    var ta, tb := Texts(r), Texts(q);
    if r != [] { EntryHead(v.members, r[0]); }
    if q != [] { EntryHead(w.members, q[0]); }
    EmptyJoin(ta, tb, '}', u, t);
    if r != [] {
      var ra, rb := AfterFirst(ta, "}" + u), AfterFirst(tb, "}" + t);
      JoinFirst(ta, "}" + u);
      JoinFirst(tb, "}" + t);
      EntryPrefix(v, w, r[0], q[0], ra, rb);
      AfterFirstUnique(ta, tb, '}', u, t);
      if |r| > 1 {
        assert ta[1..] == Texts(r[1..]) && tb[1..] == Texts(q[1..]);
        EntriesPrefix(v, w, r[1..], q[1..], u, t);
        assert r == [r[0]] + r[1..] && q == [q[0]] + q[1..];
      }
    }
  }

  lemma EntryHead(ms: seq<Member>, e: Keyed<Entry>)
    requires FromMembers(ms, e)
    ensures e.value.text != "" && e.value.text[0] == '"'
  {
  }

  /** One `key:value` text, followed by a delimiter, parses in one way. */
  lemma {:induction false} EntryPrefix(v: Json, w: Json, e: Keyed<Entry>, f: Keyed<Entry>, u: string, t: string)
    requires v.Obj? && w.Obj? && FromMembers(v.members, e) && FromMembers(w.members, f)
    requires Stops(u) && Stops(t) && e.value.text + u == f.value.text + t
    ensures e.value.member.key == f.value.member.key && Same(e.value.member.child, f.value.member.child) && u == t
    decreases v, 0, 0
  {
    hide Canonical, CanonicalString, EncodeUtf8, Same;
    var i :| 0 <= i < |v.members| && EntryOf(v.members[i], e);
    var j :| 0 <= j < |w.members| && EntryOf(w.members[j], f);
    var m, n := v.members[i], w.members[j];
    var cm, cn := Canonical(m.child).value, Canonical(n.child).value;
    assert e.value.text + u == CanonicalString(m.key).value + (":" + (cm + u));
    assert f.value.text + t == CanonicalString(n.key).value + (":" + (cn + t));
    CanonicalStringPrefix(m.key, n.key, ":" + (cm + u), ":" + (cn + t));
    assert cm + u == (":" + (cm + u))[1..] && cn + t == (":" + (cn + t))[1..];
    CanonicalPrefix(m.child, n.child, u, t);
  }

  lemma AlignedEntriesSame(v: Json, w: Json, r: seq<Keyed<Entry>>, q: seq<Keyed<Entry>>)
    requires v.Obj? && w.Obj? && DistinctNames(v.members) && DistinctNames(w.members)
    requires EntriesOf(v.members, r) && EntriesOf(w.members, q) && Aligned(r, q)
    ensures Same(v, w)
  {
    hide Canonical, CanonicalString, EncodeUtf8, Increasing;
    var xs, ys := v.members, w.members;
    forall i | 0 <= i < |xs| ensures HasKey(ys, xs[i].key) {
      var j := AlignedMember(xs, ys, r, q, i);
    }
    forall j | 0 <= j < |ys| ensures HasKey(xs, ys[j].key) {
      assert HasEntry(q, ys[j]);
      var k :| 0 <= k < |q| && q[k].value.member == ys[j];
      assert FromMembers(xs, r[k]);
    }
    forall i, j | 0 <= i < |xs| && 0 <= j < |ys| && xs[i].key == ys[j].key ensures Same(xs[i].child, ys[j].child) {
      var j' := AlignedMember(xs, ys, r, q, i);
      assert j == j';
    }
  }

  lemma AlignedMember(xs: seq<Member>, ys: seq<Member>, r: seq<Keyed<Entry>>, q: seq<Keyed<Entry>>, i: nat) returns (j: nat)
    requires EntriesOf(xs, r) && EntriesOf(ys, q) && Aligned(r, q) && i < |xs|
    ensures j < |ys| && xs[i].key == ys[j].key && Same(xs[i].child, ys[j].child)
  {
    hide Canonical, CanonicalString, EncodeUtf8, Increasing, Same;
    assert HasEntry(r, xs[i]);
    var k :| 0 <= k < |r| && r[k].value.member == xs[i];
    assert FromMembers(ys, q[k]);
    j :| 0 <= j < |ys| && EntryOf(ys[j], q[k]);
  }

  // ----- The same value gives equal bytes

  lemma {:induction false} SameGivesEqual(v: Json, w: Json)
    requires Canonical(v).Success? && Canonical(w).Success? && Same(v, w)
    ensures Canonical(v) == Canonical(w)
    decreases v, 1
  {
    if v.Num? {
      CanonicalTextIffSame(v.x, w.x);
    } else if v.Arr? {
      var ta, tb := CanonicalItems(v.items).value, CanonicalItems(w.items).value;
      ItemsPointwise(v.items);
      ItemsPointwise(w.items);
      forall i | 0 <= i < |v.items| ensures ta[i] == tb[i] {
        SameGivesEqual(v.items[i], w.items[i]);
      }
      assert ta == tb;
    } else if v.Obj? {
      SameObjectsEqual(v, w);
    }
  }

  lemma {:induction false} SameObjectsEqual(v: Json, w: Json)
    requires v.Obj? && w.Obj? && Canonical(v).Success? && Canonical(w).Success? && Same(v, w)
    ensures Canonical(v) == Canonical(w)
    decreases v, 0
  {
    hide Canonical, CanonicalMembers, SortKeyed, Join, Increasing, EntriesOf, FromMembers;
    var r := ObjectEntries(v);
    var q := ObjectEntries(w);
    forall k ensures k in Keys(r) <==> k in Keys(q) {
      SameKeyBytes(v, w, r, q, k);
    }
    KeysIncrease(v.members, r);
    KeysIncrease(w.members, q);
    IncreasingUnique(Keys(r), Keys(q));
    assert |r| == |Keys(r)| == |q|;
    forall k | 0 <= k < |r| ensures r[k].value.text == q[k].value.text {
      assert r[k].key == Keys(r)[k] == q[k].key;
      SameEntryText(v, w, r[k], q[k]);
    }
    assert Texts(r) == Texts(q);
  }

  lemma KeysIncrease(ms: seq<Member>, r: seq<Keyed<Entry>>)
    requires EntriesOf(ms, r)
    ensures Increasing(Keys(r))
  {
  }

  lemma SameKeyBytes(v: Json, w: Json, r: seq<Keyed<Entry>>, q: seq<Keyed<Entry>>, k: string)
    requires v.Obj? && w.Obj? && Same(v, w) && EntriesOf(v.members, r) && EntriesOf(w.members, q)
    ensures k in Keys(r) <==> k in Keys(q)
  {
    hide Canonical, CanonicalString, EncodeUtf8, Increasing;
    if k in Keys(r) {
      KeyCarries(v.members, w.members, r, q, k);
    }
    if k in Keys(q) {
      KeyCarries(w.members, v.members, q, r, k);
    }
  }

  lemma KeyCarries(xs: seq<Member>, ys: seq<Member>, r: seq<Keyed<Entry>>, q: seq<Keyed<Entry>>, k: string)
    requires EntriesOf(xs, r) && EntriesOf(ys, q) && k in Keys(r)
    requires forall i :: 0 <= i < |xs| ==> HasKey(ys, xs[i].key)
    ensures k in Keys(q)
  {
    hide Canonical, CanonicalString, EncodeUtf8, Increasing, HasEntry;
    var a :| 0 <= a < |r| && Keys(r)[a] == k;
    assert FromMembers(xs, r[a]);
    var i :| 0 <= i < |xs| && EntryOf(xs[i], r[a]);
    var j :| 0 <= j < |ys| && ys[j].key == xs[i].key;
    hide EntriesOf, FromMembers;
    EntryKey(ys, q, j);
  }

  lemma EntryKey(ys: seq<Member>, q: seq<Keyed<Entry>>, j: nat)
    requires EntriesOf(ys, q) && j < |ys|
    ensures EncodeUtf8(ys[j].key).Success? && EncodeUtf8(ys[j].key).value in Keys(q)
  {
    hide Canonical, CanonicalString, EncodeUtf8, Increasing;
    assert HasEntry(q, ys[j]);
    var b :| 0 <= b < |q| && q[b].value.member == ys[j];
    assert FromMembers(ys, q[b]);
    assert Keys(q)[b] == q[b].key;
  }

  lemma {:induction false} SameEntryText(v: Json, w: Json, e: Keyed<Entry>, f: Keyed<Entry>)
    requires v.Obj? && w.Obj? && Same(v, w) && FromMembers(v.members, e) && FromMembers(w.members, f) && e.key == f.key
    ensures e.value.text == f.value.text
    decreases v, 0, 0
  {
    hide Canonical, CanonicalString, EncodeUtf8;
    var i :| 0 <= i < |v.members| && EntryOf(v.members[i], e);
    var j :| 0 <= j < |w.members| && EntryOf(w.members[j], f);
    EncodeUtf8Injective(v.members[i].key, w.members[j].key);
    SameGivesEqual(v.members[i].child, w.members[j].child);
  }

  /** Two accepted values have equal canonical bytes iff they are the same JSON value. */
  lemma CanonicalIffSame(v: Json, w: Json)
    requires Canonical(v).Success? && Canonical(w).Success?
    ensures Canonical(v) == Canonical(w) <==> Same(v, w)
  {
    hide Canonical, Same;
    if Canonical(v) == Canonical(w) {
      CanonicalPrefix(v, w, "", "");
    }
    if Same(v, w) {
      SameGivesEqual(v, w);
    }
  }

  // ----- Which values are accepted

  ghost predicate NoSurrogate(s: Text) {
    forall i :: 0 <= i < |s| ==> !IsSurrogate(s[i])
  }

  ghost predicate Accepted(v: Json) {
    match v
    case Num(x) => !x.NonFinite?
    case Str(s) => NoSurrogate(s)
    case Arr(items) => forall i :: 0 <= i < |items| ==> Accepted(items[i])
    case Obj(ms) =>
      DistinctNames(ms) && forall i :: 0 <= i < |ms| ==> NoSurrogate(ms[i].key) && Accepted(ms[i].child)
    case Foreign => false
    case _ => true
  }

  /** An exception is raised exactly for NaN, infinities, lone surrogates, duplicate keys and foreign values. */
  lemma {:induction false} AcceptedIff(v: Json)
    ensures Canonical(v).Success? <==> Accepted(v)
  {
    match v
    case Num(x) => CanonicalTextIffSame(x, x);
    case Str(s) => EncodableIff(s);
    case Arr(items) =>
      ItemsPointwise(items);
      forall i | 0 <= i < |items| { AcceptedIff(items[i]); }
    case Obj(ms) =>
      MembersPointwise(ms);
      forall i | 0 <= i < |ms| ensures Encodable(ms[i]) <==> NoSurrogate(ms[i].key) && Accepted(ms[i].child) {
        EncodableIff(ms[i].key);
        AcceptedIff(ms[i].child);
      }
    case _ =>
  }
}
