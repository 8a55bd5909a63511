/**
 `grouped_violations` and `ratchet_messages` of scripts/check_repo_monotone_gate.py over the buckets
 of canonical keys.
 */
module GateRatchet {
  import opened Bags
  import opened Collections
  import opened MonotoneGate
  import opened Ordering
  import opened Results

  // ----- Orders

  function KeyFields(k: Key): seq<string> {
    [k.path, k.surface, k.kind, k.token]
  }

  predicate KeyLess(a: Key, b: Key) {
    LexLt(KeyFields(a), KeyFields(b))
  }

  function Fields(v: Violation): seq<string> {
    [v.path, v.surface, v.kind, v.token]
  }

  predicate ViolationLess(a: Violation, b: Violation) {
    LexLt(Fields(a), Fields(b)) || (Fields(a) == Fields(b) && a.line < b.line)
  }

  lemma FieldsDetermine(a: Key, b: Key)
    requires KeyFields(a) == KeyFields(b)
    ensures a == b
  {
    assert KeyFields(a)[0] == KeyFields(b)[0] && KeyFields(a)[1] == KeyFields(b)[1];
    assert KeyFields(a)[2] == KeyFields(b)[2] && KeyFields(a)[3] == KeyFields(b)[3];
  }

  lemma KeyLessTotal()
    ensures TotalOrder(KeyLess)
  {
    hide LexLt;
    forall a ensures !KeyLess(a, a) { LexIrreflexive(KeyFields(a)); }
    forall a, b ensures a == b || KeyLess(a, b) || KeyLess(b, a) {
      LexTotal(KeyFields(a), KeyFields(b));
      if KeyFields(a) == KeyFields(b) { FieldsDetermine(a, b); }
    }
    forall a, b, c | KeyLess(a, b) && KeyLess(b, c) ensures KeyLess(a, c) {
      LexTrans(KeyFields(a), KeyFields(b), KeyFields(c));
    }
  }

  lemma ViolationLessTotal()
    ensures TotalOrder(ViolationLess)
  {
    hide LexLt;
    forall a ensures !ViolationLess(a, a) { LexIrreflexive(Fields(a)); }
    forall a, b ensures a == b || ViolationLess(a, b) || ViolationLess(b, a) {
      LexTotal(Fields(a), Fields(b));
      if Fields(a) == Fields(b) {
        FieldsDetermine(Key(a.path, a.surface, a.kind, a.token), Key(b.path, b.surface, b.kind, b.token));
      }
    }
    forall a, b, c | ViolationLess(a, b) && ViolationLess(b, c) ensures ViolationLess(a, c) {
      if LexLt(Fields(a), Fields(b)) && LexLt(Fields(b), Fields(c)) {
        LexTrans(Fields(a), Fields(b), Fields(c));
      }
    }
  }

  function SortedViolations(vs: seq<Violation>): (r: seq<Violation>)
    ensures multiset(r) == multiset(vs) && Ascends(r, ViolationLess)
  {
    ViolationLessTotal();
    SortedBag(multiset(vs), ViolationLess)
  }

  function SortedKeys(s: set<Key>): (r: seq<Key>)
    ensures multiset(r) == multiset(s) && Ascends(r, KeyLess)
  {
    KeyLessTotal();
    SortedBag(multiset(s), KeyLess)
  }

  // ----- Buckets

  function Bucket(vs: seq<Violation>, k: Key): seq<Violation> {
    if vs == [] then []
    else
      var n := |vs| - 1;
      Bucket(vs[..n], k) + (if CanonicalKey(vs[n]) == k then [vs[n]] else [])
  }

  function KeysOf(vs: seq<Violation>): set<Key> {
    set v | v in vs :: CanonicalKey(v)
  }

  type Groups = map<Key, seq<Violation>>

  function Grouped(vs: seq<Violation>): Groups {
    map k | k in KeysOf(vs) :: SortedViolations(Bucket(vs, k))
  }

  function Values(g: Groups, k: Key): seq<Violation> {
    if k in g then g[k] else []
  }

  lemma BucketSnoc(vs: seq<Violation>, i: nat, k: Key)
    requires i < |vs|
    ensures Bucket(vs[..i + 1], k) == Bucket(vs[..i], k) + (if CanonicalKey(vs[i]) == k then [vs[i]] else [])
  {
    assert vs[..i + 1][..i] == vs[..i];
  }

  lemma KeysSnoc(vs: seq<Violation>, i: nat)
    requires i < |vs|
    ensures KeysOf(vs[..i + 1]) == KeysOf(vs[..i]) + {CanonicalKey(vs[i])}
  {
    hide CanonicalKey;
    assert vs[..i + 1] == vs[..i] + [vs[i]];
    forall k ensures k in KeysOf(vs[..i + 1]) <==> k in KeysOf(vs[..i]) || k == CanonicalKey(vs[i]) {
      assert vs[i] in vs[..i + 1];
    }
  }

  lemma {:induction false} EmptyBucket(vs: seq<Violation>, k: Key)
    ensures Bucket(vs, k) == [] <==> k !in KeysOf(vs)
  {
    hide CanonicalKey;
    if vs != [] {
      var n := |vs| - 1;
      assert vs[..n + 1] == vs;
      KeysSnoc(vs, n);
      EmptyBucket(vs[..n], k);
    }
  }

  /** Lists grow per key, then every list is sorted. */
  method GroupedViolations(vs: seq<Violation>) returns (r: Groups)
    ensures r == Grouped(vs)
  {
    hide CanonicalKey, Bucket, KeysOf, SortedViolations;
    var grouped: Groups := map[];
    NoKeys();
    for i := 0 to |vs|
      invariant grouped.Keys == KeysOf(vs[..i])
      invariant forall k :: k in grouped ==> grouped[k] == Bucket(vs[..i], k)
    {
      var key := CanonicalKey(vs[i]);
      KeysSnoc(vs, i);
      EmptyBucket(vs[..i], key);
      forall k { BucketSnoc(vs, i, k); }
      grouped := grouped[key := Values(grouped, key) + [vs[i]]];
    }
    assert vs[..|vs|] == vs;
    r := map k | k in grouped.Keys :: SortedViolations(grouped[k]);
  }

  lemma NoKeys()
    ensures KeysOf([]) == {}
  {
  }

  // ----- Messages

  datatype Kind = Unclassified | Stale | GrowsAllowlist | GrowsDebt

  datatype Message = Message(kind: Kind, key: Key, entry: Violation, count: nat, allowance: nat)

  function OverKeys(kind: Kind, keys: seq<Key>, a: Groups, b: Groups): seq<Message> {
    if keys == [] then []
    else
      var n := |keys| - 1;
      var k := keys[n];
      OverKeys(kind, keys[..n], a, b)
      + (if |Values(a, k)| > |Values(b, k)|
         then [Message(kind, k, Values(a, k)[|Values(b, k)|], |Values(a, k)|, |Values(b, k)|)]
         else [])
  }

  /** One message for every bucket of `a` that is larger than the one of `b`, in key order. */
  function Over(kind: Kind, a: Groups, b: Groups): seq<Message> {
    OverKeys(kind, SortedKeys(a.Keys), a, b)
  }

  function Messages(current: seq<Violation>, allowlist: seq<Violation>, baseline: Option<seq<Violation>>): seq<Message> {
    var c, a := Grouped(current), Grouped(allowlist);
    Over(Unclassified, c, a) + Over(Stale, a, c)
    + (match baseline
       case None => []
       case Some(dev) => Over(GrowsAllowlist, a, Grouped(dev)) + Over(GrowsDebt, c, Grouped(dev)))
  }

  method Report(kind: Kind, a: Groups, b: Groups) returns (r: seq<Message>)
    ensures r == Over(kind, a, b)
  {
    hide SortedKeys;
    r := [];
    var keys := SortedKeys(a.Keys);
    for i := 0 to |keys|
      invariant r == OverKeys(kind, keys[..i], a, b)
    {
      assert keys[..i + 1][..i] == keys[..i];
      var values, allowed := Values(a, keys[i]), |Values(b, keys[i])|;
      if |values| > allowed {
        r := r + [Message(kind, keys[i], values[allowed], |values|, allowed)];
      }
    }
    assert keys[..|keys|] == keys;
  }

  method RatchetMessages(current: seq<Violation>, allowlist: seq<Violation>, baseline: Option<seq<Violation>>) returns (messages: seq<Message>)
    ensures messages == Messages(current, allowlist, baseline)
  {
    hide Grouped, Over;
    var c := GroupedViolations(current);
    var a := GroupedViolations(allowlist);
    var novel := Report(Unclassified, c, a);
    var stale := Report(Stale, a, c);
    messages := novel + stale;
    if baseline.Some? {
      var dev := GroupedViolations(baseline.value);
      var allowed := Report(GrowsAllowlist, a, dev);
      var debt := Report(GrowsDebt, c, dev);
      messages := messages + (allowed + debt);
    }
  }

  // ----- What the messages say

  /** How many violations fall into the bucket. */
  ghost function Debt(vs: seq<Violation>, k: Key): nat {
    multiset(Contents(vs, CanonicalKey))[k]
  }

  lemma {:induction false} BucketCounts(vs: seq<Violation>, k: Key)
    ensures |Bucket(vs, k)| == Debt(vs, k)
  {
    hide CanonicalKey;
    if vs != [] {
      var n := |vs| - 1;
      assert vs == vs[..n] + [vs[n]];
      ContentsSnoc(vs[..n], vs[n], CanonicalKey);
      BucketCounts(vs[..n], k);
    }
  }

  lemma ValuesCount(vs: seq<Violation>, k: Key)
    ensures |Values(Grouped(vs), k)| == Debt(vs, k)
    ensures k in Grouped(vs) <==> Debt(vs, k) > 0
  {
    hide CanonicalKey, Debt, Bucket, KeysOf;
    BucketCounts(vs, k);
    EmptyBucket(vs, k);
    var b := Bucket(vs, k);
    assert |multiset(SortedViolations(b))| == |SortedViolations(b)| && |multiset(b)| == |b|;
  }

  /** The message a larger bucket gets: it names the entry just past the allowance in sorted order. */
  ghost function Expected(kind: Kind, a: seq<Violation>, b: seq<Violation>, k: Key): Message
    requires Debt(a, k) > Debt(b, k)
  {
    BucketCounts(a, k);
    var sorted := SortedViolations(Bucket(a, k));
    assert |multiset(sorted)| == |sorted|;
    Message(kind, k, sorted[Debt(b, k)], Debt(a, k), Debt(b, k))
  }

  lemma {:induction false} OverKeysMembers(kind: Kind, keys: seq<Key>, a: Groups, b: Groups, m: Message)
    ensures m in OverKeys(kind, keys, a, b) <==>
            && m.key in keys && |Values(a, m.key)| > |Values(b, m.key)|
            && m == Message(kind, m.key, Values(a, m.key)[|Values(b, m.key)|], |Values(a, m.key)|, |Values(b, m.key)|)
  {
    if keys != [] {
      var n := |keys| - 1;
      assert keys == keys[..n] + [keys[n]];
      OverKeysMembers(kind, keys[..n], a, b, m);
    }
  }

  /** Exactly the buckets in which `a` outnumbers `b` are reported, with their expected message. */
  lemma OverExactly(kind: Kind, a: seq<Violation>, b: seq<Violation>, m: Message)
    ensures m in Over(kind, Grouped(a), Grouped(b)) <==> Debt(a, m.key) > Debt(b, m.key) && m == Expected(kind, a, b, m.key)
  {
    hide CanonicalKey, Debt, Bucket, KeysOf, OverKeys, SortedViolations, SortedKeys;
    var ga, gb := Grouped(a), Grouped(b);
    ValuesCount(a, m.key);
    ValuesCount(b, m.key);
    OverKeysMembers(kind, SortedKeys(ga.Keys), ga, gb, m);
    ListingIsDistinct(SortedKeys(ga.Keys), ga.Keys);
    assert m.key in SortedKeys(ga.Keys) <==> m.key in Elems(SortedKeys(ga.Keys));
  }

  function MessageKeys(ms: seq<Message>): (r: seq<Key>)
    ensures |r| == |ms|
  {
    seq(|ms|, i requires 0 <= i < |ms| => ms[i].key)
  }

  lemma {:induction false} OverKeysDistinct(kind: Kind, keys: seq<Key>, a: Groups, b: Groups)
    requires Distinct(keys)
    ensures Distinct(MessageKeys(OverKeys(kind, keys, a, b)))
  {
    if keys != [] {
      var n := |keys| - 1;
      OverKeysDistinct(kind, keys[..n], a, b);
      var early := OverKeys(kind, keys[..n], a, b);
      forall i | 0 <= i < |early| ensures early[i].key in keys[..n] {
        OverKeysMembers(kind, keys[..n], a, b, early[i]);
      }
      assert keys[n] !in keys[..n];
      DistinctSnoc(early, keys[n], OverKeys(kind, keys, a, b));
    }
  }

  lemma DistinctSnoc(early: seq<Message>, k: Key, all: seq<Message>)
    requires Distinct(MessageKeys(early)) && forall i :: 0 <= i < |early| ==> early[i].key != k
    requires all == early || (|all| == |early| + 1 && all[..|early|] == early && all[|early|].key == k)
    ensures Distinct(MessageKeys(all))
  {
    var keys := MessageKeys(all);
    forall i, j | 0 <= i < j < |all| ensures keys[i] != keys[j] {
      assert all[i] == early[i] && MessageKeys(early)[i] == early[i].key;
      if j < |early| {
        assert all[j] == all[..|early|][j] && MessageKeys(early)[j] == early[j].key;
      }
    }
  }

  /** No bucket is reported twice. */
  lemma OverOnce(kind: Kind, a: Groups, b: Groups)
    ensures Distinct(MessageKeys(Over(kind, a, b)))
  {
    ListingIsDistinct(SortedKeys(a.Keys), a.Keys);
    OverKeysDistinct(kind, SortedKeys(a.Keys), a, b);
  }

  ghost predicate Within(a: seq<Violation>, b: seq<Violation>) {
    forall k :: Debt(a, k) <= Debt(b, k)
  }

  lemma NothingOverIff(kind: Kind, a: seq<Violation>, b: seq<Violation>)
    ensures Over(kind, Grouped(a), Grouped(b)) == [] <==> Within(a, b)
  {
    hide Over, Grouped, Debt;
    var r := Over(kind, Grouped(a), Grouped(b));
    if r == [] {
      forall k ensures Debt(a, k) <= Debt(b, k) {
        if Debt(a, k) > Debt(b, k) {
          OverExactly(kind, a, b, Expected(kind, a, b, k));
        }
      }
    } else {
      OverExactly(kind, a, b, r[0]);
    }
  }

  /** With a base, the ratchet is silent exactly when current = allowlist <= base in every bucket. */
  lemma SilentIff(current: seq<Violation>, allowlist: seq<Violation>, dev: seq<Violation>)
    ensures Messages(current, allowlist, Some(dev)) == [] <==>
            (forall k :: Debt(current, k) == Debt(allowlist, k) <= Debt(dev, k))
  {
    hide Over, Grouped, Debt;
    NothingOverIff(Unclassified, current, allowlist);
    NothingOverIff(Stale, allowlist, current);
    NothingOverIff(GrowsAllowlist, allowlist, dev);
    NothingOverIff(GrowsDebt, current, dev);
  }

  /** The messages of the four comparisons, each with what it compares. */
  lemma MessageIff(current: seq<Violation>, allowlist: seq<Violation>, dev: Option<seq<Violation>>, m: Message)
    ensures m in Messages(current, allowlist, dev) <==>
            match m.kind
            case Unclassified => Debt(current, m.key) > Debt(allowlist, m.key) && m == Expected(Unclassified, current, allowlist, m.key)
            case Stale => Debt(allowlist, m.key) > Debt(current, m.key) && m == Expected(Stale, allowlist, current, m.key)
            case GrowsAllowlist =>
              dev.Some? && Debt(allowlist, m.key) > Debt(dev.value, m.key) && m == Expected(GrowsAllowlist, allowlist, dev.value, m.key)
            case GrowsDebt =>
              dev.Some? && Debt(current, m.key) > Debt(dev.value, m.key) && m == Expected(GrowsDebt, current, dev.value, m.key)
  {
    hide Over, Grouped, Debt;
    OverExactly(Unclassified, current, allowlist, m);
    OverExactly(Stale, allowlist, current, m);
    if dev.Some? {
      OverExactly(GrowsAllowlist, allowlist, dev.value, m);
      OverExactly(GrowsDebt, current, dev.value, m);
    }
  }

  ghost function Place(kind: Kind): nat {
    match kind
    case Unclassified => 0
    case Stale => 1
    case GrowsAllowlist => 2
    case GrowsDebt => 3
  }

  ghost predicate KeysIncrease(ms: seq<Message>) {
    forall i, j :: 0 <= i < j < |ms| ==> KeyLess(ms[i].key, ms[j].key)
  }

  lemma {:induction false} OverKeysIncrease(kind: Kind, keys: seq<Key>, a: Groups, b: Groups)
    requires forall i, j :: 0 <= i < j < |keys| ==> KeyLess(keys[i], keys[j])
    ensures KeysIncrease(OverKeys(kind, keys, a, b))
    ensures forall m :: m in OverKeys(kind, keys, a, b) ==> m.kind == kind
  {
    hide KeyLess;
    if keys != [] {
      var n := |keys| - 1;
      OverKeysIncrease(kind, keys[..n], a, b);
      var early := OverKeys(kind, keys[..n], a, b);
      forall i | 0 <= i < |early| ensures KeyLess(early[i].key, keys[n]) {
        OverKeysMembers(kind, keys[..n], a, b, early[i]);
      }
    }
  }

  lemma OverIncreases(kind: Kind, a: Groups, b: Groups)
    ensures KeysIncrease(Over(kind, a, b)) && forall m :: m in Over(kind, a, b) ==> m.kind == kind
  {
    hide KeyLess, OverKeys, SortedKeys;
    var keys := SortedKeys(a.Keys);
    ListingIsDistinct(keys, a.Keys);
    KeyLessTotal();
    OverKeysIncrease(kind, keys, a, b);
  }

  ghost predicate Before(m: Message, n: Message) {
    Place(m.kind) < Place(n.kind) || (m.kind == n.kind && KeyLess(m.key, n.key))
  }

  ghost predicate InOrder(ms: seq<Message>) {
    forall i, j :: 0 <= i < j < |ms| ==> Before(ms[i], ms[j])
  }

  ghost predicate Kinds(ms: seq<Message>, first: nat, last: nat) {
    forall i :: 0 <= i < |ms| ==> first <= Place(ms[i].kind) <= last
  }

  lemma Joined(a: seq<Message>, b: seq<Message>, first: nat, middle: nat, last: nat)
    requires InOrder(a) && InOrder(b) && Kinds(a, first, middle) && Kinds(b, middle + 1, last) && first <= middle < last
    ensures InOrder(a + b) && Kinds(a + b, first, last)
  {
    hide KeyLess;
  }

  lemma OverInOrder(kind: Kind, a: Groups, b: Groups)
    ensures InOrder(Over(kind, a, b)) && Kinds(Over(kind, a, b), Place(kind), Place(kind))
  {
    OverIncreases(kind, a, b);
    hide Over, KeyLess;
    var ms := Over(kind, a, b);
    assert forall i :: 0 <= i < |ms| ==> ms[i] in ms;
  }

  /** The four comparisons come one after the other, each in increasing order of the keys. */
  lemma MessagesInOrder(current: seq<Violation>, allowlist: seq<Violation>, dev: Option<seq<Violation>>)
    ensures InOrder(Messages(current, allowlist, dev))
  {
    hide Over, Grouped, InOrder, Kinds;
    var c, a := Grouped(current), Grouped(allowlist);
    OverInOrder(Unclassified, c, a);
    OverInOrder(Stale, a, c);
    var early := Over(Unclassified, c, a) + Over(Stale, a, c);
    Joined(Over(Unclassified, c, a), Over(Stale, a, c), 0, 0, 1);
    if dev.Some? {
      var d := Grouped(dev.value);
      OverInOrder(GrowsAllowlist, a, d);
      OverInOrder(GrowsDebt, c, d);
      Joined(Over(GrowsAllowlist, a, d), Over(GrowsDebt, c, d), 2, 2, 3);
      Joined(early, Over(GrowsAllowlist, a, d) + Over(GrowsDebt, c, d), 0, 1, 3);
    } else {
      assert early + [] == early;
    }
  }

  /** A bucket holds every violation of its key, as often as it occurs, and no other. */
  lemma {:induction false} BucketIs(vs: seq<Violation>, k: Key, v: Violation)
    ensures multiset(Bucket(vs, k))[v] == if CanonicalKey(v) == k then multiset(vs)[v] else 0
  {
    hide CanonicalKey;
    if vs != [] {
      var n := |vs| - 1;
      assert vs == vs[..n] + [vs[n]];
      BucketIs(vs[..n], k, v);
    }
  }

  datatype Change = Change(current: seq<Violation>, allowlist: seq<Violation>)

  /** The allowlist a change is measured against. */
  ghost function Baseline(dev: seq<Violation>, history: seq<Change>, i: nat): seq<Violation>
    requires i < |history|
  {
    if i == 0 then dev else history[i - 1].allowlist
  }

  ghost predicate Accepted(dev: seq<Violation>, history: seq<Change>) {
    forall i: nat :: i < |history| ==>
      Messages(history[i].current, history[i].allowlist, Some(Baseline(dev, history, i))) == []
  }

  /** Along accepted changes no bucket outgrows the first base. */
  lemma {:induction false} DebtNeverGrows(dev: seq<Violation>, history: seq<Change>, i: nat)
    requires Accepted(dev, history) && i < |history|
    ensures Within(history[i].current, dev) && Within(history[i].allowlist, dev)
  {
    hide Messages, Debt;
    SilentIff(history[i].current, history[i].allowlist, Baseline(dev, history, i));
    if i > 0 {
      DebtNeverGrows(dev, history, i - 1);
    }
  }
}
