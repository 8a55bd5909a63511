/**
 The content-keyed coverage ratchet of scripts/check_repo_coverage.py. Uncovered lines and allowlist
 entries are compared by file and line hash, with counts, so that line numbers do not matter.
 */
module CoverageRatchet {
  import opened Bags
  import opened Collections
  import opened Ordering
  import opened Results

  datatype CoverageKey = CoverageKey(file: string, line: int, hash: string)

  datatype UncoveredLine = UncoveredLine(key: CoverageKey, text: string)

  datatype Content = Content(file: string, hash: string)

  function ContentKey(k: CoverageKey): Content {
    Content(k.file, k.hash)
  }

  /** Entries have one content exactly if file and hash agree, whatever their lines. */
  lemma SameContentIff(a: CoverageKey, b: CoverageKey)
    ensures ContentKey(a) == ContentKey(b) <==> a.file == b.file && a.hash == b.hash
  {
  }

  datatype Message =
    | NotAllowed(line: UncoveredLine)
    | Grows(entry: CoverageKey)
    | Stale(entry: CoverageKey)

  // ----- The order of keys

  predicate KeyLess(a: CoverageKey, b: CoverageKey) {
    Lt(a.file, b.file) || (a.file == b.file && (a.line < b.line || (a.line == b.line && Lt(a.hash, b.hash))))
  }

  lemma KeyLessTotal()
    ensures TotalOrder(KeyLess)
  {
    hide Lt;
    forall a ensures !KeyLess(a, a) {
      LtIrreflexive(a.file);
      LtIrreflexive(a.hash);
    }
    forall a, b ensures a == b || KeyLess(a, b) || KeyLess(b, a) {
      LtTotal(a.file, b.file);
      LtTotal(a.hash, b.hash);
    }
    forall a, b, c | KeyLess(a, b) && KeyLess(b, c) ensures KeyLess(a, c) {
      if Lt(a.file, b.file) && Lt(b.file, c.file) { LtTrans(a.file, b.file, c.file); }
      if Lt(a.hash, b.hash) && Lt(b.hash, c.hash) { LtTrans(a.hash, b.hash, c.hash); }
    }
  }

  /** `sorted` of a set of keys. */
  function SortedKeys(s: set<CoverageKey>): (r: seq<CoverageKey>)
    ensures multiset(r) == multiset(s) && Ascends(r, KeyLess)
  {
    KeyLessTotal();
    SortedBag(multiset(s), KeyLess)
  }

  /** `Counter(content_key(k) for k in s)` */
  function Counts(s: set<CoverageKey>): multiset<Content> {
    multiset(Contents(SortedKeys(s), ContentKey))
  }

  /** The entries of `s` beyond the allowance given by `allowed`. */
  function Reported(s: set<CoverageKey>, allowed: set<CoverageKey>): seq<CoverageKey> {
    Excess(SortedKeys(s), ContentKey, Counts(allowed))
  }

  // ----- The two checks

  function NotAllowedOf(keys: seq<CoverageKey>, uncovered: map<CoverageKey, UncoveredLine>): (r: seq<Message>)
    requires forall k :: k in keys ==> k in uncovered
    ensures |r| == |keys|
  {
    seq(|keys|, i requires 0 <= i < |keys| => NotAllowed(uncovered[keys[i]]))
  }

  function GrowsOf(keys: seq<CoverageKey>): (r: seq<Message>)
    ensures |r| == |keys|
  {
    seq(|keys|, i requires 0 <= i < |keys| => Grows(keys[i]))
  }

  function StaleOf(keys: seq<CoverageKey>): (r: seq<Message>)
    ensures |r| == |keys|
  {
    seq(|keys|, i requires 0 <= i < |keys| => Stale(keys[i]))
  }

  lemma ReportedFrom(s: set<CoverageKey>, allowed: set<CoverageKey>)
    ensures forall k :: k in Reported(s, allowed) ==> k in s
  {
    ExcessWithin(SortedKeys(s), ContentKey, Counts(allowed));
    ListingIsDistinct(SortedKeys(s), s);
    assert forall k :: k in SortedKeys(s) ==> k in Elems(SortedKeys(s));
  }

  /** Both comparisons, in order. */
  function Messages(uncovered: map<CoverageKey, UncoveredLine>, allowlist: set<CoverageKey>, baseline: Option<set<CoverageKey>>): seq<Message> {
    ReportedFrom(uncovered.Keys, allowlist);
    NotAllowedOf(Reported(uncovered.Keys, allowlist), uncovered)
    + (if baseline.None? then [] else GrowsOf(Reported(allowlist, baseline.value)))
  }

  method RatchetMessages(uncovered: map<CoverageKey, UncoveredLine>, allowlist: set<CoverageKey>, baseline: Option<set<CoverageKey>>)
    returns (messages: seq<Message>)
    ensures messages == Messages(uncovered, allowlist, baseline)
  {
    ReportedFrom(uncovered.Keys, allowlist);
    var novel := FindExcess(SortedKeys(uncovered.Keys), ContentKey, Counts(allowlist));
    messages := NotAllowedOf(novel, uncovered);
    if baseline.Some? {
      var grown := FindExcess(SortedKeys(allowlist), ContentKey, Counts(baseline.value));
      messages := messages + GrowsOf(grown);
    }
  }

  method StaleAllowlistMessages(uncovered: map<CoverageKey, UncoveredLine>, allowlist: set<CoverageKey>) returns (messages: seq<Message>)
    ensures messages == StaleOf(Reported(allowlist, uncovered.Keys))
  {
    var stale := FindExcess(SortedKeys(allowlist), ContentKey, Counts(uncovered.Keys));
    messages := StaleOf(stale);
  }

  // ----- What is counted

  ghost function Sharing(s: set<CoverageKey>, c: Content): set<CoverageKey> {
    set k | k in s && ContentKey(k) == c
  }

  /** How many entries of the set have the content. */
  ghost function Debt(s: set<CoverageKey>, c: Content): nat {
    |Sharing(s, c)|
  }

  lemma SharingGrows(s: set<CoverageKey>, k: CoverageKey, c: Content)
    requires k !in s
    ensures Debt(s + {k}, c) == Debt(s, c) + if ContentKey(k) == c then 1 else 0
  {
    assert Sharing(s + {k}, c) == if ContentKey(k) == c then Sharing(s, c) + {k} else Sharing(s, c);
  }

  /** Counting a duplicate-free listing counts the elements of its set. */
  lemma {:induction false} ListingCounts(keys: seq<CoverageKey>, c: Content)
    requires Distinct(keys)
    ensures multiset(Contents(keys, ContentKey))[c] == Debt(Elems(keys), c)
  {
    if keys == [] {
      assert Sharing(Elems(keys), c) == {};
    } else {
      var n := |keys| - 1;
      var init, last := keys[..n], keys[n];
      ListingCounts(init, c);
      assert keys == init + [last];
      ContentsSnoc(init, last, ContentKey);
      assert Elems(keys) == Elems(init) + {last};
      hide Debt, Contents;
      SharingGrows(Elems(init), last, c);
    }
  }

  lemma CountsAreDebts(s: set<CoverageKey>, c: Content)
    ensures Counts(s)[c] == Debt(s, c)
  {
    hide Debt, Contents;
    ListingIsDistinct(SortedKeys(s), s);
    ListingCounts(SortedKeys(s), c);
  }

  function Excessive(debt: nat, allowance: nat): nat {
    if debt > allowance then debt - allowance else 0
  }

  /** Per content, the number of reported entries is the debt beyond the allowance. */
  lemma ReportedCounts(s: set<CoverageKey>, allowed: set<CoverageKey>, c: Content)
    ensures multiset(Contents(Reported(s, allowed), ContentKey))[c] == Excessive(Debt(s, c), Debt(allowed, c))
  {
    ExcessIsDifference(SortedKeys(s), ContentKey, Counts(allowed));
    CountsAreDebts(s, c);
    CountsAreDebts(allowed, c);
  }

  ghost function UpTo(s: set<CoverageKey>, k: CoverageKey): set<CoverageKey> {
    set j | j in s && !KeyLess(k, j)
  }

  /** An entry is reported when the entries of its content up to and including it outnumber the allowance. */
  lemma ReportedExactly(s: set<CoverageKey>, allowed: set<CoverageKey>, k: CoverageKey)
    ensures k in Reported(s, allowed) <==>
            k in s && Debt(UpTo(s, k), ContentKey(k)) > Debt(allowed, ContentKey(k))
  {
    hide KeyLess, Debt, UpTo, Contents;
    var keys := SortedKeys(s);
    ListingIsDistinct(keys, s);
    CountsAreDebts(allowed, ContentKey(k));
    ExcessWithin(keys, ContentKey, Counts(allowed));
    assert k in s <==> k in Elems(keys);
    hide Excess, Counts, SortedKeys;
    if k in s {
      var i: nat :| i < |keys| && keys[i] == k;
      ExcessAt(keys, ContentKey, Counts(allowed), i);
      PrefixIsUpTo(keys, i);
      ListingCounts(keys[..i + 1], ContentKey(k));
    }
  }

  /** In a sorted duplicate-free listing, a prefix holds the entries not above its last one. */
  lemma PrefixIsUpTo(keys: seq<CoverageKey>, i: nat)
    requires Distinct(keys) && Ascends(keys, KeyLess) && i < |keys|
    ensures Distinct(keys[..i + 1]) && Elems(keys[..i + 1]) == UpTo(Elems(keys), keys[i])
  {
    hide KeyLess;
    KeyLessTotal();
    forall m | 0 <= m < |keys| ensures m <= i <==> !KeyLess(keys[i], keys[m]) {
    }
    hide TotalOrder, Ascends;
    forall j ensures j in keys[..i + 1] <==> j in keys && !KeyLess(keys[i], j) {
      if j in keys {
        var m :| 0 <= m < |keys| && keys[m] == j;
        assert m <= i ==> keys[..i + 1][m] == j;
        assert j in keys[..i + 1] ==> exists n :: 0 <= n < i + 1 && keys[n] == j;
      }
    }
  }

  /** The entries of one content up to and including `k` outnumber the allowance. */
  ghost predicate Exceeding(s: set<CoverageKey>, allowed: set<CoverageKey>, k: CoverageKey) {
    k in s && Debt(UpTo(s, k), ContentKey(k)) > Debt(allowed, ContentKey(k))
  }

  /** Uncovered lines beyond the allowlist, allowlist entries beyond a base, and stale ones beyond the uncovered lines. */
  lemma MessageIff(uncovered: map<CoverageKey, UncoveredLine>, allowlist: set<CoverageKey>, baseline: Option<set<CoverageKey>>, m: Message)
    ensures m in Messages(uncovered, allowlist, baseline) <==>
            match m
            case NotAllowed(line) => exists k :: k in uncovered && uncovered[k] == line && Exceeding(uncovered.Keys, allowlist, k)
            case Grows(entry) => baseline.Some? && Exceeding(allowlist, baseline.value, entry)
            case Stale(_) => false
    ensures m in StaleOf(Reported(allowlist, uncovered.Keys)) <==> m.Stale? && Exceeding(allowlist, uncovered.Keys, m.entry)
  {
    ReportedFrom(uncovered.Keys, allowlist);
    var novel := Reported(uncovered.Keys, allowlist);
    InNotAllowed(novel, uncovered, m);
    InGrows(if baseline.Some? then Reported(allowlist, baseline.value) else [], m);
    InStale(Reported(allowlist, uncovered.Keys), m);
    forall k ensures k in novel <==> Exceeding(uncovered.Keys, allowlist, k) {
      ReportedExactly(uncovered.Keys, allowlist, k);
    }
    if m.Grows? && baseline.Some? {
      ReportedExactly(allowlist, baseline.value, m.entry);
    }
    if m.Stale? {
      ReportedExactly(allowlist, uncovered.Keys, m.entry);
    }
    hide Reported, Debt, UpTo, NotAllowedOf, GrowsOf, StaleOf;
  }

  lemma ReportedIncreases(s: set<CoverageKey>, allowed: set<CoverageKey>)
    ensures Increases(Reported(s, allowed), KeyLess)
  {
    hide Excess, SortedKeys, Counts, Lt;
    var keys := SortedKeys(s);
    ListingIsDistinct(keys, s);
    KeyLessTotal();
    AscendsIncreases(keys, KeyLess);
    ExcessIncreases(keys, ContentKey, Counts(allowed), KeyLess);
  }

  /** Uncovered lines come before growing entries, and both in the order of their keys. */
  lemma MessagesInOrder(uncovered: map<CoverageKey, UncoveredLine>, allowlist: set<CoverageKey>, baseline: Option<set<CoverageKey>>)
    requires forall k :: k in uncovered ==> uncovered[k].key == k
    ensures var ms := Messages(uncovered, allowlist, baseline);
            forall i, j :: 0 <= i < j < |ms| ==>
              || (ms[i].NotAllowed? && ms[j].NotAllowed? && KeyLess(ms[i].line.key, ms[j].line.key))
              || (ms[i].NotAllowed? && ms[j].Grows?)
              || (ms[i].Grows? && ms[j].Grows? && KeyLess(ms[i].entry, ms[j].entry))
  {
    hide KeyLess, Reported;
    ReportedFrom(uncovered.Keys, allowlist);
    ReportedIncreases(uncovered.Keys, allowlist);
    if baseline.Some? {
      ReportedIncreases(allowlist, baseline.value);
    }
  }

  lemma InNotAllowed(keys: seq<CoverageKey>, uncovered: map<CoverageKey, UncoveredLine>, m: Message)
    requires forall k :: k in keys ==> k in uncovered
    ensures m in NotAllowedOf(keys, uncovered) <==> m.NotAllowed? && exists k :: k in keys && uncovered[k] == m.line
  {
    var r := NotAllowedOf(keys, uncovered);
    if m.NotAllowed? && exists k :: k in keys && uncovered[k] == m.line {
      var k :| k in keys && uncovered[k] == m.line;
      var i :| 0 <= i < |keys| && keys[i] == k;
      assert r[i] == m;
    }
  }

  lemma InGrows(keys: seq<CoverageKey>, m: Message)
    ensures m in GrowsOf(keys) <==> m.Grows? && m.entry in keys
  {
    if m.Grows? && m.entry in keys {
      var i :| 0 <= i < |keys| && keys[i] == m.entry;
      assert GrowsOf(keys)[i] == m;
    }
  }

  lemma InStale(keys: seq<CoverageKey>, m: Message)
    ensures m in StaleOf(keys) <==> m.Stale? && m.entry in keys
  {
    if m.Stale? && m.entry in keys {
      var i :| 0 <= i < |keys| && keys[i] == m.entry;
      assert StaleOf(keys)[i] == m;
    }
  }

  // ----- Line numbers do not matter

  /** The same lines at new positions. */
  ghost predicate Renumbering(s: set<CoverageKey>, t: set<CoverageKey>, move: map<CoverageKey, CoverageKey>) {
    && move.Keys == s && move.Values == t
    && (forall a, b :: a in s && b in s && move[a] == move[b] ==> a == b)
    && (forall a :: a in s ==> ContentKey(move[a]) == ContentKey(a))
  }

  lemma {:induction false} InjectionKeepsSize(s: set<CoverageKey>, t: set<CoverageKey>, move: map<CoverageKey, CoverageKey>)
    requires s <= move.Keys && forall a, b :: a in s && b in s && move[a] == move[b] ==> a == b
    requires t == set a | a in s :: move[a]
    ensures |t| == |s|
    decreases |s|
  {
    if s != {} {
      var a :| a in s;
      var t' := set b | b in s - {a} :: move[b];
      InjectionKeepsSize(s - {a}, t', move);
      assert t == t' + {move[a]};
    }
  }

  lemma RenumberingKeepsDebt(s: set<CoverageKey>, t: set<CoverageKey>, move: map<CoverageKey, CoverageKey>, c: Content)
    requires Renumbering(s, t, move)
    ensures Debt(t, c) == Debt(s, c)
  {
    var s', t' := Sharing(s, c), Sharing(t, c);
    assert t' == set a | a in s' :: move[a];
    InjectionKeepsSize(s', t', move);
  }

  /** Moving lines changes neither how many entries are reported nor their contents. */
  lemma RenumberingKeepsReport(s: set<CoverageKey>, t: set<CoverageKey>, move: map<CoverageKey, CoverageKey>, allowed: set<CoverageKey>)
    requires Renumbering(s, t, move)
    ensures multiset(Contents(Reported(t, allowed), ContentKey)) == multiset(Contents(Reported(s, allowed), ContentKey))
    ensures |Reported(t, allowed)| == |Reported(s, allowed)|
  {
    hide Renumbering, Reported, Debt;
    var a, b := multiset(Contents(Reported(t, allowed), ContentKey)), multiset(Contents(Reported(s, allowed), ContentKey));
    forall c ensures a[c] == b[c] {
      RenumberingKeepsDebt(s, t, move, c);
      ReportedCounts(s, allowed, c);
      ReportedCounts(t, allowed, c);
    }
    assert a == b;
    assert |Reported(t, allowed)| == |a| && |Reported(s, allowed)| == |b|;
  }

  // ----- When the ratchet is silent, and what that keeps

  ghost predicate WithinDebt(s: set<CoverageKey>, allowed: set<CoverageKey>) {
    forall c :: Debt(s, c) <= Debt(allowed, c)
  }

  lemma NothingReportedIff(s: set<CoverageKey>, allowed: set<CoverageKey>)
    ensures Reported(s, allowed) == [] <==> WithinDebt(s, allowed)
  {
    hide Reported, Debt;
    var r := Reported(s, allowed);
    if r == [] {
      forall c ensures Debt(s, c) <= Debt(allowed, c) {
        ReportedCounts(s, allowed, c);
      }
    } else {
      ReportedCounts(s, allowed, ContentKey(r[0]));
      assert Contents(r, ContentKey)[0] in multiset(Contents(r, ContentKey));
    }
  }

  ghost predicate Silent(uncovered: set<CoverageKey>, allowlist: set<CoverageKey>, baseline: set<CoverageKey>) {
    Reported(uncovered, allowlist) == [] && Reported(allowlist, baseline) == [] && Reported(allowlist, uncovered) == []
  }

  /** All three checks are silent exactly when the uncovered debt is the allowed debt, within the base. */
  lemma SilentIff(uncovered: set<CoverageKey>, allowlist: set<CoverageKey>, baseline: set<CoverageKey>)
    ensures Silent(uncovered, allowlist, baseline) <==>
            (forall c :: Debt(uncovered, c) == Debt(allowlist, c)) && WithinDebt(allowlist, baseline)
  {
    hide Reported, Debt;
    NothingReportedIff(uncovered, allowlist);
    NothingReportedIff(allowlist, baseline);
    NothingReportedIff(allowlist, uncovered);
  }

  datatype Change = Change(uncovered: set<CoverageKey>, allowlist: set<CoverageKey>)

  /** Every change is accepted without a ratchet message, against the allowlist before it. */
  ghost predicate Accepted(history: seq<Change>) {
    forall i :: 0 <= i < |history| ==>
      && Reported(history[i].uncovered, history[i].allowlist) == []
      && (i > 0 ==> Reported(history[i].allowlist, history[i - 1].allowlist) == [])
  }

  /** Along accepted changes the uncovered lines never exceed the first allowlist. */
  lemma {:induction false} DebtNeverGrows(history: seq<Change>, i: nat)
    requires Accepted(history) && i < |history|
    ensures WithinDebt(history[i].allowlist, history[0].allowlist)
    ensures WithinDebt(history[i].uncovered, history[0].allowlist)
  {
    hide Reported, Debt;
    NothingReportedIff(history[i].uncovered, history[i].allowlist);
    if i > 0 {
      DebtNeverGrows(history, i - 1);
      NothingReportedIff(history[i].allowlist, history[i - 1].allowlist);
    }
  }
}
