/**
 The tree half of scripts/intent_bounded_replay/semantic_tree.py, up to the final SHA-256: exclusion
 of numbered manifests, one record per entry, sorting by path and framing.
 */
module SemanticTree {
  import opened Digits
  import opened Framing
  import opened GitBatch
  import opened Ordering
  import opened Results

  const TREE_DOMAIN := "fkst-semantic-tree-v1"
  const DIFF_DOMAIN := "fkst-semantic-diff-v1"

  // ----- The fixed exclusion

  const MANIFEST_PREFIX := "migration/intent-diffs/"
  const MANIFEST_SUFFIX := ".json"

  /** `migration/intent-diffs/[1-9][0-9]*\.json` */
  predicate IsManifest(path: string) {
    var n := |MANIFEST_PREFIX|;
    var k := |path| - |MANIFEST_SUFFIX|;
    && n < k
    && path[..n] == MANIFEST_PREFIX
    && path[k..] == MANIFEST_SUFFIX
    && AllDigits(path[n..k])
    && path[n] != '0'
  }

  /** A path is excluded exactly if it is the prefix, the decimal text of a positive number, and the suffix. */
  lemma ManifestIff(path: string)
    ensures IsManifest(path) <==> exists n: nat :: n > 0 && path == "migration/intent-diffs/" + NatText(n) + ".json"
  {
    if n: nat :| n > 0 && path == "migration/intent-diffs/" + NatText(n) + ".json" {
      NumberedIsManifest(path, n);
    }
    if IsManifest(path) {
      var n := ManifestNumber(path);
    }
  }

  lemma NumberedIsManifest(path: string, n: nat)
    requires n > 0 && path == MANIFEST_PREFIX + NatText(n) + MANIFEST_SUFFIX
    ensures IsManifest(path)
  {
    NatTextValue(n);
    hide NatText;
    var k := |path| - |MANIFEST_SUFFIX|;
    assert path[..|MANIFEST_PREFIX|] == MANIFEST_PREFIX && path[k..] == MANIFEST_SUFFIX;
    assert path[|MANIFEST_PREFIX|..k] == NatText(n);
  }

  lemma ManifestNumber(path: string) returns (n: nat)
    requires IsManifest(path)
    ensures n > 0 && path == MANIFEST_PREFIX + NatText(n) + MANIFEST_SUFFIX
  {
    var a, k := |MANIFEST_PREFIX|, |path| - |MANIFEST_SUFFIX|;
    var digits := path[a..k];
    assert path == path[..a] + digits + path[k..];
    n := Value(digits);
    MinimalText(digits);
  }

  /** Digits without a leading zero are the decimal text of their value. */
  lemma {:induction false} MinimalText(s: string)
    requires AllDigits(s) && s != "" && s[0] != '0'
    ensures Value(s) > 0 && NatText(Value(s)) == s
  {
    var init, d := s[..|s| - 1], DigitValue(s[|s| - 1]);
    assert s == init + [DigitChar(d)];
    if init == "" {
      assert Value(init) == 0;
    } else {
      MinimalText(init);
      assert Value(s) / 10 == Value(init) && Value(s) % 10 == d;
    }
  }

  // ----- The tree

  datatype TreeEntry = TreeEntry(path: string, mode: string, oid: string)

  function KeptEntries(entries: seq<TreeEntry>): seq<TreeEntry> {
    if entries == [] then []
    else (if IsManifest(entries[0].path) then [] else [entries[0]]) + KeptEntries(entries[1..])
  }

  function EntryIds(entries: seq<TreeEntry>): set<string> {
    set i | 0 <= i < |entries| :: entries[i].oid
  }

  /** One record per entry, keyed by its path; an unknown object would be a `KeyError`. */
  function TreeRecords(sha: string -> string, blobs: map<string, string>, entries: seq<TreeEntry>): Result<seq<Keyed<seq<string>>>> {
    if entries == [] then Success([])
    else if entries[0].oid !in blobs then Failure
    else
      var e := entries[0];
      var rest :- TreeRecords(sha, blobs, entries[1..]);
      Success([Keyed(e.path, [e.path, e.mode, sha(blobs[e.oid])])] + rest)
  }

  function Values<T>(s: seq<Keyed<T>>): seq<T> {
    seq(|s|, i requires 0 <= i < |s| => s[i].value)
  }

  /** The bytes that `semantic_tree_sha256` hashes, given Git's tree listing and batch output. */
  function TreeStream(sha: string -> string, entries: seq<TreeEntry>, output: string): Result<string> {
    var kept := KeptEntries(entries);
    var blobs :- BlobsOf(EntryIds(kept), output);
    var records :- TreeRecords(sha, blobs, kept);
    var stream :- Stream(Values(SortKeyed(records)));
    Success(TREE_DOMAIN + stream)
  }

  // ----- Properties of the tree stream

  function RecordOf(sha: string -> string, blobs: map<string, string>, e: TreeEntry): Keyed<seq<string>>
    requires e.oid in blobs
  {
    Keyed(e.path, [e.path, e.mode, sha(blobs[e.oid])])
  }

  lemma {:induction false} TreeRecordsPointwise(sha: string -> string, blobs: map<string, string>, entries: seq<TreeEntry>)
    ensures TreeRecords(sha, blobs, entries).Success? <==> forall i :: 0 <= i < |entries| ==> entries[i].oid in blobs
    ensures TreeRecords(sha, blobs, entries).Success? ==> |TreeRecords(sha, blobs, entries).value| == |entries|
    ensures TreeRecords(sha, blobs, entries).Success? ==>
              forall i :: 0 <= i < |entries| ==> TreeRecords(sha, blobs, entries).value[i] == RecordOf(sha, blobs, entries[i])
  {
    if entries != [] {
      TreeRecordsPointwise(sha, blobs, entries[1..]);
      assert forall i :: 0 < i < |entries| ==> entries[i] == entries[1..][i - 1];
    }
  }

  /** Git lists a path once. */
  ghost predicate DistinctPaths(entries: seq<TreeEntry>) {
    forall i, j :: 0 <= i < j < |entries| ==> entries[i].path != entries[j].path
  }

  lemma {:induction false} KeptAre(entries: seq<TreeEntry>, e: TreeEntry)
    ensures e in KeptEntries(entries) <==> e in entries && !IsManifest(e.path)
  {
    hide IsManifest;
    if entries != [] {
      KeptAre(entries[1..], e);
      assert entries == [entries[0]] + entries[1..];
    }
  }

  lemma {:induction false} KeptDistinct(entries: seq<TreeEntry>)
    requires DistinctPaths(entries)
    ensures DistinctPaths(KeptEntries(entries))
  {
    hide IsManifest;
    if entries != [] {
      KeptDistinct(entries[1..]);
      forall e | e in KeptEntries(entries[1..]) ensures e.path != entries[0].path {
        KeptAre(entries[1..], e);
      }
    }
  }

  /** The records of a tree: path, mode and content hash of every entry that is not excluded. */
  ghost predicate IsRecord(sha: string -> string, entries: seq<TreeEntry>, output: string, r: seq<string>) {
    exists e :: e in entries && !IsManifest(e.path)
      && BlobsOf(EntryIds(KeptEntries(entries)), output).Success?
      && e.oid in BlobsOf(EntryIds(KeptEntries(entries)), output).value
      && r == RecordOf(sha, BlobsOf(EntryIds(KeptEntries(entries)), output).value, e).value
  }

  lemma StreamRecords(sha: string -> string, entries: seq<TreeEntry>, output: string) returns (records: seq<Keyed<seq<string>>>)
    requires DistinctPaths(entries) && TreeStream(sha, entries, output).Success?
    ensures DistinctKeys(records)
    ensures Stream(Values(SortKeyed(records))).Success?
    ensures TreeStream(sha, entries, output).value == TREE_DOMAIN + Stream(Values(SortKeyed(records))).value
    ensures forall i :: 0 <= i < |records| ==> |records[i].value| == 3 && records[i].key == records[i].value[0]
    ensures forall r :: IsRecord(sha, entries, output, r) <==> Recorded(records, r)
  {
    hide BlobsOf, Stream, IsManifest, SortKeyed;
    var kept := KeptEntries(entries);
    var blobs := BlobsOf(EntryIds(kept), output).value;
    records := TreeRecords(sha, blobs, kept).value;
    TreeRecordsPointwise(sha, blobs, kept);
    KeptDistinct(entries);
    hide TreeRecords, KeptEntries, EntryIds;
    forall r ensures IsRecord(sha, entries, output, r) <==> Recorded(records, r) {
      RecordedIff(sha, blobs, entries, kept, records, r);
    }
  }

  ghost predicate Recorded(records: seq<Keyed<seq<string>>>, r: seq<string>) {
    exists i :: 0 <= i < |records| && records[i].value == r
  }

  lemma RecordedIff(sha: string -> string, blobs: map<string, string>, entries: seq<TreeEntry>, kept: seq<TreeEntry>,
                    records: seq<Keyed<seq<string>>>, r: seq<string>)
    requires kept == KeptEntries(entries) && |records| == |kept|
    requires forall i :: 0 <= i < |kept| ==> kept[i].oid in blobs && records[i] == RecordOf(sha, blobs, kept[i])
    ensures (exists e :: e in entries && !IsManifest(e.path) && e.oid in blobs && r == RecordOf(sha, blobs, e).value)
       <==> Recorded(records, r)
  {
    hide IsManifest, KeptEntries;
    if Recorded(records, r) {
      var i :| 0 <= i < |records| && records[i].value == r;
      KeptAre(entries, kept[i]);
    }
    if e :| e in entries && !IsManifest(e.path) && e.oid in blobs && r == RecordOf(sha, blobs, e).value {
      KeptAre(entries, e);
      var i :| 0 <= i < |kept| && kept[i] == e;
      assert records[i].value == r;
    }
  }

  lemma SameRecords(a: seq<Keyed<seq<string>>>, b: seq<Keyed<seq<string>>>, x: Keyed<seq<string>>)
    requires forall i :: 0 <= i < |a| ==> |a[i].value| == 3 && a[i].key == a[i].value[0]
    requires forall i :: 0 <= i < |b| ==> |b[i].value| == 3 && b[i].key == b[i].value[0]
    requires forall r :: Recorded(a, r) ==> Recorded(b, r)
    requires x in a
    ensures x in b
  {
    assert Recorded(a, x.value);
    var i :| 0 <= i < |b| && b[i].value == x.value;
    assert b[i] == x;
  }

  lemma SortedValues<T(!new)>(s: seq<Keyed<T>>, v: T)
    ensures v in Values(SortKeyed(s)) <==> exists i :: 0 <= i < |s| && s[i].value == v
  {
    hide SortKeyed;
    var r := SortKeyed(s);
    if v in Values(r) {
      var i :| 0 <= i < |r| && Values(r)[i] == v;
      SortMembers(s, r[i]);
      var j :| 0 <= j < |s| && s[j] == r[i];
    }
    if i :| 0 <= i < |s| && s[i].value == v {
      SortMembers(s, s[i]);
      var j :| 0 <= j < |r| && r[j] == s[i];
      assert Values(r)[j] == v;
    }
  }

  /**
   Two tree streams are equal iff the trees have the same records, whatever order Git listed them in
   and whatever the excluded manifests contain.
   */
  lemma TreeStreamIff(sha: string -> string, a: seq<TreeEntry>, b: seq<TreeEntry>, outA: string, outB: string)
    requires DistinctPaths(a) && DistinctPaths(b)
    requires TreeStream(sha, a, outA).Success? && TreeStream(sha, b, outB).Success?
    ensures TreeStream(sha, a, outA) == TreeStream(sha, b, outB)
       <==> forall r :: IsRecord(sha, a, outA, r) <==> IsRecord(sha, b, outB, r)
  {
    hide TreeStream, IsRecord, Stream, SortKeyed, DistinctKeys;
    var ra := StreamRecords(sha, a, outA);
    var rb := StreamRecords(sha, b, outB);
    if TreeStream(sha, a, outA) == TreeStream(sha, b, outB) {
      var n := |TREE_DOMAIN|;
      assert Stream(Values(SortKeyed(ra))).value == TreeStream(sha, a, outA).value[n..];
      assert Stream(Values(SortKeyed(rb))).value == TreeStream(sha, b, outB).value[n..];
      ArityThree(ra);
      ArityThree(rb);
      StreamInjective(Values(SortKeyed(ra)), Values(SortKeyed(rb)), 3);
      forall r ensures IsRecord(sha, a, outA, r) <==> IsRecord(sha, b, outB, r) {
        SortedValues(ra, r);
        SortedValues(rb, r);
      }
    }
    if forall r :: IsRecord(sha, a, outA, r) <==> IsRecord(sha, b, outB, r) {
      forall x ensures x in ra <==> x in rb {
        if x in ra { SameRecords(ra, rb, x); }
        if x in rb { SameRecords(rb, ra, x); }
      }
      SortOrderIndependent(ra, rb);
    }
  }

  lemma ArityThree(s: seq<Keyed<seq<string>>>)
    requires forall i :: 0 <= i < |s| ==> |s[i].value| == 3
    ensures Arity(Values(SortKeyed(s)), 3)
  {
    hide SortKeyed;
    var r := SortKeyed(s);
    forall i | 0 <= i < |r| ensures |r[i].value| == 3 {
      SortMembers(s, r[i]);
    }
  }

  // ----- Reading the tree stream

  /** The store has exactly the objects of the entries that are not excluded. */
  ghost predicate Holds(store: map<string, string>, entries: seq<TreeEntry>) {
    && Objects(store)
    && (forall e :: e in entries && !IsManifest(e.path) ==> e.oid in store)
    && (forall id :: id in store ==> exists e :: e in entries && !IsManifest(e.path) && e.oid == id)
  }

  ghost predicate IsContent(sha: string -> string, store: map<string, string>, entries: seq<TreeEntry>, row: seq<string>) {
    exists e :: e in entries && !IsManifest(e.path) && e.oid in store && row == [e.path, e.mode, sha(store[e.oid])]
  }

  lemma HeldIds(store: map<string, string>, entries: seq<TreeEntry>)
    requires Holds(store, entries)
    ensures EntryIds(KeptEntries(entries)) == store.Keys
  {
    hide IsManifest, Objects, KeptEntries;
    var kept := KeptEntries(entries);
    forall id | id in EntryIds(kept) ensures id in store {
      var i :| 0 <= i < |kept| && kept[i].oid == id;
      KeptAre(entries, kept[i]);
    }
    forall id | id in store ensures id in EntryIds(kept) {
      var e :| e in entries && !IsManifest(e.path) && e.oid == id;
      KeptAre(entries, e);
      var i :| 0 <= i < |kept| && kept[i] == e;
    }
  }

  /** The records of Git's batch, in the order of their paths. */
  lemma SortedContents(sha: string -> string, store: map<string, string>, entries: seq<TreeEntry>)
    requires DistinctPaths(entries) && Holds(store, entries)
    ensures var records := TreeRecords(sha, store, KeptEntries(entries));
            && records.Success? && DistinctKeys(records.value)
            && (forall i :: 0 <= i < |records.value| ==> |records.value[i].value| == 3 && records.value[i].key == records.value[i].value[0])
            && (forall r :: Recorded(records.value, r) <==> IsContent(sha, store, entries, r))
  {
    hide IsManifest, Objects, KeptEntries;
    var kept := KeptEntries(entries);
    KeptDistinct(entries);
    forall e ensures e in kept <==> e in entries && !IsManifest(e.path) {
      KeptAre(entries, e);
    }
    TreeRecordsPointwise(sha, store, kept);
    hide TreeRecords;
    var records := TreeRecords(sha, store, kept).value;
    forall r ensures Recorded(records, r) <==> IsContent(sha, store, entries, r) {
      if Recorded(records, r) {
        var i :| 0 <= i < |records| && records[i].value == r;
        assert kept[i] in kept;
      }
      if IsContent(sha, store, entries, r) {
        var e :| e in entries && !IsManifest(e.path) && e.oid in store && r == [e.path, e.mode, sha(store[e.oid])];
        var i :| 0 <= i < |kept| && kept[i] == e;
        assert records[i].value == r;
      }
    }
  }

  /**
   For the batch that Git writes, the hashed bytes are the domain and then the path, mode and content digest
   of exactly the entries that are not excluded, in the order of their paths; there are no such bytes exactly
   if a field is too long for its length.
   */
  lemma TreeStreamReads(sha: string -> string, entries: seq<TreeEntry>, store: map<string, string>) returns (rows: seq<seq<string>>)
    requires DistinctPaths(entries) && Holds(store, entries)
    ensures forall r :: r in rows <==> IsContent(sha, store, entries, r)
    ensures Arity(rows, 3) && forall i, j :: 0 <= i < j < |rows| ==> Lt(rows[i][0], rows[j][0])
    ensures var stream := TreeStream(sha, entries, Batch(store));
            && (stream.Success? <==> forall i :: 0 <= i < |rows| ==> Short(rows[i]))
            && (stream.Success? ==> var n := |"fkst-semantic-tree-v1"|;
                                    && "fkst-semantic-tree-v1" <= stream.value
                                    && ReadRecords(stream.value[n..], 3) == Some(rows))
  {
    HeldIds(store, entries);
    ReadBlobsInverts(store);
    SortedContents(sha, store, entries);
    hide Stream, BlobsOf, Batch, ReadRecords, Short, SortKeyed, Lt, KeptEntries, TreeRecords, IsContent, Objects, Holds;
    var records := TreeRecords(sha, store, KeptEntries(entries)).value;
    rows := Values(SortKeyed(records));
    forall r ensures r in rows <==> IsContent(sha, store, entries, r) {
      SortedValues(records, r);
    }
    ArityThree(records);
    PathsIncrease(records);
    StreamReadsBack(rows, 3);
    var stream := TreeStream(sha, entries, Batch(store));
    if stream.Success? {
      assert stream.value[|TREE_DOMAIN|..] == Stream(rows).value;
    }
  }

  lemma PathsIncrease(records: seq<Keyed<seq<string>>>)
    requires DistinctKeys(records)
    requires forall i :: 0 <= i < |records| ==> |records[i].value| == 3 && records[i].key == records[i].value[0]
    ensures var rows := Values(SortKeyed(records));
            Arity(rows, 3) && forall i, j :: 0 <= i < j < |rows| ==> Lt(rows[i][0], rows[j][0])
  {
    hide SortKeyed, Lt;
    SortIncreasing(records);
    ArityThree(records);
    var sorted := SortKeyed(records);
    forall i | 0 <= i < |sorted| ensures |sorted[i].value| == 3 && sorted[i].key == sorted[i].value[0] {
      SortMembers(records, sorted[i]);
    }
    forall i, j | 0 <= i < j < |sorted| ensures Lt(sorted[i].value[0], sorted[j].value[0]) {
      assert Lt(Keys(sorted)[i], Keys(sorted)[j]);
    }
  }

  /** An edit confined to numbered manifests, and a reordering, change neither the stream nor its failure. */
  lemma ManifestEditsInvisible(sha: string -> string, a: seq<TreeEntry>, b: seq<TreeEntry>, output: string)
    requires DistinctPaths(a) && DistinctPaths(b)
    requires forall e: TreeEntry :: !IsManifest(e.path) ==> (e in a <==> e in b)
    ensures TreeStream(sha, a, output) == TreeStream(sha, b, output)
  {
    hide IsManifest, BlobsOf, SortKeyed, Stream;
    var ka, kb := KeptEntries(a), KeptEntries(b);
    forall e ensures e in ka <==> e in kb {
      KeptAre(a, e);
      KeptAre(b, e);
    }
    KeptDistinct(a);
    KeptDistinct(b);
    SameIds(ka, kb);
    var found := BlobsOf(EntryIds(ka), output);
    if found.Success? {
      TreeRecordsPointwise(sha, found.value, ka);
      TreeRecordsPointwise(sha, found.value, kb);
      SameFailure(sha, found.value, ka, kb);
      if TreeRecords(sha, found.value, ka).Success? {
        var ra, rb := TreeRecords(sha, found.value, ka).value, TreeRecords(sha, found.value, kb).value;
        SameMapped(sha, found.value, ka, kb, ra, rb);
        SortOrderIndependent(ra, rb);
      }
    }
  }

  lemma SameIds(a: seq<TreeEntry>, b: seq<TreeEntry>)
    requires forall e :: e in a <==> e in b
    ensures EntryIds(a) == EntryIds(b)
  {
    forall id ensures id in EntryIds(a) <==> id in EntryIds(b) {
      if id in EntryIds(a) {
        var i :| 0 <= i < |a| && a[i].oid == id;
        assert a[i] in b;
      }
      if id in EntryIds(b) {
        var i :| 0 <= i < |b| && b[i].oid == id;
        assert b[i] in a;
      }
    }
  }

  lemma SameFailure(sha: string -> string, blobs: map<string, string>, a: seq<TreeEntry>, b: seq<TreeEntry>)
    requires forall e :: e in a <==> e in b
    ensures TreeRecords(sha, blobs, a).Success? <==> TreeRecords(sha, blobs, b).Success?
  {
    TreeRecordsPointwise(sha, blobs, a);
    TreeRecordsPointwise(sha, blobs, b);
    hide TreeRecords;
    assert forall i :: 0 <= i < |a| ==> a[i] in b;
    assert forall i :: 0 <= i < |b| ==> b[i] in a;
  }

  lemma SameMapped(sha: string -> string, blobs: map<string, string>, a: seq<TreeEntry>, b: seq<TreeEntry>,
                   ra: seq<Keyed<seq<string>>>, rb: seq<Keyed<seq<string>>>)
    requires DistinctPaths(a) && DistinctPaths(b) && (forall e :: e in a <==> e in b) && |ra| == |a| && |rb| == |b|
    requires forall i :: 0 <= i < |a| ==> a[i].oid in blobs && ra[i] == RecordOf(sha, blobs, a[i])
    requires forall i :: 0 <= i < |b| ==> b[i].oid in blobs && rb[i] == RecordOf(sha, blobs, b[i])
    ensures DistinctKeys(ra) && DistinctKeys(rb) && forall x :: x in ra <==> x in rb
  {
    forall x | x in ra ensures x in rb {
      var i :| 0 <= i < |ra| && ra[i] == x;
      assert a[i] in b;
      var j :| 0 <= j < |b| && b[j] == a[i];
      assert rb[j] == x;
    }
    forall x | x in rb ensures x in ra {
      var i :| 0 <= i < |rb| && rb[i] == x;
      assert b[i] in a;
      var j :| 0 <= j < |a| && a[j] == b[i];
      assert ra[j] == x;
    }
  }
}
