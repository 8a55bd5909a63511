/**
 The diff half of scripts/intent_bounded_replay/semantic_tree.py: Git's raw diff is parsed into
 seven-field records, which are sorted as tuples and framed.
 */
module SemanticDiff {
  import opened Digits
  import opened Framing
  import opened GitBatch
  import opened Ordering
  import opened Results
  import opened SemanticTree

  /** `(status, old_path, new_path, old_mode, new_mode, old_id, new_id)` */
  datatype DiffEntry = DiffEntry(
    status: string,
    oldPath: string,
    newPath: string,
    oldMode: string,
    newMode: string,
    oldId: string,
    newId: string)

  // ----- Parsing the raw diff

  function EntryFor(status: string, path: string, oldMode: string, newMode: string, oldId: string, newId: string): DiffEntry {
    if status == "A" then DiffEntry(status, "", path, "", newMode, "", Lower(newId))
    else if status == "D" then DiffEntry(status, path, "", oldMode, "", Lower(oldId), "")
    else DiffEntry(status, path, path, oldMode, newMode, Lower(oldId), Lower(newId))
  }

  predicate KnownStatus(status: string) {
    status == "A" || status == "D" || status == "M" || status == "T"
  }

  /** One header and path of the raw diff. */
  function ParseChange(chunks: seq<string>): Result<DiffEntry>
    requires chunks != []
  {
    var header := chunks[0];
    if header == "" || header[0] != ':' then Failure
    else
      var parts := Split(header[1..], ' ');
      if |parts| != 5 || !KnownStatus(parts[4]) || |chunks| < 2 then Failure
      else Success(EntryFor(parts[4], chunks[1], parts[0], parts[1], parts[2], parts[3]))
  }

  function ParseChunks(chunks: seq<string>): Result<seq<DiffEntry>> {
    if chunks == [] then Success([])
    else
      var entry :- ParseChange(chunks);
      if |chunks| < 2 then Failure
      else
        var rest :- ParseChunks(chunks[2..]);
        Success([entry] + rest)
  }

  function Chunks(output: string): seq<string> {
    var chunks := Split(output, '\0');
    if chunks[|chunks| - 1] == "" then chunks[..|chunks| - 1] else chunks
  }

  method RawDiffEntries(output: string) returns (r: Result<seq<DiffEntry>>)
    ensures r == ParseChunks(Chunks(output))
  {
    hide ParseChange, Split;
    var chunks := Chunks(output);
    var entries: seq<DiffEntry> := [];
    var index := 0;
    assert chunks[0..] == chunks;
    AppendNothing(ParseChunks(chunks));
    while index < |chunks|
      invariant 0 <= index <= |chunks|
      invariant ParseChunks(chunks) == Append(entries, ParseChunks(chunks[index..]))
    {
      var rest := chunks[index..];
      var change := ParseChange(rest);
      if change.Failure? || |rest| < 2 {
        return Failure;
      }
      assert rest[2..] == chunks[index + 2..];
      AppendStep(entries, change.value, ParseChunks(chunks[index + 2..]));
      entries := entries + [change.value];
      index := index + 2;
    }
    assert chunks[index..] == [];
    assert entries + [] == entries;
    return Success(entries);
  }

  ghost function Append(entries: seq<DiffEntry>, r: Result<seq<DiffEntry>>): Result<seq<DiffEntry>> {
    match r
    case Success(rest) => Success(entries + rest)
    case Failure => Failure
  }

  lemma AppendNothing(r: Result<seq<DiffEntry>>)
    ensures Append([], r) == r
  {
    if r.Success? {
      assert [] + r.value == r.value;
    }
  }

  lemma AppendStep(entries: seq<DiffEntry>, e: DiffEntry, r: Result<seq<DiffEntry>>)
    ensures Append(entries, Append([e], r)) == Append(entries + [e], r)
  {
    if r.Success? {
      assert entries + ([e] + r.value) == entries + [e] + r.value;
    }
  }

  // ----- What Git writes

  datatype Change = Change(oldMode: string, newMode: string, oldId: string, newId: string, status: string, path: string)

  ghost predicate CleanField(s: string) {
    Lacks(s, ' ') && Lacks(s, '\0')
  }

  ghost predicate CleanChange(c: Change) {
    && CleanField(c.oldMode) && CleanField(c.newMode) && CleanField(c.oldId) && CleanField(c.newId)
    && c.status in {"A", "D", "M", "T"} && Lacks(c.path, '\0')
  }

  ghost function HeaderOf(c: Change): string {
    ":" + (c.oldMode + [' '] + (c.newMode + [' '] + (c.oldId + [' '] + (c.newId + [' '] + c.status))))
  }

  ghost function RenderRaw(changes: seq<Change>): string {
    if changes == [] then ""
    else HeaderOf(changes[0]) + ['\0'] + (changes[0].path + ['\0'] + RenderRaw(changes[1..]))
  }

  ghost function EntriesOf(changes: seq<Change>): seq<DiffEntry> {
    seq(|changes|, i requires 0 <= i < |changes| =>
      var c := changes[i]; EntryFor(c.status, c.path, c.oldMode, c.newMode, c.oldId, c.newId))
  }

  ghost function FlatChunks(changes: seq<Change>): seq<string> {
    if changes == [] then [] else [HeaderOf(changes[0]), changes[0].path] + FlatChunks(changes[1..])
  }

  lemma HeaderSplits(c: Change)
    requires CleanChange(c)
    ensures Split(HeaderOf(c)[1..], ' ') == [c.oldMode, c.newMode, c.oldId, c.newId, c.status]
    ensures Lacks(HeaderOf(c), '\0')
  {
    hide Split;
    assert HeaderOf(c)[1..] == c.oldMode + [' '] + (c.newMode + [' '] + (c.oldId + [' '] + (c.newId + [' '] + c.status)));
    SplitFirst(c.oldMode, ' ', c.newMode + [' '] + (c.oldId + [' '] + (c.newId + [' '] + c.status)));
    SplitFirst(c.newMode, ' ', c.oldId + [' '] + (c.newId + [' '] + c.status));
    SplitFirst(c.oldId, ' ', c.newId + [' '] + c.status);
    SplitFirst(c.newId, ' ', c.status);
    SplitNone(c.status, ' ');
  }

  lemma {:induction false} RenderSplits(changes: seq<Change>)
    requires forall i :: 0 <= i < |changes| ==> CleanChange(changes[i])
    ensures Split(RenderRaw(changes), '\0') == FlatChunks(changes) + [""]
  {
    hide Split, HeaderOf, KnownStatus;
    if changes == [] {
      SplitNone("", '\0');
    } else {
      var c, rest := changes[0], RenderRaw(changes[1..]);
      HeaderSplits(c);
      SplitFirst(HeaderOf(c), '\0', c.path + ['\0'] + rest);
      SplitFirst(c.path, '\0', rest);
      RenderSplits(changes[1..]);
    }
  }

  lemma {:induction false} FlatParses(changes: seq<Change>)
    requires forall i :: 0 <= i < |changes| ==> CleanChange(changes[i])
    ensures ParseChunks(FlatChunks(changes)) == Success(EntriesOf(changes))
  {
    hide Split, Lower;
    if changes != [] {
      HeaderSplits(changes[0]);
      FlatParses(changes[1..]);
      var chunks := FlatChunks(changes);
      assert chunks[2..] == FlatChunks(changes[1..]);
      assert chunks[0] == HeaderOf(changes[0]) && chunks[1] == changes[0].path;
      assert EntriesOf(changes) == [EntriesOf(changes)[0]] + EntriesOf(changes[1..]);
    }
  }

  /** The text with its capital letters in lower case. */
  ghost predicate Lowered(s: string, t: string) {
    |t| == |s| && forall i :: 0 <= i < |s| ==> t[i] == if 'A' <= s[i] <= 'Z' then s[i] - 'A' + 'a' else s[i]
  }

  /** An addition has only a new side, a deletion only an old one, any other change both, under one path. */
  ghost predicate Describes(c: Change, e: DiffEntry) {
    && e.status == c.status
    && (if c.status == "A" then e.oldPath == "" && e.oldMode == "" && e.oldId == ""
        else e.oldPath == c.path && e.oldMode == c.oldMode && Lowered(c.oldId, e.oldId))
    && (if c.status == "D" then e.newPath == "" && e.newMode == "" && e.newId == ""
        else e.newPath == c.path && e.newMode == c.newMode && Lowered(c.newId, e.newId))
  }

  lemma LowerIs(s: string)
    ensures Lowered(s, Lower(s))
  {
  }

  lemma EntryDescribes(c: Change)
    requires KnownStatus(c.status)
    ensures Describes(c, EntryFor(c.status, c.path, c.oldMode, c.newMode, c.oldId, c.newId))
  {
    LowerIs(c.oldId);
    LowerIs(c.newId);
    hide Lower, Lowered;
    assert "A" != "D" by { assert "A"[0] == 'A' && "D"[0] == 'D'; }
  }

  /** For every list of changes, parsing Git's raw diff gives one entry for each, in order, with its sides. */
  lemma RawDiffInverts(changes: seq<Change>)
    requires forall i :: 0 <= i < |changes| ==> CleanChange(changes[i])
    ensures var r := ParseChunks(Chunks(RenderRaw(changes)));
            && r.Success? && |r.value| == |changes|
            && forall i :: 0 <= i < |changes| ==> Describes(changes[i], r.value[i])
  {
    RenderSplits(changes);
    FlatParses(changes);
    hide Split, ParseChunks, CleanField, EntryFor, Describes;
    var chunks := FlatChunks(changes) + [""];
    assert chunks[..|chunks| - 1] == FlatChunks(changes);
    forall i | 0 <= i < |changes| ensures Describes(changes[i], EntriesOf(changes)[i]) {
      EntryDescribes(changes[i]);
    }
  }

  // ----- Exactly which raw diffs are accepted

  /** The change that a header and a path stand for. */
  ghost function ChangeOf(header: string, path: string): Change
    requires header != "" && |Split(header[1..], ' ')| == 5
  {
    var parts := Split(header[1..], ' ');
    Change(parts[0], parts[1], parts[2], parts[3], parts[4], path)
  }

  lemma SplitInFive(s: string)
    requires |Split(s, ' ')| == 5
    ensures var p := Split(s, ' ');
            s == p[0] + [' '] + (p[1] + [' '] + (p[2] + [' '] + (p[3] + [' '] + p[4])))
  {
    hide Split;
    var a := SplitTail(s, ' ');
    var b := SplitTail(a, ' ');
    var c := SplitTail(b, ' ');
    var d := SplitTail(c, ' ');
    SplitWhole(d, ' ');
  }

  lemma ChangeIsClean(chunks: seq<string>)
    requires chunks != [] && ParseChange(chunks).Success?
    requires Lacks(chunks[0], '\0') && Lacks(chunks[1], '\0')
    ensures var c := ChangeOf(chunks[0], chunks[1]);
            HeaderOf(c) == chunks[0] && CleanChange(c)
  {
    var header := chunks[0];
    SplitInFive(header[1..]);
    PartsLack(header[1..], ' ', '\0');
    hide Split;
    assert header == ":" + header[1..];
  }

  ghost function ChangesOf(chunks: seq<string>): seq<Change>
    requires ParseChunks(chunks).Success?
  {
    if chunks == [] then [] else [ChangeOf(chunks[0], chunks[1])] + ChangesOf(chunks[2..])
  }

  lemma {:induction false} ChunksAreChanges(chunks: seq<string>)
    requires ParseChunks(chunks).Success? && forall i :: 0 <= i < |chunks| ==> Lacks(chunks[i], '\0')
    ensures FlatChunks(ChangesOf(chunks)) == chunks
    ensures forall i :: 0 <= i < |ChangesOf(chunks)| ==> CleanChange(ChangesOf(chunks)[i])
  {
    hide Split, HeaderOf, CleanChange;
    if chunks != [] {
      ChangeIsClean(chunks);
      ChunksAreChanges(chunks[2..]);
      assert chunks == [chunks[0], chunks[1]] + chunks[2..];
    }
  }

  ghost predicate Clean(changes: seq<Change>) {
    forall i :: 0 <= i < |changes| ==> CleanChange(changes[i])
  }

  /** The output for the changes; the terminator of a last path that is not empty may be missing. */
  ghost predicate IsRawDiff(output: string, changes: seq<Change>) {
    || output == RenderRaw(changes)
    || (output + ['\0'] == RenderRaw(changes) && changes != [] && changes[|changes| - 1].path != "")
  }

  /** Raw output is accepted exactly if it is the raw diff of some changes. */
  lemma RawDiffIff(output: string)
    ensures ParseChunks(Chunks(output)).Success? <==> exists changes :: Clean(changes) && IsRawDiff(output, changes)
  {
    hide ParseChunks, RenderRaw, CleanChange;
    if ParseChunks(Chunks(output)).Success? {
      var changes := ChangesOf(Chunks(output));
      ChunksRender(output);
    }
    if changes :| Clean(changes) && IsRawDiff(output, changes) {
      RenderedChunks(output, changes);
      FlatParses(changes);
    }
  }

  lemma ChunksRender(output: string)
    requires ParseChunks(Chunks(output)).Success?
    ensures var changes := ChangesOf(Chunks(output)); Clean(changes) && IsRawDiff(output, changes)
  {
    var chunks := Chunks(output);
    var all := Split(output, '\0');
    PartsLack(output, '\0', '\0');
    hide Split, ParseChunks, RenderRaw, CleanChange;
    ChunksAreChanges(chunks);
    var changes := ChangesOf(chunks);
    RenderSplits(changes);
    if all[|all| - 1] == "" {
      assert all == chunks + [""];
      SplitInjective(output, RenderRaw(changes), '\0');
    } else {
      SplitEnd(output, '\0');
      SplitInjective(output + ['\0'], RenderRaw(changes), '\0');
      LastPath(changes);
    }
  }

  lemma {:induction false} LastPath(changes: seq<Change>)
    ensures changes == [] <==> FlatChunks(changes) == []
    ensures changes != [] ==> var flat := FlatChunks(changes); flat[|flat| - 1] == changes[|changes| - 1].path
  {
    hide HeaderOf;
    if changes != [] {
      LastPath(changes[1..]);
    }
  }

  lemma RenderedChunks(output: string, changes: seq<Change>)
    requires Clean(changes) && IsRawDiff(output, changes)
    ensures Chunks(output) == FlatChunks(changes)
  {
    hide Split, RenderRaw, CleanChange;
    RenderSplits(changes);
    var flat := FlatChunks(changes);
    if output == RenderRaw(changes) {
      assert (flat + [""])[..|flat|] == flat;
    } else {
      SplitEnd(output, '\0');
      LastPath(changes);
      assert (Split(output, '\0') + [""])[..|flat|] == (flat + [""])[..|flat|];
      assert Split(output, '\0') == flat;
    }
  }

  // ----- Tuples in order

  type Row = seq<string>

  predicate RowLe(a: Row, b: Row) {
    a == b || LexLt(a, b)
  }

  function InsertRow(x: Row, s: seq<Row>): (r: seq<Row>)
    ensures multiset(r) == multiset(s) + multiset{x}
  {
    if s == [] || RowLe(x, s[0]) then [x] + s
    else
      assert s == [s[0]] + s[1..];
      [s[0]] + InsertRow(x, s[1..])
  }

  /** `records.sort()` */
  function SortRows(s: seq<Row>): (r: seq<Row>)
    ensures multiset(r) == multiset(s)
  {
    if s == [] then []
    else
      assert s == [s[0]] + s[1..];
      InsertRow(s[0], SortRows(s[1..]))
  }

  ghost predicate RowsAscend(s: seq<Row>) {
    forall i, j :: 0 <= i < j < |s| ==> RowLe(s[i], s[j])
  }

  lemma {:induction false} InsertRowAscends(x: Row, s: seq<Row>)
    requires RowsAscend(s)
    ensures RowsAscend(InsertRow(x, s))
  {
    hide LexLt;
    if s == [] {
    } else if RowLe(x, s[0]) {
      forall j | 0 <= j < |s| ensures RowLe(x, s[j]) {
        if x != s[0] && s[0] != s[j] {
          LexTrans(x, s[0], s[j]);
        }
      }
    } else {
      LexTotal(x, s[0]);
      var r := InsertRow(x, s[1..]);
      InsertRowAscends(x, s[1..]);
      forall j | 0 <= j < |r| ensures RowLe(s[0], r[j]) {
        assert r[j] in multiset(r);
        assert r[j] == x || r[j] in s[1..];
      }
    }
  }

  lemma {:induction false} SortRowsAscend(s: seq<Row>)
    ensures RowsAscend(SortRows(s))
  {
    if s != [] {
      SortRowsAscend(s[1..]);
      InsertRowAscends(s[0], SortRows(s[1..]));
    }
  }

  /** Ascending sequences with one multiset are one sequence. */
  lemma {:induction false} AscendingUnique(a: seq<Row>, b: seq<Row>)
    requires RowsAscend(a) && RowsAscend(b) && multiset(a) == multiset(b)
    ensures a == b
  {
    hide LexLt;
    assert |a| == |multiset(a)| == |multiset(b)| == |b|;
    if a != [] {
      HeadsAgree(a, b);
      TailBag(a);
      TailBag(b);
      AscendingUnique(a[1..], b[1..]);
    }
  }

  lemma TailBag<T>(a: seq<T>)
    requires a != []
    ensures a == [a[0]] + a[1..] && multiset(a[1..]) == multiset(a) - multiset{a[0]}
  {
    assert a == [a[0]] + a[1..];
  }

  lemma HeadsAgree(a: seq<Row>, b: seq<Row>)
    requires a != [] && b != [] && RowsAscend(a) && RowsAscend(b) && multiset(a) == multiset(b)
    ensures a[0] == b[0]
  {
    hide LexLt;
    assert a[0] in multiset(b) && b[0] in multiset(a);
    var i :| 0 <= i < |b| && b[i] == a[0];
    var j :| 0 <= j < |a| && a[j] == b[0];
    if a[0] != b[0] {
      assert RowLe(b[0], a[0]) && RowLe(a[0], b[0]);
      LexAsymmetric(a[0], b[0]);
    }
  }

  lemma SortRowsIff(a: seq<Row>, b: seq<Row>)
    ensures SortRows(a) == SortRows(b) <==> multiset(a) == multiset(b)
  {
    if multiset(a) == multiset(b) {
      SortRowsAscend(a);
      SortRowsAscend(b);
      AscendingUnique(SortRows(a), SortRows(b));
    }
  }

  // ----- The diff stream

  /** Paths are excluded on the side that exists. */
  predicate ExcludedEntry(e: DiffEntry) {
    (e.oldPath != "" && IsManifest(e.oldPath)) || (e.newPath != "" && IsManifest(e.newPath))
  }

  /** A change is excluded exactly if it has a numbered manifest on one of its sides. */
  lemma ExcludedIff(e: DiffEntry)
    ensures ExcludedEntry(e) <==>
            exists n: nat :: n > 0 && "migration/intent-diffs/" + NatText(n) + ".json" in {e.oldPath, e.newPath}
  {
    hide IsManifest, NatText;
    ManifestIff(e.oldPath);
    ManifestIff(e.newPath);
  }

  function KeptDiff(entries: seq<DiffEntry>): seq<DiffEntry> {
    if entries == [] then []
    else (if ExcludedEntry(entries[0]) then [] else [entries[0]]) + KeptDiff(entries[1..])
  }

  function DiffIds(entries: seq<DiffEntry>): set<string> {
    (set i | 0 <= i < |entries| && entries[i].oldId != "" :: entries[i].oldId)
    + (set i | 0 <= i < |entries| && entries[i].newId != "" :: entries[i].newId)
  }

  function SideHash(sha: string -> string, blobs: map<string, string>, id: string): Result<string> {
    if id == "" then Success("")
    else if id in blobs then Success(sha(blobs[id]))
    else Failure
  }

  function DiffRows(sha: string -> string, blobs: map<string, string>, entries: seq<DiffEntry>): Result<seq<Row>> {
    if entries == [] then Success([])
    else
      var e := entries[0];
      var oldHash :- SideHash(sha, blobs, e.oldId);
      var newHash :- SideHash(sha, blobs, e.newId);
      var rest :- DiffRows(sha, blobs, entries[1..]);
      Success([[e.status, e.oldPath, e.newPath, e.oldMode, e.newMode, oldHash, newHash]] + rest)
  }

  /** The records of a diff, before sorting. */
  function RowsOf(sha: string -> string, entries: seq<DiffEntry>, output: string): Result<seq<Row>> {
    var kept := KeptDiff(entries);
    var blobs :- BlobsOf(DiffIds(kept), output);
    DiffRows(sha, blobs, kept)
  }

  /** The bytes that `semantic_diff_sha256` hashes. */
  function DiffStream(sha: string -> string, entries: seq<DiffEntry>, output: string): Result<string> {
    var rows :- RowsOf(sha, entries, output);
    var stream :- Stream(SortRows(rows));
    Success(DIFF_DOMAIN + stream)
  }

  lemma {:induction false} DiffArity(sha: string -> string, blobs: map<string, string>, entries: seq<DiffEntry>)
    requires DiffRows(sha, blobs, entries).Success?
    ensures Arity(DiffRows(sha, blobs, entries).value, 7)
  {
    hide SideHash;
    if entries != [] {
      DiffArity(sha, blobs, entries[1..]);
    }
  }

  lemma SortedArity(rows: seq<Row>, n: nat)
    requires Arity(rows, n)
    ensures Arity(SortRows(rows), n)
  {
    hide SortRows;
    var r := SortRows(rows);
    forall i | 0 <= i < |r| ensures |r[i]| == n {
      assert r[i] in multiset(r);
      assert r[i] in rows;
    }
  }

  /** Two diff streams are equal iff their records are equal as multisets. */
  lemma DiffStreamIff(sha: string -> string, a: seq<DiffEntry>, b: seq<DiffEntry>, outA: string, outB: string)
    requires DiffStream(sha, a, outA).Success? && DiffStream(sha, b, outB).Success?
    ensures DiffStream(sha, a, outA) == DiffStream(sha, b, outB)
       <==> multiset(RowsOf(sha, a, outA).value) == multiset(RowsOf(sha, b, outB).value)
  {
    RowsArity(sha, a, outA);
    RowsArity(sha, b, outB);
    hide RowsOf, Stream, SortRows;
    var ra, rb := RowsOf(sha, a, outA).value, RowsOf(sha, b, outB).value;
    SortRowsIff(ra, rb);
    if DiffStream(sha, a, outA) == DiffStream(sha, b, outB) {
      var n := |DIFF_DOMAIN|;
      assert Stream(SortRows(ra)).value == DiffStream(sha, a, outA).value[n..];
      assert Stream(SortRows(rb)).value == DiffStream(sha, b, outB).value[n..];
      SortedArity(ra, 7);
      SortedArity(rb, 7);
      StreamInjective(SortRows(ra), SortRows(rb), 7);
    }
  }

  lemma RowsArity(sha: string -> string, entries: seq<DiffEntry>, output: string)
    requires RowsOf(sha, entries, output).Success?
    ensures Arity(RowsOf(sha, entries, output).value, 7)
  {
    hide BlobsOf, KeptDiff;
    var kept := KeptDiff(entries);
    DiffArity(sha, BlobsOf(DiffIds(kept), output).value, kept);
  }

  lemma {:induction false} KeptDiffConcat(a: seq<DiffEntry>, b: seq<DiffEntry>)
    ensures KeptDiff(a + b) == KeptDiff(a) + KeptDiff(b)
  {
    hide ExcludedEntry;
    if a == [] {
      assert a + b == b;
    } else {
      assert (a + b)[1..] == a[1..] + b;
      KeptDiffConcat(a[1..], b);
    }
  }

  /** Exclusion keeps every other entry, as often as it is listed. */
  lemma {:induction false} KeptCounts(entries: seq<DiffEntry>, e: DiffEntry)
    ensures multiset(KeptDiff(entries))[e] == if ExcludedEntry(e) then 0 else multiset(entries)[e]
  {
    hide ExcludedEntry;
    if entries != [] {
      assert entries == [entries[0]] + entries[1..];
      KeptCounts(entries[1..], e);
    }
  }

  ghost predicate SameRows(ra: Result<seq<Row>>, rb: Result<seq<Row>>) {
    ra.Success? == rb.Success? && (ra.Success? ==> multiset(ra.value) == multiset(rb.value))
  }

  lemma DiffRowsToFront(sha: string -> string, blobs: map<string, string>, front: seq<DiffEntry>, e: DiffEntry, back: seq<DiffEntry>)
    ensures SameRows(DiffRows(sha, blobs, front + ([e] + back)), DiffRows(sha, blobs, [e] + (front + back)))
  {
    hide DiffRows;
    DiffRowsConcat(sha, blobs, [e], front + back);
    DiffRowsConcat(sha, blobs, front, back);
    DiffRowsConcat(sha, blobs, [e], back);
    DiffRowsConcat(sha, blobs, front, [e] + back);
  }

  lemma DiffRowsSameHead(sha: string -> string, blobs: map<string, string>, e: DiffEntry, a: seq<DiffEntry>, b: seq<DiffEntry>)
    requires SameRows(DiffRows(sha, blobs, a), DiffRows(sha, blobs, b))
    ensures SameRows(DiffRows(sha, blobs, [e] + a), DiffRows(sha, blobs, [e] + b))
  {
    hide DiffRows;
    DiffRowsConcat(sha, blobs, [e], a);
    DiffRowsConcat(sha, blobs, [e], b);
  }

  lemma SameRowsRefl(r: Result<seq<Row>>)
    ensures SameRows(r, r)
  {
  }

  lemma SameRowsTrans(ra: Result<seq<Row>>, rb: Result<seq<Row>>, rc: Result<seq<Row>>)
    requires SameRows(ra, rb) && SameRows(rc, rb)
    ensures SameRows(ra, rc)
  {
  }

  lemma TakeOut(e: DiffEntry, rest: seq<DiffEntry>, b: seq<DiffEntry>) returns (front: seq<DiffEntry>, back: seq<DiffEntry>)
    requires multiset([e] + rest) == multiset(b)
    ensures b == front + ([e] + back) && multiset(front + back) == multiset(rest)
  {
    assert e in multiset([e] + rest);
    var k :| 0 <= k < |b| && b[k] == e;
    front, back := b[..k], b[k + 1..];
    assert b == front + ([e] + back);
    assert multiset(b) == multiset(front + back) + multiset{e};
    TailBag([e] + rest);
  }

  lemma {:induction false} DiffRowsPermuted(sha: string -> string, blobs: map<string, string>, a: seq<DiffEntry>, b: seq<DiffEntry>)
    requires multiset(a) == multiset(b)
    ensures SameRows(DiffRows(sha, blobs, a), DiffRows(sha, blobs, b))
    decreases |a|
  {
    hide DiffRows, SameRows;
    if a == [] {
      assert |b| == |multiset(b)| == |multiset(a)| == 0;
      SameRowsRefl(DiffRows(sha, blobs, []));
    } else {
      var e, rest := a[0], a[1..];
      assert a == [e] + rest;
      var front, back := TakeOut(e, rest, b);
      DiffRowsPermuted(sha, blobs, rest, front + back);
      DiffRowsSameHead(sha, blobs, e, rest, front + back);
      DiffRowsToFront(sha, blobs, front, e, back);
      SameRowsTrans(DiffRows(sha, blobs, a), DiffRows(sha, blobs, [e] + (front + back)), DiffRows(sha, blobs, b));
    }
  }

  lemma SameIds(a: seq<DiffEntry>, b: seq<DiffEntry>)
    requires multiset(a) == multiset(b)
    ensures DiffIds(a) <= DiffIds(b)
  {
    forall i | 0 <= i < |a| ensures a[i] in b {
      assert a[i] in multiset(b);
    }
  }

  /** The stream, or its failure, depends only on how often each kept entry is listed. */
  lemma KeptDecideStream(sha: string -> string, a: seq<DiffEntry>, b: seq<DiffEntry>, output: string)
    requires multiset(KeptDiff(a)) == multiset(KeptDiff(b))
    ensures DiffStream(sha, a, output) == DiffStream(sha, b, output)
  {
    hide BlobsOf, Stream, SortRows, DiffRows, KeptDiff, DiffIds;
    var ka, kb := KeptDiff(a), KeptDiff(b);
    SameIds(ka, kb);
    SameIds(kb, ka);
    assert DiffIds(ka) == DiffIds(kb);
    var blobs := BlobsOf(DiffIds(ka), output);
    if blobs.Success? {
      DiffRowsPermuted(sha, blobs.value, ka, kb);
      var ra, rb := DiffRows(sha, blobs.value, ka), DiffRows(sha, blobs.value, kb);
      if ra.Success? {
        SortRowsIff(ra.value, rb.value);
      }
    }
  }

  /**
   Whatever order Git lists the entries in, and whatever happens to numbered manifests: two listings
   with the same other entries, each as often, have one stream or fail together.
   */
  lemma ManifestEditsInvisible(sha: string -> string, a: seq<DiffEntry>, b: seq<DiffEntry>, output: string)
    requires forall e :: !ExcludedEntry(e) ==> multiset(a)[e] == multiset(b)[e]
    ensures DiffStream(sha, a, output) == DiffStream(sha, b, output)
  {
    hide ExcludedEntry, KeptDiff, DiffStream;
    forall e ensures multiset(KeptDiff(a))[e] == multiset(KeptDiff(b))[e] {
      KeptCounts(a, e);
      KeptCounts(b, e);
    }
    KeptDecideStream(sha, a, b, output);
  }

  // ----- What the records hold

  /** The digest of one side: nothing for a side that does not exist, else of the bytes of its object. */
  ghost function Digest(sha: string -> string, store: map<string, string>, id: string): string {
    if id != "" && id in store then sha(store[id]) else ""
  }

  ghost function ContentRow(sha: string -> string, store: map<string, string>, e: DiffEntry): Row {
    [e.status, e.oldPath, e.newPath, e.oldMode, e.newMode, Digest(sha, store, e.oldId), Digest(sha, store, e.newId)]
  }

  /** The records of all entries that are not excluded. */
  ghost function ContentRows(sha: string -> string, store: map<string, string>, entries: seq<DiffEntry>): seq<Row> {
    if entries == [] then []
    else (if ExcludedEntry(entries[0]) then [] else [ContentRow(sha, store, entries[0])]) + ContentRows(sha, store, entries[1..])
  }

  /** The store has exactly the objects of the entries that are not excluded. */
  ghost predicate Stores(store: map<string, string>, entries: seq<DiffEntry>) {
    && Objects(store)
    && (forall id :: id in store <==>
          id != "" && exists i :: 0 <= i < |entries| && !ExcludedEntry(entries[i]) && (entries[i].oldId == id || entries[i].newId == id))
  }

  lemma {:induction false} KeptMembers(entries: seq<DiffEntry>, e: DiffEntry)
    ensures e in KeptDiff(entries) <==> e in entries && !ExcludedEntry(e)
  {
    hide ExcludedEntry;
    KeptCounts(entries, e);
    assert e in KeptDiff(entries) <==> multiset(KeptDiff(entries))[e] > 0;
    assert e in entries <==> multiset(entries)[e] > 0;
  }

  lemma StoredIds(store: map<string, string>, entries: seq<DiffEntry>)
    requires Stores(store, entries)
    ensures DiffIds(KeptDiff(entries)) == store.Keys && "" !in store
  {
    hide ExcludedEntry, KeptDiff, Objects;
    var kept := KeptDiff(entries);
    forall id | id in DiffIds(kept) ensures id in store {
      var i :| 0 <= i < |kept| && id != "" && (kept[i].oldId == id || kept[i].newId == id);
      KeptMembers(entries, kept[i]);
      var j :| 0 <= j < |entries| && entries[j] == kept[i];
    }
    forall id | id in store ensures id in DiffIds(kept) {
      var i :| 0 <= i < |entries| && !ExcludedEntry(entries[i]) && (entries[i].oldId == id || entries[i].newId == id);
      KeptMembers(entries, entries[i]);
      var j :| 0 <= j < |kept| && kept[j] == entries[i];
    }
  }

  lemma {:induction false} RowsHold(sha: string -> string, store: map<string, string>, entries: seq<DiffEntry>)
    requires "" !in store
    requires forall e :: e in KeptDiff(entries) ==> (e.oldId == "" || e.oldId in store) && (e.newId == "" || e.newId in store)
    ensures DiffRows(sha, store, KeptDiff(entries)) == Success(ContentRows(sha, store, entries))
  {
    hide ExcludedEntry;
    if entries != [] {
      assert forall e :: e in KeptDiff(entries[1..]) ==> e in KeptDiff(entries);
      RowsHold(sha, store, entries[1..]);
      if ExcludedEntry(entries[0]) {
        assert KeptDiff(entries) == KeptDiff(entries[1..]);
        assert ContentRows(sha, store, entries) == ContentRows(sha, store, entries[1..]);
      } else {
        var kept := KeptDiff(entries);
        assert kept == [entries[0]] + KeptDiff(entries[1..]) && kept[0] == entries[0] && kept[1..] == KeptDiff(entries[1..]);
        assert entries[0] in kept;
      }
    }
  }

  /** For the batch that Git writes, the records of a diff hold the digests of the contents on both sides. */
  lemma RowsOfStore(sha: string -> string, entries: seq<DiffEntry>, store: map<string, string>)
    requires Stores(store, entries)
    ensures RowsOf(sha, entries, Batch(store)) == Success(ContentRows(sha, store, entries))
  {
    StoredIds(store, entries);
    ReadBlobsInverts(store);
    hide BlobsOf, Batch, DiffRows, ContentRows, Stores;
    var kept := KeptDiff(entries);
    forall e | e in kept ensures (e.oldId == "" || e.oldId in store) && (e.newId == "" || e.newId in store) {
      var i :| 0 <= i < |kept| && kept[i] == e;
      assert e.oldId != "" ==> e.oldId in DiffIds(kept);
      assert e.newId != "" ==> e.newId in DiffIds(kept);
    }
    RowsHold(sha, store, entries);
  }

  lemma {:induction false} ContentArity(sha: string -> string, store: map<string, string>, entries: seq<DiffEntry>)
    ensures Arity(ContentRows(sha, store, entries), 7)
  {
    hide ExcludedEntry;
    if entries != [] {
      ContentArity(sha, store, entries[1..]);
    }
  }

  /**
   For the batch that Git writes, the hashed bytes are the domain and then the records of the entries that
   are not excluded, in tuple order; there are no such bytes exactly if a field is too long for its length.
   */
  lemma DiffStreamReads(sha: string -> string, entries: seq<DiffEntry>, store: map<string, string>) returns (rows: seq<Row>)
    requires Stores(store, entries)
    ensures multiset(rows) == multiset(ContentRows(sha, store, entries)) && RowsAscend(rows)
    ensures var stream := DiffStream(sha, entries, Batch(store));
            && (stream.Success? <==> forall i :: 0 <= i < |rows| ==> Short(rows[i]))
            && (stream.Success? ==> var n := |"fkst-semantic-diff-v1"|;
                                    && "fkst-semantic-diff-v1" <= stream.value
                                    && ReadRecords(stream.value[n..], 7) == Some(rows))
  {
    hide Stream, RowsOf, Stores, ContentRows, Batch, RowLe, ReadRecords, Short, SortRows;
    RowsOfStore(sha, entries, store);
    var unsorted := ContentRows(sha, store, entries);
    rows := SortRows(unsorted);
    SortRowsAscend(unsorted);
    ContentArity(sha, store, entries);
    SortedArity(unsorted, 7);
    StreamReadsBack(rows, 7);
    var stream := DiffStream(sha, entries, Batch(store));
    if stream.Success? {
      assert stream.value[|DIFF_DOMAIN|..] == Stream(rows).value;
    }
  }

  lemma {:induction false} ContentRowIn(sha: string -> string, store: map<string, string>, entries: seq<DiffEntry>, row: Row)
    ensures row in ContentRows(sha, store, entries) <==>
            exists i :: 0 <= i < |entries| && !ExcludedEntry(entries[i]) && row == ContentRow(sha, store, entries[i])
  {
    hide ExcludedEntry, ContentRow;
    if entries != [] {
      ContentRowIn(sha, store, entries[1..], row);
      assert entries == [entries[0]] + entries[1..];
      assert forall i :: 0 <= i < |entries[1..]| ==> entries[1..][i] == entries[i + 1];
    }
  }

  /** Two listings of the same changes, with possibly different objects. */
  ghost predicate SameShape(a: seq<DiffEntry>, b: seq<DiffEntry>) {
    && |a| == |b|
    && forall i :: 0 <= i < |a| ==>
         && a[i].status == b[i].status && a[i].oldPath == b[i].oldPath && a[i].newPath == b[i].newPath
         && a[i].oldMode == b[i].oldMode && a[i].newMode == b[i].newMode
  }

  ghost predicate DistinctChanges(a: seq<DiffEntry>) {
    forall i, j :: 0 <= i < j < |a| ==> a[i].oldPath != a[j].oldPath || a[i].newPath != a[j].newPath
  }

  ghost predicate SameContents(sha: string -> string, a: seq<DiffEntry>, sa: map<string, string>, b: seq<DiffEntry>, sb: map<string, string>)
    requires |a| == |b|
  {
    forall i :: 0 <= i < |a| && !ExcludedEntry(a[i]) ==>
      Digest(sha, sa, a[i].oldId) == Digest(sha, sb, b[i].oldId) && Digest(sha, sa, a[i].newId) == Digest(sha, sb, b[i].newId)
  }

  lemma {:induction false} SameContentsSameRows(sha: string -> string, a: seq<DiffEntry>, sa: map<string, string>, b: seq<DiffEntry>, sb: map<string, string>)
    requires SameShape(a, b) && SameContents(sha, a, sa, b, sb)
    ensures ContentRows(sha, sa, a) == ContentRows(sha, sb, b)
  {
    hide IsManifest, Digest;
    if a != [] {
      assert forall i :: 0 <= i < |a[1..]| ==> a[1..][i] == a[i + 1] && b[1..][i] == b[i + 1];
      SameContentsSameRows(sha, a[1..], sa, b[1..], sb);
      assert ExcludedEntry(a[0]) == ExcludedEntry(b[0]);
    }
  }

  lemma EqualRowsSameContents(sha: string -> string, a: seq<DiffEntry>, sa: map<string, string>, b: seq<DiffEntry>, sb: map<string, string>)
    requires SameShape(a, b) && DistinctChanges(a)
    requires multiset(ContentRows(sha, sa, a)) == multiset(ContentRows(sha, sb, b))
    ensures SameContents(sha, a, sa, b, sb)
  {
    hide ContentRows, ExcludedEntry, Digest;
    forall i | 0 <= i < |a| && !ExcludedEntry(a[i])
      ensures Digest(sha, sa, a[i].oldId) == Digest(sha, sb, b[i].oldId) && Digest(sha, sa, a[i].newId) == Digest(sha, sb, b[i].newId)
    {
      var row := ContentRow(sha, sa, a[i]);
      ContentRowIn(sha, sa, a, row);
      assert row in multiset(ContentRows(sha, sb, b));
      ContentRowIn(sha, sb, b, row);
      var j :| 0 <= j < |b| && !ExcludedEntry(b[j]) && row == ContentRow(sha, sb, b[j]);
      var other := ContentRow(sha, sb, b[j]);
      assert row[1] == other[1] && row[2] == other[2] && row[5] == other[5] && row[6] == other[6];
      assert i == j;
    }
  }

  /**
   Two diffs of the same changes have equal streams exactly when, for every entry that is not excluded,
   both sides have contents of equal digests: a changed content with another digest is always visible.
   */
  lemma ContentsDecideStream(sha: string -> string, a: seq<DiffEntry>, sa: map<string, string>, b: seq<DiffEntry>, sb: map<string, string>)
    requires Stores(sa, a) && Stores(sb, b) && SameShape(a, b) && DistinctChanges(a)
    requires DiffStream(sha, a, Batch(sa)).Success? && DiffStream(sha, b, Batch(sb)).Success?
    ensures DiffStream(sha, a, Batch(sa)) == DiffStream(sha, b, Batch(sb)) <==> SameContents(sha, a, sa, b, sb)
  {
    hide DiffStream, RowsOf, ContentRows, Stores, SameContents, SameShape, DistinctChanges, Batch;
    RowsOfStore(sha, a, sa);
    RowsOfStore(sha, b, sb);
    DiffStreamIff(sha, a, b, Batch(sa), Batch(sb));
    assert |a| == |b| by { ShapeLength(a, b); }
    if SameContents(sha, a, sa, b, sb) {
      SameContentsSameRows(sha, a, sa, b, sb);
    }
    if DiffStream(sha, a, Batch(sa)) == DiffStream(sha, b, Batch(sb)) {
      EqualRowsSameContents(sha, a, sa, b, sb);
    }
  }

  lemma ShapeLength(a: seq<DiffEntry>, b: seq<DiffEntry>)
    requires SameShape(a, b)
    ensures |a| == |b|
  {
  }

  /** A tree stream is never a diff stream. */
  lemma DomainsSeparate(sha: string -> string, entries: seq<TreeEntry>, outA: string, diff: seq<DiffEntry>, outB: string)
    requires TreeStream(sha, entries, outA).Success? && DiffStream(sha, diff, outB).Success?
    ensures TreeStream(sha, entries, outA) != DiffStream(sha, diff, outB)
  {
    hide BlobsOf, Stream, SortRows, SortKeyed, KeptEntries, KeptDiff, RowsOf, TreeRecords;
    var k := 14;
    assert TREE_DOMAIN[k] == 't' && DIFF_DOMAIN[k] == 'd';
    assert TreeStream(sha, entries, outA).value[k] == 't' && DiffStream(sha, diff, outB).value[k] == 'd';
  }

  // ----- The loops of `semantic_diff_sha256`

  method SemanticDiffBytes(sha: string -> string, entries: seq<DiffEntry>, output: string) returns (r: Result<string>)
    ensures r == DiffStream(sha, entries, output)
  {
    hide BlobsOf, Stream, SortRows, SideHash, ExcludedEntry;
    var kept: seq<DiffEntry> := [];
    for i := 0 to |entries|
      invariant kept == KeptDiff(entries[..i])
    {
      KeptDiffConcat(entries[..i], [entries[i]]);
      assert entries[..i + 1] == entries[..i] + [entries[i]];
      KeptOne(entries[i]);
      if ExcludedEntry(entries[i]) {
        assert kept + [] == kept;
        continue;
      }
      kept := kept + [entries[i]];
    }
    assert entries[..|entries|] == entries;
    var blobs := ReadBlobs(DiffIds(kept), output);
    if blobs.Failure? {
      return Failure;
    }
    var rows := BuildRows(sha, blobs.value, kept);
    if rows.Failure? {
      return Failure;
    }
    var stream := Stream(SortRows(rows.value));
    if stream.Failure? {
      return Failure;
    }
    return Success(DIFF_DOMAIN + stream.value);
  }

  method BuildRows(sha: string -> string, blobs: map<string, string>, entries: seq<DiffEntry>) returns (r: Result<seq<Row>>)
    ensures r == DiffRows(sha, blobs, entries)
  {
    hide SideHash, DiffRows;
    DiffRowsNone(sha, blobs);
    var rows: seq<Row> := [];
    for i := 0 to |entries|
      invariant DiffRows(sha, blobs, entries[..i]) == Success(rows)
    {
      var e := entries[i];
      assert entries == entries[..i] + ([e] + entries[i + 1..]);
      DiffRowsConcat(sha, blobs, entries[..i], [e] + entries[i + 1..]);
      DiffRowsConcat(sha, blobs, [e], entries[i + 1..]);
      DiffRowsOne(sha, blobs, e);
      var oldHash := SideHash(sha, blobs, e.oldId);
      var newHash := SideHash(sha, blobs, e.newId);
      if oldHash.Failure? || newHash.Failure? {
        return Failure;
      }
      assert entries[..i + 1] == entries[..i] + [e];
      DiffRowsConcat(sha, blobs, entries[..i], [e]);
      rows := rows + [[e.status, e.oldPath, e.newPath, e.oldMode, e.newMode, oldHash.value, newHash.value]];
    }
    assert entries[..|entries|] == entries;
    return Success(rows);
  }

  lemma KeptOne(e: DiffEntry)
    ensures KeptDiff([e]) == if ExcludedEntry(e) then [] else [e]
  {
    hide ExcludedEntry;
    assert [e][1..] == [];
  }

  lemma DiffRowsNone(sha: string -> string, blobs: map<string, string>)
    ensures DiffRows(sha, blobs, []) == Success([])
  {
  }

  lemma DiffRowsOne(sha: string -> string, blobs: map<string, string>, e: DiffEntry)
    ensures var a, b := SideHash(sha, blobs, e.oldId), SideHash(sha, blobs, e.newId);
            DiffRows(sha, blobs, [e]) ==
              if a.Failure? || b.Failure? then Failure
              else Success([[e.status, e.oldPath, e.newPath, e.oldMode, e.newMode, a.value, b.value]])
  {
    hide SideHash;
    assert [e][1..] == [];
    assert DiffRows(sha, blobs, []) == Success([]);
    var a, b := SideHash(sha, blobs, e.oldId), SideHash(sha, blobs, e.newId);
    if a.Success? && b.Success? {
      var row := [e.status, e.oldPath, e.newPath, e.oldMode, e.newMode, a.value, b.value];
      assert [row] + [] == [row];
    }
  }

  ghost function Joined(ra: Result<seq<Row>>, rb: Result<seq<Row>>): Result<seq<Row>> {
    if ra.Failure? || rb.Failure? then Failure else Success(ra.value + rb.value)
  }

  lemma JoinedAssoc(ra: Result<seq<Row>>, rb: Result<seq<Row>>, rc: Result<seq<Row>>)
    ensures Joined(ra, Joined(rb, rc)) == Joined(Joined(ra, rb), rc)
    ensures Joined(Success([]), rc) == rc
  {
    if ra.Success? && rb.Success? && rc.Success? {
      assert ra.value + (rb.value + rc.value) == ra.value + rb.value + rc.value;
    }
    if rc.Success? {
      assert [] + rc.value == rc.value;
    }
  }

  lemma DiffRowsStep(sha: string -> string, blobs: map<string, string>, entries: seq<DiffEntry>)
    requires entries != []
    ensures DiffRows(sha, blobs, entries) == Joined(DiffRows(sha, blobs, [entries[0]]), DiffRows(sha, blobs, entries[1..]))
  {
    DiffRowsOne(sha, blobs, entries[0]);
    hide SideHash;
  }

  lemma {:induction false} DiffRowsConcat(sha: string -> string, blobs: map<string, string>, a: seq<DiffEntry>, b: seq<DiffEntry>)
    ensures DiffRows(sha, blobs, a + b) == Joined(DiffRows(sha, blobs, a), DiffRows(sha, blobs, b))
  {
    hide DiffRows;
    if a == [] {
      assert a + b == b;
      DiffRowsNone(sha, blobs);
      JoinedAssoc(Failure, Failure, DiffRows(sha, blobs, b));
    } else {
      hide Joined;
      assert (a + b)[1..] == a[1..] + b && (a + b)[0] == a[0];
      DiffRowsStep(sha, blobs, a + b);
      DiffRowsStep(sha, blobs, a);
      DiffRowsConcat(sha, blobs, a[1..], b);
      JoinedAssoc(DiffRows(sha, blobs, [a[0]]), DiffRows(sha, blobs, a[1..]), DiffRows(sha, blobs, b));
    }
  }
}
