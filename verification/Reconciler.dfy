/**
 `reconcile_ratchet` of packages/github-ratchet-migration-slicer/tools/ratchet_migration_slicer.py
 with one-site slices: the texts it writes and searches, the ledger it reads, and one undisturbed run.
 */
module Reconciler {
  import opened Digits
  import opened GitBatch
  import opened Markers
  import opened Results
  import opened Strings

  // ----- GitHub state

  datatype Issue = Issue(open: bool, author: Option<string>, body: string)

  datatype Comment = Comment(author: Option<string>, body: string, created: Option<int>)

  /** The child issues of the repository and the parent issue of the ratchet. */
  datatype World = World(issues: map<nat, Issue>, parentOpen: bool, comments: seq<Comment>)

  function Bare(login: string): string {
    var n := |login| - 5;
    if n >= 0 && login[n..] == "[bot]" then login[..n] else login
  }

  /** `is_trusted_record`; an empty `bot` stands for an unset login, which trusts everyone. */
  predicate IsTrusted(author: Option<string>, bot: string) {
    bot == "" || (author.Some? && Bare(author.value) == Bare(bot))
  }

  // ----- Slices and their markers

  /** The ratchet: its name, parent issue, allowlist path and schema. */
  datatype Spec = Spec(ratchet: string, parent: nat, allowlistPath: string, schema: string)

  datatype Slice = Slice(entryKey: string, fingerprint: string, childText: string)

  /** The text of a hex digest. */
  predicate IsHex(s: string) {
    s != "" && forall i :: 0 <= i < |s| ==> '0' <= s[i] <= '9' || 'a' <= s[i] <= 'f'
  }

  /** What a run derives from the first inventory site: two digests and the text of the child issue. */
  type Doc = d: Slice | IsHex(d.entryKey) && IsHex(d.fingerprint) witness Slice("0", "0", "")

  const SLICE_HEAD := "<!-- fkst:ratchet-slice:v1"
  const OPENER := SLICE_HEAD + " "
  const CREATED_HEAD := "<!-- fkst:github-proxy:issue-created:v1"
  const INTENT_HEAD := "<!-- fkst:github-proxy:issue-create-intent:v1"

  function DedupKey(spec: Spec, doc: Doc): string {
    spec.ratchet + "/slice/" + doc.fingerprint
  }

  function SliceAttrs(spec: Spec, doc: Doc): seq<Attr> {
    [Attr("schema", spec.schema),
     Attr("ratchet", spec.ratchet),
     Attr("parent", NatText(spec.parent)),
     Attr("dedup", DedupKey(spec, doc)),
     Attr("fingerprint", doc.fingerprint),
     Attr("allowlist_path", spec.allowlistPath),
     Attr("entry_key", doc.entryKey),
     Attr("generation", "1"),
     Attr("coord_ref", "refs/fkst/migration-slices/" + doc.entryKey),
     Attr("entries", doc.entryKey)]
  }

  function SliceMarker(spec: Spec, doc: Doc): string {
    MarkerText(SLICE_HEAD, SliceAttrs(spec, doc))
  }

  function CreateMarker(key: string): string {
    "<!-- fkst:github-proxy:issue-create:" + key + " -->"
  }

  function IntentMarker(key: string): string {
    MarkerText(INTENT_HEAD, [Attr("dedup", key)])
  }

  function CreatedAttrs(key: string, issue: Option<nat>): seq<Attr> {
    [Attr("dedup", key), Attr("issue", if issue.None? then "unknown" else NatText(issue.value))]
  }

  function CreatedMarker(key: string, issue: Option<nat>): string {
    MarkerText(CREATED_HEAD, CreatedAttrs(key, issue))
  }

  /** The body above the slice marker. */
  function BodyHead(spec: Spec, doc: Doc): string {
    doc.childText + "\n" + CreateMarker(DedupKey(spec, doc)) + "\n"
  }

  function IssueBody(spec: Spec, doc: Doc): string {
    BodyHead(spec, doc) + (SliceMarker(spec, doc) + "\n")
  }

  /** The set of keys in an `entries` attribute. */
  function EntryKeys(entries: string): set<string> {
    set i | 0 <= i < |Split(entries, ',')| && Split(entries, ',')[i] != "" :: Split(entries, ',')[i]
  }

  function MarkerOverlaps(marker: string, ratchet: string, key: string): bool {
    MarkerAttribute(marker, "ratchet") == Some(ratchet)
    && match MarkerAttribute(marker, "entries")
       case None => true
       case Some(entries) => key in EntryKeys(entries)
  }

  function AnyOverlaps(markers: seq<string>, ratchet: string, key: string): bool {
    if markers == [] then false
    else MarkerOverlaps(markers[0], ratchet, key) || AnyOverlaps(markers[1..], ratchet, key)
  }

  /** `slice_overlaps_entry` for the single key of a one-site slice. */
  function Claims(body: string, ratchet: string, key: string): bool {
    AnyOverlaps(FindMarkers(OPENER, body, 0), ratchet, key)
  }

  method SliceOverlapsEntry(body: string, ratchet: string, key: string) returns (r: bool)
    ensures r == Claims(body, ratchet, key)
  {
    hide MarkerOverlaps, FindMarkers;
    var markers := FindMarkers(OPENER, body, 0);
    assert markers[0..] == markers;
    for i := 0 to |markers|
      invariant Claims(body, ratchet, key) == AnyOverlaps(markers[i..], ratchet, key)
    {
      assert markers[i..][0] == markers[i] && markers[i..][1..] == markers[i + 1..];
      if MarkerAttribute(markers[i], "ratchet") != Some(ratchet) {
        OtherRatchet(markers[i], ratchet, key);
        continue;
      }
      var keys := MarkerAttribute(markers[i], "entries");
      SameRatchet(markers[i], ratchet, key);
      if keys.None? {
        return true;
      }
      if key in EntryKeys(keys.value) {
        return true;
      }
    }
    return false;
  }

  lemma OtherRatchet(marker: string, ratchet: string, key: string)
    requires MarkerAttribute(marker, "ratchet") != Some(ratchet)
    ensures !MarkerOverlaps(marker, ratchet, key)
  {
  }

  lemma SameRatchet(marker: string, ratchet: string, key: string)
    requires MarkerAttribute(marker, "ratchet") == Some(ratchet)
    ensures var e := MarkerAttribute(marker, "entries");
            MarkerOverlaps(marker, ratchet, key) <==> e.None? || key in EntryKeys(e.value)
  {
  }

  // ----- What the written texts mean to the readers

  /** `ensure_marker_value` accepts the text; for any other it raises. */
  predicate Accepted(s: string) {
    s != "" && SafeValue(s)
  }

  /** `ratchet_slice_marker` raises nothing. */
  predicate SafeMarker(spec: Spec, doc: Doc) {
    && Accepted(spec.schema)
    && Accepted(spec.ratchet)
    && Accepted(DedupKey(spec, doc))
    && Accepted(doc.fingerprint)
    && Accepted(spec.allowlistPath)
    && Accepted(doc.entryKey)
  }

  lemma HexIsSafe(s: string)
    requires IsHex(s)
    ensures Accepted(s) && Lacks(s, ',')
  {
  }

  lemma SafeConcat(a: string, b: string)
    requires SafeValue(a) && SafeValue(b)
    ensures SafeValue(a + b)
  {
  }

  lemma SafeDigits(s: string)
    requires AllDigits(s)
    ensures SafeValue(s)
  {
  }

  lemma SliceAttrsClean(spec: Spec, doc: Doc)
    requires SafeMarker(spec, doc)
    ensures forall i :: 0 <= i < |SliceAttrs(spec, doc)| ==> CleanAttr(SliceAttrs(spec, doc)[i])
  {
    hide SafeValue;
    SafeLiterals();
    SafeConcat("refs/fkst/migration-slices/", doc.entryKey);
    SafeDigits(NatText(spec.parent));
    SliceNames(spec, doc);
  }

  lemma SafeLiterals()
    ensures SafeValue("1") && SafeValue("refs/fkst/migration-slices/") && SafeValue("unknown")
  {
  }

  lemma SliceName(n: string)
    requires n in ["schema", "ratchet", "parent", "dedup", "fingerprint", "allowlist_path", "entry_key", "generation", "coord_ref", "entries"]
    ensures n != "" && forall k :: 0 <= k < |n| ==> IsWord(n[k])
  {
  }

  lemma SliceNames(spec: Spec, doc: Doc)
    ensures forall i :: 0 <= i < |SliceAttrs(spec, doc)| ==>
              var n := SliceAttrs(spec, doc)[i].name; n != "" && forall k :: 0 <= k < |n| ==> IsWord(n[k])
  {
    var attrs := SliceAttrs(spec, doc);
    forall i | 0 <= i < |attrs| ensures attrs[i].name != "" && forall k :: 0 <= k < |attrs[i].name| ==> IsWord(attrs[i].name[k]) {
      SliceName(attrs[i].name);
    }
  }

  lemma HeadIsClean()
    ensures Lacks(SLICE_HEAD, '=') && Lacks(SLICE_HEAD, '>') && OneLine(SLICE_HEAD) && OneLine(OPENER)
    ensures Lacks(CREATED_HEAD, '=') && Lacks(CREATED_HEAD, '>') && OneLine(CREATED_HEAD) && OneLine(CREATED_HEAD + " ")
  {
    SliceHeadIsClean();
    CreatedHeadIsClean();
    hide Lacks, OneLine;
  }

  lemma SliceHeadIsClean()
    ensures Lacks(SLICE_HEAD, '=') && Lacks(SLICE_HEAD, '>') && OneLine(SLICE_HEAD) && OneLine(OPENER)
  {
  }

  lemma CreatedHeadIsClean()
    ensures Lacks(CREATED_HEAD, '=') && Lacks(CREATED_HEAD, '>') && OneLine(CREATED_HEAD) && OneLine(CREATED_HEAD + " ")
  {
  }

  lemma SliceMarkerReads(spec: Spec, doc: Doc)
    requires SafeMarker(spec, doc)
    ensures IsMarker(OPENER, SliceMarker(spec, doc))
    ensures MarkerAttribute(SliceMarker(spec, doc), "ratchet") == Some(spec.ratchet)
    ensures MarkerAttribute(SliceMarker(spec, doc), "entries") == Some(doc.entryKey)
  {
    hide FindMarkers, MarkerText, MarkerAttribute, IsMarker, CleanAttr;
    var attrs := SliceAttrs(spec, doc);
    SliceAttrsClean(spec, doc);
    HeadIsClean();
    MarkerIsMarker(SLICE_HEAD, attrs);
    NamesBefore(spec, doc);
    AttributeReads(SLICE_HEAD, attrs, 1);
    AttributeReads(SLICE_HEAD, attrs, 9);
  }

  lemma NamesBefore(spec: Spec, doc: Doc)
    ensures |SliceAttrs(spec, doc)| == 10
    ensures forall j :: 0 <= j < 1 ==> SliceAttrs(spec, doc)[j].name != SliceAttrs(spec, doc)[1].name
    ensures forall j :: 0 <= j < 9 ==> SliceAttrs(spec, doc)[j].name != SliceAttrs(spec, doc)[9].name
  {
    var attrs := SliceAttrs(spec, doc);
    assert attrs[9].name[3] == 'r' && attrs[9].name[4] == 'i' && |attrs[9].name| == 7;
    forall j | 0 <= j < 9 ensures attrs[j].name != attrs[9].name {
      assert attrs[j].name in ["schema", "ratchet", "parent", "dedup", "fingerprint", "allowlist_path", "entry_key", "generation", "coord_ref"];
    }
  }

  lemma SingleEntry(key: string)
    requires key != "" && Lacks(key, ',')
    ensures EntryKeys(key) == {key}
  {
    SplitNone(key, ',');
    hide Split;
    var parts := Split(key, ',');
    assert parts == [key] && parts[0] == key;
    forall k ensures k in EntryKeys(key) <==> k == key {
      if k == key {
        assert 0 <= 0 < |parts| && parts[0] != "" && parts[0] == k;
      }
    }
  }

  lemma {:induction false} AnyOverlapsConcat(a: seq<string>, b: seq<string>, ratchet: string, key: string)
    ensures AnyOverlaps(a + b, ratchet, key) <==> AnyOverlaps(a, ratchet, key) || AnyOverlaps(b, ratchet, key)
  {
    hide MarkerOverlaps;
    if a == [] {
      assert a + b == b;
    } else {
      assert (a + b)[1..] == a[1..] + b;
      AnyOverlapsConcat(a[1..], b, ratchet, key);
    }
  }

  lemma MarkerClaims(spec: Spec, doc: Doc, ratchet: string, key: string)
    requires SafeMarker(spec, doc)
    ensures IsMarker(OPENER, SliceMarker(spec, doc))
    ensures AnyOverlaps([SliceMarker(spec, doc)], ratchet, key) <==> ratchet == spec.ratchet && key == doc.entryKey
  {
    hide SliceMarker, MarkerAttribute, IsMarker, EntryKeys;
    var marker := SliceMarker(spec, doc);
    SliceMarkerReads(spec, doc);
    HexIsSafe(doc.entryKey);
    SingleEntry(doc.entryKey);
    SingleOverlaps(marker, ratchet, key);
    if ratchet == spec.ratchet {
      SameRatchet(marker, ratchet, key);
    } else {
      OtherRatchet(marker, ratchet, key);
    }
  }

  /** The body of a created slice claims its own entry key for its own ratchet, and what the text above the marker claims. */
  lemma IssueBodyClaims(spec: Spec, doc: Doc, ratchet: string, key: string)
    requires SafeMarker(spec, doc)
    ensures Claims(IssueBody(spec, doc), ratchet, key) <==>
            Claims(BodyHead(spec, doc), ratchet, key) || (ratchet == spec.ratchet && key == doc.entryKey)
  {
    hide FindMarkers, SliceMarker, IsMarker, AnyOverlaps;
    var head, marker := BodyHead(spec, doc), SliceMarker(spec, doc);
    MarkerClaims(spec, doc, ratchet, key);
    HeadIsClean();
    FoundInBody(OPENER, head, marker);
    AnyOverlapsConcat(FindMarkers(OPENER, head, 0), [marker], ratchet, key);
  }

  // ----- Child texts without a slice opener

  lemma OpenerFacts()
    ensures OneLine(OPENER) && OPENER != "" && OPENER[0] == '<' && forall k :: 0 < k < |OPENER| ==> OPENER[k] != OPENER[0]
  {
  }

  predicate PlainText(text: string) {
    !Contains(text, OPENER)
  }

  lemma CreateMarkerChars(key: string)
    requires SafeValue(key)
    ensures forall i :: 0 < i < |CreateMarker(key)| ==> CreateMarker(key)[i] != '<'
    ensures |CreateMarker(key)| > 10 && CreateMarker(key)[10] != OPENER[10]
  {
    var front := "<!-- fkst:github-proxy:issue-create:";
    assert CreateMarker(key) == front + key + " -->";
    assert forall i :: 0 < i < |front| ==> front[i] != '<';
    assert front[10] == 'g' && OPENER[10] == 'r';
  }

  /** A text without the opener stays without it above the create marker. */
  lemma PlainBodyHead(spec: Spec, doc: Doc, i: nat)
    requires Accepted(DedupKey(spec, doc)) && PlainText(doc.childText)
    ensures !OccursAt(BodyHead(spec, doc), OPENER, i)
  {
    hide CreateMarker, SafeValue;
    var text, marker := doc.childText, CreateMarker(DedupKey(spec, doc));
    var t := text + "\n" + marker + "\n";
    CreateMarkerChars(DedupKey(spec, doc));
    OpenerFacts();
    OccursChars(t, OPENER, i);
    assert t[|text|] == '\n' && t[|t| - 1] == '\n';
    assert forall k :: 0 <= k < |marker| ==> t[|text| + 1 + k] == marker[k];
    if i <= |text| {
      if i + |OPENER| <= |text| {
        assert t[i..i + |OPENER|] == text[i..i + |OPENER|];
        assert !OccursAt(text, OPENER, i);
      } else if i + |OPENER| <= |t| {
        StartsOneLine(t, OPENER, i, |text|);
      }
    } else if i == |text| + 1 {
      assert t[i + 10] == marker[10];
    } else if i < |t| {
      assert t[i] != '<';
    }
  }

  /** A child text without the opener claims nothing. */
  lemma PlainTextClaimsNothing(spec: Spec, doc: Doc, ratchet: string, key: string)
    requires Accepted(DedupKey(spec, doc)) && PlainText(doc.childText)
    ensures !Claims(BodyHead(spec, doc), ratchet, key)
  {
    hide BodyHead, OccursAt, FindMarkers, MarkerOverlaps, Accepted, PlainText;
    var head := BodyHead(spec, doc);
    forall j: nat | j < |head| ensures !OccursAt(head, OPENER, j) {
      PlainBodyHead(spec, doc, j);
    }
    NothingFound(OPENER, head, 0);
  }

  lemma SingleOverlaps(marker: string, ratchet: string, key: string)
    ensures AnyOverlaps([marker], ratchet, key) <==> MarkerOverlaps(marker, ratchet, key)
  {
    hide MarkerOverlaps;
    assert [marker][1..] == [];
  }

  /** An issue that claims a key also matches the text filters of the open-slice search. */
  lemma ClaimsMatchesSearch(body: string, ratchet: string, key: string)
    requires Claims(body, ratchet, key)
    ensures Contains(body, "fkst:ratchet-slice:v1") && Contains(body, "ratchet=\"" + ratchet + "\"")
  {
    hide FindMarkers, Contains, MarkerOverlaps, MarkerAttribute;
    var markers := FindMarkers(OPENER, body, 0);
    var m := OverlappingMarker(markers, ratchet, key);
    FoundMarkerIsPart(OPENER, body, 0, m);
    HeadContainsName();
    ContainsTrans(m, OPENER, "fkst:ratchet-slice:v1");
    ContainsTrans(body, m, "fkst:ratchet-slice:v1");
    OverlapsRatchet(m, ratchet, key);
    ReadAttributeIsPart(m, "ratchet", 0);
    assert "ratchet" + "=\"" + ratchet + "\"" == "ratchet=\"" + ratchet + "\"";
    ContainsTrans(body, m, "ratchet=\"" + ratchet + "\"");
  }

  lemma OverlapsRatchet(m: string, ratchet: string, key: string)
    requires MarkerOverlaps(m, ratchet, key)
    ensures AttributeFrom(m, "ratchet", 0) == Some(ratchet)
  {
  }

  lemma HeadContainsName()
    ensures Contains(OPENER, "fkst:ratchet-slice:v1")
  {
    var t := OPENER;
    assert t[5..5 + 21] == "fkst:ratchet-slice:v1";
    assert OccursAt(t, "fkst:ratchet-slice:v1", 5);
  }

  lemma {:induction false} OverlappingMarker(markers: seq<string>, ratchet: string, key: string) returns (m: string)
    requires AnyOverlaps(markers, ratchet, key)
    ensures m in markers && MarkerOverlaps(m, ratchet, key)
  {
    hide MarkerOverlaps;
    if MarkerOverlaps(markers[0], ratchet, key) {
      m := markers[0];
    } else {
      m := OverlappingMarker(markers[1..], ratchet, key);
    }
  }

  // ----- The ledger on the parent issue

  const HOLD_SECONDS := 900

  predicate Recent(c: Comment, now: int) {
    c.created.Some? && 0 <= now - c.created.value <= HOLD_SECONDS
  }

  /** One created-marker: an issue number, an unresolved entry (`None`) while it is recent, or nothing. */
  function LedgerEntry(marker: string, key: string, recent: bool): seq<Option<int>> {
    if !Contains(marker, "dedup=\"" + key + "\"") then []
    else
      match MarkerAttribute(marker, "issue")
      case None => if recent then [None] else []
      case Some(text) =>
        match (if text == "unknown" then None else PyInt(text))
        case None => if recent then [None] else []
        case Some(n) => [Some(n)]
  }

  function LedgerEntries(markers: seq<string>, key: string, recent: bool): seq<Option<int>> {
    if markers == [] then []
    else LedgerEntry(markers[0], key, recent) + LedgerEntries(markers[1..], key, recent)
  }

  /** `parent_issue_created_marker_issues` */
  function Ledger(comments: seq<Comment>, key: string, bot: string, now: int): seq<Option<int>> {
    if comments == [] then []
    else
      (if IsTrusted(comments[0].author, bot)
       then LedgerEntries(FindMarkers(CREATED_HEAD + " ", comments[0].body, 0), key, Recent(comments[0], now))
       else [])
      + Ledger(comments[1..], key, bot, now)
  }

  method ParentLedger(comments: seq<Comment>, key: string, bot: string, now: int) returns (issues: seq<Option<int>>)
    ensures issues == Ledger(comments, key, bot, now)
  {
    hide FindMarkers, LedgerEntry, IsTrusted, Recent;
    issues := [];
    assert comments[0..] == comments;
    for i := 0 to |comments|
      invariant Ledger(comments, key, bot, now) == issues + Ledger(comments[i..], key, bot, now)
    {
      var comment := comments[i];
      assert comments[i..][0] == comment && comments[i..][1..] == comments[i + 1..];
      if !IsTrusted(comment.author, bot) {
        continue;
      }
      var markers := FindMarkers(CREATED_HEAD + " ", comment.body, 0);
      var recent := Recent(comment, now);
      ghost var before := issues;
      assert markers[0..] == markers;
      for j := 0 to |markers|
        invariant issues + LedgerEntries(markers[j..], key, recent) == before + LedgerEntries(markers, key, recent)
      {
        assert markers[j..][0] == markers[j] && markers[j..][1..] == markers[j + 1..];
        issues := issues + LedgerEntry(markers[j], key, recent);
      }
      assert issues == before + LedgerEntries(markers, key, recent);
    }
  }

  // ----- One undisturbed run

  datatype Outcome =
    | ParentAlreadyClosed
    | ClosedParent
    | WouldCloseParent
    | HeldByLedger       // an unresolved ledger entry
    | DedupedLedger(number: nat)  // a ledger issue that is not a closed trusted one
    | DedupedInFlight
    | DedupedExisting
    | WouldCreate
    | CreatedSlice(shown: Option<nat>)
    | Aborted            // an exception: no bot login, an unsafe marker value, or a ledger issue that cannot be viewed

  /** The loop over the ledger; `None` lets the run go on. */
  function CheckLedger(ledger: seq<Option<int>>, issues: map<nat, Issue>, bot: string): (r: Option<Outcome>)
    ensures r.Some? ==> r.value.HeldByLedger? || r.value.DedupedLedger? || r.value.Aborted?
  {
    if ledger == [] then None
    else if ledger[0].None? then Some(HeldByLedger)
    else
      var n := ledger[0].value;
      if n < 0 || n !in issues then Some(Aborted)
      else if !IsTrusted(issues[n].author, bot) || issues[n].open then Some(DedupedLedger(n))
      else CheckLedger(ledger[1..], issues, bot)
  }

  /** Issue `n` is open, trusted and claims the entry key. */
  predicate ClaimedBy(issues: map<nat, Issue>, n: nat, spec: Spec, key: string, bot: string) {
    n in issues && issues[n].open && IsTrusted(issues[n].author, bot) && Claims(issues[n].body, spec.ratchet, key)
  }

  predicate OpenClaim(issues: map<nat, Issue>, spec: Spec, key: string, bot: string) {
    exists n :: n in issues && ClaimedBy(issues, n, spec, key, bot)
  }

  /** Issue `n` is open, trusted and carries the create marker of the dedup key. */
  predicate MarkedBy(issues: map<nat, Issue>, n: nat, key: string, bot: string) {
    n in issues && issues[n].open && IsTrusted(issues[n].author, bot) && Contains(issues[n].body, CreateMarker(key))
  }

  predicate OpenExact(issues: map<nat, Issue>, key: string, bot: string) {
    exists n :: n in issues && MarkedBy(issues, n, key, bot)
  }

  predicate HasIntent(comments: seq<Comment>, key: string, bot: string) {
    exists i :: 0 <= i < |comments| && IsTrusted(comments[i].author, bot) && Contains(comments[i].body, IntentMarker(key))
  }

  function PostIntent(w: World, snapshot: seq<Comment>, spec: Spec, doc: Doc, bot: string, now: int): World {
    var key := DedupKey(spec, doc);
    if HasIntent(snapshot, key, bot) then w
    else w.(comments := w.comments + [Comment(Some(bot), IntentMarker(key) + "\n", Some(now))])
  }

  function PostIssue(w: World, spec: Spec, doc: Doc, bot: string, number: nat): World {
    w.(issues := w.issues[number := Issue(true, Some(bot), IssueBody(spec, doc))])
  }

  function PostLedger(w: World, spec: Spec, doc: Doc, bot: string, now: int, reply: Option<nat>): World {
    w.(comments := w.comments + [Comment(Some(bot), CreatedMarker(DedupKey(spec, doc), reply) + "\n", Some(now))])
  }

  /** What GitHub answers to a create: the new number, and whether `gh` printed it. */
  datatype Reply = Reply(number: nat, printed: bool) {
    function Shown(): Option<nat> {
      if printed then Some(number) else None
    }
  }

  /** How a run on the slice `doc` ends before it writes anything; `None` if it goes on to write. */
  function Decide(spec: Spec, doc: Doc, w: World, bot: string, writes: bool, now: int): Option<Outcome> {
    var key := DedupKey(spec, doc);
    if !Accepted(key) then Some(Aborted)
    else
      match CheckLedger(Ledger(w.comments, key, bot, now), w.issues, bot)
      case Some(outcome) => Some(outcome)
      case None =>
        if !Accepted(spec.ratchet) then Some(Aborted)
        else if OpenClaim(w.issues, spec, doc.entryKey, bot) then Some(DedupedInFlight)
        else if OpenExact(w.issues, key, bot) then Some(DedupedExisting)
        else if !writes then Some(WouldCreate)
        else None
  }

  /** An undisturbed run: the new state and the outcome. */
  function Run(spec: Spec, doc: Option<Doc>, w: World, bot: string, writes: bool, now: int, reply: Reply): (World, Outcome) {
    if writes && bot == "" then (w, Aborted)
    else if doc.None? then
      if !w.parentOpen then (w, ParentAlreadyClosed)
      else if writes then (w.(parentOpen := false), ClosedParent)
      else (w, WouldCloseParent)
    else
      match Decide(spec, doc.value, w, bot, writes, now)
      case Some(outcome) => (w, outcome)
      case None =>
        var w1 := PostIntent(w, w.comments, spec, doc.value, bot, now);
        if !SafeMarker(spec, doc.value) then (w1, Aborted)
        else
          var w2 := PostIssue(w1, spec, doc.value, bot, reply.number);
          (PostLedger(w2, spec, doc.value, bot, now, reply.Shown()), CreatedSlice(reply.Shown()))
  }

  /** The repository behind the `gh` client. */
  class Github {
    var issues: map<nat, Issue>
    var parentOpen: bool
    var comments: seq<Comment>

    ghost function View(): World
      reads this
    {
      World(issues, parentOpen, comments)
    }

    constructor (w: World)
      ensures View() == w
    {
      issues, parentOpen, comments := w.issues, w.parentOpen, w.comments;
    }

    /** `found` is the number of the issue that a search came back with, in whatever order GitHub listed its results. */
    method Reconcile(spec: Spec, doc: Option<Doc>, bot: string, writes: bool, now: int, reply: Reply) returns (outcome: Outcome, found: Option<nat>)
      modifies this
      ensures (View(), outcome) == Run(spec, doc, old(View()), bot, writes, now, reply)
      ensures found.Some? <==> outcome == DedupedInFlight || outcome == DedupedExisting
      ensures outcome == DedupedInFlight ==> doc.Some? && ClaimedBy(issues, found.value, spec, doc.value.entryKey, bot)
      ensures outcome == DedupedExisting ==> doc.Some? && MarkedBy(issues, found.value, DedupKey(spec, doc.value), bot)
    {
      hide Ledger, ClaimedBy, MarkedBy, HasIntent, IsTrusted, SafeMarker, Accepted;
      found := None;
      if writes && bot == "" {
        return Aborted, None;
      }
      var parentComments := comments;
      if doc.None? {
        if !parentOpen {
          return ParentAlreadyClosed, None;
        }
        if writes {
          parentOpen := false;
          return ClosedParent, None;
        }
        return WouldCloseParent, None;
      }
      var slice := doc.value;
      var key := DedupKey(spec, slice);
      if !Accepted(key) {
        return Aborted, None;
      }
      var ledger := ParentLedger(parentComments, key, bot, now);
      assert ledger[0..] == ledger;
      for i := 0 to |ledger|
        invariant View() == old(View())
        invariant CheckLedger(ledger, issues, bot) == CheckLedger(ledger[i..], issues, bot)
      {
        assert ledger[i..][0] == ledger[i] && ledger[i..][1..] == ledger[i + 1..];
        if ledger[i].None? {
          return HeldByLedger, None;
        }
        var number := ledger[i].value;
        if number < 0 || number !in issues {
          return Aborted, None;
        }
        var prior := issues[number];
        if !IsTrusted(prior.author, bot) || prior.open {
          return DedupedLedger(number), None;
        }
      }
      if !Accepted(spec.ratchet) {
        return Aborted, None;
      }
      if OpenClaim(issues, spec, slice.entryKey, bot) {
        var n :| n in issues && ClaimedBy(issues, n, spec, slice.entryKey, bot);
        return DedupedInFlight, Some(n);
      }
      if OpenExact(issues, key, bot) {
        var n :| n in issues && MarkedBy(issues, n, key, bot);
        return DedupedExisting, Some(n);
      }
      if !writes {
        return WouldCreate, None;
      }
      if !HasIntent(parentComments, key, bot) {
        comments := comments + [Comment(Some(bot), IntentMarker(key) + "\n", Some(now))];
      }
      if !SafeMarker(spec, slice) {
        return Aborted, None;
      }
      issues := issues[reply.number := Issue(true, Some(bot), IssueBody(spec, slice))];
      comments := comments + [Comment(Some(bot), CreatedMarker(key, reply.Shown()) + "\n", Some(now))];
      return CreatedSlice(reply.Shown()), None;
    }
  }
}
