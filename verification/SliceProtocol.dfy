/**
 The slice reconciler as a protocol: sequential runs that may be interrupted after any write, in a
 repository where issues are closed, strangers post issues and comments, and the inventory changes
 between runs. No two open trusted slices of the ratchet ever claim one entry key, exactly as long as
 no slice is created whose child text claims the key of an open one.

 Assumed of GitHub: searches are complete, runs do not overlap, and nothing but these runs opens a
 trusted claim on the ratchet, so that closed slices are not reopened.
 */
module SliceProtocol {
  import opened Digits
  import opened GitBatch
  import opened Markers
  import opened Reconciler
  import opened Results
  import opened Strings

  // ----- A second run

  lemma BotTrusted(bot: string)
    ensures IsTrusted(Some(bot), bot)
  {
  }

  lemma CreatedClaims(spec: Spec, doc: Doc, w: World, bot: string, reply: Reply)
    requires SafeMarker(spec, doc)
    requires reply.number in w.issues && w.issues[reply.number] == Issue(true, Some(bot), IssueBody(spec, doc))
    ensures OpenClaim(w.issues, spec, doc.entryKey, bot)
  {
    hide Claims, IsTrusted, SafeMarker;
    IssueBodyClaims(spec, doc, spec.ratchet, doc.entryKey);
    BotTrusted(bot);
  }

  ghost predicate StillRecent(comments: seq<Comment>, now: int, later: int) {
    forall i :: 0 <= i < |comments| && Recent(comments[i], now) ==> Recent(comments[i], later)
  }

  lemma {:induction false} CheckConcat(a: seq<Option<int>>, b: seq<Option<int>>, issues: map<nat, Issue>, bot: string)
    ensures CheckLedger(a + b, issues, bot) ==
            if CheckLedger(a, issues, bot).Some? then CheckLedger(a, issues, bot) else CheckLedger(b, issues, bot)
  {
    hide IsTrusted;
    if a == [] {
      assert a + b == b;
    } else {
      assert (a + b)[1..] == a[1..] + b;
      CheckConcat(a[1..], b, issues, bot);
    }
  }

  /** The outcome of a ledger check can only be lost by an unresolved entry that has expired. */
  ghost predicate Persists(first: Option<Outcome>, kept: bool, second: Option<Outcome>) {
    first.Some? && (first.value != HeldByLedger || kept) ==> second.Some?
  }

  lemma {:induction false} EntriesPersist(markers: seq<string>, key: string, recent: bool, recent': bool, issues: map<nat, Issue>, bot: string)
    ensures Persists(CheckLedger(LedgerEntries(markers, key, recent), issues, bot), recent ==> recent',
                     CheckLedger(LedgerEntries(markers, key, recent'), issues, bot))
  {
    hide Contains, MarkerAttribute, IsTrusted;
    if markers != [] {
      EntriesPersist(markers[1..], key, recent, recent', issues, bot);
      EntryPersists(markers[0], key, recent, recent', issues, bot);
      CheckConcat(LedgerEntry(markers[0], key, recent), LedgerEntries(markers[1..], key, recent), issues, bot);
      CheckConcat(LedgerEntry(markers[0], key, recent'), LedgerEntries(markers[1..], key, recent'), issues, bot);
    }
  }

  lemma EntryPersists(marker: string, key: string, recent: bool, recent': bool, issues: map<nat, Issue>, bot: string)
    ensures Persists(CheckLedger(LedgerEntry(marker, key, recent), issues, bot), recent ==> recent',
                     CheckLedger(LedgerEntry(marker, key, recent'), issues, bot))
  {
    hide Contains, MarkerAttribute, IsTrusted, PyInt;
  }

  lemma {:induction false} LedgerPersists(comments: seq<Comment>, key: string, bot: string, now: int, later: int, issues: map<nat, Issue>)
    ensures Persists(CheckLedger(Ledger(comments, key, bot, now), issues, bot), StillRecent(comments, now, later),
                     CheckLedger(Ledger(comments, key, bot, later), issues, bot))
  {
    hide FindMarkers, LedgerEntries, IsTrusted, CheckLedger, Recent;
    if comments != [] {
      LedgerPersists(comments[1..], key, bot, now, later, issues);
      assert StillRecent(comments, now, later) ==> StillRecent(comments[1..], now, later) by {
        assert forall i :: 0 <= i < |comments[1..]| ==> comments[1..][i] == comments[i + 1];
      }
      var c := comments[0];
      var markers := FindMarkers(CREATED_HEAD + " ", c.body, 0);
      EntriesPersist(markers, key, Recent(c, now), Recent(c, later), issues, bot);
      var a := if IsTrusted(c.author, bot) then LedgerEntries(markers, key, Recent(c, now)) else [];
      var b := if IsTrusted(c.author, bot) then LedgerEntries(markers, key, Recent(c, later)) else [];
      CheckNone(issues, bot);
      CheckConcat(a, Ledger(comments[1..], key, bot, now), issues, bot);
      CheckConcat(b, Ledger(comments[1..], key, bot, later), issues, bot);
    }
  }

  lemma CheckNone(issues: map<nat, Issue>, bot: string)
    ensures CheckLedger([], issues, bot) == None
  {
  }

  /** Every ledger entry names a closed trusted issue. */
  ghost predicate AllClosed(ledger: seq<Option<int>>, issues: map<nat, Issue>, bot: string) {
    forall i :: 0 <= i < |ledger| ==>
      ledger[i].Some? && ledger[i].value in issues && !issues[ledger[i].value].open && IsTrusted(issues[ledger[i].value].author, bot)
  }

  lemma {:induction false} PassesIffAllClosed(ledger: seq<Option<int>>, issues: map<nat, Issue>, bot: string)
    ensures CheckLedger(ledger, issues, bot).None? <==> AllClosed(ledger, issues, bot)
  {
    hide IsTrusted;
    if ledger != [] {
      PassesIffAllClosed(ledger[1..], issues, bot);
      assert forall i :: 0 < i < |ledger| ==> ledger[i] == ledger[1..][i - 1];
      assert forall i :: 0 <= i < |ledger[1..]| ==> ledger[1..][i] == ledger[i + 1];
    }
  }

  /**
   After any run, a second undisturbed run on the same inventory writes nothing, at any later time,
   unless the first was held by an unresolved ledger entry and by the second the hold is over.
   */
  lemma SecondRunWritesNothing(spec: Spec, doc: Option<Doc>, w: World, bot: string, now: int, reply: Reply, later: int, reply': Reply)
    ensures var (w1, outcome) := Run(spec, doc, w, bot, true, now, reply);
            Run(spec, doc, w1, bot, true, later, reply').0 == w1 <==>
            !(outcome == HeldByLedger && HoldIsOver(spec, doc.value, w, bot, later))
  {
    hide Ledger, CheckLedger, OpenClaim, OpenExact, SafeMarker, HasIntent, AllClosed, IssueBody, CreatedMarker, IntentMarker, Accepted;
    var (w1, outcome) := Run(spec, doc, w, bot, true, now, reply);
    if doc.Some? && bot != "" {
      var key := DedupKey(spec, doc.value);
      PassesIffAllClosed(Ledger(w.comments, key, bot, later), w.issues, bot);
      LedgerPersists(w.comments, key, bot, now, later, w.issues);
      IntentPosted(w, spec, doc.value, bot, now);
      if Decide(spec, doc.value, w, bot, true, now).None? && SafeMarker(spec, doc.value) {
        CreatedClaims(spec, doc.value, w1, bot, reply);
      }
      LastComment(w1, spec, doc.value, bot, later, reply');
    } else {
      NeverHeldWithoutWork(spec, doc, w, bot, now, reply);
    }
  }

  lemma NeverHeldWithoutWork(spec: Spec, doc: Option<Doc>, w: World, bot: string, now: int, reply: Reply)
    requires doc.None? || bot == ""
    ensures Run(spec, doc, w, bot, true, now, reply).1 != HeldByLedger
  {
  }

  lemma LastComment(w: World, spec: Spec, doc: Doc, bot: string, now: int, reply: Reply)
    ensures PostLedger(PostIssue(PostIntent(w, w.comments, spec, doc, bot, now), spec, doc, bot, reply.number), spec, doc, bot, now, reply.Shown()) != w
  {
    hide HasIntent, IssueBody, CreatedMarker, IntentMarker;
    var w3 := PostLedger(PostIssue(PostIntent(w, w.comments, spec, doc, bot, now), spec, doc, bot, reply.number), spec, doc, bot, now, reply.Shown());
    assert |w3.comments| > |w.comments|;
  }

  /**
   Every ledger entry still read names a closed trusted issue, no open slice is found, and there is
   something to write: a slice, or, if rendering its marker raises, an intent that is not there yet.
   */
  ghost predicate HoldIsOver(spec: Spec, doc: Doc, w: World, bot: string, now: int) {
    && Accepted(spec.ratchet)
    && (SafeMarker(spec, doc) || !HasIntent(w.comments, DedupKey(spec, doc), bot))
    && AllClosed(Ledger(w.comments, DedupKey(spec, doc), bot, now), w.issues, bot)
    && !OpenClaim(w.issues, spec, doc.entryKey, bot)
    && !OpenExact(w.issues, DedupKey(spec, doc), bot)
  }

  // ----- What the ledger records

  lemma {:induction false} LedgerConcat(a: seq<Comment>, b: seq<Comment>, key: string, bot: string, now: int)
    ensures Ledger(a + b, key, bot, now) == Ledger(a, key, bot, now) + Ledger(b, key, bot, now)
  {
    hide FindMarkers, LedgerEntries, IsTrusted, Recent;
    if a == [] {
      assert a + b == b;
    } else {
      assert (a + b)[1..] == a[1..] + b && (a + b)[0] == a[0];
      LedgerConcat(a[1..], b, key, bot, now);
      var first := if IsTrusted(a[0].author, bot)
                   then LedgerEntries(FindMarkers(CREATED_HEAD + " ", a[0].body, 0), key, Recent(a[0], now)) else [];
      assert first + (Ledger(a[1..], key, bot, now) + Ledger(b, key, bot, now))
          == first + Ledger(a[1..], key, bot, now) + Ledger(b, key, bot, now);
    }
  }

  lemma CreatedAttrsClean(key: string, issue: Option<nat>)
    requires SafeValue(key)
    ensures forall i :: 0 <= i < |CreatedAttrs(key, issue)| ==> CleanAttr(CreatedAttrs(key, issue)[i])
  {
    hide SafeValue;
    SafeLiterals();
    if issue.Some? {
      SafeDigits(NatText(issue.value));
    }
    var attrs := CreatedAttrs(key, issue);
    assert attrs[0].name == "dedup" && attrs[1].name == "issue";
    assert forall k :: 0 <= k < |attrs[0].name| ==> IsWord(attrs[0].name[k]);
    assert forall k :: 0 <= k < |attrs[1].name| ==> IsWord(attrs[1].name[k]);
    assert CleanAttr(attrs[0]) && CleanAttr(attrs[1]);
  }

  lemma CreatedMarkerReads(key: string, issue: Option<nat>)
    requires SafeValue(key)
    ensures IsMarker(CREATED_HEAD + " ", CreatedMarker(key, issue))
    ensures Contains(CreatedMarker(key, issue), "dedup=\"" + key + "\"")
    ensures MarkerAttribute(CreatedMarker(key, issue), "issue") == Some(if issue.None? then "unknown" else NatText(issue.value))
  {
    hide IsMarker, MarkerAttribute, SafeValue, CleanAttr, MarkerText, Contains;
    var attrs := CreatedAttrs(key, issue);
    CreatedAttrsClean(key, issue);
    HeadIsClean();
    MarkerIsMarker(CREATED_HEAD, attrs);
    assert attrs[0].name != attrs[1].name by { assert attrs[0].name[0] == 'd' && attrs[1].name[0] == 'i'; }
    AttributeReads(CREATED_HEAD, attrs, 0);
    AttributeReads(CREATED_HEAD, attrs, 1);
    AttributeIsPart(CreatedMarker(key, issue), "dedup");
    assert "dedup" + "=\"" + key + "\"" == "dedup=\"" + key + "\"";
  }

  lemma AttributeIsPart(m: string, name: string)
    requires MarkerAttribute(m, name).Some?
    ensures Contains(m, name + "=\"" + MarkerAttribute(m, name).value + "\"")
  {
    ReadAttributeIsPart(m, name, 0);
  }

  /** The ledger comment of a create is read back as its issue number, or as unresolved while it is recent. */
  lemma LedgerReadsBack(comments: seq<Comment>, key: string, bot: string, issue: Option<nat>, at: int, now: int)
    requires SafeValue(key)
    ensures Ledger(comments + [Comment(Some(bot), CreatedMarker(key, issue) + "\n", Some(at))], key, bot, now)
         == Ledger(comments, key, bot, now)
            + (if issue.Some? then [Some(issue.value as int)] else if 0 <= now - at <= HOLD_SECONDS then [None] else [])
  {
    var marker := CreatedMarker(key, issue);
    var c := Comment(Some(bot), marker + "\n", Some(at));
    hide FindMarkers, CreatedMarker, MarkerAttribute, IsMarker, Contains, IsTrusted, SafeValue, PyInt;
    CreatedMarkerReads(key, issue);
    HeadIsClean();
    FoundAt(CREATED_HEAD + " ", "", marker);
    assert "" + (marker + "\n") == marker + "\n";
    BotTrusted(bot);
    if issue.Some? {
      PyIntOfText(issue.value);
      NumberIsNotUnknown(issue.value);
    }
    LedgerConcat(comments, [c], key, bot, now);
    SingleLedger(c, marker, key, bot, now);
  }

  lemma NumberIsNotUnknown(n: nat)
    ensures NatText(n) != "unknown"
  {
    assert IsDigit(NatText(n)[0]);
  }

  lemma SingleLedger(c: Comment, marker: string, key: string, bot: string, now: int)
    requires IsTrusted(c.author, bot) && FindMarkers(CREATED_HEAD + " ", c.body, 0) == [marker]
    ensures Ledger([c], key, bot, now) == LedgerEntry(marker, key, Recent(c, now))
  {
    hide FindMarkers, IsTrusted, Recent, LedgerEntry;
    assert [c][1..] == [] && [marker][1..] == [];
    assert LedgerEntries([marker], key, Recent(c, now)) == LedgerEntry(marker, key, Recent(c, now)) + [];
    assert Ledger([], key, bot, now) == [];
  }

  lemma ContainsMiddle(a: string, b: string, c: string)
    ensures Contains(a + b + c, b)
  {
    var t := a + b + c;
    assert t[|a|..|a| + |b|] == b;
    assert OccursAt(t, b, |a|);
  }

  lemma BodyHasCreateMarker(spec: Spec, doc: Doc)
    ensures Contains(IssueBody(spec, doc), CreateMarker(DedupKey(spec, doc)))
  {
    hide CreateMarker, SliceMarker, Contains;
    var a, b, c := doc.childText + "\n", CreateMarker(DedupKey(spec, doc)), "\n" + (SliceMarker(spec, doc) + "\n");
    ContainsMiddle(a, b, c);
    assert IssueBody(spec, doc) == a + b + c;
  }

  lemma IntentPosted(w: World, spec: Spec, doc: Doc, bot: string, now: int)
    ensures var w' := PostIntent(w, w.comments, spec, doc, bot, now);
            w'.issues == w.issues && w.comments <= w'.comments && HasIntent(w'.comments, DedupKey(spec, doc), bot)
  {
    hide IntentMarker, Contains, IsTrusted;
    var key := DedupKey(spec, doc);
    if !HasIntent(w.comments, key, bot) {
      var last := Comment(Some(bot), IntentMarker(key) + "\n", Some(now));
      BotTrusted(bot);
      ContainsMiddle("", IntentMarker(key), "\n");
      assert "" + IntentMarker(key) + "\n" == IntentMarker(key) + "\n";
      assert (w.comments + [last])[|w.comments|] == last;
    }
  }

  lemma IntentKept(comments: seq<Comment>, c: Comment, key: string, bot: string)
    requires HasIntent(comments, key, bot)
    ensures HasIntent(comments + [c], key, bot)
  {
    hide IntentMarker, Contains, IsTrusted;
    var i :| 0 <= i < |comments| && IsTrusted(comments[i].author, bot) && Contains(comments[i].body, IntentMarker(key));
    assert (comments + [c])[i] == comments[i];
  }

  /** When a run creates, and what it then writes. */
  lemma RunCreates(spec: Spec, doc: Doc, w: World, bot: string, now: int, reply: Reply)
    requires Run(spec, Some(doc), w, bot, true, now, reply).1.CreatedSlice?
    ensures bot != "" && SafeMarker(spec, doc) && Decide(spec, doc, w, bot, true, now).None?
    ensures Run(spec, Some(doc), w, bot, true, now, reply).0
         == PostLedger(PostIssue(PostIntent(w, w.comments, spec, doc, bot, now), spec, doc, bot, reply.number), spec, doc, bot, now, reply.Shown())
  {
    hide SafeMarker, PostIntent, PostIssue, PostLedger, CheckLedger, Ledger, OpenClaim, OpenExact, Accepted;
  }

  /** Every check of the next run sees what a creating run wrote: intent, both searches, ledger. */
  lemma CreateIsSeen(spec: Spec, doc: Doc, w: World, bot: string, now: int, reply: Reply, later: int)
    requires Run(spec, Some(doc), w, bot, true, now, reply).1.CreatedSlice?
    ensures var w' := Run(spec, Some(doc), w, bot, true, now, reply).0;
            var key := DedupKey(spec, doc);
            && HasIntent(w'.comments, key, bot)
            && OpenClaim(w'.issues, spec, doc.entryKey, bot)
            && OpenExact(w'.issues, key, bot)
            && (reply.printed ==> Some(reply.number as int) in Ledger(w'.comments, key, bot, later))
            && (!reply.printed && now <= later <= now + HOLD_SECONDS ==> None in Ledger(w'.comments, key, bot, later))
  {
    RunCreates(spec, doc, w, bot, now, reply);
    hide Run, Decide, SafeMarker, HasIntent, OpenClaim, Ledger, IssueBody, CreatedMarker, PostIntent, Contains, SafeValue, CreateMarker;
    var key := DedupKey(spec, doc);
    var w1 := PostIntent(w, w.comments, spec, doc, bot, now);
    IntentPosted(w, spec, doc, bot, now);
    var w' := Run(spec, Some(doc), w, bot, true, now, reply).0;
    var last := Comment(Some(bot), CreatedMarker(key, reply.Shown()) + "\n", Some(now));
    assert w'.comments == w1.comments + [last];
    IntentKept(w1.comments, last, key, bot);
    CreatedClaims(spec, doc, w', bot, reply);
    BodyHasCreateMarker(spec, doc);
    BotTrusted(bot);
    KeyIsSafe(spec, doc);
    LedgerReadsBack(w1.comments, key, bot, reply.Shown(), now, later);
  }

  function CloseIssue(w: World, n: nat): World
    requires n in w.issues
  {
    w.(issues := w.issues[n := w.issues[n].(open := false)])
  }

  /** An intent comment records nothing in the ledger. */
  lemma IntentNotInLedger(key: string, bot: string, at: int, now: int)
    requires SafeValue(key)
    ensures Ledger([Comment(Some(bot), IntentMarker(key) + "\n", Some(at))], key, bot, now) == []
  {
    var t, open := IntentMarker(key) + "\n", CREATED_HEAD + " ";
    forall j: nat | j < |t| ensures !OccursAt(t, open, j) {
      NotCreatedMarker(key, j);
    }
    NothingFound(open, t, 0);
    hide FindMarkers, IsTrusted;
    var c := Comment(Some(bot), t, Some(at));
    assert [c][1..] == [];
  }

  lemma NotCreatedMarker(key: string, j: nat)
    requires SafeValue(key)
    ensures !OccursAt(IntentMarker(key) + "\n", CREATED_HEAD + " ", j)
  {
    var attrs := [Attr("dedup", key)];
    var rest := RenderAttrs(attrs) + " -->" + "\n";
    var t, open := IntentMarker(key) + "\n", CREATED_HEAD + " ";
    assert CleanAttr(attrs[0]);
    AttrsChars(attrs);
    hide RenderAttrs;
    assert t == INTENT_HEAD + rest;
    OccursChars(t, open, j);
    assert open[0] == '<' && forall k :: 0 < k < |INTENT_HEAD| ==> INTENT_HEAD[k] != '<';
    assert Lacks(rest, '<');
    if j == 0 {
      assert INTENT_HEAD[35] == '-' && open[35] == 'd';
      assert t[0 + 35] == INTENT_HEAD[35];
    } else if j < |t| {
      assert t[j] == if j < |INTENT_HEAD| then INTENT_HEAD[j] else rest[j - |INTENT_HEAD|];
    }
  }

  /**
   The exception is real: `gh` prints no number for a created slice, whose issue is then closed. The
   ledger comment holds the next run for fifteen minutes; a second later the same inventory creates again.
   */
  lemma HoldExpires(spec: Spec, doc: Doc, w: World, bot: string, at: int, n: nat, reply: Reply)
    requires SafeMarker(spec, doc) && bot != "" && w.comments == [] && n !in w.issues
    requires !OpenClaim(w.issues, spec, doc.entryKey, bot) && !OpenExact(w.issues, DedupKey(spec, doc), bot)
    ensures Run(spec, Some(doc), w, bot, true, at, Reply(n, false)).1 == CreatedSlice(None)
    ensures var w1 := CloseIssue(Run(spec, Some(doc), w, bot, true, at, Reply(n, false)).0, n);
            && Run(spec, Some(doc), w1, bot, true, at + HOLD_SECONDS, reply).1 == HeldByLedger
            && Run(spec, Some(doc), w1, bot, true, at + HOLD_SECONDS + 1, reply).1 == CreatedSlice(reply.Shown())
  {
    DecidedByLedger(spec, doc, w, bot, at, []);
    var w1 := CloseIssue(Run(spec, Some(doc), w, bot, true, at, Reply(n, false)).0, n);
    ClosedAfterCreate(spec, doc, w, bot, at, n);
    KeyIsSafe(spec, doc);
    ClosedIsNotFound(spec, doc, w, bot, n, Issue(false, Some(bot), IssueBody(spec, doc)));
    DecidedByLedger(spec, doc, w1, bot, at + HOLD_SECONDS, [None]);
    DecidedByLedger(spec, doc, w1, bot, at + HOLD_SECONDS + 1, []);
    hide Decide, SafeMarker, OpenClaim, OpenExact, Ledger, CloseIssue, PostIntent, PostIssue, PostLedger;
  }

  lemma DecidedByLedger(spec: Spec, doc: Doc, w: World, bot: string, now: int, ledger: seq<Option<int>>)
    requires SafeMarker(spec, doc) && Ledger(w.comments, DedupKey(spec, doc), bot, now) == ledger && (ledger == [] || ledger == [None])
    requires !OpenClaim(w.issues, spec, doc.entryKey, bot) && !OpenExact(w.issues, DedupKey(spec, doc), bot)
    ensures Decide(spec, doc, w, bot, true, now) == if ledger == [] then None else Some(HeldByLedger)
  {
    hide OpenClaim, OpenExact, Ledger, Accepted, IsTrusted;
  }

  /** The repository after a create without a printed number and the closing of its issue. */
  lemma ClosedAfterCreate(spec: Spec, doc: Doc, w: World, bot: string, at: int, n: nat)
    requires w.comments == [] && SafeMarker(spec, doc)
    requires Run(spec, Some(doc), w, bot, true, at, Reply(n, false)).1.CreatedSlice?
    ensures var w1 := CloseIssue(Run(spec, Some(doc), w, bot, true, at, Reply(n, false)).0, n);
            && w1.issues == w.issues[n := Issue(false, Some(bot), IssueBody(spec, doc))]
            && forall now :: Ledger(w1.comments, DedupKey(spec, doc), bot, now) == if 0 <= now - at <= HOLD_SECONDS then [None] else []
  {
    RunCreates(spec, doc, w, bot, at, Reply(n, false));
    hide Run, CreatedMarker, IntentMarker, SafeMarker, SafeValue, IssueBody, Ledger;
    var key := DedupKey(spec, doc);
    var intent := Comment(Some(bot), IntentMarker(key) + "\n", Some(at));
    var created := Comment(Some(bot), CreatedMarker(key, None) + "\n", Some(at));
    var w1 := CloseIssue(Run(spec, Some(doc), w, bot, true, at, Reply(n, false)).0, n);
    assert w1.comments == [intent] + [created];
    KeyIsSafe(spec, doc);
    forall now ensures Ledger(w1.comments, key, bot, now) == if 0 <= now - at <= HOLD_SECONDS then [None] else [] {
      IntentNotInLedger(key, bot, at, now);
      LedgerReadsBack([intent], key, bot, None, at, now);
    }
  }

  lemma ClosedIsNotFound(spec: Spec, doc: Doc, w: World, bot: string, n: nat, issue: Issue)
    requires n !in w.issues && !issue.open
    requires !OpenClaim(w.issues, spec, doc.entryKey, bot) && !OpenExact(w.issues, DedupKey(spec, doc), bot)
    ensures var after := w.issues[n := issue];
            !OpenClaim(after, spec, doc.entryKey, bot) && !OpenExact(after, DedupKey(spec, doc), bot)
  {
    hide Claims, IsTrusted, Contains;
    var after, key := w.issues[n := issue], DedupKey(spec, doc);
    forall m | m in after ensures !ClaimedBy(after, m, spec, doc.entryKey, bot) && !MarkedBy(after, m, key, bot) {
      assert m != n ==> m in w.issues && !ClaimedBy(w.issues, m, spec, doc.entryKey, bot) && !MarkedBy(w.issues, m, key, bot);
    }
  }

  lemma KeyIsSafe(spec: Spec, doc: Doc)
    requires SafeMarker(spec, doc)
    ensures SafeValue(DedupKey(spec, doc))
  {
  }

  // ----- Interrupted runs in a changing repository

  /** What the current run still has to do. `snapshot` is the parent as the run read it. */
  datatype Phase =
    | Idle
    | Checking(doc: Doc, snapshot: seq<Comment>, ledger: seq<Option<int>>)
    | Searching(doc: Doc, snapshot: seq<Comment>)
    | Matching(doc: Doc, snapshot: seq<Comment>)
    | Writing(doc: Doc, snapshot: seq<Comment>)
    | Creating(doc: Doc)
    | Recording(doc: Doc, shown: Option<nat>)

  datatype State = State(world: World, phase: Phase)

  /** Issue `n` is open, trusted and claims the key. */
  ghost predicate Holds(w: World, n: nat, spec: Spec, key: string, bot: string) {
    ClaimedBy(w.issues, n, spec, key, bot)
  }

  /** Anything the repository does by itself, as long as it opens no new trusted claim on the ratchet. */
  ghost predicate Environment(spec: Spec, bot: string, w: World, w': World) {
    forall n: nat, key :: Holds(w', n, spec, key, bot) ==> Holds(w, n, spec, key, bot)
  }

  /** One step of the current run; `now` is the clock and `reply` the answer of GitHub to a create. */
  ghost predicate RunStep(spec: Spec, bot: string, s: State, s': State, now: int, reply: Reply) {
    match s.phase
    case Idle =>
      || (s' == State(s.world.(parentOpen := false), Idle) && s.world.parentOpen)
      || (&& s'.phase.Checking? && Accepted(DedupKey(spec, s'.phase.doc))
          && s' == State(s.world, Checking(s'.phase.doc, s.world.comments, Ledger(s.world.comments, DedupKey(spec, s'.phase.doc), bot, now))))
    case Checking(doc, snapshot, ledger) =>
      if ledger == [] then Accepted(spec.ratchet) && s' == State(s.world, Searching(doc, snapshot))
      else
        && CheckLedger(ledger[..1], s.world.issues, bot).None?
        && s' == State(s.world, Checking(doc, snapshot, ledger[1..]))
    case Searching(doc, snapshot) =>
      !OpenClaim(s.world.issues, spec, doc.entryKey, bot) && s' == State(s.world, Matching(doc, snapshot))
    case Matching(doc, snapshot) =>
      !OpenExact(s.world.issues, DedupKey(spec, doc), bot) && s' == State(s.world, Writing(doc, snapshot))
    case Writing(doc, snapshot) =>
      s' == State(PostIntent(s.world, snapshot, spec, doc, bot, now), Creating(doc))
    case Creating(doc) =>
      && SafeMarker(spec, doc) && reply.number !in s.world.issues
      && s' == State(PostIssue(s.world, spec, doc, bot, reply.number), Recording(doc, reply.Shown()))
    case Recording(doc, shown) =>
      s' == State(PostLedger(s.world, spec, doc, bot, now, shown), Idle)
  }

  /** A run goes on, ends or is interrupted; or the repository changes under it. */
  ghost predicate Step(spec: Spec, bot: string, s: State, s': State) {
    || (bot != "" && exists now, reply :: RunStep(spec, bot, s, s', now, reply))
    || s' == State(s.world, Idle)
    || (s'.phase == s.phase && Environment(spec, bot, s.world, s'.world))
  }

  ghost predicate Execution(spec: Spec, bot: string, run: seq<State>) {
    |run| > 0 && forall i :: 0 < i < |run| ==> Step(spec, bot, run[i - 1], run[i])
  }

  /** No two open trusted slices of the ratchet claim one entry key. */
  ghost predicate Unique(spec: Spec, bot: string, w: World) {
    forall n: nat, m: nat, key :: Holds(w, n, spec, key, bot) && Holds(w, m, spec, key, bot) ==> n == m
  }

  /** Once the search came back empty, no open slice claims the key of the current run. */
  ghost predicate Safe(spec: Spec, bot: string, s: State) {
    && Unique(spec, bot, s.world)
    && (s.phase.Matching? || s.phase.Writing? || s.phase.Creating? ==>
          forall n: nat :: !Holds(s.world, n, spec, s.phase.doc.entryKey, bot))
  }

  lemma NewSliceHolds(spec: Spec, doc: Doc, bot: string, w: World, number: nat)
    requires SafeMarker(spec, doc) && number !in w.issues
    ensures forall n: nat, key :: Holds(PostIssue(w, spec, doc, bot, number), n, spec, key, bot) <==>
                                  Holds(w, n, spec, key, bot)
                                  || (n == number && (key == doc.entryKey || Claims(BodyHead(spec, doc), spec.ratchet, key)))
  {
    hide Claims, IsTrusted, SafeMarker, IssueBody, BodyHead;
    BotTrusted(bot);
    forall key ensures Claims(IssueBody(spec, doc), spec.ratchet, key) <==>
                       Claims(BodyHead(spec, doc), spec.ratchet, key) || key == doc.entryKey {
      IssueBodyClaims(spec, doc, spec.ratchet, key);
    }
  }

  /**
   When no open slice claims the entry key, a create keeps the keys unique exactly when the text above
   its marker claims no key of an open slice.
   */
  lemma CreateKeepsUniqueIff(spec: Spec, doc: Doc, bot: string, w: World, number: nat)
    requires SafeMarker(spec, doc) && number !in w.issues && Unique(spec, bot, w)
    requires forall n: nat :: !Holds(w, n, spec, doc.entryKey, bot)
    ensures Unique(spec, bot, PostIssue(w, spec, doc, bot, number)) <==>
            forall n: nat, key :: Holds(w, n, spec, key, bot) ==> !Claims(BodyHead(spec, doc), spec.ratchet, key)
  {
    hide Claims, SafeMarker, BodyHead, PostIssue;
    var w' := PostIssue(w, spec, doc, bot, number);
    NewSliceHolds(spec, doc, bot, w, number);
    assert forall n: nat, key :: Holds(w, n, spec, key, bot) ==> n != number;
    hide Holds;
    if n: nat, key :| Holds(w, n, spec, key, bot) && Claims(BodyHead(spec, doc), spec.ratchet, key) {
      assert Holds(w', n, spec, key, bot) && Holds(w', number, spec, key, bot) && n != number;
    }
  }

  /** A text that repeats the marker of a slice, behind other text on its line, claims the key of that slice. */
  lemma EchoedMarkerClaims(spec: Spec, doc: Doc, other: Doc, above: string, line: string, below: string)
    requires SafeMarker(spec, other) && doc.childText == above + (line + (SliceMarker(spec, other) + below))
    requires (above == "" || above[|above| - 1] == '\n') && PlainText(line)
    ensures Claims(BodyHead(spec, doc), spec.ratchet, other.entryKey)
  {
    hide FindMarkers, SliceMarker, IsMarker, MarkerOverlaps, CreateMarker, Contains, SafeMarker;
    var marker := SliceMarker(spec, other);
    var rest := below + "\n" + CreateMarker(DedupKey(spec, doc)) + "\n";
    MarkerClaims(spec, other, spec.ratchet, other.entryKey);
    SingleOverlaps(marker, spec.ratchet, other.entryKey);
    OpenerFacts();
    FoundInText(OPENER, above, line, marker, rest);
    assert BodyHead(spec, doc) == above + (line + (marker + rest));
    OverlapFound(FindMarkers(OPENER, BodyHead(spec, doc), 0), marker, spec.ratchet, other.entryKey);
  }

  lemma {:induction false} OverlapFound(markers: seq<string>, m: string, ratchet: string, key: string)
    requires m in markers && MarkerOverlaps(m, ratchet, key)
    ensures AnyOverlaps(markers, ratchet, key)
  {
    hide MarkerOverlaps;
    if m != markers[0] {
      OverlapFound(markers[1..], m, ratchet, key);
    }
  }

  /** While the repeated slice is open, creating the slice that repeats its marker makes two claims on one key. */
  lemma EchoedMarkerBreaksUnique(spec: Spec, doc: Doc, other: Doc, above: string, line: string, below: string,
                                 bot: string, w: World, n: nat, number: nat)
    requires SafeMarker(spec, doc) && SafeMarker(spec, other)
    requires doc.childText == above + (line + (SliceMarker(spec, other) + below))
    requires (above == "" || above[|above| - 1] == '\n') && PlainText(line)
    requires Holds(w, n, spec, other.entryKey, bot) && number !in w.issues
    ensures !Unique(spec, bot, PostIssue(w, spec, doc, bot, number))
  {
    hide PlainText, SliceMarker, SafeMarker, PostIssue, Claims, IsTrusted;
    EchoedMarkerClaims(spec, doc, other, above, line, below);
    NewSliceHolds(spec, doc, bot, w, number);
    assert n != number;
    hide Holds;
    var w' := PostIssue(w, spec, doc, bot, number);
    assert Holds(w', n, spec, other.entryKey, bot) && Holds(w', number, spec, other.entryKey, bot);
  }

  lemma CommentsDoNotHold(spec: Spec, bot: string, w: World, w': World)
    requires w'.issues == w.issues
    ensures Environment(spec, bot, w, w')
  {
    hide Claims, IsTrusted;
  }

  lemma EnvironmentKeepsSafe(spec: Spec, bot: string, s: State, s': State)
    requires Safe(spec, bot, s) && s'.phase == s.phase && Environment(spec, bot, s.world, s'.world)
    ensures Safe(spec, bot, s')
  {
    hide Holds;
  }

  /** The text above the marker of the slice to be created claims no key of an open slice. */
  ghost predicate Harmless(spec: Spec, bot: string, s: State) {
    s.phase.Creating? ==>
      forall n: nat, key :: Holds(s.world, n, spec, key, bot) ==> !Claims(BodyHead(spec, s.phase.doc), spec.ratchet, key)
  }

  ghost predicate Creates(s: State, s': State) {
    s.phase.Creating? && s'.phase.Recording?
  }

  /** Every step of a run but a harmful create keeps the invariant; a harmful create breaks it. */
  lemma RunStepKeepsSafe(spec: Spec, bot: string, s: State, s': State, now: int, reply: Reply)
    requires Safe(spec, bot, s) && RunStep(spec, bot, s, s', now, reply)
    ensures s.phase.Creating? ==> Creates(s, s')
    ensures Safe(spec, bot, s') <==> Harmless(spec, bot, s)
    ensures Unique(spec, bot, s'.world) <==> Harmless(spec, bot, s)
  {
    hide Claims, IsTrusted, SafeMarker, IssueBody, BodyHead, Ledger, CheckLedger, OpenExact, HasIntent, CreatedMarker, IntentMarker, Holds, Accepted, PostIssue;
    if s.phase.Searching? {
      SearchMeansNoHolder(spec, bot, s.world, s.phase.doc.entryKey);
    } else if s.phase.Creating? {
      CreateKeepsUniqueIff(spec, s.phase.doc, bot, s.world, reply.number);
    } else if s.world.issues == s'.world.issues {
      CommentsDoNotHold(spec, bot, s.world, s'.world);
    }
  }

  lemma SearchMeansNoHolder(spec: Spec, bot: string, w: World, key: string)
    requires !OpenClaim(w.issues, spec, key, bot)
    ensures forall n: nat :: !Holds(w, n, spec, key, bot)
  {
    hide Claims, IsTrusted;
  }

  lemma StepKeepsSafe(spec: Spec, bot: string, s: State, s': State)
    requires Safe(spec, bot, s) && Step(spec, bot, s, s')
    ensures Creates(s, s') && !Harmless(spec, bot, s) ==> !Unique(spec, bot, s'.world)
    ensures !Creates(s, s') || Harmless(spec, bot, s) ==> Safe(spec, bot, s')
  {
    hide RunStep, Environment, Unique;
    if s' == State(s.world, Idle) {
    } else if s'.phase == s.phase && Environment(spec, bot, s.world, s'.world) {
      EnvironmentKeepsSafe(spec, bot, s, s');
    } else {
      var now, reply :| RunStep(spec, bot, s, s', now, reply);
      RunStepKeepsSafe(spec, bot, s, s', now, reply);
    }
  }

  /** No create up to state `k` was harmful. */
  ghost predicate HarmlessUpTo(spec: Spec, bot: string, run: seq<State>, k: nat)
    requires k < |run|
  {
    forall i :: 0 < i <= k && Creates(run[i - 1], run[i]) ==> Harmless(spec, bot, run[i - 1])
  }

  lemma {:induction false} StaysSafe(spec: Spec, bot: string, run: seq<State>, k: nat)
    requires Execution(spec, bot, run) && k < |run| && HarmlessUpTo(spec, bot, run, k)
    requires run[0].phase == Idle && Unique(spec, bot, run[0].world)
    ensures Safe(spec, bot, run[k])
  {
    hide Step, Unique, Harmless, Creates;
    if k > 0 {
      StaysSafe(spec, bot, run, k - 1);
      StepKeepsSafe(spec, bot, run[k - 1], run[k]);
    }
  }

  lemma {:induction false} UniqueMeansHarmless(spec: Spec, bot: string, run: seq<State>, k: nat)
    requires Execution(spec, bot, run) && k < |run| && run[0].phase == Idle
    requires forall i :: 0 <= i <= k ==> Unique(spec, bot, run[i].world)
    ensures HarmlessUpTo(spec, bot, run, k)
  {
    hide Step, Unique, Harmless, Creates, Safe;
    if k > 0 {
      UniqueMeansHarmless(spec, bot, run, k - 1);
      assert Unique(spec, bot, run[0].world);
      StaysSafe(spec, bot, run, k - 1);
      StepKeepsSafe(spec, bot, run[k - 1], run[k]);
    }
  }

  /**
   In every execution, with interruptions anywhere and the repository changing in between, open trusted
   slices of the ratchet have distinct entry keys in all states exactly when no slice was created whose
   child text claims the key of a slice that was open.
   */
  lemma SlicesStayUniqueIff(spec: Spec, bot: string, run: seq<State>)
    requires Execution(spec, bot, run)
    requires run[0].phase == Idle && Unique(spec, bot, run[0].world)
    ensures (forall i :: 0 <= i < |run| ==> Unique(spec, bot, run[i].world)) <==> HarmlessUpTo(spec, bot, run, |run| - 1)
  {
    hide Step, Unique, Harmless, Creates;
    if HarmlessUpTo(spec, bot, run, |run| - 1) {
      forall i | 0 <= i < |run| ensures Unique(spec, bot, run[i].world) {
        StaysSafe(spec, bot, run, i);
      }
    }
    if forall i :: 0 <= i < |run| ==> Unique(spec, bot, run[i].world) {
      UniqueMeansHarmless(spec, bot, run, |run| - 1);
    }
  }

  /** Every slice that is created has a child text without a slice opener. */
  ghost predicate PlainSlices(run: seq<State>) {
    forall i :: 0 <= i < |run| && run[i].phase.Creating? ==> PlainText(run[i].phase.doc.childText)
  }

  /** When child texts contain no slice opener, no two open trusted slices ever claim one key. */
  lemma SlicesStayUnique(spec: Spec, bot: string, run: seq<State>, i: nat)
    requires Execution(spec, bot, run) && i < |run| && PlainSlices(run)
    requires run[0].phase == Idle && Unique(spec, bot, run[0].world)
    ensures Unique(spec, bot, run[i].world)
  {
    forall k | 0 < k < |run| && Creates(run[k - 1], run[k]) ensures Harmless(spec, bot, run[k - 1]) {
      assert Step(spec, bot, run[k - 1], run[k]);
      PlainIsHarmless(spec, bot, run[k - 1], run[k]);
    }
    hide Execution, Unique, Harmless, Creates, PlainSlices;
    SlicesStayUniqueIff(spec, bot, run);
  }

  lemma PlainIsHarmless(spec: Spec, bot: string, s: State, s': State)
    requires Step(spec, bot, s, s') && Creates(s, s') && PlainText(s.phase.doc.childText)
    ensures Harmless(spec, bot, s)
  {
    hide PlainText, Claims, BodyHead, Holds, Environment;
    forall key ensures !Claims(BodyHead(spec, s.phase.doc), spec.ratchet, key) {
      PlainTextClaimsNothing(spec, s.phase.doc, spec.ratchet, key);
    }
  }

  // ----- What the repository does by itself

  lemma ClosingIsEnvironment(spec: Spec, bot: string, w: World, n: nat)
    requires n in w.issues
    ensures Environment(spec, bot, w, CloseIssue(w, n))
  {
    hide Claims, IsTrusted;
  }

  lemma StrangersAreEnvironment(spec: Spec, bot: string, w: World, n: nat, issue: Issue)
    requires n !in w.issues && !IsTrusted(issue.author, bot)
    ensures Environment(spec, bot, w, w.(issues := w.issues[n := issue]))
  {
    hide Claims, IsTrusted;
  }

  /** A slice of another ratchet opens no claim on this one, unless its child text does. */
  lemma OtherRatchetIsEnvironment(spec: Spec, bot: string, w: World, n: nat, other: Spec, doc: Doc)
    requires n !in w.issues && SafeMarker(other, doc) && other.ratchet != spec.ratchet
    ensures Environment(spec, bot, w, PostIssue(w, other, doc, bot, n)) <==>
            forall key :: !Claims(BodyHead(other, doc), spec.ratchet, key)
    ensures PlainText(doc.childText) ==> Environment(spec, bot, w, PostIssue(w, other, doc, bot, n))
  {
    hide Claims, IsTrusted, SafeMarker, IssueBody, BodyHead, PlainText;
    var w' := PostIssue(w, other, doc, bot, n);
    BotTrusted(bot);
    forall key ensures Holds(w', n, spec, key, bot) <==> Claims(BodyHead(other, doc), spec.ratchet, key) {
      IssueBodyClaims(other, doc, spec.ratchet, key);
    }
    if PlainText(doc.childText) {
      KeyIsSafe(other, doc);
      forall key ensures !Claims(BodyHead(other, doc), spec.ratchet, key) {
        PlainTextClaimsNothing(other, doc, spec.ratchet, key);
      }
    }
  }

  // ----- A run is an execution

  lemma Append(spec: Spec, bot: string, run: seq<State>, s: State)
    requires Execution(spec, bot, run) && Step(spec, bot, run[|run| - 1], s)
    ensures Execution(spec, bot, run + [s])
  {
    hide Step;
  }

  lemma StartsExecution(spec: Spec, bot: string, s: State)
    ensures Execution(spec, bot, [s])
  {
  }

  lemma Advance(spec: Spec, bot: string, run: seq<State>, s: State, now: int, reply: Reply) returns (r: seq<State>)
    requires Execution(spec, bot, run) && bot != "" && RunStep(spec, bot, run[|run| - 1], s, now, reply)
    ensures Execution(spec, bot, r) && r[0] == run[0] && r[|r| - 1] == s
  {
    hide RunStep;
    Append(spec, bot, run, s);
    r := run + [s];
  }

  lemma Interrupt(spec: Spec, bot: string, run: seq<State>) returns (r: seq<State>)
    requires Execution(spec, bot, run)
    ensures Execution(spec, bot, r) && r[0] == run[0] && r[|r| - 1] == State(run[|run| - 1].world, Idle)
  {
    hide RunStep, Environment;
    var last := State(run[|run| - 1].world, Idle);
    Append(spec, bot, run, last);
    r := run + [last];
  }

  lemma {:induction false} LedgerPasses(spec: Spec, bot: string, run: seq<State>, doc: Doc, w: World, snapshot: seq<Comment>, ledger: seq<Option<int>>, now: int, reply: Reply) returns (r: seq<State>)
    requires Execution(spec, bot, run) && bot != "" && run[|run| - 1] == State(w, Checking(doc, snapshot, ledger))
    requires CheckLedger(ledger, w.issues, bot).None? && Accepted(spec.ratchet)
    ensures Execution(spec, bot, r) && r[0] == run[0] && r[|r| - 1] == State(w, Searching(doc, snapshot))
    decreases |ledger|
  {
    hide Execution, IsTrusted, Accepted;
    if ledger == [] {
      r := Advance(spec, bot, run, State(w, Searching(doc, snapshot)), now, reply);
    } else {
      assert ledger[..1] + ledger[1..] == ledger;
      CheckConcat(ledger[..1], ledger[1..], w.issues, bot);
      r := Advance(spec, bot, run, State(w, Checking(doc, snapshot, ledger[1..])), now, reply);
      r := LedgerPasses(spec, bot, r, doc, w, snapshot, ledger[1..], now, reply);
    }
  }

  /** An undisturbed run is one execution of the protocol, from idle to idle. */
  lemma RunIsExecution(spec: Spec, doc: Option<Doc>, w: World, bot: string, now: int, reply: Reply) returns (r: seq<State>)
    requires reply.number !in w.issues
    ensures Execution(spec, bot, r) && r[0] == State(w, Idle)
    ensures r[|r| - 1] == State(Run(spec, doc, w, bot, true, now, reply).0, Idle)
  {
    hide Execution, Accepted, SafeMarker, Ledger, CheckLedger, OpenClaim, OpenExact, PostIntent, PostIssue, PostLedger;
    r := [State(w, Idle)];
    StartsExecution(spec, bot, State(w, Idle));
    var last := Run(spec, doc, w, bot, true, now, reply).0;
    if bot == "" || last == w {
    } else if doc.None? {
      r := Advance(spec, bot, r, State(last, Idle), now, reply);
    } else {
      var d, seen := doc.value, w.comments;
      var ledger := Ledger(seen, DedupKey(spec, d), bot, now);
      r := Advance(spec, bot, r, State(w, Checking(d, seen, ledger)), now, reply);
      r := LedgerPasses(spec, bot, r, d, w, seen, ledger, now, reply);
      r := Advance(spec, bot, r, State(w, Matching(d, seen)), now, reply);
      r := Advance(spec, bot, r, State(w, Writing(d, seen)), now, reply);
      r := Writes(spec, bot, r, d, w, now, reply);
    }
  }

  lemma Writes(spec: Spec, bot: string, run: seq<State>, doc: Doc, w: World, now: int, reply: Reply) returns (r: seq<State>)
    requires Execution(spec, bot, run) && bot != "" && run[|run| - 1] == State(w, Writing(doc, w.comments)) && reply.number !in w.issues
    ensures Execution(spec, bot, r) && r[0] == run[0]
    ensures var w1 := PostIntent(w, w.comments, spec, doc, bot, now);
            r[|r| - 1] == State(
              if !SafeMarker(spec, doc) then w1
              else PostLedger(PostIssue(w1, spec, doc, bot, reply.number), spec, doc, bot, now, reply.Shown()), Idle)
  {
    hide Execution, PostIssue, PostLedger, HasIntent, IntentMarker, SafeMarker;
    var w1 := PostIntent(w, w.comments, spec, doc, bot, now);
    assert w1.issues == w.issues;
    r := Advance(spec, bot, run, State(w1, Creating(doc)), now, reply);
    if SafeMarker(spec, doc) {
      var w2 := PostIssue(w1, spec, doc, bot, reply.number);
      r := Advance(spec, bot, r, State(w2, Recording(doc, reply.Shown())), now, reply);
      r := Advance(spec, bot, r, State(PostLedger(w2, spec, doc, bot, now, reply.Shown()), Idle), now, reply);
    } else {
      r := Interrupt(spec, bot, r);
    }
  }
}
