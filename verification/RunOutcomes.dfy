/**
 What one undisturbed run of the reconciler does, in terms of the repository it finds: when it
 writes, what it writes, and what it reports, with and without permission to write.
 */
module RunOutcomes {
  import opened Digits
  import opened GitBatch
  import opened Markers
  import opened Reconciler
  import opened Results
  import opened SliceProtocol
  import opened Strings

  // ----- When a run may create

  /** Issue `n` is open and trusted. */
  ghost predicate Live(w: World, n: nat, bot: string) {
    n in w.issues && w.issues[n].open && IsTrusted(w.issues[n].author, bot)
  }

  /**
   Nothing stops a run on the slice: its keys may be written, every ledger entry names a closed trusted
   issue, and no open trusted issue claims the entry key or carries the create marker.
   */
  ghost predicate Free(spec: Spec, doc: Doc, w: World, bot: string, now: int) {
    && Accepted(DedupKey(spec, doc)) && Accepted(spec.ratchet)
    && AllClosed(Ledger(w.comments, DedupKey(spec, doc), bot, now), w.issues, bot)
    && forall n: nat :: Live(w, n, bot) ==>
         && !Claims(w.issues[n].body, spec.ratchet, doc.entryKey)
         && !Contains(w.issues[n].body, CreateMarker(DedupKey(spec, doc)))
  }

  lemma SearchesEmptyIff(spec: Spec, doc: Doc, w: World, bot: string)
    ensures !OpenClaim(w.issues, spec, doc.entryKey, bot) && !OpenExact(w.issues, DedupKey(spec, doc), bot) <==>
            forall n: nat :: Live(w, n, bot) ==>
              && !Claims(w.issues[n].body, spec.ratchet, doc.entryKey)
              && !Contains(w.issues[n].body, CreateMarker(DedupKey(spec, doc)))
  {
    hide Claims, Contains, IsTrusted, CreateMarker;
    var key := DedupKey(spec, doc);
    if n: nat :| Live(w, n, bot) && Claims(w.issues[n].body, spec.ratchet, doc.entryKey) {
      assert ClaimedBy(w.issues, n, spec, doc.entryKey, bot);
    }
    if n: nat :| Live(w, n, bot) && Contains(w.issues[n].body, CreateMarker(key)) {
      assert MarkedBy(w.issues, n, key, bot);
    }
    if OpenClaim(w.issues, spec, doc.entryKey, bot) {
      var n: nat :| n in w.issues && ClaimedBy(w.issues, n, spec, doc.entryKey, bot);
      assert Live(w, n, bot);
    }
    if OpenExact(w.issues, key, bot) {
      var n: nat :| n in w.issues && MarkedBy(w.issues, n, key, bot);
      assert Live(w, n, bot);
    }
  }

  /** The branches of the decision, in order. */
  lemma DecisionIs(spec: Spec, doc: Doc, w: World, bot: string, writes: bool, now: int)
    ensures Free(spec, doc, w, bot, now) ==> Decide(spec, doc, w, bot, writes, now) == if writes then None else Some(WouldCreate)
    ensures !Free(spec, doc, w, bot, now) ==>
              && Decide(spec, doc, w, bot, writes, now) == Decide(spec, doc, w, bot, !writes, now)
              && Decide(spec, doc, w, bot, writes, now).Some?
              && !Decide(spec, doc, w, bot, writes, now).value.WouldCreate?
              && !Decide(spec, doc, w, bot, writes, now).value.CreatedSlice?
              && !Decide(spec, doc, w, bot, writes, now).value.WouldCloseParent?
  {
    PassesIffAllClosed(Ledger(w.comments, DedupKey(spec, doc), bot, now), w.issues, bot);
    SearchesEmptyIff(spec, doc, w, bot);
    hide Ledger, CheckLedger, OpenClaim, OpenExact, AllClosed, Accepted, Claims, Contains, Live, CreateMarker;
  }

  // ----- Without permission to write

  /**
   A run without permission to write changes nothing. It would create exactly when nothing stops the
   slice, and would close the parent exactly when there is no slice and the parent is open.
   */
  lemma DryRunWritesNothing(spec: Spec, doc: Option<Doc>, w: World, bot: string, now: int, reply: Reply)
    ensures var (w', outcome) := Run(spec, doc, w, bot, false, now, reply);
            && w' == w
            && (outcome == WouldCreate <==> doc.Some? && Free(spec, doc.value, w, bot, now))
            && (outcome == WouldCloseParent <==> doc.None? && w.parentOpen)
            && (outcome == ParentAlreadyClosed <== doc.None? && !w.parentOpen)
            && !outcome.CreatedSlice?
  {
    hide Decide, Free, PostIntent, PostIssue, PostLedger, SafeMarker;
    if doc.Some? {
      DecisionIs(spec, doc.value, w, bot, false, now);
    }
  }

  // ----- With permission to write

  /**
   A run with permission creates exactly when nothing stops the slice and its marker can be written.
   It then leaves the intent, unless it was there, one open issue and one ledger comment, and nothing
   else has changed; if the marker cannot be written only the intent is left. Without a slice the parent is closed afterwards.
   */
  lemma WritingRunIs(spec: Spec, doc: Option<Doc>, w: World, bot: string, now: int, reply: Reply)
    requires bot != ""
    ensures var (w', outcome) := Run(spec, doc, w, bot, true, now, reply);
            && (outcome.CreatedSlice? <==> doc.Some? && Free(spec, doc.value, w, bot, now) && SafeMarker(spec, doc.value))
            && (doc.None? ==> w' == World(w.issues, false, w.comments) && outcome == if w.parentOpen then ClosedParent else ParentAlreadyClosed)
            && (doc.Some? && !Free(spec, doc.value, w, bot, now) ==> w' == w)
            && (doc.Some? && Free(spec, doc.value, w, bot, now) ==>
                  var key := DedupKey(spec, doc.value);
                  var intent := if HasIntent(w.comments, key, bot) then [] else [Comment(Some(bot), IntentMarker(key) + "\n", Some(now))];
                  if SafeMarker(spec, doc.value) then
                    var shown := if reply.printed then Some(reply.number) else None;
                    && outcome == CreatedSlice(shown)
                    && w' == World(
                               w.issues[reply.number := Issue(true, Some(bot), IssueBody(spec, doc.value))],
                               w.parentOpen,
                               w.comments + intent + [Comment(Some(bot), CreatedMarker(key, shown) + "\n", Some(now))])
                  else outcome == Aborted && w' == World(w.issues, w.parentOpen, w.comments + intent))
  {
    hide Decide, Free, SafeMarker, HasIntent, IntentMarker, CreatedMarker, IssueBody;
    if doc.Some? {
      DecisionIs(spec, doc.value, w, bot, true, now);
      assert w.comments + [] == w.comments;
    }
  }

  /** Permission changes nothing about a run that something stops: both kinds report the same. */
  lemma PermissionOnlyWrites(spec: Spec, doc: Doc, w: World, bot: string, now: int, reply: Reply)
    requires bot != "" && !Free(spec, doc, w, bot, now)
    ensures Run(spec, Some(doc), w, bot, true, now, reply) == Run(spec, Some(doc), w, bot, false, now, reply)
  {
    hide Decide, Free, PostIntent, PostIssue, PostLedger, SafeMarker;
    DecisionIs(spec, doc, w, bot, true, now);
  }

  // ----- What stops a run

  /** The first ledger entry that does not name a closed trusted issue decides the outcome. */
  lemma {:induction false} LedgerStops(ledger: seq<Option<int>>, issues: map<nat, Issue>, bot: string, k: nat)
    requires k < |ledger| && AllClosed(ledger[..k], issues, bot) && !AllClosed([ledger[k]], issues, bot)
    ensures CheckLedger(ledger, issues, bot) == Some(
              match ledger[k]
              case None => HeldByLedger
              case Some(n) => if n in issues then DedupedLedger(n) else Aborted)
    decreases k
  {
    hide IsTrusted;
    if k == 0 {
      assert [ledger[0]][0] == ledger[0];
    } else {
      assert ledger[..k][0] == ledger[0];
      assert ledger[1..][..k - 1] == ledger[..k][1..];
      assert forall i :: 0 <= i < k - 1 ==> ledger[..k][1..][i] == ledger[..k][i + 1];
      LedgerStops(ledger[1..], issues, bot, k - 1);
    }
  }

  /** Behind a passed ledger: an open claim stops a run before an open issue with the create marker does. */
  lemma SearchStops(spec: Spec, doc: Doc, w: World, bot: string, writes: bool, now: int, reply: Reply)
    requires (writes ==> bot != "") && Accepted(DedupKey(spec, doc)) && Accepted(spec.ratchet)
    requires AllClosed(Ledger(w.comments, DedupKey(spec, doc), bot, now), w.issues, bot)
    ensures var outcome := Run(spec, Some(doc), w, bot, writes, now, reply).1;
            && (outcome == DedupedInFlight <==> exists n: nat :: Live(w, n, bot) && Claims(w.issues[n].body, spec.ratchet, doc.entryKey))
            && (outcome == DedupedExisting <==>
                  && (exists n: nat :: Live(w, n, bot) && Contains(w.issues[n].body, CreateMarker(DedupKey(spec, doc))))
                  && !(exists n: nat :: Live(w, n, bot) && Claims(w.issues[n].body, spec.ratchet, doc.entryKey)))
  {
    PassesIffAllClosed(Ledger(w.comments, DedupKey(spec, doc), bot, now), w.issues, bot);
    ClaimIff(spec, doc, w, bot);
    ExactIff(spec, doc, w, bot);
    hide Ledger, CheckLedger, OpenClaim, OpenExact, AllClosed, Accepted, Claims, Contains, Live, CreateMarker, PostIntent, PostIssue, PostLedger, SafeMarker;
  }

  lemma ClaimIff(spec: Spec, doc: Doc, w: World, bot: string)
    ensures OpenClaim(w.issues, spec, doc.entryKey, bot) <==>
            exists n: nat :: Live(w, n, bot) && Claims(w.issues[n].body, spec.ratchet, doc.entryKey)
  {
    hide Claims, IsTrusted;
    if n: nat :| Live(w, n, bot) && Claims(w.issues[n].body, spec.ratchet, doc.entryKey) {
      assert ClaimedBy(w.issues, n, spec, doc.entryKey, bot);
    }
  }

  lemma ExactIff(spec: Spec, doc: Doc, w: World, bot: string)
    ensures OpenExact(w.issues, DedupKey(spec, doc), bot) <==>
            exists n: nat :: Live(w, n, bot) && Contains(w.issues[n].body, CreateMarker(DedupKey(spec, doc)))
  {
    hide Contains, IsTrusted, CreateMarker;
    if n: nat :| Live(w, n, bot) && Contains(w.issues[n].body, CreateMarker(DedupKey(spec, doc))) {
      assert MarkedBy(w.issues, n, DedupKey(spec, doc), bot);
    }
  }

  // ----- Whose records count

  const SUFFIX := "[bot]"

  /** `core` is the login without the suffix of a bot account, which is dropped once. */
  ghost predicate Sheds(login: string, core: string) {
    login == core + SUFFIX || (login == core && !(|login| >= 5 && login[|login| - 5..] == SUFFIX))
  }

  lemma BareSheds(login: string)
    ensures forall core :: Sheds(login, core) <==> core == Bare(login)
  {
    forall core ensures Sheds(login, core) <==> core == Bare(login) {
      if login == core + SUFFIX {
        assert login[|core|..] == SUFFIX && login[..|core|] == core;
      }
      if |login| >= 5 && login[|login| - 5..] == SUFFIX {
        assert login == login[..|login| - 5] + SUFFIX;
      }
    }
  }

  /** Without a login everything is trusted; otherwise what has an author whose login agrees up to the suffix of a bot account. */
  lemma TrustedIff(author: Option<string>, bot: string)
    ensures IsTrusted(author, bot) <==> bot == "" || (author.Some? && exists core :: Sheds(author.value, core) && Sheds(bot, core))
  {
    hide Bare, Sheds;
    BareSheds(bot);
    if author.Some? {
      BareSheds(author.value);
      assert Sheds(author.value, Bare(author.value)) && Sheds(bot, Bare(bot));
    }
  }

  // ----- What a slice marker says

  lemma NamesDiffer(spec: Spec, doc: Doc)
    ensures |SliceAttrs(spec, doc)| == 10
    ensures forall j, k :: 0 <= j < k < 10 ==> SliceAttrs(spec, doc)[j].name != SliceAttrs(spec, doc)[k].name
  {
    var attrs := SliceAttrs(spec, doc);
    assert |attrs[0].name| == 6 && |attrs[1].name| == 7 && |attrs[2].name| == 6 && |attrs[3].name| == 5 && |attrs[4].name| == 11;
    assert |attrs[5].name| == 14 && |attrs[6].name| == 9 && |attrs[7].name| == 10 && |attrs[8].name| == 9 && |attrs[9].name| == 7;
    assert attrs[0].name[0] == 's' && attrs[2].name[0] == 'p';
    assert attrs[1].name[0] == 'r' && attrs[9].name[0] == 'e';
    assert attrs[6].name[0] == 'e' && attrs[8].name[0] == 'c';
  }

  lemma AttributeIs(spec: Spec, doc: Doc, k: nat)
    requires SafeMarker(spec, doc) && k < 10
    ensures MarkerAttribute(SliceMarker(spec, doc), SliceAttrs(spec, doc)[k].name) == Some(SliceAttrs(spec, doc)[k].value)
  {
    hide MarkerText, MarkerAttribute, CleanAttr, SafeMarker;
    SliceAttrsClean(spec, doc);
    HeadIsClean();
    NamesDiffer(spec, doc);
    AttributeReads(SLICE_HEAD, SliceAttrs(spec, doc), k);
  }

  /** A slice marker gives back every attribute of its slice. */
  lemma SliceMarkerIs(spec: Spec, doc: Doc)
    requires SafeMarker(spec, doc)
    ensures var m := SliceMarker(spec, doc);
            && MarkerAttribute(m, "schema") == Some(spec.schema)
            && MarkerAttribute(m, "ratchet") == Some(spec.ratchet)
            && MarkerAttribute(m, "parent") == Some(NatText(spec.parent))
            && MarkerAttribute(m, "dedup") == Some(spec.ratchet + "/slice/" + doc.fingerprint)
            && MarkerAttribute(m, "fingerprint") == Some(doc.fingerprint)
            && MarkerAttribute(m, "allowlist_path") == Some(spec.allowlistPath)
            && MarkerAttribute(m, "entry_key") == Some(doc.entryKey)
            && MarkerAttribute(m, "generation") == Some("1")
            && MarkerAttribute(m, "coord_ref") == Some("refs/fkst/migration-slices/" + doc.entryKey)
            && MarkerAttribute(m, "entries") == Some(doc.entryKey)
  {
    hide MarkerAttribute, SliceMarker, SafeMarker, NatText;
    forall k: nat | k < 10
      ensures MarkerAttribute(SliceMarker(spec, doc), SliceAttrs(spec, doc)[k].name) == Some(SliceAttrs(spec, doc)[k].value)
    {
      AttributeIs(spec, doc, k);
    }
    var attrs := SliceAttrs(spec, doc);
    assert |attrs| == 10 && attrs[0].name == "schema" && attrs[1].name == "ratchet" && attrs[2].name == "parent" && attrs[3].name == "dedup";
    assert attrs[4].name == "fingerprint" && attrs[5].name == "allowlist_path" && attrs[6].name == "entry_key";
    assert attrs[7].name == "generation" && attrs[8].name == "coord_ref" && attrs[9].name == "entries";
  }

  /** The marker can be written exactly if all its values can. */
  lemma SafeMarkerIff(spec: Spec, doc: Doc)
    ensures SafeMarker(spec, doc) <==> forall i :: 0 <= i < |SliceAttrs(spec, doc)| ==> Accepted(SliceAttrs(spec, doc)[i].value)
  {
    var attrs := SliceAttrs(spec, doc);
    SafeLiterals();
    HexIsSafe(doc.entryKey);
    SafeDigits(NatText(spec.parent));
    hide SafeValue, NatText, DedupKey;
    SafeConcat("refs/fkst/migration-slices/", doc.entryKey);
    assert attrs[0].value == spec.schema && attrs[1].value == spec.ratchet && attrs[3].value == DedupKey(spec, doc);
    assert attrs[4].value == doc.fingerprint && attrs[5].value == spec.allowlistPath && attrs[6].value == doc.entryKey;
  }

  lemma LastSlash(spec: Spec, doc: Doc)
    ensures var k, n := DedupKey(spec, doc), |spec.ratchet| + 6;
            && k[n] == '/' && (forall i :: n < i < |k| ==> k[i] != '/')
            && k[..|spec.ratchet|] == spec.ratchet && k[n + 1..] == doc.fingerprint
  {
    var k, n := DedupKey(spec, doc), |spec.ratchet| + 6;
    assert forall i :: n < i < |k| ==> k[i] == doc.fingerprint[i - n - 1];
  }

  /** A dedup key determines its ratchet and its fingerprint. */
  lemma DedupKeyIff(spec: Spec, doc: Doc, other: Spec, another: Doc)
    ensures DedupKey(spec, doc) == DedupKey(other, another) <==> spec.ratchet == other.ratchet && doc.fingerprint == another.fingerprint
  {
    LastSlash(spec, doc);
    LastSlash(other, another);
    if DedupKey(spec, doc) == DedupKey(other, another) {
      assert |spec.ratchet| == |other.ratchet|;
    }
  }

  /** An `entries` attribute names the keys between its commas, empty ones aside. */
  lemma EntryKeysAre(keys: seq<string>)
    requires keys != [] && forall i :: 0 <= i < |keys| ==> Lacks(keys[i], ',')
    ensures forall k :: k in EntryKeys(Join(",", keys)) <==> k in keys && k != ""
  {
    SplitJoin(keys, ',');
    hide Split, Join;
    assert "," == [','];
    var parts := Split(Join(",", keys), ',');
    forall k ensures k in EntryKeys(Join(",", keys)) <==> k in keys && k != "" {
      if k in keys && k != "" {
        var i :| 0 <= i < |parts| && parts[i] == k;
      }
    }
  }

  /** What an untrusted author comments is not in the ledger. */
  lemma StrangersLedgerIgnored(comments: seq<Comment>, c: Comment, key: string, bot: string, now: int)
    requires !IsTrusted(c.author, bot)
    ensures Ledger(comments + [c], key, bot, now) == Ledger(comments, key, bot, now)
  {
    hide IsTrusted, FindMarkers, Recent;
    LedgerConcat(comments, [c], key, bot, now);
    assert [c][1..] == [] && Ledger([], key, bot, now) == [];
    assert Ledger([c], key, bot, now) == [] + [];
  }

  /** The ledger has the entries of all markers of all trusted comments, and nothing else. */
  lemma {:induction false} LedgerMembers(comments: seq<Comment>, key: string, bot: string, now: int, e: Option<int>)
    ensures e in Ledger(comments, key, bot, now) <==>
            exists c :: c in comments && IsTrusted(c.author, bot) && Entered(c, key, now, e)
  {
    hide IsTrusted, FindMarkers, Recent, LedgerEntry, Entered;
    if comments != [] {
      LedgerMembers(comments[1..], key, bot, now, e);
      var c := comments[0];
      EntriesMembers(FindMarkers(CREATED_HEAD + " ", c.body, 0), key, Recent(c, now), e);
      EnteredIff(c, key, now, e);
      assert comments == [c] + comments[1..];
    }
  }

  /** Some created-marker of the comment gives the entry. */
  ghost predicate Entered(c: Comment, key: string, now: int, e: Option<int>) {
    exists m :: m in FindMarkers(CREATED_HEAD + " ", c.body, 0) && e in LedgerEntry(m, key, Recent(c, now))
  }

  lemma EnteredIff(c: Comment, key: string, now: int, e: Option<int>)
    ensures Entered(c, key, now, e) <==> exists m :: m in FindMarkers(CREATED_HEAD + " ", c.body, 0) && e in LedgerEntry(m, key, Recent(c, now))
  {
  }

  lemma {:induction false} EntriesMembers(markers: seq<string>, key: string, recent: bool, e: Option<int>)
    ensures e in LedgerEntries(markers, key, recent) <==> exists m :: m in markers && e in LedgerEntry(m, key, recent)
  {
    hide LedgerEntry;
    if markers != [] {
      EntriesMembers(markers[1..], key, recent, e);
      assert markers == [markers[0]] + markers[1..];
    }
  }

  /** A marker of the slice whose number cannot be read holds exactly while its comment is dated at most fifteen minutes back. */
  lemma UnreadableNumberHolds(marker: string, key: string, c: Comment, now: int)
    requires Contains(marker, "dedup=\"" + key + "\"")
    ensures var text, entry := MarkerAttribute(marker, "issue"), LedgerEntry(marker, key, Recent(c, now));
            if text.None? || text.value == "unknown" || PyInt(text.value).None? then
              entry == if c.created.Some? && c.created.value <= now <= c.created.value + 15 * 60 then [None] else []
            else
              entry == [Some(PyInt(text.value).value)]
  {
    hide Contains, MarkerAttribute, PyInt;
  }

  /** The ledger comment of another slice is not an entry of this one. */
  lemma OtherSliceNotInLedger(comments: seq<Comment>, key: string, other: string, bot: string, issue: Option<nat>, at: int, now: int)
    requires SafeValue(key) && SafeValue(other) && key != other
    ensures Ledger(comments + [Comment(Some(bot), CreatedMarker(other, issue) + "\n", Some(at))], key, bot, now)
         == Ledger(comments, key, bot, now)
  {
    var marker := CreatedMarker(other, issue);
    var c := Comment(Some(bot), marker + "\n", Some(at));
    hide FindMarkers, CreatedMarker, MarkerAttribute, IsMarker, IsTrusted, SafeValue, PyInt, Contains;
    CreatedMarkerReads(other, issue);
    OtherKeyNotContained(key, other, issue);
    HeadIsClean();
    FoundAt(CREATED_HEAD + " ", "", marker);
    assert "" + (marker + "\n") == marker + "\n";
    BotTrusted(bot);
    LedgerConcat(comments, [c], key, bot, now);
    SingleLedger(c, marker, key, bot, now);
  }

  /** A quoted safe value is found behind its name only where it was written. */
  lemma OtherKeyNotContained(key: string, other: string, issue: Option<nat>)
    requires SafeValue(key) && SafeValue(other) && key != other
    ensures !Contains(CreatedMarker(other, issue), "dedup=\"" + key + "\"")
  {
    var m, pattern := CreatedMarker(other, issue), "dedup=\"" + key + "\"";
    forall i: nat | i <= |m| ensures !OccursAt(m, pattern, i) {
      OtherKeyNotAt(key, other, issue, i);
    }
  }

  lemma OtherKeyNotAt(key: string, other: string, issue: Option<nat>, i: nat)
    requires SafeValue(key) && SafeValue(other) && key != other
    ensures !OccursAt(CreatedMarker(other, issue), "dedup=\"" + key + "\"", i)
  {
    var head, mid, rest := CreatedText(other, issue);
    hide CreatedMarker, OccursAt, SafeValue, Lacks;
    OnlyQuoted(key, other, head, mid, rest, i);
  }

  lemma OnlyQuoted(key: string, other: string, head: string, mid: string, rest: string, i: nat)
    requires SafeValue(key) && SafeValue(other) && key != other
    requires Lacks(head, '=') && Lacks(mid, '=') && Lacks(rest, '=') && mid != "" && mid[|mid| - 1] == 'e'
    requires |other| + 2 <= |mid| && mid[1..1 + |other|] == other && mid[1 + |other|] == '"'
    ensures !OccursAt(head + ['='] + (mid + ['='] + rest), "dedup=\"" + key + "\"", i)
  {
    hide OccursAt, SafeValue, Lacks;
    var m := head + ['='] + (mid + ['='] + rest);
    if OccursAt(m, "dedup=\"" + key + "\"", i) {
      EqualsAfterName(m, key, i);
      EqualsWhere(head, mid, rest, i + 5);
      QuotedAt(head, mid, rest, other);
      SameQuoted(m, key, other, i);
    }
  }

  lemma EqualsAfterName(m: string, key: string, i: nat)
    requires OccursAt(m, "dedup=\"" + key + "\"", i)
    ensures i + 5 < |m| && m[i + 4] == 'p' && m[i + 5] == '='
  {
    var pattern := "dedup=\"" + key + "\"";
    OccursChars(m, pattern, i);
    assert pattern[4] == 'p' && pattern[5] == '=';
    assert m[i + 4] == pattern[4] && m[i + 5] == pattern[5];
  }

  lemma QuotedAt(head: string, mid: string, rest: string, other: string)
    requires |other| + 2 <= |mid| && mid[1..1 + |other|] == other && mid[1 + |other|] == '"'
    ensures var m, k := head + ['='] + (mid + ['='] + rest), |head| + 2;
            k + |other| < |m| && m[k..k + |other|] == other && m[k + |other|] == '"'
  {
    var m, k := head + ['='] + (mid + ['='] + rest), |head| + 2;
    assert forall i :: 0 <= i < |mid| ==> m[|head| + 1 + i] == mid[i];
    assert m[k..k + |other|] == mid[1..1 + |other|];
  }

  /** The marker around its two equals signs. */
  lemma CreatedText(other: string, issue: Option<nat>) returns (head: string, mid: string, rest: string)
    requires SafeValue(other)
    ensures CreatedMarker(other, issue) == head + ['='] + (mid + ['='] + rest)
    ensures Lacks(head, '=') && Lacks(mid, '=') && Lacks(rest, '=')
    ensures mid != "" && mid[|mid| - 1] == 'e'
    ensures |other| + 2 <= |mid| && mid[0] == '"' && mid[1..1 + |other|] == other && mid[1 + |other|] == '"'
  {
    var number := if issue.None? then "unknown" else NatText(issue.value);
    head := CREATED_HEAD + (" " + "dedup");
    mid := "\"" + other + ("\"" + " issue");
    rest := "\"" + number + ("\"" + " -->");
    HeadIsClean();
    assert Lacks(other, '=') && Lacks(number, '=');
    hide NatText, SafeValue;
    PiecesLack(other, number);
    CreatedPieces(other, issue, number);
  }

  lemma PiecesLack(other: string, number: string)
    requires Lacks(other, '=') && Lacks(number, '=') && Lacks(CREATED_HEAD, '=')
    ensures Lacks(CREATED_HEAD + (" " + "dedup"), '=')
    ensures Lacks("\"" + other + ("\"" + " issue"), '=') && Lacks("\"" + number + ("\"" + " -->"), '=')
  {
  }

  lemma CreatedPieces(other: string, issue: Option<nat>, number: string)
    requires number == if issue.None? then "unknown" else NatText(issue.value)
    ensures CreatedMarker(other, issue)
         == CREATED_HEAD + (" " + "dedup") + ['='] + ("\"" + other + ("\"" + " issue") + ['='] + ("\"" + number + ("\"" + " -->")))
  {
    hide NatText;
    var attrs := CreatedAttrs(other, issue);
    assert "=\"" == ['='] + "\"" && " " + "issue" == " issue";
    assert attrs[1..] == [attrs[1]] && [attrs[1]][1..] == [];
    assert RenderAttrs(attrs[1..]) == RenderAttr(attrs[1]) + "";
    Regroup(CREATED_HEAD, " " + "dedup", ['='], "\"", other, " issue", number, " -->");
  }

  lemma Regroup(h: string, a: string, e: string, q: string, v: string, b: string, n: string, c: string)
    ensures h + (((a + (e + q) + v + q) + ((b + (e + q) + n + q) + "")) + c)
         == (h + a) + e + ((q + v + (q + b)) + e + (q + n + (q + c)))
  {
  }

  /** Of the two equals signs, the second does not follow a `p`. */
  lemma EqualsWhere(head: string, mid: string, rest: string, j: nat)
    requires Lacks(head, '=') && Lacks(mid, '=') && Lacks(rest, '=') && mid != "" && mid[|mid| - 1] == 'e'
    requires var m := head + ['='] + (mid + ['='] + rest); 0 < j < |m| && m[j] == '=' && m[j - 1] == 'p'
    ensures j == |head|
  {
    var m := head + ['='] + (mid + ['='] + rest);
    var second := |head| + 1 + |mid|;
    assert m[second] == '=' && m[second - 1] == mid[|mid| - 1];
    assert forall k :: 0 <= k < |head| ==> m[k] == head[k];
    assert forall k :: |head| < k < second ==> m[k] == mid[k - |head| - 1];
    assert forall k :: second < k < |m| ==> m[k] == rest[k - second - 1];
  }

  lemma SameQuoted(m: string, key: string, other: string, i: nat)
    requires SafeValue(key) && SafeValue(other)
    requires i + 8 + |other| <= |m| && m[i + 7..i + 7 + |other|] == other && i + 7 + |other| < |m| && m[i + 7 + |other|] == '"'
    requires OccursAt(m, "dedup=\"" + key + "\"", i)
    ensures key == other
  {
    var pattern := "dedup=\"" + key + "\"";
    var rest := m[i + 7..];
    OccursChars(m, pattern, i);
    assert pattern[7 + |key|] == '"' && forall k :: 0 <= k < |key| ==> pattern[7 + k] == key[k];
    assert rest[|key|] == m[i + (7 + |key|)];
    assert forall k :: 0 <= k < |key| ==> rest[k] == m[i + (7 + k)];
    assert rest[|other|] == '"' && forall k :: 0 <= k < |other| ==> rest[k] == m[i + 7..i + 7 + |other|][k];
    assert forall k :: 0 <= k < |key| ==> key[k] != '"';
    assert forall k :: 0 <= k < |other| ==> other[k] != '"';
    assert |key| == |other|;
  }
}
