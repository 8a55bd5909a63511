# Verified models of the repository guards

A Dafny model of the algorithms behind the repository's checkers and projections, with their main
properties proved for all inputs, all runs or all reachable states.

- **Library cycles** (`Graphs`, `Tarjan`, `CycleRatchet`): Tarjan's components with the explicit stack
  and low links, the rank-pruned search for simple cycles, the shrink-only allowlist.
- **Canonical JSON** (`Digits`, `CanonicalNumber`, `JsonStrings`, `CanonicalJson`, `JsonReader`,
  `CanonicalHeap`, `Compare`): decimals, strings, values as trees and as a heap of shared and possibly
  cyclic containers, a reader (sections 3 to 7 of RFC 8259), the first differing JSON Pointer
  (sections 3 and 4 of RFC 6901).
- **Semantic tree and diff** (`Framing`, `GitBatch`, `SemanticTree`, `SemanticDiff`): length framing,
  the parser of Git's batch output, the parser of raw diffs, sorting and exclusion.
- **Lua lexer and code mask** (`LuaLexer`, `CodeMask`): spans with incremental line numbers, blanking.
- **Ratchet slices** (`Markers`, `Reconciler`, `RunOutcomes`, `SliceProtocol`): the marker language, one run
  of the reconciler and what it may do, and the protocol of interrupted runs against a repository that changes under them.
- **Ratchets and indexes** (`Bags`, `CoverageRatchet`, `MonotoneGate`, `GateRatchet`,
  `ErrorIdentities`, `LexicalScopes`): counted comparisons, occurrence-numbered identities with their
  incremental scan, one-pass scope snapshots.
- **Workflow board** (`BoardFact`, `DedupKey`): the projection of a comment log and its dedup keys.

`Collections`, `Ordering`, `Strings` and `Results` are shared helpers. Bytes are `string` values of characters
below 256; Python's `str` in JSON is a sequence of code points, so that lone surrogates are
representable and fail. SHA-256, Git's output, GitHub's answers, the clock and the name classifiers
are parameters. A raised exception is `Failure`, whatever its class.

Loops and in-place updates of the source are methods and classes; each is proved equal to a
specification function, or directly against a property, and the lemmas are about those functions.

## Results that are false without a condition

- A second run of the reconciler may write: a run held by a ledger entry without a number is no
  longer held after fifteen minutes, although the slice it stands for was created and closed
  (`SliceProtocol.HoldExpires`). `SliceProtocol.SecondRunWritesNothing` gives the exact condition.
- Entry keys stay unique in all states of an execution exactly when no slice is created whose child
  text claims the key of an open slice (`SliceProtocol.SlicesStayUniqueIff`). A child text without the
  slice opener claims nothing (`Reconciler.PlainTextClaimsNothing`, `SliceProtocol.SlicesStayUnique`);
  one that repeats the marker of an open slice, behind text without the opener on its line, breaks
  uniqueness (`SliceProtocol.EchoedMarkerBreaksUnique`).
- The incremental target scan is a full scan exactly when no file is misread
  (`ErrorIdentities.IncrementalIff`). Files are misread for two reasons: `rglob("*.lua")` finds a file
  named just `.lua`, whose `Path.suffix` is empty (`ErrorIdentities.PlainPathMisreadIff`), and a path
  that contains `:fingerprint=` is reused by the part before it, which hides new calls
  (`ErrorIdentities.SeparatorHidesCalls`).
- Git's batch output is accepted exactly when it is a batch of the requested ids, unless a header has a
  negative size (`GitBatch.AcceptedIff`); one of minus one is read as an empty object
  (`GitBatch.MinusOneAccepted`).
- The text of a cycle determines its node set when no separator starts inside a name
  (`CycleRatchet.CanonicalCycleInjective`). Otherwise it may not (`CycleRatchet.AmbiguousText`); the
  text of a self-loop is shared exactly when it reads as two ascending parts
  (`CycleRatchet.SharedTextIff`).

## Model

| member | source | states |
|---|---|---|
| Tarjan.SccFinder.Visit | scripts/check_repo_dependency_cycle.py:64-88 | a visit keeps the stack and low-link invariant and leaves the node on the stack with its true low link, or emits its whole component |
| Tarjan.SccFinder.PopComponent | scripts/check_repo_dependency_cycle.py:81-88 | the pop loop removes exactly the stack section from the node upwards and returns it as a set |
| Tarjan.StronglyConnectedComponents | scripts/check_repo_dependency_cycle.py:56-93 | the components are the classes of mutual reachability, cover all nodes and are listed sinks first |
| Tarjan.ComponentUnique | scripts/check_repo_dependency_cycle.py:56-93 | every node lies in exactly one component |
| Tarjan.SharedIffMutual | scripts/check_repo_dependency_cycle.py:56-93 | two nodes share a component iff each reaches the other |
| Tarjan.LeavingEdgeGoesEarlier | scripts/check_repo_dependency_cycle.py:56-93 | an edge never leads to a component emitted later |
| CycleRatchet.CycleSearch.Visit | scripts/check_repo_dependency_cycle.py:105-112 | the search adds exactly the cycles that complete its path within the rank bound |
| CycleRatchet.SimpleCyclesInComponent | scripts/check_repo_dependency_cycle.py:100-116 | exactly the canonical texts of the simple cycles inside the component, although starts are pruned by rank |
| CycleRatchet.CyclesFromGraph | scripts/check_repo_dependency_cycle.py:119-128 | exactly the canonical texts of all simple cycles of the graph, self-loops included |
| CycleRatchet.CanonicalCycleInjective | scripts/check_repo_dependency_cycle.py:96-97 | the text determines the node set when no separator starts inside a name, even one that ends with the space after it |
| CycleRatchet.SharedTextIff | scripts/check_repo_dependency_cycle.py:96-97 | the text of a single node is the text of another node set iff the name is two ascending parts around a separator |
| CycleRatchet.AmbiguousText | scripts/check_repo_dependency_cycle.py:96-97 | two node sets with one text |
| CycleRatchet.NoCyclesIffAcyclic | scripts/check_repo_dependency_cycle.py:119-128 | no cycle is reported iff no node reaches itself by a non-empty walk |
| CycleRatchet.SilentIff | scripts/check_repo_dependency_cycle.py:158-176 | the ratchet is silent iff current cycles equal the allowlist and the allowlist stays within the base |
| CycleRatchet.MessageIff | scripts/check_repo_dependency_cycle.py:158-176 | exactly the cycles that are not allowed, the allowed ones that are gone, and, with a base, the allowed ones it lacks are reported |
| CycleRatchet.MessagesInOrder | scripts/check_repo_dependency_cycle.py:158-176 | new, stale and growing cycles are reported in this order, each kind sorted |
| CycleRatchet.HistoryShrinks | scripts/check_repo_dependency_cycle.py:158-176 | along accepted revisions the cycles stay within every earlier allowlist |
| CycleRatchet.EmptyAllowlistMeansAcyclic | scripts/check_repo_dependency_cycle.py:158-176 | once an accepted allowlist is empty, every later accepted graph is acyclic |
| CanonicalNumber.CanonicalTextReadsBack | scripts/intent_bounded_replay/normalize.py:50-82 | the text has no exponent, redundant zero or negative zero and reads back to the exact value |
| CanonicalNumber.CanonicalUnique | scripts/intent_bounded_replay/normalize.py:50-82 | one value has one such text |
| CanonicalNumber.CanonicalTextIffSame | scripts/intent_bounded_replay/normalize.py:50-82 | integers and finite decimals have equal texts iff they are numerically equal; exactly NaN and the infinities fail |
| CanonicalNumber.CanonicalTextChars | scripts/intent_bounded_replay/normalize.py:50-82 | the text uses number characters only, so that a delimiter ends it |
| JsonStrings.CharsReadBack | scripts/intent_bounded_replay/normalize.py:85-87 | whatever follows, the escaped bytes of a string read back to the string |
| JsonStrings.EscapesAreShortest | scripts/intent_bounded_replay/normalize.py:85-87 | only what must be escaped is escaped, and by a two-character escape wherever section 7 of RFC 8259 has one |
| JsonStrings.CanonicalStringPrefix | scripts/intent_bounded_replay/normalize.py:85-87 | quoted strings parse in one way: equal bytes followed by anything come from equal strings |
| JsonStrings.EncodableIff | scripts/intent_bounded_replay/normalize.py:85-87 | a string has bytes iff it has no lone surrogate |
| JsonStrings.EncodeUtf8Injective | scripts/intent_bounded_replay/normalize.py:116-118 | distinct keys have distinct sort bytes |
| CanonicalJson.CanonicalPrefix | scripts/intent_bounded_replay/normalize.py:90-138 | canonical values parse in one way, up to a delimiter that follows them |
| CanonicalJson.CanonicalIffSame | scripts/intent_bounded_replay/normalize.py:90-143 | two accepted values have equal bytes iff they are the same JSON value: objects as key maps, arrays elementwise, numbers by value |
| CanonicalJson.AcceptedIff | scripts/intent_bounded_replay/normalize.py:90-138 | encoding fails exactly for non-finite numbers, lone surrogates, duplicate keys and foreign values |
| JsonReader.CanonicalReadsBack | scripts/intent_bounded_replay/normalize.py:90-143 | whatever delimiter follows, a reader of RFC 8259 values gives back the same JSON value, with the keys of every object in increasing byte order |
| CanonicalHeap.Encoder.CanonicalJson | scripts/intent_bounded_replay/normalize.py:90-138 | on any heap the recursion terminates, restores the active containers and yields the bytes of the unfolded tree, or fails |
| CanonicalHeap.Encoder.EncodeList | scripts/intent_bounded_replay/normalize.py:127-136 | the same for a list, child by child |
| CanonicalHeap.Encoder.EncodeDict | scripts/intent_bounded_replay/normalize.py:102-125 | the same for a mapping, children in the order of their key bytes |
| CanonicalHeap.CollectKeys | scripts/intent_bounded_replay/normalize.py:108-117 | every slot is paired with its key bytes, or a duplicate or unencodable key makes the value fail |
| CanonicalHeap.CanonicalJsonTop | scripts/intent_bounded_replay/normalize.py:141-143 | from an empty set of active containers, the bytes of the unfolded tree or a failure |
| CanonicalHeap.TreeIffAcyclic | scripts/intent_bounded_replay/normalize.py:90-138 | a value denotes a finite tree iff no containment cycle is reachable from it |
| CanonicalHeap.EncoderMeaning | scripts/intent_bounded_replay/normalize.py:90-143 | the result is a failure iff a cycle is reachable or the tree is not acceptable; shared substructure gives the bytes of the tree |
| Compare.UnescapeEscape | scripts/intent_bounded_replay/compare.py:21-23 | escaping is inverted by the rule of section 4 of RFC 6901 and leaves no slash |
| Compare.PointerInjective | scripts/intent_bounded_replay/compare.py:21-23 | the pointer text determines its reference tokens |
| Compare.IndexTokenIs | scripts/intent_bounded_replay/compare.py:42-48 | the token of an array index is its decimal text |
| Compare.FirstDivergenceFinds | scripts/intent_bounded_replay/compare.py:26-51 | nothing is returned iff the values are the same; otherwise the pointer of the first divergence in canonical order, with all earlier siblings equal |
| Compare.FirstAtDiverges | scripts/intent_bounded_replay/compare.py:26-51 | at that pointer one side is absent, or the values differ and are not both objects or both arrays |
| Compare.WithoutRemoves | scripts/intent_bounded_replay/normalize.py:157-158 | deleting a key removes its member and keeps the others |
| Compare.ArtifactBodyIs | scripts/intent_bounded_replay/normalize.py:146-159 | an object with two of the three self-hash names is an error; otherwise its body has exactly the other members; any other value is its own body |
| Compare.CompareReportMeaning | scripts/intent_bounded_replay/compare.py:54-68 | there is a report iff both artifacts have encodable bodies; it carries their hashes, is equal iff these are, and otherwise has the first divergence of the bodies; same bodies are equal, and an equal report means same bodies unless the two digests collide |
| Compare.SelfHashIsIgnored | scripts/intent_bounded_replay/compare.py:54-68 | artifacts that differ only in one self-hash member each are reported equal, for every digest |
| Framing.FrameFields | scripts/intent_bounded_replay/semantic_tree.py:130-136 | the growing buffer ends as the concatenation of length-prefixed fields, or fails for a length past 64 bits |
| Framing.FramePrefix | scripts/intent_bounded_replay/semantic_tree.py:130-136 | framed fields of one arity parse in one way, whatever follows |
| Framing.FrameReadsBack | scripts/intent_bounded_replay/semantic_tree.py:130-136 | a reader of big-endian lengths gives back the fields, whatever follows; framing fails iff a field has 2^64 bytes or more |
| Framing.StreamInjective | scripts/intent_bounded_replay/semantic_tree.py:130-136 | a stream of records of one arity determines the records |
| Framing.StreamReadsBack | scripts/intent_bounded_replay/semantic_tree.py:166 | the joined frames are read back as the records, in order |
| GitBatch.ReadBlobs | scripts/intent_bounded_replay/semantic_tree.py:97-127 | the cursor loop computes the specified parse, with all its rejections |
| GitBatch.ReadBlobsInverts | scripts/intent_bounded_replay/semantic_tree.py:97-127 | every map from ids to arbitrary bytes is read back from its batch |
| GitBatch.AcceptedIff | scripts/intent_bounded_replay/semantic_tree.py:97-127 | unless a header has a negative size, the output is accepted iff it is, for every sorted id, a header of that id in any case, type and size, so many bytes and a newline; the result has these bytes |
| GitBatch.PyIntIff | scripts/intent_bounded_replay/semantic_tree.py:116-119 | a size is read iff the text is blanks, an optional sign, digits with single underscores between them, and blanks, and then with its value |
| GitBatch.SliceBounds | scripts/intent_bounded_replay/semantic_tree.py:104-124 | negative bounds count from the end and all bounds are clamped, as a negative size needs |
| GitBatch.MinusOneAccepted | scripts/intent_bounded_replay/semantic_tree.py:116-124 | an object of size minus one is accepted as empty although its output is no batch |
| GitBatch.TrailingBytesRejected | scripts/intent_bounded_replay/semantic_tree.py:125-126 | any bytes after the last object are rejected |
| GitBatch.TruncatedBatchRejected | scripts/intent_bounded_replay/semantic_tree.py:104-126 | every proper prefix of a batch is rejected |
| SemanticTree.TreeStreamIff | scripts/intent_bounded_replay/semantic_tree.py:143-167 | two tree streams are equal iff they have the same records (path, mode, content digest), in whatever order Git listed them |
| SemanticTree.TreeStreamReads | scripts/intent_bounded_replay/semantic_tree.py:143-167 | behind the domain, the stream of Git's listing and batch reads as path, mode and digest of the content of exactly the entries that are not excluded, in path order |
| SemanticTree.ManifestIff | scripts/intent_bounded_replay/semantic_tree.py:34-35 | a path is excluded iff it is the prefix, the decimal text of a positive number and the suffix |
| SemanticTree.ManifestEditsInvisible | scripts/intent_bounded_replay/semantic_tree.py:34-38 | reordering and edits confined to numbered manifests change neither the stream nor its failure |
| SemanticDiff.RawDiffEntries | scripts/intent_bounded_replay/semantic_tree.py:187-214 | the chunk loop computes the specified parse, with all its rejections |
| SemanticDiff.RawDiffInverts | scripts/intent_bounded_replay/semantic_tree.py:170-214 | every list of changes is parsed back from its raw diff, in order: an addition has only its new side, a deletion only its old side, any other change both |
| SemanticDiff.RawDiffIff | scripts/intent_bounded_replay/semantic_tree.py:187-214 | output is accepted iff it is the raw diff of some changes with status A, D, M or T, where the terminator of a last non-empty path may be missing |
| SemanticDiff.SortRowsIff | scripts/intent_bounded_replay/semantic_tree.py:254 | sorted rows are equal iff the rows are equal as multisets |
| SemanticDiff.DiffStreamIff | scripts/intent_bounded_replay/semantic_tree.py:217-256 | two diff streams are equal iff their records are equal as multisets |
| SemanticDiff.RowsOfStore | scripts/intent_bounded_replay/semantic_tree.py:248-253 | for Git's batch, the records have both sides' content digests, empty for a side that does not exist |
| SemanticDiff.DiffStreamReads | scripts/intent_bounded_replay/semantic_tree.py:231-256 | behind the domain, the stream reads as the records of exactly the entries that are not excluded, in tuple order |
| SemanticDiff.ContentsDecideStream | scripts/intent_bounded_replay/semantic_tree.py:217-256 | two diffs of the same changes have equal streams iff all contents on both sides have equal digests |
| SemanticDiff.ExcludedIff | scripts/intent_bounded_replay/semantic_tree.py:232-239 | a change is excluded iff one of its paths is a numbered manifest |
| SemanticDiff.KeptDecideStream | scripts/intent_bounded_replay/semantic_tree.py:217-256 | the stream, or its failure, depends only on the multiset of entries that are not excluded, not on Git's order |
| SemanticDiff.ManifestEditsInvisible | scripts/intent_bounded_replay/semantic_tree.py:232-239 | reordering and any edit confined to numbered manifests change neither the stream nor its failure |
| SemanticDiff.DomainsSeparate | scripts/intent_bounded_replay/semantic_tree.py:29-30 | no tree stream is a diff stream |
| SemanticDiff.BuildRows | scripts/intent_bounded_replay/semantic_tree.py:248-253 | the record loop yields one row for every kept entry, or fails for a missing object |
| SemanticDiff.SemanticDiffBytes | scripts/intent_bounded_replay/semantic_tree.py:231-256 | exclusion, reading, hashing, sorting and framing compose to the specified stream |
| LuaLexer.LongBracketOpener | packages/github-ratchet-migration-slicer/tools/check_repo_lua.py:84-94 | the cursor loop finds the level of the opener, if there is one |
| LuaLexer.OpenerMeaning | packages/github-ratchet-migration-slicer/tools/check_repo_lua.py:84-94 | a level is found iff exactly that many equals signs stand between two opening brackets |
| LuaLexer.LongBracketSpan | packages/github-ratchet-migration-slicer/tools/check_repo_lua.py:97-123 | the span of the specification |
| LuaLexer.LongBracketMeaning | packages/github-ratchet-migration-slicer/tools/check_repo_lua.py:97-123 | the span has the given kind and the level of its opener; its body ends at the first closer of the same level, or at the end of the text |
| LuaLexer.CloserChars | packages/github-ratchet-migration-slicer/tools/check_repo_lua.py:97-123 | a closer is as many equals signs as the opener has, between two closing brackets |
| LuaLexer.ShortStringSpan | packages/github-ratchet-migration-slicer/tools/check_repo_lua.py:126-151 | the escape-skipping loop yields the span of the specification |
| LuaLexer.ShortStringMeaning | packages/github-ratchet-migration-slicer/tools/check_repo_lua.py:126-151 | the span is a short string; its body ends at the first quote of its kind that no unescaped backslash precedes, or at the end of the text |
| LuaLexer.CommentMeaning | packages/github-ratchet-migration-slicer/tools/check_repo_lua.py:174-216 | a comment is long iff brackets are recognised and an opener follows the dashes, and then ends with the first closer of its level; any other ends before the first newline; without one, with the text |
| LuaLexer.IncrementalLines | packages/github-ratchet-migration-slicer/tools/check_repo_lua.py:219-279 | counting newlines from the current line gives the line numbers of the whole prefix |
| LuaLexer.Lex | packages/github-ratchet-migration-slicer/tools/check_repo_lua.py:219-279 | the incremental scan yields the spans with whole-prefix line, body line and end line |
| LuaLexer.TokensOrdered | packages/github-ratchet-migration-slicer/tools/check_repo_lua.py:219-279 | spans are non-empty, in bounds, ordered and disjoint |
| LuaLexer.TokensComplete | packages/github-ratchet-migration-slicer/tools/check_repo_lua.py:219-279 | every span opens where it starts and no opener is left outside the spans |
| LuaLexer.SpanKinds | packages/github-ratchet-migration-slicer/tools/check_repo_lua.py:219-279 | outside the other spans a long string starts iff an opener is recognised there, a short string iff a quote stands there, a comment iff comments are recognised and two dashes stand there, a long one iff an opener is recognised behind them |
| LuaLexer.LineNumberIs | packages/github-ratchet-migration-slicer/tools/check_repo_lua.py:219-279 | the line of a position is one more than the number of newlines before it |
| CodeMask.CodeMask | packages/github-ratchet-migration-slicer/tools/check_repo_lua.py:307-327 | the buffer ends blanked on the selected spans and untouched elsewhere |
| CodeMask.BlankRange | packages/github-ratchet-migration-slicer/tools/check_repo_lua.py:324-326 | the inner loop blanks the range in place, newlines excepted, and nothing else |
| CodeMask.MaskKeepsShape | packages/github-ratchet-migration-slicer/tools/check_repo_lua.py:307-327 | length and newlines are kept, selected spans become spaces, all else is unchanged |
| CodeMask.MaskIs | packages/github-ratchet-migration-slicer/tools/check_repo_lua.py:307-327 | a character becomes a space iff it is no newline and lies in a span of a selected kind that is not preserved |
| CodeMask.LexAfterMask | packages/github-ratchet-migration-slicer/tools/check_repo_lua.py:219-327 | lexing masked text yields exactly the spans that were not masked, with the same metadata |
| CodeMask.MaskCompose | packages/github-ratchet-migration-slicer/tools/check_repo_lua.py:307-327 | masking twice is masking once with both selections |
| CodeMask.FullMaskIsCode | packages/github-ratchet-migration-slicer/tools/check_repo_lua.py:307-327 | fully masked text has no spans and is a fixed point of masking |
| CodeMask.CommentMaskThenFullMask | packages/github-ratchet-migration-slicer/tools/check_repo_lua.py:307-327 | masking comments leaves exactly the spans of short and long strings, and a full mask after it is the full mask |
| Markers.FoundInBody | packages/github-ratchet-migration-slicer/tools/ratchet_migration_slicer.py:478-479 | a marker on the last line of a body is found after the markers of the text above it |
| Markers.FoundInText | packages/github-ratchet-migration-slicer/tools/ratchet_migration_slicer.py:478-479 | a marker behind other text on its line is found, whatever follows it, if that text does not contain the opening |
| Markers.AttributeReads | packages/github-ratchet-migration-slicer/tools/ratchet_migration_slicer.py:482-486 | every attribute written with safe values is read back, unless an earlier one has its name |
| Markers.AttributeIff | packages/github-ratchet-migration-slicer/tools/ratchet_migration_slicer.py:482-486 | an attribute is read iff it stands, quoted, behind no word character, and then with the value of its first such place |
| Markers.MarkerIsMarker | packages/github-ratchet-migration-slicer/tools/ratchet_migration_slicer.py:441-460 | a rendered marker is one match of the marker pattern, ending at its own end |
| Reconciler.SliceOverlapsEntry | packages/github-ratchet-migration-slicer/tools/ratchet_migration_slicer.py:498-507 | the loop decides whether some marker of the body claims the key for the ratchet |
| Reconciler.SliceMarkerReads | packages/github-ratchet-migration-slicer/tools/ratchet_migration_slicer.py:441-495 | the slice marker gives back its ratchet and its entries |
| Reconciler.IssueBodyClaims | packages/github-ratchet-migration-slicer/tools/ratchet_migration_slicer.py:628-640 | a created issue claims its own entry key for its own ratchet, and otherwise only what the text above the marker claims |
| Reconciler.PlainTextClaimsNothing | packages/github-ratchet-migration-slicer/tools/ratchet_migration_slicer.py:478-507 | a child text without the slice opener claims no key of any ratchet |
| Reconciler.ClaimsMatchesSearch | packages/github-ratchet-migration-slicer/tools/ratchet_migration_slicer.py:702-711 | every issue that claims a key passes the two text filters of the search |
| Reconciler.ParentLedger | packages/github-ratchet-migration-slicer/tools/ratchet_migration_slicer.py:578-603 | the nested loops collect the ledger entries of trusted comments in order |
| Reconciler.Github.Reconcile | packages/github-ratchet-migration-slicer/tools/ratchet_migration_slicer.py:660-741 | one undisturbed run: the new repository state, the outcome and the issue found, for every state, inventory, marker value and reply |
| RunOutcomes.DryRunWritesNothing | packages/github-ratchet-migration-slicer/tools/ratchet_migration_slicer.py:660-741 | a run without permission changes nothing, for every repository state, slice, clock and reply; it would create iff nothing stops the slice, and would close iff there is no slice and the parent is open |
| RunOutcomes.WritingRunIs | packages/github-ratchet-migration-slicer/tools/ratchet_migration_slicer.py:660-741 | with permission, a run creates iff nothing stops the slice and its marker can be written, and leaves intent, issue and ledger comment; without a slice the parent is closed afterwards |
| RunOutcomes.PermissionOnlyWrites | packages/github-ratchet-migration-slicer/tools/ratchet_migration_slicer.py:660-741 | a run that something stops has the same outcome with and without permission |
| RunOutcomes.LedgerStops | packages/github-ratchet-migration-slicer/tools/ratchet_migration_slicer.py:689-700 | the first ledger entry that names no closed trusted issue decides the outcome |
| RunOutcomes.SearchStops | packages/github-ratchet-migration-slicer/tools/ratchet_migration_slicer.py:702-731 | behind the ledger, an open claim on the key stops a run before an open issue with the create marker does |
| RunOutcomes.TrustedIff | packages/github-ratchet-migration-slicer/tools/ratchet_migration_slicer.py:510-522 | without a login everything is trusted; otherwise what has an author that agrees with the login when one suffix of a bot account is dropped on either side |
| RunOutcomes.StrangersLedgerIgnored | packages/github-ratchet-migration-slicer/tools/ratchet_migration_slicer.py:578-603 | a comment of an untrusted author leaves the ledger as it was |
| RunOutcomes.UnreadableNumberHolds | packages/github-ratchet-migration-slicer/tools/ratchet_migration_slicer.py:571-603 | a ledger marker without a readable number holds iff its comment is dated at most fifteen minutes back; one with a number always counts |
| RunOutcomes.OtherSliceNotInLedger | packages/github-ratchet-migration-slicer/tools/ratchet_migration_slicer.py:578-603 | the ledger comment of another slice is not an entry of this one |
| RunOutcomes.LedgerMembers | packages/github-ratchet-migration-slicer/tools/ratchet_migration_slicer.py:578-603 | the ledger has the entries of all markers of all trusted comments and no others |
| RunOutcomes.SliceMarkerIs | packages/github-ratchet-migration-slicer/tools/ratchet_migration_slicer.py:441-460 | a slice marker gives back all ten attributes of its slice |
| RunOutcomes.SafeMarkerIff | packages/github-ratchet-migration-slicer/tools/ratchet_migration_slicer.py:441-460 | the marker is written iff every value in it can be |
| RunOutcomes.DedupKeyIff | packages/github-ratchet-migration-slicer/tools/ratchet_migration_slicer.py:387 | two slices share a dedup key iff ratchet and fingerprint agree |
| RunOutcomes.EntryKeysAre | packages/github-ratchet-migration-slicer/tools/ratchet_migration_slicer.py:489-495 | an entries attribute names the non-empty keys between its commas |
| SliceProtocol.LedgerReadsBack | packages/github-ratchet-migration-slicer/tools/ratchet_migration_slicer.py:436-438 | the ledger comment of a create is read back as its number, or as unresolved for fifteen minutes |
| SliceProtocol.CreateIsSeen | packages/github-ratchet-migration-slicer/tools/ratchet_migration_slicer.py:688-740 | after a create, the next run sees the intent, finds the issue by both searches and reads its number, or an unresolved entry, in the ledger |
| SliceProtocol.SecondRunWritesNothing | packages/github-ratchet-migration-slicer/tools/ratchet_migration_slicer.py:660-741 | a second run at any time writes nothing iff the first was not held by an unresolved entry whose hold is over |
| SliceProtocol.HoldExpires | packages/github-ratchet-migration-slicer/tools/ratchet_migration_slicer.py:571-575 | after a create without a printed number and the closing of its issue, a run is held for fifteen minutes and one a second later creates again |
| SliceProtocol.PassesIffAllClosed | packages/github-ratchet-migration-slicer/tools/ratchet_migration_slicer.py:689-700 | the ledger lets a run pass iff every entry names a closed trusted issue |
| SliceProtocol.NewSliceHolds | packages/github-ratchet-migration-slicer/tools/ratchet_migration_slicer.py:739 | which open claims exist after a create |
| SliceProtocol.CreateKeepsUniqueIff | packages/github-ratchet-migration-slicer/tools/ratchet_migration_slicer.py:702-739 | after an empty search, a create keeps keys unique iff the text above its marker claims no held key |
| SliceProtocol.EchoedMarkerClaims | packages/github-ratchet-migration-slicer/tools/ratchet_migration_slicer.py:478-507 | a child text that repeats a slice marker, behind other text on its line, claims its key |
| SliceProtocol.EchoedMarkerBreaksUnique | packages/github-ratchet-migration-slicer/tools/ratchet_migration_slicer.py:702-739 | while the repeated slice is open, creating such a slice makes two open claims on one key |
| SliceProtocol.RunStepKeepsSafe | packages/github-ratchet-migration-slicer/tools/ratchet_migration_slicer.py:676-741 | a step of a run keeps the protocol invariant, and uniqueness, iff it is not the create of a slice whose child text claims a held key |
| SliceProtocol.SlicesStayUniqueIff | packages/github-ratchet-migration-slicer/tools/ratchet_migration_slicer.py:660-741 | in every execution, with interruptions anywhere and the repository changing in between, keys are unique in all states iff no created slice's child text claims the key of an open slice |
| SliceProtocol.SlicesStayUnique | packages/github-ratchet-migration-slicer/tools/ratchet_migration_slicer.py:660-741 | when child texts contain no slice opener, no two open trusted slices of the ratchet claim one key in any state of any execution |
| SliceProtocol.ClosingIsEnvironment | packages/github-ratchet-migration-slicer/tools/ratchet_migration_slicer.py:689-700 | closing an issue at any time opens no claim |
| SliceProtocol.StrangersAreEnvironment | packages/github-ratchet-migration-slicer/tools/ratchet_migration_slicer.py:519-522 | whatever an untrusted author posts opens no claim |
| SliceProtocol.OtherRatchetIsEnvironment | packages/github-ratchet-migration-slicer/tools/ratchet_migration_slicer.py:498-507 | a slice of another ratchet opens no claim on this one iff its child text claims nothing here; without the opener it never does |
| SliceProtocol.RunIsExecution | packages/github-ratchet-migration-slicer/tools/ratchet_migration_slicer.py:660-741 | every undisturbed run, on any slice, is an execution of the protocol from idle to idle |
| Bags.FindExcess | scripts/check_repo_coverage.py:573-581 | the counting loop reports exactly the entries whose occurrence number exceeds the allowance |
| Bags.ExcessIsDifference | scripts/check_repo_coverage.py:573-581 | the contents of the reported entries are the multiset difference |
| CoverageRatchet.RatchetMessages | scripts/check_repo_coverage.py:566-590 | uncovered lines beyond the allowlist, then, with a base, allowlist entries beyond the base |
| CoverageRatchet.StaleAllowlistMessages | scripts/check_repo_coverage.py:593-605 | allowlist entries beyond the uncovered lines |
| CoverageRatchet.MessageIff | scripts/check_repo_coverage.py:566-605 | a line, entry or stale entry is reported iff it stands past what the other side has of its content, and a growing entry only with a base |
| CoverageRatchet.MessagesInOrder | scripts/check_repo_coverage.py:566-590 | uncovered lines are reported before growing entries, both in the order of file, line and hash |
| CoverageRatchet.SameContentIff | scripts/check_repo_coverage.py:551-563 | two entries have one content iff file and hash agree |
| CoverageRatchet.ReportedCounts | scripts/check_repo_coverage.py:551-590 | per file and hash, max(0, uncovered - allowed) entries are reported |
| CoverageRatchet.ReportedExactly | scripts/check_repo_coverage.py:573-581 | an entry is reported iff the entries of its content up to it outnumber the allowance |
| CoverageRatchet.RenumberingKeepsReport | scripts/check_repo_coverage.py:551-563 | moving lines to other numbers changes neither the number nor the contents of the reports |
| CoverageRatchet.SilentIff | scripts/check_repo_coverage.py:566-605 | all checks are silent iff the uncovered debt is the allowed debt and within the base |
| CoverageRatchet.DebtNeverGrows | scripts/check_repo_coverage.py:566-590 | along accepted changes the debt of every content stays within the first allowlist |
| MonotoneGate.MovedEntryKeepsBucket | scripts/check_repo_monotone_gate.py:121-184 | recording a violation under its canonical path leaves its bucket unchanged, so the remapping is then a no-op |
| MonotoneGate.SameBucketIff | scripts/check_repo_monotone_gate.py:121-184 | away from moved paths, violations share a bucket iff path, kind, token and surface without its table name agree; lines never matter |
| MonotoneGate.AttributionCorrected | scripts/check_repo_monotone_gate.py:164-175 | a read of the review loop that was attributed to the truth table shares the bucket of its real owner |
| MonotoneGate.WithoutTableIs | scripts/check_repo_monotone_gate.py:164-165 | a surface loses exactly a name in front of its first dot |
| MonotoneGate.TokenIs | scripts/check_repo_monotone_gate.py:177-184 | only the two cursor calls are normalised, with spaces and the table dropped |
| MonotoneGate.RootedIs | scripts/check_repo_monotone_gate.py:130-132 | a path of the old library root is read under the new one, any other path as it is |
| MonotoneGate.MovedToOps | scripts/check_repo_monotone_gate.py:133-142 | where the files of the ops package went |
| MonotoneGate.MovedLater | scripts/check_repo_monotone_gate.py:143-161 | where the files that were split or renamed went |
| GateRatchet.GroupedViolations | scripts/check_repo_monotone_gate.py:505-509 | the grouping loop gives for every canonical key its violations, sorted |
| GateRatchet.BucketIs | scripts/check_repo_monotone_gate.py:505-509 | a bucket has every violation of its key, as often as it occurs, and no other |
| GateRatchet.Report | scripts/check_repo_monotone_gate.py:530-536 | the loop over sorted buckets reports the specified messages |
| GateRatchet.RatchetMessages | scripts/check_repo_monotone_gate.py:521-559 | the four comparisons of current, allowlist and base in order |
| GateRatchet.MessageIff | scripts/check_repo_monotone_gate.py:521-559 | a message is reported iff one of the four comparisons reports it, the last two only with a base |
| GateRatchet.MessagesInOrder | scripts/check_repo_monotone_gate.py:521-559 | the four comparisons report one after the other, each in the order of its keys |
| GateRatchet.OverExactly | scripts/check_repo_monotone_gate.py:530-558 | a bucket is reported iff it outnumbers the other side, with both counts and the entry just past the allowance |
| GateRatchet.OverOnce | scripts/check_repo_monotone_gate.py:530-558 | no comparison reports a bucket twice |
| GateRatchet.SilentIff | scripts/check_repo_monotone_gate.py:521-559 | with a base, silent iff current = allowlist <= base in every bucket |
| GateRatchet.DebtNeverGrows | scripts/check_repo_monotone_gate.py:521-559 | along accepted changes no bucket outgrows the first base |
| ErrorIdentities.LibrarySitesForSource | scripts/check_repo_error_class.py:139-148 | the loop numbers equal fingerprints in order |
| ErrorIdentities.IdentityInjective | scripts/check_repo_error_class.py:146 | an identity determines path, fingerprint and occurrence |
| ErrorIdentities.SiteIff | scripts/check_repo_error_class.py:139-148 | the occurrences of a fingerprint are numbered exactly 1 to its count |
| ErrorIdentities.SiteLocation | scripts/check_repo_error_class.py:139-148 | an occurrence is located at the line of its call |
| ErrorIdentities.CurrentLibraryDiagnostics | scripts/check_repo_error_class.py:151-160 | the scan of a tree, file by file |
| ErrorIdentities.FullScanSites | scripts/check_repo_error_class.py:151-160 | the scan holds exactly the sites of the scanned files, with their locations |
| ErrorIdentities.ScannedIs | scripts/check_repo_error_class.py:151-181 | a file is scanned iff its name ends in `.lua` and no component below the first is `tests`; it is rescanned iff its name is also longer |
| ErrorIdentities.OwnerOfIdentity | scripts/check_repo_error_class.py:175 | the owner of an identity is its path up to the first separator in it, the whole path iff there is none |
| ErrorIdentities.TargetLibrarySites | scripts/check_repo_error_class.py:163-187 | reuse and rescan compute the specified sites, or nothing when a file cannot be resolved |
| ErrorIdentities.UnresolvedIff | scripts/check_repo_error_class.py:163-187 | there is no target iff the changes, or a changed file to rescan, cannot be resolved |
| ErrorIdentities.IncrementalIff | scripts/check_repo_error_class.py:163-187 | reuse and rescan equal a full scan of the target iff no file is misread |
| ErrorIdentities.PlainPathMisreadIff | scripts/check_repo_error_class.py:171-181 | a path without the separator is misread iff it is a changed file named `.lua` with calls at the target |
| ErrorIdentities.SeparatorHidesCalls | scripts/check_repo_error_class.py:172-176 | the calls of a new file whose path contains the separator are never reported |
| ErrorIdentities.LibraryRatchetMessages | scripts/check_repo_error_class.py:217-236 | the loop reports, in order, the identities missing from the target, or from the allowlist |
| ErrorIdentities.MessageIff | scripts/check_repo_error_class.py:217-236 | an identity is reported with its location iff the target lacks it, or, without a target, the allowlist does |
| ErrorIdentities.MessagesAscend | scripts/check_repo_error_class.py:217-236 | identities are reported in order, each once |
| ErrorIdentities.ReportedOccurrences | scripts/check_repo_error_class.py:217-236 | against the incremental scan, exactly the occurrences past the target's count are reported of a file that is not misread |
| ErrorIdentities.ReportedCount | scripts/check_repo_error_class.py:217-236 | per file that is not misread and fingerprint, max(0, current - target) identities are reported |
| ErrorIdentities.NothingReportedIff | scripts/check_repo_error_class.py:217-236 | when no file is misread, nothing is reported iff no file has more calls of any fingerprint than at the target |
| LexicalScopes.VisibleBindings | scripts/check_repo_bot_login_mediation.py:268-272 | scopes merged from the outermost inwards |
| LexicalScopes.VisibleIsInnermost | scripts/check_repo_bot_login_mediation.py:268-272 | the merged bindings are those of innermost-scope lookup |
| LexicalScopes.AssignBinding | scripts/check_repo_bot_login_mediation.py:295-308 | a local goes to the innermost scope, any other name to the innermost scope that has it, else to the outermost |
| LexicalScopes.AssignedLookup | scripts/check_repo_bot_login_mediation.py:295-308 | after an assignment lookup sees the new state at the name and is unchanged elsewhere |
| LexicalScopes.WriteLands | scripts/check_repo_bot_login_mediation.py:295-308 | behind an inner scope, a local write stays in it and any other goes to the scope that has the name |
| LexicalScopes.OperandIs | scripts/check_repo_bot_login_mediation.py:284-292 | what a missing operand, a helper call, a bound name and any other operand evaluate to |
| LexicalScopes.ApplyEvent | scripts/check_repo_bot_login_mediation.py:323-342 | one event, and the scope stack is never empty |
| LexicalScopes.EventIs | scripts/check_repo_bot_login_mediation.py:323-342 | what opening, closing, alternatives and parameters do to the scopes |
| LexicalScopes.AssignmentIsSimultaneous | scripts/check_repo_bot_login_mediation.py:336-342 | every assigned name gets the value its last operand had before the assignment; other names keep theirs |
| LexicalScopes.BindingStatesBefore | scripts/check_repo_bot_login_mediation.py:311-345 | the one-pass snapshot at every index equals replaying all earlier events from scratch |
| LexicalScopes.SnapshotIsInnermost | scripts/check_repo_bot_login_mediation.py:311-345 | a snapshot answers with the innermost binding of the replayed scopes |
| LexicalScopes.BeforeSort | scripts/check_repo_bot_login_mediation.py:315 | selecting the earlier events commutes with the stable sort |
| LexicalScopes.EventOrder | scripts/check_repo_bot_login_mediation.py:315 | events come by position, then priority, and ties keep their order |
| LexicalScopes.LocalsDoNotEscape | scripts/check_repo_bot_login_mediation.py:323-342 | a closed block that assigns only locals leaves every scope as it was |
| LexicalScopes.NonlocalOutlivesBlock | scripts/check_repo_bot_login_mediation.py:295-342 | a write that is not local, in a block that does not bind its name, is seen after the block |
| BoardFact.CollectFacts | packages/github-devloop-workflow/tools/workflow_board_fact.py:262-295 | the nested loops fold the numbered markers of the log |
| BoardFact.LatestMaterializationBySlot | packages/github-devloop-workflow/tools/workflow_board_fact.py:298-311 | the loop keeps the specified fact per slot |
| BoardFact.LatestKeepsMaxima | packages/github-devloop-workflow/tools/workflow_board_fact.py:298-311 | for every slot with facts, and no other, a fact of that slot that is maximal by rank and number |
| BoardFact.RanksAscend | packages/github-devloop-workflow/tools/workflow_board_fact.py:298-311 | pending, generated and created supersede each other in this order, and among equals the later one is kept |
| BoardFact.LatestOrderIndependent | packages/github-devloop-workflow/tools/workflow_board_fact.py:298-311 | with distinct numbers the order of the facts does not matter |
| BoardFact.RankNeverDecreases | packages/github-devloop-workflow/tools/workflow_board_fact.py:298-311 | more facts never lower the rank of a slot |
| BoardFact.ProjectNumbers | packages/github-devloop-workflow/tools/workflow_board_fact.py:269-273 | the materializations of a log carry increasing numbers |
| BoardFact.StepsAre | packages/github-devloop-workflow/tools/workflow_board_fact.py:262-295 | the steps of a log are its valid materialization markers, numbered by their place |
| BoardFact.LastMarkerWins | packages/github-devloop-workflow/tools/workflow_board_fact.py:276-294 | the last valid blueprint, done or error, and hold or blocked marker of the log decide their facts |
| BoardFact.FinalIff | packages/github-devloop-workflow/tools/workflow_board_fact.py:314-327 | the board is parked as done or error iff the log holds a valid blueprint and a valid done or error marker, in any order |
| BoardFact.BoardIs | packages/github-devloop-workflow/tools/workflow_board_fact.py:314-345 | the board in every case: the last done or error marker decides, then the last hold or blocked marker before any step, then the steps; with which workflow, state and reason |
| BoardFact.NoBoardIff | packages/github-devloop-workflow/tools/workflow_board_fact.py:319-320 | there is no board iff the log names no workflow |
| BoardFact.TerminalIsSticky | packages/github-devloop-workflow/tools/workflow_board_fact.py:262-327 | once done or error, every extension of the log stays done or error |
| BoardFact.SlotRankIsMonotone | packages/github-devloop-workflow/tools/workflow_board_fact.py:262-311 | as comments are appended no slot disappears or falls back in rank |
| BoardFact.RunningMeaning | packages/github-devloop-workflow/tools/workflow_board_fact.py:335-343 | a running board names the slot whose retained fact is the newest, and its child once created |
| DedupKey.SanitizeMeaning | packages/github-devloop-workflow/tools/workflow_board_fact.py:145-152 | the non-empty segments are kept in order, unsafe characters and dot segments become dashes |
| DedupKey.ReplacedIs | packages/github-devloop-workflow/tools/workflow_board_fact.py:145-152 | which characters and segments become dashes |
| DedupKey.SanitizedIsClean | packages/github-devloop-workflow/tools/workflow_board_fact.py:145-152 | the result is non-empty, in the safe alphabet, without empty, "." or ".." segments |
| DedupKey.CleanIsFixed | packages/github-devloop-workflow/tools/workflow_board_fact.py:145-152 | a clean key is unchanged |
| DedupKey.SanitizeIdempotent | packages/github-devloop-workflow/tools/workflow_board_fact.py:145-152 | sanitizing twice is sanitizing once |
| DedupKey.DecimalChecksum | packages/github-devloop-workflow/tools/workflow_board_fact.py:138-142 | the loop yields exactly ten digits |
| DedupKey.ChecksumIsRemainder | packages/github-devloop-workflow/tools/workflow_board_fact.py:138-142 | the digits are the remainder of the polynomial in the bytes by the modulus |
| DedupKey.DedupKeyIsClean | packages/github-devloop-workflow/tools/workflow_board_fact.py:162-167 | a dedup key is clean and at most 512 bytes long, shortened or not |
| DedupKey.DedupKeyIs | packages/github-devloop-workflow/tools/workflow_board_fact.py:162-167 | a key of at most 512 bytes is the sanitized join; a longer one is its first 501 bytes without trailing slashes and dashes, a dash and the ten digits of the checksum of the whole |
| DedupKey.DedupKeyIsFixed | packages/github-devloop-workflow/tools/workflow_board_fact.py:162-167 | a dedup key is a fixed point |

## Left out

- Git and `gh` subprocesses, ref resolution, file-system walks, configuration loading and command lines: their results are parameters.
- Digests: SHA-256 is an uninterpreted function; where a claim needs it, the absence of a collision of the two texts at hand is a hypothesis. The ids and fingerprints a slice carries are inputs.
- Floats, and Python's limit on the digits of an integer text: numbers are integers, finite decimals or non-finite.
- Exception classes and messages, and the wording of ratchet messages: a message is a record of what it names.
- JSON input: `json.loads` and mapping keys that are not strings. `JsonReader` is a reference reader for canonical bytes; it accepts no white space between tokens.
- Mapping types whose iteration repeats a key, in `artifact_body_v1`: its `dict` copy keeps the last one, `Compare` treats the artifact as its members.
- The `ls-tree` listing is given as entries; its parser is not modelled.
- GitHub search lag and its 100-result limit, overlapping runs, reopened issues and bot issues created by other programs that claim this ratchet: `SliceProtocol` assumes their absence.
- Reconciler.Github.Reconcile: labels, titles and the check of the repository name are not modelled.
- Slices with several sites: their marker has an empty entry key, which `ensure_marker_value` rejects.
- Slice documents and the child issue text: `Reconciler.Doc` takes the two digests and the text as inputs.
- ErrorIdentities.IncrementalIff: Git answers about every path; an unresolved file ends the scan (`TargetLibrarySites`).
- Regular-expression heuristics: error calls, identity names, lifecycle cursors, scope tokens and assignments are given as calls, events and violations.
- BoardFact.CollectFacts: matching and validating board markers (attributes, limits, tail stamp) and comment authors is not modelled; a marker carries the fact it validates to, if any.
- `DedupKey` is modelled on sanitized text, which is ASCII, so that characters are bytes and truncation never splits a character.
- `block_delta`, `literal_spans` and `comment_spans` of the lexer, the remaining ratchets, scoreboards, manifests and attestations: they would add only easy members.
