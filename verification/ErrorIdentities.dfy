/**
 Occurrence-numbered identities of unclassified error calls in scripts/check_repo_error_class.py.
 The call detector and SHA-256 are parameters.
 */
module ErrorIdentities {
  import opened Digits
  import opened GitBatch
  import opened Markers
  import opened Ordering
  import opened Results
  import opened Strings

  datatype Call = Call(line: nat, message: string)

  /** The detector of unclassified calls in a source text, and the hex digest of a message. */
  datatype Scanner = Scanner(calls: string -> seq<Call>, digest: string -> string)

  ghost predicate HexDigest(sc: Scanner) {
    forall m :: Lacks(sc.digest(m), ':')
  }

  const PRINT := ":fingerprint="
  const OCCURRENCE := ":occurrence="

  function Identity(path: string, mark: string, n: nat): string {
    path + PRINT + (mark + OCCURRENCE + NatText(n))
  }

  function Location(path: string, line: nat): string {
    path + ":" + NatText(line)
  }

  // ----- The sites of one source

  /** How many calls have the fingerprint. */
  function Count(sc: Scanner, calls: seq<Call>, mark: string): nat {
    if calls == [] then 0
    else
      var n := |calls| - 1;
      Count(sc, calls[..n], mark) + (if sc.digest(calls[n].message) == mark then 1 else 0)
  }

  /** Identities with their locations: equal messages are told apart by their occurrence number. */
  function Sites(sc: Scanner, path: string, calls: seq<Call>): map<string, string> {
    if calls == [] then map[]
    else
      var n := |calls| - 1;
      var p := sc.digest(calls[n].message);
      Sites(sc, path, calls[..n])[Identity(path, p, Count(sc, calls, p)) := Location(path, calls[n].line)]
  }

  method LibrarySitesForSource(sc: Scanner, path: string, text: string) returns (sites: map<string, string>)
    ensures sites == Sites(sc, path, sc.calls(text))
  {
    hide Identity, Location;
    sites := map[];
    var occurrences: map<string, nat> := map[];
    var calls := sc.calls(text);
    for i := 0 to |calls|
      invariant sites == Sites(sc, path, calls[..i])
      invariant forall p :: Count(sc, calls[..i], p) == if p in occurrences then occurrences[p] else 0
    {
      assert calls[..i + 1][..i] == calls[..i];
      var mark := sc.digest(calls[i].message);
      var occurrence := (if mark in occurrences then occurrences[mark] else 0) + 1;
      occurrences := occurrences[mark := occurrence];
      sites := sites[Identity(path, mark, occurrence) := Location(path, calls[i].line)];
    }
    assert calls[..|calls|] == calls;
  }

  // ----- Identities parse in one way

  /** The text before and after the last `c`. */
  lemma LastSplitUnique(a: string, x: string, b: string, y: string, c: char)
    requires a + [c] + x == b + [c] + y && Lacks(x, c) && Lacks(y, c)
    ensures a == b && x == y
  {
    var s, t := a + [c] + x, b + [c] + y;
    assert |s| == |t|;
    assert forall i :: |a| < i < |s| ==> s[i] == x[i - |a| - 1];
    assert forall i :: |b| < i < |s| ==> t[i] == y[i - |b| - 1];
    assert s[|a|] == c && t[|b|] == c;
    assert |a| == |b|;
    assert a == s[..|a|] && b == t[..|b|] && x == s[|a| + 1..] && y == t[|b| + 1..];
  }

  lemma SuffixUnique(tag: string, x: string, y: string)
    requires tag + x == tag + y
    ensures x == y
  {
    assert (tag + x)[|tag|..] == x && (tag + y)[|tag|..] == y;
  }

  lemma IdentitySplits(p: string, f: string, n: nat)
    requires Lacks(f, ':')
    ensures Identity(p, f, n) == (p + [':'] + ("fingerprint=" + f)) + [':'] + ("occurrence=" + NatText(n))
    ensures Lacks("fingerprint=" + f, ':') && Lacks("occurrence=" + NatText(n), ':')
  {
    assert ":" + "fingerprint=" == PRINT && ":" + "occurrence=" == OCCURRENCE;
  }

  lemma IdentityInjective(p: string, f: string, n: nat, q: string, g: string, m: nat)
    requires Lacks(f, ':') && Lacks(g, ':')
    ensures Identity(p, f, n) == Identity(q, g, m) <==> p == q && f == g && n == m
  {
    if Identity(p, f, n) == Identity(q, g, m) {
      hide Identity, NatText, Lacks;
      IdentitySplits(p, f, n);
      IdentitySplits(q, g, m);
      var x, y, u, v := "occurrence=" + NatText(n), "occurrence=" + NatText(m), "fingerprint=" + f, "fingerprint=" + g;
      LastSplitUnique(p + [':'] + u, x, q + [':'] + v, y, ':');
      LastSplitUnique(p, u, q, v, ':');
      SuffixUnique("occurrence=", NatText(n), NatText(m));
      SuffixUnique("fingerprint=", f, g);
      NatTextInjective(n, m);
    }
  }

  /** The occurrences of a fingerprint are numbered 1 to its count. */
  lemma {:induction false} SiteIff(sc: Scanner, path: string, calls: seq<Call>, mark: string, n: nat)
    requires HexDigest(sc) && Lacks(mark, ':')
    ensures Identity(path, mark, n) in Sites(sc, path, calls) <==> 1 <= n <= Count(sc, calls, mark)
  {
    hide Identity, Location;
    if calls != [] {
      var k := |calls| - 1;
      var last := sc.digest(calls[k].message);
      SiteIff(sc, path, calls[..k], mark, n);
      IdentityInjective(path, mark, n, path, last, Count(sc, calls, last));
    }
  }

  /** Every site is an occurrence of a fingerprint. */
  lemma {:induction false} SiteShape(sc: Scanner, path: string, calls: seq<Call>, id: string) returns (mark: string, n: nat)
    requires HexDigest(sc) && id in Sites(sc, path, calls)
    ensures Lacks(mark, ':') && id == Identity(path, mark, n)
  {
    hide Identity, Location, Lacks;
    var k := |calls| - 1;
    mark := sc.digest(calls[k].message);
    n := Count(sc, calls, mark);
    if id != Identity(path, mark, n) {
      mark, n := SiteShape(sc, path, calls[..k], id);
    }
  }

  lemma OnePath(sc: Scanner, p: string, a: seq<Call>, q: string, b: seq<Call>, id: string)
    requires HexDigest(sc) && id in Sites(sc, p, a) && id in Sites(sc, q, b)
    ensures p == q
  {
    hide Sites, HexDigest, Identity, Lacks;
    var f, n := SiteShape(sc, p, a, id);
    var g, m := SiteShape(sc, q, b, id);
    IdentityInjective(p, f, n, q, g, m);
  }

  // ----- A scan of a tree

  /** The files below `libraries` with their texts. */
  type Tree = map<string, string>

  predicate EndsWith(s: string, t: string) {
    |s| >= |t| && s[|s| - |t|..] == t
  }

  /** The last component of a path. */
  function FileName(path: string): string {
    var parts := Split(path, '/');
    parts[|parts| - 1]
  }

  predicate InTests(path: string) {
    "tests" in Split(path, '/')[1..]
  }

  /** Found by `rglob("*.lua")` outside of tests. */
  predicate Scanned(path: string) {
    EndsWith(FileName(path), ".lua") && !InTests(path)
  }

  /** `Path.suffix` of a name that is only ".lua" is empty. */
  predicate Rescanned(path: string) {
    EndsWith(FileName(path), ".lua") && |FileName(path)| > 4 && !InTests(path)
  }

  function ScanPaths(sc: Scanner, paths: seq<string>, tree: Tree): map<string, string>
    requires forall p :: p in paths ==> p in tree
  {
    if paths == [] then map[]
    else
      var n := |paths| - 1;
      ScanPaths(sc, paths[..n], tree) + Sites(sc, paths[n], sc.calls(tree[paths[n]]))
  }

  function ScannedPaths(tree: Tree): set<string> {
    set p | p in tree && Scanned(p)
  }

  /** `current_library_diagnostics` on a tree. */
  function FullScan(sc: Scanner, tree: Tree): map<string, string> {
    ScanPaths(sc, Sorted(ScannedPaths(tree)), tree)
  }

  method CurrentLibraryDiagnostics(sc: Scanner, tree: Tree) returns (sites: map<string, string>)
    ensures sites == FullScan(sc, tree)
  {
    hide Sites, Scanned, Sorted;
    sites := map[];
    var paths := Sorted(ScannedPaths(tree));
    assert forall j :: 0 <= j < |paths| ==> paths[j] in paths && paths[j] in ScannedPaths(tree);
    for i := 0 to |paths|
      invariant forall p :: p in paths[..i] ==> p in tree
      invariant sites == ScanPaths(sc, paths[..i], tree)
    {
      assert paths[..i + 1][..i] == paths[..i] && paths[..i + 1] == paths[..i] + [paths[i]];
      var update := LibrarySitesForSource(sc, paths[i], tree[paths[i]]);
      sites := sites + update;
    }
    assert paths[..|paths|] == paths;
  }

  ghost predicate SiteIn(sc: Scanner, tree: Tree, p: string, id: string) {
    p in tree && Scanned(p) && id in Sites(sc, p, sc.calls(tree[p]))
  }

  lemma {:induction false} ScanPathsSites(sc: Scanner, paths: seq<string>, tree: Tree, id: string)
    requires HexDigest(sc) && forall p :: p in paths ==> p in tree
    ensures id in ScanPaths(sc, paths, tree) <==> exists p :: p in paths && id in Sites(sc, p, sc.calls(tree[p]))
    ensures forall p :: p in paths && id in Sites(sc, p, sc.calls(tree[p])) ==>
              id in ScanPaths(sc, paths, tree) && ScanPaths(sc, paths, tree)[id] == Sites(sc, p, sc.calls(tree[p]))[id]
  {
    hide Sites, HexDigest;
    if paths != [] {
      var n := |paths| - 1;
      assert paths == paths[..n] + [paths[n]];
      ScanPathsSites(sc, paths[..n], tree, id);
      forall p | p in paths && id in Sites(sc, p, sc.calls(tree[p])) && id in Sites(sc, paths[n], sc.calls(tree[paths[n]])) ensures p == paths[n] {
        OnePath(sc, p, sc.calls(tree[p]), paths[n], sc.calls(tree[paths[n]]), id);
      }
    }
  }

  lemma FullScanSites(sc: Scanner, tree: Tree, id: string)
    requires HexDigest(sc)
    ensures id in FullScan(sc, tree) <==> exists p :: SiteIn(sc, tree, p, id)
    ensures forall p :: SiteIn(sc, tree, p, id) ==>
              id in FullScan(sc, tree) && FullScan(sc, tree)[id] == Sites(sc, p, sc.calls(tree[p]))[id]
  {
    hide Sites, HexDigest, Scanned, ScanPaths;
    var paths := Sorted(ScannedPaths(tree));
    forall p ensures p in paths <==> p in tree && Scanned(p) {
      assert p in paths <==> p in ScannedPaths(tree);
    }
    ScanPathsSites(sc, paths, tree, id);
    forall p | SiteIn(sc, tree, p, id) ensures p in paths {
    }
    forall p | p in paths && id in Sites(sc, p, sc.calls(tree[p])) ensures SiteIn(sc, tree, p, id) {
    }
  }

  // ----- The incremental scan of the target

  /** Where `pattern` first occurs at or after `i`; the length of `s` if it does not. */
  function FirstAt(s: string, pattern: string, i: nat): (r: nat)
    requires i <= |s|
    ensures i <= r <= |s|
    ensures r < |s| ==> OccursAt(s, pattern, r)
    ensures forall j :: i <= j < r ==> !OccursAt(s, pattern, j)
    decreases |s| - i
  {
    if i == |s| || OccursAt(s, pattern, i) then i else FirstAt(s, pattern, i + 1)
  }

  /** `text.split(":fingerprint=", 1)[0]` */
  function Owner(text: string): string {
    text[..FirstAt(text, PRINT, 0)]
  }

  lemma InsidePath(path: string, rest: string, j: nat)
    requires j < |path|
    ensures OccursAt(path + PRINT + rest, PRINT, j) <==> OccursAt(path, PRINT, j)
  {
    var s := path + PRINT + rest;
    OccursChars(s, PRINT, j);
    OccursChars(path, PRINT, j);
    assert s[|path|] == PRINT[0] == ':';
    assert forall k :: 1 <= k < |PRINT| ==> PRINT[k] != ':';
    if j + |PRINT| <= |path| {
      assert forall k :: 0 <= k < |path| ==> s[k] == path[k];
    } else {
      assert s[j + (|path| - j)] == ':';
    }
  }

  /** The owner of an identity is the part of its path before the first separator, if the path has one. */
  lemma OwnerOfIdentity(path: string, mark: string, n: nat)
    ensures Owner(Identity(path, mark, n)) == Owner(path)
    ensures Owner(path) == path <==> !Contains(path, PRINT)
  {
    hide NatText;
    var rest := mark + OCCURRENCE + NatText(n);
    var s := path + PRINT + rest;
    assert s[|path|..|path| + |PRINT|] == PRINT;
    assert OccursAt(s, PRINT, |path|);
    forall j: nat | j < |path| ensures OccursAt(s, PRINT, j) <==> OccursAt(path, PRINT, j) {
      InsidePath(path, rest, j);
    }
    hide OccursAt;
    var r := FirstAt(path, PRINT, 0);
    assert FirstAt(s, PRINT, 0) == r;
    assert s[..r] == path[..r];
    NoEmptyMatch(path);
  }

  lemma NoEmptyMatch(path: string)
    ensures !OccursAt(path, PRINT, |path|)
  {
  }

  datatype FileStatus = Unresolved | Absent | Present(text: string)

  function Reused(current: map<string, string>, changed: set<string>): map<string, string> {
    map id | id in current && Owner(id) !in changed :: current[id]
  }

  /** The changed files rescanned at the target commit, added to `reused`. */
  function Rescan(sc: Scanner, paths: seq<string>, fileAt: string -> FileStatus, reused: map<string, string>): Option<map<string, string>> {
    if paths == [] then Some(reused)
    else
      var n := |paths| - 1;
      match Rescan(sc, paths[..n], fileAt, reused)
      case None => None
      case Some(target) =>
        if !Rescanned(paths[n]) then Some(target)
        else
          match fileAt(paths[n])
          case Unresolved => None
          case Absent => Some(target)
          case Present(text) => Some(target + Sites(sc, paths[n], sc.calls(text)))
  }

  function TargetSites(sc: Scanner, current: map<string, string>, changed: Option<set<string>>, fileAt: string -> FileStatus): Option<map<string, string>> {
    if changed.None? then None else Rescan(sc, Sorted(changed.value), fileAt, Reused(current, changed.value))
  }

  lemma {:induction false} RescanStuck(sc: Scanner, paths: seq<string>, i: nat, fileAt: string -> FileStatus, reused: map<string, string>)
    requires i <= |paths| && Rescan(sc, paths[..i], fileAt, reused).None?
    ensures Rescan(sc, paths, fileAt, reused).None?
    decreases |paths|
  {
    hide Rescanned, Sites;
    if i == |paths| {
      assert paths[..i] == paths;
    } else {
      var n := |paths| - 1;
      assert paths[..n][..i] == paths[..i];
      RescanStuck(sc, paths[..n], i, fileAt, reused);
    }
  }

  /** `changed` is absent when the target or its changes cannot be resolved. */
  method TargetLibrarySites(sc: Scanner, current: map<string, string>, changed: Option<set<string>>, fileAt: string -> FileStatus)
    returns (target: Option<map<string, string>>)
    ensures target == TargetSites(sc, current, changed, fileAt)
  {
    hide Sites, Rescanned, Owner, Sorted;
    if changed.None? {
      return None;
    }
    var paths := Sorted(changed.value);
    var reused := Reused(current, changed.value);
    var sites := reused;
    for i := 0 to |paths|
      invariant Rescan(sc, paths[..i], fileAt, reused) == Some(sites)
    {
      assert paths[..i + 1][..i] == paths[..i];
      if !Rescanned(paths[i]) {
        continue;
      }
      match fileAt(paths[i]) {
        case Unresolved =>
          RescanStuck(sc, paths, i + 1, fileAt, reused);
          return None;
        case Absent =>
        case Present(text) =>
          var update := LibrarySitesForSource(sc, paths[i], text);
          sites := sites + update;
      }
    }
    assert paths[..|paths|] == paths;
    return Some(sites);
  }

  /** What Git answers about a target commit with the given files. */
  ghost predicate Answers(fileAt: string -> FileStatus, target: Tree) {
    forall p :: fileAt(p) == if p in target then Present(target[p]) else Absent
  }

  /** Every path whose file differs between the two trees is listed. */
  ghost predicate ListsChanges(changed: set<string>, tree: Tree, target: Tree) {
    forall p :: p !in changed ==> (p in tree <==> p in target) && (p in tree ==> tree[p] == target[p])
  }

  ghost predicate Rescans(sc: Scanner, paths: seq<string>, target: Tree, p: string, id: string) {
    p in paths && Rescanned(p) && SiteIn(sc, target, p, id)
  }

  lemma RescannedIsScanned(p: string)
    requires Rescanned(p)
    ensures Scanned(p)
  {
  }

  lemma {:induction false} RescanSites(sc: Scanner, paths: seq<string>, fileAt: string -> FileStatus, target: Tree, reused: map<string, string>, id: string)
    requires HexDigest(sc) && Answers(fileAt, target)
    ensures var r := Rescan(sc, paths, fileAt, reused);
            && r.Some?
            && (id in r.value <==> id in reused || exists p :: Rescans(sc, paths, target, p, id))
            && (forall p :: Rescans(sc, paths, target, p, id) ==> id in r.value && r.value[id] == Sites(sc, p, sc.calls(target[p]))[id])
            && ((forall p :: !Rescans(sc, paths, target, p, id)) && id in reused ==> r.value[id] == reused[id])
  {
    hide Sites, HexDigest, Rescanned, Scanned;
    if paths != [] {
      var n := |paths| - 1;
      var last := paths[n];
      assert paths == paths[..n] + [last];
      RescanSites(sc, paths[..n], fileAt, target, reused, id);
      if Rescanned(last) {
        RescannedIsScanned(last);
      }
      forall p | SiteIn(sc, target, p, id) && SiteIn(sc, target, last, id) ensures p == last {
        OnePath(sc, p, sc.calls(target[p]), last, sc.calls(target[last]), id);
      }
      forall p ensures Rescans(sc, paths, target, p, id) <==>
                       Rescans(sc, paths[..n], target, p, id) || (p == last && Rescans(sc, paths, target, last, id)) {
      }
    }
  }

  /** The sites of one file in a scan of the tree. */
  ghost function SitesAt(sc: Scanner, tree: Tree, p: string): map<string, string> {
    if p in tree && Scanned(p) then Sites(sc, p, sc.calls(tree[p])) else map[]
  }

  ghost predicate Keeps(sc: Scanner, tree: Tree, changed: set<string>, p: string, id: string) {
    Owner(p) !in changed && SiteIn(sc, tree, p, id)
  }

  lemma OwnerOfSite(sc: Scanner, tree: Tree, p: string, id: string)
    requires HexDigest(sc) && SiteIn(sc, tree, p, id)
    ensures Owner(id) == Owner(p)
  {
    hide Sites, Scanned, Contains, Owner, Identity;
    var f, n := SiteShape(sc, p, sc.calls(tree[p]), id);
    OwnerOfIdentity(p, f, n);
  }

  lemma ReusedSites(sc: Scanner, tree: Tree, changed: set<string>, id: string)
    requires HexDigest(sc)
    ensures var r := Reused(FullScan(sc, tree), changed);
            && (id in r <==> exists p :: Keeps(sc, tree, changed, p, id))
            && (forall p :: Keeps(sc, tree, changed, p, id) ==> id in r && r[id] == Sites(sc, p, sc.calls(tree[p]))[id])
  {
    hide FullScan, Sites, HexDigest, Owner, SiteIn;
    FullScanSites(sc, tree, id);
    forall p | SiteIn(sc, tree, p, id) ensures Owner(id) == Owner(p) {
      OwnerOfSite(sc, tree, p, id);
    }
    forall p ensures Keeps(sc, tree, changed, p, id) <==> SiteIn(sc, tree, p, id) && Owner(id) !in changed {
    }
  }

  lemma SiteOnce(sc: Scanner, a: Tree, p: string, b: Tree, q: string, id: string)
    requires HexDigest(sc) && SiteIn(sc, a, p, id) && SiteIn(sc, b, q, id)
    ensures p == q
  {
    hide Sites, HexDigest;
    OnePath(sc, p, sc.calls(a[p]), q, sc.calls(b[q]), id);
  }

  ghost predicate IsRescanned(changed: set<string>, p: string) {
    p in changed && Rescanned(p)
  }

  /** The sites of one file in the incremental scan: reused ones under rescanned ones. */
  ghost function SeenAt(sc: Scanner, tree: Tree, target: Tree, changed: set<string>, p: string): map<string, string> {
    (if Owner(p) in changed then map[] else SitesAt(sc, tree, p)) + (if IsRescanned(changed, p) then SitesAt(sc, target, p) else map[])
  }

  /** The incremental scan, file by file. */
  lemma IncrementalSites(sc: Scanner, tree: Tree, target: Tree, changed: set<string>, fileAt: string -> FileStatus, id: string)
    requires HexDigest(sc) && Answers(fileAt, target)
    ensures var r := TargetSites(sc, FullScan(sc, tree), Some(changed), fileAt);
            && r.Some?
            && (id in r.value <==> exists p :: id in SeenAt(sc, tree, target, changed, p))
            && (forall p :: id in SeenAt(sc, tree, target, changed, p) ==>
                  id in r.value && r.value[id] == SeenAt(sc, tree, target, changed, p)[id])
  {
    hide FullScan, Sites, HexDigest, Rescanned, Reused, Rescan, Answers, Sorted, Owner, Scanned;
    var reused, paths := Reused(FullScan(sc, tree), changed), Sorted(changed);
    ReusedSites(sc, tree, changed, id);
    RescanSites(sc, paths, fileAt, target, reused, id);
    forall p ensures Rescans(sc, paths, target, p, id) <==> IsRescanned(changed, p) && id in SitesAt(sc, target, p) {
      assert p in paths <==> p in changed;
    }
    forall p, q | Keeps(sc, tree, changed, p, id) && Rescans(sc, paths, target, q, id) ensures p == q {
      SiteOnce(sc, tree, p, target, q, id);
    }
    forall p ensures id in SeenAt(sc, tree, target, changed, p) <==> Keeps(sc, tree, changed, p, id) || Rescans(sc, paths, target, p, id) {
    }
  }

  /**
   The sites of a file are reused when the part of its path before the first separator is unchanged,
   and rescanned when the path itself is changed and has the suffix. A file is misread if it is
   rescanned over reused calls that the target does not have, if it is only reused and changed, or if
   it is neither and has calls at the target.
   */
  ghost predicate Misread(sc: Scanner, tree: Tree, target: Tree, changed: set<string>, p: string) {
    if IsRescanned(changed, p) then
      Owner(p) !in changed && exists id :: id in SitesAt(sc, tree, p) && id !in SitesAt(sc, target, p)
    else if Owner(p) !in changed then SitesAt(sc, tree, p) != SitesAt(sc, target, p)
    else SitesAt(sc, target, p) != map[]
  }

  lemma MisreadIff(sc: Scanner, tree: Tree, target: Tree, changed: set<string>, p: string)
    ensures Misread(sc, tree, target, changed, p) <==> SeenAt(sc, tree, target, changed, p) != SitesAt(sc, target, p)
  {
    hide SitesAt, Owner, IsRescanned;
    var here, there, seen := SitesAt(sc, tree, p), SitesAt(sc, target, p), SeenAt(sc, tree, target, changed, p);
    if IsRescanned(changed, p) && Owner(p) !in changed && forall id :: id in here ==> id in there {
      assert seen == there;
    }
  }

  lemma ScanSites(sc: Scanner, tree: Tree, id: string)
    requires HexDigest(sc)
    ensures id in FullScan(sc, tree) <==> exists p :: id in SitesAt(sc, tree, p)
    ensures forall p :: id in SitesAt(sc, tree, p) ==> id in FullScan(sc, tree) && FullScan(sc, tree)[id] == SitesAt(sc, tree, p)[id]
  {
    hide FullScan, Sites, HexDigest, Scanned;
    FullScanSites(sc, tree, id);
    forall p ensures id in SitesAt(sc, tree, p) <==> SiteIn(sc, tree, p, id) {
    }
  }

  /** Reusing unchanged files and rescanning changed ones is a full scan of the target exactly when no file is misread. */
  lemma IncrementalIff(sc: Scanner, tree: Tree, target: Tree, changed: set<string>, fileAt: string -> FileStatus)
    requires HexDigest(sc) && Answers(fileAt, target)
    ensures TargetSites(sc, FullScan(sc, tree), Some(changed), fileAt) == Some(FullScan(sc, target)) <==>
            forall p :: !Misread(sc, tree, target, changed, p)
  {
    hide *;
    var r, full := TargetSites(sc, FullScan(sc, tree), Some(changed), fileAt), FullScan(sc, target);
    if p :| Misread(sc, tree, target, changed, p) {
      MisreadIff(sc, tree, target, changed, p);
      var id := Differs(SeenAt(sc, tree, target, changed, p), SitesAt(sc, target, p));
      IncrementalSites(sc, tree, target, changed, fileAt, id);
      ScanSites(sc, target, id);
      OnlyHere(sc, tree, target, changed, p, id);
    } else {
      forall id ensures r.Some? && (id in r.value <==> id in full) && (id in r.value ==> r.value[id] == full[id]) {
        forall p { MisreadIff(sc, tree, target, changed, p); }
        IncrementalSites(sc, tree, target, changed, fileAt, id);
        ScanSites(sc, target, id);
      }
      IncrementalSites(sc, tree, target, changed, fileAt, "");
      assert r.value == full;
    }
  }

  lemma Differs(a: map<string, string>, b: map<string, string>) returns (id: string)
    requires a != b
    ensures (id in a) != (id in b) || (id in a && id in b && a[id] != b[id])
  {
    if k :| (k in a) != (k in b) {
      id := k;
    } else {
      assert a.Keys == b.Keys;
      id :| id in a && a[id] != b[id];
    }
  }

  /** No identity belongs to two files. */
  lemma OnlyHere(sc: Scanner, tree: Tree, target: Tree, changed: set<string>, p: string, id: string)
    requires HexDigest(sc)
    ensures forall q :: id in SeenAt(sc, tree, target, changed, p) && id in SitesAt(sc, target, q) ==> q == p
    ensures forall q :: id in SitesAt(sc, target, p) && id in SeenAt(sc, tree, target, changed, q) ==> q == p
  {
    hide Sites, HexDigest, Scanned, Rescanned, Owner;
    forall x, q | id in SeenAt(sc, tree, target, changed, x) && id in SitesAt(sc, target, q) ensures q == x {
      if id in SitesAt(sc, target, x) {
        SiteOnce(sc, target, x, target, q, id);
      } else {
        SiteOnce(sc, tree, x, target, q, id);
      }
    }
  }

  lemma OnlyDotLuaSkipped(p: string)
    ensures Scanned(p) && !Rescanned(p) <==> FileName(p) == ".lua" && !InTests(p)
  {
    hide FileName, InTests;
    var name := FileName(p);
    assert EndsWith(name, ".lua") && |name| == 4 <==> name == ".lua" by {
      if |name| == 4 {
        assert name[0..] == name;
      }
    }
  }

  /**
   When every difference is listed, a path without the separator is misread only if it is a changed file named
   ".lua" with calls at the target.
   */
  lemma PlainPathMisreadIff(sc: Scanner, tree: Tree, target: Tree, changed: set<string>, p: string)
    requires ListsChanges(changed, tree, target) && !Contains(p, PRINT)
    ensures Misread(sc, tree, target, changed, p) <==>
            p in changed && p in target && FileName(p) == ".lua" && !InTests(p) && sc.calls(target[p]) != []
  {
    hide FileName, InTests, Scanned, Rescanned, Contains, Owner, Identity;
    OwnerOfIdentity(p, "", 0);
    OnlyDotLuaSkipped(p);
    if p in changed && Rescanned(p) {
      RescannedIsScanned(p);
    }
    if p in target && Scanned(p) {
      SitesEmptyIff(sc, p, sc.calls(target[p]));
    }
  }

  lemma SitesEmptyIff(sc: Scanner, path: string, calls: seq<Call>)
    ensures Sites(sc, path, calls) == map[] <==> calls == []
  {
    hide Identity, Location;
    if calls != [] {
      var n := |calls| - 1;
      var f := sc.digest(calls[n].message);
      assert Identity(path, f, Count(sc, calls, f)) in Sites(sc, path, calls);
    }
  }

  // ----- What the comparison reports

  datatype Message = New(location: string, id: string) | Unlisted(location: string, id: string)

  function Known(id: string, allowlist: set<string>, target: Option<map<string, string>>): bool {
    if target.Some? then id in target.value else id in allowlist
  }

  function MessageFor(id: string, location: string, target: Option<map<string, string>>): Message {
    if target.Some? then New(location, id) else Unlisted(location, id)
  }

  function MessagesFor(ids: seq<string>, current: map<string, string>, allowlist: set<string>, target: Option<map<string, string>>): seq<Message>
    requires forall id :: id in ids ==> id in current
  {
    if ids == [] then []
    else
      var n := |ids| - 1;
      MessagesFor(ids[..n], current, allowlist, target)
      + (if Known(ids[n], allowlist, target) then [] else [MessageFor(ids[n], current[ids[n]], target)])
  }

  method LibraryRatchetMessages(current: map<string, string>, allowlist: set<string>, target: Option<map<string, string>>) returns (messages: seq<Message>)
    ensures messages == MessagesFor(Sorted(current.Keys), current, allowlist, target)
  {
    hide Sorted, Increasing;
    messages := [];
    var ids := Sorted(current.Keys);
    assert forall j :: 0 <= j < |ids| ==> ids[j] in ids && ids[j] in current;
    for i := 0 to |ids|
      invariant forall id :: id in ids[..i] ==> id in current
      invariant messages == MessagesFor(ids[..i], current, allowlist, target)
    {
      assert ids[..i + 1][..i] == ids[..i] && ids[..i + 1] == ids[..i] + [ids[i]];
      if target.Some? {
        if ids[i] !in target.value {
          messages := messages + [New(current[ids[i]], ids[i])];
        }
      } else if ids[i] !in allowlist {
        messages := messages + [Unlisted(current[ids[i]], ids[i])];
      }
    }
    assert ids[..|ids|] == ids;
  }

  ghost function ReportedIds(ms: seq<Message>): set<string> {
    set m | m in ms :: m.id
  }

  lemma {:induction false} MessagesReport(ids: seq<string>, current: map<string, string>, allowlist: set<string>, target: Option<map<string, string>>, id: string)
    requires forall x :: x in ids ==> x in current
    ensures id in ReportedIds(MessagesFor(ids, current, allowlist, target)) <==> id in ids && !Known(id, allowlist, target)
  {
    if ids == [] {
      assert ReportedIds([]) == {};
    } else {
      var n := |ids| - 1;
      assert ids == ids[..n] + [ids[n]];
      MessagesReport(ids[..n], current, allowlist, target, id);
      var early := MessagesFor(ids[..n], current, allowlist, target);
      var last := MessageFor(ids[n], current[ids[n]], target);
      forall x ensures x in ReportedIds(early + [last]) <==> x in ReportedIds(early) || x == last.id {
        assert last in early + [last];
      }
      assert early + [] == early;
    }
  }

  /** How many calls of a tree have the fingerprint in the file. */
  ghost function CountIn(sc: Scanner, tree: Tree, p: string, mark: string): nat {
    if p in tree && Scanned(p) then Count(sc, sc.calls(tree[p]), mark) else 0
  }

  lemma ScanCounts(sc: Scanner, tree: Tree, p: string, mark: string, n: nat)
    requires HexDigest(sc) && Lacks(mark, ':')
    ensures Identity(p, mark, n) in FullScan(sc, tree) <==> 1 <= n <= CountIn(sc, tree, p, mark)
  {
    hide FullScan, Scanned, Identity, HexDigest, Lacks, Sites;
    var id := Identity(p, mark, n);
    FullScanSites(sc, tree, id);
    if p in tree {
      SiteIff(sc, p, sc.calls(tree[p]), mark, n);
    }
    forall q | SiteIn(sc, tree, q, id) ensures q == p {
      var g, m := SiteShape(sc, q, sc.calls(tree[q]), id);
      IdentityInjective(p, mark, n, q, g, m);
    }
  }

  /** What the comparison of the working tree with the incremental scan of the target reports. */
  ghost function Reported(sc: Scanner, tree: Tree, changed: set<string>, fileAt: string -> FileStatus): set<string> {
    var current := FullScan(sc, tree);
    ReportedIds(MessagesFor(Sorted(current.Keys), current, {}, TargetSites(sc, current, Some(changed), fileAt)))
  }

  lemma ReportedIff(sc: Scanner, tree: Tree, target: Tree, changed: set<string>, fileAt: string -> FileStatus, p: string, id: string)
    requires HexDigest(sc) && Answers(fileAt, target)
    ensures id in Reported(sc, tree, changed, fileAt) ==> id in FullScan(sc, tree)
    ensures id in SitesAt(sc, tree, p) ==>
            (id in Reported(sc, tree, changed, fileAt) <==> id !in SeenAt(sc, tree, target, changed, p))
  {
    hide FullScan, HexDigest, MessagesFor, ReportedIds, Sorted, Answers, TargetSites, SitesAt, SeenAt;
    var current := FullScan(sc, tree);
    MessagesReport(Sorted(current.Keys), current, {}, TargetSites(sc, current, Some(changed), fileAt), id);
    IncrementalSites(sc, tree, target, changed, fileAt, id);
    ScanSites(sc, tree, id);
    if id in SitesAt(sc, tree, p) {
      SeenHere(sc, tree, target, changed, p, id);
    }
  }

  lemma SeenHere(sc: Scanner, tree: Tree, target: Tree, changed: set<string>, p: string, id: string)
    requires HexDigest(sc) && id in SitesAt(sc, tree, p)
    ensures forall q :: id in SeenAt(sc, tree, target, changed, q) ==> q == p
  {
    hide Sites, HexDigest, Scanned, Rescanned, Owner;
    forall q | id in SeenAt(sc, tree, target, changed, q) ensures q == p {
      if id in SitesAt(sc, target, q) {
        SiteOnce(sc, target, q, tree, p, id);
      } else {
        SiteOnce(sc, tree, q, tree, p, id);
      }
    }
  }

  lemma SiteCounts(sc: Scanner, tree: Tree, p: string, mark: string, n: nat)
    requires HexDigest(sc) && Lacks(mark, ':')
    ensures Identity(p, mark, n) in SitesAt(sc, tree, p) <==> 1 <= n <= CountIn(sc, tree, p, mark)
  {
    hide Scanned, Identity, HexDigest, Lacks, Sites;
    if p in tree {
      SiteIff(sc, p, sc.calls(tree[p]), mark, n);
    }
  }

  /** Of a file that is not misread, exactly the occurrences past the count of the target are reported. */
  lemma ReportedOccurrences(sc: Scanner, tree: Tree, target: Tree, changed: set<string>, fileAt: string -> FileStatus, p: string, mark: string, n: nat)
    requires HexDigest(sc) && Lacks(mark, ':') && Answers(fileAt, target) && !Misread(sc, tree, target, changed, p)
    ensures Identity(p, mark, n) in Reported(sc, tree, changed, fileAt) <==>
            CountIn(sc, target, p, mark) < n <= CountIn(sc, tree, p, mark)
  {
    hide *;
    var id := Identity(p, mark, n);
    ScanCounts(sc, tree, p, mark, n);
    SiteCounts(sc, tree, p, mark, n);
    SiteCounts(sc, target, p, mark, n);
    ReportedIff(sc, tree, target, changed, fileAt, p, id);
    MisreadIff(sc, tree, target, changed, p);
  }

  ghost function ReportedAt(sc: Scanner, tree: Tree, changed: set<string>, fileAt: string -> FileStatus, p: string, mark: string): set<string> {
    set n: nat | n <= CountIn(sc, tree, p, mark) && Identity(p, mark, n) in Reported(sc, tree, changed, fileAt) :: Identity(p, mark, n)
  }

  lemma {:induction false} OccurrenceRange(p: string, mark: string, a: nat, b: nat)
    requires a <= b && Lacks(mark, ':')
    ensures |set n: nat | a < n <= b :: Identity(p, mark, n)| == b - a
    decreases b - a
  {
    hide Identity, Lacks;
    var all := set n: nat | a < n <= b :: Identity(p, mark, n);
    if a == b {
      assert all == {};
    } else {
      var init := set n: nat | a < n <= b - 1 :: Identity(p, mark, n);
      OccurrenceRange(p, mark, a, b - 1);
      assert all == init + {Identity(p, mark, b)};
      forall n: nat | a < n <= b - 1 ensures Identity(p, mark, n) != Identity(p, mark, b) {
        IdentityInjective(p, mark, n, p, mark, b);
      }
    }
  }

  /** The set difference of identities is the multiset difference of calls. */
  lemma ReportedCount(sc: Scanner, tree: Tree, target: Tree, changed: set<string>, fileAt: string -> FileStatus, p: string, mark: string)
    requires HexDigest(sc) && Lacks(mark, ':') && Answers(fileAt, target) && !Misread(sc, tree, target, changed, p)
    ensures var a, b := CountIn(sc, target, p, mark), CountIn(sc, tree, p, mark);
            |ReportedAt(sc, tree, changed, fileAt, p, mark)| == if b > a then b - a else 0
  {
    hide Identity, Lacks, Reported, CountIn, HexDigest, Answers, Misread;
    var a, b := CountIn(sc, target, p, mark), CountIn(sc, tree, p, mark);
    forall n: nat { ReportedOccurrences(sc, tree, target, changed, fileAt, p, mark, n); }
    var low := if b > a then a else b;
    assert ReportedAt(sc, tree, changed, fileAt, p, mark) == set n: nat | low < n <= b :: Identity(p, mark, n);
    OccurrenceRange(p, mark, low, b);
  }

  /** When no file is misread, nothing is reported exactly when no file has more calls of any fingerprint than at the target. */
  lemma NothingReportedIff(sc: Scanner, tree: Tree, target: Tree, changed: set<string>, fileAt: string -> FileStatus)
    requires HexDigest(sc) && Answers(fileAt, target) && forall p :: !Misread(sc, tree, target, changed, p)
    ensures Reported(sc, tree, changed, fileAt) == {} <==>
            forall p, mark :: Lacks(mark, ':') ==> CountIn(sc, tree, p, mark) <= CountIn(sc, target, p, mark)
  {
    hide Identity, Lacks, Reported, CountIn, HexDigest, Answers, Misread, FullScan, Sites;
    if Reported(sc, tree, changed, fileAt) == {} {
      forall p, mark | Lacks(mark, ':') ensures CountIn(sc, tree, p, mark) <= CountIn(sc, target, p, mark) {
        ReportedOccurrences(sc, tree, target, changed, fileAt, p, mark, CountIn(sc, tree, p, mark));
      }
    } else {
      var id :| id in Reported(sc, tree, changed, fileAt);
      ReportedIff(sc, tree, target, changed, fileAt, "", id);
      FullScanSites(sc, tree, id);
      var p :| SiteIn(sc, tree, p, id);
      var mark, n := SiteShape(sc, p, sc.calls(tree[p]), id);
      ReportedOccurrences(sc, tree, target, changed, fileAt, p, mark, n);
    }
  }

  /** The calls of a new file whose path contains the separator are taken for calls of the target, and none is reported. */
  lemma SeparatorHidesCalls(sc: Scanner, p: string, text: string, fileAt: string -> FileStatus)
    requires HexDigest(sc) && Answers(fileAt, map[])
    requires Scanned(p) && Contains(p, PRINT) && sc.calls(text) != []
    ensures FullScan(sc, map[p := text]) != map[] && Reported(sc, map[p := text], {p}, fileAt) == {}
  {
    var tree: Tree := map[p := text];
    hide Scanned, Owner, HexDigest, Answers, Reported, FullScan, Sites, SeenAt, Contains, Identity;
    OwnerOfIdentity(p, "", 0);
    SitesEmptyIff(sc, p, sc.calls(text));
    var some :| some in SitesAt(sc, tree, p);
    ScanSites(sc, tree, some);
    ReusedIsSeen(sc, tree, map[], {p}, p);
    forall id ensures id !in Reported(sc, tree, {p}, fileAt) {
      ReportedIff(sc, tree, map[], {p}, fileAt, p, id);
      ScanSites(sc, tree, id);
    }
  }

  lemma ReusedIsSeen(sc: Scanner, tree: Tree, target: Tree, changed: set<string>, p: string)
    requires Owner(p) !in changed
    ensures forall id :: id in SitesAt(sc, tree, p) ==> id in SeenAt(sc, tree, target, changed, p)
  {
    hide SitesAt, Owner;
  }

  const SPLIT_DIRECTORY := "libraries"
  const SPLIT_NAME := "a" + PRINT + "b.lua"

  /** Such a path exists. */
  lemma SplitPathExists()
    ensures var p := SPLIT_DIRECTORY + "/" + SPLIT_NAME; Scanned(p) && Contains(p, PRINT)
  {
    var p := SPLIT_DIRECTORY + "/" + SPLIT_NAME;
    hide Split, EndsWith;
    SplitFirst(SPLIT_DIRECTORY, '/', SPLIT_NAME);
    SplitNone(SPLIT_NAME, '/');
    assert EndsWith(SPLIT_NAME, ".lua") by { NameEnds(); }
    assert "tests" != SPLIT_NAME;
    var at := |SPLIT_DIRECTORY| + 2;
    assert p[at..at + |PRINT|] == PRINT;
    assert OccursAt(p, PRINT, at);
  }

  lemma NameEnds()
    ensures EndsWith(SPLIT_NAME, ".lua")
  {
    assert SPLIT_NAME == ("a" + PRINT + "b") + ".lua";
  }

  // ----- Locations, messages and unresolved files

  /** The site of an occurrence carries the line of the call it numbers. */
  lemma {:induction false} SiteLocation(sc: Scanner, path: string, calls: seq<Call>, i: nat)
    requires HexDigest(sc) && i < |calls|
    ensures var mark := sc.digest(calls[i].message);
            var id := Identity(path, mark, Count(sc, calls[..i + 1], mark));
            id in Sites(sc, path, calls) && Sites(sc, path, calls)[id] == path + ":" + NatText(calls[i].line)
  {
    hide Identity;
    var n := |calls| - 1;
    var mark := sc.digest(calls[i].message);
    if i == n {
      assert calls[..i + 1] == calls;
    } else {
      SiteLocation(sc, path, calls[..n], i);
      assert calls[..n][..i + 1] == calls[..i + 1];
      var last := sc.digest(calls[n].message);
      IdentityInjective(path, mark, Count(sc, calls[..i + 1], mark), path, last, Count(sc, calls, last));
      CountGrows(sc, calls, i + 1, last);
    }
  }

  lemma {:induction false} CountGrows(sc: Scanner, calls: seq<Call>, k: nat, mark: string)
    requires k < |calls| && mark == sc.digest(calls[|calls| - 1].message)
    ensures Count(sc, calls[..k], mark) < Count(sc, calls, mark)
    decreases |calls|
  {
    CountPrefix(sc, calls[..|calls| - 1], k, mark);
    assert calls[..|calls| - 1][..k] == calls[..k];
  }

  lemma {:induction false} CountPrefix(sc: Scanner, calls: seq<Call>, k: nat, mark: string)
    requires k <= |calls|
    ensures Count(sc, calls[..k], mark) <= Count(sc, calls, mark)
  {
    if k == |calls| {
      assert calls[..k] == calls;
    } else {
      var n := |calls| - 1;
      CountPrefix(sc, calls[..n], k, mark);
      assert calls[..n][..k] == calls[..k];
    }
  }

  /** Against a target, the identities it lacks are new; without one, those that are not on the allowlist are unlisted. */
  lemma MessageIff(current: map<string, string>, allowlist: set<string>, target: Option<map<string, string>>, m: Message)
    ensures m in MessagesFor(Sorted(current.Keys), current, allowlist, target) <==>
            && m.id in current && m.location == current[m.id]
            && (if m.New? then target.Some? && m.id !in target.value else target.None? && m.id !in allowlist)
  {
    var ids := Sorted(current.Keys);
    assert m.id in ids <==> m.id in current.Keys;
    MessagesMembers(ids, current, allowlist, target, m);
  }

  lemma {:induction false} MessagesMembers(ids: seq<string>, current: map<string, string>, allowlist: set<string>, target: Option<map<string, string>>, m: Message)
    requires forall x :: x in ids ==> x in current
    ensures m in MessagesFor(ids, current, allowlist, target) <==>
            && m.id in ids && m.location == current[m.id]
            && (if m.New? then target.Some? && m.id !in target.value else target.None? && m.id !in allowlist)
  {
    if ids != [] {
      var n := |ids| - 1;
      assert ids == ids[..n] + [ids[n]];
      MessagesMembers(ids[..n], current, allowlist, target, m);
    }
  }

  /** Messages come in the order of their identities, one for each. */
  lemma {:induction false} MessagesAscend(ids: seq<string>, current: map<string, string>, allowlist: set<string>, target: Option<map<string, string>>)
    requires Increasing(ids) && forall x :: x in ids ==> x in current
    ensures var ms := MessagesFor(ids, current, allowlist, target);
            forall i, j :: 0 <= i < j < |ms| ==> Lt(ms[i].id, ms[j].id)
  {
    hide Lt;
    if ids != [] {
      var n := |ids| - 1;
      assert ids == ids[..n] + [ids[n]];
      MessagesAscend(ids[..n], current, allowlist, target);
      var early := MessagesFor(ids[..n], current, allowlist, target);
      forall i | 0 <= i < |early| ensures Lt(early[i].id, ids[n]) {
        MessagesMembers(ids[..n], current, allowlist, target, early[i]);
        var k :| 0 <= k < n && ids[..n][k] == early[i].id;
        assert ids[k] == early[i].id;
      }
    }
  }

  lemma {:induction false} RescanNone(sc: Scanner, paths: seq<string>, fileAt: string -> FileStatus, reused: map<string, string>)
    ensures Rescan(sc, paths, fileAt, reused).None? <==> exists p :: p in paths && Rescanned(p) && fileAt(p) == Unresolved
  {
    hide Rescanned, Sites;
    if paths != [] {
      var n := |paths| - 1;
      assert paths == paths[..n] + [paths[n]];
      RescanNone(sc, paths[..n], fileAt, reused);
    }
  }

  /** There is no target exactly when its changes, or a changed file that is rescanned, cannot be resolved. */
  lemma UnresolvedIff(sc: Scanner, current: map<string, string>, changed: Option<set<string>>, fileAt: string -> FileStatus)
    ensures TargetSites(sc, current, changed, fileAt) == None <==>
            changed == None || exists p :: p in changed.value && Rescanned(p) && fileAt(p) == Unresolved
  {
    hide Rescanned, Rescan, Increasing;
    if changed.Some? {
      var paths := Sorted(changed.value);
      RescanNone(sc, paths, fileAt, Reused(current, changed.value));
      assert forall p :: p in paths <==> p in changed.value;
    }
  }

  lemma ComponentsOf(path: string, root: string, directories: seq<string>, name: string)
    requires Split(path, '/') == [root] + directories + [name]
    ensures FileName(path) == name
    ensures InTests(path) <==> "tests" in directories || name == "tests"
  {
    hide Split;
    var parts := [root] + directories + [name];
    assert parts[|parts| - 1] == name && parts[1..] == directories + [name];
  }

  lemma OnlyDotLua(name: string)
    requires EndsWith(name, ".lua")
    ensures (|name| > 4 <==> name != ".lua") && name != "tests"
  {
    if |name| == 4 {
      assert name[0..] == name;
    }
  }

  /** A file is scanned exactly if its name ends in `.lua` and no component below the first is `tests`; the name `.lua` is not rescanned. */
  lemma ScannedIs(root: string, directories: seq<string>, name: string)
    requires Lacks(root, '/') && Lacks(name, '/') && forall i :: 0 <= i < |directories| ==> Lacks(directories[i], '/')
    ensures var path := Join("/", [root] + directories + [name]);
            && (Scanned(path) <==> EndsWith(name, ".lua") && "tests" !in directories)
            && (Rescanned(path) <==> Scanned(path) && name != ".lua")
  {
    hide Join, Split, InTests, FileName, EndsWith;
    var parts := [root] + directories + [name];
    var path := Join("/", parts);
    SplitJoin(parts, '/');
    ComponentsOf(path, root, directories, name);
    if EndsWith(name, ".lua") {
      OnlyDotLua(name);
    }
  }
}
