/**
 The canonical keys of scripts/check_repo_monotone_gate.py: they forget line numbers and follow
 files that were moved.
 */
module MonotoneGate {
  datatype Violation = Violation(path: string, surface: string, kind: string, token: string, line: int)

  datatype Key = Key(path: string, surface: string, kind: string, token: string)

  // ----- Canonical keys

  const DOCTOR := "packages/github-devloop/core/doctor.lua"
  const OPS_DOCTOR := "packages/github-devloop-ops/core/doctor.lua"
  const STATE_GAP := "packages/github-devloop/core/state_gap.lua"
  const OPS_STATE_GAP := "packages/github-devloop-ops/core/state_gap.lua"
  const CENSUS := "packages/github-devloop/departments/observability/census.lua"
  const OPS_CENSUS := "packages/github-devloop-ops/departments/observability/census.lua"
  const REAPER := "packages/github-devloop/departments/observability/reaper.lua"
  const OPS_REAPER := "packages/github-devloop-ops/departments/observability/reaper.lua"
  const DEPENDENCIES := "packages/github-devloop/core/dependencies.lua"
  const OPS_DEPENDENCY_WAIT := "packages/github-devloop-ops/core/dependency_wait.lua"
  const MERGE := "packages/github-devloop-pr/departments/merge/main.lua"
  const MERGE_TICK := "packages/github-devloop-pr/core/merge_queue_tick.lua"
  const MERGE_EXECUTOR := "packages/github-devloop-pr/core/merge_executor.lua"
  const REPLAYER := "libraries/devloop/replayer.lua"
  const REQUIRED_FACTS := "libraries/devloop/replay_required_facts.lua"
  const DEFAULT_JUDGE := "packages/github-devloop-intake-default/departments/intake_judge/main.lua"
  const DEFAULT_INTAKE := "libraries/devloop/intake/default_intake.lua"
  const INTAKE_JUDGE := "packages/github-devloop-intake/departments/intake_judge/main.lua"
  const PR_PACKAGE := "packages/github-devloop-pr/"
  const REVIEW_LOOP := PR_PACKAGE + "departments/review_loop/main.lua"

  const OLD_ROOT := "std/devloop_"
  const NEW_ROOT := "libraries/devloop/"

  function Rooted(path: string): string {
    var n := |OLD_ROOT|;
    if |path| >= n && path[..n] == OLD_ROOT then NEW_ROOT + path[n..] else path
  }

  function Moved(path: string): string {
    if path == DOCTOR then OPS_DOCTOR
    else if path == STATE_GAP then OPS_STATE_GAP
    else if path == CENSUS then OPS_CENSUS
    else if path == REAPER then OPS_REAPER
    else path
  }

  function AfterDependencies(path: string, surface: string): string {
    if path == DEPENDENCIES && surface == "M.dependency_wait_fact" then OPS_DEPENDENCY_WAIT else Moved(path)
  }

  function AfterMerge(path: string, canonical: string): string {
    if path != MERGE then path
    else if canonical == "process_merge_queue_tick" then MERGE_TICK
    else MERGE_EXECUTOR
  }

  function AfterReplayer(path: string, surface: string): string {
    if path == REPLAYER && surface in ["fetch_child_state_fact", "require_marker_fact"] then REQUIRED_FACTS else path
  }

  function AfterIntake(path: string): string {
    if path == DEFAULT_JUDGE || path == DEFAULT_INTAKE then INTAKE_JUDGE else path
  }

  /** The chain of moves after the root of the path has been mapped. */
  function Relocated(path: string, surface: string, canonical: string): string {
    AfterIntake(AfterReplayer(AfterMerge(AfterDependencies(path, surface), canonical), surface))
  }

  predicate IsNameStart(c: char) {
    'a' <= c <= 'z' || 'A' <= c <= 'Z' || c == '_'
  }

  predicate IsNameChar(c: char) {
    IsNameStart(c) || '0' <= c <= '9'
  }

  /** How many name characters the text starts with. */
  function NameLength(s: string): (n: nat)
    ensures n <= |s| && (forall i :: 0 <= i < n ==> IsNameChar(s[i])) && (n < |s| ==> !IsNameChar(s[n]))
  {
    if s == "" || !IsNameChar(s[0]) then 0 else 1 + NameLength(s[1..])
  }

  /** The surface without a leading table name. */
  function WithoutTable(surface: string): string {
    var n := NameLength(surface);
    if 0 < n < |surface| && IsNameStart(surface[0]) && surface[n] == '.' then surface[n + 1..] else surface
  }

  function WithoutSpaces(s: string): string {
    if s == "" then ""
    else (if s[0] == ' ' then "" else [s[0]]) + WithoutSpaces(s[1..])
  }

  function CanonicalToken(v: Violation): string {
    var token := WithoutSpaces(v.token);
    if v.kind != "cursor-read" then v.token
    else if token in ["current_state(", "current_entity_state("] then token
    else if token in ["M.current_state(", "M.current_entity_state("] then token[2..]
    else v.token
  }

  function CanonicalSurface(v: Violation): string {
    var surface := WithoutTable(v.surface);
    if v.path == REVIEW_LOOP && surface == "review_truth_table_unapproved" && v.kind == "cursor-read"
       && CanonicalToken(v) == "current_entity_state("
    then "reviewing_segment_transition_status"
    else surface
  }

  function CanonicalKey(v: Violation): Key {
    Key(Relocated(Rooted(v.path), v.surface, CanonicalSurface(v)), CanonicalSurface(v), v.kind, CanonicalToken(v))
  }

  /** A path that no move leads away from. */
  ghost predicate Settled(path: string) {
    && Rooted(path) == path
    && path !in {DOCTOR, STATE_GAP, CENSUS, REAPER, DEPENDENCIES, MERGE, REPLAYER, DEFAULT_JUDGE, DEFAULT_INTAKE}
  }

  lemma SettledStays(path: string, surface: string, canonical: string)
    requires Settled(path)
    ensures Relocated(Rooted(path), surface, canonical) == path
  {
  }

  /** The lengths and one letter tell the sources of the moves from their targets. */
  lemma SettledByShape(path: string)
    requires |path| !in {30, 39, 42, 45, 53, 60, 72} && |path| > 18 && path[11] != '_' && (|path| == 43 ==> path[18] != 'i')
    ensures Settled(path)
  {
    assert |DOCTOR| == 39 && |STATE_GAP| == 42 && |CENSUS| == 60 && |REAPER| == 60 && |DEPENDENCIES| == 45;
    assert |MERGE| == 53 && |REPLAYER| == 30 && |DEFAULT_JUDGE| == 72 && |DEFAULT_INTAKE| == 43 && DEFAULT_INTAKE[18] == 'i';
    assert path[..12][11] == path[11] && OLD_ROOT[11] == '_' && |OLD_ROOT| == 12;
  }

  lemma TargetsSettled()
    ensures Settled(OPS_DOCTOR) && Settled(OPS_STATE_GAP) && Settled(OPS_CENSUS) && Settled(OPS_REAPER) && Settled(OPS_DEPENDENCY_WAIT)
    ensures Settled(MERGE_TICK) && Settled(MERGE_EXECUTOR) && Settled(REQUIRED_FACTS) && Settled(INTAKE_JUDGE)
  {
    hide Settled;
    SettledByShape(OPS_DOCTOR);
    SettledByShape(OPS_STATE_GAP);
    SettledByShape(OPS_CENSUS);
    SettledByShape(OPS_REAPER);
    SettledByShape(OPS_DEPENDENCY_WAIT);
    SettledByShape(MERGE_TICK);
    SettledByShape(MERGE_EXECUTOR);
    SettledByShape(REQUIRED_FACTS);
    SettledByShape(INTAKE_JUDGE);
  }

  lemma RootedTwice(path: string)
    ensures Rooted(Rooted(path)) == Rooted(path)
  {
    assert NEW_ROOT[0] == 'l' && OLD_ROOT[0] == 's';
    var r := Rooted(path);
    if r != path {
      assert r[..|OLD_ROOT|][0] == 'l';
    }
  }

  lemma RelocatedTwice(path: string, surface: string, canonical: string)
    requires Rooted(path) == path
    ensures var r := Relocated(path, surface, canonical); r == path || Settled(r)
  {
    hide Settled;
    TargetsSettled();
  }

  lemma NotRooted(path: string)
    requires path != REVIEW_LOOP
    ensures Rooted(path) != REVIEW_LOOP
  {
    if |path| >= |OLD_ROOT| {
      var r := NEW_ROOT + path[|OLD_ROOT|..];
      assert r[17] == NEW_ROOT[17] == '/';
      assert REVIEW_LOOP[17] == 'e';
    }
  }

  lemma ReviewLoopStays(path: string, surface: string, canonical: string)
    ensures Relocated(Rooted(path), surface, canonical) == REVIEW_LOOP <==> path == REVIEW_LOOP
  {
    assert |REVIEW_LOOP| == 59 && PR_PACKAGE[11] == 't';
    if path == REVIEW_LOOP {
      SettledByShape(path);
      SettledStays(path, surface, canonical);
    } else {
      assert |OPS_DOCTOR| == 43 && |OPS_STATE_GAP| == 46 && |OPS_CENSUS| == 64 && |OPS_REAPER| == 64 && |OPS_DEPENDENCY_WAIT| == 52;
      assert |MERGE_TICK| == 52 && |MERGE_EXECUTOR| == 50 && |REQUIRED_FACTS| == 43 && |INTAKE_JUDGE| == 64;
      NotRooted(path);
    }
  }

  lemma TokenIgnoresPath(v: Violation, path: string)
    ensures CanonicalToken(v.(path := path)) == CanonicalToken(v)
  {
  }

  /** Recording a violation under its new path leaves it in its bucket: the remapping is then a no-op. */
  lemma MovedEntryKeepsBucket(v: Violation)
    ensures CanonicalKey(v.(path := CanonicalKey(v).path)) == CanonicalKey(v)
  {
    hide WithoutTable, CanonicalToken, Settled, Rooted, Relocated;
    var first, s := Rooted(v.path), CanonicalSurface(v);
    var path := Relocated(first, v.surface, s);
    RootedTwice(v.path);
    RelocatedTwice(first, v.surface, s);
    assert CanonicalSurface(v.(path := path)) == s && CanonicalToken(v.(path := path)) == CanonicalToken(v) by {
      ReviewLoopStays(v.path, v.surface, s);
      TokenIgnoresPath(v, path);
    }
    if path != first {
      SettledStays(path, v.surface, s);
    }
  }

  // ----- Which violations share a bucket

  /** A Lua name. */
  ghost predicate IsName(s: string) {
    && s != "" && ('a' <= s[0] <= 'z' || 'A' <= s[0] <= 'Z' || s[0] == '_')
    && forall i :: 0 <= i < |s| ==> 'a' <= s[i] <= 'z' || 'A' <= s[i] <= 'Z' || s[i] == '_' || '0' <= s[i] <= '9'
  }

  /** Exactly a table name in front of the first dot is dropped. */
  lemma WithoutTableIs(surface: string)
    ensures forall table, rest :: IsName(table) && surface == table + "." + rest ==> WithoutTable(surface) == rest
    ensures (forall table, rest :: IsName(table) ==> surface != table + "." + rest) ==> WithoutTable(surface) == surface
  {
    var n := NameLength(surface);
    forall table, rest | IsName(table) && surface == table + "." + rest ensures WithoutTable(surface) == rest {
      assert surface[|table|] == '.' && forall i :: 0 <= i < |table| ==> surface[i] == table[i];
      assert n == |table|;
      assert surface[n + 1..] == rest;
    }
    if WithoutTable(surface) != surface {
      assert surface == surface[..n] + "." + surface[n + 1..];
      assert IsName(surface[..n]);
    }
  }

  ghost predicate IsCursorCall(token: string) {
    token in ["current_state(", "current_entity_state(", "M.current_state(", "M.current_entity_state("]
  }

  /** Only a cursor read of one of four calls has its token normalised: spaces and a leading table are dropped. */
  lemma TokenIs(v: Violation)
    ensures v.kind != "cursor-read" || !IsCursorCall(WithoutSpaces(v.token)) ==> CanonicalToken(v) == v.token
    ensures v.kind == "cursor-read" && WithoutSpaces(v.token) in ["current_state(", "M.current_state("] ==> CanonicalToken(v) == "current_state("
    ensures v.kind == "cursor-read" && WithoutSpaces(v.token) in ["current_entity_state(", "M.current_entity_state("] ==>
              CanonicalToken(v) == "current_entity_state("
  {
    assert "M.current_state("[2..] == "current_state(" && "M.current_entity_state("[2..] == "current_entity_state(";
    assert "current_state("[8] == 's' && "current_entity_state("[8] == 'e';
  }

  lemma {:induction false} WithoutSpacesIs(s: string)
    ensures forall c :: c in WithoutSpaces(s) <==> c in s && c != ' '
    ensures ' ' !in s ==> WithoutSpaces(s) == s
  {
    if s != "" {
      WithoutSpacesIs(s[1..]);
      assert s == [s[0]] + s[1..];
    }
  }

  /** An entity read in the review loop whose surface is the truth table. */
  ghost predicate Misattributed(v: Violation) {
    && v.path == REVIEW_LOOP && WithoutTable(v.surface) == "review_truth_table_unapproved"
    && v.kind == "cursor-read" && CanonicalToken(v) == "current_entity_state("
  }

  /**
   Away from the paths that were moved, two violations share a bucket exactly if they agree in path, kind,
   normalised token, and surface up to a table name; the line never matters.
   */
  lemma SameBucketIff(v: Violation, w: Violation)
    requires Settled(v.path) && Settled(w.path) && !Misattributed(v) && !Misattributed(w)
    ensures CanonicalKey(v) == CanonicalKey(w) <==>
            v.path == w.path && v.kind == w.kind && CanonicalToken(v) == CanonicalToken(w) && WithoutTable(v.surface) == WithoutTable(w.surface)
  {
    hide CanonicalToken, WithoutTable, Settled;
    SettledStays(v.path, v.surface, CanonicalSurface(v));
    SettledStays(w.path, w.surface, CanonicalSurface(w));
    hide Relocated, Rooted;
  }

  /** A read in the review loop that was once attributed to the truth table counts with the reads of its real owner. */
  lemma AttributionCorrected(v: Violation, w: Violation)
    requires Misattributed(v) && w.path == v.path && w.kind == v.kind && CanonicalToken(w) == CanonicalToken(v)
    requires WithoutTable(w.surface) == "reviewing_segment_transition_status"
    ensures CanonicalKey(v) == CanonicalKey(w)
  {
    ReviewLoopStays(v.path, v.surface, CanonicalSurface(v));
    ReviewLoopStays(w.path, w.surface, CanonicalSurface(w));
    hide CanonicalToken, WithoutTable, Relocated, Rooted;
  }

  lemma SettledTail(path: string, surface: string, canonical: string)
    requires Settled(path)
    ensures AfterMerge(path, canonical) == path && AfterReplayer(path, surface) == path && AfterIntake(path) == path
  {
  }

  /** The files that went to the ops package. */
  lemma MovedToOps(surface: string, canonical: string)
    ensures Relocated(DOCTOR, surface, canonical) == OPS_DOCTOR
    ensures Relocated(STATE_GAP, surface, canonical) == OPS_STATE_GAP
    ensures Relocated(CENSUS, surface, canonical) == OPS_CENSUS
    ensures Relocated(REAPER, surface, canonical) == OPS_REAPER
    ensures Relocated(DEPENDENCIES, "M.dependency_wait_fact", canonical) == OPS_DEPENDENCY_WAIT
    ensures surface != "M.dependency_wait_fact" ==> Relocated(DEPENDENCIES, surface, canonical) == DEPENDENCIES
  {
    TargetsSettled();
    MovedIs(surface);
    hide Settled;
    SettledTail(OPS_DOCTOR, surface, canonical);
    SettledTail(OPS_STATE_GAP, surface, canonical);
    SettledTail(OPS_CENSUS, surface, canonical);
    SettledTail(OPS_REAPER, surface, canonical);
    SettledTail(OPS_DEPENDENCY_WAIT, "M.dependency_wait_fact", canonical);
    DependenciesStay(surface, canonical);
    hide AfterDependencies, AfterMerge, AfterReplayer, AfterIntake;
  }

  lemma MovedIs(surface: string)
    ensures AfterDependencies(DOCTOR, surface) == OPS_DOCTOR && AfterDependencies(STATE_GAP, surface) == OPS_STATE_GAP
    ensures AfterDependencies(CENSUS, surface) == OPS_CENSUS && AfterDependencies(REAPER, surface) == OPS_REAPER
    ensures AfterDependencies(DEPENDENCIES, "M.dependency_wait_fact") == OPS_DEPENDENCY_WAIT
    ensures surface != "M.dependency_wait_fact" ==> AfterDependencies(DEPENDENCIES, surface) == DEPENDENCIES
  {
    assert |DOCTOR| == 39 && |STATE_GAP| == 42 && |CENSUS| == 60 && |REAPER| == 60 && |DEPENDENCIES| == 45;
    assert CENSUS[50] == 'c' && REAPER[50] == 'r';
  }

  lemma DependenciesStay(surface: string, canonical: string)
    ensures AfterMerge(DEPENDENCIES, canonical) == DEPENDENCIES
    ensures AfterReplayer(DEPENDENCIES, surface) == DEPENDENCIES && AfterIntake(DEPENDENCIES) == DEPENDENCIES
  {
    assert |DEPENDENCIES| == 45 && |MERGE| == 53 && |REPLAYER| == 30 && |DEFAULT_JUDGE| == 72 && |DEFAULT_INTAKE| == 43;
  }

  /** The files that were split or renamed later. */
  lemma MovedLater(surface: string, canonical: string)
    ensures Relocated(MERGE, surface, "process_merge_queue_tick") == MERGE_TICK
    ensures canonical != "process_merge_queue_tick" ==> Relocated(MERGE, surface, canonical) == MERGE_EXECUTOR
    ensures Relocated(REPLAYER, "fetch_child_state_fact", canonical) == REQUIRED_FACTS
    ensures Relocated(REPLAYER, "require_marker_fact", canonical) == REQUIRED_FACTS
    ensures surface != "fetch_child_state_fact" && surface != "require_marker_fact" ==> Relocated(REPLAYER, surface, canonical) == REPLAYER
    ensures Relocated(DEFAULT_JUDGE, surface, canonical) == INTAKE_JUDGE
    ensures Relocated(DEFAULT_INTAKE, surface, canonical) == INTAKE_JUDGE
  {
    hide Relocated;
    MergeSplit(surface, canonical);
    ReplayerSplit(surface, canonical);
    IntakeMoved(surface, canonical);
  }

  lemma MergeSplit(surface: string, canonical: string)
    ensures Relocated(MERGE, surface, "process_merge_queue_tick") == MERGE_TICK
    ensures canonical != "process_merge_queue_tick" ==> Relocated(MERGE, surface, canonical) == MERGE_EXECUTOR
  {
    TargetsSettled();
    NotMovedFirst();
    hide Settled;
    SettledTail(MERGE_TICK, surface, "process_merge_queue_tick");
    SettledTail(MERGE_EXECUTOR, surface, canonical);
    hide AfterDependencies, AfterReplayer, AfterIntake;
  }

  lemma ReplayerSplit(surface: string, canonical: string)
    ensures Relocated(REPLAYER, "fetch_child_state_fact", canonical) == REQUIRED_FACTS
    ensures Relocated(REPLAYER, "require_marker_fact", canonical) == REQUIRED_FACTS
    ensures surface != "fetch_child_state_fact" && surface != "require_marker_fact" ==> Relocated(REPLAYER, surface, canonical) == REPLAYER
  {
    TargetsSettled();
    NotMovedFirst();
    hide Settled;
    SettledTail(REQUIRED_FACTS, surface, canonical);
    hide AfterDependencies;
  }

  lemma IntakeMoved(surface: string, canonical: string)
    ensures Relocated(DEFAULT_JUDGE, surface, canonical) == INTAKE_JUDGE
    ensures Relocated(DEFAULT_INTAKE, surface, canonical) == INTAKE_JUDGE
  {
    NotMovedFirst();
    hide AfterDependencies;
  }

  lemma NotMovedFirst()
    ensures forall path, surface :: path in [MERGE, REPLAYER, DEFAULT_JUDGE, DEFAULT_INTAKE] ==> AfterDependencies(path, surface) == path
    ensures MERGE != REPLAYER && MERGE != DEFAULT_JUDGE && MERGE != DEFAULT_INTAKE
    ensures REPLAYER != DEFAULT_JUDGE && REPLAYER != DEFAULT_INTAKE && DEFAULT_JUDGE != DEFAULT_INTAKE
  {
    assert |DOCTOR| == 39 && |STATE_GAP| == 42 && |CENSUS| == 60 && |REAPER| == 60 && |DEPENDENCIES| == 45;
    assert |MERGE| == 53 && |REPLAYER| == 30 && |DEFAULT_JUDGE| == 72 && |DEFAULT_INTAKE| == 43;
  }

  /** The old root of the library is read as the new one. */
  lemma RootedIs(rest: string)
    ensures Rooted("std/devloop_" + rest) == "libraries/devloop/" + rest
    ensures forall path :: !("std/devloop_" <= path) ==> Rooted(path) == path
  {
    var path := "std/devloop_" + rest;
    assert path[..|OLD_ROOT|] == OLD_ROOT && path[|OLD_ROOT|..] == rest;
  }
}
