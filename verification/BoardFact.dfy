/**
 The projection of a trusted comment log to one board fact in
 packages/github-devloop-workflow/tools/workflow_board_fact.py. A log is a sequence of comments, a
 comment the sequence of its markers, and a marker carries the fact its attributes validate to, if
 any.
 */
module BoardFact {
  import opened Results

  datatype Progress = Pending | Generated | Created {
    /** `MATERIALIZATION_STATE_RANK` */
    function Rank(): nat {
      match this
      case Pending => 1
      case Generated => 2
      case Created => 3
    }
  }

  datatype Ending = Done | Blocked | Error

  datatype Marker =
    | BlueprintMarker(workflow: Option<string>)
    | MaterializationMarker(step: Option<(string, Progress, Option<string>)>)
    | TerminalMarker(ending: Option<(Ending, string)>)
    | HoldMarker(reason: Option<string>)

  type Comment = seq<Marker>

  datatype Materialization = Materialization(slot: string, state: Progress, child: Option<string>, number: nat)

  datatype Terminal = Terminal(state: Ending, reason: string, number: nat)

  datatype Reversible = Hold(reason: string, number: nat) | Stopped(terminal: Terminal)

  datatype Facts = Facts(
    blueprint: Option<string>,
    materializations: seq<Materialization>,
    terminal: Option<Terminal>,
    reversible: Option<Reversible>)

  // ----- Collecting facts

  /** One marker, the `number`-th of the log. */
  function Step(f: Facts, m: Marker, number: nat): Facts {
    match m
    case BlueprintMarker(w) => if w.Some? then f.(blueprint := w) else f
    case MaterializationMarker(s) =>
      if s.Some? then f.(materializations := f.materializations + [Materialization(s.value.0, s.value.1, s.value.2, number)]) else f
    case TerminalMarker(e) =>
      if e.None? then f
      else
        var t := Terminal(e.value.0, e.value.1, number);
        if t.state == Blocked then f.(reversible := Some(Stopped(t))) else f.(terminal := Some(t))
    case HoldMarker(r) => if r.Some? then f.(reversible := Some(Hold(r.value, number))) else f
  }

  const EMPTY := Facts(None, [], None, None)

  function Project(ms: seq<Marker>): Facts {
    if ms == [] then EMPTY
    else
      var n := |ms| - 1;
      Step(Project(ms[..n]), ms[n], |ms|)
  }

  function Markers(log: seq<Comment>): seq<Marker> {
    if log == [] then [] else Markers(log[..|log| - 1]) + log[|log| - 1]
  }

  method CollectFacts(log: seq<Comment>) returns (facts: Facts)
    ensures facts == Project(Markers(log))
  {
    hide Step;
    facts := EMPTY;
    var number := 0;
    ghost var ms: seq<Marker> := [];
    for i := 0 to |log|
      invariant ms == Markers(log[..i]) && facts == Project(ms) && number == |ms|
    {
      assert log[..i + 1][..i] == log[..i];
      ghost var before := ms;
      for j := 0 to |log[i]|
        invariant ms == before + log[i][..j] && facts == Project(ms) && number == |ms|
      {
        number := number + 1;
        facts := Step(facts, log[i][j], number);
        assert (ms + [log[i][j]])[..|ms|] == ms;
        assert log[i][..j + 1] == log[i][..j] + [log[i][j]];
        ms := ms + [log[i][j]];
      }
      assert log[i][..|log[i]|] == log[i];
    }
    assert log[..|log|] == log;
  }

  lemma {:induction false} MarkersConcat(a: seq<Comment>, b: seq<Comment>)
    ensures Markers(a + b) == Markers(a) + Markers(b)
  {
    if b == [] {
      assert a + b == a;
    } else {
      var n, ab := |b| - 1, a + b;
      assert ab[..|ab| - 1] == a + b[..n] && ab[|ab| - 1] == b[n];
      MarkersConcat(a, b[..n]);
      var x, y, z := Markers(a), Markers(b[..n]), b[n];
      assert Markers(ab) == (x + y) + z && Markers(b) == y + z;
      hide Markers;
      assert (x + y) + z == x + (y + z);
    }
  }

  // ----- The latest materialization of every slot

  /** Later in the order of (rank, number), or equal. */
  predicate Supersedes(f: Materialization, g: Materialization) {
    f.state.Rank() > g.state.Rank() || (f.state.Rank() == g.state.Rank() && f.number >= g.number)
  }

  function Latest(fs: seq<Materialization>): map<string, Materialization> {
    if fs == [] then map[]
    else
      var n := |fs| - 1;
      var m := Latest(fs[..n]);
      if fs[n].slot !in m || Supersedes(fs[n], m[fs[n].slot]) then m[fs[n].slot := fs[n]] else m
  }

  method LatestMaterializationBySlot(fs: seq<Materialization>) returns (latest: map<string, Materialization>)
    ensures latest == Latest(fs)
  {
    latest := map[];
    for i := 0 to |fs|
      invariant latest == Latest(fs[..i])
    {
      assert fs[..i + 1][..i] == fs[..i];
      var f := fs[i];
      if f.slot !in latest {
        latest := latest[f.slot := f];
      } else {
        var rank, current := f.state.Rank(), latest[f.slot].state.Rank();
        if rank > current || (rank == current && f.number >= latest[f.slot].number) {
          latest := latest[f.slot := f];
        }
      }
    }
    assert fs[..|fs|] == fs;
  }

  /** `m` keeps, for every slot with facts, one that supersedes all of them. */
  ghost predicate KeepsMaxima(fs: seq<Materialization>, m: map<string, Materialization>) {
    && (forall f :: f in fs ==> f.slot in m && Supersedes(m[f.slot], f))
    && (forall slot :: slot in m ==> m[slot] in fs && m[slot].slot == slot)
  }

  lemma {:induction false} LatestKeepsMaxima(fs: seq<Materialization>)
    ensures KeepsMaxima(fs, Latest(fs))
  {
    if fs != [] {
      var n := |fs| - 1;
      assert fs == fs[..n] + [fs[n]];
      LatestKeepsMaxima(fs[..n]);
    }
  }

  ghost predicate DistinctNumbers(fs: seq<Materialization>) {
    forall f, g :: f in fs && g in fs && f.number == g.number ==> f == g
  }

  lemma MaximaUnique(fs: seq<Materialization>, gs: seq<Materialization>, m: map<string, Materialization>, k: map<string, Materialization>)
    requires forall f :: f in fs <==> f in gs
    requires DistinctNumbers(fs) && KeepsMaxima(fs, m) && KeepsMaxima(gs, k)
    ensures m == k
  {
    forall slot ensures slot in m <==> slot in k {
      if slot in m { assert m[slot] in gs; }
      if slot in k { assert k[slot] in fs; }
    }
    forall slot | slot in m ensures m[slot] == k[slot] {
      assert m[slot] in gs && k[slot] in fs;
      assert Supersedes(m[slot], k[slot]) && Supersedes(k[slot], m[slot]);
    }
  }

  /** The order of the facts does not matter. */
  lemma LatestOrderIndependent(fs: seq<Materialization>, gs: seq<Materialization>)
    requires (forall f :: f in fs <==> f in gs) && DistinctNumbers(fs)
    ensures Latest(fs) == Latest(gs)
  {
    hide Latest, Supersedes;
    LatestKeepsMaxima(fs);
    LatestKeepsMaxima(gs);
    MaximaUnique(fs, gs, Latest(fs), Latest(gs));
  }

  /** Appended facts never lower the rank of a slot. */
  lemma RankNeverDecreases(fs: seq<Materialization>, more: seq<Materialization>, slot: string)
    requires slot in Latest(fs)
    ensures slot in Latest(fs + more) && Latest(fs + more)[slot].state.Rank() >= Latest(fs)[slot].state.Rank()
  {
    hide Latest;
    LatestKeepsMaxima(fs);
    LatestKeepsMaxima(fs + more);
    assert Latest(fs)[slot] in fs + more;
  }

  // ----- Numbers along a log

  ghost predicate Increasing(fs: seq<Materialization>, bound: nat) {
    && (forall i, j :: 0 <= i < j < |fs| ==> fs[i].number < fs[j].number)
    && (forall i :: 0 <= i < |fs| ==> fs[i].number <= bound)
  }

  lemma {:induction false} ProjectNumbers(ms: seq<Marker>)
    ensures Increasing(Project(ms).materializations, |ms|)
  {
    if ms != [] {
      ProjectNumbers(ms[..|ms| - 1]);
    }
  }

  lemma IncreasingDistinct(fs: seq<Materialization>, bound: nat)
    requires Increasing(fs, bound)
    ensures DistinctNumbers(fs)
  {
    forall f, g | f in fs && g in fs && f.number == g.number ensures f == g {
      var i :| 0 <= i < |fs| && fs[i] == f;
      var j :| 0 <= j < |fs| && fs[j] == g;
      assert i == j;
    }
  }

  // ----- The board

  datatype Board =
    | NoBoard
    | ParkedTerminal(workflow: string, state: Ending, reason: string)
    | ParkedHold(workflow: string, reason: string)
    | Running(workflow: string, slot: string, child: Option<string>)
    | Tracking(workflow: string)

  predicate IsNewest(m: map<string, Materialization>, slot: string) {
    slot in m && forall other :: other in m ==> m[other].number <= m[slot].number
  }

  lemma NewestExists(m: map<string, Materialization>) returns (slot: string)
    requires m != map[]
    ensures IsNewest(m, slot)
    decreases |m|
  {
    slot :| slot in m;
    var rest := m - {slot};
    assert forall k :: k in m <==> k in rest || k == slot;
    if rest != map[] {
      assert |rest| < |m| by { assert m.Keys == rest.Keys + {slot}; assert |m.Keys| == |m| && |rest.Keys| == |rest|; }
      var other := NewestExists(rest);
      if m[other].number > m[slot].number {
        slot := other;
      }
    }
  }

  lemma NewestDefined(fs: seq<Materialization>)
    requires DistinctNumbers(fs) && Latest(fs) != map[]
    ensures exists slot :: slot in Latest(fs) && IsNewest(Latest(fs), slot)
    ensures forall a, b :: IsNewest(Latest(fs), a) && IsNewest(Latest(fs), b) ==> a == b
  {
    hide Latest;
    var slot := NewestExists(Latest(fs));
    LatestKeepsMaxima(fs);
    forall a, b | IsNewest(Latest(fs), a) && IsNewest(Latest(fs), b) ensures a == b {
      var m := Latest(fs);
      assert m[a] in fs && m[b] in fs && m[a].number == m[b].number;
    }
  }

  /** The slot whose latest materialization has the greatest number. */
  function Newest(fs: seq<Materialization>): (slot: string)
    requires DistinctNumbers(fs) && Latest(fs) != map[]
    ensures IsNewest(Latest(fs), slot)
  {
    NewestDefined(fs);
    var slot :| slot in Latest(fs) && IsNewest(Latest(fs), slot);
    slot
  }

  /** `board_fact`, with its text taken apart: terminal facts first, then the last hold or block, then the newest step. */
  function BoardOf(f: Facts): Board
    requires DistinctNumbers(f.materializations)
  {
    if f.blueprint.None? then NoBoard
    else
      var w := f.blueprint.value;
      if f.terminal.Some? then ParkedTerminal(w, f.terminal.value.state, f.terminal.value.reason)
      else if f.reversible.Some? then
        match f.reversible.value
        case Hold(reason, _) => ParkedHold(w, reason)
        case Stopped(t) => ParkedTerminal(w, t.state, t.reason)
      else
        var latest := Latest(f.materializations);
        if latest == map[] then Tracking(w)
        else
          var slot := Newest(f.materializations);
          Running(w, slot, if latest[slot].state == Created then latest[slot].child else None)
  }

  ghost function BoardOfLog(ms: seq<Marker>): Board {
    ProjectNumbers(ms);
    IncreasingDistinct(Project(ms).materializations, |ms|);
    BoardOf(Project(ms))
  }

  // ----- A terminal board is final

  ghost predicate Final(b: Board) {
    b.ParkedTerminal? && b.state != Blocked
  }

  predicate NamesWorkflow(m: Marker) {
    m.BlueprintMarker? && m.workflow.Some?
  }

  predicate EndsWorkflow(m: Marker) {
    m.TerminalMarker? && m.ending.Some? && m.ending.value.0 != Blocked
  }

  lemma {:induction false} ProjectFlags(ms: seq<Marker>)
    ensures Project(ms).blueprint.Some? <==> exists i :: 0 <= i < |ms| && NamesWorkflow(ms[i])
    ensures Project(ms).terminal.Some? <==> exists i :: 0 <= i < |ms| && EndsWorkflow(ms[i])
    ensures Project(ms).terminal.Some? ==> Project(ms).terminal.value.state != Blocked
    ensures Project(ms).reversible.Some? && Project(ms).reversible.value.Stopped? ==> Project(ms).reversible.value.terminal.state == Blocked
  {
    if ms != [] {
      var n := |ms| - 1;
      ProjectFlags(ms[..n]);
      assert forall i :: 0 <= i < n ==> ms[..n][i] == ms[i];
      assert NamesWorkflow(ms[n]) <==> Project(ms).blueprint.Some? && (Project(ms[..n]).blueprint.None? || NamesWorkflow(ms[n]));
      assert EndsWorkflow(ms[n]) <==> Project(ms).terminal.Some? && (Project(ms[..n]).terminal.None? || EndsWorkflow(ms[n]));
    }
  }

  predicate HoldsWorkflow(m: Marker) {
    (m.HoldMarker? && m.reason.Some?) || (m.TerminalMarker? && m.ending.Some? && m.ending.value.0 == Blocked)
  }

  /** The last valid marker of each sort decides its fact. */
  lemma {:induction false} LastMarkerWins(ms: seq<Marker>, i: nat)
    requires i < |ms|
    ensures var f, m := Project(ms), ms[i];
            && (NamesWorkflow(m) && (forall j :: i < j < |ms| ==> !NamesWorkflow(ms[j])) ==> f.blueprint == m.workflow)
            && (EndsWorkflow(m) && (forall j :: i < j < |ms| ==> !EndsWorkflow(ms[j])) ==>
                  f.terminal == Some(Terminal(m.ending.value.0, m.ending.value.1, i + 1)))
            && (HoldsWorkflow(m) && (forall j :: i < j < |ms| ==> !HoldsWorkflow(ms[j])) ==>
                  f.reversible == Some(if m.HoldMarker? then Hold(m.reason.value, i + 1)
                                       else Stopped(Terminal(Blocked, m.ending.value.1, i + 1))))
  {
    var n := |ms| - 1;
    if i < n {
      var init := ms[..n];
      assert init[i] == ms[i] && forall j :: 0 <= j < n ==> init[j] == ms[j];
      LastMarkerWins(init, i);
    }
  }

  /** The board is final exactly when the log holds a valid blueprint and a valid done or error marker, in any order. */
  lemma FinalIff(ms: seq<Marker>)
    ensures Final(BoardOfLog(ms)) <==>
            (exists i :: 0 <= i < |ms| && NamesWorkflow(ms[i])) && (exists i :: 0 <= i < |ms| && EndsWorkflow(ms[i]))
  {
    hide Latest, Project, NamesWorkflow, EndsWorkflow;
    ProjectFlags(ms);
  }

  /** Once done or error, a board stays done or error whatever is appended to the log. */
  lemma TerminalIsSticky(log: seq<Comment>, more: seq<Comment>)
    requires Final(BoardOfLog(Markers(log)))
    ensures Final(BoardOfLog(Markers(log + more)))
  {
    hide Final, BoardOfLog, Markers, NamesWorkflow, EndsWorkflow;
    var ms, all := Markers(log), Markers(log + more);
    MarkersConcat(log, more);
    FinalIff(ms);
    FinalIff(all);
    var i :| 0 <= i < |ms| && NamesWorkflow(ms[i]);
    var j :| 0 <= j < |ms| && EndsWorkflow(ms[j]);
    assert all[i] == ms[i] && all[j] == ms[j];
  }

  // ----- Materializations along a log

  lemma {:induction false} ProjectExtends(ms: seq<Marker>, more: seq<Marker>)
    ensures Project(ms).materializations <= Project(ms + more).materializations
  {
    if more == [] {
      assert ms + more == ms;
    } else {
      var n := |more| - 1;
      assert (ms + more)[..|ms + more| - 1] == ms + more[..n];
      ProjectExtends(ms, more[..n]);
    }
  }

  /** As comments are appended, no slot disappears or falls back in rank. */
  lemma SlotRankIsMonotone(log: seq<Comment>, more: seq<Comment>, slot: string)
    requires slot in Latest(Project(Markers(log)).materializations)
    ensures var early, late := Latest(Project(Markers(log)).materializations), Latest(Project(Markers(log + more)).materializations);
            slot in late && late[slot].state.Rank() >= early[slot].state.Rank()
  {
    hide Latest, Project, Markers;
    MarkersConcat(log, more);
    var ms := Markers(log);
    ProjectExtends(ms, Markers(more));
    var fs, gs := Project(ms).materializations, Project(ms + Markers(more)).materializations;
    assert gs == fs + gs[|fs|..];
    RankNeverDecreases(fs, gs[|fs|..], slot);
  }

  /** A running board names the slot whose retained fact is the newest, and its child once created. */
  lemma RunningMeaning(ms: seq<Marker>)
    requires BoardOfLog(ms).Running?
    ensures var fs, b := Project(ms).materializations, BoardOfLog(ms);
            exists f :: f in fs && f.slot == b.slot && b.child == (if f.state == Created then f.child else None)
                        && (forall g :: g in fs && g.slot == f.slot ==> Supersedes(f, g))
                        && (forall slot :: slot in Latest(fs) ==> Latest(fs)[slot].number <= f.number)
  {
    hide Latest, Project, Supersedes;
    var fs, b := Project(ms).materializations, BoardOfLog(ms);
    LatestKeepsMaxima(fs);
    var f := Latest(fs)[b.slot];
    assert f in fs && f.slot == b.slot;
  }

  // ----- The board of a log

  /** The last marker of the log with the property. */
  ghost predicate LastWith(ms: seq<Marker>, p: Marker -> bool, i: nat) {
    i < |ms| && p(ms[i]) && forall j :: i < j < |ms| ==> !p(ms[j])
  }

  ghost predicate NoneWith(ms: seq<Marker>, p: Marker -> bool) {
    forall j :: 0 <= j < |ms| ==> !p(ms[j])
  }

  predicate TakesStep(m: Marker) {
    m.MaterializationMarker? && m.step.Some?
  }

  /** The steps of a log are its valid materialization markers, numbered by their place. */
  lemma {:induction false} StepsAre(ms: seq<Marker>, f: Materialization)
    ensures f in Project(ms).materializations <==>
            exists i :: 0 <= i < |ms| && TakesStep(ms[i])
                        && f == Materialization(ms[i].step.value.0, ms[i].step.value.1, ms[i].step.value.2, i + 1)
  {
    if ms != [] {
      var n := |ms| - 1;
      assert forall i :: 0 <= i < n ==> ms[..n][i] == ms[i];
      StepsAre(ms[..n], f);
      var early, all := Project(ms[..n]).materializations, Project(ms).materializations;
      assert all == if TakesStep(ms[n]) then early + [Materialization(ms[n].step.value.0, ms[n].step.value.1, ms[n].step.value.2, n + 1)] else early;
    }
  }

  lemma {:induction false} ReversibleFlag(ms: seq<Marker>)
    ensures Project(ms).reversible.Some? <==> exists i :: 0 <= i < |ms| && HoldsWorkflow(ms[i])
  {
    if ms != [] {
      var n := |ms| - 1;
      ReversibleFlag(ms[..n]);
      assert forall i :: 0 <= i < n ==> ms[..n][i] == ms[i];
      assert Project(ms).reversible.Some? <==> Project(ms[..n]).reversible.Some? || HoldsWorkflow(ms[n]);
    }
  }

  /** There is no board exactly when the log names no workflow. */
  lemma NoBoardIff(ms: seq<Marker>)
    ensures BoardOfLog(ms) == NoBoard <==> NoneWith(ms, NamesWorkflow)
  {
    hide Latest, Project, NamesWorkflow, EndsWorkflow;
    ProjectFlags(ms);
  }

  /**
   The board names the workflow of the last blueprint. The last done or error marker decides it; without
   one the last hold or blocked marker does, before any step; without that it is running iff a step was taken.
   */
  lemma BoardIs(ms: seq<Marker>, b: nat, e: nat, h: nat)
    requires LastWith(ms, NamesWorkflow, b)
    ensures var board, w := BoardOfLog(ms), ms[b].workflow.value;
            && (LastWith(ms, EndsWorkflow, e) ==> board == ParkedTerminal(w, ms[e].ending.value.0, ms[e].ending.value.1))
            && (NoneWith(ms, EndsWorkflow) && LastWith(ms, HoldsWorkflow, h) ==>
                  board == if ms[h].HoldMarker? then ParkedHold(w, ms[h].reason.value)
                           else ParkedTerminal(w, Blocked, ms[h].ending.value.1))
            && (NoneWith(ms, EndsWorkflow) && NoneWith(ms, HoldsWorkflow) ==>
                  if NoneWith(ms, TakesStep) then board == Tracking(w) else board.Running? && board.workflow == w)
  {
    LastMarkerWins(ms, b);
    if LastWith(ms, EndsWorkflow, e) {
      LastMarkerWins(ms, e);
    }
    if LastWith(ms, HoldsWorkflow, h) {
      LastMarkerWins(ms, h);
    }
    ProjectFlags(ms);
    ReversibleFlag(ms);
    StepsIff(ms);
    hide Latest, Project;
  }

  lemma StepsIff(ms: seq<Marker>)
    ensures Latest(Project(ms).materializations) == map[] <==> NoneWith(ms, TakesStep)
  {
    var fs := Project(ms).materializations;
    hide Project;
    LatestKeepsMaxima(fs);
    LatestEmptyIff(fs);
    forall f { StepsAre(ms, f); }
    hide Latest;
    if fs != [] {
      assert fs[0] in fs;
    }
    if i :| 0 <= i < |ms| && TakesStep(ms[i]) {
      assert Materialization(ms[i].step.value.0, ms[i].step.value.1, ms[i].step.value.2, i + 1) in fs;
    }
  }

  lemma LatestEmptyIff(fs: seq<Materialization>)
    ensures Latest(fs) == map[] <==> fs == []
  {
    if fs != [] {
      var n := |fs| - 1;
      assert fs[n].slot in Latest(fs);
    }
  }

  /** A step moves from pending over generated to created, and among steps of one state the later one is retained. */
  lemma RanksAscend(f: Materialization, g: Materialization)
    ensures Pending.Rank() < Generated.Rank() < Created.Rank()
    ensures Supersedes(f, g) <==>
            f.state.Rank() > g.state.Rank() || (f.state.Rank() == g.state.Rank() && f.number >= g.number)
  {
  }
}
