/**
 Event-driven lexical scopes of scripts/check_repo_bot_login_mediation.py: one pass over the sorted
 events takes a snapshot of the visible bindings before every requested position. The classifier of
 identity names is a parameter.
 */
module LexicalScopes {
  import opened Bags
  import opened Collections
  import opened GitBatch
  import opened Results

  datatype Binding = Raw | Canonical | Unknown

  datatype Action =
    | Push
    | Pop
    | Replace
    | Parameters(params: seq<string>)
    | Assignment(local: bool, names: seq<string>, operands: seq<Option<string>>)

  datatype Event = Event(position: int, priority: nat, action: Action)

  type Scope = map<string, Binding>

  // ----- Operands

  const HELPERS: set<string> := {"forge_strings.canonical_login", "parsers_misc.canonical_login"}

  function OperandState(operand: Option<string>, bindings: Scope, classify: string -> Binding): Binding {
    if operand.None? then Unknown
    else
      var text := operand.value;
      var name := Split(text, '(')[0];
      if '(' in text && name in HELPERS then Canonical
      else if '(' !in text && name in bindings then bindings[name]
      else classify(name)
  }

  /** The state an assignment gives to its name at `offset`, all operands read before any write. */
  function ValueAt(a: Action, offset: nat, before: Scope, classify: string -> Binding): Binding
    requires a.Assignment? && offset < |a.names|
  {
    OperandState(if offset < |a.operands| then a.operands[offset] else None, before, classify)
  }

  // ----- Lookup

  /** Innermost scope first. */
  function Lookup(scopes: seq<Scope>, name: string): Option<Binding> {
    if scopes == [] then None
    else
      var n := |scopes| - 1;
      if name in scopes[n] then Some(scopes[n][name]) else Lookup(scopes[..n], name)
  }

  function Merged(scopes: seq<Scope>): Scope {
    if scopes == [] then map[] else Merged(scopes[..|scopes| - 1]) + scopes[|scopes| - 1]
  }

  method VisibleBindings(scopes: seq<Scope>) returns (visible: Scope)
    ensures visible == Merged(scopes)
  {
    visible := map[];
    for i := 0 to |scopes|
      invariant visible == Merged(scopes[..i])
    {
      assert scopes[..i + 1][..i] == scopes[..i];
      visible := visible + scopes[i];
    }
    assert scopes[..|scopes|] == scopes;
  }

  /** Merging outwards-in sees what the innermost-scope lookup finds. */
  lemma {:induction false} VisibleIsInnermost(scopes: seq<Scope>, name: string)
    ensures (if name in Merged(scopes) then Some(Merged(scopes)[name]) else None) == Lookup(scopes, name)
  {
    if scopes != [] {
      VisibleIsInnermost(scopes[..|scopes| - 1], name);
    }
  }

  // ----- Writes

  /** The innermost scope that has the name, else the outermost. */
  function Home(scopes: seq<Scope>, name: string): (h: nat)
    requires scopes != []
    ensures h < |scopes|
    ensures name in scopes[h] || (h == 0 && forall i :: 0 <= i < |scopes| ==> name !in scopes[i])
    ensures forall i :: h < i < |scopes| ==> name !in scopes[i]
  {
    var n := |scopes| - 1;
    if n == 0 || name in scopes[n] then n else Home(scopes[..n], name)
  }

  function Assigned(scopes: seq<Scope>, name: string, state: Binding, local: bool): (r: seq<Scope>)
    requires scopes != []
    ensures |r| == |scopes|
  {
    var h := if local then |scopes| - 1 else Home(scopes, name);
    scopes[h := scopes[h][name := state]]
  }

  method AssignBinding(scopes: seq<Scope>, name: string, state: Binding, local: bool) returns (r: seq<Scope>)
    requires scopes != []
    ensures r == Assigned(scopes, name, state, local)
  {
    var last := |scopes| - 1;
    if local {
      return scopes[last := scopes[last][name := state]];
    }
    var i := |scopes|;
    while i > 0
      invariant 0 <= i <= |scopes|
      invariant forall j :: i <= j < |scopes| ==> name !in scopes[j]
    {
      i := i - 1;
      if name in scopes[i] {
        return scopes[i := scopes[i][name := state]];
      }
    }
    return scopes[0 := scopes[0][name := state]];
  }

  /** A write is seen by lookup at its name and nowhere else, in whichever scope it lands. */
  lemma AssignedLookup(scopes: seq<Scope>, name: string, state: Binding, local: bool, other: string)
    requires scopes != []
    ensures Lookup(Assigned(scopes, name, state, local), other) == if other == name then Some(state) else Lookup(scopes, other)
  {
    var h := if local then |scopes| - 1 else Home(scopes, name);
    UpdateLookup(scopes, h, name, state, other);
  }

  lemma {:induction false} UpdateLookup(scopes: seq<Scope>, h: nat, name: string, state: Binding, other: string)
    requires h < |scopes| && forall i :: h < i < |scopes| ==> name !in scopes[i]
    ensures Lookup(scopes[h := scopes[h][name := state]], other) == if other == name then Some(state) else Lookup(scopes, other)
  {
    var n := |scopes| - 1;
    var r := scopes[h := scopes[h][name := state]];
    if h == n {
      assert r[..n] == scopes[..n];
    } else {
      assert r[..n] == scopes[..n][h := scopes[..n][h][name := state]];
      UpdateLookup(scopes[..n], h, name, state, other);
    }
  }

  /** The writes of an assignment, up to `count` names, from one reading of the operands. */
  function AssignAll(scopes: seq<Scope>, a: Action, before: Scope, count: nat, classify: string -> Binding): (r: seq<Scope>)
    requires scopes != [] && a.Assignment? && count <= |a.names|
    ensures |r| == |scopes|
  {
    if count == 0 then scopes
    else
      Assigned(AssignAll(scopes, a, before, count - 1, classify), a.names[count - 1], ValueAt(a, count - 1, before, classify), a.local)
  }

  function Declare(scope: Scope, names: seq<string>, classify: string -> Binding): Scope {
    if names == [] then scope
    else
      var n := |names| - 1;
      Declare(scope, names[..n], classify)[names[n] := classify(names[n])]
  }

  /** One event. The stack keeps at least one scope. */
  function Apply(scopes: seq<Scope>, action: Action, classify: string -> Binding): (r: seq<Scope>)
    requires scopes != []
    ensures r != []
  {
    var n := |scopes| - 1;
    match action
    case Push => scopes + [map[]]
    case Pop => if n > 0 then scopes[..n] else scopes
    case Replace => (if n > 0 then scopes[..n] else scopes) + [map[]]
    case Parameters(names) => scopes[n := Declare(scopes[n], names, classify)]
    case Assignment(_, names, _) => AssignAll(scopes, action, Merged(scopes), |names|, classify)
  }

  /** The events one after the other, from a single empty scope. */
  function Replay(events: seq<Event>, classify: string -> Binding): (r: seq<Scope>)
    ensures r != []
  {
    if events == [] then [map[]]
    else
      var n := |events| - 1;
      Apply(Replay(events[..n], classify), events[n].action, classify)
  }

  method ApplyEvent(scopes: seq<Scope>, action: Action, classify: string -> Binding) returns (r: seq<Scope>)
    requires scopes != []
    ensures r == Apply(scopes, action, classify)
  {
    hide OperandState, Merged, Assigned;
    var n := |scopes| - 1;
    match action {
      case Push =>
        r := scopes + [map[]];
      case Pop =>
        r := if n > 0 then scopes[..n] else scopes;
      case Replace =>
        r := if n > 0 then scopes[..n] else scopes;
        r := r + [map[]];
      case Parameters(names) =>
        r := scopes;
        for i := 0 to |names|
          invariant r == scopes[n := Declare(scopes[n], names[..i], classify)]
        {
          assert names[..i + 1][..i] == names[..i];
          r := r[n := r[n][names[i] := classify(names[i])]];
        }
        assert names[..|names|] == names;
      case Assignment(local, names, operands) =>
        r := scopes;
        var visible := VisibleBindings(scopes);
        for i := 0 to |names|
          invariant r == AssignAll(scopes, action, visible, i, classify)
        {
          var operand := if i < |operands| then operands[i] else None;
          var state := OperandState(operand, visible, classify);
          r := AssignBinding(r, names[i], state, local);
        }
    }
  }

  // ----- Multiple assignment

  /** The last offset below `count` at which the assignment names `name`. */
  ghost predicate LastNamed(a: Action, count: nat, name: string, offset: nat)
    requires a.Assignment? && count <= |a.names|
  {
    offset < count && a.names[offset] == name && forall j :: offset < j < count ==> a.names[j] != name
  }

  lemma {:induction false} AssignAllLookup(scopes: seq<Scope>, a: Action, before: Scope, count: nat, classify: string -> Binding, name: string)
    requires scopes != [] && a.Assignment? && count <= |a.names|
    ensures var r := AssignAll(scopes, a, before, count, classify);
            && (name !in a.names[..count] ==> Lookup(r, name) == Lookup(scopes, name))
            && (forall k: nat :: LastNamed(a, count, name, k) ==> Lookup(r, name) == Some(ValueAt(a, k, before, classify)))
  {
    hide Lookup, Assigned, ValueAt;
    if count > 0 {
      var n := count - 1;
      var early := AssignAll(scopes, a, before, n, classify);
      AssignAllLookup(scopes, a, before, n, classify, name);
      AssignedLookup(early, a.names[n], ValueAt(a, n, before, classify), a.local, name);
      assert a.names[..count] == a.names[..n] + [a.names[n]];
    }
  }

  /** All names receive the values their operands had before the assignment; other names keep theirs. */
  lemma AssignmentIsSimultaneous(scopes: seq<Scope>, a: Action, classify: string -> Binding, name: string)
    requires scopes != [] && a.Assignment?
    ensures var r := Apply(scopes, a, classify);
            && (name !in a.names ==> Lookup(r, name) == Lookup(scopes, name))
            && (forall k: nat :: LastNamed(a, |a.names|, name, k) ==>
                                 Lookup(r, name) == Some(ValueAt(a, k, Merged(scopes), classify)))
  {
    hide AssignAll, Lookup, ValueAt, Merged;
    AssignAllLookup(scopes, a, Merged(scopes), |a.names|, classify, name);
    assert a.names[..|a.names|] == a.names;
  }

  // ----- Sorting and snapshots

  predicate NotAfter(a: Event, b: Event) {
    a.position < b.position || (a.position == b.position && a.priority <= b.priority)
  }

  function InsertEvent(x: Event, s: seq<Event>): seq<Event> {
    if s == [] || NotAfter(x, s[0]) then [x] + s else [s[0]] + InsertEvent(x, s[1..])
  }

  /** The stable sort by position and priority. */
  function SortEvents(s: seq<Event>): seq<Event> {
    if s == [] then [] else InsertEvent(s[0], SortEvents(s[1..]))
  }

  /** The events before a position, in their given order. */
  function Before(events: seq<Event>, index: int): seq<Event> {
    if events == [] then []
    else (if events[0].position < index then [events[0]] else []) + Before(events[1..], index)
  }

  ghost predicate InOrder(s: seq<Event>) {
    forall i, j :: 0 <= i < j < |s| ==> NotAfter(s[i], s[j])
  }

  lemma {:induction false} InsertInOrder(x: Event, s: seq<Event>)
    requires InOrder(s)
    ensures InOrder(InsertEvent(x, s)) && multiset(InsertEvent(x, s)) == multiset(s) + multiset{x}
  {
    if s != [] && !NotAfter(x, s[0]) {
      assert s == [s[0]] + s[1..];
      InsertInOrder(x, s[1..]);
      var r := InsertEvent(x, s[1..]);
      forall j | 0 <= j < |r| ensures NotAfter(s[0], r[j]) {
        assert r[j] in multiset(r);
        assert r[j] == x || r[j] in s[1..];
      }
    }
  }

  lemma {:induction false} SortInOrder(s: seq<Event>)
    ensures InOrder(SortEvents(s)) && multiset(SortEvents(s)) == multiset(s)
  {
    if s != [] {
      assert s == [s[0]] + s[1..];
      SortInOrder(s[1..]);
      InsertInOrder(s[0], SortEvents(s[1..]));
    }
  }

  lemma {:induction false} BeforeNothing(s: seq<Event>, index: int)
    requires forall i :: 0 <= i < |s| ==> s[i].position >= index
    ensures Before(s, index) == []
  {
    if s != [] {
      BeforeNothing(s[1..], index);
    }
  }

  lemma {:induction false} BeforeInsert(x: Event, s: seq<Event>, index: int)
    requires InOrder(s)
    ensures Before(InsertEvent(x, s), index) == if x.position < index then InsertEvent(x, Before(s, index)) else Before(s, index)
  {
    if s == [] || NotAfter(x, s[0]) {
      assert ([x] + s)[1..] == s;
      if s != [] && s[0].position >= index {
        BeforeNothing(s, index);
      }
    } else {
      var r := [s[0]] + InsertEvent(x, s[1..]);
      assert r[1..] == InsertEvent(x, s[1..]);
      BeforeInsert(x, s[1..], index);
      if s[0].position < index {
        var kept := [s[0]] + Before(s[1..], index);
        assert kept[1..] == Before(s[1..], index);
      }
    }
  }

  /** Selecting earlier events and sorting commute. */
  lemma {:induction false} BeforeSort(s: seq<Event>, index: int)
    ensures Before(SortEvents(s), index) == SortEvents(Before(s, index))
  {
    if s != [] {
      BeforeSort(s[1..], index);
      SortInOrder(s[1..]);
      BeforeInsert(s[0], SortEvents(s[1..]), index);
      var rest := Before(s[1..], index);
      assert ([s[0]] + rest)[1..] == rest;
      assert [] + rest == rest;
    }
  }

  /** In sorted order the earlier events are a prefix. */
  lemma {:induction false} BeforeIsPrefix(s: seq<Event>, k: nat, index: int)
    requires InOrder(s) && k <= |s|
    requires forall i :: 0 <= i < k ==> s[i].position < index
    requires k < |s| ==> s[k].position >= index
    ensures Before(s, index) == s[..k]
  {
    if k == 0 {
      BeforeNothing(s, index);
    } else {
      BeforeIsPrefix(s[1..], k - 1, index);
      assert s[..k] == [s[0]] + s[1..][..k - 1];
    }
  }

  predicate IntLess(a: int, b: int) {
    a < b
  }

  lemma IntLessTotal()
    ensures TotalOrder(IntLess)
  {
  }

  function SortedIndexes(s: set<int>): (r: seq<int>)
    ensures multiset(r) == multiset(s) && Ascends(r, IntLess)
  {
    IntLessTotal();
    SortedBag(multiset(s), IntLess)
  }

  /** Replaying from scratch every event before the position. */
  function StateBefore(events: seq<Event>, index: int, classify: string -> Binding): Scope {
    Merged(Replay(SortEvents(Before(events, index)), classify))
  }

  lemma PrefixState(events: seq<Event>, k: nat, index: int, classify: string -> Binding)
    requires var s := SortEvents(events);
             && k <= |s| && (forall i :: 0 <= i < k ==> s[i].position < index) && (k < |s| ==> s[k].position >= index)
    ensures Merged(Replay(SortEvents(events)[..k], classify)) == StateBefore(events, index, classify)
  {
    hide Replay, Merged, SortEvents;
    SortInOrder(events);
    BeforeIsPrefix(SortEvents(events), k, index);
    BeforeSort(events, index);
  }

  /** One pass over the sorted events serves every index. */
  method BindingStatesBefore(events: seq<Event>, indexes: set<int>, classify: string -> Binding) returns (snapshots: map<int, Scope>)
    ensures snapshots.Keys == indexes
    ensures forall index :: index in indexes ==> snapshots[index] == StateBefore(events, index, classify)
  {
    hide Apply, StateBefore, SortEvents, Merged, SortedIndexes;
    var sorted := SortEvents(events);
    var order := SortedIndexes(indexes);
    ListingIsDistinct(order, indexes);
    var scopes: seq<Scope> := [map[]];
    snapshots := map[];
    var next := 0;
    assert sorted[..0] == [];
    for i := 0 to |order|
      invariant next <= |sorted|
      invariant scopes == Replay(sorted[..next], classify)
      invariant forall j, k :: 0 <= j < next && i <= k < |order| ==> sorted[j].position < order[k]
      invariant snapshots.Keys == Elems(order[..i])
      invariant forall index :: index in snapshots ==> snapshots[index] == StateBefore(events, index, classify)
    {
      assert forall k :: i <= k < |order| ==> order[i] <= order[k];
      while next < |sorted| && sorted[next].position < order[i]
        invariant next <= |sorted|
        invariant scopes == Replay(sorted[..next], classify)
        invariant forall j, k :: 0 <= j < next && i <= k < |order| ==> sorted[j].position < order[k]
      {
        assert sorted[..next + 1][..next] == sorted[..next];
        scopes := ApplyEvent(scopes, sorted[next].action, classify);
        next := next + 1;
      }
      PrefixState(events, next, order[i], classify);
      var visible := VisibleBindings(scopes);
      snapshots := snapshots[order[i] := visible];
      assert order[..i + 1] == order[..i] + [order[i]];
    }
    assert order[..|order|] == order;
  }

  /** Every snapshot answers with the innermost binding of the replayed scopes. */
  lemma SnapshotIsInnermost(events: seq<Event>, index: int, classify: string -> Binding, name: string)
    ensures var visible := StateBefore(events, index, classify);
            (if name in visible then Some(visible[name]) else None)
            == Lookup(Replay(SortEvents(Before(events, index)), classify), name)
  {
    VisibleIsInnermost(Replay(SortEvents(Before(events, index)), classify), name);
  }

  // ----- Locals stay in their block

  /** A block body: nested blocks, parameters and local assignments only. */
  ghost predicate LocalBlock(actions: seq<Action>, depth: nat)
    decreases |actions|
  {
    if actions == [] then depth == 0
    else
      match actions[0]
      case Push => LocalBlock(actions[1..], depth + 1)
      case Pop => depth > 0 && LocalBlock(actions[1..], depth - 1)
      case Replace => depth > 0 && LocalBlock(actions[1..], depth)
      case Parameters(_) => depth > 0 && LocalBlock(actions[1..], depth)
      case Assignment(local, _, _) => depth > 0 && local && LocalBlock(actions[1..], depth)
  }

  function ApplyAll(scopes: seq<Scope>, actions: seq<Action>, classify: string -> Binding): (r: seq<Scope>)
    requires scopes != []
    ensures r != []
    decreases |actions|
  {
    if actions == [] then scopes else ApplyAll(Apply(scopes, actions[0], classify), actions[1..], classify)
  }

  lemma {:induction false} LocalAssignAll(scopes: seq<Scope>, a: Action, before: Scope, count: nat, classify: string -> Binding)
    requires scopes != [] && a.Assignment? && a.local && count <= |a.names|
    ensures var n := |scopes| - 1; AssignAll(scopes, a, before, count, classify)[..n] == scopes[..n]
  {
    hide ValueAt;
    if count > 0 {
      LocalAssignAll(scopes, a, before, count - 1, classify);
    }
  }

  lemma {:induction false} OuterScopesKept(outer: seq<Scope>, inner: seq<Scope>, actions: seq<Action>, classify: string -> Binding)
    requires outer != [] && LocalBlock(actions, |inner|)
    ensures ApplyAll(outer + inner, actions, classify) == outer
    decreases |actions|
  {
    hide Merged, Declare, AssignAll;
    if actions == [] {
      assert outer + inner == outer;
    } else {
      var scopes, n, m := outer + inner, |outer + inner| - 1, |inner| - 1;
      var r := Apply(scopes, actions[0], classify);
      if |inner| > 0 {
        assert scopes[..n] == outer + inner[..m];
      }
      match actions[0]
      case Push =>
        assert r == outer + (inner + [map[]]);
        OuterScopesKept(outer, inner + [map[]], actions[1..], classify);
      case Pop =>
        OuterScopesKept(outer, inner[..m], actions[1..], classify);
      case Replace =>
        assert r == outer + (inner[..m] + [map[]]);
        OuterScopesKept(outer, inner[..m] + [map[]], actions[1..], classify);
      case Parameters(names) =>
        assert r[..n] == scopes[..n];
        assert r == outer + (inner[..m] + [r[n]]);
        OuterScopesKept(outer, inner[..m] + [r[n]], actions[1..], classify);
      case Assignment(_, names, _) =>
        LocalAssignAll(scopes, actions[0], Merged(scopes), |names|, classify);
        assert r == outer + (inner[..m] + [r[n]]);
        OuterScopesKept(outer, inner[..m] + [r[n]], actions[1..], classify);
    }
  }

  /** A closed block that assigns only locals leaves every scope as it was. */
  lemma LocalsDoNotEscape(scopes: seq<Scope>, block: seq<Action>, classify: string -> Binding)
    requires scopes != [] && LocalBlock(block, 0)
    ensures ApplyAll(scopes, block, classify) == scopes
  {
    assert scopes + [] == scopes;
    OuterScopesKept(scopes, [], block, classify);
  }

  // ----- What the events and operands mean

  /** A missing operand is unknown, a call of a canonical helper is canonical, a bound name has its binding, and anything else is classified by its name. */
  lemma OperandIs(name: string, args: string, bindings: Scope, classify: string -> Binding)
    requires Lacks(name, '(')
    ensures OperandState(None, bindings, classify) == Unknown
    ensures OperandState(Some(name), bindings, classify) == if name in bindings then bindings[name] else classify(name)
    ensures OperandState(Some(name + "(" + args), bindings, classify) ==
            if name == "forge_strings.canonical_login" || name == "parsers_misc.canonical_login" then Canonical else classify(name)
  {
    hide Split;
    SplitNone(name, '(');
    SplitFirst(name, '(', args);
    assert name + "(" + args == name + ['('] + args;
    assert (name + "(" + args)[|name|] == '(';
  }

  /** Behind an inner scope: a local write stays in it; any other write goes out to the scope that has the name. */
  lemma WriteLands(outer: seq<Scope>, inner: Scope, name: string, state: Binding)
    requires outer != []
    ensures Assigned(outer + [inner], name, state, true) == outer + [inner[name := state]]
    ensures name in inner ==> Assigned(outer + [inner], name, state, false) == outer + [inner[name := state]]
    ensures name !in inner ==> Assigned(outer + [inner], name, state, false) == Assigned(outer, name, state, false) + [inner]
  {
    var scopes := outer + [inner];
    var n := |outer|;
    assert scopes[n] == inner && scopes[..n] == outer;
  }

  /** An assignment that is not local, made in a block that does not bind the name, is seen after the block. */
  lemma NonlocalOutlivesBlock(scopes: seq<Scope>, name: string, operand: Option<string>, classify: string -> Binding, other: string)
    requires scopes != []
    ensures var r := ApplyAll(scopes, [Push, Assignment(false, [name], [operand]), Pop], classify);
            && |r| == |scopes|
            && Lookup(r, other) == if other == name then Some(OperandState(operand, Merged(scopes), classify)) else Lookup(scopes, other)
  {
    hide OperandState, Merged, Lookup;
    var a := Assignment(false, [name], [operand]);
    var actions := [Push, a, Pop];
    var inner := scopes + [map[]];
    MergedPush(scopes);
    var state := OperandState(operand, Merged(scopes), classify);
    assert AssignAll(inner, a, Merged(inner), 0, classify) == inner;
    assert AssignAll(inner, a, Merged(inner), 1, classify) == Assigned(inner, name, state, false);
    WriteLands(scopes, map[], name, state);
    var after := Assigned(scopes, name, state, false);
    assert (after + [map[]])[..|scopes|] == after;
    assert actions[1..] == [a, Pop] && [a, Pop][1..] == [Pop];
    var none: seq<Action> := [];
    assert [Pop][1..] == none;
    assert ApplyAll(after + [map[]], [Pop], classify) == ApplyAll(after, none, classify) == after;
    assert ApplyAll(inner, [a, Pop], classify) == ApplyAll(after + [map[]], [Pop], classify);
    AssignedLookup(scopes, name, state, false, other);
  }

  lemma MergedPush(scopes: seq<Scope>)
    ensures Merged(scopes + [map[]]) == Merged(scopes)
  {
    assert (scopes + [map[]])[..|scopes|] == scopes;
  }

  lemma {:induction false} DeclareIs(scope: Scope, names: seq<string>, classify: string -> Binding, name: string)
    ensures name in Declare(scope, names, classify) <==> name in names || name in scope
    ensures name in names ==> Declare(scope, names, classify)[name] == classify(name)
    ensures name !in names && name in scope ==> Declare(scope, names, classify)[name] == scope[name]
  {
    if names != [] {
      var n := |names| - 1;
      assert names == names[..n] + [names[n]];
      DeclareIs(scope, names[..n], classify, name);
    }
  }

  /**
   Opening a block adds an empty innermost scope, closing one removes it unless it is the last, and an
   alternative closes and opens. Parameters are bound in the innermost scope, by their names.
   */
  lemma EventIs(scopes: seq<Scope>, names: seq<string>, classify: string -> Binding, name: string)
    requires scopes != []
    ensures Apply(scopes, Push, classify) == scopes + [map[]]
    ensures Apply(scopes + [map[]], Pop, classify) == scopes
    ensures |scopes| == 1 ==> Apply(scopes, Pop, classify) == scopes
    ensures Apply(scopes, Replace, classify) == Apply(Apply(scopes, Pop, classify), Push, classify)
    ensures Apply(scopes, Parameters(names), classify)[..|scopes| - 1] == scopes[..|scopes| - 1]
    ensures |Apply(scopes, Parameters(names), classify)| == |scopes|
    ensures Lookup(Apply(scopes, Parameters(names), classify), name) == if name in names then Some(classify(name)) else Lookup(scopes, name)
  {
    assert (scopes + [map[]])[..|scopes|] == scopes;
    DeclareIs(scopes[|scopes| - 1], names, classify, name);
  }

  // ----- The order of events

  /** The events at one position and of one priority, in order. */
  ghost function AtKey(s: seq<Event>, position: int, priority: nat): seq<Event> {
    if s == [] then []
    else (if s[0].position == position && s[0].priority == priority then [s[0]] else []) + AtKey(s[1..], position, priority)
  }

  lemma {:induction false} InsertAtKey(x: Event, s: seq<Event>, position: int, priority: nat)
    ensures AtKey(InsertEvent(x, s), position, priority) == AtKey([x] + s, position, priority)
  {
    assert ([x] + s)[1..] == s;
    if s != [] && !NotAfter(x, s[0]) {
      InsertAtKey(x, s[1..], position, priority);
      var r := [s[0]] + InsertEvent(x, s[1..]);
      assert r[1..] == InsertEvent(x, s[1..]) && ([x] + s[1..])[1..] == s[1..];
    }
  }

  /** Events come by position, then by priority; events that tie in both keep their order. */
  lemma {:induction false} EventOrder(s: seq<Event>, position: int, priority: nat)
    ensures forall i, j :: 0 <= i < j < |SortEvents(s)| ==>
              var a, b := SortEvents(s)[i], SortEvents(s)[j];
              a.position < b.position || (a.position == b.position && a.priority <= b.priority)
    ensures AtKey(SortEvents(s), position, priority) == AtKey(s, position, priority)
  {
    SortInOrder(s);
    if s != [] {
      EventOrder(s[1..], position, priority);
      InsertAtKey(s[0], SortEvents(s[1..]), position, priority);
      assert ([s[0]] + SortEvents(s[1..]))[1..] == SortEvents(s[1..]);
    }
  }
}
