/**
 `_canonical_json` of scripts/intent_bounded_replay/normalize.py on Python's object graph: lists and
 mappings have identity, may be shared and may contain themselves. `active_containers` guards the
 recursion.
 */
module CanonicalHeap {
  import opened CanonicalJson
  import opened Graphs
  import opened JsonStrings
  import opened Ordering
  import opened Results
  import opened Strings

  type Id = nat

  /** A scalar or foreign value. */
  type Leaf = j: Json | !j.Arr? && !j.Obj? witness Null

  datatype Value = Scalar(leaf: Leaf) | Ref(id: Id)

  datatype Slot = Slot(key: Text, child: Value)

  datatype Container = List(items: seq<Value>) | Dict(slots: seq<Slot>)

  type Heap = map<Id, Container>

  ghost function ChildIds(c: Container): set<Id> {
    match c
    case List(items) => set i | 0 <= i < |items| && items[i].Ref? :: items[i].id
    case Dict(slots) => set i | 0 <= i < |slots| && slots[i].child.Ref? :: slots[i].child.id
  }

  /** The containment graph. */
  ghost function Refs(h: Heap): map<Id, set<Id>> {
    map id | id in h :: ChildIds(h[id])
  }

  /** Containment from `v` leads to a container that contains itself. */
  ghost predicate CycleReachable(h: Heap, v: Value) {
    v.Ref? && exists x, y :: Reach(Refs(h), v.id, x) && x in h && y in Refs(h)[x] && Reach(Refs(h), y, x)
  }

  /** `t` is the finite tree that `v` denotes once sharing is forgotten. */
  ghost predicate Unfolds(h: Heap, v: Value, t: Json)
    decreases t
  {
    match v
    case Scalar(leaf) => t == leaf
    case Ref(id) =>
      id in h &&
      match (h[id], t)
      case (List(xs), Arr(ts)) => |xs| == |ts| && forall i :: 0 <= i < |xs| ==> Unfolds(h, xs[i], ts[i])
      case (Dict(xs), Obj(ts)) =>
        |xs| == |ts| && forall i :: 0 <= i < |xs| ==> xs[i].key == ts[i].key && Unfolds(h, xs[i].child, ts[i].child)
      case _ => false
  }

  lemma {:induction false} UnfoldsUnique(h: Heap, v: Value, s: Json, t: Json)
    requires Unfolds(h, v, s) && Unfolds(h, v, t)
    ensures s == t
    decreases s
  {
    if v.Ref? {
      match h[v.id]
      case List(xs) =>
        forall i | 0 <= i < |xs| ensures s.items[i] == t.items[i] {
          UnfoldsUnique(h, xs[i], s.items[i], t.items[i]);
        }
        assert s.items == t.items;
      case Dict(xs) =>
        forall i | 0 <= i < |xs| ensures s.members[i] == t.members[i] {
          UnfoldsUnique(h, xs[i].child, s.members[i].child, t.members[i].child);
        }
        assert s.members == t.members;
    }
  }

  // ----- Cycles have no unfolding

  ghost function Depth(t: Json): nat {
    match t
    case Arr(items) => 1 + DepthItems(items)
    case Obj(ms) => 1 + DepthMembers(ms)
    case _ => 0
  }

  ghost function DepthItems(items: seq<Json>): nat {
    if items == [] then 0
    else if Depth(items[0]) > DepthItems(items[1..]) then Depth(items[0])
    else DepthItems(items[1..])
  }

  ghost function DepthMembers(ms: seq<Member>): nat {
    if ms == [] then 0
    else if Depth(ms[0].child) > DepthMembers(ms[1..]) then Depth(ms[0].child)
    else DepthMembers(ms[1..])
  }

  lemma {:induction false} ItemDepth(items: seq<Json>, i: nat)
    requires i < |items|
    ensures Depth(items[i]) <= DepthItems(items)
  {
    if i > 0 {
      ItemDepth(items[1..], i - 1);
    }
  }

  lemma {:induction false} MemberDepth(ms: seq<Member>, i: nat)
    requires i < |ms|
    ensures Depth(ms[i].child) <= DepthMembers(ms)
  {
    if i > 0 {
      MemberDepth(ms[1..], i - 1);
    }
  }

  lemma StepUnfolds(h: Heap, x: Id, y: Id, t: Json) returns (t': Json)
    requires x in h && y in Refs(h)[x] && Unfolds(h, Ref(x), t)
    ensures Unfolds(h, Ref(y), t') && Depth(t') < Depth(t)
  {
    match h[x]
    case List(xs) =>
      var i :| 0 <= i < |xs| && xs[i].Ref? && xs[i].id == y;
      t' := t.items[i];
      ItemDepth(t.items, i);
      assert xs[i] == Ref(y);
    case Dict(xs) =>
      var i :| 0 <= i < |xs| && xs[i].child.Ref? && xs[i].child.id == y;
      t' := t.members[i].child;
      MemberDepth(t.members, i);
      assert xs[i].child == Ref(y);
  }

  lemma {:induction false} WalkUnfolds(h: Heap, p: seq<Id>, t: Json) returns (t': Json)
    requires IsWalk(Refs(h), p) && Unfolds(h, Ref(p[0]), t)
    ensures Unfolds(h, Ref(p[|p| - 1]), t') && Depth(t') <= Depth(t)
    decreases |p|
  {
    t' := t;
    if |p| > 1 {
      assert p[1] in Refs(h)[p[0]];
      var s := StepUnfolds(h, p[0], p[1], t);
      forall i | 0 <= i < |p[1..]| - 1 ensures p[1..][i + 1] in Refs(h)[p[1..][i]] {
        assert p[i + 2] in Refs(h)[p[i + 1]];
      }
      t' := WalkUnfolds(h, p[1..], s);
    }
  }

  /** A value from which a containment cycle is reachable denotes no finite tree. */
  lemma CycleNoUnfolding(h: Heap, v: Value, t: Json)
    requires CycleReachable(h, v)
    ensures !Unfolds(h, v, t)
  {
    if Unfolds(h, v, t) {
      var g := Refs(h);
      var x, y :| Reach(g, v.id, x) && x in h && y in g[x] && Reach(g, y, x);
      var p :| WalkFrom(g, p, v.id, x);
      var q :| WalkFrom(g, q, y, x);
      var tx := WalkUnfolds(h, p, t);
      var ty := StepUnfolds(h, x, y, tx);
      var tx' := WalkUnfolds(h, q, ty);
      UnfoldsUnique(h, Ref(x), tx, tx');
    }
  }

  // ----- No cycle, an unfolding

  /** The container `a` contains `v`, directly or through others. */
  ghost predicate LeadsTo(h: Heap, a: Id, v: Value) {
    v.Ref? ==> a in h && exists y :: y in Refs(h)[a] && Reach(Refs(h), y, v.id)
  }

  ghost predicate WellFormed(h: Heap, v: Value) {
    Closed(Refs(h)) && (v.Ref? ==> v.id in h)
  }

  ghost predicate HasTree(h: Heap, v: Value) {
    exists t :: Unfolds(h, v, t)
  }

  ghost function TreeOf(h: Heap, v: Value): (t: Json)
    requires HasTree(h, v)
    ensures Unfolds(h, v, t)
  {
    var t :| Unfolds(h, v, t);
    t
  }

  /** A container on the current path that is met again closes a cycle. */
  lemma MetAgain(h: Heap, id: Id)
    requires id in h && LeadsTo(h, id, Ref(id))
    ensures CycleReachable(h, Ref(id))
  {
    ReachRefl(Refs(h), id);
  }

  /** One step down: everything on the path, and the container itself, lead to its child. */
  lemma StepDown(h: Heap, path: set<Id>, id: Id, c: Value)
    requires WellFormed(h, Ref(id)) && forall a :: a in path ==> LeadsTo(h, a, Ref(id))
    requires c.Ref? ==> c.id in Refs(h)[id]
    ensures WellFormed(h, c) && forall a :: a in path + {id} ==> LeadsTo(h, a, c)
    ensures CycleReachable(h, c) ==> CycleReachable(h, Ref(id))
  {
    hide Reach;
    var g := Refs(h);
    if c.Ref? {
      ReachEdge(g, id, c.id);
      ReachRefl(g, c.id);
      forall a | a in path ensures LeadsTo(h, a, c) {
        var y :| y in g[a] && Reach(g, y, id);
        ReachTrans(g, y, id, c.id);
      }
      if CycleReachable(h, c) {
        var x, y :| Reach(g, c.id, x) && x in h && y in g[x] && Reach(g, y, x);
        ReachTrans(g, id, c.id, x);
      }
    }
  }

  lemma {:induction false} AcyclicUnfolds(h: Heap, v: Value, path: set<Id>)
    requires WellFormed(h, v) && !CycleReachable(h, v)
    requires path <= h.Keys && forall a :: a in path ==> LeadsTo(h, a, v)
    ensures HasTree(h, v)
    decreases h.Keys - path
  {
    match v
    case Scalar(leaf) =>
      assert Unfolds(h, v, leaf);
    case Ref(id) =>
      if id in path {
        MetAgain(h, id);
        assert false;
      }
      match h[id]
      case List(xs) =>
        forall i | 0 <= i < |xs| ensures HasTree(h, xs[i]) {
          StepDown(h, path, id, xs[i]);
          AcyclicUnfolds(h, xs[i], path + {id});
        }
        var ts := seq(|xs|, i requires 0 <= i < |xs| => TreeOf(h, xs[i]));
        assert Unfolds(h, v, Arr(ts));
      case Dict(xs) =>
        forall i | 0 <= i < |xs| ensures HasTree(h, xs[i].child) {
          StepDown(h, path, id, xs[i].child);
          AcyclicUnfolds(h, xs[i].child, path + {id});
        }
        var ts := seq(|xs|, i requires 0 <= i < |xs| => Member(xs[i].key, TreeOf(h, xs[i].child)));
        assert Unfolds(h, v, Obj(ts));
  }

  /** A value denotes a finite tree iff no containment cycle is reachable from it. */
  lemma TreeIffAcyclic(h: Heap, v: Value)
    requires WellFormed(h, v)
    ensures HasTree(h, v) <==> !CycleReachable(h, v)
  {
    if CycleReachable(h, v) {
      forall t ensures !Unfolds(h, v, t) {
        CycleNoUnfolding(h, v, t);
      }
    } else {
      AcyclicUnfolds(h, v, {});
    }
  }

  // ----- The encoder

  /** `r` is the canonical form of the tree that `v` denotes, or a failure if there is none. */
  ghost predicate Encodes(h: Heap, v: Value, r: Result<string>) {
    && (r.Success? ==> exists t :: Unfolds(h, v, t) && Canonical(t) == r)
    && (r.Failure? ==> forall t :: Unfolds(h, v, t) ==> Canonical(t).Failure?)
  }

  class Encoder {
    var activeContainers: set<Id>

    constructor ()
      ensures activeContainers == {}
    {
      activeContainers := {};
    }

    method CanonicalJson(h: Heap, v: Value) returns (r: Result<string>)
      requires WellFormed(h, v)
      requires activeContainers <= h.Keys && forall a :: a in activeContainers ==> LeadsTo(h, a, v)
      modifies this
      decreases h.Keys - activeContainers, 0
      ensures activeContainers == old(activeContainers)
      ensures Encodes(h, v, r)
    {
      match v
      case Scalar(leaf) =>
        r := Canonical(leaf);
        assert Unfolds(h, v, leaf);
      case Ref(id) =>
        if id in activeContainers {
          MetAgain(h, id);
          forall t ensures !Unfolds(h, v, t) {
            CycleNoUnfolding(h, v, t);
          }
          return Failure;
        }
        assert id in h.Keys - activeContainers && id !in h.Keys - (activeContainers + {id});
        activeContainers := activeContainers + {id};
        match h[id] {
          case List(_) => r := EncodeList(h, id, old(activeContainers));
          case Dict(_) => r := EncodeDict(h, id, old(activeContainers));
        }
        activeContainers := activeContainers - {id};
    }

    method EncodeList(h: Heap, id: Id, ghost path: set<Id>) returns (r: Result<string>)
      requires id in h && WellFormed(h, Ref(id)) && h[id].List?
      requires path <= h.Keys && forall a :: a in path ==> LeadsTo(h, a, Ref(id))
      requires activeContainers == path + {id}
      modifies this
      decreases h.Keys - activeContainers, 1
      ensures activeContainers == old(activeContainers)
      ensures Encodes(h, Ref(id), r)
    {
      hide Canonical, LeadsTo, WellFormed;
      var items := h[id].items;
      var elements: seq<string> := [];
      ghost var trees: seq<Json> := [];
      for i := 0 to |items|
        invariant activeContainers == path + {id}
        invariant |elements| == |trees| == i
        invariant forall k :: 0 <= k < i ==> Unfolds(h, items[k], trees[k]) && Canonical(trees[k]) == Success(elements[k])
      {
        StepDown(h, path, id, items[i]);
        var child := CanonicalJson(h, items[i]);
        if child.Failure? {
          ListFails(h, id, i);
          return Failure;
        }
        ghost var t :| Unfolds(h, items[i], t) && Canonical(t) == child;
        elements := elements + [child.value];
        trees := trees + [t];
      }
      ItemsPointwise(trees);
      assert CanonicalItems(trees).value == elements;
      assert Unfolds(h, Ref(id), Arr(trees));
      r := Success("[" + Join(",", elements) + "]");
      ListSucceeds(trees, elements);
    }

    method EncodeDict(h: Heap, id: Id, ghost path: set<Id>) returns (r: Result<string>)
      requires id in h && WellFormed(h, Ref(id)) && h[id].Dict?
      requires path <= h.Keys && forall a :: a in path ==> LeadsTo(h, a, Ref(id))
      requires activeContainers == path + {id}
      modifies this
      decreases h.Keys - activeContainers, 1
      ensures activeContainers == old(activeContainers)
      ensures Encodes(h, Ref(id), r)
    {
      hide Canonical, LeadsTo, WellFormed, CanonicalString, EncodeUtf8, SortKeyed, Encodes, SlotText, KeyedSlot;
      var keyed := CollectKeys(h, id);
      if keyed.Failure? {
        return Failure;
      }
      var sorted := SortKeyed(keyed.value);
      SortLength(keyed.value);
      var members: seq<string> := [];
      for k := 0 to |sorted|
        invariant activeContainers == path + {id}
        invariant |members| == k && forall j :: 0 <= j < k ==> SlotText(h, sorted[j].value, members[j])
      {
        ghost var i := SortedSlot(h[id].slots, keyed.value, k);
        StepDown(h, path, id, sorted[k].value.child);
        var child := CanonicalJson(h, sorted[k].value.child);
        if child.Failure? {
          SlotFails(h, id, i);
          return Failure;
        }
        SlotTextOf(h, sorted[k].value, child.value);
        members := members + [NameOf(sorted[k].value.key) + ":" + child.value];
      }
      DictSucceeds(h, id, keyed.value, members);
      r := Success("{" + Join(",", members) + "}");
    }
  }

  /** The first loop over a mapping: duplicate keys and keys without UTF-8 bytes are errors. */
  method CollectKeys(h: Heap, id: Id) returns (r: Result<seq<Keyed<Slot>>>)
    requires id in h && h[id].Dict?
    ensures r.Success? ==> KeyedSlots(h[id].slots, r.value)
    ensures r.Failure? ==> Encodes(h, Ref(id), Failure)
  {
    hide EncodeUtf8, Encodes;
    var slots := h[id].slots;
    var keyed: seq<Keyed<Slot>> := [];
    var seen: set<Text> := {};
    for i := 0 to |slots|
      invariant KeyedSlots(slots[..i], keyed)
      invariant forall key :: key in seen <==> exists k :: 0 <= k < i && slots[k].key == key
    {
      var key := slots[i].key;
      if key in seen {
        ghost var j :| 0 <= j < i && slots[j].key == key;
        DuplicateFails(h, id, j, i);
        return Failure;
      }
      seen := seen + {key};
      var keyBytes := EncodeUtf8(key);
      if keyBytes.Failure? {
        KeyFails(h, id, i);
        return Failure;
      }
      keyed := keyed + [Keyed(keyBytes.value, slots[i])];
    }
    assert slots[..|slots|] == slots;
    r := Success(keyed);
  }

  /** Distinct keys, each paired with its UTF-8 bytes. */
  ghost predicate KeyedSlots(slots: seq<Slot>, keyed: seq<Keyed<Slot>>) {
    && |keyed| == |slots|
    && (forall k :: 0 <= k < |slots| ==> KeyedSlot(slots[k], keyed[k]))
    && (forall j, k :: 0 <= j < k < |slots| ==> slots[j].key != slots[k].key)
  }

  lemma SortedSlot(slots: seq<Slot>, keyed: seq<Keyed<Slot>>, k: nat) returns (i: nat)
    requires KeyedSlots(slots, keyed) && k < |SortKeyed(keyed)|
    ensures i < |slots| && slots[i] == SortKeyed(keyed)[k].value && EncodeUtf8(slots[i].key) == Success(SortKeyed(keyed)[k].key)
  {
    hide SortKeyed, EncodeUtf8;
    SortMembers(keyed, SortKeyed(keyed)[k]);
    i :| 0 <= i < |keyed| && keyed[i] == SortKeyed(keyed)[k];
    assert KeyedSlot(slots[i], keyed[i]);
  }

  lemma SlotTextOf(h: Heap, slot: Slot, child: string)
    requires EncodeUtf8(slot.key).Success? && Encodes(h, slot.child, Success(child))
    ensures SlotText(h, slot, NameOf(slot.key) + ":" + child)
  {
    hide CanonicalString, EncodeUtf8, Canonical;
    var t :| Unfolds(h, slot.child, t) && Canonical(t) == Success(child);
  }

  /** `_canonical_string` of a key that has UTF-8 bytes. */
  function NameOf(key: Text): (name: string)
    requires EncodeUtf8(key).Success?
    ensures CanonicalString(key) == Success(name)
  {
    EncodableIff(key);
    CanonicalString(key).value
  }

  ghost predicate KeyedSlot(slot: Slot, k: Keyed<Slot>) {
    k.value == slot && EncodeUtf8(slot.key) == Success(k.key)
  }

  /** `text` is the encoding of the slot's key and of the tree its child denotes. */
  ghost predicate SlotText(h: Heap, slot: Slot, text: string) {
    && CanonicalString(slot.key).Success?
    && exists t :: Unfolds(h, slot.child, t) && Canonical(t).Success?
         && text == CanonicalString(slot.key).value + ":" + Canonical(t).value
  }

  lemma DuplicateFails(h: Heap, id: Id, i: nat, j: nat)
    requires id in h && h[id].Dict? && i < j < |h[id].slots| && h[id].slots[i].key == h[id].slots[j].key
    ensures Encodes(h, Ref(id), Failure)
  {
    forall t | Unfolds(h, Ref(id), t) ensures Canonical(t).Failure? {
      assert t.members[i].key == t.members[j].key;
    }
  }

  lemma KeyFails(h: Heap, id: Id, i: nat)
    requires id in h && h[id].Dict? && i < |h[id].slots| && EncodeUtf8(h[id].slots[i].key).Failure?
    ensures Encodes(h, Ref(id), Failure)
  {
    forall t | Unfolds(h, Ref(id), t) ensures Canonical(t).Failure? {
      MembersPointwise(t.members);
      assert !Encodable(t.members[i]);
    }
  }

  lemma SlotFails(h: Heap, id: Id, i: nat)
    requires id in h && h[id].Dict? && i < |h[id].slots| && Encodes(h, h[id].slots[i].child, Failure)
    ensures Encodes(h, Ref(id), Failure)
  {
    forall t | Unfolds(h, Ref(id), t) ensures Canonical(t).Failure? {
      MembersPointwise(t.members);
      assert Canonical(t.members[i].child).Failure?;
      assert !Encodable(t.members[i]);
    }
  }

  /** Sorting the slots and then encoding them gives the members of the encoded, sorted tree. */
  lemma DictSucceeds(h: Heap, id: Id, keyed: seq<Keyed<Slot>>, members: seq<string>)
    requires id in h && h[id].Dict? && KeyedSlots(h[id].slots, keyed)
    requires |SortKeyed(keyed)| == |members|
    requires forall k :: 0 <= k < |members| ==> SlotText(h, SortKeyed(keyed)[k].value, members[k])
    ensures Encodes(h, Ref(id), Success("{" + Join(",", members) + "}"))
  {
    hide Canonical, CanonicalMembers, CanonicalString, EncodeUtf8, SortKeyed, Encodable, Join;
    var slots := h[id].slots;
    forall i | 0 <= i < |slots| ensures HasTree(h, slots[i].child) && Canonical(TreeOf(h, slots[i].child)).Success? {
      var k := SlotAt(slots, keyed, i);
      SlotTree(h, slots[i], members[k]);
    }
    var ts := seq(|slots|, i requires 0 <= i < |slots| => Member(slots[i].key, TreeOf(h, slots[i].child)));
    assert Unfolds(h, Ref(id), Obj(ts));
    forall i | 0 <= i < |ts| ensures Encodable(ts[i]) {
      SlotEncodable(slots, keyed, ts, i);
    }
    MembersPointwise(ts);
    SortedTexts(h, slots, keyed, ts, members);
    DictText(ts, members);
  }

  lemma SlotEncodable(slots: seq<Slot>, keyed: seq<Keyed<Slot>>, ts: seq<Member>, i: nat)
    requires KeyedSlots(slots, keyed) && |ts| == |slots| && i < |ts|
    requires ts[i].key == slots[i].key && Canonical(ts[i].child).Success?
    ensures Encodable(ts[i])
  {
    assert KeyedSlot(slots[i], keyed[i]);
  }

  lemma DictText(ts: seq<Member>, members: seq<string>)
    requires DistinctNames(ts) && CanonicalMembers(ts).Success?
    requires Texts(SortKeyed(CanonicalMembers(ts).value)) == members
    ensures Canonical(Obj(ts)) == Success("{" + Join(",", members) + "}")
  {
  }

  lemma SlotAt(slots: seq<Slot>, keyed: seq<Keyed<Slot>>, i: nat) returns (k: nat)
    requires KeyedSlots(slots, keyed) && i < |slots|
    ensures k < |SortKeyed(keyed)| && SortKeyed(keyed)[k] == keyed[i] && SortKeyed(keyed)[k].value == slots[i]
  {
    hide SortKeyed, EncodeUtf8;
    assert KeyedSlot(slots[i], keyed[i]);
    SortMembers(keyed, keyed[i]);
    k :| 0 <= k < |SortKeyed(keyed)| && SortKeyed(keyed)[k] == keyed[i];
  }

  lemma SlotTree(h: Heap, slot: Slot, text: string)
    requires SlotText(h, slot, text)
    ensures HasTree(h, slot.child)
    ensures Canonical(TreeOf(h, slot.child)).Success?
    ensures text == CanonicalString(slot.key).value + ":" + Canonical(TreeOf(h, slot.child)).value
  {
    hide Canonical, CanonicalString;
    var t :| Unfolds(h, slot.child, t) && Canonical(t).Success?
      && text == CanonicalString(slot.key).value + ":" + Canonical(t).value;
    UnfoldsUnique(h, slot.child, t, TreeOf(h, slot.child));
  }

  lemma SortedTexts(h: Heap, slots: seq<Slot>, keyed: seq<Keyed<Slot>>, ts: seq<Member>, members: seq<string>)
    requires KeyedSlots(slots, keyed) && |ts| == |slots|
    requires forall i :: 0 <= i < |slots| ==> HasTree(h, slots[i].child) && ts[i] == Member(slots[i].key, TreeOf(h, slots[i].child))
    requires CanonicalMembers(ts).Success?
    requires |SortKeyed(keyed)| == |members|
    requires forall k :: 0 <= k < |members| ==> SlotText(h, SortKeyed(keyed)[k].value, members[k])
    ensures DistinctNames(ts) && Texts(SortKeyed(CanonicalMembers(ts).value)) == members
  {
    hide Canonical, CanonicalMembers, CanonicalString, EncodeUtf8, SortKeyed, SlotText, Increasing;
    MembersPointwise(ts);
    var es := CanonicalMembers(ts).value;
    EntryKeysDistinct(ts, es);
    forall i | 0 <= i < |slots| ensures es[i].key == keyed[i].key {
      assert KeyedSlot(slots[i], keyed[i]) && EntryOf(ts[i], es[i]);
    }
    assert Keys(es) == Keys(keyed);
    SortIncreasing(es);
    assert DistinctKeys(keyed);
    SortIncreasing(keyed);
    IncreasingUnique(Keys(SortKeyed(es)), Keys(SortKeyed(keyed)));
    forall k | 0 <= k < |members| ensures SortKeyed(es)[k].value.text == members[k] {
      assert SortKeyed(es)[k].key == Keys(SortKeyed(es))[k] == Keys(SortKeyed(keyed))[k] == SortKeyed(keyed)[k].key;
      SortedText(h, slots, keyed, ts, es, k, members[k]);
    }
  }

  lemma SortedText(h: Heap, slots: seq<Slot>, keyed: seq<Keyed<Slot>>, ts: seq<Member>, es: seq<Keyed<Entry>>, k: nat, text: string)
    requires KeyedSlots(slots, keyed) && |ts| == |slots| == |es|
    requires forall i :: 0 <= i < |slots| ==> HasTree(h, slots[i].child) && ts[i] == Member(slots[i].key, TreeOf(h, slots[i].child))
    requires forall i :: 0 <= i < |slots| ==> EntryOf(ts[i], es[i])
    requires k < |SortKeyed(es)| && k < |SortKeyed(keyed)| && SortKeyed(es)[k].key == SortKeyed(keyed)[k].key
    requires SlotText(h, SortKeyed(keyed)[k].value, text)
    ensures SortKeyed(es)[k].value.text == text
  {
    hide Canonical, CanonicalString, EncodeUtf8, SortKeyed, SlotText;
    var i := SortedSlot(slots, keyed, k);
    SortMembers(es, SortKeyed(es)[k]);
    var j :| 0 <= j < |es| && es[j] == SortKeyed(es)[k];
    assert EntryOf(ts[j], es[j]);
    EncodeUtf8Injective(slots[i].key, slots[j].key);
    assert i == j;
    SlotTree(h, slots[i], text);
  }

  lemma ListSucceeds(trees: seq<Json>, elements: seq<string>)
    requires CanonicalItems(trees) == Success(elements)
    ensures Canonical(Arr(trees)) == Success("[" + Join(",", elements) + "]")
  {
  }

  /** A list fails with any of its elements. */
  lemma ListFails(h: Heap, id: Id, i: nat)
    requires id in h && h[id].List? && i < |h[id].items| && Encodes(h, h[id].items[i], Failure)
    ensures Encodes(h, Ref(id), Failure)
  {
    forall t | Unfolds(h, Ref(id), t) ensures Canonical(t).Failure? {
      ItemsPointwise(t.items);
      assert Canonical(t.items[i]).Failure?;
    }
  }

  /** `canonical_json(obj)` starts with no active container. */
  method CanonicalJsonTop(h: Heap, v: Value) returns (r: Result<string>)
    requires WellFormed(h, v)
    ensures Encodes(h, v, r)
  {
    var encoder := new Encoder();
    r := encoder.CanonicalJson(h, v);
  }

  /**
   On a finite heap the encoder rejects exactly the values from which a containment cycle is
   reachable and those whose tree has a rejected scalar or key; shared substructure gets the bytes
   of the unfolded tree.
   */
  lemma EncoderMeaning(h: Heap, v: Value, r: Result<string>)
    requires WellFormed(h, v) && Encodes(h, v, r)
    ensures r.Failure? <==> CycleReachable(h, v) || exists t :: Unfolds(h, v, t) && !Accepted(t)
    ensures forall t :: Unfolds(h, v, t) ==> r == Canonical(t)
  {
    hide Canonical, Accepted, Unfolds, CycleReachable;
    TreeIffAcyclic(h, v);
    forall t | Unfolds(h, v, t) ensures r == Canonical(t) && (r.Success? <==> Accepted(t)) {
      AcceptedIff(t);
      if r.Success? {
        var s :| Unfolds(h, v, s) && Canonical(s) == r;
        UnfoldsUnique(h, v, s, t);
      }
    }
    if HasTree(h, v) {
      var t := TreeOf(h, v);
      assert r.Success? <==> Accepted(t);
    }
    if r.Success? {
      assert HasTree(h, v);
    }
  }
}
