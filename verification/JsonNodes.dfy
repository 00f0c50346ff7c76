/** A JSON tree in memory: nodes, their child lists, and the value that they stand for. */
module JsonNodes {
  import opened Bytes
  import opened JsonTree
  import opened JsonChildList

  /** Which nodes hang below an item: its children, and what hangs below each of them. */
  datatype Below = Below(nodes: seq<Node>, subtrees: seq<Below>)

  const NOTHING_BELOW := Below([], [])

  ghost function All(t: Below): set<Node>
    decreases t
  {
    (set n | n in t.nodes) + Forest(t.subtrees)
  }

  ghost function Forest(ts: seq<Below>): set<Node>
    decreases ts
  {
    set i, n | 0 <= i < |ts| && n in All(ts[i]) :: n
  }

  /** The item stands for v, and t is what hangs below it. The links of the item itself have no part in this. */
  ghost predicate Built(item: Node, v: Json, t: Below)
    reads item`kind, item`child, item`valueString, item`valueInt, All(t)
    decreases t, 1
  {
    match v
    case Null => item.kind == NullKind && Leaf(item, t)
    case False => item.kind == FalseKind && Leaf(item, t)
    case True => item.kind == TrueKind && Leaf(item, t)
    case Num(n) => item.kind == NumberKind && item.valueInt == n && Leaf(item, t)
    case Str(s) => item.kind == StringKind && item.valueString == Some(s) && Leaf(item, t)
    case Arr(items) => item.kind == ArrayKind && IsList(item.child, t.nodes) && Parts(t.nodes, items, t.subtrees)
    case Obj(members) =>
      item.kind == ObjectKind && IsList(item.child, t.nodes) && Parts(t.nodes, Values(members), t.subtrees) && Named(t.nodes, members)
  }

  ghost predicate Leaf(item: Node, t: Below)
    reads item`child
  {
    item.child == null && t == NOTHING_BELOW
  }

  /** The children one by one. No node is in two places: a child is not below another one, and what hangs below two
      children is apart. */
  ghost predicate Parts(nodes: seq<Node>, items: seq<Json>, ts: seq<Below>)
    reads nodes`kind, nodes`child, nodes`valueString, nodes`valueInt, Forest(ts)
    decreases ts, 0
  {
    && |nodes| == |items| == |ts| && Apart(nodes, ts)
    && forall i | 0 <= i < |ts| :: Built(nodes[i], items[i], ts[i])
  }

  ghost predicate Apart(nodes: seq<Node>, ts: seq<Below>) {
    && (forall n | n in nodes :: n !in Forest(ts))
    && (forall i, j | 0 <= i < j < |ts| :: All(ts[i]) !! All(ts[j]))
  }

  ghost predicate Named(nodes: seq<Node>, members: seq<Member>)
    reads nodes`name
  {
    |nodes| == |members| && forall i | 0 <= i < |nodes| :: nodes[i].name == Some(members[i].key)
  }

  function Values(members: seq<Member>): (r: seq<Json>)
    ensures |r| == |members| && forall i | 0 <= i < |members| :: r[i] == members[i].value
  {
    seq(|members|, i requires 0 <= i < |members| => members[i].value)
  }

  // ---------------------------------------------------------------------------------------------
  // Growing lists
  // ---------------------------------------------------------------------------------------------

  /** A list while it grows: the head does not point back yet. */
  ghost predicate Growing(head: Node?, last: Node?, nodes: seq<Node>)
    reads nodes`next, nodes`prev
  {
    && Distinct(nodes)
    && (if nodes == [] then head == null && last == null
        else head == nodes[0] && last == nodes[|nodes| - 1] && last.next == null && head.prev == null)
    && (forall i {:trigger nodes[i].next} :: 0 <= i < |nodes| - 1 ==> nodes[i].next == nodes[i + 1])
    && (forall i {:trigger nodes[i].prev} :: 0 < i < |nodes| ==> nodes[i].prev == nodes[i - 1])
  }

  lemma GrowingEnds(head: Node?, last: Node?, nodes: seq<Node>)
    requires Growing(head, last, nodes)
    ensures head != null ==> head in nodes
    ensures last != null ==> last in nodes
  {}

  lemma NothingGrows()
    ensures Growing(null, null, [])
  {}

  lemma NoParts()
    ensures Parts([], [], []) && Forest([]) == {}
  {}

  lemma ForestMore(ts: seq<Below>, t: Below)
    ensures Forest(ts + [t]) == Forest(ts) + All(t)
  {
    forall n | n in Forest(ts + [t]) ensures n in Forest(ts) + All(t) {
      var i :| 0 <= i < |ts + [t]| && n in All((ts + [t])[i]);
      assert i < |ts| ==> ts[i] == (ts + [t])[i];
    }
    forall n | n in Forest(ts) ensures n in Forest(ts + [t]) {
      var i :| 0 <= i < |ts| && n in All(ts[i]);
      assert ts[i] == (ts + [t])[i];
    }
    assert (ts + [t])[|ts|] == t;
  }

  lemma InForest(ts: seq<Below>, i: nat)
    requires i < |ts|
    ensures All(ts[i]) <= Forest(ts)
  {}

  /** One more child. */
  lemma PartsMore(nodes: seq<Node>, items: seq<Json>, ts: seq<Below>, item: Node, v: Json, t: Below)
    requires Parts(nodes, items, ts) && Built(item, v, t)
    requires item !in Forest(ts) && item !in All(t) && All(t) !! Forest(ts) && forall n | n in nodes :: n !in All(t)
    ensures Parts(nodes + [item], items + [v], ts + [t])
  {
    hide Built, All, Forest;
    ForestMore(ts, t);
    assert Apart(nodes + [item], ts + [t]) by {
      forall i | 0 <= i < |ts| ensures All(ts[i]) !! All(t) {
        InForest(ts, i);
      }
    }
  }

  lemma NamedMore(nodes: seq<Node>, members: seq<Member>, item: Node, m: Member)
    requires Named(nodes, members) && item.name == Some(m.key)
    ensures Named(nodes + [item], members + [m]) && Values(members + [m]) == Values(members) + [m.value]
  {}

  lemma PartsLieApart(nodes: seq<Node>, items: seq<Json>, ts: seq<Below>)
    requires Parts(nodes, items, ts)
    ensures forall n | n in nodes :: n !in Forest(ts)
  {}

  lemma ArrayBuilt(item: Node, items: seq<Json>, t: Below)
    requires item.kind == ArrayKind && IsList(item.child, t.nodes) && Parts(t.nodes, items, t.subtrees)
    ensures Built(item, Arr(items), t) && All(t) == (set n | n in t.nodes) + Forest(t.subtrees)
  {}

  lemma ObjectBuilt(item: Node, members: seq<Member>, t: Below)
    requires item.kind == ObjectKind && IsList(item.child, t.nodes) && Parts(t.nodes, Values(members), t.subtrees) && Named(t.nodes, members)
    ensures Built(item, Obj(members), t) && All(t) == (set n | n in t.nodes) + Forest(t.subtrees)
  {}

  lemma EmptyBuilt(item: Node)
    requires item.child == null
    ensures item.kind == ArrayKind ==> Built(item, Arr([]), NOTHING_BELOW)
    ensures item.kind == ObjectKind ==> Built(item, Obj([]), NOTHING_BELOW)
  {
    NoParts();
    assert Values([]) == [];
  }

  // ---------------------------------------------------------------------------------------------
  // Walking through a tree
  // ---------------------------------------------------------------------------------------------

  /** The type of an item tells which value it stands for, and its fields tell the rest. */
  lemma KindOf(item: Node, v: Json, t: Below)
    requires Built(item, v, t)
    ensures match item.kind
            case NullKind => v == Null
            case FalseKind => v == False
            case TrueKind => v == True
            case NumberKind => v == Num(item.valueInt)
            case StringKind => item.valueString.Some? && v == Str(item.valueString.value)
            case ArrayKind => v.Arr?
            case ObjectKind => v.Obj?
            case InvalidKind => false
  {}

  lemma ArrayParts(item: Node, items: seq<Json>, t: Below)
    requires Built(item, Arr(items), t)
    ensures IsList(item.child, t.nodes) && Parts(t.nodes, items, t.subtrees) && Forest(t.subtrees) <= All(t)
  {}

  lemma ObjectParts(item: Node, members: seq<Member>, t: Below)
    requires Built(item, Obj(members), t)
    ensures IsList(item.child, t.nodes) && Parts(t.nodes, Values(members), t.subtrees) && Named(t.nodes, members)
    ensures Forest(t.subtrees) <= All(t)
  {}

  lemma PartsCount(nodes: seq<Node>, items: seq<Json>, ts: seq<Below>)
    requires Parts(nodes, items, ts)
    ensures |nodes| == |items| == |ts|
  {}

  lemma PartAt(nodes: seq<Node>, items: seq<Json>, ts: seq<Below>, i: nat)
    requires Parts(nodes, items, ts) && i < |items|
    ensures i < |nodes| && i < |ts| && Built(nodes[i], items[i], ts[i]) && All(ts[i]) <= Forest(ts)
  {
    InForest(ts, i);
  }

  lemma MembersCount(nodes: seq<Node>, members: seq<Member>, ts: seq<Below>)
    requires Parts(nodes, Values(members), ts)
    ensures |nodes| == |members| == |ts|
  {}

  lemma MemberAt(nodes: seq<Node>, members: seq<Member>, ts: seq<Below>, i: nat)
    requires Parts(nodes, Values(members), ts) && Named(nodes, members) && i < |members|
    ensures i < |nodes| && i < |ts| && Built(nodes[i], members[i].value, ts[i]) && All(ts[i]) <= Forest(ts)
    ensures nodes[i].name == Some(members[i].key)
  {
    InForest(ts, i);
  }

  lemma ListStart(head: Node?, nodes: seq<Node>)
    requires IsList(head, nodes)
    ensures head == if 0 < |nodes| then nodes[0] else null
  {}

  lemma ListNext(head: Node?, nodes: seq<Node>, i: nat)
    requires IsList(head, nodes) && i < |nodes|
    ensures nodes[i].next == if i + 1 < |nodes| then nodes[i + 1] else null
  {}

  // ---------------------------------------------------------------------------------------------
  // The memory decides the value
  // ---------------------------------------------------------------------------------------------

  lemma {:induction false} SameValue(item: Node, v: Json, t: Below, w: Json, u: Below)
    requires Built(item, v, t) && Built(item, w, u)
    ensures v == w && t == u
    decreases t, 1
  {
    hide IsList, Parts, Named, Values, Built;
    KindOf(item, v, t);
    KindOf(item, w, u);
    match v {
      case Arr(items) =>
        ArrayParts(item, items, t);
        ArrayParts(item, w.items, u);
        SameList(item.child, t.nodes, u.nodes);
        SameParts(t.nodes, items, t.subtrees, w.items, u.subtrees);
      case Obj(members) =>
        ObjectParts(item, members, t);
        ObjectParts(item, w.members, u);
        SameList(item.child, t.nodes, u.nodes);
        SameParts(t.nodes, Values(members), t.subtrees, Values(w.members), u.subtrees);
        SameMembers(t.nodes, members, w.members);
      case _ =>
        LeafBelow(item, v, t);
        LeafBelow(item, w, u);
    }
  }

  lemma {:induction false} SameParts(nodes: seq<Node>, items: seq<Json>, ts: seq<Below>, others: seq<Json>, us: seq<Below>)
    requires Parts(nodes, items, ts) && Parts(nodes, others, us)
    ensures items == others && ts == us
    decreases ts, 0
  {
    hide Built, Apart;
    forall i | 0 <= i < |ts| ensures items[i] == others[i] && ts[i] == us[i] {
      SameValue(nodes[i], items[i], ts[i], others[i], us[i]);
    }
  }

  lemma SameMembers(nodes: seq<Node>, members: seq<Member>, others: seq<Member>)
    requires Named(nodes, members) && Named(nodes, others) && Values(members) == Values(others)
    ensures members == others
  {
    forall i | 0 <= i < |members| ensures members[i] == others[i] {
      assert nodes[i].name == Some(members[i].key) == Some(others[i].key);
      assert Values(members)[i] == Values(others)[i];
    }
  }

  lemma LeafBelow(item: Node, v: Json, t: Below)
    requires Built(item, v, t) && !v.Arr? && !v.Obj?
    ensures t == NOTHING_BELOW
  {}
}
