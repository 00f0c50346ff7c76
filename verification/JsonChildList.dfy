/** The child list of an array or object: a doubly linked list whose head points back at the tail. */
module JsonChildList {
  import opened Bytes
  import opened JsonTree

  /** The type of an item; a new one has none. */
  datatype Kind = InvalidKind | FalseKind | TrueKind | NullKind | NumberKind | StringKind | ArrayKind | ObjectKind

  /** The cJSON structure, as memset leaves it: name and valueString are absent. */
  class Node {
    var next: Node?
    var prev: Node?
    var child: Node?
    var kind: Kind
    var valueString: Option<cstring>
    var valueInt: int32
    var name: Option<cstring>

    constructor ()
      ensures next == null && prev == null && child == null
      ensures kind == InvalidKind && valueString == None && valueInt == 0 && name == None
    {
      next, prev, child := null, null, null;
      kind, valueString, valueInt, name := InvalidKind, None, 0, None;
    }
  }

  ghost predicate Distinct(s: seq<Node>) {
    forall i, j :: 0 <= i < j < |s| ==> s[i] != s[j]
  }

  /** Inner links agree both ways, and the head's prev is the last node; what follows the last node is left open. */
  ghost predicate Linked(head: Node?, s: seq<Node>)
    reads s`next, s`prev
  {
    && Distinct(s)
    && (s == [] ==> head == null)
    && (s != [] ==> head == s[0] && s[0].prev == s[|s| - 1])
    && (forall i {:trigger s[i].next} :: 0 <= i < |s| - 1 ==> s[i].next == s[i + 1])
    && (forall i {:trigger s[i].prev} :: 0 < i < |s| ==> s[i].prev == s[i - 1])
  }

  /** The children, in order. */
  ghost predicate IsList(head: Node?, s: seq<Node>)
    reads s`next, s`prev
  {
    Linked(head, s) && (s != [] ==> s[|s| - 1].next == null)
  }

  /** The memory decides which nodes the list has. */
  lemma SameList(head: Node?, s: seq<Node>, t: seq<Node>)
    requires IsList(head, s) && IsList(head, t)
    ensures s == t
  {
    NotLonger(head, s, t);
    NotLonger(head, t, s);
    SamePrefix(head, s, t, |s|);
    assert s[..|s|] == s && t[..|s|] == t;
  }

  lemma NotLonger(head: Node?, s: seq<Node>, t: seq<Node>)
    requires IsList(head, s) && IsList(head, t)
    ensures |t| <= |s|
  {
    if 0 < |s| < |t| {
      LastAgrees(head, s, t);
      assert false;
    }
  }

  lemma LastAgrees(head: Node?, s: seq<Node>, t: seq<Node>)
    requires IsList(head, s) && IsList(head, t) && 0 < |s| <= |t|
    ensures s[|s| - 1] == t[|s| - 1] && (|s| < |t| ==> t[|s| - 1].next == t[|s|])
  {
    SamePrefix(head, s, t, |s|);
    assert s[|s| - 1] == s[..|s|][|s| - 1] == t[..|s|][|s| - 1];
  }

  lemma {:induction false} SamePrefix(head: Node?, s: seq<Node>, t: seq<Node>, n: nat)
    requires IsList(head, s) && IsList(head, t) && n <= |s| && n <= |t|
    ensures s[..n] == t[..n]
  {
    if n > 1 {
      SamePrefix(head, s, t, n - 1);
      assert s[n - 2] == s[..n - 1][n - 2] == t[..n - 1][n - 2] == t[n - 2];
      assert s[n - 2].next == s[n - 1] && t[n - 2].next == t[n - 1];
    }
  }

  // ---------------------------------------------------------------------------------------------
  // What is no list
  // ---------------------------------------------------------------------------------------------

  /** A list has to follow the links. */
  lemma {:induction false} Follows(head: Node?, path: seq<Node>, t: seq<Node>, n: nat)
    requires IsList(head, t) && n < |path| && head == path[0]
    requires forall i {:trigger path[i].next} :: 0 <= i < |path| - 1 ==> path[i].next == path[i + 1]
    ensures n < |t| && t[n] == path[n]
  {
    if n > 0 {
      Follows(head, path, t, n - 1);
      assert path[n - 1].next == path[n];
      assert t[n - 1].next == if n < |t| then t[n] else null;
    }
  }

  lemma FollowsToTheEnd(head: Node?, path: seq<Node>, t: seq<Node>)
    requires IsList(head, t) && path != [] && head == path[0]
    requires forall i {:trigger path[i].next} :: 0 <= i < |path| - 1 ==> path[i].next == path[i + 1]
    ensures |path| <= |t| && path == t[..|path|]
    ensures path[|path| - 1].next == if |path| < |t| then t[|path|] else null
  {
    forall i | 0 <= i < |path| ensures i < |t| && t[i] == path[i] {
      Follows(head, path, t, i);
    }
    var n := |path| - 1;
    assert t[n].next == if n + 1 < |t| then t[n + 1] else null;
  }

  /** Links that lead back are no list. */
  lemma CycleIsNoList(head: Node?, path: seq<Node>, j: nat, t: seq<Node>)
    requires j < |path| && head == path[0] && path[|path| - 1].next == path[j]
    requires forall i {:trigger path[i].next} :: 0 <= i < |path| - 1 ==> path[i].next == path[i + 1]
    ensures !IsList(head, t)
  {
    if IsList(head, t) {
      FollowsToTheEnd(head, path, t);
      assert false;
    }
  }

  /** Nor are links that end, if a prev does not point where it has to. */
  lemma PathIsNoList(head: Node?, path: seq<Node>, j: nat, t: seq<Node>)
    requires j < |path| && head == path[0] && path[|path| - 1].next == null
    requires forall i {:trigger path[i].next} :: 0 <= i < |path| - 1 ==> path[i].next == path[i + 1]
    requires path[j].prev != if j == 0 then path[|path| - 1] else path[j - 1]
    ensures !IsList(head, t)
  {
    if IsList(head, t) {
      FollowsToTheEnd(head, path, t);
      PrevInList(head, t, j);
      assert false;
    }
  }

  lemma PrevInList(head: Node?, t: seq<Node>, j: nat)
    requires IsList(head, t) && j < |t|
    ensures t[j].prev == if j == 0 then t[|t| - 1] else t[j - 1]
  {}

  function Just(a: Node?): set<Node> {
    if a == null then {} else {a}
  }

  function Insert(s: seq<Node>, k: nat, x: Node): seq<Node>
    requires k <= |s|
  {
    s[..k] + [x] + s[k..]
  }

  // ---------------------------------------------------------------------------------------------
  // get_array_item
  // ---------------------------------------------------------------------------------------------

  method GetArrayItem(arr: Node?, index: nat, ghost s: seq<Node>) returns (r: Node?)
    requires arr != null ==> IsList(arr.child, s)
    ensures r == if arr != null && index < |s| then s[index] else null
  {
    if arr == null {
      return null;
    }
    var currentChild, left := arr.child, index;
    ghost var i := 0;
    while currentChild != null && left > 0
      invariant 0 <= i <= |s| && i + left == index
      invariant currentChild == if i < |s| then s[i] else null
      decreases left
    {
      assert i < |s| - 1 ==> s[i].next == s[i + 1];
      left := left - 1;
      currentChild := currentChild.next;
      i := i + 1;
    }
    return currentChild;
  }

  // ---------------------------------------------------------------------------------------------
  // add_item_to_array
  // ---------------------------------------------------------------------------------------------

  /** The item becomes the last child. Its own next is cleared only if it is the first one, so the list keeps its
      shape exactly when the item was not in it, and the list was empty or the item did not point anywhere. An item
      that is a child already leaves no list at all. */
  method AddItemToArray(arr: Node?, item: Node?, ghost s: seq<Node>) returns (ok: bool)
    requires arr != null ==> IsList(arr.child, s)
    modifies Just(arr)`child, Just(item)`next, Just(item)`prev, s`next, s`prev
    ensures ok <==> item != null && arr != null && arr != item
    ensures !ok ==> unchanged(Just(arr)) && unchanged(Just(item)) && unchanged(s)
    ensures ok && item !in s ==> Linked(arr.child, s + [item])
    ensures ok && item !in s ==> item.next == if s == [] then null else old(item.next)
    ensures ok ==> (IsList(arr.child, s + [item]) <==> item !in s && (s == [] || old(item.next) == null))
    ensures ok && item in s ==> forall t: seq<Node> :: !IsList(arr.child, t)
  {
    if item == null || arr == null || arr == item {
      return false;
    }
    var child := arr.child;
    if child == null {
      arr.child := item;
      item.prev := item;
      item.next := null;
    } else if child.prev != null {
      child.prev.next := item;
      item.prev := child.prev;
      arr.child.prev := item;
    }
    if item in s {
      ghost var k :| 0 <= k < |s| && s[k] == item;
      forall t: seq<Node> ensures !IsList(arr.child, t) {
        CycleIsNoList(arr.child, s, k, t);
      }
    }
    return true;
  }

  /** The case of an item that already points to another one: it is the last child, but the list goes on. */
  method AppendKeepsOldLink() returns (arr: Node, first: Node, item: Node)
    ensures Linked(arr.child, [first, item]) && item.next != null && !IsList(arr.child, [first, item])
  {
    arr := new Node();
    first := new Node();
    item := new Node();
    item.next := new Node();
    var ok := AddItemToArray(arr, first, []);
    assert [] + [first] == [first];
    ok := AddItemToArray(arr, item, [first]);
    assert [first] + [item] == [first, item];
  }

  // ---------------------------------------------------------------------------------------------
  // cJSON_DetachItemViaPointer
  // ---------------------------------------------------------------------------------------------

  /** The child is taken out, the others keep their order, and it points nowhere afterwards. */
  method DetachItemViaPointer(parent: Node?, item: Node?, ghost s: seq<Node>, ghost k: nat) returns (r: Node?)
    requires parent != null && item != null ==> IsList(parent.child, s) && k < |s| && s[k] == item
    modifies Just(parent)`child, Just(item)`next, Just(item)`prev, s`next, s`prev
    ensures r == if parent == null then null else item
    ensures r == null ==> unchanged(Just(parent)) && unchanged(Just(item)) && unchanged(s)
    ensures r != null ==> IsList(parent.child, s[..k] + s[k + 1..]) && r.next == null && r.prev == null
  {
    if parent == null || item == null {
      return null;
    }
    if item != parent.child {
      item.prev.next := item.next;
    }
    if item.next != null {
      item.next.prev := item.prev;
    }
    if item == parent.child {
      parent.child := item.next;
    } else if item.next == null {
      parent.child.prev := item.prev;
    }
    item.prev := null;
    item.next := null;
    return item;
  }

  // ---------------------------------------------------------------------------------------------
  // cJSON_InsertItemInArray
  // ---------------------------------------------------------------------------------------------

  /** The item stands in front of the child at the index. One that is a child already leaves no list at all. */
  method InsertItemInArray(arr: Node?, which: int, newItem: Node?, ghost s: seq<Node>) returns (ok: bool)
    requires arr != null ==> IsList(arr.child, s)
    modifies Just(arr)`child, Just(newItem)`next, Just(newItem)`prev, s`next, s`prev
    ensures ok <==> which >= 0 && newItem != null && arr != null && (which < |s| || arr != newItem)
    ensures !ok ==> unchanged(Just(arr)) && unchanged(Just(newItem)) && unchanged(s)
    ensures ok && newItem !in s ==>
              var k := if which < |s| then which else |s|; Linked(arr.child, s[..k] + [newItem] + s[k..])
    ensures ok ==>
              var k := if which < |s| then which else |s|;
              (IsList(arr.child, s[..k] + [newItem] + s[k..])
               <==> newItem !in s && (which < |s| || s == [] || old(newItem.next) == null))
    ensures ok && newItem in s ==> forall t: seq<Node> :: !IsList(arr.child, t)
  {
    if which < 0 || newItem == null {
      return false;
    }
    var afterInserted := GetArrayItem(arr, which, s);
    if afterInserted == null {
      assert arr != null ==> Insert(s, |s|, newItem) == s + [newItem];
      ok := AddItemToArray(arr, newItem, s);
      return;
    }
    if afterInserted != arr.child && afterInserted.prev == null {
      return false;
    }
    if afterInserted == arr.child {
      InsertFirst(arr, newItem, s);
    } else {
      InsertLater(arr, which, newItem, s);
    }
    return true;
  }

  method InsertFirst(arr: Node, newItem: Node, ghost s: seq<Node>)
    requires IsList(arr.child, s) && s != []
    modifies arr`child, newItem`next, newItem`prev, s`next, s`prev
    ensures newItem !in s ==> IsList(arr.child, Insert(s, 0, newItem))
    ensures newItem in s ==> forall t: seq<Node> :: !IsList(arr.child, t)
  {
    var afterInserted := arr.child;
    ghost var t := Insert(s, 0, newItem);
    assert forall i {:trigger t[i]} :: 0 < i < |t| ==> t[i] == s[i - 1];
    newItem.next := afterInserted;
    newItem.prev := afterInserted.prev;
    afterInserted.prev := newItem;
    arr.child := newItem;
    if newItem in s {
      ghost var k :| 0 <= k < |s| && s[k] == newItem;
      forall t: seq<Node> ensures !IsList(arr.child, t) {
        CycleIsNoList(arr.child, [newItem] + s[..k], 0, t);
      }
    }
  }

  method InsertLater(arr: Node, k: nat, newItem: Node, ghost s: seq<Node>)
    requires IsList(arr.child, s) && 0 < k < |s|
    modifies arr`child, newItem`next, newItem`prev, s`next, s`prev
    ensures newItem !in s ==> IsList(arr.child, Insert(s, k, newItem))
    ensures newItem in s ==> forall t: seq<Node> :: !IsList(arr.child, t)
  {
    InsertLinks(arr, k, newItem, s);
    if newItem in s {
      ghost var j :| 0 <= j < |s| && s[j] == newItem;
      InsertedAgain(arr.child, k, newItem, s, j);
    } else {
      InsertedNew(arr.child, k, newItem, s);
    }
  }

  /** What the four assignments make of a list, also when the item is the child at the index or the one before it. */
  ghost predicate InsertedAt(head: Node?, k: nat, newItem: Node, s: seq<Node>)
    requires 0 < k < |s|
    reads s`next, s`prev, newItem`next, newItem`prev
  {
    && Distinct(s) && head == s[0]
    && s[k].prev == newItem && (newItem != s[k] ==> newItem.prev == if newItem == s[k - 1] then newItem else s[k - 1])
    && newItem.next == (if newItem == s[k] || newItem == s[k - 1] then newItem else s[k])
    && (newItem != s[k] ==> s[k - 1].next == newItem)
    && (forall i {:trigger s[i].next} :: 0 <= i < |s| && s[i] != newItem && (i != k - 1 || newItem == s[k])
          ==> s[i].next == if i + 1 < |s| then s[i + 1] else null)
    && (forall i {:trigger s[i].prev} :: 0 <= i < |s| && s[i] != newItem && i != k
          ==> s[i].prev == if i == 0 then s[|s| - 1] else s[i - 1])
  }

  method InsertLinks(arr: Node, k: nat, newItem: Node, ghost s: seq<Node>)
    requires IsList(arr.child, s) && 0 < k < |s|
    modifies newItem`next, newItem`prev, s`next, s`prev
    ensures InsertedAt(arr.child, k, newItem, s)
  {
    var afterInserted := GetArrayItem(arr, k, s);
    assert s[k].prev == s[k - 1];
    newItem.next := afterInserted;
    newItem.prev := afterInserted.prev;
    afterInserted.prev := newItem;
    newItem.prev.next := newItem;
  }

  lemma InsertedNew(head: Node?, k: nat, newItem: Node, s: seq<Node>)
    requires 0 < k < |s| && newItem !in s && InsertedAt(head, k, newItem, s)
    ensures IsList(head, Insert(s, k, newItem))
  {
    var u := Insert(s, k, newItem);
    assert forall i {:trigger u[i]} :: 0 <= i < k ==> u[i] == s[i];
    assert forall i {:trigger u[i]} :: k < i < |u| ==> u[i] == s[i - 1];
  }

  lemma InsertedAgain(head: Node?, k: nat, newItem: Node, s: seq<Node>, j: nat)
    requires 0 < k < |s| && j < |s| && s[j] == newItem && InsertedAt(head, k, newItem, s)
    ensures forall t: seq<Node> :: !IsList(head, t)
  {
    forall t: seq<Node> ensures !IsList(head, t) {
      if j == k || j == k - 1 {
        CycleIsNoList(head, s[..j + 1], j, t);
      } else if j > k {
        CycleIsNoList(head, s[..k] + [newItem] + s[k..j], k, t);
      } else {
        PathIsNoList(head, s[..j + 1] + s[k..], j, t);
      }
    }
  }

  // ---------------------------------------------------------------------------------------------
  // cJSON_ReplaceItemViaPointer
  // ---------------------------------------------------------------------------------------------

  /** The replacement stands where the child stood; the child is unlinked, which is how it is released. */
  method ReplaceItemViaPointer(parent: Node?, item: Node?, replacement: Node?, ghost s: seq<Node>, ghost k: nat) returns (ok: bool)
    requires parent != null ==> IsList(parent.child, s)
    requires parent != null && item != null && s != [] ==> k < |s| && s[k] == item
    modifies Just(parent)`child, Just(replacement)`next, Just(replacement)`prev, s`next, s`prev
    ensures ok <==> parent != null && old(parent.child) != null && replacement != null && item != null
    ensures !ok || replacement == item ==> unchanged(Just(parent)) && unchanged(Just(replacement)) && unchanged(s)
    ensures ok ==> k < |s| && (IsList(parent.child, s[k := replacement]) <==> replacement == item || replacement !in s)
    ensures ok && replacement != item ==> item.next == null && item.prev == null
  {
    if parent == null || parent.child == null || replacement == null || item == null {
      return false;
    }
    if replacement == item {
      assert s[k := replacement] == s;
      return true;
    }
    if parent.child == item {
      ReplaceFirst(parent, item, replacement, s);
    } else {
      ReplaceLater(parent, item, replacement, s, k);
    }
    item.next := null;
    item.prev := null;
    if replacement in s {
      TwiceIsNoList(parent.child, s, k, replacement);
    }
    return true;
  }

  /** A child that takes the place of another one stands in two places. */
  lemma TwiceIsNoList(head: Node?, s: seq<Node>, k: nat, child: Node)
    requires k < |s| && child in s && child != s[k]
    ensures !IsList(head, s[k := child])
  {
    var j :| 0 <= j < |s| && s[j] == child;
    assert s[k := child][j] == s[k := child][k];
  }

  /** The links around the first child, and the way to it, pass over to the replacement. */
  method ReplaceFirst(parent: Node, item: Node, replacement: Node, ghost s: seq<Node>)
    requires IsList(parent.child, s) && s != [] && s[0] == item && replacement != item
    modifies parent`child, replacement`next, replacement`prev, s`next, s`prev
    ensures replacement !in s ==> IsList(parent.child, s[0 := replacement])
  {
    replacement.next := item.next;
    replacement.prev := item.prev;
    if replacement.next != null {
      replacement.next.prev := replacement;
    }
    if parent.child.prev == parent.child {
      replacement.prev := replacement;
    }
    parent.child := replacement;
  }

  method ReplaceLater(parent: Node, item: Node, replacement: Node, ghost s: seq<Node>, ghost k: nat)
    requires IsList(parent.child, s) && 0 < k < |s| && s[k] == item && replacement != item
    modifies parent`child, replacement`next, replacement`prev, s`next, s`prev
    ensures replacement !in s ==> IsList(parent.child, s[k := replacement])
  {
    assert s[k].prev == s[k - 1];
    replacement.next := item.next;
    replacement.prev := item.prev;
    if replacement.next != null {
      replacement.next.prev := replacement;
    }
    if replacement.prev != null {
      replacement.prev.next := replacement;
    }
    if replacement.next == null {
      parent.child.prev := replacement;
    }
  }
}
