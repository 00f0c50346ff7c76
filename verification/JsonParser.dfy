/** The recursive-descent parser of cjson.c: a buffer with a position and a nesting depth, and the tree that it builds. */
module JsonParser {
  import opened Bytes
  import opened JsonString
  import opened JsonTree
  import opened JsonGrammar
  import opened JsonChildList
  import opened JsonNodes

  /** Items read so far, in front of what the rest of the list gives. */
  function Joined<T>(front: seq<T>, r: Outcome<seq<T>>): Outcome<seq<T>> {
    match r
    case Parsed(next, rest) => Parsed(next, front + rest)
    case Rejected => Rejected
    case OtherNumber => OtherNumber
  }

  lemma JoinedNothing<T>(r: Outcome<seq<T>>)
    ensures Joined([], r) == r
  {
    if r.Parsed? {
      assert [] + r.value == r.value;
    }
  }

  lemma JoinedOne<T>(front: seq<T>, x: T, r: Outcome<seq<T>>)
    requires r.Parsed?
    ensures Joined(front, Parsed(r.next, [x] + r.value)) == Joined(front + [x], r)
  {
    assert front + ([x] + r.value) == front + [x] + r.value;
  }

  /** One more item, and then: the end of the list, or the rest of it after the comma. */
  lemma ItemsGoOn(s: bytes, j: nat, depth: nat, front: seq<Json>)
    requires j <= |s|
    ensures var whole, r := Joined(front, ParseItems(s, j, depth)), ParseValue(s, j, depth);
            if !r.Parsed? then whole == (if r.Rejected? then Rejected else OtherNumber)
            else
              var k := SkipWhitespace(s, r.next);
              if Is(s, k, COMMA) then whole == Joined(front + [r.value], ParseItems(s, SkipWhitespace(s, k + 1), depth))
              else whole == if Is(s, k, CLOSE_ARRAY) then Parsed(k + 1, front + [r.value]) else Rejected
  {
    hide ParseValue, SkipWhitespace;
    var r := ParseValue(s, j, depth);
    if r.Parsed? {
      var k := SkipWhitespace(s, r.next);
      if Is(s, k, COMMA) {
        var rest := ParseItems(s, SkipWhitespace(s, k + 1), depth);
        if rest.Parsed? {
          JoinedOne(front, r.value, rest);
        }
      }
    }
  }

  lemma MembersGoOn(s: bytes, j: nat, depth: nat, front: seq<Member>)
    requires j <= |s|
    ensures var whole, r := Joined(front, ParseMembers(s, j, depth)), ParseMember(s, j, depth);
            if !r.Parsed? then whole == (if r.Rejected? then Rejected else OtherNumber)
            else
              var k := SkipWhitespace(s, r.next);
              if Is(s, k, COMMA) then whole == Joined(front + [r.value], ParseMembers(s, SkipWhitespace(s, k + 1), depth))
              else whole == if Is(s, k, CLOSE_OBJECT) then Parsed(k + 1, front + [r.value]) else Rejected
  {
    hide ParseMember, SkipWhitespace;
    var r := ParseMember(s, j, depth);
    if r.Parsed? {
      var k := SkipWhitespace(s, r.next);
      if Is(s, k, COMMA) {
        var rest := ParseMembers(s, SkipWhitespace(s, k + 1), depth);
        if rest.Parsed? {
          JoinedOne(front, r.value, rest);
        }
      }
    }
  }

  /** What a step answers: the source's true and false, and that a number is not a 32-bit integer. */
  datatype Answer = Accepted | Refused | NotAnInteger

  function AnswerOf<T>(o: Outcome<T>): Answer {
    match o
    case Parsed(_, _) => Accepted
    case Rejected => Refused
    case OtherNumber => NotAnInteger
  }

  class ParseBuffer {
    const content: bytes
    var offset: nat
    var depth: nat

    constructor (value: bytes)
      ensures content == value && offset == 0 && depth == 0
    {
      content, offset, depth := value, 0, 0;
    }

    method Skip()
      modifies this`offset
      ensures offset == SkipWhitespace(content, old(offset))
    {
      if offset >= |content| {
        return;
      }
      while offset < |content| && content[offset] <= 32
        invariant old(offset) <= offset <= |content|
        invariant forall k | old(offset) <= k < offset :: content[k] <= 32
      {
        offset := offset + 1;
      }
      ScanUnique(content, old(offset), c => c > 32, offset);
      if offset == |content| {
        offset := offset - 1;
      }
    }

    method ParseNumberItem(item: Node) returns (r: Answer)
      requires offset < |content| && item.child == null
      modifies this`offset, item`kind, item`valueInt
      ensures var o := ParseNumber(content, old(offset));
              r == AnswerOf(o) && (r.Accepted? ==> offset == o.next && Built(item, o.value, NOTHING_BELOW))
    {
      hide DecimalPrefix, IsNumberChar;
      var text := new byte[NUMBER_SIZE](_ => 0);
      var i := 0;
      while i < NUMBER_SIZE - 1 && offset + i < |content| && IsNumberChar(content[offset + i])
        invariant i < NUMBER_SIZE && offset + i <= |content| && offset == old(offset)
        invariant forall k | offset <= k < offset + i :: IsNumberChar(content[k])
        invariant forall k | 0 <= k < i :: text[k] == content[offset + k]
      {
        text[i] := content[offset + i];
        i := i + 1;
      }
      ghost var end := Scan(content, offset, (c: byte) => !IsNumberChar(c));
      assert end >= offset + i;
      assert i < NUMBER_SIZE - 1 ==> end == offset + i;
      assert text[..i] == content[offset..offset + i] == NumberText(content, offset);
      match DecimalPrefix(text[..i]) {
        case Rejected => r := Refused;
        case OtherNumber => r := NotAnInteger;
        case Parsed(length, n) =>
          if -0x8000_0000 <= n <= 0x7fff_ffff {
            item.valueInt := n;
            item.kind := NumberKind;
            offset := offset + length;
            r := Accepted;
          } else {
            r := NotAnInteger;
          }
      }
    }

    method ParseStringItem(item: Node) returns (r: Answer)
      requires offset < |content|
      modifies this`offset, item`kind, item`valueString
      ensures var o := ParseString(content, old(offset));
              r == AnswerOf(o) && (r.Accepted? ==> offset == o.next && item.kind == StringKind && item.valueString == Some(o.value))
    {
      hide FindEnd, Unescape, Units, CString;
      if content[offset] != QUOTE {
        return Refused;
      }
      var extent := MeasureString(content, offset + 1);
      if extent == None {
        return Refused;
      }
      var (inputEnd, skippedBytes) := extent.value;
      EndInside(content, offset + 1);
      var allocationLength := inputEnd - offset - skippedBytes;
      var output := new byte[allocationLength + 1](_ => 0);
      var written := UnescapeInto(content, offset + 1, inputEnd, output);
      match written {
        case None => return Refused;
        case Some(w) =>
          CutAtTerminator(output[..], w);
          assert output[..w] == output[..w + 1][..w];
          item.kind := StringKind;
          item.valueString := Some(CString(output[..]));
          offset := inputEnd + 1;
          r := Accepted;
      }
    }

    /** The item becomes what the text says, down to its last child. */
    method ParseValueItem(item: Node) returns (r: Answer, ghost t: Below)
      requires offset <= |content| && item.child == null
      modifies this, item`kind, item`valueString, item`valueInt, item`child
      ensures var o := ParseValue(content, old(offset), old(depth));
              && r == AnswerOf(o)
              && (r.Accepted? ==> offset == o.next && depth == old(depth) && Built(item, o.value, t) && fresh(All(t)) && allocated(All(t)))
      ensures r.Accepted? && ParseValue(content, old(offset), old(depth)).value == True ==> item.valueInt == 1
      decreases |content| - offset, 1
    {
      hide ParseString, ParseNumber, ParseArray, ParseObject, At, Parts;
      t := NOTHING_BELOW;
      NothingIsBelow();
      if offset < |content| {
        KindsRead(content, offset, depth);
      }
      if At(content, offset, NULL_TEXT) {
        item.kind := NullKind;
        offset := offset + 4;
        return Accepted, t;
      }
      if At(content, offset, FALSE_TEXT) {
        item.kind := FalseKind;
        offset := offset + 5;
        return Accepted, t;
      }
      if At(content, offset, TRUE_TEXT) {
        item.kind := TrueKind;
        item.valueInt := 1;
        offset := offset + 4;
        return Accepted, t;
      }
      if offset < |content| && content[offset] == QUOTE {
        r := ParseStringItem(item);
        return;
      }
      if offset < |content| && (content[offset] == MINUS || IsDigit(content[offset])) {
        r := ParseNumberItem(item);
        return;
      }
      if offset < |content| && content[offset] == OPEN_ARRAY {
        r, t := ParseArrayItem(item);
        return;
      }
      if offset < |content| && content[offset] == OPEN_OBJECT {
        r, t := ParseObjectItem(item);
        return;
      }
      return Refused, t;
    }

    method ParseArrayItem(item: Node) returns (r: Answer, ghost t: Below)
      requires offset < |content| && content[offset] == OPEN_ARRAY && item.child == null
      modifies this, item`kind, item`child
      ensures var o := ParseArray(content, old(offset), old(depth));
              && r == AnswerOf(o)
              && (r.Accepted? ==> offset == o.next && depth == old(depth) && Built(item, o.value, t) && fresh(All(t)) && allocated(All(t)))
      decreases |content| - offset, 0
    {
      hide ParseValue, ParseItems, SkipWhitespace, Parts, Built, All, Forest, Growing, IsList;
      t := NOTHING_BELOW;
      if depth >= NESTING_LIMIT {
        return Refused, t;
      }
      depth := depth + 1;
      offset := offset + 1;
      Skip();
      SkipBounds(content, old(offset) + 1);
      if offset < |content| && content[offset] == CLOSE_ARRAY {
        depth := depth - 1;
        item.kind, item.child := ArrayKind, null;
        offset := offset + 1;
        EmptyBuilt(item);
        NothingIsBelow();
        return Accepted, t;
      }
      if offset >= |content| {
        NoItem(content, offset, depth);
        offset := offset - 1;
        return Refused, t;
      }
      SkipTwice(content, old(offset) + 1);
      offset := offset - 1;
      ghost var o := ParseItems(content, offset + 1, depth);
      var head, last;
      ghost var nodes, ts;
      r, head, last, nodes, ts := ParseItemList();
      if r.Accepted? {
        depth := depth - 1;
        t := Below(nodes, ts);
        GrowingEnds(head, last, nodes);
        FinishArray(item, head, last, o.value, t);
      }
    }

    /** The loop over the items; offset is at the byte in front of the first one. */
    method ParseItemList() returns (r: Answer, head: Node?, last: Node?, ghost nodes: seq<Node>, ghost ts: seq<Below>)
      requires offset + 1 < |content| && SkipWhitespace(content, offset + 1) == offset + 1
      modifies this
      ensures var o := ParseItems(content, old(offset) + 1, old(depth));
              && r == AnswerOf(o)
              && (r.Accepted? ==> offset == o.next && depth == old(depth) && Growing(head, last, nodes)
                                  && Parts(nodes, o.value, ts) && fresh(nodes) && fresh(Forest(ts)) && allocated(Forest(ts)))
      decreases |content| - offset - 1, 3
    {
      hide ParseValue, ParseItems, SkipWhitespace, Parts, Growing, Built, All, Forest;
      ghost var whole := ParseItems(content, offset + 1, depth);
      JoinedNothing(whole);
      ghost var items: seq<Json> := [];
      head, last, nodes, ts := null, null, [], [];
      NothingGrows();
      NoParts();
      while true
        invariant old(offset) <= offset < |content| && depth == old(depth)
        invariant whole == Joined(items, ParseItems(content, SkipWhitespace(content, offset + 1), depth))
        invariant Growing(head, last, nodes) && Parts(nodes, items, ts)
        invariant fresh(nodes) && fresh(Forest(ts)) && allocated(Forest(ts))
        decreases |content| - offset
      {
        SkipBounds(content, offset + 1);
        ItemsGoOn(content, SkipWhitespace(content, offset + 1), depth, items);
        ghost var v := ParseValue(content, SkipWhitespace(content, offset + 1), depth);
        GrowingEnds(head, last, nodes);
        ghost var t;
        r, head, last, t := ParseNextItem(head, last, nodes, items, ts);
        if !r.Accepted? {
          return;
        }
        SkipBounds(content, offset);
        ForestMore(ts, t);
        items, nodes, ts := items + [v.value], nodes + [last], ts + [t];
        Skip();
        if !(offset < |content| && content[offset] == COMMA) {
          break;
        }
      }
      if offset >= |content| || content[offset] != CLOSE_ARRAY {
        return Refused, head, last, nodes, ts;
      }
      offset := offset + 1;
      r := Accepted;
    }

    /** One turn of the loop: a new node at the end of the list, and its value. */
    method ParseNextItem(oldHead: Node?, oldLast: Node?, ghost nodes: seq<Node>, ghost items: seq<Json>, ghost ts: seq<Below>)
        returns (r: Answer, head: Node, last: Node, ghost t: Below)
      requires offset < |content| && Growing(oldHead, oldLast, nodes) && Parts(nodes, items, ts) && allocated(Forest(ts))
      modifies this, Just(oldLast)`next
      ensures fresh(last)
      ensures var o := ParseValue(content, SkipWhitespace(content, old(offset) + 1), old(depth));
              && r == AnswerOf(o)
              && (r.Accepted? ==> offset == o.next && depth == old(depth) && Growing(head, last, nodes + [last])
                                  && Parts(nodes + [last], items + [o.value], ts + [t]) && fresh(All(t)) && allocated(All(t)))
      decreases |content| - offset - 1, 2
    {
      hide ParseValue, SkipWhitespace, Parts, Growing, Built, All, Forest;
      GrowingEnds(oldHead, oldLast, nodes);
      PartsLieApart(nodes, items, ts);
      head, last := Attach(oldHead, oldLast, nodes);
      SkipBounds(content, offset + 1);
      offset := offset + 1;
      Skip();
      ghost var v := ParseValue(content, offset, depth);
      r, t := ParseValueItem(last);
      if r.Accepted? {
        PartsMore(nodes, items, ts, last, v.value, t);
      }
    }

    method ParseObjectItem(item: Node) returns (r: Answer, ghost t: Below)
      requires offset < |content| && content[offset] == OPEN_OBJECT && item.child == null
      modifies this, item`kind, item`child
      ensures var o := ParseObject(content, old(offset), old(depth));
              && r == AnswerOf(o)
              && (r.Accepted? ==> offset == o.next && depth == old(depth) && Built(item, o.value, t) && fresh(All(t)) && allocated(All(t)))
      decreases |content| - offset, 0
    {
      hide ParseMember, ParseMembers, SkipWhitespace, Parts, Named, Values, Built, All, Forest, Growing, IsList;
      t := NOTHING_BELOW;
      if depth >= NESTING_LIMIT {
        return Refused, t;
      }
      depth := depth + 1;
      offset := offset + 1;
      Skip();
      SkipBounds(content, old(offset) + 1);
      if offset < |content| && content[offset] == CLOSE_OBJECT {
        depth := depth - 1;
        item.kind, item.child := ObjectKind, null;
        offset := offset + 1;
        EmptyBuilt(item);
        NothingIsBelow();
        return Accepted, t;
      }
      if offset >= |content| {
        NoMember(content, offset, depth);
        offset := offset - 1;
        return Refused, t;
      }
      SkipTwice(content, old(offset) + 1);
      offset := offset - 1;
      ghost var o := ParseMembers(content, offset + 1, depth);
      var head, last;
      ghost var nodes, ts;
      r, head, last, nodes, ts := ParseMemberList();
      if r.Accepted? {
        depth := depth - 1;
        t := Below(nodes, ts);
        GrowingEnds(head, last, nodes);
        FinishObject(item, head, last, o.value, t);
      }
    }

    /** The loop over the members; offset is at the byte in front of the first one. */
    method ParseMemberList() returns (r: Answer, head: Node?, last: Node?, ghost nodes: seq<Node>, ghost ts: seq<Below>)
      requires offset + 1 < |content| && SkipWhitespace(content, offset + 1) == offset + 1
      modifies this
      ensures var o := ParseMembers(content, old(offset) + 1, old(depth));
              && r == AnswerOf(o)
              && (r.Accepted? ==> offset == o.next && depth == old(depth) && Growing(head, last, nodes)
                                  && Parts(nodes, Values(o.value), ts) && Named(nodes, o.value) && fresh(nodes) && fresh(Forest(ts)) && allocated(Forest(ts)))
      decreases |content| - offset - 1, 3
    {
      hide ParseMember, ParseMembers, SkipWhitespace, Parts, Growing, Built, All, Forest, Named, Values;
      ghost var whole := ParseMembers(content, offset + 1, depth);
      JoinedNothing(whole);
      ghost var members: seq<Member> := [];
      head, last, nodes, ts := null, null, [], [];
      NothingGrows();
      NoParts();
      NoNames();
      while true
        invariant old(offset) <= offset < |content| && depth == old(depth)
        invariant whole == Joined(members, ParseMembers(content, SkipWhitespace(content, offset + 1), depth))
        invariant Growing(head, last, nodes) && Parts(nodes, Values(members), ts) && Named(nodes, members)
        invariant fresh(nodes) && fresh(Forest(ts)) && allocated(Forest(ts))
        decreases |content| - offset
      {
        SkipBounds(content, offset + 1);
        MembersGoOn(content, SkipWhitespace(content, offset + 1), depth, members);
        ghost var m := ParseMember(content, SkipWhitespace(content, offset + 1), depth);
        GrowingEnds(head, last, nodes);
        ghost var t;
        r, head, last, t := ParseNextMember(head, last, nodes, members, ts);
        if !r.Accepted? {
          return;
        }
        SkipBounds(content, offset);
        ForestMore(ts, t);
        members, nodes, ts := members + [m.value], nodes + [last], ts + [t];
        Skip();
        if !(offset < |content| && content[offset] == COMMA) {
          break;
        }
      }
      if offset >= |content| || content[offset] != CLOSE_OBJECT {
        return Refused, head, last, nodes, ts;
      }
      offset := offset + 1;
      r := Accepted;
    }

    /** One turn of the loop: a new node at the end of the list, its name and its value. */
    method ParseNextMember(oldHead: Node?, oldLast: Node?, ghost nodes: seq<Node>, ghost members: seq<Member>, ghost ts: seq<Below>)
        returns (r: Answer, head: Node, last: Node, ghost t: Below)
      requires offset < |content| && Growing(oldHead, oldLast, nodes) && Parts(nodes, Values(members), ts) && Named(nodes, members)
      requires allocated(Forest(ts))
      modifies this, Just(oldLast)`next
      ensures fresh(last)
      ensures var o := ParseMember(content, SkipWhitespace(content, old(offset) + 1), old(depth));
              && r == AnswerOf(o)
              && (r.Accepted? ==> old(offset) < offset == o.next <= |content| && depth == old(depth) && Growing(head, last, nodes + [last])
                                  && Parts(nodes + [last], Values(members + [o.value]), ts + [t]) && Named(nodes + [last], members + [o.value])
                                  && fresh(All(t)) && allocated(All(t)))
      decreases |content| - offset - 1, 2
    {
      hide ParseMember, SkipWhitespace, Parts, Growing, Built, All, Forest, Named, Values;
      GrowingEnds(oldHead, oldLast, nodes);
      PartsLieApart(nodes, Values(members), ts);
      head, last := Attach(oldHead, oldLast, nodes);
      t := NOTHING_BELOW;
      SkipBounds(content, offset + 1);
      if offset + 1 >= |content| {
        NoMember(content, SkipWhitespace(content, offset + 1), depth);
        return Refused, head, last, t;
      }
      offset := offset + 1;
      Skip();
      ghost var m := ParseMember(content, offset, depth);
      r, t := ParseMemberItem(last);
      if r.Accepted? {
        PartsMore(nodes, Values(members), ts, last, m.value.value, t);
        NamedMore(nodes, members, last, m.value);
      }
    }

    /** The name of a member, which parse_string leaves in the value and is moved, the colon and the value. */
    method ParseMemberItem(item: Node) returns (r: Answer, ghost t: Below)
      requires offset < |content| && item.child == null
      modifies this, item`kind, item`valueString, item`valueInt, item`child, item`name
      ensures var o := ParseMember(content, old(offset), old(depth));
              && r == AnswerOf(o)
              && (r.Accepted? ==> old(offset) < offset == o.next <= |content| && depth == old(depth)
                                  && item.name == Some(o.value.key) && Built(item, o.value.value, t) && fresh(All(t)) && allocated(All(t)))
      decreases |content| - offset, 1
    {
      hide ParseString, ParseValue, SkipWhitespace, Built, All;
      t := NOTHING_BELOW;
      ghost var key := ParseString(content, offset);
      StringBounds(content, offset);
      r := ParseStringItem(item);
      if !r.Accepted? {
        return;
      }
      SkipBounds(content, offset);
      Skip();
      item.name := item.valueString;
      item.valueString := None;
      if offset >= |content| || content[offset] != COLON {
        return Refused, t;
      }
      offset := offset + 1;
      SkipBounds(content, offset);
      Skip();
      ValueBounds(content, offset, depth);
      r, t := ParseValueItem(item);
    }

    /** The whole of cJSON_ParseWithLengthOpts, on a fresh buffer, for a new item. */
    method ParseInto(item: Node, requireNullTerminated: bool) returns (r: Answer, ghost t: Below)
      requires offset == 0 && depth == 0 && item.child == null
      modifies this, item`kind, item`valueString, item`valueInt, item`child
      ensures var o := ParseDocument(content, requireNullTerminated);
              && r == AnswerOf(o)
              && (r.Accepted? ==> offset == o.next && Built(item, o.value, t) && fresh(All(t)) && allocated(All(t)))
    {
      hide ParseValue, SkipWhitespace, At, Built, All;
      t := NOTHING_BELOW;
      if |content| == 0 {
        return Refused, t;
      }
      if 4 < |content| && At(content, 0, BOM) {
        offset := offset + 3;
      }
      SkipBounds(content, offset);
      Skip();
      ValueBounds(content, offset, 0);
      r, t := ParseValueItem(item);
      if r.Accepted? && requireNullTerminated {
        SkipBounds(content, offset);
        Skip();
        if offset >= |content| || content[offset] != 0 {
          r := Refused;
        }
      }
    }
  }

  /** cJSON_ParseWithLengthOpts: a new tree for a text that is accepted, and the number of bytes it took. */
  method ParseWithLengthOpts(value: bytes, requireNullTerminated: bool) returns (item: Node?, end: nat, r: Answer, ghost t: Below)
    ensures var o := ParseDocument(value, requireNullTerminated);
            && r == AnswerOf(o) && (item != null <==> o.Parsed?)
            && (o.Parsed? ==> end == o.next && fresh(item) && fresh(All(t)) && allocated(All(t)) && item !in All(t)
                              && item.next == null && item.prev == null && Built(item, o.value, t))
  {
    hide ParseDocument, Built, All;
    var buffer := new ParseBuffer(value);
    var root := new Node();
    r, t := buffer.ParseInto(root, requireNullTerminated);
    end := buffer.offset;
    item := if r.Accepted? then root else null;
  }

  /** The end of parse_array: the list is closed and hung under the item. */
  method FinishArray(item: Node, head: Node?, last: Node?, ghost items: seq<Json>, ghost t: Below)
    requires Growing(head, last, t.nodes) && Parts(t.nodes, items, t.subtrees)
    requires item !in t.nodes && item !in Forest(t.subtrees) && allocated(Forest(t.subtrees))
    modifies Just(head)`prev, item`kind, item`child
    ensures Built(item, Arr(items), t) && All(t) == (set n | n in t.nodes) + Forest(t.subtrees)
  {
    hide Built, Parts, All, Forest, IsList;
    GrowingEnds(head, last, t.nodes);
    PartsLieApart(t.nodes, items, t.subtrees);
    CloseList(head, last, t.nodes);
    item.kind, item.child := ArrayKind, head;
    ArrayBuilt(item, items, t);
  }

  method FinishObject(item: Node, head: Node?, last: Node?, ghost members: seq<Member>, ghost t: Below)
    requires Growing(head, last, t.nodes) && Parts(t.nodes, Values(members), t.subtrees) && Named(t.nodes, members)
    requires item !in t.nodes && item !in Forest(t.subtrees) && allocated(Forest(t.subtrees))
    modifies Just(head)`prev, item`kind, item`child
    ensures Built(item, Obj(members), t) && All(t) == (set n | n in t.nodes) + Forest(t.subtrees)
  {
    hide Built, Parts, All, Forest, IsList, Named, Values;
    GrowingEnds(head, last, t.nodes);
    PartsLieApart(t.nodes, Values(members), t.subtrees);
    CloseList(head, last, t.nodes);
    item.kind, item.child := ObjectKind, head;
    ObjectBuilt(item, members, t);
  }

  lemma NoNames()
    ensures Named([], []) && Values([]) == []
  {}

  lemma NothingIsBelow()
    ensures All(NOTHING_BELOW) == {}
  {}

  /** One more node at the end of a list. */
  method Attach(head: Node?, last: Node?, ghost nodes: seq<Node>) returns (newHead: Node, newLast: Node)
    requires Growing(head, last, nodes)
    modifies Just(last)`next
    ensures fresh(newLast) && newLast.child == null
    ensures Growing(newHead, newLast, nodes + [newLast])
  {
    newLast := new Node();
    newHead := newLast;
    if head != null {
      last.next := newLast;
      newLast.prev := last;
      newHead := head;
    }
  }

  /** The head of a finished list points back at the last node. */
  method CloseList(head: Node?, last: Node?, ghost nodes: seq<Node>)
    requires Growing(head, last, nodes)
    modifies Just(head)`prev
    ensures IsList(head, nodes)
  {
    if head != null {
      head.prev := last;
    }
  }

  lemma SkipTwice(s: bytes, i: nat)
    ensures SkipWhitespace(s, SkipWhitespace(s, i)) == SkipWhitespace(s, i)
  {}

  lemma StringBounds(s: bytes, i: nat)
    requires i < |s|
    ensures ParseString(s, i).Parsed? ==> i < ParseString(s, i).next <= |s|
  {}

  lemma ValueBounds(s: bytes, i: nat, depth: nat)
    requires i <= |s|
    ensures ParseValue(s, i, depth).Parsed? ==> i < ParseValue(s, i, depth).next <= |s|
  {}

  lemma KindsRead(s: bytes, i: nat, depth: nat)
    requires i < |s|
    ensures ParseNumber(s, i).Parsed? ==> ParseNumber(s, i).value.Num?
    ensures ParseArray(s, i, depth).Parsed? ==> ParseArray(s, i, depth).value.Arr?
    ensures ParseObject(s, i, depth).Parsed? ==> ParseObject(s, i, depth).value.Obj?
  {
    hide ParseItems, ParseMembers, DecimalPrefix, NumberText;
  }

  lemma EndInside(s: bytes, i: nat)
    ensures FindEnd(s, i).Some? ==> i <= FindEnd(s, i).value < |s|
  {}

  lemma NoItem(s: bytes, j: nat, depth: nat)
    requires j == |s|
    ensures ParseItems(s, j, depth) == Rejected
  {}

  lemma NoMember(s: bytes, j: nat, depth: nat)
    requires j == |s|
    ensures ParseMember(s, j, depth) == Rejected && ParseMembers(s, j, depth) == Rejected
  {}

  /** The terminator ends a C string wherever it stands in the memory. */
  lemma CutAtTerminator(t: bytes, w: nat)
    requires w < |t| && t[w] == 0
    ensures CString(t) == CString(t[..w])
  {
    var k := Scan(t[..w], 0, c => c == 0);
    ScanUnique(t, 0, c => c == 0, k);
  }
}
