/** The printer of cjson.c: the text of a tree, written into a buffer that grows, or into one that must do. */
module JsonPrinter {
  import opened Bytes
  import opened JsonString
  import opened JsonTree
  import opened JsonChildList
  import opened JsonNodes

  const INT_MAX: nat := 0x7fff_ffff

  class PrintBuffer {
    var buffer: array<byte>
    var offset: nat
    var depth: nat
    const noalloc: bool
    const format: bool

    /** offset is inside the buffer; only a buffer without any byte has none. */
    ghost predicate Valid()
      reads this`buffer, this`offset
    {
      buffer.Length <= INT_MAX && (offset < buffer.Length || (offset == 0 && buffer.Length == 0))
    }

    /** The number of bytes that the buffer has, or can have. */
    ghost function Capacity(): nat
      reads this`buffer
    {
      if noalloc then buffer.Length else 0x7fff_ffff
    }

    ghost function Written(): bytes
      reads this`buffer, this`offset, buffer
      requires Valid()
    {
      buffer[..offset]
    }

    /** The buffer holds t with its terminator, and offset is somewhere in it. */
    ghost predicate Holds(t: bytes)
      reads this`buffer, this`offset, buffer
    {
      offset <= |t| < buffer.Length <= INT_MAX && buffer[..|t|] == t && buffer[|t|] == 0
    }

    constructor (memory: array<byte>, noalloc: bool, format: bool)
      requires memory.Length <= INT_MAX
      ensures Valid() && buffer == memory && offset == 0 && depth == 0
      ensures this.noalloc == noalloc && this.format == format
    {
      buffer, offset, depth, this.noalloc, this.format := memory, 0, 0, noalloc, format;
    }

    lemma WrittenLength()
      requires Valid()
      ensures |Written()| == offset
    {}

    /** Room for needed bytes and one more. */
    method Ensure(needed: nat) returns (ok: bool)
      requires Valid()
      modifies this`buffer
      ensures Valid() && Written() == old(Written()) && Capacity() == old(Capacity())
      ensures ok <==> offset + needed + 1 <= Capacity()
      ensures ok ==> offset + needed + 1 <= buffer.Length
      ensures buffer == old(buffer) || (fresh(buffer) && !noalloc)
    {
      if buffer.Length > 0 && offset >= buffer.Length {
        return false;
      }
      if needed > INT_MAX {
        return false;
      }
      var total := needed + offset + 1;
      if total <= buffer.Length {
        return true;
      }
      if noalloc {
        return false;
      }
      var newSize := total * 2;
      if total > INT_MAX / 2 {
        if total > INT_MAX {
          return false;
        }
        newSize := INT_MAX;
      }
      buffer := Reallocate(buffer, newSize);
      return true;
    }

    /** Moves offset to the terminator. */
    method UpdateOffset(ghost t: bytes)
      requires Holds(t) && NoNul(t[offset..])
      modifies this`offset
      ensures Valid() && offset == |t| && Written() == t
    {
      forall i | offset <= i < |t| ensures buffer[i] != 0 {
        assert buffer[i] == buffer[..|t|][i] == t[offset..][i - offset];
      }
      var length := 0;
      while buffer[offset + length] != 0
        invariant offset + length <= |t|
        decreases |t| - length
      {
        length := length + 1;
      }
      offset := offset + length;
    }

    /** A text of the program, with its terminator: what strcpy writes, and a printed number. */
    method PrintPlain(t: bytes) returns (ok: bool)
      requires Valid() && NoNul(t)
      modifies this, buffer
      ensures Valid() && Capacity() == old(Capacity()) && depth == old(depth)
      ensures buffer == old(buffer) || (fresh(buffer) && !noalloc)
      ensures ok <==> old(offset) + |t| + 2 <= Capacity()
      ensures ok ==> offset == old(offset) && Holds(old(Written()) + t)
    {
      ok := Ensure(|t| + 1);
      if !ok {
        return;
      }
      Copy(t, buffer, offset);
      buffer[offset + |t|] := 0;
    }

    /** Reserves needed bytes, writes t into them, with a terminator if asked for, and steps over t. */
    method Append(t: bytes, needed: nat, terminate: bool) returns (ok: bool)
      requires Valid() && |t| + (if terminate then 1 else 0) <= needed
      modifies this, buffer
      ensures Valid() && Capacity() == old(Capacity()) && depth == old(depth)
      ensures buffer == old(buffer) || (fresh(buffer) && !noalloc)
      ensures ok <==> old(offset) + needed + 1 <= Capacity()
      ensures ok ==> offset == old(offset) + |t| && Written() == old(Written()) + t
    {
      ok := Ensure(needed);
      if !ok {
        return;
      }
      Copy(t, buffer, offset);
      offset := offset + |t|;
      if terminate {
        buffer[offset] := 0;
      }
    }

    method PrintNumber(n: int32) returns (ok: bool)
      requires Valid()
      modifies this, buffer
      ensures Valid() && Capacity() == old(Capacity()) && depth == old(depth)
      ensures buffer == old(buffer) || (fresh(buffer) && !noalloc)
      ensures ok <==> old(offset) + |Decimal(n)| + 2 <= Capacity()
      ensures ok ==> offset >= old(offset) && Holds(old(Written()) + Decimal(n))
    {
      hide Decimal;
      TextHasNoNul(Num(n), false, 0);
      DecimalText(n);
      ok := PrintPlain(Decimal(n));
      if ok {
        offset := offset + |Decimal(n)|;
      }
    }

    /** print_string_ptr; a null string is printed like an empty one. */
    method PrintString(input: Option<cstring>) returns (ok: bool)
      requires Valid()
      modifies this, buffer
      ensures Valid() && Capacity() == old(Capacity()) && depth == old(depth)
      ensures buffer == old(buffer) || (fresh(buffer) && !noalloc)
      ensures ok <==> old(offset) + |Quoted(TextOf(input))| + 2 <= Capacity()
      ensures ok ==> offset == old(offset) && Holds(old(Written()) + Quoted(TextOf(input)))
    {
      if input == None {
        assert Quoted([]) == [QUOTE, QUOTE];
        ok := PrintPlain([QUOTE, QUOTE]);
        return;
      }
      hide Escaped;
      var t := input.value;
      var escapeCharacters := CountEscapes(t);
      var outputLength := |t| + escapeCharacters;
      ok := Ensure(outputLength + 3);
      if !ok {
        return;
      }
      QuoteInto(t, escapeCharacters, buffer, offset);
    }

    // -------------------------------------------------------------------------------------------
    // Values. Each method succeeds exactly when its text, the terminator and one more byte fit.
    // -------------------------------------------------------------------------------------------

    method PrintValue(item: Node, ghost v: Json, ghost t: Below) returns (ok: bool)
      requires Valid() && Built(item, v, t) && allocated(All(t))
      modifies this, buffer
      ensures Valid() && Capacity() == old(Capacity())
      ensures buffer == old(buffer) || (fresh(buffer) && !noalloc)
      ensures ok <==> old(offset) + |Text(v, format, old(depth))| + 2 <= Capacity()
      ensures ok ==> offset >= old(offset) && depth == old(depth) && Holds(old(Written()) + Text(v, format, depth))
      decreases v, 1
    {
      hide Decimal, Quoted, ItemsText, MembersText, ObjectEnd, Parts, Named, Values, IsList, Built, All, Forest;
      KindOf(item, v, t);
      match item.kind {
        case NullKind => ok := PrintPlain(NULL_TEXT);
        case FalseKind => ok := PrintPlain(FALSE_TEXT);
        case TrueKind => ok := PrintPlain(TRUE_TEXT);
        case NumberKind => ok := PrintNumber(item.valueInt);
        case StringKind => ok := PrintString(item.valueString);
        case ArrayKind => ok := PrintArray(item, v.items, t);
        case ObjectKind => ok := PrintObject(item, v.members, t);
      }
    }

    method PrintArray(item: Node, ghost items: seq<Json>, ghost t: Below) returns (ok: bool)
      requires Valid() && item.kind == ArrayKind && Built(item, Arr(items), t) && allocated(All(t))
      modifies this, buffer
      ensures Valid() && Capacity() == old(Capacity())
      ensures buffer == old(buffer) || (fresh(buffer) && !noalloc)
      ensures var text := [OPEN_ARRAY] + ItemsText(items, format, old(depth) + 1) + [CLOSE_ARRAY];
              && (ok <==> old(offset) + |text| + 2 <= Capacity())
              && (ok ==> offset >= old(offset) && depth == old(depth) && Holds(old(Written()) + text))
      decreases items, 5
    {
      hide ItemsText, Built, All, Forest, Parts, IsList, Written, Holds, Capacity, Valid;
      ghost var start, body := Written(), ItemsText(items, format, depth + 1);
      assert start + ([OPEN_ARRAY] + body + [CLOSE_ARRAY]) == start + [OPEN_ARRAY] + body + [CLOSE_ARRAY];
      WrittenLength();
      ArrayParts(item, items, t);
      var currentElement := item.child;
      ok := Append([OPEN_ARRAY], 1, false);
      if !ok {
        return;
      }
      depth := depth + 1;
      ok := PrintItemList(currentElement, t.nodes, items, t.subtrees);
      if !ok {
        return;
      }
      WrittenLength();
      ok := PrintPlain([CLOSE_ARRAY]);
      depth := depth - 1;
    }

    /** The walk along the child list. */
    method PrintItemList(child: Node?, ghost nodes: seq<Node>, ghost items: seq<Json>, ghost ts: seq<Below>) returns (ok: bool)
      requires Valid() && IsList(child, nodes) && Parts(nodes, items, ts) && allocated(Forest(ts))
      modifies this, buffer
      ensures Valid() && Capacity() == old(Capacity())
      ensures buffer == old(buffer) || (fresh(buffer) && !noalloc)
      ensures !ok ==> old(offset) + |ItemsText(items, format, old(depth))| + 2 > Capacity()
      ensures ok ==> offset >= old(offset) && depth == old(depth) && Written() == old(Written()) + ItemsText(items, format, depth)
      decreases items, 4
    {
      hide ItemsText, Text, ItemSeparator, Built, All, Forest, Parts, IsList;
      ghost var goal := Written() + ItemsText(items, format, depth);
      assert items[0..] == items;
      var currentElement := child;
      ghost var i := 0;
      PartsCount(nodes, items, ts);
      ListStart(child, nodes);
      while currentElement != null
        invariant 0 <= i <= |items| && old(offset) <= offset
        invariant currentElement == if i < |nodes| then nodes[i] else null
        invariant IsList(child, nodes) && Parts(nodes, items, ts)
        invariant Valid() && Capacity() == old(Capacity()) && depth == old(depth)
        invariant buffer == old(buffer) || (fresh(buffer) && !noalloc)
        invariant Written() + ItemsText(items[i..], format, depth) == goal
        decreases |items| - i
      {
        ghost var before, text, sep := Written(), Text(items[i], format, depth), ItemSeparator(format, i + 1 < |items|);
        ItemsNext(items, i, format, depth);
        assert before + (text + sep + ItemsText(items[i + 1..], format, depth)) == before + (text + sep) + ItemsText(items[i + 1..], format, depth);
        PartAt(nodes, items, ts, i);
        ListNext(child, nodes, i);
        ok := PrintItem(currentElement, items[i], ts[i]);
        if !ok {
          return;
        }
        ListNext(child, nodes, i);
        currentElement := currentElement.next;
        i := i + 1;
      }
      NoItems(items[i..], format, depth);
      assert Written() + [] == Written();
      ok := true;
    }

    /** An item and what stands between it and the next one. */
    method PrintItem(item: Node, ghost v: Json, ghost t: Below) returns (ok: bool)
      requires Valid() && Built(item, v, t) && allocated(All(t))
      modifies this, buffer
      ensures Valid() && Capacity() == old(Capacity())
      ensures buffer == old(buffer) || (fresh(buffer) && !noalloc)
      ensures var text := Text(v, format, old(depth)) + ItemSeparator(format, item.next != null);
              && (ok <==> old(offset) + |text| + 2 <= Capacity())
              && (ok ==> offset >= old(offset) && depth == old(depth) && Written() == old(Written()) + text)
      decreases v, 3
    {
      hide Text, Built, All;
      ghost var start, text := Written(), Text(v, format, depth);
      assert start + (text + ItemSeparator(format, item.next != null)) == start + text + ItemSeparator(format, item.next != null);
      ok := PrintText(item, v, t);
      if ok && item.next != null {
        var length := if format then 2 else 1;
        ok := Append(ItemSeparator(format, true), length + 1, true);
      }
    }

    /** A value, and the step over it. */
    method PrintText(item: Node, ghost v: Json, ghost t: Below) returns (ok: bool)
      requires Valid() && Built(item, v, t) && allocated(All(t))
      modifies this, buffer
      ensures Valid() && Capacity() == old(Capacity())
      ensures buffer == old(buffer) || (fresh(buffer) && !noalloc)
      ensures ok <==> old(offset) + |Text(v, format, old(depth))| + 2 <= Capacity()
      ensures ok ==> depth == old(depth) && Written() == old(Written()) + Text(v, format, depth)
      decreases v, 2
    {
      hide Text, Built, All;
      ghost var goal := Written() + Text(v, format, depth);
      TextHasNoNul(v, format, depth);
      ok := PrintValue(item, v, t);
      if ok {
        UpdateOffset(goal);
      }
    }

    method PrintObject(item: Node, ghost members: seq<Member>, ghost t: Below) returns (ok: bool)
      requires Valid() && item.kind == ObjectKind && Built(item, Obj(members), t) && allocated(All(t))
      modifies this, buffer
      ensures Valid() && Capacity() == old(Capacity())
      ensures buffer == old(buffer) || (fresh(buffer) && !noalloc)
      ensures var text := [OPEN_OBJECT] + Only(format, LF) + MembersText(members, format, old(depth) + 1) + ObjectEnd(format, old(depth));
              && (ok <==> old(offset) + |text| + 2 <= Capacity())
              && (ok ==> offset >= old(offset) && depth == old(depth) && Holds(old(Written()) + text))
      decreases members, 5
    {
      hide MembersText, ObjectEnd, Built, All, Forest, Parts, IsList, Named, Values, Written, Holds, Capacity, Valid;
      ghost var start, body, end := Written(), MembersText(members, format, depth + 1), ObjectEnd(format, depth);
      assert start + ([OPEN_OBJECT] + Only(format, LF) + body + end) == start + ([OPEN_OBJECT] + Only(format, LF)) + body + end;
      EndLength(format, depth);
      WrittenLength();
      ObjectParts(item, members, t);
      var currentItem := item.child;
      var length := if format then 2 else 1;
      ok := Append([OPEN_OBJECT] + Only(format, LF), length + 1, false);
      if !ok {
        return;
      }
      depth := depth + 1;
      ok := PrintMemberList(currentItem, t.nodes, members, t.subtrees);
      if !ok {
        return;
      }
      WrittenLength();
      ok := PrintObjectEnd();
    }

    /** The walk along the child list. */
    method PrintMemberList(child: Node?, ghost nodes: seq<Node>, ghost members: seq<Member>, ghost ts: seq<Below>) returns (ok: bool)
      requires Valid() && IsList(child, nodes) && Parts(nodes, Values(members), ts) && Named(nodes, members) && allocated(Forest(ts))
      modifies this, buffer
      ensures Valid() && Capacity() == old(Capacity())
      ensures buffer == old(buffer) || (fresh(buffer) && !noalloc)
      ensures !ok ==> old(offset) + |MembersText(members, format, old(depth))| + 2 > Capacity()
      ensures ok ==> offset >= old(offset) && depth == old(depth) && Written() == old(Written()) + MembersText(members, format, depth)
      decreases members, 4
    {
      hide MembersText, MemberText, Built, All, Forest, Parts, IsList, Named, Values;
      ghost var goal := Written() + MembersText(members, format, depth);
      assert members[0..] == members;
      var currentItem := child;
      ghost var i := 0;
      MembersCount(nodes, members, ts);
      ListStart(child, nodes);
      while currentItem != null
        invariant 0 <= i <= |members| && old(offset) <= offset
        invariant currentItem == if i < |nodes| then nodes[i] else null
        invariant IsList(child, nodes) && Parts(nodes, Values(members), ts) && Named(nodes, members)
        invariant Valid() && Capacity() == old(Capacity()) && depth == old(depth)
        invariant buffer == old(buffer) || (fresh(buffer) && !noalloc)
        invariant Written() + MembersText(members[i..], format, depth) == goal
        decreases |members| - i
      {
        ghost var before, text := Written(), MemberText(members[i], format, depth, i + 1 < |members|);
        MembersNext(members, i, format, depth);
        assert before + (text + MembersText(members[i + 1..], format, depth)) == before + text + MembersText(members[i + 1..], format, depth);
        MemberAt(nodes, members, ts, i);
        ListNext(child, nodes, i);
        ok := PrintMember(currentItem, members[i], ts[i]);
        if !ok {
          return;
        }
        ListNext(child, nodes, i);
        currentItem := currentItem.next;
        i := i + 1;
      }
      NoMembers(members[i..], format, depth);
      assert Written() + [] == Written();
      ok := true;
    }

    method PrintObjectEnd() returns (ok: bool)
      requires Valid() && depth > 0
      modifies this, buffer
      ensures Valid() && Capacity() == old(Capacity())
      ensures buffer == old(buffer) || (fresh(buffer) && !noalloc)
      ensures ok <==> old(offset) + |ObjectEnd(format, old(depth) - 1)| + 2 <= Capacity()
      ensures ok ==> offset == old(offset) && depth == old(depth) - 1 && Holds(old(Written()) + ObjectEnd(format, depth))
    {
      hide ObjectEnd;
      EndLength(format, depth - 1);
      ok := Ensure(if format then depth + 1 else 2);
      if !ok {
        return;
      }
      WriteObjectEnd(buffer, offset, format, depth - 1);
      depth := depth - 1;
    }

    /** A member and what stands after it. */
    method PrintMember(item: Node, ghost m: Member, ghost t: Below) returns (ok: bool)
      requires Valid() && Built(item, m.value, t) && item.name == Some(m.key) && allocated(All(t))
      modifies this, buffer
      ensures Valid() && Capacity() == old(Capacity())
      ensures buffer == old(buffer) || (fresh(buffer) && !noalloc)
      ensures var text := MemberText(m, format, old(depth), item.next != null);
              && (ok <==> old(offset) + |text| + 2 <= Capacity())
              && (ok ==> offset >= old(offset) && depth == old(depth) && Written() == old(Written()) + text)
      decreases m, 3
    {
      hide Text, KeyText, Built, All;
      ghost var more := item.next != null;
      ghost var start, key, text, sep := Written(), KeyText(m.key, format, depth), Text(m.value, format, depth), MemberSeparator(format, more);
      assert start + MemberText(m, format, depth, more) == start + key + text + sep;
      ok := PrintKey(item.name);
      if !ok {
        return;
      }
      ok := PrintText(item, m.value, t);
      if !ok {
        return;
      }
      ok := PrintMemberSeparator(item.next != null);
    }

    method PrintMemberSeparator(more: bool) returns (ok: bool)
      requires Valid()
      modifies this, buffer
      ensures Valid() && Capacity() == old(Capacity()) && depth == old(depth)
      ensures buffer == old(buffer) || (fresh(buffer) && !noalloc)
      ensures ok <==> old(offset) + |MemberSeparator(format, more)| + 2 <= Capacity()
      ensures ok ==> offset >= old(offset) && Written() == old(Written()) + MemberSeparator(format, more)
    {
      var length := (if format then 1 else 0) + (if more then 1 else 0);
      ok := Append(MemberSeparator(format, more), length + 1, true);
    }

    method PrintKey(name: Option<cstring>) returns (ok: bool)
      requires Valid()
      modifies this, buffer
      ensures Valid() && Capacity() == old(Capacity()) && depth == old(depth)
      ensures buffer == old(buffer) || (fresh(buffer) && !noalloc)
      ensures !ok ==> old(offset) + |KeyText(TextOf(name), format, depth)| + 2 > Capacity()
      ensures ok ==> offset >= old(offset) && Written() == old(Written()) + KeyText(TextOf(name), format, depth)
    {
      hide Quoted, Tabs;
      ghost var key := TextOf(name);
      ghost var start, tabs, tail := Written(), Tabs(format, depth), [COLON] + Only(format, TAB);
      assert start + KeyText(key, format, depth) == start + tabs + Quoted(key) + tail;
      ok := PrintTabs();
      if !ok {
        return;
      }
      QuotedHasNoNul(key);
      ok := PrintString(name);
      if !ok {
        return;
      }
      UpdateOffset(start + tabs + Quoted(key));
      var length := if format then 2 else 1;
      ok := Append([COLON] + Only(format, TAB), length, false);
    }

    method PrintTabs() returns (ok: bool)
      requires Valid()
      modifies this, buffer
      ensures Valid() && Capacity() == old(Capacity()) && depth == old(depth)
      ensures buffer == old(buffer) || (fresh(buffer) && !noalloc)
      ensures !ok ==> old(offset) + |Tabs(format, depth)| + 1 > Capacity()
      ensures ok ==> offset >= old(offset) && Written() == old(Written()) + Tabs(format, depth)
    {
      TabsLength(format, depth);
      if !format {
        return true;
      }
      ok := Ensure(depth);
      if ok {
        offset := WriteTabs(buffer, offset, depth);
      }
    }
  }

  function TextOf(t: Option<cstring>): cstring {
    match t
    case Some(u) => u
    case None => []
  }

  method Reallocate(buffer: array<byte>, newSize: nat) returns (newBuffer: array<byte>)
    requires buffer.Length <= newSize
    ensures fresh(newBuffer) && newBuffer.Length == newSize && newBuffer[..buffer.Length] == buffer[..]
  {
    newBuffer := new byte[newSize](_ => 0);
    forall i | 0 <= i < buffer.Length {
      newBuffer[i] := buffer[i];
    }
  }

  function MemberText(m: Member, fmt: bool, depth: nat, more: bool): bytes {
    KeyText(m.key, fmt, depth) + Text(m.value, fmt, depth) + MemberSeparator(fmt, more)
  }

  lemma ItemsNext(items: seq<Json>, i: nat, fmt: bool, depth: nat)
    requires i < |items|
    ensures ItemsText(items[i..], fmt, depth)
         == Text(items[i], fmt, depth) + ItemSeparator(fmt, i + 1 < |items|) + ItemsText(items[i + 1..], fmt, depth)
  {
    assert items[i..][1..] == items[i + 1..];
  }

  lemma MembersNext(members: seq<Member>, i: nat, fmt: bool, depth: nat)
    requires i < |members|
    ensures MembersText(members[i..], fmt, depth)
         == MemberText(members[i], fmt, depth, i + 1 < |members|) + MembersText(members[i + 1..], fmt, depth)
  {
    assert members[i..][1..] == members[i + 1..];
  }

  lemma EndLength(fmt: bool, depth: nat)
    ensures |ObjectEnd(fmt, depth)| == if fmt then depth + 1 else 1
  {}

  lemma TabsLength(fmt: bool, depth: nat)
    ensures |Tabs(fmt, depth)| == if fmt then depth else 0
  {}

  method WriteObjectEnd(output: array<byte>, start: nat, fmt: bool, n: nat)
    requires start + |ObjectEnd(fmt, n)| < output.Length
    modifies output
    ensures output[..start + |ObjectEnd(fmt, n)|] == old(output[..start]) + ObjectEnd(fmt, n)
    ensures output[start + |ObjectEnd(fmt, n)|] == 0
  {
    hide Tabs;
    TabsLength(fmt, n);
    ghost var before := output[..start];
    var p := start;
    if fmt {
      p := WriteTabs(output, start, n);
    }
    assert output[..p] == before + Tabs(fmt, n);
    output[p] := CLOSE_OBJECT;
    output[p + 1] := 0;
    assert output[..p + 1] == output[..p] + [CLOSE_OBJECT];
  }

  method WriteTabs(output: array<byte>, start: nat, n: nat) returns (p: nat)
    requires start + n <= output.Length
    modifies output
    ensures p == start + n && output[..p] == old(output[..start]) + Tabs(true, n)
  {
    p := start;
    for i := 0 to n
      invariant p == start + i && output[..p] == old(output[..start]) + Tabs(true, i)
    {
      output[p] := TAB;
      assert output[..p + 1] == output[..p] + [TAB];
      assert Tabs(true, i + 1) == Tabs(true, i) + [TAB];
      p := p + 1;
    }
  }

  lemma DecimalText(n: int32)
    ensures Text(Num(n), false, 0) == Decimal(n)
  {}

  /** How many characters the escapes add. */
  method CountEscapes(input: bytes) returns (escapeCharacters: nat)
    ensures |input| + escapeCharacters == |Escaped(input)|
    ensures escapeCharacters == 0 ==> Escaped(input) == input
  {
    hide Escaped, EscapeByte;
    escapeCharacters := 0;
    assert input[0..] == input;
    for i := 0 to |input|
      invariant i + escapeCharacters + |Escaped(input[i..])| == |Escaped(input)|
      invariant escapeCharacters == 0 ==> Escaped(input) == input[..i] + Escaped(input[i..])
    {
      var c := input[i];
      EscapedNext(input, i);
      EscapeLength(c);
      assert input[..i + 1] == input[..i] + [c];
      if c == QUOTE || c == BACKSLASH || c == 8 || c == 12 || c == LF || c == CR || c == TAB {
        escapeCharacters := escapeCharacters + 1;
      } else if c < 32 {
        escapeCharacters := escapeCharacters + 5;
      }
    }
    EscapedNothing(input[|input|..]);
    assert input[..|input|] + [] == input;
  }

  lemma EscapeLength(c: byte)
    ensures |EscapeByte(c)| == if EscapeLetter(c).Some? then 2 else if c < 32 then 6 else 1
    ensures |EscapeByte(c)| == 1 ==> EscapeByte(c) == [c]
  {}

  /** The quoted string and its terminator, from position start. */
  method QuoteInto(input: bytes, escapeCharacters: nat, output: array<byte>, start: nat)
    requires |input| + escapeCharacters == |Escaped(input)| && (escapeCharacters == 0 ==> Escaped(input) == input)
    requires start + |Quoted(input)| < output.Length
    modifies output
    ensures output[..start + |Quoted(input)|] == old(output[..start]) + Quoted(input)
    ensures output[start + |Quoted(input)|] == 0
  {
    hide Escaped;
    ghost var before := output[..start];
    var outputLength := |input| + escapeCharacters;
    output[start] := QUOTE;
    assert output[..start + 1] == before + [QUOTE];
    if escapeCharacters == 0 {
      Copy(input, output, start + 1);
    } else {
      EscapeInto(input, output, start + 1);
    }
    output[start + outputLength + 1] := QUOTE;
    output[start + outputLength + 2] := 0;
    assert output[..start + outputLength + 2] == output[..start + 1 + outputLength] + [QUOTE];
    assert before + Quoted(input) == before + [QUOTE] + Escaped(input) + [QUOTE];
  }

  /** memcpy. */
  method Copy(t: bytes, output: array<byte>, start: nat)
    requires start + |t| <= output.Length
    modifies output
    ensures output[..start + |t|] == old(output[..start]) + t
    ensures output[start + |t|..] == old(output[start + |t|..])
  {
    forall i | 0 <= i < |t| {
      output[start + i] := t[i];
    }
    assert output[start..start + |t|] == t;
    assert output[..start + |t|] == output[..start] + output[start..start + |t|];
  }

  lemma EscapedNext(input: bytes, i: nat)
    requires i < |input|
    ensures Escaped(input[i..]) == EscapeByte(input[i]) + Escaped(input[i + 1..])
  {
    assert input[i..][1..] == input[i + 1..];
  }

  /** The escaped string, from position start; sprintf also writes a terminator, so one byte more is needed. */
  method EscapeInto(input: bytes, output: array<byte>, start: nat)
    requires start + |Escaped(input)| < output.Length
    modifies output
    ensures output[..start + |Escaped(input)|] == old(output[..start]) + Escaped(input)
  {
    hide Escaped, EscapeByte;
    var p := start;
    ghost var goal := output[..start] + Escaped(input);
    assert input[0..] == input;
    for i := 0 to |input|
      invariant start <= p && p + |Escaped(input[i..])| == |goal| == start + |Escaped(input)|
      invariant output[..p] + Escaped(input[i..]) == goal
    {
      EscapedNext(input, i);
      ghost var before := output[..p];
      p := WriteEscape(input[i], output, p);
      assert before + (EscapeByte(input[i]) + Escaped(input[i + 1..])) == before + EscapeByte(input[i]) + Escaped(input[i + 1..]);
    }
    EscapedNothing(input[|input|..]);
    assert output[..p] + [] == output[..p];
  }

  lemma EscapedNothing(t: bytes)
    requires |t| == 0
    ensures Escaped(t) == []
  {}

  method WriteEscape(c: byte, output: array<byte>, p: nat) returns (next: nat)
    requires p + |EscapeByte(c)| < output.Length
    modifies output
    ensures next == p + |EscapeByte(c)| && output[..next] == old(output[..p]) + EscapeByte(c)
  {
    if c > 31 && c != QUOTE && c != BACKSLASH {
      output[p] := c;
      return p + 1;
    }
    output[p] := BACKSLASH;
    match EscapeLetter(c) {
      case Some(letter) =>
        output[p + 1] := letter;
        return p + 2;
      case None =>
        output[p + 1], output[p + 2], output[p + 3] := 'u' as int, '0' as int, '0' as int;
        output[p + 4], output[p + 5], output[p + 6] := LowerHex(c / 16), LowerHex(c % 16), 0;
        return p + 6;
    }
  }

  // ---------------------------------------------------------------------------------------------
  // The entry points
  // ---------------------------------------------------------------------------------------------

  /** cJSON_PrintPreallocated: the text fits exactly when the buffer has two bytes more than the text, the
      terminator and one that stays unused. */
  method PrintPreallocated(item: Node, ghost v: Json, ghost t: Below, buffer: array<byte>, format: bool) returns (ok: bool)
    requires buffer.Length <= INT_MAX && Built(item, v, t) && allocated(All(t))
    modifies buffer
    ensures ok <==> |Text(v, format, 0)| + 2 <= buffer.Length
    ensures ok ==> buffer[..|Text(v, format, 0)| + 1] == Text(v, format, 0) + [0]
  {
    hide Text, Built, All;
    var p := new PrintBuffer(buffer, true, format);
    assert p.Written() == [];
    ok := p.PrintValue(item, v, t);
    TextAndTerminator(p, v);
  }

  /** cJSON_PrintBuffered: whatever the first size is, the caller gets the text, if it is not too long for the
      size of an int. For no bytes at all, the allocator may give memory or not. */
  method PrintBuffered(item: Node, ghost v: Json, ghost t: Below, prebuffer: int, format: bool, emptyMemory: bool) returns (r: Option<array<byte>>)
    requires prebuffer <= INT_MAX && Built(item, v, t) && allocated(All(t))
    ensures r.Some? <==> (prebuffer > 0 || (prebuffer == 0 && emptyMemory)) && |Text(v, format, 0)| + 2 <= 0x7fff_ffff
    ensures r.Some? ==> fresh(r.value) && |Text(v, format, 0)| < r.value.Length
    ensures r.Some? ==> r.value[..|Text(v, format, 0)| + 1] == Text(v, format, 0) + [0]
  {
    hide Text, Built, All;
    if prebuffer < 0 {
      return None;
    }
    if prebuffer == 0 && !emptyMemory {
      return None;
    }
    var memory := new byte[prebuffer](_ => 0);
    var p := new PrintBuffer(memory, false, format);
    assert p.Written() == [];
    var ok := p.PrintValue(item, v, t);
    TextAndTerminator(p, v);
    r := if ok then Some(p.buffer) else None;
  }

  const DEFAULT_BUFFER_SIZE: nat := 256

  /** cJSON_Print and cJSON_PrintUnformatted: memory of exactly the text and its terminator. */
  method Print(item: Node, ghost v: Json, ghost t: Below, format: bool) returns (printed: Option<array<byte>>)
    requires Built(item, v, t) && allocated(All(t))
    ensures printed.Some? <==> |Text(v, format, 0)| + 2 <= 0x7fff_ffff
    ensures printed.Some? ==> fresh(printed.value) && printed.value[..] == Text(v, format, 0) + [0]
  {
    hide Text, Built, All;
    var memory := new byte[DEFAULT_BUFFER_SIZE](_ => 0);
    var p := new PrintBuffer(memory, false, format);
    assert p.Written() == [];
    var ok := p.PrintValue(item, v, t);
    if !ok {
      return None;
    }
    TextAndTerminator(p, v);
    TextHasNoNul(v, format, 0);
    p.UpdateOffset(Text(v, format, 0));
    var text := Shrink(p.buffer, p.offset + 1);
    return Some(text);
  }

  lemma TextAndTerminator(p: PrintBuffer, v: Json)
    ensures var t := Text(v, p.format, 0);
            p.Holds([] + t) ==> p.Holds(t) && p.buffer[..|t| + 1] == t + [0]
  {
    hide Text;
    assert [] + Text(v, p.format, 0) == Text(v, p.format, 0);
  }

  /** realloc to a smaller size. */
  method Shrink(buffer: array<byte>, newSize: nat) returns (newBuffer: array<byte>)
    requires newSize <= buffer.Length
    ensures fresh(newBuffer) && newBuffer[..] == buffer[..newSize]
  {
    newBuffer := new byte[newSize](i requires 0 <= i < newSize reads buffer => buffer[i]);
  }
}
