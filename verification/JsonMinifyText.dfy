/** When minifying the formatted text of a tree gives its unformatted text. */
module JsonMinifyText {
  import opened Bytes
  import opened JsonString
  import opened JsonTree
  import opened JsonMinify

  predicate EndsInBackslash(t: bytes) {
    t != [] && t[|t| - 1] as char == '\\'
  }

  /** No key and no string ends in a backslash, but a string behind which only closing brackets follow. */
  predicate Safe(v: Json, last: bool)
    decreases v
  {
    match v
    case Str(t) => last || !EndsInBackslash(t)
    case Arr(items) => ItemsSafe(items, last)
    case Obj(members) => MembersSafe(members)
    case _ => true
  }

  predicate ItemsSafe(items: seq<Json>, last: bool)
    decreases items
  {
    items == [] || (Safe(items[0], last && |items| == 1) && ItemsSafe(items[1..], last))
  }

  predicate MembersSafe(members: seq<Member>)
    decreases members
  {
    members == [] || (!EndsInBackslash(members[0].key) && Safe(members[0].value, false) && MembersSafe(members[1..]))
  }

  // ---------------------------------------------------------------------------------------------
  // Pieces
  // ---------------------------------------------------------------------------------------------

  /** Two texts differ at some position that both have: no continuation makes them equal. */
  ghost predicate Differs(a: bytes, b: bytes) {
    exists k :: 0 <= k < |a| && k < |b| && a[k] != b[k]
  }

  lemma DiffersAt(a: bytes, b: bytes, k: nat)
    requires k < |a| && k < |b| && a[k] != b[k]
    ensures Differs(a, b)
  {}

  lemma DiffersBehind(front: bytes, a: bytes, b: bytes)
    requires Differs(a, b)
    ensures Differs(front + a, front + b)
  {
    var k :| 0 <= k < |a| && k < |b| && a[k] != b[k];
    DiffersAt(front + a, front + b, |front| + k);
  }

  lemma {:induction false} PlainStays(t: bytes, rest: bytes)
    requires forall i | 0 <= i < |t| :: IsPlain(t[i])
    ensures Min(t + rest) == t + Min(rest)
    decreases |t|
  {
    if t == [] {
      assert [] + rest == rest;
    } else {
      assert t + rest == [t[0]] + (t[1..] + rest);
      PlainStays(t[1..], rest);
      assert [t[0]] + (t[1..] + Min(rest)) == t + Min(rest);
    }
  }

  lemma {:induction false} WhiteGoes(t: bytes, rest: bytes)
    requires forall i | 0 <= i < |t| :: IsWhite(t[i])
    ensures Min(t + rest) == Min(rest)
    decreases |t|
  {
    if t == [] {
      assert [] + rest == rest;
    } else {
      assert (t + rest)[1..] == t[1..] + rest;
      WhiteGoes(t[1..], rest);
    }
  }

  /** What stands for a byte inside of a string; after a backslash, the closing quote is taken for an escaped one. */
  lemma EscapeStays(c: byte, rest: bytes)
    ensures c == BACKSLASH && rest != [] && rest[0] == QUOTE ==>
              InString(EscapeByte(c) + rest) == EscapeByte(c) + ([QUOTE] + InString(rest[1..]))
    ensures !(c == BACKSLASH && rest != [] && rest[0] == QUOTE) ==>
              InString(EscapeByte(c) + rest) == EscapeByte(c) + InString(rest)
  {
    hide InString;
    var e := EscapeByte(c);
    if |e| == 1 {
      LetterStays(c, rest);
    } else if |e| == 2 {
      PairStays(c, e[1], rest);
    } else {
      assert e == [BACKSLASH] + e[1..];
      ControlStays(e[1..], rest);
    }
  }

  lemma PairStays(c: byte, letter: byte, rest: bytes)
    requires EscapeLetter(c) == Some(letter)
    ensures InString([BACKSLASH, letter] + rest)
         == [BACKSLASH, letter] + if c == BACKSLASH && rest != [] && rest[0] == QUOTE then [QUOTE] + InString(rest[1..]) else InString(rest)
  {
    hide InString;
    assert [BACKSLASH, letter] + rest == [BACKSLASH] + ([letter] + rest);
    assert ([letter] + rest)[1..] == rest;
    BackslashStays([letter] + rest);
    if c == BACKSLASH {
      BackslashStays(rest);
    } else if c != QUOTE {
      LetterStays(letter, rest);
    }
  }

  lemma BackslashStays(rest: bytes)
    ensures InString([BACKSLASH] + rest)
         == [BACKSLASH] + if rest != [] && rest[0] == QUOTE then [QUOTE] + InString(rest[1..]) else InString(rest)
  {
    var t := [BACKSLASH] + rest;
    hide InString;
    assert t[1..] == rest;
    InStringStep(t);
    if rest != [] {
      assert t[2..] == rest[1..];
    }
  }

  lemma ControlStays(letters: bytes, rest: bytes)
    requires letters != [] && forall i | 0 <= i < |letters| :: letters[i] != QUOTE && letters[i] != BACKSLASH
    ensures InString([BACKSLASH] + letters + rest) == [BACKSLASH] + letters + InString(rest)
  {
    hide InString;
    assert [BACKSLASH] + letters + rest == [BACKSLASH] + (letters + rest);
    BackslashStays(letters + rest);
    LettersStay(letters, rest);
    assert [BACKSLASH] + (letters + InString(rest)) == [BACKSLASH] + letters + InString(rest);
  }

  lemma {:induction false} LettersStay(t: bytes, rest: bytes)
    requires forall i | 0 <= i < |t| :: t[i] != QUOTE && t[i] != BACKSLASH
    ensures InString(t + rest) == t + InString(rest)
    decreases |t|
  {
    hide InString;
    if t == [] {
      assert [] + rest == rest && [] + InString(rest) == InString(rest);
    } else {
      assert t + rest == [t[0]] + (t[1..] + rest);
      LetterStays(t[0], t[1..] + rest);
      LettersStay(t[1..], rest);
      assert [t[0]] + (t[1..] + InString(rest)) == t + InString(rest);
    }
  }

  lemma LetterStays(c: byte, rest: bytes)
    requires c != QUOTE && c != BACKSLASH
    ensures InString([c] + rest) == [c] + InString(rest)
  {
    assert ([c] + rest)[1..] == rest;
  }

  lemma {:induction false} EscapedStays(t: bytes, rest: bytes)
    ensures InString(Escaped(t) + ([QUOTE] + rest))
         == Escaped(t) + ([QUOTE] + if EndsInBackslash(t) then InString(rest) else Min(rest))
    decreases |t|
  {
    hide EscapeByte, InString;
    var tail := [QUOTE] + rest;
    assert tail[1..] == rest;
    if t == [] {
      assert Escaped(t) + tail == tail;
      InStringStep(tail);
      assert [] + ([QUOTE] + Min(rest)) == [QUOTE] + Min(rest);
    } else {
      var e, more := EscapeByte(t[0]), Escaped(t[1..]);
      assert Escaped(t) + tail == e + (more + tail);
      EscapeStays(t[0], more + tail);
      NoQuoteFirst(t[1..]);
      if |t| == 1 {
        assert more + tail == tail;
        assert t[1..] == [];
        assert Escaped(t) == e + [] == e;
        InStringStep(tail);
        assert e + ([QUOTE] + InString(rest)) == Escaped(t) + ([QUOTE] + InString(rest));
      } else {
        EscapedStays(t[1..], rest);
        assert t[1..][|t| - 2] == t[|t| - 1];
        var after := [QUOTE] + if EndsInBackslash(t) then InString(rest) else Min(rest);
        assert e + (more + after) == Escaped(t) + after;
      }
    }
  }

  lemma NoQuoteFirst(t: bytes)
    ensures t != [] ==> Escaped(t) != [] && Escaped(t)[0] != QUOTE
  {}

  /** A string whose last byte is a backslash leaves the minifier inside of it. */
  lemma QuotedStays(t: bytes, rest: bytes)
    ensures Min(Quoted(t) + rest) == Quoted(t) + if EndsInBackslash(t) then InString(rest) else Min(rest)
  {
    hide Escaped, InString;
    var text := Quoted(t) + rest;
    assert text == [QUOTE] + (Escaped(t) + ([QUOTE] + rest));
    EscapedStays(t, rest);
    assert text[1..] == Escaped(t) + ([QUOTE] + rest);
    MinStep(text);
    var after := if EndsInBackslash(t) then InString(rest) else Min(rest);
    assert [QUOTE] + (Escaped(t) + ([QUOTE] + after)) == Quoted(t) + after;
  }

  lemma NumberStays(n: int32, rest: bytes)
    ensures Min(Decimal(n) + rest) == Decimal(n) + Min(rest)
  {
    DigitsRange(Magnitude(n));
    PlainStays(Decimal(n), rest);
  }

  lemma ScalarStays(v: Json, depth: nat, rest: bytes)
    requires !v.Str? && !v.Arr? && !v.Obj?
    ensures Min(Text(v, true, depth) + rest) == Text(v, false, depth) + Min(rest)
  {
    if v.Num? {
      NumberStays(v.n, rest);
    } else {
      PlainStays(Text(v, true, depth), rest);
    }
  }

  lemma ByteStays(c: byte, rest: bytes)
    requires IsPlain(c)
    ensures Min([c] + rest) == [c] + Min(rest)
  {
    PlainStays([c], rest);
  }

  lemma SeparatorStays(more: bool, rest: bytes)
    ensures Min(ItemSeparator(true, more) + rest) == ItemSeparator(false, more) + Min(rest)
  {
    if more {
      assert ItemSeparator(true, more) + rest == [COMMA] + ([SP] + rest);
      ByteStays(COMMA, [SP] + rest);
      WhiteGoes([SP], rest);
    } else {
      assert [] + rest == rest && [] + Min(rest) == Min(rest);
    }
  }

  lemma MemberSeparatorStays(more: bool, rest: bytes)
    ensures Min(MemberSeparator(true, more) + rest) == MemberSeparator(false, more) + Min(rest)
  {
    WhiteGoes([LF], rest);
    if more {
      assert MemberSeparator(true, more) + rest == [COMMA] + ([LF] + rest);
      ByteStays(COMMA, [LF] + rest);
    } else {
      assert MemberSeparator(true, more) == [LF];
      assert [] + Min(rest) == Min(rest);
    }
  }

  lemma EndStays(depth: nat, rest: bytes)
    ensures Min(ObjectEnd(true, depth) + rest) == ObjectEnd(false, depth) + Min(rest)
  {
    assert ObjectEnd(true, depth) + rest == Tabs(true, depth) + ([CLOSE_OBJECT] + rest);
    WhiteGoes(Tabs(true, depth), [CLOSE_OBJECT] + rest);
    ByteStays(CLOSE_OBJECT, rest);
    assert ObjectEnd(false, depth) == [CLOSE_OBJECT];
  }

  lemma KeyStays(key: bytes, depth: nat, rest: bytes)
    requires !EndsInBackslash(key)
    ensures Min(KeyText(key, true, depth) + rest) == KeyText(key, false, depth) + Min(rest)
  {
    hide Quoted, EndsInBackslash, Min;
    assert KeyText(key, true, depth) + rest == Tabs(true, depth) + (Quoted(key) + ([COLON] + ([TAB] + rest)));
    WhiteGoes(Tabs(true, depth), Quoted(key) + ([COLON] + ([TAB] + rest)));
    QuotedStays(key, [COLON] + ([TAB] + rest));
    ByteStays(COLON, [TAB] + rest);
    WhiteGoes([TAB], rest);
    assert KeyText(key, false, depth) + Min(rest) == Quoted(key) + ([COLON] + Min(rest));
  }

  // ---------------------------------------------------------------------------------------------
  // Trees without a string that ends in a backslash
  // ---------------------------------------------------------------------------------------------

  lemma {:induction false} SafeValue(v: Json, depth: nat, rest: bytes)
    requires Safe(v, false)
    ensures Min(Text(v, true, depth) + rest) == Text(v, false, depth) + Min(rest)
    decreases v, 2
  {
    hide Min, ItemsText, MembersText, ObjectEnd, Quoted;
    match v {
      case Str(t) => QuotedStays(t, rest);
      case Arr(items) => SafeArray(items, depth, rest);
      case Obj(members) => SafeObject(members, depth, rest);
      case _ => ScalarStays(v, depth, rest);
    }
  }

  lemma {:induction false} SafeArray(items: seq<Json>, depth: nat, rest: bytes)
    requires ItemsSafe(items, false)
    ensures Min(Text(Arr(items), true, depth) + rest) == Text(Arr(items), false, depth) + Min(rest)
    decreases items, 1
  {
    hide Min, ItemsText;
    var f, u := ItemsText(items, true, depth + 1), ItemsText(items, false, depth + 1);
    assert Text(Arr(items), true, depth) + rest == [OPEN_ARRAY] + (f + ([CLOSE_ARRAY] + rest));
    ByteStays(OPEN_ARRAY, f + ([CLOSE_ARRAY] + rest));
    SafeItems(items, depth + 1, [CLOSE_ARRAY] + rest);
    ByteStays(CLOSE_ARRAY, rest);
    assert Text(Arr(items), false, depth) + Min(rest) == [OPEN_ARRAY] + (u + ([CLOSE_ARRAY] + Min(rest)));
  }

  lemma {:induction false} SafeItems(items: seq<Json>, depth: nat, rest: bytes)
    requires ItemsSafe(items, false)
    ensures Min(ItemsText(items, true, depth) + rest) == ItemsText(items, false, depth) + Min(rest)
    decreases items, 0
  {
    hide Min, Text, ItemSeparator;
    if items == [] {
      assert [] + rest == rest && [] + Min(rest) == Min(rest);
    } else {
      var more := |items| > 1;
      var f, u := ItemsText(items[1..], true, depth), ItemsText(items[1..], false, depth);
      var text, sep := Text(items[0], true, depth), ItemSeparator(true, more);
      assert ItemsText(items, true, depth) + rest == text + (sep + (f + rest));
      SafeValue(items[0], depth, sep + (f + rest));
      SeparatorStays(more, f + rest);
      SafeItems(items[1..], depth, rest);
      assert Text(items[0], false, depth) + (ItemSeparator(false, more) + (u + Min(rest))) == ItemsText(items, false, depth) + Min(rest);
    }
  }

  lemma {:induction false} SafeObject(members: seq<Member>, depth: nat, rest: bytes)
    requires MembersSafe(members)
    ensures Min(Text(Obj(members), true, depth) + rest) == Text(Obj(members), false, depth) + Min(rest)
    decreases members, 1
  {
    hide Min, MembersText, ObjectEnd;
    var f, u := MembersText(members, true, depth + 1), MembersText(members, false, depth + 1);
    var tail := ObjectEnd(true, depth) + rest;
    assert Text(Obj(members), true, depth) + rest == [OPEN_OBJECT] + ([LF] + (f + tail));
    ByteStays(OPEN_OBJECT, [LF] + (f + tail));
    WhiteGoes([LF], f + tail);
    SafeMembers(members, depth + 1, tail);
    EndStays(depth, rest);
    assert Text(Obj(members), false, depth) + Min(rest) == [OPEN_OBJECT] + (u + (ObjectEnd(false, depth) + Min(rest)));
  }

  lemma {:induction false} SafeMembers(members: seq<Member>, depth: nat, rest: bytes)
    requires MembersSafe(members)
    ensures Min(MembersText(members, true, depth) + rest) == MembersText(members, false, depth) + Min(rest)
    decreases members, 0
  {
    hide Min, Text, KeyText, MemberSeparator, EndsInBackslash;
    if members == [] {
      assert [] + rest == rest && [] + Min(rest) == Min(rest);
    } else {
      var more, m := |members| > 1, members[0];
      var f, u := MembersText(members[1..], true, depth), MembersText(members[1..], false, depth);
      var key, text, sep := KeyText(m.key, true, depth), Text(m.value, true, depth), MemberSeparator(true, more);
      assert MembersText(members, true, depth) + rest == key + (text + (sep + (f + rest)));
      KeyStays(m.key, depth, text + (sep + (f + rest)));
      SafeValue(m.value, depth, sep + (f + rest));
      MemberSeparatorStays(more, f + rest);
      SafeMembers(members[1..], depth, rest);
      assert KeyText(m.key, false, depth) + (Text(m.value, false, depth) + (MemberSeparator(false, more) + (u + Min(rest))))
          == MembersText(members, false, depth) + Min(rest);
    }
  }

  // ---------------------------------------------------------------------------------------------
  // Trees with a string that ends in a backslash
  // ---------------------------------------------------------------------------------------------

  /** The minifier is still inside of a string when it meets white space that the unformatted text has not. */
  lemma WhiteInString(front: bytes, c: byte, rest: bytes, other: bytes)
    requires |front| <= 1 && (front == [] || (front[0] != QUOTE && front[0] != BACKSLASH))
    requires IsWhite(c) && |front| < |other| && other[|front|] != c
    ensures Differs(InString(front + ([c] + rest)), other)
  {
    hide InString;
    LettersStay(front, [c] + rest);
    LetterStays(c, rest);
    DiffersAt(front + ([c] + InString(rest)), other, |front|);
  }

  lemma DiffersInValue(text: bytes, other: bytes, t: bytes, rest: bytes, urest: bytes)
    requires text == Min(Quoted(t) + rest) && other == Quoted(t) + urest && EndsInBackslash(t) && Differs(InString(rest), urest)
    ensures Differs(text, other)
  {
    hide Min, Quoted, InString;
    QuotedStays(t, rest);
    DiffersBehind(Quoted(t), InString(rest), urest);
  }

  /** After a string that ends in a backslash, what follows decides: if it is kept as in a string and differs there
      from the unformatted text, the whole differs. */
  lemma {:induction false} UnsafeValue(v: Json, depth: nat, rest: bytes, urest: bytes)
    requires !Safe(v, false) && Differs(InString(rest), urest)
    ensures Differs(Min(Text(v, true, depth) + rest), Text(v, false, depth) + urest)
    decreases v, 2
  {
    hide Min, InString, ItemsText, MembersText, ObjectEnd, Quoted, Differs, EndsInBackslash;
    match v {
      case Str(t) => DiffersInValue(Min(Quoted(t) + rest), Quoted(t) + urest, t, rest, urest);
      case Arr(items) => UnsafeArray(items, depth, rest, urest);
      case Obj(members) => UnsafeObject(members, depth, rest, urest);
    }
  }

  lemma {:induction false} UnsafeArray(items: seq<Json>, depth: nat, rest: bytes, urest: bytes)
    requires !ItemsSafe(items, false) && Differs(InString(rest), urest)
    ensures Differs(Min(Text(Arr(items), true, depth) + rest), Text(Arr(items), false, depth) + urest)
    decreases items, 1
  {
    hide Min, ItemsText, InString, Differs;
    var f, u := ItemsText(items, true, depth + 1), ItemsText(items, false, depth + 1);
    assert Text(Arr(items), true, depth) + rest == [OPEN_ARRAY] + (f + ([CLOSE_ARRAY] + rest));
    ByteStays(OPEN_ARRAY, f + ([CLOSE_ARRAY] + rest));
    LetterStays(CLOSE_ARRAY, rest);
    DiffersBehind([CLOSE_ARRAY], InString(rest), urest);
    UnsafeItems(items, depth + 1, [CLOSE_ARRAY] + rest, [CLOSE_ARRAY] + urest);
    DiffersBehind([OPEN_ARRAY], Min(f + ([CLOSE_ARRAY] + rest)), u + ([CLOSE_ARRAY] + urest));
    assert Text(Arr(items), false, depth) + urest == [OPEN_ARRAY] + (u + ([CLOSE_ARRAY] + urest));
  }

  lemma {:induction false} UnsafeItems(items: seq<Json>, depth: nat, rest: bytes, urest: bytes)
    requires !ItemsSafe(items, false) && Differs(InString(rest), urest)
    ensures Differs(Min(ItemsText(items, true, depth) + rest), ItemsText(items, false, depth) + urest)
    decreases items, 0
  {
    hide Min, Text, Differs, InString, ItemSeparator;
    var more := |items| > 1;
    var f, u := ItemsText(items[1..], true, depth), ItemsText(items[1..], false, depth);
    if Safe(items[0], false) {
      UnsafeItems(items[1..], depth, rest, urest);
      LaterItemDiffers(items, depth, rest, urest);
    } else {
      assert ItemsText(items, true, depth) + rest == Text(items[0], true, depth) + (ItemSeparator(true, more) + (f + rest));
      assert ItemsText(items, false, depth) + urest == Text(items[0], false, depth) + (ItemSeparator(false, more) + (u + urest));
      AfterItemDiffers(items, depth, rest, urest);
      UnsafeValue(items[0], depth, ItemSeparator(true, more) + (f + rest), ItemSeparator(false, more) + (u + urest));
    }
  }

  /** Between two items, a string that goes on keeps the blank after the comma. */
  lemma AfterItemDiffers(items: seq<Json>, depth: nat, rest: bytes, urest: bytes)
    requires items != [] && (|items| == 1 ==> Differs(InString(rest), urest))
    ensures var more := |items| > 1;
            Differs(InString(ItemSeparator(true, more) + (ItemsText(items[1..], true, depth) + rest)),
                    ItemSeparator(false, more) + (ItemsText(items[1..], false, depth) + urest))
  {
    hide InString, Differs, Text;
    var f, u := ItemsText(items[1..], true, depth), ItemsText(items[1..], false, depth);
    if |items| > 1 {
      FirstByte(items[1], false, depth);
      assert u[0] == Text(items[1], false, depth)[0];
      assert ItemSeparator(true, true) + (f + rest) == [COMMA] + ([SP] + (f + rest));
      WhiteInString([COMMA], SP, f + rest, ItemSeparator(false, true) + (u + urest));
    } else {
      assert [] + ([] + rest) == rest && [] + ([] + urest) == urest;
    }
  }

  lemma LaterItemDiffers(items: seq<Json>, depth: nat, rest: bytes, urest: bytes)
    requires items != [] && Safe(items[0], false)
    requires Differs(Min(ItemsText(items[1..], true, depth) + rest), ItemsText(items[1..], false, depth) + urest)
    ensures Differs(Min(ItemsText(items, true, depth) + rest), ItemsText(items, false, depth) + urest)
  {
    hide Min, Text, Differs, ItemSeparator;
    var more := |items| > 1;
    var f, u := ItemsText(items[1..], true, depth), ItemsText(items[1..], false, depth);
    var sep := ItemSeparator(true, more);
    assert ItemsText(items, true, depth) + rest == Text(items[0], true, depth) + (sep + (f + rest));
    SafeValue(items[0], depth, sep + (f + rest));
    SeparatorStays(more, f + rest);
    var front := Text(items[0], false, depth) + ItemSeparator(false, more);
    assert Text(items[0], false, depth) + (ItemSeparator(false, more) + Min(f + rest)) == front + Min(f + rest);
    DiffersBehind(front, Min(f + rest), u + urest);
    assert ItemsText(items, false, depth) + urest == front + (u + urest);
  }

  lemma {:induction false} UnsafeObject(members: seq<Member>, depth: nat, rest: bytes, urest: bytes)
    requires !MembersSafe(members)
    ensures Differs(Min(Text(Obj(members), true, depth) + rest), Text(Obj(members), false, depth) + urest)
    decreases members, 1
  {
    hide Min, MembersText, Differs;
    var f, u := MembersText(members, true, depth + 1), MembersText(members, false, depth + 1);
    var tail, utail := ObjectEnd(true, depth) + rest, ObjectEnd(false, depth) + urest;
    assert Tabs(false, depth) == [];
    assert utail[0] == CLOSE_OBJECT;
    hide ObjectEnd;
    assert Text(Obj(members), true, depth) + rest == [OPEN_OBJECT] + ([LF] + (f + tail));
    ByteStays(OPEN_OBJECT, [LF] + (f + tail));
    WhiteGoes([LF], f + tail);
    UnsafeMembers(members, depth + 1, tail, utail);
    DiffersBehind([OPEN_OBJECT], Min(f + tail), u + utail);
    assert Text(Obj(members), false, depth) + urest == [OPEN_OBJECT] + (u + utail);
  }

  lemma {:induction false} UnsafeMembers(members: seq<Member>, depth: nat, rest: bytes, urest: bytes)
    requires !MembersSafe(members) && urest != [] && urest[0] == CLOSE_OBJECT
    ensures Differs(Min(MembersText(members, true, depth) + rest), MembersText(members, false, depth) + urest)
    decreases members, 0
  {
    hide Min, Text, Differs, InString, MemberSeparator, KeyText, EndsInBackslash;
    var more, m := |members| > 1, members[0];
    var f, u := MembersText(members[1..], true, depth) + rest, MembersText(members[1..], false, depth) + urest;
    var sep, usep := MemberSeparator(true, more), MemberSeparator(false, more);
    var text, utext := Text(m.value, true, depth), Text(m.value, false, depth);
    var key, ukey := KeyText(m.key, true, depth), KeyText(m.key, false, depth);
    assert MembersText(members, true, depth) + rest == key + (text + (sep + f));
    assert MembersText(members, false, depth) + urest == ukey + (utext + (usep + u));
    if EndsInBackslash(m.key) {
      FirstByte(m.value, false, depth);
      UnsafeKey(m.key, depth, text + (sep + f), utext + (usep + u));
    } else {
      KeyStays(m.key, depth, text + (sep + f));
      if Safe(m.value, false) {
        SafeValue(m.value, depth, sep + f);
        MemberSeparatorStays(more, f);
        UnsafeMembers(members[1..], depth, rest, urest);
        DiffersBehind(usep, Min(f), u);
        DiffersBehind(utext, Min(sep + f), usep + u);
      } else {
        AfterMemberDiffers(members, depth, rest, urest);
        UnsafeValue(m.value, depth, sep + f, usep + u);
      }
      DiffersBehind(ukey, Min(text + (sep + f)), utext + (usep + u));
    }
  }

  lemma UnsafeKey(key: bytes, depth: nat, rest: bytes, urest: bytes)
    requires EndsInBackslash(key) && urest != [] && urest[0] > 32
    ensures Differs(Min(KeyText(key, true, depth) + rest), KeyText(key, false, depth) + urest)
  {
    hide Quoted, EndsInBackslash, Min, InString, Differs;
    var tail, utail := [COLON] + ([TAB] + rest), [COLON] + urest;
    assert KeyText(key, true, depth) + rest == Tabs(true, depth) + (Quoted(key) + tail);
    WhiteGoes(Tabs(true, depth), Quoted(key) + tail);
    QuotedStays(key, tail);
    WhiteInString([COLON], TAB, rest, utail);
    DiffersBehind(Quoted(key), InString(tail), utail);
    assert KeyText(key, false, depth) + urest == Quoted(key) + utail;
  }

  /** After a member, a string that goes on keeps the line break. */
  lemma AfterMemberDiffers(members: seq<Member>, depth: nat, rest: bytes, urest: bytes)
    requires members != [] && urest != [] && urest[0] == CLOSE_OBJECT
    ensures var more := |members| > 1;
            Differs(InString(MemberSeparator(true, more) + (MembersText(members[1..], true, depth) + rest)),
                    MemberSeparator(false, more) + (MembersText(members[1..], false, depth) + urest))
  {
    hide InString, Differs, Text, Escaped;
    var f, u := MembersText(members[1..], true, depth) + rest, MembersText(members[1..], false, depth) + urest;
    if |members| > 1 {
      assert u[0] == QUOTE by {
        assert members[1..][0] == members[1];
        assert KeyText(members[1].key, false, depth)[0] == QUOTE;
        assert MembersText(members[1..], false, depth)[0] == QUOTE;
      }
      assert MemberSeparator(true, true) + f == [COMMA] + ([LF] + f);
      WhiteInString([COMMA], LF, f, MemberSeparator(false, true) + u);
    } else {
      assert MemberSeparator(true, false) + f == [] + ([LF] + f);
      assert MemberSeparator(false, false) + u == urest;
      WhiteInString([], LF, f, urest);
    }
  }

  // ---------------------------------------------------------------------------------------------
  // Behind the last string only brackets follow
  // ---------------------------------------------------------------------------------------------

  function Closers(n: nat): bytes {
    seq(n, _ => CLOSE_ARRAY)
  }

  lemma ClosersStay(n: nat)
    ensures Min(Closers(n)) == Closers(n) == InString(Closers(n))
  {
    hide Min, InString;
    PlainStays(Closers(n), []);
    LettersStay(Closers(n), []);
    assert Closers(n) + [] == Closers(n);
    assert Min([]) == [] && InString([]) == [] by {
      MinStep([]);
      InStringStep([]);
    }
  }

  lemma {:induction false} LastValue(v: Json, depth: nat, n: nat)
    ensures Safe(v, true) ==> Min(Text(v, true, depth) + Closers(n)) == Text(v, false, depth) + Closers(n)
    ensures !Safe(v, true) ==> Differs(Min(Text(v, true, depth) + Closers(n)), Text(v, false, depth) + Closers(n))
    decreases v, 2
  {
    hide Min, InString, ItemsText, MembersText, ObjectEnd, Quoted, Differs, EndsInBackslash, Closers;
    ClosersStay(n);
    match v {
      case Str(t) =>
        QuotedStays(t, Closers(n));
      case Arr(items) =>
        LastArray(items, depth, n);
      case Obj(members) =>
        if MembersSafe(members) {
          SafeObject(members, depth, Closers(n));
        } else {
          UnsafeObject(members, depth, Closers(n), Closers(n));
        }
      case _ =>
        ScalarStays(v, depth, Closers(n));
    }
  }

  lemma {:induction false} LastArray(items: seq<Json>, depth: nat, n: nat)
    ensures ItemsSafe(items, true) ==> Min(Text(Arr(items), true, depth) + Closers(n)) == Text(Arr(items), false, depth) + Closers(n)
    ensures !ItemsSafe(items, true) ==> Differs(Min(Text(Arr(items), true, depth) + Closers(n)), Text(Arr(items), false, depth) + Closers(n))
    decreases items, 1
  {
    hide Min, ItemsText, Differs;
    var f, u := ItemsText(items, true, depth + 1), ItemsText(items, false, depth + 1);
    assert [CLOSE_ARRAY] + Closers(n) == Closers(n + 1);
    assert Text(Arr(items), true, depth) + Closers(n) == [OPEN_ARRAY] + (f + Closers(n + 1));
    assert Text(Arr(items), false, depth) + Closers(n) == [OPEN_ARRAY] + (u + Closers(n + 1));
    ByteStays(OPEN_ARRAY, f + Closers(n + 1));
    LastItems(items, depth + 1, n + 1);
    if !ItemsSafe(items, true) {
      DiffersBehind([OPEN_ARRAY], Min(f + Closers(n + 1)), u + Closers(n + 1));
    }
  }

  lemma {:induction false} LastItems(items: seq<Json>, depth: nat, n: nat)
    ensures ItemsSafe(items, true) ==> Min(ItemsText(items, true, depth) + Closers(n)) == ItemsText(items, false, depth) + Closers(n)
    ensures !ItemsSafe(items, true) ==> Differs(Min(ItemsText(items, true, depth) + Closers(n)), ItemsText(items, false, depth) + Closers(n))
    decreases items, 0
  {
    hide Min, InString, Text, ItemSeparator, Differs, Closers;
    var c := Closers(n);
    if items == [] {
      ClosersStay(n);
      assert [] + c == c;
    } else if |items| == 1 {
      OneItem(items, depth);
      LastValue(items[0], depth, n);
    } else if Safe(items[0], false) {
      LastItems(items[1..], depth, n);
      if ItemsSafe(items[1..], true) {
        LaterItemStays(items, depth, c, c);
      } else {
        LaterItemDiffers(items, depth, c, c);
      }
    } else {
      var f, u := ItemsText(items[1..], true, depth), ItemsText(items[1..], false, depth);
      assert ItemsText(items, true, depth) + c == Text(items[0], true, depth) + (ItemSeparator(true, true) + (f + c));
      assert ItemsText(items, false, depth) + c == Text(items[0], false, depth) + (ItemSeparator(false, true) + (u + c));
      AfterItemDiffers(items, depth, c, c);
      UnsafeValue(items[0], depth, ItemSeparator(true, true) + (f + c), ItemSeparator(false, true) + (u + c));
    }
  }

  lemma OneItem(items: seq<Json>, depth: nat)
    requires |items| == 1
    ensures forall fmt :: ItemsText(items, fmt, depth) == Text(items[0], fmt, depth)
    ensures ItemsSafe(items, true) <==> Safe(items[0], true)
  {
    hide Text, Safe;
    assert items[1..] == [];
  }

  lemma LaterItemStays(items: seq<Json>, depth: nat, rest: bytes, urest: bytes)
    requires items != [] && Safe(items[0], false)
    requires Min(ItemsText(items[1..], true, depth) + rest) == ItemsText(items[1..], false, depth) + urest
    ensures Min(ItemsText(items, true, depth) + rest) == ItemsText(items, false, depth) + urest
  {
    hide Min, Text, ItemSeparator;
    var more := |items| > 1;
    var f, u := ItemsText(items[1..], true, depth), ItemsText(items[1..], false, depth);
    var sep := ItemSeparator(true, more);
    assert ItemsText(items, true, depth) + rest == Text(items[0], true, depth) + (sep + (f + rest));
    SafeValue(items[0], depth, sep + (f + rest));
    SeparatorStays(more, f + rest);
    assert ItemsText(items, false, depth) + urest == Text(items[0], false, depth) + (ItemSeparator(false, more) + (u + urest));
  }

  /** Minifying the formatted text gives exactly the unformatted text, for the trees in which no key and no string
      ends in a backslash, but for a string that only closing brackets follow, and for no other tree. */
  lemma MinifyUnformats(v: Json)
    ensures Min(Text(v, true, 0)) == Text(v, false, 0) <==> Safe(v, true)
  {
    hide Text, Min, Safe;
    LastValue(v, 0, 0);
    var f, u := Text(v, true, 0), Text(v, false, 0);
    assert f + Closers(0) == f && u + Closers(0) == u;
  }

  /** The smallest case: two items, of which the first one is a string of one backslash. */
  lemma BlankBehindBackslash()
    ensures var v := Arr([Str([BACKSLASH]), Null]); Min(Text(v, true, 0)) != Text(v, false, 0)
  {
    var t: cstring := [BACKSLASH];
    var items := [Str(t), Null];
    assert !Safe(items[0], false);
    assert !ItemsSafe(items, true);
    MinifyUnformats(Arr(items));
  }
}
