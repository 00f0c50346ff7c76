/** All the texts that stand for a JSON tree: any white space between tokens, any form of numbers and strings. */
module JsonSpelling {
  import opened Bytes
  import opened JsonString
  import opened JsonTree
  import opened JsonGrammar
  import opened JsonTokens

  /** How a value is written. The white space of an array or object without items is its inner. */
  datatype Spelling =
    | Name(v: Json)
    | Number(text: bytes, n: int32)
    | Literal(text: bytes, t: cstring)
    | ArrayText(inner: bytes, items: seq<Element>)
    | ObjectText(inner: bytes, entries: seq<Entry>)

  datatype Element = Element(before: bytes, value: Spelling, after: bytes)

  datatype Entry = Entry(before: bytes, key: bytes, name: cstring, afterKey: bytes, beforeValue: bytes, value: Spelling, after: bytes)

  predicate IsName(v: Json) {
    v == Null || v == False || v == True
  }

  ghost predicate Good(sp: Spelling)
    decreases sp
  {
    match sp
    case Name(v) => IsName(v)
    case Number(text, n) => IsDecimal(text, n)
    case Literal(text, t) => IsLiteral(text, t)
    case ArrayText(inner, items) => White(inner) && GoodItems(items)
    case ObjectText(inner, entries) => White(inner) && GoodEntries(entries)
  }

  ghost predicate GoodItems(items: seq<Element>)
    decreases items
  {
    items == [] || (White(items[0].before) && White(items[0].after) && Good(items[0].value) && GoodItems(items[1..]))
  }

  ghost predicate GoodEntries(entries: seq<Entry>)
    decreases entries
  {
    entries == [] || (GoodEntry(entries[0]) && Good(entries[0].value) && GoodEntries(entries[1..]))
  }

  ghost predicate GoodEntry(e: Entry) {
    White(e.before) && White(e.afterKey) && White(e.beforeValue) && White(e.after) && IsLiteral(e.key, e.name)
  }

  function Render(sp: Spelling): bytes
    decreases sp
  {
    match sp
    case Name(v) => if v == Null then Ascii("null") else if v == False then Ascii("false") else Ascii("true")
    case Number(text, _) => text
    case Literal(text, _) => text
    case ArrayText(inner, items) => ['[' as int] + ((if items == [] then inner else RenderItems(items)) + [']' as int])
    case ObjectText(inner, entries) => ['{' as int] + ((if entries == [] then inner else RenderEntries(entries)) + ['}' as int])
  }

  function RenderItems(items: seq<Element>): bytes
    decreases items, 0
  {
    if items == [] then []
    else items[0].before + (Render(items[0].value) + (items[0].after + MoreItems(items[1..])))
  }

  function MoreItems(items: seq<Element>): bytes
    decreases items, 1
  {
    if items == [] then [] else [',' as int] + RenderItems(items)
  }

  function Front(e: Entry): bytes {
    e.before + (e.key + (e.afterKey + ([':' as int] + e.beforeValue)))
  }

  function RenderEntries(entries: seq<Entry>): bytes
    decreases entries, 0
  {
    if entries == [] then []
    else Front(entries[0]) + (Render(entries[0].value) + (entries[0].after + MoreEntries(entries[1..])))
  }

  function MoreEntries(entries: seq<Entry>): bytes
    decreases entries, 1
  {
    if entries == [] then [] else [',' as int] + RenderEntries(entries)
  }

  /** The tree that is written. */
  function Meaning(sp: Spelling): Json
    decreases sp
  {
    match sp
    case Name(v) => v
    case Number(_, n) => Num(n)
    case Literal(_, t) => Str(t)
    case ArrayText(_, items) => Arr(ItemsMeaning(items))
    case ObjectText(_, entries) => Obj(EntriesMeaning(entries))
  }

  function ItemsMeaning(items: seq<Element>): seq<Json>
    decreases items
  {
    if items == [] then [] else [Meaning(items[0].value)] + ItemsMeaning(items[1..])
  }

  function EntriesMeaning(entries: seq<Entry>): seq<Member>
    decreases entries
  {
    if entries == [] then [] else [Member(entries[0].name, Meaning(entries[0].value))] + EntriesMeaning(entries[1..])
  }

  // ---------------------------------------------------------------------------------------------
  // Every spelling is read
  // ---------------------------------------------------------------------------------------------

  /** What the parser answers for a text that holds x from i on: the limit on nesting decides. */
  function Verdict<T>(fits: bool, next: nat, x: T): Outcome<T> {
    if fits then Parsed(next, x) else Rejected
  }

  lemma SpellingStarts(sp: Spelling)
    requires Good(sp)
    ensures Render(sp) != [] && 32 < Render(sp)[0] < 127
    ensures var c := Render(sp)[0]; c != CLOSE_ARRAY && c != CLOSE_OBJECT && c != COMMA && c != COLON
  {
    match sp
    case Number(text, n) => DecimalStarts(text, n);
    case _ =>
  }

  lemma NamesAre()
    ensures NULL_TEXT == Ascii("null") && FALSE_TEXT == Ascii("false") && TRUE_TEXT == Ascii("true")
  {}

  lemma NameReads(s: bytes, i: nat, v: Json, depth: nat)
    requires IsName(v) && At(s, i, Render(Name(v)))
    ensures ParseValue(s, i, depth) == Parsed(i + |Render(Name(v))|, v)
  {
    NamesAre();
    AtByte(s, i, Render(Name(v)), 0);
    OtherFirst(s, i, NULL_TEXT);
    OtherFirst(s, i, FALSE_TEXT);
  }

  lemma NumberReads(s: bytes, i: nat, text: bytes, n: int32, depth: nat)
    requires At(s, i, text) && IsDecimal(text, n) && Ends(s, i + |text|)
    ensures ParseValue(s, i, depth) == Parsed(i + |text|, Num(n))
  {
    hide At, ParseNumber, IsDecimal;
    DecimalReads(s, i, text, n);
    NoName(s, i);
  }

  lemma StringReads(s: bytes, i: nat, text: bytes, t: cstring, depth: nat)
    requires At(s, i, text) && IsLiteral(text, t)
    ensures ParseValue(s, i, depth) == Parsed(i + |text|, Str(t))
  {
    hide At, ParseString, IsLiteral;
    LiteralReads(s, i, text, t);
    NoName(s, i);
  }

  /** Whatever way a tree is written, the parser reads that tree, if it is not nested too deeply, and nothing
      otherwise. */
  lemma {:induction false} SpellingReads(s: bytes, i: nat, sp: Spelling, depth: nat)
    requires Good(sp) && At(s, i, Render(sp)) && Ends(s, i + |Render(sp)|) && depth <= 1000
    ensures ParseValue(s, i, depth) == Verdict(depth + Height(Meaning(sp)) <= 1000, i + |Render(sp)|, Meaning(sp))
    decreases sp, 2
  {
    hide ParseString, ParseNumber, ParseArray, ParseObject, IsDecimal, IsLiteral, White;
    match sp {
      case Name(v) => NameReads(s, i, v, depth);
      case Number(text, n) => NumberReads(s, i, text, n, depth);
      case Literal(text, t) => StringReads(s, i, text, t, depth);
      case ArrayText(_, _) =>
        ArrayReads(s, i, sp, depth);
        NoName(s, i);
      case ObjectText(_, _) =>
        ObjectReads(s, i, sp, depth);
        NoName(s, i);
    }
  }

  lemma NothingWritten()
    ensures RenderItems([]) == [] && ItemsMeaning([]) == [] && ItemsHeight([]) == 0
    ensures RenderEntries([]) == [] && EntriesMeaning([]) == [] && MembersHeight([]) == 0
  {}

  lemma {:induction false} ArrayReads(s: bytes, i: nat, sp: Spelling, depth: nat)
    requires sp.ArrayText? && Good(sp) && At(s, i, Render(sp)) && depth <= 1000
    ensures i < |s| && s[i] == OPEN_ARRAY
    ensures ParseArray(s, i, depth) == Verdict(depth + Height(Meaning(sp)) <= 1000, i + |Render(sp)|, Meaning(sp))
    decreases sp, 1
  {
    hide At, SkipWhitespace, ParseItems, RenderItems, ItemsMeaning, ItemsHeight, GoodItems, White;
    var body := if sp.items == [] then sp.inner else RenderItems(sp.items);
    AtParts(s, i, [OPEN_ARRAY], body + [CLOSE_ARRAY]);
    AtByte(s, i, [OPEN_ARRAY], 0);
    AtFits(s, i, [OPEN_ARRAY]);
    NothingWritten();
    if sp.items == [] {
      AtParts(s, i + 1, body, [CLOSE_ARRAY]);
      AtByte(s, i + 1 + |body|, [CLOSE_ARRAY], 0);
      AtFits(s, i + 1 + |body|, [CLOSE_ARRAY]);
      WhiteIsSkipped(s, i + 1, body);
    } else {
      ItemAhead(s, i + 1, sp.items);
      if depth < 1000 {
        ItemsRead(s, i + 1, sp.items, depth + 1);
      }
    }
  }

  /** Where the parts of some items lie: the first item with its white space, and the others behind a comma. */
  lemma ItemsLayout(s: bytes, p: nat, items: seq<Element>)
    requires items != []
    ensures var e, text := items[0], Render(items[0].value);
            var k := p + |e.before| + |text|;
            var n := k + |e.after|;
            && |RenderItems(items)| == n - p + (if |items| == 1 then 0 else 1 + |RenderItems(items[1..])|)
            && (At(s, p, RenderItems(items) + [CLOSE_ARRAY]) <==>
                && At(s, p, e.before) && At(s, p + |e.before|, text) && At(s, k, e.after)
                && if |items| == 1 then At(s, n, [CLOSE_ARRAY])
                   else At(s, n, [COMMA]) && At(s, n + 1, RenderItems(items[1..]) + [CLOSE_ARRAY]))
  {
    hide At, Render, RenderItems;
    var e, text, more := items[0], Render(items[0].value), MoreItems(items[1..]) + [CLOSE_ARRAY];
    var k := p + |e.before| + |text|;
    ItemsInParts(items);
    AtFourParts(s, p, e.before, text, e.after, more);
    AtRest(s, k + |e.after|, items[1..]);
  }

  lemma ItemsInParts(items: seq<Element>)
    requires items != []
    ensures var e, text, more := items[0], Render(items[0].value), MoreItems(items[1..]);
            && RenderItems(items) + [CLOSE_ARRAY] == e.before + (text + (e.after + (more + [CLOSE_ARRAY])))
            && |RenderItems(items)| == |e.before| + |text| + |e.after| + |more|
  {
    hide Render, MoreItems;
  }

  lemma AtRest(s: bytes, n: nat, items: seq<Element>)
    ensures |MoreItems(items)| == if items == [] then 0 else 1 + |RenderItems(items)|
    ensures At(s, n, MoreItems(items) + [CLOSE_ARRAY])
        <==> if items == [] then At(s, n, [CLOSE_ARRAY]) else At(s, n, [COMMA]) && At(s, n + 1, RenderItems(items) + [CLOSE_ARRAY])
  {
    hide At, RenderItems;
    if items == [] {
      assert [] + [CLOSE_ARRAY] == [CLOSE_ARRAY];
    } else {
      assert MoreItems(items) + [CLOSE_ARRAY] == [COMMA] + (RenderItems(items) + [CLOSE_ARRAY]);
      AtParts(s, n, [COMMA], RenderItems(items) + [CLOSE_ARRAY]);
    }
  }

  lemma AtFourParts(s: bytes, p: nat, a: bytes, b: bytes, c: bytes, d: bytes)
    ensures At(s, p, a + (b + (c + d)))
       <==> At(s, p, a) && At(s, p + |a|, b) && At(s, p + |a| + |b|, c) && At(s, p + |a| + |b| + |c|, d)
  {
    hide At;
    AtParts(s, p, a, b + (c + d));
    AtParts(s, p + |a|, b, c + d);
    AtParts(s, p + |a| + |b|, c, d);
  }

  /** What the parser meets on its way over the first item. */
  lemma ItemParts(s: bytes, p: nat, items: seq<Element>)
    requires items != [] && GoodItems(items) && At(s, p, RenderItems(items) + [CLOSE_ARRAY])
    ensures var text := Render(items[0].value);
            var j := p + |items[0].before|;
            var k := j + |text|;
            var n := k + |items[0].after|;
            && SkipWhitespace(s, p) == j && At(s, j, text) && text != [] && Is(s, j, text[0])
            && Ends(s, k) && SkipWhitespace(s, k) == n && Is(s, n, if |items| == 1 then CLOSE_ARRAY else COMMA)
            && (|items| > 1 ==> At(s, n + 1, RenderItems(items[1..]) + [CLOSE_ARRAY]))
  {
    hide At, SkipWhitespace, Render, RenderItems, Good;
    var e, text := items[0], Render(items[0].value);
    var j := p + |e.before|;
    var k := j + |text|;
    var n := k + |e.after|;
    SpellingStarts(e.value);
    ItemsLayout(s, p, items);
    AtFits(s, j, text);
    AtByte(s, j, text, 0);
    ThisByte(s, n, if |items| == 1 then CLOSE_ARRAY else COMMA);
    WhiteIsSkipped(s, p, e.before);
    WhiteIsSkipped(s, k, e.after);
    EndsBefore(s, k, e.after);
  }

  lemma ThisByte(s: bytes, i: nat, c: byte)
    ensures At(s, i, [c]) <==> Is(s, i, c)
  {
    if At(s, i, [c]) {
      AtByte(s, i, [c], 0);
    }
  }

  /** White space, and then a byte that is no part of a number. */
  lemma EndsBefore(s: bytes, k: nat, w: bytes)
    requires At(s, k, w) && White(w) && k + |w| < |s| && !NumberByte(s[k + |w|])
    ensures Ends(s, k)
  {
    if w != [] {
      AtByte(s, k, w, 0);
    }
  }

  lemma HeadIsGood(items: seq<Element>)
    requires items != [] && GoodItems(items)
    ensures Good(items[0].value) && GoodItems(items[1..])
  {}

  lemma ItemAhead(s: bytes, p: nat, items: seq<Element>)
    requires items != [] && GoodItems(items) && At(s, p, RenderItems(items) + [CLOSE_ARRAY])
    ensures var j := SkipWhitespace(s, p); j < |s| && s[j] != CLOSE_ARRAY
  {
    hide At, SkipWhitespace, RenderItems, Render, Good, GoodItems;
    ItemParts(s, p, items);
    HeadIsGood(items);
    SpellingStarts(items[0].value);
  }

  lemma {:induction false} ItemsRead(s: bytes, p: nat, items: seq<Element>, depth: nat)
    requires items != [] && GoodItems(items) && At(s, p, RenderItems(items) + [CLOSE_ARRAY]) && depth <= 1000
    ensures SkipWhitespace(s, p) <= |s|
    ensures ParseItems(s, SkipWhitespace(s, p), depth)
         == Verdict(depth + ItemsHeight(ItemsMeaning(items)) <= 1000, p + |RenderItems(items)| + 1, ItemsMeaning(items))
    decreases items, 1
  {
    hide At, SkipWhitespace, RenderItems, Render, Good, ParseItems, ParseValue, Meaning, Height, ItemsHeight, White;
    var j := p + |items[0].before|;
    var v, rest := Meaning(items[0].value), ItemsMeaning(items[1..]);
    ItemParts(s, p, items);
    ItemsLayout(s, p, items);
    SpellingReads(s, j, items[0].value, depth);
    ItemsStep(s, j, depth);
    HeightOfItems(v, rest);
    NothingWritten();
    if |items| == 1 {
      assert items[1..] == [] && [v] + [] == [v];
    } else {
      ItemsRead(s, j + |Render(items[0].value)| + |items[0].after| + 1, items[1..], depth);
    }
  }

  function Prefixed<T>(x: T, r: Outcome<seq<T>>): Outcome<seq<T>> {
    match r
    case Parsed(next, rest) => Parsed(next, [x] + rest)
    case Rejected => Rejected
    case OtherNumber => OtherNumber
  }

  /** What one item does for the list it begins. */
  lemma ItemsStep(s: bytes, j: nat, depth: nat)
    requires j <= |s|
    ensures ParseValue(s, j, depth).Rejected? ==> ParseItems(s, j, depth).Rejected?
    ensures var r := ParseValue(s, j, depth);
            r.Parsed? ==>
              var k := SkipWhitespace(s, r.next);
              && (Is(s, k, CLOSE_ARRAY) ==> ParseItems(s, j, depth) == Parsed(k + 1, [r.value]))
              && (Is(s, k, COMMA) ==> ParseItems(s, j, depth) == Prefixed(r.value, ParseItems(s, SkipWhitespace(s, k + 1), depth)))
  {
    hide ParseValue, SkipWhitespace;
  }

  lemma HeightOfItems(v: Json, rest: seq<Json>)
    ensures ItemsHeight([v] + rest) == Max(Height(v), ItemsHeight(rest))
  {
    assert ([v] + rest)[1..] == rest;
  }

  // ---------------------------------------------------------------------------------------------
  // Objects
  // ---------------------------------------------------------------------------------------------

  lemma {:induction false} ObjectReads(s: bytes, i: nat, sp: Spelling, depth: nat)
    requires sp.ObjectText? && Good(sp) && At(s, i, Render(sp)) && depth <= 1000
    ensures i < |s| && s[i] == OPEN_OBJECT
    ensures ParseObject(s, i, depth) == Verdict(depth + Height(Meaning(sp)) <= 1000, i + |Render(sp)|, Meaning(sp))
    decreases sp, 1
  {
    hide At, SkipWhitespace, ParseMembers, RenderEntries, EntriesMeaning, MembersHeight, GoodEntries, White;
    var body := if sp.entries == [] then sp.inner else RenderEntries(sp.entries);
    AtParts(s, i, [OPEN_OBJECT], body + [CLOSE_OBJECT]);
    AtByte(s, i, [OPEN_OBJECT], 0);
    AtFits(s, i, [OPEN_OBJECT]);
    NothingWritten();
    if sp.entries == [] {
      AtParts(s, i + 1, body, [CLOSE_OBJECT]);
      AtByte(s, i + 1 + |body|, [CLOSE_OBJECT], 0);
      AtFits(s, i + 1 + |body|, [CLOSE_OBJECT]);
      WhiteIsSkipped(s, i + 1, body);
    } else {
      KeyAhead(s, i + 1, sp.entries);
      if depth < 1000 {
        EntriesRead(s, i + 1, sp.entries, depth + 1);
      }
    }
  }

  lemma FrontReads(s: bytes, p: nat, e: Entry, rest: bytes)
    requires GoodEntry(e) && At(s, p, Front(e) + rest) && rest != [] && rest[0] > 32
    ensures var j := p + |e.before|;
            && SkipWhitespace(s, p) == j && j < |s| && s[j] == QUOTE && ParseString(s, j) == Parsed(j + |e.key|, e.name)
            && var k := SkipWhitespace(s, j + |e.key|);
               Is(s, k, COLON) && SkipWhitespace(s, k + 1) == p + |Front(e)|
    ensures At(s, p + |Front(e)|, rest)
  {
    hide At, SkipWhitespace, ParseString, IsLiteral;
    var j := p + |e.before|;
    var k := j + |e.key|;
    var colon := k + |e.afterKey|;
    assert Front(e) + rest == e.before + (e.key + (e.afterKey + ([COLON] + (e.beforeValue + rest))));
    AtParts(s, p, e.before, e.key + (e.afterKey + ([COLON] + (e.beforeValue + rest))));
    AtParts(s, j, e.key, e.afterKey + ([COLON] + (e.beforeValue + rest)));
    AtParts(s, k, e.afterKey, [COLON] + (e.beforeValue + rest));
    AtParts(s, colon, [COLON], e.beforeValue + rest);
    AtParts(s, colon + 1, e.beforeValue, rest);
    AtFits(s, colon + 1 + |e.beforeValue|, rest);
    AtByte(s, colon + 1 + |e.beforeValue|, rest, 0);
    AtByte(s, colon, [COLON], 0);
    LiteralReads(s, j, e.key, e.name);
    WhiteIsSkipped(s, p, e.before);
    WhiteIsSkipped(s, k, e.afterKey);
    WhiteIsSkipped(s, colon + 1, e.beforeValue);
  }

  /** Where the parts of some entries lie. */
  lemma EntriesLayout(s: bytes, p: nat, entries: seq<Entry>)
    requires entries != []
    ensures var e, text := entries[0], Render(entries[0].value);
            var k := p + |Front(e)| + |text|;
            var n := k + |e.after|;
            && |RenderEntries(entries)| == n - p + (if |entries| == 1 then 0 else 1 + |RenderEntries(entries[1..])|)
            && (At(s, p, RenderEntries(entries) + [CLOSE_OBJECT]) <==>
                && At(s, p, Front(e) + text) && At(s, k, e.after)
                && if |entries| == 1 then At(s, n, [CLOSE_OBJECT])
                   else At(s, n, [COMMA]) && At(s, n + 1, RenderEntries(entries[1..]) + [CLOSE_OBJECT]))
  {
    hide At, Render, Front, RenderEntries;
    var e, text, more := entries[0], Render(entries[0].value), MoreEntries(entries[1..]) + [CLOSE_OBJECT];
    var k := p + |Front(e)| + |text|;
    EntriesInParts(entries);
    AtParts(s, p, Front(e) + text, e.after + more);
    AtParts(s, k, e.after, more);
    AtRestOfEntries(s, k + |e.after|, entries[1..]);
  }

  lemma EntriesInParts(entries: seq<Entry>)
    requires entries != []
    ensures var e, text, more := entries[0], Render(entries[0].value), MoreEntries(entries[1..]);
            && RenderEntries(entries) + [CLOSE_OBJECT] == (Front(e) + text) + (e.after + (more + [CLOSE_OBJECT]))
            && |RenderEntries(entries)| == |Front(e)| + |text| + |e.after| + |more|
  {
    hide Render, Front, MoreEntries;
  }

  lemma AtRestOfEntries(s: bytes, n: nat, entries: seq<Entry>)
    ensures |MoreEntries(entries)| == if entries == [] then 0 else 1 + |RenderEntries(entries)|
    ensures At(s, n, MoreEntries(entries) + [CLOSE_OBJECT])
        <==> if entries == [] then At(s, n, [CLOSE_OBJECT]) else At(s, n, [COMMA]) && At(s, n + 1, RenderEntries(entries) + [CLOSE_OBJECT])
  {
    hide At, RenderEntries;
    if entries == [] {
      assert [] + [CLOSE_OBJECT] == [CLOSE_OBJECT];
    } else {
      assert MoreEntries(entries) + [CLOSE_OBJECT] == [COMMA] + (RenderEntries(entries) + [CLOSE_OBJECT]);
      AtParts(s, n, [COMMA], RenderEntries(entries) + [CLOSE_OBJECT]);
    }
  }

  lemma EntryParts(s: bytes, p: nat, entries: seq<Entry>)
    requires entries != [] && GoodEntries(entries) && At(s, p, RenderEntries(entries) + [CLOSE_OBJECT])
    ensures var e, text := entries[0], Render(entries[0].value);
            var k := p + |Front(e)| + |text|;
            var n := k + |e.after|;
            && text != [] && text[0] > 32 && At(s, p, Front(e) + text)
            && Ends(s, k) && SkipWhitespace(s, k) == n && Is(s, n, if |entries| == 1 then CLOSE_OBJECT else COMMA)
            && (|entries| > 1 ==> At(s, n + 1, RenderEntries(entries[1..]) + [CLOSE_OBJECT]))
  {
    hide At, SkipWhitespace, Render, RenderEntries, Good, Front, IsLiteral;
    var e, text := entries[0], Render(entries[0].value);
    var k := p + |Front(e)| + |text|;
    SpellingStarts(e.value);
    EntriesLayout(s, p, entries);
    ThisByte(s, k + |e.after|, if |entries| == 1 then CLOSE_OBJECT else COMMA);
    WhiteIsSkipped(s, k, e.after);
    EndsBefore(s, k, e.after);
  }

  lemma HeadEntryIsGood(entries: seq<Entry>)
    requires entries != [] && GoodEntries(entries)
    ensures GoodEntry(entries[0]) && Good(entries[0].value) && GoodEntries(entries[1..])
  {}

  lemma KeyAhead(s: bytes, p: nat, entries: seq<Entry>)
    requires entries != [] && GoodEntries(entries) && At(s, p, RenderEntries(entries) + [CLOSE_OBJECT])
    ensures Is(s, SkipWhitespace(s, p), QUOTE)
  {
    hide At, SkipWhitespace, RenderEntries, Render, Good, GoodEntries, Front, GoodEntry;
    EntryParts(s, p, entries);
    HeadEntryIsGood(entries);
    FrontReads(s, p, entries[0], Render(entries[0].value));
  }

  lemma {:induction false} EntryReads(s: bytes, p: nat, e: Entry, depth: nat)
    requires GoodEntry(e) && Good(e.value) && depth <= 1000
    requires At(s, p, Front(e) + Render(e.value)) && Ends(s, p + |Front(e)| + |Render(e.value)|)
    ensures SkipWhitespace(s, p) <= |s|
    ensures ParseMember(s, SkipWhitespace(s, p), depth)
         == Verdict(depth + Height(Meaning(e.value)) <= 1000, p + |Front(e)| + |Render(e.value)|, Member(e.name, Meaning(e.value)))
    decreases e, 3
  {
    hide At, SkipWhitespace, Render, Good, Front, GoodEntry, ParseString, ParseValue, Meaning, Height;
    SpellingStarts(e.value);
    FrontReads(s, p, e, Render(e.value));
    AtFits(s, p + |Front(e)|, Render(e.value));
    SpellingReads(s, p + |Front(e)|, e.value, depth);
  }

  lemma {:induction false} EntriesRead(s: bytes, p: nat, entries: seq<Entry>, depth: nat)
    requires entries != [] && GoodEntries(entries) && At(s, p, RenderEntries(entries) + [CLOSE_OBJECT]) && depth <= 1000
    ensures SkipWhitespace(s, p) <= |s|
    ensures ParseMembers(s, SkipWhitespace(s, p), depth)
         == Verdict(depth + MembersHeight(EntriesMeaning(entries)) <= 1000, p + |RenderEntries(entries)| + 1, EntriesMeaning(entries))
    decreases entries, 1
  {
    hide At, SkipWhitespace, RenderEntries, Render, Good, Front, GoodEntry, ParseMembers, ParseMember, Meaning, Height, MembersHeight, White;
    var e := entries[0];
    var k := p + |Front(e)| + |Render(e.value)|;
    var m, rest := Member(e.name, Meaning(e.value)), EntriesMeaning(entries[1..]);
    EntryParts(s, p, entries);
    EntriesLayout(s, p, entries);
    EntryReads(s, p, e, depth);
    MembersStep(s, SkipWhitespace(s, p), depth);
    HeightOfMembers(m, rest);
    NothingWritten();
    if |entries| == 1 {
      assert entries[1..] == [] && [m] + [] == [m];
    } else {
      EntriesRead(s, k + |e.after| + 1, entries[1..], depth);
    }
  }

  lemma MembersStep(s: bytes, j: nat, depth: nat)
    requires j <= |s|
    ensures ParseMember(s, j, depth).Rejected? ==> ParseMembers(s, j, depth).Rejected?
    ensures var r := ParseMember(s, j, depth);
            r.Parsed? ==>
              var k := SkipWhitespace(s, r.next);
              && (Is(s, k, CLOSE_OBJECT) ==> ParseMembers(s, j, depth) == Parsed(k + 1, [r.value]))
              && (Is(s, k, COMMA) ==> ParseMembers(s, j, depth) == Prefixed(r.value, ParseMembers(s, SkipWhitespace(s, k + 1), depth)))
  {
    hide ParseMember, SkipWhitespace;
  }

  lemma HeightOfMembers(m: Member, rest: seq<Member>)
    ensures MembersHeight([m] + rest) == Max(Height(m.value), MembersHeight(rest))
  {
    assert ([m] + rest)[1..] == rest;
  }

  // ---------------------------------------------------------------------------------------------
  // Whatever is read is a spelling
  // ---------------------------------------------------------------------------------------------

  ghost predicate LiesAt(s: bytes, i: nat, next: nat, sp: Spelling) {
    Good(sp) && At(s, i, Render(sp)) && i + |Render(sp)| == next
  }

  lemma NoValueAhead(s: bytes, j: nat, depth: nat)
    requires j <= |s| && (j == |s| || s[j] <= 32)
    ensures ParseValue(s, j, depth).Rejected?
  {
    OtherFirst(s, j, NULL_TEXT);
    OtherFirst(s, j, FALSE_TEXT);
    OtherFirst(s, j, TRUE_TEXT);
  }

  /** A value that the parser reads was written in one of the ways that the grammar knows. */
  lemma {:induction false} ValueWasSpelled(s: bytes, i: nat, depth: nat) returns (sp: Spelling)
    requires i <= |s| && ParseValue(s, i, depth).Parsed? && Ends(s, ParseValue(s, i, depth).next)
    ensures LiesAt(s, i, ParseValue(s, i, depth).next, sp) && Meaning(sp) == ParseValue(s, i, depth).value
    decreases |s| - i, 1
  {
    hide ParseString, ParseNumber, ParseArray, ParseObject, IsDecimal, IsLiteral, At;
    NamesAre();
    if At(s, i, NULL_TEXT) {
      sp := Name(Null);
    } else if At(s, i, FALSE_TEXT) {
      sp := Name(False);
    } else if At(s, i, TRUE_TEXT) {
      sp := Name(True);
    } else if Is(s, i, QUOTE) {
      var o := ParseString(s, i);
      sp := Literal(s[i..o.next], o.value);
      LiteralWasRead(s, i);
    } else if s[i] == MINUS || IsDigit(s[i]) {
      var o := ParseNumber(s, i);
      DecimalWasRead(s, i);
      sp := Number(s[i..o.next], o.value.n);
    } else if Is(s, i, OPEN_ARRAY) {
      sp := ArrayWasSpelled(s, i, depth);
    } else {
      sp := ObjectWasSpelled(s, i, depth);
    }
  }

  /** White space up to a byte that is none. */
  lemma WhiteBefore(s: bytes, p: nat, c: byte)
    requires p <= |s| && Is(s, SkipWhitespace(s, p), c) && c > 32
    ensures var w := s[p..SkipWhitespace(s, p)]; White(w) && At(s, p, w) && p + |w| == SkipWhitespace(s, p)
    ensures At(s, SkipWhitespace(s, p), [c])
  {
    SkippedIsWhite(s, p);
    ThisByte(s, SkipWhitespace(s, p), c);
  }

  lemma {:induction false} ArrayWasSpelled(s: bytes, i: nat, depth: nat) returns (sp: Spelling)
    requires Is(s, i, OPEN_ARRAY) && ParseArray(s, i, depth).Parsed?
    ensures LiesAt(s, i, ParseArray(s, i, depth).next, sp) && Meaning(sp) == ParseArray(s, i, depth).value
    decreases |s| - i, 0
  {
    hide At, SkipWhitespace, ParseItems, RenderItems, ItemsMeaning, GoodItems, White;
    var j := SkipWhitespace(s, i + 1);
    var body: bytes;
    NothingWritten();
    ThisByte(s, i, OPEN_ARRAY);
    if Is(s, j, CLOSE_ARRAY) {
      body := s[i + 1..j];
      WhiteBefore(s, i + 1, CLOSE_ARRAY);
      AtParts(s, i + 1, body, [CLOSE_ARRAY]);
      sp := ArrayText(body, []);
      assert GoodItems([]) by { GoodNothing(); }
    } else {
      var items := ItemsWereSpelled(s, i + 1, depth + 1);
      body := RenderItems(items);
      sp := ArrayText([], items);
      assert White([]) by { NoWhite(); }
    }
    AtParts(s, i, [OPEN_ARRAY], body + [CLOSE_ARRAY]);
  }

  lemma GoodNothing()
    ensures GoodItems([]) && GoodEntries([])
  {}

  lemma NoWhite()
    ensures White([])
  {}

  lemma ItemsWereParsed(s: bytes, j: nat, depth: nat)
    requires j <= |s| && ParseItems(s, j, depth).Parsed?
    ensures ParseValue(s, j, depth).Parsed?
    ensures var r := ParseValue(s, j, depth);
            var k := SkipWhitespace(s, r.next);
            if Is(s, k, COMMA) then
              var o := ParseItems(s, SkipWhitespace(s, k + 1), depth);
              o.Parsed? && ParseItems(s, j, depth) == Parsed(o.next, [r.value] + o.value)
            else Is(s, k, CLOSE_ARRAY) && ParseItems(s, j, depth) == Parsed(k + 1, [r.value])
  {
    hide ParseValue, SkipWhitespace;
  }

  lemma ItemsFrom(e: Element, rest: seq<Element>)
    requires White(e.before) && White(e.after) && Good(e.value) && GoodItems(rest)
    ensures GoodItems([e] + rest) && ItemsMeaning([e] + rest) == [Meaning(e.value)] + ItemsMeaning(rest)
    ensures ([e] + rest)[1..] == rest
    ensures RenderItems([e] + rest) == e.before + (Render(e.value) + (e.after + MoreItems(rest)))
  {
    hide White, Good, Meaning, Render, IsLiteral;
    assert ([e] + rest)[1..] == rest;
  }

  lemma {:induction false} ItemsWereSpelled(s: bytes, p: nat, depth: nat) returns (items: seq<Element>)
    requires p <= |s| && ParseItems(s, SkipWhitespace(s, p), depth).Parsed?
    ensures items != [] && GoodItems(items) && At(s, p, RenderItems(items) + [CLOSE_ARRAY])
    ensures ParseItems(s, SkipWhitespace(s, p), depth) == Parsed(p + |RenderItems(items)| + 1, ItemsMeaning(items))
    decreases |s| - p, 2
  {
    hide At, SkipWhitespace, RenderItems, Render, GoodItems, Good, ParseItems, ParseValue, Meaning, ItemsMeaning, White;
    var j := SkipWhitespace(s, p);
    var o := ParseValue(s, j, depth);
    ItemsWereParsed(s, j, depth);
    var k := SkipWhitespace(s, o.next);
    ValueAhead(s, j, depth);
    WhiteBefore(s, p, s[j]);
    WhiteBefore(s, o.next, s[k]);
    EndsBefore(s, o.next, s[o.next..k]);
    var value := ValueWasSpelled(s, j, depth);
    var e := Element(s[p..j], value, s[o.next..k]);
    var rest := [];
    if s[k] == COMMA {
      rest := ItemsWereSpelled(s, k + 1, depth);
    }
    GoodNothing();
    NothingWritten();
    ItemsFrom(e, rest);
    items := [e] + rest;
    ItemsLayout(s, p, items);
    assert rest == [] ==> [Meaning(value)] + [] == [Meaning(value)];
  }

  lemma ValueAhead(s: bytes, j: nat, depth: nat)
    requires j <= |s| && ParseValue(s, j, depth).Parsed?
    ensures j < |s| && s[j] > 32
  {
    if j == |s| || s[j] <= 32 {
      NoValueAhead(s, j, depth);
    }
  }

  lemma {:induction false} ObjectWasSpelled(s: bytes, i: nat, depth: nat) returns (sp: Spelling)
    requires Is(s, i, OPEN_OBJECT) && ParseObject(s, i, depth).Parsed?
    ensures LiesAt(s, i, ParseObject(s, i, depth).next, sp) && Meaning(sp) == ParseObject(s, i, depth).value
    decreases |s| - i, 0
  {
    hide At, SkipWhitespace, ParseMembers, RenderEntries, EntriesMeaning, GoodEntries, White;
    var j := SkipWhitespace(s, i + 1);
    var body: bytes;
    NothingWritten();
    ThisByte(s, i, OPEN_OBJECT);
    if Is(s, j, CLOSE_OBJECT) {
      body := s[i + 1..j];
      WhiteBefore(s, i + 1, CLOSE_OBJECT);
      AtParts(s, i + 1, body, [CLOSE_OBJECT]);
      sp := ObjectText(body, []);
      assert GoodEntries([]) by { GoodNothing(); }
    } else {
      var entries := EntriesWereSpelled(s, i + 1, depth + 1);
      body := RenderEntries(entries);
      sp := ObjectText([], entries);
      assert White([]) by { NoWhite(); }
    }
    AtParts(s, i, [OPEN_OBJECT], body + [CLOSE_OBJECT]);
  }

  lemma MemberWasParsed(s: bytes, j: nat, depth: nat)
    requires j <= |s| && ParseMember(s, j, depth).Parsed?
    ensures Is(s, j, QUOTE) && ParseString(s, j).Parsed?
    ensures var key := ParseString(s, j);
            var k := SkipWhitespace(s, key.next);
            && Is(s, k, COLON) && ParseValue(s, SkipWhitespace(s, k + 1), depth).Parsed?
            && var o := ParseValue(s, SkipWhitespace(s, k + 1), depth);
               ParseMember(s, j, depth) == Parsed(o.next, Member(key.value, o.value))
  {
    hide ParseValue, SkipWhitespace, FindEnd, Unescape, CString;
  }

  /** The white space around the value's end is still to be found. */
  lemma {:induction false} EntryWasSpelled(s: bytes, p: nat, depth: nat) returns (e: Entry)
    requires p <= |s| && ParseMember(s, SkipWhitespace(s, p), depth).Parsed?
    requires Ends(s, ParseMember(s, SkipWhitespace(s, p), depth).next)
    ensures e.after == [] && GoodEntry(e) && Good(e.value) && At(s, p, Front(e) + Render(e.value))
    ensures ParseMember(s, SkipWhitespace(s, p), depth)
         == Parsed(p + |Front(e)| + |Render(e.value)|, Member(e.name, Meaning(e.value)))
    decreases |s| - p, 2
  {
    hide At, SkipWhitespace, Render, Good, ParseMember, ParseString, ParseValue, Meaning, IsLiteral, White;
    var j := SkipWhitespace(s, p);
    MemberWasParsed(s, j, depth);
    var key := ParseString(s, j);
    var k := SkipWhitespace(s, key.next);
    var v := SkipWhitespace(s, k + 1);
    ValueAhead(s, v, depth);
    WhiteBefore(s, p, QUOTE);
    WhiteBefore(s, key.next, COLON);
    WhiteBefore(s, k + 1, s[v]);
    LiteralWasRead(s, j);
    var value := ValueWasSpelled(s, v, depth);
    e := Entry(s[p..j], s[j..key.next], key.value, s[key.next..k], s[k + 1..v], value, []);
    NoWhite();
    FrontLies(s, p, e);
    AtParts(s, p, Front(e), Render(value));
  }

  lemma FrontLies(s: bytes, p: nat, e: Entry)
    requires At(s, p, e.before)
    requires var j := p + |e.before|;
             && At(s, j, e.key) && At(s, j + |e.key|, e.afterKey)
             && var k := j + |e.key| + |e.afterKey|; At(s, k, [COLON]) && At(s, k + 1, e.beforeValue)
    ensures At(s, p, Front(e))
    ensures |Front(e)| == |e.before| + |e.key| + |e.afterKey| + 1 + |e.beforeValue|
  {
    hide At;
    AtFourParts(s, p, e.before, e.key, e.afterKey, [COLON] + e.beforeValue);
    AtParts(s, p + |e.before| + |e.key| + |e.afterKey|, [COLON], e.beforeValue);
  }

  lemma MembersWereParsed(s: bytes, j: nat, depth: nat)
    requires j <= |s| && ParseMembers(s, j, depth).Parsed?
    ensures ParseMember(s, j, depth).Parsed?
    ensures var r := ParseMember(s, j, depth);
            var k := SkipWhitespace(s, r.next);
            if Is(s, k, COMMA) then
              var o := ParseMembers(s, SkipWhitespace(s, k + 1), depth);
              o.Parsed? && ParseMembers(s, j, depth) == Parsed(o.next, [r.value] + o.value)
            else Is(s, k, CLOSE_OBJECT) && ParseMembers(s, j, depth) == Parsed(k + 1, [r.value])
  {
    hide ParseMember, SkipWhitespace;
  }

  lemma EntriesFrom(e: Entry, rest: seq<Entry>)
    requires GoodEntry(e) && Good(e.value) && GoodEntries(rest)
    ensures GoodEntries([e] + rest)
    ensures EntriesMeaning([e] + rest) == [Member(e.name, Meaning(e.value))] + EntriesMeaning(rest)
    ensures ([e] + rest)[1..] == rest
    ensures RenderEntries([e] + rest) == Front(e) + (Render(e.value) + (e.after + MoreEntries(rest)))
  {
    hide White, Good, Meaning, Render, IsLiteral;
    assert ([e] + rest)[1..] == rest;
  }

  lemma WithAfter(e: Entry, w: bytes)
    requires GoodEntry(e) && White(w)
    ensures GoodEntry(e.(after := w)) && Front(e.(after := w)) == Front(e)
  {}

  lemma {:induction false} EntriesWereSpelled(s: bytes, p: nat, depth: nat) returns (entries: seq<Entry>)
    requires p <= |s| && ParseMembers(s, SkipWhitespace(s, p), depth).Parsed?
    ensures entries != [] && GoodEntries(entries) && At(s, p, RenderEntries(entries) + [CLOSE_OBJECT])
    ensures ParseMembers(s, SkipWhitespace(s, p), depth) == Parsed(p + |RenderEntries(entries)| + 1, EntriesMeaning(entries))
    decreases |s| - p, 3
  {
    hide At, SkipWhitespace, RenderEntries, Render, GoodEntries, GoodEntry, Good, Front, ParseMembers, ParseMember, Meaning, EntriesMeaning, White;
    var j := SkipWhitespace(s, p);
    var o := ParseMember(s, j, depth);
    MembersWereParsed(s, j, depth);
    var k := SkipWhitespace(s, o.next);
    WhiteBefore(s, o.next, s[k]);
    EndsBefore(s, o.next, s[o.next..k]);
    var front := EntryWasSpelled(s, p, depth);
    var e := front.(after := s[o.next..k]);
    WithAfter(front, e.after);
    var rest := [];
    if s[k] == COMMA {
      rest := EntriesWereSpelled(s, k + 1, depth);
    }
    GoodNothing();
    NothingWritten();
    EntriesFrom(e, rest);
    entries := [e] + rest;
    EntriesLayout(s, p, entries);
    assert rest == [] ==> [o.value] + [] == [o.value];
  }
}
