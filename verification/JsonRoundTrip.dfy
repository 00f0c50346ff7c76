/** What the printer of cjson.c writes is one of the ways to write the tree, so its parser reads it back. */
module JsonRoundTrip {
  import opened Bytes
  import opened JsonString
  import opened JsonTree
  import opened JsonGrammar
  import opened JsonTokens
  import opened JsonSpelling
  import opened JsonDocuments

  // ---------------------------------------------------------------------------------------------
  // How the printer writes a tree
  // ---------------------------------------------------------------------------------------------

  function SpellingOf(v: Json, fmt: bool, depth: nat): Spelling
    decreases v
  {
    match v
    case Num(n) => Number(Decimal(n), n)
    case Str(t) => Literal(Quoted(t), t)
    case Arr(items) => ArrayText([], ElementsOf(items, fmt, depth + 1, []))
    case Obj(members) => ObjectText(LineEnd(fmt, depth), EntriesOf(members, fmt, depth))
    case _ => Name(v)
  }

  /** before: what stands in front of the first item. */
  function ElementsOf(items: seq<Json>, fmt: bool, depth: nat, before: bytes): (r: seq<Element>)
    ensures |r| == |items|
    decreases items
  {
    if items == [] then []
    else [Element(before, SpellingOf(items[0], fmt, depth), [])] + ElementsOf(items[1..], fmt, depth, Blank(fmt, 32))
  }

  /** A line break and as many tabs as containers are open. */
  function LineEnd(fmt: bool, depth: nat): bytes {
    if fmt then [10] + seq(depth, _ => 9) else []
  }

  function Blank(fmt: bool, c: byte): bytes {
    if fmt then [c] else []
  }

  lemma LineEndIs(fmt: bool, depth: nat)
    ensures LineEnd(fmt, depth) == Only(fmt, LF) + Tabs(fmt, depth)
    ensures Blank(fmt, 32) == Only(fmt, SP) && Blank(fmt, 9) == Only(fmt, TAB)
  {}

  function EntryOf(key: cstring, value: Spelling, fmt: bool, depth: nat, last: bool): Entry {
    Entry(LineEnd(fmt, depth + 1), Quoted(key), key, [], Blank(fmt, 9), value, if last then LineEnd(fmt, depth) else [])
  }

  function EntriesOf(members: seq<Member>, fmt: bool, depth: nat): (r: seq<Entry>)
    ensures |r| == |members|
    decreases members
  {
    if members == [] then []
    else
      var m := members[0];
      [EntryOf(m.key, SpellingOf(m.value, fmt, depth + 1), fmt, depth, |members| == 1)] + EntriesOf(members[1..], fmt, depth)
  }

  lemma SomeWhite(fmt: bool, depth: nat)
    ensures White([]) && White(LineEnd(fmt, depth)) && White(Blank(fmt, 32)) && White(Blank(fmt, 9))
  {}

  /** It is a way to write this tree, and the text is what the printer puts out. */
  lemma {:induction false} PrinterSpells(v: Json, fmt: bool, depth: nat)
    ensures var sp := SpellingOf(v, fmt, depth); Good(sp) && Meaning(sp) == v && Render(sp) == Text(v, fmt, depth)
    decreases v
  {
    hide White, IsDecimal, IsLiteral, RenderItems, ItemsText, GoodItems, ItemsMeaning, RenderEntries, MembersText, GoodEntries, EntriesMeaning;
    hide Quoted, Decimal, Tabs, LineEnd;
    NamesAre();
    match v {
      case Num(n) =>
        PrintedIsDecimal(n);
      case Str(t) =>
        QuotedIsLiteral(t);
      case Arr(items) =>
        SomeWhite(fmt, depth);
        ItemsSpelled(items, fmt, depth + 1, []);
        ArraySpelled(items, fmt, depth);
      case Obj(members) =>
        SomeWhite(fmt, depth);
        MembersSpelled(members, fmt, depth);
        ObjectSpelled(members, fmt, depth);
      case _ =>
    }
  }

  lemma ArraySpelled(items: seq<Json>, fmt: bool, depth: nat)
    ensures ItemsText([], fmt, depth + 1) == [] && [] + ItemsText(items, fmt, depth + 1) == ItemsText(items, fmt, depth + 1)
    ensures [OPEN_ARRAY] + (ItemsText(items, fmt, depth + 1) + [CLOSE_ARRAY]) == Text(Arr(items), fmt, depth)
  {
    NoItems([], fmt, depth + 1);
    hide ItemsText;
  }

  /** The parts of an object are the same bytes however they are grouped. */
  lemma ObjectSpelled(members: seq<Member>, fmt: bool, depth: nat)
    ensures var body := if members == [] then LineEnd(fmt, depth) else Only(fmt, LF) + MembersText(members, fmt, depth + 1) + Tabs(fmt, depth);
            [OPEN_OBJECT] + (body + [CLOSE_OBJECT]) == Text(Obj(members), fmt, depth)
  {
    hide Tabs, MembersText;
    LineEndIs(fmt, depth);
    NoMembers([], fmt, depth + 1);
    RegroupObject(Only(fmt, LF), MembersText(members, fmt, depth + 1), Tabs(fmt, depth));
  }

  lemma RegroupObject(lf: bytes, text: bytes, tabs: bytes)
    ensures [OPEN_OBJECT] + (lf + text + tabs + [CLOSE_OBJECT]) == [OPEN_OBJECT] + lf + text + (tabs + [CLOSE_OBJECT])
    ensures [OPEN_OBJECT] + (lf + tabs + [CLOSE_OBJECT]) == [OPEN_OBJECT] + lf + [] + (tabs + [CLOSE_OBJECT])
  {}

  lemma {:induction false} ItemsSpelled(items: seq<Json>, fmt: bool, depth: nat, before: bytes)
    requires White(before)
    ensures var es := ElementsOf(items, fmt, depth, before);
            && GoodItems(es) && ItemsMeaning(es) == items
            && RenderItems(es) == (if items == [] then [] else before + ItemsText(items, fmt, depth))
    decreases items
  {
    hide White, SpellingOf, Text, Good, Meaning, Render, RenderItems, GoodItems, ItemsMeaning, MoreItems;
    if items == [] {
      GoodNothing();
      NothingWritten();
    } else {
      var rest := ElementsOf(items[1..], fmt, depth, Blank(fmt, 32));
      SomeWhite(fmt, depth);
      PrinterSpells(items[0], fmt, depth);
      ItemsSpelled(items[1..], fmt, depth, Blank(fmt, 32));
      ItemsFrom(Element(before, SpellingOf(items[0], fmt, depth), []), rest);
      ItemsGoOn(items, fmt, depth, rest);
      assert [items[0]] + items[1..] == items;
    }
  }

  lemma ItemsGoOn(items: seq<Json>, fmt: bool, depth: nat, rest: seq<Element>)
    requires items != [] && |rest| == |items| - 1
    requires |items| > 1 ==> RenderItems(rest) == Blank(fmt, 32) + ItemsText(items[1..], fmt, depth)
    ensures ItemsText(items, fmt, depth) == Text(items[0], fmt, depth) + ([] + MoreItems(rest))
  {
    hide Text, RenderItems;
  }

  lemma {:induction false} MembersSpelled(members: seq<Member>, fmt: bool, depth: nat)
    ensures var es := EntriesOf(members, fmt, depth);
            && GoodEntries(es) && EntriesMeaning(es) == members
            && RenderEntries(es) == (if members == [] then [] else Only(fmt, LF) + MembersText(members, fmt, depth + 1) + Tabs(fmt, depth))
    decreases members
  {
    hide White, SpellingOf, Text, Good, Meaning, Render, RenderEntries, GoodEntries, EntriesMeaning, MoreEntries, MembersText, Front, GoodEntry, EntryOf, Quoted, Tabs;
    if members == [] {
      GoodNothing();
      NothingWritten();
    } else {
      var m, rest := members[0], EntriesOf(members[1..], fmt, depth);
      var e := EntryOf(m.key, SpellingOf(m.value, fmt, depth + 1), fmt, depth, |members| == 1);
      PrinterSpells(m.value, fmt, depth + 1);
      EntrySpelled(m, fmt, depth, |members| == 1);
      MembersSpelled(members[1..], fmt, depth);
      EntriesFrom(e, rest);
      MembersGoOn(members, fmt, depth, e, rest);
      assert [m] + members[1..] == members;
    }
  }

  lemma EntrySpelled(m: Member, fmt: bool, depth: nat, last: bool)
    ensures var e := EntryOf(m.key, SpellingOf(m.value, fmt, depth + 1), fmt, depth, last);
            && GoodEntry(e) && e.name == m.key && e.value == SpellingOf(m.value, fmt, depth + 1)
            && e.after == (if last then Only(fmt, LF) + Tabs(fmt, depth) else [])
            && Front(e) == Only(fmt, LF) + KeyText(m.key, fmt, depth + 1)
  {
    hide White, IsLiteral, Quoted, Tabs, SpellingOf, Only, LineEnd, Blank;
    LineEndIs(fmt, depth);
    LineEndIs(fmt, depth + 1);
    SomeWhite(fmt, depth);
    SomeWhite(fmt, depth + 1);
    QuotedIsLiteral(m.key);
    RegroupKey(Only(fmt, LF), Tabs(fmt, depth + 1), Quoted(m.key), Only(fmt, TAB));
  }

  lemma MembersGoOn(members: seq<Member>, fmt: bool, depth: nat, e: Entry, rest: seq<Entry>)
    requires members != [] && |rest| == |members| - 1
    requires Front(e) == Only(fmt, LF) + KeyText(members[0].key, fmt, depth + 1)
    requires e.after == if |members| == 1 then Only(fmt, LF) + Tabs(fmt, depth) else []
    requires |members| > 1 ==> RenderEntries(rest) == Only(fmt, LF) + MembersText(members[1..], fmt, depth + 1) + Tabs(fmt, depth)
    ensures var text := Text(members[0].value, fmt, depth + 1);
            Front(e) + (text + (e.after + MoreEntries(rest))) == Only(fmt, LF) + MembersText(members, fmt, depth + 1) + Tabs(fmt, depth)
  {
    hide Text, RenderEntries, MoreEntries, MembersText, Front, KeyText, Tabs;
    var key, text, lf, tabs := KeyText(members[0].key, fmt, depth + 1), Text(members[0].value, fmt, depth + 1), Only(fmt, LF), Tabs(fmt, depth);
    var others := MembersText(members[1..], fmt, depth + 1);
    FirstMember(members, fmt, depth + 1);
    MoreFollow(rest);
    if |members| == 1 {
      NoMembers(members[1..], fmt, depth + 1);
      RegroupLast(lf, key, text, tabs);
    } else {
      Regroup(lf, key, text, others, tabs);
    }
  }

  lemma FirstMember(members: seq<Member>, fmt: bool, depth: nat)
    requires members != []
    ensures MembersText(members, fmt, depth)
         == KeyText(members[0].key, fmt, depth) + Text(members[0].value, fmt, depth) + ((if |members| > 1 then [COMMA] else []) + Only(fmt, LF))
            + MembersText(members[1..], fmt, depth)
  {
    hide KeyText, Text;
  }

  lemma MoreFollow(rest: seq<Entry>)
    ensures MoreEntries(rest) == if rest == [] then [] else [COMMA] + RenderEntries(rest)
  {}

  lemma RegroupLast(lf: bytes, key: bytes, text: bytes, tabs: bytes)
    ensures lf + key + (text + (lf + tabs + [])) == lf + (key + text + ([] + lf) + []) + tabs
  {}

  lemma Regroup(lf: bytes, key: bytes, text: bytes, others: bytes, tabs: bytes)
    ensures lf + key + (text + ([] + ([COMMA] + (lf + others + tabs)))) == lf + (key + text + ([COMMA] + lf) + others) + tabs
  {}

  lemma RegroupKey(lf: bytes, tabs: bytes, key: bytes, blank: bytes)
    ensures lf + tabs + (key + ([] + ([COLON] + blank))) == lf + (tabs + key + [COLON] + blank)
  {}

  // ---------------------------------------------------------------------------------------------
  // Documents
  // ---------------------------------------------------------------------------------------------

  /** Printing a tree, formatted or not, and parsing the text gives the tree back, with the whole text consumed,
      exactly when the tree is nested at most 1000 deep; a deeper tree is refused. cJSON_Parse hands the text
      over with its terminator, cJSON_ParseWithLength may leave it out. */
  lemma TreeRoundTrip(v: Json, fmt: bool, requireNullTerminated: bool)
    ensures var text := Text(v, fmt, 0);
            && ParseDocument(text + [0], requireNullTerminated) == Verdict(Height(v) <= 1000, |text|, v)
            && ParseDocument(text, false) == Verdict(Height(v) <= 1000, |text|, v)
  {
    hide Text, ParseDocument, Height, Good, Meaning, Render, SpellingOf;
    var text, d := Text(v, fmt, 0), Document(false, [], SpellingOf(v, fmt, 0), []);
    PrinterSpells(v, fmt, 0);
    SomeWhite(fmt, 0);
    assert UpToValue(d) == text && Written(d) == text;
    DocumentReads(d);
    WholeAt(text);
    PrefixReads(text, d);
  }
}
