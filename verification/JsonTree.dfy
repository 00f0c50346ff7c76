/** JSON trees with 32-bit numbers, and the text that cjson.c prints for them. */
module JsonTree {
  import opened Bytes
  import opened JsonString

  type int32 = n: int | -0x8000_0000 <= n <= 0x7fff_ffff

  /** A C string: the bytes before its terminator. */
  type cstring = t: bytes | forall i | 0 <= i < |t| :: t[i] != 0

  datatype Json =
    | Null
    | False
    | True
    | Num(n: int32)
    | Str(t: cstring)
    | Arr(items: seq<Json>)
    | Obj(members: seq<Member>)

  datatype Member = Member(key: cstring, value: Json)

  const NESTING_LIMIT: nat := 1000

  // ---------------------------------------------------------------------------------------------
  // Text
  // ---------------------------------------------------------------------------------------------

  const NULL_TEXT: bytes := ['n' as int, 'u' as int, 'l' as int, 'l' as int]
  const FALSE_TEXT: bytes := ['f' as int, 'a' as int, 'l' as int, 's' as int, 'e' as int]
  const TRUE_TEXT: bytes := ['t' as int, 'r' as int, 'u' as int, 'e' as int]
  const COMMA: byte := ',' as int
  const COLON: byte := ':' as int
  const OPEN_ARRAY: byte := '[' as int
  const CLOSE_ARRAY: byte := ']' as int
  const OPEN_OBJECT: byte := '{' as int
  const CLOSE_OBJECT: byte := '}' as int
  const MINUS: byte := '-' as int

  function Digits(n: nat): (r: bytes)
    ensures |r| > 0
  {
    if n < 10 then ['0' as int + n] else Digits(n / 10) + ['0' as int + n % 10]
  }

  function Magnitude(n: int): nat {
    if n < 0 then -n else n
  }

  function Decimal(n: int): (r: bytes)
    ensures |r| > 0
  {
    if n < 0 then [MINUS] + Digits(Magnitude(n)) else Digits(n)
  }

  /** c when the text is formatted. */
  function Only(fmt: bool, c: byte): bytes {
    if fmt then [c] else []
  }

  function Tabs(fmt: bool, n: nat): (r: bytes)
    ensures forall i | 0 <= i < |r| :: r[i] == TAB
  {
    if fmt then seq(n, _ => TAB) else []
  }

  /** The text of a value; depth is the number of containers around it. */
  function Text(v: Json, fmt: bool, depth: nat): bytes
    decreases v
  {
    match v
    case Null => NULL_TEXT
    case False => FALSE_TEXT
    case True => TRUE_TEXT
    case Num(n) => Decimal(n)
    case Str(t) => Quoted(t)
    case Arr(items) => [OPEN_ARRAY] + ItemsText(items, fmt, depth + 1) + [CLOSE_ARRAY]
    case Obj(members) => [OPEN_OBJECT] + Only(fmt, LF) + MembersText(members, fmt, depth + 1) + ObjectEnd(fmt, depth)
  }

  function ObjectEnd(fmt: bool, depth: nat): bytes {
    Tabs(fmt, depth) + [CLOSE_OBJECT]
  }

  /** What stands between an item and the next one. */
  function ItemSeparator(fmt: bool, more: bool): bytes {
    if more then [COMMA] + Only(fmt, SP) else []
  }

  function ItemsText(items: seq<Json>, fmt: bool, depth: nat): bytes
    decreases items
  {
    if items == [] then []
    else Text(items[0], fmt, depth) + ItemSeparator(fmt, |items| > 1) + ItemsText(items[1..], fmt, depth)
  }

  function MemberSeparator(fmt: bool, more: bool): bytes {
    (if more then [COMMA] else []) + Only(fmt, LF)
  }

  function KeyText(key: bytes, fmt: bool, depth: nat): bytes {
    Tabs(fmt, depth) + Quoted(key) + [COLON] + Only(fmt, TAB)
  }

  function MembersText(members: seq<Member>, fmt: bool, depth: nat): bytes
    decreases members
  {
    if members == [] then []
    else KeyText(members[0].key, fmt, depth) + Text(members[0].value, fmt, depth) + MemberSeparator(fmt, |members| > 1)
         + MembersText(members[1..], fmt, depth)
  }

  // ---------------------------------------------------------------------------------------------
  // Nesting
  // ---------------------------------------------------------------------------------------------

  function Max(a: nat, b: nat): nat {
    if a < b then b else a
  }

  /** How many containers deep a value is. */
  function Height(v: Json): nat
    decreases v
  {
    match v
    case Arr(items) => 1 + ItemsHeight(items)
    case Obj(members) => 1 + MembersHeight(members)
    case _ => 0
  }

  function ItemsHeight(items: seq<Json>): nat
    decreases items
  {
    if items == [] then 0 else Max(Height(items[0]), ItemsHeight(items[1..]))
  }

  function MembersHeight(members: seq<Member>): nat
    decreases members
  {
    if members == [] then 0 else Max(Height(members[0].value), MembersHeight(members[1..]))
  }

  lemma NoItems(items: seq<Json>, fmt: bool, depth: nat)
    requires |items| == 0
    ensures ItemsText(items, fmt, depth) == [] && ItemsHeight(items) == 0
  {}

  lemma NoMembers(members: seq<Member>, fmt: bool, depth: nat)
    requires |members| == 0
    ensures MembersText(members, fmt, depth) == [] && MembersHeight(members) == 0
  {}

  // ---------------------------------------------------------------------------------------------
  // The text holds no terminator, and starts with a character that is no white space
  // ---------------------------------------------------------------------------------------------

  predicate NoNul(t: bytes) {
    forall i | 0 <= i < |t| :: t[i] != 0
  }

  lemma NoNulConcat(a: bytes, b: bytes)
    requires NoNul(a) && NoNul(b)
    ensures NoNul(a + b)
  {}

  lemma {:induction false} DigitsRange(n: nat)
    ensures forall i | 0 <= i < |Digits(n)| :: '0' as int <= Digits(n)[i] <= '9' as int
  {
    if n >= 10 {
      DigitsRange(n / 10);
    }
  }

  lemma {:induction false} EscapedHasNoNul(t: bytes)
    ensures NoNul(Escaped(t))
    decreases t
  {
    if t != [] {
      EscapedHasNoNul(t[1..]);
      NoNulConcat(EscapeByte(t[0]), Escaped(t[1..]));
    }
  }

  lemma QuotedHasNoNul(t: bytes)
    ensures NoNul(Quoted(t))
  {
    EscapedHasNoNul(t);
  }

  lemma FirstByte(v: Json, fmt: bool, depth: nat)
    ensures |Text(v, fmt, depth)| > 0
    ensures 32 < Text(v, fmt, depth)[0] < 127
    ensures Text(v, fmt, depth)[0] != CLOSE_ARRAY && Text(v, fmt, depth)[0] != CLOSE_OBJECT
  {
    if v.Num? {
      DigitsRange(Magnitude(v.n));
    }
  }

  lemma {:induction false} TextHasNoNul(v: Json, fmt: bool, depth: nat)
    ensures NoNul(Text(v, fmt, depth))
    decreases v
  {
    match v {
      case Num(n) =>
        DigitsRange(Magnitude(n));
      case Str(t) =>
        QuotedHasNoNul(t);
      case Arr(items) =>
        ItemsHaveNoNul(items, fmt, depth + 1);
      case Obj(members) =>
        MembersHaveNoNul(members, fmt, depth + 1);
        NoNulConcat([OPEN_OBJECT] + Only(fmt, LF), MembersText(members, fmt, depth + 1));
        NoNulConcat([OPEN_OBJECT] + Only(fmt, LF) + MembersText(members, fmt, depth + 1), ObjectEnd(fmt, depth));
      case _ =>
    }
  }

  lemma {:induction false} ItemsHaveNoNul(items: seq<Json>, fmt: bool, depth: nat)
    ensures NoNul(ItemsText(items, fmt, depth))
    decreases items
  {
    if items != [] {
      TextHasNoNul(items[0], fmt, depth);
      ItemsHaveNoNul(items[1..], fmt, depth);
      NoNulConcat(Text(items[0], fmt, depth), ItemSeparator(fmt, |items| > 1));
      NoNulConcat(Text(items[0], fmt, depth) + ItemSeparator(fmt, |items| > 1), ItemsText(items[1..], fmt, depth));
    }
  }

  lemma KeyHasNoNul(key: bytes, fmt: bool, depth: nat)
    ensures NoNul(KeyText(key, fmt, depth))
  {
    QuotedHasNoNul(key);
    NoNulConcat(Tabs(fmt, depth), Quoted(key));
  }

  lemma {:induction false} MembersHaveNoNul(members: seq<Member>, fmt: bool, depth: nat)
    ensures NoNul(MembersText(members, fmt, depth))
    decreases members
  {
    if members != [] {
      var key, value, sep := KeyText(members[0].key, fmt, depth), Text(members[0].value, fmt, depth), MemberSeparator(fmt, |members| > 1);
      KeyHasNoNul(members[0].key, fmt, depth);
      TextHasNoNul(members[0].value, fmt, depth);
      MembersHaveNoNul(members[1..], fmt, depth);
      NoNulConcat(key, value);
      NoNulConcat(key + value, sep);
      NoNulConcat(key + value + sep, MembersText(members[1..], fmt, depth));
    }
  }
}
