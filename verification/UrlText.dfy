/** The URLs that are accepted, written out from their fields. */
module UrlText {
  import opened Bytes
  import opened UrlSplitter

  // ---------------------------------------------------------------------------------------------
  // Field sets and their texts
  // ---------------------------------------------------------------------------------------------

  predicate Without(t: bytes, chars: string) {
    forall k | 0 <= k < |t| :: t[k] as char !in chars
  }

  predicate FieldWithout(field: Option<bytes>, chars: string) {
    field.Some? ==> Without(field.value, chars)
  }

  predicate IsLowerSchemeChar(c: byte) {
    'a' <= c as char <= 'z' || c as char in "+-."
  }

  predicate GoodScheme(t: bytes) {
    forall k | 0 <= k < |t| :: IsLowerSchemeChar(t[k])
  }

  predicate GoodUser(u: UserInfo) {
    (u.username.None? ==> u.password.None?) && FieldWithout(u.username, ":@/") && FieldWithout(u.password, "@/")
  }

  /** A host in brackets, which may not be closed when nothing follows; else one without colon and slash. */
  predicate GoodHost(h: bytes, last: bool) {
    && |h| > 0
    && if h[0] as char == '[' then
         Without(h[..|h| - 1], "]") && (h[|h| - 1] as char == ']' || last)
       else Without(h, ":/")
  }

  predicate GoodTail(t: Tail) {
    && (t.path.None? ==> t.query.None? && t.fragment.None?)
    && FieldWithout(t.path, "#?") && FieldWithout(t.query, "#")
  }

  /** A slash comes before any at sign. */
  predicate SlashFirst(t: bytes) {
    forall k | 0 <= k < |t| && t[k] as char == '@' :: exists j | 0 <= j < k :: t[j] as char == '/'
  }

  predicate WellFormed(u: Url) {
    && GoodScheme(u.scheme) && GoodUser(u.user) && GoodHost(u.host, u.port.None? && u.tail.path.None?)
    && FieldWithout(u.port, "/") && GoodTail(u.tail)
    && (u.user.username.None? ==> SlashFirst(RestText(u)))
  }

  /** A field behind its mark, or nothing. */
  function Field(mark: string, field: Option<bytes>): bytes
    requires forall k | 0 <= k < |mark| :: mark[k] as int < 256
  {
    match field case None => [] case Some(t) => Ascii(mark) + t
  }

  function UserText(u: UserInfo): bytes {
    match u.username
    case None => []
    case Some(name) => name + Field(":", u.password) + Ascii("@")
  }

  function RestText(u: Url): bytes {
    u.host + (Field(":", u.port) + (Field("/", u.tail.path) + (Field("?", u.tail.query) + Field("#", u.tail.fragment))))
  }

  function Text(u: Url): bytes {
    u.scheme + Ascii("://") + (UserText(u.user) + RestText(u))
  }

  /** The same with lower-case letters before the first colon. */
  function LowerCased(s: bytes): bytes {
    seq(|s|, k requires 0 <= k < |s| => if 'A' <= s[k] as char <= 'Z' && Without(s[..k], ":") then s[k] + 32 else s[k])
  }

  // ---------------------------------------------------------------------------------------------
  // They are what the stages take
  // ---------------------------------------------------------------------------------------------

  lemma CharsAre(c: byte)
    ensures IsColon(c) <==> c as char in ":"
    ensures IsSlash(c) <==> c as char in "/"
    ensures IsAt(c) <==> c as char in "@"
    ensures IsClose(c) <==> c as char in "]"
    ensures IsHash(c) <==> c as char in "#"
    ensures AtOrSlash(c) <==> c as char in "@/"
    ensures ColonOrSlash(c) <==> c as char in ":/"
    ensures HashOrQuestion(c) <==> c as char in "#?"
    ensures UserDelimiter(c) <==> c as char in ":@/"
    ensures c == OPEN <==> c as char == '['
  {}

  lemma SchemeCharIs(c: byte)
    ensures IsSchemeChar(c) <==> 'a' <= c as char <= 'z' || 'A' <= c as char <= 'Z' || c as char in "+-."
    ensures ToLower(c) == if 'A' <= c as char <= 'Z' then c + 32 else c
    ensures IsLowerSchemeChar(c) <==> IsSchemeChar(c) && ToLower(c) == c
  {}

  lemma FreeIs(t: bytes)
    ensures Without(t, ":") <==> Free(t, IsColon)
    ensures Without(t, "/") <==> Free(t, IsSlash)
    ensures Without(t, "]") <==> Free(t, IsClose)
    ensures Without(t, "#") <==> Free(t, IsHash)
    ensures Without(t, "@/") <==> Free(t, AtOrSlash)
    ensures Without(t, ":/") <==> Free(t, ColonOrSlash)
    ensures Without(t, "#?") <==> Free(t, HashOrQuestion)
    ensures Without(t, ":@/") <==> Free(t, UserDelimiter)
  {
    hide IsColon, IsSlash, IsAt, IsClose, IsHash, AtOrSlash, ColonOrSlash, HashOrQuestion, UserDelimiter;
    forall k | 0 <= k < |t|
      ensures IsColon(t[k]) <==> t[k] as char in ":"
      ensures IsSlash(t[k]) <==> t[k] as char in "/"
      ensures IsClose(t[k]) <==> t[k] as char in "]"
      ensures IsHash(t[k]) <==> t[k] as char in "#"
      ensures AtOrSlash(t[k]) <==> t[k] as char in "@/"
      ensures ColonOrSlash(t[k]) <==> t[k] as char in ":/"
      ensures HashOrQuestion(t[k]) <==> t[k] as char in "#?"
      ensures UserDelimiter(t[k]) <==> t[k] as char in ":@/"
    {
      CharsAre(t[k]);
    }
  }

  lemma SchemeIs(t: bytes)
    ensures GoodScheme(t) <==> TakenScheme(t)
  {
    hide IsLowerSchemeChar, IsSchemeChar, ToLower;
    forall k | 0 <= k < |t| ensures IsLowerSchemeChar(t[k]) <==> IsSchemeChar(t[k]) && ToLower(t[k]) == t[k] {
      SchemeCharIs(t[k]);
    }
  }

  lemma FieldIs(field: Option<bytes>)
    ensures FieldWithout(field, "/") <==> FreeOf(field, IsSlash)
    ensures FieldWithout(field, "#") <==> FreeOf(field, IsHash)
    ensures FieldWithout(field, "@/") <==> FreeOf(field, AtOrSlash)
    ensures FieldWithout(field, "#?") <==> FreeOf(field, HashOrQuestion)
    ensures FieldWithout(field, ":@/") <==> FreeOf(field, UserDelimiter)
  {
    hide Without, Free;
    if field.Some? {
      FreeIs(field.value);
    }
  }

  lemma HostIs(h: bytes, last: bool)
    ensures GoodHost(h, last) <==> TakenHost(h, last)
  {
    hide Without, Scan;
    if |h| > 0 {
      CharsAre(h[0]);
      CharsAre(h[|h| - 1]);
      FreeIs(h);
      var front := h[..|h| - 1];
      FreeIs(front);
      var c := Scan(h, 0, IsClose);
      if Free(front, IsClose) {
        forall k | 0 <= k < |front| ensures !IsClose(h[k]) {
          assert front[k] == h[k];
        }
        ScanUnique(h, 0, IsClose, if IsClose(h[|h| - 1]) then |h| - 1 else |h|);
      }
    }
  }

  lemma RestIs(t: bytes)
    ensures SlashFirst(t) <==> TakenRest(t)
  {
    hide Scan;
    var a := Scan(t, 0, AtOrSlash);
    if TakenRest(t) {
      forall k | 0 <= k < |t| && t[k] as char == '@' ensures exists j | 0 <= j < k :: t[j] as char == '/' {
        assert AtOrSlash(t[k]);
        assert a < k && t[a] as char == '/';
      }
    } else {
      assert a < |t| && t[a] as char == '@';
      forall j | 0 <= j < a ensures t[j] as char != '/' {
        assert !AtOrSlash(t[j]);
      }
    }
  }

  lemma MarkIs(mark: string, c: byte, field: Option<bytes>)
    requires |mark| == 1 && mark[0] as int == c
    ensures Field(mark, field) == Marked([c], field)
  {
    assert Ascii(mark) == [c];
  }

  lemma RestTextIs(u: Url)
    ensures RestText(u) == JoinRest(u)
  {
    hide Ascii, Marked, Field;
    MarkIs(":", COLON, u.port);
    MarkIs("/", SLASH, u.tail.path);
    MarkIs("?", QUESTION, u.tail.query);
    MarkIs("#", HASH, u.tail.fragment);
  }

  lemma TextIs(u: Url)
    ensures Text(u) == Join(u)
  {
    hide RestText, JoinRest, Field, Marked;
    RestTextIs(u);
    MarkIs(":", COLON, u.user.password);
    assert Ascii("://") == COLON_SLASHES && Ascii("@") == [AT];
  }

  lemma WellFormedIs(u: Url)
    ensures WellFormed(u) <==> Taken(u)
  {
    hide GoodScheme, TakenScheme, GoodHost, TakenHost, FieldWithout, FreeOf, SlashFirst, TakenRest, RestText, JoinRest;
    SchemeIs(u.scheme);
    FieldIs(u.user.username);
    FieldIs(u.user.password);
    HostIs(u.host, u.port.None? && u.tail.path.None?);
    FieldIs(u.port);
    FieldIs(u.tail.path);
    FieldIs(u.tail.query);
    RestTextIs(u);
    RestIs(RestText(u));
  }

  lemma LowerCasedIs(s: bytes)
    ensures LowerCased(s) == LowerScheme(s)
  {
    hide Lower, Without;
    var c := Scan(s, 0, IsColon);
    forall k | 0 <= k < |s| ensures LowerCased(s)[k] == LowerScheme(s)[k] {
      FreeIs(s[..k]);
      SchemeCharIs(s[k]);
      if k < c {
        assert Free(s[..k], IsColon);
        assert LowerScheme(s)[k] == Lower(s[..c])[k] == ToLower(s[k]);
      } else {
        assert LowerScheme(s)[k] == s[k];
        if k > c {
          assert s[..k][c] == s[c];
        }
      }
    }
  }

  // ---------------------------------------------------------------------------------------------
  // What comes behind the scheme does not depend on it
  // ---------------------------------------------------------------------------------------------

  ghost predicate SameFrom(s: bytes, t: bytes, i: nat) {
    |s| == |t| && forall k | i <= k < |s| :: s[k] == t[k]
  }

  lemma ScanSame(s: bytes, t: bytes, i: nat, j: nat, stop: byte -> bool)
    requires SameFrom(s, t, i) && i <= j <= |s|
    ensures Scan(s, j, stop) == Scan(t, j, stop)
  {
    ScanUnique(t, j, stop, Scan(s, j, stop));
  }

  lemma CutSame(s: bytes, t: bytes, i: nat, a: nat, b: nat, range: nat)
    requires SameFrom(s, t, i) && i <= a <= b <= |s| && range > 0
    ensures Cut(s, a, b, range) == Cut(t, a, b, range)
  {
    assert s[a..b] == t[a..b];
    assert s[a..a + (b - a) % range] == t[a..a + (b - a) % range];
  }

  lemma CharSame(s: bytes, t: bytes, i: nat, j: nat)
    requires SameFrom(s, t, i) && i <= j
    ensures CharAt(s, j) == CharAt(t, j)
  {}

  lemma UserSame(s: bytes, t: bytes, i: nat, cur: nat, range: nat)
    requires SameFrom(s, t, i) && i <= cur <= |s| && range > 0
    ensures ReadUser(s, cur, range) == ReadUser(t, cur, range)
  {
    hide Scan, Cut, CharAt, SameFrom;
    SameLength(s, t, i);
    var a, u := Scan(s, cur, AtOrSlash), Scan(s, cur, ColonOrAt);
    ScanSame(s, t, i, cur, AtOrSlash);
    ScanSame(s, t, i, cur, ColonOrAt);
    CharSame(s, t, i, a);
    if CharAt(s, a) == AT {
      AtBefore(s, cur);
      SameByte(s, t, i, u);
      CutSame(s, t, i, cur, u, range);
      ScanSame(s, t, i, u + 1, IsAt);
      CutSame(s, t, i, u + 1, Scan(s, u + 1, IsAt), range);
    }
  }

  lemma AtBefore(s: bytes, cur: nat)
    requires cur <= |s| && CharAt(s, Scan(s, cur, AtOrSlash)) == AT
    ensures Scan(s, cur, ColonOrAt) < |s|
  {
    assert ColonOrAt(s[Scan(s, cur, AtOrSlash)]);
  }

  lemma SameLength(s: bytes, t: bytes, i: nat)
    requires SameFrom(s, t, i)
    ensures |s| == |t|
  {}

  lemma SameByte(s: bytes, t: bytes, i: nat, k: nat)
    requires SameFrom(s, t, i) && i <= k < |s|
    ensures k < |t| && s[k] == t[k]
  {}

  lemma HostSame(s: bytes, t: bytes, i: nat, cur: nat, range: nat)
    requires SameFrom(s, t, i) && i <= cur <= |s| && range > 0
    ensures ReadHost(s, cur, range) == ReadHost(t, cur, range)
  {
    hide Scan, Cut, CharAt, SameFrom;
    SameLength(s, t, i);
    CharSame(s, t, i, cur);
    ScanSame(s, t, i, cur, IsClose);
    ScanSame(s, t, i, cur, ColonOrSlash);
    CutSame(s, t, i, cur, HostEnd(s, cur), range);
  }

  lemma PortSame(s: bytes, t: bytes, i: nat, cur: nat, range: nat)
    requires SameFrom(s, t, i) && i <= cur <= |s| && range > 0
    ensures ReadPort(s, cur, range) == ReadPort(t, cur, range)
  {
    SameLength(s, t, i);
    CharSame(s, t, i, cur);
    if CharAt(s, cur) == COLON {
      ScanSame(s, t, i, cur + 1, IsSlash);
      CutSame(s, t, i, cur + 1, Scan(s, cur + 1, IsSlash), range);
    }
  }

  lemma TailSame(s: bytes, t: bytes, i: nat, cur: nat, range: nat)
    requires SameFrom(s, t, i) && i <= cur <= |s| && range > 0
    ensures ReadTail(s, cur, range) == ReadTail(t, cur, range)
  {
    hide Scan, Cut, CharAt, SameFrom;
    SameLength(s, t, i);
    if cur < |s| {
      SameByte(s, t, i, cur);
      ScanSame(s, t, i, cur + 1, HashOrQuestion);
      var e := Scan(s, cur + 1, HashOrQuestion);
      CutSame(s, t, i, cur + 1, e, range);
      QuerySame(s, t, i, e, range);
      FragmentSame(s, t, i, ReadQuery(s, e, range).1, range);
    }
  }

  lemma QuerySame(s: bytes, t: bytes, i: nat, cur: nat, range: nat)
    requires SameFrom(s, t, i) && i <= cur <= |s| && range > 0
    ensures ReadQuery(s, cur, range) == ReadQuery(t, cur, range)
  {
    CharSame(s, t, i, cur);
    if CharAt(s, cur) == QUESTION {
      ScanSame(s, t, i, cur + 1, IsHash);
      CutSame(s, t, i, cur + 1, Scan(s, cur + 1, IsHash), range);
    }
  }

  lemma FragmentSame(s: bytes, t: bytes, i: nat, cur: nat, range: nat)
    requires SameFrom(s, t, i) && i <= cur <= |s| && range > 0
    ensures ReadFragment(s, cur, range) == ReadFragment(t, cur, range)
  {
    CharSame(s, t, i, cur);
    if CharAt(s, cur) == HASH {
      CutSame(s, t, i, cur + 1, |s|, range);
    }
  }

  /** The scheme is read in either case. */
  lemma SchemeSame(s: bytes, range: nat)
    requires range > |s|
    ensures var t := LowerScheme(s);
            |t| == |s| && ReadScheme(t, range) == ReadScheme(s, range) && SameFrom(s, t, Scan(s, 0, IsColon))
  {
    var t, c := LowerScheme(s), Scan(s, 0, IsColon);
    forall k | 0 <= k < |s| ensures t[k] == if k < c then ToLower(s[k]) else s[k] {
      if k < c {
        assert t[k] == Lower(s[..c])[k];
      }
    }
    LettersStay();
    assert SameFrom(s, t, c);
    ScanUnique(t, 0, IsColon, c);
    assert s[0..c] == s[..c] && t[0..c] == Lower(s[..c]);
    forall k | 0 <= k < c ensures IsSchemeChar(ToLower(s[k])) <==> IsSchemeChar(s[k]) {}
    LowerTwice(s[..c]);
    SchemeCharsSame(s[..c]);
    CharSame(s, t, c, c + 1);
    CharSame(s, t, c, c + 2);
  }

  lemma LettersStay()
    ensures forall c: byte :: (IsColon(ToLower(c)) <==> IsColon(c)) && (IsSchemeChar(ToLower(c)) <==> IsSchemeChar(c))
  {}

  lemma LowerTwice(t: bytes)
    ensures Lower(Lower(t)) == Lower(t)
  {}

  lemma SchemeCharsSame(t: bytes)
    ensures AllSchemeChars(Lower(t)) <==> AllSchemeChars(t)
  {
    LettersStay();
    hide IsSchemeChar, ToLower;
    if AllSchemeChars(Lower(t)) {
      forall k | 0 <= k < |t| ensures IsSchemeChar(t[k]) {
        assert IsSchemeChar(Lower(t)[k]);
      }
    }
  }

  lemma SplitSame(s: bytes, range: nat)
    requires range > |s|
    ensures Split(LowerScheme(s), range) == Split(s, range)
  {
    hide ReadScheme, ReadUser, ReadHost, ReadPort, ReadTail, SameFrom, LowerScheme;
    SchemeSame(s, range);
    var t, c := LowerScheme(s), Scan(s, 0, IsColon);
    if ReadScheme(s, range).Some? {
      SchemeIsLong(s, range);
      var cur := ReadScheme(s, range).value.1;
      UserSame(s, t, c, cur, range);
      var cur1 := ReadUser(s, cur, range).1;
      HostSame(s, t, c, cur1, range);
      if ReadHost(s, cur1, range).Some? {
        var cur2 := ReadHost(s, cur1, range).value.1;
        PortSame(s, t, c, cur2, range);
        TailSame(s, t, c, ReadPort(s, cur2, range).1, range);
      }
    }
  }

  lemma SchemeIsLong(s: bytes, range: nat)
    requires range > 0 && ReadScheme(s, range).Some?
    ensures Scan(s, 0, IsColon) <= ReadScheme(s, range).value.1
  {}

  // ---------------------------------------------------------------------------------------------
  // The main results
  // ---------------------------------------------------------------------------------------------

  lemma FieldsAreShort(u: Url, range: nat)
    requires |Join(u)| < range && (u.user.username.None? ==> u.user.password.None?)
    ensures FieldsFit(u, range)
  {}

  /** Splitting a URL gives exactly the well-formed fields whose text it is, but for capital letters in its scheme; and
      what is not such a text is refused. */
  lemma UrlsAreTexts(s: bytes, u: Url, range: nat)
    requires range > |s|
    ensures Split(s, range) == Some(u) <==> WellFormed(u) && Text(u) == LowerCased(s)
  {
    hide Split, Taken, WellFormed, Text, Join, LowerCased, LowerScheme, FieldsFit;
    WellFormedIs(u);
    TextIs(u);
    LowerCasedIs(s);
    if Split(s, range) == Some(u) {
      SplitIsTaken(s, range);
      SplitStage(s, range);
    }
    if Taken(u) && Join(u) == LowerScheme(s) {
      LowerLength(s);
      NoPasswordAlone(u);
      FieldsAreShort(u, range);
      SplitOfJoin(u, range);
      SplitSame(s, range);
    }
  }

  lemma LowerLength(s: bytes)
    ensures |LowerScheme(s)| == |s|
  {}

  lemma NoPasswordAlone(u: Url)
    requires Taken(u)
    ensures u.user.username.None? ==> u.user.password.None?
  {}

  /** A URL is refused exactly when it is no such text. */
  lemma RefusedUrls(s: bytes, range: nat)
    requires range > |s|
    ensures Split(s, range).None? <==> !exists u :: WellFormed(u) && Text(u) == LowerCased(s)
  {
    hide Split, WellFormed, Text, LowerCased;
    if Split(s, range).Some? {
      UrlsAreTexts(s, Split(s, range).value, range);
    }
    if u :| WellFormed(u) && Text(u) == LowerCased(s) {
      UrlsAreTexts(s, u, range);
    }
  }
}
