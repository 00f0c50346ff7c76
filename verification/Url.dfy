/** Splitting a URL: url_parse in url_parser.c. */
module UrlSplitter {
  import opened Bytes

  /** The fields of t_URL_DATA; a pointer that stays null is None. */
  datatype Url = Url(scheme: bytes, user: UserInfo, host: bytes, port: Option<bytes>, tail: Tail)

  datatype UserInfo = UserInfo(username: Option<bytes>, password: Option<bytes>)

  datatype Tail = Tail(path: Option<bytes>, query: Option<bytes>, fragment: Option<bytes>)

  const COLON: byte := ':' as int
  const SLASH: byte := '/' as int
  const AT: byte := '@' as int
  const OPEN: byte := '[' as int
  const CLOSE: byte := ']' as int
  const QUESTION: byte := '?' as int
  const HASH: byte := '#' as int

  // A length goes through a uint16_t before it is used.
  const LENGTH_RANGE := 0x1_0000

  /** The byte at i of a C string; the terminator stands behind the last one. */
  function CharAt(s: bytes, i: nat): byte {
    if i < |s| then s[i] else 0
  }

  /** The field between two cursors, as strncpy copies it. */
  function Cut(s: bytes, a: nat, b: nat, range: nat): (t: bytes)
    requires a <= b <= |s| && range > 0
    ensures b - a < range ==> t == s[a..b]
    ensures |t| < range && |t| <= b - a && (|t| == b - a <==> b - a < range)
  {
    s[a..a + (b - a) % range]
  }

  predicate IsSchemeChar(c: byte) {
    || 'a' as int <= c <= 'z' as int || 'A' as int <= c <= 'Z' as int
    || c == '+' as int || c == '-' as int || c == '.' as int
  }

  function ToLower(c: byte): byte {
    if 'A' as int <= c <= 'Z' as int then c + 32 else c
  }

  function Lower(t: bytes): (r: bytes)
    ensures |r| == |t| && forall k | 0 <= k < |t| :: r[k] == ToLower(t[k])
  {
    seq(|t|, k requires 0 <= k < |t| => ToLower(t[k]))
  }

  predicate IsColon(c: byte) { c == COLON }

  predicate IsSlash(c: byte) { c == SLASH }

  predicate IsAt(c: byte) { c == AT }

  predicate IsClose(c: byte) { c == CLOSE }

  predicate IsHash(c: byte) { c == HASH }

  predicate AtOrSlash(c: byte) { c == AT || c == SLASH }

  predicate ColonOrAt(c: byte) { c == COLON || c == AT }

  predicate ColonOrSlash(c: byte) { c == COLON || c == SLASH }

  predicate HashOrQuestion(c: byte) { c == HASH || c == QUESTION }

  // ---------------------------------------------------------------------------------------------
  // The stages: what each one reads and where it leaves the cursor
  // ---------------------------------------------------------------------------------------------

  predicate AllSchemeChars(t: bytes) {
    forall k | 0 <= k < |t| :: IsSchemeChar(t[k])
  }

  /** The scheme, the colon and two slashes. */
  function ReadScheme(s: bytes, range: nat): (r: Option<(bytes, nat)>)
    requires range > 0
    ensures r.Some? ==> 3 <= r.value.1 <= |s|
  {
    var c := Scan(s, 0, IsColon);
    if c == |s| || !AllSchemeChars(Cut(s, 0, c, range)) then None
    else if CharAt(s, c + 1) != SLASH || CharAt(s, c + 2) != SLASH then None
    else Some((Lower(Cut(s, 0, c, range)), c + 3))
  }

  /** User and password, present when an at sign comes before any slash. */
  function ReadUser(s: bytes, cur: nat, range: nat): (r: (UserInfo, nat))
    requires cur <= |s| && range > 0
    ensures cur <= r.1 <= |s| && (r.0.username.None? ==> r.1 == cur)
  {
    var a := Scan(s, cur, AtOrSlash);
    if CharAt(s, a) != AT then (UserInfo(None, None), cur)
    else
      assert ColonOrAt(s[a]);
      var u := Scan(s, cur, ColonOrAt);
      if s[u] == COLON then
        assert IsAt(s[a]);
        var p := Scan(s, u + 1, IsAt);
        (UserInfo(Some(Cut(s, cur, u, range)), Some(Cut(s, u + 1, p, range))), p + 1)
      else
        (UserInfo(Some(Cut(s, cur, u, range)), None), u + 1)
  }

  /** Where the host ends: behind the bracket that closes it, or at a colon or slash. */
  function HostEnd(s: bytes, cur: nat): (e: nat)
    requires cur <= |s|
    ensures cur <= e <= |s|
  {
    if CharAt(s, cur) == OPEN then
      var c := Scan(s, cur, IsClose);
      if c < |s| then c + 1 else c
    else
      Scan(s, cur, ColonOrSlash)
  }

  function ReadHost(s: bytes, cur: nat, range: nat): (r: Option<(bytes, nat)>)
    requires cur <= |s| && range > 0
    ensures r.Some? ==> cur < r.value.1 <= |s|
  {
    var e := HostEnd(s, cur);
    if |Cut(s, cur, e, range)| == 0 then None else Some((Cut(s, cur, e, range), e))
  }

  function ReadPort(s: bytes, cur: nat, range: nat): (r: (Option<bytes>, nat))
    requires cur <= |s| && range > 0
    ensures cur <= r.1 <= |s|
  {
    if CharAt(s, cur) != COLON then (None, cur)
    else
      var e := Scan(s, cur + 1, IsSlash);
      (Some(Cut(s, cur + 1, e, range)), e)
  }

  function ReadQuery(s: bytes, cur: nat, range: nat): (r: (Option<bytes>, nat))
    requires cur <= |s| && range > 0
    ensures cur <= r.1 <= |s|
  {
    if CharAt(s, cur) != QUESTION then (None, cur)
    else
      var e := Scan(s, cur + 1, IsHash);
      (Some(Cut(s, cur + 1, e, range)), e)
  }

  function ReadFragment(s: bytes, cur: nat, range: nat): Option<bytes>
    requires cur <= |s| && range > 0
  {
    if CharAt(s, cur) != HASH then None else Some(Cut(s, cur + 1, |s|, range))
  }

  function ReadTail(s: bytes, cur: nat, range: nat): Option<Tail>
    requires cur <= |s| && range > 0
  {
    if cur == |s| then Some(Tail(None, None, None))
    else if s[cur] != SLASH then None
    else
      var e := Scan(s, cur + 1, HashOrQuestion);
      var (query, f) := ReadQuery(s, e, range);
      Some(Tail(Some(Cut(s, cur + 1, e, range)), query, ReadFragment(s, f, range)))
  }

  function Split(s: bytes, range: nat): Option<Url>
    requires range > 0
  {
    match ReadScheme(s, range)
    case None => None
    case Some((scheme, cur)) =>
      var (user, cur1) := ReadUser(s, cur, range);
      match ReadHost(s, cur1, range)
      case None => None
      case Some((host, cur2)) =>
        var (port, cur3) := ReadPort(s, cur2, range);
        match ReadTail(s, cur3, range)
        case None => None
        case Some(tail) => Some(Url(scheme, user, host, port, tail))
  }

  // ---------------------------------------------------------------------------------------------
  // Joining the fields back
  // ---------------------------------------------------------------------------------------------

  /** A field behind its delimiter; nothing at all for a field that is absent. */
  function Marked(mark: bytes, field: Option<bytes>): bytes {
    match field case None => [] case Some(t) => mark + t
  }

  function JoinUser(u: UserInfo): bytes {
    match u.username
    case None => []
    case Some(name) => name + Marked([COLON], u.password) + [AT]
  }

  function JoinTail(t: Tail): bytes {
    Marked([SLASH], t.path) + (Marked([QUESTION], t.query) + Marked([HASH], t.fragment))
  }

  function JoinRest(u: Url): bytes {
    u.host + (Marked([COLON], u.port) + JoinTail(u.tail))
  }

  const COLON_SLASHES: bytes := [COLON, SLASH, SLASH]

  function Join(u: Url): bytes {
    u.scheme + COLON_SLASHES + (JoinUser(u.user) + JoinRest(u))
  }

  /** The input with its scheme in lower case. */
  function LowerScheme(s: bytes): bytes {
    var c := Scan(s, 0, IsColon);
    Lower(s[..c]) + s[c..]
  }

  // ---------------------------------------------------------------------------------------------
  // Nothing is lost
  // ---------------------------------------------------------------------------------------------

  lemma AtChar(s: bytes, i: nat, c: byte)
    ensures c != 0 ==> (At(s, i, [c]) <==> CharAt(s, i) == c)
  {}

  lemma AtToEnd(s: bytes, i: nat, t: bytes)
    requires At(s, i, t) && i + |t| == |s|
    ensures s[i..] == t
  {}

  /** What a stage read is all there when its joined text is as long as the cursor moved: then no length was
      reduced, and a reader with unbounded lengths would have read the same. */
  lemma SchemeStage(s: bytes, range: nat)
    requires range > 0 && ReadScheme(s, range).Some?
    ensures var (scheme, n) := ReadScheme(s, range).value;
            && |scheme| + 3 <= n == Scan(s, 0, IsColon) + 3 && (range > |s| ==> |scheme| + 3 == n)
            && (|scheme| + 3 == n ==> ReadScheme(s, |s| + 1) == ReadScheme(s, range) && scheme == Lower(s[..n - 3]))
  {
    hide AllSchemeChars, Lower, Cut, Scan;
    var c := Scan(s, 0, IsColon);
    assert s[0..c] == s[..c];
    assert ReadScheme(s, range) == Some((Lower(Cut(s, 0, c, range)), c + 3));
    if |Cut(s, 0, c, range)| == c {
      assert Cut(s, 0, c, range) == Cut(s, 0, c, |s| + 1) == s[..c];
    }
  }

  lemma SlashesStage(s: bytes, range: nat)
    requires range > 0 && ReadScheme(s, range).Some?
    ensures At(s, ReadScheme(s, range).value.1 - 3, COLON_SLASHES)
  {
    hide AllSchemeChars, Lower, Cut, At;
    AtThree(s, Scan(s, 0, IsColon));
  }

  lemma AtThree(s: bytes, c: nat)
    requires CharAt(s, c) == COLON && CharAt(s, c + 1) == SLASH && CharAt(s, c + 2) == SLASH
    ensures At(s, c, COLON_SLASHES)
  {
    assert s[c..c + 3] == COLON_SLASHES;
  }

  lemma UserNameStage(s: bytes, cur: nat, u: nat, range: nat)
    requires cur <= u < |s| && range > 0 && s[u] == AT
    ensures var text := JoinUser(UserInfo(Some(Cut(s, cur, u, range)), None));
            && |text| <= u + 1 - cur && (range > |s| ==> |text| == u + 1 - cur)
            && (|text| == u + 1 - cur ==> At(s, cur, text) && Cut(s, cur, u, range) == Cut(s, cur, u, |s| + 1))
  {
    hide At, Cut;
    var name := Cut(s, cur, u, range);
    if |name| == u - cur {
      AtSlice(s, cur, u);
      AtChar(s, u, AT);
      AtParts(s, cur, name, [AT]);
      assert name + [] == name;
    }
  }

  lemma PasswordStage(s: bytes, cur: nat, u: nat, p: nat, range: nat)
    requires cur <= u < p < |s| && range > 0 && s[u] == COLON && s[p] == AT
    ensures var text := JoinUser(UserInfo(Some(Cut(s, cur, u, range)), Some(Cut(s, u + 1, p, range))));
            && |text| <= p + 1 - cur && (range > |s| ==> |text| == p + 1 - cur)
            && (|text| == p + 1 - cur ==>
                  && At(s, cur, text)
                  && Cut(s, cur, u, range) == Cut(s, cur, u, |s| + 1)
                  && Cut(s, u + 1, p, range) == Cut(s, u + 1, p, |s| + 1))
  {
    hide At, Cut;
    var name, password := Cut(s, cur, u, range), Cut(s, u + 1, p, range);
    if |name| + |password| == p - cur - 1 {
      AtSlice(s, cur, u);
      AtChar(s, u, COLON);
      AtSlice(s, u + 1, p);
      AtChar(s, p, AT);
      AtParts(s, u, [COLON], password);
      AtParts(s, cur, name, [COLON] + password);
      AtParts(s, cur, name + ([COLON] + password), [AT]);
    }
  }

  lemma UserStage(s: bytes, cur: nat, range: nat)
    requires cur <= |s| && range > 0
    ensures var (u, n) := ReadUser(s, cur, range);
            && |JoinUser(u)| <= n - cur && (range > |s| ==> |JoinUser(u)| == n - cur)
            && (|JoinUser(u)| == n - cur ==> At(s, cur, JoinUser(u)) && ReadUser(s, cur, |s| + 1) == (u, n))
  {
    hide JoinUser, Cut;
    var a := Scan(s, cur, AtOrSlash);
    if CharAt(s, a) == AT {
      var u := Scan(s, cur, ColonOrAt);
      assert ColonOrAt(s[a]) && IsAt(s[a]);
      if s[u] == COLON {
        PasswordStage(s, cur, u, Scan(s, u + 1, IsAt), range);
      } else {
        UserNameStage(s, cur, u, range);
      }
    } else {
      NoUserText(s, cur);
    }
  }

  lemma NoUserText(s: bytes, cur: nat)
    requires cur <= |s|
    ensures JoinUser(UserInfo(None, None)) == [] && At(s, cur, [])
  {}

  lemma HostStage(s: bytes, cur: nat, range: nat)
    requires cur <= |s| && range > 0 && ReadHost(s, cur, range).Some?
    ensures var (host, n) := ReadHost(s, cur, range).value;
            && 0 < |host| <= n - cur && (range > |s| ==> |host| == n - cur)
            && (|host| == n - cur ==> At(s, cur, host) && ReadHost(s, cur, |s| + 1) == ReadHost(s, cur, range))
  {}

  lemma PortStage(s: bytes, cur: nat, range: nat)
    requires cur <= |s| && range > 0
    ensures var (port, n) := ReadPort(s, cur, range);
            var text := Marked([COLON], port);
            && |text| <= n - cur && (range > |s| ==> |text| == n - cur)
            && (|text| == n - cur ==> At(s, cur, text) && ReadPort(s, cur, |s| + 1) == (port, n))
  {
    var (port, n) := ReadPort(s, cur, range);
    if port.Some? {
      AtChar(s, cur, COLON);
      AtParts(s, cur, [COLON], port.value);
    }
  }

  lemma QueryStage(s: bytes, cur: nat, range: nat)
    requires cur <= |s| && range > 0
    ensures var (query, n) := ReadQuery(s, cur, range);
            var text := Marked([QUESTION], query);
            && |text| <= n - cur && (range > |s| ==> |text| == n - cur)
            && (|text| == n - cur ==> At(s, cur, text) && ReadQuery(s, cur, |s| + 1) == (query, n))
            && (n == |s| || s[n] == HASH || n == cur)
  {
    var (query, n) := ReadQuery(s, cur, range);
    if query.Some? {
      AtChar(s, cur, QUESTION);
      AtParts(s, cur, [QUESTION], query.value);
    }
  }

  lemma FragmentStage(s: bytes, cur: nat, range: nat)
    requires cur <= |s| && range > 0 && (cur == |s| || s[cur] == HASH)
    ensures var text := Marked([HASH], ReadFragment(s, cur, range));
            && |text| <= |s| - cur && (range > |s| ==> |text| == |s| - cur)
            && (|text| == |s| - cur ==> At(s, cur, text) && ReadFragment(s, cur, |s| + 1) == ReadFragment(s, cur, range))
  {
    if cur < |s| {
      AtChar(s, cur, HASH);
      AtParts(s, cur, [HASH], ReadFragment(s, cur, range).value);
    }
  }

  lemma TailStage(s: bytes, cur: nat, range: nat)
    requires cur <= |s| && range > 0 && ReadTail(s, cur, range).Some?
    ensures var text := JoinTail(ReadTail(s, cur, range).value);
            && |text| <= |s| - cur && (range > |s| ==> |text| == |s| - cur)
            && (|text| == |s| - cur ==> At(s, cur, text) && ReadTail(s, cur, |s| + 1) == ReadTail(s, cur, range))
  {
    hide ReadQuery, ReadFragment, At, Cut;
    if cur == |s| {
      NoTailText(s, cur);
    } else {
      var t := ReadTail(s, cur, range).value;
      var e := Scan(s, cur + 1, HashOrQuestion);
      var f := ReadQuery(s, e, range).1;
      AtSlice(s, cur + 1, e);
      QueryStage(s, e, range);
      QueryStops(s, e, range);
      FragmentStage(s, f, range);
      AtChar(s, cur, SLASH);
      AtParts(s, cur, [SLASH], t.path.value);
      AtParts(s, e, Marked([QUESTION], t.query), Marked([HASH], t.fragment));
      AtParts(s, cur, Marked([SLASH], t.path), Marked([QUESTION], t.query) + Marked([HASH], t.fragment));
    }
  }

  lemma NoTailText(s: bytes, cur: nat)
    requires cur <= |s|
    ensures JoinTail(Tail(None, None, None)) == [] && At(s, cur, [])
  {}

  lemma QueryStops(s: bytes, cur: nat, range: nat)
    requires cur <= |s| && range > 0 && (cur == |s| || s[cur] == HASH || s[cur] == QUESTION)
    ensures var n := ReadQuery(s, cur, range).1; n == |s| || s[n] == HASH
  {}

  /** The whole text, when no field was cut short. */
  lemma SplitStage(s: bytes, range: nat)
    requires range > 0 && Split(s, range).Some?
    ensures var u := Split(s, range).value;
            && |Join(u)| <= |s| && (range > |s| ==> |Join(u)| == |s|)
            && (|Join(u)| == |s| ==> Join(u) == LowerScheme(s) && Split(s, |s| + 1) == Some(u))
  {
    hide ReadScheme, ReadUser, ReadHost, ReadPort, ReadTail, JoinUser, JoinTail, Marked, At, HostEnd, Lower;
    var u := Split(s, range).value;
    var (scheme, cur) := ReadScheme(s, range).value;
    var cur1 := ReadUser(s, cur, range).1;
    var cur2 := ReadHost(s, cur1, range).value.1;
    var cur3 := ReadPort(s, cur2, range).1;
    SchemeStage(s, range);
    SlashesStage(s, range);
    UserStage(s, cur, range);
    HostStage(s, cur1, range);
    PortStage(s, cur2, range);
    TailStage(s, cur3, range);
    if |Join(u)| == |s| {
      var port, tail := Marked([COLON], u.port), JoinTail(u.tail);
      AtParts(s, cur2, port, tail);
      AtParts(s, cur1, u.host, port + tail);
      AtParts(s, cur, JoinUser(u.user), JoinRest(u));
      AtParts(s, cur - 3, COLON_SLASHES, JoinUser(u.user) + JoinRest(u));
      AtToEnd(s, cur - 3, COLON_SLASHES + (JoinUser(u.user) + JoinRest(u)));
      assert u.scheme + COLON_SLASHES + (JoinUser(u.user) + JoinRest(u)) == u.scheme + (COLON_SLASHES + (JoinUser(u.user) + JoinRest(u)));
    }
  }

  predicate Fits(field: Option<bytes>, range: nat) {
    field.Some? ==> |field.value| < range
  }

  predicate FieldsFit(u: Url, range: nat) {
    && |u.scheme| < range && Fits(u.user.username, range) && Fits(u.user.password, range)
    && |u.host| < range && Fits(u.port, range)
    && Fits(u.tail.path, range) && Fits(u.tail.query, range) && Fits(u.tail.fragment, range)
  }

  lemma SplitFieldsFit(s: bytes, range: nat)
    requires range > 0 && Split(s, range).Some?
    ensures FieldsFit(Split(s, range).value, range)
  {
    hide Cut, Scan, AllSchemeChars;
  }

  lemma UserFits(s: bytes, cur: nat, range: nat)
    requires cur <= |s| && range > 0
    requires var u := ReadUser(s, cur, |s| + 1).0; Fits(u.username, range) && Fits(u.password, range)
    ensures ReadUser(s, cur, range) == ReadUser(s, cur, |s| + 1)
  {}

  lemma TailFits(s: bytes, cur: nat, range: nat)
    requires cur <= |s| && range > 0 && ReadTail(s, cur, |s| + 1).Some?
    requires var t := ReadTail(s, cur, |s| + 1).value; Fits(t.path, range) && Fits(t.query, range) && Fits(t.fragment, range)
    ensures ReadTail(s, cur, range) == ReadTail(s, cur, |s| + 1)
  {}

  lemma PortFits(s: bytes, cur: nat, range: nat)
    requires cur <= |s| && range > 0 && Fits(ReadPort(s, cur, |s| + 1).0, range)
    ensures ReadPort(s, cur, range) == ReadPort(s, cur, |s| + 1)
  {}

  lemma HostFits(s: bytes, cur: nat, range: nat)
    requires cur <= |s| && range > 0 && ReadHost(s, cur, |s| + 1).Some? && |ReadHost(s, cur, |s| + 1).value.0| < range
    ensures ReadHost(s, cur, range) == ReadHost(s, cur, |s| + 1)
  {}

  lemma SchemeFits(s: bytes, range: nat)
    requires range > 0 && ReadScheme(s, |s| + 1).Some? && |ReadScheme(s, |s| + 1).value.0| < range
    ensures ReadScheme(s, range) == ReadScheme(s, |s| + 1)
  {
    hide AllSchemeChars, Scan;
  }

  /** Reading with reduced lengths makes no difference when every field fits. */
  lemma SplitWhenFieldsFit(s: bytes, range: nat)
    requires range > 0
    ensures Split(s, |s| + 1).Some? && FieldsFit(Split(s, |s| + 1).value, range) ==> Split(s, range) == Split(s, |s| + 1)
  {
    hide ReadScheme, ReadUser, ReadHost, ReadPort, ReadTail;
    if Split(s, |s| + 1).Some? && FieldsFit(Split(s, |s| + 1).value, range) {
      var cur := ReadScheme(s, |s| + 1).value.1;
      var cur1 := ReadUser(s, cur, |s| + 1).1;
      var cur2 := ReadHost(s, cur1, |s| + 1).value.1;
      var cur3 := ReadPort(s, cur2, |s| + 1).1;
      SchemeFits(s, range);
      UserFits(s, cur, range);
      HostFits(s, cur1, range);
      PortFits(s, cur2, range);
      TailFits(s, cur3, range);
    }
  }

  /** Nothing is lost: an accepted URL is the join of its fields with only the scheme lower-cased, exactly
      when every field between the delimiters is shorter than 65536 bytes, as in every URL that is. */
  lemma Lossless(s: bytes)
    requires Split(s, 0x1_0000).Some?
    ensures Join(Split(s, 0x1_0000).value) == LowerScheme(s)
        <==> Split(s, |s| + 1).Some? && FieldsFit(Split(s, |s| + 1).value, 0x1_0000)
    ensures |s| < 0x1_0000 ==> Join(Split(s, 0x1_0000).value) == LowerScheme(s)
  {
    hide Split, Join, FieldsFit;
    var u := Split(s, LENGTH_RANGE).value;
    SplitStage(s, LENGTH_RANGE);
    SplitFieldsFit(s, LENGTH_RANGE);
    assert |LowerScheme(s)| == |s|;
    if Split(s, |s| + 1).Some? && FieldsFit(Split(s, |s| + 1).value, LENGTH_RANGE) {
      SplitStage(s, |s| + 1);
      SplitWhenFieldsFit(s, LENGTH_RANGE);
    }
  }

  /** A host of 65537 bytes comes back as one byte, and the rest of it is lost. */
  lemma LongHostIsCut()
    ensures var s := Ascii("a://") + seq(0x1_0001, _ => 'b' as int);
            && Split(s, 0x1_0000).Some? && Split(s, 0x1_0000).value.host == ['b' as int]
            && Join(Split(s, 0x1_0000).value) != LowerScheme(s)
  {
    var s: bytes := Ascii("a://") + seq(0x1_0001, _ => 'b' as int);
    ScanUnique(s, 0, IsColon, 1);
    ScanUnique(s, 4, AtOrSlash, |s|);
    ScanUnique(s, 4, ColonOrSlash, |s|);
    assert Cut(s, 4, |s|, LENGTH_RANGE) == [s[4]];
    assert LowerScheme(s)[0x1_0000] == 'b' as int;
  }

  // ---------------------------------------------------------------------------------------------
  // The field sets that splitting can return, by what the stages stop at
  // ---------------------------------------------------------------------------------------------

  predicate Free(t: bytes, stop: byte -> bool) {
    forall k | 0 <= k < |t| :: !stop(t[k])
  }

  predicate FreeOf(field: Option<bytes>, stop: byte -> bool) {
    field.Some? ==> Free(field.value, stop)
  }

  predicate UserDelimiter(c: byte) { c == COLON || c == AT || c == SLASH }

  predicate TakenScheme(t: bytes) {
    forall k | 0 <= k < |t| :: IsSchemeChar(t[k]) && ToLower(t[k]) == t[k]
  }

  predicate TakenUser(u: UserInfo) {
    && (u.username.None? ==> u.password.None?)
    && FreeOf(u.username, UserDelimiter) && FreeOf(u.password, AtOrSlash)
  }

  /** A bracketed host ends at its first closing bracket; one that is never closed takes all that follows. */
  predicate TakenHost(h: bytes, last: bool) {
    && |h| > 0
    && if h[0] == OPEN then
         var c := Scan(h, 0, IsClose); c + 1 == |h| || (c == |h| && last)
       else Free(h, ColonOrSlash)
  }

  predicate TakenTail(t: Tail) {
    && (t.path.None? ==> t.query.None? && t.fragment.None?)
    && FreeOf(t.path, HashOrQuestion) && FreeOf(t.query, IsHash)
  }

  /** Without a user, no at sign comes before the first slash, or it would be taken for the user's. */
  predicate TakenRest(rest: bytes) {
    var a := Scan(rest, 0, AtOrSlash); a == |rest| || rest[a] == SLASH
  }

  predicate Taken(u: Url) {
    && TakenScheme(u.scheme) && TakenUser(u.user)
    && TakenHost(u.host, u.port.None? && u.tail.path.None?)
    && FreeOf(u.port, IsSlash) && TakenTail(u.tail)
    && (u.user.username.None? ==> TakenRest(JoinRest(u)))
  }

  /** A search over a field that is free of what is searched for ends where the field does. */
  lemma ScanField(s: bytes, i: nat, t: bytes, stop: byte -> bool)
    requires At(s, i, t) && Free(t, stop)
    requires i + |t| < |s| ==> stop(s[i + |t|])
    ensures Scan(s, i, stop) == i + |t|
  {
    AtBytes(s, i, t);
    forall k | i <= k < i + |t| ensures !stop(s[k]) {
      assert s[k] == t[k - i];
    }
    ScanUnique(s, i, stop, i + |t|);
  }

  lemma SchemeOfJoin(s: bytes, t: bytes, range: nat)
    requires |t| < range && TakenScheme(t) && At(s, 0, t) && At(s, |t|, COLON_SLASHES)
    ensures ReadScheme(s, range) == Some((t, |t| + 3))
  {
    AtBytes(s, |t|, COLON_SLASHES);
    assert s[|t| + 0] == COLON && s[|t| + 1] == SLASH && s[|t| + 2] == SLASH;
    ScanField(s, 0, t, IsColon);
    CutField(s, 0, t, range);
    LowerOfGood(t);
    hide Scan, Cut, Lower, At, AllSchemeChars, TakenScheme;
  }

  lemma LowerOfGood(t: bytes)
    requires TakenScheme(t)
    ensures AllSchemeChars(t) && Lower(t) == t
  {}

  lemma UserOfJoin(s: bytes, cur: nat, u: UserInfo, rest: bytes, range: nat)
    requires range > 0 && TakenUser(u) && Fits(u.username, range) && Fits(u.password, range)
    requires At(s, cur, JoinUser(u)) && cur + |JoinUser(u)| + |rest| == |s| && At(s, cur + |JoinUser(u)|, rest)
    requires u.username.None? ==> TakenRest(rest)
    ensures ReadUser(s, cur, range) == (u, cur + |JoinUser(u)|)
  {
    hide At, TakenRest, ReadUser;
    if u.username.None? {
      NoUserOfJoin(s, cur, rest, range);
    } else {
      var name := u.username.value;
      AtParts(s, cur, name + Marked([COLON], u.password), [AT]);
      AtParts(s, cur, name, Marked([COLON], u.password));
      if u.password.None? {
        NameOfJoin(s, cur, name, range);
      } else {
        PasswordOfJoin(s, cur, name, u.password.value, range);
      }
    }
  }

  lemma NameOfJoin(s: bytes, cur: nat, name: bytes, range: nat)
    requires |name| < range && Free(name, UserDelimiter)
    requires At(s, cur, name) && At(s, cur + |name|, [AT])
    ensures ReadUser(s, cur, range) == (UserInfo(Some(name), None), cur + |name| + 1)
  {
    AtChar(s, cur + |name|, AT);
    ScanField(s, cur, name, AtOrSlash);
    ScanField(s, cur, name, ColonOrAt);
  }

  lemma NoUserOfJoin(s: bytes, cur: nat, rest: bytes, range: nat)
    requires range > 0 && cur + |rest| == |s| && At(s, cur, rest) && TakenRest(rest)
    ensures ReadUser(s, cur, range) == (UserInfo(None, None), cur)
  {
    var a := Scan(rest, 0, AtOrSlash);
    AtBytes(s, cur, rest);
    AtParts(s, cur, rest[..a], rest[a..]);
    assert rest == rest[..a] + rest[a..];
    ScanField(s, cur, rest[..a], AtOrSlash);
  }

  lemma PasswordOfJoin(s: bytes, cur: nat, name: bytes, password: bytes, range: nat)
    requires |name| < range && |password| < range && Free(name, UserDelimiter) && Free(password, AtOrSlash)
    requires At(s, cur, name) && At(s, cur + |name|, [COLON] + password)
    requires At(s, cur + |name| + 1 + |password|, [AT])
    ensures ReadUser(s, cur, range) == (UserInfo(Some(name), Some(password)), cur + |name| + |password| + 2)
  {
    hide At, Cut, Scan;
    var u := cur + |name|;
    var p := u + 1 + |password|;
    AtParts(s, u, [COLON], password);
    AtChar(s, u, COLON);
    AtChar(s, p, AT);
    AtParts(s, cur, name, [COLON] + password);
    assert Free(name + ([COLON] + password), AtOrSlash);
    ScanField(s, cur, name + ([COLON] + password), AtOrSlash);
    ScanField(s, cur, name, ColonOrAt);
    ScanField(s, u + 1, password, IsAt);
    CutField(s, cur, name, range);
    CutField(s, u + 1, password, range);
  }

  lemma HostOfJoin(s: bytes, cur: nat, h: bytes, range: nat)
    requires |h| < range && At(s, cur, h) && TakenHost(h, cur + |h| == |s|)
    requires cur + |h| < |s| ==> ColonOrSlash(s[cur + |h|])
    ensures ReadHost(s, cur, range) == Some((h, cur + |h|))
  {
    AtBytes(s, cur, h);
    assert s[cur] == h[0];
    if h[0] == OPEN {
      var c := Scan(h, 0, IsClose);
      AtParts(s, cur, h[..c], h[c..]);
      assert h == h[..c] + h[c..];
      ScanField(s, cur, h[..c], IsClose);
    } else {
      ScanField(s, cur, h, ColonOrSlash);
    }
  }

  lemma PortOfJoin(s: bytes, cur: nat, port: Option<bytes>, range: nat)
    requires range > 0 && Fits(port, range) && FreeOf(port, IsSlash)
    requires At(s, cur, Marked([COLON], port))
    requires cur + |Marked([COLON], port)| < |s| ==> s[cur + |Marked([COLON], port)|] == SLASH
    ensures ReadPort(s, cur, range) == (port, cur + |Marked([COLON], port)|)
  {
    if port.Some? {
      AtParts(s, cur, [COLON], port.value);
      AtChar(s, cur, COLON);
      ScanField(s, cur + 1, port.value, IsSlash);
    }
  }

  lemma TailOfJoin(s: bytes, cur: nat, t: Tail, range: nat)
    requires range > 0 && Fits(t.path, range) && Fits(t.query, range) && Fits(t.fragment, range)
    requires TakenTail(t) && At(s, cur, JoinTail(t)) && cur + |JoinTail(t)| == |s|
    ensures ReadTail(s, cur, range) == Some(t)
  {
    hide At, ReadTail, Marked, Fits, FreeOf;
    var path, query, fragment := Marked([SLASH], t.path), Marked([QUESTION], t.query), Marked([HASH], t.fragment);
    var e := cur + |path|;
    AtParts(s, cur, path, query + fragment);
    AtParts(s, e, query, fragment);
    QueryOfJoin(s, e, t.query, t.fragment, range);
    FragmentOfJoin(s, e + |query|, t.fragment, range);
    TailStartsWithSlash(s, cur, t);
    PathOfJoin(s, cur, t, range);
  }

  lemma PathOfJoin(s: bytes, cur: nat, t: Tail, range: nat)
    requires range > 0 && Fits(t.path, range) && FreeOf(t.path, HashOrQuestion)
    requires At(s, cur, Marked([SLASH], t.path))
    requires t.path.None? ==> cur == |s| && t.query.None? && t.fragment.None?
    requires var e := cur + |Marked([SLASH], t.path)|;
             && e <= |s| && (e < |s| ==> HashOrQuestion(s[e]))
             && ReadQuery(s, e, range).0 == t.query
             && ReadFragment(s, ReadQuery(s, e, range).1, range) == t.fragment
    ensures ReadTail(s, cur, range) == Some(t)
  {
    hide ReadQuery, ReadFragment, At, HashOrQuestion;
    if t.path.Some? {
      var path := t.path.value;
      AtParts(s, cur, [SLASH], path);
      AtChar(s, cur, SLASH);
      ScanField(s, cur + 1, path, HashOrQuestion);
      CutField(s, cur + 1, path, range);
    }
  }

  lemma CutField(s: bytes, a: nat, t: bytes, range: nat)
    requires At(s, a, t) && |t| < range
    ensures Cut(s, a, a + |t|, range) == t
  {}

  lemma QueryOfJoin(s: bytes, cur: nat, query: Option<bytes>, fragment: Option<bytes>, range: nat)
    requires range > 0 && Fits(query, range) && FreeOf(query, IsHash)
    requires At(s, cur, Marked([QUESTION], query)) && At(s, cur + |Marked([QUESTION], query)|, Marked([HASH], fragment))
    requires cur + |Marked([QUESTION], query)| + |Marked([HASH], fragment)| == |s|
    ensures ReadQuery(s, cur, range) == (query, cur + |Marked([QUESTION], query)|)
    ensures cur < |s| ==> HashOrQuestion(s[cur])
  {
    if fragment.Some? {
      AtParts(s, cur + |Marked([QUESTION], query)|, [HASH], fragment.value);
      AtChar(s, cur + |Marked([QUESTION], query)|, HASH);
    }
    if query.Some? {
      AtParts(s, cur, [QUESTION], query.value);
      AtChar(s, cur, QUESTION);
      ScanField(s, cur + 1, query.value, IsHash);
    }
  }

  lemma FragmentOfJoin(s: bytes, cur: nat, fragment: Option<bytes>, range: nat)
    requires range > 0 && Fits(fragment, range)
    requires At(s, cur, Marked([HASH], fragment)) && cur + |Marked([HASH], fragment)| == |s|
    ensures ReadFragment(s, cur, range) == fragment
  {
    if fragment.Some? {
      AtParts(s, cur, [HASH], fragment.value);
      AtChar(s, cur, HASH);
    }
  }

  /** Where the pieces of a joined URL lie. */
  lemma PiecesOfJoin(u: Url)
    ensures var s := Join(u);
            var cur := |u.scheme| + 3;
            var cur1 := cur + |JoinUser(u.user)|;
            var cur2 := cur1 + |u.host|;
            var cur3 := cur2 + |Marked([COLON], u.port)|;
            && At(s, 0, u.scheme) && At(s, |u.scheme|, COLON_SLASHES)
            && At(s, cur, JoinUser(u.user)) && At(s, cur1, JoinRest(u))
            && At(s, cur1, u.host) && At(s, cur2, Marked([COLON], u.port))
            && At(s, cur3, JoinTail(u.tail)) && cur3 + |JoinTail(u.tail)| == |s|
            && cur1 + |JoinRest(u)| == |s|
  {
    hide At, JoinUser, JoinTail, Marked;
    var s := Join(u);
    var user, rest := JoinUser(u.user), JoinRest(u);
    var port, tail := Marked([COLON], u.port), JoinTail(u.tail);
    var cur := |u.scheme| + 3;
    AtWhole(s);
    AtParts(s, 0, u.scheme + COLON_SLASHES, user + rest);
    AtParts(s, 0, u.scheme, COLON_SLASHES);
    AtParts(s, cur, user, rest);
    AtParts(s, cur + |user|, u.host, port + tail);
    AtParts(s, cur + |user| + |u.host|, port, tail);
  }

  /** Splitting the join of any such field set returns it. */
  lemma {:induction false} SplitOfJoin(u: Url, range: nat)
    requires range > 0 && Taken(u) && FieldsFit(u, range)
    ensures Split(Join(u), range) == Some(u)
  {
    hide ReadScheme, ReadUser, ReadHost, ReadPort, ReadTail, Join, JoinUser, JoinTail, JoinRest, Marked, At;
    hide TakenHost, TakenUser, TakenScheme, TakenTail, TakenRest, Fits, FreeOf;
    var s := Join(u);
    var cur := |u.scheme| + 3;
    var cur1 := cur + |JoinUser(u.user)|;
    var cur2 := cur1 + |u.host|;
    var cur3 := cur2 + |Marked([COLON], u.port)|;
    PiecesOfJoin(u);
    TailStartsWithSlash(s, cur3, u.tail);
    PortStartsWithColon(s, cur2, u.port);
    SchemeOfJoin(s, u.scheme, range);
    UserOfJoin(s, cur, u.user, JoinRest(u), range);
    HostOfJoin(s, cur1, u.host, range);
    PortOfJoin(s, cur2, u.port, range);
    TailOfJoin(s, cur3, u.tail, range);
  }

  lemma AtWhole(s: bytes)
    ensures At(s, 0, s)
  {
    assert s[0..|s|] == s;
  }

  lemma TailStartsWithSlash(s: bytes, cur: nat, t: Tail)
    requires TakenTail(t) && At(s, cur, JoinTail(t)) && cur + |JoinTail(t)| == |s|
    ensures cur < |s| ==> s[cur] == SLASH
    ensures t.path.None? <==> cur == |s|
  {
    if t.path.Some? {
      AtBytes(s, cur, JoinTail(t));
      assert JoinTail(t)[0] == SLASH;
      assert s[cur + 0] == SLASH;
    }
  }

  lemma PortStartsWithColon(s: bytes, cur: nat, port: Option<bytes>)
    requires At(s, cur, Marked([COLON], port))
    ensures port.Some? ==> cur < |s| && s[cur] == COLON
    ensures port.None? ==> |Marked([COLON], port)| == 0
  {
    if port.Some? {
      AtParts(s, cur, [COLON], port.value);
      AtChar(s, cur, COLON);
    }
  }

  lemma LowerSchemeChar(c: byte)
    requires IsSchemeChar(c)
    ensures IsSchemeChar(ToLower(c)) && ToLower(ToLower(c)) == ToLower(c)
  {}

  lemma SchemeIsGood(s: bytes, range: nat)
    requires range > |s| && ReadScheme(s, range).Some?
    ensures TakenScheme(ReadScheme(s, range).value.0)
  {
    var t := Cut(s, 0, Scan(s, 0, IsColon), range);
    forall k | 0 <= k < |t| ensures IsSchemeChar(Lower(t)[k]) && ToLower(Lower(t)[k]) == Lower(t)[k] {
      LowerSchemeChar(t[k]);
    }
  }

  lemma UserIsGood(s: bytes, cur: nat, range: nat)
    requires cur <= |s| < range
    ensures TakenUser(ReadUser(s, cur, range).0)
  {
    var a := Scan(s, cur, AtOrSlash);
    if CharAt(s, a) == AT {
      assert ColonOrAt(s[a]) && IsAt(s[a]);
      var u := Scan(s, cur, ColonOrAt);
      forall k | cur <= k < u ensures !UserDelimiter(s[k]) {
        assert !AtOrSlash(s[k]) && !ColonOrAt(s[k]);
      }
    }
  }

  lemma HostIsGood(s: bytes, cur: nat, range: nat)
    requires cur <= |s| < range && ReadHost(s, cur, range).Some?
    ensures var (h, n) := ReadHost(s, cur, range).value; TakenHost(h, n == |s|)
  {
    var h := ReadHost(s, cur, range).value.0;
    if s[cur] == OPEN {
      var c := Scan(s, cur, IsClose);
      ScanUnique(h, 0, IsClose, c - cur);
    }
  }

  /** Everything that splitting returns is one. */
  lemma SplitIsTaken(s: bytes, range: nat)
    requires range > |s|
    ensures Split(s, range).Some? ==> Taken(Split(s, range).value)
  {
    hide ReadScheme, ReadUser, ReadHost, TakenHost, At, Join, Marked;
    if Split(s, range).Some? {
      var u := Split(s, range).value;
      var cur := ReadScheme(s, range).value.1;
      var cur1 := ReadUser(s, cur, range).1;
      SchemeIsGood(s, range);
      UserIsGood(s, cur, range);
      HostIsGood(s, cur1, range);
      if u.user.username.None? {
        RestHolds(s, range);
        NoUserRead(s, cur, JoinRest(u), range);
      }
    }
  }

  lemma RestHolds(s: bytes, range: nat)
    requires range > |s| && Split(s, range).Some?
    ensures var cur := ReadUser(s, ReadScheme(s, range).value.1, range).1;
            At(s, cur, JoinRest(Split(s, range).value)) && cur + |JoinRest(Split(s, range).value)| == |s|
  {
    hide ReadScheme, ReadUser, ReadHost, ReadPort, ReadTail, JoinUser, JoinTail, Marked, At, HostEnd;
    var u := Split(s, range).value;
    var cur1 := ReadUser(s, ReadScheme(s, range).value.1, range).1;
    var cur2 := ReadHost(s, cur1, range).value.1;
    var cur3 := ReadPort(s, cur2, range).1;
    HostStage(s, cur1, range);
    PortStage(s, cur2, range);
    TailStage(s, cur3, range);
    AtParts(s, cur2, Marked([COLON], u.port), JoinTail(u.tail));
    AtParts(s, cur1, u.host, Marked([COLON], u.port) + JoinTail(u.tail));
  }

  lemma NoUserRead(s: bytes, cur: nat, rest: bytes, range: nat)
    requires cur <= |s| && range > 0 && ReadUser(s, cur, range).0.username.None?
    requires cur + |rest| == |s| && At(s, cur, rest)
    ensures TakenRest(rest)
  {
    var a := Scan(s, cur, AtOrSlash);
    AtBytes(s, cur, rest);
    forall k | 0 <= k < a - cur ensures !AtOrSlash(rest[k]) {
      assert s[cur + k] == rest[k];
    }
    ScanUnique(rest, 0, AtOrSlash, a - cur);
  }
}

/** The parser itself: a cursor that moves over the string and fills the fields of an allocated structure. */
module UrlParser {
  import opened Bytes
  import opened UrlSplitter

  class UrlData {
    var scheme: bytes
    var host: bytes
    var port: Option<bytes>
    var path: Option<bytes>
    var query: Option<bytes>
    var fragment: Option<bytes>
    var username: Option<bytes>
    var password: Option<bytes>

    constructor ()
      ensures scheme == [] && host == [] && port == path == query == fragment == username == password == None
    {
      scheme, host := [], [];
      port, path, query, fragment, username, password := None, None, None, None, None, None;
    }

    function Fields(): Url
      reads this
    {
      Url(scheme, UserInfo(username, password), host, port, Tail(path, query, fragment))
    }
  }

  /** A search loop: the cursor stops at the terminator or where stop holds. */
  method Seek(url: bytes, start: nat, stop: byte -> bool) returns (tmp: nat)
    requires start <= |url|
    ensures tmp == Scan(url, start, stop)
  {
    tmp := start;
    while tmp < |url| && !stop(url[tmp])
      invariant start <= tmp <= |url|
      invariant forall k | start <= k < tmp :: !stop(url[k])
    {
      tmp := tmp + 1;
    }
    ScanUnique(url, start, stop, tmp);
  }

  method LowerInPlace(t: bytes) returns (r: bytes)
    ensures r == Lower(t)
  {
    r := t;
    for i := 0 to |t|
      invariant |r| == |t|
      invariant forall k | 0 <= k < i :: r[k] == ToLower(t[k])
      invariant forall k | i <= k < |t| :: r[k] == t[k]
    {
      r := r[i := ToLower(r[i])];
    }
  }

  method OnlySchemeChars(t: bytes) returns (ok: bool)
    ensures ok == AllSchemeChars(t)
  {
    for i := 0 to |t|
      invariant forall k | 0 <= k < i :: IsSchemeChar(t[k])
    {
      if !IsSchemeChar(t[i]) {
        return false;
      }
    }
    return true;
  }

  /** User and password go into the structure; the cursor is left behind the at sign. */
  method FillUser(url: bytes, start: nat, purl: UrlData) returns (cur: nat)
    requires start <= |url|
    modifies purl`username, purl`password
    requires purl.username == None && purl.password == None
    ensures (UserInfo(purl.username, purl.password), cur) == ReadUser(url, start, 0x1_0000)
  {
    hide Cut;
    cur := start;
    var mark := Seek(url, cur, AtOrSlash);
    if CharAt(url, mark) == AT {
      assert ColonOrAt(url[mark]) && IsAt(url[mark]);
      var tmp := Seek(url, cur, ColonOrAt);
      purl.username := Some(Cut(url, cur, tmp, LENGTH_RANGE));
      cur := tmp;
      if url[cur] == COLON {
        cur := cur + 1;
        tmp := Seek(url, cur, IsAt);
        purl.password := Some(Cut(url, cur, tmp, LENGTH_RANGE));
        cur := tmp;
      }
      cur := cur + 1;
    }
  }

  method SeekHostEnd(url: bytes, start: nat) returns (tmp: nat)
    requires start <= |url|
    ensures tmp == HostEnd(url, start)
  {
    var bracket := CharAt(url, start) == OPEN;
    tmp := start;
    while tmp < |url|
      invariant start <= tmp <= |url|
      invariant forall k | start <= k < tmp :: if bracket then !IsClose(url[k]) else !ColonOrSlash(url[k])
    {
      if bracket && url[tmp] == CLOSE {
        ScanUnique(url, start, IsClose, tmp);
        return tmp + 1;
      } else if !bracket && (url[tmp] == COLON || url[tmp] == SLASH) {
        ScanUnique(url, start, ColonOrSlash, tmp);
        return tmp;
      }
      tmp := tmp + 1;
    }
    ScanUnique(url, start, if bracket then IsClose else ColonOrSlash, tmp);
  }

  method FillQuery(url: bytes, start: nat, purl: UrlData) returns (cur: nat)
    requires start <= |url|
    modifies purl`query
    requires purl.query == None
    ensures (purl.query, cur) == ReadQuery(url, start, 0x1_0000)
  {
    cur := start;
    if CharAt(url, cur) == QUESTION {
      cur := cur + 1;
      var tmp := Seek(url, cur, IsHash);
      purl.query := Some(Cut(url, cur, tmp, LENGTH_RANGE));
      cur := tmp;
    }
  }

  /** Path, query and fragment go into the structure. */
  method FillTail(url: bytes, start: nat, purl: UrlData) returns (ok: bool)
    requires start <= |url|
    modifies purl`path, purl`query, purl`fragment
    requires purl.path == None && purl.query == None && purl.fragment == None
    ensures ReadTail(url, start, 0x1_0000) == if ok then Some(Tail(purl.path, purl.query, purl.fragment)) else None
  {
    hide Cut, ReadQuery;
    var cur := start;
    if cur == |url| {
      return true;
    }
    if url[cur] != SLASH {
      return false;
    }
    cur := cur + 1;
    var tmp := Seek(url, cur, HashOrQuestion);
    purl.path := Some(Cut(url, cur, tmp, LENGTH_RANGE));
    cur := tmp;
    cur := FillQuery(url, cur, purl);
    if CharAt(url, cur) == HASH {
      cur := cur + 1;
      purl.fragment := Some(Cut(url, cur, |url|, LENGTH_RANGE));
    }
    return true;
  }

  /** url_parse on a C string: null for a malformed URL, else a new structure with the fields. */
  method UrlParse(url: bytes) returns (purl: UrlData?)
    requires 0 !in url
    ensures purl == null <==> Split(url, 0x1_0000).None?
    ensures purl != null ==> fresh(purl) && Split(url, 0x1_0000) == Some(purl.Fields())
  {
    hide ReadUser, ReadPort, ReadTail, HostEnd, AllSchemeChars, Lower, Cut;
    var data := new UrlData();
    var tmp := Seek(url, 0, IsColon);
    if tmp == |url| {
      return null;
    }
    var valid := OnlySchemeChars(Cut(url, 0, tmp, LENGTH_RANGE));
    if !valid {
      return null;
    }
    data.scheme := LowerInPlace(Cut(url, 0, tmp, LENGTH_RANGE));
    var cur := tmp + 1;
    if CharAt(url, cur) != SLASH || CharAt(url, cur + 1) != SLASH {
      return null;
    }
    cur := cur + 2;
    cur := FillUser(url, cur, data);
    tmp := SeekHostEnd(url, cur);
    data.host := Cut(url, cur, tmp, LENGTH_RANGE);
    if |data.host| == 0 {
      return null;
    }
    cur := tmp;
    cur := FillPort(url, cur, data);
    var ok := FillTail(url, cur, data);
    return if ok then data else null;
  }

  method FillPort(url: bytes, start: nat, purl: UrlData) returns (cur: nat)
    requires start <= |url|
    modifies purl`port
    requires purl.port == None
    ensures (purl.port, cur) == ReadPort(url, start, 0x1_0000)
  {
    cur := start;
    if CharAt(url, cur) == COLON {
      cur := cur + 1;
      var tmp := Seek(url, cur, IsSlash);
      purl.port := Some(Cut(url, cur, tmp, LENGTH_RANGE));
      cur := tmp;
    }
  }
}
