/** What the answers -1 and -2 of the HTTP parsers mean: whether the text can still be completed. */
module HttpAnswers {
  import opened Bytes
  import opened HttpGrammar
  import opened HttpStability
  import opened HttpRendering
  import opened HttpMessages

  // ---------------------------------------------------------------------------------------------
  // Header blocks
  // ---------------------------------------------------------------------------------------------

  /** A header line that t ends, with only a line feed behind it. */
  ghost predicate EndsLine(s: bytes, i: nat, first: bool, t: bytes)
    requires i < |s|
  {
    |t| > 0 && t[|t| - 1] == 10 && HeaderLine(s + t, i, first).Ok? && HeaderLine(s + t, i, first).pos + 1 == |s + t|
  }

  lemma TextGoesOn(s: bytes, v: nat)
    requires v <= |s| && TokenToEol(s, v).Partial?
    ensures TokenToEol(s + [10, 10], v).Ok? && TokenToEol(s + [10, 10], v).pos == |s| + 1
  {
    var u, e := s + [10, 10], Scan(s, v, IsCtl);
    ScanUnique(u, v, IsCtl, e);
  }

  lemma NameWithoutColon(s: bytes, i: nat)
    requires i < |s| && Token(s, i, ':' as int).Partial?
    ensures var u := s + [':' as int, 10, 10];
            Token(u, i, ':' as int) == Ok(|s|, |s| - i) && Scan(u, |s| + 1, NotBlank) == |s| + 1
  {
    hide IsTokenChar;
    var u := s + [':' as int, 10, 10];
    ScanUnique(u, i, EndsToken(':' as int), |s|);
    ScanUnique(u, |s| + 1, NotBlank, |s| + 1);
  }

  lemma NameWithColon(s: bytes, i: nat)
    requires i < |s| && Token(s, i, ':' as int).Ok? && Scan(s, Token(s, i, ':' as int).pos + 1, NotBlank) == |s|
    ensures var u, colon := s + [10, 10], Token(s, i, ':' as int).pos;
            Token(u, i, ':' as int) == Token(s, i, ':' as int) && Scan(u, colon + 1, NotBlank) == |s|
  {
    hide IsTokenChar;
    var u, colon := s + [10, 10], Token(s, i, ':' as int).pos;
    TokenStable(s, u, |s|, i, ':' as int);
    ScanUnique(u, colon + 1, NotBlank, |s|);
  }

  /** The name stands there without its colon, or with it. */
  lemma NameGoesOn(s: bytes, i: nat, first: bool) returns (t: bytes)
    requires i < |s| && HeaderName(s, i, first).Partial?
    ensures t == [':' as int, 10, 10] || t == [10, 10]
    ensures HeaderName(s + t, i, first).Ok? && HeaderName(s + t, i, first).pos + 2 == |s + t|
  {
    hide Token;
    if Token(s, i, ':' as int).Partial? {
      t := [':' as int, 10, 10];
      NameWithoutColon(s, i);
    } else {
      t := [10, 10];
      NameWithColon(s, i);
    }
  }

  lemma LineGoesOn(s: bytes, i: nat, first: bool) returns (t: bytes)
    requires i < |s| && HeaderLine(s, i, first).Partial?
    ensures EndsLine(s, i, first, t)
  {
    hide HeaderName, TokenToEol, TrimEnd;
    if HeaderName(s, i, first).Partial? {
      t := NameGoesOn(s, i, first);
      LineFeedIsText(s + t, |s + t| - 2);
    } else {
      t := [10, 10];
      HeaderNameStable(s, s + t, |s|, i, first);
      TextGoesOn(s, HeaderName(s, i, first).pos);
    }
  }

  lemma LineFeedIsText(s: bytes, v: nat)
    requires v + 2 == |s| && s[v] == 10
    ensures TokenToEol(s, v) == Ok(v + 1, 0)
  {
    ScanUnique(s, v, IsCtl, v);
  }

  /** A block that is not finished can be finished, whatever was read before. */
  lemma {:induction false} BlockGoesOn(s: bytes, i: nat, hs: seq<Header>, max: nat) returns (t: bytes)
    requires i <= |s| && |hs| <= max && Headers(s, i, hs, max).Partial?
    ensures Headers(s + t, i, hs, max).Ok?
    decreases |s| - i
  {
    hide HeaderLine;
    if i == |s| || AtLineEnd(s, i) {
      t := [10];
    } else if HeaderLine(s, i, |hs| == 0).Partial? {
      t := LineGoesOn(s, i, |hs| == 0);
      var line := HeaderLine(s + t, i, |hs| == 0);
      assert (s + t)[line.pos] == 10;
    } else {
      var line := HeaderLine(s, i, |hs| == 0);
      t := BlockGoesOn(s, line.pos, hs + [line.value], max);
      HeaderLineStable(s, s + t, |s|, i, |hs| == 0);
    }
  }

  /** Of a header block: -2 exactly for the beginnings of blocks that would be accepted, and -1 exactly for the texts
      that no block begins with. */
  lemma HeaderAnswersMean(s: bytes, max: nat)
    ensures ParseHeaders(s, max).Partial? <==> !ParseHeaders(s, max).Ok? && exists t: bytes :: ParseHeaders(s + t, max).Ok?
    ensures ParseHeaders(s, max).Bad? <==> forall t: bytes :: !ParseHeaders(s + t, max).Ok?
  {
    hide Headers;
    assert s + [] == s;
    if ParseHeaders(s, max).Partial? {
      var t := BlockGoesOn(s, 0, [], max);
    } else {
      forall t: bytes ensures ParseHeaders(s + t, max) == ParseHeaders(s, max) {
        HeadersFinal(s, t, s, max);
      }
      assert ParseHeaders(s + [], max) == ParseHeaders(s, max);
    }
  }

  // ---------------------------------------------------------------------------------------------
  // Request lines that are not finished
  // ---------------------------------------------------------------------------------------------

  /** The beginning of a request line: as far as it goes, a method, spaces, a path, spaces, and the beginning of what
      has to be a version. The version is not looked at before nine bytes are there. */
  datatype Beginning = Beginning(httpMethod: bytes, gap: nat, path: bytes, gap2: nat, version: bytes)

  function RenderBeginning(b: Beginning): bytes {
    b.httpMethod + (Spaces(b.gap) + (b.path + (Spaces(b.gap2) + b.version)))
  }

  predicate GoodBeginning(b: Beginning) {
    && (b.httpMethod != [] ==> IsToken(b.httpMethod)) && IsPath(b.path)
    && (b.gap == 0 ==> b.path == []) && (b.path == [] ==> b.gap2 == 0) && (b.gap2 == 0 ==> b.version == [])
    && (b.version != [] ==> b.version[0] != 32)
  }

  ghost predicate BeginsVersion(t: bytes) {
    exists minor: digit :: t <= Version(minor)
  }

  /** Not enough of it is there for a look at the version. */
  predicate StillUnseen(b: Beginning) {
    GoodBeginning(b) && |b.version| <= 8 && (b.httpMethod == [] ==> b.version == [])
  }

  /** No request line begins like this: the method is missing, or the bytes behind the path begin no version. */
  ghost predicate Hopeless(b: Beginning) {
    StillUnseen(b) && if b.httpMethod == [] then b.gap > 0 else !BeginsVersion(b.version)
  }

  lemma PartsOfBeginning(s: bytes, i: nat, b: Beginning)
    requires i <= |s|
    ensures var m := i + |b.httpMethod|;
            var p := m + b.gap;
            var q := p + |b.path|;
            var v := q + b.gap2;
            s[i..] == RenderBeginning(b) <==>
              && |s| == v + |b.version| && At(s, i, b.httpMethod) && At(s, m, Spaces(b.gap)) && At(s, p, b.path)
              && At(s, q, Spaces(b.gap2)) && At(s, v, b.version)
  {
    hide At;
    var m := i + |b.httpMethod|;
    var p := m + b.gap;
    var q := p + |b.path|;
    SpacesLength(b.gap);
    SpacesLength(b.gap2);
    hide Spaces;
    WholeRest(s, i, RenderBeginning(b));
    AtParts(s, i, b.httpMethod, Spaces(b.gap) + (b.path + (Spaces(b.gap2) + b.version)));
    AtParts(s, m, Spaces(b.gap), b.path + (Spaces(b.gap2) + b.version));
    AtParts(s, p, b.path, Spaces(b.gap2) + b.version);
    AtParts(s, q, Spaces(b.gap2), b.version);
  }

  lemma SpacesLength(n: nat)
    ensures |Spaces(n)| == n
  {}

  lemma WholeRest(s: bytes, i: nat, t: bytes)
    requires i <= |s|
    ensures s[i..] == t <==> At(s, i, t) && |s| == i + |t|
  {
    if At(s, i, t) && |s| == i + |t| {
      assert s[i..] == s[i..i + |t|];
    }
  }

  lemma SpacesToTheEnd(s: bytes, i: nat)
    requires i < |s| && s[i] == SP && SkipSpaces(s, i).Partial?
    ensures At(s, i, Spaces(|s| - i))
  {
    var n := |s| - i;
    forall k | 0 <= k < n ensures s[i..i + n][k] == Spaces(n)[k] {
      assert s[i..i + n][k] == s[i + k];
    }
  }

  lemma OnlySpaces(s: bytes, i: nat, n: nat)
    requires n > 0 && At(s, i, Spaces(n)) && i + n == |s|
    ensures SkipSpaces(s, i).Partial? && s[i] == SP
  {
    AtBytes(s, i, Spaces(n));
    forall k | i <= k < i + n ensures s[k] == SP {
      assert s[i + (k - i)] == Spaces(n)[k - i];
    }
    ScanUnique(s, i + 1, NotSpace, |s|);
  }

  lemma OnlyToken(s: bytes, i: nat, t: bytes)
    requires At(s, i, t) && i + |t| == |s| && (t != [] ==> IsToken(t))
    ensures Token(s, i, SP).Partial?
  {
    hide IsTokenChar, IsToken;
    TokenText(t);
    AtBytes(s, i, t);
    TokenCharIsTchar(SP);
    assert !IsTokenChar(SP) by { SpaceIsNoTokenChar(); }
    forall k | i <= k < |s| ensures !EndsToken(SP)(s[k]) {
      assert s[i + (k - i)] == t[k - i];
    }
    ScanUnique(s, i, EndsToken(SP), |s|);
  }

  lemma SpaceIsNoTokenChar()
    ensures !IsTokenChar(SP)
  {}

  lemma OnlyPath(s: bytes, i: nat, t: bytes)
    requires At(s, i, t) && i + |t| == |s| && IsPath(t)
    ensures Path(s, i).Partial?
  {
    AtBytes(s, i, t);
    forall k | i <= k < |s| ensures !EndsPath(s[k]) {
      assert s[i + (k - i)] == t[k - i];
    }
    ScanUnique(s, i, EndsPath, |s|);
  }

  /** The text of a method, or nothing, and the space behind it. */
  lemma MethodReads(s: bytes, i: nat, t: bytes)
    requires At(s, i, t) && i + |t| < |s| && s[i + |t|] == SP && (t != [] ==> IsToken(t))
    ensures Token(s, i, SP) == Ok(i + |t|, |t|)
  {
    hide IsTokenChar, IsToken;
    SpaceAt(s, i + |t|);
    if t != [] {
      TokenReads(s, i, t, SP);
    } else {
      ScanUnique(s, i, EndsToken(SP), i);
    }
  }

  lemma StillUnseenIsPartial(s: bytes, i: nat, b: Beginning)
    requires i <= |s| && StillUnseen(b) && s[i..] == RenderBeginning(b)
    ensures RequestLine(s, i).Partial?
  {
    hide At, IsToken, Token, SkipSpaces, Path, Spaces, HttpVersion, RenderBeginning, IsPath;
    var m := i + |b.httpMethod|;
    PartsOfBeginning(s, i, b);
    if b.gap == 0 {
      OnlyToken(s, i, b.httpMethod);
    } else {
      SpacesBegin(s, m, b.gap);
      MethodReads(s, i, b.httpMethod);
      if b.path == [] {
        OnlySpaces(s, m, b.gap);
      } else {
        PathIsPartial(s, m, b);
      }
    }
  }

  lemma PathIsPartial(s: bytes, m: nat, b: Beginning)
    requires StillUnseen(b) && b.gap > 0 && b.path != []
    requires var p := m + b.gap;
             var q := p + |b.path|;
             && |s| == q + b.gap2 + |b.version| && At(s, m, Spaces(b.gap)) && At(s, p, b.path) && At(s, q, Spaces(b.gap2))
             && At(s, q + b.gap2, b.version)
    ensures m < |s| && SkipSpaces(s, m).Ok?
    ensures var path := Path(s, SkipSpaces(s, m).pos);
            || path.Partial?
            || (path.Ok? && SkipSpaces(s, path.pos).Partial?)
            || (path.Ok? && SkipSpaces(s, path.pos).Ok? && b.httpMethod != [] && path.value > 0
                && HttpVersion(s, SkipSpaces(s, path.pos).pos).Partial?)
  {
    hide At, IsToken, SkipSpaces, Path, Spaces, HttpVersion, IsPath;
    var p := m + b.gap;
    var q := p + |b.path|;
    var v := q + b.gap2;
    PathBegins(s, p, b.path);
    SpacesRead(s, m, b.gap);
    if b.gap2 == 0 {
      OnlyPath(s, p, b.path);
    } else {
      SpacesBegin(s, q, b.gap2);
      PathReads(s, p, b.path);
      if b.version == [] {
        OnlySpaces(s, q, b.gap2);
      } else {
        AtByte(s, v, b.version, 0);
        SpacesRead(s, q, b.gap2);
        TooShortForVersion(s, v);
      }
    }
  }

  lemma SpacesBegin(s: bytes, i: nat, n: nat)
    requires n > 0 && At(s, i, Spaces(n))
    ensures i + n <= |s| && s[i] == SP
  {
    AtByte(s, i, Spaces(n), 0);
  }

  lemma PathBegins(s: bytes, i: nat, t: bytes)
    requires t != [] && IsPath(t) && At(s, i, t)
    ensures i + |t| <= |s| && s[i] != SP
  {
    AtByte(s, i, t, 0);
  }

  lemma TooShortForVersion(s: bytes, v: nat)
    requires v <= |s| <= v + 8
    ensures HttpVersion(s, v).Partial?
  {}

  /** The other way round: where a request line stands that is not finished and was not refused. */
  lemma PartialIsBeginning(s: bytes, i: nat) returns (b: Beginning, minor: digit)
    requires i <= |s| && RequestLine(s, i).Partial?
    ensures s[i..] == RenderBeginning(b)
    ensures StillUnseen(b) || (GoodBeginning(b) && b.httpMethod != [] && b.version == Version(minor) + [13])
  {
    hide At, IsToken, Token, SkipSpaces, Path, Spaces, HttpVersion, RenderBeginning, NewLine, Version, IsPath;
    minor := 0;
    if Token(s, i, SP).Partial? {
      b := Beginning(s[i..], 0, [], 0, []);
      TokenSoFar(s, i);
      JustMethod(b);
      NoPath();
    } else {
      TokenWasRead(s, i);
      var m := Token(s, i, SP).pos;
      if SkipSpaces(s, m).Partial? {
        b := Beginning(s[i..m], |s| - m, [], 0, []);
        SpacesToTheEnd(s, m);
        NothingAt(s, |s|);
        PartsOfBeginning(s, i, b);
        NoPath();
      } else {
        var gap := SpacesWereRead(s, m);
        var p := m + gap;
        if Path(s, p).Partial? {
          b := Beginning(s[i..m], gap, s[p..], 0, []);
          PathSoFar(s, p);
          NothingAt(s, |s|);
          PartsOfBeginning(s, i, b);
        } else {
          b, minor := PartialBehindPath(s, i, m, gap);
        }
      }
    }
  }

  lemma JustMethod(b: Beginning)
    requires b.gap == 0 && b.path == [] && b.gap2 == 0 && b.version == []
    ensures RenderBeginning(b) == b.httpMethod
  {
    assert Spaces(0) == [];
  }

  lemma NoPath()
    ensures IsPath([])
  {}

  lemma NothingAt(s: bytes, i: nat)
    requires i <= |s|
    ensures At(s, i, []) && At(s, i, Spaces(0))
  {}

  lemma TokenSoFar(s: bytes, i: nat)
    requires i <= |s| && Token(s, i, SP).Partial?
    ensures s[i..] == [] || IsToken(s[i..])
  {
    hide IsTokenChar, IsToken;
    TokenText(s[i..]);
  }

  lemma PathSoFar(s: bytes, i: nat)
    requires i < |s| && s[i] != SP && Path(s, i).Partial?
    ensures IsPath(s[i..]) && s[i..] != [] && At(s, i, s[i..])
  {
    assert s[i..] == s[i..|s|];
  }

  lemma PathIsThere(s: bytes, i: nat)
    requires i < |s| && s[i] != SP && Path(s, i).Ok?
    ensures Path(s, i).value > 0
  {}

  lemma PartialBehindPath(s: bytes, i: nat, m: nat, gap: nat) returns (b: Beginning, minor: digit)
    requires i <= |s| && RequestLine(s, i).Partial?
    requires Token(s, i, SP) == Ok(m, m - i) && SkipSpaces(s, m).Ok? && SkipSpaces(s, m).pos == m + gap && gap > 0 && At(s, m, Spaces(gap)) && Path(s, m + gap).Ok?
    ensures s[i..] == RenderBeginning(b)
    ensures StillUnseen(b) || (GoodBeginning(b) && b.httpMethod != [] && b.version == Version(minor) + [13])
  {
    hide At, IsToken, Token, SkipSpaces, Path, Spaces, HttpVersion, RenderBeginning, NewLine, Version, IsPath, RequestLine;
    StagesBehindPath(s, i);
    minor := 0;
    var p := m + gap;
    var q := Path(s, p).pos;
    TokenWasRead(s, i);
    PathIsThere(s, p);
    PathWasRead(s, p);
    if SkipSpaces(s, q).Partial? {
      b := Beginning(s[i..m], gap, s[p..q], |s| - q, []);
      SpacesToTheEnd(s, q);
      NothingAt(s, |s|);
      PartsOfBeginning(s, i, b);
    } else {
      var gap2 := SpacesWereRead(s, q);
      var v := q + gap2;
      b := Beginning(s[i..m], gap, s[p..q], gap2, s[v..]);
      RestAt(s, v);
      PartsOfBeginning(s, i, b);
      if !HttpVersion(s, v).Partial? {
        VersionWasRead(s, v);
        minor := HttpVersion(s, v).value;
        OnlyCrBehind(s, v, minor);
      } else {
        VersionTooShort(s, v);
      }
    }
  }

  lemma StagesBehindPath(s: bytes, i: nat)
    requires i <= |s| && RequestLine(s, i).Partial? && Token(s, i, SP).Ok? && SkipSpaces(s, Token(s, i, SP).pos).Ok?
    requires Path(s, SkipSpaces(s, Token(s, i, SP).pos).pos).Ok?
    ensures var q := Path(s, SkipSpaces(s, Token(s, i, SP).pos).pos).pos;
            || SkipSpaces(s, q).Partial?
            || (SkipSpaces(s, q).Ok? && Token(s, i, SP).value > 0
                && var v := SkipSpaces(s, q).pos; HttpVersion(s, v).Partial? || (HttpVersion(s, v).Ok? && NewLine(s, v + 8).Partial?))
  {
    hide Token, SkipSpaces, Path, HttpVersion, NewLine;
  }

  lemma RestAt(s: bytes, v: nat)
    requires v <= |s|
    ensures At(s, v, s[v..])
  {
    assert s[v..] == s[v..|s|];
  }

  lemma VersionTooShort(s: bytes, v: nat)
    requires v <= |s| && HttpVersion(s, v).Partial?
    ensures |s| <= v + 8
  {}

  lemma OnlyCrBehind(s: bytes, v: nat, minor: digit)
    requires v + 8 < |s| && NewLine(s, v + 8).Partial? && At(s, v, Version(minor))
    ensures s[v..] == Version(minor) + [13]
  {
    assert s[v..] == s[v..v + 8] + [13];
  }

  // ---------------------------------------------------------------------------------------------
  // How a request goes on
  // ---------------------------------------------------------------------------------------------

  /** What is still missing of a request line. */
  function Filled(b: Beginning, minor: digit): RequestText {
    RequestText(None, if b.httpMethod == [] then ['G' as int] else b.httpMethod, if b.gap == 0 then 1 else b.gap,
                if b.path == [] then ['/' as int] else b.path, if b.gap2 == 0 then 1 else b.gap2, minor, true)
  }

  lemma BeginningGoesOn(b: Beginning, minor: digit)
    requires GoodBeginning(b) && (b.httpMethod == [] ==> b.gap == 0) && b.version <= Version(minor) + [13]
    ensures GoodRequestText(Filled(b, minor)) && RenderBeginning(b) <= RenderRequestLine(Filled(b, minor))
  {
    hide Version, IsToken, IsPath, Tchar;
    var r := Filled(b, minor);
    GIsMethod();
    var v := Version(minor) + Eol(true);
    assert Version(minor) + [13] <= v;
    var rest2 := Spaces(r.gap2) + v;
    assert Spaces(b.gap2) + b.version <= rest2;
    var rest1 := r.path + rest2;
    assert b.path + (Spaces(b.gap2) + b.version) <= rest1 by {
      if b.path == [] {
        assert Spaces(0) + [] == [];
      }
    }
    var rest := Spaces(r.gap) + rest1;
    assert Spaces(b.gap) + (b.path + (Spaces(b.gap2) + b.version)) <= rest by {
      if b.gap == 0 {
        assert Spaces(0) + ([] + (Spaces(0) + [])) == [];
      }
    }
    if b.httpMethod == [] {
      assert RenderBeginning(b) == [];
    }
  }

  lemma GIsMethod()
    ensures IsToken(['G' as int]) && IsPath(['/' as int])
  {}

  /** A text that some request begins with can be completed. */
  lemma RequestBegun(s: bytes, r: RequestText, max: nat)
    requires GoodRequestText(r) && s <= RenderRequest(r, [], false)
    ensures exists t: bytes :: ParseRequest(s + t, max).Ok?
  {
    hide ParseRequest, RenderRequest, GoodRequestText;
    var text := RenderRequest(r, [], false);
    RenderedRequestParses(r, [], false, [], max);
    assert text + [] == text == s + text[|s|..];
  }

  /** Of a request: nothing was refused, but no request begins like this. */
  ghost predicate Delayed(s: bytes) {
    exists leading, b :: Hopeless(b) && s == Leading(leading) + RenderBeginning(b)
  }

  lemma LineGoesOnToRequest(s: bytes, i: nat, leading: Option<bool>, max: nat)
    requires i <= |s| && s[..i] == Leading(leading) && RequestLine(s, i).Partial?
    ensures (exists t: bytes :: ParseRequest(s + t, max).Ok?) || Delayed(s)
  {
    hide RequestLine, ParseRequest, RenderBeginning, Leading, RenderRequestLine, Version, Hopeless, GoodRequestText, GoodBeginning;
    var b, minor := PartialIsBeginning(s, i);
    assert s == Leading(leading) + RenderBeginning(b);
    if Hopeless(b) {
    } else {
      var minor' := NotHopeless(b, minor);
      BeginningGoesOn(b, minor');
      var r := Filled(b, minor').(leading := leading);
      SameText(Filled(b, minor'), leading);
      assert RenderRequestLine(Filled(b, minor')) <= RenderRequestLine(r) + RenderBlock([], false);
      RequestBegun(s, r, max);
    }
  }

  lemma NotHopeless(b: Beginning, minor: digit) returns (minor': digit)
    requires !Hopeless(b)
    requires StillUnseen(b) || (GoodBeginning(b) && b.httpMethod != [] && b.version == Version(minor) + [13])
    ensures GoodBeginning(b) && (b.httpMethod == [] ==> b.gap == 0) && b.version <= Version(minor') + [13]
  {
    hide Version, GoodBeginning;
    if b.version == [] {
      minor' := 0;
    } else if StillUnseen(b) {
      minor' :| b.version <= Version(minor');
    } else {
      minor' := minor;
    }
  }

  lemma SameText(r: RequestText, leading: Option<bool>)
    requires GoodRequestText(r)
    ensures GoodRequestText(r.(leading := leading)) && RenderRequestLine(r.(leading := leading)) == RenderRequestLine(r)
  {}

  lemma {:induction false} RequestGoesOn(s: bytes, max: nat)
    requires ParseRequest(s, max).Partial?
    ensures (exists t: bytes :: ParseRequest(s + t, max).Ok?) || Delayed(s)
  {
    if LeadingLine(s).Partial? {
      NothingYet(s, max);
    } else {
      var i := LeadingLine(s).pos;
      if RequestLine(s, i).Partial? {
        var leading := LeadingWasRead(s);
        WholeFront(s, i, Leading(leading));
        LineGoesOnToRequest(s, i, leading, max);
      } else {
        HeadersOfRequestGoOn(s, max);
      }
    }
  }

  lemma WholeFront(s: bytes, i: nat, t: bytes)
    requires At(s, 0, t) && i == |t|
    ensures i <= |s| && s[..i] == t
  {
    assert s[0..i] == s[..i];
  }

  lemma NothingYet(s: bytes, max: nat)
    requires LeadingLine(s).Partial?
    ensures exists t: bytes :: ParseRequest(s + t, max).Ok?
  {
    var r := Filled(Beginning([], 0, [], 0, []), 0).(leading := Some(true));
    GIsMethod();
    hide RenderRequestLine;
    assert s <= [13, 10] + (RenderRequestLine(r) + RenderBlock([], false));
    RequestBegun(s, r, max);
  }

  lemma HeadersOfRequestGoOn(s: bytes, max: nat)
    requires ParseRequest(s, max).Partial? && LeadingLine(s).Ok? && RequestLine(s, LeadingLine(s).pos).Ok?
    ensures exists t: bytes :: ParseRequest(s + t, max).Ok?
  {
    hide LeadingLine, RequestLine, Headers;
    var i := LeadingLine(s).pos;
    var h := RequestLine(s, i).pos;
    var t := BlockGoesOn(s, h, [], max);
    LeadingLineOf(s);
    LeadingLineStable(s, s + t, |s|);
    RequestLineStable(s, s + t, |s|, i);
    assert ParseRequest(s + t, max).Ok?;
  }

  lemma LeadingLineOf(s: bytes)
    requires LeadingLine(s).Ok?
    ensures LeadingLine(s).pos <= |s| && |s| > 0
  {}

  lemma DelayedIsPartial(s: bytes, max: nat)
    requires Delayed(s)
    ensures ParseRequest(s, max).Partial?
  {
    hide Headers, RequestLine, Leading, RenderBeginning, StillUnseen, BeginsVersion;
    var leading, b :| Hopeless(b) && s == Leading(leading) + RenderBeginning(b);
    var i := |Leading(leading)|;
    LeadingBefore(s, leading, b);
    StillUnseenIsPartial(s, i, b);
  }

  /** The line does not begin with a line end, so an empty line before it is read as one. */
  lemma LeadingBefore(s: bytes, leading: Option<bool>, b: Beginning)
    requires Hopeless(b) && s == Leading(leading) + RenderBeginning(b)
    ensures LeadingLine(s) == Ok(|Leading(leading)|, ()) && s[|Leading(leading)|..] == RenderBeginning(b)
  {
    hide Tchar, IsPath;
    var i := |Leading(leading)|;
    NotEmpty(b);
    assert s[i] == RenderBeginning(b)[0];
    if leading.Some? {
      AtStart(Leading(leading), RenderBeginning(b));
      EolReads(s, 0, leading.value);
    }
  }

  lemma NotEmpty(b: Beginning)
    requires Hopeless(b)
    ensures RenderBeginning(b) != [] && RenderBeginning(b)[0] >= 32
  {
    if b.httpMethod != [] {
      TcharIsVisible(b.httpMethod[0]);
    } else {
      assert Spaces(b.gap)[0] == 32;
    }
  }

  lemma TcharIsVisible(c: byte)
    requires Tchar(c)
    ensures c > 32
  {}

  lemma AtLonger(s: bytes, p: nat, x: bytes, t: bytes)
    requires At(s, p, x)
    ensures At(s + t, p, x)
  {
    assert (s + t)[p..p + |x|] == s[p..p + |x|];
  }

  lemma BothAt(s: bytes, v: nat, t: bytes, u: bytes)
    requires At(s, v, t) && At(s, v, u) && |t| <= |u|
    ensures t <= u
  {
    assert t == s[v..v + |t|] == s[v..v + |u|][..|t|] == u[..|t|];
  }

  lemma NothingBeginsVersion()
    ensures BeginsVersion([])
  {
    assert [] <= Version(0);
  }

  lemma HopelessStays(s: bytes, i: nat, b: Beginning, t: bytes)
    requires i <= |s| && Hopeless(b) && s[i..] == RenderBeginning(b)
    ensures !RequestLine(s + t, i).Ok?
  {
    hide At, IsToken, Token, SkipSpaces, Path, Spaces, HttpVersion, RenderBeginning, NewLine, IsPath, Version, RequestLine;
    var u, m := s + t, i + |b.httpMethod|;
    var p := m + b.gap;
    var q := p + |b.path|;
    PartsOfBeginning(s, i, b);
    AtLonger(s, i, b.httpMethod, t);
    AtLonger(s, m, Spaces(b.gap), t);
    AtLonger(s, p, b.path, t);
    AtLonger(s, q, Spaces(b.gap2), t);
    AtLonger(s, q + b.gap2, b.version, t);
    NothingBeginsVersion();
    if b.httpMethod == [] {
      NoMethod(u, i, b.gap);
    } else {
      WrongVersion(u, i, b);
    }
  }

  lemma NoMethod(s: bytes, i: nat, gap: nat)
    requires gap > 0 && At(s, i, Spaces(gap))
    ensures !RequestLine(s, i).Ok?
  {
    hide Token, SkipSpaces, Path, HttpVersion;
    SpacesBegin(s, i, gap);
    assert At(s, i, []);
    MethodReads(s, i, []);
  }

  lemma WrongVersion(s: bytes, i: nat, b: Beginning)
    requires GoodBeginning(b) && b.httpMethod != [] && |b.version| <= 8 && b.version != [] && !BeginsVersion(b.version)
    requires var m := i + |b.httpMethod|;
             var p := m + b.gap;
             var q := p + |b.path|;
             && At(s, i, b.httpMethod) && At(s, m, Spaces(b.gap)) && At(s, p, b.path) && At(s, q, Spaces(b.gap2))
             && At(s, q + b.gap2, b.version)
    ensures !RequestLine(s, i).Ok?
  {
    hide At, IsToken, Spaces, HttpVersion, NewLine, IsPath, Version, BeginsVersion, RequestLine, Token, SkipSpaces, Path;
    var m := i + |b.httpMethod|;
    var p := m + b.gap;
    var q := p + |b.path|;
    AtFits(s, q + b.gap2, b.version);
    AtByte(s, q + b.gap2, b.version, 0);
    SpacesBegin(s, m, b.gap);
    PathBegins(s, p, b.path);
    SpacesBegin(s, q, b.gap2);
    MethodReads(s, i, b.httpMethod);
    SpacesRead(s, m, b.gap);
    PathReads(s, p, b.path);
    SpacesRead(s, q, b.gap2);
    NoVersion(s, q + b.gap2, b.version);
    if RequestLine(s, i).Ok? {
      RequestLineStages(s, i);
    }
  }

  lemma NoVersion(s: bytes, v: nat, t: bytes)
    requires At(s, v, t) && |t| <= 8 && !BeginsVersion(t)
    ensures !HttpVersion(s, v).Ok?
  {
    hide HttpVersion, Version;
    AtFits(s, v, t);
    if HttpVersion(s, v).Ok? {
      VersionWasRead(s, v);
      VersionLength(HttpVersion(s, v).value);
      BothAt(s, v, t, Version(HttpVersion(s, v).value));
    }
  }

  lemma VersionLength(minor: digit)
    ensures |Version(minor)| == 8
  {}

  /** What was not seen yet will be: such a text is the beginning of no request. */
  lemma DelayedIsNeverAccepted(s: bytes, t: bytes, max: nat)
    requires Delayed(s)
    ensures !ParseRequest(s + t, max).Ok?
  {
    hide Headers, RequestLine, Leading, RenderBeginning, StillUnseen, BeginsVersion;
    var leading, b :| Hopeless(b) && s == Leading(leading) + RenderBeginning(b);
    var i := |Leading(leading)|;
    LeadingBefore(s, leading, b);
    LeadingLineOf(s);
    LeadingLineStable(s, s + t, |s|);
    HopelessStays(s, i, b, t);
  }

  /** Of a request: -2 exactly if the text is the beginning of a request that would be accepted, or if it is a line
      that was not read far enough to see what is wrong with it; and -1 exactly if it is neither. */
  lemma RequestAnswersMean(s: bytes, max: nat)
    ensures ParseRequest(s, max).Partial?
       <==> !ParseRequest(s, max).Ok? && ((exists t: bytes :: ParseRequest(s + t, max).Ok?) || Delayed(s))
    ensures ParseRequest(s, max).Bad? <==> (forall t: bytes :: !ParseRequest(s + t, max).Ok?) && !Delayed(s)
  {
    hide ParseRequest, Delayed;
    assert s + [] == s;
    if ParseRequest(s, max).Partial? {
      RequestGoesOn(s, max);
    } else {
      if Delayed(s) {
        DelayedIsPartial(s, max);
      }
      forall t: bytes ensures ParseRequest(s + t, max) == ParseRequest(s, max) {
        RequestFinal(s, t, s, max);
      }
      assert ParseRequest(s + [], max) == ParseRequest(s, max);
    }
  }
}
