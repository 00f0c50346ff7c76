/** What the answers -1 and -2 mean for responses. */
module HttpResponseAnswers {
  import opened Bytes
  import opened HttpGrammar
  import opened HttpStability
  import opened HttpRendering
  import opened HttpMessages
  import opened HttpAnswers

  /** The beginning of a status line, by how far it goes. The version is not looked at before nine bytes are there,
      the status not before there is a byte behind it, and the reason phrase not before its line has ended. */
  datatype Front =
    | InVersion(text: bytes)
    | InSpaces(minor: digit, gap: nat)
    | InStatus(minor: digit, gap: nat, text: bytes)
    | InReason(minor: digit, gap: nat, hundreds: digit, tens: digit, ones: digit, text: bytes, cr: bool)

  predicate GoodFront(f: Front) {
    match f
    case InVersion(text) => |text| <= 8
    case InSpaces(_, gap) => gap > 0
    case InStatus(_, gap, text) => gap > 0 && 1 <= |text| <= 3 && text[0] != 32
    case InReason(_, gap, _, _, _, text, _) => gap > 0 && IsText(text)
  }

  function RenderFront(f: Front): bytes {
    match f
    case InVersion(text) => text
    case InSpaces(minor, gap) => Version(minor) + Spaces(gap)
    case InStatus(minor, gap, text) => Version(minor) + (Spaces(gap) + text)
    case InReason(minor, gap, _, _, _, text, cr) => Version(minor) + (Spaces(gap) + (Digits(f) + (text + if cr then [13] else [])))
  }

  function Digits(f: Front): bytes
    requires f.InReason?
  {
    ['0' as int + f.hundreds, '0' as int + f.tens, '0' as int + f.ones]
  }

  predicate AllDigits(t: bytes) {
    forall k | 0 <= k < |t| :: '0' <= t[k] as char <= '9'
  }

  /** No status line begins like this: no version, a status with another byte than a digit in it, or something else
      than a space behind the status. */
  ghost predicate HopelessFront(f: Front) {
    match f
    case InVersion(text) => !BeginsVersion(text)
    case InSpaces(_, _) => false
    case InStatus(_, _, text) => !AllDigits(text)
    case InReason(_, _, _, _, _, text, _) => text != [] && text[0] != 32
  }

  // ---------------------------------------------------------------------------------------------
  // Where an unfinished status line stands
  // ---------------------------------------------------------------------------------------------

  lemma BehindSpaces(s: bytes, minor: digit, gap: nat)
    requires gap > 0 && At(s, 0, Version(minor)) && At(s, 8, Spaces(gap)) && 8 + gap < |s| && s[8 + gap] != 32
    ensures HttpVersion(s, 0) == Ok(8, minor) && s[8] == SP && SkipSpaces(s, 8) == Ok(8 + gap, ())
  {
    hide At, Version, Spaces;
    VersionReads(s, 0, minor);
    HttpMessages.SpacesBegin(s, 8, gap);
    SpacesRead(s, 8, gap);
  }

  lemma PartsOfFront(s: bytes, minor: digit, gap: nat, rest: bytes)
    ensures s == Version(minor) + (Spaces(gap) + rest)
       <==> At(s, 0, Version(minor)) && At(s, 8, Spaces(gap)) && At(s, 8 + gap, rest) && |s| == 8 + gap + |rest|
  {
    hide At, Version, Spaces;
    VersionLength(minor);
    SpacesLength(gap);
    WholeRest(s, 0, Version(minor) + (Spaces(gap) + rest));
    assert s[0..] == s;
    AtParts(s, 0, Version(minor), Spaces(gap) + rest);
    AtParts(s, 8, Spaces(gap), rest);
  }

  lemma FrontIsPartial(s: bytes, f: Front)
    requires GoodFront(f) && s == RenderFront(f)
    ensures StatusLine(s).Partial?
  {
    match f
    case InVersion(text) => TooShortForVersion(s, 0);
    case InSpaces(minor, gap) => SpacesArePartial(s, minor, gap);
    case InStatus(minor, gap, text) => StatusIsPartial(s, minor, gap, text);
    case InReason(minor, gap, _, _, _, text, cr) => ReasonIsPartial(s, f);
  }

  lemma SpacesArePartial(s: bytes, minor: digit, gap: nat)
    requires gap > 0 && s == Version(minor) + Spaces(gap)
    ensures StatusLine(s).Partial?
  {
    hide At, Version, Spaces, HttpVersion, SkipSpaces;
    assert s == Version(minor) + (Spaces(gap) + []);
    PartsOfFront(s, minor, gap, []);
    HttpMessages.SpacesBegin(s, 8, gap);
    VersionReads(s, 0, minor);
    OnlySpaces(s, 8, gap);
  }

  lemma StatusIsPartial(s: bytes, minor: digit, gap: nat, text: bytes)
    requires gap > 0 && 1 <= |text| <= 3 && text[0] != 32 && s == Version(minor) + (Spaces(gap) + text)
    ensures StatusLine(s).Partial?
  {
    hide At, Version, Spaces, HttpVersion, SkipSpaces;
    PartsOfFront(s, minor, gap, text);
    AtByte(s, 8 + gap, text, 0);
    BehindSpaces(s, minor, gap);
  }

  lemma UnfinishedText(s: bytes, i: nat, t: bytes, cr: bool)
    requires At(s, i, t + if cr then [13] else []) && IsText(t) && |s| == i + |t| + if cr then 1 else 0
    ensures TokenToEol(s, i).Partial?
  {
    var e := i + |t|;
    AtBytes(s, i, t + if cr then [13] else []);
    forall k | i <= k < e ensures !IsCtl(s[k]) {
      assert s[i + (k - i)] == t[k - i];
      TextByteIs(t[k - i]);
    }
    if cr {
      assert s[i + |t|] == 13;
    }
    ScanUnique(s, i, IsCtl, e);
  }

  lemma ThreeDigits(s: bytes, i: nat, f: Front)
    requires f.InReason? && At(s, i, Digits(f))
    ensures i + 3 <= |s| && s[i] != 32 && (i + 3 < |s| ==> Status(s, i).Ok? && Status(s, i).pos == i + 3)
  {
    AtBytes(s, i, Digits(f));
    assert s[i + 0] == Digits(f)[0] && s[i + 1] == Digits(f)[1] && s[i + 2] == Digits(f)[2];
  }

  lemma ReasonIsPartial(s: bytes, f: Front)
    requires f.InReason? && GoodFront(f) && s == RenderFront(f)
    ensures StatusLine(s).Partial?
  {
    hide At, Version, Spaces, HttpVersion, SkipSpaces, Status, TokenToEol, IsText, Digits;
    var q, text := 8 + f.gap, f.text + if f.cr then [13] else [];
    PartsOfFront(s, f.minor, f.gap, Digits(f) + text);
    AtParts(s, q, Digits(f), text);
    ThreeDigits(s, q, f);
    BehindSpaces(s, f.minor, f.gap);
    assert |Digits(f)| == 3 by { DigitsLength(f); }
    UnfinishedText(s, q + 3, f.text, f.cr);
    if |s| == q + 3 {
      assert Status(s, q).Partial? by { NoByteBehind(s, q); }
    }
  }

  lemma DigitsLength(f: Front)
    requires f.InReason?
    ensures |Digits(f)| == 3
  {}

  lemma NoByteBehind(s: bytes, q: nat)
    requires q <= |s| <= q + 3
    ensures Status(s, q).Partial?
  {}

  /** The other way round. */
  lemma PartialIsFront(s: bytes) returns (f: Front)
    requires StatusLine(s).Partial?
    ensures GoodFront(f) && s == RenderFront(f)
  {
    hide At, Version, Spaces, HttpVersion, SkipSpaces, Status, TokenToEol, IsText;
    if HttpVersion(s, 0).Partial? {
      VersionTooShort(s, 0);
      f := InVersion(s);
    } else {
      VersionWasRead(s, 0);
      var minor := HttpVersion(s, 0).value;
      assert s[8] == SP;
      if SkipSpaces(s, 8).Partial? {
        f := InSpaces(minor, |s| - 8);
        SpacesToTheEnd(s, 8);
        NothingAt(s, |s|);
        PartsOfFront(s, minor, |s| - 8, []);
        assert Spaces(|s| - 8) + [] == Spaces(|s| - 8);
      } else {
        var gap := SpacesWereRead(s, 8);
        f := BehindSpacesOf(s, minor, gap);
      }
    }
  }

  lemma BehindSpacesOf(s: bytes, minor: digit, gap: nat) returns (f: Front)
    requires StatusLine(s).Partial? && HttpVersion(s, 0) == Ok(8, minor) && s[8] == SP && gap > 0
    requires SkipSpaces(s, 8).Ok? && SkipSpaces(s, 8).pos == 8 + gap && At(s, 0, Version(minor)) && At(s, 8, Spaces(gap))
    ensures GoodFront(f) && s == RenderFront(f)
  {
    hide At, Version, Spaces, HttpVersion, SkipSpaces, Status, TokenToEol, IsText, Digits;
    var q := 8 + gap;
    if Status(s, q).Partial? {
      StatusTooShort(s, q);
      f := InStatus(minor, gap, s[q..]);
      RestAt(s, q);
      PartsOfFront(s, minor, gap, s[q..]);
    } else {
      var hundreds, tens, ones := StatusWasRead(s, q);
      var text, cr := TextSoFar(s, q + 3);
      f := InReason(minor, gap, hundreds, tens, ones, text, cr);
      assert Digits(f) == ['0' as int + hundreds, '0' as int + tens, '0' as int + ones] by { DigitsOf(f); }
      AtParts(s, q, Digits(f), text + if cr then [13] else []);
      PartsOfFront(s, minor, gap, Digits(f) + (text + if cr then [13] else []));
    }
  }

  lemma DigitsOf(f: Front)
    requires f.InReason?
    ensures Digits(f) == ['0' as int + f.hundreds, '0' as int + f.tens, '0' as int + f.ones]
  {}

  lemma StatusTooShort(s: bytes, q: nat)
    requires q <= |s| && Status(s, q).Partial?
    ensures |s| <= q + 3
  {}

  /** The text of a line without its end: there may be a carriage return. */
  lemma TextSoFar(s: bytes, i: nat) returns (text: bytes, cr: bool)
    requires i <= |s| && TokenToEol(s, i).Partial?
    ensures IsText(text) && At(s, i, text + if cr then [13] else []) && |s| == i + |text| + if cr then 1 else 0
  {
    var e := Scan(s, i, IsCtl);
    text, cr := s[i..e], e < |s|;
    forall k | 0 <= k < |text| ensures IsTextByte(text[k]) {
      TextByteIs(s[i + k]);
    }
    RestAt(s, i);
    assert s[i..] == text + if cr then [13] else [];
  }

  // ---------------------------------------------------------------------------------------------
  // How it goes on
  // ---------------------------------------------------------------------------------------------

  /** What is still missing, with the text behind the status cut at the end of its spaces. */
  function FilledFront(f: Front, minor: digit, spaces: nat): ResponseText
    requires f.InReason? ==> spaces <= |f.text|
    requires f.InStatus? ==> AllDigits(f.text)
  {
    match f
    case InVersion(_) => ResponseText(minor, 1, 2, 0, 0, 0, [], true)
    case InSpaces(m, gap) => ResponseText(m, gap, 2, 0, 0, 0, [], true)
    case InStatus(m, gap, text) => ResponseText(m, gap, DigitAt(text, 0), DigitAt(text, 1), DigitAt(text, 2), 0, [], true)
    case InReason(m, gap, hundreds, tens, ones, text, _) => ResponseText(m, gap, hundreds, tens, ones, spaces, text[spaces..], true)
  }

  function DigitAt(text: bytes, k: nat): digit
    requires AllDigits(text)
  {
    if k < |text| then text[k] - '0' as int else 0
  }

  lemma FrontGoesOn(f: Front) returns (r: ResponseText)
    requires GoodFront(f) && !HopelessFront(f)
    ensures GoodResponseText(r) && RenderFront(f) <= RenderStatusLine(r)
  {
    hide Version, IsText;
    NoText();
    match f {
      case InVersion(text) =>
        var minor: digit :| text <= Version(minor);
        r := FilledFront(f, minor, 0);
        assert Version(minor) <= RenderStatusLine(r);
      case InSpaces(minor, gap) =>
        r := FilledFront(f, 0, 0);
        assert Spaces(gap) <= Spaces(gap) + (StatusDigits(r) + ((Spaces(0) + []) + Eol(true)));
      case InStatus(minor, gap, text) =>
        r := FilledFront(f, 0, 0);
        assert text <= StatusDigits(r);
        assert Spaces(gap) + text <= Spaces(gap) + (StatusDigits(r) + ((Spaces(0) + []) + Eol(true)));
      case InReason(_, _, _, _, _, _, _) =>
        r := ReasonGoesOn(f);
    }
  }

  lemma NoText()
    ensures IsText([])
  {}

  lemma ReasonGoesOn(f: Front) returns (r: ResponseText)
    requires f.InReason? && GoodFront(f) && !HopelessFront(f)
    ensures GoodResponseText(r) && RenderFront(f) <= RenderStatusLine(r)
  {
    hide Version, IsTextByte;
    var text := f.text;
    var n := Scan(text, 0, NotSpace);
    r := FilledFront(f, 0, n);
    assert Spaces(n) + text[n..] == text;
    assert text + (if f.cr then [13] else []) <= text + Eol(true);
    assert Digits(f) == StatusDigits(r);
    assert Digits(f) + (text + (if f.cr then [13] else [])) <= StatusDigits(r) + (text + Eol(true));
    assert Spaces(f.gap) + (Digits(f) + (text + (if f.cr then [13] else []))) <= Spaces(f.gap) + (StatusDigits(r) + (text + Eol(true)));
  }

  /** Of a response: nothing was refused, but no response begins like this. */
  ghost predicate DelayedResponse(s: bytes) {
    exists f :: GoodFront(f) && HopelessFront(f) && s == RenderFront(f)
  }

  lemma ResponseGoesOn(s: bytes, max: nat)
    requires ParseResponse(s, max).Partial?
    ensures (exists t: bytes :: ParseResponse(s + t, max).Ok?) || DelayedResponse(s)
  {
    hide StatusLine, Headers, HopelessFront, GoodFront, RenderFront;
    if StatusLine(s).Partial? {
      var f := PartialIsFront(s);
      if !HopelessFront(f) {
        var r := FrontGoesOn(f);
        ResponseBegun(s, r, max);
      }
    } else {
      var t := BlockGoesOn(s, StatusLine(s).pos, [], max);
      StatusLineStable(s, s + t, |s|);
      assert ParseResponse(s + t, max).Ok?;
    }
  }

  lemma ResponseBegun(s: bytes, r: ResponseText, max: nat)
    requires GoodResponseText(r) && s <= RenderStatusLine(r)
    ensures exists t: bytes :: ParseResponse(s + t, max).Ok?
  {
    hide ParseResponse, RenderStatusLine, GoodResponseText;
    var text := RenderResponse(r, [], false);
    RenderedResponseParses(r, [], false, [], max);
    assert text + [] == text == s + text[|s|..];
  }

  lemma HopelessFrontStays(s: bytes, f: Front, t: bytes)
    requires GoodFront(f) && HopelessFront(f) && s == RenderFront(f)
    ensures !StatusLine(s + t).Ok?
  {
    hide StatusLine, At, Version, Spaces;
    WholeRest(s, 0, s);
    assert s[0..] == s;
    match f
    case InVersion(text) =>
      AtLonger(s, 0, text, t);
      NoVersion(s + t, 0, text);
      if StatusLine(s + t).Ok? {
        StatusLineStages(s + t);
      }
    case InStatus(minor, gap, text) =>
      PartsOfFront(s, minor, gap, text);
      AtLonger(s, 0, Version(minor), t);
      AtLonger(s, 8, Spaces(gap), t);
      AtLonger(s, 8 + gap, text, t);
      WrongStatus(s + t, minor, gap, text);
    case InReason(minor, gap, _, _, _, text, cr) =>
      var rest := text + if cr then [13] else [];
      PartsOfFront(s, minor, gap, Digits(f) + rest);
      AtParts(s, 8 + gap, Digits(f), rest);
      AtLonger(s, 0, Version(minor), t);
      AtLonger(s, 8, Spaces(gap), t);
      AtLonger(s, 8 + gap, Digits(f), t);
      AtLonger(s, 8 + gap + 3, rest, t);
      WrongReason(s + t, f, rest);
  }

  lemma WrongStatus(s: bytes, minor: digit, gap: nat, text: bytes)
    requires gap > 0 && 1 <= |text| <= 3 && text[0] != 32 && !AllDigits(text)
    requires At(s, 0, Version(minor)) && At(s, 8, Spaces(gap)) && At(s, 8 + gap, text)
    ensures !StatusLine(s).Ok?
  {
    hide At, Version, Spaces, StatusLine, HttpVersion, SkipSpaces;
    AtFits(s, 8 + gap, text);
    AtBytes(s, 8 + gap, text);
    AtByte(s, 8 + gap, text, 0);
    BehindSpaces(s, minor, gap);
    var k :| 0 <= k < |text| && !('0' <= text[k] as char <= '9');
    assert s[8 + gap + k] == text[k];
    if StatusLine(s).Ok? {
      StatusLineStages(s);
    }
  }

  lemma WrongReason(s: bytes, f: Front, rest: bytes)
    requires f.InReason? && f.gap > 0 && rest != [] && rest[0] != 32 && IsTextByte(rest[0])
    requires At(s, 0, Version(f.minor)) && At(s, 8, Spaces(f.gap)) && At(s, 8 + f.gap, Digits(f)) && At(s, 8 + f.gap + 3, rest)
    ensures !StatusLine(s).Ok?
  {
    hide At, Version, Spaces, StatusLine, HttpVersion, SkipSpaces, Status, Digits;
    var q := 8 + f.gap;
    AtFits(s, q + 3, rest);
    AtByte(s, q + 3, rest, 0);
    ThreeDigits(s, q, f);
    BehindSpaces(s, f.minor, f.gap);
    TextByteIs(rest[0]);
    if StatusLine(s).Ok? {
      StatusLineStages(s);
    }
  }

  /** What was not seen yet will be. */
  lemma DelayedResponseIsNeverAccepted(s: bytes, t: bytes, max: nat)
    requires DelayedResponse(s)
    ensures !ParseResponse(s + t, max).Ok?
  {
    hide StatusLine, Headers, GoodFront, HopelessFront, RenderFront;
    var f :| GoodFront(f) && HopelessFront(f) && s == RenderFront(f);
    HopelessFrontStays(s, f, t);
  }

  lemma DelayedResponseIsPartial(s: bytes, max: nat)
    requires DelayedResponse(s)
    ensures ParseResponse(s, max).Partial?
  {
    hide StatusLine, Headers, GoodFront, HopelessFront, RenderFront;
    var f :| GoodFront(f) && HopelessFront(f) && s == RenderFront(f);
    FrontIsPartial(s, f);
  }

  /** The same of a response: -2 exactly for the beginnings of responses that would be accepted and for the status
      lines that were not read far enough, -1 exactly for all other texts that are not accepted. */
  lemma ResponseAnswersMean(s: bytes, max: nat)
    ensures ParseResponse(s, max).Partial?
       <==> !ParseResponse(s, max).Ok? && ((exists t: bytes :: ParseResponse(s + t, max).Ok?) || DelayedResponse(s))
    ensures ParseResponse(s, max).Bad? <==> (forall t: bytes :: !ParseResponse(s + t, max).Ok?) && !DelayedResponse(s)
  {
    hide ParseResponse, DelayedResponse;
    assert s + [] == s;
    if ParseResponse(s, max).Partial? {
      ResponseGoesOn(s, max);
    } else {
      if DelayedResponse(s) {
        DelayedResponseIsPartial(s, max);
      }
      forall t: bytes ensures ParseResponse(s + t, max) == ParseResponse(s, max) {
        ResponseFinal(s, t, s, max);
      }
      assert ParseResponse(s + [], max) == ParseResponse(s, max);
    }
  }
}
