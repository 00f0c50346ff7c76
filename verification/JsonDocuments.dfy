/** Whole JSON documents: what cJSON_ParseWithLengthOpts takes, and what it makes of the printer's text. */
module JsonDocuments {
  import opened Bytes
  import opened JsonString
  import opened JsonTree
  import opened JsonGrammar
  import opened JsonTokens
  import opened JsonSpelling

  /** A text of a tree, with or without a byte order mark, and white space on both sides. */
  datatype Document = Document(bom: bool, before: bytes, value: Spelling, after: bytes)

  ghost predicate GoodDocument(d: Document) {
    White(d.before) && Good(d.value) && White(d.after)
  }

  function Mark(d: Document): bytes {
    if d.bom then [0xef, 0xbb, 0xbf] else []
  }

  /** Up to the last byte of the value. */
  function UpToValue(d: Document): bytes {
    Mark(d) + (d.before + Render(d.value))
  }

  function Written(d: Document): bytes {
    UpToValue(d) + d.after
  }

  // ---------------------------------------------------------------------------------------------
  // Where the value begins
  // ---------------------------------------------------------------------------------------------

  /** A buffer of at most four bytes is not searched for the mark. */
  function AfterMark(s: bytes): nat {
    if |s| > 4 && At(s, 0, BOM) then 3 else 0
  }

  lemma MarkIsSeen(s: bytes, d: Document)
    requires GoodDocument(d) && At(s, 0, UpToValue(d)) && (d.bom ==> |s| > 4)
    ensures AfterMark(s) == |Mark(d)| && SkipWhitespace(s, AfterMark(s)) == |Mark(d)| + |d.before|
    ensures At(s, |Mark(d)| + |d.before|, Render(d.value))
  {
    hide At, SkipWhitespace, Render, White;
    var text, start := Render(d.value), |Mark(d)| + |d.before|;
    SpellingStarts(d.value);
    AtParts(s, 0, Mark(d), d.before + text);
    AtParts(s, |Mark(d)|, d.before, text);
    AtByte(s, start, text, 0);
    AtFits(s, start, text);
    if !d.bom {
      NoMark(s, d.before);
    }
    WhiteIsSkipped(s, |Mark(d)|, d.before);
  }

  lemma NoMark(s: bytes, w: bytes)
    requires At(s, 0, w) && White(w) && |w| < |s| && s[|w|] < 127
    ensures !At(s, 0, BOM)
  {
    if At(s, 0, BOM) {
      AtByte(s, 0, BOM, 0);
      if w != [] {
        AtByte(s, 0, w, 0);
      }
    }
  }

  // ---------------------------------------------------------------------------------------------
  // Every document is read
  // ---------------------------------------------------------------------------------------------

  lemma DocumentAt(s: bytes)
    requires s != []
    ensures SkipWhitespace(s, AfterMark(s)) <= |s|
    ensures ParseDocument(s, false) == ParseValue(s, SkipWhitespace(s, AfterMark(s)), 0)
    ensures var o := ParseValue(s, SkipWhitespace(s, AfterMark(s)), 0);
            !o.Parsed? ==> ParseDocument(s, true) == o
    ensures var o := ParseValue(s, SkipWhitespace(s, AfterMark(s)), 0);
            o.Parsed? ==>
              var end := SkipWhitespace(s, o.next);
              ParseDocument(s, true) == if Is(s, end, 0) then Parsed(end, o.value) else Rejected
  {
    hide ParseValue, SkipWhitespace;
  }

  /** Without a terminator: the value is followed by anything that could not go on with a number. */
  lemma PrefixReads(s: bytes, d: Document)
    requires GoodDocument(d) && At(s, 0, UpToValue(d)) && Ends(s, |UpToValue(d)|) && (d.bom ==> |s| > 4)
    ensures s != [] && SkipWhitespace(s, AfterMark(s)) <= |s|
    ensures ParseValue(s, SkipWhitespace(s, AfterMark(s)), 0)
         == ParseDocument(s, false)
         == Verdict(Height(Meaning(d.value)) <= 1000, |UpToValue(d)|, Meaning(d.value))
  {
    hide At, SkipWhitespace, Render, Good, ParseValue, ParseDocument, Meaning, Height, AfterMark;
    MarkIsSeen(s, d);
    SpellingStarts(d.value);
    AtFits(s, 0, UpToValue(d));
    SpellingReads(s, |Mark(d)| + |d.before|, d.value, 0);
    DocumentAt(s);
  }

  lemma EndsAtTerminator(s: bytes, p: nat, w: bytes)
    requires White(w) && p + |w| + 1 == |s| && At(s, p, w + [0])
    ensures Ends(s, p) && SkipWhitespace(s, p) == |s| - 1 && Is(s, |s| - 1, 0)
  {
    AtBytes(s, p, w + [0]);
    forall k | p <= k < |s| ensures s[k] <= 32 {
      assert s[p + (k - p)] == (w + [0])[k - p];
    }
    assert s[p + |w|] == 0;
    ScanUnique(s, p, c => c > 32, |s|);
  }

  /** Any document with its terminator is read to its end, as the tree it stands for, if that is not nested too
      deeply; it is refused otherwise. */
  lemma DocumentReads(d: Document)
    requires GoodDocument(d)
    ensures var s, v := Written(d) + [0], Meaning(d.value);
            && ParseDocument(s, true) == Verdict(Height(v) <= 1000, |Written(d)|, v)
            && ParseDocument(s, false) == Verdict(Height(v) <= 1000, |UpToValue(d)|, v)
  {
    hide At, SkipWhitespace, ParseValue, ParseDocument, AfterMark, Meaning, Height, Good, White, Render;
    var s := Written(d) + [0];
    var n := |UpToValue(d)|;
    assert s == UpToValue(d) + (d.after + [0]);
    SpellingStarts(d.value);
    WholeAt(s);
    AtParts(s, 0, UpToValue(d), d.after + [0]);
    EndsAtTerminator(s, n, d.after);
    PrefixReads(s, d);
    DocumentAt(s);
  }

  lemma WholeAt(s: bytes)
    ensures At(s, 0, s)
  {
    assert s[0..|s|] == s;
  }

  // ---------------------------------------------------------------------------------------------
  // Whatever is read is a document
  // ---------------------------------------------------------------------------------------------

  lemma PrefixWasWritten(s: bytes) returns (d: Document)
    requires s != [] && ParseDocument(s, false).Parsed? && Ends(s, ParseDocument(s, false).next)
    ensures GoodDocument(d) && d.after == [] && (d.bom ==> |s| > 4)
    ensures At(s, 0, UpToValue(d)) && ParseDocument(s, false) == Parsed(|UpToValue(d)|, Meaning(d.value))
    ensures Height(Meaning(d.value)) <= 1000
  {
    hide At, SkipWhitespace, ParseValue, ParseDocument, Meaning, Height, Good, White, Render;
    DocumentAt(s);
    var start := SkipWhitespace(s, AfterMark(s));
    ValueAhead(s, start, 0);
    WhiteBefore(s, AfterMark(s), s[start]);
    var sp := ValueWasSpelled(s, start, 0);
    d := Document(AfterMark(s) == 3, s[AfterMark(s)..start], sp, []);
    assert White([]) by { NoWhite(); }
    MarkIsThere(s);
    AtParts(s, |Mark(d)|, d.before, Render(sp));
    AtParts(s, 0, Mark(d), d.before + Render(sp));
    PrefixReads(s, d);
  }

  lemma MarkIsThere(s: bytes)
    ensures At(s, 0, if AfterMark(s) == 3 then BOM else [])
  {
    assert s[0..0] == [];
  }

  lemma SlackIsWhite(s: bytes, p: nat)
    requires p <= |s| && Is(s, SkipWhitespace(s, p), 0)
    ensures p < |s| && SkipWhitespace(s, p) == |s| - 1 && White(s[p..|s| - 1]) && Ends(s, p)
  {}

  lemma DocumentWasWritten(s: bytes) returns (d: Document)
    requires ParseDocument(s, true).Parsed?
    ensures GoodDocument(d) && s == Written(d) + [0] && Height(Meaning(d.value)) <= 1000
    ensures ParseDocument(s, true) == Parsed(|Written(d)|, Meaning(d.value))
  {
    hide At, SkipWhitespace, ParseValue, Meaning, Height, Good, White, Render;
    assert s != [];
    hide ParseDocument;
    DocumentAt(s);
    var n := ParseDocument(s, false).next;
    SlackIsWhite(s, n);
    var front := PrefixWasWritten(s);
    d := front.(after := s[n..|s| - 1]);
    PrefixIs(s, UpToValue(front));
    assert s == s[..n] + s[n..|s| - 1] + [s[|s| - 1]];
  }

  lemma PrefixIs(s: bytes, t: bytes)
    ensures At(s, 0, t) <==> t <= s
  {
    if |t| <= |s| {
      assert s[0..|t|] == s[..|t|];
    }
  }

  // ---------------------------------------------------------------------------------------------
  // The main results
  // ---------------------------------------------------------------------------------------------

  /** With a terminator demanded, the accepted buffers are exactly the documents with one zero byte behind them. */
  lemma DocumentsAreSpellings(s: bytes, n: nat, v: Json)
    ensures ParseDocument(s, true) == Parsed(n, v)
       <==> && n + 1 == |s| && Height(v) <= 1000
            && exists d :: GoodDocument(d) && Meaning(d.value) == v && s == Written(d) + [0]
  {
    hide ParseDocument, GoodDocument, Written, Meaning, Height;
    if ParseDocument(s, true) == Parsed(n, v) {
      var d := DocumentWasWritten(s);
    }
    if d :| GoodDocument(d) && Meaning(d.value) == v && s == Written(d) + [0] {
      DocumentReads(d);
    }
  }

  /** Without that demand, n bytes are taken, and no number goes on behind them, exactly when those bytes are a
      document without white space at its end. A mark in front of a single byte is not seen. */
  lemma PrefixesAreSpellings(s: bytes, n: nat, v: Json)
    requires Ends(s, n)
    ensures ParseDocument(s, false) == Parsed(n, v)
       <==> && n <= |s| && Height(v) <= 1000
            && exists d :: && GoodDocument(d) && d.after == [] && Meaning(d.value) == v && s[..n] == Written(d)
                           && (d.bom ==> |s| > 4)
  {
    hide ParseDocument, GoodDocument, UpToValue, Meaning, Height;
    if ParseDocument(s, false) == Parsed(n, v) {
      NothingIsRead();
      var d := PrefixWasWritten(s);
      PrefixIs(s, UpToValue(d));
      assert Written(d) == UpToValue(d);
    }
    if n <= |s| {
      if d :| GoodDocument(d) && d.after == [] && Meaning(d.value) == v && s[..n] == Written(d) && (d.bom ==> |s| > 4) {
        assert Written(d) == UpToValue(d);
        PrefixIs(s, UpToValue(d));
        PrefixReads(s, d);
      }
    }
  }

  lemma NothingIsRead()
    ensures ParseDocument([], false).Rejected?
  {}

  lemma OneIsDecimal()
    ensures IsDecimal(['1' as int], 1)
  {
    assert ['1' as int][..0] == [];
  }

  /** A mark and a single digit: read when there is a terminator, refused without one. */
  lemma MarkNotSeen()
    ensures ParseDocument([0xef, 0xbb, 0xbf, '1' as int], false).Rejected?
    ensures ParseDocument([0xef, 0xbb, 0xbf, '1' as int, 0], false) == Parsed(4, Num(1))
  {
    var text: bytes := ['1' as int];
    var s := BOM + text;
    assert s == [0xef, 0xbb, 0xbf, '1' as int] && s + [0] == [0xef, 0xbb, 0xbf, '1' as int, 0];
    assert ParseDocument(s, false).Rejected? by {
      NoName(s, 0);
      SkipsTo(s, 0, 0);
    }
    hide ParseDocument, IsDecimal, White;
    var d := Document(true, [], Number(text, 1), []);
    OneIsDecimal();
    assert White([]) by { NoWhite(); }
    assert UpToValue(d) == Written(d) == s;
    DocumentReads(d);
  }
}
