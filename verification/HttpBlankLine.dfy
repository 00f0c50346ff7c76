/** What the check for a blank line finds, said without the scan that finds it. */
module HttpBlankLine {
  import opened Bytes
  import opened HttpGrammar

  /** A carriage return that something else than a line feed follows. */
  predicate BareCr(s: bytes, k: nat)
    requires k < |s|
  {
    s[k] == 13 && k + 1 < |s| && s[k + 1] != 10
  }

  ghost predicate HasBareCr(s: bytes, i: nat) {
    exists k | i <= k < |s| :: BareCr(s, k)
  }

  /** At e an empty line ends: a line end right behind another one, or right at i when one was just passed.
      Nothing between i and e is a bare carriage return. */
  ghost predicate BlankAt(s: bytes, i: nat, lines: nat, e: nat) {
    && i <= e < |s| && (s[e] == 10 || (s[e] == 13 && e + 1 < |s| && s[e + 1] == 10))
    && (if e == i then lines == 1 else s[e - 1] == 10)
    && forall k | i <= k < e :: !BareCr(s, k)
  }

  ghost predicate Blank(s: bytes, i: nat) {
    exists e :: BlankAt(s, i, 0, e)
  }

  lemma {:induction false} BlankWhenFound(s: bytes, i: nat, lines: nat) returns (e: nat)
    requires i <= |s| && lines < 2 && BlankLine(s, i, lines).Ok?
    ensures BlankAt(s, i, lines, e)
    decreases |s| - i
  {
    if !AtLineEnd(s, i) {
      e := BlankWhenFound(s, i + 1, 0);
    } else if lines == 1 {
      e := i;
    } else {
      e := BlankWhenFound(s, NewLine(s, i).pos, 1);
    }
  }

  lemma {:induction false} FoundWhenBlank(s: bytes, i: nat, lines: nat, e: nat)
    requires i <= |s| && lines < 2 && BlankAt(s, i, lines, e)
    ensures BlankLine(s, i, lines).Ok?
    decreases |s| - i
  {
    if !AtLineEnd(s, i) {
      FoundWhenBlank(s, i + 1, 0, e);
    } else {
      assert !BareCr(s, i);
      var n := NewLine(s, i).pos;
      if lines == 0 {
        assert n <= e;
        FoundWhenBlank(s, n, 1, e);
      }
    }
  }

  lemma {:induction false} BadWhenBareCr(s: bytes, i: nat, lines: nat)
    requires i <= |s| && lines < 2 && !BlankLine(s, i, lines).Ok?
    ensures BlankLine(s, i, lines).Bad? <==> HasBareCr(s, i)
    decreases |s| - i
  {
    if i < |s| {
      if !AtLineEnd(s, i) {
        BadWhenBareCr(s, i + 1, 0);
      } else if NewLine(s, i).Bad? {
        assert BareCr(s, i);
      } else if NewLine(s, i).Ok? {
        BadWhenBareCr(s, NewLine(s, i).pos, 1);
      }
      if HasBareCr(s, i) {
        var k :| i <= k < |s| && BareCr(s, k);
        assert k > i || NewLine(s, i).Bad?;
      }
    }
  }

  /** The three answers of the scan: a blank line, else a bare carriage return, else neither. */
  lemma BlankLineMeans(s: bytes, i: nat, lines: nat)
    requires i <= |s| && lines < 2
    ensures BlankLine(s, i, lines).Ok? <==> exists e :: BlankAt(s, i, lines, e)
    ensures BlankLine(s, i, lines).Bad? <==> !(exists e :: BlankAt(s, i, lines, e)) && HasBareCr(s, i)
  {
    hide BlankLine, BlankAt, HasBareCr;
    if BlankLine(s, i, lines).Ok? {
      var e := BlankWhenFound(s, i, lines);
    } else {
      BadWhenBareCr(s, i, lines);
      if e :| BlankAt(s, i, lines, e) {
        FoundWhenBlank(s, i, lines, e);
      }
    }
  }

  lemma ScanMeans(s: bytes, i: nat)
    requires i <= |s|
    ensures BlankLine(s, i, 0).Ok? <==> Blank(s, i)
    ensures BlankLine(s, i, 0).Bad? <==> !Blank(s, i) && HasBareCr(s, i)
  {
    hide BlankLine, BlankAt, HasBareCr;
    BlankLineMeans(s, i, 0);
  }
}
