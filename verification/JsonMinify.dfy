/** cJSON_Minify: white space and comments taken out of a text, in place. */
module JsonMinify {
  import opened Bytes
  import opened JsonString
  import opened JsonTree

  const SLASH: byte := '/' as int
  const STAR: byte := '*' as int

  // ---------------------------------------------------------------------------------------------
  // What is left of a text
  // ---------------------------------------------------------------------------------------------

  predicate IsWhite(c: byte) {
    c == SP || c == TAB || c == CR || c == LF
  }

  predicate IsPlain(c: byte) {
    !IsWhite(c) && c != SLASH && c != QUOTE
  }

  function SkipLine(t: bytes): (r: bytes)
    ensures |r| <= |t|
  {
    if t == [] then [] else if t[0] == LF then t[1..] else SkipLine(t[1..])
  }

  function SkipComment(t: bytes): (r: bytes)
    ensures |r| <= |t|
  {
    if t == [] then [] else if t[0] == STAR && |t| > 1 && t[1] == SLASH then t[2..] else SkipComment(t[1..])
  }

  /** The minified text, outside of a string. */
  function Min(t: bytes): bytes
    decreases |t|
  {
    if t == [] then []
    else if IsWhite(t[0]) then Min(t[1..])
    else if t[0] == SLASH then
      if |t| > 1 && t[1] == SLASH then Min(SkipLine(t[2..]))
      else if |t| > 1 && t[1] == STAR then Min(SkipComment(t[2..]))
      else Min(t[1..])
    else if t[0] == QUOTE then [QUOTE] + InString(t[1..])
    else [t[0]] + Min(t[1..])
  }

  /** The minified text, inside of a string: a quote after a backslash does not end it. */
  function InString(t: bytes): bytes
    decreases |t|
  {
    if t == [] then []
    else if t[0] == QUOTE then [QUOTE] + Min(t[1..])
    else if t[0] == BACKSLASH && |t| > 1 && t[1] == QUOTE then [BACKSLASH, QUOTE] + InString(t[2..])
    else [t[0]] + InString(t[1..])
  }

  // ---------------------------------------------------------------------------------------------
  // In place
  // ---------------------------------------------------------------------------------------------

  /** The text before the terminator, from position i. */
  ghost predicate Rest(json: array<byte>, i: nat, t: bytes)
    reads json
  {
    i + |t| < json.Length && json[i..i + |t|] == t && json[i + |t|] == 0 && NoNul(t)
  }

  lemma RestAt(json: array<byte>, i: nat, t: bytes)
    requires Rest(json, i, t)
    ensures i + |t| < json.Length
    ensures json[i] == (if t == [] then 0 else t[0]) && (json[i] == 0 <==> t == [])
    ensures t != [] ==> json[i + 1] == (if |t| == 1 then 0 else t[1]) && Rest(json, i + 1, t[1..])
  {
    if t != [] {
      assert json[i..i + |t|][0] == json[i];
      assert json[i + 1..i + |t|] == json[i..i + |t|][1..];
      if |t| > 1 {
        assert json[i..i + |t|][1] == json[i + 1];
      }
    }
  }

  /** One byte moved down. */
  method CopyByte(json: array<byte>, read: nat, into: nat, ghost t: bytes)
    requires Rest(json, read, t) && t != [] && into <= read
    modifies json
    ensures json[..into + 1] == old(json[..into]) + [t[0]]
    ensures forall k | into < k < json.Length :: json[k] == old(json[k])
    ensures Rest(json, read + 1, t[1..])
  {
    RestAt(json, read, t);
    ghost var tail := json[read + 1..];
    json[into] := json[read];
    assert json[..into + 1] == json[..into] + [json[into]];
    assert json[read + 1..] == tail;
    assert json[read + 1..read + |t|] == tail[..|t| - 1];
  }

  method SkipOnelineComment(json: array<byte>, read: nat, ghost t: bytes) returns (next: nat)
    requires |t| >= 2 && Rest(json, read, t)
    ensures next + |SkipLine(t[2..])| == read + |t| && Rest(json, next, SkipLine(t[2..]))
  {
    hide Rest;
    RestAt(json, read, t);
    RestAt(json, read + 1, t[1..]);
    assert t[1..][1..] == t[2..];
    next := read + 2;
    ghost var u := t[2..];
    while true
      invariant next + |u| == read + |t| && Rest(json, next, u) && SkipLine(u) == SkipLine(t[2..])
      decreases |u|
    {
      RestAt(json, next, u);
      if json[next] == 0 {
        return;
      }
      if json[next] == LF {
        return next + 1;
      }
      next, u := next + 1, u[1..];
    }
  }

  method SkipMultilineComment(json: array<byte>, read: nat, ghost t: bytes) returns (next: nat)
    requires |t| >= 2 && Rest(json, read, t)
    ensures next + |SkipComment(t[2..])| == read + |t| && Rest(json, next, SkipComment(t[2..]))
  {
    hide Rest;
    RestAt(json, read, t);
    RestAt(json, read + 1, t[1..]);
    assert t[1..][1..] == t[2..];
    next := read + 2;
    ghost var u := t[2..];
    while true
      invariant next + |u| == read + |t| && Rest(json, next, u) && SkipComment(u) == SkipComment(t[2..])
      decreases |u|
    {
      RestAt(json, next, u);
      if json[next] == 0 {
        return;
      }
      if json[next] == STAR && json[next + 1] == SLASH {
        RestAt(json, next + 1, u[1..]);
        assert u[1..][1..] == u[2..];
        return next + 2;
      }
      next, u := next + 1, u[1..];
    }
  }

  /** The state between two bytes: what is written, and what the rest of the text will add, is one and the same. */
  ghost predicate Working(json: array<byte>, read: nat, into: nat, t: bytes, more: bytes, goal: bytes)
    reads json
  {
    0 <= into <= read && read + |t| < json.Length && Rest(json, read, t) && NoNul(json[..into]) && json[..into] + more == goal
  }

  /** A byte that stays is moved down. */
  method KeepByte(json: array<byte>, read: nat, into: nat, ghost t: bytes, ghost more: bytes, ghost goal: bytes)
    requires t != [] && Working(json, read, into, t, [t[0]] + more, goal)
    modifies json
    ensures Working(json, read + 1, into + 1, t[1..], more, goal)
    ensures forall k | into < k < json.Length :: json[k] == old(json[k])
  {
    hide Rest;
    RestAt(json, read, t);
    ghost var front, c := json[..into], t[0];
    assert front + [c] + more == front + ([c] + more);
    CopyByte(json, read, into, t);
    RestAt(json, read + 1, t[1..]);
  }

  method KeepTwoBytes(json: array<byte>, read: nat, into: nat, ghost t: bytes, ghost more: bytes, ghost goal: bytes)
    requires |t| > 1 && Working(json, read, into, t, [t[0]] + ([t[1]] + more), goal)
    modifies json
    ensures Working(json, read + 2, into + 2, t[2..], more, goal)
    ensures forall k | into + 1 < k < json.Length :: json[k] == old(json[k])
  {
    hide Working;
    KeepByte(json, read, into, t, [t[1]] + more, goal);
    KeepByte(json, read + 1, into + 1, t[1..], more, goal);
    assert t[1..][1..] == t[2..];
  }

  lemma WorkingAt(json: array<byte>, read: nat, into: nat, t: bytes, more: bytes, goal: bytes)
    requires Working(json, read, into, t, more, goal)
    ensures into <= read < json.Length
    ensures json[read] == (if t == [] then 0 else t[0]) && (json[read] == 0 <==> t == [])
    ensures t != [] ==> read + 1 < json.Length && json[read + 1] == (if |t| == 1 then 0 else t[1])
  {
    RestAt(json, read, t);
  }

  method MinifyString(json: array<byte>, start: nat, startInto: nat, ghost text: bytes, ghost goal: bytes)
      returns (read: nat, into: nat, ghost t: bytes)
    requires text != [] && text[0] == QUOTE && Working(json, start, startInto, text, Min(text), goal)
    modifies json
    ensures |t| < |text| && read + |t| == start + |text| && Working(json, read, into, t, Min(t), goal)
    ensures startInto <= into && forall k | into <= k < json.Length :: json[k] == old(json[k])
  {
    hide Min, InString, Rest, Working;
    MinStep(text);
    KeepByte(json, start, startInto, text, InString(text[1..]), goal);
    read, into, t := start + 1, startInto + 1, text[1..];
    while true
      invariant |t| < |text| && read + |t| == start + |text| && startInto <= into && Working(json, read, into, t, InString(t), goal)
      invariant forall k | into <= k < json.Length :: json[k] == old(json[k])
      decreases |t|
    {
      WorkingAt(json, read, into, t, InString(t), goal);
      InStringStep(t);
      if json[read] == 0 {
        return;
      }
      if json[read] == QUOTE {
        KeepByte(json, read, into, t, Min(t[1..]), goal);
        return read + 1, into + 1, t[1..];
      }
      if json[read] == BACKSLASH && json[read + 1] == QUOTE {
        KeepTwoBytes(json, read, into, t, InString(t[2..]), goal);
        read, into, t := read + 2, into + 2, t[2..];
      } else {
        KeepByte(json, read, into, t, InString(t[1..]), goal);
        read, into, t := read + 1, into + 1, t[1..];
      }
    }
  }

  /** The write position never passes the read position, and nothing behind the new terminator is touched. */
  method Minify(json: array<byte>, ghost text: bytes)
    requires Rest(json, 0, text)
    modifies json
    ensures |Min(text)| <= |text| && Rest(json, 0, Min(text))
    ensures forall k | |Min(text)| < k < json.Length :: json[k] == old(json[k])
  {
    hide Min, InString, Rest;
    var read: nat, into: nat := 0, 0;
    ghost var t := text;
    RestAt(json, 0, text);
    assert json[..0] + Min(text) == Min(text);
    while true
      invariant read + |t| == |text| && Working(json, read, into, t, Min(t), Min(text))
      invariant forall k | into <= k < json.Length :: json[k] == old(json[k])
      decreases |t|
    {
      RestAt(json, read, t);
      MinStep(t);
      var c := json[read];
      if c == 0 {
        break;
      }
      if c == SP || c == TAB || c == CR || c == LF {
        read, t := read + 1, t[1..];
      } else if c == SLASH {
        if json[read + 1] == SLASH {
          read := SkipOnelineComment(json, read, t);
          t := SkipLine(t[2..]);
        } else if json[read + 1] == STAR {
          read := SkipMultilineComment(json, read, t);
          t := SkipComment(t[2..]);
        } else {
          read, t := read + 1, t[1..];
        }
      } else if c == QUOTE {
        read, into, t := MinifyString(json, read, into, t, Min(text));
      } else {
        KeepByte(json, read, into, t, Min(t[1..]), Min(text));
        read, into, t := read + 1, into + 1, t[1..];
      }
    }
    Terminate(json, into, Min(text));
  }

  method Terminate(json: array<byte>, into: nat, ghost t: bytes)
    requires into < json.Length && json[..into] + [] == t && NoNul(json[..into])
    modifies json
    ensures |t| == into && Rest(json, 0, t) && forall k | into < k < json.Length :: json[k] == old(json[k])
  {
    json[into] := 0;
    assert json[0..0 + |t|] == json[..into];
  }

  lemma MinStep(t: bytes)
    ensures t == [] ==> Min(t) == []
    ensures t != [] && IsWhite(t[0]) ==> Min(t) == Min(t[1..])
    ensures t != [] && t[0] == SLASH ==>
              Min(t) == if |t| > 1 && t[1] == SLASH then Min(SkipLine(t[2..]))
                        else if |t| > 1 && t[1] == STAR then Min(SkipComment(t[2..])) else Min(t[1..])
    ensures t != [] && t[0] == QUOTE ==> Min(t) == [QUOTE] + InString(t[1..])
    ensures t != [] && IsPlain(t[0]) ==> Min(t) == [t[0]] + Min(t[1..])
  {}

  lemma InStringStep(t: bytes)
    ensures t == [] ==> InString(t) == [] == Min(t)
    ensures t != [] && t[0] == QUOTE ==> InString(t) == [QUOTE] + Min(t[1..])
    ensures t != [] && t[0] != QUOTE ==>
              InString(t) == if t[0] == BACKSLASH && |t| > 1 && t[1] == QUOTE then [t[0]] + ([QUOTE] + InString(t[2..]))
                             else [t[0]] + InString(t[1..])
  {}
}
