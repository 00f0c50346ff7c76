/** Bytes, the few characters the parsers name, and searching in a byte string. */
module Bytes {

  type byte = b: int | 0 <= b < 256

  type bytes = seq<byte>

  const TAB: byte := 9
  const LF: byte := 10
  const CR: byte := 13
  const SP: byte := 32

  predicate IsDigit(c: byte) {
    '0' as int <= c <= '9' as int
  }

  datatype Option<+T> = None | Some(value: T)

  /** The value of a hexadecimal digit in either case. */
  function HexDigit(c: byte): (r: Option<nat>)
    ensures r.Some? ==> r.value < 16
  {
    if '0' as int <= c <= '9' as int then Some(c - '0' as int)
    else if 'A' as int <= c <= 'F' as int then Some(10 + c - 'A' as int)
    else if 'a' as int <= c <= 'f' as int then Some(10 + c - 'a' as int)
    else None
  }

  predicate AllHex(s: bytes) {
    forall i | 0 <= i < |s| :: HexDigit(s[i]).Some?
  }

  function HexValue(s: bytes): nat
    requires AllHex(s)
  {
    if s == [] then 0 else 16 * HexValue(s[..|s| - 1]) + HexDigit(s[|s| - 1]).value
  }

  /** The bytes of a text that is written out. */
  function Ascii(text: string): (r: bytes)
    requires forall k | 0 <= k < |text| :: text[k] as int < 256
    ensures |r| == |text| && forall k | 0 <= k < |r| :: r[k] == text[k] as int
  {
    seq(|text|, k requires 0 <= k < |text| => text[k] as int)
  }

  /** A hexadecimal digit by its place in the written alphabets. */
  predicate IsHex(c: byte, k: nat) {
    k < 16 && (c as char == "0123456789abcdef"[k] || c as char == "0123456789ABCDEF"[k])
  }

  predicate NoHex(c: byte) {
    c as char !in "0123456789abcdefABCDEF"
  }

  /** A number in hexadecimal digits of either case. */
  predicate SpellsHex(t: bytes, n: nat)
    decreases |t|
  {
    if t == [] then n == 0 else IsHex(t[|t| - 1], n % 16) && SpellsHex(t[..|t| - 1], n / 16)
  }

  /** Sixteen digits in either case are what is read, each as its place in the alphabet, and nothing else is. */
  lemma HexDigitIs(c: byte)
    ensures forall k: nat :: HexDigit(c) == Some(k) <==> IsHex(c, k)
    ensures HexDigit(c) == None <==> NoHex(c)
  {
    hide HexDigit, IsHex, NoHex;
    forall k: nat ensures HexDigit(c) == Some(k) <==> IsHex(c, k) {
      HexDigitAt(c, k);
    }
    NoHexIs(c);
  }

  lemma HexDigitAt(c: byte, k: nat)
    ensures HexDigit(c) == Some(k) <==> IsHex(c, k)
  {}

  lemma NoHexIs(c: byte)
    ensures HexDigit(c) == None <==> NoHex(c)
  {}

  lemma {:induction false} HexValueIs(t: bytes, n: nat)
    ensures SpellsHex(t, n) <==> AllHex(t) && HexValue(t) == n
    decreases |t|
  {
    hide HexDigit, IsHex;
    if t != [] {
      var front, last := t[..|t| - 1], t[|t| - 1];
      HexDigitIs(last);
      HexValueIs(front, n / 16);
      assert t == front + [last];
    }
  }

  /** Pieces put together. */
  function Flatten(pieces: seq<bytes>): bytes {
    if |pieces| == 0 then [] else pieces[0] + Flatten(pieces[1..])
  }

  /** A text lies at a position. */
  predicate At(s: bytes, p: nat, t: bytes) {
    p + |t| <= |s| && s[p..p + |t|] == t
  }

  lemma AtFits(s: bytes, p: nat, t: bytes)
    requires At(s, p, t)
    ensures p + |t| <= |s|
  {}

  lemma AtSlice(s: bytes, a: nat, b: nat)
    requires a <= b <= |s|
    ensures At(s, a, s[a..b])
  {}

  lemma AtParts(s: bytes, p: nat, a: bytes, b: bytes)
    ensures At(s, p, a + b) <==> At(s, p, a) && At(s, p + |a|, b)
  {
    if p + |a| + |b| <= |s| {
      var t := s[p..p + |a + b|];
      assert s[p..p + |a|] == t[..|a|] && s[p + |a|..p + |a| + |b|] == t[|a|..];
      assert t == t[..|a|] + t[|a|..];
      assert (a + b)[..|a|] == a && (a + b)[|a|..] == b;
    }
  }

  lemma AtByte(s: bytes, p: nat, t: bytes, i: nat)
    requires At(s, p, t) && i < |t|
    ensures s[p + i] == t[i]
  {
    assert s[p..p + |t|][i] == s[p + i];
  }

  lemma AtBytes(s: bytes, p: nat, t: bytes)
    requires At(s, p, t)
    ensures forall k | 0 <= k < |t| :: s[p + k] == t[k]
  {
    forall k | 0 <= k < |t| ensures s[p + k] == t[k] {
      AtByte(s, p, t, k);
    }
  }

  /** The first index at or after i where stop holds, or |s|. */
  function Scan(s: bytes, i: nat, stop: byte -> bool): (r: nat)
    requires i <= |s|
    ensures i <= r <= |s|
    ensures forall k | i <= k < r :: !stop(s[k])
    ensures r < |s| ==> stop(s[r])
    decreases |s| - i
  {
    if i == |s| || stop(s[i]) then i else Scan(s, i + 1, stop)
  }

  lemma ScanUnique(s: bytes, i: nat, stop: byte -> bool, r: nat)
    requires i <= r <= |s|
    requires forall k | i <= k < r :: !stop(s[k])
    requires r < |s| ==> stop(s[r])
    ensures Scan(s, i, stop) == r
  {}
}
