/** The Rust `str` operations the decoders use: prefix tests, `find`,
    `lines`, `trim`, `split`, `trim_start_matches` and byte counting. */
module Str {
  import opened Common
  import Utf8

  /** `s.starts_with(p)`. */
  predicate StartsWith(s: string, p: string) {
    |p| <= |s| && s[..|p|] == p
  }

  /** `s.find(c)`, as a char index: the first occurrence of `c`. */
  function IndexOf(s: string, c: char): (r: Option<nat>)
    ensures r.None? <==> c !in s
    ensures r.Some? ==> r.value < |s| && s[r.value] == c && c !in s[..r.value]
  {
    if s == [] then None
    else if s[0] == c then Some(0)
    else
      match IndexOf(s[1..], c)
      case None => None
      case Some(i) =>
        assert s[..i + 1] == [s[0]] + s[1..][..i];
        Some(i + 1)
  }

  lemma IndexOfAfter(a: string, c: char, rest: string)
    requires c !in a
    ensures IndexOf(a + [c] + rest, c) == Some(|a|)
  {
    var s := a + [c] + rest;
    assert s[|a|] == c;
  }

  /** Regrouping step for the solver, used where pushes are chained. */
  lemma AppendAssoc(a: string, b: string, c: string)
    ensures a + b + c == a + (b + c)
  {
  }

  /** Drops one trailing carriage return. */
  function StripCR(line: string): (r: string)
    ensures r == line || line == r + "\r"
    ensures r == line[..|r|]
  {
    if line != [] && line[|line| - 1] == '\r' then line[..|line| - 1] else line
  }

  /** `s.lines()`: the pieces between '\n' characters, each without one
      trailing '\r'; a final '\n' does not start an extra empty line. */
  function Lines(s: string): (r: seq<string>)
    ensures r == [] <==> s == []
    ensures forall l <- r :: '\n' !in l
    decreases |s|
  {
    if s == [] then []
    else
      match IndexOf(s, '\n')
      case None => [StripCR(s)]
      case Some(i) => [StripCR(s[..i])] + Lines(s[i + 1..])
  }

  lemma LinesCons(line: string, rest: string)
    requires '\n' !in line
    ensures Lines(line + "\n" + rest) == [StripCR(line)] + Lines(rest)
  {
    var s := line + "\n" + rest;
    IndexOfAfter(line, '\n', rest);
    assert s[..|line|] == line;
    assert s[|line| + 1..] == rest;
  }

  lemma LinesThree(l1: string, l2: string, l3: string, rest: string)
    requires '\n' !in l1 && '\n' !in l2 && '\n' !in l3
    ensures Lines(l1 + "\n" + (l2 + "\n" + (l3 + "\n" + rest)))
            == [StripCR(l1), StripCR(l2), StripCR(l3)] + Lines(rest)
  {
    LinesNested(l1, l2, l3, rest);
    ConsThree(StripCR(l1), StripCR(l2), StripCR(l3), Lines(rest));
  }

  lemma LinesNested(l1: string, l2: string, l3: string, rest: string)
    requires '\n' !in l1 && '\n' !in l2 && '\n' !in l3
    ensures Lines(l1 + "\n" + (l2 + "\n" + (l3 + "\n" + rest)))
            == [StripCR(l1)] + ([StripCR(l2)] + ([StripCR(l3)] + Lines(rest)))
  {
    var t3 := l3 + "\n" + rest;
    var t2 := l2 + "\n" + t3;
    LinesCons(l3, rest);
    LinesCons(l2, t3);
    LinesCons(l1, t2);
  }

  /** Regrouping step for the solver. */
  lemma ConsThree(a: string, b: string, c: string, tail: seq<string>)
    ensures [a] + ([b] + ([c] + tail)) == [a, b, c] + tail
  {
  }

  lemma LinesTwo(l1: string, l2: string)
    requires '\n' !in l1 && '\n' !in l2 && l2 != []
    ensures Lines(l1 + "\n" + l2) == [StripCR(l1), StripCR(l2)]
  {
    LinesCons(l1, l2);
    LinesSingle(l2);
  }

  lemma LinesSingle(line: string)
    requires '\n' !in line && line != []
    ensures Lines(line) == [StripCR(line)]
  {
  }

  /** Rust's `char::is_whitespace`: the Unicode White_Space property. */
  predicate IsWhitespace(c: char) {
    var n := c as int;
    n == 0x20 || 0x09 <= n <= 0x0D || n == 0x85 || n == 0xA0 || n == 0x1680
    || 0x2000 <= n <= 0x200A || n == 0x2028 || n == 0x2029 || n == 0x202F
    || n == 0x205F || n == 0x3000
  }

  predicate AllWhitespace(s: string) {
    forall i | 0 <= i < |s| :: IsWhitespace(s[i])
  }

  /** `s.trim_start()`: the suffix left after dropping leading whitespace. */
  function TrimStart(s: string): (r: string)
    ensures |r| <= |s| && r == s[|s| - |r|..]
    ensures AllWhitespace(s[..|s| - |r|])
    ensures r == [] || !IsWhitespace(r[0])
  {
    if s != [] && IsWhitespace(s[0]) then
      var r := TrimStart(s[1..]);
      assert s[..|s| - |r|] == [s[0]] + s[1..][..|s| - 1 - |r|];
      r
    else s
  }

  /** `s.trim_end()`: the prefix left after dropping trailing whitespace. */
  function TrimEnd(s: string): (r: string)
    ensures |r| <= |s| && r == s[..|r|]
    ensures AllWhitespace(s[|r|..])
    ensures r == [] || !IsWhitespace(r[|r| - 1])
  {
    if s != [] && IsWhitespace(s[|s| - 1]) then
      var r := TrimEnd(s[..|s| - 1]);
      assert s[|r|..] == s[..|s| - 1][|r|..] + [s[|s| - 1]];
      r
    else s
  }

  /** `s.trim()`: `s` without its leading and trailing whitespace. */
  function Trim(s: string): (r: string)
    ensures r == [] || (!IsWhitespace(r[0]) && !IsWhitespace(r[|r| - 1]))
  {
    var t := TrimStart(s);
    var r := TrimEnd(t);
    assert r != [] ==> r[0] == t[0];
    r
  }

  /** `s.trim().is_empty()` holds exactly for all-whitespace strings. */
  lemma TrimEmptyIff(s: string)
    ensures Trim(s) == [] <==> AllWhitespace(s)
  {
    var t := TrimStart(s);
    if AllWhitespace(s) {
      assert AllWhitespace(t);
      assert TrimEnd(t) == [];
    }
  }

  /** `s.split(c)`: the pieces between occurrences of `c` (at least one). */
  function Split(s: string, c: char): (r: seq<string>)
    ensures |r| >= 1
    ensures forall piece <- r :: c !in piece
    decreases |s|
  {
    match IndexOf(s, c)
    case None => [s]
    case Some(i) => [s[..i]] + Split(s[i + 1..], c)
  }

  lemma SplitCons(a: string, c: char, rest: string)
    requires c !in a
    ensures Split(a + [c] + rest, c) == [a] + Split(rest, c)
  {
    var s := a + [c] + rest;
    IndexOfAfter(a, c, rest);
    assert s[..|a|] == a;
    assert s[|a| + 1..] == rest;
  }

  /** Number of occurrences of `b` in `bytes` (`filter(..).count()`). */
  function CountByte(bytes: seq<byte>, b: byte): nat {
    if bytes == [] then 0
    else (if bytes[0] == b then 1 else 0) + CountByte(bytes[1..], b)
  }

  /** Number of occurrences of `c` in `s`. */
  function CountChar(s: string, c: char): nat {
    if s == [] then 0
    else (if s[0] == c then 1 else 0) + CountChar(s[1..], c)
  }

  lemma {:induction false} CountByteAppend(a: seq<byte>, b: seq<byte>, x: byte)
    ensures CountByte(a + b, x) == CountByte(a, x) + CountByte(b, x)
  {
    if a == [] {
      assert a + b == b;
    } else {
      assert (a + b)[1..] == a[1..] + b;
      CountByteAppend(a[1..], b, x);
    }
  }

  /** Counting an ASCII byte in the UTF-8 bytes of `s` counts that character:
      no multi-byte encoding contains an ASCII byte. */
  lemma {:induction false} CountAsciiByte(s: string, c: char)
    requires Utf8.IsAscii(c)
    ensures CountByte(Utf8.Encode(s), c as int) == CountChar(s, c)
  {
    if s != [] {
      var head := Utf8.EncodeChar(s[0]);
      CountByteAppend(head, Utf8.Encode(s[1..]), c as int);
      if !Utf8.IsAscii(s[0]) {
        Utf8.EncodeCharMultiByte(s[0]);
        assert CountByte(head[1..], c as int) == 0 by {
          ContinuationFree(head[1..], c as int);
        }
      }
      CountAsciiByte(s[1..], c);
    }
  }

  lemma {:induction false} ContinuationFree(bytes: seq<byte>, x: byte)
    requires x < 0x80
    requires forall i | 0 <= i < |bytes| :: 0x80 <= bytes[i]
    ensures CountByte(bytes, x) == 0
  {
    if bytes != [] {
      ContinuationFree(bytes[1..], x);
    }
  }

  /** `p` repeated `k` times. */
  function Repeat(p: string, k: nat): string {
    if k == 0 then "" else p + Repeat(p, k - 1)
  }

  /** `s.trim_start_matches(p)`: drops every leading repetition of `p`. */
  function TrimStartMatches(s: string, p: string): (r: string)
    requires p != []
    ensures !StartsWith(r, p)
    decreases |s|
  {
    if StartsWith(s, p) then TrimStartMatches(s[|p|..], p) else s
  }

  /** One copy of `p` in front of text that does not start with `p` is
      exactly what `trim_start_matches` drops. */
  lemma TrimStartMatchesOnce(p: string, rest: string)
    requires p != [] && !StartsWith(rest, p)
    ensures TrimStartMatches(p + rest, p) == rest
  {
    assert (p + rest)[..|p|] == p;
    assert (p + rest)[|p|..] == rest;
  }

  /** What `trim_start_matches` drops is a whole number of copies of `p`. */
  lemma {:induction false} TrimStartMatchesShape(s: string, p: string) returns (k: nat)
    requires p != []
    ensures s == Repeat(p, k) + TrimStartMatches(s, p)
    decreases |s|
  {
    if StartsWith(s, p) {
      var k' := TrimStartMatchesShape(s[|p|..], p);
      k := k' + 1;
      assert s == p + s[|p|..];
    } else {
      k := 0;
    }
  }
}
