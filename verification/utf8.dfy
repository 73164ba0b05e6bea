/** The UTF-8 view of Rust `str` values: a string's bytes, its byte length
    (`str::len`), and slicing by byte offsets (`str::get(a..b)`, and `&s[a..b]`,
    which panics exactly where `get` returns `None`). */
module Utf8 {
  import opened Common

  predicate IsAscii(c: char) {
    c as int < 0x80
  }

  predicate AllAscii(s: string) {
    forall i | 0 <= i < |s| :: IsAscii(s[i])
  }

  lemma AllAsciiAppend(a: string, b: string)
    requires AllAscii(a) && AllAscii(b)
    ensures AllAscii(a + b)
  {
    assert forall i | |a| <= i < |a + b| :: (a + b)[i] == b[i - |a|];
  }

  /** Number of bytes of the UTF-8 encoding of `c` (`char::len_utf8`). */
  function Width(c: char): (w: nat)
    ensures 1 <= w <= 4
    ensures w == 1 <==> IsAscii(c)
  {
    var n := c as int;
    if n < 0x80 then 1 else if n < 0x800 then 2 else if n < 0x1_0000 then 3 else 4
  }

  /** The UTF-8 encoding of one character. */
  function EncodeChar(c: char): (r: seq<byte>)
    ensures |r| == Width(c)
    ensures IsAscii(c) ==> r == [c as int]
  {
    var n := c as int;
    if n < 0x80 then [n]
    else if n < 0x800 then [0xC0 + n / 0x40, 0x80 + n % 0x40]
    else if n < 0x1_0000 then [0xE0 + n / 0x1000, 0x80 + n / 0x40 % 0x40, 0x80 + n % 0x40]
    else [0xF0 + n / 0x4_0000, 0x80 + n / 0x1000 % 0x40, 0x80 + n / 0x40 % 0x40, 0x80 + n % 0x40]
  }

  /** A multi-byte encoding starts with a lead byte and continues with
      continuation bytes, none of them ASCII. */
  lemma EncodeCharMultiByte(c: char)
    requires !IsAscii(c)
    ensures 0xC0 <= EncodeChar(c)[0]
    ensures forall i | 1 <= i < Width(c) :: 0x80 <= EncodeChar(c)[i] < 0xC0
  {
  }

  /** The bytes of a string (`str::as_bytes`, `str::bytes`). */
  function Encode(s: string): (r: seq<byte>)
    ensures |s| <= |r| <= 4 * |s|
  {
    if s == [] then [] else EncodeChar(s[0]) + Encode(s[1..])
  }

  /** Byte length of a string (`str::len`). */
  function Len(s: string): nat {
    |Encode(s)|
  }

  lemma {:induction false} EncodeAppend(a: string, b: string)
    ensures Encode(a + b) == Encode(a) + Encode(b)
  {
    if a == [] {
      assert a + b == b;
    } else {
      assert (a + b)[1..] == a[1..] + b;
      EncodeAppend(a[1..], b);
    }
  }

  lemma LenAppend(a: string, b: string)
    ensures Len(a + b) == Len(a) + Len(b)
  {
    EncodeAppend(a, b);
  }

  /** An ASCII string is its own byte sequence. */
  lemma {:induction false} EncodeAllAscii(s: string)
    requires AllAscii(s)
    ensures Len(s) == |s|
    ensures forall i | 0 <= i < |s| :: Encode(s)[i] == s[i] as int
  {
    if s != [] {
      EncodeAllAscii(s[1..]);
    }
  }

  /** The char index of `s` whose byte offset is `b`, when `b` is a char
      boundary of `s` (the offsets `str::is_char_boundary` accepts). */
  function CharIndex(s: string, b: nat): (r: Option<nat>)
    ensures r.Some? ==> r.value <= |s| && Len(s[..r.value]) == b
  {
    if b == 0 then
      Some(0)
    else if s == [] || b < Width(s[0]) then
      None
    else
      match CharIndex(s[1..], b - Width(s[0]))
      case None => None
      case Some(k) =>
        assert s[..k + 1] == [s[0]] + s[1..][..k];
        EncodeAppend([s[0]], s[1..][..k]);
        Some(k + 1)
  }

  /** Every char index is found again from its byte offset. */
  lemma {:induction false} CharIndexOfBoundary(s: string, k: nat)
    requires k <= |s|
    ensures CharIndex(s, Len(s[..k])) == Some(k)
  {
    if k > 0 {
      LenOfPrefix(s, k);
      CharIndexOfBoundary(s[1..], k - 1);
    }
  }

  /** The bytes of a non-empty prefix: its first character's, then the rest's. */
  lemma LenOfPrefix(s: string, k: nat)
    requires 0 < k <= |s|
    ensures Len(s[..k]) == Width(s[0]) + Len(s[1..][..k - 1])
  {
    assert s[..k] == [s[0]] + s[1..][..k - 1];
    EncodeAppend([s[0]], s[1..][..k - 1]);
    assert Encode([s[0]]) == EncodeChar(s[0]);
  }

  lemma LenOfSlices(s: string, i: nat, j: nat)
    requires i <= j <= |s|
    ensures Len(s[..j]) == Len(s[..i]) + Len(s[i..j])
    ensures Len(s[..j]) >= Len(s[..i]) + (j - i)
  {
    assert s[..j] == s[..i] + s[i..j];
    EncodeAppend(s[..i], s[i..j]);
  }

  /** Whether byte offset `b` falls between two characters of `s`, or at
      either end (`str::is_char_boundary`). */
  predicate IsCharBoundary(s: string, b: nat) {
    exists k | 0 <= k <= |s| :: Len(s[..k]) == b
  }

  /** `CharIndex` finds exactly the char boundaries. */
  lemma CharIndexIff(s: string, b: nat)
    ensures CharIndex(s, b).Some? <==> IsCharBoundary(s, b)
  {
    if IsCharBoundary(s, b) {
      var k :| 0 <= k <= |s| && Len(s[..k]) == b;
      CharIndexOfBoundary(s, k);
    }
  }

  /** The characters from index `i` to `j` are the bytes between their
      byte offsets. */
  lemma EncodeSlice(s: string, i: nat, j: nat)
    requires i <= j <= |s|
    ensures Len(s[..i]) <= Len(s[..j]) <= Len(s)
    ensures Encode(s[i..j]) == Encode(s)[Len(s[..i])..Len(s[..j])]
  {
    EncodeThreeParts(s, i, j);
    SliceParts(s, i, j);
    EncodeAppend(s[..i], s[i..j]);
    MiddleOf(Encode(s[..i]), Encode(s[i..j]), Encode(s[j..]));
  }

  lemma SliceParts(s: string, i: nat, j: nat)
    requires i <= j <= |s|
    ensures s[..j] == s[..i] + s[i..j] && s == s[..j] + s[j..]
  {
  }

  lemma EncodeThreeParts(s: string, i: nat, j: nat)
    requires i <= j <= |s|
    ensures Encode(s) == Encode(s[..i]) + Encode(s[i..j]) + Encode(s[j..])
  {
    SliceParts(s, i, j);
    EncodeAppend(s[..i], s[i..j]);
    EncodeAppend(s[..j], s[j..]);
  }

  lemma MiddleOf(x: seq<byte>, y: seq<byte>, z: seq<byte>)
    ensures (x + y + z)[|x|..|x| + |y|] == y
  {
  }

  /** Rust's `s.get(a..b)`: the substring whose bytes lie between byte
      offsets `a` and `b`, or `None` when `a > b` or either offset is not a
      char boundary of `s` (past the end included). */
  function Get(s: string, a: nat, b: nat): (r: Option<string>)
    ensures r.Some? <==> a <= b && IsCharBoundary(s, a) && IsCharBoundary(s, b)
    ensures r.Some? ==> b <= Len(s) && Len(r.value) == b - a && Encode(r.value) == Encode(s)[a..b]
  {
    CharIndexIff(s, a);
    CharIndexIff(s, b);
    if a > b then None
    else
      var i, j := CharIndex(s, a), CharIndex(s, b);
      if i.None? || j.None? then None
      else if j.value < i.value then
        LenOfSlices(s, j.value, i.value);
        assert false;
        None
      else
        EncodeSlice(s, i.value, j.value);
        Some(s[i.value..j.value])
  }

  /** Past an ASCII prefix of length `n`, `get(n..n + 1)` yields the next
      character exactly when there is one and it is ASCII. */
  lemma GetAfterAsciiPrefix(s: string, n: nat)
    requires n <= |s| && AllAscii(s[..n])
    ensures Get(s, n, n + 1) == if n < |s| && IsAscii(s[n]) then Some([s[n]]) else None
  {
    if n < |s| && IsAscii(s[n]) {
      AsciiCharAt(s, n);
    } else {
      EncodeAllAscii(s[..n]);
      NoBoundaryAfter(s, n);
    }
  }

  /** An ASCII character after an ASCII prefix is sliced out by its byte
      offsets. */
  lemma AsciiCharAt(s: string, n: nat)
    requires n < |s| && AllAscii(s[..n]) && IsAscii(s[n])
    ensures Get(s, n, n + 1) == Some([s[n]])
  {
    var p := s[..n + 1];
    assert AllAscii(p);
    GetAscii(p, n, n + 1);
    assert p[n..n + 1] == [s[n]];
    GetOfPrefix(s, n + 1, n, n + 1);
  }

  /** After `n` bytes of single-byte characters, `n + 1` is a char boundary
      only when one more single-byte character follows. */
  lemma NoBoundaryAfter(s: string, n: nat)
    requires n <= |s| && Len(s[..n]) == n && !(n < |s| && IsAscii(s[n]))
    ensures !IsCharBoundary(s, n + 1)
  {
    forall k | 0 <= k <= |s|
      ensures Len(s[..k]) != n + 1
    {
      if k <= n {
        LenOfSlices(s, k, n);
      } else {
        LenOfSlices(s, n + 1, k);
        LenOfPrefix(s[n..], 1);
        assert s[..n + 1] == s[..n] + s[n..][..1];
        LenAppend(s[..n], s[n..][..1]);
      }
    }
  }

  /** Slicing within a prefix is slicing the whole text. */
  lemma GetOfPrefix(s: string, m: nat, a: nat, b: nat)
    requires m <= |s| && Get(s[..m], a, b).Some?
    ensures Get(s, a, b) == Get(s[..m], a, b)
  {
    var p := s[..m];
    CharIndexIff(p, a);
    CharIndexIff(p, b);
    var i, j := CharIndex(p, a).value, CharIndex(p, b).value;
    assert p[..i] == s[..i] && p[..j] == s[..j];
    CharIndexOfBoundary(s, i);
    CharIndexOfBoundary(s, j);
    assert p[i..j] == s[i..j];
  }

  /** On an ASCII string byte offsets are char indices. */
  lemma GetAscii(s: string, a: nat, b: nat)
    requires AllAscii(s) && a <= b <= |s|
    ensures Get(s, a, b) == Some(s[a..b])
  {
    assert AllAscii(s[..a]) && AllAscii(s[..b]);
    EncodeAllAscii(s[..a]);
    EncodeAllAscii(s[..b]);
    CharIndexOfBoundary(s, a);
    CharIndexOfBoundary(s, b);
  }
}
