/** `heapless::String<N>`: a string stored as UTF-8 bytes in a buffer whose
    capacity N is fixed when it is created. Pushing what does not fit fails
    and leaves the string unchanged; the driver `unwrap`s every push, so a
    failed push is a panic. */
module Heapless {
  import opened Common
  import Utf8

  class HString {
    const buf: array<byte>
    var len: nat
    /** The characters the bytes encode. */
    ghost var text: string

    ghost predicate Valid()
      reads this, buf
      ensures Valid() ==> len == Utf8.Len(text)
    {
      len <= buf.Length && buf[..len] == Utf8.Encode(text)
    }

    /** `as_bytes()`. */
    function Bytes(): (r: seq<byte>)
      reads this, buf
      requires Valid()
      ensures r == Utf8.Encode(text)
    {
      buf[..len]
    }

    /** `String::<N>::from(s)`, which panics unless `s` fits. */
    constructor From(capacity: nat, s: string)
      requires Utf8.Len(s) <= capacity
      ensures Valid() && fresh(buf)
      ensures buf.Length == capacity && text == s && len == Utf8.Len(s)
    {
      var bytes := Utf8.Encode(s);
      buf := new byte[capacity](i => if 0 <= i < |bytes| then bytes[i] else 0);
      len := |bytes|;
      text := s;
    }

    /** `push_str(s)`: succeeds exactly when the bytes of `s` fit. */
    method PushStr(s: string) returns (ok: bool)
      requires Valid()
      modifies this, buf
      ensures Valid()
      ensures ok <==> old(len) + Utf8.Len(s) <= buf.Length
      ensures len == if ok then old(len) + Utf8.Len(s) else old(len)
      ensures text == if ok then old(text) + s else old(text)
    {
      var bytes := Utf8.Encode(s);
      if len + |bytes| > buf.Length {
        return false;
      }
      var k := 0;
      while k < |bytes|
        invariant 0 <= k <= |bytes|
        invariant buf[..len + k] == old(buf[..len]) + bytes[..k]
        modifies buf
      {
        buf[len + k] := bytes[k];
        k := k + 1;
      }
      assert bytes[..k] == bytes;
      Utf8.EncodeAppend(text, s);
      len := len + |bytes|;
      text := text + s;
      ok := true;
    }

    /** `push(c)`. */
    method Push(c: char) returns (ok: bool)
      requires Valid()
      modifies this, buf
      ensures Valid()
      ensures ok <==> old(len) + Utf8.Width(c) <= buf.Length
      ensures len == if ok then old(len) + Utf8.Width(c) else old(len)
      ensures text == if ok then old(text) + [c] else old(text)
    {
      ok := PushStr([c]);
    }
  }
}
