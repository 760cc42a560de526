/** Bytes and NUL-terminated strings. */
module Bytes {

  type byte = x: int | 0 <= x < 256

  /** Four bytes, the lowest first. */
  function Number(b0: nat, b1: nat, b2: nat, b3: nat): nat { b0 + 0x100 * b1 + 0x1_0000 * b2 + 0x100_0000 * b3 }

  /** What a C string routine sees of a buffer: everything before the first NUL. */
  function CStr(s: seq<byte>): (r: seq<byte>)
    ensures r <= s && 0 !in r
    ensures 0 in s ==> |r| < |s| && s[|r|] == 0
    ensures 0 !in s ==> r == s
  {
    if s == [] || s[0] == 0 then [] else [s[0]] + CStr(s[1..])
  }

  /** A terminated string reads as what precedes its first NUL, whatever follows. */
  lemma {:induction false} CStrPrefix(s: seq<byte>, rest: seq<byte>)
    requires 0 !in s && rest != [] && rest[0] == 0
    ensures CStr(s + rest) == s
  {
    if s == [] {
      assert s + rest == rest;
    } else {
      assert (s + rest)[1..] == s[1..] + rest;
      CStrPrefix(s[1..], rest);
    }
  }
}
