/** A Rust `&str` is UTF-8: `len()` counts its bytes and `as_bytes()` hands
    them out. The model keeps text as `seq<char>` and recovers those bytes here. */
module Utf8 {
  import opened Prelude

  /** The UTF-8 encoding of one Unicode scalar value (one to four bytes). */
  function EncodeChar(c: char): (b: seq<byte>)
    ensures 1 <= |b| <= 4
    ensures |b| == 1 <==> c as int < 0x80
  {
    var v := c as int;
    if v < 0x80 then [v]
    else if v < 0x800 then [0xC0 + v / 0x40, 0x80 + v % 0x40]
    else if v < 0x1_0000 then [0xE0 + v / 0x1000, 0x80 + v / 0x40 % 0x40, 0x80 + v % 0x40]
    else [0xF0 + v / 0x4_0000, 0x80 + v / 0x1000 % 0x40, 0x80 + v / 0x40 % 0x40, 0x80 + v % 0x40]
  }

  /** `s.as_bytes()`; its length is `s.len()`, never less than the number of characters. */
  function Encode(s: string): (b: seq<byte>)
    ensures |b| >= |s|
  {
    if s == [] then [] else EncodeChar(s[0]) + Encode(s[1..])
  }

  predicate IsAscii(s: string) {
    forall i :: 0 <= i < |s| ==> s[i] as int < 0x80
  }

  /** ASCII text is its own encoding: one byte per character, the byte being the character code. */
  lemma {:induction false} AsciiEncoding(s: string)
    requires IsAscii(s)
    ensures |Encode(s)| == |s|
    ensures forall i :: 0 <= i < |s| ==> Encode(s)[i] == s[i] as int
  {
    if s != [] {
      AsciiEncoding(s[1..]);
    }
  }

  /** `len()` and the character count agree exactly on ASCII text. */
  lemma {:induction false} ByteLengthIsCharCount(s: string)
    ensures |Encode(s)| == |s| <==> IsAscii(s)
  {
    if s != [] {
      ByteLengthIsCharCount(s[1..]);
      if |Encode(s)| == |s| {
        assert |EncodeChar(s[0])| == 1;
        assert IsAscii(s[1..]);
        forall i | 0 <= i < |s| ensures s[i] as int < 0x80 {
          if i > 0 { assert s[i] == s[1..][i - 1]; }
        }
      }
    }
  }
}
