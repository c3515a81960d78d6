/** Hexadecimal text as src/rollup.rs exchanges it with applications:
    `to_hex` writes `0x` and two lower-case digits per byte, `parse_hex_bytes`
    reads an optional `0x`, pads an odd digit count with one leading `0` and
    hands the rest to the `hex` crate's `decode` (which accepts either case).
    The Base16 alphabet is the one of section 8 of RFC 4648. */
module HexText {
  import opened Prelude
  import opened CmtLib
  import Utf8

  type nibble = n: int | 0 <= n < 16

  predicate IsLowerHexDigit(c: char) {
    '0' <= c <= '9' || 'a' <= c <= 'f'
  }

  /** The value of one hex digit, as the `hex` crate reads it: `0-9`, `a-f` and `A-F`. */
  function DigitValue(c: char): (r: Option<nibble>)
    ensures r.Some? <==> IsLowerHexDigit(c) || 'A' <= c <= 'F'
    ensures r.Some? && c <= '9' ==> r.value == c as int - '0' as int
    ensures r.Some? && c > '9' ==> r.value == (c as int - 'A' as int) % 32 + 10
  {
    if '0' <= c <= '9' then Some(c as int - '0' as int)
    else if 'a' <= c <= 'f' then Some(c as int - 'a' as int + 10)
    else if 'A' <= c <= 'F' then Some(c as int - 'A' as int + 10)
    else None
  }

  predicate IsHexDigit(c: char) {
    DigitValue(c).Some?
  }

  predicate AllHex(t: string) {
    forall i :: 0 <= i < |t| ==> IsHexDigit(t[i])
  }

  /** Hex digits are ASCII, so on hex text `len()` counts characters. */
  lemma HexDigitsAreAscii(t: string)
    requires AllHex(t)
    ensures Utf8.IsAscii(t) && |Utf8.Encode(t)| == |t|
  {
    Utf8.AsciiEncoding(t);
  }

  /** The digit `{:x}` writes for a nibble; reading it back gives the nibble. */
  function LowerDigit(n: nibble): (c: char)
    ensures IsLowerHexDigit(c)
    ensures DigitValue(c) == Some(n)
  {
    if n < 10 then ('0' as int + n) as char else ('a' as int + n - 10) as char
  }

  /** `{:02x}` of one byte: high nibble first. */
  function ByteDigits(b: byte): (s: string)
    ensures |s| == 2 && IsLowerHexDigit(s[0]) && IsLowerHexDigit(s[1])
    ensures DigitValue(s[0]).Some? && DigitValue(s[1]).Some?
    ensures DigitValue(s[0]).value * 16 + DigitValue(s[1]).value == b
  {
    [LowerDigit(b / 16), LowerDigit(b % 16)]
  }

  function HexDigits(bytes: seq<byte>): (s: string)
    ensures |s| == 2 * |bytes|
  {
    if bytes == [] then [] else ByteDigits(bytes[0]) + HexDigits(bytes[1..])
  }

  /** The text `to_hex` produces: `0x` and two digits per byte. */
  function Hex(bytes: seq<byte>): (s: string)
    ensures |s| == 2 + 2 * |bytes| && s[..2] == "0x"
  {
    "0x" + HexDigits(bytes)
  }

  /** `to_hex` (src/rollup.rs): push `0x`, then each byte's two digits in turn. */
  method ToHex(bytes: seq<byte>) returns (s: string)
    ensures s == Hex(bytes)
  {
    s := "0x";
    for i := 0 to |bytes|
      invariant s == "0x" + HexDigits(bytes[..i])
    {
      HexDigitsSnoc(bytes[..i], bytes[i]);
      assert bytes[..i + 1] == bytes[..i] + [bytes[i]];
      s := s + ByteDigits(bytes[i]);
    }
    assert bytes[..|bytes|] == bytes;
  }

  lemma {:induction false} HexDigitsSnoc(a: seq<byte>, x: byte)
    ensures HexDigits(a + [x]) == HexDigits(a) + ByteDigits(x)
  {
    if a != [] {
      assert (a + [x])[1..] == a[1..] + [x];
      HexDigitsSnoc(a[1..], x);
    }
  }

  lemma {:induction false} HexDigitsAt(bytes: seq<byte>, i: nat)
    requires i < |bytes|
    ensures HexDigits(bytes)[2 * i] == LowerDigit(bytes[i] / 16)
    ensures HexDigits(bytes)[2 * i + 1] == LowerDigit(bytes[i] % 16)
  {
    if i > 0 {
      HexDigitsAt(bytes[1..], i - 1);
    }
  }

  /** `to_hex(b)` is `0x` followed by exactly two lower-case digits per byte,
      high nibble first; in particular `to_hex([])` is `0x`. */
  lemma HexShape(bytes: seq<byte>)
    ensures |Hex(bytes)| == 2 + 2 * |bytes| && Hex(bytes)[..2] == "0x"
    ensures forall i :: 0 <= i < |bytes| ==>
      Hex(bytes)[2 + 2 * i] == LowerDigit(bytes[i] / 16) && Hex(bytes)[3 + 2 * i] == LowerDigit(bytes[i] % 16)
    ensures forall j :: 2 <= j < |Hex(bytes)| ==> IsLowerHexDigit(Hex(bytes)[j])
  {
    forall i | 0 <= i < |bytes|
      ensures Hex(bytes)[2 + 2 * i] == LowerDigit(bytes[i] / 16) && Hex(bytes)[3 + 2 * i] == LowerDigit(bytes[i] % 16)
    {
      HexDigitsAt(bytes, i);
    }
    forall j | 2 <= j < |Hex(bytes)| ensures IsLowerHexDigit(Hex(bytes)[j]) {
      var i := (j - 2) / 2;
      HexDigitsAt(bytes, i);
      assert j == 2 + 2 * i || j == 3 + 2 * i;
    }
  }

  /** `to_hex` writes only ASCII, so its `len()` is its character count. */
  lemma HexIsAscii(bytes: seq<byte>)
    ensures Utf8.IsAscii(Hex(bytes)) && Utf8.IsAscii(HexDigits(bytes))
  {
    HexShape(bytes);
    assert forall j :: 0 <= j < |HexDigits(bytes)| ==> HexDigits(bytes)[j] == Hex(bytes)[j + 2];
  }

  /** The byte that a high and a low digit make together. */
  function PairByte(hi: nibble, lo: nibble): byte {
    (hi as int) * 16 + (lo as int)
  }

  /** `hex::decode`: an odd digit count fails; otherwise each pair of digits
      is one byte, and any non-digit fails. */
  function DecodeHex(t: string): (r: Option<seq<byte>>)
    ensures |t| % 2 != 0 ==> r.None?
    ensures r.Some? ==> |r.value| == |t| / 2
    decreases |t|
  {
    if |t| % 2 != 0 then None
    else if t == [] then Some([])
    else
      match (DigitValue(t[0]), DigitValue(t[1]), DecodeHex(t[2..]))
      case (Some(hi), Some(lo), Some(rest)) => Some([PairByte(hi, lo)] + rest)
      case _ => None
  }

  /** On an even digit count, decoding succeeds exactly on all-hex text,
      giving one byte per two digits. */
  lemma {:induction false} DecodeHexAccepts(t: string)
    requires |t| % 2 == 0
    ensures DecodeHex(t).Some? <==> AllHex(t)
    ensures DecodeHex(t).Some? ==> |DecodeHex(t).value| == |t| / 2
  {
    if t != [] {
      DecodeHexAccepts(t[2..]);
      if AllHex(t) {
        assert AllHex(t[2..]) by {
          forall i | 0 <= i < |t[2..]| ensures IsHexDigit(t[2..][i]) {
            assert t[2..][i] == t[i + 2];
          }
        }
      } else {
        var k :| 0 <= k < |t| && !IsHexDigit(t[k]);
        if k >= 2 {
          assert t[2..][k - 2] == t[k];
        }
      }
    }
  }

  lemma {:induction false} DecodeHexSnoc(t: string, h: char, l: char)
    requires |t| % 2 == 0 && AllHex(t) && IsHexDigit(h) && IsHexDigit(l)
    ensures DecodeHex(t).Some?
    ensures DecodeHex(t + [h, l]) == Some(DecodeHex(t).value + [PairByte(DigitValue(h).value, DigitValue(l).value)])
  {
    DecodeHexAccepts(t);
    if t != [] {
      assert (t + [h, l])[2..] == t[2..] + [h, l];
      assert AllHex(t[2..]) by {
        forall i | 0 <= i < |t[2..]| ensures IsHexDigit(t[2..][i]) {
          assert t[2..][i] == t[i + 2];
        }
      }
      DecodeHexSnoc(t[2..], h, l);
      var x := PairByte(DigitValue(h).value, DigitValue(l).value);
      var p := PairByte(DigitValue(t[0]).value, DigitValue(t[1]).value);
      var rest := DecodeHex(t[2..]).value;
      assert (t + [h, l])[0] == t[0] && (t + [h, l])[1] == t[1];
      assert DecodeHex(t) == Some([p] + rest);
      assert DecodeHex(t + [h, l]) == Some([p] + (rest + [x]));
      assert [p] + (rest + [x]) == ([p] + rest) + [x];
    } else {
      var x := PairByte(DigitValue(h).value, DigitValue(l).value);
      assert t + [h, l] == [h, l] && [h, l][2..] == [];
      assert DecodeHex([]) == Some([]);
      assert DecodeHex([h, l]) == Some([x] + []);
      assert [x] + [] == [] + [x];
    }
  }

  lemma {:induction false} DecodeHexDigits(bytes: seq<byte>)
    ensures DecodeHex(HexDigits(bytes)) == Some(bytes)
  {
    if bytes != [] {
      var t := HexDigits(bytes);
      assert t[2..] == HexDigits(bytes[1..]);
      DecodeHexDigits(bytes[1..]);
      assert [bytes[0]] + bytes[1..] == bytes;
    }
  }

  /** `s.strip_prefix("0x").unwrap_or(s)`: removes one leading `0x`, case-sensitive. */
  function StripPrefix(s: string): (r: string)
    ensures |r| <= |s| && r == s[|s| - |r|..]
    ensures |r| == (if |s| >= 2 && s[..2] == "0x" then |s| - 2 else |s|)
  {
    if |s| >= 2 && s[..2] == "0x" then s[2..] else s
  }

  /** The result of `parse_hex_bytes`. The odd-length test is on `len()`, the UTF-8 byte count. */
  function HexBytes(s: string): (r: IoResult<seq<byte>>)
    ensures r.Ok? ==> |r.value| == (|StripPrefix(s)| + 1) / 2
    ensures r.Err? ==> r.error == InvalidInput(InvalidHex)
  {
    var t := StripPrefix(s);
    if t == [] then Ok([])
    else
      var even := if |Utf8.Encode(t)| % 2 != 0 then "0" + t else t;
      match DecodeHex(even)
      case Some(bytes) => Ok(bytes)
      case None => Err(InvalidInput(InvalidHex))
  }

  /** `parse_hex_bytes` (src/rollup.rs): strip `0x`, map empty to empty,
      insert a leading `0` into an odd-length string, then decode. It follows
      `HexBytes` step for step; the in-place `insert(0, '0')` on the owned
      string is the reassignment of `t`. */
  method ParseHexBytes(s: string) returns (r: IoResult<seq<byte>>)
    ensures r == HexBytes(s)
  {
    var t := StripPrefix(s);
    if t == [] {
      return Ok([]);
    }
    if |Utf8.Encode(t)| % 2 != 0 {
      t := "0" + t;
    }
    var decoded := DecodeHex(t);
    if decoded.Some? {
      r := Ok(decoded.value);
    } else {
      r := Err(InvalidInput(InvalidHex));
    }
  }

  /** Parsing succeeds exactly when every character after the prefix is a hex
      digit (either case); it then yields ceil(k/2) bytes for k digits, and
      otherwise fails with an `InvalidInput` error and no bytes. */
  lemma HexBytesAccepts(s: string)
    ensures HexBytes(s).Ok? <==> AllHex(StripPrefix(s))
    ensures HexBytes(s).Ok? ==> |HexBytes(s).value| == (|StripPrefix(s)| + 1) / 2
    ensures HexBytes(s).Err? ==> HexBytes(s).error == InvalidInput(InvalidHex)
  {
    var t := StripPrefix(s);
    if t != [] {
      var padded := "0" + t;
      assert AllHex(padded) <==> AllHex(t) by {
        assert forall i :: 0 <= i < |t| ==> padded[i + 1] == t[i];
      }
      if AllHex(t) {
        Utf8.AsciiEncoding(t);
        DecodeHexAccepts(if |t| % 2 != 0 then padded else t);
      } else if |padded| % 2 == 0 {
        DecodeHexAccepts(padded);
      } else {
        DecodeHexAccepts(t);
      }
    }
  }

  /** Only an empty remainder, from `""` or `"0x"` alone, parses to no bytes. */
  lemma HexBytesEmpty(s: string)
    ensures HexBytes(s) == Ok([]) <==> StripPrefix(s) == []
  {
    HexBytesAccepts(s);
  }

  /** An odd digit count: the first byte holds the lone leading digit, the
      remaining digits pair up as usual. */
  lemma HexBytesOddLength(s: string)
    requires |StripPrefix(s)| % 2 == 1 && AllHex(StripPrefix(s))
    ensures var t := StripPrefix(s);
      DecodeHex(t[1..]).Some? &&
      HexBytes(s) == Ok([DigitValue(t[0]).value] + DecodeHex(t[1..]).value)
  {
    var t := StripPrefix(s);
    Utf8.AsciiEncoding(t);
    var padded := "0" + t;
    assert padded[0] == '0' && padded[1] == t[0] && padded[2..] == t[1..];
    assert AllHex(t[1..]) by {
      assert forall i :: 0 <= i < |t[1..]| ==> t[1..][i] == t[i + 1];
    }
    DecodeHexAccepts(t[1..]);
    var rest := DecodeHex(t[1..]).value;
    assert DecodeHex(padded) == Some([PairByte(0, DigitValue(t[0]).value)] + rest);
    assert |Utf8.Encode(t)| % 2 != 0;
    assert HexBytes(s) == Ok([PairByte(0, DigitValue(t[0]).value)] + rest);
  }

  /** The prefix is exactly `0x`: `0X` is not stripped and a second `0x` is not stripped. */
  lemma HexPrefixIsStrict(rest: string)
    ensures HexBytes("0X" + rest) == Err(InvalidInput(InvalidHex))
    ensures HexBytes("0x0x" + rest) == Err(InvalidInput(InvalidHex))
  {
    HexBytesAccepts("0X" + rest);
    assert StripPrefix("0X" + rest)[1] == 'X';
    HexBytesAccepts("0x0x" + rest);
    assert StripPrefix("0x0x" + rest)[1] == 'x';
  }

  /** Round trip: parsing what `to_hex` wrote gives back the bytes. */
  lemma HexRoundTrip(bytes: seq<byte>)
    ensures HexBytes(Hex(bytes)) == Ok(bytes)
  {
    var s := Hex(bytes);
    assert s[..2] == "0x" && s[2..] == HexDigits(bytes);
    HexIsAscii(bytes);
    Utf8.AsciiEncoding(HexDigits(bytes));
    DecodeHexDigits(bytes);
  }

  /** The unsigned integer that bytes denote in big-endian order. */
  function BeValue(b: seq<byte>): nat {
    if b == [] then 0 else BeValue(b[..|b| - 1]) * 256 + b[|b| - 1]
  }

  /** The number that hex digits denote, most significant first. */
  function HexNumeral(t: string): nat
    requires AllHex(t)
  {
    if t == [] then 0
    else
      assert AllHex(t[..|t| - 1]) by {
        assert forall i :: 0 <= i < |t| - 1 ==> t[..|t| - 1][i] == t[i];
      }
      HexNumeral(t[..|t| - 1]) * 16 + DigitValue(t[|t| - 1]).value
  }

  lemma {:induction false} DecodeHexValue(t: string)
    requires |t| % 2 == 0 && AllHex(t)
    ensures DecodeHex(t).Some? && BeValue(DecodeHex(t).value) == HexNumeral(t)
    decreases |t|
  {
    DecodeHexAccepts(t);
    if t != [] {
      var n := |t|;
      var front := t[..n - 2];
      assert AllHex(front) by {
        assert forall i :: 0 <= i < n - 2 ==> front[i] == t[i];
      }
      assert t == front + [t[n - 2], t[n - 1]];
      DecodeHexSnoc(front, t[n - 2], t[n - 1]);
      DecodeHexValue(front);
      var d := DecodeHex(front).value;
      var x := PairByte(DigitValue(t[n - 2]).value, DigitValue(t[n - 1]).value);
      assert (d + [x])[..|d + [x]| - 1] == d;
      assert t[..n - 1][..n - 2] == front;
    }
  }

  lemma {:induction false} NumeralLeadingZero(t: string)
    requires AllHex(t)
    ensures AllHex("0" + t) && HexNumeral("0" + t) == HexNumeral(t)
  {
    assert forall i :: 0 <= i < |t| ==> ("0" + t)[i + 1] == t[i];
    if t != [] {
      var front := t[..|t| - 1];
      assert AllHex(front) by {
        assert forall i :: 0 <= i < |t| - 1 ==> front[i] == t[i];
      }
      assert ("0" + t)[..|t|] == "0" + front;
      NumeralLeadingZero(front);
    }
  }

  /** Parsed bytes, read big-endian, are the number the hex digits spell out:
      the odd-length padding never changes the value. */
  lemma HexBytesValue(s: string)
    requires HexBytes(s).Ok?
    ensures AllHex(StripPrefix(s)) && BeValue(HexBytes(s).value) == HexNumeral(StripPrefix(s))
  {
    HexBytesAccepts(s);
    var t := StripPrefix(s);
    if t != [] {
      Utf8.AsciiEncoding(t);
      if |t| % 2 != 0 {
        NumeralLeadingZero(t);
        DecodeHexValue("0" + t);
      } else {
        DecodeHexValue(t);
      }
    }
  }

  /** Leading zero bytes do not change a big-endian value. */
  lemma {:induction false} BeValueLeadingZeros(n: nat, b: seq<byte>)
    ensures BeValue(Zeros(n) + b) == BeValue(b)
    decreases |b|, n
  {
    if b == [] {
      if n > 0 {
        assert (Zeros(n) + b)[..n - 1] == Zeros(n - 1) + [];
        BeValueLeadingZeros(n - 1, []);
      }
      assert Zeros(n) + b == Zeros(n);
    } else {
      assert (Zeros(n) + b)[..n + |b| - 1] == Zeros(n) + b[..|b| - 1];
      BeValueLeadingZeros(n, b[..|b| - 1]);
    }
  }
}
