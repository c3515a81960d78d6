/** The conversions of src/rollup.rs between the application's hex text and
    the fixed-width values libcmt exchanges with the host: 20-byte addresses,
    32-byte big-endian u256 values and length-prefixed byte payloads. */
module RollupValues {
  import opened Prelude
  import opened CmtLib
  import opened HexText
  import Utf8

  type Bytes20 = s: seq<byte> | |s| == 20 witness seq(20, _ => 0)
  type Bytes32 = s: seq<byte> | |s| == 32 witness seq(32, _ => 0)

  /** `cmt_abi_address_t` */
  datatype Address = Address(data: Bytes20)

  /** `cmt_abi_u256_t`: a 256-bit unsigned integer, most significant byte first. */
  datatype U256 = U256(data: Bytes32)

  /** `cmt_abi_bytes_t`: a pointer, null (`None`) or designating the bytes
      readable from it, and a length. */
  datatype CBytes = CBytes(data: Option<seq<byte>>, length: nat)

  /** The host's promise behind `slice::from_raw_parts`: a non-null pointer has `length` bytes behind it. */
  predicate Readable(p: CBytes) {
    p.data.Some? ==> p.length <= |p.data.value|
  }

  /** The bytes the binding copies out of a `cmt_abi_bytes_t`: none when the
      length is 0 or the pointer is null, otherwise the first `length`. */
  function PayloadBytes(p: CBytes): (b: seq<byte>)
    requires Readable(p)
    ensures p.data.Some? ==> |b| == p.length && b == p.data.value[..p.length]
    ensures p.data.None? ==> b == []
  {
    if p.length > 0 && p.data.Some? then p.data.value[..p.length] else []
  }

  /** With `len() == 40` after the prefix, a successful parse has exactly 20 bytes. */
  lemma AddressDigits(s: string)
    requires |Utf8.Encode(StripPrefix(s))| == 40 && HexBytes(s).Ok?
    ensures |StripPrefix(s)| == 40 && |HexBytes(s).value| == 20
  {
    HexBytesAccepts(s);
    HexDigitsAreAscii(StripPrefix(s));
  }

  /** The result of `parse_address_20`. */
  function Address20(s: string): (r: IoResult<Address>)
    ensures r.Ok? ==> HexBytes(s).Ok? && r.value.data == HexBytes(s).value
    ensures r.Err? ==> r.error.InvalidInput?
  {
    var len := |Utf8.Encode(StripPrefix(s))|;
    if len != 40 then Err(InvalidInput(AddressLength(len)))
    else
      match HexBytes(s)
      case Err(e) => Err(e)
      case Ok(bytes) => AddressDigits(s); Ok(Address(bytes))
  }

  /** `parse_address_20` (src/rollup.rs): check the length of the unprefixed
      text, decode, and copy the bytes into a zeroed 20-byte array. */
  method ParseAddress20(s: string) returns (r: IoResult<Address>)
    ensures r == Address20(s)
  {
    var s2 := StripPrefix(s);
    var len := |Utf8.Encode(s2)|;
    if len != 40 {
      return Err(InvalidInput(AddressLength(len)));
    }
    var bytes :- ParseHexBytes(s);
    AddressDigits(s);
    var data := new byte[20](_ => 0);
    forall i | 0 <= i < 20 {
      data[i] := bytes[i];
    }
    assert data[..] == bytes;
    return Ok(Address(data[..]));
  }

  /** An address parses exactly when the unprefixed text is 40 hex digits; the
      address is then the decoded bytes. A wrong length is reported with the
      length found, any other failure is the hex error. */
  lemma Address20Accepts(s: string)
    ensures Address20(s).Ok? <==> |StripPrefix(s)| == 40 && AllHex(StripPrefix(s))
    ensures Address20(s).Ok? ==> Address20(s).value.data == HexBytes(s).value
    ensures |Utf8.Encode(StripPrefix(s))| != 40 ==>
      Address20(s) == Err(InvalidInput(AddressLength(|Utf8.Encode(StripPrefix(s))|)))
    ensures |Utf8.Encode(StripPrefix(s))| == 40 && Address20(s).Err? ==>
      Address20(s) == Err(InvalidInput(InvalidHex))
  {
    HexBytesAccepts(s);
    if AllHex(StripPrefix(s)) {
      HexDigitsAreAscii(StripPrefix(s));
    }
  }

  /** The address text `convert_advance` writes parses back to the same address. */
  lemma Address20RoundTrip(a: Address)
    ensures Address20(Hex(a.data)) == Ok(a)
  {
    HexRoundTrip(a.data);
    HexIsAscii(a.data);
    var s := Hex(a.data);
    assert StripPrefix(s) == HexDigits(a.data);
    Utf8.AsciiEncoding(HexDigits(a.data));
  }

  /** The result of `parse_u256_32`: no text is zero; otherwise the decoded
      bytes, at most 32 of them, right-aligned behind zero bytes. */
  function U256Of(s: Option<string>): (r: IoResult<U256>)
    ensures s.None? ==> r == Ok(U256(Zeros(32)))
    ensures s.Some? && r.Ok? ==>
      HexBytes(s.value).Ok? && |HexBytes(s.value).value| <= 32 &&
      r.value.data[32 - |HexBytes(s.value).value|..] == HexBytes(s.value).value &&
      forall i :: 0 <= i < 32 - |HexBytes(s.value).value| ==> r.value.data[i] == 0
  {
    match s
    case None => Ok(U256(Zeros(32)))
    case Some(text) =>
      var raw :- HexBytes(text);
      if |raw| > 32 then Err(InvalidInput(U256TooLong))
      else Ok(U256(Zeros(32 - |raw|) + raw))
  }

  /** `parse_u256_32` (src/rollup.rs): a zeroed 32-byte array whose tail
      receives the decoded bytes. */
  method ParseU256(s: Option<string>) returns (r: IoResult<U256>)
    ensures r == U256Of(s)
  {
    var data := new byte[32](_ => 0);
    if s.Some? {
      var raw :- ParseHexBytes(s.value);
      if |raw| > 32 {
        return Err(InvalidInput(U256TooLong));
      }
      forall i | 0 <= i < |raw| {
        data[32 - |raw| + i] := raw[i];
      }
      assert data[..] == Zeros(32 - |raw|) + raw;
    } else {
      assert data[..] == Zeros(32);
    }
    return Ok(U256(data[..]));
  }

  /** A u256 parses exactly when the unprefixed text is at most 64 hex digits;
      its big-endian value is then the number the digits spell out. Longer
      valid text fails with the too-long error, even when its value is small. */
  lemma U256Accepts(s: string)
    ensures U256Of(Some(s)).Ok? <==> AllHex(StripPrefix(s)) && |StripPrefix(s)| <= 64
    ensures U256Of(Some(s)).Ok? ==>
      BeValue(U256Of(Some(s)).value.data) == HexNumeral(StripPrefix(s))
    ensures AllHex(StripPrefix(s)) && |StripPrefix(s)| > 64 ==>
      U256Of(Some(s)) == Err(InvalidInput(U256TooLong))
  {
    HexBytesAccepts(s);
    if U256Of(Some(s)).Ok? {
      var raw := HexBytes(s).value;
      HexBytesValue(s);
      BeValueLeadingZeros(32 - |raw|, raw);
    }
  }

  /** The randao text `convert_advance` writes parses back to the same value. */
  lemma U256RoundTrip(v: U256)
    ensures U256Of(Some(Hex(v.data))) == Ok(v)
  {
    HexRoundTrip(v.data);
    assert Zeros(0) + v.data == v.data;
  }

  /** `parse_hex_fixed`: the parsed bytes, provided there are exactly `n` of them. */
  function HexFixed(s: string, n: nat): (r: IoResult<seq<byte>>)
    ensures r.Ok? <==> HexBytes(s).Ok? && |HexBytes(s).value| == n
    ensures r.Ok? ==> r.value == HexBytes(s).value
    ensures HexBytes(s).Err? ==> r == HexBytes(s)
  {
    var v :- HexBytes(s);
    if |v| != n then Err(InvalidInput(ByteCount(n, |v|))) else Ok(v)
  }

  /** A fixed-size parse succeeds exactly on hex text of `2n - 1` or `2n`
      digits, and accepts whatever `to_hex` wrote for `n` bytes. */
  lemma HexFixedAccepts(s: string, n: nat)
    ensures HexFixed(s, n).Ok? <==> AllHex(StripPrefix(s)) && (|StripPrefix(s)| + 1) / 2 == n
    ensures forall b: seq<byte> :: |b| == n ==> HexFixed(Hex(b), n) == Ok(b)
  {
    HexBytesAccepts(s);
    forall b: seq<byte> | |b| == n ensures HexFixed(Hex(b), n) == Ok(b) {
      HexRoundTrip(b);
    }
  }

  /** `Metadata` */
  datatype Metadata = Metadata(chainId: uint64, blockNumber: uint64, blockTimestamp: uint64, index: uint64)

  /** `cmt_rollup_advance_t`, as the host fills it in. */
  datatype CAdvance = CAdvance(
    chainId: uint64, appContract: Address, msgSender: Address, blockNumber: uint64,
    blockTimestamp: uint64, prevRandao: U256, index: uint64, payload: CBytes)

  /** `Advance`: the advance request as the application sees it, every byte field as hex text. */
  datatype Advance = Advance(
    metadata: Metadata, appContract: string, msgSender: string, prevRandao: string, payload: string)

  /** The payload text of `convert_advance`: `0x` for an empty or null payload. */
  function AdvancePayloadText(p: CBytes): (t: string)
    requires Readable(p)
    ensures |t| == 2 + 2 * |PayloadBytes(p)| && t[..2] == "0x"
  {
    if p.length > 0 && p.data.Some? then Hex(p.data.value[..p.length]) else "0x"
  }

  /** `convert_advance`: addresses become 42 characters of text, the randao
      66, and the payload two per byte after `0x`. */
  function ConvertAdvance(c: CAdvance): (a: Advance)
    requires Readable(c.payload)
    ensures |a.appContract| == 42 && |a.msgSender| == 42 && |a.prevRandao| == 66
    ensures |a.payload| == 2 + 2 * |PayloadBytes(c.payload)|
    ensures a.metadata.chainId == c.chainId && a.metadata.blockNumber == c.blockNumber
    ensures a.metadata.blockTimestamp == c.blockTimestamp && a.metadata.index == c.index
  {
    Advance(
      Metadata(c.chainId, c.blockNumber, c.blockTimestamp, c.index),
      Hex(c.appContract.data), Hex(c.msgSender.data), Hex(c.prevRandao.data),
      AdvancePayloadText(c.payload))
  }

  /** Nothing is lost in `convert_advance`: each text field parses back to the
      host's value, and the payload text is `0x` exactly for an empty or null payload. */
  lemma ConvertAdvanceRecovers(c: CAdvance)
    requires Readable(c.payload)
    ensures var adv := ConvertAdvance(c);
      && adv.metadata == Metadata(c.chainId, c.blockNumber, c.blockTimestamp, c.index)
      && Address20(adv.appContract) == Ok(c.appContract)
      && Address20(adv.msgSender) == Ok(c.msgSender)
      && U256Of(Some(adv.prevRandao)) == Ok(c.prevRandao)
      && HexBytes(adv.payload) == Ok(PayloadBytes(c.payload))
      && |adv.payload| == 2 + 2 * |PayloadBytes(c.payload)|
      && (adv.payload == "0x" <==> c.payload.length == 0 || c.payload.data.None?)
  {
    var adv := ConvertAdvance(c);
    assert adv.appContract == Hex(c.appContract.data) && adv.msgSender == Hex(c.msgSender.data);
    assert adv.prevRandao == Hex(c.prevRandao.data) && adv.payload == AdvancePayloadText(c.payload);
    Address20RoundTrip(c.appContract);
    Address20RoundTrip(c.msgSender);
    U256RoundTrip(c.prevRandao);
    PayloadTextAgrees(c.payload);
    HexRoundTrip(PayloadBytes(c.payload));
  }

  /** `cmt_rollup_inspect_t` */
  datatype CInspect = CInspect(payload: CBytes)

  /** `Inspect` */
  datatype Inspect = Inspect(payload: string)

  /** The conversion at the end of `read_inspect_state`: copy the payload out, then `to_hex`. */
  function InspectFromC(c: CInspect): (i: Inspect)
    requires Readable(c.payload)
    ensures |i.payload| == 2 + 2 * |PayloadBytes(c.payload)| && i.payload[..2] == "0x"
  {
    Inspect(Hex(PayloadBytes(c.payload)))
  }

  /** Advance and inspect payloads are rendered alike, although the two
      conversions are written differently. */
  lemma PayloadTextAgrees(p: CBytes)
    requires Readable(p)
    ensures AdvancePayloadText(p) == Hex(PayloadBytes(p))
    ensures AdvancePayloadText(p) == "0x" <==> p.length == 0 || p.data.None?
  {
    HexShape(PayloadBytes(p));
  }

  /** The inspect payload text parses back to the bytes the host supplied. */
  lemma InspectRecovers(c: CInspect)
    requires Readable(c.payload)
    ensures HexBytes(InspectFromC(c).payload) == Ok(PayloadBytes(c.payload))
    ensures InspectFromC(c).payload == "0x" <==> c.payload.length == 0 || c.payload.data.None?
  {
    HexRoundTrip(PayloadBytes(c.payload));
    PayloadTextAgrees(c.payload);
  }

  /** The arguments `emit_voucher` hands to `cmt_rollup_emit_voucher`. */
  datatype VoucherArgs = VoucherArgs(address: Address, value: U256, payload: CBytes)

  /** The argument preparation of `emit_voucher`: the address, then the
      optional value, then the hex payload; the first failure is returned,
      and an empty payload travels as a null pointer with length 0. */
  function VoucherCall(addressHex: string, valueHex: Option<string>, payloadHex: string): (r: IoResult<VoucherArgs>)
    ensures r.Ok? <==> Address20(addressHex).Ok? && U256Of(valueHex).Ok? && HexBytes(payloadHex).Ok?
    ensures Address20(addressHex).Err? ==> r == Err(Address20(addressHex).error)
    ensures Address20(addressHex).Ok? && U256Of(valueHex).Err? ==> r == Err(U256Of(valueHex).error)
    ensures Address20(addressHex).Ok? && U256Of(valueHex).Ok? && HexBytes(payloadHex).Err? ==>
      r == Err(HexBytes(payloadHex).error)
    ensures r.Ok? ==>
      && r.value.address == Address20(addressHex).value
      && r.value.value == U256Of(valueHex).value
      && (r.value.payload.data.None? ==> r.value.payload.length == 0)
      && Readable(r.value.payload)
      && PayloadBytes(r.value.payload) == HexBytes(payloadHex).value
      && (r.value.payload.data.None? <==> HexBytes(payloadHex).value == [])
  {
    var address :- Address20(addressHex);
    var value :- U256Of(valueHex);
    var payload :- HexBytes(payloadHex);
    Ok(VoucherArgs(address, value, if payload == [] then CBytes(None, 0) else CBytes(Some(payload), |payload|)))
  }

  /** A voucher built from the text `to_hex` writes carries exactly the original address, value and payload. */
  lemma VoucherCallRoundTrip(a: Address, v: U256, payload: seq<byte>)
    ensures VoucherCall(Hex(a.data), Some(Hex(v.data)), Hex(payload)).Ok?
    ensures var args := VoucherCall(Hex(a.data), Some(Hex(v.data)), Hex(payload)).value;
      args.address == a && args.value == v && PayloadBytes(args.payload) == payload
  {
    Address20RoundTrip(a);
    U256RoundTrip(v);
    HexRoundTrip(payload);
  }

  /** The payload `emit_notice`, `emit_report`, `emit_exception` and
      `emit_delegate_call_voucher` pass on: the text's own UTF-8 bytes, never decoded. */
  function TextPayload(s: string): (p: CBytes)
    ensures Readable(p) && PayloadBytes(p) == Utf8.Encode(s)
  {
    CBytes(Some(Utf8.Encode(s)), |Utf8.Encode(s)|)
  }

  /** A notice given `to_hex(b)` carries the `2 + 2|b|` ASCII codes of that text, not `b`. */
  lemma TextPayloadOfHex(b: seq<byte>)
    ensures |PayloadBytes(TextPayload(Hex(b)))| == 2 + 2 * |b|
    ensures forall j :: 0 <= j < |Hex(b)| ==> PayloadBytes(TextPayload(Hex(b)))[j] == Hex(b)[j] as int
  {
    HexIsAscii(b);
    Utf8.AsciiEncoding(Hex(b));
  }

  /** The arguments `emit_delegate_call_voucher` hands to libcmt. */
  datatype DelegateArgs = DelegateArgs(address: Address, payload: CBytes)

  /** The argument preparation of `emit_delegate_call_voucher`: the address is parsed, the payload is raw text. */
  function DelegateCall(addressHex: string, payload: string): (r: IoResult<DelegateArgs>)
    ensures r.Ok? <==> Address20(addressHex).Ok?
    ensures r.Err? ==> r.error == Address20(addressHex).error
    ensures r.Ok? ==> r.value.address == Address20(addressHex).value
    ensures r.Ok? ==> Readable(r.value.payload) && PayloadBytes(r.value.payload) == Utf8.Encode(payload)
  {
    var address :- Address20(addressHex);
    Ok(DelegateArgs(address, TextPayload(payload)))
  }
}
