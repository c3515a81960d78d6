# libcmt-binding-rust, modelled in Dafny

This project models the parts of the Rust binding to Cartesi's `libcmt` that
carry logic of their own. It proves properties of that model.

- **Hex-text value codec** (`src/rollup.rs`). `to_hex` writes bytes as `0x`
  followed by lower-case Base16, the alphabet of section 8 of RFC 4648.
  `parse_hex_bytes` strips one `0x`, maps empty to empty, pads an odd length
  with a leading `0`, and decodes with the `hex` crate.
  `parse_address_20` and `parse_u256_32` build the fixed-width host values
  (`cmt_abi_address_t`, `cmt_abi_u256_t`) on top of it. `parse_hex_fixed`
  checks that the parse gives an exact byte count and returns those bytes;
  nothing in `src/rollup.rs` calls it. `convert_advance` and
  `read_inspect_state` turn host records back into hex text. The argument
  preparation of `emit_voucher` and the raw-text payloads of `emit_notice`,
  `emit_report`, `emit_exception` and `emit_delegate_call_voucher` are modelled
  as well (modules `HexText`, `RollupValues`, `Utf8`).
- **Crate-root helpers** (`src/lib.rs`). `to_io_result` turns a C return code
  into `io::Result`. `buffer_len` is a saturating length. `path_to_cstring`
  rejects interior NUL bytes (module `CmtLib`).
- **The echo application's driver loop**
  (`sample_apps/echo_app/src/main.rs`). The accept flag, the `finish` call,
  dispatch on the request type, and the handler's verdict become the next
  flag (modules `RollupHost`, `EchoApp`).

Text is `seq<char>`. Rust's `str::len()` counts UTF-8 bytes, so the model
computes it as the length of the text's UTF-8 encoding (`Utf8.Encode`).
Lemmas show that on hex text this is the character count.
`io::Error` is modelled as `IoError`, either an `InvalidInput` with a reason
or an `Os` error code. `IoResult` supports `:-`, which plays the part of
Rust's `?`.

The imperative parts of the source stay imperative, and each is proved equal
to a specification function that the lemmas are about:
- `to_hex` is a `for` loop, `HexText.ToHex`.
- `parse_hex_bytes` inserts a `0`, `HexText.ParseHexBytes`.
- `parse_address_20` and `parse_u256_32` fill zeroed arrays, in
  `RollupValues.ParseAddress20` and `RollupValues.ParseU256`.
- The driver loop is `EchoApp.EchoMain`.

`libcmt` itself is C code outside this repository, so the host is a script of
replies (`RollupHost.HostReply`). `RollupHost.Rollup` plays that script back.
It records every finish record and every request read it receives, as the
`rounds` the host observes. `EchoApp.Echo` states which rounds a script yields
and how the run ends. `EchoMain` is proved to produce exactly that.

An error from `finish` or from a handler is not turned into a reject: `?`
returns it from `main` (`sample_apps/echo_app/src/main.rs:37`, `:49-50`).
`EchoApp.EchoStops` proves that the first failure ends the run with that
error.

## Model

| member | source | states |
|---|---|---|
| `CmtLib.WrappingNeg` | src/lib.rs:17 | `-rc` on an `i32` in a release build is two's-complement negation: the result and `rc` add up to a multiple of 2^32; hence the true negation for every code but `i32::MIN`, which maps to itself |
| `CmtLib.ToIoResult` | src/lib.rs:13-19 | success exactly when `rc == 0`; otherwise an OS error whose code `c` gives back `rc` as `-c`, and which is positive for every negative `rc` above `i32::MIN` |
| `CmtLib.BufferLen` | src/lib.rs:30-32 | `begin + n == end` when `end >= begin`; 0 when `end < begin`; never more than `end`, so the subtraction never underflows |
| `CmtLib.PathToCString` | src/lib.rs:21-28 | succeeds exactly when the path bytes contain no 0, and the C string then holds exactly those bytes; otherwise an `InvalidInput` error for an interior NUL |
| `CmtLib.PathReachesC` | src/lib.rs:21-28 | the terminated string C receives has `strlen` equal to the path length, and its bytes before the terminator are the path |
| `Utf8.Encode` | src/rollup.rs:191-194 | `as_bytes()` of a string has at least one byte per character |
| `Utf8.AsciiEncoding` | src/rollup.rs:121 | on ASCII text `len()` is the character count, and each byte is the character's code |
| `Utf8.ByteLengthIsCharCount` | src/rollup.rs:85 | `len()` equals the character count if and only if the text is ASCII |
| `HexText.HexDigitsAreAscii` | src/rollup.rs:121 | hex-digit text is ASCII, so the odd-length test on `len()` is a test on the digit count |
| `HexText.DigitValue` | src/rollup.rs:125 | the `hex` crate reads exactly `0-9`, `a-f` and `A-F` as digits, and a letter means the same nibble in either case |
| `HexText.LowerDigit` | src/rollup.rs:37 | `{:x}` writes a lower-case digit that the decoder reads back as the same nibble |
| `HexText.ByteDigits` | src/rollup.rs:37 | `{:02x}` of a byte is two lower-case digits, high nibble first: reading them back gives 16 times the first plus the second, which is the byte |
| `HexText.Hex` | src/rollup.rs:32-40 | the text of `to_hex(b)` has length 2 plus two per byte and starts with `0x` |
| `HexText.HexDigits` | src/rollup.rs:35-38 | the digits of `b` are exactly two characters per byte |
| `HexText.ToHex` | src/rollup.rs:32-40 | the `for` loop that pushes `0x` and then two digits per byte produces `Hex(bytes)` |
| `HexText.HexDigitsSnoc` | src/rollup.rs:35-38 | one more byte appends exactly that byte's two digits |
| `HexText.HexDigitsAt` | src/rollup.rs:37 | digit `2i` is byte `i`'s high nibble and digit `2i+1` its low nibble |
| `HexText.HexShape` | src/rollup.rs:32-40 | `to_hex(b)` has length 2 plus two per byte and starts with `0x`; each byte becomes its high then low nibble; every character after the prefix is a lower-case digit; so `to_hex([])` is `0x` |
| `HexText.HexIsAscii` | src/rollup.rs:32-40 | `to_hex` writes only ASCII |
| `HexText.DecodeHex` | src/rollup.rs:125 | `hex::decode` rejects an odd digit count, and a success has one byte per two digits |
| `HexText.DecodeHexAccepts` | src/rollup.rs:125 | on an even digit count, `hex::decode` succeeds if and only if every character is a hex digit of either case, giving half as many bytes |
| `HexText.DecodeHexSnoc` | src/rollup.rs:125 | two more digits decode to one more byte at the end |
| `HexText.DecodeHexDigits` | src/rollup.rs:125 | `hex::decode` inverts the digits `to_hex` writes |
| `HexText.StripPrefix` | src/rollup.rs:115 | `strip_prefix("0x").unwrap_or(s)` leaves a suffix of `s`, two characters shorter exactly when `s` starts with `0x` and the whole of `s` otherwise |
| `HexText.HexBytes` | src/rollup.rs:114-128 | the result of `parse_hex_bytes`: a success has `ceil(k/2)` bytes for the `k` characters after the prefix; every failure is the `InvalidInput` hex error |
| `HexText.ParseHexBytes` | src/rollup.rs:114-128 | the method (strip, empty check, insert `0`, decode) yields `HexBytes(s)` |
| `HexText.HexBytesAccepts` | src/rollup.rs:114-128 | succeeds if and only if every character after the prefix is a hex digit; success gives `ceil(k/2)` bytes for `k` digits; failure is `InvalidInput` with no bytes |
| `HexText.HexBytesEmpty` | src/rollup.rs:115-119 | the empty sequence results exactly when the remainder after the prefix is empty, from `""` or `"0x"` |
| `HexText.HexBytesOddLength` | src/rollup.rs:121-123 | for an odd digit count, the first byte holds the lone leading digit and the other digits pair up as usual |
| `HexText.HexPrefixIsStrict` | src/rollup.rs:115 | only one lower-case `0x` is stripped: `0X…` and `0x0x…` are rejected |
| `HexText.HexRoundTrip` | src/rollup.rs:114-128 | `parse_hex_bytes(to_hex(b)) == Ok(b)` for every `b` |
| `HexText.DecodeHexValue` | src/rollup.rs:125 | the decoded bytes, read big-endian, are the number the digits spell out |
| `HexText.NumeralLeadingZero` | src/rollup.rs:121-123 | the `0` that odd-length padding inserts does not change the number |
| `HexText.HexBytesValue` | src/rollup.rs:114-128 | parsed bytes, read big-endian, equal the numeric value of the hex text |
| `HexText.BeValueLeadingZeros` | src/rollup.rs:108 | leading zero bytes do not change a big-endian value |
| `RollupValues.PayloadBytes` | src/rollup.rs:246-255 | a null pointer gives no bytes; otherwise exactly the first `length` bytes behind it |
| `RollupValues.AddressDigits` | src/rollup.rs:85-93 | once `len()` is 40, a successful parse has exactly the 20 bytes `copy_from_slice` needs |
| `RollupValues.Address20` | src/rollup.rs:83-95 | the result of `parse_address_20`: a success holds exactly the bytes `parse_hex_bytes` decodes; every failure is an `InvalidInput` error |
| `RollupValues.ParseAddress20` | src/rollup.rs:83-95 | the method (length check, parse, copy into a zeroed array) yields `Address20(s)` |
| `RollupValues.Address20Accepts` | src/rollup.rs:83-95 | succeeds if and only if the unprefixed text is 40 hex digits, and `data` then equals the decoded bytes; a wrong `len()` gives the length error carrying that length; other failures give the hex error |
| `RollupValues.Address20RoundTrip` | src/rollup.rs:51-55 | the address text `convert_advance` writes parses back to the same address |
| `RollupValues.U256Of` | src/rollup.rs:97-112 | `None` gives 32 zero bytes; a success holds at most 32 decoded bytes, right-aligned behind zeros |
| `RollupValues.ParseU256` | src/rollup.rs:97-112 | the method (zeroed array, parse, length check, copy into the tail) yields `U256Of(s)` |
| `RollupValues.U256Accepts` | src/rollup.rs:97-112 | succeeds if and only if the unprefixed text is hex of at most 64 digits; the big-endian value then equals the text's numeric value; longer valid text fails as too long |
| `RollupValues.U256RoundTrip` | src/rollup.rs:58-59 | the randao text `convert_advance` writes parses back to the same value |
| `RollupValues.HexFixed` | src/rollup.rs:130-139 | succeeds if and only if `parse_hex_bytes` succeeds with exactly `n` bytes, returning them unchanged; a parse failure passes through |
| `RollupValues.HexFixedAccepts` | src/rollup.rs:130-139 | accepts exactly hex text of `2n-1` or `2n` digits, and accepts `to_hex` of any `n` bytes, giving them back |
| `RollupValues.AdvancePayloadText` | src/rollup.rs:62-72 | the payload text is `0x` followed by two digits per payload byte |
| `RollupValues.ConvertAdvance` | src/rollup.rs:42-81 | the metadata is copied field by field; the addresses become 42 characters of text, the randao 66, and the payload 2 plus two per byte |
| `RollupValues.ConvertAdvanceRecovers` | src/rollup.rs:42-81 | metadata is copied; both addresses, the randao and the payload parse back to the host's values; the payload text has length `2 + 2n`; it is `0x` exactly when the payload is empty or null |
| `RollupValues.PayloadTextAgrees` | src/rollup.rs:62-72 | the advance payload text equals `to_hex` of the copied payload bytes, and is `0x` exactly for an empty or null payload |
| `RollupValues.InspectFromC` | src/rollup.rs:246-257 | the inspect payload text is `0x` followed by two digits per copied payload byte |
| `RollupValues.InspectRecovers` | src/rollup.rs:240-257 | the inspect payload text parses back to the host's bytes, and is `0x` exactly for an empty or null payload |
| `RollupValues.VoucherCall` | src/rollup.rs:158-169 | the arguments are built exactly when address, value and payload all parse; otherwise the error is that of the first failing parse, in the order address, value, payload; on success the address and value are the parsed ones, the payload carries the decoded bytes, and it is a null pointer with length 0 exactly when they are empty |
| `RollupValues.VoucherCallRoundTrip` | src/rollup.rs:158-169 | text from `to_hex` yields a voucher with the original address, value and payload bytes |
| `RollupValues.TextPayload` | src/rollup.rs:201-205 | notice, report and exception payloads are the string's UTF-8 bytes, not decoded hex |
| `RollupValues.TextPayloadOfHex` | src/rollup.rs:201-205 | a notice given `to_hex(b)` carries the ASCII codes of that text, two more than twice the byte count |
| `RollupValues.DelegateCall` | src/rollup.rs:184-194 | succeeds exactly when the address parses and fails with its error otherwise; on success the address is the parsed one and the payload is the string's raw UTF-8 bytes |
| `RollupHost.FinishRecord.constructor` | sample_apps/echo_app/src/main.rs:32-36 | the record holds the given accept flag, request type and payload length |
| `RollupHost.Rollup.constructor` | src/rollup.rs:142-148 | a handle over the host's replies, with no request yet and nothing observed |
| `RollupHost.Rollup.Finish` | src/rollup.rs:260-262 | the host records the finish record exactly as sent and moves on to its next reply; the result is `to_io_result` of its code; on success the record names the next request type and length, keeping the accept flag; on failure the record is untouched |
| `RollupHost.Rollup.ReadAdvanceState` | src/rollup.rs:231-238 | one advance read is recorded; the result is the host's error, or `convert_advance` of the record |
| `RollupHost.Rollup.ReadInspectState` | src/rollup.rs:240-258 | one inspect read is recorded; the result is the host's error, or the record's payload as `to_hex` text |
| `EchoApp.HandleAdvance` | sample_apps/echo_app/src/main.rs:5-13 | reads exactly one advance request and returns `true`, or returns the read's error |
| `EchoApp.HandleInspect` | sample_apps/echo_app/src/main.rs:15-23 | reads exactly one inspect request and returns `true`, or returns the read's error |
| `EchoApp.Classify` | sample_apps/echo_app/src/main.rs:39-46 | type 0 is an advance and only 0; type 1 is an inspect and only 1; every other type is unknown |
| `EchoApp.HandlerReads` | sample_apps/echo_app/src/main.rs:48-50 | type 0 makes exactly one advance read, type 1 exactly one inspect read, and every other type makes no read |
| `EchoApp.HandlerResult` | sample_apps/echo_app/src/main.rs:48-55 | an unknown type gives `false`; a known type gives `true` exactly when its read succeeds, and otherwise the error `to_io_result` makes of the read's return code |
| `EchoApp.RoundOutcome` | sample_apps/echo_app/src/main.rs:37-55 | one exchange goes on exactly when `finish` succeeds and either the type is unknown or its read succeeds; the next flag is then whether the type was known; a failed `finish` gives exactly its own error, and after a successful `finish` the outcome is the handler's, error included |
| `EchoApp.RoundOf` | sample_apps/echo_app/src/main.rs:32-50 | the round the host sees carries the current flag and at most one read, and no read exactly when `finish` fails or the type is unknown |
| `EchoApp.Echo` | sample_apps/echo_app/src/main.rs:30-56 | the run of the loop yields at most one round per host reply, and at least one when there is a reply |
| `EchoApp.Exchange` | sample_apps/echo_app/src/main.rs:31-55 | one pass of the loop body consumes one reply, which becomes the current one, and records one round: the finish record with the current flag and a zeroed request, then the dispatched handler's read; the outcome is the finish error, the handler error, or the next flag |
| `EchoApp.EchoMain` | sample_apps/echo_app/src/main.rs:26-57 | the loop, starting from `true`, produces exactly the rounds and the stopping error of `Echo(script, true)` |
| `EchoApp.EchoRoundAt` | sample_apps/echo_app/src/main.rs:27-55 | round `k` sends the flag `true` when `k == 0`, and afterwards the previous handler's boolean, which is `false` exactly after an unknown type; the request type and length are always 0; the round reads its own kind of request once, or nothing after a failed `finish` |
| `EchoApp.EchoStops` | sample_apps/echo_app/src/main.rs:37-55 | every round before the last went through; an error from `finish` or a handler ends the run with that same error at that round; a run without an error uses every host reply |

## Left out

- `src/abi.rs` is not part of this model. Every function in it forwards to C code in `libcmt`, which is not in the repository.
- The portal and deposit decoder is not part of this model. No code for it exists in the repository.
- Keccak hashing (`src/keccak.rs`) and the Merkle accumulator (`src/merkle.rs`) are left out. They are calls into C.
- Host buffers and dumps (`src/io.rs`, `src/buf.rs`), file helpers (`src/util.rs`) and `build.rs` are left out. They are I/O and build plumbing.
- The host-side effects of `emit_voucher`, `emit_delegate_call_voucher`, `emit_notice`, `emit_report`, `emit_exception`, `progress`, `gio_request` and the `*_merkle` methods are left out. Only their argument preparation is modelled. The indices the host returns come from C.
- `Rollup::new` failing, `Drop`, and `expect` on construction in `main` are left out. The modelled handle always exists.
- The `println!`/`eprintln!` logging and the tokio runtime are left out. Neither affects the exchanged values.
- `CmtLib.ToIoResult` does not model the debug-build panic of `-rc` at `i32::MIN`. It follows release builds, where the negation wraps.
- `HexText.HexBytes` reports every failure of `hex::decode` as one `InvalidHex` reason. The crate's distinct messages (invalid character, odd length) are not distinguished.
- `EchoApp.EchoMain` ends when the script of host replies is used up. The source loops forever, and an exhausted script stands for the host ending the process.
- `RollupHost.Rollup.ReadAdvanceState` and `RollupHost.Rollup.ReadInspectState` require that a `finish` came first. What libcmt does with a read before any `finish` is not visible.
- `RollupValues.PayloadBytes` requires the host's promise that a non-null payload pointer has `length` readable bytes. Reading beyond it is undefined behaviour in Rust and is not modelled.
- `RollupValues.ConvertAdvance` keeps the metadata integers at their C widths. The widening `as u64` casts of the source cannot lose values.
