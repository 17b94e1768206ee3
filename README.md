# ooproxy TLS ClientHello / SNI decoder, modelled in Dafny

ooproxy is meant to route TCP connections by the server name that a TLS
client puts in its ClientHello. This routing needs no keys. The decoder in
`src/tls/mod.rs` reads that name out of the first bytes of a connection. It
has four parts:

- `slice_by_len_at_range` reads a big-endian length from a byte range and
  returns that many bytes after the range.
- `truncate_before` returns what follows such a length-prefixed field.
- `parse_tls_record` frames one TLS record. The layout is that of section
  6.2.1 of RFC 5246: content type, major version, minor version, a 2-byte
  length, then the fragment.
- `parse_client_hello` checks the record and handshake headers, skips the
  session id, the cipher suites and the compression methods, and walks the
  extension list. It returns the name found in a server_name extension
  (section 3 of RFC 6066).

The model follows the code as written. The input is one immutable
`seq<byte>`. Each Rust sub-slice is a subsequence of it, and each
`Range<usize>` is a pair of `nat` offsets. Errors are the `Tls.Error`
datatype, one constructor per error site (mod.rs lines 11, 16, 64, 67, 70,
76 and 104). The panic of the unchecked index at mod.rs:102 is the
`Panicked` outcome.

Files:

- `Bytes.dfy`: octets, and big-endian values (`BeValue`, `BeEncode`).
- `Utf8.dfy`: the well-formedness syntax of RFC 3629, section 4, and its
  agreement with the encoding of scalar values in section 3.
- `Tls.dfy`: the decoder.
  - `SliceByLenAtRange` and `ParseClientHello` are methods with the
    source's loops.
  - `LengthPrefixed`, `ExtensionsBlock`, `ScanExtensions` and
    `HelloOutcome` are the functions these two methods are proved equal to.
  - `TruncateBefore` and `ParseTlsRecord` are functions, as in the source.
- `TlsProperties.dfy`: round trips of fields and records, and the order in
  which the decoder fails.
- `SniProperties.dfy`: the extension loop and what it does with
  server_name entries.
- `Outcomes.dfy`: whole-buffer consequences, including the outcome on the
  unit-test buffer. The buffer is written octet for octet as in the test,
  grouped by the ClientHello field each group encodes.
- `RfcReference.dfy`: a separate decoder that reads the layout of RFCs 5246
  and 6066, following the code's comments (mod.rs:72-92, 114-126) where they
  agree with the RFCs and the RFCs where they do not (mod.rs:80 gives the
  session-id length 2 bytes, the RFC 1). It is set side by side with the
  model, and is not the model of the code.

## How the code differs from the protocol and from its own test

The model keeps each of these deviations. The lemmas named here prove what
each one causes.

- mod.rs:73 reads the handshake length from bytes 1..4 of the record buffer,
  not from the fragment.
  - Byte 1 must already be 3 to pass mod.rs:63, so any input that gets past
    mod.rs:73 is at least 4 + 0x030000 = 196612 bytes long
    (`ShortInputsFail`).
  - A buffer holding one complete record is at most 65540 bytes, so it
    always fails (`SingleRecordFails`).
  - The body's first byte checked at mod.rs:75 is byte 4 of the record
    buffer, the low byte of the record length.
- The three skips (mod.rs:83-87) read their lengths at offsets 34, 0 and 0
  of the record buffer, not of what the previous skip left, and their
  `remaining` results are never used. The extension block (mod.rs:89) is
  read at offset 0 of the record buffer too, and it is the `exts` the loop
  walks (mod.rs:94).
  - Once mod.rs:76 passes, none of them can fail, and the extension block is
    always bytes 1..23 of the buffer (`SkipsPass`).
  - The block's first entry is never a server_name, and the entries after
    it lie in bytes 8..23 (`FirstEntry`).
  - So a decoded name has at most 6 bytes (`NameAtMostSixOctets`). Six
    bytes can be reached (`SixOctetNameDecoded`).
- mod.rs:89 reads the extensions length as 1 byte. Section 7.4.1.2 of
  RFC 5246 gives it 2 bytes.
- mod.rs:102 tests `ext_data[3]`, which is the high byte of the name length.
  RFC 6066 puts the name type at index 2.
  - The name type is never looked at, and a name of 256 bytes or more is
    ignored (`ShortHostNameTaken`, `LongHostNameIgnored`).
  - The index is unchecked, so a server_name extension with at most 3 bytes
    of data panics (`ServerNameEntry`, `PanicReachable`). So a short
    server_name extension makes the decoder panic instead of returning an
    error.
- When several server_name entries appear, the last one wins
  (`LastMatchWins`).
- The unit test's buffer (mod.rs:129-142) has 166 bytes. The test's
  `unwrap` at mod.rs:145 expects it to decode. It is one complete record, and
  `parse_client_hello` fails on it at mod.rs:73 with "error when get index"
  (`TestBufferFails`). So that `unwrap` would panic.
  - The reference decoder reads the same buffer to the end and finds no
    server_name among its five extensions (`TestBufferContrast`).
  - For every UTF-8 host name under 256 bytes, a ClientHello laid out as the
    RFCs say yields that name from the reference decoder, and an error from
    the code (`SampleHelloContrast`).

## Model

| member | source | states |
|---|---|---|
| `Bytes.BeValueBound` | src/tls/mod.rs:12-15 | a length accumulated from w bytes is below 256^w |
| `Bytes.BeRoundTrip` | src/tls/mod.rs:12-15 | accumulating the w-byte big-endian encoding of n < 256^w gives n back |
| `Bytes.BeEncodeValue` | src/tls/mod.rs:12-15 | the accumulated value, encoded at the range's own width, gives the range's bytes back |
| `Utf8.ConcatValid` | src/tls/mod.rs:104 | well-formed UTF-8 is closed under concatenation |
| `Utf8.AsciiValid` | src/tls/mod.rs:104 | every string of bytes below 0x80 is accepted |
| `Utf8.EncodeScalarValid` | src/tls/mod.rs:104 | the UTF-8 encoding of every Unicode scalar value (RFC 3629 section 3) is exactly one well-formed character of the section 4 syntax |
| `Utf8.DecodeCharEncodes` | src/tls/mod.rs:104 | conversely, every character the section 4 syntax accepts decodes to a scalar value (no surrogate, at most 0x10FFFF) whose section 3 encoding is exactly that character, so overlong forms are rejected |
| `Utf8.EncodeScalarDecodes` | src/tls/mod.rs:104 | decoding the encoding of a scalar value gives that value back |
| `Utf8.DecodeAll` | src/tls/mod.rs:104 | every well-formed string decodes to a sequence of scalar values |
| `Utf8.DecodeAllEncodes` | src/tls/mod.rs:104 | every well-formed string is the encoding of the scalar values it decodes to |
| `Utf8.EncodeAllDecodes` | src/tls/mod.rs:104 | the encoding of any sequence of scalar values is well formed and decodes back to that sequence |
| `Utf8.ValidIffEncoding` | src/tls/mod.rs:104 | a string is well formed if and only if it is the encoding of some sequence of scalar values |
| `Tls.SliceByLenAtRange` | src/tls/mod.rs:8-17 | succeeds iff lo <= hi <= \|data\| and hi + BE(data[lo..hi]) <= \|data\|; then returns exactly data[hi..hi+BE(data[lo..hi])]; otherwise it fails at line 11 when the range is out of bounds and at line 16 when the field is; the loop computes the fold `LengthPrefixed` is defined by |
| `Tls.TruncateBefore` | src/tls/mod.rs:25-28 | fails exactly when the field read fails, with the same error; on success data == data[..hi] + field + result |
| `Tls.ParseTlsRecord` | src/tls/mod.rs:47-55 | succeeds iff \|data\| >= 5 + 256*data[3] + data[4]; then gives data[0], data[1], data[2] and fragment data[5..5+len], with no check of type or version and trailing bytes ignored; otherwise fails at line 11 (fewer than 5 bytes) or line 16 |
| `Tls.FromUtf8` | src/tls/mod.rs:104 | succeeds exactly when the bytes are the UTF-8 encoding of some sequence of Unicode scalar values, returning them unchanged, and otherwise fails with the line 104 error |
| `Tls.ParseClientHello` | src/tls/mod.rs:56-112 | the method, with its while loop, returns exactly the outcome `HelloOutcome` gives: header checks, skips, then the extension scan `ScanExtensions` |
| `TlsProperties.FieldRoundTrip` | src/tls/mod.rs:8-28 | a field written after its w-byte length is read back exactly, and truncating past it leaves exactly the bytes after it |
| `TlsProperties.NoUsizeOverflow` | src/tls/mod.rs:12-16 | for ranges of at most 3 bytes, the accumulated length stays below 2^24 at every step and hi + length stays below 2^64 for any buffer under 2^63 bytes, so the unbounded model agrees with 64-bit `usize` |
| `TlsProperties.FieldFraming` | src/tls/mod.rs:8-28 | every field that is read is framed: data == prefix + BE encoding of the field's length + field + truncate_before's result, and the length is below 256^w |
| `TlsProperties.RecordRoundTrip` | src/tls/mod.rs:47-55 | any record header + fragment, for any type and version, parses back to exactly those values, whatever trails it |
| `TlsProperties.FailureOrder` | src/tls/mod.rs:62-89 | the first failing check decides the error: framing (line 11 or 16), major != 3, type != 22, empty fragment or type != 1, the handshake length read from data[1..4] (line 16), data[4] != 3; past those the outcome is the extension scan over data[1..23] |
| `TlsProperties.SkipConditions` | src/tls/mod.rs:83-89 | each skip succeeds iff its length byte(s) at offset 34 or 0 of the record buffer fit, and the extension block then is exactly data[1..1+data[0]] |
| `TlsProperties.SkipsPass` | src/tls/mod.rs:79-89 | once line 76 passes, the buffer has at least 4 + 0x030000 bytes, the three skips succeed and the extension block is data[1..23] |
| `TlsProperties.ShortInputsFail` | src/tls/mod.rs:63-73 | every buffer shorter than 4 + 0x030000 bytes returns an error, and one that passes lines 63-70 fails at line 73 |
| `TlsProperties.SingleRecordFails` | src/tls/mod.rs:47-73 | a buffer that is exactly one record always returns an error |
| `SniProperties.ExtensionStep` | src/tls/mod.rs:94-99 | one iteration reads the entry's type and data back exactly and leaves exactly the bytes after the entry |
| `SniProperties.ScanStep` | src/tls/mod.rs:94-99 | with at most 4 bytes left the loop returns the name so far; otherwise it fails at line 96 iff the declared length overruns, and else reads exts[4..4+L] and continues with exts[4+L..] |
| `SniProperties.SkipsOtherExtension` | src/tls/mod.rs:94-100 | an entry of any type other than [0,0] is skipped without changing the name |
| `SniProperties.ShortHostNameTaken` | src/tls/mod.rs:100-106 | a server_name entry laid out as in RFC 6066 with a name under 256 bytes, whatever its name type, sets the name (or fails at line 104 when it is not UTF-8) |
| `SniProperties.LongHostNameIgnored` | src/tls/mod.rs:100-102 | a server_name entry with a name of 256 bytes or more is ignored |
| `SniProperties.ServerNameEntry` | src/tls/mod.rs:100-106 | for any server_name data: at most 3 bytes panic at line 102; a non-zero byte 3 leaves the name; 4 bytes fail at line 11; a name length (byte 4) that overruns fails at line 16; otherwise the name is data[5..5+data[4]] when UTF-8, else the line 104 error |
| `SniProperties.LastMatchWins` | src/tls/mod.rs:93-108 | from two starting names the loop gives the same outcome, or returns each starting name unchanged: a later match overwrites an earlier one |
| `SniProperties.ScanResultOrigin` | src/tls/mod.rs:93-111 | a name the loop returns, other than the one it started with, is UTF-8 and is carried by a server_name entry at an offset the loop reads an entry from (0, or where an entry the loop reads ends): type [0,0], a data length covering the name, byte 3 zero and byte 4 the name's length |
| `SniProperties.NestedEntryIgnored` | src/tls/mod.rs:93-99 | for any extension of a type other than server_name, followed by anything: no offset strictly inside it is an entry start, so a server_name entry nested in its data is never read, and the loop continues with what follows it with the name unchanged |
| `SniProperties.NestedEntryExample` | src/tls/mod.rs:93-99 | an instance: a 14-byte block whose type-1 extension hides a server_name entry for "a" yields no name, and no entry start carries one |
| `Outcomes.FirstEntry` | src/tls/mod.rs:89-99 | the first entry of the block is never a server_name; it fails unless data[3] == 0 and then leaves data[8..23] |
| `Outcomes.NameAtMostSixOctets` | src/tls/mod.rs:56-112 | a decoded server name is UTF-8, at most 6 bytes, and occurs in data[8..23] |
| `Outcomes.TestBufferFails` | src/tls/mod.rs:127-146 | the unit test's buffer is a complete 166-byte record whose handshake length reads as 0x030100, and the parse fails at line 73 |
| `Outcomes.MinimalHelloScans` | src/tls/mod.rs:56-93 | a 196612-byte buffer with the right header bytes passes every check before the loop, which then scans bytes 8..23 |
| `Outcomes.SixOctetNameDecoded` | src/tls/mod.rs:93-111 | every 6-byte UTF-8 name, placed there as an RFC 6066 server_name entry, is decoded |
| `Outcomes.PanicReachable` | src/tls/mod.rs:102 | some buffer makes parse_client_hello panic |
| `RfcReference.RfcReadsRecord` | src/tls/mod.rs:72-73 | the reference takes the ClientHello body through the 3-byte length in the fragment, as the comment at line 72 describes |
| `RfcReference.RfcReadsBody` | src/tls/mod.rs:79-87 | the reference skips session id, cipher suites and compression methods, each from where the previous field ended |
| `RfcReference.RfcReadsExtensionsField` | src/tls/mod.rs:88-89 | the reference reads the extension list through a 2-byte length (mod.rs:124) |
| `RfcReference.RfcSkipsEntry` | src/tls/mod.rs:90-99 | the reference passes over an entry of another type whose length covers its data |
| `RfcReference.RfcReadsServerNameData` | src/tls/mod.rs:100-105 | the reference reads a host_name of under 256 bytes from server_name data laid out as in RFC 6066 |
| `RfcReference.SampleHelloContrast` | src/tls/mod.rs:56-126 | a ClientHello laid out as the RFCs say yields its host name from the reference, while parse_client_hello returns an error on it |
| `RfcReference.TestBufferContrast` | src/tls/mod.rs:127-146 | on the unit-test buffer the reference finds no server_name, while parse_client_hello fails at line 73 |

## Left out

- `src/main.rs`: a tokio TCP accept loop. This is network I/O and async code. It also does not compile: `socks` is undefined at line 15 and there is no `Client` type.
- Buffering a record from a socket, backend lookup and byte forwarding. None of this is in the decoder.
- Rust lifetimes and borrows. Slices are subsequences of the one input sequence.
- Allocation of the `Box<str>` name, and how `from_utf8` is implemented. The name is returned as its validated bytes, and `from_utf8` is modelled by the RFC 3629 well-formedness predicate it implements.
- Tls.SliceByLenAtRange: does not model `usize` wrap-around of `actual_len << 8` for ranges wider than eight bytes, nor overflow of `len_range.end + actual_len`. Every call site reads a range 1 to 3 bytes wide, where neither can happen (`NoUsizeOverflow`).
- Panics other than mod.rs:102. Every other index and slice in the decoder is proved in bounds by the model's own bounds checks.
