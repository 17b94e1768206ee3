/** What the decoder of src/tls/mod.rs does, as written, proved about the
    model in module Tls. */
module TlsProperties {
  import opened Bytes
  import opened Tls

  // ---------------------------------------------------------------------
  // Length-prefixed fields
  // ---------------------------------------------------------------------

  /** A field written after its `w`-octet big-endian length is read back
      exactly, and skipping it leaves exactly what follows. */
  lemma FieldRoundTrip(pre: seq<byte>, field: seq<byte>, rest: seq<byte>, w: nat)
    requires |field| < Pow256(w)
    ensures LengthPrefixed(pre + BeEncode(|field|, w) + field + rest, |pre|, |pre| + w) == Ok(field)
    ensures TruncateBefore(pre + BeEncode(|field|, w) + field + rest, |pre|, |pre| + w) == Ok(rest)
  {
    var data := pre + BeEncode(|field|, w) + field + rest;
    assert data[|pre|..|pre| + w] == BeEncode(|field|, w);
    BeRoundTrip(|field|, w);
    assert data[|pre| + w..|pre| + w + |field|] == field;
    assert data[|pre| + w + |field|..] == rest;
  }

  /** Conversely, every field that is read is framed that way: the buffer
      is what precedes the length, the length's encoding, the field and the
      rest that truncate_before returns. */
  lemma FieldFraming(data: seq<byte>, lo: nat, hi: nat)
    requires LengthPrefixed(data, lo, hi).Ok?
    ensures |LengthPrefixed(data, lo, hi).value| < Pow256(hi - lo)
    ensures data == data[..lo] + BeEncode(|LengthPrefixed(data, lo, hi).value|, hi - lo)
                    + LengthPrefixed(data, lo, hi).value + TruncateBefore(data, lo, hi).value
  {
    var field := LengthPrefixed(data, lo, hi).value;
    BeValueBound(data[lo..hi]);
    BeEncodeValue(data[lo..hi]);
    assert data[..hi] == data[..lo] + data[lo..hi];
  }

  /** Why unbounded `nat` is exact for the call sites of
      slice_by_len_at_range, which all read one to three octets: the
      accumulator stays below 2^24, so `actual_len << 8` never shifts a bit
      out of a 64-bit `usize`, and `len_range.end + actual_len` stays below
      2^64 for any buffer shorter than 2^63 octets. */
  lemma NoUsizeOverflow(data: seq<byte>, lo: nat, hi: nat)
    requires lo <= hi <= |data| && hi - lo <= 3 && |data| < 0x8000_0000_0000_0000
    ensures forall i :: lo <= i <= hi ==> BeValue(data[lo..i]) < 0x100_0000
    ensures hi + BeValue(data[lo..hi]) < 0x1_0000_0000_0000_0000
  {
    assert Pow256(3) == 0x100_0000;
    forall i | lo <= i <= hi
      ensures BeValue(data[lo..i]) < 0x100_0000
    {
      BeValueBound(data[lo..i]);
      assert Pow256(i - lo) <= Pow256(3);
    }
  }

  // ---------------------------------------------------------------------
  // Records
  // ---------------------------------------------------------------------

  /** The header and fragment of a record (section 6.2.1 of RFC 5246):
      content type, major and minor version, a two-octet length, the fragment. */
  function RecordBytes(contentType: byte, major: byte, minor: byte, fragment: seq<byte>): (s: seq<byte>)
    requires |fragment| < 65536
    ensures |s| == 5 + |fragment|
  {
    [contentType, major, minor] + BeEncode(|fragment|, 2) + fragment
  }

  /** parse_tls_record reads back any record it is given, whatever its type
      and version, and ignores whatever follows the fragment. */
  lemma RecordRoundTrip(contentType: byte, major: byte, minor: byte, fragment: seq<byte>, trailing: seq<byte>)
    requires |fragment| < 65536
    ensures ParseTlsRecord(RecordBytes(contentType, major, minor, fragment) + trailing)
            == Ok(TlsRecord(contentType, major, minor, fragment))
  {
    var head := [contentType, major, minor];
    assert Pow256(2) == 65536;
    FieldRoundTrip(head, fragment, trailing, 2);
    assert RecordBytes(contentType, major, minor, fragment) + trailing
        == head + BeEncode(|fragment|, 2) + fragment + trailing;
  }

  // ---------------------------------------------------------------------
  // The order in which parse_client_hello fails
  // ---------------------------------------------------------------------

  /** The record header, with the fragment length it declares, fits in the buffer. */
  predicate RecordFits(data: seq<byte>)
  {
    |data| >= 5 && 5 + 256 * (data[3] as int) + data[4] <= |data|
  }

  /** The record is a handshake record of major version 3 whose fragment
      starts with handshake type 1 (mod.rs:62-71 all pass). */
  predicate ClientHelloHeader(data: seq<byte>)
  {
    RecordFits(data) && data[1] == 3 && data[0] == 22
    && 256 * (data[3] as int) + data[4] > 0 && data[5] == 1
  }

  /** The value that mod.rs:73 reads as the handshake length: octets 1..4 of
      the record buffer, which are the minor version and the record length. */
  function HandshakeLength(data: seq<byte>): nat
    requires |data| >= 4
  {
    65536 * (data[1] as int) + 256 * (data[2] as int) + data[3]
  }

  /** The checks up to mod.rs:76 pass. */
  predicate VersionChecked(data: seq<byte>)
  {
    ClientHelloHeader(data) && 4 + HandshakeLength(data) <= |data| && data[4] == 3
  }

  /** parse_client_hello reports the first failing check, in source order:
      record framing, major version, content type, handshake type, the
      handshake length read from the record buffer, the body's first octet
      (which is octet 4 of the record buffer). Past those, the outcome is the
      extension loop over octets 1..23. */
  lemma FailureOrder(data: seq<byte>)
    ensures |data| < 5 ==> HelloOutcome(data) == Returned(Err(LengthRangeOutOfBounds))
    ensures |data| >= 5 && !RecordFits(data) ==> HelloOutcome(data) == Returned(Err(FieldOutOfBounds))
    ensures RecordFits(data) && data[1] != 3 ==> HelloOutcome(data) == Returned(Err(UnknownTlsVersion))
    ensures RecordFits(data) && data[1] == 3 && data[0] != 22 ==> HelloOutcome(data) == Returned(Err(NotAHandshake))
    ensures RecordFits(data) && data[1] == 3 && data[0] == 22
            && (256 * (data[3] as int) + data[4] == 0 || data[5] != 1)
            ==> HelloOutcome(data) == Returned(Err(NotAClientHello))
    ensures ClientHelloHeader(data) && 4 + HandshakeLength(data) > |data|
            ==> HelloOutcome(data) == Returned(Err(FieldOutOfBounds))
    ensures ClientHelloHeader(data) && 4 + HandshakeLength(data) <= |data| && data[4] != 3
            ==> HelloOutcome(data) == Returned(Err(UnsupportedTlsVersion))
    ensures VersionChecked(data) ==> HelloOutcome(data) == ScanExtensions(data[1..23], None)
  {
    if ClientHelloHeader(data) {
      BeValue3(data[1..4]);
      if VersionChecked(data) {
        SkipsPass(data);
      }
    }
  }

  /** When each skip (mod.rs:83-87) and the extension-block read
      (mod.rs:89) succeed, all measured from offset 0 of the record buffer:
      the block is data[1..1 + data[0]], read through a one-octet length. */
  lemma SkipConditions(data: seq<byte>)
    ensures TruncateBefore(data, 34, 35).Ok? <==> |data| >= 35 && 35 + data[34] <= |data|
    ensures TruncateBefore(data, 0, 2).Ok? <==> |data| >= 2 && 2 + 256 * (data[0] as int) + data[1] <= |data|
    ensures TruncateBefore(data, 0, 1).Ok? <==> |data| >= 1 && 1 + data[0] <= |data|
    ensures LengthPrefixed(data, 0, 1).Ok? <==> TruncateBefore(data, 0, 1).Ok?
    ensures LengthPrefixed(data, 0, 1).Ok? ==> LengthPrefixed(data, 0, 1).value == data[1..1 + data[0]]
  {
    if |data| >= 35 {
      BeValue1(data[34..35]);
    }
    if |data| >= 2 {
      BeValue2(data[0..2]);
    }
    if |data| >= 1 {
      BeValue1(data[0..1]);
    }
  }

  /** Once mod.rs:76 passes, the buffer holds at least 4 + 0x030000 octets,
      so none of the three skips (mod.rs:83-87) can fail and the extension
      block read at mod.rs:89 is always octets 1..23. */
  lemma SkipsPass(data: seq<byte>)
    requires VersionChecked(data)
    ensures |data| >= 4 + 0x030000
    ensures TruncateBefore(data, 34, 35).Ok?
    ensures TruncateBefore(data, 0, 2).Ok?
    ensures TruncateBefore(data, 0, 1).Ok?
    ensures ExtensionsBlock(data) == Ok(data[1..23])
  {
    BeValue3(data[1..4]);
    BeValue1(data[34..35]);
    BeValue2(data[0..2]);
    BeValue1(data[0..1]);
  }

  /** mod.rs:73 reads the handshake length from the record buffer, where
      octet 1 is the major version that mod.rs:63 fixed at 3: every buffer
      shorter than 4 + 0x030000 octets fails, and one that passes the
      earlier checks fails there. */
  lemma ShortInputsFail(data: seq<byte>)
    requires |data| < 4 + 0x030000
    ensures HelloOutcome(data).Returned? && HelloOutcome(data).result.Err?
    ensures ClientHelloHeader(data) ==> HelloOutcome(data) == Returned(Err(FieldOutOfBounds))
  {
    FailureOrder(data);
    if ClientHelloHeader(data) {
      assert HandshakeLength(data) >= 0x030000;
    }
  }

  /** In particular a buffer holding exactly one record, which is at most
      5 + 65535 octets, never decodes. */
  lemma SingleRecordFails(data: seq<byte>)
    requires RecordFits(data) && |data| == 5 + 256 * (data[3] as int) + data[4]
    ensures HelloOutcome(data).Returned? && HelloOutcome(data).result.Err?
  {
    ShortInputsFail(data);
  }
}
