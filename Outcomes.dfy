/** Whole-buffer consequences of reading every ClientHello offset from the
    record buffer (mod.rs:73-89): what parse_client_hello can return at all,
    the outcome on the unit-test buffer of mod.rs:129-142, and inputs that
    reach a name and the panic. */
module Outcomes {
  import opened Bytes
  import opened Utf8
  import opened Tls
  import opened TlsProperties
  import opened SniProperties

  /** The extension block is octets 1..23 of the record buffer, so its first
      entry has type [3, data[2]] and length 256 * data[3] + 3: it never is
      a server_name, fits only when data[3] is 0, and leaves octets 8..23. */
  lemma FirstEntry(data: seq<byte>)
    requires VersionChecked(data)
    ensures ScanExtensions(data[1..23], None)
            == if data[3] != 0 then Returned(Err(FieldOutOfBounds)) else ScanExtensions(data[8..23], None)
  {
    SkipsPass(data);
    var exts := data[1..23];
    BeValue2(exts[2..4]);
    if data[3] == 0 {
      assert TruncateBefore(exts, 2, 4).value == exts[7..];
      assert exts[7..] == data[8..23];
    }
  }

  /** A decoded server name has at most six octets: its server_name entry,
      nine octets of headers and the name, must lie in the fifteen octets
      8..23 that follow the first entry. */
  lemma NameAtMostSixOctets(data: seq<byte>, hostName: seq<byte>)
    ensures HelloOutcome(data) == Returned(Ok(ClientHello(Some(hostName))))
            ==> && |data| >= 4 + 0x030000
                && |hostName| <= 6 && ValidUtf8(hostName)
                && FromNameEntry(data[8..23], hostName)
  {
    if HelloOutcome(data) == Returned(Ok(ClientHello(Some(hostName)))) {
      FailureOrder(data);
      assert VersionChecked(data);
      SkipsPass(data);
      FirstEntry(data);
      ScanResultOrigin(data[8..23], None, Some(hostName));
      var j: nat :| j <= 15 && NameEntryAt(data[8..23], j, hostName);
    }
  }

  /** The buffer of the unit test at mod.rs:129-142, octet for octet,
      grouped by the ClientHello field (section 7.4.1.2 of RFC 5246) each
      group encodes. */
  const TestBuffer: seq<byte> := TestRecordHeader + (TestHandshakeHeader + TestBody)

  /** Handshake content type, version 3.1, fragment length 0xa1. */
  const TestRecordHeader: seq<byte> := [0x16, 0x03, 0x01, 0x00, 0xa1]

  /** Handshake type 1 (ClientHello), three-octet length 0x9d. */
  const TestHandshakeHeader: seq<byte> := [0x01, 0x00, 0x00, 0x9d]

  /** The ClientHello body. */
  const TestBody: seq<byte> :=
    TestVersionRandom + (TestSessionId + (TestCipherSuites + (TestCompression + (TestExtensionsLength + TestExtensions))))

  /** client_version 3.3 and the 32-octet random. */
  const TestVersionRandom: seq<byte> :=
    [0x03, 0x03, 0x52, 0x36, 0x2c, 0x10, 0x12, 0xcf, 0x23, 0x62, 0x82, 0x56, 0xe7, 0x45, 0xe9, 0x03, 0xce]
    + [0xa6, 0x96, 0xe9, 0xf6, 0x2a, 0x60, 0xba, 0x0a, 0xe8, 0x31, 0x1d, 0x70, 0xde, 0xa5, 0xe4, 0x19, 0x49]

  /** An empty session id. */
  const TestSessionId: seq<byte> := [0x00]

  /** Two cipher suites, 0xc030 and 0x00ff, after their two-octet length. */
  const TestCipherSuites: seq<byte> := [0x00, 0x04, 0xc0, 0x30, 0x00, 0xff]

  /** Two compression methods, 1 and 0, after their one-octet length. */
  const TestCompression: seq<byte> := [0x02, 0x01, 0x00]

  /** The two-octet length of the extension list, 0x6f. */
  const TestExtensionsLength: seq<byte> := [0x00, 0x6f]

  /** Five extensions: ec_point_formats, elliptic_curves, SessionTicket,
      signature_algorithms and heartbeat. */
  const TestExtensions: seq<byte> :=
    TestPointFormats + (TestCurves + (TestSessionTicket + (TestSignatureAlgorithms + TestHeartbeat)))

  /** ec_point_formats (type 0x000b), four octets of data. */
  const TestPointFormats: seq<byte> := [0x00, 0x0b, 0x00, 0x04, 0x03, 0x00, 0x01, 0x02]

  /** elliptic_curves (type 0x000a), 52 octets of data. */
  const TestCurves: seq<byte> :=
    [0x00, 0x0a, 0x00, 0x34, 0x00, 0x32, 0x00, 0x0e, 0x00, 0x0d, 0x00, 0x19, 0x00, 0x0b]
    + [0x00, 0x0c, 0x00, 0x18, 0x00, 0x09, 0x00, 0x0a, 0x00, 0x16, 0x00, 0x17, 0x00, 0x08]
    + [0x00, 0x06, 0x00, 0x07, 0x00, 0x14, 0x00, 0x15, 0x00, 0x04, 0x00, 0x05, 0x00, 0x12]
    + [0x00, 0x13, 0x00, 0x01, 0x00, 0x02, 0x00, 0x03, 0x00, 0x0f, 0x00, 0x10, 0x00, 0x11]

  /** SessionTicket (type 0x0023), no data. */
  const TestSessionTicket: seq<byte> := [0x00, 0x23, 0x00, 0x00]

  /** signature_algorithms (type 0x000d), 34 octets of data. */
  const TestSignatureAlgorithms: seq<byte> :=
    [0x00, 0x0d, 0x00, 0x22, 0x00, 0x20, 0x06, 0x01, 0x06, 0x02, 0x06, 0x03, 0x05, 0x01, 0x05, 0x02, 0x05, 0x03, 0x04]
    + [0x01, 0x04, 0x02, 0x04, 0x03, 0x03, 0x01, 0x03, 0x02, 0x03, 0x03, 0x02, 0x01, 0x02, 0x02, 0x02, 0x03, 0x01, 0x01]

  /** heartbeat (type 0x000f), one octet of data. */
  const TestHeartbeat: seq<byte> := [0x00, 0x0f, 0x00, 0x01, 0x01]

  /** The test buffer is one complete 166-octet record; parse_client_hello
      fails on it at mod.rs:73 ("error when get index"), reading 0x030100
      as the handshake length, so the test's `unwrap` at mod.rs:145 panics. */
  lemma TestBufferFails()
    ensures |TestBuffer| == 166 && RecordFits(TestBuffer)
    ensures ClientHelloHeader(TestBuffer) && HandshakeLength(TestBuffer) == 0x030100
    ensures HelloOutcome(TestBuffer) == Returned(Err(FieldOutOfBounds))
  {
    var b := TestBuffer;
    assert |b| == 166;
    assert b[0] == 0x16 && b[1] == 0x03 && b[2] == 0x01 && b[3] == 0x00 && b[4] == 0xa1 && b[5] == 0x01;
    ShortInputsFail(TestBuffer);
  }

  /** The shortest buffer that passes mod.rs:76: record length 3, handshake
      type 1, and `tail` from octet 8 on, zero-padded to 4 + 0x030000 octets. */
  function MinimalHello(tail: seq<byte>): (data: seq<byte>)
    requires |tail| == 15
    ensures |data| == 4 + 0x030000 && data[8..23] == tail
  {
    var head: seq<byte> := [22, 3, 0, 0, 3, 1, 0, 0];
    var data := head + tail + seq(4 + 0x030000 - 23, i => 0);
    assert data[8..23] == tail;
    data
  }

  /** MinimalHello passes every check before the extension loop, which then
      runs over `tail`. */
  lemma MinimalHelloScans(tail: seq<byte>)
    requires |tail| == 15
    ensures HelloOutcome(MinimalHello(tail)) == ScanExtensions(tail, None)
  {
    var data := MinimalHello(tail);
    assert data[..8] == [22, 3, 0, 0, 3, 1, 0, 0];
    assert VersionChecked(data) by {
      assert HandshakeLength(data) == 0x030000;
    }
    FailureOrder(data);
    FirstEntry(data);
  }

  /** A six-octet name is decoded: the bound of NameAtMostSixOctets is reached. */
  lemma SixOctetNameDecoded(hostName: seq<byte>)
    requires |hostName| == 6 && ValidUtf8(hostName)
    ensures HelloOutcome(MinimalHello(Extension(ServerNameType, ServerNameData(0, hostName))))
            == Returned(Ok(ClientHello(Some(hostName))))
  {
    var tail := Extension(ServerNameType, ServerNameData(0, hostName));
    MinimalHelloScans(tail);
    ShortHostNameTaken(0, hostName, [], None);
    assert tail + [] == tail;
  }

  /** The unchecked index of mod.rs:102 is reachable: a server_name entry
      with no data in the octets after the first entry panics. */
  lemma PanicReachable()
    ensures HelloOutcome(MinimalHello(Extension(ServerNameType, []) + seq(11, i => 0))) == Panicked
  {
    var tail := Extension(ServerNameType, []) + seq(11, i => 0);
    MinimalHelloScans(tail);
    ServerNameEntry([], seq(11, i => 0), None);
  }
}
