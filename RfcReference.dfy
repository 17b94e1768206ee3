/** A separate reference decoder that reads the server name the way the
    ClientHello of section 7.4.1.2 of RFC 5246 and the server_name
    extension of section 3 of RFC 6066 lay it out: handshake offsets taken
    from the fragment, a two-octet extensions length, the name type at
    index 2 of the extension data. It is not the model of mod.rs (that is
    `Tls.HelloOutcome`); it follows the code's comments where they agree
    with RFCs 5246 and 6066 and the RFCs where they do not (the comment at
    mod.rs:80 gives the session-id length two octets, the RFC one), and the
    lemmas here set the two side by side. */
module RfcReference {
  import opened Bytes
  import opened Utf8
  import opened Tls
  import opened TlsProperties
  import opened SniProperties
  import opened Outcomes

  /** The reference decoder either rejects the buffer or reports the name, if any. */
  datatype Verdict = Malformed | Decoded(serverName: Option<seq<byte>>)

  /** The record must be a handshake record of major version 3. */
  function RfcServerName(data: seq<byte>): Verdict
  {
    match ParseTlsRecord(data)
    case Err(_) => Malformed
    case Ok(record) =>
      if record.majorVersion != 3 || record.contentType != 22 then Malformed
      else RfcHandshake(record.fragment)
  }

  /** The fragment must hold a ClientHello with its three-octet length. */
  function RfcHandshake(fragment: seq<byte>): Verdict
  {
    if |fragment| == 0 || fragment[0] != 1 then Malformed
    else
      match LengthPrefixed(fragment, 1, 4)
      case Err(_) => Malformed
      case Ok(body) => RfcHelloBody(body)
  }

  /** client_version and random (34 octets), then the session id after
      its one-octet length. */
  function RfcHelloBody(body: seq<byte>): Verdict
  {
    match TruncateBefore(body, 34, 35)
    case Err(_) => Malformed
    case Ok(afterSession) => RfcCipherSuites(afterSession)
  }

  /** The cipher suites, after their two-octet length. */
  function RfcCipherSuites(afterSession: seq<byte>): Verdict
  {
    match TruncateBefore(afterSession, 0, 2)
    case Err(_) => Malformed
    case Ok(afterSuites) => RfcCompression(afterSuites)
  }

  /** The compression methods, after their one-octet length. */
  function RfcCompression(afterSuites: seq<byte>): Verdict
  {
    match TruncateBefore(afterSuites, 0, 1)
    case Err(_) => Malformed
    case Ok(afterCompression) => RfcExtensionsField(afterCompression)
  }

  /** What follows the compression methods: nothing, or the extension
      list after its two-octet length. */
  function RfcExtensionsField(afterCompression: seq<byte>): Verdict
  {
    if afterCompression == [] then Decoded(None)
    else
      match LengthPrefixed(afterCompression, 0, 2)
      case Err(_) => Malformed
      case Ok(exts) => RfcScan(exts)
  }

  /** The extension entries, in order, until the server_name one. */
  function RfcScan(exts: seq<byte>): Verdict
    decreases |exts|
  {
    if exts == [] then Decoded(None)
    else
      match LengthPrefixed(exts, 2, 4)
      case Err(_) => Malformed
      case Ok(extData) =>
        if exts[0..2] == ServerNameType then RfcServerNameData(extData)
        else RfcScan(TruncateBefore(exts, 2, 4).value)
  }

  /** The first entry of the ServerNameList: name type 0 is host_name. */
  function RfcServerNameData(extData: seq<byte>): Verdict
  {
    match LengthPrefixed(extData, 0, 2)
    case Err(_) => Malformed
    case Ok(list) =>
      if list == [] then Malformed
      else if list[0] != 0 then Decoded(None)
      else
        match LengthPrefixed(list, 1, 3)
        case Err(_) => Malformed
        case Ok(hostName) => if ValidUtf8(hostName) then Decoded(Some(hostName)) else Malformed
  }

  // ---------------------------------------------------------------------
  // Reading well-formed fields
  // ---------------------------------------------------------------------

  /** A field of `w` length octets at offset |pre|, whose length covers
      exactly the rest of `piece`, is read and skipped. */
  lemma PieceRead(pre: seq<byte>, piece: seq<byte>, rest: seq<byte>, w: nat)
    requires w <= |piece| && BeValue(piece[..w]) == |piece| - w
    ensures LengthPrefixed(pre + (piece + rest), |pre|, |pre| + w) == Ok(piece[w..])
    ensures TruncateBefore(pre + (piece + rest), |pre|, |pre| + w) == Ok(rest)
  {
    var data := pre + (piece + rest);
    assert data[|pre|..|pre| + w] == piece[..w];
    assert data[|pre| + w..|pre| + |piece|] == piece[w..];
    assert data[|pre| + |piece|..] == rest;
  }

  /** A handshake record of major version 3 whose two-octet length covers
      `fragment`: the reference goes on to the fragment. */
  lemma RfcReadsRecordHeader(record: seq<byte>, fragment: seq<byte>)
    requires |record| == 5 && record[0] == 22 && record[1] == 3
    requires BeValue(record[3..5]) == |fragment|
    ensures RfcServerName(record + fragment) == RfcHandshake(fragment)
  {
    var data := record + fragment;
    BeValue2(record[3..5]);
    assert data[3..5] == record[3..5];
    assert data[5..5 + |fragment|] == fragment;
  }

  /** A ClientHello handshake header whose three-octet length covers `body`:
      the reference goes on to the body. */
  lemma RfcReadsHandshakeHeader(handshake: seq<byte>, body: seq<byte>)
    requires |handshake| == 4 && handshake[0] == 1 && BeValue(handshake[1..4]) == |body|
    ensures RfcHandshake(handshake + body) == RfcHelloBody(body)
  {
    assert (handshake[1..] + body)[..3] == handshake[1..4];
    PieceRead([handshake[0]], handshake[1..] + body, [], 3);
    assert [handshake[0]] + ((handshake[1..] + body) + []) == handshake + body;
    assert (handshake[1..] + body)[3..] == body;
  }

  /** Both headers together. */
  lemma RfcReadsRecord(record: seq<byte>, handshake: seq<byte>, body: seq<byte>)
    requires |record| == 5 && record[0] == 22 && record[1] == 3
    requires BeValue(record[3..5]) == |handshake| + |body|
    requires |handshake| == 4 && handshake[0] == 1 && BeValue(handshake[1..4]) == |body|
    ensures RfcServerName(record + (handshake + body)) == RfcHelloBody(body)
  {
    RfcReadsRecordHeader(record, handshake + body);
    RfcReadsHandshakeHeader(handshake, body);
  }

  /** After 34 octets of version and random, a session id whose one-octet
      length covers it is skipped. */
  lemma RfcSkipsSession(random: seq<byte>, session: seq<byte>, tail: seq<byte>)
    requires |random| == 34 && 1 <= |session| && BeValue(session[..1]) == |session| - 1
    ensures RfcHelloBody(random + (session + tail)) == RfcCipherSuites(tail)
  {
    PieceRead(random, session, tail, 1);
  }

  /** Cipher suites whose two-octet length covers them are skipped. */
  lemma RfcSkipsSuites(suites: seq<byte>, tail: seq<byte>)
    requires 2 <= |suites| && BeValue(suites[..2]) == |suites| - 2
    ensures RfcCipherSuites(suites + tail) == RfcCompression(tail)
  {
    PieceRead([], suites, tail, 2);
    assert [] + (suites + tail) == suites + tail;
  }

  /** Compression methods whose one-octet length covers them are skipped. */
  lemma RfcSkipsCompression(compression: seq<byte>, tail: seq<byte>)
    requires 1 <= |compression| && BeValue(compression[..1]) == |compression| - 1
    ensures RfcCompression(compression + tail) == RfcExtensionsField(tail)
  {
    PieceRead([], compression, tail, 1);
    assert [] + (compression + tail) == compression + tail;
  }

  /** A ClientHello body whose fields carry their own lengths is read down
      to whatever follows the compression methods. */
  lemma RfcReadsBody(random: seq<byte>, session: seq<byte>, suites: seq<byte>, compression: seq<byte>,
                     tail: seq<byte>)
    requires |random| == 34
    requires 1 <= |session| && BeValue(session[..1]) == |session| - 1
    requires 2 <= |suites| && BeValue(suites[..2]) == |suites| - 2
    requires 1 <= |compression| && BeValue(compression[..1]) == |compression| - 1
    ensures RfcHelloBody(random + (session + (suites + (compression + tail)))) == RfcExtensionsField(tail)
  {
    RfcSkipsSession(random, session, suites + (compression + tail));
    RfcSkipsSuites(suites, compression + tail);
    RfcSkipsCompression(compression, tail);
  }

  /** Extensions after their two-octet length are scanned. */
  lemma RfcReadsExtensionsField(extsLength: seq<byte>, exts: seq<byte>)
    requires |extsLength| == 2 && BeValue(extsLength) == |exts|
    ensures RfcExtensionsField(extsLength + exts) == RfcScan(exts)
  {
    assert (extsLength + exts)[..2] == extsLength;
    PieceRead([], extsLength + exts, [], 2);
    assert [] + ((extsLength + exts) + []) == extsLength + exts;
    assert (extsLength + exts)[2..] == exts;
  }

  /** An extension entry of a type other than server_name, with a
      two-octet length covering exactly its data. */
  predicate OtherEntry(entry: seq<byte>)
  {
    |entry| >= 4 && entry[0..2] != ServerNameType && BeValue(entry[2..4]) == |entry| - 4
  }

  /** The reference passes over such an entry. */
  lemma RfcSkipsEntry(entry: seq<byte>, rest: seq<byte>)
    requires OtherEntry(entry)
    ensures RfcScan(entry + rest) == RfcScan(rest)
  {
    assert entry[2..][..2] == entry[2..4];
    PieceRead(entry[..2], entry[2..], rest, 2);
    assert entry[..2] + (entry[2..] + rest) == entry + rest;
    assert (entry + rest)[0..2] == entry[0..2];
  }

  /** Five such entries hold no server_name. */
  lemma RfcNoServerName(e1: seq<byte>, e2: seq<byte>, e3: seq<byte>, e4: seq<byte>, e5: seq<byte>)
    requires OtherEntry(e1) && OtherEntry(e2) && OtherEntry(e3) && OtherEntry(e4) && OtherEntry(e5)
    ensures RfcScan(e1 + (e2 + (e3 + (e4 + e5)))) == Decoded(None)
  {
    RfcSkipsEntry(e5, []);
    assert e5 + [] == e5;
    RfcSkipsEntry(e4, e5);
    RfcSkipsEntry(e3, e4 + e5);
    RfcSkipsEntry(e2, e3 + (e4 + e5));
    RfcSkipsEntry(e1, e2 + (e3 + (e4 + e5)));
  }

  /** The ServerNameList inside ServerNameData: the name type, the name's
      two-octet length, the name. */
  function HostNameList(nameType: byte, hostName: seq<byte>): (s: seq<byte>)
    requires |hostName| < 65536
    ensures |s| == 3 + |hostName|
  {
    [nameType] + BeEncode(|hostName|, 2) + hostName
  }

  /** A buffer that is a field and its two-octet length reads that field. */
  lemma ReadWholeField(field: seq<byte>, data: seq<byte>)
    requires |field| < 65536 && data == BeEncode(|field|, 2) + field
    ensures LengthPrefixed(data, 0, 2) == Ok(field)
  {
    assert Pow256(2) == 65536;
    FieldRoundTrip([], field, [], 2);
    assert [] + BeEncode(|field|, 2) + field + [] == data;
  }

  /** The list and the name of a server_name extension's data are read
      back through their two-octet lengths. */
  lemma ServerNameDataFields(nameType: byte, hostName: seq<byte>)
    requires |hostName| < 256
    ensures LengthPrefixed(ServerNameData(nameType, hostName), 0, 2) == Ok(HostNameList(nameType, hostName))
    ensures LengthPrefixed(HostNameList(nameType, hostName), 1, 3) == Ok(hostName)
  {
    var list := HostNameList(nameType, hostName);
    assert ServerNameData(nameType, hostName) == BeEncode(|list|, 2) + list;
    ReadWholeField(list, ServerNameData(nameType, hostName));
    assert Pow256(2) == 65536;
    FieldRoundTrip([nameType], hostName, [], 2);
    assert [nameType] + BeEncode(|hostName|, 2) + hostName + [] == list;
  }

  /** The reference reads the name of server_name data holding one host_name. */
  lemma RfcReadsServerNameData(hostName: seq<byte>)
    requires |hostName| < 256 && ValidUtf8(hostName)
    ensures RfcServerNameData(ServerNameData(0, hostName)) == Decoded(Some(hostName))
  {
    ServerNameDataFields(0, hostName);
  }

  // ---------------------------------------------------------------------
  // A ClientHello laid out as the RFCs say
  // ---------------------------------------------------------------------

  /** A complete TLS 1.2 ClientHello record carrying one server_name
      extension: zero random, empty session id, cipher suite 0xc030, null
      compression. */
  function SampleHello(hostName: seq<byte>): (data: seq<byte>)
    requires |hostName| < 256
    ensures |data| == 61 + |hostName|
  {
    SampleRecordHeader(hostName) + (SampleHandshakeHeader(hostName) + SampleBody(hostName))
  }

  /** Handshake content type, version 3.3, the two-octet fragment length. */
  function SampleRecordHeader(hostName: seq<byte>): (s: seq<byte>)
    requires |hostName| < 256
    ensures |s| == 5
  {
    [22, 3, 3] + BeEncode(56 + |hostName|, 2)
  }

  /** Handshake type 1 and the three-octet body length. */
  function SampleHandshakeHeader(hostName: seq<byte>): (s: seq<byte>)
    requires |hostName| < 256
    ensures |s| == 4
  {
    [1] + BeEncode(52 + |hostName|, 3)
  }

  /** The ClientHello body of SampleHello. */
  function SampleBody(hostName: seq<byte>): (body: seq<byte>)
    requires |hostName| < 256
    ensures |body| == 52 + |hostName|
  {
    ClientHeadOctets() + ([0] + ([0x00, 0x02, 0xc0, 0x30] + ([0x01, 0x00]
    + (BeEncode(9 + |hostName|, 2) + SampleExtensionList(hostName)))))
  }

  /** client_version 3.3 and a zero random. */
  function ClientHeadOctets(): (s: seq<byte>)
    ensures |s| == 34
  {
    [3, 3] + seq(32, i => 0)
  }

  /** The one extension of SampleHello: server_name, naming `hostName`. */
  function SampleExtensionList(hostName: seq<byte>): (s: seq<byte>)
    requires |hostName| < 256
    ensures |s| == 9 + |hostName|
  {
    Extension(ServerNameType, ServerNameData(0, hostName))
  }

  /** The reference finds the name in SampleHello's extension list. */
  lemma RfcScansSampleExtensions(hostName: seq<byte>)
    requires |hostName| < 256 && ValidUtf8(hostName)
    ensures RfcScan(SampleExtensionList(hostName)) == Decoded(Some(hostName))
  {
    var exts := SampleExtensionList(hostName);
    ExtensionStep(ServerNameType, ServerNameData(0, hostName), []);
    assert exts + [] == exts;
    RfcReadsServerNameData(hostName);
  }

  /** The reference reads SampleHello's record and handshake headers. */
  lemma SampleFraming(hostName: seq<byte>)
    requires |hostName| < 256
    ensures RfcServerName(SampleHello(hostName)) == RfcHelloBody(SampleBody(hostName))
  {
    var header := SampleRecordHeader(hostName);
    var handshake := SampleHandshakeHeader(hostName);
    assert Pow256(2) == 65536 && Pow256(3) == 0x100_0000;
    BeRoundTrip(56 + |hostName|, 2);
    assert header[3..5] == BeEncode(56 + |hostName|, 2);
    BeRoundTrip(52 + |hostName|, 3);
    assert handshake[1..4] == BeEncode(52 + |hostName|, 3);
    RfcReadsRecord(header, handshake, SampleBody(hostName));
  }

  /** The session id, cipher suites and compression methods of SampleBody
      each carry the length of what follows it. */
  lemma SampleFieldLengths()
    ensures BeValue([0][..1]) == 0
    ensures BeValue([0x00, 0x02, 0xc0, 0x30][..2]) == 2
    ensures BeValue([0x01, 0x00][..1]) == 1
  {
    BeValue1([0]);
    assert [0x00, 0x02, 0xc0, 0x30][..2] == [0x00, 0x02];
    BeValue2([0x00, 0x02]);
    assert [0x01, 0x00][..1] == [0x01];
    BeValue1([0x01]);
  }

  /** The reference walks SampleHello's body down to its server_name. */
  lemma SampleBodyRead(hostName: seq<byte>)
    requires |hostName| < 256 && ValidUtf8(hostName)
    ensures RfcHelloBody(SampleBody(hostName)) == Decoded(Some(hostName))
  {
    var extsLength := BeEncode(9 + |hostName|, 2);
    SampleFieldLengths();
    RfcReadsBody(ClientHeadOctets(), [0], [0x00, 0x02, 0xc0, 0x30], [0x01, 0x00],
                 extsLength + SampleExtensionList(hostName));
    assert Pow256(2) == 65536;
    BeRoundTrip(9 + |hostName|, 2);
    RfcReadsExtensionsField(extsLength, SampleExtensionList(hostName));
    RfcScansSampleExtensions(hostName);
  }

  /** SampleHello is exactly one record, so the model of mod.rs rejects it. */
  lemma SampleHelloFails(hostName: seq<byte>)
    requires |hostName| < 256
    ensures HelloOutcome(SampleHello(hostName)).Returned? && HelloOutcome(SampleHello(hostName)).result.Err?
  {
    var data := SampleHello(hostName);
    var header := SampleRecordHeader(hostName);
    assert data[3..5] == header[3..5] == BeEncode(56 + |hostName|, 2);
    assert Pow256(2) == 65536;
    BeRoundTrip(56 + |hostName|, 2);
    BeValue2(data[3..5]);
    SingleRecordFails(data);
  }

  /** A ClientHello laid out as the RFCs say, naming a host of fewer than 256
      octets, yields that name from the reference decoder; the model of
      mod.rs rejects it, as it rejects every single-record buffer. */
  lemma SampleHelloContrast(hostName: seq<byte>)
    requires |hostName| < 256 && ValidUtf8(hostName)
    ensures RfcServerName(SampleHello(hostName)) == Decoded(Some(hostName))
    ensures HelloOutcome(SampleHello(hostName)).Returned? && HelloOutcome(SampleHello(hostName)).result.Err?
  {
    SampleFraming(hostName);
    SampleBodyRead(hostName);
    SampleHelloFails(hostName);
  }

  // ---------------------------------------------------------------------
  // The buffer of the unit test
  // ---------------------------------------------------------------------

  /** The extension list of the unit-test buffer holds no server_name. */
  lemma TestBufferExtensions()
    ensures RfcScan(TestExtensions) == Decoded(None)
  {
    assert OtherEntry(TestPointFormats) by {
      assert |TestPointFormats| == 8 && TestPointFormats[2] == 0x00 && TestPointFormats[3] == 0x04;
      BeValue2(TestPointFormats[2..4]);
      assert TestPointFormats[0..2][1] != 0;
    }
    assert OtherEntry(TestCurves) by {
      assert |TestCurves| == 56 && TestCurves[2] == 0x00 && TestCurves[3] == 0x34;
      BeValue2(TestCurves[2..4]);
      assert TestCurves[0..2][1] != 0;
    }
    assert OtherEntry(TestSessionTicket) by {
      assert |TestSessionTicket| == 4 && TestSessionTicket[2] == 0x00 && TestSessionTicket[3] == 0x00;
      BeValue2(TestSessionTicket[2..4]);
      assert TestSessionTicket[0..2][1] != 0;
    }
    assert OtherEntry(TestSignatureAlgorithms) by {
      assert |TestSignatureAlgorithms| == 38 && TestSignatureAlgorithms[2] == 0x00 && TestSignatureAlgorithms[3] == 0x22;
      BeValue2(TestSignatureAlgorithms[2..4]);
      assert TestSignatureAlgorithms[0..2][1] != 0;
    }
    assert OtherEntry(TestHeartbeat) by {
      assert |TestHeartbeat| == 5 && TestHeartbeat[2] == 0x00 && TestHeartbeat[3] == 0x01;
      BeValue2(TestHeartbeat[2..4]);
      assert TestHeartbeat[0..2][1] != 0;
    }
    RfcNoServerName(TestPointFormats, TestCurves, TestSessionTicket, TestSignatureAlgorithms, TestHeartbeat);
  }

  /** On the buffer of the unit test at mod.rs:129-142 the reference decoder
      finds no server_name: its extensions are ec_point_formats,
      elliptic_curves, SessionTicket, signature_algorithms and heartbeat.
      The model of mod.rs instead fails at mod.rs:73. */
  lemma TestBufferContrast()
    ensures RfcServerName(TestBuffer) == Decoded(None)
    ensures HelloOutcome(TestBuffer) == Returned(Err(FieldOutOfBounds))
  {
    BeValue2(TestRecordHeader[3..5]);
    BeValue3(TestHandshakeHeader[1..4]);
    RfcReadsRecord(TestRecordHeader, TestHandshakeHeader, TestBody);
    BeValue1(TestSessionId[..1]);
    BeValue2(TestCipherSuites[..2]);
    BeValue1(TestCompression[..1]);
    BeValue2(TestExtensionsLength);
    RfcReadsBody(TestVersionRandom, TestSessionId, TestCipherSuites, TestCompression,
                 TestExtensionsLength + TestExtensions);
    RfcReadsExtensionsField(TestExtensionsLength, TestExtensions);
    TestBufferExtensions();
    TestBufferFails();
  }
}
