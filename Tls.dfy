/** The TLS record / ClientHello / server_name decoder of src/tls/mod.rs,
    modelled as written. Slices of the caller's buffer are subsequences of
    one immutable `seq<byte>`; ranges are pairs of `nat` offsets. */
module Tls {
  import opened Bytes
  import opened Utf8

  /** Each error site of the decoder, kept distinct. */
  datatype Error =
    | LengthRangeOutOfBounds  // mod.rs:11, the length field itself is not inside the buffer
    | FieldOutOfBounds        // mod.rs:16, fewer octets follow than the length field declares
    | UnknownTlsVersion       // mod.rs:64, record major version is not 3
    | NotAHandshake           // mod.rs:67, record content type is not 22
    | NotAClientHello         // mod.rs:70, handshake type is missing or not 1
    | UnsupportedTlsVersion   // mod.rs:76, first body octet is missing or not 3
    | InvalidUtf8Name         // mod.rs:104, server name octets are not UTF-8

  datatype Result<T> = Ok(value: T) | Err(error: Error)

  datatype Option<T> = None | Some(value: T)

  /** 'TlsRecord' (mod.rs:31-40); `fragment` is the octets the record carries. */
  datatype TlsRecord = TlsRecord(contentType: byte, majorVersion: byte, minorVersion: byte, fragment: seq<byte>)

  /** 'TlsClientHello' (mod.rs:44-46); the name is kept as its validated octets. */
  datatype ClientHello = ClientHello(serverName: Option<seq<byte>>)

  /** What a call of parse_client_hello does: return a result, or panic
      (the unchecked index at mod.rs:102). */
  datatype Outcome = Returned(result: Result<ClientHello>) | Panicked

  /** EXT_SERVER_NAME (mod.rs:3), the server_name extension type. */
  const ServerNameType: seq<byte> := [0, 0]

  // ---------------------------------------------------------------------
  // Length-prefixed fields (mod.rs:8-28)
  // ---------------------------------------------------------------------

  /** The field that follows `data[lo..hi]` and whose length is the
      big-endian value of `data[lo..hi]`; the reference that
      `SliceByLenAtRange` is proved against. */
  function LengthPrefixed(data: seq<byte>, lo: nat, hi: nat): Result<seq<byte>>
  {
    if !(lo <= hi <= |data|) then Err(LengthRangeOutOfBounds)
    else if hi + BeValue(data[lo..hi]) > |data| then Err(FieldOutOfBounds)
    else Ok(data[hi..hi + BeValue(data[lo..hi])])
  }

  /** slice_by_len_at_range (mod.rs:8-17): checks the range, accumulates
      the length octet by octet, then takes that many octets after `hi`.
      `len << 8 | b` is `len * 256 + b`, since the low eight bits of
      `len << 8` are zero and `b < 256`. */
  method SliceByLenAtRange(data: seq<byte>, lo: nat, hi: nat) returns (r: Result<seq<byte>>)
    ensures r.Ok? <==> lo <= hi <= |data| && hi + BeValue(data[lo..hi]) <= |data|
    ensures r.Ok? ==> r.value == data[hi..hi + BeValue(data[lo..hi])]
    ensures r.Err? ==> r.error == if lo <= hi <= |data| then FieldOutOfBounds else LengthRangeOutOfBounds
    ensures r == LengthPrefixed(data, lo, hi)
  {
    if !(lo <= hi <= |data|) {
      return Err(LengthRangeOutOfBounds);
    }
    var len: nat := 0;
    for i := lo to hi
      invariant len == BeValue(data[lo..i])
    {
      BeValueSnoc(data[lo..i], data[i]);
      assert data[lo..i + 1] == data[lo..i] + [data[i]];
      len := len * 256 + data[i];
    }
    if hi + len > |data| {
      return Err(FieldOutOfBounds);
    }
    return Ok(data[hi..hi + len]);
  }

  /** truncate_before (mod.rs:25-28): what follows the length-prefixed field. */
  function TruncateBefore(data: seq<byte>, lo: nat, hi: nat): (r: Result<seq<byte>>)
    ensures r.Ok? <==> LengthPrefixed(data, lo, hi).Ok?
    ensures r.Err? ==> r.error == LengthPrefixed(data, lo, hi).error
    ensures r.Ok? ==> data == data[..hi] + LengthPrefixed(data, lo, hi).value + r.value
  {
    match LengthPrefixed(data, lo, hi)
    case Err(e) => Err(e)
    case Ok(field) =>
      assert data == data[..hi] + field + data[hi + |field|..];
      Ok(data[hi + |field|..])
  }

  // ---------------------------------------------------------------------
  // Records (mod.rs:47-55)
  // ---------------------------------------------------------------------

  /** The record's fragment length, octets 3 and 4, read big-endian. */
  lemma RecordLengthField(data: seq<byte>)
    ensures |data| >= 5 ==> BeValue(data[3..5]) == 256 * (data[3] as int) + data[4]
  {
    if |data| >= 5 {
      BeValue2(data[3..5]);
    }
  }

  /** parse_tls_record (mod.rs:47-55): the fragment is the field whose
      length is `data[3..5]`; the header octets are read only afterwards. */
  function ParseTlsRecord(data: seq<byte>): (r: Result<TlsRecord>)
    ensures r.Ok? <==> |data| >= 5 && 5 + 256 * (data[3] as int) + data[4] <= |data|
    ensures r.Ok? ==> r.value == TlsRecord(data[0], data[1], data[2], data[5..5 + 256 * (data[3] as int) + data[4]])
    ensures r.Err? ==> r.error == if |data| < 5 then LengthRangeOutOfBounds else FieldOutOfBounds
  {
    RecordLengthField(data);
    match LengthPrefixed(data, 3, 5)
    case Err(e) => Err(e)
    case Ok(fragment) => Ok(TlsRecord(data[0], data[1], data[2], fragment))
  }

  // ---------------------------------------------------------------------
  // ClientHello (mod.rs:56-112)
  // ---------------------------------------------------------------------

  /** from_utf8 (mod.rs:104): the octets themselves when they are the UTF-8
      encoding of some sequence of Unicode scalar values. */
  function FromUtf8(raw: seq<byte>): (r: Result<seq<byte>>)
    ensures r.Ok? <==> exists cs :: AllScalars(cs) && EncodeAll(cs) == raw
    ensures r.Ok? ==> r.value == raw
    ensures r.Err? ==> r.error == InvalidUtf8Name
  {
    ValidIffEncoding(raw);
    if ValidUtf8(raw) then Ok(raw) else Err(InvalidUtf8Name)
  }

  /** The straight-line part of parse_client_hello (mod.rs:57-89), up to the
      extension block. Every offset is taken from the record buffer `data`;
      the three skips only decide failure. */
  function ExtensionsBlock(data: seq<byte>): Result<seq<byte>>
  {
    match ParseTlsRecord(data)
    case Err(e) => Err(e)
    case Ok(rec) =>
      if rec.majorVersion != 3 then Err(UnknownTlsVersion)
      else if rec.contentType != 22 then Err(NotAHandshake)
      else if |rec.fragment| == 0 || rec.fragment[0] != 1 then Err(NotAClientHello)
      else
        match LengthPrefixed(data, 1, 4)
        case Err(e) => Err(e)
        case Ok(body) =>
          if |body| == 0 || body[0] != 0x03 then Err(UnsupportedTlsVersion)
          else if TruncateBefore(data, 34, 35).Err? then Err(TruncateBefore(data, 34, 35).error)
          else if TruncateBefore(data, 0, 2).Err? then Err(TruncateBefore(data, 0, 2).error)
          else if TruncateBefore(data, 0, 1).Err? then Err(TruncateBefore(data, 0, 1).error)
          else LengthPrefixed(data, 0, 1)
  }

  /** The extension loop (mod.rs:93-111) as a recursive function: from the
      remaining entries `exts` and the name found so far. */
  function ScanExtensions(exts: seq<byte>, name: Option<seq<byte>>): Outcome
    decreases |exts|
  {
    if |exts| <= 4 then Returned(Ok(ClientHello(name)))
    else
      var extType := exts[0..2];
      match LengthPrefixed(exts, 2, 4)
      case Err(e) => Returned(Err(e))
      case Ok(extData) =>
        var rest := TruncateBefore(exts, 2, 4).value;
        if extType != ServerNameType then ScanExtensions(rest, name)
        else if |extData| <= 3 then Panicked
        else if extData[3] != 0x00 then ScanExtensions(rest, name)
        else
          match LengthPrefixed(extData, 3, 5)
          case Err(e) => Returned(Err(e))
          case Ok(rawName) =>
            match FromUtf8(rawName)
            case Err(e) => Returned(Err(e))
            case Ok(hostName) => ScanExtensions(rest, Some(hostName))
  }

  /** parse_client_hello (mod.rs:56-112) as a function of the buffer. */
  function HelloOutcome(data: seq<byte>): Outcome
  {
    match ExtensionsBlock(data)
    case Err(e) => Returned(Err(e))
    case Ok(exts) => ScanExtensions(exts, None)
  }

  /** parse_client_hello (mod.rs:56-112), step by step, with its while loop. */
  method ParseClientHello(data: seq<byte>) returns (o: Outcome)
    ensures o == HelloOutcome(data)
  {
    var record := ParseTlsRecord(data);
    if record.Err? {
      return Returned(Err(record.error));
    }
    var TlsRecord(contentType, majorVersion, minorVersion, fragment) := record.value;
    if majorVersion != 3 {
      return Returned(Err(UnknownTlsVersion));
    }
    if contentType != 22 {
      return Returned(Err(NotAHandshake));
    }
    if |fragment| == 0 || fragment[0] != 1 {
      return Returned(Err(NotAClientHello));
    }
    var clientHelloBody := SliceByLenAtRange(data, 1, 4);
    if clientHelloBody.Err? {
      return Returned(Err(clientHelloBody.error));
    }
    if |clientHelloBody.value| == 0 || clientHelloBody.value[0] != 0x03 {
      return Returned(Err(UnsupportedTlsVersion));
    }
    var remaining := TruncateBefore(data, 34, 35);
    if remaining.Err? {
      return Returned(Err(remaining.error));
    }
    remaining := TruncateBefore(data, 0, 2);
    if remaining.Err? {
      return Returned(Err(remaining.error));
    }
    remaining := TruncateBefore(data, 0, 1);
    if remaining.Err? {
      return Returned(Err(remaining.error));
    }
    // the extension block read cannot fail once the last skip succeeded
    var block := SliceByLenAtRange(data, 0, 1);
    var exts := block.value;
    var serverName: Option<seq<byte>> := None;
    while |exts| > 4
      invariant ScanExtensions(exts, serverName) == ScanExtensions(block.value, None)
      decreases |exts|
    {
      var extType := exts[0..2];
      var extData := SliceByLenAtRange(exts, 2, 4);
      if extData.Err? {
        return Returned(Err(extData.error));
      }
      // truncate_before on the same range cannot fail once the slice succeeded
      exts := TruncateBefore(exts, 2, 4).value;
      if extType == ServerNameType {
        if |extData.value| <= 3 {
          return Panicked;
        }
        if extData.value[3] == 0x00 {
          var rawName := SliceByLenAtRange(extData.value, 3, 5);
          if rawName.Err? {
            return Returned(Err(rawName.error));
          }
          var hostName := FromUtf8(rawName.value);
          if hostName.Err? {
            return Returned(Err(hostName.error));
          }
          serverName := Some(hostName.value);
        }
      }
    }
    return Returned(Ok(ClientHello(serverName)));
  }
}
