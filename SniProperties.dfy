/** The extension loop of parse_client_hello (mod.rs:93-111) and its
    server_name handling, proved about `Tls.ScanExtensions`. Entries are
    built the way section 7.4.1.4 of RFC 5246 and section 3 of RFC 6066 lay
    them out, to show which of them the loop accepts. */
module SniProperties {
  import opened Bytes
  import opened Utf8
  import opened Tls
  import opened TlsProperties

  /** One extension entry: a two-octet type, a two-octet length, the data. */
  function Extension(extType: seq<byte>, extData: seq<byte>): (s: seq<byte>)
    requires |extType| == 2 && |extData| < 65536
    ensures |s| == 4 + |extData|
  {
    extType + BeEncode(|extData|, 2) + extData
  }

  /** The data of a server_name extension holding one name (section 3 of
      RFC 6066): the list length, the name type, the name length, the name. */
  function ServerNameData(nameType: byte, hostName: seq<byte>): (s: seq<byte>)
    requires |hostName| + 3 < 65536
    ensures |s| == 5 + |hostName|
  {
    BeEncode(|hostName| + 3, 2) + [nameType] + BeEncode(|hostName|, 2) + hostName
  }

  /** One iteration reads back the entry's type and data and moves on to
      exactly the octets after it. */
  lemma ExtensionStep(extType: seq<byte>, extData: seq<byte>, rest: seq<byte>)
    requires |extType| == 2 && |extData| < 65536
    ensures (Extension(extType, extData) + rest)[0..2] == extType
    ensures LengthPrefixed(Extension(extType, extData) + rest, 2, 4) == Ok(extData)
    ensures TruncateBefore(Extension(extType, extData) + rest, 2, 4) == Ok(rest)
  {
    assert Pow256(2) == 65536;
    FieldRoundTrip(extType, extData, rest, 2);
    assert Extension(extType, extData) + rest == extType + BeEncode(|extData|, 2) + extData + rest;
  }

  /** The loop runs only while more than four octets remain. Each
      iteration either fails at mod.rs:96, when the declared length L
      (octets 2..4) overruns the remaining octets, or reads the data
      exts[4..4 + L] and continues with the strictly shorter suffix after it. */
  lemma ScanStep(exts: seq<byte>, name: Option<seq<byte>>)
    ensures |exts| <= 4 ==> ScanExtensions(exts, name) == Returned(Ok(ClientHello(name)))
    ensures |exts| > 4 && 4 + 256 * (exts[2] as int) + exts[3] > |exts|
            ==> ScanExtensions(exts, name) == Returned(Err(FieldOutOfBounds))
    ensures |exts| > 4 && 4 + 256 * (exts[2] as int) + exts[3] <= |exts|
            ==> var len := 256 * (exts[2] as int) + exts[3];
                && LengthPrefixed(exts, 2, 4) == Ok(exts[4..4 + len])
                && TruncateBefore(exts, 2, 4) == Ok(exts[4 + len..])
  {
    if |exts| > 4 {
      BeValue2(exts[2..4]);
    }
  }

  /** An entry of any other type is skipped and does not change the name. */
  lemma SkipsOtherExtension(extType: seq<byte>, extData: seq<byte>, rest: seq<byte>, name: Option<seq<byte>>)
    requires |extType| == 2 && |extData| < 65536 && extType != ServerNameType
    ensures ScanExtensions(Extension(extType, extData) + rest, name) == ScanExtensions(rest, name)
  {
    ExtensionStep(extType, extData, rest);
  }

  /** A server_name entry whose name is shorter than 256 octets sets the
      name (replacing any earlier one), or stops the parse when the name is
      not UTF-8. mod.rs:102 tests octet 3, the high octet of the name
      length, so the name type octet is never looked at. */
  lemma ShortHostNameTaken(nameType: byte, hostName: seq<byte>, rest: seq<byte>, name: Option<seq<byte>>)
    requires |hostName| < 256
    ensures ScanExtensions(Extension(ServerNameType, ServerNameData(nameType, hostName)) + rest, name)
            == if ValidUtf8(hostName) then ScanExtensions(rest, Some(hostName))
               else Returned(Err(InvalidUtf8Name))
  {
    var extData := ServerNameData(nameType, hostName);
    ExtensionStep(ServerNameType, extData, rest);
    var pre := BeEncode(|hostName| + 3, 2) + [nameType];
    assert extData == pre + BeEncode(|hostName|, 2) + hostName + [];
    assert Pow256(2) == 65536;
    FieldRoundTrip(pre, hostName, [], 2);
    assert extData[3] == BeEncode(|hostName|, 2)[0] == 0;
  }

  /** A server_name entry whose name has 256 octets or more is ignored:
      octet 3 is then the non-zero high octet of the name length. */
  lemma LongHostNameIgnored(nameType: byte, hostName: seq<byte>, rest: seq<byte>, name: Option<seq<byte>>)
    requires 256 <= |hostName| < 65531
    ensures ScanExtensions(Extension(ServerNameType, ServerNameData(nameType, hostName)) + rest, name)
            == ScanExtensions(rest, name)
  {
    var extData := ServerNameData(nameType, hostName);
    ExtensionStep(ServerNameType, extData, rest);
    var len := BeEncode(|hostName|, 2);
    assert extData[3] == len[0];
    assert Pow256(2) == 65536;
    BeRoundTrip(|hostName|, 2);
    BeValue2(len);
  }

  /** What a server_name entry does, for any data (mod.rs:100-106): at most
      three octets panic at the unchecked index of mod.rs:102, unless the loop
      has already stopped; a non-zero octet 3 leaves the name as it is;
      otherwise the name is the field whose length is octets 3..5 (so octet
      4), which must exist and be UTF-8. */
  lemma ServerNameEntry(extData: seq<byte>, rest: seq<byte>, name: Option<seq<byte>>)
    requires |extData| < 65536 && |extData| + |rest| > 0
    ensures var o := ScanExtensions(Extension(ServerNameType, extData) + rest, name);
            && (|extData| <= 3 ==> o == Panicked)
            && (|extData| > 3 && extData[3] != 0 ==> o == ScanExtensions(rest, name))
            && (|extData| == 4 && extData[3] == 0 ==> o == Returned(Err(LengthRangeOutOfBounds)))
            && (|extData| >= 5 && extData[3] == 0 && 5 + extData[4] > |extData|
                ==> o == Returned(Err(FieldOutOfBounds)))
            && (|extData| >= 5 && extData[3] == 0 && 5 + extData[4] <= |extData|
                ==> o == if ValidUtf8(extData[5..5 + extData[4]])
                         then ScanExtensions(rest, Some(extData[5..5 + extData[4]]))
                         else Returned(Err(InvalidUtf8Name)))
  {
    ExtensionStep(ServerNameType, extData, rest);
    if |extData| >= 5 {
      BeValue2(extData[3..5]);
    }
  }

  /** The name found so far only survives when no later entry sets one:
      starting the loop from two different names gives the same outcome,
      or returns each starting name unchanged. The last matching entry wins. */
  lemma {:induction false} LastMatchWins(exts: seq<byte>, a: Option<seq<byte>>, b: Option<seq<byte>>)
    ensures ScanExtensions(exts, a) == ScanExtensions(exts, b)
            || (ScanExtensions(exts, a) == Returned(Ok(ClientHello(a)))
                && ScanExtensions(exts, b) == Returned(Ok(ClientHello(b))))
    decreases |exts|
  {
    if |exts| > 4 && LengthPrefixed(exts, 2, 4).Ok? {
      var rest := TruncateBefore(exts, 2, 4).value;
      LastMatchWins(rest, a, b);
    }
  }

  /** A server_name entry starts at offset `j` of `exts` and carries the
      name `n` as the loop reads it: type [0,0]; a declared data length that
      lies inside `exts` and covers the name; octet 3 of the data zero and
      octet 4 the name's length; then the name. */
  predicate NameEntryAt(exts: seq<byte>, j: nat, n: seq<byte>)
  {
    && j + 9 + |n| <= |exts|
    && exts[j..j + 2] == ServerNameType
    && 5 + |n| <= 256 * (exts[j + 2] as int) + exts[j + 3]
    && j + 4 + 256 * (exts[j + 2] as int) + exts[j + 3] <= |exts|
    && exts[j + 7] == 0 && exts[j + 8] == |n|
    && exts[j + 9..j + 9 + |n|] == n
  }

  /** Where the entry at the head of `exts` ends: four octets of header
      and its declared data length. */
  function EntryEnd(exts: seq<byte>): nat
    requires |exts| >= 4
  {
    4 + 256 * (exts[2] as int) + exts[3]
  }

  /** The loop reads an entry at offset `j` of `exts`: `j` is 0, or it is
      reached from the entry at 0 by skipping that entry and walking on
      from where it ends. */
  predicate EntryStart(exts: seq<byte>, j: nat)
    decreases |exts|
  {
    || j == 0
    || (&& |exts| > 4 && EntryEnd(exts) <= |exts| && EntryEnd(exts) <= j
        && EntryStart(exts[EntryEnd(exts)..], j - EntryEnd(exts)))
  }

  /** Some server_name entry of `exts`, at an offset where the loop reads
      an entry, carries the name `n`. */
  predicate FromNameEntry(exts: seq<byte>, n: seq<byte>)
  {
    exists j: nat :: j <= |exts| && EntryStart(exts, j) && NameEntryAt(exts, j, n)
  }

  /** An entry at offset `j` of a suffix is an entry at offset `k + j` of the whole. */
  lemma NameEntryShift(exts: seq<byte>, k: nat, j: nat, n: seq<byte>)
    requires k <= |exts| && NameEntryAt(exts[k..], j, n)
    ensures NameEntryAt(exts, k + j, n)
  {
    var s := exts[k..];
    assert s[j..j + 2] == exts[k + j..k + j + 2];
    assert s[j + 9..j + 9 + |n|] == exts[k + j + 9..k + j + 9 + |n|];
  }

  /** An entry found in what follows the first entry is an entry of the whole. */
  lemma FromNameEntrySuffix(exts: seq<byte>, n: seq<byte>)
    requires |exts| > 4 && EntryEnd(exts) <= |exts|
    requires FromNameEntry(exts[EntryEnd(exts)..], n)
    ensures FromNameEntry(exts, n)
  {
    var k := EntryEnd(exts);
    var s := exts[k..];
    var j: nat :| j <= |s| && EntryStart(s, j) && NameEntryAt(s, j, n);
    NameEntryShift(exts, k, j, n);
    assert EntryStart(exts, k + j);
  }

  /** A server_name entry nested inside the data of another extension is not
      an entry the loop reads: no offset strictly inside that extension is
      an entry start, and the loop passes over the whole extension. */
  lemma NestedEntryIgnored(t: seq<byte>, d: seq<byte>, rest: seq<byte>, j: nat, name: Option<seq<byte>>)
    requires |t| == 2 && |d| < 65536 && t != ServerNameType && 0 < j < 4 + |d|
    ensures !EntryStart(Extension(t, d) + rest, j)
    ensures ScanExtensions(Extension(t, d) + rest, name) == ScanExtensions(rest, name)
  {
    var exts := Extension(t, d) + rest;
    ExtensionStep(t, d, rest);
    if |exts| > 4 {
      EntryFraming(exts);
      assert exts[4..EntryEnd(exts)] == d;
    }
    SkipsOtherExtension(t, d, rest, name);
  }

  /** An instance: an extension of type 1 whose ten octets of data contain a
      server_name entry for "a" yields no name, and no entry start carries it. */
  lemma NestedEntryExample()
    ensures ScanExtensions([0, 1, 0, 10, 0, 0, 0, 6, 0, 0, 0, 0, 1, 97], None)
            == Returned(Ok(ClientHello(None)))
    ensures !FromNameEntry([0, 1, 0, 10, 0, 0, 0, 6, 0, 0, 0, 0, 1, 97], [97])
  {
    var exts: seq<byte> := [0, 1, 0, 10, 0, 0, 0, 6, 0, 0, 0, 0, 1, 97];
    BeValue2(exts[2..4]);
    assert LengthPrefixed(exts, 2, 4) == Ok(exts[4..14]);
    assert TruncateBefore(exts, 2, 4) == Ok([]);
    assert exts[0..2] == [0, 1] && exts[0..2][1] != ServerNameType[1];
    assert ScanExtensions(exts, None) == ScanExtensions([], None);
    forall j: nat | j <= |exts| && EntryStart(exts, j)
      ensures !NameEntryAt(exts, j, [97])
    {
      if j == 0 {
        assert exts[0..2] == [0, 1];
      } else {
        assert EntryEnd(exts) == 14 && exts[14..] == [];
        assert EntryStart(exts[14..], j - 14);
      }
    }
  }

  /** A name the loop returns, other than the one it started with, is UTF-8
      and is carried by a server_name entry of the extension block: when no
      entry carries a name, the loop returns the name it started with, so
      `Ok(None)` from the start of the block. */
  lemma {:induction false} ScanResultOrigin(exts: seq<byte>, name: Option<seq<byte>>, found: Option<seq<byte>>)
    requires ScanExtensions(exts, name) == Returned(Ok(ClientHello(found))) && found != name
    ensures found.Some? && ValidUtf8(found.value) && FromNameEntry(exts, found.value)
    decreases |exts|
  {
    assert |exts| > 4 && LengthPrefixed(exts, 2, 4).Ok?;
    EntryFraming(exts);
    var extData := LengthPrefixed(exts, 2, 4).value;
    var rest := TruncateBefore(exts, 2, 4).value;
    if exts[0..2] != ServerNameType || extData[3] != 0x00 {
      assert ScanExtensions(exts, name) == ScanExtensions(rest, name);
      ScanResultOrigin(rest, name, found);
      FromNameEntrySuffix(exts, found.value);
    } else {
      var rawName := LengthPrefixed(extData, 3, 5).value;
      assert ScanExtensions(exts, name) == ScanExtensions(rest, Some(rawName));
      if Some(rawName) == found {
        BeValue2(extData[3..5]);
        assert extData[5..5 + |rawName|] == rawName;
        assert exts[9..9 + |rawName|] == rawName;
        assert NameEntryAt(exts, 0, rawName);
        assert EntryStart(exts, 0);
      } else {
        ScanResultOrigin(rest, Some(rawName), found);
        FromNameEntrySuffix(exts, found.value);
      }
    }
  }

  /** The loop's split of an entry: its data runs from octet 4 to where the
      entry ends, and the rest of the block starts there. */
  lemma EntryFraming(exts: seq<byte>)
    requires |exts| > 4 && LengthPrefixed(exts, 2, 4).Ok?
    ensures EntryEnd(exts) <= |exts|
    ensures LengthPrefixed(exts, 2, 4).value == exts[4..EntryEnd(exts)]
    ensures TruncateBefore(exts, 2, 4).value == exts[EntryEnd(exts)..]
  {
    BeValue2(exts[2..4]);
  }
}
