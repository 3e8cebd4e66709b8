/** The creation, parsing and editing scenarios of the MACsec tests and
    example program, stated on the SecTAG bytes. */
module MacsecScenarios {
  import opened Bytes
  import opened SecTag
  import opened MacsecLayer

  /** The SCI used by the creation tests. */
  const CreationSci: seq<byte> := [0xaa, 0xaa, 0xaa, 0xaa, 0xaa, 0xaa, 0x00, 0x00]

  /** The layer the creation tests build: TCI 0x0d and AN 0 packed by
      shift-and-or, SL 0x55, PN 0xdeadbeef and the test SCI. */
  function CreationLayer(): (l: Layer)
    ensures l.protocol == MACsec && HasHeader(l)
  {
    Build((0x0d << 2) | 0x00, 0x55, 0xdeadbeef, CreationSci)
  }

  /** The creation tests' header bytes. */
  lemma CreationHeaderBytes()
    ensures CreationLayer().data
         == [0x34, 0x55, 0xde, 0xad, 0xbe, 0xef, 0xaa, 0xaa, 0xaa, 0xaa, 0xaa, 0xaa, 0x00, 0x00]
  {
    assert (0x0d << 2) | 0x00 == 0x34 as byte;
    assert CreationSci[..SciSize] == CreationSci;
    assert BigEndian32(0xdeadbeef) == [0xde, 0xad, 0xbe, 0xef];
  }

  /** Every field of the created layer reads back as the tests gave it. */
  lemma CreationFieldsReadBack()
    ensures GetTCI(CreationLayer()) == 0x0d && GetAN(CreationLayer()) == 0x00
    ensures GetSL(CreationLayer()) == 0x55
    ensures GetPN(CreationLayer()) == 0xdeadbeef
    ensures GetSCI(CreationLayer()) == CreationSci
  {
    assert (0x0d << 2) | 0x00 == 0x34 as byte;
    BuildReadsBack(0x34, 0x55, 0xdeadbeef, CreationSci);
    assert CreationSci[..SciSize] == CreationSci;
    TciAnJoin(0x0d, 0x00);
  }

  /** The 14 SecTAG bytes that the parsing test's assertions force: the
      first octet 0x2c, SL 0, PN 13 in network order, then the expected
      SCI. */
  const ParsedSecTag: seq<byte> :=
    [0x2c, 0x00, 0x00, 0x00, 0x00, 0x0d, 0xbc, 0x16, 0x65, 0x2b, 0x75, 0x0d, 0x00, 0x00]

  /** Attaching to those bytes, whatever follows them, decodes TCI 0x0b,
      AN 0, SL 0, PN 13 and the SCI as stored. */
  lemma ParsedFrameFields(rest: seq<byte>)
    ensures HasHeader(Attach(ParsedSecTag + rest))
    ensures GetMACsecHeader(Attach(ParsedSecTag + rest)).tciAn == 0x2c
    ensures GetTCI(Attach(ParsedSecTag + rest)) == 0x0b
    ensures GetAN(Attach(ParsedSecTag + rest)) == 0x00
    ensures GetSL(Attach(ParsedSecTag + rest)) == 0x00
    ensures GetPN(Attach(ParsedSecTag + rest)) == 0x0d
    ensures GetSCI(Attach(ParsedSecTag + rest)) == [0xbc, 0x16, 0x65, 0x2b, 0x75, 0x0d, 0x00, 0x00]
    ensures EncryptionOn(Attach(ParsedSecTag + rest))
    ensures !SecureDataIsUserData(Attach(ParsedSecTag + rest))
  {
    var l := Attach(ParsedSecTag + rest);
    assert l.data[PnOffset..SciOffset] == [0x00, 0x00, 0x00, 0x0d] == BigEndian32(0x0d);
    BigEndian32Injective(GetPN(l), 0x0d);
  }

  /** The SCI the edit test stores. */
  const EditSci: seq<byte> := [0x00, 0x01, 0x02, 0x03, 0x04, 0x05, 0x06, 0x07]

  /** The edit test's four stores, in its order, on a parsed layer. */
  function EditAllFields(l: Layer): (e: Layer)
    requires HasHeader(l)
    ensures HasHeader(e) && e.protocol == l.protocol
    ensures e.data[HeaderSize..] == l.data[HeaderSize..]
  {
    var a := SetTCI_AN(l, (0x0d << 2) | 0x01);
    var b := SetSL(a, 0x02);
    var c := SetPN(b, 0xdeadbeef);
    SettersKeepPayload(l, (0x0d << 2) | 0x01, 0, 0, EditSci);
    SettersKeepPayload(a, 0, 0x02, 0, EditSci);
    SettersKeepPayload(b, 0, 0, 0xdeadbeef, EditSci);
    SettersKeepPayload(c, 0, 0, 0, EditSci);
    SetSCI(c, EditSci)
  }

  /** The edit test: after the four stores on any parsed MACsec layer
      every field reads back as stored. */
  lemma EditedFieldsReadBack(l: Layer)
    requires HasHeader(l)
    ensures GetTCI(EditAllFields(l)) == 0x0d && GetAN(EditAllFields(l)) == 0x01
    ensures GetMACsecHeader(EditAllFields(l)).tciAn == 0x35
    ensures GetSL(EditAllFields(l)) == 0x02
    ensures GetPN(EditAllFields(l)) == 0xdeadbeef
    ensures GetSCI(EditAllFields(l)) == EditSci
  {
    var a := SetTCI_AN(l, (0x0d << 2) | 0x01);
    var b := SetSL(a, 0x02);
    var c := SetPN(b, 0xdeadbeef);
    var e := SetSCI(c, EditSci);
    assert e == EditAllFields(l);
    assert GetMACsecHeader(e).tciAn == 0x35 by {
      assert e.data[TciAnOffset] == c.data[TciAnOffset] == b.data[TciAnOffset] == a.data[TciAnOffset];
    }
    assert GetSL(e) == 0x02 by {
      SetPnKeepsOtherFields(b, 0xdeadbeef);
      SetSciKeepsOtherFields(c, EditSci);
    }
    assert GetPN(e) == 0xdeadbeef by {
      SetSciKeepsOtherFields(c, EditSci);
    }
    assert GetSCI(e) == EditSci by {
      assert EditSci[..SciSize] == EditSci;
    }
  }

  /** A layer whose fields hold the edit test's values has the header
      bytes that test expects. */
  lemma EditValuesHeaderBytes(e: Layer)
    requires HasHeader(e)
    requires GetMACsecHeader(e).tciAn == 0x35 && GetSL(e) == 0x02
    requires GetPN(e) == 0xdeadbeef && GetSCI(e) == EditSci
    ensures e.data[..HeaderSize]
         == [0x35, 0x02, 0xde, 0xad, 0xbe, 0xef, 0x00, 0x01, 0x02, 0x03, 0x04, 0x05, 0x06, 0x07]
  {
    HeaderBytesFromFields(e);
    assert BigEndian32(0xdeadbeef) == [0xde, 0xad, 0xbe, 0xef];
  }

  /** The edit test's header bytes: the new octet 0x35, SL 2, PN
      0xdeadbeef in network order and the new SCI; the bytes after the
      header are as they were. */
  lemma EditedHeaderBytes(l: Layer)
    requires HasHeader(l)
    ensures EditAllFields(l).data[..HeaderSize]
         == [0x35, 0x02, 0xde, 0xad, 0xbe, 0xef, 0x00, 0x01, 0x02, 0x03, 0x04, 0x05, 0x06, 0x07]
    ensures EditAllFields(l).data[HeaderSize..] == l.data[HeaderSize..]
  {
    EditedFieldsReadBack(l);
    EditValuesHeaderBytes(EditAllFields(l));
  }

  /** The example program's edit: `setPN(100)` writes `00 00 00 64` into
      the PN bytes and changes no other byte of the layer. */
  lemma SetPacketNumberHundred(l: Layer)
    requires HasHeader(l)
    ensures SetPN(l, 100).data[PnOffset..SciOffset] == [0x00, 0x00, 0x00, 0x64]
    ensures SameOutside(l.data, SetPN(l, 100).data, PnOffset, SciOffset)
    ensures GetPN(SetPN(l, 100)) == 100
  {
  }

  /** Network byte order: packet number 1 is stored as `00 00 00 01`,
      and the wire bytes `00 00 00 0d` read as 13. */
  lemma PacketNumberByteOrder()
    ensures BigEndian32(1) == [0x00, 0x00, 0x00, 0x01]
    ensures FromBigEndian32([0x00, 0x00, 0x00, 0x0d]) == 13
  {
  }

  /** `setTCI_AN` stores its argument unmasked: storing 0xff reads back
      TCI 63 and AN 3. */
  lemma SetTciAnUnmasked(l: Layer)
    requires HasHeader(l)
    ensures GetMACsecHeader(SetTCI_AN(l, 0xff)).tciAn == 0xff
    ensures GetTCI(SetTCI_AN(l, 0xff)) == 63 && GetAN(SetTCI_AN(l, 0xff)) == 3
  {
  }
}
