/** `MACsecLayer`: a layer whose bytes begin with the SecTAG. The layer is
    the byte range it covers; every accessor reads through the header
    view over the first 14 of those bytes, and every setter stores one
    member of that view. */
module MacsecLayer {
  import opened Wrappers
  import opened Bytes
  import opened SecTag

  /** The layer kinds this model needs: the SecTAG itself, and the opaque
      payload that is always what follows it. */
  datatype Protocol = MACsec | GenericPayload

  /** A layer's data (`m_Data` with `m_DataLen == |data|`) and its
      protocol tag (`m_Protocol`). */
  datatype Layer = Layer(data: seq<byte>, protocol: Protocol)

  /** The layer's bytes are long enough to hold the SecTAG. Reading a
      field of a shorter layer reads past its end, which the library
      leaves to its callers to rule out. */
  predicate HasHeader(l: Layer) {
    |l.data| >= HeaderSize
  }

  /** The attach constructor: wraps existing bytes as a MACsec layer
      without reading or changing them. */
  function Attach(data: seq<byte>): (l: Layer)
    ensures l.data == data
    ensures l.protocol == MACsec
    ensures |data| >= HeaderSize ==> HasHeader(l)
  {
    Layer(data, MACsec)
  }

  /** `getHeaderLen`: the header length, which is where the SCI ends,
      whatever the length of the layer's data. */
  function GetHeaderLen(l: Layer): (n: nat)
    ensures n == SciOffset + SciSize
  {
    HeaderSize
  }

  /** `getMACsecHeader`: the struct overlaid on the layer's first bytes. */
  function GetMACsecHeader(l: Layer): (h: MacsecHeader)
    requires HasHeader(l)
    ensures h.WellSized()
    ensures HeaderBytes(h) == l.data[..HeaderSize]
  {
    HeaderOf(l.data)
  }

  /** A store through the header view: the struct's bytes replace the
      first 14 bytes of the layer, the rest of the layer is kept. */
  function WithHeader(l: Layer, h: MacsecHeader): (r: Layer)
    requires HasHeader(l) && h.WellSized()
    ensures r.protocol == l.protocol
    ensures SameOutside(l.data, r.data, 0, HeaderSize)
    ensures HasHeader(r) && r.data[..HeaderSize] == HeaderBytes(h)
    ensures GetMACsecHeader(r) == h
  {
    var r := l.(data := Overwrite(l.data, 0, HeaderBytes(h)));
    HeaderOfHeaderBytes(h);
    r
  }

  /** The view shows exactly what was stored through it, and storing
      what the view shows changes nothing: the view and the layer's
      data are the same bytes. */
  lemma HeaderViewAliasesData(l: Layer, h: MacsecHeader)
    requires HasHeader(l) && h.WellSized()
    ensures GetMACsecHeader(WithHeader(l, h)) == h
    ensures WithHeader(l, GetMACsecHeader(l)) == l
    ensures WithHeader(l, h).data[..HeaderSize] == HeaderBytes(h)
  {
    var r := WithHeader(l, GetMACsecHeader(l));
    assert r.data == l.data by {
      assert r.data[..HeaderSize] == l.data[..HeaderSize];
      assert r.data[HeaderSize..] == l.data[HeaderSize..];
      assert r.data == r.data[..HeaderSize] + r.data[HeaderSize..];
      assert l.data == l.data[..HeaderSize] + l.data[HeaderSize..];
    }
  }

  // ---------------------------------------------------------------- getters

  /** `getMACsecTCI`: the six TCI bits. Together with the AN they make
      up the whole first octet. */
  function GetTCI(l: Layer): (tci: byte)
    requires HasHeader(l)
    ensures tci <= 63
    ensures (tci << 2) | GetAN(l) == l.data[TciAnOffset]
  {
    TciOf(GetMACsecHeader(l).tciAn)
  }

  /** `getMACsecAN`: the two association-number bits. */
  function GetAN(l: Layer): (an: byte)
    requires HasHeader(l)
    ensures an <= 3
    ensures an == l.data[TciAnOffset] & 0x03
  {
    AnOf(GetMACsecHeader(l).tciAn)
  }

  /** `getMACsecSL`: the short-length octet, returned as stored. */
  function GetSL(l: Layer): (sl: byte)
    requires HasHeader(l)
    ensures sl == l.data[SlOffset]
  {
    GetMACsecHeader(l).sl
  }

  /** `getMACsecPN`: the packet number, whose big-endian wire form is the
      four PN bytes of the header. */
  function GetPN(l: Layer): (pn: bv32)
    requires HasHeader(l)
    ensures BigEndian32(pn) == l.data[PnOffset..SciOffset]
  {
    var pn := FromBigEndian32(GetMACsecHeader(l).pnWire);
    FromBigEndian32RoundTrip(GetMACsecHeader(l).pnWire);
    pn
  }

  /** `getMACsecSCI`: the eight SCI bytes of the header. */
  function GetSCI(l: Layer): (sci: seq<byte>)
    requires HasHeader(l)
    ensures |sci| == SciSize
    ensures sci == l.data[SciOffset..HeaderSize]
  {
    GetMACsecHeader(l).sci
  }

  /** The header bytes are determined by the field values the getters
      return: the first octet, SL, PN in network order, then the SCI. */
  lemma HeaderBytesFromFields(l: Layer)
    requires HasHeader(l)
    ensures l.data[..HeaderSize]
         == [GetMACsecHeader(l).tciAn, GetSL(l)] + BigEndian32(GetPN(l)) + GetSCI(l)
    ensures GetMACsecHeader(l).tciAn == (GetTCI(l) << 2) | GetAN(l)
  {
    var h := GetMACsecHeader(l);
    assert HeaderBytes(h) == [h.tciAn, h.sl] + h.pnWire + h.sci;
  }

  // -------------------------------------------------------------- TCI flags

  /** The E bit test of `parseMACsecTCI`: bit 3 of the first octet, which
      is bit 1 of the TCI. */
  function EncryptionOn(l: Layer): (on: bool)
    requires HasHeader(l)
    ensures on <==> GetTCI(l) & 0x02 != 0
  {
    GetMACsecHeader(l).tciAn & (1 << 3) != 0
  }

  /** The C bit test of `parseMACsecTCI`: a clear bit 2 of the first
      octet (bit 0 of the TCI) means the secure data is the user data. */
  function SecureDataIsUserData(l: Layer): (same: bool)
    requires HasHeader(l)
    ensures same <==> GetTCI(l) & 0x01 == 0
  {
    GetMACsecHeader(l).tciAn & (1 << 2) == 0
  }

  // ---------------------------------------------------------------- setters

  /** `setTCI_AN`: overwrites the whole first octet, unmasked. */
  function SetTCI_AN(l: Layer, tciAn: byte): (r: Layer)
    requires HasHeader(l)
    ensures HasHeader(r) && r.protocol == l.protocol
    ensures r.data[TciAnOffset] == tciAn
    ensures SameOutside(l.data, r.data, TciAnOffset, TciAnOffset + TciAnSize)
  {
    l.(data := l.data[TciAnOffset := tciAn])
  }

  /** `setSL`: overwrites the short-length octet. */
  function SetSL(l: Layer, sl: byte): (r: Layer)
    requires HasHeader(l)
    ensures HasHeader(r) && r.protocol == l.protocol
    ensures GetSL(r) == sl
    ensures SameOutside(l.data, r.data, SlOffset, SlOffset + SlSize)
  {
    l.(data := l.data[SlOffset := sl])
  }

  /** `setPN`: stores the packet number in network order, so that it
      reads back unchanged. */
  function SetPN(l: Layer, pn: bv32): (r: Layer)
    requires HasHeader(l)
    ensures HasHeader(r) && r.protocol == l.protocol
    ensures GetPN(r) == pn
    ensures r.data[PnOffset..SciOffset] == BigEndian32(pn)
    ensures SameOutside(l.data, r.data, PnOffset, PnOffset + PnSize)
  {
    var r := l.(data := Overwrite(l.data, PnOffset, BigEndian32(pn)));
    BigEndian32Injective(GetPN(r), pn);
    r
  }

  /** `setSCI`: copies the first eight bytes at `sci` into the header. */
  function SetSCI(l: Layer, sci: seq<byte>): (r: Layer)
    requires HasHeader(l)
    requires |sci| >= SciSize
    ensures HasHeader(r) && r.protocol == l.protocol
    ensures GetSCI(r) == sci[..SciSize]
    ensures SameOutside(l.data, r.data, SciOffset, SciOffset + SciSize)
  {
    l.(data := Overwrite(l.data, SciOffset, sci[..SciSize]))
  }

  /** `setTCI_AN` is a store of the first member through the header
      view: the same layer results as from storing the view with that
      member replaced. */
  lemma SetTciAnStoresThroughView(l: Layer, tciAn: byte)
    requires HasHeader(l)
    ensures SetTCI_AN(l, tciAn) == WithHeader(l, GetMACsecHeader(l).(tciAn := tciAn))
  {
    var r := SetTCI_AN(l, tciAn);
    assert r.data[PnOffset..SciOffset] == l.data[PnOffset..SciOffset];
    assert r.data[SciOffset..HeaderSize] == l.data[SciOffset..HeaderSize];
    assert r.data[HeaderSize..] == l.data[HeaderSize..];
    SameHeaderSameLayer(r, WithHeader(l, GetMACsecHeader(l).(tciAn := tciAn)));
  }

  /** `setSL` is a store of the SL member through the header view. */
  lemma SetSlStoresThroughView(l: Layer, sl: byte)
    requires HasHeader(l)
    ensures SetSL(l, sl) == WithHeader(l, GetMACsecHeader(l).(sl := sl))
  {
    var r := SetSL(l, sl);
    assert r.data[PnOffset..SciOffset] == l.data[PnOffset..SciOffset];
    assert r.data[SciOffset..HeaderSize] == l.data[SciOffset..HeaderSize];
    assert r.data[HeaderSize..] == l.data[HeaderSize..];
    SameHeaderSameLayer(r, WithHeader(l, GetMACsecHeader(l).(sl := sl)));
  }

  /** `setPN` is a store of the PN member, in network order, through the
      header view. */
  lemma SetPnStoresThroughView(l: Layer, pn: bv32)
    requires HasHeader(l)
    ensures SetPN(l, pn) == WithHeader(l, GetMACsecHeader(l).(pnWire := BigEndian32(pn)))
  {
    var r := SetPN(l, pn);
    assert r.data[SciOffset..HeaderSize] == l.data[SciOffset..HeaderSize];
    assert r.data[HeaderSize..] == l.data[HeaderSize..];
    SameHeaderSameLayer(r, WithHeader(l, GetMACsecHeader(l).(pnWire := BigEndian32(pn))));
  }

  /** `setSCI` is a store of the SCI member through the header view. */
  lemma SetSciStoresThroughView(l: Layer, sci: seq<byte>)
    requires HasHeader(l) && |sci| >= SciSize
    ensures SetSCI(l, sci) == WithHeader(l, GetMACsecHeader(l).(sci := sci[..SciSize]))
  {
    var r := SetSCI(l, sci);
    assert r.data[PnOffset..SciOffset] == l.data[PnOffset..SciOffset];
    assert r.data[HeaderSize..] == l.data[HeaderSize..];
    SameHeaderSameLayer(r, WithHeader(l, GetMACsecHeader(l).(sci := sci[..SciSize])));
  }

  /** Two layers with the same protocol and length are equal when their
      header views and their bytes after the header are. */
  lemma SameHeaderSameLayer(a: Layer, b: Layer)
    requires HasHeader(a) && HasHeader(b)
    requires a.protocol == b.protocol && |a.data| == |b.data|
    requires GetMACsecHeader(a) == GetMACsecHeader(b)
    requires a.data[HeaderSize..] == b.data[HeaderSize..]
    ensures a == b
  {
    assert a.data == a.data[..HeaderSize] + a.data[HeaderSize..];
    assert b.data == b.data[..HeaderSize] + b.data[HeaderSize..];
  }

  // ------------------------------------------------------ build constructor

  /** The build constructor: a zeroed 14-byte header written through the
      same four setters that edit a parsed header, so the bytes it lays
      out are exactly the packed struct's. */
  function Build(tciAn: byte, sl: byte, pn: bv32, sci: seq<byte>): (l: Layer)
    requires |sci| >= SciSize
    ensures l.protocol == MACsec
    ensures l.data == [tciAn, sl] + BigEndian32(pn) + sci[..SciSize]
  {
    var blank := Layer(Zeros(HeaderSize), MACsec);
    var l := SetSCI(SetPN(SetSL(SetTCI_AN(blank, tciAn), sl), pn), sci);
    assert l.data[..HeaderSize] == l.data;
    assert l.data[..HeaderSize] == [tciAn, sl] + BigEndian32(pn) + sci[..SciSize] by {
      var want := [tciAn, sl] + BigEndian32(pn) + sci[..SciSize];
      forall i | 0 <= i < HeaderSize
        ensures l.data[i] == want[i]
      {
        if i >= SciOffset {
          assert l.data[i] == GetSCI(l)[i - SciOffset];
        } else if i >= PnOffset {
          assert want[i] == BigEndian32(pn)[i - PnOffset];
        }
      }
    }
    l
  }

  /** Every field reads back as it was given to the build constructor. */
  lemma BuildReadsBack(tciAn: byte, sl: byte, pn: bv32, sci: seq<byte>)
    requires |sci| >= SciSize
    ensures HasHeader(Build(tciAn, sl, pn, sci))
    ensures GetHeaderLen(Build(tciAn, sl, pn, sci)) == |Build(tciAn, sl, pn, sci).data|
    ensures GetMACsecHeader(Build(tciAn, sl, pn, sci)).tciAn == tciAn
    ensures GetSL(Build(tciAn, sl, pn, sci)) == sl
    ensures GetPN(Build(tciAn, sl, pn, sci)) == pn
    ensures GetSCI(Build(tciAn, sl, pn, sci)) == sci[..SciSize]
  {
    var l := Build(tciAn, sl, pn, sci);
    BigEndian32Injective(GetPN(l), pn);
  }

  /** For a TCI that fits six bits and an AN that fits two, the values
      packed into the first octet by shift-and-or come back from the
      TCI and AN getters of the built header. */
  lemma BuildTciAnRoundTrip(tci: byte, an: byte, sl: byte, pn: bv32, sci: seq<byte>)
    requires tci <= 63 && an <= 3
    requires |sci| >= SciSize
    ensures GetTCI(Build((tci << 2) | an, sl, pn, sci)) == tci
    ensures GetAN(Build((tci << 2) | an, sl, pn, sci)) == an
  {
    TciAnJoin(tci, an);
  }

  // ---------------------------------------------------- setters are frames

  /** `setTCI_AN` leaves SL, PN and SCI as they were. */
  lemma SetTciAnKeepsOtherFields(l: Layer, tciAn: byte)
    requires HasHeader(l)
    ensures GetSL(SetTCI_AN(l, tciAn)) == GetSL(l)
    ensures GetPN(SetTCI_AN(l, tciAn)) == GetPN(l)
    ensures GetSCI(SetTCI_AN(l, tciAn)) == GetSCI(l)
  {
    var r := SetTCI_AN(l, tciAn);
    assert r.data[PnOffset..SciOffset] == l.data[PnOffset..SciOffset];
    BigEndian32Injective(GetPN(r), GetPN(l));
  }

  /** `setSL` leaves TCI, AN, PN and SCI as they were. */
  lemma SetSlKeepsOtherFields(l: Layer, sl: byte)
    requires HasHeader(l)
    ensures GetTCI(SetSL(l, sl)) == GetTCI(l) && GetAN(SetSL(l, sl)) == GetAN(l)
    ensures GetPN(SetSL(l, sl)) == GetPN(l)
    ensures GetSCI(SetSL(l, sl)) == GetSCI(l)
  {
    var r := SetSL(l, sl);
    assert r.data[PnOffset..SciOffset] == l.data[PnOffset..SciOffset];
    BigEndian32Injective(GetPN(r), GetPN(l));
  }

  /** `setPN` leaves TCI, AN, SL and SCI as they were. */
  lemma SetPnKeepsOtherFields(l: Layer, pn: bv32)
    requires HasHeader(l)
    ensures GetTCI(SetPN(l, pn)) == GetTCI(l) && GetAN(SetPN(l, pn)) == GetAN(l)
    ensures GetSL(SetPN(l, pn)) == GetSL(l)
    ensures GetSCI(SetPN(l, pn)) == GetSCI(l)
  {
  }

  /** `setSCI` leaves TCI, AN, SL and PN as they were. */
  lemma SetSciKeepsOtherFields(l: Layer, sci: seq<byte>)
    requires HasHeader(l) && |sci| >= SciSize
    ensures GetTCI(SetSCI(l, sci)) == GetTCI(l) && GetAN(SetSCI(l, sci)) == GetAN(l)
    ensures GetSL(SetSCI(l, sci)) == GetSL(l)
    ensures GetPN(SetSCI(l, sci)) == GetPN(l)
  {
    var r := SetSCI(l, sci);
    assert r.data[PnOffset..SciOffset] == l.data[PnOffset..SciOffset];
    BigEndian32Injective(GetPN(r), GetPN(l));
  }

  /** A setter changes no byte past the header: whatever follows the
      SecTAG in the layer, ICV included, is untouched. */
  lemma SettersKeepPayload(l: Layer, tciAn: byte, sl: byte, pn: bv32, sci: seq<byte>)
    requires HasHeader(l) && |sci| >= SciSize
    ensures SetTCI_AN(l, tciAn).data[HeaderSize..] == l.data[HeaderSize..]
    ensures SetSL(l, sl).data[HeaderSize..] == l.data[HeaderSize..]
    ensures SetPN(l, pn).data[HeaderSize..] == l.data[HeaderSize..]
    ensures SetSCI(l, sci).data[HeaderSize..] == l.data[HeaderSize..]
  {
  }

  /** The TCI flag tests see only the first octet: setting SL, PN or SCI
      never changes them. */
  lemma FlagsReadOnlyFirstOctet(l: Layer, sl: byte, pn: bv32, sci: seq<byte>)
    requires HasHeader(l) && |sci| >= SciSize
    ensures EncryptionOn(SetSL(l, sl)) == EncryptionOn(l)
    ensures EncryptionOn(SetPN(l, pn)) == EncryptionOn(l)
    ensures EncryptionOn(SetSCI(l, sci)) == EncryptionOn(l)
    ensures SecureDataIsUserData(SetSL(l, sl)) == SecureDataIsUserData(l)
    ensures SecureDataIsUserData(SetPN(l, pn)) == SecureDataIsUserData(l)
    ensures SecureDataIsUserData(SetSCI(l, sci)) == SecureDataIsUserData(l)
  {
  }

  // -------------------------------------------------- computeCalculateFields

  /** `computeCalculateFields`: the SecTAG has no derived field, so the
      layer comes back as it was. */
  function ComputeCalculateFields(l: Layer): (r: Layer)
    ensures r.data == l.data && r.protocol == l.protocol
  {
    l
  }

  /** Recomputing the derived fields is idempotent. */
  lemma ComputeCalculateFieldsIdempotent(l: Layer)
    ensures ComputeCalculateFields(ComputeCalculateFields(l)) == ComputeCalculateFields(l)
  {
  }
}
