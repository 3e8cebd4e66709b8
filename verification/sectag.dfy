/** The packed `macsec_header` struct: a 14-byte SecTAG holding the
    TCI/AN octet, the short length SL, the packet number PN (four bytes
    in network order) and the secure channel identifier SCI (eight raw
    bytes), in that order with no padding. */
module SecTag {
  import opened Bytes

  // Field sizes of the packed struct, in bytes.
  const TciAnSize: nat := 1
  const SlSize: nat := 1
  const PnSize: nat := 4
  const SciSize: nat := 8

  // Field offsets of the packed struct.
  const TciAnOffset: nat := 0
  const SlOffset: nat := 1
  const PnOffset: nat := 2
  const SciOffset: nat := 6

  /** `sizeof(macsec_header)`. */
  const HeaderSize: nat := 14

  /** Length of the Integrity Check Value trailer, `MACsecICVLength`. */
  const IcvLength: nat := 16

  /** The struct is packed: each field starts where the previous one
      ends, and the header ends where the SCI ends. */
  lemma PackedLayout()
    ensures TciAnOffset == 0
    ensures SlOffset == TciAnOffset + TciAnSize
    ensures PnOffset == SlOffset + SlSize
    ensures SciOffset == PnOffset + PnSize
    ensures HeaderSize == SciOffset + SciSize
    ensures HeaderSize == TciAnSize + SlSize + PnSize + SciSize
  {
  }

  /** The struct seen field by field. PN is kept as its four wire bytes:
      the struct member holds them as stored, and only the accessors
      convert to a number. */
  datatype MacsecHeader = MacsecHeader(tciAn: byte, sl: byte, pnWire: seq<byte>, sci: seq<byte>)
  {
    predicate WellSized() {
      |pnWire| == PnSize && |sci| == SciSize
    }
  }

  /** The struct as bytes in memory. */
  function HeaderBytes(h: MacsecHeader): (r: seq<byte>)
    requires h.WellSized()
    ensures |r| == HeaderSize
    ensures r[TciAnOffset] == h.tciAn && r[SlOffset] == h.sl
    ensures r[PnOffset..SciOffset] == h.pnWire
    ensures r[SciOffset..HeaderSize] == h.sci
  {
    [h.tciAn, h.sl] + h.pnWire + h.sci
  }

  /** The struct overlaid on the first 14 bytes of `b`. */
  function HeaderOf(b: seq<byte>): (h: MacsecHeader)
    requires |b| >= HeaderSize
    ensures h.WellSized()
    ensures HeaderBytes(h) == b[..HeaderSize]
  {
    MacsecHeader(b[TciAnOffset], b[SlOffset], b[PnOffset..SciOffset], b[SciOffset..HeaderSize])
  }

  /** Reading back the bytes of a struct gives the same struct. */
  lemma HeaderOfHeaderBytes(h: MacsecHeader)
    requires h.WellSized()
    ensures HeaderOf(HeaderBytes(h)) == h
  {
  }

  /** The TCI: the six high bits of the first octet. */
  function TciOf(tciAn: byte): (tci: byte)
    ensures tci <= 63
  {
    tciAn >> 2
  }

  /** The association number: the two low bits of the first octet. */
  function AnOf(tciAn: byte): (an: byte)
    ensures an <= 3
  {
    tciAn & 0x03
  }

  /** TCI and AN together reconstruct the octet they were read from, so
      no bit of it is lost or read twice. */
  lemma TciAnSplit(tciAn: byte)
    ensures (TciOf(tciAn) << 2) | AnOf(tciAn) == tciAn
  {
  }

  /** Reading a TCI and AN that were packed by shift-and-or gives back
      the parts, when both fit their widths. */
  lemma TciAnJoin(tci: byte, an: byte)
    requires tci <= 63 && an <= 3
    ensures TciOf((tci << 2) | an) == tci
    ensures AnOf((tci << 2) | an) == an
  {
  }
}
