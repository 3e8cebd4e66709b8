# MACsec SecTAG codec, modelled in Dafny

This project models the MACsec layer of PcapPlusPlus (`MACsecLayer`), which
reads and writes the SecTAG of IEEE 802.1AE. The SecTAG is a packed 14-byte
header:

- byte 0 holds the 6-bit TCI above the 2-bit association number AN;
- byte 1 holds the short length SL;
- bytes 2-5 hold the packet number PN in network (big-endian) order;
- bytes 6-13 hold the 8-byte secure channel identifier SCI.

The 16-byte Integrity Check Value (ICV) sits at the end of the bytes after
the header. The layer is modelled as an immutable byte sequence. Each
getter, setter and the build constructor is a pure function over it, with
its meaning stated in its contract and in lemmas.

Files and modules:

- `bytes.dfy` (`Bytes`): the byte type (`bv8`, as `uint8_t`), the zeroed
  buffer of `memset`, the copy of `memcpy`, and the big-endian 32-bit
  encoding behind `htobe32`, with round trips both ways.
- `sectag.dfy` (`SecTag`): the packed `macsec_header` layout, the struct view
  over 14 bytes, and the split of the first octet into TCI and AN.
- `macsec_layer.dfy` (`MacsecLayer`): the layer, the attach and build
  constructors, `getHeaderLen`, `getMACsecHeader`, the five getters, the
  four setters, the E-bit and C-bit tests of `parseMACsecTCI`, and the no-op
  `computeCalculateFields`.
- `next_layer.dfy` (`NextLayer`): `parseNextLayer` as (offset, length) bounds
  of the payload that follows. It has two versions: as written, and with
  the ICV reserved (see Findings).
- `macsec_example.dfy` (`MacsecExample`): the example program's pure
  helpers `createTCI_AN` and `createICV`.
- `macsec_scenarios.dfy` (`MacsecScenarios`): the creation, parsing and edit
  scenarios of the MACsec tests, stated on the SecTAG bytes.
- `wrappers.dfy` (`Wrappers`): `Option`, for "no next layer".

Facts about the code that the model records:

- The library has no AN-only setter. `setTCI_AN` overwrites the whole
  first octet unmasked (`MacsecScenarios.SetTciAnUnmasked`), and only the
  example's `createTCI_AN` masks AN to two bits.
- `parseNextLayer` declines only when nothing follows the header. For
  layers of 15 to 30 bytes it still creates a next layer (see Findings).
  `NextLayer.ParseNextLayerAsWritten` models the code as written.
  `NextLayer.ParseNextLayer` is the ICV-reserved correction. The payload
  layer and the lemmas built on it (`NextPayloadLayer`,
  `NextLayerTilesData`, `SameTailSameNextLayer`, `SettersKeepNextLayer`)
  use the corrected bounds.
- The header's doc comment claims dispatch to IPv4, IPv6, ARP and others.
  That dispatch is commented out, so the next layer is always an opaque
  payload.
- The header's ASCII diagram gives octet offsets 0, 1, 2, 8, 16. The packed
  struct puts the fields at 0, 1, 2 and 6, with 14 bytes in all. The model
  follows the struct.
- `getMACsecPN` calls `htobe32` rather than `be32toh`. Both are the same
  byte swap, so PN is modelled as a big-endian decode of the four wire
  bytes. This makes the model independent of host byte order.

## Model

| member | source | states |
|---|---|---|
| Bytes.Overwrite | Packet++/src/MACsecLayer.cpp:132-135 | the `memcpy` store puts the source bytes at the offset and keeps every other byte and the length |
| Bytes.Zeros | Packet++/src/MACsecLayer.cpp:26-27 | the fresh header buffer has the requested length and every byte zero |
| Bytes.BigEndian32 | Packet++/src/MACsecLayer.cpp:129 | the `htobe32(pn)` store yields four bytes, most significant first, that decode back to the PN |
| Bytes.FromBigEndian32 | Packet++/src/MACsecLayer.cpp:54 | the `htobe32(PN)` read takes byte 2 as the top octet and byte 5 as the bottom octet of the value |
| Bytes.BigEndian32RoundTrip | Packet++/src/MACsecLayer.cpp:127-130 | decoding the network-order bytes stored for any 32-bit value gives that value back |
| Bytes.FromBigEndian32RoundTrip | Packet++/src/MACsecLayer.cpp:52-55 | re-encoding the value read from any four wire bytes gives back the same bytes |
| Bytes.BigEndian32Injective | Packet++/src/MACsecLayer.cpp:127-130 | two PN values have the same wire bytes if and only if they are equal |
| SecTag.PackedLayout | Packet++/header/MACsecLayer.h:25-43 | the fields sit at offsets 0, 1, 2 and 6, each starting where the previous one ends, and the header is 1+1+4+8 = 14 bytes |
| SecTag.HeaderBytes | Packet++/header/MACsecLayer.h:38-41 | the struct's in-memory image is 14 bytes: TCI_AN at 0, SL at 1, the PN bytes at 2-5 and the SCI at 6-13 |
| SecTag.HeaderOf | Packet++/header/MACsecLayer.h:25-43 | the struct overlaid on at least 14 bytes has 4 PN bytes and 8 SCI bytes, and its bytes are exactly the first 14 |
| SecTag.HeaderOfHeaderBytes | Packet++/header/MACsecLayer.h:25-43 | reading the struct back from its own bytes gives the same struct |
| SecTag.TciOf | Packet++/src/MACsecLayer.cpp:39 | `TCI_AN >> 2` is at most 63 |
| SecTag.AnOf | Packet++/src/MACsecLayer.cpp:44 | `TCI_AN & 0x03` is at most 3 |
| SecTag.TciAnSplit | Packet++/src/MACsecLayer.cpp:37-45 | TCI shifted left by 2, ORed with AN, rebuilds the first octet exactly |
| SecTag.TciAnJoin | Packet++/src/MACsecLayer.cpp:37-45 | a TCI of at most 63 and an AN of at most 3, packed by shift-and-or, read back unchanged |
| MacsecLayer.Attach | Packet++/header/MACsecLayer.h:61 | the attach constructor keeps the given bytes unchanged and tags the layer as MACsec |
| MacsecLayer.GetHeaderLen | Packet++/header/MACsecLayer.h:150 | the header length is where the SCI ends (14), whatever the layer's data length |
| MacsecLayer.GetMACsecHeader | Packet++/header/MACsecLayer.h:75-78 | the header view is well sized and its bytes are the layer's first 14 bytes |
| MacsecLayer.WithHeader | Packet++/header/MACsecLayer.h:75-78 | a store through the view puts the struct's bytes in the layer's first 14 bytes, keeps every later byte, and the view then shows the stored struct |
| MacsecLayer.HeaderViewAliasesData | Packet++/header/MACsecLayer.h:75-78 | the view shows what was stored through it, and storing the view's own contents leaves the layer unchanged |
| MacsecLayer.GetTCI | Packet++/src/MACsecLayer.cpp:37-40 | the TCI is at most 63 and, with the AN, makes up the whole first octet |
| MacsecLayer.GetAN | Packet++/src/MACsecLayer.cpp:42-45 | the AN is the two low bits of byte 0, so at most 3 |
| MacsecLayer.GetSL | Packet++/src/MACsecLayer.cpp:47-50 | SL is byte 1 as stored, unmasked |
| MacsecLayer.GetPN | Packet++/src/MACsecLayer.cpp:52-55 | the PN read is the value whose big-endian encoding is bytes 2-5 |
| MacsecLayer.GetSCI | Packet++/src/MACsecLayer.cpp:57-60 | the SCI read is the 8 bytes at offsets 6-13 |
| MacsecLayer.HeaderBytesFromFields | Packet++/src/MACsecLayer.cpp:37-60 | the 14 header bytes are the first octet, SL, big-endian PN and the SCI, as the getters read them |
| MacsecLayer.EncryptionOn | Packet++/src/MACsecLayer.cpp:94-101 | encryption is reported on if and only if bit 3 of byte 0 (bit 1 of the TCI) is set |
| MacsecLayer.SecureDataIsUserData | Packet++/src/MACsecLayer.cpp:108-111 | secure data is reported equal to user data if and only if bit 2 of byte 0 (bit 0 of the TCI) is clear |
| MacsecLayer.SetTCI_AN | Packet++/src/MACsecLayer.cpp:117-120 | byte 0 becomes the argument, unmasked; no other byte changes |
| MacsecLayer.SetSL | Packet++/src/MACsecLayer.cpp:122-125 | SL reads back as set; only byte 1 changes |
| MacsecLayer.SetPN | Packet++/src/MACsecLayer.cpp:127-130 | bytes 2-5 become the big-endian form of the PN, which reads back unchanged; no other byte changes |
| MacsecLayer.SetSCI | Packet++/src/MACsecLayer.cpp:132-135 | the SCI reads back as the first 8 given bytes; only bytes 6-13 change |
| MacsecLayer.SetTciAnStoresThroughView | Packet++/src/MACsecLayer.cpp:117-120 | `setTCI_AN` equals storing the view with only its TCI_AN member replaced |
| MacsecLayer.SetSlStoresThroughView | Packet++/src/MACsecLayer.cpp:122-125 | `setSL` equals storing the view with only its SL member replaced |
| MacsecLayer.SetPnStoresThroughView | Packet++/src/MACsecLayer.cpp:127-130 | `setPN` equals storing the view with its PN member set to the network-order bytes |
| MacsecLayer.SetSciStoresThroughView | Packet++/src/MACsecLayer.cpp:132-135 | `setSCI` equals storing the view with only its SCI member replaced |
| MacsecLayer.SameHeaderSameLayer | Packet++/header/MACsecLayer.h:75-78 | two layers of the same length and protocol are equal when their header views and their bytes after the header agree |
| MacsecLayer.Build | Packet++/src/MACsecLayer.cpp:21-35 | the build constructor yields exactly 14 bytes: TCI_AN, SL, big-endian PN, then the first 8 SCI bytes, tagged MACsec |
| MacsecLayer.BuildReadsBack | Packet++/src/MACsecLayer.cpp:21-35 | every field of a built header reads back as given, and the header length equals the built data length |
| MacsecLayer.BuildTciAnRoundTrip | Packet++/src/MACsecLayer.cpp:21-45 | a built header with a 6-bit TCI and a 2-bit AN packed into byte 0 returns them from its TCI and AN getters |
| MacsecLayer.SetTciAnKeepsOtherFields | Packet++/src/MACsecLayer.cpp:117-120 | after `setTCI_AN`, SL, PN and SCI read as before |
| MacsecLayer.SetSlKeepsOtherFields | Packet++/src/MACsecLayer.cpp:122-125 | after `setSL`, TCI, AN, PN and SCI read as before |
| MacsecLayer.SetPnKeepsOtherFields | Packet++/src/MACsecLayer.cpp:127-130 | after `setPN`, TCI, AN, SL and SCI read as before |
| MacsecLayer.SetSciKeepsOtherFields | Packet++/src/MACsecLayer.cpp:132-135 | after `setSCI`, TCI, AN, SL and PN read as before |
| MacsecLayer.SettersKeepPayload | Packet++/src/MACsecLayer.cpp:117-135 | no setter changes a byte after the header, ICV included |
| MacsecLayer.FlagsReadOnlyFirstOctet | Packet++/src/MACsecLayer.cpp:94-111 | setting SL, PN or SCI never changes the E-bit or C-bit answer |
| MacsecLayer.ComputeCalculateFields | Packet++/header/MACsecLayer.h:155 | recomputing derived fields leaves every byte and the protocol tag unchanged |
| MacsecLayer.ComputeCalculateFieldsIdempotent | Packet++/header/MACsecLayer.h:155 | recomputing twice gives the same layer as recomputing once |
| NextLayer.AsSizeT | Packet++/src/MACsecLayer.cpp:147 | storing an integer into `size_t` keeps values in range and adds 2^64 to negative values down to -2^64 |
| NextLayer.ParseNextLayerAsWritten | Packet++/src/MACsecLayer.cpp:137-153 | as written: no next layer if and only if the data is at most 14 bytes; otherwise the payload starts at the header length and ends 16 bytes before the data ends |
| NextLayer.ShortPayloadUnderflows | Packet++/src/MACsecLayer.cpp:140-147 | for 15 to 29 data bytes, the as-written length is negative, its `size_t` value exceeds the data length, and the range is not inside the data |
| NextLayer.ShortPayloadExample | Packet++/src/MACsecLayer.cpp:140-147 | a 20-byte layer gets a next layer at offset 14 with length -10, which is 2^64 - 10 as `size_t` |
| NextLayer.IcvOnlyGivesEmptyPayload | Packet++/src/MACsecLayer.cpp:140-153 | with exactly 30 data bytes, the as-written code creates a zero-length payload at offset 14 |
| NextLayer.ParseNextLayer | Packet++/src/MACsecLayer.cpp:137-153 | with the ICV reserved: no next layer if and only if no byte remains after header and ICV; otherwise a non-empty range inside the data from offset 14 to the ICV's start |
| NextLayer.ParseNextLayerAgreesAsWritten | Packet++/src/MACsecLayer.cpp:137-153 | both versions give no next layer for at most 14 bytes and agree above 30 bytes; only the as-written one creates a layer for 15 to 30 bytes |
| NextLayer.NextPayloadLayer | Packet++/src/MACsecLayer.cpp:146-153 | with the ICV reserved (the corrected bounds): a payload layer exists exactly when those bounds do; it is tagged as a generic payload, and its length plus 14 plus 16 is the MACsec data length |
| NextLayer.NextLayerTilesData | Packet++/src/MACsecLayer.cpp:145-147 | for the corrected next layer: header, payload and ICV concatenate to exactly the MACsec layer's data, so the payload never includes an ICV byte |
| NextLayer.SameTailSameNextLayer | Packet++/src/MACsecLayer.cpp:137-153 | the corrected next layer depends only on the data length and the bytes after the header |
| NextLayer.SettersKeepNextLayer | Packet++/src/MACsecLayer.cpp:117-153 | no setter changes the corrected next layer's range or bytes |
| MacsecExample.CreateTciAn | Examples/MACsecExample/main.cpp:137-142 | the packed octet's TCI is the given TCI with bits 6-7 dropped, and its AN is the given AN masked to 2 bits |
| MacsecExample.CreateTciAnKeepsSixBitTci | Examples/MACsecExample/main.cpp:137-142 | a TCI of at most 63 reads back exactly |
| MacsecExample.CreateTciAnFieldsIndependent | Examples/MACsecExample/main.cpp:138-140 | AN bits never alter the packed TCI, and TCI bits never alter the packed AN |
| MacsecExample.CreateTciAnExamples | Examples/MACsecExample/main.cpp:137-142 | (0x0d, 0) packs to 0x34, (0x0b, 0) to 0x2c, (0x0d, 1) to 0x35, and 0x2c splits into TCI 0x0b and AN 0 |
| MacsecExample.IcvPattern | Examples/MACsecExample/main.cpp:144-148 | the example ICV is 16 bytes from 1 up to 16 |
| MacsecExample.CreateIcv | Examples/MACsecExample/main.cpp:144-148 | the 16 positions from the given offset receive 1..16, every other byte and the length are kept, and the result equals copying the ICV pattern there |
| MacsecScenarios.CreationLayer | Tests/Packet++Test/Tests/MACsecTests.cpp:16-22 | the creation tests' layer, with TCI 0x0d and AN 0 packed inline by a left shift of 2 and an OR, is a MACsec layer holding a full header |
| MacsecScenarios.CreationHeaderBytes | Tests/Packet++Test/Tests/MACsecTests.cpp:56-61 | TCI 0x0d, AN 0, SL 0x55, PN 0xdeadbeef and SCI aa×6 00 00 build `34 55 de ad be ef aa aa aa aa aa aa 00 00` |
| MacsecScenarios.CreationFieldsReadBack | Tests/Packet++Test/Tests/MACsecTests.cpp:46-50 | the created layer reads back TCI 0x0d, AN 0, SL 0x55, PN 0xdeadbeef and its SCI |
| MacsecScenarios.ParsedFrameFields | Tests/Packet++Test/Tests/MACsecTests.cpp:135-164 | the 14 SecTAG bytes that the parsing test's assertions force, whatever follows them, decode octet 0x2c as TCI 0x0b and AN 0, SL 0, PN 13 and its SCI, with encryption on and the C bit set |
| MacsecScenarios.EditAllFields | Tests/Packet++Test/Tests/MACsecTests.cpp:187-190 | the edit test's four stores keep a full header and every byte after it |
| MacsecScenarios.EditedFieldsReadBack | Tests/Packet++Test/Tests/MACsecTests.cpp:171-201 | after the four stores, TCI 0x0d, AN 1, octet 0x35, SL 2, PN 0xdeadbeef and SCI 00..07 read back |
| MacsecScenarios.EditValuesHeaderBytes | Tests/Packet++Test/Tests/MACsecTests.cpp:192-195 | a header holding the edit test's field values has exactly the expected 14 bytes |
| MacsecScenarios.EditedHeaderBytes | Tests/Packet++Test/Tests/MACsecTests.cpp:187-195 | the edited header is `35 02 de ad be ef 00 01 02 03 04 05 06 07` and the bytes after it are unchanged |
| MacsecScenarios.SetPacketNumberHundred | Examples/MACsecExample/main.cpp:82 | `setPN(100)` writes `00 00 00 64` to bytes 2-5, reads back 100, and changes no other byte |
| MacsecScenarios.PacketNumberByteOrder | Packet++/src/MACsecLayer.cpp:52-55 | PN 1 is stored as `00 00 00 01`, and wire bytes `00 00 00 0d` read as 13 |
| MacsecScenarios.SetTciAnUnmasked | Packet++/src/MACsecLayer.cpp:117-120 | storing 0xff keeps 0xff and reads TCI 63 and AN 3 |

## Left out

- The `Packet`, `RawPacket` and `Layer` base classes are not part of this
  model. The behaviour they hold is therefore out of scope: `addLayer`,
  `insertLayer` and `detachLayer`, buffer growth and view re-indexing,
  `getLayerOfType`, chain-wide `computeCalculateFields`, and the whole-frame
  48-byte creation tests. The next layer is modelled only as the (offset,
  length) range a `PayloadLayer` would be built over.
- `EthLayer` and `PayloadLayer` are not part of this model. The Ethernet
  part of the tests (MAC addresses, EtherType 0x88E5) and the edit
  scenario's change of destination MAC are left out.
- `toString` and the text built by `parseMACsecTCI` are string formatting.
  Only the two bit tests that choose the text are modelled.
- The commented-out EtherType dispatch in `parseNextLayer` is dead code.
- Memory management is left out: `new`/`delete`, the `takeOwnership` flags,
  and the lifetime of the SCI pointer `getMACsecSCI` returns. The pointer
  is modelled as the 8 bytes it points to. Writes through it are modelled
  by `SetSCI` and the header view.
- Capture-file I/O, console output, `exit` and the `main` driver of the
  example program are left out, as is test timing through `gettimeofday`.
- `getOsiModelLayer` is left out. It returns a constant classification and
  no codec behaviour depends on it.
- Rules of IEEE 802.1AE that the code does not implement are not modelled:
  the SCI being present only when the SC bit is set, SL limited to 6 bits,
  and a variable ICV length.
- Reading fields of a layer shorter than 14 bytes is undefined behaviour
  in the library. Callers must rule it out, so the getters and setters
  require at least 14 bytes. The attach constructor and `parseNextLayer`
  accept any length.
- NextLayer.NextPayloadLayer: builds the payload layer over the corrected
  bounds of `NextLayer.ParseNextLayer`, so for 15 to 30 bytes it gives no
  next layer where the code creates one. The code's own bounds for those
  lengths are `NextLayer.ParseNextLayerAsWritten`.
- NextLayer.AsSizeT: assumes a 64-bit `size_t`. Other widths change only
  the modulus.

## Findings

| source | as written | input that shows it | evidently intended | confidence | as-written member | corrected member |
|---|---|---|---|---|---|---|
| Packet++/src/MACsecLayer.cpp:140-147 | returns early only when the data is at most 14 bytes, then computes the payload length `dataLen - 14 - 16` in unsigned `size_t` | a MACsec layer of 20 bytes: the payload length is -10, stored as 2^64 - 10, far past the end of the data (any length from 15 to 29 underflows; exactly 30 gives an empty payload layer) | no next layer unless at least one byte lies between the header and the 16-byte ICV; the payload is then exactly the bytes between them | medium, not executed | NextLayer.ParseNextLayerAsWritten (shown by NextLayer.ShortPayloadUnderflows and NextLayer.ShortPayloadExample) | NextLayer.ParseNextLayer (proved by NextLayer.NextLayerTilesData) |
