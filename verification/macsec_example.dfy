/** The two pure helpers of the MACsec example program: packing a TCI and
    an AN into the first SecTAG octet, and filling a 16-byte ICV with a
    recognisable pattern. */
module MacsecExample {
  import opened Bytes
  import opened SecTag

  /** `createTCI_AN`: the TCI shifted into the six high bits (its two top
      bits fall off the octet) and the AN masked to the two low bits. */
  function CreateTciAn(tci: byte, an: byte): (tciAn: byte)
    ensures TciOf(tciAn) == tci & 0x3f
    ensures AnOf(tciAn) == an & 0x03
  {
    (tci << 2) | (an & 0x03)
  }

  /** A TCI that fits six bits is read back exactly. */
  lemma CreateTciAnKeepsSixBitTci(tci: byte, an: byte)
    requires tci <= 63
    ensures TciOf(CreateTciAn(tci, an)) == tci
  {
  }

  /** The AN bits above bit 1 never reach the TCI bits, and the TCI bits
      never reach the AN bits. */
  lemma CreateTciAnFieldsIndependent(tci: byte, tci': byte, an: byte, an': byte)
    ensures TciOf(CreateTciAn(tci, an)) == TciOf(CreateTciAn(tci, an'))
    ensures AnOf(CreateTciAn(tci, an)) == AnOf(CreateTciAn(tci', an))
  {
  }

  /** The packed octets of the example program and of the tests. */
  lemma CreateTciAnExamples()
    ensures CreateTciAn(0x0d, 0x00) == 0x34
    ensures CreateTciAn(0x0b, 0x00) == 0x2c
    ensures CreateTciAn(0x0d, 0x01) == 0x35
    ensures TciOf(0x2c) == 0x0b && AnOf(0x2c) == 0x00
  {
  }

  /** The ICV pattern the example program writes: 1, 2, ..., 16. */
  function IcvPattern(): (p: seq<byte>)
    ensures |p| == IcvLength
    ensures p[0] == 1 && p[IcvLength - 1] == 16
  {
    seq(IcvLength, i requires 0 <= i < IcvLength => (i + 1) as byte)
  }

  /** `createICV`: writes 1..16 into the 16 bytes starting at `at` and
      leaves every other byte of the buffer alone, which is the same as
      copying the ICV pattern there. */
  method CreateIcv(buf: seq<byte>, at: nat) returns (r: seq<byte>)
    requires at + IcvLength <= |buf|
    ensures |r| == |buf|
    ensures forall j | at <= j < at + IcvLength :: r[j] == (j - at + 1) as byte
    ensures SameOutside(buf, r, at, at + IcvLength)
    ensures r == Overwrite(buf, at, IcvPattern())
  {
    r := buf;
    var i: nat := 0;
    while i < IcvLength
      invariant i <= IcvLength
      invariant |r| == |buf|
      invariant forall j | at <= j < at + i :: r[j] == (j - at + 1) as byte
      invariant forall j | 0 <= j < |buf| && !(at <= j < at + i) :: r[j] == buf[j]
    {
      r := r[at + i := (i + 1) as byte];
      i := i + 1;
    }
    ghost var want := Overwrite(buf, at, IcvPattern());
    assert forall j | 0 <= j < |r| :: r[j] == want[j] by {
      forall j | 0 <= j < |r|
        ensures r[j] == want[j]
      {
        if at <= j < at + IcvLength {
          assert want[j] == want[at..at + IcvLength][j - at];
        }
      }
    }
  }
}
