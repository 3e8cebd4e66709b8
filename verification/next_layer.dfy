/** `parseNextLayer`: what follows the SecTAG is always an opaque payload,
    whose range skips the header and leaves out the 16-byte ICV trailer
    at the end of the layer's bytes. The next layer is described by the
    (offset, length) of its range inside the MACsec layer's data.

    Two versions are given. `ParseNextLayerAsWritten` follows the code:
    it declines only when nothing follows the header, and the length it
    computes goes negative (wraps, as an unsigned `size_t`) when fewer
    than 16 bytes follow. `ParseNextLayer` declines whenever no payload
    byte remains once the ICV is reserved; the rest of the model uses it. */
module NextLayer {
  import opened Wrappers
  import opened Bytes
  import opened SecTag
  import opened MacsecLayer

  /** A byte range inside a layer's data. The length is an integer so
      that a negative result of the length computation stays visible. */
  datatype Span = Span(offset: int, length: int)

  /** The range lies inside a buffer of `n` bytes. */
  predicate SpanWithin(s: Span, n: nat) {
    0 <= s.offset && 0 <= s.length && s.offset + s.length <= n
  }

  /** The width of `size_t` on the 64-bit targets the library builds for. */
  const SizeTModulus: int := 0x1_0000_0000_0000_0000

  /** An integer as the unsigned `size_t` it is stored into. */
  function AsSizeT(x: int): (r: nat)
    ensures r < SizeTModulus
    ensures 0 <= x < SizeTModulus ==> r == x
    ensures -SizeTModulus <= x < 0 ==> r == x + SizeTModulus
  {
    x % SizeTModulus
  }

  /** The next layer as the code computes it: none when the data is no
      longer than the header, otherwise a payload starting right after
      the header whose length is the data length less the header and
      the ICV. */
  function ParseNextLayerAsWritten(l: Layer): (r: Option<Span>)
    ensures r.None? <==> |l.data| <= HeaderSize
    ensures r.Some? ==> r.value.offset == GetHeaderLen(l)
    ensures r.Some? ==> r.value.offset + r.value.length + IcvLength == |l.data|
  {
    if |l.data| <= HeaderSize then None
    else Some(Span(HeaderSize, |l.data| - HeaderSize - IcvLength))
  }

  /** When between 1 and 15 bytes follow the header, the code still
      creates a next layer, and the length it hands over is negative:
      stored as `size_t` it is far larger than the data it describes. */
  lemma ShortPayloadUnderflows(l: Layer)
    requires HeaderSize < |l.data| < HeaderSize + IcvLength
    ensures ParseNextLayerAsWritten(l).Some?
    ensures ParseNextLayerAsWritten(l).value.length < 0
    ensures AsSizeT(ParseNextLayerAsWritten(l).value.length) > |l.data|
    ensures !SpanWithin(ParseNextLayerAsWritten(l).value, |l.data|)
  {
  }

  /** A concrete frame that shows the underflow: a 20-byte MACsec layer
      gets a next layer of length -10, that is 2^64 - 10 as `size_t`. */
  lemma ShortPayloadExample()
    ensures ParseNextLayerAsWritten(Attach(Zeros(20))) == Some(Span(14, -10))
    ensures AsSizeT(-10) == SizeTModulus - 10
  {
  }

  /** When exactly the ICV follows the header, the code creates an empty
      payload layer. */
  lemma IcvOnlyGivesEmptyPayload(l: Layer)
    requires |l.data| == HeaderSize + IcvLength
    ensures ParseNextLayerAsWritten(l) == Some(Span(HeaderSize, 0))
  {
  }

  /** The next layer once the ICV is reserved: none unless at least one
      byte is left between the header and the ICV; otherwise a payload
      that starts after the header and ends where the ICV starts. */
  function ParseNextLayer(l: Layer): (r: Option<Span>)
    ensures r.None? <==> |l.data| - HeaderSize - IcvLength <= 0
    ensures r.Some? ==> SpanWithin(r.value, |l.data|) && r.value.length > 0
    ensures r.Some? ==> r.value.offset == GetHeaderLen(l)
    ensures r.Some? ==> r.value.offset + r.value.length == |l.data| - IcvLength
  {
    var remaining := |l.data| - HeaderSize - IcvLength;
    if remaining <= 0 then None
    else Some(Span(HeaderSize, remaining))
  }

  /** Both versions agree except on data of 15 to 30 bytes: there the
      code creates a next layer and the reserved-ICV version does not. */
  lemma ParseNextLayerAgreesAsWritten(l: Layer)
    ensures |l.data| <= HeaderSize ==> ParseNextLayerAsWritten(l).None? && ParseNextLayer(l).None?
    ensures |l.data| > HeaderSize + IcvLength ==> ParseNextLayerAsWritten(l) == ParseNextLayer(l)
    ensures HeaderSize < |l.data| <= HeaderSize + IcvLength ==>
              ParseNextLayerAsWritten(l).Some? && ParseNextLayer(l).None?
  {
  }

  /** The bytes of a range inside the layer. */
  function SpanBytes(l: Layer, s: Span): (b: seq<byte>)
    requires SpanWithin(s, |l.data|)
    ensures |b| == s.length
  {
    l.data[s.offset..s.offset + s.length]
  }

  /** The ICV: the last 16 bytes of the layer's data. */
  function Icv(l: Layer): (icv: seq<byte>)
    requires |l.data| >= IcvLength
    ensures |icv| == IcvLength
  {
    l.data[|l.data| - IcvLength..]
  }

  /** The payload layer a MACsec layer is followed by: a view over the
      range `ParseNextLayer` picks, tagged as a generic payload. */
  function NextPayloadLayer(l: Layer): (r: Option<Layer>)
    ensures r.Some? <==> ParseNextLayer(l).Some?
    ensures r.Some? ==> r.value.protocol == GenericPayload
    ensures r.Some? ==> |r.value.data| + HeaderSize + IcvLength == |l.data|
  {
    match ParseNextLayer(l)
    case None => None
    case Some(s) => Some(Layer(SpanBytes(l, s), GenericPayload))
  }

  /** Header, payload and ICV tile the MACsec layer's data exactly: the
      payload handed to the next layer never includes an ICV byte and
      never misses a byte between the header and the ICV. */
  lemma NextLayerTilesData(l: Layer)
    requires ParseNextLayer(l).Some?
    ensures l.data == l.data[..HeaderSize] + NextPayloadLayer(l).value.data + Icv(l)
  {
    var s := ParseNextLayer(l).value;
    var p := NextPayloadLayer(l).value.data;
    assert p == l.data[HeaderSize..|l.data| - IcvLength];
    assert l.data == l.data[..HeaderSize] + l.data[HeaderSize..|l.data| - IcvLength] + l.data[|l.data| - IcvLength..];
  }

  /** The next layer depends only on the bytes after the header: two
      layers of the same length that agree there have the same one. */
  lemma SameTailSameNextLayer(l: Layer, r: Layer)
    requires HasHeader(l) && |r.data| == |l.data|
    requires r.data[HeaderSize..] == l.data[HeaderSize..]
    ensures NextPayloadLayer(r) == NextPayloadLayer(l)
  {
    if ParseNextLayer(l).Some? {
      var s := ParseNextLayer(l).value;
      assert r.data[s.offset..s.offset + s.length] == r.data[HeaderSize..][..s.length];
      assert l.data[s.offset..s.offset + s.length] == l.data[HeaderSize..][..s.length];
    }
  }

  /** Editing a field of the header never changes what the next layer
      covers nor the bytes it sees. */
  lemma SettersKeepNextLayer(l: Layer, tciAn: byte, sl: byte, pn: bv32, sci: seq<byte>)
    requires HasHeader(l) && |sci| >= SciSize
    ensures NextPayloadLayer(SetTCI_AN(l, tciAn)) == NextPayloadLayer(l)
    ensures NextPayloadLayer(SetSL(l, sl)) == NextPayloadLayer(l)
    ensures NextPayloadLayer(SetPN(l, pn)) == NextPayloadLayer(l)
    ensures NextPayloadLayer(SetSCI(l, sci)) == NextPayloadLayer(l)
  {
    SettersKeepPayload(l, tciAn, sl, pn, sci);
    SameTailSameNextLayer(l, SetTCI_AN(l, tciAn));
    SameTailSameNextLayer(l, SetSL(l, sl));
    SameTailSameNextLayer(l, SetPN(l, pn));
    SameTailSameNextLayer(l, SetSCI(l, sci));
  }
}
