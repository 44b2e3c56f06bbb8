/** The fixed six-byte header of a package: little-endian message id, little-endian
    declared payload size, then the trailer bytes 0x9E 0x1F. */
module Head {
  import opened Wire

  /** What a header carries: the package's message id and its declared payload size. */
  datatype Header = Header(msgId: uint16, dataSize: uint16)

  /** headBytes: the header as it goes on the wire. Writing into an in-memory buffer
      cannot fail, so the model returns the bytes alone. */
  function HeadBytes(h: Header): (r: seq<byte>)
    ensures |r| == HeadLen
    ensures r[4] == HeadTail1 && r[5] == HeadTail2
    ensures Le16Value(r[0], r[1]) == h.msgId
    ensures Le16Value(r[2], r[3]) == h.dataSize
  {
    Le16(h.msgId) + Le16(h.dataSize) + Le16(HeadTail)
  }

  /** parsePackageHead: checks the trailer, then reads the two words of the first four
      bytes. The caller always hands it at least six bytes; fewer would make the source
      index out of range. */
  function ParsePackageHead(data: seq<byte>): (r: Result<Header, Error>)
    requires |data| >= HeadLen
    ensures r.Ok? <==> data[4] == HeadTail1 && data[5] == HeadTail2
    ensures r.Err? ==> r.error == HeadMismatch(data)
    ensures r.Ok? ==> r.value.msgId == data[0] as int + 256 * data[1] as int
    ensures r.Ok? ==> r.value.dataSize == data[2] as int + 256 * data[3] as int
  {
    if data[4] != HeadTail1 || data[5] != HeadTail2 then
      Err(HeadMismatch(data))
    else
      Ok(Header(Le16Value(data[0], data[1]), Le16Value(data[2], data[3])))
  }

  /** Decoding an encoded header gives back the same message id and declared size. */
  lemma HeadRoundTrip(h: Header)
    ensures ParsePackageHead(HeadBytes(h)) == Ok(h)
  {
  }

  /** Every header the decoder accepts is exactly the encoding of what it decoded:
      the header codec is a bijection between headers and well-trailed six-byte strings. */
  lemma HeadBytesOfParsed(data: seq<byte>)
    requires |data| >= HeadLen
    requires ParsePackageHead(data).Ok?
    ensures HeadBytes(ParsePackageHead(data).value) == data[..HeadLen]
  {
    var h := ParsePackageHead(data).value;
    Le16OfValue(data[0], data[1]);
    Le16OfValue(data[2], data[3]);
    assert HeadBytes(h) == [data[0], data[1]] + [data[2], data[3]] + [HeadTail1, HeadTail2];
  }

  /** The header of the repository's own test: 11 22 33 44 9E 1F is message 0x2211
      with declared size 0x4433, and encoding that pair gives those bytes back. */
  lemma HeaderExample()
    ensures ParsePackageHead([0x11, 0x22, 0x33, 0x44, 0x9E, 0x1F]) == Ok(Header(0x2211, 0x4433))
    ensures HeadBytes(Header(0x2211, 0x4433)) == [0x11, 0x22, 0x33, 0x44, 0x9E, 0x1F]
  {
  }
}
