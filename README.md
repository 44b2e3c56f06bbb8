# pack — a verified model of a binary package codec

The `pack` library (Go) frames application messages as *packages*. A package is a
six-byte header followed by a payload of *members*:

- The header holds a little-endian 16-bit message id, a little-endian 16-bit declared
  payload size, and the trailer bytes `0x9E 0x1F`.
- Each member is a key byte, a little-endian 16-bit value length, and then the value
  bytes.
- A `Package` object holds the message id, the declared size and a table from key
  bytes to values. A value may be nil.
- Keys `'A'`, `'B'` and `'C'` have their own accessors.
- `Write` sends a package to a stream. `ParsePackage` reads one back.

The model has four modules, one per layer of `package.go`, and a client module that
replays the package test:

| file | module | what it holds |
|---|---|---|
| `wire.dfy` | `Wire` | bytes and 16-bit words, little-endian words, the wire constants, the error values |
| `head.dfy` | `Head` | `headBytes` and `parsePackageHead` as pure functions on a `Header` value |
| `members.dfy` | `MemberStream` | the member encoding, the member parser (`parseMembers`, an imperative loop), and the size the sizing loop of `Write` computes |
| `pack.dfy` | `Pack` | the `Package` class with its constructors, accessors and `Write`, the stream classes, and `ParsePackage` |
| `scenario.dfy` | `Scenario` | the three-member package test, as a method that builds, writes and re-parses a package |

Modelling choices:

- **Member values.** A Go `*[]byte` becomes `MemberValue = Nil | Bytes(bytes)`. A member
  table is a `map<byte, MemberValue>`.
- **Map iteration order.** Go does not fix the order in which `range` visits a map. Each
  of the two loops of `Write` is therefore given its own order as a parameter: any
  sequence that lists every key of the table exactly once (`Enumerates`).
- **Sizing.** `DeclaredSize` computes the size by walking the key range 0..255, so it
  does not depend on any order. `SeqSizeIsDeclared` proves that the sizing loop reaches
  the same total whatever order it meets the keys in.
- **Streams.** The io.Writer is a `Writer` object: an in-memory buffer with a fixed
  capacity. It takes as many bytes as still fit and reports a short write when it could
  not take everything, as the io.Writer contract requires. The io.Reader is a `Reader`
  object over the bytes not yet read. Its `ReadFull` behaves like `io.ReadAtLeast` on an
  in-memory buffer:
  - it reports `EOF` when no byte was left;
  - it reports `UnexpectedEOF` when some bytes were left but not enough;
  - in both cases it consumes what was there.
- **Parsing.** `DecodeFrame` is the value-level specification of `ParsePackage`. It
  gives the parse result and the bytes the stream has left afterwards.

What is proved, in short:

- **The header codec is a bijection** between headers and six-byte strings with the
  right trailer.
- **Encoding and parsing the member stream are exact inverses.** Member-stream parsing
  returns the same records and consumes the whole stream. Every accepted payload is the
  encoding of what was parsed. The imperative `parseMembers` loop computes exactly
  `DecodeMembers`. Later duplicates of a key win.
- **Size and error paths of `Write` are pinned down.**
  - `Write` refuses an oversized table before sending anything.
  - Otherwise it records the declared size and sends exactly `FrameBytes`, or the
    longest prefix of it the writer accepts.
  - The count it returns is given exactly (`SentCount`). It is 0 when the header did not
    fit. Otherwise it is 6 for the header, plus the length of the members sent whole, plus
    1 for the member that failed when its length did not fit (the key byte is counted, though its write is never
    checked), or 3 when its value did not (a value written in part is not counted). So
    the count can differ from the number of bytes the writer took.
  - Because the key write is never checked, a writer that fails on the key byte and
    then accepts the later writes drops that byte, yet `Write` reports success and counts
    it. The model's fixed-capacity writer never fails and then accepts again, so this
    case is not modelled.
- **A package round-trips.** A nil-free package parses back from what `Write` sent, in
  any map order and followed by any further bytes. The parse gives the same message id,
  the declared size and the same table, and stops right after the package.
- **A nil member breaks framing.**
  - The sizing loop skips nil members, but the sending loop still sends them as a key
    and a zero length.
  - So the declared size falls three bytes short per nil member.
  - `NilMemberDesync` shows the parser returning an empty table and leaving those three
    bytes in the stream.

## Model

| member | source | states |
|---|---|---|
| Wire.Le16 | package.go:345 | a 16-bit word goes out as two bytes, low byte first, and reading them back gives the word |
| Wire.Le16Value | package.go:243-250 | the word read from two bytes has the first as its low byte and the second as its high byte |
| Wire.ReadError | package.go:157-159 | a full read that found no byte fails with EOF, one that found some but not enough with UnexpectedEOF |
| Wire.Le16OfValue | package.go:243-250 | reading two bytes as a little-endian word and writing that word back gives the same two bytes |
| Head.HeadBytes | package.go:368-384 | the header is six bytes: the message id and the declared size as little-endian words, then the trailer 0x9E 0x1F |
| Head.ParsePackageHead | package.go:237-252 | accepted exactly when bytes 4 and 5 are the trailer; on a mismatch the error carries the header bytes; otherwise the id and the size are the little-endian words of bytes 0-1 and 2-3 |
| Head.HeadRoundTrip | package.go:237-252 | parsing the bytes of any header gives that header back |
| Head.HeadBytesOfParsed | package.go:237-252 | every header the parser accepts is the encoding of what it parsed: no two accepted headers decode alike |
| Head.HeaderExample | package_test.go:9-44 | the test's header 11 22 33 44 9E 1F is message 0x2211 with size 0x4433, in both directions |
| MemberStream.Tlv | package.go:338-363 | one member on the wire is its key, its length modulo 2^16 as a little-endian word, then its value bytes |
| MemberStream.EncodeBounds | package.go:337-364 | every member sent takes at least three bytes, so the members encode to nothing exactly when there are none |
| MemberStream.RecordsOf | package.go:337-364 | the sending loop emits one record per key in its order: the key with its value bytes, none for a nil member |
| MemberStream.EncodeConcat | package.go:337-364 | the encoding of consecutive members is the concatenation of their encodings |
| MemberStream.ParseRecords | package.go:254-279 | an empty payload gives no members; accepted members have values that fit 16 bits and take at least three bytes each; the only failures are EOF, UnexpectedEOF and the truncation error |
| MemberStream.DecodeMembers | package.go:254-279 | an empty payload gives the empty table; a decoded table holds no nil value; the only failures are EOF, UnexpectedEOF and the truncation error |
| MemberStream.ToMap | package.go:276 | the table built from parsed members never holds nil |
| MemberStream.ParsePrefix | package.go:260-277 | parsing encoded members followed by any bytes yields those members first and then whatever the rest parses to |
| MemberStream.ParseOfEncode | package.go:254-279 | parsing the encoding of members whose values fit in 16 bits gives back exactly those members |
| MemberStream.EncodeOfParse | package.go:254-279 | every payload the parser accepts is exactly the encoding of the members it returned, and their values all fit in 16 bits |
| MemberStream.DecodeOfEncode | package.go:254-279 | decoding encoded members gives the table they build, later keys overriding earlier ones |
| MemberStream.DecodeOverrun | package.go:271-273 | a member announcing more value bytes than remain fails with the truncation error, after any valid members |
| MemberStream.DecodeShortTail | package.go:261-269 | a trailing one or two bytes (a key with no complete length) fail with EOF or UnexpectedEOF respectively |
| MemberStream.DecodeEmpty | package.go:259-260 | an empty payload decodes to an empty table |
| MemberStream.ToMapKeys | package.go:276 | the decoded table has exactly the keys that occur in the stream |
| MemberStream.ToMapLastWins | package.go:276 | a key's value in the table is the value of its last occurrence in the stream |
| MemberStream.ToMapSnoc | package.go:276 | one more member stores its value under its key over the table so far |
| MemberStream.ParseMembers | package.go:254-279 | the parsing loop returns exactly the decoding of the payload, error cases included |
| MemberStream.SeqSize | package.go:315-320 | the total over an order of the keys is zero exactly when every member it passes is nil |
| MemberStream.DeclaredSize | package.go:315-320 | the declared size is zero exactly when every member of the table is nil |
| MemberStream.SeqSizeIsDeclared | package.go:315-320 | the sizing loop's total (3 + length for each non-nil member) is the same whatever order the map is visited in |
| MemberStream.EncodedLength | package.go:337-364 | the bytes sent for the members are the declared size plus three for every nil member |
| MemberStream.NoNilNoNils | package.go:342-344 | a table without nil members has no such extra bytes |
| MemberStream.RecordsWellFormed | package.go:321-325 | when the declared size fits the ceiling, every value sent fits its 16-bit length field |
| MemberStream.ToMapOfRecords | package.go:337-364 | re-reading the members sent from a nil-free table, in a given key order, rebuilds the table on those keys |
| MemberStream.TableRoundTrip | package.go:337-364 | re-reading the members sent from a nil-free table, in any order of all its keys, rebuilds the whole table |
| Pack.Reader.ReadFull | package.go:166-170 | a full read returns exactly the requested prefix and consumes it, or fails with EOF or UnexpectedEOF according to whether any byte was left, consuming everything |
| Pack.Writer.Write | package.go:331-335 | the writer takes as many bytes as still fit, appends them, and reports a short write exactly when it took fewer than it was given |
| Pack.FrameHead | package.go:327-336 | a sent package starts with a header that parses back to the message id and the declared size, followed by at least three bytes per member |
| Pack.FrameLength | package.go:309-366 | a sent package is the header plus the declared size plus three bytes per nil member |
| Pack.Package.NewPackage | package.go:283-292 | a new package has the given id, a zero declared size, and the given table, or an empty one when none is given |
| Pack.Package.NewPackageWithString | package.go:294-299 | a new package whose only member holds the string's bytes |
| Pack.Package.NewPackageWithData | package.go:301-305 | a new package whose only member holds the given data, nil included |
| Pack.Package.Member | package.go:54-57 | the stored bytes when the key holds some; nil both when the key is absent and when it holds nil |
| Pack.Package.SetMembers | package.go:59-61 | the table is replaced |
| Pack.Package.AddMember | package.go:63-65 | the key now holds the given value; every other key keeps its presence and value |
| Pack.Package.AddStringMember | package.go:67-70 | the key now holds the string's bytes; every other key keeps its presence and value |
| Pack.Package.Lookup | package.go:72-79 | the accessors' lookup succeeds exactly when the key is present, returning its value (nil included), and otherwise fails naming the key |
| Pack.Package.AMember | package.go:72-79 | succeeds exactly when 'A' is present, returning its value (nil included), else fails naming 'A' |
| Pack.Package.BMember | package.go:81-88 | succeeds exactly when 'B' is present, returning its value, else fails naming 'B' |
| Pack.Package.CMember | package.go:90-97 | succeeds exactly when 'C' is present, returning its value, else fails naming 'C' |
| Pack.Package.TwoMembers | package.go:99-110 | succeeds exactly when 'A' and 'B' are both present, returning both; otherwise reports the first missing of A, B |
| Pack.Package.ThreeMembers | package.go:112-127 | succeeds exactly when 'A', 'B' and 'C' are present, returning all three; otherwise reports the first missing in the order A, B, C |
| Pack.Package.Write | package.go:309-366 | an oversized table is refused with its size and nothing is sent. Otherwise dataSize becomes the declared size and the writer receives the full frame, with the count equal to its length. On a short write it receives the longest prefix it accepts, with a ShortWrite error; the count is 0 if the header did not fit, else SentCount (6 for the header, plus the members sent whole, plus 1 or 3 for the member that failed) |
| Pack.Package.SizeMembers | package.go:315-320 | the sizing loop, in any order of the keys, totals the declared size of the table |
| Pack.Package.SendFrame | package.go:327-365 | after the header write: the writer receives the frame or its longest prefix that fits; the count is 0 when the header write fails, SentCount otherwise |
| Pack.Package.WriteMembers | package.go:336-365 | the sending loop appends the members' encodings in map order after the header, stopping at the first short write; the count is exactly SentCount |
| Pack.Package.SendMember | package.go:337-363 | one turn of the loop in the frame: the writer's prefix of the frame grows by the record, or on a short write stops at what fits, with the count that of a write stopped at this record |
| Pack.Package.WriteMember | package.go:338-363 | one member is sent as key, 16-bit length (0 for nil) and value; the writer receives the longest prefix of that encoding it accepts; on a short write the count is 1 (key) when the length did not fit and 3 (key and length) when the value did not |
| Pack.SentCountBounds | package.go:336-365 | when every member fits, the count is the bytes sent; otherwise it is more than the bytes before the failing member and at most one more than the room |
| Pack.SentCountAfter | package.go:337-364 | members that fit whole add exactly their length to the count before the rest is counted |
| Pack.SentCountAtStop | package.go:349-361 | a write that stops at a member counts the members before it and 1 or 3 bytes of that member |
| Pack.DecodeFrame | package.go:155-176 | a successful parse consumed exactly the header and the declared payload, and the header read is the encoding of the one returned; under six bytes fails with a read error |
| Pack.DecodeFrameFailures | package.go:155-176 | with six bytes present: a wrong trailer fails with the header bytes and leaves the rest; a short payload fails with a read error and leaves nothing; a payload that does not decode fails with the decoder's error and leaves the bytes after it |
| Pack.ParsePackage | package.go:155-176 | the stream is left as DecodeFrame says; errors are passed through unchanged; on success a new package carries the parsed id, the declared size and the decoded table |
| Pack.FrameRoundTrip | package.go:309-366 | what Write sends for a nil-free table, followed by any bytes, parses back to the same id, the declared size and the same table, leaving exactly the following bytes |
| Pack.NilMemberDesync | package.go:316-320 | a table holding one nil member declares size 0 yet sends three member bytes, which the parser leaves in the stream after returning an empty table |
| Scenario.ThreeSize | package_test.go:90 | the declared size of the three-member table is the sum of the value lengths plus 9 |
| Scenario.TestStringsSize | package_test.go:78-90 | the test's values "AString", "BString", "CString" declare 30 bytes |
| Scenario.BuildThree | package_test.go:91-161 | the package over the three values answers Member, AMember, BMember, CMember, TwoMembers and ThreeMembers with those values |
| Scenario.ThreeFrame | package_test.go:174-178 | the frame of the three-member table is the header plus the sum of the value lengths plus 9 |
| Scenario.WriteAll | package_test.go:168-179 | Write into an empty buffer with room for the frame succeeds, counts the frame's length, and leaves exactly the frame in the buffer |
| Scenario.SendThree | package_test.go:165-179 | the test's writing half: ThreeMembers returns the values, and Write succeeds, counts header + declared size and sends exactly the frame |
| Scenario.SendAndParse | package_test.go:76-188 | for any three values that fit: ThreeMembers returns them, Write succeeds with count header + declared size, and the parsed package has the same id, that size and the same table |

## Left out

- Logging (`InitPackageLog`, `Dump`) and printing (`DumpStdout`): output only, no effect on a package or a stream.
- `ParsePackageForHtml` and `ParsePackageForHtmlRequest`: HTTP adapters around the member parser, outside the codec.
- `Members`: it returns a pointer to the table, so callers can alias it. The model keeps the table as a value field and has no pointer identity, so the test's identity checks become value equality.
- Pack.Package.Write: the branch for a package with no table at all (package.go:312-313) is not modelled. Every modelled package has a table, and in the source that branch panics at the member loop anyway.
- Pack.Package.WriteMember: the error check on `binary.Write` into a fresh bytes.Buffer (package.go:345-348) is left out, because that write cannot fail. The "not 16bit" check (package.go:353-355) is a dead branch in the model: a writer that reports no error has taken both bytes.
- Head.HeadBytes: the error results of `binary.Write` (package.go:370-381) are left out, because writing into a bytes.Buffer cannot fail. The function returns the bytes alone.
- Pack.Writer and Pack.Reader: stand in for io.Writer and io.Reader. Writers that break the io.Writer contract, readers that deliver data in several pieces, and stream errors other than end of stream are not modelled. In particular a writer that rejects the key byte and then accepts the rest (package.go:338) is not modelled: in the source that drops the key, yet Write reports success and counts it.
- Error values are structured (`HeadMismatch(bytes)`, `MissingMember(key)`, `SizeOverflow(size)`, ...) instead of formatted message strings.
- Go strings are passed as their byte sequences.
