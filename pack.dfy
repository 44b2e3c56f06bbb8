/** The package facade: a package object holding a message id, a declared size and a
    member table; the conventional accessors for members A, B and C; writing a package
    to a stream and parsing one from a stream. */
module Pack {
  import opened Wire
  import opened Head
  import opened MemberStream

  /** The three conventional member keys, 'A', 'B' and 'C'. */
  const MemberTypeA: byte := 0x41
  const MemberTypeB: byte := 0x42
  const MemberTypeC: byte := 0x43

  /** A destination stream: an in-memory buffer that takes at most `capacity` bytes in
      all. Like any writer, it reports an error whenever it takes fewer bytes than it is
      given. */
  class Writer {
    var data: seq<byte>
    const capacity: nat

    ghost predicate Valid()
      reads this
    {
      |data| <= capacity
    }

    constructor (capacity: nat)
      ensures Valid() && data == [] && this.capacity == capacity
    {
      data := [];
      this.capacity := capacity;
    }

    method Write(p: seq<byte>) returns (n: nat, err: Option<Error>)
      requires Valid()
      modifies this
      ensures Valid()
      ensures n == Min(|p|, capacity - |old(data)|)
      ensures data == old(data) + p[..n]
      ensures err == if n < |p| then Some(ShortWrite) else None
    {
      n := Min(|p|, capacity - |data|);
      data := data + p[..n];
      err := if n < |p| then Some(ShortWrite) else None;
    }
  }

  /** A source stream: the bytes not yet read. */
  class Reader {
    var data: seq<byte>

    constructor (data: seq<byte>)
      ensures this.data == data
    {
      this.data := data;
    }

    /** Reads exactly `count` bytes, or fails: with EOF when the stream was already
        empty, with UnexpectedEOF when it ended part way (what it had is consumed). */
    method ReadFull(count: nat) returns (r: Result<seq<byte>, Error>)
      modifies this
      ensures count <= |old(data)| ==> r == Ok(old(data)[..count]) && data == old(data)[count..]
      ensures count > |old(data)| ==> r == Err(ReadError(|old(data)|)) && data == []
    {
      if count <= |data| {
        r := Ok(data[..count]);
        data := data[count..];
      } else {
        r := Err(ReadError(|data|));
        data := [];
      }
    }
  }

  /** The bytes Write sends for a table within the size ceiling, members in the given
      order: the header declaring the table's size, then one record per member. */
  function FrameBytes(msgId: uint16, ms: MemberMap, order: seq<byte>): seq<byte>
    requires DeclaredSize(ms) <= MaxLength
    requires forall k | k in order :: k in ms
  {
    HeadBytes(Header(msgId, DeclaredSize(ms))) + Encode(RecordsOf(ms, order))
  }

  /** A frame opens with a header the parser accepts, declaring the message id and the
      table's size, and carries at least three bytes for every member. */
  lemma FrameHead(msgId: uint16, ms: MemberMap, order: seq<byte>)
    requires DeclaredSize(ms) <= MaxLength
    requires forall k | k in order :: k in ms
    ensures var frame := FrameBytes(msgId, ms, order);
      && |frame| >= HeadLen + 3 * |order|
      && ParsePackageHead(frame[..HeadLen]) == Ok(Header(msgId, DeclaredSize(ms)))
  {
    var head := HeadBytes(Header(msgId, DeclaredSize(ms)));
    HeadRoundTrip(Header(msgId, DeclaredSize(ms)));
    EncodeBounds(RecordsOf(ms, order));
    assert (head + Encode(RecordsOf(ms, order)))[..HeadLen] == head;
  }

  /** The length of what Write sends: the header, the declared size, and three more
      bytes for every nil member (sized as nothing, sent as key and zero length). */
  lemma FrameLength(msgId: uint16, ms: MemberMap, order: seq<byte>)
    requires DeclaredSize(ms) <= MaxLength
    requires Enumerates(order, ms)
    ensures |FrameBytes(msgId, ms, order)| == HeadLen + DeclaredSize(ms) + 3 * NilsIn(ms, order)
  {
    EncodedLength(ms, order);
    SeqSizeIsDeclared(ms, order);
  }

  class Package {
    var msgId: uint16
    var dataSize: uint16
    var members: MemberMap

    /** NewPackage: a package with no declared size yet; a missing table becomes an
        empty one. */
    constructor NewPackage(msgId: uint16, members: Option<MemberMap>)
      ensures this.msgId == msgId && dataSize == 0
      ensures members.Some? ==> this.members == members.value
      ensures members.None? ==> this.members == map[]
    {
      this.msgId := msgId;
      this.dataSize := 0;
      this.members := if members.Some? then members.value else map[];
    }

    /** NewPackageWithString: a package with the one member `memberType`, holding the
        bytes of `str`. */
    constructor NewPackageWithString(msgId: uint16, memberType: byte, str: seq<byte>)
      ensures this.msgId == msgId && dataSize == 0
      ensures members == map[memberType := Bytes(str)]
    {
      this.msgId := msgId;
      this.dataSize := 0;
      this.members := map[memberType := Bytes(str)];
    }

    /** NewPackageWithData: a package with the one member `memberType`, holding `data`,
        which may be nil. */
    constructor NewPackageWithData(msgId: uint16, memberType: byte, data: MemberValue)
      ensures this.msgId == msgId && dataSize == 0
      ensures members == map[memberType := data]
    {
      this.msgId := msgId;
      this.dataSize := 0;
      this.members := map[memberType := data];
    }

    /** Member: the value stored under a key, or nil, both when the key is absent and
        when it holds nil. */
    function Member(memberType: byte): (m: MemberValue)
      reads this
      ensures m.Bytes? <==> memberType in members && members[memberType].Bytes?
      ensures m.Bytes? ==> m == members[memberType]
    {
      if memberType in members then members[memberType] else Nil
    }

    method SetMembers(members: MemberMap)
      modifies this`members
      ensures this.members == members
    {
      this.members := members;
    }

    /** AddMember: stores a value under a key, replacing any earlier value; every other
        key keeps its value. */
    method AddMember(memberType: byte, member: MemberValue)
      modifies this`members
      ensures memberType in members && members[memberType] == member
      ensures forall k | k != memberType :: (k in members <==> k in old(members))
      ensures forall k | k != memberType && k in members :: members[k] == old(members)[k]
    {
      members := members[memberType := member];
    }

    /** AddStringMember: stores the bytes of a string under a key, replacing any
        earlier value; every other key keeps its value. */
    method AddStringMember(memberType: byte, str: seq<byte>)
      modifies this`members
      ensures memberType in members && members[memberType] == Bytes(str)
      ensures forall k | k != memberType :: (k in members <==> k in old(members))
      ensures forall k | k != memberType && k in members :: members[k] == old(members)[k]
    {
      members := members[memberType := Bytes(str)];
    }

    /** The lookup behind the conventional accessors: the stored value (nil included)
        when the key is present, otherwise a MissingMember error naming the key. */
    function Lookup(memberType: byte): (r: Result<MemberValue, Error>)
      reads this
      ensures r.Ok? <==> memberType in members
      ensures r.Ok? ==> r.value == members[memberType]
      ensures r.Err? ==> r.error == MissingMember(memberType)
    {
      if memberType in members then Ok(members[memberType]) else Err(MissingMember(memberType))
    }

    /** AMember: member 'A', or an error when it is absent. */
    function AMember(): (r: Result<MemberValue, Error>)
      reads this
      ensures r.Ok? <==> MemberTypeA in members
      ensures r.Ok? ==> r.value == members[MemberTypeA]
      ensures r.Err? ==> r.error == MissingMember(MemberTypeA)
    {
      Lookup(MemberTypeA)
    }

    /** BMember: member 'B', or an error when it is absent. */
    function BMember(): (r: Result<MemberValue, Error>)
      reads this
      ensures r.Ok? <==> MemberTypeB in members
      ensures r.Ok? ==> r.value == members[MemberTypeB]
      ensures r.Err? ==> r.error == MissingMember(MemberTypeB)
    {
      Lookup(MemberTypeB)
    }

    /** CMember: member 'C', or an error when it is absent. */
    function CMember(): (r: Result<MemberValue, Error>)
      reads this
      ensures r.Ok? <==> MemberTypeC in members
      ensures r.Ok? ==> r.value == members[MemberTypeC]
      ensures r.Err? ==> r.error == MissingMember(MemberTypeC)
    {
      Lookup(MemberTypeC)
    }

    /** TwoMembers: members 'A' and 'B'; checks A first and reports the first one
        missing. */
    function TwoMembers(): (r: Result<(MemberValue, MemberValue), Error>)
      reads this
      ensures r.Ok? <==> MemberTypeA in members && MemberTypeB in members
      ensures r.Ok? ==> r.value == (members[MemberTypeA], members[MemberTypeB])
      ensures MemberTypeA !in members ==> r == Err(MissingMember(MemberTypeA))
      ensures MemberTypeA in members && MemberTypeB !in members ==> r == Err(MissingMember(MemberTypeB))
    {
      match Lookup(MemberTypeA)
      case Err(e) => Err(e)
      case Ok(a) =>
        match Lookup(MemberTypeB)
        case Err(e) => Err(e)
        case Ok(b) => Ok((a, b))
    }

    /** ThreeMembers: members 'A', 'B' and 'C'; checks them in that order and reports
        the first one missing. */
    function ThreeMembers(): (r: Result<(MemberValue, MemberValue, MemberValue), Error>)
      reads this
      ensures r.Ok? <==> MemberTypeA in members && MemberTypeB in members && MemberTypeC in members
      ensures r.Ok? ==> r.value == (members[MemberTypeA], members[MemberTypeB], members[MemberTypeC])
      ensures MemberTypeA !in members ==> r == Err(MissingMember(MemberTypeA))
      ensures MemberTypeA in members && MemberTypeB !in members ==> r == Err(MissingMember(MemberTypeB))
      ensures MemberTypeA in members && MemberTypeB in members && MemberTypeC !in members
              ==> r == Err(MissingMember(MemberTypeC))
    {
      match Lookup(MemberTypeA)
      case Err(e) => Err(e)
      case Ok(a) =>
        match Lookup(MemberTypeB)
        case Err(e) => Err(e)
        case Ok(b) =>
          match Lookup(MemberTypeC)
          case Err(e) => Err(e)
          case Ok(c) => Ok((a, b, c))
    }

    /** Write: sizes the members (`sizeOrder` is the order the sizing loop meets them in),
        refuses a size above the ceiling before writing anything, records the size in
        dataSize, then sends the header and each member (`writeOrder` is the order of
        the sending loop). On success the writer received exactly FrameBytes and the
        count is its length; on a short write the writer holds the longest prefix of
        FrameBytes it could take, and the count is SentCount: nothing when the header
        did not fit, otherwise 6 for the header, plus the whole members sent, plus 1
        or 3 for the member that failed. */
    method Write(w: Writer, sizeOrder: seq<byte>, writeOrder: seq<byte>) returns (n: int, err: Option<Error>)
      requires w.Valid()
      requires Enumerates(sizeOrder, members) && Enumerates(writeOrder, members)
      modifies this`dataSize, w
      ensures w.Valid()
      ensures DeclaredSize(members) > MaxLength ==>
        && n == 0 && err == Some(SizeOverflow(DeclaredSize(members)))
        && w.data == old(w.data) && dataSize == old(dataSize)
      ensures DeclaredSize(members) <= MaxLength ==>
        var frame := FrameBytes(msgId, members, writeOrder);
        var room := w.capacity - |old(w.data)|;
        && dataSize == DeclaredSize(members)
        && w.data == old(w.data) + frame[..Min(|frame|, room)]
        && (err.None? <==> |frame| <= room)
        && (err.None? ==> n == |frame|)
        && (err.Some? ==> err == Some(ShortWrite) && 0 <= n <= room + 1)
        && (err.Some? && room < HeadLen ==> n == 0)
        && (err.Some? && HeadLen <= room ==> n == SentCount(HeadLen, RecordsOf(members, writeOrder), room))
    {
      var size := SizeMembers(sizeOrder);
      if size > MaxLength {
        return 0, Some(SizeOverflow(size));
      }
      dataSize := size;
      n, err := SendFrame(w, writeOrder, old(w.data));
    }

    /** The sizing loop of Write: 3 + length for each non-nil member, met in
        `sizeOrder`; the total is the declared size of the table. */
    method SizeMembers(sizeOrder: seq<byte>) returns (size: nat)
      requires Enumerates(sizeOrder, members)
      ensures size == DeclaredSize(members)
    {
      size := 0;
      var i := 0;
      while i < |sizeOrder|
        invariant 0 <= i <= |sizeOrder|
        invariant size == SeqSize(members, sizeOrder[..i])
      {
        var member := members[sizeOrder[i]];
        if member.Bytes? {
          size := size + 3 + |member.bytes|;
        }
        assert sizeOrder[..i + 1][..i] == sizeOrder[..i];
        i := i + 1;
      }
      assert sizeOrder[..i] == sizeOrder;
      SeqSizeIsDeclared(members, sizeOrder);
    }

    /** The sending half of Write, once dataSize holds the declared size: the header,
        then the members in `writeOrder`, after the bytes `base` the writer already
        held. */
    method SendFrame(w: Writer, writeOrder: seq<byte>, ghost base: seq<byte>)
      returns (n: int, err: Option<Error>)
      requires w.Valid() && w.data == base
      requires forall k | k in writeOrder :: k in members
      requires DeclaredSize(members) <= MaxLength && dataSize == DeclaredSize(members)
      modifies w
      ensures w.Valid()
      ensures var frame := FrameBytes(msgId, members, writeOrder);
        var room := w.capacity - |base|;
        && w.data == base + frame[..Min(|frame|, room)]
        && (err.None? <==> |frame| <= room)
        && (err.None? ==> n == |frame|)
        && (err.Some? ==> err == Some(ShortWrite) && 0 <= n <= room + 1)
        && (err.Some? && room < HeadLen ==> n == 0)
        && (err.Some? && HeadLen <= room ==> n == SentCount(HeadLen, RecordsOf(members, writeOrder), room))
    {
      ghost var room := w.capacity - |base|;
      ghost var frame := FrameBytes(msgId, members, writeOrder);
      var headData := HeadBytes(Header(msgId, dataSize));
      var tn;
      tn, err := w.Write(headData);
      ChunkWrite(frame, base, base, 0, headData, tn, room);
      if err.Some? {
        assert room < HeadLen;
        return 0, err;
      }
      assert tn == HeadLen <= room;
      n, err := WriteMembers(w, writeOrder, HeadLen, headData, RecordsOf(members, writeOrder), frame, base);
      SentCountBounds(HeadLen, RecordsOf(members, writeOrder), room);
    }

    /** The sending loop of Write: after the first `start` bytes of `frame` (the
        header), each member in `writeOrder` goes out in turn; the first short write
        ends the loop. */
    method WriteMembers(w: Writer, writeOrder: seq<byte>, start: nat, ghost head: seq<byte>,
                        ghost recs: seq<Record>, ghost frame: seq<byte>, ghost base: seq<byte>)
      returns (n: int, err: Option<Error>)
      requires w.Valid()
      requires forall k | k in writeOrder :: k in members
      requires recs == RecordsOf(members, writeOrder)
      requires |head| == start && frame == head + Encode(recs)
      requires start <= |frame| && start <= w.capacity - |base| && w.data == base + frame[..start]
      modifies w
      ensures w.Valid()
      ensures var room := w.capacity - |base|;
        && w.data == base + frame[..Min(|frame|, room)]
        && (err.None? <==> |frame| <= room)
        && (err.None? ==> n == |frame|)
        && n == SentCount(start, recs, room)
        && (err.Some? ==> err == Some(ShortWrite))
    {
      ghost var room := w.capacity - |base|;
      n, err := start, None;
      var i := 0;
      while i < |writeOrder|
        invariant 0 <= i <= |writeOrder|
        invariant w.Valid() && w.capacity - |base| == room && err.None?
        invariant n == start + |Encode(recs[..i])|
        invariant n <= room && n <= |frame|
        invariant w.data == base + frame[..n]
      {
        var memberType := writeOrder[i];
        var member := members[memberType];
        assert recs[i] == Record(memberType, ValueBytes(member));
        var count;
        count, err := SendMember(w, memberType, member, head, recs, i, frame, base, n);
        if err.Some? {
          n := n + count;
          return;
        }
        n := n + count;
        i := i + 1;
      }
      assert recs[..i] == recs;
      assert w.data == base + frame;
      SentCountWhole(start, recs, room, n);
    }

    /** One turn of the sending loop, placed in the frame: the writer held the header and
        the first `i` records; it now holds the frame up to the end of record `i`, or, on a
        short write, as much of the frame as fits, and the count is that of a write that
        stopped at record `i`. */
    method SendMember(w: Writer, memberType: byte, member: MemberValue, ghost head: seq<byte>,
                      ghost recs: seq<Record>, ghost i: nat, ghost frame: seq<byte>,
                      ghost base: seq<byte>, ghost pos: nat)
      returns (count: int, err: Option<Error>)
      requires w.Valid() && i < |recs| && recs[i] == Record(memberType, ValueBytes(member))
      requires frame == head + Encode(recs) && pos == |head| + |Encode(recs[..i])|
      requires pos <= w.capacity - |base| && pos <= |frame| && w.data == base + frame[..pos]
      modifies w
      ensures w.Valid()
      ensures var room := w.capacity - |base|;
        && (err.None? ==> pos + count == |head| + |Encode(recs[..i + 1])| <= room
                          && pos + count <= |frame| && w.data == base + frame[..pos + count])
        && (err.Some? ==> err == Some(ShortWrite) && 3 + |recs[i].value| > room - pos
                          && count == (if room - pos < 3 then 1 else 3)
                          && pos + count == SentCount(|head|, recs, room)
                          && |frame| > room && w.data == base + frame[..Min(|frame|, room)])
    {
      ghost var room := w.capacity - |base|;
      ghost var data0 := w.data;
      count, err := WriteMember(w, memberType, member);
      MemberStep(head, recs, i, frame, pos, base, data0, w.data, room);
      if err.Some? {
        SentCountAtStop(|head|, recs, i, room, pos);
      }
    }

    /** One turn of the sending loop: the key byte, whose write is not checked but is
        counted; the length as a 16-bit word (0 for a nil member), failing on a short
        write; and the value, when non-empty, failing on a short write. The writer takes
        the longest prefix of the member's record it can; the count is the whole record
        on success, and on failure 1 (the key) when the length did not fit, or 3 (key
        and length) when the value did not; a value written in part is not counted. */
    method WriteMember(w: Writer, memberType: byte, member: MemberValue) returns (n: int, err: Option<Error>)
      requires w.Valid()
      modifies w
      ensures w.Valid()
      ensures var tlv := Tlv(Record(memberType, ValueBytes(member)));
        var free := w.capacity - |old(w.data)|;
        && w.data == old(w.data) + tlv[..Min(|tlv|, free)]
        && (err.None? <==> |tlv| <= free)
        && (err.None? ==> n == |tlv|)
        && (err.Some? ==> err == Some(ShortWrite) && n == (if free < 3 then 1 else 3))
    {
      ghost var tlv := Tlv(Record(memberType, ValueBytes(member)));
      ghost var base := w.data;
      ghost var free := w.capacity - |base|;
      var keyWritten, keyErr := w.Write([memberType]);
      ChunkWrite(tlv, base, base, 0, [memberType], keyWritten, free);
      n := 1;
      var memberLen := 0;
      if member.Bytes? {
        memberLen := |member.bytes|;
      }
      ghost var data1 := w.data;
      var tn;
      tn, err := w.Write(Le16(memberLen % 0x1_0000));
      if keyWritten == 1 {
        ChunkWrite(tlv, base, data1, 1, Le16(memberLen % 0x1_0000), tn, free);
      } else {
        assert Le16(memberLen % 0x1_0000)[..0] == [];
      }
      if err.Some? {
        return;
      }
      if tn != 2 {
        assert false;
      }
      n := n + tn;
      if memberLen > 0 {
        ghost var data2 := w.data;
        tn, err := w.Write(member.bytes);
        ChunkWrite(tlv, base, data2, 3, member.bytes, tn, free);
        if err.Some? {
          return;
        }
        n := n + tn;
      } else {
        assert tlv[..3] == tlv;
      }
    }
  }

  /** A package as the parser hands it back: the header read and the members decoded. */
  datatype Decoded = Decoded(head: Header, members: MemberMap)

  /** The outcome of parsing a package from a stream, with the bytes left unread. */
  datatype ReadOutcome = ReadOutcome(result: Result<Decoded, Error>, rest: seq<byte>)

  /** What ParsePackage does to a stream holding `input`: a full read of the six header
      bytes, the trailer check, a full read of exactly the declared number of payload
      bytes, then the member decode. The first failure ends the parse with no package. */
  function DecodeFrame(input: seq<byte>): (r: ReadOutcome)
    ensures |input| < HeadLen ==> r == ReadOutcome(Err(ReadError(|input|)), [])
    ensures r.result.Ok? ==>
      && |input| >= HeadLen + r.result.value.head.dataSize
      && input[..HeadLen] == HeadBytes(r.result.value.head)
      && r.rest == input[HeadLen + r.result.value.head.dataSize..]
  {
    if |input| < HeadLen then ReadOutcome(Err(ReadError(|input|)), [])
    else
      var afterHead := input[HeadLen..];
      match ParsePackageHead(input[..HeadLen])
      case Err(e) => ReadOutcome(Err(e), afterHead)
      case Ok(h) =>
        HeadBytesOfParsed(input[..HeadLen]);
        if |afterHead| < h.dataSize then ReadOutcome(Err(ReadError(|afterHead|)), [])
        else
          match DecodeMembers(afterHead[..h.dataSize])
          case Err(e) => ReadOutcome(Err(e), afterHead[h.dataSize..])
          case Ok(ms) => ReadOutcome(Ok(Decoded(h, ms)), afterHead[h.dataSize..])
  }

  /** The failure paths of a parse once six bytes were there: a wrong trailer fails
      with the header bytes and leaves the stream after them; a payload shorter than
      declared fails with a read error and leaves nothing; a payload that does not
      decode fails with the decoder's error and leaves the stream after the payload. */
  lemma DecodeFrameFailures(input: seq<byte>)
    requires |input| >= HeadLen
    ensures !(input[4] == HeadTail1 && input[5] == HeadTail2) ==>
      DecodeFrame(input) == ReadOutcome(Err(HeadMismatch(input[..HeadLen])), input[HeadLen..])
    ensures var head := ParsePackageHead(input[..HeadLen]);
      head.Ok? && |input| < HeadLen + head.value.dataSize ==>
      DecodeFrame(input) == ReadOutcome(Err(ReadError(|input| - HeadLen)), [])
    ensures var head := ParsePackageHead(input[..HeadLen]);
      head.Ok? && |input| >= HeadLen + head.value.dataSize ==>
      var payload := input[HeadLen..HeadLen + head.value.dataSize];
      DecodeMembers(payload).Err? ==>
      DecodeFrame(input)
        == ReadOutcome(Err(DecodeMembers(payload).error), input[HeadLen + head.value.dataSize..])
  {
    var rest := input[HeadLen..];
    var head := ParsePackageHead(input[..HeadLen]);
    if head.Ok? && |input| >= HeadLen + head.value.dataSize {
      assert rest[..head.value.dataSize] == input[HeadLen..HeadLen + head.value.dataSize];
      assert rest[head.value.dataSize..] == input[HeadLen + head.value.dataSize..];
    }
  }

  /** ParsePackage: reads a header, then exactly the payload it declares, and decodes
      the members; the package keeps the declared size it read. */
  method ParsePackage(reader: Reader) returns (r: Result<Package, Error>)
    modifies reader
    ensures reader.data == DecodeFrame(old(reader.data)).rest
    ensures DecodeFrame(old(reader.data)).result.Err? ==>
      r == Err(DecodeFrame(old(reader.data)).result.error)
    ensures DecodeFrame(old(reader.data)).result.Ok? ==>
      && r.Ok? && fresh(r.value)
      && r.value.msgId == DecodeFrame(old(reader.data)).result.value.head.msgId
      && r.value.dataSize == DecodeFrame(old(reader.data)).result.value.head.dataSize
      && r.value.members == DecodeFrame(old(reader.data)).result.value.members
  {
    var head := reader.ReadFull(HeadLen);
    if head.Err? {
      return Err(head.error);
    }
    var parsed := ParsePackageHead(head.value);
    if parsed.Err? {
      return Err(parsed.error);
    }
    var data := reader.ReadFull(parsed.value.dataSize);
    if data.Err? {
      return Err(data.error);
    }
    var members := ParseMembers(data.value);
    if members.Err? {
      return Err(members.error);
    }
    var pack := new Package.NewPackage(parsed.value.msgId, Some(members.value));
    pack.dataSize := parsed.value.dataSize;
    return Ok(pack);
  }

  /** The round trip: the bytes Write sends for a nil-free table within the ceiling,
      in any order of its keys and followed by anything, parse back to the same message
      id, the declared size, and the same table; the parser stops right after them. */
  lemma FrameRoundTrip(msgId: uint16, ms: MemberMap, order: seq<byte>, tail: seq<byte>)
    requires NoNil(ms) && Enumerates(order, ms) && DeclaredSize(ms) <= MaxLength
    ensures DecodeFrame(FrameBytes(msgId, ms, order) + tail)
         == ReadOutcome(Ok(Decoded(Header(msgId, DeclaredSize(ms)), ms)), tail)
  {
    var h := Header(msgId, DeclaredSize(ms));
    var recs := RecordsOf(ms, order);
    var payload := Encode(recs);
    assert |payload| == h.dataSize by {
      EncodedLength(ms, order);
      NoNilNoNils(ms, order);
      SeqSizeIsDeclared(ms, order);
    }
    assert DecodeMembers(payload) == Ok(ms) by {
      RecordsWellFormed(ms, order);
      DecodeOfEncode(recs);
      TableRoundTrip(ms, order);
    }
    DecodeFrameOfParts(h, payload, tail, ms);
  }

  /** A header followed by exactly the payload it declares, where that payload decodes
      to a table, parses to that header and table and leaves what follows. */
  lemma DecodeFrameOfParts(h: Header, payload: seq<byte>, tail: seq<byte>, ms: MemberMap)
    requires |payload| == h.dataSize && DecodeMembers(payload) == Ok(ms)
    ensures DecodeFrame(HeadBytes(h) + payload + tail) == ReadOutcome(Ok(Decoded(h, ms)), tail)
  {
    var input := HeadBytes(h) + payload + tail;
    assert input[..HeadLen] == HeadBytes(h);
    HeadRoundTrip(h);
    assert input[HeadLen..] == payload + tail;
    assert (payload + tail)[..h.dataSize] == payload;
    assert (payload + tail)[h.dataSize..] == tail;
  }

  /** A nil member desynchronises the stream: Write declares a size of 0 for a table
      holding one nil member, but still sends its key with a zero length, so the parser
      returns an empty table and leaves those three bytes to be read as the start of the
      next package. */
  lemma NilMemberDesync(msgId: uint16, key: byte)
    ensures DeclaredSize(map[key := Nil]) == 0
    ensures FrameBytes(msgId, map[key := Nil], [key]) == HeadBytes(Header(msgId, 0)) + [key, 0, 0]
    ensures DecodeFrame(FrameBytes(msgId, map[key := Nil], [key]))
         == ReadOutcome(Ok(Decoded(Header(msgId, 0), map[])), [key, 0, 0])
  {
    NilFrame(msgId, key);
    NilDecode(msgId, key);
  }

  lemma NilDecode(msgId: uint16, key: byte)
    ensures DecodeFrame(HeadBytes(Header(msgId, 0)) + [key, 0, 0])
         == ReadOutcome(Ok(Decoded(Header(msgId, 0), map[])), [key, 0, 0])
  {
    EmptyDecode(Header(msgId, 0), [key, 0, 0]);
  }

  /** A header declaring nothing parses to an empty table and leaves whatever follows
      it unread. */
  lemma EmptyDecode(h: Header, tail: seq<byte>)
    requires h.dataSize == 0
    ensures DecodeFrame(HeadBytes(h) + tail) == ReadOutcome(Ok(Decoded(h, map[])), tail)
  {
    HeadThenRest(h, tail);
    EmptyPayload(HeadBytes(h) + tail, h);
  }

  /** The header's bytes at the front of a stream parse back to the header and leave the
      rest of the stream after them. */
  lemma HeadThenRest(h: Header, tail: seq<byte>)
    ensures var input := HeadBytes(h) + tail;
      && |input| >= HeadLen && ParsePackageHead(input[..HeadLen]) == Ok(h)
      && input[HeadLen..] == tail
  {
    var input := HeadBytes(h) + tail;
    assert input[..HeadLen] == HeadBytes(h);
    HeadRoundTrip(h);
  }

  lemma EmptyPayload(input: seq<byte>, h: Header)
    requires |input| >= HeadLen && ParsePackageHead(input[..HeadLen]) == Ok(h) && h.dataSize == 0
    ensures DecodeFrame(input) == ReadOutcome(Ok(Decoded(h, map[])), input[HeadLen..])
  {
    var rest := input[HeadLen..];
    assert rest[..0] == [] && rest[0..] == rest;
    DecodeEmpty();
  }

  /** The frame of a table whose one member is nil: a header declaring nothing, then
      the member's key and a zero length. */
  lemma NilFrame(msgId: uint16, key: byte)
    ensures DeclaredSize(map[key := Nil]) == 0
    ensures FrameBytes(msgId, map[key := Nil], [key]) == HeadBytes(Header(msgId, 0)) + [key, 0, 0]
  {
    NilDeclared(key);
    NilEncoded(key);
  }

  lemma NilDeclared(key: byte)
    ensures DeclaredSize(map[key := Nil]) == 0
  {
    SeqSizeIsDeclared(map[key := Nil], [key]);
    assert [key][..0] == [];
  }

  lemma NilEncoded(key: byte)
    ensures Encode(RecordsOf(map[key := Nil], [key])) == [key, 0, 0]
  {
    NilRecords(key);
    NilTlv(key);
    EncodeSingle(Record(key, []));
  }

  lemma NilRecords(key: byte)
    ensures RecordsOf(map[key := Nil], [key]) == [Record(key, [])]
  {
  }

  lemma NilTlv(key: byte)
    ensures Tlv(Record(key, [])) == [key, 0, 0]
  {
    assert Le16(0) == [0, 0];
  }

  /** The count Write reports once the bytes before `pos` have gone out and `recs`
      are still to send, with `room` bytes free at the start: every whole record sent
      is counted; for the first record that does not fit, its key is counted, and its
      length too when the length fitted, but none of its value. */
  function SentCount(pos: nat, recs: seq<Record>, room: nat): nat
    requires pos <= room
    decreases |recs|
  {
    if recs == [] then pos
    else if 3 + |recs[0].value| <= room - pos then SentCount(pos + 3 + |recs[0].value|, recs[1..], room)
    else pos + (if room - pos < 3 then 1 else 3)
  }

  /** When everything fits, the count is everything sent; otherwise it is more than
      what was sent before and at most one more than the room (the key of the record
      that did not fit is counted even when the writer had no room left for it). */
  lemma {:induction false} SentCountBounds(pos: nat, recs: seq<Record>, room: nat)
    requires pos <= room
    ensures pos + |Encode(recs)| <= room ==> SentCount(pos, recs, room) == pos + |Encode(recs)|
    ensures pos + |Encode(recs)| > room ==> pos < SentCount(pos, recs, room) <= room + 1
    decreases |recs|
  {
    if recs != [] && 3 + |recs[0].value| <= room - pos {
      SentCountBounds(pos + 3 + |recs[0].value|, recs[1..], room);
    }
  }

  /** The length of the encoding of `recs`, from the value lengths alone. It is the
      same number as |Encode(recs)| (SpanIsLength), but it does not unfold Tlv and its
      little-endian arithmetic, which keeps the proofs about SentCount within the
      solver's budget. */
  function Span(recs: seq<Record>): nat
  {
    if recs == [] then 0 else 3 + |recs[0].value| + Span(recs[1..])
  }

  lemma {:induction false} SpanIsLength(recs: seq<Record>)
    ensures Span(recs) == |Encode(recs)|
  {
    if recs != [] {
      SpanIsLength(recs[1..]);
    }
  }

  /** Records that all fit are counted whole: the count over them and what follows
      them is the count of what follows, starting after them. */
  lemma {:induction false} SentCountAfter(pos: nat, done: seq<Record>, rest: seq<Record>, room: nat)
    requires pos + Span(done) <= room
    ensures SentCount(pos, done + rest, room) == SentCount(pos + Span(done), rest, room)
    decreases |done|
  {
    if done == [] {
      assert done + rest == rest;
    } else {
      assert (done + rest)[0] == done[0] && (done + rest)[1..] == done[1..] + rest;
      SentCountAfter(pos + 3 + |done[0].value|, done[1..], rest, room);
    }
  }

  /** The count of a write that sent every record. */
  lemma SentCountWhole(start: nat, recs: seq<Record>, room: nat, pos: nat)
    requires pos == start + |Encode(recs)| && pos <= room
    ensures SentCount(start, recs, room) == pos
  {
    SentCountBounds(start, recs, room);
  }

  /** The count of a write that stopped at record `i`: the records before it went out
      whole, and of record `i` only its key, and its length when the length fitted. */
  lemma SentCountAtStop(start: nat, recs: seq<Record>, i: nat, room: nat, pos: nat)
    requires i < |recs| && pos == start + |Encode(recs[..i])| && pos <= room
    requires 3 + |recs[i].value| > room - pos
    ensures SentCount(start, recs, room) == pos + (if room - pos < 3 then 1 else 3)
  {
    SpanIsLength(recs[..i]);
    assert recs == recs[..i] + recs[i..];
    SentCountAfter(start, recs[..i], recs[i..], room);
    assert recs[i..][0] == recs[i];
  }

  /** What one turn of the sending loop does to the frame written so far: the writer,
      which held the header and the first `i` records, now holds the prefix of the
      frame extended by as much of record `i` as fitted. */
  lemma MemberStep(head: seq<byte>, recs: seq<Record>, i: nat, frame: seq<byte>, pos: nat,
                   base: seq<byte>, before: seq<byte>, after: seq<byte>, room: nat)
    requires i < |recs|
    requires frame == head + Encode(recs) && pos == |head| + |Encode(recs[..i])|
    requires pos <= room && pos <= |frame|
    requires before == base + frame[..pos]
    requires after == before + Tlv(recs[i])[..Min(|Tlv(recs[i])|, room - pos)]
    ensures pos + |Tlv(recs[i])| <= |frame|
    ensures after == base + frame[..pos + Min(|Tlv(recs[i])|, room - pos)]
    ensures |Tlv(recs[i])| <= room - pos ==> pos + |Tlv(recs[i])| == |head| + |Encode(recs[..i + 1])|
    ensures |Tlv(recs[i])| > room - pos ==> |frame| > room && Min(|frame|, room) == room
  {
    var tlv := Tlv(recs[i]);
    RecordAt(head, recs, i);
    ChunkWrite(frame, base, before, pos, tlv, Min(|tlv|, room - pos), room);
    assert recs[..i + 1] == recs[..i] + [recs[i]];
    EncodeSnoc(recs[..i], recs[i]);
  }

  /** A chunk that sits at offset `pos` of `frame`, written after the first `pos` bytes
      of the frame into a writer with `room` bytes free at the start: what the writer
      then holds is a longer prefix of the frame, and if the chunk did not fit, the
      writer is full and the frame is longer than the room. */
  lemma ChunkWrite(frame: seq<byte>, base: seq<byte>, data: seq<byte>, pos: nat, chunk: seq<byte>,
                   k: nat, room: nat)
    requires pos + |chunk| <= |frame| && frame[pos..pos + |chunk|] == chunk
    requires data == base + frame[..pos]
    requires pos <= room && k == Min(|chunk|, room - pos)
    ensures data + chunk[..k] == base + frame[..pos + k]
    ensures k < |chunk| ==> pos + k == room && |frame| > room && Min(|frame|, room) == room
  {
    assert frame[..pos + k] == frame[..pos] + chunk[..k];
  }

  /** Within a frame, the bytes of the `i`-th record follow the header and the records
      before it: key, length, value. */
  lemma RecordAt(head: seq<byte>, recs: seq<Record>, i: nat)
    requires i < |recs|
    ensures var at := |head| + |Encode(recs[..i])|;
      && at + |Tlv(recs[i])| <= |head + Encode(recs)|
      && (head + Encode(recs))[at..at + |Tlv(recs[i])|] == Tlv(recs[i])
  {
    var before, at := head + Encode(recs[..i]), Tlv(recs[i]);
    FrameSplit(head, recs, i);
    assert (head + Encode(recs))[|before|..|before| + |at|] == at;
  }

  lemma FrameSplit(head: seq<byte>, recs: seq<Record>, i: nat)
    requires i < |recs|
    ensures head + Encode(recs) == head + Encode(recs[..i]) + Tlv(recs[i]) + Encode(recs[i + 1..])
  {
    var whole, before, at, after := Encode(recs), Encode(recs[..i]), Tlv(recs[i]), Encode(recs[i + 1..]);
    EncodeSplit(recs, i);
    assert whole == before + at + after;
    Associate(head, before + at, after);
    Associate(head, before, at);
  }

  /** Concatenation regrouped, stated over plain sequences so that the frame's encoding
      terms stay out of the solver's way. */
  lemma Associate<T>(a: seq<T>, b: seq<T>, c: seq<T>)
    ensures a + (b + c) == a + b + c
  {
  }

  lemma EncodeSplit(recs: seq<Record>, i: nat)
    requires i < |recs|
    ensures Encode(recs) == Encode(recs[..i]) + Tlv(recs[i]) + Encode(recs[i + 1..])
  {
    var prefix, suffix := recs[..i], recs[i..];
    assert recs == prefix + suffix;
    EncodeConcat(prefix, suffix);
    assert Encode(suffix) == Tlv(recs[i]) + Encode(recs[i + 1..]) by {
      assert suffix[0] == recs[i] && suffix[1..] == recs[i + 1..];
    }
    Associate(Encode(prefix), Tlv(recs[i]), Encode(recs[i + 1..]));
  }
}
