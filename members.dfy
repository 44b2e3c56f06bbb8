/** The member stream: the payload that follows the header, a run of
    type-length-value records (one key byte, a little-endian 16-bit length, that many
    value bytes), and the member table it encodes. */
module MemberStream {
  import opened Wire

  /** A member as the table stores it: a pointer to a byte slice, which may be nil. */
  datatype MemberValue = Nil | Bytes(bytes: seq<byte>)

  /** The member table: one value per key byte. */
  type MemberMap = map<byte, MemberValue>

  /** One member as it travels on the wire. */
  datatype Record = Record(key: byte, value: seq<byte>)

  /** Tables in which every value is a real byte slice. */
  ghost predicate NoNil(ms: MemberMap) {
    forall k | k in ms :: ms[k].Bytes?
  }

  /** Records whose lengths fit the 16-bit length field. */
  ghost predicate WellFormed(recs: seq<Record>) {
    forall i | 0 <= i < |recs| :: |recs[i].value| <= MaxLength
  }

  // ---------------------------------------------------------------------------
  // Encoding

  /** One record on the wire. The length goes out as a 16-bit word, so a longer value
      would have its length truncated. */
  function Tlv(r: Record): (out: seq<byte>)
    ensures |out| == 3 + |r.value|
    ensures out[0] == r.key && out[3..] == r.value
    ensures Le16Value(out[1], out[2]) == |r.value| % 0x1_0000
  {
    [r.key] + Le16(|r.value| % 0x1_0000) + r.value
  }

  /** A run of records, one after the other. */
  function Encode(recs: seq<Record>): (out: seq<byte>)
  {
    if recs == [] then [] else Tlv(recs[0]) + Encode(recs[1..])
  }

  /** Every record takes at least its three bytes of key and length, so only the empty
      run encodes to nothing. */
  lemma {:induction false} EncodeBounds(recs: seq<Record>)
    ensures |Encode(recs)| >= 3 * |recs|
    ensures Encode(recs) == [] <==> recs == []
  {
    if recs != [] {
      EncodeBounds(recs[1..]);
    }
  }

  lemma {:induction false} EncodeConcat(a: seq<Record>, b: seq<Record>)
    ensures Encode(a + b) == Encode(a) + Encode(b)
  {
    if a == [] {
      assert a + b == b;
    } else {
      assert (a + b)[1..] == a[1..] + b;
      EncodeConcat(a[1..], b);
    }
  }

  /** Encoding a run one record longer appends that record's bytes. */
  /** A single record encodes to its own bytes. */
  lemma EncodeSingle(r: Record)
    ensures Encode([r]) == Tlv(r)
  {
    assert [r][1..] == [];
    assert Encode([r]) == Tlv(r) + Encode([]);
  }

  lemma EncodeSnoc(recs: seq<Record>, r: Record)
    ensures Encode(recs + [r]) == Encode(recs) + Tlv(r)
  {
    EncodeConcat(recs, [r]);
    EncodeSingle(r);
  }

  // ---------------------------------------------------------------------------
  // Decoding

  /** The payload cut into records, as parseMembers reads it: with bytes left, read the
      key byte, then the two length bytes (a full read: EOF when none is left,
      UnexpectedEOF when one is), then check that the value fits in what remains. */
  function ParseRecords(data: seq<byte>): (r: Result<seq<Record>, Error>)
    ensures data == [] ==> r == Ok([])
    ensures r.Ok? ==> WellFormed(r.value) && 3 * |r.value| <= |data|
    ensures r.Err? ==> r.error in {EOF, UnexpectedEOF, MemberTruncated}
    decreases |data|
  {
    if |data| == 0 then Ok([])
    else if |data| < 3 then Err(ReadError(|data| - 1))
    else
      var len := Le16Value(data[1], data[2]);
      if len > |data| - 3 then Err(MemberTruncated)
      else
        match ParseRecords(data[3 + len..])
        case Err(e) => Err(e)
        case Ok(rest) => Ok([Record(data[0], data[3..3 + len])] + rest)
  }

  /** The table a run of records builds: each record inserts its key, so a later record
      with the same key overwrites an earlier one. */
  function ToMap(recs: seq<Record>): (m: MemberMap)
    ensures NoNil(m)
  {
    if recs == [] then map[]
    else map[recs[0].key := Bytes(recs[0].value)] + ToMap(recs[1..])
  }

  /** What parseMembers returns for a payload: the table of its records, or the first
      error met and no table at all. */
  function DecodeMembers(data: seq<byte>): (r: Result<MemberMap, Error>)
    ensures data == [] ==> r == Ok(map[])
    ensures r.Ok? ==> NoNil(r.value)
    ensures r.Err? ==> r.error in {EOF, UnexpectedEOF, MemberTruncated}
  {
    match ParseRecords(data)
    case Err(e) => Err(e)
    case Ok(recs) => Ok(ToMap(recs))
  }

  /** Records before a tail: the parser reads the records back, then goes on with the tail. */
  function Prepend(recs: seq<Record>, r: Result<seq<Record>, Error>): Result<seq<Record>, Error> {
    match r
    case Err(e) => Err(e)
    case Ok(rest) => Ok(recs + rest)
  }

  lemma ParseOneRecord(r: Record, tail: seq<byte>)
    requires |r.value| <= MaxLength
    ensures ParseRecords(Tlv(r) + tail) == Prepend([r], ParseRecords(tail))
  {
    var data := Tlv(r) + tail;
    var len := |r.value|;
    assert data[0] == r.key;
    assert Le16Value(data[1], data[2]) == len;
    assert data[3..3 + len] == r.value;
    assert data[3 + len..] == tail;
  }

  lemma PrependPrepend(a: seq<Record>, b: seq<Record>, r: Result<seq<Record>, Error>)
    ensures Prepend(a, Prepend(b, r)) == Prepend(a + b, r)
  {
    if r.Ok? {
      assert a + (b + r.value) == (a + b) + r.value;
    }
  }

  /** Well-formed records in front of any tail are read back one by one, after which
      the parser carries on with the tail. */
  lemma {:induction false} ParsePrefix(recs: seq<Record>, tail: seq<byte>)
    requires WellFormed(recs)
    ensures ParseRecords(Encode(recs) + tail) == Prepend(recs, ParseRecords(tail))
  {
    if recs == [] {
      assert Encode(recs) + tail == tail;
      if ParseRecords(tail).Ok? {
        assert recs + ParseRecords(tail).value == ParseRecords(tail).value;
      }
    } else {
      var rest := recs[1..];
      var x := Encode(rest) + tail;
      assert WellFormed(rest);
      ParsePrefix(rest, tail);
      assert Encode(recs) + tail == Tlv(recs[0]) + x;
      ParseOneRecord(recs[0], x);
      PrependPrepend([recs[0]], rest, ParseRecords(tail));
      assert [recs[0]] + rest == recs;
    }
  }

  /** Round trip at the record level: well-formed records are read back exactly. */
  lemma ParseOfEncode(recs: seq<Record>)
    requires WellFormed(recs)
    ensures ParseRecords(Encode(recs)) == Ok(recs)
  {
    ParsePrefix(recs, []);
    assert Encode(recs) + [] == Encode(recs);
    assert recs + [] == recs;
  }

  /** And the other way round: whatever the parser accepts is a run of well-formed
      records, re-encoded byte for byte. */
  lemma {:induction false} EncodeOfParse(data: seq<byte>)
    requires ParseRecords(data).Ok?
    ensures WellFormed(ParseRecords(data).value)
    ensures Encode(ParseRecords(data).value) == data
    decreases |data|
  {
    if |data| > 0 {
      var len := Le16Value(data[1], data[2]);
      var tail := data[3 + len..];
      var r := Record(data[0], data[3..3 + len]);
      ParseStep(data);
      EncodeOfParse(tail);
      var rest := ParseRecords(tail).value;
      assert ParseRecords(data).value == [r] + rest;
      TlvOfParsed(data);
      EncodeConcat([r], rest);
      EncodeSingle(r);
    }
  }

  /** The bytes of a complete first member are the encoding of the record read from them. */
  lemma TlvOfParsed(data: seq<byte>)
    requires |data| >= 3 && Le16Value(data[1], data[2]) <= |data| - 3
    ensures var len := Le16Value(data[1], data[2]);
      data == Tlv(Record(data[0], data[3..3 + len])) + data[3 + len..]
  {
    var len := Le16Value(data[1], data[2]);
    var value := data[3..3 + len];
    assert Tlv(Record(data[0], value)) == [data[0]] + [data[1], data[2]] + value by {
      Le16OfValue(data[1], data[2]);
      assert |value| % 0x1_0000 == len;
    }
    assert data == [data[0]] + [data[1], data[2]] + value + data[3 + len..];
  }

  /** One step of the parser on a payload whose first member is complete. */
  lemma ParseStep(data: seq<byte>)
    requires |data| >= 3 && Le16Value(data[1], data[2]) <= |data| - 3
    ensures ParseRecords(data)
         == Prepend([Record(data[0], data[3..3 + Le16Value(data[1], data[2])])],
                    ParseRecords(data[3 + Le16Value(data[1], data[2])..]))
  {
  }

  /** A payload made of complete members decodes to the table of those members. */
  lemma DecodeOfEncode(recs: seq<Record>)
    requires WellFormed(recs)
    ensures DecodeMembers(Encode(recs)) == Ok(ToMap(recs))
  {
    ParseOfEncode(recs);
  }

  /** Truncation: after complete members, a member whose announced length exceeds the
      bytes that follow makes the whole decode fail. */
  lemma DecodeOverrun(recs: seq<Record>, key: byte, lo: byte, hi: byte, tail: seq<byte>)
    requires WellFormed(recs)
    requires Le16Value(lo, hi) > |tail|
    ensures DecodeMembers(Encode(recs) + ([key, lo, hi] + tail)) == Err(MemberTruncated)
  {
    ParsePrefix(recs, [key, lo, hi] + tail);
  }

  /** Truncation: after complete members, one or two stray bytes are too few for a key
      and a length; the decode fails with EOF or UnexpectedEOF. */
  lemma DecodeShortTail(recs: seq<Record>, tail: seq<byte>)
    requires WellFormed(recs)
    requires 1 <= |tail| <= 2
    ensures DecodeMembers(Encode(recs) + tail) == Err(ReadError(|tail| - 1))
  {
    ParsePrefix(recs, tail);
  }

  /** An empty payload is an empty table, not an error. */
  lemma DecodeEmpty()
    ensures DecodeMembers([]) == Ok(map[])
  {
  }

  // ---------------------------------------------------------------------------
  // The table built from records

  function KeysOf(recs: seq<Record>): set<byte> {
    set i | 0 <= i < |recs| :: recs[i].key
  }

  /** The table has a key exactly when some record carries it. */
  lemma {:induction false} ToMapKeys(recs: seq<Record>)
    ensures ToMap(recs).Keys == KeysOf(recs)
  {
    if recs != [] {
      ToMapKeys(recs[1..]);
      forall k | k in KeysOf(recs)
        ensures k in KeysOf(recs[1..]) + {recs[0].key}
      {
        var i :| 0 <= i < |recs| && recs[i].key == k;
        if i > 0 { assert recs[1..][i - 1].key == k; }
      }
      forall k | k in KeysOf(recs[1..])
        ensures k in KeysOf(recs)
      {
        var i :| 0 <= i < |recs[1..]| && recs[1..][i].key == k;
        assert recs[i + 1].key == k;
      }
    }
  }

  /** Last write wins: a key's value in the table is the value of its last record. */
  lemma {:induction false} ToMapLastWins(recs: seq<Record>, i: nat)
    requires i < |recs|
    requires forall j | i < j < |recs| :: recs[j].key != recs[i].key
    ensures recs[i].key in ToMap(recs)
    ensures ToMap(recs)[recs[i].key] == Bytes(recs[i].value)
  {
    if i == 0 {
      ToMapKeys(recs[1..]);
    } else {
      ToMapLastWins(recs[1..], i - 1);
    }
  }

  /** Inserting a record after a run updates just that record's key. */
  lemma {:induction false} ToMapSnoc(recs: seq<Record>, r: Record)
    ensures ToMap(recs + [r]) == ToMap(recs)[r.key := Bytes(r.value)]
  {
    if recs == [] {
      assert recs + [r] == [r];
    } else {
      assert (recs + [r])[1..] == recs[1..] + [r];
      ToMapSnoc(recs[1..], r);
    }
  }

  /** One turn of the parsing loop: a complete member after an encoded prefix extends
      the prefix by that member's encoding. */
  lemma ParsedMemberExtends(data: seq<byte>, done: seq<Record>, start: nat, len: nat)
    requires WellFormed(done) && start + 3 + len <= |data| && data[..start] == Encode(done)
    requires len == Le16Value(data[start + 1], data[start + 2])
    ensures var rec := Record(data[start], data[start + 3..start + 3 + len]);
      WellFormed(done + [rec]) && data[..start + 3 + len] == Encode(done + [rec])
  {
    var rec := Record(data[start], data[start + 3..start + 3 + len]);
    var chunk := data[start..start + 3 + len];
    assert Tlv(rec) == chunk by {
      assert chunk[0] == data[start] && chunk[1] == data[start + 1] && chunk[2] == data[start + 2];
      assert chunk[3..] == rec.value;
      TlvOfParsed(chunk);
      assert chunk[3 + len..] == [];
    }
    assert data[..start + 3 + len] == data[..start] + chunk;
    EncodeSnoc(done, rec);
    assert WellFormed(done + [rec]) by {
      assert |rec.value| == len;
    }
  }

  /** parseMembers: walks the payload with a cursor, reading key, length and value,
      inserting each member into a fresh table; the first short read or overrun fails
      the whole call, and no partial table is returned. */
  method ParseMembers(data: seq<byte>) returns (r: Result<MemberMap, Error>)
    ensures r == DecodeMembers(data)
  {
    var pos := 0;
    var members: MemberMap := map[];
    ghost var done: seq<Record> := [];
    while pos < |data|
      invariant 0 <= pos <= |data|
      invariant WellFormed(done)
      invariant data[..pos] == Encode(done)
      invariant members == ToMap(done)
      decreases |data| - pos
    {
      ghost var start := pos;
      assert data == Encode(done) + data[start..];
      var memberType := data[pos];
      pos := pos + 1;
      if |data| - pos < 2 {
        ParsePrefix(done, data[start..]);
        return Err(ReadError(|data| - pos));
      }
      var dataLen := Le16Value(data[pos], data[pos + 1]);
      pos := pos + 2;
      if dataLen > |data| - pos {
        ParsePrefix(done, data[start..]);
        return Err(MemberTruncated);
      }
      var member := data[pos..pos + dataLen];
      pos := pos + dataLen;
      members := members[memberType := Bytes(member)];
      ghost var rec := Record(memberType, member);
      ParsedMemberExtends(data, done, start, dataLen);
      ToMapSnoc(done, rec);
      done := done + [rec];
    }
    assert data == Encode(done);
    ParseOfEncode(done);
    return Ok(members);
  }

  // ---------------------------------------------------------------------------
  // Sizes, and the tables seen through an enumeration of their keys

  /** An enumeration of a table's keys: each key once, in some order. Go leaves the
      iteration order of a map unspecified; every property below holds for all of them. */
  ghost predicate Enumerates(order: seq<byte>, ms: MemberMap) {
    && (forall i, j | 0 <= i < j < |order| :: order[i] != order[j])
    && (forall k :: k in order <==> k in ms)
  }

  /** What the sizing loop of Write adds for a member: a nil member is skipped. */
  function SizeWeight(v: MemberValue): nat {
    match v
    case Nil => 0
    case Bytes(b) => 3 + |b|
  }

  /** The value bytes Write emits for a member: none for a nil member. */
  function ValueBytes(v: MemberValue): seq<byte> {
    match v
    case Nil => []
    case Bytes(b) => b
  }

  /** The record Write emits for key `k`. */
  function RecordOf(ms: MemberMap, k: byte): Record
    requires k in ms
  {
    Record(k, ValueBytes(ms[k]))
  }

  /** The records Write emits, following an order of the keys. */
  function RecordsOf(ms: MemberMap, order: seq<byte>): (recs: seq<Record>)
    requires forall k | k in order :: k in ms
    ensures |recs| == |order|
    ensures forall i | 0 <= i < |order| :: recs[i] == RecordOf(ms, order[i])
  {
    if order == [] then []
    else RecordsOf(ms, order[..|order| - 1]) + [RecordOf(ms, order[|order| - 1])]
  }

  /** The size the sizing loop accumulates over an order of the keys. */
  function SeqSize(ms: MemberMap, order: seq<byte>): (size: nat)
    requires forall k | k in order :: k in ms
    ensures size == 0 <==> forall i | 0 <= i < |order| :: ms[order[i]].Nil?
  {
    if order == [] then 0
    else SeqSize(ms, order[..|order| - 1]) + SizeWeight(ms[order[|order| - 1]])
  }

  /** How many nil members an order of the keys passes. */
  function NilsIn(ms: MemberMap, order: seq<byte>): nat
    requires forall k | k in order :: k in ms
  {
    if order == [] then 0
    else NilsIn(ms, order[..|order| - 1]) + (if ms[order[|order| - 1]].Nil? then 1 else 0)
  }

  /** The sizes of the members whose keys are at least `lo`, key by key. */
  function SizeFrom(ms: MemberMap, lo: nat): (size: nat)
    ensures size == 0 <==> forall k: byte | lo <= k && k in ms :: ms[k].Nil?
    decreases 0x100 - lo
  {
    if lo >= 0x100 then 0
    else (if lo in ms then SizeWeight(ms[lo]) else 0) + SizeFrom(ms, lo + 1)
  }

  /** The payload size Write declares for a table: 3 + the value length for each
      non-nil member. It does not depend on any order. */
  function DeclaredSize(ms: MemberMap): (size: nat)
    ensures size == 0 <==> forall k | k in ms :: ms[k].Nil?
  {
    SizeFrom(ms, 0)
  }

  lemma {:induction false} SizeFromRemove(ms: MemberMap, k: byte, lo: nat)
    requires k in ms
    ensures SizeFrom(ms, lo) == (if lo <= k then SizeWeight(ms[k]) else 0) + SizeFrom(ms - {k}, lo)
    decreases 0x100 - lo
  {
    if lo < 0x100 {
      SizeFromRemove(ms, k, lo + 1);
    }
  }

  lemma {:induction false} SizeFromEmpty(lo: nat)
    ensures SizeFrom(map[], lo) == 0
    decreases 0x100 - lo
  {
    if lo < 0x100 {
      SizeFromEmpty(lo + 1);
    }
  }

  lemma {:induction false} SeqSizeAgree(ms: MemberMap, ms': MemberMap, order: seq<byte>)
    requires forall k | k in order :: k in ms && k in ms' && ms[k] == ms'[k]
    ensures SeqSize(ms, order) == SeqSize(ms', order)
    ensures NilsIn(ms, order) == NilsIn(ms', order)
  {
    if order != [] {
      SeqSizeAgree(ms, ms', order[..|order| - 1]);
    }
  }

  /** The sizing loop computes the declared size whatever order the map yields. */
  lemma {:induction false} SeqSizeIsDeclared(ms: MemberMap, order: seq<byte>)
    requires Enumerates(order, ms)
    ensures SeqSize(ms, order) == DeclaredSize(ms)
  {
    if order == [] {
      assert ms == map[];
      SizeFromEmpty(0);
    } else {
      var last := order[|order| - 1];
      var init := order[..|order| - 1];
      var rest := ms - {last};
      forall k ensures k in init <==> k in rest {
        if k in init {
          var i :| 0 <= i < |init| && init[i] == k;
          assert order[i] == k;
        }
        if k in rest {
          assert k in order;
          var i :| 0 <= i < |order| && order[i] == k;
          assert i != |order| - 1;
          assert init[i] == k;
        }
      }
      SeqSizeIsDeclared(rest, init);
      SeqSizeAgree(ms, rest, init);
      SizeFromRemove(ms, last, 0);
    }
  }

  /** The emitted payload of an order of the keys: the declared size plus three bytes
      for each nil member, which the sizing loop skips but the emitting loop does not. */
  lemma {:induction false} EncodedLength(ms: MemberMap, order: seq<byte>)
    requires forall k | k in order :: k in ms
    ensures |Encode(RecordsOf(ms, order))| == SeqSize(ms, order) + 3 * NilsIn(ms, order)
  {
    if order != [] {
      var init := order[..|order| - 1];
      EncodedLength(ms, init);
      EncodeSnoc(RecordsOf(ms, init), RecordOf(ms, order[|order| - 1]));
    }
  }

  /** A table without nil members has no nil member in any order of its keys. */
  lemma {:induction false} NoNilNoNils(ms: MemberMap, order: seq<byte>)
    requires forall k | k in order :: k in ms
    requires NoNil(ms)
    ensures NilsIn(ms, order) == 0
  {
    if order != [] {
      NoNilNoNils(ms, order[..|order| - 1]);
    }
  }

  /** Every member counted by the sizing loop is at most the running total. */
  lemma {:induction false} SeqSizeBound(ms: MemberMap, order: seq<byte>, i: nat)
    requires forall k | k in order :: k in ms
    requires i < |order|
    ensures SizeWeight(ms[order[i]]) <= SeqSize(ms, order)
  {
    if i < |order| - 1 {
      SeqSizeBound(ms, order[..|order| - 1], i);
    }
  }

  /** Within the declared ceiling every emitted record fits the 16-bit length field. */
  lemma RecordsWellFormed(ms: MemberMap, order: seq<byte>)
    requires Enumerates(order, ms)
    requires DeclaredSize(ms) <= MaxLength
    ensures WellFormed(RecordsOf(ms, order))
  {
    SeqSizeIsDeclared(ms, order);
    forall i | 0 <= i < |order| ensures |RecordsOf(ms, order)[i].value| <= MaxLength {
      SeqSizeBound(ms, order, i);
    }
  }

  /** Reading back the records of a nil-free table, in any order, rebuilds the keys the
      order visits with their values. */
  lemma {:induction false} ToMapOfRecords(ms: MemberMap, order: seq<byte>)
    requires forall k | k in order :: k in ms
    requires NoNil(ms)
    ensures ToMap(RecordsOf(ms, order)) == map k | k in order :: ms[k]
  {
    if order != [] {
      var init, last := order[..|order| - 1], order[|order| - 1];
      var recs, r := RecordsOf(ms, init), RecordOf(ms, last);
      ToMapOfRecords(ms, init);
      ToMapSnoc(recs, r);
      assert RecordsOf(ms, order) == recs + [r];
      assert r.key == last && Bytes(r.value) == ms[last];
      assert order == init + [last];
      TableSnoc(ms, init, last);
    }
  }

  /** The table restricted to the keys of an order, one key longer. */
  lemma TableSnoc(ms: MemberMap, init: seq<byte>, last: byte)
    requires forall k | k in init + [last] :: k in ms
    ensures (map k | k in init :: ms[k])[last := ms[last]] == map k | k in init + [last] :: ms[k]
  {
    assert forall k :: k in init + [last] <==> k in init || k == last;
  }

  /** Reading back the records of a nil-free table in any enumeration gives the table. */
  lemma TableRoundTrip(ms: MemberMap, order: seq<byte>)
    requires Enumerates(order, ms)
    requires NoNil(ms)
    ensures ToMap(RecordsOf(ms, order)) == ms
  {
    ToMapOfRecords(ms, order);
  }
}
