/** The repository's package test as a client of the model: a package with members
    'A', 'B' and 'C' is built, read back through its accessors, written to a buffer,
    and parsed from that buffer again. */
module Scenario {
  import opened Wire
  import opened Head
  import opened MemberStream
  import opened Pack

  /** The member table of the test: three byte strings under the conventional keys. */
  function Three(a: seq<byte>, b: seq<byte>, c: seq<byte>): MemberMap {
    map[MemberTypeA := Bytes(a), MemberTypeB := Bytes(b), MemberTypeC := Bytes(c)]
  }

  /** The declared size of the three-member table is the sum of its value lengths plus
      three bytes of key and length for each member. */
  lemma ThreeSize(a: seq<byte>, b: seq<byte>, c: seq<byte>)
    ensures DeclaredSize(Three(a, b, c)) == |a| + |b| + |c| + 9
  {
    ThreeEnumerated(a, b, c);
    ThreeSeqSize(a, b, c);
    SeqSizeIsDeclared(Three(a, b, c), [MemberTypeA, MemberTypeB, MemberTypeC]);
  }

  lemma ThreeEnumerated(a: seq<byte>, b: seq<byte>, c: seq<byte>)
    ensures Enumerates([MemberTypeA, MemberTypeB, MemberTypeC], Three(a, b, c))
  {
    var ms, order := Three(a, b, c), [MemberTypeA, MemberTypeB, MemberTypeC];
    forall k ensures k in order <==> k in ms {
    }
  }

  lemma ThreeSeqSize(a: seq<byte>, b: seq<byte>, c: seq<byte>)
    ensures SeqSize(Three(a, b, c), [MemberTypeA, MemberTypeB, MemberTypeC]) == |a| + |b| + |c| + 9
  {
    var ms, order := Three(a, b, c), [MemberTypeA, MemberTypeB, MemberTypeC];
    assert order[..2] == [MemberTypeA, MemberTypeB];
    assert order[..2][..1] == [MemberTypeA];
    assert order[..2][..1][..0] == [];
    assert SeqSize(ms, [MemberTypeA]) == 3 + |a|;
    assert SeqSize(ms, [MemberTypeA, MemberTypeB]) == 6 + |a| + |b|;
  }

  /** The values of the test, "AString", "BString" and "CString", declare 30 bytes. */
  lemma TestStringsSize()
    ensures DeclaredSize(Three([0x41, 0x53, 0x74, 0x72, 0x69, 0x6E, 0x67],
                               [0x42, 0x53, 0x74, 0x72, 0x69, 0x6E, 0x67],
                               [0x43, 0x53, 0x74, 0x72, 0x69, 0x6E, 0x67])) == 30
  {
    ThreeSize([0x41, 0x53, 0x74, 0x72, 0x69, 0x6E, 0x67],
              [0x42, 0x53, 0x74, 0x72, 0x69, 0x6E, 0x67],
              [0x43, 0x53, 0x74, 0x72, 0x69, 0x6E, 0x67]);
  }

  /** The accessor half of the test: a new package over the three values answers
      Member, AMember, BMember, CMember, TwoMembers and ThreeMembers with them. */
  method BuildThree(msgId: uint16, a: seq<byte>, b: seq<byte>, c: seq<byte>)
    returns (p: Package, byKey: (MemberValue, MemberValue, MemberValue),
             single: (Result<MemberValue, Error>, Result<MemberValue, Error>, Result<MemberValue, Error>),
             two: Result<(MemberValue, MemberValue), Error>,
             three: Result<(MemberValue, MemberValue, MemberValue), Error>)
    ensures fresh(p) && p.msgId == msgId && p.members == Three(a, b, c)
    ensures byKey == (Bytes(a), Bytes(b), Bytes(c))
    ensures single == (Ok(Bytes(a)), Ok(Bytes(b)), Ok(Bytes(c)))
    ensures two == Ok((Bytes(a), Bytes(b)))
    ensures three == Ok((Bytes(a), Bytes(b), Bytes(c)))
  {
    p := new Package.NewPackage(msgId, Some(Three(a, b, c)));
    byKey := (p.Member(MemberTypeA), p.Member(MemberTypeB), p.Member(MemberTypeC));
    single := (p.AMember(), p.BMember(), p.CMember());
    two := p.TwoMembers();
    three := p.ThreeMembers();
  }

  /** The sending half of the test: Write on the new package sends exactly its frame
      and reports the header plus the declared size. */
  method SendThree(msgId: uint16, a: seq<byte>, b: seq<byte>, c: seq<byte>,
                   sizeOrder: seq<byte>, writeOrder: seq<byte>)
    returns (accessed: Result<(MemberValue, MemberValue, MemberValue), Error>,
             n: int, err: Option<Error>, sent: seq<byte>)
    requires |a| + |b| + |c| + 9 <= MaxLength
    requires Enumerates(sizeOrder, Three(a, b, c)) && Enumerates(writeOrder, Three(a, b, c))
    ensures accessed == Ok((Bytes(a), Bytes(b), Bytes(c)))
    ensures DeclaredSize(Three(a, b, c)) == |a| + |b| + |c| + 9
    ensures err == None && n == HeadLen + |a| + |b| + |c| + 9
    ensures sent == FrameBytes(msgId, Three(a, b, c), writeOrder)
  {
    var p, _, _, _, three := BuildThree(msgId, a, b, c);
    accessed := three;
    ThreeFrame(msgId, a, b, c, writeOrder);
    var w := new Writer(HeadLen + MaxLength);
    n, err := WriteAll(p, w, sizeOrder, writeOrder);
    sent := w.data;
  }

  /** Write into an empty writer with room for the whole frame: it succeeds, and the
      writer holds exactly the frame. */
  method WriteAll(p: Package, w: Writer, sizeOrder: seq<byte>, writeOrder: seq<byte>)
    returns (n: int, err: Option<Error>)
    requires w.Valid() && w.data == []
    requires Enumerates(sizeOrder, p.members) && Enumerates(writeOrder, p.members)
    requires DeclaredSize(p.members) <= MaxLength
    requires |FrameBytes(p.msgId, p.members, writeOrder)| <= w.capacity
    modifies p`dataSize, w
    ensures err == None && n == |FrameBytes(p.msgId, p.members, writeOrder)|
    ensures w.data == FrameBytes(p.msgId, p.members, writeOrder)
  {
    n, err := p.Write(w, sizeOrder, writeOrder);
  }

  /** The frame of the three-member table is the header plus the sum of the value
      lengths plus 9. */
  lemma ThreeFrame(msgId: uint16, a: seq<byte>, b: seq<byte>, c: seq<byte>, order: seq<byte>)
    requires |a| + |b| + |c| + 9 <= MaxLength
    requires Enumerates(order, Three(a, b, c))
    ensures DeclaredSize(Three(a, b, c)) == |a| + |b| + |c| + 9
    ensures |FrameBytes(msgId, Three(a, b, c), order)| == HeadLen + |a| + |b| + |c| + 9
  {
    ThreeSize(a, b, c);
    FrameLength(msgId, Three(a, b, c), order);
    NoNilNoNils(Three(a, b, c), order);
  }

  /** The test's scenario for any three values that fit: the accessors return the three
      values, Write succeeds and reports the header plus the declared size, and parsing
      the written bytes gives a package with the same message id, the declared size and
      the same members, whatever orders the two loops of Write meet the keys in. */
  method SendAndParse(msgId: uint16, a: seq<byte>, b: seq<byte>, c: seq<byte>,
                      sizeOrder: seq<byte>, writeOrder: seq<byte>)
    returns (accessed: Result<(MemberValue, MemberValue, MemberValue), Error>,
             n: int, err: Option<Error>, parsed: Result<Package, Error>)
    requires |a| + |b| + |c| + 9 <= MaxLength
    requires Enumerates(sizeOrder, Three(a, b, c)) && Enumerates(writeOrder, Three(a, b, c))
    ensures accessed == Ok((Bytes(a), Bytes(b), Bytes(c)))
    ensures err == None && n == HeadLen + |a| + |b| + |c| + 9
    ensures parsed.Ok?
    ensures parsed.value.msgId == msgId
    ensures parsed.value.dataSize == |a| + |b| + |c| + 9
    ensures parsed.value.members == Three(a, b, c)
  {
    var sent;
    accessed, n, err, sent := SendThree(msgId, a, b, c, sizeOrder, writeOrder);
    ghost var ms := Three(a, b, c);
    ghost var expected := Decoded(Header(msgId, DeclaredSize(ms)), ms);
    assert DecodeFrame(sent) == ReadOutcome(Ok(expected), []) by {
      FrameRoundTrip(msgId, ms, writeOrder, []);
      assert sent + [] == sent;
    }
    var r := new Reader(sent);
    parsed := ParsePackage(r);
  }
}
