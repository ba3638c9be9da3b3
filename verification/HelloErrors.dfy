/** Which records are accepted, and what the two errors say of the others. */
module HelloErrors {
  import opened Wrappers
  import opened Sequences
  import opened Bytes
  import opened Cursors
  import opened Hellos
  import opened HelloLaws

  // ---------------------------------------------------------------- the accepted records

  /** What may follow the fields of a hello: nothing, or a block of extensions and whatever
      lies behind it. */
  ghost predicate WrittenTail(tail: seq<Byte>) {
    tail == [] || exists list, ignored ::
      AllSized(list) && |EncodeExtensions(list)| < 0x1_0000 && tail == Encode16(EncodeExtensions(list)) + ignored
  }

  ghost predicate WrittenHello(hello: seq<Byte>) {
    exists o: Outer, tail :: o.Sized() && WrittenTail(tail) && hello == o.Front() + tail
  }

  /** The handshake message that carries a hello, and whatever lies behind the hello in it. */
  function MessageOf(hello: seq<Byte>, ignored: seq<Byte>): seq<Byte>
    requires |hello| < 0x100_0000
  {
    [0x01] + Word24(|hello|) + hello + ignored
  }

  /** The record carries this hello. */
  ghost predicate Carries(record: seq<Byte>, hello: seq<Byte>) {
    && |hello| < 0x100_0000
    && exists version, inner, behind ::
         |version| == 2 && |MessageOf(hello, inner)| < 0x1_0000
         && record == [0x16] + version + Encode16(MessageOf(hello, inner)) + behind
  }

  lemma TailExact(tail: seq<Byte>)
    ensures (Block(tail).Some? && Extensions(Block(tail).value).Some?) <==> WrittenTail(tail)
  {
    if tail == [] {
      assert Extensions([]) == Some([]);
    } else {
      if Block(tail).Some? && Extensions(Block(tail).value).Some? {
        var c := Block16(tail).value;
        var list := Extensions(c.head).value;
        ExtensionsExact(c.head, list);
        Block16Exact(tail, c.head, c.tail);
        assert tail == Encode16(EncodeExtensions(list)) + c.tail;
      }
      if WrittenTail(tail) {
        var list, ignored :| AllSized(list) && |EncodeExtensions(list)| < 0x1_0000
                             && tail == Encode16(EncodeExtensions(list)) + ignored;
        Block16Reads(EncodeExtensions(list), ignored);
        ExtensionsExact(EncodeExtensions(list), list);
      }
    }
  }

  lemma HelloExact(hello: seq<Byte>)
    ensures FrameBody(hello).Ok? <==> WrittenHello(hello)
  {
    if FrameBody(hello).Ok? {
      var o := HeadWritten(hello);
      TailExact(HeadOf(hello).value.tail);
    }
    if WrittenHello(hello) {
      var o: Outer, tail :| o.Sized() && WrittenTail(tail) && hello == o.Front() + tail;
      HeadReads(o, tail);
      TailExact(tail);
    }
  }

  lemma MessageExact(message: seq<Byte>, hello: seq<Byte>)
    ensures OpenMessage(message) == Ok(hello)
            <==> |hello| < 0x100_0000 && exists ignored :: message == MessageOf(hello, ignored)
  {
    if OpenMessage(message) == Ok(hello) {
      var ignored := message[4..][|hello|..];
      FrontIs(message);
      SplitAt(message, 4);
      SplitAt(message[4..], |hello|);
      Associate([0x01] + Word24(|hello|), hello, ignored);
      assert message == MessageOf(hello, ignored);
    }
    if |hello| < 0x100_0000 && exists ignored :: message == MessageOf(hello, ignored) {
      var ignored :| message == MessageOf(hello, ignored);
      MessageOpens(hello, ignored);
    }
  }

  lemma FrontIs(message: seq<Byte>)
    requires |message| >= 4 && message[0] as int == HANDSHAKE_HELLO
    ensures message[..4] == [0x01] + Word24(U24(message[1..]))
  {
    var b := message[1..];
    assert Word24(U24(b)) == [b[0], b[1], b[2]];
  }

  lemma MessageOpens(hello: seq<Byte>, ignored: seq<Byte>)
    requires |hello| < 0x100_0000
    ensures OpenMessage(MessageOf(hello, ignored)) == Ok(hello)
  {
    var message := MessageOf(hello, ignored);
    Associate([0x01] + Word24(|hello|), hello, ignored);
    assert message[1..] == Word24(|hello|) + (hello + ignored);
    assert message[4..] == hello + ignored;
    TakeReads(hello, ignored);
  }

  lemma CarriesExact(record: seq<Byte>, hello: seq<Byte>)
    ensures Contents(record) == Ok(hello) <==> Carries(record, hello)
  {
    MessageExact(Message(record), hello);
    if Contents(record) == Ok(hello) {
      var c := Block16(record[3..]).value;
      Block16Exact(record[3..], c.head, c.tail);
      var inner :| Message(record) == MessageOf(hello, inner);
      assert record == [0x16] + record[1..3] + record[3..];
      Associate([0x16] + record[1..3], Encode16(c.head), c.tail);
      assert record == [0x16] + record[1..3] + Encode16(MessageOf(hello, inner)) + c.tail;
    }
    if Carries(record, hello) {
      var version, inner, behind :| |version| == 2 && |MessageOf(hello, inner)| < 0x1_0000
                                    && record == [0x16] + version + Encode16(MessageOf(hello, inner)) + behind;
      Associate([0x16] + version, Encode16(MessageOf(hello, inner)), behind);
      ThreeApart([0x16] + version, Encode16(MessageOf(hello, inner)) + behind);
      Block16Reads(MessageOf(hello, inner), behind);
      MessageExact(MessageOf(hello, inner), hello);
    }
  }

  /** A record is accepted exactly when it carries a hello written out in full, whatever its
      versions and whatever lies behind each of its parts. */
  lemma AcceptedExact(record: seq<Byte>)
    ensures Parsed(record).Ok? <==> exists hello :: Carries(record, hello) && WrittenHello(hello)
  {
    if Parsed(record).Ok? {
      var hello := Contents(record).value;
      CarriesExact(record, hello);
      HelloExact(hello);
    }
    if hello :| Carries(record, hello) && WrittenHello(hello) {
      CarriesExact(record, hello);
      HelloExact(hello);
    }
  }

  // ---------------------------------------------------------------- the errors

  /** Where the handshake block of the record ends. */
  function BlockEnd(record: seq<Byte>): nat
    requires |record| >= 5
  {
    5 + U16(record[3..])
  }

  /** All of the handshake block is there, and it begins as a hello does. */
  predicate BeginsHello(record: seq<Byte>) {
    && |record| >= 6 && record[0] as int == RECORD_HANDSHAKE
    && 6 <= BlockEnd(record) <= |record| && record[5] as int == HANDSHAKE_HELLO
  }

  lemma MessageIs(record: seq<Byte>)
    ensures Message(record) == if |record| >= 5 && BlockEnd(record) <= |record| then record[5..BlockEnd(record)] else []
  {
    if |record| >= 5 {
      assert record[3..][2..] == record[5..];
    }
  }

  /** "Not a hello" is the answer for every record whose handshake block is not all there,
      whatever it holds. "Truncated" is the answer exactly for a block that is all there,
      begins as a hello does, and does not carry one written out in full. */
  lemma ErrorsExact(record: seq<Byte>)
    ensures Parsed(record) == Err(NotHello) <==> !BeginsHello(record)
    ensures Parsed(record) == Err(Truncated)
            <==> BeginsHello(record) && !exists hello :: Carries(record, hello) && WrittenHello(hello)
  {
    MessageIs(record);
    AcceptedExact(record);
  }

  lemma SameEnd(record: seq<Byte>, n: nat)
    requires 5 <= n <= |record|
    ensures BlockEnd(record[..n]) == BlockEnd(record)
  {
    assert record[..n][3..][..2] == record[3..][..2];
  }

  lemma CutBefore(record: seq<Byte>, n: nat)
    requires BeginsHello(record) && n < BlockEnd(record)
    ensures !BeginsHello(record[..n])
  {
    if n >= 5 {
      SameEnd(record, n);
    }
  }

  lemma CutBehind(record: seq<Byte>, n: nat)
    requires BeginsHello(record) && BlockEnd(record) <= n <= |record|
    ensures Contents(record[..n]) == Contents(record)
  {
    SameEnd(record, n);
    MessageIs(record);
    MessageIs(record[..n]);
    assert record[..n][5..BlockEnd(record)] == record[5..BlockEnd(record)];
  }

  /** An accepted record cut anywhere: up to the end of its handshake block it is "not a
      hello", and never "truncated"; from there on it is read as before. */
  lemma CutShort(record: seq<Byte>, n: nat)
    requires Parsed(record).Ok? && n <= |record|
    ensures |record| >= 5 && Parsed(record[..n]) == if n < BlockEnd(record) then Err(NotHello) else Parsed(record)
  {
    ErrorsExact(record);
    if n < BlockEnd(record) {
      CutBefore(record, n);
      ErrorsExact(record[..n]);
    } else {
      CutBehind(record, n);
    }
  }
}
