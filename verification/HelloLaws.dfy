/** What the ClientHello parser promises: it undoes the encoding, and what an extension
    says inside never changes how the hello around it is read. */
module HelloLaws {
  import opened Wrappers
  import opened Sequences
  import opened Bytes
  import opened Cursors
  import opened Hellos

  // ---------------------------------------------------------------- encoding

  function Encode8(x: seq<Byte>): (e: seq<Byte>)
    requires |x| < 256
    ensures |e| == |x| + 1
  {
    [|x| as Byte] + x
  }

  function Encode16(x: seq<Byte>): (e: seq<Byte>)
    requires |x| < 0x1_0000
    ensures |e| == |x| + 2
  {
    Word(|x|) + x
  }

  lemma WordExact(b: seq<Byte>)
    requires |b| >= 2
    ensures Word(U16(b)) == b[..2]
  {
  }

  lemma Block8Reads(x: seq<Byte>, tail: seq<Byte>)
    requires |x| < 256
    ensures Block8(Encode8(x) + tail) == Some(Cut(x, tail))
  {
    assert (Encode8(x) + tail)[1..] == x + tail;
  }

  lemma Block16Reads(x: seq<Byte>, tail: seq<Byte>)
    requires |x| < 0x1_0000
    ensures Block16(Encode16(x) + tail) == Some(Cut(x, tail))
  {
    var b := Encode16(x) + tail;
    assert b[2..] == x + tail;
    assert b[0] == Word(|x|)[0] && b[1] == Word(|x|)[1];
  }

  /** A block is read just when it was written. */
  lemma Block16Exact(b: seq<Byte>, x: seq<Byte>, tail: seq<Byte>)
    ensures Block16(b) == Some(Cut(x, tail)) <==> |x| < 0x1_0000 && b == Encode16(x) + tail
  {
    if Block16(b) == Some(Cut(x, tail)) {
      WordExact(b);
      assert b == b[..2] + b[2..];
      Associate(Word(|x|), x, tail);
    }
    if |x| < 0x1_0000 && b == Encode16(x) + tail {
      Block16Reads(x, tail);
    }
  }

  predicate Sized(e: Extension) {
    |e.body| < 0x1_0000
  }

  function EncodeExtension(e: Extension): (b: seq<Byte>)
    requires Sized(e)
    ensures |b| == |e.body| + 4
  {
    Word(e.kind) + Encode16(e.body)
  }

  predicate AllSized(list: seq<Extension>) {
    forall i | 0 <= i < |list| :: Sized(list[i])
  }

  function EncodeExtensions(list: seq<Extension>): seq<Byte>
    requires AllSized(list)
  {
    if list == [] then [] else EncodeExtension(list[0]) + EncodeExtensions(list[1..])
  }

  /** The extension block is read as a list just when it is that list written down: nothing
      is skipped, nothing is read twice, and no inner length escapes its block. */
  lemma {:induction false} ExtensionsExact(b: seq<Byte>, list: seq<Extension>)
    ensures Extensions(b) == Some(list) <==> AllSized(list) && b == EncodeExtensions(list)
    decreases |list|
  {
    if b != [] && list != [] {
      if Extensions(b) == Some(list) {
        var c := ExtensionFirst(b, list);
        ExtensionsExact(c.tail, list[1..]);
        ExtensionRead(b, c, list);
      }
      if AllSized(list) && b == EncodeExtensions(list) {
        ExtensionWritten(b, list);
        ExtensionsExact(EncodeExtensions(list[1..]), list[1..]);
        ExtensionNext(b, Cut(list[0].body, EncodeExtensions(list[1..])), list);
      }
    }
  }

  lemma ExtensionFirst(b: seq<Byte>, list: seq<Extension>) returns (c: Cut)
    requires b != [] && Extensions(b) == Some(list) && list != []
    ensures |b| >= 2 && Block16(b[2..]) == Some(c)
    ensures Extensions(c.tail) == Some(list[1..]) && list[0] == Extension(U16(b), c.head)
  {
    c := Block16(b[2..]).value;
    assert list == [Extension(U16(b), c.head)] + Extensions(c.tail).value;
  }

  lemma ExtensionNext(b: seq<Byte>, c: Cut, list: seq<Extension>)
    requires |b| >= 2 && Block16(b[2..]) == Some(c) && list != []
    requires Extensions(c.tail) == Some(list[1..]) && list[0] == Extension(U16(b), c.head)
    ensures Extensions(b) == Some(list)
  {
    assert list == [list[0]] + list[1..];
  }

  lemma ExtensionRead(b: seq<Byte>, c: Cut, list: seq<Extension>)
    requires |b| >= 2 && Block16(b[2..]) == Some(c) && list != [] && AllSized(list[1..])
    requires list[0] == Extension(U16(b), c.head) && c.tail == EncodeExtensions(list[1..])
    ensures AllSized(list) && b == EncodeExtensions(list)
  {
    Block16Exact(b[2..], c.head, c.tail);
    WordExact(b);
    assert b == b[..2] + b[2..];
    Associate(Word(U16(b)), Encode16(c.head), c.tail);
    assert forall i | 1 <= i < |list| :: list[i] == list[1..][i - 1];
  }

  lemma ExtensionWritten(b: seq<Byte>, list: seq<Extension>)
    requires list != [] && AllSized(list) && b == EncodeExtensions(list)
    ensures |b| >= 2 && U16(b) == list[0].kind
    ensures Block16(b[2..]) == Some(Cut(list[0].body, EncodeExtensions(list[1..])))
    ensures |EncodeExtensions(list[1..])| < |b|
  {
    var rest := EncodeExtensions(list[1..]);
    Associate(Word(list[0].kind), Encode16(list[0].body), rest);
    assert b[2..] == Encode16(list[0].body) + rest;
    assert b[0] == Word(list[0].kind)[0] && b[1] == Word(list[0].kind)[1];
    Block16Reads(list[0].body, rest);
  }

  // ---------------------------------------------------------------- isolation

  /** The same extensions as far as the framing goes: other bodies of the same lengths. */
  predicate SameShape(a: seq<Extension>, b: seq<Extension>) {
    |a| == |b| && forall i | 0 <= i < |a| :: a[i].kind == b[i].kind && |a[i].body| == |b[i].body|
  }

  lemma {:induction false} SameLength(a: seq<Extension>, b: seq<Extension>)
    requires SameShape(a, b) && AllSized(a)
    ensures AllSized(b) && |EncodeExtensions(a)| == |EncodeExtensions(b)|
  {
    forall i | 0 <= i < |b|
      ensures Sized(b[i])
    {
      assert Sized(a[i]);
    }
    if a != [] {
      SameLength(a[1..], b[1..]);
    }
  }

  lemma TakeReads(x: seq<Byte>, tail: seq<Byte>)
    ensures Take(x + tail, |x|) == Some(Cut(x, tail))
  {
  }

  /** A block is read just when it was written. */
  lemma Block8Exact(b: seq<Byte>, x: seq<Byte>, tail: seq<Byte>)
    ensures Block8(b) == Some(Cut(x, tail)) <==> |x| < 256 && b == Encode8(x) + tail
  {
    if Block8(b) == Some(Cut(x, tail)) {
      assert b == [b[0]] + b[1..];
      Associate([b[0]], x, tail);
    }
    if |x| < 256 && b == Encode8(x) + tail {
      Block8Reads(x, tail);
    }
  }

  /** The fields before the extensions, as they are written. */
  datatype Outer = Outer(version: seq<Byte>, random: seq<Byte>, session: seq<Byte>, ciphers: seq<Byte>,
                         compression: seq<Byte>) {
    predicate Sized() {
      |version| == 2 && |random| == 32 && |session| < 256 && |ciphers| < 0x1_0000 && |compression| < 256
    }

    function Front(): seq<Byte>
      requires Sized()
    {
      version + random + Encode8(session) + Encode16(ciphers) + Encode8(compression)
    }
  }

  lemma FrontApart(o: Outer, tail: seq<Byte>)
    requires o.Sized()
    ensures o.Front() + tail
            == o.version + (o.random + (Encode8(o.session) + (Encode16(o.ciphers) + (Encode8(o.compression) + tail))))
  {
    var a, b, c, d, e := o.version, o.random, Encode8(o.session), Encode16(o.ciphers), Encode8(o.compression);
    Associate(a + b + c + d, e, tail);
    Associate(a + b + c, d, e + tail);
    Associate(a + b, c, d + (e + tail));
    Associate(a, b, c + (d + (e + tail)));
  }

  lemma HeadReads(o: Outer, tail: seq<Byte>)
    requires o.Sized()
    ensures HeadOf(o.Front() + tail) == Some(Head(U16(o.version), o.ciphers, tail))
  {
    FrontApart(o, tail);
    var t4 := Encode8(o.compression) + tail;
    var t3 := Encode16(o.ciphers) + t4;
    var t2 := Encode8(o.session) + t3;
    var t1 := o.random + t2;
    TakeReads(o.version, t1);
    TakeReads(o.random, t2);
    Block8Reads(o.session, t3);
    Block16Reads(o.ciphers, t4);
    Block8Reads(o.compression, tail);
  }

  lemma HeadWritten(b: seq<Byte>) returns (o: Outer)
    requires HeadOf(b).Some?
    ensures o.Sized() && b == o.Front() + HeadOf(b).value.tail
  {
    var version := Take(b, 2).value;
    var random := Take(version.tail, 32).value;
    var session := Block8(random.tail).value;
    var ciphers := Block16(session.tail).value;
    var compression := Block8(ciphers.tail).value;
    Block8Exact(random.tail, session.head, session.tail);
    Block16Exact(session.tail, ciphers.head, ciphers.tail);
    Block8Exact(ciphers.tail, compression.head, compression.tail);
    o := Outer(version.head, random.head, session.head, ciphers.head, compression.head);
    FrontApart(o, compression.tail);
  }

  /** The fields before the extensions do not depend on what follows them. */
  lemma HeadSplit(b: seq<Byte>, head: Head, tail: seq<Byte>) returns (front: seq<Byte>)
    requires HeadOf(b) == Some(head)
    ensures b == front + head.tail && HeadOf(front + tail) == Some(head.(tail := tail))
  {
    var o := HeadWritten(b);
    HeadRead(o, head, tail);
    front := o.Front();
  }

  lemma HeadRead(o: Outer, head: Head, tail: seq<Byte>)
    requires o.Sized() && HeadOf(o.Front() + head.tail) == Some(head)
    ensures HeadOf(o.Front() + tail) == Some(head.(tail := tail))
  {
    HeadReads(o, head.tail);
    HeadReads(o, tail);
  }

  /** The block of extensions, and what is ignored behind it. */
  lemma BlockSplit(tail: seq<Byte>, x: seq<Byte>) returns (width: seq<Byte>, back: seq<Byte>)
    requires tail != [] && Block(tail).Some? && |x| == |Block(tail).value|
    ensures tail == width + Block(tail).value + back
    ensures width != [] && Block(width + x + back) == Some(x)
  {
    var c := Block16(tail).value;
    Block16Exact(tail, c.head, c.tail);
    Block16Reads(x, c.tail);
    width, back := Word(|x|), c.tail;
  }

  /** Where the extensions of a hello lie, and that others there are read in their stead. */
  lemma TailSplit(b: seq<Byte>, head: Head, x: seq<Byte>) returns (front: seq<Byte>, back: seq<Byte>, tail: seq<Byte>)
    requires HeadOf(b) == Some(head) && Block(head.tail).Some? && |x| == |Block(head.tail).value|
    ensures b == front + Block(head.tail).value + back
    ensures HeadOf(front + x + back) == Some(head.(tail := tail)) && Block(tail) == Some(x)
  {
    if head.tail == [] {
      front, back, tail := b, [], [];
      assert x == [] && b + x + [] == b && b == b + [] + [];
    } else {
      var width;
      width, back := BlockSplit(head.tail, x);
      tail := width + x + back;
      var before := HeadSplit(b, head, tail);
      front := before + width;
      Regroup(before, width, Block(head.tail).value, back);
      Regroup(before, width, x, back);
    }
  }

  lemma Regroup<T>(a: seq<T>, b: seq<T>, c: seq<T>, d: seq<T>)
    ensures a + (b + c + d) == (a + b) + c + d
  {
  }

  lemma BodySplit(b: seq<Byte>, f: Framed, others: seq<Extension>) returns (front: seq<Byte>, back: seq<Byte>)
    requires FrameBody(b) == Ok(f) && SameShape(f.extensions, others)
    ensures AllSized(f.extensions) && AllSized(others)
    ensures b == front + EncodeExtensions(f.extensions) + back
    ensures FrameBody(front + EncodeExtensions(others) + back) == Ok(f.(extensions := others))
  {
    var head := HeadOf(b).value;
    ExtensionsExact(Block(head.tail).value, f.extensions);
    SameLength(f.extensions, others);
    var x := EncodeExtensions(others);
    ExtensionsExact(x, others);
    var tail;
    front, back, tail := TailSplit(b, head, x);
  }

  lemma MessageSplit(message: seq<Byte>, hello: seq<Byte>) returns (front: seq<Byte>, back: seq<Byte>)
    requires OpenMessage(message).Ok? && |hello| == |OpenMessage(message).value|
    ensures message == front + OpenMessage(message).value + back
    ensures OpenMessage(front + hello + back) == Ok(hello)
  {
    var b := OpenMessage(message).value;
    front, back := message[..4], message[4..][|b|..];
    assert message == message[..4] + message[4..];
    Associate(front, b, back);
    Associate(front, hello, back);
    TakeReads(hello, back);
  }

  lemma RecordSplit(record: seq<Byte>, message: seq<Byte>) returns (front: seq<Byte>, back: seq<Byte>)
    requires Contents(record).Ok? && |message| == |Message(record)|
    ensures record == front + Message(record) + back
    ensures Contents(record) == OpenMessage(Message(record))
    ensures Contents(front + message + back) == OpenMessage(message)
  {
    var c := Block16(record[3..]).value;
    Block16Exact(record[3..], c.head, c.tail);
    Block16Reads(message, c.tail);
    back := c.tail;
    var width := Word(|message|);
    front := record[..3] + width;
    assert record == record[..3] + record[3..];
    Regroup(record[..3], width, c.head, back);
    Regroup(record[..3], width, message, back);
    ThreeApart(record[..3], Encode16(message) + back);
  }

  lemma ThreeApart(front: seq<Byte>, rest: seq<Byte>)
    requires |front| == 3
    ensures (front + rest)[3..] == rest && (front + rest)[0] == front[0]
  {
  }

  lemma ContentsSplit(record: seq<Byte>, hello: seq<Byte>) returns (front: seq<Byte>, back: seq<Byte>)
    requires Contents(record).Ok? && |hello| == |Contents(record).value|
    ensures record == front + Contents(record).value + back
    ensures Contents(front + hello + back) == Ok(hello)
  {
    var b := Contents(record).value;
    var inner, rest := MessageSplit(Message(record), hello);
    var outer, after := RecordSplit(record, inner + hello + rest);
    front, back := outer + inner, rest + after;
    Nest(outer, inner, b, rest, after);
    Nest(outer, inner, hello, rest, after);
  }

  lemma Nest<T>(a: seq<T>, b: seq<T>, c: seq<T>, d: seq<T>, e: seq<T>)
    ensures a + (b + c + d) + e == (a + b) + c + (d + e)
  {
  }

  /** Isolation: the extension bodies of an accepted record can be changed at will, length
      kept, and the record stays accepted with the same version, ciphers and extension list. */
  lemma Isolation(record: seq<Byte>, others: seq<Extension>) returns (front: seq<Byte>, back: seq<Byte>)
    requires Frame(record).Ok? && SameShape(Frame(record).value.extensions, others)
    ensures AllSized(Frame(record).value.extensions) && AllSized(others)
    ensures record == front + EncodeExtensions(Frame(record).value.extensions) + back
    ensures Frame(front + EncodeExtensions(others) + back) == Ok(Frame(record).value.(extensions := others))
  {
    var b, f := Contents(record).value, Frame(record).value;
    var inner, rest := BodySplit(b, f, others);
    SameLength(f.extensions, others);
    var outer, after := ContentsSplit(record, inner + EncodeExtensions(others) + rest);
    front, back := outer + inner, rest + after;
    Nest(outer, inner, EncodeExtensions(f.extensions), rest, after);
    Nest(outer, inner, EncodeExtensions(others), rest, after);
  }

  lemma ExtendedKeeps(h: Hello, e: Extension)
    ensures Extended(h, e).extensions == h.extensions
    ensures Extended(h, e).legacyVersion == h.legacyVersion && Extended(h, e).ciphers == h.ciphers
  {
  }

  lemma {:induction false} FilledKeeps(h: Hello, list: seq<Extension>)
    ensures Filled(h, list).extensions == h.extensions + Kinds(list)
    ensures Filled(h, list).legacyVersion == h.legacyVersion && Filled(h, list).ciphers == h.ciphers
  {
    if list == [] {
      AppendNothing(h.extensions, Kinds(list));
    } else {
      var n := |list| - 1;
      FilledKeeps(h, list[..n]);
      var before := Filled(h, list[..n]);
      ExtendedKeeps(before.(extensions := before.extensions + [list[n].kind]), list[n]);
      KindsNext(list);
      Associate(h.extensions, Kinds(list[..n]), [list[n].kind]);
    }
  }

  lemma KindsNext(list: seq<Extension>)
    requires list != []
    ensures Kinds(list) == Kinds(list[..|list| - 1]) + [list[|list| - 1].kind]
  {
  }

  /** What the parser returns of the outer hello is what the framing says, and nothing else. */
  lemma OuterFromFraming(record: seq<Byte>)
    ensures Parsed(record).Ok? <==> Frame(record).Ok?
    ensures Parsed(record).Err? ==> Frame(record) == Err(Parsed(record).error)
    ensures Parsed(record).Ok? ==>
              var f, h := Frame(record).value, Parsed(record).value;
              h.legacyVersion == f.version && h.ciphers == f.ciphers && h.extensions == Kinds(f.extensions)
  {
    if Frame(record).Ok? {
      var f := Frame(record).value;
      FilledKeeps(Base(f.version, f.ciphers), f.extensions);
      assert Base(f.version, f.ciphers).extensions + Kinds(f.extensions) == Kinds(f.extensions);
    }
  }

  // ---------------------------------------------------------------- round trip

  /** An extension as a client means it. */
  datatype Content =
    | ServerName(name: seq<Byte>)
    | Groups(codes: seq<Code>)
    | PointFormats(points: seq<Byte>)
    | Algorithms(codes: seq<Code>)
    | Alpn(protocols: seq<seq<Byte>>)
    | Versions(codes: seq<Code>)
    | Other(kind: Code, body: seq<Byte>)

  /** The numbers of the extensions, as registered: sections 4.2 of RFC 8446, 3 of RFC 6066, 6 of
      RFC 7301 and 5.1 of RFC 8422. */
  function KindOf(c: Content): Code {
    match c
    case ServerName(_) => 0
    case Groups(_) => 10
    case PointFormats(_) => 11
    case Algorithms(_) => 13
    case Alpn(_) => 16
    case Versions(_) => 43
    case Other(kind, _) => kind
  }

  function EncodeCodes(codes: seq<Code>): (b: seq<Byte>)
    ensures |b| == 2 * |codes|
  {
    if codes == [] then [] else Word(codes[0]) + EncodeCodes(codes[1..])
  }

  predicate AllNamed(protocols: seq<seq<Byte>>) {
    forall i | 0 <= i < |protocols| :: 0 < |protocols[i]| < 256
  }

  function EncodeProtocols(protocols: seq<seq<Byte>>): seq<Byte>
    requires AllNamed(protocols)
  {
    if protocols == [] then [] else Encode8(protocols[0]) + EncodeProtocols(protocols[1..])
  }

  /** Lengths that fit their fields; sections 4.2 of RFC 8446 and 3 of RFC 6066 and RFC 7301. */
  predicate WellFormed(c: Content) {
    match c
    case ServerName(name) => 0 < |name| < 0xfffb
    case Groups(codes) => |codes| < 0x7fff
    case PointFormats(points) => |points| < 256
    case Algorithms(codes) => |codes| < 0x7fff
    case Alpn(protocols) => AllNamed(protocols) && |EncodeProtocols(protocols)| < 0xfffe
    case Versions(codes) => |codes| < 128
    case Other(kind, body) =>
      |body| < 0x1_0000
      && kind !in {0, 10, 11, 13, 16, 43}
  }

  function Encoded(c: Content): (e: Extension)
    requires WellFormed(c)
    ensures Sized(e) && e.kind == KindOf(c)
  {
    Extension(KindOf(c),
      match c
      case ServerName(name) => Encode16([0] + Encode16(name))
      case Groups(codes) => Encode16(EncodeCodes(codes))
      case PointFormats(points) => Encode8(points)
      case Algorithms(codes) => Encode16(EncodeCodes(codes))
      case Alpn(protocols) => Encode16(EncodeProtocols(protocols))
      case Versions(codes) => Encode8(EncodeCodes(codes))
      case Other(_, body) => body)
  }

  /** What the content says, put in its field. */
  function Told(h: Hello, c: Content): Hello {
    match c
    case ServerName(name) => h.(hasSni := true, sni := name)
    case Groups(codes) => h.(curves := codes)
    case PointFormats(points) => h.(points := points)
    case Algorithms(codes) => h.(algorithms := codes)
    case Alpn(protocols) => h.(alpn := protocols)
    case Versions(codes) => h.(versions := codes)
    case Other(_, _) => h
  }

  function ToldAll(h: Hello, contents: seq<Content>): Hello {
    if contents == [] then h
    else
      var n := |contents| - 1;
      var before := ToldAll(h, contents[..n]);
      Told(before.(extensions := before.extensions + [KindOf(contents[n])]), contents[n])
  }

  lemma {:induction false} CodesRead(codes: seq<Code>)
    ensures Codes(EncodeCodes(codes)) == codes
  {
    if codes != [] {
      CodesRead(codes[1..]);
      var b := EncodeCodes(codes);
      assert b[2..] == EncodeCodes(codes[1..]);
      assert b[0] == Word(codes[0])[0] && b[1] == Word(codes[0])[1];
      assert codes == [codes[0]] + codes[1..];
    }
  }

  lemma {:induction false} ProtocolsRead(protocols: seq<seq<Byte>>)
    requires AllNamed(protocols)
    ensures Protocols(EncodeProtocols(protocols)) == protocols
  {
    if protocols != [] {
      ProtocolsRead(protocols[1..]);
      var b, rest := EncodeProtocols(protocols), EncodeProtocols(protocols[1..]);
      assert b == Encode8(protocols[0]) + rest && b != [];
      ProtocolRead(b, protocols[0], rest);
      assert protocols == [protocols[0]] + protocols[1..];
    }
  }

  lemma ProtocolRead(b: seq<Byte>, p: seq<Byte>, rest: seq<Byte>)
    requires 0 < |p| < 256 && b == Encode8(p) + rest
    ensures Protocols(b) == [p] + Protocols(rest)
  {
    Block8Reads(p, rest);
  }

  lemma NameRead(name: seq<Byte>)
    requires 0 < |name| < 0x1_0000
    ensures HostName([], [0] + Encode16(name)) == name
  {
    var list := [0] + Encode16(name);
    assert list[1..] == Encode16(name) == Encode16(name) + [];
    Block16Reads(name, []);
  }

  lemma Inside16(x: seq<Byte>)
    requires |x| < 0x1_0000
    ensures Inside(Block16(Encode16(x))) == x
  {
    assert Encode16(x) + [] == Encode16(x);
    Block16Reads(x, []);
  }

  lemma Inside8(x: seq<Byte>)
    requires |x| < 256
    ensures Inside(Block8(Encode8(x))) == x
  {
    assert Encode8(x) + [] == Encode8(x);
    Block8Reads(x, []);
  }

  /** Looking inside an encoded body gives back what was put there. */
  lemma ContentRead(c: Content)
    requires WellFormed(c)
    ensures var body := Encoded(c).body;
            match c
            case ServerName(name) => HostName([], Inside(Block16(body))) == name
            case Groups(codes) => Codes(Inside(Block16(body))) == codes
            case PointFormats(points) => Inside(Block8(body)) == points
            case Algorithms(codes) => Codes(Inside(Block16(body))) == codes
            case Alpn(protocols) => Protocols(Inside(Block16(body))) == protocols
            case Versions(codes) => Codes(Inside(Block8(body))) == codes
            case Other(_, b) => body == b
  {
    match c {
      case ServerName(name) => NameRead(name); Inside16([0] + Encode16(name));
      case Groups(codes) => CodesRead(codes); Inside16(EncodeCodes(codes));
      case PointFormats(points) => Inside8(points);
      case Algorithms(codes) => CodesRead(codes); Inside16(EncodeCodes(codes));
      case Alpn(protocols) => ProtocolsRead(protocols); Inside16(EncodeProtocols(protocols));
      case Versions(codes) => CodesRead(codes); Inside8(EncodeCodes(codes));
      case Other(_, _) =>
    }
  }

  /** One extension is read as it was meant, if no other spoke of the name or the protocols. */
  lemma ExtendedTells(h: Hello, c: Content)
    requires WellFormed(c)
    requires c.ServerName? ==> h.sni == []
    requires c.Alpn? ==> h.alpn == []
    ensures Extended(h, Encoded(c)) == Told(h, c)
  {
    ContentRead(c);
    if c.Alpn? {
      assert h.alpn + c.protocols == c.protocols;
    }
  }

  predicate AllWellFormed(contents: seq<Content>) {
    forall i | 0 <= i < |contents| :: WellFormed(contents[i])
  }

  predicate DistinctKinds(contents: seq<Content>) {
    forall i, j | 0 <= i < j < |contents| :: KindOf(contents[i]) != KindOf(contents[j])
  }

  function EncodedAll(contents: seq<Content>): (list: seq<Extension>)
    requires AllWellFormed(contents)
    ensures |list| == |contents| && AllSized(list)
    ensures forall i | 0 <= i < |contents| :: list[i] == Encoded(contents[i])
  {
    seq(|contents|, i requires 0 <= i < |contents| => Encoded(contents[i]))
  }

  /** Fields whose extension is absent stay empty. */
  lemma {:induction false} Untold(h: Hello, contents: seq<Content>)
    ensures (forall i | 0 <= i < |contents| :: !contents[i].ServerName?)
            ==> ToldAll(h, contents).sni == h.sni && ToldAll(h, contents).hasSni == h.hasSni
    ensures (forall i | 0 <= i < |contents| :: !contents[i].Alpn?) ==> ToldAll(h, contents).alpn == h.alpn
  {
    if contents != [] {
      Untold(h, contents[..|contents| - 1]);
    }
  }

  lemma {:induction false} FilledTells(h: Hello, contents: seq<Content>)
    requires AllWellFormed(contents) && DistinctKinds(contents) && h.sni == [] && h.alpn == []
    ensures Filled(h, EncodedAll(contents)) == ToldAll(h, contents)
  {
    if contents != [] {
      var n := |contents| - 1;
      FilledTells(h, contents[..n]);
      assert EncodedAll(contents)[..n] == EncodedAll(contents[..n]);
      Untold(h, contents[..n]);
      LastAlone(contents);
      var before := ToldAll(h, contents[..n]);
      ExtendedTells(before.(extensions := before.extensions + [KindOf(contents[n])]), contents[n]);
    }
  }

  lemma LastAlone(contents: seq<Content>)
    requires contents != [] && DistinctKinds(contents)
    ensures var n := |contents| - 1;
            && (contents[n].ServerName? ==> forall i | 0 <= i < n :: !contents[..n][i].ServerName?)
            && (contents[n].Alpn? ==> forall i | 0 <= i < n :: !contents[..n][i].Alpn?)
  {
    var n := |contents| - 1;
    assert forall i | 0 <= i < n :: contents[..n][i] == contents[i] && KindOf(contents[i]) != KindOf(contents[n]);
  }

  /** A record of a hello; with no extensions the block may be missing altogether. */
  function EncodeRecord(recordVersion: seq<Byte>, o: Outer, extensions: Option<seq<Extension>>): seq<Byte>
    requires |recordVersion| == 2 && o.Sized() && (extensions.Some? ==> AllSized(extensions.value))
    requires extensions.Some? ==> |EncodeExtensions(extensions.value)| < 0x1_0000
    requires |EncodeHello(o, extensions)| + 4 < 0x1_0000
  {
    [0x16] + recordVersion + Encode16([0x01] + Word24(|EncodeHello(o, extensions)|) + EncodeHello(o, extensions))
  }

  function EncodeHello(o: Outer, extensions: Option<seq<Extension>>): seq<Byte>
    requires o.Sized() && (extensions.Some? ==> AllSized(extensions.value))
    requires extensions.Some? ==> |EncodeExtensions(extensions.value)| < 0x1_0000
  {
    o.Front() + match extensions case None => [] case Some(list) => Encode16(EncodeExtensions(list))
  }

  lemma FrameReads(o: Outer, extensions: Option<seq<Extension>>)
    requires o.Sized() && (extensions.Some? ==> AllSized(extensions.value))
    requires extensions.Some? ==> |EncodeExtensions(extensions.value)| < 0x1_0000
    ensures FrameBody(EncodeHello(o, extensions))
            == Ok(Framed(U16(o.version), Codes(o.ciphers), if extensions.Some? then extensions.value else []))
  {
    match extensions {
      case None =>
        assert Block([]) == Some([]);
        BodyReads(o, [], []);
      case Some(list) =>
        BlockReads(EncodeExtensions(list));
        ExtensionsExact(EncodeExtensions(list), list);
        BodyReads(o, Encode16(EncodeExtensions(list)), list);
    }
  }

  lemma BodyReads(o: Outer, tail: seq<Byte>, list: seq<Extension>)
    requires o.Sized() && Block(tail).Some? && Extensions(Block(tail).value) == Some(list)
    ensures FrameBody(o.Front() + tail) == Ok(Framed(U16(o.version), Codes(o.ciphers), list))
  {
    HeadReads(o, tail);
  }

  lemma BlockReads(x: seq<Byte>)
    requires |x| < 0x1_0000
    ensures Block(Encode16(x)) == Some(x)
  {
    assert Encode16(x) + [] == Encode16(x);
    Block16Reads(x, []);
  }

  lemma ContentsRead(recordVersion: seq<Byte>, hello: seq<Byte>)
    requires |recordVersion| == 2 && |hello| + 4 < 0x1_0000
    ensures Contents([0x16] + recordVersion + Encode16([0x01] + Word24(|hello|) + hello)) == Ok(hello)
  {
    var message := [0x01] + Word24(|hello|) + hello;
    ThreeApart([0x16] + recordVersion, Encode16(message));
    Inside16(message);
    MessageReads(hello);
  }

  lemma MessageReads(hello: seq<Byte>)
    requires |hello| < 0x100_0000
    ensures OpenMessage([0x01] + Word24(|hello|) + hello) == Ok(hello)
  {
    var front := [0x01] + Word24(|hello|);
    assert (front + hello)[1..] == Word24(|hello|) + hello;
    assert hello + [] == hello;
    TakeReads(hello, []);
  }

  /** Round trip: what a client encodes, distinct extensions in any order, is what the parser
      reports: the same fields, and the extensions in the order they came. */
  lemma RoundTrip(recordVersion: seq<Byte>, o: Outer, ciphers: seq<Code>, contents: Option<seq<Content>>)
    requires |recordVersion| == 2 && o.Sized() && o.ciphers == EncodeCodes(ciphers)
    requires contents.Some? ==> AllWellFormed(contents.value) && DistinctKinds(contents.value)
    requires contents.Some? ==> |EncodeExtensions(EncodedAll(contents.value))| < 0x1_0000
    requires |EncodeHello(o, if contents.Some? then Some(EncodedAll(contents.value)) else None)| + 4 < 0x1_0000
    ensures Parsed(EncodeRecord(recordVersion, o, if contents.Some? then Some(EncodedAll(contents.value)) else None))
            == Ok(Detected(ToldAll(Base(U16(o.version), ciphers), if contents.Some? then contents.value else [])))
  {
    var list := if contents.Some? then Some(EncodedAll(contents.value)) else None;
    ContentsRead(recordVersion, EncodeHello(o, list));
    FrameReads(o, list);
    CodesRead(ciphers);
    if contents.Some? {
      FilledTells(Base(U16(o.version), ciphers), contents.value);
    }
  }

  /** The hello shows what the content says. */
  ghost predicate Shows(h: Hello, c: Content) {
    match c
    case ServerName(name) => h.hasSni && h.sni == name
    case Groups(codes) => h.curves == codes
    case PointFormats(points) => h.points == points
    case Algorithms(codes) => h.algorithms == codes
    case Alpn(protocols) => h.alpn == protocols
    case Versions(codes) => h.versions == codes
    case Other(_, _) => true
  }

  lemma ToldShows(h: Hello, c: Content, d: Content)
    requires WellFormed(c) && WellFormed(d) && KindOf(c) != KindOf(d)
    ensures Shows(Told(h, c), c)
    ensures Shows(h, d) ==> Shows(Told(h, c), d)
  {
  }

  /** Every content is shown by the hello reported, and the extension list is their kinds. */
  lemma {:induction false} AllShown(h: Hello, contents: seq<Content>)
    requires AllWellFormed(contents) && DistinctKinds(contents)
    ensures forall i | 0 <= i < |contents| :: Shows(ToldAll(h, contents), contents[i])
    ensures |ToldAll(h, contents).extensions| == |h.extensions| + |contents|
    ensures forall i | 0 <= i < |contents| :: ToldAll(h, contents).extensions[|h.extensions| + i] == KindOf(contents[i])
  {
    if contents != [] {
      var n := |contents| - 1;
      AllShown(h, contents[..n]);
      var before := ToldAll(h, contents[..n]);
      var h' := before.(extensions := before.extensions + [KindOf(contents[n])]);
      forall i | 0 <= i < n
        ensures Shows(ToldAll(h, contents), contents[i])
      {
        assert contents[..n][i] == contents[i];
        assert Shows(h', contents[i]);
        ToldShows(h', contents[n], contents[i]);
      }
      assert forall i | 0 <= i < n :: contents[..n][i] == contents[i];
    }
  }
}
