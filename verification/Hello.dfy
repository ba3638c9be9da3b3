/** The ClientHello parser of internal/tlsfp/hello.go. Lists are kept as they arrive. */
module Hellos {
  import opened Wrappers
  import opened Sequences
  import opened Bytes
  import opened Cursors

  const RECORD_HANDSHAKE := 0x16
  const HANDSHAKE_HELLO := 0x01

  const EXT_SNI := 0x0000
  const EXT_GROUPS := 0x000a
  const EXT_POINTS := 0x000b
  const EXT_ALGORITHMS := 0x000d
  const EXT_ALPN := 0x0010
  const EXT_VERSIONS := 0x002b

  datatype Hello = Hello(
    legacyVersion: Code, versions: seq<Code>, ciphers: seq<Code>, extensions: seq<Code>, curves: seq<Code>,
    points: seq<Byte>, algorithms: seq<Code>, alpn: seq<seq<Byte>>, sni: seq<Byte>, hasSni: bool, hasGrease: bool)

  datatype Error = NotHello | Truncated

  // ---------------------------------------------------------------- GREASE

  /** 0xNANA with both halves of each byte 0xA: the masked value is 0x0a0a, and the high
      byte equals the low one. */
  predicate IsGrease(v: Code) {
    v % 16 == 0xa && v / 256 % 16 == 0xa && v / 256 == v % 256
  }

  /** The list without its GREASE values. */
  function Plain(codes: seq<Code>): seq<Code> {
    if codes == [] then []
    else Plain(codes[..|codes| - 1]) + if IsGrease(codes[|codes| - 1]) then [] else [codes[|codes| - 1]]
  }

  predicate Greased(codes: seq<Code>) {
    exists i | 0 <= i < |codes| :: IsGrease(codes[i])
  }

  method WithoutGrease(codes: seq<Code>) returns (out: seq<Code>, found: bool)
    ensures out == Plain(codes) && found == Greased(codes)
  {
    out, found := [], false;
    for i := 0 to |codes|
      invariant out == Plain(codes[..i]) && found == Greased(codes[..i])
    {
      TakeNext(codes, i);
      PushInit(codes[..i], codes[i]);
      GreasedNext(codes[..i], codes[i]);
      if IsGrease(codes[i]) {
        found := true;
        continue;
      }
      out := out + [codes[i]];
    }
    TakeAll(codes);
  }

  lemma GreasedNext(codes: seq<Code>, v: Code)
    ensures Greased(codes + [v]) == (Greased(codes) || IsGrease(v))
    ensures IsGrease(v) ==> Plain(codes) + [] == Plain(codes)
  {
    var more := codes + [v];
    assert more[|codes|] == v;
    if Greased(codes) {
      var i :| 0 <= i < |codes| && IsGrease(codes[i]);
      assert more[i] == codes[i];
    }
  }

  // ---------------------------------------------------------------- framing

  /** An extension as it is framed: its kind, and its body unread. */
  datatype Extension = Extension(kind: Code, body: seq<Byte>)

  /** A hello as it is framed: nothing inside the extensions is read yet. */
  datatype Framed = Framed(version: Code, ciphers: seq<Code>, extensions: seq<Extension>)

  /** The extensions fill their block exactly, or there are none. */
  function Extensions(b: seq<Byte>): Option<seq<Extension>>
    decreases |b|
  {
    if b == [] then Some([])
    else if |b| < 2 then None
    else match Block16(b[2..])
      case None => None
      case Some(c) =>
        match Extensions(c.tail)
        case None => None
        case Some(rest) => Some([Extension(U16(b), c.head)] + rest)
  }

  /** The fields before the extensions: the version, the cipher block and what follows. */
  datatype Head = Head(version: Code, ciphers: seq<Byte>, tail: seq<Byte>)

  function HeadOf(b: seq<Byte>): Option<Head> {
    match Take(b, 2)
    case None => None
    case Some(version) =>
      match Take(version.tail, 32)
      case None => None
      case Some(random) =>
        match Block8(random.tail)
        case None => None
        case Some(session) =>
          match Block16(session.tail)
          case None => None
          case Some(ciphers) =>
            match Block8(ciphers.tail)
            case None => None
            case Some(compression) => Some(Head(U16(version.head), ciphers.head, compression.tail))
  }

  /** No bytes after the compression methods means no extensions at all. */
  function Block(tail: seq<Byte>): Option<seq<Byte>> {
    if tail == [] then Some([])
    else match Block16(tail)
      case None => None
      case Some(c) => Some(c.head)
  }

  function FrameBody(b: seq<Byte>): Result<Framed, Error> {
    match HeadOf(b)
    case None => Err(Truncated)
    case Some(head) =>
      match Block(head.tail)
      case None => Err(Truncated)
      case Some(block) =>
        match Extensions(block)
        case None => Err(Truncated)
        case Some(extensions) => Ok(Framed(head.version, Codes(head.ciphers), extensions))
  }

  /** The handshake message inside the record: empty when the record is cut short. */
  function Message(record: seq<Byte>): seq<Byte> {
    if |record| < 3 then [] else Inside(Block16(record[3..]))
  }

  /** The hello in its handshake message: what lies behind it is ignored. */
  function OpenMessage(message: seq<Byte>): Result<seq<Byte>, Error> {
    if message == [] || message[0] as int != HANDSHAKE_HELLO then Err(NotHello)
    else if |message| < 4 then Err(Truncated)
    else match Take(message[4..], U24(message[1..]))
      case None => Err(Truncated)
      case Some(c) => Ok(c.head)
  }

  /** The hello inside the handshake message inside the record. */
  function Contents(record: seq<Byte>): Result<seq<Byte>, Error> {
    if record == [] || record[0] as int != RECORD_HANDSHAKE then Err(NotHello) else OpenMessage(Message(record))
  }

  function Frame(record: seq<Byte>): Result<Framed, Error> {
    match Contents(record)
    case Err(e) => Err(e)
    case Ok(b) => FrameBody(b)
  }

  // ---------------------------------------------------------------- contents

  /** The first non-empty host name of a server name list, unless one was found before. */
  function HostName(found: seq<Byte>, list: seq<Byte>): seq<Byte>
    decreases |list|
  {
    if list == [] then found
    else match Block16(list[1..])
      case None => found
      case Some(name) => HostName(if list[0] == 0 && found == [] then name.head else found, name.tail)
  }

  /** The protocols of a list, empty ones left out. */
  function Protocols(list: seq<Byte>): seq<seq<Byte>>
    decreases |list|
  {
    if list == [] then []
    else match Block8(list)
      case None => []
      case Some(p) => (if p.head == [] then [] else [p.head]) + Protocols(p.tail)
  }

  /** What one extension adds to the hello. */
  function Extended(h: Hello, e: Extension): Hello {
    if e.kind == EXT_SNI then h.(hasSni := true, sni := HostName(h.sni, Inside(Block16(e.body))))
    else if e.kind == EXT_GROUPS then h.(curves := Codes(Inside(Block16(e.body))))
    else if e.kind == EXT_POINTS then h.(points := Inside(Block8(e.body)))
    else if e.kind == EXT_ALGORITHMS then h.(algorithms := Codes(Inside(Block16(e.body))))
    else if e.kind == EXT_ALPN then h.(alpn := h.alpn + Protocols(Inside(Block16(e.body))))
    else if e.kind == EXT_VERSIONS then h.(versions := Codes(Inside(Block8(e.body))))
    else h
  }

  function Kinds(extensions: seq<Extension>): (kinds: seq<Code>)
    ensures |kinds| == |extensions|
  {
    seq(|extensions|, i requires 0 <= i < |extensions| => extensions[i].kind)
  }

  function Base(version: Code, ciphers: seq<Code>): Hello {
    Hello(version, [], ciphers, [], [], [], [], [], [], false, false)
  }

  function Filled(h: Hello, extensions: seq<Extension>): Hello {
    if extensions == [] then h
    else
      var n := |extensions| - 1;
      var before := Filled(h, extensions[..n]);
      Extended(before.(extensions := before.extensions + [extensions[n].kind]), extensions[n])
  }

  function Detected(h: Hello): Hello {
    h.(hasGrease := Greased(h.ciphers) || Greased(h.extensions) || Greased(h.curves) || Greased(h.versions)
                    || Greased(h.algorithms))
  }

  /** Reading a hello is framing it and then looking inside the extensions. */
  function Parsed(record: seq<Byte>): Result<Hello, Error> {
    match Frame(record)
    case Err(e) => Err(e)
    case Ok(f) => Ok(Detected(Filled(Base(f.version, f.ciphers), f.extensions)))
  }

  /** The same, past the compression methods. */
  function ParsedTail(h: Hello, tail: seq<Byte>): Result<Hello, Error> {
    match Block(tail)
    case None => Err(Truncated)
    case Some(block) =>
      match Extensions(block)
      case None => Err(Truncated)
      case Some(extensions) => Ok(Detected(Filled(h, extensions)))
  }

  function ParsedBody(b: seq<Byte>): Result<Hello, Error> {
    match HeadOf(b)
    case None => Err(Truncated)
    case Some(head) => ParsedTail(Base(head.version, Codes(head.ciphers)), head.tail)
  }

  lemma ParsedByParts(record: seq<Byte>)
    ensures Parsed(record) == match Contents(record)
                              case Err(e) => Err(e)
                              case Ok(b) => ParsedBody(b)
  {
  }

  // ---------------------------------------------------------------- the code

  /** Parses a ClientHello out of a TLS record. */
  method Parse(record: seq<Byte>) returns (r: Result<Hello, Error>)
    ensures r == Parsed(record)
  {
    ParsedByParts(record);
    var contents := OpenRecord(record);
    if contents.Err? {
      return Err(contents.error);
    }
    var hello := new Cursor(contents.value);
    r := ParseBody(hello);
  }

  method OpenRecord(record: seq<Byte>) returns (r: Result<seq<Byte>, Error>)
    ensures r == Contents(record)
  {
    var c := new Cursor(record);
    var kind := c.ReadU8();
    if kind != RECORD_HANDSHAKE {
      return Err(NotHello);
    }
    var _ := c.ReadU16();
    var body := c.ReadBlock16();
    ghost var message := body.b;
    var handshake := body.ReadU8();
    if handshake != HANDSHAKE_HELLO {
      return Err(NotHello);
    }
    assert |message| >= 4 ==> message[1..][3..] == message[4..];
    var length := body.ReadU24();
    var contents := body.Bytes(length);
    if body.failed {
      return Err(Truncated);
    }
    return Ok(contents);
  }

  method ParseBody(c: Cursor) returns (r: Result<Hello, Error>)
    requires !c.failed
    modifies c
    ensures r == ParsedBody(old(c.b))
  {
    var version, ciphers := ParseHead(c);
    r := ParseTail(c, Base(version, ciphers));
  }

  /** There may be no extensions at all. */
  method ParseTail(c: Cursor, base: Hello) returns (r: Result<Hello, Error>)
    requires !base.hasGrease
    modifies c
    ensures r == if old(c.failed) then Err(Truncated) else ParsedTail(base, old(c.b))
  {
    if |c.b| == 0 {
      if c.failed {
        return Err(Truncated);
      }
      var bare := Detect(base);
      return Ok(bare);
    }
    var extensions := c.ReadBlock16();
    ghost var block := extensions.b;
    var h := ParseExtensions(base, extensions);
    if c.failed || extensions.failed {
      return Err(Truncated);
    }
    FilledGrease(base, Extensions(block).value);
    h := Detect(h);
    return Ok(h);
  }

  /** Reads up to the compression methods; a failed read leaves the cursor failed. */
  method ParseHead(c: Cursor) returns (version: Code, ciphers: seq<Code>)
    requires !c.failed
    modifies c
    ensures match HeadOf(old(c.b))
            case None => c.failed
            case Some(head) => c.Rest() == Some(head.tail) && version == head.version && ciphers == Codes(head.ciphers)
  {
    version := c.ReadU16();
    var _ := c.Bytes(32);
    var _ := c.ReadBlock8();
    var block := c.ReadBlock16();
    ciphers := block.ReadCodes();
    var _ := c.ReadBlock8();
  }

  /** Takes the extensions off one by one, looking inside each on the way. */
  method ParseExtensions(base: Hello, extensions: Cursor) returns (h: Hello)
    requires !extensions.failed
    modifies extensions
    ensures match Extensions(old(extensions.b))
            case None => extensions.failed
            case Some(list) => !extensions.failed && h == Filled(base, list)
  {
    h := base;
    ghost var whole := extensions.b;
    ghost var done: seq<Extension> := [];
    assert Extensions(whole).Some? ==> done + Extensions(whole).value == Extensions(whole).value;
    while |extensions.b| > 0 && !extensions.failed
      invariant if extensions.failed then Extensions(whole) == None
                else Continues(whole, done, extensions.b) && h == Filled(base, done)
      decreases !extensions.failed, |extensions.b|
    {
      ghost var before := extensions.b;
      var kind := extensions.ReadU16();
      var body := extensions.ReadBlock16();
      ghost var e := Extension(kind, body.b);
      h := h.(extensions := h.extensions + [kind]);
      h := ParseExtension(h, kind, body);
      if !extensions.failed {
        ContinuesNext(whole, done, before, e, extensions.b);
        PushInit(done, e);
        done := done + [e];
      }
    }
    assert done + [] == done;
  }

  /** The extensions taken off so far, followed by whatever the rest gives. */
  ghost predicate Continues(whole: seq<Byte>, done: seq<Extension>, rest: seq<Byte>) {
    match Extensions(rest)
    case None => Extensions(whole) == None
    case Some(list) => Extensions(whole) == Some(done + list)
  }

  lemma ContinuesNext(whole: seq<Byte>, done: seq<Extension>, before: seq<Byte>, e: Extension, after: seq<Byte>)
    requires Continues(whole, done, before) && |before| >= 2
    requires Block16(before[2..]) == Some(Cut(e.body, after)) && e.kind == U16(before)
    ensures Continues(whole, done + [e], after)
  {
    if Extensions(after).Some? {
      Associate(done, [e], Extensions(after).value);
    }
  }

  method ParseExtension(base: Hello, kind: Code, body: Cursor) returns (h: Hello)
    requires !body.failed
    modifies body
    ensures h == Extended(base, Extension(kind, old(body.b)))
  {
    h := base;
    match kind {
      case 0x0000 =>
        var list := body.ReadBlock16();
        var name := ParseNames(h.sni, list);
        h := h.(hasSni := true, sni := name);
      case 0x000a =>
        var list := body.ReadBlock16();
        var codes := list.ReadCodes();
        h := h.(curves := codes);
      case 0x000b =>
        var list := body.ReadBlock8();
        h := h.(points := list.b);
      case 0x000d =>
        var list := body.ReadBlock16();
        var codes := list.ReadCodes();
        h := h.(algorithms := codes);
      case 0x0010 =>
        var list := body.ReadBlock16();
        var protocols := ParseProtocols(list);
        h := h.(alpn := h.alpn + protocols);
      case 0x002b =>
        var list := body.ReadBlock8();
        var codes := list.ReadCodes();
        h := h.(versions := codes);
      case _ =>
    }
  }

  method ParseNames(found: seq<Byte>, list: Cursor) returns (name: seq<Byte>)
    requires !list.failed
    modifies list
    ensures name == HostName(found, old(list.b))
  {
    name := found;
    while |list.b| > 0 && !list.failed
      invariant (if list.failed then name else HostName(name, list.b)) == HostName(found, old(list.b))
      decreases !list.failed, |list.b|
    {
      var kind := list.ReadU8();
      var entry := list.ReadBlock16();
      if kind == 0 && name == [] {
        name := entry.b;
      }
    }
  }

  lemma ProtocolsNext(whole: seq<Byte>, done: seq<seq<Byte>>, rest: seq<Byte>)
    requires rest != [] && Protocols(whole) == done + Protocols(rest)
    ensures match Block8(rest)
            case None => Protocols(whole) == done
            case Some(p) => Protocols(whole) == (if p.head == [] then done else done + [p.head]) + Protocols(p.tail)
  {
    match Block8(rest)
    case None => assert done + [] == done;
    case Some(p) =>
      if p.head == [] {
        assert [] + Protocols(p.tail) == Protocols(p.tail);
      } else {
        Associate(done, [p.head], Protocols(p.tail));
      }
  }

  method ParseProtocols(list: Cursor) returns (protocols: seq<seq<Byte>>)
    requires !list.failed
    modifies list
    ensures protocols == Protocols(old(list.b))
  {
    protocols := [];
    ghost var whole := list.b;
    assert protocols + Protocols(whole) == Protocols(whole);
    while |list.b| > 0 && !list.failed
      invariant if list.failed then Protocols(whole) == protocols else Protocols(whole) == protocols + Protocols(list.b)
      decreases !list.failed, |list.b|
    {
      ProtocolsNext(whole, protocols, list.b);
      var p := list.ReadBlock8();
      if |p.b| > 0 {
        protocols := protocols + [p.b];
      }
    }
    assert protocols + [] == protocols;
  }

  /** Sets the flag by looking at every list, stopping at the first that has it. */
  method Detect(h: Hello) returns (r: Hello)
    requires !h.hasGrease
    ensures r == Detected(h)
  {
    var lists := [h.ciphers, h.extensions, h.curves, h.versions, h.algorithms];
    for i := 0 to 5
      invariant forall k | 0 <= k < i :: !Greased(lists[k])
    {
      var _, found := WithoutGrease(lists[i]);
      if found {
        return h.(hasGrease := true);
      }
    }
    assert !Greased(lists[0]) && !Greased(lists[1]) && !Greased(lists[2]) && !Greased(lists[3]) && !Greased(lists[4]);
    return h;
  }

  lemma {:induction false} FilledGrease(h: Hello, extensions: seq<Extension>)
    ensures Filled(h, extensions).hasGrease == h.hasGrease
  {
    if extensions != [] {
      FilledGrease(h, extensions[..|extensions| - 1]);
    }
  }

  /** The value is in one of the lists. */
  predicate Offers(h: Hello, v: Code) {
    v in h.ciphers || v in h.extensions || v in h.curves || v in h.versions || v in h.algorithms
  }

  lemma DetectedGrease(h: Hello)
    ensures var d := Detected(h); d.hasGrease <==> exists v :: IsGrease(v) && Offers(d, v)
  {
    if Detected(h).hasGrease {
      var list := if Greased(h.ciphers) then h.ciphers else if Greased(h.extensions) then h.extensions
                  else if Greased(h.curves) then h.curves else if Greased(h.versions) then h.versions
                  else h.algorithms;
      var i :| 0 <= i < |list| && IsGrease(list[i]);
      assert IsGrease(list[i]) && Offers(Detected(h), list[i]);
    }
  }

  /** A hello has GREASE exactly when one of its five lists has a GREASE value. */
  lemma GreaseShown(record: seq<Byte>)
    requires Parsed(record).Ok?
    ensures var h := Parsed(record).value; h.hasGrease <==> exists v :: IsGrease(v) && Offers(h, v)
  {
    var f := Frame(record).value;
    DetectedGrease(Filled(Base(f.version, f.ciphers), f.extensions));
  }
}
