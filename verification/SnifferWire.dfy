/** What the fingerprint says of a connection: the frames a client writes down, by sections
    4.1 and 6 of RFC 9113, are what the sniffer captures of them. */
module SnifferWire {
  import opened Wrappers
  import opened Sequences
  import opened Bytes
  import opened Sniffer
  import opened SnifferLaws

  // ---------------------------------------------------------------- what a client sends

  /** What a frame carries; the weight is as it is meant, from 1 to 256. */
  datatype What =
    | Settings(ack: bool, list: seq<Setting>)
    | WindowUpdate(reserved: bool, increment: nat)
    | Prioritize(exclusive: bool, dependsOn: nat, weight: nat)
    | Headers(endStream: bool, endHeaders: bool, field: Option<Dependency>, fragment: seq<Byte>)
    | Continuation(endHeaders: bool, fragment: seq<Byte>)
    | Other(kind: Byte, flags: Byte, body: seq<Byte>)

  /** The priority field of a HEADERS frame. */
  datatype Dependency = Dependency(exclusive: bool, dependsOn: nat, weight: nat)

  datatype Sent = Sent(reserved: bool, stream: nat, what: What)

  ghost predicate Depends(dependsOn: nat, weight: nat) {
    dependsOn < 0x8000_0000 && 1 <= weight <= 256
  }

  /** What can be written down at all. */
  ghost predicate Sendable(f: Sent) {
    && f.stream < 0x8000_0000
    && match f.what
       case Settings(_, list) =>
         6 * |list| < 0x100_0000 && forall i | 0 <= i < |list| :: list[i].id < 0x1_0000 && list[i].value < 0x1_0000_0000
       case WindowUpdate(_, increment) => increment < 0x8000_0000
       case Prioritize(_, dependsOn, weight) => Depends(dependsOn, weight)
       case Headers(_, _, field, fragment) =>
         5 + |fragment| < 0x100_0000 && (field.Some? ==> Depends(field.value.dependsOn, field.value.weight))
       case Continuation(_, fragment) => |fragment| < 0x100_0000
       case Other(kind, _, body) => kind !in {0x1, 0x2, 0x4, 0x8, 0x9} && |body| < 0x100_0000
  }

  ghost predicate AllSendable(frames: seq<Sent>) {
    forall i | 0 <= i < |frames| :: Sendable(frames[i])
  }

  // ---------------------------------------------------------------- written down

  /** A number of 31 bits with the bit before it. */
  function Marked(bit: bool, n: nat): seq<Byte>
    requires n < 0x8000_0000
  {
    Word32(if bit then 0x8000_0000 + n else n)
  }

  /** Section 4.1: the length in 24 bits, the type, the flags, the reserved bit and the stream,
      and the payload. */
  function Written(kind: Byte, flags: Byte, reserved: bool, stream: nat, body: seq<Byte>): seq<Byte>
    requires stream < 0x8000_0000 && |body| < 0x100_0000
  {
    Word24(|body|) + [kind, flags] + Marked(reserved, stream) + body
  }

  function Pairs(list: seq<Setting>): (b: seq<Byte>)
    requires forall i | 0 <= i < |list| :: list[i].id < 0x1_0000 && list[i].value < 0x1_0000_0000
    ensures |b| == 6 * |list|
  {
    if list == [] then [] else Word(list[0].id) + Word32(list[0].value) + Pairs(list[1..])
  }

  function Flag(set_: bool, bit: nat): nat {
    if set_ then bit else 0
  }

  ghost function KindOf(w: What): Byte {
    match w
    case Settings(_, _) => 0x4
    case WindowUpdate(_, _) => 0x8
    case Prioritize(_, _, _) => 0x2
    case Headers(_, _, _, _) => 0x1
    case Continuation(_, _) => 0x9
    case Other(kind, _, _) => kind
  }

  ghost function FlagsOf(w: What): Byte {
    match w
    case Settings(ack, _) => Flag(ack, 0x1) as Byte
    case Headers(endStream, endHeaders, field, _) =>
      (Flag(endStream, 0x1) + Flag(endHeaders, 0x4) + Flag(field.Some?, 0x20)) as Byte
    case Continuation(endHeaders, _) => Flag(endHeaders, 0x4) as Byte
    case Other(_, flags, _) => flags
    case _ => 0
  }

  ghost function BodyOf(f: Sent): (b: seq<Byte>)
    requires Sendable(f)
    ensures |b| < 0x100_0000
  {
    match f.what
    case Settings(_, list) => Pairs(list)
    case WindowUpdate(reserved, increment) => Marked(reserved, increment)
    case Prioritize(exclusive, dependsOn, weight) => Marked(exclusive, dependsOn) + [(weight - 1) as Byte]
    case Headers(_, _, field, fragment) =>
      (match field
       case None => []
       case Some(d) => Marked(d.exclusive, d.dependsOn) + [(d.weight - 1) as Byte]) + fragment
    case Continuation(_, fragment) => fragment
    case Other(_, _, body) => body
  }

  ghost function Encode(f: Sent): seq<Byte>
    requires Sendable(f)
  {
    Written(KindOf(f.what), FlagsOf(f.what), f.reserved, f.stream, BodyOf(f))
  }

  ghost function EncodeAll(frames: seq<Sent>): seq<Byte>
    requires AllSendable(frames)
  {
    if frames == [] then [] else Encode(frames[0]) + EncodeAll(frames[1..])
  }

  function Ascii(s: string): (b: seq<Byte>)
    requires forall c | c in s :: c < 128 as char
  {
    seq(|s|, i requires 0 <= i < |s| => assert s[i] in s; s[i] as int as Byte)
  }

  /** The connection as the client opens it. */
  ghost function Stream(frames: seq<Sent>): seq<Byte>
    requires AllSendable(frames)
  {
    Ascii("PRI * HTTP/2.0\r\n\r\nSM\r\n\r\n") + EncodeAll(frames)
  }

  lemma PrefaceIs()
    ensures PREFACE == Ascii("PRI * HTTP/2.0\r\n\r\nSM\r\n\r\n")
  {
  }

  // ---------------------------------------------------------------- what it means

  /** The settings lists sent, acknowledgements left out. */
  function Lists(frames: seq<Sent>): seq<seq<Setting>> {
    if frames == [] then []
    else
      var f := frames[|frames| - 1].what;
      Lists(frames[..|frames| - 1]) + if f.Settings? && !f.ack then [f.list] else []
  }

  /** The increments of the connection's window, zeros left out. */
  function Increments(frames: seq<Sent>): seq<nat> {
    if frames == [] then []
    else
      var f := frames[|frames| - 1];
      Increments(frames[..|frames| - 1])
        + if f.what.WindowUpdate? && f.stream == 0 && f.what.increment > 0 then [f.what.increment] else []
  }

  function Priorities(frames: seq<Sent>): seq<Priority> {
    if frames == [] then []
    else
      var f := frames[|frames| - 1];
      Priorities(frames[..|frames| - 1])
        + if f.what.Prioritize? then [Priority(f.stream, f.what.exclusive, f.what.dependsOn, f.what.weight)] else []
  }

  /** The header block: the fragments, one after the other. */
  function Block(frames: seq<Sent>): seq<Byte> {
    if frames == [] then []
    else
      var f := frames[|frames| - 1].what;
      Block(frames[..|frames| - 1]) + if f.Headers? || f.Continuation? then f.fragment else []
  }

  predicate Ends(f: Sent) {
    (f.what.Headers? || f.what.Continuation?) && f.what.endHeaders
  }

  /** All that counts of the frames so far. */
  datatype Said = Said(lists: seq<seq<Setting>>, increments: seq<nat>, priorities: seq<Priority>, block: seq<Byte>)

  function SaidBy(frames: seq<Sent>): Said {
    Said(Lists(frames), Increments(frames), Priorities(frames), Block(frames))
  }

  /** The first list, the first increment, and all priorities. */
  function Captured(x: Said, pseudo: string): Fingerprint {
    Fingerprint(if x.lists == [] then None else Some(x.lists[0]), if x.increments == [] then 0 else x.increments[0],
                x.priorities, pseudo, pseudo != "")
  }

  /** The sniffer while no header block has ended. */
  function Listening(x: Said, buf: seq<Byte>): State {
    State(buf, false, true, x.block, Captured(x, ""))
  }

  /** The sniffer after the frame that ends the first header block. */
  function Finished(hpack: Hpack, x: Said): State {
    State([], true, true, [], Captured(x, match hpack(x.block) case Some(p) => p case None => ""))
  }

  // ---------------------------------------------------------------- reading it back

  lemma MarkedReads(bit: bool, n: nat, tail: seq<Byte>)
    requires n < 0x8000_0000
    ensures var b := Marked(bit, n) + tail;
            && |Marked(bit, n)| == 4 && Low31(U32(b)) == n && (U32(b) >= 0x8000_0000 <==> bit)
  {
    var w := Marked(bit, n);
    assert U32(w + tail) == U32(w);
  }

  lemma WrittenReads(kind: Byte, flags: Byte, reserved: bool, stream: nat, body: seq<Byte>, tail: seq<Byte>)
    requires stream < 0x8000_0000 && |body| < 0x100_0000
    ensures var b := Written(kind, flags, reserved, stream, body) + tail;
            && Whole(b) && Head(b) == Frame(kind, flags, stream, body) && Rest(b) == tail && U24(b) == |body|
            && |b| == 9 + |body| + |tail|
  {
    var head := Word24(|body|) + [kind, flags] + Marked(reserved, stream);
    var b := Written(kind, flags, reserved, stream, body) + tail;
    assert |head| == 9 && b == head + (body + tail);
    assert b[0] == Word24(|body|)[0] && b[1] == Word24(|body|)[1] && b[2] == Word24(|body|)[2];
    assert U24(b) == U24(Word24(|body|));
    assert b[3] == kind && b[4] == flags;
    assert b[5..] == Marked(reserved, stream) + (body + tail);
    MarkedReads(reserved, stream, body + tail);
    assert b[9..9 + |body|] == body && b[9 + |body|..] == tail;
  }

  lemma {:induction false} PairsRead(list: seq<Setting>)
    requires forall i | 0 <= i < |list| :: list[i].id < 0x1_0000 && list[i].value < 0x1_0000_0000
    ensures SettingsIn(Pairs(list)) == list
  {
    if list != [] {
      PairsRead(list[1..]);
      PairReads(list[0], Pairs(list[1..]));
      assert list == [list[0]] + list[1..];
    }
  }

  lemma PairReads(x: Setting, tail: seq<Byte>)
    requires x.id < 0x1_0000 && x.value < 0x1_0000_0000
    ensures var b := Word(x.id) + Word32(x.value) + tail;
            |b| >= 6 && U16(b) == x.id && U32(b[2..]) == x.value && b[6..] == tail
  {
    var b := Word(x.id) + Word32(x.value) + tail;
    assert b[0] == Word(x.id)[0] && b[1] == Word(x.id)[1];
    assert b[2..] == Word32(x.value) + tail;
    var v := Word32(x.value);
    assert b[2..][0] == v[0] && b[2..][1] == v[1] && b[2..][2] == v[2] && b[2..][3] == v[3];
    assert b[6..] == tail;
  }

  lemma FlagsRead(w: What)
    ensures w.Settings? ==> Bit(FlagsOf(w), 0x1) == w.ack
    ensures w.Headers? ==> Bit(FlagsOf(w), 0x4) == w.endHeaders && Bit(FlagsOf(w), 0x20) == w.field.Some?
    ensures w.Continuation? ==> Bit(FlagsOf(w), 0x4) == w.endHeaders
  {
  }

  /** The frame as the sniffer has it once it is off the wire. */
  ghost function Off(f: Sent): Frame
    requires Sendable(f)
  {
    Frame(KindOf(f.what), FlagsOf(f.what), f.stream, BodyOf(f))
  }

  lemma FragmentReads(f: Sent)
    requires Sendable(f) && (f.what.Headers? || f.what.Continuation?)
    ensures Fragment(Off(f)) == f.what.fragment
  {
    FlagsRead(f.what);
    if f.what.Headers? && f.what.field.Some? {
      var d := f.what.field.value;
      var field := Marked(d.exclusive, d.dependsOn) + [(d.weight - 1) as Byte];
      MarkedReads(d.exclusive, d.dependsOn, []);
      assert BodyOf(f) == field + f.what.fragment && |field| == 5;
      assert BodyOf(f)[5..] == f.what.fragment;
    } else if f.what.Headers? {
      assert BodyOf(f) == [] + f.what.fragment;
    }
  }

  // ---------------------------------------------------------------- one frame more

  /** What is said with one frame more. */
  function More(x: Said, f: Sent): Said {
    match f.what
    case Settings(ack, list) => if ack then x else x.(lists := x.lists + [list])
    case WindowUpdate(_, increment) =>
      if f.stream == 0 && increment > 0 then x.(increments := x.increments + [increment]) else x
    case Prioritize(exclusive, dependsOn, weight) =>
      x.(priorities := x.priorities + [Priority(f.stream, exclusive, dependsOn, weight)])
    case Headers(_, _, _, fragment) => x.(block := x.block + fragment)
    case Continuation(_, fragment) => x.(block := x.block + fragment)
    case Other(_, _, _) => x
  }

  lemma Heard(frames: seq<Sent>, f: Sent)
    ensures SaidBy(frames + [f]) == More(SaidBy(frames), f)
  {
    PushInit(frames, f);
    AppendNothing(Lists(frames), []);
    AppendNothing(Increments(frames), []);
    AppendNothing(Priorities(frames), []);
    AppendNothing(Block(frames), []);
  }

  ghost predicate Plain(x: Said) {
    forall i | 0 <= i < |x.increments| :: x.increments[i] > 0
  }

  lemma SettingsMean(hpack: Hpack, x: Said, f: Sent, buf: seq<Byte>)
    requires Sendable(f) && f.what.Settings?
    ensures Take(hpack, Listening(x, buf), Off(f)) == Listening(More(x, f), buf)
  {
    FlagsRead(f.what);
    PairsRead(f.what.list);
  }

  lemma UpdateMeans(hpack: Hpack, x: Said, f: Sent, buf: seq<Byte>)
    requires Sendable(f) && f.what.WindowUpdate? && Plain(x)
    ensures Take(hpack, Listening(x, buf), Off(f)) == Listening(More(x, f), buf)
  {
    MarkedReads(f.what.reserved, f.what.increment, []);
    AppendNothing(Marked(f.what.reserved, f.what.increment), []);
  }

  lemma PriorityMeans(hpack: Hpack, x: Said, f: Sent, buf: seq<Byte>)
    requires Sendable(f) && f.what.Prioritize?
    ensures Take(hpack, Listening(x, buf), Off(f)) == Listening(More(x, f), buf)
  {
    MarkedReads(f.what.exclusive, f.what.dependsOn, [(f.what.weight - 1) as Byte]);
  }

  lemma HeadersMean(hpack: Hpack, x: Said, f: Sent, buf: seq<Byte>)
    requires Sendable(f) && (f.what.Headers? || f.what.Continuation?)
    ensures Take(hpack, Listening(x, buf), Off(f))
            == if Ends(f) then Finished(hpack, More(x, f)) else Listening(More(x, f), buf)
  {
    FlagsRead(f.what);
    FragmentReads(f);
  }

  /** Each frame does to what was captured just what it means. */
  lemma TakeMeans(hpack: Hpack, x: Said, f: Sent, buf: seq<Byte>)
    requires Sendable(f) && Plain(x)
    ensures Take(hpack, Listening(x, buf), Off(f))
            == if Ends(f) then Finished(hpack, More(x, f)) else Listening(More(x, f), buf)
    ensures Plain(More(x, f))
  {
    match f.what {
      case Settings(_, _) => SettingsMean(hpack, x, f, buf);
      case WindowUpdate(_, _) => UpdateMeans(hpack, x, f, buf);
      case Prioritize(_, _, _) => PriorityMeans(hpack, x, f, buf);
      case Other(_, _, _) =>
      case _ => HeadersMean(hpack, x, f, buf);
    }
  }

  // ---------------------------------------------------------------- the whole connection

  /** How many frames there are up to the one that ends the first header block, that one
      included; all of them if none does. */
  function Until(frames: seq<Sent>): (n: nat)
    ensures n <= |frames|
    ensures forall i | 0 <= i < n - 1 :: !Ends(frames[i])
    ensures (n > 0 && Ends(frames[n - 1])) || (n == |frames| && forall i | 0 <= i < n :: !Ends(frames[i]))
  {
    if frames == [] then 0 else if Ends(frames[0]) then 1 else 1 + Until(frames[1..])
  }

  /** What one read of the frames ends with. */
  function Result(hpack: Hpack, frames: seq<Sent>): State {
    var heard := frames[..Until(frames)];
    if heard != [] && Ends(heard[|heard| - 1]) then Finished(hpack, SaidBy(heard)) else Listening(SaidBy(heard), [])
  }

  lemma UntilMore(past: seq<Sent>, frames: seq<Sent>)
    requires frames != [] && forall i | 0 <= i < |past| :: !Ends(past[i])
    ensures forall i | 0 <= i < |past| :: !Ends((past + frames)[i])
    ensures Until(past + frames) == |past| + Until(frames)
  {
    if past == [] {
      assert past + frames == frames;
    } else {
      UntilMore(past[1..], frames);
      assert (past + frames)[1..] == past[1..] + frames;
    }
  }

  lemma FirstMeans(hpack: Hpack, x: Said, f: Sent, rest: seq<Byte>)
    requires Sendable(f) && Plain(x)
    ensures Frames(hpack, Listening(x, Encode(f) + rest))
            == if Ends(f) then Finished(hpack, More(x, f)) else Frames(hpack, Listening(More(x, f), rest))
    ensures Plain(More(x, f))
  {
    var s := Listening(x, Encode(f) + rest);
    WrittenReads(KindOf(f.what), FlagsOf(f.what), f.reserved, f.stream, BodyOf(f), rest);
    FramesNext(hpack, s);
    assert s.(buf := rest) == Listening(x, rest);
    TakeMeans(hpack, x, f, rest);
    if Ends(f) {
      FramesDone(hpack, Finished(hpack, More(x, f)));
    }
  }

  lemma ResultMore(hpack: Hpack, past: seq<Sent>, frames: seq<Sent>)
    requires frames != [] && forall i | 0 <= i < |past| :: !Ends(past[i])
    ensures Ends(frames[0]) ==> Result(hpack, past + frames) == Finished(hpack, SaidBy(past + [frames[0]]))
    ensures past + frames == (past + [frames[0]]) + frames[1..]
  {
    UntilMore(past, frames);
    if Ends(frames[0]) {
      assert (past + frames)[..|past| + 1] == past + [frames[0]];
    }
  }

  lemma {:induction false} FramesMean(hpack: Hpack, past: seq<Sent>, frames: seq<Sent>)
    requires AllSendable(frames) && Plain(SaidBy(past)) && forall i | 0 <= i < |past| :: !Ends(past[i])
    ensures Frames(hpack, Listening(SaidBy(past), EncodeAll(frames))) == Result(hpack, past + frames)
    decreases |frames|
  {
    if frames == [] {
      NoFrames(hpack, past);
    } else {
      FirstMeans(hpack, SaidBy(past), frames[0], EncodeAll(frames[1..]));
      Heard(past, frames[0]);
      ResultMore(hpack, past, frames);
      if !Ends(frames[0]) {
        FramesMean(hpack, past + [frames[0]], frames[1..]);
      }
    }
  }

  lemma FramesDone(hpack: Hpack, s: State)
    requires s.done
    ensures Frames(hpack, s) == s
  {
  }

  lemma {:induction false} NoneEnds(frames: seq<Sent>)
    requires forall i | 0 <= i < |frames| :: !Ends(frames[i])
    ensures Until(frames) == |frames|
  {
  }

  lemma NoFrames(hpack: Hpack, past: seq<Sent>)
    requires forall i | 0 <= i < |past| :: !Ends(past[i])
    ensures Frames(hpack, Listening(SaidBy(past), [])) == Result(hpack, past + [])
  {
    AppendNothing(past, []);
    NoneEnds(past);
    assert past[..|past|] == past;
  }

  /** The fingerprint of a connection, from what the client sends: one read of all of it
      captures the first list of settings, the first increment of the connection's window, the
      priorities in their order and the order of the pseudo-headers in the block that the
      fragments make together; and it is done exactly when a header block has ended. */
  lemma WireRoundTrip(hpack: Hpack, frames: seq<Sent>)
    requires AllSendable(frames)
    ensures Feed(hpack, START, Stream(frames)) == Result(hpack, frames)
  {
    ParseStream(hpack, EncodeAll(frames));
    FramesMean(hpack, [], frames);
    assert [] + frames == frames;
  }

  lemma ParseStream(hpack: Hpack, rest: seq<Byte>)
    ensures var stream := Ascii("PRI * HTTP/2.0\r\n\r\nSM\r\n\r\n") + rest;
            && stream != [] && !START.done
            && Parse(hpack, Append(START, stream)) == Frames(hpack, Listening(SaidBy([]), rest))
            && (CalmFrames(hpack, Listening(SaidBy([]), rest)) ==> Calm(hpack, Append(START, stream)))
  {
    PrefaceIs();
    var stream := PREFACE + rest;
    assert stream[..|PREFACE|] == PREFACE && stream[|PREFACE|..] == rest;
    assert Append(START, stream).buf == stream;
  }

  lemma {:induction false} FramesFit(hpack: Hpack, x: Said, frames: seq<Sent>)
    requires AllSendable(frames) && Plain(x) && forall f | f in frames :: |BodyOf(f)| <= LARGEST
    ensures CalmFrames(hpack, Listening(x, EncodeAll(frames)))
    decreases |frames|
  {
    if frames != [] {
      var f, rest := frames[0], EncodeAll(frames[1..]);
      assert f in frames;
      WrittenReads(KindOf(f.what), FlagsOf(f.what), f.reserved, f.stream, BodyOf(f), rest);
      assert Listening(x, Encode(f) + rest).(buf := rest) == Listening(x, rest);
      TakeMeans(hpack, x, f, rest);
      if !Ends(f) {
        FramesFit(hpack, More(x, f), frames[1..]);
      }
    }
  }

  /** The same however the connection cuts the stream into reads, as long as every frame fits
      the buffer. */
  lemma WireAnyCut(hpack: Hpack, frames: seq<Sent>, chunks: seq<seq<Byte>>)
    requires AllSendable(frames) && forall f | f in frames :: |BodyOf(f)| <= LARGEST
    requires Concat(chunks) == Stream(frames)
    ensures FeedAll(hpack, START, chunks) == Result(hpack, frames)
  {
    FramesFit(hpack, SaidBy([]), frames);
    ParseStream(hpack, EncodeAll(frames));
    ChunkingIndependence(hpack, Stream(frames), chunks);
    WireRoundTrip(hpack, frames);
  }

  // ---------------------------------------------------------------- padding

  /** The payload of a padded HEADERS frame, section 6.2: the length of the padding, the
      priority field, the fragment, and the padding. */
  function Padded(pad: Byte, field: Option<Dependency>, fragment: seq<Byte>): seq<Byte>
    requires field.Some? ==> field.value.dependsOn < 0x8000_0000 && 1 <= field.value.weight <= 256
  {
    [pad]
    + (match field
       case None => []
       case Some(d) => Marked(d.exclusive, d.dependsOn) + [(d.weight - 1) as Byte])
    + fragment + seq(pad as int, _ => 0)
  }

  /** Of a padded HEADERS frame the sniffer takes more than the fragment: a byte that precedes
      it and the padding behind it. */
  lemma PaddingTaken(pad: Byte, endStream: bool, endHeaders: bool, field: Option<Dependency>, fragment: seq<Byte>,
                     stream: nat)
    requires field.Some? ==> Depends(field.value.dependsOn, field.value.weight)
    ensures var flags := (Flag(endStream, 0x1) + Flag(endHeaders, 0x4) + 0x8 + Flag(field.Some?, 0x20)) as Byte;
            |Fragment(Frame(0x1, flags, stream, Padded(pad, field, fragment)))| == 1 + |fragment| + pad as int
  {
  }
}
