/** The HTTP/2 sniffer of internal/h2fp/sniffer.go: bytes are fed in whatever pieces the
    connection delivers, frames are taken off as they complete, and the fingerprint is
    what the frames up to the end of the first header block say. */
module Sniffer {
  import opened Wrappers
  import opened Sequences
  import opened Bytes

  const PREFACE: seq<Byte> := [
    0x50, 0x52, 0x49, 0x20, 0x2a, 0x20, 0x48, 0x54, 0x54, 0x50, 0x2f, 0x32, 0x2e, 0x30, 0x0d, 0x0a, 0x0d, 0x0a,
    0x53, 0x4d, 0x0d, 0x0a, 0x0d, 0x0a]

  const FRAME_HEADERS: Byte := 0x1
  const FRAME_PRIORITY: Byte := 0x2
  const FRAME_SETTINGS: Byte := 0x4
  const FRAME_WINDOW_UPDATE: Byte := 0x8
  const FRAME_CONTINUATION: Byte := 0x9

  const BUFFER_LIMIT := 65536

  /** The largest payload of a frame that always fits the buffer: one byte short of the
      whole frame, with its nine bytes of header, is at the limit. */
  const LARGEST := BUFFER_LIMIT - 8

  datatype Setting = Setting(id: nat, value: nat)

  datatype Priority = Priority(stream: nat, exclusive: bool, dependsOn: nat, weight: nat)

  datatype Fingerprint = Fingerprint(
    settings: Option<seq<Setting>>, windowUpdate: nat, priority: seq<Priority>, pseudo: string, complete: bool)

  /** What the sniffer holds. HPACK is not part of this model: `hpack` gives the order of
      the pseudo-headers in a block, or nothing when the block does not decode. */
  datatype State = State(buf: seq<Byte>, done: bool, prefaceOK: bool, headers: seq<Byte>, fp: Fingerprint)

  type Hpack = seq<Byte> -> Option<string>

  const START := State([], false, false, [], Fingerprint(None, 0, [], "", false))

  // ---------------------------------------------------------------- one frame

  datatype Frame = Frame(kind: Byte, flags: Byte, stream: nat, body: seq<Byte>)

  function GiveUp(s: State): State {
    s.(done := true, buf := [], headers := [])
  }

  function SettingsIn(body: seq<Byte>): seq<Setting> {
    if |body| < 6 then [] else [Setting(U16(body), U32(body[2..]))] + SettingsIn(body[6..])
  }

  /** The header block fragment: the priority field is not part of it. */
  function Fragment(f: Frame): seq<Byte> {
    if f.kind == FRAME_HEADERS && Bit(f.flags, 0x20) && |f.body| >= 5 then f.body[5..] else f.body
  }

  function Recorded(hpack: Hpack, fp: Fingerprint, block: seq<Byte>): Fingerprint {
    var pseudo := match hpack(block) case Some(p) => p case None => fp.pseudo;
    fp.(pseudo := pseudo, complete := pseudo != "")
  }

  function Take(hpack: Hpack, s: State, f: Frame): (t: State)
    ensures t.done || t.buf == s.buf
  {
    if f.kind == FRAME_SETTINGS then
      if Bit(f.flags, 0x1) || s.fp.settings.Some? then s
      else s.(fp := s.fp.(settings := Some(SettingsIn(f.body))))
    else if f.kind == FRAME_WINDOW_UPDATE then
      if f.stream == 0 && s.fp.windowUpdate == 0 && |f.body| >= 4
      then s.(fp := s.fp.(windowUpdate := Low31(U32(f.body)))) else s
    else if f.kind == FRAME_PRIORITY then
      if |f.body| < 5 then s
      else
        var dependency := U32(f.body);
        s.(fp := s.fp.(priority := s.fp.priority +
          [Priority(f.stream, dependency >= 0x8000_0000, Low31(dependency), f.body[4] as int + 1)]))
    else if f.kind == FRAME_HEADERS || f.kind == FRAME_CONTINUATION then
      var headers := s.headers + Fragment(f);
      if Bit(f.flags, 0x4) then GiveUp(s.(fp := Recorded(hpack, s.fp, headers)))
      else s.(headers := headers)
    else s
  }

  // ---------------------------------------------------------------- the stream

  /** A whole frame lies at the head of the buffer. */
  predicate Whole(buf: seq<Byte>) {
    |buf| >= 9 && |buf| >= 9 + U24(buf)
  }

  function Head(buf: seq<Byte>): Frame
    requires Whole(buf)
  {
    Frame(buf[3], buf[4], Low31(U32(buf[5..])), buf[9..9 + U24(buf)])
  }

  function Rest(buf: seq<Byte>): seq<Byte>
    requires Whole(buf)
  {
    buf[9 + U24(buf)..]
  }

  function Frames(hpack: Hpack, s: State): State
    decreases |s.buf|
  {
    if s.done || !Whole(s.buf) then s
    else
      var t := Take(hpack, s.(buf := Rest(s.buf)), Head(s.buf));
      if t.done then t else Frames(hpack, t)
  }

  lemma FramesNext(hpack: Hpack, s: State)
    requires !s.done && Whole(s.buf)
    ensures Frames(hpack, s) == Frames(hpack, Take(hpack, s.(buf := Rest(s.buf)), Head(s.buf)))
  {
  }

  function Parse(hpack: Hpack, s: State): State {
    if s.prefaceOK then Frames(hpack, s)
    else if |s.buf| < |PREFACE| then s
    else if s.buf[..|PREFACE|] != PREFACE then GiveUp(s)
    else Frames(hpack, s.(buf := s.buf[|PREFACE|..], prefaceOK := true))
  }

  function Append(s: State, chunk: seq<Byte>): State {
    if s.done then s else s.(buf := s.buf + chunk)
  }

  function Cap(s: State): State {
    if !s.done && |s.buf| > BUFFER_LIMIT then GiveUp(s) else s
  }

  /** What one read does. */
  function Feed(hpack: Hpack, s: State, chunk: seq<Byte>): State {
    if chunk == [] || s.done then s else Cap(Parse(hpack, Append(s, chunk)))
  }

  function FeedAll(hpack: Hpack, s: State, chunks: seq<seq<Byte>>): State
    decreases |chunks|
  {
    if chunks == [] then s else FeedAll(hpack, Feed(hpack, s, chunks[0]), chunks[1..])
  }

  class Connection {
    const hpack: Hpack
    var buf: seq<Byte>
    var done: bool
    var prefaceOK: bool
    var fp: Fingerprint
    var headers: seq<Byte>

    function View(): State
      reads this
    {
      State(buf, done, prefaceOK, headers, fp)
    }

    constructor (hpack: Hpack)
      ensures View() == START && this.hpack == hpack
    {
      this.hpack := hpack;
      buf, done, prefaceOK, headers := [], false, false, [];
      fp := START.fp;
    }

    method Read(chunk: seq<Byte>)
      modifies this
      ensures View() == Feed(hpack, old(View()), chunk)
    {
      if |chunk| > 0 && !done {
        buf := buf + chunk;
        ParseAll();
        if |buf| > BUFFER_LIMIT && !done {
          StopHere();
        }
      }
    }

    method StopHere()
      modifies this
      ensures View() == GiveUp(old(View()))
    {
      done, buf, headers := true, [], [];
    }

    method ParseAll()
      requires !done
      modifies this
      ensures View() == Parse(hpack, old(View()))
    {
      if !prefaceOK {
        if |buf| < |PREFACE| {
          return;
        }
        if buf[..|PREFACE|] != PREFACE {
          StopHere();
          return;
        }
        buf := buf[|PREFACE|..];
        prefaceOK := true;
      }
      AllFrames();
    }

    method AllFrames()
      requires !done
      modifies this
      ensures View() == Frames(hpack, old(View()))
    {
      ghost var whole := Frames(hpack, View());
      while !done && Whole(buf)
        invariant Frames(hpack, View()) == whole
        decreases if done then 0 else 1 + |buf|
      {
        var f := Head(buf);
        FramesNext(hpack, View());
        buf := Rest(buf);
        OneFrame(f);
      }
    }

    method OneFrame(f: Frame)
      requires !done
      modifies this
      ensures View() == Take(hpack, old(View()), f)
    {
      if f.kind == FRAME_SETTINGS {
        if Bit(f.flags, 0x1) || fp.settings.Some? {
          return;
        }
        var settings := ReadSettings(f.body);
        fp := fp.(settings := Some(settings));
      } else if f.kind == FRAME_WINDOW_UPDATE {
        if f.stream == 0 && fp.windowUpdate == 0 && |f.body| >= 4 {
          fp := fp.(windowUpdate := Low31(U32(f.body)));
        }
      } else if f.kind == FRAME_PRIORITY {
        if |f.body| >= 5 {
          var dependency := U32(f.body);
          fp := fp.(priority := fp.priority +
            [Priority(f.stream, dependency >= 0x8000_0000, Low31(dependency), f.body[4] as int + 1)]);
        }
      } else if f.kind == FRAME_HEADERS || f.kind == FRAME_CONTINUATION {
        headers := headers + Fragment(f);
        if Bit(f.flags, 0x4) {
          match hpack(headers) {
            case Some(p) => fp := fp.(pseudo := p);
            case None =>
          }
          fp := fp.(complete := fp.pseudo != "");
          StopHere();
        }
      }
    }

    static method ReadSettings(body: seq<Byte>) returns (settings: seq<Setting>)
      ensures settings == SettingsIn(body)
    {
      settings := [];
      var left := body;
      while |left| >= 6
        invariant settings + SettingsIn(left) == SettingsIn(body)
        decreases |left|
      {
        settings := settings + [Setting(U16(left), U32(left[2..]))];
        left := left[6..];
      }
    }
  }
}
