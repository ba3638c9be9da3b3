/** The fingerprint does not depend on how the connection cut the stream into reads, for
    every stream whose frames fit the buffer; and what was captured never changes. */
module SnifferLaws {
  import opened Wrappers
  import opened Sequences
  import opened Bytes
  import opened Sniffer

  function Concat(chunks: seq<seq<Byte>>): seq<Byte> {
    if chunks == [] then [] else chunks[0] + Concat(chunks[1..])
  }

  /** Every frame that completes, up to the end of the first header block, fits the buffer. */
  predicate CalmFrames(hpack: Hpack, s: State)
    decreases |s.buf|
  {
    if s.done || !Whole(s.buf) then true
    else
      var t := Take(hpack, s.(buf := Rest(s.buf)), Head(s.buf));
      U24(s.buf) <= LARGEST && (t.done || CalmFrames(hpack, t))
  }

  predicate Calm(hpack: Hpack, s: State) {
    if s.prefaceOK then CalmFrames(hpack, s)
    else |s.buf| < |PREFACE| || s.buf[..|PREFACE|] != PREFACE
         || CalmFrames(hpack, s.(buf := s.buf[|PREFACE|..], prefaceOK := true))
  }

  // ---------------------------------------------------------------- parsing can be resumed

  lemma WholeGrows(a: seq<Byte>, b: seq<Byte>)
    requires Whole(a)
    ensures Whole(a + b) && Head(a + b) == Head(a) && Rest(a + b) == Rest(a) + b
    ensures U24(a + b) == U24(a)
  {
    var n := 9 + U24(a);
    assert (a + b)[9..n] == a[9..n];
    assert (a + b)[n..] == a[n..] + b;
    assert U32((a + b)[5..]) == U32(a[5..]);
  }

  /** A frame is read from its own bytes; what follows in the buffer stays there. */
  lemma TakeAppends(hpack: Hpack, s: State, f: Frame, more: seq<Byte>)
    requires !s.done
    ensures Take(hpack, Append(s, more), f) == Append(Take(hpack, s, f), more)
  {
  }

  /** The first frame, with more bytes behind it. */
  lemma FirstFrame(hpack: Hpack, s: State, more: seq<Byte>)
    requires !s.done && Whole(s.buf)
    ensures var t := Take(hpack, s.(buf := Rest(s.buf)), Head(s.buf));
            var u := Append(s, more);
            && Whole(u.buf) && U24(u.buf) == U24(s.buf)
            && Take(hpack, u.(buf := Rest(u.buf)), Head(u.buf)) == Append(t, more)
  {
    WholeGrows(s.buf, more);
    var rest := s.(buf := Rest(s.buf));
    TakeAppends(hpack, rest, Head(s.buf), more);
    assert Append(s, more).(buf := Rest(s.buf + more)) == Append(rest, more);
  }

  lemma {:induction false} FramesResume(hpack: Hpack, s: State, more: seq<Byte>)
    ensures Frames(hpack, Append(s, more)) == Frames(hpack, Append(Frames(hpack, s), more))
    decreases |s.buf|
  {
    if !s.done && Whole(s.buf) {
      var t := Take(hpack, s.(buf := Rest(s.buf)), Head(s.buf));
      FirstFrame(hpack, s, more);
      FramesNext(hpack, s);
      FramesNext(hpack, Append(s, more));
      if !t.done {
        FramesResume(hpack, t, more);
      }
    }
  }

  lemma {:induction false} CalmResume(hpack: Hpack, s: State, more: seq<Byte>)
    requires CalmFrames(hpack, Append(s, more))
    ensures CalmFrames(hpack, Append(Frames(hpack, s), more))
    decreases |s.buf|
  {
    if !s.done && Whole(s.buf) {
      var t := Take(hpack, s.(buf := Rest(s.buf)), Head(s.buf));
      FirstFrame(hpack, s, more);
      FramesNext(hpack, s);
      if !t.done {
        CalmResume(hpack, t, more);
      }
    }
  }

  lemma ParseResume(hpack: Hpack, s: State, more: seq<Byte>)
    requires !s.done
    ensures Parse(hpack, Append(s, more)) == ParseMore(hpack, Parse(hpack, s), more)
    ensures Calm(hpack, Append(s, more)) && !Parse(hpack, s).done ==> Calm(hpack, Append(Parse(hpack, s), more))
  {
    var rest := if |s.buf| >= |PREFACE| then s.buf[|PREFACE|..] else [];
    var t := if s.prefaceOK then s else s.(buf := rest, prefaceOK := true);
    if !s.prefaceOK && |s.buf| >= |PREFACE| {
      assert (s.buf + more)[..|PREFACE|] == s.buf[..|PREFACE|];
      assert (s.buf + more)[|PREFACE|..] == s.buf[|PREFACE|..] + more;
    }
    if s.prefaceOK || |s.buf| >= |PREFACE| {
      FramesResume(hpack, t, more);
      FramesPreface(hpack, t);
      if CalmFrames(hpack, Append(t, more)) {
        CalmResume(hpack, t, more);
      }
    }
  }

  /** The rest of the stream, once the first part was parsed. */
  function ParseMore(hpack: Hpack, s: State, more: seq<Byte>): State {
    if s.done then s else Parse(hpack, Append(s, more))
  }

  lemma {:induction false} FramesPreface(hpack: Hpack, s: State)
    requires s.prefaceOK
    ensures Frames(hpack, s).prefaceOK
    ensures !Frames(hpack, s).done ==> !Whole(Frames(hpack, s).buf)
    decreases |s.buf|
  {
    if !s.done && Whole(s.buf) {
      var t := Take(hpack, s.(buf := Rest(s.buf)), Head(s.buf));
      if !t.done {
        FramesPreface(hpack, t);
      }
    }
  }

  // ---------------------------------------------------------------- past the limit

  /** An unfinished buffer over the limit is the start of a frame that does not fit. */
  lemma OverLimit(hpack: Hpack, s: State)
    requires !s.done && !Parse(hpack, s).done && |Parse(hpack, s).buf| > BUFFER_LIMIT
    ensures var t := Parse(hpack, s);
            t.prefaceOK && !Whole(t.buf) && U24(t.buf) > LARGEST
  {
    if s.prefaceOK {
      FramesPreface(hpack, s);
    } else if |s.buf| >= |PREFACE| {
      FramesPreface(hpack, s.(buf := s.buf[|PREFACE|..], prefaceOK := true));
    }
  }

  /** Such a frame never completes in a calm stream, so what comes later changes nothing. */
  lemma NeverCompletes(hpack: Hpack, t: State, more: seq<Byte>)
    requires !t.done && t.prefaceOK && |t.buf| > BUFFER_LIMIT && U24(t.buf) > LARGEST
    requires Calm(hpack, Append(t, more))
    ensures Cap(Parse(hpack, Append(t, more))) == GiveUp(t)
  {
    assert U24(t.buf + more) == U24(t.buf);
    assert !Whole(t.buf + more);
  }

  lemma {:induction false} FedDone(hpack: Hpack, s: State, chunks: seq<seq<Byte>>)
    requires s.done
    ensures FeedAll(hpack, s, chunks) == s
    decreases |chunks|
  {
    if chunks != [] {
      FedDone(hpack, s, chunks[1..]);
    }
  }

  /** Nothing whole is left in the buffer, and it is within the limit. */
  predicate Settled(hpack: Hpack, s: State) {
    s.done || (Parse(hpack, s) == s && |s.buf| <= BUFFER_LIMIT)
  }

  lemma ParseTwice(hpack: Hpack, s: State)
    requires !s.done && !Parse(hpack, s).done
    ensures Parse(hpack, Parse(hpack, s)) == Parse(hpack, s)
  {
    if s.prefaceOK {
      FramesPreface(hpack, s);
    } else if |s.buf| >= |PREFACE| {
      FramesPreface(hpack, s.(buf := s.buf[|PREFACE|..], prefaceOK := true));
    }
  }

  /** After these bytes in one read, what waits for more overfills the buffer. */
  predicate Bursts(hpack: Hpack, s: State, bytes: seq<Byte>) {
    var t := Parse(hpack, Append(s, bytes));
    !t.done && |t.buf| > BUFFER_LIMIT
  }

  /** The end of a stream, however it is cut: that of one read, or giving up within the
      first `n` bytes. */
  ghost predicate EndsAt(hpack: Hpack, s: State, all: seq<Byte>, n: nat, end: State) {
    && n <= |all|
    && (end == Feed(hpack, s, all)
        || (Bursts(hpack, s, all[..n]) && end == GiveUp(Parse(hpack, Append(s, all[..n])))))
  }

  ghost predicate Ends(hpack: Hpack, s: State, all: seq<Byte>, end: State) {
    exists n: nat :: EndsAt(hpack, s, all, n, end)
  }

  lemma {:induction false} ChunksEnd(hpack: Hpack, s: State, chunks: seq<seq<Byte>>)
    requires !s.done && Settled(hpack, s)
    ensures Ends(hpack, s, Concat(chunks), FeedAll(hpack, s, chunks))
    decreases |chunks|
  {
    if chunks == [] {
      assert EndsAt(hpack, s, [], 0, s);
    } else {
      var a, b := chunks[0], Concat(chunks[1..]);
      var p := Parse(hpack, Append(s, a));
      if a == [] {
        assert a + b == b;
        ChunksEnd(hpack, s, chunks[1..]);
      } else if p.done {
        FedDone(hpack, p, chunks[1..]);
        DoneEnds(hpack, s, a, b);
      } else if |p.buf| > BUFFER_LIMIT {
        FedDone(hpack, GiveUp(p), chunks[1..]);
        BurstEnds(hpack, s, a, b);
      } else {
        StaysSettled(hpack, s, a);
        ChunksEnd(hpack, p, chunks[1..]);
        LaterEnds(hpack, s, a, b, FeedAll(hpack, p, chunks[1..]));
      }
    }
  }

  lemma AppendTwice(s: State, a: seq<Byte>, b: seq<Byte>)
    ensures Append(Append(s, a), b) == Append(s, a + b)
  {
    Associate(s.buf, a, b);
  }

  lemma DoneEnds(hpack: Hpack, s: State, a: seq<Byte>, b: seq<Byte>)
    requires !s.done && a != [] && Parse(hpack, Append(s, a)).done
    ensures Ends(hpack, s, a + b, Parse(hpack, Append(s, a)))
  {
    ParseResume(hpack, Append(s, a), b);
    AppendTwice(s, a, b);
    assert EndsAt(hpack, s, a + b, 0, Parse(hpack, Append(s, a)));
  }

  lemma BurstEnds(hpack: Hpack, s: State, a: seq<Byte>, b: seq<Byte>)
    requires Bursts(hpack, s, a)
    ensures Ends(hpack, s, a + b, GiveUp(Parse(hpack, Append(s, a))))
  {
    assert (a + b)[..|a|] == a;
    assert EndsAt(hpack, s, a + b, |a|, GiveUp(Parse(hpack, Append(s, a))));
  }

  lemma StaysSettled(hpack: Hpack, s: State, a: seq<Byte>)
    requires !s.done && a != [] && !Parse(hpack, Append(s, a)).done && |Parse(hpack, Append(s, a)).buf| <= BUFFER_LIMIT
    ensures Settled(hpack, Parse(hpack, Append(s, a))) && Feed(hpack, s, a) == Parse(hpack, Append(s, a))
  {
    ParseTwice(hpack, Append(s, a));
  }

  lemma LaterEnds(hpack: Hpack, s: State, a: seq<Byte>, b: seq<Byte>, end: State)
    requires !s.done && a != []
    requires var p := Parse(hpack, Append(s, a));
             !p.done && |p.buf| <= BUFFER_LIMIT && Settled(hpack, p) && Ends(hpack, p, b, end)
    ensures Ends(hpack, s, a + b, end)
  {
    var m: nat :| EndsAt(hpack, Parse(hpack, Append(s, a)), b, m, end);
    LaterEndsAt(hpack, s, a, b, m, end);
  }

  lemma LaterEndsAt(hpack: Hpack, s: State, a: seq<Byte>, b: seq<Byte>, m: nat, end: State)
    requires !s.done && a != []
    requires var p := Parse(hpack, Append(s, a));
             !p.done && |p.buf| <= BUFFER_LIMIT && Settled(hpack, p) && EndsAt(hpack, p, b, m, end)
    ensures EndsAt(hpack, s, a + b, |a| + m, end)
  {
    var p := Parse(hpack, Append(s, a));
    assert (a + b)[..|a| + m] == a + b[..m];
    AppendTwice(s, a, b[..m]);
    ParseResume(hpack, Append(s, a), b[..m]);
    AppendTwice(s, a, b);
    ParseResume(hpack, Append(s, a), b);
    if b == [] {
      assert a + b == a;
    }
  }

  /** For every stream whose completed frames have a payload of at most 65528 bytes and every
      way of cutting it into reads: one fingerprint, one verdict, one state. */
  lemma ChunkingIndependence(hpack: Hpack, stream: seq<Byte>, chunks: seq<seq<Byte>>)
    requires Concat(chunks) == stream && Calm(hpack, Append(START, stream))
    ensures FeedAll(hpack, START, chunks) == Feed(hpack, START, stream)
  {
    assert Settled(hpack, START);
    ChunksEnd(hpack, START, chunks);
    var n: nat :| EndsAt(hpack, START, stream, n, FeedAll(hpack, START, chunks));
    CalmEnds(hpack, START, stream, n, FeedAll(hpack, START, chunks));
  }

  lemma CalmEnds(hpack: Hpack, s: State, all: seq<Byte>, n: nat, end: State)
    requires !s.done && Settled(hpack, s) && Calm(hpack, Append(s, all)) && EndsAt(hpack, s, all, n, end)
    ensures end == Feed(hpack, s, all)
  {
    if all == [] {
      assert Append(s, all[..n]) == s;
    } else if Bursts(hpack, s, all[..n]) {
      SplitAt(all, n);
      CalmBursts(hpack, s, all[..n], all[n..]);
    }
  }

  lemma CalmBursts(hpack: Hpack, s: State, a: seq<Byte>, b: seq<Byte>)
    requires !s.done && Bursts(hpack, s, a) && a + b != [] && Calm(hpack, Append(s, a + b))
    ensures Feed(hpack, s, a + b) == GiveUp(Parse(hpack, Append(s, a)))
  {
    AppendTwice(s, a, b);
    ParseResume(hpack, Append(s, a), b);
    OverLimit(hpack, Append(s, a));
    NeverCompletes(hpack, Parse(hpack, Append(s, a)), b);
  }

  // ---------------------------------------------------------------- the condition is exact

  lemma WholeTake(buf: seq<Byte>, m: nat)
    requires Whole(buf) && m <= |Rest(buf)|
    ensures var cut := buf[..9 + U24(buf) + m];
            Whole(cut) && U24(cut) == U24(buf) && Head(cut) == Head(buf) && Rest(cut) == Rest(buf)[..m]
  {
    var n := 9 + U24(buf);
    var cut := buf[..n + m];
    assert cut[9..n] == buf[9..n];
    assert U32(cut[5..]) == U32(buf[5..]);
  }

  lemma TakeElsewhere(hpack: Hpack, s: State, f: Frame, buf: seq<Byte>)
    requires !Take(hpack, s, f).done
    ensures Take(hpack, s.(buf := buf), f) == Take(hpack, s, f).(buf := buf)
  {
  }

  lemma FramesStuck(hpack: Hpack, s: State)
    requires !Whole(s.buf)
    ensures Frames(hpack, s) == s
  {
  }

  lemma CutLater(hpack: Hpack, s: State, t: State, m: nat)
    requires !s.done && Whole(s.buf) && m <= |Rest(s.buf)|
    requires t == Take(hpack, s.(buf := Rest(s.buf)), Head(s.buf)) && !t.done
    ensures Frames(hpack, s.(buf := s.buf[..9 + U24(s.buf) + m])) == Frames(hpack, t.(buf := Rest(s.buf)[..m]))
  {
    var f, rest := Head(s.buf), Rest(s.buf);
    var u := s.(buf := s.buf[..9 + U24(s.buf) + m]);
    assert Whole(u.buf) && Head(u.buf) == f && Rest(u.buf) == rest[..m] by {
      WholeTake(s.buf, m);
    }
    assert Take(hpack, s.(buf := rest[..m]), f) == t.(buf := rest[..m]) by {
      TakeElsewhere(hpack, s.(buf := rest), f, rest[..m]);
    }
    assert u.(buf := Rest(u.buf)) == s.(buf := rest[..m]);
    FramesNext(hpack, u);
  }

  /** The state at the head of the first frame that completes and does not fit. */
  function FirstOversize(hpack: Hpack, s: State): (o: State)
    requires !s.done && !CalmFrames(hpack, s)
    decreases |s.buf|
  {
    if U24(s.buf) > LARGEST then s
    else FirstOversize(hpack, Take(hpack, s.(buf := Rest(s.buf)), Head(s.buf)))
  }

  function Behind(stream: seq<Byte>): State
    requires |stream| >= |PREFACE|
  {
    START.(buf := stream[|PREFACE|..], prefaceOK := true)
  }

  lemma UncalmFrames(hpack: Hpack, stream: seq<Byte>)
    requires !Calm(hpack, Append(START, stream))
    ensures |stream| >= |PREFACE| && stream[..|PREFACE|] == PREFACE && !CalmFrames(hpack, Behind(stream))
  {
    assert Append(START, stream).buf == stream;
  }

  /** The end for a sniffer that gives up in the first frame that does not fit. */
  function GivenUp(hpack: Hpack, stream: seq<Byte>): State
    requires !Calm(hpack, Append(START, stream))
  {
    UncalmFrames(hpack, stream);
    GiveUp(FirstOversize(hpack, Behind(stream)))
  }

  ghost predicate Stuck(hpack: Hpack, s: State) {
    !Frames(hpack, s).done && |Frames(hpack, s).buf| > BUFFER_LIMIT
  }

  /** Some beginning of what is buffered overfills the buffer, and giving up there is `end`. */
  ghost predicate Overfills(hpack: Hpack, s: State, end: State) {
    exists n: nat | n <= |s.buf| ::
      Stuck(hpack, s.(buf := s.buf[..n])) && GiveUp(Frames(hpack, s.(buf := s.buf[..n]))) == end
  }

  lemma OversizeHere(hpack: Hpack, s: State)
    requires !s.done && Whole(s.buf) && U24(s.buf) > LARGEST
    ensures Overfills(hpack, s, GiveUp(s))
  {
    var n := 8 + U24(s.buf);
    assert U24(s.buf[..n]) == U24(s.buf);
    FramesStuck(hpack, s.(buf := s.buf[..n]));
    assert Stuck(hpack, s.(buf := s.buf[..n]));
  }

  lemma OversizeLater(hpack: Hpack, s: State, t: State, end: State)
    requires !s.done && Whole(s.buf)
    requires t == Take(hpack, s.(buf := Rest(s.buf)), Head(s.buf)) && !t.done
    requires Overfills(hpack, t, end)
    ensures Overfills(hpack, s, end)
  {
    assert t.buf == Rest(s.buf);
    var m: nat :| m <= |t.buf| && Stuck(hpack, t.(buf := t.buf[..m]))
      && GiveUp(Frames(hpack, t.(buf := t.buf[..m]))) == end;
    CutLater(hpack, s, t, m);
    assert Stuck(hpack, s.(buf := s.buf[..9 + U24(s.buf) + m]));
  }

  /** The first frame that does not fit overfills the buffer while it lacks its last byte. */
  lemma {:induction false} OversizeOverfills(hpack: Hpack, s: State)
    requires !s.done && !CalmFrames(hpack, s)
    ensures Overfills(hpack, s, GiveUp(FirstOversize(hpack, s)))
    decreases |s.buf|
  {
    if U24(s.buf) > LARGEST {
      OversizeHere(hpack, s);
    } else {
      var t := Take(hpack, s.(buf := Rest(s.buf)), Head(s.buf));
      OversizeOverfills(hpack, t);
      OversizeLater(hpack, s, t, GiveUp(FirstOversize(hpack, t)));
    }
  }

  lemma PrefaceTake(stream: seq<Byte>, n: nat)
    requires |stream| >= |PREFACE| + n
    ensures stream[..|PREFACE| + n][..|PREFACE|] == stream[..|PREFACE|]
    ensures stream[..|PREFACE| + n][|PREFACE|..] == stream[|PREFACE|..][..n]
  {
  }

  /** The beginning of a stream, parsed in one read. */
  lemma ParseBegins(hpack: Hpack, stream: seq<Byte>, n: nat)
    requires |stream| >= |PREFACE| + n && stream[..|PREFACE|] == PREFACE
    ensures var t := Behind(stream);
            Parse(hpack, Append(START, stream[..|PREFACE| + n])) == Frames(hpack, t.(buf := t.buf[..n]))
  {
    PrefaceTake(stream, n);
    assert Append(START, stream[..|PREFACE| + n]).buf == stream[..|PREFACE| + n];
  }

  lemma GivesUpAt(hpack: Hpack, stream: seq<Byte>) returns (n: nat)
    requires !Calm(hpack, Append(START, stream))
    ensures n <= |stream| && Feed(hpack, START, stream[..n]) == GivenUp(hpack, stream)
  {
    UncalmFrames(hpack, stream);
    OversizeOverfills(hpack, Behind(stream));
    n := GivesUpBehind(hpack, stream, GivenUp(hpack, stream));
  }

  lemma GivesUpBehind(hpack: Hpack, stream: seq<Byte>, end: State) returns (n: nat)
    requires |stream| >= |PREFACE| && stream[..|PREFACE|] == PREFACE && Overfills(hpack, Behind(stream), end)
    ensures n <= |stream| && Feed(hpack, START, stream[..n]) == end
  {
    var t := Behind(stream);
    var m: nat :| m <= |t.buf| && Stuck(hpack, t.(buf := t.buf[..m]))
      && GiveUp(Frames(hpack, t.(buf := t.buf[..m]))) == end;
    n := |PREFACE| + m;
    StuckFed(hpack, stream, m);
  }

  lemma StuckFed(hpack: Hpack, stream: seq<Byte>, m: nat)
    requires |stream| >= |PREFACE| + m && stream[..|PREFACE|] == PREFACE
    requires Stuck(hpack, Behind(stream).(buf := Behind(stream).buf[..m]))
    ensures Feed(hpack, START, stream[..|PREFACE| + m])
            == GiveUp(Frames(hpack, Behind(stream).(buf := Behind(stream).buf[..m])))
  {
    ParseBegins(hpack, stream, m);
  }

  lemma DoneStays(hpack: Hpack, s: State, a: seq<Byte>, b: seq<Byte>)
    requires Feed(hpack, s, a).done
    ensures FeedAll(hpack, s, [a, b]) == Feed(hpack, s, a)
  {
    FedDone(hpack, Feed(hpack, s, a), [b]);
    assert [a, b][1..] == [b];
  }

  /** A frame of more than 65528 bytes that the stream completes can be cut one byte before
      its end, and there the sniffer gives up with no fingerprint: not what one read ends
      with, if that goes on or completes the fingerprint. */
  lemma OversizeMatters(hpack: Hpack, stream: seq<Byte>) returns (a: seq<Byte>, b: seq<Byte>)
    requires !Calm(hpack, Append(START, stream))
    ensures a + b == stream && FeedAll(hpack, START, [a, b]) == GivenUp(hpack, stream)
    ensures GivenUp(hpack, stream).done && !GivenUp(hpack, stream).fp.complete
    ensures var one := Feed(hpack, START, stream);
            !one.done || one.fp.complete ==> FeedAll(hpack, START, [a, b]) != one
  {
    var n := GivesUpAt(hpack, stream);
    a, b := stream[..n], stream[n..];
    GivenUpIsPlain(hpack, stream);
    DoneStays(hpack, START, a, b);
  }

  lemma GivenUpIsPlain(hpack: Hpack, stream: seq<Byte>)
    requires !Calm(hpack, Append(START, stream))
    ensures GivenUp(hpack, stream).done && !GivenUp(hpack, stream).fp.complete
  {
    UncalmFrames(hpack, stream);
    FirstIsPlain(hpack, Behind(stream));
  }

  // ---------------------------------------------------------------- what is captured on the way

  predicate Kept(a: Fingerprint, b: Fingerprint) {
    && (a.settings.Some? ==> b.settings == a.settings)
    && (a.windowUpdate != 0 ==> b.windowUpdate == a.windowUpdate)
    && a.priority <= b.priority
  }

  lemma {:induction false} FramesKeep(hpack: Hpack, s: State)
    ensures Kept(s.fp, Frames(hpack, s).fp)
    decreases |s.buf|
  {
    if !s.done && Whole(s.buf) {
      var t := Take(hpack, s.(buf := Rest(s.buf)), Head(s.buf));
      assert Kept(s.fp, t.fp);
      if !t.done {
        FramesKeep(hpack, t);
      }
    }
  }

  predicate Plain(fp: Fingerprint) {
    fp.pseudo == "" && !fp.complete
  }

  /** Up to the end of the first header block nothing of it is told. */
  lemma {:induction false} FramesPlain(hpack: Hpack, s: State)
    requires Plain(s.fp)
    ensures !Frames(hpack, s).done ==> Plain(Frames(hpack, s).fp)
    decreases |s.buf|
  {
    if !s.done && Whole(s.buf) {
      var t := Take(hpack, s.(buf := Rest(s.buf)), Head(s.buf));
      if !t.done {
        FramesPlain(hpack, t);
      }
    }
  }

  lemma {:induction false} FirstIsPlain(hpack: Hpack, s: State)
    requires !s.done && !CalmFrames(hpack, s) && Plain(s.fp) && s.prefaceOK
    ensures Plain(FirstOversize(hpack, s).fp) && FirstOversize(hpack, s).prefaceOK
    decreases |s.buf|
  {
    if U24(s.buf) <= LARGEST {
      FirstIsPlain(hpack, Take(hpack, s.(buf := Rest(s.buf)), Head(s.buf)));
    }
  }

  lemma KeptBothWays(a: Fingerprint, b: Fingerprint)
    requires Kept(a, b) && Kept(b, a) && Plain(a) && Plain(b)
    ensures a == b
  {
  }

  /** Wherever the sniffer gives up, it has gone as far as the first frame that does not fit. */
  lemma {:induction false} StuckIsLater(hpack: Hpack, s: State, m: nat)
    requires !s.done && !CalmFrames(hpack, s) && m <= |s.buf| && Stuck(hpack, s.(buf := s.buf[..m]))
    ensures Kept(FirstOversize(hpack, s).fp, Frames(hpack, s.(buf := s.buf[..m])).fp)
    decreases |s.buf|
  {
    if U24(s.buf) > LARGEST {
      FramesKeep(hpack, s.(buf := s.buf[..m]));
    } else if m < 9 + U24(s.buf) {
      NotStuck(hpack, s, m);
    } else {
      var t, k := CutFrame(hpack, s, m);
      StuckIsLater(hpack, t, k);
    }
  }

  /** Without the end of a frame that fits, the buffer is not overfilled. */
  lemma NotStuck(hpack: Hpack, s: State, m: nat)
    requires Whole(s.buf) && U24(s.buf) <= LARGEST && m < 9 + U24(s.buf)
    ensures !Stuck(hpack, s.(buf := s.buf[..m]))
  {
    var cut := s.buf[..m];
    if m >= 9 {
      assert U24(cut) == U24(s.buf);
    }
    FramesStuck(hpack, s.(buf := cut));
  }

  /** The cut stream past its first frame. */
  lemma CutFrame(hpack: Hpack, s: State, m: nat) returns (t: State, k: nat)
    requires !s.done && !CalmFrames(hpack, s) && U24(s.buf) <= LARGEST && 9 + U24(s.buf) <= m <= |s.buf|
    ensures !t.done && !CalmFrames(hpack, t) && FirstOversize(hpack, s) == FirstOversize(hpack, t)
    ensures k <= |t.buf| < |s.buf| && Frames(hpack, s.(buf := s.buf[..m])) == Frames(hpack, t.(buf := t.buf[..k]))
  {
    t := Take(hpack, s.(buf := Rest(s.buf)), Head(s.buf));
    k := m - 9 - U24(s.buf);
    CutLater(hpack, s, t, k);
  }

  /** When one read ends as giving up in the first such frame would, giving up in a later
      one ends so too. */
  lemma BurstsAlike(hpack: Hpack, stream: seq<Byte>, n: nat)
    requires !Calm(hpack, Append(START, stream)) && n <= |stream| && Bursts(hpack, START, stream[..n])
    requires Feed(hpack, START, stream) == GivenUp(hpack, stream)
    ensures GiveUp(Parse(hpack, Append(START, stream[..n]))) == GivenUp(hpack, stream)
  {
    var p := Parse(hpack, Append(START, stream[..n]));
    UncalmFrames(hpack, stream);
    OverLimit(hpack, Append(START, stream[..n]));
    var t := Behind(stream);
    var m := n - |PREFACE|;
    ParseBegins(hpack, stream, m);
    StuckIsLater(hpack, t, m);
    FirstIsPlain(hpack, t);
    FramesPlain(hpack, t.(buf := t.buf[..m]));
    LaterKeeps(hpack, stream, n);
    KeptBothWays(p.fp, GivenUp(hpack, stream).fp);
  }

  lemma LaterKeeps(hpack: Hpack, stream: seq<Byte>, n: nat)
    requires n <= |stream| && stream != []
    ensures Kept(Parse(hpack, Append(START, stream[..n])).fp, Feed(hpack, START, stream).fp)
  {
    var s := Append(START, stream[..n]);
    SplitAt(stream, n);
    AppendTwice(START, stream[..n], stream[n..]);
    ParseResume(hpack, s, stream[n..]);
    var p := Parse(hpack, s);
    if !p.done {
      ParseKeeps(hpack, Append(p, stream[n..]));
    }
  }

  lemma ParseKeeps(hpack: Hpack, s: State)
    ensures Kept(s.fp, Parse(hpack, s).fp)
  {
    if s.prefaceOK {
      FramesKeep(hpack, s);
    } else if |s.buf| >= |PREFACE| {
      FramesKeep(hpack, s.(buf := s.buf[|PREFACE|..], prefaceOK := true));
    }
  }

  /** For every stream: the reads do not matter exactly when every frame it completes fits
      the buffer, or one read ends just as giving up in the first that does not fit. */
  lemma CalmIsExact(hpack: Hpack, stream: seq<Byte>)
    ensures Calm(hpack, Append(START, stream)) || Feed(hpack, START, stream) == GivenUp(hpack, stream) <==>
            forall chunks | Concat(chunks) == stream :: FeedAll(hpack, START, chunks) == Feed(hpack, START, stream)
  {
    if Calm(hpack, Append(START, stream)) {
      forall chunks | Concat(chunks) == stream
        ensures FeedAll(hpack, START, chunks) == Feed(hpack, START, stream)
      {
        ChunkingIndependence(hpack, stream, chunks);
      }
    } else if Feed(hpack, START, stream) == GivenUp(hpack, stream) {
      forall chunks | Concat(chunks) == stream
        ensures FeedAll(hpack, START, chunks) == Feed(hpack, START, stream)
      {
        ChunksEnd(hpack, START, chunks);
        var n: nat :| EndsAt(hpack, START, stream, n, FeedAll(hpack, START, chunks));
        if Bursts(hpack, START, stream[..n]) {
          BurstsAlike(hpack, stream, n);
        }
      }
    } else {
      var a, b := OversizeMatters(hpack, stream);
      ConcatTwo(a, b);
    }
  }

  lemma ConcatTwo(a: seq<Byte>, b: seq<Byte>)
    ensures Concat([a, b]) == a + b
  {
    assert [a, b][1..] == [b] && [b][1..] == [];
    assert Concat([b]) == b + Concat([]) == b;
  }

  // ---------------------------------------------------------------- what was captured stays

  /** SETTINGS once seen and a window increment once non-zero never change, and PRIORITY
      frames are only added, whatever comes. */
  lemma {:induction false} CapturedStays(hpack: Hpack, s: State, chunks: seq<seq<Byte>>)
    ensures Kept(s.fp, FeedAll(hpack, s, chunks).fp)
    ensures s.done ==> FeedAll(hpack, s, chunks) == s
    decreases |chunks|
  {
    if chunks != [] {
      ParseKeeps(hpack, Append(s, chunks[0]));
      CapturedStays(hpack, Feed(hpack, s, chunks[0]), chunks[1..]);
    }
  }
}
