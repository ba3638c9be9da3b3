/** Which window an event is counted in, and what every window and every batch of a run
    holds: exactly the events that finished in its five minutes, and the late ones that
    came while it was the oldest still open. */
module WindowContents {
  import opened Wrappers
  import opened Ordering
  import opened Sequences
  import opened Sums
  import opened Counters
  import opened Folding
  import opened Windows
  import opened Packing
  import opened Outbox
  import opened Pipeline
  import opened PipelineLaws
  import opened PipelineOrder
  import opened PipelineRuns

  // ---------------------------------------------------------------- where an event lands

  predicate Aligned(k: int) {
    k % WINDOW_LENGTH == 0
  }

  /** The event belongs to window k: it finished in its five minutes, or before the edge
      and k is the edge. */
  predicate LandsIn(edge: int, at: int, k: int) {
    Aligned(k) && if edge <= at then k <= at < k + WINDOW_LENGTH else k == edge
  }

  lemma AlignedGap(a: int, b: int)
    requires Aligned(a) && Aligned(b) && a < b
    ensures a + WINDOW_LENGTH <= b
  {
    assert a == WINDOW_LENGTH * (a / WINDOW_LENGTH) && b == WINDOW_LENGTH * (b / WINDOW_LENGTH);
  }

  lemma TruncateIs(t: int, k: int)
    requires Aligned(k) && k <= t < k + WINDOW_LENGTH
    ensures Truncate(t) == k
  {
    assert Aligned(Truncate(t)) && Truncate(t) <= t < Truncate(t) + WINDOW_LENGTH;
    if Truncate(t) < k {
      AlignedGap(Truncate(t), k);
    } else if k < Truncate(t) {
      AlignedGap(k, Truncate(t));
    }
  }

  /** An event grows exactly the window it belongs to. */
  lemma EventLands<C>(cfg: Config<C>, s: Pipe<C>, at: int, key: Key, one: C, k: int)
    requires Aligned(s.openFrom) && LandsIn(s.openFrom, at, k)
    ensures AddEvent(cfg, s, at, key, one)
            == s.(windows := s.windows[k := Grown(cfg, WindowAt(s.windows, k), key, one)])
  {
    if s.openFrom <= at {
      TruncateIs(at, k);
      if k < s.openFrom {
        AlignedGap(k, s.openFrom);
      }
    }
  }

  lemma Lands(edge: int, at: int) returns (k: int)
    requires Aligned(edge)
    ensures LandsIn(edge, at, k) && edge <= k
    ensures forall j | j != k :: !LandsIn(edge, at, j)
  {
    k := if edge <= at then Truncate(at) else edge;
    if k < edge {
      AlignedGap(k, edge);
    }
    forall j | j != k
      ensures !LandsIn(edge, at, j)
    {
      if LandsIn(edge, at, j) {
        if j < k { AlignedGap(j, k); } else { AlignedGap(k, j); }
      }
    }
  }

  /** A tick closes exactly the windows that ended at least ten seconds ago. */
  lemma TickCloses<C>(cfg: Config<C>, s: Pipe<C>, now: int, facts: int -> int, k: int)
    requires cfg.Valid() && Aligned(s.openFrom) && Aligned(k) && s.openFrom <= k && k in s.windows
    ensures k in CloseWindows(cfg, s, now, facts).windows <==> now < k + WINDOW_LENGTH + 10_000_000_000
  {
    var edge := Truncate(now - GRACE);
    assert Aligned(edge) && edge <= now - GRACE < edge + WINDOW_LENGTH;
    if k < edge {
      AlignedGap(k, edge);
    } else if edge < k {
      AlignedGap(edge, k);
    }
  }

  // ---------------------------------------------------------------- what a run says of a window

  /** The start of the oldest window open after some steps. */
  function EdgeAfter<C>(openFrom: int, steps: seq<Step<C>>): int {
    if steps == [] then openFrom
    else
      var before, last := EdgeAfter(openFrom, steps[..|steps| - 1]), steps[|steps| - 1];
      if last.Tick? && before < (last.now - 10_000_000_000) / WINDOW_LENGTH * WINDOW_LENGTH
      then (last.now - 10_000_000_000) / WINDOW_LENGTH * WINDOW_LENGTH else before
  }

  /** The events that belong to window k, in their order. */
  function EventsFor<C>(openFrom: int, steps: seq<Step<C>>, k: int): seq<(Key, C)> {
    if steps == [] then []
    else
      var init, last := steps[..|steps| - 1], steps[|steps| - 1];
      EventsFor(openFrom, init, k)
        + if last.Event? && LandsIn(EdgeAfter(openFrom, init), last.at, k) then [(last.key, last.one)] else []
  }

  /** The fact set version read when window k was closed. */
  function VersionFor<C>(openFrom: int, steps: seq<Step<C>>, k: int): int {
    if steps == [] then 0
    else
      var init, last := steps[..|steps| - 1], steps[|steps| - 1];
      if last.Tick? && EdgeAfter(openFrom, init) <= k < EdgeAfter(openFrom, steps) then last.facts(k)
      else VersionFor(openFrom, init, k)
  }

  /** The window counts these events and no others. */
  ghost predicate Holds<C>(cfg: Config<C>, w: Open<C>, events: seq<(Key, C)>) {
    (w.rows, w.overflow) == AddAll(cfg.m, cfg.liveLimit, events)
  }

  /** The rows of a closed window lay out exactly the events that belong to it. */
  ghost predicate Genuine<C>(cfg: Config<C>, openFrom: int, steps: seq<Step<C>>, c: Closed<C>)
    requires cfg.Valid()
  {
    && c.start < EdgeAfter(openFrom, steps) && Aligned(c.start)
    && EventsFor(openFrom, steps, c.start) != []
    && c.facts == VersionFor(openFrom, steps, c.start)
    && var (rows, overflow) := AddAll(cfg.m, cfg.liveLimit, EventsFor(openFrom, steps, c.start));
       c.rows == CloseOf(cfg.m, cfg.lt, c.start, rows, overflow, cfg.maxRows)
  }

  ghost predicate AllGenuine<C>(cfg: Config<C>, openFrom: int, steps: seq<Step<C>>, closed: seq<Closed<C>>)
    requires cfg.Valid()
  {
    forall i | 0 <= i < |closed| :: Genuine(cfg, openFrom, steps, closed[i])
  }

  /** The batch is made of these windows, one after the other. */
  ghost predicate Wraps<C>(b: Batch<C>, ws: seq<Closed<C>>) {
    && ws != [] && b.key == ws[0].start && b.rows == RowsIn(ws)
    && forall i | 0 <= i < |ws| :: ws[i].facts == b.facts
  }

  ghost predicate Wrapped<C>(b: Batch<C>, gone: seq<Closed<C>>) {
    exists i, j | 0 <= i < j <= |gone| :: Wraps(b, gone[i..j])
  }

  /** The batch is on disk, in hand, or among those that left the outbox. */
  ghost predicate Somewhere<C>(w: World<C>, b: Batch<C>) {
    || b in w.accepted || b in w.dropped || b in w.trimmed || b in w.twice
    || w.posting == Some(b) || OnDisk(w.files, b)
  }

  ghost predicate OnDisk<C>(files: Files<C>, b: Batch<C>) {
    exists k | k in files :: files[k] == b
  }

  ghost predicate AmongClosed<C>(closed: seq<Closed<C>>, k: int) {
    exists i | 0 <= i < |closed| :: closed[i].start == k
  }

  ghost predicate Complete<C>(openFrom: int, steps: seq<Step<C>>, closed: seq<Closed<C>>) {
    forall k | k < EdgeAfter(openFrom, steps) && EventsFor(openFrom, steps, k) != [] ::
      AmongClosed(closed, k)
  }

  /** The open windows hold the events that belong to them. */
  ghost predicate OpenHold<C>(cfg: Config<C>, openFrom: int, steps: seq<Step<C>>, s: Pipe<C>) {
    && s.openFrom == EdgeAfter(openFrom, steps) && Aligned(s.openFrom)
    && (forall k :: k in s.windows <==> s.openFrom <= k && EventsFor(openFrom, steps, k) != [])
    && (forall k | k in s.windows :: Holds(cfg, s.windows[k], EventsFor(openFrom, steps, k)))
  }

  /** The closed windows hold the events that belong to them, and none is missing. */
  ghost predicate ClosedHold<C>(cfg: Config<C>, openFrom: int, steps: seq<Step<C>>, closed: seq<Closed<C>>)
    requires cfg.Valid()
  {
    Rising(closed) && AllGenuine(cfg, openFrom, steps, closed) && Complete(openFrom, steps, closed)
  }

  ghost predicate BatchesFrom<C(!new)>(w: World<C>, gone: seq<Closed<C>>) {
    forall b | Somewhere(w, b) :: Wrapped(b, gone)
  }

  /** Where the events of a run are: `gone` are the windows handed over in batches. */
  ghost predicate Kept<C(!new)>(cfg: Config<C>, openFrom: int, steps: seq<Step<C>>, w: World<C>, gone: seq<Closed<C>>)
    requires cfg.Valid()
  {
    && OpenHold(cfg, openFrom, steps, w.pipe) && ClosedHold(cfg, openFrom, steps, gone + w.pipe.pending)
    && BatchesFrom(w, gone)
  }

  // ---------------------------------------------------------------- one step longer

  lemma Longer<C>(openFrom: int, steps: seq<Step<C>>, step: Step<C>, k: int)
    ensures EdgeAfter(openFrom, steps + [step])
            == if step.Tick? && EdgeAfter(openFrom, steps) < (step.now - GRACE) / WINDOW_LENGTH * WINDOW_LENGTH
               then (step.now - GRACE) / WINDOW_LENGTH * WINDOW_LENGTH else EdgeAfter(openFrom, steps)
    ensures EventsFor(openFrom, steps + [step], k)
            == EventsFor(openFrom, steps, k)
               + if step.Event? && LandsIn(EdgeAfter(openFrom, steps), step.at, k) then [(step.key, step.one)] else []
    ensures VersionFor(openFrom, steps + [step], k)
            == if step.Tick? && EdgeAfter(openFrom, steps) <= k < EdgeAfter(openFrom, steps + [step])
               then step.facts(k) else VersionFor(openFrom, steps, k)
  {
    PushInit(steps, step);
  }

  /** Nothing is added to a window once it is closed. */
  lemma StaysGenuine<C>(cfg: Config<C>, openFrom: int, steps: seq<Step<C>>, step: Step<C>, c: Closed<C>)
    requires cfg.Valid() && Aligned(EdgeAfter(openFrom, steps)) && Genuine(cfg, openFrom, steps, c)
    ensures Genuine(cfg, openFrom, steps + [step], c)
    ensures EventsFor(openFrom, steps + [step], c.start) == EventsFor(openFrom, steps, c.start)
  {
    Longer(openFrom, steps, step, c.start);
    ClosedToEvents(openFrom, steps, step, c.start);
  }

  lemma ClosedToEvents<C>(openFrom: int, steps: seq<Step<C>>, step: Step<C>, k: int)
    requires Aligned(EdgeAfter(openFrom, steps)) && k < EdgeAfter(openFrom, steps)
    ensures EventsFor(openFrom, steps + [step], k) == EventsFor(openFrom, steps, k)
  {
    var edge := EdgeAfter(openFrom, steps);
    Longer(openFrom, steps, step, k);
    if Aligned(k) {
      AlignedGap(k, edge);
    }
    AppendNothing(EventsFor(openFrom, steps, k), []);
  }

  lemma AllStayGenuine<C>(cfg: Config<C>, openFrom: int, steps: seq<Step<C>>, step: Step<C>, closed: seq<Closed<C>>)
    requires cfg.Valid() && Aligned(EdgeAfter(openFrom, steps)) && AllGenuine(cfg, openFrom, steps, closed)
    ensures AllGenuine(cfg, openFrom, steps + [step], closed)
  {
    forall i | 0 <= i < |closed|
      ensures Genuine(cfg, openFrom, steps + [step], closed[i])
    {
      StaysGenuine(cfg, openFrom, steps, step, closed[i]);
    }
  }

  lemma AddAllNext<C>(m: Monoid<C>, liveLimit: nat, events: seq<(Key, C)>, key: Key, one: C)
    ensures var (rows, overflow) := AddAll(m, liveLimit, events);
            AddAll(m, liveLimit, events + [(key, one)]) == Added(m, liveLimit, rows, overflow, key, one)
  {
    PushInit(events, (key, one));
  }

  // ---------------------------------------------------------------- an event

  lemma EventKept<C(!new)>(cfg: Config<C>, openFrom: int, steps: seq<Step<C>>, w: World<C>, gone: seq<Closed<C>>,
                           at: int, key: Key, one: C)
    requires cfg.Valid() && Kept(cfg, openFrom, steps, w, gone)
    ensures Kept(cfg, openFrom, steps + [Event(at, key, one)], AfterEvent(cfg, w, at, key, one), gone)
  {
    EventOpen(cfg, openFrom, steps, w.pipe, at, key, one);
    SameClosed(cfg, openFrom, steps, Event(at, key, one), gone + w.pipe.pending);
    SamePlaces(w, AfterEvent(cfg, w, at, key, one), gone);
  }

  lemma SamePlaces<C(!new)>(w: World<C>, v: World<C>, gone: seq<Closed<C>>)
    requires v == w.(pipe := v.pipe, counted := v.counted) && BatchesFrom(w, gone)
    ensures BatchesFrom(v, gone)
  {
    forall b | Somewhere(v, b)
      ensures Wrapped(b, gone)
    {
      assert Somewhere(w, b);
    }
  }

  lemma SameClosed<C>(cfg: Config<C>, openFrom: int, steps: seq<Step<C>>, step: Step<C>, closed: seq<Closed<C>>)
    requires cfg.Valid() && ClosedHold(cfg, openFrom, steps, closed) && Aligned(EdgeAfter(openFrom, steps))
    requires EdgeAfter(openFrom, steps + [step]) == EdgeAfter(openFrom, steps)
    ensures ClosedHold(cfg, openFrom, steps + [step], closed)
  {
    AllStayGenuine(cfg, openFrom, steps, step, closed);
    forall k | k < EdgeAfter(openFrom, steps) && EventsFor(openFrom, steps + [step], k) != []
      ensures AmongClosed(closed, k)
    {
      ClosedToEvents(openFrom, steps, step, k);
    }
  }

  lemma EventOpen<C>(cfg: Config<C>, openFrom: int, steps: seq<Step<C>>, s: Pipe<C>, at: int, key: Key, one: C)
    requires OpenHold(cfg, openFrom, steps, s)
    ensures OpenHold(cfg, openFrom, steps + [Event(at, key, one)], AddEvent(cfg, s, at, key, one))
    ensures EdgeAfter(openFrom, steps + [Event(at, key, one)]) == s.openFrom
  {
    var k := Lands(s.openFrom, at);
    EventLands(cfg, s, at, key, one, k);
    Longer(openFrom, steps, Event(at, key, one), k);
    EventWindows(cfg, openFrom, steps, s, at, key, one, k, AddEvent(cfg, s, at, key, one).windows);
  }

  lemma EventWindows<C>(cfg: Config<C>, openFrom: int, steps: seq<Step<C>>, s: Pipe<C>, at: int, key: Key, one: C,
                        k: int, windows: map<int, Open<C>>)
    requires s.openFrom == EdgeAfter(openFrom, steps) && Aligned(s.openFrom)
    requires LandsIn(s.openFrom, at, k) && s.openFrom <= k && forall j | j != k :: !LandsIn(s.openFrom, at, j)
    requires windows == s.windows[k := Grown(cfg, WindowAt(s.windows, k), key, one)]
    requires forall j :: j in s.windows <==> s.openFrom <= j && EventsFor(openFrom, steps, j) != []
    requires forall j | j in s.windows :: Holds(cfg, s.windows[j], EventsFor(openFrom, steps, j))
    ensures var more := steps + [Event(at, key, one)];
            && (forall j :: j in windows <==> s.openFrom <= j && EventsFor(openFrom, more, j) != [])
            && (forall j | j in windows :: Holds(cfg, windows[j], EventsFor(openFrom, more, j)))
  {
    var more := steps + [Event(at, key, one)];
    forall j
      ensures j in windows <==> s.openFrom <= j && EventsFor(openFrom, more, j) != []
      ensures j in windows ==> Holds(cfg, windows[j], EventsFor(openFrom, more, j))
    {
      Longer(openFrom, steps, Event(at, key, one), j);
      if j == k {
        AddAllNext(cfg.m, cfg.liveLimit, EventsFor(openFrom, steps, k), key, one);
      } else {
        AppendNothing(EventsFor(openFrom, steps, j), []);
      }
    }
  }

  // ---------------------------------------------------------------- a tick

  lemma LaterIs(openFrom: int, now: int)
    requires Aligned(openFrom)
    ensures var edge := (now - GRACE) / WINDOW_LENGTH * WINDOW_LENGTH;
            Later(openFrom, now) == (if openFrom < edge then edge else openFrom) && Aligned(Later(openFrom, now))
  {
    var t := now - GRACE;
    assert t == WINDOW_LENGTH * (t / WINDOW_LENGTH) + t % WINDOW_LENGTH;
    assert Truncate(t) == t / WINDOW_LENGTH * WINDOW_LENGTH;
  }

  /** Window k as it is closed. */
  ghost function Shut<C>(cfg: Config<C>, w: Open<C>, k: int, facts: int): Closed<C>
    requires cfg.Valid()
  {
    Closed(k, facts, CloseOf(cfg.m, cfg.lt, k, w.rows, w.overflow, cfg.maxRows))
  }

  lemma CloseOneIs<C>(cfg: Config<C>, k: int, w: Open<C>, facts: int)
    requires cfg.Valid() && Live(w)
    ensures CloseOne(cfg, k, w, facts) == [Shut(cfg, w, k, facts)]
  {
    CloseOneSpans(cfg, k, w, facts);
  }

  /** These are the listed windows as they are closed, in their order. */
  ghost predicate ShutInOrder<C>(cfg: Config<C>, windows: map<int, Open<C>>, starts: seq<int>, facts: int -> int,
                                 closed: seq<Closed<C>>)
    requires cfg.Valid()
  {
    |closed| == |starts| && forall i | 0 <= i < |starts| ::
      starts[i] in windows && closed[i] == Shut(cfg, windows[starts[i]], starts[i], facts(starts[i]))
  }

  lemma ShutNext<C>(cfg: Config<C>, windows: map<int, Open<C>>, starts: seq<int>, facts: int -> int,
                    closed: seq<Closed<C>>)
    requires cfg.Valid() && starts != [] && ShutInOrder(cfg, windows, starts[..|starts| - 1], facts, closed)
    requires starts[|starts| - 1] in windows
    ensures var k := starts[|starts| - 1];
            ShutInOrder(cfg, windows, starts, facts, closed + [Shut(cfg, windows[k], k, facts(k))])
  {
  }

  lemma {:induction false} CloseAllAt<C>(cfg: Config<C>, windows: map<int, Open<C>>, starts: seq<int>,
                                         facts: int -> int)
    requires cfg.Valid() && forall i | 0 <= i < |starts| :: starts[i] in windows && Live(windows[starts[i]])
    ensures ShutInOrder(cfg, windows, starts, facts, CloseAll(cfg, windows, starts, facts))
  {
    if starts != [] {
      var n := |starts| - 1;
      CloseAllAt(cfg, windows, starts[..n], facts);
      CloseOneIs(cfg, starts[n], windows[starts[n]], facts(starts[n]));
      ShutNext(cfg, windows, starts, facts, CloseAll(cfg, windows, starts[..n], facts));
    }
  }

  lemma TickKept<C(!new)>(cfg: Config<C>, openFrom: int, steps: seq<Step<C>>, w: World<C>, gone: seq<Closed<C>>,
                          now: int, facts: int -> int)
    requires cfg.Valid() && Kept(cfg, openFrom, steps, w, gone) && PipeOrdered(cfg, w.pipe)
    ensures Kept(cfg, openFrom, steps + [Tick(now, facts)], w.(pipe := CloseWindows(cfg, w.pipe, now, facts)), gone)
  {
    var fresh_ := ClosedAt(cfg, w.pipe, now, facts);
    var next := CloseWindows(cfg, w.pipe, now, facts);
    TickOpen(cfg, openFrom, steps, w.pipe, now, facts);
    TickClosed(cfg, openFrom, steps, w.pipe, now, facts, gone + w.pipe.pending);
    Associate(gone, w.pipe.pending, fresh_);
    SamePlaces(w, w.(pipe := next), gone);
  }

  lemma TickOpen<C>(cfg: Config<C>, openFrom: int, steps: seq<Step<C>>, s: Pipe<C>, now: int, facts: int -> int)
    requires cfg.Valid() && OpenHold(cfg, openFrom, steps, s)
    ensures OpenHold(cfg, openFrom, steps + [Tick(now, facts)], CloseWindows(cfg, s, now, facts))
  {
    LaterIs(s.openFrom, now);
    Longer(openFrom, steps, Tick(now, facts), 0);
    TickEvents(openFrom, steps, Tick(now, facts));
  }

  lemma TickClosed<C>(cfg: Config<C>, openFrom: int, steps: seq<Step<C>>, s: Pipe<C>, now: int, facts: int -> int,
                      closed: seq<Closed<C>>)
    requires cfg.Valid() && OpenHold(cfg, openFrom, steps, s) && PipeOrdered(cfg, s)
    requires ClosedHold(cfg, openFrom, steps, closed)
    ensures ClosedHold(cfg, openFrom, steps + [Tick(now, facts)], closed + ClosedAt(cfg, s, now, facts))
  {
    var fresh_ := ClosedAt(cfg, s, now, facts);
    TickOpen(cfg, openFrom, steps, s, now, facts);
    TickEvents(openFrom, steps, Tick(now, facts));
    FreshlyClosed(cfg, openFrom, steps, s, now, facts, fresh_);
    AllStayGenuine(cfg, openFrom, steps, Tick(now, facts), closed);
    TickSpans(cfg, s, now, facts);
    BeforeEdge(cfg, openFrom, steps, closed);
    ClosedMore(cfg, openFrom, steps + [Tick(now, facts)], closed, fresh_, s.openFrom);
  }

  lemma BeforeEdge<C>(cfg: Config<C>, openFrom: int, steps: seq<Step<C>>, closed: seq<Closed<C>>)
    requires cfg.Valid() && AllGenuine(cfg, openFrom, steps, closed)
    ensures Below(closed, EdgeAfter(openFrom, steps))
  {
  }

  lemma TickEvents<C>(openFrom: int, steps: seq<Step<C>>, step: Step<C>)
    requires !step.Event?
    ensures forall k :: EventsFor(openFrom, steps + [step], k) == EventsFor(openFrom, steps, k)
  {
    forall k
      ensures EventsFor(openFrom, steps + [step], k) == EventsFor(openFrom, steps, k)
    {
      Longer(openFrom, steps, step, k);
      AppendNothing(EventsFor(openFrom, steps, k), []);
    }
  }

  /** The starts of the windows a tick closes. */
  lemma EndingStarts<C>(cfg: Config<C>, s: Pipe<C>, edge: int) returns (starts: seq<int>)
    requires PipeOrdered(cfg, s)
    ensures starts == InOrder(Earlier, Ending(s.windows, edge))
    ensures forall i | 0 <= i < |starts| :: starts[i] in s.windows && Live(s.windows[starts[i]]) && starts[i] < edge
    ensures forall k | k in s.windows && k < edge :: k in starts
  {
    starts := InOrder(Earlier, Ending(s.windows, edge));
    AscendingRises(Ending(s.windows, edge));
    forall i | 0 <= i < |starts|
      ensures starts[i] in s.windows && Live(s.windows[starts[i]]) && starts[i] < edge
    {
      assert starts[i] in Members(starts);
    }
    forall k | k in s.windows && k < edge
      ensures k in starts
    {
      assert k in Members(starts);
    }
  }

  lemma ShutGenuine<C>(cfg: Config<C>, openFrom: int, steps: seq<Step<C>>, s: Pipe<C>, now: int, facts: int -> int,
                       k: int)
    requires cfg.Valid() && OpenHold(cfg, openFrom, steps, s) && k in s.windows && k < Later(s.openFrom, now)
    ensures Genuine(cfg, openFrom, steps + [Tick(now, facts)], Shut(cfg, s.windows[k], k, facts(k)))
  {
    LaterIs(s.openFrom, now);
    Longer(openFrom, steps, Tick(now, facts), k);
    AppendNothing(EventsFor(openFrom, steps, k), []);
    EventsAligned(openFrom, steps, k);
  }

  /** The windows a tick closes are those with events between the old edge and the new. */
  lemma FreshlyClosed<C>(cfg: Config<C>, openFrom: int, steps: seq<Step<C>>, s: Pipe<C>, now: int, facts: int -> int,
                         closed: seq<Closed<C>>)
    requires cfg.Valid() && PipeOrdered(cfg, s) && OpenHold(cfg, openFrom, steps, s)
    requires closed == ClosedAt(cfg, s, now, facts)
    ensures AllGenuine(cfg, openFrom, steps + [Tick(now, facts)], closed)
    ensures forall k | k in s.windows && k < Later(s.openFrom, now) ::
              AmongClosed(closed, k)
  {
    var starts := EndingStarts(cfg, s, Later(s.openFrom, now));
    CloseAllAt(cfg, s.windows, starts, facts);
    forall i | 0 <= i < |closed|
      ensures Genuine(cfg, openFrom, steps + [Tick(now, facts)], closed[i])
    {
      ShutGenuine(cfg, openFrom, steps, s, now, facts, starts[i]);
    }
    forall k | k in s.windows && k < Later(s.openFrom, now)
      ensures AmongClosed(closed, k)
    {
      var i :| 0 <= i < |starts| && starts[i] == k;
      assert closed[i].start == k;
    }
  }

  lemma {:induction false} EventsAligned<C>(openFrom: int, steps: seq<Step<C>>, k: int)
    requires EventsFor(openFrom, steps, k) != []
    ensures Aligned(k)
  {
    if EventsFor(openFrom, steps[..|steps| - 1], k) != [] {
      EventsAligned(openFrom, steps[..|steps| - 1], k);
    }
  }

  lemma ClosedMore<C>(cfg: Config<C>, openFrom: int, steps: seq<Step<C>>, closed: seq<Closed<C>>,
                      more: seq<Closed<C>>, edge: int)
    requires cfg.Valid() && Rising(closed) && AllGenuine(cfg, openFrom, steps, closed) && Below(closed, edge)
    requires Rising(more) && AllGenuine(cfg, openFrom, steps, more)
    requires forall i | 0 <= i < |more| :: edge <= more[i].start
    requires forall k | k < edge && EventsFor(openFrom, steps, k) != [] :: AmongClosed(closed, k)
    requires forall k | edge <= k < EdgeAfter(openFrom, steps) && EventsFor(openFrom, steps, k) != [] ::
               AmongClosed(more, k)
    ensures ClosedHold(cfg, openFrom, steps, closed + more)
  {
    RisingMore(closed, more, edge);
    forall k | k < EdgeAfter(openFrom, steps) && EventsFor(openFrom, steps, k) != []
      ensures AmongClosed(closed + more, k)
    {
      StartsMore(closed, more, k);
    }
  }

  lemma RisingMore<C>(closed: seq<Closed<C>>, more: seq<Closed<C>>, edge: int)
    requires Rising(closed) && Below(closed, edge) && Rising(more)
    requires forall i | 0 <= i < |more| :: edge <= more[i].start
    ensures Rising(closed + more)
  {
  }

  lemma StartsMore<C>(closed: seq<Closed<C>>, more: seq<Closed<C>>, k: int)
    requires AmongClosed(closed, k) || AmongClosed(more, k)
    ensures AmongClosed(closed + more, k)
  {
    var all := closed + more;
    if AmongClosed(closed, k) {
      var i :| 0 <= i < |closed| && closed[i].start == k;
      assert all[i].start == k;
    } else {
      var i :| 0 <= i < |more| && more[i].start == k;
      assert all[|closed| + i].start == k;
    }
  }

  // ---------------------------------------------------------------- a flush

  /** One of the batches there before, or one of the first n written. */
  ghost predicate From<C>(files: Files<C>, bs: seq<Batch<C>>, n: nat, b: Batch<C>) {
    OnDisk(files, b) || b in (if n <= |bs| then bs[..n] else bs)
  }

  lemma PutFrom<C>(files: Files<C>, b: Batch<C>, limit: nat, x: Batch<C>)
    requires OnDisk(Put(files, b, Fine, limit).0, x) || x in Trimmed(files, b, limit)
    ensures OnDisk(files, x) || x == b
  {
    if b.key !in files {
      var stored := files[b.key := b];
      if OnDisk(stored - Oldest(stored, limit), x) {
        FewerOnDisk(stored, stored - Oldest(stored, limit), x);
        SetOnDisk(files, b, x);
      } else {
        TrimmedFrom(files, b, limit, x);
      }
    }
  }

  lemma HasOnDisk<C>(files: Files<C>, k: int)
    requires k in files
    ensures OnDisk(files, files[k])
  {
  }

  lemma FewerOnDisk<C>(files: Files<C>, fewer: Files<C>, x: Batch<C>)
    requires fewer.Keys <= files.Keys && (forall k | k in fewer :: fewer[k] == files[k]) && OnDisk(fewer, x)
    ensures OnDisk(files, x)
  {
    var k :| k in fewer && fewer[k] == x;
    assert k in files && files[k] == x;
  }

  lemma SetOnDisk<C>(files: Files<C>, b: Batch<C>, x: Batch<C>)
    requires OnDisk(files[b.key := b], x)
    ensures OnDisk(files, x) || x == b
  {
    var k :| k in files[b.key := b] && files[b.key := b][k] == x;
    assert k == b.key || (k in files && files[k] == x);
  }

  lemma TrimmedFrom<C>(files: Files<C>, b: Batch<C>, limit: nat, x: Batch<C>)
    requires b.key !in files && x in Trimmed(files, b, limit)
    ensures OnDisk(files, x) || x == b
  {
    var stored := files[b.key := b];
    var ids := Keys(stored)[..Excess(|Keys(stored)|, limit)];
    var i :| 0 <= i < |ids| && Trimmed(files, b, limit)[i] == x;
    if ids[i] in stored {
      HasOnDisk(stored, ids[i]);
      SetOnDisk(files, b, x);
    }
  }

  lemma {:induction false} PutAllFrom<C>(files: Files<C>, bs: seq<Batch<C>>, disk: int -> Disk, limit: nat,
                                         w: Written<C>, x: Batch<C>)
    requires w == PutAll(files, bs, disk, limit) && (OnDisk(w.files, x) || x in w.trimmed)
    ensures From(files, bs, w.n, x)
    decreases |bs|
  {
    if bs == [] || !Put(files, bs[0], disk(bs[0].key), limit).1 {
      PutNone(files, bs, disk, limit);
    } else {
      var stored, rest := PutAllNext(files, bs, disk, limit);
      if OnDisk(rest.files, x) || x in rest.trimmed {
        PutAllFrom(stored, bs[1..], disk, limit, rest, x);
      }
      PutAllStep(files, stored, bs, rest, limit, Trimmed(files, bs[0], limit), x);
    }
  }

  lemma PutAllStep<C>(files: Files<C>, stored: Files<C>, bs: seq<Batch<C>>, rest: Written<C>, limit: nat,
                      first: seq<Batch<C>>, x: Batch<C>)
    requires bs != [] && rest.n < |bs| && stored == Put(files, bs[0], Fine, limit).0
    requires first == Trimmed(files, bs[0], limit)
    requires OnDisk(rest.files, x) || x in first + rest.trimmed
    requires OnDisk(rest.files, x) || x in rest.trimmed ==> From(stored, bs[1..], rest.n, x)
    ensures From(files, bs, rest.n + 1, x)
  {
    if OnDisk(rest.files, x) || x in rest.trimmed {
      FromLater(files, stored, bs, rest.n, limit, x);
    } else {
      PutFrom(files, bs[0], limit, x);
      FromFirst(files, bs, rest.n + 1, x);
    }
  }

  lemma FromFirst<C>(files: Files<C>, bs: seq<Batch<C>>, n: nat, x: Batch<C>)
    requires bs != [] && 0 < n <= |bs| && (OnDisk(files, x) || x == bs[0])
    ensures From(files, bs, n, x)
  {
    assert bs[..n][0] == bs[0];
  }

  lemma FromLater<C>(files: Files<C>, stored: Files<C>, bs: seq<Batch<C>>, n: nat, limit: nat, x: Batch<C>)
    requires bs != [] && n < |bs| && stored == Put(files, bs[0], Fine, limit).0 && From(stored, bs[1..], n, x)
    ensures From(files, bs, n + 1, x)
  {
    if OnDisk(stored, x) {
      PutFrom(files, bs[0], limit, x);
      FromFirst(files, bs, n + 1, x);
    } else {
      AmongLater(bs, n, x);
    }
  }

  lemma AmongLater<T>(s: seq<T>, n: nat, x: T)
    requires n < |s| && x in s[1..][..n]
    ensures x in s[..n + 1]
  {
    var i :| 0 <= i < n && s[1..][..n][i] == x;
    assert s[..n + 1][i + 1] == x;
  }

  /** The i-th batch of a packing is made of windows next to each other. */
  lemma GroupSlice<C>(gs: seq<Group<C>>, n: nat, i: nat)
    requires i < n <= |gs| && gs[i] != [] && forall w | w in gs[i] :: w.facts == gs[i][0].facts
    ensures Wrapped(BatchOf(gs[i]), Flatten(gs[..n]))
  {
    var part := gs[..n];
    FlattenSplit(part, i + 1);
    assert part[..i + 1] == part[..i] + [gs[i]];
    FlattenNext(part[..i], gs[i]);
    SliceOfPrefix(Flatten(part[..i]), gs[i], Flatten(part));
    WholeGroup(gs[i]);
    SliceWraps(BatchOf(gs[i]), Flatten(part), |Flatten(part[..i])|, gs[i]);
  }

  lemma SliceWraps<C>(b: Batch<C>, ws: seq<Closed<C>>, a: nat, g: Group<C>)
    requires a + |g| <= |ws| && ws[a..a + |g|] == g && Wraps(b, g)
    ensures Wrapped(b, ws)
  {
    assert 0 <= a < a + |g| <= |ws| && Wraps(b, ws[a..a + |g|]);
  }

  lemma WholeGroup<C>(g: Group<C>)
    requires g != [] && forall w | w in g :: w.facts == g[0].facts
    ensures Wraps(BatchOf(g), g)
  {
  }

  lemma SliceOfPrefix<T>(p: seq<T>, q: seq<T>, whole: seq<T>)
    requires p + q <= whole
    ensures |p| + |q| <= |whole| && whole[|p|..|p| + |q|] == q
  {
    assert whole[..|p| + |q|] == p + q;
  }

  lemma WrappedMore<C>(b: Batch<C>, gone: seq<Closed<C>>, more: seq<Closed<C>>)
    requires Wrapped(b, gone) || Wrapped(b, more)
    ensures Wrapped(b, gone + more)
  {
    if Wrapped(b, gone) {
      WrappedBefore(b, gone, more);
    } else {
      WrappedBehind(b, gone, more);
    }
  }

  lemma WrappedBefore<C>(b: Batch<C>, gone: seq<Closed<C>>, more: seq<Closed<C>>)
    requires Wrapped(b, gone)
    ensures Wrapped(b, gone + more)
  {
    var i, j :| 0 <= i < j <= |gone| && Wraps(b, gone[i..j]);
    var g := gone[i..j];
    SliceBefore(gone, more, i, j);
    SliceWraps(b, gone + more, i, g);
  }

  lemma WrappedBehind<C>(b: Batch<C>, gone: seq<Closed<C>>, more: seq<Closed<C>>)
    requires Wrapped(b, more)
    ensures Wrapped(b, gone + more)
  {
    var i, j :| 0 <= i < j <= |more| && Wraps(b, more[i..j]);
    var g := more[i..j];
    SliceAfter(gone, more, i, j);
    SliceWraps(b, gone + more, |gone| + i, g);
  }

  lemma SliceBefore<T>(a: seq<T>, b: seq<T>, i: nat, j: nat)
    requires i <= j <= |a|
    ensures (a + b)[i..i + |a[i..j]|] == a[i..j]
  {
  }

  lemma SliceAfter<T>(a: seq<T>, b: seq<T>, i: nat, j: nat)
    requires i <= j <= |b|
    ensures (a + b)[|a| + i..|a| + i + |b[i..j]|] == b[i..j]
  {
  }

  lemma BatchesWrapped<C>(ws: seq<Closed<C>>, maxRows: nat, n: nat, cut: nat, b: Batch<C>)
    requires Filled(ws, maxRows) && n <= |Groups(ws, maxRows)| && cut == |Flatten(Groups(ws, maxRows)[..n])| <= |ws|
    requires b in Batches(Groups(ws, maxRows))[..n]
    ensures Wrapped(b, ws[..cut])
  {
    var gs := Groups(ws, maxRows);
    GroupsBounded(ws, maxRows);
    GroupsFlatten(ws, maxRows);
    FlattenSplit(gs, n);
    var i :| 0 <= i < n && Batches(gs)[..n][i] == b;
    GroupSlice(gs, n, i);
    assert Flatten(gs[..n]) == ws[..cut];
  }

  lemma FlushKept<C(!new)>(cfg: Config<C>, openFrom: int, steps: seq<Step<C>>, w: World<C>, gone: seq<Closed<C>>,
                           disk: int -> Disk) returns (more: seq<Closed<C>>)
    requires cfg.Valid() && Kept(cfg, openFrom, steps, w, gone) && PipeOrdered(cfg, w.pipe)
    ensures Kept(cfg, openFrom, steps + [FlushNow(disk)],
                 AfterFlush(cfg, w, FlushTo(cfg, w.pipe, w.files, disk)), gone + more)
  {
    var ws := w.pipe.pending;
    var f := FlushTo(cfg, w.pipe, w.files, disk);
    LeftIsRest(cfg, ws, f.n);
    var cut := |Flatten(Groups(ws, cfg.maxRows)[..f.n])|;
    more := ws[..cut];
    TickEvents(openFrom, steps, FlushNow(disk));
    Longer(openFrom, steps, FlushNow(disk), 0);
    SameClosed(cfg, openFrom, steps, FlushNow(disk), gone + ws);
    SplitAt(ws, cut);
    Associate(gone, ws[..cut], ws[cut..]);
    FlushPlaces(cfg, w, gone, disk, f, cut);
  }

  lemma FlushPlaces<C(!new)>(cfg: Config<C>, w: World<C>, gone: seq<Closed<C>>, disk: int -> Disk, f: Written<C>,
                             cut: nat)
    requires BatchesFrom(w, gone) && Filled(w.pipe.pending, cfg.maxRows) && f == FlushTo(cfg, w.pipe, w.files, disk)
    requires f.n <= |Groups(w.pipe.pending, cfg.maxRows)|
    requires cut == |Flatten(Groups(w.pipe.pending, cfg.maxRows)[..f.n])| <= |w.pipe.pending|
    ensures BatchesFrom(AfterFlush(cfg, w, f), gone + w.pipe.pending[..cut])
  {
    var ws := w.pipe.pending;
    forall b | Somewhere(AfterFlush(cfg, w, f), b)
      ensures Wrapped(b, gone + ws[..cut])
    {
      if !Somewhere(w, b) {
        assert OnDisk(f.files, b) || b in f.trimmed;
        PutAllFrom(w.files, Batches(Groups(ws, cfg.maxRows)), disk, cfg.outboxLimit, f, b);
        BatchesWrapped(ws, cfg.maxRows, f.n, cut, b);
      }
      WrappedMore(b, gone, ws[..cut]);
    }
  }

  // ---------------------------------------------------------------- all runs

  /** Every batch of v is in w already: the sender only moves them. */
  ghost predicate MovesOnly<C(!new)>(w: World<C>, v: World<C>) {
    v.pipe == w.pipe && forall b | Somewhere(v, b) :: Somewhere(w, b)
  }

  lemma ReadMoves<C(!new)>(w: World<C>)
    ensures MovesOnly(w, AfterRead(w))
  {
    var v := AfterRead(w);
    forall x | Somewhere(v, x)
      ensures Somewhere(w, x)
    {
      if v.posting == Some(x) && w.posting != Some(x) {
        HasOnDisk(w.files, w.ids[0]);
      }
    }
  }

  lemma TakenMoves<C>(w: World<C>, b: Batch<C>, x: Batch<C>)
    requires w.posting == Some(b) && OnDisk(w.files - {b.key}, x)
    ensures Somewhere(w, x)
  {
    FewerOnDisk(w.files, w.files - {b.key}, x);
  }

  lemma AnswerMoves<C(!new)>(w: World<C>, b: Batch<C>, outcome: Outcome)
    requires w.posting == Some(b)
    ensures MovesOnly(w, Answered(w, b, outcome))
  {
    var v := Answered(w, b, outcome);
    forall x | Somewhere(v, x)
      ensures Somewhere(w, x)
    {
      if x != b && OnDisk(v.files, x) && v.files != w.files {
        TakenMoves(w, b, x);
      }
    }
  }

  lemma MovedKept<C(!new)>(cfg: Config<C>, openFrom: int, steps: seq<Step<C>>, w: World<C>, gone: seq<Closed<C>>,
                           step: Step<C>, v: World<C>)
    requires cfg.Valid() && Kept(cfg, openFrom, steps, w, gone) && MovesOnly(w, v) && !step.Event? && !step.Tick?
    ensures Kept(cfg, openFrom, steps + [step], v, gone)
  {
    TickEvents(openFrom, steps, step);
    Longer(openFrom, steps, step, 0);
    SameClosed(cfg, openFrom, steps, step, gone + w.pipe.pending);
  }

  lemma SenderKept<C(!new)>(cfg: Config<C>, openFrom: int, steps: seq<Step<C>>, w: World<C>, gone: seq<Closed<C>>,
                            step: Step<C>)
    requires cfg.Valid() && Kept(cfg, openFrom, steps, w, gone)
    requires step.ListOutbox? || step.ReadBatch? || step.Answer?
    ensures Kept(cfg, openFrom, steps + [step], Next(cfg, w, step), gone)
  {
    if step.ReadBatch? {
      ReadMoves(w);
    } else if step.Answer? && w.posting.Some? {
      AnswerMoves(w, w.posting.value, step.outcome);
    }
    MovedKept(cfg, openFrom, steps, w, gone, step, Next(cfg, w, step));
  }

  lemma StepKept<C(!new)>(cfg: Config<C>, openFrom: int, steps: seq<Step<C>>, w: World<C>, gone: seq<Closed<C>>,
                          step: Step<C>) returns (more: seq<Closed<C>>)
    requires cfg.Valid() && Kept(cfg, openFrom, steps, w, gone) && PipeOrdered(cfg, w.pipe)
    ensures Kept(cfg, openFrom, steps + [step], Next(cfg, w, step), more)
  {
    more := gone;
    match step {
      case Event(at, key, one) => EventKept(cfg, openFrom, steps, w, gone, at, key, one);
      case Tick(now, facts) => TickKept(cfg, openFrom, steps, w, gone, now, facts);
      case FlushNow(disk) =>
        more := FlushKept(cfg, openFrom, steps, w, gone, disk);
        more := gone + more;
      case _ => SenderKept(cfg, openFrom, steps, w, gone, step);
    }
  }

  /** Over every run: the open windows are those from the edge on that events belong to, and
      hold exactly these; of the windows before the edge, those that events belong to were
      closed, once each and in order, with rows that lay out exactly these events and with
      the version read at that tick; and every batch there is is made of such windows, next
      to each other, and none of them still pending. */
  lemma {:induction false} EveryWindowExact<C(!new)>(cfg: Config<C>, openFrom: int, steps: seq<Step<C>>)
    returns (gone: seq<Closed<C>>)
    requires Lawful(cfg.m) && cfg.Valid() && Aligned(openFrom)
    requires forall i | 0 <= i < |steps| :: Allowed(steps[i])
    ensures Kept(cfg, openFrom, steps, RunAll(cfg, Fresh(cfg, openFrom), steps), gone)
    decreases |steps|
  {
    if steps == [] {
      gone := [];
      KeptAtFirst(cfg, openFrom);
    } else {
      var before := EveryWindowExact(cfg, openFrom, steps[..|steps| - 1]);
      gone := KeptLater(cfg, openFrom, steps, before);
    }
  }

  lemma KeptAtFirst<C(!new)>(cfg: Config<C>, openFrom: int)
    requires cfg.Valid() && Aligned(openFrom)
    ensures Kept(cfg, openFrom, [], Fresh(cfg, openFrom), [])
  {
  }

  lemma KeptLater<C(!new)>(cfg: Config<C>, openFrom: int, steps: seq<Step<C>>, before: seq<Closed<C>>)
    returns (gone: seq<Closed<C>>)
    requires Lawful(cfg.m) && cfg.Valid() && Aligned(openFrom) && steps != []
    requires forall i | 0 <= i < |steps| :: Allowed(steps[i])
    requires var init := steps[..|steps| - 1];
             Kept(cfg, openFrom, init, RunAll(cfg, Fresh(cfg, openFrom), init), before)
    ensures Kept(cfg, openFrom, steps, RunAll(cfg, Fresh(cfg, openFrom), steps), gone)
  {
    var init, step := steps[..|steps| - 1], steps[|steps| - 1];
    FreshInvariant(cfg, openFrom);
    RunKeeps(cfg, Fresh(cfg, openFrom), init);
    RunLast(cfg, Fresh(cfg, openFrom), init, step);
    LastApart(steps);
    gone := StepKept(cfg, openFrom, init, RunAll(cfg, Fresh(cfg, openFrom), init), before, step);
  }

  lemma {:induction false} RunLast<C>(cfg: Config<C>, w: World<C>, steps: seq<Step<C>>, step: Step<C>)
    requires cfg.Valid()
    ensures RunAll(cfg, w, steps + [step]) == Next(cfg, RunAll(cfg, w, steps), step)
    decreases |steps|
  {
    var all := steps + [step];
    if steps == [] {
      assert all[1..] == [];
    } else {
      assert all[0] == steps[0] && all[1..] == steps[1..] + [step];
      RunLast(cfg, Next(cfg, w, steps[0]), steps[1..], step);
    }
  }
}
