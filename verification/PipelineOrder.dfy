/** The order that events, closing and flushing keep in the aggregate pipeline: windows
    wait oldest first, behind everything handed over and before everything still open. */
module PipelineOrder {
  import opened Wrappers
  import opened Ordering
  import opened Sequences
  import opened Counters
  import opened Folding
  import opened Packing
  import opened Outbox
  import opened Pipeline
  import opened PipelineLaws

  /** An open window has counted something, and no key of its rows is the folded one. */
  ghost predicate Live<C>(w: Open<C>) {
    (w.rows != map[] || w.overflow.Some?) && REST_KEY !in w.rows
  }

  ghost predicate PipeOrdered<C>(cfg: Config<C>, s: Pipe<C>) {
    && (forall k | k in s.windows :: s.openFrom <= k && Live(s.windows[k]))
    && Rising(s.pending) && Below(s.pending, s.openFrom) && Filled(s.pending, cfg.maxRows)
  }

  /** Everything handed over came before everything still pending. */
  ghost predicate Behind<C>(handed: seq<int>, s: Pipe<C>) {
    && (forall i | 0 <= i < |handed| :: handed[i] < s.openFrom)
    && (forall i, j | 0 <= i < |handed| && 0 <= j < |s.pending| :: handed[i] < s.pending[j].start)
  }

  // ---------------------------------------------------------------- an event

  lemma GrownLive<C>(cfg: Config<C>, w: Open<C>, k: Key, one: C)
    requires k != REST_KEY && REST_KEY !in w.rows
    ensures Live(Grown(cfg, w, k, one))
  {
    var g := Grown(cfg, w, k, one);
    if k !in w.rows && |w.rows| >= cfg.liveLimit {
      assert g.overflow.Some?;
    } else {
      assert k in g.rows;
    }
  }

  lemma EventOrdered<C>(cfg: Config<C>, s: Pipe<C>, at: int, k: Key, one: C)
    requires PipeOrdered(cfg, s) && k != REST_KEY
    ensures PipeOrdered(cfg, AddEvent(cfg, s, at, k, one))
  {
    GrownLive(cfg, WindowAt(s.windows, StartFor(s.openFrom, at)), k, one);
  }

  // ---------------------------------------------------------------- a tick

  ghost predicate Spans<C>(closed: seq<Closed<C>>, from: int, edge: int, maxRows: nat) {
    && Rising(closed) && Below(closed, edge) && Filled(closed, maxRows)
    && forall i | 0 <= i < |closed| :: from <= closed[i].start
  }

  lemma CloseOneSpans<C>(cfg: Config<C>, start: int, w: Open<C>, facts: int)
    requires cfg.Valid() && Live(w)
    ensures var c := CloseOne(cfg, start, w, facts);
            |c| == 1 && c[0].start == start && 0 < |c[0].rows| <= cfg.maxRows
  {
    CloseShape(cfg.m, cfg.lt, start, w.rows, w.overflow, cfg.maxRows);
  }

  lemma NextSpans<C>(cfg: Config<C>, before: seq<Closed<C>>, start: int, w: Open<C>, facts: int, from: int, edge: int)
    requires cfg.Valid() && Live(w) && Spans(before, from, start, cfg.maxRows) && from <= start < edge
    ensures Spans(before + CloseOne(cfg, start, w, facts), from, edge, cfg.maxRows)
  {
    CloseOneSpans(cfg, start, w, facts);
    AppendSpans(before, CloseOne(cfg, start, w, facts)[0], from, edge, cfg.maxRows);
    assert CloseOne(cfg, start, w, facts) == [CloseOne(cfg, start, w, facts)[0]];
  }

  lemma AppendSpans<C>(before: seq<Closed<C>>, c: Closed<C>, from: int, edge: int, maxRows: nat)
    requires Spans(before, from, c.start, maxRows) && from <= c.start < edge && 0 < |c.rows| <= maxRows
    ensures Spans(before + [c], from, edge, maxRows)
  {
  }

  ghost predicate AllLive<C>(windows: map<int, Open<C>>, starts: seq<int>, from: int, edge: int) {
    RisingKeys(starts)
    && forall i | 0 <= i < |starts| :: starts[i] in windows && Live(windows[starts[i]]) && from <= starts[i] < edge
  }

  lemma {:induction false} CloseAllSpans<C>(cfg: Config<C>, windows: map<int, Open<C>>, starts: seq<int>,
                                            facts: int -> int, from: int, edge: int)
    requires cfg.Valid() && AllLive(windows, starts, from, edge)
    ensures Spans(CloseAll(cfg, windows, starts, facts), from, edge, cfg.maxRows)
  {
    if starts != [] {
      var n := |starts| - 1;
      CloseAllSpans(cfg, windows, starts[..n], facts, from, starts[n]);
      NextSpans(cfg, CloseAll(cfg, windows, starts[..n], facts), starts[n], windows[starts[n]], facts(starts[n]),
                from, edge);
    }
  }

  /** The windows a tick closes. */
  ghost function ClosedAt<C>(cfg: Config<C>, s: Pipe<C>, now: int, facts: int -> int): seq<Closed<C>>
    requires cfg.Valid()
  {
    CloseAll(cfg, s.windows, InOrder(Earlier, Ending(s.windows, Later(s.openFrom, now))), facts)
  }

  lemma TickSpans<C>(cfg: Config<C>, s: Pipe<C>, now: int, facts: int -> int)
    requires cfg.Valid() && PipeOrdered(cfg, s)
    ensures Spans(ClosedAt(cfg, s, now, facts), s.openFrom, Later(s.openFrom, now), cfg.maxRows)
  {
    var openFrom := Later(s.openFrom, now);
    var ending := Ending(s.windows, openFrom);
    var starts := InOrder(Earlier, ending);
    AscendingRises(ending);
    forall i | 0 <= i < |starts|
      ensures starts[i] in s.windows && Live(s.windows[starts[i]]) && s.openFrom <= starts[i] < openFrom
    {
      assert starts[i] in Members(starts);
    }
    CloseAllSpans(cfg, s.windows, starts, facts, s.openFrom, openFrom);
  }

  lemma TickOrdered<C>(cfg: Config<C>, s: Pipe<C>, now: int, facts: int -> int)
    requires cfg.Valid() && PipeOrdered(cfg, s)
    ensures PipeOrdered(cfg, CloseWindows(cfg, s, now, facts))
  {
    TickSpans(cfg, s, now, facts);
    JoinSpans(cfg, s, ClosedAt(cfg, s, now, facts), Later(s.openFrom, now));
  }

  lemma TickBehind<C>(cfg: Config<C>, s: Pipe<C>, handed: seq<int>, now: int, facts: int -> int)
    requires cfg.Valid() && PipeOrdered(cfg, s) && Behind(handed, s)
    ensures Behind(handed, CloseWindows(cfg, s, now, facts))
  {
    TickSpans(cfg, s, now, facts);
    JoinBehind(handed, s, ClosedAt(cfg, s, now, facts), Later(s.openFrom, now), CloseWindows(cfg, s, now, facts));
  }

  lemma JoinSpans<C>(cfg: Config<C>, s: Pipe<C>, closed: seq<Closed<C>>, openFrom: int)
    requires PipeOrdered(cfg, s) && Spans(closed, s.openFrom, openFrom, cfg.maxRows) && s.openFrom <= openFrom
    ensures Rising(s.pending + closed) && Below(s.pending + closed, openFrom) && Filled(s.pending + closed, cfg.maxRows)
  {
  }

  lemma JoinBehind<C>(handed: seq<int>, s: Pipe<C>, closed: seq<Closed<C>>, openFrom: int, t: Pipe<C>)
    requires Behind(handed, s) && s.openFrom <= openFrom && t.openFrom == openFrom && t.pending == s.pending + closed
    requires forall i | 0 <= i < |closed| :: s.openFrom <= closed[i].start
    ensures Behind(handed, t)
  {
  }

  // ---------------------------------------------------------------- a flush

  function Starts<C>(ws: seq<Closed<C>>): (r: seq<int>)
    ensures |r| == |ws|
  {
    seq(|ws|, i requires 0 <= i < |ws| => ws[i].start)
  }

  ghost predicate Among(ks: seq<int>, all: seq<int>) {
    RisingKeys(ks) && forall i | 0 <= i < |ks| :: ks[i] in all
  }

  lemma AmongNext(ks: seq<int>, all: seq<int>, x: int)
    requires Among(ks, all) && RisingKeys(all + [x])
    ensures Among(ks, all + [x]) && Among(ks + [x], all + [x])
  {
    forall i | 0 <= i < |ks|
      ensures ks[i] < x && ks[i] in all + [x]
    {
      var j :| 0 <= j < |all| && all[j] == ks[i];
      assert (all + [x])[j] < (all + [x])[|all|];
    }
    assert (all + [x])[|all|] == x;
  }

  lemma StartsRise<C>(ws: seq<Closed<C>>)
    requires Rising(ws)
    ensures RisingKeys(Starts(ws))
    ensures ws != [] ==> Starts(ws) == Starts(ws[..|ws| - 1]) + [ws[|ws| - 1].start]
  {
  }

  /** The keys of a packing are starts of its windows, in their order, from the first on. */
  lemma {:induction false} KeysRise<C>(ws: seq<Closed<C>>, maxRows: nat)
    requires Rising(ws)
    ensures Among(KeysOf(Batches(Groups(ws, maxRows))), Starts(ws))
  {
    if ws != [] {
      var n := |ws| - 1;
      var gs := Groups(ws[..n], maxRows);
      KeysRise(ws[..n], maxRows);
      GroupsNonEmpty(ws[..n], maxRows);
      ExtendHeads(gs, ws[n], maxRows);
      StartsRise(ws);
      AmongNext(KeysOf(Batches(gs)), Starts(ws[..n]), ws[n].start);
    }
  }

  lemma {:induction false} FirstKey<C>(ws: seq<Closed<C>>, maxRows: nat)
    requires ws != []
    ensures Groups(ws, maxRows) != [] && KeysOf(Batches(Groups(ws, maxRows)))[0] == ws[0].start
  {
    var n := |ws| - 1;
    var gs := Groups(ws[..n], maxRows);
    GroupsNonEmpty(ws[..n], maxRows);
    ExtendHeads(gs, ws[n], maxRows);
    if n > 0 {
      FirstKey(ws[..n], maxRows);
    }
  }

  lemma ExtendHeads<C>(gs: seq<Group<C>>, w: Closed<C>, maxRows: nat)
    requires NonEmpty(gs)
    ensures var before, after := KeysOf(Batches(gs)), KeysOf(Batches(Extend(gs, w, maxRows)));
            after == before || after == before + [w.start]
    ensures gs == [] ==> KeysOf(Batches(Extend(gs, w, maxRows))) == [w.start]
  {
    var r := Extend(gs, w, maxRows);
    assert forall i | 0 <= i < |gs| :: r[i] != [] && r[i][0] == gs[i][0];
  }

  lemma KeysTake<C>(gs: seq<Group<C>>, n: nat)
    requires n <= |gs|
    ensures KeysOf(Batches(gs)[..n]) == KeysOf(Batches(gs))[..n]
    ensures KeysOf(Batches(gs[n..])) == KeysOf(Batches(gs))[n..]
  {
  }

  /** The keys of the batches stored come before every window left. */
  lemma StoredBeforeLeft<C>(p: seq<Closed<C>>, n: nat, maxRows: nat)
    requires Rising(p) && n <= |Groups(p, maxRows)|
    ensures var ks, cut := KeysOf(Batches(Groups(p, maxRows))[..n]), |Flatten(Groups(p, maxRows)[..n])|;
            && Among(ks, Starts(p)) && cut <= |p|
            && forall i, j | 0 <= i < n && cut <= j < |p| :: ks[i] < p[j].start
  {
    var gs := Groups(p, maxRows);
    var cut := |Flatten(gs[..n])|;
    var all := KeysOf(Batches(gs));
    SuffixStable(p, n, maxRows);
    KeysRise(p, maxRows);
    KeysTake(gs, n);
    if cut < |p| {
      FirstKey(p[cut..], maxRows);
      assert all[n..][0] == p[cut].start;
      forall i, j | 0 <= i < n && cut <= j < |p|
        ensures all[i] < p[j].start
      {
        assert all[i] < all[n] <= p[j].start;
      }
    }
  }

  lemma FlushOrdered<C>(cfg: Config<C>, s: Pipe<C>, handed: seq<int>, n: nat)
    requires PipeOrdered(cfg, s) && RisingKeys(handed) && Behind(handed, s)
    requires n <= |Groups(s.pending, cfg.maxRows)|
    ensures var ks, left := StoredKeys(cfg, s.pending, n), s.(pending := Left(cfg, s.pending, n));
            PipeOrdered(cfg, left) && RisingKeys(handed + ks) && Behind(handed + ks, left)
  {
    var p := s.pending;
    var cut := |Flatten(Groups(p, cfg.maxRows)[..n])|;
    LeftIsRest(cfg, p, n);
    StoredBeforeLeft(p, n, cfg.maxRows);
    DropOrdered(cfg, s, cut);
    HandedRise(handed, StoredKeys(cfg, p, n), s, cut);
  }

  lemma DropOrdered<C>(cfg: Config<C>, s: Pipe<C>, cut: nat)
    requires PipeOrdered(cfg, s) && cut <= |s.pending|
    ensures PipeOrdered(cfg, s.(pending := s.pending[cut..]))
  {
  }

  lemma HandedRise<C>(handed: seq<int>, ks: seq<int>, s: Pipe<C>, cut: nat)
    requires RisingKeys(handed) && Behind(handed, s) && Below(s.pending, s.openFrom)
    requires Among(ks, Starts(s.pending)) && cut <= |s.pending|
    requires forall i, j | 0 <= i < |ks| && cut <= j < |s.pending| :: ks[i] < s.pending[j].start
    ensures RisingKeys(handed + ks) && Behind(handed + ks, s.(pending := s.pending[cut..]))
  {
    forall i | 0 <= i < |ks|
      ensures ks[i] < s.openFrom
      ensures forall h | 0 <= h < |handed| :: handed[h] < ks[i]
    {
      var j :| 0 <= j < |Starts(s.pending)| && Starts(s.pending)[j] == ks[i];
      assert ks[i] == s.pending[j].start;
    }
  }
}
