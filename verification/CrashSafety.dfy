/** The promise of internal/aggregate/aggregator.go that a crash between the outbox and
    the saved state makes nothing count twice: batch keys are derived from the windows,
    and the cloud drops a key it has seen. Modelled over runs of closing, flushing,
    saving and crashing, whatever the disk refuses and whatever the network loses,
    repeats or reorders. */
module CrashSafety {
  import opened Wrappers
  import opened Ordering
  import opened Folding
  import opened Packing
  import opened Sequences

  /** The rows the windows still open would close with, by the start of the window. */
  type Open<C> = map<int, seq<Row<C>>>

  datatype Snapshot<C> = Snapshot(pending: seq<Closed<C>>, openFrom: int, open: Open<C>)

  /** `edge` is the furthest `openFrom` ever was, restarts or not, and `handed` every batch
      ever written to the outbox, as the windows it holds. */
  datatype Node<C> = Node(
    pending: seq<Closed<C>>, openFrom: int, open: Open<C>, saved: Snapshot<C>, edge: int, handed: seq<Group<C>>)

  datatype Step<C> =
    | Count(start: int, rows: seq<Row<C>>)
    | Close(ws: seq<Closed<C>>, edge: int)
    | Flush(put: nat, done: nat, saves: bool)
    | Save
    | Crash

  function Empty<C>(openFrom: int): Node<C> {
    Node([], openFrom, map[], Snapshot([], openFrom, map[]), openFrom, [])
  }

  /** The batch key: the start of the first window. A batch is never empty. */
  function KeyOf<C>(g: Group<C>): int {
    if g == [] then 0 else g[0].start
  }

  function Tail<C>(gs: seq<Group<C>>): Group<C> {
    if gs == [] then [] else gs[|gs| - 1]
  }

  /** The open windows before `edge`, in their order and with their rows, of whatever fact
      set versions. */
  ghost predicate Closes<C>(open: Open<C>, ws: seq<Closed<C>>, edge: int) {
    && Rising(ws) && Below(ws, edge)
    && (forall i | 0 <= i < |ws| :: ws[i].start in open && ws[i].rows == open[ws[i].start])
    && (forall k | k in open && k < edge :: exists i :: 0 <= i < |ws| && ws[i].start == k)
  }

  ghost predicate Neighbours<C>(open: Open<C>, v: int, u: int) {
    v in open && v < u && forall k | k in open :: k <= v || u <= k
  }

  ghost predicate Least<C>(open: Open<C>, u: int) {
    forall k | k in open :: u <= k
  }

  /** No batch to come can hold the open window `u` behind another one: the open window
      before it leaves no room, or, when there is none, the last pending batch does not. */
  ghost predicate Alone<C>(pending: seq<Closed<C>>, open: Open<C>, u: int, maxRows: nat)
    requires u in open
  {
    && (forall v | Neighbours(open, v, u) :: |open[v]| + |open[u]| > maxRows)
    && (Least(open, u) && pending != [] ==> |RowsIn(Tail(Groups(pending, maxRows)))| + |open[u]| > maxRows)
  }

  /** A window of these batches that is open, and so will close again, gave its batch the
      key, and is alone in any batch to come. */
  ghost predicate Harmless<C>(handed: seq<Group<C>>, pending: seq<Closed<C>>, open: Open<C>, maxRows: nat) {
    forall i, j | 0 <= i < |handed| && 0 <= j < |handed[i]| && handed[i][j].start in open ::
      j == 0 && Alone(pending, open, handed[i][j].start, maxRows)
  }

  /** A step can be taken. The clock never runs back, so what is counted and closed lies
      past every edge there was. A flush writes its first `put` batches and learns of `done`
      of them: a batch may be on disk and still be reported as failed. */
  ghost predicate Enabled<C>(s: Node<C>, step: Step<C>, maxRows: nat) {
    match step
    case Count(start, rows) => s.edge <= start && 0 < |rows| <= maxRows
    case Close(ws, edge) => s.edge <= edge && Closes(s.open, ws, edge)
    case Flush(put, done, _) => done <= put <= |Groups(s.pending, maxRows)|
    case Save => true
    case Crash => Harmless(s.handed, s.saved.pending, s.saved.open, maxRows)
  }

  function From<C>(open: Open<C>, edge: int): Open<C> {
    map k | k in open && edge <= k :: open[k]
  }

  function Next<C>(s: Node<C>, step: Step<C>, maxRows: nat): Node<C>
    requires step.Flush? ==> step.done <= step.put <= |Groups(s.pending, maxRows)|
  {
    match step
    case Count(start, rows) => s.(open := s.open[start := rows])
    case Close(ws, edge) => s.(pending := s.pending + ws, openFrom := edge, open := From(s.open, edge), edge := edge)
    case Flush(put, done, saves) =>
      var gs := Groups(s.pending, maxRows);
      var cut := |Flatten(gs[..done])|;
      SuffixStable(s.pending, done, maxRows);
      var left := s.pending[cut..];
      s.(pending := left, saved := if saves then Snapshot(left, s.openFrom, s.open) else s.saved,
         handed := s.handed + gs[..put])
    case Save => s.(saved := Snapshot(s.pending, s.openFrom, s.open))
    case Crash => Restarted(s)
  }

  /** The node as it comes up again: on the state saved last. */
  function Restarted<C>(s: Node<C>): Node<C> {
    s.(pending := s.saved.pending, openFrom := s.saved.openFrom, open := s.saved.open)
  }

  /** Two batches that share a window have one key. */
  ghost predicate Compatible<C>(g: Group<C>, h: Group<C>) {
    forall i, j | 0 <= i < |g| && 0 <= j < |h| && g[i].start == h[j].start :: g[0].start == h[0].start
  }

  ghost predicate AllCompatible<C>(a: seq<Group<C>>, b: seq<Group<C>>) {
    forall i, j | 0 <= i < |a| && 0 <= j < |b| :: Compatible(a[i], b[j])
  }

  ghost predicate AllRising<C>(a: seq<Group<C>>) {
    forall i | 0 <= i < |a| :: a[i] != [] && Rising(a[i])
  }

  ghost predicate AllBelow<C>(a: seq<Group<C>>, edge: int) {
    forall i | 0 <= i < |a| :: Below(a[i], edge)
  }

  ghost predicate OpenFits<C>(open: Open<C>, from: int, maxRows: nat) {
    forall k | k in open :: from <= k && 0 < |open[k]| <= maxRows
  }

  ghost predicate Ordered<C>(pending: seq<Closed<C>>, openFrom: int, open: Open<C>, maxRows: nat) {
    Rising(pending) && Below(pending, openFrom) && OpenFits(open, openFrom, maxRows)
  }

  ghost predicate Invariant<C>(s: Node<C>, maxRows: nat) {
    var p, q := Groups(s.pending, maxRows), Groups(s.saved.pending, maxRows);
    && Ordered(s.pending, s.openFrom, s.open, maxRows)
    && Ordered(s.saved.pending, s.saved.openFrom, s.saved.open, maxRows)
    && s.saved.openFrom <= s.openFrom <= s.edge
    && AllRising(s.handed) && AllBelow(s.handed, s.edge)
    && Harmless(s.handed, s.pending, s.open, maxRows)
    && AllCompatible(s.handed, s.handed)
    && AllCompatible(s.handed, p)
    && AllCompatible(s.handed, q)
    && AllCompatible(q, p)
  }

  // ---------------------------------------------------------------- packing and compatibility

  /** The window is in none of these batches, or it began those it is in and begins one of
      its own now. */
  ghost predicate Meets<C>(h: seq<Group<C>>, gs: seq<Group<C>>, w: Closed<C>, maxRows: nat) {
    forall i, x | 0 <= i < |h| && 0 <= x < |h[i]| && h[i][x].start == w.start :: x == 0 && !Fits(Tail(gs), w, maxRows)
  }

  lemma ExtendCompatible<C>(h: seq<Group<C>>, gs: seq<Group<C>>, w: Closed<C>, maxRows: nat)
    requires AllCompatible(h, gs) && Meets(h, gs, w, maxRows)
    ensures AllCompatible(h, Extend(gs, w, maxRows))
  {
    var r, n := Extend(gs, w, maxRows), |gs| - 1;
    forall i, j | 0 <= i < |h| && 0 <= j < |r|
      ensures Compatible(h[i], r[j])
    {
      if j <= n {
        assert Compatible(h[i], gs[j]);
      }
    }
  }

  /** Batches of earlier windows stay compatible with the packing as new windows close. */
  lemma {:induction false} GroupsCompatible<C>(h: seq<Group<C>>, p: seq<Closed<C>>, q: seq<Closed<C>>, maxRows: nat)
    requires AllCompatible(h, Groups(p, maxRows))
    requires forall n | 0 <= n < |q| :: Meets(h, Groups(p + q[..n], maxRows), q[n], maxRows)
    ensures AllCompatible(h, Groups(p + q, maxRows))
  {
    if q == [] {
      AppendNothing(p, q);
    } else {
      var n := |q| - 1;
      assert forall m | 0 <= m < n :: q[..n][..m] == q[..m];
      GroupsCompatible(h, p, q[..n], maxRows);
      AppendInit(p, q);
      ExtendCompatible(h, Groups(p + q[..n], maxRows), q[n], maxRows);
    }
  }

  lemma BelowMeets<C>(h: seq<Group<C>>, gs: seq<Group<C>>, w: Closed<C>, maxRows: nat)
    requires AllBelow(h, w.start)
    ensures Meets(h, gs, w, maxRows)
  {
    forall i, x | 0 <= i < |h| && 0 <= x < |h[i]|
      ensures h[i][x].start != w.start
    {
      assert Below(h[i], w.start);
    }
  }

  /** The batches of one packing hold distinct windows. */
  lemma {:induction false} GroupsDistinct<C>(ws: seq<Closed<C>>, maxRows: nat)
    requires Rising(ws)
    ensures AllRising(Groups(ws, maxRows)) && AllCompatible(Groups(ws, maxRows), Groups(ws, maxRows))
    ensures forall edge | Below(ws, edge) :: AllBelow(Groups(ws, maxRows), edge)
  {
    if ws != [] {
      var n := |ws| - 1;
      var w := ws[n];
      GroupsDistinct(ws[..n], maxRows);
      var gs := Groups(ws[..n], maxRows);
      assert Below(ws[..n], w.start);
      assert AllBelow(gs, w.start);
      ExtendDistinct(gs, w, maxRows);
      forall edge | Below(ws, edge)
        ensures AllBelow(Groups(ws, maxRows), edge)
      {
        assert Below(ws[..n], edge) && w.start < edge;
        ExtendBelow(gs, w, maxRows, edge);
      }
    }
  }

  lemma ExtendBelow<C>(gs: seq<Group<C>>, w: Closed<C>, maxRows: nat, edge: int)
    requires AllBelow(gs, edge) && w.start < edge
    ensures AllBelow(Extend(gs, w, maxRows), edge)
  {
    var r := Extend(gs, w, maxRows);
    forall i | 0 <= i < |r|
      ensures Below(r[i], edge)
    {
      if i < |gs| {
        assert Below(gs[i], edge);
      }
    }
  }

  lemma ExtendDistinct<C>(gs: seq<Group<C>>, w: Closed<C>, maxRows: nat)
    requires AllRising(gs) && AllCompatible(gs, gs) && AllBelow(gs, w.start)
    ensures AllRising(Extend(gs, w, maxRows))
    ensures AllCompatible(Extend(gs, w, maxRows), Extend(gs, w, maxRows))
  {
    var r := Extend(gs, w, maxRows);
    forall i | 0 <= i < |r|
      ensures r[i] != [] && Rising(r[i])
    {
      if i < |gs| {
        assert Rising(gs[i]) && Below(gs[i], w.start);
      }
    }
    BelowMeets(gs, gs, w, maxRows);
    ExtendCompatible(gs, gs, w, maxRows);
    Mirror(gs, r);
    var m := |r| - 1;
    forall i, j | 0 <= i < |r| && 0 <= j < |r|
      ensures Compatible(r[i], r[j])
    {
      if i == m && j == m {
        assert Rising(r[m]);
      } else if i < m {
        assert r[i] == gs[i] && Compatible(gs[i], r[j]);
      } else {
        assert r[j] == gs[j] && Compatible(r[i], gs[j]);
      }
    }
  }

  /** The last batch ends with the last window. */
  lemma TailEnds<C>(ws: seq<Closed<C>>, maxRows: nat)
    requires ws != []
    ensures var g := Tail(Groups(ws, maxRows));
            && Groups(ws, maxRows) != [] && g != [] && g[|g| - 1] == ws[|ws| - 1]
            && |RowsIn(g)| >= |ws[|ws| - 1].rows|
  {
  }

  // ---------------------------------------------------------------- every step keeps the invariant

  lemma Later<C>(a: seq<Group<C>>, edge: int, later: int)
    requires AllBelow(a, edge) && edge <= later
    ensures AllBelow(a, later)
  {
    forall i | 0 <= i < |a|
      ensures Below(a[i], later)
    {
      assert Below(a[i], edge);
    }
  }

  /** A window that closes again meets the batches handed over. */
  lemma ClosesMeet<C>(s: Node<C>, ws: seq<Closed<C>>, edge: int, n: nat, maxRows: nat)
    requires Harmless(s.handed, s.pending, s.open, maxRows) && Closes(s.open, ws, edge) && n < |ws|
    ensures Meets(s.handed, Groups(s.pending + ws[..n], maxRows), ws[n], maxRows)
  {
    var gs := Groups(s.pending + ws[..n], maxRows);
    forall i, x | 0 <= i < |s.handed| && 0 <= x < |s.handed[i]| && s.handed[i][x].start == ws[n].start
      ensures x == 0 && !Fits(Tail(gs), ws[n], maxRows)
    {
      NoRoom(s.pending, s.open, ws, edge, n, maxRows);
    }
  }

  lemma NoRoom<C>(p: seq<Closed<C>>, open: Open<C>, ws: seq<Closed<C>>, edge: int, n: nat, maxRows: nat)
    requires Closes(open, ws, edge) && n < |ws| && Alone(p, open, ws[n].start, maxRows)
    ensures !Fits(Tail(Groups(p + ws[..n], maxRows)), ws[n], maxRows)
  {
    if n > 0 {
      LastClosed(open, ws, edge, n);
      AppendInit(p, ws[..n]);
      TailFull(p + ws[..n], ws[n], maxRows);
    } else {
      assert Least(open, ws[n].start);
      AppendNothing(p, ws[..0]);
      NoFit(Groups(p, maxRows), ws[n], maxRows);
    }
  }

  lemma NoFit<C>(gs: seq<Group<C>>, w: Closed<C>, maxRows: nat)
    requires gs != [] ==> |RowsIn(Tail(gs))| + |w.rows| > maxRows
    ensures !Fits(Tail(gs), w, maxRows)
  {
  }

  lemma TailFull<C>(ws: seq<Closed<C>>, w: Closed<C>, maxRows: nat)
    requires ws != [] && |ws[|ws| - 1].rows| + |w.rows| > maxRows
    ensures !Fits(Tail(Groups(ws, maxRows)), w, maxRows)
  {
    TailEnds(ws, maxRows);
  }

  lemma LastClosed<C>(open: Open<C>, ws: seq<Closed<C>>, edge: int, n: nat)
    requires Closes(open, ws, edge) && 0 < n < |ws|
    ensures Neighbours(open, ws[n - 1].start, ws[n].start)
  {
    forall k | k in open
      ensures k <= ws[n - 1].start || ws[n].start <= k
    {
      if k < edge {
        var i :| 0 <= i < |ws| && ws[i].start == k;
      }
    }
  }

  lemma CloseKeeps<C>(s: Node<C>, ws: seq<Closed<C>>, edge: int, maxRows: nat)
    requires Invariant(s, maxRows) && Enabled(s, Close(ws, edge), maxRows)
    ensures Invariant(Next(s, Close(ws, edge), maxRows), maxRows)
  {
    var q := Groups(s.saved.pending, maxRows);
    GroupsDistinct(s.saved.pending, maxRows);
    assert AllBelow(q, s.saved.openFrom);
    forall n | 0 <= n < |ws|
      ensures Meets(s.handed, Groups(s.pending + ws[..n], maxRows), ws[n], maxRows)
      ensures Meets(q, Groups(s.pending + ws[..n], maxRows), ws[n], maxRows)
    {
      ClosesMeet(s, ws, edge, n, maxRows);
      Later(q, s.saved.openFrom, ws[n].start);
      BelowMeets(q, Groups(s.pending + ws[..n], maxRows), ws[n], maxRows);
    }
    GroupsCompatible(s.handed, s.pending, ws, maxRows);
    GroupsCompatible(q, s.pending, ws, maxRows);
    Later(s.handed, s.edge, edge);
    CloseOrdered(s.pending, s.openFrom, s.open, ws, edge, maxRows);
    CloseHarmless(s.handed, s.pending, s.open, ws, edge, maxRows);
  }

  lemma CloseOrdered<C>(p: seq<Closed<C>>, openFrom: int, open: Open<C>, ws: seq<Closed<C>>, edge: int, maxRows: nat)
    requires Ordered(p, openFrom, open, maxRows) && Closes(open, ws, edge) && openFrom <= edge
    ensures Ordered(p + ws, edge, From(open, edge), maxRows)
  {
  }

  lemma CloseHarmless<C>(handed: seq<Group<C>>, p: seq<Closed<C>>, open: Open<C>, ws: seq<Closed<C>>, edge: int,
                         maxRows: nat)
    requires Harmless(handed, p, open, maxRows) && Closes(open, ws, edge)
    ensures Harmless(handed, p + ws, From(open, edge), maxRows)
  {
    forall i, j | 0 <= i < |handed| && 0 <= j < |handed[i]| && handed[i][j].start in From(open, edge)
      ensures j == 0 && Alone(p + ws, From(open, edge), handed[i][j].start, maxRows)
    {
      CloseAlone(p, open, ws, edge, handed[i][j].start, maxRows);
    }
  }

  lemma CloseAlone<C>(p: seq<Closed<C>>, open: Open<C>, ws: seq<Closed<C>>, edge: int, u: int, maxRows: nat)
    requires u in open && edge <= u && Alone(p, open, u, maxRows) && Closes(open, ws, edge)
    ensures Alone(p + ws, From(open, edge), u, maxRows)
  {
    var rest := From(open, edge);
    forall v | Neighbours(rest, v, u)
      ensures |rest[v]| + |rest[u]| > maxRows
    {
      forall k | k in open
        ensures k <= v || u <= k
      {
        assert k >= edge ==> k in rest;
      }
      assert Neighbours(open, v, u);
    }
    if Least(rest, u) {
      BeforeLeast(open, ws, edge, u);
      if ws == [] {
        AppendNothing(p, ws);
      } else {
        assert |open[ws[|ws| - 1].start]| + |open[u]| > maxRows;
        TailEnds(p + ws, maxRows);
      }
    }
  }

  lemma BeforeLeast<C>(open: Open<C>, ws: seq<Closed<C>>, edge: int, u: int)
    requires u in open && edge <= u && Closes(open, ws, edge) && Least(From(open, edge), u)
    ensures if ws == [] then Least(open, u) else Neighbours(open, ws[|ws| - 1].start, u)
  {
    forall k | k in open
      ensures u <= k || (ws != [] && k <= ws[|ws| - 1].start)
    {
      if k < edge {
        var i :| 0 <= i < |ws| && ws[i].start == k;
      } else {
        assert k in From(open, edge);
      }
    }
  }

  lemma Append<C>(a: seq<Group<C>>, b: seq<Group<C>>, c: seq<Group<C>>)
    requires AllCompatible(a, c) && AllCompatible(b, c)
    ensures AllCompatible(a + b, c)
  {
  }

  lemma Mirror<C>(a: seq<Group<C>>, b: seq<Group<C>>)
    requires AllCompatible(a, b)
    ensures AllCompatible(b, a)
  {
    forall i, j | 0 <= i < |b| && 0 <= j < |a|
      ensures Compatible(b[i], a[j])
    {
      assert Compatible(a[j], b[i]);
    }
  }

  lemma Part<C>(a: seq<Group<C>>, b: seq<Group<C>>, i: nat, j: nat)
    requires AllCompatible(a, b) && i <= |a| && j <= |b|
    ensures AllCompatible(a[..i], b) && AllCompatible(a, b[j..]) && AllCompatible(a[..i], b[j..])
    ensures AllCompatible(a[i..], b)
  {
  }

  /** The batches a flush writes are compatible with all that went before and with the
      packing they come from. */
  lemma HandedCompatible<C>(h: seq<Group<C>>, p: seq<Group<C>>, q: seq<Group<C>>, put: nat)
    requires AllCompatible(h, h) && AllCompatible(h, p) && AllCompatible(h, q)
    requires AllCompatible(q, p) && AllCompatible(p, p) && put <= |p|
    ensures AllCompatible(h + p[..put], h + p[..put])
    ensures AllCompatible(h + p[..put], p) && AllCompatible(h + p[..put], q)
  {
    var placed := p[..put];
    Mirror(h, p);
    Mirror(q, p);
    Part(p, p, put, 0);
    Part(p, q, put, 0);
    Part(p, h, put, 0);
    Append(h, placed, p);
    Append(h, placed, q);
    Append(h, placed, h);
    Mirror(h + placed, p);
    Part(p, h + placed, put, 0);
    Mirror(h + placed, h);
    Append(h, placed, h + placed);
  }

  lemma HandedBounds<C>(h: seq<Group<C>>, p: seq<Group<C>>, put: nat, edge: int)
    requires AllRising(h) && AllRising(p) && AllBelow(h, edge) && AllBelow(p, edge) && put <= |p|
    ensures AllRising(h + p[..put]) && AllBelow(h + p[..put], edge)
  {
  }

  lemma FlushHarmless<C>(s: Node<C>, put: nat, done: nat, maxRows: nat)
    requires Harmless(s.handed, s.pending, s.open, maxRows) && Ordered(s.pending, s.openFrom, s.open, maxRows)
    requires done <= put <= |Groups(s.pending, maxRows)|
    ensures var t := Next(s, Flush(put, done, false), maxRows);
            Harmless(t.handed, t.pending, t.open, maxRows)
  {
    var gs := Groups(s.pending, maxRows);
    var t := Next(s, Flush(put, done, false), maxRows);
    SuffixStable(s.pending, done, maxRows);
    GroupsDistinct(s.pending, maxRows);
    assert AllBelow(gs, s.openFrom);
    assert t.pending != [] ==> Tail(Groups(t.pending, maxRows)) == Tail(gs) && s.pending != [] by {
      if t.pending != [] {
        TailEnds(t.pending, maxRows);
      }
    }
    forall i, j | 0 <= i < |s.handed| && 0 <= j < |s.handed[i]| && s.handed[i][j].start in s.open
      ensures j == 0 && Alone(t.pending, s.open, s.handed[i][j].start, maxRows)
    {
      assert Alone(s.pending, s.open, s.handed[i][j].start, maxRows);
    }
    NotOpen(gs[..put], s.openFrom, s.open, maxRows);
    HarmlessToo(s.handed, gs[..put], t.pending, s.open, maxRows);
  }

  lemma NotOpen<C>(gs: seq<Group<C>>, openFrom: int, open: Open<C>, maxRows: nat)
    requires AllBelow(gs, openFrom) && OpenFits(open, openFrom, maxRows)
    ensures forall i, j | 0 <= i < |gs| && 0 <= j < |gs[i]| :: gs[i][j].start !in open
  {
    forall i, j | 0 <= i < |gs| && 0 <= j < |gs[i]|
      ensures gs[i][j].start !in open
    {
      assert Below(gs[i], openFrom);
    }
  }

  lemma HarmlessToo<C>(handed: seq<Group<C>>, gs: seq<Group<C>>, p: seq<Closed<C>>, open: Open<C>, maxRows: nat)
    requires Harmless(handed, p, open, maxRows)
    requires forall i, j | 0 <= i < |gs| && 0 <= j < |gs[i]| :: gs[i][j].start !in open
    ensures Harmless(handed + gs, p, open, maxRows)
  {
  }

  lemma FlushKeeps<C>(s: Node<C>, put: nat, done: nat, saves: bool, maxRows: nat)
    requires Invariant(s, maxRows) && Enabled(s, Flush(put, done, saves), maxRows)
    ensures Invariant(Next(s, Flush(put, done, saves), maxRows), maxRows)
  {
    var p, q := Groups(s.pending, maxRows), Groups(s.saved.pending, maxRows);
    GroupsDistinct(s.pending, maxRows);
    assert AllBelow(p, s.openFrom);
    Later(p, s.openFrom, s.edge);
    SuffixStable(s.pending, done, maxRows);
    HandedBounds(s.handed, p, put, s.edge);
    HandedCompatible(s.handed, p, q, put);
    FlushHarmless(s, put, done, maxRows);
    var handed := s.handed + p[..put];
    Part(handed, p, |handed|, done);
    Part(q, p, |q|, done);
    Part(p, p, |p|, done);
    Part(p, p[done..], done, 0);
    var t := Next(s, Flush(put, done, saves), maxRows);
    assert t.handed == handed && Groups(t.pending, maxRows) == p[done..];
  }

  lemma CountKeeps<C>(s: Node<C>, start: int, rows: seq<Row<C>>, maxRows: nat)
    requires Invariant(s, maxRows) && Enabled(s, Count(start, rows), maxRows)
    ensures Invariant(Next(s, Count(start, rows), maxRows), maxRows)
  {
    var open := s.open[start := rows];
    forall i, j | 0 <= i < |s.handed| && 0 <= j < |s.handed[i]| && s.handed[i][j].start in open
      ensures j == 0 && Alone(s.pending, open, s.handed[i][j].start, maxRows)
    {
      assert Below(s.handed[i], s.edge);
      CountAlone(s.pending, s.open, start, rows, s.handed[i][j].start, maxRows);
    }
  }

  lemma CountAlone<C>(p: seq<Closed<C>>, open: Open<C>, start: int, rows: seq<Row<C>>, u: int, maxRows: nat)
    requires u < start && (u in open ==> Alone(p, open, u, maxRows))
    ensures u in open ==> Alone(p, open[start := rows], u, maxRows)
  {
    var more := open[start := rows];
    assert forall k | k in open :: k in more;
    forall v | Neighbours(more, v, u)
      ensures Neighbours(open, v, u)
    {
    }
  }

  lemma StepKeeps<C>(s: Node<C>, step: Step<C>, maxRows: nat)
    requires Invariant(s, maxRows) && Enabled(s, step, maxRows)
    ensures Invariant(Next(s, step, maxRows), maxRows)
  {
    match step {
      case Count(start, rows) => CountKeeps(s, start, rows, maxRows);
      case Close(ws, edge) => CloseKeeps(s, ws, edge, maxRows);
      case Flush(put, done, saves) => FlushKeeps(s, put, done, saves, maxRows);
      case Save => GroupsDistinct(s.pending, maxRows);
      case Crash => GroupsDistinct(s.saved.pending, maxRows);
    }
  }

  // ---------------------------------------------------------------- runs

  ghost predicate RunsTo<C>(s: Node<C>, steps: seq<Step<C>>, t: Node<C>, maxRows: nat)
    decreases |steps|
  {
    if steps == [] then s == t
    else Enabled(s, steps[0], maxRows) && RunsTo(Next(s, steps[0], maxRows), steps[1..], t, maxRows)
  }

  lemma {:induction false} RunKeeps<C>(s: Node<C>, steps: seq<Step<C>>, t: Node<C>, maxRows: nat)
    requires Invariant(s, maxRows) && RunsTo(s, steps, t, maxRows)
    ensures Invariant(t, maxRows)
    decreases |steps|
  {
    if steps != [] {
      StepKeeps(s, steps[0], maxRows);
      RunKeeps(Next(s, steps[0], maxRows), steps[1..], t, maxRows);
    }
  }

  ghost predicate Seen<C>(counted: seq<Group<C>>, key: int) {
    exists i | 0 <= i < |counted| :: KeyOf(counted[i]) == key
  }

  /** What the cloud counts of the batches that reach it: the first copy of each key. */
  ghost function Counted<C>(delivered: seq<Group<C>>): seq<Group<C>> {
    if delivered == [] then []
    else
      var n := |delivered| - 1;
      var before := Counted(delivered[..n]);
      if Seen(before, KeyOf(delivered[n])) then before else before + [delivered[n]]
  }

  ghost predicate DistinctKeys<C>(gs: seq<Group<C>>) {
    forall i, j | 0 <= i < j < |gs| :: KeyOf(gs[i]) != KeyOf(gs[j])
  }

  lemma {:induction false} CountedKeys<C>(delivered: seq<Group<C>>)
    ensures DistinctKeys(Counted(delivered))
    ensures forall g | g in Counted(delivered) :: g in delivered
  {
    if delivered != [] {
      CountedKeys(delivered[..|delivered| - 1]);
    }
  }

  lemma {:induction false} FlattenIndex<C>(gs: seq<Group<C>>, a: nat) returns (i: nat, x: nat)
    requires a < |Flatten(gs)|
    ensures i < |gs| && x < |gs[i]| && gs[i][x] == Flatten(gs)[a]
    ensures a == |Flatten(gs[..i])| + x
  {
    var n := |gs| - 1;
    if a < |Flatten(gs[..n])| {
      i, x := FlattenIndex(gs[..n], a);
      assert gs[..n][..i] == gs[..i];
    } else {
      i, x := n, a - |Flatten(gs[..n])|;
    }
  }

  /** No window is counted twice of what was delivered. */
  ghost predicate OnceEach<C>(delivered: seq<Group<C>>) {
    var all := Flatten(Counted(delivered));
    forall a, b | 0 <= a < b < |all| :: all[a].start != all[b].start
  }

  lemma CompatibleOnce<C>(handed: seq<Group<C>>, delivered: seq<Group<C>>)
    requires AllRising(handed) && AllCompatible(handed, handed) && forall g | g in delivered :: g in handed
    ensures OnceEach(delivered)
  {
    var counted := Counted(delivered);
    CountedKeys(delivered);
    forall a, b | 0 <= a < b < |Flatten(counted)|
      ensures Flatten(counted)[a].start != Flatten(counted)[b].start
    {
      var i, x := FlattenIndex(counted, a);
      var j, y := FlattenIndex(counted, b);
      assert counted[i] in handed && counted[j] in handed;
      var k :| 0 <= k < |handed| && handed[k] == counted[i];
      var l :| 0 <= l < |handed| && handed[l] == counted[j];
      assert Compatible(handed[k], handed[l]);
      assert Rising(handed[k]);
    }
  }

  /** From an empty node, over every run of counting, closing, flushing with any disk
      failures, saving and harmless crashes, whichever of the batches handed over reach the
      cloud, in whatever order and however often: no window is counted twice. */
  lemma AtMostOnce<C>(openFrom: int, steps: seq<Step<C>>, t: Node<C>, delivered: seq<Group<C>>, maxRows: nat)
    requires RunsTo(Empty(openFrom), steps, t, maxRows)
    requires forall g | g in delivered :: g in t.handed
    ensures OnceEach(delivered)
  {
    RunKeeps(Empty(openFrom), steps, t, maxRows);
    CompatibleOnce(t.handed, delivered);
  }

  // ---------------------------------------------------------------- the condition is exact

  /** These windows are the open ones of these starts. */
  ghost predicate Shuts<C>(open: Open<C>, ks: seq<int>, ws: seq<Closed<C>>) {
    |ws| == |ks| && forall i | 0 <= i < |ks| :: ks[i] in open && ws[i].start == ks[i] && ws[i].rows == open[ks[i]]
  }

  function ShutAll<C>(open: Open<C>, ks: seq<int>): (ws: seq<Closed<C>>)
    requires forall i | 0 <= i < |ks| :: ks[i] in open
    ensures Shuts(open, ks, ws)
  {
    seq(|ks|, i requires 0 <= i < |ks| => Closed(ks[i], 0, open[ks[i]]))
  }

  /** The starts of the open windows before the edge, in their order. */
  ghost predicate Starts<C>(open: Open<C>, ks: seq<int>, edge: int) {
    RisingKeys(ks)
    && (forall k :: k in ks <==> k in open && k < edge)
  }

  lemma ListStarts<C>(open: Open<C>, edge: int) returns (ks: seq<int>)
    ensures Starts(open, ks, edge)
  {
    var ending := set k | k in open && k < edge;
    ks := InOrder(Earlier, ending);
    AscendingRises(ending);
    assert forall k :: k in ks <==> k in Members(ks);
  }

  lemma ShutsCloses<C>(open: Open<C>, ks: seq<int>, ws: seq<Closed<C>>, edge: int)
    requires Starts(open, ks, edge) && Shuts(open, ks, ws)
    ensures Closes(open, ws, edge)
  {
    forall i | 0 <= i < |ws|
      ensures ws[i].start < edge
    {
      assert ks[i] in ks;
    }
    forall k | k in open && k < edge
      ensures exists i :: 0 <= i < |ws| && ws[i].start == k
    {
      var i :| 0 <= i < |ks| && ks[i] == k;
      assert ws[i].start == k;
    }
  }

  /** Closing more windows leaves the last batch with its windows first. */
  lemma TailStays<C>(p: seq<Closed<C>>, q: seq<Closed<C>>, maxRows: nat) returns (h: Group<C>)
    requires p != []
    ensures h in Groups(p + q, maxRows) && Tail(Groups(p, maxRows)) <= h
  {
    TailEnds(p, maxRows);
    PrefixStable(p, q, maxRows);
    h := Groups(p + q, maxRows)[|Groups(p, maxRows)| - 1];
  }

  /** Under another fact set version a window begins a batch of its own. */
  lemma OwnBatch<C>(p: seq<Closed<C>>, start: int, rows: seq<Row<C>>, maxRows: nat) returns (w: Closed<C>)
    ensures w.start == start && w.rows == rows && Tail(Groups(p + [w], maxRows)) == [w]
  {
    var g := Tail(Groups(p, maxRows));
    w := Closed(start, if g == [] then 0 else g[0].facts + 1, rows);
    GroupsNext(p, w, maxRows);
  }

  /** The open window `ks[n]` can come first in its batch. */
  lemma CanBegin<C>(p: seq<Closed<C>>, open: Open<C>, ks: seq<int>, n: nat, maxRows: nat)
    returns (ws: seq<Closed<C>>, h: Group<C>)
    requires n < |ks| && forall i | 0 <= i < |ks| :: ks[i] in open
    ensures Shuts(open, ks, ws) && h in Groups(p + ws, maxRows) && h != [] && h[0].start == ks[n]
  {
    var before, after := ShutAll(open, ks[..n]), ShutAll(open, ks[n + 1..]);
    var w := OwnBatch(p + before, ks[n], open[ks[n]], maxRows);
    h := TailStays(p + before + [w], after, maxRows);
    ws := before + [w] + after;
    ShutsJoin(open, ks, n, n + 1, before, [w], after);
    JoinFour(p, before, [w], after);
  }

  lemma ShutsJoin<C>(open: Open<C>, ks: seq<int>, a: nat, b: nat, x: seq<Closed<C>>, y: seq<Closed<C>>,
                     z: seq<Closed<C>>)
    requires a <= b <= |ks| && Shuts(open, ks[..a], x) && Shuts(open, ks[a..b], y) && Shuts(open, ks[b..], z)
    ensures Shuts(open, ks, x + y + z)
  {
    var ws := x + y + z;
    forall i | 0 <= i < |ks|
      ensures ks[i] in open && ws[i].start == ks[i] && ws[i].rows == open[ks[i]]
    {
      if i < a {
        assert ws[i] == x[i] && ks[..a][i] == ks[i];
      } else if i < b {
        assert ws[i] == y[i - a] && ks[a..b][i - a] == ks[i];
      } else {
        assert ws[i] == z[i - b] && ks[b..][i - b] == ks[i];
      }
    }
  }

  lemma SecondFits<C>(ws: seq<Closed<C>>, v: Closed<C>, w: Closed<C>, maxRows: nat)
    requires ws != [] && Tail(Groups(ws, maxRows)) == [v]
    requires v.facts == w.facts && |v.rows| + |w.rows| <= maxRows
    ensures Tail(Groups(ws + [w], maxRows)) == [v, w]
  {
    GroupsNext(ws, w, maxRows);
    assert [v][..0] == [] && RowsIn([v]) == v.rows;
    assert [v] + [w] == [v, w];
  }

  /** It can come second, if the one before leaves room. */
  lemma CanFollow<C>(p: seq<Closed<C>>, open: Open<C>, ks: seq<int>, n: nat, maxRows: nat)
    returns (ws: seq<Closed<C>>, h: Group<C>)
    requires 0 < n < |ks| && forall i | 0 <= i < |ks| :: ks[i] in open
    requires |open[ks[n - 1]]| + |open[ks[n]]| <= maxRows
    ensures Shuts(open, ks, ws) && h in Groups(p + ws, maxRows)
    ensures |h| > 1 && h[0].start == ks[n - 1] && h[1].start == ks[n]
  {
    var before, after := ShutAll(open, ks[..n - 1]), ShutAll(open, ks[n + 1..]);
    var v := OwnBatch(p + before, ks[n - 1], open[ks[n - 1]], maxRows);
    var w := Closed(ks[n], v.facts, open[ks[n]]);
    h := PairStays(p, before, v, w, after, maxRows);
    ws := before + [v, w] + after;
    PairShuts(open, ks, n, v, w);
    ShutsJoin(open, ks, n - 1, n + 1, before, [v, w], after);
  }

  lemma PairShuts<C>(open: Open<C>, ks: seq<int>, n: nat, v: Closed<C>, w: Closed<C>)
    requires 0 < n < |ks| && Shuts(open, [ks[n - 1], ks[n]], [v, w])
    ensures Shuts(open, ks[n - 1..n + 1], [v, w])
  {
    assert ks[n - 1..n + 1] == [ks[n - 1], ks[n]];
  }

  lemma PairStays<C>(p: seq<Closed<C>>, before: seq<Closed<C>>, v: Closed<C>, w: Closed<C>, after: seq<Closed<C>>,
                     maxRows: nat)
    returns (h: Group<C>)
    requires Tail(Groups(p + before + [v], maxRows)) == [v] && v.facts == w.facts && |v.rows| + |w.rows| <= maxRows
    ensures h in Groups(p + (before + [v, w] + after), maxRows) && |h| > 1 && h[0] == v && h[1] == w
  {
    var first := p + before + [v];
    SecondFits(first, v, w, maxRows);
    h := TailStays(first + [w], after, maxRows);
    assert [v] + [w] == [v, w];
    Associate(p + before, [v], [w]);
    JoinFour(p, before, [v, w], after);
  }

  /** The first of them can join the last pending batch, if that has room. */
  lemma CanJoin<C>(p: seq<Closed<C>>, open: Open<C>, ks: seq<int>, maxRows: nat)
    returns (ws: seq<Closed<C>>, h: Group<C>, x: nat)
    requires p != [] && ks != [] && forall i | 0 <= i < |ks| :: ks[i] in open
    requires |RowsIn(Tail(Groups(p, maxRows)))| + |open[ks[0]]| <= maxRows
    ensures Shuts(open, ks, ws) && h in Groups(p + ws, maxRows)
    ensures 0 < x < |h| && h[0] in p && h[x].start == ks[0]
  {
    var g := Tail(Groups(p, maxRows));
    HeadIsOne(p, maxRows);
    var w := Closed(ks[0], g[0].facts, open[ks[0]]);
    var after := ShutAll(open, ks[1..]);
    JoinsTail(p, w, maxRows);
    h := TailStays(p + [w], after, maxRows);
    x := |g|;
    ws := [w] + after;
    Associate(p, [w], after);
    FirstShuts(open, ks, w, after);
  }

  lemma FirstShuts<C>(open: Open<C>, ks: seq<int>, w: Closed<C>, after: seq<Closed<C>>)
    requires ks != [] && Shuts(open, [ks[0]], [w]) && Shuts(open, ks[1..], after)
    ensures Shuts(open, ks, [w] + after)
  {
    var ws := [w] + after;
    assert [ks[0]][0] == ks[0] && [w][0] == w;
    forall i | 0 <= i < |ks|
      ensures ks[i] in open && ws[i].start == ks[i] && ws[i].rows == open[ks[i]]
    {
      if i > 0 {
        assert ws[i] == after[i - 1] && ks[i] == ks[1..][i - 1];
      }
    }
  }

  lemma JoinsTail<C>(p: seq<Closed<C>>, w: Closed<C>, maxRows: nat)
    requires Fits(Tail(Groups(p, maxRows)), w, maxRows)
    ensures Tail(Groups(p + [w], maxRows)) == Tail(Groups(p, maxRows)) + [w]
  {
    GroupsNext(p, w, maxRows);
  }

  lemma {:induction false} HeadIsOne<C>(p: seq<Closed<C>>, maxRows: nat)
    requires p != []
    ensures Tail(Groups(p, maxRows)) != [] && Tail(Groups(p, maxRows))[0] in p
  {
    TailEnds(p, maxRows);
    var n := |p| - 1;
    if n > 0 {
      HeadIsOne(p[..n], maxRows);
    }
  }

  /** Some way of closing what the snapshot has open hands a window over under a second key. */
  lemma SecondKey<C>(p: seq<Closed<C>>, open: Open<C>, edge: int, openFrom: int, g: Group<C>, j: nat, maxRows: nat)
    returns (ws: seq<Closed<C>>, h: Group<C>, x: nat)
    requires Ordered(p, openFrom, open, maxRows) && j < |g| && Rising(g)
    requires g[j].start in open && g[j].start < edge
    requires j > 0 || !Alone(p, open, g[j].start, maxRows)
    ensures Closes(open, ws, edge) && h in Groups(p + ws, maxRows)
    ensures x < |h| && h[x].start == g[j].start && KeyOf(h) != KeyOf(g)
  {
    var u := g[j].start;
    var ks := ListStarts(open, edge);
    assert u in ks;
    var n :| 0 <= n < |ks| && ks[n] == u;
    assert forall i | 0 <= i < |ks| :: ks[i] in ks;
    if j > 0 {
      ws, h := CanBegin(p, open, ks, n, maxRows);
      x := 0;
    } else if v :| Neighbours(open, v, u) && |open[v]| + |open[u]| <= maxRows {
      assert v in ks;
      BeforeIs(open, ks, edge, n, v);
      ws, h := CanFollow(p, open, ks, n, maxRows);
      x := 1;
    } else {
      assert ks[0] in open && Least(open, u);
      assert n == 0;
      ws, h, x := CanJoin(p, open, ks, maxRows);
    }
    ShutsCloses(open, ks, ws, edge);
  }

  lemma BeforeIs<C>(open: Open<C>, ks: seq<int>, edge: int, n: nat, v: int)
    requires Starts(open, ks, edge) && n < |ks| && Neighbours(open, v, ks[n]) && v in ks
    ensures n > 0 && ks[n - 1] == v
  {
    var m :| 0 <= m < |ks| && ks[m] == v;
    assert m < n && ks[n - 1] in ks;
  }

  lemma TwoKeysTwice<C>(g: Group<C>, h: Group<C>, j: nat, x: nat)
    requires j < |g| && x < |h| && g[j].start == h[x].start && KeyOf(g) != KeyOf(h)
    ensures !OnceEach([g, h])
  {
    assert [g, h] == [g] + [h];
    assert DistinctKeys([g, h]);
    CountedAll([g, h]);
    assert Flatten([g, h]) == g + h by {
      FlattenNext([g], h);
      FlattenNext([], g);
      assert [] + [g] == [g];
    }
    assert (g + h)[j] == g[j] && (g + h)[|g| + x] == h[x];
  }

  /** The close and the flush that follow the restart. */
  lemma HandsOver<C>(s: Node<C>, ws: seq<Closed<C>>, edge: int, maxRows: nat) returns (steps: seq<Step<C>>, t: Node<C>)
    requires Enabled(s, Close(ws, edge), maxRows)
    ensures RunsTo(s, steps, t, maxRows) && t.handed == s.handed + Groups(s.pending + ws, maxRows)
    ensures var n := |Groups(s.pending + ws, maxRows)|; steps == [Close(ws, edge), Flush(n, n, true)]
  {
    var gs := Groups(s.pending + ws, maxRows);
    var u := Next(s, Close(ws, edge), maxRows);
    t := Next(u, Flush(|gs|, |gs|, true), maxRows);
    steps := [Close(ws, edge), Flush(|gs|, |gs|, true)];
    assert gs[..|gs|] == gs;
    assert steps[1..] == [Flush(|gs|, |gs|, true)] && steps[1..][1..] == [];
  }

  /** Every continuation counts every window at most once. */
  ghost predicate OnceAfter<C(!new)>(s: Node<C>, maxRows: nat) {
    forall steps, t, delivered | RunsTo(s, steps, t, maxRows) && (forall g | g in delivered :: g in t.handed) ::
      OnceEach(delivered)
  }

  /** A crash at the end of any such run keeps the promise for all that can follow exactly
      when it is harmless. */
  lemma CrashSafeExactly<C(!new)>(openFrom: int, steps: seq<Step<C>>, s: Node<C>, maxRows: nat)
    requires RunsTo(Empty(openFrom), steps, s, maxRows)
    ensures OnceAfter(Restarted(s), maxRows) <==> Harmless(s.handed, s.saved.pending, s.saved.open, maxRows)
  {
    RunKeeps(Empty(openFrom), steps, s, maxRows);
    if Harmless(s.handed, s.saved.pending, s.saved.open, maxRows) {
      StepKeeps(s, Crash, maxRows);
      forall more, t, delivered | RunsTo(Restarted(s), more, t, maxRows) && (forall g | g in delivered :: g in t.handed)
        ensures OnceEach(delivered)
      {
        RunKeeps(Restarted(s), more, t, maxRows);
        CompatibleOnce(t.handed, delivered);
      }
    } else {
      HarmfulCountsTwice(s, maxRows);
    }
  }

  lemma HarmfulCountsTwice<C(!new)>(s: Node<C>, maxRows: nat)
    requires Invariant(s, maxRows) && !Harmless(s.handed, s.saved.pending, s.saved.open, maxRows)
    ensures !OnceAfter(Restarted(s), maxRows)
  {
    var p, open := s.saved.pending, s.saved.open;
    var i, j :| 0 <= i < |s.handed| && 0 <= j < |s.handed[i]| && s.handed[i][j].start in open
                && (j > 0 || !Alone(p, open, s.handed[i][j].start, maxRows));
    var g := s.handed[i];
    assert Below(g, s.edge);
    var ws, h, x := SecondKey(p, open, s.edge, s.saved.openFrom, g, j, maxRows);
    var more, t := HandsOver(Restarted(s), ws, s.edge, maxRows);
    assert g in t.handed && h in t.handed;
    TwoKeysTwice(g, h, j, x);
    BreaksPromise(Restarted(s), more, t, [g, h], maxRows);
  }

  lemma BreaksPromise<C(!new)>(s: Node<C>, steps: seq<Step<C>>, t: Node<C>, delivered: seq<Group<C>>, maxRows: nat)
    requires RunsTo(s, steps, t, maxRows) && (forall g | g in delivered :: g in t.handed) && !OnceEach(delivered)
    ensures !OnceAfter(s, maxRows)
  {
  }

  // ---------------------------------------------------------------- what one crash costs

  /** How many of the windows closed after the crash are lost: those that join a last
      batch whose key the cloud already has. */
  function Lost<C>(p: seq<Closed<C>>, q: seq<Closed<C>>, put: nat, maxRows: nat): nat
    requires put <= |Groups(p, maxRows)|
  {
    PrefixStable(p, q, maxRows);
    if 0 < put == |Groups(p, maxRows)|
    then |Groups(p + q, maxRows)[put - 1]| - |Groups(p, maxRows)[put - 1]|
    else 0
  }

  lemma {:induction false} FlattenConcat<C>(a: seq<Group<C>>, b: seq<Group<C>>)
    ensures Flatten(a + b) == Flatten(a) + Flatten(b)
  {
    if b == [] {
      AppendNothing(a, b);
    } else {
      var n := |b| - 1;
      AppendInit(a, b);
      FlattenConcat(a, b[..n]);
      Associate(Flatten(a), Flatten(b[..n]), b[n]);
    }
  }

  lemma CountedNext<C>(d: seq<Group<C>>, g: Group<C>)
    ensures Counted(d + [g]) == if Seen(Counted(d), KeyOf(g)) then Counted(d) else Counted(d) + [g]
  {
    PushInit(d, g);
  }

  lemma {:induction false} CountedAll<C>(a: seq<Group<C>>)
    requires DistinctKeys(a)
    ensures Counted(a) == a
  {
    if a != [] {
      var n := |a| - 1;
      CountedAll(a[..n]);
      CountedNext(a[..n], a[n]);
      LastApart(a);
    }
  }

  ghost predicate SameKeys<C>(a: seq<Group<C>>, b: seq<Group<C>>) {
    forall i | 0 <= i < |a| && i < |b| :: KeyOf(a[i]) == KeyOf(b[i])
  }

  /** The batches counted of `a` and then the first `n` of `b`, when the keys of `b` start
      with those of `a`. */
  function Union<T>(a: seq<T>, b: seq<T>, n: nat): seq<T>
    requires n <= |b|
  {
    if n <= |a| then a else a + b[|a|..n]
  }

  lemma UnionNext<T>(a: seq<T>, b: seq<T>, n: nat)
    requires n < |b|
    ensures Union(a, b, n + 1) == if n < |a| then Union(a, b, n) else Union(a, b, n) + [b[n]]
  {
  }

  lemma UnionKeys<C>(a: seq<Group<C>>, b: seq<Group<C>>, n: nat)
    requires n < |b| && DistinctKeys(b) && SameKeys(a, b)
    ensures Seen(Union(a, b, n), KeyOf(b[n])) <==> n < |a|
  {
    var u := Union(a, b, n);
    if n < |a| {
      assert KeyOf(u[n]) == KeyOf(b[n]);
    } else {
      forall i | 0 <= i < |u|
        ensures KeyOf(u[i]) != KeyOf(b[n])
      {
        assert KeyOf(u[i]) == KeyOf(b[i]);
      }
    }
  }

  /** Batches whose keys were all seen before add nothing; new keys are all counted. */
  lemma {:induction false} CountedAfter<C>(a: seq<Group<C>>, b: seq<Group<C>>, n: nat)
    requires DistinctKeys(a) && DistinctKeys(b) && SameKeys(a, b) && n <= |b|
    ensures Counted(a + b[..n]) == Union(a, b, n)
  {
    if n == 0 {
      assert a + b[..n] == a;
      CountedAll(a);
    } else {
      var m := n - 1;
      CountedAfter(a, b, m);
      UnionKeys(a, b, m);
      UnionNext(a, b, m);
      var d := a + b[..m];
      TakeNext(b, m);
      Associate(a, b[..m], [b[m]]);
      CountedNext(d, b[m]);
    }
  }

  lemma {:induction false} KeysDistinct<C>(ws: seq<Closed<C>>, maxRows: nat)
    requires Rising(ws)
    ensures DistinctKeys(Groups(ws, maxRows))
  {
    if ws != [] {
      var n := |ws| - 1;
      KeysDistinct(ws[..n], maxRows);
      GroupsDistinct(ws[..n], maxRows);
      assert Below(ws[..n], ws[n].start);
      ExtendKeys(Groups(ws[..n], maxRows), ws[n], maxRows);
    }
  }

  lemma ExtendKeys<C>(gs: seq<Group<C>>, w: Closed<C>, maxRows: nat)
    requires DistinctKeys(gs) && AllRising(gs) && AllBelow(gs, w.start)
    ensures DistinctKeys(Extend(gs, w, maxRows))
  {
    var r := Extend(gs, w, maxRows);
    forall i | 0 <= i < |gs|
      ensures KeyOf(r[i]) == KeyOf(gs[i]) < w.start
    {
      assert gs[i] != [] && Below(gs[i], w.start);
    }
  }

  /** After a crash that followed `put` of the writes of a flush, with the snapshot holding
      the windows `p` that were being flushed, and a later complete flush of `p` and of
      the windows `q` closed since: every window of `p` is counted exactly once, and of
      `q` exactly the first `Lost` are never counted. */
  lemma CrashCosts<C>(p: seq<Closed<C>>, q: seq<Closed<C>>, put: nat, maxRows: nat)
    requires Rising(p + q) && put <= |Groups(p, maxRows)|
    ensures Lost(p, q, put, maxRows) <= |q|
    ensures Flatten(Counted(Groups(p, maxRows)[..put] + Groups(p + q, maxRows))) == p + q[Lost(p, q, put, maxRows)..]
  {
    assert Rising(p) by {
      assert forall i | 0 <= i < |p| :: p[i] == (p + q)[i];
    }
    KeysDistinct(p, maxRows);
    KeysDistinct(p + q, maxRows);
    PrefixStable(p, q, maxRows);
    GroupsFlatten(p, maxRows);
    GroupsNonEmpty(p, maxRows);
    GroupsFlatten(p + q, maxRows);
    CountedTogether(Groups(p, maxRows), Groups(p + q, maxRows), p, q, put);
  }

  /** `a` is a packing of `p` and `b` the packing it grows into with `q`. */
  ghost predicate Grows<C>(a: seq<Group<C>>, b: seq<Group<C>>, p: seq<Closed<C>>, q: seq<Closed<C>>) {
    Flatten(a) == p && Flatten(b) == p + q && GrowsInto(a, b)
  }

  lemma CountedTogether<C>(a: seq<Group<C>>, b: seq<Group<C>>, p: seq<Closed<C>>, q: seq<Closed<C>>, put: nat)
    requires Grows(a, b, p, q) && NonEmpty(a) && DistinctKeys(a) && DistinctKeys(b) && put <= |a|
    ensures var lost := if 0 < put == |a| then |b[put - 1]| - |a[put - 1]| else 0;
            lost <= |q| && Flatten(Counted(a[..put] + b)) == p + q[lost..]
  {
    CountedPut(a, b, put);
    FlattenConcat(a[..put], b[put..]);
    if 0 < put == |a| {
      assert a[..put] == a;
      LastGrows(a, b, p, q);
    } else {
      Rejoin(a, b, put);
    }
  }

  lemma CountedPut<C>(a: seq<Group<C>>, b: seq<Group<C>>, put: nat)
    requires GrowsInto(a, b) && NonEmpty(a) && DistinctKeys(a) && DistinctKeys(b) && put <= |a|
    ensures Counted(a[..put] + b) == a[..put] + b[put..]
  {
    var c := a[..put];
    forall i | 0 <= i < put
      ensures KeyOf(a[i]) == KeyOf(b[i])
    {
      assert i < |a| - 1 ==> b[i] == a[i];
    }
    assert SameKeys(c, b);
    CountedAfter(c, b, |b|);
    assert b[..|b|] == b;
    assert Union(c, b, |b|) == c + b[put..];
  }

  lemma Rejoin<C>(a: seq<Group<C>>, b: seq<Group<C>>, put: nat)
    requires put <= |a| && put <= |b| && forall i | 0 <= i < put :: a[i] == b[i]
    ensures Flatten(a[..put]) + Flatten(b[put..]) == Flatten(b)
  {
    assert a[..put] == b[..put];
    FlattenConcat(b[..put], b[put..]);
    assert b == b[..put] + b[put..];
  }

  lemma LastGrows<C>(a: seq<Group<C>>, b: seq<Group<C>>, p: seq<Closed<C>>, q: seq<Closed<C>>)
    requires Grows(a, b, p, q) && a != []
    ensures var lost := |b[|a| - 1]| - |a[|a| - 1]|;
            lost <= |q| && Flatten(a) + Flatten(b[|a|..]) == p + q[lost..]
  {
    var n := |a|;
    var grown := b[n - 1][|a[n - 1]|..];
    GrownPart(a, b);
    FlattenConcat(b[..n], b[n..]);
    assert b == b[..n] + b[n..];
    Associate(p, grown, Flatten(b[n..]));
    SameTail(p, q, grown + Flatten(b[n..]));
    Associate(Flatten(a), grown, Flatten(b[n..]));
    assert q[|grown|..] == Flatten(b[n..]);
  }

  lemma SameTail<T>(p: seq<T>, q: seq<T>, r: seq<T>)
    requires p + q == p + r
    ensures q == r
  {
    assert q == (p + q)[|p|..] == (p + r)[|p|..] == r;
  }

  lemma GrownPart<C>(a: seq<Group<C>>, b: seq<Group<C>>)
    requires GrowsInto(a, b) && a != []
    ensures Flatten(b[..|a|]) == Flatten(a) + b[|a| - 1][|a[|a| - 1]|..]
  {
    var n := |a| - 1;
    assert a[..n] == b[..|a|][..n];
    assert b[n] == a[n] + b[n][|a[n]|..];
    Associate(Flatten(a[..n]), a[n], b[n][|a[n]|..]);
  }

  /** Nothing is lost exactly when the last batch was not yet written, or no new window
      fits into it. */
  lemma NothingLost<C>(p: seq<Closed<C>>, w: Closed<C>, q: seq<Closed<C>>, put: nat, maxRows: nat)
    requires put <= |Groups(p, maxRows)|
    ensures var a := Groups(p, maxRows);
            Lost(p, [w] + q, put, maxRows) == 0 <==> put == 0 || put < |a| || !Fits(a[put - 1], w, maxRows)
  {
    var a := Groups(p, maxRows);
    if 0 < put == |a| {
      NextClosed(p, w, q, maxRows);
      LastOfExtend(a, w, Groups(p + ([w] + q), maxRows), maxRows);
    }
  }

  lemma NextClosed<C>(p: seq<Closed<C>>, w: Closed<C>, q: seq<Closed<C>>, maxRows: nat)
    ensures GrowsInto(Extend(Groups(p, maxRows), w, maxRows), Groups(p + ([w] + q), maxRows))
  {
    var pw, all := p + [w], p + ([w] + q);
    assert all == pw + q;
    assert Groups(pw, maxRows) == Extend(Groups(p, maxRows), w, maxRows) by {
      GroupsNext(p, w, maxRows);
    }
    PrefixStable(pw, q, maxRows);
  }

  lemma LastOfExtend<C>(a: seq<Group<C>>, w: Closed<C>, c: seq<Group<C>>, maxRows: nat)
    requires a != [] && GrowsInto(Extend(a, w, maxRows), c)
    ensures |c| >= |a|
    ensures |c[|a| - 1]| == |a[|a| - 1]| <==> !Fits(a[|a| - 1], w, maxRows)
  {
    var n := |a| - 1;
    var b := Extend(a, w, maxRows);
    if Fits(a[n], w, maxRows) {
      assert b[n] == a[n] + [w];
    } else {
      assert c[n] == b[n] == a[n];
    }
  }

  // ---------------------------------------------------------------- a crash that counts a window twice

  lemma PairPacked<C>(x: Closed<C>, y: Closed<C>, maxRows: nat)
    ensures Groups([x, y], maxRows) ==
            if |x.rows| + |y.rows| <= maxRows && x.facts == y.facts then [[x, y]] else [[x], [y]]
  {
    assert [x][..0] == [] && [x, y][..1] == [x];
    assert RowsIn([x]) == x.rows;
    assert Groups([x], maxRows) == [[x]];
    assert [x] + [y] == [x, y];
  }

  /** Windows x and y are counted; x closes, the state is saved; y closes, and both go out
      in one batch before the crash. After it y closes again, under another fact set
      version, and goes out in a batch of its own. */
  function BeforeCrash<C>(x: Closed<C>, y: Closed<C>): seq<Step<C>> {
    [Count(x.start, x.rows), Count(y.start, y.rows), Close([x], y.start), Save, Close([y], y.start + 1),
     Flush(1, 1, false)]
  }

  ghost predicate Takes<C>(s: Node<C>, step: Step<C>, t: Node<C>, maxRows: nat) {
    Enabled(s, step, maxRows) && Next(s, step, maxRows) == t
  }

  lemma RunsNext<C>(s: Node<C>, step: Step<C>, u: Node<C>, rest: seq<Step<C>>, t: Node<C>, maxRows: nat)
    requires Takes(s, step, u, maxRows) && RunsTo(u, rest, t, maxRows)
    ensures RunsTo(s, [step] + rest, t, maxRows)
  {
    assert ([step] + rest)[1..] == rest;
  }

  /** The state at the crash. */
  function Crashing<C>(x: Closed<C>, y: Closed<C>): Node<C> {
    Node([], y.start + 1, map[], Kept(x, y), y.start + 1, [[x, y]])
  }

  function Kept<C>(x: Closed<C>, y: Closed<C>): Snapshot<C> {
    Snapshot([x], y.start, map[y.start := y.rows])
  }

  lemma FirstCounted<C>(openFrom: int, x: Closed<C>, y: Closed<C>, maxRows: nat)
    returns (s: Node<C>, t: Node<C>, u: Node<C>)
    requires openFrom <= x.start < y.start && 0 < |x.rows| <= maxRows && 0 < |y.rows| <= maxRows
    ensures Takes(Empty(openFrom), Count(x.start, x.rows), s, maxRows)
    ensures Takes(s, Count(y.start, y.rows), t, maxRows)
    ensures Takes(t, Close([x], y.start), u, maxRows)
    ensures u == Node([x], y.start, map[y.start := y.rows], Empty(openFrom).saved, y.start, [])
  {
    var open: Open<C> := map[x.start := x.rows, y.start := y.rows];
    s := Empty(openFrom).(open := map[x.start := x.rows]);
    t := Empty(openFrom).(open := open);
    u := Next(t, Close([x], y.start), maxRows);
    assert From(open, y.start) == map[y.start := y.rows];
    assert Closes(open, [x], y.start) by {
      assert [x][0].start == x.start;
    }
  }

  lemma SecondClosed<C>(x: Closed<C>, y: Closed<C>, saved: Snapshot<C>, maxRows: nat) returns (s: Node<C>, t: Node<C>)
    requires x.start < y.start
    ensures s == Node([x], y.start, map[y.start := y.rows], saved, y.start, [])
    ensures t == Node([x, y], y.start + 1, map[], saved, y.start + 1, [])
    ensures Takes(s, Close([y], y.start + 1), t, maxRows)
  {
    s := Node([x], y.start, map[y.start := y.rows], saved, y.start, []);
    t := Node([x, y], y.start + 1, map[], saved, y.start + 1, []);
    assert From(s.open, y.start + 1) == map[];
    ClosesOne(s.open, y);
    assert [x] + [y] == [x, y];
  }

  lemma ClosesOne<C>(open: Open<C>, y: Closed<C>)
    requires open == map[y.start := y.rows]
    ensures Closes(open, [y], y.start + 1)
  {
    assert [y][0].start == y.start;
  }

  lemma FlushOne<C>(s: Node<C>, g: Group<C>, maxRows: nat)
    requires Groups(s.pending, maxRows) == [g] && s.handed == []
    ensures Takes(s, Flush(1, 1, false), s.(pending := [], handed := [g]), maxRows)
  {
    var gs := Groups(s.pending, maxRows);
    GroupsFlatten(s.pending, maxRows);
    TakeAll(gs);
    SuffixStable(s.pending, 1, maxRows);
    assert s.handed + gs == [g] && s.pending[|s.pending|..] == [];
  }

  lemma FromTheSave<C>(s: Node<C>, x: Closed<C>, y: Closed<C>, maxRows: nat)
    requires x.start < y.start && x.facts == y.facts && |x.rows| + |y.rows| <= maxRows
    requires s == Node([x], y.start, map[y.start := y.rows], s.saved, y.start, [])
    ensures RunsTo(s, [Save] + ([Close([y], y.start + 1)] + [Flush(1, 1, false)]), Crashing(x, y), maxRows)
  {
    var t, u := SecondClosed(x, y, Kept(x, y), maxRows);
    var end := Crashing(x, y);
    PairPacked(x, y, maxRows);
    FlushOne(u, [x, y], maxRows);
    assert Takes(s, Save, t, maxRows);
    RunsNext(u, Flush(1, 1, false), end, [], end, maxRows);
    var rest: seq<Step<C>> := [Flush(1, 1, false)];
    assert rest + [] == rest;
    RunsNext(t, Close([y], y.start + 1), u, rest, end, maxRows);
    RunsNext(s, Save, t, [Close([y], y.start + 1)] + rest, end, maxRows);
  }

  lemma BeforeRuns<C>(openFrom: int, x: Closed<C>, y: Closed<C>, maxRows: nat)
    requires openFrom <= x.start < y.start && x.facts == y.facts
    requires 0 < |x.rows| && 0 < |y.rows| && |x.rows| + |y.rows| <= maxRows
    ensures RunsTo(Empty(openFrom), BeforeCrash(x, y), Crashing(x, y), maxRows)
  {
    var s, t, u := FirstCounted(openFrom, x, y, maxRows);
    FromTheSave(u, x, y, maxRows);
    var rest := [Save] + ([Close([y], y.start + 1)] + [Flush(1, 1, false)]);
    RunsNext(t, Close([x], y.start), u, rest, Crashing(x, y), maxRows);
    var more := [Close([x], y.start)] + rest;
    RunsNext(s, Count(y.start, y.rows), t, more, Crashing(x, y), maxRows);
    RunsNext(Empty(openFrom), Count(x.start, x.rows), s, [Count(y.start, y.rows)] + more, Crashing(x, y), maxRows);
    assert [Count(x.start, x.rows)] + ([Count(y.start, y.rows)] + more) == BeforeCrash(x, y);
  }

  /** The promise is broken by a run the node can make: the state saved last has y open,
      [x, y] was handed over, and after the crash y goes out again under a key of its own. */
  lemma OlderSnapshotCountsTwice<C>(openFrom: int, x: Closed<C>, y: Closed<C>, y': Closed<C>, maxRows: nat)
    returns (more: seq<Step<C>>, t: Node<C>)
    requires openFrom <= x.start < y.start == y'.start && y'.rows == y.rows && x.facts == y.facts != y'.facts
    requires 0 < |x.rows| && 0 < |y.rows| && |x.rows| + |y.rows| <= maxRows
    ensures RunsTo(Empty(openFrom), BeforeCrash(x, y), Crashing(x, y), maxRows)
    ensures more == [Close([y'], y.start + 1), Flush(2, 2, true)]
    ensures RunsTo(Restarted(Crashing(x, y)), more, t, maxRows)
    ensures t.handed == [[x, y], [x], [y']] && Counted(t.handed) == [[x, y], [y']]
  {
    BeforeRuns(openFrom, x, y, maxRows);
    PairPacked(x, y', maxRows);
    more, t := AfterRuns(Restarted(Crashing(x, y)), x, y', maxRows);
    CountedTwo([x, y], [x], [y']);
  }

  lemma AfterRuns<C>(s: Node<C>, x: Closed<C>, y: Closed<C>, maxRows: nat) returns (more: seq<Step<C>>, t: Node<C>)
    requires s.pending == [x] && s.open == map[y.start := y.rows] && s.edge == y.start + 1
    requires Groups([x, y], maxRows) == [[x], [y]]
    ensures more == [Close([y], y.start + 1), Flush(2, 2, true)]
    ensures RunsTo(s, more, t, maxRows) && t.handed == s.handed + [[x], [y]]
  {
    var ws := s.pending + [y];
    assert ws == [x, y];
    ClosesOne(s.open, y);
    more, t := HandsOver(s, [y], y.start + 1, maxRows);
  }

  /** A repeated key in the middle adds nothing. */
  lemma CountedTwo<C>(g: Group<C>, h: Group<C>, k: Group<C>)
    requires KeyOf(g) == KeyOf(h) != KeyOf(k)
    ensures [g] + [h, k] == [g, h, k] && Counted([g, h, k]) == [g, k]
  {
    var a := [g];
    CountedAll(a);
    CountedRepeat(a, h, 0);
    CountedNext(a + [h], k);
    assert a + [h] + [k] == [g, h, k] && a + [k] == [g, k];
  }

  lemma CountedRepeat<C>(d: seq<Group<C>>, h: Group<C>, i: nat)
    requires Counted(d) == d && i < |d| && KeyOf(d[i]) == KeyOf(h)
    ensures Counted(d + [h]) == d
  {
    CountedNext(d, h);
  }
}
