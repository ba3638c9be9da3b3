/** The aggregator of internal/aggregate/aggregator.go: the object that counts events,
    closes windows, packs and writes batches, and survives a restart. Each method is
    proved to be the step of the pipeline it stands for. */
module Aggregator {
  import opened Wrappers
  import opened Ordering
  import opened Sequences
  import opened Sums
  import opened Counters
  import opened Folding
  import opened Windows
  import opened Packing
  import opened Outbox
  import opened Pipeline
  import opened PipelineLaws
  import opened PipelineOrder
  import opened WindowContents
  import Facts

  const MAX_ROWS := 5000
  const LIVE_LIMIT := 4 * MAX_ROWS

  /** The node's own pipeline: its counters, its order of rows, its limits. */
  function NodeConfig(outboxLimit: nat): Config<Counts> {
    Config(MERGE, EntryLess, LIVE_LIMIT, MAX_ROWS, outboxLimit)
  }

  /** What survives a restart: open windows row by row, and the windows waiting. */
  datatype Saved = Saved(openFrom: int, windows: map<int, Open<Counts>>, pending: seq<Closed<Counts>>)

  predicate StartLess(a: Closed<Counts>, b: Closed<Counts>) { a.start < b.start }

  // ---------------------------------------------------------------- closing in any order

  ghost function Closer<C>(cfg: Config<C>, windows: map<int, Open<C>>, facts: int -> int): int -> seq<Closed<C>>
    requires cfg.Valid()
  {
    (id: int) => CloseOne(cfg, id, WindowAt(windows, id), facts(id))
  }

  lemma {:induction false} CloseAllGathers<C>(cfg: Config<C>, windows: map<int, Open<C>>, ids: seq<int>,
                                              facts: int -> int)
    requires cfg.Valid()
    ensures CloseAll(cfg, windows, ids, facts) == Gather(ids, Closer(cfg, windows, facts))
  {
    if ids != [] {
      CloseAllGathers(cfg, windows, ids[..|ids| - 1], facts);
    }
  }

  /** The windows closed do not depend on the order they were closed in. */
  lemma CloseAllAnyOrder<C>(cfg: Config<C>, windows: map<int, Open<C>>, a: seq<int>, b: seq<int>, facts: int -> int)
    requires cfg.Valid() && multiset(a) == multiset(b)
    ensures multiset(CloseAll(cfg, windows, a, facts)) == multiset(CloseAll(cfg, windows, b, facts))
  {
    CloseAllGathers(cfg, windows, a, facts);
    CloseAllGathers(cfg, windows, b, facts);
    GatherAnyOrder(a, b, Closer(cfg, windows, facts));
  }

  lemma RisingAscends(ws: seq<Closed<Counts>>)
    requires Rising(ws)
    ensures Ascending(StartLess, ws) && StrictTotalOn(StartLess, Members(ws))
  {
  }

  /** Sorting what was appended in any order gives the windows by their starts. */
  lemma SortPending(ws: seq<Closed<Counts>>, sorted: seq<Closed<Counts>>)
    requires Rising(sorted) && multiset(ws) == multiset(sorted)
    ensures Sort(StartLess, ws) == sorted
  {
    RisingAscends(sorted);
    SortCanonical(StartLess, sorted, ws);
    SortAscending(StartLess, sorted, Members(sorted));
    SameMembers(sorted, Sort(StartLess, sorted));
    AscendingUnique(StartLess, Sort(StartLess, sorted), sorted, Members(sorted));
  }

  // ---------------------------------------------------------------- packing in a loop

  /** One window more: it goes into the last batch, or starts the next one. */
  function AddToBatches<C>(bs: seq<Batch<C>>, cw: Closed<C>, maxRows: nat): seq<Batch<C>> {
    var n := |bs| - 1;
    if bs == [] || |bs[n].rows| + |cw.rows| > maxRows || bs[n].facts != cw.facts
    then bs + [Batch(cw.start, cw.facts, cw.rows)]
    else bs[..n] + [bs[n].(rows := bs[n].rows + cw.rows)]
  }

  lemma BatchesNext<C>(gs: seq<Group<C>>, cw: Closed<C>, maxRows: nat)
    requires NonEmpty(gs)
    ensures Batches(Extend(gs, cw, maxRows)) == AddToBatches(Batches(gs), cw, maxRows)
  {
    var n := |gs| - 1;
    assert RowsIn([cw]) == cw.rows by {
      assert [cw][..0] == [];
    }
    if gs != [] {
      assert Batches(gs)[n] == BatchOf(gs[n]);
      PushInit(gs[n], cw);
      assert BatchOf(gs[n] + [cw]) == BatchOf(gs[n]).(rows := RowsIn(gs[n]) + cw.rows);
    }
  }

  lemma PackNext<C>(pending: seq<Closed<C>>, i: nat, maxRows: nat)
    requires i < |pending|
    ensures Batches(Groups(pending[..i + 1], maxRows))
            == AddToBatches(Batches(Groups(pending[..i], maxRows)), pending[i], maxRows)
  {
    var before := pending[..i];
    GroupsNonEmpty(before, maxRows);
    BatchesNext(Groups(before, maxRows), pending[i], maxRows);
    GroupsNext(before, pending[i], maxRows);
    TakeNext(pending, i);
  }

  method AddWindow<C(==)>(batches: seq<Batch<C>>, cw: Closed<C>, maxRows: nat) returns (r: seq<Batch<C>>)
    ensures r == AddToBatches(batches, cw, maxRows)
  {
    var cur := if batches == [] then None else Some(batches[|batches| - 1]);
    if cur == None || |cur.value.rows| + |cw.rows| > maxRows || cur.value.facts != cw.facts {
      r, cur := batches, Some(Batch(cw.start, cw.facts, []));
      assert [] + cw.rows == cw.rows;
    } else {
      r := batches[..|batches| - 1];
    }
    r := r + [cur.value.(rows := cur.value.rows + cw.rows)];
  }

  method Pack<C(==)>(pending: seq<Closed<C>>, maxRows: nat) returns (batches: seq<Batch<C>>)
    ensures batches == Batches(Groups(pending, maxRows))
  {
    batches := [];
    var i := 0;
    while i < |pending|
      invariant i <= |pending| && batches == Batches(Groups(pending[..i], maxRows))
    {
      PackNext(pending, i, maxRows);
      batches := AddWindow(batches, pending[i], maxRows);
      i := i + 1;
    }
    TakeAll(pending);
  }

  /** How many rows a list of batches holds. */
  function RowTotal<C>(bs: seq<Batch<C>>): nat {
    if bs == [] then 0 else RowTotal(bs[..|bs| - 1]) + |bs[|bs| - 1].rows|
  }

  lemma {:induction false} RowsInConcat<C>(a: Group<C>, b: Group<C>)
    ensures RowsIn(a + b) == RowsIn(a) + RowsIn(b)
  {
    if b == [] {
      AppendNothing(a, b);
    } else {
      var n := |b| - 1;
      RowsInConcat(a, b[..n]);
      AppendInit(a, b);
      Associate(RowsIn(a), RowsIn(b[..n]), b[n].rows);
    }
  }

  lemma {:induction false} RowTotalOfGroups<C>(gs: seq<Group<C>>)
    requires NonEmpty(gs)
    ensures RowTotal(Batches(gs)) == |RowsIn(Flatten(gs))|
  {
    if gs != [] {
      var n := |gs| - 1;
      RowTotalOfGroups(gs[..n]);
      assert Batches(gs)[..n] == Batches(gs[..n]);
      RowsInConcat(Flatten(gs[..n]), gs[n]);
    }
  }

  /** The rows of the batches stored are those of the windows to drop. */
  lemma StoredRows<C>(cfg: Config<C>, pending: seq<Closed<C>>, n: nat)
    requires n <= |Groups(pending, cfg.maxRows)|
    ensures DropRows(pending, RowTotal(Batches(Groups(pending, cfg.maxRows))[..n])) == Left(cfg, pending, n)
  {
    var gs := Groups(pending, cfg.maxRows);
    GroupsNonEmpty(pending, cfg.maxRows);
    RowTotalOfGroups(gs[..n]);
    assert Batches(gs)[..n] == Batches(gs[..n]);
  }

  lemma RowTotalNext<C>(bs: seq<Batch<C>>, i: nat)
    requires i < |bs|
    ensures RowTotal(bs[..i + 1]) == RowTotal(bs[..i]) + |bs[i].rows|
  {
    assert bs[..i + 1][..i] == bs[..i];
  }

  /** The write of the i-th batch, and those after it. */
  lemma PutAllAt<C>(files: Files<C>, bs: seq<Batch<C>>, i: nat, disk: int -> Disk, limit: nat)
    returns (rest: Written<C>)
    requires i < |bs|
    ensures var put, f := Put(files, bs[i], disk(bs[i].key), limit), PutAll(files, bs[i..], disk, limit);
            if put.1 then rest == PutAll(put.0, bs[i + 1..], disk, limit) && f.files == rest.files && f.n == rest.n + 1
            else put.0 == files && f == Written(files, [], 0)
  {
    assert bs[i..][1..] == bs[i + 1..];
    rest := Written(files, [], 0);
    if Put(files, bs[i], disk(bs[i].key), limit).1 {
      var _, later := PutAllNext(files, bs[i..], disk, limit);
      rest := later;
    } else {
      PutNone(files, bs[i..], disk, limit);
    }
  }

  /** Writes the batches in order until one is refused, and counts the rows written. */
  method WriteAll<C>(box: Box<C>, batches: seq<Batch<C>>, disk: int -> Disk) returns (done: nat)
    modifies box
    ensures var f := PutAll(old(box.files), batches, disk, box.limit);
            box.files == f.files && done == RowTotal(batches[..f.n])
  {
    done := 0;
    ghost var f := PutAll(box.files, batches, disk, box.limit);
    ghost var rest := f;
    assert batches[0..] == batches;
    for i := 0 to |batches|
      invariant done == RowTotal(batches[..i])
      invariant rest == PutAll(box.files, batches[i..], disk, box.limit)
      invariant f.files == rest.files && f.n == i + rest.n
    {
      ghost var later := PutAllAt(box.files, batches, i, disk, box.limit);
      var ok := box.Store(batches[i], disk(batches[i].key));
      if !ok {
        return;
      }
      rest := later;
      RowTotalNext(batches, i);
      done := done + |batches[i].rows|;
    }
    PutNone(box.files, batches[|batches|..], disk, box.limit);
  }

  class Node {
    const env: Env
    const outboxLimit: nat
    var windows: map<int, Window>
    var openFrom: int
    var pending: seq<Closed<Counts>>

    ghost var pipe: Pipe<Counts>  // what the fields mean

    /** The open windows are those of the pipeline. */
    ghost predicate Mirrored()
      reads this, windows.Values
    {
      && pipe.windows.Keys == windows.Keys
      && forall k | k in windows ::
           && windows[k].start == k && windows[k].liveLimit == LIVE_LIMIT && windows[k].maxRows == MAX_ROWS
           && pipe.windows[k] == Open(windows[k].rows, windows[k].overflow)
    }

    ghost predicate Valid()
      reads this, windows.Values
    {
      && Mirrored()
      && pipe.openFrom == openFrom && pipe.pending == pending
      && PipeOrdered(NodeConfig(outboxLimit), pipe)
    }

    constructor (env: Env, outboxLimit: nat)
      ensures Valid() && this.env == env && this.outboxLimit == outboxLimit
      ensures pipe == Pipe(map[], 0, [])
    {
      this.env, this.outboxLimit := env, outboxLimit;
      windows, openFrom, pending := map[], 0, [];
      pipe := Pipe(map[], 0, []);
    }

    /** Counts one event into its window, by the moment the request finished. */
    method Add(r: Facts.Request, now: int)
      requires Valid()
      modifies this, windows.Values
      ensures Valid() && forall w | w in windows.Values :: w in old(windows.Values) || fresh(w)
      ensures pipe == AddEvent(NodeConfig(outboxLimit), old(pipe), FinishedAt(r, now), KeyOf(env, r), One(env, r))
      ensures forall k | Aligned(old(openFrom))
                         && LandsIn(old(openFrom), if r.time == 0 then now else r.time + r.duration, k) ::
                pipe == Counted(NodeConfig(outboxLimit), old(pipe), k, KeyOf(env, r), One(env, r))
    {
      EventLandsOnce(NodeConfig(outboxLimit), pipe, r, now, KeyOf(env, r), One(env, r));
      var start := Truncate(FinishedAt(r, now));
      if start < openFrom {
        start := openFrom;
      }
      EventOrdered(NodeConfig(outboxLimit), pipe, FinishedAt(r, now), KeyOf(env, r), One(env, r));
      CountAt(start, KeyOf(env, r), r);
    }

    method CountAt(start: int, k: Key, r: Facts.Request)
      requires Valid() && openFrom <= start
      requires PipeOrdered(NodeConfig(outboxLimit), Counted(NodeConfig(outboxLimit), pipe, start, k, One(env, r)))
      modifies this, windows.Values
      ensures Valid() && forall w | w in windows.Values :: w in old(windows.Values) || fresh(w)
      ensures pipe == Counted(NodeConfig(outboxLimit), old(pipe), start, k, One(env, r))
    {
      ghost var before := pipe;
      if start !in windows {
        Reopen(start, Open(map[], None));
      }
      OpenedCounts(NodeConfig(outboxLimit), before, pipe, start, k, One(env, r));
      Bump(start, k, r);
    }

    method Bump(start: int, k: Key, r: Facts.Request)
      requires Mirrored() && start in windows
      modifies this`pipe, windows[start]
      ensures Mirrored()
      ensures pipe == Counted(NodeConfig(outboxLimit), old(pipe), start, k, One(env, r))
    {
      ghost var next := Counted(NodeConfig(outboxLimit), pipe, start, k, One(env, r));
      var w := windows[start];
      w.Add(env, k, r);
      pipe := next;
    }

    /** Closes every window that ended more than the grace ago. */
    method CloseWindows(now: int, facts: int -> int)
      requires Valid()
      modifies this
      ensures Valid() && windows.Values <= old(windows.Values)
      ensures pipe == Pipeline.CloseWindows(NodeConfig(outboxLimit), old(pipe), now, facts)
    {
      ghost var next := Pipeline.CloseWindows(NodeConfig(outboxLimit), pipe, now, facts);
      TickOrdered(NodeConfig(outboxLimit), pipe, now, facts);
      var edge := Truncate(now - GRACE);
      if edge < openFrom {
        edge := openFrom;
      }
      var ids := Ended(edge);
      var closed := CloseListed(ids, facts);
      SortedTick(NodeConfig(outboxLimit), pipe, ids, now, facts);
      ListingMembers(ids, Ending(pipe.windows, edge));
      Settle(edge, ids, if |ids| > 0 then Sort(StartLess, pending + closed) else pending, next);
    }

    /** The open windows that start before the edge, in whatever order. */
    method Ended(edge: int) returns (ids: seq<int>)
      requires pipe.windows.Keys == windows.Keys
      ensures multiset(ids) == multiset(Ending(pipe.windows, edge))
    {
      var ending := set k | k in windows && k < edge;
      assert ending == Ending(pipe.windows, edge);
      ids := Collect(ending);
    }

    /** Forgets the windows closed and keeps what waits for its batch. */
    method Settle(edge: int, ids: seq<int>, waiting: seq<Closed<Counts>>, ghost next: Pipe<Counts>)
      requires Valid() && PipeOrdered(NodeConfig(outboxLimit), next)
      requires next == Pipe(pipe.windows - Members(ids), edge, waiting)
      modifies this
      ensures Valid() && pipe == next && windows.Values <= old(windows.Values)
    {
      openFrom, pending := edge, waiting;
      windows := windows - (set k | k in ids);
      pipe := next;
    }

    /** Packs what is pending, writes the batches, and drops exactly the windows whose rows
        made it to disk. */
    method Flush(box: Box<Counts>, disk: int -> Disk) returns (saved: Option<Saved>)
      requires Valid() && box.limit == outboxLimit
      modifies this, box
      ensures Valid() && windows == old(windows)
      ensures var f := FlushTo(NodeConfig(outboxLimit), old(pipe), old(box.files), disk);
              && box.files == f.files
              && pipe == old(pipe).(pending := Left(NodeConfig(outboxLimit), old(pipe).pending, f.n))
      ensures saved == if old(pending) == [] then None else Some(Saved(openFrom, pipe.windows, pending))
    {
      ghost var cfg := NodeConfig(outboxLimit);
      ghost var f := FlushTo(cfg, pipe, box.files, disk);
      if pending == [] {
        assert pending == Left(cfg, pending, f.n);
        return None;
      }
      var batches := Pack(pending, MAX_ROWS);
      var done := WriteAll(box, batches, disk);
      StoredRows(cfg, pending, f.n);
      DropDone(done, f.n);
      var state := Save();
      saved := Some(state);
    }

    /** Counts the stored rows down over the pending windows. */
    method DropDone(rows: nat, ghost n: nat)
      requires Valid() && n <= |Groups(pending, MAX_ROWS)|
      requires DropRows(pending, rows) == Left(NodeConfig(outboxLimit), pending, n)
      modifies this
      ensures Valid() && windows == old(windows)
      ensures pipe == old(pipe).(pending := Left(NodeConfig(outboxLimit), old(pipe).pending, n))
    {
      ghost var cfg := NodeConfig(outboxLimit);
      ghost var left := DropRows(pending, rows);
      var done, waiting := rows as int, pending;
      while done > 0 && |waiting| > 0
        invariant DropRows(waiting, done) == left
        decreases |waiting|
      {
        done := done - |waiting[0].rows|;
        waiting := waiting[1..];
      }
      LeftIsRest(cfg, pending, n);
      DropOrdered(cfg, pipe, |Flatten(Groups(pending, MAX_ROWS)[..n])|);
      pipe := pipe.(pending := waiting);
      pending := waiting;
    }

    /** What a save writes: everything the fields mean. */
    method Save() returns (saved: Saved)
      requires Valid()
      ensures saved == Saved(openFrom, pipe.windows, pending)
    {
      var kept := map k | k in windows :: Open(windows[k].rows, windows[k].overflow);
      assert kept.Keys == pipe.windows.Keys;
      assert forall k | k in kept :: kept[k] == pipe.windows[k];
      saved := Saved(openFrom, kept, pending);
    }

    /** Carries on from a saved state. */
    constructor Restore(env: Env, outboxLimit: nat, saved: Saved)
      requires PipeOrdered(NodeConfig(outboxLimit), Pipe(saved.windows, saved.openFrom, saved.pending))
      ensures Valid() && this.env == env && this.outboxLimit == outboxLimit
      ensures pipe == Pipe(saved.windows, saved.openFrom, saved.pending)
    {
      this.env, this.outboxLimit := env, outboxLimit;
      openFrom, pending := saved.openFrom, saved.pending;
      windows := map[];
      pipe := Pipe(map[], saved.openFrom, saved.pending);
      new;
      ReopenAll(saved.windows);
    }

    method ReopenAll(kept: map<int, Open<Counts>>)
      requires Mirrored() && pipe.windows == map[]
      modifies this`windows, this`pipe
      ensures Mirrored() && forall w | w in windows.Values :: w in old(windows.Values) || fresh(w)
      ensures pipe == old(pipe).(windows := kept)
    {
      var ids := Collect(kept.Keys);
      ghost var base := pipe;
      NoneReopened(base.windows, kept, ids[..0]);
      for i := 0 to |ids|
        invariant Mirrored() && forall w | w in windows.Values :: w in old(windows.Values) || fresh(w)
        invariant pipe == base.(windows := pipe.windows)
        invariant Reopened(pipe.windows, kept, ids[..i])
      {
        assert ids[i] in Members(ids);
        ReopenedNext(pipe.windows, kept, ids, i);
        Reopen(ids[i], kept[ids[i]]);
      }
      TakeAll(ids);
      AllReopened(pipe.windows, kept, ids);
    }

    method Reopen(k: int, kept: Open<Counts>)
      requires Mirrored()
      modifies this`windows, this`pipe
      ensures Mirrored() && forall w | w in windows.Values :: w in old(windows.Values) || fresh(w)
      ensures pipe == old(pipe).(windows := old(pipe).windows[k := kept])
    {
      var w := new Window(k, LIVE_LIMIT, MAX_ROWS);
      w.rows, w.overflow := kept.rows, kept.overflow;
      windows := windows[k := w];
      pipe := pipe.(windows := pipe.windows[k := kept]);
    }

    /** The rows of the listed windows, those with none left out. */
    method CloseListed(ids: seq<int>, facts: int -> int) returns (closed: seq<Closed<Counts>>)
      requires Mirrored() && multiset(ids) <= multiset(windows.Keys)
      ensures closed == CloseAll(NodeConfig(outboxLimit), pipe.windows, ids, facts)
    {
      closed := [];
      var i := 0;
      while i < |ids|
        invariant i <= |ids| && closed == CloseAll(NodeConfig(outboxLimit), pipe.windows, ids[..i], facts)
      {
        var id := ids[i];
        assert id in multiset(ids);
        assert id in windows;
        var w := windows[id];
        var rows := w.Close();
        CloseAllNext(NodeConfig(outboxLimit), pipe.windows, ids, i, facts);
        if |rows| > 0 {
          closed := closed + [Closed(id, facts(id), rows)];
        }
        i := i + 1;
      }
      TakeAll(ids);
    }
  }

  lemma CloseAllNext<C>(cfg: Config<C>, windows: map<int, Open<C>>, ids: seq<int>, i: nat, facts: int -> int)
    requires cfg.Valid() && i < |ids|
    ensures CloseAll(cfg, windows, ids[..i + 1], facts)
            == CloseAll(cfg, windows, ids[..i], facts) + CloseOne(cfg, ids[i], WindowAt(windows, ids[i]), facts(ids[i]))
  {
    assert ids[..i + 1][..i] == ids[..i];
  }

  /** Sorting the pending windows after closing in any order is closing in order. */
  lemma SortedTick(cfg: Config<Counts>, s: Pipe<Counts>, ids: seq<int>, now: int, facts: int -> int)
    requires cfg.Valid() && PipeOrdered(cfg, s)
    requires multiset(ids) == multiset(Ending(s.windows, Later(s.openFrom, now)))
    ensures Sort(StartLess, s.pending + CloseAll(cfg, s.windows, ids, facts))
            == Pipeline.CloseWindows(cfg, s, now, facts).pending
    ensures ids == [] ==> s.pending == Pipeline.CloseWindows(cfg, s, now, facts).pending
  {
    var ending := Ending(s.windows, Later(s.openFrom, now));
    var starts := InOrder(Earlier, ending);
    TickOrdered(cfg, s, now, facts);
    CloseAllAnyOrder(cfg, s.windows, ids, starts, facts);
    SortPending(s.pending + CloseAll(cfg, s.windows, ids, facts), s.pending + CloseAll(cfg, s.windows, starts, facts));
    SameMembers(ids, starts);
  }

  // ---------------------------------------------------------------- one step each

  /** An event without a time is counted by the clock. */
  function FinishedAt(r: Facts.Request, now: int): int {
    if r.time == 0 then now else r.time + r.duration
  }

  function Counted<C>(cfg: Config<C>, s: Pipe<C>, start: int, k: Key, one: C): Pipe<C> {
    s.(windows := s.windows[start := Grown(cfg, WindowAt(s.windows, start), k, one)])
  }

  /** The event grows the window it belongs to, by the moment the request finished. */
  lemma EventLandsOnce<C>(cfg: Config<C>, s: Pipe<C>, r: Facts.Request, now: int, key: Key, one: C)
    ensures forall k | Aligned(s.openFrom)
                       && LandsIn(s.openFrom, if r.time == 0 then now else r.time + r.duration, k) ::
              AddEvent(cfg, s, FinishedAt(r, now), key, one) == Counted(cfg, s, k, key, one)
  {
    forall k | Aligned(s.openFrom) && LandsIn(s.openFrom, FinishedAt(r, now), k)
      ensures AddEvent(cfg, s, FinishedAt(r, now), key, one) == Counted(cfg, s, k, key, one)
    {
      EventLands(cfg, s, FinishedAt(r, now), key, one, k);
    }
  }

  /** Opening the window first counts as counting into a window not yet there. */
  lemma OpenedCounts<C>(cfg: Config<C>, s: Pipe<C>, opened_: Pipe<C>, start: int, k: Key, one: C)
    requires opened_ == if start in s.windows then s else s.(windows := s.windows[start := Open(map[], None)])
    ensures Counted(cfg, opened_, start, k, one) == Counted(cfg, s, start, k, one)
  {
    var grown := Grown(cfg, WindowAt(s.windows, start), k, one);
    assert opened_.windows[start := grown] == s.windows[start := grown];
  }

  /** These windows, and no others, are there again. */
  ghost predicate Reopened<V>(got: map<int, V>, kept: map<int, V>, ids: seq<int>) {
    got.Keys == Members(ids) && forall k | k in got :: k in kept && got[k] == kept[k]
  }

  lemma NoneReopened<V>(got: map<int, V>, kept: map<int, V>, ids: seq<int>)
    requires got == map[] && ids == []
    ensures Reopened(got, kept, ids)
  {
    assert got.Keys == {} == Members(ids);
  }

  lemma ReopenedNext<V>(got: map<int, V>, kept: map<int, V>, ids: seq<int>, i: nat)
    requires i < |ids| && ids[i] in kept && Reopened(got, kept, ids[..i])
    ensures Reopened(got[ids[i] := kept[ids[i]]], kept, ids[..i + 1])
  {
    MembersNext(ids, i);
  }

  lemma AllReopened<V>(got: map<int, V>, kept: map<int, V>, ids: seq<int>)
    requires Reopened(got, kept, ids) && Members(ids) == kept.Keys
    ensures got == kept
  {
    assert got.Keys == kept.Keys;
    forall k | k in kept
      ensures k in got && got[k] == kept[k]
    {
      assert k in kept.Keys;
    }
  }
}
