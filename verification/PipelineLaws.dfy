/** What every run of the aggregate pipeline keeps: conservation of counts, windows and
    keys in order, batches within the limit. */
module PipelineLaws {
  import opened Wrappers
  import opened Ordering
  import opened Sequences
  import opened Sums
  import opened Counters
  import opened Folding
  import opened Packing
  import opened Outbox
  import opened Pipeline

  // ---------------------------------------------------------------- sums by place

  ghost function OpenCounts<C(!new)>(m: Monoid<C>): Open<C> -> C {
    (w: Open<C>) => Total(m, w.rows, w.overflow)
  }

  ghost function ClosedCounts<C>(m: Monoid<C>): Closed<C> -> C {
    (w: Closed<C>) => SeqSum(m, w.rows, RowCounts)
  }

  ghost function BatchCounts<C>(m: Monoid<C>): Batch<C> -> C {
    (b: Batch<C>) => SeqSum(m, b.rows, RowCounts)
  }

  ghost function OpenSum<C(!new)>(m: Monoid<C>, windows: map<int, Open<C>>): C {
    MapSum(m, windows, OpenCounts(m))
  }

  ghost function PendingSum<C>(m: Monoid<C>, pending: seq<Closed<C>>): C {
    SeqSum(m, pending, ClosedCounts(m))
  }

  ghost function FileSum<C(!new)>(m: Monoid<C>, files: Files<C>): C {
    MapSum(m, files, BatchCounts(m))
  }

  ghost function BatchSum<C>(m: Monoid<C>, bs: seq<Batch<C>>): C {
    SeqSum(m, bs, BatchCounts(m))
  }

  /** What waits in the node itself. */
  ghost function Waiting<C(!new)>(m: Monoid<C>, s: Pipe<C>): C {
    m.plus(OpenSum(m, s.windows), PendingSum(m, s.pending))
  }

  /** What left it: on disk, accepted, dropped or trimmed. */
  ghost function Sent<C(!new)>(m: Monoid<C>, w: World<C>): C {
    m.plus(FileSum(m, w.files), m.plus(m.plus(BatchSum(m, w.accepted), BatchSum(m, w.dropped)), BatchSum(m, w.trimmed)))
  }

  /** All the counts a node is accountable for, place by place. */
  ghost function Held<C(!new)>(m: Monoid<C>, w: World<C>): C {
    m.plus(Waiting(m, w.pipe), Sent(m, w))
  }

  // ---------------------------------------------------------------- counting and closing

  lemma AddEventSum<C(!new)>(cfg: Config<C>, s: Pipe<C>, at: int, k: Key, one: C)
    requires Lawful(cfg.m)
    ensures OpenSum(cfg.m, AddEvent(cfg, s, at, k, one).windows) == cfg.m.plus(OpenSum(cfg.m, s.windows), one)
  {
    var m, start := cfg.m, StartFor(s.openFrom, at);
    var w := WindowAt(s.windows, start);
    var grown, rest := Grown(cfg, w, k, one), s.windows - {start};
    AddConserves(m, cfg.liveLimit, w.rows, w.overflow, k, one);
    SetWindow(m, s.windows, start, w);
    SetWindow(m, s.windows, start, grown);
    Laws(m, MapSum(m, rest, OpenCounts(m)), OpenCounts(m)(w), one);
    if start !in s.windows {
      assert OpenCounts(m)(w) == m.zero by { Laws(m, m.zero, m.zero, m.zero); }
      Laws(m, OpenSum(m, s.windows), m.zero, m.zero);
      assert rest == s.windows;
    } else {
      assert s.windows[start := w] == s.windows;
    }
  }

  lemma AddEventWaits<C(!new)>(cfg: Config<C>, s: Pipe<C>, at: int, k: Key, one: C)
    requires Lawful(cfg.m)
    ensures Waiting(cfg.m, AddEvent(cfg, s, at, k, one)) == cfg.m.plus(Waiting(cfg.m, s), one)
  {
    AddEventSum(cfg, s, at, k, one);
    Swap(cfg.m, OpenSum(cfg.m, s.windows), one, PendingSum(cfg.m, s.pending));
  }

  lemma SetWindow<C(!new)>(m: Monoid<C>, windows: map<int, Open<C>>, start: int, w: Open<C>)
    requires Lawful(m)
    ensures OpenSum(m, windows[start := w]) == m.plus(OpenSum(m, windows - {start}), OpenCounts(m)(w))
  {
    var rest := windows - {start};
    assert windows[start := w] == rest[start := w];
    MapSumAdd(m, rest, OpenCounts(m), start, w);
  }

  /** Taking some keys out of a map takes their share out of its sum. */
  lemma {:induction false} MapSumTake<V(!new), C(!new)>(m: Monoid<C>, f: map<int, V>, of: V -> C, ids: seq<int>,
                                        vs: seq<V>)
    requires Lawful(m) && Distinct(ids) && |vs| == |ids|
    requires forall i | 0 <= i < |ids| :: ids[i] in f && f[ids[i]] == vs[i]
    ensures MapSum(m, f, of) == m.plus(MapSum(m, f - Members(ids), of), SeqSum(m, vs, of))
  {
    if ids == [] {
      assert f - Members(ids) == f;
      Laws(m, MapSum(m, f, of), m.zero, m.zero);
    } else {
      var n := |ids| - 1;
      MapSumTake(m, f, of, ids[..n], vs[..n]);
      var rest := f - Members(ids[..n]);
      MembersNext(ids, n);
      assert ids[..n + 1] == ids;
      assert ids[n] in rest;
      assert rest - {ids[n]} == f - Members(ids);
      MapSumRemove(m, rest, of, ids[n]);
      Swap(m, MapSum(m, f - Members(ids), of), of(vs[n]), SeqSum(m, vs[..n], of));
    }
  }

  lemma CloseOneSum<C(!new)>(cfg: Config<C>, start: int, w: Open<C>, facts: int)
    requires Lawful(cfg.m) && cfg.Valid()
    ensures PendingSum(cfg.m, CloseOne(cfg, start, w, facts)) == OpenCounts(cfg.m)(w)
  {
    CloseConserves(cfg.m, cfg.lt, start, w.rows, w.overflow, cfg.maxRows);
    var rows := CloseOf(cfg.m, cfg.lt, start, w.rows, w.overflow, cfg.maxRows);
    if rows != [] {
      SeqSumOne(cfg.m, Closed(start, facts, rows), ClosedCounts(cfg.m));
    }
  }

  ghost function Picked<C>(windows: map<int, Open<C>>, starts: seq<int>): (vs: seq<Open<C>>)
    ensures |vs| == |starts|
  {
    seq(|starts|, i requires 0 <= i < |starts| => WindowAt(windows, starts[i]))
  }

  lemma PickedInit<C>(windows: map<int, Open<C>>, starts: seq<int>)
    requires starts != []
    ensures Picked(windows, starts)[..|starts| - 1] == Picked(windows, starts[..|starts| - 1])
  {
  }

  lemma {:induction false} CloseAllSum<C(!new)>(cfg: Config<C>, windows: map<int, Open<C>>, starts: seq<int>,
                                         facts: int -> int)
    requires Lawful(cfg.m) && cfg.Valid()
    ensures PendingSum(cfg.m, CloseAll(cfg, windows, starts, facts))
            == SeqSum(cfg.m, Picked(windows, starts), OpenCounts(cfg.m))
  {
    if starts != [] {
      var n := |starts| - 1;
      CloseAllSum(cfg, windows, starts[..n], facts);
      CloseOneSum(cfg, starts[n], WindowAt(windows, starts[n]), facts(starts[n]));
      SeqSumConcat(cfg.m, CloseAll(cfg, windows, starts[..n], facts),
                   CloseOne(cfg, starts[n], WindowAt(windows, starts[n]), facts(starts[n])), ClosedCounts(cfg.m));
      PickedInit(windows, starts);
    }
  }

  lemma CloseWindowsSum<C(!new)>(cfg: Config<C>, s: Pipe<C>, now: int, facts: int -> int)
    requires Lawful(cfg.m) && cfg.Valid()
    ensures Waiting(cfg.m, CloseWindows(cfg, s, now, facts)) == Waiting(cfg.m, s)
  {
    var ending := Ending(s.windows, Later(s.openFrom, now));
    var starts := InOrder(Earlier, ending);
    var closed := CloseAll(cfg, s.windows, starts, facts);
    ListingMembers(starts, ending);
    ListingDistinct(starts, ending);
    ClosedSum(cfg, s.windows, starts, facts, closed);
    SeqSumConcat(cfg.m, s.pending, closed, ClosedCounts(cfg.m));
    MoveClosed(cfg.m, OpenSum(cfg.m, s.windows - ending), PendingSum(cfg.m, closed), PendingSum(cfg.m, s.pending));
  }

  lemma ClosedSum<C(!new)>(cfg: Config<C>, windows: map<int, Open<C>>, starts: seq<int>, facts: int -> int,
                    closed: seq<Closed<C>>)
    requires Lawful(cfg.m) && cfg.Valid() && Distinct(starts) && Members(starts) <= windows.Keys
    requires closed == CloseAll(cfg, windows, starts, facts)
    ensures OpenSum(cfg.m, windows) == cfg.m.plus(OpenSum(cfg.m, windows - Members(starts)), PendingSum(cfg.m, closed))
  {
    forall i | 0 <= i < |starts|
      ensures starts[i] in windows
    {
      assert starts[i] in Members(starts);
    }
    MapSumTake(cfg.m, windows, OpenCounts(cfg.m), starts, Picked(windows, starts));
    CloseAllSum(cfg, windows, starts, facts);
  }

  /** (o + c) + p == o + (p + c) */
  lemma MoveClosed<C(!new)>(m: Monoid<C>, o: C, c: C, p: C)
    requires Lawful(m)
    ensures m.plus(m.plus(o, c), p) == m.plus(o, m.plus(p, c))
  {
    Laws(m, o, c, p);
    Laws(m, c, p, m.zero);
  }

  // ---------------------------------------------------------------- packing and writing

  lemma {:induction false} RowsInSum<C(!new)>(m: Monoid<C>, g: Group<C>)
    requires Lawful(m)
    ensures SeqSum(m, RowsIn(g), RowCounts) == PendingSum(m, g)
  {
    if g != [] {
      var n := |g| - 1;
      RowsInSum(m, g[..n]);
      SeqSumConcat(m, RowsIn(g[..n]), g[n].rows, RowCounts);
    }
  }

  lemma {:induction false} BatchesSum<C(!new)>(m: Monoid<C>, gs: seq<Group<C>>)
    requires Lawful(m) && NonEmpty(gs)
    ensures BatchSum(m, Batches(gs)) == PendingSum(m, Flatten(gs))
  {
    if gs != [] {
      var n := |gs| - 1;
      BatchesSum(m, gs[..n]);
      RowsInSum(m, gs[n]);
      assert Batches(gs)[..n] == Batches(gs[..n]);
      SeqSumConcat(m, Flatten(gs[..n]), gs[n], ClosedCounts(m));
    }
  }

  lemma TrimSum<C(!new)>(m: Monoid<C>, stored: Files<C>, limit: nat, trimmed: seq<Batch<C>>)
    requires Lawful(m)
    requires var ids := Keys(stored)[..Excess(|Keys(stored)|, limit)];
             |trimmed| == |ids| && forall i | 0 <= i < |ids| && ids[i] in stored :: trimmed[i] == stored[ids[i]]
    ensures FileSum(m, stored) == m.plus(FileSum(m, stored - Oldest(stored, limit)), BatchSum(m, trimmed))
  {
    var keys := Keys(stored);
    ListingMembers(keys, stored.Keys);
    ListingDistinct(keys, stored.Keys);
    var ids := keys[..Excess(|keys|, limit)];
    forall i | 0 <= i < |ids|
      ensures ids[i] in stored
    {
      assert keys[i] in Members(keys);
    }
    MapSumTake(m, stored, BatchCounts(m), ids, trimmed);
  }

  lemma PutSum<C(!new)>(m: Monoid<C>, files: Files<C>, b: Batch<C>, limit: nat)
    requires Lawful(m) && b.key !in files
    ensures m.plus(FileSum(m, files), BatchCounts(m)(b))
            == m.plus(FileSum(m, Put(files, b, Fine, limit).0), BatchSum(m, Trimmed(files, b, limit)))
  {
    MapSumAdd(m, files, BatchCounts(m), b.key, b);
    TrimSum(m, files[b.key := b], limit, Trimmed(files, b, limit));
  }

  /** None of these batches is on disk yet. */
  ghost predicate Unseen<C>(files: Files<C>, bs: seq<Batch<C>>) {
    forall i | 0 <= i < |bs| :: bs[i].key !in files
  }

  lemma PutKeys<C>(files: Files<C>, b: Batch<C>, disk: Disk, limit: nat)
    ensures Put(files, b, disk, limit).0.Keys <= files.Keys + {b.key}
  {
  }

  lemma PutKeepsUnseen<C>(files: Files<C>, bs: seq<Batch<C>>, stored: Files<C>)
    requires bs != [] && Unseen(files, bs) && RisingKeys(KeysOf(bs))
    requires stored.Keys <= files.Keys + {bs[0].key}
    ensures Unseen(stored, bs[1..]) && RisingKeys(KeysOf(bs[1..]))
  {
    var ks, rest := KeysOf(bs), bs[1..];
    assert forall i | 0 <= i < |rest| :: KeysOf(rest)[i] == ks[i + 1];
    forall i | 0 <= i < |rest|
      ensures rest[i].key !in stored
    {
      assert bs[i + 1].key !in files && ks[0] < ks[i + 1];
    }
  }

  /** The first write, and what the others do after it. */
  lemma PutAllNext<C>(files: Files<C>, bs: seq<Batch<C>>, disk: int -> Disk, limit: nat)
    returns (stored: Files<C>, rest: Written<C>)
    requires bs != [] && Put(files, bs[0], disk(bs[0].key), limit).1
    ensures stored == Put(files, bs[0], disk(bs[0].key), limit).0 && rest == PutAll(stored, bs[1..], disk, limit)
    ensures PutAll(files, bs, disk, limit)
            == Written(rest.files, Trimmed(files, bs[0], limit) + rest.trimmed, rest.n + 1)
  {
    stored := Put(files, bs[0], disk(bs[0].key), limit).0;
    rest := PutAll(stored, bs[1..], disk, limit);
  }

  lemma PutNone<C>(files: Files<C>, bs: seq<Batch<C>>, disk: int -> Disk, limit: nat)
    requires bs == [] || !Put(files, bs[0], disk(bs[0].key), limit).1
    ensures PutAll(files, bs, disk, limit) == Written(files, [], 0)
  {
  }

  /** Writing moves the batches written to the outbox, less what is trimmed away. */
  ghost predicate PutSums<C(!new)>(m: Monoid<C>, files: Files<C>, bs: seq<Batch<C>>, w: Written<C>) {
    w.n <= |bs|
    && m.plus(FileSum(m, files), BatchSum(m, bs[..w.n])) == m.plus(FileSum(m, w.files), BatchSum(m, w.trimmed))
  }

  lemma NothingPut<C(!new)>(m: Monoid<C>, files: Files<C>, bs: seq<Batch<C>>)
    ensures PutSums(m, files, bs, Written(files, [], 0))
  {
    assert bs[..0] == [];
  }

  lemma {:induction false} PutAllSum<C(!new)>(m: Monoid<C>, files: Files<C>, bs: seq<Batch<C>>, disk: int -> Disk,
                                       limit: nat, w: Written<C>)
    requires Lawful(m) && Unseen(files, bs) && RisingKeys(KeysOf(bs))
    requires w == PutAll(files, bs, disk, limit)
    ensures PutSums(m, files, bs, w)
    decreases |bs|
  {
    if bs == [] || !Put(files, bs[0], disk(bs[0].key), limit).1 {
      PutNone(files, bs, disk, limit);
      NothingPut(m, files, bs);
    } else {
      PutFirst(m, files, bs, disk(bs[0].key), limit);
      var stored, rest := PutAllNext(files, bs, disk, limit);
      PutAllSum(m, stored, bs[1..], disk, limit, rest);
      PutStepSum(m, files, stored, bs, rest, Trimmed(files, bs[0], limit));
    }
  }

  lemma PutFirst<C(!new)>(m: Monoid<C>, files: Files<C>, bs: seq<Batch<C>>, disk: Disk, limit: nat)
    requires Lawful(m) && bs != [] && Unseen(files, bs) && RisingKeys(KeysOf(bs))
    requires Put(files, bs[0], disk, limit).1
    ensures var stored := Put(files, bs[0], disk, limit).0;
            && Unseen(stored, bs[1..]) && RisingKeys(KeysOf(bs[1..]))
            && m.plus(FileSum(m, files), BatchCounts(m)(bs[0]))
               == m.plus(FileSum(m, stored), BatchSum(m, Trimmed(files, bs[0], limit)))
  {
    assert disk == Fine;
    PutSum(m, files, bs[0], limit);
    PutKeys(files, bs[0], disk, limit);
    PutKeepsUnseen(files, bs, Put(files, bs[0], disk, limit).0);
  }

  lemma PutStepSum<C(!new)>(m: Monoid<C>, files: Files<C>, stored: Files<C>, bs: seq<Batch<C>>, w: Written<C>,
                     trimmed: seq<Batch<C>>)
    requires Lawful(m) && bs != [] && PutSums(m, stored, bs[1..], w)
    requires m.plus(FileSum(m, files), BatchCounts(m)(bs[0])) == m.plus(FileSum(m, stored), BatchSum(m, trimmed))
    ensures PutSums(m, files, bs, Written(w.files, trimmed + w.trimmed, w.n + 1))
  {
    var f, b, t := FileSum(m, files), BatchCounts(m)(bs[0]), BatchSum(m, trimmed);
    var f1, rest := FileSum(m, stored), BatchSum(m, bs[1..][..w.n]);
    var f2, t2 := FileSum(m, w.files), BatchSum(m, w.trimmed);
    assert bs[..w.n + 1] == [bs[0]] + bs[1..][..w.n];
    SeqSumConcat(m, [bs[0]], bs[1..][..w.n], BatchCounts(m));
    SeqSumOne(m, bs[0], BatchCounts(m));
    SeqSumConcat(m, trimmed, w.trimmed, BatchCounts(m));
    Laws(m, f, b, rest);   // f + (b + rest) == (f1 + t) + rest
    Swap(m, f1, t, rest);  //                == (f1 + rest) + t == (f2 + t2) + t
    Laws(m, f2, t2, t);
    Laws(m, t2, t, t);
  }

  // ---------------------------------------------------------------- dropping what was stored

  ghost predicate Filled<C>(ws: seq<Closed<C>>, maxRows: nat) {
    forall i | 0 <= i < |ws| :: 0 < |ws[i].rows| <= maxRows
  }

  lemma {:induction false} RowsInFirst<C>(g: Group<C>)
    requires g != []
    ensures |RowsIn(g)| == |g[0].rows| + |RowsIn(g[1..])|
  {
    if |g| == 1 {
      assert g[..0] == [] && g[1..] == [];
    } else {
      var n := |g| - 1;
      RowsInFirst(g[..n]);
      assert g[1..][..n - 1] == g[..n][1..];
    }
  }

  /** Counting rows down drops exactly the windows whose rows were stored. */
  lemma {:induction false} DropStored<C>(pending: seq<Closed<C>>, cut: nat, maxRows: nat)
    requires Filled(pending, maxRows) && cut <= |pending|
    ensures DropRows(pending, |RowsIn(pending[..cut])|) == pending[cut..]
    decreases cut
  {
    if cut == 0 {
      assert pending[..0] == [];
    } else {
      RowsInFirst(pending[..cut]);
      assert pending[..cut][1..] == pending[1..][..cut - 1];
      DropStored(pending[1..], cut - 1, maxRows);
      assert pending[1..][cut - 1..] == pending[cut..];
    }
  }

  /** What stays pending is what the batches not stored hold. */
  lemma LeftIsRest<C>(cfg: Config<C>, pending: seq<Closed<C>>, n: nat)
    requires Filled(pending, cfg.maxRows) && n <= |Groups(pending, cfg.maxRows)|
    ensures var gs := Groups(pending, cfg.maxRows);
            var cut := |Flatten(gs[..n])|;
            && cut <= |pending| && Flatten(gs[..n]) == pending[..cut]
            && Left(cfg, pending, n) == pending[cut..]
  {
    var gs := Groups(pending, cfg.maxRows);
    GroupsFlatten(pending, cfg.maxRows);
    FlattenSplit(gs, n);
    DropStored(pending, |Flatten(gs[..n])|, cfg.maxRows);
  }

  lemma {:induction false} FlattenSplit<C>(gs: seq<Group<C>>, n: nat)
    requires n <= |gs|
    ensures Flatten(gs[..n]) <= Flatten(gs)
    decreases |gs| - n
  {
    if n < |gs| {
      FlattenSplit(gs, n + 1);
      assert gs[..n + 1][..n] == gs[..n];
    } else {
      assert gs[..n] == gs;
    }
  }

  // ---------------------------------------------------------------- sending

  /** Every place a batch can move to grows by what it counts. */
  lemma AcceptSum<C(!new)>(m: Monoid<C>, w: World<C>, b: Batch<C>)
    requires Lawful(m)
    ensures Held(m, w.(accepted := w.accepted + [b])) == m.plus(Held(m, w), BatchCounts(m)(b))
  {
    var f, a, d, t := FileSum(m, w.files), BatchSum(m, w.accepted), BatchSum(m, w.dropped), BatchSum(m, w.trimmed);
    var x := BatchCounts(m)(b);
    PushSum(m, w.accepted, b);
    Swap(m, a, x, d);
    Raise(m, Waiting(m, w.pipe), f, m.plus(a, d), t, x);
  }

  lemma DropSum<C(!new)>(m: Monoid<C>, w: World<C>, b: Batch<C>)
    requires Lawful(m)
    ensures Held(m, w.(dropped := w.dropped + [b])) == m.plus(Held(m, w), BatchCounts(m)(b))
  {
    var f, a, d, t := FileSum(m, w.files), BatchSum(m, w.accepted), BatchSum(m, w.dropped), BatchSum(m, w.trimmed);
    var x := BatchCounts(m)(b);
    PushSum(m, w.dropped, b);
    Laws(m, a, d, x);
    Raise(m, Waiting(m, w.pipe), f, m.plus(a, d), t, x);
  }

  lemma PushSum<C(!new)>(m: Monoid<C>, bs: seq<Batch<C>>, b: Batch<C>)
    ensures BatchSum(m, bs + [b]) == m.plus(BatchSum(m, bs), BatchCounts(m)(b))
  {
    PushInit(bs, b);
  }

  /** p + (f + ((g + x) + t)) == (p + (f + (g + t))) + x */
  lemma Raise<C(!new)>(m: Monoid<C>, p: C, f: C, g: C, t: C, x: C)
    requires Lawful(m)
    ensures m.plus(p, m.plus(f, m.plus(m.plus(g, x), t))) == m.plus(m.plus(p, m.plus(f, m.plus(g, t))), x)
  {
    Swap(m, g, x, t);
    Laws(m, f, m.plus(g, t), x);
    Laws(m, p, m.plus(f, m.plus(g, t)), x);
  }

  /** And the disk holds less by what is taken off it. */
  lemma TakeSum<C(!new)>(m: Monoid<C>, w: World<C>, id: int)
    requires Lawful(m) && id in w.files
    ensures Held(m, w) == m.plus(Held(m, w.(files := w.files - {id})), BatchCounts(m)(w.files[id]))
  {
    var gone := m.plus(m.plus(BatchSum(m, w.accepted), BatchSum(m, w.dropped)), BatchSum(m, w.trimmed));
    var f, x := FileSum(m, w.files - {id}), BatchCounts(m)(w.files[id]);
    MapSumRemove(m, w.files, BatchCounts(m), id);
    Swap(m, f, x, gone);
    Laws(m, Waiting(m, w.pipe), m.plus(f, gone), x);
  }

  /** What leaves the pending windows arrives in the outbox or is trimmed from it. */
  lemma MoveSum<C(!new)>(m: Monoid<C>, w: World<C>, v: World<C>, trimmed: seq<Batch<C>>, stored: C)
    requires Lawful(m)
    requires v == w.(pipe := v.pipe, files := v.files, trimmed := w.trimmed + trimmed, handed := v.handed)
    requires v.pipe.windows == w.pipe.windows
             && PendingSum(m, w.pipe.pending) == m.plus(stored, PendingSum(m, v.pipe.pending))
    requires m.plus(FileSum(m, w.files), stored) == m.plus(FileSum(m, v.files), BatchSum(m, trimmed))
    ensures Held(m, v) == Held(m, w)
  {
    var t, x := BatchSum(m, w.trimmed), BatchSum(m, trimmed);
    var sent := m.plus(BatchSum(m, w.accepted), BatchSum(m, w.dropped));
    SeqSumConcat(m, w.trimmed, trimmed, BatchCounts(m));
    Settle(m, FileSum(m, v.files), sent, t, x);
    Hand(m, OpenSum(m, w.pipe.windows), PendingSum(m, v.pipe.pending), stored, FileSum(m, w.files), m.plus(sent, t));
  }

  /** g + (sent + (t + x)) == (g + x) + (sent + t) */
  lemma Settle<C(!new)>(m: Monoid<C>, g: C, sent: C, t: C, x: C)
    requires Lawful(m)
    ensures m.plus(g, m.plus(sent, m.plus(t, x))) == m.plus(m.plus(g, x), m.plus(sent, t))
  {
    Laws(m, sent, t, x);
    Laws(m, m.plus(sent, t), x, m.zero);
    Laws(m, g, x, m.plus(sent, t));
  }

  /** (o + left) + ((f + stored) + gone) == (o + (stored + left)) + (f + gone) */
  lemma Hand<C(!new)>(m: Monoid<C>, o: C, left: C, stored: C, f: C, gone: C)
    requires Lawful(m)
    ensures m.plus(m.plus(o, left), m.plus(m.plus(f, stored), gone))
            == m.plus(m.plus(o, m.plus(stored, left)), m.plus(f, gone))
  {
    Swap(m, f, stored, gone);
    Laws(m, m.plus(f, gone), stored, m.zero);
    Laws(m, m.plus(o, left), stored, m.plus(f, gone));
    Swap(m, o, left, stored);
  }
}
