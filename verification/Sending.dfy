/** The sender's steps of internal/aggregate/sender.go: with nothing in between they are one
    drain of the outbox; and how a flush in between puts a batch in two places. */
module Sending {
  import opened Wrappers
  import opened Ordering
  import opened Sequences
  import opened Sums
  import opened Packing
  import opened Outbox
  import opened Pipeline
  import opened PipelineLaws
  import opened PipelineOrder
  import opened PipelineRuns

  // ---------------------------------------------------------------- one drain

  /** The steps of a drain with nothing in between, for the answers `post` gives. */
  function DrainSteps<C>(files: Files<C>, ids: seq<int>, post: int -> Outcome, failures: nat): seq<Step<C>>
    decreases |ids|
  {
    if ids == [] then []
    else
      var one := PostOne(files, ids[0], post(ids[0]), failures);
      if ids[0] !in files then [ReadBatch] + DrainSteps(files, ids[1..], post, failures)
      else if one.delay > 0 then [ReadBatch, Answer(post(ids[0]))]
      else [ReadBatch, Answer(post(ids[0]))] + DrainSteps(one.left, ids[1..], post, one.failures)
  }

  function AfterDrain<C>(w: World<C>, d: Drained<C>): World<C> {
    w.(files := d.left, accepted := w.accepted + d.accepted, dropped := w.dropped + d.dropped,
       failures := d.failures, ids := [])
  }

  lemma RunFirst<C>(cfg: Config<C>, w: World<C>, step: Step<C>, rest: seq<Step<C>>)
    requires cfg.Valid()
    ensures RunAll(cfg, w, [step] + rest) == RunAll(cfg, Next(cfg, w, step), rest)
  {
    assert ([step] + rest)[1..] == rest;
  }

  lemma RunPair<C>(cfg: Config<C>, w: World<C>, a: Step<C>, b: Step<C>, rest: seq<Step<C>>)
    requires cfg.Valid()
    ensures RunAll(cfg, w, [a, b] + rest) == RunAll(cfg, Next(cfg, Next(cfg, w, a), b), rest)
  {
    assert [a, b] + rest == [a] + ([b] + rest);
    RunFirst(cfg, w, a, [b] + rest);
    RunFirst(cfg, Next(cfg, w, a), b, rest);
  }

  /** Reading a batch and its answer are what the sender does with one batch. */
  lemma OnePosted<C>(w: World<C>, id: int, outcome: Outcome)
    requires w.posting.None? && w.ids != [] && w.ids[0] == id && id in w.files && w.files[id].key == id
    ensures var one := PostOne(w.files, id, outcome, w.failures);
            AfterRead(w) == w.(posting := Some(w.files[id]))
            && Answered(AfterRead(w), w.files[id], outcome)
               == w.(files := one.left, accepted := w.accepted + one.accepted, dropped := w.dropped + one.dropped,
                     failures := one.failures, ids := if one.delay > 0 then [] else w.ids[1..])
  {
    AppendNothing(w.accepted, []);
    AppendNothing(w.dropped, []);
  }

  lemma ThenDrained<C>(w: World<C>, one: Drained<C>, ids: seq<int>, rest: Drained<C>)
    ensures var v := w.(files := one.left, accepted := w.accepted + one.accepted, dropped := w.dropped + one.dropped,
                        failures := one.failures, ids := ids);
            AfterDrain(v, rest) == AfterDrain(w, one.Then(rest))
  {
    Associate(w.accepted, one.accepted, rest.accepted);
    Associate(w.dropped, one.dropped, rest.dropped);
  }

  /** Without a flush in between, the sender's steps are one drain of what it listed. */
  lemma {:induction false} DrainIsSteps<C>(cfg: Config<C>, w: World<C>, ids: seq<int>, post: int -> Outcome)
    requires cfg.Valid() && w.posting.None? && w.ids == ids && Filed(w.files)
    ensures RunAll(cfg, w, DrainSteps(w.files, ids, post, w.failures))
            == AfterDrain(w, Drain(w.files, ids, post, w.failures))
    decreases |ids|
  {
    if ids == [] {
      AppendNothing(w.accepted, []);
      AppendNothing(w.dropped, []);
    } else if ids[0] !in w.files {
      var v := w.(ids := ids[1..]);
      RunFirst(cfg, w, ReadBatch, DrainSteps(w.files, ids[1..], post, w.failures));
      DrainIsSteps(cfg, v, ids[1..], post);
      Skipped(w.files, ids, post, w.failures);
    } else {
      PostedThenSteps(cfg, w, ids, post);
    }
  }

  lemma Skipped<C>(files: Files<C>, ids: seq<int>, post: int -> Outcome, failures: nat)
    requires ids != [] && ids[0] !in files
    ensures Drain(files, ids, post, failures) == Drain(files, ids[1..], post, failures)
  {
    ThenLaws(PostOne(files, ids[0], post(ids[0]), failures), PostOne(files, ids[0], post(ids[0]), failures),
             Drain(files, ids[1..], post, failures));
  }

  lemma {:induction false} PostedThenSteps<C>(cfg: Config<C>, w: World<C>, ids: seq<int>, post: int -> Outcome)
    requires cfg.Valid() && w.posting.None? && w.ids == ids && Filed(w.files) && ids != [] && ids[0] in w.files
    ensures RunAll(cfg, w, DrainSteps(w.files, ids, post, w.failures))
            == AfterDrain(w, Drain(w.files, ids, post, w.failures))
    decreases |ids|, 0
  {
    var id := ids[0];
    var one := PostOne(w.files, id, post(id), w.failures);
    var v := w.(files := one.left, accepted := w.accepted + one.accepted, dropped := w.dropped + one.dropped,
                failures := one.failures, ids := if one.delay > 0 then [] else ids[1..]);
    OnePosted(w, id, post(id));
    assert Next(cfg, Next(cfg, w, ReadBatch), Answer(post(id))) == v;
    if one.delay > 0 {
      var steps: seq<Step<C>> := [ReadBatch, Answer(post(id))];
      RunPair(cfg, w, ReadBatch, Answer(post(id)), []);
      AppendNothing(steps, []);
      assert AfterDrain(w, one) == v;
    } else {
      RunPair(cfg, w, ReadBatch, Answer(post(id)), DrainSteps(v.files, ids[1..], post, v.failures));
      DrainIsSteps(cfg, v, ids[1..], post);
      ThenDrained(w, one, ids[1..], Drain(v.files, ids[1..], post, v.failures));
    }
  }

  // ---------------------------------------------------------------- a batch in two places

  /** One batch over the limit, the oldest goes. */
  lemma OldestGoes<C>(stored: Files<C>, limit: nat, k: int)
    requires |stored| == limit + 1 && k in stored && forall j | j in stored :: k <= j
    ensures k in Oldest(stored, limit)
  {
    var keys := Keys(stored);
    AscendingRises(stored.Keys);
    assert |keys| == |stored.Keys| == limit + 1;
    assert k in Members(keys) && keys[0] in Members(keys);
    var i :| 0 <= i < |keys| && keys[i] == k;
    assert keys[0] == k;
    assert keys[..1][0] == k;
  }

  /** The batch in hand is the oldest on disk. */
  lemma InHandOldest<C>(w: World<C>, b: Batch<C>, k: int)
    requires Listed(w.files, w.ids, w.handed) && InHand(w, b) && k in w.files
    ensures b.key <= k
  {
    if k in w.ids {
      var i :| 0 <= i < |w.ids| && w.ids[i] == k;
    }
  }

  lemma FirstPutTrims<C>(w: World<C>, b: Batch<C>, c: Batch<C>, limit: nat)
    requires Listed(w.files, w.ids, w.handed) && InHand(w, b) && b.key in w.files && |w.files| == limit
    requires c.key !in w.files && b.key < c.key
    ensures b.key !in Put(w.files, c, Fine, limit).0
  {
    var stored := w.files[c.key := c];
    forall k | k in stored
      ensures b.key <= k
    {
      if k in w.files {
        InHandOldest(w, b, k);
      }
    }
    OldestGoes(stored, limit, b.key);
  }

  lemma KeysAfter<C>(stored: Files<C>, bs: seq<Batch<C>>, n: nat, files: Files<C>)
    requires n <= |bs| && forall k | k in files :: FileAfter(stored, bs, n, k, files[k])
    ensures forall k | k in files :: k in stored || exists i | 0 <= i < |bs| :: bs[i].key == k
  {
    forall k | k in files && k !in stored
      ensures exists i | 0 <= i < |bs| :: bs[i].key == k
    {
      var i :| 0 <= i < n && bs[i] == files[k] && files[k].key == k;
    }
  }

  lemma StaysTrimmed<C>(stored: Files<C>, bs: seq<Batch<C>>, disk: int -> Disk, limit: nat, rest: Written<C>, k: int)
    requires bs != [] && rest == PutAll(stored, bs[1..], disk, limit)
    requires k !in stored && forall i | 0 <= i < |bs| :: k < bs[i].key
    ensures k !in rest.files
  {
    var later := bs[1..];
    assert forall i | 0 <= i < |later| :: later[i] == bs[i + 1];
    PutAllKeys(stored, later, disk, limit, rest);
    KeysAfter(stored, later, rest.n, rest.files);
  }

  /** The batch in hand comes before every batch of the packing, and none of them is on disk. */
  lemma InHandBefore<C>(w: World<C>, b: Batch<C>, bs: seq<Batch<C>>)
    requires Behind(w.handed, w.pipe) && Delivering(w.files, w.accepted, w.handed) && b.key in w.files
    requires Among(KeysOf(bs), Starts(w.pipe.pending))
    ensures forall i | 0 <= i < |bs| :: b.key < bs[i].key && bs[i].key !in w.files
  {
    forall i | 0 <= i < |bs|
      ensures b.key < bs[i].key && bs[i].key !in w.files
    {
      BatchIsLater(w.pipe, w.handed, bs, i);
    }
  }

  lemma FlushTrims<C>(w: World<C>, bs: seq<Batch<C>>, disk: int -> Disk, limit: nat, b: Batch<C>, f: Written<C>)
    requires Listed(w.files, w.ids, w.handed) && InHand(w, b) && b.key in w.files && |w.files| == limit
    requires forall i | 0 <= i < |bs| :: b.key < bs[i].key && bs[i].key !in w.files
    requires bs != [] && disk(bs[0].key) == Fine && f == PutAll(w.files, bs, disk, limit)
    ensures b.key !in f.files
  {
    FirstPutTrims(w, b, bs[0], limit);
    var stored, rest := PutAllNext(w.files, bs, disk, limit);
    StaysTrimmed(stored, bs, disk, limit, rest, b.key);
  }

  lemma TrimmedInHand<C>(v: World<C>, b: Batch<C>)
    requires Placed(v) && v.posting == Some(b) && b.key !in v.files
    ensures TooLate(v, Answer(Accepted)) && b.key in KeysOf(v.trimmed)
    ensures b.key in KeysOf(Answered(v, b, Accepted).accepted)
  {
    assert b.key in KeySet(v.trimmed);
    assert KeysOf(v.accepted + [b])[|v.accepted|] == b.key;
  }

  /** While a batch is posted with the outbox full, a flush that writes trims it: the answer
      comes too late, and if the cloud takes the batch, it is trimmed and accepted. */
  lemma FullOutboxTooLate<C(!new)>(cfg: Config<C>, w: World<C>, disk: int -> Disk, b: Batch<C>) returns (v: World<C>)
    requires cfg.Valid() && Ordered(cfg, w) && Outgoing(w)
    requires w.posting == Some(b) && b.key in w.files && |w.files| == cfg.outboxLimit
    requires w.pipe.pending != [] && forall k :: disk(k) == Fine
    ensures v == Next(cfg, w, FlushNow(disk))
    ensures TooLate(v, Answer(Accepted))
    ensures b.key in KeysOf(v.trimmed) && b.key in KeysOf(Answered(v, b, Accepted).accepted)
  {
    var bs := Batches(Groups(w.pipe.pending, cfg.maxRows));
    var f := PutAll(w.files, bs, disk, cfg.outboxLimit);
    v := Next(cfg, w, FlushNow(disk));
    FlushIs(cfg, w, bs, disk);
    FlushedTooLate(cfg, w, bs, disk, b, f, v);
  }

  lemma FlushIs<C>(cfg: Config<C>, w: World<C>, bs: seq<Batch<C>>, disk: int -> Disk)
    requires cfg.Valid() && bs == Batches(Groups(w.pipe.pending, cfg.maxRows))
    ensures Next(cfg, w, FlushNow(disk)) == AfterFlush(cfg, w, PutAll(w.files, bs, disk, cfg.outboxLimit))
  {
  }

  lemma FlushedTooLate<C(!new)>(cfg: Config<C>, w: World<C>, bs: seq<Batch<C>>, disk: int -> Disk, b: Batch<C>,
                                f: Written<C>, v: World<C>)
    requires cfg.Valid() && Ordered(cfg, w) && Outgoing(w)
    requires w.posting == Some(b) && b.key in w.files && |w.files| == cfg.outboxLimit
    requires w.pipe.pending != [] && forall k :: disk(k) == Fine
    requires bs == Batches(Groups(w.pipe.pending, cfg.maxRows)) && f == PutAll(w.files, bs, disk, cfg.outboxLimit)
    requires v == AfterFlush(cfg, w, f)
    ensures TooLate(v, Answer(Accepted))
    ensures b.key in KeysOf(v.trimmed) && b.key in KeysOf(Answered(v, b, Accepted).accepted)
  {
    KeysRise(w.pipe.pending, cfg.maxRows);
    FirstKey(w.pipe.pending, cfg.maxRows);
    InHandBefore(w, b, bs);
    FlushTrims(w, bs, disk, cfg.outboxLimit, b, f);
    FlushWrites(cfg, w, bs, disk, f);
    FlushedOutgoing(w, v, bs, f);
    TrimmedInHand(v, b);
  }
}
