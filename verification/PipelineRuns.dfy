/** Over every run of the aggregate pipeline without a crash, the sender's steps and the
    node's coming in any order: where each counted request is, that no batch key is ever used
    twice, and that the cloud gets the batches in order. */
module PipelineRuns {
  import opened Wrappers
  import opened Ordering
  import opened Sequences
  import opened Sums
  import opened Counters
  import opened Folding
  import opened Packing
  import opened Outbox
  import opened Pipeline
  import opened PipelineLaws
  import opened PipelineOrder

  // ---------------------------------------------------------------- invariants

  /** Files lie under their keys, and the cloud has taken batches in the order of their keys,
      all before what is still on disk. */
  ghost predicate Delivering<C>(files: Files<C>, accepted: seq<Batch<C>>, handed: seq<int>) {
    && (forall k | k in files :: files[k].key == k && k in handed)
    && RisingKeys(KeysOf(accepted))
    && (forall i | 0 <= i < |accepted| :: accepted[i].key in handed)
    && (forall i, k | 0 <= i < |accepted| && k in files :: accepted[i].key < k)
  }

  /** The sender goes through its list from the oldest on; what was stored since is later. */
  ghost predicate Listed<C>(files: Files<C>, ids: seq<int>, handed: seq<int>) {
    && RisingKeys(ids) && (forall i | 0 <= i < |ids| :: ids[i] in handed)
    && (forall k | k in files && k !in ids :: forall i | 0 <= i < |ids| :: ids[i] < k)
  }

  /** The batch in hand is the first of the list, later than all accepted, and still on disk
      unless it was trimmed. */
  ghost predicate InHand<C>(w: World<C>, b: Batch<C>) {
    && w.ids != [] && w.ids[0] == b.key && (b.key in w.files ==> w.files[b.key] == b)
    && (forall i | 0 <= i < |w.accepted| :: w.accepted[i].key < b.key)
  }

  ghost function KeySet<C>(bs: seq<Batch<C>>): set<int> {
    Members(KeysOf(bs))
  }

  /** Each key handed over is on disk, or its batch was accepted, dropped or trimmed; in two
      of these only when the sender was done with it after it had been trimmed. */
  ghost predicate Placing(files: set<int>, accepted: set<int>, dropped: set<int>, trimmed: set<int>, twice: set<int>,
                          handed: set<int>, hand: set<int>) {
    && files + accepted + dropped + trimmed == handed
    && files !! accepted && files !! dropped && files !! trimmed && accepted !! dropped
    && (accepted + dropped) * trimmed == twice
    && hand !! (accepted + dropped) && hand <= files + trimmed
  }

  function Hand<C>(posting: Option<Batch<C>>): set<int> {
    if posting.Some? then {posting.value.key} else {}
  }

  ghost predicate Placed<C>(w: World<C>) {
    Placing(w.files.Keys, KeySet(w.accepted), KeySet(w.dropped), KeySet(w.trimmed), KeySet(w.twice),
            Members(w.handed), Hand(w.posting))
  }

  /** Every count is in one place, and those of the batches in `twice` in one more. */
  ghost predicate Balanced<C(!new)>(m: Monoid<C>, w: World<C>) {
    Held(m, w) == m.plus(w.counted, BatchSum(m, w.twice))
  }

  ghost predicate Ordered<C>(cfg: Config<C>, w: World<C>) {
    PipeOrdered(cfg, w.pipe) && RisingKeys(w.handed) && Behind(w.handed, w.pipe)
  }

  ghost predicate Outgoing<C>(w: World<C>) {
    && Delivering(w.files, w.accepted, w.handed) && Listed(w.files, w.ids, w.handed)
    && (w.posting.Some? ==> InHand(w, w.posting.value))
    && Placed(w)
  }

  ghost predicate Invariant<C(!new)>(cfg: Config<C>, w: World<C>) {
    Ordered(cfg, w) && Outgoing(w) && Balanced(cfg.m, w)
  }

  ghost predicate Allowed<C>(step: Step<C>) {
    step.Event? ==> step.key != REST_KEY
  }

  // ---------------------------------------------------------------- an event and a tick

  lemma EventKeeps<C(!new)>(cfg: Config<C>, w: World<C>, at: int, k: Key, one: C)
    requires Lawful(cfg.m) && cfg.Valid() && Invariant(cfg, w) && k != REST_KEY
    ensures Invariant(cfg, AfterEvent(cfg, w, at, k, one))
  {
    var pipe := AddEvent(cfg, w.pipe, at, k, one);
    EventOrdered(cfg, w.pipe, at, k, one);
    AddEventWaits(cfg, w.pipe, at, k, one);
    EventBalanced(cfg.m, w, w.(pipe := pipe, counted := cfg.m.plus(w.counted, one)), one);
  }

  lemma EventBalanced<C(!new)>(m: Monoid<C>, w: World<C>, v: World<C>, one: C)
    requires Lawful(m) && Balanced(m, w) && v == w.(pipe := v.pipe, counted := m.plus(w.counted, one))
    requires Waiting(m, v.pipe) == m.plus(Waiting(m, w.pipe), one)
    ensures Balanced(m, v)
  {
    Swap(m, Waiting(m, w.pipe), one, Sent(m, w));
    Swap(m, w.counted, BatchSum(m, w.twice), one);
  }

  lemma TickKeeps<C(!new)>(cfg: Config<C>, w: World<C>, now: int, facts: int -> int)
    requires Lawful(cfg.m) && cfg.Valid() && Invariant(cfg, w)
    ensures Invariant(cfg, w.(pipe := CloseWindows(cfg, w.pipe, now, facts)))
  {
    TickOrdered(cfg, w.pipe, now, facts);
    TickBehind(cfg, w.pipe, w.handed, now, facts);
    CloseWindowsSum(cfg, w.pipe, now, facts);
  }

  // ---------------------------------------------------------------- a flush

  /** A file after some writes: one that was there, or one of the batches written. */
  ghost predicate FileAfter<C>(files: Files<C>, bs: seq<Batch<C>>, n: nat, k: int, b: Batch<C>)
    requires n <= |bs|
  {
    (k in files && files[k] == b) || (exists i | 0 <= i < n :: bs[i] == b && b.key == k)
  }

  lemma {:induction false} PutAllKeys<C>(files: Files<C>, bs: seq<Batch<C>>, disk: int -> Disk, limit: nat,
                                         w: Written<C>)
    requires w == PutAll(files, bs, disk, limit)
    ensures w.n <= |bs| && forall k | k in w.files :: FileAfter(files, bs, w.n, k, w.files[k])
    decreases |bs|
  {
    if bs == [] || !Put(files, bs[0], disk(bs[0].key), limit).1 {
      PutNone(files, bs, disk, limit);
    } else {
      var stored, rest := PutAllNext(files, bs, disk, limit);
      PutAllKeys(stored, bs[1..], disk, limit, rest);
      PutValues(files, bs[0], disk(bs[0].key), limit);
      FilesNext(files, stored, bs, rest);
    }
  }

  lemma FilesNext<C>(files: Files<C>, stored: Files<C>, bs: seq<Batch<C>>, rest: Written<C>)
    requires bs != [] && rest.n <= |bs[1..]|
    requires forall k | k in rest.files :: FileAfter(stored, bs[1..], rest.n, k, rest.files[k])
    requires forall k | k in stored :: (k in files && stored[k] == files[k]) || (stored[k] == bs[0] && k == bs[0].key)
    ensures forall k | k in rest.files :: FileAfter(files, bs, rest.n + 1, k, rest.files[k])
  {
    forall k | k in rest.files
      ensures FileAfter(files, bs, rest.n + 1, k, rest.files[k])
    {
      if !(k in stored && stored[k] == rest.files[k]) {
        var i :| 0 <= i < rest.n && bs[1..][i] == rest.files[k] && rest.files[k].key == k;
        assert bs[i + 1] == rest.files[k];
      }
    }
  }

  lemma PutValues<C>(files: Files<C>, b: Batch<C>, disk: Disk, limit: nat)
    ensures var stored := Put(files, b, disk, limit).0;
            forall k | k in stored :: (k in files && stored[k] == files[k]) || (stored[k] == b && k == b.key)
  {
  }

  lemma KeySetNext<C>(bs: seq<Batch<C>>, b: Batch<C>)
    ensures KeySet(bs + [b]) == KeySet(bs) + {b.key}
  {
    assert KeysOf(bs + [b]) == KeysOf(bs) + [b.key];
  }

  lemma KeySetJoin<C>(a: seq<Batch<C>>, b: seq<Batch<C>>)
    ensures KeySet(a + b) == KeySet(a) + KeySet(b)
  {
    assert KeysOf(a + b) == KeysOf(a) + KeysOf(b);
  }

  /** Every file lies under its key. */
  ghost predicate Filed<C>(files: Files<C>) {
    forall k | k in files :: files[k].key == k
  }

  /** A new batch is on disk, and the oldest past the limit are trimmed. */
  lemma PutPlaces<C>(files: Files<C>, b: Batch<C>, limit: nat, left: Files<C>)
    requires b.key !in files && Filed(files) && left == Put(files, b, Fine, limit).0
    ensures left.Keys !! KeySet(Trimmed(files, b, limit))
    ensures left.Keys + KeySet(Trimmed(files, b, limit)) == files.Keys + {b.key}
  {
    var stored := files[b.key := b];
    TrimmedKeys(files, b, limit);
    OldestThere(stored, limit);
    PutIs(files, b, limit, Oldest(stored, limit));
    TakenKeys(stored, Oldest(stored, limit));
  }

  lemma PutIs<C>(files: Files<C>, b: Batch<C>, limit: nat, oldest: set<int>)
    requires b.key !in files && oldest == Oldest(files[b.key := b], limit)
    ensures Put(files, b, Fine, limit).0 == files[b.key := b] - oldest
  {
  }

  lemma TakenKeys<K, V>(f: map<K, V>, s: set<K>)
    requires s <= f.Keys
    ensures (f - s).Keys !! s && (f - s).Keys + s == f.Keys
  {
  }

  lemma OldestThere<C>(stored: Files<C>, limit: nat)
    ensures Oldest(stored, limit) <= stored.Keys
  {
    var keys := Keys(stored);
    ListingMembers(keys, stored.Keys);
    forall k | k in keys[..Excess(|keys|, limit)]
      ensures k in stored
    {
      assert k in Members(keys);
    }
  }

  lemma PutFiled<C>(files: Files<C>, b: Batch<C>, disk: Disk, limit: nat)
    requires Filed(files)
    ensures Filed(Put(files, b, disk, limit).0)
  {
  }

  lemma TrimmedKeys<C>(files: Files<C>, b: Batch<C>, limit: nat)
    requires b.key !in files && Filed(files)
    ensures KeySet(Trimmed(files, b, limit)) == Oldest(files[b.key := b], limit)
  {
    var stored := files[b.key := b];
    var keys := Keys(stored);
    var ids := keys[..Excess(|keys|, limit)];
    ListingMembers(keys, stored.Keys);
    forall i | 0 <= i < |ids|
      ensures Trimmed(files, b, limit)[i].key == ids[i]
    {
      assert keys[i] in Members(keys);
    }
    assert KeysOf(Trimmed(files, b, limit)) == ids;
  }

  /** What was on disk and what was written is on disk or trimmed now. */
  ghost predicate PutPlaced<C>(files: Files<C>, bs: seq<Batch<C>>, w: Written<C>) {
    && w.n <= |bs| && w.files.Keys !! KeySet(w.trimmed)
    && w.files.Keys + KeySet(w.trimmed) == files.Keys + KeySet(bs[..w.n])
  }

  lemma {:induction false} PutAllPlaces<C>(files: Files<C>, bs: seq<Batch<C>>, disk: int -> Disk, limit: nat,
                                           w: Written<C>)
    requires Unseen(files, bs) && RisingKeys(KeysOf(bs)) && Filed(files)
    requires w == PutAll(files, bs, disk, limit)
    ensures PutPlaced(files, bs, w)
    decreases |bs|
  {
    if bs == [] || !Put(files, bs[0], disk(bs[0].key), limit).1 {
      PutNone(files, bs, disk, limit);
      NothingPlaced(files, bs);
    } else {
      var stored, rest := PutAllNext(files, bs, disk, limit);
      PutFirstPlaces(files, bs, disk(bs[0].key), limit, stored);
      PutAllPlaces(stored, bs[1..], disk, limit, rest);
      PutStepPlaced(files, stored, bs, rest, Trimmed(files, bs[0], limit));
    }
  }

  lemma NothingPlaced<C>(files: Files<C>, bs: seq<Batch<C>>)
    ensures PutPlaced(files, bs, Written(files, [], 0))
  {
    var none: seq<Batch<C>> := [];
    assert bs[..0] == none && KeysOf(none) == [];
  }

  lemma PutFirstPlaces<C>(files: Files<C>, bs: seq<Batch<C>>, disk: Disk, limit: nat, stored: Files<C>)
    requires bs != [] && Unseen(files, bs) && RisingKeys(KeysOf(bs)) && Filed(files)
    requires Put(files, bs[0], disk, limit) == (stored, true)
    ensures Unseen(stored, bs[1..]) && RisingKeys(KeysOf(bs[1..])) && Filed(stored)
    ensures var gone := KeySet(Trimmed(files, bs[0], limit));
            && stored.Keys !! gone && stored.Keys + gone == files.Keys + {bs[0].key}
            && gone !! KeySet(bs[1..])
  {
    assert disk == Fine;
    PutPlaces(files, bs[0], limit, stored);
    PutFiled(files, bs[0], disk, limit);
    PutKeys(files, bs[0], disk, limit);
    PutKeepsUnseen(files, bs, stored);
    NewUntrimmed(files, bs, KeySet(Trimmed(files, bs[0], limit)));
  }

  /** What the first write trims is none of the later batches. */
  lemma NewUntrimmed<C>(files: Files<C>, bs: seq<Batch<C>>, gone: set<int>)
    requires bs != [] && Unseen(files, bs) && RisingKeys(KeysOf(bs)) && gone <= files.Keys + {bs[0].key}
    ensures gone !! KeySet(bs[1..])
  {
    forall k | k in KeySet(bs[1..])
      ensures k !in files && k != bs[0].key
    {
      var i :| 0 <= i < |KeysOf(bs[1..])| && KeysOf(bs[1..])[i] == k;
      assert bs[i + 1].key == k && KeysOf(bs)[0] < KeysOf(bs)[i + 1];
    }
  }

  lemma PutStepPlaced<C>(files: Files<C>, stored: Files<C>, bs: seq<Batch<C>>, w: Written<C>, trimmed: seq<Batch<C>>)
    requires bs != [] && PutPlaced(stored, bs[1..], w)
    requires stored.Keys !! KeySet(trimmed) && stored.Keys + KeySet(trimmed) == files.Keys + {bs[0].key}
    requires KeySet(trimmed) !! KeySet(bs[1..])
    ensures PutPlaced(files, bs, Written(w.files, trimmed + w.trimmed, w.n + 1))
  {
    var first := bs[1..][..w.n];
    assert bs[..w.n + 1] == [bs[0]] + first;
    KeySetJoin([bs[0]], first);
    KeySetJoin(trimmed, w.trimmed);
    assert KeysOf([bs[0]]) == [bs[0].key];
    assert KeySet(first) <= KeySet(bs[1..]) by {
      forall k | k in KeySet(first)
        ensures k in KeySet(bs[1..])
      {
        var i :| 0 <= i < |KeysOf(first)| && KeysOf(first)[i] == k;
        assert KeysOf(bs[1..])[i] == k;
      }
    }
  }

  /** A batch of the packing has a key later than any handed over before. */
  lemma BatchIsLater<C>(s: Pipe<C>, handed: seq<int>, bs: seq<Batch<C>>, i: nat)
    requires Behind(handed, s) && i < |bs| && Among(KeysOf(bs), Starts(s.pending))
    ensures forall h | 0 <= h < |handed| :: handed[h] < bs[i].key
    ensures bs[i].key !in handed
  {
    assert KeysOf(bs)[i] == bs[i].key;
    var j :| 0 <= j < |Starts(s.pending)| && Starts(s.pending)[j] == bs[i].key;
    assert bs[i].key == s.pending[j].start;
  }

  /** After a flush a file is one that was there, or a batch just written, later than all. */
  ghost predicate FileOf<C>(files: Files<C>, bs: seq<Batch<C>>, n: nat, handed: seq<int>, k: int, b: Batch<C>)
    requires n <= |bs|
  {
    (k in files && files[k] == b)
    || (b.key == k && k in KeysOf(bs[..n]) && k !in handed && forall h | 0 <= h < |handed| :: handed[h] < k)
  }

  lemma FlushFiles<C>(s: Pipe<C>, handed: seq<int>, files: Files<C>, bs: seq<Batch<C>>, w: Written<C>)
    requires Behind(handed, s) && Among(KeysOf(bs), Starts(s.pending))
    requires w.n <= |bs| && forall k | k in w.files :: FileAfter(files, bs, w.n, k, w.files[k])
    ensures forall k | k in w.files :: FileOf(files, bs, w.n, handed, k, w.files[k])
  {
    forall k | k in w.files
      ensures FileOf(files, bs, w.n, handed, k, w.files[k])
    {
      if !(k in files && w.files[k] == files[k]) {
        var i :| 0 <= i < w.n && bs[i] == w.files[k] && w.files[k].key == k;
        BatchIsLater(s, handed, bs, i);
        assert KeysOf(bs[..w.n])[i] == k;
      }
    }
  }

  lemma FlushDelivers<C>(files: Files<C>, accepted: seq<Batch<C>>, handed: seq<int>, bs: seq<Batch<C>>, n: nat,
                         after: Files<C>)
    requires Delivering(files, accepted, handed) && n <= |bs|
    requires forall k | k in after :: FileOf(files, bs, n, handed, k, after[k])
    ensures Delivering(after, accepted, handed + KeysOf(bs[..n]))
  {
  }

  lemma FlushListed<C>(files: Files<C>, ids: seq<int>, handed: seq<int>, bs: seq<Batch<C>>, n: nat, after: Files<C>)
    requires Listed(files, ids, handed) && n <= |bs|
    requires forall k | k in after :: FileOf(files, bs, n, handed, k, after[k])
    ensures Listed(after, ids, handed + KeysOf(bs[..n]))
  {
    forall k | k in after && k !in ids
      ensures forall i | 0 <= i < |ids| :: ids[i] < k
    {
      assert FileOf(files, bs, n, handed, k, after[k]);
    }
  }

  lemma FlushInHand<C>(w: World<C>, v: World<C>, b: Batch<C>, bs: seq<Batch<C>>, n: nat)
    requires InHand(w, b) && Listed(w.files, w.ids, w.handed) && n <= |bs|
    requires v.ids == w.ids && v.accepted == w.accepted
    requires forall k | k in v.files :: FileOf(w.files, bs, n, w.handed, k, v.files[k])
    ensures InHand(v, b)
  {
    if b.key in v.files {
      assert FileOf(w.files, bs, n, w.handed, b.key, v.files[b.key]);
      assert w.ids[0] in w.handed;
    }
  }

  lemma FlushPlaced<C>(w: World<C>, v: World<C>, bs: seq<Batch<C>>, f: Written<C>)
    requires Placed(w) && PutPlaced(w.files, bs, f) && KeySet(bs[..f.n]) !! Members(w.handed)
    requires v == w.(pipe := v.pipe, files := f.files, trimmed := w.trimmed + f.trimmed,
                     handed := w.handed + KeysOf(bs[..f.n]))
    ensures Placed(v)
  {
    KeySetJoin(w.trimmed, f.trimmed);
    assert Members(v.handed) == Members(w.handed) + KeySet(bs[..f.n]);
    PlacedMore(w.files.Keys, KeySet(w.accepted), KeySet(w.dropped), KeySet(w.trimmed), KeySet(w.twice),
               Members(w.handed), Hand(w.posting), KeySet(bs[..f.n]), f.files.Keys, KeySet(f.trimmed));
  }

  lemma PlacedMore(files: set<int>, accepted: set<int>, dropped: set<int>, trimmed: set<int>, twice: set<int>,
                   handed: set<int>, hand: set<int>, fresh_: set<int>, after: set<int>, gone: set<int>)
    requires Placing(files, accepted, dropped, trimmed, twice, handed, hand)
    requires fresh_ !! handed && after !! gone && after + gone == files + fresh_
    ensures Placing(after, accepted, dropped, trimmed + gone, twice, handed + fresh_, hand)
  {
  }

  lemma StoredSum<C(!new)>(m: Monoid<C>, p: seq<Closed<C>>, gs: seq<Group<C>>, n: nat)
    requires Lawful(m) && NonEmpty(gs) && n <= |gs| && Flatten(gs[..n]) <= p
    ensures PendingSum(m, p) == m.plus(BatchSum(m, Batches(gs)[..n]), PendingSum(m, p[|Flatten(gs[..n])|..]))
  {
    var stored := Flatten(gs[..n]);
    BatchesSum(m, gs[..n]);
    assert Batches(gs[..n]) == Batches(gs)[..n];
    assert p == stored + p[|stored|..];
    SeqSumConcat(m, stored, p[|stored|..], ClosedCounts(m));
  }

  lemma FlushUnseen<C>(s: Pipe<C>, handed: seq<int>, files: Files<C>, bs: seq<Batch<C>>)
    requires Behind(handed, s) && Among(KeysOf(bs), Starts(s.pending)) && forall k | k in files :: k in handed
    ensures Unseen(files, bs) && forall n | 0 <= n <= |bs| :: KeySet(bs[..n]) !! Members(handed)
  {
    forall i | 0 <= i < |bs|
      ensures bs[i].key !in files && bs[i].key !in handed
    {
      BatchIsLater(s, handed, bs, i);
    }
    forall n | 0 <= n <= |bs|
      ensures KeySet(bs[..n]) !! Members(handed)
    {
      forall k | k in KeySet(bs[..n])
        ensures k !in handed
      {
        var i :| 0 <= i < n && KeysOf(bs[..n])[i] == k;
        assert bs[i].key == k;
      }
    }
  }

  /** What a flush writes, and what it leaves on disk. */
  ghost predicate Flushed<C>(w: World<C>, v: World<C>, bs: seq<Batch<C>>, f: Written<C>) {
    && f.n <= |bs|
    && v == w.(pipe := v.pipe, files := f.files, trimmed := w.trimmed + f.trimmed,
                 handed := w.handed + KeysOf(bs[..f.n]))
    && (forall k | k in f.files :: FileOf(w.files, bs, f.n, w.handed, k, f.files[k]))
    && PutPlaced(w.files, bs, f) && KeySet(bs[..f.n]) !! Members(w.handed)
  }

  lemma FlushWrites<C>(cfg: Config<C>, w: World<C>, bs: seq<Batch<C>>, disk: int -> Disk, f: Written<C>)
    requires cfg.Valid() && Ordered(cfg, w) && Delivering(w.files, w.accepted, w.handed)
    requires bs == Batches(Groups(w.pipe.pending, cfg.maxRows)) && f == PutAll(w.files, bs, disk, cfg.outboxLimit)
    ensures Flushed(w, AfterFlush(cfg, w, f), bs, f)
  {
    KeysRise(w.pipe.pending, cfg.maxRows);
    FlushUnseen(w.pipe, w.handed, w.files, bs);
    PutAllKeys(w.files, bs, disk, cfg.outboxLimit, f);
    FlushFiles(w.pipe, w.handed, w.files, bs, f);
    PutAllPlaces(w.files, bs, disk, cfg.outboxLimit, f);
  }

  lemma FlushedOutgoing<C>(w: World<C>, v: World<C>, bs: seq<Batch<C>>, f: Written<C>)
    requires Outgoing(w) && Flushed(w, v, bs, f)
    ensures Outgoing(v)
  {
    FlushDelivers(w.files, w.accepted, w.handed, bs, f.n, f.files);
    FlushListed(w.files, w.ids, w.handed, bs, f.n, f.files);
    if w.posting.Some? {
      FlushInHand(w, v, w.posting.value, bs, f.n);
    }
    FlushPlaced(w, v, bs, f);
  }

  lemma FlushStored<C(!new)>(cfg: Config<C>, pending: seq<Closed<C>>, n: nat)
    requires Lawful(cfg.m) && Filled(pending, cfg.maxRows) && n <= |Groups(pending, cfg.maxRows)|
    ensures PendingSum(cfg.m, pending)
            == cfg.m.plus(BatchSum(cfg.m, Batches(Groups(pending, cfg.maxRows))[..n]),
                          PendingSum(cfg.m, Left(cfg, pending, n)))
  {
    LeftIsRest(cfg, pending, n);
    GroupsNonEmpty(pending, cfg.maxRows);
    StoredSum(cfg.m, pending, Groups(pending, cfg.maxRows), n);
  }

  lemma FlushHeld<C(!new)>(cfg: Config<C>, w: World<C>, bs: seq<Batch<C>>, disk: int -> Disk, f: Written<C>)
    requires Lawful(cfg.m) && cfg.Valid() && Ordered(cfg, w) && forall k | k in w.files :: k in w.handed
    requires bs == Batches(Groups(w.pipe.pending, cfg.maxRows)) && f == PutAll(w.files, bs, disk, cfg.outboxLimit)
    ensures Held(cfg.m, AfterFlush(cfg, w, f)) == Held(cfg.m, w)
  {
    KeysRise(w.pipe.pending, cfg.maxRows);
    FlushUnseen(w.pipe, w.handed, w.files, bs);
    PutAllSum(cfg.m, w.files, bs, disk, cfg.outboxLimit, f);
    FlushStored(cfg, w.pipe.pending, f.n);
    MoveSum(cfg.m, w, AfterFlush(cfg, w, f), f.trimmed, BatchSum(cfg.m, bs[..f.n]));
  }

  lemma FlushKeeps<C(!new)>(cfg: Config<C>, w: World<C>, bs: seq<Batch<C>>, disk: int -> Disk, f: Written<C>,
                     v: World<C>)
    requires Lawful(cfg.m) && cfg.Valid() && Invariant(cfg, w)
    requires bs == Batches(Groups(w.pipe.pending, cfg.maxRows)) && f == PutAll(w.files, bs, disk, cfg.outboxLimit)
    requires v == AfterFlush(cfg, w, f)
    ensures Invariant(cfg, v)
  {
    FlushWrites(cfg, w, bs, disk, f);
    FlushedOutgoing(w, v, bs, f);
    FlushOrdered(cfg, w.pipe, w.handed, f.n);
    FlushHeld(cfg, w, bs, disk, f);
  }

  // ---------------------------------------------------------------- the sender

  lemma KeysListed<C>(files: Files<C>, handed: seq<int>)
    requires forall k | k in files :: k in handed
    ensures Listed(files, Keys(files), handed)
  {
    var ids := Keys(files);
    AscendingRises(files.Keys);
    forall k
      ensures k in ids <==> k in files
    {
      assert k in ids <==> k in Members(ids);
    }
  }

  lemma ListKeeps<C(!new)>(cfg: Config<C>, w: World<C>, ids: seq<int>)
    requires Invariant(cfg, w) && w.posting.None? && Listed(w.files, ids, w.handed)
    ensures Invariant(cfg, w.(ids := ids))
  {
    assert Held(cfg.m, w.(ids := ids)) == Held(cfg.m, w);
  }

  /** Past its first key the list is one of what is on disk without it. */
  lemma ListedRest<C>(files: Files<C>, ids: seq<int>, handed: seq<int>)
    requires Listed(files, ids, handed) && ids != []
    ensures Listed(files - {ids[0]}, ids[1..], handed)
    ensures ids[0] in handed && forall k | k in files - {ids[0]} :: ids[0] < k
  {
    var rest := ids[1..];
    assert forall i | 0 <= i < |rest| :: rest[i] == ids[i + 1];
    forall k | k in files && k != ids[0]
      ensures k in ids ==> k in rest
      ensures ids[0] < k
    {
      if k in ids {
        var j :| 0 <= j < |ids| && ids[j] == k;
        assert rest[j - 1] == k;
      }
    }
    assert ids[0] in ids;
  }

  lemma ReadKeeps<C(!new)>(cfg: Config<C>, w: World<C>)
    requires Invariant(cfg, w)
    ensures Invariant(cfg, AfterRead(w))
  {
    if w.posting.None? && w.ids != [] {
      var id := w.ids[0];
      ListedRest(w.files, w.ids, w.handed);
      if id in w.files {
        assert InHand(w, w.files[id]);
      } else {
        assert w.files - {id} == w.files;
      }
    }
  }

  lemma TakenListed<C>(w: World<C>, b: Batch<C>)
    requires Outgoing(w) && w.posting == Some(b)
    ensures Listed(w.files - {b.key}, Rest(w.ids), w.handed) && b.key in w.handed
    ensures forall k | k in w.files - {b.key} :: b.key < k
    ensures Delivering(w.files - {b.key}, w.accepted, w.handed)
  {
    ListedRest(w.files, w.ids, w.handed);
  }

  lemma AcceptDelivers<C>(w: World<C>, b: Batch<C>)
    requires Outgoing(w) && w.posting == Some(b)
    ensures Delivering(w.files - {b.key}, w.accepted + [b], w.handed)
  {
    TakenListed(w, b);
    var acc := w.accepted + [b];
    assert KeysOf(acc) == KeysOf(w.accepted) + [b.key];
    assert forall i | 0 <= i < |w.accepted| :: KeysOf(w.accepted)[i] == w.accepted[i].key;
  }

  /** The batch in hand gets its place; a second one just when it had been trimmed. */
  lemma TakenPlaced(files: set<int>, accepted: set<int>, dropped: set<int>, trimmed: set<int>, twice: set<int>,
                    handed: set<int>, k: int)
    requires Placing(files, accepted, dropped, trimmed, twice, handed, {k})
    ensures var more := if k in files then twice else twice + {k};
            && Placing(files - {k}, accepted + {k}, dropped, trimmed, more, handed, {})
            && Placing(files - {k}, accepted, dropped + {k}, trimmed, more, handed, {})
    ensures k !in files ==> Placing(files - {k}, accepted, dropped, trimmed, twice, handed, {})
    ensures Placing(files, accepted, dropped, trimmed, twice, handed, {})
  {
  }

  lemma AnswerPlaced<C>(w: World<C>, b: Batch<C>, outcome: Outcome)
    requires Placed(w) && w.posting == Some(b)
    ensures Placed(Answered(w, b, outcome))
  {
    KeySetNext(w.accepted, b);
    KeySetNext(w.dropped, b);
    KeySetNext(w.twice, b);
    TakenPlaced(w.files.Keys, KeySet(w.accepted), KeySet(w.dropped), KeySet(w.trimmed), KeySet(w.twice),
                Members(w.handed), b.key);
    assert (w.files - {b.key}).Keys == w.files.Keys - {b.key};
  }

  lemma AnswerOutgoing<C>(w: World<C>, b: Batch<C>, outcome: Outcome)
    requires Outgoing(w) && w.posting == Some(b)
    ensures Outgoing(Answered(w, b, outcome))
  {
    AnswerPlaced(w, b, outcome);
    TakenListed(w, b);
    if outcome == Accepted {
      AcceptDelivers(w, b);
    }
  }

  /** What is taken off the disk counts somewhere else; what was not there any more counts
      once more. */
  lemma TakenBalanced<C(!new)>(m: Monoid<C>, w: World<C>, b: Batch<C>)
    requires Lawful(m) && Balanced(m, w) && (b.key in w.files ==> w.files[b.key] == b)
    ensures m.plus(Held(m, Taken(w, b)), BatchCounts(m)(b)) == m.plus(w.counted, BatchSum(m, Taken(w, b).twice))
  {
    if b.key in w.files {
      TakeSum(m, w, b.key);
    } else {
      assert w.files - {b.key} == w.files;
      PushSum(m, w.twice, b);
      Laws(m, w.counted, BatchSum(m, w.twice), BatchCounts(m)(b));
    }
  }

  lemma AnswerBalanced<C(!new)>(m: Monoid<C>, w: World<C>, b: Batch<C>, outcome: Outcome)
    requires Lawful(m) && Balanced(m, w) && (b.key in w.files ==> w.files[b.key] == b)
    ensures Balanced(m, Answered(w, b, outcome))
  {
    TakenBalanced(m, w, b);
    match outcome {
      case Accepted => AcceptSum(m, Taken(w, b), b);
      case Rejected => DropSum(m, Taken(w, b), b);
      case Unreadable =>
        if b.key in w.files {
          DropSum(m, Taken(w, b), b);
        } else {
          assert w.files - {b.key} == w.files;
        }
      case Unauthorized =>
      case Retry =>
    }
  }

  lemma AnswerKeeps<C(!new)>(cfg: Config<C>, w: World<C>, b: Batch<C>, outcome: Outcome)
    requires Lawful(cfg.m) && Invariant(cfg, w) && w.posting == Some(b)
    ensures Invariant(cfg, Answered(w, b, outcome))
  {
    AnswerOutgoing(w, b, outcome);
    AnswerBalanced(cfg.m, w, b, outcome);
  }

  // ---------------------------------------------------------------- all runs

  lemma StepKeeps<C(!new)>(cfg: Config<C>, w: World<C>, step: Step<C>)
    requires Lawful(cfg.m) && cfg.Valid() && Invariant(cfg, w) && Allowed(step)
    ensures Invariant(cfg, Next(cfg, w, step))
  {
    match step {
      case Event(at, k, one) => EventKeeps(cfg, w, at, k, one);
      case Tick(now, facts) => TickKeeps(cfg, w, now, facts);
      case FlushNow(disk) =>
        var bs := Batches(Groups(w.pipe.pending, cfg.maxRows));
        FlushKeeps(cfg, w, bs, disk, PutAll(w.files, bs, disk, cfg.outboxLimit), Next(cfg, w, step));
      case ListOutbox =>
        if w.posting.None? {
          KeysListed(w.files, w.handed);
          ListKeeps(cfg, w, Keys(w.files));
        }
      case ReadBatch => ReadKeeps(cfg, w);
      case Answer(outcome) =>
        if w.posting.Some? {
          AnswerKeeps(cfg, w, w.posting.value, outcome);
        }
    }
  }

  lemma {:induction false} RunKeeps<C(!new)>(cfg: Config<C>, w: World<C>, steps: seq<Step<C>>)
    requires Lawful(cfg.m) && cfg.Valid() && Invariant(cfg, w)
    requires forall i | 0 <= i < |steps| :: Allowed(steps[i])
    ensures Invariant(cfg, RunAll(cfg, w, steps))
    decreases |steps|
  {
    if steps != [] {
      StepKeeps(cfg, w, steps[0]);
      RunKeeps(cfg, Next(cfg, w, steps[0]), steps[1..]);
    }
  }

  lemma FreshInvariant<C(!new)>(cfg: Config<C>, openFrom: int)
    requires Lawful(cfg.m)
    ensures Invariant(cfg, Fresh(cfg, openFrom))
  {
    Laws(cfg.m, cfg.m.zero, cfg.m.zero, cfg.m.zero);
  }

  /** What the events among the steps count, taken on their own. */
  function CountedBy<C>(m: Monoid<C>, steps: seq<Step<C>>): C
    decreases |steps|
  {
    if steps == [] then m.zero
    else if steps[0].Event? then m.plus(steps[0].one, CountedBy(m, steps[1..]))
    else CountedBy(m, steps[1..])
  }

  lemma NextCounts<C>(cfg: Config<C>, w: World<C>, step: Step<C>)
    requires cfg.Valid()
    ensures Next(cfg, w, step).counted == if step.Event? then cfg.m.plus(w.counted, step.one) else w.counted
    ensures Next(cfg, w, step).twice == if TooLate(w, step) then w.twice + [w.posting.value] else w.twice
  {
  }

  lemma {:induction false} RunCounts<C(!new)>(cfg: Config<C>, w: World<C>, steps: seq<Step<C>>)
    requires Lawful(cfg.m) && cfg.Valid()
    ensures RunAll(cfg, w, steps).counted == cfg.m.plus(w.counted, CountedBy(cfg.m, steps))
    decreases |steps|
  {
    if steps == [] {
      Laws(cfg.m, w.counted, cfg.m.zero, cfg.m.zero);
    } else {
      NextCounts(cfg, w, steps[0]);
      RunCounts(cfg, Next(cfg, w, steps[0]), steps[1..]);
      if steps[0].Event? {
        Laws(cfg.m, w.counted, steps[0].one, CountedBy(cfg.m, steps[1..]));
      }
    }
  }

  /** From an empty node, whatever events come, whenever windows close and batches are
      written, whatever the disk refuses and the cloud answers, and however the sender's steps
      fall between: everything counted is in the open windows, the pending ones, the outbox,
      or the batches accepted, dropped or trimmed, once each; but a batch the sender was done
      with after it had been trimmed is there once more. */
  lemma EveryCountInOnePlace<C(!new)>(cfg: Config<C>, openFrom: int, steps: seq<Step<C>>)
    requires Lawful(cfg.m) && cfg.Valid() && forall i | 0 <= i < |steps| :: Allowed(steps[i])
    ensures var w := RunAll(cfg, Fresh(cfg, openFrom), steps);
            Held(cfg.m, w) == cfg.m.plus(CountedBy(cfg.m, steps), BatchSum(cfg.m, w.twice))
  {
    FreshInvariant(cfg, openFrom);
    RunKeeps(cfg, Fresh(cfg, openFrom), steps);
    RunCounts(cfg, Fresh(cfg, openFrom), steps);
    Laws(cfg.m, CountedBy(cfg.m, steps), cfg.m.zero, cfg.m.zero);
  }

  /** Every batch handed over is on disk, accepted, dropped or trimmed, and in exactly one of
      these, but for those in `twice`: they, and no others, were trimmed and also accepted or
      dropped. */
  lemma EveryBatchInOnePlace<C(!new)>(cfg: Config<C>, openFrom: int, steps: seq<Step<C>>, k: int)
    requires Lawful(cfg.m) && cfg.Valid() && forall i | 0 <= i < |steps| :: Allowed(steps[i])
    ensures var w := RunAll(cfg, Fresh(cfg, openFrom), steps);
            var f, a, d, t := k in w.files, k in KeysOf(w.accepted), k in KeysOf(w.dropped), k in KeysOf(w.trimmed);
            && (k in w.handed <==> f || a || d || t)
            && !(a && d) && !(f && (a || d || t))
            && ((a || d) && t <==> k in KeysOf(w.twice))
  {
    FreshInvariant(cfg, openFrom);
    RunKeeps(cfg, Fresh(cfg, openFrom), steps);
    var w := RunAll(cfg, Fresh(cfg, openFrom), steps);
    MembersTell(w.handed, k);
    MembersTell(KeysOf(w.accepted), k);
    MembersTell(KeysOf(w.dropped), k);
    MembersTell(KeysOf(w.trimmed), k);
    MembersTell(KeysOf(w.twice), k);
  }

  lemma MembersTell(s: seq<int>, k: int)
    ensures k in Members(s) <==> k in s
  {
  }

  /** The cloud's answer finds its batch trimmed. */
  ghost predicate TooLate<C>(w: World<C>, step: Step<C>) {
    && step.Answer? && step.outcome in {Accepted, Rejected}
    && w.posting.Some? && w.posting.value.key !in w.files
  }

  /** No batch is ever in two places exactly when no answer to a post finds its batch trimmed
      since it was read. */
  lemma {:induction false} TwiceExactly<C>(cfg: Config<C>, w: World<C>, steps: seq<Step<C>>)
    requires cfg.Valid()
    ensures w.twice <= RunAll(cfg, w, steps).twice
    ensures RunAll(cfg, w, steps).twice == w.twice
            <==> forall k | 0 <= k < |steps| :: !TooLate(RunAll(cfg, w, steps[..k]), steps[k])
    decreases |steps|
  {
    if steps != [] {
      var v, rest := Next(cfg, w, steps[0]), steps[1..];
      TwiceExactly(cfg, v, rest);
      LateNext(cfg, w, steps);
      NextCounts(cfg, w, steps[0]);
    }
  }

  lemma LateNext<C>(cfg: Config<C>, w: World<C>, steps: seq<Step<C>>)
    requires cfg.Valid() && steps != []
    ensures (forall k | 0 <= k < |steps| :: !TooLate(RunAll(cfg, w, steps[..k]), steps[k]))
            <==> !TooLate(w, steps[0])
                 && forall k | 0 <= k < |steps[1..]| ::
                     !TooLate(RunAll(cfg, Next(cfg, w, steps[0]), steps[1..][..k]), steps[1..][k])
  {
    var v, rest := Next(cfg, w, steps[0]), steps[1..];
    assert steps[..0] == [] && RunAll(cfg, w, []) == w;
    forall k | 0 <= k < |rest|
      ensures RunAll(cfg, w, steps[..k + 1]) == RunAll(cfg, v, rest[..k]) && steps[k + 1] == rest[k]
    {
      assert steps[..k + 1][1..] == rest[..k];
    }
    if forall k | 0 <= k < |steps| :: !TooLate(RunAll(cfg, w, steps[..k]), steps[k]) {
      assert !TooLate(RunAll(cfg, w, steps[..0]), steps[0]);
      forall k | 0 <= k < |rest|
        ensures !TooLate(RunAll(cfg, v, rest[..k]), rest[k])
      {
        assert !TooLate(RunAll(cfg, w, steps[..k + 1]), steps[k + 1]);
      }
    }
    if !TooLate(w, steps[0]) && forall k | 0 <= k < |rest| :: !TooLate(RunAll(cfg, v, rest[..k]), rest[k]) {
      forall k | 0 <= k < |steps|
        ensures !TooLate(RunAll(cfg, w, steps[..k]), steps[k])
      {
        if k > 0 {
          assert RunAll(cfg, w, steps[..k - 1 + 1]) == RunAll(cfg, v, rest[..k - 1]);
        }
      }
    }
  }

  /** In such a run no batch key is used twice, and the cloud accepts batches strictly in
      the order of their first windows. */
  lemma KeysNeverRepeat<C(!new)>(cfg: Config<C>, openFrom: int, steps: seq<Step<C>>)
    requires Lawful(cfg.m) && cfg.Valid() && forall i | 0 <= i < |steps| :: Allowed(steps[i])
    ensures var w := RunAll(cfg, Fresh(cfg, openFrom), steps);
            RisingKeys(w.handed) && RisingKeys(KeysOf(w.accepted))
  {
    FreshInvariant(cfg, openFrom);
    RunKeeps(cfg, Fresh(cfg, openFrom), steps);
  }
}
