/** The aggregate pipeline of internal/aggregate/aggregator.go as a state machine: events
    into open windows, windows into pending rows, pending rows into batches on disk,
    batches to the cloud. Over every run, whatever the disk refuses and the cloud
    answers, the totals balance (PipelineRuns). */
module Pipeline {
  import opened Wrappers
  import opened Ordering
  import opened Sequences
  import opened Sums
  import opened Counters
  import opened Folding
  import opened Packing
  import opened Outbox

  const GRACE := 10 * 1_000_000_000

  datatype Open<C> = Open(rows: map<Key, C>, overflow: Option<C>)

  datatype Config<!C> = Config(
    m: Monoid<C>, lt: (Entry<C>, Entry<C>) -> bool, liveLimit: nat, maxRows: nat, outboxLimit: nat)
  {
    ghost predicate Valid() {
      0 < maxRows && 0 < liveLimit
    }
  }

  datatype Pipe<C> = Pipe(windows: map<int, Open<C>>, openFrom: int, pending: seq<Closed<C>>)

  // ---------------------------------------------------------------- counting

  /** The start of the window a moment lies in. */
  function Truncate(t: int): int {
    t - t % WINDOW_LENGTH
  }

  /** A late event lands in the oldest open window: a window that went out must not change. */
  function StartFor(openFrom: int, at: int): int {
    if Truncate(at) < openFrom then openFrom else Truncate(at)
  }

  function WindowAt<C>(windows: map<int, Open<C>>, start: int): Open<C> {
    if start in windows then windows[start] else Open(map[], None)
  }

  function Grown<C>(cfg: Config<C>, w: Open<C>, k: Key, one: C): Open<C> {
    var (rows, overflow) := Added(cfg.m, cfg.liveLimit, w.rows, w.overflow, k, one);
    Open(rows, overflow)
  }

  function AddEvent<C>(cfg: Config<C>, s: Pipe<C>, at: int, k: Key, one: C): Pipe<C> {
    var start := StartFor(s.openFrom, at);
    s.(windows := s.windows[start := Grown(cfg, WindowAt(s.windows, start), k, one)])
  }

  // ---------------------------------------------------------------- closing

  ghost function CloseOne<C>(cfg: Config<C>, start: int, w: Open<C>, facts: int): seq<Closed<C>>
    requires cfg.Valid()
  {
    var rows := CloseOf(cfg.m, cfg.lt, start, w.rows, w.overflow, cfg.maxRows);
    if rows == [] then [] else [Closed(start, facts, rows)]
  }

  ghost function CloseAll<C>(cfg: Config<C>, windows: map<int, Open<C>>, starts: seq<int>,
                             facts: int -> int): seq<Closed<C>>
    requires cfg.Valid()
  {
    if starts == [] then []
    else
      var n := |starts| - 1;
      CloseAll(cfg, windows, starts[..n], facts)
        + CloseOne(cfg, starts[n], WindowAt(windows, starts[n]), facts(starts[n]))
  }

  function Later(openFrom: int, now: int): int {
    if Truncate(now - GRACE) > openFrom then Truncate(now - GRACE) else openFrom
  }

  ghost function Ending<C>(windows: map<int, Open<C>>, openFrom: int): set<int> {
    set k | k in windows && k < openFrom
  }

  /** Every window that ended more than the grace ago becomes pending, oldest first. */
  ghost function CloseWindows<C>(cfg: Config<C>, s: Pipe<C>, now: int, facts: int -> int): Pipe<C>
    requires cfg.Valid()
  {
    var openFrom := Later(s.openFrom, now);
    var ending := Ending(s.windows, openFrom);
    Pipe(s.windows - ending, openFrom, s.pending + CloseAll(cfg, s.windows, InOrder(Earlier, ending), facts))
  }

  // ---------------------------------------------------------------- flushing

  /** What a run of writes left on disk, what it trimmed away, and how many went through. */
  datatype Written<C> = Written(files: Files<C>, trimmed: seq<Batch<C>>, n: nat)

  /** Writes batches in order until one is refused. */
  ghost function PutAll<C>(files: Files<C>, bs: seq<Batch<C>>, disk: int -> Disk, limit: nat): (w: Written<C>)
    ensures w.n <= |bs|
    decreases |bs|
  {
    if bs == [] || !Put(files, bs[0], disk(bs[0].key), limit).1 then Written(files, [], 0)
    else
      var rest := PutAll(Put(files, bs[0], disk(bs[0].key), limit).0, bs[1..], disk, limit);
      Written(rest.files, Trimmed(files, bs[0], limit) + rest.trimmed, rest.n + 1)
  }

  /** The batches a successful write of `b` throws away. */
  ghost function Trimmed<C>(files: Files<C>, b: Batch<C>, limit: nat): seq<Batch<C>> {
    if b.key in files then []
    else
      var stored := files[b.key := b];
      var ids := Keys(stored)[..Excess(|Keys(stored)|, limit)];
      seq(|ids|, i requires 0 <= i < |ids| => if ids[i] in stored then stored[ids[i]] else b)
  }

  /** Drops windows from the front while rows are owed. */
  function DropRows<C>(pending: seq<Closed<C>>, done: int): seq<Closed<C>> {
    if done > 0 && pending != [] then DropRows(pending[1..], done - |pending[0].rows|) else pending
  }

  /** The batches of a packing. */
  function Batches<C>(gs: seq<Group<C>>): (bs: seq<Batch<C>>)
    ensures |bs| == |gs|
  {
    seq(|gs|, i requires 0 <= i < |gs| => if gs[i] == [] then Batch(0, 0, []) else BatchOf(gs[i]))
  }

  ghost function FlushTo<C>(cfg: Config<C>, s: Pipe<C>, files: Files<C>, disk: int -> Disk): Written<C> {
    PutAll(files, Batches(Groups(s.pending, cfg.maxRows)), disk, cfg.outboxLimit)
  }

  /** The windows left when the first `n` batches were stored. */
  function Left<C>(cfg: Config<C>, pending: seq<Closed<C>>, n: nat): seq<Closed<C>> {
    var gs := Groups(pending, cfg.maxRows);
    DropRows(pending, |RowsIn(Flatten(if n <= |gs| then gs[..n] else gs))|)
  }

  // ---------------------------------------------------------------- the whole node

  /** The pipeline with its outbox and its sender: what became of the batches that left the
      outbox, the list the sender is going through and the batch it has in hand, the keys
      ever handed over, and the sum of all events counted so far. `twice` are the batches
      the sender was done with only after they had been trimmed. */
  datatype World<C> = World(
    pipe: Pipe<C>, files: Files<C>,
    accepted: seq<Batch<C>>, dropped: seq<Batch<C>>, trimmed: seq<Batch<C>>, twice: seq<Batch<C>>,
    ids: seq<int>, posting: Option<Batch<C>>, handed: seq<int>, failures: nat, counted: C)

  /** The outbox is locked for a listing, a reading or a removal, and not while a batch is
      posted: a flush can come between any two steps of the sender. */
  datatype Step<!C> =
    | Event(at: int, key: Key, one: C)
    | Tick(now: int, facts: int -> int)
    | FlushNow(disk: int -> Disk)
    | ListOutbox
    | ReadBatch
    | Answer(outcome: Outcome)

  ghost function Next<C>(cfg: Config<C>, w: World<C>, step: Step<C>): World<C>
    requires cfg.Valid()
  {
    match step
    case Event(at, k, one) => AfterEvent(cfg, w, at, k, one)
    case Tick(now, facts) => w.(pipe := CloseWindows(cfg, w.pipe, now, facts))
    case FlushNow(disk) => AfterFlush(cfg, w, FlushTo(cfg, w.pipe, w.files, disk))
    case ListOutbox => if w.posting.Some? then w else w.(ids := Keys(w.files))
    case ReadBatch => AfterRead(w)
    case Answer(outcome) => if w.posting.None? then w else Answered(w, w.posting.value, outcome)
  }

  ghost function AfterEvent<C>(cfg: Config<C>, w: World<C>, at: int, k: Key, one: C): World<C> {
    w.(pipe := AddEvent(cfg, w.pipe, at, k, one), counted := cfg.m.plus(w.counted, one))
  }

  /** The windows of the batches stored are no longer pending. */
  ghost function AfterFlush<C>(cfg: Config<C>, w: World<C>, f: Written<C>): World<C> {
    w.(pipe := w.pipe.(pending := Left(cfg, w.pipe.pending, f.n)), files := f.files, trimmed := w.trimmed + f.trimmed,
       handed := w.handed + StoredKeys(cfg, w.pipe.pending, f.n))
  }

  /** The keys of the first `n` batches of what is pending. */
  function StoredKeys<C>(cfg: Config<C>, pending: seq<Closed<C>>, n: nat): seq<int> {
    var bs := Batches(Groups(pending, cfg.maxRows));
    KeysOf(if n <= |bs| then bs[..n] else bs)
  }

  function AfterRead<C>(w: World<C>): World<C> {
    if w.posting.Some? || w.ids == [] then w
    else if w.ids[0] in w.files then w.(posting := Some(w.files[w.ids[0]]))
    else w.(ids := w.ids[1..])  // trimmed while the sender was busy
  }

  function Rest(ids: seq<int>): seq<int> {
    if ids == [] then [] else ids[1..]
  }

  /** The sender is done with the batch, or gives up for now. */
  function Answered<C>(w: World<C>, b: Batch<C>, outcome: Outcome): World<C> {
    match outcome
    case Accepted => Taken(w, b).(accepted := w.accepted + [b], failures := 0)
    case Rejected => Taken(w, b).(dropped := w.dropped + [b], failures := 0)
    case Unreadable =>
      if b.key in w.files then Taken(w, b).(dropped := w.dropped + [b]) else Taken(w, b).(twice := w.twice)
    case Unauthorized => w.(posting := None, ids := [])
    case Retry => w.(posting := None, ids := [], failures := Bumped(w.failures))
  }

  function Taken<C>(w: World<C>, b: Batch<C>): World<C> {
    w.(posting := None, ids := Rest(w.ids), files := w.files - {b.key},
       twice := if b.key in w.files then w.twice else w.twice + [b])
  }

  function KeysOf<C>(bs: seq<Batch<C>>): (ks: seq<int>)
    ensures |ks| == |bs|
  {
    seq(|bs|, i requires 0 <= i < |bs| => bs[i].key)
  }

  function Fresh<C>(cfg: Config<C>, openFrom: int): World<C> {
    World(Pipe(map[], openFrom, []), map[], [], [], [], [], [], None, [], 0, cfg.m.zero)
  }

  ghost function RunAll<C>(cfg: Config<C>, w: World<C>, steps: seq<Step<C>>): World<C>
    requires cfg.Valid()
    decreases |steps|
  {
    if steps == [] then w else RunAll(cfg, Next(cfg, w, steps[0]), steps[1..])
  }
}
