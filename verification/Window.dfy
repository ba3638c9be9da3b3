/** One open five-minute window of internal/aggregate/window.go. */
module Windows {
  import opened Wrappers
  import opened Ordering
  import opened Sequences
  import opened Sums
  import opened Counters
  import opened Folding
  import Facts

  /** The largest first; equal ones by key. */
  predicate EntryLess(a: Entry<Counts>, b: Entry<Counts>) {
    if a.c.requests != b.c.requests then a.c.requests > b.c.requests else KeyLess(a.key, b.key)
  }

  lemma EntryLessTotal(rows: map<Key, Counts>)
    ensures StrictTotalOn(EntryLess, EntriesOf(rows))
  {
    var dom := EntriesOf(rows);
    forall x | x in dom
      ensures !EntryLess(x, x)
    {
      KeyLessTrichotomy(x.key, x.key);
    }
    forall x, y | x in dom && y in dom && x != y
      ensures EntryLess(x, y) != EntryLess(y, x)
    {
      assert x.key != y.key;
      KeyLessTrichotomy(x.key, y.key);
    }
    forall x, y, z | x in dom && y in dom && z in dom && EntryLess(x, y) && EntryLess(y, z)
      ensures EntryLess(x, z)
    {
      if x.c.requests == y.c.requests == z.c.requests {
        KeyLessTransitive(x.key, y.key, z.key);
      }
    }
  }

  /** More requests, or as many and the lesser key. */
  predicate Heavier(k: Key, c: Counts, l: Key, d: Counts) {
    c.requests > d.requests || (c.requests == d.requests && KeyLess(k, l))
  }

  ghost predicate HasRow<C>(out: seq<Row<C>>, k: Key) {
    exists i | 0 <= i < |out| :: out[i].key == k
  }

  lemma SortedHeavier(rows: map<Key, Counts>, entries: seq<Entry<Counts>>, i: nat, j: nat)
    requires Ascending(EntryLess, entries) && Members(entries) == EntriesOf(rows) && Distinct(entries)
    requires StrictTotalOn(EntryLess, EntriesOf(rows)) && i < j < |entries|
    ensures Heavier(entries[i].key, entries[i].c, entries[j].key, entries[j].c)
  {
    assert entries[i] in Members(entries) && entries[j] in Members(entries);
    assert !EntryLess(entries[j], entries[i]) && entries[i] != entries[j];
  }

  /** Laid out by falling number of requests, equal ones by key. */
  ghost predicate Falling(entries: seq<Entry<Counts>>) {
    && (forall i | 0 <= i < |entries| :: entries[i].key != REST_KEY)
    && forall i, j | 0 <= i < j < |entries| :: Heavier(entries[i].key, entries[i].c, entries[j].key, entries[j].c)
  }

  lemma RowsFall(start: int, entries: seq<Entry<Counts>>, overflow: Option<Counts>, maxRows: nat)
    requires maxRows > 0 && Falling(entries)
    ensures var out := CloseRows(MERGE, start, entries, overflow, maxRows);
            forall i, j | 0 <= i < j < |out| && out[j].key != REST_KEY ::
              Heavier(out[i].key, out[i].c, out[j].key, out[j].c)
  {
    var keep := Keep(|entries|, overflow.Some?, maxRows);
    var out := CloseRows(MERGE, start, entries, overflow, maxRows);
    assert forall i | 0 <= i < keep :: out[i].key == entries[i].key && out[i].c == entries[i].c;
    assert forall i | keep <= i < |out| :: out[i].key == REST_KEY;
  }

  lemma KeptHasRow(start: int, entries: seq<Entry<Counts>>, overflow: Option<Counts>, maxRows: nat, l: nat)
    requires maxRows > 0 && l < Keep(|entries|, overflow.Some?, maxRows)
    ensures HasRow(CloseRows(MERGE, start, entries, overflow, maxRows), entries[l].key)
  {
    assert CloseRows(MERGE, start, entries, overflow, maxRows)[l].key == entries[l].key;
  }

  lemma FoldedAreLighter(start: int, entries: seq<Entry<Counts>>, overflow: Option<Counts>, maxRows: nat, l: nat)
    requires maxRows > 0 && Falling(entries) && l < |entries|
    requires !HasRow(CloseRows(MERGE, start, entries, overflow, maxRows), entries[l].key)
    ensures var out := CloseRows(MERGE, start, entries, overflow, maxRows);
            forall i | 0 <= i < |out| && out[i].key != REST_KEY ::
              Heavier(out[i].key, out[i].c, entries[l].key, entries[l].c)
  {
    var keep := Keep(|entries|, overflow.Some?, maxRows);
    var out := CloseRows(MERGE, start, entries, overflow, maxRows);
    assert forall i | 0 <= i < keep :: out[i].key == entries[i].key && out[i].c == entries[i].c;
    assert forall i | keep <= i < |out| :: out[i].key == REST_KEY;
    if l < keep {
      KeptHasRow(start, entries, overflow, maxRows, l);
      assert false;
    }
  }

  /** The rows of a window are laid out by falling number of requests, equal ones by key,
      and a key is folded only behind every key that keeps its row. */
  lemma LargestFirst(start: int, rows: map<Key, Counts>, overflow: Option<Counts>, maxRows: nat)
    requires maxRows > 0 && REST_KEY !in rows
    ensures var out := CloseOf(MERGE, EntryLess, start, rows, overflow, maxRows);
            && (forall i, j | 0 <= i < j < |out| && out[j].key != REST_KEY ::
                  Heavier(out[i].key, out[i].c, out[j].key, out[j].c))
            && (forall i, l | 0 <= i < |out| && out[i].key != REST_KEY && l in rows && !HasRow(out, l) ::
                  Heavier(out[i].key, out[i].c, l, rows[l]))
  {
    var entries := FallingEntries(rows);
    RowsFall(start, entries, overflow, maxRows);
    var out := CloseRows(MERGE, start, entries, overflow, maxRows);
    forall i, l | 0 <= i < |out| && out[i].key != REST_KEY && l in rows && !HasRow(out, l)
      ensures Heavier(out[i].key, out[i].c, l, rows[l])
    {
      var j := Find(entries, Entry(l, rows[l]));
      FoldedAreLighter(start, entries, overflow, maxRows, j);
    }
  }

  lemma FallingEntries(rows: map<Key, Counts>) returns (entries: seq<Entry<Counts>>)
    requires REST_KEY !in rows
    ensures entries == InOrder(EntryLess, EntriesOf(rows))
    ensures Falling(entries) && Members(entries) == EntriesOf(rows)
  {
    entries := InOrder(EntryLess, EntriesOf(rows));
    EntryLessTotal(rows);
    SortedListing(EntryLess, EntriesOf(rows), Listing(EntriesOf(rows)));
    ListingDistinct(entries, EntriesOf(rows));
    forall i | 0 <= i < |entries|
      ensures entries[i].key != REST_KEY
    {
      assert entries[i] in Members(entries);
    }
    forall i, j | 0 <= i < j < |entries|
      ensures Heavier(entries[i].key, entries[i].c, entries[j].key, entries[j].c)
    {
      SortedHeavier(rows, entries, i, j);
    }
  }

  class Window {
    const start: int
    const liveLimit: nat
    const maxRows: nat
    var rows: map<Key, Counts>
    var overflow: Option<Counts>

    constructor (start: int, liveLimit: nat, maxRows: nat)
      ensures this.start == start && this.liveLimit == liveLimit && this.maxRows == maxRows
      ensures rows == map[] && overflow == None
    {
      this.start, this.liveLimit, this.maxRows := start, liveLimit, maxRows;
      rows, overflow := map[], None;
    }

    /** Counts one event; past the live limit a new key goes to the overflow row. */
    method Add(env: Env, k: Key, r: Facts.Request)
      modifies this
      ensures (rows, overflow) == Added(MERGE, liveLimit, old(rows), old(overflow), k, One(env, r))
    {
      AddIsMerge(env, OrZero(MERGE, overflow), r);
      AddIsMerge(env, if k in rows then rows[k] else ZERO, r);
      if k !in rows {
        if |rows| >= liveLimit {
          if overflow == None {
            overflow := Some(ZERO);
          }
          overflow := Some(overflow.value.Add(env, r));
          return;
        }
        rows := rows[k := ZERO];
      }
      rows := rows[k := rows[k].Add(env, r)];
      assert rows == old(rows)[k := rows[k]];
    }

    /** The rows of the window: the largest first, the smallest past the bound in one. */
    method Close() returns (out: seq<Row<Counts>>)
      requires maxRows > 0
      ensures out == CloseOf(MERGE, EntryLess, start, rows, overflow, maxRows)
    {
      var listing := Collect(set k | k in rows :: Entry(k, rows[k]));
      EntryLessTotal(rows);
      SortedListing(EntryLess, EntriesOf(rows), listing);
      out := Lay(Sort(EntryLess, listing));
    }

    /** Keeps, folds and lays out the sorted entries. */
    method Lay(entries: seq<Entry<Counts>>) returns (out: seq<Row<Counts>>)
      requires maxRows > 0
      ensures out == CloseRows(MERGE, start, entries, overflow, maxRows)
    {
      var folded := overflow;
      var keep := |entries|;
      if keep > maxRows || (keep == maxRows && folded != None) {
        keep := maxRows - 1;
      }
      if keep < |entries| {
        folded := Fold(entries[keep..], folded);
      }
      out := [];
      for i := 0 to keep
        invariant out == RowsOf(start, entries[..i])
      {
        out := out + [Row(start, entries[i].key, entries[i].c)];
      }
      if folded != None {
        out := out + [Row(start, REST_KEY, folded.value)];
      }
    }

    /** Merges the smallest entries into the folded row. */
    static method Fold(tail: seq<Entry<Counts>>, overflow: Option<Counts>) returns (folded: Option<Counts>)
      requires tail != []
      ensures folded == Folded(MERGE, tail, overflow)
    {
      MergeLawful();
      var sum := if overflow == None then ZERO else overflow.value;
      ghost var base := sum;
      Laws(MERGE, base, base, base);
      for i := 0 to |tail|
        invariant sum == MERGE.plus(base, SeqSum(MERGE, tail[..i], EntryCounts))
      {
        SumNext(MERGE, tail, i, base);
        sum := sum.Merge(tail[i].c);
      }
      assert tail[..|tail|] == tail;
      folded := Some(sum);
    }
  }

  lemma SumNext<C(!new)>(m: Monoid<C>, tail: seq<Entry<C>>, i: nat, base: C)
    requires Lawful(m) && i < |tail|
    ensures m.plus(m.plus(base, SeqSum(m, tail[..i], EntryCounts)), tail[i].c)
            == m.plus(base, SeqSum(m, tail[..i + 1], EntryCounts))
  {
    assert tail[..i + 1][..i] == tail[..i];
    Laws(m, base, SeqSum(m, tail[..i], EntryCounts), tail[i].c);
  }

  // ---------------------------------------------------------------- whole windows

  /** Rows and overflow after a run of events, in order. */
  function AddAll<C>(m: Monoid<C>, liveLimit: nat, events: seq<(Key, C)>): (map<Key, C>, Option<C>) {
    if events == [] then (map[], None)
    else
      var n := |events| - 1;
      var (rows, overflow) := AddAll(m, liveLimit, events[..n]);
      Added(m, liveLimit, rows, overflow, events[n].0, events[n].1)
  }

  function Payload<C>(e: (Key, C)): C { e.1 }

  /** Whatever the events and their keys, the rows of the closed window count exactly
      those events. */
  lemma {:induction false} WindowConserves<C(!new)>(m: Monoid<C>, lt: (Entry<C>, Entry<C>) -> bool, liveLimit: nat,
                                                    maxRows: nat, start: int, events: seq<(Key, C)>)
    requires Lawful(m) && maxRows > 0
    ensures var (rows, overflow) := AddAll(m, liveLimit, events);
            && Total(m, rows, overflow) == SeqSum(m, events, Payload)
            && SeqSum(m, CloseOf(m, lt, start, rows, overflow, maxRows), RowCounts) == SeqSum(m, events, Payload)
  {
    var (rows, overflow) := AddAll(m, liveLimit, events);
    CloseConserves(m, lt, start, rows, overflow, maxRows);
    if events == [] {
      Laws(m, m.zero, m.zero, m.zero);
    } else {
      var n := |events| - 1;
      var (rows0, overflow0) := AddAll(m, liveLimit, events[..n]);
      WindowConserves(m, lt, liveLimit, maxRows, start, events[..n]);
      AddConserves(m, liveLimit, rows0, overflow0, events[n].0, events[n].1);
    }
  }

  /** The keys of a list of events. */
  function KeysIn<C>(events: seq<(Key, C)>): set<Key> {
    set i | 0 <= i < |events| :: events[i].0
  }

  /** The events with a key among these. */
  ghost function Under<C>(events: seq<(Key, C)>, keys: set<Key>): seq<(Key, C)> {
    if events == [] then []
    else
      var n := |events| - 1;
      Under(events[..n], keys) + if events[n].0 in keys then [events[n]] else []
  }

  /** The events with a key not among these. */
  ghost function Beside<C>(events: seq<(Key, C)>, keys: set<Key>): seq<(Key, C)> {
    if events == [] then []
    else
      var n := |events| - 1;
      Beside(events[..n], keys) + if events[n].0 in keys then [] else [events[n]]
  }

  /** The key came while fewer keys than the limit had come. */
  ghost predicate Early<C>(liveLimit: nat, events: seq<(Key, C)>, k: Key) {
    exists i | 0 <= i < |events| :: events[i].0 == k && |KeysIn(events[..i])| < liveLimit
  }

  ghost predicate OwnCounts<C>(m: Monoid<C>, events: seq<(Key, C)>, rows: map<Key, C>) {
    forall k | k in rows :: rows[k] == SeqSum(m, Under(events, {k}), Payload)
  }

  ghost function RestCount<C>(m: Monoid<C>, events: seq<(Key, C)>, keys: set<Key>): Option<C> {
    if Beside(events, keys) == [] then None else Some(SeqSum(m, Beside(events, keys), Payload))
  }

  /** The first `liveLimit` keys have a row, with exactly the events of the key; the events of
      all others are in the overflow. */
  ghost predicate RowByRow<C>(m: Monoid<C>, liveLimit: nat, events: seq<(Key, C)>, rows: map<Key, C>,
                              overflow: Option<C>) {
    && (forall k :: k in rows <==> Early(liveLimit, events, k))
    && OwnCounts(m, events, rows) && overflow == RestCount(m, events, rows.Keys)
  }

  lemma UnderNone<C>(events: seq<(Key, C)>, k: Key)
    requires k !in KeysIn(events)
    ensures Under(events, {k}) == []
  {
    if events != [] {
      KeysNext(events);
      UnderNone(events[..|events| - 1], k);
    }
  }

  lemma BesideMore<C>(events: seq<(Key, C)>, keys: set<Key>, k: Key)
    requires k !in KeysIn(events)
    ensures Beside(events, keys + {k}) == Beside(events, keys)
  {
    if events != [] {
      KeysNext(events);
      BesideMore(events[..|events| - 1], keys, k);
    }
  }

  lemma KeysNext<C>(events: seq<(Key, C)>)
    requires events != []
    ensures var n := |events| - 1;
            && KeysIn(events) == KeysIn(events[..n]) + {events[n].0}
            && |KeysIn(events)| == |KeysIn(events[..n])| + if events[n].0 in KeysIn(events[..n]) then 0 else 1
  {
    var n := |events| - 1;
    forall k
      ensures k in KeysIn(events) <==> k in KeysIn(events[..n]) + {events[n].0}
    {
      if k in KeysIn(events) {
        var i :| 0 <= i < |events| && events[i].0 == k;
        assert i < n ==> events[..n][i].0 == k;
      }
      if k in KeysIn(events[..n]) {
        var i :| 0 <= i < n && events[..n][i].0 == k;
        assert events[i].0 == k;
      }
    }
    assert KeysIn(events) == KeysIn(events[..n]) + {events[n].0};
  }

  /** As many rows as keys, up to the limit. */
  ghost predicate Admits<C>(liveLimit: nat, events: seq<(Key, C)>, rows: map<Key, C>) {
    && rows.Keys <= KeysIn(events)
    && if |KeysIn(events)| <= liveLimit then rows.Keys == KeysIn(events) else |rows| == liveLimit
  }

  lemma {:induction false} RowsAdmit<C>(m: Monoid<C>, liveLimit: nat, events: seq<(Key, C)>)
    ensures Admits(liveLimit, events, AddAll(m, liveLimit, events).0)
  {
    if events != [] {
      var n := |events| - 1;
      RowsAdmit(m, liveLimit, events[..n]);
      KeysNext(events);
      var rows := AddAll(m, liveLimit, events[..n]).0;
      AdmitsNext(liveLimit, events, rows, AddAll(m, liveLimit, events).0);
    }
  }

  lemma AdmitsNext<C>(liveLimit: nat, events: seq<(Key, C)>, rows: map<Key, C>, next: map<Key, C>)
    requires events != [] && Admits(liveLimit, events[..|events| - 1], rows)
    requires var k := events[|events| - 1].0;
             next.Keys == if k !in rows && |rows| >= liveLimit then rows.Keys else rows.Keys + {k}
    ensures Admits(liveLimit, events, next)
  {
    var init, k := events[..|events| - 1], events[|events| - 1].0;
    KeysNext(events);
    assert |rows.Keys| == |rows| && |next.Keys| == |next|;
    if k in rows {
      assert next.Keys == rows.Keys;
    } else if |rows| < liveLimit {
      assert |next.Keys| == |rows.Keys| + 1;
    } else if |KeysIn(init)| <= liveLimit {
      assert k !in KeysIn(init);
    }
  }

  /** Whatever the events and their keys, each of the first `liveLimit` keys is counted in a
      row of its own, exactly, and all other events are counted past the limit. */
  lemma {:induction false} RowsExact<C>(m: Monoid<C>, liveLimit: nat, events: seq<(Key, C)>)
    ensures var (rows, overflow) := AddAll(m, liveLimit, events);
            RowByRow(m, liveLimit, events, rows, overflow)
  {
    if events != [] {
      var n := |events| - 1;
      var (rows, overflow) := AddAll(m, liveLimit, events[..n]);
      RowsExact(m, liveLimit, events[..n]);
      RowsAdmit(m, liveLimit, events[..n]);
      RowsNext(m, liveLimit, events, rows, overflow);
    }
  }

  lemma RowsNext<C>(m: Monoid<C>, liveLimit: nat, events: seq<(Key, C)>, rows: map<Key, C>, overflow: Option<C>)
    requires events != [] && RowByRow(m, liveLimit, events[..|events| - 1], rows, overflow)
    requires Admits(liveLimit, events[..|events| - 1], rows)
    ensures var e := events[|events| - 1];
            var (rows', overflow') := Added(m, liveLimit, rows, overflow, e.0, e.1);
            RowByRow(m, liveLimit, events, rows', overflow')
  {
    var (k, one) := events[|events| - 1];
    if k !in rows && |rows| >= liveLimit {
      RowKeysNext(liveLimit, events, rows, rows);
      RestNext(m, events, rows.Keys);
      OwnStays(m, events, rows);
    } else {
      RowGrows(m, liveLimit, events, rows, rows[k := m.plus(if k in rows then rows[k] else m.zero, one)], overflow);
    }
  }

  lemma RowGrows<C>(m: Monoid<C>, liveLimit: nat, events: seq<(Key, C)>, rows: map<Key, C>, next: map<Key, C>,
                    overflow: Option<C>)
    requires events != [] && RowByRow(m, liveLimit, events[..|events| - 1], rows, overflow)
    requires Admits(liveLimit, events[..|events| - 1], rows)
    requires var (k, one) := events[|events| - 1];
             && (k in rows || |rows| < liveLimit)
             && next == rows[k := m.plus(if k in rows then rows[k] else m.zero, one)]
    ensures RowByRow(m, liveLimit, events, next, overflow)
  {
    assert next.Keys == rows.Keys + {events[|events| - 1].0};
    RowKeysNext(liveLimit, events, rows, next);
    if events[|events| - 1].0 !in rows {
      NewKey(liveLimit, events, rows);
    }
    OwnNext(m, events, rows);
    RestKept(m, events, rows.Keys, next.Keys);
  }

  lemma RestKept<C>(m: Monoid<C>, events: seq<(Key, C)>, keys: set<Key>, more: set<Key>)
    requires events != [] && more == keys + {events[|events| - 1].0}
    requires var n := |events| - 1; events[n].0 in keys || events[n].0 !in KeysIn(events[..n])
    ensures RestCount(m, events, more) == RestCount(m, events[..|events| - 1], keys)
  {
    var n := |events| - 1;
    RestStays(m, events, more);
    if events[n].0 in keys {
      assert more == keys;
    } else {
      BesideMore(events[..n], keys, events[n].0);
    }
  }

  lemma NewKey<C>(liveLimit: nat, events: seq<(Key, C)>, rows: map<Key, C>)
    requires events != [] && Admits(liveLimit, events[..|events| - 1], rows)
    requires events[|events| - 1].0 !in rows && |rows| < liveLimit
    ensures events[|events| - 1].0 !in KeysIn(events[..|events| - 1])
  {
  }

  lemma PayloadNext<C>(m: Monoid<C>, events: seq<(Key, C)>, e: (Key, C))
    ensures SeqSum(m, events + [e], Payload) == m.plus(SeqSum(m, events, Payload), e.1)
  {
    PushInit(events, e);
  }

  lemma RestNext<C>(m: Monoid<C>, events: seq<(Key, C)>, keys: set<Key>)
    requires events != [] && events[|events| - 1].0 !in keys
    ensures var n := |events| - 1;
            RestCount(m, events, keys) == Some(m.plus(OrZero(m, RestCount(m, events[..n], keys)), events[n].1))
  {
    var n := |events| - 1;
    PayloadNext(m, Beside(events[..n], keys), events[n]);
  }

  lemma RestStays<C>(m: Monoid<C>, events: seq<(Key, C)>, keys: set<Key>)
    requires events != [] && events[|events| - 1].0 in keys
    ensures RestCount(m, events, keys) == RestCount(m, events[..|events| - 1], keys)
  {
    var init := events[..|events| - 1];
    assert Beside(events, keys) == Beside(init, keys) + [];
    AppendNothing(Beside(init, keys), []);
  }

  lemma OwnStays<C>(m: Monoid<C>, events: seq<(Key, C)>, rows: map<Key, C>)
    requires events != [] && events[|events| - 1].0 !in rows && OwnCounts(m, events[..|events| - 1], rows)
    ensures OwnCounts(m, events, rows)
  {
    forall k | k in rows
      ensures rows[k] == SeqSum(m, Under(events, {k}), Payload)
    {
      UnderOther(events, k);
    }
  }

  lemma UnderOther<C>(events: seq<(Key, C)>, k: Key)
    requires events != [] && events[|events| - 1].0 != k
    ensures Under(events, {k}) == Under(events[..|events| - 1], {k})
  {
    AppendNothing(Under(events[..|events| - 1], {k}), []);
  }

  lemma OwnNext<C>(m: Monoid<C>, events: seq<(Key, C)>, rows: map<Key, C>)
    requires events != [] && OwnCounts(m, events[..|events| - 1], rows)
    requires var n := |events| - 1; events[n].0 in rows || events[n].0 !in KeysIn(events[..n])
    ensures var (k, one) := events[|events| - 1];
            OwnCounts(m, events, rows[k := m.plus(if k in rows then rows[k] else m.zero, one)])
  {
    var n := |events| - 1;
    var (k, one) := events[n];
    var next := rows[k := m.plus(if k in rows then rows[k] else m.zero, one)];
    forall l | l in next
      ensures next[l] == SeqSum(m, Under(events, {l}), Payload)
    {
      if l == k {
        PayloadNext(m, Under(events[..n], {k}), events[n]);
        if k !in rows {
          UnderNone(events[..n], k);
        }
      } else {
        UnderOther(events, l);
      }
    }
  }

  lemma EarlyNext<C>(liveLimit: nat, events: seq<(Key, C)>, k: Key)
    requires events != []
    ensures var n := |events| - 1;
            Early(liveLimit, events, k)
            <==> Early(liveLimit, events[..n], k) || (events[n].0 == k && |KeysIn(events[..n])| < liveLimit)
  {
    var n := |events| - 1;
    var init := events[..n];
    assert forall i | 0 <= i < n :: init[i] == events[i] && init[..i] == events[..i];
    if Early(liveLimit, init, k) {
      var i :| 0 <= i < |init| && init[i].0 == k && |KeysIn(init[..i])| < liveLimit;
      assert events[i].0 == k && |KeysIn(events[..i])| < liveLimit;
    }
    if Early(liveLimit, events, k) {
      var i :| 0 <= i < |events| && events[i].0 == k && |KeysIn(events[..i])| < liveLimit;
      assert i < n ==> init[i].0 == k && |KeysIn(init[..i])| < liveLimit;
    }
  }

  lemma RowKeysNext<C>(liveLimit: nat, events: seq<(Key, C)>, rows: map<Key, C>, next: map<Key, C>)
    requires events != [] && Admits(liveLimit, events[..|events| - 1], rows)
    requires forall k :: k in rows <==> Early(liveLimit, events[..|events| - 1], k)
    requires var k := events[|events| - 1].0;
             next.Keys == if k !in rows && |rows| >= liveLimit then rows.Keys else rows.Keys + {k}
    ensures forall k :: k in next <==> Early(liveLimit, events, k)
  {
    assert |rows.Keys| == |rows|;
    forall k
      ensures k in next <==> Early(liveLimit, events, k)
    {
      EarlyNext(liveLimit, events, k);
    }
  }

  /** In the node's own counters: the sum of the rows is the count of the events. */
  lemma {:induction false} TallyIsSum(env: Env, events: seq<Facts.Request>)
    ensures Tally(env, events) == SeqSum(MERGE, events, (r: Facts.Request) => One(env, r))
  {
    if events != [] {
      var n := |events| - 1;
      TallyIsSum(env, events[..n]);
      AddIsMerge(env, Tally(env, events[..n]), events[n]);
    }
  }
}
