/** How a window keeps and folds its rows: whatever is counted, a key past the live
    limit goes to the overflow row, and closing keeps the largest rows and folds the
    rest into one. `C` is what a row counts, `m` adds two of them up. */
module Folding {
  import opened Wrappers
  import opened Ordering
  import opened Sums
  import opened Counters

  datatype Entry<C> = Entry(key: Key, c: C)

  datatype Row<C> = Row(window: int, key: Key, c: C)

  function EntryCounts<C>(e: Entry<C>): C { e.c }

  function RowCounts<C>(r: Row<C>): C { r.c }

  function Same<C>(c: C): C { c }

  /** A row holds one event more. */
  function Added<C>(m: Monoid<C>, liveLimit: nat, rows: map<Key, C>, overflow: Option<C>, k: Key, one: C)
    : (map<Key, C>, Option<C>)
  {
    if k !in rows && |rows| >= liveLimit then (rows, Some(m.plus(OrZero(m, overflow), one)))
    else (rows[k := m.plus(if k in rows then rows[k] else m.zero, one)], overflow)
  }

  function OrZero<C>(m: Monoid<C>, o: Option<C>): C {
    if o.None? then m.zero else o.value
  }

  /** Everything a window holds, rows and overflow alike. */
  ghost function Total<C(!new)>(m: Monoid<C>, rows: map<Key, C>, overflow: Option<C>): C {
    m.plus(MapSum(m, rows, Same), OrZero(m, overflow))
  }

  /** How many of `n` rows are kept as they are. */
  function Keep(n: nat, overflow: bool, maxRows: nat): (k: nat)
    requires maxRows > 0
    ensures k <= n && k <= maxRows
    ensures (k < n || overflow) ==> k < maxRows
  {
    if n > maxRows || (n == maxRows && overflow) then maxRows - 1 else n
  }

  function Folded<C>(m: Monoid<C>, tail: seq<Entry<C>>, overflow: Option<C>): Option<C> {
    if tail == [] then overflow else Some(m.plus(OrZero(m, overflow), SeqSum(m, tail, EntryCounts)))
  }

  function RowsOf<C>(start: int, entries: seq<Entry<C>>): (r: seq<Row<C>>)
    ensures |r| == |entries|
  {
    seq(|entries|, i requires 0 <= i < |entries| => Row(start, entries[i].key, entries[i].c))
  }

  /** The rows of a closed window, from its entries in order. */
  function CloseRows<C>(m: Monoid<C>, start: int, entries: seq<Entry<C>>, overflow: Option<C>,
                        maxRows: nat): seq<Row<C>>
    requires maxRows > 0
  {
    var keep := Keep(|entries|, overflow.Some?, maxRows);
    RowsOf(start, entries[..keep]) + RestRow(start, Folded(m, entries[keep..], overflow))
  }

  function RestRow<C>(start: int, folded: Option<C>): seq<Row<C>> {
    if folded.Some? then [Row(start, REST_KEY, folded.value)] else []
  }

  ghost function EntriesOf<C>(rows: map<Key, C>): set<Entry<C>> {
    set k | k in rows :: Entry(k, rows[k])
  }

  ghost function CloseOf<C>(m: Monoid<C>, lt: (Entry<C>, Entry<C>) -> bool,
                            start: int, rows: map<Key, C>, overflow: Option<C>, maxRows: nat): seq<Row<C>>
    requires maxRows > 0
  {
    CloseRows(m, start, InOrder(lt, EntriesOf(rows)), overflow, maxRows)
  }

  // ---------------------------------------------------------------- conservation

  /** An event is counted exactly once, past the live limit too. */
  lemma AddConserves<C(!new)>(m: Monoid<C>, liveLimit: nat, rows: map<Key, C>, overflow: Option<C>, k: Key, one: C)
    requires Lawful(m)
    ensures var (rows', overflow') := Added(m, liveLimit, rows, overflow, k, one);
            Total(m, rows', overflow') == m.plus(Total(m, rows, overflow), one)
  {
    var o := OrZero(m, overflow);
    if k !in rows && |rows| >= liveLimit {
      Laws(m, MapSum(m, rows, Same), o, one);
    } else {
      var rest, c := rows - {k}, if k in rows then rows[k] else m.zero;
      var r := MapSum(m, rest, Same);
      BumpRow(m, rows, k, one);
      Swap(m, m.plus(r, c), one, o);
    }
  }

  lemma BumpRow<C(!new)>(m: Monoid<C>, rows: map<Key, C>, k: Key, one: C)
    requires Lawful(m)
    ensures var c := if k in rows then rows[k] else m.zero;
            && MapSum(m, rows, Same) == m.plus(MapSum(m, rows - {k}, Same), c)
            && MapSum(m, rows[k := m.plus(c, one)], Same) == m.plus(MapSum(m, rows, Same), one)
  {
    var rest, c := rows - {k}, if k in rows then rows[k] else m.zero;
    if k in rows {
      MapSumRemove(m, rows, Same, k);
    } else {
      assert rest == rows;
      Laws(m, MapSum(m, rest, Same), c, c);
    }
    assert rest[k := m.plus(c, one)] == rows[k := m.plus(c, one)];
    MapSumAdd(m, rest, Same, k, m.plus(c, one));
    Laws(m, MapSum(m, rest, Same), c, one);
  }

  lemma EntriesRemove<C>(rows: map<Key, C>, k: Key)
    requires k in rows
    ensures EntriesOf(rows - {k}) == EntriesOf(rows) - {Entry(k, rows[k])}
  {
    var rest := rows - {k};
    forall e: Entry<C>
      ensures e in EntriesOf(rest) <==> e in EntriesOf(rows) && e != Entry(k, rows[k])
    {
      assert e in EntriesOf(rest) <==> e.key in rest && rest[e.key] == e.c;
      assert e in EntriesOf(rows) <==> e.key in rows && rows[e.key] == e.c;
    }
  }

  lemma {:induction false} EntriesCount<C>(rows: map<Key, C>)
    ensures |EntriesOf(rows)| == |rows|
    decreases |rows|
  {
    if rows == map[] {
      assert EntriesOf(rows) == {};
    } else {
      var k :| k in rows;
      EntriesRemove(rows, k);
      EntriesCount(rows - {k});
    }
  }

  lemma {:induction false} EntriesSum<C(!new)>(m: Monoid<C>, rows: map<Key, C>, entries: seq<Entry<C>>)
    requires Lawful(m)
    requires multiset(entries) == multiset(EntriesOf(rows))
    ensures SeqSum(m, entries, EntryCounts) == MapSum(m, rows, Same)
    decreases |entries|
  {
    ListingMembers(entries, EntriesOf(rows));
    EntriesCount(rows);
    if entries != [] {
      var n := |entries| - 1;
      var last := entries[n];
      assert last in Members(entries);
      assert rows[last.key] == last.c;
      EntriesRemove(rows, last.key);
      ListingInit(entries, EntriesOf(rows));
      EntriesSum(m, rows - {last.key}, entries[..n]);
      MapSumRemove(m, rows, Same, last.key);
    }
  }

  lemma ListingInit<T>(listing: seq<T>, s: set<T>)
    requires listing != [] && multiset(listing) == multiset(s)
    ensures multiset(listing[..|listing| - 1]) == multiset(s - {listing[|listing| - 1]})
  {
    var n := |listing| - 1;
    assert listing == listing[..n] + [listing[n]];
    var x := listing[n];
    assert x in multiset(listing);
    assert x in s;
    assert multiset(listing) == multiset(listing[..n]) + multiset{x};
    assert multiset(listing[..n]) == multiset(listing) - multiset{x};
    assert multiset(s - {x}) == multiset(s) - multiset{x};
  }

  lemma {:induction false} RowsOfSum<C>(m: Monoid<C>, start: int, entries: seq<Entry<C>>)
    ensures SeqSum(m, RowsOf(start, entries), RowCounts) == SeqSum(m, entries, EntryCounts)
  {
    if entries != [] {
      var n := |entries| - 1;
      RowsOfSum(m, start, entries[..n]);
      assert RowsOf(start, entries)[..n] == RowsOf(start, entries[..n]);
    }
  }

  lemma FoldedSum<C(!new)>(m: Monoid<C>, start: int, tail: seq<Entry<C>>, overflow: Option<C>)
    requires Lawful(m)
    ensures SeqSum(m, RestRow(start, Folded(m, tail, overflow)), RowCounts)
            == m.plus(OrZero(m, overflow), SeqSum(m, tail, EntryCounts))
  {
    var folded := Folded(m, tail, overflow);
    Laws(m, OrZero(m, overflow), m.zero, m.zero);
    if folded.Some? {
      SeqSumOne(m, Row(start, REST_KEY, folded.value), RowCounts);
    }
  }

  /** Closing loses no count: whatever the rows counted, and the overflow, is in exactly
      the rows that come out. */
  lemma CloseConserves<C(!new)>(m: Monoid<C>, lt: (Entry<C>, Entry<C>) -> bool,
                                start: int, rows: map<Key, C>, overflow: Option<C>, maxRows: nat)
    requires Lawful(m) && maxRows > 0
    ensures SeqSum(m, CloseOf(m, lt, start, rows, overflow, maxRows), RowCounts) == Total(m, rows, overflow)
  {
    var entries := InOrder(lt, EntriesOf(rows));
    var keep := Keep(|entries|, overflow.Some?, maxRows);
    var head, tail := entries[..keep], entries[keep..];
    EntriesSum(m, rows, entries);
    assert entries == head + tail;
    SeqSumConcat(m, head, tail, EntryCounts);
    SeqSumConcat(m, RowsOf(start, head), RestRow(start, Folded(m, tail, overflow)), RowCounts);
    RowsOfSum(m, start, head);
    FoldedSum(m, start, tail, overflow);
    Swap(m, SeqSum(m, head, EntryCounts), SeqSum(m, tail, EntryCounts), OrZero(m, overflow));
  }

  // ---------------------------------------------------------------- shape

  /** At most `maxRows` rows, all of this window, and only the last may be the folded one. */
  lemma CloseShape<C>(m: Monoid<C>, lt: (Entry<C>, Entry<C>) -> bool,
                      start: int, rows: map<Key, C>, overflow: Option<C>, maxRows: nat)
    requires maxRows > 0 && REST_KEY !in rows
    ensures var out := CloseOf(m, lt, start, rows, overflow, maxRows);
            && |out| <= maxRows
            && (forall i | 0 <= i < |out| :: out[i].window == start)
            && (forall i | 0 <= i < |out| - 1 :: out[i].key != REST_KEY)
            && ((rows != map[] || overflow.Some?) ==> out != [])
  {
    var entries := InOrder(lt, EntriesOf(rows));
    EntriesCount(rows);
    ListingMembers(entries, EntriesOf(rows));
    forall i | 0 <= i < |entries|
      ensures entries[i].key != REST_KEY
    {
      assert entries[i] in Members(entries);
    }
    CloseRowsShape(m, start, entries, overflow, maxRows);
  }

  lemma CloseRowsShape<C>(m: Monoid<C>, start: int, entries: seq<Entry<C>>, overflow: Option<C>, maxRows: nat)
    requires maxRows > 0 && forall i | 0 <= i < |entries| :: entries[i].key != REST_KEY
    ensures var out := CloseRows(m, start, entries, overflow, maxRows);
            && |out| <= maxRows
            && (forall i | 0 <= i < |out| :: out[i].window == start)
            && (forall i | 0 <= i < |out| - 1 :: out[i].key != REST_KEY)
            && ((entries != [] || overflow.Some?) ==> out != [])
  {
    var keep := Keep(|entries|, overflow.Some?, maxRows);
    var kept := RowsOf(start, entries[..keep]);
    assert forall i | 0 <= i < keep :: kept[i].window == start && kept[i].key == entries[i].key;
  }

  ghost function Ahead<T>(lt: (T, T) -> bool, dom: set<T>, x: T): set<T> {
    set e | e in dom && lt(e, x)
  }

  /** A key keeps a row of its own, with its own counts, exactly when fewer entries than
      are kept come before it in the order: the largest ones are kept, none else. */
  lemma LargestKept<C>(m: Monoid<C>, lt: (Entry<C>, Entry<C>) -> bool,
                       start: int, rows: map<Key, C>, overflow: Option<C>, maxRows: nat, k: Key)
    requires maxRows > 0 && REST_KEY !in rows && k in rows && StrictTotalOn(lt, EntriesOf(rows))
    ensures Row(start, k, rows[k]) in CloseOf(m, lt, start, rows, overflow, maxRows)
            <==> |Ahead(lt, EntriesOf(rows), Entry(k, rows[k]))| < Keep(|rows|, overflow.Some?, maxRows)
  {
    var dom := EntriesOf(rows);
    var entries := InOrder(lt, dom);
    SortedListing(lt, dom, Listing(dom));
    EntriesCount(rows);
    var j := Find(entries, Entry(k, rows[k]));
    RankIsIndex(lt, entries, dom, j);
    KeptIndex(m, start, entries, overflow, maxRows, j);
  }

  lemma Find<T>(s: seq<T>, x: T) returns (j: nat)
    requires x in Members(s)
    ensures j < |s| && s[j] == x
  {
    j :| 0 <= j < |s| && s[j] == x;
  }

  lemma {:induction false} IndexSet<T>(s: seq<T>, j: nat)
    requires j <= |s| && Distinct(s)
    ensures |Members(s[..j])| == j
  {
    if j > 0 {
      IndexSet(s, j - 1);
      assert s[..j] == s[..j - 1] + [s[j - 1]];
      assert Members(s[..j]) == Members(s[..j - 1]) + {s[j - 1]};
      assert s[j - 1] !in Members(s[..j - 1]);
    }
  }

  lemma RankIsIndex<T>(lt: (T, T) -> bool, entries: seq<T>, dom: set<T>, j: nat)
    requires StrictTotalOn(lt, dom) && multiset(entries) == multiset(dom)
    requires Ascending(lt, entries) && Members(entries) == dom && j < |entries|
    ensures Distinct(entries)
    ensures |Ahead(lt, dom, entries[j])| == j
  {
    ListingDistinct(entries, dom);
    IndexSet(entries, j);
    forall e
      ensures e in dom && lt(e, entries[j]) <==> e in Members(entries[..j])
    {
      assert entries[j] in Members(entries);
      if e in dom {
        assert e in Members(entries);
        var i :| 0 <= i < |entries| && entries[i] == e;
        assert i < j ==> entries[..j][i] == e;
      }
    }
    assert Ahead(lt, dom, entries[j]) == Members(entries[..j]);
  }

  lemma KeptIndex<C>(m: Monoid<C>, start: int, entries: seq<Entry<C>>, overflow: Option<C>, maxRows: nat, j: nat)
    requires maxRows > 0 && j < |entries| && Distinct(entries) && entries[j].key != REST_KEY
    ensures Row(start, entries[j].key, entries[j].c) in CloseRows(m, start, entries, overflow, maxRows)
            <==> j < Keep(|entries|, overflow.Some?, maxRows)
  {
    var keep := Keep(|entries|, overflow.Some?, maxRows);
    var out := CloseRows(m, start, entries, overflow, maxRows);
    var r := Row(start, entries[j].key, entries[j].c);
    if j < keep {
      assert out[j] == r;
    } else {
      forall i | 0 <= i < |out|
        ensures out[i] != r
      {
        if i < keep {
          assert out[i].key == entries[i].key && out[i].c == entries[i].c;
          assert entries[i] != entries[j];
        }
      }
    }
  }
}
