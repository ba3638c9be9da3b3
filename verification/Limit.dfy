/** The sliding-window rate limiter of internal/rules/limit.go: a ring of stamps
    per key that grows up to the limit, a map of keys bounded per shard, and a
    sweep that forgets idle keys. */
module Limit {
  import opened Wrappers

  const SHARDS := 64
  const DEFAULT_MAX_KEYS := 0x10_0000

  /** What an entry means: the stamps still held, oldest first. */
  datatype EntryView = EntryView(stamps: seq<int>, limit: int, window: int, last: int)

  type Table = map<string, EntryView>

  /** Where a key lands, and how many keys a shard may hold. */
  datatype Layout = Layout(shardOf: string -> nat, maxKeys: int) {
    function MaxKeysPerShard(): int {
      (if maxKeys <= 0 then DEFAULT_MAX_KEYS else maxKeys) / SHARDS + 1
    }

    predicate Together(a: string, b: string) {
      shardOf(a) % SHARDS == shardOf(b) % SHARDS
    }

    /** The key's shard is at its bound. */
    predicate Full(keys: set<string>, key: string) {
      |set k | k in keys && Together(k, key)| >= MaxKeysPerShard()
    }
  }

  // ---------------------------------------------------------------- specification

  /** Throws away the leading stamps at or before the boundary. */
  function Drop(stamps: seq<int>, boundary: int): seq<int> {
    if stamps != [] && stamps[0] <= boundary then Drop(stamps[1..], boundary) else stamps
  }

  function Touch(e: EntryView, limit: int, window: int, now: int): (EntryView, bool) {
    var kept := Drop(if e.limit != limit then [] else e.stamps, now - window);
    if |kept| >= limit then (EntryView(kept, limit, window, now), true)
    else (EntryView(kept + [now], limit, window, now), false)
  }

  /** One call of `Exceeded` on the table of entries. */
  function Ask(layout: Layout, t: Table, key: string, limit: int, window: int, now: int): (Table, bool) {
    if limit <= 0 || window <= 0 then (t, false)
    else if key !in t && layout.Full(t.Keys, key) then (t, false)
    else
      var (e, exceeded) := Touch(EntryOf(t, key, limit, window, now), limit, window, now);
      (t[key := e], exceeded)
  }

  function EntryOf(t: Table, key: string, limit: int, window: int, now: int): EntryView {
    if key in t then t[key] else EntryView([], limit, window, now)
  }

  function Sweep(t: Table, at: int): Table {
    map k | k in t && !(at - t[k].last > t[k].window) :: t[k]
  }

  /** Opening the entry first and counting against it afterwards is one step. */
  lemma AskTouches(layout: Layout, t: Table, key: string, limit: int, window: int, now: int)
    requires limit > 0 && window > 0 && (key in t || !layout.Full(t.Keys, key))
    ensures Ask(layout, t, key, limit, window, now).0
            == t[key := Touch(EntryOf(t, key, limit, window, now), limit, window, now).0]
    ensures Ask(layout, t, key, limit, window, now).1
            == Touch(EntryOf(t, key, limit, window, now), limit, window, now).1
    ensures var e := EntryOf(t, key, limit, window, now);
            var t' := t[key := e];
            && (key in t ==> t' == t)
            && Ask(layout, t, key, limit, window, now)
               == (t'[key := Touch(t'[key], limit, window, now).0], Touch(t'[key], limit, window, now).1)
  {
    var e := EntryOf(t, key, limit, window, now);
    var e' := Touch(e, limit, window, now).0;
    assert t[key := e][key := e'] == t[key := e'];
  }

  // ---------------------------------------------------------------- the ring

  function InitialCapacity(limit: nat): (c: nat)
    ensures c <= limit && (limit > 0 ==> c > 0)
  {
    if limit < 8 then limit else 8
  }

  lemma WrapAround(i: nat, n: nat)
    requires i < 2 * n
    ensures i % n == if i < n then i else i - n
  {
    if i >= n {
      assert i == n * 1 + (i - n);
    }
  }

  /** The `length` elements of a circular buffer from `start` on. */
  ghost function Ring(data: seq<int>, start: nat, length: nat): (s: seq<int>)
    requires start < |data| && length <= |data|
    ensures |s| == length
  {
    if start + length <= |data| then data[start..start + length]
    else data[start..] + data[..start + length - |data|]
  }

  lemma RingNext(data: seq<int>, start: nat, length: nat, next: nat)
    requires start < |data| && 0 < length <= |data|
    requires next == if start + 1 < |data| then start + 1 else 0
    ensures Ring(data, next, length - 1) == Ring(data, start, length)[1..]
  {
    assert forall i | 0 <= i < length - 1 :: Ring(data, next, length - 1)[i] == Ring(data, start, length)[1..][i];
  }

  lemma RingTail(data: seq<int>, start: nat, length: nat)
    requires start < |data| && 0 < length <= |data|
    ensures Ring(data, start, length)[0] == data[start]
    ensures Ring(data, (start + 1) % |data|, length - 1) == Ring(data, start, length)[1..]
  {
    WrapAround(start + 1, |data|);
    RingNext(data, start, length, (start + 1) % |data|);
  }

  /** The stamps of one key, kept as a ring. */
  class Entry {
    ghost const key: string
    var stamps: seq<int>
    var start: nat
    var length: nat
    var limit: nat
    var window: int
    var last: int

    ghost predicate Valid()
      reads this
    {
      0 < |stamps| <= limit && start < |stamps| && length <= |stamps|
    }

    ghost function View(): EntryView
      reads this
      requires Valid()
    {
      EntryView(Ring(stamps, start, length), limit, window, last)
    }

    constructor (ghost key: string, limit: nat, window: int, now: int)
      requires limit > 0
      ensures Valid() && this.key == key && View() == EntryView([], limit, window, now)
    {
      this.key := key;
      this.stamps := seq(InitialCapacity(limit), _ => 0);
      this.start, this.length := 0, 0;
      this.limit, this.window, this.last := limit, window, now;
    }

    /** Doubles the ring, up to the limit, without losing the order of the stamps. */
    method Grow()
      requires Valid() && length == |stamps| < limit
      modifies this`stamps, this`start
      ensures Valid() && length < |stamps| && View() == old(View())
    {
      var size := |stamps| * 2;
      if size > limit { size := limit; }
      var bigger := seq(size, _ => 0);
      ghost var held := Ring(stamps, start, length);
      for i := 0 to length
        invariant Valid() && unchanged(this)
        invariant |bigger| == size && length < size
        invariant bigger[..i] == held[..i]
      {
        WrapAround(start + i, |stamps|);
        bigger := bigger[i := stamps[(start + i) % |stamps|]];
      }
      stamps, start := bigger, 0;
      assert Ring(stamps, start, length) == held;
    }

    /** Moves the start past every stamp that fell out of the window. */
    method Expire(boundary: int)
      requires Valid()
      modifies this`start, this`length
      ensures Valid() && Ring(stamps, start, length) == Drop(Ring(stamps, old(start), old(length)), boundary)
    {
      ghost var left := Ring(stamps, start, length);
      while length > 0 && stamps[start] <= boundary
        invariant Valid() && left == Ring(stamps, start, length)
        invariant Drop(left, boundary) == Drop(Ring(stamps, old(start), old(length)), boundary)
        decreases length
      {
        RingTail(stamps, start, length);
        assert Drop(left, boundary) == Drop(left[1..], boundary);
        start := (start + 1) % |stamps|;
        length := length - 1;
        left := left[1..];
      }
    }

    method Append(now: int)
      requires Valid() && length < |stamps|
      modifies this`stamps, this`length
      ensures Valid() && Ring(stamps, start, length) == old(Ring(stamps, start, length)) + [now]
    {
      WrapAround(start + length, |stamps|);
      stamps := stamps[(start + length) % |stamps| := now];
      length := length + 1;
    }

    /** What `Exceeded` does once it has found the entry of its key. */
    method Count(limit: nat, window: int, now: int) returns (exceeded: bool)
      requires Valid() && limit > 0
      modifies this
      ensures Valid() && (View(), exceeded) == Touch(old(View()), limit, window, now)
    {
      if this.limit != limit {
        stamps := seq(InitialCapacity(limit), _ => 0);
        start, length, this.limit := 0, 0, limit;
      }
      this.window, last := window, now;
      Expire(now - window);
      ghost var kept := Ring(stamps, start, length);
      assert kept == Drop(if old(this.limit) != limit then [] else old(View()).stamps, now - window);
      if length >= limit {
        return true;
      }
      if length == |stamps| {
        Grow();
      }
      Append(now);
      return false;
    }
  }

  class Windows {
    const layout: Layout
    var entries: map<string, Entry>

    ghost var table: Table  // what the entries mean

    ghost predicate Valid()
      reads this, entries.Values
    {
      && table.Keys == entries.Keys
      && forall k | k in entries ::
           entries[k].Valid() && entries[k].key == k && entries[k].View() == table[k]
    }

    constructor (layout: Layout)
      ensures Valid() && table == map[] && this.layout == layout
    {
      this.layout := layout;
      entries, table := map[], map[];
    }

    /** Whether the limit is used up; the request is counted if it is not. */
    method Exceeded(key: string, limit: int, window: int, now: int) returns (exceeded: bool)
      requires Valid()
      modifies this, entries.Values
      ensures Valid() && forall e | e in entries.Values :: e in old(entries.Values) || fresh(e)
      ensures (table, exceeded) == Ask(layout, old(table), key, limit, window, now)
    {
      if limit <= 0 || window <= 0 {
        return false;
      }
      if key !in entries && layout.Full(entries.Keys, key) {
        return false;
      }
      AskTouches(layout, table, key, limit, window, now);
      if key !in entries {
        Open(key, limit, window, now);
      }
      exceeded := Hit(key, limit, window, now);
    }

    /** Gives a new key its empty entry. */
    method Open(key: string, limit: nat, window: int, now: int)
      requires Valid() && key !in entries && limit > 0
      modifies this
      ensures Valid() && key in entries
      ensures forall e | e in entries.Values :: e in old(entries.Values) || fresh(e)
      ensures table == old(table)[key := EntryView([], limit, window, now)]
    {
      var created := new Entry(key, limit, window, now);
      entries, table := entries[key := created], table[key := created.View()];
    }

    /** Counts a request against the entry its key already has. */
    method Hit(key: string, limit: nat, window: int, now: int) returns (exceeded: bool)
      requires Valid() && key in entries && limit > 0
      modifies this`table, entries[key]
      ensures Valid()
      ensures exceeded == Touch(old(table)[key], limit, window, now).1
      ensures table == old(table)[key := Touch(old(table)[key], limit, window, now).0]
    {
      var e := entries[key];
      exceeded := e.Count(limit, window, now);
      table := table[key := e.View()];
    }

    /** Deletes the entries that have not seen a request for a whole window. */
    method Forget(at: int)
      requires Valid()
      modifies this
      ensures Valid() && entries.Values <= old(entries.Values)
      ensures table == Sweep(old(table), at)
    {
      var left, todo := entries, entries.Keys;
      while todo != {}
        invariant todo <= left.Keys <= entries.Keys
        invariant forall k | k in left :: left[k] == entries[k]
        invariant forall k | k in entries :: k in left <==> k in todo || k in Sweep(table, at)
        decreases |todo|
      {
        var key :| key in todo;
        var e := left[key];
        if at - e.last > e.window {
          left := left - {key};
        }
        todo := todo - {key};
      }
      entries, table := left, Sweep(table, at);
    }

    method Keys() returns (n: nat)
      ensures n == |entries|
    {
      n := |entries|;
    }
  }
}
