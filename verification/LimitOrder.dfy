/** What of the order of requests the limiter depends on: the order within each key, and
    nothing else. */
module LimitOrder {
  import opened Wrappers
  import opened Sequences
  import opened Limit
  import opened LimitLaws

  // ---------------------------------------------------------------- an answer by its key

  /** The times at which a key is asked for, in order. */
  function TimesOf(ops: seq<Op>, key: string): seq<int> {
    if ops == [] then []
    else
      var op := ops[|ops| - 1];
      TimesOf(ops[..|ops| - 1], key) + if op.Request? && op.key == key then [op.at] else []
  }

  /** The stamps admitted of one key asked for at these times. */
  function KeyLog(limit: int, window: int, times: seq<int>): seq<int> {
    if times == [] then []
    else
      var s, t := KeyLog(limit, window, times[..|times| - 1]), times[|times| - 1];
      if Within(s, t - window, t) >= limit then s else s + [t]
  }

  /** Whether the limit is used up for a request at `at` after those of its key before it. */
  predicate UsedUp(limit: int, window: int, before: seq<int>, at: int) {
    Within(KeyLog(limit, window, before), at - window, at) >= limit
  }

  lemma TimesNext(ops: seq<Op>, op: Op, key: string)
    ensures TimesOf(ops + [op], key)
            == if op.Request? && op.key == key then TimesOf(ops, key) + [op.at] else TimesOf(ops, key)
  {
    PushInit(ops, op);
    AppendNothing(TimesOf(ops, key), []);
  }

  lemma KeyLogNext(limit: int, window: int, times: seq<int>, t: int)
    ensures KeyLog(limit, window, times + [t])
            == KeyLog(limit, window, times) + if UsedUp(limit, window, times, t) then [] else [t]
  {
    PushInit(times, t);
    AppendNothing(KeyLog(limit, window, times), []);
  }

  lemma {:induction false} NaiveNext(p: Policy, log: Log, ops: seq<Op>, op: Op)
    requires op.Request?
    ensures var before := NaiveRun(p, log, ops);
            var ask := NaiveAsk(before.0, op.key, p.limit(op.key), p.window(op.key), op.at);
            NaiveRun(p, log, ops + [op]) == (ask.0, before.1 + [ask.1])
    decreases |ops|
  {
    if ops == [] {
      assert ops + [op] == [op] && [op][1..] == [];
      var none: seq<bool> := [];
      var ask := NaiveAsk(log, op.key, p.limit(op.key), p.window(op.key), op.at);
      assert NaiveRun(p, ask.0, [op][1..]) == (ask.0, none);
      assert [ask.1] + none == none + [ask.1];
    } else {
      assert (ops + [op])[1..] == ops[1..] + [op];
      match ops[0] {
        case SweepAt(_) => NaiveNext(p, log, ops[1..], op);
        case Request(key, at) =>
          var first := NaiveAsk(log, key, p.limit(key), p.window(key), at);
          NaiveNext(p, first.0, ops[1..], op);
          var rest := NaiveRun(p, first.0, ops[1..]);
          Associate([first.1], rest.1, [NaiveAsk(rest.0, op.key, p.limit(op.key), p.window(op.key), op.at).1]);
      }
    }
  }

  ghost predicate AllRequests(ops: seq<Op>) {
    forall o | o in ops :: o.Request?
  }

  /** The log of a key depends on the requests of that key alone. */
  lemma {:induction false} StampsByKey(p: Policy, ops: seq<Op>, key: string)
    requires AllRequests(ops)
    ensures Stamps(NaiveRun(p, map[], ops).0, key) == KeyLog(p.limit(key), p.window(key), TimesOf(ops, key))
    ensures |NaiveRun(p, map[], ops).1| == |ops|
  {
    if ops != [] {
      var n := |ops| - 1;
      var op := ops[n];
      StampsByKey(p, ops[..n], key);
      LastApart(ops);
      NaiveNext(p, map[], ops[..n], op);
      StampsNext(p, NaiveRun(p, map[], ops[..n]).0, ops[..n], op, key);
    }
  }

  lemma StampsNext(p: Policy, log: Log, ops: seq<Op>, op: Op, key: string)
    requires op.Request? && Stamps(log, key) == KeyLog(p.limit(key), p.window(key), TimesOf(ops, key))
    ensures Stamps(NaiveAsk(log, op.key, p.limit(op.key), p.window(op.key), op.at).0, key)
            == KeyLog(p.limit(key), p.window(key), TimesOf(ops + [op], key))
  {
    TimesNext(ops, op, key);
    if op.key == key {
      var s := Stamps(log, key);
      KeyLogNext(p.limit(key), p.window(key), TimesOf(ops, key), op.at);
      AppendNothing(s, []);
      AskedStamps(log, key, p.limit(key), p.window(key), op.at);
    } else {
      NaiveElsewhere(log, op.key, p.limit(op.key), p.window(op.key), op.at, key);
    }
  }

  lemma AskedStamps(log: Log, key: string, limit: int, window: int, at: int)
    ensures var s := Stamps(log, key);
            Stamps(NaiveAsk(log, key, limit, window, at).0, key)
            == s + if Within(s, at - window, at) >= limit then [] else [at]
  {
    AppendNothing(Stamps(log, key), []);
  }

  // ---------------------------------------------------------------- clocks by key

  lemma {:induction false} TimesMembers(ops: seq<Op>, key: string, t: int)
    ensures t in TimesOf(ops, key) <==> Op.Request(key, t) in ops
  {
    if ops != [] {
      TimesMembers(ops[..|ops| - 1], key, t);
      LastApart(ops);
    }
  }

  lemma KeysAmong(a: seq<Op>, b: seq<Op>)
    requires forall key :: TimesOf(a, key) == TimesOf(b, key)
    ensures KeysOf(a) <= KeysOf(b)
  {
    forall key | key in KeysOf(a)
      ensures key in KeysOf(b)
    {
      var o :| o in a && o.Request? && o.key == key;
      TimesMembers(a, key, o.at);
      TimesMembers(b, key, o.at);
      assert o in b;
    }
  }

  lemma SortedInit(s: seq<int>, t: int)
    requires Sorted(s + [t])
    ensures Sorted(s) && forall x | x in s :: x <= t
  {
    var r := s + [t];
    assert forall i | 0 <= i < |s| :: r[i] == s[i];
    forall x | x in s
      ensures x <= t
    {
      var i :| 0 <= i < |s| && s[i] == x;
      assert r[i] <= r[|s|];
    }
  }

  lemma SortedPush(s: seq<int>, t: int)
    requires Sorted(s) && forall x | x in s :: x <= t
    ensures Sorted(s + [t])
  {
    assert forall i | 0 <= i < |s| :: s[i] in s;
  }

  lemma {:induction false} ClockedSorted(ops: seq<Op>, key: string)
    requires AllRequests(ops) && Clocked(ops)
    ensures Sorted(TimesOf(ops, key))
  {
    if ops != [] {
      var n := |ops| - 1;
      var init, op := ops[..n], ops[n];
      assert forall i | 0 <= i < n :: init[i] == ops[i];
      ClockedSorted(init, key);
      LastApart(ops);
      TimesNext(init, op, key);
      if op.key == key {
        forall t | t in TimesOf(init, key)
          ensures t <= op.at
        {
          TimesMembers(init, key, t);
          var i :| 0 <= i < n && init[i] == Op.Request(key, t);
          assert ops[i].at <= ops[n].at;
        }
        SortedPush(TimesOf(init, key), op.at);
      }
    }
  }

  lemma {:induction false} SortedClocked(ops: seq<Op>)
    requires AllRequests(ops) && forall key :: Sorted(TimesOf(ops, key))
    ensures Clocked(ops)
  {
    if ops != [] {
      var n := |ops| - 1;
      var init, op := ops[..n], ops[n];
      LastApart(ops);
      forall key
        ensures Sorted(TimesOf(init, key))
      {
        TimesNext(init, op, key);
        if op.key == key {
          SortedInit(TimesOf(init, key), op.at);
        }
      }
      SortedClocked(init);
      TimesNext(init, op, op.key);
      SortedInit(TimesOf(init, op.key), op.at);
      forall i | 0 <= i < n && ops[i].key == op.key
        ensures ops[i].at <= op.at
      {
        assert init[i] == ops[i] == Op.Request(op.key, ops[i].at);
        TimesMembers(init, op.key, ops[i].at);
      }
      forall i, j | 0 <= i < j < |ops| && ops[i].key == ops[j].key
        ensures ops[i].at <= ops[j].at
      {
        assert j < n ==> init[i] == ops[i] && init[j] == ops[j];
      }
    }
  }

  /** With the same times for every key, one is clocked when the other is, and asks for the
      same keys. */
  lemma ClockedByKey(a: seq<Op>, b: seq<Op>)
    requires AllRequests(a) && AllRequests(b) && forall key :: TimesOf(a, key) == TimesOf(b, key)
    requires Clocked(a)
    ensures Clocked(b) && KeysOf(a) == KeysOf(b)
  {
    forall key
      ensures Sorted(TimesOf(b, key))
    {
      ClockedSorted(a, key);
    }
    SortedClocked(b);
    KeysAmong(a, b);
    KeysAmong(b, a);
  }

  // ---------------------------------------------------------------- two neighbours exchanged

  /** Both requests, one after the other: the table, and the answer to each. */
  function Both(layout: Layout, p: Policy, t: Table, q: Op, r: Op): (Table, bool, bool)
    requires q.Request? && r.Request?
  {
    var first := Ask(layout, t, q.key, p.limit(q.key), p.window(q.key), q.at);
    var second := Ask(layout, first.0, r.key, p.limit(r.key), p.window(r.key), r.at);
    (second.0, first.1, second.1)
  }

  /** A state a limiter can be in before either request comes: for both keys it agrees with
      a log of earlier requests, and there is room for them. */
  ghost predicate Precedes(layout: Layout, p: Policy, t: Table, log: Log, q: Op, r: Op)
    requires q.Request? && r.Request?
  {
    var floor := if q.at < r.at then q.at else r.at;
    && Roomy(layout, t.Keys + {q.key, r.key})
    && Agrees(Lookup(t, q.key), Stamps(log, q.key), p.limit(q.key), p.window(q.key), floor)
    && Agrees(Lookup(t, r.key), Stamps(log, r.key), p.limit(r.key), p.window(r.key), floor)
  }

  /** Each of the two gets one answer, whichever comes first. */
  predicate AnswersAlike(layout: Layout, p: Policy, t: Table, q: Op, r: Op)
    requires q.Request? && r.Request?
  {
    Both(layout, p, t, q, r).1 == Both(layout, p, t, r, q).2 && Both(layout, p, t, q, r).2 == Both(layout, p, t, r, q).1
  }

  ghost predicate Exchangeable(layout: Layout, p: Policy, q: Op, r: Op)
    requires q.Request? && r.Request?
  {
    forall t, log | Precedes(layout, p, t, log, q, r) :: AnswersAlike(layout, p, t, q, r)
  }

  lemma AskElsewhere(layout: Layout, p: Policy, t: Table, q: Op, keys: set<string>)
    requires q.Request? && p.Positive() && t.Keys <= keys && q.key in keys && Roomy(layout, keys)
    ensures var limit, window := p.limit(q.key), p.window(q.key);
            var e := Touch(EntryOf(t, q.key, limit, window, q.at), limit, window, q.at);
            Ask(layout, t, q.key, p.limit(q.key), p.window(q.key), q.at) == (t[q.key := e.0], e.1)
  {
    HasRoom(layout, t.Keys, keys, q.key);
  }

  /** Requests of two keys can be exchanged: the answers and the table are the same. */
  lemma ApartCommute(layout: Layout, p: Policy, t: Table, q: Op, r: Op)
    requires q.Request? && r.Request? && p.Positive() && q.key != r.key
    requires Roomy(layout, t.Keys + {q.key, r.key})
    ensures var qr, rq := Both(layout, p, t, q, r), Both(layout, p, t, r, q);
            qr.0 == rq.0 && qr.1 == rq.2 && qr.2 == rq.1
  {
    var keys := t.Keys + {q.key, r.key};
    var e := Touch(EntryOf(t, q.key, p.limit(q.key), p.window(q.key), q.at), p.limit(q.key), p.window(q.key), q.at).0;
    var f := Touch(EntryOf(t, r.key, p.limit(r.key), p.window(r.key), r.at), p.limit(r.key), p.window(r.key), r.at).0;
    AskElsewhere(layout, p, t, q, keys);
    AskElsewhere(layout, p, t, r, keys);
    AskElsewhere(layout, p, t[q.key := e], r, keys);
    AskElsewhere(layout, p, t[r.key := f], q, keys);
    SetsCommute(t, q.key, e, r.key, f);
  }

  lemma SetsCommute<K, V>(t: map<K, V>, a: K, x: V, b: K, y: V)
    requires a != b
    ensures t[a := x][b := y] == t[b := y][a := x]
  {
  }

  function Copies(n: nat, x: int): (s: seq<int>)
    ensures |s| == n && forall i | 0 <= i < n :: s[i] == x
  {
    seq(n, i => x)
  }

  lemma DropAll(s: seq<int>, boundary: int)
    requires forall i | 0 <= i < |s| :: s[i] <= boundary
    ensures Drop(s, boundary) == []
  {
  }

  /** `n` requests admitted at the moment of the earlier of two, and nothing else. */
  function Busy(p: Policy, key: string, n: nat, at: int): Table {
    map[key := EntryView(Copies(n, at), p.limit(key), p.window(key), at)]
  }

  lemma BusyBefore(layout: Layout, p: Policy, n: nat, q: Op, r: Op)
    requires q.Request? && r.Request? && q.key == r.key && p.Positive() && Roomy(layout, {q.key})
    ensures var at := if q.at < r.at then q.at else r.at;
            Precedes(layout, p, Busy(p, q.key, n, at), map[q.key := Copies(n, at)], q, r)
  {
    var at := if q.at < r.at then q.at else r.at;
    assert Busy(p, q.key, n, at).Keys + {q.key, r.key} == {q.key};
  }

  /** Two requests of one key within a window, with room for one of them: the first gets it. */
  lemma CloseDiffer(layout: Layout, p: Policy, q: Op, r: Op)
    requires q.Request? && r.Request? && q.key == r.key && p.Positive()
    requires q.at <= r.at < q.at + p.window(q.key)
    ensures var t := Busy(p, q.key, p.limit(q.key) - 1, q.at);
            && Both(layout, p, t, q, r).1 == false && Both(layout, p, t, q, r).2 == true
            && Both(layout, p, t, r, q).1 == false && Both(layout, p, t, r, q).2 == true
  {
    var key, limit, window := q.key, p.limit(q.key), p.window(q.key);
    var s := Copies(limit - 1, q.at);
    NothingDropped(s, q.at, q.at - window);
    NothingDropped(s, q.at, r.at - window);
    NothingDropped(s + [q.at], q.at, r.at - window);
    NothingDropped(s + [r.at], q.at, q.at - window);
  }

  lemma NothingDropped(s: seq<int>, least: int, boundary: int)
    requires boundary < least && forall i | 0 <= i < |s| :: least <= s[i]
    ensures Drop(s, boundary) == s
  {
  }

  /** A window apart and more: with the limit used up, or with a limit of one and nothing
      there, the later one first changes what becomes of the earlier. */
  lemma FarDiffer(layout: Layout, p: Policy, q: Op, r: Op)
    requires q.Request? && r.Request? && q.key == r.key && p.Positive()
    requires q.at + p.window(q.key) <= r.at
    ensures var n := if p.limit(q.key) == 1 then 0 else p.limit(q.key);
            var t := Busy(p, q.key, n, q.at);
            Both(layout, p, t, q, r).1 != Both(layout, p, t, r, q).2
  {
    var limit, window := p.limit(q.key), p.window(q.key);
    var s := Copies(if limit == 1 then 0 else limit, q.at);
    NothingDropped(s, q.at, q.at - window);
    DropAll(s, r.at - window);
    NothingDropped([r.at], r.at, q.at - window);
    assert [] + [r.at] == [r.at];
  }

  /** Two neighbouring requests can be exchanged in every state exactly when their keys
      differ; for one key neither distance nor closeness of the times helps. */
  lemma ExchangeExact(layout: Layout, p: Policy, q: Op, r: Op)
    requires q.Request? && r.Request? && p.Positive() && Roomy(layout, {q.key})
    ensures Exchangeable(layout, p, q, r) <==> q.key != r.key
  {
    if q.key != r.key {
      forall t, log | Precedes(layout, p, t, log, q, r)
        ensures AnswersAlike(layout, p, t, q, r)
      {
        ApartCommute(layout, p, t, q, r);
      }
    } else if q.at <= r.at {
      SameKeyDiffers(layout, p, q, r);
    } else {
      SameKeyDiffers(layout, p, r, q);
    }
  }

  lemma SameKeyDiffers(layout: Layout, p: Policy, q: Op, r: Op)
    requires q.Request? && r.Request? && q.key == r.key && q.at <= r.at && p.Positive() && Roomy(layout, {q.key})
    ensures !Exchangeable(layout, p, q, r) && !Exchangeable(layout, p, r, q)
  {
    var close := r.at < q.at + p.window(q.key);
    var n := if close then p.limit(q.key) - 1 else if p.limit(q.key) == 1 then 0 else p.limit(q.key);
    BusyBefore(layout, p, n, q, r);
    BusyBefore(layout, p, n, r, q);
    if close {
      CloseDiffer(layout, p, q, r);
    } else {
      FarDiffer(layout, p, q, r);
    }
  }
}
