/** Why replaying the log with the same rules reproduces what the hot path did. */
module ReplayLaws {
  import opened Wrappers
  import opened Facts
  import opened Condition
  import opened Rules
  import opened RuleSets
  import opened RuleSetLaws
  import opened Sequences
  import opened Keys
  import opened Limit
  import opened LimitLaws
  import opened Replay

  // ---------------------------------------------------------------- what the limiter sees

  /** The rate limit the request comes under, if any. */
  function Budget(env: Env, rules: seq<Rule>, r: Request): Option<Rule> {
    if Counts(Verdict(env, rules, r)) then Verdict(env, rules, r) else None
  }

  /** Everything the limiter goes through: which requests reach it depends on the rules
      and the requests alone, never on its own answers. */
  function Asks(env: Env, rules: seq<Rule>, events: seq<Event>): seq<Op> {
    if events == [] then []
    else match events[0]
      case SweptAt(at) => [SweepAt(at)] + Asks(env, rules, events[1..])
      case Arrives(r) =>
        var u := Budget(env, rules, r);
        (if u.Some? then [Op.Request(u.value.KeyFor(r), r.time)] else []) + Asks(env, rules, events[1..])
  }

  /** The decisions, given the limiter's answers one after the other. */
  function Replies(env: Env, rules: seq<Rule>, events: seq<Event>, answers: seq<bool>): seq<Decision> {
    if events == [] then []
    else match events[0]
      case SweptAt(_) => Replies(env, rules, events[1..], answers)
      case Arrives(r) =>
        var v := Verdict(env, rules, r);
        if Budget(env, rules, r).None? then [Settled(env, v, false)] + Replies(env, rules, events[1..], answers)
        else if answers == [] then []
        else [Settled(env, v, answers[0])] + Replies(env, rules, events[1..], answers[1..])
  }

  /** Every rate limit asks for its keys with its own limit and window. */
  ghost predicate Fits(env: Env, rules: seq<Rule>, p: Policy) {
    forall u, r | u in rules && ValidRule(env, u) && u.action.kind == RATELIMIT ::
      p.limit(u.KeyFor(r)) == u.action.limit && p.window(u.KeyFor(r)) == WindowOf(env, u)
  }

  lemma {:induction false} RunByAnswers(env: Env, rules: seq<Rule>, p: Policy, layout: Layout, t: Table,
                                        events: seq<Event>)
    requires Fits(env, rules, p)
    ensures Served(env, rules, Some(Book(layout, t)), events).1
            == Replies(env, rules, events, RunOps(layout, p, t, Asks(env, rules, events)).1)
    decreases |events|
  {
    if events != [] {
      match events[0] {
        case SweptAt(at) => SweepByAnswers(env, rules, p, layout, t, events);
        case Arrives(r) =>
          if Budget(env, rules, r).None? {
            RunByAnswers(env, rules, p, layout, t, events[1..]);
            assert [] + Asks(env, rules, events[1..]) == Asks(env, rules, events[1..]);
          } else {
            AskByAnswers(env, rules, p, layout, t, events);
          }
      }
    }
  }

  lemma {:induction false} SweepByAnswers(env: Env, rules: seq<Rule>, p: Policy, layout: Layout, t: Table,
                                          events: seq<Event>)
    requires Fits(env, rules, p) && events != [] && events[0].SweptAt?
    ensures Served(env, rules, Some(Book(layout, t)), events).1
            == Replies(env, rules, events, RunOps(layout, p, t, Asks(env, rules, events)).1)
    decreases |events|, 0
  {
    var ops := Asks(env, rules, events);
    assert ops[0] == SweepAt(events[0].at) && ops[1..] == Asks(env, rules, events[1..]);
    RunByAnswers(env, rules, p, layout, Sweep(t, events[0].at), events[1..]);
  }

  lemma {:induction false} AskByAnswers(env: Env, rules: seq<Rule>, p: Policy, layout: Layout, t: Table,
                                        events: seq<Event>)
    requires Fits(env, rules, p) && events != [] && events[0].Arrives? && Budget(env, rules, events[0].r).Some?
    ensures Served(env, rules, Some(Book(layout, t)), events).1
            == Replies(env, rules, events, RunOps(layout, p, t, Asks(env, rules, events)).1)
    decreases |events|, 0
  {
    var r := events[0].r;
    var u := Budget(env, rules, r).value;
    var ops := Asks(env, rules, events);
    var asked := Asked(env, Some(Book(layout, t)), Some(u), r);
    assert ops[0] == Op.Request(u.KeyFor(r), r.time) && ops[1..] == Asks(env, rules, events[1..]);
    assert (asked.0.value.table, asked.1)
        == Ask(layout, t, u.KeyFor(r), p.limit(u.KeyFor(r)), p.window(u.KeyFor(r)), r.time);
    RunByAnswers(env, rules, p, layout, asked.0.value.table, events[1..]);
    var answers := RunOps(layout, p, t, ops).1;
    assert answers[0] == asked.1 && answers[1..] == RunOps(layout, p, asked.0.value.table, ops[1..]).1;
  }

  // ---------------------------------------------------------------- one limit per key

  /** No two rate limits ask for one key with different limits or windows. */
  ghost predicate OneBudget(env: Env, rules: seq<Rule>) {
    forall u, v, q, r | u in rules && v in rules && ValidRule(env, u) && ValidRule(env, v)
                        && u.action.kind == RATELIMIT && v.action.kind == RATELIMIT && u.KeyFor(q) == v.KeyFor(r) ::
      u.action.limit == v.action.limit && WindowOf(env, u) == WindowOf(env, v)
  }

  ghost predicate Owns(env: Env, rules: seq<Rule>, key: string, u: Rule) {
    u in rules && ValidRule(env, u) && u.action.kind == RATELIMIT && exists r :: u.KeyFor(r) == key
  }

  ghost function LimitOf(env: Env, rules: seq<Rule>, key: string): int {
    if exists u :: Owns(env, rules, key, u) then (var u :| Owns(env, rules, key, u); u.action.limit) else 1
  }

  ghost function SpanOf(env: Env, rules: seq<Rule>, key: string): int {
    if exists u :: Owns(env, rules, key, u) then (var u :| Owns(env, rules, key, u); WindowOf(env, u)) else 1
  }

  lemma BudgetsFit(env: Env, rules: seq<Rule>) returns (p: Policy)
    requires OneBudget(env, rules)
    ensures p.Positive() && Fits(env, rules, p)
  {
    p := Policy(key => LimitOf(env, rules, key), key => SpanOf(env, rules, key));
    forall u, r | u in rules && ValidRule(env, u) && u.action.kind == RATELIMIT
      ensures p.limit(u.KeyFor(r)) == u.action.limit && p.window(u.KeyFor(r)) == WindowOf(env, u)
    {
      assert Owns(env, rules, u.KeyFor(r), u);
    }
  }

  /** Ids without a NUL are enough for that. */
  lemma NoNulOneBudget(env: Env, rules: seq<Rule>)
    requires DistinctIds(rules) && forall u | u in rules :: NoNul(u.id)
    ensures OneBudget(env, rules)
  {
    forall u, v, q, r | u in rules && v in rules && u.KeyFor(q) == v.KeyFor(r)
      ensures u == v
    {
      Apart(u.id, ReadText(q, u.LimiterKey()), v.id, ReadText(r, v.LimiterKey()));
    }
  }

  // ---------------------------------------------------------------- the replay

  /** The requests of a stream, without the sweeps. */
  function Arrivals(events: seq<Event>): seq<Event> {
    if events == [] then []
    else (if events[0].Arrives? then [events[0]] else []) + Arrivals(events[1..])
  }

  lemma {:induction false} AsksOfArrivals(env: Env, rules: seq<Rule>, events: seq<Event>)
    ensures Asks(env, rules, Arrivals(events)) == Requests(Asks(env, rules, events))
    decreases |events|
  {
    if events != [] {
      AsksOfArrivals(env, rules, events[1..]);
      var rest := Asks(env, rules, events[1..]);
      match events[0] {
        case SweptAt(at) =>
          assert ([SweepAt(at)] + rest)[1..] == rest;
          assert [] + Arrivals(events[1..]) == Arrivals(events[1..]);
        case Arrives(r) =>
          assert ([events[0]] + Arrivals(events[1..]))[1..] == Arrivals(events[1..]);
          var u := Budget(env, rules, r);
          if u.Some? {
            var op := Op.Request(u.value.KeyFor(r), r.time);
            assert ([op] + rest)[1..] == rest;
          } else {
            assert [] + rest == rest;
          }
      }
    }
  }

  lemma {:induction false} RepliesToArrivals(env: Env, rules: seq<Rule>, events: seq<Event>, answers: seq<bool>)
    ensures Replies(env, rules, Arrivals(events), answers) == Replies(env, rules, events, answers)
    decreases |events|
  {
    if events != [] {
      if events[0].SweptAt? {
        assert [] + Arrivals(events[1..]) == Arrivals(events[1..]);
        RepliesToArrivals(env, rules, events[1..], answers);
      } else {
        assert ([events[0]] + Arrivals(events[1..]))[1..] == Arrivals(events[1..]);
        RepliesToArrivals(env, rules, events[1..], answers);
        if answers != [] {
          RepliesToArrivals(env, rules, events[1..], answers[1..]);
        }
      }
    }
  }

  /** With sweeps or without, on this limiter or on a fresh one of another layout, the
      same requests in the same order get the same decisions. */
  lemma SameDecisions(env: Env, rules: seq<Rule>, layout: Layout, other: Layout, events: seq<Event>)
    requires OneBudget(env, rules) && Clocked(Asks(env, rules, events))
    requires Roomy(layout, KeysOf(Asks(env, rules, events))) && Roomy(other, KeysOf(Asks(env, rules, events)))
    ensures Served(env, rules, Some(Book(other, map[])), Arrivals(events)).1
            == Served(env, rules, Some(Book(layout, map[])), events).1
  {
    var p := BudgetsFit(env, rules);
    RunByAnswers(env, rules, p, layout, map[], events);
    RunByAnswers(env, rules, p, other, map[], Arrivals(events));
    AsksOfArrivals(env, rules, events);
    var ops := Asks(env, rules, events);
    RequestsKept(ops);
    RequestsClocked(ops);
    SweepsChangeNothing(layout, other, p, ops, Asks(env, rules, Arrivals(events)));
    RepliesToArrivals(env, rules, events, RunOps(layout, p, map[], ops).1);
  }

  lemma {:induction false} RequestsKept(ops: seq<Op>)
    ensures Requests(Requests(ops)) == Requests(ops)
    ensures forall o :: o in Requests(ops) <==> o in ops && o.Request?
    ensures KeysOf(Requests(ops)) == KeysOf(ops)
  {
    if ops != [] {
      RequestsKept(ops[1..]);
      assert ops == [ops[0]] + ops[1..];
      if ops[0].Request? {
        assert ([ops[0]] + Requests(ops[1..]))[1..] == Requests(ops[1..]);
      }
    }
  }

  lemma {:induction false} RequestsClocked(ops: seq<Op>)
    requires Clocked(ops)
    ensures Clocked(Requests(ops))
  {
    if ops != [] {
      var rest := ops[1..];
      RequestsClocked(rest);
      RequestsKept(rest);
      forall o | o in Requests(rest) && ops[0].Request? && o.key == ops[0].key
        ensures ops[0].at <= o.at
      {
        var j :| 0 <= j < |rest| && rest[j] == o;
        assert ops[j + 1] == o;
      }
      ClockedCons(ops[0], Requests(rest));
    }
  }

  lemma ClockedCons(op: Op, rest: seq<Op>)
    requires Clocked(rest)
    requires forall o | o in rest && o.Request? && op.Request? && o.key == op.key :: op.at <= o.at
    ensures op.Request? ==> Clocked([op] + rest)
  {
  }

  /** Requests with the same signals at the same time. */
  ghost predicate Alike(a: Request, b: Request) {
    SameSignals(a, b) && a.time == b.time
  }

  lemma {:induction false} VerdictBySignals(env: Env, rules: seq<Rule>, a: Request, b: Request)
    requires SameSignals(a, b)
    ensures Verdict(env, rules, a) == Verdict(env, rules, b)
  {
    if rules != [] {
      assert ValueOf(a, "host") == ValueOf(b, "host");
      if ValidRule(env, rules[0]) {
        HoldsBySignals(env.parse, rules[0].condition, a, b);
      }
      VerdictBySignals(env, rules[1..], a, b);
    }
  }

  lemma AskedBySignals(env: Env, book: Option<Book>, u: Rule, a: Request, b: Request)
    requires Alike(a, b) && ValidRule(env, u)
    ensures Asked(env, book, Some(u), a) == Asked(env, book, Some(u), b)
  {
    assert ValueOf(a, u.LimiterKey()) == ValueOf(b, u.LimiterKey());
    assert u.KeyFor(a) == u.KeyFor(b);
  }

  /** The requests of a log, as the replay decides them. */
  function Anew(log: seq<Request>): (events: seq<Event>)
    ensures |events| == |log|
  {
    seq(|log|, i requires 0 <= i < |log| => Arrives(Erased(log[i])))
  }

  ghost predicate AllAlike(a: seq<Event>, b: seq<Event>) {
    |a| == |b| && forall i | 0 <= i < |a| :: a[i].Arrives? && b[i].Arrives? && Alike(a[i].r, b[i].r)
  }

  lemma {:induction false} ServedBySignals(env: Env, rules: seq<Rule>, book: Option<Book>, a: seq<Event>, b: seq<Event>)
    requires AllAlike(a, b)
    ensures Served(env, rules, book, a) == Served(env, rules, book, b)
    decreases |a|
  {
    if a != [] {
      var q, r := a[0].r, b[0].r;
      VerdictBySignals(env, rules, q, r);
      var v := Verdict(env, rules, q);
      if v.Some? {
        AskedBySignals(env, book, v.value, q, r);
      }
      ServedBySignals(env, rules, Asked(env, book, v, q).0, a[1..], b[1..]);
    }
  }

  // ---------------------------------------------------------------- the report

  lemma {:induction false} ServedNext(env: Env, rules: seq<Rule>, book: Option<Book>, events: seq<Event>, r: Request)
    ensures var before := Served(env, rules, book, events);
            var v := Verdict(env, rules, r);
            Served(env, rules, book, events + [Arrives(r)])
            == (Asked(env, before.0, v, r).0, before.1 + [Settled(env, v, Asked(env, before.0, v, r).1)])
    decreases |events|
  {
    var all := events + [Arrives(r)];
    var v := Verdict(env, rules, r);
    if events == [] {
      assert all[1..] == [];
      var none: seq<Decision> := [];
      var d := Settled(env, v, Asked(env, book, v, r).1);
      assert Served(env, rules, Asked(env, book, v, r).0, all[1..]) == (Asked(env, book, v, r).0, none);
      assert [d] + none == none + [d];
    } else {
      assert all[1..] == events[1..] + [Arrives(r)] && all[0] == events[0];
      match events[0] {
        case SweptAt(at) => ServedNext(env, rules, SweepBook(book, at), events[1..], r);
        case Arrives(q) =>
          var w := Verdict(env, rules, q);
          var after := Asked(env, book, w, q);
          ServedNext(env, rules, after.0, events[1..], r);
          var inner := Served(env, rules, after.0, events[1..]);
          Associate([Settled(env, w, after.1)], inner.1, [Settled(env, v, Asked(env, inner.0, v, r).1)]);
      }
    }
  }

  /** The replay decides the log as the rules would, one request after the other. */
  lemma {:induction false} ReplayServes(env: Env, rules: seq<Rule>, book: Option<Book>, log: seq<Request>, samples: int)
    ensures Replayed(env, rules, book, log, samples).book == Served(env, rules, book, Anew(log)).0
    ensures |Served(env, rules, book, Anew(log)).1| == |log|
  {
    if log != [] {
      var n := |log| - 1;
      ReplayServes(env, rules, book, log[..n], samples);
      ServedNext(env, rules, book, Anew(log[..n]), Erased(log[n]));
      AnewNext(log);
    }
  }

  lemma AnewNext(log: seq<Request>)
    requires log != []
    ensures Anew(log) == Anew(log[..|log| - 1]) + [Arrives(Erased(log[|log| - 1]))]
  {
  }

  /** How many decisions differ from a recorded one in one particular way. */
  function Diverged(log: seq<Request>, ds: seq<Decision>, key: string): nat
    requires |log| == |ds|
  {
    if log == [] then 0
    else
      var n := |log| - 1;
      Diverged(log[..n], ds[..n], key)
      + if log[n].decision != "" && log[n].decision != ds[n].action && Divergence(log[n].decision, ds[n].action) == key
        then 1 else 0
  }

  function CountOf(m: Tallies, key: string): nat {
    if key in m then m[key] else 0
  }

  /** The tallies count the divergences, and are empty just when there is none. */
  ghost predicate Tells(reported: Tallies, log: seq<Request>, ds: seq<Decision>) {
    && |log| == |ds|
    && (forall key :: CountOf(reported, key) == Diverged(log, ds, key))
    && (reported == map[] <==> forall i | 0 <= i < |log| :: log[i].decision in {"", ds[i].action})
  }

  lemma TellsNext(reported: Tallies, log: seq<Request>, ds: seq<Decision>, r: Request, d: Decision)
    requires Tells(reported, log, ds)
    ensures Tells(if r.decision != "" && r.decision != d.action
                  then Bump(reported, Divergence(r.decision, d.action)) else reported, log + [r], ds + [d])
  {
    var differs := r.decision != "" && r.decision != d.action;
    var next := if differs then Bump(reported, Divergence(r.decision, d.action)) else reported;
    PushInit(log, r);
    PushInit(ds, d);
    forall key
      ensures CountOf(next, key) == Diverged(log + [r], ds + [d], key)
    {
      assert CountOf(reported, key) == Diverged(log, ds, key);
    }
    AllOrLast(log, ds, r, d);
    if differs {
      assert Divergence(r.decision, d.action) in next;
    }
  }

  lemma AllOrLast(log: seq<Request>, ds: seq<Decision>, r: Request, d: Decision)
    requires |log| == |ds|
    ensures (forall i | 0 <= i < |log + [r]| :: (log + [r])[i].decision in {"", (ds + [d])[i].action})
            <==> r.decision in {"", d.action} && forall i | 0 <= i < |log| :: log[i].decision in {"", ds[i].action}
  {
    var more, them := log + [r], ds + [d];
    assert more[|log|] == r && them[|log|] == d;
    assert forall i | 0 <= i < |log| :: more[i] == log[i] && them[i] == ds[i];
  }

  /** The divergences reported are exactly the recorded decisions that would be made
      differently, counted by what they were and what they would be. */
  lemma {:induction false} DivergencesExact(env: Env, rules: seq<Rule>, book: Option<Book>, log: seq<Request>,
                                            samples: int)
    ensures Tells(Replayed(env, rules, book, log, samples).report.divergences, log,
                  Served(env, rules, book, Anew(log)).1)
  {
    if log != [] {
      var n := |log| - 1;
      var r := Erased(log[n]);
      var before := Served(env, rules, book, Anew(log[..n]));
      var d := Settled(env, Verdict(env, rules, r), Asked(env, before.0, Verdict(env, rules, r), r).1);
      DivergencesExact(env, rules, book, log[..n], samples);
      ReplayServes(env, rules, book, log[..n], samples);
      TellsNext(Replayed(env, rules, book, log[..n], samples).report.divergences, log[..n], before.1, log[n], d);
      LastApart(log);
      assert Served(env, rules, book, Anew(log)).1 == before.1 + [d] by {
        AnewNext(log);
        ServedNext(env, rules, book, Anew(log[..n]), r);
      }
    }
  }

  // ---------------------------------------------------------------- the promise

  /** The log holds the requests in the order they were decided, each with its decision. */
  ghost predicate Recorded(log: seq<Request>, arrivals: seq<Event>, ds: seq<Decision>) {
    && |log| == |arrivals| == |ds|
    && forall i | 0 <= i < |log| ::
         arrivals[i].Arrives? && Alike(log[i], arrivals[i].r) && log[i].decision == ds[i].action
  }

  lemma ErasedAlike(r: Request)
    ensures Alike(Erased(r), r)
  {
  }

  /** Replaying a log kept in decision order with the rules it was made with gives every
      decision again, whatever sweeps happened in between, so that nothing diverges. */
  lemma ReplayReproduces(env: Env, rules: seq<Rule>, layout: Layout, other: Layout, events: seq<Event>,
                         log: seq<Request>, samples: int)
    requires OneBudget(env, rules) && Clocked(Asks(env, rules, events))
    requires Roomy(layout, KeysOf(Asks(env, rules, events))) && Roomy(other, KeysOf(Asks(env, rules, events)))
    requires Recorded(log, Arrivals(events), Served(env, rules, Some(Book(layout, map[])), events).1)
    ensures Served(env, rules, Some(Book(other, map[])), Anew(log)).1
            == Served(env, rules, Some(Book(layout, map[])), events).1
    ensures Replayed(env, rules, Some(Book(other, map[])), log, samples).report.divergences == map[]
  {
    SameDecisions(env, rules, layout, other, events);
    forall i | 0 <= i < |log|
      ensures Alike(Anew(log)[i].r, Arrivals(events)[i].r)
    {
      ErasedAlike(log[i]);
    }
    ServedBySignals(env, rules, Some(Book(other, map[])), Anew(log), Arrivals(events));
    DivergencesExact(env, rules, Some(Book(other, map[])), log, samples);
  }
}
