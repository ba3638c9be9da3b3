/** What a replay reports: every tally of the result, said of the decisions the log gets. */
module ReplayReport {
  import opened Wrappers
  import opened Ordering
  import opened Facts
  import opened Condition
  import opened Rules
  import opened RuleSets
  import opened RuleSetLaws
  import opened Sequences
  import opened Sums
  import opened Replay
  import opened ReplayLaws

  /** The decisions a log gets. */
  function Decided(env: Env, rules: seq<Rule>, book: Option<Book>, log: seq<Request>): seq<Decision> {
    Served(env, rules, book, Anew(log)).1
  }

  lemma DecidedNext(env: Env, rules: seq<Rule>, book: Option<Book>, log: seq<Request>, samples: int)
    returns (d: Decision)
    requires log != []
    ensures var n := |log| - 1;
            && Decided(env, rules, book, log) == Decided(env, rules, book, log[..n]) + [d]
            && |Decided(env, rules, book, log[..n])| == n
            && Replayed(env, rules, book, log, samples).report
               == Recount(Replayed(env, rules, book, log[..n], samples).report, log[n],
                          NotedAnew(env, rules, log[n]), d, samples)
  {
    var n := |log| - 1;
    var r := Erased(log[n]);
    var before := Served(env, rules, book, Anew(log[..n]));
    d := Settled(env, Verdict(env, rules, r), Asked(env, before.0, Verdict(env, rules, r), r).1);
    ReplayServes(env, rules, book, log[..n], samples);
    AnewNext(log);
    ServedNext(env, rules, book, Anew(log[..n]), r);
  }

  /** The event as it is decided anew, with the shadows that fired. */
  function NotedAnew(env: Env, rules: seq<Rule>, event: Request): Request {
    Noted(env, Erased(event), Marks(env, rules, Erased(event)))
  }

  // ---------------------------------------------------------------- decisions, addresses, times

  ghost predicate Acts(ds: seq<Decision>, action: string, i: int) {
    0 <= i < |ds| && ds[i].action == action
  }

  ghost predicate Least(log: seq<Request>, from: int, z: nat)
    requires z <= |log|
  {
    && (z > 0 ==> log[z - 1].time == 0) && (forall i | z <= i < |log| :: log[i].time != 0 && from <= log[i].time)
    && (if z == |log| then from == 0 else exists i | z <= i < |log| :: log[i].time == from)
  }

  /** Times are counted from the zero time on. */
  ghost predicate NoneNegative(log: seq<Request>) {
    forall i | 0 <= i < |log| :: log[i].time >= 0
  }

  /** The totals of a report: a decision is tallied as often as it was made; the addresses are
      all that occur; `to` is the latest time; `from` the earliest, counted anew after an event
      without a time, which is how the source tells a time never set. */
  ghost predicate Totals(report: Report, log: seq<Request>, ds: seq<Decision>) {
    && |ds| == |log| == report.events
    && (forall action :: CountOf(report.decisions, action) == |Places(|ds|, i => Acts(ds, action, i))|)
    && (forall ip :: ip in report.ips <==> ip != "" && exists i | 0 <= i < |log| :: log[i].ip == ip)
    && (NoneNegative(log) ==> exists z | 0 <= z <= |log| :: Least(log, report.from, z))
    && report.to >= 0 && (forall i | 0 <= i < |log| :: log[i].time <= report.to)
    && (report.to > 0 ==> exists i | 0 <= i < |log| :: log[i].time == report.to)
  }

  lemma DecisionsNext(tallies: Tallies, ds: seq<Decision>, d: Decision)
    requires forall action :: CountOf(tallies, action) == |Places(|ds|, i => Acts(ds, action, i))|
    ensures forall action ::
              CountOf(Bump(tallies, d.action), action) == |Places(|ds| + 1, i => Acts(ds + [d], action, i))|
  {
    forall action
      ensures CountOf(Bump(tallies, d.action), action) == |Places(|ds| + 1, i => Acts(ds + [d], action, i))|
    {
      assert CountOf(tallies, action) == |Places(|ds|, i => Acts(ds, action, i))|;
      PlacesNext(|ds|, i => Acts(ds + [d], action, i));
      PlacesAlike(|ds|, i => Acts(ds + [d], action, i), i => Acts(ds, action, i));
    }
  }

  lemma AddressesNext(ips: set<string>, log: seq<Request>, r: Request)
    requires forall ip :: ip in ips <==> ip != "" && exists i | 0 <= i < |log| :: log[i].ip == ip
    ensures forall ip ::
              ip in With(ips, r.ip) <==> ip != "" && exists i | 0 <= i < |log + [r]| :: (log + [r])[i].ip == ip
  {
    var more := log + [r];
    assert more[|log|] == r && forall i | 0 <= i < |log| :: more[i] == log[i];
    forall ip
      ensures ip in With(ips, r.ip) <==> ip != "" && exists i | 0 <= i < |more| :: more[i].ip == ip
    {
      if ip in ips {
        var i :| 0 <= i < |log| && log[i].ip == ip;
        assert more[i].ip == ip;
      }
    }
  }

  lemma FromNext(log: seq<Request>, from: int, z: nat, r: Request) returns (y: nat)
    requires z <= |log| && Least(log, from, z) && NoneNegative(log) && r.time >= 0
    ensures y <= |log| + 1
    ensures Least(log + [r], if from == 0 || r.time < from then r.time else from, y)
  {
    var more := log + [r];
    assert more[|log|] == r && forall i | 0 <= i < |log| :: more[i] == log[i];
    y := if r.time == 0 then |log| + 1 else z;
    if y == z && z < |log| && !(from == 0 || r.time < from) {
      var i :| z <= i < |log| && log[i].time == from;
      assert more[i].time == from;
    }
  }

  const ADDED: Monoid<int> := Monoid((a: int, b: int) => a + b, 0)

  function Whole(n: int): int { n }

  /** All tallies together. */
  ghost function Sum(tallies: map<string, int>): int {
    MapSum(ADDED, tallies, Whole)
  }

  lemma SumBump(tallies: Tallies, action: string)
    ensures Sum(Bump(tallies, action)) == Sum(tallies) + 1
  {
    BumpSum(tallies, Bump(tallies, action), action);
  }

  lemma BumpSum(f: map<string, int>, g: map<string, int>, key: string)
    requires g == f[key := 1 + if key in f then f[key] else 0]
    ensures MapSum(ADDED, g, Whole) == MapSum(ADDED, f, Whole) + 1
  {
    var rest := f - {key};
    assert g == rest[key := g[key]];
    MapSumAdd(ADDED, rest, Whole, key, g[key]);
    if key in f {
      MapSumRemove(ADDED, f, Whole, key);
    } else {
      assert rest == f;
    }
  }

  lemma TimesNext(log: seq<Request>, to: int, r: Request)
    requires to >= 0 && (forall i | 0 <= i < |log| :: log[i].time <= to)
    requires to > 0 ==> exists i | 0 <= i < |log| :: log[i].time == to
    ensures var next, more := if r.time > to then r.time else to, log + [r];
            && next >= 0 && (forall i | 0 <= i < |more| :: more[i].time <= next)
            && (next > 0 ==> exists i | 0 <= i < |more| :: more[i].time == next)
  {
    var more := log + [r];
    assert more[|log|] == r && forall i | 0 <= i < |log| :: more[i] == log[i];
    if to > 0 && r.time <= to {
      var i :| 0 <= i < |log| && log[i].time == to;
      assert more[i].time == to;
    }
  }

  lemma TotalsNext(report: Report, next: Report, log: seq<Request>, ds: seq<Decision>, r: Request, d: Decision)
    requires Totals(report, log, ds)
    requires next.events == report.events + 1 && next.decisions == Bump(report.decisions, d.action)
    requires next.from == if report.from == 0 || r.time < report.from then r.time else report.from
    requires next.to == if r.time > report.to then r.time else report.to
    requires next.ips == With(report.ips, r.ip)
    ensures Totals(next, log + [r], ds + [d])
  {
    DecisionsNext(report.decisions, ds, d);
    AddressesNext(report.ips, log, r);
    TimesNext(log, report.to, r);
    FromStays(report, next, log, r);
  }

  lemma FromStays(report: Report, next: Report, log: seq<Request>, r: Request)
    requires NoneNegative(log) ==> exists z | 0 <= z <= |log| :: Least(log, report.from, z)
    requires next.from == if report.from == 0 || r.time < report.from then r.time else report.from
    ensures NoneNegative(log + [r]) ==> exists z | 0 <= z <= |log + [r]| :: Least(log + [r], next.from, z)
  {
    if NoneNegative(log + [r]) {
      PushInit(log, r);
      assert forall i | 0 <= i < |log| :: log[i] == (log + [r])[i];
      assert (log + [r])[|log|].time >= 0;
      var z :| 0 <= z <= |log| && Least(log, report.from, z);
      var y := FromNext(log, report.from, z, r);
    }
  }

  /** The totals of every replay. */
  lemma {:induction false} TotalsExact(env: Env, rules: seq<Rule>, book: Option<Book>, log: seq<Request>, samples: int)
    ensures var report := Replayed(env, rules, book, log, samples).report;
            Totals(report, log, Decided(env, rules, book, log)) && Sum(report.decisions) == |log|
  {
    var report := Replayed(env, rules, book, log, samples).report;
    if log == [] {
      assert Least(log, 0, 0);
      assert Sum(map[]) == 0;
    } else {
      var n := |log| - 1;
      TotalsExact(env, rules, book, log[..n], samples);
      var d := DecidedNext(env, rules, book, log, samples);
      var before := Replayed(env, rules, book, log[..n], samples).report;
      TotalsNext(before, report, log[..n], Decided(env, rules, book, log[..n]), log[n], d);
      SumBump(before.decisions, d.action);
      LastApart(log);
    }
  }

  // ---------------------------------------------------------------- rule by rule

  /** An event that counts for a rule: because the rule decided it, or as a shadow. */
  datatype Touch = Touch(mode: string, action: string, r: Request)

  function MarkedBy(noted: Request, ids: seq<string>, id: string): seq<Touch> {
    if ids == [] then []
    else MarkedBy(noted, ids[..|ids| - 1], id) + if ids[|ids| - 1] == id then [Touch("shadow", "", noted)] else []
  }

  function DecidedBy(noted: Request, d: Decision, id: string): seq<Touch> {
    if d.rule == id && id != "" then [Touch("active", d.action, noted)] else []
  }

  /** All that counts for a rule over a log, in order. */
  function Touches(env: Env, rules: seq<Rule>, log: seq<Request>, ds: seq<Decision>, id: string): seq<Touch>
    requires |log| == |ds|
  {
    if log == [] then []
    else
      var n := |log| - 1;
      var noted := NotedAnew(env, rules, log[n]);
      Touches(env, rules, log[..n], ds[..n], id) + DecidedBy(noted, ds[n], id) + MarkedBy(noted, noted.shadow, id)
  }

  ghost predicate Seen(seen: set<string>, touches: seq<Touch>, of: Request -> string) {
    forall x :: x in seen <==> x != "" && exists i | 0 <= i < |touches| :: of(touches[i].r) == x
  }

  function RequestsOf(touches: seq<Touch>): (rs: seq<Request>)
    ensures |rs| == |touches|
  {
    seq(|touches|, i requires 0 <= i < |touches| => touches[i].r)
  }

  /** The statistics of a rule: how many events count for it, the addresses, hosts and clients
      they came from, the first few of them, and the mode and action of the first. */
  ghost predicate Tells(rules: map<string, Stats>, id: string, touches: seq<Touch>, samples: int) {
    && (id in rules <==> touches != [])
    && (id in rules ==>
          var s := rules[id];
          && s.mode == touches[0].mode && s.action == touches[0].action && s.matched == |touches|
          && Seen(s.ips, touches, (r: Request) => r.ip) && Seen(s.hosts, touches, (r: Request) => r.host)
          && Seen(s.uas, touches, (r: Request) => r.ua)
          && s.samples
             == RequestsOf(touches)[..if samples <= 0 then 0 else if samples < |touches| then samples else |touches|])
  }

  lemma SeenNext(seen: set<string>, touches: seq<Touch>, t: Touch, of: Request -> string)
    requires Seen(seen, touches, of)
    ensures Seen(With(seen, of(t.r)), touches + [t], of)
  {
    var more := touches + [t];
    assert more[|touches|] == t && forall i | 0 <= i < |touches| :: more[i] == touches[i];
    forall x
      ensures x in With(seen, of(t.r)) <==> x != "" && exists i | 0 <= i < |more| :: of(more[i].r) == x
    {
      if x in seen {
        var i :| 0 <= i < |touches| && of(touches[i].r) == x;
        assert of(more[i].r) == x;
      }
    }
  }

  lemma SamplesNext(touches: seq<Touch>, t: Touch, samples: int, kept: seq<Request>)
    requires kept
             == RequestsOf(touches)[..if samples <= 0 then 0 else if samples < |touches| then samples else |touches|]
    ensures (if |kept| < samples then kept + [t.r] else kept)
            == RequestsOf(touches + [t])[..if samples <= 0 then 0
                                          else if samples < |touches| + 1 then samples else |touches| + 1]
  {
    assert RequestsOf(touches + [t]) == RequestsOf(touches) + [t.r];
  }

  lemma RuleTells(rules: map<string, Stats>, id: string, touches: seq<Touch>, t: Touch, samples: int)
    requires Tells(rules, id, touches, samples)
    ensures Tells(ForRule(rules, id, t.mode, t.action, t.r, samples), id, touches + [t], samples)
  {
    var s := if id in rules then rules[id] else Stats(t.mode, t.action, 0, {}, {}, {}, []);
    SeenNext(s.ips, touches, t, (r: Request) => r.ip);
    SeenNext(s.hosts, touches, t, (r: Request) => r.host);
    SeenNext(s.uas, touches, t, (r: Request) => r.ua);
    SamplesNext(touches, t, samples, s.samples);
    assert (touches + [t])[0] == if touches == [] then t else touches[0];
  }

  lemma OtherRule(rules: map<string, Stats>, other: string, id: string, touches: seq<Touch>, t: Touch, samples: int)
    requires Tells(rules, id, touches, samples) && other != id
    ensures Tells(ForRule(rules, other, t.mode, t.action, t.r, samples), id, touches, samples)
  {
  }

  lemma {:induction false} ShadowsTell(rules: map<string, Stats>, ids: seq<string>, noted: Request, id: string,
                                       touches: seq<Touch>, samples: int)
    requires Tells(rules, id, touches, samples)
    ensures Tells(ForShadows(rules, ids, noted, samples), id, touches + MarkedBy(noted, ids, id), samples)
  {
    if ids == [] {
      AppendNothing(touches, MarkedBy(noted, ids, id));
    } else {
      var n := |ids| - 1;
      ShadowsTell(rules, ids[..n], noted, id, touches, samples);
      var before, t := ForShadows(rules, ids[..n], noted, samples), Touch("shadow", "", noted);
      var so := touches + MarkedBy(noted, ids[..n], id);
      if ids[n] == id {
        RuleTells(before, id, so, t, samples);
        Associate(touches, MarkedBy(noted, ids[..n], id), [t]);
      } else {
        OtherRule(before, ids[n], id, so, t, samples);
        AppendNothing(MarkedBy(noted, ids[..n], id), []);
      }
    }
  }

  lemma EventTells(report: Report, r: Request, noted: Request, d: Decision, id: string, touches: seq<Touch>,
                   samples: int)
    requires Tells(report.rules, id, touches, samples)
    ensures Tells(Recount(report, r, noted, d, samples).rules, id,
                  touches + DecidedBy(noted, d, id) + MarkedBy(noted, noted.shadow, id), samples)
  {
    var rules := if d.rule != "" then ForRule(report.rules, d.rule, ACTIVE, d.action, noted, samples) else report.rules;
    var t := Touch("active", d.action, noted);
    if d.rule == id && id != "" {
      RuleTells(report.rules, id, touches, t, samples);
    } else {
      AppendNothing(touches, DecidedBy(noted, d, id));
      if d.rule != "" {
        OtherRule(report.rules, d.rule, id, touches, t, samples);
      }
    }
    ShadowsTell(rules, noted.shadow, noted, id, touches + DecidedBy(noted, d, id), samples);
  }

  /** The statistics of every rule over every log. */
  lemma {:induction false} RulesExact(env: Env, rules: seq<Rule>, book: Option<Book>, log: seq<Request>, samples: int,
                                      id: string)
    ensures |Decided(env, rules, book, log)| == |log|
    ensures Tells(Replayed(env, rules, book, log, samples).report.rules, id,
                  Touches(env, rules, log, Decided(env, rules, book, log), id), samples)
  {
    if log != [] {
      var n := |log| - 1;
      RulesExact(env, rules, book, log[..n], samples, id);
      var d := DecidedNext(env, rules, book, log, samples);
      EventTells(Replayed(env, rules, book, log[..n], samples).report, log[n], NotedAnew(env, rules, log[n]), d, id,
                 Touches(env, rules, log[..n], Decided(env, rules, book, log[..n]), id), samples);
    }
  }

  // ---------------------------------------------------------------- how often a rule matched

  ghost predicate Named(ds: seq<Decision>, id: string, i: int) {
    0 <= i < |ds| && ds[i].rule == id
  }

  /** The ids of the shadows marked on every event of a log. */
  function MarkIds(env: Env, rules: seq<Rule>, log: seq<Request>): (ms: seq<seq<string>>)
    ensures |ms| == |log|
  {
    seq(|log|, i requires 0 <= i < |log| => Ids(Marks(env, rules, Erased(log[i]))))
  }

  ghost predicate Shaded(marks: seq<seq<string>>, id: string, i: int) {
    0 <= i < |marks| && id in marks[i]
  }

  lemma {:induction false} MarkedOnce(noted: Request, ids: seq<string>, id: string)
    requires forall i, j | 0 <= i < j < |ids| :: ids[i] != ids[j]
    ensures |MarkedBy(noted, ids, id)| == if id in ids then 1 else 0
  {
    if ids != [] {
      var n := |ids| - 1;
      MarkedOnce(noted, ids[..n], id);
      LastApart(ids);
      if id in ids[..n] {
        var i :| 0 <= i < n && ids[..n][i] == id;
        assert ids[i] != ids[n];
      }
    }
  }

  lemma IdsApart(list: seq<Rule>, marks: seq<Rule>)
    requires DistinctIds(list) && Ranked(marks) && forall m | m in marks :: m in list
    requires StrictTotalOn(Before, Members(list))
    ensures forall i, j | 0 <= i < j < |marks| :: Ids(marks)[i] != Ids(marks)[j]
  {
    forall i, j | 0 <= i < j < |marks|
      ensures marks[i].id != marks[j].id
    {
      assert marks[i] in list && marks[j] in list && Before(marks[i], marks[j]);
      assert marks[i] in Members(list);
      var k :| 0 <= k < |list| && list[k] == marks[i];
      var l :| 0 <= l < |list| && list[l] == marks[j];
    }
  }

  lemma MarkIdsApart(env: Env, list: seq<Rule>, r: Request)
    requires DistinctIds(list)
    ensures var ids := Ids(Marks(env, Effective(list), r)); forall i, j | 0 <= i < j < |ids| :: ids[i] != ids[j]
  {
    MarksOrdered(env, list, r);
    MarksLead(env, list, r);
    BeforeTotal(list);
    IdsApart(list, Marks(env, Effective(list), r));
  }

  ghost function NamedCount(ds: seq<Decision>, id: string): nat {
    |Places(|ds|, i => Named(ds, id, i))|
  }

  ghost function ShadedCount(marks: seq<seq<string>>, id: string): nat {
    |Places(|marks|, i => Shaded(marks, id, i))|
  }

  lemma NamedNext(ds: seq<Decision>, id: string)
    requires ds != []
    ensures var n := |ds| - 1; NamedCount(ds, id) == NamedCount(ds[..n], id) + if ds[n].rule == id then 1 else 0
  {
    var n := |ds| - 1;
    PlacesNext(n, i => Named(ds, id, i));
    PlacesAlike(n, i => Named(ds, id, i), i => Named(ds[..n], id, i));
  }

  lemma ShadedNext(marks: seq<seq<string>>, id: string)
    requires marks != []
    ensures var n := |marks| - 1;
            ShadedCount(marks, id) == ShadedCount(marks[..n], id) + if id in marks[n] then 1 else 0
  {
    var n := |marks| - 1;
    PlacesNext(n, i => Shaded(marks, id, i));
    PlacesAlike(n, i => Shaded(marks, id, i), i => Shaded(marks[..n], id, i));
  }

  lemma MarkIdsInit(env: Env, rules: seq<Rule>, log: seq<Request>)
    requires log != []
    ensures MarkIds(env, rules, log)[..|log| - 1] == MarkIds(env, rules, log[..|log| - 1])
  {
  }

  /** A rule matched as many events as it decided and was marked on. */
  lemma {:induction false} MatchedExact(env: Env, list: seq<Rule>, log: seq<Request>, ds: seq<Decision>, id: string)
    requires DistinctIds(list) && |log| == |ds| && id != ""
    ensures |Touches(env, Effective(list), log, ds, id)|
            == NamedCount(ds, id) + ShadedCount(MarkIds(env, Effective(list), log), id)
  {
    if log == [] {
      assert Places(0, i => Named(ds, id, i)) == {} == Places(0, i => Shaded([], id, i));
      assert MarkIds(env, Effective(list), log) == [];
    } else {
      var n := |log| - 1;
      MatchedExact(env, list, log[..n], ds[..n], id);
      MarkIdsApart(env, list, Erased(log[n]));
      TouchesNext(env, Effective(list), log, ds, id);
      NamedNext(ds, id);
      ShadedNext(MarkIds(env, Effective(list), log), id);
      MarkIdsInit(env, Effective(list), log);
    }
  }

  lemma NotedShadow(env: Env, rules: seq<Rule>, event: Request)
    ensures NotedAnew(env, rules, event).shadow == Ids(Marks(env, rules, Erased(event)))
  {
    assert [] + Ids(Marks(env, rules, Erased(event))) == Ids(Marks(env, rules, Erased(event)));
  }

  lemma TouchesNext(env: Env, rules: seq<Rule>, log: seq<Request>, ds: seq<Decision>, id: string)
    requires |log| == |ds| > 0 && id != ""
    requires var ids := Ids(Marks(env, rules, Erased(log[|log| - 1])));
             forall i, j | 0 <= i < j < |ids| :: ids[i] != ids[j]
    ensures var n := |log| - 1;
            |Touches(env, rules, log, ds, id)|
            == |Touches(env, rules, log[..n], ds[..n], id)| + (if ds[n].rule == id then 1 else 0)
               + if id in Ids(Marks(env, rules, Erased(log[n]))) then 1 else 0
  {
    var n := |log| - 1;
    NotedShadow(env, rules, log[n]);
    MarkedOnce(NotedAnew(env, rules, log[n]), Ids(Marks(env, rules, Erased(log[n]))), id);
  }
}
