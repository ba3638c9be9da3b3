/** Running the rules over recorded events, as internal/replay/replay.go does, and why
    the same rules give every recorded decision again. */
module Replay {
  import opened Wrappers
  import opened Facts
  import opened Condition
  import opened Rules
  import opened RuleSets
  import opened RuleSetLaws
  import opened Sequences
  import opened Limit
  import opened LimitLaws

  datatype Stats = Stats(mode: string, action: string, matched: nat, ips: set<string>, hosts: set<string>,
                         uas: set<string>, samples: seq<Request>)

  type Tallies = map<string, nat>

  /** The result of a run so far; a time of zero is a time never set. */
  datatype Report = Report(events: nat, from: int, to: int, decisions: Tallies, divergences: Tallies,
                           rules: map<string, Stats>, ips: set<string>)

  const NO_REPORT := Report(0, 0, 0, map[], map[], map[], {})

  function Bump(m: Tallies, key: string): Tallies {
    m[key := 1 + if key in m then m[key] else 0]
  }

  function With(seen: set<string>, s: string): set<string> {
    if s == "" then seen else seen + {s}
  }

  function Divergence(was: string, now: string): string {
    was + "\U{2192}" + now
  }

  /** The event as it is decided anew: the recorded decision is erased. */
  function Erased(r: Request): Request {
    r.(decision := "", rule := "", shadow := [])
  }

  function ForRule(rules: map<string, Stats>, id: string, mode: string, action: string, r: Request, samples: int)
    : map<string, Stats>
  {
    var s := if id in rules then rules[id] else Stats(mode, action, 0, {}, {}, {}, []);
    rules[id := Stats(s.mode, s.action, s.matched + 1, With(s.ips, r.ip), With(s.hosts, r.host),
                      With(s.uas, r.ua), if |s.samples| < samples then s.samples + [r] else s.samples)]
  }

  function ForShadows(rules: map<string, Stats>, ids: seq<string>, r: Request, samples: int): map<string, Stats> {
    if ids == [] then rules
    else ForRule(ForShadows(rules, ids[..|ids| - 1], r, samples), ids[|ids| - 1], SHADOW, "", r, samples)
  }

  /** The result with one more event: `r` as recorded, `noted` and `d` as decided now. */
  function Recount(report: Report, r: Request, noted: Request, d: Decision, samples: int): Report {
    Report(
      report.events + 1,
      if report.from == 0 || r.time < report.from then r.time else report.from,
      if r.time > report.to then r.time else report.to,
      Bump(report.decisions, d.action),
      if r.decision != "" && r.decision != d.action
      then Bump(report.divergences, Divergence(r.decision, d.action)) else report.divergences,
      ForShadows(if d.rule != "" then ForRule(report.rules, d.rule, ACTIVE, d.action, noted, samples) else report.rules,
                 noted.shadow, noted, samples),
      With(report.ips, r.ip))
  }

  datatype Progress = Progress(book: Option<Book>, report: Report)

  /** One event: decided anew against the limiter, and counted. */
  function Next(env: Env, rules: seq<Rule>, p: Progress, event: Request, samples: int): Progress {
    var r := Erased(event);
    var v := Verdict(env, rules, r);
    Progress(Asked(env, p.book, v, r).0,
             Recount(p.report, event, Noted(env, r, Marks(env, rules, r)), Settled(env, v, Asked(env, p.book, v, r).1),
                     samples))
  }

  /** The whole run, event after event, against a limiter. */
  function Replayed(env: Env, rules: seq<Rule>, book: Option<Book>, log: seq<Request>, samples: int): Progress {
    if log == [] then Progress(book, NO_REPORT)
    else Next(env, rules, Replayed(env, rules, book, log[..|log| - 1], samples), log[|log| - 1], samples)
  }

  /** Where a run started, and what it has been through. */
  datatype Story = Story(start: Option<Book>, log: seq<Request>) {
    ghost function Told(set_: RuleSet, samples: int): Progress {
      Replayed(set_.env, RulesOf(set_.rules), start, log, samples)
    }
  }

  lemma ToldNext(set_: RuleSet, so: Story, event: Request, samples: int)
    ensures so.(log := so.log + [event]).Told(set_, samples)
            == Next(set_.env, RulesOf(set_.rules), so.Told(set_, samples), event, samples)
  {
    PushInit(so.log, event);
  }

  class Result {
    var events: nat
    var from: int
    var to: int
    var decisions: Tallies
    var divergences: Tallies
    var rules: map<string, Stats>
    var ips: set<string>

    ghost function View(): Report
      reads this
    {
      Report(events, from, to, decisions, divergences, rules, ips)
    }

    constructor ()
      ensures View() == NO_REPORT
    {
      events, from, to := 0, 0, 0;
      decisions, divergences, rules, ips := map[], map[], map[], {};
    }

    method CountRule(id: string, mode: string, action: string, r: Request, samples: int)
      modifies this`rules
      ensures rules == ForRule(old(rules), id, mode, action, r, samples)
    {
      var s := if id in rules then rules[id] else Stats(mode, action, 0, {}, {}, {}, []);
      s := s.(matched := s.matched + 1);
      if r.ip != "" { s := s.(ips := s.ips + {r.ip}); }
      if r.host != "" { s := s.(hosts := s.hosts + {r.host}); }
      if r.ua != "" { s := s.(uas := s.uas + {r.ua}); }
      if |s.samples| < samples { s := s.(samples := s.samples + [r]); }
      rules := rules[id := s];
    }

    method CountShadows(noted: Request, samples: int)
      modifies this`rules
      ensures rules == ForShadows(old(rules), noted.shadow, noted, samples)
    {
      for i := 0 to |noted.shadow|
        invariant rules == ForShadows(old(rules), noted.shadow[..i], noted, samples)
      {
        PushInit(noted.shadow[..i], noted.shadow[i]);
        TakeNext(noted.shadow, i);
        CountRule(noted.shadow[i], SHADOW, "", noted, samples);
      }
      TakeAll(noted.shadow);
    }

    method CountTotals(r: Request, action: string)
      modifies this`events, this`from, this`to, this`ips, this`decisions, this`divergences
      ensures View() == Recount(old(View()), r, r, Decision(action, "", "", 0, ""), 0).(rules := old(rules))
    {
      events := events + 1;
      if from == 0 || r.time < from { from := r.time; }
      if r.time > to { to := r.time; }
      if r.ip != "" { ips := ips + {r.ip}; }
      decisions := Bump(decisions, action);
      if r.decision != "" && r.decision != action {
        divergences := Bump(divergences, Divergence(r.decision, action));
      }
    }

    /** Decides one event anew and counts it. */
    method Event(set_: RuleSet, event: Request, samples: int)
      requires set_.Valid()
      modifies this, set_.limiter, set_.Entries()
      ensures set_.Valid() && forall e | e in set_.Entries() :: e in old(set_.Entries()) || fresh(e)
      ensures Progress(set_.Held(), View())
              == Next(set_.env, RulesOf(set_.rules), old(Progress(set_.Held(), View())), event, samples)
    {
      var noted, d := Redecide(set_, event);
      Count(event, noted, d, samples);
    }

    method Count(event: Request, noted: Request, d: Decision, samples: int)
      modifies this
      ensures View() == Recount(old(View()), event, noted, d, samples)
    {
      CountTotals(event, d.action);
      if d.rule != "" {
        CountRule(d.rule, ACTIVE, d.action, noted, samples);
      }
      CountShadows(noted, samples);
    }
  }

  /** Decides an event without what was recorded of its decision. */
  method Redecide(set_: RuleSet, event: Request) returns (noted: Request, d: Decision)
    requires set_.Valid()
    modifies set_.limiter, set_.Entries()
    ensures set_.Valid() && forall e | e in set_.Entries() :: e in old(set_.Entries()) || fresh(e)
    ensures var r, rules := Erased(event), RulesOf(set_.rules);
            var a := Asked(set_.env, old(set_.Held()), Verdict(set_.env, rules, r), r);
            && noted == Noted(set_.env, r, Marks(set_.env, rules, r))
            && d == Settled(set_.env, Verdict(set_.env, rules, r), a.1) && set_.Held() == a.0
  {
    noted, d := set_.Decide(Erased(event));
  }

  /** Applies the set to every event, in the order of the log. */
  method Run(set_: RuleSet, log: seq<Request>, samples: int) returns (result: Result)
    requires set_.Valid()
    modifies set_.limiter, set_.Entries()
    ensures fresh(result) && set_.Valid()
    ensures Progress(set_.Held(), result.View())
            == Replayed(set_.env, RulesOf(set_.rules), old(set_.Held()), log, samples)
  {
    result := new Result();
    ghost var first := set_.Entries();
    ghost var so := Story(set_.Held(), []);
    for i := 0 to |log|
      invariant fresh(result) && set_.Valid()
      invariant forall e | e in set_.Entries() :: e in first || fresh(e)
      invariant so == Story(old(set_.Held()), log[..i])
      invariant Progress(set_.Held(), result.View()) == so.Told(set_, samples)
    {
      TakeNext(log, i);
      ToldNext(set_, so, log[i], samples);
      result.Event(set_, log[i], samples);
      so := so.(log := so.log + [log[i]]);
    }
    TakeAll(log);
  }
}
