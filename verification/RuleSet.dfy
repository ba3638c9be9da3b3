/** The rule set of internal/rules/set.go: the rules in the order they are applied,
    and the walk that decides about one request. */
module RuleSets {
  import opened Wrappers
  import opened Ordering
  import opened Sequences
  import opened Facts
  import opened Condition
  import opened Keys
  import opened Rules
  import Limit

  /** What to do with a request. */
  datatype Decision = Decision(action: string, rule: string, hash: string, status: int, body: string)

  const PASSED := Decision(PASS, "", "", 0, "")

  // ---------------------------------------------------------------- meaning

  /** Higher priority first, then by id. */
  predicate Before(a: Rule, b: Rule) {
    if a.priority != b.priority then a.priority > b.priority else StringLess(a.id, b.id)
  }

  predicate DistinctIds(list: seq<Rule>) {
    forall i, j | 0 <= i < j < |list| :: list[i].id != list[j].id
  }

  predicate AllValid(env: Env, rules: seq<Rule>) {
    forall i | 0 <= i < |rules| :: ValidRule(env, rules[i])
  }

  predicate Buildable(env: Env, list: seq<Rule>) {
    AllValid(env, list) && DistinctIds(list)
  }

  /** Why the i-th rule discards the whole set. */
  predicate Faulty(env: Env, list: seq<Rule>, i: nat)
    requires i < |list|
  {
    (list[i].id != "" && exists k | 0 <= k < i :: list[k].id == list[i].id) || !ValidRule(env, list[i])
  }

  function EnabledOf(list: seq<Rule>): seq<Rule> {
    if list == [] then []
    else EnabledOf(list[..|list| - 1]) + if list[|list| - 1].Enabled() then [list[|list| - 1]] else []
  }

  /** The rules in the order they are applied. */
  function Effective(list: seq<Rule>): seq<Rule> {
    Sort(Before, EnabledOf(list))
  }

  predicate Decides(env: Env, rule: Rule, r: Request) {
    ValidRule(env, rule) && rule.mode != SHADOW && Fires(env, rule, r)
  }

  predicate Watches(env: Env, rule: Rule, r: Request) {
    ValidRule(env, rule) && rule.mode == SHADOW && Fires(env, rule, r)
  }

  /** The first active rule that fires. */
  function Verdict(env: Env, rules: seq<Rule>, r: Request): (v: Option<Rule>)
    ensures v.Some? ==> v.value in rules && Decides(env, v.value, r)
  {
    if rules == [] then None
    else if Decides(env, rules[0], r) then Some(rules[0])
    else Verdict(env, rules[1..], r)
  }

  /** The shadow rules that fire on the way there. */
  function Marks(env: Env, rules: seq<Rule>, r: Request): seq<Rule> {
    if rules == [] || Decides(env, rules[0], r) then []
    else (if Watches(env, rules[0], r) then [rules[0]] else []) + Marks(env, rules[1..], r)
  }

  function Noted(env: Env, r: Request, marks: seq<Rule>): Request {
    r.(shadow := r.shadow + Ids(marks), shadowHashes := r.shadowHashes + Hashes(env, marks))
  }

  function Ids(rules: seq<Rule>): (ids: seq<string>)
    ensures |ids| == |rules|
  {
    seq(|rules|, i requires 0 <= i < |rules| => rules[i].id)
  }

  function Hashes(env: Env, rules: seq<Rule>): (hashes: seq<string>)
    ensures |hashes| == |rules|
  {
    seq(|rules|, i requires 0 <= i < |rules| => env.digest(rules[i].condition, rules[i].action))
  }

  function Answer(env: Env, rule: Rule, action: string): Decision {
    Decision(action, rule.id, env.digest(rule.condition, rule.action),
             if action in {BLOCK, RATELIMIT} then rule.action.status else 0,
             if action in {BLOCK, RATELIMIT} then rule.action.body else "")
  }

  /** What the rule that fired asks of the limiter. */
  predicate Counts(verdict: Option<Rule>) {
    verdict.Some? && verdict.value.action.kind == RATELIMIT
  }

  /** A limiter, as far as its answers go. */
  datatype Book = Book(layout: Limit.Layout, table: Limit.Table)

  /** What becomes of the limiter, and whether it says the limit is used up. Without a
      limiter, or for a rule that does not count, nothing is asked. */
  function Asked(env: Env, book: Option<Book>, verdict: Option<Rule>, r: Request): (Option<Book>, bool)
    requires verdict.Some? ==> ValidRule(env, verdict.value)
  {
    if book.None? || !Counts(verdict) then (book, false)
    else
      var rule := verdict.value;
      var (table, exceeded) := Limit.Ask(book.value.layout, book.value.table, rule.KeyFor(r),
                                         rule.action.limit, WindowOf(env, rule), r.time);
      (Some(book.value.(table := table)), exceeded)
  }

  /** The decision, given the verdict and the limiter's answer, if it was asked. */
  function Settled(env: Env, verdict: Option<Rule>, exceeded: bool): Decision {
    match verdict
    case None => PASSED
    case Some(rule) =>
      if rule.action.kind == RATELIMIT then Answer(env, rule, if exceeded then RATELIMIT else PASS)
      else Answer(env, rule, rule.action.kind)
  }

  /** What a rule says of a request it decides, whether or not its limit is used up. */
  ghost predicate Speaks(env: Env, v: Rule, exceeded: bool, d: Decision) {
    && d.rule == v.id && d.hash == env.digest(v.condition, v.action)
    && (d.action == "allow" <==> v.action.kind == "allow")
    && (d.action == "block" <==> v.action.kind == "block")
    && (d.action == "ratelimit" <==> v.action.kind == "ratelimit" && exceeded)
    && (d.action == "pass" <==> v.action.kind == "ratelimit" && !exceeded)
    && (d.action in {"block", "ratelimit"} ==> d.status == v.action.status && d.body == v.action.body)
    && (d.action in {"allow", "pass"} ==> d.status == 0 && d.body == "")
  }

  /** The request passes when no rule leads, and otherwise gets what that rule says. */
  ghost predicate Said(env: Env, verdict: Option<Rule>, exceeded: bool, d: Decision) {
    match verdict
    case None => d == Decision("pass", "", "", 0, "")
    case Some(v) => Speaks(env, v, exceeded, d)
  }

  lemma SettledSaid(env: Env, verdict: Option<Rule>, exceeded: bool)
    requires verdict.Some? ==> ValidRule(env, verdict.value)
    ensures Said(env, verdict, exceeded, Settled(env, verdict, exceeded))
  {
  }

  // ---------------------------------------------------------------- the code

  predicate BeforeCompiled(a: Compiled, b: Compiled) {
    Before(a.rule, b.rule)
  }

  function RulesOf(list: seq<Compiled>): (rules: seq<Rule>)
    ensures |rules| == |list|
  {
    seq(|list|, i requires 0 <= i < |list| => list[i].rule)
  }

  ghost predicate AllFaithful(env: Env, list: seq<Compiled>) {
    forall i | 0 <= i < |list| :: Faithful(env, list[i].rule, list[i])
  }

  lemma {:induction false} InsertRules(c: Compiled, list: seq<Compiled>)
    ensures RulesOf(Insert(BeforeCompiled, c, list)) == Insert(Before, c.rule, RulesOf(list))
  {
    if list != [] && !Before(c.rule, list[0].rule) {
      InsertRules(c, list[1..]);
      RulesTail(list);
      RulesCons(list[0], Insert(BeforeCompiled, c, list[1..]));
    } else {
      RulesCons(c, list);
    }
  }

  lemma RulesCons(c: Compiled, list: seq<Compiled>)
    ensures RulesOf([c] + list) == [c.rule] + RulesOf(list)
  {
  }

  lemma RulesTail(list: seq<Compiled>)
    requires list != []
    ensures RulesOf(list)[1..] == RulesOf(list[1..])
  {
  }

  /** Sorting the compiled rules sorts the rules. */
  lemma {:induction false} SortRules(list: seq<Compiled>)
    ensures RulesOf(Sort(BeforeCompiled, list)) == Sort(Before, RulesOf(list))
  {
    if list != [] {
      var init, last := list[..|list| - 1], list[|list| - 1];
      SortRules(init);
      InsertRules(last, Sort(BeforeCompiled, init));
      RulesInit(list);
    }
  }

  lemma RulesInit(list: seq<Compiled>)
    requires list != []
    ensures RulesOf(list)[..|list| - 1] == RulesOf(list[..|list| - 1])
    ensures RulesOf(list) != [] && RulesOf(list)[|list| - 1] == list[|list| - 1].rule
  {
  }

  lemma SortFaithful(env: Env, list: seq<Compiled>)
    requires AllFaithful(env, list)
    ensures AllFaithful(env, Sort(BeforeCompiled, list))
  {
    var sorted := Sort(BeforeCompiled, list);
    SameMembers(sorted, list);
    forall i | 0 <= i < |sorted|
      ensures Faithful(env, sorted[i].rule, sorted[i])
    {
      assert sorted[i] in Members(sorted);
    }
  }

  datatype Complaint = Complaint(at: nat, fault: Fault)

  predicate Complains(errors: seq<Complaint>, i: nat) {
    exists e | e in errors :: e.at == i
  }

  /** The state of the loop of `Build` after the first n rules. */
  ghost predicate Collected(env: Env, list: seq<Rule>, n: nat, seen: set<string>, ready: seq<Compiled>,
                            errors: seq<Complaint>)
    requires n <= |list|
  {
    && (forall id :: id in seen <==> exists k | 0 <= k < n :: list[k].id == id)
    && AllFaithful(env, ready)
    && (forall e | e in errors :: e.at < n)
    && (forall i | 0 <= i < n :: Complains(errors, i) <==> Faulty(env, list, i))
    && (errors == [] ==> RulesOf(ready) == EnabledOf(list[..n]))
  }

  lemma NextEnabled(list: seq<Rule>, n: nat)
    requires n < |list|
    ensures EnabledOf(list[..n + 1]) == EnabledOf(list[..n]) + if list[n].Enabled() then [list[n]] else []
  {
    assert list[..n + 1][..n] == list[..n];
  }

  lemma NoComplaints(env: Env, list: seq<Rule>, errors: seq<Complaint>)
    requires forall e | e in errors :: e.at < |list|
    requires forall i | 0 <= i < |list| :: Complains(errors, i) <==> Faulty(env, list, i)
    ensures errors == [] <==> Buildable(env, list)
  {
    if errors != [] {
      assert errors[0] in errors;
      assert Complains(errors, errors[0].at);
    } else {
      forall i | 0 <= i < |list|
        ensures ValidRule(env, list[i]) && list[i].id != ""
      {
        assert !Complains(errors, i);
        assert !Faulty(env, list, i);
      }
      forall i, j | 0 <= i < j < |list|
        ensures list[i].id != list[j].id
      {
        assert !Complains(errors, j);
        assert !Faulty(env, list, j);
      }
    }
  }

  lemma CollectBad(env: Env, list: seq<Rule>, n: nat, seen: set<string>, ready: seq<Compiled>,
                   errors: seq<Complaint>, fault: Fault)
    requires n < |list| && Collected(env, list, n, seen, ready, errors) && Faulty(env, list, n)
    ensures Collected(env, list, n + 1, seen + {list[n].id}, ready, errors + [Complaint(n, fault)])
  {
    var more := errors + [Complaint(n, fault)];
    assert forall i | 0 <= i < n + 1 :: Complains(more, i) <==> Faulty(env, list, i);
  }

  lemma CollectGood(env: Env, list: seq<Rule>, n: nat, seen: set<string>, ready: seq<Compiled>,
                    errors: seq<Complaint>, c: Compiled)
    requires n < |list| && Collected(env, list, n, seen, ready, errors)
    requires Faithful(env, list[n], c) && (list[n].id !in seen || list[n].id == "")
    ensures Collected(env, list, n + 1, seen + {list[n].id},
                      ready + if list[n].Enabled() then [c] else [], errors)
  {
    NextEnabled(list, n);
    if list[n].Enabled() {
      assert RulesOf(ready + [c]) == RulesOf(ready) + [list[n]];
    } else {
      assert ready + [] == ready;
      assert EnabledOf(list[..n]) + [] == EnabledOf(list[..n]);
    }
    assert !Complains(errors, n);
  }

  /** Validates and orders the rules; one error discards the whole set. */
  method Build(env: Env, list: seq<Rule>, limiter: Limit.Windows?) returns (set_: Result<RuleSet, seq<Complaint>>)
    ensures set_.Ok? <==> Buildable(env, list)
    ensures set_.Ok? ==>
              && fresh(set_.value) && set_.value.env == env && set_.value.limiter == limiter
              && set_.value.all == list && AllFaithful(env, set_.value.rules)
              && RulesOf(set_.value.rules) == Effective(list)
    ensures set_.Err? ==> forall i | 0 <= i < |list| :: Complains(set_.error, i) <==> Faulty(env, list, i)
  {
    var ready, errors := Collect(env, list);
    if |errors| > 0 {
      return Err(errors);
    }
    SortRules(ready);
    SortFaithful(env, ready);
    var built := new RuleSet(env, Sort(BeforeCompiled, ready), list, limiter);
    return Ok(built);
  }

  /** Compiles every rule, collecting the complaints rather than stopping at the first. */
  method Collect(env: Env, list: seq<Rule>) returns (ready: seq<Compiled>, errors: seq<Complaint>)
    ensures errors == [] <==> Buildable(env, list)
    ensures forall i | 0 <= i < |list| :: Complains(errors, i) <==> Faulty(env, list, i)
    ensures errors == [] ==> AllFaithful(env, ready) && RulesOf(ready) == EnabledOf(list)
  {
    var seen: set<string> := {};
    ready, errors := [], [];
    for i := 0 to |list|
      invariant Collected(env, list, i, seen, ready, errors)
    {
      var r := list[i];
      if r.id in seen && r.id != "" {
        CollectBad(env, list, i, seen, ready, errors, Twice);
        assert seen + {r.id} == seen;
        errors := errors + [Complaint(i, Twice)];
        continue;
      }
      var c := Rules.Compile(env, r);
      if c.Err? {
        CollectBad(env, list, i, seen, ready, errors, c.error);
        errors := errors + [Complaint(i, c.error)];
      } else {
        CollectGood(env, list, i, seen, ready, errors, c.value);
        if r.Enabled() {
          ready := ready + [c.value];
        }
      }
      seen := seen + {r.id};
    }
    TakeAll(list);
    NoComplaints(env, list, errors);
  }

  lemma NotedNext(env: Env, r: Request, marks: seq<Rule>, rule: Rule)
    ensures Noted(env, r, marks + [rule]).shadow == Noted(env, r, marks).shadow + [rule.id]
    ensures Noted(env, r, marks + [rule]).shadowHashes
            == Noted(env, r, marks).shadowHashes + [env.digest(rule.condition, rule.action)]
  {
    assert Ids(marks + [rule]) == Ids(marks) + [rule.id];
    assert Hashes(env, marks + [rule]) == Hashes(env, marks) + [env.digest(rule.condition, rule.action)];
  }

  /** Where the walk is after i rules: the marks so far, and what is still to come. */
  ghost predicate Walked(env: Env, whole: seq<Rule>, i: nat, r: Request, noted: Request, marks: seq<Rule>)
    requires i <= |whole|
  {
    && noted == Noted(env, r, marks)
    && Marks(env, whole, r) == marks + Marks(env, whole[i..], r)
    && Verdict(env, whole, r) == Verdict(env, whole[i..], r)
  }

  lemma WalkStarts(env: Env, whole: seq<Rule>, r: Request)
    ensures Walked(env, whole, 0, r, r, [])
  {
    assert whole[0..] == whole;
  }

  lemma WalkPasses(env: Env, whole: seq<Rule>, i: nat, r: Request, noted: Request, marks: seq<Rule>)
    requires i < |whole| && Walked(env, whole, i, r, noted, marks)
    requires ValidRule(env, whole[i]) && !Fires(env, whole[i], r)
    ensures Walked(env, whole, i + 1, r, noted, marks)
  {
    assert [] + Marks(env, whole[i + 1..], r) == Marks(env, whole[i + 1..], r);
  }

  lemma WalkNotes(env: Env, whole: seq<Rule>, i: nat, r: Request, noted: Request, marks: seq<Rule>)
    requires i < |whole| && Walked(env, whole, i, r, noted, marks)
    requires Watches(env, whole[i], r)
    ensures Walked(env, whole, i + 1, r, Noted(env, r, marks + [whole[i]]), marks + [whole[i]])
  {
    assert marks + ([whole[i]] + Marks(env, whole[i + 1..], r)) == (marks + [whole[i]]) + Marks(env, whole[i + 1..], r);
  }

  lemma WalkStops(env: Env, whole: seq<Rule>, i: nat, r: Request, noted: Request, marks: seq<Rule>)
    requires i <= |whole| && Walked(env, whole, i, r, noted, marks)
    requires i < |whole| ==> Decides(env, whole[i], r)
    ensures Marks(env, whole, r) == marks
    ensures Verdict(env, whole, r) == if i < |whole| then Some(whole[i]) else None
  {
    assert marks + [] == marks;
  }

  lemma FiresAsNoted(env: Env, c: Compiled, r: Request, noted: Request, shadow: seq<string>, hashes: seq<string>)
    requires Faithful(env, c.rule, c) && noted == r.(shadow := shadow, shadowHashes := hashes)
    ensures (c.inScope(noted.host) && c.matches(noted)) == Fires(env, c.rule, r)
  {
    HoldsBySignals(env.parse, c.rule.condition, r, noted);
  }

  /** Walks the rules in order: shadows are only noted, the first other rule that fires ends it. */
  method Walk(env: Env, rules: seq<Compiled>, r: Request) returns (noted: Request, fired: Option<Compiled>)
    requires AllFaithful(env, rules)
    ensures noted == Noted(env, r, Marks(env, RulesOf(rules), r))
    ensures fired.Some? <==> Verdict(env, RulesOf(rules), r).Some?
    ensures fired.Some? ==> Verdict(env, RulesOf(rules), r) == Some(fired.value.rule)
                            && Faithful(env, fired.value.rule, fired.value)
  {
    noted := r;
    ghost var marks: seq<Rule> := [];
    ghost var whole := RulesOf(rules);
    WalkStarts(env, whole, r);
    for i := 0 to |rules|
      invariant Walked(env, whole, i, r, noted, marks)
    {
      var c := rules[i];
      FiresAsNoted(env, c, r, noted, noted.shadow, noted.shadowHashes);
      if !c.inScope(noted.host) || !c.matches(noted) {
        WalkPasses(env, whole, i, r, noted, marks);
        continue;
      }
      if c.rule.mode == SHADOW {
        WalkNotes(env, whole, i, r, noted, marks);
        NotedNext(env, r, marks, c.rule);
        noted := noted.(shadow := noted.shadow + [c.rule.id], shadowHashes := noted.shadowHashes + [c.hash]);
        marks := marks + [c.rule];
        continue;
      }
      WalkStops(env, whole, i, r, noted, marks);
      return noted, Some(c);
    }
    WalkStops(env, whole, |rules|, r, noted, marks);
    return noted, None;
  }

  lemma KeyAsNoted(rule: Rule, r: Request, noted: Request, shadow: seq<string>, hashes: seq<string>)
    requires noted == r.(shadow := shadow, shadowHashes := hashes)
    ensures rule.KeyFor(noted) == rule.KeyFor(r) && noted.time == r.time
  {
  }

  lemma AskedAsNoted(env: Env, book: Option<Book>, rule: Rule, r: Request, noted: Request)
    requires ValidRule(env, rule) && rule.KeyFor(noted) == rule.KeyFor(r) && noted.time == r.time
    ensures Asked(env, book, Some(rule), noted) == Asked(env, book, Some(rule), r)
  {
  }

  class RuleSet {
    const env: Env
    const rules: seq<Compiled>
    const all: seq<Rule>
    const limiter: Limit.Windows?

    constructor (env: Env, rules: seq<Compiled>, all: seq<Rule>, limiter: Limit.Windows?)
      ensures this.env == env && this.rules == rules && this.all == all && this.limiter == limiter
    {
      this.env, this.rules, this.all, this.limiter := env, rules, all, limiter;
    }

    /** The entries the limiter holds. */
    ghost function Entries(): set<object>
      reads limiter
    {
      if limiter == null then {} else limiter.entries.Values
    }

    ghost predicate Valid()
      reads limiter, Entries()
    {
      AllFaithful(env, rules) && (limiter != null ==> limiter.Valid())
    }

    ghost function Held(): Option<Book>
      reads limiter
    {
      if limiter == null then None else Some(Book(limiter.layout, limiter.table))
    }

    /** Applies the set to the signals of a request. */
    method Decide(r: Request) returns (noted: Request, d: Decision)
      requires Valid()
      modifies limiter, Entries()
      ensures Valid()
      ensures forall e | e in Entries() :: e in old(Entries()) || fresh(e)
      ensures noted == Noted(env, r, Marks(env, RulesOf(rules), r))
      ensures d == Settled(env, Verdict(env, RulesOf(rules), r),
                           Asked(env, old(Held()), Verdict(env, RulesOf(rules), r), r).1)
      ensures Held() == Asked(env, old(Held()), Verdict(env, RulesOf(rules), r), r).0
      ensures Said(env, Verdict(env, RulesOf(rules), r),
                   Asked(env, old(Held()), Verdict(env, RulesOf(rules), r), r).1, d)
    {
      var fired;
      noted, fired := Walk(env, rules, r);
      d := Finish(fired, noted, r, Verdict(env, RulesOf(rules), r));
    }

    /** Passes when no rule fired, and otherwise says what the rule says. */
    method Finish(fired: Option<Compiled>, noted: Request, ghost r: Request, ghost v: Option<Rule>)
      returns (d: Decision)
      requires Valid() && noted == r.(shadow := noted.shadow, shadowHashes := noted.shadowHashes)
      requires fired.Some? <==> v.Some?
      requires fired.Some? ==> v.value == fired.value.rule && Faithful(env, v.value, fired.value)
      modifies limiter, Entries()
      ensures Valid()
      ensures forall e | e in Entries() :: e in old(Entries()) || fresh(e)
      ensures d == Settled(env, v, Asked(env, old(Held()), v, r).1)
      ensures Held() == Asked(env, old(Held()), v, r).0
      ensures Said(env, v, Asked(env, old(Held()), v, r).1, d)
    {
      SettledSaid(env, v, Asked(env, Held(), v, r).1);
      if fired.None? {
        return PASSED;
      }
      KeyAsNoted(fired.value.rule, r, noted, noted.shadow, noted.shadowHashes);
      AskedAsNoted(env, Held(), fired.value.rule, r, noted);
      d := Conclude(fired.value, noted);
    }

    /** What the rule that fired says, asking the limiter if it is a rate limit. */
    method Conclude(c: Compiled, r: Request) returns (d: Decision)
      requires Valid() && Faithful(env, c.rule, c)
      modifies limiter, Entries()
      ensures Valid()
      ensures forall e | e in Entries() :: e in old(Entries()) || fresh(e)
      ensures d == Settled(env, Some(c.rule), Asked(env, old(Held()), Some(c.rule), r).1)
      ensures Held() == Asked(env, old(Held()), Some(c.rule), r).0
    {
      var rule := c.rule;
      match rule.action.kind {
        case "allow" => return Decision(ALLOW, rule.id, c.hash, 0, "");
        case "block" => return Decision(BLOCK, rule.id, c.hash, rule.action.status, rule.action.body);
        case "ratelimit" =>
          if limiter == null {
            return Decision(PASS, rule.id, c.hash, 0, "");
          }
          var key := Joined(rule.id, ReadText(r, rule.LimiterKey()));
          var exceeded := limiter.Exceeded(key, rule.action.limit, c.window, r.time);
          if exceeded {
            return Decision(RATELIMIT, rule.id, c.hash, rule.action.status, rule.action.body);
          }
          return Decision(PASS, rule.id, c.hash, 0, "");
      }
    }
  }
}
