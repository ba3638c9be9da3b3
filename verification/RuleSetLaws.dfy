/** What a rule set promises: the decision depends on which rules there are and not on
    the order of their lines, and shadow rules never touch a decision or the limiter. */
module RuleSetLaws {
  import opened Wrappers
  import opened Ordering
  import opened Facts
  import opened Condition
  import opened Rules
  import opened RuleSets
  import opened Keys
  import Limit

  // ---------------------------------------------------------------- the order of application

  lemma BeforeTotal(list: seq<Rule>)
    requires DistinctIds(list)
    ensures StrictTotalOn(Before, Members(list))
  {
    var dom := Members(list);
    forall x, y | x in dom && y in dom && x != y
      ensures Before(x, y) != Before(y, x)
    {
      assert x.id != y.id;
      StringLessTrichotomy(x.id, y.id);
    }
    forall x | x in dom
      ensures !Before(x, x)
    {
      StringLessTrichotomy(x.id, x.id);
    }
    forall x, y, z | x in dom && y in dom && z in dom && Before(x, y) && Before(y, z)
      ensures Before(x, z)
    {
      if x.priority == y.priority == z.priority {
        StringLessTransitive(x.id, y.id, z.id);
      }
    }
  }

  ghost predicate Ranked(rules: seq<Rule>) {
    forall i, j | 0 <= i < j < |rules| :: Before(rules[i], rules[j])
  }

  lemma RankedCons(x: Rule, rest: seq<Rule>)
    requires Ranked(rest) && forall y | y in rest :: Before(x, y)
    ensures Ranked([x] + rest)
  {
  }

  lemma {:induction false} EnabledMembers(list: seq<Rule>)
    ensures forall x :: x in EnabledOf(list) <==> x in list && x.Enabled()
  {
    if list != [] {
      var n := |list| - 1;
      EnabledMembers(list[..n]);
      assert list == list[..n] + [list[n]];
    }
  }

  lemma {:induction false} EnabledDistinct(list: seq<Rule>)
    requires DistinctIds(list)
    ensures Distinct(EnabledOf(list))
  {
    if list != [] {
      var n := |list| - 1;
      EnabledDistinct(list[..n]);
      EnabledMembers(list[..n]);
      assert list[n] !in list[..n];
      assert forall i | 0 <= i < |EnabledOf(list[..n])| :: EnabledOf(list[..n])[i] in EnabledOf(list[..n]);
    }
  }

  /** The rules applied are the enabled ones, each once, in strictly descending rank. */
  lemma EffectiveOrdered(list: seq<Rule>)
    requires DistinctIds(list)
    ensures forall x :: x in Effective(list) <==> x in list && x.Enabled()
    ensures StrictTotalOn(Before, Members(Effective(list)))
    ensures Ranked(Effective(list))
  {
    var enabled, rs := EnabledOf(list), Effective(list);
    BeforeTotal(list);
    EnabledMembers(list);
    SameMembers(enabled, rs);
    assert forall x :: x in rs <==> x in Members(rs);
    assert forall x :: x in enabled <==> x in Members(enabled);
    assert Members(rs) <= Members(list);
    SortAscending(Before, enabled, Members(list));
    EnabledDistinct(list);
    SortedDistinct(enabled, rs);
    forall i, j | 0 <= i < j < |rs|
      ensures Before(rs[i], rs[j])
    {
      assert rs[i] in Members(rs) && rs[j] in Members(rs) && rs[i] != rs[j];
    }
  }

  // ---------------------------------------------------------------- what the walk finds

  function Watching(env: Env, rules: seq<Rule>, r: Request): seq<Rule> {
    if rules == [] then []
    else (if Watches(env, rules[0], r) then [rules[0]] else []) + Watching(env, rules[1..], r)
  }

  /** The walk stops at the first active rule that fires, having marked the shadows before it. */
  lemma {:induction false} WalkFinds(env: Env, rules: seq<Rule>, r: Request) returns (n: nat)
    ensures n <= |rules| && forall i | 0 <= i < n :: !Decides(env, rules[i], r)
    ensures Verdict(env, rules, r) == if n < |rules| then Some(rules[n]) else None
    ensures n < |rules| ==> Decides(env, rules[n], r)
    ensures Marks(env, rules, r) == Watching(env, rules[..n], r)
  {
    if rules == [] || Decides(env, rules[0], r) {
      n := 0;
    } else {
      var m := WalkFinds(env, rules[1..], r);
      n := m + 1;
      assert rules[..n][1..] == rules[1..][..m];
    }
  }

  lemma {:induction false} WatchingMembers(env: Env, rules: seq<Rule>, r: Request)
    ensures forall x :: x in Watching(env, rules, r) <==> x in rules && Watches(env, x, r)
  {
    if rules != [] {
      WatchingMembers(env, rules[1..], r);
      assert rules == [rules[0]] + rules[1..];
    }
  }

  /** The rule that decides, said without any order of lines: it is enabled and active, it
      fires, and it ranks before every other such rule. */
  ghost predicate Leads(env: Env, list: seq<Rule>, r: Request, v: Rule) {
    && v in list && v.Enabled() && Decides(env, v, r)
    && forall u | u in list && u.Enabled() && Decides(env, u, r) && u != v :: Before(v, u)
  }

  lemma VerdictLeads(env: Env, list: seq<Rule>, r: Request)
    requires DistinctIds(list)
    ensures forall v :: Verdict(env, Effective(list), r) == Some(v) <==> Leads(env, list, r, v)
    ensures Verdict(env, Effective(list), r) == None
            <==> forall u | u in list && u.Enabled() :: !Decides(env, u, r)
  {
    var rs := Effective(list);
    EffectiveOrdered(list);
    var n := WalkFinds(env, rs, r);
    if n < |rs| {
      FirstLeads(env, list, r, n);
      forall v | Leads(env, list, r, v)
        ensures v == rs[n]
      {
        LeadsOnce(env, list, r, v, rs[n]);
      }
    } else {
      forall u | u in list && u.Enabled()
        ensures !Decides(env, u, r)
      {
        assert u in rs;
      }
    }
  }

  lemma FirstLeads(env: Env, list: seq<Rule>, r: Request, n: nat)
    requires DistinctIds(list)
    requires n < |Effective(list)| && Decides(env, Effective(list)[n], r)
    requires forall i | 0 <= i < n :: !Decides(env, Effective(list)[i], r)
    ensures Leads(env, list, r, Effective(list)[n])
  {
    var rs := Effective(list);
    EffectiveOrdered(list);
    assert rs[n] in rs;
    forall u | u in list && u.Enabled() && Decides(env, u, r) && u != rs[n]
      ensures Before(rs[n], u)
    {
      assert u in rs;
      var k :| 0 <= k < |rs| && rs[k] == u;
    }
  }

  lemma LeadsOnce(env: Env, list: seq<Rule>, r: Request, v: Rule, w: Rule)
    requires DistinctIds(list) && Leads(env, list, r, v) && Leads(env, list, r, w)
    ensures v == w
  {
    BeforeTotal(list);
    assert v in Members(list) && w in Members(list);
  }

  /** The shadows marked, said the same way: those that fire and rank before the deciding rule. */
  lemma MarksLead(env: Env, list: seq<Rule>, r: Request)
    requires DistinctIds(list)
    ensures forall m :: m in Marks(env, Effective(list), r) <==>
              && m in list && m.Enabled() && Watches(env, m, r)
              && var v := Verdict(env, Effective(list), r);
                 v.None? || Before(m, v.value)
  {
    var rs := Effective(list);
    EffectiveOrdered(list);
    var n := WalkFinds(env, rs, r);
    WatchingMembers(env, rs[..n], r);
    forall m | m in rs && Watches(env, m, r)
      ensures m in rs[..n] <==> n == |rs| || Before(m, rs[n])
    {
      var k :| 0 <= k < |rs| && rs[k] == m;
      if n < |rs| {
        assert rs[n] in Members(rs) && m in Members(rs);
        assert k < n ==> rs[..n][k] == m;
        assert n < k ==> Before(rs[n], rs[k]);
        assert k != n;
        if m in rs[..n] {
          var l :| 0 <= l < n && rs[..n][l] == m;
        }
      }
    }
  }

  lemma {:induction false} WatchingOrdered(env: Env, rules: seq<Rule>, r: Request)
    requires Ranked(rules)
    ensures Ranked(Watching(env, rules, r))
  {
    if rules != [] {
      WatchingOrdered(env, rules[1..], r);
      WatchingMembers(env, rules[1..], r);
      if Watches(env, rules[0], r) {
        RankedCons(rules[0], Watching(env, rules[1..], r));
      } else {
        assert [] + Watching(env, rules[1..], r) == Watching(env, rules[1..], r);
      }
    }
  }

  /** Marks come in the order of application, each once. */
  lemma MarksOrdered(env: Env, list: seq<Rule>, r: Request)
    requires DistinctIds(list)
    ensures Ranked(Marks(env, Effective(list), r))
  {
    EffectiveOrdered(list);
    var n := WalkFinds(env, Effective(list), r);
    WatchingOrdered(env, Effective(list)[..n], r);
  }

  // ---------------------------------------------------------------- the order of lines

  lemma {:induction false} EnabledAnyOrder(a: seq<Rule>, b: seq<Rule>)
    requires multiset(a) == multiset(b) && DistinctIds(a) && DistinctIds(b)
    ensures multiset(EnabledOf(a)) == multiset(EnabledOf(b))
  {
    SameMembers(a, b);
    EnabledMembers(a);
    EnabledMembers(b);
    EnabledDistinct(a);
    EnabledDistinct(b);
    DistinctIsSet(EnabledOf(a));
    DistinctIsSet(EnabledOf(b));
    assert forall x :: x in a <==> x in Members(a);
    assert forall x :: x in b <==> x in Members(b);
    assert Members(EnabledOf(a)) == Members(EnabledOf(b));
  }

  /** Swapping lines of the rules file changes neither whether it is accepted nor the order
      in which its rules are applied. */
  lemma FileOrderIrrelevant(env: Env, a: seq<Rule>, b: seq<Rule>)
    requires multiset(a) == multiset(b)
    ensures Buildable(env, a) <==> Buildable(env, b)
    ensures Buildable(env, a) ==> Effective(a) == Effective(b)
  {
    if Buildable(env, a) {
      BuildableAnyOrder(env, a, b);
      EnabledAnyOrder(a, b);
      BeforeTotal(a);
      EnabledMembers(a);
      SortCanonical(Before, EnabledOf(a), EnabledOf(b));
    } else if Buildable(env, b) {
      BuildableAnyOrder(env, b, a);
    }
  }

  lemma BuildableAnyOrder(env: Env, a: seq<Rule>, b: seq<Rule>)
    requires multiset(a) == multiset(b) && Buildable(env, a)
    ensures Buildable(env, b)
  {
    assert Distinct(a);
    SortedDistinct(a, b);
    forall i | 0 <= i < |b|
      ensures ValidRule(env, b[i])
    {
      assert b[i] in multiset(a);
    }
    forall i, j | 0 <= i < j < |b|
      ensures b[i].id != b[j].id
    {
      assert b[i] in multiset(a) && b[j] in multiset(a) && b[i] != b[j];
      var k :| 0 <= k < |a| && a[k] == b[i];
      var l :| 0 <= l < |a| && a[l] == b[j];
    }
  }

  // ---------------------------------------------------------------- shadows

  /** Two files with the same active rules; their shadow rules may differ in any way. */
  ghost predicate SameActive(a: seq<Rule>, b: seq<Rule>) {
    forall u: Rule | u.mode != SHADOW :: u in a <==> u in b
  }

  /** No shadow rule, added, changed or removed, changes which rule decides. */
  lemma ShadowsDoNotDecide(env: Env, a: seq<Rule>, b: seq<Rule>, r: Request)
    requires DistinctIds(a) && DistinctIds(b) && SameActive(a, b)
    ensures Verdict(env, Effective(a), r) == Verdict(env, Effective(b), r)
  {
    VerdictLeads(env, a, r);
    VerdictLeads(env, b, r);
    var v := Verdict(env, Effective(a), r);
    if v.Some? {
      assert Leads(env, a, r, v.value);
      assert Leads(env, b, r, v.value);
    }
  }

  function Except(rules: seq<Rule>, s: Rule): seq<Rule> {
    if rules == [] then []
    else (if rules[0] == s then [] else [rules[0]]) + Except(rules[1..], s)
  }

  lemma {:induction false} ExceptMembers(rules: seq<Rule>, s: Rule)
    requires Ranked(rules)
    ensures forall x :: x in Except(rules, s) <==> x in rules && x != s
    ensures Ranked(Except(rules, s))
  {
    if rules != [] {
      ExceptMembers(rules[1..], s);
      assert rules == [rules[0]] + rules[1..];
      if rules[0] != s {
        RankedCons(rules[0], Except(rules[1..], s));
      } else {
        assert [] + Except(rules[1..], s) == Except(rules[1..], s);
      }
    }
  }

  lemma WithoutLast(list: seq<Rule>, s: Rule)
    requires DistinctIds(list + [s])
    ensures DistinctIds(list) && s !in list
    ensures forall u :: u in list + [s] <==> u in list || u == s
  {
    var with := list + [s];
    assert forall i | 0 <= i < |list| :: list[i] == with[i];
    assert with[|list|] == s;
  }

  /** Which rules leave a mark does not depend on the other shadow rules. */
  lemma MarksUnmoved(env: Env, a: seq<Rule>, b: seq<Rule>, r: Request)
    requires DistinctIds(a) && DistinctIds(b) && SameActive(a, b)
    ensures forall m | m in a && m in b :: m in Marks(env, Effective(a), r) <==> m in Marks(env, Effective(b), r)
    ensures forall m :: m in Marks(env, Effective(a), r) ==> m in a
    ensures forall m :: m in Marks(env, Effective(b), r) ==> m in b
  {
    ShadowsDoNotDecide(env, a, b, r);
    MarksLead(env, a, r);
    MarksLead(env, b, r);
  }

  /** Adding one shadow rule changes nothing but its own mark. */
  lemma ShadowMarksItself(env: Env, list: seq<Rule>, s: Rule, r: Request)
    requires DistinctIds(list + [s]) && s.mode == SHADOW
    ensures Marks(env, Effective(list), r) == Except(Marks(env, Effective(list + [s]), r), s)
  {
    var with := list + [s];
    WithoutLast(list, s);
    var without, more := Marks(env, Effective(list), r), Marks(env, Effective(with), r);
    MarksUnmoved(env, list, with, r);
    MarksOrdered(env, list, r);
    MarksOrdered(env, with, r);
    ExceptMembers(more, s);
    SameOrdered(without, Except(more, s), with);
  }

  lemma RankedDistinct(rules: seq<Rule>, list: seq<Rule>)
    requires Ranked(rules) && DistinctIds(list) && Members(rules) <= Members(list)
    ensures Distinct(rules) && Ascending(Before, rules)
  {
    BeforeTotal(list);
    forall i, j | 0 <= i < j < |rules|
      ensures rules[i] != rules[j] && !Before(rules[j], rules[i])
    {
      assert rules[i] in Members(rules) && rules[j] in Members(rules);
      assert Before(rules[i], rules[j]);
    }
  }

  lemma SameOrdered(a: seq<Rule>, b: seq<Rule>, list: seq<Rule>)
    requires DistinctIds(list) && Ranked(a) && Ranked(b)
    requires forall x :: x in a <==> x in b
    requires forall x :: x in a ==> x in list
    ensures a == b
  {
    assert Members(a) == Members(b) <= Members(list);
    RankedDistinct(a, list);
    RankedDistinct(b, list);
    DistinctIsSet(a);
    DistinctIsSet(b);
    BeforeTotal(list);
    AscendingUnique(Before, a, b, Members(list));
  }

  // ---------------------------------------------------------------- runs

  /** What happens to a node: requests arrive, and the limiter is swept. */
  datatype Event = Arrives(r: Request) | SweptAt(at: int)

  function SweepBook(book: Option<Book>, at: int): Option<Book> {
    match book
    case None => None
    case Some(b) => Some(b.(table := Limit.Sweep(b.table, at)))
  }

  /** Decides a stream of requests, one after the other, against one limiter. */
  function Served(env: Env, rules: seq<Rule>, book: Option<Book>, events: seq<Event>): (Option<Book>, seq<Decision>)
    decreases |events|
  {
    if events == [] then (book, [])
    else match events[0]
      case SweptAt(at) => Served(env, rules, SweepBook(book, at), events[1..])
      case Arrives(r) =>
        var v := Verdict(env, rules, r);
        var asked := Asked(env, book, v, r);
        var rest := Served(env, rules, asked.0, events[1..]);
        (rest.0, [Settled(env, v, asked.1)] + rest.1)
  }

  /** Over any stream of events, shadow rules leave every decision and the limiter as they are. */
  lemma {:induction false} ShadowsDoNotInterfere(env: Env, a: seq<Rule>, b: seq<Rule>, book: Option<Book>,
                                                 events: seq<Event>)
    requires DistinctIds(a) && DistinctIds(b) && SameActive(a, b)
    ensures Served(env, Effective(a), book, events) == Served(env, Effective(b), book, events)
    decreases |events|
  {
    if events != [] {
      match events[0] {
        case SweptAt(at) => ShadowsDoNotInterfere(env, a, b, SweepBook(book, at), events[1..]);
        case Arrives(r) =>
          ShadowsDoNotDecide(env, a, b, r);
          ShadowsDoNotInterfere(env, a, b, Asked(env, book, Verdict(env, Effective(a), r), r).0, events[1..]);
      }
    }
  }

  // ---------------------------------------------------------------- limiter keys

  /** Keys of two rules can meet exactly when one id, closed by a NUL, begins the other. */
  lemma KeysCollide(a: string, b: string)
    ensures (exists u: string, v: string :: Joined(a, u) == Joined(b, v))
            <==> a + "\0" <= b + "\0" || b + "\0" <= a + "\0"
  {
    var x, y := a + "\0", b + "\0";
    if u: string, v: string :| Joined(a, u) == Joined(b, v) {
      if |x| <= |y| {
        assert x == (x + u)[..|x|] == (y + v)[..|x|] == y[..|x|];
      } else {
        assert y == (y + v)[..|y|] == (x + u)[..|y|] == x[..|y|];
      }
    }
    if x <= y {
      assert Joined(a, y[|x|..]) == Joined(b, "");
    }
    if y <= x {
      assert Joined(a, "") == Joined(b, x[|y|..]);
    }
  }

  /** Nothing refuses a NUL in an id, and then two rules may count on one key. */
  lemma NulInIdCollides()
    ensures ValidId("a") && ValidId("a\0b") && Joined("a", "b\0c") == Joined("a\0b", "c")
  {
    assert Joined("a", "b\0c") == "a\0b\0c" == Joined("a\0b", "c");
  }
}
