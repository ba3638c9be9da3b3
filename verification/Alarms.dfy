/** The triggers of internal/alerts/alerts.go: which are firing, what is said about them,
    and when a trigger that went quiet is called resolved. */
module Alarms {
  import opened Wrappers
  import opened Ordering
  import opened Sequences

  const MINUTE := 60_000_000_000
  const HISTORY := 100

  datatype Finding = Finding(kind: string, msg: string)

  /** A trigger that is firing; a time of zero is a time never set. */
  datatype Trigger = Trigger(kind: string, msg: string, first: string, since: int, clearSince: int)

  type Triggers = map<string, Trigger>

  /** What is said: that a trigger fires, or that it is resolved, recalling what it fired with. */
  datatype Alert = Alert(id: string, kind: string, firing: bool, msg: string, at: int)

  // ---------------------------------------------------------------- rounding

  /** Go's Duration.Round to the minute: halfway goes away from zero. */
  function Rounded(d: int): int {
    if d >= 0 then (if d % MINUTE * 2 < MINUTE then d - d % MINUTE else d + MINUTE - d % MINUTE)
    else (if -d % MINUTE * 2 < MINUTE then d + -d % MINUTE else d - MINUTE + -d % MINUTE)
  }

  lemma RoundedNear(d: int)
    ensures d - MINUTE / 2 <= Rounded(d) <= d + MINUTE / 2
    ensures Rounded(d) % MINUTE == 0
  {
    var e := if d >= 0 then d else -d;
    assert e == MINUTE * (e / MINUTE) + e % MINUTE;
    var k := if e % MINUTE * 2 < MINUTE then e / MINUTE else e / MINUTE + 1;
    assert Rounded(d) == if d >= 0 then MINUTE * k else -MINUTE * k;
  }

  // ---------------------------------------------------------------- one check

  /** What a check leaves: the triggers firing, and what it said, in order. */
  datatype Outcome = Outcome(triggers: Triggers, said: seq<Alert>)

  /** A trigger found firing: told once, and no longer clearing. */
  function Found(o: Outcome, id: string, f: Finding, now: int): Outcome {
    if id in o.triggers then o.(triggers := o.triggers[id := o.triggers[id].(msg := f.msg, clearSince := 0)])
    else Outcome(o.triggers[id := Trigger(f.kind, f.msg, f.msg, now, 0)],
                 o.said + [Alert(id, f.kind, true, f.msg, now)])
  }

  /** A trigger not found: clearing first, and resolved when it stayed clear for a window. */
  function Cleared(o: Outcome, id: string, now: int, window: int): Outcome
    requires id in o.triggers
  {
    var t := o.triggers[id];
    if t.clearSince == 0 then o.(triggers := o.triggers[id := t.(clearSince := now)])
    else if Rounded(now - t.clearSince) < window then o
    else Outcome(o.triggers - {id}, o.said + [Alert(id, t.kind, false, t.first, now)])
  }

  function FindAll(o: Outcome, ids: seq<string>, found: map<string, Finding>, now: int): Outcome
    requires forall id | id in ids :: id in found
  {
    if ids == [] then o
    else
      var n := |ids| - 1;
      Found(FindAll(o, ids[..n], found, now), ids[n], found[ids[n]], now)
  }

  function ClearAll(o: Outcome, ids: seq<string>, found: map<string, Finding>, now: int, window: int): Outcome {
    if ids == [] then o
    else
      var n := |ids| - 1;
      var before := ClearAll(o, ids[..n], found, now, window);
      if ids[n] in found || ids[n] !in before.triggers then before else Cleared(before, ids[n], now, window)
  }

  ghost function Checked(triggers: Triggers, found: map<string, Finding>, now: int, window: int): Outcome {
    InOrderIds(found.Keys);
    var fired := FindAll(Outcome(triggers, []), InOrder(StringLess, found.Keys), found, now);
    ClearAll(fired, InOrder(StringLess, fired.triggers.Keys), found, now, window)
  }

  lemma InOrderIds(ids: set<string>)
    ensures forall id :: id in InOrder(StringLess, ids) <==> id in ids
    ensures Distinct(InOrder(StringLess, ids))
  {
    var s := InOrder(StringLess, ids);
    ListingMembers(s, ids);
    assert forall id :: id in s <==> id in Members(s);
    ListingDistinct(s, ids);
  }

  function LastHundred(history: seq<Alert>): seq<Alert> {
    if |history| > HISTORY then history[|history| - HISTORY..] else history
  }

  class Watcher {
    const window: int
    var triggers: Triggers
    var history: seq<Alert>

    ghost var told: seq<Alert>  // everything ever said

    ghost predicate Valid()
      reads this
    {
      history == LastHundred(told)
    }

    constructor (window: int)
      ensures Valid() && this.window == (if window < MINUTE then 5 * MINUTE else window)
      ensures triggers == map[] && told == []
    {
      this.window := if window < MINUTE then 5 * MINUTE else window;
      triggers, history, told := map[], [], [];
    }

    method Record(a: Alert)
      requires Valid()
      modifies this`history, this`told
      ensures Valid() && told == old(told) + [a]
    {
      history := history + [a];
      if |history| > HISTORY {
        history := history[|history| - HISTORY..];
      }
      told := told + [a];
    }

    /** Turns findings into messages: one when a trigger fires, one when it has stayed clear
        for a whole window. */
    method Transition(now: int, found: map<string, Finding>) returns (said: seq<Alert>)
      requires Valid()
      modifies this`triggers, this`history, this`told
      ensures Valid() && told == old(told) + said
      ensures Outcome(triggers, said) == Checked(old(triggers), found, now, window)
    {
      InOrderIds(found.Keys);
      ghost var before := told;
      var fired := FireFound(now, found);
      said := ClearRest(now, found, fired, before);
    }

    method FireFound(now: int, found: map<string, Finding>) returns (said: seq<Alert>)
      requires Valid()
      modifies this`triggers, this`history, this`told
      ensures Valid() && told == old(told) + said
      ensures forall id :: id in InOrder(StringLess, found.Keys) ==> id in found
      ensures Outcome(triggers, said)
              == FindAll(Outcome(old(triggers), []), InOrder(StringLess, found.Keys), found, now)
    {
      var ids := SortedIds(found.Keys);
      said := [];
      for i := 0 to |ids|
        invariant Outcome(triggers, said) == FindAll(Outcome(old(triggers), []), ids[..i], found, now)
        invariant Valid() && told == old(told) + said
      {
        FindNext(Outcome(old(triggers), []), ids, i, found, now);
        said := FireOne(ids[i], found[ids[i]], now, said, old(told));
      }
      TakeAll(ids);
    }

    method FireOne(id: string, f: Finding, now: int, before: seq<Alert>, ghost base: seq<Alert>)
      returns (said: seq<Alert>)
      requires Valid() && told == base + before
      modifies this`triggers, this`history, this`told
      ensures Valid() && told == base + said
      ensures Outcome(triggers, said) == Found(Outcome(old(triggers), before), id, f, now)
    {
      if id in triggers {
        triggers := triggers[id := triggers[id].(msg := f.msg, clearSince := 0)];
        return before;
      }
      triggers := triggers[id := Trigger(f.kind, f.msg, f.msg, now, 0)];
      Associate(base, before, [Alert(id, f.kind, true, f.msg, now)]);
      Record(Alert(id, f.kind, true, f.msg, now));
      return before + [Alert(id, f.kind, true, f.msg, now)];
    }

    method ClearRest(now: int, found: map<string, Finding>, fired: seq<Alert>, ghost base: seq<Alert>)
      returns (said: seq<Alert>)
      requires Valid() && told == base + fired
      modifies this`triggers, this`history, this`told
      ensures Valid() && told == base + said
      ensures Outcome(triggers, said)
              == ClearAll(Outcome(old(triggers), fired), InOrder(StringLess, old(triggers).Keys), found, now, window)
    {
      var ids := SortedIds(triggers.Keys);
      said := fired;
      for i := 0 to |ids|
        invariant Outcome(triggers, said) == ClearAll(Outcome(old(triggers), fired), ids[..i], found, now, window)
        invariant Valid() && told == base + said
        invariant AllThere(ids, i, triggers.Keys)
      {
        ClearNext(Outcome(old(triggers), fired), ids, i, found, now, window);
        if ids[i] in found {
          continue;
        }
        said := ClearOne(ids[i], now, said, base);
      }
      TakeAll(ids);
    }

    method ClearOne(id: string, now: int, before: seq<Alert>, ghost base: seq<Alert>) returns (said: seq<Alert>)
      requires Valid() && told == base + before && id in triggers
      modifies this`triggers, this`history, this`told
      ensures Valid() && told == base + said
      ensures Outcome(triggers, said) == Cleared(Outcome(old(triggers), before), id, now, window)
      ensures triggers.Keys == old(triggers).Keys || triggers.Keys == old(triggers).Keys - {id}
    {
      var t := triggers[id];
      if t.clearSince == 0 {
        triggers := triggers[id := t.(clearSince := now)];
        return before;
      }
      if Rounded(now - t.clearSince) < window {
        return before;
      }
      triggers := triggers - {id};
      Associate(base, before, [Alert(id, t.kind, false, t.first, now)]);
      Record(Alert(id, t.kind, false, t.first, now));
      return before + [Alert(id, t.kind, false, t.first, now)];
    }
  }

  ghost predicate AllThere(ids: seq<string>, i: nat, keys: set<string>) {
    forall k | i <= k < |ids| :: ids[k] in keys
  }

  lemma FindNext(o: Outcome, ids: seq<string>, i: nat, found: map<string, Finding>, now: int)
    requires i < |ids| && forall id | id in ids :: id in found
    ensures FindAll(o, ids[..i + 1], found, now) == Found(FindAll(o, ids[..i], found, now), ids[i], found[ids[i]], now)
  {
    TakeNext(ids, i);
    PushInit(ids[..i], ids[i]);
  }

  lemma ClearNext(o: Outcome, ids: seq<string>, i: nat, found: map<string, Finding>, now: int, window: int)
    requires i < |ids|
    ensures var before := ClearAll(o, ids[..i], found, now, window);
            ClearAll(o, ids[..i + 1], found, now, window)
            == if ids[i] in found || ids[i] !in before.triggers then before else Cleared(before, ids[i], now, window)
  {
    TakeNext(ids, i);
    PushInit(ids[..i], ids[i]);
  }

  method SortedIds(ids: set<string>) returns (s: seq<string>)
    ensures s == InOrder(StringLess, ids) && Distinct(s)
    ensures forall id :: id in s <==> id in ids
  {
    var listed := Collect(ids);
    s := Sort(StringLess, listed);
    StringsInOrder(ids, listed);
    InOrderIds(ids);
  }

  lemma StringsInOrder(ids: set<string>, listed: seq<string>)
    requires multiset(listed) == multiset(ids)
    ensures Sort(StringLess, listed) == InOrder(StringLess, ids)
  {
    assert StrictTotalOn(StringLess, ids) by {
      StringLessTotal();
    }
    SortedListing(StringLess, ids, listed);
  }
}
