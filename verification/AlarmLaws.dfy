/** Runs of checks: for every trigger, firing and resolved alternate, and resolved means
    quiet for a window. */
module AlarmLaws {
  import opened Wrappers
  import opened Ordering
  import opened Sequences
  import opened Alarms

  // ---------------------------------------------------------------- one trigger alone

  /** One trigger: its state, and what was said about it. */
  datatype Local = Local(trigger: Option<Trigger>, said: seq<Alert>)

  /** What a check does to one trigger, looking at nothing else. */
  function Next(t: Option<Trigger>, f: Option<Finding>, id: string, now: int, window: int): Local {
    match (t, f)
    case (None, None) => Local(None, [])
    case (None, Some(f)) => Local(Some(Trigger(f.kind, f.msg, f.msg, now, 0)), [Alert(id, f.kind, true, f.msg, now)])
    case (Some(t), Some(f)) => Local(Some(t.(msg := f.msg, clearSince := 0)), [])
    case (Some(t), None) =>
      if t.clearSince == 0 then Local(Some(t.(clearSince := now)), [])
      else if Rounded(now - t.clearSince) < window then Local(Some(t), [])
      else Local(None, [Alert(id, t.kind, false, t.first, now)])
  }

  function At<T>(m: map<string, T>, id: string): Option<T> {
    if id in m then Some(m[id]) else None
  }

  /** What was said about one trigger. */
  function About(said: seq<Alert>, id: string): seq<Alert> {
    if said == [] then []
    else About(said[..|said| - 1], id) + if said[|said| - 1].id == id then [said[|said| - 1]] else []
  }

  lemma AboutNext(said: seq<Alert>, a: Alert, id: string)
    ensures About(said + [a], id) == if a.id == id then About(said, id) + [a] else About(said, id)
  {
    PushInit(said, a);
  }

  lemma {:induction false} AboutConcat(a: seq<Alert>, b: seq<Alert>, id: string)
    ensures About(a + b, id) == About(a, id) + About(b, id)
  {
    if b == [] {
      AppendNothing(a, b);
      AppendNothing(About(a, id), About(b, id));
    } else {
      var n := |b| - 1;
      AppendInit(a, b);
      PushInit(a + b[..n], b[n]);
      AboutConcat(a, b[..n], id);
      Associate(About(a, id), About(b[..n], id), if b[n].id == id then [b[n]] else []);
    }
  }

  lemma FoundAt(o: Outcome, id: string, f: Finding, now: int, other: string)
    ensures var after := Found(o, id, f, now);
            && At(after.triggers, other)
               == (if other == id then Next(At(o.triggers, id), Some(f), id, now, 0).trigger else At(o.triggers, other))
            && About(after.said, other)
               == About(o.said, other)
                 + (if other == id then Next(At(o.triggers, id), Some(f), id, now, 0).said else [])
  {
    AppendNothing(About(o.said, other), []);
    if id !in o.triggers {
      AboutNext(o.said, Alert(id, f.kind, true, f.msg, now), other);
    }
  }

  lemma ClearedAt(o: Outcome, id: string, now: int, window: int, other: string)
    requires id in o.triggers
    ensures var after := Cleared(o, id, now, window);
            && At(after.triggers, other)
               == (if other == id then Next(At(o.triggers, id), None, id, now, window).trigger
                   else At(o.triggers, other))
            && About(after.said, other)
               == About(o.said, other)
                 + (if other == id then Next(At(o.triggers, id), None, id, now, window).said else [])
  {
    AppendNothing(About(o.said, other), []);
    var t := o.triggers[id];
    if t.clearSince != 0 && Rounded(now - t.clearSince) >= window {
      AboutNext(o.said, Alert(id, t.kind, false, t.first, now), other);
    }
  }

  /** What firing all that was found does to one trigger. */
  lemma {:induction false} FindAllAt(o: Outcome, ids: seq<string>, found: map<string, Finding>, now: int, id: string)
    requires Distinct(ids) && forall x | x in ids :: x in found
    ensures var after := FindAll(o, ids, found, now);
            && At(after.triggers, id)
               == (if id in ids then Next(At(o.triggers, id), At(found, id), id, now, 0).trigger
                   else At(o.triggers, id))
            && About(after.said, id)
               == About(o.said, id)
                  + (if id in ids then Next(At(o.triggers, id), At(found, id), id, now, 0).said else [])
  {
    if ids == [] {
      AppendNothing(About(o.said, id), []);
    } else {
      var n := |ids| - 1;
      LastOnce(ids, id);
      FindAllAt(o, ids[..n], found, now, id);
      FoundAt(FindAll(o, ids[..n], found, now), ids[n], found[ids[n]], now, id);
      if id == ids[n] {
        AppendNothing(About(o.said, id), []);
      } else {
        AppendNothing(About(FindAll(o, ids[..n], found, now).said, id), []);
      }
    }
  }

  lemma LastOnce(ids: seq<string>, id: string)
    requires ids != [] && Distinct(ids)
    ensures Distinct(ids[..|ids| - 1])
    ensures id in ids <==> id in ids[..|ids| - 1] || id == ids[|ids| - 1]
    ensures ids[|ids| - 1] !in ids[..|ids| - 1]
  {
    LastApart(ids);
  }

  lemma {:induction false} ClearAllAt(o: Outcome, ids: seq<string>, found: map<string, Finding>, now: int,
                                      window: int, id: string)
    requires Distinct(ids)
    ensures var after := ClearAll(o, ids, found, now, window);
            var touched := id in ids && id !in found && id in o.triggers;
            && At(after.triggers, id)
               == (if touched then Next(At(o.triggers, id), None, id, now, window).trigger else At(o.triggers, id))
            && About(after.said, id)
               == About(o.said, id) + (if touched then Next(At(o.triggers, id), None, id, now, window).said else [])
  {
    if ids == [] {
      AppendNothing(About(o.said, id), []);
    } else {
      var n := |ids| - 1;
      var before := ClearAll(o, ids[..n], found, now, window);
      LastOnce(ids, id);
      ClearAllAt(o, ids[..n], found, now, window, id);
      if ids[n] !in found && ids[n] in before.triggers {
        ClearedAt(before, ids[n], now, window, id);
      }
      if id == ids[n] {
        AppendNothing(About(o.said, id), []);
      } else {
        AppendNothing(About(before.said, id), []);
      }
    }
  }

  lemma FiredAt(triggers: Triggers, found: map<string, Finding>, now: int, id: string)
    ensures forall x :: x in InOrder(StringLess, found.Keys) ==> x in found
    ensures var fired := FindAll(Outcome(triggers, []), InOrder(StringLess, found.Keys), found, now);
            && At(fired.triggers, id)
               == (if id in found then Next(At(triggers, id), At(found, id), id, now, 0).trigger else At(triggers, id))
            && About(fired.said, id)
               == (if id in found then Next(At(triggers, id), At(found, id), id, now, 0).said else [])
  {
    InOrderIds(found.Keys);
    FindAllAt(Outcome(triggers, []), InOrder(StringLess, found.Keys), found, now, id);
    var none: seq<Alert> := [];
    assert About(none, id) == none;
    NothingAhead(About(FindAll(Outcome(triggers, []), InOrder(StringLess, found.Keys), found, now).said, id));
    if id in found {
      NothingAhead(Next(At(triggers, id), At(found, id), id, now, 0).said);
    }
  }

  lemma NothingAhead(said: seq<Alert>)
    ensures [] + said == said
  {
  }

  lemma RestAt(fired: Outcome, found: map<string, Finding>, now: int, window: int, id: string)
    ensures var after := ClearAll(fired, InOrder(StringLess, fired.triggers.Keys), found, now, window);
            var touched := id !in found && id in fired.triggers;
            && At(after.triggers, id)
               == (if touched then Next(At(fired.triggers, id), None, id, now, window).trigger
                   else At(fired.triggers, id))
            && About(after.said, id)
               == About(fired.said, id)
                 + (if touched then Next(At(fired.triggers, id), None, id, now, window).said else [])
  {
    InOrderIds(fired.triggers.Keys);
    ClearAllAt(fired, InOrder(StringLess, fired.triggers.Keys), found, now, window, id);
  }

  /** A check does to each trigger what it would do to it alone. */
  lemma CheckedAt(triggers: Triggers, found: map<string, Finding>, now: int, window: int, id: string)
    ensures var o := Checked(triggers, found, now, window);
            At(o.triggers, id) == Next(At(triggers, id), At(found, id), id, now, window).trigger
    ensures About(Checked(triggers, found, now, window).said, id)
            == Next(At(triggers, id), At(found, id), id, now, window).said
  {
    FiredAt(triggers, found, now, id);
    var fired := FindAll(Outcome(triggers, []), InOrder(StringLess, found.Keys), found, now);
    RestAt(fired, found, now, window, id);
    JoinSaid(At(triggers, id), At(found, id), id, now, window, About(fired.said, id));
  }

  /** What was said on firing, and on clearing when nothing was found, is all that is said. */
  lemma JoinSaid(t: Option<Trigger>, f: Option<Finding>, id: string, now: int, window: int, said: seq<Alert>)
    requires said == if f.Some? then Next(t, f, id, now, 0).said else []
    ensures said + (if f.None? && t.Some? then Next(t, None, id, now, window).said else [])
            == Next(t, f, id, now, window).said
  {
    if f.Some? {
      AppendNothing(said, []);
    } else {
      NothingAhead(Next(t, None, id, now, window).said);
    }
  }

  // ---------------------------------------------------------------- runs

  datatype Check = Check(now: int, found: map<string, Finding>)

  /** The triggers after a run of checks, and everything said on the way. */
  ghost function Run(checks: seq<Check>, window: int): Outcome {
    if checks == [] then Outcome(map[], [])
    else
      var n := |checks| - 1;
      var before := Run(checks[..n], window);
      var o := Checked(before.triggers, checks[n].found, checks[n].now, window);
      Outcome(o.triggers, before.said + o.said)
  }

  function Alone(checks: seq<Check>, id: string, window: int): Local {
    if checks == [] then Local(None, [])
    else
      var n := |checks| - 1;
      var before := Alone(checks[..n], id, window);
      var l := Next(before.trigger, At(checks[n].found, id), id, checks[n].now, window);
      Local(l.trigger, before.said + l.said)
  }

  /** A run goes for each trigger as it would for it alone. */
  lemma {:induction false} RunAt(checks: seq<Check>, id: string, window: int)
    ensures At(Run(checks, window).triggers, id) == Alone(checks, id, window).trigger
    ensures About(Run(checks, window).said, id) == Alone(checks, id, window).said
  {
    if checks != [] {
      var n := |checks| - 1;
      RunAt(checks[..n], id, window);
      var before := Run(checks[..n], window);
      CheckedAt(before.triggers, checks[n].found, checks[n].now, window, id);
      AboutConcat(before.said, Checked(before.triggers, checks[n].found, checks[n].now, window).said, id);
    }
  }

  ghost predicate Alternating(said: seq<Alert>) {
    forall i | 0 <= i < |said| :: said[i].firing <==> i % 2 == 0
  }

  predicate LastFires(said: seq<Alert>) {
    said != [] && said[|said| - 1].firing
  }

  lemma {:induction false} AloneAlternates(checks: seq<Check>, id: string, window: int)
    ensures Alternating(Alone(checks, id, window).said)
    ensures Alone(checks, id, window).trigger.Some? <==> LastFires(Alone(checks, id, window).said)
  {
    if checks != [] {
      var n := |checks| - 1;
      AloneAlternates(checks[..n], id, window);
      var before := Alone(checks[..n], id, window);
      AlternatesNext(before.said, before.trigger, At(checks[n].found, id), id, checks[n].now, window);
    }
  }

  lemma AlternatesNext(said: seq<Alert>, t: Option<Trigger>, f: Option<Finding>, id: string, now: int, window: int)
    requires Alternating(said) && (t.Some? <==> LastFires(said))
    ensures var l := Next(t, f, id, now, window);
            Alternating(said + l.said) && (l.trigger.Some? <==> LastFires(said + l.said))
  {
    if Next(t, f, id, now, window).said == [] {
      AppendNothing(said, []);
    }
  }

  /** Over any run of checks, what is said about a trigger is firing, resolved, firing, and so
      on; and it is among the triggers just when the last thing said was that it fires. */
  lemma AlertsAlternate(checks: seq<Check>, id: string, window: int)
    ensures Alternating(About(Run(checks, window).said, id))
    ensures At(Run(checks, window).triggers, id).Some? <==> LastFires(About(Run(checks, window).said, id))
  {
    RunAt(checks, id, window);
    AloneAlternates(checks, id, window);
  }

  ghost predicate Absent(checks: seq<Check>, id: string, from: nat) {
    forall k | from <= k < |checks| :: id !in checks[k].found
  }

  /** A trigger that is clearing has been absent since the check it took the time of. */
  lemma {:induction false} ClearingSince(checks: seq<Check>, id: string, window: int) returns (j: nat)
    requires Alone(checks, id, window).trigger.Some? && Alone(checks, id, window).trigger.value.clearSince != 0
    ensures j < |checks| && Absent(checks, id, j)
    ensures checks[j].now == Alone(checks, id, window).trigger.value.clearSince
  {
    var n := |checks| - 1;
    var before := Alone(checks[..n], id, window).trigger;
    if before.Some? && before.value.clearSince != 0 {
      j := ClearingSince(checks[..n], id, window);
      assert forall k | j <= k < n :: checks[..n][k] == checks[k];
    } else {
      j := n;
    }
  }

  /** Something was said at the last check. */
  ghost predicate Spoke(checks: seq<Check>, id: string, window: int) {
    checks != []
    && |About(Run(checks[..|checks| - 1], window).said, id)| < |About(Run(checks, window).said, id)|
  }

  lemma AloneResolved(checks: seq<Check>, id: string, window: int) returns (j: nat)
    requires checks != [] && !LastFires(Alone(checks, id, window).said)
    requires |Alone(checks[..|checks| - 1], id, window).said| < |Alone(checks, id, window).said|
    ensures j < |checks| - 1 && Absent(checks, id, j)
    ensures checks[|checks| - 1].now - checks[j].now >= window - MINUTE / 2
  {
    var n := |checks| - 1;
    var before := Alone(checks[..n], id, window);
    var step := Next(before.trigger, At(checks[n].found, id), id, checks[n].now, window);
    assert step.said != [];
    assert !step.said[|step.said| - 1].firing;
    j := ClearingSince(checks[..n], id, window);
    assert forall k | j <= k < n :: checks[..n][k] == checks[k];
    RoundedNear(checks[n].now - checks[j].now);
  }

  /** Resolved means quiet: the trigger was absent from every check over at least a window,
      less the half minute that rounding may give away. */
  lemma ResolvedMeansQuiet(checks: seq<Check>, id: string, window: int) returns (j: nat)
    requires Spoke(checks, id, window) && !LastFires(About(Run(checks, window).said, id))
    ensures j < |checks| - 1 && Absent(checks, id, j)
    ensures checks[|checks| - 1].now - checks[j].now >= window - MINUTE / 2
  {
    RunAt(checks, id, window);
    RunAt(checks[..|checks| - 1], id, window);
    j := AloneResolved(checks, id, window);
  }

  /** No check so far fell a rounded window after the j-th. */
  ghost predicate TooSoon(checks: seq<Check>, window: int, j: nat)
    requires j < |checks|
  {
    forall k | j < k < |checks| :: Rounded(checks[k].now - checks[j].now) < window
  }

  /** And quiet gets resolved: a trigger absent from the j-th check on, having been found just
      before, keeps firing exactly as long as no check falls a rounded window after that one. */
  lemma QuietGetsResolved(checks: seq<Check>, id: string, window: int, j: nat)
    requires 0 < j < |checks| && Absent(checks, id, j) && id in checks[j - 1].found && checks[j].now != 0
    ensures At(Run(checks, window).triggers, id).Some? <==> TooSoon(checks, window, j)
  {
    RunAt(checks, id, window);
    AloneQuiet(checks, id, window, j);
  }

  lemma {:induction false} AloneQuiet(checks: seq<Check>, id: string, window: int, j: nat)
    requires 0 < j < |checks| && Absent(checks, id, j) && id in checks[j - 1].found && checks[j].now != 0
    ensures var t := Alone(checks, id, window).trigger;
            && (t.Some? <==> TooSoon(checks, window, j))
            && (t.Some? ==> t.value.clearSince == checks[j].now)
    decreases |checks|
  {
    var n := |checks| - 1;
    var init := checks[..n];
    assert At(checks[n].found, id) == None;
    if j < n {
      assert forall k | 0 <= k < n :: init[k] == checks[k];
      AloneQuiet(init, id, window, j);
      TooSoonNext(checks, window, j);
      assert Alone(checks, id, window).trigger
          == Next(Alone(init, id, window).trigger, None, id, checks[n].now, window).trigger;
    } else {
      FoundFires(init, id, window);
    }
  }

  lemma FoundFires(checks: seq<Check>, id: string, window: int)
    requires checks != [] && id in checks[|checks| - 1].found
    ensures var t := Alone(checks, id, window).trigger; t.Some? && t.value.clearSince == 0
  {
  }

  lemma TooSoonNext(checks: seq<Check>, window: int, j: nat)
    requires j < |checks| - 1
    ensures var n := |checks| - 1;
            TooSoon(checks, window, j)
            <==> TooSoon(checks[..n], window, j) && Rounded(checks[n].now - checks[j].now) < window
  {
    var n := |checks| - 1;
    assert forall k | 0 <= k < n :: checks[..n][k] == checks[k];
  }

  // ---------------------------------------------------------------- what is said

  /** The k-th check found the trigger, and this says so. */
  ghost predicate TellsFinding(checks: seq<Check>, id: string, k: nat, a: Alert) {
    k < |checks| && id in checks[k].found
    && a == Alert(id, checks[k].found[id].kind, true, checks[k].found[id].msg, checks[k].now)
  }

  /** The k-th check did not find it, and this says so in the words it fired with. */
  ghost predicate TellsQuiet(checks: seq<Check>, id: string, k: nat, firing: Alert, a: Alert) {
    k < |checks| && id !in checks[k].found && a == Alert(id, firing.kind, false, firing.msg, checks[k].now)
  }

  ghost predicate IsFiring(checks: seq<Check>, id: string, a: Alert) {
    exists k: nat :: TellsFinding(checks, id, k, a)
  }

  ghost predicate IsResolved(checks: seq<Check>, id: string, firing: Alert, a: Alert) {
    exists k: nat :: TellsQuiet(checks, id, k, firing, a)
  }

  /** Every message that fires says what a check found, and every other recalls the one before. */
  ghost predicate Worded(checks: seq<Check>, id: string, said: seq<Alert>) {
    forall i | 0 <= i < |said| :: WordedAt(checks, id, said, i)
  }

  ghost predicate WordedAt(checks: seq<Check>, id: string, said: seq<Alert>, i: nat)
    requires i < |said|
  {
    if said[i].firing then IsFiring(checks, id, said[i])
    else i > 0 && IsResolved(checks, id, said[i - 1], said[i])
  }

  lemma WordedLonger(checks: seq<Check>, n: nat, id: string, said: seq<Alert>)
    requires n <= |checks| && Worded(checks[..n], id, said)
    ensures Worded(checks, id, said)
  {
    forall i | 0 <= i < |said|
      ensures WordedAt(checks, id, said, i)
    {
      assert WordedAt(checks[..n], id, said, i);
      if said[i].firing {
        var k: nat :| TellsFinding(checks[..n], id, k, said[i]);
        assert TellsFinding(checks, id, k, said[i]);
      } else {
        var k: nat :| TellsQuiet(checks[..n], id, k, said[i - 1], said[i]);
        assert TellsQuiet(checks, id, k, said[i - 1], said[i]);
      }
    }
  }

  /** A trigger keeps the kind and the words of the last message, which was that it fires. */
  ghost predicate Recalls(t: Option<Trigger>, said: seq<Alert>) {
    t.Some? ==> LastFires(said) && said[|said| - 1].kind == t.value.kind && said[|said| - 1].msg == t.value.first
  }

  lemma {:induction false} AloneWorded(checks: seq<Check>, id: string, window: int)
    ensures Worded(checks, id, Alone(checks, id, window).said)
    ensures Recalls(Alone(checks, id, window).trigger, Alone(checks, id, window).said)
  {
    if checks != [] {
      var n := |checks| - 1;
      AloneWorded(checks[..n], id, window);
      var before := Alone(checks[..n], id, window);
      WordedLonger(checks, n, id, before.said);
      WordedNext(checks, id, window, before);
    }
  }

  lemma WordedNext(checks: seq<Check>, id: string, window: int, before: Local)
    requires checks != [] && Worded(checks, id, before.said) && Recalls(before.trigger, before.said)
    ensures var c := checks[|checks| - 1];
            var l := Next(before.trigger, At(c.found, id), id, c.now, window);
            Worded(checks, id, before.said + l.said) && Recalls(l.trigger, before.said + l.said)
  {
    var n := |checks| - 1;
    var l := Next(before.trigger, At(checks[n].found, id), id, checks[n].now, window);
    var said := before.said + l.said;
    forall i | 0 <= i < |before.said|
      ensures WordedAt(checks, id, said, i)
    {
      assert WordedAt(checks, id, before.said, i);
    }
    if l.said != [] && l.said[0].firing {
      assert TellsFinding(checks, id, n, l.said[0]);
    } else if l.said != [] {
      assert TellsQuiet(checks, id, n, before.said[|before.said| - 1], l.said[0]);
    }
  }

  /** Over any run of checks, a message that a trigger fires has the kind, the words and the
      time of a check that found it; one that it is resolved has the time of a check that did
      not, and the kind and the words of the message before it. */
  lemma MessagesExact(checks: seq<Check>, id: string, window: int)
    ensures Worded(checks, id, About(Run(checks, window).said, id))
  {
    RunAt(checks, id, window);
    AloneWorded(checks, id, window);
  }
}
