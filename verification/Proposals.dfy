/** The owner's decisions about proposed rules, internal/proposals: what may be decided,
    once, and what accepting does to the rules. */
module Proposals {
  import opened Wrappers
  import opened Facts
  import opened Condition
  import opened Rules
  import opened RuleSets
  import opened RuleSetLaws
  import opened RulesFile
  import opened Sequences

  const MAX_REASON := 500

  datatype Draft = Draft(id: string, name: string, scope: seq<string>, priority: int, condition: Tree, action: Action)

  datatype Proposal = Proposal(id: string, expires: int, rule: Draft)

  datatype Advice = Advice(id: string, expires: int, rule: string)

  /** What the cloud sent last; a new list replaces the whole of it. */
  datatype Document = Document(proposals: seq<Proposal>, advice: seq<Advice>)

  datatype Decided = Decided(id: string, accepted: bool, at: int, who: string, reason: string)

  datatype Refusal = TooLong | NoProposal | OnlyAdvice | AlreadyDecided(accepted: bool) | OfRules(trouble: Trouble)
                   | NotSaved

  /** The draft as a rule: always in shadow, and enabled unless said otherwise. */
  function AsRule(p: Proposal): Rule {
    Rule(p.rule.id, p.rule.name, p.rule.scope, None, SHADOW, p.rule.priority, p.rule.condition, p.rule.action)
  }

  // ---------------------------------------------------------------- meaning

  function ProposalOf(list: seq<Proposal>, id: string): Option<Proposal> {
    if list == [] then None
    else if list[0].id == id then Some(list[0])
    else ProposalOf(list[1..], id)
  }

  predicate Advises(doc: Document, id: string) {
    exists i | 0 <= i < |doc.advice| :: doc.advice[i].id == id
  }

  function DecisionOf(decisions: seq<Decided>, id: string): Option<Decided> {
    if decisions == [] then None
    else if decisions[0].id == id then Some(decisions[0])
    else DecisionOf(decisions[1..], id)
  }

  predicate IsDecided(decisions: seq<Decided>, id: string) {
    DecisionOf(decisions, id).Some?
  }

  /** Why accepting is refused before the rules are even asked. */
  function RefusesAccept(doc: Document, decisions: seq<Decided>, id: string): Option<Refusal> {
    if ProposalOf(doc.proposals, id).None? then Some(if Advises(doc, id) then OnlyAdvice else NoProposal)
    else match DecisionOf(decisions, id)
      case Some(d) => Some(AlreadyDecided(d.accepted))
      case None => None
  }

  function RefusesReject(doc: Document, decisions: seq<Decided>, id: string, reason: string): Option<Refusal> {
    if |reason| > MAX_REASON then Some(TooLong)
    else if ProposalOf(doc.proposals, id).None? && !Advises(doc, id) then Some(NoProposal)
    else match DecisionOf(decisions, id)
      case Some(d) => Some(AlreadyDecided(d.accepted))
      case None => None
  }

  /** What the owner is asked about: neither expired nor decided, and of advice only what is
      about a rule that is still there. */
  function Offered(doc: Document, decisions: seq<Decided>, now: int): seq<Proposal> {
    OfferedOf(doc.proposals, decisions, now)
  }

  function OfferedOf(list: seq<Proposal>, decisions: seq<Decided>, now: int): seq<Proposal> {
    if list == [] then []
    else
      var n := |list| - 1;
      OfferedOf(list[..n], decisions, now)
      + if now > list[n].expires || IsDecided(decisions, list[n].id) then [] else [list[n]]
  }

  function AdvisedOf(list: seq<Advice>, decisions: seq<Decided>, now: int, hashes: set<string>): seq<Advice> {
    if list == [] then []
    else
      var n := |list| - 1;
      AdvisedOf(list[..n], decisions, now, hashes)
      + if now > list[n].expires || IsDecided(decisions, list[n].id) || list[n].rule !in hashes then [] else [list[n]]
  }

  // ---------------------------------------------------------------- the code

  class Desk {
    var decisions: seq<Decided>

    constructor ()
      ensures decisions == []
    {
      decisions := [];
    }

    method FindDecision(id: string) returns (d: Option<Decided>)
      ensures d == DecisionOf(decisions, id)
    {
      for i := 0 to |decisions|
        invariant DecisionOf(decisions, id) == DecisionOf(decisions[i..], id)
      {
        if decisions[i].id == id {
          return Some(decisions[i]);
        }
      }
      return None;
    }

    /** Writes the proposed rule into the rules file in shadow, and records that it was
        accepted; `saved` says whether that last write works. */
    method Accept(doc: Document, id: string, rules: RulesFile.Store, who: string, now: int, stamp: Stamp, saved: bool)
      returns (r: Result<bool, Refusal>)
      requires rules.Valid()
      modifies this, rules`file, rules`stamp, rules`set_, rules`existed, rules`known
      ensures rules.Valid()
      ensures var refused := RefusesAccept(doc, old(decisions), id);
              if refused.Some? then
                r == Err(refused.value) && decisions == old(decisions) && rules.View() == old(rules.View())
              else
                var c := Add(AsRule(ProposalOf(doc.proposals, id).value));
                && rules.View() == Changed(rules.env, old(rules.View()), c, stamp)
                && decisions == (if Accepted(rules.env, old(rules.View()), c) && saved
                                 then old(decisions) + [Decided(id, true, now, who, "")] else old(decisions))
                && (r.Ok? <==> Accepted(rules.env, old(rules.View()), c) && saved)
    {
      var found := FindProposal(doc, id);
      if found.None? {
        var advised := FindAdvice(doc, id);
        return Err(if advised then OnlyAdvice else NoProposal);
      }
      var d := FindDecision(id);
      if d.Some? {
        return Err(AlreadyDecided(d.value.accepted));
      }
      var added := rules.Apply(Add(AsRule(found.value)), stamp);
      if added.Err? {
        return Err(OfRules(added.error));
      }
      if !saved {
        return Err(NotSaved);
      }
      decisions := decisions + [Decided(id, true, now, who, "")];
      return Ok(true);
    }

    /** Records that the owner declined a proposal or a piece of advice. */
    method Reject(doc: Document, id: string, reason: string, who: string, now: int) returns (r: Result<bool, Refusal>)
      modifies this
      ensures var refused := RefusesReject(doc, old(decisions), id, reason);
              if refused.Some? then r == Err(refused.value) && decisions == old(decisions)
              else r.Ok? && decisions == old(decisions) + [Decided(id, false, now, who, reason)]
    {
      if |reason| > MAX_REASON {
        return Err(TooLong);
      }
      var found := FindProposal(doc, id);
      if found.None? {
        var advised := FindAdvice(doc, id);
        if !advised {
          return Err(NoProposal);
        }
      }
      var d := FindDecision(id);
      if d.Some? {
        return Err(AlreadyDecided(d.value.accepted));
      }
      decisions := decisions + [Decided(id, false, now, who, reason)];
      return Ok(true);
    }

    /** What to ask the owner about; `hashes` names the rules there are. */
    method List(doc: Document, now: int, hashes: set<string>) returns (offered: seq<Proposal>, advised: seq<Advice>)
      ensures offered == OfferedOf(doc.proposals, decisions, now)
      ensures advised == AdvisedOf(doc.advice, decisions, now, hashes)
    {
      offered, advised := [], [];
      for i := 0 to |doc.proposals|
        invariant offered == OfferedOf(doc.proposals[..i], decisions, now)
      {
        var p := doc.proposals[i];
        assert doc.proposals[..i + 1][..i] == doc.proposals[..i];
        assert offered + [] == offered;
        var d := FindDecision(p.id);
        if now > p.expires || d.Some? {
          continue;
        }
        offered := offered + [p];
      }
      assert doc.proposals[..|doc.proposals|] == doc.proposals;
      for i := 0 to |doc.advice|
        invariant advised == AdvisedOf(doc.advice[..i], decisions, now, hashes)
      {
        var a := doc.advice[i];
        assert doc.advice[..i + 1][..i] == doc.advice[..i];
        assert advised + [] == advised;
        var d := FindDecision(a.id);
        if now > a.expires || d.Some? || a.rule !in hashes {
          continue;
        }
        advised := advised + [a];
      }
      assert doc.advice[..|doc.advice|] == doc.advice;
    }
  }

  method FindProposal(doc: Document, id: string) returns (p: Option<Proposal>)
    ensures p == ProposalOf(doc.proposals, id)
  {
    for i := 0 to |doc.proposals|
      invariant ProposalOf(doc.proposals, id) == ProposalOf(doc.proposals[i..], id)
    {
      if doc.proposals[i].id == id {
        return Some(doc.proposals[i]);
      }
    }
    return None;
  }

  method FindAdvice(doc: Document, id: string) returns (found: bool)
    ensures found == Advises(doc, id)
  {
    for i := 0 to |doc.advice|
      invariant forall k | 0 <= k < i :: doc.advice[k].id != id
    {
      if doc.advice[i].id == id {
        return true;
      }
    }
    return false;
  }

  // ---------------------------------------------------------------- runs

  /** What happens at the desk: another document arrives, or a button is pressed. */
  datatype Act =
    | Arrives(doc: Document)
    | Accepts(id: string, who: string, now: int, stamp: Stamp, saved: bool)
    | Rejects(id: string, reason: string, who: string, now: int)
    | ByHand(change: Change, stamp: Stamp)  // the owner edits the rules

  datatype Office = Office(doc: Document, decisions: seq<Decided>, rules: RulesFile.State)

  function Step(env: Env, o: Office, a: Act): Office {
    match a
    case Arrives(doc) => o.(doc := doc)
    case ByHand(c, stamp) => o.(rules := Changed(env, o.rules, c, stamp))
    case Rejects(id, reason, who, now) =>
      if RefusesReject(o.doc, o.decisions, id, reason).Some? then o
      else o.(decisions := o.decisions + [Decided(id, false, now, who, reason)])
    case Accepts(id, who, now, stamp, saved) =>
      if RefusesAccept(o.doc, o.decisions, id).Some? then o
      else
        var c := Add(AsRule(ProposalOf(o.doc.proposals, id).value));
        Office(o.doc,
               if Accepted(env, o.rules, c) && saved then o.decisions + [Decided(id, true, now, who, "")]
               else o.decisions,
               Changed(env, o.rules, c, stamp))
  }

  function Run(env: Env, o: Office, acts: seq<Act>): Office {
    if acts == [] then o else Step(env, Run(env, o, acts[..|acts| - 1]), acts[|acts| - 1])
  }

  ghost predicate OncePerId(decisions: seq<Decided>) {
    forall i, j | 0 <= i < j < |decisions| :: decisions[i].id != decisions[j].id
  }

  lemma {:induction false} DecisionFinds(decisions: seq<Decided>, id: string)
    ensures IsDecided(decisions, id) <==> exists i | 0 <= i < |decisions| :: decisions[i].id == id
  {
    if decisions != [] {
      DecisionFinds(decisions[1..], id);
      if i :| 0 <= i < |decisions| && decisions[i].id == id && i > 0 {
        assert decisions[1..][i - 1].id == id;
      }
      if IsDecided(decisions[1..], id) {
        var i :| 0 <= i < |decisions[1..]| && decisions[1..][i].id == id;
        assert decisions[i + 1].id == id;
      }
      assert decisions[0].id == id ==> IsDecided(decisions, id);
    }
  }

  lemma StepOnce(env: Env, o: Office, a: Act)
    requires OncePerId(o.decisions)
    ensures OncePerId(Step(env, o, a).decisions)
    ensures o.decisions <= Step(env, o, a).decisions
  {
    if a.Accepts? || a.Rejects? {
      DecisionFinds(o.decisions, a.id);
    }
  }

  /** Over any run, whatever documents come, each id is decided at most once, and a decision
      once made stays made. */
  lemma {:induction false} DecidedAtMostOnce(env: Env, o: Office, acts: seq<Act>)
    requires OncePerId(o.decisions)
    ensures OncePerId(Run(env, o, acts).decisions)
    ensures o.decisions <= Run(env, o, acts).decisions
  {
    if acts != [] {
      var n := |acts| - 1;
      DecidedAtMostOnce(env, o, acts[..n]);
      StepOnce(env, Run(env, o, acts[..n]), acts[n]);
    }
  }

  lemma {:induction false} OfferedOnlyOpen(list: seq<Proposal>, decisions: seq<Decided>, now: int)
    ensures forall p | p in OfferedOf(list, decisions, now) ::
              p in list && now <= p.expires && !IsDecided(decisions, p.id)
    ensures forall p | p in list && now <= p.expires && !IsDecided(decisions, p.id) ::
              p in OfferedOf(list, decisions, now)
  {
    if list != [] {
      OfferedOnlyOpen(list[..|list| - 1], decisions, now);
      assert list == list[..|list| - 1] + [list[|list| - 1]];
    }
  }

  /** What was decided is never offered again, even if the cloud sends the id anew. */
  lemma NeverOfferedAgain(env: Env, o: Office, acts: seq<Act>, id: string, now: int)
    requires OncePerId(o.decisions) && IsDecided(o.decisions, id)
    ensures var end := Run(env, o, acts);
            forall p | p in Offered(end.doc, end.decisions, now) :: p.id != id
  {
    DecidedAtMostOnce(env, o, acts);
    var end := Run(env, o, acts);
    OfferedOnlyOpen(end.doc.proposals, end.decisions, now);
    DecisionFinds(o.decisions, id);
    DecisionFinds(end.decisions, id);
    var i :| 0 <= i < |o.decisions| && o.decisions[i].id == id;
    assert end.decisions[i].id == id;
  }

  // ---------------------------------------------------------------- accepting

  /** Accepting a proposal adds one shadow rule, so that over any traffic no decision and no
      counter of the limiter changes. */
  lemma AcceptDecidesNothing(env: Env, list: seq<Rule>, p: Proposal, book: Option<Book>, events: seq<RuleSetLaws.Event>)
    requires Buildable(env, list + [AsRule(p)])
    ensures Served(env, Effective(list + [AsRule(p)]), book, events) == Served(env, Effective(list), book, events)
  {
    var s := AsRule(p);
    WithoutLast(list, s);
    ShadowsDoNotInterfere(env, list + [s], list, book, events);
  }

  // ---------------------------------------------------------------- half an acceptance

  /** The proposal is in the document under its id and not decided. */
  ghost predicate Waiting(o: Office, p: Proposal) {
    ProposalOf(o.doc.proposals, p.id) == Some(p) && !IsDecided(o.decisions, p.id)
  }

  /** There is no rule of its id in the file, and with its rule added the file is one the
      node would read. */
  ghost predicate Addable(env: Env, file: File, r: Rule) {
    Read(file).Ok? && !Has(Read(file).value, r.id) && Buildable(env, Read(file).value + [r])
  }

  /** Accepting a proposal that waits is recorded exactly when its rule can be added: it is
      refused for as long as a rule of that id is in the file, and no longer. */
  lemma AcceptExact(env: Env, o: Office, p: Proposal, who: string, now: int, stamp: Stamp)
    requires Waiting(o, p)
    ensures var next := Step(env, o, Accepts(p.id, who, now, stamp, true));
            if Addable(env, o.rules.file, AsRule(p))
            then next.decisions == o.decisions + [Decided(p.id, true, now, who, "")]
            else next == o
  {
    if Addable(env, o.rules.file, AsRule(p)) {
      var list := Read(o.rules.file).value;
      assert (list + [AsRule(p)])[|list|] == AsRule(p);
    }
  }

  /** What takes a proposal off the desk: a document without it, a decision to decline it, or
      an acceptance that goes through. */
  ghost predicate Ends(env: Env, o: Office, a: Act, p: Proposal) {
    match a
    case Arrives(doc) => ProposalOf(doc.proposals, p.id) != Some(p)
    case Rejects(id, reason, _, _) => id == p.id && |reason| <= MAX_REASON
    case Accepts(id, _, _, _, saved) => id == p.id && saved && Addable(env, o.rules.file, AsRule(p))
    case ByHand(_, _) => false
  }

  lemma {:induction false} DecidedNext(decisions: seq<Decided>, d: Decided, id: string)
    ensures IsDecided(decisions + [d], id) <==> IsDecided(decisions, id) || d.id == id
  {
    if decisions != [] {
      PushTail(decisions, [d]);
      DecidedNext(decisions[1..], d, id);
    } else {
      assert (decisions + [d])[1..] == [];
    }
  }

  lemma WaitingStep(env: Env, o: Office, a: Act, p: Proposal)
    requires Waiting(o, p)
    ensures Waiting(Step(env, o, a), p) <==> !Ends(env, o, a, p)
  {
    match a {
      case Arrives(_) =>
      case ByHand(_, _) =>
      case Rejects(id, reason, who, now) =>
        DecidedNext(o.decisions, Decided(id, false, now, who, reason), p.id);
      case Accepts(id, who, now, stamp, saved) =>
        DecidedNext(o.decisions, Decided(id, true, now, who, ""), p.id);
        if id == p.id && saved {
          AcceptExact(env, o, p, who, now, stamp);
        }
    }
  }

  /** Nothing in the run takes the proposal off the desk. */
  ghost predicate Undisturbed(env: Env, o: Office, acts: seq<Act>, p: Proposal) {
    forall k | 0 <= k < |acts| :: !Ends(env, Run(env, o, acts[..k]), acts[k], p)
  }

  lemma {:induction false} WaitsOn(env: Env, o: Office, acts: seq<Act>, p: Proposal)
    requires Waiting(o, p) && Undisturbed(env, o, acts, p)
    ensures Waiting(Run(env, o, acts), p)
  {
    if acts != [] {
      var n := |acts| - 1;
      var init := acts[..n];
      forall k | 0 <= k < n
        ensures !Ends(env, Run(env, o, init[..k]), init[k], p)
      {
        assert init[..k] == acts[..k] && init[k] == acts[k];
      }
      WaitsOn(env, o, init, p);
      WaitingStep(env, Run(env, o, init), acts[n], p);
    }
  }

  lemma {:induction false} ProposalIsThere(list: seq<Proposal>, id: string)
    requires ProposalOf(list, id).Some?
    ensures ProposalOf(list, id).value in list && ProposalOf(list, id).value.id == id
  {
    if list[0].id != id {
      ProposalIsThere(list[1..], id);
    }
  }

  /** A stop between the two writes of an acceptance leaves the rule written and the decision
      not. Over every run from there that does not take the proposal off the desk, it is
      offered exactly until it expires; and as long as its rule is in the file, accepting it
      changes nothing. */
  lemma HalfAccepted(env: Env, o: Office, id: string, who: string, now: int, stamp: Stamp, acts: seq<Act>, later: Act)
    requires RefusesAccept(o.doc, o.decisions, id).None?
    requires Accepted(env, o.rules, Add(AsRule(ProposalOf(o.doc.proposals, id).value)))
    requires var p := ProposalOf(o.doc.proposals, id).value;
             Undisturbed(env, Step(env, o, Accepts(id, who, now, stamp, false)), acts, p)
    ensures var p := ProposalOf(o.doc.proposals, id).value;
            var half := Step(env, o, Accepts(id, who, now, stamp, false));
            var end := Run(env, half, acts);
            && half.decisions == o.decisions && half.rules.file.Listed? && Has(half.rules.file.rules, p.rule.id)
            && (forall t :: p in Offered(end.doc, end.decisions, t) <==> t <= p.expires)
            && (end.rules.file.Listed? && Has(end.rules.file.rules, p.rule.id) && later.Accepts? && later.id == id ==>
                  Step(env, end, later) == end)
  {
    var p := ProposalOf(o.doc.proposals, id).value;
    var half := Step(env, o, Accepts(id, who, now, stamp, false));
    ProposalIsThere(o.doc.proposals, id);
    AddedIsThere(env, o.rules.file, AsRule(p));
    WaitsOn(env, half, acts, p);
    var end := Run(env, half, acts);
    ProposalIsThere(end.doc.proposals, id);
    forall t
      ensures p in Offered(end.doc, end.decisions, t) <==> t <= p.expires
    {
      OfferedOnlyOpen(end.doc.proposals, end.decisions, t);
    }
  }

  lemma AddedIsThere(env: Env, file: File, r: Rule)
    requires Proposed(env, file, Add(r)).Ok?
    ensures Has(Proposed(env, file, Add(r)).value, r.id)
  {
    var list := Proposed(env, file, Add(r)).value;
    assert list[|list| - 1] == r;
  }

  /** Once the rule is gone from the file again, the proposal can be accepted. */
  lemma AcceptedAfterRemoval(env: Env, o: Office, p: Proposal, list: seq<Rule>, removed: Stamp, who: string, now: int,
                             stamp: Stamp)
    requires Waiting(o, p) && o.rules.file == File.Listed(list + [AsRule(p)]) && !Has(list, p.rule.id)
    requires Buildable(env, list) && Buildable(env, list + [AsRule(p)])
    ensures var half := Step(env, o, ByHand(Remove(p.rule.id), removed));
            && Step(env, o, Accepts(p.id, who, now, stamp, true)) == o
            && Step(env, half, Accepts(p.id, who, now, stamp, true)).decisions
               == o.decisions + [Decided(p.id, true, now, who, "")]
  {
    var more := list + [AsRule(p)];
    assert more[|list|] == AsRule(p);
    AddThenRemove(env, list, AsRule(p));
    var half := Step(env, o, ByHand(Remove(p.rule.id), removed));
    AcceptExact(env, o, p, who, now, stamp);
    AcceptExact(env, half, p, who, now, stamp);
  }

  // ---------------------------------------------------------------- what is refused

  ghost predicate Offers(doc: Document, id: string) {
    exists i | 0 <= i < |doc.proposals| :: doc.proposals[i].id == id
  }

  ghost predicate Mentions(doc: Document, id: string) {
    exists a | a in doc.advice :: a.id == id
  }

  /** The id was decided, and the first decision about it was this one. */
  ghost predicate DecidedAs(decisions: seq<Decided>, id: string, accepted: bool) {
    exists i | 0 <= i < |decisions| :: decisions[i].id == id && decisions[i].accepted == accepted
                                       && forall j | 0 <= j < i :: decisions[j].id != id
  }

  lemma {:induction false} FirstDecision(decisions: seq<Decided>, id: string)
    ensures match DecisionOf(decisions, id)
            case None => forall i | 0 <= i < |decisions| :: decisions[i].id != id
            case Some(d) => DecidedAs(decisions, id, d.accepted) && !DecidedAs(decisions, id, !d.accepted)
  {
    if decisions != [] && decisions[0].id != id {
      FirstDecision(decisions[1..], id);
      assert forall i | 1 <= i < |decisions| :: decisions[i] == decisions[1..][i - 1];
      var d := DecisionOf(decisions, id);
      if d.Some? {
        var i :| 0 <= i < |decisions[1..]| && decisions[1..][i].id == id
                 && decisions[1..][i].accepted == d.value.accepted
                 && forall j | 0 <= j < i :: decisions[1..][j].id != id;
        assert decisions[i + 1].id == id && forall j | 0 <= j < i + 1 :: decisions[j].id != id;
      }
    }
  }

  lemma {:induction false} ProposalFinds(list: seq<Proposal>, id: string)
    ensures ProposalOf(list, id).Some? <==> exists i | 0 <= i < |list| :: list[i].id == id
    ensures ProposalOf(list, id).Some? ==> ProposalOf(list, id).value in list && ProposalOf(list, id).value.id == id
  {
    if list != [] {
      ProposalFinds(list[1..], id);
      assert forall i | 1 <= i < |list| :: list[i] == list[1..][i - 1];
      if i :| 0 <= i < |list| && list[i].id == id && i > 0 {
        assert list[1..][i - 1].id == id;
      }
      if ProposalOf(list[1..], id).Some? {
        var i :| 0 <= i < |list[1..]| && list[1..][i].id == id;
        assert list[i + 1].id == id;
      }
      assert list == [list[0]] + list[1..];
    }
  }

  /** Why a proposal cannot be accepted, or a proposal or piece of advice declined: too long a
      reason, nothing of that id, only advice, or a decision made before. */
  lemma RefusalsExact(doc: Document, decisions: seq<Decided>, id: string, reason: string)
    ensures var why := RefusesAccept(doc, decisions, id);
            && (why == Some(OnlyAdvice) <==> !Offers(doc, id) && Mentions(doc, id))
            && (why == Some(NoProposal) <==> !Offers(doc, id) && !Mentions(doc, id))
            && (forall a :: why == Some(AlreadyDecided(a)) <==> Offers(doc, id) && DecidedAs(decisions, id, a))
            && (why == None <==> Offers(doc, id) && forall i | 0 <= i < |decisions| :: decisions[i].id != id)
    ensures var why := RefusesReject(doc, decisions, id, reason);
            var known := Offers(doc, id) || Mentions(doc, id);
            && (why == Some(TooLong) <==> |reason| > 500)
            && (why == Some(NoProposal) <==> |reason| <= 500 && !known)
            && (forall a :: why == Some(AlreadyDecided(a)) <==> |reason| <= 500 && known && DecidedAs(decisions, id, a))
            && (why == None <==> |reason| <= 500 && known && forall i | 0 <= i < |decisions| :: decisions[i].id != id)
  {
    ProposalFinds(doc.proposals, id);
    FirstDecision(decisions, id);
    if Advises(doc, id) {
      var i :| 0 <= i < |doc.advice| && doc.advice[i].id == id;
      assert doc.advice[i] in doc.advice;
    }
  }

  lemma {:induction false} AdvisedOnlyOpen(list: seq<Advice>, decisions: seq<Decided>, now: int, hashes: set<string>)
    ensures forall a :: a in AdvisedOf(list, decisions, now, hashes)
              <==> a in list && now <= a.expires && !IsDecided(decisions, a.id) && a.rule in hashes
  {
    if list != [] {
      AdvisedOnlyOpen(list[..|list| - 1], decisions, now, hashes);
      assert list == list[..|list| - 1] + [list[|list| - 1]];
    }
  }

  /** Nothing was decided about the id. */
  ghost predicate Undecided(decisions: seq<Decided>, id: string) {
    forall i | 0 <= i < |decisions| :: decisions[i].id != id
  }

  /** On offer is exactly what is in the document, has not expired and was not decided, and
      advice only about a rule there is. */
  lemma ListExact(doc: Document, decisions: seq<Decided>, now: int, hashes: set<string>)
    ensures forall p :: p in OfferedOf(doc.proposals, decisions, now)
              <==> p in doc.proposals && now <= p.expires && Undecided(decisions, p.id)
    ensures forall a :: a in AdvisedOf(doc.advice, decisions, now, hashes)
              <==> a in doc.advice && now <= a.expires && Undecided(decisions, a.id) && a.rule in hashes
  {
    OfferedOnlyOpen(doc.proposals, decisions, now);
    AdvisedOnlyOpen(doc.advice, decisions, now, hashes);
    forall id: string
      ensures IsDecided(decisions, id) <==> !Undecided(decisions, id)
    {
      DecisionFinds(decisions, id);
    }
  }

  /** An accepted rule fires just where its draft says, watches and never decides, and acts as
      drafted should it be made active. */
  lemma DraftKept(env: Env, p: Proposal, r: Request)
    ensures var s := AsRule(p);
            && s.id == p.rule.id && s.Enabled() && s.action == p.rule.action && s.priority == p.rule.priority
            && (ValidRule(env, s) ==>
                  && (Watches(env, s, r)
                      <==> InScope(env, p.rule.scope, r.host) && Holds(env.parse, p.rule.condition, r))
                  && !Decides(env, s, r))
  {
  }
}
