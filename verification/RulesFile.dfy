/** The rules file of internal/rules/file.go: read anew for every change, checked as a
    whole, replaced atomically, and reread into the set in force. */
module RulesFile {
  import opened Wrappers
  import opened Facts
  import opened Rules
  import opened RuleSets
  import opened Sequences
  import Limit

  /** The file: absent, unreadable, or a list of rules. */
  datatype File = Missing | Broken | Listed(rules: seq<Rule>)

  /** What the file system says of a file: its time and its size. */
  datatype Stamp = Stamp(time: int, size: int)

  const NO_STAMP := Stamp(0, 0)

  datatype Trouble = Invalid | NoSuchRule | RuleExists | Unreadable

  /** The file, and the list the set in force was built from; `known` is the stamp it was read at. */
  datatype State = State(file: File, stamp: Stamp, inForce: seq<Rule>, existed: bool, known: Stamp)

  // ---------------------------------------------------------------- meaning

  predicate Has(list: seq<Rule>, id: string) {
    exists i | 0 <= i < |list| :: list[i].id == id
  }

  function Without(list: seq<Rule>, id: string): seq<Rule> {
    if list == [] then []
    else
      var n := |list| - 1;
      Without(list[..n], id) + if list[n].id == id then [] else [list[n]]
  }

  function Edited(list: seq<Rule>, id: string, edit: Rule -> Rule): (r: seq<Rule>)
    ensures |r| == |list|
  {
    seq(|list|, i requires 0 <= i < |list| => if list[i].id == id then edit(list[i]) else list[i])
  }

  function Read(file: File): Result<seq<Rule>, Trouble> {
    match file
    case Missing => Ok([])
    case Broken => Err(Unreadable)
    case Listed(rules) => Ok(rules)
  }

  /** Rereading: only a file whose stamp changed, and only if the whole of it is in order. */
  function Reloaded(env: Env, s: State): State {
    match s.file
    case Missing => if s.existed then s.(inForce := [], existed := false, known := NO_STAMP) else s
    case Broken => s
    case Listed(rules) =>
      if (s.existed && s.stamp == s.known) || !Buildable(env, rules) then s
      else s.(inForce := rules, existed := true, known := s.stamp)
  }

  /** Whether rereading put another set in force, or why it could not. */
  function Reread(env: Env, s: State): Result<bool, Trouble> {
    if s.file != Missing && s.existed && s.stamp == s.known then Ok(false)
    else match s.file
      case Missing => Ok(s.existed)
      case Broken => Err(Unreadable)
      case Listed(rules) => if Buildable(env, rules) then Ok(true) else Err(Invalid)
  }

  function Written(env: Env, s: State, rules: seq<Rule>, stamp: Stamp): State {
    Reloaded(env, s.(file := Listed(rules), stamp := stamp))
  }

  datatype Change = Add(r: Rule) | Remove(id: string) | Edit(id: string, edit: Rule -> Rule)

  /** The list a change asks for, or why it is refused. */
  function Proposed(env: Env, file: File, c: Change): Result<seq<Rule>, Trouble> {
    if c.Add? && !ValidRule(env, c.r) then Err(Invalid)
    else match Read(file)
      case Err(e) => Err(e)
      case Ok(list) =>
        match c
        case Add(r) => if Has(list, r.id) then Err(RuleExists) else Ok(list + [r])
        case Remove(id) => if Has(list, id) then Ok(Without(list, id)) else Err(NoSuchRule)
        case Edit(id, edit) => if Has(list, id) then Ok(Edited(list, id, edit)) else Err(NoSuchRule)
  }

  /** A change: refused with nothing touched, or the whole list replaced. */
  function Changed(env: Env, s: State, c: Change, stamp: Stamp): State {
    match Proposed(env, s.file, c)
    case Err(_) => s
    case Ok(list) => if Buildable(env, list) then Written(env, s, list, stamp) else s
  }

  predicate Accepted(env: Env, s: State, c: Change) {
    Proposed(env, s.file, c).Ok? && Buildable(env, Proposed(env, s.file, c).value)
  }

  // ---------------------------------------------------------------- the code

  class Store {
    const env: Env
    const limiter: Limit.Windows?
    var file: File
    var stamp: Stamp
    var set_: RuleSet
    var existed: bool
    var known: Stamp

    ghost predicate Valid()
      reads this
    {
      && set_.env == env && set_.limiter == limiter
      && AllFaithful(env, set_.rules) && RulesOf(set_.rules) == Effective(set_.all)
    }

    ghost function View(): State
      reads this
    {
      State(file, stamp, set_.all, existed, known)
    }

    constructor (env: Env, limiter: Limit.Windows?, file: File, stamp: Stamp)
      ensures Valid() && this.env == env && this.limiter == limiter
      ensures View() == Reloaded(env, State(file, stamp, [], false, NO_STAMP))
    {
      var empty := new RuleSet(env, [], [], limiter);
      this.env, this.limiter, this.file, this.stamp := env, limiter, file, stamp;
      set_, existed, known := empty, false, NO_STAMP;
      new;
      var _ := Reload();
    }

    method Reload() returns (r: Result<bool, Trouble>)
      requires Valid()
      modifies this`set_, this`existed, this`known
      ensures Valid() && View() == Reloaded(env, old(View()))
      ensures r == Reread(env, old(View()))
    {
      if file == Missing {
        if !existed {
          return Ok(false);
        }
        var empty := Build(env, [], limiter);
        assert Buildable(env, []);
        set_, existed, known := empty.value, false, NO_STAMP;
        return Ok(true);
      }
      if existed && stamp == known {
        return Ok(false);
      }
      if file == Broken {
        return Err(Unreadable);
      }
      var built := Build(env, file.rules, limiter);
      if built.Err? {
        return Err(Invalid);
      }
      set_, existed, known := built.value, true, stamp;
      return Ok(true);
    }

    /** Replaces the file as a whole, unless the node would refuse to read it back. */
    method Write(rules: seq<Rule>, at: Stamp) returns (r: Result<bool, Trouble>)
      requires Valid()
      modifies this`file, this`stamp, this`set_, this`existed, this`known
      ensures Valid() && (r.Ok? <==> Buildable(env, rules))
      ensures View() == if Buildable(env, rules) then Written(env, old(View()), rules, at) else old(View())
    {
      var checked := Build(env, rules, limiter);
      if checked.Err? {
        return Err(Invalid);
      }
      file, stamp := Listed(rules), at;
      var _ := Reload();
      return Ok(true);
    }

    /** Every change to the rules goes through here: read anew, checked, replaced. */
    method Apply(c: Change, at: Stamp) returns (r: Result<bool, Trouble>)
      requires Valid()
      modifies this`file, this`stamp, this`set_, this`existed, this`known
      ensures Valid() && View() == Changed(env, old(View()), c, at)
      ensures r.Ok? <==> Accepted(env, old(View()), c)
    {
      var asked := Ask(c);
      if asked.Err? {
        return Err(asked.error);
      }
      r := Write(asked.value, at);
    }

    method Ask(c: Change) returns (r: Result<seq<Rule>, Trouble>)
      ensures r == Proposed(env, file, c)
    {
      if c.Add? {
        var compiled := Rules.Compile(env, c.r);
        if compiled.Err? {
          return Err(Invalid);
        }
      }
      if file == Broken {
        return Err(Unreadable);
      }
      var list := if file == Missing then [] else file.rules;
      match c {
        case Add(rule) =>
          var there := Find(list, rule.id);
          return if there then Err(RuleExists) else Ok(list + [rule]);
        case Remove(id) =>
          var left := DropRule(list, id);
          return if |left| == |list| then Err(NoSuchRule) else Ok(left);
        case Edit(id, edit) =>
          var there := Find(list, id);
          return if there then Ok(Edited(list, id, edit)) else Err(NoSuchRule);
      }
    }
  }

  method Find(list: seq<Rule>, id: string) returns (found: bool)
    ensures found == Has(list, id)
  {
    for i := 0 to |list|
      invariant forall k | 0 <= k < i :: list[k].id != id
    {
      if list[i].id == id {
        return true;
      }
    }
    return false;
  }

  method DropRule(list: seq<Rule>, id: string) returns (left: seq<Rule>)
    ensures left == Without(list, id)
    ensures |left| == |list| <==> !Has(list, id)
  {
    left := [];
    for i := 0 to |list|
      invariant left == Without(list[..i], id)
    {
      assert list[..i + 1][..i] == list[..i];
      if list[i].id != id {
        left := left + [list[i]];
      } else {
        assert left + [] == left;
      }
    }
    assert list[..|list|] == list;
    WithoutShorter(list, id);
  }

  lemma {:induction false} WithoutShorter(list: seq<Rule>, id: string)
    ensures |Without(list, id)| <= |list|
    ensures |Without(list, id)| == |list| <==> !Has(list, id)
    ensures !Has(list, id) ==> Without(list, id) == list
  {
    if list != [] {
      WithoutShorter(list[..|list| - 1], id);
      LastApart(list);
    }
  }

  // ---------------------------------------------------------------- laws

  /** What the node has read is what the file says, as long as the file has not changed since. */
  ghost predicate InStep(s: State) {
    s.existed && s.known == s.stamp ==> s.file == Listed(s.inForce)
  }

  /** A change that is accepted is in force at once just when its file's stamp is new to the
      node, or the list did not change at all; with a stamp met before, the old set stays. */
  lemma InForceAtOnce(env: Env, s: State, c: Change, stamp: Stamp)
    requires InStep(s) && Accepted(env, s, c)
    ensures var after := Changed(env, s, c, stamp);
            && after.file == Listed(Proposed(env, s.file, c).value)
            && (Listed(after.inForce) == after.file
                <==> !s.existed || stamp != s.known || s.inForce == Proposed(env, s.file, c).value)
            && (!s.existed || stamp != s.known ==> InStep(after))
  {
  }

  /** The length of the file's text: of every rule its mode, and the rest of it. */
  function TextSize(rest: Rule -> nat, list: seq<Rule>): nat {
    if list == [] then 0
    else
      var r := list[|list| - 1];
      TextSize(rest, list[..|list| - 1]) + rest(r.(mode := "")) + |r.mode|
  }

  function SetMode(id: string, mode: string): Change {
    Edit(id, (r: Rule) => r.(mode := mode))
  }

  lemma {:induction false} ModeKeepsSize(rest: Rule -> nat, list: seq<Rule>, id: string, mode: string)
    requires forall r | r in list && r.id == id :: |r.mode| == |mode|
    ensures TextSize(rest, Edited(list, id, SetMode(id, mode).edit)) == TextSize(rest, list)
  {
    if list != [] {
      var n := |list| - 1;
      ModeKeepsSize(rest, list[..n], id, mode);
      assert Edited(list, id, SetMode(id, mode).edit)[..n] == Edited(list[..n], id, SetMode(id, mode).edit);
    }
  }

  /** The two modes are words of one length. A rule moved from shadow to active within the
      tick of the clock its file was read in is in the file, and not in force. */
  lemma ModeChangeMissed(env: Env, s: State, id: string, rest: Rule -> nat)
    requires InStep(s) && s.existed && s.known == s.stamp && Has(s.inForce, id)
    requires s.stamp.size == TextSize(rest, s.inForce) && Accepted(env, s, SetMode(id, ACTIVE))
    requires forall r | r in s.inForce && r.id == id :: r.mode == SHADOW
    ensures var list := Edited(s.inForce, id, SetMode(id, ACTIVE).edit);
            var after := Changed(env, s, SetMode(id, ACTIVE), Stamp(s.stamp.time, TextSize(rest, list)));
            && after.file == Listed(list) && after.inForce == s.inForce
            && (exists r | r in list :: r.id == id && r.mode == ACTIVE)
            && (forall r | r in after.inForce && r.id == id :: r.mode == SHADOW)
  {
    ModeKeepsSize(rest, s.inForce, id, ACTIVE);
    var i :| 0 <= i < |s.inForce| && s.inForce[i].id == id;
    var list := Edited(s.inForce, id, SetMode(id, ACTIVE).edit);
    assert list[i] in list && list[i].mode == ACTIVE && list[i].id == id;
  }

  /** Adding a rule and removing it again leaves the list as it was. */
  lemma AddThenRemove(env: Env, list: seq<Rule>, r: Rule)
    requires !Has(list, r.id) && ValidRule(env, r)
    ensures Proposed(env, Listed(list), Add(r)) == Ok(list + [r])
    ensures Proposed(env, Listed(list + [r]), Remove(r.id)) == Ok(list)
  {
    var more := list + [r];
    assert more[..|list|] == list && more[|list|] == r;
    WithoutShorter(list, r.id);
    assert list + [] == list;
    assert more[|list|].id == r.id;
  }

  /** A file that a change has written is one the node reads back. */
  ghost predicate Readable(env: Env, file: File) {
    file == Missing || (file.Listed? && Buildable(env, file.rules))
  }

  lemma ChangeKeepsReadable(env: Env, s: State, c: Change, stamp: Stamp)
    requires Readable(env, s.file)
    ensures Readable(env, Changed(env, s, c, stamp).file)
  {
  }

  // ---------------------------------------------------------------- rereading and editing

  /** The file was read before, and has the stamp it had then. */
  ghost predicate Unchanged(s: State) {
    s.file != Missing && s.existed && s.stamp == s.known
  }

  /** Rereading: a file that vanished lifts the rules, a new one that is in order replaces them,
      and anything else leaves them as they are; the answer says which. */
  lemma RereadExact(env: Env, s: State)
    ensures var t, r := Reloaded(env, s), Reread(env, s);
            var good := s.file.Listed? && Buildable(env, s.file.rules);
            && t.file == s.file && t.stamp == s.stamp
            && (s.file == Missing && s.existed ==> t.inForce == [] && !t.existed && r == Ok(true))
            && (good && !Unchanged(s) ==>
                  t.inForce == s.file.rules && t.existed && t.known == s.stamp && r == Ok(true))
            && (!(s.file == Missing && s.existed) && !(good && !Unchanged(s)) ==> t == s && r != Ok(true))
            && (r == Err(Unreadable) <==> s.file == Broken && !Unchanged(s))
            && (r == Err(Invalid) <==> s.file.Listed? && !good && !Unchanged(s))
  {
  }

  /** What a change asks of the list, and why it is refused: a rule that is not valid, a file
      that cannot be read, an id that is there already, or one that is not. */
  lemma ProposedExact(env: Env, file: File, c: Change)
    ensures var asked := Proposed(env, file, c);
            var list := match file case Listed(rules) => rules case _ => [];
            var bad := c.Add? && !ValidRule(env, c.r);
            var id := match c case Add(r) => r.id case Remove(id) => id case Edit(id, _) => id;
            var there := exists r | r in list :: r.id == id;
            && (asked == Err(Invalid) <==> bad) && (asked == Err(Unreadable) <==> !bad && file == Broken)
            && (asked == Err(RuleExists) <==> !bad && file != Broken && c.Add? && there)
            && (asked == Err(NoSuchRule) <==> file != Broken && !c.Add? && !there)
            && (asked.Ok? && c.Add? ==> asked.value == list + [c.r])
            && (asked.Ok? && c.Remove? ==> asked.value == Without(list, id))
            && (asked.Ok? && c.Edit? ==> |asked.value| == |list| && forall i | 0 <= i < |list| ::
                  asked.value[i] == if list[i].id == id then c.edit(list[i]) else list[i])
  {
    var list := match file case Listed(rules) => rules case _ => [];
    forall id
      ensures Has(list, id) <==> exists r | r in list :: r.id == id
    {
      if Has(list, id) {
        var i :| 0 <= i < |list| && list[i].id == id;
        assert list[i] in list;
      }
    }
  }

  /** What is left without an id: all other rules, as often as they were there. */
  lemma {:induction false} WithoutExact(list: seq<Rule>, id: string, r: Rule)
    ensures multiset(Without(list, id))[r] == if r.id == id then 0 else multiset(list)[r]
  {
    if list != [] {
      WithoutExact(list[..|list| - 1], id, r);
      LastApart(list);
    }
  }
}
