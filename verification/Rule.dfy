/** One rule of internal/rules/rule.go: when it is valid, and what it compiles to. */
module Rules {
  import opened Wrappers
  import opened Facts
  import opened Condition
  import opened Keys

  const SHADOW := "shadow"
  const ACTIVE := "active"
  const MAX_LIMIT := 0x10_0000

  datatype Action = Action(kind: string, status: int, body: string, limit: int, window: string, key: string)

  datatype Rule = Rule(id: string, name: string, scope: seq<string>, enabled: Option<bool>,
                       mode: string, priority: int, condition: Tree, action: Action) {
    predicate Enabled() {
      enabled != Some(false)
    }

    function LimiterKey(): string {
      if action.key == "" then "ip" else action.key
    }

    /** The key a request is counted under. */
    function KeyFor(r: Request): string {
      Joined(id, ReadText(r, LimiterKey()))
    }
  }

  /** What the compiler asks of other parts: parsing, host names, durations, the digest. */
  datatype Env = Env(parse: Parsers, normalize: string -> string, duration: string -> Option<int>,
                     digest: (Tree, Action) -> string)

  datatype Fault =
    | NoId | SpaceInId | NoMode | UnknownMode | NoScope | EmptyDomain | BadCondition(error: Error)
    | BadStatus | NoLimit | LimitTooHigh | NoWindow | BadWindow | BadKey | NoAction | UnknownAction | Twice

  /** A rule ready to be applied. */
  datatype Compiled = Compiled(rule: Rule, matches: Matcher, inScope: string -> bool, window: int, hash: string)

  // ---------------------------------------------------------------- meaning

  predicate Subdomains(entry: string) {
    entry != "*" && "*." <= entry
  }

  predicate ValidEntry(env: Env, entry: string) {
    entry != "" && (Subdomains(entry) ==> env.normalize(entry[2..]) != "")
  }

  predicate ValidScope(env: Env, scope: seq<string>) {
    scope != [] && forall i | 0 <= i < |scope| :: ValidEntry(env, scope[i])
  }

  predicate CoversHost(env: Env, entry: string, host: string) {
    if entry == "*" then true
    else if Subdomains(entry) then
      host == env.normalize(entry[2..]) || EndsWith(host, "." + env.normalize(entry[2..]))
    else host == env.normalize(entry)
  }

  predicate InScope(env: Env, scope: seq<string>, host: string) {
    exists i | 0 <= i < |scope| :: CoversHost(env, scope[i], host)
  }

  predicate Countable(field: string) {
    FieldKind(field) in {Some(KindString), Some(KindAddr)}
  }

  predicate ValidAction(env: Env, r: Rule) {
    match r.action.kind
    case "allow" => true
    case "block" => r.action.status == 0 || 100 <= r.action.status <= 599
    case "ratelimit" =>
      && 0 < r.action.limit <= MAX_LIMIT
      && r.action.window != "" && env.duration(r.action.window).Some? && env.duration(r.action.window).value > 0
      && Countable(r.LimiterKey())
    case _ => false
  }

  predicate ValidId(id: string) {
    id != "" && forall i | 0 <= i < |id| :: id[i] !in {' ', '\t', '\n'}
  }

  predicate ValidRule(env: Env, r: Rule) {
    && ValidId(r.id)
    && r.mode in {SHADOW, ACTIVE}
    && ValidScope(env, r.scope)
    && WellFormed(env.parse, r.condition)
    && ValidAction(env, r)
  }

  predicate Fires(env: Env, rule: Rule, r: Request)
    requires ValidRule(env, rule)
  {
    InScope(env, rule.scope, r.host) && Holds(env.parse, rule.condition, r)
  }

  function WindowOf(env: Env, rule: Rule): int
    requires ValidRule(env, rule)
  {
    if rule.action.kind == "ratelimit" then env.duration(rule.action.window).value else 0
  }

  /** The compiled rule does what the rule says. */
  ghost predicate Faithful(env: Env, rule: Rule, c: Compiled) {
    && ValidRule(env, rule)
    && c.rule == rule
    && Means(env.parse, rule.condition, c.matches)
    && (forall host :: c.inScope(host) == InScope(env, rule.scope, host))
    && c.window == WindowOf(env, rule)
    && c.hash == env.digest(rule.condition, rule.action)
  }

  // ---------------------------------------------------------------- compilation

  /** Turns a list of domains into a predicate: exact names in a set, the others as suffixes. */
  method CompileScope(env: Env, scope: seq<string>) returns (p: Result<string -> bool, Fault>)
    ensures p.Ok? <==> ValidScope(env, scope)
    ensures p.Ok? ==> forall host :: p.value(host) == InScope(env, scope, host)
  {
    if |scope| == 0 {
      return Err(NoScope);
    }
    var everywhere, exact, suffixes := false, {}, [];
    for i := 0 to |scope|
      invariant forall k | 0 <= k < i :: ValidEntry(env, scope[k])
      invariant forall host :: Lists(everywhere, exact, suffixes, host) == InScope(env, scope[..i], host)
    {
      var entry := scope[i];
      ghost var was := (everywhere, exact, suffixes);
      if entry == "*" {
        everywhere := true;
      } else if "*." <= entry {
        var tail := env.normalize(entry[2..]);
        if tail == "" {
          return Err(EmptyDomain);
        }
        exact := exact + {tail};
        suffixes := suffixes + ["." + tail];
      } else if entry == "" {
        return Err(EmptyDomain);
      } else {
        exact := exact + {env.normalize(entry)};
      }
      forall host
        ensures Lists(everywhere, exact, suffixes, host) == InScope(env, scope[..i + 1], host)
      {
        assert Lists(was.0, was.1, was.2, host) == InScope(env, scope[..i], host);
        if suffixes != was.2 {
          SuffixNext(was.2, "." + env.normalize(entry[2..]), host);
        }
      }
    }
    assert scope[..|scope|] == scope;
    if everywhere {
      return Ok(_ => true);
    }
    var names, tails := exact, suffixes;
    return Ok(host => host in names || EndsWithOne(tails, host));
  }

  predicate EndsWithOne(tails: seq<string>, host: string) {
    exists i | 0 <= i < |tails| :: EndsWith(host, tails[i])
  }

  predicate Lists(everywhere: bool, exact: set<string>, suffixes: seq<string>, host: string) {
    everywhere || host in exact || EndsWithOne(suffixes, host)
  }

  lemma SuffixNext(tails: seq<string>, tail: string, host: string)
    ensures EndsWithOne(tails + [tail], host) == (EndsWithOne(tails, host) || EndsWith(host, tail))
  {
    var more := tails + [tail];
    assert more[|tails|] == tail;
    if EndsWithOne(tails, host) {
      var k :| 0 <= k < |tails| && EndsWith(host, tails[k]);
      assert more[k] == tails[k];
    }
  }

  /** Validates the rule as a whole. */
  method Compile(env: Env, r: Rule) returns (c: Result<Compiled, Fault>)
    ensures c.Ok? <==> ValidRule(env, r)
    ensures c.Ok? ==> Faithful(env, r, c.value)
  {
    if r.id == "" {
      return Err(NoId);
    }
    if ' ' in r.id || '\t' in r.id || '\n' in r.id {
      return Err(SpaceInId);
    }
    if r.mode != SHADOW && r.mode != ACTIVE {
      return Err(if r.mode == "" then NoMode else UnknownMode);
    }
    var inScope := CompileScope(env, r.scope);
    if inScope.Err? {
      return Err(inScope.error);
    }
    var matches := Condition.Compile(env.parse, r.condition, []);
    if matches.Err? {
      return Err(BadCondition(matches.error));
    }
    var action := CompileAction(env, r);
    if action.Err? {
      return Err(action.error);
    }
    return Ok(Compiled(r, matches.value, inScope.value, action.value, env.digest(r.condition, r.action)));
  }

  method CompileAction(env: Env, r: Rule) returns (window: Result<int, Fault>)
    ensures window.Ok? <==> ValidAction(env, r)
    ensures window.Ok? ==>
              window.value == if r.action.kind == "ratelimit" then env.duration(r.action.window).value else 0
  {
    var a := r.action;
    match a.kind {
      case "allow" => return Ok(0);
      case "block" =>
        if a.status != 0 && (a.status < 100 || a.status > 599) {
          return Err(BadStatus);
        }
        return Ok(0);
      case "ratelimit" =>
        if a.limit <= 0 {
          return Err(NoLimit);
        }
        if a.limit > MAX_LIMIT {
          return Err(LimitTooHigh);
        }
        if a.window == "" {
          return Err(NoWindow);
        }
        var d := env.duration(a.window);
        if d.None? || d.value <= 0 {
          return Err(BadWindow);
        }
        var key := r.LimiterKey();
        if key != "ip" && !Countable(key) {
          return Err(BadKey);
        }
        return Ok(d.value);
      case "" => return Err(NoAction);
      case _ => return Err(UnknownAction);
    }
  }

  // ---------------------------------------------------------------- scopes

  /** An entry reaches a host: a star reaches all; a star, a dot and a name the name and
      whatever ends with a dot and the name; a name itself alone. */
  ghost predicate Reaches(env: Env, entry: string, host: string) {
    || entry == "*"
    || (exists name :: entry == "*." + name
                       && (host == env.normalize(name) || exists sub :: host == sub + "." + env.normalize(name)))
    || (entry != "*" && (forall name :: entry != "*." + name) && host == env.normalize(entry))
  }

  lemma EntryReaches(env: Env, entry: string, host: string)
    ensures CoversHost(env, entry, host) <==> Reaches(env, entry, host)
  {
    if entry != "*" && "*." <= entry {
      var tail := env.normalize(entry[2..]);
      assert entry == "*." + entry[2..];
      forall name | entry == "*." + name
        ensures name == entry[2..]
      {
        assert entry[2..] == name;
      }
      SuffixParts(host, "." + tail);
      if a :| host == a + ("." + tail) {
        assert host == a + "." + tail;
      }
      if sub :| host == sub + "." + tail {
        assert host == sub + ("." + tail);
      }
    } else if entry != "*" {
      PrefixParts(entry, "*.");
    }
  }

  /** A rule comes under a host just when one of its entries reaches it. */
  lemma ScopeReads(env: Env, scope: seq<string>, host: string)
    ensures InScope(env, scope, host) <==> exists i | 0 <= i < |scope| :: Reaches(env, scope[i], host)
  {
    forall i | 0 <= i < |scope|
      ensures CoversHost(env, scope[i], host) <==> Reaches(env, scope[i], host)
    {
      EntryReaches(env, scope[i], host);
    }
  }
}
