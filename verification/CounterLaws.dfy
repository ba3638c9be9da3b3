/** What the counters of a row count, and what its key shows of a request. */
module CounterLaws {
  import opened Sequences
  import opened Counters
  import opened Facts

  // ---------------------------------------------------------------- what the key shows

  /** No more of it than the first n characters. */
  ghost predicate Beginning(shown: string, whole: string, n: nat) {
    shown <= whole && |shown| <= n && (|whole| <= n ==> shown == whole)
  }

  /** A name of at most 253 lower-case letters, digits, hyphens, dots and underscores. */
  ghost predicate LooksLikeName(host: string) {
    1 <= |host| <= 253 && forall i | 0 <= i < |host| ::
      'a' <= host[i] <= 'z' || '0' <= host[i] <= '9' || host[i] == '-' || host[i] == '.' || host[i] == '_'
  }

  ghost predicate LooksLikeHash(s: string) {
    |s| == 16 && forall i | 0 <= i < |s| :: '0' <= s[i] <= '9' || 'a' <= s[i] <= 'f'
  }

  /** What leaves the node of a request: its host if the node serves it and it is a name, the
      beginnings of three fingerprints, and the rule if it is a digest or one of two words. */
  lemma KeyShows(env: Env, r: Request)
    ensures var k := KeyOf(env, r);
            && k.domain == (if LooksLikeName(r.host) && !env.isAddress(r.host) && env.served(r.host) then r.host
                            else "")
            && Beginning(k.ja4, r.ja4, 128) && Beginning(k.h2, r.h2, 256) && Beginning(k.headers, r.headersHash, 64)
            && k.rule == (if r.ruleHash in {"own network", "verified crawler"} || LooksLikeHash(r.ruleHash)
                          then r.ruleHash else "")
            && k.uaFamily == env.uaFamily(r.ua) && k.uaMatchesJA4 == r.uaMatchesJA4
            && k.net == env.prefixOf(r.ip) && k.shadow == env.ruleIDs(r.shadowHashes)
  {
  }

  // ---------------------------------------------------------------- what is counted

  ghost predicate Hit(events: seq<Request>, pass: Request -> bool, i: int) {
    0 <= i < |events| && pass(events[i])
  }

  /** How many of the events are such. */
  ghost function HowMany(events: seq<Request>, pass: Request -> bool): nat {
    |Places(|events|, i => Hit(events, pass, i))|
  }

  lemma HowManyNext(events: seq<Request>, pass: Request -> bool)
    requires events != []
    ensures var n := |events| - 1;
            HowMany(events, pass) == HowMany(events[..n], pass) + if pass(events[n]) then 1 else 0
  {
    var n := |events| - 1;
    PlacesNext(n, i => Hit(events, pass, i));
    PlacesAlike(n, i => Hit(events, pass, i), i => Hit(events[..n], pass, i));
  }

  lemma NoneAtAll(pass: Request -> bool)
    ensures HowMany([], pass) == 0
  {
    assert Places(0, i => Hit([], pass, i)) == {};
  }

  /** The numbers of a row: all events, those with a cookie, those blocked, limited and marked. */
  lemma {:induction false} NumbersExact(env: Env, events: seq<Request>)
    ensures var c := Tally(env, events);
            && c.requests == |events|
            && c.withCookie == HowMany(events, (r: Request) => r.cookie)
            && c.blocked == HowMany(events, (r: Request) => r.decision == "block")
            && c.limited == HowMany(events, (r: Request) => r.decision == "ratelimit")
            && c.shadowed == HowMany(events, (r: Request) => r.shadow != [])
  {
    if events == [] {
      NoneAtAll((r: Request) => r.cookie);
      NoneAtAll((r: Request) => r.decision == "block");
      NoneAtAll((r: Request) => r.decision == "ratelimit");
      NoneAtAll((r: Request) => r.shadow != []);
    } else {
      NumbersExact(env, events[..|events| - 1]);
      HowManyNext(events, (r: Request) => r.cookie);
      HowManyNext(events, (r: Request) => r.decision == "block");
      HowManyNext(events, (r: Request) => r.decision == "ratelimit");
      HowManyNext(events, (r: Request) => r.shadow != []);
    }
  }

  /** The statuses of the hundred that starts with this digit. */
  predicate OfClass(digit: nat, r: Request) {
    100 * digit <= r.status < 100 * (digit + 1)
  }

  const DIGITS := ["0", "1", "2", "3", "4", "5"]

  lemma ClassIs(status: int, digit: nat)
    requires 1 <= digit <= 5
    ensures StatusClass(status) == DIGITS[digit] + "xx" <==> 100 * digit <= status < 100 * (digit + 1)
    ensures StatusClass(status) == "" <==> status < 100 || status >= 600
  {
    if 100 <= status <= 599 {
      assert StatusClass(status)[0] == "012345"[status / 100];
      assert (DIGITS[digit] + "xx")[0] == "012345"[digit];
    }
  }

  /** The counters of statuses: by the first digit, and none for a status that is no status. */
  lemma {:induction false} StatusExact(env: Env, events: seq<Request>, digit: nat)
    requires 1 <= digit <= 5
    ensures Tally(env, events).status[DIGITS[digit] + "xx"] == HowMany(events, (r: Request) => OfClass(digit, r))
    ensures |Tally(env, events).status| == HowMany(events, (r: Request) => 100 <= r.status < 600)
  {
    if events == [] {
      NoneAtAll((r: Request) => OfClass(digit, r));
      NoneAtAll((r: Request) => 100 <= r.status < 600);
    } else {
      StatusExact(env, events[..|events| - 1], digit);
      HowManyNext(events, (r: Request) => OfClass(digit, r));
      HowManyNext(events, (r: Request) => 100 <= r.status < 600);
      ClassIs(events[|events| - 1].status, digit);
    }
  }

  /** The counters of methods: by name for the nine known ones, all others together. */
  lemma {:induction false} MethodsExact(env: Env, events: seq<Request>, name: string)
    requires name in KNOWN
    ensures Tally(env, events).methods[name] == HowMany(events, (r: Request) => r.verb == name)
    ensures Tally(env, events).methods["OTHER"] == HowMany(events, (r: Request) => r.verb !in KNOWN)
    ensures |Tally(env, events).methods| == |events|
  {
    if events == [] {
      NoneAtAll((r: Request) => r.verb == name);
      NoneAtAll((r: Request) => r.verb !in KNOWN);
    } else {
      var r := events[|events| - 1];
      MethodsExact(env, events[..|events| - 1], name);
      HowManyNext(events, (r: Request) => r.verb == name);
      HowManyNext(events, (r: Request) => r.verb !in KNOWN);
      MethodIs(r.verb, name);
    }
  }

  const KNOWN := {"GET", "HEAD", "POST", "PUT", "DELETE", "PATCH", "OPTIONS", "CONNECT", "TRACE"}

  lemma MethodIs(verb: string, name: string)
    requires name in KNOWN
    ensures MethodOf(verb) == name <==> verb == name
    ensures MethodOf(verb) == "OTHER" <==> verb !in KNOWN
  {
    assert KNOWN == METHODS && "OTHER" !in KNOWN;
  }

  /** The bytes sent, negative numbers left out. */
  function Sent(events: seq<Request>): nat {
    if events == [] then 0
    else Sent(events[..|events| - 1]) + if events[|events| - 1].bytes > 0 then events[|events| - 1].bytes else 0
  }

  /** The hash belongs to one of the paths, or to one of the addresses. */
  ghost predicate Seen(env: Env, events: seq<Request>, of: Request -> string, h: int) {
    exists i | 0 <= i < |events| :: of(events[i]) != "" && env.hash(of(events[i])) == h
  }

  lemma SeenNext(env: Env, events: seq<Request>, of: Request -> string, h: int)
    requires events != []
    ensures var n := |events| - 1;
            Seen(env, events, of, h)
            <==> Seen(env, events[..n], of, h) || (of(events[n]) != "" && env.hash(of(events[n])) == h)
  {
    var n := |events| - 1;
    assert forall i | 0 <= i < n :: events[..n][i] == events[i];
  }

  /** The distinct paths and addresses, by their hashes, and the bytes sent. */
  lemma {:induction false} DistinctExact(env: Env, events: seq<Request>, h: int)
    ensures var c := Tally(env, events);
            && (h in c.paths <==> Seen(env, events, (r: Request) => r.path, h))
            && (h in c.addrs <==> Seen(env, events, (r: Request) => r.ip, h))
            && c.bytesOut == Sent(events)
  {
    if events != [] {
      DistinctExact(env, events[..|events| - 1], h);
      SeenNext(env, events, (r: Request) => r.path, h);
      SeenNext(env, events, (r: Request) => r.ip, h);
    }
  }
}
