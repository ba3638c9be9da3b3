/** What a request is counted under and what is counted: the key and the counters of
    internal/aggregate/window.go. */
module Counters {
  import opened Ordering
  import opened Sums
  import Facts

  const WINDOW_LENGTH := 5 * 60 * 1_000_000_000
  const REST := "~rest"
  const OWN_NETWORK := "own network"
  const VERIFIED_CRAWLER := "verified crawler"
  const HASH_LEN := 16

  datatype Key = Key(
    domain: string, ja4: string, h2: string, headers: string, uaFamily: string,
    uaMatchesJA4: bool, net: string, rule: string, shadow: string)

  const REST_KEY := Key(REST, REST, REST, REST, REST, true, REST, REST, REST)

  predicate KeyLess(k: Key, o: Key) {
    if k.domain != o.domain then StringLess(k.domain, o.domain)
    else if k.ja4 != o.ja4 then StringLess(k.ja4, o.ja4)
    else if k.h2 != o.h2 then StringLess(k.h2, o.h2)
    else if k.headers != o.headers then StringLess(k.headers, o.headers)
    else if k.uaFamily != o.uaFamily then StringLess(k.uaFamily, o.uaFamily)
    else if k.uaMatchesJA4 != o.uaMatchesJA4 then !k.uaMatchesJA4
    else if k.net != o.net then StringLess(k.net, o.net)
    else if k.rule != o.rule then StringLess(k.rule, o.rule)
    else StringLess(k.shadow, o.shadow)
  }

  /** What the node is configured with and what is not part of this model: address
      parsing, the prefix of an address, the browser family, the served domains, the
      hash of a path or an address, and the joined list of shadow hashes. */
  datatype Env = Env(
    isAddress: string -> bool, served: string -> bool, uaFamily: string -> string,
    prefixOf: string -> string, hash: string -> int, ruleIDs: seq<string> -> string)

  function DomainOf(env: Env, host: string): (d: string)
    ensures d == "" || d == host
    ensures d != REST
  {
    if host == "" || |host| > 253 then ""
    else if env.isAddress(host) then ""
    else if exists i | 0 <= i < |host| :: !DomainChar(host[i]) then ""
    else if !env.served(host) then ""
    else
      assert DomainChar(host[0]);
      host
  }

  predicate DomainChar(c: char) {
    'a' <= c <= 'z' || '0' <= c <= '9' || c == '-' || c == '.' || c == '_'
  }

  function Clip(s: string, n: nat): string {
    if |s| > n then s[..n] else s
  }

  predicate IsRuleHash(s: string) {
    |s| == HASH_LEN && forall i | 0 <= i < |s| :: '0' <= s[i] <= '9' || 'a' <= s[i] <= 'f'
  }

  function RuleName(s: string): string {
    if s == OWN_NETWORK || s == VERIFIED_CRAWLER || IsRuleHash(s) then s else ""
  }

  /** The key of a request is never the key of the folded row. */
  function KeyOf(env: Env, r: Facts.Request): (k: Key)
    ensures k != REST_KEY
  {
    Key(DomainOf(env, r.host), Clip(r.ja4, 128), Clip(r.h2, 256), Clip(r.headersHash, 64),
        env.uaFamily(r.ua), r.uaMatchesJA4, env.prefixOf(r.ip), RuleName(r.ruleHash), env.ruleIDs(r.shadowHashes))
  }

  // ---------------------------------------------------------------- counters

  /** A counter map is a multiset of its keys; a sketch is the set of hashes it was fed. */
  datatype Counts = Counts(
    requests: nat, withCookie: nat, blocked: nat, shadowed: nat, limited: nat,
    status: multiset<string>, methods: multiset<string>, bytesOut: nat,
    paths: set<int>, addrs: set<int>)
  {
    function Add(env: Env, r: Facts.Request): Counts {
      Counts(
        requests + 1,
        if r.cookie then withCookie + 1 else withCookie,
        if r.decision == Facts.BLOCK then blocked + 1 else blocked,
        if |r.shadow| > 0 then shadowed + 1 else shadowed,
        if r.decision == Facts.RATELIMIT then limited + 1 else limited,
        if StatusClass(r.status) != "" then status + multiset{StatusClass(r.status)} else status,
        methods + multiset{MethodOf(r.verb)},
        if r.bytes > 0 then bytesOut + r.bytes else bytesOut,
        if r.path != "" then paths + {env.hash(r.path)} else paths,
        if r.ip != "" then addrs + {env.hash(r.ip)} else addrs)
    }

    function Merge(o: Counts): Counts {
      Counts(requests + o.requests, withCookie + o.withCookie, blocked + o.blocked,
             shadowed + o.shadowed, limited + o.limited, status + o.status, methods + o.methods,
             bytesOut + o.bytesOut, paths + o.paths, addrs + o.addrs)
    }
  }

  const ZERO := Counts(0, 0, 0, 0, 0, multiset{}, multiset{}, 0, {}, {})

  const METHODS := {"GET", "HEAD", "POST", "PUT", "DELETE", "PATCH", "OPTIONS", "CONNECT", "TRACE"}

  function MethodOf(m: string): string {
    if m in METHODS then m else "OTHER"
  }

  function StatusClass(status: int): string {
    if status < 100 || status > 599 then "" else ["012345"[status / 100]] + "xx"
  }

  /** What one event adds to whatever row it lands in. */
  function One(env: Env, r: Facts.Request): Counts {
    ZERO.Add(env, r)
  }

  /** The count of a list of events, rows left aside. */
  function Tally(env: Env, events: seq<Facts.Request>): Counts {
    if events == [] then ZERO else Tally(env, events[..|events| - 1]).Add(env, events[|events| - 1])
  }

  lemma AddIsMerge(env: Env, c: Counts, r: Facts.Request)
    ensures c.Add(env, r) == c.Merge(One(env, r))
  {
    assert c.paths + {} == c.paths && c.addrs + {} == c.addrs;
    assert c.status + multiset{} == c.status;
  }

  const MERGE: Monoid<Counts> := Monoid((a: Counts, b: Counts) => a.Merge(b), ZERO)

  /** Merging rows is adding them up: the order and the grouping do not matter. */
  lemma MergeLawful()
    ensures Lawful(MERGE)
  {
  }

  // ---------------------------------------------------------------- the order of rows

  lemma KeyLessTrichotomy(a: Key, b: Key)
    ensures !KeyLess(a, a)
    ensures a != b ==> KeyLess(a, b) != KeyLess(b, a)
  {
    StringLessTrichotomy(a.domain, b.domain);
    StringLessTrichotomy(a.ja4, b.ja4);
    StringLessTrichotomy(a.h2, b.h2);
    StringLessTrichotomy(a.headers, b.headers);
    StringLessTrichotomy(a.uaFamily, b.uaFamily);
    StringLessTrichotomy(a.net, b.net);
    StringLessTrichotomy(a.rule, b.rule);
    StringLessTrichotomy(a.shadow, b.shadow);
  }

  lemma StringChain(a: string, b: string, c: string)
    ensures a != b && b != c && StringLess(a, b) && StringLess(b, c) ==> a != c && StringLess(a, c)
  {
    if StringLess(a, b) && StringLess(b, c) {
      StringLessTransitive(a, b, c);
      StringLessTrichotomy(a, b);
    }
  }

  lemma KeyLessTransitive(a: Key, b: Key, c: Key)
    requires KeyLess(a, b) && KeyLess(b, c)
    ensures KeyLess(a, c)
  {
    StringChain(a.domain, b.domain, c.domain);
    StringChain(a.ja4, b.ja4, c.ja4);
    StringChain(a.h2, b.h2, c.h2);
    StringChain(a.headers, b.headers, c.headers);
    StringChain(a.uaFamily, b.uaFamily, c.uaFamily);
    StringChain(a.net, b.net, c.net);
    StringChain(a.rule, b.rule, c.rule);
    if a.shadow != b.shadow && b.shadow != c.shadow {
      StringChain(a.shadow, b.shadow, c.shadow);
    }
    StringLessTrichotomy(a.shadow, b.shadow);
    StringLessTrichotomy(b.shadow, c.shadow);
  }

}
