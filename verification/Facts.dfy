/** The signals of one request, as internal/facts/facts.go collects them. */
module Facts {
  import opened Wrappers

  /** Times and durations are whole nanoseconds. */
  datatype Request = Request(
    time: int, ip: string, host: string, verb: string, path: string, proto: string,
    ua: string, referer: string, ja3: string, ja3Hash: string, ja4: string, sni: string,
    alpn: string, tls: string, grease: bool, h2: string, headers: string, headersHash: string,
    cookie: bool, family: string, uaMatchesJA4: bool, netClass: string, netOwner: string,
    netCountry: string, netProtected: bool, netAge: int,
    decision: string, rule: string, ruleHash: string,
    shadow: seq<string>, shadowHashes: seq<string>,
    status: int, bytes: int, duration: int)

  const PASS := "pass"
  const ALLOW := "allow"
  const BLOCK := "block"
  const RATELIMIT := "ratelimit"

  datatype Kind = KindString | KindBool | KindNumber | KindAddr

  datatype Value = Text(s: string) | Flag(b: bool) | Number(n: int)

  /** A field by name, the way a rule condition sees it. */
  function ValueOf(r: Request, field: string): Option<Value> {
    match field
    case "ip" => Some(Text(r.ip))
    case "host" => Some(Text(r.host))
    case "method" => Some(Text(r.verb))
    case "path" => Some(Text(r.path))
    case "proto" => Some(Text(r.proto))
    case "ua" => Some(Text(r.ua))
    case "referer" => Some(Text(r.referer))
    case "ja3" => Some(Text(r.ja3))
    case "ja3_hash" => Some(Text(r.ja3Hash))
    case "ja4" => Some(Text(r.ja4))
    case "sni" => Some(Text(r.sni))
    case "alpn" => Some(Text(r.alpn))
    case "tls" => Some(Text(r.tls))
    case "grease" => Some(Flag(r.grease))
    case "h2" => Some(Text(r.h2))
    case "headers" => Some(Text(r.headers))
    case "headers_hash" => Some(Text(r.headersHash))
    case "cookie" => Some(Flag(r.cookie))
    case "family" => Some(Text(r.family))
    case "ua_matches_ja4" => Some(Flag(r.uaMatchesJA4))
    case "network.class" => Some(Text(r.netClass))
    case "network.owner" => Some(Text(r.netOwner))
    case "network.country" => Some(Text(r.netCountry))
    case "network.protected" => Some(Flag(r.netProtected))
    case "network.age" => Some(Number(r.netAge))
    case _ => None
  }

  const KINDS: map<string, Kind> := map[
    "ip" := KindAddr, "host" := KindString, "method" := KindString, "path" := KindString, "proto" := KindString,
    "ua" := KindString, "referer" := KindString, "ja3" := KindString, "ja3_hash" := KindString,
    "ja4" := KindString, "sni" := KindString, "alpn" := KindString, "tls" := KindString, "grease" := KindBool,
    "h2" := KindString, "headers" := KindString, "headers_hash" := KindString, "cookie" := KindBool,
    "family" := KindString, "ua_matches_ja4" := KindBool, "network.class" := KindString,
    "network.owner" := KindString, "network.country" := KindString, "network.protected" := KindBool,
    "network.age" := KindNumber]

  function FieldKind(field: string): Option<Kind> {
    if field in KINDS then Some(KINDS[field]) else None
  }

  // ---------------------------------------------------------------- each field is its own

  /** Every field reads the component that bears its name, so that no two share one: those of
      the request itself, */
  lemma RequestFields(r: Request)
    ensures ValueOf(r, "ip") == Some(Text(r.ip))
    ensures ValueOf(r, "host") == Some(Text(r.host))
    ensures ValueOf(r, "method") == Some(Text(r.verb))
    ensures ValueOf(r, "path") == Some(Text(r.path))
    ensures ValueOf(r, "proto") == Some(Text(r.proto))
    ensures ValueOf(r, "ua") == Some(Text(r.ua))
    ensures ValueOf(r, "referer") == Some(Text(r.referer))
  {
  }

  /** those of the TLS handshake, */
  lemma HandshakeFields(r: Request)
    ensures ValueOf(r, "ja3") == Some(Text(r.ja3))
    ensures ValueOf(r, "ja3_hash") == Some(Text(r.ja3Hash))
    ensures ValueOf(r, "ja4") == Some(Text(r.ja4))
    ensures ValueOf(r, "sni") == Some(Text(r.sni))
    ensures ValueOf(r, "alpn") == Some(Text(r.alpn))
    ensures ValueOf(r, "tls") == Some(Text(r.tls))
    ensures ValueOf(r, "grease") == Some(Flag(r.grease))
  {
  }

  /** those of the frames, the headers and the family, */
  lemma FrameFields(r: Request)
    ensures ValueOf(r, "h2") == Some(Text(r.h2))
    ensures ValueOf(r, "headers") == Some(Text(r.headers))
    ensures ValueOf(r, "headers_hash") == Some(Text(r.headersHash))
    ensures ValueOf(r, "cookie") == Some(Flag(r.cookie))
    ensures ValueOf(r, "family") == Some(Text(r.family))
    ensures ValueOf(r, "ua_matches_ja4") == Some(Flag(r.uaMatchesJA4))
  {
  }

  /** and those of the network. */
  lemma NetworkFields(r: Request)
    ensures ValueOf(r, "network.class") == Some(Text(r.netClass))
    ensures ValueOf(r, "network.owner") == Some(Text(r.netOwner))
    ensures ValueOf(r, "network.country") == Some(Text(r.netCountry))
    ensures ValueOf(r, "network.protected") == Some(Flag(r.netProtected))
    ensures ValueOf(r, "network.age") == Some(Number(r.netAge))
  {
  }
}
