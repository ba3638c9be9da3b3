/** The fact set of internal/catalog/catalog.go: networks laid out by prefix length in
    maps, and the longest-prefix lookup over them. */
module Catalog {
  import opened Wrappers
  import opened Ordering
  import opened Sequences
  import opened Keys
  import opened Net
  import opened Condition
  import opened Facts

  const FORMAT_VERSION := 1
  const FAMILY_UNKNOWN := "unknown"
  const FAMILY_BOT := "bot"

  datatype Network = Network(prefix: string, owner: string, country: string, kind: string, isProtected: bool,
                             confidence: string, source: string, verifiedAt: string, since: int)

  datatype Fingerprint = Fingerprint(kind: string, value: string, family: string, confidence: string,
                                     source: string, verifiedAt: string, since: int)

  /** A record as it lies in the document: one that is not of its type is unreadable. */
  datatype Record<T> = Unreadable | Readable(row: T)

  datatype Envelope = Envelope(format: int, version: int, networks: seq<Record<Network>>,
                               fingerprints: seq<Record<Fingerprint>>)

  /** A document: one that does not decode strictly is garbled. */
  datatype Raw = Garbled | Decoded(envelope: Envelope)

  type Buckets = map<nat, map<Addr, Network>>

  /** A parsed set, ready for lookups. */
  datatype FactSet = FactSet(version: int, v4: Buckets, v6: Buckets, v4bits: seq<nat>, v6bits: seq<nat>,
                             prints: map<string, Fingerprint>, networks: nat, protectedRows: nat)

  datatype Fault =
    | NotAnEnvelope | WrongFormat | WrongVersion | BadNetwork(i: nat) | NotAPrefix(i: nat) | BadPrint(i: nat)

  // ---------------------------------------------------------------- meaning

  predicate CompleteNetwork(n: Network) {
    n.prefix != "" && n.kind != "" && n.confidence != "" && n.source != "" && n.verifiedAt != "" && n.since >= 1
  }

  predicate CompletePrint(f: Fingerprint) {
    f.kind in {"ja4", "h2", "headers"} && f.value != "" && f.family != "" && f.confidence != ""
    && f.source != "" && f.verifiedAt != "" && f.since >= 1
  }

  predicate ValidNetwork(parse: Parsers, record: Record<Network>) {
    record.Readable? && CompleteNetwork(record.row) && parse.prefix(record.row.prefix).Some?
  }

  predicate ValidPrint(record: Record<Fingerprint>) {
    record.Readable? && CompletePrint(record.row)
  }

  predicate ValidEnvelope(parse: Parsers, e: Envelope) {
    && e.format == FORMAT_VERSION && e.version >= 1
    && (forall i | 0 <= i < |e.networks| :: ValidNetwork(parse, e.networks[i]))
    && (forall i | 0 <= i < |e.fingerprints| :: ValidPrint(e.fingerprints[i]))
  }

  predicate ValidRaw(parse: Parsers, raw: Raw) {
    raw.Decoded? && ValidEnvelope(parse, raw.envelope)
  }

  /** A row of the base: a network and what is said about it. */
  datatype Row = Row(prefix: Prefix, network: Network)

  ghost predicate AllMasked(rows: seq<Row>) {
    forall i | 0 <= i < |rows| :: Masked(rows[i].prefix) == rows[i].prefix
  }

  function Rows(parse: Parsers, records: seq<Record<Network>>): (rows: seq<Row>)
    requires forall i | 0 <= i < |records| :: ValidNetwork(parse, records[i])
    ensures |rows| == |records|
    ensures AllMasked(rows)
  {
    if records == [] then []
    else
      var n := |records| - 1;
      assert ValidNetwork(parse, records[n]);
      var p := parse.prefix(records[n].row.prefix).value;
      Rows(parse, records[..n]) + [Row(Masked(p), records[n].row)]
  }

  /** The plain scan: the longest prefix that covers the address, the last of equal ones. */
  function Scan(rows: seq<Row>, a: Addr): Option<Row> {
    if rows == [] then None
    else
      var best, row := Scan(rows[..|rows| - 1], a), rows[|rows| - 1];
      if Covers(row.prefix, a) && (best.None? || best.value.prefix.length <= row.prefix.length) then Some(row) else best
  }

  /** The last row with exactly this prefix. */
  function LastOf(rows: seq<Row>, p: Prefix): Option<Network> {
    if rows == [] then None
    else if rows[|rows| - 1].prefix == p then Some(rows[|rows| - 1].network)
    else LastOf(rows[..|rows| - 1], p)
  }

  function LastPrint(prints: seq<Record<Fingerprint>>, kind: string, value: string): Option<Fingerprint> {
    if prints == [] then None
    else
      var last := prints[|prints| - 1];
      if last.Readable? && last.row.kind == kind && last.row.value == value then Some(last.row)
      else LastPrint(prints[..|prints| - 1], kind, value)
  }

  function CountProtected(rows: seq<Row>): nat {
    if rows == [] then 0
    else CountProtected(rows[..|rows| - 1]) + if rows[|rows| - 1].network.isProtected then 1 else 0
  }

  // ---------------------------------------------------------------- the index

  function Get(buckets: Buckets, p: Prefix): Option<Network> {
    if p.length in buckets && p.addr in buckets[p.length] then Some(buckets[p.length][p.addr]) else None
  }

  function Put(buckets: Buckets, p: Prefix, n: Network): Buckets {
    var bucket := if p.length in buckets then buckets[p.length] else map[];
    buckets[p.length := bucket[p.addr := n]]
  }

  /** The buckets hold, for every prefix of their family, its last row. */
  ghost predicate Filed(rows: seq<Row>, v4: Buckets, v6: Buckets) {
    forall p: Prefix :: Get(if Is4(p.addr) then v4 else v6, p) == LastOf(rows, p)
  }

  lemma FileNext(rows: seq<Row>, row: Row, v4: Buckets, v6: Buckets)
    requires Filed(rows, v4, v6)
    ensures if Is4(row.prefix.addr) then Filed(rows + [row], Put(v4, row.prefix, row.network), v6)
            else Filed(rows + [row], v4, Put(v6, row.prefix, row.network))
  {
    PushInit(rows, row);
    forall p: Prefix
      ensures Get(Put(if Is4(p.addr) then v4 else v6, row.prefix, row.network), p)
              == if p == row.prefix then Some(row.network) else LastOf(rows, p)
      ensures LastOf(rows + [row], p) == if p == row.prefix then Some(row.network) else LastOf(rows, p)
    {
    }
  }

  /** The lengths of the buckets, longest first. */
  ghost predicate Descends(lengths: seq<nat>, buckets: Buckets) {
    && (forall k :: k in lengths <==> k in buckets)
    && forall i, j | 0 <= i < j < |lengths| :: lengths[i] > lengths[j]
  }

  method LengthsDescending(buckets: Buckets) returns (lengths: seq<nat>)
    ensures Descends(lengths, buckets)
  {
    var listed := Collect(buckets.Keys);
    var longer := (a: nat, b: nat) => a > b;
    lengths := Sort(longer, listed);
    SortAscending(longer, listed, buckets.Keys);
    SameMembers(listed, lengths);
    assert forall k :: k in lengths <==> k in Members(lengths);
    ListingDistinct(lengths, buckets.Keys);
  }

  /** The set means these rows and these fingerprints. */
  ghost predicate Indexes(s: FactSet, rows: seq<Row>, prints: seq<Record<Fingerprint>>) {
    && Filed(rows, s.v4, s.v6)
    && Descends(s.v4bits, s.v4) && Descends(s.v6bits, s.v6)
    && FiledPrints(prints, s.prints)
    && s.networks == |rows| && s.protectedRows == CountProtected(rows)
  }

  ghost predicate FiledPrints(prints: seq<Record<Fingerprint>>, m: map<string, Fingerprint>) {
    forall kind, value | NoNul(kind) ::
      LastPrint(prints, kind, value) == if Joined(kind, value) in m then Some(m[Joined(kind, value)]) else None
  }

  lemma FilePrint(prints: seq<Record<Fingerprint>>, m: map<string, Fingerprint>, f: Fingerprint)
    requires FiledPrints(prints, m) && NoNul(f.kind)
    ensures FiledPrints(prints + [Readable(f)], m[Joined(f.kind, f.value) := f])
  {
    PushInit(prints, Readable(f));
    forall kind, value | NoNul(kind)
      ensures Joined(kind, value) == Joined(f.kind, f.value) ==> kind == f.kind && value == f.value
    {
      if Joined(kind, value) == Joined(f.kind, f.value) {
        Apart(kind, value, f.kind, f.value);
      }
    }
  }

  /** The networks laid out so far. */
  datatype Layout = Layout(v4: Buckets, v6: Buckets, protectedRows: nat)

  method IndexNetworks(parse: Parsers, records: seq<Record<Network>>) returns (l: Result<Layout, Fault>)
    ensures l.Ok? <==> forall i | 0 <= i < |records| :: ValidNetwork(parse, records[i])
    ensures l.Ok? ==> Filed(Rows(parse, records), l.value.v4, l.value.v6)
                      && l.value.protectedRows == CountProtected(Rows(parse, records))
  {
    var v4: Buckets, v6: Buckets, protectedRows := map[], map[], 0;
    for i := 0 to |records|
      invariant forall k | 0 <= k < i :: ValidNetwork(parse, records[k])
      invariant Filed(Rows(parse, records[..i]), v4, v6)
      invariant protectedRows == CountProtected(Rows(parse, records[..i]))
    {
      if records[i].Unreadable? || !CompleteNetwork(records[i].row) {
        return Err(BadNetwork(i));
      }
      var n := records[i].row;
      var parsed := parse.prefix(n.prefix);
      if parsed.None? {
        return Err(NotAPrefix(i));
      }
      var p := Masked(parsed.value);
      RowsNext(parse, records, i);
      FileNext(Rows(parse, records[..i]), Row(p, n), v4, v6);
      PushInit(Rows(parse, records[..i]), Row(p, n));
      if Is4(p.addr) {
        v4 := Put(v4, p, n);
      } else {
        v6 := Put(v6, p, n);
      }
      if n.isProtected {
        protectedRows := protectedRows + 1;
      }
    }
    TakeAll(records);
    return Ok(Layout(v4, v6, protectedRows));
  }

  lemma RowsNext(parse: Parsers, records: seq<Record<Network>>, i: nat)
    requires i < |records| && forall k | 0 <= k <= i :: ValidNetwork(parse, records[k])
    ensures Rows(parse, records[..i + 1])
            == Rows(parse, records[..i]) + [Row(Masked(parse.prefix(records[i].row.prefix).value), records[i].row)]
  {
    TakeNext(records, i);
    PushInit(records[..i], records[i]);
  }

  method IndexPrints(records: seq<Record<Fingerprint>>) returns (m: Result<map<string, Fingerprint>, Fault>)
    ensures m.Ok? <==> forall i | 0 <= i < |records| :: ValidPrint(records[i])
    ensures m.Ok? ==> FiledPrints(records, m.value)
  {
    var prints: map<string, Fingerprint> := map[];
    for i := 0 to |records|
      invariant forall k | 0 <= k < i :: ValidPrint(records[k])
      invariant FiledPrints(records[..i], prints)
    {
      if records[i].Unreadable? || !CompletePrint(records[i].row) {
        return Err(BadPrint(i));
      }
      var f := records[i].row;
      FilePrint(records[..i], prints, f);
      TakeNext(records, i);
      prints := prints[Joined(f.kind, f.value) := f];
    }
    TakeAll(records);
    return Ok(prints);
  }

  /** Reads a set and builds the lookup structures; one bad record discards it whole. */
  method Parse(parse: Parsers, raw: Raw) returns (s: Result<FactSet, Fault>)
    ensures s.Ok? <==> ValidRaw(parse, raw)
    ensures s.Ok? ==> s.value.version == raw.envelope.version
                      && Indexes(s.value, Rows(parse, raw.envelope.networks), raw.envelope.fingerprints)
  {
    if raw.Garbled? {
      return Err(NotAnEnvelope);
    }
    var e := raw.envelope;
    if e.format != FORMAT_VERSION {
      return Err(WrongFormat);
    }
    if e.version < 1 {
      return Err(WrongVersion);
    }
    var layout := IndexNetworks(parse, e.networks);
    if layout.Err? {
      return Err(layout.error);
    }
    var prints := IndexPrints(e.fingerprints);
    if prints.Err? {
      return Err(prints.error);
    }
    var v4bits := LengthsDescending(layout.value.v4);
    var v6bits := LengthsDescending(layout.value.v6);
    return Ok(FactSet(e.version, layout.value.v4, layout.value.v6, v4bits, v6bits, prints.value,
                      |e.networks|, layout.value.protectedRows));
  }

  // ---------------------------------------------------------------- the lookup

  /** No row longer than this covers the address. */
  ghost predicate NoneLonger(rows: seq<Row>, a: Addr, length: int) {
    forall i | 0 <= i < |rows| && Covers(rows[i].prefix, a) :: rows[i].prefix.length <= length
  }

  lemma {:induction false} LastOfRow(rows: seq<Row>, p: Prefix)
    ensures LastOf(rows, p).Some? <==> exists i :: 0 <= i < |rows| && rows[i].prefix == p
  {
    if rows != [] {
      var n := |rows| - 1;
      LastOfRow(rows[..n], p);
      if i :| 0 <= i < |rows| && rows[i].prefix == p && i < n {
        assert rows[..n][i].prefix == p;
      }
      if LastOf(rows[..n], p).Some? {
        var i :| 0 <= i < n && rows[..n][i].prefix == p;
        assert rows[i].prefix == p;
      } else {
        assert LastOf(rows, p).Some? <==> rows[n].prefix == p;
      }
    }
  }

  /** The last row of the longest covering length is what the scan finds. */
  lemma {:induction false} ScanFinds(rows: seq<Row>, a: Addr, own: Prefix)
    requires AllMasked(rows)
    requires own.length <= |a.bits| && own == NetworkOf(a, own.length)
    requires NoneLonger(rows, a, own.length) && LastOf(rows, own).Some?
    ensures Scan(rows, a) == Some(Row(own, LastOf(rows, own).value))
  {
    var n := |rows| - 1;
    var row := rows[n];
    assert forall i | 0 <= i < n :: rows[..n][i] == rows[i];
    ScanSound(rows[..n], a);
    if row.prefix == own {
      CoversIsNetwork(own, a);
    } else {
      ScanFinds(rows[..n], a, own);
      if Covers(row.prefix, a) {
        CoversIsNetwork(row.prefix, a);
      }
    }
  }

  lemma {:induction false} ScanSound(rows: seq<Row>, a: Addr)
    ensures Scan(rows, a).Some? ==> Scan(rows, a).value in rows && Covers(Scan(rows, a).value.prefix, a)
                                    && NoneLonger(rows, a, Scan(rows, a).value.prefix.length)
    ensures Scan(rows, a).None? <==> NoneLonger(rows, a, -1)
  {
    if rows != [] {
      var n := |rows| - 1;
      ScanSound(rows[..n], a);
      assert forall i | 0 <= i < n :: rows[..n][i] == rows[i];
      assert rows[n] in rows;
      if Scan(rows[..n], a).None? && Covers(rows[n].prefix, a) {
        assert !NoneLonger(rows, a, -1);
      }
    }
  }

  /** Every length a covering row has is among the lengths probed. */
  lemma CoveringIsFiled(rows: seq<Row>, v4: Buckets, v6: Buckets, a: Addr, i: nat)
    requires Filed(rows, v4, v6) && i < |rows| && Covers(rows[i].prefix, a) && Masked(rows[i].prefix) == rows[i].prefix
    ensures var p := rows[i].prefix;
            && p == NetworkOf(a, p.length)
            && p.length in (if Is4(a) then v4 else v6)
            && LastOf(rows, p).Some?
            && Get(if Is4(a) then v4 else v6, p) == LastOf(rows, p)
  {
    CoversIsNetwork(rows[i].prefix, a);
    LastOfRow(rows, rows[i].prefix);
  }

  /** No covering row has one of the first i lengths. */
  ghost predicate Tried(rows: seq<Row>, a: Addr, lengths: seq<nat>, i: nat)
    requires i <= |lengths|
  {
    forall k | 0 <= k < |rows| && Covers(rows[k].prefix, a) :: rows[k].prefix.length !in lengths[..i]
  }

  lemma NotFound(rows: seq<Row>, v4: Buckets, v6: Buckets, a: Addr, lengths: seq<nat>, i: nat)
    requires Filed(rows, v4, v6) && AllMasked(rows)
    requires i < |lengths| && Tried(rows, a, lengths, i) && lengths[i] <= |a.bits|
    requires Get(if Is4(a) then v4 else v6, NetworkOf(a, lengths[i])).None?
    ensures Tried(rows, a, lengths, i + 1)
  {
    forall k | 0 <= k < |rows| && Covers(rows[k].prefix, a)
      ensures rows[k].prefix.length != lengths[i]
    {
      CoveringIsFiled(rows, v4, v6, a, k);
    }
  }

  lemma Found(rows: seq<Row>, v4: Buckets, v6: Buckets, a: Addr, lengths: seq<nat>, i: nat)
    requires Filed(rows, v4, v6) && AllMasked(rows) && Descends(lengths, if Is4(a) then v4 else v6)
    requires i < |lengths| && Tried(rows, a, lengths, i) && lengths[i] <= |a.bits|
    requires Get(if Is4(a) then v4 else v6, NetworkOf(a, lengths[i])).Some?
    ensures Scan(rows, a).Some?
            && Get(if Is4(a) then v4 else v6, NetworkOf(a, lengths[i])) == Some(Scan(rows, a).value.network)
  {
    var own := NetworkOf(a, lengths[i]);
    forall k | 0 <= k < |rows| && Covers(rows[k].prefix, a)
      ensures rows[k].prefix.length <= lengths[i]
    {
      CoveringIsFiled(rows, v4, v6, a, k);
      NotAhead(lengths, i, rows[k].prefix.length);
    }
    ScanFinds(rows, a, own);
  }

  lemma NotAhead(lengths: seq<nat>, i: nat, length: nat)
    requires i < |lengths| && length in lengths && length !in lengths[..i]
    requires forall j, k | 0 <= j < k < |lengths| :: lengths[j] > lengths[k]
    ensures length <= lengths[i]
  {
    assert lengths == lengths[..i] + lengths[i..];
    var k :| 0 <= k < |lengths[i..]| && lengths[i..][k] == length;
    assert lengths[i + k] == length;
  }

  lemma NothingLeft(rows: seq<Row>, v4: Buckets, v6: Buckets, a: Addr, lengths: seq<nat>)
    requires Filed(rows, v4, v6) && AllMasked(rows) && Descends(lengths, if Is4(a) then v4 else v6)
    requires Tried(rows, a, lengths, |lengths|)
    ensures Scan(rows, a).None?
  {
    TakeAll(lengths);
    forall k | 0 <= k < |rows|
      ensures !Covers(rows[k].prefix, a)
    {
      if Covers(rows[k].prefix, a) {
        CoveringIsFiled(rows, v4, v6, a, k);
      }
    }
    ScanSound(rows, a);
  }

  /** What the base says about an address: the row the scan finds for it, unmapped. */
  function About(rows: seq<Row>, addr: Addr): Option<Network> {
    match Scan(rows, Unmap(addr))
    case None => None
    case Some(row) => Some(row.network)
  }

  /** The network indexes of a set file exactly the rows, if there is a set. */
  ghost predicate Networked(s: Option<FactSet>, rows: seq<Row>) {
    s.Some? ==>
      && Filed(rows, s.value.v4, s.value.v6) && AllMasked(rows)
      && Descends(s.value.v4bits, s.value.v4) && Descends(s.value.v6bits, s.value.v6)
  }

  /** Finds the longest prefix covering the address; nothing without a set or a valid address. */
  method LookupNetwork(s: Option<FactSet>, addr: Option<Addr>, ghost rows: seq<Row>) returns (n: Option<Network>)
    requires Networked(s, rows)
    ensures n == if s.None? || addr.None? then None else About(rows, addr.value)
  {
    if s.None? || addr.None? {
      return None;
    }
    n := Probe(s.value, Unmap(addr.value), rows);
  }

  /** Probes the lengths from the longest down. */
  method Probe(s: FactSet, a: Addr, ghost rows: seq<Row>) returns (n: Option<Network>)
    requires Networked(Some(s), rows)
    ensures n == match Scan(rows, a) case None => None case Some(row) => Some(row.network)
  {
    var buckets, lengths := s.v6, s.v6bits;
    if Is4(a) {
      buckets, lengths := s.v4, s.v4bits;
    }
    for i := 0 to |lengths|
      invariant Tried(rows, a, lengths, i)
    {
      if lengths[i] > |a.bits| {
        continue;
      }
      var found := Get(buckets, NetworkOf(a, lengths[i]));
      if found.Some? {
        Found(rows, s.v4, s.v6, a, lengths, i);
        return found;
      }
      NotFound(rows, s.v4, s.v6, a, lengths, i);
    }
    NothingLeft(rows, s.v4, s.v6, a, lengths);
    return None;
  }

  /** What the scan finds, said outright: a row covering the address, no covering row is
      longer, and no later row has the same prefix; nothing, just when no row covers it. */
  lemma {:induction false} LongestMatch(rows: seq<Row>, a: Addr)
    requires AllMasked(rows)
    ensures match Scan(rows, a)
            case None => forall i | 0 <= i < |rows| :: !Covers(rows[i].prefix, a)
            case Some(row) => exists i | 0 <= i < |rows| :: Best(rows, a, i) && rows[i] == row
  {
    if rows != [] {
      LongestMatch(rows[..|rows| - 1], a);
      LongestNext(rows, a);
    }
  }

  lemma LongestNext(rows: seq<Row>, a: Addr)
    requires rows != []
    requires match Scan(rows[..|rows| - 1], a)
             case None => forall i | 0 <= i < |rows| - 1 :: !Covers(rows[i].prefix, a)
             case Some(row) => exists i | 0 <= i < |rows| - 1 :: Best(rows[..|rows| - 1], a, i) && rows[i] == row
    ensures match Scan(rows, a)
            case None => forall i | 0 <= i < |rows| :: !Covers(rows[i].prefix, a)
            case Some(row) => exists i | 0 <= i < |rows| :: Best(rows, a, i) && rows[i] == row
  {
    var n := |rows| - 1;
    var best, last := Scan(rows[..n], a), rows[n];
    if Covers(last.prefix, a) && (best.None? || best.value.prefix.length <= last.prefix.length) {
      if best.Some? {
        BestIsLongest(rows, a);
      }
      LastBest(rows, a);
    } else if best.Some? {
      var i :| 0 <= i < n && Best(rows[..n], a, i) && rows[i] == best.value;
      BestStays(rows, a, i);
    }
  }

  lemma BestIsLongest(rows: seq<Row>, a: Addr)
    requires rows != [] && Scan(rows[..|rows| - 1], a).Some?
    requires exists i | 0 <= i < |rows| - 1 ::
               Best(rows[..|rows| - 1], a, i) && rows[i] == Scan(rows[..|rows| - 1], a).value
    ensures forall k | 0 <= k < |rows| - 1 && Covers(rows[k].prefix, a) ::
              rows[k].prefix.length <= Scan(rows[..|rows| - 1], a).value.prefix.length
  {
    var n := |rows| - 1;
    var i :| 0 <= i < n && Best(rows[..n], a, i) && rows[i] == Scan(rows[..n], a).value;
    assert forall k | 0 <= k < n :: rows[..n][k] == rows[k];
  }

  lemma LastBest(rows: seq<Row>, a: Addr)
    requires rows != [] && Covers(rows[|rows| - 1].prefix, a)
    requires forall i | 0 <= i < |rows| - 1 && Covers(rows[i].prefix, a) ::
               rows[i].prefix.length <= rows[|rows| - 1].prefix.length
    ensures Best(rows, a, |rows| - 1)
  {
  }

  lemma BestStays(rows: seq<Row>, a: Addr, i: nat)
    requires i < |rows| - 1 && Best(rows[..|rows| - 1], a, i)
    requires Covers(rows[|rows| - 1].prefix, a) ==> rows[i].prefix.length > rows[|rows| - 1].prefix.length
    ensures Best(rows, a, i)
  {
    var n := |rows| - 1;
    assert forall k | 0 <= k < n :: rows[..n][k] == rows[k];
    assert rows[n].prefix != rows[i].prefix;
  }

  ghost predicate Best(rows: seq<Row>, a: Addr, i: nat) {
    && i < |rows| && Covers(rows[i].prefix, a)
    && (forall k | 0 <= k < |rows| && Covers(rows[k].prefix, a) :: rows[k].prefix.length <= rows[i].prefix.length)
    && (forall k | i < k < |rows| :: rows[k].prefix != rows[i].prefix)
  }

  /** A network of IPv4-mapped addresses, or of some of them. */
  predicate MappedOnly(p: Prefix) {
    |p.addr.bits| == 128 && p.length >= 96 && p.addr.bits[..96] == MappedHead()
  }

  /** An address in a network that is not of mapped addresses only, and is looked up as it is. */
  function SomeAddress(p: Prefix): Addr {
    if p.length >= 96 || |p.addr.bits| == 32 then p.addr
    else RawAddr(p.addr.bits[..p.length] + Zeros(128 - p.length), "")
  }

  /** The networks in which no address is ever looked up are exactly those of mapped addresses. */
  lemma MappedNetworksIdle(p: Prefix)
    ensures (forall addr: Addr :: !Covers(p, Unmap(addr))) <==> MappedOnly(p)
  {
    if MappedOnly(p) {
      forall addr: Addr
        ensures !Covers(p, Unmap(addr))
      {
      }
    } else {
      NotIdle(p);
    }
  }

  lemma NotIdle(p: Prefix)
    requires !MappedOnly(p)
    ensures Covers(p, Unmap(SomeAddress(p)))
  {
    var a := SomeAddress(p);
    if |p.addr.bits| == 128 && p.length < 96 {
      assert !a.bits[..96][95] && MappedHead()[95];
    }
  }

  /** A document with such a network is valid all the same, and its row is never found. */
  lemma IdleRowAccepted(parse: Parsers, n: Network, version: int, p: Prefix, addr: Addr)
    requires version >= 1 && CompleteNetwork(n) && parse.prefix(n.prefix) == Some(p) && MappedOnly(p)
    ensures ValidRaw(parse, Decoded(Envelope(FORMAT_VERSION, version, [Readable(n)], [])))
    ensures Scan(Rows(parse, [Readable(n)]), Unmap(addr)) == None
  {
    var records := [Readable(n)];
    assert records[..0] == [];
    assert Rows(parse, records) == [Row(Masked(p), n)];
    MaskingKeeps(p, Unmap(addr));
    MappedNetworksIdle(p);
    assert [Row(Masked(p), n)][..0] == [];
  }

  // ---------------------------------------------------------------- applying

  /** Whether the client the request claims to be agrees with its handshake. */
  function Agrees(mark: Option<Fingerprint>, claimed: string): bool {
    match mark
    case None => true
    case Some(f) =>
      claimed in {FAMILY_UNKNOWN, FAMILY_BOT} || f.family in {"", FAMILY_BOT} || claimed == f.family
  }

  function LookupPrint(s: FactSet, kind: string, value: string): Option<Fingerprint> {
    if value != "" && Joined(kind, value) in s.prints then Some(s.prints[Joined(kind, value)]) else None
  }

  function PrintOf(prints: seq<Record<Fingerprint>>, kind: string, value: string): Option<Fingerprint> {
    if value == "" then None else LastPrint(prints, kind, value)
  }

  /** The fingerprint of the request: by its handshake, or else by its frames. */
  function Print(prints: seq<Record<Fingerprint>>, r: Request): Option<Fingerprint> {
    var byHandshake := PrintOf(prints, "ja4", r.ja4);
    if byHandshake.Some? then byHandshake else PrintOf(prints, "h2", r.h2)
  }

  /** The request with what is known about its network. */
  function WithNetwork(r: Request, n: Option<Network>, version: int): Request {
    match n
    case None => r
    case Some(n) =>
      r.(netClass := n.kind, netOwner := n.owner, netCountry := n.country, netProtected := n.isProtected,
         netAge := if version > n.since then version - n.since else r.netAge)
  }

  function WithPrint(r: Request, mark: Option<Fingerprint>, claimed: string): Request {
    r.(family := if mark.Some? then mark.value.family else r.family, uaMatchesJA4 := Agrees(mark, claimed))
  }

  function NetworkFor(parse: Parsers, rows: seq<Row>, r: Request): Option<Network> {
    match parse.addr(r.ip)
    case None => None
    case Some(a) => About(rows, a)
  }

  method ApplyNetwork(s: FactSet, parse: Parsers, r: Request, ghost rows: seq<Row>) returns (known: Request)
    requires Networked(Some(s), rows)
    ensures known == WithNetwork(r, NetworkFor(parse, rows, r), s.version)
  {
    known := r;
    var addr := parse.addr(r.ip);
    if addr.Some? {
      var found := LookupNetwork(Some(s), addr, rows);
      if found.Some? {
        var n := found.value;
        known := r.(netClass := n.kind, netOwner := n.owner, netCountry := n.country, netProtected := n.isProtected);
        var age := s.version - n.since;
        if age > 0 {
          known := known.(netAge := age);
        }
      }
    }
  }

  /** Fills in what the set knows about the request; the claimed family comes from outside. */
  method Apply(set_: Option<FactSet>, parse: Parsers, r: Request, claimed: string,
               ghost rows: seq<Row>, ghost prints: seq<Record<Fingerprint>>) returns (known: Request)
    requires set_.Some? ==> Indexes(set_.value, rows, prints) && AllMasked(rows)
    ensures known == if set_.None? then r else
              WithPrint(WithNetwork(r, NetworkFor(parse, rows, r), set_.value.version), Print(prints, r), claimed)
  {
    if set_.None? {
      return r;
    }
    var s := set_.value;
    known := ApplyNetwork(s, parse, r, rows);
    var mark := LookupPrint(s, "ja4", r.ja4);
    if mark.None? {
      mark := LookupPrint(s, "h2", r.h2);
    }
    LookupIsPrint(s, prints, r);
    if mark.Some? {
      known := known.(family := mark.value.family);
    }
    known := known.(uaMatchesJA4 := Agrees(mark, claimed));
  }

  lemma LookupIsPrint(s: FactSet, prints: seq<Record<Fingerprint>>, r: Request)
    requires FiledPrints(prints, s.prints)
    ensures var byHandshake := LookupPrint(s, "ja4", r.ja4);
            Print(prints, r) == if byHandshake.Some? then byHandshake else LookupPrint(s, "h2", r.h2)
  {
    assert NoNul("ja4") && NoNul("h2");
  }

  const BORDER := {"family", "network.class", "network.owner", "network.country", "network.protected", "network.age",
                   "ua_matches_ja4"}

  /** The border: applying facts changes no field but the family, the network's and the
      comparison with the handshake, and nothing of what a decision left on the request. */
  lemma FactsKeepTheBorder(r: Request, n: Option<Network>, version: int, mark: Option<Fingerprint>, claimed: string,
                           field: string)
    requires field !in BORDER
    ensures var known := WithPrint(WithNetwork(r, n, version), mark, claimed);
            && ValueOf(known, field) == ValueOf(r, field)
            && known.time == r.time && known.decision == r.decision && known.rule == r.rule
            && known.ruleHash == r.ruleHash && known.shadow == r.shadow && known.shadowHashes == r.shadowHashes
  {
  }

  /** The fingerprint is the last of those listed under this kind and this value. */
  ghost predicate Named(prints: seq<Record<Fingerprint>>, kind: string, value: string, f: Fingerprint) {
    value != "" && exists i | 0 <= i < |prints| :: prints[i] == Readable(f) && LastUnder(prints, kind, value, i)
  }

  ghost predicate Under(p: Record<Fingerprint>, kind: string, value: string) {
    p.Readable? && p.row.kind == kind && p.row.value == value
  }

  ghost predicate LastUnder(prints: seq<Record<Fingerprint>>, kind: string, value: string, i: nat) {
    i < |prints| && Under(prints[i], kind, value) && forall k | i < k < |prints| :: !Under(prints[k], kind, value)
  }

  /** What a named fingerprint says about the client that claims to be something. */
  ghost predicate Tells(known: Request, f: Fingerprint, claimed: string) {
    && known.family == f.family
    && (known.uaMatchesJA4 <==> claimed in {"unknown", "bot"} || f.family in {"", "bot"} || claimed == f.family)
  }

  /** What the network of a row says about the client. */
  ghost predicate TellsNetwork(known: Request, r: Request, n: Network, version: int) {
    && known.netClass == n.kind && known.netOwner == n.owner && known.netCountry == n.country
    && known.netProtected == n.isProtected
    && known.netAge == if version > n.since then version - n.since else r.netAge
  }

  lemma {:induction false} LastPrintNamed(prints: seq<Record<Fingerprint>>, kind: string, value: string)
    ensures match LastPrint(prints, kind, value)
            case Some(f) =>
              exists i | 0 <= i < |prints| :: prints[i] == Readable(f) && LastUnder(prints, kind, value, i)
            case None => forall i | 0 <= i < |prints| :: !Under(prints[i], kind, value)
  {
    if prints != [] {
      var n := |prints| - 1;
      if Under(prints[n], kind, value) {
        assert LastUnder(prints, kind, value, n);
      } else {
        LastPrintNamed(prints[..n], kind, value);
        LastUnderNext(prints, kind, value);
      }
    }
  }

  lemma LastUnderNext(prints: seq<Record<Fingerprint>>, kind: string, value: string)
    requires prints != [] && !Under(prints[|prints| - 1], kind, value)
    ensures var n := |prints| - 1;
            && (forall i: nat :: LastUnder(prints[..n], kind, value, i) ==> LastUnder(prints, kind, value, i))
            && ((forall i | 0 <= i < n :: !Under(prints[..n][i], kind, value))
                ==> forall i | 0 <= i < |prints| :: !Under(prints[i], kind, value))
  {
    var n := |prints| - 1;
    assert forall i | 0 <= i < n :: prints[..n][i] == prints[i];
  }

  lemma PrintNamed(prints: seq<Record<Fingerprint>>, kind: string, value: string)
    ensures forall f :: PrintOf(prints, kind, value) == Some(f) <==> Named(prints, kind, value, f)
  {
    LastPrintNamed(prints, kind, value);
  }

  lemma BestOnly(rows: seq<Row>, a: Addr, i: nat)
    requires AllMasked(rows) && Best(rows, a, i)
    ensures Scan(rows, a) == Some(rows[i])
  {
    LongestMatch(rows, a);
    var j :| 0 <= j < |rows| && Best(rows, a, j) && Some(rows[j]) == Scan(rows, a);
    CoversIsNetwork(rows[i].prefix, a);
    CoversIsNetwork(rows[j].prefix, a);
  }

  /** What applying the facts fills in from the networks: the fields of the longest one that
      covers the address, and its age in versions. */
  lemma NetworkFilled(parse: Parsers, rows: seq<Row>, r: Request, version: int)
    requires AllMasked(rows)
    ensures var known := WithNetwork(r, NetworkFor(parse, rows, r), version);
            match parse.addr(r.ip)
            case None => known == r
            case Some(a) =>
              && (forall i | 0 <= i < |rows| && Best(rows, Unmap(a), i) ::
                    TellsNetwork(known, r, rows[i].network, version))
              && ((forall i | 0 <= i < |rows| :: !Covers(rows[i].prefix, Unmap(a))) ==> known == r)
  {
    if parse.addr(r.ip).Some? {
      var a := Unmap(parse.addr(r.ip).value);
      LongestMatch(rows, a);
      forall i | 0 <= i < |rows| && Best(rows, a, i)
        ensures Scan(rows, a) == Some(rows[i])
      {
        BestOnly(rows, a, i);
      }
    }
  }

  /** And from the fingerprints: the family of the handshake's, or else of the frames', and
      whether what the client claims to be agrees with it. */
  lemma PrintFilled(prints: seq<Record<Fingerprint>>, r: Request, claimed: string)
    ensures var known := WithPrint(r, Print(prints, r), claimed);
            && (forall f :: Named(prints, "ja4", r.ja4, f) ==> Tells(known, f, claimed))
            && (forall f :: Named(prints, "h2", r.h2, f) && (forall g :: !Named(prints, "ja4", r.ja4, g))
                            ==> Tells(known, f, claimed))
            && ((forall f :: !Named(prints, "ja4", r.ja4, f) && !Named(prints, "h2", r.h2, f))
                ==> known.family == r.family && known.uaMatchesJA4)
  {
    PrintNamed(prints, "ja4", r.ja4);
    PrintNamed(prints, "h2", r.h2);
    var byHandshake, byFrames := PrintOf(prints, "ja4", r.ja4), PrintOf(prints, "h2", r.h2);
    assert byHandshake.Some? ==> Named(prints, "ja4", r.ja4, byHandshake.value);
    assert byFrames.Some? ==> Named(prints, "h2", r.h2, byFrames.value);
  }
}
