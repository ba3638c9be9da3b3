/** The versioned store of internal/catalog/store.go: which set is in force, which
    versions are on disk, and the pointer between the two. */
module FactStore {
  import opened Wrappers
  import opened Ordering
  import opened Net
  import opened Condition
  import opened Catalog

  const KEEP := 3

  /** What the store needs to know of a parsed set. */
  datatype Summary = Summary(version: int, networks: nat, protectedRows: nat)

  type Disk = map<int, Raw>

  datatype State = State(disk: Disk, pointer: Option<int>, inForce: Option<Summary>)

  const EMPTY := State(map[], None, None)

  /** What the manifest check found out; the key and the digest are checked elsewhere. */
  datatype Manifest = Manifest(version: int, trusted: bool, describes: bool)

  datatype Refusal = SwitchedOff | NoManifest | NotTrusted | NotAbove | NotDescribed | NotASet | OtherVersion
                   | Shrunk | WriteFailed | NothingBelow

  /** How far the writes of an installation get. */
  datatype Writes = AllWork | FileFails | PointerFails

  function SummaryOf(parse: Parsers, raw: Raw): Option<Summary> {
    if ValidRaw(parse, raw) then
      Some(Summary(raw.envelope.version, |raw.envelope.networks|, CountProtected(Rows(parse, raw.envelope.networks))))
    else None
  }

  function VersionOf(s: Option<Summary>): int {
    if s.Some? then s.value.version else 0
  }

  /** The new set lost more than half of the networks, or of the protected rows. */
  predicate Shrinks(was: Option<Summary>, now: Summary) {
    was.Some? && (now.networks * 2 < was.value.networks || now.protectedRows * 2 < was.value.protectedRows)
  }

  /** Why an installation is refused, if it is: the first check that fails. */
  function Refuses(parse: Parsers, s: State, m: Option<Manifest>, raw: Raw, force: bool): Option<Refusal> {
    if m.None? then Some(NoManifest)
    else if !m.value.trusted then Some(NotTrusted)
    else if m.value.version <= VersionOf(s.inForce) then Some(NotAbove)
    else if !m.value.describes then Some(NotDescribed)
    else match SummaryOf(parse, raw)
      case None => Some(NotASet)
      case Some(now) =>
        if now.version != m.value.version then Some(OtherVersion)
        else if !force && Shrinks(s.inForce, now) then Some(Shrunk)
        else None
  }

  function Above(keys: set<int>, v: int): set<int> {
    set u | u in keys && u > v
  }

  /** The last KEEP versions. */
  function Last(keys: set<int>): set<int> {
    set v | v in keys && |Above(keys, v)| < KEEP
  }

  /** The disk without everything older than the last KEEP versions. */
  function Swept(disk: Disk): Disk {
    disk - (disk.Keys - Last(disk.Keys))
  }

  function Installed(parse: Parsers, s: State, raw: Raw, writes: Writes): State
    requires ValidRaw(parse, raw)
  {
    var v := raw.envelope.version;
    match writes
    case FileFails => s
    case PointerFails => s.(disk := s.disk[v := raw])
    case AllWork => State(Swept(s.disk[v := raw]), Some(v), SummaryOf(parse, raw))
  }

  /** The greatest version on disk below the one in force; zero when there is none. */
  ghost predicate IsTarget(keys: set<int>, current: int, t: int) {
    && (t == 0 || (t in keys && 0 < t < current))
    && forall v | v in keys && 0 < v < current :: v <= t
  }

  function RolledBack(parse: Parsers, s: State, target: int): State
    requires target in s.disk
  {
    if ValidRaw(parse, s.disk[target]) then s.(pointer := Some(target), inForce := SummaryOf(parse, s.disk[target]))
    else s
  }

  /** What a process that starts on this disk puts in force. */
  function Reopened(parse: Parsers, s: State): State {
    s.(inForce := if s.pointer.Some? && s.pointer.value != 0 && s.pointer.value in s.disk
                  then SummaryOf(parse, s.disk[s.pointer.value]) else None)
  }

  // ---------------------------------------------------------------- versions on disk

  predicate Less(a: int, b: int) { a < b }

  ghost predicate Rising(versions: seq<int>) {
    forall j, k | 0 <= j < k < |versions| :: versions[j] < versions[k]
  }

  lemma AboveAt(versions: seq<int>, i: nat)
    requires i < |versions| && Rising(versions)
    ensures Above(Members(versions), versions[i]) == Members(versions[i + 1..])
    ensures |Above(Members(versions), versions[i])| == |versions| - 1 - i
  {
    SplitMembers(versions, i + 1);
  }

  lemma LastIs(versions: seq<int>)
    requires Rising(versions)
    ensures var first := if |versions| < KEEP then 0 else |versions| - KEEP;
            && Last(Members(versions)) == Members(versions[first..])
            && Members(versions) - Last(Members(versions)) == Members(versions[..first])
            && |Last(Members(versions))| <= KEEP
  {
    var first := if |versions| < KEEP then 0 else |versions| - KEEP;
    SplitMembers(versions, first);
    forall u | u in Members(versions)
      ensures u in Last(Members(versions)) <==> u in Members(versions[first..])
    {
      LastHolds(versions, first, u);
    }
    assert Last(Members(versions)) == Members(versions[first..]);
  }

  lemma LastHolds(versions: seq<int>, first: nat, u: int)
    requires Rising(versions) && u in Members(versions)
    requires first == if |versions| < KEEP then 0 else |versions| - KEEP
    ensures u in Last(Members(versions)) <==> u in Members(versions[first..])
  {
    var k :| 0 <= k < |versions| && versions[k] == u;
    LastFrom(versions, first, k);
  }

  lemma LastFrom(versions: seq<int>, first: nat, k: nat)
    requires Rising(versions) && k < |versions|
    requires first == if |versions| < KEEP then 0 else |versions| - KEEP
    ensures versions[k] in Last(Members(versions)) <==> k >= first
  {
    AboveAt(versions, k);
    assert versions[k] in Members(versions);
  }

  /** The sweep cuts the front of the versions off. */
  lemma SweptCuts(disk: Disk, versions: seq<int>)
    requires disk.Keys == Members(versions) && Rising(versions)
    ensures Swept(disk) == if |versions| <= KEEP then disk else disk - Members(versions[..|versions| - KEEP])
  {
    LastIs(versions);
    if |versions| <= KEEP {
      assert versions[..0] == [];
    }
  }

  // ---------------------------------------------------------------- the store

  class Store {
    const parse: Parsers
    const enabled: bool
    var disk: Disk
    var pointer: Option<int>
    var current: Option<FactSet>

    ghost var installed: Raw  // the document of the set in force

    ghost predicate Valid()
      reads this
    {
      current.Some? ==> ValidRaw(parse, installed) && ReadFrom(current.value, parse, installed)
    }

    ghost function View(): State
      reads this
      requires Valid()
    {
      State(disk, pointer, if current.Some? then SummaryOf(parse, installed) else None)
    }

    constructor (parse: Parsers, enabled: bool, disk: Disk, pointer: Option<int>)
      ensures Valid() && this.parse == parse && this.enabled == enabled
      ensures View() == if enabled then Reopened(parse, State(disk, pointer, None)) else State(disk, pointer, None)
    {
      this.parse, this.enabled, this.disk, this.pointer := parse, enabled, disk, pointer;
      this.current := None;
      new;
      if !enabled || pointer.None? || pointer.value == 0 || pointer.value !in disk {
        return;
      }
      var set_ := Catalog.Parse(parse, disk[pointer.value]);
      if set_.Ok? {
        current, installed := Some(set_.value), disk[pointer.value];
      }
    }

    /** Runs every check and, if all pass, puts the set into force. */
    method Install(m: Option<Manifest>, raw: Raw, force: bool, writes: Writes) returns (r: Result<FactSet, Refusal>)
      requires Valid()
      modifies this
      ensures Valid()
      ensures r.Ok? <==> enabled && Refuses(parse, old(View()), m, raw, force).None? && writes == AllWork
      ensures r.Ok? ==> r.value.version == raw.envelope.version && current == Some(r.value)
      ensures r.Err? && Refuses(parse, old(View()), m, raw, force).Some? && enabled ==>
                r.error == Refuses(parse, old(View()), m, raw, force).value
      ensures View() == if enabled && Refuses(parse, old(View()), m, raw, force).None?
                        then Installed(parse, old(View()), raw, writes) else old(View())
    {
      if !enabled {
        return Err(SwitchedOff);
      }
      var checked := Check(m, raw, force);
      if checked.Err? {
        return checked;
      }
      r := PutInForce(checked.value, raw, writes);
    }

    /** The checks, in the order of the protocol. */
    method Check(m: Option<Manifest>, raw: Raw, force: bool) returns (r: Result<FactSet, Refusal>)
      requires Valid()
      ensures r.Err? <==> Refuses(parse, View(), m, raw, force).Some?
      ensures r.Err? ==> Refuses(parse, View(), m, raw, force) == Some(r.error)
      ensures r.Ok? ==> ValidRaw(parse, raw) && ReadFrom(r.value, parse, raw)
    {
      if m.None? {
        return Err(NoManifest);
      }
      if !m.value.trusted {
        return Err(NotTrusted);
      }
      if m.value.version <= (if current.Some? then current.value.version else 0) {
        return Err(NotAbove);
      }
      if !m.value.describes {
        return Err(NotDescribed);
      }
      var parsed := Catalog.Parse(parse, raw);
      if parsed.Err? {
        return Err(NotASet);
      }
      var set_ := parsed.value;
      if set_.version != m.value.version {
        return Err(OtherVersion);
      }
      if !force && current.Some? && Halves(current.value, set_) {
        return Err(Shrunk);
      }
      return Ok(set_);
    }

    method PutInForce(set_: FactSet, raw: Raw, writes: Writes) returns (r: Result<FactSet, Refusal>)
      requires Valid() && ValidRaw(parse, raw) && ReadFrom(set_, parse, raw)
      modifies this
      ensures Valid() && View() == Installed(parse, old(View()), raw, writes)
      ensures r == if writes == AllWork then Ok(set_) else Err(WriteFailed)
      ensures writes == AllWork ==> current == Some(set_)
    {
      if writes == FileFails {
        return Err(WriteFailed);
      }
      disk := disk[set_.version := raw];
      if writes == PointerFails {
        return Err(WriteFailed);
      }
      pointer := Some(set_.version);
      current, installed := Some(set_), raw;
      Sweep();
      return Ok(set_);
    }

    /** The versions on disk, ascending. */
    method Versions() returns (versions: seq<int>)
      ensures Members(versions) == disk.Keys && Rising(versions)
    {
      var listed := Collect(disk.Keys);
      versions := Sort(Less, listed);
      SortAscending(Less, listed, disk.Keys);
      DistinctSorted(versions, disk.Keys);
      ListingMembers(versions, disk.Keys);
    }

    /** Removes everything older than the last KEEP versions. */
    method Sweep()
      modifies this`disk
      ensures disk == Swept(old(disk))
    {
      var versions := Versions();
      ghost var was := disk;
      SweptCuts(disk, versions);
      if |versions| <= KEEP {
        return;
      }
      for i := 0 to |versions| - KEEP
        invariant disk == was - Members(versions[..i])
      {
        RemoveNext(was, versions, i);
        disk := disk - {versions[i]};
      }
    }

    /** Returns to the previous version kept on disk; `written` says whether the pointer file
        can be written. */
    method Rollback(written: bool) returns (r: Result<FactSet, Refusal>, ghost target: int)
      requires Valid()
      modifies this
      ensures Valid() && IsTarget(old(disk).Keys, VersionOf(old(View()).inForce), target)
      ensures View() == if target == 0 || !written then old(View()) else RolledBack(parse, old(View()), target)
      ensures r.Ok? <==> target != 0 && ValidRaw(parse, old(disk)[target]) && written
      ensures r.Ok? ==> current == Some(r.value)
      ensures r.Err? ==> r.error == if target == 0 then NothingBelow
                                    else if !ValidRaw(parse, old(disk)[target]) then NotASet else WriteFailed
    {
      var versions := Versions();
      var now := if current.Some? then current.value.version else 0;
      var best := 0;
      for i := 0 to |versions|
        invariant best == 0 || (best in disk && 0 < best < now)
        invariant forall k | 0 <= k < i && 0 < versions[k] < now :: versions[k] <= best
      {
        assert versions[i] in Members(versions);
        if versions[i] < now && versions[i] > best {
          best := versions[i];
        }
      }
      assert forall v | v in disk :: v in Members(versions);
      target := best;
      if best == 0 {
        return Err(NothingBelow), target;
      }
      var parsed := Catalog.Parse(parse, disk[best]);
      if parsed.Err? {
        return Err(NotASet), target;
      }
      if !written {
        return Err(WriteFailed), target;
      }
      pointer := Some(best);
      current, installed := Some(parsed.value), disk[best];
      return Ok(parsed.value), target;
    }
  }

  predicate Halves(was: FactSet, now: FactSet) {
    (was.networks > 0 && now.networks * 2 < was.networks)
    || (was.protectedRows > 0 && now.protectedRows * 2 < was.protectedRows)
  }

  /** The parsed set is the document's. */
  ghost predicate ReadFrom(s: FactSet, parse: Parsers, raw: Raw)
    requires ValidRaw(parse, raw)
  {
    Indexes(s, Rows(parse, raw.envelope.networks), raw.envelope.fingerprints) && s.version == raw.envelope.version
  }

  lemma DistinctSorted(versions: seq<int>, keys: set<int>)
    requires multiset(versions) == multiset(keys) && Ascending(Less, versions)
    ensures Rising(versions)
  {
    ListingDistinct(versions, keys);
    forall i, j | 0 <= i < j < |versions|
      ensures versions[i] < versions[j]
    {
      assert !Less(versions[j], versions[i]);
    }
  }

  lemma RemoveNext(disk: Disk, versions: seq<int>, i: nat)
    requires i < |versions|
    ensures disk - Members(versions[..i]) - {versions[i]} == disk - Members(versions[..i + 1])
  {
    assert versions[..i + 1] == versions[..i] + [versions[i]];
  }
}
