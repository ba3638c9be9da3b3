/** Runs of the fact store: what holds after any of them, with and without crashes. */
module FactStoreRuns {
  import opened Wrappers
  import opened Ordering
  import opened Sequences
  import opened Net
  import opened Condition
  import opened Catalog
  import opened FactStore

  datatype Command =
    | Install(m: Option<Manifest>, raw: Raw, force: bool)
    | Rollback
    | Restart
    | FailInstall(m: Option<Manifest>, raw: Raw, force: bool, writes: Writes)  // an error, or a stop before the pointer
    | StopBeforeSweep(m: Option<Manifest>, raw: Raw, force: bool)  // a stop between the pointer and the sweep

  /** The greatest version on disk below the one in force; zero when there is none. */
  ghost function Target(keys: set<int>, current: int): (t: int)
    ensures IsTarget(keys, current, t)
  {
    TargetExists(keys, current);
    var t :| IsTarget(keys, current, t);
    t
  }

  lemma {:induction false} TargetExists(keys: set<int>, current: int)
    ensures exists t :: IsTarget(keys, current, t)
  {
    if v :| v in keys {
      TargetExists(keys - {v}, current);
      var t :| IsTarget(keys - {v}, current, t);
      var best := if 0 < v < current && v > t then v else t;
      forall u | u in keys && 0 < u < current
        ensures u <= best
      {
        assert u == v || u in keys - {v};
      }
      assert IsTarget(keys, current, best);
    } else {
      assert IsTarget(keys, current, 0);
    }
  }

  ghost function Step(parse: Parsers, s: State, c: Command): State {
    match c
    case Install(m, raw, force) =>
      if Refuses(parse, s, m, raw, force).Some? then s else Installed(parse, s, raw, AllWork)
    case FailInstall(m, raw, force, writes) =>
      if Refuses(parse, s, m, raw, force).Some? || writes == AllWork then s else Installed(parse, s, raw, writes)
    case StopBeforeSweep(m, raw, force) =>
      if Refuses(parse, s, m, raw, force).Some? then s
      else Reopened(parse, State(s.disk[raw.envelope.version := raw], Some(raw.envelope.version), None))
    case Restart => Reopened(parse, s)
    case Rollback =>
      var t := Target(s.disk.Keys, VersionOf(s.inForce));
      if t == 0 then s else RolledBack(parse, s, t)
  }

  ghost function Run(parse: Parsers, s: State, cs: seq<Command>): State {
    if cs == [] then s else Step(parse, Run(parse, s, cs[..|cs| - 1]), cs[|cs| - 1])
  }

  predicate Undisturbed(c: Command) {
    c.Install? || c.Rollback? || c.Restart?
  }

  // ---------------------------------------------------------------- invariants

  /** Every file holds a valid set of the version it is named after. */
  ghost predicate Filed(parse: Parsers, disk: Disk) {
    forall v | v in disk :: v >= 1 && SummaryOf(parse, disk[v]).Some? && SummaryOf(parse, disk[v]).value.version == v
  }

  /** The pointer does not dangle: it names a file, and that is the set in force. */
  ghost predicate Anchored(parse: Parsers, s: State) {
    match s.pointer
    case None => s.inForce == None
    case Some(v) => v in s.disk && s.inForce == SummaryOf(parse, s.disk[v])
  }

  ghost predicate Sound(parse: Parsers, s: State) {
    Filed(parse, s.disk) && Anchored(parse, s)
  }

  /** What undisturbed runs keep besides: at most KEEP versions, and none without a set in force. */
  ghost predicate Tidy(s: State) {
    |s.disk.Keys| <= KEEP && (s.pointer == None ==> s.disk == map[])
  }

  /** The file just written survives the sweep exactly when fewer than KEEP versions on
      disk are above it. */
  lemma InstalledSurvives(parse: Parsers, s: State, raw: Raw)
    requires ValidRaw(parse, raw)
    ensures var v := raw.envelope.version;
            v in Installed(parse, s, raw, AllWork).disk <==> |Above(s.disk.Keys, v)| < KEEP
  {
    var v := raw.envelope.version;
    var disk := s.disk[v := raw];
    assert disk.Keys == s.disk.Keys + {v};
    assert Above(disk.Keys, v) == Above(s.disk.Keys, v);
  }

  /** Above a version higher than the one in force there is always room. */
  lemma RoomAbove(parse: Parsers, s: State, v: int)
    requires Sound(parse, s) && Tidy(s) && v > VersionOf(s.inForce)
    ensures |Above(s.disk.Keys, v)| < KEEP
  {
    if s.pointer.Some? {
      var f := s.pointer.value;
      assert Above(s.disk.Keys, v) <= s.disk.Keys - {f};
      SubsetCount(Above(s.disk.Keys, v), s.disk.Keys - {f});
    } else {
      assert Above(s.disk.Keys, v) == {};
    }
  }

  lemma LastFew(keys: set<int>)
    ensures |Last(keys)| <= KEEP
  {
    var versions := InOrder(Less, keys);
    SortedListing(Less, keys, Listing(keys));
    DistinctSorted(versions, keys);
    LastIs(versions);
  }

  lemma SweptFew(disk: Disk)
    ensures |Swept(disk).Keys| <= KEEP
  {
    LastFew(disk.Keys);
    assert Swept(disk).Keys == Last(disk.Keys);
  }

  lemma PutFiled(parse: Parsers, disk: Disk, raw: Raw)
    requires Filed(parse, disk) && ValidRaw(parse, raw)
    ensures Filed(parse, disk[raw.envelope.version := raw])
  {
  }

  /** An installation keeps the store sound if what it writes survives its sweep. */
  lemma InstallSound(parse: Parsers, s: State, raw: Raw)
    requires Sound(parse, s) && ValidRaw(parse, raw) && |Above(s.disk.Keys, raw.envelope.version)| < KEEP
    ensures Sound(parse, Installed(parse, s, raw, AllWork))
  {
    PutFiled(parse, s.disk, raw);
    InstalledSurvives(parse, s, raw);
  }

  /** The version an installing command would put in force. */
  ghost predicate Crowded(parse: Parsers, s: State, c: Command) {
    c.Install? && Refuses(parse, s, c.m, c.raw, c.force).None? && |Above(s.disk.Keys, c.raw.envelope.version)| >= KEEP
  }

  /** Crashes and failed writes included, one thing alone can make the pointer dangle: an
      installation finding KEEP or more versions above its own on disk; and that always does. */
  lemma StepSound(parse: Parsers, s: State, c: Command)
    requires Sound(parse, s)
    ensures Sound(parse, Step(parse, s, c)) <==> !Crowded(parse, s, c)
  {
    match c {
      case Install(m, raw, force) =>
        if Refuses(parse, s, m, raw, force).None? {
          InstalledSurvives(parse, s, raw);
          if !Crowded(parse, s, c) {
            InstallSound(parse, s, raw);
          }
        }
      case FailInstall(m, raw, force, writes) =>
        if Refuses(parse, s, m, raw, force).None? && writes == PointerFails {
          FailedFileSound(parse, s, m, raw, force);
        }
      case StopBeforeSweep(m, raw, force) =>
        if Refuses(parse, s, m, raw, force).None? {
          PutFiled(parse, s.disk, raw);
        }
      case Restart =>
      case Rollback =>
    }
  }

  /** A file written without its pointer leaves the set in force alone: its version is higher. */
  lemma FailedFileSound(parse: Parsers, s: State, m: Option<Manifest>, raw: Raw, force: bool)
    requires Sound(parse, s) && Refuses(parse, s, m, raw, force).None?
    ensures Sound(parse, Installed(parse, s, raw, PointerFails))
  {
    PutFiled(parse, s.disk, raw);
    assert raw.envelope.version > VersionOf(s.inForce);
  }

  lemma StepTidy(parse: Parsers, s: State, c: Command)
    requires Sound(parse, s) && Tidy(s) && Undisturbed(c)
    ensures Sound(parse, Step(parse, s, c)) && Tidy(Step(parse, s, c))
  {
    if c.Install? && Refuses(parse, s, c.m, c.raw, c.force).None? {
      RoomAbove(parse, s, c.raw.envelope.version);
      SweptFew(s.disk[c.raw.envelope.version := c.raw]);
    }
    StepSound(parse, s, c);
  }

  /** From an empty directory, after any run of installations, rollbacks and restarts that
      nothing interrupts, the set in force is the pointer's, its file is on disk, and at
      most KEEP versions are kept. */
  lemma {:induction false} NeverDangles(parse: Parsers, cs: seq<Command>)
    requires forall c | c in cs :: Undisturbed(c)
    ensures Sound(parse, Run(parse, EMPTY, cs)) && Tidy(Run(parse, EMPTY, cs))
  {
    if cs != [] {
      NeverDangles(parse, cs[..|cs| - 1]);
      StepTidy(parse, Run(parse, EMPTY, cs[..|cs| - 1]), cs[|cs| - 1]);
    }
  }

  /** Restarting after such a run puts the very same set in force. */
  lemma RestartChangesNothing(parse: Parsers, cs: seq<Command>)
    requires forall c | c in cs :: Undisturbed(c)
    ensures Reopened(parse, Run(parse, EMPTY, cs)) == Run(parse, EMPTY, cs)
  {
    NeverDangles(parse, cs);
  }

  /** Rolling back after such a run reaches the greatest kept version below, and loads it. */
  lemma RollbackReaches(parse: Parsers, cs: seq<Command>, v: int)
    requires forall c | c in cs :: Undisturbed(c)
    requires var s := Run(parse, EMPTY, cs); v in s.disk && v < VersionOf(s.inForce)
    ensures var s := Run(parse, EMPTY, cs);
            var back := Step(parse, s, Rollback);
            && v <= VersionOf(back.inForce) < VersionOf(s.inForce)
            && back.pointer == Some(VersionOf(back.inForce)) && back.disk == s.disk
  {
    NeverDangles(parse, cs);
  }

  /** Whether the command asks for a smaller set to be taken too. */
  predicate Forced(c: Command) {
    match c
    case Install(_, _, force) => force
    case StopBeforeSweep(_, _, force) => force
    case _ => false
  }

  /** In a sound store nothing but a rollback or a forced installation takes the set in
      force away, lowers its version, or loses more than half of its networks or of its
      protected rows: a crash and a restart included. */
  lemma NeverHalves(parse: Parsers, s: State, c: Command)
    requires Sound(parse, s) && s.inForce.Some? && !c.Rollback? && !Forced(c)
    ensures var was := s.inForce.value;
            var now := Step(parse, s, c).inForce;
            && now.Some? && now.value.version >= was.version
            && now.value.networks * 2 >= was.networks
            && now.value.protectedRows * 2 >= was.protectedRows
  {
    if c.StopBeforeSweep? && Refuses(parse, s, c.m, c.raw, c.force).None? {
      PutFiled(parse, s.disk, c.raw);
    }
  }

  // ---------------------------------------------------------------- the way it can dangle

  /** A document of no rows: the smallest valid set. */
  function Bare(version: int): Raw {
    Decoded(Envelope(FORMAT_VERSION, version, [], []))
  }

  function Genuine(version: int): Option<Manifest> {
    Some(Manifest(version, true, true))
  }

  /** An installation whose pointer is never written leaves only its file behind. */
  lemma LeavesItsFile(parse: Parsers, s: State, version: int)
    requires version >= 1 && version > VersionOf(s.inForce)
    requires s.inForce.Some? ==> s.inForce.value.networks == 0 && s.inForce.value.protectedRows == 0
    ensures Step(parse, s, FailInstall(Genuine(version), Bare(version), false, PointerFails))
            == s.(disk := s.disk[version := Bare(version)])
  {
  }

  /** Three versions or more above it, and an accepted installation removes its own file. */
  lemma RemovesItsFile(parse: Parsers, s: State, version: int)
    requires version >= 1 && version > VersionOf(s.inForce)
    requires s.inForce.Some? ==> s.inForce.value.networks == 0 && s.inForce.value.protectedRows == 0
    requires |Above(s.disk.Keys, version)| >= KEEP
    ensures var end := Step(parse, s, Install(Genuine(version), Bare(version), false));
            end.pointer == Some(version) && version !in end.disk
  {
    InstalledSurvives(parse, s, Bare(version));
  }

  /** With room for it, an installation adds its file and sweeps nothing. */
  lemma InstallsBare(parse: Parsers, s: State, version: int)
    requires version >= 1 && version > VersionOf(s.inForce) && |s.disk.Keys + {version}| <= KEEP
    requires s.inForce.Some? ==> s.inForce.value.networks == 0 && s.inForce.value.protectedRows == 0
    ensures Step(parse, s, Install(Genuine(version), Bare(version), false))
            == State(s.disk[version := Bare(version)], Some(version), Some(Summary(version, 0, 0)))
  {
    BareIsValid(parse, version);
    var disk := s.disk[version := Bare(version)];
    assert disk.Keys == s.disk.Keys + {version};
    NothingSwept(disk);
  }

  lemma NothingSwept(disk: Disk)
    requires |disk.Keys| <= KEEP
    ensures Swept(disk) == disk
  {
    forall v | v in disk
      ensures |Above(disk.Keys, v)| < KEEP
    {
      SubsetCount(Above(disk.Keys, v), disk.Keys - {v});
    }
    assert Last(disk.Keys) == disk.Keys;
  }

  lemma BareIsValid(parse: Parsers, version: int)
    requires version >= 1
    ensures ValidRaw(parse, Bare(version)) && SummaryOf(parse, Bare(version)) == Some(Summary(version, 0, 0))
  {
  }

  /** The store with 5, 6 and 7 on disk, and the given one of them in force. */
  function ThreeOnDisk(version: int): State {
    State(map[5 := Bare(5), 6 := Bare(6), 7 := Bare(7)], Some(version), Some(Summary(version, 0, 0)))
  }

  lemma RollsBackOne(parse: Parsers, version: int)
    requires version in {6, 7}
    ensures Step(parse, ThreeOnDisk(version), Rollback) == ThreeOnDisk(version - 1)
  {
    var keys := ThreeOnDisk(version).disk.Keys;
    assert keys == {5, 6, 7};
    assert version - 1 in keys;
    assert Target(keys, version) == version - 1;
    BareIsValid(parse, version - 1);
  }

  /** Installing 5, 6 and 7, and rolling back twice. */
  function ToFive(): seq<Command> {
    Installs() + [Rollback, Rollback]
  }

  function Installs(): seq<Command> {
    [Install(Genuine(5), Bare(5), false), Install(Genuine(6), Bare(6), false), Install(Genuine(7), Bare(7), false)]
  }

  lemma RunNext(parse: Parsers, s: State, cs: seq<Command>, c: Command)
    ensures Run(parse, s, cs + [c]) == Step(parse, Run(parse, s, cs), c)
  {
    PushInit(cs, c);
  }

  lemma RunThree(parse: Parsers, s: State, a: Command, b: Command, c: Command, t: State, u: State, v: State)
    requires Step(parse, s, a) == t && Step(parse, t, b) == u && Step(parse, u, c) == v
    ensures Run(parse, s, [a, b, c]) == v
  {
    var none: seq<Command> := [];
    RunNext(parse, s, none, a);
    RunNext(parse, s, none + [a], b);
    RunNext(parse, s, none + [a] + [b], c);
    assert none + [a] + [b] + [c] == [a, b, c];
  }

  function OneOnDisk(): State {
    State(map[5 := Bare(5)], Some(5), Some(Summary(5, 0, 0)))
  }

  function TwoOnDisk(): State {
    State(map[5 := Bare(5), 6 := Bare(6)], Some(6), Some(Summary(6, 0, 0)))
  }

  lemma FiveInstalled(parse: Parsers)
    ensures Step(parse, EMPTY, Installs()[0]) == OneOnDisk()
  {
    assert EMPTY.disk.Keys + {5} == {5};
    InstallsBare(parse, EMPTY, 5);
  }

  lemma SixInstalled(parse: Parsers)
    ensures Step(parse, OneOnDisk(), Installs()[1]) == TwoOnDisk()
  {
    assert OneOnDisk().disk.Keys + {6} == {5, 6};
    InstallsBare(parse, OneOnDisk(), 6);
    assert OneOnDisk().disk[6 := Bare(6)] == TwoOnDisk().disk;
  }

  lemma SevenInstalled(parse: Parsers)
    ensures Step(parse, TwoOnDisk(), Installs()[2]) == ThreeOnDisk(7)
  {
    assert TwoOnDisk().disk.Keys + {7} == {5, 6, 7};
    InstallsBare(parse, TwoOnDisk(), 7);
    assert TwoOnDisk().disk[7 := Bare(7)] == ThreeOnDisk(7).disk;
  }

  lemma ThreeInstalled(parse: Parsers)
    ensures Run(parse, EMPTY, Installs()) == ThreeOnDisk(7)
  {
    FiveInstalled(parse);
    SixInstalled(parse);
    SevenInstalled(parse);
    RunThree(parse, EMPTY, Installs()[0], Installs()[1], Installs()[2], OneOnDisk(), TwoOnDisk(), ThreeOnDisk(7));
  }

  lemma ReachesFive(parse: Parsers)
    ensures Run(parse, EMPTY, ToFive()) == ThreeOnDisk(5)
  {
    ThreeInstalled(parse);
    RunNext(parse, EMPTY, Installs(), Rollback);
    RunNext(parse, EMPTY, Installs() + [Rollback], Rollback);
    assert Installs() + [Rollback] + [Rollback] == ToFive();
    RollsBackOne(parse, 7);
    RollsBackOne(parse, 6);
  }

  /** Rolled back to 5 with 6 and 7 still on disk, two installations interrupted before the
      pointer leave 8 and 9 behind; installing 6 then removes its own file. */
  lemma TwoCrashesDangle(parse: Parsers)
    ensures var s := Run(parse, EMPTY, ToFive());
            && (forall c | c in ToFive() :: Undisturbed(c)) && Sound(parse, s) && Tidy(s)
            && var a := Step(parse, s, FailInstall(Genuine(8), Bare(8), false, PointerFails));
               var b := Step(parse, a, FailInstall(Genuine(9), Bare(9), false, PointerFails));
               var end := Step(parse, b, Install(Genuine(6), Bare(6), false));
               end.pointer == Some(6) && 6 !in end.disk
  {
    ReachesFive(parse);
    NeverDangles(parse, ToFive());
    FiveDangles(parse, ThreeOnDisk(5));
  }

  lemma FiveDangles(parse: Parsers, s: State)
    requires s == ThreeOnDisk(5)
    ensures var a := Step(parse, s, FailInstall(Genuine(8), Bare(8), false, PointerFails));
            var b := Step(parse, a, FailInstall(Genuine(9), Bare(9), false, PointerFails));
            var end := Step(parse, b, Install(Genuine(6), Bare(6), false));
            end.pointer == Some(6) && 6 !in end.disk
  {
    LeavesItsFile(parse, s, 8);
    var a := s.(disk := s.disk[8 := Bare(8)]);
    LeavesItsFile(parse, a, 9);
    var b := a.(disk := a.disk[9 := Bare(9)]);
    assert Above(b.disk.Keys, 6) == {7, 8, 9};
    RemovesItsFile(parse, b, 6);
  }

  // ---------------------------------------------------------------- what is refused

  /** The set a document describes is smaller by more than half than the one in force, in its
      networks or in its protected rows. */
  ghost predicate LessThanHalf(was: Summary, now: Summary) {
    now.networks + now.networks < was.networks || now.protectedRows + now.protectedRows < was.protectedRows
  }

  /** An installation goes through exactly when the manifest is there, trusted and above the
      version in force, describes the bytes, the document is in order and of that version, and
      it is not smaller by more than half, unless it is forced. The reason given is the first
      of these that fails. */
  lemma RefusedExactly(parse: Parsers, s: State, m: Option<Manifest>, raw: Raw, force: bool)
    ensures var why := Refuses(parse, s, m, raw, force);
            var current := match s.inForce case None => 0 case Some(was) => was.version;
            var here := m.Some?;
            var trusted := here && m.value.trusted;
            var above := trusted && m.value.version > current;
            var described := above && m.value.describes;
            var parsed := described && ValidRaw(parse, raw);
            var same := parsed && raw.envelope.version == m.value.version;
            var kept :=
              same && (force || s.inForce.None? || !LessThanHalf(s.inForce.value, SummaryOf(parse, raw).value));
            && (why == None <==> kept)
            && (why == Some(NoManifest) <==> !here) && (why == Some(NotTrusted) <==> here && !trusted)
            && (why == Some(NotAbove) <==> trusted && !above) && (why == Some(NotDescribed) <==> above && !described)
            && (why == Some(NotASet) <==> described && !parsed) && (why == Some(OtherVersion) <==> parsed && !same)
            && (why == Some(Shrunk) <==> same && !kept)
  {
  }
}
