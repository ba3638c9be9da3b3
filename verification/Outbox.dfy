/** The outbox and the sender of internal/aggregate: formed batches on disk under their
    keys, the oldest thrown away past a limit, and posted oldest first. */
module Outbox {
  import opened Wrappers
  import opened Ordering
  import opened Sequences
  import opened Packing

  type Files<C> = map<int, Batch<C>>

  /** How a write of a new batch goes. */
  datatype Disk = Fine | Refused

  /** The batch keys, oldest first. */
  ghost function Keys<C>(files: Files<C>): seq<int> {
    InOrder(Earlier, files.Keys)
  }

  function Excess(n: nat, limit: nat): (e: nat)
    ensures e <= n
  {
    if n > limit then n - limit else 0
  }

  /** The keys thrown away when the outbox is over its limit: the oldest. */
  ghost function Oldest<C>(files: Files<C>, limit: nat): set<int> {
    Members(Keys(files)[..Excess(|Keys(files)|, limit)])
  }

  /** A batch already there is kept; a new one is stored and the outbox trimmed. */
  ghost function Put<C>(files: Files<C>, b: Batch<C>, disk: Disk, limit: nat): (Files<C>, bool) {
    if b.key in files then (files, true)
    else if disk == Refused then (files, false)
    else
      var stored := files[b.key := b];
      (stored - Oldest(stored, limit), true)
  }

  lemma LaterGreater(keys: seq<int>, e: nat, k: int, gone: int)
    requires RisingKeys(keys) && e <= |keys| && k in keys[e..] && gone in keys[..e]
    ensures gone < k
  {
    var i :| 0 <= i < |keys[e..]| && keys[e..][i] == k;
    var j :| 0 <= j < |keys[..e]| && keys[..e][j] == gone;
    assert keys[e + i] == k && keys[j] == gone;
  }

  /** Of rising keys, those past the first e are the greater ones. */
  lemma RisingSplit(keys: seq<int>, e: nat)
    requires RisingKeys(keys) && e <= |keys|
    ensures forall k, gone | k in Members(keys[e..]) && gone in Members(keys[..e]) :: gone < k
  {
    forall k, gone | k in Members(keys[e..]) && gone in Members(keys[..e])
      ensures gone < k
    {
      LaterGreater(keys, e, k, gone);
    }
  }

  lemma MinusKeys<V>(m: map<int, V>, gone: set<int>, kept: set<int>)
    requires m.Keys == gone + kept && gone !! kept
    ensures (m - gone).Keys == kept
  {
  }

  /** The newest batches, up to the limit. */
  ghost predicate KeepsNewest<C>(stored: Files<C>, limit: nat, left: Files<C>) {
    && (forall k | k in left :: k in stored && left[k] == stored[k])
    && |left.Keys| == (if |stored.Keys| < limit then |stored.Keys| else limit)
    && (forall k, gone | k in left && gone in stored && gone !in left :: gone < k)
  }

  lemma TrimKeepsNewest<C>(stored: Files<C>, limit: nat)
    ensures KeepsNewest(stored, limit, stored - Oldest(stored, limit))
  {
    var keys := Keys(stored);
    var e := Excess(|keys|, limit);
    AscendingRises(stored.Keys);
    RisingSplit(keys, e);
    SplitMembers(keys, e);
    DistinctCount(keys);
    MinusKeys(stored, Members(keys[..e]), Members(keys[e..]));
  }

  /** Storing a new batch keeps the newest, up to the limit, and changes none of them. */
  lemma PutKeepsNewest<C>(files: Files<C>, b: Batch<C>, limit: nat)
    requires b.key !in files
    ensures Put(files, b, Fine, limit).1
    ensures KeepsNewest(files[b.key := b], limit, Put(files, b, Fine, limit).0)
  {
    TrimKeepsNewest(files[b.key := b], limit);
  }

  lemma MembersNext<T>(s: seq<T>, i: nat)
    requires i < |s|
    ensures Members(s[..i + 1]) == Members(s[..i]) + {s[i]}
  {
    assert s[..i + 1] == s[..i] + [s[i]];
  }

  class Box<C> {
    const limit: nat
    var files: Files<C>

    constructor (limit: nat)
      ensures this.limit == limit && files == map[]
    {
      this.limit := limit;
      files := map[];
    }

    method List() returns (ids: seq<int>)
      ensures ids == Keys(files)
    {
      var listing := Collect(files.Keys);
      SortedListing(Earlier, files.Keys, listing);
      ids := Sort(Earlier, listing);
    }

    method Store(b: Batch<C>, disk: Disk) returns (ok: bool)
      modifies this
      ensures (files, ok) == Put(old(files), b, disk, limit)
    {
      if b.key in files {
        return true;
      }
      if disk == Refused {
        return false;
      }
      files := files[b.key := b];
      Trim();
      return true;
    }

    /** Throws away the oldest batches past the limit. */
    method Trim()
      modifies this
      ensures files == old(files) - Oldest(old(files), limit)
    {
      var ids := List();
      var extra := Excess(|ids|, limit);
      var all, kept := files, files;
      for i := 0 to extra
        invariant kept == all - Members(ids[..i])
      {
        MembersNext(ids, i);
        kept := kept - {ids[i]};
      }
      files := kept;
    }

    method Remove(id: int)
      modifies this
      ensures files == old(files) - {id}
    {
      files := files - {id};
    }
  }

  // ---------------------------------------------------------------- sending

  const MINUTE := 60 * 1_000_000_000
  const RETRY_AFTER_UNAUTHORIZED := 60 * MINUTE
  const RETRY_AFTER_MAX := 30 * MINUTE
  const MAX_FAILURES := 20

  /** What becomes of one batch: it cannot be read from disk, or the answer to the post. */
  datatype Outcome = Unreadable | Accepted | Rejected | Unauthorized | Retry

  function Shifted(base: nat, n: nat): (r: nat)
    ensures r >= base
  {
    if n == 0 then base else 2 * Shifted(base, n - 1)
  }

  /** The delay after `failures` failed attempts in a row. */
  function Delay(failures: nat): (delay: nat)
    requires failures > 0
    ensures delay > 0
  {
    var delay := Shifted(MINUTE, failures - 1);
    if delay > RETRY_AFTER_MAX then RETRY_AFTER_MAX else delay
  }

  /** 1, 2, 4, 8, 16 minutes and then half an hour for ever: the delay never shrinks, and
      the shift stays far inside 64 bits. */
  lemma {:induction false} DelayGrows(failures: nat)
    requires 0 < failures <= MAX_FAILURES
    ensures MINUTE <= Delay(failures) <= RETRY_AFTER_MAX
    ensures Shifted(MINUTE, failures - 1) < 0x8000_0000_0000_0000
    ensures Delay(failures) == MINUTE * if failures < 6 then [1, 2, 4, 8, 16][failures - 1] else 30
    ensures failures >= 6 <==> Delay(failures) == RETRY_AFTER_MAX
    ensures failures > 1 ==> Delay(failures - 1) <= Delay(failures)
  {
    ShiftedBounds(failures - 1);
    if failures > 1 {
      ShiftedBounds(failures - 2);
    }
  }

  lemma {:induction false} ShiftedBounds(n: nat)
    requires n < MAX_FAILURES
    ensures MINUTE <= Shifted(MINUTE, n)
    ensures n <= 4 ==> Shifted(MINUTE, n) <= 16 * MINUTE
    ensures n >= 5 ==> Shifted(MINUTE, n) >= 32 * MINUTE
    ensures Shifted(MINUTE, n) <= MINUTE * (if n < 10 then 512 else 524288)
  {
    var s0, s1, s2 := Shifted(MINUTE, 0), Shifted(MINUTE, 1), Shifted(MINUTE, 2);
    var s3, s4 := Shifted(MINUTE, 3), Shifted(MINUTE, 4);
    assert s4 == 16 * MINUTE;
    if n > 4 {
      ShiftedFrom(5, n);
      var s5, s9 := Shifted(MINUTE, 5), Shifted(MINUTE, 9);
      assert s9 == 512 * MINUTE;
      ShiftedFrom(n, if n < 10 then 9 else 19);
      assert Shifted(MINUTE, 14) == 16384 * MINUTE;
      assert Shifted(MINUTE, 19) == 524288 * MINUTE;
    }
  }

  lemma {:induction false} ShiftedFrom(a: nat, b: nat)
    requires a <= b
    ensures Shifted(MINUTE, a) <= Shifted(MINUTE, b)
  {
    if a < b {
      ShiftedFrom(a, b - 1);
    }
  }

  /** What is left, what was taken off by each answer, and when to go on; a delay of zero
      means the next batch comes at once. */
  datatype Drained<C> = Drained(left: Files<C>, accepted: seq<Batch<C>>, dropped: seq<Batch<C>>, failures: nat,
                                delay: nat) {
    function Then(next: Drained<C>): Drained<C> {
      Drained(next.left, accepted + next.accepted, dropped + next.dropped, next.failures, next.delay)
    }
  }

  function Bumped(failures: nat): (f: nat)
    ensures f > 0
  {
    if failures < MAX_FAILURES then failures + 1 else failures
  }

  /** One batch, by what became of it. */
  function PostOne<C>(files: Files<C>, id: int, outcome: Outcome, failures: nat): Drained<C> {
    if id !in files then Drained(files, [], [], failures, 0)  // trimmed meanwhile
    else match outcome
      case Unreadable => Drained(files - {id}, [], [files[id]], failures, 0)
      case Accepted => Drained(files - {id}, [files[id]], [], 0, 0)
      case Rejected => Drained(files - {id}, [], [files[id]], 0, 0)
      case Unauthorized => Drained(files, [], [], failures, RETRY_AFTER_UNAUTHORIZED)
      case Retry => Drained(files, [], [], Bumped(failures), Delay(Bumped(failures)))
  }

  /** Posts the listed batches in order until one is not taken. */
  function Drain<C>(files: Files<C>, ids: seq<int>, post: int -> Outcome, failures: nat): Drained<C>
    decreases |ids|
  {
    if ids == [] then Drained(files, [], [], failures, 0)
    else
      var one := PostOne(files, ids[0], post(ids[0]), failures);
      if one.delay > 0 then one else one.Then(Drain(one.left, ids[1..], post, one.failures))
  }

  lemma ThenLaws<C>(a: Drained<C>, b: Drained<C>, c: Drained<C>)
    ensures a.Then(b).Then(c) == a.Then(b.Then(c))
    ensures b.accepted == [] && b.dropped == [] ==> b.Then(c) == c
    ensures c == Drained(b.left, [], [], b.failures, b.delay) ==> b.Then(c) == b
  {
  }

  /** The batches that got this answer, in order. */
  function WithAnswer<C>(files: Files<C>, ids: seq<int>, answer: int -> bool): seq<Batch<C>> {
    if ids == [] then []
    else
      (if ids[0] in files && answer(ids[0]) then [files[ids[0]]] else []) + WithAnswer(files, ids[1..], answer)
  }

  /** The cloud took it in or turned it away for good, and so it answered. */
  predicate Received(outcome: Outcome) {
    outcome == Accepted || outcome == Rejected
  }

  predicate Finished(outcome: Outcome) {
    Received(outcome) || outcome == Unreadable
  }

  ghost predicate AnyReceived(ids: seq<int>, post: int -> Outcome) {
    exists i | 0 <= i < |ids| :: Received(post(ids[i]))
  }

  /** What a drain that stops at the k-th batch leaves behind. */
  ghost predicate StopsAt<C>(files: Files<C>, ids: seq<int>, post: int -> Outcome, failures: nat, k: nat,
                             d: Drained<C>)
  {
    && k <= |ids| && (forall i | 0 <= i < k :: Finished(post(ids[i]))) && (k < |ids| ==> !Finished(post(ids[k])))
    && d.left == files - Members(ids[..k])
    && d.accepted == WithAnswer(files, ids[..k], id => post(id) == Accepted)
    && d.dropped == WithAnswer(files, ids[..k], id => post(id) != Accepted)
    && var before := if AnyReceived(ids[..k], post) then 0 else failures;
       if k == |ids| then d.delay == 0 && d.failures == before
       else if post(ids[k]) == Unauthorized then d.delay == 60 * MINUTE && d.failures == before
       else d.failures == Bumped(before) && d.delay == Delay(d.failures)
  }

  lemma {:induction false} WithAnswerAlike<C>(files: Files<C>, gone: int, ids: seq<int>, answer: int -> bool)
    requires gone !in ids
    ensures WithAnswer(files - {gone}, ids, answer) == WithAnswer(files, ids, answer)
  {
    if ids != [] {
      assert ids[0] in ids && forall id | id in ids[1..] :: id in ids;
      WithAnswerAlike(files, gone, ids[1..], answer);
    }
  }

  lemma FirstTaken<T>(s: seq<T>, k: nat)
    requires s != [] && k < |s|
    ensures s[..k + 1] != [] && s[..k + 1][0] == s[0] && s[..k + 1][1..] == s[1..][..k]
    ensures Members(s[..k + 1]) == {s[0]} + Members(s[1..][..k])
  {
    assert s[..k + 1] == [s[0]] + s[1..][..k];
  }

  lemma AnyReceivedFirst(ids: seq<int>, post: int -> Outcome)
    requires ids != []
    ensures AnyReceived(ids, post) <==> Received(post(ids[0])) || AnyReceived(ids[1..], post)
  {
    if AnyReceived(ids[1..], post) {
      var i :| 0 <= i < |ids[1..]| && Received(post(ids[1..][i]));
      assert Received(post(ids[i + 1]));
    }
  }

  /** A drain takes off, in order, the batches up to the first that has to wait: those accepted
      are sent, those turned away or unreadable are dropped, the others are left as they were;
      an answer from the cloud ends a row of failures, and what stopped it tells the delay. */
  lemma {:induction false} DrainExact<C>(files: Files<C>, ids: seq<int>, post: int -> Outcome, failures: nat)
    returns (k: nat)
    requires Distinct(ids) && forall id | id in ids :: id in files
    ensures StopsAt(files, ids, post, failures, k, Drain(files, ids, post, failures))
    decreases |ids|
  {
    if ids == [] || !Finished(post(ids[0])) {
      k := 0;
      assert ids[..0] == [] && files - {} == files;
    } else {
      var one := PostOne(files, ids[0], post(ids[0]), failures);
      assert forall i | 0 <= i < |ids[1..]| :: ids[1..][i] == ids[i + 1];
      k := DrainExact(one.left, ids[1..], post, one.failures);
      DrainStep(files, ids, post, failures, one, k);
      k := k + 1;
    }
  }

  lemma DrainStep<C>(files: Files<C>, ids: seq<int>, post: int -> Outcome, failures: nat, one: Drained<C>, k: nat)
    requires ids != [] && Distinct(ids) && forall id | id in ids :: id in files
    requires one == PostOne(files, ids[0], post(ids[0]), failures) && Finished(post(ids[0]))
    requires StopsAt(one.left, ids[1..], post, one.failures, k, Drain(one.left, ids[1..], post, one.failures))
    ensures StopsAt(files, ids, post, failures, k + 1, Drain(files, ids, post, failures))
  {
    var rest := ids[1..];
    var d := Drain(one.left, rest, post, one.failures);
    assert ids[0] in ids && one.left == files - {ids[0]};
    assert Drain(files, ids, post, failures) == one.Then(d);
    FirstTaken(ids, k);
    StepTaken(files, ids, k, id => post(id) == Accepted);
    StepTaken(files, ids, k, id => post(id) != Accepted);
    StepLeaves(files, ids[0], Members(rest[..k]));
    AnyReceivedFirst(ids[..k + 1], post);
    StepFinished(ids, k, post);
  }

  lemma StepTaken<C>(files: Files<C>, ids: seq<int>, k: nat, answer: int -> bool)
    requires ids != [] && Distinct(ids) && ids[0] in files && k < |ids|
    ensures WithAnswer(files, ids[..k + 1], answer)
            == (if answer(ids[0]) then [files[ids[0]]] else [])
               + WithAnswer(files - {ids[0]}, ids[1..][..k], answer)
  {
    FirstTaken(ids, k);
    WithAnswerAlike(files, ids[0], ids[1..][..k], answer);
  }

  lemma StepLeaves<C>(files: Files<C>, first: int, rest: set<int>)
    ensures files - {first} - rest == files - ({first} + rest)
  {
  }

  lemma StepFinished(ids: seq<int>, k: nat, post: int -> Outcome)
    requires ids != [] && k < |ids| && Finished(post(ids[0]))
    requires forall i | 0 <= i < k :: Finished(post(ids[1..][i]))
    ensures forall i | 0 <= i < k + 1 :: Finished(post(ids[i]))
  {
    assert forall i | 0 < i < |ids| :: ids[i] == ids[1..][i - 1];
  }

  class Sender<C> {
    const outbox: Box<C>
    var failures: nat

    constructor (outbox: Box<C>)
      ensures this.outbox == outbox && failures == 0
    {
      this.outbox := outbox;
      failures := 0;
    }

    method Backoff() returns (delay: nat)
      modifies this
      ensures failures == Bumped(old(failures)) && delay == Delay(failures)
    {
      if failures < MAX_FAILURES {
        failures := failures + 1;
      }
      delay := Shifted(MINUTE, failures - 1);
      if delay > RETRY_AFTER_MAX {
        delay := RETRY_AFTER_MAX;
      }
    }

    /** Takes one batch through its post. */
    method Post(id: int, outcome: Outcome) returns (delay: nat)
      modifies this, outbox
      ensures var d := PostOne(old(outbox.files), id, outcome, old(failures));
              outbox.files == d.left && failures == d.failures && delay == d.delay
    {
      delay := 0;
      if id in outbox.files {
        match outcome {
          case Unreadable =>
            outbox.Remove(id);
          case Accepted =>
            failures := 0;
            outbox.Remove(id);
          case Rejected =>
            failures := 0;
            outbox.Remove(id);
          case Unauthorized =>
            delay := RETRY_AFTER_UNAUTHORIZED;
          case Retry =>
            delay := Backoff();
        }
      }
    }

    /** Posts what is in the outbox, oldest first, one at a time, until one is not taken. */
    method DrainAll(post: int -> Outcome) returns (delay: nat)
      modifies this, outbox
      ensures var d := Drain(old(outbox.files), Keys(old(outbox.files)), post, old(failures));
              outbox.files == d.left && failures == d.failures && delay == d.delay
    {
      var ids := outbox.List();
      ghost var whole := Drain(outbox.files, ids, post, failures);
      ghost var before := Drained(outbox.files, [], [], failures, 0);
      var i := 0;
      while i < |ids|
        invariant i <= |ids|
        invariant whole == before.Then(Drain(outbox.files, ids[i..], post, failures))
      {
        ghost var one := PostOne(outbox.files, ids[i], post(ids[i]), failures);
        ghost var rest := Drain(one.left, ids[i + 1..], post, one.failures);
        assert ids[i..][1..] == ids[i + 1..];
        delay := Post(ids[i], post(ids[i]));
        if delay > 0 {
          return;
        }
        ThenLaws(before, one, rest);
        before := before.Then(one);
        i := i + 1;
      }
      return 0;
    }
  }
}
