# The node's state machines and arithmetic, modelled and proved

The node stands in front of a web site. It fingerprints each connection, looks the
client up in a base of facts, decides about the request by the owner's rules, counts it
for an aggregate that goes to the cloud, and tells the owner when something is wrong.
This project models the parts of it that count, limit, decide, index and parse, and
proves that each clever form does what its simple specification says: on every input,
over every run.

* **Aggregate pipeline** (`Counters`, `CounterLaws`, `Folding`, `Window`, `WindowContents`,
  `Packing`, `Outbox`, `Pipeline*`, `Sending`, `Aggregator`, `CrashSafety`, `Sketch`). Events
  are counted in five-minute windows, windows close into bounded rows, the largest first,
  plus one folded row, closed windows are packed into batches, batches wait in a bounded
  outbox and are sent in order while new ones are put. Over every run each window, and each
  batch there is, holds exactly the events that belong to it; over every crash-free run every
  count is in one place, but for batches accepted after the outbox had given them up, and the
  cloud sees the batches in order.
  With crashes, the snapshots after which no window can be counted twice are known exactly.
  The distinct-value sketch is a function of the set of hashes alone.
* **Rules, limiter, replay** (`Condition`, `Rule`, `RuleSet*`, `Decisions`, `Limit*`,
  `Replay*`, `RulesFile`, `Proposals`). Conditions compile to matchers that mean what the tree
  says; the deciding rule is characterised without any order of lines, and so is what every
  request of a stream gets; shadow rules never touch a decision or the limiter; the ring
  limiter is a sliding log in bounded memory; every number of a replay's report is what it
  counts; a replay reproduces every
  decision when the log keeps the order within each limiter key, and two neighbours can be
  exchanged in every state just when they are on different keys.
* **Facts** (`Net`, `Catalog`, `FactStore*`). The longest-prefix index equals a scan; the
  versioned store never dangles over undisturbed runs, and exactly one situation makes it
  dangle when runs are disturbed.
* **Wire parsers** (`Sniffer*`, `Cursor`, `Hello*`, `JA4`). The HTTP/2 sniffer captures of an
  encoded connection just what its frames say, does not depend on how the stream was cut, and
  the streams of which that holds are known exactly;
  the ClientHello parser undoes its encoding, fails on exactly the records it should and
  reads nothing of the outer hello from inside an extension; JA4 keeps and forgets exactly
  what it promises.
* **Alerts and latency** (`Minutes`, `Alarms`, `AlarmLaws`, `Latency`). The minute ring is
  exact where it is used; firing and resolved alternate; a percentile is off by at most a
  quarter.

Code that changes state is modelled as classes and loops and proved against specification
functions over values; the properties are lemmas about those functions. `Wrappers`,
`Ordering`, `Sequences`, `Sums`, `Keys`, `Bytes` and `Net` hold what the modules share.
`dafny verify dfyconfig.toml` checks everything.

## Where the code and its documentation part

* The comment at `internal/aggregate/aggregator.go:371-374` says that nothing is counted
  twice after a crash. It holds over every run whose crashes meet a guard on the snapshot
  and the batches handed over (`CrashSafety.AtMostOnce`). At a crash that does not meet it,
  some continuation counts a window twice, and otherwise none does
  (`CrashSafety.CrashSafeExactly`): a window still open in the snapshot must have gone out
  only as the first of its batch, and must have no room in one batch with what comes before
  it in the snapshot. A run that counts a window twice is
  `CrashSafety.OlderSnapshotCountsTwice`. Windows that join a last batch whose key the cloud
  already has are lost; how many is `CrashSafety.CrashCosts`, and when none are is
  `CrashSafety.NothingLost`.
* A batch pushed out of a full outbox while it is being posted counts as trimmed, and the
  cloud may still accept it (`internal/aggregate/outbox.go:66-74`,
  `internal/aggregate/sender.go:110-148`): `Sending.FullOutboxTooLate`. That is the only
  way for a batch to be in two places (`PipelineRuns.TwiceExactly`).
* The comment at `internal/rules/condition.go:322-324` says that `Contains` on an unmasked
  prefix answers differently. It does not: `Net.MaskingKeeps`.
* `internal/rules/set.go:143-146` counts under the id, a NUL and the value, and nothing
  refuses a NUL in an id: `RuleSetLaws.KeysCollide`, `RuleSetLaws.NulInIdCollides`.
* `internal/replay/replay.go:77-79` asks for the order things happened in; the log is
  written when a request completes. The order within each limiter key is enough
  (`ReplayOrder.KeyOrderReproduces`). Two neighbours can be exchanged in every state just
  when they do not ask on one key (`ReplayOrder.NeighboursExact`), and a log that has two
  on one key the wrong way round diverges (`ReplayOrder.CompletionOrderDiverges`).
* A record cut short inside its handshake message is reported as "not a hello", and
  "truncated" means a whole message whose inside is out of order
  (`internal/tlsfp/hello.go:57-65`): `HelloErrors.CutShort`, `HelloErrors.ErrorsExact`.
* Of a padded HEADERS frame the sniffer hands on a byte before the header block fragment and the
  padding behind it along with the fragment (`internal/h2fp/sniffer.go:179-189`), against section 6.2 of RFC 9113:
  `SnifferWire.PaddingTaken`. Frames without padding are read as they were sent
  (`SnifferWire.WireRoundTrip`).
* Networks of IPv4-mapped addresses are accepted and never match, and they are the only
  ones that cannot (`Catalog.MappedNetworksIdle`, `Catalog.IdleRowAccepted`).
* A rules file rewritten within one tick of the file clock to a text of the same length is
  not reread (`RulesFile.InForceAtOnce`). Turning a rule from `shadow` to `active` is such
  a change (`RulesFile.ModeChangeMissed`).
* An acceptance cut between its two writes leaves a proposal on offer that cannot be
  accepted while its rule is in the file (`Proposals.HalfAccepted`); it can be again once
  the rule is removed (`Proposals.AcceptedAfterRemoval`).

## Model

| member | source | states |
|---|---|---|
| Counters.KeyOf | internal/aggregate/window.go:123-144 | the key of a request is never the key of the folded row |
| Counters.DomainOf | internal/aggregate/window.go:146-166 | a domain goes out only as the host itself or not at all, and never as the folded name |
| Counters.AddIsMerge | internal/aggregate/window.go:313-359 | counting a request is merging the counts of it alone, every counter, class and method included |
| Counters.MergeLawful | internal/aggregate/window.go:344-359 | merging counts is commutative and associative with a zero, so that no order of folding matters |
| Counters.KeyLessTrichotomy | internal/aggregate/window.go:78-98 | of two different keys exactly one is less |
| Counters.KeyLessTransitive | internal/aggregate/window.go:78-98 | the order of keys is transitive |
| CounterLaws.KeyShows | internal/aggregate/window.go:105-166 | what leaves the node of a request: its host if it is a served name, the beginnings of three fingerprints, and its rule if that is a digest or one of two words |
| CounterLaws.NumbersExact | internal/aggregate/window.go:313-342 | over any events, the counters are how many there were, how many had a cookie, were blocked, limited, or marked by a shadow |
| CounterLaws.StatusExact | internal/aggregate/window.go:288-311 | each class of statuses counts the events whose status begins with its digit, and statuses outside 100 to 599 count nowhere |
| CounterLaws.MethodsExact | internal/aggregate/window.go:288-311 | each of the nine known methods counts its events, and all other methods count together |
| CounterLaws.DistinctExact | internal/aggregate/window.go:313-342 | the paths and addresses seen are exactly those of the events, and the bytes sent add up |
| Windows.Window.Add | internal/aggregate/window.go:407-425 | an event goes to its row, or past the live limit to the overflow row, and nothing else changes |
| Windows.Window.Close | internal/aggregate/window.go:427-465 | closing lays the rows out by falling requests and then by key and folds the tail, whatever order the map is ranged in |
| Windows.EntryLessTotal | internal/aggregate/window.go:434-446 | the order the rows are laid out in is strict and total, so that nothing depends on how the map was ranged; LargestFirst says which way it goes |
| Windows.LargestFirst | internal/aggregate/window.go:427-465 | the rows before the folded one never rise in requests, equal ones come by key, and a key with a row of its own has more requests than any key folded, or as many and a lesser key |
| Windows.RowsExact | internal/aggregate/window.go:407-425 | whatever the events, each of the first keys up to the live limit has a row with exactly its events, and all other events are in the overflow |
| Windows.WindowConserves | internal/aggregate/window.go:407-465 | the rows of a closed window add up to exactly what its events count, past the live limit too |
| Windows.TallyIsSum | internal/aggregate/window.go:313-342 | counting events one after another is the sum of counting each alone |
| Folding.AddConserves | internal/aggregate/window.go:407-425 | one event raises the total of rows and overflow by exactly itself |
| Folding.CloseConserves | internal/aggregate/window.go:427-465 | folding changes no total |
| Folding.CloseShape | internal/aggregate/window.go:427-465 | at most MaxRows rows, at most one of them folded, and that one last |
| Folding.LargestKept | internal/aggregate/window.go:434-465 | a row is kept as itself exactly by rank: the largest under the total order are never folded |
| Packing.GroupsFlatten | internal/aggregate/aggregator.go:327-345 | packing loses no window and keeps their order |
| Packing.GroupsBounded | internal/aggregate/aggregator.go:327-345 | a batch holds at most MaxRows rows, of one fact set version |
| Packing.PrefixStable | internal/aggregate/aggregator.go:383-391 | packing more windows leaves all batches but the last as they were, and the last with its key and its windows first |
| Packing.SuffixStable | internal/aggregate/aggregator.go:383-391 | packing what is left from a batch boundary on gives the batches from there on |
| Outbox.Box.Store | internal/aggregate/outbox.go:51-75 | a key already there keeps its first copy; past the limit exactly the oldest go |
| Outbox.PutKeepsNewest | internal/aggregate/outbox.go:51-75 | a new batch stored leaves the newest batches up to the limit, unchanged; every batch that goes is older than every one that stays |
| Outbox.Box.List | internal/aggregate/outbox.go:97-115 | the keys on disk, oldest first |
| Outbox.Box.Remove | internal/aggregate/outbox.go:89-95 | exactly that batch goes |
| Outbox.DelayGrows | internal/aggregate/sender.go:150-159 | 1, 2, 4, 8, 16 minutes and then half an hour for ever; the delay never shrinks with another failure and the shift stays inside 64 bits |
| Outbox.Sender.Backoff | internal/aggregate/sender.go:150-159 | one more failure, and the delay for it |
| Outbox.Sender.DrainAll | internal/aggregate/sender.go:110-148 | one drain with nothing in between: batches go oldest first, one at a time, until one has to wait; what was accepted, dropped and left |
| Outbox.DrainExact | internal/aggregate/sender.go:110-148 | a drain takes off, in order, the batches up to the first that has to wait: those accepted are sent, those turned away or unreadable are dropped, the others stay as they were; any answer from the cloud ends the row of failures, and what stopped the drain tells the delay |
| Aggregator.Node.Add | internal/aggregate/aggregator.go:270-286 | with the edge on a boundary, one window grows by exactly this event and all others stay: the one with k <= t < k + five minutes for the time t it finished, begin plus duration, or the edge itself when t is before it |
| WindowContents.EventLands | internal/aggregate/aggregator.go:270-286 | an event grows exactly the window it belongs to by the plain arithmetic of boundaries |
| WindowContents.TickCloses | internal/aggregate/aggregator.go:289-313 | a tick closes exactly the open windows that ended at least ten seconds before it |
| WindowContents.EveryWindowExact | internal/aggregate/aggregator.go:270-381 | over every run, flushes and the sender included: every open window holds exactly the events that belong to it, every window before the edge that any belong to was closed once, in order, with exactly these and the facts version of its tick, and every batch anywhere is made of such windows, next to each other, none still pending |
| Aggregator.Node.CloseWindows | internal/aggregate/aggregator.go:289-313 | every window past the grace is closed into pending in order of its start, with the fact set version read for it; empty ones vanish |
| Aggregator.Node.Flush | internal/aggregate/aggregator.go:322-369 | batches are put until the disk refuses; exactly the windows on disk leave pending |
| Aggregator.Pack | internal/aggregate/aggregator.go:327-345 | the loop over pending builds exactly the batches of the packing |
| Aggregator.Node.DropDone | internal/aggregate/aggregator.go:362-369 | counting stored rows down drops exactly the windows that were stored, never part of one |
| Aggregator.Node.Restore | internal/aggregate/aggregator.go:446-485 | what was saved comes back: the open windows with their overflow, the edge and pending |
| PipelineRuns.StepKeeps | internal/aggregate/aggregator.go:270-381 | every step keeps the invariant, a flush between the post of a batch and its answer included: pending ascending and below the edge, open windows at or above it, batches in order, counts balanced |
| PipelineRuns.EveryCountInOnePlace | internal/aggregate/aggregator.go:270-381 | over every crash-free run, what is in open windows, pending, the outbox, and batches accepted, dropped or trimmed is all that was counted, plus the batches both trimmed and answered |
| PipelineRuns.EveryBatchInOnePlace | internal/aggregate/sender.go:110-148 | over such a run every batch handed over is on disk, accepted, dropped or trimmed, and in two of these just when it was trimmed and then answered |
| PipelineRuns.TwiceExactly | internal/aggregate/sender.go:110-148 | a batch ends in two places exactly when a run answers one that is no longer on disk |
| PipelineRuns.KeysNeverRepeat | internal/aggregate/aggregator.go:383-391 | over such a run no batch key is handed over or accepted twice, and both come in the order of their windows |
| Sending.DrainIsSteps | internal/aggregate/sender.go:110-148 | listing, reading, posting and removing one after another, with no flush between, is one drain |
| Sending.FullOutboxTooLate | internal/aggregate/outbox.go:66-74 | a flush into a full outbox trims the batch in flight, which is then accepted as well |
| CrashSafety.StepKeeps | internal/aggregate/aggregator.go:322-391 | counting, closing, flushing with any failures, saving and guarded crashes keep batches with a common window compatible |
| CrashSafety.AtMostOnce | internal/aggregate/aggregator.go:371-391 | whichever batches of such a run reach a cloud that drops repeated keys, in any order and number, no window is counted twice |
| CrashSafety.CrashSafeExactly | internal/aggregate/aggregator.go:371-391 | at the end of such a run, every continuation after a crash counts each window at most once exactly when the guard holds |
| CrashSafety.CrashCosts | internal/aggregate/aggregator.go:371-391 | after a crash in a flush and a flush after it, the windows that were being flushed count exactly once and exactly so many new ones are lost |
| CrashSafety.NothingLost | internal/aggregate/aggregator.go:371-391 | nothing is lost exactly when the last batch was not written or has no room for the next window |
| CrashSafety.OlderSnapshotCountsTwice | internal/aggregate/aggregator.go:371-391 | a run: two windows go out in one batch after a snapshot that has the second still open; after the crash it closes under another fact set version and is counted again |
| Sketch.Sketch.Add | internal/aggregate/sketch.go:36-60 | after adding, the sketch is that of the set with the hash in it: sparse and exact up to the limit, registers past it |
| Sketch.Sketch.Merge | internal/aggregate/sketch.go:73-94 | merging gives the sketch of the union, from any mixture of the two forms |
| Sketch.Sketch.Estimate | internal/aggregate/sketch.go:96-126 | exact while sparse, and otherwise a function of the set alone |
| Sketch.RegisterIsMax | internal/aggregate/sketch.go:52-60 | a register is the greatest rho in its bucket, and some hash has it |
| Sketch.RhoBounds | internal/aggregate/sketch.go:52-60 | rho lies between 1 and 55, so that it fits its byte |
| Sketch.HashSplit | internal/aggregate/sketch.go:52-60 | the register is the ten high bits of a hash, and rho is one more than the zeros that lead its 54 low bits, or 55 when they are all zero |
| Sketch.RegisterOfUnion | internal/aggregate/sketch.go:73-94 | the register of a union is the greater of the two |
| Limit.Entry.Grow | internal/rules/limit.go:60-71 | the ring grows without losing a stamp or its order |
| Limit.Entry.Expire | internal/rules/limit.go:121-126 | moving the start drops exactly the leading stamps at or before the boundary |
| Limit.Entry.Count | internal/rules/limit.go:112-138 | one request against one entry, through reset, expiry, growth and wrap |
| Limit.Windows.Exceeded | internal/rules/limit.go:89-138 | the answer and the whole new table, for every key, limit, window and time |
| Limit.Windows.Forget | internal/rules/limit.go:167-179 | a sweep deletes exactly the entries idle for longer than their window |
| LimitLaws.TouchRefines | internal/rules/limit.go:112-138 | an entry that holds what still counts of a log answers as the whole log and goes on holding it |
| LimitLaws.RingRefinesLog | internal/rules/limit.go:89-179 | over every run the limiter answers as a log that forgets nothing and never sweeps |
| LimitLaws.SweepsChangeNothing | internal/rules/limit.go:148-179 | sweeps put anywhere, and another spread over the shards, change no answer |
| LimitLaws.LimitHolds | internal/rules/limit.go:83-89 | no stretch of one window lets a key through more than limit times |
| LimitLaws.SweepMatters | internal/rules/limit.go:167-179 | a sweep leaves the next answer as it is exactly when it keeps the entry, or fewer than limit stamps of the log still count; one whose clock is not ahead always does |
| LimitLaws.RefusedWhenUsedUp | internal/rules/limit.go:89-138 | a request is refused only when as many requests of its key as its limit were let through in the window that ends with it, however full the shards are and whatever was swept |
| LimitLaws.MemoryBounded | internal/rules/limit.go:89-146 | over every run, whatever its clocks, no shard holds more than its share of the keys and one, and no entry more stamps than its limit |
| LimitLaws.KeptExactly | internal/rules/limit.go:148-179 | a key is held exactly when some request of it, let through or not, lies within its window of every sweep after it |
| LimitOrder.ExchangeExact | internal/rules/limit.go:112-138 | two requests can be exchanged in every state they can meet, whatever their times, exactly when their keys differ |
| Net.MaskingKeeps | internal/rules/condition.go:322-325 | masking a network changes nothing about the addresses it holds |
| Net.CoversIsNetwork | internal/catalog/catalog.go:256-264 | a masked network covers an address exactly when it is the address's own network of that length |
| Condition.Compile | internal/rules/condition.go:52-88 | succeeds exactly on well-formed trees, with a matcher that agrees with the tree on every request; an error points at a node that is wrong by itself |
| Condition.Junction | internal/rules/condition.go:93-123 | the same for all and any over their children |
| Condition.Compare | internal/rules/condition.go:150-183 | the same for a comparison |
| Condition.NumberCompare | internal/rules/condition.go:200-246 | numbers, with a set in place of the list |
| Condition.StringCompare | internal/rules/condition.go:248-301 | strings, with a set in place of the list |
| Condition.Networks | internal/rules/condition.go:307-356 | looking in the list of one family is a scan of all networks |
| Condition.NotCidrComplements | internal/rules/condition.go:333-355 | not_cidr is the negation of cidr exactly on addresses that parse, and neither holds elsewhere |
| Condition.KindsAgree | internal/facts/facts.go:89-213 | a field has a value exactly when it has a kind, and of that kind |
| Condition.HoldsBySignals | internal/rules/condition.go:37-40 | a condition sees nothing of a request but its fields |
| Condition.JunctionOfOne | internal/rules/condition.go:93-123 | a junction of one condition is that condition |
| Condition.AllNarrows | internal/rules/condition.go:93-123 | one more condition narrows all to what it says too |
| Condition.AnyWidens | internal/rules/condition.go:93-123 | one more condition widens any by what it says |
| Condition.NegationReads | internal/rules/condition.go:75-88 | negation undoes itself, and of all of some conditions it makes any of their negations |
| Condition.TextOperators | internal/rules/condition.go:248-301 | what each operator says about a text, by its parts: equal, contained, at the beginning, at the end, or listed |
| Condition.NumberOperators | internal/rules/condition.go:200-246 | what each operator says about a number, by order, or listed |
| Condition.FlagOperators | internal/rules/condition.go:185-198 | what the two operators say about a flag |
| Facts.RequestFields | internal/facts/facts.go:89-213 | each field of the request itself reads the component that bears its name |
| Facts.HandshakeFields | internal/facts/facts.go:89-213 | so does each field of the handshake |
| Facts.FrameFields | internal/facts/facts.go:89-213 | so does each field of the frames, the headers and the client |
| Facts.NetworkFields | internal/facts/facts.go:89-213 | so does each field of the network |
| Condition.BlameIsJust | internal/rules/condition.go:42-88 | an error is reported only for a tree that is not well formed |
| Rules.CompileScope | internal/rules/rule.go:169-213 | succeeds exactly on valid scopes, with a predicate that agrees with the list on every host |
| Rules.ScopeReads | internal/rules/rule.go:169-213 | a rule comes under a host exactly when an entry is a star, the host, or a starred name that is the host or that the host ends with after a dot |
| Rules.Compile | internal/rules/rule.go:91-159 | succeeds exactly on valid rules, with a compiled rule that does what the rule says |
| RuleSets.Build | internal/rules/set.go:33-74 | succeeds exactly when every rule is valid and no id occurs twice, in the order of application; otherwise exactly the faulty rules are complained of |
| RuleSets.RuleSet.Decide | internal/rules/set.go:96-150 | the marks, the limiter and the decision: block with its id, digest, status and body exactly when the leading rule blocks, allow exactly when it allows, ratelimit exactly when it limits and the limit is used up, pass otherwise, and the empty rule exactly when none leads |
| RuleSets.Walk | internal/rules/set.go:96-109 | the walk marks exactly the shadows before the first active rule that fires, and stops there |
| RuleSetLaws.EffectiveOrdered | internal/rules/set.go:61-71 | the rules applied are the enabled ones, each once, in strictly descending rank |
| RuleSetLaws.VerdictLeads | internal/rules/set.go:90-109 | the rule that decides is the enabled active rule that fires and ranks before every other such rule; none, just when there is none |
| RuleSetLaws.MarksLead | internal/rules/set.go:96-105 | a shadow is marked just when it fires and ranks before the deciding rule |
| RuleSetLaws.MarksOrdered | internal/rules/set.go:96-105 | marks come in the order of application |
| RuleSetLaws.FileOrderIrrelevant | internal/rules/set.go:61-71 | permuting the file changes neither its acceptance nor the rules applied nor their order |
| RuleSetLaws.ShadowsDoNotDecide | internal/rules/set.go:90-106 | two files with the same active rules have the same deciding rule for every request |
| RuleSetLaws.ShadowMarksItself | internal/rules/set.go:101-105 | adding a shadow rule changes the marks by nothing but its own |
| RuleSetLaws.ShadowsDoNotInterfere | internal/rules/set.go:90-150 | over every stream of requests and sweeps, shadow rules leave all decisions and the limiter as they are |
| Decisions.DecisionsExact | internal/rules/set.go:90-150 | over every stream of requests and sweeps with one budget a key, clocks that do not run back and room in the shards, what each request gets, from the file alone: the kind, id, status and body of the one rule that applies with the least priority and id, and a limit used up exactly when that many requests of its key were let through in its window |
| RuleSetLaws.KeysCollide | internal/rules/set.go:133-134 | two rules can count on one key exactly when one id, closed by a NUL, begins the other |
| RuleSetLaws.NulInIdCollides | internal/rules/rule.go:92-98 | valid ids that collide |
| Keys.Apart | internal/rules/set.go:133-134 | with no NUL in their heads, keys are equal only part by part |
| Replay.Result.Event | internal/replay/replay.go:106-141 | one event: decided anew against the limiter, and every tally of the result after it; ReplayReport says what they count |
| Replay.Run | internal/replay/replay.go:80-104 | the whole log, event after event; ReplayReport and ReplayLaws say what the report tells |
| ReplayLaws.RunByAnswers | internal/rules/set.go:96-150 | which requests reach the limiter does not depend on its answers, and the decisions are a function of those answers |
| ReplayLaws.DivergencesExact | internal/replay/replay.go:126-131 | the divergences reported are exactly the recorded decisions that would be different, counted by kind, and none just when there is none |
| ReplayReport.TotalsExact | internal/replay/replay.go:106-131 | for every action the tally is how many of the new decisions have it, the tallies add up to the log, the addresses are the non-empty ones in it, and its times are the least and the greatest |
| ReplayReport.RulesExact | internal/replay/replay.go:132-165 | what the report tells of a rule is told by the events it decided and those it was marked on: how many, by action, from which addresses, hosts and user agents, and the first few as samples |
| ReplayReport.MatchedExact | internal/replay/replay.go:132-165 | these are as many as it decided and as it was marked on, each event counted once for each |
| ReplayLaws.SameDecisions | internal/rules/limit.go:148-179 | the same requests in the same order get the same decisions on another fresh limiter, with sweeps or without |
| ReplayLaws.ReplayReproduces | internal/replay/replay.go:75-104 | a log in decision order, replayed with the rules it was made with, gives every decision again and no divergence |
| ReplayOrder.DecidedByKey | internal/rules/set.go:96-150 | every decision is a function of the request and of the earlier requests on its own limiter key |
| ReplayOrder.KeyOrderReproduces | internal/replay/replay.go:75-104 | a log in any order that keeps the order within each key gives every event its decision again and no divergence |
| ReplayOrder.NeighboursExact | internal/replay/replay.go:75-104 | two neighbours of a log can be exchanged in every state they can meet, whatever their times, exactly when they do not ask on one key |
| ReplayLaws.NoNulOneBudget | internal/rules/set.go:133-134 | ids without a NUL give every key one limit and one window |
| ReplayOrder.CompletionOrderDiverges | internal/replay/replay.go:75-79 | two requests on one key, one let through and one limited, replayed the other way round: the report has a divergence of each kind |
| RulesFile.Store.Reload | internal/rules/file.go:143-180 | only a file whose stamp changed, and only if all of it is in order, is put in force; a vanished file lifts the rules; and whether it changed anything or failed |
| RulesFile.Store.Apply | internal/rules/file.go:259-355 | a change is refused with nothing touched, or replaces the file by exactly the list asked for |
| RulesFile.RereadExact | internal/rules/file.go:143-180 | a vanished file lifts the rules, a changed one in order replaces them, anything else leaves them; and which error is given when |
| RulesFile.ProposedExact | internal/rules/file.go:259-355 | a change is refused exactly for a rule that is not valid, a file that cannot be read, an id there already, or one that is not |
| RulesFile.WithoutExact | internal/rules/file.go:286-307 | taking an id out leaves every other rule as often as it was there |
| RulesFile.InForceAtOnce | internal/rules/file.go:164-166 | an accepted change is in force at once exactly when the stamp of its file is new to the node, or the list did not change |
| RulesFile.ModeChangeMissed | internal/rules/file.go:164-166 | a rule turned from shadow to active within one tick is active in the file and a shadow in force |
| RulesFile.AddThenRemove | internal/rules/file.go:269-307 | removing what was added restores the list |
| RulesFile.ChangeKeepsReadable | internal/rules/file.go:199-209 | a change never writes a file the node would refuse to read |
| Proposals.Desk.Accept | internal/proposals/store.go:151-194 | every refusal in its order, and otherwise the rule added in shadow and the decision recorded |
| Proposals.Desk.Reject | internal/proposals/store.go:202-248 | every refusal in its order, and otherwise the decision recorded |
| Proposals.RefusalsExact | internal/proposals/store.go:151-248 | an acceptance or a rejection is refused exactly for too long a reason, an id not in the document, advice, or an earlier decision, and says which |
| Proposals.Desk.List | internal/proposals/store.go:98-145 | what is offered of proposals and of advice |
| Proposals.ListExact | internal/proposals/store.go:98-145 | on offer is exactly what is in the document, has not expired and was not decided, and advice only about a rule there is |
| Proposals.DecidedAtMostOnce | internal/proposals/store.go:178-193 | over any run, whatever documents come, each id is decided at most once and stays decided |
| Proposals.NeverOfferedAgain | internal/proposals/store.go:119-127 | what was decided is never offered again |
| Proposals.AcceptDecidesNothing | internal/proposals/proposals.go:153-167 | accepting a proposal changes no decision and no counter over any traffic |
| Proposals.DraftKept | internal/proposals/proposals.go:153-167 | the rule added fires just where its draft says, keeps its action and priority, and watches without deciding |
| Proposals.HalfAccepted | internal/proposals/store.go:151-194 | after a stop between the two writes, over every run in which nothing decides the proposal or takes it out of the document, it is offered exactly until it expires, and accepting it changes nothing while its rule is in the file |
| Proposals.AcceptExact | internal/proposals/store.go:151-194 | a waiting proposal is accepted exactly when its rule can be added to the file, and otherwise nothing changes |
| Proposals.WaitingStep | internal/proposals/store.go:119-127 | a proposal stops waiting by exactly the steps that decide it or take it out of the document |
| Proposals.AcceptedAfterRemoval | internal/proposals/store.go:151-194 | with its rule removed by hand, a half-accepted proposal is accepted after all |
| Catalog.Parse | internal/catalog/catalog.go:128-190 | succeeds exactly on valid documents, and the maps then mean exactly the rows and fingerprints listed |
| Catalog.LengthsDescending | internal/catalog/catalog.go:192-199 | exactly the lengths of the buckets, longest first |
| Catalog.LookupNetwork | internal/catalog/catalog.go:246-266 | probing lengths from the longest down finds what a scan of all rows finds, and nothing without a set or a valid address |
| Catalog.LongestMatch | internal/catalog/catalog.go:245-266 | that is a covering row, no covering row being longer, the last of equal ones; nothing, just when no row covers |
| Catalog.MappedNetworksIdle | internal/catalog/catalog.go:250-255 | a network never matches a looked-up address exactly when it holds mapped addresses alone |
| Catalog.IdleRowAccepted | internal/catalog/catalog.go:151-190 | a document with such a row is accepted, and the row is never found |
| Catalog.Apply | internal/catalog/catalog.go:281-310 | the request with what is known of its network and its fingerprint |
| Catalog.NetworkFilled | internal/catalog/catalog.go:287-300 | the network fields become those of the longest network that covers the address, with its age in versions when that is positive; without one nothing changes |
| Catalog.PrintFilled | internal/catalog/catalog.go:302-337 | the family becomes that of the last fingerprint listed for the handshake, or else for the frames, and the claim agrees exactly when there is none, either side is unknown or a bot, or the two are the same |
| Catalog.FactsKeepTheBorder | internal/catalog/catalog.go:276-281 | no other field is touched, and nothing of a decision |
| FactStore.Store.Install | internal/catalog/store.go:110-168 | the first check that fails refuses with nothing changed; otherwise the disk, the `current` file and the set in force, for every way the writes can fail |
| FactStoreRuns.RefusedExactly | internal/catalog/store.go:110-190 | an installation goes through exactly when its manifest is trusted, above the version in force and describes the document, this is in order and of that version, and it does not lose more than half, unless forced; and the first of these that fails is the reason |
| FactStore.Store.Rollback | internal/catalog/store.go:197-225 | the greatest version on disk below the one in force, if it loads, whether or not the `current` file can be written |
| FactStore.Store.Sweep | internal/catalog/store.go:278-288 | exactly the last three versions stay |
| FactStoreRuns.NeverDangles | internal/catalog/store.go:110-225 | from an empty directory, over any undisturbed run, the `current` file names a version on disk, and that is the set in force, and at most three versions are kept |
| FactStoreRuns.StepSound | internal/catalog/store.go:110-288 | failed writes and crashes included, `current` is left dangling exactly by an installation that finds three or more versions above its own |
| FactStoreRuns.InstalledSurvives | internal/catalog/store.go:276-288 | what was just installed survives the sweep exactly when fewer than three versions on disk are above it |
| FactStoreRuns.NeverHalves | internal/catalog/store.go:175-190 | from any sound state only a rollback or a forced installation can lower the version, or lose more than half of the networks or of the protected rows; restarts and interrupted installations included |
| FactStoreRuns.RollbackReaches | internal/catalog/store.go:201-212 | a rollback reaches the greatest kept version below, and loads it |
| FactStoreRuns.RestartChangesNothing | internal/catalog/store.go:52-90 | a restart puts the same set in force |
| FactStoreRuns.TwoCrashesDangle | internal/catalog/store.go:276-288 | from an empty directory: three installations, two rollbacks, two interrupted installations, and then one that removes its own file |
| Sniffer.Connection.Read | internal/h2fp/sniffer.go:67-82 | the state after a read of any size; SnifferWire and SnifferLaws say what that is |
| Sniffer.Connection.OneFrame | internal/h2fp/sniffer.go:132-180 | the state after one frame of any kind; SnifferWire says what it is of frames as they are sent |
| SnifferWire.WireRoundTrip | internal/h2fp/sniffer.go:67-192 | of a preface and any SETTINGS, WINDOW_UPDATE, PRIORITY, HEADERS, CONTINUATION and other frames, encoded by sections 4.1 and 6 of RFC 9113, one read captures the first list of settings that is no acknowledgement, the first non-zero increment on stream 0, the priorities in order with their weights, and the pseudo-headers of the joined fragments, done exactly when a header block ends |
| SnifferWire.WireAnyCut | internal/h2fp/sniffer.go:67-130 | the same however the stream is cut into reads, when each frame fits the buffer |
| SnifferWire.PaddingTaken | internal/h2fp/sniffer.go:179-189 | of a padded HEADERS frame a byte before the fragment and the padding behind it are taken along with it |
| SnifferWire.PrefaceIs | internal/h2fp/sniffer.go:14-14 | the preface is that of section 3.4 of RFC 9113 |
| SnifferLaws.FramesResume | internal/h2fp/sniffer.go:94-130 | parsing resumes where it stopped, with nothing read twice or skipped |
| SnifferLaws.ChunkingIndependence | internal/h2fp/sniffer.go:67-130 | a stream whose frames fit the buffer gives one result however it is cut |
| SnifferLaws.CalmIsExact | internal/h2fp/sniffer.go:28-35 | a stream gives one result however it is cut exactly when its frames fit the buffer, or one read of it gives up just as a cut one does |
| SnifferLaws.OversizeMatters | internal/h2fp/sniffer.go:72-92 | a stream with a larger frame can be cut so that the sniffer gives up, where one read that goes on or completes the fingerprint ends otherwise |
| SnifferLaws.CapturedStays | internal/h2fp/sniffer.go:132-180 | captured settings and window update never change, and nothing does once it is done |
| Cursors.Cursor.Bytes | internal/tlsfp/cursor.go:30-42 | a read takes exactly what it asked for or fails and takes nothing |
| Cursors.Cursor.ReadBlock16 | internal/tlsfp/cursor.go:76-80 | a cursor over the contents of the block and no byte more |
| Cursors.Cursor.ReadCodes | internal/tlsfp/cursor.go:84-98 | the rest as codes, or none when the bytes are odd |
| Hellos.WithoutGrease | internal/tlsfp/grease.go:20-33 | the list without its GREASE values, and whether there were any |
| Hellos.GreaseShown | internal/tlsfp/hello.go:152-162 | a parsed hello has GREASE exactly when one of its five lists has a GREASE value |
| Hellos.Parse | internal/tlsfp/hello.go:54-73 | the hello or the error, for any bytes |
| HelloErrors.AcceptedExact | internal/tlsfp/hello.go:54-111 | a record is accepted exactly when it carries, in one handshake message, a hello in its written form |
| HelloErrors.ErrorsExact | internal/tlsfp/hello.go:54-73 | not a hello exactly when the record does not begin with a whole client hello message, truncated exactly when it does and its body is out of order |
| HelloErrors.CutShort | internal/tlsfp/hello.go:54-73 | an accepted record cut anywhere before the end of its message is not a hello, and cut after it is the same hello |
| Hellos.ParseExtensions | internal/tlsfp/hello.go:94-107 | the extension loop takes exactly the framed extensions, looking inside each |
| Hellos.ParseExtension | internal/tlsfp/hello.go:113-150 | what one extension adds, whatever its body claims |
| HelloLaws.ExtensionsExact | internal/tlsfp/hello.go:94-100 | the block is read as a list exactly when it is that list written down |
| HelloLaws.Isolation | internal/tlsfp/cursor.go:68-80 | extension bodies can be changed at will, length kept, without changing the version, the ciphers or the extension list |
| HelloLaws.OuterFromFraming | internal/tlsfp/hello.go:54-111 | success, error, version, ciphers and extension list come from the framing alone |
| HelloLaws.RoundTrip | internal/tlsfp/hello.go:54-150 | what a client encodes with distinct extensions is what the parser reports |
| HelloLaws.AllShown | internal/tlsfp/hello.go:113-150 | every extension is shown in its field and the extension list keeps their order |
| JA4.Compute | internal/tlsfp/ja4.go:27-140 | the fingerprint, with its local copies filtered and sorted |
| JA4.FirstReads | internal/tlsfp/ja4.go:27-45 | the first part says, character by character, that it is TCP, the version, whether a name was given, the two counts up to 99, and the ends of the first protocol |
| JA4.PartsRead | internal/tlsfp/ja4.go:27-72 | the other parts are digests of the ciphers in ascending order, and of the extensions without name and protocols in ascending order with the signature algorithms as they came, GREASE values nowhere; zeros for what is empty |
| JA4.HexReads | internal/tlsfp/ja4.go:123-129 | a list of codes is four hexadecimal digits each, with commas between them |
| JA4.CeilingIs | internal/tlsfp/ja4.go:74-85 | the version is the highest offered without GREASE, and the one of the header when none is |
| JA4.GreaseValues | internal/tlsfp/grease.go:14-18 | GREASE is exactly the sixteen values of section 2 of RFC 8701 |
| JA4.PlainIgnoresGrease | internal/tlsfp/grease.go:20-33 | a GREASE value put anywhere changes nothing of the plain list |
| JA4.PlainPermuted | internal/tlsfp/grease.go:20-33 | permuting a list permutes its plain list |
| JA4.Canonical | internal/tlsfp/ja4.go:22-29 | hellos that differ in the order of ciphers, extensions and versions and in GREASE have one fingerprint, whatever the digest |
| JA4.CipherTextExact | internal/tlsfp/ja4.go:46-50 | the hashed cipher text tells ciphers apart up to order and GREASE, and no further |
| JA4.ExtensionTextExact | internal/tlsfp/ja4.go:52-72 | the hashed extension text keeps the order of the signature algorithms and forgets that of the extensions |
| Minutes.Watcher.Write | internal/alerts/alerts.go:238-273 | the ring after a request, late and overtaking minutes included |
| Minutes.Watcher.Sum | internal/alerts/alerts.go:301-319 | the sum of what the slots show |
| Minutes.Watcher.Traffic | internal/alerts/alerts.go:321-364 | the triggers of the window against the scaled stretch before it, per rule included, and no spike before enough of it was counted; TriggeredExact says which these are |
| Minutes.ExactIff | internal/alerts/alerts.go:247-255 | a minute is shown exactly just when a later one did not take its slot, or nothing was written in it |
| Minutes.RingExact | internal/alerts/alerts.go:301-319 | every sum from after M - 120 on equals the true total, per rule included, in whatever order the writes came |
| Minutes.TrafficExact | internal/alerts/alerts.go:321-364 | site down and every spike are triggered just as by the true totals when window and baseline make at most 119 minutes together |
| Minutes.TriggeredExact | internal/alerts/alerts.go:321-364 | without a division: the site is down when its share of what reached it failed, and a count spikes when it is large enough and its count times the minutes covered is at least the factor times the base times the window |
| Minutes.SteadyNeverSpikes | internal/alerts/alerts.go:335-352 | with the same number of requests every minute and a factor above one, no spike of requests is found |
| Minutes.TotalExact | internal/alerts/alerts.go:238-273 | a total counts all requests, those turned away, those that reached the site, those that failed there, and those turned away by each rule |
| Minutes.OldestMinuteShared | internal/alerts/alerts.go:321-341 | at 120 the oldest is right just when it or the minute under way has no requests |
| Alarms.RoundedNear | internal/alerts/alerts.go:455-458 | rounding moves a duration by at most half a minute |
| Alarms.Watcher.Transition | internal/alerts/alerts.go:422-470 | one check: triggers, messages in their order, and the last hundred kept |
| AlarmLaws.CheckedAt | internal/alerts/alerts.go:422-470 | a check does to each trigger what it would do to it alone |
| AlarmLaws.AlertsAlternate | internal/alerts/alerts.go:422-470 | firing, resolved, firing, and so on; among the triggers just when the last message was firing |
| AlarmLaws.MessagesExact | internal/alerts/alerts.go:422-470 | over any run, a message that a trigger fires has the kind, words and time of a check that found it; one that it is resolved has the time of a check that did not, and the kind and words of the message before it |
| AlarmLaws.ResolvedMeansQuiet | internal/alerts/alerts.go:455-462 | resolved means absent from every check over a window less half a minute |
| AlarmLaws.QuietGetsResolved | internal/alerts/alerts.go:450-462 | a trigger gone quiet keeps firing exactly until a check a rounded window after its first absence |
| Latency.LatencyBounds | internal/summary/summary.go:449-460 | at most sixty rising bounds from half a millisecond, each at most a quarter above the one before |
| Latency.Histogram.Add | internal/summary/summary.go:468-475 | the counters hold exactly the durations of their buckets, and never run out |
| Latency.Histogram.Percentile | internal/summary/summary.go:477-495 | the answer belongs to the first bucket up to which the share of the count, rounded up, lies; and what shares at or below zero or above one give |
| Latency.Search | internal/summary/summary.go:469-469 | the binary search finds the bucket of the duration |
| Latency.PercentileError | internal/summary/summary.go:477-495 | never below the true percentile nor above the longest seen, and at most a quarter above the true one between the bounds |

## Left out

- Files, sockets, HTTP, gzip, YAML and JSON text: directories are maps, a rename is one step, documents are values.
- SHA-256, MD5, ed25519, HPACK, punycode and maphash are parameters or uninterpreted functions; so are address, prefix and duration parsing and the claimed family of a user agent.
- Integer widths: times, sizes and counters are unbounded; int64 and uint64 wrap-around is not modelled, except where a shift or a decoded number could reach it.
- Goroutines, tickers, jitter, channels and mutexes: a locked method is one step, and no queue drops an event.
- The admin UI, alert wording and delivery, configuration, the command line, the router, certificates, crawlers and the feedback sender.
- Sketch.Sketch.Estimate: the floating-point formula over registers is a parameter; only what it is a function of is stated.
- Sketch.Sketch.Merge: not stated for a sketch merged into itself, which the source never does.
- Counters.AddIsMerge: the counters of distinct paths and addresses are sets here; Sketch proves that a sketch is a function of such a set.
- Limit.Entry.Grow: the stamps are a sequence the methods reassign, not an array updated in place.
- Limit.Windows.Exceeded: the random seed of the shards is a fixed but arbitrary spread of keys over them.
- Hellos.ParseExtension: the hello is a value the parser returns anew, not a struct updated through a pointer.
- Aggregator.Node.Restore: broken files and files that name rules by id, which are set aside, are not modelled.
- PipelineRuns.EveryCountInOnePlace: a write to the outbox works as a whole or fails as a whole; CrashSafety covers writes that work and are reported as failed.
- CrashSafety.AtMostOnce: one node, so that a batch key is the start of its first window, and its clock does not run back.
- Outbox.Sender.DrainAll: states one drain with no flush in it; runs with flushes between its posts are those of PipelineRuns.
- FactStore.Store.Sweep: every file it removes can be removed; one that cannot be deleted is not modelled.
- Replay.Run: the filter by time and the reading of log lines come before it.
- ReplayLaws.ReplayReproduces: events decided before the rules (own networks, verified crawlers) are not part of the log.
- Latency.Histogram.Percentile: the share of the count is taken over the reals; the source multiplies floats.
- Minutes.TrafficExact: shares, factors and the usual are real numbers, floats in the source; what the messages say is not modelled.
- RulesFile.Store.constructor: the source refuses to start on a broken file; a constructor has no error to give and leaves the empty set.
