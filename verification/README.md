# Verified models of the waiting room, the bank and the MFA step-up

A Dafny 4.11 project about the stateful cores of this repository. `dafny verify dfyconfig.toml` checks all of it.

**The virtual waiting room** (`queue-based-site-access`). `RedisModel` is the shared Redis database as a value: clock,
capacity, active set, FIFO list, session hashes with their 24 h expiry, heartbeat keys with their 30 s expiry, timing
history. `Store` is the imperative program on top (Lua scripts with their loops, Go store operations, handlers), each
method proved against the value model; `Evictions` holds the half-done states of its loops, and `Observations` says of
each script and request what every session sees, in the source's own numbers. `Admission` says what `admitPending`
achieves from any state. `SerialRuns`, `Heartbeats`, `FreeSlots`, `DeadLines` and `Fairness` treat runs in which
requests, worker ticks and waiting follow one another whole; `Interleavings`, `Tickets` and `Threads` treat every
schedule of single Redis steps by any number of threads with program counters. `Eta` is the wait estimate.

**The bank** (`api-keycloak-security`, the same code in `api-keycloak-mfa-email`). `Bank` is the atomic reference,
`BankSchedules` many row-locking transactions at once, `BankService` the service as written.

**MFA step-up** (`api-keycloak-mfa-email`). `Enrollment` is the store with lazy deletion, `EnrollmentLog` the full-log
specification it refines, `Wrapsig` the header signature, `StepUpGate` the chain of gates over whole runs of store
calls, `ApiRuns` over whole runs of signed requests. `Text` and `Lists` hold string and sequence facts.

Conventions. Session identifiers are opaque keys, so they are natural numbers, 0 standing for an absent or empty
cookie. Clocks, random draws, the set of sessions SPOP happens to pick and the MAC are parameters. A Redis script or
command is one atomic step at one instant; a key exists up to and including its expiry instant. `SELECT … FOR UPDATE`
holds its row until commit or rollback, and a waiting reader sees the committed row. Money is whole cents.

Where code and comments disagree the model follows the code.

- `admitPending` is documented to loop until the room is full or the queue empty (worker.go:34-35), but a script call
  gives up after fifty entries without a hash (scripts.go:44). `Admission.GivesUpIff` says for every store when the
  whole loop ends short of its promise.
- The email given to `/start` is documented to be picked up after verification (enroll.go:102-104), but `Verify` has
  deleted it by then (store.go:101). `EnrollmentLog.PendingEmailMeaning` and `SuccessForgetsEmail` say for every run
  when there is an email to read.
- The waiting room is documented as a FIFO queue (queue-based-site-access/README.md:20). The line itself is one, but
  `luaTryAdmit` never looks at it (scripts.go:12-22). `Tickets.NewcomerOvertakes` is a schedule in which a newcomer
  gets in past the line, and `Tickets.FirstComeFirstServedIff` says for every schedule when that happens.
- Hashes, active set and list agree in serial runs up to the 24 h hash expiry and exactly that far
  (`Fairness.AgreementHoldsIff`). That no slot is free while somebody waits has another limit, a refill that gives up
  on fifty dead entries (`FreeSlots.FilledThroughoutIff`). The reaper's timing, the dead recovery branches and
  everything about interleavings need neither condition.

## Main results

The rows marked **Main.** below, which come first in the table:

- *Waiting room, every interleaving.* The line is the arrival log at strictly increasing tickets, nobody in it is
  overtaken by anybody else in it, and `luaAdmitNext` calls the tickets in order; somebody gets in past the line
  exactly when `luaTryAdmit` finds a free slot and a line that somebody else heads; the room never exceeds the peak of
  the capacities asked for; a status is backed by a place. All this for handler and worker threads in any order, of
  which one enters the recovery branch only after losing its slot between its two reads.
- *Waiting room, every serial run.* No slot is free while somebody waits exactly as long as no refill gives up, and
  until then no visitor passes the line; nobody silent for 35 s is left, nobody heard from within 30 s is reaped;
  recovery never fires.
- *Waiting room, serial runs while no hash has expired.* Hashes, set and duplicate-free list agree, exactly that far,
  and who is behind a waiting session stays behind it.
- *Waiting room, every store.* What `admitPending` admits and exactly when it stops early, and a run that leads there;
  the reaper's snapshot loops are a filter.
- *Bank, every schedule.* Serializable in completion order, every answer the one that the ledger's sums demand,
  balanced books at every moment, no deadlock: every open transaction can be brought to its end by steps alone.
- *MFA, every run.* The store with lazy deletion answers as the full log does; every verdict and every answer of the
  gate has its exact condition, over runs of signed requests; codes are spent; a changed signed header needs a
  collision of the MAC.

The other rows tie the program's operations to the value model or are the steps these results rest on.

## Model

| member | source | states |
|---|---|---|
| `Tickets.QueueFollowsTickets` | queue-based-site-access/queue-service/internal/queue/scripts.go:28-113 | **Main.** in every interleaving the queue is the log of all RPUSHes read at strictly increasing tickets |
| `Tickets.NobodyOvertakes` | queue-based-site-access/queue-service/internal/queue/scripts.go:28-113 | **Main.** in every interleaving, within the line: two entries that stay in it keep their order, and whoever joined meanwhile is behind both |
| `Tickets.ServedInTicketOrder` | queue-based-site-access/queue-service/internal/queue/scripts.go:42-58 | **Main.** in every interleaving the tickets admitted from the line are strictly increasing, name the sessions admitted, and precede all those still in line |
| `Tickets.FirstComeFirstServedIff` | queue-based-site-access/queue-service/internal/queue/scripts.go:12-22 | **Main.** in every interleaving nobody is let in ahead of an earlier entry that stays in line iff luaTryAdmit, which does not look at the queue, never finds a free slot and a line headed by somebody else |
| `Interleavings.NeverOverPeak` | queue-based-site-access/queue-service/internal/queue/scripts.go:42-58 | **Main.** in every interleaving the room never holds more than the largest effective capacity so far, 3 while the key is absent |
| `Interleavings.RoomIsAsAsked` | queue-based-site-access/queue-service/internal/queue/store.go:165-169 | **Main.** in every schedule from an absent key the room stays within any bound of 3 and all the numbers the commands ask for |
| `Interleavings.StatusIsBacked` | queue-based-site-access/queue-service/internal/queue/scripts.go:12-113 | **Main.** in every interleaving, expiry and deletion included, status active implies a slot and status queued a place in line |
| `Threads.ThreadsKeepGuarantees` | queue-based-site-access/queue-service/internal/handler/gate.go:14-108 | **Main.** any number of handler and worker threads in any order: peak capacity, backed statuses, line and calls in ticket order |
| `Threads.RecoveryFollowsEviction` | queue-based-site-access/queue-service/internal/handler/gate.go:88-94 | **Main.** in every execution a thread enters the recovery branch only if its session lost its slot between the thread's two reads |
| `FreeSlots.FilledThroughoutIff` | queue-based-site-access/queue-service/internal/queue/worker.go:34-61 | **Main.** over whole serial runs, whatever has expired: no slot is ever free while somebody waits iff no refill starts from a store in which fifty dead entries block its line |
| `FreeSlots.PassedOnlyAfterGiveUp` | queue-based-site-access/queue-service/internal/handler/gate.go:36-47 | **Main.** in every serial run a visitor enters past a line headed by somebody else only after some refill gave up |
| `Fairness.AgreementHoldsIff` | queue-based-site-access/queue-service/internal/queue/scripts.go:12-113 | **Main.** over whole runs hashes, set and list agree at every moment iff no session hash ever reaches its 24 h expiry |
| `Fairness.InvariantHolds` | queue-based-site-access/queue-service/internal/queue/scripts.go:12-113 | **Main.** every state of every serial run up to the first expired hash: active set = status active, duplicate-free queue = status queued, everybody has a heartbeat key, and no slot is free while somebody waits |
| `Fairness.NoOvertaking` | queue-based-site-access/queue-service/internal/queue/scripts.go:28-58 | **Main.** strict FIFO over whole serial runs, hashes alive: who is neither inside nor ahead of a waiting session, newcomers included, stays so as long as it waits |
| `Heartbeats.SilentAreGone` | queue-based-site-access/queue-service/internal/queue/worker.go:15-31 | **Main.** in every serial run, hashes expired or not: with the reaper at most 5 s ago nobody is inside or waiting more than 35 s after the last refresh |
| `Heartbeats.NeverReaped` | queue-based-site-access/queue-service/internal/queue/scripts.go:96-113 | **Main.** from any store, over any run: a session refreshed at most 30 s ago that has neither left nor been released since is live, and a reap leaves its slot, its entries and its hash alone |
| `SerialRuns.RecoveryNeverFires` | queue-based-site-access/queue-service/internal/handler/gate.go:88-94 | **Main.** in no state of any serial run, expired hashes included, does a recovery branch fire |
| `Admission.AdmitPendingMeaning` | queue-based-site-access/queue-service/internal/queue/worker.go:36-50 | **Main.** from any store: a head of the queue goes, exactly its entries with a hash are admitted in order, with every write they cause, and the loop stops only at full capacity, empty queue or after fifty dead entries |
| `Admission.GivesUpIff` | queue-based-site-access/queue-service/internal/queue/worker.go:34-50 | **Main.** `admitPending` stops with a slot free and somebody waiting iff fifty entries without a hash stand in a row before the end of the queue and the hashed ones before them leave a slot free: the exact limit of "until capacity is reached or the queue is empty" |
| `DeadLines.GiveUpIsReached` | queue-based-site-access/queue-service/internal/queue/worker.go:34-61 | **Main.** a run that gets there, with every tab refreshed and the reaper run every 5 s: fifty or more wait more than 24 h, one more joins, the one inside leaves, and the slot stays free |
| `WaitingRoom.Store.ReapStale` | queue-based-site-access/queue-service/internal/queue/scripts.go:96-113 | **Main.** the two snapshot loops with LREM count 1 equal a filter by live heartbeat, duplicates included, and the answer is by how much set and list shrank |
| `BankSchedules.SchedulesAreSerializable` | api-keycloak-security/api/internal/service/account.go:43-113 | **Main.** every schedule of begin, lock, update, insert, commit, rollback equals running the completed operations one at a time in completion order: same tables, same answers, one record per finished transaction |
| `BankSchedules.AnswersAreRight` | api-keycloak-security/api/internal/service/account.go:43-113 | **Main.** in every schedule each finished transaction answers the operation that was started; unless one of its calls was made to fail it paid, credited or refused as the ledger before it demanded |
| `BankSchedules.BooksAlwaysBalance` | api-keycloak-security/database/init.sql:6-21 | **Main.** at every moment of every schedule each committed balance is its ledger's sum and not negative |
| `BankSchedules.EverybodyCanFinish` | api-keycloak-security/api/internal/repository/account.go:32-36 | **Main.** no deadlock: from any moment of any schedule, steps alone and no failure bring every open transaction to its end |
| `EnrollmentLog.VerifyRefinesLog` | api-keycloak-mfa-email/api/internal/enrollment/store.go:82-104 | **Main.** in every run Verify accepts iff the trimmed code is the latest one, at most 5 min old, unused, after fewer than five wrong guesses |
| `EnrollmentLog.VerdictMeaning` | api-keycloak-mfa-email/api/internal/enrollment/store.go:82-104 | **Main.** in every run each verdict on an open Start iff: expired after 5 min, else too many after five wrong guesses since, else mismatch, else verified |
| `EnrollmentLog.StepUpRefinesLog` | api-keycloak-mfa-email/api/internal/enrollment/store.go:108-120 | **Main.** in every run IsStepUpVerified holds iff the latest success is at most 30 min old |
| `EnrollmentLog.CodesAreSpent` | api-keycloak-mfa-email/api/internal/enrollment/store.go:33-39 | **Main.** for every Start of every run, up to the user's next one: at most five verdicts that compared a guess, at most one success |
| `EnrollmentLog.SuccessForgetsEmail` | api-keycloak-mfa-email/api/internal/enrollment/store.go:101 | **Main.** in every run, after a success PendingEmail answers iff a later Start by that user is still open |
| `StepUpGate.GateMeaning` | api-keycloak-mfa-email/api/internal/auth/middleware.go:42-114 | **Main.** in every run each answer iff: through as X-User-Sub when freshly signed, named and MFA done or a code verified within 30 min; untrusted, unnamed or MFA required according to what is missing first |
| `ApiRuns.ApiGateMeaning` | api-keycloak-mfa-email/api/cmd/server/main.go:48-82 | **Main.** in every run of requests one gets through as X-User-Sub iff it is freshly signed, names a user, and says MFA was done or a freshly signed request naming that user verified a code within 30 min |
| `Wrapsig.CanonicalIsInjective` | api-keycloak-mfa-email/api/internal/wrapsig/sign.go:80-88 | **Main.** without line breaks in values, equal canonical strings mean equal signed headers |
| `Wrapsig.ChangedHeadersNeedACollision` | api-keycloak-mfa-email/api/internal/wrapsig/sign.go:45-78 | **Main.** whatever the MAC: a set that carries another one's signature and differs in a signed header is trusted only if the MAC collides on their two canonical strings |
| `Eta.CalculateETA` | queue-based-site-access/queue-service/internal/queue/store.go:127-151 | **Main.** -1 below five samples, else floor((newest - oldest) / (n - 1)) * (position - 1): the gap sum telescopes |
| `Tickets.TicketsPersist` | queue-based-site-access/queue-service/internal/queue/scripts.go:28-113 | between two moments of any interleaving the log only grows, and an entry in line later was there earlier or has a newer ticket |
| `Tickets.PassesIff` | queue-based-site-access/queue-service/internal/queue/scripts.go:12-58 | for one step: somebody gets in past a ticket that stays in line, all its own being later or absent, iff the step is such a luaTryAdmit |
| `Tickets.NewcomerOvertakes` | queue-based-site-access/queue-service/internal/queue/scripts.go:12-22 | a schedule in which it happens: 1 enters, 2 queues, 1 leaves, and before the refill 3 enters without a ticket |
| `Tickets.OvertakingIsUnfair` | queue-based-site-access/queue-service/internal/queue/scripts.go:12-22 | so first come, first served fails in that schedule |
| `Interleavings.StepRespectsCapacity` | queue-based-site-access/queue-service/internal/queue/scripts.go:12-22 | no atomic step grows the active set at or above capacity, and none by more than one |
| `Interleavings.PositionNeverGrows` | queue-based-site-access/queue-service/internal/queue/store.go:115-123 | over any stretch of any interleaving that keeps a session's entries, its position never grows |
| `Interleavings.HistoryIsNewest` | queue-based-site-access/queue-service/internal/queue/scripts.go:19-20 | in every interleaving the stored history is the newest hundred entries of the log of all admissions |
| `Interleavings.LastSetCounts` | queue-based-site-access/queue-service/internal/queue/store.go:165-169 | in every schedule the capacity in force is the number of the last SET |
| `Interleavings.FirstSeedCounts` | queue-based-site-access/queue-service/internal/queue/store.go:43-45 | without a SET it is the number of the first SETNX on an absent key |
| `Interleavings.UnsetCapacityStays` | queue-based-site-access/queue-service/internal/queue/scripts.go:13 | without either it stays, and an absent key counts as 3 |
| `Interleavings.HistoryIsRecent` | queue-based-site-access/queue-service/internal/queue/scripts.go:19-20 | in every schedule the history is the newest-first log of all admissions cut after at most 100 stamps |
| `Threads.ThreadsFollowASchedule` | queue-based-site-access/queue-service/internal/handler/gate.go:80-94 | any number of threads in any order drive the store through a schedule of atomic commands |
| `Threads.RunsAlone` | queue-based-site-access/queue-service/internal/handler/gate.go:14-48 | a handler or worker thread run alone to its end, one Redis command a step, does exactly what the serial model says |
| `Threads.OnlyEvictionsFreeSlots` | queue-based-site-access/queue-service/internal/queue/scripts.go:64-113 | a slot is lost only to a release, to leaving, or to the reaper for want of a heartbeat |
| `FreeSlots.PasserIsAdmitted` | queue-based-site-access/queue-service/internal/handler/gate.go:36-47 | such a visitor gets in and the line stays |
| `FreeSlots.RefillFillsIff` | queue-based-site-access/queue-service/internal/queue/worker.go:34-50 | a request that refills leaves a slot free before somebody waiting iff its refill gives up |
| `FreeSlots.OthersKeepFilled` | queue-based-site-access/queue-service/internal/handler/gate.go:14-48 | a request that does not refill creates no free slot before somebody waiting |
| `FreeSlots.AdmitTickFillsIff` | queue-based-site-access/queue-service/internal/queue/worker.go:15-50 | a worker tick fills the room from any store iff no fifty dead entries block the line |
| `DeadLines.NewcomerPasses` | queue-based-site-access/queue-service/internal/handler/gate.go:36-47 | and the next newcomer then walks past that line |
| `Fairness.WaitKeepsInvariantIff` | queue-based-site-access/queue-service/internal/queue/scripts.go:18-33 | time alone keeps the agreement iff no session hash reaches its 24 h expiry |
| `Fairness.DayLongRunsAreNeverStale` | queue-based-site-access/queue-service/internal/queue/scripts.go:18-33 | every run of at most 24 hours meets that condition |
| `Fairness.StaleVisitorQueuesWhileInside` | queue-based-site-access/queue-service/internal/handler/gate.go:36-47 | in general a session inside a full room whose hash ran out is queued while holding its slot |
| `Fairness.RefreshedStay` | queue-based-site-access/queue-service/internal/queue/store.go:20-23 | while no hash runs out, a session refreshed at most 30 s before every reap that neither leaves nor is released stays inside or in line |
| `Fairness.StaleRunQueuesWhileInside` | queue-based-site-access/queue-service/internal/handler/gate.go:36-47 | a run that gets there: a visitor of a room for one comes back after 24 h and 1 ms and is inside and in line at once |
| `Heartbeats.ServeKeys` | queue-based-site-access/queue-service/internal/queue/store.go:71-73 | from any store: which heartbeat keys a request writes, may delete and leaves alone, that nobody gets in without one, and that only live sessions survive a reap |
| `Heartbeats.KeysRecordRefreshes` | queue-based-site-access/queue-service/internal/queue/store.go:71-73 | in every serial run each heartbeat key is the last logged refresh plus 30 s, and every member was refreshed at most 30 s before the last reap |
| `SerialRuns.RefillRestores` | queue-based-site-access/queue-service/internal/queue/worker.go:36-50 | refilling makes an orderly store satisfy the full invariant |
| `SerialRuns.ServeEffect` | queue-based-site-access/queue-service/internal/handler/gate.go:14-48 | every request keeps the invariant, and its effect on room and line is one of: enter an empty line's free slot, join at the end, take sessions out and move the head of the line inside |
| `SerialRuns.RecoveryIsDead` | queue-based-site-access/queue-service/internal/handler/gate.go:19-26 | where every hash that says active has its slot the recovery branch does nothing |
| `SerialRuns.ServeKeepsBacked` | queue-based-site-access/queue-service/internal/handler/gate.go:14-48 | every request keeps that, whatever has expired |
| `Admission.AdmitPendingWithinCapacity` | queue-based-site-access/queue-service/internal/queue/scripts.go:42-58 | admission never takes the room above max(capacity, what it held) |
| `Admission.FillsExactly` | queue-based-site-access/queue-service/internal/queue/worker.go:36-50 | with a clean queue exactly min(max(capacity - active, 0), waiting) sessions are admitted from the head, leaving a full room or an empty line |
| `Admission.LongDeadLineGivesUp` | queue-based-site-access/queue-service/internal/queue/worker.go:34-50 | an input on which it does: one live entry, fifty dead, one live, three free slots |
| `Admission.PushedMeaning` | queue-based-site-access/queue-service/internal/queue/scripts.go:52-53 | admissions put their stamps first and the newest hundred stay |
| `Observations.TryAdmitSeen` | queue-based-site-access/queue-service/internal/queue/scripts.go:12-22 | session by session: in iff a slot is free, 3 without a key; hash active for 24 h, stamp first among the newest hundred, nothing else |
| `Observations.JoinQueueSeen` | queue-based-site-access/queue-service/internal/queue/scripts.go:28-35 | session by session: whoever has no live hash goes to the end, hash queued for 24 h, nothing else |
| `Observations.AdmitNextSeen` | queue-based-site-access/queue-service/internal/queue/scripts.go:42-58 | the answer named an entry with a live hash, which turns active and keeps its expiry |
| `Observations.ReleaseSeen` | queue-based-site-access/queue-service/internal/queue/scripts.go:64-75 | the drawn lose slot, hash and heartbeat, nobody else loses anything |
| `Observations.LeaveSeen` | queue-based-site-access/queue-service/internal/queue/scripts.go:81-90 | slot or else first entry, hash and heartbeat of the leaver go, nothing else |
| `Observations.ReapSeen` | queue-based-site-access/queue-service/internal/queue/scripts.go:96-113 | the silent lose slot, every entry and hash; everybody else keeps all of them, duplicates counted |
| `Observations.ReapCounts` | queue-based-site-access/queue-service/internal/queue/scripts.go:96-113 | the answer is by how much set and list shrank |
| `Observations.RecoverSeen` | queue-based-site-access/queue-service/internal/handler/gate.go:19-26 | a hash that says active without a slot goes, nothing else |
| `Observations.EnterSeen` | queue-based-site-access/queue-service/internal/handler/gate.go:36-42 | a visit to / with a slot free: inside, hashed, stamped, refreshed, the line untouched |
| `Observations.QueueUpSeen` | queue-based-site-access/queue-service/internal/handler/gate.go:44-47 | a visit to / without one: status queued, at the end unless in line already, refreshed |
| `Observations.OtherVisitsSeen` | queue-based-site-access/queue-service/internal/handler/gate.go:14-34 | any other visit changes nothing but what recovery does |
| `Observations.PollSeen` | queue-based-site-access/queue-service/internal/handler/gate.go:80-94 | a poll leaves no active hash without a slot and changes nothing else |
| `Observations.RefreshesSeen` | queue-based-site-access/queue-service/internal/handler/session.go:11-23 | pings refresh for 30 s exactly sessions with a live hash, the queue page exactly those not inside |
| `Observations.LeaveLineSeen` | queue-based-site-access/queue-service/internal/queue/store.go:97-103 | leaving the line lets nobody in |
| `Observations.ServeSetsCapacity` | queue-based-site-access/queue-service/internal/handler/admin.go:13-23 | only a positive number asked for changes the capacity, to that number |
| `Observations.LastNumberCounts` | queue-based-site-access/queue-service/internal/queue/store.go:165-169 | over whole serial runs the capacity in force is the last positive number asked for |
| `Observations.SeedCounts` | queue-based-site-access/queue-service/internal/queue/scripts.go:13 | before the first one it is the seed, else 3 |
| `Evictions.ReapSplits` | queue-based-site-access/queue-service/internal/queue/scripts.go:96-113 | both loops together are the filter |
| `WaitingRoom.Store.TryAdmit` | queue-based-site-access/queue-service/internal/queue/scripts.go:12-22 | the new store is the model's; admitted iff the room was not full, and then hash and set both say so and the stamp heads the newest hundred |
| `WaitingRoom.Store.JoinQueue` | queue-based-site-access/queue-service/internal/queue/scripts.go:28-35 | the new store is the model's; joined iff the session had no live hash |
| `WaitingRoom.Store.AdmitNext` | queue-based-site-access/queue-service/internal/queue/scripts.go:42-58 | the loop of at most fifty pops equals the loop-free description: drop the dead head, admit the entry behind it |
| `WaitingRoom.Store.Release` | queue-based-site-access/queue-service/internal/queue/scripts.go:64-75 | whatever SPOP draws: exactly min(count, active) sessions lose slot, hash and heartbeat |
| `WaitingRoom.Store.Leave` | queue-based-site-access/queue-service/internal/queue/scripts.go:81-90 | slot or first queue entry, hash and heartbeat go; the answer says whether a slot fell free |
| `WaitingRoom.Store.ReapActive` | queue-based-site-access/queue-service/internal/queue/scripts.go:98-104 | the first loop, members taken in any order |
| `WaitingRoom.Store.ReapQueue` | queue-based-site-access/queue-service/internal/queue/scripts.go:105-111 | the second loop, removing one occurrence per dead entry of the snapshot |
| `WaitingRoom.Store.AdmitPending` | queue-based-site-access/queue-service/internal/queue/worker.go:36-50 | the loop of script call and heartbeat equals its recursive description and terminates |
| `WaitingRoom.Store.ReapTick` | queue-based-site-access/queue-service/internal/queue/worker.go:55-61 | reap, then refill only if somebody was evicted |
| `WaitingRoom.Store.InitCapacity` | queue-based-site-access/queue-service/internal/queue/store.go:43-45 | seeds the capacity only when the key is absent |
| `WaitingRoom.Store.SetHeartbeat` | queue-based-site-access/queue-service/internal/queue/store.go:71-73 | the heartbeat key lives 30 s from now, nothing else changes |
| `WaitingRoom.Store.LeaveAndRefill` | queue-based-site-access/queue-service/internal/queue/store.go:97-103 | leave, then refill only if a slot fell free |
| `WaitingRoom.Store.GetPosition` | queue-based-site-access/queue-service/internal/queue/store.go:115-123 | the first occurrence, counted from one, or none when absent |
| `WaitingRoom.Store.ChangeCapacity` | queue-based-site-access/queue-service/internal/queue/store.go:165-169 | the capacity is that number, and the room is refilled at once |
| `WaitingRoom.Store.ReleaseSlots` | queue-based-site-access/queue-service/internal/queue/store.go:173-178 | release min(n, active) sessions and refill |
| `WaitingRoom.Store.RootHandler` | queue-based-site-access/queue-service/internal/handler/gate.go:14-48 | the store is the serial model's; a request is proxied iff its session is admitted afterwards, newly only at / and with a free slot |
| `WaitingRoom.Store.QueuePageHandler` | queue-based-site-access/queue-service/internal/handler/gate.go:52-68 | refreshes the heartbeat of a session that is not inside |
| `WaitingRoom.Store.PositionHandler` | queue-based-site-access/queue-service/internal/handler/gate.go:80-108 | active, a place in line with its estimated wait, or unknown, with the recovery branch |
| `WaitingRoom.Store.HeartbeatHandler` | queue-based-site-access/queue-service/internal/handler/session.go:11-23 | refreshes exactly the sessions that have a status |
| `WaitingRoom.Store.LeaveHandler` | queue-based-site-access/queue-service/internal/handler/session.go:28-41 | leaving over HTTP; without a cookie nothing happens |
| `WaitingRoom.Store.CapacityHandler` | queue-based-site-access/queue-service/internal/handler/admin.go:13-23 | a non-positive capacity is refused and changes nothing |
| `WaitingRoom.Store.ReleaseHandler` | queue-based-site-access/queue-service/internal/handler/admin.go:30-48 | the count is clamped to 1..100 before the release |
| `Eta.SortTimestamps` | queue-based-site-access/queue-service/internal/queue/store.go:132-138 | the collected timestamps in ascending order, a permutation of the history |
| `Eta.EtaIgnoresOrder` | queue-based-site-access/queue-service/internal/queue/store.go:127-151 | the estimate depends on the stamps only, not on their order |
| `Eta.EtaGrowsWithPosition` | queue-based-site-access/queue-service/internal/queue/store.go:144-150 | zero at position 1, never smaller further back |
| `Eta.EtaNearAverage` | queue-based-site-access/queue-service/internal/queue/store.go:146-150 | less than position - 1 seconds below the exact average times the places ahead |
| `Eta.EtaAppearsAfterFive` | queue-based-site-access/queue-service/internal/queue/store.go:125-131 | in every interleaving the estimate is -1 iff fewer than five admissions were ever recorded |
| `BankSchedules.SomebodyCanMove` | api-keycloak-security/api/internal/repository/account.go:32-36 | while a transaction is open it or the holder of its row can step |
| `BankSchedules.CommitKeepsSound` | api-keycloak-security/api/internal/repository/account.go:32-43 | a commit under the row lock makes no other transaction's read stale: no lost update |
| `BankSchedules.RecordsWereAsked` | api-keycloak-security/api/internal/service/account.go:43-113 | in every schedule answers are the atomic ones of their moment except for transactions made to fail |
| `Bank.AtomicKeepsBalanced` | api-keycloak-security/api/internal/service/account.go:43-113 | every operation keeps balance = deposits - withdrawals in the ledger, never negative; a refused or failed one changes nothing |
| `Bank.SeededIsBalanced` | api-keycloak-security/database/init.sql:29-43 | the seeded rows balance |
| `Bank.AtomicIsRight` | api-keycloak-security/api/internal/service/account.go:43-113 | on balanced tables, in terms of the ledger's sums: a withdrawal pays iff the amount is at most the funds, a deposit credits iff the column can hold it, and balance, one ledger row and nothing else change; otherwise the named refusal and no change |
| `BankService.AccountService.Move` | api-keycloak-security/api/internal/service/account.go:43-113 | Deposit and Withdraw call by call: without a fault the atomic bank's answer and tables, paid or refused as the ledger demands; on any failed call nothing changes |
| `BankService.AccountService.CreateAccount` | api-keycloak-security/api/internal/service/account.go:127-137 | a new account with balance zero, or a unique index's refusal of its number or key |
| `EnrollmentLog.IssueMeaning` | api-keycloak-mfa-email/api/internal/enrollment/store.go:63-78 | the log summary is the latest Start and the wrong guesses after it |
| `EnrollmentLog.AcceptanceMeaning` | api-keycloak-mfa-email/api/internal/enrollment/store.go:101-103 | the summary counts an acceptance iff one followed the latest Start |
| `EnrollmentLog.SuccessesNeedNewCodes` | api-keycloak-mfa-email/api/internal/enrollment/store.go:82-104 | two successes of one user always have a Start between them |
| `EnrollmentLog.PendingEmailMeaning` | api-keycloak-mfa-email/api/internal/enrollment/store.go:124-132 | in every run PendingEmail answers an email iff it is that of the latest Start and no success, expiry or too-many-tries refusal has ended that Start |
| `EnrollmentLog.SecondStartMayBeOver` | api-keycloak-mfa-email/api/internal/enrollment/store.go:89-92 | a later Start alone is not enough: a late try ends it |
| `EnrollmentLog.IssueCounts` | api-keycloak-mfa-email/api/internal/enrollment/store.go:82-104 | the summary's counts are the numbers of verdicts since the latest Start |
| `EnrollmentLog.NoPendingMeaning` | api-keycloak-mfa-email/api/internal/enrollment/store.go:85-88 | in every run Verify knows no code iff no Start of the user is open |
| `Enrollment.Store.Start` | api-keycloak-mfa-email/api/internal/enrollment/store.go:63-78 | a fresh code of six digits whose value is the draw replaces any pending entry; a failed random source changes nothing |
| `Enrollment.Store.Verify` | api-keycloak-mfa-email/api/internal/enrollment/store.go:82-104 | the new store and the verdict are the model's, lazy deletions included |
| `Enrollment.Store.IsStepUpVerified` | api-keycloak-mfa-email/api/internal/enrollment/store.go:108-120 | the answer and the lazy deletion are the model's: no entry is left after a negative answer |
| `Enrollment.Store.PendingEmail` | api-keycloak-mfa-email/api/internal/enrollment/store.go:124-132 | the pending entry's email, if there is one |
| `Enrollment.OthersUntouched` | api-keycloak-mfa-email/api/internal/enrollment/store.go:63-120 | no call touches another user's entries |
| `Enrollment.MailedCodeWorks` | api-keycloak-mfa-email/api/internal/enrollment/store.go:63-104 | the mailed code, blanks around it allowed, is accepted for five minutes and opens a 30-minute window |
| `Enrollment.VerifyForgetsEmail` | api-keycloak-mfa-email/api/internal/enrollment/store.go:82-104 | from any state only a wrong guess leaves the pending email readable; a success never does |
| `Enrollment.CheckForgets` | api-keycloak-mfa-email/api/internal/enrollment/store.go:108-120 | a check forgets a window that is over and changes nothing else |
| `StepUpGate.GateIsACheck` | api-keycloak-mfa-email/api/internal/auth/middleware.go:91-114 | the gate moves the step-up store only as a check by that user does |
| `StepUpGate.FreshMeansRecent` | api-keycloak-mfa-email/api/internal/wrapsig/sign.go:66-72 | freshly signed means at most 30 s ahead and less than 31 s old, up to the distance where the check overflows |
| `ApiRuns.MoveMoneyIsItsCall` | api-keycloak-mfa-email/api/internal/auth/middleware.go:91-114 | a money request moves the step-up store as its check in the run of calls does |
| `ApiRuns.CallsAreSigned` | api-keycloak-mfa-email/api/cmd/server/main.go:48-74 | nothing reaches the step-up store but what a freshly signed request asks for its own user |
| `Wrapsig.ChangedHeadersAreRefused` | api-keycloak-mfa-email/api/internal/wrapsig/sign.go:45-78 | with an injective MAC a set that differs in any signed header from the signed one is refused |
| `Wrapsig.CanonicalString` | api-keycloak-mfa-email/api/internal/wrapsig/sign.go:80-88 | the loop, sort and join compute the canonical string |
| `Wrapsig.CanonicalIsPrinted` | api-keycloak-mfa-email/Makefile:248 | what is signed is, character by character, the text that the Makefile prints |
| `Wrapsig.CanonicalIgnoresListing` | api-keycloak-mfa-email/api/internal/wrapsig/sign.go:20-32 | permuting the header list does not change the canonical string |
| `Wrapsig.CanonicalIsFixed` | api-keycloak-mfa-email/Makefile:248 | whatever the values, the lines come in the one order the Makefile hard-codes |
| `Wrapsig.WindowIsExact` | api-keycloak-mfa-email/api/internal/wrapsig/sign.go:66-72 | in wrapping 64-bit arithmetic, up to 9223372036 s apart, the check accepts iff the skew is at most 30 s |
| `Wrapsig.WindowRangeIsExact` | api-keycloak-mfa-email/api/internal/wrapsig/sign.go:66-72 | the check is right for all timestamps up to a distance iff that distance is at most 9223372036 s |
| `Wrapsig.VerifyMeaning` | api-keycloak-mfa-email/api/internal/wrapsig/sign.go:53-78 | trusted iff the signature is non-empty and that of the received headers and the timestamp passes the check; in the exact range that is a skew of at most 30 s |
| `Wrapsig.SignedSetsVerify` | api-keycloak-mfa-email/authz/cmd/server/main.go:145-148 | what the wrapper signs at t verifies iff the clock is within 30 s of t |
| `Wrapsig.RefusalMeaning` | api-keycloak-mfa-email/api/internal/wrapsig/sign.go:53-78 | each of the five refusals iff, in the order of the checks |
| `Text.ParseFormat` | api-keycloak-mfa-email/api/internal/wrapsig/sign.go:62-65 | ParseInt undoes FormatInt on every 64-bit integer, and trimming leaves the text alone |
| `Text.CodeValue` | api-keycloak-mfa-email/api/internal/enrollment/store.go:63-70 | the code of a draw is its decimal value in six digits |
| `Text.CodesDiffer` | api-keycloak-mfa-email/api/internal/enrollment/store.go:63-70 | different draws give different codes |
| `Text.ParseMeaning` | api-keycloak-mfa-email/api/internal/wrapsig/sign.go:62-65 | ParseInt accepts exactly an optional sign and digits that fit 64 bits, with their decimal value |
| `Text.TrimMeaning` | api-keycloak-mfa-email/api/internal/wrapsig/sign.go:62-65 | trimming takes blanks off both ends and nothing else |

## Left out

- HTTP routing, cookies, JSON, the reverse proxy, logging, static pages and the `Snapshot` endpoint: plumbing around the modelled steps.
- The `joined_at` and `admitted_at` hash fields: written, never read.
- Redis and PostgreSQL failures in the middle of a script or statement: each step is taken as atomic. Errors between the statements of a transaction are modelled.
- Redis errors in the waiting room's Go calls: the code ignores them, and the model assumes the calls succeed.
- Sub-cent and floating-point amounts: `NUMERIC(15,2)` rounds them differently in balance and ledger row; the model is about whole cents.
- Unparsable entries in the timing history: the program writes only decimal integers there, so `Eta.CalculateETA` takes integers; 64-bit overflow of Unix times is not modelled there.
- Sorting is modelled by insertion; what is proved depends only on the result being the sorted permutation.
- `ListTransactions`: SQL ordering by `created_at` alone leaves ties open.
- The bodies of `EnrollStart` and `EnrollVerify` requests, the mailer and the Keycloak client: parsing and foreign calls around the modelled gates and store.
- HMAC-SHA-256, base64url and constant-time comparison: the MAC is a parameter, with injectivity assumed only where stated.
- The JWE, JWS and JWKS code, and every other example in the repository: wrappers over libraries, configuration or user interface.
- `api-keycloak-mfa-email/authz/internal/wrapsig/sign.go`: a byte-identical copy of the modelled file.
