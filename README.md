# Process monitor: snapshot diff and session tick

The backend polls the operating system's process list once a second for every
connected client socket. It compares each new listing with the previous one,
the *baseline*, and pushes one `processesStarted` event per newly seen process
and one `processesEnded` event per vanished process, each carrying the record's
`name`, `pid` and a date. It then adopts the new listing as the baseline. The
baseline starts empty, so the first tick announces every running process. If
the listing cannot be fetched, the error goes to the server log and nothing
else happens.

This project models that core in two modules:

- `ProcessDiff` (`process_diff.dfy`) is the pure diff. `Proc` is a process
  record. `NameOccurs` is the by-name lookup. `Unmatched` is the order-keeping
  filter that both halves of the diff use. `Started(prev, cur)` and
  `Ended(prev, cur)` are its two instances. The filter is specified as a
  subsequence (`IsSubsequence`) whose multiset holds every unmatched record as
  often as the input does and no matched one. `UnmatchedUnique` proves that only
  one sequence meets this specification. The remaining lemmas cover the first
  tick, no change, what happens when the listing empties, identity by name
  only, and where reported names come from.
- `ProcessSession` (`session.dfy`) is the per-socket state. It is a `Session`
  class holding the `baseline`, the `events` pushed to the client and the
  `errorLog` shown to the operator. `Tick` takes the outcome of one fetch: either
  `Listed(procs)` or `FetchFailed(error)`. It emits the started events and then
  the ended events through the `EmitAll` loop, then assigns the baseline. Its
  postcondition ties the new state to `TickEvents`, and `TickEventsLayout`
  states the layout of that event sequence. `EventName.Wire` gives the two event
  names as they appear on the wire. `ConnectAndPoll` runs a fresh session
  through a listing, a failed fetch and a second listing.

Identity is by name alone, as in the code. A process that exits while another
one with the same name starts within one tick is not reported. A pid change on
a name that is still present is not reported either.

The code keeps duplicate records: two fresh records with the same name both
produce an event, and the model does the same (the multiset clause of
`StartedSpec`, with `DuplicatesKept` as an example). The code has no guard
against overlapping fetches, and the model adds none. Everything after the
fetch (diff, emits, baseline assignment) runs without suspension, so
overlapping ticks amount to a sequence of whole `Tick` calls in the order their
fetches complete.

## Model

| member | source | states |
|---|---|---|
| `ProcessDiff.NameOccurs` | src/utils/getProcesses.ts:13 | true exactly when some record of the list has the given name (the lookup at lines 13 and 27) |
| `ProcessDiff.UnmatchedSpec` | src/utils/getProcesses.ts:11-28 | the shared filter returns a subsequence of its input in input order, holding each record whose name the other list lacks exactly as often as the input does, and no record whose name the other list has |
| `ProcessDiff.UnmatchedUnique` | src/utils/getProcesses.ts:11-28 | any sequence with that property is the filter's result, so the specification determines the result completely |
| `ProcessDiff.StartedSpec` | src/utils/getProcesses.ts:11-14 | started is the order-preserving subsequence of the new listing whose names do not occur in the baseline, duplicates kept; a record is in it iff it is in the listing and its name is not in the baseline |
| `ProcessDiff.StartedUnique` | src/utils/getProcesses.ts:11-14 | started is the only subsequence of the new listing with that multiset |
| `ProcessDiff.EndedSpec` | src/utils/getProcesses.ts:25-28 | ended is the order-preserving subsequence of the baseline whose names do not occur in the new listing, duplicates kept; a record is in it iff it is in the baseline and its name is not in the listing |
| `ProcessDiff.EndedUnique` | src/utils/getProcesses.ts:25-28 | ended is the only subsequence of the baseline with that multiset |
| `ProcessDiff.NothingUnmatchedIff` | src/utils/getProcesses.ts:11-28 | the filter is empty iff every name of its input occurs in the other list |
| `ProcessDiff.UnmatchedSeesOnlyNames` | src/utils/getProcesses.ts:13-27 | two "other" lists with the same set of names, whatever their pids, order or repetitions, give the same filter result |
| `ProcessDiff.PidsNeverCompared` | src/utils/getProcesses.ts:13-27 | started depends on the baseline only through its names, and ended depends on the new listing only through its names |
| `ProcessDiff.FirstTick` | src/utils/getProcesses.ts:5-28 | against the empty initial baseline, started is the whole listing and ended is empty |
| `ProcessDiff.AllGone` | src/utils/getProcesses.ts:11-28 | against an empty listing, started is empty and ended is the whole baseline |
| `ProcessDiff.NoChange` | src/utils/getProcesses.ts:11-28 | a listing compared with itself gives empty started and empty ended |
| `ProcessDiff.NoChangeIff` | src/utils/getProcesses.ts:11-28 | both halves are empty iff baseline and listing have the same set of names |
| `ProcessDiff.DiffNamesDisjoint` | src/utils/getProcesses.ts:11-28 | every started name is in the listing and not in the baseline; every ended name is in the baseline and not in the listing; no name is both started and ended |
| `ProcessDiff.PidChangeIsNotAStart` | src/utils/getProcesses.ts:11-28 | baseline a/1 and listing a/99, b/2 give started = [b/2] and ended = [] |
| `ProcessDiff.DuplicatesKept` | src/utils/getProcesses.ts:11-14 | two fresh records with the same name are both started, in listing order |
| `ProcessDiff.SubsequenceMultiset` | src/utils/getProcesses.ts:11-14 | a filtered subsequence never holds a record more often than its source list |
| `ProcessSession.AnnounceSpec` | src/utils/getProcesses.ts:16-23 | the emit loop's events: one per record, at that record's position, with its name, its pid and the date |
| `ProcessSession.AnnounceSnoc` | src/utils/getProcesses.ts:16-23 | emitting for one more record appends exactly one event for it |
| `ProcessSession.TickEventsLayout` | src/utils/getProcesses.ts:16-37 | a successful tick emits exactly one started event per started record, then exactly one ended event per ended record, each with that record's name and pid |
| `ProcessSession.Session.constructor` | src/utils/getProcesses.ts:5 | a new session has an empty baseline and has emitted and logged nothing |
| `ProcessSession.Session.Emit` | src/utils/getProcesses.ts:18-22 | one emit appends exactly that event to the client's log |
| `ProcessSession.Session.EmitAll` | src/utils/getProcesses.ts:16-23 | the loop appends the events for all records, in order, and changes nothing else |
| `ProcessSession.Session.Tick` | src/utils/getProcesses.ts:7-43 | a listing appends the tick's started-then-ended events, sets the baseline to the listing and logs nothing; a failed fetch logs the error and leaves baseline and events as they were |
| `ProcessSession.ConnectAndPoll` | src/utils/getProcesses.ts:4-43 | a fresh session that sees a listing, a failure and a second listing emits the whole first listing as started, nothing for the failure, then the diff of the second listing against the first |

## Left out

- The operating-system process listing (a foreign call) is the `FetchResult` argument of `Tick`. Only `name` and `pid` of each record are modelled, because the code reads nothing else.
- The one-second timer is real-time scheduling. The model is the sequence of `Tick` calls, in the order their fetches complete.
- ProcessSession.Session.Tick: the model takes one `date` per tick. The code reads the clock and formats it in the pt-BR locale separately for each event, so dates within one tick may differ. Locale time formatting is not modelled.
- ProcessSession.Session.EmitAll: puts the same `date` on every event it describes, for the same reason as `ProcessSession.Session.Tick`.
- ProcessSession.Announce: puts the same `date` on every event it describes, for the same reason as `ProcessSession.Session.Tick`.
- ProcessSession.AnnounceSpec: puts the same `date` on every event it describes, for the same reason as `ProcessSession.Session.Tick`.
- ProcessSession.TickEventsLayout: puts the same `date` on every event it describes, for the same reason as `ProcessSession.Session.Tick`.
- The operator log is modelled as the `errorLog` sequence of error values. The fixed message text printed before the error is not part of the model.
- The socket server (port 8000, the allowed origin, transports, connect and disconnect logging) is transport plumbing. The disconnect handler does not stop the timer, so there is no cancellation to model.
- An exception thrown by an emit would skip the rest of the tick, including the baseline assignment. The model assumes emits do not fail, because socket emits report no errors to the sender.
- Running time (the nested scans are quadratic) is not modelled. Only the results are proved.
