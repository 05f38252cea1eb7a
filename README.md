# EC2 Power Switch — a verified model of its polling core

EC2 Power Switch is a small desktop tool that lists a fixed set of EC2
instances, shows their state, address and uptime, and lets the user start,
stop or open a remote SSH session on them. A background thread keeps the
table current. It counts ticks, each one second of sleep plus, on a tick
that polls, the time the state query takes. It polls the instance states
every 60 ticks. After the user starts or stops an instance it polls every 6
ticks for the next 10 polls, or for the next 9 when the request arrives
while a poll's query is running.

This project models the logic of `main.py` that decides and computes things:

- **Scheduler** (`scheduler.dfy`): the watcher loop's tick counter and the
  shared burst counter. A `Scheduler` class splits each loop iteration in
  two. `Tick` chooses the interval and decides whether to poll. `UseBurst`
  uses up one unit of burst after the query has returned. `TriggerBurst`
  is a start or stop request. `Watch` is the loop itself. It accepts a
  request during the sleep or while a query runs, and it reports the ticks
  at which it reconciles. `Run` is the functional specification of any run
  of iterations. Lemmas about `Run` give the schedule in closed form.
- **Status store** (`store.dfy`, `ordered_maps.dfy`): the `OrderedDict` of
  statuses that the watcher updates in place. It is a class with an id order
  (`seq`) and a status `map`. One reconciliation is `merge`: each answered
  status is assigned under its id. The lemmas show that a merge never loses
  a key, never moves an existing key, writes exactly the answered ids and is
  idempotent.
- **Query answer to statuses** (`query.dfy`, `instances.dfy`): the nested
  loop over reservations and rows. Each row gives a status: the name falls
  back to the display name, an empty address becomes absent, and uptime is
  `now - launch` for running instances only.
- **Configuration** (`configs.dfy`): choosing instances from the parsed
  sections of `instances.ini`. A section without a non-empty `id` is skipped.
  The section name becomes the display name, and `user` defaults to
  `ec2-user`.
- **Display** (`display.dfy`, `decimal.dfy`): the uptime text `H:MM`, with
  the hours written as `str` writes them, and the rule for which
  context-menu entries are enabled.

The `aws` queries and actions are outside the model. So are the clock and
the configuration file. Their results arrive as parameters:
`Query.QueryAnswer` is the answer of `describe-instances` (the rows, or the
error output of a failed command). `now` and the launch times are whole
seconds. `Configs.Section` is a section the configuration parser has already
read.

Some behaviour of the program is easy to get wrong, and the model pins it
down:

- The program has no immediate-reconcile flag. After a start or stop during
  the sleep, the first poll comes at the next multiple of 6 of the tick
  counter. The counter is never reset. This is `Scheduler.TriggerSchedule`.
- A start or stop while a poll's query runs is charged for that poll: the
  counter goes from 10 to 9 as soon as the query returns. Only nine fast
  polls follow. This is `Scheduler.QueryTimeTrigger`.
- Uptime is not advanced between polls. It changes only when a
  reconciliation recomputes it.
- A second start or stop during a burst resets the counter to 10. It does
  not extend the burst.
- The reconciliation on entry to the watcher, at tick 0, does not use up
  any burst.
- A failed query raises out of `update_treeview`, and the store and the
  table stay as they were. In the watcher thread nothing catches the
  exception, so the thread ends and no later poll is made.

## Model

| member | source | states |
|---|---|---|
| `Scheduler.Interval` | main.py:167 | the interval is 6 exactly when the burst counter is positive, and 60 exactly when it is not |
| `Scheduler.Decide` | main.py:167-169 | the first half of an iteration advances the tick by one and keeps the counter; with a positive counter it reconciles exactly on multiples of 6, otherwise exactly on multiples of 60, so every reconciliation falls on a multiple of 6 |
| `Scheduler.Settle` | main.py:171 | the second half keeps the tick; after a reconciliation a positive counter drops by exactly one, otherwise nothing changes, and a counter that was not negative stays between 0 and its old value |
| `Scheduler.AfterAction` | main.py:98 | a start or stop request sets the counter to 10 and keeps the tick; no request changes nothing |
| `Scheduler.Next` | main.py:166-172 | one iteration, with a request during the sleep before `Decide` or during the query between `Decide` and `Settle`: the tick advances by one, reconciliations fall on multiples of 6, a counter within 0..10 stays within it, a request during a reconciling query leaves 9, and an iteration without request or reconciliation keeps the counter |
| `Scheduler.Run` | main.py:165-172 | defines a run of iterations from a starting state: the final state and the ticks that reconciled, in order (its properties are the lemmas below) |
| `Scheduler.Scheduler.constructor` | main.py:156-165 | the watcher starts at tick 0 with no burst |
| `Scheduler.Scheduler.Tick` | main.py:167-169 | the tick advances by one and the iteration reconciles iff the new tick is divisible by the interval chosen from the burst counter; the counter is not touched |
| `Scheduler.Scheduler.UseBurst` | main.py:171 | after a reconciliation the counter, as it is once the query has returned, drops by one if positive and otherwise stays; without a reconciliation it is unchanged |
| `Scheduler.Scheduler.TriggerBurst` | main.py:91-108 | a start or stop request sets the burst counter to exactly 10, whatever it was, and leaves the tick alone |
| `Scheduler.Watch` | main.py:158-172 | the watcher reconciles once at tick 0 on entry, then at exactly the ticks the `Run` specification gives for the requests, each arriving during the sleep or while the query runs |
| `Scheduler.RunTicks` | main.py:165-170 | a run of n iterations ends n ticks later with at most n reconciliations, whose ticks lie inside the run and strictly increase |
| `Scheduler.BurstStaysInRange` | main.py:169-171 | a burst counter that starts between 0 and 10 stays between 0 and 10 through any run of iterations and requests, so it never goes negative |
| `Scheduler.NormalSchedule` | main.py:167-170 | with no burst and no requests the loop reconciles at exactly the multiples of 60 and the burst stays 0 |
| `Scheduler.NormalModeAtSixty` | main.py:167-170 | in normal mode, tick 59 does not reconcile and tick 60 does |
| `Scheduler.FastWindow` | main.py:167-171 | while the burst counter is positive, the next reconciliation is at the next multiple of 6 and uses up one unit of burst |
| `Scheduler.BurstSchedule` | main.py:167-171 | a burst counter of b gives b reconciliations at consecutive multiples of 6, starting with the first one after the current tick, and ends at 0 |
| `Scheduler.TriggerSchedule` | main.py:158-172 | after a start or stop during the sleep the next ten reconciliations fall on the ten multiples of 6 after the current tick, and the counter is then 0; there is no reconciliation on the very next tick unless that tick is a multiple of 6 |
| `Scheduler.QueryTimeStep` | main.py:167-171 | a request that arrives while a reconciliation's query runs leaves the counter at 9 once that reconciliation ends, on a tick that is a multiple of 6 |
| `Scheduler.QueryTimeTrigger` | main.py:167-171 | after a request during a reconciliation's query, only nine fast reconciliations follow it, on the next nine multiples of 6, and the counter is then 0 |
| `Scheduler.RequestWithoutQuery` | main.py:167-171 | a request that reaches an iteration that does not reconcile acts as one during the following sleep |
| `Scheduler.RunAppend` | main.py:166-172 | running two request sequences one after the other is the same as running their concatenation |
| `OrderedMaps.Put` | main.py:146 | assigning into the ordered dictionary replaces the value; an existing key keeps its position, a new key is appended, and keys stay distinct |
| `OrderedMaps.PutAllEntries` | main.py:145-146 | after a run of assignments each key has the value of the last assignment to it, and keys not assigned keep their old values |
| `OrderedMaps.PutAllKeepsOrder` | main.py:145-146 | a run of assignments never moves or removes a key already present |
| `OrderedMaps.Merge` | main.py:144-146 | defines one reconciliation's merge as the assignment of each of the new collection's items in its order; the result keeps keys distinct (its properties are the three lemmas below) |
| `OrderedMaps.MergeEntries` | main.py:144-146 | after a merge no key is lost, every answered id holds its new status, and every id not answered keeps its old status |
| `OrderedMaps.MergeOrder` | main.py:144-146 | after a merge the old keys keep their positions as a prefix, and only answered ids that were not present are appended |
| `OrderedMaps.MergeIdempotent` | main.py:144-146 | merging the same answer twice gives the same store as merging it once |
| `Store.StateStore.constructor` | main.py:177 | the status store starts empty |
| `Store.StateStore.Update` | main.py:139-146 | a failed query raises its error output and changes nothing; otherwise the store becomes the merge of the old store with the statuses of the answer, and its keys stay distinct |
| `Instances.DeriveStatus` | main.py:75-86 | uptime is present exactly for running instances and is then now minus launch time; the name is the Name tag unless it is missing or empty, then the display name; the address is absent exactly when none or an empty one was reported |
| `Query.CollectStates` | main.py:58-88 | a failed query raises its error output; otherwise the nested loop over reservations and rows builds exactly `StatesOf` |
| `Query.StatesOf` | main.py:71-88 | defines the collection built from an answer: every row's derived status assigned under its id, reservation by reservation and row by row, with distinct keys |
| `Query.StatusItemsStep` | main.py:73-87 | handling one more row is one more assignment of its derived status under its id |
| `Query.StatesOfKeys` | main.py:71-88 | the collected statuses are keyed by exactly the ids of the answered rows |
| `Query.StatesOfLastRow` | main.py:73-87 | each collected status is the one derived from the last row that reported its id |
| `Configs.SectionConfig` | main.py:45-54 | a section names an instance exactly when its `id` is present and non-empty; then the display name is the section name, `user` defaults to `ec2-user`, and `directory` is absent when missing |
| `Configs.ConfigsOf` | main.py:44-55 | defines the configured collection: each section with a non-empty id, in file order, assigned under that id, with distinct keys |
| `Configs.LoadConfigs` | main.py:41-55 | the loop over the sections builds exactly `ConfigsOf` |
| `Configs.ConfigsOfKeys` | main.py:44-49 | an instance is configured exactly when some section names it with a non-empty id |
| `Configs.ConfigsOfIds` | main.py:46-50 | every configuration is filed under its own id, and the empty id is never configured |
| `Configs.ConfigsOfLastSection` | main.py:49-54 | when several sections name one instance, the last of them supplies its configuration |
| `Display.TwoDigits` | main.py:126 | minutes are written as exactly two digits that read back as the minute count |
| `Display.FormatElapsed` | main.py:121-126 | no uptime gives the empty text; an uptime gives canonical hours, a colon and two digits |
| `Display.FormatElapsedMeaning` | main.py:121-126 | the uptime text reads back as hours h and minutes m below 60, with the uptime within the minute that starts h hours and m minutes in |
| `Decimal.NatToDecimal` | main.py:126 | the digits of a count have no leading zero unless the count is 0, and a single digit exactly for counts below 10 |
| `Decimal.IntToDecimal` | main.py:126 | the text of an integer is canonical (no leading zero, no `-0`) and starts with a minus sign exactly for negative numbers |
| `Decimal.IntRoundTrip` | main.py:126 | the decimal text of the hour count, minus sign included, reads back as that count |
| `Decimal.IntCanonical` | main.py:126 | a canonical signed text is exactly the text written for the number it reads as, so the hour text is unique |
| `Display.FormatElapsedUnique` | main.py:121-126 | the uptime text is the only text with canonical hours, a colon and two minute digits that reads back as its hours and minutes |
| `Display.EnabledEntries` | main.py:220-227 | start is enabled exactly when the state is not running; stop exactly when it is running; remote SSH exactly when it is running and has a non-empty address |
| `Display.MenuForDerivedStatus` | main.py:220-227 | for a status built from a row, exactly one of start and stop is offered, start exactly when no uptime is shown, and SSH exactly when the row is running with a reported address |

## Left out

- The `aws` and `code` commands and their argument lists (main.py:60-68 and 91-118). This includes `open_vscode_remote_ssh` as a whole. They are external processes whose effects the program does not observe. The answer of the query is a parameter.
- JSON decoding, `strptime` and `datetime.now` (main.py:69-77). They are library calls. Times are whole seconds, so `total_seconds()` float arithmetic is not modelled. A negative uptime (clock skew) is kept and formatted with floor division, as Python's `divmod` does.
- The file-existence check and `configparser` reading (main.py:37-43). These are I/O and a library. This includes its `DEFAULT` section inheritance and its key case folding. The model starts from parsed sections.
- Threads, `time.sleep`, the `continue_watching` flag and `join` (main.py:155, 166, 172, 234-243). A start or stop request reaches an iteration either during the sleep or while its query runs. The query is the only step that takes time. A request between the read and the write of `status_watching_burst -= 1` inside one bytecode sequence is not modelled. Such a request would be lost.
- Scheduler.Run: time is counted in ticks, not seconds. A reconciling tick lasts one second plus the query's running time, and the model does not measure that.
- Watch: does not model that an exception from a failed query ends the watcher thread. `Store.StateStore.Update` models the failure itself.
- All tkinter code: `init_treeview`, the `tree.item` row refresh, menu construction, event binding and the selected-row lookup (main.py:129-137, 147-153, 179-231, 240). Only the enable rule of `show_menu` is modelled.
- The `KeyError` for a returned id that is not configured (main.py:76). The precondition `Query.AllConfigured` excludes it.
