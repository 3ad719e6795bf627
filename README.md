# WarmRoast sampling task and VM selection, in Dafny

WarmRoast is a sampling profiler for Java VMs. It attaches to a running VM, and
a timer task (`WarmRoast.run`) fires once per sampling interval. Each firing
takes a dump of all threads and logs every qualifying thread's stack, with the
interval, on that thread's `StackNode`. The nodes are kept in a `TreeMap`
keyed by thread name. Before sampling starts, `main` lists the VMs on the machine. It
drops the profiler's own VM from the list and picks a VM by process id, by
name, or from a numbered menu sorted by display name. It also turns a timeout
in seconds into an absolute end time.

The model has five modules:

- `Wrappers` (`wrappers.dfy`) holds `Option`, which stands for a Java reference that may be null.
- `JavaString` (`java_string.dfy`) gives `String.compareTo` and `String.contains`, the two
  string operations the selection relies on. It proves that `compareTo` is a
  total order and that `contains` means "occurs at some position".
- `Sampling` (`sampling.dfy`) states on values what one firing does. `Record(logs, dump, filter, interval)`
  gives, per thread name, the sequence of `log(stack, interval)` calls made so
  far. The lemmas say which keys are added, which calls each node receives
  and in what order, and what the filter and the null checks exclude.
- `Roast` (`roast.dfy`) is the session object, written as a class. `WarmRoast` holds the `nodes` map
  and the `filterThread`, `endTime` and cancelled state. Its methods are
  `GetNode` (lookup or lazy insert) and `Run`, one firing at clock `now`
  with the dump as an argument. `Run` is proved against `Sampling.Record`.
  `StackNode` is opaque apart from a ghost record of the calls to `log`.
- `Launcher` (`launcher.dfy`) holds the pure selection logic of `main`: the self-filter,
  the stable sort by display name, the first-match by VM name, the 1-based
  menu choice with Java `int` arithmetic, and the timeout to end-time
  computation.

The call tree with its self and total times, the symbol remapping and the
web view live in `StackNode`, `McpMapping` and `DataViewServlet`, which are
not part of this model. When the end time is reached, WarmRoast cancels the
task and prints a message. It does not exit: the process keeps running in
`server.join()`. `Run` models this as the `Stopped` outcome, which carries no
exit status. Only a failure to take the dump ends the process, with status 3.

## Model

| member | source | states |
|---|---|---|
| JavaString.CompareTo | src/main/java/com/sk89q/warmroast/WarmRoast.java:269 | `compareTo` is zero exactly when the two display names are equal |
| JavaString.CompareToFlip | src/main/java/com/sk89q/warmroast/WarmRoast.java:269 | swapping the two names negates `compareTo`, so the comparator is consistent in both directions |
| JavaString.NotAfterTotal | src/main/java/com/sk89q/warmroast/WarmRoast.java:269 | of any two names, one sorts no later than the other |
| JavaString.NotAfterTransitive | src/main/java/com/sk89q/warmroast/WarmRoast.java:269 | "sorts no later than" is transitive, so the comparator is a valid sort order |
| JavaString.Contains | src/main/java/com/sk89q/warmroast/WarmRoast.java:228 | the empty string is contained in every name, and a contained string is no longer than the name |
| JavaString.ContainsIff | src/main/java/com/sk89q/warmroast/WarmRoast.java:228 | `contains` holds exactly when the substring occurs at some position of the display name |
| Sampling.TimeUp | src/main/java/com/sk89q/warmroast/WarmRoast.java:152-153 | with the default end time -1, no clock value stops sampling, and no firing stops before the end time |
| Sampling.Qualifies | src/main/java/com/sk89q/warmroast/WarmRoast.java:166-172 | the per-entry test: a recorded entry has a thread name and a stack, and with a filter set its name is the filter. What skipping the other entries does to the nodes is stated by `UnnamedOrStacklessSkipped`, `FilterKeepsOthers`, `NoFilterRecordsAll` and `RecordKeys` |
| Sampling.Step | src/main/java/com/sk89q/warmroast/WarmRoast.java:163-175 | a qualifying entry adds its thread's key and appends exactly one `(stack, interval)` call to that thread only; any other entry changes nothing |
| Sampling.Record | src/main/java/com/sk89q/warmroast/WarmRoast.java:162-176 | walking a dump, one `Step` per entry in order, never removes a key |
| Sampling.RecordKeys | src/main/java/com/sk89q/warmroast/WarmRoast.java:162-176 | after a dump, the key set is the old key set plus the names of exactly the qualifying entries |
| Sampling.RecordCalls | src/main/java/com/sk89q/warmroast/WarmRoast.java:162-176 | after a dump, each node's calls are its old calls followed by one call per qualifying entry of its thread, in dump order |
| Sampling.UnnamedOrStacklessSkipped | src/main/java/com/sk89q/warmroast/WarmRoast.java:163-168 | recording any dump gives the same result as recording only its entries that have both a thread name and a stack |
| Sampling.FilterKeepsOthers | src/main/java/com/sk89q/warmroast/WarmRoast.java:170-172 | with a filter set, no key other than the filtered name is added and no other thread's node is logged |
| Sampling.NoFilterRecordsAll | src/main/java/com/sk89q/warmroast/WarmRoast.java:166-175 | without a filter, every entry with a name and a stack gets its key and its call logged |
| Sampling.RecordGrows | src/main/java/com/sk89q/warmroast/WarmRoast.java:85-92 | every node's old calls stay a prefix of its new calls |
| Sampling.RecordConcat | src/main/java/com/sk89q/warmroast/WarmRoast.java:162-176 | two successive firings record the same as one firing over both dumps, so the growth is monotone across firings |
| Roast.StackNode.constructor | src/main/java/com/sk89q/warmroast/WarmRoast.java:88 | a new node carries its thread's name and has no logged calls |
| Roast.StackNode.Log | src/main/java/com/sk89q/warmroast/WarmRoast.java:175 | one `log(stack, interval)` call is appended to the node's calls |
| Roast.WarmRoast.constructor | src/main/java/com/sk89q/warmroast/WarmRoast.java:65-79 | a new session has no nodes, no filter, end time -1 and is not cancelled |
| Roast.WarmRoast.SetFilterThread | src/main/java/com/sk89q/warmroast/WarmRoast.java:102-104 | sets the filter and nothing else |
| Roast.WarmRoast.SetEndTime | src/main/java/com/sk89q/warmroast/WarmRoast.java:110-112 | sets the end time and nothing else |
| Roast.WarmRoast.GetNode | src/main/java/com/sk89q/warmroast/WarmRoast.java:85-92 | returns the existing node and leaves the map unchanged when the name is a key; otherwise inserts exactly one fresh, empty node under the name and leaves all other entries alone |
| Roast.WarmRoast.LogSample | src/main/java/com/sk89q/warmroast/WarmRoast.java:174-175 | `getNode(name).log(stack, interval)` appends one call to that thread's node and changes no other node |
| Roast.WarmRoast.Run | src/main/java/com/sk89q/warmroast/WarmRoast.java:151-184 | once the end time is reached: cancels, `Stopped`, nodes unchanged. If the dump fails: cancels, `Failed(3)`, nodes unchanged. Otherwise: does not cancel, and the calls equal `Record` of the old calls over the dump. Existing nodes are kept; added nodes are fresh |
| Launcher.Candidates | src/main/java/com/sk89q/warmroast/WarmRoast.java:227-229 | no descriptor whose display name contains `com.sk89q.warmroast.WarmRoast` is kept |
| Launcher.CandidatesCount | src/main/java/com/sk89q/warmroast/WarmRoast.java:227-229 | every descriptor that is not the profiler's own is kept as often as it was listed |
| Launcher.CandidatesAppend | src/main/java/com/sk89q/warmroast/WarmRoast.java:227-229 | the filter keeps listing order: filtering a concatenation is concatenating the filtered parts |
| Launcher.CandidatesAround | src/main/java/com/sk89q/warmroast/WarmRoast.java:227-229 | a listed VM that is not the profiler's own sits in the candidates between the kept VMs listed before it and those listed after it |
| Launcher.Insert | src/main/java/com/sk89q/warmroast/WarmRoast.java:265-271 | inserting into a list sorted by display name gives a sorted list with the element added |
| Launcher.SortByName | src/main/java/com/sk89q/warmroast/WarmRoast.java:265-271 | the result is sorted by display name under `compareTo` and is a permutation of the input |
| Launcher.InsertStable | src/main/java/com/sk89q/warmroast/WarmRoast.java:265-271 | insertion places the new element before the elements with its name that are already there, which is what makes the sort of an earlier element before later ones stable |
| Launcher.SortStable | src/main/java/com/sk89q/warmroast/WarmRoast.java:265-271 | the sort is stable: descriptors with equal display names keep their relative order |
| Launcher.Menu | src/main/java/com/sk89q/warmroast/WarmRoast.java:263-277 | the menu is sorted by display name, holds no self descriptor, and holds every other listed descriptor exactly as often as listed |
| Launcher.FirstMatch | src/main/java/com/sk89q/warmroast/WarmRoast.java:246-259 | finds the first descriptor in listing order whose display name contains the VM name, or reports that none does |
| Launcher.JavaSize | src/main/java/com/sk89q/warmroast/WarmRoast.java:293 | `List.size()` is the length, or the largest `int` when the list is longer |
| Launcher.Decrement | src/main/java/com/sk89q/warmroast/WarmRoast.java:292 | `n - 1` in Java `int` arithmetic is congruent to `n - 1` modulo 2^32, and equal to it when it does not wrap |
| Launcher.ChoiceIndex | src/main/java/com/sk89q/warmroast/WarmRoast.java:292-298 | with Java `int` arithmetic for `n - 1`, the number `n` is accepted exactly when `1 <= n <= size`, and then selects index `n - 1` |
| Launcher.ChooseVm | src/main/java/com/sk89q/warmroast/WarmRoast.java:227-309 | an empty candidate list exits with status 1; otherwise a given pid is attached, ahead of the VM name and the menu. At the menu, a failed read returns and a non-number answer exits with status 1. Any exit carries status 1, an attached VM is listed and is never the profiler itself, and a pid attach uses the given pid |
| Launcher.MenuChoice | src/main/java/com/sk89q/warmroast/WarmRoast.java:291-298 | at the menu, `n` attaches element `n-1` of the sorted menu when `1 <= n <= size`, and otherwise exits with status 1 |
| Launcher.NameChoice | src/main/java/com/sk89q/warmroast/WarmRoast.java:227-259 | with no pid, the VM attached by name is the first listed VM, in listing order, that is not the profiler itself and whose display name contains the name, whatever the prompt would answer |
| Launcher.EndTimeFor | src/main/java/com/sk89q/warmroast/WarmRoast.java:332-333 | a positive timeout puts the end time at least a second after the clock; otherwise the end time stays -1 |
| Launcher.TimeoutCutOff | src/main/java/com/sk89q/warmroast/WarmRoast.java:332-333 | with a non-negative start clock, a firing finds the end time reached exactly when a positive timeout was given and `now >= start + timeout*1000`; otherwise the end time stays -1 and never stops sampling |
| Launcher.Configure | src/main/java/com/sk89q/warmroast/WarmRoast.java:330-335 | on a new session: the filter becomes the thread-name option; the end time becomes `now + timeout*1000` only for a positive timeout and otherwise stays -1 |

## Left out

- Connecting to the VM's management agent (`connect`, `getThreadMXBean`) is remote I/O. The result of `dumpAllThreads` is the `dump` argument of `Run`: `None` means the call threw.
- `start` is left out. It schedules the task with `Timer.scheduleAtFixedRate` and runs the Jetty server, servlet and static resources. A single firing is one call of `Run`. The timer's refusal to fire a cancelled task is not modelled, and `Run` does not read `cancelled`.
- The `synchronized` on `run` and the concurrent reads of `nodes` by the web servlet are concurrency, which is not modelled.
- `System.currentTimeMillis` is the `now` argument, and `System.exit` is an outcome value (`Firing.Failed`, `Launch.Exit`). The messages printed to `System.err` are not modelled.
- `StackNode` beyond its name and the calls made to `log` is not part of this model. The same holds for `McpMapping`, its `read`, and the exit with status 2 when the mapping files cannot be read.
- Run: an exception thrown by `StackNode.log` part-way through a dump is not modelled. The source catches it like a dump failure, after some nodes may already have been updated. Only a failure to take the dump is modelled, and it leaves the nodes unchanged.
- `VirtualMachine.list`, `VirtualMachine.attach` and their failures (exit status 1), JCommander parsing with `--help` (exit status 0), and reading the prompt's line are process and console I/O. `ChooseVm` returns the VM it would attach. The typed line reaches it already parsed, and a failed read of the line is `Return`. A null line makes `parseInt` fail, so it is `NotANumber`.
- The getters `getData`, `getMapping`, `getFilterThread` and `getEndTime` only return fields. The model exposes the fields directly.
- Roast.WarmRoast.nodes is a Dafny `map`, which has no key order. The ascending thread-name order of the `TreeMap` that `getData` hands to the web view is not modelled.
- Launcher.EndTimeFor: `endTime` is a Java `long`, and the type of the timeout option is declared in `RoastOptions`, which is not part of this model. The arithmetic `now + timeout * 1000` is therefore unbounded. If that option is an `Integer`, `timeout * 1000` is an `int` product that wraps for a timeout above 2147483 seconds, and the end time can then land in the past. The model does not capture that.
- Launcher.TimeoutCutOff: rests on the unbounded `timeout * 1000` of `EndTimeFor`, so it does not cover the `int` wrap-around of that product.
- Launcher.Configure: sets the end time through the unbounded `timeout * 1000` of `EndTimeFor`, so it does not cover the `int` wrap-around of that product.
- JavaString.CompareTo: Java compares UTF-16 code units, and the model compares characters by code point. The two orders differ only for characters outside the Basic Multilingual Plane.
- SortByName: `Collections.sort` is a merge sort, and the model uses an insertion sort. Both are stable sorts under the same comparator, so both give the same list.
