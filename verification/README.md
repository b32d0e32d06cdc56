# Snapshot sidecar agent: a verified model

`manager.py` is a small supervisor. It runs next to a server binary
(`./sys-kernel`) and keeps that binary's `data` directory backed up on a
WebDAV share:

- at start-up it restores the newest snapshot archive, when a remote share
  is configured;
- it starts the child process;
- it then loops, once per cycle:
  - it polls the child and stops if the child has exited;
  - it sleeps one cycle;
  - when a share is configured and the data directory exists, it archives
    that directory as `snap_core_YYYYMMDD_HHMMSS.tar.gz`, uploads it and
    re-lists the share;
  - it then deletes all but the five greatest snapshot names.

This project models the decision logic of that file over abstract data:

- the remote directory is a sequence of entry names;
- the local data directory is either missing or a map of files;
- the child process is an exited flag per poll;
- every step that can raise is an input flag;
- every request the agent sends is recorded in a trace.

It proves the following:

- the snapshot filter is exact;
- restore downloads the greatest name and only a 200 touches the data
  directory;
- fixed-width stamps make name order agree with the order of the local
  wall-clock readings;
- pruning deletes exactly the oldest `n - 5` snapshots, in ascending order,
  and never another entry;
- the first failing delete ends the pass;
- from a share without snapshots, `k` reliable creates at distinct stamps
  keep exactly `min(k, 5)` snapshots, the greatest names taken;
- the loop ends exactly at the first exited or interrupted tick, never on
  a failed create, and never creates without a client; with a client each
  cycle creates on the share the earlier cycles left.

Modules, one per file:

- `Strings` (`strings.dfy`): Python's `startswith`, `endswith` and `<` on
  `str`, and proofs that `<` is a strict total lexicographic order.
- `Seqs` (`seqs.dfy`): duplicate-free sequences and list comprehension
  with a condition.
- `Sorting` (`sorting.dfy`): `list.sort()`, modelled by insertion sort.
  `SortIsCanonical` shows that any sort gives the same list, because a
  total order has one sorted arrangement.
- `Timestamp` (`timestamp.dfy`): the `%Y%m%d_%H%M%S` rendering and its
  order.
- `Naming` (`naming.dfy`): the snapshot filter, the naming scheme and the
  choice of the latest snapshot.
- `Remote` (`remote.dfy`): the request trace, upload and delete.
- `Retention` (`retention.dfy`): the pruning pass.
- `Manager` (`manager.dfy`): `restore_snapshot` and `create_snapshot`.
- `Supervisor` (`supervisor.dfy`): `main`, that is start-up and the
  supervision loop.

## Model

| member | source | states |
|---|---|---|
| Strings.LessIsLexicographic | manager.py:59 | `Less` (Python `str <`) holds exactly when the strings first differ at a position where the left character is smaller, or the left is a proper prefix of the right |
| Strings.LessTransitive | manager.py:59 | string `<` is transitive, so sorting names is well defined |
| Strings.LessTotal | manager.py:59 | of two distinct names one is smaller |
| Strings.LessIrreflexive | manager.py:59 | no name is smaller than itself |
| Strings.LessConcat | manager.py:83 | concatenations with equal-length fronts compare by the front first and then by the rest |
| Seqs.Filter | manager.py:55 | the result holds each element as many times as the list does when the condition holds and not at all otherwise, and is no longer than the list |
| Seqs.FilterNoDup | manager.py:55 | filtering a list without repeats gives a list without repeats |
| Sorting.Sort | manager.py:95 | the result is ascending and a permutation of the input |
| Sorting.SortIsCanonical | manager.py:95 | two ascending permutations of the same names are equal, so the model's sort is `list.sort()` |
| Sorting.LastIsMaximum | manager.py:60 | the last element of an ascending list is at least every element |
| Timestamp.Pad | manager.py:82 | a zero-padded field has exactly the given width and only digits |
| Timestamp.PadOrder | manager.py:82 | padded numbers of one width compare as strings as the numbers do, and are equal only when the numbers are |
| Timestamp.Format | manager.py:82 | a stamp is 15 characters: 8 digits, `_`, 6 digits |
| Timestamp.FormatOrder | manager.py:82 | for valid readings, one stamp is smaller than another exactly when its reading is earlier, and two stamps are equal exactly when the readings are |
| Strings.StartsWith | manager.py:55 | `startswith` holds exactly when the prefix is no longer than the string and agrees with it character by character, and then the string is the prefix followed by the rest |
| Strings.EndsWith | manager.py:55 | `endswith` holds exactly when the suffix is no longer than the string and agrees with its last characters, and then the string is the front followed by the suffix |
| Naming.IsSnapshot | manager.py:55 | a name that passes the filter is at least as long as `snap_core_` and `.tar.gz` together, so the two never overlap |
| Naming.SnapshotShape | manager.py:55 | a name that passes the filter is `snap_core_`, a middle part and `.tar.gz` |
| Naming.Snapshots | manager.py:55 | an entry is kept exactly when it starts with `snap_core_` and ends with `.tar.gz`, with its count; no repeats appear that were not listed |
| Naming.FilterDropsOtherFiles | manager.py:94 | two snapshots and `other.txt` filter to the two snapshots, in listing order |
| Naming.SnapshotName | manager.py:83 | every generated name passes the snapshot filter, whatever the stamp |
| Naming.NameOrder | manager.py:82-83 | names from stamps of one width compare as the stamps do, and are equal only for equal stamps |
| Naming.NameInjective | manager.py:83 | distinct stamps give distinct names |
| Naming.NamesSortChronologically | manager.py:82-83 | names of two valid local wall-clock readings sort in reading order, and coincide only for the same reading |
| Naming.Latest | manager.py:59-60 | the chosen name is one of the snapshots and is at least every snapshot |
| Naming.LatestUnique | manager.py:59-60 | a snapshot at least every snapshot is the chosen one |
| Naming.LatestOfTwoDays | manager.py:55-60 | of the 2024-01-01 and 2024-01-02 snapshots and `other.txt`, the 2024-01-02 snapshot is picked |
| Remote.Upload | manager.py:89 | after an upload the name is listed, every other name keeps its count, and no repeat is created |
| Remote.Remove | manager.py:98 | after a delete the name is gone and every other entry keeps its count |
| Retention.Excess | manager.py:96-97 | the victims are a prefix of the sorted list that leaves exactly `min(n, 5)` names after it |
| Retention.Prune | manager.py:93-98 | a pruning pass deletes only listed snapshots, an entry survives exactly when it was listed and not deleted, and the pass completes exactly when it deleted `n - 5` names (none when `n <= 5`) |
| Retention.ExcessIsOldest | manager.py:95-97 | the victims number `n - 5` (none when `n <= 5`), are strictly ascending and so distinct, are snapshots, and each is smaller than every snapshot that is not a victim |
| Retention.PruneFewKeepsAll | manager.py:96 | with at most five snapshots pruning sends nothing and changes nothing |
| Retention.CleanAll | manager.py:97-101 | a pass deletes a prefix of the victims; it completes exactly when that prefix is all of them; otherwise it stops at the next victim, whose delete failed; the names deleted are exactly the prefix |
| Retention.CleanAllNoDup | manager.py:97-98 | deletes never create repeated names |
| Retention.CleanAllMembership | manager.py:97-98 | an entry survives a pass exactly when it was listed and not deleted |
| Retention.CleanCalls | manager.py:97-98 | one delete request per removed name, in order, plus the failed one last |
| Retention.CleanCallsFollowVictims | manager.py:97-98 | the delete requests go through the victims in ascending order, none skipped |
| Retention.CleanCallsStopAtFirstFailure | manager.py:97-101 | every request before the last succeeded, and the pass fails exactly when its last request was to a failing name |
| Retention.KeptMultiset | manager.py:93-98 | after a complete pass the snapshots left are, with counts, the tail of the sorted list past the victims |
| Retention.PruneLeavesWindow | manager.py:93-98 | after a complete pass `min(n, 5)` snapshots are left |
| Retention.PruneKeepsTail | manager.py:93-98 | after a complete pass a snapshot is left exactly when it is among the five greatest |
| Retention.CleanAllOlderFirst | manager.py:97-98 | when all victims precede all other snapshots, each deleted entry is older than every snapshot left |
| Retention.PruneDeletesOldest | manager.py:93-98 | pruning never deletes a non-snapshot entry, and a complete pass deletes only snapshots older than every one it keeps |
| Retention.PruneKeepsNewest | manager.py:93-98 | a complete pass keeps exactly the `min(n, 5)` greatest names, deletes only older snapshots, and spares every other entry |
| Manager.RestoreSnapshot | manager.py:51-77 | restore lists, then downloads at most once; that download is of the greatest snapshot name; the data directory changes only after a download answered 200 |
| Manager.RestoreWithoutSnapshots | manager.py:54-58 | a failed listing or a listing with no snapshot means no download and an unchanged data directory |
| Manager.RestoreDownloadsLatest | manager.py:59-64 | with snapshots listed, the requests are the listing and the download of the latest |
| Manager.RestoreKeepsWorkspaceOnFailure | manager.py:64-77 | a download that raises or answers other than 200 leaves the data directory untouched and restores nothing |
| Manager.RestoreReplacesWorkspace | manager.py:65-73 | after a 200 the data directory is wholly replaced by the extracted tree, or by what extraction wrote before it failed |
| Manager.CreateSnapshot | manager.py:79-101 | whatever fails, the only entry a create can add is its own snapshot, it never removes a non-snapshot entry, and it creates no repeats |
| Manager.CreateWithoutData | manager.py:80-81 | without a data directory create sends nothing and changes nothing |
| Retention.ListingVictims | manager.py:94-97 | every name selected for deletion is a listed snapshot, and there are `n - 5` of them when the share holds `n > 5` snapshots and none otherwise |
| Manager.CreateUploadFailureSkipsPrune | manager.py:85-101 | if archiving or the upload raises, no re-listing and no delete is sent (a failed archive sends nothing, a failed upload only its own upload) and the share is unchanged, a raising request being taken to have had no effect |
| Manager.CreateShareIgnoresFiles | manager.py:80-89 | which files the data directory holds never changes a create's share or requests, only whether it exists |
| Manager.CreateRemoveFailureSkipsPrune | manager.py:89-101 | if removing the local archive raises after the upload, the share holds the uploaded snapshot, the upload is the only request, and no re-listing or delete follows |
| Manager.PruneSparesOthers | manager.py:93-98 | pruning never deletes a non-snapshot entry and never adds one |
| Manager.PruneCallsDeleteSnapshots | manager.py:94-98 | every request of a pruning pass is a delete of a snapshot name |
| Manager.CreateUploadsThenPrunes | manager.py:85-98 | the upload of the new name is the first request; a failed local remove sends nothing more; otherwise the re-listing is the second request, a failed re-listing sends nothing more, and every later request deletes a snapshot |
| Manager.CreatePrunesAfterUpload | manager.py:89-101 | after the upload and re-listing succeed, the share, requests and outcome are those of a pruning pass over the uploaded-to listing, and create reports success exactly when that pass completed |
| Manager.UploadAddsSnapshot | manager.py:89 | uploading a new snapshot name adds exactly one snapshot; re-uploading a listed name adds none |
| Manager.SyncedMeansAllStepsRan | manager.py:85-101 | a create that reports success had its data directory, archived, uploaded, removed the local archive, re-listed, and completed its pruning pass |
| Manager.CreateKeepsWindow | manager.py:89-98 | after a successful create `min(n, 5)` snapshots are left, counting the new one, and each deleted snapshot is older than each kept one |
| Manager.CreateKeepsNewSnapshot | manager.py:82-98 | a snapshot newer than every listed one survives its own create's pruning |
| Manager.ReliableCreateSyncs | manager.py:79-101 | when no step raises and the data directory exists, create succeeds |
| Manager.ReliableCreateRoom | manager.py:89-96 | with fewer than five snapshots listed, a reliable create only adds its own snapshot |
| Manager.CreateDeletesWhenFull | manager.py:89-98 | when a successful create finds more than five snapshots after its upload, some snapshot, old or new, is gone afterwards |
| Manager.RetainedCount | manager.py:89-98 | after one more reliable create the share has no repeats, `min(k, 5)` snapshots, all taken at the `k` stamps |
| Manager.RetainedRoom | manager.py:89-98 | while at most five stamps were used, every snapshot taken is still listed after the next reliable create |
| Manager.RetainedOrder | manager.py:89-98 | after one more reliable create, every snapshot taken but gone is smaller than every snapshot left |
| Manager.RetainedStep | manager.py:89-98 | one reliable create at a fresh stamp carries the retention invariant forward: no repeats, `min(k, 5)` snapshots, all taken at the stamps, all kept while `k <= 5`, and every one gone older than every one left |
| Manager.RetentionOverCycles | manager.py:112-118 | from a share with no snapshots, reliable creates at `k` distinct stamps leave exactly `min(k, 5)` snapshots, all taken at those stamps, every one of them while `k <= 5`, and each one gone smaller than each one left, so the ones left are the greatest names taken |
| Supervisor.Supervise | manager.py:112-120 | the loop runs full cycles until the first tick whose poll reports an exit or whose sleep is interrupted, and stops there for that reason; a failed create never ends it; its events are one block per full cycle followed by the final poll or interrupted sleep, and its share is what the full cycles' creates leave, each on the share the earlier ones left; each create directly follows a sleep; there are no creates and no share changes without a client; the share only gains this run's snapshots and keeps its other entries |
| Supervisor.BlocksAreCycles | manager.py:112-118 | block `c` of a run is a live poll, a sleep and, with a client, the outcome of `create_snapshot` on the share the first `c` cycles left |
| Supervisor.CyclesKeep | manager.py:112-118 | cycles only add snapshots taken at their ticks, keep every other entry, keep names distinct, and change nothing without a client |
| Supervisor.CycleDir | manager.py:117-118 | one full cycle only adds its own snapshot, keeps every other entry and distinctness, and changes nothing without a client |
| Supervisor.FlattenBlocks | manager.py:114-118 | `c` full cycles are `2c` events without a client and `3c` with one, each create directly follows a sleep, and without a client there is no create |
| Supervisor.ReliableCyclesCreateEach | manager.py:112-118 | with a client and ticks that each find a data directory, whatever its files, and raise nowhere, the loop's share is that of creates at the ticks' stamps, one after the other |
| Supervisor.SupervisedRetention | manager.py:112-118 | with a client and ticks at distinct stamps that each find a data directory, whatever the child wrote into it, and raise nowhere, from a share without snapshots, the loop leaves `min(k, 5)` snapshots after `k` cycles, the greatest names it took |
| Supervisor.Start | manager.py:104-110 | restore runs only with a client, the child is started in every case; with a client the requests before the launch are exactly the restore's and the data directory is what the restore left; without a client the data directory is untouched |
| Supervisor.StartRestoresLatest | manager.py:104-110 | with a client and snapshots listed, start-up lists, downloads the latest snapshot, and only then starts the child |

## Left out

- WebDAV transport, authentication and the URL assembly in `get_client` are not modelled. Each remote call is a recorded request whose failure is an input flag.
- A request that raises is taken to have had no effect on the share. An upload that times out after the server stored the file, or a delete that raises after the entry was removed, is not modelled.
- `check_remote_env` is not modelled: the directory probe and `mkdir` it does before restore are absent from the request trace. Its outcome only affects later calls, and those failures are already inputs.
- The tar/gzip codec, the `arcname="."` root mapping and the create-then-restore round trip of the tree are not modelled. The archive is opaque, and the extracted tree is an input (`Payload`).
- Temporary files under `/tmp` are not modelled. The source removes the archive with `os.remove` right after the upload, so an exception in archiving or uploading leaves it behind; the model claims no cleanup. A failure of that `os.remove` itself is modelled (`CreateIo.removeFails`): the upload has happened and the re-listing and pruning are skipped.
- `shutil.rmtree` and `os.makedirs` in restore cannot fail in the model. A failed download write is folded into `Fetch.Raised`.
- `subprocess.Popen` and `proc.poll()` are not modelled as processes: the child is one exited flag per tick.
- `time.sleep` is not modelled: a cycle's sleep is one `Sleep` event that may be interrupted.
- `time.strftime` is not modelled: the stamp is an input string. `Timestamp` relates the stamp to a calendar reading only for years 1000 to 9999, where `%Y` has four digits.
- The stamp is the local wall-clock reading, not an instant. A local clock that goes backwards, as at a daylight-saving fall-back or a manual reset, is not modelled: it gives a later snapshot a smaller name. Pruning then ranks that snapshot among the oldest, and restore prefers an earlier one. Every order result here is about readings.
- Environment configuration (`REMOTE_URL`, `CYCLE_PERIOD` and the others) and logging are not modelled. Configuration reduces to whether a client exists.
- The duplicated tail at `manager.py:123-129` is a copy artifact without logic and is not modelled.
- Pruning stops at the first delete that raises, because the only handler wraps the whole create. A pass that logs a failed delete and goes on to the next victim is not modelled, since the code does not do that.
- Liveness is polled before each sleep, not after it: a child that dies during a sleep is noticed only after that cycle's create. A check right after the sleep, before the create, is not modelled, since the code does not do that.
- Supervisor.Supervise: an exception that escapes `create_snapshot` itself is not modelled. The loop's bare `except` would end the loop on it. Errors raised while logging, including inside the handler's own `log` call, and non-`Exception` errors are not modelled. The model places interrupts only at the sleep.
- Supervisor.Supervise: the `while True` loop runs over a finite list of ticks. Running out of ticks (`ScriptEnd`) is an artifact of the model.
- Manager.RestoreSnapshot: an entry vanishing between listing and download is not distinguished from other download failures.
- Manager.RetentionOverCycles: it is stated for a create on every tick with no I/O failures, over one files map. The share does not depend on the files (`Manager.CreateShareIgnoresFiles`), so `Supervisor.SupervisedRetention` carries it to ticks whose data directory changes between cycles. Runs with failures are covered per create by `Manager.CreateSnapshot` and `Manager.CreateKeepsWindow`.
- Filter: the contract does not state that the kept elements stay in the list's order; both uses sort the result before relying on any order (manager.py:59 and manager.py:95).
- Uniqueness of remote names is a precondition of the lemmas that need it, not a type invariant. A WebDAV listing does not repeat names.
