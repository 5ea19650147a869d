# Save synchronisation between yuzu and ryujinx, in Dafny

The program keeps the save directory of a game under the yuzu emulator and
the save directory of the same game under the ryujinx emulator in step. Its
engine, in `src/main.py`, does four things:

- `backup_save` copies a save directory to a sibling named after it plus
  `_` and the current Unix second.
- `sync_save` backs up both sides, deletes the destination and copies the
  source over it.
- `get_last_modified_time` takes the newest modification time among the
  entries of a directory.
- `start_auto_sync` copies, for every configured game, the strictly newer
  side over the older one; `AutoSyncHandler.on_modified` syncs every
  configured pair whose source path is a prefix of a modified path.

The model replaces the file system by a store: a map from a directory path
to the tree it holds, where a tree is the list of the directory's entries,
each with a name and a modification time (files carry their bytes,
subdirectories their own tree).

- `decimal.dfy`, module `Decimal`: Python's `str` on integers, which stamps
  backup names, with a parser proving the stamp can be read back.
- `savefs.dfy`, module `SaveFs`: `copytree`, `rmtree`, `backup_save`,
  `sync_save` and `get_last_modified_time` as functions of the store, and
  the class `SaveStore`, whose methods `CopyTree`, `RmTree`, `BackupSave`
  and `SyncSave` perform `copytree`, `rmtree`, `backup_save` and
  `sync_save` in place on its `dirs` field, each proved to leave exactly
  the store its function describes, and whose `ConfirmSync` runs
  `sync_save` only when confirmed. `get_last_modified_time` only reads, so
  the loop reads `LastModified` of the store's `dirs` directly.
- `autosync.dfy`, module `AutoSync`: the decision for one game, the loop of
  `start_auto_sync` (`RunGames` with the turn `Turn(clock)`) and the method
  that runs it on a `SaveStore`; the matching of `on_modified`, its loop
  (`Dispatch`) and the class `AutoSyncHandler` that runs it.

The clock is a parameter. A backup takes one reading (`now`), so
`sync_save` takes two (`tSrc`, `tDst`). The loops take `clock: nat -> int`,
where `clock(k)` is the k-th reading during the call; each sync consumes
the next two. Three of the exceptions the source lets propagate are
modelled, each as an `Err`: `NotFound` for a missing directory
(`copytree`, `rmtree`, `listdir`), `AlreadyExists` for an existing copy
destination, and `EmptyDirectory` for `max` over no entries. The first exception ends `sync_save` and ends both
loops, and whatever the earlier steps wrote stays written.

Where the program's own comments, or the behaviour a user would expect,
differ from the code, the model follows the code:

- Freshness is the newest time among the DIRECT entries of the directory.
  Subdirectories count by their own modification time, and files inside
  them are not looked at. The comment at `src/main.py:11` asks for a walk
  over every file in the save directory. `NestedChangesUnseen`
  states the consequence.
- An empty or missing save directory raises and stops `start_auto_sync`.
  Treating an empty side as older than any non-empty one, so that the
  other side is copied onto it, would not stop the loop.
- The two sides are compared with no tolerance, and changes are neither
  debounced nor guarded against a sync's own writes.
- The destination is replaced by delete-then-copy, not by an atomic rename.

## Model

| member | source | states |
|---|---|---|
| `Decimal.NatToString` | src/main.py:32 | `str` of a non-negative integer is a non-empty string of digits with no leading zero |
| `Decimal.IntToString` | src/main.py:32 | `str` of an integer starts with `-` exactly when it is negative, has only digits after that, and never holds `_` |
| `Decimal.IntRoundTrip` | src/main.py:32 | the decimal form of every integer parses back to that integer |
| `Decimal.IntToStringInjective` | src/main.py:32 | distinct seconds give distinct stamps |
| `SaveFs.Copied` | src/main.py:33 | `copytree` fails with NotFound for a missing source, otherwise with AlreadyExists for an existing destination; on success it adds only the destination, holding the source's tree, and keeps every existing path |
| `SaveFs.Removed` | src/main.py:43 | `rmtree` fails with NotFound for a missing path; otherwise it removes that path and keeps every other path |
| `SaveFs.BackupPath` | src/main.py:32 | the backup name has the save path as a strict prefix, followed by `_` and the stamp, so it is never the save path |
| `SaveFs.BackupStampReadsBack` | src/main.py:32 | the text after that underscore parses back to the second of the backup |
| `SaveFs.BackupPathInjective` | src/main.py:32 | two backup names are equal only for the same save path and the same second |
| `SaveFs.BackedUp` | src/main.py:31-34 | `backup_save` succeeds exactly when the save path exists and its backup name does not; it then returns that name, adds only that path, holding the save's tree, and keeps the save and every other path; on failure nothing changes |
| `SaveFs.Synced` | src/main.py:37-44 | `sync_save` backs up `src`, backs up `dst`, removes `dst` and copies `src` to `dst`, ending at the first failure; a missing `src` fails before anything is written, and a completed sync reports both backup names; `SyncedOk`, `SyncedOkIff` and `SyncedErrKeepsSaves` state its effect |
| `SaveFs.SyncedOk` | src/main.py:37-44 | after a successful `sync_save`, `dst` holds the old tree of `src`; `src` is unchanged; the backup of `src` holds the old `src`, the backup of `dst` the old `dst`; both backups are new paths; the paths are distinct; no other existing path changes |
| `SaveFs.SyncedOkIff` | src/main.py:39-44 | `sync_save` succeeds exactly when `src` exists, the two paths differ, both backup names are new and distinct, and `dst` exists (or is the backup of `src`) |
| `SaveFs.SyncedErrKeepsSaves` | src/main.py:39-44 | a failed sync between two different paths deletes and overwrites nothing; at most the backup of `src` was added, at a path that did not exist; a missing `src` fails before anything is written |
| `SaveFs.SyncOntoItself` | src/main.py:39-44 | syncing a save onto itself across two seconds removes it and fails the copy, leaving it only in its two backups |
| `SaveFs.MaxMtime` | src/main.py:74 | the value is at least every entry's time and equal to one of them |
| `SaveFs.LastModified` | src/main.py:73-74 | `get_last_modified_time` succeeds exactly for an existing non-empty directory, with the newest time among its direct entries; NotFound for a missing one, EmptyDirectory for an empty one |
| `SaveFs.NestedChangesUnseen` | src/main.py:74 | replacing a subdirectory's contents without changing its own time leaves the directory's time unchanged (the scan is not recursive) |
| `SaveFs.SaveStore.CopyTree` | src/main.py:33 | the store after the call is what `Copied` gives, and a failure changes nothing |
| `SaveFs.SaveStore.RmTree` | src/main.py:43 | the store after the call is what `Removed` gives, and a failure changes nothing |
| `SaveFs.SaveStore.BackupSave` | src/main.py:31-34 | the store and result after the call are those of `BackedUp` |
| `SaveFs.SaveStore.SyncSave` | src/main.py:37-44 | the store and result after the call are those of `Synced`: back up `src`, back up `dst`, remove `dst`, copy `src`, stopping at the first failure |
| `SaveFs.SaveStore.ConfirmSync` | src/main.py:49-53 | a declined confirmation changes nothing; an accepted one performs `sync_save` |
| `AutoSync.Decide` | src/main.py:81-84 | yuzu to ryujinx exactly when the yuzu time is strictly greater, ryujinx to yuzu exactly when the ryujinx time is strictly greater, nothing exactly when they are equal |
| `AutoSync.ReconcileGame` | src/main.py:79-84 | one game's turn: a game left alone writes nothing and reads no clock, a sync reads it twice; `ReconcileGameEffect` and `ReconcileSettles` state what the sync does |
| `AutoSync.ReconcileGameEffect` | src/main.py:79-84 | if a time cannot be taken, the store is unchanged and the loop stops; when the turn raises nothing, the newer side's tree is copied onto the older side; the newer side is unchanged; both sides are backed up under new paths holding their trees from before the turn; the paths after the turn are the old ones plus those two backups; no existing path but the older side changes; equal times change nothing |
| `AutoSync.ReconcileGameRaisesKeepsSaves` | src/main.py:79-84 | a turn that raises deletes and overwrites nothing: the store is unchanged, or holds only one new backup of the newer side |
| `AutoSync.ReconcileSettles` | src/main.py:79-84 | after a game's turn completes, running the turn again finds equal times and changes nothing |
| `AutoSync.RunGames` | src/main.py:78-84 | the loop of `start_auto_sync` never forgets a recorded visit; `RunGamesVisitsInOrder` states its order and completeness, `RunGamesStopsAtError` its stop at the first turn that raises |
| `AutoSync.RunGamesStopsAtError` | src/main.py:78-84 | once a turn raises, the games after it in the list make no difference to the store, the visits or the error: none of them gets a turn |
| `AutoSync.RunGamesVisitsInOrder` | src/main.py:78-84 | the games are visited in configuration order, once each with one decision; all of them are visited exactly when nothing raises |
| `AutoSync.StartAutoSync` | src/main.py:77-84 | the store, visits and error after the loop are those of `RunGames` with the turn `Turn(clock)` |
| `AutoSync.ZeldaScenario` | src/main.py:79-82 | with yuzu at second 1000 and ryujinx at 500, the turn backs up both sides and copies yuzu's tree over ryujinx's |
| `AutoSync.Matching` | src/main.py:68-69 | a pair is selected exactly when it is in the list and its source path is a prefix of the event path |
| `AutoSync.PrefixIsCharacterLevel` | src/main.py:69 | `/a/zelda` matches an event under `/a/zelda2` |
| `AutoSync.Dispatch` | src/main.py:67-70 | the loop of `on_modified` keeps the pairs already synced and records at most one sync per pair; `DispatchFiresMatching` and `DispatchStopsAtError` state which pairs, `DispatchSyncsMatching` what it does to the store |
| `AutoSync.DispatchFiresMatching` | src/main.py:67-70 | `on_modified` syncs the matching pairs in list order and no others; all of them when nothing raises; on a failure, a non-empty prefix of them; with no match the store is untouched |
| `AutoSync.DispatchStopsAtError` | src/main.py:68-70 | once a sync raises, the pairs after it in the list make no difference: none of them is synced |
| `AutoSync.SyncEach` | src/main.py:68-70 | syncing a list of pairs one after the other, each source onto its destination, with no match test and stopping at the first raise, keeps the pairs already synced and records at most one per pair |
| `AutoSync.DispatchSyncsMatching` | src/main.py:67-70 | `on_modified` leaves the store, synced pairs and error that syncing exactly the matching pairs in list order would, each from `src_path` onto `dst_path`, with the same clock readings |
| `AutoSync.DispatchOneMatch` | src/main.py:67-70 | with exactly one matching pair, `on_modified` is that one `sync_save`; when it succeeds, the destination holds the source's old tree and the source is unchanged |
| `AutoSync.AutoSyncHandler.constructor` | src/main.py:64-65 | the handler keeps the pairs it is given |
| `AutoSync.AutoSyncHandler.OnModified` | src/main.py:67-70 | the store, synced pairs and error after the loop are those of `Dispatch` |

## Left out

- The tkinter window, list, labels and buttons, and `on_game_select` (src/main.py:57-60, 87-120): presentation only.
- The `messagebox` dialogs: the yes/no answer of `confirm_sync` is the parameter `confirmed`, and the information popups are dropped. What the success popup of `sync_save` shows (src/main.py:46), its two backup names, is returned as a `SyncReport`, where the source's `sync_save` returns None.
- Loading `config.json` at import time (src/main.py:24-28): the games list is a parameter.
- The watchdog `Observer`, event delivery and threading: `on_modified` takes the modified path as a parameter.
- Floating-point time: `time.time()` readings enter already truncated by `int`, and modification times are integers.
- The bytes that `copytree` copies and its failures part-way (permissions, full disk, a source that is a file): a copy is the same tree value, and it either succeeds whole or fails before writing.
- Exceptions other than the three above: `NotADirectoryError` for a configured path that is a file, `PermissionError` from `listdir`, `getmtime` or `rmtree`, the `OSError` of `getmtime` on a dangling symbolic link (src/main.py:74), and `rmtree` refusing a symbolic link to a directory (src/main.py:43). The store has no files at the top level, no permissions and no links.
- Nesting between stored paths: the store is flat, so a save directory inside another one, or a backup that lands inside a save, is not modelled. Paths are compared as plain strings with no normalisation.
- What happens if the process stops between the delete and the copy of `sync_save`: interruption is not modelled.
- Backups are never deleted, by the source or by the model; disk usage is not modelled.
