# faxWatcher document-identity engine in Dafny

A model of the part of `faxWatcher.cjs` that turns raw file-system
notifications for scanned PDF documents into a stream of document events
(`create`, `rename`, `change`, `delete`, `copy`, `warning`, `error`), keyed by
content digest rather than by path.

The model is a pure state machine. A `State` is the watcher's `FaxList` plus
its `status` string. Each input is one `Notification`:

- a chokidar `add`, `change`, `unlink` or `error`;
- or the resumption of something a handler awaited:
  - the 6000 ms grace sleep of `unlink` (`GraceElapsed(hash, path)`);
  - `watcher.close()` in the error handler (`CloseResolved`);
  - the 10000 ms reconnect sleep of `connect` (`BackoffElapsed(reachable)`).

A step returns an `Outcome`, which holds:

- the new state;
- the events emitted;
- the continuations the handler now awaits (`GraceTimer`, `CloseAwait`, `BackoffTimer`);
- whether a new chokidar watcher was started.

Some values come in from outside the model:

- The SHA-256 digest of a file is an input of `add` and `change`. `None` stands for a failed read.
- The outcome of `copyFile` is an input of `add`.
- The reachability of the printer folders is an input of `BackoffElapsed`.

The modules are:

- `Options`: the `Option` type.
- `Paths`: POSIX `path.parse`, `path.extname` and the `.pdf` filter.
- `Faxes`: the FAX record and its derived `fileName`, `dir` and `lastFolderName`.
- `Archive`: the printer list and the archive file name.
- `Registry`: `FaxList`. It has a primary map from digest to record, its key insertion order (what `getAllFax` lists), and `pathMap`, which maps each path to a digest. `GetByPath` is `getByPath`: the digest stored for a path, then the record under that digest.
- `Watcher`: the handlers as written and `Step`/`Run`. `Recheck` is the grace check's lookup: by digest, falling back to `getByPath` of the saved path.
- `Scenarios`: properties of short input sequences on the handlers as written, including the two defects listed under Findings.
- `Resync`: the rescan after a reconnect in general, including files that share their bytes.
- `Repaired`: the same handlers over a registry whose two indices are kept in step.
- `Fixes`: the invariant of the repaired model and the defect scenarios replayed on it.

Some behaviours of `faxWatcher.cjs` that a reader may not expect, all
modelled as the code has them:

- An `unlink` of a path the registry does not resolve emits `error` with code `unlink FAX Object None` (faxWatcher.cjs:200).
- The reconnect clear empties only the primary map; `pathMap` keeps its entries (faxWatcher.cjs:154).
- A `change` of a path the registry does not track registers the record and emits only `change`: no `create` and no archive copy (faxWatcher.cjs:183-194).
- A copy of a file to a new name that is reported as `add(b)` before `unlink(a)` does not end as a single rename: see Findings.
- Events carry the record values of the moment, not live objects (see Left out).

## Model

| member | source | states |
|---|---|---|
| Paths.Parse | faxWatcher.cjs:20-22 | `base` holds no separator. `dir` is empty exactly for a relative path with no separator. Otherwise the path without trailing separators is `dir`, "/", `base` (or "/" + `base` when `dir` is the root). |
| Paths.LastSegment | faxWatcher.cjs:23 | `dir.split('/').pop()`: the result has no separator, is a suffix of `dir`, and a separator precedes it when it is not all of `dir`. |
| Paths.PdfExtIff | faxWatcher.cjs:236 | `path.extname` of a last component is ".pdf" exactly when the component ends in ".pdf" after a non-empty stem. |
| Paths.IsPdfPathIff | faxWatcher.cjs:236 | `#isPdfPath(p)` holds exactly when the last component of `p` ends in ".pdf" after a non-empty stem. |
| Faxes.PathFields | faxWatcher.cjs:20-23 | `fileName` and `lastFolderName` hold no separator, and `lastFolderName` ends `dir`. When `dir` is neither empty nor the root, the path without trailing separators is `dir`, "/", `fileName`; when `dir` is empty, it is `fileName` alone. |
| Archive.NormalizeAll | faxWatcher.cjs:100 | The printer list keeps its length and order. A bare path becomes a printer with that path and no name or floor; an object keeps its path, name and floor. |
| Archive.ConfiguredFloorLabel | faxWatcher.cjs:244-245 | Read off the configured entries: the label of a folder is the floor of the first entry for it when that entry is an object with a non-empty floor, and "-" when that entry is a bare path or its floor is empty or absent. |
| Archive.UnconfiguredFloorLabel | faxWatcher.cjs:244-245 | A folder that no configured entry names is labelled "-". |
| Archive.FindByDir | faxWatcher.cjs:244 | `find(p => p.path == dir)`: absent exactly when no printer has that path; otherwise the first printer that has it. |
| Archive.FloorLabel | faxWatcher.cjs:244-245 | `floor \|\| '-'`: the floor of the first printer at `dir` when it is a non-empty string, "-" when there is no such printer or its floor is empty or absent. |
| Archive.Earlier | faxWatcher.cjs:245 | The timestamp used is the earlier of ctime and mtime, and is one of them. |
| Archive.ArchiveName | faxWatcher.cjs:245 | The archive name is the timestamp text, a space, the floor label, a space, the file name, with those fields at those positions. |
| Archive.ArchiveNamesCollideOnFileName | faxWatcher.cjs:244-246 | Two records of one folder with equal timestamp text get the same archive name exactly when their file names are equal. |
| Registry.Set | faxWatcher.cjs:67-72 | `pathMap` maps `value.path` to `key`, and `get(key)` and `getByPath(value.path)` return `value`. Every other key and every other path entry is unchanged. A new key goes last in the listing order and an existing key keeps its place. The insertion order stays a permutation of the keys. |
| Registry.Delete | faxWatcher.cjs:81-87 | The key is gone and every other key is unchanged. The path entry of the removed record's path is dropped, whatever digest it named. An absent key changes nothing. The listing order loses exactly that key. |
| Registry.DeleteIdempotent | faxWatcher.cjs:81-87 | `delete(k); delete(k)` equals one `delete(k)`. |
| Registry.Clear | faxWatcher.cjs:154 | The inherited `Map.clear` leaves no key, so no path resolves. `pathMap` itself is unchanged. |
| Registry.MarkUnlinked | faxWatcher.cjs:202 | Only the flagged record changes, and only its `unlink` flag. Both indices and the order are unchanged. |
| Registry.ValuesListsEachRecord | faxWatcher.cjs:295-297 | `getAllFax` has one entry per key, and lists a record exactly when some key holds it. |
| Registry.DeleteCutsRecord | faxWatcher.cjs:81-87 | After `delete(k)`, `getAllFax` is the old listing with `k`'s record cut out of its place. |
| Registry.SetExistingKeepsPosition | faxWatcher.cjs:67-72 | Re-setting an existing key replaces its record in place in `getAllFax` and leaves all other records where they were. |
| Registry.SetNewAppends | faxWatcher.cjs:67-72 | Setting a new key appends its record to `getAllFax`. |
| Watcher.NewConfig | faxWatcher.cjs:96-101 | The constructor keeps the archive folder and the timestamp formatting as given, and normalises each printer entry in order. |
| Watcher.CopyEvents | faxWatcher.cjs:241-255 | Nothing when no archive folder is set. Otherwise the last event is `copy` to the archive name, emitted even after a failed copy. A failed copy is first reported by exactly one `File does not exist` warning. No lifecycle event is emitted. |
| Watcher.OnAdd | faxWatcher.cjs:167-181 | Paths other than `.pdf`, and failed digests, do nothing. A known digest replaces its record in place and emits exactly `[rename]`. A new digest emits `create` followed by the copy events. Both lookups then find the new record, other keys are unchanged, and the registry invariant is preserved. |
| Watcher.OnChange | faxWatcher.cjs:183-194 | The record at the path is deleted before the digest is known, so a failed digest leaves only that deletion. With a digest, exactly `[change]` is emitted and both lookups find the new record. The old digest survives exactly when it equals the new one, and every other key is unchanged. |
| Watcher.OnUnlink | faxWatcher.cjs:196-205 | An unresolved `.pdf` path emits `error` `unlink FAX Object None` and changes nothing. A resolved one emits nothing: the found record is flagged, the keys, `pathMap` and order are unchanged, and a grace check for that record's digest and path is scheduled at 6000 ms. |
| Watcher.OnGraceElapsed | faxWatcher.cjs:205-212 | At most one event. `delete` is emitted exactly when the record found by `Recheck` (by digest, or failing that by `getByPath` of the saved path) carries the flag, and then `delete(hash)` is applied. Otherwise nothing changes. |
| Watcher.OnError | faxWatcher.cjs:147-161 | The error is always emitted. Only `ECONNRESET`/`ENETUNREACH` with a code different from `status` record the code and start the close. Any other error leaves the state unchanged. |
| Watcher.Connect | faxWatcher.cjs:126-139 | `status` becomes `CONNECTING`. A watcher starts at once exactly when not in test mode and the printers are reachable; otherwise a 10000 ms sleep is pending. |
| Watcher.OnClosed | faxWatcher.cjs:153-156 | After the close the registry resolves no key and no path, `status` is `CONNECTING` and the reconnect sleep is pending. |
| Watcher.OnBackoffElapsed | faxWatcher.cjs:131-137 | After the sleep a watcher starts exactly when the printers are reachable; otherwise `connect('test')` sleeps again. The registry is untouched. |
| Watcher.Step | faxWatcher.cjs:147-212 | Every input preserves the registry invariant: the insertion order lists each key once, and each record is stored under its own digest. |
| Watcher.Run | faxWatcher.cjs:147-212 | Any sequence of inputs preserves the registry invariant. |
| Scenarios.UnlinkThenReAddIsRename | faxWatcher.cjs:171-174 | `unlink(a)`, `add(b)` of the same bytes, then the grace check: exactly one `rename` overall, and the document is registered at `b` under the same digest. |
| Scenarios.UnconfirmedUnlinkDeletesOnce | faxWatcher.cjs:196-212 | An unreversed unlink emits nothing at first. The grace check then emits exactly one `delete` and removes the document from both indices, leaving other keys alone. A repeated check does nothing. |
| Scenarios.RepeatedFailureCoalesced | faxWatcher.cjs:148-151 | A second error with the recorded code only re-emits `error`. |
| Scenarios.FailureClearsAndRearms | faxWatcher.cjs:148-156 | After a connectivity error and the close, `getAllFax` is empty, `status` is `CONNECTING` and a reconnect is pending. The same code then starts a new recovery. |
| Scenarios.StaleGraceCheckAfterClearIsNoOp | faxWatcher.cjs:154 | A grace check left over from before the clear does nothing. |
| Scenarios.AddOfNewDigestAppends | faxWatcher.cjs:176 | An add of a new digest appends its record to `getAllFax` and adds no other key. |
| Scenarios.RescanAppendsArrivals | faxWatcher.cjs:176 | Adds of distinct new digests append exactly their records to `getAllFax`, in arrival order. |
| Scenarios.ResyncListsExactlyRescannedFiles | faxWatcher.cjs:154-156 | When the rescanned files have pairwise distinct digests: after the recovery clear, the rescan's adds leave `getAllFax` listing exactly the rescanned files, in order. `Resync.ResyncListsOnePerDigest` covers shared digests. |
| Scenarios.RecoveryRestartsWatcher | faxWatcher.cjs:126-137 | After the close, the end of the reconnect sleep with the printers reachable starts exactly one watcher, over an empty listing and with status `CONNECTING`. Unreachable, the sleep is rearmed and the outcome is that of the close. |
| Scenarios.ChangeOfUntrackedPathOnlyChanges | faxWatcher.cjs:183-194 | A `change` of an untracked path with new bytes emits only `change` (no `create`, no copy) and appends the record to `getAllFax`. |
| Resync.SetPlaces | faxWatcher.cjs:67-72 | On a registry keyed by digest, `set(f.hash, f)` replaces the record of a known digest where it stands in `getAllFax`, and appends `f` for a new digest. |
| Resync.AddPlaces | faxWatcher.cjs:167-181 | One `add` of a `.pdf` file changes `getAllFax` in that way and keeps the registry invariant. |
| Resync.RescanLists | faxWatcher.cjs:167-181 | Adds of `.pdf` files into an empty registry leave `getAllFax` equal to the reference listing, which places one arrival at a time. |
| Resync.ListingCovers | faxWatcher.cjs:167-181 | Every digest that arrived is listed. |
| Resync.ListingArrived | faxWatcher.cjs:167-181 | Every listed digest arrived. |
| Resync.ListingKeepsLastArrival | faxWatcher.cjs:171-174 | Each listed record is the one built from the last arrival with its digest. |
| Resync.ListingInFirstArrivalOrder | faxWatcher.cjs:176-177 | Listed digests appear in the order of their first arrival, so no digest is listed twice. |
| Resync.ResyncListsOnePerDigest | faxWatcher.cjs:154-156 | After the recovery clear, whatever the digests: `getAllFax` lists one record per distinct digest reported, each built from the last file with those bytes, in first-arrival order. |
| Scenarios.GraceFallbackReportsWithoutRemoving | faxWatcher.cjs:206-209 | A grace check whose digest is gone, while the saved path resolves to a flagged record, emits `delete` for that record and removes nothing. |
| Scenarios.AddBeforeUnlinkDeletesLiveDocument | faxWatcher.cjs:67-72 | As written, `add(b)` of the same bytes before `unlink(a)` ends in `delete` of the document now at `b`. |
| Scenarios.ReplaceWithNewContentOrphansRecord | faxWatcher.cjs:81-87 | As written, re-adding `a` with new bytes within the grace period leaves the new record unreachable by path: a later `unlink(a)` is reported as unmatched and the record stays. |
| Repaired.SetSynced | faxWatcher.cjs:67-72 | Corrected `set`: same records and order as `set`, but no other path entry names the key, and the index stays sound. |
| Repaired.DeleteSynced | faxWatcher.cjs:81-87 | Corrected `delete`: same records and order as `delete`, and a path entry disappears exactly when it named the deleted key. |
| Repaired.ClearSynced | faxWatcher.cjs:154 | Corrected `clear`: no key and no path entry remain. |
| Repaired.RAdd | faxWatcher.cjs:167-181 | The add handler over the corrected `set` keeps the index sound and has the events and lookups of the original. |
| Repaired.RAddAgrees | faxWatcher.cjs:167-181 | The repaired add emits the same events, and stores the same records in the same order, as the handler as written. |
| Repaired.DropSynced | faxWatcher.cjs:188-189 | Dropping the record at a path removes the same records as written and leaves that path unindexed. |
| Repaired.RChange | faxWatcher.cjs:183-194 | The change handler over the corrected maps keeps the index sound and has the events and records of the original. |
| Repaired.UnlinkKeepsSound | faxWatcher.cjs:196-205 | Flagging a record keeps the index sound. |
| Repaired.RGraceElapsed | faxWatcher.cjs:205-212 | The grace check over the corrected `delete` keeps the index sound and has the events and records of the original. |
| Repaired.RClosed | faxWatcher.cjs:153-156 | After the corrected clear, neither index holds anything; everything else is as in the original. |
| Repaired.RStep | faxWatcher.cjs:147-212 | Every input keeps the index sound: each path entry names a live record stored at that path. |
| Fixes.StartIsSound | faxWatcher.cjs:99 | A new watcher's registry is sound. |
| Fixes.RunKeepsSound | faxWatcher.cjs:147-212 | Any input sequence keeps the repaired registry sound. |
| Fixes.UnlinkFlagsOnlyThatPath | faxWatcher.cjs:199-204 | With a sound index, `unlink(p)` only ever flags the record stored at `p`. |
| Fixes.CopyThenRemoveKeepsDocument | faxWatcher.cjs:167-212 | Repaired: after `add(b)` then `unlink(a)`, the unlink is unmatched, nothing is scheduled, and the document stays at `b`. |
| Fixes.ReplaceWithNewContentKeepsIndex | faxWatcher.cjs:196-212 | Repaired: after replacing `a` within the grace period, the new record stays indexed at `a`, and a later unlink and grace check delete it once. |
| Fixes.UnlinkThenGraceDeletesOnce | faxWatcher.cjs:196-212 | Repaired: an unconfirmed unlink of a tracked path, then its grace check, deletes the record once and unindexes the path. |

## Left out

- `createHash` (SHA-256 over a read stream): the digest is an input of `add` and `change`. A read failure is `None`. In the source that rejection is unhandled inside an async listener, and under Node's default (version 15 and later) an unhandled rejection ends the process. The model assumes a runtime where the process survives it: the handler is abandoned at the `await`, so `add` does nothing and `change` keeps only its deletion.
- chokidar itself, its options and the `fs.existsSync` checks: notifications are inputs, and reachability is a boolean.
- Real timers: the 6000 ms and 10000 ms sleeps are continuations resumed by an input.
- Interleaving of concurrent handlers across an `await`: each handler runs to completion in one step. The copy's `warning` and `copy` events are appended right after `create`.
- `fs.promises.copyFile`: only its success or failure, as an input, and the archive name are modelled. `path.join` of the folder and the name is kept as a pair (`ArchiveTarget`).
- `cdate` formatting of the timestamp: the `stamp` parameter stands for `%Y-%m-%d %Hh%Mm%Sss`.
- Windows path rules: paths are POSIX with separator '/'.
- A `stats` of `null`, which leaves the dates unset: chokidar is configured with `alwaysStat`.
- Events carry record values, while the source emits the live record object. A listener that keeps a record therefore sees later flag changes in the source but not here.
- `isLive`, `toString`, the `warning` listener, and `#log`/`#errLog` console output: they are not part of the document-identity engine.
- The log level and its constants: presentation only.
- Watcher.CopyEvents: the `warning` and `copy` events follow `create` at once. In the source they come when `copyFile` settles, possibly after the events of later notifications.
- Watcher.OnAdd: it does not model the window between `createHash` and `set`, where another handler may run.
- Archive.ArchiveName: the timestamp text is the parameter `stamp`, so the contract fixes the layout of the name but not the digits of the date.
- Fixes.CopyThenRemoveKeepsDocument: the repaired model still reports the unlink of the old path as an unmatched-unlink error, since that is what the source does for any unresolved path.
- `faxWatcher.js`, `index.js` and the `docs/` browser files are not part of this model.

## Findings

| source | as written | input that shows it | evidently intended | confidence | as-written member | corrected member |
|---|---|---|---|---|---|---|
| faxWatcher.cjs:67-72 | `set` points the new path at the key but keeps the entry of the key's previous path | `a.pdf` tracked under digest H; `add(b.pdf)` with the same bytes (a rename reported add-first), then `unlink(a.pdf)`, then its grace check: the stale entry of `a.pdf` resolves to the record now at `b.pdf`, which is flagged and deleted although `b.pdf` exists | `set` retires the previous path's entry, so a rename reported add-first yields `rename` and no `delete`; the later unlink of the old path is reported as unmatched (proved in `Fixes.CopyThenRemoveKeepsDocument`) | medium: depends on chokidar reporting add before unlink; not executed | Scenarios.AddBeforeUnlinkDeletesLiveDocument | Repaired.SetSynced |
| faxWatcher.cjs:81-87 | `delete(key)` drops the path entry of the record's path even when that entry now names another digest | `a.pdf` tracked under H1; `unlink(a.pdf)`, `add(a.pdf)` with new bytes H2 within 6000 ms, the grace check for H1, then `unlink(a.pdf)`: reported as `unlink FAX Object None`, and H2's record is never flagged or removed | `delete` drops a path entry only while it names the deleted key, so the replacement stays reachable and is deleted once when its file goes (proved in `Fixes.ReplaceWithNewContentKeepsIndex`) | high: follows from the code alone; not executed | Scenarios.ReplaceWithNewContentOrphansRecord | Repaired.DeleteSynced |
