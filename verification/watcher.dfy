/**
 FaxWatcher as a pure state machine. Each chokidar notification, and each
 resumption of an awaited sleep or close, is one input; a step returns the
 new state, the events emitted, the continuations it awaits, and whether it
 starts a new chokidar watcher.
 */
module Watcher {
  import opened Options
  import opened Faxes
  import Paths
  import Archive
  import Registry

  /** Milliseconds the unlink handler sleeps before confirming a deletion. */
  const GraceDelay: nat := 6000
  /** Milliseconds `connect` sleeps before checking the printer paths again. */
  const ReconnectDelay: nat := 10000

  const InitialStatus: string := "connecting"
  const ConnectingStatus: string := "CONNECTING"
  const ConnReset: string := "ECONNRESET"
  const NetUnreach: string := "ENETUNREACH"
  /** Error code emitted for an unlink of a path the registry does not resolve. */
  const UnmatchedUnlink: string := "unlink FAX Object None"
  /** `FaxWatcher.ERRCODE.FILE_NOT_EXIST`, the warning code of a failed copy. */
  const FileNotExist: string := "File does not exist"

  /**
   Constructor arguments: the normalised printer list, the archive folder
   (`copyPath`, absent when not configured) and the timestamp formatting.
   */
  datatype Config = Config(printers: seq<Archive.Printer>, copyPath: Option<string>, stamp: int -> string)

  function NewConfig(entries: seq<Archive.PrinterEntry>, copyPath: Option<string>, stamp: int -> string): (cfg: Config)
    ensures |cfg.printers| == |entries|
    ensures forall i | 0 <= i < |entries| :: cfg.printers[i] == Archive.Normalize(entries[i])
    ensures cfg.copyPath == copyPath && cfg.stamp == stamp
  {
    Config(Archive.NormalizeAll(entries), copyPath, stamp)
  }

  /** The mutable part of a FaxWatcher: its FaxList and its `status` string. */
  datatype State = State(list: Registry.FaxList, status: string)

  /** A new FaxWatcher: empty registry, status "connecting". */
  const Start: State := State(Registry.Empty, InitialStatus)

  /**
   The inputs. `digest` is the result of `createHash` (absent when reading the
   file failed); `copied` is whether `copyFile` succeeded; `reachable` is what
   `checkPrinterPath` answered.
   */
  datatype Notification =
    | FileAdd(path: Paths.Path, stats: Stats, digest: Option<Hash>, copied: bool)
    | FileChange(path: Paths.Path, stats: Stats, digest: Option<Hash>)
    | FileUnlink(path: Paths.Path)
    | WatchError(code: string)
    | GraceElapsed(hash: Hash, path: Paths.Path)
    | CloseResolved
    | BackoffElapsed(reachable: bool)

  /** What a step leaves awaiting; each is later resumed by the matching input. */
  datatype Pending =
    | GraceTimer(ms: nat, hash: Hash, path: Paths.Path)
    | CloseAwait
    | BackoffTimer(ms: nat)

  /** The events a FaxWatcher emits. */
  datatype Event =
    | Create(fax: Fax)
    | Rename(fax: Fax)
    | Change(fax: Fax)
    | Delete(fax: Fax)
    | Copy(fax: Fax, target: Archive.ArchiveTarget)
    | Warning(code: string, fax: Fax)
    | Error(code: string)

  datatype Outcome = Outcome(s: State, events: seq<Event>, pending: seq<Pending>, watches: bool)

  function Quiet(s: State): Outcome {
    Outcome(s, [], [], false)
  }

  /** Every record is stored under its own digest. */
  ghost predicate KeyedByHash(l: Registry.FaxList) {
    forall k | k in l.faxes :: l.faxes[k].hash == k
  }

  ghost predicate Inv(s: State) {
    Registry.Valid(s.list) && KeyedByHash(s.list)
  }

  /** `getAllFax()`. */
  function GetAllFax(s: State): seq<Fax>
    requires Registry.Valid(s.list)
  {
    Registry.Values(s.list)
  }

  /** No event of the document lifecycle (create, rename, change, delete) in `es`. */
  predicate NoLifecycle(es: seq<Event>) {
    forall i | 0 <= i < |es| :: !(es[i].Create? || es[i].Rename? || es[i].Change? || es[i].Delete?)
  }

  /**
   `#copy(fax)`: nothing without an archive folder; otherwise a failed copy
   first warns, and `copy` is emitted in either case.
   */
  function CopyEvents(cfg: Config, fax: Fax, copied: bool): (es: seq<Event>)
    ensures cfg.copyPath.None? ==> es == []
    ensures cfg.copyPath.Some? ==>
      && 1 <= |es| <= 2
      && es[|es| - 1] == Copy(fax, Archive.ArchiveTarget(cfg.copyPath.value, Archive.ArchiveName(cfg.printers, cfg.stamp, fax)))
      && (|es| == 2 <==> !copied)
      && (!copied ==> es[0] == Warning(FileNotExist, fax))
    ensures NoLifecycle(es)
  {
    match cfg.copyPath
    case None => []
    case Some(dir) =>
      var target := Archive.ArchiveTarget(dir, Archive.ArchiveName(cfg.printers, cfg.stamp, fax));
      (if copied then [] else [Warning(FileNotExist, fax)]) + [Copy(fax, target)]
  }

  /**
   The `add` handler. A digest already registered means the document moved:
   its entry is replaced and `rename` emitted. A new digest is a new document:
   it is inserted, `create` emitted and a copy attempted.
   */
  function OnAdd(cfg: Config, s: State, path: Paths.Path, stats: Stats, digest: Option<Hash>, copied: bool): (r: Outcome)
    ensures Inv(s) ==> Inv(r.s)
    ensures !Paths.IsPdfPath(path) || digest.None? ==> r == Quiet(s)
    ensures r.pending == [] && !r.watches && r.s.status == s.status
    ensures Paths.IsPdfPath(path) && digest.Some? ==>
      var h, f := digest.value, NewFax(path, stats, digest.value);
      && Registry.Get(r.s.list, h) == Some(f)
      && Registry.GetByPath(r.s.list, path) == Some(f)
      && (forall k | k != h :: Registry.Get(r.s.list, k) == Registry.Get(s.list, k))
      && (Registry.Has(s.list, h) ==> r.events == [Rename(f)] && r.s.list.order == s.list.order)
      && (!Registry.Has(s.list, h) ==>
            && |r.events| >= 1 && r.events[0] == Create(f)
            && r.events[1..] == CopyEvents(cfg, f, copied))
  {
    if !Paths.IsPdfPath(path) || digest.None? then Quiet(s)
    else
      var h := digest.value;
      var f := NewFax(path, stats, h);
      var list := Registry.Set(s.list, h, f);
      assert KeyedByHash(s.list) ==> KeyedByHash(list);
      if Registry.Has(s.list, h) then
        Outcome(s.(list := list), [Rename(f)], [], false)
      else
        Outcome(s.(list := list), [Create(f)] + CopyEvents(cfg, f, copied), [], false)
  }

  /** The registry after the change handler's first move: the record found at `path`, if any, deleted. */
  function DropAtPath(l: Registry.FaxList, path: Paths.Path): Registry.FaxList {
    match Registry.GetByPath(l, path)
    case None => l
    case Some(prev) => Registry.Delete(l, prev.hash)
  }

  /**
   The `change` handler: first delete the record found at `path`, then (once
   the digest is known) insert the new record under its digest and emit
   `change`. A failed digest leaves the deletion in place and emits nothing.
   */
  function OnChange(s: State, path: Paths.Path, stats: Stats, digest: Option<Hash>): (r: Outcome)
    ensures Inv(s) ==> Inv(r.s)
    ensures !Paths.IsPdfPath(path) ==> r == Quiet(s)
    ensures r.pending == [] && !r.watches && r.s.status == s.status
    ensures Paths.IsPdfPath(path) && digest.None? ==> r.events == [] && r.s.list == DropAtPath(s.list, path)
    ensures Paths.IsPdfPath(path) && digest.Some? ==>
      var h, f := digest.value, NewFax(path, stats, digest.value);
      && r.events == [Change(f)]
      && Registry.Get(r.s.list, h) == Some(f)
      && Registry.GetByPath(r.s.list, path) == Some(f)
      && (forall k | k != h && (Registry.GetByPath(s.list, path).None? || k != Registry.GetByPath(s.list, path).value.hash) ::
            Registry.Get(r.s.list, k) == Registry.Get(s.list, k))
      && (Registry.GetByPath(s.list, path).Some? ==>
            var prev := Registry.GetByPath(s.list, path).value.hash;
            Registry.Has(r.s.list, prev) <==> prev == h)
  {
    if !Paths.IsPdfPath(path) then Quiet(s)
    else
      var dropped := DropAtPath(s.list, path);
      match digest
      case None => Outcome(s.(list := dropped), [], [], false)
      case Some(h) =>
        var f := NewFax(path, stats, h);
        Outcome(s.(list := Registry.Set(dropped, h, f)), [Change(f)], [], false)
  }

  /**
   The `unlink` handler: a path that resolves to nothing is reported as an
   error; otherwise the record found only gets its `unlink` flag, and a grace
   check for that record's digest and path is scheduled.
   */
  function OnUnlink(s: State, path: Paths.Path): (r: Outcome)
    ensures Inv(s) ==> Inv(r.s)
    ensures !Paths.IsPdfPath(path) ==> r == Quiet(s)
    ensures !r.watches && r.s.status == s.status
    ensures Paths.IsPdfPath(path) && Registry.GetByPath(s.list, path).None? ==>
      r.s == s && r.events == [Error(UnmatchedUnlink)] && r.pending == []
    ensures Paths.IsPdfPath(path) && Registry.GetByPath(s.list, path).Some? ==>
      var prev := Registry.GetByPath(s.list, path).value;
      && r.events == []
      && r.pending == [GraceTimer(GraceDelay, prev.hash, prev.path)]
      && Registry.GetByPath(r.s.list, path) == Some(prev.(unlink := true))
      && r.s.list.faxes.Keys == s.list.faxes.Keys
      && r.s.list.pathMap == s.list.pathMap
      && r.s.list.order == s.list.order
      && (forall k | k != s.list.pathMap[path] :: Registry.Get(r.s.list, k) == Registry.Get(s.list, k))
  {
    if !Paths.IsPdfPath(path) then Quiet(s)
    else
      match Registry.GetByPath(s.list, path)
      case None => Outcome(s, [Error(UnmatchedUnlink)], [], false)
      case Some(prev) =>
        var key := s.list.pathMap[path];
        Outcome(s.(list := Registry.MarkUnlinked(s.list, key)), [], [GraceTimer(GraceDelay, prev.hash, prev.path)], false)
  }

  /** The grace check's lookup: by digest, falling back to the saved path. */
  function Recheck(l: Registry.FaxList, hash: Hash, path: Paths.Path): Option<Fax> {
    match Registry.Get(l, hash)
    case Some(f) => Some(f)
    case None => Registry.GetByPath(l, path)
  }

  /**
   The end of the unlink handler's sleep: a record found by `Recheck` that
   still carries the `unlink` flag is confirmed deleted: `delete(hash)` and
   one `delete` event. Anything else changes nothing.
   */
  function OnGraceElapsed(s: State, hash: Hash, path: Paths.Path): (r: Outcome)
    ensures Inv(s) ==> Inv(r.s)
    ensures r.pending == [] && !r.watches && r.s.status == s.status
    ensures |r.events| <= 1
    ensures r.events != [] <==> Recheck(s.list, hash, path).Some? && Recheck(s.list, hash, path).value.unlink
    ensures r.events != [] ==>
      r.events == [Delete(Recheck(s.list, hash, path).value)] && r.s.list == Registry.Delete(s.list, hash)
    ensures r.events == [] ==> r.s == s
  {
    match Recheck(s.list, hash, path)
    case Some(f) =>
      if f.unlink then Outcome(s.(list := Registry.Delete(s.list, hash)), [Delete(f)], [], false)
      else Quiet(s)
    case None => Quiet(s)
  }

  predicate IsConnectivityError(code: string) {
    code == ConnReset || code == NetUnreach
  }

  /**
   The `error` handler: the error is always re-emitted. A connectivity error
   whose code differs from `status` records the code and starts closing the
   watcher; any other error changes nothing.
   */
  function OnError(s: State, code: string): (r: Outcome)
    ensures Inv(s) ==> Inv(r.s)
    ensures r.events == [Error(code)] && !r.watches && r.s.list == s.list
    ensures IsConnectivityError(code) && s.status != code ==> r.s.status == code && r.pending == [CloseAwait]
    ensures !(IsConnectivityError(code) && s.status != code) ==> r.s == s && r.pending == []
  {
    if IsConnectivityError(code) && s.status != code then
      Outcome(s.(status := code), [Error(code)], [CloseAwait], false)
    else
      Outcome(s, [Error(code)], [], false)
  }

  /**
   `connect(opt)`: status becomes "CONNECTING"; a watcher starts at once only
   outside the 'test' mode with every printer path reachable, otherwise the
   call sleeps for the reconnect delay.
   */
  function Connect(s: State, test: bool, reachable: bool): (r: Outcome)
    ensures r.s == s.(status := ConnectingStatus) && r.events == []
    ensures r.watches <==> !test && reachable
    ensures !r.watches ==> r.pending == [BackoffTimer(ReconnectDelay)]
    ensures r.watches ==> r.pending == []
  {
    var s' := s.(status := ConnectingStatus);
    if !test && reachable then Outcome(s', [], [], true)
    else Outcome(s', [], [BackoffTimer(ReconnectDelay)], false)
  }

  /**
   The rest of the error handler once `watcher.close()` resolves: the
   registry's primary map is cleared and `connect('test')` is entered.
   */
  function OnClosed(s: State): (r: Outcome)
    ensures Inv(r.s)
    ensures forall k :: Registry.Get(r.s.list, k) == None
    ensures forall p :: Registry.GetByPath(r.s.list, p) == None
    ensures r.s.status == ConnectingStatus && r.events == [] && !r.watches
    ensures r.pending == [BackoffTimer(ReconnectDelay)]
  {
    Connect(s.(list := Registry.Clear(s.list)), true, false)
  }

  /**
   The end of `connect`'s sleep: a new watcher starts when every printer path
   is reachable; otherwise `connect('test')` is entered again.
   */
  function OnBackoffElapsed(s: State, reachable: bool): (r: Outcome)
    ensures r.s.list == s.list && r.events == []
    ensures r.watches <==> reachable
    ensures reachable ==> r.s == s && r.pending == []
    ensures !reachable ==> r.s.status == ConnectingStatus && r.pending == [BackoffTimer(ReconnectDelay)]
  {
    if reachable then Outcome(s, [], [], true)
    else Connect(s, true, reachable)
  }

  /** One input handled to completion. */
  function Step(cfg: Config, s: State, n: Notification): (r: Outcome)
    ensures Inv(s) ==> Inv(r.s)
  {
    match n
    case FileAdd(p, st, d, ok) => OnAdd(cfg, s, p, st, d, ok)
    case FileChange(p, st, d) => OnChange(s, p, st, d)
    case FileUnlink(p) => OnUnlink(s, p)
    case WatchError(c) => OnError(s, c)
    case GraceElapsed(h, p) => OnGraceElapsed(s, h, p)
    case CloseResolved => OnClosed(s)
    case BackoffElapsed(ok) => OnBackoffElapsed(s, ok)
  }

  /** The final state and all events of a sequence of inputs. */
  function Run(cfg: Config, s: State, ns: seq<Notification>): (r: (State, seq<Event>))
    ensures Inv(s) ==> Inv(r.0)
    decreases |ns|
  {
    if |ns| == 0 then (s, [])
    else
      var o := Step(cfg, s, ns[0]);
      var rest := Run(cfg, o.s, ns[1..]);
      (rest.0, o.events + rest.1)
  }
}
