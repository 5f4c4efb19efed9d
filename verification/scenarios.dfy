/**
 Properties of short input sequences: renames, the grace period, the
 reconnect cycle and the rescan that follows it.
 */
module Scenarios {
  import opened Options
  import opened Faxes
  import Paths
  import Registry
  import opened Watcher

  /** The registry holds the record for `h` at `p`, and `p` is indexed to `h`. */
  predicate Tracks(l: Registry.FaxList, h: Hash, p: Paths.Path) {
    h in l.faxes && l.faxes[h].path == p && p in l.pathMap && l.pathMap[p] == h
  }

  /**
   Rename, and delete-then-recreate with the same bytes: `unlink(a)`, then
   `add(b)` of the same content within the grace period, then the grace check
   scheduled by the unlink. The only event is one `rename`, and the document
   is registered at `b` under the same digest.
   */
  lemma UnlinkThenReAddIsRename(cfg: Config, s: State, a: Paths.Path, b: Paths.Path, h: Hash, st: Stats, copied: bool)
    requires Inv(s) && Paths.IsPdfPath(a) && Paths.IsPdfPath(b) && Tracks(s.list, h, a)
    ensures
      var o1 := OnUnlink(s, a);
      var o2 := OnAdd(cfg, o1.s, b, st, Some(h), copied);
      var o3 := OnGraceElapsed(o2.s, h, a);
      && o1.pending == [GraceTimer(GraceDelay, h, a)]
      && o1.events + o2.events + o3.events == [Rename(NewFax(b, st, h))]
      && Registry.Get(o3.s.list, h) == Some(NewFax(b, st, h))
      && Registry.GetByPath(o3.s.list, b) == Some(NewFax(b, st, h))
  {
    assert Registry.GetByPath(s.list, a) == Some(s.list.faxes[h]);
    var o1 := OnUnlink(s, a);
    assert Registry.Has(o1.s.list, h);
    var o2 := OnAdd(cfg, o1.s, b, st, Some(h), copied);
    assert o2.events == [Rename(NewFax(b, st, h))];
    var o3 := OnGraceElapsed(o2.s, h, a);
    assert Recheck(o2.s.list, h, a) == Some(NewFax(b, st, h));
    assert o3.events == [];
  }

  /**
   An unlink that nothing reverses: no event at the unlink, exactly one
   `delete` at the grace check, after which the document is gone from both
   indices, and a second check of the same kind does nothing.
   */
  lemma UnconfirmedUnlinkDeletesOnce(cfg: Config, s: State, a: Paths.Path, h: Hash)
    requires Inv(s) && Paths.IsPdfPath(a) && Tracks(s.list, h, a)
    ensures
      var o1 := OnUnlink(s, a);
      var o2 := OnGraceElapsed(o1.s, h, a);
      var o3 := OnGraceElapsed(o2.s, h, a);
      && o1.events == []
      && o1.pending == [GraceTimer(GraceDelay, h, a)]
      && o2.events == [Delete(s.list.faxes[h].(unlink := true))]
      && !Registry.Has(o2.s.list, h)
      && Registry.GetByPath(o2.s.list, a) == None
      && (forall k | k != h :: Registry.Get(o2.s.list, k) == Registry.Get(s.list, k))
      && o3.events == [] && o3.s == o2.s
  {
    var o1 := OnUnlink(s, a);
    assert Registry.GetByPath(s.list, a) == Some(s.list.faxes[h]);
    var o2 := OnGraceElapsed(o1.s, h, a);
    assert Recheck(o1.s.list, h, a) == Some(s.list.faxes[h].(unlink := true));
    assert a !in o2.s.list.pathMap;
  }

  /**
   Error coalescing: a connectivity error with a new code records it and
   starts closing; the same code again while it is recorded only re-emits
   the error.
   */
  lemma RepeatedFailureCoalesced(cfg: Config, s: State, code: string)
    requires IsConnectivityError(code) && s.status != code
    ensures
      var o1 := OnError(s, code);
      var o2 := OnError(o1.s, code);
      && o1.events == [Error(code)] && o1.pending == [CloseAwait] && o1.s.status == code
      && o2.events == [Error(code)] && o2.pending == [] && o2.s == o1.s
  {
  }

  /**
   The recovery cycle: once the close resolves the registry lists nothing,
   status is "CONNECTING" and a reconnect sleep is pending; a further error of
   the same code then starts another recovery, since the code is no longer
   the recorded status.
   */
  lemma FailureClearsAndRearms(cfg: Config, s: State, code: string)
    requires Inv(s) && IsConnectivityError(code) && s.status != code
    ensures
      var o1 := OnError(s, code);
      var o2 := OnClosed(o1.s);
      var o3 := OnError(o2.s, code);
      && Inv(o2.s)
      && GetAllFax(o2.s) == []
      && o2.s.status == ConnectingStatus && o2.pending == [BackoffTimer(ReconnectDelay)]
      && o3.pending == [CloseAwait]
  {
  }

  /**
   The end of a recovery: after the close, the reconnect sleep ends. With the
   printers reachable exactly one new watcher starts, over an empty listing
   and with status "CONNECTING"; unreachable, the sleep is simply rearmed and
   the outcome is that of the close itself.
   */
  lemma RecoveryRestartsWatcher(s: State)
    ensures
      var o1 := OnClosed(s);
      var o2 := OnBackoffElapsed(o1.s, true);
      && !o1.watches && o1.pending == [BackoffTimer(ReconnectDelay)]
      && o2.watches && o2.pending == [] && o2.events == []
      && Inv(o2.s) && GetAllFax(o2.s) == [] && o2.s.status == ConnectingStatus
    ensures OnBackoffElapsed(OnClosed(s).s, false) == OnClosed(s)
  {
  }

  /**
   A `change` of a path the registry does not resolve, with bytes it does not
   hold, registers the record at the end of `getAllFax` and emits only
   `change`: no `create` and no archive copy.
   */
  lemma ChangeOfUntrackedPathOnlyChanges(s: State, p: Paths.Path, st: Stats, h: Hash)
    requires Inv(s) && Paths.IsPdfPath(p)
    requires Registry.GetByPath(s.list, p).None? && !Registry.Has(s.list, h)
    ensures var o := OnChange(s, p, st, Some(h));
      && o.events == [Change(NewFax(p, st, h))]
      && Inv(o.s)
      && GetAllFax(o.s) == GetAllFax(s) + [NewFax(p, st, h)]
  {
    Registry.SetNewAppends(s.list, h, NewFax(p, st, h));
  }

  /** A grace check left over from before the registry was cleared does nothing. */
  lemma StaleGraceCheckAfterClearIsNoOp(cfg: Config, s: State, h: Hash, p: Paths.Path)
    ensures
      var o1 := OnClosed(s);
      var o2 := OnGraceElapsed(o1.s, h, p);
      o2.events == [] && o2.s == o1.s
  {
  }

  /** One `add` per file: the file's path, stats and digest. */
  datatype Arrival = Arrival(path: Paths.Path, stats: Stats, hash: Hash)

  function Adds(xs: seq<Arrival>, copied: bool): (ns: seq<Notification>)
    ensures |ns| == |xs|
    ensures forall i | 0 <= i < |xs| :: ns[i] == FileAdd(xs[i].path, xs[i].stats, Some(xs[i].hash), copied)
  {
    seq(|xs|, i requires 0 <= i < |xs| => FileAdd(xs[i].path, xs[i].stats, Some(xs[i].hash), copied))
  }

  /** The records the add handler builds for `xs`, in order. */
  function Records(xs: seq<Arrival>): seq<Fax>
    decreases |xs|
  {
    if |xs| == 0 then [] else [NewFax(xs[0].path, xs[0].stats, xs[0].hash)] + Records(xs[1..])
  }

  /** The add handler applied to each file in turn, as a new watcher reports them. */
  function Rescan(cfg: Config, s: State, xs: seq<Arrival>, copied: bool): (r: State)
    ensures Inv(s) ==> Inv(r)
    decreases |xs|
  {
    if |xs| == 0 then s
    else Rescan(cfg, OnAdd(cfg, s, xs[0].path, xs[0].stats, Some(xs[0].hash), copied).s, xs[1..], copied)
  }

  /** `Rescan` is `Run` over the corresponding `add` notifications. */
  lemma {:induction false} RunOfAddsIsRescan(cfg: Config, s: State, xs: seq<Arrival>, copied: bool)
    ensures Run(cfg, s, Adds(xs, copied)).0 == Rescan(cfg, s, xs, copied)
    decreases |xs|
  {
    if |xs| > 0 {
      var x := xs[0];
      var ns := Adds(xs, copied);
      assert ns[0] == FileAdd(x.path, x.stats, Some(x.hash), copied);
      assert ns[1..] == Adds(xs[1..], copied);
      var o := Step(cfg, s, ns[0]);
      assert o == OnAdd(cfg, s, x.path, x.stats, Some(x.hash), copied);
      RunOfAddsIsRescan(cfg, o.s, xs[1..], copied);
    }
  }

  /** One add of a `.pdf` file with a digest new to the registry appends its record to `getAllFax`. */
  lemma AddOfNewDigestAppends(cfg: Config, s: State, x: Arrival, copied: bool)
    requires Inv(s) && Paths.IsPdfPath(x.path) && !Registry.Has(s.list, x.hash)
    ensures var r := OnAdd(cfg, s, x.path, x.stats, Some(x.hash), copied).s;
      && Inv(r)
      && GetAllFax(r) == GetAllFax(s) + [NewFax(x.path, x.stats, x.hash)]
      && forall k | k != x.hash :: Registry.Has(r.list, k) == Registry.Has(s.list, k)
  {
    Registry.SetNewAppends(s.list, x.hash, NewFax(x.path, x.stats, x.hash));
    var r := OnAdd(cfg, s, x.path, x.stats, Some(x.hash), copied).s;
    forall k | k != x.hash
      ensures Registry.Has(r.list, k) == Registry.Has(s.list, k)
    {
      assert Registry.Get(r.list, k) == Registry.Get(s.list, k);
    }
  }

  /** Arrivals of `.pdf` files whose digests are new to `l` and to each other. */
  predicate FreshArrivals(l: Registry.FaxList, xs: seq<Arrival>) {
    && (forall i | 0 <= i < |xs| :: Paths.IsPdfPath(xs[i].path) && !Registry.Has(l, xs[i].hash))
    && (forall i, j | 0 <= i < j < |xs| :: xs[i].hash != xs[j].hash)
  }

  /** Once the first arrival is registered, the others are still new. */
  lemma RestStaysFresh(l: Registry.FaxList, r: Registry.FaxList, xs: seq<Arrival>)
    requires |xs| > 0 && FreshArrivals(l, xs)
    requires forall k | k != xs[0].hash :: Registry.Has(r, k) == Registry.Has(l, k)
    ensures FreshArrivals(r, xs[1..])
  {
    forall i | 0 <= i < |xs[1..]|
      ensures Paths.IsPdfPath(xs[1..][i].path) && !Registry.Has(r, xs[1..][i].hash)
    {
      assert xs[1..][i] == xs[i + 1];
    }
  }

  /**
   The rescan after a reconnect: adds of `.pdf` files whose digests are new to
   the registry and to each other append exactly those records to
   `getAllFax`, in arrival order.
   */
  lemma {:induction false} RescanAppendsArrivals(cfg: Config, s: State, xs: seq<Arrival>, copied: bool)
    requires Inv(s) && FreshArrivals(s.list, xs)
    ensures Inv(Rescan(cfg, s, xs, copied))
    ensures GetAllFax(Rescan(cfg, s, xs, copied)) == GetAllFax(s) + Records(xs)
    decreases |xs|
  {
    if |xs| > 0 {
      var x := xs[0];
      var o := OnAdd(cfg, s, x.path, x.stats, Some(x.hash), copied);
      AddOfNewDigestAppends(cfg, s, x, copied);
      RestStaysFresh(s.list, o.s.list, xs);
      RescanAppendsArrivals(cfg, o.s, xs[1..], copied);
    }
  }

  /**
   Resynchronisation: after the clear of a recovery, the `add` notifications
   of the rescan leave `getAllFax` listing exactly the rescanned files, in the
   order they were reported, whatever was registered before.
   */
  lemma ResyncListsExactlyRescannedFiles(cfg: Config, s: State, xs: seq<Arrival>, copied: bool)
    requires forall i | 0 <= i < |xs| :: Paths.IsPdfPath(xs[i].path)
    requires forall i, j | 0 <= i < j < |xs| :: xs[i].hash != xs[j].hash
    ensures var cleared := OnClosed(s).s;
      GetAllFax(Run(cfg, cleared, Adds(xs, copied)).0) == Records(xs)
  {
    var cleared := OnClosed(s).s;
    RunOfAddsIsRescan(cfg, cleared, xs, copied);
    RescanAppendsArrivals(cfg, cleared, xs, copied);
  }

  /**
   As written, a grace check whose digest is gone but whose saved path now
   resolves to a flagged record emits `delete` for that record while
   `delete(hash)` removes nothing.
   */
  lemma GraceFallbackReportsWithoutRemoving(cfg: Config, s: State, h: Hash, p: Paths.Path)
    requires !Registry.Has(s.list, h)
    requires Registry.GetByPath(s.list, p).Some? && Registry.GetByPath(s.list, p).value.unlink
    ensures var o := OnGraceElapsed(s, h, p);
      o.events == [Delete(Registry.GetByPath(s.list, p).value)] && o.s == s
  {
  }

  /**
   As written, a copy followed later by removal of the original (`add(b)` of
   the same bytes before `unlink(a)`) deletes the document although its file
   at `b` is still there: the stale index entry of `a` resolves to the record
   now at `b`, which gets flagged and, at the grace check, deleted.
   */
  lemma AddBeforeUnlinkDeletesLiveDocument(cfg: Config, s: State, a: Paths.Path, b: Paths.Path, h: Hash, st: Stats, copied: bool)
    requires Inv(s) && Paths.IsPdfPath(a) && Paths.IsPdfPath(b) && a != b && Tracks(s.list, h, a)
    ensures
      var o1 := OnAdd(cfg, s, b, st, Some(h), copied);
      var o2 := OnUnlink(o1.s, a);
      var o3 := OnGraceElapsed(o2.s, h, b);
      && o1.events == [Rename(NewFax(b, st, h))]
      && o2.pending == [GraceTimer(GraceDelay, h, b)]
      && o3.events == [Delete(NewFax(b, st, h).(unlink := true))]
      && !Registry.Has(o3.s.list, h)
  {
    var o1 := OnAdd(cfg, s, b, st, Some(h), copied);
    assert Registry.PathEntry(o1.s.list, a) == Some(h);
    assert Registry.GetByPath(o1.s.list, a) == Some(NewFax(b, st, h));
    var o2 := OnUnlink(o1.s, a);
    assert Registry.Get(o2.s.list, h) == Some(NewFax(b, st, h).(unlink := true));
    assert Recheck(o2.s.list, h, b) == Some(NewFax(b, st, h).(unlink := true));
  }

  /**
   As written, replacing a file with different bytes within the grace period
   orphans the new record: the old record's confirmed deletion drops the path
   entry the new record had taken over, so a later unlink of the path is
   reported as unmatched and the new record is never flagged or removed.
   */
  lemma ReplaceWithNewContentOrphansRecord(cfg: Config, s: State, a: Paths.Path, h1: Hash, h2: Hash, st: Stats, copied: bool)
    requires Inv(s) && Paths.IsPdfPath(a) && Tracks(s.list, h1, a) && !Registry.Has(s.list, h2)
    ensures
      var o1 := OnUnlink(s, a);
      var o2 := OnAdd(cfg, o1.s, a, st, Some(h2), copied);
      var o3 := OnGraceElapsed(o2.s, h1, a);
      var o4 := OnUnlink(o3.s, a);
      && o2.events[0] == Create(NewFax(a, st, h2))
      && o3.events == [Delete(s.list.faxes[h1].(unlink := true))]
      && o4.events == [Error(UnmatchedUnlink)] && o4.pending == []
      && Registry.Get(o4.s.list, h2) == Some(NewFax(a, st, h2))
  {
    var o1 := OnUnlink(s, a);
    assert Registry.GetByPath(s.list, a) == Some(s.list.faxes[h1]);
    var o2 := OnAdd(cfg, o1.s, a, st, Some(h2), copied);
    assert h1 != h2;
    var o3 := OnGraceElapsed(o2.s, h1, a);
    assert Recheck(o2.s.list, h1, a) == Some(s.list.faxes[h1].(unlink := true));
    assert a !in o3.s.list.pathMap;
  }
}
