/**
 The input sequences that go wrong as written, replayed on the repaired
 handlers, and the invariant that makes them go right.
 */
module Fixes {
  import opened Options
  import opened Faxes
  import Paths
  import Registry
  import opened Watcher
  import opened Repaired
  import Scenarios

  /** A new FaxWatcher starts with both indices in step. */
  lemma StartIsSound()
    ensures Sound(Start)
  {
    assert Registry.Valid(Start.list);
  }

  /** The final state of a sequence of inputs handled by the repaired handlers. */
  function RRun(cfg: Config, s: State, ns: seq<Notification>): State
    decreases |ns|
  {
    if |ns| == 0 then s else RRun(cfg, RStep(cfg, s, ns[0]).s, ns[1..])
  }

  /** Every input sequence keeps both indices in step. */
  lemma {:induction false} RunKeepsSound(cfg: Config, s: State, ns: seq<Notification>)
    requires Sound(s)
    ensures Sound(RRun(cfg, s, ns))
    decreases |ns|
  {
    if |ns| > 0 {
      RunKeepsSound(cfg, RStep(cfg, s, ns[0]).s, ns[1..]);
    }
  }

  /**
   With the indices in step, an `unlink` of a path only ever flags the record
   stored at that path: a path entry cannot lead to a document that has moved.
   */
  lemma UnlinkFlagsOnlyThatPath(s: State, path: Paths.Path)
    requires Sound(s) && Paths.IsPdfPath(path)
    ensures Registry.GetByPath(s.list, path).Some? ==>
      && Registry.GetByPath(s.list, path).value.path == path
      && OnUnlink(s, path).pending == [GraceTimer(GraceDelay, Registry.GetByPath(s.list, path).value.hash, path)]
  {
  }

  /**
   A copy followed by removal of the original, repaired: `add(b)` of the same
   bytes retires the entry of `a`, so the later `unlink(a)` is reported as
   unmatched, no grace check is scheduled, and the document stays registered
   at `b`.
   */
  lemma CopyThenRemoveKeepsDocument(cfg: Config, s: State, a: Paths.Path, b: Paths.Path, h: Hash, st: Stats, copied: bool)
    requires Sound(s) && Paths.IsPdfPath(a) && Paths.IsPdfPath(b) && a != b && Scenarios.Tracks(s.list, h, a)
    ensures
      var o1 := RAdd(cfg, s, b, st, Some(h), copied);
      var o2 := OnUnlink(o1.s, a);
      && o1.events == [Rename(NewFax(b, st, h))]
      && o2.events == [Error(UnmatchedUnlink)] && o2.pending == []
      && Registry.Get(o2.s.list, h) == Some(NewFax(b, st, h))
      && Registry.GetByPath(o2.s.list, b) == Some(NewFax(b, st, h))
  {
    var o1 := RAdd(cfg, s, b, st, Some(h), copied);
    assert Registry.PathEntry(o1.s.list, a) != Some(h);
    assert Registry.GetByPath(o1.s.list, a) == None;
  }

  /**
   Replacing a file with different bytes within the grace period, repaired:
   the old record's confirmed deletion leaves the new record's path entry in
   place, so a later `unlink` of the path flags the new record and its own
   grace check deletes it, once.
   */
  lemma ReplaceWithNewContentKeepsIndex(cfg: Config, s: State, a: Paths.Path, h1: Hash, h2: Hash, st: Stats, copied: bool)
    requires Sound(s) && Paths.IsPdfPath(a) && Scenarios.Tracks(s.list, h1, a) && !Registry.Has(s.list, h2)
    ensures
      var o1 := OnUnlink(s, a);
      var o2 := RAdd(cfg, o1.s, a, st, Some(h2), copied);
      var o3 := RGraceElapsed(o2.s, h1, a);
      var o4 := OnUnlink(o3.s, a);
      var o5 := RGraceElapsed(o4.s, h2, a);
      && o2.events[0] == Create(NewFax(a, st, h2))
      && o3.events == [Delete(s.list.faxes[h1].(unlink := true))]
      && Registry.GetByPath(o3.s.list, a) == Some(NewFax(a, st, h2))
      && o4.events == [] && o4.pending == [GraceTimer(GraceDelay, h2, a)]
      && o5.events == [Delete(NewFax(a, st, h2).(unlink := true))]
      && !Registry.Has(o5.s.list, h2)
  {
    ReplaceWithinGrace(cfg, s, a, h1, h2, st, copied);
    var o3 := RGraceElapsed(RAdd(cfg, OnUnlink(s, a).s, a, st, Some(h2), copied).s, h1, a);
    UnlinkThenGraceDeletesOnce(o3.s, a, h2);
  }

  /** The first half of the replacement: after the old record's grace check the new one is tracked at `a`. */
  lemma ReplaceWithinGrace(cfg: Config, s: State, a: Paths.Path, h1: Hash, h2: Hash, st: Stats, copied: bool)
    requires Sound(s) && Paths.IsPdfPath(a) && Scenarios.Tracks(s.list, h1, a) && !Registry.Has(s.list, h2)
    ensures
      var o1 := OnUnlink(s, a);
      var o2 := RAdd(cfg, o1.s, a, st, Some(h2), copied);
      var o3 := RGraceElapsed(o2.s, h1, a);
      && o2.events[0] == Create(NewFax(a, st, h2))
      && o3.events == [Delete(s.list.faxes[h1].(unlink := true))]
      && Sound(o3.s)
      && Scenarios.Tracks(o3.s.list, h2, a)
      && o3.s.list.faxes[h2] == NewFax(a, st, h2)
  {
    ReAddWithinGrace(cfg, s, a, h1, h2, st, copied);
    var o2 := RAdd(cfg, OnUnlink(s, a).s, a, st, Some(h2), copied);
    StaleGraceKeepsNewEntry(o2.s, a, h1, h2);
  }

  /** `unlink(a)` then `add(a)` of new bytes: the old record is flagged and `a` now names the new one. */
  lemma ReAddWithinGrace(cfg: Config, s: State, a: Paths.Path, h1: Hash, h2: Hash, st: Stats, copied: bool)
    requires Sound(s) && Paths.IsPdfPath(a) && Scenarios.Tracks(s.list, h1, a) && !Registry.Has(s.list, h2)
    ensures
      var o2 := RAdd(cfg, OnUnlink(s, a).s, a, st, Some(h2), copied);
      && o2.events[0] == Create(NewFax(a, st, h2))
      && Sound(o2.s)
      && Registry.Get(o2.s.list, h1) == Some(s.list.faxes[h1].(unlink := true))
      && Scenarios.Tracks(o2.s.list, h2, a)
      && o2.s.list.faxes[h2] == NewFax(a, st, h2)
  {
    UnlinkTracked(s, a, h1);
    var o1 := OnUnlink(s, a);
    assert Registry.Get(o1.s.list, h2) == Registry.Get(s.list, h2);
    AddNewDigest(cfg, o1.s, a, h1, h2, st, copied);
  }

  /** `unlink` of a tracked path flags that record and keeps both indices in step. */
  lemma UnlinkTracked(s: State, a: Paths.Path, h: Hash)
    requires Sound(s) && Paths.IsPdfPath(a) && Scenarios.Tracks(s.list, h, a)
    ensures var o := OnUnlink(s, a);
      && Sound(o.s)
      && Registry.Get(o.s.list, h) == Some(s.list.faxes[h].(unlink := true))
      && (forall k | k != h :: Registry.Get(o.s.list, k) == Registry.Get(s.list, k))
  {
    assert Registry.GetByPath(s.list, a) == Some(s.list.faxes[h]);
    UnlinkKeepsSound(s, a);
  }

  /** `add` of new bytes at `a`: the new record is tracked at `a` and the record under `h1` is untouched. */
  lemma AddNewDigest(cfg: Config, s: State, a: Paths.Path, h1: Hash, h2: Hash, st: Stats, copied: bool)
    requires Sound(s) && Paths.IsPdfPath(a) && !Registry.Has(s.list, h2) && h1 != h2
    ensures var o := RAdd(cfg, s, a, st, Some(h2), copied);
      && o.events[0] == Create(NewFax(a, st, h2))
      && Sound(o.s)
      && Registry.Get(o.s.list, h1) == Registry.Get(s.list, h1)
      && Scenarios.Tracks(o.s.list, h2, a)
      && o.s.list.faxes[h2] == NewFax(a, st, h2)
  {
    var o := RAdd(cfg, s, a, st, Some(h2), copied);
    assert Registry.PathEntry(o.s.list, a) == Some(h2) by {
      assert o.s.list.faxes[o.s.list.pathMap[a]].hash == o.s.list.pathMap[a];
    }
  }

  /** A grace check for a flagged record whose path entry another record has taken leaves that entry alone. */
  lemma StaleGraceKeepsNewEntry(s: State, a: Paths.Path, h1: Hash, h2: Hash)
    requires Sound(s) && Scenarios.Tracks(s.list, h2, a) && h1 != h2
    requires Registry.Has(s.list, h1) && s.list.faxes[h1].unlink
    ensures var o := RGraceElapsed(s, h1, a);
      && o.events == [Delete(s.list.faxes[h1])]
      && Sound(o.s)
      && Scenarios.Tracks(o.s.list, h2, a)
      && o.s.list.faxes[h2] == s.list.faxes[h2]
  {
    assert Recheck(s.list, h1, a) == Some(s.list.faxes[h1]);
    var o := RGraceElapsed(s, h1, a);
    assert Registry.PathEntry(o.s.list, a) == Some(h2);
    assert Registry.Get(o.s.list, h2) == Registry.Get(s.list, h2);
  }

  /** An unconfirmed `unlink` of a tracked path, then its grace check, on the repaired handlers. */
  lemma UnlinkThenGraceDeletesOnce(s: State, a: Paths.Path, h: Hash)
    requires Sound(s) && Paths.IsPdfPath(a) && Scenarios.Tracks(s.list, h, a)
    ensures
      var o1 := OnUnlink(s, a);
      var o2 := RGraceElapsed(o1.s, h, a);
      && o1.events == [] && o1.pending == [GraceTimer(GraceDelay, h, a)]
      && o2.events == [Delete(s.list.faxes[h].(unlink := true))]
      && !Registry.Has(o2.s.list, h)
      && Registry.GetByPath(o2.s.list, a) == None
  {
    var o1 := OnUnlink(s, a);
    assert Registry.GetByPath(s.list, a) == Some(s.list.faxes[h]);
    UnlinkKeepsSound(s, a);
    assert Recheck(o1.s.list, h, a) == Some(s.list.faxes[h].(unlink := true));
    var o2 := RGraceElapsed(o1.s, h, a);
    assert Registry.PathEntry(o2.s.list, a) == None;
  }
}
