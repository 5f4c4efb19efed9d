/**
 The watcher with its two indices kept in step. `set` drops the entry of a
 record's previous path, `delete` drops a path entry only while it still
 names the deleted digest, and `clear` empties both maps. With these, every
 entry of `pathMap` resolves to a live record stored at that very path, and
 each input preserves that.
 */
module Repaired {
  import opened Options
  import opened Faxes
  import Paths
  import Registry
  import opened Watcher

  /** Every path entry names a live record whose path is that entry's path. */
  ghost predicate Indexed(l: Registry.FaxList) {
    forall p | p in l.pathMap :: l.pathMap[p] in l.faxes && l.faxes[l.pathMap[p]].path == p
  }

  ghost predicate Sound(s: State) {
    Inv(s) && Indexed(s.list)
  }

  /**
   `set(key, value)` that also retires the entry of the path `key` was
   stored at before, when that entry still names `key`. The primary map and
   the insertion order are those of the plain `set`.
   */
  function SetSynced(l: Registry.FaxList, key: Hash, value: Fax): (r: Registry.FaxList)
    ensures Registry.Valid(l) ==> Registry.Valid(r)
    ensures Indexed(l) ==> Indexed(r)
    ensures r.faxes == Registry.Set(l, key, value).faxes && r.order == Registry.Set(l, key, value).order
    ensures Registry.GetByPath(r, value.path) == Some(value)
    ensures forall p | p != value.path && Registry.PathEntry(l, p) != Some(key) ::
      Registry.PathEntry(r, p) == Registry.PathEntry(l, p)
    ensures Indexed(l) ==> forall p | p != value.path :: Registry.PathEntry(r, p) != Some(key)
  {
    var l' :=
      if Registry.Has(l, key) && Registry.PathEntry(l, l.faxes[key].path) == Some(key)
      then l.(pathMap := l.pathMap - {l.faxes[key].path})
      else l;
    assert Indexed(l) ==> forall p | p in l'.pathMap :: l'.pathMap[p] != key;
    Registry.Set(l', key, value)
  }

  /**
   `delete(key)` that leaves alone a path entry which now names another
   digest. The primary map and the insertion order are those of the plain
   `delete`.
   */
  function DeleteSynced(l: Registry.FaxList, key: Hash): (r: Registry.FaxList)
    ensures Registry.Valid(l) ==> Registry.Valid(r)
    ensures Indexed(l) ==> Indexed(r)
    ensures r.faxes == Registry.Delete(l, key).faxes && r.order == Registry.Delete(l, key).order
    ensures Indexed(l) ==> forall p ::
      Registry.PathEntry(r, p) == if Registry.PathEntry(l, p) == Some(key) then None else Registry.PathEntry(l, p)
  {
    if !Registry.Has(l, key) then l
    else
      var p := l.faxes[key].path;
      var d := Registry.Delete(l, key);
      if Registry.PathEntry(l, p) == Some(key) then d else d.(pathMap := l.pathMap)
  }

  /** `clear()` of both maps. */
  function ClearSynced(l: Registry.FaxList): (r: Registry.FaxList)
    ensures Registry.Valid(r) && Indexed(r)
    ensures r.faxes == Registry.Clear(l).faxes && r.order == Registry.Clear(l).order
    ensures forall p :: Registry.PathEntry(r, p) == None
  {
    Registry.Empty
  }

  /** The add handler over `SetSynced`. */
  function RAdd(cfg: Config, s: State, path: Paths.Path, stats: Stats, digest: Option<Hash>, copied: bool): (r: Outcome)
    ensures Sound(s) ==> Sound(r.s)
    ensures !Paths.IsPdfPath(path) || digest.None? ==> r == Quiet(s)
    ensures r.pending == [] && !r.watches && r.s.status == s.status
    ensures Paths.IsPdfPath(path) && digest.Some? ==>
      var h, f := digest.value, NewFax(path, stats, digest.value);
      && Registry.Get(r.s.list, h) == Some(f)
      && Registry.GetByPath(r.s.list, path) == Some(f)
      && (forall k | k != h :: Registry.Get(r.s.list, k) == Registry.Get(s.list, k))
      && (Registry.Has(s.list, h) ==> r.events == [Rename(f)])
      && (!Registry.Has(s.list, h) ==> |r.events| >= 1 && r.events[0] == Create(f))
      && (Sound(s) ==> forall p | p != path :: Registry.PathEntry(r.s.list, p) != Some(h))
  {
    if !Paths.IsPdfPath(path) || digest.None? then Quiet(s)
    else
      var h := digest.value;
      var f := NewFax(path, stats, h);
      var list := SetSynced(s.list, h, f);
      assert KeyedByHash(s.list) ==> KeyedByHash(list);
      if Registry.Has(s.list, h) then
        Outcome(s.(list := list), [Rename(f)], [], false)
      else
        Outcome(s.(list := list), [Create(f)] + CopyEvents(cfg, f, copied), [], false)
  }

  /** The repaired add handler emits what the handler as written emits and stores the same records in the same order. */
  lemma RAddAgrees(cfg: Config, s: State, path: Paths.Path, stats: Stats, digest: Option<Hash>, copied: bool)
    ensures var r, w := RAdd(cfg, s, path, stats, digest, copied), OnAdd(cfg, s, path, stats, digest, copied);
      r.events == w.events && r.s.list.faxes == w.s.list.faxes && r.s.list.order == w.s.list.order
  {
  }

  /** The change handler's first move over `DeleteSynced`: the record found at `path`, if any, deleted. */
  function DropSynced(l: Registry.FaxList, path: Paths.Path): (r: Registry.FaxList)
    ensures Registry.Valid(l) ==> Registry.Valid(r)
    ensures Indexed(l) ==> Indexed(r)
    ensures KeyedByHash(l) ==> KeyedByHash(r)
    ensures r.faxes == DropAtPath(l, path).faxes && r.order == DropAtPath(l, path).order
    ensures Indexed(l) && KeyedByHash(l) ==> Registry.PathEntry(r, path) == None
  {
    match Registry.GetByPath(l, path)
    case None => l
    case Some(prev) => DeleteSynced(l, prev.hash)
  }

  /** The change handler over `DropSynced` and `SetSynced`. */
  function RChange(s: State, path: Paths.Path, stats: Stats, digest: Option<Hash>): (r: Outcome)
    ensures Sound(s) ==> Sound(r.s)
    ensures r.events == OnChange(s, path, stats, digest).events
    ensures r.s.list.faxes == OnChange(s, path, stats, digest).s.list.faxes
    ensures r.pending == [] && !r.watches && r.s.status == s.status
    ensures Paths.IsPdfPath(path) && digest.Some? ==>
      Registry.GetByPath(r.s.list, path) == Some(NewFax(path, stats, digest.value))
  {
    if !Paths.IsPdfPath(path) then Quiet(s)
    else
      var dropped := DropSynced(s.list, path);
      match digest
      case None => Outcome(s.(list := dropped), [], [], false)
      case Some(h) =>
        var f := NewFax(path, stats, h);
        var list := SetSynced(dropped, h, f);
        assert KeyedByHash(dropped) ==> KeyedByHash(list);
        Outcome(s.(list := list), [Change(f)], [], false)
  }

  /** The unlink handler only flags a record, so it keeps both indices in step. */
  lemma UnlinkKeepsSound(s: State, path: Paths.Path)
    ensures Sound(s) ==> Sound(OnUnlink(s, path).s)
  {
    var r := OnUnlink(s, path);
    if Sound(s) && Paths.IsPdfPath(path) && Registry.GetByPath(s.list, path).Some? {
      var key := s.list.pathMap[path];
      forall p | p in r.s.list.pathMap
        ensures r.s.list.pathMap[p] in r.s.list.faxes && r.s.list.faxes[r.s.list.pathMap[p]].path == p
      {
        var k := s.list.pathMap[p];
        assert Registry.Get(s.list, k) == Some(s.list.faxes[k]);
        if k != key {
          assert Registry.Get(r.s.list, k) == Registry.Get(s.list, k);
        }
      }
    }
  }

  /** The grace check over `DeleteSynced`. */
  function RGraceElapsed(s: State, hash: Hash, path: Paths.Path): (r: Outcome)
    ensures Sound(s) ==> Sound(r.s)
    ensures r.events == OnGraceElapsed(s, hash, path).events
    ensures r.s.list.faxes == OnGraceElapsed(s, hash, path).s.list.faxes
    ensures r.pending == [] && !r.watches && r.s.status == s.status
  {
    match Recheck(s.list, hash, path)
    case Some(f) =>
      if f.unlink then
        var list := DeleteSynced(s.list, hash);
        assert KeyedByHash(s.list) ==> KeyedByHash(list);
        Outcome(s.(list := list), [Delete(f)], [], false)
      else Quiet(s)
    case None => Quiet(s)
  }

  /** The end of the close over `ClearSynced`. */
  function RClosed(s: State): (r: Outcome)
    ensures Sound(r.s)
    ensures forall k :: Registry.Get(r.s.list, k) == None
    ensures forall p :: Registry.PathEntry(r.s.list, p) == None
    ensures r == OnClosed(s).(s := r.s)
  {
    Connect(s.(list := ClearSynced(s.list)), true, false)
  }

  /** One input handled by the repaired handlers; the others are unchanged. */
  function RStep(cfg: Config, s: State, n: Notification): (r: Outcome)
    ensures Sound(s) ==> Sound(r.s)
  {
    match n
    case FileAdd(p, st, d, ok) => RAdd(cfg, s, p, st, d, ok)
    case FileChange(p, st, d) => RChange(s, p, st, d)
    case FileUnlink(p) =>
      UnlinkKeepsSound(s, p);
      OnUnlink(s, p)
    case WatchError(c) => OnError(s, c)
    case GraceElapsed(h, p) => RGraceElapsed(s, h, p)
    case CloseResolved => RClosed(s)
    case BackoffElapsed(ok) => OnBackoffElapsed(s, ok)
  }
}
