/**
 The rescan after a reconnect when several files share their bytes. Each
 `add` of a digest already listed is a rename that replaces that record where
 it stands, so the listing holds one record per distinct digest: the last
 file reported with those bytes, in the order the digests first arrived.
 */
module Resync {
  import opened Options
  import opened Faxes
  import Paths
  import Registry
  import opened Watcher
  import opened Scenarios

  /** The record the add handler builds for one arrival. */
  function Rec(x: Arrival): (f: Fax)
    ensures f.path == x.path && f.hash == x.hash && !f.unlink
  {
    NewFax(x.path, x.stats, x.hash)
  }

  /** Position of the first record of `vs` with digest `h`. */
  function Find(vs: seq<Fax>, h: Hash): (r: Option<nat>)
    ensures r.None? <==> forall i | 0 <= i < |vs| :: vs[i].hash != h
    ensures r.Some? ==> r.value < |vs| && vs[r.value].hash == h
    ensures r.Some? ==> forall i | 0 <= i < r.value :: vs[i].hash != h
    decreases |vs|
  {
    if |vs| == 0 then None
    else if vs[0].hash == h then Some(0)
    else
      match Find(vs[1..], h)
      case None => None
      case Some(i) => Some(i + 1)
  }

  /**
   A listing after one more record: a record with the same digest is replaced
   where it stands; a new digest goes last.
   */
  function Place(vs: seq<Fax>, f: Fax): (r: seq<Fax>)
    ensures |vs| <= |r| <= |vs| + 1
    ensures forall i | 0 <= i < |vs| :: r[i].hash == vs[i].hash
    ensures forall i | 0 <= i < |vs| && vs[i].hash != f.hash :: r[i] == vs[i]
    ensures Find(vs, f.hash).Some? ==> r[Find(vs, f.hash).value] == f
    ensures (forall i, j | 0 <= i < j < |vs| :: vs[i].hash != vs[j].hash) ==>
      forall i | 0 <= i < |r| && r[i].hash == f.hash :: r[i] == f
    ensures |r| == |vs| + 1 <==> Find(vs, f.hash).None?
    ensures |r| == |vs| + 1 ==> r[|vs|] == f
  {
    match Find(vs, f.hash)
    case Some(i) => vs[i := f]
    case None => vs + [f]
  }

  /** The listing expected after adds of `xs` to an empty registry, one arrival at a time. */
  function Listing(xs: seq<Arrival>): seq<Fax>
    decreases |xs|
  {
    if |xs| == 0 then [] else Place(Listing(xs[..|xs| - 1]), Rec(xs[|xs| - 1]))
  }

  /** Position of the first arrival with digest `h`; `|xs|` when there is none. */
  function FirstArrival(xs: seq<Arrival>, h: Hash): (i: nat)
    ensures i <= |xs|
    ensures i < |xs| ==> xs[i].hash == h
    ensures forall j | 0 <= j < i :: xs[j].hash != h
    decreases |xs|
  {
    if |xs| == 0 then 0
    else if xs[0].hash == h then 0
    else 1 + FirstArrival(xs[1..], h)
  }

  /** One more arrival does not move the first arrival of a digest already seen. */
  lemma {:induction false} FirstArrivalSnoc(xs: seq<Arrival>, x: Arrival, h: Hash)
    ensures FirstArrival(xs, h) < |xs| ==> FirstArrival(xs + [x], h) == FirstArrival(xs, h)
    ensures FirstArrival(xs, h) == |xs| && x.hash == h ==> FirstArrival(xs + [x], h) == |xs|
    ensures FirstArrival(xs, h) == |xs| && x.hash != h ==> FirstArrival(xs + [x], h) == |xs| + 1
    decreases |xs|
  {
    if |xs| > 0 {
      assert (xs + [x])[1..] == xs[1..] + [x];
      FirstArrivalSnoc(xs[1..], x, h);
    }
  }

  /** A non-empty sequence is its front followed by its last arrival. */
  lemma SplitLast(xs: seq<Arrival>)
    requires |xs| > 0
    ensures xs[..|xs| - 1] + [xs[|xs| - 1]] == xs
    ensures forall i | 0 <= i < |xs| - 1 :: xs[..|xs| - 1][i] == xs[i]
  {
  }

  /** The add handler on a `.pdf` path with a digest is `set(digest, record)`. */
  lemma AddIsSet(cfg: Config, s: State, x: Arrival, copied: bool)
    requires Paths.IsPdfPath(x.path)
    ensures OnAdd(cfg, s, x.path, x.stats, Some(x.hash), copied).s == s.(list := Registry.Set(s.list, x.hash, Rec(x)))
  {
  }

  /**
   `set(f.hash, f)` on a registry keyed by digest, seen on `getAllFax`: a
   known digest's record is replaced in its place, a new digest's record is
   appended.
   */
  lemma SetPlaces(l: Registry.FaxList, f: Fax)
    requires Registry.Valid(l) && KeyedByHash(l)
    ensures Registry.Values(Registry.Set(l, f.hash, f)) == Place(Registry.Values(l), f)
  {
    var h, vs := f.hash, Registry.Values(l);
    forall i | 0 <= i < |vs|
      ensures vs[i].hash == l.order[i]
    {
      assert l.order[i] in l.order;
    }
    if Registry.Has(l, h) {
      Registry.SetExistingKeepsPosition(l, h, f);
      var j := Registry.IndexOf(l.order, h);
      assert vs[j].hash == h;
      var i := Find(vs, h).value;
      assert Registry.Values(Registry.Set(l, h, f)) == vs[i := f];
    } else {
      Registry.SetNewAppends(l, h, f);
      assert h !in l.order;
    }
  }

  /**
   One `add` of a `.pdf` file, seen on `getAllFax`: a known digest's record is
   replaced in its place, a new digest's record is appended.
   */
  lemma AddPlaces(cfg: Config, s: State, x: Arrival, copied: bool)
    requires Inv(s) && Paths.IsPdfPath(x.path)
    ensures Inv(OnAdd(cfg, s, x.path, x.stats, Some(x.hash), copied).s)
    ensures GetAllFax(OnAdd(cfg, s, x.path, x.stats, Some(x.hash), copied).s) == Place(GetAllFax(s), Rec(x))
  {
    AddIsSet(cfg, s, x, copied);
    SetPlaces(s.list, Rec(x));
  }

  /** The rescan of `xs + [x]` is the rescan of `xs` followed by the add of `x`. */
  lemma {:induction false} RescanSnoc(cfg: Config, s: State, xs: seq<Arrival>, x: Arrival, copied: bool)
    ensures Rescan(cfg, s, xs + [x], copied) == OnAdd(cfg, Rescan(cfg, s, xs, copied), x.path, x.stats, Some(x.hash), copied).s
    decreases |xs|
  {
    if |xs| == 0 {
      assert Rescan(cfg, OnAdd(cfg, s, x.path, x.stats, Some(x.hash), copied).s, [], copied)
        == OnAdd(cfg, s, x.path, x.stats, Some(x.hash), copied).s;
    } else {
      assert (xs + [x])[0] == xs[0];
      assert (xs + [x])[1..] == xs[1..] + [x];
      RescanSnoc(cfg, OnAdd(cfg, s, xs[0].path, xs[0].stats, Some(xs[0].hash), copied).s, xs[1..], x, copied);
    }
  }

  /** Rescanning `.pdf` files into an empty registry lists exactly `Listing(xs)`. */
  lemma {:induction false} RescanLists(cfg: Config, s: State, xs: seq<Arrival>, copied: bool)
    requires Inv(s) && s.list.order == []
    requires forall i | 0 <= i < |xs| :: Paths.IsPdfPath(xs[i].path)
    ensures GetAllFax(Rescan(cfg, s, xs, copied)) == Listing(xs)
    decreases |xs|
  {
    if |xs| > 0 {
      var init, x := xs[..|xs| - 1], xs[|xs| - 1];
      SplitLast(xs);
      RescanLists(cfg, s, init, copied);
      RescanSnoc(cfg, s, init, x, copied);
      AddPlaces(cfg, Rescan(cfg, s, init, copied), x, copied);
    }
  }

  /** Every digest listed arrived. */
  lemma {:induction false} ListingArrived(xs: seq<Arrival>)
    ensures forall k | 0 <= k < |Listing(xs)| :: FirstArrival(xs, Listing(xs)[k].hash) < |xs|
    decreases |xs|
  {
    if |xs| > 0 {
      var init, x := xs[..|xs| - 1], xs[|xs| - 1];
      SplitLast(xs);
      ListingArrived(init);
      var l', l := Listing(init), Listing(xs);
      forall k | 0 <= k < |l|
        ensures FirstArrival(xs, l[k].hash) < |xs|
      {
        FirstArrivalSnoc(init, x, l[k].hash);
        if k < |l'| {
          assert l[k].hash == l'[k].hash;
        } else {
          assert l[k].hash == x.hash;
        }
      }
    }
  }

  /** Every digest that arrived is listed. */
  lemma {:induction false} ListingCovers(xs: seq<Arrival>)
    ensures forall i | 0 <= i < |xs| :: Find(Listing(xs), xs[i].hash).Some?
    decreases |xs|
  {
    if |xs| > 0 {
      var init, x := xs[..|xs| - 1], xs[|xs| - 1];
      SplitLast(xs);
      ListingCovers(init);
      var l', l := Listing(init), Listing(xs);
      forall i | 0 <= i < |xs|
        ensures Find(l, xs[i].hash).Some?
      {
        if i < |init| {
          var j := Find(l', init[i].hash).value;
          assert l[j].hash == init[i].hash;
        } else if Find(l', x.hash).Some? {
          assert l[Find(l', x.hash).value].hash == x.hash;
        } else {
          assert l[|l'|] == Rec(x);
        }
      }
    }
  }

  /** A digest absent from a listing that covers `xs` never arrived in `xs`. */
  lemma FirstArrivalNone(xs: seq<Arrival>, vs: seq<Fax>, h: Hash)
    requires forall i | 0 <= i < |xs| :: Find(vs, xs[i].hash).Some?
    requires Find(vs, h).None?
    ensures FirstArrival(xs, h) == |xs|
  {
  }

  /** Position of the last arrival with digest `h`; `|xs|` when there is none. */
  function LastArrival(xs: seq<Arrival>, h: Hash): (i: nat)
    ensures i <= |xs|
    ensures i < |xs| ==> xs[i].hash == h && forall j | i < j < |xs| :: xs[j].hash != h
    ensures i == |xs| ==> forall j | 0 <= j < |xs| :: xs[j].hash != h
    decreases |xs|
  {
    if |xs| == 0 then 0
    else if xs[|xs| - 1].hash == h then |xs| - 1
    else
      var i := LastArrival(xs[..|xs| - 1], h);
      if i == |xs| - 1 then |xs| else i
  }

  /** Each listed record is the one built from the last arrival with its digest. */
  lemma {:induction false} ListingKeepsLastArrival(xs: seq<Arrival>)
    ensures forall k | 0 <= k < |Listing(xs)| ::
      LastArrival(xs, Listing(xs)[k].hash) < |xs| && Listing(xs)[k] == Rec(xs[LastArrival(xs, Listing(xs)[k].hash)])
    decreases |xs|
  {
    if |xs| > 0 {
      var init, x := xs[..|xs| - 1], xs[|xs| - 1];
      SplitLast(xs);
      ListingKeepsLastArrival(init);
      ListingInFirstArrivalOrder(init);
      var l', l := Listing(init), Listing(xs);
      forall k | 0 <= k < |l|
        ensures LastArrival(xs, l[k].hash) < |xs| && l[k] == Rec(xs[LastArrival(xs, l[k].hash)])
      {
        if l[k].hash == x.hash {
          assert l[k] == Rec(x);
        } else {
          assert LastArrival(xs, l[k].hash) == LastArrival(init, l'[k].hash);
        }
      }
    }
  }

  /** The listing is in the order the digests first arrived; in particular no digest is listed twice. */
  lemma {:induction false} ListingInFirstArrivalOrder(xs: seq<Arrival>)
    ensures forall k1, k2 | 0 <= k1 < k2 < |Listing(xs)| ::
      FirstArrival(xs, Listing(xs)[k1].hash) < FirstArrival(xs, Listing(xs)[k2].hash)
    decreases |xs|
  {
    if |xs| > 0 {
      var init, x := xs[..|xs| - 1], xs[|xs| - 1];
      SplitLast(xs);
      ListingInFirstArrivalOrder(init);
      ListingArrived(init);
      ListingCovers(init);
      var l', l := Listing(init), Listing(xs);
      forall k1, k2 | 0 <= k1 < k2 < |l|
        ensures FirstArrival(xs, l[k1].hash) < FirstArrival(xs, l[k2].hash)
      {
        assert l[k1].hash == l'[k1].hash && FirstArrival(init, l'[k1].hash) < |init|;
        FirstArrivalSnoc(init, x, l[k1].hash);
        if k2 < |l'| {
          assert l[k2].hash == l'[k2].hash && FirstArrival(init, l'[k2].hash) < |init|;
          FirstArrivalSnoc(init, x, l[k2].hash);
        } else {
          assert l[k2].hash == x.hash && Find(l', x.hash).None?;
          FirstArrivalNone(init, l', x.hash);
          FirstArrivalSnoc(init, x, x.hash);
        }
      }
    }
  }

  /**
   The expected listing holds one record per distinct digest that arrived,
   each the last arrival with that digest, in first-arrival order.
   */
  lemma ListingOnePerDigest(xs: seq<Arrival>)
    ensures var vs := Listing(xs);
      && (forall i | 0 <= i < |xs| :: Find(vs, xs[i].hash).Some?)
      && (forall k | 0 <= k < |vs| :: LastArrival(xs, vs[k].hash) < |xs| && vs[k] == Rec(xs[LastArrival(xs, vs[k].hash)]))
      && (forall k1, k2 | 0 <= k1 < k2 < |vs| :: FirstArrival(xs, vs[k1].hash) < FirstArrival(xs, vs[k2].hash))
  {
    ListingCovers(xs);
    ListingKeepsLastArrival(xs);
    ListingInFirstArrivalOrder(xs);
  }

  /** After the clear of a recovery, the rescan's adds list exactly `Listing(xs)`. */
  lemma ResyncIsListing(cfg: Config, s: State, xs: seq<Arrival>, copied: bool)
    requires forall i | 0 <= i < |xs| :: Paths.IsPdfPath(xs[i].path)
    ensures GetAllFax(Run(cfg, OnClosed(s).s, Adds(xs, copied)).0) == Listing(xs)
  {
    var cleared := OnClosed(s).s;
    RunOfAddsIsRescan(cfg, cleared, xs, copied);
    RescanLists(cfg, cleared, xs, copied);
  }

  /**
   Resynchronisation in general: after the clear of a recovery, the rescan's
   `add` notifications leave `getAllFax` with one record per distinct digest
   reported, each the last file reported with those bytes, listed in the
   order the digests first arrived.
   */
  lemma ResyncListsOnePerDigest(cfg: Config, s: State, xs: seq<Arrival>, copied: bool)
    requires forall i | 0 <= i < |xs| :: Paths.IsPdfPath(xs[i].path)
    ensures var vs := GetAllFax(Run(cfg, OnClosed(s).s, Adds(xs, copied)).0);
      && (forall i | 0 <= i < |xs| :: Find(vs, xs[i].hash).Some?)
      && (forall k | 0 <= k < |vs| :: LastArrival(xs, vs[k].hash) < |xs| && vs[k] == Rec(xs[LastArrival(xs, vs[k].hash)]))
      && (forall k1, k2 | 0 <= k1 < k2 < |vs| :: FirstArrival(xs, vs[k1].hash) < FirstArrival(xs, vs[k2].hash))
  {
    ResyncIsListing(cfg, s, xs, copied);
    ListingOnePerDigest(xs);
  }
}
