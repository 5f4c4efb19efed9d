/**
 FaxList: the watcher's registry. A JavaScript `Map` from content digest to
 FAX record (iterated in insertion order by `getAllFax`) plus a second map,
 `pathMap`, from path to digest.
 */
module Registry {
  import opened Options
  import opened Faxes
  import Paths

  /**
   `faxes` is the primary map and `order` its key insertion order; `pathMap`
   is the secondary index.
   */
  datatype FaxList = FaxList(faxes: map<Hash, Fax>, order: seq<Hash>, pathMap: map<Paths.Path, Hash>)

  predicate Distinct(s: seq<Hash>) {
    forall i, j | 0 <= i < j < |s| :: s[i] != s[j]
  }

  /** The insertion order lists every key of the primary map exactly once. */
  predicate Valid(l: FaxList) {
    && Distinct(l.order)
    && (forall k | k in l.order :: k in l.faxes)
    && (forall k | k in l.faxes :: k in l.order)
  }

  const Empty: FaxList := FaxList(map[], [], map[])

  /** `get(key)` on the primary map. */
  function Get(l: FaxList, key: Hash): Option<Fax> {
    if key in l.faxes then Some(l.faxes[key]) else None
  }

  /** `has(key)` on the primary map. */
  predicate Has(l: FaxList, key: Hash) {
    key in l.faxes
  }

  /** `pathMap.get(path)`. */
  function PathEntry(l: FaxList, path: Paths.Path): Option<Hash> {
    if path in l.pathMap then Some(l.pathMap[path]) else None
  }

  /** `getByPath(path)`: look the digest up in `pathMap`, then the record under that digest. */
  function GetByPath(l: FaxList, path: Paths.Path): Option<Fax> {
    match PathEntry(l, path)
    case None => None
    case Some(h) => Get(l, h)
  }

  /** Position of `k` in `s`: its first occurrence. */
  function IndexOf(s: seq<Hash>, k: Hash): (i: nat)
    requires k in s
    ensures i < |s| && s[i] == k
    ensures forall j | 0 <= j < i :: s[j] != k
    decreases |s|
  {
    if s[0] == k then 0 else 1 + IndexOf(s[1..], k)
  }

  /** `s` with its element at `i` cut out. */
  function CutAt(s: seq<Hash>, i: nat): seq<Hash>
    requires i < |s|
  {
    s[..i] + s[i + 1..]
  }

  /**
   Cutting position `i` out of a duplicate-free sequence shifts the later
   elements down by one, keeps it duplicate-free, and removes exactly `s[i]`.
   */
  lemma CutAtShifts(s: seq<Hash>, i: nat)
    requires i < |s|
    ensures var c := CutAt(s, i);
      && |c| == |s| - 1
      && (forall j | 0 <= j < |c| :: c[j] == s[if j < i then j else j + 1])
      && (Distinct(s) ==> Distinct(c))
      && (forall x | x in s && x != s[i] :: x in c)
      && (forall x | x in c :: x in s)
      && (Distinct(s) ==> s[i] !in c)
  {
    var c := CutAt(s, i);
    assert forall j | 0 <= j < |c| :: c[j] == s[if j < i then j else j + 1];
    forall x | x in s && x != s[i]
      ensures x in c
    {
      var j :| 0 <= j < |s| && s[j] == x;
      if j < i {
        assert c[j] == x;
      } else {
        assert c[j - 1] == x;
      }
    }
  }

  /**
   `set(key, value)`: writes the primary entry and points `value.path` at
   `key`. An entry of `pathMap` left from an earlier path of `key` stays.
   */
  function Set(l: FaxList, key: Hash, value: Fax): (r: FaxList)
    ensures Valid(l) ==> Valid(r)
    ensures Get(r, key) == Some(value)
    ensures PathEntry(r, value.path) == Some(key)
    ensures GetByPath(r, value.path) == Some(value)
    ensures forall k | k != key :: Get(r, k) == Get(l, k)
    ensures forall p | p != value.path :: PathEntry(r, p) == PathEntry(l, p)
    ensures Has(l, key) ==> r.order == l.order
    ensures !Has(l, key) ==> r.order == l.order + [key]
  {
    FaxList(
      l.faxes[key := value],
      if key in l.faxes then l.order else l.order + [key],
      l.pathMap[value.path := key])
  }

  /**
   `delete(key)`: when `key` holds a record, drops the `pathMap` entry of that
   record's path (whatever digest it points at) and the primary entry;
   otherwise nothing changes.
   */
  function Delete(l: FaxList, key: Hash): (r: FaxList)
    ensures Valid(l) ==> Valid(r)
    ensures Valid(l) && Has(l, key) ==> r.order == CutAt(l.order, IndexOf(l.order, key))
    ensures !Has(r, key)
    ensures forall k | k != key :: Get(r, k) == Get(l, k)
    ensures !Has(l, key) ==> r == l
    ensures Has(l, key) ==> r.pathMap == l.pathMap - {l.faxes[key].path}
    ensures Valid(l) ==> forall k :: k in r.order <==> k in l.order && k != key
  {
    if key !in l.faxes then l
    else if key in l.order then
      var i := IndexOf(l.order, key);
      CutAtShifts(l.order, i);
      FaxList(l.faxes - {key}, CutAt(l.order, i), l.pathMap - {l.faxes[key].path})
    else
      FaxList(l.faxes - {key}, l.order, l.pathMap - {l.faxes[key].path})
  }

  /**
   `clear()`, inherited from `Map`: empties the primary map only. The path
   index keeps its entries, but none of them resolves any more.
   */
  function Clear(l: FaxList): (r: FaxList)
    ensures Valid(r)
    ensures forall k :: Get(r, k) == None
    ensures forall p :: GetByPath(r, p) == None
    ensures r.pathMap == l.pathMap
  {
    FaxList(map[], [], l.pathMap)
  }

  /**
   `fax.unlink = true` on the record stored under `key`: the record is a
   shared object, so the write is seen through both indices.
   */
  function MarkUnlinked(l: FaxList, key: Hash): (r: FaxList)
    requires Has(l, key)
    ensures Get(r, key) == Some(l.faxes[key].(unlink := true))
    ensures forall k | k != key :: Get(r, k) == Get(l, k)
    ensures r.pathMap == l.pathMap && r.order == l.order
    ensures Valid(l) ==> Valid(r)
  {
    l.(faxes := l.faxes[key := l.faxes[key].(unlink := true)])
  }

  /** `Array.from(values())`: the records in key insertion order. */
  function Values(l: FaxList): (vs: seq<Fax>)
    requires Valid(l)
    ensures |vs| == |l.order|
    ensures forall i | 0 <= i < |vs| :: vs[i] == l.faxes[l.order[i]]
  {
    seq(|l.order|, i requires 0 <= i < |l.order| => l.faxes[l.order[i]])
  }

  /** A duplicate-free sequence has as many elements as its set of elements. */
  lemma {:induction false} DistinctCard(s: seq<Hash>)
    requires Distinct(s)
    ensures |set x | x in s| == |s|
  {
    if |s| > 0 {
      assert Distinct(s[1..]);
      DistinctCard(s[1..]);
      assert (set x | x in s) == (set x | x in s[1..]) + {s[0]};
      assert s[0] !in (set x | x in s[1..]);
    }
  }

  /**
   `getAllFax` lists every stored record, once per key: as many records as
   keys, and a record is listed exactly when some key holds it.
   */
  lemma ValuesListsEachRecord(l: FaxList)
    requires Valid(l)
    ensures |Values(l)| == |l.faxes|
    ensures forall f :: f in Values(l) <==> f in l.faxes.Values
  {
    DistinctCard(l.order);
    assert (set x | x in l.order) == l.faxes.Keys;
    forall f | f in l.faxes.Values
      ensures f in Values(l)
    {
      var k :| k in l.faxes && l.faxes[k] == f;
      var i :| 0 <= i < |l.order| && l.order[i] == k;
      assert Values(l)[i] == f;
    }
  }

  /**
   After `delete(key)` of a present key, `getAllFax` lists the other records
   in the same order: `key`'s record is cut out of its place.
   */
  lemma DeleteCutsRecord(l: FaxList, key: Hash)
    requires Valid(l) && Has(l, key)
    ensures var i := IndexOf(l.order, key);
      Values(Delete(l, key)) == Values(l)[..i] + Values(l)[i + 1..]
  {
    var d := Delete(l, key);
    forall k | k in d.order
      ensures k in d.faxes && k in l.faxes && d.faxes[k] == l.faxes[k]
    {
      assert Get(d, k) == Get(l, k);
    }
    ValuesAfterCut(l, d, IndexOf(l.order, key));
  }

  /** Listing a registry whose order lost the slot `i`, and whose
      remaining records are unchanged, drops exactly the `i`-th value. */
  lemma ValuesAfterCut(l: FaxList, d: FaxList, i: nat)
    requires Valid(l) && Valid(d) && i < |l.order|
    requires d.order == CutAt(l.order, i)
    requires forall k | k in d.order :: k in d.faxes && k in l.faxes && d.faxes[k] == l.faxes[k]
    ensures Values(d) == Values(l)[..i] + Values(l)[i + 1..]
  {
    var vs, ws := Values(l), Values(d);
    var cut := vs[..i] + vs[i + 1..];
    forall j | 0 <= j < |ws|
      ensures ws[j] == cut[j]
    {
      var src := if j < i then j else j + 1;
      assert d.order[j] == l.order[src];
      assert d.order[j] in d.order;
      assert cut[j] == vs[src];
    }
  }

  /** Deleting a key twice is the same as deleting it once. */
  lemma DeleteIdempotent(l: FaxList, key: Hash)
    ensures Delete(Delete(l, key), key) == Delete(l, key)
  {
  }

  /**
   After `set(key, v)` with `key` already present, `getAllFax` lists the same
   records in the same places except that `v` replaces the old record.
   */
  lemma SetExistingKeepsPosition(l: FaxList, key: Hash, v: Fax)
    requires Valid(l) && Has(l, key)
    ensures var vs, ws := Values(l), Values(Set(l, key, v));
      |ws| == |vs| && forall i | 0 <= i < |vs| :: ws[i] == (if l.order[i] == key then v else vs[i])
  {
  }

  /** After `set(key, v)` with a new `key`, `getAllFax` lists the old records and then `v`. */
  lemma SetNewAppends(l: FaxList, key: Hash, v: Fax)
    requires Valid(l) && !Has(l, key)
    ensures Values(Set(l, key, v)) == Values(l) + [v]
  {
    assert key !in l.order;
  }
}
