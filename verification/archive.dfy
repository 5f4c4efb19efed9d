/**
 The archive side of the watcher: the printer list it is configured with and
 the name under which a newly created FAX is copied into the archive folder
 (`<timestamp> <floor> <file name>`).
 */
module Archive {
  import opened Options
  import opened Faxes

  /** One element of the configured printer list: a bare path or a described printer. */
  datatype PrinterEntry =
    | PathOnly(path: string)
    | Described(name: Option<string>, floor: Option<string>, path: string)

  /** A printer after the constructor's normalisation: `floor` is absent for bare paths. */
  datatype Printer = Printer(name: Option<string>, floor: Option<string>, path: string)

  /** The floor label used when no printer, or no non-empty floor, is found. */
  const NoFloor: string := "-"

  /** The constructor turns a bare path `p` into `{path: p}` and keeps objects as they are. */
  function Normalize(e: PrinterEntry): (p: Printer)
    ensures p.path == e.path
    ensures e.PathOnly? ==> p.name.None? && p.floor.None?
    ensures e.Described? ==> p.name == e.name && p.floor == e.floor
  {
    match e
    case PathOnly(path) => Printer(None, None, path)
    case Described(name, floor, path) => Printer(name, floor, path)
  }

  function NormalizeAll(es: seq<PrinterEntry>): (ps: seq<Printer>)
    ensures |ps| == |es|
    ensures forall i | 0 <= i < |es| :: ps[i].path == es[i].path
    ensures forall i | 0 <= i < |es| :: es[i].Described? ==> ps[i].name == es[i].name && ps[i].floor == es[i].floor
    ensures forall i | 0 <= i < |es| :: es[i].PathOnly? ==> ps[i].name.None? && ps[i].floor.None?
  {
    seq(|es|, i requires 0 <= i < |es| => Normalize(es[i]))
  }

  /** `printerList.find(p => p.path == dir)`, as the index of the first match. */
  function FindByDir(ps: seq<Printer>, dir: string): (r: Option<nat>)
    ensures r.None? <==> forall i | 0 <= i < |ps| :: ps[i].path != dir
    ensures r.Some? ==> r.value < |ps| && ps[r.value].path == dir
    ensures r.Some? ==> forall i | 0 <= i < r.value :: ps[i].path != dir
    decreases |ps|
  {
    if |ps| == 0 then None
    else if ps[0].path == dir then Some(0)
    else
      match FindByDir(ps[1..], dir)
      case None => None
      case Some(i) => Some(i + 1)
  }

  /** JavaScript truthiness of an optional string: present and non-empty. */
  predicate Truthy(s: Option<string>) {
    s.Some? && s.value != ""
  }

  /**
   `floor || '-'` for the first printer whose path is `dir`: that printer's
   floor when it is a non-empty string, otherwise "-".
   */
  function FloorLabel(ps: seq<Printer>, dir: string): (tag: string)
    ensures tag != NoFloor ==> exists i | 0 <= i < |ps| :: ps[i].path == dir && ps[i].floor == Some(tag)
    ensures (forall i | 0 <= i < |ps| :: ps[i].path != dir) ==> tag == NoFloor
    ensures forall i | 0 <= i < |ps| && ps[i].path == dir && Truthy(ps[i].floor) ::
      (forall j | 0 <= j < i :: ps[j].path != dir) ==> tag == ps[i].floor.value
    ensures forall i | 0 <= i < |ps| && ps[i].path == dir && !Truthy(ps[i].floor) ::
      (forall j | 0 <= j < i :: ps[j].path != dir) ==> tag == NoFloor
  {
    match FindByDir(ps, dir)
    case None => NoFloor
    case Some(i) => if Truthy(ps[i].floor) then ps[i].floor.value else NoFloor
  }

  /**
   The floor label of a folder, read off the configured entries: the floor of
   the first entry for `dir` when that entry is a described printer with a
   non-empty floor, and "-" when that entry is a bare path, has no usable
   floor, or no entry names `dir` at all.
   */
  lemma ConfiguredFloorLabel(es: seq<PrinterEntry>, dir: string, i: nat)
    requires i < |es| && es[i].path == dir
    requires forall j | 0 <= j < i :: es[j].path != dir
    ensures es[i].PathOnly? ==> FloorLabel(NormalizeAll(es), dir) == NoFloor
    ensures es[i].Described? && Truthy(es[i].floor) ==> FloorLabel(NormalizeAll(es), dir) == es[i].floor.value
    ensures es[i].Described? && !Truthy(es[i].floor) ==> FloorLabel(NormalizeAll(es), dir) == NoFloor
  {
  }

  /** A folder no configured entry names is labelled "-". */
  lemma UnconfiguredFloorLabel(es: seq<PrinterEntry>, dir: string)
    requires forall j | 0 <= j < |es| :: es[j].path != dir
    ensures FloorLabel(NormalizeAll(es), dir) == NoFloor
  {
  }

  /** The earlier of the creation and modification times (`c > m ? m : c`). */
  function Earlier(cDate: int, mDate: int): (t: int)
    ensures t <= cDate && t <= mDate
    ensures t == cDate || t == mDate
  {
    if cDate > mDate then mDate else cDate
  }

  /** Three fields separated by single spaces. */
  function Spaced(a: string, b: string, c: string): (r: string)
    ensures |r| == |a| + |b| + |c| + 2
    ensures r[..|a|] == a && r[|a|] == ' '
    ensures r[|a| + 1..|a| + 1 + |b|] == b && r[|a| + 1 + |b|] == ' '
    ensures r[|r| - |c|..] == c
  {
    a + " " + b + " " + c
  }

  /**
   The archive file name of `fax`: the timestamp text of the earlier of its two
   dates (`stamp` stands for the `%Y-%m-%d %Hh%Mm%Sss` formatting), a space,
   the floor label, a space, the original file name.
   */
  function ArchiveName(ps: seq<Printer>, stamp: int -> string, fax: Fax): (name: string)
    ensures var s, tag, n := stamp(Earlier(fax.cDate, fax.mDate)), FloorLabel(ps, Dir(fax)), FileName(fax);
      && |name| == |s| + |tag| + |n| + 2
      && name[..|s|] == s
      && name[|s|] == ' '
      && name[|s| + 1..|s| + 1 + |tag|] == tag
      && name[|s| + 1 + |tag|] == ' '
      && name[|name| - |n|..] == n
  {
    Spaced(stamp(Earlier(fax.cDate, fax.mDate)), FloorLabel(ps, Dir(fax)), FileName(fax))
  }

  /** Where a copy goes: `path.join(dir, name)`. */
  datatype ArchiveTarget = ArchiveTarget(dir: string, name: string)

  /**
   Two records of the same folder whose earlier dates format alike get the
   same archive name exactly when their file names are equal.
   */
  lemma ArchiveNamesCollideOnFileName(ps: seq<Printer>, stamp: int -> string, f: Fax, g: Fax)
    requires Dir(f) == Dir(g) && stamp(Earlier(f.cDate, f.mDate)) == stamp(Earlier(g.cDate, g.mDate))
    ensures ArchiveName(ps, stamp, f) == ArchiveName(ps, stamp, g) <==> FileName(f) == FileName(g)
  {
    var x, y := ArchiveName(ps, stamp, f), ArchiveName(ps, stamp, g);
    if x == y {
      assert |FileName(f)| == |FileName(g)|;
      assert FileName(f) == x[|x| - |FileName(f)|..];
    }
  }
}
