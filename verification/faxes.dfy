/**
 The FAX record: one scanned document as the watcher knows it. Its identity is
 the content digest `hash`. The constructor derives `fileName`, `dir` and
 `lastFolderName` from `path` with `path.parse`; `path` is never reassigned,
 so here they are functions of the record's path.
 */
module Faxes {
  import Paths

  /** A content digest (the SHA-256 hex string of the file's bytes). */
  type Hash = string

  /** The two timestamps the record keeps from the file's stats, in milliseconds. */
  datatype Stats = Stats(ctime: int, mtime: int)

  /**
   `unlink` models the field that is `null` on a fresh record and set to
   `true` while a deletion waits for its grace period.
   */
  datatype Fax = Fax(path: Paths.Path, hash: Hash, unlink: bool, cDate: int, mDate: int)

  /**
   A freshly observed record: the FAX constructor followed by a successful
   `createHash`, which stores the digest of the file at `path`.
   */
  function NewFax(path: Paths.Path, stats: Stats, hash: Hash): (f: Fax)
    ensures f.path == path && f.hash == hash && !f.unlink
    ensures f.cDate == stats.ctime && f.mDate == stats.mtime
  {
    Fax(path, hash, false, stats.ctime, stats.mtime)
  }

  /** `fax.fileName`: the `base` of the parsed path. */
  function FileName(f: Fax): string {
    Paths.Parse(f.path).base
  }

  /** `fax.dir`: the `dir` of the parsed path. */
  function Dir(f: Fax): Paths.Path {
    Paths.Parse(f.path).dir
  }

  /** `fax.lastFolderName`: the last segment of `dir`. */
  function LastFolderName(f: Fax): string {
    Paths.LastSegment(Dir(f))
  }

  /**
   The three derived names decompose the record's path: the file name and
   the folder name hold no separator, the folder name ends `dir`, and `dir`,
   a separator and the file name give back the path without trailing
   separators.
   */
  lemma PathFields(f: Fax)
    ensures Paths.Sep !in FileName(f) && Paths.Sep !in LastFolderName(f)
    ensures Dir(f) == "" ==> Paths.TrimTrailing(f.path) == FileName(f)
    ensures Dir(f) != "" && Dir(f) != "/" ==> Paths.TrimTrailing(f.path) == Dir(f) + "/" + FileName(f)
    ensures var d, n := Dir(f), LastFolderName(f); |n| <= |d| && d[|d| - |n|..] == n
  {
  }
}
