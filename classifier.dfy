/** The change classifier (`ShouldCopy` in Backup/Program.cs): decides
    whether a source file is copied into the new snapshot or left to the
    copy already held by the previous one. */
module Classifier {
  import opened FileSystem

  /** `last` is the directory of the previous snapshot that corresponds to
      the file's directory (null when there is no previous snapshot);
      `name` and `mtime` are the candidate's name and last-write time.
      The file is skipped exactly when that directory holds a same-named
      file written no earlier than the candidate, so a tie means skip. */
  function ShouldCopy(vol: Output, last: Option<Path>, name: string, mtime: int): (copy: bool)
    ensures !copy <==>
      && last.Some?
      && FileTime(vol, last.value + [name]).Some?
      && mtime <= FileTime(vol, last.value + [name]).value
  {
    if last.Some? && FileTime(vol, last.value + [name]).Some? then
      var prior := FileTime(vol, last.value + [name]).value;
      if mtime <= prior then false else true
    else true
  }

  /** With no previous snapshot every file is copied. */
  lemma NoPriorSnapshotCopies(vol: Output, name: string, mtime: int)
    ensures ShouldCopy(vol, None, name, mtime)
  {
  }

  /** Equal last-write times mean skip; a strictly later one means copy. */
  lemma TieSkipsNewerCopies(vol: Output, dir: Path, name: string, prior: int, later: int)
    requires FileTime(vol, dir + [name]) == Some(prior) && later > prior
    ensures !ShouldCopy(vol, Some(dir), name, prior)
    ensures ShouldCopy(vol, Some(dir), name, later)
  {
  }
}
