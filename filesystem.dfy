/** The file system as the backup pass sees it: absolute paths, the entries
    of a snapshot directory, the snapshots under one output folder, and the
    `File.Exists` / `File.GetLastWriteTime` probe on a path. */
module FileSystem {

  datatype Option<+T> = None | Some(value: T)

  /** A path is the sequence of names from the volume root (such as "C:")
      down; a path of length one is a volume root, whose `Parent` is null. */
  type Path = seq<string>

  /** `DirectoryInfo.Name`: the last component. */
  function Name(p: Path): string
    requires |p| >= 1
  {
    p[|p| - 1]
  }

  /** `DirectoryInfo.Parent` of a path that has one. */
  function Parent(p: Path): (q: Path)
    requires |p| >= 1
    ensures q + [Name(p)] == p
    ensures q < p
  {
    p[..|p| - 1]
  }

  /** What a path names: a file with its last-write time (in ticks) and
      its size in bytes, or a directory. */
  datatype Entry = File(mtime: int, size: nat) | Directory

  /** The contents of one snapshot directory, keyed by the path relative
      to that directory. */
  type Tree = map<Path, Entry>

  /** A `[yyyy-MM-dd] Backup` directory: its name, the bytes it occupies
      and its contents. */
  datatype Snapshot = Snapshot(name: string, size: nat, tree: Tree)

  /** An output folder: its absolute path, the free bytes of its volume,
      and its snapshot directories in the order the directory listing
      `GetDirectories("*] Backup")` returns them. */
  datatype Output = Output(path: Path, free: int, snapshots: seq<Snapshot>)

  /** The first snapshot of the listing with the given directory name. */
  function FindSnapshot(snaps: seq<Snapshot>, name: string): (r: Option<Snapshot>)
    ensures r.Some? ==> r.value in snaps && r.value.name == name
    ensures r.None? <==> forall s :: s in snaps ==> s.name != name
  {
    if snaps == [] then None
    else if snaps[0].name == name then Some(snaps[0])
    else FindSnapshot(snaps[1..], name)
  }

  /** `File.Exists(p)` and `File.GetLastWriteTime(p)` for a path under the
      output folder: `Some(t)` exactly when `p` lies inside one of its
      snapshots and names a file there, written at time `t`. */
  function FileTime(o: Output, p: Path): (t: Option<int>)
    ensures t.Some? <==>
      && |p| > |o.path| + 1 && o.path < p
      && FindSnapshot(o.snapshots, p[|o.path|]).Some?
      && var tree := FindSnapshot(o.snapshots, p[|o.path|]).value.tree;
         p[|o.path| + 1..] in tree && tree[p[|o.path| + 1..]].File?
    ensures t.Some? ==>
      FindSnapshot(o.snapshots, p[|o.path|]).value.tree[p[|o.path| + 1..]].mtime == t.value
  {
    if |p| > |o.path| + 1 && o.path < p then
      match FindSnapshot(o.snapshots, p[|o.path|])
      case None => None
      case Some(s) =>
        var rel := p[|o.path| + 1..];
        if rel in s.tree && s.tree[rel].File? then Some(s.tree[rel].mtime) else None
    else None
  }
}
