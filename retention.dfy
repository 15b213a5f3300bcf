/** The retention loop of `Save` (Backup/Program.cs:160-168): while the
    volume has fewer free bytes than the backup needs and more than one
    snapshot is listed, delete the first-listed snapshot and look again. */
module Retention {
  import opened FileSystem

  /** Bytes occupied by a run of snapshots: the recorded sizes of the
      snapshot directories, not `IO.TotalSize` of the targets (line 157). */
  function SnapshotsSize(snaps: seq<Snapshot>): nat
  {
    if snaps == [] then 0 else SnapshotsSize(snaps[..|snaps| - 1]) + snaps[|snaps| - 1].size
  }

  lemma SnapshotsSizeStep(snaps: seq<Snapshot>, k: nat)
    requires k < |snaps|
    ensures SnapshotsSize(snaps[..k + 1]) == SnapshotsSize(snaps[..k]) + snaps[k].size
  {
    assert snaps[..k + 1][..k] == snaps[..k];
  }

  /** How many snapshots the loop deletes in all, once `k` of them are gone:
      the free space then is `free` plus the sizes of the first `k`. */
  function EvictFrom(snaps: seq<Snapshot>, free: int, necessary: int, k: nat): (n: nat)
    requires k <= |snaps|
    ensures k <= n <= |snaps|
    ensures n == k || n < |snaps|
    ensures free + SnapshotsSize(snaps[..n]) >= necessary || |snaps| - n <= 1
    ensures forall j :: k <= j < n ==> free + SnapshotsSize(snaps[..j]) < necessary && |snaps| - j > 1
    decreases |snaps| - k
  {
    if free + SnapshotsSize(snaps[..k]) < necessary && |snaps| - k > 1 then
      EvictFrom(snaps, free, necessary, k + 1)
    else k
  }

  /** The number of snapshots the retention loop deletes. It never deletes
      the last-listed one (the later base of comparison); on exit the space
      suffices or at most one snapshot is left; and every deletion was made
      while space was still short, so no more are deleted than needed. */
  function EvictionCount(snaps: seq<Snapshot>, free: int, necessary: int): (n: nat)
    ensures n <= |snaps|
    ensures |snaps| >= 1 ==> n <= |snaps| - 1
    ensures free + SnapshotsSize(snaps[..n]) >= necessary || |snaps| - n <= 1
    ensures forall j :: 0 <= j < n ==> free + SnapshotsSize(snaps[..j]) < necessary
  {
    EvictFrom(snaps, free, necessary, 0)
  }

  /** The `goto A` loop itself: `kept` is the listing after the deletions,
      `freeNow` the free space read last. */
  method Evict(snaps: seq<Snapshot>, free: int, necessary: int) returns (kept: seq<Snapshot>, freeNow: int)
    ensures kept == snaps[EvictionCount(snaps, free, necessary)..]
    ensures freeNow == free + SnapshotsSize(snaps[..EvictionCount(snaps, free, necessary)])
  {
    kept, freeNow := snaps, free;
    while freeNow < necessary && |kept| > 1
      invariant |kept| <= |snaps|
      invariant kept == snaps[|snaps| - |kept|..]
      invariant freeNow == free + SnapshotsSize(snaps[..|snaps| - |kept|])
      invariant EvictFrom(snaps, free, necessary, |snaps| - |kept|) == EvictionCount(snaps, free, necessary)
      decreases |kept|
    {
      SnapshotsSizeStep(snaps, |snaps| - |kept|);
      freeNow := freeNow + kept[0].size;
      kept := kept[1..];
    }
  }
}
