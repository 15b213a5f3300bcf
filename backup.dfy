/** One backup pass (`Save` in Backup/Program.cs:155-229) and the next-run
    time `Main` derives from it (line 39).

    For each output folder in turn: make room (the retention loop), stop
    the whole pass if today's `[yyyy-MM-dd] Backup` directory is already
    there, otherwise take the last-listed snapshot as the base of comparison
    and copy every target into today's directory. */
module Backup {
  import opened FileSystem
  import opened Classifier
  import opened Retention
  import opened Mirror

  // ---------------------------------------------------------------------
  // Clock and snapshot names

  /** `DateTime` ticks are tenths of a microsecond. */
  const TicksPerMinute: int := 600_000_000
  const TicksPerDay: int := 1440 * TicksPerMinute

  /** `AddDays(7)`. */
  const Week: int := 7 * TicksPerDay

  datatype Date = Date(year: int, month: int, day: int)

  predicate ValidDate(d: Date)
  {
    1 <= d.year <= 9999 && 1 <= d.month <= 12 && 1 <= d.day <= 31
  }

  /** One reading of `DateTime.Now`: its ticks and the calendar date they
      fall on. The Gregorian calendar is not modelled, so nothing here ties
      `date` to `ticks`; a caller passes a reading whose date is the day of
      its ticks, and the snapshot name and `TodayAtOneMinute` then describe
      the same day. */
  datatype Clock = Clock(ticks: int, date: Date)

  function Pow10(n: nat): (p: nat)
    ensures p >= 1
  {
    if n == 0 then 1 else 10 * Pow10(n - 1)
  }

  /** `n` in decimal, zero-padded to `width` digits (the custom formats
      `yyyy`, `MM` and `dd`). */
  function Digits(n: nat, width: nat): (s: string)
    ensures |s| == width
    ensures forall i :: 0 <= i < |s| ==> '0' <= s[i] <= '9'
  {
    if width == 0 then [] else Digits(n / 10, width - 1) + [('0' as int + n % 10) as char]
  }

  /** Padded numbers below `10^width` are told apart by their digits. */
  lemma {:induction false} DigitsInjective(m: nat, n: nat, width: nat)
    requires m < Pow10(width) && n < Pow10(width)
    requires Digits(m, width) == Digits(n, width)
    ensures m == n
  {
    if width > 0 {
      var dm, dn := Digits(m, width), Digits(n, width);
      assert dm[width - 1] == dn[width - 1];
      assert dm[..width - 1] == Digits(m / 10, width - 1);
      assert dn[..width - 1] == Digits(n / 10, width - 1);
      DigitsInjective(m / 10, n / 10, width - 1);
    }
  }

  /** The number a string of decimal digits denotes, most significant
      digit first. */
  function Value(s: string): (v: nat)
    requires forall i :: 0 <= i < |s| ==> '0' <= s[i] <= '9'
    ensures v < Pow10(|s|)
  {
    if s == [] then 0 else 10 * Value(s[..|s| - 1]) + (s[|s| - 1] as int - '0' as int)
  }

  /** Reading the padded digits of a number below `10^width` back gives
      the number: `Digits` writes it in decimal. */
  lemma {:induction false} DigitsValue(n: nat, width: nat)
    requires n < Pow10(width)
    ensures Value(Digits(n, width)) == n
  {
    if width > 0 {
      var s := Digits(n, width);
      assert s[..width - 1] == Digits(n / 10, width - 1);
      DigitsValue(n / 10, width - 1);
    }
  }

  /** The name of the snapshot made on date `d`, `[yyyy-MM-dd] Backup`
      (line 169). It always ends in `] Backup`, so the directory listing
      `*] Backup` (lines 163 and 177) includes it. */
  function SnapshotName(d: Date): (name: string)
    requires ValidDate(d)
    ensures |name| == 19 && name[0] == '[' && name[11..] == "] Backup"
  {
    "[" + Digits(d.year, 4) + "-" + Digits(d.month, 2) + "-" + Digits(d.day, 2) + "] Backup"
  }

  /** Different dates give different snapshot names, so a pass finds only
      its own day's snapshot. */
  lemma SnapshotNameInjective(a: Date, b: Date)
    requires ValidDate(a) && ValidDate(b) && SnapshotName(a) == SnapshotName(b)
    ensures a == b
  {
    var na, nb := SnapshotName(a), SnapshotName(b);
    assert na[1..5] == Digits(a.year, 4) && nb[1..5] == Digits(b.year, 4);
    assert na[6..8] == Digits(a.month, 2) && nb[6..8] == Digits(b.month, 2);
    assert na[9..11] == Digits(a.day, 2) && nb[9..11] == Digits(b.day, 2);
    assert Pow10(2) == 100 && Pow10(4) == 10000;
    DigitsInjective(a.year, b.year, 4);
    DigitsInjective(a.month, b.month, 2);
    DigitsInjective(a.day, b.day, 2);
  }

  /** The name reads back as the date: year, month and day in decimal at
      their places, separated by `-`. */
  lemma SnapshotNameReads(d: Date)
    requires ValidDate(d)
    ensures var name := SnapshotName(d);
      && name[5] == '-' && name[8] == '-'
      && Value(name[1..5]) == d.year && Value(name[6..8]) == d.month && Value(name[9..11]) == d.day
  {
    var name := SnapshotName(d);
    assert name[1..5] == Digits(d.year, 4);
    assert name[6..8] == Digits(d.month, 2);
    assert name[9..11] == Digits(d.day, 2);
    assert Pow10(2) == 100 && Pow10(4) == 10000;
    DigitsValue(d.year, 4);
    DigitsValue(d.month, 2);
    DigitsValue(d.day, 2);
  }

  /** `new DateTime(dt.Year, dt.Month, dt.Day).AddMinutes(1)` (line 174):
      one minute past the midnight that starts the day of `ticks`. */
  function TodayAtOneMinute(ticks: int): (t: int)
    ensures t - TicksPerMinute <= ticks < t - TicksPerMinute + TicksPerDay
    ensures (t - TicksPerMinute) % TicksPerDay == 0
  {
    ticks - ticks % TicksPerDay + TicksPerMinute
  }

  /** `Save().AddDays(7)` (line 39): when `Main` wakes up next. */
  function NextRun(saved: int): (next: int)
    ensures next - saved == Week
  {
    saved + Week
  }

  /** When today's snapshot already exists the next run is not a retry
      later the same day: it comes a week after today's 00:01, so between
      six days and one minute and seven days and one minute from now. */
  lemma SameDayDefersAboutAWeek(ticks: int)
    ensures ticks + 6 * TicksPerDay + TicksPerMinute < NextRun(TodayAtOneMinute(ticks))
    ensures NextRun(TodayAtOneMinute(ticks)) <= ticks + Week + TicksPerMinute
  {
  }

  // ---------------------------------------------------------------------
  // Copying the targets into today's snapshot (lines 176-226)

  /** A configured object to back up: a file with its last-write time and
      size, or a directory with the order in which `IO.CopyDirectory`
      reports its entries. */
  datatype Target = FileTarget(path: Path, mtime: int, size: nat) | DirTarget(path: Path, visits: seq<Visit>)

  /** A target below a volume root; a directory's visits lie inside it. */
  predicate ValidTarget(t: Target)
  {
    |t.path| >= 2 && (t.DirTarget? ==> Inside(t.path, t.visits))
  }

  /** What happened to one target: a file copied, skipped as unchanged, or
      whose `File.Copy` threw (today's directory does not exist yet, or an
      entry of that name is already there); a directory mirrored, or one
      that hit the null `base_folder` at line 191. */
  datatype TargetResult = Copied | Skipped | CopyFailed | Mirrored(written: seq<Visit>) | NoBase

  /** The state of today's snapshot directory during the targets loop:
      whether it exists yet, the names at its top level, its contents, the
      bytes written, and the result of each target so far. */
  datatype Pass = Pass(made: bool, names: set<string>, tree: Tree, bytes: nat, results: seq<TargetResult>)

  /** Bytes of the files among the written entries. */
  function Bytes(vs: seq<Visit>): nat
  {
    if vs == [] then 0 else (if vs[0].FileVisit? then vs[0].size else 0) + Bytes(vs[1..])
  }

  /** Where a visited entry of directory `target` lands in today's
      snapshot: under the directory's own name, at its path relative to
      the directory. */
  function Rel(target: Path, p: Path): (k: Path)
    requires |target| >= 1 && target < p
    ensures |k| >= 2 && k[0] == Name(target)
  {
    [Name(target)] + p[|target|..]
  }

  /** The entry a written visit leaves in today's snapshot. */
  function EntryOf(v: Visit): Entry
  {
    if v.FileVisit? then File(v.mtime, v.size) else Directory
  }

  /** Adds the written entries of a mirrored directory under its own name,
      in visit order. What it adds is stated by `PlaceSpec`. */
  function Place(tree: Tree, target: Path, vs: seq<Visit>): (t: Tree)
    requires |target| >= 1 && forall v :: v in vs ==> target < v.path
    ensures forall k :: k in t ==> k in tree || |k| >= 2
    decreases |vs|
  {
    if vs == [] then tree
    else
      var pre, v := vs[..|vs| - 1], vs[|vs| - 1];
      assert vs == pre + [v];
      Place(tree, target, pre)[Rel(target, v.path) := EntryOf(v)]
  }

  /** `Place`: every visit's place is filled, the last visit to a place
      decides its entry, no other key is added, and a key no visit lands
      on keeps its entry. */
  lemma {:induction false} PlaceSpec(tree: Tree, target: Path, vs: seq<Visit>)
    requires |target| >= 1 && forall v :: v in vs ==> target < v.path
    ensures var t := Place(tree, target, vs);
      forall v :: v in vs ==> Rel(target, v.path) in t
    ensures var t := Place(tree, target, vs);
      forall i :: 0 <= i < |vs| && (forall j :: i < j < |vs| ==> Rel(target, vs[j].path) != Rel(target, vs[i].path)) ==>
        t[Rel(target, vs[i].path)] == EntryOf(vs[i])
    ensures var t := Place(tree, target, vs);
      forall k :: k in t ==> k in tree || exists v :: v in vs && k == Rel(target, v.path)
    ensures var t := Place(tree, target, vs);
      forall k :: k in tree && (forall v :: v in vs ==> Rel(target, v.path) != k) ==> k in t && t[k] == tree[k]
    decreases |vs|
  {
    if vs != [] {
      var pre, v := vs[..|vs| - 1], vs[|vs| - 1];
      assert vs == pre + [v];
      PlaceSpec(tree, target, pre);
      var t0 := Place(tree, target, pre);
      PlaceFills(target, pre, v, t0);
      PlaceLastWins(target, pre, v, t0);
      PlaceAddsOnlyVisits(tree, target, pre, v, t0);
      PlaceKeepsOthers(tree, target, pre, v, t0);
    }
  }

  // The four clauses of `Place` across one more visit.

  lemma PlaceFills(target: Path, pre: seq<Visit>, v: Visit, t0: Tree)
    requires |target| >= 1 && target < v.path && forall u :: u in pre ==> target < u.path
    requires forall u :: u in pre ==> Rel(target, u.path) in t0
    ensures forall u :: u in pre + [v] ==> Rel(target, u.path) in t0[Rel(target, v.path) := EntryOf(v)]
  {
  }

  lemma PlaceLastWins(target: Path, pre: seq<Visit>, v: Visit, t0: Tree)
    requires |target| >= 1 && target < v.path && forall u :: u in pre ==> target < u.path
    requires forall u :: u in pre ==> Rel(target, u.path) in t0
    requires forall i :: 0 <= i < |pre| && (forall j :: i < j < |pre| ==> Rel(target, pre[j].path) != Rel(target, pre[i].path)) ==>
      t0[Rel(target, pre[i].path)] == EntryOf(pre[i])
    ensures var vs, t := pre + [v], t0[Rel(target, v.path) := EntryOf(v)];
      forall i :: 0 <= i < |vs| && (forall j :: i < j < |vs| ==> Rel(target, vs[j].path) != Rel(target, vs[i].path)) ==>
        t[Rel(target, vs[i].path)] == EntryOf(vs[i])
  {
    var vs := pre + [v];
    forall i | 0 <= i < |vs| && (forall j :: i < j < |vs| ==> Rel(target, vs[j].path) != Rel(target, vs[i].path))
      ensures t0[Rel(target, v.path) := EntryOf(v)][Rel(target, vs[i].path)] == EntryOf(vs[i])
    {
      if i < |pre| {
        assert vs[i] == pre[i] && Rel(target, vs[|pre|].path) != Rel(target, vs[i].path);
        forall j | i < j < |pre|
          ensures Rel(target, pre[j].path) != Rel(target, pre[i].path)
        {
          assert vs[j] == pre[j];
        }
      }
    }
  }

  lemma PlaceAddsOnlyVisits(tree: Tree, target: Path, pre: seq<Visit>, v: Visit, t0: Tree)
    requires |target| >= 1 && target < v.path && forall u :: u in pre ==> target < u.path
    requires forall k :: k in t0 ==> k in tree || exists u :: u in pre && k == Rel(target, u.path)
    ensures forall k :: k in t0[Rel(target, v.path) := EntryOf(v)] ==>
      k in tree || exists u :: u in pre + [v] && k == Rel(target, u.path)
  {
    forall k | k in t0[Rel(target, v.path) := EntryOf(v)] && k !in tree
      ensures exists u :: u in pre + [v] && k == Rel(target, u.path)
    {
      if k == Rel(target, v.path) {
        assert v in pre + [v];
      } else {
        var u :| u in pre && k == Rel(target, u.path);
        assert u in pre + [v];
      }
    }
  }

  lemma PlaceKeepsOthers(tree: Tree, target: Path, pre: seq<Visit>, v: Visit, t0: Tree)
    requires |target| >= 1 && target < v.path && forall u :: u in pre ==> target < u.path
    requires forall k :: k in tree && (forall u :: u in pre ==> Rel(target, u.path) != k) ==> k in t0 && t0[k] == tree[k]
    ensures forall k :: k in tree && (forall u :: u in pre + [v] ==> Rel(target, u.path) != k) ==>
      k in t0[Rel(target, v.path) := EntryOf(v)] && t0[Rel(target, v.path) := EntryOf(v)][k] == tree[k]
  {
    forall k | k in tree && (forall u :: u in pre + [v] ==> Rel(target, u.path) != k)
      ensures k in t0 && t0[k] == tree[k] && k != Rel(target, v.path)
    {
      assert v in pre + [v];
      forall u | u in pre
        ensures Rel(target, u.path) != k
      {
        assert u in pre + [v];
      }
    }
  }

  /** One iteration of the `foreach` at line 182. `base` is the path of
      `base_folder`, or none when it is null. */
  function TargetStep(vol: Output, base: Option<Path>, p: Pass, t: Target): (q: Pass)
    requires ValidTarget(t) && (base.Some? ==> |base.value| >= 1)
    ensures |q.results| == |p.results| + 1
  {
    match t
    case FileTarget(path, mtime, size) =>
      var name := Name(path);
      if !ShouldCopy(vol, base, name, mtime) then p.(results := p.results + [Skipped])
      else if !p.made || name in p.names then p.(results := p.results + [CopyFailed])
      else Pass(true, p.names + {name}, p.tree[[name] := File(mtime, size)], p.bytes + size, p.results + [Copied])
    case DirTarget(path, visits) =>
      if base.None? then p.(results := p.results + [NoBase])
      else
        var w := Traverse(vol, base.value + [Name(path)], path, visits);
        Pass(true, p.names + {Name(path)}, Place(p.tree[[Name(path)] := Directory], path, w.written),
             p.bytes + Bytes(w.written), p.results + [Mirrored(w.written)])
  }

  /** What one iteration of the targets loop does to today's directory. */
  lemma TargetStepEffect(vol: Output, base: Option<Path>, p: Pass, t: Target)
    requires ValidTarget(t) && (base.Some? ==> |base.value| >= 1)
    // The results recorded so far are kept, and one is appended.
    ensures var q := TargetStep(vol, base, p, t);
      q.results == p.results + [q.results[|p.results|]]
    // A file is skipped exactly when the classifier says so against the
    // base; otherwise `File.Copy` fails exactly when today's directory does
    // not exist yet or already holds that name; otherwise it is copied.
    ensures var q := TargetStep(vol, base, p, t);
      t.FileTarget? ==>
        var name, r := Name(t.path), q.results[|p.results|];
        && (r == Skipped <==> !ShouldCopy(vol, base, name, t.mtime))
        && (r == CopyFailed <==> ShouldCopy(vol, base, name, t.mtime) && (!p.made || name in p.names))
        && (r == Copied <==> ShouldCopy(vol, base, name, t.mtime) && p.made && name !in p.names)
    ensures var q := TargetStep(vol, base, p, t);
      t.FileTarget? && q.results[|p.results|] == Copied ==>
        var name := Name(t.path);
        && q.made && q.names == p.names + {name} && q.bytes == p.bytes + t.size
        && [name] in q.tree && q.tree[[name]] == File(t.mtime, t.size)
        && forall k :: k != [name] ==> (k in q.tree <==> k in p.tree) && (k in p.tree ==> q.tree[k] == p.tree[k])
    // A directory hits the null base, or is mirrored from the base's copy
    // of it into today's directory, which that creates.
    ensures var q := TargetStep(vol, base, p, t);
      t.DirTarget? ==> (q.results[|p.results|] == NoBase <==> base.None?)
    ensures var q := TargetStep(vol, base, p, t);
      t.DirTarget? && base.Some? ==>
        var w := Traverse(vol, base.value + [Name(t.path)], t.path, t.visits);
        && q.results[|p.results|] == Mirrored(w.written)
        && q.made && q.names == p.names + {Name(t.path)} && q.bytes == p.bytes + Bytes(w.written)
        && q.tree == Place(p.tree[[Name(t.path)] := Directory], t.path, w.written)
    // Nothing but the results changes when nothing was written.
    ensures var q := TargetStep(vol, base, p, t);
      q.results[|p.results|] in {Skipped, CopyFailed, NoBase} ==> q == p.(results := q.results)
  {
  }

  /** The targets loop over the first targets, starting with today's
      directory not yet created. One result per target. */
  function RunTargets(vol: Output, base: Option<Path>, ts: seq<Target>): (p: Pass)
    requires (forall t :: t in ts ==> ValidTarget(t)) && (base.Some? ==> |base.value| >= 1)
    ensures |p.results| == |ts|
  {
    if ts == [] then Pass(false, {}, map[], 0, [])
    else TargetStep(vol, base, RunTargets(vol, base, ts[..|ts| - 1]), ts[|ts| - 1])
  }

  /** One target: the file case asks the classifier, the directory case
      runs the mirror walk with the cursor starting at the base's copy of
      the directory. */
  method BackupTarget(vol: Output, base: Option<Path>, p: Pass, t: Target) returns (q: Pass)
    requires ValidTarget(t) && (base.Some? ==> |base.value| >= 1)
    ensures q == TargetStep(vol, base, p, t)
  {
    if t.FileTarget? {
      q := BackupFile(vol, base, p, t);
    } else {
      q := BackupDirectory(vol, base, p, t);
    }
  }

  /** A file target (lines 184-189): skipped, failed or copied. */
  method BackupFile(vol: Output, base: Option<Path>, p: Pass, t: Target) returns (q: Pass)
    requires ValidTarget(t) && t.FileTarget? && (base.Some? ==> |base.value| >= 1)
    ensures q == TargetStep(vol, base, p, t)
  {
    var name := Name(t.path);
    if !ShouldCopy(vol, base, name, t.mtime) {
      q := p.(results := p.results + [Skipped]);
    } else if !p.made || name in p.names {
      q := p.(results := p.results + [CopyFailed]);
    } else {
      q := Pass(true, p.names + {name}, p.tree[[name] := File(t.mtime, t.size)], p.bytes + t.size, p.results + [Copied]);
    }
  }

  /** A directory target (lines 190-213): the null base, or the mirror walk. */
  method BackupDirectory(vol: Output, base: Option<Path>, p: Pass, t: Target) returns (q: Pass)
    requires ValidTarget(t) && t.DirTarget? && (base.Some? ==> |base.value| >= 1)
    ensures q == TargetStep(vol, base, p, t)
  {
    var name := Name(t.path);
    if base.None? {
      q := p.(results := p.results + [NoBase]);
    } else {
      var w := MirrorDirectory(vol, base.value + [name], t.path, t.visits);
      q := Pass(true, p.names + {name}, Place(p.tree[[name] := Directory], t.path, w.written),
                p.bytes + Bytes(w.written), p.results + [Mirrored(w.written)]);
    }
  }

  /** The targets loop (line 182). */
  method BackupTargets(vol: Output, base: Option<Path>, targets: seq<Target>) returns (p: Pass)
    requires (forall t :: t in targets ==> ValidTarget(t)) && (base.Some? ==> |base.value| >= 1)
    ensures p == RunTargets(vol, base, targets)
  {
    p := Pass(false, {}, map[], 0, []);
    for i := 0 to |targets|
      invariant p == RunTargets(vol, base, targets[..i])
    {
      assert targets[..i + 1][..i] == targets[..i];
      assert targets[i] in targets;
      p := BackupTarget(vol, base, p, targets[i]);
    }
    assert targets[..|targets|] == targets;
  }

  /** The results of the first `k` targets are those of running only them. */
  lemma {:induction false} ResultsPrefix(vol: Output, base: Option<Path>, ts: seq<Target>, k: nat)
    requires (forall t :: t in ts ==> ValidTarget(t)) && (base.Some? ==> |base.value| >= 1)
    requires k <= |ts|
    ensures RunTargets(vol, base, ts).results[..k] == RunTargets(vol, base, ts[..k]).results
    decreases |ts|
  {
    if k < |ts| {
      var pre := ts[..|ts| - 1];
      assert pre[..k] == ts[..k];
      ResultsPrefix(vol, base, pre, k);
      assert RunTargets(vol, base, ts).results[..|pre|] == RunTargets(vol, base, pre).results;
    } else {
      assert ts[..k] == ts;
    }
  }

  /** The result of target `i` is what its own step recorded. */
  lemma ResultAt(vol: Output, base: Option<Path>, ts: seq<Target>, i: nat)
    requires (forall t :: t in ts ==> ValidTarget(t)) && (base.Some? ==> |base.value| >= 1)
    requires i < |ts|
    ensures RunTargets(vol, base, ts).results[i] ==
      TargetStep(vol, base, RunTargets(vol, base, ts[..i]), ts[i]).results[i]
  {
    ResultsPrefix(vol, base, ts, i + 1);
    assert ts[..i + 1][..i] == ts[..i];
    assert RunTargets(vol, base, ts).results[i] == RunTargets(vol, base, ts).results[..i + 1][i];
  }

  /** What target `i` came to, in terms of the targets before it: a file
      is skipped exactly when the classifier says so against the base,
      fails to copy exactly when it is judged changed but today's directory
      does not exist yet or already holds its name, and is copied
      otherwise; a directory hits the null base exactly when there is no
      base, and is otherwise mirrored with the walk's writes. */
  lemma TargetResultAt(vol: Output, base: Option<Path>, ts: seq<Target>, i: nat)
    requires (forall t :: t in ts ==> ValidTarget(t)) && (base.Some? ==> |base.value| >= 1)
    requires i < |ts|
    ensures ValidTarget(ts[i])
    ensures var r, before, t := RunTargets(vol, base, ts).results[i], RunTargets(vol, base, ts[..i]), ts[i];
      && (t.FileTarget? ==> (r == Skipped <==> !ShouldCopy(vol, base, Name(t.path), t.mtime)))
      && (t.FileTarget? ==>
            (r == CopyFailed <==> ShouldCopy(vol, base, Name(t.path), t.mtime) && (!before.made || Name(t.path) in before.names)))
      && (t.FileTarget? ==>
            (r == Copied <==> ShouldCopy(vol, base, Name(t.path), t.mtime) && before.made && Name(t.path) !in before.names))
      && (t.DirTarget? ==> (r == NoBase <==> base.None?))
      && (t.DirTarget? && base.Some? ==>
            r == Mirrored(Traverse(vol, base.value + [Name(t.path)], t.path, t.visits).written))
  {
    assert ts[i] in ts;
    ResultAt(vol, base, ts, i);
    TargetStepEffect(vol, base, RunTargets(vol, base, ts[..i]), ts[i]);
  }

  /** Today's directory exists after the targets loop exactly when there
      is a base and some target is a directory: only `IO.CopyDirectory`
      creates it, and `File.Copy` needs it to exist. */
  lemma {:induction false} MadeByDirectory(vol: Output, base: Option<Path>, ts: seq<Target>)
    requires (forall t :: t in ts ==> ValidTarget(t)) && (base.Some? ==> |base.value| >= 1)
    ensures RunTargets(vol, base, ts).made <==> base.Some? && exists j :: 0 <= j < |ts| && ts[j].DirTarget?
    decreases |ts|
  {
    if ts != [] {
      var pre, t := ts[..|ts| - 1], ts[|ts| - 1];
      assert t in ts;
      MadeByDirectory(vol, base, pre);
      if base.Some? && exists j :: 0 <= j < |ts| && ts[j].DirTarget? {
        var j :| 0 <= j < |ts| && ts[j].DirTarget?;
        if j < |pre| {
          assert pre[j] == ts[j];
        }
      }
      if base.Some? && exists j :: 0 <= j < |pre| && pre[j].DirTarget? {
        var j :| 0 <= j < |pre| && pre[j].DirTarget?;
        assert ts[j] == pre[j];
      }
    }
  }

  /** Target `j` is named `n` and was copied or mirrored, by results `rs`. */
  predicate WrittenAs(ts: seq<Target>, rs: seq<TargetResult>, j: int, n: string)
  {
    0 <= j < |ts| && j < |rs| && |ts[j].path| >= 1 && Name(ts[j].path) == n && (rs[j] == Copied || rs[j].Mirrored?)
  }

  /** The names at the top of today's directory are those of the targets
      that were copied or mirrored. */
  lemma {:induction false} NamesWritten(vol: Output, base: Option<Path>, ts: seq<Target>, n: string)
    requires (forall t :: t in ts ==> ValidTarget(t)) && (base.Some? ==> |base.value| >= 1)
    ensures var p := RunTargets(vol, base, ts);
      n in p.names <==> exists j :: WrittenAs(ts, p.results, j, n)
    decreases |ts|
  {
    if ts != [] {
      var pre, t := ts[..|ts| - 1], ts[|ts| - 1];
      assert t in ts;
      NamesWritten(vol, base, pre, n);
      var p0, p := RunTargets(vol, base, pre), RunTargets(vol, base, ts);
      TargetStepEffect(vol, base, p0, t);
      WrittenAsStep(ts, pre, p0.results, p.results, n);
    }
  }

  /** Extending the targets by one: an earlier target was written under
      `n` by the longer run exactly when it was by the shorter one. */
  lemma WrittenAsStep(ts: seq<Target>, pre: seq<Target>, rs0: seq<TargetResult>, rs: seq<TargetResult>, n: string)
    requires ts != [] && pre == ts[..|ts| - 1] && |rs0| == |pre| && |rs| == |ts| && rs[..|rs0|] == rs0
    ensures (exists j :: WrittenAs(ts, rs, j, n)) <==>
      (exists j :: WrittenAs(pre, rs0, j, n)) || WrittenAs(ts, rs, |ts| - 1, n)
  {
    if exists j :: WrittenAs(ts, rs, j, n) {
      var j :| WrittenAs(ts, rs, j, n);
      if j < |pre| {
        assert rs[j] == rs0[j] && pre[j] == ts[j];
        assert WrittenAs(pre, rs0, j, n);
      }
    }
    if exists j :: WrittenAs(pre, rs0, j, n) {
      var j :| WrittenAs(pre, rs0, j, n);
      assert rs[j] == rs0[j] && pre[j] == ts[j];
      assert WrittenAs(ts, rs, j, n);
    }
  }

  /** `File.Copy` at line 189 fails for a file judged changed exactly when
      no earlier directory target has created today's directory, or an
      earlier target of the same name was already written there. */
  lemma CopyFailedExactly(vol: Output, base: Option<Path>, ts: seq<Target>, i: nat)
    requires (forall t :: t in ts ==> ValidTarget(t)) && (base.Some? ==> |base.value| >= 1)
    requires i < |ts| && ts[i].FileTarget?
    ensures ValidTarget(ts[i])
    ensures var rs := RunTargets(vol, base, ts).results;
      rs[i] == CopyFailed <==>
        && ShouldCopy(vol, base, Name(ts[i].path), ts[i].mtime)
        && ((base.None? || forall j :: 0 <= j < i ==> ts[j].FileTarget?)
            || exists j :: 0 <= j < i && WrittenAs(ts, rs, j, Name(ts[i].path)))
  {
    var pre := ts[..i];
    assert forall t :: t in pre ==> t in ts;
    assert ts[i] in ts;
    var name := Name(ts[i].path);
    TargetResultAt(vol, base, ts, i);
    MadeByDirectory(vol, base, pre);
    NamesWritten(vol, base, pre, name);
    ResultsPrefix(vol, base, ts, i);
    var rs, rs0 := RunTargets(vol, base, ts).results, RunTargets(vol, base, pre).results;
    WrittenAsPrefix(ts, rs, i, name);
    assert (forall j :: 0 <= j < i ==> ts[j].FileTarget?) <==> !exists j :: 0 <= j < |pre| && pre[j].DirTarget? by {
      assert forall j :: 0 <= j < i ==> pre[j] == ts[j];
    }
  }

  /** A target before `i` written under `n`, read against the first `i`
      targets and their results or against all of them. */
  lemma WrittenAsPrefix(ts: seq<Target>, rs: seq<TargetResult>, i: nat, n: string)
    requires i <= |ts| && i <= |rs|
    ensures (exists j :: WrittenAs(ts[..i], rs[..i], j, n)) <==> exists j :: 0 <= j < i && WrittenAs(ts, rs, j, n)
  {
    if exists j :: WrittenAs(ts[..i], rs[..i], j, n) {
      var j :| WrittenAs(ts[..i], rs[..i], j, n);
      assert WrittenAs(ts, rs, j, n);
    }
    if exists j :: 0 <= j < i && WrittenAs(ts, rs, j, n) {
      var j :| 0 <= j < i && WrittenAs(ts, rs, j, n);
      assert WrittenAs(ts[..i], rs[..i], j, n);
    }
  }

  /** Without a base (no snapshot listed) nothing gets into today's
      directory: directories stop at the null base, and files, all judged
      changed, fail to copy into a directory nobody created. */
  lemma {:induction false} NoBaseCopiesNothing(vol: Output, ts: seq<Target>)
    requires forall t :: t in ts ==> ValidTarget(t)
    ensures !RunTargets(vol, None, ts).made
    ensures forall i :: 0 <= i < |ts| ==>
      RunTargets(vol, None, ts).results[i] == NoBase || RunTargets(vol, None, ts).results[i] == CopyFailed
  {
    if ts != [] {
      var pre := ts[..|ts| - 1];
      NoBaseCopiesNothing(vol, pre);
      var t := ts[|ts| - 1];
      assert t in ts;
      NoPriorSnapshotCopies(vol, if t.FileTarget? then Name(t.path) else "", if t.FileTarget? then t.mtime else 0);
      assert RunTargets(vol, None, ts).results[..|pre|] == RunTargets(vol, None, pre).results;
    }
  }

  /** A top-level entry of today's snapshot comes from a target of that
      name that was copied or mirrored; every deeper entry has at least two
      components. */
  lemma {:induction false} TopLevelFromTargets(vol: Output, base: Option<Path>, ts: seq<Target>, name: string)
    requires (forall t :: t in ts ==> ValidTarget(t)) && (base.Some? ==> |base.value| >= 1)
    requires [name] in RunTargets(vol, base, ts).tree
    ensures exists j :: 0 <= j < |ts| && ValidTarget(ts[j]) && Name(ts[j].path) == name &&
                        (RunTargets(vol, base, ts).results[j] == Copied || RunTargets(vol, base, ts).results[j].Mirrored?)
  {
    assert ts != [];
    var pre := ts[..|ts| - 1];
    var p, t := RunTargets(vol, base, pre), ts[|ts| - 1];
    assert t in ts;
    var r := RunTargets(vol, base, ts);
    assert r.results[..|pre|] == p.results;
    if [name] in p.tree {
      TopLevelFromTargets(vol, base, pre, name);
      var j :| 0 <= j < |pre| && ValidTarget(pre[j]) && Name(pre[j].path) == name && (p.results[j] == Copied || p.results[j].Mirrored?);
      assert r.results[j] == p.results[j] && pre[j] == ts[j];
    } else {
      assert Name(t.path) == name && (r.results[|pre|] == Copied || r.results[|pre|].Mirrored?);
    }
  }

  // ---------------------------------------------------------------------
  // One output folder, and the whole pass

  /** What the pass did at one output folder: how many old snapshots it
      deleted, and either that today's snapshot was already there, or the
      per-target results and whether today's directory was created. */
  datatype Report = AlreadyMade(evicted: nat) | Done(evicted: nat, results: seq<TargetResult>, made: bool)

  /** A report and the output folder afterwards. */
  datatype Outcome = Outcome(report: Report, after: Output)

  /** The output folder as the retention loop (lines 160-168) leaves it:
      the first-listed snapshots deleted and their bytes freed, until the
      space suffices or one snapshot is left (`NewestSurvives`: the
      last-listed snapshot is always kept). */
  function Evicted(o: Output, necessary: int): (e: Output)
    ensures e.path == o.path
    ensures e.snapshots == o.snapshots[EvictionCount(o.snapshots, o.free, necessary)..]
    ensures e.free == o.free + SnapshotsSize(o.snapshots[..EvictionCount(o.snapshots, o.free, necessary)])
    ensures e.free >= necessary || |e.snapshots| <= 1
  {
    var n := EvictionCount(o.snapshots, o.free, necessary);
    Output(o.path, o.free + SnapshotsSize(o.snapshots[..n]), o.snapshots[n..])
  }

  /** `base_folder` (lines 176-180): null exactly when no snapshot is
      listed, and otherwise the last-listed snapshot, a child of the output
      folder. */
  function BaseOf(v: Output): (b: Option<Path>)
    ensures b.Some? <==> v.snapshots != []
    ensures b.Some? ==> |b.value| >= 1 && Parent(b.value) == v.path
    ensures b.Some? ==> Name(b.value) == v.snapshots[|v.snapshots| - 1].name
  {
    if |v.snapshots| > 0 then Some(v.path + [v.snapshots[|v.snapshots| - 1].name]) else None
  }

  /** One iteration of the `foreach` at line 158. Today's directory, once
      created, is listed after the kept snapshots. */
  function ProcessOutput(o: Output, targets: seq<Target>, necessary: int, date: Date): (r: Outcome)
    requires ValidDate(date) && |o.path| >= 1 && forall t :: t in targets ==> ValidTarget(t)
    ensures r.after.path == o.path
    ensures r.report.evicted == EvictionCount(o.snapshots, o.free, necessary)
    ensures r.report.Done? ==> |r.report.results| == |targets|
  {
    var n := EvictionCount(o.snapshots, o.free, necessary);
    var vol := Evicted(o, necessary);
    var kept := vol.snapshots;
    var name := SnapshotName(date);
    if FindSnapshot(kept, name).Some? then Outcome(AlreadyMade(n), vol)
    else
      var p := RunTargets(vol, BaseOf(vol), targets);
      var after := if p.made then vol.(free := vol.free - p.bytes, snapshots := kept + [Snapshot(name, p.bytes, p.tree)])
                   else vol;
      Outcome(Done(n, p.results, p.made), after)
  }

  /** `ProcessOutput`: the pass stops exactly when a kept snapshot has
      today's name, and the listing is then the kept snapshots; otherwise
      it is the kept snapshots, followed by one named for today when
      today's directory was made. */
  lemma ProcessOutputSpec(o: Output, targets: seq<Target>, necessary: int, date: Date)
    requires ValidDate(date) && |o.path| >= 1 && forall t :: t in targets ==> ValidTarget(t)
    ensures var r := ProcessOutput(o, targets, necessary, date);
      r.report.AlreadyMade? <==> FindSnapshot(Evicted(o, necessary).snapshots, SnapshotName(date)).Some?
    ensures var r := ProcessOutput(o, targets, necessary, date);
      r.report.AlreadyMade? || (r.report.Done? && !r.report.made) ==>
        r.after.snapshots == Evicted(o, necessary).snapshots
    ensures var r := ProcessOutput(o, targets, necessary, date);
      r.report.Done? && r.report.made ==>
        && |r.after.snapshots| >= 1
        && r.after.snapshots == Evicted(o, necessary).snapshots + [r.after.snapshots[|r.after.snapshots| - 1]]
        && r.after.snapshots[|r.after.snapshots| - 1].name == SnapshotName(date)
  {
  }

  /** The last-listed snapshot is still listed after a pass, whatever the
      pass evicted and whether or not it made today's directory. */
  lemma NewestKept(o: Output, targets: seq<Target>, necessary: int, date: Date)
    requires ValidDate(date) && |o.path| >= 1 && forall t :: t in targets ==> ValidTarget(t)
    requires o.snapshots != []
    ensures o.snapshots[|o.snapshots| - 1] in ProcessOutput(o, targets, necessary, date).after.snapshots
  {
    NewestSurvives(o.snapshots, o.free, necessary);
  }

  /** A pass that reached the targets ran them against the evicted folder
      and its base; when it made today's directory, that is listed last. */
  lemma DoneShape(o: Output, targets: seq<Target>, necessary: int, date: Date)
    requires ValidDate(date) && |o.path| >= 1 && forall t :: t in targets ==> ValidTarget(t)
    requires ProcessOutput(o, targets, necessary, date).report.Done?
    ensures var v := Evicted(o, necessary);
      var p := RunTargets(v, BaseOf(v), targets);
      var r := ProcessOutput(o, targets, necessary, date);
      && FindSnapshot(v.snapshots, SnapshotName(date)).None?
      && r.report.results == p.results && r.report.made == p.made
      && (p.made ==> r.after.snapshots == v.snapshots + [Snapshot(SnapshotName(date), p.bytes, p.tree)])
  {
    DoneFresh(o, targets, necessary, date);
    DoneResults(o, targets, necessary, date);
    DoneListsToday(o, targets, necessary, date);
  }

  // The three clauses of `DoneShape`, one at a time.

  lemma DoneFresh(o: Output, targets: seq<Target>, necessary: int, date: Date)
    requires ValidDate(date) && |o.path| >= 1 && forall t :: t in targets ==> ValidTarget(t)
    requires ProcessOutput(o, targets, necessary, date).report.Done?
    ensures FindSnapshot(Evicted(o, necessary).snapshots, SnapshotName(date)).None?
  {
  }

  lemma DoneResults(o: Output, targets: seq<Target>, necessary: int, date: Date)
    requires ValidDate(date) && |o.path| >= 1 && forall t :: t in targets ==> ValidTarget(t)
    requires ProcessOutput(o, targets, necessary, date).report.Done?
    ensures var v := Evicted(o, necessary);
      var p := RunTargets(v, BaseOf(v), targets);
      var r := ProcessOutput(o, targets, necessary, date);
      r.report.results == p.results && r.report.made == p.made
  {
  }

  lemma DoneListsToday(o: Output, targets: seq<Target>, necessary: int, date: Date)
    requires ValidDate(date) && |o.path| >= 1 && forall t :: t in targets ==> ValidTarget(t)
    requires ProcessOutput(o, targets, necessary, date).report.Done?
    ensures var v := Evicted(o, necessary);
      var p := RunTargets(v, BaseOf(v), targets);
      p.made ==> ProcessOutput(o, targets, necessary, date).after.snapshots ==
                 v.snapshots + [Snapshot(SnapshotName(date), p.bytes, p.tree)]
  {
  }

  /** Lines 159-226 for one output folder. */
  method SaveOutput(o: Output, targets: seq<Target>, necessary: int, date: Date) returns (r: Outcome)
    requires ValidDate(date) && |o.path| >= 1 && forall t :: t in targets ==> ValidTarget(t)
    ensures r == ProcessOutput(o, targets, necessary, date)
  {
    var kept, free := Evict(o.snapshots, o.free, necessary);
    var n := |o.snapshots| - |kept|;
    assert n == EvictionCount(o.snapshots, o.free, necessary);
    var vol := Output(o.path, free, kept);
    assert vol == Evicted(o, necessary);
    var name := SnapshotName(date);
    if FindSnapshot(kept, name).Some? {
      return Outcome(AlreadyMade(n), vol);
    }
    var p := BackupTargets(vol, BaseOf(vol), targets);
    var after := vol;
    if p.made {
      after := vol.(free := vol.free - p.bytes, snapshots := kept + [Snapshot(name, p.bytes, p.tree)]);
    }
    r := Outcome(Done(n, p.results, p.made), after);
  }

  /** The outcomes of visiting the given output folders, each on its own. */
  function Outcomes(outputs: seq<Output>, targets: seq<Target>, necessary: int, date: Date): (rs: seq<Outcome>)
    requires ValidDate(date) && forall o :: o in outputs ==> |o.path| >= 1
    requires forall t :: t in targets ==> ValidTarget(t)
    ensures |rs| == |outputs|
  {
    seq(|outputs|, k requires 0 <= k < |outputs| => ProcessOutput(outputs[k], targets, necessary, date))
  }

  /** Visiting one more output folder appends its outcome and leaves the
      earlier outcomes as they were. */
  lemma OutcomesStep(outputs: seq<Output>, targets: seq<Target>, necessary: int, date: Date, i: nat)
    requires ValidDate(date) && forall o :: o in outputs ==> |o.path| >= 1
    requires forall t :: t in targets ==> ValidTarget(t)
    requires i < |outputs|
    ensures Outcomes(outputs[..i + 1], targets, necessary, date)
      == Outcomes(outputs[..i], targets, necessary, date) + [ProcessOutput(outputs[i], targets, necessary, date)]
  {
    var longer := Outcomes(outputs[..i + 1], targets, necessary, date);
    var extended := Outcomes(outputs[..i], targets, necessary, date) + [ProcessOutput(outputs[i], targets, necessary, date)];
    forall k | 0 <= k < i + 1
      ensures longer[k] == extended[k]
    {
      assert outputs[..i + 1][k] == outputs[k];
      if k < i {
        assert outputs[..i][k] == outputs[k];
      }
    }
    assert |longer| == |extended|;
  }

  /** `Save`: the output folders in order, returning as soon as one already
      holds today's snapshot (the folders after it are not visited), with
      today at 00:01 as the result; otherwise the time the pass finished
      (`finished`, the clock read at line 228). */
  method Save(outputs: seq<Output>, targets: seq<Target>, necessary: int, clock: Clock, finished: int)
    returns (outcomes: seq<Outcome>, saved: int)
    requires ValidDate(clock.date) && forall o :: o in outputs ==> |o.path| >= 1
    requires forall t :: t in targets ==> ValidTarget(t)
    ensures |outcomes| <= |outputs|
    ensures outcomes == Outcomes(outputs[..|outcomes|], targets, necessary, clock.date)
    ensures forall i :: 0 <= i < |outcomes| - 1 ==> outcomes[i].report.Done?
    ensures |outcomes| < |outputs| ==> outcomes != [] && outcomes[|outcomes| - 1].report.AlreadyMade?
    ensures saved == if outcomes != [] && outcomes[|outcomes| - 1].report.AlreadyMade?
                     then TodayAtOneMinute(clock.ticks) else finished
  {
    outcomes := [];
    var i := 0;
    while i < |outputs|
      invariant 0 <= i <= |outputs| && |outcomes| == i
      invariant outcomes == Outcomes(outputs[..i], targets, necessary, clock.date)
      invariant forall j :: 0 <= j < i ==> outcomes[j].report.Done?
    {
      assert outputs[i] in outputs;
      var r := SaveOutput(outputs[i], targets, necessary, clock.date);
      OutcomesStep(outputs, targets, necessary, clock.date, i);
      outcomes := outcomes + [r];
      assert outcomes == Outcomes(outputs[..i + 1], targets, necessary, clock.date);
      if r.report.AlreadyMade? {
        return outcomes, TodayAtOneMinute(clock.ticks);
      }
      i := i + 1;
    }
    saved := finished;
  }

  // ---------------------------------------------------------------------
  // Properties of a pass

  /** The last-listed snapshot survives any eviction, and is still
      listed last. */
  lemma NewestSurvives(snaps: seq<Snapshot>, free: int, necessary: int)
    requires snaps != []
    ensures snaps[|snaps| - 1] in snaps[EvictionCount(snaps, free, necessary)..]
    ensures var kept := snaps[EvictionCount(snaps, free, necessary)..];
      kept != [] && kept[|kept| - 1] == snaps[|snaps| - 1]
  {
    var n := EvictionCount(snaps, free, necessary);
    assert snaps[n..][|snaps| - 1 - n] == snaps[|snaps| - 1];
  }

  /** A second pass on the same day, whatever space it asks for, finds the
      snapshot the first one made and copies nothing. */
  lemma {:induction false} SameDayRerunMakesNothing(o: Output, targets: seq<Target>, necessary: int, necessary2: int, date: Date)
    requires ValidDate(date) && |o.path| >= 1 && forall t :: t in targets ==> ValidTarget(t)
    requires ProcessOutput(o, targets, necessary, date).report.Done?
    requires ProcessOutput(o, targets, necessary, date).report.made
    ensures ProcessOutput(ProcessOutput(o, targets, necessary, date).after, targets, necessary2, date).report.AlreadyMade?
  {
    var a := ProcessOutput(o, targets, necessary, date).after;
    NewestSurvives(a.snapshots, a.free, necessary2);
    var n := EvictionCount(a.snapshots, a.free, necessary2);
    var today := a.snapshots[|a.snapshots| - 1];
    assert today in a.snapshots[n..] && today.name == SnapshotName(date);
  }

  /** An output folder without snapshots never gets one: nothing is
      deleted, today's directory is never created, and every target ends
      at the null base or at a failed copy. */
  lemma EmptyOutputNeverBacksUp(o: Output, targets: seq<Target>, necessary: int, date: Date)
    requires ValidDate(date) && |o.path| >= 1 && forall t :: t in targets ==> ValidTarget(t)
    requires o.snapshots == []
    ensures var r := ProcessOutput(o, targets, necessary, date);
      && r.after == o
      && r.report.Done? && !r.report.made && r.report.evicted == 0
      && forall i :: 0 <= i < |targets| ==> r.report.results[i] == NoBase || r.report.results[i] == CopyFailed
  {
    assert o.snapshots[..0] == [];
    NoBaseCopiesNothing(Output(o.path, o.free, []), targets);
  }

  /** Space shortage alone never skips an output folder holding at most
      one snapshot: nothing is deleted and the targets are processed. */
  lemma ShortSpaceStillBacksUp(o: Output, targets: seq<Target>, necessary: int, date: Date)
    requires ValidDate(date) && |o.path| >= 1 && forall t :: t in targets ==> ValidTarget(t)
    requires |o.snapshots| <= 1 && FindSnapshot(o.snapshots, SnapshotName(date)).None?
    ensures var r := ProcessOutput(o, targets, necessary, date);
      r.report.Done? && r.report.evicted == 0 && |r.report.results| == |targets|
  {
    assert o.snapshots[0..] == o.snapshots;
  }

  /** Looking up the name of the last-listed snapshot finds that snapshot
      when no earlier one has its name. */
  lemma {:induction false} FindNewest(snaps: seq<Snapshot>)
    requires snaps != []
    requires forall k :: 0 <= k < |snaps| - 1 ==> snaps[k].name != snaps[|snaps| - 1].name
    ensures FindSnapshot(snaps, snaps[|snaps| - 1].name) == Some(snaps[|snaps| - 1])
    decreases |snaps|
  {
    if |snaps| > 1 {
      var rest := snaps[1..];
      assert rest[|rest| - 1] == snaps[|snaps| - 1];
      assert forall k :: 0 <= k < |rest| - 1 ==> rest[k] == snaps[k + 1];
      FindNewest(rest);
    }
  }

  /** A skipped target whose name no other target shares has no top-level
      entry in today's directory. */
  lemma SkippedNotInTree(vol: Output, base: Option<Path>, ts: seq<Target>, i: nat)
    requires (forall t :: t in ts ==> ValidTarget(t)) && (base.Some? ==> |base.value| >= 1)
    requires i < |ts| && ValidTarget(ts[i])
    requires RunTargets(vol, base, ts).results[i] == Skipped
    requires forall j :: 0 <= j < |ts| && j != i && ValidTarget(ts[j]) ==> Name(ts[j].path) != Name(ts[i].path)
    ensures [Name(ts[i].path)] !in RunTargets(vol, base, ts).tree
  {
    if [Name(ts[i].path)] in RunTargets(vol, base, ts).tree {
      TopLevelFromTargets(vol, base, ts, Name(ts[i].path));
      assert false;
    }
  }

  /** A made pass lists today's snapshot last, under a name no kept
      snapshot has, and with a top-level entry only for the targets of that
      name that were copied or mirrored. */
  lemma TodayIsNewest(o: Output, targets: seq<Target>, necessary: int, date: Date, i: nat)
    requires ValidDate(date) && |o.path| >= 1 && forall t :: t in targets ==> ValidTarget(t)
    requires ProcessOutput(o, targets, necessary, date).report.Done?
    requires ProcessOutput(o, targets, necessary, date).report.made
    requires i < |targets| && ValidTarget(targets[i])
    requires ProcessOutput(o, targets, necessary, date).report.results[i] == Skipped
    requires forall j :: 0 <= j < |targets| && j != i && ValidTarget(targets[j]) ==> Name(targets[j].path) != Name(targets[i].path)
    ensures var a := ProcessOutput(o, targets, necessary, date).after;
      && (forall k :: 0 <= k < |a.snapshots| - 1 ==> a.snapshots[k].name != a.snapshots[|a.snapshots| - 1].name)
      && [Name(targets[i].path)] !in a.snapshots[|a.snapshots| - 1].tree
  {
    var name := Name(targets[i].path);
    DoneShape(o, targets, necessary, date);
    var vol := Evicted(o, necessary);
    var kept := vol.snapshots;
    var base := BaseOf(vol);
    var p := RunTargets(vol, base, targets);
    SkippedNotInTree(vol, base, targets, i);
    var a := ProcessOutput(o, targets, necessary, date).after;
    var today := Snapshot(SnapshotName(date), p.bytes, p.tree);
    assert a.snapshots == kept + [today];
    assert a.snapshots[|a.snapshots| - 1] == today;
    forall k | 0 <= k < |a.snapshots| - 1
      ensures a.snapshots[k].name != a.snapshots[|a.snapshots| - 1].name
    {
      assert a.snapshots[k] in kept;
    }
  }

  /** Once the pass after has evicted, its base is the folder's newest
      snapshot, and probing that base for a name the snapshot's tree lacks
      finds no file. */
  lemma {:induction false} NextBaseLacks(a: Output, necessary2: int, name: string)
    requires a.snapshots != []
    requires forall k :: 0 <= k < |a.snapshots| - 1 ==> a.snapshots[k].name != a.snapshots[|a.snapshots| - 1].name
    requires [name] !in a.snapshots[|a.snapshots| - 1].tree
    ensures var v := Evicted(a, necessary2);
      BaseOf(v).Some? && FileTime(v, BaseOf(v).value + [name]).None?
  {
    var n2 := EvictionCount(a.snapshots, a.free, necessary2);
    NewestSurvives(a.snapshots, a.free, necessary2);
    SuffixKeepsLastDistinct(a.snapshots, n2);
    FindNewest(a.snapshots[n2..]);
    NewestLacks(Evicted(a, necessary2), name);
  }

  /** A suffix that keeps the last snapshot keeps it distinctly named. */
  lemma SuffixKeepsLastDistinct(snaps: seq<Snapshot>, n: nat)
    requires n < |snaps|
    requires forall k :: 0 <= k < |snaps| - 1 ==> snaps[k].name != snaps[|snaps| - 1].name
    ensures var kept := snaps[n..];
      forall k :: 0 <= k < |kept| - 1 ==> kept[k].name != kept[|kept| - 1].name
  {
    var kept := snaps[n..];
    assert forall k :: 0 <= k < |kept| ==> kept[k] == snaps[n + k];
  }

  /** When the lookup by name finds the last-listed snapshot, a name its
      tree lacks has no time under the base. */
  lemma NewestLacks(v: Output, name: string)
    requires v.snapshots != []
    requires FindSnapshot(v.snapshots, v.snapshots[|v.snapshots| - 1].name) == Some(v.snapshots[|v.snapshots| - 1])
    requires [name] !in v.snapshots[|v.snapshots| - 1].tree
    ensures BaseOf(v).Some? && FileTime(v, BaseOf(v).value + [name]).None?
  {
    var probe := v.path + [v.snapshots[|v.snapshots| - 1].name] + [name];
    assert probe[|v.path|] == v.snapshots[|v.snapshots| - 1].name;
    assert probe[|v.path| + 1..] == [name];
  }

  /** In a pass at one output folder, a file target that the classifier
      judges changed against the base is copied or fails to copy, never
      skipped. */
  lemma ChangedFileNotSkipped(a: Output, later: seq<Target>, necessary: int, date: Date, i: nat)
    requires ValidDate(date) && |a.path| >= 1 && forall t :: t in later ==> ValidTarget(t)
    requires i < |later| && ValidTarget(later[i]) && later[i].FileTarget?
    requires ProcessOutput(a, later, necessary, date).report.Done?
    requires var v := Evicted(a, necessary); ShouldCopy(v, BaseOf(v), Name(later[i].path), later[i].mtime)
    ensures ProcessOutput(a, later, necessary, date).report.results[i] in {Copied, CopyFailed}
  {
    var v := Evicted(a, necessary);
    DoneShape(a, later, necessary, date);
    TargetResultAt(v, BaseOf(v), later, i);
  }

  /** A file target whose name no other target shares, skipped as
      unchanged by a pass that made today's snapshot, is absent from that
      snapshot, which is the base of the next pass; so the next pass that
      reaches the targets judges it changed whatever its time, and copies
      it or fails to: it does not skip it again. */
  lemma {:induction false} SkippedFileNotSkippedNextPass(
      o: Output, targets: seq<Target>, necessary: int, date: Date, i: nat,
      necessary2: int, date2: Date, later: seq<Target>)
    requires ValidDate(date) && ValidDate(date2) && |o.path| >= 1
    requires forall t :: t in targets ==> ValidTarget(t)
    requires forall t :: t in later ==> ValidTarget(t)
    requires ProcessOutput(o, targets, necessary, date).report.Done?
    requires ProcessOutput(o, targets, necessary, date).report.made
    requires i < |targets| && |later| == |targets| && ValidTarget(targets[i])
    requires targets[i].FileTarget? && later[i].FileTarget? && later[i].path == targets[i].path
    requires ProcessOutput(o, targets, necessary, date).report.results[i] == Skipped
    requires forall j :: 0 <= j < |targets| && j != i && ValidTarget(targets[j]) ==> Name(targets[j].path) != Name(targets[i].path)
    requires ProcessOutput(ProcessOutput(o, targets, necessary, date).after, later, necessary2, date2).report.Done?
    ensures ProcessOutput(ProcessOutput(o, targets, necessary, date).after, later, necessary2, date2).report.results[i] != Skipped
  {
    var a := ProcessOutput(o, targets, necessary, date).after;
    assert later[i] in later;
    SkippedFileJudgedChanged(o, targets, necessary, date, i, necessary2, later[i].mtime);
    ChangedFileNotSkipped(a, later, necessary2, date2, i);
  }

  /** The first half of the above: against the next pass's base, the
      classifier judges the skipped file changed, whatever its time. */
  lemma SkippedFileJudgedChanged(
      o: Output, targets: seq<Target>, necessary: int, date: Date, i: nat, necessary2: int, mtime: int)
    requires ValidDate(date) && |o.path| >= 1
    requires forall t :: t in targets ==> ValidTarget(t)
    requires ProcessOutput(o, targets, necessary, date).report.Done?
    requires ProcessOutput(o, targets, necessary, date).report.made
    requires i < |targets| && ValidTarget(targets[i])
    requires ProcessOutput(o, targets, necessary, date).report.results[i] == Skipped
    requires forall j :: 0 <= j < |targets| && j != i && ValidTarget(targets[j]) ==> Name(targets[j].path) != Name(targets[i].path)
    ensures var v := Evicted(ProcessOutput(o, targets, necessary, date).after, necessary2);
      ShouldCopy(v, BaseOf(v), Name(targets[i].path), mtime)
  {
    var a := ProcessOutput(o, targets, necessary, date).after;
    TodayIsNewest(o, targets, necessary, date, i);
    NextBaseLacks(a, necessary2, Name(targets[i].path));
  }
}
