/** The mirror walk of a directory target (Backup/Program.cs:191-213):
    `IO.CopyDirectory` calls back once per entry of the source tree; on a
    directory the callback moves the cursor `last`, a path into the previous
    snapshot meant to be the directory that corresponds to the one being
    copied, and on a file it asks `ShouldCopy` against that cursor.

    The traversal itself is not part of this model: the order in which
    `IO.CopyDirectory` reports entries is an input sequence of visits. */
module Mirror {
  import opened FileSystem
  import opened Classifier

  /** One callback of the traversal: a file with its last-write time and
      size, or a directory. Paths are absolute source paths. */
  datatype Visit = FileVisit(path: Path, mtime: int, size: nat) | DirVisit(path: Path)

  /** Every visited entry lies strictly below the target directory. */
  predicate Inside(target: Path, vs: seq<Visit>)
  {
    forall v :: v in vs ==> target < v.path
  }

  lemma InsideParent(target: Path, p: Path)
    requires target < p
    ensures |p| >= 1 && target <= Parent(p)
  {
    assert Parent(p)[..|target|] == p[..|target|];
  }

  /** The climb at lines 203-208: while the visited directory's parent and
      grandparent names differ from the cursor's and its parent's, move the
      cursor up, but stop at the top (`base\<target>`) or at a volume root.
      The result is the top, the cursor itself, or an ancestor between. */
  function Climb(last: Path, d: Path, top: Path): (r: Path)
    requires |top| >= 2 && top <= last && |d| >= 3
    ensures top <= r <= last
    decreases |last|
  {
    if Name(Parent(d)) != Name(last) || Name(Parent(Parent(d))) != Name(Parent(last)) then
      if |last| < 2 || last == top then last
      else
        assert top <= Parent(last) by { assert Parent(last)[..|top|] == last[..|top|]; }
        Climb(Parent(last), d, top)
    else last
  }

  /** The cursor after the callback sees directory `d` (lines 199-210):
      it descends when `d`'s parent has the cursor's name, and otherwise
      climbs first. Either way it ends one level below an ancestor-or-self
      of the old cursor, inside the top, and named like `d`. */
  function NextCursor(last: Path, d: Path, top: Path): (r: Path)
    requires |top| >= 2 && top <= last && |d| >= 3
    ensures top < r && Parent(r) <= last && Name(r) == Name(d)
    ensures Name(Parent(d)) == Name(last) ==> r == last + [Name(d)]
  {
    if Name(Parent(d)) == Name(last) then last + [Name(d)]
    else Climb(last, d, top) + [Name(d)]
  }

  /** The directory branch of the callback, with its `while` loop. */
  method AdvanceCursor(last: Path, d: Path, top: Path) returns (next: Path)
    requires |top| >= 2 && top <= last && |d| >= 3
    ensures next == NextCursor(last, d, top)
  {
    if Name(Parent(d)) == Name(last) {
      next := last + [Name(d)];
    } else {
      var cur := last;
      while Name(Parent(d)) != Name(cur) || Name(Parent(Parent(d))) != Name(Parent(cur))
        invariant top <= cur <= last
        invariant Climb(cur, d, top) == Climb(last, d, top)
        decreases |cur|
      {
        if |cur| < 2 || cur == top {
          break;
        }
        assert Parent(cur)[..|top|] == cur[..|top|];
        cur := Parent(cur);
      }
      next := cur + [Name(d)];
    }
  }

  /** The state the walk carries: the cursor, and the entries written into
      the new snapshot so far (every directory, and the files the
      classifier lets through). */
  datatype Walk = Walk(cursor: Path, written: seq<Visit>)

  /** One callback. A file leaves the cursor where it is and is written
      exactly when the classifier, asked against the cursor, says copy; a
      directory moves the cursor and is always written. */
  function Step(vol: Output, top: Path, w: Walk, v: Visit): (r: Walk)
    requires |top| >= 2 && top <= w.cursor && |v.path| >= 3
    ensures v.FileVisit? ==> r.cursor == w.cursor
    ensures v.FileVisit? ==>
      (ShouldCopy(vol, Some(w.cursor), Name(v.path), v.mtime) <==> r.written == w.written + [v])
    ensures v.FileVisit? && !ShouldCopy(vol, Some(w.cursor), Name(v.path), v.mtime) ==> r.written == w.written
    ensures v.DirVisit? ==> r.cursor == NextCursor(w.cursor, v.path, top) && r.written == w.written + [v]
  {
    match v
    case FileVisit(p, mtime, _) =>
      if ShouldCopy(vol, Some(w.cursor), Name(p), mtime) then w.(written := w.written + [v]) else w
    case DirVisit(p) => Walk(NextCursor(w.cursor, p, top), w.written + [v])
  }

  /** The directory most recently visited, or the target before any. */
  function CurrentDir(target: Path, vs: seq<Visit>): (cur: Path)
    requires Inside(target, vs)
    ensures target <= cur
  {
    if vs == [] then target
    else if vs[|vs| - 1].DirVisit? then vs[|vs| - 1].path
    else CurrentDir(target, vs[..|vs| - 1])
  }

  /** The walk over a visit order, starting with the cursor at the top
      `base\<target name>`, one `Step` per visit. The cursor never leaves
      the top's subtree, its name is always that of the directory being
      copied, each directory is written, and nothing is written that was
      not visited. */
  function Traverse(vol: Output, top: Path, target: Path, vs: seq<Visit>): (w: Walk)
    requires |top| >= 2 && |target| >= 2 && Name(top) == Name(target) && Inside(target, vs)
    ensures top <= w.cursor
    ensures Name(w.cursor) == Name(CurrentDir(target, vs))
    ensures forall v :: v in w.written ==> v in vs
    ensures forall v :: v in vs && v.DirVisit? ==> v in w.written
    decreases |vs|
  {
    if vs == [] then Walk(top, [])
    else
      var pre, v := vs[..|vs| - 1], vs[|vs| - 1];
      assert vs == pre + [v];
      InsidePrefix(target, vs, |vs| - 1);
      Step(vol, top, Traverse(vol, top, target, pre), v)
  }

  /** `IO.CopyDirectory` driving the callback over the visit order. */
  method MirrorDirectory(vol: Output, top: Path, target: Path, visits: seq<Visit>) returns (w: Walk)
    requires |top| >= 2 && |target| >= 2 && Name(top) == Name(target) && Inside(target, visits)
    ensures w == Traverse(vol, top, target, visits)
  {
    var cursor := top;
    var written: seq<Visit> := [];
    for i := 0 to |visits|
      invariant Walk(cursor, written) == Traverse(vol, top, target, visits[..i])
    {
      var v := visits[i];
      assert visits[..i + 1][..i] == visits[..i];
      assert v in visits;
      match v {
        case FileVisit(p, mtime, _) =>
          if ShouldCopy(vol, Some(cursor), Name(p), mtime) {
            written := written + [v];
          }
        case DirVisit(p) =>
          cursor := AdvanceCursor(cursor, p, top);
          written := written + [v];
      }
    }
    assert visits[..|visits|] == visits;
    w := Walk(cursor, written);
  }

  // ---------------------------------------------------------------------
  // Correspondence: when does the name-based cursor find the right place?

  /** The directory of the previous snapshot that corresponds to source
      path `p` by relative path: `top` followed by `p` relative to the
      target. */
  function Corresponding(top: Path, target: Path, p: Path): Path
    requires target <= p
  {
    top + p[|target|..]
  }

  /** No name occurs twice in `p` from position `k` on. */
  predicate DistinctFrom(p: Path, k: int)
  {
    forall i, j :: 0 <= i < j < |p| && k <= i ==> p[i] != p[j]
  }

  /** The visit order of a depth-first pre-order walk that reports a
      directory's files before its subdirectories: each file lies in the
      current directory, and each directory's parent is the current
      directory or one of its ancestors inside the target. */
  predicate Preorder(target: Path, vs: seq<Visit>)
    requires Inside(target, vs)
  {
    vs == [] ||
    (Preorder(target, vs[..|vs| - 1]) &&
     var cur := CurrentDir(target, vs[..|vs| - 1]);
     var p := vs[|vs| - 1].path;
     |p| >= 1 && (if vs[|vs| - 1].FileVisit? then Parent(p) == cur else target <= Parent(p) <= cur))
  }

  /** Below the target, no visited directory repeats a name along its path. */
  predicate UniqueNames(target: Path, vs: seq<Visit>)
  {
    forall v :: v in vs && v.DirVisit? ==> DistinctFrom(v.path, |target| - 1)
  }

  /** The walk done by relative path instead of by the cursor: each file
      is classified against the corresponding directory of its parent. */
  function ReferenceWritten(vol: Output, top: Path, target: Path, vs: seq<Visit>): (r: seq<Visit>)
    requires Inside(target, vs)
    ensures forall v :: v in r ==> v in vs
  {
    if vs == [] then []
    else
      var rest := ReferenceWritten(vol, top, target, vs[..|vs| - 1]);
      var v := vs[|vs| - 1];
      assert v in vs;
      InsideParent(target, v.path);
      if v.DirVisit? || ShouldCopy(vol, Some(Corresponding(top, target, Parent(v.path))), Name(v.path), v.mtime)
      then rest + [v] else rest
  }

  lemma CorrespondingName(top: Path, target: Path, p: Path)
    requires |top| >= 1 && |target| >= 1 && Name(top) == Name(target) && target <= p
    ensures Name(Corresponding(top, target, p)) == Name(p)
  {
  }

  lemma CorrespondingParent(top: Path, target: Path, p: Path)
    requires target < p
    ensures target <= Parent(p)
    ensures Parent(Corresponding(top, target, p)) == Corresponding(top, target, Parent(p))
  {
    InsideParent(target, p);
    assert Parent(p)[|target|..] == p[|target|..][..|p| - 1 - |target|];
  }

  /** From the directory corresponding to `a`, a descendant-or-self of
      `d`'s parent with no repeated names below the target, the climb stops
      exactly at the directory corresponding to `d`'s parent. */
  lemma {:induction false} ClimbCorresponds(top: Path, target: Path, a: Path, d: Path)
    requires |top| >= 2 && |target| >= 2 && Name(top) == Name(target)
    requires |d| >= 1 && target <= Parent(d) <= a && DistinctFrom(a, |target| - 1)
    ensures |d| >= 3 && top <= Corresponding(top, target, a)
    ensures Climb(Corresponding(top, target, a), d, top) == Corresponding(top, target, Parent(d))
    decreases |a|
  {
    var c := Corresponding(top, target, a);
    var pd := Parent(d);
    CorrespondingName(top, target, a);
    if a == pd {
      if a != target {
        CorrespondingParent(top, target, a);
        CorrespondingName(top, target, Parent(a));
        assert Parent(pd) == Parent(a);
      }
    } else {
      assert a[|pd| - 1] == pd[|pd| - 1];
      assert Name(pd) != Name(c);
      assert c != top;
      CorrespondingParent(top, target, a);
      assert pd <= Parent(a) by { assert Parent(a)[..|pd|] == a[..|pd|]; }
      assert DistinctFrom(Parent(a), |target| - 1);
      ClimbCorresponds(top, target, Parent(a), d);
    }
  }

  /** Under the same conditions one callback moves the cursor from the
      directory corresponding to the current one to the directory
      corresponding to `d`. */
  lemma NextCursorCorresponds(top: Path, target: Path, cur: Path, d: Path)
    requires |top| >= 2 && |target| >= 2 && Name(top) == Name(target)
    requires |d| >= 1 && target <= Parent(d) <= cur && DistinctFrom(cur, |target| - 1)
    ensures |d| >= 3 && target <= d && top <= Corresponding(top, target, cur)
    ensures NextCursor(Corresponding(top, target, cur), d, top) == Corresponding(top, target, d)
  {
    var pd := Parent(d);
    ClimbCorresponds(top, target, cur, d);
    CorrespondingName(top, target, cur);
    if Name(pd) == Name(cur) && pd != cur {
      assert false;
    }
    CorrespondingChild(top, target, pd, Name(d));
  }

  lemma CorrespondingChild(top: Path, target: Path, p: Path, n: string)
    requires target <= p
    ensures target <= p + [n]
    ensures Corresponding(top, target, p + [n]) == Corresponding(top, target, p) + [n]
  {
    assert (p + [n])[..|target|] == p[..|target|];
    assert (p + [n])[|target|..] == p[|target|..] + [n];
  }

  lemma {:induction false} CurrentDirFacts(target: Path, vs: seq<Visit>)
    requires Inside(target, vs) && Preorder(target, vs) && UniqueNames(target, vs)
    ensures target <= CurrentDir(target, vs)
    ensures DistinctFrom(CurrentDir(target, vs), |target| - 1)
    decreases |vs|
  {
    if vs != [] {
      var v := vs[|vs| - 1];
      assert v in vs;
      if v.FileVisit? {
        assert forall u :: u in vs[..|vs| - 1] ==> u in vs;
        CurrentDirFacts(target, vs[..|vs| - 1]);
      }
    }
  }

  lemma InsidePrefix(target: Path, vs: seq<Visit>, n: nat)
    requires Inside(target, vs) && n <= |vs|
    ensures Inside(target, vs[..n])
  {
    forall u | u in vs[..n] ensures target < u.path {
      var i :| 0 <= i < n && vs[..n][i] == u;
      assert vs[i] == u;
    }
  }

  /** The cursor heuristic agrees with the relative-path mapping whenever
      the visits come in files-first pre-order and no name repeats along a
      path: the cursor is always the corresponding directory, and the walk
      writes exactly what a relative-path walk writes. */
  lemma {:induction false} CursorCorresponds(vol: Output, top: Path, target: Path, vs: seq<Visit>)
    requires |top| >= 2 && |target| >= 2 && Name(top) == Name(target) && Inside(target, vs)
    requires Preorder(target, vs) && UniqueNames(target, vs)
    ensures Traverse(vol, top, target, vs).cursor == Corresponding(top, target, CurrentDir(target, vs))
    ensures Traverse(vol, top, target, vs).written == ReferenceWritten(vol, top, target, vs)
    decreases |vs|
  {
    if vs != [] {
      var pre := vs[..|vs| - 1];
      var v := vs[|vs| - 1];
      InsidePrefix(target, vs, |vs| - 1);
      assert v in vs;
      assert UniqueNames(target, pre) by {
        forall u | u in pre && u.DirVisit? ensures DistinctFrom(u.path, |target| - 1) {
          assert u in vs;
        }
      }
      assert Preorder(target, pre);
      CursorCorresponds(vol, top, target, pre);
      CurrentDirFacts(target, pre);
      var cur := CurrentDir(target, pre);
      assert v.FileVisit? ==> Parent(v.path) == cur;
      assert v.DirVisit? ==> target <= Parent(v.path) <= cur;
      var w := Traverse(vol, top, target, pre);
      assert Traverse(vol, top, target, vs) == Step(vol, top, w, v);
      StepCorresponds(vol, top, target, cur, w, v);
    }
  }

  lemma StepCorresponds(vol: Output, top: Path, target: Path, cur: Path, w: Walk, v: Visit)
    requires |top| >= 2 && |target| >= 2 && Name(top) == Name(target) && target < v.path
    requires target <= cur && DistinctFrom(cur, |target| - 1)
    requires w.cursor == Corresponding(top, target, cur)
    requires v.FileVisit? ==> Parent(v.path) == cur
    requires v.DirVisit? ==> target <= Parent(v.path) <= cur
    ensures |v.path| >= 3 && top <= w.cursor && target <= Parent(v.path)
    ensures Step(vol, top, w, v).cursor == (if v.DirVisit? then Corresponding(top, target, v.path) else w.cursor)
    ensures Step(vol, top, w, v).written == w.written +
      (if v.DirVisit? || ShouldCopy(vol, Some(Corresponding(top, target, Parent(v.path))), Name(v.path), v.mtime)
       then [v] else [])
  {
    InsideParent(target, v.path);
    if v.DirVisit? {
      NextCursorCorresponds(top, target, cur, v.path);
    }
  }

  /** A tree mirrored again unchanged writes no file: when the previous
      snapshot holds every visited file at the corresponding place with a
      last-write time no earlier than the source's, and the visit order
      meets the conditions above, only directories are written. */
  lemma {:induction false} UnchangedTreeCopiesNoFile(vol: Output, top: Path, target: Path, vs: seq<Visit>)
    requires |top| >= 2 && |target| >= 2 && Name(top) == Name(target) && Inside(target, vs)
    requires Preorder(target, vs) && UniqueNames(target, vs)
    requires forall v :: v in vs && v.FileVisit? ==>
      var t := FileTime(vol, top + v.path[|target|..]); t.Some? && v.mtime <= t.value
    ensures forall v :: v in Traverse(vol, top, target, vs).written ==> v.DirVisit?
  {
    CursorCorresponds(vol, top, target, vs);
    ReferenceWritesDirsOnly(vol, top, target, vs);
  }

  lemma {:induction false} ReferenceWritesDirsOnly(vol: Output, top: Path, target: Path, vs: seq<Visit>)
    requires Inside(target, vs)
    requires forall v :: v in vs && v.FileVisit? ==>
      var t := FileTime(vol, top + v.path[|target|..]); t.Some? && v.mtime <= t.value
    ensures forall v :: v in ReferenceWritten(vol, top, target, vs) ==> v.DirVisit?
    decreases |vs|
  {
    if vs != [] {
      var v := vs[|vs| - 1];
      assert v in vs;
      assert forall u :: u in vs[..|vs| - 1] ==> u in vs;
      ReferenceWritesDirsOnly(vol, top, target, vs[..|vs| - 1]);
      if v.FileVisit? {
        InsideParent(target, v.path);
        CorrespondingParent(top, target, v.path);
        assert Corresponding(top, target, Parent(v.path)) + [Name(v.path)] == top + v.path[|target|..];
      }
    }
  }

  /** The cursor can go wrong when a directory shares its parent's name:
      after `T\X` and `T\X\X`, the sibling `T\X\Z` is matched against
      `top\X\X\Z` instead of `top\X\Z`, because the descend test at
      line 200 compares the parent's name only. The visit order is a
      legitimate pre-order, so files under `T\X\Z` are classified against
      the wrong directory of the previous snapshot. */
  lemma {:induction false} RepeatedNameMisleadsCursor(vol: Output, top: Path, target: Path, x: string, z: string)
    requires |top| >= 2 && |target| >= 2 && Name(top) == Name(target)
    ensures
      var vs := [DirVisit(target + [x]), DirVisit(target + [x, x]), DirVisit(target + [x, z])];
      && Inside(target, vs) && Preorder(target, vs)
      && Traverse(vol, top, target, vs).cursor == top + [x, x, z]
      && Corresponding(top, target, CurrentDir(target, vs)) == top + [x, z]
  {
    RepeatedNameOrder(target, x, z);
    RepeatedNameCursor(vol, top, target, x, z);
    ChildPaths(target, x, z);
  }

  /** The three visits of the example form a legitimate pre-order. */
  lemma RepeatedNameOrder(target: Path, x: string, z: string)
    requires |target| >= 2
    ensures var vs := [DirVisit(target + [x]), DirVisit(target + [x, x]), DirVisit(target + [x, z])];
      && Inside(target, vs) && Preorder(target, vs) && CurrentDir(target, vs) == target + [x, z]
  {
    var p1, p2, p3 := target + [x], target + [x, x], target + [x, z];
    var v1, v2, v3 := DirVisit(p1), DirVisit(p2), DirVisit(p3);
    var s0: seq<Visit> := [];
    var s1 := s0 + [v1];
    var s2 := s1 + [v2];
    var s3 := s2 + [v3];
    ThreeAppended(v1, v2, v3);
    ChildPaths(target, x, z);
    assert p1 <= p2 by { assert p2[..|p1|] == p1; }
    assert Inside(target, s0) && Preorder(target, s0);
    DescendOrder(target, s0, v1, target);
    DescendOrder(target, s1, v2, p1);
    DescendOrder(target, s2, v3, p2);
  }

  /** Along the three visits the cursor descends each time. */
  lemma RepeatedNameCursor(vol: Output, top: Path, target: Path, x: string, z: string)
    requires |top| >= 2 && |target| >= 2 && Name(top) == Name(target)
    requires Inside(target, [DirVisit(target + [x]), DirVisit(target + [x, x]), DirVisit(target + [x, z])])
    ensures Traverse(vol, top, target, [DirVisit(target + [x]), DirVisit(target + [x, x]), DirVisit(target + [x, z])]).cursor
            == top + [x, x, z]
  {
    var p1, p2, p3 := target + [x], target + [x, x], target + [x, z];
    var v1, v2, v3 := DirVisit(p1), DirVisit(p2), DirVisit(p3);
    var s0: seq<Visit> := [];
    var s1 := s0 + [v1];
    var s2 := s1 + [v2];
    var s3 := s2 + [v3];
    ThreeAppended(v1, v2, v3);
    ChildPaths(target, x, z);
    ChildPaths(top, x, z);
    assert Inside(target, s1) && Inside(target, s2);
    DescendCursor(vol, top, target, s0, v1, top);
    DescendCursor(vol, top, target, s1, v2, top + [x]);
    DescendCursor(vol, top, target, s2, v3, top + [x] + [x]);
  }

  lemma ThreeAppended(v1: Visit, v2: Visit, v3: Visit)
    ensures [] + [v1] + [v2] + [v3] == [v1, v2, v3]
  {
  }

  lemma ChildPaths(p: Path, x: string, z: string)
    ensures p + [x] + [x] == p + [x, x] && p + [x] + [x] + [z] == p + [x, x, z]
    ensures (p + [x])[..|p|] == p && (p + [x, x])[..|p|] == p && (p + [x, z])[..|p|] == p
    ensures (p + [x, z])[|p|..] == [x, z]
    ensures |p| >= 1 ==> Parent(p + [x]) == p && Parent(p + [x, x]) == p + [x] && Parent(p + [x, z]) == p + [x]
  {
  }

  /** A directory visit whose parent is an ancestor-or-self of the current
      directory keeps the order pre-order and becomes the current
      directory. */
  lemma DescendOrder(target: Path, vs: seq<Visit>, v: Visit, cur: Path)
    requires Inside(target, vs) && Preorder(target, vs) && CurrentDir(target, vs) == cur
    requires v.DirVisit? && target < v.path && target <= Parent(v.path) <= cur
    ensures Inside(target, vs + [v]) && Preorder(target, vs + [v])
    ensures CurrentDir(target, vs + [v]) == v.path
  {
    var s := vs + [v];
    assert s[..|s| - 1] == vs && s[|s| - 1] == v;
    assert Inside(target, s);
  }

  /** A directory visit whose parent is named like the cursor: the cursor
      descends. */
  lemma DescendCursor(vol: Output, top: Path, target: Path, vs: seq<Visit>, v: Visit, c: Path)
    requires |top| >= 2 && |target| >= 2 && Name(top) == Name(target)
    requires Inside(target, vs + [v]) && v.DirVisit? && |v.path| >= 3
    requires Traverse(vol, top, target, vs).cursor == c && Name(Parent(v.path)) == Name(c)
    ensures Traverse(vol, top, target, vs + [v]).cursor == c + [Name(v.path)]
  {
    var s := vs + [v];
    assert s[..|s| - 1] == vs && s[|s| - 1] == v;
  }
}
