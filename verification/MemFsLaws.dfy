/** Invariants of every history of filesystem operations, and the round trip through a
    snapshot. */
module MemFsLaws {
  import opened Options
  import opened PathKeys
  import opened MemFs

  datatype Op =
    | Write(k: Key, data: Bytes)
    | WriteExcl(k: Key, data: Bytes)
    | Mkdir(k: Key)
    | Remove(k: Key)
    | Rename(o: Key, n: Key)

  /** One operation; a refused one changes nothing. */
  ghost function Apply(v: Volume, op: Op): Volume {
    match op
    case Write(k, data) => Written(v, k, data)
    case WriteExcl(k, data) => if Occupied(v, k) then v else Written(v, k, data)
    case Mkdir(k) => MadeDir(v, k)
    case Remove(k) => (match Removed(v, k) case None => v case Some(w) => w)
    case Rename(o, n) => (match Renamed(v, o, n) case None => v case Some(w) => w)
  }

  ghost function ApplyAll(ops: seq<Op>): Volume {
    if ops == [] then EMPTY else Apply(ApplyAll(ops[..|ops| - 1]), ops[|ops| - 1])
  }

  lemma ParentInParents(k: Key)
    requires |k| > 1
    ensures Parent(k) in WithParents(Parent(k))
  {
    assert Parent(k)[..|k| - 1] == Parent(k);
  }

  /** The directories above a key are closed under parents. */
  lemma ParentsClosed(k: Key, d: Key)
    requires d in WithParents(k)
    ensures d != [] && (|d| > 1 ==> Parent(d) in WithParents(k))
  {
    var i :| 1 <= i <= |k| && d == k[..i];
    if i > 1 {
      assert Parent(d) == k[..i - 1];
    }
  }

  lemma AddedParentsClosed(v: Volume, k: Key)
    requires Closed(v)
    ensures Closed(MadeDir(v, k))
  {
    forall d | d in WithParents(k) ensures d != [] && (|d| > 1 ==> Parent(d) in WithParents(k)) {
      ParentsClosed(k, d);
    }
  }

  lemma WrittenClosed(v: Volume, k: Key, data: Bytes)
    requires Closed(v)
    ensures Closed(Written(v, k, data))
  {
    if k != [] {
      AddedParentsClosed(v, Parent(k));
      if |k| > 1 {
        ParentInParents(k);
      }
    }
  }

  lemma RemovedClosed(v: Volume, k: Key)
    requires Closed(v) && Removed(v, k).Some?
    ensures Closed(Removed(v, k).value)
  {
    if k !in v.files {
      var w := Removed(v, k).value;
      forall c | (c in w.files || c in w.dirs) && |c| > 1 ensures Parent(c) in w.dirs {
        assert Beneath(Parent(c), c);
      }
    }
  }

  lemma RenamedClosed(v: Volume, o: Key, n: Key)
    requires Closed(v) && Renamed(v, o, n).Some?
    ensures Closed(Renamed(v, o, n).value)
  {
    WrittenClosed(v, n, v.files[o]);
  }

  /** Every operation keeps the directories closed under parents. */
  lemma ApplyClosed(v: Volume, op: Op)
    requires Closed(v)
    ensures Closed(Apply(v, op))
  {
    match op
    case Write(k, data) => WrittenClosed(v, k, data);
    case WriteExcl(k, data) => WrittenClosed(v, k, data);
    case Mkdir(k) => AddedParentsClosed(v, k);
    case Remove(k) => if Removed(v, k).Some? { RemovedClosed(v, k); }
    case Rename(o, n) => if Renamed(v, o, n).Some? { RenamedClosed(v, o, n); }
  }

  lemma {:induction false} HistoryClosed(ops: seq<Op>)
    ensures Closed(ApplyAll(ops))
  {
    if ops != [] {
      HistoryClosed(ops[..|ops| - 1]);
      ApplyClosed(ApplyAll(ops[..|ops| - 1]), ops[|ops| - 1]);
    }
  }

  // --- What each operation changes -------------------------------------------------------

  /** What reading a file answers. */
  ghost function ReadOf(v: Volume, k: Key): Option<Bytes> {
    if k in v.files then Some(v.files[k]) else None
  }

  /** Every key but these two reads the same. */
  ghost predicate ReadsElsewhere(v: Volume, w: Volume, k: Key, j: Key) {
    forall x | x != k && x != j :: ReadOf(w, x) == ReadOf(v, x)
  }

  ghost predicate SameDirs(v: Volume, w: Volume) {
    forall d :: d in w.dirs <==> d in v.dirs
  }

  /** Directories are made above k, no others, and none goes. */
  ghost predicate DirsAbove(v: Volume, w: Volume, k: Key) {
    forall d :: d in w.dirs <==> d in v.dirs || (d != [] && d < k)
  }

  lemma WithParentsAre(k: Key, d: Key)
    ensures d in WithParents(k) <==> d != [] && d <= k
    ensures d in ParentsOf(k) <==> d != [] && d < k
  {
    WithParentsBelow(k, d);
    if k != [] {
      WithParentsBelow(Parent(k), d);
      assert d <= Parent(k) <==> d < k;
    }
  }

  lemma WithParentsBelow(k: Key, d: Key)
    ensures d in WithParents(k) <==> d != [] && d <= k
  {
    if d != [] && d <= k {
      assert d == k[..|d|];
    }
  }

  /** A file written reads as written; every other file, and every directory but those
      above it, is as it was. */
  lemma WriteReads(v: Volume, k: Key, data: Bytes)
    ensures var w := Apply(v, Write(k, data));
            ReadOf(w, k) == Some(data) && ReadsElsewhere(v, w, k, k) && DirsAbove(v, w, k)
  {
    var w := Written(v, k, data);
    forall d ensures d in w.dirs <==> d in v.dirs || (d != [] && d < k) {
      WithParentsAre(k, d);
    }
  }

  /** An exclusive write is a write where nothing holds the name, and nothing elsewhere. */
  lemma WriteExclReads(v: Volume, k: Key, data: Bytes)
    ensures var w := Apply(v, WriteExcl(k, data));
            if k in v.files || k in v.dirs then w == v
            else ReadOf(w, k) == Some(data) && ReadsElsewhere(v, w, k, k) && DirsAbove(v, w, k)
  {
    WriteReads(v, k, data);
  }

  /** Making a directory touches no file, and makes it and those above it. */
  lemma MkdirReads(v: Volume, k: Key)
    ensures var w := Apply(v, Mkdir(k));
            && ReadsElsewhere(v, w, k, k) && ReadOf(w, k) == ReadOf(v, k)
            && forall d :: d in w.dirs <==> d in v.dirs || (d != [] && d <= k)
  {
    var w := MadeDir(v, k);
    forall d ensures d in w.dirs <==> d in v.dirs || (d != [] && d <= k) {
      WithParentsAre(k, d);
    }
  }

  lemma NothingBelow(v: Volume, k: Key)
    ensures IsEmptyDir(v, k) <==> forall x | Occupied(v, x) :: !(k < x)
  {
    if IsEmptyDir(v, k) {
      forall x | Occupied(v, x) ensures !(k < x) {
        assert !Beneath(k, x);
      }
    }
    if forall x | Occupied(v, x) :: !(k < x) {
      forall x | x in v.files ensures !Beneath(k, x) {
        assert Occupied(v, x);
      }
      forall x | x in v.dirs ensures !Beneath(k, x) {
        assert Occupied(v, x);
      }
    }
  }

  /** A removed file is gone, and it alone; a directory that is no file goes, and it
      alone, when nothing is below it; all else is refused and left. */
  lemma RemoveReads(v: Volume, k: Key)
    ensures var w := Apply(v, Remove(k));
            && ReadOf(w, k) == None && ReadsElsewhere(v, w, k, k)
            && (Removed(v, k).Some? <==> k in v.files || (k in v.dirs && forall x | Occupied(v, x) :: !(k < x)))
            && (k in v.files || Removed(v, k).None? ==> SameDirs(v, w))
            && (k !in v.files && Removed(v, k).Some? ==> forall d :: d in w.dirs <==> d in v.dirs && d != k)
  {
    NothingBelow(v, k);
  }

  /** A renamed file reads under its new name as it did under the old one, which is then
      free; without a file of the old name nothing changes. */
  lemma RenameReads(v: Volume, o: Key, n: Key)
    ensures var w := Apply(v, Rename(o, n));
            && (Renamed(v, o, n).Some? <==> ReadOf(v, o).Some?)
            && if o in v.files then
                 && ReadOf(w, n) == ReadOf(v, o) && (o != n ==> ReadOf(w, o) == None)
                 && ReadsElsewhere(v, w, o, n) && DirsAbove(v, w, n)
               else w == v
  {
    var w := Apply(v, Rename(o, n));
    forall d ensures o in v.files ==> (d in w.dirs <==> d in v.dirs || (d != [] && d < n)) {
      WithParentsAre(n, d);
    }
  }

  /** Some operation wrote these bytes. */
  ghost predicate WasWritten(ops: seq<Op>, data: Bytes) {
    exists op | op in ops :: (op.Write? || op.WriteExcl?) && op.data == data
  }

  /** Over every history, a file holds bytes that some operation wrote. */
  lemma {:induction false} BytesWereWritten(ops: seq<Op>, k: Key)
    requires k in ApplyAll(ops).files
    ensures WasWritten(ops, ApplyAll(ops).files[k])
  {
    var before, op := ops[..|ops| - 1], ops[|ops| - 1];
    assert forall x :: x in before ==> x in ops;
    var v, w := ApplyAll(before), ApplyAll(ops);
    if k in v.files && v.files[k] == w.files[k] {
      BytesWereWritten(before, k);
    } else if op.Rename? {
      BytesWereWritten(before, op.o);
    }
  }

  // --- What is listed and looked up -----------------------------------------------------------

  /** Looking a path up finds the root, and whatever holds the name: a file first, with
      the length of its bytes, else a directory; named by its last segment. */
  lemma StatAnswers(v: Volume, k: Key)
    ensures var r := InfoOf(v, k);
            && (r.Some? <==> k == [] || Occupied(v, k))
            && (r.Some? ==> (r.value.isDir <==> k == [] || ReadOf(v, k) == None))
            && (r.Some? ==> r.value.size == if r.value.isDir then 0 else |ReadOf(v, k).value|)
            && (r.Some? ==> if k == [] then r.value.name == "" else Parent(k) + [r.value.name] == k)
  {
  }

  /** In every volume a history can reach, a directory lists exactly the entries directly
      in it, and none as what it is not. */
  lemma ListsItsEntries(v: Volume, k: Key, seen: Listing)
    requires Closed(v) && IsListing(v, k, Some(seen))
    ensures forall n :: n in seen <==> Occupied(v, k + [n])
    ensures forall n | n in seen :: if seen[n] then k + [n] in v.dirs else k + [n] in v.files
  {
    forall n ensures n in seen <==> Occupied(v, k + [n]) {
      if n in seen {
        var c :| Occupied(v, c) && Beneath(k, c) && c[|k|] == n;
        HoldsStart(v, k, c);
      }
      if Occupied(v, k + [n]) {
        assert Beneath(k, k + [n]) && (k + [n])[|k|] == n;
      }
    }
    forall n | n in seen && seen[n] ensures k + [n] in v.dirs {
      var child := k + [n];
      assert MayBeDir(v, child);
      if c :| Occupied(v, c) && Beneath(child, c) {
        AboveIsDir(v, c, |child|);
        assert c[..|child|] == child;
      }
    }
  }

  /** Where something lies below k, so does an entry directly in it. */
  lemma HoldsStart(v: Volume, k: Key, c: Key)
    requires Closed(v) && Occupied(v, c) && Beneath(k, c)
    ensures Occupied(v, k + [c[|k|]])
  {
    assert c[..|k| + 1] == k + [c[|k|]];
    if |c| > |k| + 1 {
      AboveIsDir(v, c, |k| + 1);
    } else {
      assert c == k + [c[|k|]];
    }
  }

  // --- The round trip --------------------------------------------------------------------

  /** No file hides behind an empty directory of the same name. */
  ghost predicate NoEmptyDirFile(v: Volume) {
    forall k | k in v.files :: k !in Childless(v)
  }

  /** In a closed volume everything above an entry is a directory. */
  lemma {:induction false} AboveIsDir(v: Volume, k: Key, i: nat)
    requires Closed(v) && (k in v.files || k in v.dirs) && 1 <= i < |k|
    ensures k[..i] in v.dirs
    decreases |k| - i
  {
    if i == |k| - 1 {
      assert k[..i] == Parent(k);
    } else {
      AboveIsDir(v, k, i + 1);
      assert Parent(k[..i + 1]) == k[..i];
    }
  }

  lemma EntryDirsInside(v: Volume, k: Key, d: Key)
    requires Closed(v) && k in Snapshot(v) && d in EntryDirs(k, Snapshot(v)[k])
    ensures d in v.dirs
  {
    if Snapshot(v)[k].Some? {
      var i :| 1 <= i <= |Parent(k)| && d == Parent(k)[..i];
      assert d == k[..i];
      AboveIsDir(v, k, i);
    } else {
      var i :| 1 <= i <= |k| && d == k[..i];
      if i < |k| {
        AboveIsDir(v, k, i);
      } else {
        assert d == k;
      }
    }
  }

  /** The directories at or below d. */
  ghost function DirsFrom(v: Volume, d: Key): set<Key> {
    set x | x in v.dirs && d <= x
  }

  /** Some entry of the snapshot brings back every directory of a closed volume. */
  lemma {:induction false} DirIsSeeded(v: Volume, d: Key)
    requires Closed(v) && d in v.dirs
    ensures exists k :: k in Snapshot(v) && d in EntryDirs(k, Snapshot(v)[k])
    decreases DirsFrom(v, d)
  {
    if d in Childless(v) {
      assert d in EntryDirs(d, Snapshot(v)[d]) by { assert d[..|d|] == d; }
    } else if exists c :: c in v.files && |c| > 1 && Parent(c) == d {
      var c :| c in v.files && |c| > 1 && Parent(c) == d;
      assert d == c[..|d|] && d == Parent(c)[..|d|];
      assert c in Snapshot(v) && d in EntryDirs(c, Snapshot(v)[c]);
    } else {
      var c :| c in v.dirs && |c| > 1 && Parent(c) == d;
      assert d !in DirsFrom(v, c) && d in DirsFrom(v, d) && DirsFrom(v, c) <= DirsFrom(v, d);
      DirIsSeeded(v, c);
      var k :| k in Snapshot(v) && c in EntryDirs(k, Snapshot(v)[k]);
      EntryDirsDownward(k, Snapshot(v)[k], c);
    }
  }

  lemma EntryDirsDownward(k: Key, entry: Option<Bytes>, c: Key)
    requires c in EntryDirs(k, entry) && |c| > 1
    ensures Parent(c) in EntryDirs(k, entry)
  {
    if entry.Some? {
      ParentsClosed(Parent(k), c);
    } else {
      ParentsClosed(k, c);
    }
  }

  lemma SeededDirs(v: Volume)
    requires Closed(v)
    ensures Seeded(Snapshot(v)).dirs == v.dirs
  {
    var vol := Snapshot(v);
    forall d | d in Seeded(vol).dirs ensures d in v.dirs {
      var k :| k in vol && d in EntryDirs(k, vol[k]);
      EntryDirsInside(v, k, d);
    }
    forall d | d in v.dirs ensures d in Seeded(vol).dirs {
      DirIsSeeded(v, d);
    }
  }

  /** Seeding a new volume from a snapshot rebuilds exactly the same files and
      directories, except that a file sharing its name with an empty directory is lost;
      so it does exactly when there is no such file. */
  lemma SnapshotRoundTrip(v: Volume)
    requires Closed(v)
    ensures Seeded(Snapshot(v)) == v <==> NoEmptyDirFile(v)
    ensures Seeded(Snapshot(v)).dirs == v.dirs
  {
    SeededDirs(v);
    hide EntryDirs, WithChild;
    var vol := Snapshot(v);
    if NoEmptyDirFile(v) {
      assert Seeded(vol).files == v.files;
    } else {
      var k :| k in v.files && k in Childless(v);
      assert vol[k] == None && k !in Seeded(vol).files;
    }
  }

  /** No path is both a file and a directory. */
  ghost predicate Disjoint(v: Volume) {
    forall k | k in v.files :: k !in v.dirs
  }

  /** A volume an operation history can reach comes back from its snapshot exactly when
      no file shares its path with an empty directory. */
  lemma HistoryRoundTrip(ops: seq<Op>)
    ensures Seeded(Snapshot(ApplyAll(ops))) == ApplyAll(ops) <==> NoEmptyDirFile(ApplyAll(ops))
    ensures Disjoint(ApplyAll(ops)) ==> NoEmptyDirFile(ApplyAll(ops))
  {
    HistoryClosed(ops);
    SnapshotRoundTrip(ApplyAll(ops));
  }

  /** A file written where a directory is then made is lost in the snapshot. */
  lemma HistoryLosesFile()
    ensures var v := ApplyAll([Write(["a"], "x"), Mkdir(["a"])]);
            && ["a"] in v.files && Snapshot(v)[["a"]] == None
            && ["a"] !in Seeded(Snapshot(v)).files && Seeded(Snapshot(v)) != v
  {
    var ops := [Write(["a"], "x"), Mkdir(["a"])];
    assert ops[..1] == [Write(["a"], "x")] && ops[..1][..0] == [];
    assert ApplyAll(ops[..1]) == Apply(EMPTY, Write(["a"], "x"));
    var v := ApplyAll(ops);
    assert v == MadeDir(Written(EMPTY, ["a"], "x"), ["a"]);
    assert ["a"][..1] == ["a"];
    assert ["a"] in WithParents(["a"]);
    assert WithChild(v) == {} by {
      assert forall d | d in v.dirs :: |d| == 1;
      assert forall f | f in v.files :: |f| == 1;
    }
    assert ["a"] in Childless(v);
  }
}
