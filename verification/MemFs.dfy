/** The in-memory filesystem: a map of files and a set of directories, every parent of
    an entry being a directory, and the snapshot another volume can be seeded from. */
module MemFs {
  import opened Options
  import opened PathKeys

  type Bytes = string

  datatype Volume = Volume(files: map<Key, Bytes>, dirs: set<Key>)

  const EMPTY := Volume(map[], {})

  function Parent(k: Key): Key
    requires k != []
  {
    k[..|k| - 1]
  }

  /** A key and every directory above it but the root. */
  ghost function WithParents(k: Key): set<Key> {
    set i | 1 <= i <= |k| :: k[..i]
  }

  /** The directories a file needs above it. */
  ghost function ParentsOf(k: Key): set<Key> {
    if k == [] then {} else WithParents(Parent(k))
  }

  // --- What each operation makes of a volume ------------------------------------------

  ghost function Written(v: Volume, k: Key, data: Bytes): Volume {
    Volume(v.files[k := data], v.dirs + ParentsOf(k))
  }

  ghost function MadeDir(v: Volume, k: Key): Volume {
    v.(dirs := v.dirs + WithParents(k))
  }

  ghost predicate Occupied(v: Volume, k: Key) {
    k in v.files || k in v.dirs
  }

  /** p lies below k, however deep. */
  predicate Beneath(k: Key, p: Key) {
    k < p
  }

  /** Nothing lies below k. */
  ghost predicate IsEmptyDir(v: Volume, k: Key) {
    && (forall f | f in v.files :: !Beneath(k, f))
    && (forall d | d in v.dirs :: !Beneath(k, d))
  }

  /** A file goes first, then an empty directory; anything else is an error. */
  ghost function Removed(v: Volume, k: Key): Option<Volume> {
    if k in v.files then Some(v.(files := v.files - {k}))
    else if k in v.dirs && IsEmptyDir(v, k) then Some(v.(dirs := v.dirs - {k}))
    else None
  }

  ghost function Renamed(v: Volume, o: Key, n: Key): Option<Volume> {
    if o !in v.files then None
    else Some(Volume((v.files - {o})[n := v.files[o]], v.dirs + ParentsOf(n)))
  }

  // --- What reading answers -------------------------------------------------------------

  datatype Info = Info(name: string, size: nat, isDir: bool)

  /** Names, and whether each is reported as a directory. */
  type Listing = map<string, bool>

  ghost function InfoOf(v: Volume, k: Key): Option<Info> {
    if k == [] then Some(Info("", 0, true))
    else if k in v.files then Some(Info(k[|k| - 1], |v.files[k]|, false))
    else if k in v.dirs then Some(Info(k[|k| - 1], 0, true))
    else None
  }

  /** The names that lead from k to these keys. */
  ghost function NamesIn(keys: set<Key>, k: Key): set<string> {
    set c | c in keys && Beneath(k, c) :: c[|k|]
  }

  /** The names of everything below k, each by its first segment. */
  ghost function NamesBelow(v: Volume, k: Key): set<string> {
    NamesIn(v.files.Keys, k) + NamesIn(v.dirs, k)
  }

  ghost predicate HasFileBelow(v: Volume, c: Key) {
    exists f :: f in v.files && Beneath(c, f)
  }

  ghost predicate HasDirBelow(v: Volume, c: Key) {
    exists d :: d in v.dirs && Beneath(c, d)
  }

  /** A name may be reported as a directory when a file lies below it, or when it is no
      file itself and is a directory or has one below it. */
  ghost predicate MayBeDir(v: Volume, c: Key) {
    HasFileBelow(v, c) || (c !in v.files && (c in v.dirs || HasDirBelow(v, c)))
  }

  /** A listing of k: every name below it once, reported as a file only if it is one, as
      a directory only if it may be. A file with a file below it may be reported either
      way, depending on which of the two is met first. */
  ghost predicate IsListing(v: Volume, k: Key, r: Option<Listing>) {
    if k != [] && k !in v.dirs then r == None
    else r.Some? && r.value.Keys == NamesBelow(v, k) && IsFair(v, k, r.value)
  }

  ghost predicate IsFair(v: Volume, k: Key, seen: Listing) {
    forall n | n in seen :: if seen[n] then MayBeDir(v, k + [n]) else k + [n] in v.files
  }

  lemma NamesInStep(keys: set<Key>, k: Key, c: Key)
    ensures NamesIn(keys + {c}, k) == if Beneath(k, c) then NamesIn(keys, k) + {c[|k|]} else NamesIn(keys, k)
  {
  }

  /** What a file below k says of its name. */
  lemma FairFile(v: Volume, k: Key, f: Key)
    requires f in v.files && Beneath(k, f)
    ensures if |f| > |k| + 1 then MayBeDir(v, k + [f[|k|]]) else k + [f[|k|]] in v.files
  {
    var child := k + [f[|k|]];
    assert child == f[..|k| + 1];
    if |f| > |k| + 1 {
      assert Beneath(child, f);
    } else {
      assert child == f;
    }
  }

  /** What a directory below k says of a name no file has. */
  lemma FairDir(v: Volume, k: Key, d: Key)
    requires d in v.dirs && Beneath(k, d) && d[|k|] !in NamesIn(v.files.Keys, k)
    ensures MayBeDir(v, k + [d[|k|]])
  {
    var child := k + [d[|k|]];
    assert child == d[..|k| + 1];
    assert Beneath(k, child) && child[|k|] == d[|k|];
    if |d| > |k| + 1 {
      assert Beneath(child, d);
    } else {
      assert child == d;
    }
  }

  /** Every entry's parent is a directory, and the root is not listed as one. */
  ghost predicate Closed(v: Volume) {
    && (forall k | k in v.files && |k| > 1 :: Parent(k) in v.dirs)
    && (forall k | k in v.dirs && |k| > 1 :: Parent(k) in v.dirs)
    && [] !in v.dirs
  }

  // --- The class ---------------------------------------------------------------------------

  class MemFS {
    const cwd: Key
    var files: map<Key, Bytes>
    var dirs: set<Key>

    ghost function Contents(): Volume
      reads this
    {
      Volume(files, dirs)
    }

    constructor (cwd: Key)
      ensures Contents() == EMPTY && this.cwd == cwd
    {
      this.cwd := cwd;
      files, dirs := map[], {};
    }

    /** The canonical key of a path, relative paths taken from the working directory. */
    method MemClean(p: string) returns (k: Key)
      ensures k == Clean(cwd, p)
    {
      k := if p != "" && p[0] == SEPARATOR then [] else cwd;
      ghost var start := k;
      var parts := Split(p);
      for i := 0 to |parts|
        invariant ResolveAll(start, parts) == ResolveAll(k, parts[i..])
      {
        var part := parts[i];
        assert parts[i..][1..] == parts[i + 1..];
        if part == "" || part == "." {
        } else if part == ".." {
          if |k| > 0 {
            k := k[..|k| - 1];
          }
        } else {
          k := k + [part];
        }
      }
    }

    method MarkDirs(k: Key)
      modifies this`dirs
      ensures dirs == old(dirs) + WithParents(k)
    {
      for i := 0 to |k|
        invariant dirs == old(dirs) + WithParents(k[..i])
      {
        WithParentsStep(k, i);
        dirs := dirs + {k[..i + 1]};
      }
      assert k[..|k|] == k;
    }

    method WriteLocked(k: Key, data: Bytes)
      modifies this
      ensures Contents() == Written(old(Contents()), k, data)
    {
      files := files[k := data];
      if |k| > 1 {
        MarkDirs(k[..|k| - 1]);
      }
    }

    method WriteFile(p: string, data: Bytes)
      modifies this
      ensures Contents() == Written(old(Contents()), Clean(cwd, p), data)
    {
      var k := MemClean(p);
      WriteLocked(k, data);
    }

    /** Fails rather than replace a file or take a directory's name. */
    method WriteFileExcl(p: string, data: Bytes) returns (ok: bool)
      modifies this
      ensures ok == !Occupied(old(Contents()), Clean(cwd, p))
      ensures Contents() == if ok then Written(old(Contents()), Clean(cwd, p), data) else old(Contents())
    {
      var k := MemClean(p);
      if k in files || k in dirs {
        return false;
      }
      WriteLocked(k, data);
      ok := true;
    }

    method ReadFile(p: string) returns (r: Option<Bytes>)
      ensures r == var k := Clean(cwd, p); if k in files then Some(files[k]) else None
    {
      var k := MemClean(p);
      r := if k in files then Some(files[k]) else None;
    }

    method Exists(p: string) returns (found: bool)
      ensures found == (Clean(cwd, p) == [] || Occupied(Contents(), Clean(cwd, p)))
    {
      var k := MemClean(p);
      found := k == [] || k in files || k in dirs;
    }

    method Stat(p: string) returns (r: Option<Info>)
      ensures r == InfoOf(Contents(), Clean(cwd, p))
    {
      var k := MemClean(p);
      if k == [] {
        return Some(Info("", 0, true));
      }
      if k in files {
        return Some(Info(k[|k| - 1], |files[k]|, false));
      }
      if k in dirs {
        return Some(Info(k[|k| - 1], 0, true));
      }
      r := None;
    }

    method ReadDir(p: string) returns (r: Option<Listing>)
      ensures IsListing(Contents(), Clean(cwd, p), r)
    {
      var k := MemClean(p);
      r := ReadDirAt(k);
    }

    /** The listing of a directory given by its key. */
    method ReadDirAt(k: Key) returns (r: Option<Listing>)
      ensures IsListing(Contents(), k, r)
    {
      if k != [] && k !in dirs {
        return None;
      }
      hide Seen;
      ghost var v := Contents();
      var seen: Listing := map[];
      NothingSeen(v, k);
      var rest := files.Keys;
      ghost var done: set<Key> := {};
      while rest != {}
        invariant rest <= files.Keys && done == files.Keys - rest
        invariant Seen(v, k, done, {}, seen)
      {
        var f :| f in rest;
        SeeFile(v, k, done, seen, f);
        if Beneath(k, f) {
          var name := f[|k|];
          var isDir := |f| > |k| + 1;
          if name !in seen {
            seen := seen[name := isDir];
          }
        }
        rest, done := rest - {f}, done + {f};
      }
      var left := dirs;
      ghost var doneDirs: set<Key> := {};
      while left != {}
        invariant left <= dirs && doneDirs == dirs - left
        invariant Seen(v, k, files.Keys, doneDirs, seen)
      {
        var d :| d in left;
        SeeDir(v, k, doneDirs, seen, d);
        if Beneath(k, d) {
          var name := d[|k|];
          if name !in seen {
            seen := seen[name := true];
          }
        }
        left, doneDirs := left - {d}, doneDirs + {d};
      }
      AllSeen(v, k, seen);
      r := Some(seen);
    }

    method MkdirAll(p: string)
      modifies this
      ensures Contents() == MadeDir(old(Contents()), Clean(cwd, p))
    {
      var k := MemClean(p);
      if k != [] {
        MarkDirs(k);
      }
    }

    method Remove(p: string) returns (ok: bool)
      modifies this
      ensures var r := Removed(old(Contents()), Clean(cwd, p));
              ok == r.Some? && Contents() == if ok then r.value else old(Contents())
    {
      var k := MemClean(p);
      if k in files {
        files := files - {k};
        return true;
      }
      if k in dirs {
        var left := files.Keys;
        while left != {}
          invariant left <= files.Keys
          invariant forall f | f in files && f !in left :: !Beneath(k, f)
        {
          var f :| f in left;
          if Beneath(k, f) {
            return false;
          }
          left := left - {f};
        }
        var rest := dirs;
        while rest != {}
          invariant rest <= dirs
          invariant forall d | d in dirs && d !in rest :: !Beneath(k, d)
        {
          var d :| d in rest;
          if d != k && Beneath(k, d) {
            return false;
          }
          rest := rest - {d};
        }
        dirs := dirs - {k};
        return true;
      }
      ok := false;
    }

    method Rename(oldPath: string, newPath: string) returns (ok: bool)
      modifies this
      ensures var r := Renamed(old(Contents()), Clean(cwd, oldPath), Clean(cwd, newPath));
              ok == r.Some? && Contents() == if ok then r.value else old(Contents())
    {
      var o := MemClean(oldPath);
      var n := MemClean(newPath);
      if o !in files {
        return false;
      }
      var b := files[o];
      files := files - {o};
      files := files[n := b];
      if |n| > 1 {
        MarkDirs(n[..|n| - 1]);
      }
      ok := true;
    }

    /** A snapshot: every file, and an absent value for every childless directory. */
    method Vol() returns (out: map<Key, Option<Bytes>>)
      ensures out == Snapshot(Contents())
    {
      out := map k | k in files :: Some(files[k]);
      var hasChild: set<Key> := set k | k in files && |k| > 1 :: Parent(k);
      hasChild := hasChild + set k | k in dirs && |k| > 1 :: Parent(k);
      var rest := dirs;
      ghost var empties: set<Key> := {};
      assert out == SnapshotOf(files, {});
      while rest != {}
        invariant rest <= dirs
        invariant empties == set d | d in dirs && d !in rest && d != [] && d !in hasChild
        invariant out == SnapshotOf(files, empties)
      {
        var k :| k in rest;
        if k != [] && k !in hasChild {
          SnapshotStep(files, empties, k);
          out := out[k := None];
          empties := empties + {k};
        }
        rest := rest - {k};
      }
      assert hasChild == WithChild(Contents());
      assert empties == Childless(Contents());
    }
  }

  /** A listing of k under way: the names from some files and directories, reported as
      they may be. */
  ghost predicate Seen(v: Volume, k: Key, fromFiles: set<Key>, fromDirs: set<Key>, seen: Listing) {
    seen.Keys == NamesIn(fromFiles, k) + NamesIn(fromDirs, k) && IsFair(v, k, seen)
  }

  lemma NothingSeen(v: Volume, k: Key)
    ensures Seen(v, k, {}, {}, map[])
  {
  }

  lemma AllSeen(v: Volume, k: Key, seen: Listing)
    requires Seen(v, k, v.files.Keys, v.dirs, seen)
    ensures seen.Keys == NamesBelow(v, k) && IsFair(v, k, seen)
  {
  }

  lemma SeeFile(v: Volume, k: Key, fromFiles: set<Key>, seen: Listing, f: Key)
    requires Seen(v, k, fromFiles, {}, seen) && f in v.files
    ensures var more := fromFiles + {f};
            if !Beneath(k, f) then Seen(v, k, more, {}, seen)
            else Seen(v, k, more, {}, if f[|k|] in seen then seen else seen[f[|k|] := |f| > |k| + 1])
  {
    NamesInStep(fromFiles, k, f);
    if Beneath(k, f) {
      FairFile(v, k, f);
    }
    hide NamesIn, MayBeDir;
  }

  lemma SeeDir(v: Volume, k: Key, fromDirs: set<Key>, seen: Listing, d: Key)
    requires Seen(v, k, v.files.Keys, fromDirs, seen) && d in v.dirs
    ensures var more := fromDirs + {d};
            if !Beneath(k, d) then Seen(v, k, v.files.Keys, more, seen)
            else Seen(v, k, v.files.Keys, more, if d[|k|] in seen then seen else seen[d[|k|] := true])
  {
    NamesInStep(fromDirs, k, d);
    if Beneath(k, d) && d[|k|] !in seen {
      FairDir(v, k, d);
    }
    hide NamesIn, MayBeDir;
  }

  lemma SnapshotStep(files: map<Key, Bytes>, empties: set<Key>, k: Key)
    ensures SnapshotOf(files, empties)[k := None] == SnapshotOf(files, empties + {k})
  {
  }

  lemma WithParentsStep(k: Key, i: nat)
    requires i < |k|
    ensures WithParents(k[..i + 1]) == WithParents(k[..i]) + {k[..i + 1]}
  {
    var longer, shorter := k[..i + 1], k[..i];
    assert forall j | 1 <= j <= i :: longer[..j] == shorter[..j];
    assert longer[..i + 1] == longer;
  }

  // --- Snapshots and seeding --------------------------------------------------------------------

  /** The directories with an entry directly below them. */
  ghost function WithChild(v: Volume): set<Key> {
    (set k | k in v.files && |k| > 1 :: Parent(k)) + (set k | k in v.dirs && |k| > 1 :: Parent(k))
  }

  ghost function Childless(v: Volume): set<Key> {
    set d | d in v.dirs && d != [] && d !in WithChild(v)
  }

  /** The given files, except that a name among the empty directories stands for one. */
  ghost function SnapshotOf(files: map<Key, Bytes>, empties: set<Key>): map<Key, Option<Bytes>> {
    map k | k in files.Keys + empties :: if k in empties then None else Some(files[k])
  }

  ghost function Snapshot(v: Volume): map<Key, Option<Bytes>> {
    SnapshotOf(v.files, Childless(v))
  }

  /** The directories one snapshot entry brings with it. */
  ghost function EntryDirs(k: Key, entry: Option<Bytes>): set<Key> {
    if entry.Some? then ParentsOf(k) else WithParents(k)
  }

  /** What a snapshot seeds: its files, its empty directories and all their parents. */
  ghost function Seeded(vol: map<Key, Option<Bytes>>): Volume {
    Volume(map k | k in vol && vol[k].Some? :: vol[k].value,
           set k, d | k in vol && d in EntryDirs(k, vol[k]) :: d)
  }

  /** Seeding entry by entry, in whatever order the map yields them. */
  method NewSeeded(vol: map<Key, Option<Bytes>>, cwd: Key) returns (mem: MemFS)
    ensures fresh(mem) && mem.cwd == cwd && mem.Contents() == Seeded(vol)
  {
    mem := new MemFS(cwd);
    var rest := vol.Keys;
    ghost var done: map<Key, Option<Bytes>> := map[];
    while rest != {}
      invariant fresh(mem) && mem.cwd == cwd
      invariant rest <= vol.Keys && done == map k | k in vol.Keys - rest :: vol[k]
      invariant mem.Contents() == Seeded(done)
      decreases rest
    {
      var k :| k in rest;
      SeedOne(done, k, vol[k]);
      match vol[k] {
        case None =>
          if k != [] {
            mem.MarkDirs(k);
          }
        case Some(data) =>
          mem.WriteLocked(k, data);
      }
      done := done[k := vol[k]];
      rest := rest - {k};
    }
    assert done == vol;
  }

  lemma SeedOne(done: map<Key, Option<Bytes>>, k: Key, entry: Option<Bytes>)
    requires k !in done
    ensures Seeded(done[k := entry])
         == if entry.Some? then Written(Seeded(done), k, entry.value) else MadeDir(Seeded(done), k)
  {
    var more := done[k := entry];
    forall d ensures d in Seeded(more).dirs <==> d in Seeded(done).dirs || d in EntryDirs(k, entry) {
      if d in EntryDirs(k, entry) {
        assert k in more && d in EntryDirs(k, more[k]);
      }
      if d in Seeded(done).dirs {
        var j :| j in done && d in EntryDirs(j, done[j]);
        assert j in more && d in EntryDirs(j, more[j]);
      }
    }
    hide ParentsOf, WithParents;
    assert Seeded(more).dirs == Seeded(done).dirs + EntryDirs(k, entry);
  }
}
