/** The shadow filesystem a check runs a generator against: memory at and below the
    checked folder, a base filesystem for reads elsewhere, memory for every write. */
module Shadow {
  import opened Options
  import opened PathKeys
  import opened MemFs
  import MemFsLaws

  const META := ".jostraca"
  const MODE_BITS: nat := 512

  datatype Request =
    | ReadFile(path: string)
    | Exists(path: string)
    | Stat(path: string)
    | ReadDir(path: string)
    | WriteFile(path: string, data: Bytes)
    | MkdirAll(path: string)
    | Remove(path: string)
    | Rename(path: string, target: string)
    | Chmod(path: string, mode: nat)

  datatype Answer =
    | Data(bytes: Option<Bytes>)
    | Found(found: bool)
    | Stated(info: Option<Info>)
    | Listed(entries: Option<Listing>)
    | Done(ok: bool)

  predicate IsRead(q: Request) {
    q.ReadFile? || q.Exists? || q.Stat? || q.ReadDir?
  }

  /** A filesystem as its readers see it: which answers it may give to which reads. */
  type Base = iset<(Request, Answer)>

  /** The answers a volume may give to a read of k. */
  ghost predicate Answers(v: Volume, k: Key, q: Request, a: Answer) {
    match q
    case ReadFile(_) => a == Data(if k in v.files then Some(v.files[k]) else None)
    case Exists(_) => a == Found(k == [] || Occupied(v, k))
    case Stat(_) => a == Stated(InfoOf(v, k))
    case ReadDir(_) => a.Listed? && IsListing(v, k, a.entries)
    case _ => false
  }

  ghost function BaseOf(v: Volume, cwd: Key): Base {
    iset q, a | IsRead(q) && Answers(v, Clean(cwd, q.path), q, a) :: (q, a)
  }

  /** What the code takes for at or below root: below "/" it finds only "/" itself. */
  predicate Under(root: Key, k: Key) {
    k == root || (root != [] && root < k)
  }

  /** The shadow's own state: the memory volume and the modes a run asked for. */
  datatype State = State(mem: Volume, modes: map<Key, nat>)

  const START := State(EMPTY, map[])

  ghost function Carried(modes: map<Key, nat>, from: Key, to: Key): map<Key, nat> {
    if from in modes then modes[to := modes[from]] - {from} else modes
  }

  ghost function Next(s: State, cwd: Key, q: Request): State {
    match q
    case WriteFile(p, data) => s.(mem := Written(s.mem, Clean(cwd, p), data))
    case MkdirAll(p) => s.(mem := MadeDir(s.mem, Clean(cwd, p)))
    case Remove(p) => s.(mem := Removed(s.mem, Clean(cwd, p)).GetOr(s.mem))
    case Rename(p, t) =>
      var from, to := Clean(cwd, p), Clean(cwd, t);
      State(Renamed(s.mem, from, to).GetOr(s.mem), Carried(s.modes, from, to))
    case Chmod(p, mode) => s.(modes := s.modes[Clean(cwd, p) := mode % MODE_BITS])
    case _ => s
  }

  ghost predicate Succeeds(s: State, cwd: Key, q: Request) {
    && (q.Remove? ==> Removed(s.mem, Clean(cwd, q.path)).Some?)
    && (q.Rename? ==> Renamed(s.mem, Clean(cwd, q.path), Clean(cwd, q.target)).Some?)
  }

  ghost predicate Allowed(base: Base, root: Key, cwd: Key, s: State, q: Request, a: Answer) {
    if !IsRead(q) then a == Done(Succeeds(s, cwd, q))
    else if Under(root, Clean(cwd, q.path)) then Answers(s.mem, Clean(cwd, q.path), q, a)
    else (q, a) in base
  }

  lemma NextClosed(s: State, cwd: Key, q: Request)
    requires Closed(s.mem)
    ensures Closed(Next(s, cwd, q).mem)
  {
    match q
    case WriteFile(p, data) => MemFsLaws.WrittenClosed(s.mem, Clean(cwd, p), data);
    case MkdirAll(p) => MemFsLaws.AddedParentsClosed(s.mem, Clean(cwd, p));
    case Remove(p) =>
      if Removed(s.mem, Clean(cwd, p)).Some? {
        MemFsLaws.RemovedClosed(s.mem, Clean(cwd, p));
      }
    case Rename(p, t) =>
      if Renamed(s.mem, Clean(cwd, p), Clean(cwd, t)).Some? {
        MemFsLaws.RenamedClosed(s.mem, Clean(cwd, p), Clean(cwd, t));
      }
    case _ =>
  }

  // --- What a run can see of its own writes -----------------------------------------------

  /** At or below the root, a generator reads back what it wrote, by whatever text it
      names the path, and nothing else. */
  lemma ReadsOwnWrites(base: Base, root: Key, cwd: Key, s: State, p: string, data: Bytes, q: string, a: Answer)
    requires Under(root, Clean(cwd, p)) && Clean(cwd, q) == Clean(cwd, p)
    ensures Allowed(base, root, cwd, Next(s, cwd, Request.WriteFile(p, data)), Request.ReadFile(q), a)
            <==> a == Data(Some(data))
  {
    hide Clean;
  }

  lemma ParentsAbove(k: Key, d: Key)
    requires d in ParentsOf(k)
    ensures d < k
  {
    MemFsLaws.WithParentsAre(k, d);
  }

  /** A write elsewhere adds nothing at or below the root. */
  lemma WrittenElsewhere(v: Volume, root: Key, k: Key, data: Bytes, c: Key)
    requires !(root <= k) && root <= c
    ensures c in Written(v, k, data).files <==> c in v.files
    ensures c in v.files ==> Written(v, k, data).files[c] == v.files[c]
    ensures c in Written(v, k, data).dirs <==> c in v.dirs
  {
    if c in ParentsOf(k) {
      ParentsAbove(k, c);
      assert false;
    }
  }

  /** What is at or below the root is the same in both volumes. */
  ghost predicate SameFrom(v: Volume, w: Volume, root: Key) {
    && (forall c | root <= c :: c in w.files <==> c in v.files)
    && (forall c | root <= c && c in v.files :: w.files[c] == v.files[c])
    && (forall c | root <= c :: c in w.dirs <==> c in v.dirs)
  }

  lemma SameNames(v: Volume, w: Volume, root: Key, k: Key)
    requires SameFrom(v, w, root) && root <= k
    ensures NamesBelow(w, k) == NamesBelow(v, k)
    ensures forall n :: MayBeDir(w, k + [n]) <==> MayBeDir(v, k + [n])
  {
    assert forall c | Beneath(k, c) :: root <= c;
    forall n ensures MayBeDir(w, k + [n]) <==> MayBeDir(v, k + [n]) {
      assert root <= k + [n];
      assert forall c | Beneath(k + [n], c) :: root <= c;
      SameBelow(v, w, root, k + [n]);
    }
  }

  lemma SameBelow(v: Volume, w: Volume, root: Key, k: Key)
    requires SameFrom(v, w, root) && root <= k
    ensures HasFileBelow(w, k) <==> HasFileBelow(v, k)
    ensures HasDirBelow(w, k) <==> HasDirBelow(v, k)
  {
    assert forall c | Beneath(k, c) :: root <= c;
  }

  lemma SameListing(v: Volume, w: Volume, root: Key, k: Key, r: Option<Listing>)
    requires SameFrom(v, w, root) && root <= k
    ensures IsListing(w, k, r) <==> IsListing(v, k, r)
  {
    SameNames(v, w, root, k);
    assert forall n :: root <= k + [n];
    hide NamesBelow, MayBeDir;
  }

  /** Outside the root a generator does not read back what it wrote: whatever it writes
      there, every read of anything may be answered just as before. */
  lemma WritesElsewhereAreUnseen(base: Base, root: Key, cwd: Key, s: State, p: string, data: Bytes, q: Request, a: Answer)
    requires !(root <= Clean(cwd, p)) && IsRead(q)
    ensures Allowed(base, root, cwd, Next(s, cwd, Request.WriteFile(p, data)), q, a) <==> Allowed(base, root, cwd, s, q, a)
  {
    var k, c := Clean(cwd, p), Clean(cwd, q.path);
    hide Clean;
    var v, w := s.mem, Written(s.mem, k, data);
    forall c | root <= c
      ensures c in w.files <==> c in v.files
      ensures c in v.files ==> w.files[c] == v.files[c]
      ensures c in w.dirs <==> c in v.dirs
    {
      WrittenElsewhere(v, root, k, data, c);
    }
    hide Written;
    if Under(root, c) && q.ReadDir? && a.Listed? {
      SameListing(v, w, root, c, a.entries);
    }
    hide IsListing;
  }

  /** After a rename the mode asked for the old path is asked for the new one, whether or
      not the file moved; no other path's mode changes. */
  lemma ModesMove(s: State, cwd: Key, p: string, t: string, k: Key)
    requires Clean(cwd, p) in s.modes && Clean(cwd, p) != Clean(cwd, t)
    ensures var from, to, modes := Clean(cwd, p), Clean(cwd, t), Next(s, cwd, Request.Rename(p, t)).modes;
            && from !in modes && to in modes && modes[to] == s.modes[from]
            && (k != from && k != to ==> (k in modes <==> k in s.modes) && (k in modes ==> modes[k] == s.modes[k]))
  {
    hide Clean;
  }

  // --- The class -------------------------------------------------------------------------

  class ShadowFS {
    const base: MemFS
    const mem: MemFS
    const root: Key
    var modes: map<Key, nat>

    /** One process, so one working directory; the base is not the memory; and the
        memory's directories are closed under parents. */
    ghost predicate Valid()
      reads mem
    {
      && base != mem && base.cwd == mem.cwd && IsKey(mem.cwd) && IsKey(root)
      && Closed(mem.Contents())
    }

    ghost function Shown(): State
      reads this, mem
    {
      State(mem.Contents(), modes)
    }

    ghost function Beyond(): Base
      reads base
    {
      BaseOf(base.Contents(), base.cwd)
    }

    constructor (base: MemFS, root: Key)
      requires IsKey(base.cwd) && IsKey(root)
      ensures Valid() && fresh(mem) && this.base == base && this.root == root && Shown() == START
    {
      this.base, this.root := base, root;
      modes := map[];
      mem := new MemFS(base.cwd);
    }

    method Resolve(p: string) returns (k: Key)
      requires Valid()
      ensures k == Clean(mem.cwd, p) && IsKey(k) && Clean(mem.cwd, Render(k)) == k
    {
      k := mem.MemClean(p);
      CleanIsKey(mem.cwd, p);
      CleanRendered(mem.cwd, k);
    }

    /** The test on the paths' text. */
    method IsUnder(k: Key) returns (inside: bool)
      requires Valid() && IsKey(k)
      ensures inside == Under(root, k)
    {
      inside := Render(k) == Render(root) || Render(root) + [SEPARATOR] <= Render(k);
      UnderByText(root, k);
    }

    /** Where a read goes, and the path to hand over there. */
    method Pick(p: string) returns (f: MemFS, path: string)
      requires Valid()
      ensures Clean(mem.cwd, path) == Clean(mem.cwd, p)
      ensures f == if Under(root, Clean(mem.cwd, p)) then mem else base
    {
      var k := Resolve(p);
      var inside := IsUnder(k);
      if inside {
        return mem, Render(k);
      }
      return base, p;
    }

    method ReadFile(p: string) returns (r: Option<Bytes>)
      requires Valid()
      ensures Allowed(Beyond(), root, mem.cwd, Shown(), Request.ReadFile(p), Data(r))
    {
      var f, path := Pick(p);
      r := f.ReadFile(path);
    }

    method Exists(p: string) returns (r: bool)
      requires Valid()
      ensures Allowed(Beyond(), root, mem.cwd, Shown(), Request.Exists(p), Found(r))
    {
      var f, path := Pick(p);
      r := f.Exists(path);
    }

    method Stat(p: string) returns (r: Option<Info>)
      requires Valid()
      ensures Allowed(Beyond(), root, mem.cwd, Shown(), Request.Stat(p), Stated(r))
    {
      var f, path := Pick(p);
      r := f.Stat(path);
    }

    method ReadDir(p: string) returns (r: Option<Listing>)
      requires Valid()
      ensures Allowed(Beyond(), root, mem.cwd, Shown(), Request.ReadDir(p), Listed(r))
    {
      hide IsListing;
      var f, path := Pick(p);
      r := f.ReadDir(path);
    }

    method WriteFile(p: string, data: Bytes)
      requires Valid()
      modifies mem
      ensures Shown() == Next(old(Shown()), mem.cwd, Request.WriteFile(p, data))
      ensures Valid()
      ensures base.Contents() == old(base.Contents())
    {
      NextClosed(Shown(), mem.cwd, Request.WriteFile(p, data));
      hide Closed;
      var k := Resolve(p);
      mem.WriteFile(Render(k), data);
    }

    method MkdirAll(p: string)
      requires Valid()
      modifies mem
      ensures Shown() == Next(old(Shown()), mem.cwd, Request.MkdirAll(p))
      ensures Valid()
      ensures base.Contents() == old(base.Contents())
    {
      NextClosed(Shown(), mem.cwd, Request.MkdirAll(p));
      hide Closed;
      var k := Resolve(p);
      mem.MkdirAll(Render(k));
    }

    method Remove(p: string) returns (ok: bool)
      requires Valid()
      modifies mem
      ensures ok == Succeeds(old(Shown()), mem.cwd, Request.Remove(p))
      ensures Shown() == Next(old(Shown()), mem.cwd, Request.Remove(p))
      ensures Valid()
      ensures base.Contents() == old(base.Contents())
    {
      NextClosed(Shown(), mem.cwd, Request.Remove(p));
      hide Closed;
      var k := Resolve(p);
      ok := mem.Remove(Render(k));
    }

    /** The record of a mode moves first, whether or not the rename then succeeds. */
    method Rename(p: string, t: string) returns (ok: bool)
      requires Valid()
      modifies mem, this`modes
      ensures ok == Succeeds(old(Shown()), mem.cwd, Request.Rename(p, t))
      ensures Shown() == Next(old(Shown()), mem.cwd, Request.Rename(p, t))
      ensures Valid()
      ensures base.Contents() == old(base.Contents())
    {
      NextClosed(Shown(), mem.cwd, Request.Rename(p, t));
      hide Closed;
      var from := Resolve(p);
      var to := Resolve(t);
      if from in modes {
        modes := modes[to := modes[from]];
        modes := modes - {from};
      }
      ok := mem.Rename(Render(from), Render(to));
    }

    /** Recorded, not applied. */
    method Chmod(p: string, mode: nat)
      requires Valid()
      modifies this`modes
      ensures Shown() == Next(old(Shown()), mem.cwd, Request.Chmod(p, mode))
      ensures Valid()
    {
      var k := Resolve(p);
      modes := modes[k := mode % MODE_BITS];
    }

    /** What the run produced, by path relative to the root. */
    method Generated() returns (out: map<Key, Bytes>)
      requires Valid()
      ensures MayGenerate(mem.Contents(), root, out)
    {
      hide NoDeeper, Closed, Reaches;
      DepthExists(mem.Contents(), root);
      ghost var depth :| NoDeeper(mem.Contents(), depth) && |root| <= depth;
      assert root == root + [];
      ghost var dirs: set<Key>;
      out, dirs := Walk(root, [], map[], depth);
      WalkedAll(mem.Contents(), root, dirs, out);
    }

    /** The walk below one directory, added to what is found already. The ghost result
        is the set of files that were reported as directories on the way. */
    method Walk(dir: Key, rel: Key, found: map<Key, Bytes>, ghost depth: nat)
      returns (out: map<Key, Bytes>, ghost dirs: set<Key>)
      requires Valid() && dir == root + rel && |dir| <= depth && NoDeeper(mem.Contents(), depth)
      requires Sound(mem.Contents(), root, found)
      ensures Sound(mem.Contents(), root, out) && AreBelow(mem.Contents(), dir, dirs)
      ensures forall r :: r in out <==> r in found || Reaches(mem.Contents(), root, rel, dirs, r)
      decreases depth - |dir|
    {
      hide IsListing, Closed, NoDeeper, Reaches, AreBelow, Sound;
      ghost var v := mem.Contents();
      out, dirs := found, {};
      var entries := mem.ReadDirAt(dir);
      NoneBelow(v, dir);
      if entries == None {
        NothingListed(v, root, rel);
        return;
      }
      var rest := entries.value.Keys;
      while rest != {}
        invariant rest <= entries.value.Keys
        invariant Sound(v, root, out) && AreBelow(v, dir, dirs)
        invariant forall c | c in dirs :: dir < c && c[|dir|] !in rest
        invariant forall r :: r in out <==>
          r in found || (Reaches(v, root, rel, dirs, r) && rel < r && r[|rel|] in entries.value && r[|rel|] !in rest)
      {
        var name :| name in rest;
        var key, full := rel + [name], dir + [name];
        ghost var before, before' := out, dirs;
        if key[0] == META {
          NoneInMeta(v, root, rel, name, dirs);
          rest := rest - {name};
          continue;
        }
        EntryListed(v, dir, entries, name, depth);
        assert full == root + key;
        if entries.value[name] {
          ghost var sub: set<Key>;
          out, sub := Walk(full, key, out, depth);
          dirs := dirs + sub + if full in v.files then {full} else {};
          EntryMayBeDir(v, dir, entries, name);
          WalkedDir(v, root, rel, name, before', sub, dirs);
        } else {
          WalkedFile(v, root, rel, name, dirs);
          assert rel < key && key[|rel|] == name;
          out := out[key := mem.files[full]];
          SoundFile(v, root, before, key);
        }
        rest := rest - {name};
      }
      EverythingListed(v, root, rel, entries, dirs);
    }
  }

  // --- The walk ------------------------------------------------------------------------------------

  /** r names a file below root, outside the tool's own folder. */
  ghost predicate IsClaimed(v: Volume, root: Key, r: Key) {
    r != [] && root + r in v.files && r[0] != META
  }

  ghost predicate Sound(v: Volume, root: Key, out: map<Key, Bytes>) {
    forall r | r in out :: IsClaimed(v, root, r) && out[r] == v.files[root + r]
  }

  /** The files with a file below them: the names a listing may report either way. */
  ghost function Ambiguous(v: Volume): set<Key> {
    set f | f in v.files && HasFileBelow(v, f)
  }

  /** What c is reported as, when the files reported as directories are these. */
  ghost predicate AsDir(v: Volume, dirs: set<Key>, c: Key) {
    c !in v.files || c in dirs
  }

  /** A walk below rel reads the file r: nothing on the way to it is reported as a file,
      and it is not itself reported as a directory. */
  ghost predicate Reaches(v: Volume, root: Key, rel: Key, dirs: set<Key>, r: Key) {
    && IsClaimed(v, root, r) && rel < r && root + r !in dirs
    && forall i | |rel| < i < |r| :: AsDir(v, dirs, root + r[..i])
  }

  /** Ambiguous files below a directory. */
  ghost predicate AreBelow(v: Volume, dir: Key, dirs: set<Key>) {
    dirs <= Ambiguous(v) && forall c | c in dirs :: dir < c
  }

  /** The map of a walk to which these files are reported as directories. */
  ghost function WalkMap(v: Volume, root: Key, dirs: set<Key>): map<Key, Bytes> {
    var all := GeneratedOf(v, root);
    map r | r in all && Reaches(v, root, [], dirs, r) :: all[r]
  }

  /** The maps a walk may answer with: any ambiguous name may be reported either way. */
  ghost predicate MayGenerate(v: Volume, root: Key, out: map<Key, Bytes>) {
    exists dirs :: dirs <= Ambiguous(v) && out == WalkMap(v, root, dirs)
  }

  /** Every claimed file, by its path relative to the root. */
  ghost function GeneratedOf(v: Volume, root: Key): (out: map<Key, Bytes>)
  {
    var below := set k | k in v.files && root < k && k[|root|] != META :: k[|root|..];
    map r | r in below && root + r in v.files :: v.files[root + r]
  }

  lemma GeneratedHas(v: Volume, root: Key, r: Key)
    ensures r in GeneratedOf(v, root) <==> IsClaimed(v, root, r)
    ensures r in GeneratedOf(v, root) ==> GeneratedOf(v, root)[r] == v.files[root + r]
  {
    if IsClaimed(v, root, r) {
      var k := root + r;
      assert k in v.files && root < k && k[|root|] != META && k[|root|..] == r;
    }
    if r in GeneratedOf(v, root) {
      var k :| k in v.files && root < k && k[|root|] != META && k[|root|..] == r;
      assert k == root + r;
    }
  }

  lemma WalkedAll(v: Volume, root: Key, dirs: set<Key>, out: map<Key, Bytes>)
    requires Sound(v, root, out) && AreBelow(v, root, dirs)
    requires forall r :: r in out <==> Reaches(v, root, [], dirs, r)
    ensures MayGenerate(v, root, out)
  {
    hide GeneratedOf;
    forall r ensures r in out <==> r in WalkMap(v, root, dirs) {
      GeneratedHas(v, root, r);
    }
    forall r | r in out ensures out[r] == WalkMap(v, root, dirs)[r] {
      GeneratedHas(v, root, r);
    }
    assert out == WalkMap(v, root, dirs);
  }

  ghost predicate NoDeeper(v: Volume, depth: nat) {
    forall k | k in v.files.Keys + v.dirs :: |k| <= depth
  }

  lemma {:induction false} LongestKey(keys: set<Key>) returns (depth: nat)
    ensures forall k | k in keys :: |k| <= depth
    decreases keys
  {
    if keys == {} {
      depth := 0;
    } else {
      var k :| k in keys;
      var d := LongestKey(keys - {k});
      depth := if |k| <= d then d else |k|;
      assert keys == (keys - {k}) + {k};
    }
  }

  lemma DepthExists(v: Volume, root: Key)
    ensures exists depth: nat :: NoDeeper(v, depth) && |root| <= depth
  {
    var depth := LongestKey(v.files.Keys + v.dirs + {root});
    assert NoDeeper(v, depth) && |root| <= depth;
  }

  /** In a closed volume what has something below it is a directory. */
  lemma BelowDirectory(v: Volume, d: Key, x: Key)
    requires Closed(v) && (x in v.files || x in v.dirs) && d != [] && d < x
    ensures d in v.dirs
  {
    MemFsLaws.AboveIsDir(v, x, |d|);
    assert x[..|d|] == d;
  }

  lemma NoneBelow(v: Volume, dir: Key)
    ensures AreBelow(v, dir, {})
  {
  }

  lemma NothingListed(v: Volume, root: Key, rel: Key)
    requires Closed(v) && IsListing(v, root + rel, None)
    ensures forall r :: !Reaches(v, root, rel, {}, r)
  {
    forall r | IsClaimed(v, root, r) && rel < r ensures false {
      assert root + rel < root + r;
      BelowDirectory(v, root + rel, root + r);
    }
  }

  lemma EntryListed(v: Volume, dir: Key, entries: Option<Listing>, name: string, depth: nat)
    requires IsListing(v, dir, entries) && entries.Some? && name in entries.value && NoDeeper(v, depth)
    ensures if entries.value[name] then |dir| + 1 <= depth else dir + [name] in v.files
  {
    var child := dir + [name];
    assert if entries.value[name] then MayBeDir(v, child) else child in v.files;
    if entries.value[name] && child !in v.files.Keys + v.dirs {
      var x :| x in v.files.Keys + v.dirs && Beneath(child, x);
    }
  }

  lemma EntryMayBeDir(v: Volume, dir: Key, entries: Option<Listing>, name: string)
    requires IsListing(v, dir, entries) && entries.Some? && name in entries.value && entries.value[name]
    ensures MayBeDir(v, dir + [name])
  {
  }

  /** Nothing claimed lies behind the tool's own folder. */
  lemma NoneInMeta(v: Volume, root: Key, rel: Key, name: string, dirs: set<Key>)
    requires (rel + [name])[0] == META
    ensures forall r | rel < r && Reaches(v, root, rel, dirs, r) :: r[|rel|] != name
  {
    forall r | rel < r && r[|rel|] == name ensures r[0] == META {
      assert r[..|rel| + 1] == rel + [name];
    }
  }

  /** Names apart from name see no difference when more is reported below it. */
  lemma OtherNames(v: Volume, root: Key, rel: Key, name: string, dirs: set<Key>, more: set<Key>)
    requires dirs <= more && forall c | c in more - dirs :: root + rel + [name] <= c
    ensures forall r | rel < r && r[|rel|] != name :: Reaches(v, root, rel, dirs, r) <==> Reaches(v, root, rel, more, r)
  {
    forall r | rel < r && r[|rel|] != name ensures Reaches(v, root, rel, dirs, r) <==> Reaches(v, root, rel, more, r) {
      forall i | |rel| < i <= |r| ensures root + r[..i] in dirs <==> root + r[..i] in more {
        if root + r[..i] in more - dirs {
          NameOnTheWay(root, rel, name, r, i);
        }
      }
      assert r[..|r|] == r;
    }
  }

  lemma NameOnTheWay(root: Key, rel: Key, name: string, r: Key, i: nat)
    requires rel < r && |rel| < i <= |r| && root + rel + [name] <= root + r[..i]
    ensures r[|rel|] == name
  {
    assert (root + r[..i])[|root + rel|] == r[|rel|];
    assert (root + rel + [name])[|root + rel|] == name;
  }

  /** An entry reported as a directory leads to what the walk below it reads. */
  lemma WalkedDir(v: Volume, root: Key, rel: Key, name: string, dirs: set<Key>, sub: set<Key>, all: set<Key>)
    requires var dir, full := root + rel, root + rel + [name];
             && AreBelow(v, dir, dirs) && AreBelow(v, full, sub)
             && (forall c | c in dirs :: c[|dir|] != name)
             && all == dirs + sub + (if full in v.files then {full} else {})
             && MayBeDir(v, full)
    ensures AreBelow(v, root + rel, all) && forall c | c in all - dirs :: root + rel < c && c[|root + rel|] == name
    ensures forall r | rel < r && r[|rel|] == name :: Reaches(v, root, rel, all, r) <==> Reaches(v, root, rel + [name], sub, r)
    ensures forall r | rel < r && r[|rel|] != name :: Reaches(v, root, rel, dirs, r) <==> Reaches(v, root, rel, all, r)
    ensures forall r | Reaches(v, root, rel + [name], sub, r) :: rel < r && r[|rel|] == name
  {
    forall r | Reaches(v, root, rel + [name], sub, r) ensures rel < r && r[|rel|] == name {
      assert r[|rel|] == (rel + [name])[|rel|] && r[..|rel|] == (rel + [name])[..|rel|] == rel;
    }
    var dir, full, key := root + rel, root + rel + [name], rel + [name];
    assert full[|dir|] == name && forall c | full <= c :: c[|dir|] == full[|dir|];
    OtherNames(v, root, rel, name, dirs, all);
    forall r | rel < r && r[|rel|] == name ensures Reaches(v, root, rel, all, r) <==> Reaches(v, root, key, sub, r) {
      assert r[..|key|] == key && root + key == full;
      forall i | |key| < i <= |r| ensures root + r[..i] in all <==> root + r[..i] in sub {
        assert full < root + r[..i] && (root + r[..i])[|dir|] == name;
      }
      assert r[..|r|] == r;
      assert AsDir(v, all, full);
    }
  }

  /** An entry reported as a file leads to that file only. */
  lemma WalkedFile(v: Volume, root: Key, rel: Key, name: string, dirs: set<Key>)
    requires var dir, full := root + rel, root + rel + [name];
             AreBelow(v, dir, dirs) && (forall c | c in dirs :: c[|dir|] != name) && full in v.files && (rel + [name])[0] != META
    ensures forall r | rel < r && r[|rel|] == name :: Reaches(v, root, rel, dirs, r) <==> r == rel + [name]
  {
    var dir, full, key := root + rel, root + rel + [name], rel + [name];
    assert full[|dir|] == name && root + key == full;
    assert !AsDir(v, dirs, full);
    forall r | rel < r && r[|rel|] == name ensures Reaches(v, root, rel, dirs, r) <==> r == key {
      assert r[..|key|] == key;
    }
  }

  lemma SoundFile(v: Volume, root: Key, out: map<Key, Bytes>, key: Key)
    requires Sound(v, root, out) && IsClaimed(v, root, key)
    ensures Sound(v, root, out[key := v.files[root + key]])
  {
  }

  lemma EverythingListed(v: Volume, root: Key, rel: Key, entries: Option<Listing>, dirs: set<Key>)
    requires IsListing(v, root + rel, entries) && entries.Some?
    ensures forall r | Reaches(v, root, rel, dirs, r) :: rel < r && r[|rel|] in entries.value
  {
    forall r | Reaches(v, root, rel, dirs, r) ensures rel < r && r[|rel|] in entries.value {
      var k := root + r;
      assert k in v.files && Beneath(root + rel, k) && k[|root + rel|] == r[|rel|];
      assert k[|root + rel|] in NamesBelow(v, root + rel);
    }
  }

  // --- Routing -----------------------------------------------------------------------------------

  /** The string test is the segment test, except at the root directory. */
  lemma UnderByText(root: Key, k: Key)
    requires IsKey(root) && IsKey(k)
    ensures Under(root, k) <==> Render(k) == Render(root) || Render(root) + [SEPARATOR] <= Render(k)
  {
    if Render(k) == Render(root) {
      RenderIsInjective(k, root);
    }
    if root != [] {
      PrefixIsBelow(root, k);
    } else if k != [] {
      assert IsSegment(k[0]);
      RenderFirst(k);
      assert Render(k)[1] == k[0][0];
    }
  }

  // --- Which maps a walk may answer with ------------------------------------------------------------

  /** A listing of k that reports these files as directories. */
  ghost function ReportOf(v: Volume, dirs: set<Key>, k: Key): Listing {
    map n | n in NamesBelow(v, k) :: AsDir(v, dirs, k + [n])
  }

  /** Every choice of ambiguous files to report as directories may be reported. */
  lemma ReportIsListing(v: Volume, dirs: set<Key>, k: Key)
    requires dirs <= Ambiguous(v) && (k == [] || k in v.dirs)
    ensures IsListing(v, k, Some(ReportOf(v, dirs, k)))
  {
    forall n | n in NamesBelow(v, k) ensures k + [n] in v.files || MayBeDir(v, k + [n]) {
      var c :| (c in v.files || c in v.dirs) && Beneath(k, c) && c[|k|] == n;
      assert k + [n] == c[..|k| + 1];
      assert k + [n] != c ==> Beneath(k + [n], c);
    }
    hide NamesBelow, HasFileBelow, HasDirBelow;
    assert IsFair(v, k, ReportOf(v, dirs, k));
  }

  /** No file the generator claims lies below another one. */
  ghost predicate NoneNested(v: Volume, root: Key) {
    forall r, s | IsClaimed(v, root, r) && IsClaimed(v, root, s) :: !(r < s)
  }

  ghost predicate IsSteady(v: Volume, root: Key) {
    forall out | MayGenerate(v, root, out) :: out == GeneratedOf(v, root)
  }

  lemma ReachesAll(v: Volume, root: Key, dirs: set<Key>, r: Key)
    requires NoneNested(v, root) && dirs <= Ambiguous(v) && IsClaimed(v, root, r)
    ensures Reaches(v, root, [], dirs, r)
  {
    forall i | 0 < i < |r| ensures root + r[..i] !in v.files {
      assert !IsClaimed(v, root, r[..i]);
    }
    if root + r in Ambiguous(v) {
      var f :| f in v.files && Beneath(root + r, f);
      assert f == root + f[|root|..] && r < f[|root|..];
      NestedClaim(v, root, r, f);
    }
  }

  lemma NestedClaim(v: Volume, root: Key, r: Key, f: Key)
    requires IsClaimed(v, root, r) && f in v.files && root + r < f
    ensures !NoneNested(v, root)
  {
    var s := f[|root|..];
    assert f == root + s && r < s && s[0] == r[0];
    assert IsClaimed(v, root, s);
  }

  /** The shortest prefix of a claimed path that is a claimed path. */
  lemma {:induction false} TopClaim(v: Volume, root: Key, r: Key) returns (t: Key)
    requires IsClaimed(v, root, r)
    ensures IsClaimed(v, root, t) && t <= r && forall i | 0 < i < |t| :: root + t[..i] !in v.files
    decreases |r|
  {
    if i :| 0 < i < |r| && root + r[..i] in v.files {
      t := TopClaim(v, root, r[..i]);
    } else {
      t := r;
    }
  }

  /** Where claimed paths nest, the walk may answer with two different maps, each of
      them without one of the two files. */
  lemma NestedIsLost(v: Volume, root: Key, r: Key, s: Key) returns (one: map<Key, Bytes>, other: map<Key, Bytes>)
    requires IsClaimed(v, root, r) && IsClaimed(v, root, s) && r < s
    ensures MayGenerate(v, root, one) && MayGenerate(v, root, other) && one != other
    ensures s !in one && r !in other
  {
    one, other := WalkMap(v, root, {}), WalkMap(v, root, Ambiguous(v));
    assert Beneath(root + r, root + s) && root + r in Ambiguous(v);
    assert s[..|r|] == r && !AsDir(v, {}, root + s[..|r|]);
    var t := TopClaim(v, root, r);
    assert Beneath(root + t, root + s) && root + t in Ambiguous(v);
    GeneratedHas(v, root, t);
    assert Reaches(v, root, [], {}, t);
    assert t in one && t !in other;
  }

  /** The walk has one answer, the files claimed, exactly when none of those lies below
      another. */
  lemma SteadyUnlessNested(v: Volume, root: Key)
    ensures IsSteady(v, root) <==> NoneNested(v, root)
  {
    hide Reaches, GeneratedOf, IsClaimed;
    if NoneNested(v, root) {
      forall out | MayGenerate(v, root, out) ensures out == GeneratedOf(v, root) {
        var dirs :| dirs <= Ambiguous(v) && out == WalkMap(v, root, dirs);
        forall r | r in GeneratedOf(v, root) ensures Reaches(v, root, [], dirs, r) {
          GeneratedHas(v, root, r);
          ReachesAll(v, root, dirs, r);
        }
      }
    } else {
      var r, s :| IsClaimed(v, root, r) && IsClaimed(v, root, s) && r < s;
      var one, other := NestedIsLost(v, root, r, s);
    }
  }

  /** A file written below a file: the generator is not refused, and what it is taken to
      have produced is one file or the other. */
  lemma FileBelowFile() returns (one: map<Key, Bytes>, other: map<Key, Bytes>)
    ensures var v := MemFsLaws.ApplyAll([MemFsLaws.Write(["r", "a"], "x"), MemFsLaws.Write(["r", "a", "b"], "y")]);
            && Closed(v) && ["r", "a"] in v.files && ["r", "a", "b"] in v.files
            && MayGenerate(v, ["r"], one) && MayGenerate(v, ["r"], other)
            && ["a", "b"] !in one && ["a"] !in other && one != other
  {
    var first, second := MemFsLaws.Write(["r", "a"], "x"), MemFsLaws.Write(["r", "a", "b"], "y");
    var ops := [first, second];
    MemFsLaws.HistoryClosed(ops);
    hide Closed;
    assert ops[..1] == [first] && ops[..1][..0] == [];
    assert MemFsLaws.ApplyAll(ops[..1]) == MemFsLaws.Apply(EMPTY, first);
    var v := MemFsLaws.ApplyAll(ops);
    assert ["r"] + ["a"] == ["r", "a"] && ["r"] + ["a", "b"] == ["r", "a", "b"];
    one, other := NestedIsLost(v, ["r"], ["a"], ["a", "b"]);
  }
}
