/** When the walk over a component tree succeeds, which paths it gives out, and that no
    name leads out of its project. */
module BuildLaws {
  import opened PathKeys
  import opened OutPaths
  import opened BuildWalk

  /** Every component is of a known kind and no Folder or File name steps upwards. */
  ghost predicate Sane(n: Node) {
    && n.kind != Unknown
    && (n.kind == Folder || n.kind == File ==> StaysInside(n.name))
    && forall i | 0 <= i < |n.children| :: Sane(n.children[i])
  }

  ghost predicate SaneFrom(n: Node, i: nat) {
    forall j | i <= j < |n.children| :: Sane(n.children[j])
  }

  /** No path twice, and none of them taken. */
  ghost predicate Fresh(paths: seq<string>, taken: set<string>) {
    && (forall i, j | 0 <= i < j < |paths| :: paths[i] != paths[j])
    && (forall i | 0 <= i < |paths| :: paths[i] !in taken)
  }

  ghost function SetOf(paths: seq<string>): set<string> {
    set x | x in paths
  }

  lemma FreshConcat(a: seq<string>, b: seq<string>, taken: set<string>)
    ensures Fresh(a + b, taken) <==> Fresh(a, taken) && Fresh(b, taken + SetOf(a))
    ensures SetOf(a + b) == SetOf(a) + SetOf(b)
  {
    var all := a + b;
    assert forall i | 0 <= i < |a| :: all[i] == a[i];
    assert forall i | 0 <= i < |b| :: all[|a| + i] == b[i];
    if Fresh(all, taken) {
      forall j | 0 <= j < |b| ensures b[j] !in taken + SetOf(a) {
        assert all[|a| + j] !in taken;
      }
      forall i, j | 0 <= i < j < |b| ensures b[i] != b[j] {
        assert all[|a| + i] != all[|a| + j];
      }
    }
  }

  lemma PathsConcat(a: seq<Place>, b: seq<Place>)
    ensures Paths(a + b) == Paths(a) + Paths(b)
  {
    hide FullPath;
  }

  lemma ClaimExactly(p: Progress, path: string, where: string)
    ensures Claim(p, path, where).Going? <==> Fresh([path], p.claims.Keys)
    ensures Claim(p, path, where).Going? ==>
      && Claim(p, path, where).progress.paths == p.paths + [path]
      && Claim(p, path, where).progress.claims.Keys == p.claims.Keys + SetOf([path])
  {
  }

  /** What a walk that gives out these paths does to its progress. */
  ghost predicate GaveOut(p: Progress, q: Progress, paths: seq<string>) {
    && q.paths == p.paths + paths
    && q.claims.Keys == p.claims.Keys + SetOf(paths)
  }

  lemma GaveOutThen(p: Progress, q: Progress, r: Progress, a: seq<string>, b: seq<string>)
    requires GaveOut(p, q, a) && GaveOut(q, r, b)
    ensures GaveOut(p, r, a + b)
  {
    FreshConcat(a, b, {});
    assert p.paths + (a + b) == (p.paths + a) + b;
  }

  lemma SaneNext(n: Node, i: nat)
    requires i < |n.children|
    ensures SaneFrom(n, i) <==> Sane(n.children[i]) && SaneFrom(n, i + 1)
  {
  }

  lemma SaneHere(n: Node)
    ensures Sane(n) <==> n.kind != Unknown && (n.kind == Folder || n.kind == File ==> StaysInside(n.name)) && SaneFrom(n, 0)
  {
  }

  lemma NothingGivenOut(p: Progress, q: Progress)
    requires q.paths == p.paths && q.claims == p.claims
    ensures GaveOut(p, q, []) && Fresh([], p.claims.Keys)
  {
  }

  lemma PlacesFromStep(n: Node, i: nat, out: string, base: Canon, folders: seq<string>)
    requires i <= |n.children|
    ensures PlacesFrom(n, i, out, base, folders)
         == if i == |n.children| then []
            else Places(n.children[i], out, base, folders) + PlacesFrom(n, i + 1, out, base, folders)
  {
    hide Places;
  }

  lemma KidsExactly(n: Node, i: nat, out: string, base: Canon, folders: seq<string>, p: Progress)
    requires i <= |n.children|
    ensures var r, paths := KidsOf(n, i, out, base, folders, p), Paths(PlacesFrom(n, i, out, base, folders));
            && (r.Going? <==> SaneFrom(n, i) && Fresh(paths, p.claims.Keys))
            && (r.Going? ==> GaveOut(p, r.progress, paths))
    decreases n, |n.children| - i
  {
    hide WalkOf, KidsOf, Places, PlacesFrom, Sane, SaneFrom, Fresh, GaveOut, SetOf;
    PlacesFromStep(n, i, out, base, folders);
    if i == |n.children| {
      KidsEnd(n, out, base, folders, p);
      NothingGivenOut(p, p);
      assert SaneFrom(n, i) by { NoKids(n); }
    } else {
      KidsStep(n, i, out, base, folders, p);
      SaneNext(n, i);
      WalkExactly(n.children[i], out, base, folders, p);
      var head, tail := Places(n.children[i], out, base, folders), PlacesFrom(n, i + 1, out, base, folders);
      PathsConcat(head, tail);
      FreshConcat(Paths(head), Paths(tail), p.claims.Keys);
      var r := WalkOf(n.children[i], out, base, folders, p);
      if r.Going? {
        KeysAfter(p, r.progress, Paths(head));
        KidsExactly(n, i + 1, out, base, folders, r.progress);
        if KidsOf(n, i + 1, out, base, folders, r.progress).Going? {
          GaveOutThen(p, r.progress, KidsOf(n, i + 1, out, base, folders, r.progress).progress, Paths(head), Paths(tail));
        }
      }
    }
  }

  lemma NoKids(n: Node)
    ensures SaneFrom(n, |n.children|)
  {
  }

  lemma KeysAfter(p: Progress, q: Progress, paths: seq<string>)
    requires GaveOut(p, q, paths)
    ensures q.claims.Keys == p.claims.Keys + SetOf(paths)
  {
  }

  /** A walk succeeds exactly when every component is of a known kind, no Folder or File
      name steps upwards and no two Files belong at one path; it then gives each File the
      canonical join of its place, in the order of the tree. */
  lemma {:induction false} WalkExactly(n: Node, out: string, base: Canon, folders: seq<string>, p: Progress)
    ensures var r, paths := WalkOf(n, out, base, folders, p), Paths(Places(n, out, base, folders));
            && (r.Going? <==> Sane(n) && Fresh(paths, p.claims.Keys))
            && (r.Going? ==> GaveOut(p, r.progress, paths))
    decreases n, |n.children| + 1
  {
    hide WalkOf, KidsOf, PlacesFrom, Sane, SaneFrom, Fresh, GaveOut, SetOf;
    hide StaysInside, FullPath, ComposeAll, ProjectBase, Text, Claim;
    WalkStep(n, out, base, folders, p);
    SaneHere(n);
    match n.kind
    case Unknown =>
    case Plain => KidsExactly(n, 0, out, base, folders, p);
    case Project =>
      var below := ProjectBase(out, n.folder);
      var q := p.(dirs := p.dirs + [Text(below)]);
      KidsExactly(n, 0, out, below, [], q);
      SameButDirs(p, q, KidsOf(n, 0, out, below, [], q), Paths(PlacesFrom(n, 0, out, below, [])));
    case Folder =>
      var below := folders + [n.name];
      var q := p.(dirs := p.dirs + [Text(ComposeAll(base, below))]);
      KidsExactly(n, 0, out, base, below, q);
      SameButDirs(p, q, KidsOf(n, 0, out, base, below, q), Paths(PlacesFrom(n, 0, out, base, below)));
    case File =>
      var place, rest := Place(base, folders, n.name), PlacesFrom(n, 0, out, base, folders);
      PathsConcat([place], rest);
      FreshConcat(Paths([place]), Paths(rest), p.claims.Keys);
      assert Paths([place]) == [FullPath(place)];
      ClaimExactly(p, FullPath(place), Joined(n.path));
      var r := Claim(p, FullPath(place), Joined(n.path));
      if r.Going? {
        KidsExactly(n, 0, out, base, folders, r.progress);
        var s := KidsOf(n, 0, out, base, folders, r.progress);
        if s.Going? {
          assert GaveOut(p, r.progress, [FullPath(place)]) by { GaveOutOne(p, r.progress, FullPath(place)); }
          GaveOutThen(p, r.progress, s.progress, [FullPath(place)], Paths(rest));
        }
      }
  }

  lemma GaveOutOne(p: Progress, q: Progress, path: string)
    requires q.paths == p.paths + [path] && q.claims.Keys == p.claims.Keys + SetOf([path])
    ensures GaveOut(p, q, [path])
  {
  }

  lemma SameButDirs(p: Progress, q: Progress, r: Outcome, paths: seq<string>)
    requires q == p.(dirs := q.dirs) && (r.Going? ==> GaveOut(q, r.progress, paths))
    ensures r.Going? ==> GaveOut(p, r.progress, paths)
  {
  }

  /** The whole walk: it succeeds exactly for sane trees whose Files belong at pairwise
      distinct paths, and gives every File the path of its place. */
  lemma TreeWalk(root: Node, out: string)
    ensures var base := CanonOf(OutputFolder(out));
            var r, paths := WalkOf(root, out, base, [], NOTHING_DONE), Paths(Places(root, out, base, []));
            && (r.Going? <==> Sane(root) && forall i, j | 0 <= i < j < |paths| :: paths[i] != paths[j])
            && (r.Going? ==> r.progress.paths == paths)
  {
    hide WalkOf, Places, Sane, FullPath, CanonOf;
    WalkExactly(root, out, CanonOf(OutputFolder(out)), [], NOTHING_DONE);
  }

  // --- Failures ----------------------------------------------------------------------------------

  /** How often a path is asked for: by Files, and by claims made before. */
  ghost function Asked(path: string, paths: seq<string>, claims: map<string, string>): nat {
    multiset(paths)[path] + if path in claims then 1 else 0
  }

  lemma KidsClash(n: Node, i: nat, out: string, base: Canon, folders: seq<string>, p: Progress)
    requires i <= |n.children|
    requires KidsOf(n, i, out, base, folders, p).Failed? && KidsOf(n, i, out, base, folders, p).error.DuplicateFile?
    ensures Asked(KidsOf(n, i, out, base, folders, p).error.path, Paths(PlacesFrom(n, i, out, base, folders)), p.claims) >= 2
    decreases n, |n.children| - i
  {
    hide WalkOf, KidsOf, Places, PlacesFrom, FullPath;
    if i == |n.children| {
      KidsEnd(n, out, base, folders, p);
    } else {
      KidsStep(n, i, out, base, folders, p);
      PlacesFromStep(n, i, out, base, folders);
      var head, tail := Places(n.children[i], out, base, folders), PlacesFrom(n, i + 1, out, base, folders);
      PathsConcat(head, tail);
      var r := WalkOf(n.children[i], out, base, folders, p);
      if r.Failed? {
        DuplicateIsReal(n.children[i], out, base, folders, p);
      } else {
        WalkExactly(n.children[i], out, base, folders, p);
        KidsClash(n, i + 1, out, base, folders, r.progress);
      }
    }
  }

  /** A refusal names a path that at least two Files ask for. */
  lemma {:induction false} DuplicateIsReal(n: Node, out: string, base: Canon, folders: seq<string>, p: Progress)
    requires WalkOf(n, out, base, folders, p).Failed? && WalkOf(n, out, base, folders, p).error.DuplicateFile?
    ensures Asked(WalkOf(n, out, base, folders, p).error.path, Paths(Places(n, out, base, folders)), p.claims) >= 2
    decreases n, |n.children| + 1
  {
    hide WalkOf, KidsOf, PlacesFrom, FullPath, StaysInside, ComposeAll, ProjectBase, Text;
    WalkStep(n, out, base, folders, p);
    match n.kind
    case Unknown =>
    case Plain => KidsClash(n, 0, out, base, folders, p);
    case Project =>
      var below := ProjectBase(out, n.folder);
      KidsClash(n, 0, out, below, [], p.(dirs := p.dirs + [Text(below)]));
    case Folder =>
      var below := folders + [n.name];
      KidsClash(n, 0, out, base, below, p.(dirs := p.dirs + [Text(ComposeAll(base, below))]));
    case File =>
      var place, rest := Place(base, folders, n.name), PlacesFrom(n, 0, out, base, folders);
      PathsConcat([place], rest);
      assert Paths([place]) == [FullPath(place)];
      var r := Claim(p, FullPath(place), Joined(n.path));
      if r.Going? {
        KidsClash(n, 0, out, base, folders, r.progress);
      }
  }

  // --- Containment -------------------------------------------------------------------------------

  ghost predicate AllStay(names: seq<string>) {
    forall i | 0 <= i < |names| :: StaysInside(names[i])
  }

  /** Every name of a place stays inside. */
  ghost predicate Tame(p: Place) {
    AllStay(p.folders) && StaysInside(p.name)
  }

  lemma KidsTame(n: Node, i: nat, out: string, base: Canon, folders: seq<string>)
    requires i <= |n.children| && SaneFrom(n, i) && AllStay(folders)
    ensures forall p | p in PlacesFrom(n, i, out, base, folders) :: Tame(p)
    decreases n, |n.children| - i
  {
    hide Places, AllStay, Tame;
    if i < |n.children| {
      PlacesTame(n.children[i], out, base, folders);
      KidsTame(n, i + 1, out, base, folders);
    }
  }

  lemma {:induction false} PlacesTame(n: Node, out: string, base: Canon, folders: seq<string>)
    requires Sane(n) && AllStay(folders)
    ensures forall p | p in Places(n, out, base, folders) :: Tame(p)
    decreases n, |n.children| + 1
  {
    hide PlacesFrom, ProjectBase, StaysInside;
    SaneHere(n);
    match n.kind
    case Project => KidsTame(n, 0, out, ProjectBase(out, n.folder), []);
    case Folder => KidsTame(n, 0, out, base, folders + [n.name]);
    case File => KidsTame(n, 0, out, base, folders);
    case Plain => KidsTame(n, 0, out, base, folders);
    case Unknown =>
  }

  /** In a walk that succeeds no File's path leaves its project's folder. */
  lemma FilesStayInside(root: Node, out: string, p: Place)
    requires WalkOf(root, out, CanonOf(OutputFolder(out)), [], NOTHING_DONE).Going?
    requires p in Places(root, out, CanonOf(OutputFolder(out)), [])
    ensures var c := Compose(ComposeAll(p.base, p.folders), p.name);
            c.rooted == p.base.rooted && p.base.segs <= c.segs
  {
    hide WalkOf, Places, CanonOf, Sane, ComposeAll, Compose;
    TreeWalk(root, out);
    PlacesTame(root, out, CanonOf(OutputFolder(out)), []);
    assert Tame(p);
    AllStayNamed(p.folders, p.name);
    ComposeAllStays(p.base, p.folders + [p.name]);
    ComposeAllSnoc(p.base, p.folders, p.name);
  }

  lemma AllStayNamed(folders: seq<string>, name: string)
    requires AllStay(folders) && StaysInside(name)
    ensures forall i | 0 <= i < |folders + [name]| :: StaysInside((folders + [name])[i])
  {
  }

  /** A File with a plain name lies directly in the folder its Folder asked for. */
  lemma FolderHoldsFile(base: Canon, folders: seq<string>, name: string)
    requires IsPlain(name) && name != ".."
    ensures var c := ComposeAll(base, folders);
            FullPath(Place(base, folders, name))
            == if c.segs != [] then Text(c) + [SEPARATOR] + name
               else if c.rooted then [SEPARATOR] + name
               else name
  {
    var c := ComposeAll(base, folders);
    hide ComposeAll, Compose;
    FwdPlain(name);
    ComposePlain(c, name);
    NamedText(c, name);
    assert EndsWithSeparator([SEPARATOR] + Fwd(name)) == false;
  }

  lemma NamedText(c: Canon, name: string)
    requires IsPlain(name)
    ensures Text(c.(segs := c.segs + [name]))
         == if c.segs != [] then Text(c) + [SEPARATOR] + name
            else if c.rooted then [SEPARATOR] + name
            else name
  {
    hide IsPlain;
    JoinedSnoc(c.segs, name);
    hide Joined;
  }

  lemma {:induction false} JoinedSnoc(names: seq<string>, name: string)
    ensures Joined(names + [name]) == if names == [] then name else Joined(names) + [SEPARATOR] + name
  {
    if |names| == 1 {
      assert names + [name] == [names[0], name];
      assert Joined([names[0], name]) == names[0] + [SEPARATOR] + Joined([name]) by {
        assert [names[0], name][1..] == [name];
      }
    } else if names != [] {
      assert (names + [name])[1..] == names[1..] + [name];
      JoinedSnoc(names[1..], name);
    }
  }

  // --- Where a component belongs -----------------------------------------------------------------

  /** A File's path is the canonical form of its folder's text, the Folders' names and
      its own, joined by separators. */
  lemma PlaceIsJoined(parent: string, folders: seq<string>, name: string)
    requires parent != ""
    ensures var dir := Joined(folders);
            FullPath(Place(CanonOf(parent), folders, name))
            == Canonical(if dir != "" then parent + "/" + dir + "/" + name else parent + "/" + name)
  {
    hide CanonOf, ComposeAll, Compose, Joined, Fwd, Text;
    FileText(parent, folders, name);
    assert [SEPARATOR] == "/";
  }

  /** A Project starts afresh: where its Files belong depends on nothing around it. */
  lemma ProjectStandsAlone(n: Node, out: string, base: Canon, folders: seq<string>, other: Canon, others: seq<string>)
    requires n.kind == Project
    ensures Places(n, out, base, folders) == Places(n, out, other, others)
  {
  }

  /** An absolute Project folder is where it says, a relative one is in the output
      folder, and without one the Project is the output folder. */
  lemma ProjectFolder(out: string, folder: string)
    ensures ProjectBase(out, "") == CanonOf(OutputFolder(out))
    ensures folder != "" && folder[0] == '/' ==> ProjectBase(out, folder) == CanonOf(folder)
    ensures folder != "" && folder[0] != '/' ==> ProjectBase(out, folder) == CanonOf(OutputFolder(out) + "/" + folder)
  {
    if folder != "" && folder[0] != '/' {
      ProjectParent(out, folder, OutputFolder(out) + [SEPARATOR] + folder);
    }
  }

  /** Two ways of naming one folder. */
  ghost predicate SameFolder(base: Canon, folders: seq<string>, other: Canon, others: seq<string>) {
    ComposeAll(base, folders) == ComposeAll(other, others)
  }

  lemma SameFolderBelow(base: Canon, folders: seq<string>, other: Canon, others: seq<string>, name: string)
    requires SameFolder(base, folders, other, others)
    ensures SameFolder(base, folders + [name], other, others + [name])
    ensures FullPath(Place(base, folders, name)) == FullPath(Place(other, others, name))
  {
    ComposeAllSnoc(base, folders, name);
    ComposeAllSnoc(other, others, name);
  }

  /** However a folder was reached, a tree in it has the same Files at the same paths. */
  lemma {:induction false} SameFolderSamePaths(n: Node, out: string, base: Canon, folders: seq<string>, other: Canon, others: seq<string>)
    requires SameFolder(base, folders, other, others)
    ensures Paths(Places(n, out, base, folders)) == Paths(Places(n, out, other, others))
    decreases n, |n.children| + 1
  {
    hide FullPath, SameFolder, Paths, PlacesFrom;
    match n.kind
    case Project =>
    case Folder =>
      SameFolderBelow(base, folders, other, others, n.name);
      KidsSamePaths(n, 0, out, base, folders + [n.name], other, others + [n.name]);
    case File =>
      SameFolderBelow(base, folders, other, others, n.name);
      KidsSamePaths(n, 0, out, base, folders, other, others);
      FirstPath(Place(base, folders, n.name), PlacesFrom(n, 0, out, base, folders));
      FirstPath(Place(other, others, n.name), PlacesFrom(n, 0, out, other, others));
    case _ => KidsSamePaths(n, 0, out, base, folders, other, others);
  }

  lemma FirstPath(p: Place, rest: seq<Place>)
    ensures Paths([p] + rest) == [FullPath(p)] + Paths(rest)
  {
    hide FullPath;
  }

  lemma KidsSamePaths(n: Node, i: nat, out: string, base: Canon, folders: seq<string>, other: Canon, others: seq<string>)
    requires i <= |n.children| && SameFolder(base, folders, other, others)
    ensures Paths(PlacesFrom(n, i, out, base, folders)) == Paths(PlacesFrom(n, i, out, other, others))
    decreases n, |n.children| - i
  {
    hide Places, SameFolder, Paths;
    if i < |n.children| {
      SameFolderSamePaths(n.children[i], out, base, folders, other, others);
      KidsSamePaths(n, i + 1, out, base, folders, other, others);
      PathsConcat(Places(n.children[i], out, base, folders), PlacesFrom(n, i + 1, out, base, folders));
      PathsConcat(Places(n.children[i], out, other, others), PlacesFrom(n, i + 1, out, other, others));
    }
  }

  /** One Folder in another is one Folder named by both, under either separator. */
  lemma NestedFolders(n: Node, out: string, base: Canon, folders: seq<string>, a: string, b: string)
    ensures Paths(Places(n, out, base, folders + [a, b])) == Paths(Places(n, out, base, folders + [a + "/" + b]))
    ensures Paths(Places(n, out, base, folders + [a, b])) == Paths(Places(n, out, base, folders + [a + "\\" + b]))
  {
    hide Compose, ComposeAll, Places, Paths;
    SeparatorsAreAlike(ComposeAll(base, folders), a, b);
    ComposeAllSnoc(base, folders, a);
    ComposeAllSnoc(base, folders + [a], b);
    ComposeAllSnoc(base, folders, a + "/" + b);
    ComposeAllSnoc(base, folders, a + "\\" + b);
    assert folders + [a] + [b] == folders + [a, b];
    SameFolderSamePaths(n, out, base, folders + [a, b], base, folders + [a + "/" + b]);
    SameFolderSamePaths(n, out, base, folders + [a, b], base, folders + [a + "\\" + b]);
  }
}
