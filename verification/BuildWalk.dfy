/** The walk over a component tree that gives every File its output path, against a pure
    account of where each File belongs. */
module BuildWalk {
  import opened Options
  import opened PathKeys
  import opened OutPaths

  datatype Kind = Project | Folder | File | Plain | Unknown

  /** A component: its kind, its name, a Project's folder, the names leading to it. */
  datatype Node = Node(kind: Kind, name: string, folder: string, path: seq<string>, children: seq<Node>)

  datatype Error =
    | NameTraversal(kind: Kind, name: string)
    | DuplicateFile(path: string, first: string, second: string)
    | MissingOp

  /** Where a File belongs: its nearest Project's folder, the Folders below that, its
      own name. */
  datatype Place = Place(base: Canon, folders: seq<string>, name: string)

  /** The output folder, when none is given the working directory. */
  function OutputFolder(out: string): string {
    if out == "" then "." else out
  }

  function ProjectBase(out: string, folder: string): Canon {
    if folder == "" then CanonOf(OutputFolder(out))
    else if folder[0] == SEPARATOR then CanonOf(folder)
    else Compose(CanonOf(OutputFolder(out)), folder)
  }

  /** The canonical join of a place, keeping a trailing separator. */
  function FullPath(p: Place): string {
    Ended(Text(Compose(ComposeAll(p.base, p.folders), p.name)), EndsWithSeparator([SEPARATOR] + Fwd(p.name)))
  }

  /** Where every File of a tree belongs, in the order of the tree. */
  ghost function Places(n: Node, out: string, base: Canon, folders: seq<string>): seq<Place>
    decreases n
  {
    match n.kind
    case Project => PlacesFrom(n, 0, out, ProjectBase(out, n.folder), [])
    case Folder => PlacesFrom(n, 0, out, base, folders + [n.name])
    case File => [Place(base, folders, n.name)] + PlacesFrom(n, 0, out, base, folders)
    case _ => PlacesFrom(n, 0, out, base, folders)
  }

  ghost function PlacesFrom(n: Node, i: nat, out: string, base: Canon, folders: seq<string>): seq<Place>
    requires i <= |n.children|
    decreases n, |n.children| - i
  {
    if i == |n.children| then []
    else Places(n.children[i], out, base, folders) + PlacesFrom(n, i + 1, out, base, folders)
  }

  function Paths(places: seq<Place>): (paths: seq<string>)
    ensures |paths| == |places|
  {
    seq(|places|, i requires 0 <= i < |places| => FullPath(places[i]))
  }

  // --- The walk, step by step ---------------------------------------------------------------

  /** What a walk has done: the paths claimed and by whom, the path given to each File in
      turn, the folders asked for. */
  datatype Progress = Progress(claims: map<string, string>, paths: seq<string>, dirs: seq<string>)

  const NOTHING_DONE := Progress(map[], [], [])

  datatype Outcome = Going(progress: Progress) | Failed(error: Error)

  function OrRoot(where: string): string {
    if where == "" then "<root>" else where
  }

  function Claim(p: Progress, path: string, where: string): Outcome {
    if path in p.claims then Failed(DuplicateFile(path, OrRoot(p.claims[path]), OrRoot(where)))
    else Going(p.(claims := p.claims[path := where], paths := p.paths + [path]))
  }

  ghost function WalkOf(n: Node, out: string, base: Canon, folders: seq<string>, p: Progress): Outcome
    decreases n
  {
    match n.kind
    case Unknown => Failed(MissingOp)
    case Plain => KidsOf(n, 0, out, base, folders, p)
    case Project =>
      var below := ProjectBase(out, n.folder);
      KidsOf(n, 0, out, below, [], p.(dirs := p.dirs + [Text(below)]))
    case Folder =>
      var below := folders + [n.name];
      if !StaysInside(n.name) then Failed(NameTraversal(Folder, n.name))
      else KidsOf(n, 0, out, base, below, p.(dirs := p.dirs + [Text(ComposeAll(base, below))]))
    case File =>
      if !StaysInside(n.name) then Failed(NameTraversal(File, n.name))
      else match Claim(p, FullPath(Place(base, folders, n.name)), Joined(n.path))
           case Failed(e) => Failed(e)
           case Going(q) => KidsOf(n, 0, out, base, folders, q)
  }

  ghost function KidsOf(n: Node, i: nat, out: string, base: Canon, folders: seq<string>, p: Progress): Outcome
    requires i <= |n.children|
    decreases n, |n.children| - i
  {
    if i == |n.children| then Going(p)
    else match WalkOf(n.children[i], out, base, folders, p)
         case Failed(e) => Failed(e)
         case Going(q) => KidsOf(n, i + 1, out, base, folders, q)
  }

  // --- The class ----------------------------------------------------------------------------

  datatype FolderRef = FolderRef(path: seq<string>, parent: string)

  method ValidName(name: string) returns (ok: bool)
    ensures ok == StaysInside(name)
  {
    var segs := Parts(name);
    for i := 0 to |segs|
      invariant ".." !in segs[..i]
    {
      if segs[i] == ".." {
        return false;
      }
    }
    assert segs[..|segs|] == segs;
    ok := true;
  }

  class BuildCtx {
    const out: string
    var project: Option<Node>
    var folder: FolderRef
    var filepaths: map<string, string>
    /** The path given to each File node, in the order they were met. */
    var fullPaths: seq<string>
    /** The folders asked for. */
    var ensured: seq<string>

    ghost function Done(): Progress
      reads this
    {
      Progress(filepaths, fullPaths, ensured)
    }

    ghost predicate Valid()
      reads this
    {
      folder.parent != ""
    }

    constructor (out: string)
      ensures Valid() && this.out == out && Done() == NOTHING_DONE
      ensures folder == FolderRef([], OutputFolder(out)) && project == None
    {
      this.out := out;
      project := None;
      folder := FolderRef([], if out == "" then "." else out);
      filepaths, fullPaths, ensured := map[], [], [];
    }

    method ProjectBefore(n: Node) returns (prev: FolderRef, prevProject: Option<Node>)
      modifies this
      ensures prev == old(folder) && prevProject == old(project) && Valid()
      ensures project == Some(n) && folder.path == [] && CanonOf(folder.parent) == ProjectBase(out, n.folder)
      ensures filepaths == old(filepaths) && fullPaths == old(fullPaths)
      ensures ensured == old(ensured) + [Text(ProjectBase(out, n.folder))]
    {
      prev, prevProject := folder, project;
      project := Some(n);
      var top := if out == "" then "." else out;
      var parent := top;
      if n.folder != "" {
        parent := if n.folder[0] == SEPARATOR then n.folder else top + [SEPARATOR] + n.folder;
      }
      ProjectParent(out, n.folder, parent);
      folder := FolderRef([], Cleaned(parent));
      ensured := ensured + [Cleaned(parent)];
    }

    method ProjectAfter(prev: FolderRef, prevProject: Option<Node>)
      modifies this`folder, this`project
      ensures folder == prev && project == prevProject
    {
      folder, project := prev, prevProject;
    }

    method FolderBefore(n: Node) returns (err: Option<Error>)
      requires Valid()
      modifies this
      ensures err == if StaysInside(n.name) then None else Some(NameTraversal(Folder, n.name))
      ensures project == old(project) && filepaths == old(filepaths) && fullPaths == old(fullPaths)
      ensures err == None ==>
        && folder == FolderRef(old(folder.path) + [n.name], old(folder.parent))
        && ensured == old(ensured) + [Text(ComposeAll(CanonOf(folder.parent), folder.path))]
    {
      var ok := ValidName(n.name);
      if !ok {
        return Some(NameTraversal(Folder, n.name));
      }
      folder := folder.(path := folder.path + [n.name]);
      var dir := Joined(folder.path);
      var full := folder.parent;
      if dir != "" {
        full := folder.parent + [SEPARATOR] + dir;
      }
      FolderText(folder.parent, folder.path);
      if full != "" {
        ensured := ensured + [Cleaned(full)];
      }
      err := None;
    }

    method FolderAfter()
      modifies this`folder
      ensures var path := old(folder.path);
              folder == if |path| > 0 then old(folder).(path := path[..|path| - 1]) else old(folder)
    {
      if |folder.path| > 0 {
        folder := folder.(path := folder.path[..|folder.path| - 1]);
      }
    }

    method FileBefore(n: Node) returns (err: Option<Error>)
      requires Valid()
      modifies this`filepaths, this`fullPaths
      ensures if !StaysInside(n.name) then err == Some(NameTraversal(File, n.name))
              else match Claim(old(Done()), FullPath(Place(CanonOf(folder.parent), folder.path, n.name)), Joined(n.path))
                   case Failed(e) => err == Some(e)
                   case Going(p) => err == None && Done() == p
    {
      var ok := ValidName(n.name);
      if !ok {
        return Some(NameTraversal(File, n.name));
      }
      var dir := Joined(folder.path);
      var raw := if dir != "" then folder.parent + [SEPARATOR] + dir + [SEPARATOR] + n.name
                 else folder.parent + [SEPARATOR] + n.name;
      var path := Canonical(raw);
      FileText(folder.parent, folder.path, n.name);
      err := ClaimFile(path, Joined(n.path));
      if err == None {
        fullPaths := fullPaths + [path];
      }
    }

    method ClaimFile(path: string, where: string) returns (err: Option<Error>)
      modifies this`filepaths
      ensures if path in old(filepaths)
              then err == Some(DuplicateFile(path, OrRoot(old(filepaths)[path]), OrRoot(where))) && filepaths == old(filepaths)
              else err == None && filepaths == old(filepaths)[path := where]
    {
      if path in filepaths {
        var first, second := filepaths[path], where;
        if first == "" {
          first := "<root>";
        }
        if second == "" {
          second := "<root>";
        }
        return Some(DuplicateFile(path, first, second));
      }
      filepaths := filepaths[path := where];
      err := None;
    }

    /** The walk: a subtree either leaves the current folder and project as they were and
        has done what the pure walk does, or fails as the pure walk fails. */
    method Step(n: Node) returns (err: Option<Error>)
      requires Valid()
      modifies this
      ensures match WalkOf(n, out, CanonOf(old(folder.parent)), old(folder.path), old(Done()))
              case Going(p) => err == None && Done() == p && folder == old(folder) && project == old(project)
              case Failed(e) => err == Some(e)
      decreases n
    {
      hide FullPath, ProjectBase, CanonOf, ComposeAll, StaysInside, Claim, WalkOf, KidsOf, Text, Joined;
      WalkStep(n, out, CanonOf(folder.parent), folder.path, Done());
      if n.kind == Unknown {
        return Some(MissingOp);
      }
      var prev, prevProject := folder, project;
      if n.kind == Project {
        prev, prevProject := ProjectBefore(n);
      } else if n.kind == Folder {
        err := FolderBefore(n);
        if err != None {
          return;
        }
      } else if n.kind == File {
        err := FileBefore(n);
        if err != None {
          return;
        }
      }
      ghost var base, at, current := CanonOf(folder.parent), folder, project;
      ghost var all := KidsOf(n, 0, out, base, at.path, Done());
      for i := 0 to |n.children|
        invariant Valid() && folder == at && project == current
        invariant KidsOf(n, i, out, base, at.path, Done()) == all
      {
        KidsStep(n, i, out, base, at.path, Done());
        err := Step(n.children[i]);
        if err != None {
          return;
        }
      }
      KidsEnd(n, out, base, at.path, Done());
      if n.kind == Project {
        ProjectAfter(prev, prevProject);
      } else if n.kind == Folder {
        FolderAfter();
      }
      err := None;
    }
  }

  lemma WalkStep(n: Node, out: string, base: Canon, folders: seq<string>, p: Progress)
    ensures WalkOf(n, out, base, folders, p)
         == match n.kind
            case Unknown => Failed(MissingOp)
            case Plain => KidsOf(n, 0, out, base, folders, p)
            case Project =>
              KidsOf(n, 0, out, ProjectBase(out, n.folder), [], p.(dirs := p.dirs + [Text(ProjectBase(out, n.folder))]))
            case Folder =>
              if !StaysInside(n.name) then Failed(NameTraversal(Folder, n.name))
              else KidsOf(n, 0, out, base, folders + [n.name], p.(dirs := p.dirs + [Text(ComposeAll(base, folders + [n.name]))]))
            case File =>
              if !StaysInside(n.name) then Failed(NameTraversal(File, n.name))
              else match Claim(p, FullPath(Place(base, folders, n.name)), Joined(n.path))
                   case Failed(e) => Failed(e)
                   case Going(q) => KidsOf(n, 0, out, base, folders, q)
  {
    hide FullPath, ProjectBase, ComposeAll, StaysInside, Claim, Text, Joined;
  }

  lemma KidsStep(n: Node, i: nat, out: string, base: Canon, folders: seq<string>, p: Progress)
    requires i < |n.children|
    ensures KidsOf(n, i, out, base, folders, p)
         == match WalkOf(n.children[i], out, base, folders, p)
            case Failed(e) => Failed(e)
            case Going(q) => KidsOf(n, i + 1, out, base, folders, q)
  {
    hide WalkOf;
  }

  lemma KidsEnd(n: Node, out: string, base: Canon, folders: seq<string>, p: Progress)
    ensures KidsOf(n, |n.children|, out, base, folders, p) == Going(p)
  {
  }

  // --- Composed texts --------------------------------------------------------------------------

  lemma ProjectParent(out: string, folder: string, parent: string)
    requires parent == if folder == "" then OutputFolder(out)
                       else if folder[0] == SEPARATOR then folder
                       else OutputFolder(out) + [SEPARATOR] + folder
    ensures CanonOf(parent) == ProjectBase(out, folder)
    ensures Cleaned(parent) != "" && CanonOf(Cleaned(parent)) == CanonOf(parent)
  {
    hide Compose, Text, IsNormal;
    CanonOfNormal(parent);
    CanonOfText(CanonOf(parent));
    if folder != "" && folder[0] != SEPARATOR {
      assert parent == OutputFolder(out) + ([SEPARATOR] + folder);
      RootedJoin(OutputFolder(out), [SEPARATOR] + folder);
      ComposeJoin(Canon(IsRooted(parent), []), OutputFolder(out), folder);
    }
  }

  /** A folder's text cleans to its names composed one by one. */
  lemma FolderText(parent: string, path: seq<string>)
    requires parent != ""
    ensures CanonOf(if Joined(path) != "" then parent + [SEPARATOR] + Joined(path) else parent)
         == ComposeAll(CanonOf(parent), path)
  {
    hide Compose, Joined, ComposeAll;
    ComposeJoined(CanonOf(parent), path);
    if Joined(path) != "" {
      assert parent + [SEPARATOR] + Joined(path) == parent + ([SEPARATOR] + Joined(path));
      RootedJoin(parent, [SEPARATOR] + Joined(path));
      ComposeJoin(Canon(IsRooted(parent), []), parent, Joined(path));
    } else {
      ComposeEmpty(CanonOf(parent));
    }
  }

  /** A file's text cleans to its name composed onto its folder. */
  lemma FileText(parent: string, path: seq<string>, name: string)
    requires parent != ""
    ensures var dir := Joined(path);
            var raw := if dir != "" then parent + [SEPARATOR] + dir + [SEPARATOR] + name else parent + [SEPARATOR] + name;
            && CanonOf(raw) == Compose(ComposeAll(CanonOf(parent), path), name)
            && EndsWithSeparator(Fwd(raw)) == EndsWithSeparator([SEPARATOR] + Fwd(name))
  {
    hide Compose, Joined, ComposeAll, IsRooted, Fwd;
    var dir := Joined(path);
    var head := if dir != "" then parent + [SEPARATOR] + dir else parent;
    var raw := head + [SEPARATOR] + name;
    FolderText(parent, path);
    assert raw == head + ([SEPARATOR] + name);
    RootedJoin(head, [SEPARATOR] + name);
    ComposeJoin(Canon(IsRooted(head), []), head, name);
    FwdConcat(head, [SEPARATOR] + name);
    FwdConcat([SEPARATOR], name);
    FwdSeparator();
  }

  lemma FwdSeparator()
    ensures Fwd([SEPARATOR]) == [SEPARATOR]
  {
  }
}
