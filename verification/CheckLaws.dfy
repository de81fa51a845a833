/** What a check depends on, and what its list of drift says. */
module CheckLaws {
  import opened Options
  import opened PathKeys
  import opened MemFs
  import opened Shadow

  /** A generator: its next request, as a function of the answers it has had so far. */
  type Generator = imap<seq<Answer>, Request>

  /** The shadow's state once a generator has had these answers. */
  ghost function After(gen: Generator, cwd: Key, answers: seq<Answer>): State {
    if answers == [] then START
    else
      var prior := answers[..|answers| - 1];
      if prior in gen then Next(After(gen, cwd, prior), cwd, gen[prior]) else After(gen, cwd, prior)
  }

  /** A run of the generator over a base that may see these answers. */
  ghost predicate Run(gen: Generator, base: Base, root: Key, cwd: Key, answers: seq<Answer>) {
    forall i | 0 <= i < |answers| ::
      && answers[..i] in gen
      && Allowed(base, root, cwd, After(gen, cwd, answers[..i]), gen[answers[..i]], answers[i])
  }

  /** Two bases that answer alike on every path not at or below root. */
  ghost predicate Alike(b: Base, c: Base, root: Key, cwd: Key) {
    forall q, a | IsRead(q) && !(root <= Clean(cwd, q.path)) :: (q, a) in b <==> (q, a) in c
  }

  /** A check over a base may see these answers and take this map for what the
      generator produced. */
  ghost predicate MayAnswer(gen: Generator, base: Base, root: Key, cwd: Key, answers: seq<Answer>, out: map<Key, Bytes>) {
    Run(gen, base, root, cwd, answers) && MayGenerate(After(gen, cwd, answers).mem, root, out)
  }

  /** A check depends on nothing at or below the root: over bases that are alike
      elsewhere it may see the same answers and arrive at the same maps. */
  ghost predicate IsPure(root: Key, cwd: Key) {
    forall gen, b, c, answers, out | Alike(b, c, root, cwd) && MayAnswer(gen, b, root, cwd, answers, out) ::
      MayAnswer(gen, c, root, cwd, answers, out)
  }

  lemma AllowedAlike(b: Base, c: Base, root: Key, cwd: Key, s: State, q: Request, a: Answer)
    requires Alike(b, c, root, cwd) && root != [] && Allowed(b, root, cwd, s, q, a)
    ensures Allowed(c, root, cwd, s, q, a)
  {
    hide Answers, Clean, Succeeds;
  }

  lemma RunsAlike(gen: Generator, b: Base, c: Base, root: Key, cwd: Key, answers: seq<Answer>)
    requires Alike(b, c, root, cwd) && root != [] && Run(gen, b, root, cwd, answers)
    ensures Run(gen, c, root, cwd, answers)
  {
    hide Allowed, Alike, After;
    forall i | 0 <= i < |answers|
      ensures answers[..i] in gen && Allowed(c, root, cwd, After(gen, cwd, answers[..i]), gen[answers[..i]], answers[i])
    {
      AllowedAlike(b, c, root, cwd, After(gen, cwd, answers[..i]), gen[answers[..i]], answers[i]);
    }
  }

  /** At "/" reads fall through to the base, so what it holds can be seen. */
  lemma RootIsSeen(cwd: Key)
    ensures !IsPure([], cwd)
  {
    var q := Request.ReadFile("/a");
    var bare, full := BaseOf(EMPTY, cwd), BaseOf(Volume(map[["a"] := ""], {}), cwd);
    var gen: Generator := imap[[] := q];
    var answers := [Data(None)];
    CleanA(cwd);
    assert Alike(bare, full, [], cwd);
    assert answers[..0] == [];
    assert Run(gen, bare, [], cwd, answers);
    var out := WalkMap(After(gen, cwd, answers).mem, [], {});
    assert MayAnswer(gen, bare, [], cwd, answers, out);
    assert !Allowed(full, [], cwd, After(gen, cwd, answers[..0]), gen[answers[..0]], answers[0]);
    assert !Run(gen, full, [], cwd, answers);
  }

  lemma CleanA(cwd: Key)
    ensures Clean(cwd, "/a") == ["a"]
  {
    assert Render(["a"]) == "/a" by {
      RenderFirst(["a"]);
      RenderNothing();
    }
    assert IsSegment("a");
    CleanRendered(cwd, ["a"]);
  }

  /** For every root but "/", any two bases that answer alike outside it allow a
      generator the same runs and the same generated maps; for "/" they do not. */
  lemma PureUnlessRoot(root: Key, cwd: Key)
    ensures IsPure(root, cwd) <==> root != []
  {
    if root == [] {
      RootIsSeen(cwd);
    } else {
      hide Alike, Run, MayGenerate, After;
      forall gen, b, c, answers, out | Alike(b, c, root, cwd) && MayAnswer(gen, b, root, cwd, answers, out)
        ensures MayAnswer(gen, c, root, cwd, answers, out)
      {
        RunsAlike(gen, b, c, root, cwd, answers);
      }
    }
  }

  /** One run, two alike bases: there is one generated map exactly when no file the
      generator claims lies below another. */
  lemma OneRunOneMap(gen: Generator, b: Base, c: Base, root: Key, cwd: Key, answers: seq<Answer>)
    requires Alike(b, c, root, cwd) && root != [] && Run(gen, b, root, cwd, answers)
    ensures var v := After(gen, cwd, answers).mem;
            (forall one, other | MayAnswer(gen, b, root, cwd, answers, one) && MayAnswer(gen, c, root, cwd, answers, other) ::
               one == other)
            <==> NoneNested(v, root)
    ensures var v := After(gen, cwd, answers).mem;
            NoneNested(v, root) ==> forall out | MayAnswer(gen, c, root, cwd, answers, out) :: out == GeneratedOf(v, root)
  {
    hide Alike, Run, MayGenerate, After, GeneratedOf, IsClaimed;
    var v := After(gen, cwd, answers).mem;
    RunsAlike(gen, b, c, root, cwd, answers);
    SteadyUnlessNested(v, root);
    if !NoneNested(v, root) {
      var r, s :| IsClaimed(v, root, r) && IsClaimed(v, root, s) && r < s;
      var one, other := NestedIsLost(v, root, r, s);
      assert MayAnswer(gen, b, root, cwd, answers, one) && MayAnswer(gen, c, root, cwd, answers, other);
    }
  }

  // --- One answer to everything -------------------------------------------------------------------

  /** A base that gives one answer to each read. */
  ghost predicate IsFunction(b: Base) {
    forall q, x, y | (q, x) in b && (q, y) in b :: x == y
  }

  /** No file below the root has a file below it, at any point of the run. */
  ghost predicate NeverAmbiguous(gen: Generator, root: Key, cwd: Key, answers: seq<Answer>) {
    forall i | 0 <= i <= |answers| :: Unambiguous(After(gen, cwd, answers[..i]).mem, root)
  }

  ghost predicate Unambiguous(v: Volume, root: Key) {
    forall f | f in Ambiguous(v) :: !(root < f)
  }

  lemma OneListing(v: Volume, root: Key, k: Key, one: Option<Listing>, other: Option<Listing>)
    requires Unambiguous(v, root) && root <= k && IsListing(v, k, one) && IsListing(v, k, other)
    ensures one == other
  {
    if one.Some? {
      forall n | n in one.value ensures one.value[n] == other.value[n] {
        assert root < k + [n];
        assert k + [n] !in Ambiguous(v);
      }
      assert one.value == other.value;
    }
  }

  lemma OneAnswer(b: Base, c: Base, root: Key, cwd: Key, s: State, q: Request, x: Answer, y: Answer)
    requires Alike(b, c, root, cwd) && root != [] && IsFunction(b) && Unambiguous(s.mem, root)
    requires Allowed(b, root, cwd, s, q, x) && Allowed(c, root, cwd, s, q, y)
    ensures x == y
  {
    AllowedAlike(c, b, root, cwd, s, q, y);
    hide Clean, Succeeds, Unambiguous, IsListing, Alike;
    if q.ReadDir? && Under(root, Clean(cwd, q.path)) {
      OneListing(s.mem, root, Clean(cwd, q.path), x.entries, y.entries);
    }
  }

  lemma RunAt(gen: Generator, b: Base, root: Key, cwd: Key, answers: seq<Answer>, i: nat)
    requires Run(gen, b, root, cwd, answers) && i < |answers|
    ensures answers[..i] in gen && Allowed(b, root, cwd, After(gen, cwd, answers[..i]), gen[answers[..i]], answers[i])
  {
    hide Allowed, After;
  }

  lemma NeverAmbiguousAt(gen: Generator, root: Key, cwd: Key, answers: seq<Answer>, i: nat)
    requires NeverAmbiguous(gen, root, cwd, answers) && i <= |answers|
    ensures Unambiguous(After(gen, cwd, answers[..i]).mem, root)
  {
    hide Unambiguous, After;
  }

  lemma {:induction false} OneRun(gen: Generator, b: Base, c: Base, root: Key, cwd: Key, one: seq<Answer>, other: seq<Answer>, i: nat)
    requires Alike(b, c, root, cwd) && root != [] && IsFunction(b)
    requires Run(gen, b, root, cwd, one) && Run(gen, c, root, cwd, other) && NeverAmbiguous(gen, root, cwd, one)
    requires i <= |one| && i <= |other|
    ensures one[..i] == other[..i]
  {
    if i > 0 {
      hide *;
      OneRun(gen, b, c, root, cwd, one, other, i - 1);
      OneStep(gen, b, c, root, cwd, one, other, i - 1);
      LongerPrefix(one, other, i - 1);
    }
  }

  lemma OneStep(gen: Generator, b: Base, c: Base, root: Key, cwd: Key, one: seq<Answer>, other: seq<Answer>, i: nat)
    requires Alike(b, c, root, cwd) && root != [] && IsFunction(b)
    requires Run(gen, b, root, cwd, one) && Run(gen, c, root, cwd, other) && NeverAmbiguous(gen, root, cwd, one)
    requires i < |one| && i < |other| && one[..i] == other[..i]
    ensures one[i] == other[i]
  {
    hide *;
    RunAt(gen, b, root, cwd, one, i);
    RunAt(gen, c, root, cwd, other, i);
    NeverAmbiguousAt(gen, root, cwd, one, i);
    OneAnswer(b, c, root, cwd, After(gen, cwd, one[..i]), gen[one[..i]], one[i], other[i]);
  }

  lemma LongerPrefix<T>(one: seq<T>, other: seq<T>, i: nat)
    requires i < |one| && i < |other| && one[..i] == other[..i] && one[i] == other[i]
    ensures one[..i + 1] == other[..i + 1]
  {
    assert one[..i + 1] == one[..i] + [one[i]] && other[..i + 1] == other[..i] + [other[i]];
  }

  /** The generator asks for nothing more. */
  ghost predicate IsComplete(gen: Generator, answers: seq<Answer>) {
    answers !in gen
  }

  /** A check is a function of the generator: over two bases that answer alike outside
      the root, complete runs see the same answers and take the same map for what was
      produced, if the base gives one answer to each read and the generator never
      writes a file below a file. */
  lemma CheckIsFunction(gen: Generator, b: Base, c: Base, root: Key, cwd: Key, one: seq<Answer>, other: seq<Answer>,
                        oneMap: map<Key, Bytes>, otherMap: map<Key, Bytes>)
    requires Alike(b, c, root, cwd) && root != [] && IsFunction(b) && NeverAmbiguous(gen, root, cwd, one)
    requires MayAnswer(gen, b, root, cwd, one, oneMap) && IsComplete(gen, one)
    requires MayAnswer(gen, c, root, cwd, other, otherMap) && IsComplete(gen, other)
    ensures one == other && oneMap == otherMap
  {
    var n := if |one| <= |other| then |one| else |other|;
    OneRun(gen, b, c, root, cwd, one, other, n);
    assert one[..|one|] == one && other[..|other|] == other;
    assert one == other;
    var v := After(gen, cwd, one).mem;
    assert Unambiguous(v, root);
    UnambiguousIsFlat(v, root);
    SteadyUnlessNested(v, root);
  }

  lemma UnambiguousIsFlat(v: Volume, root: Key)
    requires Unambiguous(v, root)
    ensures NoneNested(v, root)
  {
    forall r, s | IsClaimed(v, root, r) && IsClaimed(v, root, s) ensures !(r < s) {
      if r < s {
        NestedIsAmbiguous(v, root, r, s);
      }
    }
  }

  lemma NestedIsAmbiguous(v: Volume, root: Key, r: Key, s: Key)
    requires IsClaimed(v, root, r) && IsClaimed(v, root, s) && r < s
    ensures root < root + r && root + r in Ambiguous(v)
  {
    assert Beneath(root + r, root + s);
  }

  /** Whatever a generator does, every entry of the memory it leaves has its parents as
      directories. */
  lemma {:induction false} RunStaysClosed(gen: Generator, cwd: Key, answers: seq<Answer>)
    ensures Closed(After(gen, cwd, answers).mem)
  {
    if answers != [] {
      var prior := answers[..|answers| - 1];
      RunStaysClosed(gen, cwd, prior);
      if prior in gen {
        NextClosed(After(gen, cwd, prior), cwd, gen[prior]);
      }
    }
  }

  // --- What of the committed tree a run can see ---------------------------------------------------

  /** Two volumes that differ at most at or below root. */
  ghost predicate SameOutside(v: Volume, w: Volume, root: Key) {
    forall k | !(root <= k) ::
      && (k in v.files <==> k in w.files)
      && (k in v.files && k in w.files ==> v.files[k] == w.files[k])
      && (k in v.dirs <==> k in w.dirs)
  }

  /** The folder, and each directory above it, shows alike in the listing of the
      directory it is in. */
  ghost predicate ShowsAlike(v: Volume, w: Volume, root: Key) {
    && (root in v.files <==> root in w.files)
    && forall c | c != [] && c <= root :: MayBeDir(v, c) <==> MayBeDir(w, c)
  }

  /** What lists a name: a file of that name, or whatever makes it a directory. */
  lemma NameIs(v: Volume, k: Key, n: string)
    ensures n in NamesBelow(v, k) <==> k + [n] in v.files || MayBeDir(v, k + [n])
  {
    var child := k + [n];
    if n in NamesBelow(v, k) {
      var c :| (c in v.files || c in v.dirs) && Beneath(k, c) && c[|k|] == n;
      assert child == c[..|k| + 1];
      assert child != c ==> Beneath(child, c);
    }
    if x :| (x in v.files || x in v.dirs) && child <= x {
      assert x[..|k|] == child[..|k|] == k && x[|k|] == child[|k|];
      assert Beneath(k, x) && x[|k|] == n;
    }
  }

  /** A name that is not below the root shows alike. */
  lemma ChildAlike(v: Volume, w: Volume, root: Key, c: Key)
    requires SameOutside(v, w, root) && ShowsAlike(v, w, root) && !(root < c) && c != []
    ensures c in v.files <==> c in w.files
    ensures MayBeDir(v, c) <==> MayBeDir(w, c)
  {
    assert root <= c ==> root == c;
    if !(c <= root) {
      if MayBeDir(v, c) {
        ApartAlike(v, w, root, c);
      }
      if MayBeDir(w, c) {
        ApartAlike(w, v, root, c);
      }
    }
  }

  lemma ApartAlike(v: Volume, w: Volume, root: Key, c: Key)
    requires SameOutside(v, w, root) && !(root <= c) && !(c <= root) && MayBeDir(v, c)
    ensures MayBeDir(w, c)
  {
    var x :| (x in v.files || x in v.dirs) && c <= x && (HasFileBelow(v, c) ==> x in v.files && Beneath(c, x));
    if root <= x {
      Comparable(root, c, x);
    }
  }

  lemma Comparable(root: Key, c: Key, x: Key)
    requires root <= x && c <= x
    ensures root <= c || c <= root
  {
    assert if |root| <= |c| then root == x[..|root|] == c[..|root|] else c == x[..|c|] == root[..|c|];
  }

  lemma AboveLonger(root: Key, k: Key, n: string)
    requires root < k + [n]
    ensures root <= k
  {
    assert root == (k + [n])[..|root|] == k[..|root|];
  }

  lemma ListingAlike(v: Volume, w: Volume, root: Key, k: Key, r: Option<Listing>)
    requires SameOutside(v, w, root) && ShowsAlike(v, w, root) && !(root <= k)
    requires IsListing(v, k, r)
    ensures IsListing(w, k, r)
  {
    forall n
      ensures k + [n] in v.files <==> k + [n] in w.files
      ensures MayBeDir(v, k + [n]) <==> MayBeDir(w, k + [n])
      ensures n in NamesBelow(v, k) <==> n in NamesBelow(w, k)
    {
      if root < k + [n] {
        AboveLonger(root, k, n);
      }
      ChildAlike(v, w, root, k + [n]);
      NameIs(v, k, n);
      NameIs(w, k, n);
    }
    hide MayBeDir, NamesBelow, ShowsAlike;
    if r.Some? {
      forall n ensures n in r.value.Keys <==> n in NamesBelow(w, k) {
      }
    }
  }

  lemma AnswersAlike(v: Volume, w: Volume, root: Key, k: Key, q: Request, a: Answer)
    requires SameOutside(v, w, root) && ShowsAlike(v, w, root) && !(root <= k)
    requires Answers(v, k, q, a)
    ensures Answers(w, k, q, a)
  {
    hide IsListing;
    if q.ReadDir? {
      ListingAlike(v, w, root, k, a.entries);
    }
  }

  lemma SameShowIsAlike(v: Volume, w: Volume, root: Key, cwd: Key)
    requires SameOutside(v, w, root) && ShowsAlike(v, w, root)
    ensures Alike(BaseOf(v, cwd), BaseOf(w, cwd), root, cwd)
  {
    hide Answers, SameOutside, ShowsAlike, Clean;
    forall q, a | IsRead(q) && !(root <= Clean(cwd, q.path))
      ensures (q, a) in BaseOf(v, cwd) <==> (q, a) in BaseOf(w, cwd)
    {
      var k := Clean(cwd, q.path);
      if Answers(v, k, q, a) { AnswersAlike(v, w, root, k, q, a); }
      if Answers(w, k, q, a) {
        AlikeBack(v, w, root);
        AnswersAlike(w, v, root, k, q, a);
      }
    }
  }

  lemma AlikeBack(v: Volume, w: Volume, root: Key)
    requires SameOutside(v, w, root)
    ensures SameOutside(w, v, root) && (ShowsAlike(v, w, root) <==> ShowsAlike(w, v, root))
  {
    hide MayBeDir;
  }

  /** A name that one volume may show in a way the other may not is told apart by a
      listing of the directory it is in. */
  lemma ShowIsSeen(v: Volume, w: Volume, c: Key)
    requires Closed(v) && c != []
    requires (c in v.files && c !in w.files) || (MayBeDir(v, c) && !MayBeDir(w, c))
    ensures exists r :: IsListing(v, Parent(c), r) && !IsListing(w, Parent(c), r)
  {
    hide MayBeDir, IsListing, NamesBelow, ReportOf, Ambiguous, Closed;
    assert {} <= Ambiguous(v);
    var k, n := Parent(c), c[|c| - 1];
    assert k + [n] == c;
    NameIs(v, k, n);
    ParentIsListed(v, c);
    var asDir := MayBeDir(v, c) && !MayBeDir(w, c);
    var dirs := if asDir then Ambiguous(v) else {};
    ReportIsListing(v, dirs, k);
    var r := ReportOf(v, dirs, k);
    assert n in r && r[n] == asDir by { ReportTells(v, dirs, k, n, asDir); }
    assert !IsListing(w, k, Some(r)) by { NotListed(w, k, n, r); }
  }

  lemma ReportTells(v: Volume, dirs: set<Key>, k: Key, n: string, asDir: bool)
    requires n in NamesBelow(v, k) && dirs == if asDir then Ambiguous(v) else {}
    requires if asDir then MayBeDir(v, k + [n]) else k + [n] in v.files
    ensures n in ReportOf(v, dirs, k) && ReportOf(v, dirs, k)[n] == asDir
  {
    hide NamesBelow, HasDirBelow, HasFileBelow;
  }

  lemma NotListed(w: Volume, k: Key, n: string, r: Listing)
    requires n in r && if r[n] then !MayBeDir(w, k + [n]) else k + [n] !in w.files
    ensures !IsListing(w, k, Some(r))
  {
    hide NamesBelow, MayBeDir;
  }

  lemma ParentIsListed(v: Volume, c: Key)
    requires Closed(v) && c != [] && (c in v.files || MayBeDir(v, c))
    ensures Parent(c) == [] || Parent(c) in v.dirs
  {
    if Parent(c) != [] {
      var x :| (x in v.files || x in v.dirs) && c <= x;
      Shadow.BelowDirectory(v, Parent(c), x);
    }
  }

  /** Whatever is committed at or below the checked folder, all of it a run can see is
      how the folder, and each directory above it, shows in the listing it is in. */
  lemma CommittedTreeIsHidden(v: Volume, w: Volume, root: Key, cwd: Key)
    requires Closed(v) && Closed(w) && SameOutside(v, w, root) && IsKey(root) && root != []
    ensures Alike(BaseOf(v, cwd), BaseOf(w, cwd), root, cwd) <==> ShowsAlike(v, w, root)
  {
    hide IsListing, MayBeDir, Closed, SameOutside, Alike;
    if ShowsAlike(v, w, root) {
      SameShowIsAlike(v, w, root, cwd);
    } else {
      var c :| c != [] && c <= root && ((c == root && (c in v.files) != (c in w.files)) || MayBeDir(v, c) != MayBeDir(w, c));
      if (c in v.files && c !in w.files) || (MayBeDir(v, c) && !MayBeDir(w, c)) {
        ShowsDiffer(v, w, root, c, cwd);
      } else {
        ShowsDiffer(w, v, root, c, cwd);
      }
    }
  }

  lemma ShowsDiffer(v: Volume, w: Volume, root: Key, c: Key, cwd: Key)
    requires Closed(v) && IsKey(root) && c != [] && c <= root
    requires (c in v.files && c !in w.files) || (MayBeDir(v, c) && !MayBeDir(w, c))
    ensures !Alike(BaseOf(v, cwd), BaseOf(w, cwd), root, cwd) && !Alike(BaseOf(w, cwd), BaseOf(v, cwd), root, cwd)
  {
    hide *;
    ShowIsSeen(v, w, c);
    ParentOfAncestor(root, c);
    var r :| IsListing(v, Parent(c), r) && !IsListing(w, Parent(c), r);
    ListingDiffers(v, w, root, cwd, Parent(c), r);
  }

  lemma ParentOfAncestor(root: Key, c: Key)
    requires IsKey(root) && c != [] && c <= root
    ensures IsKey(Parent(c)) && !(root <= Parent(c))
  {
    assert forall i | 0 <= i < |Parent(c)| :: Parent(c)[i] == root[i];
  }

  lemma ListingDiffers(v: Volume, w: Volume, root: Key, cwd: Key, k: Key, r: Option<Listing>)
    requires IsKey(k) && !(root <= k) && IsListing(v, k, r) && !IsListing(w, k, r)
    ensures !Alike(BaseOf(v, cwd), BaseOf(w, cwd), root, cwd) && !Alike(BaseOf(w, cwd), BaseOf(v, cwd), root, cwd)
  {
    var q := Request.ReadDir(Render(k));
    CleanRendered(cwd, k);
    hide IsListing, IsKey, Clean, Render;
    assert (q, Listed(r)) in BaseOf(v, cwd) && (q, Listed(r)) !in BaseOf(w, cwd);
  }

  /** Where no directory above the folder is also a file, it is only the folder itself
      whose showing matters. */
  lemma ShowsAtRoot(v: Volume, w: Volume, root: Key)
    requires Closed(v) && Closed(w) && SameOutside(v, w, root) && root != []
    requires forall c | c != [] && c < root :: c !in v.files
    ensures ShowsAlike(v, w, root)
       <==> (root in v.files <==> root in w.files) && (MayBeDir(v, root) <==> MayBeDir(w, root))
  {
    forall c | c != [] && c <= root ensures c == root || (MayBeDir(v, c) <==> MayBeDir(w, c)) {
      if c != root {
        assert c < root && c !in w.files && (c in v.dirs <==> c in w.dirs);
        DirIsDir(v, c);
        DirIsDir(w, c);
      }
    }
    hide MayBeDir;
  }

  lemma DirIsDir(v: Volume, c: Key)
    requires Closed(v) && c != [] && c !in v.files
    ensures MayBeDir(v, c) <==> c in v.dirs
  {
    if x :| (x in v.files || x in v.dirs) && Beneath(c, x) {
      Shadow.BelowDirectory(v, c, x);
    }
  }

  /** Two trees allow a generator the same runs. */
  ghost predicate RunAlike(v: Volume, w: Volume, root: Key, cwd: Key) {
    forall gen, answers :: Run(gen, BaseOf(v, cwd), root, cwd, answers) <==> Run(gen, BaseOf(w, cwd), root, cwd, answers)
  }

  /** One read is a run. */
  lemma ReadIsRun(base: Base, root: Key, cwd: Key, q: Request, a: Answer)
    requires IsRead(q) && !(root <= Clean(cwd, q.path)) && root != []
    ensures Run(imap[[] := q], base, root, cwd, [a]) <==> (q, a) in base
  {
    hide Clean, Answers, Succeeds;
    assert [a][..0] == [];
    assert !Under(root, Clean(cwd, q.path));
    var gen: Generator := imap[[] := q];
    assert Run(gen, base, root, cwd, [a]) <==>
      [a][..0] in gen && Allowed(base, root, cwd, After(gen, cwd, [a][..0]), gen[[a][..0]], [a][0]);
  }

  /** Two committed trees that agree outside the folder allow every generator the same
      runs exactly when the folder, and each directory above it, shows alike. */
  lemma RunsIgnoreCommitted(v: Volume, w: Volume, root: Key, cwd: Key)
    requires Closed(v) && Closed(w) && SameOutside(v, w, root) && IsKey(root) && root != []
    ensures RunAlike(v, w, root, cwd) <==> ShowsAlike(v, w, root)
  {
    CommittedTreeIsHidden(v, w, root, cwd);
    hide Run, BaseOf, SameOutside, ShowsAlike, Closed, Clean;
    var b, c := BaseOf(v, cwd), BaseOf(w, cwd);
    if Alike(b, c, root, cwd) {
      forall gen, answers
        ensures Run(gen, b, root, cwd, answers) <==> Run(gen, c, root, cwd, answers)
      {
        if Run(gen, b, root, cwd, answers) { RunsAlike(gen, b, c, root, cwd, answers); }
        if Run(gen, c, root, cwd, answers) { RunsAlike(gen, c, b, root, cwd, answers); }
      }
    } else {
      var q, a :| IsRead(q) && !(root <= Clean(cwd, q.path)) && ((q, a) in b) != ((q, a) in c);
      ReadIsRun(b, root, cwd, q, a);
      ReadIsRun(c, root, cwd, q, a);
      var gen: Generator := imap[[] := q];
      assert Run(gen, b, root, cwd, [a]) != Run(gen, c, root, cwd, [a]);
    }
  }

  // --- A generator that looks for its own output ------------------------------------------------------

  const APP: Key := ["app"]
  const LISTS_ROOT := Request.ReadDir("/")
  const WRITES_FILE := Request.WriteFile("/app/a", "")

  ghost predicate ListsApp(a: Answer) {
    a.Listed? && a.entries.Some? && "app" in a.entries.value
  }

  /** Lists "/", and writes "/app/a" only if "app" is there. */
  ghost function LooksFirst(): Generator {
    imap answers: seq<Answer> | answers == [] || (|answers| == 1 && ListsApp(answers[0])) ::
      if answers == [] then LISTS_ROOT else WRITES_FILE
  }

  lemma CleanPaths(cwd: Key)
    ensures Clean(cwd, "/") == [] && Clean(cwd, "/app/a") == ["app", "a"]
  {
    CleanRendered(cwd, []);
    var k: Key := ["app", "a"];
    RenderFirst(k);
    assert k[1..] == ["a"];
    RenderFirst(["a"]);
    RenderNothing();
    assert ["a"][1..] == [];
    assert Render(k) == "/app/a";
    assert IsSegment("app") && IsSegment("a");
    CleanRendered(cwd, k);
  }

  /** It asks again only when "app" is listed. */
  lemma AsksAgain(base: Base, cwd: Key, answers: seq<Answer>)
    requires Run(LooksFirst(), base, APP, cwd, answers) && |answers| > 1
    ensures ListsApp(answers[0])
  {
    RunAt(LooksFirst(), base, APP, cwd, answers, 1);
    assert answers[..1][0] == answers[0];
  }

  /** Over an empty tree it produces nothing. */
  lemma LooksInVain(cwd: Key, answers: seq<Answer>, out: map<Key, Bytes>)
    requires MayAnswer(LooksFirst(), BaseOf(EMPTY, cwd), APP, cwd, answers, out) && IsComplete(LooksFirst(), answers)
    ensures out == map[]
  {
    hide Clean, MayGenerate;
    CleanPaths(cwd);
    var gen := LooksFirst();
    assert [] in gen && answers != [];
    RunAt(gen, BaseOf(EMPTY, cwd), APP, cwd, answers, 0);
    assert answers[..0] == [];
    assert (LISTS_ROOT, answers[0]) in BaseOf(EMPTY, cwd);
    assert !ListsApp(answers[0]);
    if |answers| > 1 {
      AsksAgain(BaseOf(EMPTY, cwd), cwd, answers);
    }
    assert answers[..1] == answers;
    assert After(gen, cwd, answers) == Next(After(gen, cwd, []), cwd, LISTS_ROOT) == START;
    NothingGenerated(out);
  }

  lemma NothingGenerated(out: map<Key, Bytes>)
    requires MayGenerate(EMPTY, APP, out)
    ensures out == map[]
  {
    var dirs :| dirs <= Ambiguous(EMPTY) && out == WalkMap(EMPTY, APP, dirs);
  }

  /** Over a tree that holds the folder, and nothing in it, it produces a file. So what
      is committed can change what a generator produces. */
  lemma LooksAndFinds(cwd: Key) returns (answers: seq<Answer>, out: map<Key, Bytes>)
    ensures MayAnswer(LooksFirst(), BaseOf(Volume(map[], {APP}), cwd), APP, cwd, answers, out)
    ensures IsComplete(LooksFirst(), answers) && out == map[["a"] := ""]
    ensures SameOutside(EMPTY, Volume(map[], {APP}), APP)
  {
    hide *;
    OnlyAppDiffers();
    var w, gen := Volume(map[], {APP}), LooksFirst();
    var base := BaseOf(w, cwd);
    var first := ListsAllowed(cwd);
    LooksFirstAsks(first);
    WriteAllowed(base, cwd);
    NoAnswers(gen, base, cwd);
    RunMore(gen, base, APP, cwd, [], first);
    assert [] + [first] == [first];
    NextOfRead(START, cwd);
    RunMore(gen, base, APP, cwd, [first], Done(true));
    answers := [first] + [Done(true)];
    var v := After(gen, cwd, answers).mem;
    WrittenFile(cwd);
    OneFileGenerated(v);
    out := GeneratedOf(v, APP);
    assert MayAnswer(gen, base, APP, cwd, answers, out) by { RunAnswers(gen, base, cwd, answers, out); }
    assert IsComplete(gen, answers) by { EndsThere(gen, answers); }
  }

  lemma OnlyAppDiffers()
    ensures SameOutside(EMPTY, Volume(map[], {APP}), APP)
  {
  }

  lemma RunAnswers(gen: Generator, base: Base, cwd: Key, answers: seq<Answer>, out: map<Key, Bytes>)
    requires Run(gen, base, APP, cwd, answers) && MayGenerate(After(gen, cwd, answers).mem, APP, out)
    ensures MayAnswer(gen, base, APP, cwd, answers, out)
  {
  }

  lemma EndsThere(gen: Generator, answers: seq<Answer>)
    requires answers !in gen
    ensures IsComplete(gen, answers)
  {
  }

  lemma LooksFirstAsks(first: Answer)
    requires ListsApp(first)
    ensures var gen := LooksFirst();
            && [] in gen && gen[[]] == LISTS_ROOT
            && [first] in gen && gen[[first]] == WRITES_FILE
            && [first] + [Done(true)] !in gen
  {
  }

  lemma ListsAllowed(cwd: Key) returns (first: Answer)
    ensures ListsApp(first) && Allowed(BaseOf(Volume(map[], {APP}), cwd), APP, cwd, START, LISTS_ROOT, first)
  {
    var w := Volume(map[], {APP});
    first := Listed(Some(ReportOf(w, {}, [])));
    hide Clean, IsListing, ReportOf, Answers, Allowed, BaseOf, ListsApp;
    AppIsListed(w);
    CleanPaths(cwd);
    ListingAnswers(w, first.entries);
    ReadAllowed(w, APP, cwd, [], START, LISTS_ROOT, first);
  }

  lemma ListingAnswers(w: Volume, r: Option<Listing>)
    requires IsListing(w, [], r) && r.Some? && "app" in r.value
    ensures Answers(w, [], LISTS_ROOT, Listed(r)) && ListsApp(Listed(r))
  {
    hide IsListing;
  }

  lemma ReadAllowed(v: Volume, root: Key, cwd: Key, k: Key, s: State, q: Request, a: Answer)
    requires IsRead(q) && Clean(cwd, q.path) == k && k < root && Answers(v, k, q, a)
    ensures Allowed(BaseOf(v, cwd), root, cwd, s, q, a)
  {
    hide Answers, Clean;
  }

  lemma WriteAllowed(base: Base, cwd: Key)
    ensures Allowed(base, APP, cwd, START, WRITES_FILE, Done(true))
  {
  }

  lemma NextOfRead(s: State, cwd: Key)
    ensures Next(s, cwd, LISTS_ROOT) == s
  {
  }

  lemma WrittenFile(cwd: Key)
    ensures Next(START, cwd, WRITES_FILE).mem == Written(EMPTY, ["app", "a"], "")
  {
    CleanPaths(cwd);
    hide Clean;
  }

  lemma NoAnswers(gen: Generator, base: Base, cwd: Key)
    ensures Run(gen, base, APP, cwd, []) && After(gen, cwd, []) == START
  {
  }

  /** A run goes on with any answer its next request may have. */
  lemma RunMore(gen: Generator, base: Base, root: Key, cwd: Key, answers: seq<Answer>, a: Answer)
    requires Run(gen, base, root, cwd, answers) && answers in gen
    requires Allowed(base, root, cwd, After(gen, cwd, answers), gen[answers], a)
    ensures Run(gen, base, root, cwd, answers + [a])
    ensures After(gen, cwd, answers + [a]) == Next(After(gen, cwd, answers), cwd, gen[answers])
  {
    hide Allowed, Next;
    var more := answers + [a];
    assert more[..|answers|] == answers;
    forall i | 0 <= i < |more|
      ensures more[..i] in gen && Allowed(base, root, cwd, After(gen, cwd, more[..i]), gen[more[..i]], more[i])
    {
      if i < |answers| {
        assert more[..i] == answers[..i];
      }
    }
  }

  lemma AppIsListed(w: Volume)
    requires APP in w.dirs
    ensures var r := ReportOf(w, {}, []);
            "app" in r && IsListing(w, [], Some(r))
  {
    assert Beneath([], APP) && APP[0] == "app";
    assert "app" in NamesBelow(w, []);
    ReportIsListing(w, {}, []);
    ReportHasNames(w);
  }

  lemma ReportHasNames(w: Volume)
    requires "app" in NamesBelow(w, [])
    ensures "app" in ReportOf(w, {}, [])
  {
  }

  lemma OneFileGenerated(v: Volume)
    requires v == Written(EMPTY, ["app", "a"], "")
    ensures MayGenerate(v, APP, GeneratedOf(v, APP)) && GeneratedOf(v, APP) == map[["a"] := ""]
  {
    assert v.files == map[["app", "a"] := ""];
    forall r ensures IsClaimed(v, APP, r) <==> r == ["a"] {
      assert APP + ["a"] == ["app", "a"];
      assert APP + r == ["app", "a"] ==> (APP + r)[1..] == r && ["app", "a"][1..] == ["a"];
    }
    forall r ensures r in GeneratedOf(v, APP) <==> r == ["a"] {
      GeneratedHas(v, APP, r);
    }
    GeneratedHas(v, APP, ["a"]);
    assert APP + ["a"] == ["app", "a"];
    assert GeneratedOf(v, APP) == map[["a"] := ""];
    assert {} <= Ambiguous(v);
    assert Reaches(v, APP, [], {}, ["a"]);
    assert WalkMap(v, APP, {}) == GeneratedOf(v, APP);
  }

  /** A mode asked for on a temporary file is held, masked, by the final path alone once
      the file has been renamed into place. */
  lemma ModeFollowsFile(s: State, cwd: Key, temp: string, final: string, data: Bytes, mode: nat)
    requires Clean(cwd, temp) != Clean(cwd, final)
    ensures var t, f := Clean(cwd, temp), Clean(cwd, final);
            var r := Next(Next(Next(s, cwd, WriteFile(temp, data)), cwd, Chmod(temp, mode)), cwd, Rename(temp, final));
            && f in r.mem.files && r.mem.files[f] == data && t !in r.mem.files
            && f in r.modes && r.modes[f] == mode % MODE_BITS && t !in r.modes
  {
    hide Clean, ParentsOf;
  }

  // --- Comparing -------------------------------------------------------------------------------------

  datatype Drift =
    | Missing(path: Key, generated: Bytes)
    | Content(path: Key, generated: Bytes, existing: Bytes)
    | Mode(path: Key, generated: Bytes, existing: Bytes, mode: nat, existingMode: nat)

  /** The committed files a check reads, and the modes it can learn of them. */
  datatype Tree = Tree(files: map<Key, Bytes>, modes: map<Key, nat>)

  /** d is a way the tree under root differs from the generated files: a file not there,
      other bytes, or the right bytes under another mode than the one declared. */
  ghost predicate Differs(files: map<Key, Bytes>, declared: map<Key, nat>, tree: Tree, root: Key, d: Drift) {
    && d.path in files && d.generated == files[d.path]
    && var at := root + d.path;
       match d
       case Missing(_, _) => at !in tree.files
       case Content(_, gen, have) => at in tree.files && have == tree.files[at] && gen != have
       case Mode(_, gen, have, mode, existing) =>
         && at in tree.files && have == tree.files[at] && gen == have
         && at in declared && at in tree.modes
         && mode == declared[at] % MODE_BITS && existing == tree.modes[at] % MODE_BITS && mode != existing
  }

  /** The tree holds every generated file, byte for byte, and every declared mode it
      can tell. */
  ghost predicate InStep(files: map<Key, Bytes>, declared: map<Key, nat>, tree: Tree, root: Key) {
    forall p | p in files ::
      && root + p in tree.files && tree.files[root + p] == files[p]
      && (root + p in declared && root + p in tree.modes ==> declared[root + p] % MODE_BITS == tree.modes[root + p] % MODE_BITS)
  }

  lemma NoDifference(files: map<Key, Bytes>, declared: map<Key, nat>, tree: Tree, root: Key)
    ensures InStep(files, declared, tree, root) <==> forall d :: !Differs(files, declared, tree, root, d)
  {
    if forall d :: !Differs(files, declared, tree, root, d) {
      forall p | p in files
        ensures root + p in tree.files && tree.files[root + p] == files[p]
        ensures root + p in declared && root + p in tree.modes ==> declared[root + p] % MODE_BITS == tree.modes[root + p] % MODE_BITS
      {
        var at := root + p;
        assert !Differs(files, declared, tree, root, Missing(p, files[p]));
        assert !Differs(files, declared, tree, root, Content(p, files[p], tree.files[at]));
        if at in declared && at in tree.modes {
          assert !Differs(files, declared, tree, root,
                          Mode(p, files[p], tree.files[at], declared[at] % MODE_BITS, tree.modes[at] % MODE_BITS));
        }
      }
    }
  }

  /** The one way a generated file may differ from its committed twin, if it does. */
  method CompareFile(files: map<Key, Bytes>, declared: map<Key, nat>, tree: Tree, root: Key, p: Key)
    returns (found: Option<Drift>)
    requires p in files
    ensures forall d: Drift :: d.path == p && Differs(files, declared, tree, root, d) <==> found == Some(d)
  {
    var gen, at := files[p], root + p;
    if at !in tree.files {
      return Some(Missing(p, gen));
    }
    var have := tree.files[at];
    if gen != have {
      return Some(Content(p, gen, have));
    }
    if at !in declared || at !in tree.modes {
      return None;
    }
    var mode, existing := declared[at] % MODE_BITS, tree.modes[at] % MODE_BITS;
    if existing != mode {
      return Some(Mode(p, gen, have, mode, existing));
    }
    found := None;
  }

  /** Drift entries, one at most for each path checked, in the order of the paths. */
  ghost predicate Follows(drift: seq<Drift>, checked: seq<Key>, from: seq<nat>) {
    && |from| == |drift|
    && (forall m | 0 <= m < |drift| :: from[m] < |checked| && drift[m].path == checked[from[m]])
    && (forall m, n | 0 <= m < n < |drift| :: from[m] < from[n])
  }

  lemma FollowsMore(drift: seq<Drift>, checked: seq<Key>, from: seq<nat>, i: nat, found: Option<Drift>)
    requires i < |checked| && Follows(drift, checked[..i], from) && (found.Some? ==> found.value.path == checked[i])
    ensures Follows(if found.Some? then drift + [found.value] else drift, checked[..i + 1], MoreFrom(from, i, found.Some?))
  {
  }

  /** The drift found among the paths checked so far. */
  ghost predicate Lists(files: map<Key, Bytes>, declared: map<Key, nat>, tree: Tree, root: Key, checked: seq<Key>, drift: seq<Drift>) {
    forall d: Drift :: d in drift <==> d.path in checked && Differs(files, declared, tree, root, d)
  }

  lemma ListsMore(files: map<Key, Bytes>, declared: map<Key, nat>, tree: Tree, root: Key, checked: seq<Key>, i: nat,
                  drift: seq<Drift>, found: Option<Drift>)
    requires i < |checked| && Lists(files, declared, tree, root, checked[..i], drift)
    requires forall d: Drift :: d.path == checked[i] && Differs(files, declared, tree, root, d) <==> found == Some(d)
    ensures Lists(files, declared, tree, root, checked[..i + 1], if found.Some? then drift + [found.value] else drift)
  {
    hide Differs;
    assert checked[..i + 1] == checked[..i] + [checked[i]];
  }

  /** The paths stand in this order, none of them twice. */
  ghost predicate InOrder(paths: seq<Key>, before: (Key, Key) -> bool) {
    forall i, j | 0 <= i < j < |paths| :: before(paths[i], paths[j]) && paths[i] != paths[j]
  }

  ghost function MoreFrom(from: seq<nat>, i: nat, more: bool): seq<nat> {
    if more then from + [i] else from
  }

  method Compare(files: map<Key, Bytes>, declared: map<Key, nat>, tree: Tree, root: Key, checked: seq<Key>,
                 ghost before: (Key, Key) -> bool) returns (drift: seq<Drift>)
    requires forall p :: p in checked <==> p in files
    requires InOrder(checked, before)
    ensures forall d :: d in drift <==> Differs(files, declared, tree, root, d)
    ensures forall i, j | 0 <= i < j < |drift| :: before(drift[i].path, drift[j].path) && drift[i].path != drift[j].path
    ensures drift == [] <==> InStep(files, declared, tree, root)
  {
    hide InStep, Differs, Lists, Follows, MoreFrom, InOrder;
    drift := [];
    ghost var from: seq<nat> := [];
    assert Follows(drift, checked[..0], from) && Lists(files, declared, tree, root, checked[..0], drift) by {
      NothingFound(files, declared, tree, root);
      assert checked[..0] == [];
    }
    for i := 0 to |checked|
      invariant Follows(drift, checked[..i], from) && Lists(files, declared, tree, root, checked[..i], drift)
    {
      var found := CompareFile(files, declared, tree, root, checked[i]);
      FollowsMore(drift, checked, from, i, found);
      ListsMore(files, declared, tree, root, checked, i, drift, found);
      from := MoreFrom(from, i, found.Some?);
      if found.Some? {
        drift := drift + [found.value];
      }
    }
    assert checked[..|checked|] == checked;
    ListsAll(files, declared, tree, root, checked, drift);
    FollowsInOrder(drift, checked, from, before);
  }

  lemma NothingFound(files: map<Key, Bytes>, declared: map<Key, nat>, tree: Tree, root: Key)
    ensures Follows([], [], []) && Lists(files, declared, tree, root, [], [])
  {
  }

  lemma FollowsInOrder(drift: seq<Drift>, checked: seq<Key>, from: seq<nat>, before: (Key, Key) -> bool)
    requires Follows(drift, checked, from)
    requires InOrder(checked, before)
    ensures forall i, j | 0 <= i < j < |drift| :: before(drift[i].path, drift[j].path) && drift[i].path != drift[j].path
  {
    forall i, j | 0 <= i < j < |drift| ensures before(drift[i].path, drift[j].path) && drift[i].path != drift[j].path {
      assert from[i] < from[j];
    }
  }

  lemma ListsAll(files: map<Key, Bytes>, declared: map<Key, nat>, tree: Tree, root: Key, checked: seq<Key>, drift: seq<Drift>)
    requires Lists(files, declared, tree, root, checked, drift) && forall p :: p in checked <==> p in files
    ensures forall d :: d in drift <==> Differs(files, declared, tree, root, d)
    ensures drift == [] <==> InStep(files, declared, tree, root)
  {
    DifferingIsChecked(files, declared, tree, root);
    NoDifference(files, declared, tree, root);
    hide InStep, Differs;
    assert drift != [] ==> drift[0] in drift;
  }

  lemma DifferingIsChecked(files: map<Key, Bytes>, declared: map<Key, nat>, tree: Tree, root: Key)
    ensures forall d | Differs(files, declared, tree, root, d) :: d.path in files
  {
  }
}
