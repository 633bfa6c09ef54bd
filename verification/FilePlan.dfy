/** Planned creates and edits of files, which a commit applies all or not at all. */
module FilePlan {
  import opened Basics
  import opened FileTree
  import Texts

  datatype PlanError =
    | UnsafePath
    | OutsideRepository
    | PlannedTwice
    | Conflicts(rels: seq<string>)
    | FileNotFound(rel: string)
    | TransformRefused(rel: string)
    | RolledBack

  /** A planned edit's transform gives `None` when it does not recognise the text. */
  datatype PlannedCreate = PlannedCreate(rel: string, content: string)
  datatype PlannedEdit = PlannedEdit(rel: string, transform: string -> Option<string>)

  datatype Summary = Summary(created: seq<string>, edited: seq<string>)

  /** A file to create, and an edit with the text it was computed from. */
  datatype Edited = Edited(rel: string, original: string, next: string)

  // ----- Paths

  function Walk(at: Path, segments: seq<string>): Path
    decreases |segments|
  {
    if segments == [] then at
    else
      var s := segments[0];
      Walk(if s == "" || s == "." then at else if s == ".." then Parent(at) else at + [s], segments[1..])
  }

  /** `path.resolve(root, rel)`. */
  function Absolute(root: Path, rel: string): Path {
    Walk(root, Texts.Split(rel, '/'))
  }

  predicate IsInside(root: Path, abs: Path) {
    root < abs && !(".." <= abs[|root|])
  }

  function NearestExisting(tree: Tree, p: Path): Path {
    if p in tree || p == [] then p else NearestExisting(tree, Parent(p))
  }

  /** The absolute path of `rel`, if it and its nearest existing ancestor lie inside the root. */
  function Resolve(tree: Tree, root: Path, rel: string): Result<Path, PlanError> {
    if rel == "" || '\0' in rel || rel[0] == '/' || '\\' in rel then Err(UnsafePath)
    else
      var abs := Absolute(root, rel);
      if !IsInside(root, abs) || !(root <= NearestExisting(tree, abs)) then Err(OutsideRepository)
      else Ok(abs)
  }

  // ----- What a plan should do to the tree

  /** The directories missing on the way down to `dir`, outermost first. */
  function Missing(tree: Tree, dir: Path): seq<Path> {
    if dir in tree || dir == [] then [] else Missing(tree, Parent(dir)) + [dir]
  }

  function WithDirs(tree: Tree, dirs: seq<Path>): Tree {
    if dirs == [] then tree else WithDirs(tree, dirs[..|dirs| - 1])[dirs[|dirs| - 1] := Dir]
  }

  function WithFile(tree: Tree, abs: Path, content: string): Tree {
    WithDirs(tree, Missing(tree, Parent(abs)))[abs := File(content)]
  }

  function WithCreates(tree: Tree, root: Path, creates: seq<PlannedCreate>): Tree {
    if creates == [] then tree
    else
      var last := creates[|creates| - 1];
      WithFile(WithCreates(tree, root, creates[..|creates| - 1]), Absolute(root, last.rel), last.content)
  }

  function WithEdits(tree: Tree, root: Path, edited: seq<Edited>): Tree {
    if edited == [] then tree
    else
      var last := edited[|edited| - 1];
      WithEdits(tree, root, edited[..|edited| - 1])[Absolute(root, last.rel) := File(last.next)]
  }

  /** Each directory can be made when its turn comes. */
  predicate AllAddable(tree: Tree, dirs: seq<Path>) {
    dirs != [] ==>
      var init := dirs[..|dirs| - 1];
      AllAddable(tree, init) && CanAdd(WithDirs(tree, init), dirs[|dirs| - 1])
  }

  predicate Placeable(tree: Tree, abs: Path) {
    var dirs := Missing(tree, Parent(abs));
    AllAddable(tree, dirs) && CanAdd(WithDirs(tree, dirs), abs)
  }

  /** No planned file is in the way of another one or of its directories. */
  predicate Buildable(tree: Tree, root: Path, creates: seq<PlannedCreate>) {
    creates != [] ==>
      var init := creates[..|creates| - 1];
      Buildable(tree, root, init) &&
      Placeable(WithCreates(tree, root, init), Absolute(root, creates[|creates| - 1].rel))
  }

  /** Every file to edit still reads as it did, when its turn comes, after the edits before it. */
  predicate Rereads(tree: Tree, root: Path, edited: seq<Edited>) {
    edited != [] ==>
      var init, last := edited[..|edited| - 1], edited[|edited| - 1];
      var abs, now := Absolute(root, last.rel), WithEdits(tree, root, init);
      Rereads(tree, root, init) && abs in now && now[abs] == File(last.original)
  }

  /** The same files, each with what a write that may stop short has left of its text. */
  ghost predicate CutFrom(creates: seq<PlannedCreate>, written: seq<PlannedCreate>) {
    |written| == |creates| && forall i :: 0 <= i < |creates| ==>
      written[i].rel == creates[i].rel && written[i].content <= creates[i].content
  }

  // ----- The record kept for undoing

  datatype Undo = Undo(files: seq<Path>, dirs: seq<Path>, edits: seq<(Path, string)>)

  ghost function Listed(paths: seq<Path>): set<Path> {
    set p | p in paths
  }

  ghost function EditedPaths(edits: seq<(Path, string)>): set<Path> {
    set e | e in edits :: e.0
  }

  /** New directories, each listed after the one it lies in. */
  ghost predicate MadeInOrder(start: Tree, dirs: seq<Path>) {
    dirs != [] ==>
      var init, last := dirs[..|dirs| - 1], dirs[|dirs| - 1];
      && MadeInOrder(start, init)
      && last != [] && last !in WithDirs(start, init) && Parent(last) in WithDirs(start, init)
  }

  /**
   * The tree differs from the one at the start only by what the record lists: new directories, new
   * files, and edited files whose first text is remembered.
   */
  ghost predicate Undoable(start: Tree, tree: Tree, undo: Undo) {
    var base := WithDirs(start, undo.dirs);
    && WellFormed(start) && MadeInOrder(start, undo.dirs)
    && tree.Keys == base.Keys + Listed(undo.files) && base.Keys !! Listed(undo.files)
    && (forall p :: p in undo.files ==> tree[p].File?)
    && (forall p :: p in base && p !in EditedPaths(undo.edits) ==> tree[p] == base[p])
    && (forall e :: e in undo.edits ==> e.0 in base && base[e.0] == File(e.1))
  }

  /** Takes every recorded step back: edits first, then files, then directories, each in reverse. */
  method RollBack(fs: FileSystem, undo: Undo, ghost start: Tree)
    requires Undoable(start, fs.tree, undo)
    modifies fs`tree
    ensures fs.tree == start
  {
    RestoreEdits(fs, undo, start);
    RemoveFiles(fs, undo.files, WithDirs(start, undo.dirs));
    RemoveDirs(fs, undo.dirs, start);
  }

  method RestoreEdits(fs: FileSystem, undo: Undo, ghost start: Tree)
    requires Undoable(start, fs.tree, undo)
    modifies fs`tree
    ensures Listed(undo.files) !! WithDirs(start, undo.dirs).Keys
    ensures fs.tree - Listed(undo.files) == WithDirs(start, undo.dirs)
  {
    ghost var base := WithDirs(start, undo.dirs);
    var k := |undo.edits|;
    hide Undoable, WithDirs, EditsLeft, Listed;
    assert undo.edits[..k] == undo.edits;
    EditsToTakeBack(start, fs.tree, undo);
    while k > 0
      invariant 0 <= k <= |undo.edits|
      invariant EditsLeft(base, fs.tree, undo.files, undo.edits[..k])
    {
      k := k - 1;
      var (path, text) := undo.edits[k];
      assert (path, text) in undo.edits;
      assert undo.edits[..k + 1] == undo.edits[..k] + [(path, text)];
      EditTakenBack(base, fs.tree, undo.files, undo.edits[..k], path, text);
      fs.Restore(path, text);
    }
    NoEditsLeft(base, fs.tree, undo.files);
  }

  /** The tree is the base and the new files, but for the edits still to be taken back. */
  ghost predicate EditsLeft(base: Tree, tree: Tree, files: seq<Path>, edits: seq<(Path, string)>) {
    && tree.Keys == base.Keys + Listed(files)
    && forall p :: p in base && p !in EditedPaths(edits) ==> tree[p] == base[p]
  }

  lemma EditsToTakeBack(start: Tree, tree: Tree, undo: Undo)
    requires Undoable(start, tree, undo)
    ensures
      var base := WithDirs(start, undo.dirs);
      && EditsLeft(base, tree, undo.files, undo.edits) && Listed(undo.files) !! base.Keys
      && forall e :: e in undo.edits ==> e.0 in base && base[e.0] == File(e.1)
  {
  }

  lemma EditTakenBack(base: Tree, tree: Tree, files: seq<Path>, edits: seq<(Path, string)>, p: Path, text: string)
    requires EditsLeft(base, tree, files, edits + [(p, text)]) && p in base && base[p] == File(text)
    ensures EditsLeft(base, tree[p := File(text)], files, edits)
  {
    hide EditedPaths, Listed;
    EditedPathsGrow(edits, p, text);
  }

  lemma NoEditsLeft(base: Tree, tree: Tree, files: seq<Path>)
    requires EditsLeft(base, tree, files, []) && base.Keys !! Listed(files)
    ensures tree - Listed(files) == base
  {
  }

  lemma EditedPathsGrow(edits: seq<(Path, string)>, p: Path, text: string)
    ensures EditedPaths(edits + [(p, text)]) == EditedPaths(edits) + {p}
  {
    assert forall e :: e in edits + [(p, text)] <==> e in edits || e == (p, text);
    assert (p, text) in edits + [(p, text)];
  }

  method RemoveFiles(fs: FileSystem, files: seq<Path>, ghost base: Tree)
    requires base.Keys !! Listed(files) && fs.tree - Listed(files) == base
    modifies fs`tree
    ensures fs.tree == base
  {
    var k := |files|;
    assert files[..k] == files;
    while k > 0
      invariant 0 <= k <= |files|
      invariant fs.tree - Listed(files[..k]) == base
    {
      k := k - 1;
      assert files[..k + 1] == files[..k] + [files[k]];
      assert Listed(files[..k + 1]) == Listed(files[..k]) + {files[k]};
      fs.Remove(files[k]);
    }
    assert Listed(files[..0]) == {};
  }

  method RemoveDirs(fs: FileSystem, dirs: seq<Path>, ghost start: Tree)
    requires WellFormed(start) && MadeInOrder(start, dirs) && fs.tree == WithDirs(start, dirs)
    modifies fs`tree
    ensures fs.tree == start
  {
    var k := |dirs|;
    assert dirs[..k] == dirs;
    while k > 0
      invariant 0 <= k <= |dirs|
      invariant MadeInOrder(start, dirs[..k]) && fs.tree == WithDirs(start, dirs[..k])
    {
      k := k - 1;
      assert dirs[..k + 1][..k] == dirs[..k];
      NothingLiesIn(start, dirs[..k], dirs[k]);
      fs.Rmdir(dirs[k]);
    }
  }

  /** A path that is not in the tree holds nothing, so the directory made last is still empty. */
  lemma {:induction false} NothingLiesIn(start: Tree, dirs: seq<Path>, d: Path)
    requires WellFormed(start) && MadeInOrder(start, dirs) && d !in WithDirs(start, dirs)
    ensures forall q {:trigger Parent(q)} :: q in WithDirs(start, dirs) && q != [] ==> Parent(q) != d
  {
    if dirs != [] {
      NothingLiesIn(start, dirs[..|dirs| - 1], d);
    }
  }

  // ----- Each forward step keeps the record good

  lemma DirsGrow(start: Tree, dirs: seq<Path>, p: Path)
    requires MadeInOrder(start, dirs)
    requires p != [] && p !in WithDirs(start, dirs) && Parent(p) in WithDirs(start, dirs)
    ensures WithDirs(start, dirs + [p]) == WithDirs(start, dirs)[p := Dir]
    ensures MadeInOrder(start, dirs + [p])
  {
    assert (dirs + [p])[..|dirs + [p]| - 1] == dirs;
  }

  lemma DirRecorded(start: Tree, tree: Tree, undo: Undo, p: Path)
    requires Undoable(start, tree, undo) && CanAdd(tree, p)
    ensures Undoable(start, tree[p := Dir], undo.(dirs := undo.dirs + [p]))
  {
    hide WithDirs, MadeInOrder, WellFormed, EditedPaths;
    assert p !in undo.files;
    assert Parent(p) !in undo.files;
    DirsGrow(start, undo.dirs, p);
  }

  lemma FileRecorded(start: Tree, tree: Tree, undo: Undo, p: Path)
    requires Undoable(start, tree, undo) && CanAdd(tree, p)
    ensures Undoable(start, tree[p := File("")], undo.(files := undo.files + [p]))
  {
    assert Listed(undo.files + [p]) == Listed(undo.files) + {p};
    assert p !in undo.files;
  }

  lemma NewFileWritten(start: Tree, tree: Tree, undo: Undo, p: Path, text: string)
    requires Undoable(start, tree, undo) && p in undo.files
    ensures Undoable(start, tree[p := File(text)], undo)
  {
  }

  lemma EditRecorded(start: Tree, tree: Tree, undo: Undo, p: Path, original: string)
    requires Undoable(start, tree, undo) && p in start && start[p] == File(original)
    ensures Undoable(start, tree, undo.(edits := undo.edits + [(p, original)]))
    ensures p in EditedPaths(undo.edits + [(p, original)])
  {
    hide MadeInOrder, WellFormed, WithDirs, EditedPaths, Listed;
    DirsKeepStart(start, undo.dirs);
    EditedPathsGrow(undo.edits, p, original);
  }

  lemma EditWritten(start: Tree, tree: Tree, undo: Undo, p: Path, text: string)
    requires Undoable(start, tree, undo) && p in EditedPaths(undo.edits)
    ensures Undoable(start, tree[p := File(text)], undo)
  {
    hide MadeInOrder, WellFormed, WithDirs;
  }

  lemma {:induction false} DirsKeepStart(start: Tree, dirs: seq<Path>)
    requires MadeInOrder(start, dirs)
    ensures forall p :: p in start ==> p in WithDirs(start, dirs) && WithDirs(start, dirs)[p] == start[p]
  {
    if dirs != [] {
      DirsKeepStart(start, dirs[..|dirs| - 1]);
    }
  }

  // ----- The forward steps

  method MissingDirs(fs: FileSystem, dir: Path) returns (missing: seq<Path>)
    ensures missing == Missing(fs.tree, dir)
  {
    missing := [];
    var current := dir;
    while current !in fs.tree && current != []
      invariant Missing(fs.tree, dir) == Missing(fs.tree, current) + missing
      decreases |current|
    {
      missing := [current] + missing;
      current := Parent(current);
    }
  }

  method MakeDirs(fs: FileSystem, dirs: seq<Path>, undo0: Undo, ghost start: Tree) returns (ok: bool, undo: Undo)
    requires Undoable(start, fs.tree, undo0)
    modifies fs
    ensures Undoable(start, fs.tree, undo) && undo.edits == undo0.edits
    ensures ok ==> fs.tree == WithDirs(old(fs.tree), dirs) && AllAddable(old(fs.tree), dirs)
    ensures !fs.faulty ==> !old(fs.faulty) && (ok <==> AllAddable(old(fs.tree), dirs))
  {
    undo := undo0;
    hide Undoable, CanAdd;
    for i := 0 to |dirs|
      invariant Undoable(start, fs.tree, undo) && undo.edits == undo0.edits
      invariant fs.tree == WithDirs(old(fs.tree), dirs[..i]) && AllAddable(old(fs.tree), dirs[..i])
      invariant !fs.faulty ==> !old(fs.faulty)
    {
      ghost var before := fs.tree;
      assert dirs[..i + 1][..i] == dirs[..i];
      ok := fs.Mkdir(dirs[i]);
      if !ok {
        AddableSoFar(old(fs.tree), dirs, i + 1);
        return false, undo;
      }
      DirRecorded(start, before, undo, dirs[i]);
      undo := undo.(dirs := undo.dirs + [dirs[i]]);
    }
    assert dirs[..|dirs|] == dirs;
    ok := true;
  }

  lemma {:induction false} AddableSoFar(tree: Tree, dirs: seq<Path>, n: nat)
    requires n <= |dirs|
    ensures AllAddable(tree, dirs) ==> AllAddable(tree, dirs[..n])
  {
    if n == |dirs| {
      assert dirs[..n] == dirs;
    } else {
      assert dirs[..|dirs| - 1][..n] == dirs[..n];
      AddableSoFar(tree, dirs[..|dirs| - 1], n);
    }
  }

  /**
   * One planned file: its missing directories, the file, its text, and the close that always follows.
   * `written` is what is in the file then: the source does not look at how much one write took.
   */
  method CreateFile(fs: FileSystem, abs: Path, content: string, undo0: Undo, ghost start: Tree)
    returns (ok: bool, undo: Undo, ghost written: string)
    requires Undoable(start, fs.tree, undo0)
    modifies fs
    ensures Undoable(start, fs.tree, undo) && undo.edits == undo0.edits
    ensures ok ==> written <= content && fs.tree == WithFile(old(fs.tree), abs, written)
    ensures ok ==> Placeable(old(fs.tree), abs)
    ensures !fs.faulty ==> !old(fs.faulty) && (ok <==> Placeable(old(fs.tree), abs))
  {
    hide Undoable, CanAdd, AllAddable, WithDirs, Missing, Parent, Listed, EditedPaths, MadeInOrder, WellFormed;
    written := "";
    var missing := MissingDirs(fs, Parent(abs));
    ok, undo := MakeDirs(fs, missing, undo0, start);
    if !ok {
      return;
    }
    ghost var before := fs.tree;
    ok := fs.OpenNew(abs);
    if !ok {
      return;
    }
    FileRecorded(start, before, undo, abs);
    undo := undo.(files := undo.files + [abs]);
    ghost var empty := fs.tree;
    ok, written := fs.Write(abs, content);
    NewFileWritten(start, empty, undo, abs, written);
    var closed := fs.Close();
    ok := ok && closed;
  }

  /** One planned edit: the file must still read as it did when the edit was computed. */
  method EditFile(fs: FileSystem, abs: Path, original: string, next: string, undo0: Undo, ghost start: Tree)
    returns (ok: bool, undo: Undo)
    requires Undoable(start, fs.tree, undo0) && abs in start && start[abs] == File(original)
    modifies fs
    ensures Undoable(start, fs.tree, undo)
    ensures ok ==> abs in old(fs.tree) && old(fs.tree)[abs] == File(original)
    ensures ok ==> fs.tree == old(fs.tree)[abs := File(next)]
    ensures !fs.faulty ==>
      !old(fs.faulty) && (ok <==> abs in old(fs.tree) && old(fs.tree)[abs] == File(original))
  {
    hide Undoable;
    undo := undo0;
    var current := fs.ReadFile(abs);
    if current != Some(original) {
      return false, undo;
    }
    EditRecorded(start, fs.tree, undo, abs, original);
    undo := undo.(edits := undo.edits + [(abs, original)]);
    ghost var before := fs.tree;
    ok := fs.WriteFile(abs, next);
    if ok {
      EditWritten(start, before, undo, abs, next);
    } else if fs.tree != before {
      ghost var partial :| fs.tree == before[abs := File(partial)];
      EditWritten(start, before, undo, abs, partial);
    }
  }

  // ----- Validation

  function FirstUnresolved(tree: Tree, root: Path, creates: seq<PlannedCreate>): Option<PlanError> {
    if creates == [] then None
    else
      var earlier := FirstUnresolved(tree, root, creates[..|creates| - 1]);
      if earlier.Some? then earlier
      else
        match Resolve(tree, root, creates[|creates| - 1].rel)
        case Err(error) => Some(error)
        case Ok(_) => None
  }

  function ConflictsOf(tree: Tree, root: Path, creates: seq<PlannedCreate>): seq<string> {
    if creates == [] then []
    else
      var last := creates[|creates| - 1].rel;
      ConflictsOf(tree, root, creates[..|creates| - 1]) + if Absolute(root, last) in tree then [last] else []
  }

  /** The text of an edit of a file that is there and has the expected shape. */
  function EditOf(tree: Tree, root: Path, edit: PlannedEdit): Result<Edited, PlanError> {
    match Resolve(tree, root, edit.rel)
    case Err(error) => Err(error)
    case Ok(abs) =>
      if !IsFile(tree, abs) then Err(FileNotFound(edit.rel))
      else
        match edit.transform(tree[abs].text)
        case None => Err(TransformRefused(edit.rel))
        case Some(next) => Ok(Edited(edit.rel, tree[abs].text, next))
  }

  function EditsOf(tree: Tree, root: Path, edits: seq<PlannedEdit>): Result<seq<Edited>, PlanError> {
    if edits == [] then Ok([])
    else
      match EditsOf(tree, root, edits[..|edits| - 1])
      case Err(error) => Err(error)
      case Ok(earlier) =>
        match EditOf(tree, root, edits[|edits| - 1])
        case Err(error) => Err(error)
        case Ok(edited) => Ok(earlier + [edited])
  }

  function Validation(tree: Tree, root: Path, creates: seq<PlannedCreate>, edits: seq<PlannedEdit>)
    : Result<seq<Edited>, PlanError>
  {
    var unresolved := FirstUnresolved(tree, root, creates);
    var conflicts := ConflictsOf(tree, root, creates);
    if unresolved.Some? then Err(unresolved.value)
    else if conflicts != [] then Err(Conflicts(conflicts))
    else EditsOf(tree, root, edits)
  }

  /** The tree a committed plan leaves. */
  function Committed(tree: Tree, root: Path, creates: seq<PlannedCreate>, edited: seq<Edited>): Tree {
    WithEdits(WithCreates(tree, root, creates), root, edited)
  }

  lemma {:induction false} EditsReadTheTree(tree: Tree, root: Path, edits: seq<PlannedEdit>, i: nat)
    requires EditsOf(tree, root, edits).Ok? && i < |EditsOf(tree, root, edits).value|
    ensures
      var edited := EditsOf(tree, root, edits).value[i];
      var abs := Absolute(root, edited.rel);
      abs in tree && tree[abs] == File(edited.original)
  {
    var init := edits[..|edits| - 1];
    if i < |EditsOf(tree, root, init).value| {
      EditsReadTheTree(tree, root, init, i);
    }
  }

  // ----- The plan

  class Plan {
    const root: Path
    var creates: seq<PlannedCreate>
    var edits: seq<PlannedEdit>

    constructor (root: Path)
      ensures this.root == root && creates == [] && edits == []
    {
      this.root := root;
      creates, edits := [], [];
    }

    predicate IsPlanned(rel: string)
      reads this
    {
      (exists i :: 0 <= i < |creates| && creates[i].rel == rel) || (exists i :: 0 <= i < |edits| && edits[i].rel == rel)
    }

    method Create(rel: string, content: string) returns (r: Result<(), PlanError>)
      modifies this`creates
      ensures r == if old(IsPlanned(rel)) then Err(PlannedTwice) else Ok(())
      ensures creates == if r.Ok? then old(creates) + [PlannedCreate(rel, content)] else old(creates)
    {
      if IsPlanned(rel) {
        return Err(PlannedTwice);
      }
      creates := creates + [PlannedCreate(rel, content)];
      r := Ok(());
    }

    method Edit(rel: string, transform: string -> Option<string>) returns (r: Result<(), PlanError>)
      modifies this`edits
      ensures r == if old(IsPlanned(rel)) then Err(PlannedTwice) else Ok(())
      ensures edits == if r.Ok? then old(edits) + [PlannedEdit(rel, transform)] else old(edits)
    {
      if IsPlanned(rel) {
        return Err(PlannedTwice);
      }
      edits := edits + [PlannedEdit(rel, transform)];
      r := Ok(());
    }

    /** Checks everything and computes every edit; writes nothing. */
    method Validate(fs: FileSystem) returns (r: Result<seq<Edited>, PlanError>)
      ensures r == Validation(fs.tree, root, creates, edits)
    {
      hide Resolve, Absolute, EditOf;
      for i := 0 to |creates|
        invariant FirstUnresolved(fs.tree, root, creates[..i]) == None
      {
        assert creates[..i + 1][..i] == creates[..i];
        var abs := Resolve(fs.tree, root, creates[i].rel);
        if abs.Err? {
          StaysUnresolved(fs.tree, root, creates, i + 1);
          return Err(abs.error);
        }
      }
      assert creates[..|creates|] == creates;
      var conflicts := [];
      for i := 0 to |creates|
        invariant conflicts == ConflictsOf(fs.tree, root, creates[..i])
      {
        assert creates[..i + 1][..i] == creates[..i];
        if Absolute(root, creates[i].rel) in fs.tree {
          conflicts := conflicts + [creates[i].rel];
        }
      }
      if conflicts != [] {
        return Err(Conflicts(conflicts));
      }
      var edited := [];
      for i := 0 to |edits|
        invariant EditsOf(fs.tree, root, edits[..i]) == Ok(edited)
      {
        assert edits[..i + 1][..i] == edits[..i];
        var one := EditOf(fs.tree, root, edits[i]);
        if one.Err? {
          StaysRefused(fs.tree, root, edits, i + 1);
          return Err(one.error);
        }
        edited := edited + [one.value];
      }
      assert edits[..|edits|] == edits;
      r := Ok(edited);
    }

    /**
     * Validates, then writes. Whatever step fails, and whatever that step left behind, the tree is
     * in the end as it was; otherwise it is exactly what the plan says, with the texts as far as they
     * were written. When no step fails of its own accord it succeeds exactly when the planned files
     * are not in each other's way and every file to edit still reads as it did.
     */
    method Commit(fs: FileSystem, dryRun: bool)
      returns (r: Result<Summary, PlanError>, ghost written: seq<PlannedCreate>)
      requires WellFormed(fs.tree)
      modifies fs
      ensures r.Err? || dryRun ==> fs.tree == old(fs.tree)
      ensures
        match Validation(old(fs.tree), root, creates, edits)
        case Err(error) => r == Err(error)
        case Ok(edited) =>
          var possible := Buildable(old(fs.tree), root, creates)
            && Rereads(WithCreates(old(fs.tree), root, creates), root, edited);
          && (dryRun ==> r.Ok?) && (r.Err? ==> r.error == RolledBack)
          && (r.Ok? ==> r.value == Summary(RelsOfCreates(creates), RelsOfEdits(edits)))
          && (r.Ok? && !dryRun ==>
                && possible && CutFrom(creates, written)
                && fs.tree == Committed(old(fs.tree), root, written, edited))
          && (!fs.faulty && !dryRun ==> (r.Ok? <==> possible))
    {
      written := [];
      var edited := Validate(fs);
      if edited.Err? {
        return Err(edited.error), written;
      }
      if dryRun {
        return Ok(Summary(RelsOfCreates(creates), RelsOfEdits(edits))), written;
      }
      var ok, undo;
      ok, undo, written := Apply(fs, edited.value);
      if !ok {
        RollBack(fs, undo, old(fs.tree));
        return Err(RolledBack), written;
      }
      r := Ok(Summary(RelsOfCreates(creates), RelsOfEdits(edits)));
    }

    /** The guarded part of `Commit`: stops at the first failure with a record of what was done. */
    method Apply(fs: FileSystem, edited: seq<Edited>)
      returns (ok: bool, undo: Undo, ghost written: seq<PlannedCreate>)
      requires WellFormed(fs.tree) && Validation(fs.tree, root, creates, edits) == Ok(edited)
      modifies fs
      ensures Undoable(old(fs.tree), fs.tree, undo)
      ensures
        var possible := Buildable(old(fs.tree), root, creates)
          && Rereads(WithCreates(old(fs.tree), root, creates), root, edited);
        && (ok ==> possible && CutFrom(creates, written) && fs.tree == Committed(old(fs.tree), root, written, edited))
        && (!fs.faulty ==> !old(fs.faulty) && (ok <==> possible))
    {
      hide Undoable, Validation, Buildable, Rereads, WithCreates, WithEdits;
      ok, undo, written := ApplyCreates(fs, edited);
      if ok {
        ghost var start := old(fs.tree);
        EditsAreValid(start, root, creates, edits, edited);
        TreeGrows(start, root, written);
        RereadsWhatIsWritten(start, root, creates, written, edits, edited);
        ok, undo := ApplyEdits(fs, edited, undo, start);
      }
    }

    method ApplyCreates(fs: FileSystem, ghost edited: seq<Edited>)
      returns (ok: bool, undo: Undo, ghost written: seq<PlannedCreate>)
      requires WellFormed(fs.tree) && Validation(fs.tree, root, creates, edits) == Ok(edited)
      modifies fs
      ensures Undoable(old(fs.tree), fs.tree, undo)
      ensures ok ==> Buildable(old(fs.tree), root, creates) && CutFrom(creates, written)
      ensures ok ==> fs.tree == WithCreates(old(fs.tree), root, written)
      ensures !fs.faulty ==> !old(fs.faulty) && (ok <==> Buildable(old(fs.tree), root, creates))
    {
      hide *;
      undo, written, ok := Undo([], [], []), [], true;
      NothingDone(fs.tree, root);
      assert creates[..0] == [];
      for i := 0 to |creates|
        invariant Undoable(old(fs.tree), fs.tree, undo) && CutFrom(creates[..i], written)
        invariant fs.tree == WithCreates(old(fs.tree), root, written) && Buildable(old(fs.tree), root, creates[..i])
        invariant !fs.faulty ==> !old(fs.faulty)
      {
        ok, undo, written := ApplyCreate(fs, i, undo, written, old(fs.tree));
        if !ok {
          BuildableSoFar(old(fs.tree), root, creates, i + 1);
          return;
        }
      }
      assert creates[..|creates|] == creates;
      ok := true;
    }

    /** The next file, after the first `i`. */
    method ApplyCreate(fs: FileSystem, i: nat, undo0: Undo, ghost written0: seq<PlannedCreate>, ghost start: Tree)
      returns (ok: bool, undo: Undo, ghost written: seq<PlannedCreate>)
      requires i < |creates| && Validation(start, root, creates, edits).Ok?
      requires Undoable(start, fs.tree, undo0) && CutFrom(creates[..i], written0)
      requires fs.tree == WithCreates(start, root, written0) && Buildable(start, root, creates[..i])
      modifies fs
      ensures Undoable(start, fs.tree, undo)
      ensures ok ==> Buildable(start, root, creates[..i + 1]) && CutFrom(creates[..i + 1], written)
      ensures ok ==> fs.tree == WithCreates(start, root, written)
      ensures !fs.faulty ==> !old(fs.faulty) && (ok <==> Buildable(start, root, creates[..i + 1]))
    {
      hide *;
      undo, written := undo0, written0;
      StillCreatable(start, root, creates, edits, written, i);
      var abs := Resolve(fs.tree, root, creates[i].rel);
      if abs.Err? {
        return false, undo, written;
      }
      ghost var text;
      ok, undo, text := CreateFile(fs, abs.value, creates[i].content, undo, start);
      if ok {
        CutMore(creates, written, i, text);
        BuiltMore(start, root, written, creates[i].rel, text);
        written := written + [PlannedCreate(creates[i].rel, text)];
      }
    }

    method ApplyEdits(fs: FileSystem, edited: seq<Edited>, undo0: Undo, ghost start: Tree)
      returns (ok: bool, undo: Undo)
      requires Undoable(start, fs.tree, undo0) && EditsOf(start, root, edits) == Ok(edited)
      requires start.Keys <= fs.tree.Keys
      modifies fs
      ensures Undoable(start, fs.tree, undo)
      ensures ok ==> Rereads(old(fs.tree), root, edited) && fs.tree == WithEdits(old(fs.tree), root, edited)
      ensures !fs.faulty ==> !old(fs.faulty) && (ok <==> Rereads(old(fs.tree), root, edited))
    {
      undo := undo0;
      ok := true;
      hide Undoable, Resolve, EditsOf, Absolute, NearestExisting;
      for i := 0 to |edited|
        invariant Undoable(start, fs.tree, undo)
        invariant fs.tree == WithEdits(old(fs.tree), root, edited[..i]) && Rereads(old(fs.tree), root, edited[..i])
        invariant start.Keys <= fs.tree.Keys
        invariant !fs.faulty ==> !old(fs.faulty)
      {
        assert edited[..i + 1][..i] == edited[..i];
        EditsReadTheTree(start, root, edits, i);
        AllEditsResolve(start, root, edits, i);
        StillResolves(start, fs.tree, root, edited[i].rel);
        var abs := Resolve(fs.tree, root, edited[i].rel);
        if abs.Err? {
          return false, undo;
        }
        ok, undo := EditFile(fs, abs.value, edited[i].original, edited[i].next, undo, start);
        if !ok {
          RereadsSoFar(old(fs.tree), root, edited, i + 1);
          return false, undo;
        }
      }
      assert edited[..|edited|] == edited;
      ok := true;
    }
  }

  // ----- What was validated still holds when it is applied

  lemma {:induction false} NearestInMore(tree: Tree, more: Tree, p: Path)
    requires tree.Keys <= more.Keys
    ensures NearestExisting(tree, p) <= NearestExisting(more, p) <= p
  {
    if p !in more && p != [] {
      NearestInMore(tree, more, Parent(p));
    } else if p !in tree && p != [] {
      NearestInMore(tree, tree, Parent(p));
    }
  }

  /** A path that resolved still resolves, to the same place, in a tree that holds more. */
  lemma StillResolves(tree: Tree, more: Tree, root: Path, rel: string)
    requires tree.Keys <= more.Keys && Resolve(tree, root, rel).Ok?
    ensures Resolve(more, root, rel) == Ok(Absolute(root, rel))
  {
    hide Absolute;
    NearestInMore(tree, more, Absolute(root, rel));
  }

  lemma EditsAreValid(
      tree: Tree, root: Path, creates: seq<PlannedCreate>, edits: seq<PlannedEdit>, edited: seq<Edited>)
    requires Validation(tree, root, creates, edits) == Ok(edited)
    ensures EditsOf(tree, root, edits) == Ok(edited)
  {
  }

  lemma {:induction false} AllEditsResolve(tree: Tree, root: Path, edits: seq<PlannedEdit>, i: nat)
    requires EditsOf(tree, root, edits).Ok? && i < |EditsOf(tree, root, edits).value|
    ensures Resolve(tree, root, EditsOf(tree, root, edits).value[i].rel).Ok?
  {
    hide Resolve;
    var init := edits[..|edits| - 1];
    if i < |EditsOf(tree, root, init).value| {
      AllEditsResolve(tree, root, init, i);
    }
  }

  lemma {:induction false} AllResolve(tree: Tree, root: Path, creates: seq<PlannedCreate>, i: nat)
    requires FirstUnresolved(tree, root, creates).None? && i < |creates|
    ensures Resolve(tree, root, creates[i].rel).Ok?
  {
    hide Resolve;
    if i < |creates| - 1 {
      AllResolve(tree, root, creates[..|creates| - 1], i);
    }
  }

  lemma CreatesResolve(tree: Tree, root: Path, creates: seq<PlannedCreate>, edits: seq<PlannedEdit>, i: nat)
    requires Validation(tree, root, creates, edits).Ok? && i < |creates|
    ensures Resolve(tree, root, creates[i].rel).Ok?
  {
    hide Resolve;
    AllResolve(tree, root, creates, i);
  }

  lemma NothingDone(start: Tree, root: Path)
    ensures WellFormed(start) ==> Undoable(start, start, Undo([], [], []))
    ensures WithCreates(start, root, []) == start && Buildable(start, root, []) && CutFrom([], [])
  {
  }

  lemma {:induction false} DirsGrowTree(tree: Tree, dirs: seq<Path>)
    ensures WithDirs(tree, dirs).Keys == tree.Keys + Listed(dirs)
    ensures forall p :: p in tree && p !in dirs ==> WithDirs(tree, dirs)[p] == tree[p]
  {
    if dirs != [] {
      DirsGrowTree(tree, dirs[..|dirs| - 1]);
      assert Listed(dirs) == Listed(dirs[..|dirs| - 1]) + {dirs[|dirs| - 1]};
    }
  }

  lemma {:induction false} TreeGrows(tree: Tree, root: Path, creates: seq<PlannedCreate>)
    ensures tree.Keys <= WithCreates(tree, root, creates).Keys
  {
    if creates != [] {
      hide Absolute;
      var init, last := creates[..|creates| - 1], creates[|creates| - 1];
      TreeGrows(tree, root, init);
      DirsGrowTree(
        WithCreates(tree, root, init), Missing(WithCreates(tree, root, init), Parent(Absolute(root, last.rel))));
    }
  }

  lemma {:induction false} BuildableSoFar(tree: Tree, root: Path, creates: seq<PlannedCreate>, n: nat)
    requires n <= |creates|
    ensures Buildable(tree, root, creates) ==> Buildable(tree, root, creates[..n])
  {
    if n == |creates| {
      assert creates[..n] == creates;
    } else {
      hide Placeable;
      assert creates[..|creates| - 1][..n] == creates[..n];
      BuildableSoFar(tree, root, creates[..|creates| - 1], n);
    }
  }

  lemma {:induction false} RereadsSoFar(tree: Tree, root: Path, edited: seq<Edited>, n: nat)
    requires n <= |edited|
    ensures Rereads(tree, root, edited) ==> Rereads(tree, root, edited[..n])
  {
    if n == |edited| {
      assert edited[..n] == edited;
    } else {
      hide Absolute, WithEdits;
      assert edited[..|edited| - 1][..n] == edited[..n];
      RereadsSoFar(tree, root, edited[..|edited| - 1], n);
    }
  }

  // ----- Texts that were cut make no difference to places

  /** The same paths, with directories and files in the same places. */
  ghost predicate SameShape(a: Tree, b: Tree) {
    a.Keys == b.Keys && forall p :: p in a ==> (a[p].Dir? <==> b[p].Dir?)
  }

  lemma {:induction false} SameDirs(a: Tree, b: Tree, dirs: seq<Path>)
    requires SameShape(a, b)
    ensures SameShape(WithDirs(a, dirs), WithDirs(b, dirs))
    ensures AllAddable(a, dirs) <==> AllAddable(b, dirs)
  {
    if dirs != [] {
      SameDirs(a, b, dirs[..|dirs| - 1]);
    }
  }

  lemma {:induction false} SameMissing(a: Tree, b: Tree, dir: Path)
    requires SameShape(a, b)
    ensures Missing(a, dir) == Missing(b, dir)
  {
    if dir !in a && dir != [] {
      SameMissing(a, b, Parent(dir));
    }
  }

  lemma SamePlaceable(a: Tree, b: Tree, abs: Path)
    requires SameShape(a, b)
    ensures Placeable(a, abs) <==> Placeable(b, abs)
    ensures forall s, t :: SameShape(WithFile(a, abs, s), WithFile(b, abs, t))
  {
    hide AllAddable, WithDirs, Missing;
    SameMissing(a, b, Parent(abs));
    SameDirs(a, b, Missing(a, Parent(abs)));
  }

  lemma {:induction false} SameShapeBuilt(
      tree: Tree, root: Path, creates: seq<PlannedCreate>, written: seq<PlannedCreate>)
    requires CutFrom(creates, written)
    ensures SameShape(WithCreates(tree, root, creates), WithCreates(tree, root, written))
    ensures Buildable(tree, root, creates) <==> Buildable(tree, root, written)
  {
    if creates != [] {
      hide WithFile, Placeable, Absolute, SameShape;
      var n := |creates| - 1;
      SameShapeBuilt(tree, root, creates[..n], written[..n]);
      SamePlaceable(
        WithCreates(tree, root, creates[..n]), WithCreates(tree, root, written[..n]), Absolute(root, creates[n].rel));
    } else {
      assert written == [];
    }
  }

  /** Where the next file can go does not depend on what was cut before. */
  lemma SamePlaces(tree: Tree, root: Path, creates: seq<PlannedCreate>, written: seq<PlannedCreate>, abs: Path)
    requires CutFrom(creates, written)
    ensures Placeable(WithCreates(tree, root, creates), abs) <==> Placeable(WithCreates(tree, root, written), abs)
  {
    hide WithFile, Placeable, SameShape, WithCreates;
    SameShapeBuilt(tree, root, creates, written);
    SamePlaceable(WithCreates(tree, root, creates), WithCreates(tree, root, written), abs);
  }

  /** The next file resolves in the tree built so far, and fits there as it would in the planned one. */
  lemma StillCreatable(
      tree: Tree, root: Path, creates: seq<PlannedCreate>, edits: seq<PlannedEdit>, written: seq<PlannedCreate>, i: nat)
    requires i < |creates| && Validation(tree, root, creates, edits).Ok? && CutFrom(creates[..i], written)
    ensures Resolve(WithCreates(tree, root, written), root, creates[i].rel) == Ok(Absolute(root, creates[i].rel))
    ensures Buildable(tree, root, creates[..i + 1])
       <==> Buildable(tree, root, creates[..i])
            && Placeable(WithCreates(tree, root, written), Absolute(root, creates[i].rel))
  {
    hide Absolute, Resolve, Placeable, WithCreates, Validation, CutFrom;
    CreatesResolve(tree, root, creates, edits, i);
    TreeGrows(tree, root, written);
    StillResolves(tree, WithCreates(tree, root, written), root, creates[i].rel);
    SamePlaces(tree, root, creates[..i], written, Absolute(root, creates[i].rel));
    assert creates[..i + 1][..i] == creates[..i];
  }

  lemma CutMore(creates: seq<PlannedCreate>, written: seq<PlannedCreate>, i: nat, text: string)
    requires i < |creates| && CutFrom(creates[..i], written) && text <= creates[i].content
    ensures CutFrom(creates[..i + 1], written + [PlannedCreate(creates[i].rel, text)])
  {
  }

  lemma BuiltMore(tree: Tree, root: Path, written: seq<PlannedCreate>, rel: string, text: string)
    ensures WithCreates(tree, root, written + [PlannedCreate(rel, text)])
         == WithFile(WithCreates(tree, root, written), Absolute(root, rel), text)
  {
    hide WithFile, Absolute;
    assert (written + [PlannedCreate(rel, text)])[..|written|] == written;
  }

  lemma {:induction false} MissingAreNew(tree: Tree, dir: Path)
    ensures forall d :: d in Missing(tree, dir) ==> d <= dir && d !in tree
  {
    if dir !in tree && dir != [] {
      MissingAreNew(tree, Parent(dir));
    }
  }

  /** Planned files and their directories leave what was there alone. */
  lemma {:induction false} CreatesKeepStart(tree: Tree, root: Path, creates: seq<PlannedCreate>, p: Path)
    requires Buildable(tree, root, creates) && p in tree
    ensures p in WithCreates(tree, root, creates) && WithCreates(tree, root, creates)[p] == tree[p]
  {
    if creates != [] {
      hide Absolute, AllAddable;
      var init, last := creates[..|creates| - 1], creates[|creates| - 1];
      CreatesKeepStart(tree, root, init, p);
      var before, abs := WithCreates(tree, root, init), Absolute(root, last.rel);
      MissingAreNew(before, Parent(abs));
      DirsGrowTree(before, Missing(before, Parent(abs)));
    }
  }

  lemma {:induction false} EditsAgree(a: Tree, b: Tree, root: Path, edited: seq<Edited>, p: Path)
    requires p in a && p in b && a[p] == b[p]
    ensures p in WithEdits(a, root, edited) && p in WithEdits(b, root, edited)
    ensures WithEdits(a, root, edited)[p] == WithEdits(b, root, edited)[p]
  {
    if edited != [] {
      hide Absolute;
      EditsAgree(a, b, root, edited[..|edited| - 1], p);
    }
  }

  lemma {:induction false} RereadsAlike(a: Tree, b: Tree, root: Path, edited: seq<Edited>)
    requires forall i :: 0 <= i < |edited| ==>
      var p := Absolute(root, edited[i].rel);
      p in a && p in b && a[p] == b[p]
    ensures Rereads(a, root, edited) <==> Rereads(b, root, edited)
  {
    if edited != [] {
      hide Absolute, WithEdits;
      var last := |edited| - 1;
      RereadsAlike(a, b, root, edited[..last]);
      EditsAgree(a, b, root, edited[..last], Absolute(root, edited[last].rel));
    }
  }

  /** The files to edit read the same whatever was cut from the files created. */
  lemma RereadsWhatIsWritten(
      tree: Tree, root: Path, creates: seq<PlannedCreate>, written: seq<PlannedCreate>, edits: seq<PlannedEdit>,
      edited: seq<Edited>)
    requires CutFrom(creates, written) && Buildable(tree, root, creates) && EditsOf(tree, root, edits) == Ok(edited)
    ensures Rereads(WithCreates(tree, root, written), root, edited)
       <==> Rereads(WithCreates(tree, root, creates), root, edited)
  {
    hide Absolute, EditsOf, Buildable, WithCreates, Rereads, CutFrom;
    SameShapeBuilt(tree, root, creates, written);
    forall i | 0 <= i < |edited|
      ensures
        var p := Absolute(root, edited[i].rel);
        var a, b := WithCreates(tree, root, creates), WithCreates(tree, root, written);
        p in a && p in b && a[p] == b[p]
    {
      EditsReadTheTree(tree, root, edits, i);
      CreatesKeepStart(tree, root, creates, Absolute(root, edited[i].rel));
      CreatesKeepStart(tree, root, written, Absolute(root, edited[i].rel));
    }
    RereadsAlike(WithCreates(tree, root, creates), WithCreates(tree, root, written), root, edited);
  }

  function RelsOfCreates(creates: seq<PlannedCreate>): (rels: seq<string>)
    ensures |rels| == |creates| && forall i :: 0 <= i < |creates| ==> rels[i] == creates[i].rel
  {
    seq(|creates|, i requires 0 <= i < |creates| => creates[i].rel)
  }

  function RelsOfEdits(edits: seq<PlannedEdit>): (rels: seq<string>)
    ensures |rels| == |edits| && forall i :: 0 <= i < |edits| ==> rels[i] == edits[i].rel
  {
    seq(|edits|, i requires 0 <= i < |edits| => edits[i].rel)
  }

  lemma {:induction false} StaysUnresolved(tree: Tree, root: Path, creates: seq<PlannedCreate>, n: nat)
    requires n <= |creates| && FirstUnresolved(tree, root, creates[..n]).Some?
    ensures FirstUnresolved(tree, root, creates) == FirstUnresolved(tree, root, creates[..n])
    decreases |creates|
  {
    if n == |creates| {
      assert creates[..n] == creates;
    } else {
      assert creates[..|creates| - 1][..n] == creates[..n];
      StaysUnresolved(tree, root, creates[..|creates| - 1], n);
    }
  }

  lemma {:induction false} StaysRefused(tree: Tree, root: Path, edits: seq<PlannedEdit>, n: nat)
    requires n <= |edits| && EditsOf(tree, root, edits[..n]).Err?
    ensures EditsOf(tree, root, edits) == EditsOf(tree, root, edits[..n])
    decreases |edits|
  {
    if n == |edits| {
      assert edits[..n] == edits;
    } else {
      assert edits[..|edits| - 1][..n] == edits[..n];
      StaysRefused(tree, root, edits[..|edits| - 1], n);
    }
  }
}
