/** What a committed plan leaves in the tree, said path by path. */
module FilePlanResult {
  import opened Basics
  import opened FileTree
  import opened FilePlan

  lemma {:induction false} DirsAre(tree: Tree, dirs: seq<Path>)
    requires WellFormed(tree) && AllAddable(tree, dirs)
    ensures WellFormed(WithDirs(tree, dirs))
    ensures forall p :: p in tree ==> p in WithDirs(tree, dirs) && WithDirs(tree, dirs)[p] == tree[p]
    ensures forall p :: p in WithDirs(tree, dirs) ==> p in tree || (p in dirs && WithDirs(tree, dirs)[p] == Dir)
  {
    if dirs != [] {
      var init, last := dirs[..|dirs| - 1], dirs[|dirs| - 1];
      DirsAre(tree, init);
      StaysWellFormed(WithDirs(tree, init), last, Dir);
    }
  }

  lemma StaysWellFormed(tree: Tree, p: Path, node: Node)
    requires WellFormed(tree) && CanAdd(tree, p)
    ensures WellFormed(tree[p := node])
  {
  }

  /** One planned file: only it and directories above it are new. */
  lemma FileIs(tree: Tree, abs: Path, content: string)
    requires WellFormed(tree) && Placeable(tree, abs)
    ensures
      var after := WithFile(tree, abs, content);
      && WellFormed(after) && abs !in tree && abs in after && after[abs] == File(content)
      && (forall p :: p in tree ==> p in after && after[p] == tree[p])
      && (forall p :: p in after ==> p in tree || p == abs || (p <= abs && after[p] == Dir))
  {
    var dirs := Missing(tree, Parent(abs));
    MissingAreNew(tree, Parent(abs));
    DirsAre(tree, dirs);
    StaysWellFormed(WithDirs(tree, dirs), abs, File(content));
    assert abs !in tree;
    forall p | p in dirs
      ensures p <= abs
    {
      assert Parent(abs) <= abs;
    }
  }

  ghost predicate IsPlannedFile(root: Path, creates: seq<PlannedCreate>, p: Path) {
    exists i :: 0 <= i < |creates| && Absolute(root, creates[i].rel) == p
  }

  ghost predicate LiesAbovePlanned(root: Path, creates: seq<PlannedCreate>, p: Path) {
    exists i :: 0 <= i < |creates| && p <= Absolute(root, creates[i].rel)
  }

  lemma {:induction false} CreatesKeepTree(tree: Tree, root: Path, creates: seq<PlannedCreate>)
    requires WellFormed(tree) && Buildable(tree, root, creates)
    ensures WellFormed(WithCreates(tree, root, creates))
    ensures forall p :: p in tree ==>
      p in WithCreates(tree, root, creates) && WithCreates(tree, root, creates)[p] == tree[p]
  {
    if creates != [] {
      var init, last := creates[..|creates| - 1], creates[|creates| - 1];
      CreatesKeepTree(tree, root, init);
      hide WithFile, Placeable, Absolute, WellFormed;
      FileIs(WithCreates(tree, root, init), Absolute(root, last.rel), last.content);
    }
  }

  lemma {:induction false} CreatesAreThere(tree: Tree, root: Path, creates: seq<PlannedCreate>, i: nat)
    requires WellFormed(tree) && Buildable(tree, root, creates) && i < |creates|
    ensures
      var after, abs := WithCreates(tree, root, creates), Absolute(root, creates[i].rel);
      abs !in tree && abs in after && after[abs] == File(creates[i].content)
  {
    var init, last := creates[..|creates| - 1], creates[|creates| - 1];
    CreatesKeepTree(tree, root, init);
    hide WithFile, Placeable, Absolute, WellFormed;
    FileIs(WithCreates(tree, root, init), Absolute(root, last.rel), last.content);
    if i < |init| {
      CreatesAreThere(tree, root, init, i);
    }
  }

  /** Every new path is a planned file or a directory above one. */
  ghost predicate Explained(root: Path, creates: seq<PlannedCreate>, after: Tree, p: Path)
    requires p in after
  {
    IsPlannedFile(root, creates, p) || (after[p] == Dir && LiesAbovePlanned(root, creates, p))
  }

  lemma ExplainedStill(root: Path, creates: seq<PlannedCreate>, before: Tree, after: Tree, p: Path)
    requires creates != [] && p in before && p in after && before[p] == after[p]
    requires Explained(root, creates[..|creates| - 1], before, p)
    ensures Explained(root, creates, after, p)
  {
    hide Absolute;
    var init := creates[..|creates| - 1];
    if IsPlannedFile(root, init, p) {
      var i :| 0 <= i < |init| && Absolute(root, init[i].rel) == p;
      assert Absolute(root, creates[i].rel) == p;
    } else {
      var i :| 0 <= i < |init| && p <= Absolute(root, init[i].rel);
      assert p <= Absolute(root, creates[i].rel);
    }
  }

  lemma {:induction false} CreatesAreAll(tree: Tree, root: Path, creates: seq<PlannedCreate>, p: Path)
    requires WellFormed(tree) && Buildable(tree, root, creates)
    requires p in WithCreates(tree, root, creates) && p !in tree
    ensures Explained(root, creates, WithCreates(tree, root, creates), p)
  {
    if creates != [] {
      var init, last := creates[..|creates| - 1], |creates| - 1;
      var before, abs := WithCreates(tree, root, init), Absolute(root, creates[last].rel);
      CreatesKeepTree(tree, root, init);
      hide WithFile, Placeable, Absolute, WellFormed;
      FileIs(before, abs, creates[last].content);
      if p in before {
        CreatesAreAll(tree, root, init, p);
        ExplainedStill(root, creates, before, WithCreates(tree, root, creates), p);
      } else if p != abs {
        assert p <= Absolute(root, creates[last].rel);
      }
    }
  }

  ghost predicate IsEdited(root: Path, edited: seq<Edited>, p: Path) {
    exists i :: 0 <= i < |edited| && Absolute(root, edited[i].rel) == p
  }

  /** Edit `i` is the last one of its file. */
  ghost predicate IsLastEdit(root: Path, edited: seq<Edited>, i: nat)
    requires i < |edited|
  {
    forall j :: i < j < |edited| ==> Absolute(root, edited[j].rel) != Absolute(root, edited[i].rel)
  }

  lemma {:induction false} EditsKeepOthers(tree: Tree, root: Path, edited: seq<Edited>, p: Path)
    ensures p in tree ==> p in WithEdits(tree, root, edited)
    ensures !IsEdited(root, edited, p) ==>
      (p in WithEdits(tree, root, edited) <==> p in tree) && (p in tree ==> WithEdits(tree, root, edited)[p] == tree[p])
  {
    hide Absolute;
    if edited != [] {
      var init, last := edited[..|edited| - 1], |edited| - 1;
      EditsKeepOthers(tree, root, init, p);
      if IsEdited(root, init, p) {
        var i :| 0 <= i < |init| && Absolute(root, init[i].rel) == p;
        assert Absolute(root, edited[i].rel) == p;
      }
      assert p == Absolute(root, edited[last].rel) ==> IsEdited(root, edited, p);
    }
  }

  lemma {:induction false} LastEditIsThere(tree: Tree, root: Path, edited: seq<Edited>, i: nat)
    requires i < |edited| && IsLastEdit(root, edited, i)
    ensures
      var after, abs := WithEdits(tree, root, edited), Absolute(root, edited[i].rel);
      abs in after && after[abs] == File(edited[i].next)
  {
    hide Absolute;
    var init, last := edited[..|edited| - 1], |edited| - 1;
    if i < last {
      assert IsLastEdit(root, init, i);
      LastEditIsThere(tree, root, init, i);
      assert Absolute(root, edited[last].rel) != Absolute(root, edited[i].rel);
    }
  }

  /** Replacing the texts of files leaves every directory where it is. */
  lemma {:induction false} EditsStayWellFormed(tree: Tree, root: Path, edited: seq<Edited>)
    requires WellFormed(tree) && forall i :: 0 <= i < |edited| ==> IsFile(tree, Absolute(root, edited[i].rel))
    ensures WellFormed(WithEdits(tree, root, edited))
    ensures forall p :: IsFile(tree, p) ==> IsFile(WithEdits(tree, root, edited), p)
  {
    if edited != [] {
      hide Absolute;
      EditsStayWellFormed(tree, root, edited[..|edited| - 1]);
    }
  }

  /**
   * The committed tree is the tree before, plus exactly the planned files with their contents and
   * the directories that were missing above them, with exactly the edited files changed. It is again
   * a tree: everything in it lies in a directory.
   */
  lemma CommittedIsThePlan(
      tree: Tree, root: Path, creates: seq<PlannedCreate>, edits: seq<PlannedEdit>, edited: seq<Edited>)
    requires WellFormed(tree) && Validation(tree, root, creates, edits) == Ok(edited)
    requires Buildable(tree, root, creates)
    ensures
      var after := Committed(tree, root, creates, edited);
      && WellFormed(after)
      && (forall p :: p in tree ==> p in after)
      && (forall p :: p in tree && !IsEdited(root, edited, p) ==> after[p] == tree[p])
      && (forall i :: 0 <= i < |edited| && IsLastEdit(root, edited, i) ==>
            var abs := Absolute(root, edited[i].rel);
            abs in tree && abs in after && after[abs] == File(edited[i].next))
      && (forall i :: 0 <= i < |creates| ==>
            var abs := Absolute(root, creates[i].rel);
            abs !in tree && abs in after && after[abs] == File(creates[i].content))
      && (forall p :: p in after && p !in tree ==>
            IsPlannedFile(root, creates, p) || (after[p] == Dir && LiesAbovePlanned(root, creates, p)))
  {
    hide Absolute, Resolve, WellFormed, WithCreates, WithEdits, Buildable;
    var created := WithCreates(tree, root, creates);
    CreatesKeepTree(tree, root, creates);
    forall i | 0 <= i < |creates|
      ensures Absolute(root, creates[i].rel) !in tree && Absolute(root, creates[i].rel) in created
      ensures created[Absolute(root, creates[i].rel)] == File(creates[i].content)
    {
      CreatesAreThere(tree, root, creates, i);
    }
    forall p | p in created && p !in tree
      ensures Explained(root, creates, created, p)
    {
      CreatesAreAll(tree, root, creates, p);
    }
    var after := Committed(tree, root, creates, edited);
    forall p
      ensures p in created ==> p in after
      ensures !IsEdited(root, edited, p) ==> (p in after <==> p in created) && (p in created ==> after[p] == created[p])
    {
      EditsKeepOthers(created, root, edited, p);
    }
    forall i | 0 <= i < |edited| && IsLastEdit(root, edited, i)
      ensures Absolute(root, edited[i].rel) in after && after[Absolute(root, edited[i].rel)] == File(edited[i].next)
    {
      LastEditIsThere(created, root, edited, i);
    }
    forall p | IsEdited(root, edited, p)
      ensures p in tree
    {
      var i :| 0 <= i < |edited| && Absolute(root, edited[i].rel) == p;
      EditsReadTheTree(tree, root, edits, i);
    }
    forall i | 0 <= i < |edited|
      ensures Absolute(root, edited[i].rel) in tree && IsFile(created, Absolute(root, edited[i].rel))
    {
      EditsReadTheTree(tree, root, edits, i);
    }
    EditsStayWellFormed(created, root, edited);
  }

  // ----- A write that stops short

  lemma {:induction false} SameResolution(
      tree: Tree, root: Path, creates: seq<PlannedCreate>, written: seq<PlannedCreate>)
    requires CutFrom(creates, written)
    ensures FirstUnresolved(tree, root, written) == FirstUnresolved(tree, root, creates)
    ensures ConflictsOf(tree, root, written) == ConflictsOf(tree, root, creates)
  {
    if creates != [] {
      hide Resolve, Absolute;
      SameResolution(tree, root, creates[..|creates| - 1], written[..|creates| - 1]);
    } else {
      assert written == [];
    }
  }

  /** The files as written are a valid plan as well, so everything here is true of what they leave. */
  lemma WrittenIsValid(
      tree: Tree, root: Path, creates: seq<PlannedCreate>, written: seq<PlannedCreate>, edits: seq<PlannedEdit>)
    requires CutFrom(creates, written)
    ensures Validation(tree, root, written, edits) == Validation(tree, root, creates, edits)
    ensures Buildable(tree, root, written) <==> Buildable(tree, root, creates)
  {
    hide FirstUnresolved, ConflictsOf, EditsOf;
    SameResolution(tree, root, creates, written);
    SameShapeBuilt(tree, root, creates, written);
  }

  /**
   * A commit that reports success has left what was planned exactly when no write of a new file
   * stopped short: the number of bytes written is not looked at.
   */
  lemma PlannedExactlyWhenWhole(
      tree: Tree, root: Path, creates: seq<PlannedCreate>, written: seq<PlannedCreate>, edits: seq<PlannedEdit>,
      edited: seq<Edited>)
    requires WellFormed(tree) && Validation(tree, root, creates, edits) == Ok(edited)
    requires Buildable(tree, root, creates) && CutFrom(creates, written)
    ensures Committed(tree, root, written, edited) == Committed(tree, root, creates, edited)
       <==> forall i :: 0 <= i < |creates| ==> |written[i].content| == |creates[i].content|
  {
    hide Validation, Buildable, Committed, Absolute, WellFormed;
    WrittenIsValid(tree, root, creates, written, edits);
    CommittedIsThePlan(tree, root, creates, edits, edited);
    CommittedIsThePlan(tree, root, written, edits, edited);
    if Committed(tree, root, written, edited) == Committed(tree, root, creates, edited) {
      forall i | 0 <= i < |creates|
        ensures |written[i].content| == |creates[i].content|
      {
        assert written[i].rel == creates[i].rel;
      }
    }
    if forall i :: 0 <= i < |creates| ==> |written[i].content| == |creates[i].content| {
      forall i | 0 <= i < |creates|
        ensures written[i] == creates[i]
      {
        assert written[i].content <= creates[i].content;
      }
      assert written == creates;
    }
  }

  // ----- When a commit can succeed

  /** Nothing is at the place, and what there is above it is directories. */
  ghost predicate IsFree(tree: Tree, abs: Path) {
    abs != [] && abs !in tree && forall p :: p < abs && p in tree ==> tree[p].Dir?
  }

  lemma {:induction false} DirsCanBeMade(tree: Tree, dir: Path)
    requires WellFormed(tree) && forall p :: p <= dir && p in tree ==> tree[p].Dir?
    ensures AllAddable(tree, Missing(tree, dir)) && IsDir(WithDirs(tree, Missing(tree, dir)), dir)
  {
    if dir !in tree && dir != [] {
      DirsCanBeMade(tree, Parent(dir));
      var above := Missing(tree, Parent(dir));
      assert (above + [dir])[..|above|] == above;
      MissingAreNew(tree, Parent(dir));
      DirsGrowTree(tree, above);
    }
  }

  lemma {:induction false} AboveIsDir(tree: Tree, p: Path, above: Path)
    requires WellFormed(tree) && p in tree && above < p
    ensures IsDir(tree, above)
    decreases |p|
  {
    if above != Parent(p) {
      AboveIsDir(tree, Parent(p), above);
    }
  }

  lemma PlaceableExactlyWhen(tree: Tree, abs: Path)
    requires WellFormed(tree)
    ensures Placeable(tree, abs) <==> IsFree(tree, abs)
  {
    var dirs := Missing(tree, Parent(abs));
    if Placeable(tree, abs) {
      FileIs(tree, abs, "");
      var after := WithFile(tree, abs, "");
      forall p | p < abs && p in tree
        ensures tree[p].Dir?
      {
        AboveIsDir(after, abs, p);
      }
    }
    if IsFree(tree, abs) {
      forall p | p <= Parent(abs) && p in tree
        ensures tree[p].Dir?
      {
        assert p < abs;
      }
      DirsCanBeMade(tree, Parent(abs));
      MissingAreNew(tree, Parent(abs));
      DirsGrowTree(tree, dirs);
      assert abs !in dirs;
    }
  }

  /** No two of the planned files are one, and none lies below another. */
  ghost predicate Apart(root: Path, creates: seq<PlannedCreate>) {
    forall i, j :: 0 <= i < |creates| && 0 <= j < |creates| && i != j ==>
      !(Absolute(root, creates[i].rel) <= Absolute(root, creates[j].rel))
  }

  ghost predicate ApartFrom(root: Path, creates: seq<PlannedCreate>, abs: Path) {
    forall i :: 0 <= i < |creates| ==>
      !(Absolute(root, creates[i].rel) <= abs) && !(abs <= Absolute(root, creates[i].rel))
  }

  lemma ApartFromOthers(root: Path, creates: seq<PlannedCreate>, n: nat)
    requires |creates| == n + 1
    ensures Apart(root, creates)
       <==> Apart(root, creates[..n]) && ApartFrom(root, creates[..n], Absolute(root, creates[n].rel))
  {
    hide Absolute;
    var init := creates[..n];
    assert forall i :: 0 <= i < n ==> init[i] == creates[i];
    if Apart(root, init) && ApartFrom(root, init, Absolute(root, creates[n].rel)) {
      forall i, j | 0 <= i <= n && 0 <= j <= n && i != j
        ensures !(Absolute(root, creates[i].rel) <= Absolute(root, creates[j].rel))
      {
        if i < n && j < n {
          assert !(Absolute(root, init[i].rel) <= Absolute(root, init[j].rel));
        } else {
          var other := if i < n then i else j;
          assert init[other] == creates[other];
        }
      }
    }
    if Apart(root, creates) {
      forall i | 0 <= i < n
        ensures !(Absolute(root, init[i].rel) <= Absolute(root, creates[n].rel))
        ensures !(Absolute(root, creates[n].rel) <= Absolute(root, init[i].rel))
      {
        assert init[i] == creates[i];
      }
    }
  }

  /** After the files before it, a file fits exactly when its place is free at the start and apart from theirs. */
  lemma FreeAfterOthers(tree: Tree, root: Path, creates: seq<PlannedCreate>, abs: Path)
    requires WellFormed(tree) && Buildable(tree, root, creates)
    ensures Placeable(WithCreates(tree, root, creates), abs) <==> IsFree(tree, abs) && ApartFrom(root, creates, abs)
  {
    hide Absolute, WithCreates, Buildable, Placeable;
    var after := WithCreates(tree, root, creates);
    CreatesKeepTree(tree, root, creates);
    PlaceableExactlyWhen(after, abs);
    forall i | 0 <= i < |creates|
      ensures IsFree(after, abs) ==>
        !(Absolute(root, creates[i].rel) <= abs) && !(abs <= Absolute(root, creates[i].rel))
    {
      CreatesAreThere(tree, root, creates, i);
      var other := Absolute(root, creates[i].rel);
      assert other in after && after[other].File?;
      if IsFree(after, abs) {
        assert other != abs;
        if abs < other {
          AboveIsDir(after, other, abs);
        }
      }
    }
    forall p | p in after && p !in tree
      ensures Explained(root, creates, after, p)
    {
      CreatesAreAll(tree, root, creates, p);
    }
  }

  /**
   * The planned files can be created exactly when, for each, nothing is at its place and no file is in
   * the way above it, and no two of them are one or lie below one another.
   */
  lemma {:induction false} BuildableExactlyWhen(tree: Tree, root: Path, creates: seq<PlannedCreate>)
    requires WellFormed(tree)
    ensures Buildable(tree, root, creates)
       <==> Apart(root, creates) && forall i :: 0 <= i < |creates| ==> IsFree(tree, Absolute(root, creates[i].rel))
  {
    if creates != [] {
      hide Absolute, WithCreates, WellFormed, Placeable, IsFree, Apart, ApartFrom;
      var n := |creates| - 1;
      var init, abs := creates[..n], Absolute(root, creates[n].rel);
      BuildableExactlyWhen(tree, root, init);
      if Buildable(tree, root, init) {
        FreeAfterOthers(tree, root, init, abs);
      }
      assert forall i :: 0 <= i < n ==> init[i] == creates[i];
      ApartFromOthers(root, creates, n);
    }
  }

  /** The text of a file after some edits: what the last edit of it made it. */
  lemma {:induction false} TextAfterEdits(tree: Tree, root: Path, edited: seq<Edited>, p: Path, original: string)
    requires p in tree && tree[p] == File(original)
    ensures p in WithEdits(tree, root, edited)
    ensures
      (forall i :: 0 <= i < |edited| && Absolute(root, edited[i].rel) == p ==> edited[i].next == original)
      ==> WithEdits(tree, root, edited)[p] == File(original)
  {
    if edited != [] {
      hide Absolute;
      TextAfterEdits(tree, root, edited[..|edited| - 1], p, original);
    }
  }

  /** Each edit was computed from the text of its file. */
  ghost predicate ReadFrom(tree: Tree, root: Path, edited: seq<Edited>) {
    forall i :: 0 <= i < |edited| ==>
      var p := Absolute(root, edited[i].rel);
      p in tree && tree[p] == File(edited[i].original)
  }

  /** Every edit of a file but the last leaves its text as it is. */
  ghost predicate OnlyLastEditsChange(root: Path, edited: seq<Edited>) {
    forall i, j :: 0 <= i < j < |edited| && Absolute(root, edited[i].rel) == Absolute(root, edited[j].rel) ==>
      edited[i].next == edited[i].original
  }

  /**
   * Two names may stand for one file: both edits are then computed from the text at the start, and the
   * second finds it changed. So all edits go through exactly when every edit of a file but the last
   * leaves its text as it is.
   */
  lemma {:induction false} RereadsExactlyWhen(tree: Tree, root: Path, edited: seq<Edited>)
    requires ReadFrom(tree, root, edited)
    ensures Rereads(tree, root, edited) <==> OnlyLastEditsChange(root, edited)
  {
    if edited != [] {
      hide Absolute;
      var n := |edited| - 1;
      var init, p := edited[..n], Absolute(root, edited[n].rel);
      assert ReadFrom(tree, root, init);
      RereadsExactlyWhen(tree, root, init);
      if OnlyLastEditsChange(root, edited) {
        assert OnlyLastEditsChange(root, init);
        TextAfterEdits(tree, root, init, p, edited[n].original);
      }
      if Rereads(tree, root, edited) {
        LastChangeShows(tree, root, init, p, edited[n].original);
      }
    }
  }

  /** If a file reads as at the start after edits of which only the last may change it, none has changed it. */
  lemma {:induction false} LastChangeShows(tree: Tree, root: Path, edited: seq<Edited>, p: Path, original: string)
    requires ReadFrom(tree, root, edited) && OnlyLastEditsChange(root, edited)
    requires p in tree && tree[p] == File(original)
    requires p in WithEdits(tree, root, edited) && WithEdits(tree, root, edited)[p] == File(original)
    ensures forall i :: 0 <= i < |edited| && Absolute(root, edited[i].rel) == p ==> edited[i].next == original
  {
    if edited != [] {
      hide Absolute;
      var n := |edited| - 1;
      if Absolute(root, edited[n].rel) != p {
        LastChangeShows(tree, root, edited[..n], p, original);
      }
    }
  }

  // ----- Nothing outside the root

  predicate IsClean(segment: string) {
    segment != "" && segment != "." && segment != ".."
  }

  /** A resolved path has no empty, `.` or `..` segments of its own left. */
  lemma {:induction false} WalkIsClean(at: Path, segments: seq<string>)
    requires forall i :: 0 <= i < |at| ==> IsClean(at[i])
    ensures forall i :: 0 <= i < |Walk(at, segments)| ==> IsClean(Walk(at, segments)[i])
    decreases |segments|
  {
    if segments != [] {
      var s := segments[0];
      WalkIsClean(if s == "" || s == "." then at else if s == ".." then Parent(at) else at + [s], segments[1..]);
    }
  }

  lemma {:induction false} NearestIsThere(tree: Tree, p: Path)
    requires WellFormed(tree)
    ensures NearestExisting(tree, p) in tree
  {
    if p !in tree && p != [] {
      NearestIsThere(tree, Parent(p));
    }
  }

  lemma {:induction false} AboveIsThere(tree: Tree, p: Path, above: Path)
    requires WellFormed(tree) && p in tree && above <= p
    ensures above in tree
    decreases |p|
  {
    if above != p {
      AboveIsThere(tree, Parent(p), above);
    }
  }

  lemma NewPathsLieInside(tree: Tree, root: Path, rel: string, p: Path)
    requires WellFormed(tree) && Resolve(tree, root, rel).Ok? && p <= Absolute(root, rel) && p !in tree
    ensures root < p
  {
    var abs := Absolute(root, rel);
    var nearest := NearestExisting(tree, abs);
    NearestIsThere(tree, abs);
    if !(root < p) {
      assert p <= root <= nearest;
      AboveIsThere(tree, nearest, p);
    }
  }

  /** Whatever the planned names look like, nothing outside the repository is added, changed or removed. */
  lemma NothingOutsideTheRoot(
      tree: Tree, root: Path, creates: seq<PlannedCreate>, edits: seq<PlannedEdit>, edited: seq<Edited>, p: Path)
    requires WellFormed(tree) && Validation(tree, root, creates, edits) == Ok(edited)
    requires Buildable(tree, root, creates) && !(root < p)
    ensures
      var after := Committed(tree, root, creates, edited);
      (p in after <==> p in tree) && (p in tree ==> after[p] == tree[p])
  {
    hide WithCreates, WithEdits, Buildable, WellFormed, Absolute;
    CommittedIsThePlan(tree, root, creates, edits, edited);
    var after := Committed(tree, root, creates, edited);
    if p in after && p !in tree {
      var i: nat :| i < |creates| && p <= Absolute(root, creates[i].rel);
      AllResolve(tree, root, creates, i);
      NewPathsLieInside(tree, root, creates[i].rel, p);
    }
    if IsEdited(root, edited, p) {
      var i: nat :| i < |edited| && Absolute(root, edited[i].rel) == p;
      AllEditsResolve(tree, root, edits, i);
    }
  }
}
