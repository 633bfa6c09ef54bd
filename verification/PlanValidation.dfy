/** What validation accepts, what it computes, and which error it reports. */
module PlanValidation {
  import opened Basics
  import opened FileTree
  import opened FilePlan

  /** The conflicts reported are exactly the names of planned files that are already there. */
  lemma {:induction false} ConflictsAreAll(tree: Tree, root: Path, creates: seq<PlannedCreate>, rel: string)
    ensures rel in ConflictsOf(tree, root, creates)
       <==> exists i :: 0 <= i < |creates| && creates[i].rel == rel && Absolute(root, rel) in tree
  {
    hide Absolute;
    if creates != [] {
      var n := |creates| - 1;
      ConflictsAreAll(tree, root, creates[..n], rel);
      if i :| 0 <= i < |creates| && creates[i].rel == rel && Absolute(root, rel) in tree {
        assert i < n ==> creates[..n][i].rel == rel;
      }
    }
  }

  /** The error about creates is that of the first name that does not resolve. */
  lemma {:induction false} FirstUnresolvedIs(tree: Tree, root: Path, creates: seq<PlannedCreate>)
    ensures FirstUnresolved(tree, root, creates).None?
       <==> forall i :: 0 <= i < |creates| ==> Resolve(tree, root, creates[i].rel).Ok?
    ensures FirstUnresolved(tree, root, creates).Some? ==>
      exists i :: 0 <= i < |creates| &&
        Resolve(tree, root, creates[i].rel) == Err(FirstUnresolved(tree, root, creates).value) &&
        forall j :: 0 <= j < i ==> Resolve(tree, root, creates[j].rel).Ok?
  {
    hide Resolve;
    if creates != [] {
      var n := |creates| - 1;
      var init := creates[..n];
      FirstUnresolvedIs(tree, root, init);
      assert forall i :: 0 <= i < n ==> init[i] == creates[i];
      if FirstUnresolved(tree, root, init).Some? {
        var i :| 0 <= i < n && Resolve(tree, root, init[i].rel) == Err(FirstUnresolved(tree, root, init).value) &&
          forall j :: 0 <= j < i ==> Resolve(tree, root, init[j].rel).Ok?;
        assert Resolve(tree, root, creates[i].rel) == Err(FirstUnresolved(tree, root, creates).value);
      } else if Resolve(tree, root, creates[n].rel).Err? {
        assert Resolve(tree, root, creates[n].rel) == Err(FirstUnresolved(tree, root, creates).value);
      }
    }
  }

  /** An edit can be made: its name resolves to a file whose text the transform recognises. */
  predicate CanEdit(tree: Tree, root: Path, edit: PlannedEdit) {
    && Resolve(tree, root, edit.rel).Ok?
    && var abs := Absolute(root, edit.rel);
       abs in tree && tree[abs].File? && edit.transform(tree[abs].text).Some?
  }

  /** What an edit is computed to be: the transform applied to the text that is there. */
  ghost predicate IsEditOf(tree: Tree, root: Path, edit: PlannedEdit, edited: Edited) {
    && edited.rel == edit.rel
    && Absolute(root, edit.rel) in tree && tree[Absolute(root, edit.rel)] == File(edited.original)
    && edit.transform(edited.original) == Some(edited.next)
  }

  lemma OneEdit(tree: Tree, root: Path, edit: PlannedEdit)
    ensures EditOf(tree, root, edit).Ok? <==> CanEdit(tree, root, edit)
    ensures EditOf(tree, root, edit).Ok? ==> IsEditOf(tree, root, edit, EditOf(tree, root, edit).value)
    ensures
      var resolved := Resolve(tree, root, edit.rel);
      resolved.Err? ==> EditOf(tree, root, edit) == Err(resolved.error)
    ensures Resolve(tree, root, edit.rel).Ok? && !IsFile(tree, Absolute(root, edit.rel)) ==>
      EditOf(tree, root, edit) == Err(FileNotFound(edit.rel))
    ensures Resolve(tree, root, edit.rel).Ok? && IsFile(tree, Absolute(root, edit.rel)) &&
            edit.transform(tree[Absolute(root, edit.rel)].text).None? ==>
      EditOf(tree, root, edit) == Err(TransformRefused(edit.rel))
  {
    hide Absolute;
  }

  lemma {:induction false} EditsAre(tree: Tree, root: Path, edits: seq<PlannedEdit>)
    ensures EditsOf(tree, root, edits).Ok? <==> forall i :: 0 <= i < |edits| ==> CanEdit(tree, root, edits[i])
    ensures EditsOf(tree, root, edits).Ok? ==>
      var edited := EditsOf(tree, root, edits).value;
      |edited| == |edits| && forall i :: 0 <= i < |edits| ==> IsEditOf(tree, root, edits[i], edited[i])
    ensures EditsOf(tree, root, edits).Err? ==>
      exists i :: 0 <= i < |edits| && EditOf(tree, root, edits[i]) == Err(EditsOf(tree, root, edits).error) &&
        forall j :: 0 <= j < i ==> CanEdit(tree, root, edits[j])
  {
    hide EditOf, CanEdit, IsEditOf;
    if edits != [] {
      var n := |edits| - 1;
      var init := edits[..n];
      EditsAre(tree, root, init);
      OneEdit(tree, root, edits[n]);
      assert forall i :: 0 <= i < n ==> init[i] == edits[i];
      if EditsOf(tree, root, init).Err? {
        var i :| 0 <= i < n && EditOf(tree, root, init[i]) == Err(EditsOf(tree, root, init).error) &&
          forall j :: 0 <= j < i ==> CanEdit(tree, root, init[j]);
        OneEdit(tree, root, edits[i]);
        assert EditOf(tree, root, edits[i]) == Err(EditsOf(tree, root, edits).error);
      } else if EditOf(tree, root, edits[n]).Err? {
        assert EditOf(tree, root, edits[n]) == Err(EditsOf(tree, root, edits).error);
      }
    }
  }

  /**
   * A plan is valid exactly when every name resolves, no planned file is there yet, and every edit can
   * be made; it then comes with the edits in their order, each computed by its transform.
   */
  lemma ValidExactlyWhen(tree: Tree, root: Path, creates: seq<PlannedCreate>, edits: seq<PlannedEdit>)
    ensures Validation(tree, root, creates, edits).Ok?
       <==> && (forall i :: 0 <= i < |creates| ==>
                  Resolve(tree, root, creates[i].rel).Ok? && Absolute(root, creates[i].rel) !in tree)
            && (forall i :: 0 <= i < |edits| ==> CanEdit(tree, root, edits[i]))
    ensures Validation(tree, root, creates, edits).Ok? ==>
      var edited := Validation(tree, root, creates, edits).value;
      |edited| == |edits| && forall i :: 0 <= i < |edits| ==> IsEditOf(tree, root, edits[i], edited[i])
  {
    hide Resolve, Absolute, FirstUnresolved, ConflictsOf, EditsOf, CanEdit, IsEditOf;
    FirstUnresolvedIs(tree, root, creates);
    EditsAre(tree, root, edits);
    forall i | 0 <= i < |creates|
      ensures Absolute(root, creates[i].rel) in tree <==> creates[i].rel in ConflictsOf(tree, root, creates)
    {
      ConflictsAreAll(tree, root, creates, creates[i].rel);
    }
    if ConflictsOf(tree, root, creates) != [] {
      ConflictsAreAll(tree, root, creates, ConflictsOf(tree, root, creates)[0]);
    }
  }
}
