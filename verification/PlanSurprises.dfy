/** One plan for each way in which a commit can disappoint, although validation accepts it. */
module PlanSurprises {
  import opened Basics
  import opened FileTree
  import opened FilePlan
  import opened FilePlanResult
  import Texts

  const REPOSITORY: Path := ["r"]

  function EmptyRepository(): Tree {
    map[[] := Dir, REPOSITORY := Dir]
  }

  function WithOneFile(text: string): Tree {
    EmptyRepository()[REPOSITORY + ["a"] := File(text)]
  }

  lemma RepositoriesAreWellFormed(text: string)
    ensures WellFormed(EmptyRepository()) && WellFormed(WithOneFile(text))
  {
    assert Parent(REPOSITORY + ["a"]) == REPOSITORY && Parent(REPOSITORY) == [];
  }

  lemma NamesSplit()
    ensures Texts.Split("a", '/') == ["a"] && Texts.Split("./a", '/') == [".", "a"]
  {
    assert Texts.IndexOf("a", '/') == 1;
    Texts.SplitAt(".", '/', "a");
    assert "." + ['/'] + "a" == "./a";
  }

  /** `a` and `./a` are two acceptable names of one file. */
  lemma OneFileTwoNames(tree: Tree)
    requires REPOSITORY in tree
    ensures Absolute(REPOSITORY, "a") == Absolute(REPOSITORY, "./a") == REPOSITORY + ["a"]
    ensures Resolve(tree, REPOSITORY, "a") == Resolve(tree, REPOSITORY, "./a") == Ok(REPOSITORY + ["a"])
  {
    NamesSplit();
    var at := REPOSITORY + ["a"];
    assert Walk(REPOSITORY, ["a"]) == Walk(at, []) == at;
    assert [".", "a"][1..] == ["a"];
    assert Walk(REPOSITORY, [".", "a"]) == Walk(REPOSITORY, ["a"]);
    assert at[|REPOSITORY|] == "a" && REPOSITORY < at && Parent(at) == REPOSITORY;
    assert NearestExisting(tree, at) == if at in tree then at else REPOSITORY;
  }

  /** While the file is not there, validation accepts creates under either name. */
  lemma {:induction false} CreatesAreAccepted(tree: Tree, creates: seq<PlannedCreate>)
    requires REPOSITORY in tree && REPOSITORY + ["a"] !in tree
    requires forall i :: 0 <= i < |creates| ==> creates[i].rel in {"a", "./a"}
    ensures FirstUnresolved(tree, REPOSITORY, creates) == None && ConflictsOf(tree, REPOSITORY, creates) == []
    ensures Validation(tree, REPOSITORY, creates, []) == Ok([])
  {
    OneFileTwoNames(tree);
    hide Resolve, Absolute;
    if creates != [] {
      CreatesAreAccepted(tree, creates[..|creates| - 1]);
    }
  }

  // ----- A write that stops short

  lemma PlaceIsFree()
    ensures IsFree(EmptyRepository(), REPOSITORY + ["a"])
    ensures REPOSITORY in EmptyRepository() && REPOSITORY + ["a"] !in EmptyRepository()
  {
  }

  /** The only write took nothing and reported no error: the commit succeeds and leaves an empty file. */
  lemma AShortWriteShows()
    ensures
      var tree, planned, written := EmptyRepository(), [PlannedCreate("a", "x")], [PlannedCreate("a", "")];
      && WellFormed(tree) && Validation(tree, REPOSITORY, planned, []) == Ok([])
      && Buildable(tree, REPOSITORY, planned) && CutFrom(planned, written)
      && Committed(tree, REPOSITORY, written, []) != Committed(tree, REPOSITORY, planned, [])
  {
    var tree, planned, written := EmptyRepository(), [PlannedCreate("a", "x")], [PlannedCreate("a", "")];
    assert CutFrom(planned, written) && Apart(REPOSITORY, planned);
    RepositoriesAreWellFormed("");
    OneFileTwoNames(tree);
    CreatesAreAccepted(tree, planned);
    PlaceIsFree();
    hide *;
    BuildableExactlyWhen(tree, REPOSITORY, planned);
    PlannedExactlyWhenWhole(tree, REPOSITORY, planned, written, [], []);
    assert |written[0].content| != |planned[0].content|;
  }

  // ----- One file under two names

  /** Created twice: validation sees no conflict, but the second file is in the first one's way. */
  lemma OneFileCreatedTwice()
    ensures
      var tree, creates := EmptyRepository(), [PlannedCreate("a", ""), PlannedCreate("./a", "")];
      && WellFormed(tree) && Validation(tree, REPOSITORY, creates, []) == Ok([])
      && !Buildable(tree, REPOSITORY, creates)
  {
    var tree, creates := EmptyRepository(), [PlannedCreate("a", ""), PlannedCreate("./a", "")];
    RepositoriesAreWellFormed("");
    OneFileTwoNames(tree);
    CreatesAreAccepted(tree, creates);
    hide Absolute, Resolve, Validation, WellFormed, IsFree, Buildable;
    BuildableExactlyWhen(tree, REPOSITORY, creates);
    assert Absolute(REPOSITORY, creates[0].rel) <= Absolute(REPOSITORY, creates[1].rel);
  }

  function Exclaim(text: string): Option<string> {
    Some(text + "!")
  }

  /** Edited twice: both edits are computed from the text at the start, and the second finds it changed. */
  lemma OneFileEditedTwice(text: string)
    ensures
      var tree, edits := WithOneFile(text), [PlannedEdit("a", Exclaim), PlannedEdit("./a", Exclaim)];
      var edited := [Edited("a", text, text + "!"), Edited("./a", text, text + "!")];
      && WellFormed(tree) && Validation(tree, REPOSITORY, [], edits) == Ok(edited)
      && !Rereads(WithCreates(tree, REPOSITORY, []), REPOSITORY, edited)
  {
    var tree, edits := WithOneFile(text), [PlannedEdit("a", Exclaim), PlannedEdit("./a", Exclaim)];
    var edited := [Edited("a", text, text + "!"), Edited("./a", text, text + "!")];
    RepositoriesAreWellFormed(text);
    OneFileTwoNames(tree);
    EditsAreComputed(tree, edits, edited, text);
    hide Absolute, Resolve;
    RereadsExactlyWhen(tree, REPOSITORY, edited);
    assert edited[0].next != edited[0].original;
  }

  lemma EditsAreComputed(tree: Tree, edits: seq<PlannedEdit>, edited: seq<Edited>, text: string)
    requires REPOSITORY in tree && REPOSITORY + ["a"] in tree && tree[REPOSITORY + ["a"]] == File(text)
    requires edits == [PlannedEdit("a", Exclaim), PlannedEdit("./a", Exclaim)]
    requires edited == [Edited("a", text, text + "!"), Edited("./a", text, text + "!")]
    ensures Validation(tree, REPOSITORY, [], edits) == Ok(edited)
  {
    OneFileTwoNames(tree);
    hide Absolute, Resolve;
    assert EditOf(tree, REPOSITORY, edits[0]) == Ok(edited[0]);
    assert EditOf(tree, REPOSITORY, edits[1]) == Ok(edited[1]);
    var first := edits[..|edits| - 1];
    assert first == [edits[0]] && first[..|first| - 1] == [];
    assert EditsOf(tree, REPOSITORY, first) == Ok([] + [edited[0]]);
    assert [] + [edited[0]] + [edited[1]] == edited;
    assert EditsOf(tree, REPOSITORY, edits) == Ok(edited);
  }
}
