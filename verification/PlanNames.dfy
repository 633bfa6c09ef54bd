/** Which place a planned name stands for, and which names are accepted. */
module PlanNames {
  import opened Basics
  import opened FileTree
  import opened FilePlan
  import opened FilePlanResult
  import Texts

  // ----- One segment, and one after the other

  lemma {:induction false} WalkFurther(at: Path, a: seq<string>, b: seq<string>)
    ensures Walk(at, a + b) == Walk(Walk(at, a), b)
    decreases |a|
  {
    if a == [] {
      assert a + b == b;
    } else {
      var s := a[0];
      assert (a + b)[1..] == a[1..] + b;
      WalkFurther(if s == "" || s == "." then at else if s == ".." then Parent(at) else at + [s], a[1..], b);
    }
  }

  lemma WalkOne(at: Path, s: string)
    ensures Walk(at, [s]) == if s == "" || s == "." then at else if s == ".." then Parent(at) else at + [s]
  {
    assert [s][1..] == [];
  }

  /** A name with a slash in it leads where its second part leads from where its first part leads. */
  lemma AbsoluteStepByStep(root: Path, a: string, b: string)
    ensures Absolute(root, a + "/" + b) == Absolute(Absolute(root, a), b)
  {
    Texts.SplitAppends(a, b, '/');
    WalkFurther(root, Texts.Split(a, '/'), Texts.Split(b, '/'));
  }

  /** Nothing and `.` lead nowhere else, `..` to the directory above, and any other name one level down. */
  lemma AbsoluteOfOneSegment(root: Path, s: string)
    requires '/' !in s
    ensures s == "" || s == "." ==> Absolute(root, s) == root
    ensures s == ".." && root != [] ==> Absolute(root, s) == root[..|root| - 1]
    ensures s == ".." && root == [] ==> Absolute(root, s) == []
    ensures s != "" && s != "." && s != ".." ==> Absolute(root, s) == root + [s]
  {
    assert Texts.Split(s, '/') == [s];
    WalkOne(root, s);
  }

  /** So a `.` or a slash at the end of a name changes nothing, and `/..` gives the directory above. */
  lemma AppendedDots(root: Path, name: string)
    ensures Absolute(root, name + "/" + ".") == Absolute(root, name + "/" + "") == Absolute(root, name)
    ensures
      var abs := Absolute(root, name);
      Absolute(root, name + "/" + "..") == if abs == [] then [] else abs[..|abs| - 1]
  {
    hide Absolute;
    AbsoluteStepByStep(root, name, ".");
    AbsoluteStepByStep(root, name, "");
    AbsoluteStepByStep(root, name, "..");
    AbsoluteOfOneSegment(Absolute(root, name), ".");
    AbsoluteOfOneSegment(Absolute(root, name), "");
    AbsoluteOfOneSegment(Absolute(root, name), "..");
  }

  /** Segments that are names: not empty, without a slash, and neither `.` nor `..`. */
  ghost predicate AreNames(segments: seq<string>) {
    forall i :: 0 <= i < |segments| ==> IsClean(segments[i]) && '/' !in segments[i]
  }

  /** A plain name lands at its segments below the root. */
  lemma {:induction false} PlainNamesLandWhereTheySay(root: Path, segments: seq<string>)
    requires segments != [] && AreNames(segments)
    ensures Absolute(root, Texts.Join(segments, '/')) == root + segments
    decreases |segments|
  {
    hide Absolute;
    AbsoluteOfOneSegment(root, segments[0]);
    if |segments| > 1 {
      var rest := Texts.Join(segments[1..], '/');
      assert Texts.Join(segments, '/') == segments[0] + "/" + rest;
      AbsoluteStepByStep(root, segments[0], rest);
      PlainNamesLandWhereTheySay(root + [segments[0]], segments[1..]);
      assert root + [segments[0]] + segments[1..] == root + segments;
    } else {
      assert segments == [segments[0]];
    }
  }

  // ----- Which names are accepted

  lemma {:induction false} NearestIsBelow(tree: Tree, root: Path, p: Path)
    requires root in tree && root <= p
    ensures root <= NearestExisting(tree, p)
  {
    if p !in tree && p != [] {
      assert root != p && root == p[..|root|];
      assert root == Parent(p)[..|root|];
      NearestIsBelow(tree, root, Parent(p));
    }
  }

  /**
   * A name is unsafe exactly when it is empty, absolute, or has a NUL or a backslash. Any other is
   * accepted, for its place, exactly when that lies below the root in an entry whose name does not
   * begin with two dots.
   */
  lemma ResolvesExactlyWhen(tree: Tree, root: Path, rel: string)
    requires root in tree
    ensures Resolve(tree, root, rel) == Err(UnsafePath)
       <==> rel == "" || rel[0] == '/' || (exists i :: 0 <= i < |rel| && (rel[i] == '\0' || rel[i] == '\\'))
    ensures
      var abs := Absolute(root, rel);
      Resolve(tree, root, rel).Ok?
      <==> && Resolve(tree, root, rel) != Err(UnsafePath)
           && |root| < |abs| && abs[..|root|] == root && !(".." <= abs[|root|])
    ensures Resolve(tree, root, rel).Ok? ==> Resolve(tree, root, rel) == Ok(Absolute(root, rel))
    ensures Resolve(tree, root, rel).Err? ==> Resolve(tree, root, rel).error in {UnsafePath, OutsideRepository}
  {
    hide Absolute;
    var abs := Absolute(root, rel);
    if root < abs {
      NearestIsBelow(tree, root, abs);
    }
  }

  /** A plain name without odd characters is accepted unless it begins with two dots. */
  lemma PlainNamesResolve(tree: Tree, root: Path, segments: seq<string>)
    requires root in tree && segments != [] && AreNames(segments)
    requires
      var rel := Texts.Join(segments, '/');
      rel != "" && rel[0] != '/' && forall i :: 0 <= i < |rel| ==> rel[i] != '\0' && rel[i] != '\\'
    ensures
      var rel := Texts.Join(segments, '/');
      if ".." <= segments[0] then Resolve(tree, root, rel) == Err(OutsideRepository)
      else Resolve(tree, root, rel) == Ok(root + segments)
  {
    hide Absolute, Resolve;
    PlainNamesLandWhereTheySay(root, segments);
    ResolvesExactlyWhen(tree, root, Texts.Join(segments, '/'));
    assert (root + segments)[..|root|] == root && (root + segments)[|root|] == segments[0];
  }
}
