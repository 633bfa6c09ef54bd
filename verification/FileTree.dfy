/** Files and directories, and primitives each of which may fail at any time. */
module FileTree {
  import opened Basics

  type Path = seq<string>

  datatype Node = Dir | File(text: string)

  type Tree = map<Path, Node>

  function Parent(p: Path): Path {
    if p == [] then [] else p[..|p| - 1]
  }

  predicate IsDir(tree: Tree, p: Path) {
    p in tree && tree[p].Dir?
  }

  predicate IsFile(tree: Tree, p: Path) {
    p in tree && tree[p].File?
  }

  /** The root is a directory, and everything else lies in a directory. */
  ghost predicate WellFormed(tree: Tree) {
    IsDir(tree, []) && forall p {:trigger Parent(p)} :: p in tree && p != [] ==> IsDir(tree, Parent(p))
  }

  /** Nothing is there yet, but the place for it is. */
  predicate CanAdd(tree: Tree, p: Path) {
    p != [] && p !in tree && IsDir(tree, Parent(p))
  }

  predicate IsEmptyDir(tree: Tree, p: Path) {
    IsDir(tree, p) && forall q {:trigger Parent(q)} :: q in tree && q != [] ==> Parent(q) != p
  }

  /**
   * The primitives. A call that reports failure may have failed for any reason; what it may then
   * have left behind is part of its contract. `faulty` remembers that some call has failed although
   * the tree gave it no reason to.
   */
  class FileSystem {
    var tree: Tree
    ghost var faulty: bool

    constructor (tree: Tree)
      ensures this.tree == tree && !faulty
    {
      this.tree := tree;
      faulty := false;
    }

    method Mkdir(p: Path) returns (ok: bool)
      modifies this
      ensures ok ==> CanAdd(old(tree), p) && tree == old(tree)[p := Dir]
      ensures !ok ==> tree == old(tree)
      ensures !faulty ==> !old(faulty) && (ok <==> CanAdd(old(tree), p))
    {
      ok := *;
      faulty := faulty || !ok;
      ok := ok && CanAdd(tree, p);
      if ok {
        tree := tree[p := Dir];
      }
    }

    /** Opens with `wx`: creates an empty file, or fails if anything is there. */
    method OpenNew(p: Path) returns (ok: bool)
      modifies this
      ensures ok ==> CanAdd(old(tree), p) && tree == old(tree)[p := File("")]
      ensures !ok ==> tree == old(tree)
      ensures !faulty ==> !old(faulty) && (ok <==> CanAdd(old(tree), p))
    {
      ok := *;
      faulty := faulty || !ok;
      ok := ok && CanAdd(tree, p);
      if ok {
        tree := tree[p := File("")];
      }
    }

    /**
     * Writes an open file once. A failing write may have written anything; a successful one may stop
     * short, which only the number of bytes it returns would tell.
     */
    method Write(p: Path, text: string) returns (ok: bool, ghost written: string)
      requires IsFile(tree, p)
      modifies this
      ensures tree == old(tree)[p := File(written)]
      ensures ok ==> written <= text
      ensures !faulty ==> !old(faulty) && ok
    {
      ok := *;
      faulty := faulty || !ok;
      var count: int := *;
      var other: string := *;
      var left := if !ok then other else if 0 <= count < |text| then text[..count] else text;
      written := left;
      tree := tree[p := File(left)];
    }

    method Close() returns (ok: bool)
      modifies this`faulty
      ensures !faulty ==> !old(faulty) && ok
    {
      ok := *;
      faulty := faulty || !ok;
    }

    method ReadFile(p: Path) returns (text: Option<string>)
      modifies this`faulty
      ensures text.Some? ==> IsFile(tree, p) && tree[p].text == text.value
      ensures !faulty ==> !old(faulty) && (text.Some? <==> IsFile(tree, p))
    {
      var ok: bool := *;
      faulty := faulty || !ok;
      text := if ok && IsFile(tree, p) then Some(tree[p].text) else None;
    }

    /** Replaces the text of a file; a failing call may have emptied it or written some of the text. */
    method WriteFile(p: Path, text: string) returns (ok: bool)
      requires IsFile(tree, p)
      modifies this
      ensures ok ==> tree == old(tree)[p := File(text)]
      ensures !ok ==> tree == old(tree) || exists partial :: tree == old(tree)[p := File(partial)]
      ensures !faulty ==> !old(faulty) && ok
    {
      ok := *;
      faulty := faulty || !ok;
      var touched: bool := *;
      var partial: string := *;
      if ok || touched {
        tree := tree[p := File(if ok then text else partial)];
      }
    }

    // ----- The undo steps, which are taken to succeed

    method Restore(p: Path, text: string)
      modifies this`tree
      ensures tree == old(tree)[p := File(text)]
    {
      tree := tree[p := File(text)];
    }

    method Remove(p: Path)
      modifies this`tree
      ensures tree == old(tree) - {p}
    {
      tree := tree - {p};
    }

    /** Refuses, without harm, when the directory is not empty. */
    method Rmdir(p: Path)
      modifies this`tree
      ensures tree == if IsEmptyDir(old(tree), p) then old(tree) - {p} else old(tree)
    {
      if IsEmptyDir(tree, p) {
        tree := tree - {p};
      }
    }
  }
}
