/** The order generated files list their imports in. */
module ImportOrder {
  import opened Basics
  import Texts

  const ALIAS_ORDER := ["@modules/", "@components/", "@hooks/", "@store/", "@i18n", "@lib/", "@types/", "@/"]

  datatype Statement = Statement(text: string, path: string, typeOnly: bool)

  /** One matched import: for its effect only, or with a place in the order. */
  datatype Import = SideEffect(text: string) | Named(statement: Statement)

  /** `findIndex` of the first alias the path starts with, or the number of aliases. */
  function AliasFrom(path: string, i: nat): (n: nat)
    requires i <= |ALIAS_ORDER|
    ensures i <= n <= |ALIAS_ORDER|
    ensures n < |ALIAS_ORDER| ==> ALIAS_ORDER[n] <= path
    ensures forall m :: i <= m < n ==> !(ALIAS_ORDER[m] <= path)
    decreases |ALIAS_ORDER| - i
  {
    if i == |ALIAS_ORDER| || ALIAS_ORDER[i] <= path then i else AliasFrom(path, i + 1)
  }

  function GroupRank(statement: Statement): nat {
    var alias := AliasFrom(statement.path, 0);
    if alias < |ALIAS_ORDER| then 10 + alias
    else if statement.typeOnly then 100
    else if "next" <= statement.path then 0
    else if "../" <= statement.path then 30
    else if "./" <= statement.path then 31
    else 1
  }

  predicate HasAlias(path: string) {
    AliasFrom(path, 0) < |ALIAS_ORDER|
  }

  predicate IsPlain(statement: Statement) {
    !HasAlias(statement.path) && !statement.typeOnly
  }

  /**
   * The groups follow each other as the lint configuration wants them: `next` first, other packages,
   * the aliases in their order, parents, siblings, and the remaining type-only imports.
   */
  lemma GroupsFollowTheConfiguration(
      next: Statement, package: Statement, alias: Statement, later: Statement, parent: Statement, sibling: Statement,
      types: Statement)
    requires IsPlain(next) && "next" <= next.path
    requires IsPlain(package)
    requires !("next" <= package.path) && !("../" <= package.path) && !("./" <= package.path)
    requires HasAlias(alias.path) && HasAlias(later.path) && AliasFrom(alias.path, 0) < AliasFrom(later.path, 0)
    requires IsPlain(parent) && "../" <= parent.path
    requires IsPlain(sibling) && "./" <= sibling.path
    requires !HasAlias(types.path) && types.typeOnly
    ensures GroupRank(next) < GroupRank(package) < GroupRank(alias) < GroupRank(later)
         < GroupRank(parent) < GroupRank(sibling) < GroupRank(types)
  {
    hide AliasFrom;
    OneStart(next.path);
    OneStart(parent.path);
    OneStart(sibling.path);
  }

  lemma OneStart(path: string)
    ensures "next" <= path ==> !("../" <= path) && !("./" <= path)
    ensures "../" <= path ==> !("./" <= path)
  {
    if "next" <= path {
      assert path[0] == "next"[0];
    }
    if "../" <= path {
      assert path[0] == "../"[0] && path[1] == "../"[1];
    }
    if "./" <= path {
      assert path[0] == "./"[0] && path[1] == "./"[1];
    }
  }

  /** One rank for each of the kinds, and for each alias its own. */
  lemma RanksAreByKind(statement: Statement)
    ensures HasAlias(statement.path) ==> GroupRank(statement) == 10 + AliasFrom(statement.path, 0)
    ensures !HasAlias(statement.path) && statement.typeOnly ==> GroupRank(statement) == 100
    ensures IsPlain(statement) ==>
      GroupRank(statement) == (
        if "next" <= statement.path then 0
        else if "../" <= statement.path then 30
        else if "./" <= statement.path then 31
        else 1)
    ensures HasAlias(statement.path) <==> exists n: nat :: n < 8 && ALIAS_ORDER[n] <= statement.path
  {
    if HasAlias(statement.path) {
      assert ALIAS_ORDER[AliasFrom(statement.path, 0)] <= statement.path;
    }
  }

  /** The aliases in the order the lint configuration lists them. */
  lemma AliasesAreInOrder(path: string)
    ensures "@modules/" <= path ==> AliasFrom(path, 0) == 0
    ensures "@components/" <= path ==> AliasFrom(path, 0) == 1
    ensures "@hooks/" <= path ==> AliasFrom(path, 0) == 2
    ensures "@store/" <= path ==> AliasFrom(path, 0) == 3
    ensures "@i18n" <= path ==> AliasFrom(path, 0) == 4
    ensures "@lib/" <= path ==> AliasFrom(path, 0) == 5
    ensures "@types/" <= path ==> AliasFrom(path, 0) == 6
    ensures "@/" <= path ==> AliasFrom(path, 0) == 7
  {
    var n := AliasFrom(path, 0);
    forall m: nat | m < 8 && ALIAS_ORDER[m] <= path
      ensures n == m
    {
      assert path[1] == ALIAS_ORDER[m][1] == ALIAS_ORDER[n][1];
      AliasesDiffer(m, n);
    }
    assert ALIAS_ORDER[0] == "@modules/" && ALIAS_ORDER[1] == "@components/" && ALIAS_ORDER[2] == "@hooks/";
    assert ALIAS_ORDER[3] == "@store/" && ALIAS_ORDER[4] == "@i18n" && ALIAS_ORDER[5] == "@lib/";
    assert ALIAS_ORDER[6] == "@types/" && ALIAS_ORDER[7] == "@/";
  }

  lemma AliasesDiffer(m: nat, n: nat)
    requires m < 8 && n < 8
    ensures ALIAS_ORDER[m][1] == ALIAS_ORDER[n][1] ==> m == n
  {
    assert ALIAS_ORDER[0][1] == 'm' && ALIAS_ORDER[1][1] == 'c' && ALIAS_ORDER[2][1] == 'h' && ALIAS_ORDER[3][1] == 's';
    assert ALIAS_ORDER[4][1] == 'i' && ALIAS_ORDER[5][1] == 'l' && ALIAS_ORDER[6][1] == 't' && ALIAS_ORDER[7][1] == '/';
  }

  // ----- Comparing paths

  /** `<` on texts, character by character. */
  predicate TextLess(a: string, b: string) {
    if a == "" || b == "" then a == "" && b != ""
    else a[0] < b[0] || (a[0] == b[0] && TextLess(a[1..], b[1..]))
  }

  function CompareSegments(left: seq<string>, right: seq<string>): int {
    if left == [] || right == [] then |left| - |right|
    else if left[0] != right[0] then if TextLess(left[0], right[0]) then -1 else 1
    else CompareSegments(left[1..], right[1..])
  }

  function Segments(path: string): seq<string> {
    Texts.Split(Texts.Lower(path), '/')
  }

  function Compare(a: string, b: string): int {
    CompareSegments(Segments(a), Segments(b))
  }

  method ComparePaths(a: string, b: string) returns (order: int)
    ensures order == Compare(a, b)
  {
    var left, right := Segments(a), Segments(b);
    var index := 0;
    while index < Min(|left|, |right|)
      invariant 0 <= index <= Min(|left|, |right|)
      invariant CompareSegments(left[index..], right[index..]) == CompareSegments(left, right)
    {
      if left[index] != right[index] {
        return if TextLess(left[index], right[index]) then -1 else 1;
      }
      assert left[index..][1..] == left[index + 1..] && right[index..][1..] == right[index + 1..];
      index := index + 1;
    }
    order := |left| - |right|;
  }

  /** The segments of a path are its names between slashes, in lower case. */
  lemma SegmentsAreNames(names: seq<string>)
    requires names != [] && forall i :: 0 <= i < |names| ==> '/' !in names[i]
    ensures
      var segments := Segments(Texts.Join(names, '/'));
      |segments| == |names| && forall i :: 0 <= i < |names| ==> segments[i] == Texts.Lower(names[i])
  {
    hide Texts.Join, Texts.Split;
    var lower := seq(|names|, i requires 0 <= i < |names| => Texts.Lower(names[i]));
    forall i | 0 <= i < |names|
      ensures '/' !in lower[i]
    {
      forall k | 0 <= k < |names[i]|
        ensures lower[i][k] != '/'
      {
        Texts.LowerIsLetterByLetter(names[i][k]);
      }
    }
    LowerOfJoin(names, lower);
    Texts.SplitUndoesJoin(lower, '/');
  }

  lemma {:induction false} LowerOfJoin(names: seq<string>, lower: seq<string>)
    requires |lower| == |names| && forall i :: 0 <= i < |names| ==> lower[i] == Texts.Lower(names[i])
    ensures Texts.Lower(Texts.Join(names, '/')) == Texts.Join(lower, '/')
  {
    if |names| > 1 {
      LowerOfJoin(names[1..], lower[1..]);
      var rest := Texts.Join(names[1..], '/');
      assert Texts.Lower(names[0] + ['/'] + rest) == Texts.Lower(names[0]) + ['/'] + Texts.Lower(rest);
    }
  }

  /** Two texts agree up to place `n`. */
  ghost predicate AgreeUpTo<T>(a: seq<T>, b: seq<T>, n: nat) {
    n <= |a| && n <= |b| && a[..n] == b[..n]
  }

  /**
   * One text is less exactly when it is a proper beginning of the other, or has the smaller character
   * where they first differ.
   */
  lemma {:induction false} LessExactlyWhen(a: string, b: string)
    ensures TextLess(a, b) <==> exists n: nat ::
      AgreeUpTo(a, b, n) && (if n == |a| then n < |b| else n < |b| && a[n] < b[n])
  {
    if a != "" && b != "" {
      var p, q := a[1..], b[1..];
      LessExactlyWhen(p, q);
      if a[0] == b[0] && TextLess(p, q) {
        var n: nat :| AgreeUpTo(p, q, n) && if n == |p| then n < |q| else n < |q| && p[n] < q[n];
        assert a[..n + 1] == [a[0]] + p[..n] && b[..n + 1] == [b[0]] + q[..n];
        assert AgreeUpTo(a, b, n + 1);
      } else if TextLess(a, b) {
        assert AgreeUpTo(a, b, 0);
      }
      if n: nat :| AgreeUpTo(a, b, n) && if n == |a| then n < |b| else n < |b| && a[n] < b[n] {
        if n > 0 {
          assert a[..n][0] == b[..n][0];
          assert p[..n - 1] == a[..n][1..] && q[..n - 1] == b[..n][1..];
          assert AgreeUpTo(p, q, n - 1);
        }
      }
    } else if a == "" && b != "" {
      assert AgreeUpTo(a, b, 0);
    }
  }

  /**
   * A path comes first exactly when it ends where the other goes on, or has the smaller segment where
   * they first differ.
   */
  lemma {:induction false} ComesFirstExactlyWhen(a: seq<string>, b: seq<string>)
    ensures CompareSegments(a, b) < 0 <==> exists n: nat ::
      AgreeUpTo(a, b, n) && (if n == |a| then n < |b| else n < |b| && TextLess(a[n], b[n]))
  {
    hide TextLess;
    if a != [] && b != [] {
      var p, q := a[1..], b[1..];
      ComesFirstExactlyWhen(p, q);
      if a[0] == b[0] && CompareSegments(p, q) < 0 {
        var n: nat :| AgreeUpTo(p, q, n) && if n == |p| then n < |q| else n < |q| && TextLess(p[n], q[n]);
        assert a[..n + 1] == [a[0]] + p[..n] && b[..n + 1] == [b[0]] + q[..n];
        assert AgreeUpTo(a, b, n + 1);
      } else if CompareSegments(a, b) < 0 {
        assert AgreeUpTo(a, b, 0);
      }
      if n: nat :| AgreeUpTo(a, b, n) && if n == |a| then n < |b| else n < |b| && TextLess(a[n], b[n]) {
        if n > 0 {
          assert a[..n][0] == b[..n][0];
          assert p[..n - 1] == a[..n][1..] && q[..n - 1] == b[..n][1..];
          assert AgreeUpTo(p, q, n - 1);
        } else {
          TextLessIsTotal(a[0], b[0]);
        }
      }
    } else if a == [] && b != [] {
      assert AgreeUpTo(a, b, 0);
    }
  }

  lemma {:induction false} TextLessIsTotal(a: string, b: string)
    ensures a != b ==> TextLess(a, b) != TextLess(b, a)
    ensures a == b ==> !TextLess(a, b)
  {
    if a != "" && b != "" {
      TextLessIsTotal(a[1..], b[1..]);
      if a[0] == b[0] && a[1..] == b[1..] {
        assert a == [a[0]] + a[1..] && b == [b[0]] + b[1..];
      }
    }
  }

  lemma {:induction false} TextLessIsTransitive(a: string, b: string, c: string)
    requires TextLess(a, b) && TextLess(b, c)
    ensures TextLess(a, c)
  {
    if a != "" && a[0] == b[0] == c[0] {
      TextLessIsTransitive(a[1..], b[1..], c[1..]);
    }
  }

  /** Swapping the arguments swaps the sign, so any two paths compare, and either way round agrees. */
  lemma {:induction false} CompareSwaps(left: seq<string>, right: seq<string>)
    ensures CompareSegments(left, right) < 0 <==> CompareSegments(right, left) > 0
    ensures CompareSegments(left, right) == 0 <==> left == right
  {
    if left != [] && right != [] {
      TextLessIsTotal(left[0], right[0]);
      CompareSwaps(left[1..], right[1..]);
      if left[0] == right[0] && left[1..] == right[1..] {
        assert left == [left[0]] + left[1..] && right == [right[0]] + right[1..];
      }
    }
  }

  lemma {:induction false} CompareIsTransitive(a: seq<string>, b: seq<string>, c: seq<string>)
    requires CompareSegments(a, b) <= 0 && CompareSegments(b, c) <= 0
    ensures CompareSegments(a, c) <= 0
    ensures CompareSegments(a, b) < 0 || CompareSegments(b, c) < 0 ==> CompareSegments(a, c) < 0
  {
    if a != [] && b != [] && c != [] {
      TextLessIsTotal(a[0], b[0]);
      TextLessIsTotal(b[0], c[0]);
      TextLessIsTotal(a[0], c[0]);
      if a[0] == b[0] == c[0] {
        CompareIsTransitive(a[1..], b[1..], c[1..]);
      } else if TextLess(a[0], b[0]) && TextLess(b[0], c[0]) {
        TextLessIsTransitive(a[0], b[0], c[0]);
      }
    }
  }

  // ----- Sorting

  datatype Ranked = Ranked(statement: Statement, index: nat, rank: nat)

  /** The sort's order: rank, then path, then the place in the file. */
  predicate Before(a: Ranked, b: Ranked) {
    || a.rank < b.rank
    || (a.rank == b.rank &&
        (Compare(a.statement.path, b.statement.path) < 0 ||
         (Compare(a.statement.path, b.statement.path) == 0 && a.index < b.index)))
  }

  ghost predicate InOrder(items: seq<Ranked>) {
    forall i, j :: 0 <= i < j < |items| ==> Before(items[i], items[j])
  }

  lemma BeforeIsStrict(a: Ranked, b: Ranked)
    ensures !(Before(a, b) && Before(b, a))
    ensures a.index != b.index ==> Before(a, b) || Before(b, a)
  {
    CompareSwaps(Segments(a.statement.path), Segments(b.statement.path));
    CompareSwaps(Segments(b.statement.path), Segments(a.statement.path));
  }

  lemma BeforeIsTransitive(a: Ranked, b: Ranked, c: Ranked)
    requires Before(a, b) && Before(b, c)
    ensures Before(a, c)
  {
    if a.rank == b.rank == c.rank {
      CompareIsTransitive(Segments(a.statement.path), Segments(b.statement.path), Segments(c.statement.path));
      CompareSwaps(Segments(a.statement.path), Segments(b.statement.path));
      CompareSwaps(Segments(b.statement.path), Segments(c.statement.path));
    }
  }

  function Insert(item: Ranked, sorted: seq<Ranked>): seq<Ranked> {
    if sorted == [] || Before(item, sorted[0]) then [item] + sorted
    else [sorted[0]] + Insert(item, sorted[1..])
  }

  function Sort(items: seq<Ranked>): seq<Ranked> {
    if items == [] then [] else Insert(items[|items| - 1], Sort(items[..|items| - 1]))
  }

  ghost predicate DistinctIndexes(items: seq<Ranked>) {
    forall i, j :: 0 <= i < j < |items| ==> items[i].index != items[j].index
  }

  lemma {:induction false} InsertKeepsItems(item: Ranked, sorted: seq<Ranked>)
    ensures multiset(Insert(item, sorted)) == multiset(sorted) + multiset{item}
  {
    hide Before;
    if sorted != [] {
      InsertKeepsItems(item, sorted[1..]);
      assert sorted == [sorted[0]] + sorted[1..];
    }
  }

  lemma {:induction false} InsertKeepsOrder(item: Ranked, sorted: seq<Ranked>)
    requires InOrder(sorted) && forall i :: 0 <= i < |sorted| ==> sorted[i].index != item.index
    ensures InOrder(Insert(item, sorted))
  {
    hide Before;
    if sorted != [] {
      BeforeIsStrict(item, sorted[0]);
      if Before(item, sorted[0]) {
        forall i | 1 <= i < |sorted|
          ensures Before(item, sorted[i])
        {
          BeforeIsTransitive(item, sorted[0], sorted[i]);
        }
      } else {
        var rest := Insert(item, sorted[1..]);
        InsertKeepsOrder(item, sorted[1..]);
        InsertKeepsItems(item, sorted[1..]);
        forall i | 0 <= i < |rest|
          ensures Before(sorted[0], rest[i])
        {
          assert rest[i] in multiset(rest);
          assert rest[i] == item || rest[i] in sorted[1..];
        }
      }
    }
  }

  lemma {:induction false} SortSorts(items: seq<Ranked>)
    requires DistinctIndexes(items)
    ensures InOrder(Sort(items)) && multiset(Sort(items)) == multiset(items)
  {
    if items != [] {
      var init, last := items[..|items| - 1], items[|items| - 1];
      SortSorts(init);
      assert items == init + [last];
      var sorted := Sort(init);
      forall i | 0 <= i < |sorted|
        ensures sorted[i].index != last.index
      {
        assert sorted[i] in multiset(sorted);
        assert sorted[i] in init;
      }
      InsertKeepsOrder(last, sorted);
      InsertKeepsItems(last, sorted);
    }
  }

  lemma Tail<T>(s: seq<T>)
    requires s != []
    ensures s == [s[0]] + s[1..] && multiset(s[1..]) == multiset(s) - multiset{s[0]}
  {
    assert s == [s[0]] + s[1..];
    assert multiset(s) == multiset{s[0]} + multiset(s[1..]);
  }

  lemma FirstIsLeast(items: seq<Ranked>, item: Ranked)
    requires InOrder(items) && item in items
    ensures item == items[0] || Before(items[0], item)
    ensures InOrder(items[1..])
  {
    hide Before;
    var k :| 0 <= k < |items| && items[k] == item;
  }

  /** There is only one way to put given imports in order, whatever algorithm sorts them. */
  lemma {:induction false} OrderIsUnique(a: seq<Ranked>, b: seq<Ranked>)
    requires InOrder(a) && InOrder(b) && multiset(a) == multiset(b)
    ensures a == b
  {
    hide Before, InOrder;
    assert |multiset(b)| == |b| && |multiset(a)| == |a|;
    if a != [] {
      assert a[0] in multiset(b) && b[0] in multiset(a);
      FirstIsLeast(a, b[0]);
      FirstIsLeast(b, a[0]);
      BeforeIsStrict(a[0], b[0]);
      Tail(a);
      Tail(b);
      OrderIsUnique(a[1..], b[1..]);
    }
  }

  /**
   * The order is by rank, then by the paths' segments, then by the place in the file, and each place is
   * that of the statement.
   */
  lemma OrderedByRankPathPlace(statements: seq<Statement>, i: nat, j: nat)
    requires i < j < |statements|
    ensures |Sort(Rank(statements))| == |statements|
    ensures
      var a, b := Sort(Rank(statements))[i], Sort(Rank(statements))[j];
      var order := CompareSegments(Segments(a.statement.path), Segments(b.statement.path));
      && a.index < |statements| && statements[a.index] == a.statement && a.rank == GroupRank(a.statement)
      && b.index < |statements| && statements[b.index] == b.statement && b.rank == GroupRank(b.statement)
      && (a.rank < b.rank || (a.rank == b.rank && (order < 0 || (order == 0 && a.index < b.index))))
  {
    hide GroupRank, Sort, CompareSegments, Segments;
    var ranked := Rank(statements);
    var sorted := Sort(ranked);
    SortSorts(ranked);
    assert |multiset(sorted)| == |sorted| && |multiset(ranked)| == |ranked|;
    assert sorted[i] in multiset(sorted) && sorted[j] in multiset(sorted);
    assert sorted[i] in ranked && sorted[j] in ranked;
    assert Before(sorted[i], sorted[j]);
  }

  // ----- Groups

  function Rank(statements: seq<Statement>): (r: seq<Ranked>)
    ensures |r| == |statements|
    ensures forall i :: 0 <= i < |r| ==> r[i] == Ranked(statements[i], i, GroupRank(statements[i]))
  {
    seq(|statements|, i requires 0 <= i < |statements| => Ranked(statements[i], i, GroupRank(statements[i])))
  }

  function StatementsOf(items: seq<Ranked>): (r: seq<Statement>)
    ensures |r| == |items| && forall i :: 0 <= i < |r| ==> r[i] == items[i].statement
  {
    seq(|items|, i requires 0 <= i < |items| => items[i].statement)
  }

  function Ordered(statements: seq<Statement>): seq<Statement> {
    StatementsOf(Sort(Rank(statements)))
  }

  /** A list in order, numbered afresh, is in order. */
  lemma RankingKeepsOrder(items: seq<Ranked>)
    requires InOrder(items) && forall i :: 0 <= i < |items| ==> items[i].rank == GroupRank(items[i].statement)
    ensures InOrder(Rank(StatementsOf(items)))
  {
    hide GroupRank, Compare;
    var again := Rank(StatementsOf(items));
    forall i, j | 0 <= i < j < |again|
      ensures Before(again[i], again[j])
    {
      assert Before(items[i], items[j]);
    }
  }

  /** Ordering an ordered list changes nothing. */
  lemma OrderingTwiceIsOrderingOnce(statements: seq<Statement>)
    ensures Ordered(Ordered(statements)) == Ordered(statements)
  {
    hide GroupRank, Before, Sort, InOrder;
    var once := Sort(Rank(statements));
    SortSorts(Rank(statements));
    forall i | 0 <= i < |once|
      ensures once[i].rank == GroupRank(once[i].statement)
    {
      assert once[i] in multiset(once);
      assert once[i] in Rank(statements);
    }
    var again := Rank(StatementsOf(once));
    RankingKeepsOrder(once);
    SortSorts(again);
    OrderIsUnique(Sort(again), again);
  }

  lemma {:induction false} InsertKeepsStatements(item: Ranked, sorted: seq<Ranked>)
    ensures multiset(StatementsOf(Insert(item, sorted))) == multiset(StatementsOf(sorted)) + multiset{item.statement}
    ensures multiset(TextsOf(Insert(item, sorted))) == multiset(TextsOf(sorted)) + multiset{item.statement.text}
  {
    hide Before, StatementsOf, TextsOf;
    if sorted == [] || Before(item, sorted[0]) {
      FirstStatement(item, sorted);
    } else {
      InsertKeepsStatements(item, sorted[1..]);
      FirstStatement(sorted[0], Insert(item, sorted[1..]));
      FirstStatement(sorted[0], sorted[1..]);
      assert sorted == [sorted[0]] + sorted[1..];
    }
  }

  lemma FirstStatement(item: Ranked, items: seq<Ranked>)
    ensures StatementsOf([item] + items) == [item.statement] + StatementsOf(items)
    ensures TextsOf([item] + items) == [item.statement.text] + TextsOf(items)
  {
  }

  lemma LastStatement(items: seq<Ranked>, item: Ranked)
    ensures StatementsOf(items + [item]) == StatementsOf(items) + [item.statement]
    ensures TextsOf(items + [item]) == TextsOf(items) + [item.statement.text]
  {
  }

  /** Sorting keeps every statement exactly once. */
  lemma {:induction false} SortKeepsStatements(items: seq<Ranked>)
    ensures multiset(StatementsOf(Sort(items))) == multiset(StatementsOf(items))
    ensures multiset(TextsOf(Sort(items))) == multiset(TextsOf(items))
  {
    if items != [] {
      var init, last := items[..|items| - 1], items[|items| - 1];
      SortKeepsStatements(init);
      InsertKeepsStatements(last, Sort(init));
      LastStatement(init, last);
      assert items == init + [last];
    }
  }

  // ----- Groups of one rank

  function Groups(items: seq<Ranked>): (groups: seq<seq<Ranked>>)
    ensures groups == [] <==> items == []
  {
    if items == [] then []
    else
      var groups := Groups(items[..|items| - 1]);
      var last := items[|items| - 1];
      if groups == [] || items[|items| - 2].rank != last.rank then NewGroup(groups, last) else Extended(groups, last)
  }

  function TextsOf(items: seq<Ranked>): (r: seq<string>)
    ensures |r| == |items| && forall i :: 0 <= i < |r| ==> r[i] == items[i].statement.text
  {
    seq(|items|, i requires 0 <= i < |items| => items[i].statement.text)
  }

  function GroupTexts(groups: seq<seq<Ranked>>): (r: seq<seq<string>>)
    ensures |r| == |groups| && forall i :: 0 <= i < |r| ==> r[i] == TextsOf(groups[i])
  {
    seq(|groups|, i requires 0 <= i < |groups| => TextsOf(groups[i]))
  }

  function Flatten<T>(groups: seq<seq<T>>): seq<T> {
    if groups == [] then [] else Flatten(groups[..|groups| - 1]) + groups[|groups| - 1]
  }

  /** The group is not empty and all of it has one rank. */
  ghost predicate OneRank(group: seq<Ranked>) {
    group != [] && forall i :: 0 <= i < |group| ==> group[i].rank == group[0].rank
  }

  /** Every group has one rank, and the ranks rise strictly from group to group. */
  ghost predicate RisingGroups(groups: seq<seq<Ranked>>) {
    groups != [] ==>
      var last := |groups| - 1;
      && RisingGroups(groups[..last]) && OneRank(groups[last])
      && (last > 0 ==> groups[last - 1] != [] && groups[last - 1][0].rank < groups[last][0].rank)
  }

  function NewGroup(groups: seq<seq<Ranked>>, item: Ranked): seq<seq<Ranked>> {
    groups + [[item]]
  }

  function Extended(groups: seq<seq<Ranked>>, item: Ranked): seq<seq<Ranked>>
    requires groups != []
  {
    groups[..|groups| - 1] + [groups[|groups| - 1] + [item]]
  }

  lemma NewGroupRises(groups: seq<seq<Ranked>>, item: Ranked)
    requires RisingGroups(groups)
    requires groups != [] ==> groups[|groups| - 1][0].rank < item.rank
    ensures RisingGroups(NewGroup(groups, item)) && Flatten(NewGroup(groups, item)) == Flatten(groups) + [item]
  {
    assert NewGroup(groups, item)[..|groups|] == groups;
  }

  lemma OneRankGrows(group: seq<Ranked>, item: Ranked)
    requires OneRank(group) && group[0].rank == item.rank
    ensures OneRank(group + [item])
  {
  }

  lemma RisesWith(groups: seq<seq<Ranked>>, group: seq<Ranked>)
    ensures RisingGroups(groups + [group])
       <==> (&& RisingGroups(groups) && OneRank(group)
             && (groups != [] ==>
                   groups[|groups| - 1] != [] && groups[|groups| - 1][0].rank < group[0].rank))
  {
    var after := groups + [group];
    assert after[..|after| - 1] == groups;
  }

  lemma ExtendedRises(groups: seq<seq<Ranked>>, item: Ranked)
    requires groups != [] && RisingGroups(groups) && groups[|groups| - 1][0].rank == item.rank
    ensures RisingGroups(Extended(groups, item))
  {
    hide Flatten, RisingGroups;
    var init, last := groups[..|groups| - 1], groups[|groups| - 1];
    assert groups == init + [last];
    RisesWith(init, last);
    OneRankGrows(last, item);
    RisesWith(init, last + [item]);
  }

  lemma ExtendedFlattens(groups: seq<seq<Ranked>>, item: Ranked)
    requires groups != []
    ensures Flatten(Extended(groups, item)) == Flatten(groups) + [item]
  {
    var end := |groups| - 1;
    var after := Extended(groups, item);
    assert after[..end] == groups[..end];
    assert Flatten(after) == Flatten(groups[..end]) + (groups[end] + [item]);
    assert Flatten(groups) == Flatten(groups[..end]) + groups[end];
  }

  /** The groups concatenate to the ordered list, each with one rank, and their ranks rise strictly. */
  lemma {:induction false} GroupsAreTheOrder(items: seq<Ranked>)
    requires InOrder(items)
    ensures Flatten(Groups(items)) == items && RisingGroups(Groups(items))
    ensures items != [] ==>
      var groups := Groups(items);
      groups != [] && groups[|groups| - 1] != [] && groups[|groups| - 1][0].rank == items[|items| - 1].rank
  {
    hide Before, RisingGroups, Flatten;
    if items == [] {
      NoGroups();
    } else {
      var init, last := items[..|items| - 1], items[|items| - 1];
      GroupsAreTheOrder(init);
      assert items == init + [last];
      if init == [] || init[|init| - 1].rank != last.rank {
        if init == [] {
          NoGroups();
        } else {
          RanksRise(items, |items| - 2, |items| - 1);
        }
        NewGroupRises(Groups(init), last);
        assert Groups(items) == NewGroup(Groups(init), last);
      } else {
        ExtendedRises(Groups(init), last);
        ExtendedFlattens(Groups(init), last);
        assert Groups(items) == Extended(Groups(init), last);
      }
    }
  }

  lemma NoGroups()
    ensures Groups([]) == [] && RisingGroups([]) && Flatten<Ranked>([]) == []
  {
  }

  lemma RanksRise(items: seq<Ranked>, i: nat, j: nat)
    requires InOrder(items) && i < j < |items|
    ensures items[i].rank <= items[j].rank
  {
    assert Before(items[i], items[j]);
  }

  // ----- The whole block

  function SideEffectsOf(imports: seq<Import>): seq<string> {
    if imports == [] then []
    else
      var last := imports[|imports| - 1];
      SideEffectsOf(imports[..|imports| - 1]) + if last.SideEffect? then [last.text] else []
  }

  function NamedOf(imports: seq<Import>): seq<Statement> {
    if imports == [] then []
    else
      var last := imports[|imports| - 1];
      NamedOf(imports[..|imports| - 1]) + if last.Named? then [last.statement] else []
  }

  /** Side effects and the other imports are told apart one by one, each keeping its order. */
  lemma {:induction false} ImportsKeepTheirOrder(a: seq<Import>, b: seq<Import>)
    ensures SideEffectsOf(a + b) == SideEffectsOf(a) + SideEffectsOf(b)
    ensures NamedOf(a + b) == NamedOf(a) + NamedOf(b)
  {
    if b == [] {
      assert a + b == a;
    } else {
      var end := |b| - 1;
      assert (a + b)[..|a + b| - 1] == a + b[..end];
      ImportsKeepTheirOrder(a, b[..end]);
    }
  }

  lemma OneImport(one: Import)
    ensures SideEffectsOf([one]) == if one.SideEffect? then [one.text] else []
    ensures NamedOf([one]) == if one.Named? then [one.statement] else []
  {
    assert [one][..0] == [];
  }

  /** The imports as they are written out: side effects first, then the groups. */
  method OrganizeImports(imports: seq<Import>) returns (head: seq<string>, groups: seq<seq<string>>)
    ensures head == SideEffectsOf(imports)
    ensures groups == GroupTexts(Groups(Sort(Rank(NamedOf(imports)))))
  {
    var statements := [];
    head := [];
    for i := 0 to |imports|
      invariant head == SideEffectsOf(imports[..i]) && statements == NamedOf(imports[..i])
    {
      assert imports[..i + 1][..i] == imports[..i];
      match imports[i]
      case SideEffect(text) => head := head + [text];
      case Named(statement) => statements := statements + [statement];
    }
    assert imports[..|imports|] == imports;
    groups := GroupUp(Sort(Rank(statements)));
  }

  method GroupUp(ranked: seq<Ranked>) returns (groups: seq<seq<string>>)
    ensures groups == GroupTexts(Groups(ranked))
  {
    groups := [];
    var currentRank: Option<nat> := None;
    for i := 0 to |ranked|
      invariant groups == GroupTexts(Groups(ranked[..i]))
      invariant i > 0 ==> currentRank == Some(ranked[i - 1].rank)
    {
      ghost var before := Groups(ranked[..i]);
      assert ranked[..i + 1][..i] == ranked[..i];
      GroupTextsGrow(before, ranked[i]);
      var rank, text := ranked[i].rank, ranked[i].statement.text;
      if groups == [] || currentRank != Some(rank) {
        groups := groups + [[text]];
        currentRank := Some(rank);
      } else {
        groups := groups[..|groups| - 1] + [groups[|groups| - 1] + [text]];
      }
    }
    assert ranked[..|ranked|] == ranked;
  }

  lemma GroupTextsGrow(groups: seq<seq<Ranked>>, item: Ranked)
    ensures GroupTexts(NewGroup(groups, item)) == GroupTexts(groups) + [[item.statement.text]]
    ensures groups != [] ==>
      var texts, end := GroupTexts(groups), |groups| - 1;
      GroupTexts(Extended(groups, item)) == texts[..end] + [texts[end] + [item.statement.text]]
  {
    assert TextsOf([item]) == [item.statement.text];
    if groups != [] {
      LastStatement(groups[|groups| - 1], item);
    }
  }

  function AllTexts(imports: seq<Import>): seq<string> {
    if imports == [] then []
    else
      var last := imports[|imports| - 1];
      AllTexts(imports[..|imports| - 1]) + [if last.SideEffect? then last.text else last.statement.text]
  }

  function StatementTexts(statements: seq<Statement>): (r: seq<string>)
    ensures |r| == |statements| && forall i :: 0 <= i < |r| ==> r[i] == statements[i].text
  {
    seq(|statements|, i requires 0 <= i < |statements| => statements[i].text)
  }

  lemma {:induction false} ImportsAreSplit(imports: seq<Import>)
    ensures multiset(AllTexts(imports))
         == multiset(SideEffectsOf(imports)) + multiset(StatementTexts(NamedOf(imports)))
  {
    hide StatementTexts;
    if imports != [] {
      var init, last := imports[..|imports| - 1], imports[|imports| - 1];
      ImportsAreSplit(init);
      if last.Named? {
        OneMoreText(NamedOf(init), last.statement);
        assert NamedOf(imports) == NamedOf(init) + [last.statement];
        assert SideEffectsOf(imports) == SideEffectsOf(init);
      } else {
        assert NamedOf(imports) == NamedOf(init);
        assert SideEffectsOf(imports) == SideEffectsOf(init) + [last.text];
      }
    } else {
      assert StatementTexts(NamedOf(imports)) == [];
    }
  }

  lemma OneMoreText(statements: seq<Statement>, statement: Statement)
    ensures StatementTexts(statements + [statement]) == StatementTexts(statements) + [statement.text]
  {
  }

  lemma {:induction false} TextsFlatten(groups: seq<seq<Ranked>>)
    ensures Flatten(GroupTexts(groups)) == TextsOf(Flatten(groups))
  {
    if groups != [] {
      var init, last := groups[..|groups| - 1], groups[|groups| - 1];
      TextsFlatten(init);
      assert GroupTexts(groups)[..|groups| - 1] == GroupTexts(init);
      assert TextsOf(Flatten(init) + last) == TextsOf(Flatten(init)) + TextsOf(last);
    }
  }

  /**
   * Every import statement appears exactly once in what is written: the side effects in their order,
   * and the groups, which concatenate to the ordered list.
   */
  lemma NothingIsLost(imports: seq<Import>)
    ensures
      var ordered := Ordered(NamedOf(imports));
      var groups := GroupTexts(Groups(Sort(Rank(NamedOf(imports)))));
      && Flatten(groups) == StatementTexts(ordered)
      && multiset(SideEffectsOf(imports)) + multiset(Flatten(groups)) == multiset(AllTexts(imports))
  {
    hide Sort, Groups, Rank, SideEffectsOf, AllTexts, NamedOf, Flatten, RisingGroups;
    var statements := NamedOf(imports);
    var sorted := Sort(Rank(statements));
    SortSorts(Rank(statements));
    GroupsAreTheOrder(sorted);
    TextsFlatten(Groups(sorted));
    assert TextsOf(sorted) == StatementTexts(StatementsOf(sorted));
    SortKeepsStatements(Rank(statements));
    assert TextsOf(Rank(statements)) == StatementTexts(statements);
    ImportsAreSplit(imports);
  }
}
