/** The generators' two insertions into a file: an import line, and a property of an object. */
module LineInsertion {
  import opened Basics
  import opened Texts
  import opened ImportOrder

  /**
   * A line, with what the generators' patterns find in it: the path it imports, the key of an object
   * entry, whether it opens the object looked for, and whether it closes an object.
   */
  datatype Line = Line(text: string, importPath: Option<string>, key: string, opens: bool, closes: bool)

  type Lines = seq<Line>

  /** No line is two of these things; a closing line has no key. */
  ghost predicate Tokenised(lines: Lines) {
    forall i :: 0 <= i < |lines| ==>
      && (lines[i].closes ==> lines[i].key == "" && lines[i].importPath.None? && !lines[i].opens)
      && (lines[i].opens ==> lines[i].key == "" && lines[i].importPath.None?)
      && (lines[i].importPath.Some? ==> lines[i].key == "")
  }

  /** `lines.splice(at, 0, line)` */
  function Splice(lines: Lines, at: nat, line: Line): (r: Lines)
    requires at <= |lines|
    ensures |r| == |lines| + 1 && r[at] == line
    ensures forall i :: 0 <= i < at ==> r[i] == lines[i]
    ensures forall i :: at < i < |r| ==> r[i] == lines[i - 1]
  {
    lines[..at] + [line] + lines[at..]
  }

  // ----- Finding places

  predicate ImportsAfter(line: Line, target: string) {
    line.importPath.Some? && TextLess(target, line.importPath.value)
  }

  function FirstAfter(lines: Lines, target: string, i: nat): (n: nat)
    requires i <= |lines|
    ensures i <= n <= |lines| && (n < |lines| ==> ImportsAfter(lines[n], target))
    ensures forall m :: i <= m < n ==> !ImportsAfter(lines[m], target)
    decreases |lines| - i
  {
    if i == |lines| || ImportsAfter(lines[i], target) then i else FirstAfter(lines, target, i + 1)
  }

  /** The index after the last import, or 0 if there is none. */
  function AfterLastImport(lines: Lines): (n: nat)
    ensures n <= |lines| && (n > 0 ==> lines[n - 1].importPath.Some?)
    ensures forall m :: n <= m < |lines| ==> lines[m].importPath.None?
  {
    if lines == [] || lines[|lines| - 1].importPath.Some? then |lines| else AfterLastImport(lines[..|lines| - 1])
  }

  function ImportPosition(lines: Lines, target: string): (n: nat)
    ensures n <= |lines|
  {
    var first := FirstAfter(lines, target, 0);
    if first < |lines| then first else AfterLastImport(lines)
  }

  function OpenFrom(lines: Lines, i: nat): (n: nat)
    requires i <= |lines|
    ensures i <= n <= |lines| && (n < |lines| ==> lines[n].opens) && forall m :: i <= m < n ==> !lines[m].opens
    decreases |lines| - i
  {
    if i == |lines| || lines[i].opens then i else OpenFrom(lines, i + 1)
  }

  function CloseFrom(lines: Lines, i: nat): (n: nat)
    requires i <= |lines|
    ensures i <= n <= |lines| && (n < |lines| ==> lines[n].closes) && forall m :: i <= m < n ==> !lines[m].closes
    decreases |lines| - i
  {
    if i == |lines| || lines[i].closes then i else CloseFrom(lines, i + 1)
  }

  function OpenAt(lines: Lines): nat {
    OpenFrom(lines, 0)
  }

  function CloseAt(lines: Lines): (n: nat)
    ensures n <= |lines|
  {
    if OpenAt(lines) == |lines| then |lines| else CloseFrom(lines, OpenAt(lines) + 1)
  }

  /** The file has an import to go by, and the object. */
  predicate HasShape(lines: Lines) {
    AfterLastImport(lines) > 0 && CloseAt(lines) < |lines|
  }

  predicate Mentions(lines: Lines, needle: string) {
    exists i :: 0 <= i < |lines| && Contains(lines[i].text, needle)
  }

  // ----- What should stay true

  ghost predicate ImportsSorted(lines: Lines) {
    forall i, j :: 0 <= i < j < |lines| && lines[i].importPath.Some? && lines[j].importPath.Some? ==>
      !TextLess(lines[j].importPath.value, lines[i].importPath.value)
  }

  predicate Counts(key: string) {
    key != "" && key != "app"
  }

  /** The entries strictly between two lines, other than `app`, are sorted by key. */
  ghost predicate EntriesSorted(lines: Lines, from: int, to: int) {
    forall i, j :: 0 <= i < j < |lines| && from < i && j < to && Counts(lines[i].key) && Counts(lines[j].key) ==>
      !TextLess(lines[j].key, lines[i].key)
  }

  // ----- Splicing

  function Shift(at: nat, i: nat): nat {
    if at <= i then i + 1 else i
  }

  lemma ObjectShifts(lines: Lines, at: nat, line: Line)
    requires at <= |lines| && !line.opens && !line.closes
    ensures OpenAt(Splice(lines, at, line)) == Shift(at, OpenAt(lines))
    ensures CloseAt(Splice(lines, at, line)) == Shift(at, CloseAt(lines))
  {
    var after := Splice(lines, at, line);
    var o := OpenAt(lines);
    OpenIs(after, Shift(at, o));
    if o < |lines| {
      CloseIs(after, Shift(at, o) + 1, Shift(at, CloseAt(lines)));
    }
  }

  lemma OpenIs(lines: Lines, n: nat)
    requires n <= |lines| && (n < |lines| ==> lines[n].opens) && forall m :: 0 <= m < n ==> !lines[m].opens
    ensures OpenAt(lines) == n
  {
  }

  lemma CloseIs(lines: Lines, i: nat, n: nat)
    requires i <= n <= |lines| && (n < |lines| ==> lines[n].closes) && forall m :: i <= m < n ==> !lines[m].closes
    ensures CloseFrom(lines, i) == n
  {
  }

  /** An import goes in front of the first one with a larger path, or behind the last: the order holds. */
  lemma ImportStaysSorted(lines: Lines, target: string, line: Line)
    requires ImportsSorted(lines) && line.importPath == Some(target)
    ensures ImportsSorted(Splice(lines, ImportPosition(lines, target), line))
  {
    var at := ImportPosition(lines, target);
    var after := Splice(lines, at, line);
    forall i, j | 0 <= i < j < |after| && after[i].importPath.Some? && after[j].importPath.Some?
      ensures !TextLess(after[j].importPath.value, after[i].importPath.value)
    {
      if j == at {
        assert !ImportsAfter(lines[i], target);
      } else if i == at {
        LaterAreLarger(lines, target, j - 1);
      }
    }
  }

  lemma LaterAreLarger(lines: Lines, target: string, j: nat)
    requires ImportsSorted(lines) && ImportPosition(lines, target) <= j < |lines| && lines[j].importPath.Some?
    ensures !TextLess(lines[j].importPath.value, target)
  {
    var first := FirstAfter(lines, target, 0);
    var p, q := lines[first].importPath.value, lines[j].importPath.value;
    TextLessIsTotal(target, q);
    if TextLess(q, target) {
      TextLessIsTransitive(q, target, p);
    }
  }

  // ----- registerLocale

  datatype Refusal = AlreadyRegistered | UnexpectedShape

  /** What the generator inserts for a module: its import line and its entry, as the templates write them. */
  datatype Registration = Registration(exportName: string, alias: string, dirKebab: string, dirCamel: string)

  function QuotedModule(spec: Registration): string {
    "'@modules/" + spec.dirKebab + "'"
  }

  function EntryStart(spec: Registration): string {
    "  " + spec.dirCamel + ":"
  }

  function ImportLine(spec: Registration): Line {
    Line("import { " + spec.exportName + " as " + spec.alias + " } from " + QuotedModule(spec) + ";",
         Some(spec.dirKebab), "", false, false)
  }

  function EntryLine(spec: Registration): Line {
    Line(EntryStart(spec) + " " + spec.alias + "." + spec.dirCamel + ",", None, spec.dirCamel, false, false)
  }

  /** What is inserted names the module's own export, its alias, its directory and its namespace, each in its place. */
  lemma RegisteredLinesRead(spec: Registration)
    ensures ImportLine(spec).text
         == "import { " + spec.exportName + " as " + spec.alias + " } from '@modules/" + spec.dirKebab + "';"
    ensures EntryLine(spec).text == "  " + spec.dirCamel + ": " + spec.alias + "." + spec.dirCamel + ","
    ensures ImportLine(spec).importPath == Some(spec.dirKebab) && EntryLine(spec).key == spec.dirCamel
  {
    var before := "import { " + spec.exportName + " as " + spec.alias;
    assert " } from " + "'@modules/" == " } from '@modules/";
    assert "'" + ";" == "';";
    assert before + " } from " + ("'@modules/" + spec.dirKebab + "'") + ";"
        == before + (" } from " + "'@modules/") + spec.dirKebab + ("'" + ";");
    assert ":" + " " == ": ";
    assert "  " + spec.dirCamel + ":" + " " == "  " + spec.dirCamel + (":" + " ");
  }

  predicate IsLargerEntry(line: Line, key: string) {
    line.key != "app" && TextLess(key, line.key)
  }

  /** The first line from `i` on, and before `end`, with a larger key, or `end`. */
  function EntryFrom(lines: Lines, key: string, i: nat, end: nat): (n: nat)
    requires i <= end <= |lines|
    ensures i <= n <= end && (n < end ==> IsLargerEntry(lines[n], key))
    ensures forall m :: i <= m < n ==> !IsLargerEntry(lines[m], key)
    decreases end - i
  {
    if i == end || IsLargerEntry(lines[i], key) then i else EntryFrom(lines, key, i + 1, end)
  }

  /** Where the import goes, and then where the entry goes among the lines with the import. */
  function Places(spec: Registration, lines: Lines): (p: (nat, nat))
    requires HasShape(lines)
    ensures p.0 <= |lines| && p.1 <= |lines| + 1
  {
    var importAt := ImportPosition(lines, spec.dirKebab);
    var withImport := Splice(lines, importAt, ImportLine(spec));
    var start := OpenAt(lines) + 1 + if importAt <= OpenAt(lines) then 1 else 0;
    var end := CloseAt(lines) + 1;
    (importAt, EntryFrom(withImport, spec.dirCamel, start, end))
  }

  method RegisterLocale(spec: Registration, source: Lines) returns (r: Result<Lines, Refusal>)
    ensures Mentions(source, QuotedModule(spec)) || Mentions(source, EntryStart(spec)) ==> r == Err(AlreadyRegistered)
    ensures !Mentions(source, QuotedModule(spec)) && !Mentions(source, EntryStart(spec)) ==>
      if !HasShape(source) then r == Err(UnexpectedShape)
      else
        var (importAt, entryAt) := Places(spec, source);
        r == Ok(Splice(Splice(source, importAt, ImportLine(spec)), entryAt, EntryLine(spec)))
  {
    hide Mentions, QuotedModule, EntryStart, ImportLine, EntryLine, ImportPosition, Splice, EntryFrom, AfterLastImport;
    if Mentions(source, QuotedModule(spec)) || Mentions(source, EntryStart(spec)) {
      return Err(AlreadyRegistered);
    }
    if !HasShape(source) {
      return Err(UnexpectedShape);
    }
    var entriesStart, entriesEnd := OpenAt(source), CloseAt(source);
    var insertImport := ImportPosition(source, spec.dirKebab);
    var lines := Splice(source, insertImport, ImportLine(spec));
    var start := entriesStart + 1 + if insertImport <= entriesStart then 1 else 0;
    var at := ScanForLarger(lines, spec.dirCamel, start, entriesEnd + 1);
    lines := Splice(lines, at, EntryLine(spec));
    r := Ok(lines);
  }

  method ScanForLarger(lines: Lines, key: string, start: nat, end: nat) returns (at: nat)
    requires start <= end <= |lines|
    ensures at == EntryFrom(lines, key, start, end)
  {
    hide IsLargerEntry;
    at := end;
    var index := start;
    while index < end
      invariant start <= index <= end && at == end
      invariant EntryFrom(lines, key, index, end) == EntryFrom(lines, key, start, end)
    {
      if IsLargerEntry(lines[index], key) {
        at := index;
        break;
      }
      index := index + 1;
    }
  }

  // ----- wireComposition

  /** The use case's import line and its property of the commands or queries object. */
  datatype Wiring = Wiring(pascal: string, camel: string, target: string)

  function WiredImport(spec: Wiring): Line {
    Line("import { " + spec.pascal + " } from '" + spec.target + "';", Some(spec.target), "", false, false)
  }

  function WiredProperty(spec: Wiring): Line {
    Line("  " + spec.camel + ": new " + spec.pascal + "(dependencies),", None, spec.camel, false, false)
  }

  lemma WiredLinesRead(spec: Wiring)
    ensures WiredImport(spec).text == "import { " + spec.pascal + " } from '" + spec.target + "';"
    ensures WiredProperty(spec).text == "  " + spec.camel + ": new " + spec.pascal + "(dependencies),"
    ensures WiredImport(spec).importPath == Some(spec.target) && WiredProperty(spec).key == spec.camel
  {
  }

  /** `declaresDependencies` says whether some line starts with `const dependencies = `. */
  method WireComposition(spec: Wiring, source: Lines, declaresDependencies: bool) returns (r: Result<Lines, Refusal>)
    ensures Mentions(source, spec.target + "'") ==> r == Err(AlreadyRegistered)
    ensures !Mentions(source, spec.target + "'") ==>
      if !HasShape(source) || !declaresDependencies then r == Err(UnexpectedShape)
      else r == Ok(Wired(spec, source))
  {
    if Mentions(source, spec.target + "'") {
      return Err(AlreadyRegistered);
    }
    if !HasShape(source) || !declaresDependencies {
      return Err(UnexpectedShape);
    }
    var before := ImportPosition(source, spec.target);
    var lines := Splice(source, CloseAt(source), WiredProperty(spec));
    lines := Splice(lines, before, WiredImport(spec));
    r := Ok(lines);
  }

  /** A text without one of the needle's characters does not contain it. */
  lemma NowhereMentioned(lines: Lines, needle: string, c: char)
    requires c in needle && forall i :: 0 <= i < |lines| ==> c !in lines[i].text
    ensures !Mentions(lines, needle)
  {
    if i :| 0 <= i < |lines| && Contains(lines[i].text, needle) {
      var a, b := ContainsSplits(lines[i].text, needle);
    }
  }

  // ----- A second application is refused

  lemma NeedleInLine(lines: Lines, i: nat, a: string, word: string, b: string)
    requires i < |lines| && lines[i].text == a + word + b
    ensures Mentions(lines, word)
  {
    ContainsInside(a, word, b);
  }

  lemma SpliceKeepsLine(lines: Lines, at: nat, line: Line, i: nat)
    requires at <= |lines| && i < |lines|
    ensures Splice(lines, at, line)[Shift(at, i)] == lines[i]
  {
  }

  /** Registering a module again is always refused. */
  lemma RegisteringTwiceIsRefused(spec: Registration, lines: Lines, importAt: nat, entryAt: nat)
    requires importAt <= |lines| && entryAt <= |lines| + 1
    ensures Mentions(Splice(Splice(lines, importAt, ImportLine(spec)), entryAt, EntryLine(spec)), QuotedModule(spec))
  {
    hide Mentions, Contains;
    var withImport := Splice(lines, importAt, ImportLine(spec));
    var after := Splice(withImport, entryAt, EntryLine(spec));
    SpliceKeepsLine(withImport, entryAt, EntryLine(spec), importAt);
    NeedleInLine(
      after, Shift(entryAt, importAt),
      "import { " + spec.exportName + " as " + spec.alias + " } from ", QuotedModule(spec), ";");
  }

  /** Wiring a use case again is always refused. */
  lemma WiringTwiceIsRefused(spec: Wiring, lines: Lines, propertyAt: nat, importAt: nat)
    requires propertyAt <= |lines| && importAt <= |lines| + 1
    ensures Mentions(
      Splice(Splice(lines, propertyAt, WiredProperty(spec)), importAt, WiredImport(spec)), spec.target + "'")
  {
    hide Mentions, Contains;
    var after := Splice(Splice(lines, propertyAt, WiredProperty(spec)), importAt, WiredImport(spec));
    assert after[importAt].text == "import { " + spec.pascal + " } from '" + (spec.target + "'") + ";";
    NeedleInLine(after, importAt, "import { " + spec.pascal + " } from '", spec.target + "'", ";");
  }

  // ----- registerLocale: sorted imports, sorted entries, the entry inside the object

  ghost predicate HasLargerEntry(lines: Lines, key: string) {
    exists i :: OpenAt(lines) < i < CloseAt(lines) && IsLargerEntry(lines[i], key)
  }

  /** The lines with the import, and where the object is in them. */
  lemma AfterImport(spec: Registration, lines: Lines)
    requires HasShape(lines) && Tokenised(lines)
    ensures
      var importAt := ImportPosition(lines, spec.dirKebab);
      var withImport := Splice(lines, importAt, ImportLine(spec));
      && OpenAt(withImport) == Shift(importAt, OpenAt(lines)) < CloseAt(withImport)
      && CloseAt(withImport) == Shift(importAt, CloseAt(lines)) < |withImport|
      && (forall i :: 0 <= i < |lines| ==> withImport[Shift(importAt, i)] == lines[i])
  {
    var importAt := ImportPosition(lines, spec.dirKebab);
    ObjectShifts(lines, importAt, ImportLine(spec));
    forall i | 0 <= i < |lines|
      ensures Splice(lines, importAt, ImportLine(spec))[Shift(importAt, i)] == lines[i]
    {
      SpliceKeepsLine(lines, importAt, ImportLine(spec), i);
    }
  }

  /** With the import at or above the closing line, the scan covers the object and ends at its closing line. */
  lemma LandsInside(spec: Registration, lines: Lines)
    requires HasShape(lines) && Tokenised(lines) && ImportPosition(lines, spec.dirKebab) <= CloseAt(lines)
    ensures
      var (importAt, entryAt) := Places(spec, lines);
      var withImport := Splice(lines, importAt, ImportLine(spec));
      OpenAt(withImport) < entryAt <= CloseAt(withImport)
  {
    hide ImportPosition, TextLess, ImportLine, HasShape;
    AfterImport(spec, lines);
  }

  /** With the import below the closing line, the scan stops inside exactly at a larger entry. */
  lemma LandsInsideAtLarger(spec: Registration, lines: Lines)
    requires HasShape(lines) && Tokenised(lines) && CloseAt(lines) < ImportPosition(lines, spec.dirKebab)
    ensures
      var (importAt, entryAt) := Places(spec, lines);
      var withImport := Splice(lines, importAt, ImportLine(spec));
      && OpenAt(withImport) < entryAt
      && (entryAt <= CloseAt(withImport) <==> HasLargerEntry(lines, spec.dirCamel))
  {
    hide ImportPosition, ImportLine, HasShape, OpenAt, CloseAt;
    var (importAt, entryAt) := Places(spec, lines);
    var withImport := Splice(lines, importAt, ImportLine(spec));
    AfterImport(spec, lines);
    ClosingLineIsNotLarger(lines, spec.dirCamel);
    if HasLargerEntry(lines, spec.dirCamel) {
      var i :| OpenAt(lines) < i < CloseAt(lines) && IsLargerEntry(lines[i], spec.dirCamel);
      assert withImport[i] == lines[i];
    }
  }

  lemma ClosingLineIsNotLarger(lines: Lines, key: string)
    requires HasShape(lines) && Tokenised(lines)
    ensures !IsLargerEntry(lines[CloseAt(lines)], key)
  {
    assert lines[CloseAt(lines)].closes;
  }

  /**
   * The entry lands inside the object exactly when the import was not put below the object, or some
   * entry of the object has a larger key. Otherwise it lands behind the closing line.
   */
  lemma EntryLandsInsideExactlyWhen(spec: Registration, lines: Lines)
    requires HasShape(lines) && Tokenised(lines)
    ensures
      var (importAt, entryAt) := Places(spec, lines);
      var after := Splice(Splice(lines, importAt, ImportLine(spec)), entryAt, EntryLine(spec));
      OpenAt(after) < entryAt < CloseAt(after)
      <==> importAt <= CloseAt(lines) || HasLargerEntry(lines, spec.dirCamel)
  {
    hide ImportPosition, ImportLine, HasShape, OpenAt, CloseAt, HasLargerEntry;
    var (importAt, entryAt) := Places(spec, lines);
    var withImport := Splice(lines, importAt, ImportLine(spec));
    ObjectShifts(withImport, entryAt, EntryLine(spec));
    if importAt <= CloseAt(lines) {
      LandsInside(spec, lines);
    } else {
      LandsInsideAtLarger(spec, lines);
    }
  }

  lemma NoLargerKey(key: string)
    ensures !TextLess(key, "")
  {
  }

  lemma UnsortedNever(lines: Lines, from: int, to: int, key: string, i: nat, j: nat)
    requires EntriesSorted(lines, from, to) && from < i <= j < to && j < |lines|
    requires IsLargerEntry(lines[i], key) && Counts(lines[i].key) && Counts(lines[j].key)
    ensures !TextLess(lines[j].key, key)
  {
    TextLessIsTotal(key, lines[j].key);
    if TextLess(lines[j].key, key) {
      TextLessIsTotal(key, lines[i].key);
      TextLessIsTransitive(lines[j].key, key, lines[i].key);
    }
  }

  /** An entry put in front of the first larger one, or last, keeps sorted entries sorted. */
  lemma EntryStaysSorted(lines: Lines, from: nat, to: nat, line: Line, at: nat)
    requires EntriesSorted(lines, from, to) && from < at <= to <= |lines|
    requires EntryFrom(lines, line.key, from + 1, to) == at
    ensures EntriesSorted(Splice(lines, at, line), from, to + 1)
  {
    hide TextLess;
    var after := Splice(lines, at, line);
    forall i, j | 0 <= i < j < |after| && from < i && j < to + 1 && Counts(after[i].key) && Counts(after[j].key)
      ensures !TextLess(after[j].key, after[i].key)
    {
      if j == at {
        assert !IsLargerEntry(lines[i], line.key);
      } else if i == at {
        NoLargerKey(line.key);
        UnsortedNever(lines, from, to, line.key, at, j - 1);
      }
    }
  }

  /** The import goes in without disturbing either order. */
  lemma ImportKeepsOrder(spec: Registration, lines: Lines)
    requires HasShape(lines) && Tokenised(lines)
    requires ImportsSorted(lines) && EntriesSorted(lines, OpenAt(lines), CloseAt(lines))
    ensures
      var withImport := Splice(lines, ImportPosition(lines, spec.dirKebab), ImportLine(spec));
      ImportsSorted(withImport) && EntriesSorted(withImport, OpenAt(withImport), CloseAt(withImport))
  {
    hide ImportPosition, HasShape, OpenAt, CloseAt, TextLess, ImportsSorted, EntriesSorted, Tokenised, Splice;
    ImportStaysSorted(lines, spec.dirKebab, ImportLine(spec));
    AfterImport(spec, lines);
    EntriesShift(lines, ImportPosition(lines, spec.dirKebab), ImportLine(spec), OpenAt(lines), CloseAt(lines));
  }

  lemma EntryFromIs(lines: Lines, key: string, i: nat, end: nat, n: nat)
    requires i <= n <= end <= |lines| && (n < end ==> IsLargerEntry(lines[n], key))
    requires forall m :: i <= m < n ==> !IsLargerEntry(lines[m], key)
    ensures EntryFrom(lines, key, i, end) == n
  {
  }

  /** The entry goes to its place among the entries of the object, or right behind the closing line. */
  lemma EntryPlace(spec: Registration, lines: Lines)
    requires HasShape(lines) && Tokenised(lines)
    ensures
      var (importAt, entryAt) := Places(spec, lines);
      var withImport := Splice(lines, importAt, ImportLine(spec));
      && OpenAt(withImport) < CloseAt(withImport) < |withImport|
      && (entryAt == EntryFrom(withImport, spec.dirCamel, OpenAt(withImport) + 1, CloseAt(withImport))
          || entryAt == CloseAt(withImport) + 1)
  {
    hide ImportPosition, TextLess, ImportLine, HasShape, OpenAt, CloseAt, EntryFrom, IsLargerEntry, Splice, Tokenised;
    var (importAt, entryAt) := Places(spec, lines);
    var withImport := Splice(lines, importAt, ImportLine(spec));
    AfterImport(spec, lines);
    var c := CloseAt(withImport);
    if importAt > c && entryAt != c + 1 {
      ClosingLineIsNotLarger(lines, spec.dirCamel);
      assert entryAt != c;
      EntryFromIs(withImport, spec.dirCamel, OpenAt(withImport) + 1, c, entryAt);
    }
  }

  /**
   * Registering always keeps sorted import paths sorted, and the object's entries other than `app`
   * too, wherever the imports and the entry come to stand.
   */
  lemma RegisteringKeepsOrder(spec: Registration, lines: Lines)
    requires HasShape(lines) && Tokenised(lines)
    requires ImportsSorted(lines) && EntriesSorted(lines, OpenAt(lines), CloseAt(lines))
    ensures
      var (importAt, entryAt) := Places(spec, lines);
      var after := Splice(Splice(lines, importAt, ImportLine(spec)), entryAt, EntryLine(spec));
      && ImportsSorted(after) && EntriesSorted(after, OpenAt(after), CloseAt(after))
      && after[entryAt] == EntryLine(spec) && after[Shift(entryAt, importAt)] == ImportLine(spec)
  {
    hide ImportPosition, HasShape, OpenAt, CloseAt, ImportsSorted, EntriesSorted, Tokenised, EntryFrom, ImportLine;
    hide Splice;
    var (importAt, entryAt) := Places(spec, lines);
    var withImport := Splice(lines, importAt, ImportLine(spec));
    ImportKeepsOrder(spec, lines);
    EntryPlace(spec, lines);
    SpliceKeepsLine(withImport, entryAt, EntryLine(spec), importAt);
    if entryAt == CloseAt(withImport) + 1 {
      EntryGoesBehind(withImport, EntryLine(spec));
    } else {
      EntryGoesIn(withImport, EntryLine(spec), entryAt);
    }
  }

  lemma EntryGoesBehind(lines: Lines, line: Line)
    requires OpenAt(lines) < CloseAt(lines) < |lines| && ImportsSorted(lines)
    requires EntriesSorted(lines, OpenAt(lines), CloseAt(lines))
    requires line.importPath.None? && !line.opens && !line.closes
    ensures
      var after := Splice(lines, CloseAt(lines) + 1, line);
      ImportsSorted(after) && EntriesSorted(after, OpenAt(after), CloseAt(after))
  {
    hide OpenAt, CloseAt, ImportsSorted, TextLess;
    ObjectShifts(lines, CloseAt(lines) + 1, line);
    OtherLinesKeepImports(lines, CloseAt(lines) + 1, line);
  }

  /** Line `i` stands strictly inside the object. */
  predicate IsInside(lines: Lines, i: nat) {
    OpenAt(lines) < i < CloseAt(lines)
  }

  /**
   * Registering puts the entry inside the object and the import outside it exactly when the import's
   * place is above the object, or it is below and some entry of the object has a larger key.
   */
  lemma RegisteringGoesRightExactlyWhen(spec: Registration, lines: Lines)
    requires HasShape(lines) && Tokenised(lines)
    ensures
      var (importAt, entryAt) := Places(spec, lines);
      var after := Splice(Splice(lines, importAt, ImportLine(spec)), entryAt, EntryLine(spec));
      IsInside(after, entryAt) && !IsInside(after, Shift(entryAt, importAt))
      <==> importAt <= OpenAt(lines) || (CloseAt(lines) < importAt && HasLargerEntry(lines, spec.dirCamel))
  {
    hide ImportPosition, ImportLine, HasShape, OpenAt, CloseAt, HasLargerEntry, EntryFrom, Splice;
    var (importAt, entryAt) := Places(spec, lines);
    var withImport := Splice(lines, importAt, ImportLine(spec));
    EntryLandsInsideExactlyWhen(spec, lines);
    AfterImport(spec, lines);
    EntryPlace(spec, lines);
    ObjectShifts(withImport, entryAt, EntryLine(spec));
  }

  // ----- One input on which the entry misses the object

  function Opening(): Line {
    Line("const messages = {", None, "", true, false)
  }

  function Closing(): Line {
    Line("} as const;", None, "", false, true)
  }

  function ImportOf(path: string): Line {
    Line("import { x as x } from '@modules/" + path + "';", Some(path), "", false, false)
  }

  /** An object without entries, and then one import with a smaller path. */
  lemma ObjectOnTop(lines: Lines, path: string, target: string)
    requires lines == [Opening(), Closing(), ImportOf(path)] && TextLess(path, target)
    ensures OpenAt(lines) == 0 && CloseAt(lines) == 1 && ImportPosition(lines, target) == 3
    ensures HasShape(lines) && Tokenised(lines) && ImportsSorted(lines) && NotImported(lines, target)
  {
    hide TextLess;
    TextLessIsTotal(path, target);
    OpenIs(lines, 0);
    CloseIs(lines, 1, 1);
  }

  /** The import below the object, and no entry larger: the new entry lands behind the closing line. */
  lemma RegisteringCanMissTheObject()
    ensures
      var lines := [Opening(), Closing(), ImportOf("a")];
      var spec := Registration("enQ", "q", "q", "q");
      var (importAt, entryAt) := Places(spec, lines);
      var after := Splice(Splice(lines, importAt, ImportLine(spec)), entryAt, EntryLine(spec));
      && HasShape(lines) && Tokenised(lines)
      && !Mentions(lines, QuotedModule(spec)) && !Mentions(lines, EntryStart(spec))
      && !IsInside(after, entryAt)
  {
    var lines := [Opening(), Closing(), ImportOf("a")];
    var spec := Registration("enQ", "q", "q", "q");
    TextsWithoutQ();
    assert QuotedModule(spec)[10] == 'q' && EntryStart(spec)[2] == 'q';
    hide *;
    NowhereMentioned(lines, QuotedModule(spec), 'q');
    NowhereMentioned(lines, EntryStart(spec), 'q');
    ObjectOnTop(lines, "a", "q");
    NoLargerEntryOnTop(lines, "q");
    EntryLandsInsideExactlyWhen(spec, lines);
  }

  lemma TextsWithoutQ()
    ensures 'q' !in Opening().text && 'q' !in Closing().text && 'q' !in ImportOf("a").text && 'q' !in ImportOf("z").text
    ensures TextLess("a", "q") && TextLess("q", "z")
  {
    LettersInOrder();
    hide TextLess;
    var front, back := "import { x as x } from '@modules/", "';";
    assert 'q' !in front;
    assert 'q' !in back;
    assert ImportOf("a").text == front + "a" + back && ImportOf("z").text == front + "z" + back;
  }

  lemma LettersInOrder()
    ensures TextLess("a", "q") && TextLess("q", "z")
  {
  }

  lemma NoLargerEntryOnTop(lines: Lines, key: string)
    requires OpenAt(lines) == 0 && CloseAt(lines) == 1
    ensures !HasLargerEntry(lines, key)
  {
  }

  lemma EntryGoesIn(lines: Lines, line: Line, at: nat)
    requires OpenAt(lines) < CloseAt(lines) < |lines| && ImportsSorted(lines)
    requires EntriesSorted(lines, OpenAt(lines), CloseAt(lines))
    requires line.importPath.None? && !line.opens && !line.closes
    requires at == EntryFrom(lines, line.key, OpenAt(lines) + 1, CloseAt(lines))
    ensures
      var after := Splice(lines, at, line);
      ImportsSorted(after) && OpenAt(after) < at < CloseAt(after) && EntriesSorted(after, OpenAt(after), CloseAt(after))
  {
    hide OpenAt, CloseAt, ImportsSorted, EntriesSorted, Splice;
    EntryStaysSorted(lines, OpenAt(lines), CloseAt(lines), line, at);
    ObjectShifts(lines, at, line);
    OtherLinesKeepImports(lines, at, line);
  }

  lemma EntriesShift(lines: Lines, at: nat, line: Line, from: nat, to: nat)
    requires at <= |lines| && EntriesSorted(lines, from, to) && from < to && !Counts(line.key)
    ensures EntriesSorted(Splice(lines, at, line), Shift(at, from), Shift(at, to))
  {
    hide TextLess;
  }

  lemma OtherLinesKeepImports(lines: Lines, at: nat, line: Line)
    requires at <= |lines| && ImportsSorted(lines) && line.importPath.None?
    ensures ImportsSorted(Splice(lines, at, line))
  {
    hide TextLess;
  }

  // ----- wireComposition: exactly when the insertions go right

  function Wired(spec: Wiring, lines: Lines): Lines {
    Splice(Splice(lines, CloseAt(lines), WiredProperty(spec)), ImportPosition(lines, spec.target), WiredImport(spec))
  }

  /** Where the property has come to stand in the end. */
  function PropertyAt(spec: Wiring, lines: Lines): nat {
    Shift(ImportPosition(lines, spec.target), CloseAt(lines))
  }

  /** The object, the property and the import in the end. */
  lemma WiredLines(spec: Wiring, lines: Lines)
    requires HasShape(lines)
    ensures
      var importAt, after := ImportPosition(lines, spec.target), Wired(spec, lines);
      && PropertyAt(spec, lines) < |after| == |lines| + 2
      && after[importAt] == WiredImport(spec) && after[PropertyAt(spec, lines)] == WiredProperty(spec)
      && OpenAt(after) == Shift(importAt, OpenAt(lines)) && CloseAt(after) == Shift(importAt, CloseAt(lines) + 1)
      && OpenAt(lines) < CloseAt(lines)
  {
    hide ImportPosition, OpenAt, CloseAt, HasShape, WiredProperty, WiredImport;
    assert OpenAt(lines) < CloseAt(lines) < |lines| by {
      ObjectIsThere(lines);
    }
    var importAt, c := ImportPosition(lines, spec.target), CloseAt(lines);
    var property, wiredImport := WiredProperty(spec), WiredImport(spec);
    InsertedLinesAreNeither(spec);
    var withProperty := Splice(lines, c, property);
    ObjectShifts(lines, c, property);
    ObjectShifts(withProperty, importAt, wiredImport);
    SpliceKeepsLine(withProperty, importAt, wiredImport, c);
  }

  lemma ObjectIsThere(lines: Lines)
    requires HasShape(lines)
    ensures OpenAt(lines) < CloseAt(lines) < |lines|
  {
  }

  lemma InsertedLinesAreNeither(spec: Wiring)
    ensures !WiredProperty(spec).opens && !WiredProperty(spec).closes
    ensures !WiredImport(spec).opens && !WiredImport(spec).closes
  {
  }

  /**
   * The property stands inside the object in the end, and it is the last line there exactly when the
   * import's place is not the line right below the object.
   */
  lemma PropertyIsLastExactlyWhen(spec: Wiring, lines: Lines)
    requires HasShape(lines)
    ensures
      var after := Wired(spec, lines);
      && IsInside(after, PropertyAt(spec, lines)) && after[PropertyAt(spec, lines)] == WiredProperty(spec)
      && (PropertyAt(spec, lines) + 1 == CloseAt(after) <==> ImportPosition(lines, spec.target) != CloseAt(lines) + 1)
  {
    hide ImportPosition, OpenAt, CloseAt, HasShape;
    WiredLines(spec, lines);
  }

  /**
   * The import comes to stand inside the object exactly when its place is below the opening line and
   * at most one line below the closing line.
   */
  lemma ImportLandsInsideExactlyWhen(spec: Wiring, lines: Lines)
    requires HasShape(lines)
    ensures
      var importAt := ImportPosition(lines, spec.target);
      IsInside(Wired(spec, lines), importAt) <==> OpenAt(lines) < importAt <= CloseAt(lines) + 1
  {
    hide ImportPosition, OpenAt, CloseAt, HasShape;
    WiredLines(spec, lines);
  }

  ghost predicate NoImportInside(lines: Lines) {
    forall i: nat :: i < |lines| && IsInside(lines, i) ==> lines[i].importPath.None?
  }

  /** While no import stands inside the object, its place is above the object or below it. */
  lemma PlaceIsOutside(lines: Lines, target: string)
    requires HasShape(lines) && Tokenised(lines) && NoImportInside(lines)
    ensures
      var importAt := ImportPosition(lines, target);
      && (importAt <= OpenAt(lines) || CloseAt(lines) < importAt)
      && (importAt == CloseAt(lines) + 1 ==> importAt < |lines| && lines[importAt].importPath.Some?)
  {
    hide OpenAt, CloseAt, TextLess;
    ObjectLines(lines);
  }

  lemma ObjectLines(lines: Lines)
    requires HasShape(lines)
    ensures OpenAt(lines) < CloseAt(lines) < |lines| && lines[OpenAt(lines)].opens && lines[CloseAt(lines)].closes
  {
  }

  ghost predicate NotImported(lines: Lines, target: string) {
    forall i :: 0 <= i < |lines| ==> lines[i].importPath != Some(target)
  }

  /**
   * The import's place is found before the property is inserted. So sorted imports stay sorted
   * exactly when that place is not below the object, or no import stands right before it: below the
   * object, the new line comes to stand one line too early, in front of a smaller path.
   */
  lemma WiringKeepsImportsSortedExactlyWhen(spec: Wiring, lines: Lines)
    requires HasShape(lines) && Tokenised(lines) && ImportsSorted(lines) && NotImported(lines, spec.target)
    ensures
      var importAt := ImportPosition(lines, spec.target);
      ImportsSorted(Wired(spec, lines)) <==> importAt <= CloseAt(lines) || lines[importAt - 1].importPath.None?
  {
    hide HasShape, OpenAt, CloseAt, ImportPosition, TextLess;
    var importAt, c := ImportPosition(lines, spec.target), CloseAt(lines);
    var withProperty := Splice(lines, c, WiredProperty(spec));
    var after := Splice(withProperty, importAt, WiredImport(spec));
    OtherLinesKeepImports(lines, c, WiredProperty(spec));
    if importAt > c && lines[importAt - 1].importPath.Some? {
      EarlierAreSmaller(lines, spec.target, importAt - 1);
      assert after[importAt + 1] == withProperty[importAt] == lines[importAt - 1];
      assert !ImportsSorted(after);
    } else {
      forall i | 0 <= i < |withProperty| && withProperty[i].importPath.Some?
        ensures i < importAt ==> !TextLess(spec.target, withProperty[i].importPath.value)
        ensures importAt <= i ==> !TextLess(withProperty[i].importPath.value, spec.target)
      {
        var k := if i > c then i - 1 else i;
        assert withProperty[i] == lines[k];
        if k < importAt {
          EarlierAreSmaller(lines, spec.target, k);
        } else {
          LaterAreLarger(lines, spec.target, k);
        }
      }
      SplicedImport(withProperty, importAt, WiredImport(spec));
    }
  }

  /**
   * Wiring leaves the imports sorted, the import outside the object and the property as its last
   * line, exactly when the import's place is above the object, or it is more than one line below it
   * and no import stands right before it.
   */
  lemma WiringGoesRightExactlyWhen(spec: Wiring, lines: Lines)
    requires HasShape(lines) && Tokenised(lines) && ImportsSorted(lines) && NotImported(lines, spec.target)
    ensures
      var importAt, after := ImportPosition(lines, spec.target), Wired(spec, lines);
      ImportsSorted(after) && !IsInside(after, importAt) && PropertyAt(spec, lines) + 1 == CloseAt(after)
      <==> importAt <= OpenAt(lines)
           || (CloseAt(lines) + 1 < importAt && lines[importAt - 1].importPath.None?)
  {
    hide HasShape, OpenAt, CloseAt, ImportPosition, ImportsSorted, Wired, Tokenised, NotImported;
    WiringKeepsImportsSortedExactlyWhen(spec, lines);
    ImportLandsInsideExactlyWhen(spec, lines);
    PropertyIsLastExactlyWhen(spec, lines);
    ObjectIsThere(lines);
  }

  // ----- Both ways of going wrong

  /** All imports below the object: the new one lands in front of a smaller path. */
  lemma WiringCanBreakTheOrder()
    ensures
      var lines := [Opening(), Closing(), ImportOf("a")];
      var spec := Wiring("Q", "q", "q");
      && HasShape(lines) && Tokenised(lines) && ImportsSorted(lines)
      && !Mentions(lines, spec.target + "'") && NotImported(lines, spec.target)
      && !ImportsSorted(Wired(spec, lines))
  {
    var lines := [Opening(), Closing(), ImportOf("a")];
    var spec := Wiring("Q", "q", "q");
    TextsWithoutQ();
    assert (spec.target + "'")[0] == 'q';
    assert lines[2].importPath.Some?;
    hide *;
    NowhereMentioned(lines, spec.target + "'", 'q');
    ObjectOnTop(lines, "a", "q");
    WiringKeepsImportsSortedExactlyWhen(spec, lines);
  }

  /** An object without entries between two imports, the path of the second one larger. */
  lemma ObjectBetween(lines: Lines, p: string, q: string, target: string)
    requires lines == [ImportOf(p), Opening(), Closing(), ImportOf(q)] && TextLess(p, target) && TextLess(target, q)
    ensures OpenAt(lines) == 1 && CloseAt(lines) == 2 && ImportPosition(lines, target) == 3
    ensures HasShape(lines) && Tokenised(lines) && ImportsSorted(lines) && NotImported(lines, target)
    ensures NoImportInside(lines) && lines[2].importPath.None?
  {
    hide TextLess;
    TextLessIsTotal(p, target);
    TextLessIsTotal(q, target);
    TextLessIsTransitive(p, target, q);
    TextLessIsTotal(p, q);
    OpenIs(lines, 1);
    CloseIs(lines, 2, 2);
  }

  /** An import right below the object: the order holds, but the new one lands inside the object. */
  lemma WiringCanPutTheImportInside()
    ensures
      var lines := [ImportOf("a"), Opening(), Closing(), ImportOf("z")];
      var spec := Wiring("Q", "q", "q");
      && HasShape(lines) && Tokenised(lines) && ImportsSorted(lines) && NoImportInside(lines)
      && !Mentions(lines, spec.target + "'") && NotImported(lines, spec.target)
      && ImportsSorted(Wired(spec, lines))
      && IsInside(Wired(spec, lines), 3) && Wired(spec, lines)[3] == WiredImport(spec)
  {
    var lines := [ImportOf("a"), Opening(), Closing(), ImportOf("z")];
    var spec := Wiring("Q", "q", "q");
    TextsWithoutQ();
    assert (spec.target + "'")[0] == 'q';
    hide *;
    NowhereMentioned(lines, spec.target + "'", 'q');
    ObjectBetween(lines, "a", "z", "q");
    WiringKeepsImportsSortedExactlyWhen(spec, lines);
    ImportLandsInsideExactlyWhen(spec, lines);
    WiredLines(spec, lines);
  }

  lemma SplicedImport(lines: Lines, at: nat, line: Line)
    requires at <= |lines| && ImportsSorted(lines) && line.importPath.Some?
    requires forall i :: 0 <= i < at && lines[i].importPath.Some? ==>
      !TextLess(line.importPath.value, lines[i].importPath.value)
    requires forall i :: at <= i < |lines| && lines[i].importPath.Some? ==>
      !TextLess(lines[i].importPath.value, line.importPath.value)
    ensures ImportsSorted(Splice(lines, at, line))
  {
    hide TextLess;
  }

  /** Before its place, only imports with smaller paths stand. */
  lemma EarlierAreSmaller(lines: Lines, target: string, i: nat)
    requires i < ImportPosition(lines, target) && lines[i].importPath.Some?
    ensures !TextLess(target, lines[i].importPath.value)
    ensures lines[i].importPath != Some(target) ==> TextLess(lines[i].importPath.value, target)
  {
    assert !ImportsAfter(lines[i], target);
    TextLessIsTotal(target, lines[i].importPath.value);
  }
}
