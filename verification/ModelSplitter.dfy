/**
  The splitter of model modules: it cuts a source file into one span of lines per top-level class
  and groups the classes into files. Class dependencies are a given relation, the name a group gets
  a given function of the class name.
 */
module ModelSplitter {
  import opened Prelude
  import opened Text

  /** A top-level class of the parsed source; `lineno` counts from 1. */
  datatype ClassNode = ClassNode(name: string, lineno: nat, isChoices: bool, isModel: bool, dependencies: set<string>)

  datatype ModelInfo = ModelInfo(
    startLine: nat,
    endLine: nat,
    isChoices: bool,
    isModel: bool,
    dependencies: set<string>)

  // ---------------------------------------------------------------- spans

  function Indent(line: string): nat {
    LStripIsSuffix(line);
    |line| - |LStrip(line)|
  }

  /** A line that ends a class whose header is indented by `indent`. */
  predicate Cuts(line: string, indent: nat) {
    && Strip(line) != ""
    && Indent(line) <= indent
    && (StartsWith(Strip(line), "class ") || StartsWith(Strip(line), "def ") || StartsWith(Strip(line), "@"))
  }

  /** The first cutting line at or after `from`, or the end of the file. */
  function NextCut(lines: seq<string>, indent: nat, from: nat): (end: nat)
    requires from <= |lines|
    ensures from <= end <= |lines|
    ensures end < |lines| ==> Cuts(lines[end], indent)
    ensures forall i :: from <= i < end ==> !Cuts(lines[i], indent)
    decreases |lines| - from
  {
    if from == |lines| || Cuts(lines[from], indent) then from else NextCut(lines, indent, from + 1)
  }

  function Span(lines: seq<string>, start: nat): nat
    requires start < |lines|
  {
    NextCut(lines, Indent(lines[start]), start + 1)
  }

  function InfoOf(node: ClassNode, lines: seq<string>): ModelInfo
    requires 1 <= node.lineno <= |lines|
  {
    ModelInfo(node.lineno - 1, Span(lines, node.lineno - 1), node.isChoices, node.isModel, node.dependencies)
  }

  /** The dictionary built from the classes in source order: a later class replaces a namesake. */
  function InfoTable(nodes: seq<ClassNode>, lines: seq<string>): (t: map<string, ModelInfo>)
    requires forall k :: 0 <= k < |nodes| ==> 1 <= nodes[k].lineno <= |lines|
    ensures forall m :: m in t <==> exists k :: 0 <= k < |nodes| && nodes[k].name == m
  {
    if |nodes| == 0 then map[]
    else
      var n := |nodes| - 1;
      InfoTable(nodes[..n], lines)[nodes[n].name := InfoOf(nodes[n], lines)]
  }

  lemma OneMoreNode(nodes: seq<ClassNode>, lines: seq<string>, i: nat)
    requires i < |nodes| && forall k :: 0 <= k < |nodes| ==> 1 <= nodes[k].lineno <= |lines|
    ensures InfoTable(nodes[..i + 1], lines) == InfoTable(nodes[..i], lines)[nodes[i].name := InfoOf(nodes[i], lines)]
  {
    assert nodes[..i + 1][..i] == nodes[..i];
  }

  /** The last class of each name is the one recorded. */
  lemma {:induction false} LastNamesakeIsRecorded(nodes: seq<ClassNode>, lines: seq<string>, k: nat)
    requires forall i :: 0 <= i < |nodes| ==> 1 <= nodes[i].lineno <= |lines|
    requires k < |nodes| && forall j :: k < j < |nodes| ==> nodes[j].name != nodes[k].name
    ensures InfoTable(nodes, lines)[nodes[k].name] == InfoOf(nodes[k], lines)
  {
    if k < |nodes| - 1 {
      LastNamesakeIsRecorded(nodes[..|nodes| - 1], lines, k);
    }
  }

  /** What is recorded of it is its own: its line, its kind and its dependencies. */
  lemma RecordedAsParsed(nodes: seq<ClassNode>, lines: seq<string>, k: nat)
    requires forall i :: 0 <= i < |nodes| ==> 1 <= nodes[i].lineno <= |lines|
    requires k < |nodes| && forall j :: k < j < |nodes| ==> nodes[j].name != nodes[k].name
    ensures var info := InfoTable(nodes, lines)[nodes[k].name];
            && info.startLine == nodes[k].lineno - 1
            && info.isChoices == nodes[k].isChoices && info.isModel == nodes[k].isModel
            && info.dependencies == nodes[k].dependencies
  {
    LastNamesakeIsRecorded(nodes, lines, k);
  }

  /** The header of a top-level class as it is usually written: `class ` at column 0 and a name. */
  predicate TopLevelHeader(line: string) {
    "class " <= line && !IsBlank(line[6..])
  }

  lemma HeaderCuts(line: string)
    requires TopLevelHeader(line)
    ensures Indent(line) == 0 && Cuts(line, 0)
  {
    assert line[0] == 'c' && !IsSpace('c');
    assert LStrip(line) == line;
    RStripOfNonBlankTail("class ", line[6..]);
    assert line == "class " + line[6..];
  }

  /** A line that ends a top-level class: at column 0, without white space before it, another class or
      a function with something behind the key word, or a decorator. */
  predicate EndsClass(line: string) {
    TopLevelHeader(line) || ("def " <= line && !IsBlank(line[4..])) || "@" <= line
  }

  /** Blank, or with white space at column 0. */
  predicate IsInner(line: string) {
    line == "" || IsSpace(line[0])
  }

  lemma RStripStartsWithIff(line: string, word: string)
    requires word != "" && !IsSpace(word[|word| - 1])
    ensures StartsWith(RStrip(line), word + " ") <==> word + " " <= line && !IsBlank(line[|word| + 1..])
  {
    var prefix := word + " ";
    RStripIsPrefix(line);
    if prefix <= line {
      var tail := line[|prefix|..];
      assert line == prefix + tail;
      if IsBlank(tail) {
        RStripOfBlankTail(word, " " + tail);
        assert line == word + (" " + tail);
      } else {
        RStripOfNonBlankTail(prefix, tail);
      }
    }
  }

  /** Cutting at column 0, said on the raw line. */
  lemma CutsAtColumnZeroIff(line: string)
    ensures Cuts(line, 0) <==> EndsClass(line)
    ensures IsInner(line) ==> !EndsClass(line)
  {
    LStripIsSuffix(line);
    if IsInner(line) {
      assert line != "" ==> IsSpace(line[0]) && !IsSpace('c') && !IsSpace('d') && !IsSpace('@');
      assert Indent(line) == 0 ==> line == "";
    } else {
      assert LStrip(line) == line && Strip(line) == RStrip(line);
      RStripIsPrefix(line);
      RStripStartsWithIff(line, "class");
      RStripStartsWithIff(line, "def");
      assert "class" + " " == "class " && "def" + " " == "def ";
      assert RStrip(line) != "" && RStrip(line)[0] == line[0];
    }
  }

  /** The lines of a top-level class are those from its header to the next line that ends a class, or
      to the end of the file: so every blank or indented line after the header belongs to it until then. */
  lemma SpanOfHeader(lines: seq<string>, start: nat)
    requires start < |lines| && TopLevelHeader(lines[start])
    ensures var end := Span(lines, start);
            && start < end <= |lines|
            && (end < |lines| ==> EndsClass(lines[end]))
            && (forall i :: start < i < end ==> !EndsClass(lines[i]))
    ensures forall i :: start <= i < |lines| && (forall j :: start < j <= i ==> IsInner(lines[j])) ==>
              InSpan(lines, start, i)
  {
    HeaderCuts(lines[start]);
    forall i | 0 <= i < |lines|
      ensures (Cuts(lines[i], 0) <==> EndsClass(lines[i])) && (IsInner(lines[i]) ==> !EndsClass(lines[i]))
    {
      CutsAtColumnZeroIff(lines[i]);
    }
    hide Cuts, EndsClass, IsInner;
    assert Span(lines, start) == NextCut(lines, 0, start + 1);
  }

  /** What the parser guarantees of the top-level classes: headers in order, inside the file. */
  ghost predicate ParsedFrom(starts: seq<nat>, lines: seq<string>) {
    && (forall i :: 0 <= i < |starts| ==> starts[i] < |lines| && TopLevelHeader(lines[starts[i]]))
    && (forall i, j :: 0 <= i < j < |starts| ==> starts[i] < starts[j])
  }

  predicate InSpan(lines: seq<string>, start: nat, i: int)
    requires start < |lines|
  {
    start <= i < Span(lines, start)
  }

  /** The spans are in bounds, in order and pairwise disjoint, and a header is in its own span only. */
  lemma SpansNeverOverlap(lines: seq<string>, starts: seq<nat>)
    requires ParsedFrom(starts, lines)
    ensures forall i :: 0 <= i < |starts| ==> starts[i] < Span(lines, starts[i]) <= |lines|
    ensures forall i, j :: 0 <= i < j < |starts| ==> Span(lines, starts[i]) <= starts[j]
    ensures forall i, j :: 0 <= i < |starts| && 0 <= j < |starts| && InSpan(lines, starts[j], starts[i]) ==> i == j
  {
    forall i, j | 0 <= i < j < |starts| ensures Span(lines, starts[i]) <= starts[j] {
      HeaderCuts(lines[starts[i]]);
      HeaderCuts(lines[starts[j]]);
    }
  }

  ghost predicate InSomeSpan(lines: seq<string>, starts: seq<nat>, i: int)
    requires ParsedFrom(starts, lines)
  {
    exists k :: 0 <= k < |starts| && InSpan(lines, starts[k], i)
  }

  /** The index of the last header at or before line `i`. */
  function LastHeader(starts: seq<nat>, i: nat): (k: nat)
    requires |starts| > 0 && starts[0] <= i
    ensures k < |starts| && starts[k] <= i
    ensures forall j :: k < j < |starts| ==> starts[j] > i
  {
    if starts[|starts| - 1] <= i then |starts| - 1 else LastHeader(starts[..|starts| - 1], i)
  }

  /** A line that ends classes and is no header is in no span. */
  lemma OtherCutsLoseLines(lines: seq<string>, starts: seq<nat>, i: nat)
    requires ParsedFrom(starts, lines)
    requires i < |lines| && EndsClass(lines[i]) && i !in starts
    ensures !InSomeSpan(lines, starts, i)
  {
    hide EndsClass, TopLevelHeader, Span;
    forall k | 0 <= k < |starts| ensures !InSpan(lines, starts[k], i) {
      SpanOfHeader(lines, starts[k]);
      assert starts[k] in starts;
    }
  }

  lemma CoveredWithoutOtherCuts(lines: seq<string>, starts: seq<nat>, i: nat)
    requires ParsedFrom(starts, lines) && |starts| > 0
    requires forall c :: starts[0] < c < |lines| && EndsClass(lines[c]) ==> c in starts
    requires starts[0] <= i < |lines|
    ensures InSpan(lines, starts[LastHeader(starts, i)], i)
  {
    var k := LastHeader(starts, i);
    SpanOfHeader(lines, starts[k]);
    hide EndsClass, TopLevelHeader, Span;
    assert forall j :: 0 <= j < |starts| && starts[k] < starts[j] ==> starts[j] > i;
  }

  // ---------------------------------------------------------------- lines that are kept

  type Models = map<string, ModelInfo>

  function Starts(nodes: seq<ClassNode>): seq<nat>
    requires forall k :: 0 <= k < |nodes| ==> 1 <= nodes[k].lineno
  {
    seq(|nodes|, k requires 0 <= k < |nodes| => nodes[k].lineno - 1)
  }

  ghost predicate ParsedNodes(nodes: seq<ClassNode>, lines: seq<string>) {
    && (forall k :: 0 <= k < |nodes| ==> 1 <= nodes[k].lineno <= |lines|)
    && ParsedFrom(Starts(nodes), lines)
  }

  predicate DistinctNames(nodes: seq<ClassNode>) {
    forall j, k :: 0 <= j < k < |nodes| ==> nodes[j].name != nodes[k].name
  }

  /** Line i is part of what is recorded for class m. */
  predicate Holds(models: Models, m: string, i: int) {
    m in models && models[m].startLine <= i < models[m].endLine
  }

  ghost predicate Kept(models: Models, i: int) {
    exists m :: Holds(models, m, i)
  }

  /** What is recorded under a name is the span of the last class that bears it. */
  lemma {:induction false} RecordedNode(nodes: seq<ClassNode>, lines: seq<string>, m: string) returns (k: nat)
    requires forall i :: 0 <= i < |nodes| ==> 1 <= nodes[i].lineno <= |lines|
    requires m in InfoTable(nodes, lines)
    ensures k < |nodes| && nodes[k].name == m && InfoTable(nodes, lines)[m] == InfoOf(nodes[k], lines)
    ensures forall j :: k < j < |nodes| ==> nodes[j].name != m
  {
    hide InfoOf;
    var n := |nodes| - 1;
    if nodes[n].name == m {
      k := n;
    } else {
      k := RecordedNode(nodes[..n], lines, m);
    }
  }

  lemma HolderOfLine(nodes: seq<ClassNode>, lines: seq<string>, m: string, i: nat) returns (k: nat)
    requires ParsedNodes(nodes, lines) && Holds(InfoTable(nodes, lines), m, i)
    ensures k < |nodes| && nodes[k].name == m && InSpan(lines, Starts(nodes)[k], i)
    ensures forall j :: k < j < |nodes| ==> nodes[j].name != m
  {
    k := RecordedNode(nodes, lines, m);
  }

  /** A line outside every span is lost. */
  lemma UncoveredLineIsLost(nodes: seq<ClassNode>, lines: seq<string>, i: nat)
    requires ParsedNodes(nodes, lines) && !InSomeSpan(lines, Starts(nodes), i)
    ensures !Kept(InfoTable(nodes, lines), i)
  {
    hide InfoTable;
    if Kept(InfoTable(nodes, lines), i) {
      var m :| Holds(InfoTable(nodes, lines), m, i);
      var k := HolderOfLine(nodes, lines, m, i);
    }
  }

  /** Nothing above the first header is kept: neither its decorators, nor imports, nor constants. */
  lemma LinesAboveAreLost(nodes: seq<ClassNode>, lines: seq<string>, i: nat)
    requires ParsedNodes(nodes, lines)
    requires |nodes| > 0 ==> i < nodes[0].lineno - 1
    ensures !Kept(InfoTable(nodes, lines), i)
  {
    assert forall k :: 0 <= k < |nodes| ==> Starts(nodes)[0] <= Starts(nodes)[k];
    UncoveredLineIsLost(nodes, lines, i);
  }

  /** After the first header nothing at column 0 but the headers starts with `class `, `def ` or `@`. */
  ghost predicate OnlyHeadersCut(nodes: seq<ClassNode>, lines: seq<string>)
    requires ParsedNodes(nodes, lines) && |nodes| > 0
  {
    forall i :: nodes[0].lineno <= i < |lines| && EndsClass(lines[i]) ==> i in Starts(nodes)
  }

  ghost predicate HeadersKept(nodes: seq<ClassNode>, lines: seq<string>)
    requires ParsedNodes(nodes, lines)
  {
    forall k :: 0 <= k < |nodes| ==> Kept(InfoTable(nodes, lines), Starts(nodes)[k])
  }

  /** If all headers are kept then no two classes bear one name. */
  lemma HeadersKeptMeansDistinctNames(nodes: seq<ClassNode>, lines: seq<string>)
    requires ParsedNodes(nodes, lines) && HeadersKept(nodes, lines)
    ensures DistinctNames(nodes)
  {
    hide InfoTable;
    forall j, k | 0 <= j < k < |nodes| ensures nodes[j].name != nodes[k].name {
      var start := Starts(nodes)[j];
      var m :| Holds(InfoTable(nodes, lines), m, start);
      var holder := HolderOfLine(nodes, lines, m, start);
      SpansNeverOverlap(lines, Starts(nodes));
      assert holder == j;
    }
  }

  lemma SpanOfLastNamesakeIsKept(nodes: seq<ClassNode>, lines: seq<string>, k: nat, i: nat)
    requires ParsedNodes(nodes, lines)
    requires k < |nodes| && forall j :: k < j < |nodes| ==> nodes[j].name != nodes[k].name
    requires InSpan(lines, Starts(nodes)[k], i)
    ensures Kept(InfoTable(nodes, lines), i)
  {
    hide Span, TopLevelHeader;
    LastNamesakeIsRecorded(nodes, lines, k);
    hide InfoTable;
    assert nodes[k].name in InfoTable(nodes, lines);
    assert Holds(InfoTable(nodes, lines), nodes[k].name, i);
  }

  lemma CoveredLineIsKept(nodes: seq<ClassNode>, lines: seq<string>, i: nat)
    requires ParsedNodes(nodes, lines) && |nodes| > 0 && DistinctNames(nodes) && OnlyHeadersCut(nodes, lines)
    requires nodes[0].lineno - 1 <= i < |lines|
    ensures Kept(InfoTable(nodes, lines), i)
  {
    hide Cuts, EndsClass, InfoTable, Kept;
    CoveredWithoutOtherCuts(lines, Starts(nodes), i);
    SpanOfLastNamesakeIsKept(nodes, lines, LastHeader(Starts(nodes), i), i);
  }

  /** No line from `first` on is lost. */
  ghost predicate KeptFrom(nodes: seq<ClassNode>, lines: seq<string>, first: nat)
    requires ParsedNodes(nodes, lines)
  {
    forall i :: first <= i < |lines| ==> Kept(InfoTable(nodes, lines), i)
  }

  lemma KeptMeansOnlyHeadersCut(nodes: seq<ClassNode>, lines: seq<string>)
    requires ParsedNodes(nodes, lines) && |nodes| > 0 && KeptFrom(nodes, lines, nodes[0].lineno - 1)
    ensures OnlyHeadersCut(nodes, lines)
  {
    hide Cuts, EndsClass, InfoTable, Kept;
    forall i | nodes[0].lineno <= i < |lines| && EndsClass(lines[i]) ensures i in Starts(nodes) {
      if i !in Starts(nodes) {
        OtherCutsLoseLines(lines, Starts(nodes), i);
        UncoveredLineIsLost(nodes, lines, i);
      }
    }
  }

  /** From the first header on no line is lost exactly when no two classes bear one name and only
      headers cut. */
  lemma NoLineLostIff(nodes: seq<ClassNode>, lines: seq<string>)
    requires ParsedNodes(nodes, lines) && |nodes| > 0
    ensures KeptFrom(nodes, lines, nodes[0].lineno - 1) <==> DistinctNames(nodes) && OnlyHeadersCut(nodes, lines)
  {
    assert forall k :: 0 <= k < |nodes| ==> Starts(nodes)[0] <= Starts(nodes)[k] < |lines|;
    hide DistinctNames, OnlyHeadersCut, InfoTable, Kept;
    if KeptFrom(nodes, lines, nodes[0].lineno - 1) {
      HeadersKeptMeansDistinctNames(nodes, lines);
      KeptMeansOnlyHeadersCut(nodes, lines);
    }
    if DistinctNames(nodes) && OnlyHeadersCut(nodes, lines) {
      forall i | nodes[0].lineno - 1 <= i < |lines| ensures Kept(InfoTable(nodes, lines), i) {
        CoveredLineIsKept(nodes, lines, i);
      }
    }
  }

  /** For a whole file: no line is lost exactly when, besides, its first line is a class header. */
  lemma WholeFileIsKeptIff(nodes: seq<ClassNode>, lines: seq<string>)
    requires ParsedNodes(nodes, lines) && |lines| > 0
    ensures KeptFrom(nodes, lines, 0)
            <==> |nodes| > 0 && nodes[0].lineno == 1 && DistinctNames(nodes) && OnlyHeadersCut(nodes, lines)
  {
    hide DistinctNames, OnlyHeadersCut, InfoTable, Kept;
    if |nodes| > 0 {
      NoLineLostIff(nodes, lines);
    }
    if |nodes| == 0 || nodes[0].lineno > 1 {
      LinesAboveAreLost(nodes, lines, 0);
    }
  }

  /** Two classes of one name: the first is lost. */
  lemma SameNamesLoseALine()
    ensures var nodes := [ClassNode("A", 1, false, true, {}), ClassNode("A", 2, false, true, {})];
            var lines := ["class A:", "class A:"];
            ParsedNodes(nodes, lines) && !Kept(InfoTable(nodes, lines), 0)
  {
    var nodes := [ClassNode("A", 1, false, true, {}), ClassNode("A", 2, false, true, {})];
    var lines := ["class A:", "class A:"];
    assert lines[0][6..] == "A:" && lines[0][6..][0] == 'A';
  }

  /** A decorator between two classes is lost. */
  lemma DecoratorIsLost()
    ensures var nodes := [ClassNode("A", 1, false, true, {}), ClassNode("B", 3, false, true, {})];
            var lines := ["class A:", "@final", "class B:"];
            ParsedNodes(nodes, lines) && !Kept(InfoTable(nodes, lines), 1)
  {
    var nodes := [ClassNode("A", 1, false, true, {}), ClassNode("B", 3, false, true, {})];
    var lines := ["class A:", "@final", "class B:"];
    assert lines[0][6..] == "A:" && lines[0][6..][0] == 'A';
    assert lines[2][6..] == "B:" && lines[2][6..][0] == 'B';
    assert ParsedNodes(nodes, lines);
    assert EndsClass(lines[1]);
    hide EndsClass, ParsedNodes, InfoTable, Kept, InSomeSpan;
    assert Starts(nodes) == [0, 2];
    OtherCutsLoseLines(lines, Starts(nodes), 1);
    UncoveredLineIsLost(nodes, lines, 1);
  }

  /** So is the decorator of the first class, although no header is lost and nothing else cuts. */
  lemma FirstDecoratorIsLost()
    ensures var nodes := [ClassNode("A", 2, false, true, {})];
            var lines := ["@final", "class A:"];
            && ParsedNodes(nodes, lines) && DistinctNames(nodes) && OnlyHeadersCut(nodes, lines)
            && !Kept(InfoTable(nodes, lines), 0)
  {
    var nodes := [ClassNode("A", 2, false, true, {})];
    var lines := ["@final", "class A:"];
    assert lines[1][6..] == "A:" && lines[1][6..][0] == 'A';
    assert ParsedNodes(nodes, lines);
    hide EndsClass, ParsedNodes, InfoTable, Kept;
    LinesAboveAreLost(nodes, lines, 0);
  }

  // ---------------------------------------------------------------- sorting

  /** The sort key: choices classes first, then by name. */
  predicate Precedes(choices: set<string>, x: string, y: string) {
    if (x in choices) != (y in choices) then x in choices else Less(x, y)
  }

  ghost predicate Ordered(choices: set<string>, xs: seq<string>) {
    forall i, j :: 0 <= i < j < |xs| ==> Precedes(choices, xs[i], xs[j])
  }

  lemma PrecedesIsTotalOrder(choices: set<string>, x: string, y: string, z: string)
    ensures x == y || Precedes(choices, x, y) || Precedes(choices, y, x)
    ensures !Precedes(choices, x, x)
    ensures Precedes(choices, x, y) && Precedes(choices, y, z) ==> Precedes(choices, x, z)
    ensures Precedes(choices, x, y) ==> !Precedes(choices, y, x)
  {
    LessIsTotal(x, y);
    LessIsTotal(x, x);
    if Less(x, y) && Less(y, z) {
      LessIsTransitive(x, y, z);
    }
  }

  function Insert(choices: set<string>, xs: seq<string>, x: string): seq<string> {
    if |xs| == 0 || !Precedes(choices, x, xs[|xs| - 1]) then xs + [x]
    else Insert(choices, xs[..|xs| - 1], x) + [xs[|xs| - 1]]
  }

  /** Python's `list.sort` with the key of `Precedes`. */
  function SortModels(choices: set<string>, xs: seq<string>): seq<string> {
    if |xs| == 0 then [] else Insert(choices, SortModels(choices, xs[..|xs| - 1]), xs[|xs| - 1])
  }

  lemma {:induction false} InsertAdds(choices: set<string>, xs: seq<string>, x: string)
    ensures multiset(Insert(choices, xs, x)) == multiset(xs) + multiset{x}
  {
    if |xs| > 0 {
      var n := |xs| - 1;
      assert xs == xs[..n] + [xs[n]];
      if Precedes(choices, x, xs[n]) {
        InsertAdds(choices, xs[..n], x);
        hide Insert, Precedes;
      }
    }
  }

  lemma InsertMember(choices: set<string>, xs: seq<string>, x: string, y: string)
    requires y in Insert(choices, xs, x)
    ensures y == x || y in xs
  {
    InsertAdds(choices, xs, x);
    hide Insert;
    assert y in multiset(Insert(choices, xs, x));
  }

  lemma {:induction false} InsertOrders(choices: set<string>, xs: seq<string>, x: string)
    requires Ordered(choices, xs) && x !in xs
    ensures Ordered(choices, Insert(choices, xs, x))
    ensures multiset(Insert(choices, xs, x)) == multiset(xs) + multiset{x}
  {
    InsertAdds(choices, xs, x);
    if |xs| > 0 {
      var n := |xs| - 1;
      if Precedes(choices, x, xs[n]) {
        InsertOrders(choices, xs[..n], x);
        var front := Insert(choices, xs[..n], x);
        assert Insert(choices, xs, x) == front + [xs[n]];
        hide Insert, Precedes;
        forall i | 0 <= i < |front| ensures Precedes(choices, front[i], xs[n]) {
          InsertMember(choices, xs[..n], x, front[i]);
        }
      } else {
        PrecedesIsTotalOrder(choices, xs[n], x, x);
        hide Precedes;
        forall i | 0 <= i <= n ensures Precedes(choices, xs[i], x) {
          PrecedesIsTotalOrder(choices, xs[i], xs[n], x);
        }
      }
    }
  }

  /** Sorting distinct names only permutes them, and orders them. */
  lemma {:induction false} SortPermutes(choices: set<string>, xs: seq<string>)
    requires NoDuplicates(xs)
    ensures Ordered(choices, SortModels(choices, xs))
    ensures multiset(SortModels(choices, xs)) == multiset(xs)
    ensures NoDuplicates(SortModels(choices, xs)) && Elements(SortModels(choices, xs)) == Elements(xs)
  {
    if |xs| > 0 {
      var n := |xs| - 1;
      SortPermutes(choices, xs[..n]);
      assert xs[n] !in xs[..n];
      assert xs[n] !in Elements(xs[..n]);
      InsertOrders(choices, SortModels(choices, xs[..n]), xs[n]);
      assert xs == xs[..n] + [xs[n]];
    }
    SameMultisetSameElements(SortModels(choices, xs), xs);
    OrderedIsDistinct(choices, SortModels(choices, xs));
  }

  lemma SameMultisetSameElements(xs: seq<string>, ys: seq<string>)
    requires multiset(xs) == multiset(ys)
    ensures Elements(xs) == Elements(ys)
  {
    forall x ensures x in Elements(xs) <==> x in Elements(ys) {
      assert x in multiset(xs) <==> x in xs;
      assert x in multiset(ys) <==> x in ys;
    }
  }

  lemma OrderedIsDistinct(choices: set<string>, xs: seq<string>)
    requires Ordered(choices, xs)
    ensures NoDuplicates(xs)
  {
    forall i, j | 0 <= i < j < |xs| ensures xs[i] != xs[j] {
      PrecedesIsTotalOrder(choices, xs[i], xs[j], xs[j]);
    }
  }

  /** An ordered list is determined by its elements. */
  lemma {:induction false} OrderedListIsUnique(choices: set<string>, xs: seq<string>, ys: seq<string>)
    requires Ordered(choices, xs) && Ordered(choices, ys) && Elements(xs) == Elements(ys)
    ensures xs == ys
  {
    OrderedIsDistinct(choices, xs);
    OrderedIsDistinct(choices, ys);
    DistinctCount(xs);
    DistinctCount(ys);
    if |xs| > 0 {
      var n := |xs| - 1;
      assert xs[n] in Elements(ys) && ys[n] in Elements(xs);
      if xs[n] != ys[n] {
        var i :| 0 <= i < |ys| && ys[i] == xs[n];
        var j :| 0 <= j < |xs| && xs[j] == ys[n];
        PrecedesIsTotalOrder(choices, xs[n], ys[n], ys[n]);
        assert false;
      }
      assert Elements(xs[..n]) == Elements(xs) - {xs[n]};
      assert Elements(ys[..n]) == Elements(ys) - {ys[n]};
      OrderedListIsUnique(choices, xs[..n], ys[..n]);
    }
  }

  // ---------------------------------------------------------------- grouping, on sets

  function Choices(models: Models): set<string> {
    set m | m in models && models[m].isChoices
  }

  /** The classes that belong into one file with `name`. */
  function Related(models: Models, name: string): set<string>
    requires name in models
  {
    {name} +
    if models[name].isChoices then set m | m in models && name in models[m].dependencies
    else if models[name].isModel then set d | d in models[name].dependencies && d in Choices(models)
    else {}
  }

  lemma NameIsRelated(models: Models, name: string)
    requires name in models
    ensures name in Related(models, name)
  {
  }

  /** The file each processed class goes into. */
  type Placement = map<string, string>

  /** What the outer loop does with one class: the related classes not placed yet go into its file. */
  function PlaceClass(models: Models, groupNameOf: string -> string, placed: Placement, name: string): Placement
    requires name in models
  {
    if name in placed then placed
    else placed + map m | m in Related(models, name) - placed.Keys :: groupNameOf(name)
  }

  function Place(models: Models, groupNameOf: string -> string, names: seq<string>): Placement
    requires forall m :: m in names ==> m in models
  {
    if |names| == 0 then map[]
    else PlaceClass(models, groupNameOf, Place(models, groupNameOf, names[..|names| - 1]), names[|names| - 1])
  }

  lemma PlaceOneMore(models: Models, groupNameOf: string -> string, names: seq<string>, i: nat)
    requires i < |names| && forall m :: m in names ==> m in models
    ensures Place(models, groupNameOf, names[..i + 1])
            == PlaceClass(models, groupNameOf, Place(models, groupNameOf, names[..i]), names[i])
  {
    assert names[..i + 1][..i] == names[..i];
  }

  lemma {:induction false} PlacedAreModels(models: Models, groupNameOf: string -> string, names: seq<string>)
    requires forall m :: m in names ==> m in models
    ensures forall m :: m in names ==> m in Place(models, groupNameOf, names)
    ensures forall m :: m in Place(models, groupNameOf, names) ==> m in models
  {
    if |names| > 0 {
      var n := |names| - 1;
      PlacedAreModels(models, groupNameOf, names[..n]);
      assert names == names[..n] + [names[n]];
    }
  }

  /** Every class of the file is placed, and nothing else is. */
  lemma EveryClassIsPlaced(models: Models, groupNameOf: string -> string, names: seq<string>)
    requires Elements(names) == models.Keys
    ensures forall m :: m in names ==> m in models
    ensures Place(models, groupNameOf, names).Keys == models.Keys
  {
    assert forall m :: m in names <==> m in Elements(names);
    PlacedAreModels(models, groupNameOf, names);
  }

  /** Class m goes where class n goes: a choices class takes its users along, a model the choices it uses. */
  predicate GoesWith(models: Models, n: string, m: string)
    requires n in models
  {
    || m == n
    || (&& m in models
        && if models[n].isChoices then n in models[m].dependencies
           else models[n].isModel && models[m].isChoices && m in models[n].dependencies)
  }

  /** A class that no class before it took along. */
  ghost predicate Leads(models: Models, groupNameOf: string -> string, names: seq<string>, j: nat)
    requires j < |names| && forall m :: m in names ==> m in models
  {
    names[j] !in Place(models, groupNameOf, names[..j])
  }

  lemma PlacedByOne(models: Models, groupNameOf: string -> string, placed: Placement, name: string, m: string)
    requires name in models
    ensures var after := PlaceClass(models, groupNameOf, placed, name);
            && (m in after <==> m in placed || (name !in placed && GoesWith(models, name, m)))
            && (m in after ==> after[m] == if m in placed then placed[m] else groupNameOf(name))
  {
  }

  lemma {:induction false} Leader(models: Models, groupNameOf: string -> string, names: seq<string>, m: string)
      returns (j: nat)
    requires forall n :: n in names ==> n in models
    requires m in Place(models, groupNameOf, names)
    ensures j < |names| && Leads(models, groupNameOf, names, j) && GoesWith(models, names[j], m)
    ensures m !in Place(models, groupNameOf, names[..j])
    ensures Place(models, groupNameOf, names)[m] == groupNameOf(names[j])
  {
    var n := |names| - 1;
    PlacedByOne(models, groupNameOf, Place(models, groupNameOf, names[..n]), names[n], m);
    hide PlaceClass, GoesWith;
    if m in Place(models, groupNameOf, names[..n]) {
      j := Leader(models, groupNameOf, names[..n], m);
      assert names[..n][..j] == names[..j];
    } else {
      j := n;
    }
  }

  /** Each class goes into the file of the first leading class that it goes with. */
  lemma PlacedWithFirstLeader(models: Models, groupNameOf: string -> string, names: seq<string>, m: string)
      returns (j: nat)
    requires forall n :: n in names ==> n in models
    requires m in Place(models, groupNameOf, names)
    ensures j < |names| && Leads(models, groupNameOf, names, j) && GoesWith(models, names[j], m)
    ensures forall i :: 0 <= i < j && Leads(models, groupNameOf, names, i) ==> !GoesWith(models, names[i], m)
    ensures Place(models, groupNameOf, names)[m] == groupNameOf(names[j])
  {
    j := Leader(models, groupNameOf, names, m);
    hide Place, GoesWith;
    forall i: nat | i < j && Leads(models, groupNameOf, names, i) ensures !GoesWith(models, names[i], m) {
      assert names[..j][..i] == names[..i];
      if GoesWith(models, names[..j][i], m) {
        TakenAlong(models, groupNameOf, names[..j], i, m);
      }
    }
  }

  lemma {:induction false} TakenAlong(models: Models, groupNameOf: string -> string, names: seq<string>, i: nat,
                                      m: string)
    requires forall n :: n in names ==> n in models
    requires i < |names| && Leads(models, groupNameOf, names, i) && GoesWith(models, names[i], m)
    ensures m in Place(models, groupNameOf, names)
  {
    var n := |names| - 1;
    PlacedByOne(models, groupNameOf, Place(models, groupNameOf, names[..n]), names[n], m);
    hide PlaceClass, GoesWith;
    if i < n {
      assert names[..n][..i] == names[..i];
      TakenAlong(models, groupNameOf, names[..n], i, m);
    }
  }

  /** How a list of a file reads: choices classes before all others, and within either kind in the
      lexicographic order of the names. */
  lemma SortedListReads(models: Models, xs: seq<string>, i: nat, j: nat)
    requires Ordered(Choices(models), xs) && i < j < |xs| && xs[i] in models && xs[j] in models
    ensures models[xs[j]].isChoices ==> models[xs[i]].isChoices
    ensures models[xs[i]].isChoices == models[xs[j]].isChoices ==> exists k: nat :: DiffersAt(xs[i], xs[j], k)
  {
    LessIff(xs[i], xs[j]);
  }

  /** How `__all__` reads: in the lexicographic order of the names. */
  lemma ExportsRead(xs: seq<string>, i: nat, j: nat)
    requires Ordered({}, xs) && i < j < |xs|
    ensures exists k: nat :: DiffersAt(xs[i], xs[j], k)
  {
    LessIff(xs[i], xs[j]);
  }

  // ---------------------------------------------------------------- the splitter

  /** A Python dictionary of lists: files in insertion order, and the classes of each. */
  datatype Groups = Groups(order: seq<string>, files: map<string, seq<string>>) {
    ghost predicate Valid() {
      && NoDuplicates(order)
      && forall f :: f in order <==> f in files
    }
  }

  /** The groups are a partition of the placed classes: each file is non-empty, lists its classes
      without repetition, and a class is in the list of its own file only. */
  ghost predicate Lists(groups: Groups, placed: Placement) {
    && groups.Valid()
    && (forall f :: f in groups.files ==> groups.files[f] != [] && NoDuplicates(groups.files[f]))
    && (forall f, m :: f in groups.files && m in groups.files[f] ==> m in placed && placed[m] == f)
    && (forall m :: m in placed ==> placed[m] in groups.files && m in groups.files[placed[m]])
  }

  ghost predicate Sorted(groups: Groups, choices: set<string>) {
    forall f :: f in groups.files ==> Ordered(choices, groups.files[f])
  }

  lemma ListedFile(a: Groups, placed: Placement, f: string, m: string)
    requires Lists(a, placed)
    ensures f in a.files && m in a.files[f] <==> m in placed && placed[m] == f
    ensures f in a.files <==> exists c :: c in placed && placed[c] == f
  {
    if f in a.files {
      assert a.files[f][0] in a.files[f];
      assert placed[a.files[f][0]] == f;
    }
    if c :| c in placed && placed[c] == f {
      assert placed[c] in a.files;
    }
  }

  predicate ListedAt(groups: Groups, f: string, i: int, m: string) {
    f in groups.files && 0 <= i < |groups.files[f]| && groups.files[f][i] == m
  }

  /** Each placed class, and no other, is listed exactly once: at one position, of one file. */
  lemma EachClassIsListedOnce(groups: Groups, placed: Placement, m: string)
    requires Lists(groups, placed)
    ensures m in placed <==> exists f, i :: ListedAt(groups, f, i, m)
    ensures forall f, i, g, j :: ListedAt(groups, f, i, m) && ListedAt(groups, g, j, m) ==> f == g && i == j
  {
    forall f, i | ListedAt(groups, f, i, m) ensures m in placed && f == placed[m] {
      assert m in groups.files[f];
    }
    if m in placed {
      var i :| 0 <= i < |groups.files[placed[m]]| && groups.files[placed[m]][i] == m;
      assert ListedAt(groups, placed[m], i, m);
    }
  }

  /** Line i is written into file f, as part of the j-th class listed there. */
  predicate WrittenAt(groups: Groups, models: Models, f: string, j: int, m: string, i: int) {
    ListedAt(groups, f, j, m) && Holds(models, m, i)
  }

  /** Each kept line, and no other, is written, and in one place only: into one file, once. */
  lemma KeptLinesAreWrittenOnce(nodes: seq<ClassNode>, lines: seq<string>, groups: Groups, placed: Placement, i: nat)
    requires ParsedNodes(nodes, lines)
    requires Lists(groups, placed) && placed.Keys == InfoTable(nodes, lines).Keys
    ensures var models := InfoTable(nodes, lines);
            && (Kept(models, i) <==> exists f, j, m :: WrittenAt(groups, models, f, j, m, i))
            && forall f, j, m, f2, j2, m2 ::
                 WrittenAt(groups, models, f, j, m, i) && WrittenAt(groups, models, f2, j2, m2, i)
                 ==> f == f2 && j == j2 && m == m2
  {
    var models := InfoTable(nodes, lines);
    hide Lists, ParsedNodes, InfoTable;
    forall m, m2 | Holds(models, m, i) && Holds(models, m2, i) ensures m == m2 {
      HoldersAreUnique(nodes, lines, m, m2, i);
    }
    forall m | m in models ensures exists f, j :: ListedAt(groups, f, j, m) {
      EachClassIsListedOnce(groups, placed, m);
    }
    forall f, j, m, f2, j2 | ListedAt(groups, f, j, m) && ListedAt(groups, f2, j2, m) ensures f == f2 && j == j2 {
      EachClassIsListedOnce(groups, placed, m);
    }
    if Kept(models, i) {
      var m :| Holds(models, m, i);
      var f, j :| ListedAt(groups, f, j, m);
      assert WrittenAt(groups, models, f, j, m, i);
    }
  }

  lemma HoldersAreUnique(nodes: seq<ClassNode>, lines: seq<string>, m: string, m2: string, i: nat)
    requires ParsedNodes(nodes, lines)
    requires Holds(InfoTable(nodes, lines), m, i) && Holds(InfoTable(nodes, lines), m2, i)
    ensures m == m2
  {
    var k := HolderOfLine(nodes, lines, m, i);
    var k2 := HolderOfLine(nodes, lines, m2, i);
    SpansNeverOverlap(lines, Starts(nodes));
  }

  /** The result is determined by the placement alone: the order in which sets of dependencies are
      iterated does not show. */
  lemma SortedGroupsAreUnique(a: Groups, b: Groups, placed: Placement, choices: set<string>)
    requires Lists(a, placed) && Lists(b, placed) && Sorted(a, choices) && Sorted(b, choices)
    ensures a.files == b.files
  {
    forall f ensures f in a.files <==> f in b.files {
      ListedFile(a, placed, f, "");
      ListedFile(b, placed, f, "");
    }
    forall f | f in a.files ensures a.files[f] == b.files[f] {
      forall m ensures m in Elements(a.files[f]) <==> m in Elements(b.files[f]) {
        ListedFile(a, placed, f, m);
        ListedFile(b, placed, f, m);
      }
      OrderedListIsUnique(choices, a.files[f], b.files[f]);
    }
  }

  lemma RelistedFile(groups: Groups, placed: Placement, f: string, list: seq<string>)
    requires Lists(groups, placed) && f in groups.files
    requires NoDuplicates(list) && Elements(list) == Elements(groups.files[f])
    ensures Lists(Groups(groups.order, groups.files[f := list]), placed)
  {
    assert forall m :: m in Elements(groups.files[f]) <==> m in groups.files[f];
    assert forall m :: m in Elements(list) <==> m in list;
    assert groups.files[f][0] in list;
  }

  lemma FileIsNew(groups: Groups, placed: Placement, i: nat)
    requires Lists(groups, placed) && i < |groups.order|
    ensures groups.order[i] in groups.files && groups.order[i] !in groups.order[..i]
  {
  }

  lemma ListIsDistinct(groups: Groups, placed: Placement, f: string)
    requires Lists(groups, placed) && f in groups.files
    ensures NoDuplicates(groups.files[f])
  {
  }

  /** Adding unplaced classes to one file, new or not. */
  lemma ListsAfterPlacing(groups: Groups, placed: Placement, file: string, members: seq<string>, added: set<string>)
    requires Lists(groups, placed) && added !! placed.Keys && added != {}
    requires NoDuplicates(members)
    requires forall m :: m in members <==> m in added || (file in groups.files && m in groups.files[file])
    ensures var order := if file in groups.files then groups.order else groups.order + [file];
            Lists(Groups(order, groups.files[file := members]), placed + map m | m in added :: file)
  {
    assert members != [] by {
      var m :| m in added;
      assert m in members;
    }
  }

  lemma NewlyPlaced(models: Models, groupNameOf: string -> string, placed: Placement, name: string)
    requires name in models && name !in placed
    ensures PlaceClass(models, groupNameOf, placed, name)
            == placed + map m | m in Related(models, name) - placed.Keys :: groupNameOf(name)
  {
  }

  lemma AlreadyPlaced(models: Models, groupNameOf: string -> string, placed: Placement, name: string)
    requires name in models && name in placed
    ensures PlaceClass(models, groupNameOf, placed, name) == placed
  {
  }

  class GenericModelSplitter {
    const groupNameOf: string -> string
    var names: seq<string>  // the insertion order of modelsInfo
    var modelsInfo: Models

    ghost predicate Valid()
      reads this
    {
      NoDuplicates(names) && Elements(names) == modelsInfo.Keys
    }

    constructor (groupNameOf: string -> string)
      ensures Valid() && modelsInfo == map[] && this.groupNameOf == groupNameOf
    {
      this.groupNameOf := groupNameOf;
      names, modelsInfo := [], map[];
    }

    method ExtractModelInfo(node: ClassNode, lines: seq<string>) returns (info: ModelInfo)
      requires 1 <= node.lineno <= |lines|
      ensures info == InfoOf(node, lines)
      ensures info.startLine == node.lineno - 1
      ensures TopLevelHeader(lines[info.startLine]) ==>
                && info.startLine < info.endLine <= |lines|
                && (info.endLine < |lines| ==> EndsClass(lines[info.endLine]))
                && forall j :: info.startLine < j < info.endLine ==> !EndsClass(lines[j])
    {
      var start := node.lineno - 1;
      var end := |lines|;
      var indent := Indent(lines[start]);
      var i := start + 1;
      while i < |lines|
        invariant start < i <= |lines| && end == |lines|
        invariant NextCut(lines, indent, i) == NextCut(lines, indent, start + 1)
      {
        if Cuts(lines[i], indent) {
          end := i;
          break;
        }
        i := i + 1;
      }
      info := ModelInfo(start, end, node.isChoices, node.isModel, node.dependencies);
      if TopLevelHeader(lines[start]) {
        SpanOfHeader(lines, start);
      }
    }

    method AnalyzeSourceFile(nodes: seq<ClassNode>, lines: seq<string>)
      requires modelsInfo == map[] && names == []
      requires forall k :: 0 <= k < |nodes| ==> 1 <= nodes[k].lineno <= |lines|
      modifies this
      ensures Valid() && modelsInfo == InfoTable(nodes, lines)
    {
      assert InfoTable(nodes[..0], lines) == map[] && Elements(names) == {};
      hide InfoTable, InfoOf, Elements, NoDuplicates;
      for i := 0 to |nodes|
        invariant NoDuplicates(names) && Elements(names) == modelsInfo.Keys
        invariant modelsInfo == InfoTable(nodes[..i], lines)
      {
        var info := ExtractModelInfo(nodes[i], lines);
        OneMoreNode(nodes, lines, i);
        if nodes[i].name !in modelsInfo {
          OneMoreElement(names, nodes[i].name);
          names := names + [nodes[i].name];
        }
        modelsInfo := modelsInfo[nodes[i].name := info];
      }
      assert nodes[..|nodes|] == nodes;
    }

    method FindRelatedModels(name: string) returns (related: seq<string>)
      requires Valid() && name in modelsInfo
      ensures forall m :: m in related <==> m in Related(modelsInfo, name)
    {
      related := [name];
      var info := modelsInfo[name];
      if info.isChoices {
        for i := 0 to |names|
          invariant forall m :: m in related <==>
                      m == name || (m in names[..i] && m in modelsInfo && name in modelsInfo[m].dependencies)
        {
          assert names[i] in Elements(names);
          if name in modelsInfo[names[i]].dependencies {
            related := related + [names[i]];
          }
        }
        assert forall m :: m in modelsInfo ==> m in Elements(names);
      } else if info.isModel {
        var rest := info.dependencies;
        while rest != {}
          invariant rest <= info.dependencies
          invariant forall m :: m in related <==>
                      m == name || (m in info.dependencies - rest && m in Choices(modelsInfo))
          decreases rest
        {
          var dep :| dep in rest;
          rest := rest - {dep};
          if dep in modelsInfo && modelsInfo[dep].isChoices {
            related := related + [dep];
          }
        }
      }
    }

    /** Appends the related classes that no file holds yet. */
    method AddUnprocessed(related: seq<string>, members: seq<string>, processed: set<string>)
        returns (members': seq<string>, processed': set<string>)
      requires NoDuplicates(members) && forall m :: m in members ==> m in processed
      ensures NoDuplicates(members')
      ensures forall m :: m in members' <==> m in members || (m in related && m !in processed)
      ensures forall m :: m in processed' <==> m in processed || m in related
    {
      members', processed' := members, processed;
      for i := 0 to |related|
        invariant NoDuplicates(members')
        invariant forall m :: m in members' <==> m in members || (m in related[..i] && m !in processed)
        invariant forall m :: m in processed' <==> m in processed || m in related[..i]
      {
        if related[i] !in processed' {
          members' := members' + [related[i]];
          processed' := processed' + {related[i]};
        }
      }
    }

    /** The outer loop's body for a class no file holds yet. */
    method GroupClass(name: string, groups: Groups, processed: set<string>, ghost placed: Placement)
        returns (groups': Groups, processed': set<string>)
      requires Valid() && name in modelsInfo && name !in processed
      requires Lists(groups, placed) && processed == placed.Keys
      ensures var after := PlaceClass(modelsInfo, groupNameOf, placed, name);
              Lists(groups', after) && processed' == after.Keys
    {
      NewlyPlaced(modelsInfo, groupNameOf, placed, name);
      hide Related, PlaceClass;
      assert name in Related(modelsInfo, name) by { NameIsRelated(modelsInfo, name); }
      assert NoDuplicates(groups.order) && forall f :: f in groups.files ==> NoDuplicates(groups.files[f]);
      assert forall f, m :: f in groups.files && m in groups.files[f] ==> m in placed;
      hide Lists;
      var file := groupNameOf(name);
      var order, members := groups.order, [];
      if file !in groups.files {
        order := order + [file];
      } else {
        members := groups.files[file];
      }
      var related := FindRelatedModels(name);
      members, processed' := AddUnprocessed(related, members, processed);
      groups' := Groups(order, groups.files[file := members]);
      ghost var added := Related(modelsInfo, name) - placed.Keys;
      assert name in added;
      ListsAfterPlacing(groups, placed, file, members, added);
    }

    method CollectGroups() returns (groups: Groups)
      requires Valid() && forall m :: m in names ==> m in modelsInfo
      ensures Lists(groups, Place(modelsInfo, groupNameOf, names))
    {
      groups := Groups([], map[]);
      var processed: set<string> := {};
      assert names[..0] == [] && Lists(groups, map[]);
      assert Place(modelsInfo, groupNameOf, names[..0]) == map[];
      hide Lists, Place, PlaceClass, Valid;
      for i := 0 to |names|
        invariant Lists(groups, Place(modelsInfo, groupNameOf, names[..i]))
        invariant processed == Place(modelsInfo, groupNameOf, names[..i]).Keys
      {
        ghost var placed := Place(modelsInfo, groupNameOf, names[..i]);
        PlaceOneMore(modelsInfo, groupNameOf, names, i);
        if names[i] in processed {
          AlreadyPlaced(modelsInfo, groupNameOf, placed, names[i]);
        } else {
          groups, processed := GroupClass(names[i], groups, processed, placed);
        }
      }
      assert names[..|names|] == names;
    }

    method SortGroups(groups: Groups, ghost placed: Placement) returns (sorted: Groups)
      requires Lists(groups, placed)
      ensures Lists(sorted, placed) && Sorted(sorted, Choices(modelsInfo))
      ensures sorted.order == groups.order
    {
      var choices := Choices(modelsInfo);
      sorted := groups;
      assert forall f :: f in groups.order <==> f in groups.files;
      hide Lists;
      for i := 0 to |groups.order|
        invariant Lists(sorted, placed) && sorted.order == groups.order && sorted.files.Keys == groups.files.Keys
        invariant forall k :: 0 <= k < i ==>
                    groups.order[k] in sorted.files && Ordered(choices, sorted.files[groups.order[k]])
      {
        var file := groups.order[i];
        ListIsDistinct(sorted, placed, file);
        SortPermutes(choices, sorted.files[file]);
        var list := SortModels(choices, sorted.files[file]);
        RelistedFile(sorted, placed, file, list);
        sorted := Groups(sorted.order, sorted.files[file := list]);
      }
    }

    /** The automatic path of the grouping: a sorted partition of all classes. */
    method GroupRelatedModels() returns (groups: Groups)
      requires Valid()
      ensures forall m :: m in names ==> m in modelsInfo
      ensures Place(modelsInfo, groupNameOf, names).Keys == modelsInfo.Keys
      ensures Lists(groups, Place(modelsInfo, groupNameOf, names))
      ensures Sorted(groups, Choices(modelsInfo))
    {
      EveryClassIsPlaced(modelsInfo, groupNameOf, names);
      groups := CollectGroups();
      groups := SortGroups(groups, Place(modelsInfo, groupNameOf, names));
    }

    /** The unique file of a known class, or 'unknown'. */
    method GetFileForModel(name: string) returns (file: string)
      requires Valid()
      ensures forall m :: m in names ==> m in modelsInfo
      ensures var placed := Place(modelsInfo, groupNameOf, names);
              if name in modelsInfo then name in placed && file == placed[name] else file == "unknown"
    {
      var groups := GroupRelatedModels();
      file := FirstFileWith(name, groups, Place(modelsInfo, groupNameOf, names));
    }

    method FirstFileWith(name: string, groups: Groups, ghost placed: Placement) returns (file: string)
      requires Lists(groups, placed)
      ensures file == if name in placed then placed[name] else "unknown"
    {
      for i := 0 to |groups.order|
        invariant forall k :: 0 <= k < i ==> groups.order[k] in groups.files && name !in groups.files[groups.order[k]]
      {
        if name in groups.files[groups.order[i]] {
          return groups.order[i];
        }
      }
      file := "unknown";
    }

    /** `__all__`: every class exactly once, sorted by name. */
    method Exports() returns (exports: seq<string>)
      requires Valid()
      ensures Elements(exports) == modelsInfo.Keys && NoDuplicates(exports) && Ordered({}, exports)
    {
      var groups := GroupRelatedModels();
      var all := AllListed(groups, Place(modelsInfo, groupNameOf, names));
      SortPermutes({}, all);
      exports := SortModels({}, all);
    }

    method AllListed(groups: Groups, ghost placed: Placement) returns (all: seq<string>)
      requires Lists(groups, placed) && placed.Keys == modelsInfo.Keys
      ensures NoDuplicates(all) && Elements(all) == modelsInfo.Keys
    {
      all := [];
      assert forall m :: m in placed ==> placed[m] in groups.order;
      assert groups.order[..0] == [];
      hide Lists, NoDuplicates;
      for i := 0 to |groups.order|
        invariant NoDuplicates(all)
        invariant forall m :: m in all <==> m in placed && placed[m] in groups.order[..i]
      {
        var file := groups.order[i];
        FileIsNew(groups, placed, i);
        ListIsDistinct(groups, placed, file);
        var known := KnownOf(groups.files[file]);
        forall m ensures m in known <==> m in placed && placed[m] == file {
          ListedFile(groups, placed, file, m);
        }
        ConcatDistinct(all, known);
        assert groups.order[..i + 1] == groups.order[..i] + [file];
        all := all + known;
      }
      assert groups.order[..|groups.order|] == groups.order;
    }

    method KnownOf(listed: seq<string>) returns (known: seq<string>)
      requires NoDuplicates(listed)
      ensures NoDuplicates(known)
      ensures forall m :: m in known <==> m in listed && m in modelsInfo
    {
      known := [];
      for i := 0 to |listed|
        invariant NoDuplicates(known)
        invariant forall m :: m in known <==> m in listed[..i] && m in modelsInfo
      {
        if listed[i] in modelsInfo {
          known := known + [listed[i]];
        }
      }
    }
  }
}
