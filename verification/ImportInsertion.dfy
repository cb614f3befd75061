/** Where a rewriting script inserts an import statement, and what that does to the lines of the file. */
module ImportInsertion {
  import opened Text

  predicate IsImport(line: string) {
    StartsWith(Strip(line), "import ") || StartsWith(Strip(line), "from ")
  }

  /** `s[:n]` and `s[n:]`, which tolerate an `n` past the end. */
  function Upto(s: string, n: nat): string {
    if n <= |s| then s[..n] else s
  }

  function From(s: string, n: nat): string {
    if n <= |s| then s[n..] else ""
  }

  predicate ImportOrBlank(lines: seq<string>, from: int, to: int)
    requires 0 <= from <= to <= |lines|
  {
    forall i :: from <= i < to ==> IsImport(lines[i]) || Strip(lines[i]) == ""
  }

  predicate AllBlank(lines: seq<string>, from: int, to: int)
    requires 0 <= from <= to <= |lines|
  {
    forall i :: from <= i < to ==> Strip(lines[i]) == ""
  }

  predicate NoImport(lines: seq<string>, to: int)
    requires 0 <= to <= |lines|
  {
    forall i :: 0 <= i < to ==> !IsImport(lines[i])
  }

  /** `k` ends the first block of imports: line k-1 is an import, from the first import to k there are
      only imports and blank lines, and after k only blank lines up to the next other line. */
  ghost predicate EndsImports(lines: seq<string>, k: int, first: int, other: int) {
    && 0 <= first < k <= other <= |lines|
    && NoImport(lines, first) && IsImport(lines[first]) && IsImport(lines[k - 1])
    && ImportOrBlank(lines, first, k)
    && AllBlank(lines, k, other)
    && (other < |lines| ==> Strip(lines[other]) != "" && !IsImport(lines[other]))
  }

  ghost predicate IsImportEnd(lines: seq<string>, k: nat) {
    if k == 0 then NoImport(lines, |lines|) else exists first, other :: EndsImports(lines, k, first, other)
  }

  lemma BlankIsNoImport(line: string)
    ensures Strip(line) == "" ==> !IsImport(line)
  {
  }

  lemma ImportIsNoComment(line: string)
    requires IsImport(line)
    ensures Strip(line) != "" && !StartsWith(Strip(line), "#")
  {
    assert Strip(line)[0] == 'i' || Strip(line)[0] == 'f';
  }

  /** The insertion line is determined. */
  lemma ImportEndIsUnique(lines: seq<string>, j: nat, k: nat)
    requires IsImportEnd(lines, j) && IsImportEnd(lines, k)
    ensures j == k
  {
    if j != k {
      if j == 0 || k == 0 {
        assert false;
      } else {
        var f, o :| EndsImports(lines, j, f, o);
        var g, p :| EndsImports(lines, k, g, p);
        EndsNotBefore(lines, j, f, o, k, g, p);
        EndsNotBefore(lines, k, g, p, j, f, o);
      }
    }
  }

  lemma EndsNotBefore(lines: seq<string>, j: int, f: int, o: int, k: int, g: int, p: int)
    requires EndsImports(lines, j, f, o) && EndsImports(lines, k, g, p)
    ensures k <= j
  {
    hide IsImport;
    forall i | j <= i < o ensures !IsImport(lines[i]) {
      BlankIsNoImport(lines[i]);
    }
    assert f == g;
  }

  method ImportEnd(lines: seq<string>) returns (importEnd: nat)
    ensures importEnd <= |lines| && IsImportEnd(lines, importEnd)
  {
    importEnd := 0;
    ghost var first := 0;
    var i := 0;
    while i < |lines|
      invariant 0 <= importEnd <= i <= |lines|
      invariant importEnd == 0 ==> NoImport(lines, i)
      invariant importEnd > 0 ==>
                  && 0 <= first < importEnd
                  && NoImport(lines, first) && IsImport(lines[first]) && IsImport(lines[importEnd - 1])
                  && ImportOrBlank(lines, first, importEnd) && AllBlank(lines, importEnd, i)
    {
      var stripped := Strip(lines[i]);
      if IsImport(lines[i]) {
        ImportIsNoComment(lines[i]);
      }
      if IsImport(lines[i]) && !StartsWith(stripped, "#") {
        if importEnd == 0 {
          first := i;
        }
        importEnd := i + 1;
      } else if stripped != "" && importEnd > 0 {
        assert EndsImports(lines, importEnd, first, i);
        return;
      }
      i := i + 1;
    }
    assert importEnd > 0 ==> EndsImports(lines, importEnd, first, |lines|);
  }

  function Position(lines: seq<string>, k: nat): nat
    requires k <= |lines|
  {
    |JoinLines(lines[..k])| + if k > 0 then 1 else 0
  }

  /** The position in the text at which the first block of imports ends. */
  ghost predicate IsInsertionPoint(lines: seq<string>, position: nat) {
    exists k: nat :: k <= |lines| && IsImportEnd(lines, k) && position == Position(lines, k)
  }

  method FindImportSection(content: string) returns (position: nat)
    ensures IsInsertionPoint(SplitLines(content), position)
  {
    var lines := SplitLines(content);
    var importEnd := ImportEnd(lines);
    position := |JoinLines(lines[..importEnd])| + if importEnd > 0 then 1 else 0;
  }

  function InsertAt(content: string, position: nat, statement: string): string {
    Upto(content, position) + statement + "\n" + From(content, position)
  }

  function InsertLine(lines: seq<string>, k: nat, statement: string): seq<string>
    requires k <= |lines|
  {
    lines[..k] + [statement] + lines[k..]
  }

  /** The lines of a text that begins with c, given those of the rest. */
  function Cons(c: char, lines: seq<string>): seq<string>
    requires |lines| > 0
  {
    if c == '\n' then [""] + lines else [[c] + lines[0]] + lines[1..]
  }

  lemma ConsOfConcat(c: char, front: seq<string>, back: seq<string>)
    requires |front| > 0
    ensures Cons(c, front + back) == Cons(c, front) + back
  {
    assert (front + back)[1..] == front[1..] + back;
  }

  lemma SplitOfCons(c: char, s: string)
    ensures SplitLines([c] + s) == Cons(c, SplitLines(s))
  {
    assert ([c] + s)[1..] == s;
  }

  lemma FirstOfConcat(a: string, b: string)
    requires a != ""
    ensures a == [a[0]] + a[1..]
    ensures a + "\n" + b == [a[0]] + (a[1..] + "\n" + b)
  {
  }

  lemma {:induction false} SplitOfConcat(a: string, b: string)
    ensures SplitLines(a + "\n" + b) == SplitLines(a) + SplitLines(b)
  {
    assert SplitLines("") == [""];
    hide SplitLines;
    if a == "" {
      assert a + "\n" + b == ['\n'] + b;
      SplitOfCons('\n', b);
    } else {
      SplitOfConcat(a[1..], b);
      FirstOfConcat(a, b);
      SplitOfCons(a[0], a[1..]);
      SplitOfCons(a[0], a[1..] + "\n" + b);
      ConsOfConcat(a[0], SplitLines(a[1..]), SplitLines(b));
      hide Cons;
    }
  }

  /** Cutting the text at the position of line k cuts the list of lines there. */
  lemma CutAtPosition(content: string, k: nat)
    requires 0 < k < |SplitLines(content)|
    ensures var lines := SplitLines(content);
            && Position(lines, k) == |JoinLines(lines[..k])| + 1
            && content == JoinLines(lines[..k]) + "\n" + JoinLines(lines[k..])
            && SplitLines(JoinLines(lines[..k])) == lines[..k]
            && SplitLines(JoinLines(lines[k..])) == lines[k..]
  {
    var lines := SplitLines(content);
    JoinOfSplit(content);
    assert lines == lines[..k] + lines[k..];
    JoinOfParts(lines[..k], lines[k..]);
    SplitHasNoNewlines(content);
    SplitOfJoin(lines[..k]);
    SplitOfJoin(lines[k..]);
  }

  lemma InsertBetween(front: string, back: string, statement: string)
    requires '\n' !in statement
    ensures SplitLines(InsertAt(front + "\n" + back, |front| + 1, statement))
            == SplitLines(front) + [statement] + SplitLines(back)
  {
    var content := front + "\n" + back;
    assert content[..|front| + 1] == front + "\n";
    assert content[|front| + 1..] == back;
    assert front + "\n" + statement + "\n" + back == front + "\n" + (statement + "\n" + back);
    SplitOfConcat(front, statement + "\n" + back);
    SplitOfLine(statement, back);
  }

  lemma InsertFirst(content: string, statement: string)
    requires '\n' !in statement
    ensures SplitLines(InsertAt(content, 0, statement)) == [statement] + SplitLines(content)
  {
    assert Upto(content, 0) + statement + "\n" + From(content, 0) == statement + "\n" + content;
    SplitOfLine(statement, content);
  }

  lemma InsertInside(content: string, k: nat, statement: string)
    requires k < |SplitLines(content)| && '\n' !in statement
    ensures SplitLines(InsertAt(content, Position(SplitLines(content), k), statement))
            == InsertLine(SplitLines(content), k, statement)
  {
    var lines := SplitLines(content);
    hide SplitLines, InsertAt, IsImport;
    if k == 0 {
      assert lines[..0] == [] && lines[0..] == lines;
      assert Position(lines, 0) == 0;
      InsertFirst(content, statement);
    } else {
      CutAtPosition(content, k);
      InsertBetween(JoinLines(lines[..k]), JoinLines(lines[k..]), statement);
    }
  }

  lemma {:induction false} JoinOfGlued(lines: seq<string>, tail: string)
    requires |lines| > 0
    ensures JoinLines(lines[..|lines| - 1] + [lines[|lines| - 1] + tail]) == JoinLines(lines) + tail
  {
    var n := |lines| - 1;
    var glued := lines[..n] + [lines[n] + tail];
    if n > 0 {
      JoinOfGlued(lines[1..], tail);
      assert lines[1..][n - 1] == lines[n];
      assert glued[1..] == lines[1..][..n - 1] + [lines[1..][n - 1] + tail];
    }
  }

  lemma SplitOfGlued(a: string, b: string)
    requires '\n' !in b
    ensures var lines := SplitLines(a);
            SplitLines(a + b) == lines[..|lines| - 1] + [lines[|lines| - 1] + b]
  {
    var lines := SplitLines(a);
    JoinOfSplit(a);
    JoinOfGlued(lines, b);
    SplitHasNoNewlines(a);
    SplitOfJoin(lines[..|lines| - 1] + [lines[|lines| - 1] + b]);
  }

  /** When the imports reach to the last line and no newline follows, the statement is glued to it. */
  lemma InsertAtEnd(content: string, statement: string)
    requires '\n' !in statement
    ensures var lines := SplitLines(content);
            var n := |lines|;
            SplitLines(InsertAt(content, Position(lines, n), statement))
            == lines[..n - 1] + [lines[n - 1] + statement] + [""]
  {
    var lines := SplitLines(content);
    JoinOfSplit(content);
    assert lines[..|lines|] == lines;
    assert InsertAt(content, |content| + 1, statement) == (content + statement) + "\n" + "";
    SplitOfConcat(content + statement, "");
    SplitOfGlued(content, statement);
  }

  lemma GluedIsNotInserted(lines: seq<string>, statement: string)
    requires |lines| > 0
    ensures var n := |lines|;
            lines[..n - 1] + [lines[n - 1] + statement] + [""] == InsertLine(lines, n, statement) <==> statement == ""
  {
    var n := |lines|;
    var glued, wanted := lines[..n - 1] + [lines[n - 1] + statement] + [""], InsertLine(lines, n, statement);
    assert wanted == lines + [statement];
    assert glued[n] == "" && wanted[n] == statement;
    if statement == "" {
      assert lines[n - 1] + statement == lines[n - 1];
      assert glued == wanted;
    }
  }

  /** The edit inserts exactly one line, the statement, at k if and only if some line follows the
      imports. (An empty statement would also do no harm at the end.) */
  lemma InsertionIsLineSafeIff(content: string, k: nat, statement: string)
    requires k <= |SplitLines(content)| && '\n' !in statement
    ensures SplitLines(InsertAt(content, Position(SplitLines(content), k), statement))
              == InsertLine(SplitLines(content), k, statement)
            <==> k < |SplitLines(content)| || statement == ""
  {
    var lines := SplitLines(content);
    if k < |lines| {
      InsertInside(content, k, statement);
    } else {
      InsertAtEnd(content, statement);
      hide SplitLines, InsertAt, Position, InsertLine;
      GluedIsNotInserted(lines, statement);
    }
  }

  // ---------------------------------------------------------------- in terms of the file

  /** The first import, with only imports and blank lines from it to `last`. */
  predicate StartsBlock(lines: seq<string>, first: int, last: int)
    requires last < |lines|
  {
    && 0 <= first <= last && NoImport(lines, first) && IsImport(lines[first])
    && ImportOrBlank(lines, first, last + 1)
  }

  /** Line j is an import, and from the first import to it there are only imports and blank lines. */
  ghost predicate InFirstBlock(lines: seq<string>, j: nat)
    requires j < |lines|
  {
    IsImport(lines[j]) && exists first :: StartsBlock(lines, first, j)
  }

  /** The insertion lands before a line that is neither blank nor an import exactly when that follows
      an import of the first block: so before the continuation of an import in parentheses. */
  lemma InsertedBeforeLineIff(lines: seq<string>, j: nat, k: nat)
    requires j + 1 < |lines| && Strip(lines[j + 1]) != "" && !IsImport(lines[j + 1]) && IsImportEnd(lines, k)
    ensures k == j + 1 <==> InFirstBlock(lines, j)
  {
    if k == j + 1 {
      var first, other :| EndsImports(lines, k, first, other);
      assert StartsBlock(lines, first, k - 1);
    }
    if InFirstBlock(lines, j) {
      var first :| StartsBlock(lines, first, j);
      assert EndsImports(lines, j + 1, first, j + 1);
      ImportEndIsUnique(lines, j + 1, k);
    }
  }

  /** No line follows the imports exactly when the last line is an import of the first block. */
  lemma EndsFileIff(lines: seq<string>, k: nat)
    requires |lines| > 0 && IsImportEnd(lines, k)
    ensures k == |lines| <==> InFirstBlock(lines, |lines| - 1)
  {
    var n := |lines|;
    if k == n {
      var first, other :| EndsImports(lines, k, first, other);
      assert StartsBlock(lines, first, k - 1);
    }
    if InFirstBlock(lines, n - 1) {
      var first :| StartsBlock(lines, first, n - 1);
      assert EndsImports(lines, n, first, n);
      ImportEndIsUnique(lines, n, k);
    }
  }

  /** Inserting at `position` adds the statement as a line of its own where the imports end. */
  ghost predicate InsertsOneLine(content: string, position: nat, statement: string) {
    var lines := SplitLines(content);
    exists k: nat :: k <= |lines| && IsImportEnd(lines, k)
                  && SplitLines(InsertAt(content, position, statement)) == InsertLine(lines, k, statement)
  }

  /** For every file: the edit is line-safe if and only if the last line is no import of the first block. */
  lemma EditIsLineSafeIff(content: string, position: nat, statement: string)
    requires IsInsertionPoint(SplitLines(content), position)
    requires '\n' !in statement && statement != ""
    ensures InsertsOneLine(content, position, statement)
            <==> !InFirstBlock(SplitLines(content), |SplitLines(content)| - 1)
  {
    hide SplitLines, IsImportEnd, InFirstBlock, InsertAt, Position, InsertLine;
    var lines := SplitLines(content);
    var k: nat :| k <= |lines| && IsImportEnd(lines, k) && position == Position(lines, k);
    EndsFileIff(lines, k);
    InsertionIsLineSafeIff(content, k, statement);
    if InsertsOneLine(content, position, statement) {
      var j: nat :| j <= |lines| && IsImportEnd(lines, j)
                 && SplitLines(InsertAt(content, position, statement)) == InsertLine(lines, j, statement);
      ImportEndIsUnique(lines, j, k);
    }
  }

  /** A file that is one import: the statement is glued to it. */
  lemma OneImportIsGlued(line: string, statement: string)
    requires IsImport(line) && '\n' !in line
    ensures SplitLines(line) == [line] && IsInsertionPoint(SplitLines(line), |line| + 1)
    ensures InsertAt(line, |line| + 1, statement) == line + statement + "\n"
  {
    SplitOfLine(line, "");
    OneImportEnds(line);
    hide SplitLines, IsImport, IsImportEnd;
    assert [line][..1] == [line];
    assert Position([line], 1) == |line| + 1;
    assert IsInsertionPoint([line], |line| + 1);
  }

  lemma OneImportEnds(line: string)
    requires IsImport(line)
    ensures IsImportEnd([line], 1)
  {
    hide IsImport;
    assert EndsImports([line], 1, 0, 1);
  }

  lemma GluedExample()
    ensures '\n' !in "import x" && |"import x"| == 8
    ensures IsInsertionPoint(SplitLines("import x"), 9)
    ensures InsertAt("import x", 9, "import y") == "import x" + "import y" + "\n"
  {
    hide SplitLines, InsertAt, IsInsertionPoint;
    assert IsImport("import x") by {
      assert LStrip("import x") == "import x";
    }
    OneImportIsGlued("import x", "import y");
  }

  /** An import in parentheses: the statement is put inside them. */
  lemma ParenthesesExample(k: nat)
    requires IsImportEnd(["from a import (", "b,", ")"], k)
    ensures InsertLine(["from a import (", "b,", ")"], k, "from b import B")
            == ["from a import (", "from b import B", "b,", ")"]
  {
    var lines := ["from a import (", "b,", ")"];
    assert Strip(lines[0]) == lines[0] && Strip(lines[1]) == "b,";
    assert lines[0][..5] == "from ";
    assert StartsBlock(lines, 0, 0);
    InsertedBeforeLineIff(lines, 0, k);
    assert lines[..1] == ["from a import ("] && lines[1..] == ["b,", ")"];
  }

  /** The other insertion, before the newline that ends a matched import line, is always line-safe. */
  lemma InsertAfterLine(content: string, position: nat, statement: string)
    requires position < |content| && content[position] == '\n' && '\n' !in statement
    ensures var k := |SplitLines(content[..position])|;
            && k < |SplitLines(content)|
            && SplitLines(content[..position] + "\n" + statement + content[position..])
               == InsertLine(SplitLines(content), k, statement)
  {
    var front, back := content[..position], content[position + 1..];
    assert content == front + "\n" + back;
    SplitOfConcat(front, back);
    assert front + "\n" + statement + content[position..] == front + "\n" + (statement + "\n" + back);
    SplitOfConcat(front, statement + "\n" + back);
    SplitOfLine(statement, back);
  }
}
