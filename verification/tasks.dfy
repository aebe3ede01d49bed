/**
 * The task table of the demo page: the `Priority` enum, the `Task` record,
 * the seeded `tasksStorage` list, `taskAsRow` (a raw-string template passed
 * through Kotlin's `trimIndent`) and `asTable` (`joinToString` with a prefix,
 * a postfix and a `"\n"` separator).
 *
 * `trimIndent` and `joinToString` are written out here from their documented
 * behaviour: split into lines, drop a blank first and a blank last line, cut
 * the smallest indentation of the non-blank lines from every line, and join
 * the lines back with `"\n"`.
 */
module Tasks {
  import opened Wrappers

  datatype Priority = Low | Medium | High | Vital

  /** The enum's declaration order, as `Priority.entries` lists it. */
  const Priorities: seq<Priority> := [Low, Medium, High, Vital]

  /** Position of a value in the declaration order (Kotlin's `ordinal`). */
  function Ordinal(p: Priority): (n: nat)
    ensures n < |Priorities| && Priorities[n] == p
  {
    match p
    case Low => 0
    case Medium => 1
    case High => 2
    case Vital => 3
  }

  /** A string template renders an enum constant by its declared name. */
  function Name(p: Priority): (s: string)
    ensures |s| > 0 && '\n' !in s
  {
    match p
    case Low => "Low"
    case Medium => "Medium"
    case High => "High"
    case Vital => "Vital"
  }

  /** Exactly four values, each listed once, and each rendered by a name no other value shares. */
  lemma PriorityValues()
    ensures |Priorities| == 4
    ensures forall p: Priority :: p in Priorities
    ensures forall i | 0 <= i < |Priorities| :: Ordinal(Priorities[i]) == i
    ensures forall p, q: Priority :: Name(p) == Name(q) ==> p == q
  {
    forall p: Priority
      ensures p in Priorities
    {
      assert Priorities[Ordinal(p)] == p;
    }
  }

  datatype Task = Task(name: string, description: string, priority: Priority)

  /** The two tasks the storage list is seeded with; nothing in the model changes it. */
  const TasksStorage: seq<Task> := [Task("task1", "description1", Low), Task("task2", "description2", High)]

  /** The whitespace characters the model recognises when measuring indentation. */
  predicate IsWhitespace(c: char) {
    c == ' ' || c == '\t' || c == '\r'
  }

  predicate IsBlank(line: string) {
    forall i | 0 <= i < |line| :: IsWhitespace(line[i])
  }

  /** `String.lines()` on `'\n'`: the pieces between line breaks, never an empty list. */
  function Lines(s: string): (ls: seq<string>)
    ensures |ls| >= 1
    ensures forall k | 0 <= k < |ls| :: '\n' !in ls[k]
  {
    if s == [] then [""]
    else
      var rest := Lines(s[1..]);
      if s[0] == '\n' then [""] + rest else [[s[0]] + rest[0]] + rest[1..]
  }

  /** `joinToString(separator)` without prefix, postfix or transform. */
  function Join(ls: seq<string>, sep: string): (r: string)
    ensures |ls| == 0 ==> r == ""
    ensures '\n' !in sep && (forall k | 0 <= k < |ls| :: '\n' !in ls[k]) ==> '\n' !in r
  {
    if |ls| == 0 then ""
    else if |ls| == 1 then ls[0]
    else ls[0] + sep + Join(ls[1..], sep)
  }

  /** Joining the lines of a string with `"\n"` gives the string back. */
  lemma {:induction false} JoinLines(s: string)
    ensures Join(Lines(s), "\n") == s
  {
    if s != [] {
      var rest := Lines(s[1..]);
      JoinLines(s[1..]);
      if s[0] != '\n' {
        JoinHead(s[0], rest);
      }
      assert s == [s[0]] + s[1..];
    }
  }

  lemma {:induction false} JoinHead(c: char, ls: seq<string>)
    requires |ls| >= 1
    ensures Join([[c] + ls[0]] + ls[1..], "\n") == [c] + Join(ls, "\n")
  {
    if |ls| > 1 {
      assert ([[c] + ls[0]] + ls[1..])[1..] == ls[1..];
    }
  }

  /** Splitting a join of break-free lines gives the lines back, in order. */
  lemma {:induction false} LinesJoin(ls: seq<string>)
    requires |ls| >= 1
    requires forall k | 0 <= k < |ls| :: '\n' !in ls[k]
    ensures Lines(Join(ls, "\n")) == ls
  {
    if |ls| == 1 {
      LinesOfLine(ls[0], "");
      assert ls[0] + "" == ls[0];
    } else {
      LinesJoin(ls[1..]);
      LinesOfLine(ls[0], "\n" + Join(ls[1..], "\n"));
      assert ls[0] + "\n" + Join(ls[1..], "\n") == ls[0] + ("\n" + Join(ls[1..], "\n"));
      assert ("\n" + Join(ls[1..], "\n"))[1..] == Join(ls[1..], "\n");
    }
  }

  /** A break-free prefix extends the first line of whatever follows it. */
  lemma {:induction false} LinesOfLine(a: string, rest: string)
    requires '\n' !in a
    ensures rest == "" ==> Lines(a + rest) == [a]
    ensures rest != "" && rest[0] == '\n' ==> Lines(a + rest) == [a] + Lines(rest[1..])
  {
    if a == [] {
      assert a + rest == rest;
    } else {
      LinesOfLine(a[1..], rest);
      assert (a + rest)[0] == a[0] && (a + rest)[1..] == a[1..] + rest;
      assert [a[0]] + a[1..] == a;
    }
  }

  /** A join of `n` break-free lines contains exactly `n - 1` line breaks. */
  lemma {:induction false} JoinBreaks(ls: seq<string>)
    requires |ls| >= 1
    requires forall k | 0 <= k < |ls| :: '\n' !in ls[k]
    ensures multiset(Join(ls, "\n"))['\n'] == |ls| - 1
  {
    if |ls| > 1 {
      JoinBreaks(ls[1..]);
      assert multiset(ls[0] + "\n" + Join(ls[1..], "\n")) == multiset(ls[0]) + multiset("\n") + multiset(Join(ls[1..], "\n"));
    }
  }

  /** Count of leading whitespace characters. */
  function IndentWidth(line: string): (w: nat)
    ensures w <= |line|
    ensures forall i | 0 <= i < w :: IsWhitespace(line[i])
    ensures w < |line| ==> !IsWhitespace(line[w])
  {
    if line == [] || !IsWhitespace(line[0]) then 0 else 1 + IndentWidth(line[1..])
  }

  /** The smallest indentation among the non-blank lines; `None` when every line is blank. */
  function MinIndentOf(ls: seq<string>): (m: Option<nat>)
    ensures m.None? <==> forall k | 0 <= k < |ls| :: IsBlank(ls[k])
    ensures m.Some? ==> exists k | 0 <= k < |ls| :: !IsBlank(ls[k]) && IndentWidth(ls[k]) == m.value
    ensures m.Some? ==> forall k | 0 <= k < |ls| && !IsBlank(ls[k]) :: m.value <= IndentWidth(ls[k])
  {
    if ls == [] then None
    else
      var rest := MinIndentOf(ls[1..]);
      assert forall k | 1 <= k < |ls| :: ls[k] == ls[1..][k - 1];
      if IsBlank(ls[0]) then
        if rest.Some? then
          var k :| 0 <= k < |ls| - 1 && !IsBlank(ls[1..][k]) && IndentWidth(ls[1..][k]) == rest.value;
          assert ls[k + 1] == ls[1..][k];
          rest
        else rest
      else if rest.None? || IndentWidth(ls[0]) <= rest.value then Some(IndentWidth(ls[0]))
      else
        var k :| 0 <= k < |ls| - 1 && !IsBlank(ls[1..][k]) && IndentWidth(ls[1..][k]) == rest.value;
        assert ls[k + 1] == ls[1..][k];
        rest
  }

  /** `line.drop(n)`. */
  function Drop(line: string, n: nat): (r: string)
    ensures forall c | c in r :: c in line
  {
    if n >= |line| then "" else
      assert forall i | 0 <= i < |line| - n :: line[n..][i] == line[n + i];
      line[n..]
  }

  /**
   * The line list `trimIndent` joins: a blank first line and a blank last line
   * are removed, and every remaining line loses `n` leading characters.
   */
  function Reindent(ls: seq<string>, n: nat): (r: seq<string>)
    ensures |ls| - 2 <= |r| <= |ls|
    ensures (forall k | 0 <= k < |ls| :: '\n' !in ls[k]) ==> forall k | 0 <= k < |r| :: '\n' !in r[k]
  {
    var first := if |ls| > 0 && IsBlank(ls[0]) then 1 else 0;
    var last := if |ls| > first && IsBlank(ls[|ls| - 1]) then |ls| - 1 else |ls|;
    var r := seq(last - first, k requires 0 <= k < last - first => Drop(ls[first + k], n));
    assert forall k | 0 <= k < |r| :: r[k] == Drop(ls[first + k], n);
    r
  }

  function TrimIndent(s: string): (r: string)
    ensures var m := MinIndentOf(Lines(s));
      var kept := Reindent(Lines(s), if m.Some? then m.value else 0);
      |kept| > 0 ==> Lines(r) == kept
  {
    var ls := Lines(s);
    var m := MinIndentOf(ls);
    var kept := Reindent(ls, if m.Some? then m.value else 0);
    if |kept| > 0 then
      LinesJoin(kept);
      Join(kept, "\n")
    else Join(kept, "\n")
  }

  /** A string with an unindented line and no blank first or last line is left as it is. */
  lemma TrimIndentKeepsFlushText(s: string)
    requires var ls := Lines(s); !IsBlank(ls[0]) && !IsBlank(ls[|ls| - 1])
    requires exists k | 0 <= k < |Lines(s)| :: !IsBlank(Lines(s)[k]) && IndentWidth(Lines(s)[k]) == 0
    ensures TrimIndent(s) == s
  {
    var ls := Lines(s);
    assert MinIndentOf(ls) == Some(0);
    var r := Reindent(ls, 0);
    assert |r| == |ls|;
    forall k | 0 <= k < |ls|
      ensures r[k] == ls[k]
    {
      assert Drop(ls[k], 0) == ls[k];
    }
    assert r == ls;
    JoinLines(s);
  }

  /**
   * The raw template of `taskAsRow`: an empty first line, the row indented by
   * eight spaces, and a last line of four spaces.
   */
  function RowTemplate(row: string): (r: string)
    ensures '\n' !in row ==> Lines(r) == ["", "        " + row, "    "]
  {
    var indented := "        " + row;
    var r := "\n" + indented + "\n" + "    ";
    if '\n' in row then r
    else
      LinesOfLine(indented, "\n" + "    ");
      LinesOfLine("    ", "");
      assert "    " + "" == "    ";
      assert r[0] == '\n';
      assert r[1..] == indented + ("\n" + "    ");
      assert ("\n" + "    ")[1..] == "    ";
      r
  }

  /** `trimIndent` reduces the template to the row itself when the row is one non-blank line. */
  lemma TrimRowTemplate(row: string)
    requires '\n' !in row
    requires |row| > 0 && !IsWhitespace(row[0])
    ensures TrimIndent(RowTemplate(row)) == row
  {
    var indented := "        " + row;
    var ls := Lines(RowTemplate(row));
    assert IndentWidth(indented) == 8 by {
      assert indented[8..] == row;
    }
    assert !IsBlank(indented);
    assert IsBlank("    ") && ls[1..][1..] == ["    "] && ls[1..] == [indented, "    "];
    assert MinIndentOf([indented, "    "]) == Some(8);
    assert MinIndentOf(ls) == Some(8);
    assert Drop(indented, 8) == row;
    assert Reindent(ls, 8) == [row];
  }

  /** The cells of one table row, as the template interpolates them. */
  function Row(t: Task): (r: string)
    ensures |r| > 0 && !IsWhitespace(r[0])
    ensures '\n' !in t.name && '\n' !in t.description ==> '\n' !in r
  {
    "<tr><td>" + t.name + "</td><td>" + t.description + "</td><td>" + Name(t.priority) + "</td></tr>"
  }

  /**
   * `Task.taskAsRow`: the interpolated template passed through `trimIndent`.
   * A task whose name and description hold no line break renders as exactly
   * its one table row.
   */
  function TaskAsRow(t: Task): (r: string)
    ensures '\n' !in t.name && '\n' !in t.description ==> r == Row(t)
  {
    if '\n' !in t.name && '\n' !in t.description then
      TrimRowTemplate(Row(t));
      TrimIndent(RowTemplate(Row(t)))
    else TrimIndent(RowTemplate(Row(t)))
  }

  const TablePrefix: string := "<table rules=\"all\">"
  const TablePostfix: string := "</table>"

  /** The rendered row of each task, in list order. */
  function Rows(tasks: seq<Task>): (rows: seq<string>)
    ensures |rows| == |tasks|
    ensures forall k | 0 <= k < |tasks| :: rows[k] == TaskAsRow(tasks[k])
  {
    seq(|tasks|, k requires 0 <= k < |tasks| => TaskAsRow(tasks[k]))
  }

  /** `List<Task>.asTable`: the rows joined by `"\n"` between the table tags. */
  function AsTable(tasks: seq<Task>): (html: string)
    ensures TablePrefix <= html
    ensures html[|html| - |TablePostfix|..] == TablePostfix
  {
    TablePrefix + Join(Rows(tasks), "\n") + TablePostfix
  }

  /** An empty list renders as the bare table tags. */
  lemma AsTableEmpty()
    ensures AsTable([]) == "<table rules=\"all\"></table>"
  {
    assert Join(Rows([]), "\n") == "";
    assert TablePrefix + "" + TablePostfix == "<table rules=\"all\"></table>";
  }

  /**
   * With break-free names and descriptions, the text between the tags splits
   * back into exactly one row per task, in list order, with `n - 1` line breaks.
   */
  lemma AsTableRows(tasks: seq<Task>)
    requires |tasks| >= 1
    requires forall k | 0 <= k < |tasks| :: '\n' !in tasks[k].name && '\n' !in tasks[k].description
    ensures var inner := AsTable(tasks)[|TablePrefix|..|AsTable(tasks)| - |TablePostfix|];
      && Lines(inner) == Rows(tasks)
      && multiset(inner)['\n'] == |tasks| - 1
      && forall k | 0 <= k < |tasks| :: Rows(tasks)[k] == Row(tasks[k])
  {
    var rows := Rows(tasks);
    assert forall k | 0 <= k < |tasks| :: rows[k] == Row(tasks[k]) && '\n' !in rows[k];
    LinesJoin(rows);
    JoinBreaks(rows);
    var html := AsTable(tasks);
    assert html[|TablePrefix|..|html| - |TablePostfix|] == Join(rows, "\n");
  }

  /** Two break-free tasks render as the first row, a line break and the second row. */
  lemma TwoRowTable(a: Task, b: Task)
    requires '\n' !in a.name && '\n' !in a.description && '\n' !in b.name && '\n' !in b.description
    ensures AsTable([a, b]) == TablePrefix + Row(a) + "\n" + Row(b) + TablePostfix
  {
    var rows := Rows([a, b]);
    assert rows == [Row(a), Row(b)];
    assert Join(rows, "\n") == Row(a) + "\n" + Row(b);
  }

  /** The seeded storage renders as a two-row table. */
  lemma StorageTable()
    ensures AsTable(TasksStorage) == TablePrefix + Row(TasksStorage[0]) + "\n" + Row(TasksStorage[1]) + TablePostfix
  {
    TwoRowTable(TasksStorage[0], TasksStorage[1]);
  }
}
