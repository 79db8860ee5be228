/** The `tasks.txt` file of stage 2: each task is written as four labelled
    lines and a separator line, and read back line by line. A task read back
    is the list of the values found under its labels. */
module FlatText {
  import opened Maybe
  import opened Text
  import opened Tasks

  /** The labels, in the order the lines are written and tried. */
  const Labels: seq<string> := ["Name: ", "Description: ", "Priority: ", "Due Date: "]

  const Separator: string := "-----"

  /** The lines `save_tasks_to_file` writes for one task. */
  function Block(t: Task): (r: seq<string>)
    ensures |r| == 5
  {
    [Labels[0] + t.name, Labels[1] + t.description,
     Labels[2] + t.priority, Labels[3] + t.dueDate, Separator]
  }

  /** The lines `save_tasks_to_file` writes for a list: five per task, in order. */
  function BlockLines(ts: seq<Task>): (r: seq<string>)
    ensures |r| == 5 * |ts|
    ensures forall i :: 0 <= i < |ts| ==>
      r[5 * i..5 * i + 5] == ["Name: " + ts[i].name, "Description: " + ts[i].description,
                              "Priority: " + ts[i].priority, "Due Date: " + ts[i].dueDate, "-----"]
  {
    if |ts| == 0 then []
    else
      var rest := BlockLines(ts[1..]);
      var r := Block(ts[0]) + rest;
      assert forall i :: 1 <= i < |ts| ==> r[5 * i..5 * i + 5] == rest[5 * (i - 1)..5 * (i - 1) + 5] && ts[i] == ts[1..][i - 1];
      r
  }

  /** Lines, each ended by a newline. */
  function Join(lines: seq<string>): string {
    if |lines| == 0 then "" else lines[0] + "\n" + Join(lines[1..])
  }

  /** The whole file `save_tasks_to_file` writes for a list of tasks: when
      no field holds a line break, its lines are the five lines of each
      task in turn, each ended by a newline. */
  function Serialise(ts: seq<Task>): (r: string)
    ensures AllFit(ts, true) ==> SplitLines(r) == BlockLines(ts) + [""]
  {
    if AllFit(ts, true) then
      SavedLines(ts);
      Join(BlockLines(ts))
    else Join(BlockLines(ts))
  }

  /** The writer over stored rows, given the rows of a list of tasks, never
      stops early and writes the file `Serialise` describes. */
  lemma SerialiseWritesRows(ts: seq<Task>)
    ensures !WriteRows(Rows(ts)).raised && Serialise(ts) == Join(WriteRows(Rows(ts)).lines)
  {
    WriteRowsOfTasks(ts, []);
    assert Rows(ts) + [] == Rows(ts);
    assert WriteRows([]) == Written([], false);
    assert BlockLines(ts) + [] == BlockLines(ts);
  }

  /** What `save_tasks_to_file` leaves in the file, and whether it stopped
      on an error. */
  datatype Written = Written(lines: seq<string>, raised: bool)

  /** The lines written for one stored row: `task[0]` to `task[3]` after
      their labels, then the separator. A row of fewer than four values
      raises `IndexError` at its first missing value. */
  function WriteRow(row: seq<string>): (r: Written)
    ensures r.raised <==> |row| < 4
  {
    if |row| >= 4 then
      Written([Labels[0] + row[0], Labels[1] + row[1], Labels[2] + row[2], Labels[3] + row[3], Separator], false)
    else Written(seq(|row|, k requires 0 <= k < |row| => Labels[k] + row[k]), true)
  }

  /** `save_tasks_to_file` over the rows as stage 2 stores them. The file
      is emptied when it is opened, the rows are written in order, and the
      first `IndexError` ends the writing; the generic `except` swallows it,
      so the lines written so far are all the file keeps. */
  function WriteRows(rows: seq<seq<string>>): (r: Written)
    ensures r.raised <==> exists i :: 0 <= i < |rows| && |rows[i]| < 4
  {
    if |rows| == 0 then Written([], false)
    else
      var w := WriteRow(rows[0]);
      if w.raised then w
      else
        var rest := WriteRows(rows[1..]);
        assert forall i :: 1 <= i < |rows| ==> rows[i] == rows[1..][i - 1];
        Written(w.lines + rest.lines, rest.raised)
  }

  /** Rows of tasks are written as their blocks, and writing goes on after them. */
  lemma {:induction false} WriteRowsOfTasks(ts: seq<Task>, tail: seq<seq<string>>)
    ensures WriteRows(Rows(ts) + tail) == Written(BlockLines(ts) + WriteRows(tail).lines, WriteRows(tail).raised)
  {
    if |ts| == 0 {
      assert Rows(ts) + tail == tail;
      assert BlockLines(ts) + WriteRows(tail).lines == WriteRows(tail).lines;
    } else {
      var more := Rows(ts[1..]) + tail;
      WriteRowsOfTasks(ts[1..], tail);
      assert Rows(ts) + tail == [Row(ts[0])] + more;
      WriteRowsCons(Row(ts[0]), more);
      assert WriteRow(Row(ts[0])).lines == Block(ts[0]);
      assert BlockLines(ts) == Block(ts[0]) + BlockLines(ts[1..]);
      AppendAssoc(Block(ts[0]), BlockLines(ts[1..]), WriteRows(tail).lines);
    }
  }

  /** A row of four values is written whole and writing goes on. */
  lemma WriteRowsCons(row: seq<string>, tail: seq<seq<string>>)
    requires |row| >= 4
    ensures WriteRows([row] + tail) == Written(WriteRow(row).lines + WriteRows(tail).lines, WriteRows(tail).raised)
  {
    assert ([row] + tail)[0] == row && ([row] + tail)[1..] == tail;
  }

  lemma AppendAssoc<T>(a: seq<T>, b: seq<T>, c: seq<T>)
    ensures (a + b) + c == a + (b + c)
  {
  }

  lemma EmptyPrefix<T>(a: seq<T>)
    ensures [] + a == a
  {
  }

  /** The three lines written for a row of three values before the writer stops. */
  function ShortLines(row: seq<string>): seq<string>
    requires |row| == 3
  {
    [Labels[0] + row[0], Labels[1] + row[1], Labels[2] + row[2]]
  }

  /** A stored row of three values stops the writer after its three lines:
      the tasks before it are written whole and no row after it is written. */
  lemma ShortRowTruncates(ts: seq<Task>, row: seq<string>, rest: seq<seq<string>>)
    requires |row| == 3
    ensures WriteRows(Rows(ts) + [row] + rest) == Written(BlockLines(ts) + ShortLines(row), true)
  {
    WriteRowsOfTasks(ts, [row] + rest);
    assert Rows(ts) + [row] + rest == Rows(ts) + ([row] + rest);
    assert ([row] + rest)[0] == row;
    assert WriteRow(row).lines == ShortLines(row);
  }

  /** The lines a text-mode file yields, line ends removed: the text split at
      every `\n` and `\r`. A `\r\n` pair gives an extra empty piece, which the
      reader skips like any blank line. */
  function SplitLines(s: string): (r: seq<string>)
    ensures |r| >= 1
  {
    if |s| == 0 then [""]
    else if IsLineBreak(s[0]) then [""] + SplitLines(s[1..])
    else
      var rest := SplitLines(s[1..]);
      [[s[0]] + rest[0]] + rest[1..]
  }

  predicate NoLineBreak(s: string) {
    forall i :: 0 <= i < |s| ==> !IsLineBreak(s[i])
  }

  /** A line without line breaks, then a newline, is read back as that line. */
  lemma {:induction false} SplitLineFirst(line: string, s: string)
    requires NoLineBreak(line)
    ensures SplitLines(line + "\n" + s) == [line] + SplitLines(s)
    decreases |line|
  {
    if |line| == 0 {
      assert line + "\n" + s == ['\n'] + s;
      assert (['\n'] + s)[1..] == s;
    } else {
      SplitLineFirst(line[1..], s);
      var whole := line + "\n" + s;
      assert whole[0] == line[0];
      assert whole[1..] == line[1..] + "\n" + s;
      assert [line[0]] + line[1..] == line;
    }
  }

  /** No line of `lines` holds a line break. */
  predicate AllOneLine(lines: seq<string>) {
    |lines| == 0 || (NoLineBreak(lines[0]) && AllOneLine(lines[1..]))
  }

  /** Splitting joined lines gives the lines back, and the empty piece after the last newline. */
  lemma {:induction false} SplitJoin(lines: seq<string>)
    requires AllOneLine(lines)
    ensures SplitLines(Join(lines)) == lines + [""]
  {
    if |lines| > 0 {
      SplitJoin(lines[1..]);
      SplitLineFirst(lines[0], Join(lines[1..]));
      assert lines == [lines[0]] + lines[1..];
    }
  }

  /** The value after the first label `line` starts with, if any. */
  function Value(line: string): (r: Option<string>)
    ensures r.Some? <==> exists i :: 0 <= i < |Labels| && StartsWith(line, Labels[i])
    ensures r.Some? ==> exists i :: 0 <= i < |Labels| && line == Labels[i] + r.value
  {
    if StartsWith(line, Labels[0]) then Some(line[6..])
    else if StartsWith(line, Labels[1]) then Some(line[13..])
    else if StartsWith(line, Labels[2]) then Some(line[10..])
    else if StartsWith(line, Labels[3]) then Some(line[10..])
    else None
  }

  /** The reader's state: the rows completed so far and the row being filled. */
  datatype Reader = Reader(done: seq<seq<string>>, current: seq<string>)

  /** Every row holds at least one value. */
  predicate NonEmptyRows(rows: seq<seq<string>>) {
    forall i :: 0 <= i < |rows| ==> |rows[i]| > 0
  }

  /** One turn of the reading loop: `line` decides whether the line is blank
      or a separator, `labelled` is where a label and value are looked for. */
  function Next(st: Reader, line: string, labelled: string): (r: Reader)
    ensures |r.done| <= |st.done| + 1
    ensures NonEmptyRows(st.done) ==> NonEmptyRows(r.done)
  {
    if line == "" then st
    else if line == Separator then
      if |st.current| > 0 then Reader(st.done + [st.current], []) else st
    else match Value(labelled)
      case Some(v) => Reader(st.done, st.current + [v])
      case None => st
  }

  /** `load_tasks_from_file` looks for labels in the stripped line; the
      corrected reader looks for them in the line as read. */
  function Step(st: Reader, raw: string, fixed: bool): Reader {
    Next(st, Strip(raw), if fixed then raw else Strip(raw))
  }

  /** The reading loop over `lines`: no row closed on the way is empty. */
  function Fold(st: Reader, lines: seq<string>, fixed: bool): (r: Reader)
    ensures NonEmptyRows(st.done) ==> NonEmptyRows(r.done)
    decreases |lines|
  {
    if |lines| == 0 then st else Fold(Step(st, lines[0], fixed), lines[1..], fixed)
  }

  /** The rows read from `text`, the last one kept even without a closing
      separator: a row with no value is never produced. */
  function Read(text: string, fixed: bool): (r: seq<seq<string>>)
    ensures NonEmptyRows(r)
  {
    var st := Fold(Reader([], []), SplitLines(text), fixed);
    if |st.current| > 0 then st.done + [st.current] else st.done
  }

  /** `load_tasks_from_file`: the list is replaced by the rows of the file;
      a missing file leaves it as it was. */
  function Load(tasks: seq<seq<string>>, file: Option<string>): (r: seq<seq<string>>)
    ensures file.None? ==> r == tasks
    ensures file.Some? ==> r == Read(file.value, false) && NonEmptyRows(r)
  {
    match file
    case None => tasks
    case Some(text) => Read(text, false)
  }

  /** The reader with labels looked for before stripping. */
  function LoadFixed(tasks: seq<seq<string>>, file: Option<string>): (r: seq<seq<string>>)
    ensures file.None? ==> r == tasks
    ensures file.Some? ==> r == Read(file.value, true) && NonEmptyRows(r)
  {
    match file
    case None => tasks
    case Some(text) => Read(text, true)
  }

  /** A value the stripping reader gives back unchanged: present, ending in
      a non-blank character, on one line. */
  predicate Clean(v: string) {
    |v| > 0 && !IsSpace(v[|v| - 1]) && NoLineBreak(v)
  }

  /** The fields of `t` survive a save and a load by the chosen reader. */
  predicate Fits(t: Task, fixed: bool) {
    if fixed then
      NoLineBreak(t.name) && NoLineBreak(t.description)
      && NoLineBreak(t.priority) && NoLineBreak(t.dueDate)
    else Clean(t.name) && Clean(t.description) && Clean(t.priority) && Clean(t.dueDate)
  }

  lemma StripHead(s: string)
    requires |s| > 0 && !IsSpace(s[0])
    ensures |Strip(s)| > 0 && Strip(s)[0] == s[0]
  {
    assert TrimStart(s) == s;
  }

  lemma ValueOf(i: nat, v: string)
    requires i < |Labels|
    ensures Value(Labels[i] + v) == Some(v)
  {
    var line := Labels[i] + v;
    assert line[..|Labels[i]|] == Labels[i];
    assert line[|Labels[i]|..] == v;
    if i > 0 {
      assert line[0] != 'N';
    }
    if i > 1 {
      assert line[0] != 'D' || line[1] != 'e';
    }
    if i > 2 {
      assert line[0] != 'P';
    }
  }

  /** A labelled line adds its value to the row being read. */
  lemma FieldStep(st: Reader, i: nat, v: string, fixed: bool)
    requires i < |Labels| && NoLineBreak(v)
    requires !fixed ==> Clean(v)
    ensures Step(st, Labels[i] + v, fixed) == Reader(st.done, st.current + [v])
  {
    var line := Labels[i] + v;
    StripHead(line);
    assert Strip(line) != Separator by {
      assert line[0] != '-';
    }
    if !fixed {
      assert line[|line| - 1] == v[|v| - 1];
      StripKeeps(line);
    }
    ValueOf(i, v);
  }

  /** A line that strips to the separator closes a non-empty row, whatever
      blanks surround it. */
  lemma SeparatorStep(st: Reader, raw: string, fixed: bool)
    requires |st.current| > 0 && Strip(raw) == Separator
    ensures Step(st, raw, fixed) == Reader(st.done + [st.current], [])
  {
  }

  lemma {:induction false} FoldAppend(st: Reader, a: seq<string>, b: seq<string>, fixed: bool)
    ensures Fold(st, a + b, fixed) == Fold(Fold(st, a, fixed), b, fixed)
    decreases |a|
  {
    if |a| > 0 {
      assert (a + b)[0] == a[0];
      assert (a + b)[1..] == a[1..] + b;
      FoldAppend(Step(st, a[0], fixed), a[1..], b, fixed);
    } else {
      assert a + b == b;
    }
  }

  /** A labelled line in front of more lines adds its value to the row. */
  lemma FoldField(st: Reader, i: nat, v: string, rest: seq<string>, fixed: bool)
    requires i < |Labels| && NoLineBreak(v)
    requires !fixed ==> Clean(v)
    ensures Fold(st, [Labels[i] + v] + rest, fixed) == Fold(Reader(st.done, st.current + [v]), rest, fixed)
  {
    FieldStep(st, i, v, fixed);
    assert ([Labels[i] + v] + rest)[1..] == rest;
  }

  /** The five lines of a task add its row. */
  lemma FoldBlock(done: seq<seq<string>>, t: Task, fixed: bool)
    requires Fits(t, fixed)
    ensures Fold(Reader(done, []), Block(t), fixed) == Reader(done + [Row(t)], [])
  {
    var l0, l1, l2, l3 := Labels[0] + t.name, Labels[1] + t.description, Labels[2] + t.priority, Labels[3] + t.dueDate;
    var tail3 := [l3] + [Separator];
    var tail2 := [l2] + tail3;
    var tail1 := [l1] + tail2;
    assert Block(t) == [l0] + tail1;
    var s1 := Reader(done, [] + [t.name]);
    var s2 := Reader(done, s1.current + [t.description]);
    var s3 := Reader(done, s2.current + [t.priority]);
    var s4 := Reader(done, s3.current + [t.dueDate]);
    assert s4.current == Row(t);
    var s5 := Reader(done + [Row(t)], []);
    assert Fold(s4, [Separator], fixed) == s5 by {
      StripSeparator();
      SeparatorStep(s4, Separator, fixed);
      assert [Separator][1..] == [];
    }
    assert Fold(s3, tail3, fixed) == Fold(s4, [Separator], fixed) by {
      FoldField(s3, 3, t.dueDate, [Separator], fixed);
    }
    assert Fold(s2, tail2, fixed) == Fold(s3, tail3, fixed) by {
      FoldField(s2, 2, t.priority, tail3, fixed);
    }
    assert Fold(s1, tail1, fixed) == Fold(s2, tail2, fixed) by {
      FoldField(s1, 1, t.description, tail2, fixed);
    }
    assert Fold(Reader(done, []), [l0] + tail1, fixed) == Fold(s1, tail1, fixed) by {
      FoldField(Reader(done, []), 0, t.name, tail1, fixed);
    }
  }

  lemma FoldBlockThen(done: seq<seq<string>>, t: Task, rest: seq<string>, fixed: bool)
    requires Fits(t, fixed)
    ensures Fold(Reader(done, []), Block(t) + rest, fixed) == Fold(Reader(done + [Row(t)], []), rest, fixed)
  {
    FoldAppend(Reader(done, []), Block(t), rest, fixed);
    FoldBlock(done, t, fixed);
  }

  lemma AppendOne<T>(a: seq<T>, x: T, b: seq<T>)
    ensures a + ([x] + b) == (a + [x]) + b
  {
  }

  /** Every task of `ts` fits. */
  predicate AllFit(ts: seq<Task>, fixed: bool) {
    |ts| == 0 || (Fits(ts[0], fixed) && AllFit(ts[1..], fixed))
  }

  lemma {:induction false} AllFitIndex(ts: seq<Task>, fixed: bool)
    requires forall i :: 0 <= i < |ts| ==> Fits(ts[i], fixed)
    ensures AllFit(ts, fixed)
  {
    if |ts| > 0 {
      AllFitIndex(ts[1..], fixed);
    }
  }

  /** The lines of several tasks add their rows, in order. */
  lemma {:induction false} FoldBlocks(done: seq<seq<string>>, ts: seq<Task>, fixed: bool)
    requires AllFit(ts, fixed)
    ensures Fold(Reader(done, []), BlockLines(ts), fixed) == Reader(done + Rows(ts), [])
    decreases |ts|
  {
    if |ts| == 0 {
      assert BlockLines(ts) == [] && Rows(ts) == [];
      assert done + [] == done;
    } else {
      var rest := BlockLines(ts[1..]);
      assert BlockLines(ts) == Block(ts[0]) + rest;
      FoldBlockThen(done, ts[0], rest, fixed);
      var mid := done + [Row(ts[0])];
      FoldBlocks(mid, ts[1..], fixed);
      assert Rows(ts) == [Row(ts[0])] + Rows(ts[1..]);
      AppendOne(done, Row(ts[0]), Rows(ts[1..]));
    }
  }

  lemma NoLineBreakJoin(a: string, b: string)
    requires NoLineBreak(a) && NoLineBreak(b)
    ensures NoLineBreak(a + b)
  {
    forall i | 0 <= i < |a + b|
      ensures !IsLineBreak((a + b)[i])
    {
      if i >= |a| {
        assert (a + b)[i] == b[i - |a|];
      }
    }
  }

  lemma {:induction false} OneLineAppend(a: seq<string>, b: seq<string>)
    requires AllOneLine(a) && AllOneLine(b)
    ensures AllOneLine(a + b)
  {
    if |a| > 0 {
      OneLineAppend(a[1..], b);
      assert (a + b)[1..] == a[1..] + b;
    } else {
      assert a + b == b;
    }
  }

  lemma BlockOneLine(t: Task)
    requires Fits(t, true)
    ensures AllOneLine(Block(t))
  {
    NoLineBreakJoin(Labels[0], t.name);
    NoLineBreakJoin(Labels[1], t.description);
    NoLineBreakJoin(Labels[2], t.priority);
    NoLineBreakJoin(Labels[3], t.dueDate);
    var b := Block(t);
    assert NoLineBreak(Separator);
    assert AllOneLine(b[4..]) by { assert b[4..][1..] == []; }
    assert AllOneLine(b[3..]) by { assert b[3..][1..] == b[4..]; }
    assert AllOneLine(b[2..]) by { assert b[2..][1..] == b[3..]; }
    assert AllOneLine(b[1..]) by { assert b[1..][1..] == b[2..]; }
  }

  lemma {:induction false} BlockLinesOneLine(ts: seq<Task>)
    requires AllFit(ts, true)
    ensures AllOneLine(BlockLines(ts))
  {
    if |ts| > 0 {
      BlockLinesOneLine(ts[1..]);
      BlockOneLine(ts[0]);
      OneLineAppend(Block(ts[0]), BlockLines(ts[1..]));
    }
  }

  lemma {:induction false} FitsLoosely(ts: seq<Task>, fixed: bool)
    requires AllFit(ts, fixed)
    ensures AllFit(ts, true)
  {
    if |ts| > 0 {
      FitsLoosely(ts[1..], fixed);
    }
  }

  /** The lines of a saved file are the lines written, then an empty piece. */
  lemma {:induction false} SavedLines(ts: seq<Task>)
    requires AllFit(ts, true)
    ensures SplitLines(Join(BlockLines(ts))) == BlockLines(ts) + [""]
  {
    var lines := BlockLines(ts);
    BlockLinesOneLine(ts);
    SplitJoin(lines);
    assert SplitLines(Join(lines)) == lines + [""];
  }

  /** A blank line read last changes nothing. */
  lemma FoldBlank(st: Reader, raw: string, fixed: bool)
    requires Strip(raw) == ""
    ensures Fold(st, [raw], fixed) == st
  {
    assert [raw][1..] == [];
  }

  lemma StripSeparator()
    ensures Strip(Separator) == Separator
  {
    StripKeeps(Separator);
  }

  lemma StripEmpty()
    ensures Strip("") == ""
  {
  }

  /** Reading a saved file gives back the rows of the tasks saved. */
  lemma ReadSerialise(ts: seq<Task>, fixed: bool)
    requires AllFit(ts, fixed)
    ensures Read(Serialise(ts), fixed) == Rows(ts)
  {
    var text := Serialise(ts);
    assert text == Join(BlockLines(ts));
    FoldSerialise(ts, fixed);
    var st := Fold(Reader([], []), SplitLines(text), fixed);
    assert st == Reader(Rows(ts), []);
    assert Read(text, fixed) == st.done;
  }

  lemma FoldSerialise(ts: seq<Task>, fixed: bool)
    requires AllFit(ts, fixed)
    ensures Fold(Reader([], []), SplitLines(Join(BlockLines(ts))), fixed) == Reader(Rows(ts), [])
  {
    FitsLoosely(ts, fixed);
    SavedLines(ts);
    FoldSavedLines([], ts, fixed);
    EmptyPrefix(Rows(ts));
  }

  /** The lines of saved tasks, and the empty piece after them, read as their rows. */
  lemma FoldSavedLines(done: seq<seq<string>>, ts: seq<Task>, fixed: bool)
    requires AllFit(ts, fixed)
    ensures Fold(Reader(done, []), BlockLines(ts) + [""], fixed) == Reader(done + Rows(ts), [])
  {
    FoldBlocks(done, ts, fixed);
    FoldThenBlank(Reader(done, []), BlockLines(ts), Reader(done + Rows(ts), []), fixed);
  }

  /** The empty piece after the last line end changes nothing. */
  lemma FoldThenBlank(start: Reader, lines: seq<string>, st: Reader, fixed: bool)
    requires Fold(start, lines, fixed) == st
    ensures Fold(start, lines + [""], fixed) == st
  {
    FoldAppend(start, lines, [""], fixed);
    StripEmpty();
    FoldBlank(st, "", fixed);
  }

  /** The file `save_tasks_to_file` writes is loaded back as the same rows
      when every field is non-empty, ends in a non-blank character and fits
      on one line. */
  lemma LoadSaved(tasks: seq<seq<string>>, ts: seq<Task>)
    requires forall i :: 0 <= i < |ts| ==> Fits(ts[i], false)
    ensures Load(tasks, Some(Serialise(ts))) == Rows(ts)
  {
    AllFitIndex(ts, false);
    ReadSerialise(ts, false);
  }

  /** With labels looked for before stripping, every field that fits on one
      line comes back, empty or not. */
  lemma LoadFixedSaved(tasks: seq<seq<string>>, ts: seq<Task>)
    requires forall i :: 0 <= i < |ts| ==> Fits(ts[i], true)
    ensures LoadFixed(tasks, Some(Serialise(ts))) == Rows(ts)
  {
    AllFitIndex(ts, true);
    ReadSerialise(ts, true);
  }

  /** A line that strips to the separator, with no row open, adds no empty row. */
  lemma SeparatorOnEmpty(st: Reader, raw: string, fixed: bool)
    requires |st.current| == 0 && Strip(raw) == Separator
    ensures Step(st, raw, fixed) == st
  {
  }

  /** The first lines of a list that fits on single lines fit on single lines too. */
  lemma {:induction false} OneLinePrefix(a: seq<string>, b: seq<string>)
    requires AllOneLine(a + b)
    ensures AllOneLine(a)
  {
    if |a| > 0 {
      assert (a + b)[0] == a[0];
      assert (a + b)[1..] == a[1..] + b;
      OneLinePrefix(a[1..], b);
    }
  }

  /** The four labelled lines of a task, without the separator, leave its row open. */
  lemma OpenRow(done: seq<seq<string>>, t: Task, fixed: bool)
    requires Fits(t, fixed)
    ensures Fold(Reader(done, []), Block(t)[..4], fixed) == Reader(done, Row(t))
  {
    var l0, l1, l2, l3 := Labels[0] + t.name, Labels[1] + t.description, Labels[2] + t.priority, Labels[3] + t.dueDate;
    var tail3: seq<string> := [l3];
    var tail2 := [l2] + tail3;
    var tail1 := [l1] + tail2;
    assert Block(t)[..4] == [l0] + tail1;
    var s1 := Reader(done, [] + [t.name]);
    var s2 := Reader(done, s1.current + [t.description]);
    var s3 := Reader(done, s2.current + [t.priority]);
    var s4 := Reader(done, s3.current + [t.dueDate]);
    assert s4.current == Row(t);
    assert Fold(s3, tail3, fixed) == s4 by {
      FoldField(s3, 3, t.dueDate, [], fixed);
      assert tail3 == [l3] + [];
    }
    assert Fold(s2, tail2, fixed) == Fold(s3, tail3, fixed) by {
      FoldField(s2, 2, t.priority, tail3, fixed);
    }
    assert Fold(s1, tail1, fixed) == Fold(s2, tail2, fixed) by {
      FoldField(s1, 1, t.description, tail2, fixed);
    }
    FoldField(Reader(done, []), 0, t.name, tail1, fixed);
  }

  /** The lines of saved tasks followed by the labelled lines of one more,
      all fitting on single lines, are split back as written. */
  lemma OpenRowLines(ts: seq<Task>, t: Task, fixed: bool)
    requires AllFit(ts, fixed) && Fits(t, fixed)
    ensures SplitLines(Join(BlockLines(ts) + Block(t)[..4])) == BlockLines(ts) + Block(t)[..4] + [""]
  {
    var lines := Block(t)[..4];
    assert AllFit([t], fixed) by { assert [t][1..] == []; }
    FitsLoosely([t], fixed);
    FitsLoosely(ts, fixed);
    BlockOneLine(t);
    BlockLinesOneLine(ts);
    assert Block(t) == lines + [Separator];
    OneLinePrefix(lines, [Separator]);
    OneLineAppend(BlockLines(ts), lines);
    SplitJoin(BlockLines(ts) + lines);
  }

  /** A file whose last row has no closing separator still yields that row,
      after the rows of the complete blocks before it. */
  lemma LastRowKept(ts: seq<Task>, t: Task, fixed: bool)
    requires forall i :: 0 <= i < |ts| ==> Fits(ts[i], fixed)
    requires Fits(t, fixed)
    ensures Read(Join(BlockLines(ts) + Block(t)[..4]), fixed) == Rows(ts + [t])
  {
    AllFitIndex(ts, fixed);
    FoldOpenFile(ts, t, fixed);
    RowsAppend(ts, t);
  }

  /** Reading saved tasks and then the labelled lines of one more leaves
      the saved rows done and the last row open. */
  lemma FoldOpenFile(ts: seq<Task>, t: Task, fixed: bool)
    requires AllFit(ts, fixed) && Fits(t, fixed)
    ensures Fold(Reader([], []), SplitLines(Join(BlockLines(ts) + Block(t)[..4])), fixed) == Reader(Rows(ts), Row(t))
  {
    var head, lines := BlockLines(ts), Block(t)[..4];
    var s4 := Reader(Rows(ts), Row(t));
    OpenRowLines(ts, t, fixed);
    FoldBlocks([], ts, fixed);
    assert [] + Rows(ts) == Rows(ts);
    OpenRow(Rows(ts), t, fixed);
    FoldAppend(Reader([], []), head, lines, fixed);
    assert Fold(Reader([], []), head + lines, fixed) == s4;
    FoldAppend(Reader([], []), head + lines, [""], fixed);
    StripEmpty();
    FoldBlank(s4, "", fixed);
  }

  lemma RowsAppend(ts: seq<Task>, t: Task)
    ensures Rows(ts + [t]) == Rows(ts) + [Row(t)]
  {
    var a, b := Rows(ts + [t]), Rows(ts) + [Row(t)];
    assert |a| == |b|;
    forall i | 0 <= i < |a|
      ensures a[i] == b[i]
    {
      if i < |ts| {
        assert (ts + [t])[i] == ts[i];
      } else {
        assert (ts + [t])[i] == t;
      }
    }
  }

  /** The line saved for an empty description strips to `Description:`,
      which carries no label the reader knows, so it is skipped. */
  lemma EmptyDescriptionSkipped(st: Reader)
    ensures Step(st, Labels[1] + "", false) == st
  {
    StripDescription();
    BareLabel();
  }

  lemma StripDescription()
    ensures Strip(Labels[1] + "") == "Description:"
  {
    var raw := Labels[1] + "";
    assert raw == "Description: ";
    assert !IsSpace(raw[0]) && IsSpace(raw[12]) && !IsSpace(raw[11]);
    StripDropsLast(raw);
    assert raw[..12] == "Description:";
  }

  /** A string with one blank at its end, and none at its start, loses just that blank. */
  lemma StripDropsLast(s: string)
    requires |s| >= 2 && !IsSpace(s[0]) && IsSpace(s[|s| - 1]) && !IsSpace(s[|s| - 2])
    ensures Strip(s) == s[..|s| - 1]
  {
    assert TrimStart(s) == s;
    var u := s[..|s| - 1];
    assert TrimEnd(s) == TrimEnd(u);
    assert TrimEnd(u) == u;
  }

  lemma BareLabel()
    ensures Value("Description:") == None
  {
    var line := "Description:";
    assert line[0] != Labels[0][0] && line[0] != Labels[2][0];
    assert line[1] != Labels[3][1];
  }

  lemma FoldSkip(st: Reader, rest: seq<string>)
    ensures Fold(st, [Labels[1] + ""] + rest, false) == Fold(st, rest, false)
  {
    EmptyDescriptionSkipped(st);
    assert ([Labels[1] + ""] + rest)[1..] == rest;
  }

  /** The five lines of a task with an empty description add a row of three values. */
  lemma FoldShortBlock(done: seq<seq<string>>, t: Task)
    requires t.description == ""
    requires Clean(t.name) && Clean(t.priority) && Clean(t.dueDate)
    ensures Fold(Reader(done, []), Block(t), false) == Reader(done + [[t.name, t.priority, t.dueDate]], [])
  {
    var l0, l1, l2, l3 := Labels[0] + t.name, Labels[1] + t.description, Labels[2] + t.priority, Labels[3] + t.dueDate;
    var tail3 := [l3] + [Separator];
    var tail2 := [l2] + tail3;
    var tail1 := [l1] + tail2;
    assert Block(t) == [l0] + tail1;
    var s1 := Reader(done, [] + [t.name]);
    var s3 := Reader(done, s1.current + [t.priority]);
    var s4 := Reader(done, s3.current + [t.dueDate]);
    assert s4.current == [t.name, t.priority, t.dueDate];
    var s5 := Reader(done + [s4.current], []);
    assert Fold(s4, [Separator], false) == s5 by {
      StripSeparator();
      SeparatorStep(s4, Separator, false);
      assert [Separator][1..] == [];
    }
    assert Fold(s3, tail3, false) == Fold(s4, [Separator], false) by {
      FoldField(s3, 3, t.dueDate, [Separator], false);
    }
    assert Fold(s1, tail2, false) == Fold(s3, tail3, false) by {
      FoldField(s1, 2, t.priority, tail3, false);
    }
    assert Fold(s1, tail1, false) == Fold(s1, tail2, false) by {
      FoldSkip(s1, tail2);
    }
    assert Fold(Reader(done, []), [l0] + tail1, false) == Fold(s1, tail1, false) by {
      FoldField(Reader(done, []), 0, t.name, tail1, false);
    }
  }

  /** A task saved with an empty description, which stage 2 accepts, is
      loaded back as a row of three values; the corrected reader gives back
      its four. */
  lemma EmptyDescriptionLost(tasks: seq<seq<string>>, t: Task)
    requires t.description == ""
    requires Clean(t.name) && Clean(t.priority) && Clean(t.dueDate)
    ensures Load(tasks, Some(Serialise([t]))) == [[t.name, t.priority, t.dueDate]]
    ensures LoadFixed(tasks, Some(Serialise([t]))) == Rows([t])
  {
    var row := [t.name, t.priority, t.dueDate];
    assert Fits(t, true);
    assert AllFit([t], true) by { assert [t][1..] == []; }
    SavedLines([t]);
    assert BlockLines([t]) == Block(t) by {
      assert [t][1..] == [];
    }
    assert Serialise([t]) == Join(BlockLines([t]));
    FoldAppend(Reader([], []), Block(t), [""], false);
    FoldShortBlock([], t);
    assert [] + [row] == [row];
    StripEmpty();
    FoldBlank(Reader([row], []), "", false);
    assert Fold(Reader([], []), Block(t) + [""], false) == Reader([row], []);
    LoadFixedSaved(tasks, [t]);
  }

  lemma ShortLinesOneLine(row: seq<string>)
    requires |row| == 3 && NoLineBreak(row[0]) && NoLineBreak(row[1]) && NoLineBreak(row[2])
    ensures AllOneLine(ShortLines(row))
  {
    NoLineBreakJoin(Labels[0], row[0]);
    NoLineBreakJoin(Labels[1], row[1]);
    NoLineBreakJoin(Labels[2], row[2]);
    var b := ShortLines(row);
    assert AllOneLine(b[2..]) by { assert b[2..][1..] == []; }
    assert AllOneLine(b[1..]) by { assert b[1..][1..] == b[2..]; }
  }

  /** The three lines of a short row leave that row open. */
  lemma OpenShortRow(done: seq<seq<string>>, row: seq<string>)
    requires |row| == 3 && Clean(row[0]) && Clean(row[1]) && Clean(row[2])
    ensures Fold(Reader(done, []), ShortLines(row), false) == Reader(done, row)
  {
    var l0, l1, l2 := Labels[0] + row[0], Labels[1] + row[1], Labels[2] + row[2];
    var tail2: seq<string> := [l2];
    var tail1 := [l1] + tail2;
    assert ShortLines(row) == [l0] + tail1;
    var s1 := Reader(done, [] + [row[0]]);
    var s2 := Reader(done, s1.current + [row[1]]);
    var s3 := Reader(done, s2.current + [row[2]]);
    assert s3.current == row;
    assert Fold(s2, tail2, false) == s3 by {
      FoldField(s2, 2, row[2], [], false);
      assert tail2 == [l2] + [];
    }
    assert Fold(s1, tail1, false) == Fold(s2, tail2, false) by {
      FoldField(s1, 1, row[1], tail2, false);
    }
    FoldField(Reader(done, []), 0, row[0], tail1, false);
  }

  /** Reading saved tasks and then the three lines of a short row leaves
      the saved rows done and the short row open. */
  lemma FoldShortFile(ts: seq<Task>, row: seq<string>)
    requires AllFit(ts, false)
    requires |row| == 3 && Clean(row[0]) && Clean(row[1]) && Clean(row[2])
    ensures Fold(Reader([], []), SplitLines(Join(BlockLines(ts) + ShortLines(row))), false) == Reader(Rows(ts), row)
  {
    var head, lines := BlockLines(ts), ShortLines(row);
    var s := Reader(Rows(ts), row);
    FitsLoosely(ts, false);
    BlockLinesOneLine(ts);
    ShortLinesOneLine(row);
    OneLineAppend(head, lines);
    SplitJoin(head + lines);
    FoldBlocks([], ts, false);
    assert [] + Rows(ts) == Rows(ts);
    OpenShortRow(Rows(ts), row);
    FoldAppend(Reader([], []), head, lines, false);
    assert Fold(Reader([], []), head + lines, false) == s;
    FoldAppend(Reader([], []), head + lines, [""], false);
    StripEmpty();
    FoldBlank(s, "", false);
  }

  /** The file the writer leaves after a short row loads back as the rows
      before it and the short row itself; every row after it is lost. */
  lemma ShortRowReloaded(tasks: seq<seq<string>>, ts: seq<Task>, row: seq<string>, rest: seq<seq<string>>)
    requires forall i :: 0 <= i < |ts| ==> Fits(ts[i], false)
    requires |row| == 3 && Clean(row[0]) && Clean(row[1]) && Clean(row[2])
    ensures Load(tasks, Some(Join(WriteRows(Rows(ts) + [row] + rest).lines))) == Rows(ts) + [row]
  {
    ShortRowTruncates(ts, row, rest);
    AllFitIndex(ts, false);
    FoldShortFile(ts, row);
  }

  /** As written: once a task with an empty description has been saved and
      loaded, the next save stops at its three-value row. A task added then
      is never stored, and the file loads back as it was. */
  lemma AddAfterEmptyDescriptionLost(t: Task, u: Task)
    requires t.description == ""
    requires Clean(t.name) && Clean(t.priority) && Clean(t.dueDate)
    ensures var rows := Load([], Some(Serialise([t])));
      && WriteRows(rows + [Row(u)]).raised
      && Load(rows, Some(Join(WriteRows(rows + [Row(u)]).lines))) == rows
  {
    EmptyDescriptionLost([], t);
    var row := [t.name, t.priority, t.dueDate];
    var rows := Load([], Some(Serialise([t])));
    assert rows == [row];
    assert Rows([]) == [];
    assert Rows([]) + [row] + [Row(u)] == rows + [Row(u)];
    ShortRowReloaded(rows, [], row, [Row(u)]);
  }

  /** Corrected: the reader keeps all four values, so the next save writes
      every row and the added task is loaded back after the saved one. */
  lemma AddAfterEmptyDescriptionKept(t: Task, u: Task)
    requires Fits(t, true) && Fits(u, true)
    ensures var rows := LoadFixed([], Some(Serialise([t])));
      && !WriteRows(rows + [Row(u)]).raised
      && LoadFixed(rows, Some(Join(WriteRows(rows + [Row(u)]).lines))) == rows + [Row(u)]
  {
    LoadFixedSaved([], [t]);
    var rows := LoadFixed([], Some(Serialise([t])));
    RowsAppend([t], u);
    assert [t] + [u] == [t, u];
    assert rows + [Row(u)] == Rows([t, u]);
    SerialiseWritesRows([t, u]);
    LoadFixedSaved(rows, [t, u]);
  }
}
