/**
 Editing at the cursor in apps/editor/editor.c: the row operations, inserting and deleting a
 character, and splitting and joining rows.
 */
module Editor {
  import opened EditorRows

  datatype Row = Row(chars: seq<char>, render: seq<char>)

  function Lines(rows: seq<Row>): seq<seq<char>> {
    seq(|rows|, i requires 0 <= i < |rows| => rows[i].chars)
  }

  /** The file: every line and a newline. */
  function Text(lines: seq<seq<char>>): seq<char> {
    if lines == [] then [] else Text(lines[..|lines| - 1]) + lines[|lines| - 1] + ['\n']
  }

  /** Every row shows its own characters. */
  ghost predicate Shown(rows: seq<Row>) {
    forall i :: 0 <= i < |rows| ==> rows[i].render == Rendered(rows[i].chars)
  }

  /** One row put in at `at`, and one row taken out. */
  function WithRow(lines: seq<seq<char>>, at: nat, line: seq<char>): seq<seq<char>>
    requires at <= |lines|
  {
    lines[..at] + [line] + lines[at..]
  }

  function WithoutRow(lines: seq<seq<char>>, at: nat): seq<seq<char>>
    requires at < |lines|
  {
    lines[..at] + lines[at + 1..]
  }

  lemma LinesInsert(rows: seq<Row>, at: nat, row: Row)
    requires at <= |rows| && Shown(rows) && row.render == Rendered(row.chars)
    ensures var now := rows[..at] + [row] + rows[at..]; Shown(now) && Lines(now) == WithRow(Lines(rows), at, row.chars)
  {
    var now := rows[..at] + [row] + rows[at..];
    forall i | 0 <= i < |now|
      ensures now[i].render == Rendered(now[i].chars) && Lines(now)[i] == WithRow(Lines(rows), at, row.chars)[i]
    {
      assert now[i] == if i < at then rows[i] else if i == at then row else rows[i - 1];
    }
  }

  /** A line with one more character; a position beyond its end is reached by spaces. */
  function WithChar(line: seq<char>, at: nat, c: char): seq<char> {
    if at > |line| then line + Spaces(at - |line|) + [c] else line[..at] + [c] + line[at..]
  }

  /** A line without a character; a position beyond its end removes nothing. */
  function WithoutChar(line: seq<char>, at: nat): seq<char> {
    if |line| <= at then line else line[..at] + line[at + 1..]
  }

  /** Character by character. */
  lemma WithCharAt(line: seq<char>, at: nat, c: char, k: nat)
    requires k < |WithChar(line, at, c)|
    ensures |WithChar(line, at, c)| == 1 + if at > |line| then at else |line|
    ensures WithChar(line, at, c)[k] ==
            if k == at then c else if k > at then line[k - 1] else if k < |line| then line[k] else ' '
  {
  }

  /** Deleting undoes inserting exactly where the position is within the line. */
  lemma InsertDelete(line: seq<char>, at: nat, c: char)
    ensures WithoutChar(WithChar(line, at, c), at) == line + Spaces(if at > |line| then at - |line| else 0)
    ensures WithoutChar(WithChar(line, at, c), at) == line <==> at <= |line|
  {
  }

  /** A line split in two, and a line joined to the one before it. */
  function SplitLine(lines: seq<seq<char>>, r: nat, c: nat): seq<seq<char>>
    requires r < |lines| && c <= |lines[r]|
  {
    lines[..r] + [lines[r][..c], lines[r][c..]] + lines[r + 1..]
  }

  function JoinLine(lines: seq<seq<char>>, r: nat): seq<seq<char>>
    requires 0 < r < |lines|
  {
    lines[..r - 1] + [lines[r - 1] + lines[r]] + lines[r + 1..]
  }

  /** The line `r` is cut after `c` characters, and the lines behind it move on. */
  lemma SplitAt(lines: seq<seq<char>>, r: nat, c: nat, k: nat)
    requires r < |lines| && c <= |lines[r]| && k <= |lines|
    ensures |SplitLine(lines, r, c)| == |lines| + 1
    ensures SplitLine(lines, r, c)[k] ==
            if k < r then lines[k] else if k == r then lines[r][..c] else if k == r + 1 then lines[r][c..]
            else lines[k - 1]
  {
  }

  lemma JoinSplit(lines: seq<seq<char>>, r: nat, c: nat)
    requires r < |lines| && c <= |lines[r]|
    ensures JoinLine(SplitLine(lines, r, c), r + 1) == lines
  {
    var s := SplitLine(lines, r, c);
    assert s[..r] == lines[..r] && s[r + 2..] == lines[r + 1..];
    assert s[r] + s[r + 1] == lines[r];
    assert lines == lines[..r] + [lines[r]] + lines[r + 1..];
  }

  lemma SplitAtStart(lines: seq<seq<char>>, r: nat)
    requires r < |lines|
    ensures WithRow(lines, r, []) == SplitLine(lines, r, 0)
  {
    assert lines[r..] == [lines[r]] + lines[r + 1..];
    assert lines[r][..0] == [] && lines[r][0..] == lines[r];
  }

  lemma SplitInside(lines: seq<seq<char>>, r: nat, c: nat)
    requires r < |lines| && c <= |lines[r]|
    ensures WithRow(lines, r + 1, lines[r][c..])[r := lines[r][..c]] == SplitLine(lines, r, c)
  {
    assert lines[..r + 1] == lines[..r] + [lines[r]];
  }

  /** The lines with enough empty ones after them that there are at least `n`. */
  function Extended(lines: seq<seq<char>>, n: nat): (e: seq<seq<char>>)
    ensures |e| == if n <= |lines| then |lines| else n
  {
    if n <= |lines| then lines else lines + seq(n - |lines|, _ => [])
  }

  function MinOf(a: nat, b: nat): nat {
    if a <= b then a else b
  }

  class Editor {
    var rows: seq<Row>
    var cx: int
    var cy: int
    var rowoff: int
    var coloff: int
    var dirty: int
    const screenrows: int
    const screencols: int

    function FileRow(): int
      reads this`rowoff, this`cy
    {
      rowoff + cy
    }

    function FileCol(): int
      reads this`coloff, this`cx
    {
      coloff + cx
    }

    /** The cursor is somewhere in the plane of the file, and every row is rendered. */
    ghost predicate Valid()
      reads this
    {
      FileRow() >= 0 && FileCol() >= 0 && Shown(rows)
    }

    /** The cursor is on the screen. */
    predicate OnScreen()
      reads this
    {
      0 <= rowoff && 0 <= coloff && 0 <= cx < screencols && 0 <= cy < screenrows
    }

    constructor (screenrows: int, screencols: int)
      requires screenrows > 0 && screencols > 0
      ensures Valid() && OnScreen() && rows == [] && FileRow() == FileCol() == 0
      ensures this.screenrows == screenrows && this.screencols == screencols
    {
      rows, cx, cy, rowoff, coloff, dirty := [], 0, 0, 0, 0, 0;
      this.screenrows, this.screencols := screenrows, screencols;
    }

    /** editorInsertRow. */
    method InsertRow(at: nat, s: seq<char>)
      requires Shown(rows)
      modifies this`rows, this`dirty
      ensures Shown(rows)
      ensures Lines(rows) == if at <= |old(rows)| then WithRow(Lines(old(rows)), at, s) else Lines(old(rows))
    {
      if at > |rows| {
        return;
      }
      var render := UpdateRow(s);
      LinesInsert(rows, at, Row(s, render));
      rows := rows[..at] + [Row(s, render)] + rows[at..];
      dirty := dirty + 1;
    }

    /** editorDelRow. */
    method DelRow(at: nat)
      requires Shown(rows)
      modifies this`rows, this`dirty
      ensures Shown(rows)
      ensures Lines(rows) == if at < |old(rows)| then WithoutRow(Lines(old(rows)), at) else Lines(old(rows))
    {
      if at >= |rows| {
        return;
      }
      rows := rows[..at] + rows[at + 1..];
      dirty := dirty + 1;
    }

    /** New characters for a row, rendered anew. */
    method SetRow(r: nat, chars: seq<char>)
      requires r < |rows| && forall i :: 0 <= i < |rows| && i != r ==> rows[i].render == Rendered(rows[i].chars)
      modifies this`rows
      ensures Shown(rows) && Lines(rows) == Lines(old(rows))[r := chars]
    {
      var render := UpdateRow(chars);
      rows := rows[r := Row(chars, render)];
    }

    /** editorRowInsertChar. */
    method RowInsertChar(r: nat, at: nat, c: char)
      requires Shown(rows) && r < |rows|
      modifies this`rows, this`dirty
      ensures Shown(rows)
      ensures Lines(rows) == Lines(old(rows))[r := WithChar(old(rows)[r].chars, at, c)]
    {
      var chars := rows[r].chars;
      if at > |chars| {
        chars := chars + Spaces(at - |chars|) + [c];
      } else {
        chars := chars[..at] + [c] + chars[at..];
      }
      SetRow(r, chars);
      dirty := dirty + 1;
    }

    /** editorRowAppendString. */
    method RowAppendString(r: nat, s: seq<char>)
      requires Shown(rows) && r < |rows|
      modifies this`rows, this`dirty
      ensures Shown(rows)
      ensures Lines(rows) == Lines(old(rows))[r := old(rows)[r].chars + s]
    {
      SetRow(r, rows[r].chars + s);
      dirty := dirty + 1;
    }

    /** editorRowDelChar: the row is rendered with its old size, so the render keeps a final NUL for a moment. */
    method RowDelChar(r: nat, at: nat)
      requires r < |rows|
      modifies this`rows, this`dirty
      ensures |rows| == |old(rows)| && forall i :: 0 <= i < |rows| && i != r ==> rows[i] == old(rows)[i]
      ensures rows[r].chars == WithoutChar(old(rows)[r].chars, at)
      ensures rows[r].render ==
              if at < |old(rows)[r].chars| then Rendered(rows[r].chars + ['\0']) else old(rows)[r].render
    {
      var chars := rows[r].chars;
      if |chars| <= at {
        return;
      }
      chars := chars[..at] + chars[at + 1..] + ['\0'];
      var render := UpdateRow(chars);
      rows := rows[r := Row(chars[..|chars| - 1], render)];
      dirty := dirty + 1;
    }

    /** The loop of editorInsertChar that adds rows up to the cursor. */
    method AddRows(filerow: nat)
      requires Shown(rows)
      modifies this`rows, this`dirty
      ensures Shown(rows) && Lines(rows) == Extended(Lines(old(rows)), filerow + 1)
    {
      while |rows| <= filerow
        invariant Shown(rows) && |old(rows)| <= |rows| && (|rows| <= filerow + 1 || rows == old(rows))
        invariant Lines(rows) == Extended(Lines(old(rows)), |rows|)
      {
        InsertRow(|rows|, []);
      }
    }

    /** editorInsertChar. */
    method InsertChar(c: char)
      requires Valid()
      modifies this
      ensures Valid() && FileRow() == old(FileRow()) && FileCol() == old(FileCol()) + 1
      ensures old(OnScreen()) ==> OnScreen()
      ensures var lines := Extended(Lines(old(rows)), old(FileRow()) + 1);
              Lines(rows) == lines[old(FileRow()) := WithChar(lines[old(FileRow())], old(FileCol()), c)]
    {
      var (filerow, filecol) := (rowoff + cy, coloff + cx);
      AddRows(filerow);
      RowInsertChar(filerow, filecol, c);
      if cx == screencols - 1 {
        coloff := coloff + 1;
      } else {
        cx := cx + 1;
      }
      dirty := dirty + 1;
    }

    /** The part of editorInsertNewline that splits an existing row. */
    method SplitRow(filerow: nat, filecol: nat)
      requires Shown(rows) && filerow < |rows| && filecol <= |rows[filerow].chars|
      modifies this`rows, this`dirty
      ensures Shown(rows) && Lines(rows) == SplitLine(Lines(old(rows)), filerow, filecol)
    {
      ghost var lines := Lines(rows);
      var chars := rows[filerow].chars;
      if filecol == 0 {
        InsertRow(filerow, []);
        SplitAtStart(lines, filerow);
      } else {
        InsertRow(filerow + 1, chars[filecol..]);
        SetRow(filerow, chars[..filecol]);
        SplitInside(lines, filerow, filecol);
      }
    }

    /** editorInsertNewline. */
    method InsertNewline()
      requires Valid()
      modifies this
      ensures Valid() && (old(OnScreen()) ==> OnScreen())
      ensures old(FileRow()) < |old(rows)| ==>
                Lines(rows) == SplitLine(Lines(old(rows)), old(FileRow()),
                                          MinOf(old(FileCol()), |old(rows)[old(FileRow())].chars|))
      ensures old(FileRow()) == |old(rows)| ==> Lines(rows) == Lines(old(rows)) + [[]]
      ensures old(FileRow()) <= |old(rows)| ==> FileRow() == old(FileRow()) + 1 && cx == 0 && coloff == 0
      ensures old(FileRow()) > |old(rows)| ==>
                rows == old(rows) && FileRow() == old(FileRow()) && FileCol() == old(FileCol())
    {
      var (filerow, filecol) := (rowoff + cy, coloff + cx);
      if filerow >= |rows| {
        if filerow == |rows| {
          InsertRow(filerow, []);
        } else {
          return;
        }
      } else {
        if filecol >= |rows[filerow].chars| {
          filecol := |rows[filerow].chars|;
        }
        SplitRow(filerow, filecol);
      }
      if cy == screenrows - 1 {
        rowoff := rowoff + 1;
      } else {
        cy := cy + 1;
      }
      cx, coloff := 0, 0;
    }

    /** The part of editorDelChar at column zero: the row joins the one before it. */
    method JoinRow(filerow: nat)
      requires Shown(rows) && 0 < filerow < |rows|
      modifies this`rows, this`dirty
      ensures Shown(rows) && Lines(rows) == JoinLine(Lines(old(rows)), filerow)
    {
      ghost var lines := Lines(rows);
      RowAppendString(filerow - 1, rows[filerow].chars);
      DelRow(filerow);
      JoinByParts(lines, filerow);
    }

    /** The cursor after a join; the shift is the source's own, and it keeps only the sum. */
    method ShowJoint(filecol: nat)
      modifies this`cx, this`cy, this`rowoff, this`coloff
      ensures FileRow() == old(FileRow()) - 1 && FileCol() == filecol + old(coloff)
      ensures coloff == old(coloff) + JointShift(filecol, screencols)
      ensures old(OnScreen() && coloff == 0 && FileRow() > 0) ==> (OnScreen() <==> filecol <= screencols)
    {
      if cy == 0 {
        rowoff := rowoff - 1;
      } else {
        cy := cy - 1;
      }
      cx := filecol;
      if cx >= screencols {
        var shift := screencols - cx + 1;
        cx := cx - shift;
        coloff := coloff + shift;
      }
    }

    /** The part of editorDelChar within a row; the last step renders the row again. */
    method DeleteInRow(filerow: nat, at: nat)
      requires Shown(rows) && filerow < |rows| && at + 1 == FileCol()
      modifies this`rows, this`dirty, this`cx, this`coloff
      ensures Shown(rows) && Lines(rows) == Lines(old(rows))[filerow := WithoutChar(old(rows)[filerow].chars, at)]
      ensures FileCol() == at && (old(OnScreen()) ==> OnScreen())
    {
      ghost var lines := Lines(rows);
      RowDelChar(filerow, at);
      assert Lines(rows) == lines[filerow := rows[filerow].chars];
      if cx == 0 && coloff != 0 {
        coloff := coloff - 1;
      } else {
        cx := cx - 1;
      }
      SetRow(filerow, rows[filerow].chars);
    }

    /** editorDelChar. */
    method DelChar()
      requires Valid()
      modifies this
      ensures Shown(rows) && (FileRow() >= 0)
      ensures old(Idle()) ==>
                Lines(rows) == Lines(old(rows)) && FileRow() == old(FileRow()) && FileCol() == old(FileCol())
      ensures !old(Idle()) && old(FileCol()) > 0 ==>
                var (r, at) := (old(FileRow()), old(FileCol()) - 1);
                Lines(rows) == Lines(old(rows))[r := WithoutChar(old(rows)[r].chars, at)] &&
                FileRow() == r && FileCol() == at
      ensures !old(Idle()) && old(FileCol()) == 0 ==>
                var r := old(FileRow());
                Lines(rows) == JoinLine(Lines(old(rows)), r) && FileRow() == r - 1 &&
                FileCol() == |old(rows)[r - 1].chars| + old(coloff) &&
                coloff == old(coloff) + JointShift(|old(rows)[r - 1].chars|, screencols)
      ensures old(OnScreen()) ==>
                (OnScreen() <==>
                 (!old(Idle()) && old(FileCol()) == 0 ==> |old(rows)[old(FileRow()) - 1].chars| <= screencols))
    {
      var (filerow, filecol) := (rowoff + cy, coloff + cx);
      if filerow >= |rows| || (filecol == 0 && filerow == 0) {
        return;
      }
      if filecol == 0 {
        filecol := |rows[filerow - 1].chars|;
        JoinRow(filerow);
        ShowJoint(filecol);
      } else {
        DeleteInRow(filerow, filecol - 1);
      }
      dirty := dirty + 1;
    }

    /** There is nothing to delete: no row, or the start of the file. */
    predicate Idle()
      reads this
    {
      FileRow() >= |rows| || (FileCol() == 0 && FileRow() == 0)
    }

    /** A newline and a deletion give the text back, except on the line after the last one. */
    method NewlineThenDelete()
      requires Valid()
      modifies this
      ensures Text(Lines(rows)) == Text(Lines(old(rows))) <==> old(FileRow()) != |old(rows)|
      ensures old(FileRow()) != |old(rows)| ==> Lines(rows) == Lines(old(rows))
      ensures old(FileRow()) < |old(rows)| ==>
                FileRow() == old(FileRow()) && FileCol() == MinOf(old(FileCol()), |old(rows)[old(FileRow())].chars|)
      ensures old(FileRow()) < |old(rows)| ==> Valid() && coloff == JointShift(FileCol(), screencols)
      ensures old(FileRow()) < |old(rows)| && old(OnScreen()) ==> (OnScreen() <==> FileCol() <= screencols)
    {
      ghost var (lines, r, c) := (Lines(rows), FileRow(), FileCol());
      if r < |rows| {
        JoinSplit(lines, r, MinOf(c, |rows[r].chars|));
      }
      if r == |rows| {
        TextAppend(lines + [[]], |lines|);
        assert (lines + [[]])[..|lines|] == lines && (lines + [[]])[..|lines| + 1] == lines + [[]];
      }
      InsertNewline();
      DelChar();
    }

    /** A character inserted and deleted again: the text comes back exactly where the cursor was within a row. */
    method InsertThenDelete(c: char)
      requires Valid()
      modifies this
      ensures FileRow() == old(FileRow()) && FileCol() == old(FileCol()) && Valid()
      ensures old(OnScreen()) ==> OnScreen()
      ensures Text(Lines(rows)) == Text(Lines(old(rows))) <==>
                old(FileRow()) < |old(rows)| && old(FileCol()) <= |old(rows)[old(FileRow())].chars|
    {
      ghost var (lines, r, at) := (Lines(rows), FileRow(), FileCol());
      InsertDeleteLines(lines, r, at, c);
      InsertChar(c);
      DelChar();
    }
  }

  /** By how much a join moves the screen: not at all for a short row, and to the left for a long one. */
  function JointShift(column: int, screencols: int): int {
    if column >= screencols then screencols - column + 1 else 0
  }

  /** Three characters typed on a screen of one column, a newline and a deletion: the screen starts left of the row. */
  method JoinLeavesScreen() returns (e: Editor)
    ensures fresh(e) && e.Valid() && !e.OnScreen() && e.coloff == -1 && e.cx == 4
  {
    e := new Editor(1, 1);
    TypeAtEnd(e, 'a', 0);
    TypeAtEnd(e, 'b', 1);
    TypeAtEnd(e, 'c', 2);
    e.NewlineThenDelete();
  }

  /** One character typed at the end of the first row. */
  method TypeAtEnd(e: Editor, c: char, n: nat)
    requires e.Valid() && e.OnScreen() && e.FileRow() == 0 && e.FileCol() == n
    requires if n == 0 then e.rows == [] else |e.rows| == 1 && |e.rows[0].chars| == n
    modifies e
    ensures e.Valid() && e.OnScreen() && e.FileRow() == 0 && e.FileCol() == n + 1
    ensures |e.rows| == 1 && |e.rows[0].chars| == n + 1
  {
    ghost var lines := Extended(Lines(e.rows), 1);
    assert |lines| == 1 && |lines[0]| == n;
    WithCharAt(lines[0], n, c, n);
    e.InsertChar(c);
    assert |Lines(e.rows)| == 1 && Lines(e.rows)[0] == e.rows[0].chars;
  }

  lemma InsertDeleteLines(lines: seq<seq<char>>, r: nat, at: nat, c: char)
    ensures var e := Extended(lines, r + 1);
            var i := e[r := WithChar(e[r], at, c)];
            Text(i[r := WithoutChar(i[r], at)]) == Text(lines) <==> r < |lines| && at <= |lines[r]|
  {
    var e := Extended(lines, r + 1);
    InsertDelete(e[r], at, c);
    var line := WithoutChar(WithChar(e[r], at, c), at);
    assert e[r := WithChar(e[r], at, c)][r := line] == e[r := line];
    TextUpdate(e, r, line);
    TextExtended(lines, r + 1);
    if r < |lines| && at <= |lines[r]| {
      assert e[r := line] == lines;
    }
  }

  lemma {:induction false} TextUpdate(lines: seq<seq<char>>, r: nat, line: seq<char>)
    requires r < |lines|
    ensures |Text(lines[r := line])| == |Text(lines)| + |line| - |lines[r]|
  {
    var n := |lines| - 1;
    if r == n {
      assert lines[r := line][..n] == lines[..n];
    } else {
      TextUpdate(lines[..n], r, line);
      assert lines[r := line][..n] == lines[..n][r := line];
    }
  }

  lemma {:induction false} TextExtended(lines: seq<seq<char>>, n: nat)
    ensures |Text(Extended(lines, n))| == |Text(lines)| + |Extended(lines, n)| - |lines|
  {
    if n > |lines| {
      TextExtended(lines, n - 1);
      assert Extended(lines, n)[..n - 1] == Extended(lines, n - 1);
    }
  }

  lemma JoinByParts(lines: seq<seq<char>>, r: nat)
    requires 0 < r < |lines|
    ensures WithoutRow(lines[r - 1 := lines[r - 1] + lines[r]], r) == JoinLine(lines, r)
  {
  }

  lemma TextAppend(lines: seq<seq<char>>, n: nat)
    requires n < |lines|
    ensures Text(lines[..n + 1]) == Text(lines[..n]) + lines[n] + ['\n']
  {
    assert lines[..n + 1][..n] == lines[..n];
  }

  /** editorRowsToString: the buffer is exactly large enough, and it holds the text and a final NUL. */
  method RowsToString(rows: seq<Row>) returns (buf: array<char>, buflen: nat)
    ensures fresh(buf) && buf[..] == Text(Lines(rows)) + ['\0'] && buflen == |Text(Lines(rows))|
  {
    ghost var lines := Lines(rows);
    buflen := 0;
    for j := 0 to |rows|
      invariant buflen == |Text(lines[..j])|
    {
      TextAppend(lines, j);
      buflen := buflen + |rows[j].chars| + 1;
    }
    assert lines[..|rows|] == lines;
    buf := new char[buflen + 1];
    var p: nat := 0;
    for j := 0 to |rows|
      invariant p == |Text(lines[..j])| && p <= buflen && buf[..p] == Text(lines[..j])
    {
      TextAppend(lines, j);
      TextGrows(lines, j + 1);
      p := CopyLine(buf, p, rows[j].chars);
    }
    buf[p] := '\0';
  }

  lemma {:induction false} TextGrows(lines: seq<seq<char>>, n: nat)
    requires n <= |lines|
    ensures |Text(lines[..n])| <= |Text(lines)|
    decreases |lines| - n
  {
    if n < |lines| {
      TextAppend(lines, n);
      TextGrows(lines, n + 1);
    } else {
      assert lines[..n] == lines;
    }
  }

  method CopyLine(buf: array<char>, p: nat, line: seq<char>) returns (next: nat)
    requires p + |line| + 1 <= buf.Length
    modifies buf
    ensures next == p + |line| + 1 && buf[..next] == old(buf[..p]) + line + ['\n']
  {
    for i := 0 to |line|
      invariant buf[..p + i] == old(buf[..p]) + line[..i]
    {
      buf[p + i] := line[i];
    }
    buf[p + |line|] := '\n';
    next := p + |line| + 1;
  }
}
