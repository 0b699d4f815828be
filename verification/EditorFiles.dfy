/**
 Saving and opening a file in apps/editor/editor.c: the lines that the text of the rows is read back as.
 */
module EditorFiles {
  import opened EditorRows
  import opened Editor

  /** The length of the first line with its newline, if it has one. */
  function FirstLine(text: seq<char>): (n: nat)
    requires text != []
    ensures 0 < n <= |text| && '\n' !in text[..n - 1] && (n < |text| ==> text[n - 1] == '\n')
  {
    if text[0] == '\n' || |text| == 1 then 1 else
      var n := FirstLine(text[1..]);
      assert text[..n] == [text[0]] + text[1..][..n - 1];
      1 + n
  }

  /** A line as getline reads it, without one final newline or carriage return. */
  function Stripped(line: seq<char>): seq<char> {
    if line != [] && (line[|line| - 1] == '\n' || line[|line| - 1] == '\r') then line[..|line| - 1] else line
  }

  /** The lines of a file. */
  function LinesOf(text: seq<char>): seq<seq<char>> {
    if text == [] then [] else [Stripped(text[..FirstLine(text)])] + LinesOf(text[FirstLine(text)..])
  }

  lemma {:induction false} TextFront(line: seq<char>, lines: seq<seq<char>>)
    ensures Text([line] + lines) == line + ['\n'] + Text(lines)
    decreases |lines|
  {
    var all := [line] + lines;
    if lines == [] {
      assert all == [line] && all[..0] == [];
    } else {
      var k := |lines| - 1;
      TextFront(line, lines[..k]);
      assert all[..k + 1] == [line] + lines[..k];
    }
  }

  ghost predicate NoNewline(lines: seq<seq<char>>) {
    forall i :: 0 <= i < |lines| ==> '\n' !in lines[i]
  }

  lemma {:induction false} FirstLineIs(line: seq<char>, rest: seq<char>)
    requires '\n' !in line
    ensures FirstLine(line + ['\n'] + rest) == |line| + 1
  {
    var text := line + ['\n'] + rest;
    if line != [] {
      FirstLineIs(line[1..], rest);
      assert text[1..] == line[1..] + ['\n'] + rest;
    }
  }

  /** Lines without newlines come back from the text of the file. */
  lemma {:induction false} LinesOfText(lines: seq<seq<char>>)
    requires NoNewline(lines)
    ensures LinesOf(Text(lines)) == lines
    decreases |lines|
  {
    if lines != [] {
      var (line, rest) := (lines[0], lines[1..]);
      assert lines == [line] + rest;
      TextFront(line, rest);
      LinesOfText(rest);
      FirstLineIs(line, Text(rest));
      var text := line + ['\n'] + Text(rest);
      assert text[..|line| + 1] == line + ['\n'] && text[|line| + 1..] == Text(rest);
      assert Stripped(line + ['\n']) == line;
    }
  }

  lemma {:induction false} LinesOfClean(text: seq<char>)
    ensures NoNewline(LinesOf(text))
    decreases |text|
  {
    if text != [] {
      var n := FirstLine(text);
      LinesOfClean(text[n..]);
      var line := text[..n];
      assert Stripped(line) == line || Stripped(line) == text[..n - 1];
      assert line == text[..n - 1] + [text[n - 1]];
    }
  }

  /** A file that is saved and opened again has the same lines if and only if no line holds a newline. */
  lemma SavedAndOpened(lines: seq<seq<char>>)
    ensures LinesOf(Text(lines)) == lines <==> NoNewline(lines)
  {
    LinesOfClean(Text(lines));
    if NoNewline(lines) {
      LinesOfText(lines);
    }
  }

  /** A row that holds a newline, which a key can put there, comes back as two. */
  lemma NewlineInRow()
    ensures LinesOf(Text([['\n']])) != [['\n']]
  {
    var lines := [['\n']];
    assert '\n' in lines[0];
    SavedAndOpened(lines);
  }

  lemma LinesNext(lines: seq<seq<char>>, text: seq<char>)
    requires text != []
    ensures var (n, k) := (FirstLine(text), |lines|);
            WithRow(lines, k, Stripped(text[..n])) + LinesOf(text[n..]) == lines + LinesOf(text)
  {
    var n := FirstLine(text);
    AppendRow(lines, Stripped(text[..n]), LinesOf(text[n..]));
  }

  lemma AppendRow(lines: seq<seq<char>>, line: seq<char>, rest: seq<seq<char>>)
    ensures WithRow(lines, |lines|, line) + rest == lines + ([line] + rest)
  {
  }

  /** The loop of editorOpen. */
  method OpenText(e: Editor, text: seq<char>)
    requires Shown(e.rows)
    modifies e`rows, e`dirty
    ensures Shown(e.rows) && Lines(e.rows) == Lines(old(e.rows)) + LinesOf(text)
  {
    ghost var all := Lines(e.rows) + LinesOf(text);
    var rest := text;
    while rest != []
      invariant Shown(e.rows) && Lines(e.rows) + LinesOf(rest) == all
      decreases |rest|
    {
      var n := FirstLine(rest);
      LinesNext(Lines(e.rows), rest);
      e.InsertRow(|e.rows|, Stripped(rest[..n]));
      rest := rest[n..];
    }
  }

  /** Saving the rows and opening the file in a new editor. */
  method SaveAndOpen(rows: seq<Row>) returns (e: Editor)
    ensures fresh(e) && Shown(e.rows) && (Lines(e.rows) == Lines(rows) <==> NoNewline(Lines(rows)))
  {
    var buf, buflen := RowsToString(rows);
    e := new Editor(1, 1);
    assert buf[..buflen] == Text(Lines(rows));
    OpenText(e, buf[..buflen]);
    assert Lines([]) == [] && Lines(e.rows) == LinesOf(Text(Lines(rows)));
    SavedAndOpened(Lines(rows));
  }
}
