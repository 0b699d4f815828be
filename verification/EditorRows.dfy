/**
 The rows of the editor in apps/editor/editor.c: tab rendering, the text of the file, and the
 editing operations at the cursor.
 */
module EditorRows {
  import opened Common

  const TAB: char := '\t'

  /** The width of a tab at a column: up to the next column that is 7 modulo 8, and at least one. */
  function TabWidth(column: nat): (w: nat)
    ensures 1 <= w <= 8 && (column + w) % 8 == 7
  {
    8 - (column + 1) % 8
  }

  function Spaces(n: nat): (s: seq<char>)
    ensures |s| == n && forall i :: 0 <= i < n ==> s[i] == ' '
  {
    seq(n, _ => ' ')
  }

  /** A row as it is shown. */
  function Rendered(chars: seq<char>): seq<char> {
    if chars == [] then [] else
      var (front, c) := (Rendered(chars[..|chars| - 1]), chars[|chars| - 1]);
      if c == TAB then front + Spaces(TabWidth(|front|)) else front + [c]
  }

  function Tabs(chars: seq<char>): nat {
    if chars == [] then 0 else Tabs(chars[..|chars| - 1]) + if chars[|chars| - 1] == TAB then 1 else 0
  }

  /** Every character but a tab is shown at its column, and a tab as spaces up to the next column that is 7 modulo 8. */
  lemma {:induction false} RenderedAt(chars: seq<char>, j: nat)
    requires j < |chars|
    ensures var (from, to) := (|Rendered(chars[..j])|, |Rendered(chars[..j + 1])|);
            && from < to <= |Rendered(chars)|
            && (chars[j] != TAB ==> to == from + 1 && Rendered(chars)[from] == chars[j])
            && (chars[j] == TAB ==>
                  && to % 8 == 7 && to <= from + 8
                  && forall k :: from <= k < to ==> Rendered(chars)[k] == ' ')
  {
    var front := chars[..|chars| - 1];
    if j < |chars| - 1 {
      RenderedAt(front, j);
      assert front[..j] == chars[..j] && front[..j + 1] == chars[..j + 1];
    } else {
      assert chars[..j] == front && chars[..j + 1] == chars;
    }
  }

  /** Every tab takes at most eight columns. */
  lemma {:induction false} RenderedBound(chars: seq<char>)
    ensures |Rendered(chars)| <= |chars| + 7 * Tabs(chars)
  {
    if chars != [] {
      RenderedBound(chars[..|chars| - 1]);
    }
  }

  lemma {:induction false} TabsPrefix(chars: seq<char>, n: nat)
    requires n <= |chars|
    ensures Tabs(chars[..n]) <= Tabs(chars)
  {
    if n < |chars| {
      var front := chars[..|chars| - 1];
      TabsPrefix(front, n);
      assert chars[..n] == front[..n];
    } else {
      assert chars[..n] == chars;
    }
  }

  /** The first loop of editorUpdateRow. */
  method CountTabs(chars: seq<char>) returns (tabs: nat)
    ensures tabs == Tabs(chars)
  {
    tabs := 0;
    for j := 0 to |chars|
      invariant tabs == Tabs(chars[..j])
    {
      assert chars[..j + 1][..j] == chars[..j];
      if chars[j] == TAB {
        tabs := tabs + 1;
      }
    }
    assert chars[..|chars|] == chars;
  }

  /** The tab of the second loop of editorUpdateRow: one space, then more up to the next stop. */
  method RenderTab(buf: array<char>, from: nat) returns (idx: nat)
    requires from + TabWidth(from) <= buf.Length
    modifies buf
    ensures idx == from + TabWidth(from)
    ensures buf[..idx] == old(buf[..from]) + Spaces(TabWidth(from))
  {
    buf[from] := ' ';
    idx := from + 1;
    while (idx + 1) % 8 != 0
      invariant from < idx <= from + TabWidth(from)
      invariant buf[..idx] == old(buf[..from]) + Spaces(idx - from)
      decreases from + TabWidth(from) - idx
    {
      buf[idx] := ' ';
      idx := idx + 1;
    }
  }

  /** The buffer that editorUpdateRow allocates is large enough; it holds the rendered row and a final NUL. */
  method RenderBuffer(chars: seq<char>) returns (buf: array<char>, idx: nat)
    ensures fresh(buf) && buf.Length == |chars| + Tabs(chars) * 8 + 1
    ensures idx < buf.Length && buf[..idx] == Rendered(chars) && buf[idx] == '\0'
  {
    var tabs := CountTabs(chars);
    buf := new char[|chars| + tabs * 8 + 1];
    idx := 0;
    for j := 0 to |chars|
      invariant idx <= buf.Length && buf[..idx] == Rendered(chars[..j])
    {
      assert chars[..j + 1][..j] == chars[..j];
      RenderedBound(chars[..j + 1]);
      TabsPrefix(chars, j + 1);
      if chars[j] == TAB {
        idx := RenderTab(buf, idx);
      } else {
        buf[idx] := chars[j];
        idx := idx + 1;
      }
    }
    assert chars[..|chars|] == chars;
    RenderedBound(chars);
    buf[idx] := '\0';
  }

  /** editorUpdateRow: what a row shows, which is its buffer up to the NUL. */
  method UpdateRow(chars: seq<char>) returns (render: seq<char>)
    ensures render == Rendered(chars)
  {
    var buf, rsize := RenderBuffer(chars);
    render := buf[..rsize];
  }

  /** The column of the character at `n`; beyond the end of the row every step is one column. */
  function Column(chars: seq<char>, n: nat): nat {
    if n <= |chars| then |Rendered(chars[..n])| else |Rendered(chars)| + (n - |chars|)
  }

  lemma ColumnStep(chars: seq<char>, n: nat)
    ensures Column(chars, n + 1) ==
            Column(chars, n) + if n < |chars| && chars[n] == TAB then TabWidth(Column(chars, n)) else 1
  {
    if n < |chars| {
      assert chars[..n + 1][..n] == chars[..n];
    } else {
      assert chars[..|chars|] == chars;
    }
  }

  /**
   The cursor loop of editorRefreshScreen. The screen column is one more than the column that the cursor's
   character has in the row shown from `coloff` on; with `coloff` zero, in the row itself. The loop reads in front of
   the row, for which there is no column, exactly when a negative offset meets a cursor that is not at the left edge.
   */
  method CursorColumn(chars: seq<char>, coloff: int, cx: nat) returns (column: Option<nat>)
    ensures column.None? <==> coloff < 0 < cx
    ensures column.Some? ==> column.value == Column(if 0 <= coloff <= |chars| then chars[coloff..] else [], cx) + 1
    ensures column.Some? && coloff == 0 ==> column.value == Column(chars, cx) + 1
  {
    ghost var shown := if 0 <= coloff <= |chars| then chars[coloff..] else [];
    var n, j := 1, coloff;
    while j < cx + coloff
      invariant coloff <= j <= cx + coloff && (coloff < j ==> coloff >= 0)
      invariant n == Column(shown, j - coloff) + 1
    {
      if j < 0 {
        return None;
      }
      ColumnStep(shown, j - coloff);
      if j < |chars| && chars[j] == TAB {
        n := n + (7 - n % 8);
      }
      n := n + 1;
      j := j + 1;
    }
    assert coloff == 0 ==> shown == chars;
    column := Some(n);
  }
}
