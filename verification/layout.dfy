/** The row assembler and the interleaving of art lines with rows that the
    program's entry point performs: each displayable row is printed beside
    the next art line, then the remaining art lines are drained. */
module Layout {
  import opened Wrappers
  import Art

  /** One label/value row; either part may be a null pointer. */
  datatype InfoRow = InfoRow(name: Option<string>, value: Option<string>)

  /** A row is printed when both parts are present and the value is not
      the empty string. */
  predicate Displayable(row: InfoRow) {
    row.name.Some? && row.value.Some? && |row.value.value| > 0
  }

  /** The text printed after the art on a displayable row's line. */
  function RowText(row: InfoRow): string
    requires Displayable(row)
  {
    row.name.value + row.value.value
  }

  /** The positions of the displayable rows, in increasing order. */
  function ShownIndices(rows: seq<InfoRow>): (idx: seq<nat>)
    ensures |idx| <= |rows|
    ensures forall k :: 0 <= k < |idx| ==> idx[k] < |rows| && Displayable(rows[idx[k]])
    decreases |rows|
  {
    if |rows| == 0 then []
    else
      var front := rows[..|rows| - 1];
      assert forall i :: 0 <= i < |front| ==> front[i] == rows[i];
      ShownIndices(front) + (if Displayable(rows[|rows| - 1]) then [|rows| - 1] else [])
  }

  /** The rows printed are exactly the displayable ones, in their order:
      every listed position holds a displayable row, the positions
      increase, and no displayable row is left out. */
  lemma {:induction false} ShownIndicesExact(rows: seq<InfoRow>)
    ensures var idx := ShownIndices(rows);
      && (forall k :: 0 <= k < |idx| ==> idx[k] < |rows| && Displayable(rows[idx[k]]))
      && (forall k, m :: 0 <= k < m < |idx| ==> idx[k] < idx[m])
      && (forall i :: 0 <= i < |rows| && Displayable(rows[i]) ==> i in idx)
    decreases |rows|
  {
    if |rows| > 0 {
      var front := rows[..|rows| - 1];
      ShownIndicesExact(front);
      assert forall i :: 0 <= i < |front| ==> front[i] == rows[i];
      var idx' := ShownIndices(front);
      assert forall k :: 0 <= k < |idx'| ==> idx'[k] < |rows| - 1;
    }
  }

  /** The texts of the displayable rows, in order: what the row loop
      prints beside the art. */
  function ShownTexts(rows: seq<InfoRow>): (texts: seq<string>)
    ensures |texts| <= |rows|
    decreases |rows|
  {
    if |rows| == 0 then []
    else
      var last := rows[|rows| - 1];
      ShownTexts(rows[..|rows| - 1]) + (if Displayable(last) then [RowText(last)] else [])
  }

  /** The printed texts are those of the displayable positions. */
  lemma {:induction false} ShownTextsAtIndices(rows: seq<InfoRow>)
    ensures |ShownTexts(rows)| == |ShownIndices(rows)|
    ensures forall k :: 0 <= k < |ShownTexts(rows)| ==>
      ShownTexts(rows)[k] == RowText(rows[ShownIndices(rows)[k]])
    decreases |rows|
  {
    if |rows| > 0 {
      var front := rows[..|rows| - 1];
      ShownTextsAtIndices(front);
      assert forall i :: 0 <= i < |front| ==> front[i] == rows[i];
    }
  }

  /** Undefined behaviour the source runs into, made explicit. */
  datatype Fault =
    | RowIndexOverrun   // the skip loop read the row past the end of the table
    | ArtOverrun        // the art cursor was read one past the terminator

  /** The printed lines (each followed by a line break), or the fault. */
  datatype Outcome = Done(lines: seq<string>) | Failed(fault: Fault)

  /** Line `k` of the reference layout: art piece `k` padded to `width`,
      followed by the text of the k-th displayable row when there is one. */
  function LineAt(rows: seq<InfoRow>, pieces: seq<string>, width: nat, k: nat): string
    requires k < |pieces|
  {
    var texts := ShownTexts(rows);
    Art.Pad(pieces[k], width) + (if k < |texts| then texts[k] else "")
  }

  /** The first `n` lines of the reference layout. */
  function Lines(rows: seq<InfoRow>, pieces: seq<string>, width: nat, n: nat): (lines: seq<string>)
    requires n <= |pieces|
    ensures |lines| == n
  {
    if n == 0 then [] else Lines(rows, pieces, width, n - 1) + [LineAt(rows, pieces, width, n - 1)]
  }

  /** Line `k` of any prefix of the reference layout is `LineAt` k. */
  lemma {:induction false} LinesIndex(rows: seq<InfoRow>, pieces: seq<string>, width: nat, n: nat)
    requires n <= |pieces|
    ensures forall k :: 0 <= k < n ==> Lines(rows, pieces, width, n)[k] == LineAt(rows, pieces, width, k)
  {
    if n > 0 {
      LinesIndex(rows, pieces, width, n - 1);
    }
  }

  /** The reference layout over the art's pieces: they are drawn in order
      at `width`, the first ones beside the displayable rows in their order,
      the rest with nothing beside them, until the terminator is met. The
      skip loop runs past the table when the last row is not displayable;
      the art is read past its terminator when it has fewer pieces than
      there are rows to print or its last line is not ended by a break. */
  function Arrange(rows: seq<InfoRow>, pieces: seq<string>, width: nat): Outcome
    requires |pieces| >= 1
  {
    var shown := |ShownTexts(rows)|;
    if shown > |pieces| then Failed(ArtOverrun)
    else if |rows| > 0 && !Displayable(rows[|rows| - 1]) then Failed(RowIndexOverrun)
    else if shown == |pieces| || pieces[|pieces| - 1] != "" then Failed(ArtOverrun)
    else Done(Lines(rows, pieces, width, |pieces| - 1))
  }

  /** The reference layout of the rows beside `art`: its pieces at its
      square width. */
  function ExpectedRender(rows: seq<InfoRow>, art: string): Outcome {
    Arrange(rows, Art.Split(art), Art.SquareWidthOf(art))
  }

  /** The prefix of the rows has the displayable positions that are below
      the prefix length, in the same order. */
  lemma {:induction false} ShownPrefix(rows: seq<InfoRow>, i: nat)
    requires i <= |rows|
    ensures ShownTexts(rows[..i]) <= ShownTexts(rows)
    decreases |rows| - i
  {
    if i < |rows| {
      ShownPrefix(rows, i + 1);
      var front := rows[..i + 1];
      assert front[..i] == rows[..i];
      assert ShownTexts(rows[..i]) <= ShownTexts(front);
    } else {
      assert rows[..i] == rows;
    }
  }

  lemma ArrangeArtOverrun(rows: seq<InfoRow>, pieces: seq<string>, width: nat)
    requires |pieces| >= 1
    requires |ShownTexts(rows)| > |pieces|
      || ((|rows| == 0 || Displayable(rows[|rows| - 1]))
          && (|ShownTexts(rows)| == |pieces| || pieces[|pieces| - 1] != ""))
    ensures Arrange(rows, pieces, width) == Failed(ArtOverrun)
  {
  }

  lemma ArrangeRowOverrun(rows: seq<InfoRow>, pieces: seq<string>, width: nat)
    requires |pieces| >= 1 && |ShownTexts(rows)| <= |pieces|
    requires |rows| > 0 && !Displayable(rows[|rows| - 1])
    ensures Arrange(rows, pieces, width) == Failed(RowIndexOverrun)
  {
  }

  lemma ArrangeDone(rows: seq<InfoRow>, pieces: seq<string>, width: nat, out: seq<string>)
    requires |rows| == 0 || Displayable(rows[|rows| - 1])
    requires |ShownTexts(rows)| <= |out| == |pieces| - 1
    requires pieces[|out|] == ""
    requires out == Lines(rows, pieces, width, |out|)
    ensures Arrange(rows, pieces, width) == Done(out)
  {
  }

  /** Looking at one more row adds its position when it is displayable. */
  lemma ShownSnoc(rows: seq<InfoRow>, i: nat)
    requires i < |rows|
    ensures ShownTexts(rows[..i + 1]) ==
      ShownTexts(rows[..i]) + (if Displayable(rows[i]) then [RowText(rows[i])] else [])
  {
    assert rows[..i + 1][..i] == rows[..i];
  }

  /** A call of the line drawer with the cursor at the start of piece
      `drawn`. The cursor after the last piece is one past the terminator;
      drawing from there would read beyond the text, reported as `None`. */
  method DrawStep(art: string, width: nat, ghost pieces: seq<string>, ghost drawn: nat, cursor: nat)
    returns (r: Option<Art.Drawn>)
    requires Art.Cuts(art, pieces) && drawn <= |pieces|
    requires cursor == Art.Offset(pieces, drawn)
    ensures r.None? <==> drawn == |pieces|
    ensures r.Some? ==>
      r.value == Art.Drawn(Art.Pad(pieces[drawn], width), Art.Offset(pieces, drawn + 1))
  {
    if drawn < |pieces| {
      Art.CutsDraw(art, pieces, drawn, width);
    }
    if cursor > |art| {
      return None;
    }
    return Some(Art.DrawLine(art, cursor, width));
  }

  /** What the row loop has done after examining the rows before `i`:
      one line per displayable row among them, each the reference line,
      with the cursor at the start of the next art piece. */
  predicate RowsDrawn(rows: seq<InfoRow>, pieces: seq<string>, width: nat, i: nat, cursor: nat, out: seq<string>)
  {
    && i <= |rows|
    && |ShownTexts(rows[..i])| <= |ShownTexts(rows)|
    && |out| == |ShownTexts(rows[..i])| <= |pieces|
    && cursor == Art.Offset(pieces, |out|)
    && out == Lines(rows, pieces, width, |out|)
    && (i > 0 ==> Displayable(rows[i - 1]))
  }

  /** One pass of the row loop body: the displayable row at position `j`
      is the next displayable row, and the line printed for it is the next
      line of the reference layout. */
  lemma RowStep(rows: seq<InfoRow>, pieces: seq<string>, width: nat, j: nat, out: seq<string>, text: string)
    requires j < |rows| && Displayable(rows[j])
    requires |out| == |ShownTexts(rows[..j])| < |pieces|
    requires out == Lines(rows, pieces, width, |out|)
    requires text == Art.Pad(pieces[|out|], width)
    ensures RowsDrawn(rows, pieces, width, j + 1, Art.Offset(pieces, |out| + 1), out + [text + RowText(rows[j])])
  {
    ShownSnoc(rows, j);
    ShownPrefix(rows, j + 1);
  }

  /** Skipped rows add no displayable position. */
  lemma {:induction false} ShownSkip(rows: seq<InfoRow>, i: nat, j: nat)
    requires i <= j <= |rows|
    requires forall m :: i <= m < j ==> !Displayable(rows[m])
    ensures ShownTexts(rows[..j]) == ShownTexts(rows[..i])
    decreases j - i
  {
    if i < j {
      ShownSkip(rows, i, j - 1);
      ShownSnoc(rows, j - 1);
    }
  }

  /** The skip loop of the entry point: from position `i`, passes over
      rows that are not displayable, which adds nothing to the printed
      texts. It has no bound check, so the
      position `|rows|` it may return stands for a read past the table. */
  method SkipHidden(rows: seq<InfoRow>, i: nat) returns (j: nat)
    requires i < |rows|
    ensures i <= j <= |rows|
    ensures |ShownTexts(rows[..j])| == |ShownTexts(rows[..i])|
    ensures j < |rows| ==> Displayable(rows[j])
    ensures j == |rows| ==> !Displayable(rows[|rows| - 1]) && |ShownTexts(rows)| == |ShownTexts(rows[..i])|
  {
    j := i;
    while !Displayable(rows[j])
      invariant i <= j < |rows|
      invariant forall m :: i <= m < j ==> !Displayable(rows[m])
      decreases |rows| - j
    {
      j := j + 1;
      if j == |rows| {
        ShownSkip(rows, i, j);
        assert rows[..j] == rows;
        return;
      }
    }
    ShownSkip(rows, i, j);
  }

  /** Draws the next art line beside the displayable row at `j`, the
      first displayable row from `i` on. */
  method DrawShownRow(rows: seq<InfoRow>, art: string, width: nat, ghost pieces: seq<string>,
                      i: nat, j: nat, cursor: nat, out: seq<string>)
    returns (fault: Option<Fault>, i': nat, cursor': nat, out': seq<string>)
    requires Art.Cuts(art, pieces)
    requires i <= j < |rows| && Displayable(rows[j])
    requires |out| == |ShownTexts(rows[..j])| <= |pieces|
    requires cursor == Art.Offset(pieces, |out|)
    requires out == Lines(rows, pieces, width, |out|)
    ensures fault.Some? ==> fault == Some(ArtOverrun) && |ShownTexts(rows)| > |pieces|
    ensures fault.None? ==> i < i' <= |rows| && RowsDrawn(rows, pieces, width, i', cursor', out')
  {
    var d := DrawStep(art, width, pieces, |out|, cursor);
    if d.None? {
      ShownSnoc(rows, j);
      ShownPrefix(rows, j + 1);
      return Some(ArtOverrun), j, cursor, out;
    }
    RowStep(rows, pieces, width, j, out, d.value.text);
    return None, j + 1, d.value.next, out + [d.value.text + RowText(rows[j])];
  }

  /** One pass of the row loop body: skip the rows that are not
      displayable, then draw one art line and print the row beside it. */
  method DrawNextRow(rows: seq<InfoRow>, art: string, width: nat, ghost pieces: seq<string>,
                     i: nat, cursor: nat, out: seq<string>)
    returns (fault: Option<Fault>, i': nat, cursor': nat, out': seq<string>)
    requires Art.Cuts(art, pieces)
    requires i < |rows| && RowsDrawn(rows, pieces, width, i, cursor, out)
    ensures fault == Some(ArtOverrun) ==> |ShownTexts(rows)| > |pieces|
    ensures fault == Some(RowIndexOverrun) ==>
      |ShownTexts(rows)| <= |pieces| && !Displayable(rows[|rows| - 1])
    ensures fault.None? ==> i < i' <= |rows| && RowsDrawn(rows, pieces, width, i', cursor', out')
  {
    var j := SkipHidden(rows, i);
    if j == |rows| {
      return Some(RowIndexOverrun), j, cursor, out;
    }
    fault, i', cursor', out' := DrawShownRow(rows, art, width, pieces, i, j, cursor, out);
  }

  /** The row loop of the entry point: for each row position, the skip
      loop passes over rows that are not displayable, then one art line is
      drawn and the row printed beside it. */
  method DrawRows(rows: seq<InfoRow>, art: string, width: nat, ghost pieces: seq<string>)
    returns (fault: Option<Fault>, out: seq<string>, cursor: nat)
    requires Art.Cuts(art, pieces)
    ensures fault == Some(ArtOverrun) ==> |ShownTexts(rows)| > |pieces|
    ensures fault == Some(RowIndexOverrun) ==>
      |ShownTexts(rows)| <= |pieces| && |rows| > 0 && !Displayable(rows[|rows| - 1])
    ensures fault.None? ==>
      && (|rows| == 0 || Displayable(rows[|rows| - 1]))
      && |out| == |ShownTexts(rows)| <= |pieces|
      && cursor == Art.Offset(pieces, |out|)
      && out == Lines(rows, pieces, width, |out|)
  {
    cursor := 0;
    out := [];
    var i := 0;
    assert rows[..0] == [];
    ShownPrefix(rows, 0);
    while i < |rows|
      invariant RowsDrawn(rows, pieces, width, i, cursor, out)
      decreases |rows| - i
    {
      var f;
      f, i, cursor, out := DrawNextRow(rows, art, width, pieces, i, cursor, out);
      if f.Some? {
        return f, out, cursor;
      }
    }
    assert rows[..i] == rows;
    fault := None;
  }

  /** One pass of the drain loop body: past the displayable rows, the
      next reference line is the art piece alone. */
  lemma DrainStep(rows: seq<InfoRow>, pieces: seq<string>, width: nat, out: seq<string>)
    requires |ShownTexts(rows)| <= |out| < |pieces|
    requires out == Lines(rows, pieces, width, |out|)
    ensures out + [Art.Pad(pieces[|out|], width)] == Lines(rows, pieces, width, |out| + 1)
  {
    assert Art.Pad(pieces[|out|], width) + "" == Art.Pad(pieces[|out|], width);
  }

  /** One pass of the drain loop body: one more art line drawn with
      nothing beside it. */
  method DrainNext(rows: seq<InfoRow>, art: string, width: nat, ghost pieces: seq<string>,
                   out: seq<string>, cursor: nat)
    returns (fault: bool, out': seq<string>, cursor': nat)
    requires Art.Cuts(art, pieces)
    requires |ShownTexts(rows)| <= |out| <= |pieces|
    requires cursor == Art.Offset(pieces, |out|) != |art|
    requires out == Lines(rows, pieces, width, |out|)
    ensures fault <==> |out| == |pieces|
    ensures !fault ==> |out'| == |out| + 1 && cursor' == Art.Offset(pieces, |out'|)
    ensures !fault ==> out' == Lines(rows, pieces, width, |out'|)
    ensures !fault && |out'| == |pieces| ==> pieces[|pieces| - 1] != ""
  {
    Art.CutsEnd(art, pieces, |out|);
    var d := DrawStep(art, width, pieces, |out|, cursor);
    if d.None? {
      return true, out, cursor;
    }
    DrainStep(rows, pieces, width, out);
    return false, out + [d.value.text], d.value.next;
  }

  /** The drain loop of the entry point: while the cursor does not stand on
      the terminator, one more art line is drawn with nothing beside it. */
  method DrainArt(rows: seq<InfoRow>, art: string, width: nat, ghost pieces: seq<string>,
                  out0: seq<string>, cursor0: nat)
    returns (r: Outcome)
    requires Art.Cuts(art, pieces)
    requires |rows| == 0 || Displayable(rows[|rows| - 1])
    requires |out0| == |ShownTexts(rows)| <= |pieces|
    requires cursor0 == Art.Offset(pieces, |out0|)
    requires out0 == Lines(rows, pieces, width, |out0|)
    ensures r == Arrange(rows, pieces, width)
  {
    var cursor: nat := cursor0;
    var out := out0;
    while cursor != |art|
      invariant |out0| <= |out| <= |pieces|
      invariant cursor == Art.Offset(pieces, |out|)
      invariant |out| == |pieces| ==> |out0| == |pieces| || pieces[|pieces| - 1] != ""
      invariant out == Lines(rows, pieces, width, |out|)
      decreases |pieces| - |out|
    {
      var fault;
      fault, out, cursor := DrainNext(rows, art, width, pieces, out, cursor);
      if fault {
        ArrangeArtOverrun(rows, pieces, width);
        return Failed(ArtOverrun);
      }
    }
    Art.CutsEnd(art, pieces, |out|);
    ArrangeDone(rows, pieces, width, out);
    return Done(out);
  }

  /** The layout the entry point prints: the row loop, then the drain. */
  method Render(rows: seq<InfoRow>, art: string) returns (r: Outcome)
    ensures r == ExpectedRender(rows, art)
  {
    ghost var pieces := Art.Split(art);
    Art.SplitCuts(art);
    var width := Art.SquareWidth(art);
    var fault, out, cursor := DrawRows(rows, art, width, pieces);
    if fault.Some? {
      if fault.value == ArtOverrun {
        ArrangeArtOverrun(rows, pieces, width);
      } else {
        ArrangeRowOverrun(rows, pieces, width);
      }
      return Failed(fault.value);
    }
    r := DrainArt(rows, art, width, pieces, out, cursor);
  }

  /** The layout completes exactly when the last row is displayable (or
      there are no rows), there are no more displayable rows than line
      breaks in the art, and the art is empty or ends in a line break. */
  lemma RenderSucceedsIff(rows: seq<InfoRow>, art: string)
    ensures ExpectedRender(rows, art).Done? <==>
      && (|rows| == 0 || Displayable(rows[|rows| - 1]))
      && |ShownIndices(rows)| <= Art.Count(art, '\n')
      && (|art| == 0 || art[|art| - 1] == '\n')
  {
    Art.SplitCount(art);
    Art.LastPieceEmpty(art);
    ShownTextsAtIndices(rows);
  }

  /** A completed arrangement draws every piece but the last, none
      truncated when `width` is at least their length: line k is piece k
      padded to `width`, followed by the k-th printed row text when there
      is one and by nothing otherwise. */
  lemma ArrangeLines(rows: seq<InfoRow>, pieces: seq<string>, width: nat)
    requires |pieces| >= 1 && Arrange(rows, pieces, width).Done?
    requires forall k :: 0 <= k < |pieces| - 1 ==> |pieces[k]| <= width
    ensures var lines := Arrange(rows, pieces, width).lines;
      var texts := ShownTexts(rows);
      && |lines| == |pieces| - 1
      && |texts| <= |lines|
      && (forall k :: 0 <= k < |lines| ==>
            |lines[k]| >= width && lines[k][..width] == Art.Pad(pieces[k], width))
      && (forall k :: 0 <= k < |texts| ==> lines[k][width..] == texts[k])
      && (forall k :: |texts| <= k < |lines| ==> |lines[k]| == width)
  {
    LinesShape(rows, pieces, width);
  }

  /** The lines drawn for every piece but the last: each is its padded
      piece followed by the row text that belongs beside it. */
  lemma LinesShape(rows: seq<InfoRow>, pieces: seq<string>, width: nat)
    requires |pieces| >= 1 && |ShownTexts(rows)| < |pieces|
    requires forall k :: 0 <= k < |pieces| - 1 ==> |pieces[k]| <= width
    ensures var lines := Lines(rows, pieces, width, |pieces| - 1);
      var texts := ShownTexts(rows);
      && |lines| == |pieces| - 1
      && |texts| <= |lines|
      && (forall k :: 0 <= k < |lines| ==>
            |lines[k]| >= width && lines[k][..width] == Art.Pad(pieces[k], width))
      && (forall k :: 0 <= k < |texts| ==> lines[k][width..] == texts[k])
      && (forall k :: |texts| <= k < |lines| ==> |lines[k]| == width)
  {
    var lines := Lines(rows, pieces, width, |pieces| - 1);
    var texts := ShownTexts(rows);
    LinesIndex(rows, pieces, width, |pieces| - 1);
    forall k | 0 <= k < |lines|
      ensures |lines[k]| >= width && lines[k][..width] == Art.Pad(pieces[k], width)
      ensures k < |texts| ==> lines[k][width..] == texts[k]
      ensures k >= |texts| ==> |lines[k]| == width
    {
      LineParts(rows, pieces, width, k);
    }
  }

  /** A completed layout draws every art line ended by a break, none
      truncated: line k starts with art line k padded to exactly the square
      width, followed by the k-th displayable row's text when there is one
      and by nothing otherwise. */
  lemma RenderDrainsArt(rows: seq<InfoRow>, art: string)
    requires ExpectedRender(rows, art).Done?
    ensures var lines := ExpectedRender(rows, art).lines;
      var width := Art.SquareWidthOf(art);
      var idx := ShownIndices(rows);
      && |lines| == Art.Count(art, '\n')
      && |idx| <= |lines|
      && (forall k :: 0 <= k < |lines| ==>
            |lines[k]| >= width && lines[k][..width] == Art.Pad(Art.Closed(art)[k], width))
      && (forall k :: 0 <= k < |idx| ==> lines[k][width..] == RowText(rows[idx[k]]))
      && (forall k :: |idx| <= k < |lines| ==> |lines[k]| == width)
  {
    var pieces := Art.Split(art);
    var closed := Art.Closed(art);
    Art.SplitCount(art);
    ShownTextsAtIndices(rows);
    assert forall k :: 0 <= k < |closed| ==> closed[k] == pieces[k];
    ArrangeLines(rows, pieces, Art.SquareWidthOf(art));
  }

  /** A reference line is its padded art piece followed by the row text
      that belongs beside it, if any. */
  lemma LineParts(rows: seq<InfoRow>, pieces: seq<string>, width: nat, k: nat)
    requires k < |pieces| && |pieces[k]| <= width
    ensures var line := LineAt(rows, pieces, width, k);
      var texts := ShownTexts(rows);
      && |line| >= width
      && line[..width] == Art.Pad(pieces[k], width)
      && line[width..] == (if k < |texts| then texts[k] else "")
  {
  }

  /** The program's own layout: six rows beside the puppy complete whenever
      the last row (memory) is displayable, in six lines. */
  lemma PuppyLayout(rows: seq<InfoRow>)
    requires |rows| == 6 && Displayable(rows[5])
    ensures ExpectedRender(rows, Art.Puppy).Done?
    ensures |ExpectedRender(rows, Art.Puppy).lines| == 6
  {
    Art.PuppyShape();
    RenderSucceedsIff(rows, Art.Puppy);
    Art.LastPieceEmpty(Art.Puppy);
  }

  /** A null value skips its row without using up an art line: with the
      session row's value absent, the other five rows are printed on the
      first five art lines and the sixth art line is still drawn. */
  lemma SkippedRowKeepsArt(rows: seq<InfoRow>)
    requires |rows| == 6
    requires forall i :: 0 <= i < 6 && i != 4 ==> Displayable(rows[i])
    requires rows[4].value.None?
    ensures ExpectedRender(rows, Art.Puppy).Done?
    ensures var lines := ExpectedRender(rows, Art.Puppy).lines;
      && |lines| == 6
      && |lines[4]| >= 11
      && lines[4][11..] == RowText(rows[5])
      && lines[5] == Art.PuppyLines[5]
  {
    Art.PuppyShape();
    PuppyLayout(rows);
    SessionRowSkipped(rows);
    RenderDrainsArt(rows, Art.Puppy);
  }

  /** Looking at one more row adds its position when it is displayable. */
  lemma IndicesSnoc(rows: seq<InfoRow>, i: nat)
    requires i < |rows|
    ensures ShownIndices(rows[..i + 1]) ==
      ShownIndices(rows[..i]) + (if Displayable(rows[i]) then [i] else [])
  {
    assert rows[..i + 1][..i] == rows[..i];
  }

  /** With only the memory row hidden, the displayable positions are the
      first five. */
  lemma MemoryRowHidden(rows: seq<InfoRow>)
    requires |rows| == 6
    requires forall i :: 0 <= i < 5 ==> Displayable(rows[i])
    requires !Displayable(rows[5])
    ensures ShownIndices(rows) == [0, 1, 2, 3, 4]
  {
    assert rows[..0] == [];
    IndicesSnoc(rows, 0);
    IndicesSnoc(rows, 1);
    IndicesSnoc(rows, 2);
    IndicesSnoc(rows, 3);
    IndicesSnoc(rows, 4);
    IndicesSnoc(rows, 5);
    assert rows[..6] == rows;
  }

  /** With only the session row's value absent, the displayable positions
      are all the others. */
  lemma SessionRowSkipped(rows: seq<InfoRow>)
    requires |rows| == 6
    requires forall i :: 0 <= i < 6 && i != 4 ==> Displayable(rows[i])
    requires rows[4].value.None?
    ensures ShownIndices(rows) == [0, 1, 2, 3, 5]
  {
    assert rows[..0] == [];
    IndicesSnoc(rows, 0);
    assert ShownIndices(rows[..1]) == [0];
    IndicesSnoc(rows, 1);
    assert ShownIndices(rows[..2]) == [0, 1];
    IndicesSnoc(rows, 2);
    assert ShownIndices(rows[..3]) == [0, 1, 2];
    IndicesSnoc(rows, 3);
    assert ShownIndices(rows[..4]) == [0, 1, 2, 3];
    IndicesSnoc(rows, 4);
    assert ShownIndices(rows[..5]) == [0, 1, 2, 3];
    IndicesSnoc(rows, 5);
    assert rows[..6] == rows;
  }


  /** The layout with the skip loop bounded by the table's end, as the
      check after it evidently intends: a hidden last row ends the row loop
      instead of making it read past the table. */
  function ArrangeBounded(rows: seq<InfoRow>, pieces: seq<string>, width: nat): Outcome
    requires |pieces| >= 1
  {
    var shown := |ShownTexts(rows)|;
    if shown >= |pieces| || pieces[|pieces| - 1] != "" then Failed(ArtOverrun)
    else Done(Lines(rows, pieces, width, |pieces| - 1))
  }

  function ExpectedRenderBounded(rows: seq<InfoRow>, art: string): Outcome {
    ArrangeBounded(rows, Art.Split(art), Art.SquareWidthOf(art))
  }

  /** The bounded loop only removes the table overrun: wherever the
      program as written does not read past the table, both agree. */
  lemma BoundedAgrees(rows: seq<InfoRow>, pieces: seq<string>, width: nat)
    requires |pieces| >= 1
    ensures Arrange(rows, pieces, width) != Failed(RowIndexOverrun) ==>
      Arrange(rows, pieces, width) == ArrangeBounded(rows, pieces, width)
    ensures ArrangeBounded(rows, pieces, width) != Failed(RowIndexOverrun)
  {
  }

  /** With the bounded loop, the puppy beside any six rows is always drawn
      in full: six lines, the art padded to width 11, each displayable
      row's text beside its art line. */
  lemma PuppyAlwaysDrawn(rows: seq<InfoRow>)
    requires |rows| == 6
    ensures ExpectedRenderBounded(rows, Art.Puppy).Done?
    ensures var lines := ExpectedRenderBounded(rows, Art.Puppy).lines;
      var idx := ShownIndices(rows);
      && |lines| == 6
      && (forall k :: 0 <= k < 6 ==> |lines[k]| >= 11 && lines[k][..11] == Art.PuppyLines[k])
      && (forall k :: 0 <= k < |idx| ==> lines[k][11..] == RowText(rows[idx[k]]))
  {
    PuppyPieces();
    var pieces := Art.PuppyLines + [""];
    ShownTextsAtIndices(rows);
    assert ExpectedRenderBounded(rows, Art.Puppy) == Done(Lines(rows, pieces, 11, 6));
    LinesShape(rows, pieces, 11);
  }

  /** The puppy's pieces are its six lines, all of width 11, and an empty
      tail. */
  lemma PuppyPieces()
    ensures Art.Split(Art.Puppy) == Art.PuppyLines + [""]
    ensures Art.SquareWidthOf(Art.Puppy) == 11
    ensures forall k :: 0 <= k < 6 ==> Art.Pad((Art.PuppyLines + [""])[k], 11) == Art.PuppyLines[k]
  {
    Art.PuppyShape();
    forall k | 0 <= k < 6
      ensures Art.Pad((Art.PuppyLines + [""])[k], 11) == Art.PuppyLines[k]
    {
      assert |Art.PuppyLines[k]| == 11;
    }
  }

  /** When `/proc/meminfo` cannot be read, the memory row's value is the
      empty string, so the skip loop as written steps past the last row and
      reads the row after the table; the bounded loop prints the other
      five rows and leaves the last puppy line alone. */
  lemma HiddenMemoryRow(rows: seq<InfoRow>)
    requires |rows| == 6
    requires forall i :: 0 <= i < 5 ==> Displayable(rows[i])
    requires rows[5].name.Some? && rows[5].value == Some("")
    ensures ExpectedRender(rows, Art.Puppy) == Failed(RowIndexOverrun)
    ensures ExpectedRenderBounded(rows, Art.Puppy).Done?
    ensures var lines := ExpectedRenderBounded(rows, Art.Puppy).lines;
      |lines| == 6 && lines[5] == Art.PuppyLines[5]
  {
    PuppyPieces();
    var pieces := Art.PuppyLines + [""];
    MemoryRowHidden(rows);
    ShownTextsAtIndices(rows);
    assert ExpectedRenderBounded(rows, Art.Puppy) == Done(Lines(rows, pieces, 11, 6));
    LinesShape(rows, pieces, 11);
  }
}
