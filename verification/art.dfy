/** The art layout engine: the width of the widest art line and the
    drawing of one art line from a cursor, right-padded with spaces.

    The art is the character sequence of a C string (its terminator is
    not part of the sequence); a cursor is an index into it, and the
    cursor `|art|` denotes the terminator itself. */
module Art {
  import opened Wrappers

  /** The puppy printed beside the facts: its six lines, each followed by
      a line break. */
  const Puppy: string := Terminated(PuppyLines)

  /** The six lines of `Puppy`, without their line breaks. */
  const PuppyLines: seq<string> := [
    "  /^ ^\\    ",
    " / 0 0 \\   ",
    " V\\ Y /V   ",
    "  / - \\    ",
    " /    |    ",
    "V__) ||    "
  ]

  /** Number of occurrences of `c` in `s`. */
  function Count(s: string, c: char): nat {
    if |s| == 0 then 0
    else (if s[0] == c then 1 else 0) + Count(s[1..], c)
  }

  /** The pieces of `s` between line breaks, in order. A string holding n
      line breaks has n + 1 pieces; the last is the unterminated tail,
      which is empty when `s` is empty or ends in a line break. */
  function Split(s: string): (pieces: seq<string>)
    ensures |pieces| >= 1
    ensures forall k :: 0 <= k < |pieces| ==> '\n' !in pieces[k]
    decreases |s|
  {
    if |s| == 0 then [""]
    else
      var rest := Split(s[1..]);
      if s[0] == '\n' then [""] + rest
      else [[s[0]] + rest[0]] + rest[1..]
  }

  /** The pieces glued back together with a line break between each two. */
  function Join(pieces: seq<string>): string
    requires |pieces| >= 1
    decreases |pieces|
  {
    if |pieces| == 1 then pieces[0]
    else pieces[0] + "\n" + Join(pieces[1..])
  }

  /** The lines of `s` that are ended by a line break: every piece but the
      unterminated tail. */
  function Closed(s: string): seq<string> {
    Split(s)[..|Split(s)| - 1]
  }

  /** The length of the longest of `lines`, 0 when there are none. */
  function MaxLen(lines: seq<string>): (m: nat)
    ensures forall k :: 0 <= k < |lines| ==> |lines[k]| <= m
    ensures |lines| == 0 ==> m == 0
    ensures |lines| > 0 ==> exists k :: 0 <= k < |lines| && |lines[k]| == m
    decreases |lines|
  {
    if |lines| == 0 then 0
    else
      var front := lines[..|lines| - 1];
      var m' := MaxLen(front);
      assert forall k :: 0 <= k < |front| ==> front[k] == lines[k];
      if m' > |lines[|lines| - 1]| then m' else |lines[|lines| - 1]|
  }

  /** The square width the layout pads every art line to: the longest
      line ended by a line break. */
  function SquareWidthOf(art: string): nat {
    MaxLen(Closed(art))
  }

  /** `s` split into pieces is `s` again once joined. */
  lemma {:induction false} SplitJoin(s: string)
    ensures Join(Split(s)) == s
    decreases |s|
  {
    if |s| > 0 {
      var rest := Split(s[1..]);
      SplitJoin(s[1..]);
      if s[0] == '\n' {
        assert Split(s) == [""] + rest;
        assert Join(Split(s)) == "" + "\n" + Join(rest);
      } else if |rest| == 1 {
        assert Split(s) == [[s[0]] + rest[0]];
        assert [s[0]] + s[1..] == s;
      } else {
        assert Split(s) == [[s[0]] + rest[0]] + rest[1..];
        assert Join(rest) == rest[0] + "\n" + Join(rest[1..]);
        assert Join(Split(s)) == [s[0]] + rest[0] + "\n" + Join(rest[1..]);
        assert [s[0]] + s[1..] == s;
      }
    }
  }

  /** Splitting a string that begins with a break-free `line`: the line is
      glued onto the first piece of the rest. */
  lemma {:induction false} SplitPrefix(line: string, t: string)
    requires '\n' !in line
    ensures Split(line + t) == [line + Split(t)[0]] + Split(t)[1..]
    decreases |line|
  {
    if |line| == 0 {
      assert line + t == t;
      assert line + Split(t)[0] == Split(t)[0];
      assert [Split(t)[0]] + Split(t)[1..] == Split(t);
    } else {
      var s := line + t;
      assert s[0] == line[0];
      assert s[1..] == line[1..] + t;
      SplitPrefix(line[1..], t);
      assert [line[0]] + (line[1..] + Split(t)[0]) == line + Split(t)[0];
    }
  }

  /** A line break at the front of a string closes an empty first piece. */
  lemma SplitBreak(t: string)
    ensures Split("\n" + t) == [""] + Split(t)
  {
  }

  /** Break-free lines joined are split back into exactly those lines. */
  lemma {:induction false} JoinSplit(lines: seq<string>)
    requires |lines| >= 1
    requires forall k :: 0 <= k < |lines| ==> '\n' !in lines[k]
    ensures Split(Join(lines)) == lines
    decreases |lines|
  {
    if |lines| == 1 {
      SplitPrefix(lines[0], "");
      assert lines[0] + "" == lines[0];
    } else {
      var rest := Join(lines[1..]);
      JoinSplit(lines[1..]);
      assert Join(lines) == lines[0] + ("\n" + rest);
      SplitPrefix(lines[0], "\n" + rest);
      SplitBreak(rest);
      assert lines[0] + "" == lines[0];
      assert [lines[0]] + lines[1..] == lines;
    }
  }

  /** The unterminated tail: the piece after the last line break. */
  function Tail(s: string): string {
    Split(s)[|Split(s)| - 1]
  }

  /** Appending a line break closes the tail and opens an empty one. */
  lemma {:induction false} SnocBreak(s: string, c: char)
    requires c == '\n'
    ensures Split(s + [c]) == Split(s) + [""]
    decreases |s|
  {
    var t := s + [c];
    if |s| == 0 {
      assert t[1..] == [];
    } else {
      assert t[1..] == s[1..] + [c];
      SnocBreak(s[1..], c);
    }
  }

  /** Appending any other character extends the tail by it. */
  lemma {:induction false} SnocChar(s: string, c: char)
    requires c != '\n'
    ensures Split(s + [c]) == Closed(s) + [Tail(s) + [c]]
    decreases |s|
  {
    var t := s + [c];
    if |s| == 0 {
      assert t[1..] == [];
      assert [c] + "" == "" + [c];
    } else {
      assert t[1..] == s[1..] + [c];
      SnocChar(s[1..], c);
      var rest := Split(s[1..]);
      if s[0] != '\n' && |rest| == 1 {
        assert [s[0]] + (rest[0] + [c]) == ([s[0]] + rest[0]) + [c];
      }
    }
  }

  /** The pieces number one more than the line breaks. */
  lemma {:induction false} SplitCount(s: string)
    ensures |Split(s)| == Count(s, '\n') + 1
    decreases |s|
  {
    if |s| > 0 {
      SplitCount(s[1..]);
    }
  }

  /** The unterminated tail is empty exactly when the string is empty or
      ends in a line break. */
  lemma LastPieceEmpty(s: string)
    ensures Split(s)[|Split(s)| - 1] == "" <==> (|s| == 0 || s[|s| - 1] == '\n')
  {
  }

  /** Characters after the last line break never count towards the
      square width, and a string without a line break has width 0. */
  lemma {:induction false} ClosedIgnoresTail(art: string, tail: string)
    requires '\n' !in tail
    ensures Closed(art + tail) == Closed(art)
    ensures SquareWidthOf(art + tail) == SquareWidthOf(art)
    decreases |tail|
  {
    if |tail| > 0 {
      var front := tail[..|tail| - 1];
      var c := tail[|tail| - 1];
      assert c in tail;
      assert forall x :: x in front ==> x in tail;
      ClosedIgnoresTail(art, front);
      assert art + tail == (art + front) + [c];
      SnocChar(art + front, c);
    } else {
      assert art + tail == art;
    }
  }

  lemma NoBreakNoWidth(art: string)
    requires '\n' !in art
    ensures SquareWidthOf(art) == 0
  {
    ClosedIgnoresTail("", art);
    assert "" + art == art;
  }

  /** The longest of some lines and one more. */
  lemma MaxLenSnoc(lines: seq<string>, line: string)
    ensures MaxLen(lines + [line]) == Max(MaxLen(lines), |line|)
  {
  }

  /** A line break closes the tail: it joins the closed lines and the
      new tail is empty. */
  lemma BreakWidth(s: string, c: char)
    requires c == '\n'
    ensures MaxLen(Closed(s + [c])) == Max(MaxLen(Closed(s)), |Tail(s)|)
    ensures |Tail(s + [c])| == 0
  {
    SnocBreak(s, c);
    var pieces := Split(s);
    assert Closed(s + [c]) == Closed(s) + [Tail(s)];
    MaxLenSnoc(Closed(s), Tail(s));
  }

  /** Any other character lengthens the tail and leaves the closed lines. */
  lemma CharWidth(s: string, c: char)
    requires c != '\n'
    ensures MaxLen(Closed(s + [c])) == MaxLen(Closed(s))
    ensures |Tail(s + [c])| == |Tail(s)| + 1
  {
    SnocChar(s, c);
    assert Closed(s + [c]) == Closed(s);
  }

  /** The scan's view of one more character of the text. */
  lemma ScanNext(art: string, i: nat)
    requires i < |art|
    ensures art[i] == '\n' ==>
      MaxLen(Closed(art[..i + 1])) == Max(MaxLen(Closed(art[..i])), |Tail(art[..i])|)
      && |Tail(art[..i + 1])| == 0
    ensures art[i] != '\n' ==>
      MaxLen(Closed(art[..i + 1])) == MaxLen(Closed(art[..i]))
      && |Tail(art[..i + 1])| == |Tail(art[..i])| + 1
  {
    assert art[..i + 1] == art[..i] + [art[i]];
    if art[i] == '\n' {
      BreakWidth(art[..i], art[i]);
    } else {
      CharWidth(art[..i], art[i]);
    }
  }

  /** A single forward scan that tracks the length of the current line and
      the longest line closed so far. */
  method SquareWidth(art: string) returns (maxWidth: nat)
    ensures maxWidth == SquareWidthOf(art)
    ensures forall k :: 0 <= k < |Closed(art)| ==> |Closed(art)[k]| <= maxWidth
  {
    maxWidth := 0;
    var width: nat := 0;
    var i := 0;
    while i < |art|
      invariant i <= |art|
      invariant maxWidth == MaxLen(Closed(art[..i]))
      invariant width == |Tail(art[..i])|
    {
      ScanNext(art, i);
      if art[i] == '\n' {
        maxWidth := if maxWidth > width then maxWidth else width;
        width := 0;
      } else {
        width := width + 1;
      }
      i := i + 1;
    }
    assert art[..i] == art;
  }

  /** Index of the first line break at or after `cursor`, or `|art|` when
      the text ends first. */
  function LineEnd(art: string, cursor: nat): (e: nat)
    requires cursor <= |art|
    ensures cursor <= e <= |art|
    ensures forall k :: cursor <= k < e ==> art[k] != '\n'
    ensures e < |art| ==> art[e] == '\n'
    decreases |art| - cursor
  {
    if cursor == |art| || art[cursor] == '\n' then cursor
    else LineEnd(art, cursor + 1)
  }

  /** The pieces of the text from a cursor: the line up to the next break,
      then the pieces after that break. */
  lemma SplitAtCursor(art: string, cursor: nat)
    requires cursor <= |art|
    ensures var e := LineEnd(art, cursor);
      Split(art[cursor..]) ==
        [art[cursor..e]] + (if e < |art| then Split(art[e + 1..]) else [])
  {
    var e := LineEnd(art, cursor);
    var line := art[cursor..e];
    assert '\n' !in line by {
      assert forall k :: 0 <= k < |line| ==> line[k] == art[cursor + k];
    }
    if e < |art| {
      assert art[cursor..] == line + "\n" + art[e + 1..];
      SplitLine(line, art[e + 1..]);
    } else {
      assert art[cursor..] == line + "";
      SplitPrefix(line, "");
      assert line + "" == line;
    }
  }

  function Spaces(n: nat): (s: string)
    ensures |s| == n
    ensures forall k :: 0 <= k < n ==> s[k] == ' '
  {
    seq(n, _ => ' ')
  }

  /** `line` right-padded with spaces to `width` columns; a line at least
      that wide is left as it is. */
  function Pad(line: string, width: nat): (padded: string)
    ensures |padded| == Max(|line|, width)
    ensures padded[..|line|] == line
    ensures forall k :: |line| <= k < |padded| ==> padded[k] == ' '
  {
    if |line| < width then line + Spaces(width - |line|) else line
  }

  /** What one call of the line drawer writes, and the cursor it returns. */
  datatype Drawn = Drawn(text: string, next: nat)

  /** Writes the characters from `cursor` up to the next line break or the
      end of the text, pads them with spaces to `width`, and returns the
      cursor one past the character it stopped at: one past the line
      break, or one past the terminator when the text ended. */
  function DrawLine(art: string, cursor: nat, width: nat): (d: Drawn)
    requires cursor <= |art|
    ensures d.text == Pad(Split(art[cursor..])[0], width)
    ensures d.next == cursor + |Split(art[cursor..])[0]| + 1
    ensures d.next <= |art| <==> |Split(art[cursor..])| > 1
    ensures d.next <= |art| ==> art[d.next - 1] == '\n'
  {
    var e := LineEnd(art, cursor);
    SplitAtCursor(art, cursor);
    Drawn(Pad(art[cursor..e], width), e + 1)
  }

  /** Where piece `k` of `pieces` starts once they are joined with line
      breaks; `Offset(pieces, |pieces|)` is one past the end of the join. */
  function Offset(pieces: seq<string>, k: nat): nat
    requires k <= |pieces|
  {
    if k == 0 then 0 else Offset(pieces, k - 1) + |pieces[k - 1]| + 1
  }

  /** The text from the start of a piece that is not the last one: the
      next piece starts one past the end of this one. */
  lemma NextPieceStart(art: string, p: nat, rest: seq<string>)
    requires p <= |art| && Split(art[p..]) == rest && |rest| >= 2
    ensures p + |rest[0]| + 1 <= |art|
    ensures Split(art[p + |rest[0]| + 1..]) == rest[1..]
  {
    SplitAtCursor(art, p);
  }

  /** Piece `k` of the text starts at `Offset`, and the text from there on
      splits into the remaining pieces. */
  lemma {:induction false} OffsetSplit(art: string, k: nat)
    requires k < |Split(art)|
    ensures Offset(Split(art), k) <= |art|
    ensures Split(art[Offset(Split(art), k)..]) == Split(art)[k..]
    decreases k
  {
    if k == 0 {
      assert art[0..] == art;
    } else {
      var pieces := Split(art);
      OffsetSplit(art, k - 1);
      var rest := pieces[k - 1..];
      NextPieceStart(art, Offset(pieces, k - 1), rest);
      assert rest[0] == pieces[k - 1];
      assert rest[1..] == pieces[k..];
    }
  }

  /** One past the end of the last piece is one past the terminator. */
  lemma OffsetEnd(art: string)
    ensures Offset(Split(art), |Split(art)|) == |art| + 1
  {
    var n := |Split(art)|;
    OffsetSplit(art, n - 1);
    var c := Offset(Split(art), n - 1);
    SplitJoin(art[c..]);
  }

  /** Drawing from the start of piece `k` writes that piece padded and
      returns the start of the next piece (one past the terminator after
      the last). */
  lemma DrawLineStep(art: string, k: nat, width: nat)
    requires k < |Split(art)|
    ensures Offset(Split(art), k) <= |art|
    ensures DrawLine(art, Offset(Split(art), k), width)
      == Drawn(Pad(Split(art)[k], width), Offset(Split(art), k + 1))
  {
    OffsetSplit(art, k);
    if k + 1 == |Split(art)| {
      OffsetEnd(art);
    }
  }

  /** The cursor reaches the terminator exactly at the last piece, and
      only when that piece is empty. */
  lemma CursorAtEnd(art: string, k: nat)
    requires k <= |Split(art)|
    ensures Offset(Split(art), k) == |art| <==>
      k == |Split(art)| - 1 && Split(art)[k] == ""
  {
    if k == |Split(art)| {
      OffsetEnd(art);
    } else {
      OffsetSplit(art, k);
      var c := Offset(Split(art), k);
      if c == |art| {
        assert art[c..] == "";
      }
      if k == |Split(art)| - 1 && Split(art)[k] == "" {
        assert Split(art[c..]) == [""];
        SplitJoin(art[c..]);
      }
    }
  }

  /** Piece `k` sits at its offset in the text, holds no line break, and
      is followed by a line break or by the end of the text. */
  predicate PieceAt(art: string, pieces: seq<string>, k: nat)
    requires k < |pieces|
  {
    var o := Offset(pieces, k);
    && o + |pieces[k]| <= |art|
    && art[o..o + |pieces[k]|] == pieces[k]
    && '\n' !in pieces[k]
    && (o + |pieces[k]| < |art| ==> art[o + |pieces[k]|] == '\n')
  }

  /** `pieces` cut the text at its line breaks: every piece sits where
      its offset says, and the offset after the last piece is one past the
      terminator. */
  predicate Cuts(art: string, pieces: seq<string>) {
    && |pieces| >= 1
    && Offset(pieces, |pieces|) == |art| + 1
    && forall k :: 0 <= k < |pieces| ==> PieceAt(art, pieces, k)
  }

  /** The first piece of the text from `o` sits at `o` and is followed by
      a line break or by the end of the text. */
  lemma FirstPieceAt(art: string, o: nat, p: string)
    requires o <= |art| && p == Split(art[o..])[0]
    ensures o + |p| <= |art| && art[o..o + |p|] == p
    ensures o + |p| < |art| ==> art[o + |p|] == '\n'
  {
    SplitAtCursor(art, o);
  }

  /** Each piece of a text sits where its offset says. */
  lemma PieceAtSplit(art: string, k: nat)
    requires k < |Split(art)|
    ensures PieceAt(art, Split(art), k)
  {
    var pieces := Split(art);
    OffsetSplit(art, k);
    var o := Offset(pieces, k);
    assert pieces[k] == Split(art[o..])[0];
    FirstPieceAt(art, o, pieces[k]);
  }

  /** The pieces of a text cut it at its line breaks. */
  lemma SplitCuts(art: string)
    ensures Cuts(art, Split(art))
  {
    OffsetEnd(art);
    forall k | 0 <= k < |Split(art)|
      ensures PieceAt(art, Split(art), k)
    {
      PieceAtSplit(art, k);
    }
  }

  /** The scan for the next line break stops at `e` when the characters
      before it hold no break and `e` is a break or the end. */
  lemma LineEndAt(art: string, c: nat, e: nat)
    requires c <= e <= |art|
    requires forall m :: c <= m < e ==> art[m] != '\n'
    requires e == |art| || art[e] == '\n'
    ensures LineEnd(art, c) == e
  {
  }

  /** Drawing from the offset of a cut piece writes the piece padded and
      returns the offset of the next piece. */
  lemma CutsDraw(art: string, pieces: seq<string>, k: nat, width: nat)
    requires Cuts(art, pieces) && k < |pieces|
    ensures Offset(pieces, k) <= |art|
    ensures DrawLine(art, Offset(pieces, k), width)
      == Drawn(Pad(pieces[k], width), Offset(pieces, k + 1))
  {
    assert PieceAt(art, pieces, k);
    var o := Offset(pieces, k);
    var e := o + |pieces[k]|;
    forall m | o <= m < e
      ensures art[m] != '\n'
    {
      assert art[m] == pieces[k][m - o];
    }
    LineEndAt(art, o, e);
  }

  /** Offsets grow by at least one per piece. */
  lemma {:induction false} OffsetGrows(pieces: seq<string>, k: nat, m: nat)
    requires k <= m <= |pieces|
    ensures Offset(pieces, k) + (m - k) <= Offset(pieces, m)
    decreases m - k
  {
    if k < m {
      OffsetGrows(pieces, k, m - 1);
    }
  }

  /** When the offset after the last piece is one past the terminator, the
      terminator is reached only at the last piece, and only when that
      piece is empty. */
  lemma CutsEnd(art: string, pieces: seq<string>, k: nat)
    requires |pieces| >= 1 && Offset(pieces, |pieces|) == |art| + 1 && k <= |pieces|
    ensures Offset(pieces, k) == |art| <==> k == |pieces| - 1 && pieces[k] == ""
  {
    OffsetBeforeLast(art, pieces, k);
    OffsetOfLast(art, pieces, k);
    OffsetPastLast(art, pieces, k);
  }

  /** The pieces before the last one start before the terminator. */
  lemma OffsetBeforeLast(art: string, pieces: seq<string>, k: nat)
    requires |pieces| >= 1 && Offset(pieces, |pieces|) == |art| + 1
    ensures k < |pieces| - 1 ==> Offset(pieces, k) < |art|
  {
    var last := |pieces| - 1;
    if k < last {
      OffsetGrows(pieces, k, last);
    }
  }

  /** The last piece starts at the terminator exactly when it is empty. */
  lemma OffsetOfLast(art: string, pieces: seq<string>, k: nat)
    requires |pieces| >= 1 && Offset(pieces, |pieces|) == |art| + 1
    ensures k == |pieces| - 1 ==> (Offset(pieces, k) == |art| <==> pieces[k] == "")
  {
  }

  /** The offset after the last piece is past the terminator. */
  lemma OffsetPastLast(art: string, pieces: seq<string>, k: nat)
    requires |pieces| >= 1 && Offset(pieces, |pieces|) == |art| + 1
    ensures k == |pieces| ==> Offset(pieces, k) != |art|
  {
  }

  /** A break-free line followed by a break is one piece of its own. */
  lemma SplitLine(line: string, rest: string)
    requires '\n' !in line
    ensures Split(line + "\n" + rest) == [line] + Split(rest)
  {
    assert line + "\n" + rest == line + ("\n" + rest);
    SplitPrefix(line, "\n" + rest);
    SplitBreak(rest);
    assert line + "" == line;
  }

  /** Each of `lines` followed by a line break, concatenated. */
  function Terminated(lines: seq<string>): string
    decreases |lines|
  {
    if |lines| == 0 then ""
    else lines[0] + "\n" + Terminated(lines[1..])
  }

  /** Break-free lines, each ended by a break, split back into exactly those
      lines and an empty tail. */
  lemma {:induction false} SplitTerminated(lines: seq<string>)
    requires forall k :: 0 <= k < |lines| ==> '\n' !in lines[k]
    ensures Split(Terminated(lines)) == lines + [""]
    decreases |lines|
  {
    if |lines| > 0 {
      SplitTerminated(lines[1..]);
      SplitLine(lines[0], Terminated(lines[1..]));
      assert [lines[0]] + (lines[1..] + [""]) == lines + [""];
    }
  }

  /** The square width of break-free terminated lines is their longest. */
  lemma ClosedTerminated(lines: seq<string>)
    requires forall k :: 0 <= k < |lines| ==> '\n' !in lines[k]
    ensures Closed(Terminated(lines)) == lines
    ensures SquareWidthOf(Terminated(lines)) == MaxLen(lines)
  {
    SplitTerminated(lines);
    assert (lines + [""])[..|lines|] == lines;
  }

  /** Each puppy line is eleven columns wide. */
  lemma PuppyWidth()
    ensures MaxLen(PuppyLines) == 11
  {
  }

  /** Drawing art that is empty or ends in a line break, from cursor 0 at
      its square width: each call takes one line and writes exactly the
      width, the cursor stays inside the text for the first `n` calls,
      where `n` is the number of line breaks, and rests on the terminator
      after them, so the drain loop stops. */
  lemma DrawAllLines(art: string)
    requires |art| == 0 || art[|art| - 1] == '\n'
    ensures var n := Count(art, '\n');
      var w := SquareWidthOf(art);
      && |Split(art)| == n + 1 && |Closed(art)| == n
      && Offset(Split(art), n) == |art|
      && (forall k :: 0 <= k < n ==> Offset(Split(art), k) < |art|)
      && (forall k :: 0 <= k < n ==>
            DrawLine(art, Offset(Split(art), k), w)
              == Drawn(Pad(Closed(art)[k], w), Offset(Split(art), k + 1)))
      && (forall k :: 0 <= k < n ==> |Pad(Closed(art)[k], w)| == w)
  {
    var n := Count(art, '\n');
    var w := SquareWidthOf(art);
    SplitCount(art);
    LastPieceEmpty(art);
    CursorAtEnd(art, n);
    forall k | 0 <= k < n
      ensures Offset(Split(art), k) < |art|
      ensures DrawLine(art, Offset(Split(art), k), w)
        == Drawn(Pad(Closed(art)[k], w), Offset(Split(art), k + 1))
      ensures |Pad(Closed(art)[k], w)| == w
    {
      CursorAtEnd(art, k);
      DrawLineStep(art, k, w);
      assert Closed(art)[k] == Split(art)[k];
    }
  }

  /** The puppy's six lines, each ended by a break: eleven columns wide. */
  lemma PuppyShape()
    ensures Split(Puppy) == PuppyLines + [""]
    ensures Closed(Puppy) == PuppyLines
    ensures Count(Puppy, '\n') == 6
    ensures SquareWidthOf(Puppy) == 11
  {
    PuppyBreakFree();
    ClosedTerminated(PuppyLines);
    SplitTerminated(PuppyLines);
    SplitCount(Puppy);
    PuppyWidth();
  }

  /** No puppy line holds a line break of its own. */
  lemma PuppyBreakFree()
    ensures forall k :: 0 <= k < |PuppyLines| ==> '\n' !in PuppyLines[k]
  {
  }

  /** Only lines ended by a break are measured: "abc\nde\nfghij" has square
      width 3. */
  lemma SquareWidthUnterminated()
    ensures SquareWidthOf("abc\nde\nfghij") == 3
  {
    var closed := ["abc", "de"];
    assert "abc\nde\nfghij" == Terminated(closed) + "fghij";
    ClosedIgnoresTail(Terminated(closed), "fghij");
    ClosedTerminated(closed);
    assert closed[..1] == ["abc"];
  }

  /** Once its last line is ended too, "abc\nde\nfghij\n" has width 5. */
  lemma SquareWidthTerminated()
    ensures SquareWidthOf("abc\nde\nfghij\n") == 5
  {
    var closed := ["abc", "de", "fghij"];
    assert "abc\nde\nfghij\n" == Terminated(closed);
    ClosedTerminated(closed);
    assert closed[..2][..1] == ["abc"];
    assert MaxLen(closed[..1]) == 3;
    assert MaxLen(closed[..2]) == 3;
  }
}
