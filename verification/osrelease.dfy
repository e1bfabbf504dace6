/** The operating-system name scanner: reads `/etc/os-release` one line
    at a time until the key `PRETTY_NAME`, which it accepts only among the
    first twenty lines, capturing into the caller's buffer the text after
    the leading quotes of each line's value, up to the next quote and at
    most 31 characters. A `char` stands for one byte of the file. */
module OsRelease {
  import opened Wrappers

  /** One line of the file: the text before its first '=' and the text
      after it, up to the end of the line. */
  datatype Line = Line(key: string, value: string)

  const PrettyName: string := "PRETTY_NAME"

  /** Number of lines read without meeting `PRETTY_NAME` before giving up. */
  const GuardLen: nat := 20

  /** Most characters one capture stores (the conversion `%31[^"]`). */
  const CaptureMax: nat := 31

  /** Exit status when the name cannot be read. */
  const ExitBrokenStream: int := 25

  /** Number of quote characters at the start of `v`. */
  function LeadingQuotes(v: string): (n: nat)
    ensures n <= |v|
    ensures forall k :: 0 <= k < n ==> v[k] == '"'
    ensures n < |v| ==> v[n] != '"'
  {
    if |v| == 0 || v[0] != '"' then 0 else 1 + LeadingQuotes(v[1..])
  }

  /** The characters of `v` before its first quote, at most `max` of them. */
  function QuoteFreeRun(v: string, max: nat): (run: string)
    ensures |run| <= max && run <= v
    ensures '"' !in run
    ensures |run| < max && |run| < |v| ==> v[|run|] == '"'
  {
    if |v| == 0 || v[0] == '"' || max == 0 then ""
    else [v[0]] + QuoteFreeRun(v[1..], max - 1)
  }

  /** What the line's read stores: nothing unless the value starts with a
      quote and at least one non-quote character follows the quotes. */
  function Capture(v: string): (c: Option<string>)
    ensures c.Some? ==> 1 <= |c.value| <= CaptureMax && '"' !in c.value
  {
    var q := LeadingQuotes(v);
    if q == 0 then None
    else
      var run := QuoteFreeRun(v[q..], CaptureMax);
      if |run| == 0 then None else Some(run)
  }

  /** Whether a read that reaches the value uses it up, so that the line
      skip, whose `%*[^\n]` must match at least one character, stops at
      once and leaves the line break unread. That holds for an empty
      value and for quotes followed by exactly 31 quote-free characters.
      With fewer and no closing quote, `%31[^"]` reads the line break
      itself and runs on into the next line, which this model does not
      follow: it counts such a value as leaving the break unread too. */
  predicate BreakPending(v: string) {
    |v| == 0 || (v[0] == '"' && ShortRunAfterQuotes(v[1..]))
  }

  /** Whether `w` is quotes followed by at most 31 quote-free characters. */
  predicate ShortRunAfterQuotes(w: string)
    decreases |w|
  {
    if |w| == 0 then true
    else if w[0] == '"' then ShortRunAfterQuotes(w[1..])
    else '"' !in w && |w| <= CaptureMax
  }

  /** Whether the line break ending line `k` is left unread. The key
      conversion `%255[^=]` must match at least one character: a line
      with an empty key is read only when the line before left its break
      unread, and otherwise the line skip reads it whole from its '='. */
  predicate PendingAfter(lines: seq<Line>, k: nat)
    requires k < |lines|
    decreases k, 1
  {
    (lines[k].key != "" || PendingBefore(lines, k)) && BreakPending(lines[k].value)
  }

  /** Whether the line before line `k` left its line break unread. */
  predicate PendingBefore(lines: seq<Line>, k: nat)
    requires k < |lines|
    decreases k, 0
  {
    0 < k && PendingAfter(lines, k - 1)
  }

  /** Whether the key conversion of line `k` matches. */
  predicate KeyMatches(lines: seq<Line>, k: nat)
    requires k < |lines|
  {
    lines[k].key != "" || PendingBefore(lines, k)
  }

  /** The key the read of line `k` stores, `None` when the conversion
      fails and the key buffer keeps its contents: a line break left
      unread by the line before is read as the first character of the
      key. */
  function KeyRead(lines: seq<Line>, k: nat): Option<string>
    requires k < |lines|
  {
    if !KeyMatches(lines, k) then None
    else if PendingBefore(lines, k) then Some("\n" + lines[k].key)
    else Some(lines[k].key)
  }

  /** Whether line `k` is read as the key `PRETTY_NAME`: it carries the
      key, and the line before did not leave its break unread. */
  predicate ReadsPretty(lines: seq<Line>, k: nat)
    requires k < |lines|
  {
    lines[k].key == PrettyName && !PendingBefore(lines, k)
  }

  /** The key buffer is set to `PRETTY_NAME` by the read of line `k`
      exactly when that line is read as the key. */
  lemma KeyReadIff(lines: seq<Line>, k: nat)
    requires k < |lines|
    ensures KeyRead(lines, k) == Some(PrettyName) <==> ReadsPretty(lines, k)
  {
    if PendingBefore(lines, k) && KeyMatches(lines, k) {
      assert KeyRead(lines, k).value[0] == '\n' != PrettyName[0];
    }
  }

  /** A capture: at most 31 characters. */
  type CaptureText = s: string | |s| <= CaptureMax

  /** What one line's read stores: the key buffer's new contents (`None`
      when the key conversion fails and the buffer is left alone), and the
      capture written into the caller's buffer, if any. */
  datatype Read = Read(key: Option<string>, capture: Option<CaptureText>)

  /** The read of line `k`; a failed key conversion stops the read before
      anything is captured. */
  function ReadOf(lines: seq<Line>, k: nat): Read
    requires k < |lines|
  {
    var c := Capture(lines[k].value);
    Read(KeyRead(lines, k),
         if !KeyMatches(lines, k) || c.None? then None else var t: CaptureText := c.value; Some(t))
  }

  /** The reads of `lines`, in order. */
  function ReadsOf(lines: seq<Line>): (rs: seq<Read>)
    ensures |rs| == |lines|
    decreases |lines|
  {
    if |lines| == 0 then []
    else ReadsOf(lines[..|lines| - 1]) + [ReadOf(lines, |lines| - 1)]
  }

  /** Whether a break is left unread after line `k` depends only on the
      lines up to `k`. */
  lemma {:induction false} PendingPrefix(lines: seq<Line>, m: nat, k: nat)
    requires k < m <= |lines|
    ensures PendingAfter(lines[..m], k) == PendingAfter(lines, k)
    decreases k
  {
    assert lines[..m][k] == lines[k];
    if 0 < k {
      PendingPrefix(lines, m, k - 1);
    }
  }

  /** Entry `k` of `ReadsOf` is the read of line `k`. */
  lemma {:induction false} ReadsOfAt(lines: seq<Line>, k: nat)
    requires k < |lines|
    ensures ReadsOf(lines)[k] == ReadOf(lines, k)
    decreases |lines|
  {
    var m := |lines| - 1;
    if k < m {
      var front := lines[..m];
      ReadsOfAt(front, k);
      assert front[k] == lines[k];
      if 0 < k {
        PendingPrefix(lines, m, k - 1);
      }
    }
  }

  /** The read of line `k` stores the key `PRETTY_NAME` exactly when that
      line is read as the key, and captures exactly when its key
      conversion matches and its value yields a capture. */
  lemma ReadsOfIff(lines: seq<Line>, k: nat)
    requires k < |lines|
    ensures ReadsOf(lines)[k].key == Some(PrettyName) <==> ReadsPretty(lines, k)
    ensures ReadsOf(lines)[k].key.None? <==> !KeyMatches(lines, k)
    ensures ReadsOf(lines)[k].capture.Some? <==> KeyMatches(lines, k) && Capture(lines[k].value).Some?
    ensures ReadsOf(lines)[k].capture.Some? ==> ReadsOf(lines)[k].capture.value == Capture(lines[k].value).value
  {
    ReadsOfAt(lines, k);
    KeyReadIff(lines, k);
  }

  /** The buffer after one read: a capture and its terminator written over
      the front, the rest untouched. */
  function Store(buf: seq<char>, c: Option<CaptureText>): (r: seq<char>)
    requires |buf| > CaptureMax
    ensures |r| == |buf|
  {
    match c
    case None => buf
    case Some(text) => text + [Nul] + buf[|text| + 1..]
  }

  /** A read that captures nothing leaves the buffer alone; otherwise the
      capture and a terminator sit at its front and every later byte is
      untouched. */
  lemma StoreWrites(buf: seq<char>, c: Option<CaptureText>)
    requires |buf| > CaptureMax
    ensures c.None? ==> Store(buf, c) == buf
    ensures c.Some? ==>
      var r := Store(buf, c);
      && r[..|c.value|] == c.value && r[|c.value|] == Nul
      && forall k :: |c.value| < k < |buf| ==> r[k] == buf[k]
  {
  }

  /** One pass of the loop body on the buffer: the last byte is cleared,
      then the line is read. */
  function Step(buf: seq<char>, c: Option<CaptureText>): (r: seq<char>)
    requires |buf| > CaptureMax
    ensures |r| == |buf| && r[|r| - 1] == Nul
  {
    Store(buf[|buf| - 1 := Nul], c)
  }

  /** The buffer after the loop body has run over the first `n` reads in
      order. */
  function Stored(rs: seq<Read>, n: nat, buf: seq<char>): (r: seq<char>)
    requires |buf| > CaptureMax && n <= |rs|
    ensures |r| == |buf|
  {
    if n == 0 then buf
    else Step(Stored(rs, n - 1, buf), rs[n - 1].capture)
  }

  /** The buffer after all the reads and one more pass that hit the end of
      the file, which clears the last byte and reads nothing. */
  function StoredAtEnd(rs: seq<Read>, buf: seq<char>): (r: seq<char>)
    requires |buf| > CaptureMax
    ensures |r| == |buf|
  {
    var b := Stored(rs, |rs|, buf);
    b[|b| - 1 := Nul]
  }

  /** The key buffer after read `r`: the key it stores, or `key` kept
      when its conversion fails. */
  function KeyAfter(key: string, r: Read): (key': string)
    ensures key' == PrettyName && key != PrettyName ==> r.key == Some(PrettyName)
    ensures r.key == Some(PrettyName) ==> key' == PrettyName
  {
    if r.key.Some? then r.key.value else key
  }

  /** Position of the first read at or after `k` whose key is
      `PRETTY_NAME`. */
  function FirstPretty(rs: seq<Read>, k: nat): (m: Option<nat>)
    requires k <= |rs|
    ensures m.Some? ==> k <= m.value < |rs| && rs[m.value].key == Some(PrettyName)
    decreases |rs| - k
  {
    if k == |rs| then None
    else if rs[k].key == Some(PrettyName) then Some(k)
    else FirstPretty(rs, k + 1)
  }

  /** No read before the first match has the key, and there is no match
      exactly when no read has it. */
  lemma {:induction false} FirstPrettyIsFirst(rs: seq<Read>, k: nat)
    requires k <= |rs|
    ensures FirstPretty(rs, k).Some? ==>
      forall j :: k <= j < FirstPretty(rs, k).value ==> rs[j].key != Some(PrettyName)
    ensures FirstPretty(rs, k).None? ==>
      forall j :: k <= j < |rs| ==> rs[j].key != Some(PrettyName)
    decreases |rs| - k
  {
    if k < |rs| && rs[k].key != Some(PrettyName) {
      FirstPrettyIsFirst(rs, k + 1);
    }
  }

  /** A read with the key, and none before it from `k` on, is the first
      match. */
  lemma {:induction false} FirstPrettyAt(rs: seq<Read>, k: nat, i: nat)
    requires k <= i < |rs| && rs[i].key == Some(PrettyName)
    requires forall j :: k <= j < i ==> rs[j].key != Some(PrettyName)
    ensures FirstPretty(rs, k) == Some(i)
    decreases i - k
  {
    if k < i {
      FirstPrettyAt(rs, k + 1, i);
    }
  }

  /** The outcome of the routine: the caller's buffer, or the process
      exit the routine performs. */
  datatype OsOutcome = Finished(buf: seq<char>) | Exit(status: int)

  /** The reference behaviour: with the first line read as `PRETTY_NAME`
      among the first twenty, the buffer as the loop body leaves it after
      that line; otherwise the process exits with status 25. A file that
      cannot be opened (`None`) leaves the buffer alone. */
  function ExpectedOs(source: Option<seq<Line>>, buf: seq<char>): OsOutcome
    requires |buf| > CaptureMax
  {
    match source
    case None => Finished(buf)
    case Some(lines) =>
      var rs := ReadsOf(lines);
      match FirstPretty(rs, 0)
      case Some(i) => if i < GuardLen then Finished(Stored(rs, i + 1, buf)) else Exit(ExitBrokenStream)
      case None => Exit(ExitBrokenStream)
  }

  /** What the loop has done after `t` passes: it has made the first `n`
      reads (fewer when the file ended), none of them but possibly the
      last storing the key, and the key buffer holds the key exactly when
      the last pass made a read that stored it. */
  predicate Scanned(rs: seq<Read>, buf0: seq<char>, t: nat, n: nat, key: string, buf: seq<char>)
    requires |buf0| > CaptureMax
  {
    && n == Min(t, |rs|)
    && (forall k :: 0 <= k < n - 1 ==> rs[k].key != Some(PrettyName))
    && (key == PrettyName <==> 0 < n && t <= |rs| && rs[n - 1].key == Some(PrettyName))
    && (t > |rs| && 0 < n ==> rs[n - 1].key != Some(PrettyName))
    && buf == (if t == 0 then buf0 else if t <= |rs| then Stored(rs, n, buf0)
               else StoredAtEnd(rs, buf0))
  }

  /** One more pass of the loop body that reads a line keeps `Scanned`. */
  lemma ScanRead(rs: seq<Read>, buf0: seq<char>, t: nat, n: nat, key: string, buf: seq<char>)
    requires |buf0| > CaptureMax && |buf| == |buf0|
    requires Scanned(rs, buf0, t, n, key, buf) && key != PrettyName && n < |rs|
    ensures Scanned(rs, buf0, t + 1, n + 1, KeyAfter(key, rs[n]), Step(buf, rs[n].capture))
  {
    assert t == n;
    assert forall k :: 0 <= k < n ==> rs[k].key != Some(PrettyName);
  }

  /** One more pass of the loop body that meets the end of the file keeps
      `Scanned`. */
  lemma ScanEnd(rs: seq<Read>, buf0: seq<char>, t: nat, n: nat, key: string, buf: seq<char>)
    requires |buf0| > CaptureMax && |buf| == |buf0|
    requires Scanned(rs, buf0, t, n, key, buf) && key != PrettyName && n == |rs|
    ensures Scanned(rs, buf0, t + 1, n, key, buf[|buf| - 1 := Nul])
  {
  }

  /** The loop stops at the first line read as `PRETTY_NAME`. */
  lemma ScanFound(lines: seq<Line>, buf0: seq<char>, t: nat, n: nat, buf: seq<char>)
    requires |buf0| > CaptureMax
    requires 1 <= t <= GuardLen
    requires Scanned(ReadsOf(lines), buf0, t, n, PrettyName, buf)
    ensures buf[|buf| - 1] == Nul
    ensures ExpectedOs(Some(lines), buf0) == Finished(buf)
  {
    var rs := ReadsOf(lines);
    assert t <= |rs| && n == t;
    FirstPrettyAt(rs, 0, n - 1);
  }

  /** Twenty-one passes, the first twenty without the key: no line among
      the first twenty is read as `PRETTY_NAME`. */
  lemma ScanExhausted(lines: seq<Line>, buf0: seq<char>, n: nat, key: string, buf: seq<char>)
    requires |buf0| > CaptureMax
    requires Scanned(ReadsOf(lines), buf0, GuardLen + 1, n, key, buf)
    ensures ExpectedOs(Some(lines), buf0) == Exit(ExitBrokenStream)
  {
    FirstPrettyIsFirst(ReadsOf(lines), 0);
  }

  /** One pass of the loop body: clear the buffer's last byte, then make
      the next read when the file has another line. */
  method ReadLine(rs: seq<Read>, ghost buf0: seq<char>, ghost t: nat, n: nat, key: string, out: seq<char>)
    returns (n': nat, key': string, out': seq<char>)
    requires |buf0| > CaptureMax && |out| == |buf0|
    requires Scanned(rs, buf0, t, n, key, out) && key != PrettyName
    ensures |out'| == |buf0|
    ensures Scanned(rs, buf0, t + 1, n', key', out')
  {
    if n == |rs| {
      ScanEnd(rs, buf0, t, n, key, out);
      n', key', out' := n, key, out[|out| - 1 := Nul];
    } else {
      ScanRead(rs, buf0, t, n, key, out);
      n', key', out' := n + 1, KeyAfter(key, rs[n]), Step(out, rs[n].capture);
    }
  }

  /** The routine. `source` is the file's lines, `None` when it cannot be
      opened; `buf` is the caller's buffer, whose size the source requires
      to hold a full capture and its terminator. */
  method GetOs(source: Option<seq<Line>>, buf: seq<char>) returns (r: OsOutcome)
    requires |buf| > CaptureMax
    ensures r == ExpectedOs(source, buf)
  {
    if source.None? {
      return Finished(buf);
    }
    var rs := ReadsOf(source.value);
    var out := buf;
    var key := "";
    var guard: nat := GuardLen;
    var n: nat := 0;
    while key != PrettyName
      invariant guard <= GuardLen && |out| == |buf|
      invariant Scanned(rs, buf, GuardLen - guard, n, key, out)
      decreases guard
    {
      n, key, out := ReadLine(rs, buf, GuardLen - guard, n, key, out);
      if guard == 0 {
        ScanExhausted(source.value, buf, n, key, out);
        return Exit(ExitBrokenStream);
      }
      guard := guard - 1;
    }
    ScanFound(source.value, buf, GuardLen - guard, n, out);
    if out[|out| - 1] != Nul {
      return Exit(ExitBrokenStream);
    }
    return Finished(out);
  }

  /** The process exits with status 25 exactly when none of the first
      twenty lines is read as the key `PRETTY_NAME`: a line carrying the
      key is missed when the line before it left its break unread. */
  lemma ExitIff(lines: seq<Line>, buf: seq<char>)
    requires |buf| > CaptureMax
    ensures ExpectedOs(Some(lines), buf) == Exit(ExitBrokenStream) <==>
      forall k :: 0 <= k < Min(GuardLen, |lines|) ==> !ReadsPretty(lines, k)
    ensures ExpectedOs(Some(lines), buf).Exit? ==> ExpectedOs(Some(lines), buf).status == ExitBrokenStream
  {
    var rs := ReadsOf(lines);
    FirstPrettyIsFirst(rs, 0);
    forall k | 0 <= k < |lines|
      ensures rs[k].key == Some(PrettyName) <==> ReadsPretty(lines, k)
    {
      ReadsOfIff(lines, k);
    }
  }

  /** An empty assignment with a key leaves its line break unread, so
      the next line's key is read with a line break in front of it. */
  lemma EmptyValuePending(lines: seq<Line>, k: nat)
    requires k + 1 < |lines| && lines[k].key != "" && lines[k].value == ""
    ensures KeyRead(lines, k + 1) == Some("\n" + lines[k + 1].key)
  {
    assert PendingAfter(lines, k);
  }

  /** A quoted value's read stops at its closing quote, so the line skip
      consumes the rest of the line. */
  lemma ClosedQuoteNotPending(w: string, rest: string)
    requires '"' !in w && 0 < |w|
    ensures !BreakPending("\"" + w + "\"" + rest)
  {
    var v := "\"" + w + "\"" + rest;
    assert v[1..] == w + "\"" + rest;
    assert v[1..][0] == w[0] != '"';
    assert v[1..][|w|] == '"';
  }

  /** A value of quotes followed by more than 31 quote-free characters is
      cut by the read, and the line skip consumes the rest. */
  lemma LongValueNotPending(v: string)
    requires |v| > CaptureMax + 1 && v[0] == '"'
    requires forall k :: 1 <= k < |v| ==> v[k] != '"'
    ensures !BreakPending(v)
  {
    assert v[1..][0] == v[1];
  }

  /** A file whose `PRETTY_NAME` lines each follow an empty assignment
      with a key makes the process exit with status 25. */
  lemma NameAfterEmptyMissed(lines: seq<Line>, buf: seq<char>)
    requires |buf| > CaptureMax
    requires forall k :: 0 <= k < |lines| && lines[k].key == PrettyName ==>
      0 < k && lines[k - 1].key != "" && lines[k - 1].value == ""
    ensures ExpectedOs(Some(lines), buf) == Exit(ExitBrokenStream)
  {
    forall k | 0 <= k < |lines|
      ensures !ReadsPretty(lines, k)
    {
      if lines[k].key == PrettyName {
        assert PendingAfter(lines, k - 1);
      }
    }
    ExitIff(lines, buf);
  }

  /** `ID=` right before `PRETTY_NAME="X"`: the name line is read with a
      line break in front of its key, so the process exits. */
  lemma EmptyAssignmentExample(buf: seq<char>)
    requires |buf| > CaptureMax
    ensures ExpectedOs(Some([Line("ID", ""), Line(PrettyName, "\"X\"")]), buf) == Exit(ExitBrokenStream)
  {
    var lines := [Line("ID", ""), Line(PrettyName, "\"X\"")];
    assert lines[0].key != PrettyName by {
      assert |lines[0].key| != |PrettyName|;
    }
    NameAfterEmptyMissed(lines, buf);
  }

  /** A bare `=` right before `PRETTY_NAME="X"`: the key conversion fails
      on the bare line, the line skip reads it whole, and the name line is
      read as the key and captured. */
  lemma BareAssignmentSkipped(buf: seq<char>)
    requires |buf| > CaptureMax
    ensures var r := ExpectedOs(Some([Line("", ""), Line(PrettyName, "\"X\"")]), buf);
      r.Finished? && r.buf[..2] == "X" + [Nul]
  {
    var lines := [Line("", ""), Line(PrettyName, "\"X\"")];
    assert lines[0].key != PrettyName;
    assert Capture(lines[1].value) == Some("X") by {
      var v := lines[1].value;
      assert v[1..] == "X" + "\"";
      assert v[1..][0] == 'X';
      assert LeadingQuotes(v[1..]) == 0;
      assert LeadingQuotes(v) == 1;
      QuoteFreeRunStops("X", "\"", CaptureMax);
    }
    NameCaptured(lines, buf, 1);
  }

  /** A line with an empty key captures nothing: `="Foo"` before an
      unquoted `PRETTY_NAME` leaves the buffer as it was, apart from its
      cleared last byte. */
  lemma EmptyKeyStoresNothing(buf: seq<char>)
    requires |buf| > CaptureMax
    ensures ExpectedOs(Some([Line("", "\"Foo\""), Line(PrettyName, "bar")]), buf)
      == Finished(buf[|buf| - 1 := Nul])
  {
    var lines := [Line("", "\"Foo\""), Line(PrettyName, "bar")];
    assert lines[0].key != PrettyName;
    ReadsOfIff(lines, 0);
    UnquotedKeepsEarlier(lines, buf, 1);
  }

  /** A finished scan leaves the buffer's last byte cleared, so the check
      for an overwritten buffer never fires. */
  lemma FinishedEndsNul(source: Option<seq<Line>>, buf: seq<char>)
    requires |buf| > CaptureMax && source.Some?
    requires ExpectedOs(source, buf).Finished?
    ensures var b := ExpectedOs(source, buf).buf; |b| == |buf| && b[|b| - 1] == Nul
  {
  }

  /** The first line read as `PRETTY_NAME`, when its value is quoted, leaves its
      capture (at most 31 characters) and a terminator at the front of the
      buffer. */
  lemma NameCaptured(lines: seq<Line>, buf: seq<char>, i: nat)
    requires |buf| > CaptureMax
    requires i < GuardLen && i < |lines| && ReadsPretty(lines, i)
    requires forall k :: 0 <= k < i ==> !ReadsPretty(lines, k)
    requires Capture(lines[i].value).Some?
    ensures var c := Capture(lines[i].value).value;
      var r := ExpectedOs(Some(lines), buf);
      && r.Finished?
      && |c| <= CaptureMax
      && r.buf[..|c|] == c && r.buf[|c|] == Nul
  {
    var rs := ReadsOf(lines);
    forall k | 0 <= k <= i
      ensures rs[k].key == Some(PrettyName) <==> ReadsPretty(lines, k)
    {
      ReadsOfIff(lines, k);
    }
    FirstPrettyAt(rs, 0, i);
    ReadsOfIff(lines, i);
    StoreWrites(Stored(rs, i, buf)[|buf| - 1 := Nul], rs[i].capture);
  }

  /** When the value of the first line read as `PRETTY_NAME` is not quoted (or the
      quotes enclose nothing), the buffer keeps what the earlier lines left
      in it. */
  lemma UnquotedKeepsEarlier(lines: seq<Line>, buf: seq<char>, i: nat)
    requires |buf| > CaptureMax
    requires i < GuardLen && i < |lines| && ReadsPretty(lines, i)
    requires forall k :: 0 <= k < i ==> !ReadsPretty(lines, k)
    requires Capture(lines[i].value).None?
    ensures var before := Stored(ReadsOf(lines), i, buf);
      ExpectedOs(Some(lines), buf) == Finished(before[|before| - 1 := Nul])
  {
    var rs := ReadsOf(lines);
    forall k | 0 <= k <= i
      ensures rs[k].key == Some(PrettyName) <==> ReadsPretty(lines, k)
    {
      ReadsOfIff(lines, k);
    }
    FirstPrettyAt(rs, 0, i);
    ReadsOfIff(lines, i);
  }

  /** Capturing from `"Arch Linux"` keeps the quote-free run. */
  lemma ArchCapture()
    ensures Capture("\"Arch Linux\"") == Some("Arch Linux")
  {
    var v := "\"Arch Linux\"";
    assert v[1..] == "Arch Linux" + "\"";
    assert v[1..][0] == 'A';
    assert LeadingQuotes(v[1..]) == 0;
    assert LeadingQuotes(v) == 1;
    QuoteFreeRunStops("Arch Linux", "\"", CaptureMax);
  }

  /** A quote-free text shorter than `max` followed by a quote is the run. */
  lemma {:induction false} QuoteFreeRunStops(w: string, rest: string, max: nat)
    requires '"' !in w && |w| < max && |rest| > 0 && rest[0] == '"'
    ensures QuoteFreeRun(w + rest, max) == w
    decreases |w|
  {
    if |w| == 0 {
      assert w + rest == rest;
    } else {
      assert (w + rest)[1..] == w[1..] + rest;
      QuoteFreeRunStops(w[1..], rest, max - 1);
      assert [w[0]] + w[1..] == w;
    }
  }

  /** A quoted value whose first 31 characters after the quote hold no
      quote is cut after them, whatever follows. */
  lemma LongValueCut(v: string)
    requires |v| > CaptureMax && v[0] == '"'
    requires forall k :: 1 <= k <= CaptureMax ==> v[k] != '"'
    ensures Capture(v) == Some(v[1..CaptureMax + 1])
  {
    assert LeadingQuotes(v) == 1 by {
      assert v[1..][0] == v[1];
    }
    var w := v[1..];
    assert forall k :: 0 <= k < CaptureMax ==> w[k] == v[k + 1];
    QuoteFreeRunPrefix(w, CaptureMax);
    assert w[..CaptureMax] == v[1..CaptureMax + 1];
  }

  /** A closed quoted value of more than 31 characters is cut after 31,
      its closing quote never reached. */
  lemma LongClosedValueCut(w: string)
    requires '"' !in w && |w| > CaptureMax
    ensures Capture("\"" + w + "\"") == Some(w[..CaptureMax])
  {
    var v := "\"" + w + "\"";
    assert forall k :: 1 <= k <= CaptureMax ==> v[k] == w[k - 1];
    LongValueCut(v);
    assert v[1..CaptureMax + 1] == w[..CaptureMax];
  }

  /** Without quotes among its first `max` characters, the run is those
      characters. */
  lemma QuoteFreeRunPrefix(v: string, max: nat)
    requires |v| >= max && forall k :: 0 <= k < max ==> v[k] != '"'
    ensures QuoteFreeRun(v, max) == v[..max]
  {
  }
}
