/** The memory summary: a scan of the `/proc/meminfo` token stream that
    keeps the total and available sizes (in KiB), then a report of the used
    and total sizes in MiB, approximated as KiB / 1049, written as
    "%lld mib / %lld mib" into a bounded buffer. */
module MemInfo {
  import opened Wrappers
  import Decimal

  type Int64 = x: int | Decimal.InInt64(x)

  /** What one pass of the scan loop sees: the name token read and the
      value variable after the numeric read (which keeps its previous value
      when that read fails, as after the unit token "kB"). */
  datatype Record = Record(name: string, value: Int64)

  const TotalKey: string := "MemTotal:"
  const AvailableKey: string := "MemAvailable:"

  /** The divisor turning KiB into approximate MiB. */
  const KibPerMib: nat := 1049

  /** The value of the last record named `key`, if there is one. */
  function LastValue(records: seq<Record>, key: string): Option<Int64>
    decreases |records|
  {
    if |records| == 0 then None
    else if records[|records| - 1].name == key then Some(records[|records| - 1].value)
    else LastValue(records[..|records| - 1], key)
  }

  /** `LastValue` finds a value exactly when some record carries the key,
      and then it is the value of a record with that key after which no
      record carries it. */
  lemma {:induction false} LastValueMeaning(records: seq<Record>, key: string)
    ensures LastValue(records, key).Some? <==>
      exists i :: 0 <= i < |records| && records[i].name == key
    ensures LastValue(records, key).Some? ==>
      exists i :: 0 <= i < |records| && records[i] == Record(key, LastValue(records, key).value)
        && forall j :: i < j < |records| ==> records[j].name != key
    decreases |records|
  {
    if |records| > 0 {
      var front := records[..|records| - 1];
      LastValueMeaning(front, key);
      assert forall i :: 0 <= i < |front| ==> front[i] == records[i];
      if records[|records| - 1].name != key && LastValue(front, key).Some? {
        var i :| 0 <= i < |front| && front[i] == Record(key, LastValue(front, key).value)
          && forall j :: i < j < |front| ==> front[j].name != key;
        assert records[i] == front[i];
      }
    }
  }

  /** A record with another name, inserted anywhere, changes nothing. */
  lemma {:induction false} LastValueSkips(a: seq<Record>, r: Record, b: seq<Record>, key: string)
    requires r.name != key
    ensures LastValue(a + [r] + b, key) == LastValue(a + b, key)
    decreases |b|
  {
    if |b| == 0 {
      assert (a + [r] + b)[..|a|] == a;
      assert a + b == a;
    } else {
      var b' := b[..|b| - 1];
      LastValueSkips(a, r, b', key);
      assert (a + [r] + b)[..|a + [r] + b| - 1] == a + [r] + b';
      assert (a + b)[..|a + b| - 1] == a + b';
    }
  }

  /** The scan loop: every record named "MemTotal:" or "MemAvailable:"
      overwrites the matching variable, both starting at 0. */
  method ScanMeminfo(records: seq<Record>) returns (total: Int64, available: Int64)
    ensures total == LastValue(records, TotalKey).GetOr(0)
    ensures available == LastValue(records, AvailableKey).GetOr(0)
  {
    total, available := 0, 0;
    var i := 0;
    while i < |records|
      invariant i <= |records|
      invariant total == LastValue(records[..i], TotalKey).GetOr(0)
      invariant available == LastValue(records[..i], AvailableKey).GetOr(0)
    {
      assert records[..i + 1][..i] == records[..i];
      if records[i].name == TotalKey {
        total := records[i].value;
      } else if records[i].name == AvailableKey {
        available := records[i].value;
      }
      i := i + 1;
    }
    assert records[..i] == records;
  }

  /** `q` is `x / d` truncated toward zero: the multiple `q * d` is the
      one nearest to `x` on the side of zero. */
  predicate TruncQuotient(q: int, x: int, d: nat) {
    && (x >= 0 ==> 0 <= q && q * d <= x < (q + 1) * d)
    && (x < 0 ==> q <= 0 && (q - 1) * d < x <= q * d)
  }

  /** Division truncating toward zero, as the conversion of a `double`
      quotient back to `long long` does. */
  function TruncDiv(x: int, d: nat): (q: int)
    requires d > 0
    ensures TruncQuotient(q, x, d)
  {
    if x >= 0 then
      DivBounds(x, d);
      x / d
    else
      NegDivBounds(x, d);
      -((-x) / d)
  }

  /** The floor quotient of a natural number brackets it. */
  lemma DivBounds(x: nat, d: nat)
    requires d > 0
    ensures 0 <= x / d && (x / d) * d <= x < (x / d + 1) * d
  {
    var q, m := x / d, x % d;
    assert x == q * d + m && 0 <= m < d;
    assert (q + 1) * d == q * d + d;
  }

  /** The negated floor quotient of a negative number's magnitude
      brackets it from the side of zero. */
  lemma NegDivBounds(x: int, d: nat)
    requires d > 0 && x < 0
    ensures var q := -((-x) / d); q <= 0 && (q - 1) * d < x <= q * d
  {
    var p := (-x) / d;
    DivBounds(-x, d);
    assert (-p) * d == -(p * d);
    assert (-p - 1) * d == -((p + 1) * d);
  }

  /** A size divided down to MiB is no further from zero than the size,
      so it still fits a `long long`. */
  lemma TruncDivShrinks(x: int)
    ensures -(if x < 0 then -x else x) <= TruncDiv(x, KibPerMib) <= (if x < 0 then -x else x)
    ensures Decimal.InInt64(x) ==> Decimal.InInt64(TruncDiv(x, KibPerMib))
  {
  }

  /** The two figures reported, in MiB. */
  datatype Summary = Summary(used: int, total: int)

  /** The text the format "%lld mib / %lld mib" produces. */
  function FormatUsage(s: Summary): (r: string)
    ensures ParseUsage(r) == Some(s)
  {
    ParseParts(Decimal.FormatInt(s.used), Decimal.FormatInt(s.total));
    Decimal.ParseFormatInt(s.used);
    Decimal.ParseFormatInt(s.total);
    Decimal.FormatInt(s.used) + " mib / " + Decimal.FormatInt(s.total) + " mib"
  }

  /** Index of the first space in `s`, or `|s|`. */
  function FirstSpace(s: string): (i: nat)
    ensures i <= |s|
    ensures forall k :: 0 <= k < i ==> s[k] != ' '
    ensures i < |s| ==> s[i] == ' '
  {
    if |s| == 0 || s[0] == ' ' then 0 else 1 + FirstSpace(s[1..])
  }

  /** Reads a summary back from report text; `None` when the text is not
      of the report's form. */
  function ParseUsage(s: string): Option<Summary> {
    var i := FirstSpace(s);
    if i + 7 + 4 <= |s| && s[i..i + 7] == " mib / " && s[|s| - 4..] == " mib" then
      var used := Decimal.ParseInt(s[..i]);
      var total := Decimal.ParseInt(s[i + 7..|s| - 4]);
      if used.Some? && total.Some? then Some(Summary(used.value, total.value)) else None
    else None
  }

  /** The first space of a space-free word followed by more text is right
      after the word. */
  lemma FirstSpaceAfter(w: string, rest: string)
    requires ' ' !in w && |rest| > 0 && rest[0] == ' '
    ensures FirstSpace(w + rest) == |w|
  {
    assert (w + rest)[|w|] == ' ';
    assert forall k :: 0 <= k < |w| ==> (w + rest)[k] == w[k];
  }

  /** A text made of a space-free word, " mib / ", a second word and
      " mib" is read as those two words. */
  lemma ParseParts(a: string, b: string)
    requires ' ' !in a
    ensures var s := a + " mib / " + b + " mib";
      ParseUsage(s) == (
        var used := Decimal.ParseInt(a);
        var total := Decimal.ParseInt(b);
        if used.Some? && total.Some? then Some(Summary(used.value, total.value)) else None)
  {
    var sep, unit := " mib / ", " mib";
    var s := a + sep + b + unit;
    assert |sep| == 7 && |unit| == 4 && sep[0] == ' ';
    Slices4(a, sep, b, unit);
    FirstSpaceAfter(a, sep + b + unit);
    assert s == a + (sep + b + unit);
  }

  /** The four parts of a concatenation are its slices at the part
      boundaries. */
  lemma Slices4(a: string, b: string, c: string, d: string)
    ensures var s := a + b + c + d;
      var i, j, k := |a|, |a| + |b|, |a| + |b| + |c|;
      && s[..i] == a && s[i..j] == b && s[j..k] == c && s[k..] == d
  {
  }

  /** A text that reads as a summary is exactly that summary's report. */
  lemma FormatParseUsage(s: string)
    requires ParseUsage(s).Some?
    ensures FormatUsage(ParseUsage(s).value) == s
  {
    var i := FirstSpace(s);
    assert i + 11 <= |s| && s[i..i + 7] == " mib / " && s[|s| - 4..] == " mib";
    var a, b := s[..i], s[i + 7..|s| - 4];
    assert Decimal.ParseInt(a).Some? && Decimal.ParseInt(b).Some?;
    assert ParseUsage(s).value == Summary(Decimal.ParseInt(a).value, Decimal.ParseInt(b).value);
    Decimal.FormatParseInt(a);
    Decimal.FormatParseInt(b);
    Pieces(s, i, |s| - 4);
  }

  /** A text is its part before `i`, seven characters, the part up to `j`
      and the rest. */
  lemma Pieces(s: string, i: nat, j: nat)
    requires i + 7 <= j <= |s|
    ensures s == s[..i] + s[i..i + 7] + s[i + 7..j] + s[j..]
  {
  }

  /** What `snprintf` leaves in a buffer of `size` bytes: at most
      `size - 1` characters of the text; nothing is written when the size
      is 0. */
  function Snprintf(buf: string, text: string, size: nat): (r: string)
    ensures size == 0 ==> r == buf
    ensures size > 0 ==> |r| == Min(|text|, size - 1) && r == text[..|r|]
  {
    if size == 0 then buf
    else if |text| < size then text
    else text[..size - 1]
  }

  /** The result of the whole routine: the buffer's text, or the signed
      overflow of `total - available` that the source leaves undefined. */
  datatype MemOutcome = Buffer(text: string) | SubtractionOverflow

  /** The summary of the scanned sizes (in KiB), when the difference fits:
      the used and total sizes in MiB, truncated toward zero, both of
      which fit a `long long`. */
  function Summarize(total: Int64, available: Int64): (r: Option<Summary>)
    ensures r.Some? <==> Decimal.InInt64(total - available)
    ensures r.Some? ==>
      && TruncQuotient(r.value.used, total - available, KibPerMib)
      && TruncQuotient(r.value.total, total, KibPerMib)
      && Decimal.InInt64(r.value.used) && Decimal.InInt64(r.value.total)
  {
    TruncDivShrinks(total - available);
    TruncDivShrinks(total);
    var used := total - available;
    if Decimal.InInt64(used) then Some(Summary(TruncDiv(used, KibPerMib), TruncDiv(total, KibPerMib)))
    else None
  }

  /** The routine: `source` is the token stream of the file, `None` when
      it cannot be opened (the buffer is then left as it is). */
  method GetMeminfoUsage(source: Option<seq<Record>>, buf: string, size: nat) returns (r: MemOutcome)
    ensures source.None? ==> r == Buffer(buf)
    ensures source.Some? ==>
      var total := LastValue(source.value, TotalKey).GetOr(0);
      var available := LastValue(source.value, AvailableKey).GetOr(0);
      && (r == SubtractionOverflow <==> !Decimal.InInt64(total - available))
      && (r.Buffer? ==> r.text == Snprintf(buf, FormatUsage(Summarize(total, available).value), size))
  {
    if source.None? {
      return Buffer(buf);
    }
    var total, available := ScanMeminfo(source.value);
    var summary := Summarize(total, available);
    if summary.None? {
      return SubtractionOverflow;
    }
    return Buffer(Snprintf(buf, FormatUsage(summary.value), size));
  }

  /** A report of 64-bit figures takes at most 51 characters. */
  lemma FormatUsageLength(m: Summary)
    requires Decimal.InInt64(m.used) && Decimal.InInt64(m.total)
    ensures |FormatUsage(m)| <= 51
  {
    Decimal.FormatIntLength(m.used);
    Decimal.FormatIntLength(m.total);
  }

  /** In the program's 64-byte buffer the report is never cut short, so
      it reads back as the summary of the last "MemTotal:" and
      "MemAvailable:" values. */
  lemma ReportFits(records: seq<Record>, buf: string, r: MemOutcome)
    requires var total := LastValue(records, TotalKey).GetOr(0);
      var available := LastValue(records, AvailableKey).GetOr(0);
      && Decimal.InInt64(total - available)
      && r == Buffer(Snprintf(buf, FormatUsage(Summarize(total, available).value), 64))
    ensures var total := LastValue(records, TotalKey).GetOr(0);
      var available := LastValue(records, AvailableKey).GetOr(0);
      ParseUsage(r.text) == Some(Summary(TruncDiv(total - available, KibPerMib), TruncDiv(total, KibPerMib)))
  {
    var total := LastValue(records, TotalKey).GetOr(0);
    var available := LastValue(records, AvailableKey).GetOr(0);
    var m := Summarize(total, available).value;
    TruncDivShrinks(total - available);
    TruncDivShrinks(total);
    FormatUsageLength(m);
  }

  /** A typical file: the unit tokens repeat the previous value and the
      other keys are ignored. */
  const TypicalRecords: seq<Record> := [
    Record("MemTotal:", 16318480), Record("kB", 16318480),
    Record("MemFree:", 1234567), Record("kB", 1234567),
    Record("MemAvailable:", 9000000), Record("kB", 9000000)
  ]

  /** 16318480 KiB total with 9000000 KiB available reads as
      "6976 mib / 15556 mib". */
  lemma TypicalReport()
    ensures LastValue(TypicalRecords, TotalKey) == Some(16318480)
    ensures LastValue(TypicalRecords, AvailableKey) == Some(9000000)
    ensures Summarize(16318480, 9000000) == Some(Summary(6976, 15556))
    ensures FormatUsage(Summary(6976, 15556)) == "6976 mib / 15556 mib"
  {
    TypicalScan();
    TypicalDigits();
  }

  lemma TypicalDigits()
    ensures Decimal.FormatInt(6976) == "6976"
    ensures Decimal.FormatInt(15556) == "15556"
  {
    assert Decimal.FormatNat(69) == "69";
    assert Decimal.FormatNat(6976) == "6976";
    assert Decimal.FormatNat(155) == "155";
    assert Decimal.FormatNat(15556) == "15556";
  }

  lemma TypicalScan()
    ensures LastValue(TypicalRecords, TotalKey) == Some(16318480)
    ensures LastValue(TypicalRecords, AvailableKey) == Some(9000000)
  {
    var r := TypicalRecords;
    assert r[..5][..4] == r[..4] && r[..4][..3] == r[..3] && r[..3][..2] == r[..2];
    assert r[..2][..1] == r[..1];
    assert LastValue(r[..1], TotalKey) == Some(16318480);
    assert LastValue(r[..3], TotalKey) == Some(16318480);
    assert LastValue(r[..5], TotalKey) == Some(16318480);
    assert LastValue(r[..5], AvailableKey) == Some(9000000);
  }
}
