# puppyfetch core, modelled in Dafny

puppyfetch prints a small ASCII puppy with a column of system facts beside
it: user@host, OS name, CPU, kernel, session type and memory. This project
models the parts of `puppyfetch.c` that compute the output and proves what
they promise:

- **Art** (`art.dfy`) is the art layout engine. `get_art_square_width` measures
  the longest line of the art that is ended by a line break.
  `art_drawline` draws one art line from a cursor, right-padded with
  spaces, and returns the cursor one past the character it stopped at. The
  art is the character sequence of a C string. A cursor is an index into it,
  and `|art|` is the terminator. `Split` cuts the art into its pieces
  between line breaks, and `Join` glues them back.
- **Layout** (`layout.dfy`) covers the entry point's row loop and drain loop.
  Each displayable row (name and value present, value non-empty) is
  printed after the next art line. The art lines left over are then
  drawn alone. `Render` is the loops written as methods. `ExpectedRender`
  and `Arrange` form the reference layout it is proved equal to. Two
  kinds of undefined behaviour in the source are explicit outcomes: the
  skip loop reading the row after the table (`RowIndexOverrun`), and the
  art cursor being read one past the terminator (`ArtOverrun`).
- **Vendor** (`vendor.dfy`) is the vendor prettifier. It walks the table
  `AuthenticAMD → AMD`, `GenuineIntel → Intel` in order, stops at an entry
  without a vendor, and the first exact match wins.
- **MemInfo** (`meminfo.dfy`) and **Decimal** (`decimal.dfy`) cover
  `get_meminfo_usage`. The token scan keeps the last `MemTotal:` and
  `MemAvailable:` values. The used size is `total - available`; the
  source leaves its signed overflow undefined, and the model makes it an
  explicit outcome. Both sizes are divided by 1049 toward zero. The report
  is "%lld mib / %lld mib" in a buffer of the caller's size. `Decimal` is
  `%lld`'s decimal text, with a parser that is its exact inverse.
- **OsRelease** (`osrelease.dfy`) is `get_os`. It reads `/etc/os-release` one
  line at a time until the key `PRETTY_NAME`, which it accepts only among
  the first twenty lines. When none of them has it, a twenty-first line is
  still read before the process exits with status 25. Each line's read
  stores the text after the value's leading quotes, up to the next quote
  and at most 31 characters. When a read uses up the whole value (an empty
  value, or quotes and exactly 31 characters with no closing quote), the
  line skip `%*[^\n]` has nothing to match and leaves the line break
  unread. The next key is then read with a line break in front of it, so
  a `PRETTY_NAME` right after such a line is not recognised. The key
  conversion `%255[^=]` needs at least one character. A line that starts
  with '=' is therefore not read at all, unless a line break left unread
  comes first. The key buffer and the caller's buffer keep their contents,
  and the line skip consumes the whole line, break included. A `char`
  stands for one byte of the file.
- **Config** (`config.dfy`) is `config_path`: `$HOME` followed by
  "/.config/puppyfetch", built by two `strncpy` calls into a static buffer
  of `PATH_MAX` (4096) bytes that caches it.

`wrappers.dfy` holds `Option`, `Min` and `Max`.

Where the code disagrees with its own doc comments (`puppyfetch.c:44-59`),
the model follows the code:

- The square width ignores the unterminated last piece: "abc\nde\nfghij"
  has width 3.
- `art_drawline` never returns a null pointer and pads to exactly the width,
  not to two more than it.

The code also settles two points that one might expect the other way, and
the model follows it there too:

- A repeated meminfo key keeps its last value, not its first
  (`puppyfetch.c:332-336` assigns on every match).
- A skipped row does not use up an art line (`puppyfetch.c:176-181` skips
  rows before the one art line drawn per printed row).

## Model

| member | source | states |
|---|---|---|
| Art.SquareWidth | puppyfetch.c:192-208 | the scan returns the length of the longest line ended by a line break, and no such line is longer |
| Art.ClosedIgnoresTail | puppyfetch.c:196-205 | characters after the last line break never change the square width, since only a break updates the maximum |
| Art.NoBreakNoWidth | puppyfetch.c:193-207 | art without any line break has square width 0 |
| Art.SquareWidthUnterminated | puppyfetch.c:192-208 | "abc\nde\nfghij" has square width 3: its unterminated last line is not measured |
| Art.SquareWidthTerminated | puppyfetch.c:192-208 | "abc\nde\nfghij\n" has square width 5 once the last line is ended |
| Art.SplitJoin | puppyfetch.c:44-50 | the newline-delimited lines of the art, joined back with breaks, give the art again |
| Art.JoinSplit | puppyfetch.c:44-50 | break-free lines joined with breaks are cut back into exactly those lines |
| Art.SplitCount | puppyfetch.c:196-199 | the art has one more line than it has line breaks |
| Art.Pad | puppyfetch.c:218-221 | a padded line keeps its characters, is followed only by spaces, and is as long as the longer of the line and the width |
| Art.DrawLine | puppyfetch.c:210-224 | the drawer writes the line from the cursor padded to the width, and returns the cursor one past the break that ends it, or one past the terminator when no break follows |
| Art.DrawLineStep | puppyfetch.c:210-224 | drawing from the start of line k writes line k padded and returns the start of line k + 1 |
| Art.CursorAtEnd | puppyfetch.c:184 | the cursor rests on the terminator exactly after the last break, when the art ends in a break |
| Art.DrawAllLines | puppyfetch.c:180-187 | on art that ends in a line break, drawing from cursor 0 at the square width takes one line per call, each written at exactly that width, and the cursor rests on the terminator after as many calls as there are line breaks |
| Art.PuppyShape | puppyfetch.c:17-23 | the puppy is six lines, each ended by a break, and its square width is 11 |
| Layout.ShownIndicesExact | puppyfetch.c:175-178 | the rows printed are exactly the rows with a name and a non-empty value, in table order |
| Layout.ShownTextsAtIndices | puppyfetch.c:181 | the texts printed beside the art are the printed rows' name and value, in that order |
| Layout.SkipHidden | puppyfetch.c:176-178 | the skip loop stops at the next displayable row, passing only hidden rows, or runs off the end of the table |
| Layout.DrawRows | puppyfetch.c:175-182 | the row loop prints one line per displayable row, each a reference line, ending with the cursor at the next art line; it reads past the art only when there are more displayable rows than art lines, and past the table only when the last row is hidden |
| Layout.DrainArt | puppyfetch.c:184-187 | after the rows, the drain loop completes the reference layout: the remaining art lines drawn alone until the cursor rests on the terminator, or the overrun when it steps past it |
| Layout.Render | puppyfetch.c:161-187 | the two loops produce the reference layout: every art line padded to the square width, the printed rows' texts beside the first lines, or the overrun the source runs into |
| Layout.RenderSucceedsIff | puppyfetch.c:175-187 | the output completes exactly when the last row is displayable (or there are none), there are no more printed rows than art line breaks, and the art is empty or ends in a break |
| Layout.RenderDrainsArt | puppyfetch.c:175-187 | a completed output has one line per art line break; line k is art line k padded to the square width, followed by the k-th printed row, or by nothing once the rows run out |
| Layout.ArrangeLines | puppyfetch.c:180-186 | each drawn line is its padded art piece followed by the row text that belongs beside it |
| Layout.PuppyLayout | puppyfetch.c:152-187 | the program's six rows beside the puppy complete in six lines whenever the memory row is displayable |
| Layout.SkippedRowKeepsArt | puppyfetch.c:157 | with the session row's value absent, the memory row goes beside the fifth puppy line and the sixth puppy line is drawn alone |
| Layout.SessionRowSkipped | puppyfetch.c:157 | with only the session row hidden, the printed rows are the other five |
| Layout.HiddenMemoryRow | puppyfetch.c:176-178 | an unreadable meminfo leaves the memory row empty, so the skip loop as written reads past the table; the bounded loop prints the other five rows |
| Layout.PuppyAlwaysDrawn | puppyfetch.c:175-187 | with the bounded skip loop, any six rows beside the puppy print six lines, each a puppy line at width 11 followed by its row text |
| Vendor.Reach | puppyfetch.c:287-289 | the loop reaches exactly the entries before the first one without a vendor |
| Vendor.FirstMatchFromIsFirst | puppyfetch.c:290-292 | the match found renames the vendor with no earlier reachable entry doing so, and none is found only when no reachable entry renames it |
| Vendor.Prettify | puppyfetch.c:287-294 | the loop leaves the first matching replacement, or the vendor unchanged |
| Vendor.PrettyMeaning | puppyfetch.c:287-294 | a vendor renamed by a reachable entry becomes the first such entry's replacement; any other vendor stays as it is |
| Vendor.PrettyIdempotent | puppyfetch.c:287-294 | when no replacement is itself a vendor in the table, prettifying twice is prettifying once |
| Vendor.MappingsBehaviour | puppyfetch.c:39-42 | the program's table turns AuthenticAMD into AMD and GenuineIntel into Intel, leaves every other name alone, and is idempotent |
| Decimal.FormatNat | puppyfetch.c:346 | a natural number is written as a non-empty digit run without a superfluous leading zero |
| Decimal.ValueOfFormat | puppyfetch.c:346 | the digits written for a number denote that number |
| Decimal.FormatValueOf | puppyfetch.c:346 | a digit run without a superfluous leading zero is the text of the number it denotes |
| Decimal.ParseFormatInt | puppyfetch.c:346 | reading the `%lld` text of any integer gives the integer back |
| Decimal.FormatParseInt | puppyfetch.c:346 | every text that reads as an integer is that integer's `%lld` text |
| Decimal.FormatIntLength | puppyfetch.c:346 | a 64-bit integer takes at most 20 characters |
| MemInfo.LastValueMeaning | puppyfetch.c:332-336 | a key has a value exactly when some record carries it, and the value is that of the last record carrying it |
| MemInfo.LastValueSkips | puppyfetch.c:330-336 | records with other names, wherever they are, do not change a key's value |
| MemInfo.ScanMeminfo | puppyfetch.c:318-337 | the scan ends with the last MemTotal: and MemAvailable: values, 0 when a key never appears |
| MemInfo.TruncDiv | puppyfetch.c:342-344 | the quotient is truncated toward zero: the largest multiple of the divisor not beyond the dividend on its side of zero |
| MemInfo.Snprintf | puppyfetch.c:346 | the buffer receives at most size - 1 characters of the text, a prefix of it, and is untouched when the size is 0 |
| MemInfo.GetMeminfoUsage | puppyfetch.c:312-347 | an unreadable file leaves the buffer alone; otherwise the subtraction overflows exactly when the difference leaves 64 bits, and the buffer receives the report of the used and total sizes in MiB |
| MemInfo.Summarize | puppyfetch.c:339-344 | the used size exists exactly when total minus available fits 64 bits; both MiB figures are the KiB sizes divided by 1049 and truncated toward zero, and fit 64 bits |
| MemInfo.FormatUsage | puppyfetch.c:346 | the report reads back as the two figures it was written from |
| MemInfo.FormatParseUsage | puppyfetch.c:346 | a text that reads as two figures is exactly their report |
| MemInfo.FormatUsageLength | puppyfetch.c:131-138 | a report of 64-bit figures takes at most 51 characters, so the program's 64-byte buffer holds it |
| MemInfo.ReportFits | puppyfetch.c:131-138 | in the program's 64-byte buffer the report is never cut short and reads back as the MiB figures of the last total and available sizes |
| MemInfo.TypicalReport | puppyfetch.c:312-346 | a file with 16318480 kB total and 9000000 kB available reports "6976 mib / 15556 mib" |
| OsRelease.LeadingQuotes | puppyfetch.c:362 | the count covers exactly the quotes the conversion `%*["]` skips |
| OsRelease.QuoteFreeRun | puppyfetch.c:362 | the conversion `%31[^"]` takes a quote-free prefix of the text, stopping at a quote or at the limit |
| OsRelease.Capture | puppyfetch.c:362 | a read stores between 1 and 31 quote-free characters, or nothing |
| OsRelease.StoreWrites | puppyfetch.c:362 | a read that captures nothing leaves the buffer alone; otherwise the capture and a terminator sit at the buffer's front and every later byte is untouched |
| OsRelease.Step | puppyfetch.c:361-362 | every pass of the loop body leaves the buffer's last byte cleared |
| OsRelease.KeyReadIff | puppyfetch.c:360-363 | a line's read sets the key buffer to PRETTY_NAME exactly when the line has that key and the line before did not leave its line break unread |
| OsRelease.ReadsOfIff | puppyfetch.c:362-363 | the read of each line sets the key buffer to PRETTY_NAME exactly when the line is read as that key; it leaves the key buffer alone exactly when the key conversion fails; and it captures exactly when the key conversion matches and the value yields a capture |
| OsRelease.EmptyValuePending | puppyfetch.c:362-363 | an empty assignment with a key leaves its line break unread, so the next line's key is read with a line break in front of it |
| OsRelease.ClosedQuoteNotPending | puppyfetch.c:362-363 | a value with a closing quote leaves that quote to the line skip, which then consumes the line break |
| OsRelease.LongValueNotPending | puppyfetch.c:362-363 | a quoted value of more than 31 characters leaves characters to the line skip, which then consumes the line break |
| OsRelease.FirstPrettyIsFirst | puppyfetch.c:360 | the loop stops at the first read that stores the key PRETTY_NAME, and never stops when none does |
| OsRelease.GetOs | puppyfetch.c:351-376 | the routine leaves the buffer as the loop body does up to the first line read as PRETTY_NAME among the first twenty, exits with status 25 otherwise, and leaves the buffer alone when the file cannot be opened |
| OsRelease.ExitIff | puppyfetch.c:359-367 | the process exits, with status 25, exactly when none of the first twenty lines is read as PRETTY_NAME, that is, has the key with no unread line break before it |
| OsRelease.NameAfterEmptyMissed | puppyfetch.c:359-367 | a file whose every PRETTY_NAME line follows an empty assignment with a key makes the process exit with status 25 |
| OsRelease.EmptyAssignmentExample | puppyfetch.c:359-367 | `ID=` followed by `PRETTY_NAME="X"` makes the process exit with status 25 |
| OsRelease.BareAssignmentSkipped | puppyfetch.c:359-363 | a bare `=` followed by `PRETTY_NAME="X"` finishes with "X" and a terminator at the front of the buffer: the bare line is skipped whole |
| OsRelease.EmptyKeyStoresNothing | puppyfetch.c:361-363 | a line `="Foo"` captures nothing, so with an unquoted PRETTY_NAME after it the buffer keeps its contents apart from the cleared last byte |
| OsRelease.FinishedEndsNul | puppyfetch.c:370-373 | a completed scan leaves the buffer's last byte cleared, so the overwrite check never exits |
| OsRelease.NameCaptured | puppyfetch.c:360-362 | the first line read as PRETTY_NAME, when its value is quoted, leaves its capture and a terminator at the front of the buffer |
| OsRelease.UnquotedKeepsEarlier | puppyfetch.c:361-362 | when that line stores nothing, the buffer keeps what earlier lines left in it |
| OsRelease.ArchCapture | puppyfetch.c:362 | the value "Arch Linux" in quotes is captured without its quotes |
| OsRelease.QuoteFreeRunStops | puppyfetch.c:362 | a quote-free text shorter than the limit and followed by a quote is captured whole |
| OsRelease.LongValueCut | puppyfetch.c:362 | a quoted value whose first 31 characters hold no quote is cut after those 31, whatever follows, a closing quote included |
| OsRelease.LongClosedValueCut | puppyfetch.c:362 | a closed quoted value of more than 31 characters is captured as its first 31 |
| Config.Strncpy | puppyfetch.c:391-392 | the copy writes exactly n bytes, the source's characters and then zero bytes, and nothing else |
| Config.CString | puppyfetch.c:170 | the path read from the buffer ends at its first zero byte, and there is none when the buffer holds no zero byte |
| Config.NoHome | puppyfetch.c:384-389 | without HOME the first call returns a null pointer and writes nothing |
| Config.PathBuilt | puppyfetch.c:390-392 | with room for the suffix and a terminator, the path is HOME followed by "/.config/puppyfetch" |
| Config.PathUnterminated | puppyfetch.c:390-392 | a HOME that fits the buffer but leaves no room for the suffix and a terminator leaves the path unterminated |
| Config.PathIff | puppyfetch.c:390-392 | for a HOME that fits the buffer, the path is HOME and the suffix exactly when both and a terminator fit |
| Config.PathOutOfBounds | puppyfetch.c:390-392 | a HOME longer than the buffer starts the second copy outside it |
| Config.ConfigPath | puppyfetch.c:380-395 | a filled buffer is returned unchanged; with an empty one, no HOME gives a null pointer, and a HOME is copied to the front, followed by the suffix and zero bytes to the buffer's end when it fits, with the second copy out of bounds exactly when HOME is longer than the buffer |
| Config.Cached | puppyfetch.c:381-383 | once the buffer is filled, every later call returns it unchanged, whatever HOME is then |
| Config.CheckedPath | puppyfetch.c:390-392 | with the length check, the first call returns a null pointer or exactly HOME and the suffix, and never copies out of bounds |

## Findings

| source | as written | input that shows it | evidently intended | confidence | as-written member | corrected member |
|---|---|---|---|---|---|---|
| puppyfetch.c:176-178 | the skip loop `while (is_entry_null(lines[i]) \|\| strlen(lines[i].value) == 0) ++i;` has no bound, so a hidden last row makes it read `lines[6]`, past the table | `/proc/meminfo` cannot be opened, so the memory row's value is the empty string | the check `if (i >= arrlen(lines)) break;` right after it shows the loop should stop at the end of the table | high; not executed | Layout.HiddenMemoryRow | Layout.PuppyAlwaysDrawn |
| puppyfetch.c:390-392 | when HOME leaves fewer than 20 free bytes, `strncpy` writes no terminator, and the returned path runs past the buffer; a HOME longer than 4096 makes `PATH_MAX - home_dir_sz` wrap around, so the second copy starts outside the buffer | HOME of 4077 characters (unterminated); HOME of 4097 characters (out of bounds) | fail quietly with a null pointer, as for a missing HOME, when the path does not fit | medium; not executed | Config.PathUnterminated | Config.CheckedPath |

`Layout.ArrangeBounded` and `Config.ConfigPathChecked` are the corrected
definitions. `Layout.BoundedAgrees` shows that the bounded loop changes
nothing except the table overrun.

## Left out

- I/O: files, standard output, `getenv`, `uname`, `gethostname`, `stat`
  and `mkdir` are left out. Their results become parameters: the
  token stream of `/proc/meminfo`, the lines of `/etc/os-release`, the
  value of HOME, the rows of the table. What is printed becomes the list
  of output lines.
- `get_cpuinfo_model` and its ARM variant: the fixed `SKIP_LINE` layout of
  `/proc/cpuinfo`, the clock file, and the floating-point GHz figure are
  left out. Only the vendor mapping inside it is modelled.
- The user@host row, the colour escape codes, and `get_pkgs_info` are left out.
- MemInfo.TruncDiv: divides exactly. The source converts the size to
  `double` first, which rounds values beyond 2^53 before dividing.
- MemInfo.ScanMeminfo: each record is the name token and the value variable
  after the numeric read. Names longer than 63 characters, which
  overflow `param_name`, are not modelled.
- OsRelease.GetOs: each line is modelled as its key and value. Reads that
  cross a line break are not modelled: the model stops every read at the
  end of its line. Such reads come from a line without '=', whose key
  conversion `%255[^=]` runs on into the next line, and from a value of
  bare quotes or a quote left open with fewer than 31 characters after it,
  where `%31[^"]` runs on into the next line.
- OsRelease.GetOs: keys over 255 characters are not modelled. After an
  unread line break the limit is 254, since the break takes one of the
  255 places. In the source, `%255[^=]` stops at the limit and the '='
  then fails to match. The key buffer holds the first 255 characters,
  nothing is captured, and the line skip consumes the rest of the line,
  break included. The model keeps the whole key, captures the value, and
  may leave the break unread.
- OsRelease.GetOs: the trailing `\n` of `SKIP_LINE` also skips blanks and
  blank lines before the next key. The model has no whitespace at the start
  of a line.
- OsRelease.GetOs: the buffer must hold at least 32 bytes, as a full
  capture and its terminator need. The source overruns a smaller one.
- NameAfterEmptyMissed: holds only when the empty assignment has a key.
  A bare `=` line fails the key conversion and leaves no break unread,
  so a PRETTY_NAME after it is found (BareAssignmentSkipped).
- OsRelease.ExitIff: exact for files whose reads stay within their lines.
  A read that crosses a line break can hide a later key or create one. The
  model does not cover those reads.
- Art: the art is the characters of a C string, so it holds no zero byte.
  The C scans stop at the first zero byte. The model has no such byte to
  stop at.
- Config.ConfigPath: HOME may not contain a zero byte, as no C string
  does. Only the buffer state is modelled, not the address returned.
- The undefined behaviour the source runs into (reading past the row
  table or past the art's terminator, a signed subtraction overflow, an
  out-of-bounds copy) is an explicit outcome. What a compiled program would
  then do is not modelled.
