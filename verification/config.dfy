/** The configuration directory path: `$HOME` followed by
    "/.config/puppyfetch", built with two bounded copies into a static
    buffer of `PATH_MAX` bytes that caches it for later calls. A `char`
    stands for one byte, so lengths are the byte counts `strlen` gives. */
module Config {
  import opened Wrappers

  /** The buffer size, Linux's `PATH_MAX`. */
  const PathMax: nat := 4096

  const ConfigDir: string := ".config/puppyfetch"

  /** What is appended to the home directory. */
  const Suffix: string := "/" + ConfigDir

  /** The static buffer before the first call: all zero bytes. */
  const Empty: seq<char> := seq(PathMax, _ => Nul)

  /** `strncpy(dst + at, src, n)`: exactly `n` bytes are written from
      `at` on, the characters of `src` then zero bytes. */
  function Strncpy(dst: seq<char>, at: nat, src: string, n: nat): (r: seq<char>)
    requires at + n <= |dst|
    ensures |r| == |dst|
    ensures forall k :: 0 <= k < at || at + n <= k < |dst| ==> r[k] == dst[k]
    ensures forall k :: at <= k < at + n && k - at < |src| ==> r[k] == src[k - at]
    ensures forall k :: at <= k < at + n && k - at >= |src| ==> r[k] == Nul
  {
    dst[..at] + seq(n, j => if 0 <= j < |src| then src[j] else Nul) + dst[at + n..]
  }

  /** The C string stored in `buf`: the characters before the first zero
      byte; `None` when there is none, so reading it runs past the buffer. */
  function CString(buf: seq<char>): (r: Option<string>)
    ensures r.None? <==> Nul !in buf
    ensures r.Some? ==>
      && |r.value| < |buf| && buf[..|r.value|] == r.value
      && buf[|r.value|] == Nul && Nul !in r.value
  {
    if |buf| == 0 then None
    else if buf[0] == Nul then Some("")
    else match CString(buf[1..])
      case None => None
      case Some(s) => Some([buf[0]] + s)
  }

  /** A zero byte at `m` with none before it ends the C string there. */
  lemma CStringAt(buf: seq<char>, m: nat)
    requires m < |buf| && buf[m] == Nul && Nul !in buf[..m]
    ensures CString(buf) == Some(buf[..m])
  {
  }

  /** What one call returns: a null pointer, the static buffer, or a copy
      whose destination lies outside the buffer; and the buffer after it. */
  datatype Returned = NullPath | Buffer | OutOfBounds
  datatype Call = Call(result: Returned, buffer: seq<char>)

  /** One call: an already filled buffer is returned as it is; otherwise,
      without `HOME` nothing is written and a null pointer is returned, and
      with it, `HOME` is copied in and the suffix copied after it into the
      bytes that are left. `HOME` is a C string, so holds no zero byte. */
  function ConfigPath(buffer: seq<char>, home: Option<string>): (c: Call)
    requires |buffer| == PathMax
    requires home.Some? ==> Nul !in home.value
    ensures |c.buffer| == PathMax
    ensures buffer[0] != Nul ==> c == Call(Buffer, buffer)
    ensures buffer[0] == Nul && home.None? ==> c == Call(NullPath, buffer)
    ensures buffer[0] == Nul && home.Some? ==>
      var h := home.value;
      && (c.result == OutOfBounds <==> |h| > PathMax)
      && (c.result != OutOfBounds ==> c.result == Buffer)
      && (forall k :: 0 <= k < Min(|h|, PathMax) ==> c.buffer[k] == h[k])
      && (|h| <= PathMax ==> forall k :: |h| <= k < PathMax ==>
            c.buffer[k] == if k - |h| < |Suffix| then Suffix[k - |h|] else Nul)
  {
    if buffer[0] != Nul then Call(Buffer, buffer)
    else match home
      case None => Call(NullPath, buffer)
      case Some(h) =>
        var withHome := Strncpy(buffer, 0, h, PathMax);
        if |h| > PathMax then Call(OutOfBounds, withHome)
        else Call(Buffer, Strncpy(withHome, |h|, Suffix, PathMax - |h|))
  }

  /** Without `HOME` the first call returns a null pointer and writes
      nothing. */
  lemma NoHome()
    ensures ConfigPath(Empty, None) == Call(NullPath, Empty)
  {
  }

  /** With room for the suffix and its terminator, the first call returns
      the buffer holding `HOME` followed by "/.config/puppyfetch". */
  lemma PathBuilt(home: string)
    requires Nul !in home && |home| + |Suffix| < PathMax
    ensures var c := ConfigPath(Empty, Some(home));
      c.result == Buffer && CString(c.buffer) == Some(home + Suffix)
  {
    assert Empty[0] == Nul;
    var b := ConfigPath(Empty, Some(home)).buffer;
    var m := |home| + |Suffix|;
    assert |Suffix| == 19;
    assert b[..m] == home + Suffix;
    assert Nul !in Suffix;
    CStringAt(b, m);
  }

  /** A `HOME` that leaves no room for the whole suffix and its terminator,
      but still fits the buffer, leaves the buffer without a terminator:
      whoever reads the returned path runs past the buffer. */
  lemma PathUnterminated(home: string)
    requires Nul !in home && |home| <= PathMax && |home| + |Suffix| >= PathMax
    ensures var c := ConfigPath(Empty, Some(home));
      c.result == Buffer && CString(c.buffer).None?
  {
    assert Empty[0] == Nul;
    var b := ConfigPath(Empty, Some(home)).buffer;
    assert |Suffix| == 19;
    assert Nul !in Suffix;
    forall k | 0 <= k < |b|
      ensures b[k] != Nul
    {
      if k < |home| {
        assert b[k] == home[k];
      } else {
        assert b[k] == Suffix[k - |home|];
      }
    }
  }

  /** For a `HOME` that fits the buffer, the path read from the returned
      buffer is `HOME` and the suffix exactly when both and a terminator
      fit, and runs past the buffer otherwise. */
  lemma PathIff(home: string)
    requires Nul !in home && |home| <= PathMax
    ensures ConfigPath(Empty, Some(home)).result == Buffer
    ensures CString(ConfigPath(Empty, Some(home)).buffer) ==
      if |home| + |Suffix| < PathMax then Some(home + Suffix) else None
  {
    if |home| + |Suffix| < PathMax {
      PathBuilt(home);
    } else {
      PathUnterminated(home);
    }
  }

  /** A `HOME` longer than the buffer makes the second copy start outside
      it. */
  lemma PathOutOfBounds(home: string)
    requires Nul !in home && |home| > PathMax
    ensures ConfigPath(Empty, Some(home)).result == OutOfBounds
  {
  }

  /** Once a call has returned the buffer, every later call returns the
      same buffer unchanged, whatever `HOME` then is. */
  lemma Cached(home: Option<string>, later: Option<string>)
    requires home.Some? ==> Nul !in home.value
    requires later.Some? ==> Nul !in later.value
    requires ConfigPath(Empty, home).result == Buffer
    ensures var c := ConfigPath(Empty, home);
      ConfigPath(c.buffer, later) == c
  {
  }

  /** The routine with the length check it evidently lacks: a `HOME` that
      leaves no room for the suffix and a terminator makes it fail quietly
      like a missing one, instead of returning an unterminated path. */
  function ConfigPathChecked(buffer: seq<char>, home: Option<string>): (c: Call)
    requires |buffer| == PathMax
    requires home.Some? ==> Nul !in home.value
    ensures |c.buffer| == PathMax
  {
    if buffer[0] == Nul && home.Some? && |home.value| + |Suffix| >= PathMax then Call(NullPath, buffer)
    else ConfigPath(buffer, home)
  }

  /** The checked routine's first call returns either a null pointer or a
      buffer holding exactly `HOME` followed by the suffix, never a copy
      out of bounds; it returns the buffer exactly when `HOME` is set and
      short enough. */
  lemma CheckedPath(home: Option<string>)
    requires home.Some? ==> Nul !in home.value
    ensures var c := ConfigPathChecked(Empty, home);
      && c.result != OutOfBounds
      && (c.result == Buffer <==> home.Some? && |home.value| + |Suffix| < PathMax)
      && (c.result == Buffer ==> CString(c.buffer) == Some(home.value + Suffix))
  {
    assert Empty[0] == Nul;
    if home.Some? && |home.value| + |Suffix| < PathMax {
      PathBuilt(home.value);
    }
  }
}
