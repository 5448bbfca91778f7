/** The Logger: level tags, the two-second auto-flush window, and `logf`, which
    appends one line to the buffered writer and flushes it when the window has passed. */
module XLog {
  import opened Bytes
  import opened Format

  type LogLevel = int8

  const LevelDebug: LogLevel := 1
  const LevelInfo: LogLevel := 2
  const LevelWarn: LogLevel := 3
  const LevelError: LogLevel := 4

  const DEBUG_TAG: Bytes := [68, 69, 66, 85, 71, 32]  // "DEBUG "
  const INFO_TAG: Bytes := [73, 78, 70, 79, 32]        // "INFO "
  const WARN_TAG: Bytes := [87, 65, 82, 78, 32]        // "WARN "
  const ERROR_TAG: Bytes := [69, 82, 82, 79, 82, 32]   // "ERROR "

  /** The levels are numbered 1 to 4 in increasing severity. */
  lemma LevelsOrdered()
    ensures 1 == LevelDebug < LevelInfo < LevelWarn < LevelError == 4
  {
  }

  /** The tag that starts a line: one fixed tag per known level, nothing for any other value. */
  function LevelTag(level: LogLevel): (r: Bytes)
    ensures r == [] <==> !(LevelDebug <= level <= LevelError)
    ensures r != [] ==> r[|r| - 1] == SPACE && NoNewline(r)
  {
    if level == LevelDebug then DEBUG_TAG
    else if level == LevelInfo then INFO_TAG
    else if level == LevelWarn then WARN_TAG
    else if level == LevelError then ERROR_TAG
    else []
  }

  /** The four known levels write exactly `DEBUG `, `INFO `, `WARN ` and `ERROR `. */
  lemma LevelTagsSpelled()
    ensures LevelTag(LevelDebug) == Ascii("DEBUG ") && LevelTag(LevelInfo) == Ascii("INFO ")
    ensures LevelTag(LevelWarn) == Ascii("WARN ") && LevelTag(LevelError) == Ascii("ERROR ")
  {
  }

  /** Distinct levels get distinct tags, so a line's level can be read back from it. */
  lemma LevelTagsDistinct(a: LogLevel, b: LogLevel)
    requires LevelDebug <= a <= LevelError && LevelDebug <= b <= LevelError && a != b
    ensures LevelTag(a) != LevelTag(b)
  {
    assert LevelTag(LevelDebug)[0] != LevelTag(LevelError)[0];
    assert LevelTag(LevelInfo)[0] != LevelTag(LevelWarn)[0];
  }

  /** One second, in the nanoseconds time.Duration counts. */
  const Second: int := 1_000_000_000

  /** The flush test: now is strictly later than the marker plus two seconds. */
  predicate ShouldFlush(now: int, lastFlush: int) {
    now > lastFlush + 2 * Second
  }

  /** The flush test is monotone in the current time: once the window past a marker
      has opened, it stays open. Since `Logf` never moves the marker, every later
      call on the same logger flushes too (the last `ensures` of `Logf`). */
  lemma FlushWindowStaysOpen(lastFlush: int, now: int, later: int)
    requires ShouldFlush(now, lastFlush) && now <= later
    ensures ShouldFlush(later, lastFlush)
  {
  }

  /** The line logf appends: tag, timestamp, rendered message, line break. */
  function Line(level: LogLevel, ts: Bytes, msg: Bytes, args: seq<Arg>): Bytes {
    LevelTag(level) + ts + Render(msg, args) + [NEWLINE]
  }

  /** Line framing: a line opens with the level tag and the timestamp, and when the
      timestamp, template and arguments carry no line break, its one line break is its last byte. */
  lemma LineFraming(level: LogLevel, ts: Bytes, msg: Bytes, args: seq<Arg>)
    requires NoNewline(ts) && NoNewline(msg)
    requires forall a :: a in args ==> ArgNoNewline(a)
    ensures var line := Line(level, ts, msg, args);
      && line[..|LevelTag(level)| + |ts|] == LevelTag(level) + ts
      && line[|line| - 1] == NEWLINE
      && NoNewline(line[..|line| - 1])
  {
    RenderFromNoNewline(msg, 0, args, 0);
    var line := Line(level, ts, msg, args);
    var body := LevelTag(level) + ts + Render(msg, args);
    assert line == body + [NEWLINE];
    assert line[..|line| - 1] == body;
    forall k | 0 <= k < |body|
      ensures body[k] != NEWLINE
    {
      var t := |LevelTag(level)|;
      if k < t {
        assert body[k] == LevelTag(level)[k];
      } else if k < t + |ts| {
        assert body[k] == ts[k - t];
      } else {
        assert body[k] == Render(msg, args)[k - t - |ts|];
      }
    }
  }

  /** Literal copying for a whole line: a template without placeholders is written as
      it is, between the timestamp and the line break, whatever the arguments. */
  lemma LineOfLiteral(level: LogLevel, ts: Bytes, msg: Bytes, args: seq<Arg>)
    requires Literal(msg)
    ensures Line(level, ts, msg, args) == LevelTag(level) + ts + msg + [NEWLINE]
  {
    RenderLiteral(msg, args);
  }

  lemma AppendAssoc4(a: Bytes, b: Bytes, c: Bytes, d: Bytes)
    ensures a + (b + (c + d)) == a + b + c + d
  {
  }

  lemma AppendAssoc5(a: Bytes, b: Bytes, c: Bytes, d: Bytes, e: Bytes)
    ensures a + (b + c + d + e) == a + b + c + d + e
  {
  }

  /** The state of logf's scan over the template: `out` has been written, the scan is
      at byte j with the literal run from byte i not yet written, `matched` placeholders
      have been seen and `cnt` arguments used, and what is left to write completes `target`. */
  ghost predicate Scanning(msg: Bytes, args: seq<Arg>, i: nat, j: nat, cnt: nat, matched: nat,
                           out: Bytes, target: Bytes)
  {
    && i <= j <= |msg|
    && cnt == Min(matched, |args|)
    && (forall k :: i <= k < j ==> !PlaceholderAt(msg, k))
    && out + RenderFrom(msg, i, args, matched) == target
    && matched + CountFrom(msg, i) == PlaceholderCount(msg)
  }

  lemma ScanStart(msg: Bytes, args: seq<Arg>, out: Bytes)
    ensures Scanning(msg, args, 0, 0, 0, 0, out, out + Render(msg, args))
  {
  }

  /** A byte that does not start a placeholder (`%v`) only moves the scan on. */
  lemma ScanSkip(msg: Bytes, args: seq<Arg>, i: nat, j: nat, cnt: nat, matched: nat, out: Bytes, target: Bytes)
    requires Scanning(msg, args, i, j, cnt, matched, out, target) && j < |msg|
    requires msg[j] != PERCENT || j + 1 == |msg| || msg[j + 1] != LOWER_V
    ensures Scanning(msg, args, i, j + 1, cnt, matched, out, target)
  {
  }

  /** A placeholder at j: writing the literal run before it and then value number cnt
      leaves the scan past its `v`, with one more placeholder seen. */
  lemma ScanAdvance(msg: Bytes, args: seq<Arg>, i: nat, j: nat, cnt: nat, matched: nat, out: Bytes, target: Bytes)
    requires Scanning(msg, args, i, j, cnt, matched, out, target) && j < |msg|
    requires !(msg[j] != PERCENT || j + 1 == |msg| || msg[j + 1] != LOWER_V)
    ensures cnt <= |args|
    ensures Scanning(msg, args, j + 2, j + 2, if cnt < |args| then cnt + 1 else cnt, matched + 1,
                     out + msg[i..j] + ValueFor(args, cnt), target)
  {
    ScanStep(msg, i, j, args, matched);
    ScanStepCount(msg, i, j);
    assert ValueFor(args, matched) == ValueFor(args, cnt);
    AppendAssoc4(out, msg[i..j], ValueFor(args, cnt), RenderFrom(msg, j + 2, args, matched + 1));
  }

  /** The end of the scan: past the last placeholder, what is left is the literal tail,
      and the arguments used are min(#placeholders, #arguments). */
  lemma ScanFinish(msg: Bytes, args: seq<Arg>, i: nat, cnt: nat, matched: nat, out: Bytes, target: Bytes)
    requires Scanning(msg, args, i, |msg|, cnt, matched, out, target)
    ensures out + msg[i..] == target
    ensures cnt == Min(PlaceholderCount(msg), |args|)
  {
    SkipLiteral(msg, i, |msg|, args, matched);
    SkipLiteralCount(msg, i, |msg|);
    assert msg[i..|msg|] == msg[i..];
    assert RenderFrom(msg, i, args, matched) == msg[i..] + [];
  }

  /** The outcome of one I/O step (bufio.Writer.Flush or os.File.Sync). */
  datatype IoResult = Ok | Err(message: Bytes)

  class Logger {
    /** Bytes the buffered writer holds and has not yet flushed. */
    var dst: Bytes
    /** Bytes the buffered writer has handed to the file. */
    var file: Bytes
    /** Bytes of the file the last successful sync made durable. */
    var synced: Bytes
    /** The last-flush marker, in nanoseconds. */
    var lastFlush: int

    ghost predicate Valid()
      reads this
    {
      synced <= file
    }

    /** Everything written so far, in order: what reached the file, then what is buffered. */
    function Stream(): Bytes
      reads this
    {
      file + dst
    }

    /** A logger whose marker is set at construction, with nothing written yet. */
    constructor (now: int)
      ensures Valid() && dst == [] && file == [] && synced == [] && lastFlush == now
    {
      dst, file, synced, lastFlush := [], [], [], now;
    }

    /** bufio.Writer.Write: the bytes join the buffer. */
    method Write(p: Bytes)
      modifies this
      ensures dst == old(dst) + p
      ensures file == old(file) && synced == old(synced) && lastFlush == old(lastFlush)
    {
      dst := dst + p;
    }

    /** Flush the buffer to the file, then sync the file. A buffer-flush failure is
        returned before a sync is attempted; the marker is never moved. */
    method Flush(bufferFlush: IoResult, fileSync: IoResult) returns (err: IoResult)
      requires Valid()
      modifies this
      ensures Valid()
      ensures err == if bufferFlush.Err? then bufferFlush else fileSync
      ensures Stream() == old(Stream()) && lastFlush == old(lastFlush)
      ensures bufferFlush.Ok? ==> dst == [] && file == old(Stream())
      ensures bufferFlush.Err? ==> dst == old(dst) && file == old(file)
      ensures synced == if bufferFlush.Ok? && fileSync.Ok? then file else old(synced)
    {
      if bufferFlush.Err? {
        return bufferFlush;
      }
      file, dst := file + dst, [];
      if fileSync.Ok? {
        synced := file;
      }
      return fileSync;
    }

    /** The value for one placeholder: the next argument, rendered, while arguments
        remain (and the argument counter moves on), or `args needed` once they have run out. */
    method WriteValue(args: seq<Arg>, cnt: nat) returns (next: nat)
      requires cnt <= |args|
      modifies this
      ensures dst == old(dst) + ValueFor(args, cnt)
      ensures next == if cnt < |args| then cnt + 1 else cnt
      ensures file == old(file) && synced == old(synced) && lastFlush == old(lastFlush)
    {
      if cnt < |args| {
        Write(GetValue(args[cnt]));
        next := cnt + 1;
      } else {
        Write(ARGS_NEEDED);
        next := cnt;
      }
    }

    /** The message part of logf: one forward pass over the template that writes each
        literal run, then the next argument's value (or `args needed`) for each `%v`,
        and finally the literal tail. `consumed` is the number of arguments used. */
    method WriteMessage(msg: Bytes, args: seq<Arg>) returns (ghost consumed: nat)
      modifies this
      ensures dst == old(dst) + Render(msg, args)
      ensures file == old(file) && synced == old(synced) && lastFlush == old(lastFlush)
      ensures consumed == Min(PlaceholderCount(msg), |args|)
    {
      ghost var target := dst + Render(msg, args);
      ghost var matched: nat := 0;
      var i, cnt := 0, 0;
      var j := 0;
      ScanStart(msg, args, dst);
      while j < |msg|
        invariant Scanning(msg, args, i, j, cnt, matched, dst, target)
        invariant file == old(file) && synced == old(synced) && lastFlush == old(lastFlush)
      {
        if msg[j] != PERCENT || j + 1 == |msg| || msg[j + 1] != LOWER_V {
          ScanSkip(msg, args, i, j, cnt, matched, dst, target);
          j := j + 1;
        } else {
          ScanAdvance(msg, args, i, j, cnt, matched, dst, target);
          Write(msg[i..j]);
          i := j + 2;
          j := j + 1;
          cnt := WriteValue(args, cnt);
          matched := matched + 1;
          j := j + 1;
        }
      }
      ScanFinish(msg, args, i, cnt, matched, dst, target);
      if i < |msg| {
        Write(msg[i..]);
      }
      consumed := cnt;
    }

    /** The line-building part of logf: the level tag, the timestamp, the template with
        its placeholders substituted, and a line break, all into the buffer. */
    method WriteLine(level: LogLevel, msg: Bytes, args: seq<Arg>, ts: Bytes) returns (ghost consumed: nat)
      modifies this
      ensures dst == old(dst) + Line(level, ts, msg, args)
      ensures file == old(file) && synced == old(synced) && lastFlush == old(lastFlush)
      ensures consumed == Min(PlaceholderCount(msg), |args|)
    {
      AppendAssoc5(dst, LevelTag(level), ts, Render(msg, args), [NEWLINE]);
      Write(LevelTag(level));
      Write(ts);
      consumed := WriteMessage(msg, args);
      Write([NEWLINE]);
    }

    /** logf: write the line, then flush when `now` is past the window.
        `ts` is the timestamp text for `now`; `bufferFlush` and `fileSync` are the
        outcomes a flush would meet; the flush error is discarded. `consumed` is the
        number of arguments the scan used. */
    method Logf(level: LogLevel, msg: Bytes, args: seq<Arg>, ts: Bytes, now: int,
                bufferFlush: IoResult, fileSync: IoResult)
      returns (ghost consumed: nat)
      requires Valid()
      modifies this
      ensures Valid()
      ensures Stream() == old(Stream()) + Line(level, ts, msg, args)
      ensures lastFlush == old(lastFlush)
      ensures consumed == Min(PlaceholderCount(msg), |args|)
      ensures !ShouldFlush(now, old(lastFlush)) || bufferFlush.Err? ==>
        dst == old(dst) + Line(level, ts, msg, args) && file == old(file) && synced == old(synced)
      ensures ShouldFlush(now, old(lastFlush)) && bufferFlush.Ok? ==>
        dst == [] && file == old(Stream()) + Line(level, ts, msg, args)
        && synced == (if fileSync.Ok? then file else old(synced))
      ensures ShouldFlush(now, old(lastFlush)) ==>
        forall later :: now <= later ==> ShouldFlush(later, lastFlush)
    {
      consumed := WriteLine(level, msg, args, ts);
      if ShouldFlush(now, lastFlush) {
        var _ := Flush(bufferFlush, fileSync);
        forall later | now <= later
          ensures ShouldFlush(later, lastFlush)
        {
          FlushWindowStaysOpen(lastFlush, now, later);
        }
      }
    }
  }
}
