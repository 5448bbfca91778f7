# xlog: a verified model of the logger's line-building core

`xlog` is a small buffered, levelled logger. This project models the single call
every log line goes through (`logf`) and the value renderer it uses (`getValue`).
Each call does the following:

- it writes the level tag;
- it writes the timestamp;
- it scans the template once, left to right, replacing every two-byte `%v` by the
  next argument's text, or by `args needed` once the arguments have run out;
- it copies every other byte unchanged and ends the line with one `\n`;
- it flushes the buffer and syncs the file when more than two seconds have passed
  since the last-flush marker.

The project has three modules:

- `Bytes` (bytes.dfy): bytes, Go's `int64` and `int8`, and base-10 integer text as
  `strconv.FormatInt(v, 10)` writes it, together with a reference reader for that text.
- `Format` (format.dfy): the arguments and `getValue`. It also holds the pure
  rendering `Render(msg, args)`, a byte-by-byte recursive reading of the `%v` scan,
  and the lemmas that state what it does. Two independent descriptions of a template
  are tied to `Render`:
  - its literal pieces (`Segments`, joined back by `Join`);
  - the values placed between those pieces (`Weave`, `Fill`).
- `XLog` (logger.dfy): the level constants, the level tag, the flush window and the
  `Logger` class. The class fields are:
  - `dst`: the bytes buffered and not yet flushed;
  - `file`: the bytes handed to the file;
  - `synced`: the bytes made durable by the last successful sync;
  - `lastFlush`: the last-flush marker, in nanoseconds.

  `Logf` is imperative, as in the source. It writes the tag, the timestamp, the
  message and the newline step by step. `WriteMessage` is the source's scan loop
  over `i`, `j` and `cnt`. It is proved to append exactly `Render(msg, args)`, and
  `Logf` is proved to append exactly `tag + ts + Render(msg, args) + "\n"`.
  The loop invariant is the predicate `Scanning`. The lemmas `ScanStart`,
  `ScanSkip`, `ScanAdvance` and `ScanFinish` carry it through each step of the loop.

Environment inputs are passed as parameters:

- `ts`: the timestamp text;
- `now`: the current time in nanoseconds;
- `bufferFlush` and `fileSync`: the outcomes the buffered-writer flush and the file
  sync would have.

A Go `string` and a `[]byte` are both modelled as `Bytes`, so `String2Bytes` and
`Bytes2String` are the identity and need no member.

Nothing in log.go assigns `lastFlush` after the default logger is built (log.go:21), so
the marker keeps its construction time. `Logger.Flush` and `Logf` leave it unchanged, and
`FlushWindowStaysOpen` states the consequence: once the window has passed, every later
call flushes.

## Model

| member | source | states |
|---|---|---|
| Bytes.FormatInt | log.go:129-137 | Integer text is canonical base-10: an optional `-`, then digits, no leading zero, no `-0`. It starts with `-` exactly when the value is negative. |
| Bytes.FormatIntRoundTrip | log.go:129-137 | Reading the text back as a decimal gives the integer that was formatted. |
| Bytes.FormatIntOfDecimal | log.go:129-137 | Any canonical decimal text for a value in the int64 range is exactly what formatting that value writes. So the rendering is unique and unpadded. |
| Bytes.DigitsRoundTrip | log.go:129-137 | The digits of a natural number read back as that number. |
| Bytes.DigitsOfValue | log.go:129-137 | A digit run without leading zeros is exactly the digits of the number it denotes. |
| Format.FixedTexts | log.go:112 | The shortfall marker is the text `args needed`, the unknown-type diagnostic is `(unknown type: ` + … + `)` as on log.go:141, and the placeholder is `%v`. |
| Format.GetValue | log.go:126-142 | getValue's type switch. Integer text is canonical base-10 with `-` exactly for negatives. An unknown value is wrapped in `(unknown type: ` and `)`. The read-back of integers is `GetValueRenders`. |
| Format.GetValueRenders | log.go:126-142 | Signed integers of every width render as canonical base-10 text that reads back as the value, with `-` exactly for negatives. A string renders as its own bytes. Any other value renders as `(unknown type: ` + its default text + `)`. |
| Format.ValueFor | log.go:108-113 | The text placeholder number c receives: the rendering of argument c while arguments remain, `args needed` after. No contract of its own. `WriteValue` writes it and `RenderIsWeave` places it. |
| Format.RenderFrom | log.go:98-117 | What the scan writes from byte i on, with c placeholders already seen: a `%v` writes the next value and the scan resumes after the `v`, any other byte is copied. No contract of its own. Its meaning is stated by `RenderFromIsWeave`, `SkipLiteral` and `ScanStep`, and `WriteMessage` is proved to write exactly it. |
| Format.Render | log.go:96-117 | The message part of a line. No contract of its own. `RenderIsWeave`, `JoinSegments` and `SegmentsOfJoin` characterise it independently. |
| Format.CountFrom | log.go:98-106 | The number of placeholders the scan finds from byte i on. Each takes two bytes, so at most half of what is left. |
| Format.PlaceholderCount | log.go:98-106 | The number of placeholders in the template, at most half its length. `SegmentsCount` ties it to the number of literal pieces, and `WriteMessage` consumes min(count, len(args)) arguments. |
| Format.RenderFromIsWeave | log.go:98-114 | From any scan position, the output is the literal pieces in order. The k-th placeholder from there holds value number c + k: that argument while arguments last, `args needed` after. |
| Format.RenderIsWeave | log.go:98-114 | Ordered substitution for a whole template: there is one more literal piece than there are placeholders. The k-th `%v` is replaced by the rendering of argument k while k < len(args), and by `args needed` otherwise. |
| Format.RenderShortfall | log.go:108-113 | With no arguments, every placeholder renders as `args needed`. The call still produces output. |
| Format.RenderSurplus | log.go:107-110 | Once there are at least as many arguments as placeholders, appending more arguments does not change the output. |
| Format.RenderUsesConsumed | log.go:107-110 | The output depends only on the first min(#placeholders, len(args)) arguments. |
| Format.RenderAgree | log.go:107-113 | Two argument lists that give the same value to every placeholder give the same output. |
| Format.RenderLiteral | log.go:98-119 | A template with no `%v` renders as itself, for any arguments, and has no placeholders. |
| Format.SkipLiteral | log.go:98-102 | A stretch with no placeholder start is copied unchanged and in order. |
| Format.SkipLiteralCount | log.go:98-102 | Such a stretch adds nothing to the placeholder count. |
| Format.ScanStep | log.go:98-111 | Literal run, then value number c, then the scan resumes two bytes after the `%`. |
| Format.ScanStepCount | log.go:98-106 | The same step counts exactly one placeholder. |
| Format.RenderLonePercent | log.go:100 | A `%` that is the last byte, or is not followed by `v`, is copied literally. |
| Format.RenderPercentPlaceholder | log.go:100-106 | `%%v` gives a literal `%` and then one value. |
| Format.RenderTwoPlaceholders | log.go:105-106 | `%v%v` is two placeholders that take two consecutive values. |
| Format.JoinSegments | log.go:98-117 | Joining the literal pieces back with `%v` gives the template, so the pieces lose nothing. |
| Format.SegmentsAreLiteral | log.go:98-102 | No literal piece contains a `%v`. |
| Format.SegmentsOfJoin | log.go:98-106 | Conversely, placeholder-free pieces joined with `%v` are scanned back into exactly those pieces. |
| Format.SegmentsShift | log.go:98-106 | Scanning p + s from position len(p) + i finds what scanning s from position i finds. |
| Format.GetValueNoNewline | log.go:126-142 | A rendered value has a line break only if its argument brings one. |
| Format.RenderFromNoNewline | log.go:98-119 | The message part adds no line break that the template or an argument did not bring. |
| Format.ExampleSurplus | log.go:98-114 | `a=%v b=%v` with 1, "x", 99 renders as `a=1 b=x`. |
| Format.ExampleShortfall | log.go:108-113 | `val=%v` with no arguments renders as `val=args needed`. |
| XLog.LevelsOrdered | log.go:70-75 | The levels are 1, 2, 3, 4, in this order: debug < info < warn < error. |
| XLog.LevelTag | log.go:83-92 | The tag is empty exactly for values outside levels 1..4, since the switch has no default. A non-empty tag ends in a space and contains no line break. |
| XLog.LevelTagsSpelled | log.go:83-92 | Levels 1..4 write exactly `DEBUG `, `INFO `, `WARN `, `ERROR `. |
| XLog.LevelTagsDistinct | log.go:83-92 | Distinct known levels write distinct tags. |
| XLog.ShouldFlush | log.go:121 | The flush test: now is strictly later than the marker plus two seconds. No contract of its own. `Logf` flushes exactly when it holds, and `FlushWindowStaysOpen` states its monotonicity. |
| XLog.FlushWindowStaysOpen | log.go:121-123 | The flush test now > lastFlush + 2 s is monotone in now: once the window past a marker has opened, it stays open. |
| XLog.Line | log.go:83-119 | The line logf writes: level tag, timestamp, rendered message, `\n`. No contract of its own. `LineFraming` and `LineOfLiteral` state its shape, and `WriteLine` and `Logf` are proved to write exactly it. |
| XLog.LineFraming | log.go:83-119 | A line is the tag, then the timestamp, then the message, then exactly one `\n`. The `\n` is its only line break when the inputs have none. |
| XLog.LineOfLiteral | log.go:96-119 | A template without `%v` yields tag + timestamp + the template + `\n`. |
| XLog.ScanStart | log.go:97-98 | The scan starts with nothing written, i = j = cnt = 0, and the whole rendering still to write. |
| XLog.ScanSkip | log.go:100-102 | A byte that does not start `%v` only advances j, and the scan state is kept. |
| XLog.ScanAdvance | log.go:103-113 | At a `%v`: write msg[i:j], then the value, set i = j + 2 and advance j by two. cnt moves only while arguments remain, and cnt = min(#matched, len(args)) is kept. |
| XLog.ScanFinish | log.go:115-117 | After the loop, the tail msg[i:] completes the rendering and cnt = min(#placeholders, len(args)). |
| XLog.Logger.constructor | log.go:21 | A new logger has an empty buffer and file, and its marker is set to the construction time. |
| XLog.Logger.Write | log.go:104 | A write appends its bytes to the buffer and changes nothing else. |
| XLog.Logger.Flush | log.go:37-42 | A buffer-flush error is returned before any sync is attempted. In the model it leaves the buffer as it was (bufio's partial write is under Left out). On success the buffer moves to the file, and the sync result is returned; durability advances only if the sync succeeds. The stream of written bytes and the marker never change. |
| XLog.Logger.WriteValue | log.go:108-113 | Writes the next argument's rendering and moves cnt on while arguments remain. Otherwise it writes `args needed` and leaves cnt unchanged. |
| XLog.Logger.WriteMessage | log.go:96-118 | The scan loop appends exactly Render(msg, args) to the buffer. It uses min(#placeholders, len(args)) arguments and touches nothing else. |
| XLog.Logger.WriteLine | log.go:83-119 | Appends exactly tag + ts + Render(msg, args) + `\n` to the buffer. |
| XLog.Logger.Logf | log.go:77-124 | The written stream grows by exactly the line, and the marker never changes. Without a flush, or when the buffer flush fails, the line stays buffered. When the window has passed and the buffer flush succeeds, the buffer is empty, the file holds the whole stream, and durability follows the sync outcome. Since the marker stays put, a call that flushed leaves the window open for every later time. |

## Left out

- The mutex in `logf` (log.go:80-81): each call is modelled as one atomic step, and concurrency is not modelled.
- `InitLog` (log.go:23-31): opening the file, panicking when that fails, and wrapping the file in a `bufio.Writer`. These are operating-system and library I/O. A `Logger` starts with an empty buffer and an empty file. A write or flush before `InitLog`, on a nil writer, is not modelled.
- `bufio.Writer` internals: the 4096-byte buffer that spills to the file when full, and its sticky error. In this model a write always lands in the buffer (`Logger.Write`), and only a flush moves bytes to the file. In Go a failed `Flush` may already have passed part of the buffer to the file, and its error is sticky: every later `Write` is dropped and every later `Flush` returns the same error, so one failed auto-flush, whose error log.go:122 discards, silently loses every later line. The model instead takes a fresh `bufferFlush` outcome on each call, keeps the whole buffer on a failed flush, and keeps buffering.
- `time.Now` and `tn.Format("01-02 15:04:05.999 ")` (log.go:93-94): the clock and date formatting, including the trimming of trailing millisecond zeros. The timestamp text `ts` and the time `now` are parameters of `Logf`.
- The outcome of `bufio.Writer.Flush` and `os.File.Sync`: these are parameters (`IoResult`), not computed. The auto-flush error discarded at log.go:122 is likewise dropped by `Logf`.
- `fmt.Sprintf("%v", a)` for arguments of other types: the default textual representation is the `Other` payload and is not computed.
- `getValue` on a platform where `int` is 32 bits: every signed width is widened to `int64`, as log.go:129-137 does. No type switch on Go's dynamic types is modelled: `Arg` is the closed three-way classification.
- The unreachable `return nil` after the type switch (log.go:143): `GetValue` is total over `Arg`.
- `String2Bytes` and `Bytes2String` (log.go:146-158): pointer reinterpretation. Strings and byte slices are both `Bytes`, so both conversions are the identity.
- The package-level singleton and its wrappers `Flush`, `Infof`, `Warnf`, `Errorf` and the methods of the same names (log.go:21, 33-66): they only delegate to `Logger.Flush` and `Logf` with a fixed level.
- XLog.Logger.WriteMessage and XLog.Logger.Logf: the ghost out-parameter `consumed` is not in the Go code. It exposes the final value of the local `cnt`.
