# ansimirror: the modem-speed ANSI renderer, modelled in Dafny

ansimirror serves ANSI art files so that they arrive "at modem speed". At its
core is a byte-stream transducer, which exists in two versions:

- `render_ansi` (ansimirror.py) is the current renderer. It reads the artwork
  one byte at a time. An escape sequence (ESC up to and including the first
  ASCII letter) goes verbatim into a line buffer. Every other byte goes in
  transcoded from CP437 to UTF-8. The renderer tracks an 80-column cursor,
  where `ESC [ n C` moves it n columns. At each carriage return, line feed and
  forced wrap it yields a (wait, chunk) pair: the chunk is empty for CR, the
  buffer for LF, and the buffer plus CR LF for a wrap. The wait is how far a
  delivery deadline lies ahead of the clock. That deadline grows per unit in
  simulation mode, or per line in constant mode. At end of file, the remaining
  buffer is the generator's return value.
- `render` (bbs.py) is the older version. It uses the same scanner and column
  tracker, but yields each unit as its own chunk and CR LF as a separate chunk
  at a wrap. Before each printable byte that is early, it sleeps until a
  19200 bit/s deadline, unless `quick` is set.

The model has six modules:

- `Scan` (scan.dfy) cuts the input into units, as a pure function of the whole
  input. It also has `ReadEscape`, the inner loop both renderers share.
- `Layout` (layout.dfy) holds the shared 80-column tracker and the reference
  output `Stream`: every unit's image in input order, with CR LF after each
  unit that forces a wrap.
- `Timing` (timing.dfy) has `Times`, a repeated addition that keeps deadline
  arithmetic linear.
- `AnsiMirror` (ansimirror.dfy) models `render_ansi`.
- `Bbs` (bbs.dfy) models `render`.
- `Versions` (versions.dfy) states how the two relate.

Each renderer is specified the same way:
- A functional `Step` gives the effect of one unit on the generator's locals
  and on its output so far. `Run` folds `Step` over the units, and `Rendered`
  is the state at end of file.
- The renderer itself is an imperative method with the source's `while true`
  loop and its in-place updates. It is proved to end in `Rendered`.
- Lemmas prove what the source promises about `Rendered`: conservation,
  column bounds, pacing, and that yields belong to the units that cause them.

External inputs are parameters:
- The clock is `start` (the reading when the render begins) and `now(k)` (the
  reading taken while the k-th unit is handled).
- The CP437 to UTF-8 codec is an arbitrary function `tr` from a byte to bytes.
- A suspension is recorded rather than performed. `render_ansi` records each
  yield's wait, and `render` records each sleep as a `Pause` action in its
  trace.

Each yield of `render_ansi` is recorded as a `Flush`. Besides the (wait, chunk)
pair the consumer receives, a `Flush` records the boundary type, the unit
ordinal and the deadline, so that pacing can be stated.

Three behaviours of the code at its edges, which the model follows:
- At end of file inside an escape sequence, `read(1)` returns an empty byte
  string. That is never alphabetic, so the inner loop (ansimirror.py:116-118,
  bbs.py:29-31) never ends. The model requires every escape to be closed
  (`WellFormed`).
- The buffer left over at end of file is the generator's return value
  (ansimirror.py:109), not a yielded pair. The model returns it separately
  (`rest`).
- The front page says bitrates "must be positive integers" (ansimirror.py:31),
  but the route accepts any digit string (ansimirror.py:192) and `render_ansi`
  does not check. At `speed <= 0` it simply runs unthrottled
  (ansimirror.py:100), as its docstring says for 0 (ansimirror.py:86). The
  model follows the code (`Intervals`).

## Model

| member | source | states |
|---|---|---|
| Scan.IsLetter | ansimirror.py:116 | `bytes.isalpha()` on one byte (also bbs.py:29): ASCII letters only; no contract of its own, its use is pinned by Scan.FirstLetter and Scan.ReadEscape |
| Scan.Decimal | ansimirror.py:120 | the value `int()` gives a digit string (also bbs.py:33): a single digit is its own value, and n digits give less than 10^n |
| Scan.DecimalLeadingZero | ansimirror.py:120 | a leading `0` does not change the value, so `ESC[05C` moves as far as `ESC[5C` |
| Scan.Param | ansimirror.py:120 | `ansiseq[2:-1]`: the bytes of the sequence after its first two and before its last, in order, and empty for a sequence of fewer than three bytes |
| Scan.FirstLetter | ansimirror.py:116-118 | the position returned is the first ASCII letter at or after k, or the end of the input when there is none |
| Scan.UnitEnd | ansimirror.py:113-118 | a unit is never empty and never runs past the end of the input |
| Scan.UnitAt | ansimirror.py:113-118 | the unit at i is cut from exactly the bytes i..UnitEnd, and it is an escape sequence exactly when byte i is ESC |
| Scan.UnitsPartition | ansimirror.py:105-123 | the units, concatenated, are exactly the input from i, with no byte dropped, duplicated or reordered; there are never more units than bytes |
| Scan.ReadEscape | ansimirror.py:115-118 | the inner loop (the same loop as bbs.py:28-31) accumulates exactly the escape unit at i: from the ESC up to and including the first letter, ending at UnitEnd |
| Layout.CursorMove | ansimirror.py:119-121 | `int(ansiseq[2:-1] or 1)` (also bbs.py:32-33): an empty parameter moves 1, a one-digit parameter moves by that digit (so `ESC[0C` moves 0), and n digits move less than 10^n |
| Layout.Advance | ansimirror.py:119-125 | `col += move` for a cursor-forward sequence and `col += 1` for a byte (also bbs.py:32-39); no contract of its own, pinned by Layout.NextColumn and the EscapeStep/ByteStep lemmas |
| Layout.Image | ansimirror.py:122-129 | an escape sequence verbatim and a byte through `decode("cp437").encode("utf-8")` (also bbs.py:36,46), the codec being the parameter `tr`; no contract of its own, pinned by AnsiMirror.EscapeStep, AnsiMirror.ByteStep and Bbs.ByteStep |
| Layout.BoundaryAt | ansimirror.py:131-144 | only a printable byte ever ends a line; escape sequences never yield (which printable bytes wrap is stated by WrapIff) |
| Layout.NextColumn | ansimirror.py:119-144 | after a printable byte the column is below 80; an escape sequence moves it by exactly its advance (the `ESC[nC` parameter, 1 when empty, 0 for other sequences) |
| Layout.WrapIff | ansimirror.py:119-144 | a wrap happens if and only if a printable byte other than CR and LF reaches column 80; no escape sequence triggers the wrap check |
| Layout.StreamAppend | ansimirror.py:105-144 | the delivered stream of a concatenation is the two streams joined, the second started at the column where the first ends |
| Layout.PlainRun | ansimirror.py:125-129 | plain bytes that stay short of the margin pass through transcoded with nothing inserted, one column each |
| Layout.FullLineWrapsOnce | ansimirror.py:139-144 | a line of exactly 80 plain bytes is followed by exactly one CR LF and leaves the cursor at column 0 |
| Layout.CursorForwardToMargin | ansimirror.py:119-121 | `ESC[80C` from column 0 puts the cursor on column 80 without a wrap, and the next printable byte wraps |
| AnsiMirror.Intervals | ansimirror.py:98-104 | speed 0 or less gives no intervals; simulation mode gives char_interval·speed = 9 and no line interval; constant mode gives line_interval·speed = 720 and no char interval; intervals are never negative |
| AnsiMirror.Max0 | ansimirror.py:127 | `max(…, 0)`; no contract of its own, its result is the wait of every yield by AnsiMirror.Schedule and is never negative by AnsiMirror.RenderAnsi |
| AnsiMirror.ChunkAt | ansimirror.py:131-142 | the three deferred chunks `b''`, `linebuf` and `linebuf + b'\r\n'`; no contract of its own, pinned by AnsiMirror.ByteStep and AnsiMirror.StepShaped |
| AnsiMirror.Step | ansimirror.py:111-144 | each unit counts once, however many bytes it has; after a printable byte the column is below 80 |
| AnsiMirror.EscapeStep | ansimirror.py:113-123 | an escape sequence is appended to the buffer verbatim, not transcoded; it moves the column by its advance, costs one char interval, and never flushes |
| AnsiMirror.ByteStep | ansimirror.py:125-144 | CR yields an empty chunk, resets the column and keeps the buffer; LF yields the buffer ending in the transcoded LF, then clears it; a byte at the margin yields buffer plus CR LF, then clears it; LF and wrap add a line interval, CR does not; any other byte only advances the column |
| AnsiMirror.StepConserves | ansimirror.py:122-144 | one unit adds exactly its piece of the stream to what has been yielded plus what is buffered |
| AnsiMirror.RunConserves | ansimirror.py:105-144 | yielded plus buffered grows by the stream of the units handled |
| AnsiMirror.Conservation | ansimirror.py:105-144 | the chunks yielded, concatenated with the generator's return value, are the input with escape sequences verbatim, printable bytes transcoded and CR LF inserted at each wrap |
| AnsiMirror.StepPaced | ansimirror.py:111-142 | the deadline is start + one char interval per unit + one line interval per LF or wrap flush, and a new yield carries that deadline and the wait max(deadline − now, 0) |
| AnsiMirror.RunPaced | ansimirror.py:105-142 | the deadline invariant and the pacing of every yield are preserved over any run of units |
| AnsiMirror.Schedule | ansimirror.py:96-142 | every yield of a render is paced: its deadline counts the units up to its own and the line flushes before it |
| AnsiMirror.ConstantModeSchedule | ansimirror.py:104-142 | in constant mode the yield that follows k line flushes has deadline·speed = start·speed + 720·k, whatever the lines contain |
| AnsiMirror.SimulationModeSchedule | ansimirror.py:102-127 | in simulation mode the yield made at unit u has deadline·speed = start·speed + 9·(u+1), however long earlier escape sequences were |
| AnsiMirror.QuickModeNeverWaits | ansimirror.py:100-127 | with speed 0, and no clock reading before the start, every wait is 0 |
| AnsiMirror.StepShaped | ansimirror.py:131-141 | a CR yield is empty, an LF yield ends with the transcoded LF, and a wrap yield ends with CR LF |
| AnsiMirror.RunShaped | ansimirror.py:105-141 | every yield over any run has the shape of its boundary |
| AnsiMirror.RunAttributed | ansimirror.py:125-141 | every yield belongs to a printable unit; it is a CR yield exactly when that unit is CR, and an LF yield exactly when it is LF |
| AnsiMirror.YieldsAttributed | ansimirror.py:105-141 | the attribution holds for every yield of a render |
| AnsiMirror.RenderAnsi | ansimirror.py:81-144 | the generator yields exactly the flushes of `Rendered` and returns its buffer; together these are the stream; every yield is paced, waits ≥ 0, and is shaped by its boundary |
| AnsiMirror.ScanAndYield | ansimirror.py:105-144 | the scanning loop, given the two intervals, ends in the state the fold of Step over the units gives |
| AnsiMirror.PutByte | ansimirror.py:125-144 | the sequential CR, LF and wrap tests on a printable byte produce exactly the state Step gives |
| Bbs.Step | bbs.py:19-53 | each unit counts once; after a printable byte the column is below 80 |
| Bbs.Charge | bbs.py:20-35 | the byte intervals a unit is charged, `move` for `ESC[nC` and 1 otherwise; no contract of its own, tied to the deadline by Bbs.Deadline and Bbs.StepDeadline |
| Bbs.Output | bbs.py:36-52 | what handling one unit does: the sleep, the yield and the CR LF at a wrap; no contract of its own, pinned by Bbs.ByteStep, Bbs.EscapeStep, Bbs.OutputChunks and Bbs.OutputScheduled |
| Bbs.ByteStep | bbs.py:39-53 | a printable byte charges one byte interval; unless quick it is slept for exactly when its deadline is ahead of the clock, with one sleep until the deadline; then it is yielded transcoded, then CR LF follows when a byte other than CR and LF reaches the margin; the column resets at CR, LF and the margin |
| Bbs.EscapeStep | bbs.py:26-37 | an escape sequence is yielded as one chunk, byte for byte, without a sleep, and moves the column by its advance |
| Bbs.OutputChunks | bbs.py:36-52 | a unit yields its image and, at a wrap, a separate CR LF; a sleep yields nothing |
| Bbs.RunChunks | bbs.py:19-53 | over any run the chunk list grows by the reference chunk list of the units, which depends neither on the clock nor on `quick` |
| Bbs.YieldsStream | bbs.py:36-52 | the reference chunks, concatenated, are the stream shared with `render_ansi` |
| Bbs.RenderedChunks | bbs.py:13-53 | a render yields exactly the reference chunk list of the input |
| Bbs.Conservation | bbs.py:19-53 | the chunks yielded, concatenated, are the input with escape sequences verbatim, printable bytes transcoded and CR LF after each wrap, with nothing added at end of file |
| Bbs.QuickChangesOnlyTiming | bbs.py:41-46 | quick and throttled renders yield the same chunk sequence, whatever either clock says |
| Bbs.RunQuick | bbs.py:41-44 | in quick mode no step ever sleeps |
| Bbs.QuickNeverPauses | bbs.py:41-44 | a quick render's trace holds yields only |
| Bbs.Deadline | bbs.py:20-35 | the tick at the top of the loop plus the `(move - 1)` ticks of a cursor-forward sequence advance the deadline by the unit's charge in byte intervals: n for `ESC[nC` (0 for `ESC[0C`), 1 for any other unit |
| Bbs.Wait | bbs.py:41-44 | at most one sleep, which there is exactly when not quick and the deadline is ahead of the clock reading, and which lasts until the deadline |
| Bbs.StepDeadline | bbs.py:17-35 | after unit k the deadline is start plus one byte interval per charge of units 0..k |
| Bbs.OutputScheduled | bbs.py:41-46 | a unit sleeps only for a printable byte, only for a positive time, and until its deadline; nothing but yields follows the first action of a unit, so it sleeps at most once and before its yields |
| Bbs.RunScheduled | bbs.py:17-44 | every sleep over any run is on schedule |
| Bbs.PauseSchedule | bbs.py:17-44 | every sleep of a render is for a printable byte not yet due, and lasts until start plus one byte interval per charge of the units read so far |
| Bbs.RunSleptFor | bbs.py:17-44 | over any run of a throttled render, every printable byte read that was not yet due has been slept for until its deadline |
| Bbs.SleepsWhenEarly | bbs.py:17-44 | a throttled render sleeps for a printable byte, until the byte is due, if and only if its deadline is ahead of the clock reading taken for it |
| Bbs.Render | bbs.py:13-53 | the generator's trace is exactly that of `Rendered`; what it yields is the stream; in quick mode it never sleeps; every sleep is on schedule; when throttled it sleeps for each printable byte exactly when that byte is not yet due |
| Bbs.PutByte | bbs.py:39-53 | sleeping unless quick or late, yielding the transcoded byte, and the CR/LF and wrap tests produce exactly the state Step gives |
| Bbs.PutEscape | bbs.py:26-37 | reading, charging and yielding an escape sequence produces exactly the state Step gives, and ends after the sequence |
| Versions.SameBytes | ansimirror.py:105-144 | what `render_ansi` yields, followed by what it returns, is exactly what `render` (bbs.py:13-53) yields, for any speeds, modes and clocks |

## Left out

- Routing, the file catalog, server bootstrap and the front-page text (the rest of ansimirror.py and bbs.py), and http_application.py: these are framework and I/O glue around the renderers.
- Reading the file: the model takes the whole file content as a sequence of bytes. Read failures cannot happen over a sequence.
- `time()`, `sleep` and `deferLater`: the clock readings are parameters, and suspensions are recorded with their wait, not performed. The generators' laziness, the consumer abandoning a render midway, and the time a consumer takes between resumptions are not modelled.
- The closures `lambda: linebuf`: each chunk has the buffer's value at the moment of the yield. This matches the code because the consumer resumes the generator only after the deferred has fired.
- The CP437 to UTF-8 codec: the parameter `tr` stands for it, and no property depends on its table.
- Floating point: deadlines, intervals and waits are `real`. IEEE rounding is not modelled.
- Scan.WellFormed: an escape that is never followed by a letter is excluded, because the source then loops forever.
- Scan.WellFormed: the parameter of a cursor-forward sequence must be empty or decimal digits. Python's `int()` also accepts surrounding whitespace, a sign and underscores, and those inputs are excluded. A negative move would take the column below zero.
- Bbs.Render: the generator's return value `''` carries no content and is not modelled.
- The initial value of `ansiseq` is never read, and is not modelled.
- `render_ansi` computes `sleeptime` for every printable byte, but only the values its yields carry are recorded.
- The defaults of `render_ansi` (`speed=9600`, `simulation=False`, ansimirror.py:81) are not modelled: both are plain parameters of every member.
- The HTTP consumer passes the generator on with `yield from` (http_application.py:50-53), which discards the generator's return value. So `render_ansi`'s trailing partial line (what the model calls `rest`) never reaches an HTTP client. The model states what is yielded and what is returned; the consumer is not part of this model.
- AnsiMirror.QuickModeNeverWaits: it requires that no clock reading is earlier than the start reading. Otherwise a wait could be positive even at speed 0.
