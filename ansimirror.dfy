/** The current renderer, `render_ansi` (ansimirror.py:81-144): a generator that
    reads the artwork one byte at a time, assembles lines in a buffer and yields
    a (wait, chunk) pair at every carriage return, line feed and forced wrap.

    The clock is a parameter: `start` is the reading taken when the render begins
    (line 96) and `now(k)` the reading taken while the k-th unit is handled
    (line 127).  Suspension is left to the consumer, so each yield is recorded
    with the wait the generator computed for it. */
module AnsiMirror {
  import opened Scan
  import opened Layout
  import opened Timing

  /** The time charged per scanned unit and per flushed line. */
  datatype Pace = Pace(charInterval: real, lineInterval: real)

  /** Interval setup (ansimirror.py:98-104): speed 0 (or less) throttles nothing;
      simulation mode charges one 9-bit byte-time per unit; the default constant
      mode charges 80 byte-times per line. */
  function Intervals(speed: int, simulation: bool): (p: Pace)
    ensures p.charInterval >= 0.0 && p.lineInterval >= 0.0
    ensures p.charInterval == 0.0 || p.lineInterval == 0.0
    ensures speed <= 0 ==> p == Pace(0.0, 0.0)
    ensures speed > 0 && simulation ==> p.charInterval * speed as real == 9.0 && p.lineInterval == 0.0
    ensures speed > 0 && !simulation ==> p.lineInterval * speed as real == 720.0 && p.charInterval == 0.0
  {
    if speed > 0 then
      if simulation then
        var c := (8 + 1) as real / speed as real;
        assert c * speed as real == 9.0;
        Pace(c, 0.0)
      else
        var l := (80 * (8 + 1)) as real / speed as real;
        assert l * speed as real == 720.0;
        Pace(0.0, l)
    else Pace(0.0, 0.0)
  }

  /** Python's `max(x, 0)`. */
  function Max0(x: real): real {
    if x > 0.0 then x else 0.0
  }

  /** One yield of the generator: `wait` and `chunk` are the pair the consumer
      receives; `boundary`, `unit` (the ordinal of the unit being handled) and
      `deadline` (the value of `nextline_ts` used) record where it came from. */
  datatype Flush = Flush(boundary: Boundary, unit: nat, deadline: real, wait: real, chunk: seq<byte>)

  /** The generator's locals between two units, with everything yielded so far. */
  datatype State = State(col: nat, linebuf: seq<byte>, deadline: real, flushes: seq<Flush>, units: nat)

  function Initial(start: real): State {
    State(0, [], start, [], 0)
  }

  /** Everything yielded, concatenated. */
  function Delivered(fs: seq<Flush>): seq<byte>
    decreases |fs|
  {
    if fs == [] then [] else Delivered(fs[..|fs| - 1]) + fs[|fs| - 1].chunk
  }

  /** The number of line flushes (line feeds and wraps) among fs. */
  function LineFlushes(fs: seq<Flush>): nat
    decreases |fs|
  {
    if fs == [] then 0
    else LineFlushes(fs[..|fs| - 1]) + (if fs[|fs| - 1].boundary == CarriageReturn then 0 else 1)
  }

  /** The chunk yielded at a boundary, given the line buffer with the byte just
      read already appended. */
  function ChunkAt(boundary: Boundary, buf: seq<byte>): seq<byte> {
    match boundary
    case CarriageReturn => []
    case LineFeed => buf
    case Wrap => buf + CRLF
  }

  /** A line feed or a wrap: the boundaries that empty the buffer and cost a line-time. */
  predicate EndsLine(boundary: Option<Boundary>) {
    boundary.Some? && boundary.value != CarriageReturn
  }

  /** One unit handled: the deadline grows by a unit-time; an escape sequence goes
      verbatim into the line buffer, a printable byte goes in transcoded; at a
      boundary a chunk is yielded with the computed wait.  A carriage return
      keeps the buffer; a line feed or a wrap empties it and adds a line-time. */
  function Step(p: Pace, now: nat -> real, tr: byte -> seq<byte>, st: State, u: Unit): (r: State)
    ensures r.units == st.units + 1
    ensures u.Printable? ==> r.col < COLUMNS
  {
    var boundary := BoundaryAt(st.col, u);
    var deadline := st.deadline + p.charInterval;
    var buf := st.linebuf + Image(u, tr);
    State(
      NextColumn(st.col, u),
      if EndsLine(boundary) then [] else buf,
      if EndsLine(boundary) then deadline + p.lineInterval else deadline,
      if boundary.None? then st.flushes
      else st.flushes + [Flush(boundary.value, st.units, deadline, Max0(deadline - now(st.units)), ChunkAt(boundary.value, buf))],
      st.units + 1)
  }

  function Run(p: Pace, now: nat -> real, tr: byte -> seq<byte>, st: State, us: seq<Unit>): State
    decreases |us|
  {
    if us == [] then st else Run(p, now, tr, Step(p, now, tr, st, us[0]), us[1..])
  }

  lemma RunUnfold(p: Pace, now: nat -> real, tr: byte -> seq<byte>, st: State, u: Unit, rest: seq<Unit>)
    ensures Run(p, now, tr, st, [u] + rest) == Run(p, now, tr, Step(p, now, tr, st, u), rest)
  {
    assert ([u] + rest)[1..] == rest;
  }

  /** An escape sequence never ends a line and never flushes: it is appended to
      the line buffer verbatim, moves the cursor by its advance and still costs
      one character interval. */
  lemma EscapeStep(p: Pace, now: nat -> real, tr: byte -> seq<byte>, st: State, u: Unit)
    requires u.Control?
    ensures Step(p, now, tr, st, u)
         == State(st.col + Advance(u), st.linebuf + u.raw, st.deadline + p.charInterval, st.flushes, st.units + 1)
  {
  }

  /** The four ways a printable byte b is handled: a carriage return flushes
      nothing and keeps the buffer, a line feed flushes the buffer, a byte that
      reaches the margin flushes the buffer with CR LF appended, any other byte
      only moves the cursor.  Only the last two depend on the column. */
  lemma ByteStep(p: Pace, now: nat -> real, tr: byte -> seq<byte>, st: State, b: byte)
    requires b != ESC
    ensures b == CR ==> (Step(p, now, tr, st, Printable(b))
      == State(0, st.linebuf + tr(b), st.deadline + p.charInterval,
               st.flushes + [Flush(CarriageReturn, st.units, st.deadline + p.charInterval,
                                   Max0(st.deadline + p.charInterval - now(st.units)), [])],
               st.units + 1))
    ensures b == LF ==> (Step(p, now, tr, st, Printable(b))
      == State(0, [], st.deadline + p.charInterval + p.lineInterval,
               st.flushes + [Flush(LineFeed, st.units, st.deadline + p.charInterval,
                                   Max0(st.deadline + p.charInterval - now(st.units)), st.linebuf + tr(b))],
               st.units + 1))
    ensures b != CR && b != LF && st.col + 1 >= COLUMNS ==> (Step(p, now, tr, st, Printable(b))
      == State(0, [], st.deadline + p.charInterval + p.lineInterval,
               st.flushes + [Flush(Wrap, st.units, st.deadline + p.charInterval,
                                   Max0(st.deadline + p.charInterval - now(st.units)), st.linebuf + tr(b) + CRLF)],
               st.units + 1))
    ensures b != CR && b != LF && st.col + 1 < COLUMNS ==> (Step(p, now, tr, st, Printable(b))
      == State(st.col + 1, st.linebuf + tr(b), st.deadline + p.charInterval, st.flushes, st.units + 1))
  {
  }

  /** The state `render_ansi` ends in at end of file: its `flushes` are the yields
      and its `linebuf` is the generator's return value. */
  function Rendered(s: seq<byte>, speed: int, simulation: bool, start: real, now: nat -> real,
                    tr: byte -> seq<byte>): State
    requires WellFormed(s)
  {
    Run(Intervals(speed, simulation), now, tr, Initial(start), Units(s))
  }

  // ---------------------------------------------------------------------------
  // Conservation

  lemma DeliveredAppend(fs: seq<Flush>, f: Flush)
    ensures Delivered(fs + [f]) == Delivered(fs) + f.chunk
    ensures LineFlushes(fs + [f]) == LineFlushes(fs) + (if f.boundary == CarriageReturn then 0 else 1)
  {
    assert (fs + [f])[..|fs|] == fs;
  }

  /** One unit handled: what was yielded plus what is still buffered grows by
      exactly that unit's piece of the stream. */
  lemma StepConserves(p: Pace, now: nat -> real, tr: byte -> seq<byte>, st: State, u: Unit)
    ensures Delivered(Step(p, now, tr, st, u).flushes) + Step(p, now, tr, st, u).linebuf
         == Delivered(st.flushes) + st.linebuf + Piece(st.col, u, tr)
    ensures Step(p, now, tr, st, u).col == NextColumn(st.col, u)
  {
    var r := Step(p, now, tr, st, u);
    var boundary := BoundaryAt(st.col, u);
    if boundary.Some? {
      var f := r.flushes[|st.flushes|];
      assert r.flushes == st.flushes + [f];
      DeliveredAppend(st.flushes, f);
    }
  }

  /** What was yielded plus what is still buffered grows by exactly the stream
      of the units handled. */
  lemma {:induction false} RunConserves(p: Pace, now: nat -> real, tr: byte -> seq<byte>, st: State, us: seq<Unit>)
    ensures var r := Run(p, now, tr, st, us);
      Delivered(r.flushes) + r.linebuf == Delivered(st.flushes) + st.linebuf + Stream(us, st.col, tr)
    decreases |us|
  {
    if us != [] {
      var st' := Step(p, now, tr, st, us[0]);
      StepConserves(p, now, tr, st, us[0]);
      RunConserves(p, now, tr, st', us[1..]);
    }
  }

  /** The chunks yielded, followed by the generator's return value, are the
      input with every escape sequence verbatim, every other byte transcoded and
      CR LF inserted at every wrap. */
  lemma Conservation(s: seq<byte>, speed: int, simulation: bool, start: real, now: nat -> real, tr: byte -> seq<byte>)
    requires WellFormed(s)
    ensures var r := Rendered(s, speed, simulation, start, now, tr);
      Delivered(r.flushes) + r.linebuf == Stream(Units(s), 0, tr)
  {
    RunConserves(Intervals(speed, simulation), now, tr, Initial(start), Units(s));
  }

  // ---------------------------------------------------------------------------
  // Pacing

  /** Every yield's deadline is the start time plus one unit-time for each unit up
      to and including the one being handled, plus one line-time for each line
      flush before it; its wait is how far that deadline lies ahead of the clock. */
  ghost predicate Paced(p: Pace, start: real, now: nat -> real, fs: seq<Flush>) {
    forall j :: 0 <= j < |fs| ==> PacedAt(p, start, now, fs, j)
  }

  ghost predicate PacedAt(p: Pace, start: real, now: nat -> real, fs: seq<Flush>, j: nat)
    requires j < |fs|
  {
    && fs[j].deadline == start + Times(fs[j].unit + 1, p.charInterval) + Times(LineFlushes(fs[..j]), p.lineInterval)
    && fs[j].wait == Max0(fs[j].deadline - now(fs[j].unit))
  }

  /** `nextline_ts` between units: one unit-time per unit read, one line-time per line flush. */
  ghost predicate OnSchedule(p: Pace, start: real, st: State) {
    st.deadline == start + Times(st.units, p.charInterval) + Times(LineFlushes(st.flushes), p.lineInterval)
  }

  lemma StepPaced(p: Pace, start: real, now: nat -> real, tr: byte -> seq<byte>, st: State, u: Unit)
    requires OnSchedule(p, start, st) && Paced(p, start, now, st.flushes)
    ensures OnSchedule(p, start, Step(p, now, tr, st, u))
    ensures Paced(p, start, now, Step(p, now, tr, st, u).flushes)
  {
    var r := Step(p, now, tr, st, u);
    var fs := st.flushes;
    var boundary := BoundaryAt(st.col, u);
    var deadline := st.deadline + p.charInterval;
    assert Times(st.units + 1, p.charInterval) == Times(st.units, p.charInterval) + p.charInterval;
    assert deadline == start + Times(st.units + 1, p.charInterval) + Times(LineFlushes(fs), p.lineInterval);
    if boundary.None? {
      assert r.flushes == fs && r.deadline == deadline;
    } else {
      var f := r.flushes[|fs|];
      assert r.flushes == fs + [f];
      DeliveredAppend(fs, f);
      if EndsLine(boundary) {
        assert LineFlushes(r.flushes) == LineFlushes(fs) + 1;
        assert Times(LineFlushes(fs) + 1, p.lineInterval) == Times(LineFlushes(fs), p.lineInterval) + p.lineInterval;
        assert r.deadline == deadline + p.lineInterval;
      } else {
        assert LineFlushes(r.flushes) == LineFlushes(fs);
        assert r.deadline == deadline;
      }
      forall j | 0 <= j < |r.flushes|
        ensures PacedAt(p, start, now, r.flushes, j)
      {
        if j < |fs| {
          assert PacedAt(p, start, now, fs, j);
          assert r.flushes[j] == fs[j] && r.flushes[..j] == fs[..j];
        } else {
          assert r.flushes[..j] == fs;
        }
      }
    }
  }

  lemma {:induction false} RunPaced(p: Pace, start: real, now: nat -> real, tr: byte -> seq<byte>, st: State, us: seq<Unit>)
    requires OnSchedule(p, start, st) && Paced(p, start, now, st.flushes)
    ensures OnSchedule(p, start, Run(p, now, tr, st, us))
    ensures Paced(p, start, now, Run(p, now, tr, st, us).flushes)
    decreases |us|
  {
    if us != [] {
      StepPaced(p, start, now, tr, st, us[0]);
      RunPaced(p, start, now, tr, Step(p, now, tr, st, us[0]), us[1..]);
    }
  }

  /** The deadline of every yield, in both timing modes, and its wait. */
  lemma Schedule(s: seq<byte>, speed: int, simulation: bool, start: real, now: nat -> real, tr: byte -> seq<byte>)
    requires WellFormed(s)
    ensures Paced(Intervals(speed, simulation), start, now, Rendered(s, speed, simulation, start, now, tr).flushes)
  {
    var p := Intervals(speed, simulation);
    assert OnSchedule(p, start, Initial(start));
    RunPaced(p, start, now, tr, Initial(start), Units(s));
  }

  lemma Rescale(d: real, start: real, interval: real, k: real, speed: real, bits: real)
    requires d == start + k * interval && interval * speed == bits
    ensures d * speed == start * speed + bits * k
  {
    calc {
      d * speed;
      start * speed + k * (interval * speed);
      start * speed + bits * k;
    }
  }

  /** Constant mode: in any paced list of yields, the one that follows k line
      yields waits until start + k * 720 / speed, whatever the lines contain. */
  lemma ConstantModeSchedule(speed: int, start: real, now: nat -> real, fs: seq<Flush>, j: nat)
    requires speed > 0
    requires Paced(Intervals(speed, false), start, now, fs) && j < |fs|
    ensures fs[j].deadline * speed as real == start * speed as real + 720.0 * LineFlushes(fs[..j]) as real
  {
    var p := Intervals(speed, false);
    assert PacedAt(p, start, now, fs, j);
    var n := LineFlushes(fs[..j]);
    TimesZero(fs[j].unit + 1);
    TimesIsProduct(n, p.lineInterval);
    Rescale(fs[j].deadline, start, p.lineInterval, n as real, speed as real, 720.0);
  }

  /** Simulation mode: in any paced list of yields, the one made while handling
      the u-th unit waits until start + (u + 1) * 9 / speed, however many bytes
      earlier escape sequences had. */
  lemma SimulationModeSchedule(speed: int, start: real, now: nat -> real, fs: seq<Flush>, j: nat)
    requires speed > 0
    requires Paced(Intervals(speed, true), start, now, fs) && j < |fs|
    ensures fs[j].deadline * speed as real == start * speed as real + 9.0 * (fs[j].unit + 1) as real
  {
    var p := Intervals(speed, true);
    assert PacedAt(p, start, now, fs, j);
    var n := fs[j].unit + 1;
    TimesIsProduct(n, p.charInterval);
    TimesZero(LineFlushes(fs[..j]));
    Rescale(fs[j].deadline, start, p.charInterval, n as real, speed as real, 9.0);
  }

  /** Speed 0: when no clock reading precedes the start, nothing ever waits. */
  lemma QuickModeNeverWaits(s: seq<byte>, simulation: bool, start: real, now: nat -> real, tr: byte -> seq<byte>)
    requires WellFormed(s)
    requires forall k :: now(k) >= start
    ensures forall j :: 0 <= j < |Rendered(s, 0, simulation, start, now, tr).flushes| ==>
      Rendered(s, 0, simulation, start, now, tr).flushes[j].wait == 0.0
  {
    var fs := Rendered(s, 0, simulation, start, now, tr).flushes;
    Schedule(s, 0, simulation, start, now, tr);
    forall j | 0 <= j < |fs|
      ensures fs[j].wait == 0.0
    {
      assert PacedAt(Intervals(0, simulation), start, now, fs, j);
      TimesZero(fs[j].unit + 1);
      TimesZero(LineFlushes(fs[..j]));
    }
  }

  // ---------------------------------------------------------------------------
  // The shape of each yield

  /** A carriage return yields an empty chunk; a line feed yields the buffer,
      which ends with the transcoded line feed; a wrap yields the buffer plus CR LF. */
  predicate Shaped(tr: byte -> seq<byte>, f: Flush) {
    match f.boundary
    case CarriageReturn => f.chunk == []
    case LineFeed => |tr(LF)| <= |f.chunk| && f.chunk[|f.chunk| - |tr(LF)|..] == tr(LF)
    case Wrap => 2 <= |f.chunk| && f.chunk[|f.chunk| - 2..] == CRLF
  }

  lemma StepShaped(p: Pace, now: nat -> real, tr: byte -> seq<byte>, st: State, u: Unit)
    requires forall j :: 0 <= j < |st.flushes| ==> Shaped(tr, st.flushes[j])
    ensures forall j :: 0 <= j < |Step(p, now, tr, st, u).flushes| ==> Shaped(tr, Step(p, now, tr, st, u).flushes[j])
  {
    var r := Step(p, now, tr, st, u);
    if |r.flushes| == |st.flushes| {
      assert r.flushes == st.flushes;
    } else {
      var f := r.flushes[|st.flushes|];
      assert r.flushes == st.flushes + [f];
      var buf := st.linebuf + tr(u.b);
      assert buf[|buf| - |tr(u.b)|..] == tr(u.b);
      assert (buf + CRLF)[|buf + CRLF| - 2..] == CRLF;
      assert Shaped(tr, f);
    }
  }

  lemma {:induction false} RunShaped(p: Pace, now: nat -> real, tr: byte -> seq<byte>, st: State, us: seq<Unit>)
    requires forall j :: 0 <= j < |st.flushes| ==> Shaped(tr, st.flushes[j])
    ensures forall j :: 0 <= j < |Run(p, now, tr, st, us).flushes| ==> Shaped(tr, Run(p, now, tr, st, us).flushes[j])
    decreases |us|
  {
    if us != [] {
      StepShaped(p, now, tr, st, us[0]);
      RunShaped(p, now, tr, Step(p, now, tr, st, us[0]), us[1..]);
    }
  }

  /** Every yield made while handling unit k of `done + us` (k counted from the
      first unit of `done`) was made for a printable unit: for a CR exactly when
      it is a carriage-return yield, for an LF exactly when it is a line-feed yield. */
  ghost predicate Attributed(all: seq<Unit>, fs: seq<Flush>) {
    forall j :: 0 <= j < |fs| ==>
      && fs[j].unit < |all|
      && all[fs[j].unit].Printable?
      && (fs[j].boundary == CarriageReturn <==> all[fs[j].unit].b == CR)
      && (fs[j].boundary == LineFeed <==> all[fs[j].unit].b == LF)
  }

  lemma {:induction false} RunAttributed(p: Pace, now: nat -> real, tr: byte -> seq<byte>, st: State, done: seq<Unit>, us: seq<Unit>)
    requires st.units == |done|
    requires Attributed(done, st.flushes)
    ensures Attributed(done + us, Run(p, now, tr, st, us).flushes)
    decreases |us|
  {
    if us == [] {
      assert done + us == done;
    } else {
      var st' := Step(p, now, tr, st, us[0]);
      var done' := done + [us[0]];
      assert done' + us[1..] == done + us;
      forall j | 0 <= j < |st'.flushes|
        ensures st'.flushes[j].unit < |done'| && done'[st'.flushes[j].unit] == (if j < |st.flushes| then done[st.flushes[j].unit] else us[0])
      {
      }
      RunAttributed(p, now, tr, st', done', us[1..]);
    }
  }

  /** Every yield of a render belongs to a printable unit of the input, and it is
      a carriage-return yield exactly when that unit is a CR, a line-feed yield
      exactly when it is an LF; otherwise it is a wrap. */
  lemma YieldsAttributed(s: seq<byte>, speed: int, simulation: bool, start: real, now: nat -> real, tr: byte -> seq<byte>)
    requires WellFormed(s)
    ensures Attributed(Units(s), Rendered(s, speed, simulation, start, now, tr).flushes)
  {
    var st := Initial(start);
    RunAttributed(Intervals(speed, simulation), now, tr, st, [], Units(s));
    assert [] + Units(s) == Units(s);
  }

  // ---------------------------------------------------------------------------
  // The generator itself

  /** `render_ansi` over the file contents s (ansimirror.py:81-144): the two
      intervals are set up from the speed, then the file is scanned. */
  method RenderAnsi(s: seq<byte>, speed: int, simulation: bool, start: real, now: nat -> real, tr: byte -> seq<byte>)
    returns (flushes: seq<Flush>, rest: seq<byte>)
    requires WellFormed(s)
    ensures flushes == Rendered(s, speed, simulation, start, now, tr).flushes
    ensures rest == Rendered(s, speed, simulation, start, now, tr).linebuf
    ensures Delivered(flushes) + rest == Stream(Units(s), 0, tr)
    ensures Paced(Intervals(speed, simulation), start, now, flushes)
    ensures forall j :: 0 <= j < |flushes| ==> flushes[j].wait >= 0.0 && Shaped(tr, flushes[j])
  {
    var lineInterval := 0.0;
    var charInterval := 0.0;
    if speed > 0 {
      if simulation {
        charInterval := (8 + 1) as real / speed as real;
      } else {
        lineInterval := (80 * (8 + 1)) as real / speed as real;
      }
    }
    ghost var p := Intervals(speed, simulation);
    assert p == Pace(charInterval, lineInterval);
    flushes, rest := ScanAndYield(s, charInterval, lineInterval, start, now, tr);
    Conservation(s, speed, simulation, start, now, tr);
    Schedule(s, speed, simulation, start, now, tr);
    RunShaped(p, now, tr, Initial(start), Units(s));
    forall j | 0 <= j < |flushes|
      ensures flushes[j].wait >= 0.0
    {
      assert PacedAt(p, start, now, flushes, j);
    }
  }

  /** The scanning loop of `render_ansi` (ansimirror.py:106-144) with the two
      intervals given: one read per step, an inner loop that swallows an escape
      sequence up to its letter, the column, deadline and line buffer updated in
      place, a yield at every boundary, and the line buffer returned at end of file. */
  method ScanAndYield(s: seq<byte>, charInterval: real, lineInterval: real, start: real,
                      now: nat -> real, tr: byte -> seq<byte>)
    returns (flushes: seq<Flush>, rest: seq<byte>)
    requires WellFormed(s)
    ensures flushes == Run(Pace(charInterval, lineInterval), now, tr, Initial(start), Units(s)).flushes
    ensures rest == Run(Pace(charInterval, lineInterval), now, tr, Initial(start), Units(s)).linebuf
  {
    ghost var p := Pace(charInterval, lineInterval);
    ghost var goal := Run(p, now, tr, Initial(start), Units(s));
    var col: nat := 0;
    var linebuf: seq<byte> := [];
    var nextline := start;
    var i := 0;
    var k := 0;
    flushes := [];
    ghost var g := Initial(start);
    while true
      invariant i <= |s|
      invariant g.col == col && g.linebuf == linebuf && g.deadline == nextline
      invariant g.flushes == flushes && g.units == k
      invariant Run(p, now, tr, g, UnitsFrom(s, i)) == goal
      decreases |s| - i
    {
      if i == |s| {
        rest := linebuf;
        assert UnitsFrom(s, i) == [];
        return;
      }
      var i0 := i;
      ghost var u := UnitAt(s, i0);
      assert s[i0] != ESC ==> u == Printable(s[i0]);
      UnitsFromUnfold(s, i0);
      RunUnfold(p, now, tr, g, u, UnitsFrom(s, UnitEnd(s, i0)));
      ghost var r := Step(p, now, tr, g, u);

      var b := s[i];
      i := i + 1;
      nextline := nextline + charInterval;

      if b == ESC {
        var ansiseq;
        ansiseq, i := ReadEscape(s, i0);
        if ansiseq[|ansiseq| - 1] == CURSOR_FORWARD {
          var move := CursorMove(ansiseq);
          col := col + move;
        }
        linebuf := linebuf + ansiseq;
        k := k + 1;
        EscapeStep(p, now, tr, g, u);
        g := r;
        continue;
      }

      col, linebuf, nextline, flushes := PutByte(b, col, linebuf, nextline, flushes, k,
                                                 charInterval, lineInterval, now, tr, g);
      k := k + 1;
      g := r;
      assert i == UnitEnd(s, i0);
    }
  }

  /** The handling of a printable byte b (ansimirror.py:125-144), the deadline
      already advanced by one character interval: the cursor moves, the
      transcoded byte joins the line buffer, and a CR, an LF or the right margin
      yields the buffer with the wait computed from the clock.  The result is
      the state Step gives from g, the state before b was read. */
  method PutByte(b: byte, col: nat, linebuf: seq<byte>, nextline: real, flushes: seq<Flush>, k: nat,
                 charInterval: real, lineInterval: real, now: nat -> real, tr: byte -> seq<byte>,
                 ghost g: State)
    returns (col': nat, linebuf': seq<byte>, nextline': real, flushes': seq<Flush>)
    requires b != ESC
    requires g == State(col, linebuf, nextline - charInterval, flushes, k)
    ensures State(col', linebuf', nextline', flushes', k + 1)
         == Step(Pace(charInterval, lineInterval), now, tr, g, Printable(b))
  {
    ByteStep(Pace(charInterval, lineInterval), now, tr, g, b);
    col' := col + 1;
    var sleeptime := Max0(nextline - now(k));
    linebuf' := linebuf + tr(b);
    nextline' := nextline;
    flushes' := flushes;

    if b == CR {
      flushes' := flushes' + [Flush(CarriageReturn, k, nextline', sleeptime, [])];
      col' := 0;
    }
    if b == LF {
      flushes' := flushes' + [Flush(LineFeed, k, nextline', sleeptime, linebuf')];
      nextline' := nextline' + lineInterval;
      col' := 0;
      linebuf' := [];
    }
    if col' >= COLUMNS {
      flushes' := flushes' + [Flush(Wrap, k, nextline', sleeptime, linebuf' + CRLF)];
      nextline' := nextline' + lineInterval;
      col' := 0;
      linebuf' := [];
    }
  }
}
