/** The older renderer, `render` (bbs.py:13-53): a generator that reads the
    artwork one byte at a time, emulates a 19200 bit/s line by sleeping until
    each printable byte is due, and yields every escape sequence and every
    transcoded byte as its own chunk, with CR LF yielded after each forced wrap.

    The clock is a parameter: `start` is the reading taken when the render
    begins (line 17) and `now(k)` the reading taken while the k-th unit is
    handled (line 42).  The blocking `sleep` is recorded as a Pause action in
    the trace, in the order it happens relative to the yields. */
module Bbs {
  import opened Scan
  import opened Layout
  import opened Timing

  /** The time of one byte on the emulated line: ten bits at 19200 bit/s. */
  const BYTE_INTERVAL: real := 10.0 / 19200.0

  /** What the generator does, in order: sleep for some seconds while handling
      a unit (with the deadline it slept towards), or yield a chunk. */
  datatype Action = Pause(unit: nat, deadline: real, seconds: real) | Emit(chunk: seq<byte>)

  /** The generator's locals between two units, with everything done so far. */
  datatype State = State(col: nat, deadline: real, actions: seq<Action>, units: nat)

  function Initial(start: real): State {
    State(0, start, [], 0)
  }

  /** How many byte intervals a unit is charged: the move of a cursor-forward
      sequence (the columns it skips would have been spaces), one otherwise. */
  function Charge(u: Unit): nat {
    if IsCursorForward(u) then CursorMove(u.raw) else 1
  }

  /** The charges of a list of units, summed. */
  function ChargeSum(us: seq<Unit>): nat
    decreases |us|
  {
    if us == [] then 0 else ChargeSum(us[..|us| - 1]) + Charge(us[|us| - 1])
  }

  /** `nextbyte_ts` once unit u has been read: one interval at the top of the
      loop, and `move - 1` more for a cursor-forward sequence.  Together these
      advance the deadline by the unit's charge, so `ESC[0C` leaves it unchanged. */
  function Deadline(st: State, u: Unit): (r: real)
    ensures r == st.deadline + Times(Charge(u), BYTE_INTERVAL)
  {
    TimesIsProduct(Charge(u), BYTE_INTERVAL);
    st.deadline + BYTE_INTERVAL
      + (if IsCursorForward(u) then (CursorMove(u.raw) as int - 1) as real * BYTE_INTERVAL else 0.0)
  }

  /** The sleep before a printable byte: none in quick mode or when the byte is
      not yet due, otherwise a single sleep that lasts until its deadline. */
  function Wait(quick: bool, now: nat -> real, st: State, deadline: real): (r: seq<Action>)
    ensures r == [] || r == [Pause(st.units, deadline, deadline - now(st.units))]
    ensures r != [] <==> !quick && deadline > now(st.units)
  {
    if !quick && deadline - now(st.units) > 0.0 then [Pause(st.units, deadline, deadline - now(st.units))]
    else []
  }

  /** What handling unit u does: an escape sequence is yielded verbatim; a
      printable byte is waited for, yielded transcoded, and followed by CR LF
      when it forces a wrap. */
  function Output(quick: bool, now: nat -> real, tr: byte -> seq<byte>, st: State, u: Unit): seq<Action> {
    match u
    case Control(raw) => [Emit(raw)]
    case Printable(b) =>
      Wait(quick, now, st, Deadline(st, u)) + [Emit(tr(b))]
        + (if BoundaryAt(st.col, u) == Some(Wrap) then [Emit(CRLF)] else [])
  }

  function Step(quick: bool, now: nat -> real, tr: byte -> seq<byte>, st: State, u: Unit): (r: State)
    ensures r.units == st.units + 1
    ensures u.Printable? ==> r.col < COLUMNS
  {
    State(NextColumn(st.col, u), Deadline(st, u), st.actions + Output(quick, now, tr, st, u), st.units + 1)
  }

  function Run(quick: bool, now: nat -> real, tr: byte -> seq<byte>, st: State, us: seq<Unit>): State
    decreases |us|
  {
    if us == [] then st else Run(quick, now, tr, Step(quick, now, tr, st, us[0]), us[1..])
  }

  lemma RunUnfold(quick: bool, now: nat -> real, tr: byte -> seq<byte>, st: State, u: Unit, rest: seq<Unit>)
    ensures Run(quick, now, tr, st, [u] + rest) == Run(quick, now, tr, Step(quick, now, tr, st, u), rest)
  {
    assert ([u] + rest)[1..] == rest;
  }

  /** An escape sequence is yielded on its own, verbatim, without a sleep; it
      moves the cursor by its advance and the deadline by its charge. */
  lemma EscapeStep(quick: bool, now: nat -> real, tr: byte -> seq<byte>, st: State, u: Unit)
    requires u.Control?
    ensures Step(quick, now, tr, st, u)
         == State(st.col + Advance(u), Deadline(st, u), st.actions + [Emit(u.raw)], st.units + 1)
  {
  }

  /** A printable byte is slept for when it is not yet due and the render is
      throttled, then yielded transcoded, then followed by CR LF at the margin;
      it is charged one byte interval, and the cursor resets at CR, LF and the
      margin. */
  lemma ByteStep(quick: bool, now: nat -> real, tr: byte -> seq<byte>, st: State, b: byte)
    requires b != ESC
    ensures Deadline(st, Printable(b)) == st.deadline + BYTE_INTERVAL
    ensures var d := st.deadline + BYTE_INTERVAL;
      Output(quick, now, tr, st, Printable(b))
        == (if !quick && d > now(st.units) then [Pause(st.units, d, d - now(st.units))] else [])
           + [Emit(tr(b))]
           + (if b != CR && b != LF && st.col + 1 >= COLUMNS then [Emit(CRLF)] else [])
    ensures Step(quick, now, tr, st, Printable(b)).col
         == (if b == CR || b == LF || st.col + 1 >= COLUMNS then 0 else st.col + 1)
  {
  }

  /** The state `render` ends in at end of file. */
  function Rendered(s: seq<byte>, quick: bool, start: real, now: nat -> real, tr: byte -> seq<byte>): State
    requires WellFormed(s)
  {
    Run(quick, now, tr, Initial(start), Units(s))
  }

  // ---------------------------------------------------------------------------
  // What is yielded

  /** The yielded chunks, in order, with the pauses dropped. */
  function Chunks(acts: seq<Action>): seq<seq<byte>>
    decreases |acts|
  {
    if acts == [] then []
    else Chunks(acts[..|acts| - 1]) + (if acts[|acts| - 1].Emit? then [acts[|acts| - 1].chunk] else [])
  }

  function Concat(cs: seq<seq<byte>>): seq<byte>
    decreases |cs|
  {
    if cs == [] then [] else cs[0] + Concat(cs[1..])
  }

  /** Everything yielded, concatenated: the bytes the client receives. */
  function Emitted(acts: seq<Action>): seq<byte> {
    Concat(Chunks(acts))
  }

  /** The chunks a unit at column col is yielded as: its image, then CR LF when
      it forces a wrap. */
  function UnitChunks(col: nat, u: Unit, tr: byte -> seq<byte>): seq<seq<byte>> {
    [Image(u, tr)] + (if BoundaryAt(col, u) == Some(Wrap) then [CRLF] else [])
  }

  /** The reference chunk list for units us from column col. */
  function Yields(us: seq<Unit>, col: nat, tr: byte -> seq<byte>): seq<seq<byte>>
    decreases |us|
  {
    if us == [] then [] else UnitChunks(col, us[0], tr) + Yields(us[1..], NextColumn(col, us[0]), tr)
  }

  lemma {:induction false} ChunksAppend(a: seq<Action>, b: seq<Action>)
    ensures Chunks(a + b) == Chunks(a) + Chunks(b)
    decreases |b|
  {
    if b == [] {
      assert a + b == a;
    } else {
      var b' := b[..|b| - 1];
      assert (a + b)[..|a + b| - 1] == a + b';
      assert (a + b)[|a + b| - 1] == b[|b| - 1];
      ChunksAppend(a, b');
    }
  }

  lemma {:induction false} ConcatAppend(a: seq<seq<byte>>, b: seq<seq<byte>>)
    ensures Concat(a + b) == Concat(a) + Concat(b)
    decreases |a|
  {
    if a == [] {
      assert a + b == b;
    } else {
      assert (a + b)[0] == a[0];
      assert (a + b)[1..] == a[1..] + b;
      ConcatAppend(a[1..], b);
    }
  }

  /** The actions a unit produces yield exactly its chunks: a pause yields nothing. */
  lemma OutputChunks(quick: bool, now: nat -> real, tr: byte -> seq<byte>, st: State, u: Unit)
    ensures Chunks(Output(quick, now, tr, st, u)) == UnitChunks(st.col, u, tr)
  {
    var emits: seq<Action> := [Emit(Image(u, tr))];
    assert Chunks(emits) == [Image(u, tr)] by {
      assert emits[..0] == [];
    }
    var crlf: seq<Action> := if BoundaryAt(st.col, u) == Some(Wrap) then [Emit(CRLF)] else [];
    assert Chunks(crlf) == (if BoundaryAt(st.col, u) == Some(Wrap) then [CRLF] else []) by {
      if crlf != [] {
        assert crlf[..0] == [];
      }
    }
    var wait := if u.Printable? then Wait(quick, now, st, Deadline(st, u)) else [];
    assert Chunks(wait) == [] by {
      if wait != [] {
        assert wait[..0] == [];
      }
    }
    assert Output(quick, now, tr, st, u) == wait + emits + crlf;
    ChunksAppend(wait, emits);
    ChunksAppend(wait + emits, crlf);
  }

  lemma {:induction false} RunChunks(quick: bool, now: nat -> real, tr: byte -> seq<byte>, st: State, us: seq<Unit>)
    ensures Chunks(Run(quick, now, tr, st, us).actions) == Chunks(st.actions) + Yields(us, st.col, tr)
    decreases |us|
  {
    if us != [] {
      var st' := Step(quick, now, tr, st, us[0]);
      ChunksAppend(st.actions, Output(quick, now, tr, st, us[0]));
      OutputChunks(quick, now, tr, st, us[0]);
      RunChunks(quick, now, tr, st', us[1..]);
    }
  }

  lemma {:induction false} YieldsStream(us: seq<Unit>, col: nat, tr: byte -> seq<byte>)
    ensures Concat(Yields(us, col, tr)) == Stream(us, col, tr)
    decreases |us|
  {
    if us != [] {
      var head := UnitChunks(col, us[0], tr);
      YieldsStream(us[1..], NextColumn(col, us[0]), tr);
      ConcatAppend(head, Yields(us[1..], NextColumn(col, us[0]), tr));
      assert Concat(head) == Piece(col, us[0], tr) by {
        if |head| == 1 {
          ConcatAppend([Image(us[0], tr)], []);
        } else {
          ConcatAppend([Image(us[0], tr)], [CRLF]);
        }
      }
    }
  }

  /** The render yields the chunks of the reference list: whatever the clock
      says and whether or not it sleeps. */
  lemma RenderedChunks(s: seq<byte>, quick: bool, start: real, now: nat -> real, tr: byte -> seq<byte>)
    requires WellFormed(s)
    ensures Chunks(Rendered(s, quick, start, now, tr).actions) == Yields(Units(s), 0, tr)
  {
    RunChunks(quick, now, tr, Initial(start), Units(s));
  }

  /** The bytes received are the stream shared with `render_ansi`: every unit's
      image in input order, CR LF after each forced wrap, nothing else. */
  lemma Conservation(s: seq<byte>, quick: bool, start: real, now: nat -> real, tr: byte -> seq<byte>)
    requires WellFormed(s)
    ensures Emitted(Rendered(s, quick, start, now, tr).actions) == Stream(Units(s), 0, tr)
  {
    RenderedChunks(s, quick, start, now, tr);
    YieldsStream(Units(s), 0, tr);
  }

  /** Quick mode changes only the timing: the chunks yielded are the same as in
      a throttled render, whatever either clock says. */
  lemma QuickChangesOnlyTiming(s: seq<byte>, start: real, now: nat -> real, start': real, now': nat -> real,
                               tr: byte -> seq<byte>)
    requires WellFormed(s)
    ensures Chunks(Rendered(s, true, start, now, tr).actions) == Chunks(Rendered(s, false, start', now', tr).actions)
  {
    RenderedChunks(s, true, start, now, tr);
    RenderedChunks(s, false, start', now', tr);
  }

  // ---------------------------------------------------------------------------
  // When it sleeps

  lemma {:induction false} RunQuick(now: nat -> real, tr: byte -> seq<byte>, st: State, us: seq<Unit>)
    requires forall j :: 0 <= j < |st.actions| ==> st.actions[j].Emit?
    ensures forall j :: 0 <= j < |Run(true, now, tr, st, us).actions| ==> Run(true, now, tr, st, us).actions[j].Emit?
    decreases |us|
  {
    if us != [] {
      RunQuick(now, tr, Step(true, now, tr, st, us[0]), us[1..]);
    }
  }

  /** Quick mode never sleeps. */
  lemma QuickNeverPauses(s: seq<byte>, start: real, now: nat -> real, tr: byte -> seq<byte>)
    requires WellFormed(s)
    ensures forall j :: 0 <= j < |Rendered(s, true, start, now, tr).actions| ==> Rendered(s, true, start, now, tr).actions[j].Emit?
  {
    RunQuick(now, tr, Initial(start), Units(s));
  }

  /** When unit k of all is due: the start time plus one byte interval per
      charge of units 0..k. */
  ghost function DueAt(all: seq<Unit>, start: real, k: nat): real
    requires k < |all|
  {
    start + Times(ChargeSum(all[..k + 1]), BYTE_INTERVAL)
  }

  /** A sleep made while handling unit k of all is for a printable byte, lasts
      a positive time, and ends when that byte is due. */
  ghost predicate PauseOnTime(all: seq<Unit>, start: real, now: nat -> real, a: Action) {
    a.Pause? ==>
      && a.unit < |all|
      && all[a.unit].Printable?
      && a.seconds > 0.0
      && a.seconds == a.deadline - now(a.unit)
      && a.deadline == DueAt(all, start, a.unit)
  }

  ghost predicate Scheduled(all: seq<Unit>, start: real, now: nat -> real, acts: seq<Action>) {
    forall j :: 0 <= j < |acts| ==> PauseOnTime(all, start, now, acts[j])
  }

  lemma StepDeadline(start: real, st: State, all: seq<Unit>)
    requires st.units < |all|
    requires st.deadline == start + Times(ChargeSum(all[..st.units]), BYTE_INTERVAL)
    ensures Deadline(st, all[st.units]) == start + Times(ChargeSum(all[..st.units + 1]), BYTE_INTERVAL)
  {
    var u := all[st.units];
    assert all[..st.units + 1][..st.units] == all[..st.units];
    TimesAdd(ChargeSum(all[..st.units]), Charge(u), BYTE_INTERVAL);
  }

  lemma OutputScheduled(quick: bool, start: real, now: nat -> real, tr: byte -> seq<byte>, st: State, all: seq<Unit>)
    requires st.units < |all|
    requires Deadline(st, all[st.units]) == start + Times(ChargeSum(all[..st.units + 1]), BYTE_INTERVAL)
    ensures Scheduled(all, start, now, Output(quick, now, tr, st, all[st.units]))
    ensures forall j :: 0 < j < |Output(quick, now, tr, st, all[st.units])| ==> Output(quick, now, tr, st, all[st.units])[j].Emit?
  {
    var u := all[st.units];
    var d := Deadline(st, u);
    var out := Output(quick, now, tr, st, u);
    forall j | 0 <= j < |out|
      ensures PauseOnTime(all, start, now, out[j])
    {
      if out[j].Pause? {
        assert u.Printable? && out[j] == Pause(st.units, d, d - now(st.units));
      }
    }
  }

  lemma ScheduledAppend(all: seq<Unit>, start: real, now: nat -> real, a: seq<Action>, b: seq<Action>)
    requires Scheduled(all, start, now, a) && Scheduled(all, start, now, b)
    ensures Scheduled(all, start, now, a + b)
  {
    forall j | 0 <= j < |a + b|
      ensures PauseOnTime(all, start, now, (a + b)[j])
    {
      if j >= |a| {
        assert (a + b)[j] == b[j - |a|];
      }
    }
  }

  lemma {:induction false} RunScheduled(quick: bool, start: real, now: nat -> real, tr: byte -> seq<byte>,
                                        st: State, all: seq<Unit>)
    requires st.units <= |all|
    requires st.deadline == start + Times(ChargeSum(all[..st.units]), BYTE_INTERVAL)
    requires Scheduled(all, start, now, st.actions)
    ensures Scheduled(all, start, now, Run(quick, now, tr, st, all[st.units..]).actions)
    decreases |all| - st.units
  {
    if st.units < |all| {
      var st' := Step(quick, now, tr, st, all[st.units]);
      StepDeadline(start, st, all);
      OutputScheduled(quick, start, now, tr, st, all);
      ScheduledAppend(all, start, now, st.actions, Output(quick, now, tr, st, all[st.units]));
      assert all[st.units..][0] == all[st.units];
      assert all[st.units..][1..] == all[st'.units..];
      RunScheduled(quick, start, now, tr, st', all);
    }
  }

  /** Every sleep of a render is for a printable byte that is not yet due, and
      lasts until start plus one byte interval per charge of the units read so far. */
  lemma PauseSchedule(s: seq<byte>, quick: bool, start: real, now: nat -> real, tr: byte -> seq<byte>)
    requires WellFormed(s)
    ensures Scheduled(Units(s), start, now, Rendered(s, quick, start, now, tr).actions)
  {
    var all := Units(s);
    assert all[..0] == [];
    assert all[0..] == all;
    RunScheduled(quick, start, now, tr, Initial(start), all);
  }

  /** A throttled render has slept for each printable byte among units 0..n-1
      that was not yet due when it was read. */
  ghost predicate SleptFor(all: seq<Unit>, start: real, now: nat -> real, acts: seq<Action>, n: nat)
    requires n <= |all|
  {
    forall k :: 0 <= k < n && all[k].Printable? && DueAt(all, start, k) > now(k)
      ==> Pause(k, DueAt(all, start, k), DueAt(all, start, k) - now(k)) in acts
  }

  lemma {:induction false} RunSleptFor(start: real, now: nat -> real, tr: byte -> seq<byte>, st: State, all: seq<Unit>)
    requires st.units <= |all|
    requires st.deadline == start + Times(ChargeSum(all[..st.units]), BYTE_INTERVAL)
    requires SleptFor(all, start, now, st.actions, st.units)
    ensures SleptFor(all, start, now, Run(false, now, tr, st, all[st.units..]).actions, |all|)
    decreases |all| - st.units
  {
    if st.units < |all| {
      var u := all[st.units];
      var st' := Step(false, now, tr, st, u);
      StepDeadline(start, st, all);
      forall k | 0 <= k < st'.units && all[k].Printable? && DueAt(all, start, k) > now(k)
        ensures Pause(k, DueAt(all, start, k), DueAt(all, start, k) - now(k)) in st'.actions
      {
        if k == st.units {
          var out := Output(false, now, tr, st, u);
          assert out[0] == Pause(k, DueAt(all, start, k), DueAt(all, start, k) - now(k));
          assert st'.actions[|st.actions|] == out[0];
        }
      }
      assert all[st.units..][0] == u;
      assert all[st.units..][1..] == all[st'.units..];
      RunSleptFor(start, now, tr, st', all);
    }
  }

  /** A throttled render sleeps for a printable byte exactly when the byte is
      not yet due at the clock reading taken for it, and then until it is due. */
  lemma SleepsWhenEarly(s: seq<byte>, start: real, now: nat -> real, tr: byte -> seq<byte>)
    requires WellFormed(s)
    ensures var all := Units(s);
      forall k :: 0 <= k < |all| && all[k].Printable? ==>
        (Pause(k, DueAt(all, start, k), DueAt(all, start, k) - now(k)) in Rendered(s, false, start, now, tr).actions
         <==> DueAt(all, start, k) > now(k))
  {
    var all := Units(s);
    var acts := Rendered(s, false, start, now, tr).actions;
    assert all[..0] == [];
    assert all[0..] == all;
    RunSleptFor(start, now, tr, Initial(start), all);
    PauseSchedule(s, false, start, now, tr);
    forall k | 0 <= k < |all| && all[k].Printable?
      ensures Pause(k, DueAt(all, start, k), DueAt(all, start, k) - now(k)) in acts ==> DueAt(all, start, k) > now(k)
    {
      var p := Pause(k, DueAt(all, start, k), DueAt(all, start, k) - now(k));
      if p in acts {
        var j :| 0 <= j < |acts| && acts[j] == p;
        assert PauseOnTime(all, start, now, acts[j]);
      }
    }
  }

  // ---------------------------------------------------------------------------
  // The generator itself

  /** `render` over the file contents s (bbs.py:13-53): one read per step, the
      deadline advanced before each read, an inner loop that swallows an escape
      sequence up to its letter, the column updated in place, a yield per unit. */
  method Render(s: seq<byte>, quick: bool, start: real, now: nat -> real, tr: byte -> seq<byte>)
    returns (actions: seq<Action>)
    requires WellFormed(s)
    ensures actions == Rendered(s, quick, start, now, tr).actions
    ensures Emitted(actions) == Stream(Units(s), 0, tr)
    ensures quick ==> forall j :: 0 <= j < |actions| ==> actions[j].Emit?
    ensures Scheduled(Units(s), start, now, actions)
    ensures !quick ==> forall k :: 0 <= k < |Units(s)| && Units(s)[k].Printable? ==>
      (Pause(k, DueAt(Units(s), start, k), DueAt(Units(s), start, k) - now(k)) in actions
       <==> DueAt(Units(s), start, k) > now(k))
  {
    ghost var goal := Rendered(s, quick, start, now, tr);
    var col: nat := 0;
    var nextbyte := start;
    var i := 0;
    var k := 0;
    actions := [];
    ghost var g := Initial(start);
    while true
      invariant i <= |s|
      invariant g.col == col && g.deadline == nextbyte && g.actions == actions && g.units == k
      invariant Run(quick, now, tr, g, UnitsFrom(s, i)) == goal
      decreases |s| - i
    {
      nextbyte := nextbyte + BYTE_INTERVAL;
      if i == |s| {
        assert UnitsFrom(s, i) == [];
        Conservation(s, quick, start, now, tr);
        if quick {
          QuickNeverPauses(s, start, now, tr);
        }
        PauseSchedule(s, quick, start, now, tr);
        if !quick {
          SleepsWhenEarly(s, start, now, tr);
        }
        return;
      }
      var i0 := i;
      ghost var u := UnitAt(s, i0);
      assert s[i0] != ESC ==> u == Printable(s[i0]);
      UnitsFromUnfold(s, i0);
      RunUnfold(quick, now, tr, g, u, UnitsFrom(s, UnitEnd(s, i0)));
      ghost var r := Step(quick, now, tr, g, u);

      var b := s[i];
      i := i + 1;

      if b == ESC {
        i, col, nextbyte, actions := PutEscape(s, i0, col, nextbyte, actions, k, quick, now, tr, g);
        k := k + 1;
        g := r;
        continue;
      }

      col, actions := PutByte(b, col, nextbyte, actions, k, quick, now, tr, g);
      k := k + 1;
      g := r;
      assert i == UnitEnd(s, i0);
    }
  }

  /** The handling of a printable byte b (bbs.py:39-53), the deadline already
      advanced by one byte interval: the cursor moves, the generator sleeps
      unless quick or already late, yields the transcoded byte, and yields CR LF
      at the right margin.  The result is the state Step gives from g, the state
      before b was read. */
  method PutByte(b: byte, col: nat, nextbyte: real, actions: seq<Action>, k: nat,
                 quick: bool, now: nat -> real, tr: byte -> seq<byte>, ghost g: State)
    returns (col': nat, actions': seq<Action>)
    requires b != ESC
    requires g == State(col, g.deadline, actions, k) && nextbyte == g.deadline + BYTE_INTERVAL
    ensures State(col', nextbyte, actions', k + 1) == Step(quick, now, tr, g, Printable(b))
  {
    col' := col + 1;
    actions' := actions;

    if !quick {
      var sleeptime := nextbyte - now(k);
      if sleeptime > 0.0 {
        actions' := actions' + [Pause(k, nextbyte, sleeptime)];
      }
    }

    actions' := actions' + [Emit(tr(b))];

    if b == CR || b == LF {
      col' := 0;
    }
    if col' >= COLUMNS {
      actions' := actions' + [Emit(CRLF)];
      col' := 0;
    }
  }

  /** The handling of an escape sequence starting at i (bbs.py:26-37), the
      deadline already advanced by one byte interval: the sequence is read up to
      its letter, a cursor-forward moves the column and charges `move - 1` more
      intervals, and the sequence is yielded.  The result is the state Step gives
      from g, the state before the sequence was read, and the position after it. */
  method PutEscape(s: seq<byte>, i: nat, col: nat, nextbyte: real, actions: seq<Action>, k: nat,
                   quick: bool, now: nat -> real, tr: byte -> seq<byte>, ghost g: State)
    returns (next: nat, col': nat, nextbyte': real, actions': seq<Action>)
    requires WellFormed(s) && i < |s| && s[i] == ESC
    requires g == State(col, g.deadline, actions, k) && nextbyte == g.deadline + BYTE_INTERVAL
    ensures next == UnitEnd(s, i)
    ensures State(col', nextbyte', actions', k + 1) == Step(quick, now, tr, g, UnitAt(s, i))
  {
    var ansiseq;
    ansiseq, next := ReadEscape(s, i);
    col' := col;
    nextbyte' := nextbyte;
    if ansiseq[|ansiseq| - 1] == CURSOR_FORWARD {
      var move := CursorMove(ansiseq);
      col' := col' + move;
      nextbyte' := nextbyte' + (move as int - 1) as real * BYTE_INTERVAL;
    }
    actions' := actions + [Emit(ansiseq)];
    EscapeStep(quick, now, tr, g, UnitAt(s, i));
  }
}
