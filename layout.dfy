/** Column tracking and line assembly shared by both renderers: how a unit moves
    the 80-column cursor, which units end a line, and the byte stream that results
    once wrap terminators are inserted (ansimirror.py:119-144, bbs.py:32-53). */
module Layout {
  import opened Scan

  datatype Option<T> = None | Some(value: T)

  /** Terminal width at which a printable byte forces a wrap. */
  const COLUMNS: nat := 80

  /** The terminator inserted at a forced wrap. */
  const CRLF: seq<byte> := [CR, LF]

  /** The three events at which a line of output is handed on. */
  datatype Boundary = CarriageReturn | LineFeed | Wrap

  /** The displacement of a cursor-forward sequence: its parameter as a decimal
      number, or 1 when the parameter is empty.  An explicit `0` moves nothing. */
  function CursorMove(raw: seq<byte>): (r: nat)
    requires AllDigits(Param(raw))
    ensures Param(raw) == [] ==> r == 1
    ensures |Param(raw)| == 1 ==> r == Param(raw)[0] - DIGIT_ZERO
    ensures Param(raw) != [] ==> r < Pow10(|Param(raw)|)
  {
    if Param(raw) == [] then 1 else Decimal(Param(raw))
  }

  predicate IsCursorForward(u: Unit) {
    u.Control? && u.raw[|u.raw| - 1] == CURSOR_FORWARD
  }

  /** How far a unit moves the cursor before any reset: one column for a printable
      byte, the parameter for a cursor-forward sequence, none for any other sequence. */
  function Advance(u: Unit): nat {
    match u
    case Printable(_) => 1
    case Control(raw) => if IsCursorForward(u) then CursorMove(raw) else 0
  }

  /** The line boundary a unit produces when the cursor is at column col. */
  function BoundaryAt(col: nat, u: Unit): (r: Option<Boundary>)
    ensures r.Some? ==> u.Printable?
  {
    match u
    case Control(_) => None
    case Printable(b) =>
      if b == CR then Some(CarriageReturn)
      else if b == LF then Some(LineFeed)
      else if col + 1 >= COLUMNS then Some(Wrap)
      else None
  }

  /** The cursor column after a unit: reset at every boundary, advanced otherwise. */
  function NextColumn(col: nat, u: Unit): (r: nat)
    ensures u.Printable? ==> r < COLUMNS
    ensures u.Control? ==> r == col + Advance(u)
  {
    if BoundaryAt(col, u).Some? then 0 else col + Advance(u)
  }

  /** The column after a list of units. */
  function ColumnAfter(us: seq<Unit>, col: nat): nat
    decreases |us|
  {
    if us == [] then col else ColumnAfter(us[1..], NextColumn(col, us[0]))
  }

  /** What a unit contributes to the output: an escape sequence verbatim, a
      printable byte through the code-page transcoder tr. */
  function Image(u: Unit, tr: byte -> seq<byte>): seq<byte> {
    match u
    case Printable(b) => tr(b)
    case Control(raw) => raw
  }

  /** The input transcoded, with no terminators inserted. */
  function Transcoded(us: seq<Unit>, tr: byte -> seq<byte>): seq<byte>
    decreases |us|
  {
    if us == [] then [] else Image(us[0], tr) + Transcoded(us[1..], tr)
  }

  /** What a unit at column col contributes to the delivered stream: its image,
      followed by CR LF when it forces a wrap. */
  function Piece(col: nat, u: Unit, tr: byte -> seq<byte>): seq<byte> {
    Image(u, tr) + (if BoundaryAt(col, u) == Some(Wrap) then CRLF else [])
  }

  /** The byte stream both renderers deliver from column col: every unit's image
      in input order, with CR LF inserted after each unit that forces a wrap. */
  function Stream(us: seq<Unit>, col: nat, tr: byte -> seq<byte>): seq<byte>
    decreases |us|
  {
    if us == [] then [] else Piece(col, us[0], tr) + Stream(us[1..], NextColumn(col, us[0]), tr)
  }

  /** A printable byte other than CR and LF. */
  predicate Plain(u: Unit) {
    u.Printable? && u.b != CR && u.b != LF
  }

  /** A wrap happens exactly when a plain printable byte brings the cursor to
      column 80 or beyond; no escape sequence ever wraps, however far it moves. */
  lemma WrapIff(col: nat, u: Unit)
    ensures BoundaryAt(col, u) == Some(Wrap) <==> Plain(u) && col + 1 >= COLUMNS
    ensures u.Control? ==> BoundaryAt(col, u).None? && NextColumn(col, u) == col + Advance(u)
  {
  }

  /** The stream of a concatenation is the concatenation of the streams, the
      second started at the column the first ends in. */
  lemma {:induction false} StreamAppend(a: seq<Unit>, b: seq<Unit>, col: nat, tr: byte -> seq<byte>)
    ensures Stream(a + b, col, tr) == Stream(a, col, tr) + Stream(b, ColumnAfter(a, col), tr)
    ensures ColumnAfter(a + b, col) == ColumnAfter(b, ColumnAfter(a, col))
    decreases |a|
  {
    if a == [] {
      assert a + b == b;
    } else {
      assert (a + b)[0] == a[0];
      assert (a + b)[1..] == a[1..] + b;
      StreamAppend(a[1..], b, NextColumn(col, a[0]), tr);
    }
  }

  /** Plain bytes that stay short of the right margin are passed through
      transcoded, with nothing inserted, each moving the cursor one column. */
  lemma {:induction false} PlainRun(us: seq<Unit>, col: nat, tr: byte -> seq<byte>)
    requires forall k :: 0 <= k < |us| ==> Plain(us[k])
    requires col + |us| < COLUMNS
    ensures Stream(us, col, tr) == Transcoded(us, tr)
    ensures ColumnAfter(us, col) == col + |us|
    decreases |us|
  {
    if us != [] {
      assert Plain(us[0]);
      PlainRun(us[1..], col + 1, tr);
    }
  }

  /** A line of exactly 80 plain bytes wraps exactly once, after its last byte,
      and leaves the cursor at column 0. */
  lemma FullLineWrapsOnce(us: seq<Unit>, tr: byte -> seq<byte>)
    requires |us| == COLUMNS
    requires forall k :: 0 <= k < |us| ==> Plain(us[k])
    ensures Stream(us, 0, tr) == Transcoded(us, tr) + CRLF
    ensures ColumnAfter(us, 0) == 0
  {
    var head, last := us[..COLUMNS - 1], us[COLUMNS - 1..];
    assert us == head + last;
    PlainRun(head, 0, tr);
    StreamAppend(head, last, 0, tr);
    TranscodedAppend(head, last, tr);
    assert Plain(last[0]);
  }

  lemma {:induction false} TranscodedAppend(a: seq<Unit>, b: seq<Unit>, tr: byte -> seq<byte>)
    ensures Transcoded(a + b, tr) == Transcoded(a, tr) + Transcoded(b, tr)
    decreases |a|
  {
    if a == [] {
      assert a + b == b;
    } else {
      assert (a + b)[0] == a[0];
      assert (a + b)[1..] == a[1..] + b;
      TranscodedAppend(a[1..], b, tr);
    }
  }

  /** `ESC [ 8 0 C` from column 0 puts the cursor exactly on column 80 without a
      wrap; the next printable byte then wraps. */
  lemma CursorForwardToMargin(x: byte)
    requires x != ESC && x != CR && x != LF
    ensures var seq80 := Control([ESC, 91, 56, 48, CURSOR_FORWARD]);
      && NextColumn(0, seq80) == COLUMNS
      && BoundaryAt(0, seq80).None?
      && BoundaryAt(COLUMNS, Printable(x)) == Some(Wrap)
      && NextColumn(COLUMNS, Printable(x)) == 0
  {
    var raw: seq<byte> := [ESC, 91, 56, 48, CURSOR_FORWARD];
    assert Param(raw) == [56, 48];
    var d8: seq<byte> := [56];
    assert Decimal(d8) == 8 by { assert d8[..0] == []; }
    assert Decimal(Param(raw)) == 80 by { assert Param(raw)[..1] == d8; }
  }
}
