/** The sequence scanner shared by both renderers: how the artwork's bytes are
    cut into printable bytes and escape sequences.  Both render loops do this
    inline (ansimirror.py:106-123, bbs.py:21-37); here the cut is stated once,
    as a pure function of the whole input. */
module Scan {

  /** One byte of the artwork file. */
  type byte = b: int | 0 <= b < 256

  const LF: byte := 10
  const CR: byte := 13
  const ESC: byte := 27
  const DIGIT_ZERO: byte := 48
  /** The final letter of a cursor-forward sequence `ESC [ n C`. */
  const CURSOR_FORWARD: byte := 67

  /** Python's `bytes.isalpha()` on a one-byte string: ASCII letters only. */
  predicate IsLetter(b: byte) {
    65 <= b <= 90 || 97 <= b <= 122
  }

  predicate IsDigit(b: byte) {
    DIGIT_ZERO <= b <= DIGIT_ZERO + 9
  }

  predicate AllDigits(d: seq<byte>) {
    forall k :: 0 <= k < |d| ==> IsDigit(d[k])
  }

  /** 10 to the power n: one more than the largest number with n decimal digits. */
  function Pow10(n: nat): nat {
    if n == 0 then 1 else 10 * Pow10(n - 1)
  }

  /** The value `int()` gives a string of decimal digits: a single digit is its
      own value, and n digits never give more than n digits' worth. */
  function Decimal(d: seq<byte>): (r: nat)
    requires AllDigits(d)
    ensures |d| == 1 ==> r == d[0] - DIGIT_ZERO
    ensures r < Pow10(|d|)
    decreases |d|
  {
    if d == [] then 0 else 10 * Decimal(d[..|d| - 1]) + (d[|d| - 1] - DIGIT_ZERO)
  }

  /** Leading zeros do not change the value, as `int(b'05')` is 5. */
  lemma {:induction false} DecimalLeadingZero(d: seq<byte>)
    requires AllDigits(d)
    ensures AllDigits([DIGIT_ZERO] + d) && Decimal([DIGIT_ZERO] + d) == Decimal(d)
    decreases |d|
  {
    if d != [] {
      var d' := d[..|d| - 1];
      assert ([DIGIT_ZERO] + d)[..|d|] == [DIGIT_ZERO] + d';
      DecimalLeadingZero(d');
    }
  }

  /** The parameter of an escape sequence, Python's `ansiseq[2:-1]`: the bytes
      after `ESC [` and before the final letter (empty for a two-byte sequence). */
  function Param(raw: seq<byte>): (r: seq<byte>)
    ensures |r| == if |raw| >= 3 then |raw| - 3 else 0
    ensures forall k :: 0 <= k < |r| ==> r[k] == raw[k + 2]
  {
    if |raw| >= 3 then raw[2..|raw| - 1] else []
  }

  /** The position of the first letter at or after k, or |s| when there is none. */
  function FirstLetter(s: seq<byte>, k: nat): (r: nat)
    requires k <= |s|
    ensures k <= r <= |s|
    ensures r < |s| ==> IsLetter(s[r])
    ensures forall m :: k <= m < r ==> !IsLetter(s[m])
    decreases |s| - k
  {
    if k == |s| || IsLetter(s[k]) then k else FirstLetter(s, k + 1)
  }

  /** The escape byte at i is closed by a later letter, and if that letter is
      `C` the parameter in between is empty or decimal digits. */
  predicate EscapeCloses(s: seq<byte>, i: nat)
    requires i < |s|
  {
    var e := FirstLetter(s, i + 1);
    e < |s| && (s[e] == CURSOR_FORWARD ==> AllDigits(Param(s[i..e + 1])))
  }

  /** The inputs the renderers handle: on any other input the inner scanning
      loop reads past the end of the file forever, or `int()` raises on the
      cursor-forward parameter. */
  predicate WellFormed(s: seq<byte>) {
    forall i {:trigger EscapeCloses(s, i)} :: 0 <= i < |s| && s[i] == ESC ==> EscapeCloses(s, i)
  }

  /** A scanned unit: a single printable byte, or a whole escape sequence. */
  datatype Token = Printable(b: byte) | Control(raw: seq<byte>)
  {
    /** What the scanner guarantees of every unit it produces. */
    predicate Valid() {
      match this
      case Printable(b) => b != ESC
      case Control(raw) =>
        && 2 <= |raw|
        && raw[0] == ESC
        && IsLetter(raw[|raw| - 1])
        && (forall k :: 1 <= k < |raw| - 1 ==> !IsLetter(raw[k]))
        && (raw[|raw| - 1] == CURSOR_FORWARD ==> AllDigits(Param(raw)))
    }

    /** The input bytes the unit was cut from. */
    function Raw(): seq<byte> {
      match this
      case Printable(b) => [b]
      case Control(raw) => raw
    }
  }

  type Unit = t: Token | t.Valid() witness Printable(0)

  /** Where the unit that starts at i ends (exclusive). */
  function UnitEnd(s: seq<byte>, i: nat): (e: nat)
    requires WellFormed(s) && i < |s|
    ensures i < e <= |s|
  {
    assert s[i] == ESC ==> EscapeCloses(s, i);
    if s[i] == ESC then FirstLetter(s, i + 1) + 1 else i + 1
  }

  /** The unit that starts at i. */
  function UnitAt(s: seq<byte>, i: nat): (u: Unit)
    requires WellFormed(s) && i < |s|
    ensures u.Raw() == s[i..UnitEnd(s, i)]
    ensures u.Control? <==> s[i] == ESC
  {
    if s[i] == ESC then
      assert EscapeCloses(s, i);
      var e := UnitEnd(s, i);
      var raw := s[i..e];
      assert forall k :: 1 <= k < |raw| - 1 ==> raw[k] == s[i + k];
      Control(raw)
    else
      Printable(s[i])
  }

  /** The units of s[i..], in input order. */
  function UnitsFrom(s: seq<byte>, i: nat): seq<Unit>
    requires WellFormed(s) && i <= |s|
    decreases |s| - i
  {
    if i == |s| then [] else [UnitAt(s, i)] + UnitsFrom(s, UnitEnd(s, i))
  }

  function Units(s: seq<byte>): seq<Unit>
    requires WellFormed(s)
  {
    UnitsFrom(s, 0)
  }

  /** The bytes a list of units was cut from. */
  function Flatten(us: seq<Unit>): seq<byte>
    decreases |us|
  {
    if us == [] then [] else us[0].Raw() + Flatten(us[1..])
  }

  /** The units partition the input: no byte is dropped, duplicated or reordered,
      and there are never more units than bytes. */
  lemma {:induction false} UnitsPartition(s: seq<byte>, i: nat)
    requires WellFormed(s) && i <= |s|
    ensures Flatten(UnitsFrom(s, i)) == s[i..]
    ensures |UnitsFrom(s, i)| <= |s| - i
    decreases |s| - i
  {
    if i < |s| {
      var e := UnitEnd(s, i);
      var u := UnitAt(s, i);
      var rest := UnitsFrom(s, e);
      UnitsPartition(s, e);
      assert UnitsFrom(s, i) == [u] + rest;
      assert ([u] + rest)[1..] == rest;
      calc {
        Flatten(UnitsFrom(s, i));
        u.Raw() + Flatten(rest);
        s[i..e] + s[e..];
        { assert s[i..] == s[i..e] + s[e..]; }
        s[i..];
      }
    }
  }

  lemma UnitsFromUnfold(s: seq<byte>, i: nat)
    requires WellFormed(s) && i < |s|
    ensures UnitsFrom(s, i) == [UnitAt(s, i)] + UnitsFrom(s, UnitEnd(s, i))
  {
  }

  /** The inner loop of both renderers (ansimirror.py:115-118, bbs.py:28-31): from
      the escape byte at i, read byte after byte, accumulating them, until the
      byte just read is a letter.  The result is exactly the unit at i. */
  method ReadEscape(s: seq<byte>, i: nat) returns (ansiseq: seq<byte>, next: nat)
    requires WellFormed(s) && i < |s| && s[i] == ESC
    ensures next == UnitEnd(s, i)
    ensures UnitAt(s, i) == Control(ansiseq)
  {
    ghost var e := FirstLetter(s, i + 1);
    assert EscapeCloses(s, i);
    var b := s[i];
    ansiseq := [b];
    next := i + 1;
    while !IsLetter(b)
      invariant i < next <= e + 1
      invariant ansiseq == s[i..next]
      invariant b == s[next - 1]
      decreases |s| - next
    {
      b := s[next];
      next := next + 1;
      ansiseq := ansiseq + [b];
    }
  }
}
