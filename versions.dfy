/** The two renderers side by side: for the same artwork and the same code-page
    table, what `render_ansi` yields, followed by what it returns at end of
    file, is what `render` yields, whatever their speed settings and clocks.
    They differ in how the bytes are split into chunks, in when the bytes are
    released, and in that the last unterminated line of `render_ansi` is a
    return value rather than a yield. */
module Versions {
  import opened Scan
  import opened Layout
  import AnsiMirror
  import Bbs

  /** What `render_ansi` yields, followed by what it returns at end of file,
      is exactly what `render` yields. */
  lemma SameBytes(s: seq<byte>, speed: int, simulation: bool, start: real, now: nat -> real,
                  quick: bool, start': real, now': nat -> real, tr: byte -> seq<byte>)
    requires WellFormed(s)
    ensures AnsiMirror.Delivered(AnsiMirror.Rendered(s, speed, simulation, start, now, tr).flushes)
            + AnsiMirror.Rendered(s, speed, simulation, start, now, tr).linebuf
         == Bbs.Emitted(Bbs.Rendered(s, quick, start', now', tr).actions)
  {
    AnsiMirror.Conservation(s, speed, simulation, start, now, tr);
    Bbs.Conservation(s, quick, start', now', tr);
  }
}
