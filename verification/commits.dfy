/** The commit records the version-control backend's `log()` hands to the
    history viewer, and the ways building the view from them can fail. */
module Commits {

  /** The lanes of one half-row of the commit graph that need a segment of
      each shape: `|` (straight on), `/` and `\` (moving one lane over). */
  datatype HalfRow = HalfRow(vertical: seq<int>, slash: seq<int>, backslash: seq<int>)

  /** One log entry. `above` is the graph's half-row between this commit and
      the previous row (`graph[0]`), `below` the one between this commit and
      the next row (`graph[2]`); `column` is the commit's own lane. */
  datatype Commit = Commit(
    id: string,
    parents: seq<string>,
    refs: seq<string>,
    message: string,
    authorName: string,
    authorTime: string,
    column: int,
    above: HalfRow,
    below: HalfRow)

  /** The exceptions that escape while the history panel is filled:
      `max()` of an empty log, `splitlines()[0]` of an empty message, and
      a palette lookup `COLORS[column]` outside the palette. `index` is the
      position in the log of the offending commit. */
  datatype ViewError =
    | EmptyLog
    | EmptyMessage(index: nat)
    | ColorIndexOutOfRange(index: nat, column: int)
}
