# History viewer of the Kart QGIS plugin — a Dafny model

The history viewer shows a repository's log as a tree: one row per commit,
with a drawing of the commit graph, the commit's refs as coloured labels,
the first line of its message, the author, date and id. A context menu
offers actions on one selected commit (show its changes, reset the current
branch to it, create a branch or tag at it, restore layers from it, delete the tags
pointing at it, and switch to or delete the branches pointing at it whose
ref does not mention `HEAD`) or on two selected commits (show the changes
between them).

This project models the pure decisions inside that viewer
(`kart/gui/historyviewer.py`) as total functions over plain data, and
proves what they promise:

- `Commits`: the log records the backend hands over (id, parents, refs,
  message, author, date, the commit's lane `column` and the two half-rows
  of the graph around it), and the errors that can escape while the tree is
  filled.
- `Graph`: the segments and the node drawn in each row image, with exact
  integer coordinates, and the width shared by all row images.
- `RefLabels`: the class (HEAD pointer, tag, branch) and the displayed name
  of every ref, and the text of the ref column.
- `Menu`: the context menu as an insertion-ordered dictionary from entry
  text to action, exactly as the viewer builds it.
- `Targets`: the arguments the menu's callbacks pass to the backend — the
  two revisions a diff compares, and the layer a restore acts on.
- `History`: filling the tree from a log — the index by commit id, the
  image width, one row per commit, or the first exception raised.
- `Text` and `Results`: the Python string operations the viewer relies on
  (`in`, `split(sep)[-1]`, `strip()`, slicing, `" ".join`,
  `splitlines()[0]`) and the `Option`/`Result` types that stand for
  exceptions.

With the viewer's constants (`RADIUS = 4`, `COL_SPACING = 20`, row height
20) every coordinate is an exact integer: `COL_SPACING * (col + 0.5)` is
`20 * col + 10` and half the row height is `10`, so no floating point is
needed.

Where the model follows the code rather than a simpler reading of it:

- The node colour is `COLORS[commitColumn]` with Python list indexing, so a
  column from -9 to -1 picks a colour counted from the end of the palette;
  only a column outside -9..8 raises `IndexError`.
- A ref is skipped in the menu when it contains `HEAD` anywhere (so a
  branch whose name contains `HEAD` gets no entries), while the label
  classes a ref as the HEAD pointer only when it contains `HEAD ->`.
- In the single-selection menu the commit comes from the tree's current
  item, which the model takes as a separate argument from the selection.
- A tag name is `ref[4:].strip()` whenever the ref contains `tag:`
  anywhere, not only at its start.
- The menu's "Delete tag" and "Switch/Delete branch" entries are stored
  under their text, so two refs that produce the same text give one entry,
  kept at the position of the first.

## Model

| member | source | states |
|---|---|---|
| Graph.StrokeSegment | kart/gui/historyviewer.py:261-288 | every segment starts at mid-height y=10 and ends at y=0 above or y=20 below; vertical segments keep x=4+20c, diagonals end at 4+20c+10 and start at 4+20c or 4+20(c+1) depending on shape and half |
| Graph.SegmentDrawsGlyph | kart/gui/historyviewer.py:261-288 | each segment spans exactly half a row vertically and draws its glyph: vertical ones straight, `/` and `\` leaning half a lane the right way |
| Graph.RowsJoin | kart/gui/historyviewer.py:261-288 | for every shape and lane, where a lower-half segment meets its row's bottom edge is where the upper-half segment meets the next row's top edge |
| Graph.SegmentsMeetNode | kart/gui/historyviewer.py:261-301 | the segments leaving the commit's own lane (and the diagonals coming in from the lane to its left) start at the node's centre |
| Graph.GraphSegmentsComplete | kart/gui/historyviewer.py:261-288 | a segment is in the row's path exactly when it is drawn for some lane listed in the commit's graph row, and the path has one segment per listed lane |
| Graph.GraphImage | kart/gui/historyviewer.py:255-301 | the image exists exactly when `COLORS[column]` does (column in -9..8); it is `width` by 20, holds the graph's segments, and its node is centred at (4+20·column, 10) with radius 4 and the palette colour Python indexing picks |
| Graph.LaneColors | kart/gui/historyviewer.py:34-44 | lanes 0..8 get nine different colours; lane a-9 gets the colour of lane a |
| Graph.MaxColumn | kart/gui/historyviewer.py:238 | the largest commit column of a non-empty log: no column exceeds it and some commit has it |
| Graph.PanelWidth | kart/gui/historyviewer.py:238-239 | an empty log is the error `max` raises; otherwise the width is the tightest one leaving every node's right edge inside the image |
| Graph.NodeInsideImage | kart/gui/historyviewer.py:238-239 | with the panel width, every drawable node lies inside its row image vertically and on the right, and on the left for lanes from 0 |
| Text.ContainsIff | kart/gui/historyviewer.py:113-115 | Python's `sub in s` holds exactly when `sub` occurs at some position of `s` |
| Text.FindFirstSpec | kart/gui/historyviewer.py:113-115 | the substring search finds the leftmost occurrence and reports none only when there is none |
| Text.AfterLast | kart/gui/historyviewer.py:330 | `s.split(sep)[-1]` is a suffix of `s` with no `sep` in it, right after an occurrence of `sep` when `s` has one, and all of `s` otherwise |
| Text.Strip | kart/gui/historyviewer.py:116 | `s.strip()` has no whitespace at either end and is `s` with only whitespace removed on either side |
| Text.FirstLine | kart/gui/historyviewer.py:348 | `splitlines()[0]` fails exactly on the empty string; otherwise it is the prefix up to, not including, the first line break |
| Text.JoinAppend | kart/gui/historyviewer.py:342 | joining a concatenation joins each part with one separator between them |
| RefLabels.TagName | kart/gui/historyviewer.py:116 | `ref[4:].strip()` is stripped, is empty for a ref of at most four characters, and otherwise occurs in the ref at some position from 4 on with only whitespace between position 4 and it and after it |
| RefLabels.LabelFor | kart/gui/historyviewer.py:326-341 | a ref is the HEAD pointer exactly when it contains `HEAD ->`, else a tag exactly when it contains `tag:`, else a branch; the HEAD name is a stripped substring of the ref holding no `->`; the tag name is `ref[4:].strip()`, the branch name is the ref itself |
| RefLabels.HeadLabelName | kart/gui/historyviewer.py:327-331 | a ref containing `HEAD ->` is labelled as the HEAD pointer, and the label's name is the part of the ref after its last `->`, stripped: an arrow ends where that part starts and none starts at or after it |
| RefLabels.RefsTextShort | kart/gui/historyviewer.py:324-344 | no refs give an empty ref column; one ref gives its label's name |
| RefLabels.RefsTextAppend | kart/gui/historyviewer.py:342 | one more ref adds a single space and that ref's name to the ref column |
| Menu.Put | kart/gui/historyviewer.py:117-129 | storing an entry in the ordered dictionary appends a new text at the end, replaces the value of an existing text in place, touches no other entry and keeps the texts distinct |
| Menu.LabelInjective | kart/gui/historyviewer.py:117-129 | two actions with the same text are the same action when one is a per-ref action, so a dictionary key names one per-ref action |
| Menu.AddRefActions | kart/gui/historyviewer.py:112-129 | the dictionary assignments for one ref keep the five fixed entries first and the texts distinct, and add exactly the ref's per-ref actions: none for a ref containing `HEAD`, else deletion of the tag for a `tag:` ref, else switching to and deleting the branch |
| Menu.AddRefsKeepsMenu | kart/gui/historyviewer.py:112-129 | adding the refs one by one keeps the five fixed entries first and the texts distinct, and the menu's actions are exactly the fixed ones plus those the refs offer |
| Menu.MenuFor | kart/gui/historyviewer.py:78-148 | one selected row: the five fixed entries in source order, then exactly the actions its refs offer; two: only "Show changes between these commits..." for those two; otherwise nothing; each entry stored under its own text |
| Menu.MenuShownIff | kart/gui/historyviewer.py:139-148 | the menu opens exactly when one or two rows are selected |
| Menu.HeadRefOffersNothing | kart/gui/historyviewer.py:112-114 | a ref containing `HEAD ->` is labelled as the HEAD pointer and adds no menu entry |
| Menu.LabelMatchesMenu | kart/gui/historyviewer.py:112-129 | for a ref without `HEAD`, a tag label's name is the tag the menu deletes, and a branch label's name is the branch the menu switches to and deletes |
| Menu.DetachedHead | kart/gui/historyviewer.py:113-114 | the bare ref `HEAD` is labelled as a branch named `HEAD` but gets no menu entry |
| Targets.DiffBase | kart/gui/historyviewer.py:190-192 | a commit's changes are measured against its first parent, or `000000000` when it has none |
| Targets.DiffArguments | kart/gui/historyviewer.py:189-201 | exactly the two diff actions call the backend's diff: a commit against its base, or the two selected commits in selection order |
| Targets.MenuDiffs | kart/gui/historyviewer.py:87-137 | the first entry of a one-row menu diffs the current item against its base; the only entry of a two-row menu diffs the two selected rows |
| Targets.RestoreChoices | kart/gui/historyviewer.py:213-215 | the dialog lists "Restore all layers" first, then the layers in the backend's order |
| Targets.RestoreFor | kart/gui/historyviewer.py:223-226 | nothing is restored when the dialog is cancelled; the all-layers choice restores every layer; any other choice is passed on unchanged |
| Targets.RestorePick | kart/gui/historyviewer.py:213-226 | item 0 restores every layer, item k the (k-1)-th layer unless that layer is named like the all-layers choice, and a restored layer is always a listed one |
| History.ItemFor | kart/gui/historyviewer.py:320-351 | a tree row fails exactly for an empty message; otherwise it carries the commit, the labels and ref text of its refs, and the first message line |
| History.IndexByIdKeys | kart/gui/historyviewer.py:235 | the index by commit id has exactly the ids of the log as keys |
| History.IndexByIdLast | kart/gui/historyviewer.py:235 | under each id the index holds the last log entry with that id |
| History.RowFor | kart/gui/historyviewer.py:242-244 | one commit's row fails exactly when it is not showable, naming the commit's position and whether the message or the colour failed; otherwise it holds the commit's item and image |
| History.BuildRowsOk | kart/gui/historyviewer.py:241-247 | the loop over the log completes exactly when every commit is showable |
| History.BuildRowsContents | kart/gui/historyviewer.py:241-247 | a completed loop yields one row per commit, in log order, each the row built for that commit |
| History.BuildRowsErr | kart/gui/historyviewer.py:241-247 | a failed loop reports the first commit that is not showable, and whether its message or its colour failed |
| History.Populate | kart/gui/historyviewer.py:232-253 | an empty log fails; otherwise the tree is built exactly when every commit is showable, with the panel width, a graph column 50 wider, the index by id and one row per commit holding its item and image; a failure names the first commit that cannot be shown |
| History.PopulatedNodesFit | kart/gui/historyviewer.py:239-301 | when every commit can be shown the tree is filled, and every node lies inside its row image on the right, top and bottom |

## Left out

- Qt painting and widgets (`QPixmap`, `QPainter`, `QPainterPath`, `QPen`, `GraphWidget`, `QTreeWidget`, `QLabel`, `QMenu`, `QAction`, `QInputDialog`, `HistoryDialog`): the model keeps the data they are given (segments, node, width, texts, actions) and not the drawing.
- The pen width, the white background and column resizing: presentation only.
- The HTML and CSS markup around each ref label and the trailing `&nbsp;&nbsp;`: only a label's class and name, and the space between labels, are modelled.
- Calls into the version-control backend (`log`, `diff`, `reset`, `createBranch`, `deleteBranch`, `createTag`, `deleteTag`, `checkoutBranch`, `restore`, `layers`) and the `executeskart` error wrapper: the model produces their arguments; their effects are not visible in this file.
- The callbacks that only ask a dialog and call the backend (`createTag`, `createBranch`, `resetBranch`, `deleteTag`, `switchBranch`, `deleteBranch`) are represented by the menu action and its argument.
- Message-bar notifications, icons and `DiffViewerDialog`: presentation and I/O.
- The author, date and id columns: carried unchanged in the row's commit.
- `graph[1]`, the commit's own half-row: the viewer never reads it.
- History.Populate: the tree is not modelled in the partly filled state it is left in when an exception escapes midway; the model returns the exception.
- History.Populate: a log entry lacking a key (`commit`, `refs`, `message`, `graph`, `commitColumn`) is ruled out by the record type, so the `KeyError` it would raise is not modelled.
- Graph.NodeInsideImage: states the left edge only for lanes from 0; a negative lane's node is drawn left of the image.
