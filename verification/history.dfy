/** Filling the history tree from the backend's log: every commit becomes a
    row with its ref labels, the first line of its message, its author,
    date and id, and its graph image; all images share one width, and the
    tree also keeps the log indexed by commit id. */
module History {
  import opened Results
  import opened Text
  import opened Commits
  import opened Graph
  import opened RefLabels

  /** The text columns of one tree row. */
  datatype CommitItem = CommitItem(
    commit: Commit,
    labels: seq<RefLabel>,
    refsText: string,
    summary: string)

  datatype Row = Row(item: CommitItem, image: RowImage)

  /** The filled tree: the log by id, the image width, the width of the
      graph column, and one row per log entry. */
  datatype Panel = Panel(byId: map<string, Commit>, width: int, graphColumnWidth: int, rows: seq<Row>)

  /** The tree row for `c`; `None` for the IndexError raised on an empty
      message, which has no first line. */
  function ItemFor(c: Commit): (r: Option<CommitItem>)
    ensures r.Some? <==> |c.message| > 0
    ensures r.Some? ==> r.value.commit == c && r.value.labels == LabelsFor(c.refs)
    ensures r.Some? ==> r.value.refsText == RefsText(c.refs)
    ensures r.Some? ==> Some(r.value.summary) == FirstLine(c.message)
  {
    match FirstLine(c.message)
    case None => None
    case Some(line) => Some(CommitItem(c, LabelsFor(c.refs), RefsText(c.refs), line))
  }

  /** A log entry the tree can show: it has a first message line and a
      palette colour. */
  predicate Showable(c: Commit) {
    |c.message| > 0 && -9 <= c.column < 9
  }

  /** Python's `{c["commit"]: c for c in log}`: a later entry with the same
      id replaces an earlier one. */
  function IndexById(log: seq<Commit>): map<string, Commit> {
    if |log| == 0 then map[] else IndexById(log[..|log| - 1])[log[|log| - 1].id := log[|log| - 1]]
  }

  /** The entry at `k` is the last one in the log with its id. */
  ghost predicate LastWithId(log: seq<Commit>, k: int) {
    0 <= k < |log| && forall j :: k < j < |log| ==> log[j].id != log[k].id
  }

  /** The index holds exactly the ids of the log. */
  lemma {:induction false} IndexByIdKeys(log: seq<Commit>)
    ensures IndexById(log).Keys == set k | 0 <= k < |log| :: log[k].id
  {
    if |log| > 0 {
      var front := log[..|log| - 1];
      IndexByIdKeys(front);
      var ids := set k | 0 <= k < |log| :: log[k].id;
      var frontIds := set k | 0 <= k < |front| :: front[k].id;
      forall id ensures id in ids <==> id in frontIds || id == log[|log| - 1].id {
        if id in ids {
          var k :| 0 <= k < |log| && log[k].id == id;
          if k < |front| {
            assert front[k].id == id;
          }
        }
        if id in frontIds {
          var k :| 0 <= k < |front| && front[k].id == id;
          assert log[k].id == id;
        }
      }
      assert ids == frontIds + {log[|log| - 1].id};
    }
  }

  /** Under each id the index holds the last entry of the log with that id. */
  lemma {:induction false} IndexByIdLast(log: seq<Commit>)
    ensures forall id :: id in IndexById(log) ==>
      exists k :: LastWithId(log, k) && log[k].id == id && IndexById(log)[id] == log[k]
  {
    if |log| > 0 {
      var front := log[..|log| - 1];
      var last := log[|log| - 1];
      IndexByIdLast(front);
      var m := IndexById(log);
      assert m == IndexById(front)[last.id := last];
      forall id | id in m
        ensures exists k :: LastWithId(log, k) && log[k].id == id && m[id] == log[k]
      {
        if id == last.id {
          assert LastWithId(log, |log| - 1);
        } else {
          assert id in IndexById(front);
          var k :| LastWithId(front, k) && front[k].id == id && IndexById(front)[id] == front[k];
          assert log[k] == front[k];
          assert LastWithId(log, k);
        }
      }
    }
  }

  /** The row for the log entry `c` at position `index`, with an image
      `width` wide, or the error the entry raises; its message is looked
      at before its colour. */
  function RowFor(c: Commit, index: nat, width: int): (r: Result<Row, ViewError>)
    ensures r.Ok? <==> Showable(c)
    ensures r.Ok? ==> Some(r.value.item) == ItemFor(c) && Some(r.value.image) == GraphImage(c, width)
    ensures r.Err? ==> !r.error.EmptyLog? && r.error.index == index
    ensures r.Err? ==> (r.error.EmptyMessage? <==> |c.message| == 0)
    ensures r.Err? && r.error.ColorIndexOutOfRange? ==> r.error.column == c.column
  {
    match ItemFor(c)
    case None => Err(EmptyMessage(index))
    case Some(item) =>
      match GraphImage(c, width)
      case None => Err(ColorIndexOutOfRange(index, c.column))
      case Some(image) => Ok(Row(item, image))
  }

  /** A builder for one row that fails exactly like `RowFor`: on the
      entries that cannot be shown, with an error naming the entry's
      position and, when the message is present, its column. */
  ghost predicate FailsLikeRowFor(rowFor: (Commit, nat) -> Result<Row, ViewError>) {
    forall c, k: nat ::
      && (rowFor(c, k).Ok? <==> Showable(c))
      && (rowFor(c, k).Err? ==>
        && !rowFor(c, k).error.EmptyLog?
        && rowFor(c, k).error.index == k
        && (rowFor(c, k).error.EmptyMessage? <==> |c.message| == 0)
        && (rowFor(c, k).error.ColorIndexOutOfRange? ==> rowFor(c, k).error.column == c.column))
  }

  lemma RowForFails(width: int)
    ensures FailsLikeRowFor((c: Commit, k: nat) => RowFor(c, k, width))
  {
  }

  /** The loop of `populate` over the entries of `log` from position `i`
      on, `rowFor` building each entry's row; the first failing entry
      stops it. */
  function BuildRows(log: seq<Commit>, rowFor: (Commit, nat) -> Result<Row, ViewError>, i: nat): Result<seq<Row>, ViewError>
    decreases |log| - i
  {
    if i >= |log| then Ok([])
    else
      match rowFor(log[i], i)
      case Err(e) => Err(e)
      case Ok(row) =>
        match BuildRows(log, rowFor, i + 1)
        case Err(e) => Err(e)
        case Ok(rows) => Ok([row] + rows)
  }

  /** Building rows succeeds exactly when every entry is showable. */
  lemma {:induction false} BuildRowsOk(log: seq<Commit>, rowFor: (Commit, nat) -> Result<Row, ViewError>, i: nat)
    requires FailsLikeRowFor(rowFor)
    ensures BuildRows(log, rowFor, i).Ok? <==> forall k :: i <= k < |log| ==> Showable(log[k])
    decreases |log| - i
  {
    if i < |log| {
      BuildRowsOk(log, rowFor, i + 1);
      assert (forall k :: i <= k < |log| ==> Showable(log[k])) <==>
        Showable(log[i]) && (forall k :: i + 1 <= k < |log| ==> Showable(log[k]));
    }
  }

  /** A successful build has, in log order, one row per entry: the row
      `rowFor` builds for it. */
  lemma {:induction false} BuildRowsContents(log: seq<Commit>, rowFor: (Commit, nat) -> Result<Row, ViewError>, i: nat)
    requires i <= |log| && BuildRows(log, rowFor, i).Ok?
    ensures |BuildRows(log, rowFor, i).value| == |log| - i
    ensures forall k :: i <= k < |log| ==> rowFor(log[k], k) == Ok(BuildRows(log, rowFor, i).value[k - i])
    decreases |log| - i
  {
    if i < |log| {
      BuildRowsContents(log, rowFor, i + 1);
      var rows := BuildRows(log, rowFor, i + 1).value;
      var r := BuildRows(log, rowFor, i).value;
      assert r == [rowFor(log[i], i).value] + rows;
      forall k | i < k < |log| ensures rowFor(log[k], k) == Ok(r[k - i]) {
        assert r[k - i] == rows[k - (i + 1)];
      }
    }
  }

  /** A failed build names the first entry that is not showable, and says
      which of its two lookups failed first: the message before the colour. */
  lemma {:induction false} BuildRowsErr(log: seq<Commit>, rowFor: (Commit, nat) -> Result<Row, ViewError>, i: nat)
    requires FailsLikeRowFor(rowFor)
    ensures var r := BuildRows(log, rowFor, i);
      r.Err? ==>
        && !r.error.EmptyLog?
        && i <= r.error.index < |log|
        && !Showable(log[r.error.index])
        && (forall k :: i <= k < r.error.index ==> Showable(log[k]))
        && (r.error.EmptyMessage? <==> |log[r.error.index].message| == 0)
        && (r.error.ColorIndexOutOfRange? ==> r.error.column == log[r.error.index].column)
    decreases |log| - i
  {
    if i < |log| {
      BuildRowsErr(log, rowFor, i + 1);
    }
  }

  /** Python's `populate`: the whole tree for one log, or the exception
      that stops it. */
  function Populate(log: seq<Commit>): (r: Result<Panel, ViewError>)
    ensures r.Err? && r.error == EmptyLog <==> |log| == 0
    ensures |log| > 0 ==> (r.Ok? <==> forall k :: 0 <= k < |log| ==> Showable(log[k]))
    ensures r.Ok? ==>
      && r.value.width == PanelWidth(log).value
      && r.value.graphColumnWidth == r.value.width + MARGIN
      && r.value.byId == IndexById(log)
      && |r.value.rows| == |log|
    ensures r.Ok? ==> forall k :: 0 <= k < |log| ==>
      && Some(r.value.rows[k].item) == ItemFor(log[k])
      && Some(r.value.rows[k].image) == GraphImage(log[k], r.value.width)
    ensures r.Err? && r.error != EmptyLog ==>
      && r.error.index < |log|
      && !Showable(log[r.error.index])
      && (forall k :: 0 <= k < r.error.index ==> Showable(log[k]))
  {
    match PanelWidth(log)
    case Err(e) => Err(e)
    case Ok(width) =>
      var rowFor := (c: Commit, k: nat) => RowFor(c, k, width);
      RowForFails(width);
      BuildRowsOk(log, rowFor, 0);
      BuildRowsErr(log, rowFor, 0);
      match BuildRows(log, rowFor, 0)
      case Err(e) => Err(e)
      case Ok(rows) =>
        BuildRowsContents(log, rowFor, 0);
        Ok(Panel(IndexById(log), width, width + MARGIN, rows))
  }

  /** When every commit can be shown the tree is filled, and every node
      lies inside its row image. */
  lemma PopulatedNodesFit(log: seq<Commit>, k: int)
    requires forall j :: 0 <= j < |log| ==> Showable(log[j])
    requires 0 <= k < |log|
    ensures Populate(log).Ok?
    ensures var img := Populate(log).value.rows[k].image;
      && img.node.center.x + img.node.radius <= img.width
      && 0 <= img.node.center.y - img.node.radius
      && img.node.center.y + img.node.radius <= img.height
  {
    var p := Populate(log).value;
    assert Some(p.rows[k].image) == GraphImage(log[k], p.width);
    NodeInsideImage(log, k);
  }
}
