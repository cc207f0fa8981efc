/** What the menu's callbacks hand to the backend: the two revisions a
    diff compares, and the layer a restore acts on. The backend calls
    themselves (`diff`, `restore`, ...) are outside the model; these
    functions produce their arguments. */
module Targets {
  import opened Results
  import opened Commits
  import opened Menu

  /** The revision a root commit is compared against. */
  const NULL_COMMIT: string := "000000000"

  /** The choice the restore dialog puts in front of the layer names. */
  const ALL_LAYERS: string := "Restore all layers"

  /** The revision the changes of a single commit are measured against:
      its first parent, or the null revision for a commit with no parents. */
  function DiffBase(parents: seq<string>): (r: string)
    ensures |parents| > 0 ==> r == parents[0]
    ensures |parents| == 0 ==> r == NULL_COMMIT
  {
    if |parents| > 0 then parents[0] else NULL_COMMIT
  }

  /** The arguments `(refa, refb)` of the backend diff an action triggers,
      for the two actions that show changes. */
  function DiffArguments(a: Action): (r: Option<(string, string)>)
    ensures r.Some? <==> a.ShowChangesInCommit? || a.ShowChangesBetween?
    ensures a.ShowChangesInCommit? ==> r == Some((a.commit.id, DiffBase(a.commit.parents)))
    ensures a.ShowChangesBetween? ==> r == Some((a.first.id, a.second.id))
  {
    match a
    case ShowChangesInCommit(c) => Some((c.id, DiffBase(c.parents)))
    case ShowChangesBetween(x, y) => Some((x.id, y.id))
    case _ => None
  }

  /** The menu's diff entries compare what the user sees: one row against
      its first parent (or the null revision), or the two selected rows
      in selection order. */
  lemma MenuDiffs(selection: seq<Commit>, current: Commit)
    ensures |selection| == 1 ==>
      var m := MenuFor(selection, current);
      && m[0].text == "Show changes for this commit..."
      && DiffArguments(m[0].action) == Some((current.id, DiffBase(current.parents)))
    ensures |selection| == 2 ==>
      var m := MenuFor(selection, current);
      && |m| == 1
      && DiffArguments(m[0].action) == Some((selection[0].id, selection[1].id))
  {
    if |selection| == 1 {
      var m := MenuFor(selection, current);
      assert m[..5][0] == m[0];
    }
  }

  /** The items the restore dialog lists: the all-layers choice first,
      then the repository's layers in the backend's order. */
  function RestoreChoices(layers: seq<string>): (r: seq<string>)
    ensures |r| == |layers| + 1 && r[0] == ALL_LAYERS && r[1..] == layers
  {
    [ALL_LAYERS] + layers
  }

  /** The backend `restore(commit, layer)` call; `layer == None` restores
      every layer. */
  datatype Restore = Restore(commit: string, layer: Option<string>)

  /** The restore a dialog answer leads to: nothing when the dialog is
      cancelled, all layers for the all-layers choice, otherwise the
      chosen layer as given. */
  function RestoreFor(c: Commit, choice: string, accepted: bool): (r: Option<Restore>)
    ensures r.Some? <==> accepted
    ensures r.Some? ==> r.value.commit == c.id
    ensures r.Some? ==> (r.value.layer.None? <==> choice == ALL_LAYERS)
    ensures r.Some? && r.value.layer.Some? ==> r.value.layer.value == choice
  {
    if !accepted then None
    else if choice == ALL_LAYERS then Some(Restore(c.id, None))
    else Some(Restore(c.id, Some(choice)))
  }

  /** Picking item `k` of the dialog's list: item 0 restores every layer;
      any other item restores the layer it names, unless a layer happens
      to be called like the all-layers choice, which then also restores
      every layer. The layer restored is always one of the listed layers. */
  lemma RestorePick(c: Commit, layers: seq<string>, k: nat)
    requires k < |RestoreChoices(layers)|
    ensures var r := RestoreFor(c, RestoreChoices(layers)[k], true);
      && r.Some?
      && (k == 0 ==> r.value.layer == None)
      && (k > 0 && layers[k - 1] != ALL_LAYERS ==> r.value.layer == Some(layers[k - 1]))
      && (k > 0 && layers[k - 1] == ALL_LAYERS ==> r.value.layer == None)
      && (r.value.layer.Some? ==> r.value.layer.value in layers)
  {
  }
}
