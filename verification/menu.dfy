/** The history tree's context menu. The viewer builds a dictionary from
    action text to callback and adds one menu entry per key, in insertion
    order; the menu only opens when there is at least one entry. Which
    entries there are depends on how many rows are selected and, for a
    single row, on the refs of the tree's current item. */
module Menu {
  import opened Results
  import opened Text
  import opened Commits
  import opened RefLabels

  /** What a menu entry does when triggered, with the arguments its
      callback is bound to. */
  datatype Action =
    | ShowChangesInCommit(commit: Commit)
    | ResetBranch(commit: Commit)
    | CreateBranchAt(commit: Commit)
    | CreateTagAt(commit: Commit)
    | RestoreLayersAt(commit: Commit)
    | DeleteTag(tag: string)
    | SwitchBranch(branch: string)
    | DeleteBranch(branch: string)
    | ShowChangesBetween(first: Commit, second: Commit)

  /** The menu text of an action: the dictionary key it is stored under. */
  function Label(a: Action): string {
    match a
    case ShowChangesInCommit(_) => "Show changes for this commit..."
    case ResetBranch(_) => "Reset current branch to this commit"
    case CreateBranchAt(_) => "Create branch at this commit..."
    case CreateTagAt(_) => "Create tag at this commit..."
    case RestoreLayersAt(_) => "Restore working tree layers to this version..."
    case DeleteTag(t) => "Delete tag '" + t + "'"
    case SwitchBranch(b) => "Switch to branch '" + b + "'"
    case DeleteBranch(b) => "Delete branch '" + b + "'"
    case ShowChangesBetween(_, _) => "Show changes between these commits..."
  }

  /** The actions offered for a single ref (as opposed to for the commit). */
  predicate IsRefAction(a: Action) {
    a.DeleteTag? || a.SwitchBranch? || a.DeleteBranch?
  }

  /** One dictionary item: key and value. */
  datatype Entry = Entry(text: string, action: Action)

  predicate DistinctLabels(m: seq<Entry>) {
    forall i, j :: 0 <= i < j < |m| ==> m[i].text != m[j].text
  }

  /** Every entry is stored under its own action's text. */
  predicate Labelled(m: seq<Entry>) {
    forall i :: 0 <= i < |m| ==> m[i].text == Label(m[i].action)
  }

  /** The actions a menu offers. */
  function Actions(m: seq<Entry>): set<Action> {
    set k | 0 <= k < |m| :: m[k].action
  }

  /** Position of the entry stored under `text`, if any. */
  function IndexOf(m: seq<Entry>, text: string): (r: Option<nat>)
    ensures r.Some? ==> r.value < |m| && m[r.value].text == text
    ensures r.None? ==> forall k :: 0 <= k < |m| ==> m[k].text != text
  {
    if |m| == 0 then None
    else if m[|m| - 1].text == text then Some(|m| - 1)
    else IndexOf(m[..|m| - 1], text)
  }

  /** Python's `d[text] = action` on an insertion-ordered dict: a new key
      goes to the end, an existing key keeps its place and gets the new value. */
  function Put(m: seq<Entry>, text: string, action: Action): (r: seq<Entry>)
    ensures (forall k :: 0 <= k < |m| ==> m[k].text != text) ==> r == m + [Entry(text, action)]
    ensures (exists k :: 0 <= k < |m| && m[k].text == text) ==> |r| == |m|
    ensures forall k :: 0 <= k < |m| && m[k].text != text ==> r[k] == m[k]
    ensures Entry(text, action) in r
    ensures DistinctLabels(m) ==> DistinctLabels(r)
  {
    match IndexOf(m, text)
    case None => m + [Entry(text, action)]
    case Some(k) =>
      var r := m[k := Entry(text, action)];
      assert r[k] == Entry(text, action);
      r
  }

  /** The five actions every single-row menu starts with, in menu order. */
  function FixedActions(c: Commit): seq<Action> {
    [ShowChangesInCommit(c), ResetBranch(c), CreateBranchAt(c), CreateTagAt(c), RestoreLayersAt(c)]
  }

  function Entries(acts: seq<Action>): (r: seq<Entry>)
    ensures |r| == |acts|
    ensures forall k :: 0 <= k < |acts| ==> r[k] == Entry(Label(acts[k]), acts[k])
  {
    seq(|acts|, k requires 0 <= k < |acts| => Entry(Label(acts[k]), acts[k]))
  }

  /** The per-ref actions the menu offers for one ref: a
      ref mentioning `HEAD` gets none, a tag ref the deletion of its tag,
      any other ref switching to and deleting that branch. */
  function RefActions(ref: string): (r: set<Action>)
    ensures forall a :: a in r ==> IsRefAction(a)
    ensures r == {} <==> Contains(ref, "HEAD")
    ensures |r| <= 2
  {
    if Contains(ref, "HEAD") then {}
    else if Contains(ref, "tag:") then {DeleteTag(TagName(ref))}
    else {SwitchBranch(ref), DeleteBranch(ref)}
  }

  /** Whether some ref in `refs` gets the per-ref action `a`. */
  ghost predicate Offered(refs: seq<string>, a: Action) {
    exists ref :: ref in refs && a in RefActions(ref)
  }

  /** The dictionary entries one ref adds. */
  function AddRef(m: seq<Entry>, ref: string): seq<Entry> {
    if Contains(ref, "HEAD") then m
    else if Contains(ref, "tag:") then
      var del := DeleteTag(TagName(ref));
      Put(m, Label(del), del)
    else
      var toBranch := SwitchBranch(ref);
      var del := DeleteBranch(ref);
      Put(Put(m, Label(toBranch), toBranch), Label(del), del)
  }

  /** The entries of all `refs`, added in order. */
  function AddRefs(m: seq<Entry>, refs: seq<string>): seq<Entry>
    decreases |refs|
  {
    if |refs| == 0 then m else AddRefs(AddRef(m, refs[0]), refs[1..])
  }

  /** The context menu for a selection of `selection` rows, `current`
      being the tree's current item. */
  function MenuFor(selection: seq<Commit>, current: Commit): (m: seq<Entry>)
    ensures DistinctLabels(m) && Labelled(m)
    ensures |selection| == 1 ==> |m| >= 5 && m[..5] == Entries(FixedActions(current))
    ensures |selection| == 1 ==>
      forall a :: a in Actions(m) <==> a in FixedActions(current) || Offered(current.refs, a)
    ensures |selection| == 2 ==>
      m == [Entry("Show changes between these commits...", ShowChangesBetween(selection[0], selection[1]))]
    ensures |selection| != 1 && |selection| != 2 ==> m == []
  {
    if |selection| == 1 then
      var fixed := Entries(FixedActions(current));
      FixedMenu(current);
      AddRefsKeepsMenu(fixed, current, [], current.refs);
      AddRefs(fixed, current.refs)
    else if |selection| == 2 then
      var between := ShowChangesBetween(selection[0], selection[1]);
      [Entry(Label(between), between)]
    else []
  }

  /** The menu is shown exactly when one or two rows are selected. */
  predicate MenuShown(m: seq<Entry>) {
    |m| > 0
  }

  lemma MenuShownIff(selection: seq<Commit>, current: Commit)
    ensures MenuShown(MenuFor(selection, current)) <==> |selection| == 1 || |selection| == 2
  {
  }

  /** What the single-row menu keeps true while refs are added: the five
      fixed entries first, one entry per label, and exactly the fixed
      actions plus those offered for the refs seen so far. */
  ghost predicate MenuInvariant(m: seq<Entry>, c: Commit, seen: seq<string>) {
    && DistinctLabels(m) && Labelled(m)
    && |m| >= 5 && m[..5] == Entries(FixedActions(c))
    && forall a :: a in Actions(m) <==> a in FixedActions(c) || Offered(seen, a)
  }

  lemma FixedMenu(c: Commit)
    ensures MenuInvariant(Entries(FixedActions(c)), c, [])
  {
  }

  /** A quoted name can be read back from its label. */
  lemma Unquote(p: string, t: string, u: string)
    requires p + t + "'" == p + u + "'"
    ensures t == u
  {
    assert |t| == |u|;
    assert t == (p + t + "'")[|p|..|p| + |t|];
    assert u == (p + u + "'")[|p|..|p| + |u|];
  }

  /** Exactly the per-ref actions have a label ending in a quote. */
  lemma LabelEnding(a: Action)
    ensures |Label(a)| > 0
    ensures Label(a)[|Label(a)| - 1] == '\'' <==> IsRefAction(a)
  {
  }

  /** The characters that tell the per-ref labels apart. */
  lemma LabelHead(a: Action)
    requires IsRefAction(a)
    ensures |Label(a)| > 7
    ensures Label(a)[0] == (if a.SwitchBranch? then 'S' else 'D')
    ensures a.DeleteTag? ==> Label(a)[7] == 't'
    ensures a.DeleteBranch? ==> Label(a)[7] == 'b'
  {
  }

  /** Per-ref actions are told apart by their text: no other action has
      the same text. */
  lemma LabelInjective(a: Action, b: Action)
    requires IsRefAction(a) && Label(a) == Label(b)
    ensures a == b
  {
    LabelEnding(a);
    LabelEnding(b);
    LabelHead(a);
    LabelHead(b);
    if a.DeleteTag? && b.DeleteTag? {
      Unquote("Delete tag '", a.tag, b.tag);
    } else if a.SwitchBranch? && b.SwitchBranch? {
      Unquote("Switch to branch '", a.branch, b.branch);
    } else if a.DeleteBranch? && b.DeleteBranch? {
      Unquote("Delete branch '", a.branch, b.branch);
    }
  }

  /** Storing a per-ref action keeps the invariant's shape and adds
      exactly that action. */
  lemma PutRefAction(m: seq<Entry>, c: Commit, a: Action)
    requires DistinctLabels(m) && Labelled(m)
    requires |m| >= 5 && m[..5] == Entries(FixedActions(c))
    requires IsRefAction(a)
    ensures var r := Put(m, Label(a), a);
      && DistinctLabels(r) && Labelled(r)
      && |r| >= 5 && r[..5] == Entries(FixedActions(c))
      && Actions(r) == Actions(m) + {a}
  {
    var r := Put(m, Label(a), a);
    match IndexOf(m, Label(a))
    case None =>
      assert r == m + [Entry(Label(a), a)];
      assert r[..5] == m[..5];
      assert r[|m|].action == a;
      assert Actions(r) == Actions(m) + {a};
    case Some(k) =>
      LabelInjective(a, m[k].action);
      assert m[k] == Entry(Label(a), a);
      assert r == m;
  }

  /** The dictionary assignments the menu makes for one ref add exactly
      the actions of the per-ref table, keeping the fixed entries first and
      the texts distinct. */
  lemma AddRefActions(m: seq<Entry>, c: Commit, ref: string)
    requires DistinctLabels(m) && Labelled(m)
    requires |m| >= 5 && m[..5] == Entries(FixedActions(c))
    ensures var r := AddRef(m, ref);
      && DistinctLabels(r) && Labelled(r)
      && |r| >= 5 && r[..5] == Entries(FixedActions(c))
      && Actions(r) == Actions(m) + RefActions(ref)
  {
    if Contains(ref, "HEAD") {
    } else if Contains(ref, "tag:") {
      PutRefAction(m, c, DeleteTag(TagName(ref)));
    } else {
      var toBranch := SwitchBranch(ref);
      PutRefAction(m, c, toBranch);
      PutRefAction(Put(m, Label(toBranch), toBranch), c, DeleteBranch(ref));
    }
  }

  lemma OfferedAppend(seen: seq<string>, ref: string, a: Action)
    ensures Offered(seen + [ref], a) <==> Offered(seen, a) || a in RefActions(ref)
  {
  }

  lemma AddRefKeepsMenu(m: seq<Entry>, c: Commit, seen: seq<string>, ref: string)
    requires MenuInvariant(m, c, seen)
    ensures MenuInvariant(AddRef(m, ref), c, seen + [ref])
  {
    AddRefActions(m, c, ref);
    var r := AddRef(m, ref);
    forall a ensures a in Actions(r) <==> a in FixedActions(c) || Offered(seen + [ref], a) {
      OfferedAppend(seen, ref, a);
    }
  }

  lemma {:induction false} AddRefsKeepsMenu(m: seq<Entry>, c: Commit, seen: seq<string>, refs: seq<string>)
    requires MenuInvariant(m, c, seen)
    ensures MenuInvariant(AddRefs(m, refs), c, seen + refs)
    decreases |refs|
  {
    if |refs| > 0 {
      var next := AddRef(m, refs[0]);
      AddRefKeepsMenu(m, c, seen, refs[0]);
      assert seen + [refs[0]] + refs[1..] == seen + refs;
      AddRefsKeepsMenu(next, c, seen + [refs[0]], refs[1..]);
      assert AddRefs(m, refs) == AddRefs(next, refs[1..]);
    } else {
      assert seen + refs == seen;
      assert AddRefs(m, refs) == m;
    }
  }

  /** Every ref containing "HEAD ->" contains "HEAD". */
  lemma HeadPointerContainsHead(ref: string)
    requires Contains(ref, "HEAD ->")
    ensures Contains(ref, "HEAD")
  {
    ContainsIff(ref, "HEAD ->");
    ContainsIff(ref, "HEAD");
    var i :| OccursAt(ref, "HEAD ->", i);
    OccursPrefix(ref, "HEAD ->", i, 4);
    assert "HEAD ->"[..4] == "HEAD";
  }

  /** A ref shown as the HEAD pointer gets no menu entry of its own. */
  lemma HeadRefOffersNothing(m: seq<Entry>, ref: string)
    requires Contains(ref, "HEAD ->")
    ensures LabelFor(ref).HeadLabel?
    ensures AddRef(m, ref) == m
    ensures RefActions(ref) == {}
  {
    HeadPointerContainsHead(ref);
  }

  /** For a ref without "HEAD", the label and the menu agree: a ref shown
      as a tag is offered for deletion under the same name, and a ref
      shown as a branch is offered for switching and deletion. */
  lemma LabelMatchesMenu(ref: string)
    requires !Contains(ref, "HEAD")
    ensures !LabelFor(ref).HeadLabel?
    ensures LabelFor(ref).TagLabel? ==> RefActions(ref) == {DeleteTag(LabelFor(ref).name)}
    ensures LabelFor(ref).BranchLabel? ==>
      RefActions(ref) == {SwitchBranch(LabelFor(ref).name), DeleteBranch(LabelFor(ref).name)}
  {
    if Contains(ref, "HEAD ->") {
      HeadPointerContainsHead(ref);
    }
  }

  /** A detached HEAD, reported as the bare ref `HEAD`, is labelled like a
      branch named "HEAD" but, containing "HEAD", is offered nothing. */
  lemma DetachedHead(m: seq<Entry>)
    ensures LabelFor("HEAD") == BranchLabel("HEAD")
    ensures AddRef(m, "HEAD") == m
  {
    ContainsIff("HEAD", "HEAD");
    ContainsIff("HEAD", "tag:");
    ContainsIff("HEAD", "HEAD ->");
    assert OccursAt("HEAD", "HEAD", 0);
    forall i ensures !OccursAt("HEAD", "tag:", i) {
      if 0 <= i && i + 4 <= 4 {
        assert "HEAD"[i..i + 4][0] == 'H';
      }
    }
    forall i ensures !OccursAt("HEAD", "HEAD ->", i) {
    }
  }
}
