/** The ref labels shown next to each commit in the history tree. The
    backend reports refs as strings such as `HEAD -> main`, `tag: v1.0`
    or `main`; each is shown as a coloured label (HEAD pointer, tag or
    branch) carrying the extracted name. */
module RefLabels {
  import opened Text

  /** A label's class, which picks its colour, and the name it shows. */
  datatype RefLabel = HeadLabel(name: string) | TagLabel(name: string) | BranchLabel(name: string)

  /** The tag name of a `tag: <name>` ref: whatever follows the first four
      characters, stripped. Also the name the menu's "Delete tag" uses. */
  function TagName(ref: string): (r: string)
    ensures IsStripped(r)
    ensures |ref| <= 4 ==> r == []
    ensures |ref| >= 4 ==>
      exists i :: 4 <= i && OccursAt(ref, r, i) && AllSpace(ref[4..i]) && AllSpace(ref[i + |r|..])
  {
    var r := Strip(Drop(ref, 4));
    if |ref| >= 4 then StripOfSuffix(ref, 4, r); r else r
  }

  /** What `strip()` keeps of the suffix `s[n:]`, placed in `s` itself. */
  lemma StripOfSuffix(s: string, n: nat, r: string)
    requires n <= |s|
    requires exists i :: OccursAt(s[n..], r, i) && AllSpace(s[n..][..i]) && AllSpace(s[n..][i + |r|..])
    ensures exists i :: n <= i && OccursAt(s, r, i) && AllSpace(s[n..i]) && AllSpace(s[i + |r|..])
  {
    var t := s[n..];
    var i :| OccursAt(t, r, i) && AllSpace(t[..i]) && AllSpace(t[i + |r|..]);
    OccursInSuffix(s, r, n, i);
    var front, back := s[n..n + i], s[n + i + |r|..];
    assert front == t[..i];
    assert back == t[i + |r|..];
    assert OccursAt(s, r, n + i) && AllSpace(s[n..n + i]) && AllSpace(s[n + i + |r|..]);
  }

  /** The label for one ref string. */
  function LabelFor(ref: string): (r: RefLabel)
    ensures r.HeadLabel? <==> Contains(ref, "HEAD ->")
    ensures r.TagLabel? <==> !Contains(ref, "HEAD ->") && Contains(ref, "tag:")
    ensures r.HeadLabel? ==> !Contains(r.name, "->") && IsStripped(r.name)
    ensures r.HeadLabel? ==> Contains(ref, r.name)
    ensures r.TagLabel? ==> |ref| >= 4 && r.name == TagName(ref)
    ensures r.BranchLabel? ==> r.name == ref
  {
    if Contains(ref, "HEAD ->") then
      var after := AfterLast(ref, "->");
      var name := Strip(after);
      ContainsIff(after, name);
      NameInsideStrip(after, name);
      HeadNameInRef(ref, after, name);
      HeadLabel(name)
    else if Contains(ref, "tag:") then TagLabel(TagName(ref))
    else BranchLabel(ref)
  }

  /** Stripping keeps a piece free of `->` when the piece was. */
  lemma NameInsideStrip(after: string, name: string)
    requires !Contains(after, "->")
    requires Contains(after, name)
    ensures !Contains(name, "->")
  {
    ContainsIff(after, name);
    ContainsIff(after, "->");
    ContainsIff(name, "->");
    var i :| OccursAt(after, name, i);
    if Contains(name, "->") {
      var j :| OccursAt(name, "->", j);
      OccursWithin(after, name, "->", i, j);
      assert false;
    }
  }

  /** The name on a HEAD label is what follows the last `->` of the ref,
      stripped: an arrow ends where that part starts and none starts later. */
  lemma HeadLabelName(ref: string)
    requires Contains(ref, "HEAD ->")
    ensures LabelFor(ref).HeadLabel?
    ensures var n := |ref| - |AfterLast(ref, "->")|;
      && 2 <= n <= |ref|
      && OccursAt(ref, "->", n - 2)
      && (forall j :: n <= j ==> !OccursAt(ref, "->", j))
      && LabelFor(ref).name == Strip(ref[n..])
  {
    var after := AfterLast(ref, "->");
    HeadPointerHasArrow(ref);
    NoArrowAfter(ref, |ref| - |after|);
  }

  /** A ref containing `HEAD ->` contains `->`. */
  lemma HeadPointerHasArrow(ref: string)
    requires Contains(ref, "HEAD ->")
    ensures Contains(ref, "->")
  {
    ContainsIff(ref, "HEAD ->");
    ContainsIff(ref, "->");
    var i :| OccursAt(ref, "HEAD ->", i);
    assert OccursAt("HEAD ->", "->", 5);
    OccursWithin(ref, "HEAD ->", "->", i, 5);
  }

  /** No `->` starts at or after `n` when the suffix from `n` holds none. */
  lemma NoArrowAfter(ref: string, n: nat)
    requires n <= |ref| && !Contains(ref[n..], "->")
    ensures forall j :: n <= j ==> !OccursAt(ref, "->", j)
  {
    ContainsIff(ref[n..], "->");
    forall j | n <= j && OccursAt(ref, "->", j) ensures false {
      assert OccursAt(ref[n..], "->", j - n);
    }
  }

  /** The stripped piece after the last `->` is a substring of the ref. */
  lemma HeadNameInRef(ref: string, after: string, name: string)
    requires |after| <= |ref| && after == ref[|ref| - |after|..]
    requires Contains(after, name)
    ensures Contains(ref, name)
  {
    ContainsIff(after, name);
    ContainsIff(ref, name);
    var i :| OccursAt(after, name, i);
    assert OccursAt(ref, after, |ref| - |after|);
    OccursWithin(ref, after, name, |ref| - |after|, i);
  }

  function LabelsFor(refs: seq<string>): (r: seq<RefLabel>)
    ensures |r| == |refs|
    ensures forall k :: 0 <= k < |refs| ==> r[k] == LabelFor(refs[k])
  {
    seq(|refs|, k requires 0 <= k < |refs| => LabelFor(refs[k]))
  }

  function Names(labels: seq<RefLabel>): (r: seq<string>)
    ensures |r| == |labels|
    ensures forall k :: 0 <= k < |labels| ==> r[k] == labels[k].name
  {
    seq(|labels|, k requires 0 <= k < |labels| => labels[k].name)
  }

  /** The text of a commit's ref column: the labels' names, one space apart. */
  function RefsText(refs: seq<string>): string {
    Join(" ", Names(LabelsFor(refs)))
  }

  /** The ref column is empty for a commit without refs and is the
      ref's own name for a single ref. */
  lemma RefsTextShort(ref: string)
    ensures RefsText([]) == []
    ensures RefsText([ref]) == LabelFor(ref).name
  {
  }

  /** Adding a ref to a non-empty list appends one space and that ref's name. */
  lemma RefsTextAppend(refs: seq<string>, ref: string)
    requires |refs| > 0
    ensures RefsText(refs + [ref]) == RefsText(refs) + " " + LabelFor(ref).name
  {
    var name := LabelFor(ref).name;
    NamesAppend(refs, ref);
    JoinAppend(" ", Names(LabelsFor(refs)), [name]);
    assert Join(" ", [name]) == name;
  }

  lemma NamesAppend(refs: seq<string>, ref: string)
    ensures Names(LabelsFor(refs + [ref])) == Names(LabelsFor(refs)) + [LabelFor(ref).name]
  {
    LabelsForAppend(refs, ref);
    NamesOfAppend(LabelsFor(refs), LabelFor(ref));
  }

  lemma LabelsForAppend(refs: seq<string>, ref: string)
    ensures LabelsFor(refs + [ref]) == LabelsFor(refs) + [LabelFor(ref)]
  {
    var longer := refs + [ref];
    assert forall k :: 0 <= k < |refs| ==> longer[k] == refs[k];
  }

  lemma NamesOfAppend(labels: seq<RefLabel>, last: RefLabel)
    ensures Names(labels + [last]) == Names(labels) + [last.name]
  {
  }

  /** The length of the ref column: every name plus one space between
      neighbours. */
  lemma RefsTextLength(refs: seq<string>)
    requires |refs| > 0
    ensures |RefsText(refs)| == TotalLength(Names(LabelsFor(refs))) + |refs| - 1
  {
  }
}
