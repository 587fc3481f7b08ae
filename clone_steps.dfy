/** The rewrites the click handler applies to a fresh copy before inserting
    it. Each works on the copy's children (its descendants); the copy's own
    attributes are changed only by adding its class and renaming its id,
    which the handler does on the root directly. */
module CloneSteps {
  import opened Dom
  import opened Ids

  // ---------------------------------------------------------------------
  // `$(clone).find(excludeSelector).remove()`
  // ---------------------------------------------------------------------

  /** Every matching descendant is removed with its whole subtree. Matches
      are decided before anything is removed, as `find` does. */
  function ExcludeForest(cs: seq<Node>, sel: Selector): (r: seq<Node>)
    ensures |r| <= |cs|
    ensures forall i :: 0 <= i < |r| ==> !Matches(sel, r[i])
  {
    if cs == [] then []
    else
      (if Matches(sel, cs[0]) then [] else [cs[0].(children := ExcludeForest(cs[0].children, sel))])
      + ExcludeForest(cs[1..], sel)
  }

  function Excluded(n: Node, sel: Selector): (r: Node)
    ensures Own(r) == Own(n) && |r.children| <= |n.children|
    ensures forall i :: 0 <= i < |r.children| ==> !Matches(sel, r.children[i])
  {
    n.(children := ExcludeForest(n.children, sel))
  }

  /** After exclusion no descendant matches; the root is kept whatever it
      is, since `find` never returns the element it starts from. */
  lemma ExcludedLeavesNoMatch(n: Node, sel: Selector)
    ensures Own(Excluded(n, sel)) == Own(n)
    ensures NoneMatch(Excluded(n, sel).children, sel)
  {
    ExcludeForestLeavesNoMatch(n.children, sel);
  }

  lemma {:induction false} ExcludeForestLeavesNoMatch(cs: seq<Node>, sel: Selector)
    ensures NoneMatch(ExcludeForest(cs, sel), sel)
  {
    if cs != [] {
      ExcludeForestLeavesNoMatch(cs[0].children, sel);
      ExcludeForestLeavesNoMatch(cs[1..], sel);
      var head := if Matches(sel, cs[0]) then [] else [cs[0].(children := ExcludeForest(cs[0].children, sel))];
      assert NoneMatch(head, sel);
      NoneMatchConcat(head, ExcludeForest(cs[1..], sel), sel);
    }
  }

  lemma NoneMatchConcat(a: seq<Node>, b: seq<Node>, sel: Selector)
    requires NoneMatch(a, sel) && NoneMatch(b, sel)
    ensures NoneMatch(a + b, sel)
  {
    forall i | 0 <= i < |a + b|
      ensures !Matches(sel, (a + b)[i]) && NoneMatch((a + b)[i].children, sel)
    {
      if i < |a| { assert (a + b)[i] == a[i]; } else { assert (a + b)[i] == b[i - |a|]; }
    }
  }

  /** Exclusion removes exactly the matching children of each level: the
      root loses one child per matching child and no other. */
  lemma {:induction false} ExcludeRemovesOnlyMatches(cs: seq<Node>, sel: Selector)
    ensures |ExcludeForest(cs, sel)| + CountMatches(cs, sel) == |cs|
  {
    if cs != [] {
      ExcludeRemovesOnlyMatches(cs[1..], sel);
    }
  }

  /** The other half: a child that does not match survives with its own
      attributes, its content excluded in turn, at its old index less the
      number of matching children before it. So the survivors keep their
      order, and with ExcludeRemovesOnlyMatches they are all there is. */
  lemma {:induction false} ExcludeKeepsTheRest(cs: seq<Node>, sel: Selector, i: nat)
    requires i < |cs| && !Matches(sel, cs[i])
    ensures var at := i - CountMatches(cs[..i], sel);
      0 <= at < |ExcludeForest(cs, sel)| &&
      ExcludeForest(cs, sel)[at] == cs[i].(children := ExcludeForest(cs[i].children, sel))
  {
    var head := if Matches(sel, cs[0]) then [] else [cs[0].(children := ExcludeForest(cs[0].children, sel))];
    assert ExcludeForest(cs, sel) == head + ExcludeForest(cs[1..], sel);
    if i == 0 {
      assert cs[..i] == [];
    } else {
      assert cs[..i][1..] == cs[1..][..i - 1];
      assert CountMatches(cs[..i], sel) == |[cs[0]]| - |head| + CountMatches(cs[1..][..i - 1], sel);
      ExcludeKeepsTheRest(cs[1..], sel, i - 1);
    }
  }

  /** When nothing matches, exclusion changes nothing. */
  lemma {:induction false} ExcludeWithoutMatchesIsIdentity(cs: seq<Node>, sel: Selector)
    requires NoneMatch(cs, sel)
    ensures ExcludeForest(cs, sel) == cs
  {
    if cs != [] {
      ExcludeWithoutMatchesIsIdentity(cs[0].children, sel);
      assert NoneMatch(cs[1..], sel) by {
        forall i | 0 <= i < |cs[1..]|
          ensures !Matches(sel, cs[1..][i]) && NoneMatch(cs[1..][i].children, sel)
        {
          assert cs[1..][i] == cs[i + 1];
        }
      }
      ExcludeWithoutMatchesIsIdentity(cs[1..], sel);
      assert cs == [cs[0]] + cs[1..];
    }
  }

  // ---------------------------------------------------------------------
  // `$(clone).find(appendTo).append(append)`, or `$(clone).append(append)`
  // ---------------------------------------------------------------------

  /** The fragment is added at the end of the children of every matching
      descendant (jQuery gives each target its own copy). */
  function AppendForest(cs: seq<Node>, sel: Selector, frag: seq<Node>): (r: seq<Node>)
    ensures |r| == |cs|
    ensures forall i :: 0 <= i < |cs| ==>
      Own(r[i]) == Own(cs[i]) &&
      |r[i].children| == |cs[i].children| + (if Matches(sel, cs[i]) then |frag| else 0)
  {
    seq(|cs|, i requires 0 <= i < |cs| =>
      cs[i].(children := AppendForest(cs[i].children, sel, frag)
                         + (if Matches(sel, cs[i]) then frag else [])))
  }

  /** `appendTo` None stands for the empty selector string. */
  function Appended(n: Node, appendTo: Option<Selector>, frag: seq<Node>): (r: Node)
    ensures Own(r) == Own(n)
    ensures |n.children| <= |r.children| <= |n.children| + |frag|
    ensures appendTo.None? ==> r.children == n.children + frag
  {
    if appendTo.Some? && !NoneMatch(n.children, appendTo.value) then
      n.(children := AppendForest(n.children, appendTo.value, frag))
    else
      n.(children := n.children + frag)
  }

  /** Appending into targets moves nothing: every descendant keeps its path
      and its attributes, a target's old children stay in front and are
      followed by the fragment, and every other node keeps its children. */
  lemma {:induction false} AppendForestAt(cs: seq<Node>, sel: Selector, frag: seq<Node>, p: seq<nat>)
    requires ValidPath(cs, p)
    ensures var r := AppendForest(cs, sel, frag);
      ValidPath(r, p) && Own(At(r, p)) == Own(At(cs, p)) &&
      At(r, p).children ==
        AppendForest(At(cs, p).children, sel, frag) + (if Matches(sel, At(cs, p)) then frag else []) &&
      |AppendForest(At(cs, p).children, sel, frag)| == |At(cs, p).children|
    decreases p
  {
    if |p| > 1 {
      AppendForestAt(cs[p[0]].children, sel, frag, p[1..]);
    }
  }

  /** Where the fragment goes: inside the targets when the selector is
      given and finds one, at the end of the copy itself otherwise. */
  lemma AppendedPlacement(n: Node, appendTo: Option<Selector>, frag: seq<Node>)
    ensures var r := Appended(n, appendTo, frag);
      Own(r) == Own(n) &&
      if appendTo.Some? && !NoneMatch(n.children, appendTo.value) then
        |r.children| == |n.children| &&
        exists p :: ValidPath(n.children, p) && ValidPath(r.children, p) &&
          Matches(appendTo.value, At(n.children, p)) &&
          At(r.children, p).children == AppendForest(At(n.children, p).children, appendTo.value, frag) + frag
      else
        r.children[..|n.children|] == n.children && r.children[|n.children|..] == frag
  {
    if appendTo.Some? && !NoneMatch(n.children, appendTo.value) {
      var p := SomeMatch(n.children, appendTo.value);
      AppendForestAt(n.children, appendTo.value, frag, p);
    }
  }

  /** A path to a matching node, when not every node fails to match. */
  lemma {:induction false} SomeMatch(cs: seq<Node>, sel: Selector) returns (p: seq<nat>)
    requires !NoneMatch(cs, sel)
    ensures ValidPath(cs, p) && Matches(sel, At(cs, p))
  {
    var i :| 0 <= i < |cs| && !(!Matches(sel, cs[i]) && NoneMatch(cs[i].children, sel));
    if Matches(sel, cs[i]) {
      p := [i];
    } else {
      var q := SomeMatch(cs[i].children, sel);
      p := [i] + q;
      assert p[1..] == q;
    }
  }

  // ---------------------------------------------------------------------
  // `$(clone).find(emptySelector).empty()`
  // ---------------------------------------------------------------------

  /** Every matching descendant stays in place and loses all its content. */
  function EmptyForest(cs: seq<Node>, sel: Selector): (r: seq<Node>)
    ensures |r| == |cs|
    ensures forall i :: 0 <= i < |cs| ==>
      Own(r[i]) == Own(cs[i]) && (Matches(sel, cs[i]) ==> r[i].children == [])
  {
    seq(|cs|, i requires 0 <= i < |cs| =>
      if Matches(sel, cs[i]) then cs[i].(children := [])
      else cs[i].(children := EmptyForest(cs[i].children, sel)))
  }

  function Emptied(n: Node, sel: Selector): (r: Node)
    ensures Own(r) == Own(n) && |r.children| == |n.children|
  {
    n.(children := EmptyForest(n.children, sel))
  }

  /** Every matching node in these trees has no children. */
  predicate MatchedAreEmpty(cs: seq<Node>, sel: Selector) {
    forall i :: 0 <= i < |cs| ==>
      (Matches(sel, cs[i]) ==> cs[i].children == []) && MatchedAreEmpty(cs[i].children, sel)
  }

  /** No node strictly above the end of path `p` matches `sel`. */
  predicate OpenPath(cs: seq<Node>, sel: Selector, p: seq<nat>)
    requires ValidPath(cs, p)
  {
    |p| == 1 || (!Matches(sel, cs[p[0]]) && OpenPath(cs[p[0]].children, sel, p[1..]))
  }

  lemma {:induction false} EmptiedMatchesHaveNoChildren(cs: seq<Node>, sel: Selector)
    ensures MatchedAreEmpty(EmptyForest(cs, sel), sel)
  {
    var r := EmptyForest(cs, sel);
    forall i | 0 <= i < |r|
      ensures (Matches(sel, r[i]) ==> r[i].children == []) && MatchedAreEmpty(r[i].children, sel)
    {
      assert Own(r[i]) == Own(cs[i]);
      if !Matches(sel, cs[i]) {
        EmptiedMatchesHaveNoChildren(cs[i].children, sel);
      }
    }
  }

  /** Emptying removes nothing but the content of matches: a node no match
      lies above is still at its path with its attributes, including every
      matching node such a path ends in. */
  lemma {:induction false} EmptiedKeepsOpenPaths(cs: seq<Node>, sel: Selector, p: seq<nat>)
    requires ValidPath(cs, p) && OpenPath(cs, sel, p)
    ensures var r := EmptyForest(cs, sel);
      ValidPath(r, p) && Own(At(r, p)) == Own(At(cs, p)) &&
      (Matches(sel, At(cs, p)) ==> At(r, p).children == [])
    decreases p
  {
    if |p| > 1 {
      EmptiedKeepsOpenPaths(cs[p[0]].children, sel, p[1..]);
    }
  }

  /** Emptying adds nothing: every path of the emptied trees was a path
      before, with no match above its end, to a node with the same
      attributes. */
  lemma {:induction false} EmptiedAddsNothing(cs: seq<Node>, sel: Selector, p: seq<nat>)
    requires ValidPath(EmptyForest(cs, sel), p)
    ensures ValidPath(cs, p) && OpenPath(cs, sel, p) &&
      Own(At(EmptyForest(cs, sel), p)) == Own(At(cs, p))
    decreases p
  {
    if |p| > 1 {
      assert !Matches(sel, cs[p[0]]);
      EmptiedAddsNothing(cs[p[0]].children, sel, p[1..]);
    }
  }

  /** When nothing matches, emptying changes nothing. */
  lemma {:induction false} EmptyWithoutMatchesIsIdentity(cs: seq<Node>, sel: Selector)
    requires NoneMatch(cs, sel)
    ensures EmptyForest(cs, sel) == cs
  {
    forall i | 0 <= i < |cs| ensures EmptyForest(cs, sel)[i] == cs[i] {
      EmptyWithoutMatchesIsIdentity(cs[i].children, sel);
    }
  }

  // ---------------------------------------------------------------------
  // `.each(...)` over descendants
  // ---------------------------------------------------------------------

  /** `edit` applied to the attributes of every node of these trees. */
  function MapForest(cs: seq<Node>, edit: Node -> Node): seq<Node> {
    seq(|cs|, i requires 0 <= i < |cs| =>
      edit(cs[i]).(children := MapForest(cs[i].children, edit)))
  }

  /** Visits the nodes of `cs` in document order (each node, then its
      descendants) and applies `edit` to each, as `$(clone).find(...)
      .each(...)` does when `edit` leaves non-selected nodes alone. */
  method Each(cs: seq<Node>, edit: Node -> Node) returns (rs: seq<Node>)
    ensures rs == MapForest(cs, edit)
  {
    rs := cs;
    var i := 0;
    while i < |cs|
      invariant 0 <= i <= |cs| && |rs| == |cs|
      invariant forall j :: 0 <= j < i ==> rs[j] == edit(cs[j]).(children := MapForest(cs[j].children, edit))
    {
      var visited := edit(cs[i]);
      var below := Each(cs[i].children, edit);
      rs := rs[i := visited.(children := below)];
      i := i + 1;
    }
  }

  /** Editing moves nothing: the same paths exist, each node keeps its
      number of children, and its attributes are the edit of the old ones. */
  lemma {:induction false} MapForestAt(cs: seq<Node>, edit: Node -> Node, p: seq<nat>)
    ensures ValidPath(MapForest(cs, edit), p) <==> ValidPath(cs, p)
    ensures ValidPath(cs, p) ==>
      Own(At(MapForest(cs, edit), p)) == Own(edit(At(cs, p))) &&
      |At(MapForest(cs, edit), p).children| == |At(cs, p).children|
    decreases p
  {
    if |p| > 1 && p[0] < |cs| {
      MapForestAt(cs[p[0]].children, edit, p[1..]);
    }
  }

  // ---------------------------------------------------------------------
  // Id renumbering
  // ---------------------------------------------------------------------

  /** `if ($(clone).attr('id'))`: only a present, non-empty id of the copy
      itself is rewritten. */
  function RenumberRoot(n: Node, counter: nat): (r: Node)
    ensures r == n.(id := r.id)
    ensures n.id.Some? && n.id.value != "" ==> r.id == Some(NewId(n.id.value, counter))
    ensures n.id == None || n.id == Some("") ==> r == n
  {
    if n.id.Some? && n.id.value != "" then n.(id := Some(NewId(n.id.value, counter))) else n
  }

  /** The `.each` body of `find('[id]')`: any present id, even an empty
      one, is rewritten. */
  function RenumberId(n: Node, counter: nat): (r: Node)
    ensures r.(id := n.id) == n
    ensures r.id.Some? <==> n.id.Some?
    ensures n.id.Some? ==> EndsInDigit(r.id.value)
  {
    if n.id.Some? then n.(id := Some(NewId(n.id.value, counter))) else n
  }

  function Renumberer(counter: nat): Node -> Node {
    (n: Node) => RenumberId(n, counter)
  }

  /** Each descendant is renumbered on its own with the same ordinal, its
      other attributes untouched. */
  lemma DescendantIdsRenumbered(cs: seq<Node>, counter: nat, p: seq<nat>)
    requires ValidPath(cs, p)
    ensures var r := MapForest(cs, Renumberer(counter));
      var before := At(cs, p);
      ValidPath(r, p) &&
      At(r, p).id == (if before.id.Some? then Some(NewId(before.id.value, counter)) else None) &&
      Own(At(r, p)).(id := before.id) == Own(before)
  {
    MapForestAt(cs, Renumberer(counter), p);
  }

  // ---------------------------------------------------------------------
  // Input clearing
  // ---------------------------------------------------------------------

  /** The `.each` body of `find(':input')`, switching on the `type`
      attribute exactly as written. */
  function ClearInput(n: Node): (r: Node)
    ensures r.(value := n.value, checked := n.checked) == n
    ensures r.checked ==> n.checked
    ensures r.value == n.value || r.value == ""
  {
    if !IsInput(n) then n
    else match n.typeAttr
      case Some("button") => n
      case Some("reset") => n
      case Some("submit") => n
      case Some("checkbox") => n.(checked := false)
      case _ => n.(value := "")
  }

  /** The clearing rule: buttons and non-inputs are untouched, a checkbox is
      unchecked and keeps its value, any other input (radio, textarea,
      select, an input or button without a type) loses its value and keeps
      its checked state. Clearing a cleared node changes nothing. */
  lemma ClearingRule(n: Node)
    ensures var r := ClearInput(n);
      r.(value := n.value, checked := n.checked) == n &&
      (!IsInput(n) || n.typeAttr in {Some("button"), Some("reset"), Some("submit")} ==> r == n) &&
      (IsInput(n) && n.typeAttr == Some("checkbox") ==> !r.checked && r.value == n.value) &&
      (IsInput(n) && n.typeAttr !in {Some("button"), Some("reset"), Some("submit"), Some("checkbox")} ==>
        r.value == "" && r.checked == n.checked) &&
      ClearInput(r) == r
  {
  }

  /** Both per-node rewrites read and write only a node's own attributes,
      so they commute with dropping its content. */
  lemma RewritesSeeOnlyOwn(n: Node, counter: nat)
    ensures Own(RenumberId(n, counter)) == RenumberId(Own(n), counter)
    ensures Own(ClearInput(n)) == ClearInput(Own(n))
  {
  }

  lemma InputsCleared(cs: seq<Node>, p: seq<nat>)
    requires ValidPath(cs, p)
    ensures var r := MapForest(cs, ClearInput);
      ValidPath(r, p) && Own(At(r, p)) == Own(ClearInput(At(cs, p)))
  {
    MapForestAt(cs, ClearInput, p);
  }
}
