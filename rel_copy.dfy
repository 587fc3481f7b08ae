/** The click handler of `$.fn.relCopy`: on each click, count the group the
    trigger's `rel` selector names, stop at the limit, copy the group's
    first element, rewrite the copy and insert it after the group's last
    element. */
module RelCopy {
  import opened Dom
  import opened Ids
  import opened CloneSteps

  /** The plugin's options after merging with the defaults. A selector
      option given as the empty string is None. */
  datatype Settings = Settings(
    excludeSelector: Option<Selector>,
    emptySelector: Option<Selector>,
    copyClass: string,
    limit: int,
    append: seq<Node>,
    appendTo: Option<Selector>,
    clearInputs: bool)

  /** The defaults: no limit, the class `copy`, excluding `.exclude`,
      emptying `.empty`, nothing appended and inputs cleared. */
  function Defaults(): (d: Settings)
    ensures forall counter: nat :: !Blocked(d.limit, counter)
    ensures d.copyClass == "copy" && d.append == [] && d.appendTo == None && d.clearInputs
    ensures d.excludeSelector.Some? && d.emptySelector.Some?
    ensures forall n :: Matches(d.excludeSelector.value, n) <==> "exclude" in n.classes
    ensures forall n :: Matches(d.emptySelector.value, n) <==> "empty" in n.classes
  {
    Settings(
      excludeSelector := Some(HasClass("exclude")),
      emptySelector := Some(HasClass("empty")),
      copyClass := "copy",
      limit := 0,
      append := [],
      appendTo := None,
      clearInputs := true)
  }

  /** What a click did: the `onLimitExceeded` path, or a copy (None when the
      group was empty, so that jQuery cloned and inserted nothing). */
  datatype Outcome = LimitExceeded | Copied(clone: Option<Node>)

  /** Whether a click is refused when the group has `counter` elements:
      zero means unlimited, a positive limit caps the group, and a negative
      one blocks every click. */
  predicate Blocked(limit: int, counter: nat): (b: bool)
    ensures limit == 0 ==> !b
    ensures limit < 0 ==> b
    ensures limit > 0 ==> (b <==> counter >= limit)
  {
    limit != 0 && counter >= limit
  }

  /** The copy as the handler leaves it just before insertion, given the
      group's first element and its size. The copy itself carries the
      template's attributes plus the class `copyClass + counter`, with its
      id renumbered when it had a non-empty one; its own value and checked
      state are never cleared. */
  function CloneOf(template: Node, counter: nat, s: Settings): (r: Node)
    ensures r.classes == template.classes + {s.copyClass + NatToString(counter)}
    ensures r.id == (if template.id.Some? && template.id.value != "" then Some(NewId(template.id.value, counter))
                     else template.id)
    ensures Own(r) == Own(template).(classes := r.classes, id := r.id)
  {
    FinishCopy(PrepareCopy(template, counter, s), counter, s.clearInputs)
  }

  /** The steps that reshape the copy's content: the ordinal class, then
      exclusion, appending and emptying. Only the class changes the copy's
      own attributes. */
  function PrepareCopy(template: Node, counter: nat, s: Settings): (r: Node)
    ensures Own(r) == Own(template).(classes := template.classes + {s.copyClass + NatToString(counter)})
  {
    var marked := template.(classes := template.classes + {s.copyClass + NatToString(counter)});
    var kept := ExcludeStep(marked, s.excludeSelector);
    var extended := Appended(kept, s.appendTo, s.append);
    EmptyStep(extended, s.emptySelector)
  }

  /** `if (settings.excludeSelector)`: the matching children go, and only
      they. */
  function ExcludeStep(n: Node, sel: Option<Selector>): (r: Node)
    ensures Own(r) == Own(n)
    ensures |r.children| == KeptCount(n.children, sel)
    ensures sel.Some? ==> r.children == ExcludeForest(n.children, sel.value)
    ensures sel.None? ==> r == n
  {
    if sel.Some? then
      ExcludeRemovesOnlyMatches(n.children, sel.value);
      Excluded(n, sel.value)
    else n
  }

  /** How many of `cs` survive an exclusion with `sel`. */
  function KeptCount(cs: seq<Node>, sel: Option<Selector>): nat {
    |cs| - (if sel.Some? then CountMatches(cs, sel.value) else 0)
  }

  /** `if (settings.emptySelector)`: every child stays, with its attributes,
      and the matching ones lose their content. */
  function EmptyStep(n: Node, sel: Option<Selector>): (r: Node)
    ensures Own(r) == Own(n) && |r.children| == |n.children|
    ensures sel.Some? ==> r.children == EmptyForest(n.children, sel.value)
    ensures sel.None? ==> r == n
    ensures forall i :: 0 <= i < |n.children| ==>
      Own(r.children[i]) == Own(n.children[i]) &&
      (sel.Some? && Matches(sel.value, n.children[i]) ==> r.children[i].children == [])
  {
    if sel.Some? then Emptied(n, sel.value) else n
  }

  /** The steps that rewrite attributes: ids of the copy and of every
      descendant, then the inputs among the descendants. The copy's own
      attributes change only by RenumberRoot. */
  function FinishCopy(n: Node, counter: nat, clearInputs: bool): (r: Node)
    ensures Own(r) == Own(RenumberRoot(n, counter))
    ensures |r.children| == |n.children|
  {
    var renamed := RenumberRoot(n, counter);
    var renumbered := renamed.(children := MapForest(renamed.children, Renumberer(counter)));
    if clearInputs then renumbered.(children := MapForest(renumbered.children, ClearInput))
    else renumbered
  }

  /** Content given as `append` without `appendTo` follows the copy's own
      remaining children. Exclusion runs before it and never removes it,
      even where it matches `excludeSelector`; emptying, renumbering and
      clearing run after it and reach it like any other child. */
  lemma AppendedContentIsNotExcluded(template: Node, counter: nat, s: Settings, k: nat)
    requires s.appendTo == None && k < |s.append|
    ensures |CloneOf(template, counter, s).children| == KeptCount(template.children, s.excludeSelector) + |s.append|
    ensures CloneOf(template, counter, s).children[KeptCount(template.children, s.excludeSelector) + k].id
      == (if s.append[k].id.Some? then Some(NewId(s.append[k].id.value, counter)) else None)
    ensures Own(CloneOf(template, counter, s).children[KeptCount(template.children, s.excludeSelector) + k])
      == (if s.clearInputs then ClearInput(RenumberId(Own(s.append[k]), counter))
          else RenumberId(Own(s.append[k]), counter))
    ensures s.emptySelector.Some? && Matches(s.emptySelector.value, s.append[k]) ==>
      CloneOf(template, counter, s).children[KeptCount(template.children, s.excludeSelector) + k].children == []
  {
    var m := KeptCount(template.children, s.excludeSelector);
    var x := s.append[k];
    var n := PrepareCopy(template, counter, s);
    var r := CloneOf(template, counter, s);
    assert r == FinishCopy(n, counter, s.clearInputs);
    PreparedAppendedChild(template, counter, s, k);
    FinishedDescendant(n, counter, s.clearInputs, [m + k]);
    assert At(n.children, [m + k]) == n.children[m + k];
    assert At(r.children, [m + k]) == r.children[m + k];
    var renamed := RenumberId(Own(x), counter);
    var done := if s.clearInputs then ClearInput(renamed) else renamed;
    assert Own(r.children[m + k]) == done;
    assert r.children[m + k].id == renamed.id;
  }

  /** Before the attribute rewrites, appended item `k` sits after the
      children that survived exclusion, emptied if it matches. */
  lemma PreparedAppendedChild(template: Node, counter: nat, s: Settings, k: nat)
    requires s.appendTo == None && k < |s.append|
    ensures |PrepareCopy(template, counter, s).children| == KeptCount(template.children, s.excludeSelector) + |s.append|
    ensures Own(PrepareCopy(template, counter, s).children[KeptCount(template.children, s.excludeSelector) + k])
      == Own(s.append[k])
    ensures s.emptySelector.Some? && Matches(s.emptySelector.value, s.append[k]) ==>
      PrepareCopy(template, counter, s).children[KeptCount(template.children, s.excludeSelector) + k].children == []
  {
    var marked := template.(classes := template.classes + {s.copyClass + NatToString(counter)});
    var kept := ExcludeStep(marked, s.excludeSelector);
    var extended := Appended(kept, s.appendTo, s.append);
    assert extended.children[|kept.children| + k] == s.append[k];
  }

  /** The attribute rewrites reach every node below the copy, appended
      content included: each keeps its path and its number of children,
      and its attributes become its old ones renumbered (and, when asked,
      cleared). */
  lemma FinishedDescendant(n: Node, counter: nat, clearInputs: bool, p: seq<nat>)
    requires ValidPath(n.children, p)
    ensures ValidPath(FinishCopy(n, counter, clearInputs).children, p)
    ensures Own(At(FinishCopy(n, counter, clearInputs).children, p))
      == (if clearInputs then ClearInput(RenumberId(Own(At(n.children, p)), counter))
          else RenumberId(Own(At(n.children, p)), counter))
    ensures |At(FinishCopy(n, counter, clearInputs).children, p).children| == |At(n.children, p).children|
  {
    var renamed := RenumberRoot(n, counter);
    var renumbered := MapForest(renamed.children, Renumberer(counter));
    MapForestAt(n.children, Renumberer(counter), p);
    var y := At(renumbered, p);
    RewritesSeeOnlyOwn(At(n.children, p), counter);
    assert Own(y) == RenumberId(Own(At(n.children, p)), counter);
    if clearInputs {
      MapForestAt(renumbered, ClearInput, p);
      RewritesSeeOnlyOwn(y, counter);
    }
  }

  /** A copy of a member of the class group `.name` is itself a member,
      and carries its ordinal class. */
  lemma CloneStaysInClassGroup(template: Node, counter: nat, s: Settings, name: string)
    requires Matches(HasClass(name), template)
    ensures Matches(HasClass(name), CloneOf(template, counter, s))
    ensures s.copyClass + NatToString(counter) in CloneOf(template, counter, s).classes
  {
  }

  /** `$(parent).find(rel + ':last').after(clone)` */
  function InsertAfterLast(s: seq<Node>, rel: Selector, clone: Node): (r: seq<Node>)
    ensures |r| == |s| + (if LastIndex(s, rel).Some? then 1 else 0)
    ensures LastIndex(s, rel).None? ==> r == s
    ensures LastIndex(s, rel).Some? ==> clone in r
  {
    match LastIndex(s, rel)
    case None => s
    case Some(j) => s[..j + 1] + [clone] + s[j + 1..]
  }

  /** The copy lands right after the last member; the siblings grow by one
      and nothing else moves, so removing the copy gives the old list. */
  lemma InsertAfterLastPlacement(s: seq<Node>, rel: Selector, clone: Node, j: nat)
    requires LastIndex(s, rel) == Some(j)
    ensures |InsertAfterLast(s, rel, clone)| == |s| + 1
    ensures InsertAfterLast(s, rel, clone)[j + 1] == clone && Matches(rel, InsertAfterLast(s, rel, clone)[j])
    ensures InsertAfterLast(s, rel, clone)[..j + 1] + InsertAfterLast(s, rel, clone)[j + 2..] == s
    ensures forall k :: j + 1 < k < |s| + 1 ==> !Matches(rel, InsertAfterLast(s, rel, clone)[k])
  {
    var r := InsertAfterLast(s, rel, clone);
    assert r[..j + 1] == s[..j + 1];
    assert r[j + 2..] == s[j + 1..];
    assert s == s[..j + 1] + s[j + 1..];
    forall k | j + 1 < k < |r| ensures !Matches(rel, r[k]) {
      assert r[k] == s[k - 1];
    }
  }

  /** After a copy the group has grown by one exactly when the copy is a
      member; then the template is still first and the copy is last, so
      the next click copies the same template after this copy. */
  lemma {:induction false} InsertAfterLastGroup(s: seq<Node>, rel: Selector, clone: Node, j: nat)
    requires LastIndex(s, rel) == Some(j)
    ensures CountMatches(InsertAfterLast(s, rel, clone), rel)
      == CountMatches(s, rel) + (if Matches(rel, clone) then 1 else 0)
    ensures FirstIndex(InsertAfterLast(s, rel, clone), rel) == FirstIndex(s, rel)
    ensures Matches(rel, clone) ==> LastIndex(InsertAfterLast(s, rel, clone), rel) == Some(j + 1)
  {
    var r := InsertAfterLast(s, rel, clone);
    InsertAfterLastPlacement(s, rel, clone, j);
    CountMatchesConcat(s[..j + 1] + [clone], s[j + 1..], rel);
    CountMatchesConcat(s[..j + 1], [clone], rel);
    CountMatchesConcat(s[..j + 1], s[j + 1..], rel);
    assert s == s[..j + 1] + s[j + 1..];
    assert CountMatches([clone], rel) == (if Matches(rel, clone) then 1 else 0);
    FirstIndexPrefix(s, r, j, rel);
    if Matches(rel, clone) {
      LastIndexAt(r, rel, j + 1);
    }
  }

  /** Two lists that agree up to a member at `j` have the same first member. */
  lemma {:induction false} FirstIndexPrefix(s: seq<Node>, r: seq<Node>, j: nat, rel: Selector)
    requires j < |s| && j < |r| && s[..j + 1] == r[..j + 1] && Matches(rel, s[j])
    ensures FirstIndex(s, rel) == FirstIndex(r, rel)
  {
    var a, b := FirstIndex(s, rel), FirstIndex(r, rel);
    assert a.Some? && a.value <= j;
    assert b.Some? && b.value <= j by {
      assert r[j] == s[j];
    }
    assert r[a.value] == s[a.value];
    assert r[b.value] == s[b.value];
  }

  /** A member with no member after it is what `:last` selects. */
  lemma LastIndexAt(r: seq<Node>, rel: Selector, i: nat)
    requires i < |r| && Matches(rel, r[i])
    requires forall k :: i < k < |r| ==> !Matches(rel, r[k])
    ensures LastIndex(r, rel) == Some(i)
  {
    var l := LastIndex(r, rel);
    assert l.Some? && l.value >= i;
  }

  /** A positive limit is never overrun by clicks: a group of at most
      `limit` elements still has at most `limit` after a click that the
      limit lets through, whatever copy that click inserts. */
  lemma LimitBoundsGroup(s: seq<Node>, rel: Selector, limit: int, clone: Node)
    requires limit > 0 && CountMatches(s, rel) <= limit
    ensures !Blocked(limit, CountMatches(s, rel)) ==> CountMatches(InsertAfterLast(s, rel, clone), rel) <= limit
  {
    if !Blocked(limit, CountMatches(s, rel)) && LastIndex(s, rel).Some? {
      InsertAfterLastGroup(s, rel, clone, LastIndex(s, rel).value);
    }
  }

  /** The children of the parent of the group's first element. The model
      takes every group member to be one of them. */
  class Document {
    var siblings: seq<Node>

    constructor (siblings: seq<Node>)
      ensures this.siblings == siblings
    {
      this.siblings := siblings;
    }

    /** One click on a trigger whose `rel` attribute reads as `rel`. */
    method Activate(rel: Selector, settings: Settings) returns (outcome: Outcome)
      modifies this
      ensures var counter := CountMatches(old(siblings), rel);
        (outcome == LimitExceeded <==> Blocked(settings.limit, counter)) &&
        (outcome == LimitExceeded ==> siblings == old(siblings)) &&
        (outcome == Copied(None) <==> !Blocked(settings.limit, counter) && counter == 0) &&
        (outcome == Copied(None) ==> siblings == old(siblings))
      ensures outcome.Copied? && outcome.clone.Some? ==>
        var counter := CountMatches(old(siblings), rel);
        var template := old(siblings)[FirstIndex(old(siblings), rel).value];
        outcome.clone.value == CloneOf(template, counter, settings) &&
        siblings == InsertAfterLast(old(siblings), rel, outcome.clone.value)
    {
      var counter := CountMatches(siblings, rel);
      if Blocked(settings.limit, counter) {
        return LimitExceeded;
      }
      var first := FirstIndex(siblings, rel);
      if first.None? {
        return Copied(None);
      }
      var clone := siblings[first.value];
      clone := clone.(classes := clone.classes + {settings.copyClass + NatToString(counter)});
      if settings.excludeSelector.Some? {
        clone := Excluded(clone, settings.excludeSelector.value);
      }
      clone := Appended(clone, settings.appendTo, settings.append);
      if settings.emptySelector.Some? {
        clone := Emptied(clone, settings.emptySelector.value);
      }
      clone := RenumberRoot(clone, counter);
      var kids := Each(clone.children, Renumberer(counter));
      clone := clone.(children := kids);
      if settings.clearInputs {
        kids := Each(clone.children, ClearInput);
        clone := clone.(children := kids);
      }
      siblings := InsertAfterLast(siblings, rel, clone);
      outcome := Copied(Some(clone));
    }
  }

  /** Two clicks in a row, the first copy joining the group (as a copy of a
      class group does, by CloneStaysInClassGroup): the second click sees
      the same template and a counter one higher, and the two copies end up
      side by side after the old last member, in click order. */
  lemma TwoInsertions(s: seq<Node>, rel: Selector, first: Node, second: Node, j: nat, k: nat)
    requires LastIndex(s, rel) == Some(j) && FirstIndex(s, rel) == Some(k) && Matches(rel, first)
    ensures CountMatches(InsertAfterLast(s, rel, first), rel) == CountMatches(s, rel) + 1
    ensures FirstIndex(InsertAfterLast(s, rel, first), rel) == Some(k)
    ensures InsertAfterLast(s, rel, first)[k] == s[k]
    ensures InsertAfterLast(InsertAfterLast(s, rel, first), rel, second)
      == s[..j + 1] + [first, second] + s[j + 1..]
  {
    var s1 := InsertAfterLast(s, rel, first);
    InsertAfterLastGroup(s, rel, first, j);
    InsertAfterLastSlices(s, j, first);
    assert s1[k] == s[k] by {
      assert s1[..j + 1][k] == s[..j + 1][k];
    }
    assert s1[..j + 2] == s[..j + 1] + [first];
    assert s1[j + 2..] == s[j + 1..];
    assert InsertAfterLast(s1, rel, second) == s1[..j + 2] + [second] + s1[j + 2..];
    assert s[..j + 1] + [first] + [second] == s[..j + 1] + [first, second];
  }

  /** Inserting after index `j` in the list's own terms. */
  lemma InsertAfterLastSlices(s: seq<Node>, j: nat, x: Node)
    requires j < |s|
    ensures var r := s[..j + 1] + [x] + s[j + 1..];
      |r| == |s| + 1 && r[..j + 1] == s[..j + 1] && r[j + 1] == x && r[j + 2..] == s[j + 1..]
  {
    var r := s[..j + 1] + [x] + s[j + 1..];
    assert r[j + 2..] == s[j + 1..];
  }
}
