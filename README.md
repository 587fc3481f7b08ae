# relCopy click handler in Dafny

This project models the click handler of the jQuery plugin `relCopy`. A
trigger element (typically an "add another" link) names a group of
elements through the selector in its `rel` attribute. Each click does the
following:

1. It counts the group.
2. It stops if a configured limit is reached.
3. It copies the group's first element and adds the class
   `copyClass + counter` to the copy.
4. It removes excluded parts of the copy.
5. It appends extra content to the copy.
6. It empties selected parts of the copy.
7. It renumbers the ids of the copy and its descendants to `counter + 1`.
8. It clears the copy's form controls.
9. It inserts the copy right after the group's last element.

The page is a tree of `Dom.Node` values. A node has a tag, its `type` and
`id` attributes, its classes, its value, its checked state and its children.
Text content is represented by child nodes. A selector is a test on a
node. `Dom.Matches` shows the test only the node's own attributes, so
matching a node never depends on its content. The parent of the group is a
`RelCopy.Document` object. Its field `siblings` holds the parent's children
in document order. `Document.Activate` runs the handler's steps in the
order the source does, and it changes `siblings` in place.

Module layout:

- `Dom` (dom.dfy) has the node tree, selectors and paths to descendants. It
  also reads a selector over a list of siblings in three ways, as `.length`,
  `:first` and `:last`.
- `Ids` (ids.dfy) has the id rewrite `id.replace(/\d+$/, '') + (counter + 1)`.
  It also has decimal printing and parsing, which prove the rewrite reads
  back.
- `CloneSteps` (clone_steps.dfy) has the rewrites of the copy: exclude,
  append, empty, renumber ids and clear inputs. Each rewrite is a function
  over the copy's children with lemmas about it. The `.each` loops are the
  method `Each`, which visits descendants in document order and is proved
  against `MapForest`.
- `RelCopy` (rel_copy.dfy) has the settings and their defaults, the limit
  test, the copy pipeline `CloneOf`, the insertion, and the `Document` class.

Points where the model follows what the code does rather than what one
might read into the option names:

- `append` content goes into every descendant that matches `appendTo`, as
  jQuery's `.append` on a set does, not only into the first one.
- Only `type="checkbox"` is unchecked. A radio button falls under the
  `default:` branch of the switch, so it loses its value and keeps its
  checked state.
- The limit counts the whole group, including the template. The doc
  comment at jquery.relCopy.js:18 calls `limit` "the number of allowed
  copies", but the test at line 55 compares it with `$(rel).length`. So with
  `limit: n` a click is refused once the group has `n` elements, that is,
  after `n - 1` copies.

## Model

| member | source | states |
|---|---|---|
| Dom.CountMatches | jquery.relCopy.js:52 | the group size is at most the number of siblings, and it is zero exactly when no sibling matches `rel` |
| Dom.CountMatchesConcat | jquery.relCopy.js:52 | the size of a group over two joined lists is the sum of the two sizes |
| Dom.FirstIndex | jquery.relCopy.js:62 | `rel:first` selects a member, and no member comes before it; it selects nothing only when there is no member |
| Dom.LastIndex | jquery.relCopy.js:115 | `rel:last` selects a member, and no member comes after it; it selects nothing only when there is no member |
| RelCopy.Defaults | jquery.relCopy.js:30-41 | the defaults never block a click; they use the class `copy`, exclude exactly the elements of class `exclude` and empty those of class `empty`; nothing is appended, and inputs are cleared |
| RelCopy.Blocked | jquery.relCopy.js:55 | limit 0 never blocks, a negative limit blocks every click, and a positive limit blocks exactly when the group has reached it |
| RelCopy.LimitBoundsGroup | jquery.relCopy.js:52-60 | with a positive limit, a group of at most `limit` elements still has at most `limit` after a click the limit lets through, whatever copy it inserts |
| Ids.StripTrailingDigits | jquery.relCopy.js:85 | `replace(/\d+$/, '')` keeps a prefix of the id; it removes only digits, and what is left does not end in a digit |
| Ids.StripUnique | jquery.relCopy.js:85 | any split of an id into a base that does not end in a digit plus a run of digits is the split the pattern makes |
| Ids.NatToString | jquery.relCopy.js:85 | the ordinal `counter + 1` is written as a non-empty string of decimal digits with no leading zero |
| Ids.DecimalRoundTrip | jquery.relCopy.js:85 | reading the written ordinal back as a decimal number gives the number |
| Ids.NewId | jquery.relCopy.js:85 | the new id starts with the old id's base and is longer than it, and it ends in a digit |
| Ids.NewIdParts | jquery.relCopy.js:85 | the new id is the old base followed by digits that spell `counter + 1`; stripping the new id gives back the old base |
| Ids.NewIdIgnoresOldDigits | jquery.relCopy.js:84-93 | the new id does not depend on the digits the old id ended in |
| Ids.NewIdOfNewId | jquery.relCopy.js:85 | rewriting a rewritten id gives the rewrite of the original id; with the same counter, rewriting twice equals rewriting once |
| Ids.NewIdExamples | jquery.relCopy.js:85 | "phone3" at counter 3 gives "phone4", "phone" at counter 0 gives "phone1", "row12" at 9 gives "row10", and "" at 2 gives "3" |
| CloneSteps.ExcludeForest | jquery.relCopy.js:68 | exclusion never lengthens a list of children, and no child left in it matches `excludeSelector` |
| CloneSteps.Excluded | jquery.relCopy.js:68 | exclusion keeps the copy's own attributes, never adds a child, and leaves no child that matches |
| CloneSteps.ExcludedLeavesNoMatch | jquery.relCopy.js:66-69 | after exclusion no descendant of the copy matches `excludeSelector`, at any depth, and the copy itself is kept with its attributes even if it matches |
| CloneSteps.ExcludeRemovesOnlyMatches | jquery.relCopy.js:68 | exclusion removes one child per matching child: survivors plus matches make up the old children |
| CloneSteps.ExcludeKeepsTheRest | jquery.relCopy.js:68 | every child that does not match survives with its own attributes, its content excluded in turn, at its old index less the matches before it, so the survivors keep their order |
| CloneSteps.ExcludeWithoutMatchesIsIdentity | jquery.relCopy.js:68 | when no descendant matches, exclusion changes nothing |
| CloneSteps.AppendForest | jquery.relCopy.js:73 | appending into targets keeps every child and its attributes, and each child gains as many children as the fragment has exactly when it is a target |
| CloneSteps.Appended | jquery.relCopy.js:71-76 | appending keeps the copy's own attributes and adds no more than the fragment to its child list; without `appendTo` the fragment follows the copy's own children |
| CloneSteps.AppendForestAt | jquery.relCopy.js:72-73 | appending into the `appendTo` targets moves nothing: every descendant keeps its path and its attributes, and every target's old children are followed by the fragment |
| CloneSteps.AppendedPlacement | jquery.relCopy.js:71-76 | if `appendTo` is given and finds a target, the copy's own list of children keeps its length and a target receives the fragment; otherwise the fragment follows the copy's own children |
| CloneSteps.EmptyForest | jquery.relCopy.js:80 | emptying keeps every child in place with its attributes, and a matching child loses all its content |
| CloneSteps.Emptied | jquery.relCopy.js:80 | emptying keeps the copy's own attributes and its number of children |
| CloneSteps.EmptiedMatchesHaveNoChildren | jquery.relCopy.js:78-81 | after emptying, every descendant that matches `emptySelector` has no children |
| CloneSteps.EmptiedKeepsOpenPaths | jquery.relCopy.js:80 | a descendant with no match above it is still at its path with its attributes, and if it matches it is empty |
| CloneSteps.EmptiedAddsNothing | jquery.relCopy.js:80 | every path of the emptied copy was a path before, with no match above its end, to a node with the same attributes |
| CloneSteps.EmptyWithoutMatchesIsIdentity | jquery.relCopy.js:80 | when no descendant matches, emptying changes nothing |
| CloneSteps.Each | jquery.relCopy.js:90-112 | the `.each` loop that visits every descendant in document order and edits it yields the edit of every node of the copy (`MapForest`) |
| CloneSteps.MapForestAt | jquery.relCopy.js:90-112 | an edit applied through `.each` keeps every path and every child count, and each node's attributes become the edit of its old ones |
| CloneSteps.RenumberRoot | jquery.relCopy.js:83-87 | the copy's own id is rewritten only when it is present and non-empty; nothing else changes, neither its other attributes nor its content |
| CloneSteps.RenumberId | jquery.relCopy.js:90-93 | a descendant's id is rewritten exactly when it has one, even an empty one, and the result ends in a digit; nothing but the id changes |
| CloneSteps.DescendantIdsRenumbered | jquery.relCopy.js:89-93 | every descendant that has an id, even an empty one, gets that id rewritten with the same ordinal; descendants without an id keep none; other attributes are untouched |
| CloneSteps.ClearInput | jquery.relCopy.js:97-112 | clearing changes only the value and the checked state; it never checks a box, and a changed value is the empty string |
| CloneSteps.ClearingRule | jquery.relCopy.js:96-113 | non-inputs and `type` "button", "reset" and "submit" are untouched; "checkbox" is unchecked and keeps its value; every other input loses its value and keeps its checked state; clearing again changes nothing |
| CloneSteps.RewritesSeeOnlyOwn | jquery.relCopy.js:90-112 | renumbering and clearing read and write only a node's own attributes, never its content |
| CloneSteps.InputsCleared | jquery.relCopy.js:96-113 | the clearing rule is applied to every descendant at its own path |
| RelCopy.CloneOf | jquery.relCopy.js:62-113 | the copy carries the template's attributes plus the class `copyClass + counter`, its id renumbered when it was non-empty; its own value and checked state are never cleared |
| RelCopy.PrepareCopy | jquery.relCopy.js:64-81 | marking, excluding, appending and emptying change none of the copy's own attributes except adding the ordinal class |
| RelCopy.ExcludeStep | jquery.relCopy.js:67-69 | with an exclude selector, the copy keeps its attributes and its children become `ExcludeForest` of the old ones (so ExcludeKeepsTheRest and ExcludeRemovesOnlyMatches apply), one fewer per match; without one, nothing changes |
| RelCopy.EmptyStep | jquery.relCopy.js:79-81 | with an empty selector, the children become `EmptyForest` of the old ones: every child stays with its attributes and each matching child loses its content; without one, nothing changes |
| RelCopy.FinishCopy | jquery.relCopy.js:83-113 | the id and input rewrites change only the copy's own id, and they keep its number of children |
| RelCopy.FinishedDescendant | jquery.relCopy.js:89-113 | every node below the copy, appended content included, keeps its path and its number of children, and its attributes become its old ones renumbered and, when asked, cleared |
| RelCopy.PreparedAppendedChild | jquery.relCopy.js:66-81 | without `appendTo`, appended item `k` sits right after the children that survived exclusion, with its attributes, emptied if it matches the empty selector |
| RelCopy.AppendedContentIsNotExcluded | jquery.relCopy.js:66-113 | without `appendTo`, every appended item is in the copy after the surviving children even when it matches `excludeSelector`; its id is rewritten to `NewId(id, counter)`, it is cleared when asked, and it is emptied when it matches the empty selector |
| RelCopy.CloneStaysInClassGroup | jquery.relCopy.js:64 | a copy of a member of a class group is itself a member and carries its ordinal class |
| RelCopy.InsertAfterLast | jquery.relCopy.js:115 | with no member nothing is inserted; otherwise the siblings grow by one and the copy is among them |
| RelCopy.InsertAfterLastPlacement | jquery.relCopy.js:115 | the copy lands right after the last member, no member follows it, and removing it gives back the old sibling list |
| RelCopy.InsertAfterLastGroup | jquery.relCopy.js:115 | after insertion the group grows by one exactly when the copy is a member; the template stays first, and a copy that is a member becomes the last member |
| RelCopy.TwoInsertions | jquery.relCopy.js:62-115 | when the first copy joins the group, the second click sees the same template and a counter one higher, and the two copies end up side by side after the old last member, in click order |
| RelCopy.Document.Activate | jquery.relCopy.js:49-123 | a click is refused exactly when `limit != 0 && counter >= limit`, and then nothing changes; an empty group copies nothing; otherwise the copy is `CloneOf(template, counter, settings)` and it is inserted after the last member |

## Left out

- Event binding, `this.each` and `return false` are left out. They are
  browser plumbing: `Activate` is one click.
- The `onLimitExceeded` and `onCopy` callbacks are left out, since they are
  calls into caller code. `Activate` returns which of them would run:
  `LimitExceeded`, or `Copied` with the copy.
- `withDataAndEvents` is left out. It copies jQuery data and event
  handlers, which this model does not represent.
- The HTML parsing of the `append` string is left out. The fragment is given
  as a list of nodes.
- The `parseInt` coercion of `limit` is left out, including the NaN case
  that turns the limit off. `limit` is an `int`.
- The selector engine is left out. A selector is a test on one element's
  own attributes, so structural selectors (`:has`, `:empty`, combinators)
  are not modelled.
- Selectors are not modelled as text. So `rel + ':first'` on a selector
  list such as `.a, .b`, which applies `:first` to the last alternative
  only, is not modelled.
- RelCopy.Document: the whole document is not modelled, only the children
  of the template's parent. In the source, `$(rel)` counts matches in the
  whole document, and `find(rel + ':last')` also looks at deeper
  descendants of the parent. The model assumes every group member is a
  child of that parent.
- CloneOf: it adds `copyClass + counter` as one class. jQuery's `addClass`
  splits a string that contains spaces into several classes.
- AppendedContentIsNotExcluded: it places appended content only for the
  case without `appendTo`. With `appendTo`, where the fragment goes is
  stated by AppendForestAt and AppendedPlacement, and how it is rewritten
  by FinishedDescendant. No single lemma composes them for CloneOf.
- ClearInput: the browser's treatment of `val('')` on a `<select>` is left
  out. The model sets the value to the empty string.
- `IsInput` reads jQuery's `:input` as the elements `input`, `select`,
  `textarea` and `button`.
