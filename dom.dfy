/** The page as the copy handler sees it: element trees, simple selectors over
    an element's own attributes, paths to descendants, and the `:first`,
    `:last` and `.length` readings of a selector over a list of siblings. */
module Dom {

  datatype Option<+T> = None | Some(value: T)

  /** One element of the page with its child nodes in document order. Text
      content is represented by child nodes as well, so that emptying an
      element removes its text and its elements alike. */
  datatype Node = Node(
    tag: string,              // element name in lower case: "input", "div", ...
    typeAttr: Option<string>, // the `type` attribute as written, None when absent
    id: Option<string>,       // the `id` attribute, None when absent
    classes: set<string>,
    value: string,
    checked: bool,
    children: seq<Node>)

  /** A selector is read as a test on an element. Every use goes through
      `Matches`, which shows the test only the element's own attributes. */
  type Selector = Node -> bool

  /** The element without its content. */
  function Own(n: Node): Node {
    n.(children := [])
  }

  predicate Matches(sel: Selector, n: Node) {
    sel(Own(n))
  }

  /** The class selector `.name`. */
  function HasClass(name: string): Selector {
    (n: Node) => name in n.classes
  }

  /** jQuery's `:input`: the form controls. */
  predicate IsInput(n: Node) {
    n.tag in {"input", "select", "textarea", "button"}
  }

  // ---------------------------------------------------------------------
  // Descendants of a node, addressed by their path of child indices from
  // the node's list of children (so a path never names the node itself).
  // ---------------------------------------------------------------------

  predicate ValidPath(cs: seq<Node>, p: seq<nat>) {
    |p| > 0 && p[0] < |cs| && (|p| == 1 || ValidPath(cs[p[0]].children, p[1..]))
  }

  function At(cs: seq<Node>, p: seq<nat>): Node
    requires ValidPath(cs, p)
  {
    if |p| == 1 then cs[p[0]] else At(cs[p[0]].children, p[1..])
  }

  /** No node in these trees, at any depth, matches `sel`. */
  predicate NoneMatch(cs: seq<Node>, sel: Selector) {
    forall i :: 0 <= i < |cs| ==> !Matches(sel, cs[i]) && NoneMatch(cs[i].children, sel)
  }

  // ---------------------------------------------------------------------
  // A selector over a list of siblings: `.length`, `:first`, `:last`.
  // ---------------------------------------------------------------------

  function CountMatches(s: seq<Node>, sel: Selector): (c: nat)
    ensures c <= |s|
    ensures c == 0 <==> forall k :: 0 <= k < |s| ==> !Matches(sel, s[k])
  {
    if s == [] then 0
    else (if Matches(sel, s[0]) then 1 else 0) + CountMatches(s[1..], sel)
  }

  lemma {:induction false} CountMatchesConcat(a: seq<Node>, b: seq<Node>, sel: Selector)
    ensures CountMatches(a + b, sel) == CountMatches(a, sel) + CountMatches(b, sel)
    decreases |a|
  {
    if a != [] {
      assert (a + b)[1..] == a[1..] + b;
      CountMatchesConcat(a[1..], b, sel);
    } else {
      assert a + b == b;
    }
  }

  /** The index of the element that `sel:first` selects. */
  function FirstIndex(s: seq<Node>, sel: Selector): (r: Option<nat>)
    ensures r.Some? ==> r.value < |s| && Matches(sel, s[r.value])
    ensures r.Some? ==> forall k :: 0 <= k < r.value ==> !Matches(sel, s[k])
    ensures r.None? ==> forall k :: 0 <= k < |s| ==> !Matches(sel, s[k])
  {
    if s == [] then None
    else if Matches(sel, s[0]) then Some(0)
    else match FirstIndex(s[1..], sel)
      case None => None
      case Some(k) => Some(k + 1)
  }

  /** The index of the element that `sel:last` selects. */
  function LastIndex(s: seq<Node>, sel: Selector): (r: Option<nat>)
    ensures r.Some? ==> r.value < |s| && Matches(sel, s[r.value])
    ensures r.Some? ==> forall k :: r.value < k < |s| ==> !Matches(sel, s[k])
    ensures r.None? ==> forall k :: 0 <= k < |s| ==> !Matches(sel, s[k])
  {
    if s == [] then None
    else if Matches(sel, s[|s| - 1]) then Some(|s| - 1)
    else LastIndex(s[..|s| - 1], sel)
  }
}
