/** An abstract HTML document: the tree the parser builds, addressed by child
    paths, with the class-selector search `querySelector(".cls")` performs. */
module Dom {
  import opened Wrappers

  /** A document node. `Element` carries its tag, its class tokens and its
      children; `Text` is character data; `Fragment` is a parsed markup
      fragment kept opaque (the search does not look inside it). */
  datatype Node =
    | Element(tag: string, classes: set<string>, children: seq<Node>)
    | Text(text: string)
    | Fragment(markup: string)

  /** Child indices from the root down to a node. */
  type Path = seq<nat>

  /** The node `n` matches the selector `.cls`. */
  predicate HasClass(n: Node, cls: string) {
    n.Element? && cls in n.classes
  }

  /** Some node of the tree rooted at `n` matches `.cls`. */
  predicate Contains(n: Node, cls: string)
    decreases n
  {
    HasClass(n, cls)
    || (n.Element? && exists i :: 0 <= i < |n.children| && Contains(n.children[i], cls))
  }

  /** `p` leads from `n` to a node of the tree. */
  predicate ValidPath(n: Node, p: Path)
    decreases p
  {
    |p| == 0 || (n.Element? && p[0] < |n.children| && ValidPath(n.children[p[0]], p[1..]))
  }

  /** The node `p` leads to. */
  function At(n: Node, p: Path): Node
    requires ValidPath(n, p)
    decreases p
  {
    if |p| == 0 then n else At(n.children[p[0]], p[1..])
  }

  /** `p` leads to the first node matching `.cls` in document order (pre-order):
      no ancestor on the way matches, no subtree of an earlier sibling of any
      node on the way contains a match, and the node itself matches. */
  predicate FirstMatch(n: Node, cls: string, p: Path)
    decreases p
  {
    if |p| == 0 then HasClass(n, cls)
    else
      && !HasClass(n, cls)
      && n.Element?
      && p[0] < |n.children|
      && (forall j :: 0 <= j < p[0] ==> !Contains(n.children[j], cls))
      && FirstMatch(n.children[p[0]], cls, p[1..])
  }

  /** `querySelector(".cls")`: the path of the first matching node in document
      order, or `None` (JavaScript `null`) when no node matches. */
  function QuerySelector(n: Node, cls: string): (r: Option<Path>)
    decreases n, 1
    ensures r.None? <==> !Contains(n, cls)
    ensures r.Some? ==> ValidPath(n, r.value) && HasClass(At(n, r.value), cls)
    ensures r.Some? ==> FirstMatch(n, cls, r.value)
  {
    if HasClass(n, cls) then Some([])
    else if n.Element? then
      match FirstAmong(n.children, 0, cls)
      case Some(p) => Some(p)
      case None => None
    else None
  }

  /** The search continued over the sibling sequence `ns` from index `i` on. */
  function FirstAmong(ns: seq<Node>, i: nat, cls: string): (r: Option<Path>)
    requires i <= |ns|
    decreases ns, 0, |ns| - i
    ensures r.None? <==> forall j :: i <= j < |ns| ==> !Contains(ns[j], cls)
    ensures r.Some? ==>
      && |r.value| > 0 && i <= r.value[0] < |ns|
      && (forall j :: i <= j < r.value[0] ==> !Contains(ns[j], cls))
      && ValidPath(ns[r.value[0]], r.value[1..])
      && HasClass(At(ns[r.value[0]], r.value[1..]), cls)
      && FirstMatch(ns[r.value[0]], cls, r.value[1..])
  {
    if i == |ns| then None
    else
      match QuerySelector(ns[i], cls)
      case Some(p) => assert ([i] + p)[1..] == p; Some([i] + p)
      case None => FirstAmong(ns, i + 1, cls)
  }

  /** The node `p` leads to with its children replaced by `kids`; every other
      node keeps its place. */
  function SetChildren(n: Node, p: Path, kids: seq<Node>): (r: Node)
    requires ValidPath(n, p) && At(n, p).Element?
    decreases p
    ensures ValidPath(r, p)
    ensures At(r, p) == Element(At(n, p).tag, At(n, p).classes, kids)
  {
    if |p| == 0 then Element(n.tag, n.classes, kids)
    else
      var c := SetChildren(n.children[p[0]], p[1..], kids);
      Element(n.tag, n.classes, n.children[p[0] := c])
  }

  /** A first match is a real match inside the tree. */
  lemma {:induction false} FirstMatchLocates(n: Node, cls: string, p: Path)
    requires FirstMatch(n, cls, p)
    ensures ValidPath(n, p) && HasClass(At(n, p), cls) && Contains(n, cls)
    decreases p
  {
    if |p| > 0 {
      FirstMatchLocates(n.children[p[0]], cls, p[1..]);
    }
  }

  /** Document order has only one first match. */
  lemma {:induction false} FirstMatchUnique(n: Node, cls: string, p: Path, q: Path)
    requires FirstMatch(n, cls, p) && FirstMatch(n, cls, q)
    ensures p == q
    decreases p
  {
    if |p| > 0 && |q| > 0 {
      if p[0] < q[0] {
        FirstMatchLocates(n.children[p[0]], cls, p[1..]);
      } else if q[0] < p[0] {
        FirstMatchLocates(n.children[q[0]], cls, q[1..]);
      } else {
        FirstMatchUnique(n.children[p[0]], cls, p[1..], q[1..]);
        assert p == [p[0]] + p[1..] && q == [q[0]] + q[1..];
      }
    }
  }

  /** The search answers exactly the first match in document order. */
  lemma QuerySelectorFindsFirst(n: Node, cls: string, p: Path)
    ensures QuerySelector(n, cls) == Some(p) <==> FirstMatch(n, cls, p)
  {
    if FirstMatch(n, cls, p) {
      FirstMatchLocates(n, cls, p);
      FirstMatchUnique(n, cls, p, QuerySelector(n, cls).value);
    }
  }

  /** Replacing the children of the first match keeps it the first match:
      nothing before it in document order changes, and it keeps its classes. */
  lemma {:induction false} SetChildrenKeepsFirstMatch(n: Node, cls: string, p: Path, kids: seq<Node>)
    requires FirstMatch(n, cls, p)
    ensures ValidPath(n, p) && At(n, p).Element?
    ensures FirstMatch(SetChildren(n, p, kids), cls, p)
    decreases p
  {
    FirstMatchLocates(n, cls, p);
    if |p| > 0 {
      var r := SetChildren(n, p, kids);
      SetChildrenKeepsFirstMatch(n.children[p[0]], cls, p[1..], kids);
      assert forall j :: 0 <= j < p[0] ==> r.children[j] == n.children[j];
    }
  }

  /** Putting back the children a node already has changes nothing. */
  lemma {:induction false} SetChildrenSame(n: Node, p: Path)
    requires ValidPath(n, p) && At(n, p).Element?
    ensures SetChildren(n, p, At(n, p).children) == n
    decreases p
  {
    if |p| > 0 {
      SetChildrenSame(n.children[p[0]], p[1..]);
    }
  }

  /** A second replacement at the same place overrides the first. */
  lemma {:induction false} SetChildrenTwice(n: Node, p: Path, k1: seq<Node>, k2: seq<Node>)
    requires ValidPath(n, p) && At(n, p).Element?
    ensures SetChildren(SetChildren(n, p, k1), p, k2) == SetChildren(n, p, k2)
    decreases p
  {
    if |p| > 0 {
      SetChildrenTwice(n.children[p[0]], p[1..], k1, k2);
    }
  }

  /** Nodes that are neither above nor below the replaced element are unchanged. */
  lemma {:induction false} SetChildrenFrame(n: Node, p: Path, kids: seq<Node>, q: Path)
    requires ValidPath(n, p) && At(n, p).Element?
    requires ValidPath(n, q) && !(p <= q) && !(q <= p)
    ensures ValidPath(SetChildren(n, p, kids), q)
    ensures At(SetChildren(n, p, kids), q) == At(n, q)
    decreases p
  {
    if p[0] == q[0] {
      SetChildrenFrame(n.children[p[0]], p[1..], kids, q[1..]);
    }
  }

  /** The ancestors of the replaced element keep their tag, their classes and
      their number of children. */
  lemma {:induction false} SetChildrenAncestors(n: Node, p: Path, kids: seq<Node>, q: Path)
    requires ValidPath(n, p) && At(n, p).Element?
    requires q < p
    ensures ValidPath(n, q) && ValidPath(SetChildren(n, p, kids), q)
    ensures var a, b := At(n, q), At(SetChildren(n, p, kids), q);
      a.Element? && b.Element? && a.tag == b.tag && a.classes == b.classes
      && |a.children| == |b.children|
    decreases q
  {
    if |q| > 0 {
      SetChildrenAncestors(n.children[p[0]], p[1..], kids, q[1..]);
    }
  }
}
