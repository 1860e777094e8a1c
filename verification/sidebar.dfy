/** The sidebar patcher: `Sidebar` and `replaceSidebarContents` of linkupdate.js. */
module SidebarPatch {
  import opened Wrappers
  import opened Dom
  import opened Links

  /** The class that identifies the sidebar container. */
  const SidebarClass: string := "sidebar-col-2"

  /** `Sidebar(dom)`: the first element of class `sidebar-col-2`, if any. */
  function Sidebar(doc: Node): (r: Option<Path>)
    ensures r.None? <==> !Contains(doc, SidebarClass)
    ensures r.Some? ==> FirstMatch(doc, SidebarClass, r.value)
    ensures r.Some? ==> ValidPath(doc, r.value) && HasClass(At(doc, r.value), SidebarClass)
  {
    QuerySelector(doc, SidebarClass)
  }

  /** One parsed fragment per link name, each rendered with the shared
      `domain` and `lab`, in the order of `names`. */
  function LinkFragments(names: seq<string>, domain: string, lab: string): (r: seq<Node>)
    ensures |r| == |names|
    ensures forall i :: 0 <= i < |names| ==> r[i].Fragment? && r[i].markup == CreateLink(names[i], domain, lab)
  {
    seq(|names|, i requires 0 <= i < |names| => Fragment(CreateLink(names[i], domain, lab)))
  }

  /** `appendChild`: `c` is added after the last child of the element at `p`;
      every node that is neither above nor below that element is unchanged.
      In the model a rendered link is one opaque `Fragment` node and is added as
      one child; the DOM would insert the fragment's own top-level nodes. */
  function AppendChild(d: Node, p: Path, c: Node): (r: Node)
    requires ValidPath(d, p) && At(d, p).Element?
    ensures ValidPath(r, p) && At(r, p).Element?
    ensures At(r, p).tag == At(d, p).tag && At(r, p).classes == At(d, p).classes
    ensures At(r, p).children == At(d, p).children + [c]
    ensures forall q :: ValidPath(d, q) && !(p <= q) && !(q <= p) ==> ValidPath(r, q) && At(r, q) == At(d, q)
  {
    var kids := At(d, p).children + [c];
    assert forall q :: ValidPath(d, q) && !(p <= q) && !(q <= p) ==>
        ValidPath(SetChildren(d, p, kids), q) && At(SetChildren(d, p, kids), q) == At(d, q) by {
      forall q | ValidPath(d, q) && !(p <= q) && !(q <= p)
        ensures ValidPath(SetChildren(d, p, kids), q) && At(SetChildren(d, p, kids), q) == At(d, q)
      {
        SetChildrenFrame(d, p, kids, q);
      }
    }
    SetChildren(d, p, kids)
  }

  /** `forEach(f => sidebar.appendChild(f))`: appends `cs` one by one; the
      element ends with its old children followed by all of `cs`, in order. */
  function AppendAll(d: Node, p: Path, cs: seq<Node>): (r: Node)
    requires ValidPath(d, p) && At(d, p).Element?
    decreases |cs|
    ensures r == SetChildren(d, p, At(d, p).children + cs)
  {
    if |cs| == 0 then
      SetChildrenSame(d, p);
      assert At(d, p).children + cs == At(d, p).children;
      d
    else
      var d1 := AppendChild(d, p, cs[0]);
      var r := AppendAll(d1, p, cs[1..]);
      SetChildrenTwice(d, p, At(d, p).children + [cs[0]], At(d, p).children + cs);
      assert At(d, p).children + [cs[0]] + cs[1..] == At(d, p).children + cs;
      r
  }

  /** `replaceSidebarContents(dom, linknames, domain, lab)`: `None` (JavaScript
      `null`) when the document has no sidebar; otherwise the document in which
      the first sidebar's children were cleared (`innerHTML = ""`) and one
      rendered link per name appended. Serialisation is left to the caller. */
  function ReplaceSidebarContents(doc: Node, names: seq<string>, domain: string, lab: string): (r: Option<Node>)
    ensures r.None? <==> !Contains(doc, SidebarClass)
    ensures r.Some? ==>
      && Sidebar(doc).Some?
      && var p := Sidebar(doc).value;
      && ValidPath(doc, p) && At(doc, p).Element?
      && ValidPath(r.value, p) && At(r.value, p).Element?
      && At(r.value, p).tag == At(doc, p).tag
      && At(r.value, p).classes == At(doc, p).classes
      && |At(r.value, p).children| == |names|
      && (forall i :: 0 <= i < |names| ==>
            At(r.value, p).children[i] == Fragment(CreateLink(names[i], domain, lab)))
  {
    match Sidebar(doc)
    case None => None
    case Some(p) =>
      SetChildrenKeepsFirstMatch(doc, SidebarClass, p, []);
      var cleared := SetChildren(doc, p, []);
      var patched := AppendAll(cleared, p, LinkFragments(names, domain, lab));
      SetChildrenTwice(doc, p, [], LinkFragments(names, domain, lab));
      assert [] + LinkFragments(names, domain, lab) == LinkFragments(names, domain, lab);
      Some(patched)
  }

  /** The patched document is the source document with exactly the first
      sidebar's children replaced by the rendered links. */
  lemma ReplaceIsSetChildren(doc: Node, names: seq<string>, domain: string, lab: string)
    requires ReplaceSidebarContents(doc, names, domain, lab).Some?
    ensures var p := Sidebar(doc).value;
      ValidPath(doc, p) && At(doc, p).Element?
      && ReplaceSidebarContents(doc, names, domain, lab).value
         == SetChildren(doc, p, LinkFragments(names, domain, lab))
  {
    var p := Sidebar(doc).value;
    var links := LinkFragments(names, domain, lab);
    SetChildrenTwice(doc, p, [], links);
    assert [] + links == links;
  }

  /** The patched element is still the document's sidebar. */
  lemma ReplaceKeepsSidebar(doc: Node, names: seq<string>, domain: string, lab: string)
    requires ReplaceSidebarContents(doc, names, domain, lab).Some?
    ensures Sidebar(ReplaceSidebarContents(doc, names, domain, lab).value) == Sidebar(doc)
  {
    var p := Sidebar(doc).value;
    ReplaceIsSetChildren(doc, names, domain, lab);
    SetChildrenKeepsFirstMatch(doc, SidebarClass, p, LinkFragments(names, domain, lab));
    QuerySelectorFindsFirst(ReplaceSidebarContents(doc, names, domain, lab).value, SidebarClass, p);
  }

  /** Only the first sidebar is touched: every node that is neither an
      ancestor nor a descendant of it is unchanged, and its ancestors keep
      their tag, classes and number of children. In particular a later
      element of class `sidebar-col-2` outside the first sidebar is left as it
      was; one nested inside the first sidebar goes with the rest of its
      children when they are cleared. */
  lemma ReplaceChangesNothingElse(doc: Node, names: seq<string>, domain: string, lab: string, q: Path)
    requires ReplaceSidebarContents(doc, names, domain, lab).Some?
    requires ValidPath(doc, q)
    ensures var p, d := Sidebar(doc).value, ReplaceSidebarContents(doc, names, domain, lab).value;
      && (!(p <= q) && !(q <= p) ==> ValidPath(d, q) && At(d, q) == At(doc, q))
      && (q < p ==> ValidPath(d, q) && At(d, q).Element? && At(doc, q).Element?
                    && At(d, q).tag == At(doc, q).tag
                    && At(d, q).classes == At(doc, q).classes
                    && |At(d, q).children| == |At(doc, q).children|)
  {
    var p := Sidebar(doc).value;
    ReplaceIsSetChildren(doc, names, domain, lab);
    if !(p <= q) && !(q <= p) {
      SetChildrenFrame(doc, p, LinkFragments(names, domain, lab), q);
    }
    if q < p {
      SetChildrenAncestors(doc, p, LinkFragments(names, domain, lab), q);
    }
  }

  /** Patching an already patched document with the same names, domain and lab
      gives back the same document: the transform replaces, it never appends. */
  lemma ReplaceIdempotent(doc: Node, names: seq<string>, domain: string, lab: string)
    requires ReplaceSidebarContents(doc, names, domain, lab).Some?
    ensures var d := ReplaceSidebarContents(doc, names, domain, lab).value;
      ReplaceSidebarContents(d, names, domain, lab) == Some(d)
  {
    var p := Sidebar(doc).value;
    var d := ReplaceSidebarContents(doc, names, domain, lab).value;
    var links := LinkFragments(names, domain, lab);
    ReplaceIsSetChildren(doc, names, domain, lab);
    ReplaceKeepsSidebar(doc, names, domain, lab);
    ReplaceIsSetChildren(d, names, domain, lab);
    SetChildrenTwice(doc, p, links, links);
  }
}
