/**
 * The XML element trees behind src/vexy_markliff/models/xliff.py: the tree
 * `to_xml` builds with lxml before serialising it, the namespace-resolved
 * tree `etree.fromstring` hands to `from_xml`, and the lookups `from_xml`
 * runs on it (`xpath("//ns:name")`, `xpath(".//ns:name")`, `find`, `get`).
 */
module XmlTree {
  import opened Wrappers

  /** An element as `etree.Element`/`SubElement` build it: a plain name,
      attributes set with `set` (an "xmlns" attribute is set like any
      other), optional text and children. */
  datatype Node = Node(name: string, attrs: map<string, string>, text: Option<string>, children: seq<Node>)

  /** An element as the XML parser returns it: its name resolved to a
      namespace URI ("" for none) and a local name, namespace declarations
      no longer among the attributes. */
  datatype QNode = QNode(ns: string, local: string, attrs: map<string, string>, text: Option<string>, children: seq<QNode>)

  /** The element the parser gives back for the serialisation of `n`, when
      the enclosing default namespace is `inherited`: an "xmlns" attribute
      declares the default namespace of the element and its descendants,
      and an empty text reads back as no text. */
  function Reparse(n: Node, inherited: string): QNode
    decreases n
  {
    var ns := if "xmlns" in n.attrs then n.attrs["xmlns"] else inherited;
    QNode(
      ns,
      n.name,
      n.attrs - {"xmlns"},
      if n.text == Some("") then None else n.text,
      seq(|n.children|, i requires 0 <= i < |n.children| => Reparse(n.children[i], ns)))
  }

  /** `element.get(key, default)` */
  function Get(n: QNode, key: string, default: string): string {
    if key in n.attrs then n.attrs[key] else default
  }

  predicate Named(n: QNode, ns: string, local: string) {
    n.ns == ns && n.local == local
  }

  /** The elements named `ns:local` in the subtree of `n`, `n` included, in
      document order: `root.xpath("//ns:local")` when `n` is the root. */
  function FindAll(n: QNode, ns: string, local: string): seq<QNode>
    decreases n, 1, 0
  {
    (if Named(n, ns, local) then [n] else []) + FindBelow(n, ns, local, |n.children|)
  }

  /** The elements named `ns:local` strictly inside the first `k` children
      of `n`; with every child, `n.xpath(".//ns:local")`. */
  function FindBelow(n: QNode, ns: string, local: string, k: nat): seq<QNode>
    requires k <= |n.children|
    decreases n, 0, k
  {
    if k == 0 then [] else FindBelow(n, ns, local, k - 1) + FindAll(n.children[k - 1], ns, local)
  }

  /** `n.find("ns:local")`: the first child named `ns:local`, if any. */
  function FindChild(n: QNode, ns: string, local: string): (r: Option<QNode>)
    ensures r.Some? ==> r.value in n.children && Named(r.value, ns, local)
    ensures r.None? ==> forall i :: 0 <= i < |n.children| ==> !Named(n.children[i], ns, local)
  {
    FirstNamed(n.children, ns, local)
  }

  function FirstNamed(cs: seq<QNode>, ns: string, local: string): (r: Option<QNode>)
    ensures r.Some? ==> r.value in cs && Named(r.value, ns, local)
    ensures r.None? ==> forall i :: 0 <= i < |cs| ==> !Named(cs[i], ns, local)
  {
    if cs == [] then None
    else if Named(cs[0], ns, local) then Some(cs[0])
    else FirstNamed(cs[1..], ns, local)
  }

  /** No element of the subtree of `n` lies in namespace `ns`. */
  predicate OutsideNamespace(n: QNode, ns: string)
    decreases n
  {
    n.ns != ns && forall i :: 0 <= i < |n.children| ==> OutsideNamespace(n.children[i], ns)
  }

  /** No element of the subtree of `n` is named `ns:local`. */
  predicate Lacks(n: QNode, ns: string, local: string)
    decreases n
  {
    !Named(n, ns, local) && forall i :: 0 <= i < |n.children| ==> Lacks(n.children[i], ns, local)
  }

  lemma {:induction false} OutsideNamespaceLacks(n: QNode, ns: string, local: string)
    requires OutsideNamespace(n, ns)
    ensures Lacks(n, ns, local)
    decreases n
  {
    forall i | 0 <= i < |n.children| ensures Lacks(n.children[i], ns, local) {
      OutsideNamespaceLacks(n.children[i], ns, local);
    }
  }

  /** A subtree without such an element yields none to the search. */
  lemma {:induction false} FindAllLacking(n: QNode, ns: string, local: string)
    requires Lacks(n, ns, local)
    ensures FindAll(n, ns, local) == []
    decreases n, 1, 0
  {
    FindBelowLacking(n, ns, local, |n.children|);
  }

  lemma {:induction false} FindBelowLacking(n: QNode, ns: string, local: string, k: nat)
    requires k <= |n.children|
    requires forall i :: 0 <= i < |n.children| ==> Lacks(n.children[i], ns, local)
    ensures FindBelow(n, ns, local, k) == []
    decreases n, 0, k
  {
    if k > 0 {
      FindBelowLacking(n, ns, local, k - 1);
      FindAllLacking(n.children[k - 1], ns, local);
    }
  }

  /** Below the children, a search finds exactly the children themselves
      when each child is named `ns:local` and nothing inside them is. */
  lemma {:induction false} FindBelowFlat(n: QNode, ns: string, local: string, k: nat)
    requires k <= |n.children|
    requires forall i :: 0 <= i < |n.children| ==> Named(n.children[i], ns, local)
    requires forall i, j :: 0 <= i < |n.children| && 0 <= j < |n.children[i].children| ==>
      Lacks(n.children[i].children[j], ns, local)
    ensures FindBelow(n, ns, local, k) == n.children[..k]
  {
    if k > 0 {
      var c := n.children[k - 1];
      FindBelowFlat(n, ns, local, k - 1);
      FindBelowLacking(c, ns, local, |c.children|);
      assert FindAll(c, ns, local) == [c];
      assert n.children[..k] == n.children[..k - 1] + [c];
    }
  }
}
