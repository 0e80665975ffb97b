/**
 * The parsed document tree that the matcher walks over. A node is one XML
 * element: its qualified name, its attributes in document order, its raw inner
 * markup and its element children. The decoder that builds the tree is not
 * part of this model; a tree is taken as given.
 */
module XmlTree {

  /** A qualified name: namespace (possibly empty) and local name. */
  datatype Name = Name(space: string, local: string)

  /** One attribute; duplicates are allowed and the order is the document's. */
  datatype Attr = Attr(name: Name, value: string)

  /**
   * An element. `content` is the serialized inner XML, undecoded; the
   * children are the element children only.
   */
  datatype Node = Node(xmlName: Name, attrs: seq<Attr>, content: string, nodes: seq<Node>)

  /** Depth-first pre-order listing of a forest: each node, then its subtree, then its siblings. */
  function PreOrder(nodes: seq<Node>): seq<Node>
  {
    if nodes == [] then []
    else [nodes[0]] + PreOrder(nodes[0].nodes) + PreOrder(nodes[1..])
  }

  /** Number of nodes of a forest, counted tree by tree. */
  function Size(nodes: seq<Node>): nat
  {
    if nodes == [] then 0 else TreeSize(nodes[0]) + Size(nodes[1..])
  }

  function TreeSize(t: Node): nat
  {
    1 + Size(t.nodes)
  }

  /** The listing of two forests side by side is the listing of the first, then of the second. */
  lemma {:induction false} PreOrderAppend(a: seq<Node>, b: seq<Node>)
    ensures PreOrder(a + b) == PreOrder(a) + PreOrder(b)
    decreases |a|
  {
    if a == [] {
      assert a + b == b;
    } else {
      assert (a + b)[0] == a[0];
      assert (a + b)[1..] == a[1..] + b;
      PreOrderAppend(a[1..], b);
    }
  }

  /** A single tree is listed as its root followed by the listing of its children. */
  lemma PreOrderTree(t: Node)
    ensures PreOrder([t]) == [t] + PreOrder(t.nodes)
  {
    assert [t][1..] == [];
  }

  /** Every node of the forest is listed exactly once: the listing has as many entries as the forest has nodes. */
  lemma {:induction false} PreOrderLength(nodes: seq<Node>)
    ensures |PreOrder(nodes)| == Size(nodes)
  {
    if nodes != [] {
      PreOrderLength(nodes[0].nodes);
      PreOrderLength(nodes[1..]);
    }
  }
  /** Every node of a forest's top level appears in its listing. */
  lemma {:induction false} PreOrderContains(nodes: seq<Node>, k: nat)
    requires k < |nodes|
    ensures nodes[k] in PreOrder(nodes)
  {
    if k > 0 {
      PreOrderContains(nodes[1..], k - 1);
    }
  }

  /** The children of a listed node are listed too: a listing holds every descendant. */
  lemma {:induction false} PreOrderClosed(nodes: seq<Node>, n: Node, k: nat)
    requires n in PreOrder(nodes) && k < |n.nodes|
    ensures n.nodes[k] in PreOrder(nodes)
  {
    if nodes[0] == n {
      PreOrderContains(n.nodes, k);
    } else if n in PreOrder(nodes[0].nodes) {
      PreOrderClosed(nodes[0].nodes, n, k);
    } else {
      PreOrderClosed(nodes[1..], n, k);
    }
  }
}
