/**
 * The tree walker: a depth-first, pre-order traversal of a forest that calls
 * a visitor on each node. The visitor says whether to descend into the node's
 * children and may fail; the first failure ends the walk and is returned. The
 * visitor's side effect (what it prints) is modelled as the output it emits.
 */
module Walker {
  import opened Wrappers
  import opened XmlTree

  /** What one call of the visitor returns: descend?, an error, and what it emitted. */
  datatype Visit<R> = Visit(descend: bool, err: Option<string>, output: seq<R>)

  /** The nodes on which the visitor was called, in call order, and the error the walk returns. */
  datatype Walked = Walked(visited: seq<Node>, err: Option<string>)

  /** Which nodes a walk visits and what it returns. */
  function WalkSpec<R>(nodes: seq<Node>, visit: Node -> Visit<R>): Walked
  {
    if nodes == [] then Walked([], None)
    else
      var n := nodes[0];
      var v := visit(n);
      if v.err.Some? then Walked([n], v.err)
      else
        var sub := if v.descend then WalkSpec(n.nodes, visit) else Walked([], None);
        if sub.err.Some? then Walked([n] + sub.visited, sub.err)
        else
          var rest := WalkSpec(nodes[1..], visit);
          Walked([n] + sub.visited + rest.visited, rest.err)
  }

  /** Everything the visitor emits when called on `vs`, in order. */
  function Output<R>(visit: Node -> Visit<R>, vs: seq<Node>): seq<R>
  {
    if vs == [] then [] else Output(visit, vs[..|vs| - 1]) + visit(vs[|vs| - 1]).output
  }

  lemma {:induction false} OutputAppend<R>(visit: Node -> Visit<R>, a: seq<Node>, b: seq<Node>)
    ensures Output(visit, a + b) == Output(visit, a) + Output(visit, b)
    decreases |b|
  {
    if b == [] {
      assert a + b == a;
    } else {
      assert (a + b)[..|a + b| - 1] == a + b[..|b| - 1];
      OutputAppend(visit, a, b[..|b| - 1]);
    }
  }

  /** Unfolding helper: one step of the walk, the first node of a forest and
    * what follows it; it follows from the definition of WalkSpec alone. */
  lemma WalkUnfold<R>(nodes: seq<Node>, i: nat, visit: Node -> Visit<R>)
    requires i < |nodes|
    ensures var n, v := nodes[i], visit(nodes[i]);
      var sub := WalkSpec(n.nodes, visit);
      var rest := WalkSpec(nodes[i + 1..], visit);
      WalkSpec(nodes[i..], visit) ==
        if v.err.Some? then Walked([n], v.err)
        else if v.descend && sub.err.Some? then Walked([n] + sub.visited, sub.err)
        else if v.descend then Walked([n] + sub.visited + rest.visited, rest.err)
        else Walked([n] + rest.visited, rest.err)
  {
    assert nodes[i..][0] == nodes[i] && nodes[i..][1..] == nodes[i + 1..];
    assert [nodes[i]] + [] == [nodes[i]];
  }

  /**
   * walk: for each node in order, call the visitor; on an error return it at
   * once; if told to descend, walk the children first and return their error
   * if there is one.
   */
  method Walk<R>(nodes: seq<Node>, visit: Node -> Visit<R>) returns (err: Option<string>, out: seq<R>)
    ensures err == WalkSpec(nodes, visit).err
    ensures out == Output(visit, WalkSpec(nodes, visit).visited)
    decreases nodes
  {
    out := [];
    ghost var done: seq<Node> := [];
    var i := 0;
    while i < |nodes|
      invariant 0 <= i <= |nodes|
      invariant WalkSpec(nodes, visit).err == WalkSpec(nodes[i..], visit).err
      invariant WalkSpec(nodes, visit).visited == done + WalkSpec(nodes[i..], visit).visited
      invariant out == Output(visit, done)
    {
      var n := nodes[i];
      WalkUnfold(nodes, i, visit);
      ghost var before := done;
      ghost var rest := WalkSpec(nodes[i + 1..], visit).visited;
      var v := visit(n);
      OutputAppend(visit, done, [n]);
      SeqAssoc(done, [n], rest);
      out := out + v.output;
      done := done + [n];
      if v.err.Some? {
        return v.err, out;
      }
      if v.descend {
        var e, sub := Walk(n.nodes, visit);
        ghost var below := WalkSpec(n.nodes, visit).visited;
        OutputAppend(visit, done, below);
        SeqAssoc(done, below, rest);
        SeqAssoc(before, [n], below);
        SeqAssoc(before, [n] + below, rest);
        out := out + sub;
        done := done + below;
        if e.Some? {
          return e, out;
        }
      }
      i := i + 1;
    }
    assert nodes[i..] == [];
    assert done + [] == done;
    return None, out;
  }

  /** Regrouping helper: a concatenation of three sequences, stated once so
    * that Walk can cite it instead of leaving Dafny to search for it. */
  lemma SeqAssoc<T>(a: seq<T>, b: seq<T>, c: seq<T>)
    ensures a + (b + c) == a + b + c
  {
  }

  /** Something was emitted by the calls on `vs` iff one of those calls emitted it. */
  lemma {:induction false} OutputMembership<R>(visit: Node -> Visit<R>, vs: seq<Node>, r: R)
    ensures r in Output(visit, vs) <==> exists i :: 0 <= i < |vs| && r in visit(vs[i]).output
    decreases |vs|
  {
    if vs != [] {
      var init := vs[..|vs| - 1];
      OutputMembership(visit, init, r);
      if r in Output(visit, vs) && r !in visit(vs[|vs| - 1]).output {
        var i :| 0 <= i < |init| && r in visit(init[i]).output;
        assert vs[i] == init[i];
      }
      if exists i :: 0 <= i < |vs| && r in visit(vs[i]).output {
        var i :| 0 <= i < |vs| && r in visit(vs[i]).output;
        if i < |vs| - 1 {
          assert init[i] == vs[i];
        }
      }
    }
  }

  /** When every call emits exactly one record, there is one record per visited node. */
  lemma {:induction false} OutputLength<R>(visit: Node -> Visit<R>, vs: seq<Node>)
    requires forall n :: |visit(n).output| == 1
    ensures |Output(visit, vs)| == |vs|
    decreases |vs|
  {
    if vs != [] {
      OutputLength(visit, vs[..|vs| - 1]);
    }
  }

  /** Walking two forests side by side is walking the first, then (unless it failed) the second. */
  lemma {:induction false} WalkAppend<R>(a: seq<Node>, b: seq<Node>, visit: Node -> Visit<R>)
    ensures WalkSpec(a + b, visit) ==
      if WalkSpec(a, visit).err.Some? then WalkSpec(a, visit)
      else Walked(WalkSpec(a, visit).visited + WalkSpec(b, visit).visited, WalkSpec(b, visit).err)
    decreases |a|
  {
    if a == [] {
      assert a + b == b;
    } else {
      var n := a[0];
      assert (a + b)[0] == n;
      assert (a + b)[1..] == a[1..] + b;
      WalkAppend(a[1..], b, visit);
      var v := visit(n);
      if v.err.None? {
        var sub := if v.descend then WalkSpec(n.nodes, visit) else Walked([], None);
        if sub.err.None? {
          var ra := WalkSpec(a[1..], visit);
          var rb := WalkSpec(b, visit);
          assert [n] + sub.visited + (ra.visited + rb.visited) == ([n] + sub.visited + ra.visited) + rb.visited;
        }
      }
    }
  }

  /** A visitor that always descends and never fails is called on every node exactly once, in pre-order. */
  lemma {:induction false} WalkVisitsAll<R>(nodes: seq<Node>, visit: Node -> Visit<R>)
    requires forall n :: visit(n).descend && visit(n).err == None
    ensures WalkSpec(nodes, visit) == Walked(PreOrder(nodes), None)
  {
    if nodes != [] {
      WalkVisitsAll(nodes[0].nodes, visit);
      WalkVisitsAll(nodes[1..], visit);
    }
  }

  /**
   * A node for which the visitor says "do not descend" is visited, none of
   * its descendants is, and its following siblings still are.
   */
  lemma WalkPrunes<R>(pre: seq<Node>, n: Node, post: seq<Node>, visit: Node -> Visit<R>)
    requires !visit(n).descend && visit(n).err == None
    ensures WalkSpec(pre + [n] + post, visit) ==
      if WalkSpec(pre, visit).err.Some? then WalkSpec(pre, visit)
      else Walked(WalkSpec(pre, visit).visited + [n] + WalkSpec(post, visit).visited, WalkSpec(post, visit).err)
  {
    WalkAppend(pre, [n] + post, visit);
    assert pre + [n] + post == pre + ([n] + post);
    assert ([n] + post)[1..] == post;
  }

  /**
   * The error the walk returns is the first one: every visit before the last
   * one succeeded, and the last visited node is the one whose visit failed.
   * A walk without error saw no failing visit.
   */
  lemma {:induction false} WalkErrorIsFirst<R>(nodes: seq<Node>, visit: Node -> Visit<R>)
    ensures var w := WalkSpec(nodes, visit);
      && (w.err.Some? ==> |w.visited| > 0 && visit(w.visited[|w.visited| - 1]).err == w.err)
      && (forall i :: 0 <= i < |w.visited| - (if w.err.Some? then 1 else 0) ==> visit(w.visited[i]).err == None)
  {
    if nodes != [] {
      var n := nodes[0];
      var v := visit(n);
      if v.err.None? {
        WalkErrorIsFirst(n.nodes, visit);
        WalkErrorIsFirst(nodes[1..], visit);
      }
    }
  }

  /**
   * With a visitor that always descends, the nodes visited are a prefix of
   * the pre-order listing: after a failure no later node in pre-order is
   * visited, and without failure every node is.
   */
  lemma {:induction false} WalkVisitsPrefix<R>(nodes: seq<Node>, visit: Node -> Visit<R>)
    requires forall n :: visit(n).descend
    ensures WalkSpec(nodes, visit).visited <= PreOrder(nodes)
    ensures WalkSpec(nodes, visit).err == None ==> WalkSpec(nodes, visit).visited == PreOrder(nodes)
  {
    if nodes != [] {
      var n := nodes[0];
      WalkVisitsPrefix(n.nodes, visit);
      WalkVisitsPrefix(nodes[1..], visit);
      var sub := WalkSpec(n.nodes, visit);
      var rest := WalkSpec(nodes[1..], visit);
      if visit(n).err.None? && sub.err.None? {
        assert [n] + sub.visited + rest.visited == [n] + PreOrder(n.nodes) + rest.visited;
      }
    }
  }

  /** The order of the example root(child1(grandchild), child2): root, child1, grandchild, child2. */
  lemma WalkExample<R>(root: Node, child1: Node, grandchild: Node, child2: Node, visit: Node -> Visit<R>)
    requires root.nodes == [child1, child2] && child1.nodes == [grandchild]
    requires grandchild.nodes == [] && child2.nodes == []
    requires forall n :: visit(n).descend && visit(n).err == None
    ensures WalkSpec([root], visit).visited == [root, child1, grandchild, child2]
  {
    WalkVisitsAll([root], visit);
    PreOrderTree(root);
    PreOrderAppend([child1], [child2]);
    PreOrderTree(child1);
    PreOrderTree(grandchild);
    PreOrderTree(child2);
  }
}
