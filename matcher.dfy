/**
 * The matcher: the attribute test, the four-stage cascade the visitor of
 * matchXML applies to every node, and the walk of one parsed document with
 * that visitor. Reading the file, decoding the XML, printing and
 * html.UnescapeString are outside the model: the tree is given, a printed
 * match is a record in the output, and unescaping is a parameter.
 */
module Matcher {
  import opened Wrappers
  import opened XmlTree
  import opened Regex
  import opened Highlight
  import opened Walker
  import GoStrings

  /** One attribute satisfies one pair: the key pattern on its local name and the value pattern on its value. */
  predicate Satisfies(y: Attr, x: AttrReg)
  {
    x.key.matches(y.name.local) && x.value.matches(y.value)
  }

  /** Some single attribute satisfies both halves of the pair. */
  predicate PairSatisfied(a: seq<Attr>, x: AttrReg)
  {
    exists j :: 0 <= j < |a| && Satisfies(a[j], x)
  }

  /** The attribute stage: every pair is satisfied by at least one attribute. */
  predicate AttrsMatch(a: seq<Attr>, attrreg: seq<AttrReg>)
  {
    forall i :: 0 <= i < |attrreg| ==> PairSatisfied(a, attrreg[i])
  }

  /**
   * matchAttr: for each pair, search the attributes for one that satisfies
   * it, stopping at the first; give up as soon as a pair finds none.
   */
  method MatchAttr(a: seq<Attr>, attrreg: seq<AttrReg>) returns (ok: bool)
    ensures ok <==> AttrsMatch(a, attrreg)
    ensures attrreg == [] ==> ok
    ensures attrreg != [] && a == [] ==> !ok
  {
    for k := 0 to |attrreg|
      invariant forall i :: 0 <= i < k ==> PairSatisfied(a, attrreg[i])
    {
      var x := attrreg[k];
      var found := false;
      for j := 0 to |a|
        invariant !found ==> forall l :: 0 <= l < j ==> !Satisfies(a[l], x)
        invariant found ==> PairSatisfied(a, x)
      {
        if x.key.matches(a[j].name.local) {
          if x.value.matches(a[j].value) {
            found := true;
            break;
          }
        }
      }
      if !found {
        return false;
      }
    }
    assert attrreg != [] ==> PairSatisfied(a, attrreg[0]);
    return true;
  }

  /** The attribute stage is a conjunction over the pairs. */
  lemma {:induction false} AttrsMatchPairs(a: seq<Attr>, p: seq<AttrReg>, q: seq<AttrReg>)
    ensures AttrsMatch(a, p + q) <==> AttrsMatch(a, p) && AttrsMatch(a, q)
  {
    if AttrsMatch(a, p) && AttrsMatch(a, q) {
      forall i | 0 <= i < |p + q| ensures PairSatisfied(a, (p + q)[i]) {
        if i < |p| {
          assert (p + q)[i] == p[i];
        } else {
          assert (p + q)[i] == q[i - |p|];
        }
      }
    }
    if AttrsMatch(a, p + q) {
      forall i | 0 <= i < |p| ensures PairSatisfied(a, p[i]) {
        assert (p + q)[i] == p[i];
      }
      forall i | 0 <= i < |q| ensures PairSatisfied(a, q[i]) {
        assert (p + q)[|p| + i] == q[i];
      }
    }
  }

  /** Further attributes, before or after, never make a matching node stop matching. */
  lemma {:induction false} AttrsMatchMoreAttrs(a: seq<Attr>, b: seq<Attr>, p: seq<AttrReg>)
    requires AttrsMatch(a, p)
    ensures AttrsMatch(a + b, p) && AttrsMatch(b + a, p)
  {
    forall i | 0 <= i < |p| ensures PairSatisfied(a + b, p[i]) && PairSatisfied(b + a, p[i]) {
      var j :| 0 <= j < |a| && Satisfies(a[j], p[i]);
      assert (a + b)[j] == a[j];
      assert (b + a)[|b| + j] == a[j];
    }
  }

  /** A pattern that matches every string it is asked about. Its submatch
    * function returns nothing, so it stands for the empty pattern only where
    * matching is concerned: the empty pattern of Go finds [""], and with
    * -color that inserts an empty coloured span at every rune boundary. */
  function MatchAll(): Regexp
  {
    Regexp(s => true, s => [])
  }

  /** A stand-in for a pattern of literal runes: it matches where `t` occurs (unanchored search). */
  function Literal(t: string): Regexp
  {
    Regexp(s => GoStrings.Contains(s, t), s => [])
  }

  /** A stand-in for \d+: it matches strings that contain a digit. */
  function Digits(): Regexp
  {
    Regexp(s => exists k :: 0 <= k < |s| && '0' <= s[k] <= '9', s => [])
  }

  /** The stand-ins match without finding submatches: they serve for matching only. */
  lemma StandInsMatchOnly()
    ensures !Consistent(MatchAll()) && !Consistent(Literal("y")) && !Consistent(Digits())
  {
    assert MatchAll().matches("") && MatchAll().findSubmatch("") == [];
    assert GoStrings.OccursAt("y", "y", 0);
    assert Literal("y").matches("y") && Literal("y").findSubmatch("y") == [];
    assert "0"[0] == '0';
    assert Digits().matches("0") && Digits().findSubmatch("0") == [];
  }

  lemma NoMatchInX()
    ensures !Literal("y").matches("x") && !Digits().matches("x")
  {
    forall i: nat | i <= |"x"| ensures !GoStrings.OccursAt("x", "y", i) {
      if i == 0 { assert "x"[0..1] == "x"; }
    }
    assert forall k :: 0 <= k < |"x"| ==> "x"[k] == 'x';
  }

  lemma IdNotInClass()
    ensures !Literal("id").matches("class")
  {
    forall i: nat | i <= |"class"| ensures !GoStrings.OccursAt("class", "id", i) {
      if i + 2 <= 5 { assert "class"[i..i + 2][0] == "class"[i]; }
    }
  }

  /**
   * On the attributes {id="5", class="x"}, the pairs (id, \d+) and (class, y)
   * do not match, because no attribute has a value containing a y.
   */
  lemma AttrExampleBothPairs()
    ensures !AttrsMatch([Attr(Name("", "id"), "5"), Attr(Name("", "class"), "x")],
                        [AttrReg(Literal("id"), Digits()), AttrReg(Literal("class"), Literal("y"))])
  {
    var attrs := [Attr(Name("", "id"), "5"), Attr(Name("", "class"), "x")];
    var pairs := [AttrReg(Literal("id"), Digits()), AttrReg(Literal("class"), Literal("y"))];
    NoMatchInX();
    assert !Satisfies(attrs[1], pairs[1]);
    assert !Satisfies(attrs[0], pairs[1]);
    assert !PairSatisfied(attrs, pairs[1]);
  }

  /** On the same attributes, the pair (id, \d+) alone matches. */
  lemma AttrExampleOnePair()
    ensures AttrsMatch([Attr(Name("", "id"), "5"), Attr(Name("", "class"), "x")], [AttrReg(Literal("id"), Digits())])
  {
    var attrs := [Attr(Name("", "id"), "5"), Attr(Name("", "class"), "x")];
    var pair := AttrReg(Literal("id"), Digits());
    assert GoStrings.OccursAt("id", "id", 0);
    assert Literal("id").matches("id");
    assert "5"[0] == '5';
    assert Digits().matches("5");
    assert Satisfies(attrs[0], pair);
    assert PairSatisfied(attrs, pair);
  }

  /**
   * Both halves of a pair must hold of the same attribute: on {id="x",
   * class="5"} the pair (id, \d+) does not match, although one attribute
   * has the key and another the value.
   */
  lemma AttrExampleSameAttribute()
    ensures !AttrsMatch([Attr(Name("", "id"), "x"), Attr(Name("", "class"), "5")], [AttrReg(Literal("id"), Digits())])
  {
    var attrs := [Attr(Name("", "id"), "x"), Attr(Name("", "class"), "5")];
    var pair := AttrReg(Literal("id"), Digits());
    NoMatchInX();
    IdNotInClass();
    assert !Satisfies(attrs[0], pair);
    assert !Satisfies(attrs[1], pair);
    assert !PairSatisfied(attrs, pair);
    assert [pair][0] == pair;
  }

  /** The compiled filters of one run. */
  datatype Patterns = Patterns(nreg: Regexp, treg: Regexp, creg: Regexp, attrreg: seq<AttrReg>)

  /** What is printed for a matching node. */
  datatype Record = Record(filename: string, space: string, local: string, attrs: seq<Attr>, content: string)

  /** Whether a node is reported: its namespace, tag, attributes and raw content all pass. */
  predicate Selected(p: Patterns, n: Node)
  {
    && p.nreg.matches(n.xmlName.space)
    && p.treg.matches(n.xmlName.local)
    && AttrsMatch(n.attrs, p.attrreg)
    && p.creg.matches(n.content)
  }

  /** `s` as highLight renders it for `reg`. */
  function Rendered(s: string, reg: Regexp): string
  {
    Highlighted(s, reg.findSubmatch(s), FirstColor)
  }

  /**
   * The cascade of the visitor in matchXML: namespace, then tag, then
   * attributes, then the raw content, each checked only if the previous one
   * passed. With colours on, the namespace and tag are highlighted once they
   * pass, and the content is unescaped and highlighted for display.
   */
  function Report(filename: string, p: Patterns, colors: bool, unescape: string -> string, n: Node): (r: Option<Record>)
    ensures r.Some? <==> Selected(p, n)
    ensures r.Some? ==> r.value.filename == filename && r.value.attrs == n.attrs
    ensures r.Some? && !colors ==>
      r.value.space == n.xmlName.space && r.value.local == n.xmlName.local && r.value.content == n.content
    ensures r.Some? && colors ==>
      && r.value.space == Rendered(n.xmlName.space, p.nreg)
      && r.value.local == Rendered(n.xmlName.local, p.treg)
      && r.value.content == Rendered(unescape(n.content), p.creg)
  {
    if p.nreg.matches(n.xmlName.space) then
      var space := if colors then Rendered(n.xmlName.space, p.nreg) else n.xmlName.space;
      if p.treg.matches(n.xmlName.local) then
        var local := if colors then Rendered(n.xmlName.local, p.treg) else n.xmlName.local;
        if AttrsMatch(n.attrs, p.attrreg) then
          var c := n.content;
          if p.creg.matches(c) then
            var shown := if colors then Rendered(unescape(c), p.creg) else c;
            Some(Record(filename, space, local, n.attrs, shown))
          else None
        else None
      else None
    else None
  }

  /** The visitor of matchXML: report the node if it matches, and always descend without error. */
  function MatchVisit(filename: string, p: Patterns, colors: bool, unescape: string -> string, n: Node): (v: Visit<Record>)
    ensures v.descend && v.err == None
    ensures |v.output| <= 1 && (|v.output| == 1 <==> Selected(p, n))
  {
    match Report(filename, p, colors, unescape, n)
    case Some(r) => Visit(true, None, [r])
    case None => Visit(true, None, [])
  }

  function Visitor(filename: string, p: Patterns, colors: bool, unescape: string -> string): Node -> Visit<Record>
  {
    n => MatchVisit(filename, p, colors, unescape, n)
  }

  /**
   * The walk of matchXML over a decoded document: the visitor is called on
   * every node, in pre-order, and one record is emitted per matching node.
   */
  method MatchXML(filename: string, root: Node, p: Patterns, colors: bool, unescape: string -> string)
    returns (err: Option<string>, out: seq<Record>)
    ensures err == None
    ensures out == Output(Visitor(filename, p, colors, unescape), PreOrder([root]))
  {
    var visit := Visitor(filename, p, colors, unescape);
    WalkVisitsAll([root], visit);
    var e;
    e, out := Walk([root], visit);
    match e {
      case Some(msg) =>
        err := Some("unable to walk: " + msg);
      case None =>
        err := None;
    }
  }

  /**
   * A record is printed iff some node of the document, at any depth, passes
   * all four stages and renders as that record.
   */
  lemma ReportedIff(filename: string, root: Node, p: Patterns, colors: bool, unescape: string -> string, r: Record)
    ensures r in Output(Visitor(filename, p, colors, unescape), PreOrder([root]))
      <==> exists n :: n in PreOrder([root]) && Selected(p, n) && Report(filename, p, colors, unescape, n) == Some(r)
  {
    var visit := Visitor(filename, p, colors, unescape);
    var vs := PreOrder([root]);
    OutputMembership(visit, vs, r);
    if r in Output(visit, vs) {
      var i :| 0 <= i < |vs| && r in visit(vs[i]).output;
      assert Report(filename, p, colors, unescape, vs[i]) == Some(r);
    }
  }

  /**
   * A node's failure never hides its descendants: every matching descendant
   * of the root is reported, whatever the root and the nodes between them do.
   */
  lemma DescendantReported(filename: string, root: Node, parent: Node, k: nat, p: Patterns, colors: bool, unescape: string -> string)
    requires parent in PreOrder([root]) && k < |parent.nodes|
    requires Selected(p, parent.nodes[k])
    ensures Report(filename, p, colors, unescape, parent.nodes[k]).Some?
    ensures Report(filename, p, colors, unescape, parent.nodes[k]).value
      in Output(Visitor(filename, p, colors, unescape), PreOrder([root]))
  {
    var c := parent.nodes[k];
    PreOrderClosed([root], parent, k);
    ReportedIff(filename, root, p, colors, unescape, Report(filename, p, colors, unescape, c).value);
  }

  /**
   * With the default filters (patterns that match everything and no -attr
   * pair), every element of the document is reported, once each.
   */
  lemma DefaultFiltersReportAll(filename: string, root: Node, colors: bool, unescape: string -> string)
    ensures |Output(Visitor(filename, Patterns(MatchAll(), MatchAll(), MatchAll(), []), colors, unescape), PreOrder([root]))|
      == Size([root])
  {
    var p := Patterns(MatchAll(), MatchAll(), MatchAll(), []);
    var visit := Visitor(filename, p, colors, unescape);
    forall n ensures |visit(n).output| == 1 {
      assert Selected(p, n);
    }
    OutputLength(visit, PreOrder([root]));
    PreOrderLength([root]);
  }
}
