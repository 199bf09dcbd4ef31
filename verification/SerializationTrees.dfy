/** The meaning of a node sequence: lists of named or unnamed elements, nested by open and close. */
module SerializationTrees {
  import opened Sequences
  import opened Serialization

  datatype Tree = Atom(value: Content) | Struct(structid: int, elems: seq<Elem>)

  datatype Elem = Elem(name: Option<Content>, tree: Tree)

  // ---------------------------------------------------------------- from trees to nodes

  function TreeNodes(t: Tree): (r: seq<Node>)
    ensures |r| > 0
    decreases t
  {
    match t
    case Atom(v) => [Value(v)]
    case Struct(id, elems) => [Open(id)] + ElemsNodes(elems) + [Close]
  }

  function ElemNodes(e: Elem): (r: seq<Node>)
    ensures |r| > 0
    decreases e, 0
  {
    (if e.name.Some? then [Name(e.name.value)] else []) + TreeNodes(e.tree)
  }

  function ElemsNodes(elems: seq<Elem>): seq<Node>
    decreases elems
  {
    if elems == [] then [] else ElemNodes(elems[0]) + ElemsNodes(elems[1..])
  }

  /** An element begins with its name or else with a value or an open. */
  lemma {:induction false} ElemFirst(e: Elem)
    ensures ElemNodes(e)[0].Name? <==> e.name.Some?
    ensures !ElemNodes(e)[0].Close?
    ensures e.name.None? ==> ElemNodes(e) == TreeNodes(e.tree)
  {
    if e.name.None? { assert ElemNodes(e) == TreeNodes(e.tree); }
  }

  // ---------------------------------------------------------------- from nodes to trees

  /** The number of nodes, with those of embedded serializations. */
  ghost function Weight(nodes: seq<Node>): nat
    decreases nodes
  {
    if nodes == [] then 0 else NodeWeight(nodes[0]) + Weight(nodes[1..])
  }

  ghost function NodeWeight(nd: Node): (w: nat)
    ensures w > 0
    decreases nd
  {
    match nd
    case Value(v) => 1 + ContentWeight(v)
    case Name(c) => 1 + ContentWeight(c)
    case _ => 1
  }

  ghost function ContentWeight(c: Content): nat
    decreases c
  {
    match c
    case Embedded(_, nodes) => 1 + Weight(nodes)
    case _ => 0
  }

  /** A value at the beginning of the nodes and what follows it; an embedded serialization counts as the structure
      it contains. */
  function ParseTree(nodes: seq<Node>): (r: Option<(Tree, seq<Node>)>)
    ensures r.Some? ==> Weight(r.value.1) < Weight(nodes)
    decreases Weight(nodes), 0
  {
    if nodes == [] then None
    else
      match nodes[0]
      case Close => None
      case Name(_) => None
      case Value(v) =>
        if v.Embedded? then
          assert NodeWeight(nodes[0]) == 1 + ContentWeight(v) == 2 + Weight(v.nodes);
          var inner := ParseElems(v.nodes);
          if inner.Some? && inner.value.1 == [] then Some((Struct(v.structid, inner.value.0), nodes[1..])) else None
        else Some((Atom(v), nodes[1..]))
      case Open(id) =>
        var inner := ParseElems(nodes[1..]);
        if inner.Some? && inner.value.1 != [] then Some((Struct(id, inner.value.0), inner.value.1[1..])) else None
  }

  function ParseElem(nodes: seq<Node>): (r: Option<(Elem, seq<Node>)>)
    ensures r.Some? ==> Weight(r.value.1) < Weight(nodes)
    decreases Weight(nodes), 1
  {
    if nodes != [] && nodes[0].Name? then
      if nodes[0].name.Embedded? then None
      else
        var t := ParseTree(nodes[1..]);
        if t.None? then None else Some((Elem(Some(nodes[0].name), t.value.0), t.value.1))
    else
      var t := ParseTree(nodes);
      if t.None? then None else Some((Elem(None, t.value.0), t.value.1))
  }

  /** All elements up to the end or the next unmatched close. */
  function ParseElems(nodes: seq<Node>): (r: Option<(seq<Elem>, seq<Node>)>)
    ensures r.Some? ==> Weight(r.value.1) <= Weight(nodes) && (r.value.1 == [] || r.value.1[0].Close?)
    decreases Weight(nodes), 2
  {
    if nodes == [] || nodes[0].Close? then Some(([], nodes))
    else
      var e := ParseElem(nodes);
      if e.None? then None
      else
        var es := ParseElems(e.value.1);
        if es.None? then None else Some(([e.value.0] + es.value.0, es.value.1))
  }

  /** The elements a whole serialization stands for, if it is well formed. */
  function Meaning(nodes: seq<Node>): Option<seq<Elem>> {
    var r := ParseElems(nodes);
    if r.Some? && r.value.1 == [] then Some(r.value.0) else None
  }

  // ---------------------------------------------------------------- trees without embedded serializations

  predicate FlatTree(t: Tree)
    decreases t
  {
    match t
    case Atom(v) => !v.Embedded?
    case Struct(_, elems) => FlatElems(elems)
  }

  predicate FlatElem(e: Elem)
    decreases e, 0
  {
    (e.name.Some? ==> !e.name.value.Embedded?) && FlatTree(e.tree)
  }

  predicate FlatElems(elems: seq<Elem>)
    decreases elems
  {
    elems == [] || (FlatElem(elems[0]) && FlatElems(elems[1..]))
  }

  ghost predicate EndsElems(nodes: seq<Node>) {
    nodes == [] || nodes[0].Close?
  }

  /** Reading back what was written, whatever follows. */
  lemma {:induction false} ParseTreeNodes(t: Tree, rest: seq<Node>)
    requires FlatTree(t)
    ensures ParseTree(TreeNodes(t) + rest) == Some((t, rest))
    decreases t, 0
  {
    match t
    case Atom(v) =>
      assert (TreeNodes(t) + rest)[1..] == rest;
    case Struct(id, elems) =>
      ParseElemsNodes(elems, [Close] + rest);
      assert (TreeNodes(t) + rest)[1..] == ElemsNodes(elems) + ([Close] + rest);
      assert ([Close] + rest)[1..] == rest;
  }

  lemma {:induction false} ParseElemNodes(e: Elem, rest: seq<Node>)
    requires FlatElem(e)
    ensures ParseElem(ElemNodes(e) + rest) == Some((e, rest))
    decreases e, 1
  {
    ParseTreeNodes(e.tree, rest);
    if e.name.Some? {
      assert (ElemNodes(e) + rest)[1..] == TreeNodes(e.tree) + rest;
    } else {
      assert ElemNodes(e) == TreeNodes(e.tree);
    }
  }

  lemma {:induction false} ElemsNodesFirst(elems: seq<Elem>, rest: seq<Node>)
    requires elems != []
    ensures var nodes := ElemsNodes(elems) + rest;
            nodes == ElemNodes(elems[0]) + (ElemsNodes(elems[1..]) + rest) && nodes != [] && !nodes[0].Close?
  {
    var nodes := ElemsNodes(elems) + rest;
    assert nodes == ElemNodes(elems[0]) + (ElemsNodes(elems[1..]) + rest);
    ElemFirst(elems[0]);
    assert nodes[0] == ElemNodes(elems[0])[0];
  }

  lemma {:induction false} ParseElemsStep(nodes: seq<Node>, e: Elem, tail: seq<Node>, es: seq<Elem>, rest: seq<Node>)
    requires nodes != [] && !nodes[0].Close? && ParseElem(nodes) == Some((e, tail)) && ParseElems(tail) == Some((es, rest))
    ensures ParseElems(nodes) == Some(([e] + es, rest))
  {
  }

  lemma {:induction false} ParseElemsNodes(elems: seq<Elem>, rest: seq<Node>)
    requires FlatElems(elems) && EndsElems(rest)
    ensures ParseElems(ElemsNodes(elems) + rest) == Some((elems, rest))
    decreases elems, 2
  {
    if elems == [] {
      assert ElemsNodes(elems) + rest == rest;
    } else {
      var nodes, tail := ElemsNodes(elems) + rest, ElemsNodes(elems[1..]) + rest;
      ElemsNodesFirst(elems, rest);
      ParseElemsNodes(elems[1..], rest);
      ParseElemNodes(elems[0], tail);
      ParseElemsStep(nodes, elems[0], tail, elems[1..], rest);
      assert elems == [elems[0]] + elems[1..];
    }
  }

  /** Writing and reading are inverse. */
  lemma {:induction false} MeaningOfElems(elems: seq<Elem>)
    requires FlatElems(elems)
    ensures Meaning(ElemsNodes(elems)) == Some(elems)
  {
    ParseElemsNodes(elems, []);
    assert ElemsNodes(elems) + [] == ElemsNodes(elems);
  }

  /** What is read is without embedded serializations. */
  lemma {:induction false} ParsedTreeIsFlat(nodes: seq<Node>)
    ensures ParseTree(nodes).Some? ==> FlatTree(ParseTree(nodes).value.0)
    decreases Weight(nodes), 0
  {
    if nodes != [] {
      if nodes[0].Open? { ParsedElemsAreFlat(nodes[1..]); }
      if nodes[0].Value? && nodes[0].value.Embedded? {
        var v := nodes[0].value;
        assert NodeWeight(nodes[0]) == 1 + ContentWeight(v) == 2 + Weight(v.nodes);
        ParsedElemsAreFlat(v.nodes);
      }
    }
  }

  lemma {:induction false} ParsedElemIsFlat(nodes: seq<Node>)
    ensures ParseElem(nodes).Some? ==> FlatElem(ParseElem(nodes).value.0)
    decreases Weight(nodes), 1
  {
    if nodes != [] && nodes[0].Name? { ParsedTreeIsFlat(nodes[1..]); } else { ParsedTreeIsFlat(nodes); }
  }

  lemma {:induction false} ParsedElemsAreFlat(nodes: seq<Node>)
    ensures ParseElems(nodes).Some? ==> FlatElems(ParseElems(nodes).value.0)
    decreases Weight(nodes), 2
  {
    if nodes != [] && !nodes[0].Close? {
      ParsedElemIsFlat(nodes);
      var e := ParseElem(nodes);
      if e.Some? {
        ParsedElemsAreFlat(e.value.1);
        var es := ParseElems(e.value.1);
        if es.Some? { assert ([e.value.0] + es.value.0)[1..] == es.value.0; }
      }
    }
  }
}
