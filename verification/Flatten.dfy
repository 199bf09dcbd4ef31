/** Flattening: embedded serializations are replaced by what they contain, between an open and a close. */
module Flatten {
  import opened Sequences
  import opened Serialization
  import opened SerializationTrees

  function Flattened(nodes: seq<Node>): seq<Node>
    decreases nodes
  {
    if nodes == [] then [] else FlattenedNode(nodes[0]) + Flattened(nodes[1..])
  }

  function FlattenedNode(nd: Node): seq<Node>
    decreases nd
  {
    match nd
    case Name(c) => FlattenedContent(nd, c)
    case Value(c) => FlattenedContent(nd, c)
    case _ => [nd]
  }

  function FlattenedContent(nd: Node, c: Content): seq<Node>
    decreases c
  {
    match c
    case Embedded(id, nodes) => [Open(id)] + Flattened(nodes) + [Close]
    case _ => [nd]
  }

  predicate IsEmbedded(nd: Node) {
    match nd
    case Name(c) => c.Embedded?
    case Value(c) => c.Embedded?
    case _ => false
  }

  ghost predicate NoneEmbedded(nodes: seq<Node>) {
    forall nd :: nd in nodes ==> !IsEmbedded(nd)
  }

  // ---------------------------------------------------------------- meaning

  lemma {:induction false} FlattenedFirst(nodes: seq<Node>)
    requires nodes != []
    ensures Flattened(nodes) == FlattenedNode(nodes[0]) + Flattened(nodes[1..])
    ensures !IsEmbedded(nodes[0]) ==> FlattenedNode(nodes[0]) == [nodes[0]]
  {
    var nd := nodes[0];
    if nd.Name? { assert FlattenedNode(nd) == FlattenedContent(nd, nd.name); }
    if nd.Value? { assert FlattenedNode(nd) == FlattenedContent(nd, nd.value); }
  }

  lemma {:induction false} FlattenedConcat(a: seq<Node>, b: seq<Node>)
    ensures Flattened(a + b) == Flattened(a) + Flattened(b)
  {
    if a == [] {
      assert a + b == b;
    } else {
      FlattenedConcat(a[1..], b);
      FlattenedFirst(a);
      FlattenedFirst(a + b);
      TailOfConcat(a, b);
      Associative(FlattenedNode(a[0]), Flattened(a[1..]), Flattened(b));
    }
  }

  /** Flattening the part that was read is writing what was read. */
  lemma {:induction false} FlattenedTree(nodes: seq<Node>)
    requires ParseTree(nodes).Some?
    ensures var (t, rest) := ParseTree(nodes).value; Flattened(nodes) == TreeNodes(t) + Flattened(rest)
    decreases Weight(nodes), 0
  {
    FlattenedFirst(nodes);
    match nodes[0]
    case Value(v) =>
      if v.Embedded? {
        assert NodeWeight(nodes[0]) == 1 + ContentWeight(v) == 2 + Weight(v.nodes);
        FlattenedElems(v.nodes);
        assert Flattened([]) == [];
        assert FlattenedNode(nodes[0]) == [Open(v.structid)] + Flattened(v.nodes) + [Close];
      }
    case Open(id) =>
      FlattenedElems(nodes[1..]);
      var (elems, rest) := ParseElems(nodes[1..]).value;
      FlattenedFirst(rest);
      assert [Open(id)] + (ElemsNodes(elems) + ([Close] + Flattened(rest[1..]))) == TreeNodes(Struct(id, elems)) + Flattened(rest[1..]);
  }

  lemma {:induction false} FlattenedElem(nodes: seq<Node>)
    requires ParseElem(nodes).Some?
    ensures var (e, rest) := ParseElem(nodes).value; Flattened(nodes) == ElemNodes(e) + Flattened(rest)
    decreases Weight(nodes), 1
  {
    if nodes != [] && nodes[0].Name? {
      FlattenedFirst(nodes);
      FlattenedTree(nodes[1..]);
      var (t, rest) := ParseTree(nodes[1..]).value;
      assert [nodes[0]] + (TreeNodes(t) + Flattened(rest)) == [nodes[0]] + TreeNodes(t) + Flattened(rest);
    } else {
      FlattenedTree(nodes);
      var (t, rest) := ParseTree(nodes).value;
      assert ElemNodes(Elem(None, t)) == TreeNodes(t);
    }
  }

  lemma {:induction false} FlattenedElems(nodes: seq<Node>)
    requires ParseElems(nodes).Some?
    ensures var (elems, rest) := ParseElems(nodes).value; Flattened(nodes) == ElemsNodes(elems) + Flattened(rest)
    decreases Weight(nodes), 2
  {
    if nodes == [] || nodes[0].Close? {
      assert ElemsNodes([]) + Flattened(nodes) == Flattened(nodes);
    } else {
      FlattenedElem(nodes);
      var (e, rest) := ParseElem(nodes).value;
      FlattenedElems(rest);
      var (es, rest2) := ParseElems(rest).value;
      assert ([e] + es)[1..] == es;
      assert ElemNodes(e) + (ElemsNodes(es) + Flattened(rest2)) == ElemsNodes([e] + es) + Flattened(rest2);
    }
  }

  /** The flattened form of a well-formed serialization is the one and only way to write its meaning without
      embedded serializations. */
  lemma {:induction false} FlattenedIsWrittenMeaning(nodes: seq<Node>)
    requires Meaning(nodes).Some?
    ensures FlatElems(Meaning(nodes).value)
    ensures Flattened(nodes) == ElemsNodes(Meaning(nodes).value)
  {
    FlattenedElems(nodes);
    ParsedElemsAreFlat(nodes);
    assert Flattened([]) == [];
  }

  /** Flattening keeps the meaning. */
  lemma {:induction false} FlatteningKeepsMeaning(nodes: seq<Node>)
    requires Meaning(nodes).Some?
    ensures Meaning(Flattened(nodes)) == Meaning(nodes)
  {
    FlattenedIsWrittenMeaning(nodes);
    MeaningOfElems(Meaning(nodes).value);
  }

  // ---------------------------------------------------------------- nothing is left embedded

  lemma {:induction false} FlattenedHasNoneEmbedded(nodes: seq<Node>)
    ensures NoneEmbedded(Flattened(nodes))
    decreases nodes, 2
  {
    if nodes != [] {
      FlattenedNodeHasNoneEmbedded(nodes[0]);
      FlattenedHasNoneEmbedded(nodes[1..]);
    }
  }

  lemma {:induction false} FlattenedNodeHasNoneEmbedded(nd: Node)
    ensures NoneEmbedded(FlattenedNode(nd))
    decreases nd, 1
  {
    match nd
    case Name(c) => FlattenedContentHasNoneEmbedded(nd, c);
    case Value(c) => FlattenedContentHasNoneEmbedded(nd, c);
    case _ =>
  }

  lemma {:induction false} FlattenedContentHasNoneEmbedded(nd: Node, c: Content)
    requires nd == Name(c) || nd == Value(c)
    ensures NoneEmbedded(FlattenedContent(nd, c))
    decreases c, 0
  {
    match c
    case Embedded(id, nodes) => FlattenedHasNoneEmbedded(nodes);
    case _ =>
  }

  /** Without embedded serializations flattening changes nothing, so doing it again changes nothing. */
  lemma {:induction false} FlattenedUnchanged(nodes: seq<Node>)
    requires NoneEmbedded(nodes)
    ensures Flattened(nodes) == nodes
  {
    if nodes != [] {
      FlattenedUnchanged(nodes[1..]);
      FlattenedFirst(nodes);
      assert nodes[0] in nodes && nodes == [nodes[0]] + nodes[1..];
    }
  }

  lemma {:induction false} FlatteningIsIdempotent(nodes: seq<Node>)
    ensures Flattened(Flattened(nodes)) == Flattened(nodes)
  {
    FlattenedHasNoneEmbedded(nodes);
    FlattenedUnchanged(Flattened(nodes));
  }

  // ---------------------------------------------------------------- the operation

  method HasInnerSerialization(nodes: seq<Node>) returns (found: bool)
    ensures found <==> !NoneEmbedded(nodes)
  {
    var k := 0;
    while k < |nodes|
      invariant 0 <= k <= |nodes| && forall i :: 0 <= i < k ==> !IsEmbedded(nodes[i])
    {
      if IsEmbedded(nodes[k]) { return true; }
      k := k + 1;
    }
    return false;
  }

  /** Appends the flattened nodes to a serialization. */
  method FlattenInto(dest: NodeStore, nodes: seq<Node>)
    requires dest.Valid()
    modifies dest, dest.Repr
    ensures dest.Valid() && old(dest.Repr) <= dest.Repr && fresh(dest.Repr - old(dest.Repr))
    ensures dest.Contents == old(dest.Contents) + Flattened(nodes) && dest.Snapshots == old(dest.Snapshots)
    decreases Weight(nodes), 1
  {
    var k := 0;
    assert nodes[..0] == [];
    while k < |nodes|
      invariant 0 <= k <= |nodes|
      invariant dest.Valid() && old(dest.Repr) <= dest.Repr && fresh(dest.Repr - old(dest.Repr))
      invariant dest.Contents == old(dest.Contents) + Flattened(nodes[..k]) && dest.Snapshots == old(dest.Snapshots)
    {
      FlattenStep(nodes, k);
      FlattenNode(dest, nodes, k);
      k := k + 1;
    }
    assert nodes[..k] == nodes;
  }

  /** Appends a node, or what is embedded in it between an open and a close. */
  method FlattenNode(dest: NodeStore, nodes: seq<Node>, k: nat)
    requires dest.Valid() && k < |nodes|
    modifies dest, dest.Repr
    ensures dest.Valid() && old(dest.Repr) <= dest.Repr && fresh(dest.Repr - old(dest.Repr))
    ensures dest.Contents == old(dest.Contents) + FlattenedNode(nodes[k]) && dest.Snapshots == old(dest.Snapshots)
    decreases Weight(nodes), 0
  {
    var nd := nodes[k];
    if IsEmbedded(nd) {
      var c := if nd.Name? then nd.name else nd.value;
      EmbeddedIsLighter(nodes, k, c);
      dest.PushNode(Open(c.structid));
      FlattenInto(dest, c.nodes);
      dest.PushNode(Close);
    } else {
      FlattenedFirst([nd]);
      dest.PushNode(nd);
    }
  }

  lemma {:induction false} EmbeddedIsLighter(nodes: seq<Node>, k: nat, c: Content)
    requires k < |nodes| && (nodes[k] == Name(c) || nodes[k] == Value(c)) && c.Embedded?
    ensures Weight(c.nodes) < Weight(nodes)
    ensures FlattenedNode(nodes[k]) == [Open(c.structid)] + Flattened(c.nodes) + [Close]
  {
    if k > 0 {
      EmbeddedIsLighter(nodes[1..], k - 1, c);
    } else {
      assert NodeWeight(nodes[0]) == 1 + ContentWeight(c);
      assert FlattenedNode(nodes[k]) == FlattenedContent(nodes[k], c);
    }
  }

  lemma {:induction false} FlattenStep(nodes: seq<Node>, k: nat)
    requires k < |nodes|
    ensures Flattened(nodes[..k + 1]) == Flattened(nodes[..k]) + FlattenedNode(nodes[k])
  {
    assert nodes[..k + 1] == nodes[..k] + [nodes[k]];
    FlattenedConcat(nodes[..k], [nodes[k]]);
    FlattenedFirst([nodes[k]]);
    assert Flattened([]) == [];
  }

  /** Replaces a serialization by its flattened form, or leaves it alone if nothing is embedded. */
  method FlattenSerialization(ser: NodeStore) returns (res: NodeStore)
    requires ser.Valid()
    ensures res.Valid() && res.Contents == Flattened(ser.Contents)
    ensures NoneEmbedded(ser.Contents) ==> res == ser
    ensures !NoneEmbedded(ser.Contents) ==> fresh(res)
  {
    ghost var nodes := ser.Contents;
    var all := ReadAll(ser);
    var inner := HasInnerSerialization(all);
    if inner {
      res := new NodeStore();
      FlattenInto(res, all);
    } else {
      FlattenedUnchanged(nodes);
      res := ser;
    }
  }
}
