/** Skipping a whole structure with an iterator. */
module SkipStructure {
  import opened Sequences
  import opened Serialization
  import opened SerializationTrees

  function LevelStep(nd: Node): int {
    match nd
    case Open(_) => 1
    case Close => -1
    case _ => 0
  }

  /** The position behind the node that brings the number of open structures to zero. */
  function AfterLevels(nodes: seq<Node>, i: nat, level: nat): Option<nat>
    requires i <= |nodes|
    decreases |nodes| - i
  {
    if level == 0 then Some(i)
    else if i == |nodes| then None
    else AfterLevels(nodes, i + 1, level + LevelStep(nodes[i]))
  }

  /** The position behind the element that starts at p: an optional name and then a value or a structure. */
  function AfterElem(nodes: seq<Node>, p: nat): Option<nat>
    requires p <= |nodes|
  {
    var v := if p < |nodes| && nodes[p].Name? then p + 1 else p;
    if v == |nodes| then None
    else if nodes[v].Value? then Some(v + 1)
    else if nodes[v].Open? then AfterLevels(nodes, v + 1, 1)
    else None
  }

  /** Skips to behind the close that matches an open just skipped. */
  method SkipStructureOpen(itr: SerializationIter) returns (ok: bool)
    requires itr.Valid()
    modifies itr
    ensures itr.Valid()
    ensures ok <==> AfterLevels(itr.store.Contents, old(itr.pos), 1).Some?
    ensures itr.pos == if ok then AfterLevels(itr.store.Contents, old(itr.pos), 1).value else |itr.store.Contents|
  {
    hide NodeStore.Valid;
    var taglevel := 1;
    while taglevel > 0 && itr.value.Some?
      invariant itr.Valid() && taglevel >= 0
      invariant AfterLevels(itr.store.Contents, old(itr.pos), 1) == AfterLevels(itr.store.Contents, itr.pos, taglevel)
      decreases |itr.store.Contents| - itr.pos
    {
      var nd := itr.value.value;
      itr.Skip();
      match nd {
        case Value(_) =>
        case Open(_) => taglevel := taglevel + 1;
        case Close => taglevel := taglevel - 1;
        case Name(_) =>
      }
    }
    return taglevel == 0;
  }

  method Skip(itr: SerializationIter) returns (ok: bool)
    requires itr.Valid()
    modifies itr
    ensures itr.Valid()
    ensures ok <==> AfterElem(itr.store.Contents, old(itr.pos)).Some?
    ensures ok ==> itr.pos == AfterElem(itr.store.Contents, old(itr.pos)).value
  {
    hide NodeStore.Valid;
    if itr.value.None? { return false; }
    match itr.value.value {
      case Value(_) =>
        itr.Skip();
        return true;
      case Open(_) =>
        itr.Skip();
        ok := SkipStructureOpen(itr);
      case Close =>
        return false;
      case Name(_) =>
        itr.Skip();
        if itr.value.None? { return false; }
        match itr.value.value {
          case Value(_) =>
            itr.Skip();
            return true;
          case Open(_) =>
            itr.Skip();
            ok := SkipStructureOpen(itr);
          case _ =>
            return false;
        }
    }
  }

  // ---------------------------------------------------------------- well-formed elements

  lemma {:induction false} AcrossTree(pre: seq<Node>, t: Tree, post: seq<Node>, level: nat)
    requires level > 0
    ensures var nodes := pre + TreeNodes(t) + post;
            AfterLevels(nodes, |pre|, level) == AfterLevels(nodes, |pre| + |TreeNodes(t)|, level)
    decreases t, 0
  {
    var nodes := pre + TreeNodes(t) + post;
    match t
    case Atom(v) =>
    case Struct(id, elems) =>
      var inner := ElemsNodes(elems);
      AcrossElems(pre + [Open(id)], elems, [Close] + post, level + 1);
      assert (pre + [Open(id)]) + inner + ([Close] + post) == nodes;
      assert nodes[|pre|] == Open(id) && nodes[|pre| + 1 + |inner|] == Close;
  }

  lemma {:induction false} AcrossElem(pre: seq<Node>, e: Elem, post: seq<Node>, level: nat)
    requires level > 0
    ensures var nodes := pre + ElemNodes(e) + post;
            AfterLevels(nodes, |pre|, level) == AfterLevels(nodes, |pre| + |ElemNodes(e)|, level)
    decreases e, 1
  {
    if e.name.Some? {
      var name := [Name(e.name.value)];
      AcrossTree(pre + name, e.tree, post, level);
      assert (pre + name) + TreeNodes(e.tree) + post == pre + ElemNodes(e) + post;
      assert (pre + ElemNodes(e) + post)[|pre|] == Name(e.name.value);
    } else {
      AcrossTree(pre, e.tree, post, level);
      assert ElemNodes(e) == TreeNodes(e.tree);
    }
  }

  lemma {:induction false} AcrossElems(pre: seq<Node>, elems: seq<Elem>, post: seq<Node>, level: nat)
    requires level > 0
    ensures var nodes := pre + ElemsNodes(elems) + post;
            AfterLevels(nodes, |pre|, level) == AfterLevels(nodes, |pre| + |ElemsNodes(elems)|, level)
    decreases elems, 2
  {
    if elems != [] {
      var first, rest := ElemNodes(elems[0]), ElemsNodes(elems[1..]);
      AcrossElem(pre, elems[0], rest + post, level);
      AcrossElems(pre + first, elems[1..], post, level);
      Associative(pre + first, rest, post);
      Associative(pre, first, rest);
    }
  }

  /** From the start of a well-formed element skipping lands exactly one behind its end. */
  lemma {:induction false} SkipLandsBehindElem(pre: seq<Node>, e: Elem, post: seq<Node>)
    ensures AfterElem(pre + ElemNodes(e) + post, |pre|) == Some(|pre| + |ElemNodes(e)|)
  {
    hide ElemsNodes;
    var nodes := pre + ElemNodes(e) + post;
    var name := if e.name.Some? then [Name(e.name.value)] else [];
    var v := |pre + name|;
    assert nodes == (pre + name) + TreeNodes(e.tree) + post;
    assert e.name.Some? ==> nodes[|pre|] == Name(e.name.value);
    match e.tree
    case Atom(c) => assert nodes[v] == Value(c);
    case Struct(id, elems) =>
      var inner := ElemsNodes(elems);
      AcrossElems(pre + name + [Open(id)], elems, [Close] + post, 1);
      assert (pre + name + [Open(id)]) + inner + ([Close] + post) == nodes;
      assert nodes[v] == Open(id) && nodes[v + 1 + |inner|] == Close;
  }

  // ---------------------------------------------------------------- all other node sequences

  function Level(nodes: seq<Node>): int {
    if nodes == [] then 0 else Level(nodes[..|nodes| - 1]) + LevelStep(nodes[|nodes| - 1])
  }

  /** In general skipping stops at the first position at which everything opened is closed again. */
  lemma {:induction false} SkipStopsAtFirstBalance(nodes: seq<Node>, start: nat, i: nat, level: nat)
    requires start <= i <= |nodes| && level == 1 + Level(nodes[start..i])
    ensures match AfterLevels(nodes, i, level)
            case Some(q) => i <= q <= |nodes| && Level(nodes[start..q]) == -1
                            && forall k :: i <= k < q ==> Level(nodes[start..k]) > -1
            case None => forall k :: i <= k <= |nodes| ==> Level(nodes[start..k]) > -1
    decreases |nodes| - i
  {
    if level > 0 && i < |nodes| {
      assert nodes[start..i + 1][..i - start] == nodes[start..i];
      assert nodes[start..i + 1][i - start] == nodes[i];
      SkipStopsAtFirstBalance(nodes, start, i + 1, level + LevelStep(nodes[i]));
    }
  }
}
