/** Which operations are found at the expressions of a compiled schema: those of its nodes, and in pairs. */
module SchemaOperations {
  import opened Sequences
  import opened SchemaExpansion
  import opened SchemaReferences
  import opened SchemaPaths

  // ---------------------------------------------------------------- every operation is one of a node

  /** A node of the list or in its structures, and its expression. */
  predicate NodeAt(path: string, nodes: seq<SchemaNode>, nd: SchemaNode, key: string)
    decreases nodes, 1
  {
    nodes != [] && (ThisNodeAt(path, nodes[0], nd, key) || NodeAt(path, nodes[1..], nd, key))
  }

  predicate ThisNodeAt(path: string, first: SchemaNode, nd: SchemaNode, key: string)
    decreases first, 0
  {
    (nd == first && key == KeyOf(path, first)) || (first.typnam.None? && NodeAt(KeyOf(path, first), first.children, nd, key))
  }

  /** An operation of a node, all of whose operations are there. */
  ghost predicate IsPart(tree: SchemaTree, adds: seq<Addition>, nd: SchemaNode, key: string, a: Addition) {
    IsOperationOf(tree, nd, key, a) && HasOperations(tree, adds, nd, key, a.select)
  }

  ghost predicate Explained(tree: SchemaTree, adds: seq<Addition>, path: string, nodes: seq<SchemaNode>, a: Addition) {
    exists nd, key :: NodeAt(path, nodes, nd, key) && IsPart(tree, adds, nd, key, a)
  }

  ghost predicate NodeExplained(tree: SchemaTree, adds: seq<Addition>, path: string, first: SchemaNode, a: Addition) {
    exists nd, key :: ThisNodeAt(path, first, nd, key) && IsPart(tree, adds, nd, key, a)
  }

  ghost predicate ExplainedIn(tree: SchemaTree, adds: seq<Addition>, path: string, a: Addition) {
    InRange(tree, a.select) && Explained(tree, adds, path, tree[a.select - 1].children, a)
  }

  ghost predicate SchemaExplains(tree: SchemaTree, adds: seq<Addition>, a: Addition) {
    exists path :: ExplainedIn(tree, adds, path, a)
  }

  lemma {:induction false} IsPartOfMore(tree: SchemaTree, few: seq<Addition>, adds: seq<Addition>, nd: SchemaNode, key: string, a: Addition)
    requires Among(few, adds) && IsPart(tree, few, nd, key, a)
    ensures IsPart(tree, adds, nd, key, a)
  {
    hide Begins, Ends, IsOperationOf;
  }

  lemma {:induction false} ExplainedMore(tree: SchemaTree, few: seq<Addition>, adds: seq<Addition>, path: string, nodes: seq<SchemaNode>, a: Addition)
    requires Among(few, adds) && Explained(tree, few, path, nodes, a)
    ensures Explained(tree, adds, path, nodes, a)
  {
    hide IsPart, NodeAt, Among;
    var nd, key :| NodeAt(path, nodes, nd, key) && IsPart(tree, few, nd, key, a);
    IsPartOfMore(tree, few, adds, nd, key, a);
  }

  lemma {:induction false} SchemaExplainsMore(tree: SchemaTree, few: seq<Addition>, adds: seq<Addition>, a: Addition)
    requires Among(few, adds) && SchemaExplains(tree, few, a)
    ensures SchemaExplains(tree, adds, a)
  {
    hide Explained, Among;
    var path :| ExplainedIn(tree, few, path, a);
    ExplainedMore(tree, few, adds, path, tree[a.select - 1].children, a);
    assert ExplainedIn(tree, adds, path, a);
  }

  lemma {:induction false} ExplainedByFirst(tree: SchemaTree, few: seq<Addition>, adds: seq<Addition>, path: string, nodes: seq<SchemaNode>, a: Addition)
    requires nodes != [] && Among(few, adds) && NodeExplained(tree, few, path, nodes[0], a)
    ensures Explained(tree, adds, path, nodes, a)
  {
    hide IsPart, ThisNodeAt, Among;
    var nd, key :| ThisNodeAt(path, nodes[0], nd, key) && IsPart(tree, few, nd, key, a);
    IsPartOfMore(tree, few, adds, nd, key, a);
    assert NodeAt(path, nodes, nd, key);
  }

  lemma {:induction false} ExplainedByRest(tree: SchemaTree, few: seq<Addition>, adds: seq<Addition>, path: string, nodes: seq<SchemaNode>, a: Addition)
    requires nodes != [] && Among(few, adds) && Explained(tree, few, path, nodes[1..], a)
    ensures Explained(tree, adds, path, nodes, a)
  {
    hide IsPart, ThisNodeAt, Among;
    var nd, key :| NodeAt(path, nodes[1..], nd, key) && IsPart(tree, few, nd, key, a);
    IsPartOfMore(tree, few, adds, nd, key, a);
    assert NodeAt(path, nodes, nd, key);
  }

  lemma {:induction false} ExplainedByChild(tree: SchemaTree, few: seq<Addition>, adds: seq<Addition>, path: string, first: SchemaNode, a: Addition)
    requires first.typnam.None? && Among(few, adds) && Explained(tree, few, KeyOf(path, first), first.children, a)
    ensures NodeExplained(tree, adds, path, first, a)
  {
    hide IsPart, NodeAt, Among;
    var nd, key :| NodeAt(KeyOf(path, first), first.children, nd, key) && IsPart(tree, few, nd, key, a);
    IsPartOfMore(tree, few, adds, nd, key, a);
    assert ThisNodeAt(path, first, nd, key);
  }

  lemma {:induction false} ExplainedByItself(tree: SchemaTree, adds: seq<Addition>, path: string, nd: SchemaNode, a: Addition)
    requires IsPart(tree, adds, nd, KeyOf(path, nd), a)
    ensures NodeExplained(tree, adds, path, nd, a)
  {
    hide IsPart;
    assert ThisNodeAt(path, nd, nd, KeyOf(path, nd));
  }

  /** What is added is an operation of a node in the list or of one of a schema, and what comes with it is added too. */
  lemma {:induction false} OperationHasNode(tree: SchemaTree, path: string, nodes: seq<SchemaNode>, select: nat, visited: Word, a: Addition)
    requires Expand(tree, path, nodes, select, visited).err == None && a in Expand(tree, path, nodes, select, visited).adds
    ensures var adds := Expand(tree, path, nodes, select, visited).adds;
            (a.select == select && Explained(tree, adds, path, nodes, a)) || SchemaExplains(tree, adds, a)
    decreases Free(visited), 1, nodes, 1
  {
    hide Explained, NodeExplained, SchemaExplains, Among, ExpandNode;
    var first, rest := ExpandNode(tree, path, nodes[0], select, visited), Expand(tree, path, nodes[1..], select, visited);
    var t := Then(first, rest);
    ThenAmong(first, rest);
    assert nodes decreases to nodes[0];
    if a in first.adds {
      NodeOperationHasNode(tree, path, nodes[0], select, visited, a);
      if SchemaExplains(tree, first.adds, a) {
        SchemaExplainsMore(tree, first.adds, t.adds, a);
      } else {
        ExplainedByFirst(tree, first.adds, t.adds, path, nodes, a);
      }
    } else {
      OperationHasNode(tree, path, nodes[1..], select, visited, a);
      if SchemaExplains(tree, rest.adds, a) {
        SchemaExplainsMore(tree, rest.adds, t.adds, a);
      } else {
        ExplainedByRest(tree, rest.adds, t.adds, path, nodes, a);
      }
    }
  }

  lemma {:induction false} NodeOperationHasNode(tree: SchemaTree, path: string, nd: SchemaNode, select: nat, visited: Word, a: Addition)
    requires ExpandNode(tree, path, nd, select, visited).err == None && a in ExpandNode(tree, path, nd, select, visited).adds
    ensures var adds := ExpandNode(tree, path, nd, select, visited).adds;
            (a.select == select && NodeExplained(tree, adds, path, nd, a)) || SchemaExplains(tree, adds, a)
    decreases Free(visited), 1, nd, 0
  {
    hide HasOperations, IsOperationOf, AtomAdditions, Has, Explained, NodeExplained, SchemaExplains;
    var key, t := KeyOf(path, nd), ExpandNode(tree, path, nd, select, visited);
    var open, close := Opening(tree, key, nd, select), Closing(key, nd, select);
    AtomOperations(tree, key, nd, select);
    if IsAtomic(nd) {
      ExplainedByItself(tree, t.adds, path, nd, a);
    } else {
      StructureOperations(tree, t.adds, key, nd, select);
      var inner := if nd.typnam.Some? then ExpandRefs(tree, path + "//" + nd.name, Named(tree, nd.typnam.value), visited)
                   else Expand(tree, key, nd.children, select, visited);
      BetweenAmong(open, inner, close);
      assert t == Then(Adds([open]), Then(inner, Adds([close])));
      if a == open || a == close {
        ExplainedByItself(tree, t.adds, path, nd, a);
      } else if nd.typnam.Some? {
        RefOperationHasNode(tree, path + "//" + nd.name, Named(tree, nd.typnam.value), visited, a);
        SchemaExplainsMore(tree, inner.adds, t.adds, a);
      } else {
        OperationHasNode(tree, key, nd.children, select, visited, a);
        if SchemaExplains(tree, inner.adds, a) {
          SchemaExplainsMore(tree, inner.adds, t.adds, a);
        } else {
          ExplainedByChild(tree, inner.adds, t.adds, path, nd, a);
        }
      }
    }
  }

  lemma {:induction false} RefOperationHasNode(tree: SchemaTree, path: string, refs: Word, visited: Word, a: Addition)
    requires forall b :: Has(refs, b) ==> b <= |tree|
    requires ExpandRefs(tree, path, refs, visited).err == None && a in ExpandRefs(tree, path, refs, visited).adds
    ensures SchemaExplains(tree, ExpandRefs(tree, path, refs, visited).adds, a)
    decreases Free(visited), 0
  {
    hide SchemaExplains;
    var toVisit := AscendingBits(Minus(refs, visited));
    assert Has(Minus(refs, visited), toVisit[0]);
    FreeShrinks(visited, refs, toVisit[0]);
    assert forall i :: 0 <= i < |toVisit| ==> toVisit[i] in toVisit;
    SchemaOperationHasNode(tree, path, toVisit, Union(refs, visited), a);
  }

  lemma {:induction false} SchemaOperationHasNode(tree: SchemaTree, path: string, bits: seq<nat>, visited: Word, a: Addition)
    requires InTree(tree, bits) && ExpandSchemas(tree, path, bits, visited).err == None && a in ExpandSchemas(tree, path, bits, visited).adds
    ensures SchemaExplains(tree, ExpandSchemas(tree, path, bits, visited).adds, a)
    decreases Free(visited), 3, bits
  {
    hide Explained, Among;
    var first, rest := ExpandSchema(tree, path, bits[0], visited), ExpandSchemas(tree, path, bits[1..], visited);
    var t := Then(first, rest);
    ThenAmong(first, rest);
    if a in first.adds {
      OperationHasNode(tree, path, tree[bits[0] - 1].children, bits[0], visited, a);
      if a.select == bits[0] && Explained(tree, first.adds, path, tree[bits[0] - 1].children, a) {
        assert ExplainedIn(tree, first.adds, path, a);
      }
      SchemaExplainsMore(tree, first.adds, t.adds, a);
    } else {
      SchemaOperationHasNode(tree, path, bits[1..], visited, a);
      SchemaExplainsMore(tree, rest.adds, t.adds, a);
    }
  }

  // ---------------------------------------------------------------- pairs

  /** The expression of a node ends with its name. */
  lemma {:induction false} NodeKey(path: string, nodes: seq<SchemaNode>, nd: SchemaNode, key: string)
    requires NodeAt(path, nodes, nd, key) && NamesOk(nodes)
    ensures IsName(nd.name) && EndsWith(key, Ending(TagOf(nd))) && key != "" && !IsMark(key[|key| - 1])
    decreases nodes, 1
  {
    if ThisNodeAt(path, nodes[0], nd, key) {
      ThisNodeKey(path, nodes[0], nd, key);
    } else {
      NodeKey(path, nodes[1..], nd, key);
    }
  }

  lemma {:induction false} ThisNodeKey(path: string, first: SchemaNode, nd: SchemaNode, key: string)
    requires ThisNodeAt(path, first, nd, key) && IsName(first.name) && NamesOk(first.children)
    ensures IsName(nd.name) && EndsWith(key, Ending(TagOf(nd))) && key != "" && !IsMark(key[|key| - 1])
    decreases first, 0
  {
    if nd == first && key == KeyOf(path, first) {
      assert key == path + Ending(TagOf(nd)) && key[|path|..] == Ending(TagOf(nd));
      assert key[|key| - 1] == nd.name[|nd.name| - 1];
    } else {
      NodeKey(KeyOf(path, first), first.children, nd, key);
    }
  }

  /** A node whose operations are all there, at an expression that ends with its name. */
  ghost predicate IsNodeKey(tree: SchemaTree, adds: seq<Addition>, nd: SchemaNode, key: string, select: nat) {
    && IsName(nd.name) && EndsWith(key, Ending(TagOf(nd))) && key != "" && !IsMark(key[|key| - 1])
    && HasOperations(tree, adds, nd, key, select)
  }

  /** The schema compiled or one that can be referred to. */
  predicate IsList(tree: SchemaTree, root: SchemaNode, nodes: seq<SchemaNode>) {
    nodes == [root] || exists i :: 0 <= i < |tree| && nodes == tree[i].children
  }

  lemma {:induction false} NodeOf(tree: SchemaTree, root: SchemaNode, a: Addition)
    returns (nd: SchemaNode, key: string, path: string, nodes: seq<SchemaNode>)
    requires Expand(tree, "", [root], 0, NoBits()).err == None && a in Expand(tree, "", [root], 0, NoBits()).adds
    requires NamesOk([root]) && TreeNamesOk(tree)
    ensures IsList(tree, root, nodes) && NodeAt(path, nodes, nd, key)
    ensures IsNodeKey(tree, Expand(tree, "", [root], 0, NoBits()).adds, nd, key, a.select) && IsOperationOf(tree, nd, key, a)
  {
    hide Expand, HasOperations, IsOperationOf, NodeAt, NamesOk;
    var adds := Expand(tree, "", [root], 0, NoBits()).adds;
    OperationHasNode(tree, "", [root], 0, NoBits(), a);
    if SchemaExplains(tree, adds, a) {
      path :| ExplainedIn(tree, adds, path, a);
      nodes := tree[a.select - 1].children;
    } else {
      path, nodes := "", [root];
    }
    nd, key :| NodeAt(path, nodes, nd, key) && IsPart(tree, adds, nd, key, a);
    NodeKey(path, nodes, nd, key);
  }

  predicate IsValue(id: OpId) {
    id == ValueInteger || id == ValueFloat || id == ValueBool || id == ValueString
  }

  predicate IsAttribute(id: OpId) {
    id == AttributeInteger || id == AttributeFloat || id == AttributeBool || id == AttributeString
  }

  predicate IsElementName(id: OpId) {
    id == NameAtomic || id == NameArray
  }

  /** The second operation closes what the first one opens, or reads the content of the element the first one names. */
  predicate GoWith(first: OpId, second: OpId) {
    match second
    case CloseNamedStructure => first == OpenNamedStructure
    case CloseNamedStructureArray => first == OpenNamedStructureArray
    case CloseStructure => first == OpenStructure
    case CloseStructureArray => first == OpenStructureArray
    case _ => IsValue(second) && IsElementName(first)
  }

  /** Where the operation is that goes with the one at an expression; attributes have none. */
  function PairKey(m: OpMap, key: string): Option<string>
    requires key in m
  {
    if IsAttribute(m[key].id) then None else if IsElementName(m[key].id) then Some(key + "()") else Some(key + "~")
  }

  ghost predicate SameMask(m: OpMap, key: string, other: string)
    requires key in m && other in m
  {
    forall b :: Has(m[key].mask, b) <==> Has(m[other].mask, b)
  }

  ghost predicate OnlyNamedRefer(op: SchemaOperation) {
    op.id != OpenNamedStructure && op.id != OpenNamedStructureArray ==> IsEmpty(op.refs)
  }

  /** At the expression of an element or attribute is what begins it, at that with a suffix what goes with it, both
      selected in the same schemas; and there is nothing else. Only what opens a named structure refers to schemas. */
  ghost predicate IsPaired(m: OpMap, key: string)
    requires key in m
  {
    if key == "" || !OnlyNamedRefer(m[key]) then false
    else if !IsMark(key[|key| - 1]) then
      && !IsValue(m[key].id) && (forall first :: !GoWith(first, m[key].id))
      && (var other := PairKey(m, key);
          other.Some? ==> other.value in m && GoWith(m[key].id, m[other.value].id) && SameMask(m, key, other.value))
    else
      exists first :: first in m && first != "" && !IsMark(first[|first| - 1]) && PairKey(m, first) == Some(key)
  }

  lemma {:induction false} KindOf(tree: SchemaTree, nd: SchemaNode, a: Addition)
    requires Begins(tree, nd, a)
    ensures IsAttribute(a.id) <==> IsAtomic(nd) && nd.attribute
    ensures IsElementName(a.id) <==> IsAtomic(nd) && !nd.attribute
    ensures !IsValue(a.id) && forall first :: !GoWith(first, a.id)
    ensures OnlyNamedRefer(SchemaOperation(a.id, a.refs, NoBits()))
    ensures forall c :: Ends(nd, c) && !IsAttribute(a.id) ==> GoWith(a.id, c.id)
  {
  }

  lemma {:induction false} NoRefs(nd: SchemaNode, a: Addition)
    requires Ends(nd, a)
    ensures IsEmpty(a.refs)
  {
  }

  /** What the map has at the expression of a node. */
  lemma {:induction false} NodeInMap(m: OpMap, tree: SchemaTree, adds: seq<Addition>, nd: SchemaNode, key: string, select: nat)
    requires Represents(m, adds) && IsNodeKey(tree, adds, nd, key, select)
    ensures key in m && PairKey(m, key) == EndKey(nd, key)
    ensures !IsValue(m[key].id) && forall first :: !GoWith(first, m[key].id)
    ensures EndKey(nd, key).Some? ==> EndKey(nd, key).value in m && GoWith(m[key].id, m[EndKey(nd, key).value].id)
    ensures OnlyNamedRefer(m[key]) && (EndKey(nd, key).Some? ==> IsEmpty(m[EndKey(nd, key).value].refs))
    ensures 1 <= select <= MAX_NODES ==> Has(m[key].mask, select)
    ensures 1 <= select <= MAX_NODES && EndKey(nd, key).Some? ==> Has(m[EndKey(nd, key).value].mask, select)
  {
    hide Begins, Ends, Has, IsName;
    var a :| a in adds && a.key == key && a.select == select && Begins(tree, nd, a);
    KindOf(tree, nd, a);
    if EndKey(nd, key).Some? {
      var c :| c in adds && c.key == EndKey(nd, key).value && c.select == select && Ends(nd, c);
      NoRefs(nd, c);
    }
  }

  lemma {:induction false} EndKeyIsMarked(nd: SchemaNode, key: string)
    ensures EndKey(nd, key).Some? ==> EndKey(nd, key).value != "" && IsMark(EndKey(nd, key).value[|EndKey(nd, key).value| - 1])
  {
  }

  lemma {:induction false} SameEndKey(nd: SchemaNode, key: string, other: SchemaNode, otherKey: string)
    requires EndKey(nd, key).Some? && EndKey(nd, key) == EndKey(other, otherKey)
    ensures key == otherKey
  {
    var k := EndKey(nd, key).value;
    assert k[|k| - 1] == if IsAtomic(nd) then ')' else '~';
    assert k[..|key|] == key && k[..|otherKey|] == otherKey;
  }

  /** An operation selected in a schema and what goes with it. */
  lemma {:induction false} SelectedTogether(m: OpMap, tree: SchemaTree, root: SchemaNode, nd: SchemaNode, key: string, select: nat, b: int)
    requires Expand(tree, "", [root], 0, NoBits()).err == None && NamesOk([root]) && TreeNamesOk(tree)
    requires Represents(m, Expand(tree, "", [root], 0, NoBits()).adds)
    requires IsNodeKey(tree, Expand(tree, "", [root], 0, NoBits()).adds, nd, key, select) && EndKey(nd, key).Some?
    requires key in m && EndKey(nd, key).value in m
    ensures Has(m[key].mask, b) <==> Has(m[EndKey(nd, key).value].mask, b)
  {
    hide Expand, NamesOk, TreeNamesOk, HasOperations, IsName, EndsWith, EndKey, Begins, Ends, Has, NodeAt, IsList, PairKey, GoWith, IsValue, OnlyNamedRefer;
    var adds, other := Expand(tree, "", [root], 0, NoBits()).adds, EndKey(nd, key).value;
    NodeInMap(m, tree, adds, nd, key, select);
    if Has(m[key].mask, b) {
      var a :| a in adds && a.key == key && a.select == b;
      var nd', key', _, _ := NodeOf(tree, root, a);
      EndKeyIsMarked(nd', key');
      NodeInMap(m, tree, adds, nd', key', b);
    }
    if Has(m[other].mask, b) {
      var a :| a in adds && a.key == other && a.select == b;
      var nd', key', _, _ := NodeOf(tree, root, a);
      EndKeyIsMarked(nd, key);
      SameEndKey(nd, key, nd', key');
      NodeInMap(m, tree, adds, nd', key', b);
    }
  }

  /** Of a schema compiled without an error, whatever has an operation that opens has the one that closes it, of the
      same kind and selected in the same schemas, and so on: no operation is without the other. */
  lemma {:induction false} CompiledIsPaired(m: OpMap, tree: SchemaTree, root: SchemaNode, key: string)
    requires Expand(tree, "", [root], 0, NoBits()).err == None && NamesOk([root]) && TreeNamesOk(tree)
    requires Represents(m, Expand(tree, "", [root], 0, NoBits()).adds) && key in m
    ensures IsPaired(m, key)
  {
    hide Expand, NamesOk, TreeNamesOk, HasOperations, IsName, EndsWith, EndKey, Begins, Ends, Has, PairKey, NodeAt, IsList, GoWith, IsValue;
    var adds := Expand(tree, "", [root], 0, NoBits()).adds;
    var a :| a in adds && a.key == key;
    var nd, first, _, _ := NodeOf(tree, root, a);
    EndKeyIsMarked(nd, first);
    NodeInMap(m, tree, adds, nd, first, a.select);
    if key == first && EndKey(nd, first).Some? {
      forall b ensures Has(m[key].mask, b) <==> Has(m[EndKey(nd, first).value].mask, b) {
        SelectedTogether(m, tree, root, nd, first, a.select, b);
      }
    }
  }
}
