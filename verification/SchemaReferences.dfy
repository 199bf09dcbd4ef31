/** The expansion of a schema leaves nothing out: every schema that can be reached by references is expanded. */
module SchemaReferences {
  import opened Sequences
  import opened SchemaExpansion

  // ---------------------------------------------------------------- references

  /** The nodes, or those in their structures, refer to a schema by its name. */
  predicate Refers(tree: SchemaTree, nodes: seq<SchemaNode>, b: nat)
    decreases nodes, 1
  {
    nodes != [] && (NodeRefers(tree, nodes[0], b) || Refers(tree, nodes[1..], b))
  }

  predicate NodeRefers(tree: SchemaTree, nd: SchemaNode, b: nat)
    decreases nd, 0
  {
    if nd.typnam.Some? then !IsAtomicType(nd.typnam.value) && Has(Named(tree, nd.typnam.value), b)
    else Refers(tree, nd.children, b)
  }

  predicate InRange(tree: SchemaTree, b: int) {
    1 <= b <= |tree|
  }

  /** A way from schema to schema that begins at the nodes. */
  predicate IsWay(tree: SchemaTree, nodes: seq<SchemaNode>, way: seq<nat>)
    decreases |way|
  {
    && way != [] && InRange(tree, way[0]) && Refers(tree, nodes, way[0])
    && (|way| == 1 || IsWay(tree, tree[way[0] - 1].children, way[1..]))
  }

  ghost predicate Reachable(tree: SchemaTree, nodes: seq<SchemaNode>, b: int) {
    exists way :: IsWay(tree, nodes, way) && way[|way| - 1] == b
  }

  // ---------------------------------------------------------------- the operations of a node

  predicate IsAtomicType(typnam: string) {
    typnam == "integer" || typnam == "number" || typnam == "float" || typnam == "boolean" || typnam == "string"
  }

  predicate ReadsValue(id: OpId, typnam: string) {
    match id
    case ValueInteger => typnam == "integer"
    case ValueFloat => typnam == "number" || typnam == "float"
    case ValueBool => typnam == "boolean"
    case ValueString => typnam == "string"
    case _ => false
  }

  predicate ReadsAttribute(id: OpId, typnam: string) {
    match id
    case AttributeInteger => typnam == "integer"
    case AttributeFloat => typnam == "number" || typnam == "float"
    case AttributeBool => typnam == "boolean"
    case AttributeString => typnam == "string"
    case _ => false
  }

  predicate Opens(id: OpId, named: bool, isArray: bool) {
    match id
    case OpenNamedStructure => named && !isArray
    case OpenNamedStructureArray => named && isArray
    case OpenStructure => !named && !isArray
    case OpenStructureArray => !named && isArray
    case _ => false
  }

  predicate Closes(id: OpId, named: bool, isArray: bool) {
    match id
    case CloseNamedStructure => named && !isArray
    case CloseNamedStructureArray => named && isArray
    case CloseStructure => !named && !isArray
    case CloseStructureArray => !named && isArray
    case _ => false
  }

  ghost predicate IsEmpty(refs: Word) {
    forall b :: !Has(refs, b)
  }

  predicate IsAtomic(nd: SchemaNode) {
    nd.typnam.Some? && IsAtomicType(nd.typnam.value)
  }

  /** The operation at the expression of a node: the attribute or the name of an atomic one, or else the opening of a
      structure, which refers to the schemas that are called like its type. */
  ghost predicate Begins(tree: SchemaTree, nd: SchemaNode, a: Addition) {
    if IsAtomic(nd) then
      && IsEmpty(a.refs)
      && if nd.attribute then ReadsAttribute(a.id, nd.typnam.value) else a.id == if nd.isArray then NameArray else NameAtomic
    else
      && Opens(a.id, nd.typnam.Some?, nd.isArray)
      && forall b :: Has(a.refs, b) <==> nd.typnam.Some? && InRange(tree, b) && tree[b - 1].name == nd.typnam.value
  }

  /** The operation that comes with it: for the content of an atomic element or the end of a structure. */
  ghost predicate Ends(nd: SchemaNode, a: Addition) {
    IsEmpty(a.refs) && if IsAtomic(nd) then ReadsValue(a.id, nd.typnam.value) else Closes(a.id, nd.typnam.Some?, nd.isArray)
  }

  /** Where that is: attributes have none. */
  function EndKey(nd: SchemaNode, key: string): Option<string> {
    if !IsAtomic(nd) then Some(key + "~") else if nd.attribute then None else Some(key + "()")
  }

  ghost predicate BeginsAt(tree: SchemaTree, adds: seq<Addition>, nd: SchemaNode, key: string, select: nat) {
    exists a :: a in adds && a.key == key && a.select == select && Begins(tree, nd, a)
  }

  ghost predicate EndsAt(adds: seq<Addition>, nd: SchemaNode, key: string, select: nat) {
    exists a :: a in adds && a.key == key && a.select == select && Ends(nd, a)
  }

  ghost predicate HasOperations(tree: SchemaTree, adds: seq<Addition>, nd: SchemaNode, key: string, select: nat) {
    && BeginsAt(tree, adds, nd, key, select)
    && (EndKey(nd, key).Some? ==> EndsAt(adds, nd, EndKey(nd, key).value, select))
  }

  /** An operation is one of a node. */
  ghost predicate IsOperationOf(tree: SchemaTree, nd: SchemaNode, key: string, a: Addition) {
    (a.key == key && Begins(tree, nd, a)) || (EndKey(nd, key) == Some(a.key) && Ends(nd, a))
  }

  // ---------------------------------------------------------------- what it means to be expanded

  /** Every node that has a type or is a structure has its operations, selected by the schema. */
  ghost predicate Covers(tree: SchemaTree, adds: seq<Addition>, path: string, nodes: seq<SchemaNode>, select: nat)
    decreases nodes, 1
  {
    nodes == [] || (CoversNode(tree, adds, path, nodes[0], select) && Covers(tree, adds, path, nodes[1..], select))
  }

  ghost predicate CoversNode(tree: SchemaTree, adds: seq<Addition>, path: string, nd: SchemaNode, select: nat)
    decreases nd, 0
  {
    && (nd.typnam.Some? || nd.children != [] ==> HasOperations(tree, adds, nd, KeyOf(path, nd), select))
    && (nd.typnam.None? ==> Covers(tree, adds, KeyOf(path, nd), nd.children, select))
  }

  ghost predicate ExpandedAt(tree: SchemaTree, adds: seq<Addition>, path: string, b: int) {
    InRange(tree, b) && Covers(tree, adds, path, tree[b - 1].children, b)
  }

  ghost predicate IsExpanded(tree: SchemaTree, adds: seq<Addition>, b: int) {
    exists path :: ExpandedAt(tree, adds, path, b)
  }

  ghost predicate Among(a: seq<Addition>, b: seq<Addition>) {
    forall x :: x in a ==> x in b
  }

  lemma {:induction false} CoversMore(tree: SchemaTree, a: seq<Addition>, b: seq<Addition>, path: string, nodes: seq<SchemaNode>, select: nat)
    requires Among(a, b) && Covers(tree, a, path, nodes, select)
    ensures Covers(tree, b, path, nodes, select)
    decreases nodes, 1
  {
    if nodes != [] {
      CoversNodeMore(tree, a, b, path, nodes[0], select);
      CoversMore(tree, a, b, path, nodes[1..], select);
    }
  }

  lemma {:induction false} CoversNodeMore(tree: SchemaTree, a: seq<Addition>, b: seq<Addition>, path: string, nd: SchemaNode, select: nat)
    requires Among(a, b) && CoversNode(tree, a, path, nd, select)
    ensures CoversNode(tree, b, path, nd, select)
    decreases nd, 0
  {
    if nd.typnam.None? { CoversMore(tree, a, b, KeyOf(path, nd), nd.children, select); }
  }

  /** The schemas are expanded, and what they refer to is among them or visited. */
  ghost predicate Closed(tree: SchemaTree, adds: seq<Addition>, entered: set<nat>, visited: Word) {
    forall b :: b in entered ==>
      && InRange(tree, b) && IsExpanded(tree, adds, b)
      && forall c: nat :: Refers(tree, tree[b - 1].children, c) ==> c in entered || Has(visited, c)
  }

  lemma {:induction false} ClosedMore(tree: SchemaTree, a: seq<Addition>, b: seq<Addition>, entered: set<nat>, visited: Word)
    requires Among(a, b) && Closed(tree, a, entered, visited)
    ensures Closed(tree, b, entered, visited)
  {
    forall s | s in entered ensures IsExpanded(tree, b, s) {
      assert IsExpanded(tree, a, s);
      var path :| ExpandedAt(tree, a, path, s);
      CoversMore(tree, a, b, path, tree[s - 1].children, s);
      assert ExpandedAt(tree, b, path, s);
    }
  }

  lemma {:induction false} ClosedTogether(tree: SchemaTree, adds: seq<Addition>, a: set<nat>, b: set<nat>, visited: Word)
    requires Closed(tree, adds, a, visited) && Closed(tree, adds, b, visited)
    ensures Closed(tree, adds, a + b, visited)
  {
  }

  lemma {:induction false} ThenAmong(a: Trace, b: Trace)
    requires Then(a, b).err == None
    ensures a.err == b.err == None && Among(a.adds, Then(a, b).adds) && Among(b.adds, Then(a, b).adds)
  {
  }

  // ---------------------------------------------------------------- nothing is left out

  /** Without an error, the nodes and the schemas reached from them are expanded. */
  lemma {:induction false} ExpandReaches(tree: SchemaTree, path: string, nodes: seq<SchemaNode>, select: nat, visited: Word)
    returns (entered: set<nat>)
    requires Expand(tree, path, nodes, select, visited).err == None
    ensures Covers(tree, Expand(tree, path, nodes, select, visited).adds, path, nodes, select)
    ensures forall c: nat :: Refers(tree, nodes, c) ==> c in entered || Has(visited, c)
    ensures Closed(tree, Expand(tree, path, nodes, select, visited).adds, entered, visited)
    decreases Free(visited), 1, nodes, 1
  {
    if nodes == [] {
      entered := {};
    } else {
      hide Has, Closed, Among;
      var a, b := ExpandNode(tree, path, nodes[0], select, visited), Expand(tree, path, nodes[1..], select, visited);
      ThenAmong(a, b);
      assert nodes decreases to nodes[0];
      var first := NodeReaches(tree, path, nodes[0], select, visited);
      var more := ExpandReaches(tree, path, nodes[1..], select, visited);
      CoversNodeMore(tree, a.adds, Then(a, b).adds, path, nodes[0], select);
      CoversMore(tree, b.adds, Then(a, b).adds, path, nodes[1..], select);
      ClosedMore(tree, a.adds, Then(a, b).adds, first, visited);
      ClosedMore(tree, b.adds, Then(a, b).adds, more, visited);
      ClosedTogether(tree, Then(a, b).adds, first, more, visited);
      entered := first + more;
    }
  }

  /** What is added for a structure, before and behind what is in it. */
  function Opening(tree: SchemaTree, key: string, nd: SchemaNode, select: nat): Addition {
    if nd.typnam.Some? then Addition(key, if nd.isArray then OpenNamedStructureArray else OpenNamedStructure, Named(tree, nd.typnam.value), select)
    else Addition(key, if nd.isArray then OpenStructureArray else OpenStructure, NoBits(), select)
  }

  function Closing(key: string, nd: SchemaNode, select: nat): Addition {
    if nd.typnam.Some? then Addition(key + "~", if nd.isArray then CloseNamedStructureArray else CloseNamedStructure, NoBits(), select)
    else Addition(key + "~", if nd.isArray then CloseStructureArray else CloseStructure, NoBits(), select)
  }

  lemma {:induction false} AtomOperations(tree: SchemaTree, key: string, nd: SchemaNode, select: nat)
    ensures IsAtomic(nd) <==> nd.typnam.Some? && AtomicType(nd.typnam.value).Some?
    ensures IsAtomic(nd) ==>
              var adds := AtomAdditions(key, nd, AtomicType(nd.typnam.value).value, select);
              HasOperations(tree, adds, nd, key, select) && forall a :: a in adds ==> a.select == select && IsOperationOf(tree, nd, key, a)
  {
    if IsAtomic(nd) {
      var adds := AtomAdditions(key, nd, AtomicType(nd.typnam.value).value, select);
      assert adds[0] in adds && Begins(tree, nd, adds[0]);
      if !nd.attribute { assert adds[1] in adds && Ends(nd, adds[1]); }
    }
  }

  lemma {:induction false} StructureOperations(tree: SchemaTree, adds: seq<Addition>, key: string, nd: SchemaNode, select: nat)
    requires !IsAtomic(nd)
    ensures IsOperationOf(tree, nd, key, Opening(tree, key, nd, select)) && IsOperationOf(tree, nd, key, Closing(key, nd, select))
    ensures Opening(tree, key, nd, select) in adds && Closing(key, nd, select) in adds ==> HasOperations(tree, adds, nd, key, select)
  {
    assert Begins(tree, nd, Opening(tree, key, nd, select)) && Ends(nd, Closing(key, nd, select));
  }

  lemma {:induction false} BetweenAmong(open: Addition, inner: Trace, close: Addition)
    ensures var t := Then(Adds([open]), Then(inner, Adds([close])));
            && open in t.adds && Among(inner.adds, t.adds) && (t.err == None ==> inner.err == None && close in t.adds)
            && forall a :: a in t.adds ==> a == open || a == close || a in inner.adds
  {
    var t := Then(Adds([open]), Then(inner, Adds([close])));
    assert t.adds[0] == open;
    if t.err == None { assert t.adds[|t.adds| - 1] == close; }
  }

  lemma {:induction false} NodeReaches(tree: SchemaTree, path: string, nd: SchemaNode, select: nat, visited: Word) returns (entered: set<nat>)
    requires ExpandNode(tree, path, nd, select, visited).err == None
    ensures CoversNode(tree, ExpandNode(tree, path, nd, select, visited).adds, path, nd, select)
    ensures forall c: nat :: NodeRefers(tree, nd, c) ==> c in entered || Has(visited, c)
    ensures Closed(tree, ExpandNode(tree, path, nd, select, visited).adds, entered, visited)
    decreases Free(visited), 1, nd, 0
  {
    hide HasOperations, AtomAdditions, Has;
    var key, t := KeyOf(path, nd), ExpandNode(tree, path, nd, select, visited);
    var open, close := Opening(tree, key, nd, select), Closing(key, nd, select);
    entered := {};
    AtomOperations(tree, key, nd, select);
    if nd.typnam.Some? {
      if AtomicType(nd.typnam.value).None? {
        var refs := Named(tree, nd.typnam.value);
        var inner := ExpandRefs(tree, path + "//" + nd.name, refs, visited);
        BetweenAmong(open, inner, close);
        assert t == Then(Adds([open]), Then(inner, Adds([close])));
        StructureOperations(tree, t.adds, key, nd, select);
        entered := RefsReach(tree, path + "//" + nd.name, refs, visited);
        ClosedMore(tree, inner.adds, t.adds, entered, visited);
      }
    } else if nd.children != [] {
      var inner := Expand(tree, key, nd.children, select, visited);
      BetweenAmong(open, inner, close);
      assert t == Then(Adds([open]), Then(inner, Adds([close])));
      StructureOperations(tree, t.adds, key, nd, select);
      entered := ExpandReaches(tree, key, nd.children, select, visited);
      CoversMore(tree, inner.adds, t.adds, key, nd.children, select);
      ClosedMore(tree, inner.adds, t.adds, entered, visited);
    }
  }

  lemma {:induction false} RefsReach(tree: SchemaTree, path: string, refs: Word, visited: Word) returns (entered: set<nat>)
    requires forall b :: Has(refs, b) ==> b <= |tree|
    requires ExpandRefs(tree, path, refs, visited).err == None
    ensures forall c: nat :: Has(refs, c) ==> c in entered || Has(visited, c)
    ensures Closed(tree, ExpandRefs(tree, path, refs, visited).adds, entered, visited)
    decreases Free(visited), 0
  {
    var toVisit := AscendingBits(Minus(refs, visited));
    entered := {};
    if toVisit != [] {
      assert Has(Minus(refs, visited), toVisit[0]);
      FreeShrinks(visited, refs, toVisit[0]);
      assert forall i :: 0 <= i < |toVisit| ==> toVisit[i] in toVisit;
      entered := SchemasReach(tree, path, toVisit, Union(refs, visited));
    }
    forall c: nat | Has(refs, c) ensures c in entered || Has(visited, c) {
      if !Has(visited, c) { assert c in toVisit; }
    }
  }

  lemma {:induction false} SchemasReach(tree: SchemaTree, path: string, bits: seq<nat>, visited: Word) returns (entered: set<nat>)
    requires InTree(tree, bits) && ExpandSchemas(tree, path, bits, visited).err == None
    ensures forall b :: b in bits ==> b in entered
    ensures Closed(tree, ExpandSchemas(tree, path, bits, visited).adds, entered, visited)
    decreases Free(visited), 3, bits
  {
    entered := {};
    if bits != [] {
      var a, b := ExpandSchema(tree, path, bits[0], visited), ExpandSchemas(tree, path, bits[1..], visited);
      ThenAmong(a, b);
      var first := ExpandReaches(tree, path, tree[bits[0] - 1].children, bits[0], visited);
      assert ExpandedAt(tree, a.adds, path, bits[0]);
      var more := SchemasReach(tree, path, bits[1..], visited);
      ClosedMore(tree, a.adds, Then(a, b).adds, first + {bits[0]}, visited);
      ClosedMore(tree, b.adds, Then(a, b).adds, more, visited);
      ClosedTogether(tree, Then(a, b).adds, first + {bits[0]}, more, visited);
      entered := first + {bits[0]} + more;
    }
  }

  /** A set that is closed and holds what is referred to first holds all that can be reached. */
  lemma {:induction false} WayStaysInside(tree: SchemaTree, adds: seq<Addition>, nodes: seq<SchemaNode>, entered: set<nat>, way: seq<nat>)
    requires Closed(tree, adds, entered, NoBits()) && IsWay(tree, nodes, way)
    requires forall c: nat :: Refers(tree, nodes, c) ==> c in entered
    ensures way[|way| - 1] in entered
    decreases |way|
  {
    if |way| > 1 {
      WayStaysInside(tree, adds, tree[way[0] - 1].children, entered, way[1..]);
      assert way[1..][|way| - 2] == way[|way| - 1];
    }
  }

  // ---------------------------------------------------------------- nothing else is expanded

  /** Operations are selected by the schema of the nodes or by one that can be reached from them. */
  ghost predicate OnlyReached(tree: SchemaTree, adds: seq<Addition>, nodes: seq<SchemaNode>, select: nat) {
    forall a :: a in adds ==> a.select == select || Reachable(tree, nodes, a.select)
  }

  lemma {:induction false} ReachableFrom(tree: SchemaTree, few: seq<SchemaNode>, nodes: seq<SchemaNode>, b: int)
    requires Reachable(tree, few, b) && forall c: nat :: Refers(tree, few, c) ==> Refers(tree, nodes, c)
    ensures Reachable(tree, nodes, b)
  {
    var way :| IsWay(tree, few, way) && way[|way| - 1] == b;
    assert IsWay(tree, nodes, way);
  }

  lemma {:induction false} ReachableBehind(tree: SchemaTree, nodes: seq<SchemaNode>, s: nat, b: int)
    requires InRange(tree, s) && Refers(tree, nodes, s) && (b == s || Reachable(tree, tree[s - 1].children, b))
    ensures Reachable(tree, nodes, b)
  {
    if b == s {
      assert IsWay(tree, nodes, [s]);
    } else {
      var way :| IsWay(tree, tree[s - 1].children, way) && way[|way| - 1] == b;
      var longer := [s] + way;
      assert longer[1..] == way && longer[|longer| - 1] == b;
      assert IsWay(tree, nodes, longer);
    }
  }

  lemma {:induction false} ExpandsOnlyReachable(tree: SchemaTree, path: string, nodes: seq<SchemaNode>, select: nat, visited: Word)
    ensures OnlyReached(tree, Expand(tree, path, nodes, select, visited).adds, nodes, select)
    decreases Free(visited), 1, nodes, 1
  {
    if nodes != [] {
      var a, b := ExpandNode(tree, path, nodes[0], select, visited), Expand(tree, path, nodes[1..], select, visited);
      assert nodes decreases to nodes[0];
      assert [nodes[0]][1..] == [] && forall c: nat :: Refers(tree, [nodes[0]], c) ==> NodeRefers(tree, nodes[0], c);
      NodeExpandsOnlyReachable(tree, path, nodes[0], select, visited);
      ExpandsOnlyReachable(tree, path, nodes[1..], select, visited);
      forall x | x in Then(a, b).adds ensures x.select == select || Reachable(tree, nodes, x.select) {
        if x in a.adds && x.select != select {
          ReachableFrom(tree, [nodes[0]], nodes, x.select);
        } else if x.select != select {
          ReachableFrom(tree, nodes[1..], nodes, x.select);
        }
      }
    }
  }

  lemma {:induction false} SingleRefers(tree: SchemaTree, nd: SchemaNode, b: nat)
    ensures Refers(tree, [nd], b) <==> NodeRefers(tree, nd, b)
  {
    assert [nd][1..] == [];
  }

  lemma {:induction false} NodeExpandsOnlyReachable(tree: SchemaTree, path: string, nd: SchemaNode, select: nat, visited: Word)
    ensures OnlyReached(tree, ExpandNode(tree, path, nd, select, visited).adds, [nd], select)
    decreases Free(visited), 1, nd, 0
  {
    var key, t := KeyOf(path, nd), ExpandNode(tree, path, nd, select, visited);
    forall c: nat ensures Refers(tree, [nd], c) <==> NodeRefers(tree, nd, c) { SingleRefers(tree, nd, c); }
    if nd.typnam.Some? {
      var refs := Named(tree, nd.typnam.value);
      if AtomicType(nd.typnam.value).None? && !nd.attribute && FirstBit(refs, 0) != 0 {
        var open, close := Opening(tree, key, nd, select), Closing(key, nd, select);
        var inner := ExpandRefs(tree, path + "//" + nd.name, refs, visited);
        BetweenAmong(open, inner, close);
        assert t == Then(Adds([open]), Then(inner, Adds([close])));
        RefsExpandOnlyReachable(tree, path + "//" + nd.name, refs, visited, [nd]);
      }
    } else if nd.children != [] {
      var open, close := Opening(tree, key, nd, select), Closing(key, nd, select);
      var inner := Expand(tree, key, nd.children, select, visited);
      BetweenAmong(open, inner, close);
      assert t == Then(Adds([open]), Then(inner, Adds([close])));
      ExpandsOnlyReachable(tree, key, nd.children, select, visited);
      forall x | x in t.adds ensures x.select == select || Reachable(tree, [nd], x.select) {
        if x in inner.adds && x.select != select { ReachableFrom(tree, nd.children, [nd], x.select); }
      }
    }
  }

  lemma {:induction false} RefsExpandOnlyReachable(tree: SchemaTree, path: string, refs: Word, visited: Word, nodes: seq<SchemaNode>)
    requires (forall b :: Has(refs, b) ==> b <= |tree|) && forall b: nat :: Has(refs, b) ==> Refers(tree, nodes, b)
    ensures forall a :: a in ExpandRefs(tree, path, refs, visited).adds ==> Reachable(tree, nodes, a.select)
    decreases Free(visited), 0
  {
    var toVisit := AscendingBits(Minus(refs, visited));
    if toVisit != [] {
      assert Has(Minus(refs, visited), toVisit[0]);
      FreeShrinks(visited, refs, toVisit[0]);
      assert forall i :: 0 <= i < |toVisit| ==> toVisit[i] in toVisit;
      SchemasExpandOnlyReachable(tree, path, toVisit, Union(refs, visited), nodes);
    }
  }

  lemma {:induction false} SchemasExpandOnlyReachable(tree: SchemaTree, path: string, bits: seq<nat>, visited: Word, nodes: seq<SchemaNode>)
    requires InTree(tree, bits) && forall b :: b in bits ==> Refers(tree, nodes, b)
    ensures forall a :: a in ExpandSchemas(tree, path, bits, visited).adds ==> Reachable(tree, nodes, a.select)
    decreases Free(visited), 3, bits
  {
    if bits != [] {
      var a, b := ExpandSchema(tree, path, bits[0], visited), ExpandSchemas(tree, path, bits[1..], visited);
      ExpandsOnlyReachable(tree, path, tree[bits[0] - 1].children, bits[0], visited);
      SchemasExpandOnlyReachable(tree, path, bits[1..], visited, nodes);
      forall x | x in Then(a, b).adds ensures Reachable(tree, nodes, x.select) {
        if x in a.adds { ReachableBehind(tree, nodes, bits[0], x.select); }
      }
    }
  }

  // ---------------------------------------------------------------- the whole expansion

  /** Without an error exactly the schemas that can be reached by references are expanded, with all their nodes. */
  lemma {:induction false} ExpansionIsComplete(tree: SchemaTree, root: SchemaNode)
    ensures var t := Expand(tree, "", [root], 0, NoBits());
            t.err == None ==> Covers(tree, t.adds, "", [root], 0) && forall b :: Reachable(tree, [root], b) ==> IsExpanded(tree, t.adds, b)
    ensures OnlyReached(tree, Expand(tree, "", [root], 0, NoBits()).adds, [root], 0)
  {
    var t := Expand(tree, "", [root], 0, NoBits());
    if t.err == None {
      var entered := ExpandReaches(tree, "", [root], 0, NoBits());
      forall b | Reachable(tree, [root], b) ensures IsExpanded(tree, t.adds, b) {
        var way :| IsWay(tree, [root], way) && way[|way| - 1] == b;
        WayStaysInside(tree, t.adds, [root], entered, way);
      }
    }
    ExpandsOnlyReachable(tree, "", [root], 0, NoBits());
  }
}
