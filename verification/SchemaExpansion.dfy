/** The schema compiler: expands the tree of a schema, with the schemas it refers to, into a map from path
    expressions to operations. */
module SchemaExpansion {
  import opened Sequences

  const MAX_NODES: nat := 64

  // ---------------------------------------------------------------- sets of bits

  /** A 64-bit word, from the lowest bit on. */
  type Word = w: seq<bool> | |w| == MAX_NODES witness seq(MAX_NODES, _ => false)

  /** Bits are numbered from 1. */
  predicate Has(w: Word, bit: int) {
    1 <= bit <= MAX_NODES && w[bit - 1]
  }

  function NoBits(): (r: Word)
    ensures forall b :: !Has(r, b)
  {
    seq(MAX_NODES, i requires 0 <= i < MAX_NODES => false)
  }

  function SetBit(w: Word, bit: int): (r: Word)
    requires 1 <= bit <= MAX_NODES
    ensures forall b :: Has(r, b) <==> b == bit || Has(w, b)
  {
    w[bit - 1 := true]
  }

  function Union(v: Word, w: Word): (r: Word)
    ensures forall b :: Has(r, b) <==> Has(v, b) || Has(w, b)
  {
    seq(MAX_NODES, i requires 0 <= i < MAX_NODES => v[i] || w[i])
  }

  function Minus(v: Word, w: Word): (r: Word)
    ensures forall b :: Has(r, b) <==> Has(v, b) && !Has(w, b)
  {
    seq(MAX_NODES, i requires 0 <= i < MAX_NODES => v[i] && !w[i])
  }

  /** The number of the lowest bit set, from a place on; 0 if there is none. */
  function FirstBit(w: Word, start: nat): (r: nat)
    requires start <= MAX_NODES
    ensures r == 0 ==> forall b :: start < b ==> !Has(w, b)
    ensures r != 0 ==> start < r && Has(w, r) && forall b :: start < b < r ==> !Has(w, b)
    decreases MAX_NODES - start
  {
    if start == MAX_NODES then 0 else if w[start] then start + 1 else FirstBit(w, start + 1)
  }

  class BitIterator {
    var val: Word
    var idx: nat

    ghost predicate Valid()
      reads this
    {
      idx == FirstBit(val, 0)
    }

    constructor (w: Word)
      ensures Valid() && val == w
    {
      val, idx := w, FirstBit(w, 0);
    }

    /** Removes the current bit and goes to the next one, which is higher. */
    method Skip()
      requires Valid() && idx != 0
      modifies this
      ensures Valid() && (idx != 0 ==> idx > old(idx))
      ensures forall b :: Has(val, b) <==> Has(old(val), b) && b > old(idx)
      ensures val == old(val)[old(idx) - 1 := false]
    {
      ghost var was, at := val, idx;
      val := val[idx - 1 := false];
      assert forall b :: Has(val, b) <==> Has(was, b) && b != at;
      idx := FirstBit(val, 0);
      assert idx != 0 ==> Has(val, idx) && Has(was, idx);
    }
  }

  /** Iterating gives every bit once, in ascending order. */
  method BitsOf(w: Word) returns (bits: seq<nat>)
    ensures forall b :: b in bits <==> Has(w, b)
    ensures forall i, j :: 0 <= i < j < |bits| ==> bits[i] < bits[j]
  {
    var itr := new BitIterator(w);
    bits := [];
    while itr.idx != 0
      invariant itr.Valid()
      invariant forall b :: Has(w, b) <==> b in bits || Has(itr.val, b)
      invariant forall b, c :: b in bits && Has(itr.val, c) ==> b < c
      invariant forall i, j :: 0 <= i < j < |bits| ==> bits[i] < bits[j]
      decreases if itr.idx == 0 then 0 else MAX_NODES + 1 - itr.idx
    {
      assert Has(itr.val, itr.idx);
      assert forall i :: 0 <= i < |bits| ==> bits[i] in bits;
      bits := bits + [itr.idx];
      itr.Skip();
    }
  }

  /** The bits not set. */
  ghost function Free(w: Word): set<int> {
    set b | 1 <= b <= MAX_NODES && !Has(w, b)
  }

  lemma {:induction false} FreeShrinks(v: Word, w: Word, b: int)
    requires Has(w, b) && !Has(v, b)
    ensures Free(Union(w, v)) < Free(v)
  {
    assert b in Free(v) && b !in Free(Union(w, v));
  }

  // ---------------------------------------------------------------- schema trees

  /** A node without a type name is a structure of its children. */
  datatype SchemaNode = SchemaNode(name: string, typnam: Option<string>, attribute: bool, isArray: bool, children: seq<SchemaNode>)

  /** The schemas; several may have the same name. */
  type SchemaTree = roots: seq<SchemaNode> | |roots| <= MAX_NODES witness []

  /** The numbers of the schemas with a name. */
  function Named(tree: SchemaTree, name: string): (r: Word)
    ensures forall b :: Has(r, b) <==> 1 <= b <= |tree| && tree[b - 1].name == name
  {
    seq(MAX_NODES, i requires 0 <= i < MAX_NODES => i < |tree| && tree[i].name == name)
  }

  datatype OpId =
    | NameAtomic | NameArray
    | ValueInteger | ValueFloat | ValueBool | ValueString
    | AttributeInteger | AttributeFloat | AttributeBool | AttributeString
    | OpenNamedStructure | CloseNamedStructure | OpenNamedStructureArray | CloseNamedStructureArray
    | OpenStructure | CloseStructure | OpenStructureArray | CloseStructureArray

  datatype SchemaError = DuplicateDefinition | AttributeNotAtomic | AddressedItemNotFound | StructureExpected

  /** The schemas an operation refers to, and those in which it is selected. */
  datatype SchemaOperation = SchemaOperation(id: OpId, refs: Word, mask: Word)

  // ---------------------------------------------------------------- the operations added

  /** One addition: schema 0 stands for the one compiled. */
  datatype Addition = Addition(key: string, id: OpId, refs: Word, select: nat)

  function MaskOf(select: nat): Word {
    if 1 <= select <= MAX_NODES then SetBit(NoBits(), select) else NoBits()
  }

  type OpMap = map<string, SchemaOperation>

  /** Nothing if there is another operation for the same key. */
  function Add(m: OpMap, a: Addition): Option<OpMap> {
    if a.key !in m then Some(m[a.key := SchemaOperation(a.id, a.refs, MaskOf(a.select))])
    else if m[a.key].id != a.id || m[a.key].refs != a.refs then None
    else Some(m[a.key := SchemaOperation(a.id, a.refs, Union(m[a.key].mask, MaskOf(a.select)))])
  }

  function AddAll(m: OpMap, s: seq<Addition>): Option<OpMap>
    decreases s
  {
    if s == [] then Some(m)
    else if Add(m, s[0]).None? then None
    else AddAll(Add(m, s[0]).value, s[1..])
  }

  lemma {:induction false} AddAllConcat(m: OpMap, a: seq<Addition>, b: seq<Addition>)
    ensures AddAll(m, a + b) == if AddAll(m, a).Some? then AddAll(AddAll(m, a).value, b) else None
    decreases a
  {
    if a == [] {
      assert a + b == b;
    } else {
      assert (a + b)[1..] == a[1..] + b;
      if Add(m, a[0]).Some? { AddAllConcat(Add(m, a[0]).value, a[1..], b); }
    }
  }

  /** The additions for the same key say the same. */
  ghost predicate Consistent(s: seq<Addition>) {
    forall i, j :: 0 <= i < j < |s| && s[i].key == s[j].key ==> s[i].id == s[j].id && s[i].refs == s[j].refs
  }

  /** The map has an operation for every key added: what all additions say, selected where one of them says it. */
  ghost predicate Represents(m: OpMap, s: seq<Addition>) {
    && (forall a :: a in s ==> a.key in m && m[a.key].id == a.id && m[a.key].refs == a.refs)
    && (forall k :: k in m ==> exists a :: a in s && a.key == k)
    && forall k, b :: k in m ==> (Has(m[k].mask, b) <==> 1 <= b <= MAX_NODES && exists a :: a in s && a.key == k && a.select == b)
  }

  lemma {:induction false} AddKeepsMeaning(m: OpMap, s: seq<Addition>, a: Addition)
    requires Represents(m, s)
    ensures Add(m, a).Some? ==> Represents(Add(m, a).value, s + [a])
    ensures Add(m, a).None? <==> exists b :: b in s && b.key == a.key && (b.id != a.id || b.refs != a.refs)
  {
    var t := s + [a];
    assert forall x :: x in t <==> x in s || x == a;
    if a.key in m {
      var b :| b in s && b.key == a.key;
    }
    if Add(m, a).Some? {
      var n := Add(m, a).value;
      forall k | k in n ensures exists x :: x in t && x.key == k {
        if k == a.key { assert a in t; } else { var x :| x in s && x.key == k; assert x in t; }
      }
      forall k, b | k in n ensures Has(n[k].mask, b) <==> 1 <= b <= MAX_NODES && exists x :: x in t && x.key == k && x.select == b {
        MaskAfter(m, n, s, a, k, b);
      }
    }
  }

  lemma {:induction false} MaskAfter(m: OpMap, n: OpMap, s: seq<Addition>, a: Addition, k: string, b: int)
    requires Represents(m, s) && Add(m, a) == Some(n) && k in n
    ensures Has(n[k].mask, b) <==> 1 <= b <= MAX_NODES && exists x :: x in s + [a] && x.key == k && x.select == b
  {
    var t := s + [a];
    assert forall x :: x in t <==> x in s || x == a;
    if 1 <= b <= MAX_NODES && exists x :: x in t && x.key == k && x.select == b {
      var x :| x in t && x.key == k && x.select == b;
    }
    if Has(n[k].mask, b) {
      if k == a.key && a.select == b {
        assert a in t;
      } else {
        var x :| x in s && x.key == k && x.select == b;
        assert x in t;
      }
    }
  }

  lemma {:induction false} ConsistentStep(s: seq<Addition>, a: Addition)
    ensures Consistent(s + [a]) <==> Consistent(s) && !exists b :: b in s && b.key == a.key && (b.id != a.id || b.refs != a.refs)
  {
    var t := s + [a];
    assert forall i :: 0 <= i < |s| ==> t[i] == s[i];
    assert t[|s|] == a;
    if exists b :: b in s && b.key == a.key && (b.id != a.id || b.refs != a.refs) {
      var b :| b in s && b.key == a.key && (b.id != a.id || b.refs != a.refs);
      var i :| 0 <= i < |s| && s[i] == b;
      assert t[i].key == t[|s|].key;
    }
    if !Consistent(s) {
      var i, j :| 0 <= i < j < |s| && s[i].key == s[j].key && (s[i].id != s[j].id || s[i].refs != s[j].refs);
      assert t[i].key == t[j].key;
    }
  }

  /** Adding succeeds exactly if the additions are consistent, and then the map says what they say. */
  lemma {:induction false} AddAllMeans(s: seq<Addition>)
    ensures AddAll(map[], s).Some? <==> Consistent(s)
    ensures AddAll(map[], s).Some? ==> Represents(AddAll(map[], s).value, s)
  {
    if s != [] {
      var init, a := s[..|s| - 1], s[|s| - 1];
      assert s == init + [a];
      AddAllMeans(init);
      AddAllConcat(map[], init, [a]);
      ConsistentStep(init, a);
      if AddAll(map[], init).Some? {
        var m := AddAll(map[], init).value;
        AddKeepsMeaning(m, init, a);
        AddSingle(m, a);
      }
    }
  }

  lemma {:induction false} AddSingle(m: OpMap, a: Addition)
    ensures AddAll(m, [a]) == Add(m, a)
  {
    if Add(m, a).Some? { assert AddAll(Add(m, a).value, []) == Add(m, a); }
  }

  // ---------------------------------------------------------------- the expansion

  /** The additions made and the error at which it ended, if any. */
  datatype Trace = Trace(adds: seq<Addition>, err: Option<SchemaError>)

  function Then(a: Trace, b: Trace): Trace {
    if a.err.Some? then a else Trace(a.adds + b.adds, b.err)
  }

  function Adds(adds: seq<Addition>): Trace {
    Trace(adds, None)
  }

  /** The operations for a value and an attribute of an atomic type. */
  function AtomicType(typnam: string): Option<(OpId, OpId)> {
    if typnam == "integer" then Some((ValueInteger, AttributeInteger))
    else if typnam == "number" || typnam == "float" then Some((ValueFloat, AttributeFloat))
    else if typnam == "boolean" then Some((ValueBool, AttributeBool))
    else if typnam == "string" then Some((ValueString, AttributeString))
    else None
  }

  function KeyOf(path: string, nd: SchemaNode): string {
    path + (if nd.attribute then "@" else "/") + nd.name
  }

  function AtomAdditions(key: string, nd: SchemaNode, ids: (OpId, OpId), select: nat): seq<Addition> {
    if nd.attribute then [Addition(key, ids.1, NoBits(), select)]
    else [Addition(key, if nd.isArray then NameArray else NameAtomic, NoBits(), select), Addition(key + "()", ids.0, NoBits(), select)]
  }

  /** The bits in ascending order. */
  function AscendingBits(w: Word): (r: seq<nat>)
    ensures forall b :: b in r <==> Has(w, b)
    decreases if FirstBit(w, 0) == 0 then 0 else MAX_NODES + 1 - FirstBit(w, 0)
  {
    var first := FirstBit(w, 0);
    if first == 0 then []
    else
      var rest: Word := w[first - 1 := false];
      assert forall b :: Has(rest, b) <==> Has(w, b) && b != first;
      assert FirstBit(rest, 0) != 0 ==> Has(rest, FirstBit(rest, 0)) && Has(w, FirstBit(rest, 0));
      [first] + AscendingBits(rest)
  }

  /** All nodes of a list, one after the other. */
  function Expand(tree: SchemaTree, path: string, nodes: seq<SchemaNode>, select: nat, visited: Word): Trace
    decreases Free(visited), 1, nodes, 1
  {
    if nodes == [] then Adds([])
    else Then(ExpandNode(tree, path, nodes[0], select, visited), Expand(tree, path, nodes[1..], select, visited))
  }

  function ExpandNode(tree: SchemaTree, path: string, nd: SchemaNode, select: nat, visited: Word): Trace
    decreases Free(visited), 1, nd, 0
  {
    var key := KeyOf(path, nd);
    if nd.typnam.Some? then
      if AtomicType(nd.typnam.value).Some? then Adds(AtomAdditions(key, nd, AtomicType(nd.typnam.value).value, select))
      else if nd.attribute then Trace([], Some(AttributeNotAtomic))
      else
        var refs := Named(tree, nd.typnam.value);
        if FirstBit(refs, 0) == 0 then Trace([], Some(AddressedItemNotFound))
        else
          Then(Adds([Addition(key, if nd.isArray then OpenNamedStructureArray else OpenNamedStructure, refs, select)]),
          Then(ExpandRefs(tree, path + "//" + nd.name, refs, visited),
               Adds([Addition(key + "~", if nd.isArray then CloseNamedStructureArray else CloseNamedStructure, NoBits(), select)])))
    else if nd.children != [] then
      Then(Adds([Addition(key, if nd.isArray then OpenStructureArray else OpenStructure, NoBits(), select)]),
      Then(Expand(tree, key, nd.children, select, visited),
           Adds([Addition(key + "~", if nd.isArray then CloseStructureArray else CloseStructure, NoBits(), select)])))
    else Adds([])
  }

  /** The schemas referred to, but for those visited already. */
  function ExpandRefs(tree: SchemaTree, path: string, refs: Word, visited: Word): Trace
    requires forall b :: Has(refs, b) ==> b <= |tree|
    decreases Free(visited), 0
  {
    var toVisit := AscendingBits(Minus(refs, visited));
    if toVisit == [] then Adds([])
    else
      assert Has(Minus(refs, visited), toVisit[0]);
      FreeShrinks(visited, refs, toVisit[0]);
      assert forall i :: 0 <= i < |toVisit| ==> toVisit[i] in toVisit;
      ExpandSchemas(tree, path, toVisit, Union(refs, visited))
  }

  predicate InTree(tree: SchemaTree, bits: seq<nat>) {
    forall i :: 0 <= i < |bits| ==> 1 <= bits[i] <= |tree|
  }

  function ExpandSchemas(tree: SchemaTree, path: string, bits: seq<nat>, visited: Word): Trace
    requires InTree(tree, bits)
    decreases Free(visited), 3, bits
  {
    if bits == [] then Adds([])
    else Then(ExpandSchema(tree, path, bits[0], visited), ExpandSchemas(tree, path, bits[1..], visited))
  }

  /** A schema has to be a structure. */
  function ExpandSchema(tree: SchemaTree, path: string, bit: nat, visited: Word): Trace
    requires 1 <= bit <= |tree|
    decreases Free(visited), 2
  {
    var children := tree[bit - 1].children;
    if children == [] then Trace([], Some(StructureExpected)) else Expand(tree, path, children, bit, visited)
  }

  // ---------------------------------------------------------------- no schema is entered twice on the way down

  /** All operations added are selected by the current schema or by one not visited yet; and what ends an expansion is
      never a contradiction. */
  ghost predicate Enters(t: Trace, select: int, visited: Word) {
    (forall a :: a in t.adds ==> a.select == select || !Has(visited, a.select)) && t.err != Some(DuplicateDefinition)
  }

  lemma {:induction false} ExpandEnters(tree: SchemaTree, path: string, nodes: seq<SchemaNode>, select: nat, visited: Word)
    ensures Enters(Expand(tree, path, nodes, select, visited), select, visited)
    decreases Free(visited), 1, nodes, 1
  {
    if nodes != [] {
      assert nodes decreases to nodes[0];
      ExpandNodeEnters(tree, path, nodes[0], select, visited);
      ExpandEnters(tree, path, nodes[1..], select, visited);
    }
  }

  lemma {:induction false} ExpandNodeEnters(tree: SchemaTree, path: string, nd: SchemaNode, select: nat, visited: Word)
    ensures Enters(ExpandNode(tree, path, nd, select, visited), select, visited)
    decreases Free(visited), 1, nd, 0
  {
    if nd.typnam.Some? {
      ExpandRefsEnters(tree, path + "//" + nd.name, Named(tree, nd.typnam.value), visited);
    } else {
      ExpandEnters(tree, KeyOf(path, nd), nd.children, select, visited);
    }
  }

  lemma {:induction false} ExpandRefsEnters(tree: SchemaTree, path: string, refs: Word, visited: Word)
    requires forall b :: Has(refs, b) ==> b <= |tree|
    ensures Enters(ExpandRefs(tree, path, refs, visited), -1, visited)
    decreases Free(visited), 0
  {
    var toVisit := AscendingBits(Minus(refs, visited));
    if toVisit != [] {
      assert Has(Minus(refs, visited), toVisit[0]);
      FreeShrinks(visited, refs, toVisit[0]);
      assert forall i :: 0 <= i < |toVisit| ==> toVisit[i] in toVisit;
      ExpandSchemasEnter(tree, path, toVisit, Union(refs, visited));
    }
  }

  lemma {:induction false} ExpandSchemasEnter(tree: SchemaTree, path: string, bits: seq<nat>, visited: Word)
    requires InTree(tree, bits)
    ensures var t := ExpandSchemas(tree, path, bits, visited);
            (forall a :: a in t.adds ==> a.select in bits || !Has(visited, a.select)) && t.err != Some(DuplicateDefinition)
    decreases Free(visited), 3, bits
  {
    if bits != [] {
      ExpandEnters(tree, path, tree[bits[0] - 1].children, bits[0], visited);
      ExpandSchemasEnter(tree, path, bits[1..], visited);
    }
  }

  // ---------------------------------------------------------------- building the map

  lemma {:induction false} ThenAssociative(a: Trace, b: Trace, c: Trace)
    ensures Then(Then(a, b), c) == Then(a, Then(b, c))
    ensures Then(a, Adds([])) == a && Then(Adds([]), a) == a
  {
    if a.err.None? && b.err.None? { assert a.adds + b.adds + c.adds == a.adds + (b.adds + c.adds); }
  }

  /** The additions of the trace turn one map into the other; contradicting ones count before its error. */
  ghost predicate Outcome(before: OpMap, t: Trace, err: Option<SchemaError>, after: OpMap) {
    var m := AddAll(before, t.adds);
    if m.None? then err == Some(DuplicateDefinition) else err == t.err && after == m.value
  }

  lemma {:induction false} OutcomeThen(m0: OpMap, a: Trace, m1: OpMap, b: Trace, err: Option<SchemaError>, m2: OpMap)
    requires Outcome(m0, a, None, m1) && Outcome(m1, b, err, m2)
    ensures Outcome(m0, Then(a, b), err, m2)
  {
    AddAllConcat(m0, a.adds, b.adds);
  }

  lemma {:induction false} OutcomeFails(m0: OpMap, a: Trace, b: Trace, err: Option<SchemaError>, m1: OpMap)
    requires Outcome(m0, a, err, m1) && err.Some?
    ensures Outcome(m0, Then(a, b), err, m1)
  {
    AddAllConcat(m0, a.adds, b.adds);
  }

  lemma {:induction false} OutcomeOfStep(m0: OpMap, done: Trace, m1: OpMap, step: Trace, rest: Trace, err: Option<SchemaError>, m2: OpMap)
    requires Outcome(m0, done, None, m1) && Outcome(m1, step, err, m2)
    ensures Then(Then(done, step), rest) == Then(done, Then(step, rest))
    ensures if err.None? then Outcome(m0, Then(done, step), None, m2) else Outcome(m0, Then(done, Then(step, rest)), err, m2)
  {
    OutcomeThen(m0, done, m1, step, err, m2);
    ThenAssociative(done, step, rest);
    if err.Some? { OutcomeFails(m0, Then(done, step), rest, err, m2); }
  }

  lemma {:induction false} OutcomeOfFirst(m0: OpMap, a: Trace, b: Trace, c: Trace, err: Option<SchemaError>, m1: OpMap)
    requires Outcome(m0, a, err, m1)
    ensures err.Some? ==> Outcome(m0, Then(a, Then(b, c)), err, m1)
  {
    if err.Some? { OutcomeFails(m0, a, Then(b, c), err, m1); }
  }

  lemma {:induction false} OutcomeOfInner(m0: OpMap, a: Trace, m1: OpMap, b: Trace, c: Trace, err: Option<SchemaError>, m2: OpMap)
    requires Outcome(m0, a, None, m1) && Outcome(m1, b, err, m2)
    ensures err.Some? ==> Outcome(m0, Then(a, Then(b, c)), err, m2)
  {
    OutcomeThen(m0, a, m1, b, err, m2);
    ThenAssociative(a, b, c);
    if err.Some? { OutcomeFails(m0, Then(a, b), c, err, m2); }
  }

  lemma {:induction false} OutcomeOfLast(m0: OpMap, a: Trace, m1: OpMap, b: Trace, m2: OpMap, c: Trace, err: Option<SchemaError>, m3: OpMap)
    requires Outcome(m0, a, None, m1) && Outcome(m1, b, None, m2) && Outcome(m2, c, err, m3)
    ensures Outcome(m0, Then(a, Then(b, c)), err, m3)
  {
    OutcomeThen(m0, a, m1, b, None, m2);
    OutcomeThen(m0, Then(a, b), m2, c, err, m3);
    ThenAssociative(a, b, c);
  }

  lemma {:induction false} DeeperHasLessFree(visited: Word, refs: Word, b: int)
    requires Has(Minus(refs, visited), b)
    ensures |Free(Union(refs, visited))| < |Free(visited)| && Free(Union(refs, visited)) < Free(visited)
  {
    FreeShrinks(visited, refs, b);
    var less, rest := Free(Union(refs, visited)), Free(visited) - Free(Union(refs, visited));
    assert b in rest && Free(visited) == less + rest && less !! rest;
  }

  lemma {:induction false} RefsToVisit(tree: SchemaTree, path: string, refs: Word, visited: Word)
    requires forall b :: Has(refs, b) ==> b <= |tree|
    ensures var all := AscendingBits(Minus(refs, visited));
            && InTree(tree, all) && ExpandRefs(tree, path, refs, visited) == ExpandSchemas(tree, path, all, Union(refs, visited))
            && (all != [] ==> |Free(Union(refs, visited))| < |Free(visited)| && Free(Union(refs, visited)) < Free(visited))
  {
    var all := AscendingBits(Minus(refs, visited));
    assert forall i :: 0 <= i < |all| ==> all[i] in all;
    if all != [] {
      assert Has(Minus(refs, visited), all[0]);
      DeeperHasLessFree(visited, refs, all[0]);
    }
  }

  lemma {:induction false} AscendingFirst(w: Word)
    ensures AscendingBits(w) == [] <==> FirstBit(w, 0) == 0
    ensures FirstBit(w, 0) != 0 ==> AscendingBits(w) == [FirstBit(w, 0)] + AscendingBits(w[FirstBit(w, 0) - 1 := false])
  {
  }

  lemma {:induction false} ExpandFirst(tree: SchemaTree, path: string, bits: seq<nat>, visited: Word)
    requires InTree(tree, bits) && bits != []
    ensures ExpandSchemas(tree, path, bits, visited)
         == Then(ExpandSchema(tree, path, bits[0], visited), ExpandSchemas(tree, path, bits[1..], visited))
  {
  }

  lemma {:induction false} OutcomeOfNothing(m: OpMap, t: Trace)
    ensures Outcome(m, Adds([]), None, m) && Then(Adds([]), t) == t
  {
    assert [] + t.adds == t.adds;
  }

  lemma {:induction false} NoneToExpand(tree: SchemaTree, path: string, visited: Word)
    ensures InTree(tree, []) && ExpandSchemas(tree, path, [], visited) == Adds([])
  {
  }

  lemma {:induction false} OutcomeOfDone(m0: OpMap, t: Trace, m1: OpMap)
    requires Outcome(m0, t, None, m1)
    ensures Outcome(m0, Then(t, Adds([])), None, m1)
  {
    if t.err.None? { assert t.adds + [] == t.adds; }
  }

  class SelectExpressionMap {
    var opmap: OpMap
    const tree: SchemaTree

    constructor (tree: SchemaTree)
      ensures this.tree == tree && opmap == map[]
    {
      this.tree, opmap := tree, map[];
    }

    method AddOperation(key: string, id: OpId, refs: Word, select: nat) returns (err: Option<SchemaError>)
      modifies this
      ensures Outcome(old(opmap), Adds([Addition(key, id, refs, select)]), err, opmap)
    {
      AddSingle(opmap, Addition(key, id, refs, select));
      var mask := MaskOf(select);
      if key !in opmap {
        opmap := opmap[key := SchemaOperation(id, refs, mask)];
      } else {
        var op := opmap[key];
        if op.id != id || op.refs != refs { return Some(DuplicateDefinition); }
        opmap := opmap[key := SchemaOperation(op.id, op.refs, Union(op.mask, mask))];
      }
      return None;
    }

    /** Adds the operations for all nodes of a list. At most as many schemas are expanded within each other as there
        are bits; every one of them has set at least one that was not set before. */
    method BuildSelectExpressionMap(path: string, nodes: seq<SchemaNode>, select: nat, visited: Word, ghost depth: nat) returns (err: Option<SchemaError>)
      requires depth + |Free(visited)| <= MAX_NODES
      modifies this
      ensures Outcome(old(opmap), Expand(tree, path, nodes, select, visited), err, opmap)
      decreases Free(visited), 1, nodes, 1
    {
      var i := 0;
      ghost var done := Adds([]);
      while i < |nodes|
        invariant 0 <= i <= |nodes| && Outcome(old(opmap), done, None, opmap)
        invariant Then(done, Expand(tree, path, nodes[i..], select, visited)) == Expand(tree, path, nodes, select, visited)
      {
        ghost var before := opmap;
        ghost var step, rest := ExpandNode(tree, path, nodes[i], select, visited), Expand(tree, path, nodes[i + 1..], select, visited);
        assert nodes[i..][0] == nodes[i] && nodes[i..][1..] == nodes[i + 1..];
        assert nodes decreases to nodes[i];
        err := AddNode(path, nodes[i], select, visited, depth);
        OutcomeOfStep(old(opmap), done, before, step, rest, err, opmap);
        if err.Some? { return; }
        done := Then(done, step);
        i := i + 1;
      }
      ThenAssociative(done, done, done);
      return None;
    }

    method AddNode(path: string, nd: SchemaNode, select: nat, visited: Word, ghost depth: nat) returns (err: Option<SchemaError>)
      requires depth + |Free(visited)| <= MAX_NODES
      modifies this
      ensures Outcome(old(opmap), ExpandNode(tree, path, nd, select, visited), err, opmap)
      decreases Free(visited), 1, nd, 0
    {
      var key := KeyOf(path, nd);
      if nd.typnam.Some? {
        var ids := AtomicType(nd.typnam.value);
        if ids.Some? {
          err := AddAtomic(key, nd, ids.value, select);
        } else if nd.attribute {
          return Some(AttributeNotAtomic);
        } else {
          var refs := Named(tree, nd.typnam.value);
          if FirstBit(refs, 0) == 0 { return Some(AddressedItemNotFound); }
          var vopen, vclose := OpenNamedStructure, CloseNamedStructure;
          if nd.isArray { vopen, vclose := OpenNamedStructureArray, CloseNamedStructureArray; }
          ghost var inner := ExpandRefs(tree, path + "//" + nd.name, refs, visited);
          ghost var first, last := Adds([Addition(key, vopen, refs, select)]), Adds([Addition(key + "~", vclose, NoBits(), select)]);
          err := AddOperation(key, vopen, refs, select);
          ghost var m1 := opmap;
          OutcomeOfFirst(old(opmap), first, inner, last, err, opmap);
          if err.Some? { return; }
          err := AddRefs(path + "//" + nd.name, refs, visited, depth);
          ghost var m2 := opmap;
          OutcomeOfInner(old(opmap), first, m1, inner, last, err, opmap);
          if err.Some? { return; }
          err := AddOperation(key + "~", vclose, NoBits(), select);
          OutcomeOfLast(old(opmap), first, m1, inner, m2, last, err, opmap);
        }
      } else if nd.children != [] {
        var vopen, vclose := OpenStructure, CloseStructure;
        if nd.isArray { vopen, vclose := OpenStructureArray, CloseStructureArray; }
        ghost var inner := Expand(tree, key, nd.children, select, visited);
        ghost var first, last := Adds([Addition(key, vopen, NoBits(), select)]), Adds([Addition(key + "~", vclose, NoBits(), select)]);
        err := AddOperation(key, vopen, NoBits(), select);
        ghost var m1 := opmap;
        OutcomeOfFirst(old(opmap), first, inner, last, err, opmap);
        if err.Some? { return; }
        err := BuildSelectExpressionMap(key, nd.children, select, visited, depth);
        ghost var m2 := opmap;
        OutcomeOfInner(old(opmap), first, m1, inner, last, err, opmap);
        if err.Some? { return; }
        err := AddOperation(key + "~", vclose, NoBits(), select);
        OutcomeOfLast(old(opmap), first, m1, inner, m2, last, err, opmap);
      } else {
        return None;
      }
    }

    /** Expands the schemas referred to that have not been visited. */
    method AddRefs(path: string, refs: Word, visited: Word, ghost depth: nat) returns (err: Option<SchemaError>)
      requires depth + |Free(visited)| <= MAX_NODES && forall b :: Has(refs, b) ==> b <= |tree|
      modifies this
      ensures Outcome(old(opmap), ExpandRefs(tree, path, refs, visited), err, opmap)
      decreases Free(visited), 0
    {
      hide AscendingBits, Expand, ExpandSchema, ExpandSchemas, ExpandRefs, Outcome, Then, Union, Minus, Has;
      var newVisited, toVisit := Union(refs, visited), Minus(refs, visited);
      ghost var all, done := AscendingBits(toVisit), Adds([]);
      RefsToVisit(tree, path, refs, visited);
      OutcomeOfNothing(opmap, ExpandSchemas(tree, path, all, newVisited));
      AscendingFirst(toVisit);
      var bi := new BitIterator(toVisit);
      ghost var rest := all;
      while bi.idx != 0
        invariant bi.Valid() && rest == AscendingBits(bi.val) && (rest == [] <==> bi.idx == 0) && (rest != [] ==> all != [])
        invariant InTree(tree, rest)
        invariant Outcome(old(opmap), done, None, opmap)
        invariant Then(done, ExpandSchemas(tree, path, rest, newVisited)) == ExpandSchemas(tree, path, all, newVisited)
        modifies this, bi
        decreases |rest|
      {
        AscendingFirst(bi.val);
        ExpandFirst(tree, path, rest, newVisited);
        ghost var step, more, before := ExpandSchema(tree, path, bi.idx, newVisited), ExpandSchemas(tree, path, rest[1..], newVisited), opmap;
        err := AddSchema(path, bi.idx, newVisited, depth + 1);
        OutcomeOfStep(old(opmap), done, before, step, more, err, opmap);
        if err.Some? { return; }
        done, rest := Then(done, step), rest[1..];
        bi.Skip();
        AscendingFirst(bi.val);
      }
      NoneToExpand(tree, path, newVisited);
      OutcomeOfDone(old(opmap), done, opmap);
      return None;
    }

    method AddSchema(path: string, bit: nat, visited: Word, ghost depth: nat) returns (err: Option<SchemaError>)
      requires depth + |Free(visited)| <= MAX_NODES && 1 <= bit <= |tree|
      modifies this
      ensures Outcome(old(opmap), ExpandSchema(tree, path, bit, visited), err, opmap)
      decreases Free(visited), 2
    {
      var children := tree[bit - 1].children;
      if children == [] { return Some(StructureExpected); }
      err := BuildSelectExpressionMap(path, children, bit, visited, depth);
    }

    method AddAtomic(key: string, nd: SchemaNode, ids: (OpId, OpId), select: nat) returns (err: Option<SchemaError>)
      modifies this
      ensures Outcome(old(opmap), Adds(AtomAdditions(key, nd, ids, select)), err, opmap)
    {
      if nd.attribute {
        err := AddOperation(key, ids.1, NoBits(), select);
      } else {
        var vid := if nd.isArray then NameArray else NameAtomic;
        ghost var a, b := Adds([Addition(key, vid, NoBits(), select)]), Adds([Addition(key + "()", ids.0, NoBits(), select)]);
        assert Then(a, b) == Adds(AtomAdditions(key, nd, ids, select));
        err := AddOperation(key, vid, NoBits(), select);
        ghost var m1 := opmap;
        if err.Some? {
          OutcomeFails(old(opmap), a, b, err, opmap);
          return;
        }
        err := AddOperation(key + "()", ids.0, NoBits(), select);
        OutcomeThen(old(opmap), a, m1, b, err, opmap);
      }
    }
  }

  /** The map for a schema, given by its node, and the schemas of the tree it refers to. */
  method BuildMap(tree: SchemaTree, root: SchemaNode) returns (err: Option<SchemaError>, m: OpMap)
    ensures var t := Expand(tree, "", [root], 0, NoBits());
            && (err == Some(DuplicateDefinition) <==> !Consistent(t.adds))
            && (Consistent(t.adds) ==> err == t.err && Represents(m, t.adds))
  {
    var expressions := new SelectExpressionMap(tree);
    AllBits(MAX_NODES);
    assert Free(NoBits()) == UpTo(MAX_NODES);
    err := expressions.BuildSelectExpressionMap("", [root], 0, NoBits(), 0);
    m := expressions.opmap;
    AddAllMeans(Expand(tree, "", [root], 0, NoBits()).adds);
    ExpandEnters(tree, "", [root], 0, NoBits());
  }

  ghost function UpTo(n: nat): set<int> {
    if n == 0 then {} else UpTo(n - 1) + {n}
  }

  lemma {:induction false} AllBits(n: nat)
    ensures |UpTo(n)| == n && forall b :: b in UpTo(n) <==> 1 <= b <= n
  {
    if n > 0 { AllBits(n - 1); }
  }
}
