/** A compiled schema drives the serializer: what is found for the elements of a document opens and closes in pairs. */
module CompiledRequests {
  import opened Sequences
  import opened SchemaExpansion
  import opened SchemaReferences
  import opened SchemaPaths
  import opened SchemaOperations
  import A = StructureArrays

  // ---------------------------------------------------------------- what is found for a document

  datatype Doc = Text(s: string) | Attribute(name: string, value: string) | Element(name: string, items: seq<Doc>)

  /** An element of the request, the path to it and the suffix of the expressions for it; for the name of an attribute
      there are none. */
  datatype Place = Place(elem: A.RequestElement, path: seq<Tag>, suffix: Option<string>)

  function OpenPlace(path: seq<Tag>, name: string): Place {
    Place(A.RequestElement(A.OpenTag, name), path + [Tag(name, false)], Some(""))
  }

  function ClosePlace(path: seq<Tag>, name: string): Place {
    Place(A.RequestElement(A.CloseTag, name), path + [Tag(name, false)], Some("~"))
  }

  function TextPlace(path: seq<Tag>, s: string): Place {
    Place(A.RequestElement(A.ContentElement, s), path, Some("()"))
  }

  function NamePlace(path: seq<Tag>, name: string): Place {
    Place(A.RequestElement(A.AttribName, name), path + [Tag(name, true)], None)
  }

  function ValuePlace(path: seq<Tag>, name: string, value: string): Place {
    Place(A.RequestElement(A.AttribValue, value), path + [Tag(name, true)], Some(""))
  }

  function DocPlaces(path: seq<Tag>, d: Doc): (r: seq<Place>)
    ensures r != []
    decreases d, 0
  {
    match d
    case Text(s) => [TextPlace(path, s)]
    case Attribute(name, value) => [NamePlace(path, name), ValuePlace(path, name, value)]
    case Element(name, items) => [OpenPlace(path, name)] + Places(path + [Tag(name, false)], items) + [ClosePlace(path, name)]
  }

  function Places(path: seq<Tag>, docs: seq<Doc>): seq<Place>
    decreases docs, 1
  {
    if docs == [] then [] else DocPlaces(path, docs[0]) + Places(path, docs[1..])
  }

  /** The expression with the suffix of the place matches its path. */
  predicate IsFoundAt(key: string, pl: Place) {
    && pl.suffix.Some? && EndsWith(key, pl.suffix.value)
    && Matches(key[..|key| - |pl.suffix.value|], pl.path)
  }

  predicate SameId(a: A.OpId, b: OpId) {
    match a
    case NameAtomic => b == NameAtomic
    case ValueString => b == ValueString
    case AttributeString => b == AttributeString
    case OpenNamedStructure => b == OpenNamedStructure
    case CloseNamedStructure => b == CloseNamedStructure
    case OpenNamedStructureArray => b == OpenNamedStructureArray
    case CloseNamedStructureArray => b == CloseNamedStructureArray
    case OpenStructure => b == OpenStructure
    case CloseStructure => b == CloseStructure
    case OpenStructureArray => b == OpenStructureArray
    case CloseStructureArray => b == CloseStructureArray
  }

  function BitSet(w: Word): set<int> {
    set b | 1 <= b <= MAX_NODES && Has(w, b)
  }

  ghost predicate StandsFor(op: A.Op, o: SchemaOperation) {
    SameId(op.id, o.id) && op.refs == BitSet(o.refs) && op.mask == BitSet(o.mask)
  }

  ghost predicate FoundBy(m: OpMap, pl: Place, ops: seq<A.Op>, keys: seq<string>) {
    && |keys| == |ops| && (forall i, j :: 0 <= i < j < |keys| ==> keys[i] != keys[j])
    && (forall key :: key in keys <==> key in m && IsFoundAt(key, pl))
    && forall i :: 0 <= i < |keys| ==> keys[i] in m && StandsFor(ops[i], m[keys[i]])
  }

  /** The operations at all expressions found for a place, in any order. */
  ghost predicate Finds(m: OpMap, pl: Place, ops: seq<A.Op>) {
    exists keys :: FoundBy(m, pl, ops, keys)
  }

  /** The events are the elements of the places with the operations found for them. */
  ghost predicate FoundFor(m: OpMap, places: seq<Place>, events: seq<A.Event>) {
    |events| == |places| && forall i :: 0 <= i < |places| ==> events[i].elem == places[i].elem && Finds(m, places[i], events[i].ops)
  }

  lemma {:induction false} FirstTwo<T>(s: seq<T>)
    ensures s != [] ==> s[0] in s
    ensures |s| > 1 ==> s[1] in s
  {
  }

  lemma {:induction false} FoundNone(m: OpMap, pl: Place, ops: seq<A.Op>)
    requires Finds(m, pl, ops) && forall key :: key in m ==> !IsFoundAt(key, pl)
    ensures ops == []
  {
    var keys :| FoundBy(m, pl, ops, keys);
    FirstTwo(keys);
  }

  lemma {:induction false} FoundSome(m: OpMap, pl: Place, ops: seq<A.Op>) returns (key: string)
    requires Finds(m, pl, ops) && |ops| == 1
    ensures key in m && IsFoundAt(key, pl) && StandsFor(ops[0], m[key])
    ensures forall k :: k in m && IsFoundAt(k, pl) ==> k == key
  {
    var keys :| FoundBy(m, pl, ops, keys);
    key := keys[0];
    assert key in keys && keys == [key];
  }

  lemma {:induction false} FoundOne(m: OpMap, pl: Place, ops: seq<A.Op>, key: string)
    requires Finds(m, pl, ops) && key in m && IsFoundAt(key, pl) && forall k :: k in m && IsFoundAt(k, pl) ==> k == key
    ensures |ops| == 1 && StandsFor(ops[0], m[key])
  {
    var keys :| FoundBy(m, pl, ops, keys);
    assert key in keys;
    FirstTwo(keys);
  }

  lemma {:induction false} StandsForOne(a: A.Op, b: A.Op, o: SchemaOperation)
    requires StandsFor(a, o) && StandsFor(b, o)
    ensures a == b
  {
  }

  /** What is found at a place is determined by it. */
  lemma {:induction false} FoundOnce(m: OpMap, pl: Place, a: A.Op, b: A.Op)
    requires Finds(m, pl, [a]) && Finds(m, pl, [b])
    ensures a == b
  {
    hide IsFoundAt, StandsFor, Finds;
    var k := FoundSome(m, pl, [a]);
    var l := FoundSome(m, pl, [b]);
    StandsForOne(a, b, m[k]);
  }

  // ---------------------------------------------------------------- what the expressions of a compiled schema say

  /** Atomic types are strings, atomic elements are no arrays, and attributes are atomic. */
  predicate PlainNode(nd: SchemaNode) {
    if IsAtomic(nd) then nd.typnam.value == "string" && (nd.attribute || !nd.isArray) else !nd.attribute
  }

  predicate PlainList(nodes: seq<SchemaNode>)
    decreases nodes, 1
  {
    nodes == [] || (PlainNode(nodes[0]) && PlainList(nodes[0].children) && PlainList(nodes[1..]))
  }

  lemma {:induction false} PlainAt(path: string, nodes: seq<SchemaNode>, nd: SchemaNode, key: string)
    requires NodeAt(path, nodes, nd, key) && PlainList(nodes)
    ensures PlainNode(nd)
    decreases nodes, 1
  {
    if ThisNodeAt(path, nodes[0], nd, key) {
      PlainBelow(path, nodes[0], nd, key);
    } else {
      PlainAt(path, nodes[1..], nd, key);
    }
  }

  lemma {:induction false} PlainBelow(path: string, first: SchemaNode, nd: SchemaNode, key: string)
    requires ThisNodeAt(path, first, nd, key) && PlainNode(first) && PlainList(first.children)
    ensures PlainNode(nd)
    decreases first, 0
  {
    if !(nd == first && key == KeyOf(path, first)) { PlainAt(KeyOf(path, first), first.children, nd, key); }
  }

  /** The map of a schema that was compiled without an error. */
  ghost predicate Compiled(m: OpMap, tree: SchemaTree, root: SchemaNode) {
    && Expand(tree, "", [root], 0, NoBits()).err == None && Represents(m, Expand(tree, "", [root], 0, NoBits()).adds)
    && NamesOk([root]) && TreeNamesOk(tree) && PlainList([root]) && forall i :: 0 <= i < |tree| ==> PlainList(tree[i].children)
  }

  predicate IsOpening(id: OpId) {
    id == OpenNamedStructure || id == OpenNamedStructureArray || id == OpenStructure || id == OpenStructureArray
  }

  /** What an expression without a suffix has: a string attribute, or the name of a string element, or an opening. */
  ghost predicate IsPlainKey(m: OpMap, key: string, attribute: bool)
    requires key in m
  {
    if attribute then m[key].id == AttributeString
    else if m[key].id == NameAtomic then key + "()" in m && m[key + "()"].id == ValueString
    else IsOpening(m[key].id)
  }

  lemma {:induction false} PlainOperations(tree: SchemaTree, nd: SchemaNode, a: Addition)
    requires PlainNode(nd) && Begins(tree, nd, a)
    ensures if nd.attribute then a.id == AttributeString else a.id == NameAtomic || IsOpening(a.id)
    ensures a.id == NameAtomic ==> IsAtomic(nd) && !nd.attribute && forall c :: Ends(nd, c) ==> c.id == ValueString
  {
  }

  lemma {:induction false} PlainNodeKey(m: OpMap, tree: SchemaTree, adds: seq<Addition>, nd: SchemaNode, key: string, select: nat)
    requires Represents(m, adds) && IsNodeKey(tree, adds, nd, key, select) && PlainNode(nd)
    ensures key in m && IsPlainKey(m, key, nd.attribute)
  {
    hide Begins, Ends, IsName, EndsWith, PlainNode;
    var a :| a in adds && a.key == key && a.select == select && Begins(tree, nd, a);
    PlainOperations(tree, nd, a);
    if a.id == NameAtomic {
      var c :| c in adds && c.key == EndKey(nd, key).value && c.select == select && Ends(nd, c);
    }
  }

  lemma {:induction false} PlainKey(m: OpMap, tree: SchemaTree, root: SchemaNode, key: string, path: seq<Tag>)
    requires Compiled(m, tree, root) && key in m && path != [] && AreNames(path) && Matches(key, path)
    ensures IsPlainKey(m, key, path[|path| - 1].attribute)
    ensures key != "" && !IsMark(key[|key| - 1])
  {
    hide Expand, NamesOk, TreeNamesOk, PlainList, HasOperations, Begins, Ends, NodeAt, Has, IsName, EndKey, EndsWith, PlainNode, IsPlainKey;
    var adds, last := Expand(tree, "", [root], 0, NoBits()).adds, path[|path| - 1];
    MatchesLast(key, path);
    MarkAt(key, last);
    var a :| a in adds && a.key == key;
    var nd, first, at, nodes := NodeOf(tree, root, a);
    EndKeyIsMarked(nd, first);
    SameLastTag(key, TagOf(nd), last);
    PlainAt(at, nodes, nd, key);
    PlainNodeKey(m, tree, adds, nd, key, a.select);
  }

  lemma {:induction false} MatchesLast(key: string, path: seq<Tag>)
    requires Matches(key, path) && path != [] && AreNames(path)
    ensures var last := path[|path| - 1]; IsName(last.name) && EndsWith(key, Ending(last))
    ensures key != "" && !IsMark(key[|key| - 1])
  {
    MarkAt(key, path[|path| - 1]);
  }

  lemma {:induction false} SameLastTag(key: string, t: Tag, u: Tag)
    requires IsName(t.name) && IsName(u.name) && EndsWith(key, Ending(t)) && EndsWith(key, Ending(u))
    ensures t == u
  {
    var path := key[..|key| - |Ending(t)|];
    assert key == path + Ending(t);
    SameEnding(path, t, u);
  }

  /** An expression with a suffix is there for the one without. */
  lemma {:induction false} SuffixKey(m: OpMap, tree: SchemaTree, root: SchemaNode, first: string, suffix: string)
    requires Compiled(m, tree, root) && first + suffix in m && (suffix == "~" || suffix == "()")
    ensures first in m && PairKey(m, first) == Some(first + suffix)
  {
    hide Expand, NamesOk, TreeNamesOk, PlainList, Represents, Has;
    var key := first + suffix;
    CompiledIsPaired(m, tree, root, key);
    assert key[|key| - 1] == if suffix == "~" then '~' else ')';
    var k :| k in m && k != "" && !IsMark(k[|k| - 1]) && PairKey(m, k) == Some(key);
    assert key[..|first|] == first && key[..|k|] == k;
  }

  /** The pair of an element of the map. */
  lemma {:induction false} PairOf(m: OpMap, tree: SchemaTree, root: SchemaNode, key: string)
    requires Compiled(m, tree, root) && key in m && key != "" && !IsMark(key[|key| - 1])
    ensures OnlyNamedRefer(m[key]) && !IsValue(m[key].id)
    ensures var other := PairKey(m, key);
            other.Some? ==> && other.value in m && GoWith(m[key].id, m[other.value].id) && SameMask(m, key, other.value)
                            && OnlyNamedRefer(m[other.value])
  {
    hide Expand, NamesOk, TreeNamesOk, PlainList, Represents, Has;
    CompiledIsPaired(m, tree, root, key);
    if PairKey(m, key).Some? { CompiledIsPaired(m, tree, root, PairKey(m, key).value); }
  }

  /** The pair of an expression, with nothing else to it. */
  ghost predicate PairOk(m: OpMap, key: string)
    requires key in m
  {
    && OnlyNamedRefer(m[key]) && PairKey(m, key).Some?
    && var other := PairKey(m, key).value;
       other in m && GoWith(m[key].id, m[other].id) && SameMask(m, key, other) && OnlyNamedRefer(m[other])
  }

  /** The only expression of the map that matches a path. */
  ghost predicate IsOnly(m: OpMap, path: seq<Tag>, key: string) {
    key in m && Matches(key, path) && forall k :: k in m && Matches(k, path) ==> k == key
  }

  lemma {:induction false} OpenFound(m: OpMap, tree: SchemaTree, root: SchemaNode, path: seq<Tag>, name: string, ops: seq<A.Op>)
    returns (key: string)
    requires Compiled(m, tree, root) && AreNames(path) && IsName(name) && Finds(m, OpenPlace(path, name), ops) && |ops| == 1
    ensures IsOnly(m, path + [Tag(name, false)], key) && StandsFor(ops[0], m[key]) && IsPlainKey(m, key, false)
    ensures PairOk(m, key)
  {
    hide Compiled, Finds, Matches, IsName, Has;
    var pl := OpenPlace(path, name);
    key := FoundSome(m, pl, ops);
    forall k ensures IsFoundAt(k, pl) <==> Matches(k, pl.path) {
      assert k[..|k| - 0] == k && k[|k|..] == "";
    }
    PlainKey(m, tree, root, key, pl.path);
    PairOf(m, tree, root, key);
  }

  /** What is found for the content and the end of an element. */
  lemma {:induction false} SuffixFound(m: OpMap, tree: SchemaTree, root: SchemaNode, pl: Place, key: string, ops: seq<A.Op>)
    requires Compiled(m, tree, root) && IsOnly(m, pl.path, key) && Finds(m, pl, ops)
    requires pl.suffix == Some("~") || pl.suffix == Some("()")
    ensures if PairKey(m, key) == Some(key + pl.suffix.value) && key + pl.suffix.value in m
            then |ops| == 1 && StandsFor(ops[0], m[key + pl.suffix.value]) else ops == []
  {
    hide Compiled, Finds, Matches, StandsFor, PairKey;
    var other := key + pl.suffix.value;
    forall k | k in m && IsFoundAt(k, pl) ensures k == other && PairKey(m, key) == Some(other) {
      var first := k[..|k| - |pl.suffix.value|];
      assert k == first + pl.suffix.value;
      SuffixKey(m, tree, root, first, pl.suffix.value);
    }
    if PairKey(m, key) == Some(other) && other in m {
      assert other[..|key|] == key && other[|key|..] == pl.suffix.value;
      FoundOne(m, pl, ops, other);
    } else {
      FoundNone(m, pl, ops);
    }
  }

  // ---------------------------------------------------------------- the items of a document

  predicate DocNamesOk(docs: seq<Doc>)
    decreases docs, 1
  {
    docs == [] || (DocNameOk(docs[0]) && DocNamesOk(docs[1..]))
  }

  predicate DocNameOk(d: Doc)
    decreases d, 0
  {
    match d
    case Text(_) => true
    case Attribute(name, _) => IsName(name)
    case Element(name, items) => IsName(name) && DocNamesOk(items)
  }

  ghost predicate AtomicAt(m: OpMap, path: seq<Tag>) {
    exists key :: key in m && Matches(key, path) && m[key].id == NameAtomic
  }

  /** There is nothing but text in atomic elements. */
  ghost predicate LeavesHoldText(m: OpMap, path: seq<Tag>, docs: seq<Doc>)
    decreases docs, 1
  {
    docs == [] || (LeafHoldsText(m, path, docs[0]) && LeavesHoldText(m, path, docs[1..]))
  }

  ghost predicate LeafHoldsText(m: OpMap, path: seq<Tag>, d: Doc)
    decreases d, 0
  {
    d.Element? ==>
      var inside := path + [Tag(d.name, false)];
      if AtomicAt(m, inside) then forall i :: 0 <= i < |d.items| ==> d.items[i].Text?
      else LeavesHoldText(m, inside, d.items)
  }

  /** What a request that is not refused is like. */
  predicate Singly(events: seq<A.Event>) {
    forall i :: 0 <= i < |events| ==>
      && |events[i].ops| <= 1
      && (events[i].elem.etype == A.OpenTag || events[i].elem.etype == A.AttribValue ==> |events[i].ops| == 1)
      && (events[i].elem.etype == A.ContentElement && !A.IsBlank(events[i].elem.value) ==> |events[i].ops| == 1)
  }

  lemma {:induction false} AcceptedSingly(events: seq<A.Event>, st: A.State)
    requires A.Run(None, events, st).Some?
    ensures Singly(events)
  {
    forall i: nat | i < |events|
      ensures |events[i].ops| <= 1
      ensures events[i].elem.etype == A.OpenTag || events[i].elem.etype == A.AttribValue ==> |events[i].ops| == 1
      ensures events[i].elem.etype == A.ContentElement && !A.IsBlank(events[i].elem.value) ==> |events[i].ops| == 1
    {
      A.AcceptedEvents(None, events, st, i);
    }
  }

  /** The item made of an element has what is found for it. */
  ghost predicate Corresponds(m: OpMap, path: seq<Tag>, d: Doc, item: A.Item) {
    match d
    case Text(_) => item.Blank?
    case Attribute(_, _) => item.Attr?
    case Element(name, _) =>
      match item
      case Struct(n, _, _, _, _, _) => n == name && Finds(m, OpenPlace(path, name), A.OpenOf(item).ops)
      case Leaf(n, _, mask) => n == name && Finds(m, OpenPlace(path, name), [A.Op(A.NameAtomic, {}, mask)])
      case _ => false
  }

  /** Elements of the same name next to each other have the same operations. */
  lemma {:induction false} SameNameFits(m: OpMap, path: seq<Tag>, d: Doc, a: A.Item, e: Doc, b: A.Item)
    requires Corresponds(m, path, d, a) && Corresponds(m, path, e, b)
    ensures A.Fits(a, b)
  {
    hide Finds;
    if a.Struct? && a.isArray && !b.Blank? && !b.Attr? && b.name == a.name {
      var o := A.OpenOf(a).ops[0];
      var q := if b.Struct? then A.OpenOf(b).ops[0] else A.Op(A.NameAtomic, {}, b.mask);
      FoundOnce(m, OpenPlace(path, a.name), o, q);
    }
  }

  lemma {:induction false} NoBitsIsEmpty(w: Word)
    requires IsEmpty(w)
    ensures BitSet(w) == {}
  {
  }

  lemma {:induction false} SameBits(m: OpMap, key: string, other: string)
    requires key in m && other in m && SameMask(m, key, other)
    ensures BitSet(m[key].mask) == BitSet(m[other].mask)
  {
    assert forall b :: Has(m[key].mask, b) <==> Has(m[other].mask, b);
  }

  lemma {:induction false} NameStands(op: A.Op, o: SchemaOperation)
    requires StandsFor(op, o) && OnlyNamedRefer(o) && (o.id == NameAtomic || o.id == ValueString || o.id == AttributeString)
    ensures op.refs == {} && SameId(op.id, o.id) && op.mask == BitSet(o.mask)
    ensures o.id == NameAtomic ==> op.id == A.NameAtomic
    ensures o.id == ValueString ==> op.id == A.ValueString
    ensures o.id == AttributeString ==> op.id == A.AttributeString
  {
    NoBitsIsEmpty(o.refs);
  }

  function StructItem(op: A.Op, name: string, items: seq<A.Item>): A.Item {
    A.Item.Struct(name, op.id == A.OpenNamedStructure || op.id == A.OpenNamedStructureArray,
                  op.id == A.OpenNamedStructureArray || op.id == A.OpenStructureArray, op.refs, op.mask, items)
  }

  /** What opens and what closes a structure are those of the item made of it. */
  lemma {:induction false} StructStands(op: A.Op, o: SchemaOperation, close: A.Op, c: SchemaOperation, name: string, items: seq<A.Item>)
    requires StandsFor(op, o) && StandsFor(close, c) && IsOpening(o.id) && GoWith(o.id, c.id)
    requires OnlyNamedRefer(c) && BitSet(o.mask) == BitSet(c.mask)
    ensures A.OpenOf(StructItem(op, name, items)).ops == [op]
    ensures A.CloseOf(StructItem(op, name, items)).ops == [close]
  {
    NoBitsIsEmpty(c.refs);
  }

  lemma {:induction false} FoundForParts(m: OpMap, a: seq<Place>, b: seq<Place>, events: seq<A.Event>)
    requires FoundFor(m, a + b, events) && Singly(events)
    ensures |a| <= |events| && FoundFor(m, a, events[..|a|]) && FoundFor(m, b, events[|a|..])
    ensures Singly(events[..|a|]) && Singly(events[|a|..])
    ensures events == events[..|a|] + events[|a|..]
  {
    hide Finds;
    assert forall i :: 0 <= i < |b| ==> (a + b)[|a| + i] == b[i];
    assert forall i :: 0 <= i < |a| ==> (a + b)[i] == a[i];
  }

  /** The content of an atomic element. */
  lemma {:induction false} TextFound(m: OpMap, tree: SchemaTree, root: SchemaNode, inside: seq<Tag>, s: string, e: A.Event, key: string)
    requires Compiled(m, tree, root) && IsOnly(m, inside, key) && m[key].id == NameAtomic && IsPlainKey(m, key, false)
    requires SameMask(m, key, key + "()") && OnlyNamedRefer(m[key + "()"])
    requires e.elem == TextPlace(inside, s).elem && Finds(m, TextPlace(inside, s), e.ops)
    ensures e == A.Event(A.RequestElement(A.ContentElement, s), [A.Op(A.ValueString, {}, BitSet(m[key].mask))])
  {
    hide Compiled, Finds, Matches, StandsFor, OnlyNamedRefer, BitSet, Has;
    SuffixFound(m, tree, root, TextPlace(inside, s), key, e.ops);
    NameStands(e.ops[0], m[key + "()"]);
    SameBits(m, key, key + "()");
    assert e.ops == [e.ops[0]];
  }

  lemma {:induction false} ContentOf(m: OpMap, tree: SchemaTree, root: SchemaNode, inside: seq<Tag>, docs: seq<Doc>, events: seq<A.Event>, key: string)
    returns (content: seq<string>)
    requires Compiled(m, tree, root) && IsOnly(m, inside, key) && m[key].id == NameAtomic && IsPlainKey(m, key, false)
    requires SameMask(m, key, key + "()") && OnlyNamedRefer(m[key + "()"])
    requires FoundFor(m, Places(inside, docs), events) && Singly(events) && forall i :: 0 <= i < |docs| ==> docs[i].Text?
    ensures A.ContentEvents(content, BitSet(m[key].mask)) == events
    decreases docs
  {
    if docs == [] {
      content := [];
    } else {
      hide Compiled, Finds, IsOnly, IsPlainKey, SameMask, OnlyNamedRefer, BitSet;
      var pl, more := TextPlace(inside, docs[0].s), Places(inside, docs[1..]);
      assert Places(inside, docs) == [pl] + more;
      FoundForParts(m, [pl], more, events);
      FoundFirst(m, pl, events[..1]);
      TextFound(m, tree, root, inside, docs[0].s, events[..1][0], key);
      var rest := ContentOf(m, tree, root, inside, docs[1..], events[1..], key);
      content := [docs[0].s] + rest;
      assert content[1..] == rest;
    }
  }

  lemma {:induction false} FoundFirst(m: OpMap, pl: Place, events: seq<A.Event>)
    requires FoundFor(m, [pl], events)
    ensures |events| == 1 && events[0].elem == pl.elem && Finds(m, pl, events[0].ops)
  {
    assert [pl][0] == pl;
  }

  /** An atomic element with its text. */
  lemma {:induction false} LeafOf(m: OpMap, tree: SchemaTree, root: SchemaNode, path: seq<Tag>, name: string, docs: seq<Doc>,
                                  open: A.Event, inner: seq<A.Event>, close: A.Event, key: string)
    returns (item: A.Item)
    requires Compiled(m, tree, root) && IsOnly(m, path + [Tag(name, false)], key) && IsPlainKey(m, key, false) && m[key].id == NameAtomic
    requires PairOk(m, key) && |open.ops| == 1 && StandsFor(open.ops[0], m[key])
    requires open.elem == OpenPlace(path, name).elem && Finds(m, OpenPlace(path, name), open.ops)
    requires close.elem == ClosePlace(path, name).elem && Finds(m, ClosePlace(path, name), close.ops)
    requires FoundFor(m, Places(path + [Tag(name, false)], docs), inner) && Singly(inner) && forall i :: 0 <= i < |docs| ==> docs[i].Text?
    ensures item.Leaf? && item.name == name && A.ItemEvents(item) == [open] + inner + [close]
    ensures Finds(m, OpenPlace(path, name), [A.Op(A.NameAtomic, {}, item.mask)])
  {
    hide Compiled, Finds, Matches, StandsFor, BitSet, Places;
    var inside := path + [Tag(name, false)];
    var content := ContentOf(m, tree, root, inside, docs, inner, key);
    NameStands(open.ops[0], m[key]);
    SuffixFound(m, tree, root, ClosePlace(path, name), key, close.ops);
    assert PairKey(m, key) == Some(key + "()") != Some(key + "~") by { assert (key + "()")[|key|] != (key + "~")[|key|]; }
    item := A.Leaf(name, content, BitSet(m[key].mask));
    assert open.ops == [open.ops[0]] && close.ops == [];
  }

  /** A structure with the items made of its content. */
  lemma {:induction false} StructOf(m: OpMap, tree: SchemaTree, root: SchemaNode, path: seq<Tag>, name: string, items: seq<A.Item>,
                                    open: A.Event, close: A.Event, key: string)
    returns (item: A.Item)
    requires Compiled(m, tree, root) && IsOnly(m, path + [Tag(name, false)], key) && IsPlainKey(m, key, false) && m[key].id != NameAtomic
    requires PairOk(m, key) && |open.ops| == 1 && StandsFor(open.ops[0], m[key])
    requires open.elem == OpenPlace(path, name).elem && Finds(m, OpenPlace(path, name), open.ops)
    requires close.elem == ClosePlace(path, name).elem && Finds(m, ClosePlace(path, name), close.ops)
    ensures item.Struct? && item.name == name && item.items == items
    ensures A.ItemEvents(item) == [open] + A.Events(items) + [close] && A.OpenOf(item).ops == open.ops
  {
    hide Compiled, Finds, Matches, StandsFor, BitSet, SameMask;
    SuffixFound(m, tree, root, ClosePlace(path, name), key, close.ops);
    SameBits(m, key, key + "~");
    StructStands(open.ops[0], m[key], close.ops[0], m[key + "~"], name, items);
    item := StructItem(open.ops[0], name, items);
    assert open.ops == [open.ops[0]] && close.ops == [close.ops[0]];
  }

  lemma {:induction false} AtomicIff(m: OpMap, path: seq<Tag>, key: string)
    requires IsOnly(m, path, key)
    ensures AtomicAt(m, path) <==> m[key].id == NameAtomic
  {
  }

  /** Only within an atomic element there is an operation for text. */
  lemma {:induction false} NoTextFound(m: OpMap, tree: SchemaTree, root: SchemaNode, path: seq<Tag>, s: string, ops: seq<A.Op>)
    requires Compiled(m, tree, root) && AreNames(path) && (path != [] ==> !path[|path| - 1].attribute)
    requires Finds(m, TextPlace(path, s), ops)
    ensures ops == [] || AtomicAt(m, path)
  {
    hide Compiled, Finds, Matches, AtomicAt;
    var pl := TextPlace(path, s);
    forall k | k in m && IsFoundAt(k, pl) ensures AtomicAt(m, path) {
      assert k == k[..|k| - 2] + "()";
      TextKeyIsAtomic(m, tree, root, path, k[..|k| - 2]);
    }
    if !AtomicAt(m, path) { FoundNone(m, pl, ops); }
  }

  lemma {:induction false} TextKeyIsAtomic(m: OpMap, tree: SchemaTree, root: SchemaNode, path: seq<Tag>, first: string)
    requires Compiled(m, tree, root) && AreNames(path) && (path != [] ==> !path[|path| - 1].attribute)
    requires first + "()" in m && Matches(first, path)
    ensures AtomicAt(m, path)
  {
    hide Compiled, Matches;
    SuffixKey(m, tree, root, first, "()");
    NotEmpty(m, tree, root, first);
    EmptyMatches(first);
    PlainKey(m, tree, root, first, path);
    assert (first + "()")[|first|] != (first + "~")[|first|];
  }

  lemma {:induction false} NotEmpty(m: OpMap, tree: SchemaTree, root: SchemaNode, key: string)
    requires Compiled(m, tree, root) && key in m
    ensures key != ""
  {
    hide Expand, NamesOk, TreeNamesOk, PlainList, Represents, Has;
    CompiledIsPaired(m, tree, root, key);
  }

  /** The items of a document that is not refused, with what is found for its elements. */
  lemma {:induction false} ItemsOf(m: OpMap, tree: SchemaTree, root: SchemaNode, path: seq<Tag>, docs: seq<Doc>, events: seq<A.Event>)
    returns (items: seq<A.Item>)
    requires Compiled(m, tree, root) && AreNames(path) && (path != [] ==> !path[|path| - 1].attribute) && !AtomicAt(m, path)
    requires DocNamesOk(docs) && LeavesHoldText(m, path, docs)
    requires FoundFor(m, Places(path, docs), events) && Singly(events)
    ensures A.WellFormed(items) && A.Events(items) == events && |items| == |docs|
    ensures items != [] ==> Corresponds(m, path, docs[0], items[0])
    decreases docs, 1
  {
    hide Compiled, AreNames, AtomicAt, Finds, Singly, Corresponds, FoundFor, DocPlaces, DocNameOk, LeafHoldsText;
    if docs == [] {
      NoPlaces(m, path, events);
      items := [];
    } else {
      var first, more := DocPlaces(path, docs[0]), Places(path, docs[1..]);
      FoundForParts(m, first, more, events);
      var item := ItemOf(m, tree, root, path, docs[0], events[..|first|]);
      var rest := ItemsOf(m, tree, root, path, docs[1..], events[|first|..]);
      items := [item] + rest;
      assert items[1..] == rest;
      if rest != [] { SameNameFits(m, path, docs[0], item, docs[1], rest[0]); }
    }
  }

  lemma {:induction false} NoPlaces(m: OpMap, path: seq<Tag>, events: seq<A.Event>)
    requires FoundFor(m, Places(path, []), events)
    ensures events == []
  {
  }

  lemma {:induction false} ItemOf(m: OpMap, tree: SchemaTree, root: SchemaNode, path: seq<Tag>, d: Doc, events: seq<A.Event>)
    returns (item: A.Item)
    requires Compiled(m, tree, root) && AreNames(path) && (path != [] ==> !path[|path| - 1].attribute) && !AtomicAt(m, path)
    requires DocNameOk(d) && LeafHoldsText(m, path, d)
    requires FoundFor(m, DocPlaces(path, d), events) && Singly(events)
    ensures A.WellFormedItem(item) && A.ItemEvents(item) == events && Corresponds(m, path, d, item)
    decreases d, 0
  {
    match d
    case Text(s) => item := BlankOf(m, tree, root, path, s, events);
    case Attribute(name, value) => item := AttrOf(m, tree, root, path, name, value, events);
    case Element(name, docs) => item := ElementOf(m, tree, root, path, name, docs, events);
  }

  lemma {:induction false} BlankOf(m: OpMap, tree: SchemaTree, root: SchemaNode, path: seq<Tag>, s: string, events: seq<A.Event>)
    returns (item: A.Item)
    requires Compiled(m, tree, root) && AreNames(path) && (path != [] ==> !path[|path| - 1].attribute) && !AtomicAt(m, path)
    requires FoundFor(m, DocPlaces(path, Text(s)), events) && Singly(events)
    ensures item.Blank? && A.WellFormedItem(item) && A.ItemEvents(item) == events
  {
    hide Compiled, AtomicAt, Finds;
    FoundFirst(m, TextPlace(path, s), events);
    NoTextFound(m, tree, root, path, s, events[0].ops);
    item := A.Blank(s);
    assert events == [events[0]];
  }

  lemma {:induction false} AttrOf(m: OpMap, tree: SchemaTree, root: SchemaNode, path: seq<Tag>, name: string, value: string, events: seq<A.Event>)
    returns (item: A.Item)
    requires Compiled(m, tree, root) && AreNames(path) && IsName(name)
    requires FoundFor(m, DocPlaces(path, Attribute(name, value)), events) && Singly(events)
    ensures item.Attr? && A.ItemEvents(item) == events
  {
    hide Compiled, Finds, Matches, IsName;
    var np, vp := NamePlace(path, name), ValuePlace(path, name, value);
    assert DocPlaces(path, Attribute(name, value)) == [np] + [vp];
    FoundForParts(m, [np], [vp], events);
    FoundFirst(m, np, events[..1]);
    FoundFirst(m, vp, events[1..]);
    var ops := events[1..][0].ops;
    FoundNone(m, np, events[..1][0].ops);
    var key := FoundSome(m, vp, ops);
    assert key[..|key| - 0] == key && vp.path[|vp.path| - 1] == Tag(name, true);
    PlainKey(m, tree, root, key, vp.path);
    PairOf(m, tree, root, key);
    NameStands(ops[0], m[key]);
    item := A.Attr(name, value, ops[0].mask);
    assert ops == [ops[0]];
  }

  lemma {:induction false} ElementOf(m: OpMap, tree: SchemaTree, root: SchemaNode, path: seq<Tag>, name: string, docs: seq<Doc>, events: seq<A.Event>)
    returns (item: A.Item)
    requires Compiled(m, tree, root) && AreNames(path) && IsName(name) && DocNamesOk(docs) && LeafHoldsText(m, path, Element(name, docs))
    requires FoundFor(m, DocPlaces(path, Element(name, docs)), events) && Singly(events)
    ensures A.WellFormedItem(item) && A.ItemEvents(item) == events && Corresponds(m, path, Element(name, docs), item)
    decreases docs, 2
  {
    hide Compiled, Finds, Matches, AtomicAt, IsName, FoundFor, Singly, IsPlainKey, StandsFor, PairOk, Places;
    var inside, op, cp := path + [Tag(name, false)], OpenPlace(path, name), ClosePlace(path, name);
    var inner := Places(inside, docs);
    assert DocPlaces(path, Element(name, docs)) == [op] + (inner + [cp]);
    FoundForParts(m, [op], inner + [cp], events);
    var tail := events[1..];
    FoundForParts(m, inner, [cp], tail);
    FoundFirst(m, op, events[..1]);
    FoundFirst(m, cp, tail[|inner|..]);
    var open, close, middle := events[..1][0], tail[|inner|..][0], tail[..|inner|];
    assert events == [open] + middle + [close];
    OpensSingly(events[..1], op);
    var key := OpenFound(m, tree, root, path, name, open.ops);
    AtomicIff(m, inside, key);
    if m[key].id == NameAtomic {
      item := LeafOf(m, tree, root, path, name, docs, open, middle, close, key);
    } else {
      var items := ItemsOf(m, tree, root, inside, docs, middle);
      item := StructOf(m, tree, root, path, name, items, open, close, key);
    }
  }

  lemma {:induction false} OpensSingly(events: seq<A.Event>, pl: Place)
    requires Singly(events) && |events| == 1 && events[0].elem == pl.elem && pl.elem.etype == A.OpenTag
    ensures |events[0].ops| == 1
  {
  }

  /** With a compiled schema, whatever is found for the elements of a document, the serializer refuses it or leaves
      both stacks empty and its output balanced: the events are those of well-formed items. */
  lemma {:induction false} CompiledIsBalanced(m: OpMap, tree: SchemaTree, root: SchemaNode, docs: seq<Doc>, events: seq<A.Event>)
    returns (items: seq<A.Item>)
    requires Compiled(m, tree, root) && DocNamesOk(docs) && LeavesHoldText(m, [], docs)
    requires FoundFor(m, Places([], docs), events)
    requires A.Run(None, events, A.State([], [], [], false, false)).Some?
    ensures A.WellFormed(items) && A.Events(items) == events
    ensures var st := A.Run(None, events, A.State([], [], [], false, false)).value;
            st.sets == [] && st.arrays == [] && A.Balanced(st.out) && st.out == A.NodesOf(items)
  {
    hide Compiled, Finds, Matches, A.Run, A.Balanced, A.Events, FoundFor;
    AcceptedSingly(events, A.State([], [], [], false, false));
    NothingAtRoot(m, tree, root);
    items := ItemsOf(m, tree, root, [], docs, events);
    A.RequestResult(items, []);
    assert [] + A.NodesOf(items) == A.NodesOf(items);
  }

  lemma {:induction false} NothingAtRoot(m: OpMap, tree: SchemaTree, root: SchemaNode)
    requires Compiled(m, tree, root)
    ensures !AtomicAt(m, [])
  {
    hide Compiled;
    forall key | key in m ensures !Matches(key, []) {
      NotEmpty(m, tree, root, key);
      EmptyMatches(key);
    }
  }
}
