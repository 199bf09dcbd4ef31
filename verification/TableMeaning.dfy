/** The table that a well-formed serialization stands for, by its elements. */
module TableMeaning {
  import opened Flatten
  import opened LuaTables
  import opened Sequences
  import opened Serialization
  import opened SerializationTrees

  // ---------------------------------------------------------------- fields

  ghost predicate DistinctKeys(t: Table) {
    forall i, j :: 0 <= i < j < |t| ==> t[i].key != t[j].key
  }

  /** Setting a field changes that one only; no value removes it. */
  lemma {:induction false} RawSetIsUpdate(t: Table, k: Key, v: Option<LuaValue>)
    requires DistinctKeys(t)
    ensures DistinctKeys(RawSet(t, k, v))
    ensures forall f :: f in RawSet(t, k, v) <==> if f.key == k then v == Some(f.value) else f in t
  {
    if t != [] {
      assert t == [t[0]] + t[1..] && DistinctKeys(t[1..]);
      assert forall f :: f in t[1..] ==> f.key != t[0].key;
      if t[0].key != k {
        RawSetIsUpdate(t[1..], k, v);
        assert forall f :: f in RawSet(t[1..], k, v) ==> f.key != t[0].key;
      }
    }
  }

  // ---------------------------------------------------------------- the value of a tree

  predicate Names(c: Content, k: Key) {
    match c
    case Int(n) => k == KInt(n)
    case Str(s) => k == KStr(s)
    case Bool(b) => k == KBool(b)
    case _ => false
  }

  /** Atoms are values, nothing is none, and structures without an id are tables. */
  function TreeValue(t: Tree): Option<Option<LuaValue>>
    decreases t
  {
    match t
    case Atom(Void) => Some(None)
    case Atom(Int(n)) => Some(Some(LInt(n)))
    case Atom(Str(s)) => Some(Some(LStr(s)))
    case Atom(Bool(b)) => Some(Some(LBool(b)))
    case Atom(_) => None
    case Struct(id, es) =>
      var p := Filled(es);
      if id == 0 && p.Some? then Some(Some(LTable(p.value.t))) else None
  }

  function ElemValue(e: Elem): Option<Option<LuaValue>>
    decreases e
  {
    TreeValue(e.tree)
  }

  /** The table with the fields of the elements, one set after the other: that of its name or else of the next index. */
  function Filled(es: seq<Elem>): Option<Progress>
    decreases es
  {
    if es == [] then Some(Start)
    else
      var p, e := Filled(es[..|es| - 1]), es[|es| - 1];
      var v := ElemValue(e);
      if p.None? || v.None? then None
      else if e.name.None? then Some(Progress(RawSet(p.value.t, KInt(p.value.idx + 1), v.value), None, p.value.idx + 1))
      else
        var k := KeyOfName(e.name.value);
        if k.None? then None else Some(Progress(RawSet(p.value.t, k.value, v.value), None, p.value.idx))
  }

  // ---------------------------------------------------------------- which field has which value

  function Positions(es: seq<Elem>): nat {
    if es == [] then 0 else Positions(es[..|es| - 1]) + if es[|es| - 1].name.None? then 1 else 0
  }

  /** The key is the name, or else the number of elements without name up to this one. */
  predicate HasKey(es: seq<Elem>, i: nat, k: Key)
    requires i < |es|
  {
    match es[i].name
    case Some(c) => Names(c, k)
    case None => k == KInt(Positions(es[..i + 1]))
  }

  /** The last element with a key. */
  ghost predicate IsLast(es: seq<Elem>, i: nat, k: Key) {
    i < |es| && HasKey(es, i, k) && forall j: nat :: i < j < |es| ==> !HasKey(es, j, k)
  }

  /** The last element that has the key of the field has its value. */
  ghost predicate Given(es: seq<Elem>, f: Field) {
    exists i: nat :: IsLast(es, i, f.key) && TreeValue(es[i].tree) == Some(Some(f.value))
  }

  lemma {:induction false} KeyInPrefix(es: seq<Elem>, i: nat, k: Key)
    requires i + 1 < |es|
    ensures HasKey(es[..|es| - 1], i, k) <==> HasKey(es, i, k)
  {
    assert es[..|es| - 1][..i + 1] == es[..i + 1];
  }

  lemma {:induction false} LastInPrefix(es: seq<Elem>, i: nat, k: Key)
    requires es != []
    ensures var n := |es| - 1;
            IsLast(es, i, k) <==> if i == n then HasKey(es, n, k) else IsLast(es[..n], i, k) && !HasKey(es, n, k)
  {
    hide HasKey;
    var n := |es| - 1;
    forall j: nat | j < n ensures HasKey(es[..n], j, k) <==> HasKey(es, j, k) {
      KeyInPrefix(es, j, k);
    }
  }

  lemma {:induction false} GivenInPrefix(es: seq<Elem>, f: Field)
    requires es != []
    ensures var n := |es| - 1;
            Given(es, f) <==> if HasKey(es, n, f.key) then TreeValue(es[n].tree) == Some(Some(f.value)) else Given(es[..n], f)
  {
    hide HasKey, TreeValue;
    var n := |es| - 1;
    LastInPrefix(es, n, f.key);
    if i: nat :| IsLast(es[..n], i, f.key) && TreeValue(es[..n][i].tree) == Some(Some(f.value)) {
      LastInPrefix(es, i, f.key);
      assert es[..n][i] == es[i];
    }
    if i: nat :| IsLast(es, i, f.key) && TreeValue(es[i].tree) == Some(Some(f.value)) {
      LastInPrefix(es, i, f.key);
      if i < n { assert es[..n][i] == es[i]; }
    }
  }

  /** A table has exactly the fields given by its elements: of those with the same key the last one counts, and
      nothing removes the field. */
  lemma {:induction false} FilledFields(es: seq<Elem>)
    requires Filled(es).Some?
    ensures var p := Filled(es).value;
            p.name == None && p.idx == Positions(es) && DistinctKeys(p.t) && forall f :: f in p.t <==> Given(es, f)
  {
    hide RawSet, IsLast, Given, TreeValue;
    if es == [] {
      forall f ensures !Given(es, f) { GivenNone(f); }
    } else {
      var n := |es| - 1;
      FilledFields(es[..n]);
      assert es[..n + 1] == es;
      var p := Filled(es[..n]).value;
      var v := ElemValue(es[n]);
      assert v == TreeValue(es[n].tree);
      var k := if es[n].name.None? then KInt(p.idx + 1) else KeyOfName(es[n].name.value).value;
      RawSetIsUpdate(p.t, k, v.value);
      forall f ensures f in Filled(es).value.t <==> Given(es, f) {
        GivenInPrefix(es, f);
        assert HasKey(es, n, f.key) <==> f.key == k;
      }
    }
  }

  lemma {:induction false} GivenNone(f: Field)
    ensures !Given([], f)
  {
  }

  // ---------------------------------------------------------------- what can be read

  /** No structures with an id, and no names that are nothing. */
  predicate ReadableTree(t: Tree)
    decreases t
  {
    match t
    case Atom(c) => !c.Embedded?
    case Struct(id, es) => id == 0 && ReadableElems(es)
  }

  predicate ReadableElem(e: Elem)
    decreases e
  {
    (e.name.Some? ==> !e.name.value.Void? && !e.name.value.Embedded?) && ReadableTree(e.tree)
  }

  predicate ReadableElems(es: seq<Elem>)
    decreases es
  {
    forall i :: 0 <= i < |es| ==> ReadableElem(es[i])
  }

  lemma {:induction false} TreeIsReadable(t: Tree)
    ensures TreeValue(t).Some? <==> ReadableTree(t)
    decreases t
  {
    if t.Struct? { ElemsAreReadable(t.elems); }
  }

  lemma {:induction false} ElemIsReadable(e: Elem)
    ensures ReadableElem(e) <==> ElemValue(e).Some? && (e.name.Some? ==> KeyOfName(e.name.value).Some?)
    decreases e
  {
    TreeIsReadable(e.tree);
  }

  lemma {:induction false} ElemsAreReadable(es: seq<Elem>)
    ensures Filled(es).Some? <==> ReadableElems(es)
    decreases es
  {
    if es != [] {
      var n := |es| - 1;
      ElemsAreReadable(es[..n]);
      ElemIsReadable(es[n]);
      assert forall i :: 0 <= i < n ==> es[..n][i] == es[i];
    }
  }

  // ---------------------------------------------------------------- reading nodes is reading their meaning

  lemma {:induction false} ReadTree(nodes: seq<Node>, p: Progress)
    requires ParseTree(nodes).Some?
    ensures var (t, rest) := ParseTree(nodes).value;
            ReadNode(nodes, p) == if TreeValue(t).None? then None else ReadNode(rest, p.Add(TreeValue(t).value))
    decreases Weight(nodes), 0
  {
    hide RawSet;
    match nodes[0]
    case Value(c) =>
      if c.Embedded? {
        assert NodeWeight(nodes[0]) == 1 + ContentWeight(c) == 2 + Weight(c.nodes);
        ReadInner(c.nodes);
      }
    case Open(id) =>
      ReadInner(nodes[1..]);
  }

  lemma {:induction false} ReadInner(nodes: seq<Node>)
    requires ParseElems(nodes).Some?
    ensures var (es, rest) := ParseElems(nodes).value;
            ReadNode(nodes, Start) == if Filled(es).None? then None else Some((Filled(es).value.t, rest))
    decreases Weight(nodes), 3
  {
    hide ReadNode;
    ReadElems(nodes, []);
    var (es, rest) := ParseElems(nodes).value;
    assert [] + es == es;
  }

  /** Reading on behind some elements reads those that follow. */
  lemma {:induction false} ReadElems(nodes: seq<Node>, before: seq<Elem>)
    requires ParseElems(nodes).Some? && Filled(before).Some?
    ensures var (es, rest) := ParseElems(nodes).value;
            ReadNode(nodes, Filled(before).value) == if Filled(before + es).None? then None else Some((Filled(before + es).value.t, rest))
    decreases Weight(nodes), 2
  {
    hide RawSet, ReadNode;
    var (es, rest) := ParseElems(nodes).value;
    if nodes == [] || nodes[0].Close? {
      assert before + es == before;
      ReadEnd(nodes, Filled(before).value);
    } else {
      var (e, tail) := ParseElem(nodes).value;
      var (fs, _) := ParseElems(tail).value;
      ReadElem(nodes, before);
      assert es == [e] + fs && before + es == before + [e] + fs;
      if Filled(before + [e]).Some? {
        ReadElems(tail, before + [e]);
      } else {
        FilledPrefix(before + [e], fs);
      }
    }
  }

  lemma {:induction false} ReadEnd(nodes: seq<Node>, p: Progress)
    requires nodes == [] || nodes[0].Close?
    ensures ReadNode(nodes, p) == Some((p.t, nodes))
  {
  }

  lemma {:induction false} FilledPrefix(a: seq<Elem>, b: seq<Elem>)
    requires Filled(a).None?
    ensures Filled(a + b).None?
  {
    if b == [] {
      assert a + b == a;
    } else {
      FilledPrefix(a, b[..|b| - 1]);
      assert (a + b)[..|a + b| - 1] == a + b[..|b| - 1];
    }
  }

  lemma {:induction false} ReadElem(nodes: seq<Node>, before: seq<Elem>)
    requires ParseElem(nodes).Some? && Filled(before).Some?
    ensures var (e, rest) := ParseElem(nodes).value;
            ReadNode(nodes, Filled(before).value)
            == if Filled(before + [e]).None? then None else ReadNode(rest, Filled(before + [e]).value)
    decreases Weight(nodes), 1
  {
    hide RawSet;
    var (e, rest) := ParseElem(nodes).value;
    var p := Filled(before).value;
    FilledFields(before);
    assert (before + [e])[..|before|] == before && ElemValue(e) == TreeValue(e.tree);
    if nodes[0].Name? {
      var k := KeyOfName(nodes[0].name);
      ReadTree(nodes[1..], p.(name := k));
    } else {
      ReadTree(nodes, p);
    }
  }

  /** Reading a well-formed serialization succeeds exactly if there are no structures with an id and no names that
      are nothing; then it gives the table of its elements. */
  lemma {:induction false} ReadIsMeaning(nodes: seq<Node>)
    requires Meaning(nodes).Some?
    ensures var es := Meaning(nodes).value;
            && (ReadNode(nodes, Start).Some? <==> ReadableElems(es)) && (ReadableElems(es) <==> Filled(es).Some?)
            && (ReadableElems(es) ==> ReadNode(nodes, Start) == Some((Filled(es).value.t, [])))
  {
    ReadInner(nodes);
    ElemsAreReadable(Meaning(nodes).value);
  }

  /** Embedded serializations are read as what they contain: with all of them replaced, the same table is read, or
      reading fails as before. */
  lemma {:induction false} FlatteningKeepsTable(nodes: seq<Node>)
    requires Meaning(nodes).Some?
    ensures ReadNode(Flattened(nodes), Start) == ReadNode(nodes, Start)
  {
    FlatteningKeepsMeaning(nodes);
    ReadIsMeaning(nodes);
    ReadIsMeaning(Flattened(nodes));
  }

  /** A close that is missing at the end is not missed. */
  lemma {:induction false} EndCloses(nodes: seq<Node>, p: Progress)
    requires ReadNode(nodes, Start).Some? && ReadNode(nodes, Start).value.1 == []
    ensures ReadNode([Open(0)] + nodes, p) == Some((p.Add(Some(LTable(ReadNode(nodes, Start).value.0))).t, []))
  {
    assert ([Open(0)] + nodes)[1..] == nodes;
  }

  // ---------------------------------------------------------------- what is written

  /** The keys are the numbers from one on. */
  predicate CountsFromOne(t: Table) {
    |t| < 0x4000_0000 && forall i :: 0 <= i < |t| ==> t[i].key == KInt(i + 1)
  }

  function ValueTree(v: LuaValue): Tree
    decreases v
  {
    match v
    case LInt(n) => Atom(Int(n))
    case LStr(s) => Atom(Str(s))
    case LBool(b) => Atom(Bool(b))
    case LOther => Atom(Void)
    case LTable(t) => Struct(0, Elements(t, !CountsFromOne(t)))
  }

  function FieldTree(f: Field): Tree
    decreases f
  {
    ValueTree(f.value)
  }

  function Elements(t: Table, named: bool): seq<Elem>
    decreases t
  {
    if t == [] then []
    else [Elem(if named then Some(KeyContent(t[0].key)) else None, FieldTree(t[0]))] + Elements(t[1..], named)
  }

  lemma {:induction false} ValueWritten(v: LuaValue)
    requires SupportedValue(v)
    ensures ValueNodes(v).0 == TreeNodes(ValueTree(v)) && FlatTree(ValueTree(v))
    decreases v
  {
    if v.LTable? {
      TableWritten(v.t);
    }
  }

  lemma {:induction false} FieldWritten(f: Field)
    requires SupportedField(f)
    ensures FieldNodes(f) == (TreeNodes(FieldTree(f)), true) && FlatTree(FieldTree(f))
    decreases f
  {
    ValueWritten(f.value);
    NotDone(f.value);
  }

  lemma {:induction false} TableWritten(t: Table)
    requires SupportedTable(t)
    ensures TableNodes(t).0 == ElemsNodes(Elements(t, !CountsFromOne(t))) && FlatElems(Elements(t, !CountsFromOne(t)))
    decreases t, 1
  {
    assert IsArray(t) <==> CountsFromOne(t) by {
      if IsArray(t) && t != [] { assert IsArrayIndex(t[|t| - 1].key, |t|); }
      if CountsFromOne(t) { assert forall i :: 0 <= i < |t| ==> IsArrayIndex(t[i].key, i + 1); }
    }
    ElementsWritten(t);
  }

  lemma {:induction false} ElementsWritten(t: Table)
    requires SupportedTable(t)
    ensures ArrayNodes(t) == ElemsNodes(Elements(t, false)) && FlatElems(Elements(t, false))
    ensures MapNodes(t) == (ElemsNodes(Elements(t, true)), true) && FlatElems(Elements(t, true))
    decreases t, 0
  {
    hide ArrayNodes, MapNodes, FieldNodes, Elements, FieldTree, ElemsNodes, FlatElems, FlatTree, TreeNodes;
    if t == [] {
      NothingWritten();
    } else {
      FirstSupported(t);
      FieldWritten(t[0]);
      ElementsWritten(t[1..]);
      FirstWritten(t);
      var tree := FieldTree(t[0]);
      ElementsFirst(Elem(None, tree), Elements(t[1..], false));
      ElementsFirst(Elem(Some(KeyContent(t[0].key)), tree), Elements(t[1..], true));
    }
  }

  lemma {:induction false} NothingWritten()
    ensures ArrayNodes([]) == [] && MapNodes([]) == ([], true) && ElemsNodes([]) == [] && FlatElems([])
    ensures Elements([], false) == [] && Elements([], true) == []
  {
  }

  lemma {:induction false} FirstSupported(t: Table)
    requires SupportedTable(t) && t != []
    ensures SupportedField(t[0]) && SupportedTable(t[1..]) && !t[0].key.KOther? && !KeyContent(t[0].key).Embedded?
  {
    assert forall i :: 0 <= i < |t[1..]| ==> t[1..][i] == t[i + 1];
  }

  lemma {:induction false} FirstWritten(t: Table)
    requires t != [] && !t[0].key.KOther? && FieldNodes(t[0]).1 && MapNodes(t[1..]).1
    ensures ArrayNodes(t) == FieldNodes(t[0]).0 + ArrayNodes(t[1..])
    ensures MapNodes(t) == ([Name(KeyContent(t[0].key))] + FieldNodes(t[0]).0 + MapNodes(t[1..]).0, true)
    ensures Elements(t, false) == [Elem(None, FieldTree(t[0]))] + Elements(t[1..], false)
    ensures Elements(t, true) == [Elem(Some(KeyContent(t[0].key)), FieldTree(t[0]))] + Elements(t[1..], true)
  {
    hide FieldNodes, FieldTree;
  }

  lemma {:induction false} ElementsFirst(e: Elem, es: seq<Elem>)
    ensures ElemsNodes([e] + es) == (if e.name.Some? then [Name(e.name.value)] else []) + TreeNodes(e.tree) + ElemsNodes(es)
    ensures (e.name.Some? ==> !e.name.value.Embedded?) && FlatTree(e.tree) && FlatElems(es) ==> FlatElems([e] + es)
  {
    assert ([e] + es)[1..] == es;
  }

  lemma {:induction false} ElementsEach(t: Table, named: bool)
    requires SupportedTable(t)
    ensures |Elements(t, named)| == |t|
    ensures forall i :: 0 <= i < |t| ==>
              && Elements(t, named)[i].tree == ValueTree(t[i].value)
              && (if named then Elements(t, named)[i].name.Some? && Names(Elements(t, named)[i].name.value, t[i].key)
                  else Elements(t, named)[i].name.None?)
  {
    if t != [] {
      assert SupportedField(t[0]) && FieldTree(t[0]) == ValueTree(t[0].value);
      assert forall i :: 0 <= i < |t[1..]| ==> t[1..][i] == t[i + 1];
      ElementsEach(t[1..], named);
    }
  }

  /** The tree written for a value stands for it. */
  lemma {:induction false} ValueIsTree(v: LuaValue)
    requires SupportedValue(v) && ProperValue(v)
    ensures TreeValue(ValueTree(v)) == Some(Some(v))
  {
    if v.LTable? {
      var es := Elements(v.t, !CountsFromOne(v.t));
      TableWritten(v.t);
      MeaningOfElems(es);
      TablesRoundTrip(v.t);
      ReadIsMeaning(ElemsNodes(es));
    }
  }

  /** Every field of a table is written as an element, in the same order: without names exactly if the keys are the
      numbers from one on, otherwise with the key as its name. */
  lemma {:induction false} WrittenMeaning(t: Table)
    requires SupportedTable(t) && ProperTable(t)
    ensures Meaning(TableNodes(t).0).Some?
    ensures var es := Meaning(TableNodes(t).0).value;
            && |es| == |t|
            && (forall i :: 0 <= i < |t| ==> TreeValue(es[i].tree) == Some(Some(t[i].value)))
            && if CountsFromOne(t) then forall i :: 0 <= i < |t| ==> es[i].name.None?
               else forall i :: 0 <= i < |t| ==> es[i].name.Some? && Names(es[i].name.value, t[i].key)
  {
    var es := Elements(t, !CountsFromOne(t));
    TableWritten(t);
    MeaningOfElems(es);
    ElementsEach(t, !CountsFromOne(t));
    forall i | 0 <= i < |t| ensures TreeValue(es[i].tree) == Some(Some(t[i].value)) {
      assert SupportedField(t[i]) && ProperField(t[i]);
      ValueIsTree(t[i].value);
    }
  }
}
