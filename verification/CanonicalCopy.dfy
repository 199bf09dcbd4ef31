/** The deterministic copy: writes the canonical form of a serialization while reading its nodes. */
module CanonicalCopy {
  import opened CanonicalTrees
  import opened KeyMaps
  import opened Sequences
  import opened Serialization
  import opened SerializationTrees
  import SkipStructure

  ghost function Prepend(pre: seq<Node>, o: Option<seq<Node>>): Option<seq<Node>> {
    if o.Some? then Some(pre + o.value) else None
  }

  ghost function NodesOf(o: Option<seq<Elem>>): Option<seq<Node>> {
    if o.Some? then Some(ElemsNodes(o.value)) else None
  }

  // ---------------------------------------------------------------- what is left to copy

  /** The elements left of a list and of those it is nested in, from the innermost on. */
  ghost function RestNodes(stack: seq<seq<Elem>>): seq<Node>
    requires stack != []
  {
    ElemsNodes(stack[0]) + if |stack| == 1 then [] else [Close] + RestNodes(stack[1..])
  }

  /** Only a list that has not yet been begun may be named. */
  ghost function CanonList(es: seq<Elem>, begin: bool): Option<seq<Node>> {
    NodesOf(if begin then CanonElems(es) else Plain(es))
  }

  ghost function CanonRest(stack: seq<seq<Elem>>, begin: bool): Option<seq<Node>>
    requires stack != []
  {
    var list := CanonList(stack[0], begin);
    if list.None? then None
    else if |stack| == 1 then list
    else Prepend(list.value + [Close], CanonRest(stack[1..], false))
  }

  lemma {:induction false} PrependTwice(a: seq<Node>, b: seq<Node>, o: Option<seq<Node>>)
    ensures Prepend(a, Prepend(b, o)) == Prepend(a + b, o)
  {
    if o.Some? { assert a + (b + o.value) == a + b + o.value; }
  }

  lemma {:induction false} PlainFirst(e: Elem, es: seq<Elem>)
    requires e.name.None?
    ensures CanonElems([e] + es) == Plain([e] + es)
    ensures CanonList([e] + es, true) == CanonList([e] + es, false)
    ensures CanonList([e] + es, false)
         == if CanonTree(e.tree).Some? then Prepend(TreeNodes(CanonTree(e.tree).value), CanonList(es, false)) else None
  {
    assert ([e] + es)[1..] == es;
    assert CanonElem(e) == CanonTree(e.tree);
    var c, rest := CanonElem(e), Plain(es);
    if c.Some? && rest.Some? {
      var first := Elem(None, c.value);
      assert ([first] + rest.value)[1..] == rest.value;
      assert ElemNodes(first) == TreeNodes(c.value);
    }
  }

  /** What is left after the first node, if that is not a name. */
  ghost function AfterNode(stack: seq<seq<Elem>>): seq<seq<Elem>>
    requires stack != []
  {
    if stack[0] == [] then stack[1..]
    else if stack[0][0].tree.Atom? then [stack[0][1..]] + stack[1..]
    else [stack[0][0].tree.elems, stack[0][1..]] + stack[1..]
  }

  /** A value, an open or a close is copied; behind an open begins a list. */
  lemma {:induction false} StepNode(stack: seq<seq<Elem>>, begin: bool)
    requires stack != [] && RestNodes(stack) != [] && !RestNodes(stack)[0].Name?
    ensures AfterNode(stack) != [] && (RestNodes(stack)[0].Open? ==> |AfterNode(stack)| > 1)
    ensures var first := RestNodes(stack)[0];
            && RestNodes(stack) == [first] + RestNodes(AfterNode(stack))
            && CanonRest(stack, begin) == Prepend([first], CanonRest(AfterNode(stack), first.Open?))
  {
    var outer := stack[1..];
    assert stack == [stack[0]] + outer;
    if stack[0] == [] {
      assert CanonList([], begin) == Some([]);
      assert RestNodes(stack) == [Close] + RestNodes(outer);
      var none: seq<Node> := [];
      assert none + [Close] == [Close];
    } else {
      var e, es := stack[0][0], stack[0][1..];
      assert stack[0] == [e] + es;
      assert ElemsNodes(stack[0]) == ElemNodes(e) + ElemsNodes(es);
      assert RestNodes(stack)[0] == ElemNodes(e)[0];
      ElemFirst(e);
      if e.tree.Atom? {
        StepValue(e, es, outer, begin);
      } else {
        StepOpen(e, es, outer, begin);
      }
    }
  }

  lemma {:induction false} StepValue(e: Elem, es: seq<Elem>, outer: seq<seq<Elem>>, begin: bool)
    requires e.name.None? && e.tree.Atom?
    ensures RestNodes([[e] + es] + outer) == [Value(e.tree.value)] + RestNodes([es] + outer)
    ensures CanonRest([[e] + es] + outer, begin) == Prepend([Value(e.tree.value)], CanonRest([es] + outer, false))
  {
    assert ([e] + es)[1..] == es && ([[e] + es] + outer)[1..] == outer && ([es] + outer)[1..] == outer;
    PlainFirst(e, es);
    ElemFirst(e);
    assert ElemsNodes([e] + es) == TreeNodes(e.tree) + ElemsNodes(es);
    var first, list := [Value(e.tree.value)], CanonList(es, false);
    assert RestNodes([[e] + es] + outer) == first + ElemsNodes(es) + if outer == [] then [] else [Close] + RestNodes(outer);
    if list.Some? && outer != [] {
      PrependTwice(first, list.value + [Close], CanonRest(outer, false));
      assert first + (list.value + [Close]) == (first + list.value) + [Close];
    }
  }

  lemma {:induction false} RestFirst(es: seq<Elem>, outer: seq<seq<Elem>>)
    ensures RestNodes([es] + outer) == ElemsNodes(es) + if outer == [] then [] else [Close] + RestNodes(outer)
  {
    assert ([es] + outer)[1..] == outer;
  }

  lemma {:induction false} StepOpenNodes(e: Elem, es: seq<Elem>, outer: seq<seq<Elem>>)
    requires e.name.None? && e.tree.Struct?
    ensures RestNodes([[e] + es] + outer) == [Open(e.tree.structid)] + RestNodes([e.tree.elems, es] + outer)
  {
    hide RestNodes, CanonElems, CanonList, ElemsNodes;
    StructFirst(e, es);
    RestFirst([e] + es, outer);
    RestFirst(es, outer);
    RestFirst(e.tree.elems, [es] + outer);
    assert [e.tree.elems] + ([es] + outer) == [e.tree.elems, es] + outer;
    var open, inner, tail := [Open(e.tree.structid)], ElemsNodes(e.tree.elems), if outer == [] then [] else [Close] + RestNodes(outer);
    assert open + inner + [Close] + ElemsNodes(es) + tail == open + (inner + ([Close] + (ElemsNodes(es) + tail)));
  }

  lemma {:induction false} StructFirst(e: Elem, es: seq<Elem>)
    requires e.name.None? && e.tree.Struct?
    ensures ElemsNodes([e] + es) == [Open(e.tree.structid)] + ElemsNodes(e.tree.elems) + [Close] + ElemsNodes(es)
  {
    assert ([e] + es)[1..] == es;
    ElemFirst(e);
    assert TreeNodes(e.tree) == [Open(e.tree.structid)] + ElemsNodes(e.tree.elems) + [Close];
  }

  lemma {:induction false} StepOpen(e: Elem, es: seq<Elem>, outer: seq<seq<Elem>>, begin: bool)
    requires e.name.None? && e.tree.Struct?
    ensures RestNodes([[e] + es] + outer) == [Open(e.tree.structid)] + RestNodes([e.tree.elems, es] + outer)
    ensures CanonRest([[e] + es] + outer, begin) == Prepend([Open(e.tree.structid)], CanonRest([e.tree.elems, es] + outer, true))
  {
    StepOpenNodes(e, es, outer);
    var s, t := [[e] + es] + outer, [e.tree.elems, es] + outer;
    assert ([e] + es)[1..] == es && s[1..] == outer && t[1..] == [es] + outer && ([es] + outer)[1..] == outer;
    PlainFirst(e, es);
    var open, inner, list := [Open(e.tree.structid)], CanonList(e.tree.elems, true), CanonList(es, false);
    if inner.Some? && list.Some? {
      var c := CanonTree(e.tree).value;
      assert TreeNodes(c) + list.value == open + (inner.value + [Close] + list.value);
      if outer != [] && CanonRest(outer, false).Some? {
        var more := CanonRest(outer, false).value;
        assert TreeNodes(c) + list.value + [Close] + more == open + (inner.value + [Close] + (list.value + [Close] + more));
      }
    }
  }

  /** Copying the first node leaves the result to expect as it was. */
  lemma {:induction false} CopiedNode(nodes: seq<Node>, itr: nat, upto: nat, stack: seq<seq<Elem>>, begin: bool, before: seq<Node>)
    requires stack != [] && itr < upto <= |nodes| && nodes[itr..upto] == RestNodes(stack) && !nodes[itr].Name?
    ensures AfterNode(stack) != [] && (nodes[itr].Open? ==> |AfterNode(stack)| > 1)
    ensures nodes[itr + 1..upto] == RestNodes(AfterNode(stack))
    ensures Prepend(before + [nodes[itr]], CanonRest(AfterNode(stack), nodes[itr].Open?)) == Prepend(before, CanonRest(stack, begin))
  {
    assert nodes[itr..upto][0] == nodes[itr];
    StepNode(stack, begin);
    PrependTwice(before, [nodes[itr]], CanonRest(AfterNode(stack), nodes[itr].Open?));
    assert nodes[itr + 1..upto] == nodes[itr..upto][1..];
  }

  /** A name comes first in a list. */
  lemma {:induction false} StepName(stack: seq<seq<Elem>>)
    requires stack != [] && RestNodes(stack) != [] && RestNodes(stack)[0].Name?
    ensures stack[0] != [] && stack[0][0].name.Some? && CanonRest(stack, false) == None
  {
    if stack[0] != [] {
      var e := stack[0][0];
      assert ElemsNodes(stack[0]) == ElemNodes(e) + ElemsNodes(stack[0][1..]);
      assert RestNodes(stack)[0] == ElemNodes(e)[0];
      ElemFirst(e);
    }
  }

  // ---------------------------------------------------------------- names

  type Range = (nat, nat)

  /** The nodes of a range are those of a tree with the canonical form c. */
  ghost predicate RangeFits(nodes: seq<Node>, r: Range, c: Option<Tree>) {
    r.0 <= r.1 <= |nodes| && exists t :: TreeNodes(t) == nodes[r.0..r.1] && CanonTree(t) == c
  }

  ghost predicate Fits(nodes: seq<Node>, ranges: KeyMap<Range>, m: KeyMap<Option<Tree>>) {
    |ranges| == |m| && forall i :: 0 <= i < |m| ==> ranges[i].0 == m[i].0 && RangeFits(nodes, ranges[i].1, m[i].1)
  }

  ghost predicate Within(ranges: KeyMap<Range>, from: nat, upto: nat) {
    forall i :: 0 <= i < |ranges| ==> from < ranges[i].1.0 && ranges[i].1.1 <= upto
  }

  lemma {:induction false} PutFits(nodes: seq<Node>, ranges: KeyMap<Range>, m: KeyMap<Option<Tree>>, k: string, r: Range, t: Tree, from: nat, upto: nat)
    requires Fits(nodes, ranges, m) && Within(ranges, from, upto)
    requires r.0 <= r.1 <= |nodes| && TreeNodes(t) == nodes[r.0..r.1] && from < r.0 && r.1 <= upto
    ensures Fits(nodes, Put(ranges, k, r), Put(m, k, CanonTree(t))) && Within(Put(ranges, k, r), from, upto)
  {
    var c := CanonTree(t);
    assert RangeFits(nodes, r, c);
    PutAlike(ranges, m, k, r, c);
    forall i | 0 <= i < |Put(m, k, c)|
      ensures RangeFits(nodes, Put(ranges, k, r)[i].1, Put(m, k, c)[i].1)
      ensures from < Put(ranges, k, r)[i].1.0 && Put(ranges, k, r)[i].1.1 <= upto
    {
      if Put(ranges, k, r)[i] != (k, r) || Put(m, k, c)[i] != (k, c) {
        var j :| 0 <= j < |ranges| && Put(ranges, k, r)[i] == ranges[j] && Put(m, k, c)[i] == m[j];
      }
    }
  }

  /** Enters a member: its name and the range of its value. */
  method AddNameMap(ranges: KeyMap<Range>, nodes: seq<Node>, pos: nat, ghost e: Elem, ghost post: seq<Node>)
    returns (ok: bool, res: KeyMap<Range>, next: nat)
    requires pos <= |nodes| && e.name.Some? && nodes[pos..] == ElemNodes(e) + post
    ensures ok <==> KeyOf(e).Some?
    ensures ok ==> Spells(KeyOf(e).value, e.name.value) && next == pos + |ElemNodes(e)| <= |nodes| && nodes[next..] == post
    ensures ok ==> TreeNodes(e.tree) == nodes[pos + 1..next] && res == Put(ranges, KeyOf(e).value, (pos + 1, next))
  {
    hide Spells, KeyString;
    var nd := nodes[pos];
    assert nodes[pos..][0] == nd == Name(e.name.value);
    var name := KeyString(nd.name);
    if name.None? { return false, ranges, pos; }
    KeyIsSpelled(nd.name, name.value);
    var start := pos + 1;
    ghost var pre, value := nodes[..start], Elem(None, e.tree);
    assert nodes == nodes[..pos] + nodes[pos..];
    assert nodes == pre + ElemNodes(value) + post by {
      assert ElemNodes(value) == TreeNodes(e.tree);
      assert nodes == nodes[..pos] + ([nd] + TreeNodes(e.tree) + post);
    }
    SkipStructure.SkipLandsBehindElem(pre, value, post);
    var end := SkipStructure.AfterElem(nodes, start);
    if end.None? { return false, ranges, pos; }
    return true, Put(ranges, name.value, (start, end.value)), end.value;
  }

  /** Reads the members of a list up to its end or the first element without a name. */
  method ReadMembers(nodes: seq<Node>, from: nat, ghost es: seq<Elem>, ghost post: seq<Node>)
    returns (ok: bool, ranges: KeyMap<Range>, pos: nat, ghost m: KeyMap<Option<Tree>>)
    requires from <= |nodes| && nodes[from..] == ElemsNodes(es) + post && EndsElems(post)
    ensures Members(es, []).Some? ==> ok && pos == from + |ElemsNodes(es)| && nodes[pos..] == post
    ensures Members(es, []).Some? ==> m == Members(es, []).value
    ensures Members(es, []).None? && ok ==> pos < |nodes| && !nodes[pos].Close?
    ensures ok ==> from <= pos <= from + |ElemsNodes(es)| && Fits(nodes, ranges, m) && Within(ranges, from, pos)
  {
    ranges, pos, m := [], from, [];
    ghost var left := es;
    while pos < |nodes| && nodes[pos].Name?
      invariant pos <= |nodes| && nodes[pos..] == ElemsNodes(left) + post && from <= pos
      invariant Members(es, []) == Members(left, m)
      invariant Fits(nodes, ranges, m) && Within(ranges, from, pos)
      invariant pos + |ElemsNodes(left)| == from + |ElemsNodes(es)|
      decreases |nodes| - pos
    {
      assert nodes[pos..][0].Name?;
      FirstIsNamed(left, post);
      ghost var e, rest := left[0], ElemsNodes(left[1..]) + post;
      assert nodes[pos..] == ElemNodes(e) + rest;
      ghost var before := pos;
      ghost var beforeRanges := ranges;
      ok, ranges, pos := AddNameMap(ranges, nodes, pos, e, rest);
      if !ok { return; }
      PutFits(nodes, beforeRanges, m, KeyOf(e).value, (before + 1, pos), e.tree, from, pos);
      assert CanonElem(e) == CanonTree(e.tree);
      m := Put(m, KeyOf(e).value, CanonElem(e));
      left := left[1..];
    }
    AtEndOrUnnamed(nodes, pos, left, post);
    ok := true;
  }

  lemma {:induction false} FirstIsNamed(es: seq<Elem>, post: seq<Node>)
    requires EndsElems(post) && ElemsNodes(es) + post != [] && (ElemsNodes(es) + post)[0].Name?
    ensures es != [] && es[0].name.Some? && ElemsNodes(es) + post == ElemNodes(es[0]) + (ElemsNodes(es[1..]) + post)
  {
    assert ElemsNodes([]) + post == post;
    if es != [] {
      assert ElemsNodes(es) + post == ElemNodes(es[0]) + (ElemsNodes(es[1..]) + post);
      ElemFirst(es[0]);
    }
  }

  lemma {:induction false} AtEndOrUnnamed(nodes: seq<Node>, pos: nat, es: seq<Elem>, post: seq<Node>)
    requires pos <= |nodes| && nodes[pos..] == ElemsNodes(es) + post && (pos < |nodes| ==> !nodes[pos].Name?)
    ensures es != [] ==> es[0].name.None? && pos < |nodes| && !nodes[pos].Close?
    ensures es == [] ==> nodes[pos..] == post
  {
    if es != [] {
      assert nodes[pos..] == ElemNodes(es[0]) + (ElemsNodes(es[1..]) + post);
      assert nodes[pos] == nodes[pos..][0] == ElemNodes(es[0])[0];
    }
  }

  ghost function WrittenNodes(m: KeyMap<Option<Tree>>): Option<seq<Node>> {
    NodesOf(Written(m))
  }

  lemma {:induction false} WrittenFirst(m: KeyMap<Option<Tree>>)
    requires m != []
    ensures WrittenNodes(m)
         == if m[0].1.Some? then Prepend([Name(Str(m[0].0))] + TreeNodes(m[0].1.value), WrittenNodes(m[1..])) else None
  {
    if m[0].1.Some? && Written(m[1..]).Some? {
      var first, rest := Elem(Some(Str(m[0].0)), m[0].1.value), Written(m[1..]).value;
      assert ([first] + rest)[1..] == rest;
      assert ElemNodes(first) == [Name(Str(m[0].0))] + TreeNodes(m[0].1.value);
      assert Written(m).value == [first] + rest;
    }
  }

  // ---------------------------------------------------------------- the copy

  /** Writes the members in the order of their names. */
  method WriteMembers(dest: NodeStore, nodes: seq<Node>, ranges: KeyMap<Range>, ghost m: KeyMap<Option<Tree>>, ghost from: nat, ghost upto: nat)
    returns (ok: bool)
    requires dest.Valid() && Fits(nodes, ranges, m) && Within(ranges, from, upto) && from <= upto
    modifies dest, dest.Repr
    ensures dest.Valid() && old(dest.Repr) <= dest.Repr && fresh(dest.Repr - old(dest.Repr)) && dest.Snapshots == old(dest.Snapshots)
    ensures ok <==> WrittenNodes(m).Some?
    ensures ok ==> dest.Contents == old(dest.Contents) + WrittenNodes(m).value
    decreases upto - from, 0
  {
    hide NodeStore.Valid, Prepend, TreeNodes, ElemsNodes, CanonElems;
    var ki := 0;
    assert m[0..] == m;
    while ki < |ranges|
      invariant 0 <= ki <= |ranges| && dest.Valid()
      invariant old(dest.Repr) <= dest.Repr && fresh(dest.Repr - old(dest.Repr)) && dest.Snapshots == old(dest.Snapshots)
      invariant Prepend(dest.Contents, WrittenNodes(m[ki..])) == Prepend(old(dest.Contents), WrittenNodes(m))
    {
      ghost var c := m[ki].1;
      var (p, q) := ranges[ki].1;
      assert RangeFits(nodes, (p, q), c);
      ghost var t :| TreeNodes(t) == nodes[p..q] && CanonTree(t) == c;
      ghost var before := dest.Contents;
      WrittenFirst(m[ki..]);
      assert m[ki..][1..] == m[ki + 1..];
      dest.PushNode(Name(Str(ranges[ki].0)));
      SingleList(t);
      ok := CopyDeterministic(dest, nodes, p, q, [Elem(None, t)]);
      if !ok {
        PrependNone(before, old(dest.Contents), WrittenNodes(m[ki..]), WrittenNodes(m));
        return;
      }
      PrependTwice(before, [Name(Str(m[ki].0))] + TreeNodes(c.value), WrittenNodes(m[ki + 1..]));
      assert dest.Contents == before + ([Name(Str(m[ki].0))] + TreeNodes(c.value));
      ki := ki + 1;
    }
    PrependAll(dest.Contents, old(dest.Contents), WrittenNodes(m));
    ok := true;
  }

  lemma {:induction false} PrependNone(a: seq<Node>, b: seq<Node>, o: Option<seq<Node>>, p: Option<seq<Node>>)
    requires Prepend(a, o) == Prepend(b, p) && o.None?
    ensures p.None?
  {
  }

  /** Nothing is left to write. */
  lemma {:induction false} PrependAll(a: seq<Node>, b: seq<Node>, o: Option<seq<Node>>)
    requires Prepend(a, WrittenNodes([])) == Prepend(b, o)
    ensures o.Some? && a == b + o.value
  {
    assert WrittenNodes([]) == Some([]) && a + [] == a;
  }

  lemma {:induction false} SingleList(t: Tree)
    ensures ElemsNodes([Elem(None, t)]) == TreeNodes(t)
    ensures NodesOf(CanonElems([Elem(None, t)])) == if CanonTree(t).Some? then Some(TreeNodes(CanonTree(t).value)) else None
  {
    PlainFirst(Elem(None, t), []);
    assert [Elem(None, t)] + [] == [Elem(None, t)] && TreeNodes(t) + [] == TreeNodes(t);
    assert CanonList([], false) == Some([]);
    assert CanonTree(t).Some? ==> TreeNodes(CanonTree(t).value) + [] == TreeNodes(CanonTree(t).value);
  }

  /** Copies the members of a list in the order of their names, and the close behind the list if there is one. */
  method CopyMembers(dest: NodeStore, nodes: seq<Node>, from: nat, ghost es: seq<Elem>, ghost post: seq<Node>)
    returns (ok: bool, itr: nat)
    requires dest.Valid() && from <= |nodes| && nodes[from..] == ElemsNodes(es) + post && EndsElems(post)
    requires es != [] && es[0].name.Some?
    modifies dest, dest.Repr
    ensures dest.Valid() && old(dest.Repr) <= dest.Repr && fresh(dest.Repr - old(dest.Repr)) && dest.Snapshots == old(dest.Snapshots)
    ensures ok <==> CanonElems(es).Some?
    ensures ok ==> itr == from + |ElemsNodes(es)| <= |nodes| && nodes[itr..] == post
    ensures ok ==> dest.Contents == old(dest.Contents) + ElemsNodes(CanonElems(es).value) + post[..if post == [] then 0 else 1]
    decreases |ElemsNodes(es)|, 1
  {
    hide NodeStore.Valid;
    var ranges;
    ghost var m;
    ok, ranges, itr, m := ReadMembers(nodes, from, es, post);
    if !ok { return; }
    ok := WriteMembers(dest, nodes, ranges, m, from, itr);
    if !ok { return; }
    if itr < |nodes| && !nodes[itr].Close? { return false, itr; }
    if itr < |nodes| {
      assert nodes[itr..][0] == Close;
      dest.PushNode(Close);
    }
  }

  /** What follows behind the innermost list. */
  ghost function PostOf(stack: seq<seq<Elem>>, post: seq<Node>): seq<Node>
    requires stack != []
  {
    (if |stack| == 1 then [] else [Close] + RestNodes(stack[1..])) + post
  }

  /** What is left behind the members of the innermost list. */
  ghost function AfterNames(stack: seq<seq<Elem>>): seq<seq<Elem>>
    requires stack != []
  {
    if |stack| == 1 then [[]] else stack[1..]
  }

  lemma {:induction false} NodesAfterMembers(stack: seq<seq<Elem>>, nodes: seq<Node>, itr: nat, upto: nat)
    requires stack != [] && upto <= |nodes| && (|stack| == 1 ==> upto == |nodes|)
    requires itr <= |nodes| && nodes[itr..] == PostOf(stack, nodes[upto..])
    ensures var next := if itr < |nodes| then itr + 1 else itr; next <= upto && nodes[next..upto] == RestNodes(AfterNames(stack))
    ensures nodes[itr..][..if itr == |nodes| then 0 else 1] == CloseIfNested(stack)
  {
    if |stack| == 1 {
      assert |nodes[itr..]| == 0;
    } else {
      var rest := RestNodes(stack[1..]);
      assert |nodes[itr..]| == 1 + |rest| + |nodes[upto..]|;
      assert nodes[itr + 1..upto] == nodes[itr..][1..1 + |rest|] == rest;
    }
  }

  ghost function CloseIfNested(stack: seq<seq<Elem>>): seq<Node> {
    if |stack| == 1 then [] else [Close]
  }

  lemma {:induction false} CanonAfterMembers(before: seq<Node>, stack: seq<seq<Elem>>)
    requires stack != []
    ensures CanonElems(stack[0]).None? ==> CanonRest(stack, true) == None
    ensures CanonElems(stack[0]).Some? ==>
              Prepend(before + ElemsNodes(CanonElems(stack[0]).value) + CloseIfNested(stack), CanonRest(AfterNames(stack), false))
              == Prepend(before, CanonRest(stack, true))
  {
    if CanonElems(stack[0]).Some? {
      var list := ElemsNodes(CanonElems(stack[0]).value);
      if |stack| == 1 {
        assert CanonList([], false) == Some([]);
        assert before + list + [] + [] == before + list;
      } else {
        PrependTwice(before, list + [Close], CanonRest(stack[1..], false));
        assert before + list + [Close] == before + (list + [Close]);
      }
    }
  }

  lemma {:induction false} SplitPost(stack: seq<seq<Elem>>, nodes: seq<Node>, itr: nat, upto: nat)
    requires stack != [] && itr <= upto <= |nodes| && nodes[itr..upto] == RestNodes(stack)
    ensures nodes[itr..] == ElemsNodes(stack[0]) + PostOf(stack, nodes[upto..])
  {
    assert nodes[itr..] == nodes[itr..upto] + nodes[upto..];
  }

  /** The members of the innermost list, at a position where that begins. */
  method CopyNames(dest: NodeStore, nodes: seq<Node>, from: nat, upto: nat, ghost stack: seq<seq<Elem>>) returns (ok: bool, itr: nat)
    requires dest.Valid() && from < upto <= |nodes| && stack != [] && nodes[from..upto] == RestNodes(stack)
    requires stack[0] != [] && stack[0][0].name.Some? && (|stack| == 1 ==> upto == |nodes|)
    modifies dest, dest.Repr
    ensures dest.Valid() && old(dest.Repr) <= dest.Repr && fresh(dest.Repr - old(dest.Repr)) && dest.Snapshots == old(dest.Snapshots)
    ensures !ok ==> CanonRest(stack, true) == None
    ensures ok ==> from <= itr <= |nodes| && from < Next(nodes, itr) <= upto && nodes[Next(nodes, itr)..upto] == RestNodes(AfterNames(stack))
    ensures ok ==> Prepend(dest.Contents, CanonRest(AfterNames(stack), false)) == Prepend(old(dest.Contents), CanonRest(stack, true))
    decreases upto - from, 2
  {
    hide NodeStore.Valid;
    SplitPost(stack, nodes, from, upto);
    assert |ElemsNodes(stack[0])| <= |RestNodes(stack)|;
    ghost var before := dest.Contents;
    ok, itr := CopyMembers(dest, nodes, from, stack[0], PostOf(stack, nodes[upto..]));
    CanonAfterMembers(before, stack);
    if ok { NodesAfterMembers(stack, nodes, itr, upto); }
  }

  /** Copies a range of nodes that holds the elements es: all of the source, or a single value in it. */
  method CopyDeterministic(dest: NodeStore, nodes: seq<Node>, from: nat, upto: nat, ghost es: seq<Elem>) returns (ok: bool)
    requires dest.Valid() && from <= upto <= |nodes| && nodes[from..upto] == ElemsNodes(es)
    requires upto == |nodes| || (es != [] && es[0].name.None?)
    modifies dest, dest.Repr
    ensures dest.Valid() && old(dest.Repr) <= dest.Repr && fresh(dest.Repr - old(dest.Repr)) && dest.Snapshots == old(dest.Snapshots)
    ensures ok <==> CanonElems(es).Some?
    ensures ok ==> dest.Contents == old(dest.Contents) + ElemsNodes(CanonElems(es).value)
    decreases upto - from, 3
  {
    hide NodeStore.Valid;
    var cnt, opn, itr := 0, 0, from;
    ghost var stack := [es];
    while itr != upto
      invariant from <= itr <= upto && stack != [] && opn <= cnt && dest.Valid()
      invariant old(dest.Repr) <= dest.Repr && fresh(dest.Repr - old(dest.Repr)) && dest.Snapshots == old(dest.Snapshots)
      invariant nodes[itr..upto] == RestNodes(stack)
      invariant Prepend(dest.Contents, CanonRest(stack, cnt == opn)) == Prepend(old(dest.Contents), CanonList(es, true))
      invariant |stack| == 1 && cnt == opn ==> stack == [es] && itr == from
      decreases upto - itr
    {
      cnt := cnt + 1;
      ghost var before := dest.Contents;
      if nodes[itr].Name? {
        assert nodes[itr..upto][0] == nodes[itr];
        StepName(stack);
        if cnt != opn + 1 { return false; }
        ok, itr := CopyNames(dest, nodes, itr, upto, stack);
        if !ok { return; }
        stack := AfterNames(stack);
      } else {
        CopiedNode(nodes, itr, upto, stack, cnt - 1 == opn, before);
        if nodes[itr].Open? { opn := cnt; }
        dest.PushNode(nodes[itr]);
        stack := AfterNode(stack);
      }
      itr := Next(nodes, itr);
    }
    ok := true;
  }

  /** Copies a well-formed serialization. */
  method CopySerialization(dest: NodeStore, ser: NodeStore, ghost es: seq<Elem>) returns (ok: bool)
    requires dest.Valid() && ser.Valid() && ser.Contents == ElemsNodes(es)
    modifies dest, dest.Repr
    ensures dest.Valid() && old(dest.Repr) <= dest.Repr && fresh(dest.Repr - old(dest.Repr)) && dest.Snapshots == old(dest.Snapshots)
    ensures ok <==> CanonElems(es).Some?
    ensures ok ==> dest.Contents == old(dest.Contents) + ElemsNodes(CanonElems(es).value)
  {
    var nodes := ReadAll(ser);
    assert nodes[0..|nodes|] == nodes;
    ok := CopyDeterministic(dest, nodes, 0, |nodes|, es);
  }

  // ---------------------------------------------------------------- what the copies have in common

  lemma {:induction false} CanonTreeIsFlat(t: Tree)
    requires FlatTree(t)
    ensures CanonTree(t).Some? ==> FlatTree(CanonTree(t).value)
    decreases t
  {
    if t.Struct? { CanonElemsAreFlat(t.elems); }
  }

  lemma {:induction false} CanonElemIsFlat(e: Elem)
    requires FlatElem(e)
    ensures CanonElem(e).Some? ==> FlatTree(CanonElem(e).value)
    decreases e
  {
    CanonTreeIsFlat(e.tree);
  }

  lemma {:induction false} CanonElemsAreFlat(es: seq<Elem>)
    requires FlatElems(es)
    ensures CanonElems(es).Some? ==> FlatElems(CanonElems(es).value)
    decreases es, 1
  {
    PlainIsFlat(es);
    MembersAreFlat(es, []);
    if Members(es, []).Some? { WrittenIsFlat(Members(es, []).value); }
  }

  lemma {:induction false} PlainIsFlat(es: seq<Elem>)
    requires FlatElems(es)
    ensures Plain(es).Some? ==> FlatElems(Plain(es).value)
    decreases es, 0
  {
    if es != [] {
      CanonElemIsFlat(es[0]);
      PlainIsFlat(es[1..]);
      if Plain(es).Some? { assert Plain(es).value[1..] == Plain(es[1..]).value; }
    }
  }

  ghost predicate FlatMembers(m: KeyMap<Option<Tree>>) {
    forall x :: x in m && x.1.Some? ==> FlatTree(x.1.value)
  }

  lemma {:induction false} PutIsFlat(m: KeyMap<Option<Tree>>, k: string, c: Option<Tree>)
    requires FlatMembers(m) && (c.Some? ==> FlatTree(c.value))
    ensures FlatMembers(Put(m, k, c))
  {
    if m != [] { PutIsFlat(m[1..], k, c); }
  }

  lemma {:induction false} MembersAreFlat(es: seq<Elem>, m: KeyMap<Option<Tree>>)
    requires FlatElems(es) && FlatMembers(m)
    ensures Members(es, m).Some? ==> FlatMembers(Members(es, m).value)
    decreases es, 0
  {
    if es != [] && KeyOf(es[0]).Some? {
      CanonElemIsFlat(es[0]);
      PutIsFlat(m, KeyOf(es[0]).value, CanonElem(es[0]));
      MembersAreFlat(es[1..], Put(m, KeyOf(es[0]).value, CanonElem(es[0])));
    }
  }

  lemma {:induction false} WrittenIsFlat(m: KeyMap<Option<Tree>>)
    requires FlatMembers(m)
    ensures Written(m).Some? ==> FlatElems(Written(m).value)
  {
    if m != [] && Written(m).Some? {
      WrittenIsFlat(m[1..]);
      assert m[0] in m && Written(m).value[1..] == Written(m[1..]).value;
    }
  }

  /** The copies of two serializations consist of the same nodes exactly if the serializations differ only in the
      order of the members of their structures; names have to be different within a list. */
  lemma {:induction false} CopiesAreEqualIfSame(es: seq<Elem>, fs: seq<Elem>)
    requires FlatElems(es) && FlatElems(fs) && UniqueElems(es) && UniqueElems(fs)
    ensures CanonElems(es).Some? && CanonElems(fs).Some?
    ensures ElemsNodes(CanonElems(es).value) == ElemsNodes(CanonElems(fs).value) <==> SameElems(es, fs)
  {
    var a, b := Struct(0, es), Struct(0, fs);
    CanonMeansTheSame(a);
    CanonMeansTheSame(b);
    CanonDecidesSame(a, b);
    CanonElemsAreFlat(es);
    CanonElemsAreFlat(fs);
    MeaningOfElems(CanonElems(es).value);
    MeaningOfElems(CanonElems(fs).value);
  }

  /** Reading a copy gives elements that are sorted, mean the same as those of the original, and are copied to the
      same nodes again. */
  lemma {:induction false} CopyMeansTheSame(es: seq<Elem>)
    requires FlatElems(es) && UniqueElems(es)
    ensures CanonElems(es).Some?
    ensures var copy := ElemsNodes(CanonElems(es).value);
            && Meaning(copy) == CanonElems(es)
            && SortedElems(Meaning(copy).value) && SameElems(es, Meaning(copy).value)
            && CanonElems(Meaning(copy).value) == Meaning(copy)
  {
    CanonElemsMeanTheSame(es);
    SortedElemsAreCanonical(CanonElems(es).value);
    CanonElemsAreFlat(es);
    MeaningOfElems(CanonElems(es).value);
  }
}
