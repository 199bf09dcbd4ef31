/** Which paths of elements the expressions of an expanded schema match. */
module SchemaPaths {
  import opened Sequences
  import opened SchemaExpansion
  import opened SchemaReferences

  // ---------------------------------------------------------------- expressions

  /** A step of a path from the root to an element or an attribute. */
  datatype Tag = Tag(name: string, attribute: bool)

  predicate IsMark(c: char) {
    c == '/' || c == '@' || c == '~' || c == '(' || c == ')'
  }

  predicate IsName(name: string) {
    name != "" && forall i :: 0 <= i < |name| ==> !IsMark(name[i])
  }

  predicate AreNames(p: seq<Tag>) {
    forall i :: 0 <= i < |p| ==> IsName(p[i].name)
  }

  function Ending(t: Tag): (r: string)
    ensures |r| == 1 + |t.name|
  {
    (if t.attribute then "@" else "/") + t.name
  }

  predicate EndsWith(key: string, end: string) {
    |end| <= |key| && key[|key| - |end|..] == end
  }

  /** A single slash leads to a child, a double one to any element below. */
  predicate Matches(key: string, p: seq<Tag>)
    decreases |p|
  {
    if p == [] then key == ""
    else
      var last := |p| - 1;
      var end := Ending(p[last]);
      && EndsWith(key, end)
      && var rest := key[..|key| - |end|];
         || Matches(rest, p[..last])
         || (EndsWith(rest, "/") && !p[last].attribute && exists k :: 0 <= k <= last && Matches(rest[..|rest| - 1], p[..k]))
  }

  /** A place in the tree, as the beginning of an expression. */
  predicate IsPath(path: string) {
    path == "" || !IsMark(path[|path| - 1])
  }

  /** An ending begins at the last mark. */
  lemma {:induction false} MarkAt(key: string, t: Tag)
    requires IsName(t.name) && EndsWith(key, Ending(t))
    ensures var at := |key| - |Ending(t)|; IsMark(key[at]) && forall i :: at < i < |key| ==> !IsMark(key[i])
  {
    var at := |key| - |Ending(t)|;
    assert key[at] == key[at..][0];
    forall i | at < i < |key| ensures !IsMark(key[i]) {
      assert key[i] == key[at..][i - at] == t.name[i - at - 1];
    }
  }

  lemma {:induction false} EndsMarked(key: string, p: seq<Tag>)
    requires key != "" && IsMark(key[|key| - 1]) && AreNames(p)
    ensures !Matches(key, p)
  {
    if p != [] {
      if EndsWith(key, Ending(p[|p| - 1])) { MarkAt(key, p[|p| - 1]); }
    }
  }

  /** Only one name fits at the end. */
  lemma {:induction false} SameEnding(path: string, t: Tag, u: Tag)
    requires IsName(t.name) && IsName(u.name)
    ensures EndsWith(path + Ending(t), Ending(u)) <==> t == u
  {
    var key := path + Ending(t);
    assert key[|path|..] == Ending(t);
    MarkAt(key, t);
    if EndsWith(key, Ending(u)) {
      MarkAt(key, u);
      assert |key| - |Ending(u)| == |path|;
      assert t.name == Ending(t)[1..] == Ending(u)[1..] == u.name;
      assert Ending(t)[0] == Ending(u)[0];
    }
  }

  lemma {:induction false} MatchesStep(path: string, t: Tag, p: seq<Tag>)
    requires IsName(t.name) && AreNames(p)
    ensures Matches(path + Ending(t), p)
       <==> && p != [] && p[|p| - 1] == t
            && (Matches(path, p[..|p| - 1])
                || (EndsWith(path, "/") && !t.attribute && exists k :: 0 <= k < |p| && Matches(path[..|path| - 1], p[..k])))
  {
    if p != [] {
      SameEnding(path, t, p[|p| - 1]);
      assert (path + Ending(t))[..|path|] == path;
    }
  }

  lemma {:induction false} MatchesChild(path: string, t: Tag, p: seq<Tag>)
    requires IsPath(path) && IsName(t.name) && AreNames(p)
    ensures Matches(path + Ending(t), p) <==> p != [] && p[|p| - 1] == t && Matches(path, p[..|p| - 1])
  {
    hide Matches;
    MatchesStep(path, t, p);
  }

  lemma {:induction false} MatchesBelow(path: string, name: string, p: seq<Tag>)
    requires IsPath(path) && IsName(name) && AreNames(p)
    ensures Matches(path + "//" + name, p)
       <==> p != [] && p[|p| - 1] == Tag(name, false) && exists k :: 0 <= k < |p| && Matches(path, p[..k])
  {
    hide Matches;
    var deep := path + "/";
    assert path + "//" + name == deep + Ending(Tag(name, false)) && deep[..|deep| - 1] == path;
    MatchesStep(deep, Tag(name, false), p);
    if p != [] { EndsMarked(deep, p[..|p| - 1]); }
  }

  // ---------------------------------------------------------------- the ways that enter no schema twice

  function TagOf(nd: SchemaNode): Tag {
    Tag(nd.name, nd.attribute)
  }

  /** The path fits the nodes, with its last step in a schema: references may be followed after any number of steps, but
      not to a schema visited already. */
  ghost predicate FitsList(tree: SchemaTree, nodes: seq<SchemaNode>, visited: Word, current: nat, p: seq<Tag>, select: nat)
    decreases Free(visited), 1, nodes, 1
  {
    nodes != [] && (FitsNode(tree, nodes[0], visited, current, p, select) || FitsList(tree, nodes[1..], visited, current, p, select))
  }

  ghost predicate FitsNode(tree: SchemaTree, nd: SchemaNode, visited: Word, current: nat, p: seq<Tag>, select: nat)
    decreases Free(visited), 1, nd, 0
  {
    if nd.typnam.Some? then
      || (p == [TagOf(nd)] && select == current)
      || (!IsAtomicType(nd.typnam.value) && FitsRefs(tree, nd.name, Named(tree, nd.typnam.value), visited, p, select))
    else
      && nd.children != [] && p != [] && p[0] == TagOf(nd)
      && ((|p| == 1 && select == current) || FitsList(tree, nd.children, visited, current, p[1..], select))
  }

  ghost predicate FitsRefs(tree: SchemaTree, name: string, refs: Word, visited: Word, p: seq<Tag>, select: nat)
    requires forall b :: Has(refs, b) ==> b <= |tree|
    decreases Free(visited), 0, |p|
  {
    && p != []
    && ((p[0] == Tag(name, false) && FitsOpen(tree, refs, visited, p[1..], select)) || FitsRefs(tree, name, refs, visited, p[1..], select))
  }

  /** The path fits one of the schemas referred to and not visited. */
  ghost predicate FitsOpen(tree: SchemaTree, refs: Word, visited: Word, p: seq<Tag>, select: nat)
    requires forall b :: Has(refs, b) ==> b <= |tree|
    decreases Free(visited), 0, 0
  {
    var toVisit := AscendingBits(Minus(refs, visited));
    if toVisit == [] then false
    else
      assert Has(Minus(refs, visited), toVisit[0]);
      FreeShrinks(visited, refs, toVisit[0]);
      assert forall i :: 0 <= i < |toVisit| ==> toVisit[i] in toVisit;
      FitsSchemas(tree, toVisit, Union(refs, visited), p, select)
  }

  ghost predicate FitsSchemas(tree: SchemaTree, bits: seq<nat>, visited: Word, p: seq<Tag>, select: nat)
    requires InTree(tree, bits)
    decreases Free(visited), 3, bits
  {
    bits != [] && (FitsList(tree, tree[bits[0] - 1].children, visited, bits[0], p, select) || FitsSchemas(tree, bits[1..], visited, p, select))
  }

  /** An operation selected by a schema has an expression that matches the path. */
  ghost predicate Found(adds: seq<Addition>, p: seq<Tag>, select: nat) {
    exists a :: a in adds && a.select == select && Matches(a.key, p)
  }

  /** The beginning of a path matches an expression and the rest fits. */
  ghost predicate FitsBehind(tree: SchemaTree, path: string, nodes: seq<SchemaNode>, visited: Word, current: nat, p: seq<Tag>, select: nat, k: nat) {
    k <= |p| && Matches(path, p[..k]) && FitsList(tree, nodes, visited, current, p[k..], select)
  }

  ghost predicate NodeFitsBehind(tree: SchemaTree, path: string, nd: SchemaNode, visited: Word, current: nat, p: seq<Tag>, select: nat, k: nat) {
    k <= |p| && Matches(path, p[..k]) && FitsNode(tree, nd, visited, current, p[k..], select)
  }

  ghost predicate SchemasFitBehind(tree: SchemaTree, path: string, bits: seq<nat>, visited: Word, p: seq<Tag>, select: nat, k: nat)
    requires InTree(tree, bits)
  {
    k <= |p| && Matches(path, p[..k]) && FitsSchemas(tree, bits, visited, p[k..], select)
  }

  ghost predicate OpenFitsBehind(tree: SchemaTree, path: string, refs: Word, visited: Word, p: seq<Tag>, select: nat, k: nat)
    requires forall b :: Has(refs, b) ==> b <= |tree|
  {
    k <= |p| && Matches(path, p[..k]) && FitsOpen(tree, refs, visited, p[k..], select)
  }

  ghost predicate RefsFitBehind(tree: SchemaTree, path: string, name: string, refs: Word, visited: Word, p: seq<Tag>, select: nat, k: nat)
    requires forall b :: Has(refs, b) ==> b <= |tree|
  {
    k <= |p| && Matches(path, p[..k]) && FitsRefs(tree, name, refs, visited, p[k..], select)
  }

  predicate NamesOk(nodes: seq<SchemaNode>)
    decreases nodes, 1
  {
    nodes == [] || (IsName(nodes[0].name) && NamesOk(nodes[0].children) && NamesOk(nodes[1..]))
  }

  predicate TreeNamesOk(tree: SchemaTree) {
    forall b :: 0 <= b < |tree| ==> NamesOk(tree[b].children)
  }

  // ---------------------------------------------------------------- the expressions match what fits

  lemma {:induction false} FoundThen(a: seq<Addition>, b: seq<Addition>, p: seq<Tag>, select: nat)
    ensures Found(a + b, p, select) <==> Found(a, p, select) || Found(b, p, select)
  {
    if Found(a, p, select) {
      var x :| x in a && x.select == select && Matches(x.key, p);
      assert x in a + b;
    }
    if Found(b, p, select) {
      var x :| x in b && x.select == select && Matches(x.key, p);
      assert x in a + b;
    }
  }

  lemma {:induction false} FoundSingle(a: Addition, p: seq<Tag>, select: nat)
    ensures Found([a], p, select) <==> a.select == select && Matches(a.key, p)
  {
    assert a in [a];
  }

  lemma {:induction false} FoundBetween(open: Addition, inner: Trace, close: Addition, p: seq<Tag>, select: nat)
    requires inner.err == None && AreNames(p) && close.key != "" && IsMark(close.key[|close.key| - 1])
    ensures Found(Then(Adds([open]), Then(inner, Adds([close]))).adds, p, select)
       <==> (open.select == select && Matches(open.key, p)) || Found(inner.adds, p, select)
  {
    hide Matches;
    FoundThen([open], inner.adds + [close], p, select);
    FoundThen(inner.adds, [close], p, select);
    FoundSingle(open, p, select);
    FoundSingle(close, p, select);
    EndsMarked(close.key, p);
  }

  /** A node at the end of the path. */
  lemma {:induction false} LastTag(path: string, nd: SchemaNode, p: seq<Tag>)
    requires IsPath(path) && IsName(nd.name) && AreNames(p)
    ensures Matches(KeyOf(path, nd), p) <==> exists k :: 0 <= k <= |p| && Matches(path, p[..k]) && p[k..] == [TagOf(nd)]
    ensures IsPath(KeyOf(path, nd))
  {
    var key := KeyOf(path, nd);
    assert key == path + Ending(TagOf(nd));
    assert key[|key| - 1] == nd.name[|nd.name| - 1];
    MatchesChild(path, TagOf(nd), p);
    if p != [] && p[|p| - 1] == TagOf(nd) { assert p[|p| - 1..] == [TagOf(nd)]; }
    forall k | 0 <= k <= |p| && p[k..] == [TagOf(nd)] ensures k == |p| - 1 && p[k] == TagOf(nd) {
      assert p[k] == p[k..][0];
    }
  }

  lemma {:induction false} SelectedLast(path: string, nd: SchemaNode, p: seq<Tag>, current: nat, select: nat)
    requires IsPath(path) && IsName(nd.name) && AreNames(p)
    ensures (select == current && Matches(KeyOf(path, nd), p))
       <==> exists k :: 0 <= k <= |p| && Matches(path, p[..k]) && p[k..] == [TagOf(nd)] && select == current
  {
    hide Matches;
    LastTag(path, nd, p);
  }

  /** An error within the expansion is one of the whole. */
  lemma {:induction false} BetweenErrors(open: Addition, inner: Trace, close: Addition)
    ensures Then(Adds([open]), Then(inner, Adds([close]))).err == inner.err
  {
  }

  /** Without an error, an expression selected by a schema matches a path exactly if the path fits. */
  lemma {:induction false} ExpandMatches(tree: SchemaTree, path: string, nodes: seq<SchemaNode>, select: nat, visited: Word, p: seq<Tag>, s: nat)
    requires Expand(tree, path, nodes, select, visited).err == None && IsPath(path) && NamesOk(nodes) && TreeNamesOk(tree) && AreNames(p)
    ensures Found(Expand(tree, path, nodes, select, visited).adds, p, s)
       <==> exists k: nat :: FitsBehind(tree, path, nodes, visited, select, p, s, k)
    decreases Free(visited), 1, nodes, 1
  {
    hide Matches, Found, NodeFitsBehind, ExpandNode;
    if nodes == [] {
      NothingFound(p, s);
    } else {
      var a, b := ExpandNode(tree, path, nodes[0], select, visited), Expand(tree, path, nodes[1..], select, visited);
      ThenAmong(a, b);
      assert nodes decreases to nodes[0];
      FoundThen(a.adds, b.adds, p, s);
      NodeMatches(tree, path, nodes[0], select, visited, p, s);
      ExpandMatches(tree, path, nodes[1..], select, visited, p, s);
      FitsFirst(tree, path, nodes, visited, select, p, s);
    }
  }

  lemma {:induction false} NothingFound(p: seq<Tag>, s: nat)
    ensures !Found([], p, s)
  {
  }

  lemma {:induction false} FitsFirst(tree: SchemaTree, path: string, nodes: seq<SchemaNode>, visited: Word, current: nat, p: seq<Tag>, s: nat)
    requires nodes != []
    ensures (exists k: nat :: FitsBehind(tree, path, nodes, visited, current, p, s, k))
       <==> (exists k: nat :: NodeFitsBehind(tree, path, nodes[0], visited, current, p, s, k))
            || (exists k: nat :: FitsBehind(tree, path, nodes[1..], visited, current, p, s, k))
  {
    hide Matches, FitsNode;
    forall k: nat
      ensures FitsBehind(tree, path, nodes, visited, current, p, s, k)
         <==> NodeFitsBehind(tree, path, nodes[0], visited, current, p, s, k) || FitsBehind(tree, path, nodes[1..], visited, current, p, s, k)
    {}
  }

  lemma {:induction false} NodeMatches(tree: SchemaTree, path: string, nd: SchemaNode, select: nat, visited: Word, p: seq<Tag>, s: nat)
    requires ExpandNode(tree, path, nd, select, visited).err == None && IsPath(path) && IsName(nd.name) && NamesOk(nd.children)
    requires TreeNamesOk(tree) && AreNames(p)
    ensures Found(ExpandNode(tree, path, nd, select, visited).adds, p, s)
       <==> exists k: nat :: NodeFitsBehind(tree, path, nd, visited, select, p, s, k)
    decreases Free(visited), 1, nd, 0
  {
    hide Matches, Found, FitsRefs, FitsList, NodeFitsBehind, NamesOk, TreeNamesOk;
    var key, t := KeyOf(path, nd), ExpandNode(tree, path, nd, select, visited);
    if nd.typnam.Some? {
      if AtomicType(nd.typnam.value).Some? {
        AtomMatches(tree, path, nd, select, visited, p, s);
      } else {
        var refs := Named(tree, nd.typnam.value);
        var open, close := Opening(tree, key, nd, select), Closing(key, nd, select);
        var inner := ExpandRefs(tree, path + "//" + nd.name, refs, visited);
        assert t == Then(Adds([open]), Then(inner, Adds([close])));
        BetweenErrors(open, inner, close);
        FoundBetween(open, inner, close, p, s);
        RefsMatch(tree, path, nd.name, refs, visited, p, s);
        RefNodeFits(tree, path, nd, select, visited, p, s);
      }
    } else if nd.children != [] {
      var open, close := Opening(tree, key, nd, select), Closing(key, nd, select);
      var inner := Expand(tree, key, nd.children, select, visited);
      assert t == Then(Adds([open]), Then(inner, Adds([close])));
      BetweenErrors(open, inner, close);
      FoundBetween(open, inner, close, p, s);
      LastTag(path, nd, p);
      ExpandMatches(tree, key, nd.children, select, visited, p, s);
      StructFits(tree, path, nd, select, visited, p, s);
    } else {
      NothingFound(p, s);
      NoneFits(tree, path, nd, select, visited, p, s);
    }
  }

  lemma {:induction false} NoneFits(tree: SchemaTree, path: string, nd: SchemaNode, current: nat, visited: Word, p: seq<Tag>, s: nat)
    requires nd.typnam.None? && nd.children == []
    ensures !exists k: nat :: NodeFitsBehind(tree, path, nd, visited, current, p, s, k)
  {
    hide Matches;
  }

  lemma {:induction false} AtomMatches(tree: SchemaTree, path: string, nd: SchemaNode, select: nat, visited: Word, p: seq<Tag>, s: nat)
    requires nd.typnam.Some? && AtomicType(nd.typnam.value).Some? && IsPath(path) && IsName(nd.name) && AreNames(p)
    ensures Found(ExpandNode(tree, path, nd, select, visited).adds, p, s)
       <==> exists k: nat :: NodeFitsBehind(tree, path, nd, visited, select, p, s, k)
  {
    hide Matches, Found, FitsRefs;
    var key := KeyOf(path, nd);
    var adds := AtomAdditions(key, nd, AtomicType(nd.typnam.value).value, select);
    SelectedLast(path, nd, p, select, s);
    FoundSingle(adds[0], p, s);
    if nd.attribute {
      assert adds == [adds[0]];
    } else {
      assert adds == [adds[0]] + [adds[1]];
      FoundThen([adds[0]], [adds[1]], p, s);
      FoundSingle(adds[1], p, s);
      EndsMarked(adds[1].key, p);
    }
    forall k: nat
      ensures NodeFitsBehind(tree, path, nd, visited, select, p, s, k)
         <==> 0 <= k <= |p| && Matches(path, p[..k]) && p[k..] == [TagOf(nd)] && s == select
    {}
  }

  lemma {:induction false} RefNodeFits(tree: SchemaTree, path: string, nd: SchemaNode, select: nat, visited: Word, p: seq<Tag>, s: nat)
    requires nd.typnam.Some? && AtomicType(nd.typnam.value).None? && IsPath(path) && IsName(nd.name) && AreNames(p)
    ensures (exists k: nat :: NodeFitsBehind(tree, path, nd, visited, select, p, s, k))
       <==> (s == select && Matches(KeyOf(path, nd), p))
            || exists k: nat :: RefsFitBehind(tree, path, nd.name, Named(tree, nd.typnam.value), visited, p, s, k)
  {
    hide Matches, FitsRefs;
    SelectedLast(path, nd, p, select, s);
    forall k: nat
      ensures NodeFitsBehind(tree, path, nd, visited, select, p, s, k)
         <==> (0 <= k <= |p| && Matches(path, p[..k]) && p[k..] == [TagOf(nd)] && s == select)
              || RefsFitBehind(tree, path, nd.name, Named(tree, nd.typnam.value), visited, p, s, k)
    {}
  }

  lemma {:induction false} StructFits(tree: SchemaTree, path: string, nd: SchemaNode, select: nat, visited: Word, p: seq<Tag>, s: nat)
    requires nd.typnam.None? && nd.children != [] && IsPath(path) && IsName(nd.name) && AreNames(p)
    ensures (exists k: nat :: NodeFitsBehind(tree, path, nd, visited, select, p, s, k))
       <==> (s == select && Matches(KeyOf(path, nd), p))
            || exists k: nat :: FitsBehind(tree, KeyOf(path, nd), nd.children, visited, select, p, s, k)
  {
    hide Matches, FitsList;
    var key := KeyOf(path, nd);
    SelectedLast(path, nd, p, select, s);
    forall k: nat
      ensures NodeFitsBehind(tree, path, nd, visited, select, p, s, k)
         <==> (0 <= k <= |p| && Matches(path, p[..k]) && p[k..] == [TagOf(nd)] && s == select)
              || FitsBehind(tree, key, nd.children, visited, select, p, s, k + 1)
    {
      StructStep(tree, path, nd, select, visited, p, s, k);
    }
    forall k: nat | FitsBehind(tree, key, nd.children, visited, select, p, s, k) ensures k > 0 {
      if k == 0 { EmptyMatches(key); }
    }
    if exists k: nat :: FitsBehind(tree, key, nd.children, visited, select, p, s, k) {
      var k: nat :| FitsBehind(tree, key, nd.children, visited, select, p, s, k);
      assert k - 1 + 1 == k && NodeFitsBehind(tree, path, nd, visited, select, p, s, k - 1);
    }
  }

  lemma {:induction false} StructStep(tree: SchemaTree, path: string, nd: SchemaNode, select: nat, visited: Word, p: seq<Tag>, s: nat, k: nat)
    requires nd.typnam.None? && nd.children != [] && IsPath(path) && IsName(nd.name) && AreNames(p)
    ensures NodeFitsBehind(tree, path, nd, visited, select, p, s, k)
       <==> (0 <= k <= |p| && Matches(path, p[..k]) && p[k..] == [TagOf(nd)] && s == select)
            || FitsBehind(tree, KeyOf(path, nd), nd.children, visited, select, p, s, k + 1)
  {
    hide Matches, FitsList;
    if k < |p| {
      MatchesChild(path, TagOf(nd), p[..k + 1]);
      assert KeyOf(path, nd) == path + Ending(TagOf(nd));
      assert p[..k + 1][..k] == p[..k] && p[k..][1..] == p[k + 1..] && p[k..][0] == p[k];
      assert |p[k..]| == 1 && p[k] == TagOf(nd) ==> p[k..] == [TagOf(nd)];
    }
  }

  lemma {:induction false} EmptyMatches(key: string)
    ensures Matches(key, []) <==> key == ""
  {
  }

  /** The path enters a schema behind step i. */
  ghost predicate EntersAt(tree: SchemaTree, name: string, refs: Word, visited: Word, p: seq<Tag>, s: nat, i: nat)
    requires forall b :: Has(refs, b) ==> b <= |tree|
  {
    i < |p| && p[i] == Tag(name, false) && FitsOpen(tree, refs, visited, p[i + 1..], s)
  }

  lemma {:induction false} RefsEnter(tree: SchemaTree, name: string, refs: Word, visited: Word, p: seq<Tag>, s: nat)
    requires forall b :: Has(refs, b) ==> b <= |tree|
    ensures FitsRefs(tree, name, refs, visited, p, s) <==> exists i: nat :: EntersAt(tree, name, refs, visited, p, s, i)
    decreases |p|
  {
    hide FitsOpen;
    if p != [] {
      RefsEnter(tree, name, refs, visited, p[1..], s);
      forall i: nat ensures EntersAt(tree, name, refs, visited, p, s, i + 1) <==> EntersAt(tree, name, refs, visited, p[1..], s, i) {
        if i + 1 < |p| { assert p[1..][i + 1..] == p[i + 2..]; }
      }
      forall i: nat | EntersAt(tree, name, refs, visited, p, s, i) ensures i == 0 || EntersAt(tree, name, refs, visited, p[1..], s, i - 1) {
        if i > 0 { assert i - 1 + 1 == i; }
      }
      assert EntersAt(tree, name, refs, visited, p, s, 0) <==> p[0] == Tag(name, false) && FitsOpen(tree, refs, visited, p[1..], s);
    }
  }

  /** What follows a reference at any depth. */
  lemma {:induction false} BelowFits(tree: SchemaTree, path: string, name: string, refs: Word, visited: Word, p: seq<Tag>, s: nat, k: nat)
    requires IsPath(path) && IsName(name) && AreNames(p) && forall b :: Has(refs, b) ==> b <= |tree|
    ensures OpenFitsBehind(tree, path + "//" + name, refs, visited, p, s, k)
       <==> exists j: nat :: j < k <= |p| && Matches(path, p[..j]) && EntersAt(tree, name, refs, visited, p[j..], s, k - 1 - j)
  {
    hide Matches, FitsOpen;
    if k <= |p| {
      MatchesBelow(path, name, p[..k]);
      forall j: nat | j < k
        ensures p[..k][..j] == p[..j]
        ensures EntersAt(tree, name, refs, visited, p[j..], s, k - 1 - j)
           <==> p[k - 1] == Tag(name, false) && FitsOpen(tree, refs, visited, p[k..], s)
      {
        assert p[j..][k - j..] == p[k..] && p[..k][..j] == p[..j];
      }
    }
  }

  lemma {:induction false} RefsFit(tree: SchemaTree, path: string, name: string, refs: Word, visited: Word, p: seq<Tag>, s: nat)
    requires IsPath(path) && IsName(name) && AreNames(p) && forall b :: Has(refs, b) ==> b <= |tree|
    ensures (exists k: nat :: OpenFitsBehind(tree, path + "//" + name, refs, visited, p, s, k))
       <==> exists k: nat :: RefsFitBehind(tree, path, name, refs, visited, p, s, k)
  {
    hide Matches, OpenFitsBehind, FitsRefs, EntersAt;
    if exists k: nat :: OpenFitsBehind(tree, path + "//" + name, refs, visited, p, s, k) {
      var k: nat :| OpenFitsBehind(tree, path + "//" + name, refs, visited, p, s, k);
      BelowFits(tree, path, name, refs, visited, p, s, k);
      var j: nat :| j < k <= |p| && Matches(path, p[..j]) && EntersAt(tree, name, refs, visited, p[j..], s, k - 1 - j);
      RefsEnter(tree, name, refs, visited, p[j..], s);
      assert RefsFitBehind(tree, path, name, refs, visited, p, s, j);
    }
    if exists k: nat :: RefsFitBehind(tree, path, name, refs, visited, p, s, k) {
      var j: nat :| RefsFitBehind(tree, path, name, refs, visited, p, s, j);
      RefsEnter(tree, name, refs, visited, p[j..], s);
      var i: nat :| EntersAt(tree, name, refs, visited, p[j..], s, i);
      EntersInside(tree, name, refs, visited, p[j..], s, i);
      assert j + i + 1 - 1 - j == i;
      BelowFits(tree, path, name, refs, visited, p, s, j + i + 1);
      assert OpenFitsBehind(tree, path + "//" + name, refs, visited, p, s, j + i + 1);
    }
  }

  lemma {:induction false} EntersInside(tree: SchemaTree, name: string, refs: Word, visited: Word, p: seq<Tag>, s: nat, i: nat)
    requires (forall b :: Has(refs, b) ==> b <= |tree|) && EntersAt(tree, name, refs, visited, p, s, i)
    ensures i < |p|
  {
  }

  lemma {:induction false} RefsMatch(tree: SchemaTree, path: string, name: string, refs: Word, visited: Word, p: seq<Tag>, s: nat)
    requires forall b :: Has(refs, b) ==> b <= |tree|
    requires ExpandRefs(tree, path + "//" + name, refs, visited).err == None && IsPath(path) && IsName(name) && TreeNamesOk(tree) && AreNames(p)
    ensures Found(ExpandRefs(tree, path + "//" + name, refs, visited).adds, p, s)
       <==> exists k: nat :: RefsFitBehind(tree, path, name, refs, visited, p, s, k)
    decreases Free(visited), 0
  {
    hide Matches, Found, RefsFitBehind, FitsSchemas, TreeNamesOk;
    var below, toVisit := path + "//" + name, AscendingBits(Minus(refs, visited));
    assert below[|below| - 1] == name[|name| - 1];
    RefsFit(tree, path, name, refs, visited, p, s);
    if toVisit == [] {
      NothingFound(p, s);
    } else {
      assert Has(Minus(refs, visited), toVisit[0]);
      FreeShrinks(visited, refs, toVisit[0]);
      assert forall i :: 0 <= i < |toVisit| ==> toVisit[i] in toVisit;
      SchemasMatch(tree, below, toVisit, Union(refs, visited), p, s);
      assert forall k: nat :: OpenFitsBehind(tree, below, refs, visited, p, s, k)
                         <==> SchemasFitBehind(tree, below, toVisit, Union(refs, visited), p, s, k);
    }
  }

  lemma {:induction false} SchemasMatch(tree: SchemaTree, path: string, bits: seq<nat>, visited: Word, p: seq<Tag>, s: nat)
    requires InTree(tree, bits) && ExpandSchemas(tree, path, bits, visited).err == None && IsPath(path) && TreeNamesOk(tree) && AreNames(p)
    ensures Found(ExpandSchemas(tree, path, bits, visited).adds, p, s)
       <==> exists k: nat :: SchemasFitBehind(tree, path, bits, visited, p, s, k)
    decreases Free(visited), 3, bits
  {
    hide Matches, Found, FitsList;
    if bits == [] {
      NothingFound(p, s);
    } else {
      var first, more := ExpandSchema(tree, path, bits[0], visited), ExpandSchemas(tree, path, bits[1..], visited);
      ThenAmong(first, more);
      FoundThen(first.adds, more.adds, p, s);
      assert NamesOk(tree[bits[0] - 1].children);
      ExpandMatches(tree, path, tree[bits[0] - 1].children, bits[0], visited, p, s);
      SchemasMatch(tree, path, bits[1..], visited, p, s);
      FitsFirstSchema(tree, path, bits, tree[bits[0] - 1].children, visited, p, s);
    }
  }

  lemma {:induction false} FitsFirstSchema(tree: SchemaTree, path: string, bits: seq<nat>, first: seq<SchemaNode>, visited: Word, p: seq<Tag>, s: nat)
    requires InTree(tree, bits) && bits != [] && first == tree[bits[0] - 1].children
    ensures InTree(tree, bits[1..])
    ensures (exists k: nat :: SchemasFitBehind(tree, path, bits, visited, p, s, k))
       <==> (exists k: nat :: FitsBehind(tree, path, first, visited, bits[0], p, s, k))
            || (exists k: nat :: SchemasFitBehind(tree, path, bits[1..], visited, p, s, k))
  {
    hide Matches, FitsList;
    forall k: nat
      ensures SchemasFitBehind(tree, path, bits, visited, p, s, k)
         <==> FitsBehind(tree, path, first, visited, bits[0], p, s, k) || SchemasFitBehind(tree, path, bits[1..], visited, p, s, k)
    {}
  }

  /** Of an expansion without an error, an expression selected by a schema matches a path exactly if the path follows
      the references in a way that enters no schema twice, with any elements in front of a reference. */
  lemma {:induction false} MatchedIff(tree: SchemaTree, root: SchemaNode, p: seq<Tag>, s: nat)
    requires Expand(tree, "", [root], 0, NoBits()).err == None && NamesOk([root]) && TreeNamesOk(tree) && AreNames(p)
    ensures Found(Expand(tree, "", [root], 0, NoBits()).adds, p, s) <==> FitsList(tree, [root], NoBits(), 0, p, s)
  {
    hide Found, FitsList;
    ExpandMatches(tree, "", [root], 0, NoBits(), p, s);
    assert p[..0] == [] && p[0..] == p;
    assert forall k: nat :: FitsBehind(tree, "", [root], NoBits(), 0, p, s, k) ==> k == 0;
    assert FitsBehind(tree, "", [root], NoBits(), 0, p, s, 0) <==> FitsList(tree, [root], NoBits(), 0, p, s);
  }

  /** In the map built from the additions, too: an expression that is selected in a schema matches the path. */
  lemma {:induction false} MapMatches(m: OpMap, adds: seq<Addition>, p: seq<Tag>, s: nat)
    requires Represents(m, adds) && 1 <= s <= MAX_NODES
    ensures Found(adds, p, s) <==> exists key :: key in m && Has(m[key].mask, s) && Matches(key, p)
  {
    hide Matches;
    if Found(adds, p, s) {
      var a :| a in adds && a.select == s && Matches(a.key, p);
      assert a.key in m && Has(m[a.key].mask, s);
    }
    if exists key :: key in m && Has(m[key].mask, s) && Matches(key, p) {
      var key :| key in m && Has(m[key].mask, s) && Matches(key, p);
      var a :| a in adds && a.key == key && a.select == s;
    }
  }

  // ---------------------------------------------------------------- paths of a document

  /** The path leads to a node of a schema, following references any number of times. */
  ghost predicate Conforms(tree: SchemaTree, nodes: seq<SchemaNode>, current: nat, p: seq<Tag>, select: nat)
    decreases |p|, 0, nodes, 1
  {
    nodes != [] && (ConformsNode(tree, nodes[0], current, p, select) || Conforms(tree, nodes[1..], current, p, select))
  }

  ghost predicate ConformsNode(tree: SchemaTree, nd: SchemaNode, current: nat, p: seq<Tag>, select: nat)
    decreases |p|, 0, nd, 0
  {
    && p != [] && p[0] == TagOf(nd)
    && (if |p| == 1 then select == current && (nd.typnam.Some? || nd.children != [])
        else if nd.typnam.Some? then
          !IsAtomicType(nd.typnam.value) && !nd.attribute && ConformsSchemas(tree, AscendingBits(Named(tree, nd.typnam.value)), p[1..], select)
        else Conforms(tree, nd.children, current, p[1..], select))
  }

  ghost predicate ConformsSchemas(tree: SchemaTree, bits: seq<nat>, p: seq<Tag>, select: nat)
    decreases |p|, 1, bits
  {
    && bits != []
    && ((InRange(tree, bits[0]) && Conforms(tree, tree[bits[0] - 1].children, bits[0], p, select)) || ConformsSchemas(tree, bits[1..], p, select))
  }

  /** Elements that refer to the same schemas have the same name. */
  predicate NamedBy(tree: SchemaTree, nodes: seq<SchemaNode>, names: map<string, string>)
    decreases nodes, 1
  {
    nodes == [] || (NodeNamedBy(tree, nodes[0], names) && NamedBy(tree, nodes[1..], names))
  }

  predicate NodeNamedBy(tree: SchemaTree, nd: SchemaNode, names: map<string, string>)
    decreases nd, 0
  {
    if nd.typnam.None? then NamedBy(tree, nd.children, names)
    else !IsAtomicType(nd.typnam.value) ==> nd.typnam.value in names && names[nd.typnam.value] == nd.name
  }

  predicate TreeNamedBy(tree: SchemaTree, names: map<string, string>) {
    forall b :: 0 <= b < |tree| ==> NamedBy(tree, tree[b].children, names)
  }

  /** The path enters a schema visited already. */
  ghost predicate EscapesAt(tree: SchemaTree, names: map<string, string>, visited: Word, p: seq<Tag>, s: nat, i: nat, b: nat) {
    && i < |p| && InRange(tree, b) && Has(visited, b) && tree[b - 1].name in names && p[i] == Tag(names[tree[b - 1].name], false)
    && Conforms(tree, tree[b - 1].children, b, p[i + 1..], s)
  }

  ghost predicate Escapes(tree: SchemaTree, names: map<string, string>, visited: Word, p: seq<Tag>, s: nat) {
    exists i: nat, b: nat :: EscapesAt(tree, names, visited, p, s, i, b)
  }

  lemma {:induction false} EscapesLater(tree: SchemaTree, names: map<string, string>, visited: Word, p: seq<Tag>, s: nat, n: nat)
    requires n <= |p| && Escapes(tree, names, visited, p[n..], s)
    ensures Escapes(tree, names, visited, p, s)
  {
    var i: nat, b: nat :| EscapesAt(tree, names, visited, p[n..], s, i, b);
    assert p[n..][i + 1..] == p[n + i + 1..];
    assert EscapesAt(tree, names, visited, p, s, n + i, b);
  }

  lemma {:induction false} EscapePlace(tree: SchemaTree, names: map<string, string>, visited: Word, p: seq<Tag>, s: nat) returns (i: nat, b: nat)
    requires Escapes(tree, names, visited, p, s)
    ensures i < |p| && InRange(tree, b) && Has(visited, b) && tree[b - 1].name in names && p[i] == Tag(names[tree[b - 1].name], false)
    ensures Conforms(tree, tree[b - 1].children, b, p[i + 1..], s)
  {
    i, b :| EscapesAt(tree, names, visited, p, s, i, b);
  }

  lemma {:induction false} EscapeHere(tree: SchemaTree, names: map<string, string>, visited: Word, p: seq<Tag>, s: nat, i: nat, b: nat)
    requires i < |p| && InRange(tree, b) && Has(visited, b) && tree[b - 1].name in names && p[i] == Tag(names[tree[b - 1].name], false)
    requires Conforms(tree, tree[b - 1].children, b, p[i + 1..], s)
    ensures Escapes(tree, names, visited, p, s)
  {
    assert EscapesAt(tree, names, visited, p, s, i, b);
  }

  lemma {:induction false} ConformingSchema(tree: SchemaTree, bits: seq<nat>, p: seq<Tag>, select: nat) returns (b: nat)
    requires ConformsSchemas(tree, bits, p, select)
    ensures b in bits && InRange(tree, b) && Conforms(tree, tree[b - 1].children, b, p, select)
    decreases bits
  {
    if InRange(tree, bits[0]) && Conforms(tree, tree[bits[0] - 1].children, bits[0], p, select) {
      b := bits[0];
    } else {
      b := ConformingSchema(tree, bits[1..], p, select);
    }
  }

  lemma {:induction false} SchemaFits(tree: SchemaTree, bits: seq<nat>, visited: Word, p: seq<Tag>, s: nat, b: nat)
    requires InTree(tree, bits) && b in bits && FitsList(tree, tree[b - 1].children, visited, b, p, s)
    ensures FitsSchemas(tree, bits, visited, p, s)
    decreases bits
  {
    hide FitsList;
    if bits[0] != b { SchemaFits(tree, bits[1..], visited, p, s, b); }
  }

  lemma {:induction false} OpenFits(tree: SchemaTree, refs: Word, visited: Word, p: seq<Tag>, s: nat, b: nat)
    requires (forall c :: Has(refs, c) ==> c <= |tree|) && Has(refs, b) && !Has(visited, b)
    requires FitsList(tree, tree[b - 1].children, Union(refs, visited), b, p, s)
    ensures FitsOpen(tree, refs, visited, p, s)
  {
    hide FitsList;
    var toVisit := AscendingBits(Minus(refs, visited));
    assert Has(Minus(refs, visited), b);
    assert b in toVisit && forall i :: 0 <= i < |toVisit| ==> toVisit[i] in toVisit;
    SchemaFits(tree, toVisit, Union(refs, visited), p, s, b);
  }

  lemma {:induction false} ConformsSome(tree: SchemaTree, nodes: seq<SchemaNode>, current: nat, p: seq<Tag>, s: nat)
    requires Conforms(tree, nodes, current, p, s)
    ensures nodes != []
  {
  }

  /** A path that leads to a node fits, or it enters a schema again that was visited before. */
  lemma {:induction false} Descend(tree: SchemaTree, names: map<string, string>, nodes: seq<SchemaNode>, visited: Word, current: nat, p: seq<Tag>, s: nat)
    requires Conforms(tree, nodes, current, p, s) && NamedBy(tree, nodes, names) && TreeNamedBy(tree, names)
    ensures FitsList(tree, nodes, visited, current, p, s) || Escapes(tree, names, visited, p, s)
    decreases |p|, 1, nodes, 1
  {
    hide Escapes, ConformsNode, FitsNode, NodeNamedBy, TreeNamedBy;
    assert nodes decreases to nodes[0];
    if ConformsNode(tree, nodes[0], current, p, s) {
      DescendNode(tree, names, nodes[0], visited, current, p, s);
    } else {
      Descend(tree, names, nodes[1..], visited, current, p, s);
    }
  }

  lemma {:induction false} DescendNode(tree: SchemaTree, names: map<string, string>, nd: SchemaNode, visited: Word, current: nat, p: seq<Tag>, s: nat)
    requires ConformsNode(tree, nd, current, p, s) && NodeNamedBy(tree, nd, names) && TreeNamedBy(tree, names)
    ensures FitsNode(tree, nd, visited, current, p, s) || Escapes(tree, names, visited, p, s)
    decreases |p|, 1, nd, 0
  {
    hide FitsList, FitsRefs, Conforms, ConformsSchemas, NamedBy, TreeNamedBy;
    if |p| == 1 {
      assert p == [TagOf(nd)];
    } else if nd.typnam.Some? {
      var b := ConformingSchema(tree, AscendingBits(Named(tree, nd.typnam.value)), p[1..], s);
      if Has(visited, b) {
        assert EscapesAt(tree, names, visited, p, s, 0, b);
      } else {
        DescendRefs(tree, names, nd.typnam.value, visited, p, s, 0, b);
      }
    } else {
      ConformsSome(tree, nd.children, current, p[1..], s);
      Descend(tree, names, nd.children, visited, current, p[1..], s);
      if Escapes(tree, names, visited, p[1..], s) { EscapesLater(tree, names, visited, p, s, 1); }
    }
  }

  /** A path that enters one of the schemas referred to; where it enters one of them again it may as well have got there at once. */
  lemma {:induction false} DescendRefs(tree: SchemaTree, names: map<string, string>, typnam: string, visited: Word, p: seq<Tag>, s: nat, i: nat, b: nat)
    requires TreeNamedBy(tree, names) && typnam in names && Has(Named(tree, typnam), b) && !Has(visited, b)
    requires i < |p| && p[i] == Tag(names[typnam], false) && Conforms(tree, tree[b - 1].children, b, p[i + 1..], s)
    ensures FitsRefs(tree, names[typnam], Named(tree, typnam), visited, p, s) || Escapes(tree, names, visited, p, s)
    decreases |p| - i, 0
  {
    hide FitsList, FitsRefs, FitsOpen, Conforms, NamedBy, Escapes;
    var refs, rest := Named(tree, typnam), p[i + 1..];
    Descend(tree, names, tree[b - 1].children, Union(refs, visited), b, rest, s);
    if FitsList(tree, tree[b - 1].children, Union(refs, visited), b, rest, s) {
      OpenFits(tree, refs, visited, rest, s, b);
      assert EntersAt(tree, names[typnam], refs, visited, p, s, i);
      RefsEnter(tree, names[typnam], refs, visited, p, s);
    } else {
      var j, c := EscapePlace(tree, names, Union(refs, visited), rest, s);
      assert rest[j + 1..] == p[i + 1 + j + 1..];
      if Has(visited, c) {
        EscapeHere(tree, names, visited, p, s, i + 1 + j, c);
      } else {
        DescendRefs(tree, names, typnam, visited, p, s, i + 1 + j, c);
      }
    }
  }

  /** If elements that refer to the same schemas have the same name, every path that leads to a node of a schema is
      matched by an expression selected by it, however often it follows references. */
  lemma {:induction false} EveryPathIsMatched(tree: SchemaTree, root: SchemaNode, names: map<string, string>, p: seq<Tag>, s: nat)
    requires Expand(tree, "", [root], 0, NoBits()).err == None && NamesOk([root]) && TreeNamesOk(tree) && AreNames(p)
    requires NamedBy(tree, [root], names) && TreeNamedBy(tree, names)
    requires Conforms(tree, [root], 0, p, s)
    ensures Found(Expand(tree, "", [root], 0, NoBits()).adds, p, s)
  {
    hide FitsList, Conforms, NamedBy, Found;
    Descend(tree, names, [root], NoBits(), 0, p, s);
    MatchedIff(tree, root, p, s);
  }

  // ---------------------------------------------------------------- a schema that refers to itself by another name

  function Atomic(name: string): SchemaNode {
    SchemaNode(name, Some("string"), false, false, [])
  }

  function Reference(name: string, typnam: string): SchemaNode {
    SchemaNode(name, Some(typnam), false, false, [])
  }

  function Structure(name: string, children: seq<SchemaNode>): SchemaNode {
    SchemaNode(name, None, false, false, children)
  }

  /** A has an element x of schema B; B has a value w and an element z of schema B. */
  function TwoSchemas(): SchemaTree {
    [Structure("A", [Reference("x", "B")]), Structure("B", [Atomic("w"), Reference("z", "B")])]
  }

  function Child(name: string): Tag {
    Tag(name, false)
  }

  lemma {:induction false} OneBit(w: Word, b: nat)
    requires forall c :: Has(w, c) <==> c == b
    ensures AscendingBits(w) == [b] && FirstBit(w, 0) == b != 0
  {
    var rest: Word := w[b - 1 := false];
    assert Has(w, b);
    assert forall c :: Has(rest, c) <==> Has(w, c) && c != b;
    NoBit(rest);
  }

  lemma {:induction false} NoBit(w: Word)
    requires forall c :: !Has(w, c)
    ensures AscendingBits(w) == []
  {
  }

  lemma {:induction false} BitsOfB(visited: Word)
    ensures var refs := Named(TwoSchemas(), "B");
            && (forall c :: Has(refs, c) <==> c == 2) && FirstBit(refs, 0) == 2
            && AscendingBits(refs) == [2] && AscendingBits(Minus(refs, NoBits())) == [2] && AscendingBits(Minus(refs, Union(refs, visited))) == []
  {
    var refs := Named(TwoSchemas(), "B");
    assert forall c :: Has(refs, c) <==> c == 2;
    OneBit(refs, 2);
    OneBit(Minus(refs, NoBits()), 2);
    NoBit(Minus(refs, Union(refs, visited)));
  }

  lemma {:induction false} SingleNode(tree: SchemaTree, path: string, nd: SchemaNode, current: nat, visited: Word, p: seq<Tag>, s: nat)
    ensures Expand(tree, path, [nd], current, visited).err == ExpandNode(tree, path, nd, current, visited).err
    ensures FitsList(tree, [nd], visited, current, p, s) <==> FitsNode(tree, nd, visited, current, p, s)
    ensures Conforms(tree, [nd], current, p, s) <==> ConformsNode(tree, nd, current, p, s)
  {
    hide ExpandNode, FitsNode, ConformsNode;
    assert [nd][1..] == [];
    NoNodes(tree, path, current, visited, p, s);
  }

  lemma {:induction false} NoNodes(tree: SchemaTree, path: string, current: nat, visited: Word, p: seq<Tag>, s: nat)
    ensures Expand(tree, path, [], current, visited) == Adds([])
    ensures !FitsList(tree, [], visited, current, p, s) && !Conforms(tree, [], current, p, s)
  {
  }

  lemma {:induction false} InnerExpands(path: string)
    ensures var tree := TwoSchemas(); var refs := Named(tree, "B");
            Expand(tree, path, tree[1].children, 2, Union(refs, NoBits())).err == None
  {
    var tree := TwoSchemas();
    var refs := Named(tree, "B");
    var z := Reference("z", "B");
    BitsOfB(NoBits());
    assert tree[1].children[1..] == [z] && AtomicType("B") == None && AtomicType("string").Some?;
    SingleNode(tree, path, z, 2, Union(refs, NoBits()), [], 0);
  }

  lemma {:induction false} ReferenceExpands()
    ensures Expand(TwoSchemas(), "/A", [Reference("x", "B")], 0, NoBits()).err == None
  {
    var tree := TwoSchemas();
    var refs := Named(tree, "B");
    BitsOfB(NoBits());
    SingleNode(tree, "/A", Reference("x", "B"), 0, NoBits(), [], 0);
    InnerExpands("/A//x");
    assert "/A" + "//" + "x" == "/A//x" && AtomicType("B") == None;
    assert InTree(tree, [2]) && [2][1..] == [];
    assert ExpandSchemas(tree, "/A//x", [2], Union(refs, NoBits())).err == None;
  }

  lemma {:induction false} RootExpands()
    ensures var tree := TwoSchemas(); Expand(tree, "", [tree[0]], 0, NoBits()).err == None
  {
    hide Expand;
    var tree := TwoSchemas();
    ReferenceExpands();
    SingleNode(tree, "", tree[0], 0, NoBits(), [], 0);
    assert "" + "/" + "A" == "/A" && tree[0].children == [Reference("x", "B")];
  }

  lemma {:induction false} InnerConforms()
    ensures Conforms(TwoSchemas(), TwoSchemas()[1].children, 2, [Child("z"), Child("w")], 2)
  {
    var tree := TwoSchemas();
    var p := [Child("z"), Child("w")];
    var z := Reference("z", "B");
    BitsOfB(NoBits());
    assert tree[1].children[1..] == [z] && AtomicType("B") == None && p[1..] == [Child("w")];
    SingleNode(tree, "", z, 2, NoBits(), p, 2);
    assert Conforms(tree, tree[1].children, 2, [Child("w")], 2);
    assert ConformsSchemas(tree, [2], [Child("w")], 2);
    assert ConformsNode(tree, z, 2, p, 2);
  }

  lemma {:induction false} RootConforms()
    ensures Conforms(TwoSchemas(), [TwoSchemas()[0]], 0, [Child("A"), Child("x"), Child("z"), Child("w")], 2)
  {
    var tree := TwoSchemas();
    var p := [Child("A"), Child("x"), Child("z"), Child("w")];
    var x := Reference("x", "B");
    BitsOfB(NoBits());
    InnerConforms();
    assert p[1..] == [Child("x"), Child("z"), Child("w")] && p[1..][1..] == [Child("z"), Child("w")];
    assert AtomicType("B") == None && tree[0].children == [x];
    assert ConformsSchemas(tree, [2], [Child("z"), Child("w")], 2);
    assert ConformsNode(tree, x, 0, p[1..], 2);
    SingleNode(tree, "", x, 0, NoBits(), p[1..], 2);
    SingleNode(tree, "", tree[0], 0, NoBits(), p, 2);
  }

  /** The name of a reference that no step has. */
  lemma {:induction false} NameIsMissing(tree: SchemaTree, name: string, refs: Word, visited: Word, p: seq<Tag>, s: nat)
    requires (forall b :: Has(refs, b) ==> b <= |tree|) && Child(name) !in p
    ensures !FitsRefs(tree, name, refs, visited, p, s)
  {
    RefsEnter(tree, name, refs, visited, p, s);
    forall i: nat ensures !EntersAt(tree, name, refs, visited, p, s, i) {
      if i < |p| { assert p[i] in p; }
    }
  }

  lemma {:induction false} InnerFits()
    ensures var tree := TwoSchemas(); var refs := Named(tree, "B");
            !FitsList(tree, tree[1].children, Union(refs, NoBits()), 2, [Child("z"), Child("w")], 2)
  {
    var tree := TwoSchemas();
    var refs := Named(tree, "B");
    var visited := Union(refs, NoBits());
    var p := [Child("z"), Child("w")];
    var z := Reference("z", "B");
    BitsOfB(NoBits());
    assert tree[1].children[1..] == [z] && AtomicType("B") == None && AtomicType("string").Some? && p[1..] == [Child("w")];
    SingleNode(tree, "", z, 2, visited, p, 2);
    assert !FitsOpen(tree, refs, visited, [Child("w")], 2);
    NameIsMissing(tree, "z", refs, visited, [Child("w")], 2);
    assert !FitsRefs(tree, "z", refs, visited, p, 2);
    assert !FitsNode(tree, z, visited, 2, p, 2);
  }

  lemma {:induction false} RootFits()
    ensures !FitsList(TwoSchemas(), [TwoSchemas()[0]], NoBits(), 0, [Child("A"), Child("x"), Child("z"), Child("w")], 2)
  {
    var tree := TwoSchemas();
    var refs := Named(tree, "B");
    var p := [Child("A"), Child("x"), Child("z"), Child("w")];
    var x := Reference("x", "B");
    BitsOfB(NoBits());
    InnerFits();
    assert p[1..] == [Child("x"), Child("z"), Child("w")] && p[1..][1..] == [Child("z"), Child("w")];
    assert InTree(tree, [2]) && [2][1..] == [];
    assert !FitsSchemas(tree, [2], Union(refs, NoBits()), [Child("z"), Child("w")], 2);
    assert !FitsOpen(tree, refs, NoBits(), [Child("z"), Child("w")], 2);
    NameIsMissing(tree, "x", refs, NoBits(), [Child("z"), Child("w")], 2);
    assert !FitsRefs(tree, "x", refs, NoBits(), p[1..], 2);
    assert AtomicType("B") == None && tree[0].children == [x];
    SingleNode(tree, "", x, 0, NoBits(), p[1..], 2);
    SingleNode(tree, "", tree[0], 0, NoBits(), p, 2);
  }

  lemma {:induction false} TwoNamesOk()
    ensures NamesOk([TwoSchemas()[0]]) && TreeNamesOk(TwoSchemas())
  {
    var tree := TwoSchemas();
    assert NamesOk([]) && NamesOk([Reference("z", "B")]) && NamesOk(tree[1].children) && NamesOk(tree[0].children);
    assert [tree[0]][1..] == [];
  }

  /** The path A/x/z/w leads to w in B, but no expression selected by B matches it: the expressions for B begin with
      /A//x, as B is visited already where z refers to it. */
  lemma {:induction false} OtherNameIsNotMatched()
    ensures var tree, p := TwoSchemas(), [Child("A"), Child("x"), Child("z"), Child("w")];
            && Expand(tree, "", [tree[0]], 0, NoBits()).err == None
            && Conforms(tree, [tree[0]], 0, p, 2)
            && !Found(Expand(tree, "", [tree[0]], 0, NoBits()).adds, p, 2)
  {
    hide Expand, Conforms, FitsList, Found, NamesOk, TreeNamesOk;
    var tree, p := TwoSchemas(), [Child("A"), Child("x"), Child("z"), Child("w")];
    RootExpands();
    RootConforms();
    RootFits();
    TwoNamesOk();
    MatchedIff(tree, tree[0], p, 2);
  }
}
