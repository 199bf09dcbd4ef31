/** The tree of a schema description: numbering of its nodes and lifting of deep nodes to the root. */
module SchemaTree {
  import opened Scopes
  import opened Sequences

  datatype ElementType = NullType | StructType | ValueType | AttributeType | ReferenceType | UnionType

  datatype FollowType = FollowNull | FollowImmediate | FollowDeep

  datatype TreeNode = TreeNode(name: string, id: int, elementType: ElementType, followType: FollowType, scope: Scope, chld: seq<TreeNode>)

  // ---------------------------------------------------------------- numbering

  function Size(t: TreeNode): (r: nat)
    ensures r > 0
    decreases t
  {
    1 + SizeAll(t.chld)
  }

  function SizeAll(ts: seq<TreeNode>): nat
    decreases ts
  {
    if ts == [] then 0 else Size(ts[0]) + SizeAll(ts[1..])
  }

  /** Every node gets a scope that begins with its number and ends behind those of its descendants. */
  function Scoped(t: TreeNode, start: int): TreeNode
    decreases t
  {
    t.(scope := Scope(start, start + Size(t)), chld := ScopedAll(t.chld, start + 1))
  }

  function ScopedAll(ts: seq<TreeNode>, start: int): (r: seq<TreeNode>)
    ensures |r| == |ts|
    decreases ts
  {
    if ts == [] then [] else [Scoped(ts[0], start)] + ScopedAll(ts[1..], start + Size(ts[0]))
  }

  method AssignScope(t: TreeNode, start: int) returns (res: TreeNode, next: int)
    ensures res == Scoped(t, start) && next == start + Size(t)
    decreases t
  {
    var scopecnt, chld, ci := start + 1, [], 0;
    while ci < |t.chld|
      invariant 0 <= ci <= |t.chld|
      invariant chld + ScopedAll(t.chld[ci..], scopecnt) == ScopedAll(t.chld, start + 1)
      invariant scopecnt + SizeAll(t.chld[ci..]) == start + Size(t)
    {
      assert t.chld[ci..][0] == t.chld[ci] && t.chld[ci..][1..] == t.chld[ci + 1..];
      assert t decreases to t.chld[ci];
      var c;
      c, scopecnt := AssignScope(t.chld[ci], scopecnt);
      chld := chld + [c];
      ci := ci + 1;
    }
    res, next := t.(scope := Scope(start, scopecnt), chld := chld), scopecnt;
  }

  // ---------------------------------------------------------------- scopes tell descendants

  /** A node is found by the positions of the children on the way to it. */
  predicate IsPath(t: TreeNode, path: seq<nat>)
    decreases path
  {
    path == [] || (path[0] < |t.chld| && IsPath(t.chld[path[0]], path[1..]))
  }

  function NodeAt(t: TreeNode, path: seq<nat>): TreeNode
    requires IsPath(t, path)
    decreases path
  {
    if path == [] then t else NodeAt(t.chld[path[0]], path[1..])
  }

  /** Where the numbers of a child begin. */
  function StartOf(ts: seq<TreeNode>, i: nat, start: int): int
    requires i <= |ts|
  {
    start + SizeAll(ts[..i])
  }

  lemma {:induction false} SizeAllConcat(a: seq<TreeNode>, b: seq<TreeNode>)
    ensures SizeAll(a + b) == SizeAll(a) + SizeAll(b)
  {
    if a == [] {
      assert a + b == b;
    } else {
      SizeAllConcat(a[1..], b);
      assert (a + b)[1..] == a[1..] + b;
    }
  }

  lemma {:induction false} ChildScoped(ts: seq<TreeNode>, i: nat, start: int)
    requires i < |ts|
    ensures ScopedAll(ts, start)[i] == Scoped(ts[i], StartOf(ts, i, start))
  {
    if i > 0 {
      ChildScoped(ts[1..], i - 1, start + Size(ts[0]));
      assert ts[..i][1..] == ts[1..][..i - 1];
    }
  }

  lemma {:induction false} StartsGrow(ts: seq<TreeNode>, i: nat, j: nat, start: int)
    requires i < j <= |ts|
    ensures start <= StartOf(ts, i, start) && StartOf(ts, i, start) + Size(ts[i]) <= StartOf(ts, j, start) <= start + SizeAll(ts)
  {
    assert ts[..j] == ts[..i] + ts[i..j] && ts[i..j][0] == ts[i] && ts == ts[..j] + ts[j..];
    SizeAllConcat(ts[..i], ts[i..j]);
    SizeAllConcat(ts[..j], ts[j..]);
  }

  /** The scope of a descendant lies in that of the node, and properly so. */
  lemma {:induction false} ScopeWithin(t: TreeNode, start: int, path: seq<nat>)
    requires IsPath(Scoped(t, start), path)
    ensures var s := NodeAt(Scoped(t, start), path).scope; start <= s.from < s.to <= start + Size(t)
    ensures path != [] ==> NodeAt(Scoped(t, start), path).scope.from > start
    decreases path
  {
    if path != [] {
      ChildScoped(t.chld, path[0], start + 1);
      StartsGrow(t.chld, path[0], path[0] + 1, start + 1);
      ScopeWithin(t.chld[path[0]], StartOf(t.chld, path[0], start + 1), path[1..]);
    }
  }

  /** The scope of one node lies inside the scope of another exactly if it is that node or below it. */
  lemma {:induction false} InsideMeansDescendant(t: TreeNode, start: int, p: seq<nat>, q: seq<nat>)
    requires IsPath(Scoped(t, start), p) && IsPath(Scoped(t, start), q)
    ensures NodeAt(Scoped(t, start), q).scope.Inside(NodeAt(Scoped(t, start), p).scope) <==> p <= q
    decreases p
  {
    ScopeWithin(t, start, p);
    ScopeWithin(t, start, q);
    if p != [] && q != [] {
      ChildScoped(t.chld, p[0], start + 1);
      ChildScoped(t.chld, q[0], start + 1);
      var a, b := StartOf(t.chld, p[0], start + 1), StartOf(t.chld, q[0], start + 1);
      if p[0] == q[0] {
        InsideMeansDescendant(t.chld[p[0]], a, p[1..], q[1..]);
        assert p <= q <==> p[1..] <= q[1..] by {
          assert p == [p[0]] + p[1..] && q == [q[0]] + q[1..];
        }
      } else {
        ScopeWithin(t.chld[p[0]], a, p[1..]);
        ScopeWithin(t.chld[q[0]], b, q[1..]);
        if p[0] < q[0] { StartsGrow(t.chld, p[0], q[0], start + 1); } else { StartsGrow(t.chld, q[0], p[0], start + 1); }
      }
    }
  }

  // ---------------------------------------------------------------- lifting deep nodes

  /** The ids of the names of deep nodes met, and the nodes lifted. */
  datatype DeepState = DeepState(items: map<string, int>, roots: seq<TreeNode>)

  predicate HasRoot(roots: seq<TreeNode>, name: string) {
    exists i :: 0 <= i < |roots| && roots[i].name == name
  }

  /** A node with other children; one that lost all of them is not a structure anymore. */
  function WithChildren(t: TreeNode, chld: seq<TreeNode>): TreeNode {
    t.(chld := chld, elementType := if chld == [] && t.chld != [] then NullType else t.elementType)
  }

  /** The children left and the state after; nothing if the references are ambiguous. */
  function Declare(chld: seq<TreeNode>, isTree: bool, st: DeepState): Option<(seq<TreeNode>, DeepState)>
    decreases chld, 1
  {
    if chld == [] then Some(([], st))
    else
      var c, rest := chld[0], chld[1..];
      if c.followType != FollowDeep then
        var inner := DeclareIn(c, st);
        if inner.None? then None
        else Prefixed([WithChildren(c, inner.value.0)], Declare(rest, isTree, inner.value.1))
      else if c.name in st.items then
        if st.items[c.name] == c.id && HasRoot(st.roots, c.name) then Declare(rest, isTree, st) else None
      else
        var inner := DeclareIn(c, st.(items := st.items[c.name := c.id]));
        if inner.None? then None
        else
          var lifted := WithChildren(c, inner.value.0).(followType := FollowImmediate);
          if isTree then Prefixed([lifted], Declare(rest, isTree, inner.value.1))
          else Declare(rest, isTree, inner.value.1.(roots := inner.value.1.roots + [lifted]))
  }

  function DeclareIn(c: TreeNode, st: DeepState): Option<(seq<TreeNode>, DeepState)>
    decreases c, 0
  {
    Declare(c.chld, false, st)
  }

  function Prefixed(pre: seq<TreeNode>, r: Option<(seq<TreeNode>, DeepState)>): Option<(seq<TreeNode>, DeepState)> {
    if r.None? then None else Some((pre + r.value.0, r.value.1))
  }

  lemma {:induction false} PrefixedTwice(a: seq<TreeNode>, b: seq<TreeNode>, r: Option<(seq<TreeNode>, DeepState)>)
    ensures Prefixed(a, Prefixed(b, r)) == Prefixed(a + b, r) && Prefixed([], r) == r
  {
    if r.Some? {
      assert a + (b + r.value.0) == a + b + r.value.0;
      assert [] + r.value.0 == r.value.0;
    }
  }

  method FindRoot(roots: seq<TreeNode>, name: string) returns (found: bool)
    ensures found <==> HasRoot(roots, name)
  {
    var ni := 0;
    while ni < |roots| && roots[ni].name != name
      invariant 0 <= ni <= |roots| && forall i :: 0 <= i < ni ==> roots[i].name != name
    {
      ni := ni + 1;
    }
    return ni < |roots|;
  }

  lemma {:induction false} Erased<T>(s: seq<T>, i: nat)
    requires i < |s|
    ensures (s[..i] + s[i + 1..])[..i] == s[..i] && (s[..i] + s[i + 1..])[i..] == s[i + 1..]
  {
  }

  lemma {:induction false} Replaced<T>(s: seq<T>, i: nat, x: T)
    requires i < |s|
    ensures s[i := x][..i + 1] == s[..i] + [x] && s[i := x][i + 1..] == s[i + 1..]
  {
  }

  /** Takes deep nodes out of the tree, or turns them into ordinary ones if they are children of the root already. */
  method DeclareDeepNodesAsGlobals(node: TreeNode, isTree: bool, st: DeepState) returns (ok: bool, res: TreeNode, next: DeepState)
    ensures ok <==> Declare(node.chld, isTree, st).Some?
    ensures ok ==> Declare(node.chld, isTree, st) == Some((res.chld, next)) && res == WithChildren(node, res.chld)
    decreases node
  {
    var chld, elementType, cidx := node.chld, node.elementType, 0;
    ghost var at := 0;
    next, res := st, node;
    PrefixedTwice([], [], Declare(chld, isTree, st));
    assert chld[..0] == [] && chld[0..] == chld;
    while cidx < |chld|
      invariant 0 <= cidx <= |chld| && 0 <= at <= |node.chld| && chld[cidx..] == node.chld[at..]
      invariant Prefixed(chld[..cidx], Declare(node.chld[at..], isTree, next)) == Declare(node.chld, isTree, st)
      invariant elementType == if chld == [] && node.chld != [] then NullType else node.elementType
      decreases |chld| - cidx
    {
      var c := chld[cidx];
      ghost var pre, rest := chld[..cidx], node.chld[at + 1..];
      assert c == chld[cidx..][0] && c == node.chld[at] && node.chld[at..][1..] == rest;
      assert chld[cidx + 1..] == chld[cidx..][1..];
      assert node decreases to c;
      var inner;
      if c.followType == FollowDeep && c.name in next.items {
        var found := FindRoot(next.roots, c.name);
        if next.items[c.name] != c.id || !found { return false, node, next; }
        Erased(chld, cidx);
        chld := chld[..cidx] + chld[cidx + 1..];
        if chld == [] { elementType := NullType; }
      } else {
        if c.followType == FollowDeep { next := next.(items := next.items[c.name := c.id]); }
        ok, inner, next := DeclareDeepNodesAsGlobals(c, false, next);
        if !ok { return; }
        if c.followType == FollowDeep { inner := inner.(followType := FollowImmediate); }
        if c.followType == FollowDeep && !isTree {
          next := next.(roots := next.roots + [inner]);
          Erased(chld, cidx);
          chld := chld[..cidx] + chld[cidx + 1..];
          if chld == [] { elementType := NullType; }
        } else {
          PrefixedTwice(pre, [inner], Declare(rest, isTree, next));
          Replaced(chld, cidx, inner);
          chld := chld[cidx := inner];
          cidx := cidx + 1;
        }
      }
      at := at + 1;
    }
    PrefixedTwice(chld, [], Some(([], next)));
    assert chld[..cidx] == chld && node.chld[at..] == [] && chld + [] == chld;
    return true, node.(chld := chld, elementType := elementType), next;
  }

  // ---------------------------------------------------------------- what is left

  /** A tree without its deep nodes. */
  function Strip(t: TreeNode): TreeNode
    decreases t, 0
  {
    WithChildren(t, StripAll(t.chld))
  }

  function StripAll(ts: seq<TreeNode>): seq<TreeNode>
    decreases ts, 1
  {
    if ts == [] then []
    else (if ts[0].followType == FollowDeep then [] else [Strip(ts[0])]) + StripAll(ts[1..])
  }

  predicate IsNotDeep(t: TreeNode) {
    t.followType != FollowDeep
  }

  /** The children that are no deep nodes stay in their order; a node that had deep ones only is no structure anymore. */
  lemma {:induction false} StripKeeps(t: TreeNode)
    ensures var r, left := Strip(t), Filter(IsNotDeep, t.chld);
            && r.name == t.name && r.id == t.id && r.followType == t.followType && r.scope == t.scope
            && |r.chld| == |left| && (forall i :: 0 <= i < |left| ==> r.chld[i] == Strip(left[i]))
            && r.elementType == if t.chld != [] && (forall c :: c in t.chld ==> c.followType == FollowDeep) then NullType else t.elementType
  {
    StripAllKeeps(t.chld);
    var left := Filter(IsNotDeep, t.chld);
    assert left == [] <==> forall c :: c in t.chld ==> !IsNotDeep(c) by {
      if left != [] { assert left[0] in left; }
    }
  }

  lemma {:induction false} StripAllKeeps(ts: seq<TreeNode>)
    ensures var left := Filter(IsNotDeep, ts);
            |StripAll(ts)| == |left| && forall i :: 0 <= i < |left| ==> StripAll(ts)[i] == Strip(left[i])
  {
    hide Strip, StripAll, Filter;
    StripFirst(ts);
    if ts != [] { StripAllKeeps(ts[1..]); }
  }

  lemma {:induction false} StripFirst(ts: seq<TreeNode>)
    ensures if ts == [] then StripAll(ts) == [] && Filter(IsNotDeep, ts) == []
            else if IsNotDeep(ts[0]) then
              && StripAll(ts) == [Strip(ts[0])] + StripAll(ts[1..]) && Filter(IsNotDeep, ts) == [ts[0]] + Filter(IsNotDeep, ts[1..])
            else
              StripAll(ts) == StripAll(ts[1..]) && Filter(IsNotDeep, ts) == Filter(IsNotDeep, ts[1..])
  {
    hide Strip;
    if ts != [] {
      var a, b := StripAll(ts[1..]), Filter(IsNotDeep, ts[1..]);
      assert [] + a == a && [] + b == b;
    }
  }

  /** A deep node becomes an ordinary one. */
  function Lift(t: TreeNode): TreeNode {
    Strip(t).(followType := FollowImmediate)
  }

  /** The names known after the nodes, given those known before. */
  function Known(ts: seq<TreeNode>, names: set<string>): (r: set<string>)
    ensures names <= r
    decreases ts, 1
  {
    if ts == [] then names
    else
      var c := ts[0];
      if c.followType == FollowDeep && c.name in names then Known(ts[1..], names)
      else Known(ts[1..], KnownIn(c, if c.followType == FollowDeep then names + {c.name} else names))
  }

  function KnownIn(c: TreeNode, names: set<string>): (r: set<string>)
    ensures names <= r
    decreases c, 0
  {
    Known(c.chld, names)
  }

  /** Below the root the deep children are gone; children of the root are kept if they are the first of their name. */
  function Remaining(ts: seq<TreeNode>, isTree: bool, names: set<string>): seq<TreeNode> {
    if ts == [] then []
    else
      var c := ts[0];
      if c.followType != FollowDeep then [Strip(c)] + Remaining(ts[1..], isTree, Known(c.chld, names))
      else if c.name in names then Remaining(ts[1..], isTree, names)
      else (if isTree then [Lift(c)] else []) + Remaining(ts[1..], isTree, Known(c.chld, names + {c.name}))
  }

  /** The nodes lifted: the first deep node of each name that is not a child of the root, innermost ones first. */
  function Lifted(ts: seq<TreeNode>, isTree: bool, names: set<string>): seq<TreeNode>
    decreases ts, 1
  {
    if ts == [] then []
    else
      var c := ts[0];
      if c.followType != FollowDeep then LiftedIn(c, names) + Lifted(ts[1..], isTree, Known(c.chld, names))
      else if c.name in names then Lifted(ts[1..], isTree, names)
      else LiftedIn(c, names + {c.name}) + (if isTree then [] else [Lift(c)])
           + Lifted(ts[1..], isTree, Known(c.chld, names + {c.name}))
  }

  function LiftedIn(c: TreeNode, names: set<string>): seq<TreeNode>
    decreases c, 0
  {
    Lifted(c.chld, false, names)
  }

  lemma {:induction false} RemainingBelow(ts: seq<TreeNode>, names: set<string>)
    ensures Remaining(ts, false, names) == StripAll(ts)
  {
    if ts != [] {
      var c := ts[0];
      var next := if c.followType != FollowDeep then Known(c.chld, names)
                  else if c.name in names then names else Known(c.chld, names + {c.name});
      RemainingBelow(ts[1..], next);
    }
  }

  /** If the references are not ambiguous, what stays in the tree has lost all deep nodes below the root, and the first
      deep node of every name is lifted. A deep node met again is lost with what is below it. */
  lemma {:induction false} DeclareResult(chld: seq<TreeNode>, isTree: bool, st: DeepState)
    requires Declare(chld, isTree, st).Some?
    ensures var (left, next) := Declare(chld, isTree, st).value;
            && left == Remaining(chld, isTree, st.items.Keys)
            && next.roots == st.roots + Lifted(chld, isTree, st.items.Keys)
            && next.items.Keys == Known(chld, st.items.Keys)
    decreases chld, 1
  {
    hide StripAll;
    if chld == [] {
      assert st.roots + [] == st.roots;
    } else {
      var c, rest, names := chld[0], chld[1..], st.items.Keys;
      if c.followType == FollowDeep && c.name in st.items {
        DeclareResult(rest, isTree, st);
      } else {
        var was := if c.followType == FollowDeep then st.(items := st.items[c.name := c.id]) else st;
        assert was.items.Keys == if c.followType == FollowDeep then names + {c.name} else names;
        DeclareInResult(c, was);
        var now := DeclareIn(c, was).value.1;
        var after := if c.followType == FollowDeep && !isTree then now.(roots := now.roots + [Lift(c)]) else now;
        DeclareResult(rest, isTree, after);
        var here := if c.followType == FollowDeep && !isTree then [Lift(c)] else [];
        var a, b, d := st.roots, LiftedIn(c, was.items.Keys), Lifted(rest, isTree, after.items.Keys);
        Associative(a, b, here);
        Associative(a, b + here, d);
      }
    }
  }

  lemma {:induction false} DeclareInResult(c: TreeNode, st: DeepState)
    requires DeclareIn(c, st).Some?
    ensures var (left, next) := DeclareIn(c, st).value;
            && WithChildren(c, left) == Strip(c)
            && next.roots == st.roots + LiftedIn(c, st.items.Keys)
            && next.items.Keys == KnownIn(c, st.items.Keys)
    decreases c, 0
  {
    DeclareResult(c.chld, false, st);
    RemainingBelow(c.chld, st.items.Keys);
  }

  // ---------------------------------------------------------------- no deep node is left

  predicate NoDeep(t: TreeNode)
    decreases t, 0
  {
    t.followType != FollowDeep && NoDeepAll(t.chld)
  }

  predicate NoDeepAll(ts: seq<TreeNode>)
    decreases ts, 1
  {
    ts == [] || (NoDeep(ts[0]) && NoDeepAll(ts[1..]))
  }

  lemma {:induction false} NoDeepConcat(a: seq<TreeNode>, b: seq<TreeNode>)
    ensures NoDeepAll(a + b) <==> NoDeepAll(a) && NoDeepAll(b)
  {
    if a == [] {
      assert a + b == b;
    } else {
      NoDeepConcat(a[1..], b);
      assert (a + b)[1..] == a[1..] + b;
    }
  }

  lemma {:induction false} StripHasNoDeep(t: TreeNode)
    ensures NoDeepAll(Strip(t).chld)
    ensures NoDeep(Lift(t)) && (t.followType != FollowDeep ==> NoDeep(Strip(t)))
    decreases t, 0
  {
    StripAllHasNoDeep(t.chld);
  }

  lemma {:induction false} StripAllHasNoDeep(ts: seq<TreeNode>)
    ensures NoDeepAll(StripAll(ts))
    decreases ts, 1
  {
    if ts != [] {
      StripHasNoDeep(ts[0]);
      StripAllHasNoDeep(ts[1..]);
      NoDeepConcat(if ts[0].followType == FollowDeep then [] else [Strip(ts[0])], StripAll(ts[1..]));
    }
  }

  lemma {:induction false} RemainingHasNoDeep(ts: seq<TreeNode>, isTree: bool, names: set<string>)
    ensures NoDeepAll(Remaining(ts, isTree, names))
  {
    if ts != [] {
      var c := ts[0];
      StripHasNoDeep(c);
      if c.followType != FollowDeep {
        RemainingHasNoDeep(ts[1..], isTree, Known(c.chld, names));
        NoDeepConcat([Strip(c)], Remaining(ts[1..], isTree, Known(c.chld, names)));
      } else if c.name in names {
        RemainingHasNoDeep(ts[1..], isTree, names);
      } else {
        RemainingHasNoDeep(ts[1..], isTree, Known(c.chld, names + {c.name}));
        NoDeepConcat(if isTree then [Lift(c)] else [], Remaining(ts[1..], isTree, Known(c.chld, names + {c.name})));
      }
    }
  }

  lemma {:induction false} LiftedHasNoDeep(ts: seq<TreeNode>, isTree: bool, names: set<string>)
    ensures NoDeepAll(Lifted(ts, isTree, names))
    decreases ts, 1
  {
    if ts != [] {
      var c := ts[0];
      if c.followType == FollowDeep && c.name in names {
        LiftedHasNoDeep(ts[1..], isTree, names);
      } else {
        var was := if c.followType == FollowDeep then names + {c.name} else names;
        var here := if c.followType == FollowDeep && !isTree then [Lift(c)] else [];
        LiftedInHasNoDeep(c, was);
        StripHasNoDeep(c);
        LiftedHasNoDeep(ts[1..], isTree, Known(c.chld, was));
        NoDeepConcat(LiftedIn(c, was), here);
        NoDeepConcat(LiftedIn(c, was) + here, Lifted(ts[1..], isTree, Known(c.chld, was)));
        assert LiftedIn(c, was) + [] == LiftedIn(c, was);
      }
    }
  }

  lemma {:induction false} LiftedInHasNoDeep(c: TreeNode, names: set<string>)
    ensures NoDeepAll(LiftedIn(c, names))
    decreases c, 0
  {
    LiftedHasNoDeep(c.chld, false, names);
  }
}
