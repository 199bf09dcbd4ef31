/** What lifting the deep nodes of a schema tree loses, and when it succeeds, told by the places of the nodes. */
module DeepNodes {
  import opened Scopes
  import opened Sequences
  import opened SchemaTree

  // ---------------------------------------------------------------- places

  /** The nodes in document order. */
  function NodesOf(t: TreeNode): seq<TreeNode>
    decreases t
  {
    [t] + NodesOfAll(t.chld)
  }

  function NodesOfAll(ts: seq<TreeNode>): seq<TreeNode>
    decreases ts
  {
    if ts == [] then [] else NodesOf(ts[0]) + NodesOfAll(ts[1..])
  }

  lemma {:induction false} NodesLength(t: TreeNode)
    ensures |NodesOf(t)| == Size(t)
    decreases t
  {
    NodesAllLength(t.chld);
  }

  lemma {:induction false} NodesAllLength(ts: seq<TreeNode>)
    ensures |NodesOfAll(ts)| == SizeAll(ts)
    decreases ts
  {
    if ts != [] {
      NodesLength(ts[0]);
      NodesAllLength(ts[1..]);
    }
  }

  /** The place behind a node and all nodes below it. */
  function End(v: seq<TreeNode>, i: nat): nat
    requires i < |v|
  {
    i + Size(v[i])
  }

  /** Node i is below node k. */
  predicate Below(v: seq<TreeNode>, i: nat, k: nat)
    requires i < |v|
  {
    k < i < End(v, k)
  }

  predicate IsDeep(v: seq<TreeNode>, i: nat)
    requires i < |v|
  {
    v[i].followType == FollowDeep
  }

  /** In a numbered tree the places are what the scopes say. */
  lemma {:induction false} PlacesAreScopes(ts: seq<TreeNode>, start: int, i: nat)
    requires i < SizeAll(ts)
    ensures |NodesOfAll(ScopedAll(ts, start))| == SizeAll(ts)
    ensures var v := NodesOfAll(ScopedAll(ts, start)); v[i].scope == Scope(start + i, start + End(v, i))
    decreases ts
  {
    var c, rest := Scoped(ts[0], start), ScopedAll(ts[1..], start + Size(ts[0]));
    assert ScopedAll(ts, start)[1..] == rest;
    ScopedSize(ts[0], start);
    ScopedAllSize(ts, start);
    NodesLength(c);
    NodesAllLength(ScopedAll(ts, start));
    if 0 < i < Size(ts[0]) {
      assert NodesOf(c)[i] == NodesOfAll(c.chld)[i - 1];
      PlacesAreScopes(ts[0].chld, start + 1, i - 1);
    } else if i >= Size(ts[0]) {
      PlacesAreScopes(ts[1..], start + Size(ts[0]), i - Size(ts[0]));
    }
  }

  lemma {:induction false} ScopedSize(t: TreeNode, start: int)
    ensures Size(Scoped(t, start)) == Size(t)
    decreases t
  {
    ScopedAllSize(t.chld, start + 1);
  }

  lemma {:induction false} ScopedAllSize(ts: seq<TreeNode>, start: int)
    ensures SizeAll(ScopedAll(ts, start)) == SizeAll(ts)
    decreases ts
  {
    if ts != [] {
      ScopedSize(ts[0], start);
      ScopedAllSize(ts[1..], start + Size(ts[0]));
      assert ScopedAll(ts, start)[1..] == ScopedAll(ts[1..], start + Size(ts[0]));
    }
  }

  // ---------------------------------------------------------------- what is met

  /** A node is met unless it is below a deep node that was met before under its name. */
  ghost predicate Met(v: seq<TreeNode>, i: nat)
    requires i < |v|
    decreases i, 0
  {
    forall k: nat :: k < i && Below(v, i, k) ==> !Again(v, k)
  }

  /** A deep node of a name that was met before. */
  ghost predicate Again(v: seq<TreeNode>, i: nat)
    requires i < |v|
    decreases i, 1
  {
    IsDeep(v, i) && Met(v, i) && exists k: nat :: k < i && IsDeep(v, k) && Met(v, k) && v[k].name == v[i].name
  }

  /** The first deep node met of its name. */
  ghost predicate First(v: seq<TreeNode>, i: nat)
    requires i < |v|
  {
    IsDeep(v, i) && Met(v, i) && !Again(v, i)
  }

  /** A child of the root. */
  ghost predicate Top(v: seq<TreeNode>, i: nat)
    requires i < |v|
  {
    forall k: nat :: k < i ==> !Below(v, i, k)
  }

  /** The first one of the name has the same id, and is neither a child of the root nor above. */
  ghost predicate Settled(v: seq<TreeNode>, j: nat)
    requires j < |v|
  {
    exists k: nat :: k < j && First(v, k) && v[k].name == v[j].name && v[k].id == v[j].id && !Top(v, k) && !Below(v, j, k)
  }

  lemma {:induction false} FirstExists(v: seq<TreeNode>, i: nat) returns (k: nat)
    requires i < |v| && IsDeep(v, i) && Met(v, i)
    ensures k <= i && First(v, k) && v[k].name == v[i].name
  {
    if Again(v, i) {
      var j: nat :| j < i && IsDeep(v, j) && Met(v, j) && v[j].name == v[i].name;
      k := FirstExists(v, j);
    } else {
      k := i;
    }
  }

  lemma {:induction false} FirstIsUnique(v: seq<TreeNode>, k: nat, l: nat)
    requires k < |v| && l < |v| && First(v, k) && First(v, l) && v[k].name == v[l].name
    ensures k == l
  {
  }

  // ---------------------------------------------------------------- the walk in document order

  /** The nodes of the list are those from place n on. */
  ghost predicate ListAt(v: seq<TreeNode>, ts: seq<TreeNode>, n: nat) {
    n + SizeAll(ts) <= |v| && v[n..n + SizeAll(ts)] == NodesOfAll(ts)
  }

  lemma {:induction false} ListSplits(v: seq<TreeNode>, ts: seq<TreeNode>, n: nat)
    requires ListAt(v, ts, n) && ts != []
    ensures n + SizeAll(ts) == n + Size(ts[0]) + SizeAll(ts[1..]) && v[n] == ts[0] && End(v, n) == n + Size(ts[0])
    ensures ListAt(v, ts[0].chld, n + 1) && ListAt(v, ts[1..], n + Size(ts[0]))
  {
    NodesLength(ts[0]);
    NodesAllLength(ts[0].chld);
    NodesAllLength(ts[1..]);
    PartOf(v, n, n + SizeAll(ts), NodesOf(ts[0]), NodesOfAll(ts[1..]));
    PartOf(v, n, n + Size(ts[0]), [ts[0]], NodesOfAll(ts[0].chld));
  }

  lemma {:induction false} PartOf<T>(v: seq<T>, n: nat, m: nat, a: seq<T>, b: seq<T>)
    requires n <= m <= |v| && v[n..m] == a + b
    ensures n + |a| <= m && v[n..n + |a|] == a && v[n + |a|..m] == b && (a != [] ==> v[n] == a[0])
  {
    var s := v[n..m];
    assert v[n..n + |a|] == s[..|a|] && v[n + |a|..m] == s[|a|..];
    assert a != [] ==> v[n] == s[0];
  }

  /** Nodes end within their list. */
  lemma {:induction false} EndsWithin(v: seq<TreeNode>, ts: seq<TreeNode>, n: nat, k: nat)
    requires ListAt(v, ts, n) && n <= k < n + SizeAll(ts)
    ensures End(v, k) <= n + SizeAll(ts)
    decreases ts
  {
    ListSplits(v, ts, n);
    if k >= End(v, n) {
      EndsWithin(v, ts[1..], End(v, n), k);
    } else if k > n {
      EndsWithin(v, ts[0].chld, n + 1, k);
    }
  }

  /** The nodes above place n and, as long as there are nodes up to m, none of those was met again. */
  ghost predicate Above(v: seq<TreeNode>, n: nat, m: nat, open: set<nat>)
    requires n <= m <= |v|
  {
    && (forall k :: k in open ==> k < n && m <= End(v, k) && !Again(v, k))
    && (forall k: nat :: k < n && k !in open ==> End(v, k) <= n)
  }

  lemma {:induction false} AboveHere(v: seq<TreeNode>, n: nat, m: nat, open: set<nat>)
    requires n < m <= |v| && Above(v, n, m, open)
    ensures forall k: nat :: k < n ==> (k in open <==> Below(v, n, k))
    ensures Met(v, n) && (Top(v, n) <==> open == {})
  {
    if open != {} {
      var k :| k in open;
      assert Below(v, n, k);
    }
  }

  lemma {:induction false} AboveChildren(v: seq<TreeNode>, ts: seq<TreeNode>, n: nat, open: set<nat>)
    requires ListAt(v, ts, n) && ts != [] && Above(v, n, n + SizeAll(ts), open) && !Again(v, n)
    ensures ListAt(v, ts[0].chld, n + 1) && Above(v, n + 1, n + 1 + SizeAll(ts[0].chld), open + {n})
  {
    ListSplits(v, ts, n);
  }

  lemma {:induction false} AboveRest(v: seq<TreeNode>, ts: seq<TreeNode>, n: nat, open: set<nat>)
    requires ListAt(v, ts, n) && ts != [] && Above(v, n, n + SizeAll(ts), open)
    ensures ListAt(v, ts[1..], n + Size(ts[0])) && Above(v, n + Size(ts[0]), n + SizeAll(ts), open)
  {
    ListSplits(v, ts, n);
    var e := n + Size(ts[0]);
    forall k: nat | k < e && k !in open ensures End(v, k) <= e {
      if n < k { EndsWithin(v, ts[0].chld, n + 1, k); }
    }
  }

  // ---------------------------------------------------------------- what is kept

  ghost predicate NamesAt(v: seq<TreeNode>, n: nat, names: set<string>)
    requires n <= |v|
  {
    forall s :: s in names <==> exists k: nat :: k < n && IsDeep(v, k) && Met(v, k) && v[k].name == s
  }

  /** What tells nodes apart; in a numbered tree the scope alone does. */
  datatype Label = Label(name: string, id: int, scope: Scope)

  function LabelOf(t: TreeNode): Label {
    Label(t.name, t.id, t.scope)
  }

  function LabelsOf(ts: seq<TreeNode>): multiset<Label>
    decreases ts
  {
    if ts == [] then multiset{} else multiset{LabelOf(ts[0])} + LabelsOf(ts[0].chld) + LabelsOf(ts[1..])
  }

  lemma {:induction false} LabelsConcat(a: seq<TreeNode>, b: seq<TreeNode>)
    ensures LabelsOf(a + b) == LabelsOf(a) + LabelsOf(b)
  {
    if a == [] {
      assert a + b == b;
    } else {
      LabelsConcat(a[1..], b);
      TailOfConcat(a, b);
    }
  }

  lemma {:induction false} LabelsCount(ts: seq<TreeNode>)
    ensures |LabelsOf(ts)| == SizeAll(ts)
    decreases ts
  {
    if ts != [] {
      LabelsCount(ts[0].chld);
      LabelsCount(ts[1..]);
    }
  }

  ghost predicate IsKept(v: seq<TreeNode>, i: nat)
    requires i < |v|
  {
    Met(v, i) && !Again(v, i)
  }

  /** The nodes from place n up to m that are met and not met again. */
  ghost function Kept(v: seq<TreeNode>, n: nat, m: nat): multiset<Label>
    requires n <= m <= |v|
    decreases m - n
  {
    if n == m then multiset{} else (if IsKept(v, n) then multiset{LabelOf(v[n])} else multiset{}) + Kept(v, n + 1, m)
  }

  lemma {:induction false} KeptSplits(v: seq<TreeNode>, n: nat, e: nat, m: nat)
    requires n <= e <= m <= |v|
    ensures Kept(v, n, m) == Kept(v, n, e) + Kept(v, e, m)
    decreases e - n
  {
    if n < e { KeptSplits(v, n + 1, e, m); }
  }

  lemma {:induction false} KeptOne(v: seq<TreeNode>, n: nat, e: nat)
    requires n < e <= |v| && Met(v, n) && !Again(v, n)
    ensures Kept(v, n, e) == multiset{LabelOf(v[n])} + Kept(v, n + 1, e)
  {
  }

  /** What is left in the tree and what is lifted. */
  function LabelsLeft(ts: seq<TreeNode>, isTree: bool, names: set<string>): multiset<Label> {
    LabelsOf(Remaining(ts, isTree, names)) + LabelsOf(Lifted(ts, isTree, names))
  }

  lemma {:induction false} NothingKept(v: seq<TreeNode>, isTree: bool, n: nat, names: set<string>)
    requires n <= |v|
    ensures SizeAll([]) == 0 && LabelsLeft([], isTree, names) == Kept(v, n, n) == multiset{}
  {
  }

  lemma {:induction false} KeptNone(v: seq<TreeNode>, n: nat, m: nat)
    requires n <= m <= |v| && forall i :: n <= i < m ==> !IsKept(v, i)
    ensures Kept(v, n, m) == multiset{}
    decreases m - n
  {
    if n < m { KeptNone(v, n + 1, m); }
  }

  lemma {:induction false} KeptCount(v: seq<TreeNode>, n: nat, m: nat)
    requires n <= m <= |v|
    ensures |Kept(v, n, m)| <= m - n
    ensures |Kept(v, n, m)| == m - n <==> forall i :: n <= i < m ==> IsKept(v, i)
    decreases m - n
  {
    if n < m {
      KeptCount(v, n + 1, m);
      assert (forall i :: n <= i < m ==> IsKept(v, i)) <==> IsKept(v, n) && forall i :: n + 1 <= i < m ==> IsKept(v, i);
    }
  }

  /** The names known behind a node that is not met again. */
  function NamesWith(c: TreeNode, names: set<string>): set<string> {
    if c.followType == FollowDeep then names + {c.name} else names
  }

  lemma {:induction false} NamesBehind(v: seq<TreeNode>, n: nat, names: set<string>)
    requires n < |v| && NamesAt(v, n, names) && Met(v, n)
    ensures Again(v, n) <==> IsDeep(v, n) && v[n].name in names
    ensures NamesAt(v, n + 1, NamesWith(v[n], names))
  {
    var next := NamesWith(v[n], names);
    forall s ensures s in next <==> exists k: nat :: k < n + 1 && IsDeep(v, k) && Met(v, k) && v[k].name == s {
      if s in names {
        var k: nat :| k < n && IsDeep(v, k) && Met(v, k) && v[k].name == s;
        assert k < n + 1;
      }
    }
  }

  /** Nothing below a deep node met again is met. */
  lemma {:induction false} NotMetBelow(v: seq<TreeNode>, n: nat, names: set<string>)
    requires n < |v| && Again(v, n) && NamesAt(v, n, names) && End(v, n) <= |v|
    ensures NamesAt(v, End(v, n), names)
    ensures forall i :: n < i < End(v, n) ==> !Met(v, i)
    ensures forall i :: n <= i < End(v, n) ==> !IsKept(v, i)
  {
    forall i: nat | n < i < End(v, n) ensures !Met(v, i) { assert Below(v, i, n); }
    forall s ensures s in names <==> exists k: nat :: k < End(v, n) && IsDeep(v, k) && Met(v, k) && v[k].name == s {
      if exists k: nat :: k < End(v, n) && IsDeep(v, k) && Met(v, k) && v[k].name == s {
        var k: nat :| k < End(v, n) && IsDeep(v, k) && Met(v, k) && v[k].name == s;
        if k == n { assert s in names; }
      }
    }
  }

  /** The names known after the nodes are those of the deep nodes met. */
  lemma {:induction false} KnownAt(v: seq<TreeNode>, ts: seq<TreeNode>, n: nat, open: set<nat>, names: set<string>)
    requires ListAt(v, ts, n) && Above(v, n, n + SizeAll(ts), open) && NamesAt(v, n, names)
    ensures NamesAt(v, n + SizeAll(ts), Known(ts, names))
    decreases ts
  {
    hide ListAt, Above, NamesAt, Met, Again;
    if ts != [] {
      ListSplits(v, ts, n);
      AboveHere(v, n, n + SizeAll(ts), open);
      AboveRest(v, ts, n, open);
      NamesBehind(v, n, names);
      var c := ts[0];
      if Again(v, n) {
        NotMetBelow(v, n, names);
        KnownAt(v, ts[1..], n + Size(c), open, names);
      } else {
        var was := NamesWith(c, names);
        AboveChildren(v, ts, n, open);
        KnownAt(v, c.chld, n + 1, open + {n}, was);
        KnownAt(v, ts[1..], n + Size(c), open, Known(c.chld, was));
      }
    }
  }

  /** A deep node met again leaves nothing. */
  lemma {:induction false} KeptAgain(ts: seq<TreeNode>, isTree: bool, names: set<string>)
    requires ts != [] && ts[0].followType == FollowDeep && ts[0].name in names
    ensures LabelsLeft(ts, isTree, names) == LabelsLeft(ts[1..], isTree, names)
  {
  }

  /** Exactly the nodes met, but for the deep ones met again, come out, each once. */
  lemma {:induction false} KeptAt(v: seq<TreeNode>, ts: seq<TreeNode>, isTree: bool, n: nat, open: set<nat>, names: set<string>)
    requires n + SizeAll(ts) <= |v| && ListAt(v, ts, n) && Above(v, n, n + SizeAll(ts), open) && NamesAt(v, n, names)
    ensures LabelsLeft(ts, isTree, names) == Kept(v, n, n + SizeAll(ts))
    decreases ts
  {
    hide ListAt, Above, NamesAt, Met, Again, IsKept, Kept, LabelsLeft, LabelOf, Known, NamesWith, Top, Below, NodesOf, NodesOfAll;
    if ts == [] {
      NothingKept(v, isTree, n, names);
    } else {
      var c, e := ts[0], n + Size(ts[0]);
      ListSplits(v, ts, n);
      AboveHere(v, n, n + SizeAll(ts), open);
      AboveRest(v, ts, n, open);
      NamesBehind(v, n, names);
      KeptSplits(v, n, e, n + SizeAll(ts));
      if Again(v, n) {
        NotMetBelow(v, n, names);
        KeptNone(v, n, e);
        KeptAgain(ts, isTree, names);
        KeptAt(v, ts[1..], isTree, e, open, names);
      } else {
        var was := NamesWith(c, names);
        AboveChildren(v, ts, n, open);
        KnownAt(v, c.chld, n + 1, open + {n}, was);
        KeptAt(v, ts[1..], isTree, e, open, Known(c.chld, was));
        KeptAt(v, c.chld, false, n + 1, open + {n}, was);
        KeptFirst(ts, isTree, names);
        KeptOne(v, n, e);
      }
    }
  }

  /** The node as it stays in the tree or is lifted. */
  function Outcome(c: TreeNode): TreeNode {
    if c.followType == FollowDeep then Lift(c) else Strip(c)
  }

  lemma {:induction false} OutcomeLabels(c: TreeNode)
    ensures LabelsOf([Outcome(c)]) == multiset{LabelOf(c)} + LabelsOf(StripAll(c.chld))
  {
    assert LabelsOf([Outcome(c)][1..]) == multiset{};
  }

  /** The first node stays where it is unless it is lifted. */
  predicate Stays(c: TreeNode, isTree: bool) {
    isTree || c.followType != FollowDeep
  }

  lemma {:induction false} FirstSplits(ts: seq<TreeNode>, isTree: bool, names: set<string>)
    requires ts != [] && (ts[0].followType == FollowDeep ==> ts[0].name !in names)
    ensures var c, rest, was := ts[0], ts[1..], NamesWith(ts[0], names);
            var after, stays := Known(c.chld, was), Stays(c, isTree);
            && Remaining(ts, isTree, names) == (if stays then [Outcome(c)] else []) + Remaining(rest, isTree, after)
            && Lifted(ts, isTree, names) == LiftedIn(c, was) + (if stays then [] else [Outcome(c)]) + Lifted(rest, isTree, after)
  {
    hide Known, Strip, Lift, LiftedIn;
    var below := LiftedIn(ts[0], NamesWith(ts[0], names));
    assert below + [] == below;
  }

  lemma {:induction false} PartLabels(one: seq<TreeNode>, stays: bool, left: seq<TreeNode>, below: seq<TreeNode>, more: seq<TreeNode>)
    ensures LabelsOf((if stays then one else []) + left) + LabelsOf(below + (if stays then [] else one) + more)
         == LabelsOf(one) + LabelsOf(left) + LabelsOf(below) + LabelsOf(more)
  {
    LabelsConcat(if stays then one else [], left);
    LabelsConcat(below, if stays then [] else one);
    LabelsConcat(below + if stays then [] else one, more);
  }

  /** What becomes of the first node of a list and of those below it. */
  lemma {:induction false} KeptFirst(ts: seq<TreeNode>, isTree: bool, names: set<string>)
    requires ts != [] && (ts[0].followType == FollowDeep ==> ts[0].name !in names)
    ensures var c, rest, was := ts[0], ts[1..], NamesWith(ts[0], names);
            var after := Known(c.chld, was);
            LabelsLeft(ts, isTree, names)
            == multiset{LabelOf(c)} + LabelsLeft(c.chld, false, was) + LabelsLeft(rest, isTree, after)
  {
    hide Known, KnownIn, Strip, Lift, StripAll, LabelsOf, Remaining, Lifted, Outcome, NamesWith, Stays;
    var c, rest, was := ts[0], ts[1..], NamesWith(ts[0], names);
    var after := Known(c.chld, was);
    FirstSplits(ts, isTree, names);
    PartLabels([Outcome(c)], Stays(c, isTree), Remaining(rest, isTree, after), LiftedIn(c, was), Lifted(rest, isTree, after));
    OutcomeLabels(c);
    RemainingBelow(c.chld, was);
  }

  /** No two deep nodes have the same name. */
  ghost predicate DeepNamesDiffer(v: seq<TreeNode>) {
    forall i, j :: 0 <= i < j < |v| && IsDeep(v, i) && IsDeep(v, j) ==> v[i].name != v[j].name
  }

  lemma {:induction false} AllKept(v: seq<TreeNode>)
    ensures DeepNamesDiffer(v) <==> forall i :: 0 <= i < |v| ==> IsKept(v, i)
  {
    if DeepNamesDiffer(v) {
      forall i | 0 <= i < |v| ensures IsKept(v, i) {
        assert forall k: nat :: k <= i ==> !Again(v, k);
      }
    }
    if forall i :: 0 <= i < |v| ==> IsKept(v, i) {
      forall i, j | 0 <= i < j < |v| && IsDeep(v, i) && IsDeep(v, j) ensures v[i].name != v[j].name {
        assert IsKept(v, i) && IsKept(v, j);
      }
    }
  }

  lemma {:induction false} WholeList(ts: seq<TreeNode>)
    ensures ListAt(NodesOfAll(ts), ts, 0) && SizeAll(ts) == |NodesOfAll(ts)| && Above(NodesOfAll(ts), 0, SizeAll(ts), {})
    ensures NamesAt(NodesOfAll(ts), 0, {})
  {
    NodesAllLength(ts);
  }

  /** Lifting keeps exactly the nodes met, but for the deep ones met again: those are lost with all nodes below them. */
  lemma {:induction false} LiftingKeeps(ts: seq<TreeNode>, isTree: bool)
    ensures |NodesOfAll(ts)| == SizeAll(ts)
    ensures LabelsLeft(ts, isTree, {}) == Kept(NodesOfAll(ts), 0, SizeAll(ts))
  {
    hide ListAt, Above, NamesAt;
    WholeList(ts);
    KeptAt(NodesOfAll(ts), ts, isTree, 0, {}, {});
  }

  /** Nothing is lost exactly if no two deep nodes have the same name. */
  lemma {:induction false} NothingIsLost(ts: seq<TreeNode>, isTree: bool)
    ensures SizeAll(Remaining(ts, isTree, {})) + SizeAll(Lifted(ts, isTree, {})) <= SizeAll(ts)
    ensures SizeAll(Remaining(ts, isTree, {})) + SizeAll(Lifted(ts, isTree, {})) == SizeAll(ts)
            <==> DeepNamesDiffer(NodesOfAll(ts))
  {
    LiftingKeeps(ts, isTree);
    LabelsCount(Remaining(ts, isTree, {}));
    LabelsCount(Lifted(ts, isTree, {}));
    KeptCount(NodesOfAll(ts), 0, SizeAll(ts));
    AllKept(NodesOfAll(ts));
  }

  // ---------------------------------------------------------------- when it succeeds

  /** The state at place n: the ids of the first deep nodes met, and roots for those finished that are not children
      of the root. */
  ghost predicate StateAt(v: seq<TreeNode>, n: nat, open: set<nat>, st: DeepState)
    requires n <= |v|
  {
    && NamesAt(v, n, st.items.Keys)
    && (forall k: nat :: k < n && First(v, k) ==> v[k].name in st.items && st.items[v[k].name] == v[k].id)
    && (forall s :: HasRoot(st.roots, s) <==> exists k: nat :: k < n && k !in open && First(v, k) && !Top(v, k) && v[k].name == s)
  }

  ghost predicate AllSettled(v: seq<TreeNode>, n: nat, m: nat)
    requires n <= m <= |v|
  {
    forall j :: n <= j < m && Again(v, j) ==> Settled(v, j)
  }

  /** The test for a deep node met again. */
  lemma {:induction false} SettledHere(v: seq<TreeNode>, n: nat, m: nat, open: set<nat>, st: DeepState)
    requires n < m <= |v| && Above(v, n, m, open) && StateAt(v, n, open, st) && Again(v, n)
    ensures v[n].name in st.items
    ensures Settled(v, n) <==> st.items[v[n].name] == v[n].id && HasRoot(st.roots, v[n].name)
  {
    AboveHere(v, n, m, open);
    NamesBehind(v, n, st.items.Keys);
    if HasRoot(st.roots, v[n].name) {
      var k: nat :| k < n && k !in open && First(v, k) && !Top(v, k) && v[k].name == v[n].name;
      assert !Below(v, n, k);
    }
    if Settled(v, n) {
      var k: nat :| k < n && First(v, k) && v[k].name == v[n].name && v[k].id == v[n].id && !Top(v, k) && !Below(v, n, k);
      assert k !in open;
      assert HasRoot(st.roots, v[n].name);
    }
  }

  /** After a deep node met again the state is as before. */
  lemma {:induction false} StateAfterAgain(v: seq<TreeNode>, n: nat, open: set<nat>, st: DeepState)
    requires n < |v| && End(v, n) <= |v| && StateAt(v, n, open, st) && Again(v, n)
    ensures StateAt(v, End(v, n), open, st)
  {
    hide NamesAt, Met, Again, Top;
    NotMetBelow(v, n, st.items.Keys);
    forall s ensures HasRoot(st.roots, s) <==> exists k: nat :: k < End(v, n) && k !in open && First(v, k) && !Top(v, k) && v[k].name == s {
      if HasRoot(st.roots, s) {
        var k: nat :| k < n && k !in open && First(v, k) && !Top(v, k) && v[k].name == s;
        assert k < End(v, n);
      }
    }
  }

  /** The state for what is below a node. */
  function Inside(c: TreeNode, st: DeepState): DeepState {
    if c.followType == FollowDeep then st.(items := st.items[c.name := c.id]) else st
  }

  /** The state behind a node, given that after what is below it. */
  function Behind(c: TreeNode, isTree: bool, left: seq<TreeNode>, st: DeepState): DeepState {
    if c.followType == FollowDeep && !isTree then st.(roots := st.roots + [WithChildren(c, left).(followType := FollowImmediate)])
    else st
  }

  /** Entering a node. */
  lemma {:induction false} StateInside(v: seq<TreeNode>, n: nat, open: set<nat>, st: DeepState)
    requires n < |v| && StateAt(v, n, open, st) && Met(v, n) && !Again(v, n)
    ensures StateAt(v, n + 1, open + {n}, Inside(v[n], st))
  {
    hide Met, Again, Top, NamesAt;
    var next := Inside(v[n], st);
    NamesBehind(v, n, st.items.Keys);
    assert next.items.Keys == NamesWith(v[n], st.items.Keys);
    ItemsInside(v, n, open, st);
    forall s ensures HasRoot(next.roots, s) <==> exists k: nat :: k < n + 1 && k !in open + {n} && First(v, k) && !Top(v, k) && v[k].name == s {
      if HasRoot(st.roots, s) {
        var k: nat :| k < n && k !in open && First(v, k) && !Top(v, k) && v[k].name == s;
        assert k < n + 1 && k !in open + {n};
      }
    }
  }

  lemma {:induction false} ItemsInside(v: seq<TreeNode>, n: nat, open: set<nat>, st: DeepState)
    requires n < |v| && StateAt(v, n, open, st) && Met(v, n) && !Again(v, n)
    ensures forall k: nat :: k < n + 1 && First(v, k) ==>
              v[k].name in Inside(v[n], st).items && Inside(v[n], st).items[v[k].name] == v[k].id
  {
    hide Met, Again, Top, NamesAt, HasRoot;
    forall k: nat | k < n + 1 && First(v, k)
      ensures v[k].name in Inside(v[n], st).items && Inside(v[n], st).items[v[k].name] == v[k].id
    {
      if k < n && IsDeep(v, n) && v[k].name == v[n].name { FirstIsUnique(v, k, n); }
    }
  }

  lemma {:induction false} RootAdded(roots: seq<TreeNode>, t: TreeNode, s: string)
    ensures HasRoot(roots + [t], s) <==> HasRoot(roots, s) || s == t.name
  {
    var r := roots + [t];
    if i: nat :| i < |roots| && roots[i].name == s { assert r[i].name == s; }
    assert r[|roots|] == t;
  }

  /** Leaving a node: a first deep one that is not a child of the root becomes a root. */
  lemma {:induction false} StateBehind(v: seq<TreeNode>, n: nat, e: nat, open: set<nat>, st: DeepState, t: TreeNode)
    requires n < e <= |v| && StateAt(v, e, open + {n}, st) && n !in open && t.name == v[n].name && Met(v, n) && !Again(v, n)
    ensures StateAt(v, e, open, if IsDeep(v, n) && !Top(v, n) then st.(roots := st.roots + [t]) else st)
  {
    var next := if IsDeep(v, n) && !Top(v, n) then st.(roots := st.roots + [t]) else st;
    forall s ensures HasRoot(next.roots, s) <==> exists k: nat :: k < e && k !in open && First(v, k) && !Top(v, k) && v[k].name == s {
      RootAdded(st.roots, t, s);
      if HasRoot(st.roots, s) {
        var k: nat :| k < e && k !in open + {n} && First(v, k) && !Top(v, k) && v[k].name == s;
        assert k !in open;
      }
      if k: nat :| k < e && k !in open && First(v, k) && !Top(v, k) && v[k].name == s {
        if k != n { assert k !in open + {n}; }
      }
    }
  }

  lemma {:induction false} NoneSettled(v: seq<TreeNode>, n: nat, m: nat)
    requires n <= m <= |v| && forall i :: n <= i < m ==> !Met(v, i)
    ensures AllSettled(v, n, m)
  {
  }

  lemma {:induction false} SettledSplits(v: seq<TreeNode>, n: nat, e: nat, m: nat)
    requires n < e <= m <= |v|
    ensures AllSettled(v, n, m) <==> (Again(v, n) ==> Settled(v, n)) && AllSettled(v, n + 1, e) && AllSettled(v, e, m)
  {
  }

  /** A node that is not met again. */
  lemma {:induction false} DeclareFirst(ts: seq<TreeNode>, isTree: bool, st: DeepState)
    requires ts != [] && (ts[0].followType == FollowDeep ==> ts[0].name !in st.items)
    ensures var inner := DeclareIn(ts[0], Inside(ts[0], st));
            if inner.None? then Declare(ts, isTree, st).None?
            else var more := Declare(ts[1..], isTree, Behind(ts[0], isTree, inner.value.0, inner.value.1));
                 (Declare(ts, isTree, st).Some? <==> more.Some?)
                 && (more.Some? ==> Declare(ts, isTree, st).value.1 == more.value.1)
  {
  }

  lemma {:induction false} NothingDeclared(v: seq<TreeNode>, isTree: bool, n: nat, st: DeepState)
    requires n <= |v|
    ensures Declare([], isTree, st) == Some(([], st)) && AllSettled(v, n, n)
  {
  }

  /** A node that is met again. */
  lemma {:induction false} DeclareAgain(ts: seq<TreeNode>, isTree: bool, st: DeepState)
    requires ts != [] && ts[0].followType == FollowDeep && ts[0].name in st.items
    ensures Declare(ts, isTree, st) ==
            if st.items[ts[0].name] == ts[0].id && HasRoot(st.roots, ts[0].name) then Declare(ts[1..], isTree, st) else None
  {
  }

  /** The walk goes on exactly as long as every deep node met again is settled. */
  lemma {:induction false} DeclareAt(v: seq<TreeNode>, ts: seq<TreeNode>, n: nat, open: set<nat>, st: DeepState)
    requires n + SizeAll(ts) <= |v| && ListAt(v, ts, n) && Above(v, n, n + SizeAll(ts), open) && StateAt(v, n, open, st)
    ensures Declare(ts, open == {}, st).Some? <==> AllSettled(v, n, n + SizeAll(ts))
    ensures Declare(ts, open == {}, st).Some? ==> StateAt(v, n + SizeAll(ts), open, Declare(ts, open == {}, st).value.1)
    decreases ts, 1
  {
    hide ListAt, Above, NamesAt, StateAt, AllSettled, Met, Again, Settled, Top, Declare, HasRoot;
    if ts == [] {
      NothingDeclared(v, open == {}, n, st);
    } else {
      var e, m := n + Size(ts[0]), n + SizeAll(ts);
      ListSplits(v, ts, n);
      AboveHere(v, n, m, open);
      AboveRest(v, ts, n, open);
      StateNames(v, n, open, st);
      NamesBehind(v, n, st.items.Keys);
      SettledSplits(v, n, e, m);
      if Again(v, n) {
        SettledHere(v, n, m, open, st);
        DeclareAgain(ts, open == {}, st);
        NotMetBelow(v, n, st.items.Keys);
        NoneSettled(v, n + 1, e);
        if Settled(v, n) {
          StateAfterAgain(v, n, open, st);
          DeclareAt(v, ts[1..], e, open, st);
        }
      } else {
        DeclareFirst(ts, open == {}, st);
        DeclareInside(v, ts, n, open, st);
        if DeclareIn(ts[0], Inside(ts[0], st)).Some? {
          var (left, now) := DeclareIn(ts[0], Inside(ts[0], st)).value;
          DeclareAt(v, ts[1..], e, open, Behind(ts[0], open == {}, left, now));
        }
      }
    }
  }

  lemma {:induction false} StateNames(v: seq<TreeNode>, n: nat, open: set<nat>, st: DeepState)
    requires n <= |v| && StateAt(v, n, open, st)
    ensures NamesAt(v, n, st.items.Keys)
  {
  }

  /** The walk over what is below a node that is not met again. */
  lemma {:induction false} DeclareInside(v: seq<TreeNode>, ts: seq<TreeNode>, n: nat, open: set<nat>, st: DeepState)
    requires ListAt(v, ts, n) && Above(v, n, n + SizeAll(ts), open) && StateAt(v, n, open, st)
    requires ts != [] && n + Size(ts[0]) <= |v| && v[n] == ts[0] && Met(v, n) && !Again(v, n) && (Top(v, n) <==> open == {})
    ensures var inner := DeclareIn(ts[0], Inside(ts[0], st));
            && (inner.Some? <==> AllSettled(v, n + 1, n + Size(ts[0])))
            && (inner.Some? ==> StateAt(v, n + Size(ts[0]), open, Behind(ts[0], open == {}, inner.value.0, inner.value.1)))
    decreases ts, 0
  {
    hide ListAt, NamesAt, StateAt, AllSettled, Met, Again, Settled, Top;
    var c, e := ts[0], n + Size(ts[0]);
    assert n !in open;
    hide Above;
    ListSplits(v, ts, n);
    AboveChildren(v, ts, n, open);
    StateInside(v, n, open, st);
    assert open + {n} != {};
    assert ts decreases to c;
    DeclareAt(v, c.chld, n + 1, open + {n}, Inside(c, st));
    if DeclareIn(c, Inside(c, st)).Some? {
      var (left, now) := DeclareIn(c, Inside(c, st)).value;
      StateBehind(v, n, e, open, now, WithChildren(c, left).(followType := FollowImmediate));
    }
  }

  /** The references are not ambiguous exactly if every deep node met again has the id of the first one of its name,
      and that one is neither a child of the root nor above it. */
  lemma {:induction false} NotAmbiguousIff(ts: seq<TreeNode>)
    ensures Declare(ts, true, DeepState(map[], [])).Some? <==>
              forall j :: 0 <= j < |NodesOfAll(ts)| && Again(NodesOfAll(ts), j) ==> Settled(NodesOfAll(ts), j)
  {
    var none: map<string, int> := map[];
    assert none.Keys == {};
    WholeList(ts);
    DeclareAt(NodesOfAll(ts), ts, 0, {}, DeepState(none, []));
  }

  // ---------------------------------------------------------------- inputs

  function Plain(name: string, chld: seq<TreeNode>): TreeNode {
    TreeNode(name, -1, StructType, FollowImmediate, Scope(0, 0), chld)
  }

  function Deep(name: string, id: int, chld: seq<TreeNode>): TreeNode {
    TreeNode(name, id, StructType, FollowDeep, Scope(0, 0), chld)
  }

  function ValueNamed(name: string): TreeNode {
    TreeNode(name, 0, ValueType, FollowImmediate, Scope(0, 0), [])
  }

  /** The check of the finished tree. */
  predicate Checked(t: TreeNode) {
    && t.elementType != NullType && t.followType == FollowImmediate && (t.elementType == ValueType ==> t.chld == [])
    && forall i :: 0 <= i < |t.chld| ==> Checked(t.chld[i])
  }

  /** The first deep node a is lifted, the second one is dropped. */
  lemma {:induction false} DeepTwice(x: TreeNode, y: TreeNode)
    requires x.followType != FollowDeep && x.chld == []
    ensures var done := DeepState(map["a" := -1], [Plain("a", [x])]);
            && Declare([Deep("a", -1, [x])], false, DeepState(map[], [])) == Some(([], done))
            && Declare([Deep("a", -1, [y])], false, done) == Some(([], done))
  {
    var ax, ay := Deep("a", -1, [x]), Deep("a", -1, [y]);
    var none, met, done := DeepState(map[], []), DeepState(map["a" := -1], []), DeepState(map["a" := -1], [Plain("a", [x])]);
    DeclareEmpty(x, met);
    DeclarePlain(x, [], false, met);
    assert [x] + [] == [x] && none.(items := none.items["a" := -1]) == met && DeclareIn(ax, met) == Some(([x], met));
    DeclareOne(ax, none, [x], met);
    assert [] + done.roots == done.roots;
    assert HasRoot(done.roots, "a") by { assert done.roots[0].name == "a"; }
    DeclareAgain([ay], false, done);
    assert [ay][1..] == [];
  }

  /** Of two deep nodes of one name and id the second is dropped with what is declared below it, and the check of the
      tree does not notice: of /b/u, /b//a/x, /c/w and /c//a/y nothing is left of y. */
  lemma {:induction false} SecondDeepNodeIsLost()
    ensures var ax, ay := Deep("a", -1, [ValueNamed("x")]), Deep("a", -1, [ValueNamed("y")]);
            var left, lifted := [Plain("b", [ValueNamed("u")]), Plain("c", [ValueNamed("w")])], [Plain("a", [ValueNamed("x")])];
            && Declare([Plain("b", [ValueNamed("u"), ax]), Plain("c", [ValueNamed("w"), ay])], true, DeepState(map[], []))
               == Some((left, DeepState(map["a" := -1], lifted)))
            && Checked(Plain("", left + lifted))
  {
    var x, y, u, w := ValueNamed("x"), ValueNamed("y"), ValueNamed("u"), ValueNamed("w");
    var b, c := Plain("b", [u, Deep("a", -1, [x])]), Plain("c", [w, Deep("a", -1, [y])]);
    var wb, wc, a := Plain("b", [u]), Plain("c", [w]), Plain("a", [x]);
    var none, done := DeepState(map[], []), DeepState(map["a" := -1], [a]);
    assert [wb, wc] + [a] == [wb, wc, a] && Checked(x) && Checked(u) && Checked(w) && Checked(wb) && Checked(wc) && Checked(a);
    hide Declare, HasRoot, Checked;
    DeepTwice(x, y);
    BehindValue(u, Deep("a", -1, [x]), none, done);
    BehindValue(w, Deep("a", -1, [y]), done, done);
    DeclarePlain(b, [c], true, none);
    DeclarePlain(c, [], true, done);
    DeclareNone(true, done);
    assert [b] + [c] == [b, c] && [c] + [] == [c] && [wc] + [] == [wc] && [wb] + [wc] == [wb, wc];
    assert WithChildren(b, [u]) == wb && WithChildren(c, [w]) == wc;
  }

  lemma {:induction false} DeclareNone(isTree: bool, st: DeepState)
    ensures Declare([], isTree, st) == Some(([], st))
  {
  }

  /** A value in front of a deep node stays. */
  lemma {:induction false} BehindValue(u: TreeNode, a: TreeNode, st: DeepState, now: DeepState)
    requires u.followType != FollowDeep && u.chld == [] && Declare([a], false, st) == Some(([], now))
    ensures Declare([u, a], false, st) == Some(([u], now))
  {
    DeclareEmpty(u, st);
    DeclarePlain(u, [a], false, st);
    assert [u] + [a] == [u, a] && [u] + [] == [u];
  }

  lemma {:induction false} DeclareEmpty(t: TreeNode, st: DeepState)
    requires t.chld == []
    ensures DeclareIn(t, st) == Some(([], st)) && WithChildren(t, []) == t
  {
  }

  lemma {:induction false} DeclarePlain(c: TreeNode, rest: seq<TreeNode>, isTree: bool, st: DeepState)
    requires c.followType != FollowDeep
    ensures Declare([c] + rest, isTree, st) ==
            if DeclareIn(c, st).None? then None
            else Prefixed([WithChildren(c, DeclareIn(c, st).value.0)], Declare(rest, isTree, DeclareIn(c, st).value.1))
  {
    assert ([c] + rest)[1..] == rest;
  }

  /** A single deep node that is the first of its name. */
  lemma {:induction false} DeclareOne(c: TreeNode, st: DeepState, left: seq<TreeNode>, now: DeepState)
    requires c.followType == FollowDeep && c.name !in st.items && DeclareIn(c, st.(items := st.items[c.name := c.id])) == Some((left, now))
    ensures Declare([c], false, st)
            == Some(([], now.(roots := now.roots + [WithChildren(c, left).(followType := FollowImmediate)])))
  {
    assert [c][1..] == [];
  }

  /** A deep node met again is ambiguous below a child of the root of its name, even with the same id, and also below a
      deep node of its name. */
  lemma {:induction false} RepeatedDeepNode(id: int)
    ensures Declare([Deep("a", id, []), Plain("b", [Deep("a", id, [])])], true, DeepState(map[], [])) == None
    ensures Declare([Plain("b", [Deep("a", id, [Deep("a", id, [])])])], true, DeepState(map[], [])) == None
  {
    var a := Deep("a", id, []);
    var st := DeepState(map["a" := id], []);
    assert !HasRoot(st.roots, "a");
    assert Declare([a], false, st) == None;
    assert DeclareIn(a, st) == Some(([], st));
    var b := Plain("b", [a]);
    assert DeclareIn(b, st) == None;
    assert [a, b][1..] == [b];
    assert Declare([b], true, st) == None;
    var aa := Deep("a", id, [a]);
    assert DeclareIn(aa, st) == None;
    assert Declare([aa], false, DeepState(map[], [])) == None;
    assert DeclareIn(Plain("b", [aa]), DeepState(map[], [])) == None;
  }

  // ---------------------------------------------------------------- the whole tree

  /** Numbers the nodes and lifts the deep ones to the root. */
  method LiftDeepNodes(tree: TreeNode) returns (ok: bool, res: TreeNode)
    ensures var v := NodesOfAll(Scoped(tree, 0).chld);
            && (ok <==> forall j :: 0 <= j < |v| && Again(v, j) ==> Settled(v, j))
            && (ok ==> LabelsOf(res.chld) == Kept(v, 0, |v|))
    ensures ok ==> res.chld == Remaining(Scoped(tree, 0).chld, true, {}) + Lifted(Scoped(tree, 0).chld, true, {})
    ensures ok ==> NoDeep(res)
  {
    var root, next := AssignScope(tree.(elementType := StructType, followType := FollowImmediate), 0);
    var st := DeepState(map[], []);
    assert root.chld == Scoped(tree, 0).chld;
    ok, res, st := DeclareDeepNodesAsGlobals(root, true, st);
    NotAmbiguousIff(root.chld);
    if !ok { return; }
    DeclareResult(root.chld, true, DeepState(map[], []));
    var none: map<string, int> := map[];
    assert none.Keys == {} && [] + Lifted(root.chld, true, {}) == Lifted(root.chld, true, {});
    RemainingHasNoDeep(root.chld, true, {});
    LiftedHasNoDeep(root.chld, true, {});
    NoDeepConcat(res.chld, st.roots);
    LiftingKeeps(root.chld, true);
    LabelsConcat(res.chld, st.roots);
    res := res.(chld := res.chld + st.roots);
  }
}
