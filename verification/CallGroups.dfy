/** Grouping of call definitions and the order in which recorded calls are executed. */
module CallGroups {
  import opened Scopes
  import opened Sequences
  import opened RequestState
  import opened RequestRuns

  const MAX_NOF_CALLDEFS := 0x8000

  /** Group ids of the interface are shifted behind all call indices until they are rewritten. */
  function VirtualGroupId(groupid: int): int {
    groupid + MAX_NOF_CALLDEFS + 1
  }

  predicate IsVirtualGroupId(groupid: int) {
    groupid >= MAX_NOF_CALLDEFS + 1
  }

  datatype GroupOp = OpenGroup(groupid: int) | CloseGroup | AddCall

  /** The group id of every call so far, the number of calls at the opening of each group, the open group or -1. */
  datatype Groups = Groups(ids: seq<int>, starts: map<int, int>, current: int)

  datatype DescriptionError = NoError | LogicError | ExecutionOrder | ComplexityOfProblem

  function Apply(g: Groups, op: GroupOp): (Groups, DescriptionError) {
    match op
    case OpenGroup(id) =>
      if g.current >= 0 then (g, DescriptionError.LogicError)
      else (g.(current := VirtualGroupId(id), starts := g.starts[VirtualGroupId(id) := |g.ids|]), NoError)
    case CloseGroup =>
      if g.current < 0 then (g, DescriptionError.LogicError) else (g.(current := -1), NoError)
    case AddCall =>
      if |g.ids| >= MAX_NOF_CALLDEFS then (g, ComplexityOfProblem)
      else (g.(ids := g.ids + [if g.current < 0 then |g.ids| else g.current]), NoError)
  }

  function Build(ops: seq<GroupOp>): Groups {
    if ops == [] then Groups([], map[], -1)
    else Apply(Build(ops[..|ops| - 1]), ops[|ops| - 1]).0
  }

  /** Virtual ids become the number of the first call of the group. */
  function Rewritten(g: Groups): (r: seq<int>)
    ensures |r| == |g.ids|
  {
    seq(|g.ids|, i requires 0 <= i < |g.ids| =>
      if IsVirtualGroupId(g.ids[i]) && g.ids[i] in g.starts then g.starts[g.ids[i]] else g.ids[i])
  }

  /** Every virtual id in use has been opened. */
  ghost predicate GroupsKnown(g: Groups) {
    && |g.ids| <= MAX_NOF_CALLDEFS
    && (forall i :: 0 <= i < |g.ids| ==> IsVirtualGroupId(g.ids[i]) ==> g.ids[i] in g.starts)
    && (g.current >= 0 ==> g.current in g.starts)
    && (forall v :: v in g.starts ==> 0 <= g.starts[v] <= |g.ids|)
  }

  /** Calls have their own number or a virtual id. */
  ghost predicate GroupsVirtual(g: Groups) {
    && (forall i :: 0 <= i < |g.ids| ==> g.ids[i] == i || IsVirtualGroupId(g.ids[i]))
    && (g.current >= 0 ==> IsVirtualGroupId(g.current))
  }

  ghost predicate IdsNotNegative(ops: seq<GroupOp>) {
    forall i :: 0 <= i < |ops| && ops[i].OpenGroup? ==> ops[i].groupid >= 0
  }

  lemma {:induction false} BuildVirtual(ops: seq<GroupOp>)
    requires IdsNotNegative(ops)
    ensures GroupsVirtual(Build(ops))
  {
    if ops != [] {
      var n := |ops| - 1;
      assert forall i :: 0 <= i < n ==> ops[..n][i] == ops[i];
      BuildVirtual(ops[..n]);
    }
  }

  /** The calls from the start of a group up to a call of the group all belong to the group. */
  ghost predicate GroupsContiguous(g: Groups) {
    && (forall i, k :: 0 <= k <= i < |g.ids| && g.ids[i] in g.starts && IsVirtualGroupId(g.ids[i]) ==>
         g.starts[g.ids[i]] <= i && (g.starts[g.ids[i]] <= k ==> g.ids[k] == g.ids[i]))
    && (g.current >= 0 && g.current in g.starts ==> forall k :: g.starts[g.current] <= k < |g.ids| && 0 <= k ==> g.ids[k] == g.current)
  }

  ghost predicate OpenedOnce(ops: seq<GroupOp>) {
    forall i, j :: 0 <= i < j < |ops| && ops[i].OpenGroup? && ops[j].OpenGroup? ==> ops[i].groupid != ops[j].groupid
  }

  lemma {:induction false} BuildKnown(ops: seq<GroupOp>)
    ensures GroupsKnown(Build(ops))
    ensures forall v :: v in Build(ops).starts ==> exists i :: 0 <= i < |ops| && ops[i].OpenGroup? && v == VirtualGroupId(ops[i].groupid)
  {
    if ops != [] {
      var n := |ops| - 1;
      BuildKnown(ops[..n]);
      forall v | v in Build(ops).starts
        ensures exists i :: 0 <= i < |ops| && ops[i].OpenGroup? && v == VirtualGroupId(ops[i].groupid)
      {
        if v in Build(ops[..n]).starts {
          var i :| 0 <= i < n && ops[..n][i].OpenGroup? && v == VirtualGroupId(ops[..n][i].groupid);
          assert ops[i] == ops[..n][i];
        } else {
          assert ops[n].OpenGroup? && v == VirtualGroupId(ops[n].groupid);
        }
      }
    }
  }

  lemma {:induction false} OpeningIsFirst(ops: seq<GroupOp>)
    requires OpenedOnce(ops) && ops != [] && ops[|ops| - 1].OpenGroup?
    ensures VirtualGroupId(ops[|ops| - 1].groupid) !in Build(ops[..|ops| - 1]).starts
  {
    var n := |ops| - 1;
    BuildKnown(ops[..n]);
    assert forall i :: 0 <= i < n && ops[..n][i].OpenGroup? ==> ops[..n][i] == ops[i] && ops[i].groupid != ops[n].groupid;
  }

  lemma {:induction false} OpenedOncePrefix(ops: seq<GroupOp>, n: nat)
    requires OpenedOnce(ops) && n <= |ops|
    ensures OpenedOnce(ops[..n])
  {
    forall i, j | 0 <= i < j < n && ops[..n][i].OpenGroup? && ops[..n][j].OpenGroup?
      ensures ops[..n][i].groupid != ops[..n][j].groupid
    {
      assert ops[i] == ops[..n][i] && ops[j] == ops[..n][j];
    }
  }

  lemma {:induction false} ApplyContiguous(g: Groups, op: GroupOp)
    requires GroupsKnown(g) && GroupsContiguous(g)
    requires op.OpenGroup? && g.current < 0 ==> VirtualGroupId(op.groupid) !in g.starts
    ensures GroupsContiguous(Apply(g, op).0)
  {
  }

  /** The calls of a group are defined next to each other. */
  lemma {:induction false} BuildContiguous(ops: seq<GroupOp>)
    requires OpenedOnce(ops)
    ensures GroupsContiguous(Build(ops))
  {
    if ops != [] {
      var n := |ops| - 1;
      OpenedOncePrefix(ops, n);
      BuildContiguous(ops[..n]);
      BuildKnown(ops[..n]);
      if ops[n].OpenGroup? { OpeningIsFirst(ops); }
      ApplyContiguous(Build(ops[..n]), ops[n]);
    }
  }

  // ---------------------------------------------------------------- when groups keep the order of definition

  /** Where a call was defined: outside of any group or in the group with a shifted id. */
  datatype Home = Alone | InGroup(id: int)

  function Homes(ops: seq<GroupOp>): seq<Home> {
    if ops == [] then []
    else
      var last := |ops| - 1;
      var g := Build(ops[..last]);
      if ops[last].AddCall? && |g.ids| < MAX_NOF_CALLDEFS then Homes(ops[..last]) + [if g.current < 0 then Alone else InGroup(g.current)]
      else Homes(ops[..last])
  }

  /** What stands for the home of call k in the order: its own number, the number of calls at the last opening of
      its group, or a group id that is not shifted behind the calls as it is. */
  function PlaceOf(g: Groups, home: Home, k: nat): int {
    match home
    case Alone => k
    case InGroup(v) => if IsVirtualGroupId(v) && v in g.starts then g.starts[v] else v
  }

  ghost predicate HomeOk(g: Groups, homes: seq<Home>, k: nat)
    requires k < |homes|
  {
    homes[k].InGroup? ==> homes[k].id >= 0 && homes[k].id in g.starts
  }

  /** A call outside of any group is defined before any group with a later call is opened for the last time. */
  ghost predicate AloneBefore(g: Groups, homes: seq<Home>, i: nat, j: nat)
    requires i < j < |homes|
  {
    homes[i].Alone? && homes[j].InGroup? && homes[j].id in g.starts ==> i < g.starts[homes[j].id]
  }

  ghost predicate HomesOk(g: Groups, homes: seq<Home>) {
    && |homes| == |g.ids|
    && (forall k :: 0 <= k < |homes| ==> HomeOk(g, homes, k))
    && (forall k :: 0 <= k < |homes| ==> g.ids[k] == if homes[k].Alone? then k else homes[k].id)
    && (forall i, j :: 0 <= i < j < |homes| ==> AloneBefore(g, homes, i, j))
    && (forall i :: 0 <= i < |homes| && homes[i].Alone? && g.current >= 0 && g.current in g.starts ==> i < g.starts[g.current])
  }

  lemma {:induction false} OpenHomes(g: Groups, homes: seq<Home>, id: int)
    requires HomesOk(g, homes) && GroupsKnown(g)
    ensures HomesOk(Apply(g, OpenGroup(id)).0, homes)
  {
    var h := Apply(g, OpenGroup(id)).0;
    forall k | 0 <= k < |homes| ensures HomeOk(h, homes, k) { assert HomeOk(g, homes, k); }
    forall i, j | 0 <= i < j < |homes| ensures AloneBefore(h, homes, i, j) { assert AloneBefore(g, homes, i, j); }
  }

  lemma {:induction false} CloseHomes(g: Groups, homes: seq<Home>)
    requires HomesOk(g, homes)
    ensures HomesOk(Apply(g, CloseGroup).0, homes)
  {
    var h := Apply(g, CloseGroup).0;
    forall k | 0 <= k < |homes| ensures HomeOk(h, homes, k) { assert HomeOk(g, homes, k); }
    forall i, j | 0 <= i < j < |homes| ensures AloneBefore(h, homes, i, j) { assert AloneBefore(g, homes, i, j); }
  }

  lemma {:induction false} AddHomes(g: Groups, homes: seq<Home>)
    requires HomesOk(g, homes) && GroupsKnown(g) && |g.ids| < MAX_NOF_CALLDEFS
    ensures HomesOk(Apply(g, AddCall).0, homes + [if g.current < 0 then Alone else InGroup(g.current)])
  {
    var h, more := Apply(g, AddCall).0, homes + [if g.current < 0 then Alone else InGroup(g.current)];
    forall k | 0 <= k < |more| ensures HomeOk(h, more, k) {
      if k < |homes| { assert HomeOk(g, homes, k); }
    }
    forall i, j | 0 <= i < j < |more| ensures AloneBefore(h, more, i, j) {
      if j < |homes| { assert AloneBefore(g, homes, i, j); }
    }
  }

  lemma {:induction false} BuildHomes(ops: seq<GroupOp>)
    ensures HomesOk(Build(ops), Homes(ops))
  {
    if ops == [] {
    } else {
      hide HomesOk, GroupsKnown;
      var last := |ops| - 1;
      var g := Build(ops[..last]);
      BuildHomes(ops[..last]);
      BuildKnown(ops[..last]);
      if ops[last].OpenGroup? {
        OpenHomes(g, Homes(ops[..last]), ops[last].groupid);
      } else if ops[last].CloseGroup? {
        CloseHomes(g, Homes(ops[..last]));
      } else if ops[last].AddCall? && |g.ids| < MAX_NOF_CALLDEFS {
        AddHomes(g, Homes(ops[..last]));
      }
    }
  }

  ghost predicate SameGroup(homes: seq<Home>, i: nat, j: nat)
    requires i < |homes| && j < |homes|
  {
    homes[i].InGroup? && homes[i] == homes[j]
  }

  /** The numbers of the groups never decrease along the definitions, and two calls share one exactly if they were
      defined in the same group. */
  ghost predicate OrderKept(ops: seq<GroupOp>)
    requires |Homes(ops)| == |Build(ops).ids|
  {
    forall i: nat, j: nat :: i < j < |Homes(ops)| ==> PairOrdered(ops, i, j)
  }

  ghost predicate PairOrdered(ops: seq<GroupOp>, i: nat, j: nat)
    requires i < j < |Homes(ops)| == |Build(ops).ids|
  {
    var r := Rewritten(Build(ops));
    0 <= r[i] <= r[j] && (r[i] == r[j] <==> SameGroup(Homes(ops), i, j))
  }

  /** A group of calls is opened for the last time before every later call outside of it and before the last opening
      of every group with a later call. An id that is not shifted behind the calls stands for the place of its group,
      which is then compared with calls outside as well. */
  ghost predicate OpeningsInOrder(ops: seq<GroupOp>) {
    var g, homes := Build(ops), Homes(ops);
    forall i: nat, j: nat :: i < j < |homes| && homes[i] != homes[j] && (homes[i].InGroup? || !IsVirtualGroupId(homes[j].id)) ==>
      PlaceOf(g, homes[i], i) < PlaceOf(g, homes[j], j)
  }

  lemma {:induction false} RewrittenIsPlace(ops: seq<GroupOp>, k: nat)
    requires k < |Homes(ops)|
    ensures |Homes(ops)| == |Build(ops).ids|
    ensures Rewritten(Build(ops))[k] == PlaceOf(Build(ops), Homes(ops)[k], k) >= 0
    ensures HomeOk(Build(ops), Homes(ops), k)
  {
    BuildHomes(ops);
    BuildKnown(ops);
    assert HomeOk(Build(ops), Homes(ops), k);
  }

  lemma {:induction false} AloneIsBefore(ops: seq<GroupOp>, i: nat, j: nat)
    requires i < j < |Homes(ops)| && Homes(ops)[i].Alone?
    requires Homes(ops)[j].InGroup? ==> IsVirtualGroupId(Homes(ops)[j].id)
    ensures i < PlaceOf(Build(ops), Homes(ops)[j], j)
  {
    BuildHomes(ops);
    assert AloneBefore(Build(ops), Homes(ops), i, j) && HomeOk(Build(ops), Homes(ops), j);
  }

  /** The order of definition is kept exactly if the groups are opened in order, whatever their ids are. */
  lemma {:induction false} GroupIdsFollowDefinitionOrder(ops: seq<GroupOp>)
    ensures |Homes(ops)| == |Build(ops).ids|
    ensures OrderKept(ops) <==> OpeningsInOrder(ops)
  {
    BuildHomes(ops);
    var homes := Homes(ops);
    forall i: nat, j: nat | i < j < |homes|
      ensures PairOrdered(ops, i, j) <==> (homes[i] != homes[j] && (homes[i].InGroup? || !IsVirtualGroupId(homes[j].id)) ==>
        PlaceOf(Build(ops), homes[i], i) < PlaceOf(Build(ops), homes[j], j))
    {
      hide HomesOk, Rewritten;
      RewrittenIsPlace(ops, i);
      RewrittenIsPlace(ops, j);
      if homes[i].Alone? && (homes[j].InGroup? ==> IsVirtualGroupId(homes[j].id)) { AloneIsBefore(ops, i, j); }
    }
  }

  ghost predicate Contiguous(homes: seq<Home>) {
    forall i, j, k :: 0 <= i < j < k < |homes| && homes[i].InGroup? && homes[i] == homes[k] ==> homes[j] == homes[i]
  }

  /** The call defined next after the last opening of a group belongs to it. */
  ghost predicate OpeningsUsed(ops: seq<GroupOp>) {
    var g, homes := Build(ops), Homes(ops);
    forall k :: 0 <= k < |homes| && homes[k].InGroup? && homes[k].id in g.starts ==>
      0 <= g.starts[homes[k].id] < |homes| && homes[g.starts[homes[k].id]] == homes[k]
  }

  /** No call defined in between two calls of a group is outside of it. */
  lemma {:induction false} OrderIsContiguous(ops: seq<GroupOp>)
    requires OpeningsInOrder(ops)
    ensures Contiguous(Homes(ops))
  {
    var homes := Homes(ops);
    forall i, j, k | 0 <= i < j < k < |homes| && homes[i].InGroup? && homes[i] == homes[k]
      ensures homes[j] == homes[i]
    {
      if homes[j].Alone? && IsVirtualGroupId(homes[k].id) { AloneIsBefore(ops, j, k); }
    }
  }

  lemma {:induction false} HomesAreVirtual(ops: seq<GroupOp>)
    requires IdsNotNegative(ops)
    ensures forall k :: 0 <= k < |Homes(ops)| && Homes(ops)[k].InGroup? ==> IsVirtualGroupId(Homes(ops)[k].id)
  {
    if ops != [] {
      var n := |ops| - 1;
      assert forall i :: 0 <= i < n ==> ops[..n][i] == ops[i];
      HomesAreVirtual(ops[..n]);
      BuildVirtual(ops[..n]);
    }
  }

  /** The last opening of a group comes before every later call outside of any group and before the last opening of
      every group with a later call. */
  ghost predicate LastOpeningsInOrder(g: Groups)
    requires GroupsKnown(g)
  {
    forall i, j :: 0 <= i < j < |g.ids| && IsVirtualGroupId(g.ids[i]) && g.ids[j] != g.ids[i] ==>
      g.starts[g.ids[i]] < if IsVirtualGroupId(g.ids[j]) then g.starts[g.ids[j]] else j
  }

  /** With ids that are not negative, this is all that is needed for the order of definition. */
  lemma {:induction false} LastOpeningsIff(ops: seq<GroupOp>)
    requires IdsNotNegative(ops)
    ensures GroupsKnown(Build(ops)) && |Homes(ops)| == |Build(ops).ids|
    ensures OrderKept(ops) <==> LastOpeningsInOrder(Build(ops))
  {
    BuildKnown(ops);
    BuildHomes(ops);
    HomesAreVirtual(ops);
    GroupIdsFollowDefinitionOrder(ops);
    assert forall k :: 0 <= k < |Homes(ops)| ==> HomeOk(Build(ops), Homes(ops), k);
    hide OrderKept, Build, Homes;
  }

  lemma {:induction false} ContiguousOpenings(g: Groups, homes: seq<Home>, i: nat, j: nat)
    requires i < j < |homes| && Contiguous(homes) && homes[i].InGroup? && homes[i] != homes[j]
    requires forall k :: k == i || k == j ==> homes[k].InGroup? ==> IsVirtualGroupId(homes[k].id) && homes[k].id in g.starts
    requires forall k :: k == i || k == j ==> homes[k].InGroup? ==>
      0 <= g.starts[homes[k].id] < |homes| && homes[g.starts[homes[k].id]] == homes[k]
    ensures PlaceOf(g, homes[i], i) < PlaceOf(g, homes[j], j)
  {
    var start := g.starts[homes[i].id];
    assert start < j;
    if homes[j].InGroup? {
      assert homes[start] != homes[j];
    }
  }

  /** Where no group is opened for the last time in vain, the order is kept exactly if no other call is defined in
      between two calls of a group. */
  lemma {:induction false} ContiguousIff(ops: seq<GroupOp>)
    requires IdsNotNegative(ops) && OpeningsUsed(ops)
    ensures OpeningsInOrder(ops) <==> Contiguous(Homes(ops))
  {
    if OpeningsInOrder(ops) { OrderIsContiguous(ops); }
    if Contiguous(Homes(ops)) {
      var g, homes := Build(ops), Homes(ops);
      BuildHomes(ops);
      HomesAreVirtual(ops);
      forall i: nat, j: nat | i < j < |homes| && homes[i] != homes[j] && (homes[i].InGroup? || !IsVirtualGroupId(homes[j].id))
        ensures PlaceOf(g, homes[i], i) < PlaceOf(g, homes[j], j)
      {
        hide PlaceOf, Contiguous;
        assert HomeOk(g, homes, i) && HomeOk(g, homes, j);
        ContiguousOpenings(g, homes, i, j);
      }
    }
  }

  /** Groups that are opened at most once, with ids that are not negative, are opened in order. */
  lemma {:induction false} OpenedOnceInOrder(ops: seq<GroupOp>)
    requires OpenedOnce(ops) && IdsNotNegative(ops)
    ensures OpeningsInOrder(ops)
  {
    BuildKnown(ops);
    BuildVirtual(ops);
    BuildContiguous(ops);
    BuildHomes(ops);
    var g, homes := Build(ops), Homes(ops);
    forall i: nat, j: nat | i < j < |homes| && homes[i] != homes[j] && (homes[i].InGroup? || !IsVirtualGroupId(homes[j].id))
      ensures PlaceOf(g, homes[i], i) < PlaceOf(g, homes[j], j)
    {
      assert HomeOk(g, homes, i) && HomeOk(g, homes, j);
    }
  }

  /** A group opened again and a negative id that keep the order, and an opening in vain that breaks it. */
  lemma {:induction false} OpenedAgainInOrder()
    ensures var ops := [OpenGroup(1), AddCall, CloseGroup, OpenGroup(1), AddCall];
            !OpenedOnce(ops) && Rewritten(Build(ops)) == [1, 1] && OpeningsInOrder(ops)
    ensures var ops := [AddCall, OpenGroup(-0x8000), AddCall];
            !IdsNotNegative(ops) && Rewritten(Build(ops)) == [0, 1] && OpeningsInOrder(ops)
    ensures var ops := [OpenGroup(1), AddCall, CloseGroup, OpenGroup(1), CloseGroup, AddCall];
            Rewritten(Build(ops)) == [1, 1] && Contiguous(Homes(ops)) && !OpeningsInOrder(ops)
  {
    OpenedAgain();
    NegativeIdInOrder();
    OpenedInVain();
  }

  lemma {:induction false} OpenedAgainBuilt()
    ensures var ops, v := [OpenGroup(1), AddCall, CloseGroup, OpenGroup(1), AddCall], VirtualGroupId(1);
            Build(ops) == Groups([v, v], map[v := 1], v) && Homes(ops) == [InGroup(v), InGroup(v)]
  {
    var o1 := [OpenGroup(1)];
    var o2 := o1 + [AddCall];
    var o3 := o2 + [CloseGroup];
    var o4 := o3 + [OpenGroup(1)];
    var o5 := o4 + [AddCall];
    var v := VirtualGroupId(1);
    assert o1[..0] == [] && o2[..1] == o1 && o3[..2] == o2 && o4[..3] == o3 && o5[..4] == o4;
    assert Build(o1) == Groups([], map[v := 0], v) && Homes(o1) == [];
    assert Build(o2) == Groups([v], map[v := 0], v) && Homes(o2) == [InGroup(v)];
    assert Build(o3) == Groups([v], map[v := 0], -1) && Homes(o3) == [InGroup(v)];
    assert Build(o4) == Groups([v], map[v := 1], v) && Homes(o4) == [InGroup(v)];
    assert o5 == [OpenGroup(1), AddCall, CloseGroup, OpenGroup(1), AddCall];
  }

  lemma {:induction false} OpenedAgain()
    ensures var ops := [OpenGroup(1), AddCall, CloseGroup, OpenGroup(1), AddCall];
            !OpenedOnce(ops) && Rewritten(Build(ops)) == [1, 1] && OpeningsInOrder(ops)
  {
    hide Build, Homes;
    var ops := [OpenGroup(1), AddCall, CloseGroup, OpenGroup(1), AddCall];
    OpenedAgainBuilt();
    assert ops[0].OpenGroup? && ops[3].OpenGroup? && ops[0].groupid == ops[3].groupid;
  }

  lemma {:induction false} NegativeIdInOrder()
    ensures var ops := [AddCall, OpenGroup(-0x8000), AddCall];
            !IdsNotNegative(ops) && Rewritten(Build(ops)) == [0, 1] && OpeningsInOrder(ops)
  {
    var o1 := [AddCall];
    var o2 := o1 + [OpenGroup(-0x8000)];
    var o3 := o2 + [AddCall];
    assert o1[..0] == [] && o2[..1] == o1 && o3[..2] == o2;
    assert Build(o1) == Groups([0], map[], -1) && Homes(o1) == [Alone];
    assert Build(o2) == Groups([0], map[1 := 1], 1) && Homes(o2) == [Alone];
    assert Build(o3) == Groups([0, 1], map[1 := 1], 1) && Homes(o3) == [Alone, InGroup(1)];
    assert o3 == [AddCall, OpenGroup(-0x8000), AddCall];
    assert o3[1].OpenGroup? && o3[1].groupid < 0;
  }

  lemma {:induction false} OpenedInVainBuilt()
    ensures var ops, v := [OpenGroup(1), AddCall, CloseGroup, OpenGroup(1), CloseGroup, AddCall], VirtualGroupId(1);
            Build(ops) == Groups([v, 1], map[v := 1], -1) && Homes(ops) == [InGroup(v), Alone]
  {
    var o1 := [OpenGroup(1)];
    var o2 := o1 + [AddCall];
    var o3 := o2 + [CloseGroup];
    var o4 := o3 + [OpenGroup(1)];
    var o5 := o4 + [CloseGroup];
    var o6 := o5 + [AddCall];
    var v := VirtualGroupId(1);
    assert o1[..0] == [] && o2[..1] == o1 && o3[..2] == o2 && o4[..3] == o3 && o5[..4] == o4 && o6[..5] == o5;
    assert Build(o1) == Groups([], map[v := 0], v) && Homes(o1) == [];
    assert Build(o2) == Groups([v], map[v := 0], v) && Homes(o2) == [InGroup(v)];
    assert Build(o3) == Groups([v], map[v := 0], -1) && Homes(o3) == [InGroup(v)];
    assert Build(o4) == Groups([v], map[v := 1], v) && Homes(o4) == [InGroup(v)];
    assert Build(o5) == Groups([v], map[v := 1], -1) && Homes(o5) == [InGroup(v)];
    assert o6 == [OpenGroup(1), AddCall, CloseGroup, OpenGroup(1), CloseGroup, AddCall];
  }

  lemma {:induction false} OpenedInVain()
    ensures var ops := [OpenGroup(1), AddCall, CloseGroup, OpenGroup(1), CloseGroup, AddCall];
            Rewritten(Build(ops)) == [1, 1] && Contiguous(Homes(ops)) && !OpeningsInOrder(ops)
  {
    hide Build, Homes;
    var ops := [OpenGroup(1), AddCall, CloseGroup, OpenGroup(1), CloseGroup, AddCall];
    OpenedInVainBuilt();
    assert Homes(ops)[0] != Homes(ops)[1] && PlaceOf(Build(ops), Homes(ops)[0], 0) == PlaceOf(Build(ops), Homes(ops)[1], 1);
  }

  /** Opening a group twice moves its earlier calls behind calls defined in between. */
  lemma {:induction false} ReopenedGroupBreaksOrder()
    ensures var ops := [OpenGroup(1), AddCall, CloseGroup, AddCall, OpenGroup(1), AddCall, CloseGroup];
            Rewritten(Build(ops)) == [2, 1, 2]
  {
    var o1 := [OpenGroup(1)];
    var o2 := o1 + [AddCall];
    var o3 := o2 + [CloseGroup];
    var o4 := o3 + [AddCall];
    var o5 := o4 + [OpenGroup(1)];
    var o6 := o5 + [AddCall];
    var o7 := o6 + [CloseGroup];
    var v := VirtualGroupId(1);
    assert o1[..0] == [] && o2[..1] == o1 && o3[..2] == o2 && o4[..3] == o3 && o5[..4] == o4 && o6[..5] == o5 && o7[..6] == o6;
    assert Build(o1) == Groups([], map[v := 0], v);
    assert Build(o2) == Groups([v], map[v := 0], v);
    assert Build(o3) == Groups([v], map[v := 0], -1);
    assert Build(o4) == Groups([v, 1], map[v := 0], -1);
    assert Build(o5) == Groups([v, 1], map[v := 2], v);
    assert Build(o6) == Groups([v, 1, v], map[v := 2], v);
    assert Build(o7) == Groups([v, 1, v], map[v := 2], -1);
    assert o7 == [OpenGroup(1), AddCall, CloseGroup, AddCall, OpenGroup(1), AddCall, CloseGroup];
  }

  /** A negative group id is not shifted behind the call indices: its calls count as calls of the first definition. */
  lemma {:induction false} NegativeGroupIdBreaksOrder()
    ensures Rewritten(Build([AddCall, AddCall, OpenGroup(-0x8001), AddCall])) == [0, 1, 0]
  {
    var o1 := [AddCall];
    var o2 := o1 + [AddCall];
    var o3 := o2 + [OpenGroup(-0x8001)];
    var o4 := o3 + [AddCall];
    assert o1[..0] == [] && o2[..1] == o1 && o3[..2] == o2 && o4[..3] == o3;
    assert Build(o1) == Groups([0], map[], -1);
    assert Build(o2) == Groups([0, 1], map[], -1);
    assert Build(o3) == Groups([0, 1], map[0 := 2], 0);
    assert Build(o4) == Groups([0, 1, 0], map[0 := 2], 0);
    assert o4 == [AddCall, AddCall, OpenGroup(-0x8001), AddCall];
  }

  /** The part of the request description that assigns group ids to call definitions. */
  class AutomatonDescription {
    var groupids: seq<int>
    var groupidmap: map<int, int>
    var groupid: int
    var isdone: bool
    var errcode: DescriptionError

    function Value(): Groups
      reads this
    {
      Groups(groupids, groupidmap, groupid)
    }

    constructor ()
      ensures Value() == Build([]) && !isdone && errcode == NoError
    {
      groupids, groupidmap, groupid, isdone, errcode := [], map[], -1, false, NoError;
    }

    method DoOpenGroup(id: int) returns (ok: bool)
      modifies this
      ensures Value() == Apply(old(Value()), OpenGroup(id)).0 && isdone == old(isdone)
      ensures ok <==> Apply(old(Value()), OpenGroup(id)).1 == NoError
      ensures errcode == if ok then old(errcode) else Apply(old(Value()), OpenGroup(id)).1
    {
      if groupid >= 0 {
        errcode := DescriptionError.LogicError;
        return false;
      }
      groupid := VirtualGroupId(id);
      groupidmap := groupidmap[groupid := |groupids|];
      return true;
    }

    method DoCloseGroup() returns (ok: bool)
      modifies this
      ensures Value() == Apply(old(Value()), CloseGroup).0 && isdone == old(isdone)
      ensures ok <==> Apply(old(Value()), CloseGroup).1 == NoError
      ensures errcode == if ok then old(errcode) else Apply(old(Value()), CloseGroup).1
    {
      if groupid < 0 {
        errcode := DescriptionError.LogicError;
        return false;
      }
      groupid := -1;
      return true;
    }

    method DoAddCall() returns (ok: bool)
      modifies this
      ensures isdone == old(isdone)
      ensures ok <==> !isdone && Apply(old(Value()), AddCall).1 == NoError
      ensures Value() == if old(isdone) then old(Value()) else Apply(old(Value()), AddCall).0
      ensures errcode == if ok then old(errcode) else if isdone then DescriptionError.ExecutionOrder else ComplexityOfProblem
    {
      if isdone {
        errcode := DescriptionError.ExecutionOrder;
        return false;
      }
      if |groupids| >= MAX_NOF_CALLDEFS {
        errcode := ComplexityOfProblem;
        return false;
      }
      groupids := groupids + [if groupid < 0 then |groupids| else groupid];
      return true;
    }

    /** Replaces the virtual ids; this cannot fail for a description built with the operations above. */
    method Done() returns (ok: bool)
      requires GroupsKnown(Value())
      modifies this
      ensures ok <==> !old(isdone)
      ensures isdone && groupidmap == old(groupidmap) && groupid == old(groupid)
      ensures groupids == if ok then Rewritten(old(Value())) else old(groupids)
    {
      if isdone {
        errcode := DescriptionError.LogicError;
        return false;
      }
      ghost var g := Value();
      var ci := 0;
      while ci < |groupids|
        invariant 0 <= ci <= |groupids| == |g.ids|
        invariant groupidmap == g.starts && groupid == g.current && !isdone
        invariant forall i :: 0 <= i < ci ==> groupids[i] == Rewritten(g)[i]
        invariant forall i :: ci <= i < |g.ids| ==> groupids[i] == g.ids[i]
      {
        if IsVirtualGroupId(groupids[ci]) {
          if groupids[ci] !in groupidmap {
            assert false;
          }
          groupids := groupids[ci := groupidmap[groupids[ci]]];
        }
        ci := ci + 1;
      }
      assert groupids == Rewritten(g);
      isdone := true;
      return true;
    }
  }

  // ---------------------------------------------------------------- sorting the calls

  /** Calls are executed by group, then by position in the document, then by definition. */
  predicate KeyBefore(a: MethodCallNode, b: MethodCallNode) {
    if a.group != b.group then a.group < b.group
    else if a.position != b.position then a.position < b.position
    else a.def < b.def
  }

  ghost predicate SortedCalls(calls: seq<MethodCallNode>) {
    forall i, j :: 0 <= i < j < |calls| ==> !KeyBefore(calls[j], calls[i])
  }

  function InsertCall(mc: MethodCallNode, calls: seq<MethodCallNode>): seq<MethodCallNode> {
    if calls == [] || !KeyBefore(calls[0], mc) then [mc] + calls
    else [calls[0]] + InsertCall(mc, calls[1..])
  }

  /** std::sort with the order of the call keys. */
  function SortCalls(calls: seq<MethodCallNode>): seq<MethodCallNode> {
    if calls == [] then [] else InsertCall(calls[0], SortCalls(calls[1..]))
  }

  lemma {:induction false} InsertCallMembers(mc: MethodCallNode, calls: seq<MethodCallNode>)
    ensures multiset(InsertCall(mc, calls)) == multiset(calls) + multiset{mc}
  {
    if !(calls == [] || !KeyBefore(calls[0], mc)) {
      hide KeyBefore;
      InsertCallMembers(mc, calls[1..]);
      assert calls == [calls[0]] + calls[1..];
    }
  }

  lemma {:induction false} InsertCallKeeps(mc: MethodCallNode, calls: seq<MethodCallNode>)
    requires SortedCalls(calls)
    ensures SortedCalls(InsertCall(mc, calls))
  {
    if !(calls == [] || !KeyBefore(calls[0], mc)) {
      InsertCallKeeps(mc, calls[1..]);
      InsertCallMembers(mc, calls[1..]);
      var rest := InsertCall(mc, calls[1..]);
      forall i | 0 <= i < |rest| ensures !KeyBefore(rest[i], calls[0]) {
        assert rest[i] in multiset(rest);
        assert rest[i] == mc || rest[i] in calls[1..];
      }
    }
  }

  lemma {:induction false} SortCallsSorts(calls: seq<MethodCallNode>)
    ensures SortedCalls(SortCalls(calls))
    ensures multiset(SortCalls(calls)) == multiset(calls)
    ensures forall i, j :: 0 <= i < j < |SortCalls(calls)| ==>
              var a, b := SortCalls(calls)[i], SortCalls(calls)[j];
              a.group < b.group || (a.group == b.group && (a.position < b.position || (a.position == b.position && a.def <= b.def)))
  {
    if calls != [] {
      SortCallsSorts(calls[1..]);
      InsertCallKeeps(calls[0], SortCalls(calls[1..]));
      InsertCallMembers(calls[0], SortCalls(calls[1..]));
      assert calls == [calls[0]] + calls[1..];
    }
  }

  /** Call a may run before call b: by position within a group or a definition, and otherwise in the order of definition. */
  ghost predicate MayPrecede(homes: seq<Home>, a: MethodCallNode, b: MethodCallNode) {
    && a.def < |homes| && b.def < |homes|
    && (if a.def == b.def || SameGroup(homes, a.def, b.def) then a.position <= b.position else a.def < b.def)
  }

  ghost predicate NumbersOf(d: Description, ops: seq<GroupOp>) {
    |Build(ops).ids| == |d.calldefs| && forall k :: 0 <= k < |d.calldefs| ==> d.calldefs[k].groupid == Rewritten(Build(ops))[k]
  }

  /** The recorded calls run group by group in the order of definition, and in the order of the document within
      a group; a definition outside of any group is a group of its own. */
  lemma {:induction false} CallsRunGroupByGroup(d: Description, calls: seq<MethodCallNode>, ops: seq<GroupOp>, i: nat, j: nat)
    requires CallsOk(d, calls) && NumbersOf(d, ops) && OpeningsInOrder(ops)
    requires i < j < |SortCalls(calls)|
    ensures MayPrecede(Homes(ops), SortCalls(calls)[i], SortCalls(calls)[j])
  {
    SortCallsSorts(calls);
    SortedMembers(calls, i);
    SortedMembers(calls, j);
    GroupIdsFollowDefinitionOrder(ops);
    var a, b := SortCalls(calls)[i], SortCalls(calls)[j];
    assert !KeyBefore(b, a);
    hide OpeningsInOrder, Rewritten, SortCalls;
    if a.def < b.def {
      assert PairOrdered(ops, a.def, b.def);
    } else if b.def < a.def {
      assert PairOrdered(ops, b.def, a.def);
    }
  }

  /** Otherwise there are two calls that run in the wrong order, whatever else the description holds. */
  lemma {:induction false} CallsRunOutOfOrder(d: Description, ops: seq<GroupOp>) returns (calls: seq<MethodCallNode>)
    requires NumbersOf(d, ops) && !OpeningsInOrder(ops)
    ensures CallsOk(d, calls) && |SortCalls(calls)| == 2 && !MayPrecede(Homes(ops), SortCalls(calls)[0], SortCalls(calls)[1])
  {
    GroupIdsFollowDefinitionOrder(ops);
    var i: nat, j: nat :| i < j < |Homes(ops)| && !PairOrdered(ops, i, j);
    RewrittenIsPlace(ops, i);
    RewrittenIsPlace(ops, j);
    var first := MethodCallNode(d.calldefs[j].groupid, 1, j, Scope(0, 1), 0);
    var second := MethodCallNode(d.calldefs[i].groupid, 2, i, Scope(0, 2), 0);
    calls := [first, second];
    assert calls[1..] == [second] && calls[1..][1..] == [];
    assert SortCalls(calls[1..]) == [second];
    assert SortCalls(calls) == [first, second];
  }

  lemma {:induction false} SortedMembers(calls: seq<MethodCallNode>, i: nat)
    requires i < |SortCalls(calls)|
    ensures SortCalls(calls)[i] in calls
  {
    SortCallsSorts(calls);
    assert SortCalls(calls)[i] in multiset(SortCalls(calls));
  }
}
