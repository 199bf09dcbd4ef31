/** The request context as an object that is fed event by event. */
module RequestContext {
  import opened Scopes
  import opened ScopeObjects
  import opened Sequences
  import opened RequestState
  import opened RequestRuns
  import opened CallGroups
  import opened ItemResolver

  class AutomatonContext {
    const description: Description
    var scopecnt: int
    var scopestack: seq<int>
    var valuenodes: seq<ValueNode>
    var values: seq<Value>
    var structs: seq<nat>
    var scopeobjmap: seq<seq<Entry>>
    var methodcalls: seq<MethodCallNode>
    var resultrefs: seq<ResultRef>
    var rootelements: set<string>
    var eventstacks: seq<seq<AtmEvent>>
    var isdone: bool
    var errcode: RequestState.ErrorCode

    ghost function Abs(): State
      reads this
    {
      State(scopecnt, scopestack, valuenodes, values, structs, scopeobjmap, methodcalls, resultrefs, rootelements,
            eventstacks, isdone, errcode)
    }

    ghost predicate Valid()
      reads this
    {
      Inv(description, Abs())
    }

    constructor (d: Description)
      requires d.Valid()
      ensures description == d && Valid() && Abs() == InitState(d)
    {
      description := d;
      scopecnt, scopestack, valuenodes, values, structs := 0, [0], [], [], [];
      scopeobjmap, methodcalls, resultrefs, rootelements := seq(d.maxitemid + 1, _ => []), [], [], {};
      eventstacks, isdone, errcode := seq(NOF_EVENT_TYPES, _ => []), false, Ok;
      new;
      InitInv(d);
    }

    /** The scope from the start of the innermost open element to the current event. */
    function CurrentScope(): (r: Scope)
      requires |scopestack| > 0
      reads this`scopestack, this`scopecnt
    {
      Scope(scopestack[|scopestack| - 1], scopecnt)
    }

    method InsertObjectRef(itemid: nat, kind: ScopeKeyType, ref: ObjectRef)
      requires |scopestack| > 0 && itemid < |scopeobjmap|
      modifies this`scopeobjmap
      ensures scopeobjmap == InsertRef(old(scopeobjmap), itemid, CurrentScope(), kind, ref, |scopestack|)
    {
      var e := Entry(ScopeKey(CurrentScope(), kind), ref, |scopestack|);
      scopeobjmap := scopeobjmap[itemid := Insert(scopeobjmap[itemid], e)];
    }

    /** Moves the pending values of an item to the objects; none counts as one undefined value. */
    method Collect(itemid: nat) returns (ok: bool)
      requires |scopestack| > 0 && itemid < |scopeobjmap|
      modifies this
      ensures (Abs(), ok) == Collected(old(Abs()), itemid)
    {
      var valuecnt := CollectPending(itemid);
      if valuecnt == 0 {
        assert ValuesOf(itemid, old(valuenodes)) == [] && values == old(values);
        InsertObjectRef(itemid, ValueScope, ValueRef(|values|));
        values := values + [None];
        return true;
      } else if valuecnt > 1 {
        errcode := DuplicateDefinition;
        return false;
      }
      return true;
    }

    /** One pending value becomes an object. */
    method MoveValue(itemid: nat, vidx: nat)
      requires |scopestack| > 0 && itemid < |scopeobjmap| && vidx < |valuenodes|
      modifies this`scopeobjmap, this`values, this`valuenodes
      ensures scopeobjmap == InsertRef(old(scopeobjmap), itemid, CurrentScope(), ValueScope, ValueRef(|old(values)|), |scopestack|)
      ensures values == old(values) + [old(valuenodes)[vidx].value]
      ensures valuenodes == old(valuenodes)[..vidx] + old(valuenodes)[vidx + 1..]
    {
      InsertObjectRef(itemid, ValueScope, ValueRef(|values|));
      values := values + [valuenodes[vidx].value];
      valuenodes := valuenodes[..vidx] + valuenodes[vidx + 1..];
    }

    /** Erases the values of the item from the pending list as the list is walked. */
    method CollectPending(itemid: nat) returns (valuecnt: nat)
      requires |scopestack| > 0 && itemid < |scopeobjmap|
      modifies this`scopeobjmap, this`values, this`valuenodes
      ensures valuecnt == |ValuesOf(itemid, old(valuenodes))|
      ensures valuenodes == OthersOf(itemid, old(valuenodes))
      ensures values == old(values) + ValuesOf(itemid, old(valuenodes))
      ensures scopeobjmap == InsertValues(old(scopeobjmap), itemid, CurrentScope(), |scopestack|, |old(values)|, valuecnt)
    {
      hide HalfCollected, ValuesOf, OthersOf, Insert, InsertRef;
      var vidx := 0;
      valuecnt := 0;
      ghost var nodes := valuenodes;
      ghost var seen := 0;
      ghost var cscope, maps, first := CurrentScope(), scopeobjmap, values;
      CollectBegin(itemid, nodes);
      while vidx != |valuenodes|
        invariant 0 <= seen <= |nodes| && HalfCollected(itemid, nodes, seen, valuenodes, vidx)
        invariant valuecnt == |ValuesOf(itemid, nodes[..seen])|
        invariant values == first + ValuesOf(itemid, nodes[..seen])
        invariant scopeobjmap == InsertValues(maps, itemid, cscope, |scopestack|, |first|, valuecnt)
        decreases |nodes| - seen
      {
        CollectStep(itemid, nodes, seen, valuenodes, vidx);
        if valuenodes[vidx].itemid == itemid {
          MoveValue(itemid, vidx);
          valuecnt := valuecnt + 1;
        } else {
          vidx := vidx + 1;
        }
        seen := seen + 1;
      }
      CollectEnd(itemid, nodes, seen, valuenodes, vidx);
    }

    /** Scans backward for a call of the definition in the scope; it finds one exactly if there is one, as long as the
        calls of the scope are a tail of the list. */
    method HavePrioritizedItem(def: nat, cscope: Scope) returns (found: bool)
      ensures found <==> HasCall(methodcalls[TailStart(methodcalls, cscope.from)..], def, cscope)
      ensures ScopeIsTail(methodcalls, cscope) ==> (found <==> HasCall(methodcalls, def, cscope))
    {
      TailStarts(methodcalls, cscope.from);
      ghost var k := TailStart(methodcalls, cscope.from);
      var mi := |methodcalls|;
      while mi > 0 && methodcalls[mi - 1].scope.from >= cscope.from
        invariant k <= mi <= |methodcalls|
        invariant forall i :: mi <= i < |methodcalls| ==> !IsCallOf(def, cscope, methodcalls[i])
      {
        if methodcalls[mi - 1].scope.Inside(cscope) && def == methodcalls[mi - 1].def {
          assert IsCallOf(def, cscope, methodcalls[mi - 1]) && methodcalls[k..][mi - 1 - k] == methodcalls[mi - 1];
          return true;
        }
        mi := mi - 1;
      }
      return false;
    }

    /** Scans backward and erases the competing calls of the scope. Reports whether a name is compared with a missing
        one, which counts as different here. */
    method SuppressOthers(def: nat, cscope: Scope) returns (missed: bool)
      requires def < |description.calldefs| && CallsOk(description, methodcalls)
      modifies this`methodcalls
      ensures var k := TailStart(old(methodcalls), cscope.from);
              && methodcalls == old(methodcalls)[..k] + WithoutSuppressed(description, old(methodcalls)[k..], def, cscope)
              && (missed <==> exists mc :: mc in old(methodcalls)[k..] && ComparesMissing(description, def, cscope, mc))
    {
      hide Filter, TailStart, WithoutSuppressed;
      missed := false;
      ghost var calls := methodcalls;
      TailStarts(methodcalls, cscope.from);
      ghost var k := TailStart(methodcalls, cscope.from);
      var mi := |methodcalls|;
      assert calls[..mi] + [] == calls && calls[mi..] == [];
      NoneSuppressed(description, def, cscope);
      while mi > 0 && methodcalls[mi - 1].scope.from >= cscope.from
        invariant k <= mi <= |calls|
        invariant methodcalls == calls[..mi] + WithoutSuppressed(description, calls[mi..], def, cscope)
        invariant missed <==> exists mc :: mc in calls[mi..] && ComparesMissing(description, def, cscope, mc)
        decreases mi
      {
        var mc := methodcalls[mi - 1];
        assert mc == calls[mi - 1] && mc in calls;
        SuppressStep(description, calls, def, cscope, mi);
        missed := missed || ComparesMissing(description, def, cscope, mc);
        assert calls[mi - 1..] == [mc] + calls[mi..];
        if mc.scope.Inside(cscope) && def != mc.def
           && SameVariable(description.calldefs[mc.def].resultvarname, description.calldefs[def].resultvarname)
        {
          methodcalls := methodcalls[..mi - 1] + methodcalls[mi..];
        }
        mi := mi - 1;
      }
      assert mi == k by { if mi > 0 { assert methodcalls[mi - 1] == calls[mi - 1]; } }
    }

    /** The backward scans over the calls of the current scope. Where a name is missed, the source compares it with
        strcmp, and nothing is known of what happens there. */
    method Prioritize(def: nat) returns (missed: bool)
      requires Valid() && |scopestack| > 0 && def < |description.calldefs|
      modifies this`methodcalls
      ensures methodcalls == Scanned(description, old(methodcalls), def, CurScope(old(Abs())))
      ensures missed <==> var cscope := CurScope(old(Abs()));
                          NameIsMissed(description, old(methodcalls)[TailStart(old(methodcalls), cscope.from)..], def, cscope)
    {
      hide Inv, ScopeIsTail, TailStart, WithoutSuppressed, Scanned, Prioritized, CallsOk, HasCall;
      var cscope := CurrentScope();
      InvCalls(description, Abs());
      ScannedParts(description, methodcalls, def, cscope);
      var found := HavePrioritizedItem(def, cscope);
      missed := false;
      if found {
        missed := SuppressOthers(def, cscope);
        if description.calldefs[def].isVariableAssignment {
          GroupAssignments(def, cscope);
        }
      }
    }

    /** Gives the assignments of one definition the group of the last of them. As calls of one definition always
        have the same group this changes nothing. */
    method GroupAssignments(def: nat, cscope: Scope)
      requires def < |description.calldefs| && description.Valid() && CallsOk(description, methodcalls)
      modifies this`methodcalls
      ensures methodcalls == old(methodcalls)
    {
      var group := -1;
      var mi := |methodcalls|;
      while mi > 0 && methodcalls[mi - 1].scope.from >= cscope.from
        invariant 0 <= mi <= |methodcalls| && methodcalls == old(methodcalls)
        invariant group == -1 || group == description.calldefs[def].groupid
      {
        var mc := methodcalls[mi - 1];
        if mc.scope.Inside(cscope) && def == mc.def {
          assert mc in methodcalls;
          if group < 0 {
            group := mc.group;
          } else {
            methodcalls := methodcalls[mi - 1 := mc.(group := group)];
          }
        }
        mi := mi - 1;
      }
    }

    method ProcessOne(ev: AtmEvent, value: Value) returns (ok: bool)
      requires Valid() && |scopestack| > 0 && IsRegistered(description, ev)
      modifies this
      ensures (Abs(), ok) == ProcessEvent(description, old(Abs()), ev, value)
    {
      hide Inv, Insert, InsertRef, Collected, Scanned;
      InvParts(description, Abs());
      match ev
      case InstantiateValue(i) =>
        valuenodes := valuenodes + [ValueNode(description.valueitems[i], value)];
        return true;
      case CollectValue(i) =>
        ok := Collect(description.valueitems[i]);
      case CloseStruct(i) =>
        InsertObjectRef(description.structitems[i], ObjectScope, StructRef(|structs|));
        structs := structs + [i];
        return true;
      case MethodCall(i) =>
        var cscope := CurrentScope();
        methodcalls := methodcalls + [MethodCallNode(description.calldefs[i].groupid, scopecnt, i, cscope, |scopestack|)];
        if isdone {
          errcode := RequestState.ExecutionOrder;
          return false;
        }
        return true;
      case MethodCallPrioritize(i) =>
        var _ := Prioritize(i);
        return true;
      case InheritFrom(_) =>
        return true;
      case ResultInstruction(r, i) =>
        if r >= |description.resultdefs| || i >= |description.resultdefs[r]| {
          errcode := RequestState.LogicError;
          return false;
        }
        if !description.resultdefs[r][i].OtherNode? {
          resultrefs := resultrefs + [ResultRef(r, i, CurrentScope())];
        }
        return true;
    }

    method PushTriggered(evs: seq<AtmEvent>)
      requires |eventstacks| == NOF_EVENT_TYPES
      modifies this`eventstacks
      ensures eventstacks == PushAll(old(eventstacks), evs)
    {
      assert evs[..0] == [];
      var k := 0;
      while k < |evs|
        invariant 0 <= k <= |evs|
        invariant eventstacks == PushAll(old(eventstacks), evs[..k])
        invariant |eventstacks| == NOF_EVENT_TYPES
      {
        eventstacks := eventstacks[Rank(evs[k]) := eventstacks[Rank(evs[k])] + [evs[k]]];
        assert evs[..k + 1][..k] == evs[..k] && evs[..k + 1][k] == evs[k];
        k := k + 1;
      }
      assert evs[..k] == evs;
    }

    /** Empties the stack of one type from its top. */
    method DrainStack(ei: nat, value: Value) returns (ok: bool)
      requires Valid() && |scopestack| > 0 && ei < NOF_EVENT_TYPES
      modifies this
      ensures Valid() && |scopestack| > 0
      ensures if ok then DrainFrom(description, old(Abs()), ei, value) == DrainFrom(description, Abs(), ei + 1, value)
              else DrainFrom(description, old(Abs()), ei, value) == (Abs(), false)
    {
      ghost var full := Abs();
      while eventstacks[ei] != []
        invariant Valid() && |scopestack| > 0
        invariant DrainFrom(description, full, ei, value) == DrainFrom(description, Abs(), ei, value)
        decreases |eventstacks[ei]|
      {
        ghost var before := Abs();
        var n := |eventstacks[ei]| - 1;
        var ev := eventstacks[ei][n];
        eventstacks := eventstacks[ei := eventstacks[ei][..n]];
        SameRecordsKeep(description, before, Abs());
        ProcessEventFrame(description, Abs(), ev, value);
        ProcessEventKeeps(description, Abs(), ev, value);
        var good := ProcessOne(ev, value);
        if !good { return false; }
      }
      return true;
    }

    /** Puts the triggered events on the stacks of their types and then empties the stacks in the order of types. */
    method ProcessTriggered(evs: seq<AtmEvent>, value: Value) returns (ok: bool)
      requires Valid() && |scopestack| > 0 && AllRegistered(description, evs)
      modifies this
      ensures Valid() && (Abs(), ok) == ProcessEvents(description, old(Abs()), evs, value)
    {
      hide Inv, Ready, StacksOk, DrainFrom, PushAll;
      ghost var s := Abs();
      InvParts(description, s);
      PushAllKeeps(description, s, evs);
      PushTriggered(evs);
      ghost var full := Abs();
      assert full == s.(eventstacks := PushAll(s.eventstacks, evs));
      InvParts(description, full);
      var ei := 0;
      while ei < NOF_EVENT_TYPES
        invariant 0 <= ei <= NOF_EVENT_TYPES
        invariant Valid() && |scopestack| > 0 && Ready(description, Abs())
        invariant DrainFrom(description, full, 0, value) == DrainFrom(description, Abs(), ei, value)
      {
        var good := DrainStack(ei, value);
        if !good { return false; }
        InvParts(description, Abs());
        ei := ei + 1;
      }
      DrainNone(description, Abs(), value);
      return true;
    }

    method ProcessOpenTag(tag: Value, evs: seq<AtmEvent>) returns (ok: bool)
      requires Valid() && |scopestack| > 0 && AllRegistered(description, evs)
      modifies this
      ensures Valid() && (Abs(), ok) == Feed(description, old(Abs()), OpenTag(tag, evs))
    {
      hide Inv, Ready, ProcessEvents, AllRegistered;
      ghost var s := Abs();
      FeedKeeps(description, s, OpenTag(tag, evs));
      PushedKeeps(description, s, tag);
      scopecnt := scopecnt + 1;
      if |scopestack| <= 1 && tag.Some? {
        if tag.value == "" {
          if errcode == Ok { errcode := RequestState.SyntaxError; }
          return false;
        }
        rootelements := rootelements + {tag.value};
      }
      scopestack := scopestack + [scopecnt];
      assert Abs() == Pushed(s, tag);
      ok := ProcessTriggered(evs, tag);
    }

    /** Attribute names, attribute values and content are treated alike. */
    method ProcessInner(input: InputEvent) returns (ok: bool)
      requires Valid() && |scopestack| > 0 && AllRegistered(description, input.evs)
      requires !input.OpenTag? && !input.CloseTag?
      modifies this
      ensures Valid() && (Abs(), ok) == Feed(description, old(Abs()), input)
    {
      ghost var s := Abs();
      TickKeeps(description, s);
      scopecnt := scopecnt + 1;
      assert Abs() == Tick(s);
      var value := match input case AttributeName(name, _) => name case AttributeValue(v, _) => v case Content(v, _) => v;
      ok := ProcessTriggered(input.evs, value);
    }

    method ProcessCloseTag(evs: seq<AtmEvent>) returns (ok: bool)
      requires Valid() && |scopestack| > 0 && AllRegistered(description, evs)
      modifies this
      ensures Valid() && (Abs(), ok) == Feed(description, old(Abs()), CloseTag(evs))
    {
      hide Inv, Ready, ProcessEvents, AllRegistered;
      ghost var s := Abs();
      FeedKeeps(description, s, CloseTag(evs));
      TickKeeps(description, s);
      scopecnt := scopecnt + 1;
      assert Abs() == Tick(s);
      ok := ProcessTriggered(evs, None);
      if ok { scopestack := scopestack[..|scopestack| - 1]; }
    }

    method FeedInput(input: InputEvent) returns (ok: bool)
      requires Valid() && |scopestack| > 0 && AllRegistered(description, input.evs)
      modifies this
      ensures Valid() && (Abs(), ok) == Feed(description, old(Abs()), input)
    {
      match input
      case OpenTag(tag, evs) => ok := ProcessOpenTag(tag, evs);
      case CloseTag(evs) => ok := ProcessCloseTag(evs);
      case AttributeName(_, _) => ok := ProcessInner(input);
      case AttributeValue(_, _) => ok := ProcessInner(input);
      case Content(_, _) => ok := ProcessInner(input);
    }

    /** Ends the request: the calls are brought into the order of execution. */
    method Done() returns (ok: bool)
      requires Valid()
      modifies this
      ensures ok ==> Valid()
      ensures old(isdone) ==> ok && Abs() == old(Abs())
      ensures !old(isdone) ==> (ok <==> description.IsValidRootTagSet(old(rootelements)))
      ensures !old(isdone) ==>
                Abs() == if ok then Finished(old(Abs())) else Finished(old(Abs())).(done := false, errcode := RequestState.InvalidRequest)
    {
      hide Inv, SortCalls;
      if isdone { return true; }
      ghost var s := Abs();
      DoneKeeps(description, s);
      scopecnt, methodcalls := scopecnt + 1, SortCalls(methodcalls);
      if !description.IsValidRootTagSet(rootelements) {
        errcode := RequestState.InvalidRequest;
        return false;
      }
      isdone := true;
      return true;
    }
  }

  /** The list of pending values after looking at the first ones: theirs that stay and all the others. */
  ghost predicate HalfCollected(itemid: nat, nodes: seq<ValueNode>, seen: nat, pending: seq<ValueNode>, vidx: nat)
    requires seen <= |nodes|
  {
    pending == OthersOf(itemid, nodes[..seen]) + nodes[seen..] && vidx == |OthersOf(itemid, nodes[..seen])|
  }

  lemma {:induction false} CollectBegin(itemid: nat, nodes: seq<ValueNode>)
    ensures HalfCollected(itemid, nodes, 0, nodes, 0) && ValuesOf(itemid, nodes[..0]) == []
  {
    assert nodes[0..] == nodes && [] + nodes == nodes;
  }

  lemma {:induction false} CollectStep(itemid: nat, nodes: seq<ValueNode>, seen: nat, pending: seq<ValueNode>, vidx: nat)
    requires seen <= |nodes| && HalfCollected(itemid, nodes, seen, pending, vidx) && vidx != |pending|
    ensures seen < |nodes| && vidx < |pending| && pending[vidx] == nodes[seen]
    ensures ValuesOf(itemid, nodes[..seen + 1]) ==
            ValuesOf(itemid, nodes[..seen]) + if nodes[seen].itemid == itemid then [nodes[seen].value] else []
    ensures if nodes[seen].itemid == itemid
            then HalfCollected(itemid, nodes, seen + 1, pending[..vidx] + pending[vidx + 1..], vidx)
            else HalfCollected(itemid, nodes, seen + 1, pending, vidx + 1)
  {
    PrefixStep(itemid, nodes, seen);
    SplitStep(OthersOf(itemid, nodes[..seen]), nodes, seen, pending);
  }

  lemma {:induction false} CollectEnd(itemid: nat, nodes: seq<ValueNode>, seen: nat, pending: seq<ValueNode>, vidx: nat)
    requires seen <= |nodes| && HalfCollected(itemid, nodes, seen, pending, vidx) && vidx == |pending|
    ensures nodes[..seen] == nodes && pending == OthersOf(itemid, nodes)
  {
  }

  lemma {:induction false} PrefixStep(itemid: nat, nodes: seq<ValueNode>, seen: nat)
    requires seen < |nodes|
    ensures OthersOf(itemid, nodes[..seen + 1]) ==
            OthersOf(itemid, nodes[..seen]) + if nodes[seen].itemid != itemid then [nodes[seen]] else []
    ensures ValuesOf(itemid, nodes[..seen + 1]) ==
            ValuesOf(itemid, nodes[..seen]) + if nodes[seen].itemid == itemid then [nodes[seen].value] else []
  {
    assert nodes[..seen + 1][..seen] == nodes[..seen];
  }

  lemma {:induction false} SplitStep(others: seq<ValueNode>, nodes: seq<ValueNode>, seen: nat, pending: seq<ValueNode>)
    requires seen < |nodes| && pending == others + nodes[seen..]
    ensures pending == (others + [nodes[seen]]) + nodes[seen + 1..]
    ensures pending[..|others|] + pending[|others| + 1..] == others + nodes[seen + 1..]
  {
  }

  lemma {:induction false} NoneSuppressed(d: Description, def: nat, scope: Scope)
    requires def < |d.calldefs|
    ensures WithoutSuppressed(d, [], def, scope) == []
  {
  }

  lemma {:induction false} SuppressStep(d: Description, calls: seq<MethodCallNode>, def: nat, scope: Scope, mi: nat)
    requires 0 < mi <= |calls| && def < |d.calldefs|
    ensures var after := WithoutSuppressed(d, calls[mi..], def, scope);
            && calls[..mi] + after == calls[..mi - 1] + ([calls[mi - 1]] + after)
            && WithoutSuppressed(d, calls[mi - 1..], def, scope) ==
               (if IsSuppressed(d, def, scope, calls[mi - 1]) then [] else [calls[mi - 1]]) + after
  {
    assert calls[mi - 1..][1..] == calls[mi..];
    assert calls[..mi] == calls[..mi - 1] + [calls[mi - 1]];
  }

  lemma {:induction false} InvParts(d: Description, s: State)
    requires Inv(d, s)
    ensures d.Valid() && |s.scopeobjmap| == d.maxitemid + 1 && |s.eventstacks| == NOF_EVENT_TYPES
    ensures |s.scopestack| > 0 ==> Ready(d, s)
  {
  }

  lemma {:induction false} DrainNone(d: Description, s: State, value: Value)
    requires Ready(d, s)
    ensures DrainFrom(d, s, NOF_EVENT_TYPES, value) == (s, true)
  {
  }

  lemma {:induction false} PushAllKeeps(d: Description, s: State, evs: seq<AtmEvent>)
    requires Inv(d, s) && AllRegistered(d, evs)
    ensures Inv(d, s.(eventstacks := PushAll(s.eventstacks, evs)))
  {
    PushAllOk(d, s.eventstacks, evs);
    SameRecordsKeep(d, s, s.(eventstacks := PushAll(s.eventstacks, evs)));
  }

  lemma {:induction false} InvCalls(d: Description, s: State)
    requires Inv(d, s)
    ensures CallsOk(d, s.methodcalls) && d.Valid()
  {
  }

  lemma {:induction false} ScannedParts(d: Description, calls: seq<MethodCallNode>, def: nat, scope: Scope)
    requires def < |d.calldefs|
    ensures var k := TailStart(calls, scope.from);
            Scanned(d, calls, def, scope)
            == if HasCall(calls[k..], def, scope) then calls[..k] + WithoutSuppressed(d, calls[k..], def, scope) else calls
    ensures CallsOk(d, calls) ==> CallsOk(d, Scanned(d, calls, def, scope))
  {
    var k := TailStart(calls, scope.from);
    assert calls[..k] + calls[k..] == calls;
  }

  lemma {:induction false} TickKeeps(d: Description, s: State)
    requires Inv(d, s)
    ensures Inv(d, Tick(s))
  {
    TickOk(s.scopecnt, s.scopestack, Recorded(s));
    SameRecordsKeep(d, s, Tick(s));
  }

  lemma {:induction false} PushedKeeps(d: Description, s: State, tag: Value)
    requires Inv(d, s)
    ensures Inv(d, Pushed(s, tag))
  {
    OpenOk(s.scopecnt, s.scopestack, Recorded(s));
    SameRecordsKeep(d, s, Pushed(s, tag));
  }

  function Finished(s: State): State {
    s.(scopecnt := s.scopecnt + 1, methodcalls := SortCalls(s.methodcalls), done := true)
  }

  lemma {:induction false} DoneKeeps(d: Description, s: State)
    requires Inv(d, s)
    ensures Inv(d, Finished(s))
  {
    var calls := SortCalls(s.methodcalls);
    SortCallsSorts(s.methodcalls);
    forall mc ensures mc in calls <==> mc in s.methodcalls {
      assert mc in calls <==> mc in multiset(calls);
      assert mc in s.methodcalls <==> mc in multiset(s.methodcalls);
    }
    assert CallScopes(calls) == CallScopes(s.methodcalls);
    assert Recorded(Finished(s)) == Recorded(s);
    TickOk(s.scopecnt, s.scopestack, Recorded(s));
  }
}
