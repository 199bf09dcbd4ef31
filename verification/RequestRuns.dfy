/** What holds in every state a request can reach: the recorded scopes form a laminar family, the object
    maps are ordered, and the calls are listed in the order of recording. */
module RequestRuns {
  import opened Scopes
  import opened ScopeObjects
  import opened Sequences
  import opened RequestState

  // ---------------------------------------------------------------- recorded scopes

  ghost function MapScopes(maps: seq<seq<Entry>>): set<Scope> {
    set m, e | m in maps && e in m :: e.key.scope
  }

  ghost function CallScopes(calls: seq<MethodCallNode>): set<Scope> {
    set mc | mc in calls :: mc.scope
  }

  ghost function ResultScopes(refs: seq<ResultRef>): set<Scope> {
    set r | r in refs :: r.scope
  }

  /** Every scope under which something has been recorded. */
  ghost function Recorded(s: State): set<Scope> {
    MapScopes(s.scopeobjmap) + CallScopes(s.methodcalls) + ResultScopes(s.resultrefs)
  }

  /** The scope stack is strictly increasing, the recorded scopes lie in the past, are laminar, and none of them
      reaches over the start of an element that is still open. */
  ghost predicate ScopesOk(cnt: int, stack: seq<int>, recorded: set<Scope>) {
    && 0 <= cnt
    && (forall i, j :: 0 <= i < j < |stack| ==> stack[i] < stack[j])
    && (forall x :: x in stack ==> 0 <= x <= cnt)
    && (forall r :: r in recorded ==> 0 <= r.from && r.to <= cnt)
    && Laminar(recorded)
    && (forall x, r :: x in stack && r in recorded && r.from < x ==> r.to < x)
  }

  lemma {:induction false} RecordCurrent(cnt: int, stack: seq<int>, recorded: set<Scope>)
    requires ScopesOk(cnt, stack, recorded) && |stack| > 0
    ensures ScopesOk(cnt, stack, recorded + {Scope(stack[|stack| - 1], cnt)})
  {
    var top := stack[|stack| - 1];
    assert top in stack;
    forall r | r in recorded ensures NestedOrDisjoint(r, Scope(top, cnt)) && NestedOrDisjoint(Scope(top, cnt), r) {
    }
  }

  lemma {:induction false} RecordFewer(cnt: int, stack: seq<int>, recorded: set<Scope>, fewer: set<Scope>)
    requires ScopesOk(cnt, stack, recorded) && fewer <= recorded
    ensures ScopesOk(cnt, stack, fewer)
  {
  }

  lemma {:induction false} TickOk(cnt: int, stack: seq<int>, recorded: set<Scope>)
    requires ScopesOk(cnt, stack, recorded)
    ensures ScopesOk(cnt + 1, stack, recorded)
  {
  }

  lemma {:induction false} OpenOk(cnt: int, stack: seq<int>, recorded: set<Scope>)
    requires ScopesOk(cnt, stack, recorded)
    ensures ScopesOk(cnt + 1, stack + [cnt + 1], recorded)
  {
    var r := stack + [cnt + 1];
    forall i, j | 0 <= i < j < |r| ensures r[i] < r[j] {
      assert r[i] == stack[i] && stack[i] in stack;
    }
  }

  lemma {:induction false} CloseOk(cnt: int, stack: seq<int>, recorded: set<Scope>)
    requires ScopesOk(cnt, stack, recorded) && |stack| > 0
    ensures ScopesOk(cnt, stack[..|stack| - 1], recorded)
  {
    var r := stack[..|stack| - 1];
    forall i, j | 0 <= i < j < |r| ensures r[i] < r[j] {
      assert r[i] == stack[i] && r[j] == stack[j];
    }
    forall x | x in r ensures x in stack {
    }
  }

  // ---------------------------------------------------------------- the invariant

  ghost predicate Ordered(calls: seq<MethodCallNode>) {
    forall i, j :: 0 <= i < j < |calls| ==> calls[i].position <= calls[j].position
  }

  ghost predicate CallsOk(d: Description, calls: seq<MethodCallNode>) {
    forall mc :: mc in calls ==>
      mc.def < |d.calldefs| && mc.group == d.calldefs[mc.def].groupid && mc.position == mc.scope.to
  }

  ghost predicate Inv(d: Description, s: State) {
    && d.Valid() && |s.scopeobjmap| == d.maxitemid + 1 && StacksOk(d, s.eventstacks)
    && ScopesOk(s.scopecnt, s.scopestack, Recorded(s))
    && MapsSorted(s.scopeobjmap)
    && CallsOk(d, s.methodcalls) && (!s.done ==> Ordered(s.methodcalls))
  }

  lemma {:induction false} InitInv(d: Description)
    requires d.Valid()
    ensures Inv(d, InitState(d)) && Recorded(InitState(d)) == {}
  {
  }

  // ---------------------------------------------------------------- every automaton event keeps it

  lemma {:induction false} MapScopesUpdate(maps: seq<seq<Entry>>, i: nat, m: seq<Entry>, scope: Scope)
    requires i < |maps| && ScopesOf(m) == ScopesOf(maps[i]) + {scope}
    ensures MapScopes(maps[i := m]) <= MapScopes(maps) + {scope}
  {
    forall x | x in MapScopes(maps[i := m]) ensures x in MapScopes(maps) + {scope} {
      var m', e :| m' in maps[i := m] && e in m' && e.key.scope == x;
      if m' == m {
        assert x in ScopesOf(m);
        if x != scope { assert x in ScopesOf(maps[i]); }
      }
    }
  }

  ghost predicate MapsSorted(maps: seq<seq<Entry>>) {
    forall i :: 0 <= i < |maps| ==> Sorted(maps[i])
  }

  lemma {:induction false} InsertRefKeeps(maps: seq<seq<Entry>>, itemid: nat, scope: Scope, kind: ScopeKeyType, ref: ObjectRef, level: nat)
    requires itemid < |maps| && MapsSorted(maps)
    ensures var r := InsertRef(maps, itemid, scope, kind, ref, level);
            MapsSorted(r) && MapScopes(r) <= MapScopes(maps) + {scope}
  {
    var e := Entry(ScopeKey(scope, kind), ref, level);
    InsertScopes(maps[itemid], e);
    InsertKeepsSorted(maps[itemid], e);
    MapScopesUpdate(maps, itemid, Insert(maps[itemid], e), scope);
  }

  lemma {:induction false} InsertValuesKeeps(maps: seq<seq<Entry>>, itemid: nat, scope: Scope, level: nat, first: nat, nof: nat)
    requires itemid < |maps| && MapsSorted(maps)
    ensures var r := InsertValues(maps, itemid, scope, level, first, nof);
            MapsSorted(r) && MapScopes(r) <= MapScopes(maps) + {scope}
  {
    if nof > 0 {
      InsertValuesKeeps(maps, itemid, scope, level, first, nof - 1);
      InsertRefKeeps(InsertValues(maps, itemid, scope, level, first, nof - 1), itemid, scope, ValueScope, ValueRef(first + nof - 1), level);
    }
  }

  /** The invariant only depends on the counter, the stack and the records. */
  lemma {:induction false} SameRecordsKeep(d: Description, s: State, r: State)
    requires Inv(d, s)
    requires r.scopeobjmap == s.scopeobjmap && r.methodcalls == s.methodcalls && r.resultrefs == s.resultrefs
    requires r.done == s.done && StacksOk(d, r.eventstacks)
    requires ScopesOk(r.scopecnt, r.scopestack, Recorded(s))
    ensures Inv(d, r) && Recorded(r) == Recorded(s)
  {
  }

  /** Recording more objects in the current scope keeps the invariant. */
  lemma {:induction false} MoreObjectsKeep(d: Description, s: State, r: State)
    requires Inv(d, s) && |s.scopestack| > 0
    requires r.scopecnt == s.scopecnt && r.scopestack == s.scopestack && r.done == s.done && r.eventstacks == s.eventstacks
    requires r.methodcalls == s.methodcalls && r.resultrefs == s.resultrefs
    requires |r.scopeobjmap| == |s.scopeobjmap| && MapsSorted(r.scopeobjmap)
    requires MapScopes(r.scopeobjmap) <= MapScopes(s.scopeobjmap) + {CurScope(s)}
    ensures Inv(d, r)
  {
    RecordCurrent(s.scopecnt, s.scopestack, Recorded(s));
    RecordFewer(s.scopecnt, s.scopestack, Recorded(s) + {CurScope(s)}, Recorded(r));
  }

  lemma {:induction false} ScannedKeeps(d: Description, s: State, def: nat)
    requires Inv(d, s) && |s.scopestack| > 0 && def < |d.calldefs|
    ensures Inv(d, s.(methodcalls := Scanned(d, s.methodcalls, def, CurScope(s))))
  {
    var calls := Scanned(d, s.methodcalls, def, CurScope(s));
    var r := s.(methodcalls := calls);
    assert forall mc :: mc in calls ==> mc in s.methodcalls;
    assert CallScopes(calls) <= CallScopes(s.methodcalls);
    RecordFewer(s.scopecnt, s.scopestack, Recorded(s), Recorded(r));
    if !s.done {
      CallsOfScopeAreTail(d, s);
      ScannedIsPrioritized(d, s.methodcalls, def, CurScope(s));
      PrioritizedOrdered(d, s.methodcalls, def, CurScope(s));
    }
  }

  lemma {:induction false} PrioritizedOrdered(d: Description, calls: seq<MethodCallNode>, def: nat, scope: Scope)
    requires Ordered(calls) && def < |d.calldefs|
    ensures Ordered(Prioritized(d, calls, def, scope))
  {
    FilterKeepsOrder((mc: MethodCallNode) => !IsSuppressed(d, def, scope, mc), calls);
  }

  lemma {:induction false} FilterKeepsOrder(p: MethodCallNode -> bool, calls: seq<MethodCallNode>)
    requires Ordered(calls)
    ensures Ordered(Filter(p, calls))
  {
    if calls != [] {
      FilterKeepsOrder(p, calls[1..]);
      var rest := Filter(p, calls[1..]);
      forall i | 0 <= i < |rest| ensures calls[0].position <= rest[i].position {
        assert rest[i] in rest;
        assert rest[i] in calls[1..];
        var k :| 0 <= k < |calls[1..]| && calls[1..][k] == rest[i];
        assert calls[k + 1] == rest[i];
      }
    }
  }

  lemma {:induction false} CollectKeeps(d: Description, s: State, itemid: nat)
    requires Inv(d, s) && |s.scopestack| > 0 && itemid < |s.scopeobjmap|
    ensures Inv(d, Collected(s, itemid).0)
  {
    var vals := ValuesOf(itemid, s.valuenodes);
    InsertValuesKeeps(s.scopeobjmap, itemid, CurScope(s), |s.scopestack|, |s.values|, if vals == [] then 1 else |vals|);
    MoreObjectsKeep(d, s, Collected(s, itemid).0);
  }

  lemma {:induction false} StructKeeps(d: Description, s: State, i: nat, r: State)
    requires Inv(d, s) && |s.scopestack| > 0 && i < |d.structitems|
    requires r == ProcessEvent(d, s, CloseStruct(i), None).0
    ensures Inv(d, r)
  {
    InsertRefKeeps(s.scopeobjmap, d.structitems[i], CurScope(s), ObjectScope, StructRef(|s.structs|), |s.scopestack|);
    MoreObjectsKeep(d, s, r);
  }

  lemma {:induction false} AppendCallOrdered(calls: seq<MethodCallNode>, mc: MethodCallNode)
    requires Ordered(calls) && forall c :: c in calls ==> c.position <= mc.position
    ensures Ordered(calls + [mc])
    ensures CallScopes(calls + [mc]) == CallScopes(calls) + {mc.scope}
  {
    var r := calls + [mc];
    forall i, j | 0 <= i < j < |r| ensures r[i].position <= r[j].position {
      assert r[i] in calls;
    }
    forall x ensures x in CallScopes(r) <==> x in CallScopes(calls) + {mc.scope} {
      if x in CallScopes(calls) {
        var c :| c in calls && c.scope == x;
        assert c in r;
      }
      if x == mc.scope { assert mc in r; }
    }
  }

  lemma {:induction false} CallKeeps(d: Description, s: State, i: nat, errcode: ErrorCode)
    requires Inv(d, s) && |s.scopestack| > 0 && i < |d.calldefs|
    ensures var mc := MethodCallNode(d.calldefs[i].groupid, s.scopecnt, i, CurScope(s), |s.scopestack|);
            Inv(d, s.(methodcalls := s.methodcalls + [mc], errcode := errcode))
  {
    var mc := MethodCallNode(d.calldefs[i].groupid, s.scopecnt, i, CurScope(s), |s.scopestack|);
    var r := s.(methodcalls := s.methodcalls + [mc], errcode := errcode);
    RecordCurrent(s.scopecnt, s.scopestack, Recorded(s));
    if !s.done {
      forall c | c in s.methodcalls ensures c.position <= mc.position {
        assert c.scope in Recorded(s);
      }
      AppendCallOrdered(s.methodcalls, mc);
    }
    assert Recorded(r) <= Recorded(s) + {CurScope(s)};
    RecordFewer(s.scopecnt, s.scopestack, Recorded(s) + {CurScope(s)}, Recorded(r));
  }

  lemma {:induction false} ResultKeeps(d: Description, s: State, k: nat, i: nat)
    requires Inv(d, s) && |s.scopestack| > 0
    ensures Inv(d, ResultRecorded(d, s, k, i).0)
  {
    var r := ResultRecorded(d, s, k, i).0;
    RecordCurrent(s.scopecnt, s.scopestack, Recorded(s));
    RecordFewer(s.scopecnt, s.scopestack, Recorded(s) + {CurScope(s)}, Recorded(r));
  }

  lemma {:induction false} ProcessEventKeeps(d: Description, s: State, ev: AtmEvent, value: Value)
    requires Inv(d, s) && |s.scopestack| > 0 && IsRegistered(d, ev)
    ensures Inv(d, ProcessEvent(d, s, ev, value).0)
  {
    match ev
    case CollectValue(i) => CollectKeeps(d, s, d.valueitems[i]);
    case CloseStruct(i) => StructKeeps(d, s, i, ProcessEvent(d, s, CloseStruct(i), None).0);
    case MethodCall(i) => CallKeeps(d, s, i, if s.done then ExecutionOrder else s.errcode);
    case MethodCallPrioritize(i) => ScannedKeeps(d, s, i);
    case ResultInstruction(k, i) => ResultKeeps(d, s, k, i);
    case InstantiateValue(_) => SameRecordsKeep(d, s, ProcessEvent(d, s, ev, value).0);
    case InheritFrom(_) =>
  }

  lemma {:induction false} DrainFromKeeps(d: Description, s: State, t: nat, value: Value)
    requires Inv(d, s) && |s.scopestack| > 0 && t <= NOF_EVENT_TYPES
    ensures Inv(d, DrainFrom(d, s, t, value).0)
    decreases NOF_EVENT_TYPES - t, if t < NOF_EVENT_TYPES then |s.eventstacks[t]| else 0
  {
    if t == NOF_EVENT_TYPES {
    } else if s.eventstacks[t] == [] {
      DrainFromKeeps(d, s, t + 1, value);
    } else {
      var n := |s.eventstacks[t]| - 1;
      var s0 := s.(eventstacks := s.eventstacks[t := s.eventstacks[t][..n]]);
      assert Recorded(s0) == Recorded(s);
      ProcessEventFrame(d, s0, s.eventstacks[t][n], value);
      ProcessEventKeeps(d, s0, s.eventstacks[t][n], value);
      var (s1, ok) := ProcessEvent(d, s0, s.eventstacks[t][n], value);
      if ok { DrainFromKeeps(d, s1, t, value); }
    }
  }

  lemma {:induction false} ProcessEventsKeeps(d: Description, s: State, evs: seq<AtmEvent>, value: Value)
    requires Inv(d, s) && |s.scopestack| > 0 && AllRegistered(d, evs)
    ensures Inv(d, ProcessEvents(d, s, evs, value).0)
  {
    PushAllOk(d, s.eventstacks, evs);
    var s0 := s.(eventstacks := PushAll(s.eventstacks, evs));
    assert Recorded(s0) == Recorded(s);
    DrainFromKeeps(d, s0, 0, value);
  }

  /** Every input event keeps the invariant, whether it succeeds or fails. */
  lemma {:induction false} FeedKeeps(d: Description, s: State, input: InputEvent)
    requires Inv(d, s) && |s.scopestack| > 0 && AllRegistered(d, input.evs)
    ensures Inv(d, Feed(d, s, input).0)
  {
    TickOk(s.scopecnt, s.scopestack, Recorded(s));
    SameRecordsKeep(d, s, Tick(s));
    match input
    case OpenTag(tag, evs) => OpenedKeeps(d, s, tag, evs);
    case AttributeName(name, evs) => ProcessEventsKeeps(d, Tick(s), evs, name);
    case AttributeValue(value, evs) => ProcessEventsKeeps(d, Tick(s), evs, value);
    case Content(value, evs) => ProcessEventsKeeps(d, Tick(s), evs, value);
    case CloseTag(evs) => ClosedKeeps(d, s, evs);
  }

  lemma {:induction false} OpenedKeeps(d: Description, s: State, tag: Value, evs: seq<AtmEvent>)
    requires Inv(d, s) && |s.scopestack| > 0 && AllRegistered(d, evs)
    ensures Inv(d, Opened(d, s, tag, evs).0)
  {
    hide ProcessEvents, CallsOk, MapsSorted, ScopesOk, StacksOk;
    TickOk(s.scopecnt, s.scopestack, Recorded(s));
    if |s.scopestack| <= 1 && tag == Some("") {
      SameRecordsKeep(d, s, Opened(d, s, tag, evs).0);
    } else {
      var s0 := Pushed(s, tag);
      OpenOk(s.scopecnt, s.scopestack, Recorded(s));
      SameRecordsKeep(d, s, s0);
      ProcessEventsKeeps(d, s0, evs, tag);
    }
  }

  lemma {:induction false} PopKeeps(d: Description, s: State)
    requires Inv(d, s) && |s.scopestack| > 0
    ensures Inv(d, s.(scopestack := s.scopestack[..|s.scopestack| - 1]))
  {
    CloseOk(s.scopecnt, s.scopestack, Recorded(s));
    SameRecordsKeep(d, s, s.(scopestack := s.scopestack[..|s.scopestack| - 1]));
  }

  lemma {:induction false} ClosedKeeps(d: Description, s: State, evs: seq<AtmEvent>)
    requires Inv(d, s) && |s.scopestack| > 0 && AllRegistered(d, evs)
    ensures Inv(d, Closed(d, s, evs).0)
  {
    TickOk(s.scopecnt, s.scopestack, Recorded(s));
    SameRecordsKeep(d, s, Tick(s));
    ProcessEventsKeeps(d, Tick(s), evs, None);
    PopKeeps(d, ProcessEvents(d, Tick(s), evs, None).0);
  }

  // ---------------------------------------------------------------- runs

  /** The state after feeding all events, going on even after a failing one, as long as there is an open scope. */
  ghost function Run(d: Description, inputs: seq<InputEvent>): (s: State)
    requires d.Valid() && forall i :: 0 <= i < |inputs| ==> AllRegistered(d, inputs[i].evs)
    ensures Inv(d, s)
    decreases |inputs|
  {
    if inputs == [] then
      InitInv(d);
      InitState(d)
    else
      var s := Run(d, inputs[..|inputs| - 1]);
      if s.scopestack == [] then s
      else
        FeedKeeps(d, s, inputs[|inputs| - 1]);
        Feed(d, s, inputs[|inputs| - 1]).0
  }

  /** The scopes recorded in a run are intervals, pairwise nested or disjoint, and the numbers of its events. */
  lemma {:induction false} RunsAreLaminar(d: Description, inputs: seq<InputEvent>, a: Scope, b: Scope)
    requires d.Valid() && forall i :: 0 <= i < |inputs| ==> AllRegistered(d, inputs[i].evs)
    requires a in Recorded(Run(d, inputs)) && b in Recorded(Run(d, inputs))
    ensures 0 <= a.from <= a.to <= Run(d, inputs).scopecnt <= |inputs|
    ensures b.from <= a.from <= a.to <= b.to || a.from <= b.from <= b.to <= a.to || a.to < b.from || b.to < a.from
  {
    hide Run, Recorded, Inv;
    RunCounts(d, inputs);
    RecordedScopes(d, Run(d, inputs), a);
    RecordedScopes(d, Run(d, inputs), b);
    RecordedPair(d, Run(d, inputs), a, b);
  }

  lemma {:induction false} RecordedScopes(d: Description, s: State, a: Scope)
    requires Inv(d, s) && a in Recorded(s)
    ensures 0 <= a.from <= a.to <= s.scopecnt
  {
    hide Recorded;
  }

  lemma {:induction false} RecordedPair(d: Description, s: State, a: Scope, b: Scope)
    requires Inv(d, s) && a in Recorded(s) && b in Recorded(s)
    ensures NestedOrDisjoint(a, b)
  {
    hide Recorded;
  }

  lemma {:induction false} RunCounts(d: Description, inputs: seq<InputEvent>)
    requires d.Valid() && forall i :: 0 <= i < |inputs| ==> AllRegistered(d, inputs[i].evs)
    ensures Run(d, inputs).scopecnt <= |inputs| && !Run(d, inputs).done
    decreases |inputs|
  {
    if inputs != [] {
      RunCounts(d, inputs[..|inputs| - 1]);
      var s := Run(d, inputs[..|inputs| - 1]);
      if s.scopestack != [] { FeedFrame(d, s, inputs[|inputs| - 1]); }
    }
  }

  /** The object maps of a state are what the item resolver needs, as long as event numbers fit a machine integer. */
  lemma {:induction false} MapsAreValid(d: Description, s: State, itemid: nat)
    requires Inv(d, s) && s.scopecnt <= INT_MAX && itemid < |s.scopeobjmap|
    ensures ValidMap(s.scopeobjmap[itemid])
  {
    var m := s.scopeobjmap[itemid];
    assert m in s.scopeobjmap;
    forall e | e in m ensures e.key.scope in Recorded(s) {
    }
    assert ScopesOf(m) <= Recorded(s);
    RecordFewer(s.scopecnt, s.scopestack, Recorded(s), ScopesOf(m));
  }

  // ---------------------------------------------------------------- prioritisation

  /** A call lies in the current scope exactly if it was recorded since that scope was opened. */
  lemma {:induction false} InsideMeansRecordedSince(d: Description, s: State, mc: MethodCallNode)
    requires Inv(d, s) && !s.done && |s.scopestack| > 0 && mc in s.methodcalls
    ensures mc.scope.Inside(CurScope(s)) <==> mc.position >= CurScope(s).from
    ensures mc.scope.from >= CurScope(s).from <==> mc.position >= CurScope(s).from
  {
    assert mc.scope in Recorded(s);
    assert CurScope(s).from in s.scopestack;
  }

  /** Once a call from before the scope is met going backward, there are only calls from before the scope. */
  ghost predicate ScopeIsTail(calls: seq<MethodCallNode>, scope: Scope) {
    forall i, k :: 0 <= k <= i < |calls| && calls[i].scope.from < scope.from ==> !calls[k].scope.Inside(scope)
  }

  /** The calls of the current scope are a tail of the list, so a backward scan can stop at the first other one. */
  lemma {:induction false} CallsOfScopeAreTail(d: Description, s: State)
    requires Inv(d, s) && !s.done && |s.scopestack| > 0
    ensures ScopeIsTail(s.methodcalls, CurScope(s))
  {
    var calls := s.methodcalls;
    forall i, k | 0 <= k <= i < |calls| && calls[i].scope.from < CurScope(s).from
      ensures !calls[k].scope.Inside(CurScope(s))
    {
      InsideMeansRecordedSince(d, s, calls[i]);
      InsideMeansRecordedSince(d, s, calls[k]);
      assert k < i ==> calls[k].position <= calls[i].position;
    }
  }

  /** If they are a tail, the scan is a filter over the whole list. */
  lemma {:induction false} ScannedIsPrioritized(d: Description, calls: seq<MethodCallNode>, def: nat, scope: Scope)
    requires ScopeIsTail(calls, scope) && def < |d.calldefs|
    ensures Scanned(d, calls, def, scope) == Prioritized(d, calls, def, scope)
  {
    TailStarts(calls, scope.from);
    var k := TailStart(calls, scope.from);
    var keep := (mc: MethodCallNode) => !IsSuppressed(d, def, scope, mc);
    assert calls == calls[..k] + calls[k..];
    assert forall mc :: mc in calls[..k] ==> !mc.scope.Inside(scope);
    FilterAll(keep, calls[..k]);
    FilterConcat(keep, calls[..k], calls[k..]);
  }

  /** A call recorded since the current scope opened. */
  ghost predicate Since(s: State, c: MethodCallNode)
    requires |s.scopestack| > 0
  {
    c in s.methodcalls && c.position >= CurScope(s).from
  }

  /** The calls behind the first one that the scan does not reach are those that matter. */
  lemma {:induction false} TailHolds(calls: seq<MethodCallNode>, scope: Scope, c: MethodCallNode)
    requires ScopeIsTail(calls, scope) && c.scope.Inside(scope)
    ensures c in calls[TailStart(calls, scope.from)..] <==> c in calls
  {
    var k := TailStart(calls, scope.from);
    TailStarts(calls, scope.from);
    assert calls == calls[..k] + calls[k..];
  }

  lemma {:induction false} TailIsSince(d: Description, s: State)
    requires Inv(d, s) && !s.done && |s.scopestack| > 0
    ensures var tail := s.methodcalls[TailStart(s.methodcalls, CurScope(s).from)..];
            forall c :: c in tail && c.scope.Inside(CurScope(s)) <==> Since(s, c)
  {
    hide Inv, ScopeIsTail, TailStart;
    var tail := s.methodcalls[TailStart(s.methodcalls, CurScope(s).from)..];
    CallsOfScopeAreTail(d, s);
    forall c ensures c in tail && c.scope.Inside(CurScope(s)) <==> Since(s, c) {
      if c in s.methodcalls {
        InsideMeansRecordedSince(d, s, c);
        if c.scope.Inside(CurScope(s)) { TailHolds(s.methodcalls, CurScope(s), c); }
      }
    }
  }

  /** The scans compare with a missing name exactly if the prioritised definition has no result name and was called
      since the scope opened, and another definition that has one was called since then too. */
  lemma {:induction false} NameIsMissedIff(d: Description, s: State, def: nat)
    requires Inv(d, s) && !s.done && |s.scopestack| > 0 && def < |d.calldefs|
    ensures NameIsMissed(d, s.methodcalls[TailStart(s.methodcalls, CurScope(s).from)..], def, CurScope(s))
       <==> && d.calldefs[def].resultvarname.None? && (exists c :: Since(s, c) && c.def == def)
            && exists c :: Since(s, c) && c.def < |d.calldefs| && c.def != def && d.calldefs[c.def].resultvarname.Some?
  {
    var tail := s.methodcalls[TailStart(s.methodcalls, CurScope(s).from)..];
    TailIsSince(d, s);
    forall c ensures (c in tail && IsCallOf(def, CurScope(s), c)) <==> (Since(s, c) && c.def == def) {}
    forall c
      ensures (c in tail && ComparesMissing(d, def, CurScope(s), c))
         <==> (Since(s, c) && c.def < |d.calldefs| && c.def != def && d.calldefs[c.def].resultvarname.Some? && d.calldefs[def].resultvarname.None?)
    {}
  }

  /** What prioritisation does: nothing without a call of the prioritised definition since the scope opened;
      otherwise exactly the competing calls recorded since then disappear. */
  lemma {:induction false} PrioritizedMeaning(d: Description, s: State, def: nat, mc: MethodCallNode)
    requires Inv(d, s) && !s.done && |s.scopestack| > 0 && def < |d.calldefs| && mc in s.methodcalls
    ensures (forall c :: c in s.methodcalls && c.position >= CurScope(s).from ==> c.def != def) ==>
              Scanned(d, s.methodcalls, def, CurScope(s)) == s.methodcalls
    ensures (exists c :: c in s.methodcalls && c.position >= CurScope(s).from && c.def == def) ==>
              (mc in Scanned(d, s.methodcalls, def, CurScope(s)) <==>
               !(mc.position >= CurScope(s).from && mc.def != def
                 && d.calldefs[mc.def].resultvarname == d.calldefs[def].resultvarname))
  {
    CallsOfScopeAreTail(d, s);
    ScannedIsPrioritized(d, s.methodcalls, def, CurScope(s));
    forall c | c in s.methodcalls ensures c.scope.Inside(CurScope(s)) <==> c.position >= CurScope(s).from {
      InsideMeansRecordedSince(d, s, c);
    }
    assert forall c :: c in s.methodcalls ==> (IsCallOf(def, CurScope(s), c) <==> c.position >= CurScope(s).from && c.def == def);
  }

  // ---------------------------------------------------------------- order of the events of one input

  ghost function ProcessAll(d: Description, s: State, evs: seq<AtmEvent>, value: Value): (r: (State, bool))
    requires Ready(d, s) && AllRegistered(d, evs)
    ensures Ready(d, r.0)
    decreases |evs|
  {
    if evs == [] then (s, true)
    else
      assert evs[0] in evs;
      ProcessEventFrame(d, s, evs[0], value);
      var (s1, ok) := ProcessEvent(d, s, evs[0], value);
      if ok then ProcessAll(d, s1, evs[1..], value) else (s1, false)
  }

  lemma {:induction false} ProcessAllFirst(d: Description, s: State, ev: AtmEvent, evs: seq<AtmEvent>, value: Value)
    requires Ready(d, s) && IsRegistered(d, ev) && AllRegistered(d, evs)
    ensures AllRegistered(d, [ev] + evs)
    ensures var (s1, ok) := ProcessEvent(d, s, ev, value);
            && (ok ==> Ready(d, s1) && ProcessAll(d, s, [ev] + evs, value) == ProcessAll(d, s1, evs, value))
            && (!ok ==> ProcessAll(d, s, [ev] + evs, value) == (s1, false))
  {
    ProcessEventFrame(d, s, ev, value);
    assert ([ev] + evs)[1..] == evs;
  }

  function OfType(evs: seq<AtmEvent>, t: nat): seq<AtmEvent> {
    Filter((ev: AtmEvent) => Rank(ev) == t, evs)
  }

  /** The order in which the events of one input take effect: by type, and the last triggered first. */
  function EventOrder(evs: seq<AtmEvent>, t: nat): seq<AtmEvent>
    requires t <= NOF_EVENT_TYPES
    decreases NOF_EVENT_TYPES - t
  {
    if t == NOF_EVENT_TYPES then []
    else Reverse(OfType(evs, t)) + EventOrder(evs, t + 1)
  }

  lemma {:induction false} EventOrderMembers(evs: seq<AtmEvent>, t: nat)
    requires t <= NOF_EVENT_TYPES
    ensures forall ev :: ev in EventOrder(evs, t) <==> ev in evs && Rank(ev) >= t
    decreases NOF_EVENT_TYPES - t
  {
    if t < NOF_EVENT_TYPES {
      EventOrderMembers(evs, t + 1);
      ReverseMembers(OfType(evs, t));
    }
  }

  ghost predicate ByType(evs: seq<AtmEvent>) {
    forall i, j :: 0 <= i < j < |evs| ==> Rank(evs[i]) <= Rank(evs[j])
  }

  lemma {:induction false} OneType(evs: seq<AtmEvent>, t: nat)
    ensures forall ev :: ev in Reverse(OfType(evs, t)) ==> Rank(ev) == t
  {
    ReverseMembers(OfType(evs, t));
  }

  lemma {:induction false} ByTypeConcat(a: seq<AtmEvent>, b: seq<AtmEvent>, t: nat)
    requires (forall ev :: ev in a ==> Rank(ev) == t) && (forall ev :: ev in b ==> Rank(ev) > t) && ByType(b)
    ensures ByType(a + b)
  {
    var r := a + b;
    forall i, j | 0 <= i < j < |r| ensures Rank(r[i]) <= Rank(r[j]) {
      if i < |a| {
        assert r[i] in a;
        assert r[j] in a || r[j] in b;
      }
    }
  }

  /** Values are instantiated before they are collected, then structures are closed, calls recorded, calls
      prioritised, contexts inherited and results instructed, in whatever order the automaton triggered them. */
  lemma {:induction false} EventOrderByType(evs: seq<AtmEvent>, t: nat)
    requires t <= NOF_EVENT_TYPES
    ensures ByType(EventOrder(evs, t))
    decreases NOF_EVENT_TYPES - t
  {
    if t < NOF_EVENT_TYPES {
      EventOrderByType(evs, t + 1);
      OneType(evs, t);
      EventOrderMembers(evs, t + 1);
      ByTypeConcat(Reverse(OfType(evs, t)), EventOrder(evs, t + 1), t);
    }
  }

  /** The same by the kinds of events. */
  lemma {:induction false} EventOrderIsFixed(evs: seq<AtmEvent>, i: nat, j: nat)
    requires i < j < |EventOrder(evs, 0)|
    ensures var a, b := EventOrder(evs, 0)[i], EventOrder(evs, 0)[j];
            && (b.InstantiateValue? ==> a.InstantiateValue?)
            && (b.CollectValue? ==> a.InstantiateValue? || a.CollectValue?)
            && (b.CloseStruct? ==> a.InstantiateValue? || a.CollectValue? || a.CloseStruct?)
            && (a.MethodCall? ==> b.MethodCall? || b.MethodCallPrioritize? || b.InheritFrom? || b.ResultInstruction?)
            && (a.MethodCallPrioritize? ==> b.MethodCallPrioritize? || b.InheritFrom? || b.ResultInstruction?)
            && (a.InheritFrom? ==> b.InheritFrom? || b.ResultInstruction?)
            && (a.ResultInstruction? ==> b.ResultInstruction?)
  {
    EventOrderByType(evs, 0);
  }

  ghost predicate NoneLeft(stacks: seq<seq<AtmEvent>>, t: nat) {
    |stacks| == NOF_EVENT_TYPES && forall k :: 0 <= k < t && k < NOF_EVENT_TYPES ==> stacks[k] == []
  }

  function Waiting(stacks: seq<seq<AtmEvent>>, t: nat): seq<AtmEvent>
    requires |stacks| == NOF_EVENT_TYPES && t <= NOF_EVENT_TYPES
    decreases NOF_EVENT_TYPES - t
  {
    if t == NOF_EVENT_TYPES then [] else Reverse(stacks[t]) + Waiting(stacks, t + 1)
  }

  function WithoutWaiting(s: State): State {
    s.(eventstacks := seq(NOF_EVENT_TYPES, _ => []))
  }

  lemma {:induction false} ProcessEventIgnoresWaiting(d: Description, s: State, ev: AtmEvent, value: Value)
    requires Ready(d, s) && IsRegistered(d, ev)
    ensures ProcessEvent(d, WithoutWaiting(s), ev, value).0 == WithoutWaiting(ProcessEvent(d, s, ev, value).0)
    ensures ProcessEvent(d, WithoutWaiting(s), ev, value).1 == ProcessEvent(d, s, ev, value).1
  {
    hide Insert, InsertRef, InsertValues, Scanned, ValuesOf, OthersOf;
  }

  lemma {:induction false} WaitingMembers(d: Description, stacks: seq<seq<AtmEvent>>, t: nat)
    requires StacksOk(d, stacks) && t <= NOF_EVENT_TYPES
    ensures AllRegistered(d, Waiting(stacks, t))
    decreases NOF_EVENT_TYPES - t
  {
    if t < NOF_EVENT_TYPES {
      WaitingMembers(d, stacks, t + 1);
      ReverseMembers(stacks[t]);
    }
  }

  lemma {:induction false} WaitingOnlyAbove(a: seq<seq<AtmEvent>>, b: seq<seq<AtmEvent>>, t: nat)
    requires |a| == |b| == NOF_EVENT_TYPES && t <= NOF_EVENT_TYPES
    requires forall k :: t <= k < NOF_EVENT_TYPES ==> a[k] == b[k]
    ensures Waiting(a, t) == Waiting(b, t)
    decreases NOF_EVENT_TYPES - t
  {
    if t < NOF_EVENT_TYPES { WaitingOnlyAbove(a, b, t + 1); }
  }

  lemma {:induction false} FirstOfConcat<T>(s: seq<T>, above: seq<T>)
    requires s != []
    ensures Reverse(s) + above == [s[|s| - 1]] + (Reverse(s[..|s| - 1]) + above)
  {
    ReverseLast(s);
    Associative([s[|s| - 1]], Reverse(s[..|s| - 1]), above);
  }

  lemma {:induction false} PopIsFirstWaiting(stacks: seq<seq<AtmEvent>>, t: nat, after: seq<seq<AtmEvent>>)
    requires |stacks| == NOF_EVENT_TYPES && t < NOF_EVENT_TYPES && stacks[t] != []
    requires after == stacks[t := stacks[t][..|stacks[t]| - 1]]
    ensures Waiting(stacks, t) == [stacks[t][|stacks[t]| - 1]] + Waiting(after, t)
  {
    WaitingOnlyAbove(stacks, after, t + 1);
    FirstOfConcat(stacks[t], Waiting(stacks, t + 1));
  }

  /** The state with the last event of a stack taken away. */
  function Popped(s: State, t: nat): State
    requires |s.eventstacks| == NOF_EVENT_TYPES && t < NOF_EVENT_TYPES && s.eventstacks[t] != []
  {
    s.(eventstacks := s.eventstacks[t := s.eventstacks[t][..|s.eventstacks[t]| - 1]])
  }

  lemma {:induction false} PoppedIsReady(d: Description, s: State, t: nat)
    requires Ready(d, s) && t < NOF_EVENT_TYPES && s.eventstacks[t] != []
    ensures Ready(d, Popped(s, t)) && IsRegistered(d, s.eventstacks[t][|s.eventstacks[t]| - 1])
    ensures WithoutWaiting(Popped(s, t)) == WithoutWaiting(s) && Ready(d, WithoutWaiting(s))
  {
  }

  /** The event taken away is the first one waiting. */
  lemma {:induction false} ProcessFirstWaiting(d: Description, s: State, t: nat, value: Value)
    requires Ready(d, s) && t < NOF_EVENT_TYPES && s.eventstacks[t] != []
    requires Ready(d, Popped(s, t)) && IsRegistered(d, s.eventstacks[t][|s.eventstacks[t]| - 1])
    ensures var after := Waiting(Popped(s, t).eventstacks, t);
            var (s1, ok) := ProcessEvent(d, Popped(s, t), s.eventstacks[t][|s.eventstacks[t]| - 1], value);
            && AllRegistered(d, Waiting(s.eventstacks, t)) && AllRegistered(d, after)
            && Ready(d, WithoutWaiting(s)) && Ready(d, WithoutWaiting(s1))
            && ProcessAll(d, WithoutWaiting(s), Waiting(s.eventstacks, t), value)
               == (if ok then ProcessAll(d, WithoutWaiting(s1), after, value) else (WithoutWaiting(s1), false))
  {
    var ev, s0 := s.eventstacks[t][|s.eventstacks[t]| - 1], Popped(s, t);
    PoppedIsReady(d, s, t);
    WaitingMembers(d, s.eventstacks, t);
    WaitingMembers(d, s0.eventstacks, t);
    PopIsFirstWaiting(s.eventstacks, t, s0.eventstacks);
    ProcessEventIgnoresWaiting(d, s0, ev, value);
    ProcessEventFrame(d, s0, ev, value);
    ProcessAllFirst(d, WithoutWaiting(s), ev, Waiting(s0.eventstacks, t), value);
  }

  /** One step: the last event of the first stack that is not empty is processed. */
  lemma {:induction false} DrainOne(d: Description, s: State, t: nat, value: Value) returns (step: (State, bool))
    requires Ready(d, s) && t < NOF_EVENT_TYPES && NoneLeft(s.eventstacks, t) && s.eventstacks[t] != []
    ensures Ready(d, step.0) && step.0.eventstacks == Popped(s, t).eventstacks && NoneLeft(step.0.eventstacks, t)
    ensures DrainFrom(d, s, t, value) == (if step.1 then DrainFrom(d, step.0, t, value) else (step.0, false))
    ensures AllRegistered(d, Waiting(s.eventstacks, t)) && AllRegistered(d, Waiting(step.0.eventstacks, t))
    ensures Ready(d, WithoutWaiting(s)) && Ready(d, WithoutWaiting(step.0))
    ensures ProcessAll(d, WithoutWaiting(s), Waiting(s.eventstacks, t), value)
            == (if step.1 then ProcessAll(d, WithoutWaiting(step.0), Waiting(step.0.eventstacks, t), value)
                else (WithoutWaiting(step.0), false))
  {
    var ev := s.eventstacks[t][|s.eventstacks[t]| - 1];
    PoppedIsReady(d, s, t);
    ProcessEventFrame(d, Popped(s, t), ev, value);
    ProcessFirstWaiting(d, s, t, value);
    step := ProcessEvent(d, Popped(s, t), ev, value);
  }

  /** Emptying the stacks is processing the waiting events one after the other up to the first failure;
      without a failure nothing is left waiting. */
  lemma {:induction false} DrainIsInOrder(d: Description, s: State, t: nat, value: Value)
    requires Ready(d, s) && t <= NOF_EVENT_TYPES && NoneLeft(s.eventstacks, t)
    ensures AllRegistered(d, Waiting(s.eventstacks, t))
    ensures var (r, ok) := DrainFrom(d, s, t, value);
            && ProcessAll(d, WithoutWaiting(s), Waiting(s.eventstacks, t), value) == (WithoutWaiting(r), ok)
            && (ok ==> NoneLeft(r.eventstacks, NOF_EVENT_TYPES))
    decreases NOF_EVENT_TYPES - t, if t < NOF_EVENT_TYPES then |s.eventstacks[t]| else 0
  {
    WaitingMembers(d, s.eventstacks, t);
    if t == NOF_EVENT_TYPES {
    } else if s.eventstacks[t] == [] {
      DrainIsInOrder(d, s, t + 1, value);
      assert Waiting(s.eventstacks, t) == Waiting(s.eventstacks, t + 1);
    } else {
      var step := DrainOne(d, s, t, value);
      if step.1 { DrainIsInOrder(d, step.0, t, value); }
    }
  }

  lemma {:induction false} PushAllByType(stacks: seq<seq<AtmEvent>>, evs: seq<AtmEvent>, t: nat)
    requires |stacks| == NOF_EVENT_TYPES && t < NOF_EVENT_TYPES
    ensures PushAll(stacks, evs)[t] == stacks[t] + OfType(evs, t)
    decreases |evs|
  {
    if evs != [] {
      var n := |evs| - 1;
      PushAllByType(stacks, evs[..n], t);
      assert evs == evs[..n] + [evs[n]];
      FilterConcat((ev: AtmEvent) => Rank(ev) == t, evs[..n], [evs[n]]);
    }
  }

  lemma {:induction false} WaitingIsEventOrder(stacks: seq<seq<AtmEvent>>, evs: seq<AtmEvent>, t: nat)
    requires NoneLeft(stacks, NOF_EVENT_TYPES) && t <= NOF_EVENT_TYPES
    ensures Waiting(PushAll(stacks, evs), t) == EventOrder(evs, t)
    decreases NOF_EVENT_TYPES - t
  {
    if t < NOF_EVENT_TYPES {
      PushAllByType(stacks, evs, t);
      assert stacks[t] + OfType(evs, t) == OfType(evs, t);
      WaitingIsEventOrder(stacks, evs, t + 1);
    }
  }

  /** The events of an input are processed in the fixed order of their types. */
  lemma {:induction false} ProcessEventsInOrder(d: Description, s: State, evs: seq<AtmEvent>, value: Value)
    requires Ready(d, s) && AllRegistered(d, evs) && NoneLeft(s.eventstacks, NOF_EVENT_TYPES)
    ensures AllRegistered(d, EventOrder(evs, 0))
    ensures var (r, ok) := ProcessEvents(d, s, evs, value);
            && ProcessAll(d, WithoutWaiting(s), EventOrder(evs, 0), value) == (WithoutWaiting(r), ok)
            && (ok ==> NoneLeft(r.eventstacks, NOF_EVENT_TYPES))
  {
    PushAllOk(d, s.eventstacks, evs);
    var s0 := s.(eventstacks := PushAll(s.eventstacks, evs));
    WaitingIsEventOrder(s.eventstacks, evs, 0);
    DrainIsInOrder(d, s0, 0, value);
  }
}
