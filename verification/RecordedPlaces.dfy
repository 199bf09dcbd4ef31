/** Where in the document things are recorded: at the event at hand, for the innermost element that is open. */
module RecordedPlaces {
  import opened Scopes
  import opened ScopeObjects
  import opened Sequences
  import opened RequestState
  import opened RequestRuns
  import opened RecordedItems

  // ---------------------------------------------------------------- open elements

  ghost predicate Succeeds(d: Description, s: State, input: InputEvent)
    requires Ready(d, s) && AllRegistered(d, input.evs)
  {
    Feed(d, s, input).1
  }

  /** The events at which the elements that are open began; the document itself counts as begun at 0. An element is
      closed by an end without an error, and a root element without a name is not opened. */
  ghost function OpenElements(d: Description, inputs: seq<InputEvent>): seq<int>
    requires AllInputsOk(d, inputs)
    decreases |inputs|
  {
    if inputs == [] then [0] else
      var n := |inputs| - 1;
      var input, open := inputs[n], OpenElements(d, inputs[..n]);
      if open == [] then []
      else if input.OpenTag? then if |open| == 1 && input.tag == Some("") then open else open + [n + 1]
      else if input.CloseTag? && EndsWell(d, inputs) then open[..|open| - 1]
      else open
  }

  /** The last input has been fed without an error. */
  ghost predicate EndsWell(d: Description, inputs: seq<InputEvent>)
    requires AllInputsOk(d, inputs) && inputs != []
  {
    var s := Run(d, inputs[..|inputs| - 1]);
    s.scopestack != [] && (RunIsReady(d, s); Succeeds(d, s, inputs[|inputs| - 1]))
  }

  /** The elements open during event n: an opening counts from its own event on, a close up to it. */
  ghost function OpenDuring(d: Description, inputs: seq<InputEvent>, n: nat): seq<int>
    requires AllInputsOk(d, inputs) && 1 <= n <= |inputs|
  {
    OpenElements(d, if inputs[n - 1].OpenTag? then inputs[..n] else inputs[..n - 1])
  }

  /** Recorded at event n: from the beginning of the innermost open element up to the event, at its depth. */
  ghost predicate PlacedAt(d: Description, inputs: seq<InputEvent>, n: nat, scope: Scope, level: int)
    requires AllInputsOk(d, inputs)
  {
    && 1 <= n <= |inputs| && OpenDuring(d, inputs, n) != []
    && scope == Scope(OpenDuring(d, inputs, n)[|OpenDuring(d, inputs, n)| - 1], n) && level == |OpenDuring(d, inputs, n)|
  }

  ghost predicate Placed(d: Description, inputs: seq<InputEvent>, scope: Scope, level: int)
    requires AllInputsOk(d, inputs)
  {
    exists n: nat :: PlacedAt(d, inputs, n, scope, level)
  }

  ghost predicate Triggered(inputs: seq<InputEvent>, ev: AtmEvent) {
    exists n :: 0 <= n < |inputs| && ev in inputs[n].evs
  }

  lemma {:induction false} FedStack(d: Description, s: State, input: InputEvent)
    requires Ready(d, s) && AllRegistered(d, input.evs)
    ensures var (r, ok) := Feed(d, s, input);
            && r.scopecnt == s.scopecnt + 1
            && r.scopestack == if input.OpenTag? then (if |s.scopestack| <= 1 && input.tag == Some("") then s.scopestack else s.scopestack + [s.scopecnt + 1])
                               else if input.CloseTag? && ok then s.scopestack[..|s.scopestack| - 1] else s.scopestack
  {
    hide DrainFrom;
  }

  /** The scope stack is made of the open elements, and the events are counted as long as there is one. */
  lemma {:induction false} StackIsOpenElements(d: Description, inputs: seq<InputEvent>)
    requires AllInputsOk(d, inputs)
    ensures Run(d, inputs).scopestack == OpenElements(d, inputs)
    ensures Run(d, inputs).scopestack != [] ==> Run(d, inputs).scopecnt == |inputs|
    ensures inputs != [] && Run(d, inputs[..|inputs| - 1]).scopestack != [] ==> Run(d, inputs).scopecnt == |inputs|
    decreases |inputs|
  {
    hide Inv, Feed;
    if inputs != [] {
      var n := |inputs| - 1;
      StackIsOpenElements(d, inputs[..n]);
      var s := Run(d, inputs[..n]);
      if s.scopestack != [] {
        RunIsReady(d, s);
        FedStack(d, s, inputs[n]);
      }
    }
  }

  // ---------------------------------------------------------------- records

  ghost predicate KindOk(e: Entry) {
    e.key.kind == if e.objref.ValueRef? then ValueScope else ObjectScope
  }

  /** All records of a state are among those of another one, or they are made for its innermost scope. */
  ghost predicate EntriesFrom(s: State, r: State)
    requires |s.scopestack| > 0
  {
    |r.scopeobjmap| == |s.scopeobjmap| && forall x, e :: 0 <= x < |s.scopeobjmap| && e in r.scopeobjmap[x] ==> EntryFrom(s, x, e)
  }

  ghost predicate EntryFrom(s: State, x: int, e: Entry)
    requires |s.scopestack| > 0 && 0 <= x < |s.scopeobjmap|
  {
    e in s.scopeobjmap[x] || (e.key.scope == CurScope(s) && e.taglevel == |s.scopestack| && KindOk(e))
  }

  ghost predicate CallFrom(d: Description, inputs: seq<InputEvent>, s: State, mc: MethodCallNode)
    requires |s.scopestack| > 0
  {
    || mc in s.methodcalls
    || (mc.scope == CurScope(s) && mc.taglevel == |s.scopestack| && mc.def < |d.calldefs| && mc.group == d.calldefs[mc.def].groupid
        && mc.position == s.scopecnt && Triggered(inputs, MethodCall(mc.def)))
  }

  ghost predicate ResultFrom(d: Description, inputs: seq<InputEvent>, s: State, r: ResultRef)
    requires |s.scopestack| > 0
  {
    || r in s.resultrefs
    || (r.scope == CurScope(s) && r.resultidx < |d.resultdefs| && r.instridx < |d.resultdefs[r.resultidx]|
        && !d.resultdefs[r.resultidx][r.instridx].OtherNode? && Triggered(inputs, ResultInstruction(r.resultidx, r.instridx)))
  }

  ghost predicate RecordsFrom(d: Description, inputs: seq<InputEvent>, s: State, r: State)
    requires |s.scopestack| > 0
  {
    && EntriesFrom(s, r)
    && (forall mc :: mc in r.methodcalls ==> CallFrom(d, inputs, s, mc)) && (forall x :: x in r.resultrefs ==> ResultFrom(d, inputs, s, x))
  }

  lemma {:induction false} InsertMembers(m: seq<Entry>, e: Entry, x: Entry)
    ensures x in Insert(m, e) <==> x in m || x == e
  {
    if !(m == [] || Less(e.key, m[0].key)) {
      InsertMembers(m[1..], e, x);
      assert m == [m[0]] + m[1..];
    }
  }

  lemma {:induction false} InsertRefFrom(s: State, maps: seq<seq<Entry>>, itemid: nat, kind: ScopeKeyType, ref: ObjectRef)
    requires |s.scopestack| > 0 && itemid < |maps| && EntriesFrom(s, s.(scopeobjmap := maps))
    requires kind == if ref.ValueRef? then ValueScope else ObjectScope
    ensures EntriesFrom(s, s.(scopeobjmap := InsertRef(maps, itemid, CurScope(s), kind, ref, |s.scopestack|)))
  {
    var e := Entry(ScopeKey(CurScope(s), kind), ref, |s.scopestack|);
    var more := InsertRef(maps, itemid, CurScope(s), kind, ref, |s.scopestack|);
    forall x, f | 0 <= x < |more| && f in more[x] ensures EntryFrom(s, x, f) {
      if x == itemid { InsertMembers(maps[itemid], e, f); }
    }
  }

  lemma {:induction false} InsertValuesFrom(s: State, itemid: nat, first: nat, n: nat)
    requires |s.scopestack| > 0 && itemid < |s.scopeobjmap|
    ensures EntriesFrom(s, s.(scopeobjmap := InsertValues(s.scopeobjmap, itemid, CurScope(s), |s.scopestack|, first, n)))
  {
    if n > 0 {
      InsertValuesFrom(s, itemid, first, n - 1);
      InsertRefFrom(s, InsertValues(s.scopeobjmap, itemid, CurScope(s), |s.scopestack|, first, n - 1), itemid, ValueScope, ValueRef(first + n - 1));
    }
  }

  lemma {:induction false} ScannedMembers(d: Description, calls: seq<MethodCallNode>, def: nat, scope: Scope)
    requires def < |d.calldefs|
    ensures forall mc :: mc in Scanned(d, calls, def, scope) ==> mc in calls
  {
  }

  lemma {:induction false} EventRecords(d: Description, inputs: seq<InputEvent>, s: State, ev: AtmEvent, value: Value)
    requires Ready(d, s) && IsRegistered(d, ev) && Triggered(inputs, ev)
    ensures RecordsFrom(d, inputs, s, ProcessEvent(d, s, ev, value).0)
  {
    hide InsertRef, InsertValues, Scanned, ValuesOf, OthersOf, Triggered;
    match ev
    case CollectValue(i) =>
      var vals := ValuesOf(d.valueitems[i], s.valuenodes);
      InsertValuesFrom(s, d.valueitems[i], |s.values|, if vals == [] then 1 else |vals|);
    case CloseStruct(i) => InsertRefFrom(s, s.scopeobjmap, d.structitems[i], ObjectScope, StructRef(|s.structs|));
    case MethodCallPrioritize(i) => ScannedMembers(d, s.methodcalls, i, CurScope(s));
    case _ =>
  }

  lemma {:induction false} RecordsThen(d: Description, inputs: seq<InputEvent>, s: State, m: State, r: State)
    requires |s.scopestack| > 0 && m.scopestack == s.scopestack && m.scopecnt == s.scopecnt
    requires RecordsFrom(d, inputs, s, m) && RecordsFrom(d, inputs, m, r)
    ensures RecordsFrom(d, inputs, s, r)
  {
    hide Triggered;
    forall x, e | 0 <= x < |s.scopeobjmap| && e in r.scopeobjmap[x] ensures EntryFrom(s, x, e) {
      assert EntryFrom(m, x, e);
      if e in m.scopeobjmap[x] { assert EntryFrom(s, x, e); }
    }
    forall mc | mc in r.methodcalls ensures CallFrom(d, inputs, s, mc) {
      assert CallFrom(d, inputs, m, mc);
      if mc in m.methodcalls { assert CallFrom(d, inputs, s, mc); }
    }
    forall x | x in r.resultrefs ensures ResultFrom(d, inputs, s, x) {
      assert ResultFrom(d, inputs, m, x);
      if x in m.resultrefs { assert ResultFrom(d, inputs, s, x); }
    }
  }

  /** Everything that waits has been triggered. */
  ghost predicate WaitingTriggered(inputs: seq<InputEvent>, stacks: seq<seq<AtmEvent>>) {
    forall t, i :: 0 <= t < |stacks| && 0 <= i < |stacks[t]| ==> Triggered(inputs, stacks[t][i])
  }

  lemma {:induction false} RecordsSame(d: Description, inputs: seq<InputEvent>, s: State, m: State, r: State)
    requires |s.scopestack| > 0 && m.scopestack == s.scopestack && m.scopecnt == s.scopecnt
    requires m.scopeobjmap == s.scopeobjmap && m.methodcalls == s.methodcalls && m.resultrefs == s.resultrefs
    requires RecordsFrom(d, inputs, m, r)
    ensures RecordsFrom(d, inputs, s, r)
  {
    hide Triggered;
    forall x, e | 0 <= x < |s.scopeobjmap| && e in r.scopeobjmap[x] ensures EntryFrom(s, x, e) { assert EntryFrom(m, x, e); }
    forall mc | mc in r.methodcalls ensures CallFrom(d, inputs, s, mc) { assert CallFrom(d, inputs, m, mc); }
    forall x | x in r.resultrefs ensures ResultFrom(d, inputs, s, x) { assert ResultFrom(d, inputs, m, x); }
  }

  lemma {:induction false} NothingRecorded(d: Description, inputs: seq<InputEvent>, s: State)
    requires |s.scopestack| > 0
    ensures RecordsFrom(d, inputs, s, s)
  {
    hide Triggered;
    forall x, e | 0 <= x < |s.scopeobjmap| && e in s.scopeobjmap[x] ensures EntryFrom(s, x, e) {}
  }

  lemma {:induction false} DrainRecords(d: Description, inputs: seq<InputEvent>, s: State, t: nat, value: Value)
    requires Ready(d, s) && t <= NOF_EVENT_TYPES && WaitingTriggered(inputs, s.eventstacks)
    ensures var r := DrainFrom(d, s, t, value).0;
            RecordsFrom(d, inputs, s, r) && WaitingTriggered(inputs, r.eventstacks)
    decreases NOF_EVENT_TYPES - t, if t < NOF_EVENT_TYPES then |s.eventstacks[t]| else 0
  {
    hide RecordsFrom, ProcessEvent, Triggered;
    if t == NOF_EVENT_TYPES {
      NothingRecorded(d, inputs, s);
    } else if s.eventstacks[t] == [] {
      DrainRecords(d, inputs, s, t + 1, value);
    } else {
      var ev, s0 := s.eventstacks[t][|s.eventstacks[t]| - 1], Popped(s, t);
      DrainUnfolds(d, s, t, value);
      ProcessEventFrame(d, s0, ev, value);
      EventRecords(d, inputs, s0, ev, value);
      var (s1, ok) := ProcessEvent(d, s0, ev, value);
      RecordsSame(d, inputs, s, s0, s1);
      if ok {
        DrainRecords(d, inputs, s1, t, value);
        RecordsThen(d, inputs, s, s1, DrainFrom(d, s1, t, value).0);
      }
    }
  }

  // ---------------------------------------------------------------- runs

  ghost predicate AllPlaced(d: Description, inputs: seq<InputEvent>, s: State)
    requires AllInputsOk(d, inputs)
  {
    && (forall x, e :: 0 <= x < |s.scopeobjmap| && e in s.scopeobjmap[x] ==> KindOk(e) && Placed(d, inputs, e.key.scope, e.taglevel))
    && (forall mc :: mc in s.methodcalls ==> CallPlaced(d, inputs, mc))
    && (forall r :: r in s.resultrefs ==> ResultPlaced(d, inputs, r))
  }

  ghost predicate CallPlaced(d: Description, inputs: seq<InputEvent>, mc: MethodCallNode)
    requires AllInputsOk(d, inputs)
  {
    && Placed(d, inputs, mc.scope, mc.taglevel) && mc.position == mc.scope.to
    && mc.def < |d.calldefs| && mc.group == d.calldefs[mc.def].groupid && Triggered(inputs, MethodCall(mc.def))
  }

  ghost predicate ResultPlaced(d: Description, inputs: seq<InputEvent>, r: ResultRef)
    requires AllInputsOk(d, inputs)
  {
    && (exists level :: Placed(d, inputs, r.scope, level)) && Triggered(inputs, ResultInstruction(r.resultidx, r.instridx))
    && r.resultidx < |d.resultdefs| && r.instridx < |d.resultdefs[r.resultidx]| && !d.resultdefs[r.resultidx][r.instridx].OtherNode?
  }

  lemma {:induction false} PlacedLater(d: Description, before: seq<InputEvent>, inputs: seq<InputEvent>, scope: Scope, level: int)
    requires AllInputsOk(d, before) && AllInputsOk(d, inputs) && before <= inputs && Placed(d, before, scope, level)
    ensures Placed(d, inputs, scope, level)
  {
    hide OpenElements;
    var n: nat :| PlacedAt(d, before, n, scope, level);
    assert before[n - 1] == inputs[n - 1] && before[..n] == inputs[..n] && before[..n - 1] == inputs[..n - 1];
    assert PlacedAt(d, inputs, n, scope, level);
  }

  lemma {:induction false} TriggeredLater(before: seq<InputEvent>, inputs: seq<InputEvent>, ev: AtmEvent)
    requires before <= inputs && Triggered(before, ev)
    ensures Triggered(inputs, ev)
  {
    var n :| 0 <= n < |before| && ev in before[n].evs;
    assert inputs[n] == before[n];
  }

  lemma {:induction false} AllPlacedLater(d: Description, before: seq<InputEvent>, inputs: seq<InputEvent>, s: State)
    requires AllInputsOk(d, before) && AllInputsOk(d, inputs) && before <= inputs && AllPlaced(d, before, s)
    ensures AllPlaced(d, inputs, s)
  {
    hide Placed, Triggered;
    forall x, e | 0 <= x < |s.scopeobjmap| && e in s.scopeobjmap[x] ensures KindOk(e) && Placed(d, inputs, e.key.scope, e.taglevel) {
      PlacedLater(d, before, inputs, e.key.scope, e.taglevel);
    }
    forall mc | mc in s.methodcalls ensures CallPlaced(d, inputs, mc) {
      PlacedLater(d, before, inputs, mc.scope, mc.taglevel);
      TriggeredLater(before, inputs, MethodCall(mc.def));
    }
    forall r | r in s.resultrefs ensures ResultPlaced(d, inputs, r) {
      var level :| Placed(d, before, r.scope, level);
      PlacedLater(d, before, inputs, r.scope, level);
      TriggeredLater(before, inputs, ResultInstruction(r.resultidx, r.instridx));
    }
  }

  /** What is recorded for the innermost scope at an event is placed at this event. */
  lemma {:induction false} NewArePlaced(d: Description, inputs: seq<InputEvent>, s: State, r: State, n: nat)
    requires AllInputsOk(d, inputs) && |s.scopestack| > 0 && AllPlaced(d, inputs, s) && RecordsFrom(d, inputs, s, r)
    requires PlacedAt(d, inputs, n, CurScope(s), |s.scopestack|)
    ensures AllPlaced(d, inputs, r)
  {
    hide PlacedAt, Triggered;
    assert Placed(d, inputs, CurScope(s), |s.scopestack|);
    forall x, e | 0 <= x < |r.scopeobjmap| && e in r.scopeobjmap[x] ensures KindOk(e) && Placed(d, inputs, e.key.scope, e.taglevel) {
      assert EntryFrom(s, x, e);
    }
    forall mc | mc in r.methodcalls ensures CallPlaced(d, inputs, mc) {
      assert CallFrom(d, inputs, s, mc);
    }
    forall x | x in r.resultrefs ensures ResultPlaced(d, inputs, x) {
      assert ResultFrom(d, inputs, s, x);
    }
  }

  lemma {:induction false} PushedTriggered(inputs: seq<InputEvent>, stacks: seq<seq<AtmEvent>>, evs: seq<AtmEvent>)
    requires |stacks| == NOF_EVENT_TYPES && WaitingTriggered(inputs, stacks) && forall ev :: ev in evs ==> Triggered(inputs, ev)
    ensures WaitingTriggered(inputs, PushAll(stacks, evs))
    decreases |evs|
  {
    hide Triggered;
    if evs != [] {
      var n := |evs| - 1;
      assert evs[n] in evs;
      PushedTriggered(inputs, stacks, evs[..n]);
    }
  }

  lemma {:induction false} WaitingLater(before: seq<InputEvent>, inputs: seq<InputEvent>, stacks: seq<seq<AtmEvent>>)
    requires before <= inputs && WaitingTriggered(before, stacks)
    ensures WaitingTriggered(inputs, stacks)
  {
    hide Triggered;
    forall t, i | 0 <= t < |stacks| && 0 <= i < |stacks[t]| ensures Triggered(inputs, stacks[t][i]) {
      TriggeredLater(before, inputs, stacks[t][i]);
    }
  }

  /** The scope in which the events of the last input are processed. */
  lemma {:induction false} EnteredIsPlaced(d: Description, inputs: seq<InputEvent>)
    requires AllInputsOk(d, inputs) && inputs != []
    requires IsTaken(Run(d, inputs[..|inputs| - 1]), inputs[|inputs| - 1])
    ensures var s := Entered(Run(d, inputs[..|inputs| - 1]), inputs[|inputs| - 1]);
            |s.scopestack| > 0 && PlacedAt(d, inputs, |inputs|, CurScope(s), |s.scopestack|)
  {
    hide Run, Inv;
    StackIsOpenElements(d, inputs[..|inputs| - 1]);
    assert inputs[..|inputs|] == inputs;
  }

  /** Everything that is recorded on a run is recorded for the element that is innermost at an event, up to this event
      and at its depth, and calls and results are those that were triggered. */
  lemma {:induction false} RecordsArePlaced(d: Description, inputs: seq<InputEvent>)
    requires AllInputsOk(d, inputs)
    ensures AllPlaced(d, inputs, Run(d, inputs)) && WaitingTriggered(inputs, Run(d, inputs).eventstacks)
    decreases |inputs|
  {
    hide AllPlaced, WaitingTriggered, PlacedAt, Feed, ProcessEvents, Inv, RecordsFrom;
    if inputs == [] {
      NothingPlaced(d);
    } else {
      var n := |inputs| - 1;
      var before, input := inputs[..n], inputs[n];
      RecordsArePlaced(d, before);
      var s := Run(d, before);
      AllPlacedLater(d, before, inputs, s);
      WaitingLater(before, inputs, s.eventstacks);
      if s.scopestack != [] {
        RunIsReady(d, s);
        FeedIsProcessing(d, s, input);
        if IsTaken(s, input) {
          EnteredIsPlaced(d, inputs);
          TakenRecords(d, inputs, s, input);
        }
        SamePlaces(d, inputs, if IsTaken(s, input) then ProcessEvents(d, Entered(s, input), input.evs, ValueSeen(input)).0 else s, Feed(d, s, input).0);
      }
    }
  }

  lemma {:induction false} NothingPlaced(d: Description)
    requires AllInputsOk(d, [])
    ensures AllPlaced(d, [], InitState(d)) && WaitingTriggered([], InitState(d).eventstacks)
  {
  }

  lemma {:induction false} SamePlaces(d: Description, inputs: seq<InputEvent>, s: State, r: State)
    requires AllInputsOk(d, inputs) && AllPlaced(d, inputs, s) && WaitingTriggered(inputs, s.eventstacks) && SameRecords(s, r)
    ensures AllPlaced(d, inputs, r) && WaitingTriggered(inputs, r.eventstacks)
  {
    hide Placed, Triggered;
  }

  lemma {:induction false} TakenRecords(d: Description, inputs: seq<InputEvent>, s: State, input: InputEvent)
    requires AllInputsOk(d, inputs) && inputs != [] && input == inputs[|inputs| - 1] && Ready(d, s) && AllRegistered(d, input.evs)
    requires AllPlaced(d, inputs, s) && WaitingTriggered(inputs, s.eventstacks)
    requires |Entered(s, input).scopestack| > 0 && PlacedAt(d, inputs, |inputs|, CurScope(Entered(s, input)), |Entered(s, input).scopestack|)
    ensures Ready(d, Entered(s, input))
    ensures var r := ProcessEvents(d, Entered(s, input), input.evs, ValueSeen(input)).0;
            AllPlaced(d, inputs, r) && WaitingTriggered(inputs, r.eventstacks)
  {
    hide AllPlaced, PlacedAt, RecordsFrom, DrainFrom, Triggered, WaitingTriggered;
    FeedIsProcessing(d, s, input);
    var s0 := Entered(s, input);
    var full := s0.(eventstacks := PushAll(s0.eventstacks, input.evs));
    forall ev | ev in input.evs ensures Triggered(inputs, ev) { TriggeredNow(inputs, ev); }
    PushedTriggered(inputs, s.eventstacks, input.evs);
    PushAllOk(d, s0.eventstacks, input.evs);
    DrainRecords(d, inputs, full, 0, ValueSeen(input));
    PlacesAlike(d, inputs, s, full);
    NewArePlaced(d, inputs, full, DrainFrom(d, full, 0, ValueSeen(input)).0, |inputs|);
  }

  lemma {:induction false} TriggeredNow(inputs: seq<InputEvent>, ev: AtmEvent)
    requires inputs != [] && ev in inputs[|inputs| - 1].evs
    ensures Triggered(inputs, ev)
  {
  }

  lemma {:induction false} PlacesAlike(d: Description, inputs: seq<InputEvent>, s: State, r: State)
    requires AllInputsOk(d, inputs) && AllPlaced(d, inputs, s)
    requires r.scopeobjmap == s.scopeobjmap && r.methodcalls == s.methodcalls && r.resultrefs == s.resultrefs
    ensures AllPlaced(d, inputs, r)
  {
    hide Placed, Triggered;
  }

  /** The map of an item is in the order of the document: by the beginning, longer scopes first, and of the same scope
      values before structures. */
  lemma {:induction false} MapsAreInOrder(d: Description, inputs: seq<InputEvent>, itemid: nat, i: nat, j: nat)
    requires AllInputsOk(d, inputs) && itemid < |Run(d, inputs).scopeobjmap| && i < j < |Run(d, inputs).scopeobjmap[itemid]|
    ensures var a, b := Run(d, inputs).scopeobjmap[itemid][i], Run(d, inputs).scopeobjmap[itemid][j];
            || a.key.scope.from < b.key.scope.from
            || (a.key.scope.from == b.key.scope.from && a.key.scope.to > b.key.scope.to)
            || (a.key.scope == b.key.scope && !(a.objref.StructRef? && b.objref.ValueRef?))
  {
    hide Placed, Triggered;
    RecordsArePlaced(d, inputs);
    var m := Run(d, inputs).scopeobjmap[itemid];
    assert m[i] in m && m[j] in m;
    SortedPair(m, i, j);
  }

  // ---------------------------------------------------------------- root elements

  /** An element with a name that is opened while no other one is open. */
  ghost predicate IsRootTag(d: Description, inputs: seq<InputEvent>, n: nat, tag: string)
    requires AllInputsOk(d, inputs)
  {
    n < |inputs| && inputs[n].OpenTag? && inputs[n].tag == Some(tag) && tag != "" && |OpenElements(d, inputs[..n])| == 1
  }

  lemma {:induction false} FedRoots(d: Description, s: State, input: InputEvent)
    requires Ready(d, s) && AllRegistered(d, input.evs)
    ensures forall t :: t in Feed(d, s, input).0.rootelements
                  <==> t in s.rootelements || (input.OpenTag? && |s.scopestack| <= 1 && input.tag == Some(t) && t != "")
  {
    hide DrainFrom;
  }

  /** The root elements are the tags opened at the root. */
  lemma {:induction false} RootElementsAre(d: Description, inputs: seq<InputEvent>, tag: string)
    requires AllInputsOk(d, inputs)
    ensures tag in Run(d, inputs).rootelements <==> exists n: nat :: IsRootTag(d, inputs, n, tag)
    decreases |inputs|
  {
    hide Inv, Feed, OpenElements;
    if inputs != [] {
      var last := |inputs| - 1;
      var before := inputs[..last];
      RootElementsAre(d, before, tag);
      StackIsOpenElements(d, before);
      forall n: nat | n < last ensures IsRootTag(d, inputs, n, tag) <==> IsRootTag(d, before, n, tag) {
        assert before[..n] == inputs[..n];
      }
      var s := Run(d, before);
      if s.scopestack != [] {
        RunIsReady(d, s);
        FedRoots(d, s, inputs[last]);
      }
      assert IsRootTag(d, inputs, last, tag)
        <==> inputs[last].OpenTag? && |s.scopestack| == 1 && inputs[last].tag == Some(tag) && tag != "";
    }
  }

  /** A document has valid root elements exactly if it is not strict, or all of them are accepted and there is one
      unless none is. */
  lemma {:induction false} RootsAreValidIff(d: Description, inputs: seq<InputEvent>)
    requires AllInputsOk(d, inputs)
    ensures d.IsValidRootTagSet(Run(d, inputs).rootelements)
       <==> || !d.strict
            || ((forall n: nat, t :: IsRootTag(d, inputs, n, t) ==> t in d.acceptedRootTags)
                && (d.acceptedRootTags == {} || exists n: nat, t :: IsRootTag(d, inputs, n, t)))
  {
    hide Run, IsRootTag, Description.IsValidRootTagSet;
    var roots := Run(d, inputs).rootelements;
    forall t ensures t in roots <==> exists n: nat :: IsRootTag(d, inputs, n, t) { RootElementsAre(d, inputs, t); }
    forall n: nat, t | IsRootTag(d, inputs, n, t) ensures t in roots {}
    if roots != {} {
      var t :| t in roots;
      var n: nat :| IsRootTag(d, inputs, n, t);
    }
    RootTagSet(d, roots);
  }

  lemma {:induction false} RootTagSet(d: Description, tags: set<string>)
    ensures d.IsValidRootTagSet(tags)
       <==> !d.strict || ((forall t :: t in tags ==> t in d.acceptedRootTags) && (d.acceptedRootTags == {} || tags != {}))
  {
  }
}
