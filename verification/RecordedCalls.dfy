/** Every event that is triggered is processed or waits: what a run records of calls and results. */
module RecordedCalls {
  import opened Scopes
  import opened ScopeObjects
  import opened Sequences
  import opened RequestState
  import opened RequestRuns
  import opened RecordedItems
  import opened RecordedPlaces

  // ---------------------------------------------------------------- events

  ghost function WaitingEvents(stacks: seq<seq<AtmEvent>>): multiset<AtmEvent> {
    if stacks == [] then multiset{} else multiset(stacks[0]) + WaitingEvents(stacks[1..])
  }

  /** The events of all inputs that are taken. */
  ghost function TriggeredEvents(d: Description, inputs: seq<InputEvent>): multiset<AtmEvent>
    requires AllInputsOk(d, inputs)
    decreases |inputs|
  {
    if inputs == [] then multiset{} else
      var n := |inputs| - 1;
      TriggeredEvents(d, inputs[..n]) + if IsTaken(Run(d, inputs[..n]), inputs[n]) then multiset(inputs[n].evs) else multiset{}
  }

  /** The definitions called. */
  ghost function CalledDefs(calls: seq<MethodCallNode>): multiset<nat> {
    if calls == [] then multiset{} else multiset{calls[0].def} + CalledDefs(calls[1..])
  }

  ghost function RecordedResults(refs: seq<ResultRef>): multiset<(nat, nat)> {
    if refs == [] then multiset{} else multiset{(refs[0].resultidx, refs[0].instridx)} + RecordedResults(refs[1..])
  }

  /** A call of one definition may be taken back if another one with the same result variable, or also without one, was
      prioritised. */
  ghost predicate IsReplaced(d: Description, done: multiset<AtmEvent>, i: nat) {
    exists p: nat :: MethodCallPrioritize(p) in done && Competes(d, p, i)
  }

  ghost predicate Competes(d: Description, p: nat, i: nat) {
    p != i && p < |d.calldefs| && i < |d.calldefs| && d.calldefs[i].resultvarname == d.calldefs[p].resultvarname
  }

  /** A result that refers to an item or to the result of a call. */
  ghost predicate IsReference(d: Description, r: nat, i: nat) {
    r < |d.resultdefs| && i < |d.resultdefs[r]| && (d.resultdefs[r][i].InputReference? || d.resultdefs[r][i].ResultReference?)
  }

  /** For every call event there is a call, or it is one of those taken back; and for every event of a result that is
      a reference there is a record. */
  ghost predicate CallsAccounted(d: Description, s: State, done: multiset<AtmEvent>, lost: multiset<nat>) {
    && (forall i: nat :: CalledDefs(s.methodcalls)[i] + lost[i] == done[MethodCall(i)])
    && (forall i :: i in lost ==> IsReplaced(d, done, i))
    && forall r: nat, i: nat :: RecordedResults(s.resultrefs)[(r, i)] == if IsReference(d, r, i) then done[ResultInstruction(r, i)] else 0
  }

  /** Nothing that was triggered gets lost: it is done or waits behind an event that failed. */
  ghost predicate EventsAccounted(s: State, done: multiset<AtmEvent>, triggered: multiset<AtmEvent>) {
    done + WaitingEvents(s.eventstacks) == triggered
  }

  // ---------------------------------------------------------------- one event

  lemma {:induction false} Added<T(!new)>(a: multiset<T>, x: multiset<T>, b: multiset<T>, y: multiset<T>, c: multiset<T>)
    requires x + b == y + c
    ensures a + x + b == a + y + c
  {
    forall e ensures (a + x + b)[e] == (a + y + c)[e] { assert (x + b)[e] == (y + c)[e]; }
  }

  lemma {:induction false} Moved<T(!new)>(a: multiset<T>, b: multiset<T>, c: multiset<T>)
    ensures a + (b + c) == a + b + c && a + b + c == a + c + b && a + b + c == c + b + a
  {
  }

  lemma {:induction false} Cancelled<T(!new)>(a: multiset<T>, x: multiset<T>, b: multiset<T>, p: multiset<T>, y: multiset<T>)
    requires a + (p + x) == b + (p + y)
    ensures a + x == b + y
  {
    forall e ensures (a + x)[e] == (b + y)[e] { assert (a + (p + x))[e] == (b + (p + y))[e]; }
  }

  lemma {:induction false} CalledFirst(calls: seq<MethodCallNode>)
    ensures CalledDefs(calls) == if calls == [] then multiset{} else multiset{calls[0].def} + CalledDefs(calls[1..])
  {
  }

  lemma {:induction false} CalledConcat(a: seq<MethodCallNode>, b: seq<MethodCallNode>)
    ensures CalledDefs(a + b) == CalledDefs(a) + CalledDefs(b)
  {
    hide CalledDefs;
    CalledFirst(a);
    if a == [] {
      assert a + b == b;
    } else {
      CalledConcat(a[1..], b);
      CalledFirst(a + b);
      assert (a + b)[1..] == a[1..] + b;
      Moved(multiset{a[0].def}, CalledDefs(a[1..]), CalledDefs(b));
    }
  }

  lemma {:induction false} CalledOne(mc: MethodCallNode)
    ensures CalledDefs([mc]) == multiset{mc.def}
  {
    assert [mc][1..] == [];
  }

  lemma {:induction false} ResultsMore(refs: seq<ResultRef>, r: ResultRef)
    ensures RecordedResults(refs + [r]) == RecordedResults(refs) + multiset{(r.resultidx, r.instridx)}
  {
    if refs == [] {
      assert ([] + [r])[1..] == [];
    } else {
      ResultsMore(refs[1..], r);
      assert (refs + [r])[1..] == refs[1..] + [r];
    }
  }

  lemma {:induction false} FilterFirst(d: Description, calls: seq<MethodCallNode>, def: nat, scope: Scope)
    requires def < |d.calldefs| && calls != []
    ensures var rest := CalledDefs(WithoutSuppressed(d, calls[1..], def, scope));
            CalledDefs(WithoutSuppressed(d, calls, def, scope))
            == if IsSuppressed(d, def, scope, calls[0]) then rest else multiset{calls[0].def} + rest
  {
    var rest := WithoutSuppressed(d, calls[1..], def, scope);
    assert [] + rest == rest && ([calls[0]] + rest)[1..] == rest;
  }

  lemma {:induction false} SuppressedCompetes(d: Description, def: nat, scope: Scope, mc: MethodCallNode)
    requires def < |d.calldefs| && IsSuppressed(d, def, scope, mc)
    ensures Competes(d, def, mc.def)
  {
  }

  /** What is taken back by the filter are calls of competing definitions. */
  lemma {:induction false} FilterTakesBack(d: Description, calls: seq<MethodCallNode>, def: nat, scope: Scope) returns (lost: multiset<nat>)
    requires def < |d.calldefs|
    ensures CalledDefs(WithoutSuppressed(d, calls, def, scope)) + lost == CalledDefs(calls)
    ensures forall i :: i in lost ==> Competes(d, def, i)
  {
    lost := multiset{};
    if calls != [] {
      hide Competes;
      var more := FilterTakesBack(d, calls[1..], def, scope);
      var rest, one := WithoutSuppressed(d, calls[1..], def, scope), multiset{calls[0].def};
      FilterFirst(d, calls, def, scope);
      if IsSuppressed(d, def, scope, calls[0]) {
        SuppressedCompetes(d, def, scope, calls[0]);
        lost := more + one;
        Moved(CalledDefs(rest), more, one);
      } else {
        lost := more;
        Moved(one, CalledDefs(rest), more);
      }
    }
  }

  lemma {:induction false} ScanTakesBack(d: Description, calls: seq<MethodCallNode>, def: nat, scope: Scope) returns (lost: multiset<nat>)
    requires def < |d.calldefs|
    ensures CalledDefs(Scanned(d, calls, def, scope)) + lost == CalledDefs(calls)
    ensures forall i :: i in lost ==> Competes(d, def, i)
  {
    var k := TailStart(calls, scope.from);
    assert calls == calls[..k] + calls[k..];
    CalledConcat(calls[..k], calls[k..]);
    CalledConcat(calls[..k], Prioritized(d, calls[k..], def, scope));
    lost := multiset{};
    if HasCall(calls[k..], def, scope) { lost := FilterTakesBack(d, calls[k..], def, scope); }
  }

  /** One more event done. */
  lemma {:induction false} OneMoreDone(d: Description, done: multiset<AtmEvent>, ev: AtmEvent)
    ensures forall i: nat :: IsReplaced(d, done, i) ==> IsReplaced(d, done + multiset{ev}, i)
    ensures forall e :: (done + multiset{ev})[e] == done[e] + if e == ev then 1 else 0
  {
    hide Competes;
    assert forall p: nat :: MethodCallPrioritize(p) in done ==> MethodCallPrioritize(p) in done + multiset{ev};
  }

  lemma {:induction false} CallDone(d: Description, s: State, r: State, mc: MethodCallNode, done: multiset<AtmEvent>, lost: multiset<nat>)
    requires CallsAccounted(d, s, done, lost) && r.methodcalls == s.methodcalls + [mc] && r.resultrefs == s.resultrefs
    ensures CallsAccounted(d, r, done + multiset{MethodCall(mc.def)}, lost)
  {
    hide CalledDefs, RecordedResults, IsReplaced, IsReference;
    OneMoreDone(d, done, MethodCall(mc.def));
    CalledConcat(s.methodcalls, [mc]);
    CalledOne(mc);
  }

  lemma {:induction false} PrioritizeDone(d: Description, s: State, r: State, def: nat, scope: Scope, done: multiset<AtmEvent>, lost: multiset<nat>)
    returns (lost': multiset<nat>)
    requires CallsAccounted(d, s, done, lost) && def < |d.calldefs|
    requires r.methodcalls == Scanned(d, s.methodcalls, def, scope) && r.resultrefs == s.resultrefs
    ensures CallsAccounted(d, r, done + multiset{MethodCallPrioritize(def)}, lost')
  {
    hide CalledDefs, RecordedResults, Scanned, Competes, IsReference;
    OneMoreDone(d, done, MethodCallPrioritize(def));
    var more := ScanTakesBack(d, s.methodcalls, def, scope);
    lost' := lost + more;
    assert MethodCallPrioritize(def) in done + multiset{MethodCallPrioritize(def)};
  }

  lemma {:induction false} ResultDone(d: Description, s: State, k: nat, i: nat, done: multiset<AtmEvent>, lost: multiset<nat>)
    requires CallsAccounted(d, s, done, lost) && |s.scopestack| > 0
    ensures CallsAccounted(d, ResultRecorded(d, s, k, i).0, done + multiset{ResultInstruction(k, i)}, lost)
  {
    hide CalledDefs, RecordedResults, IsReplaced, IsReference, ResultRecorded;
    OneMoreDone(d, done, ResultInstruction(k, i));
    ResultCounted(d, s, k, i);
  }

  lemma {:induction false} OtherDone(d: Description, s: State, r: State, ev: AtmEvent, done: multiset<AtmEvent>, lost: multiset<nat>)
    requires CallsAccounted(d, s, done, lost) && r.methodcalls == s.methodcalls && r.resultrefs == s.resultrefs
    requires !ev.MethodCall? && !ev.ResultInstruction?
    ensures CallsAccounted(d, r, done + multiset{ev}, lost)
  {
    hide CalledDefs, RecordedResults, IsReplaced, IsReference;
    OneMoreDone(d, done, ev);
  }

  lemma {:induction false} EventCalls(d: Description, s: State, ev: AtmEvent, value: Value, done: multiset<AtmEvent>, lost: multiset<nat>)
    returns (lost': multiset<nat>)
    requires Ready(d, s) && IsRegistered(d, ev) && CallsAccounted(d, s, done, lost)
    ensures CallsAccounted(d, ProcessEvent(d, s, ev, value).0, done + multiset{ev}, lost')
  {
    hide CallsAccounted, Scanned, InsertRef, Collected, ResultRecorded;
    lost' := lost;
    var r := ProcessEvent(d, s, ev, value).0;
    match ev
    case MethodCall(i) =>
      CallDone(d, s, r, MethodCallNode(d.calldefs[i].groupid, s.scopecnt, i, CurScope(s), |s.scopestack|), done, lost);
    case MethodCallPrioritize(i) => lost' := PrioritizeDone(d, s, r, i, CurScope(s), done, lost);
    case ResultInstruction(k, i) => ResultDone(d, s, k, i, done, lost);
    case CollectValue(i) =>
      CollectKeepsCalls(s, d.valueitems[i]);
      OtherDone(d, s, r, ev, done, lost);
    case _ => OtherDone(d, s, r, ev, done, lost);
  }

  lemma {:induction false} ResultCounted(d: Description, s: State, r: nat, i: nat)
    requires |s.scopestack| > 0
    ensures var t := ResultRecorded(d, s, r, i).0;
            && t.methodcalls == s.methodcalls
            && RecordedResults(t.resultrefs) == RecordedResults(s.resultrefs) + if IsReference(d, r, i) then multiset{(r, i)} else multiset{}
  {
    hide RecordedResults;
    var before := RecordedResults(s.resultrefs);
    ResultsMore(s.resultrefs, ResultRef(r, i, CurScope(s)));
    assert before + multiset{} == before;
  }

  lemma {:induction false} CollectKeepsCalls(s: State, itemid: nat)
    requires |s.scopestack| > 0 && itemid < |s.scopeobjmap|
    ensures Collected(s, itemid).0.methodcalls == s.methodcalls && Collected(s, itemid).0.resultrefs == s.resultrefs
  {
  }

  // ---------------------------------------------------------------- the events of one input

  lemma {:induction false} WaitingUpdate(stacks: seq<seq<AtmEvent>>, t: nat, more: seq<AtmEvent>)
    requires t < |stacks|
    ensures WaitingEvents(stacks[t := more]) + multiset(stacks[t]) == WaitingEvents(stacks) + multiset(more)
  {
    var rest := WaitingEvents(stacks[1..]);
    if t > 0 {
      WaitingUpdate(stacks[1..], t - 1, more);
      assert stacks[t := more][1..] == stacks[1..][t - 1 := more];
      Added(multiset(stacks[0]), WaitingEvents(stacks[1..][t - 1 := more]), multiset(stacks[t]), rest, multiset(more));
    } else {
      assert stacks[t := more][1..] == stacks[1..];
      Moved(multiset(more), rest, multiset(stacks[0]));
    }
  }

  lemma {:induction false} PoppedWaits(s: State, t: nat)
    requires |s.eventstacks| == NOF_EVENT_TYPES && t < NOF_EVENT_TYPES && s.eventstacks[t] != []
    ensures WaitingEvents(Popped(s, t).eventstacks) + multiset{s.eventstacks[t][|s.eventstacks[t]| - 1]} == WaitingEvents(s.eventstacks)
  {
    hide WaitingEvents;
    var stack := s.eventstacks[t];
    var n := |stack| - 1;
    WaitingUpdate(s.eventstacks, t, stack[..n]);
    assert stack == stack[..n] + [stack[n]];
    var before, after, front := WaitingEvents(s.eventstacks), WaitingEvents(Popped(s, t).eventstacks), multiset(stack[..n]);
    assert front + multiset{} == front && before + multiset{} == before;
    Cancelled(after, multiset{stack[n]}, before, front, multiset{});
  }

  lemma {:induction false} PushedWaits(stacks: seq<seq<AtmEvent>>, evs: seq<AtmEvent>)
    requires |stacks| == NOF_EVENT_TYPES
    ensures WaitingEvents(PushAll(stacks, evs)) == WaitingEvents(stacks) + multiset(evs)
    decreases |evs|
  {
    hide WaitingEvents;
    if evs != [] {
      var n := |evs| - 1;
      var r := PushAll(stacks, evs[..n]);
      var stack, one := r[Rank(evs[n])], multiset{evs[n]};
      PushedWaits(stacks, evs[..n]);
      WaitingUpdate(r, Rank(evs[n]), stack + [evs[n]]);
      assert evs == evs[..n] + [evs[n]];
      assert multiset(stack) + multiset{} == multiset(stack) && WaitingEvents(PushAll(stacks, evs)) + multiset{} == WaitingEvents(PushAll(stacks, evs));
      Cancelled(WaitingEvents(PushAll(stacks, evs)), multiset{}, WaitingEvents(r), multiset(stack), one);
      Moved(WaitingEvents(stacks), multiset(evs[..n]), one);
    }
  }

  /** Emptying the stacks does every event that no longer waits. */
  lemma {:induction false} DrainCalls(d: Description, s: State, t: nat, value: Value,
                                      done: multiset<AtmEvent>, lost: multiset<nat>, triggered: multiset<AtmEvent>)
    returns (done': multiset<AtmEvent>, lost': multiset<nat>)
    requires Ready(d, s) && t <= NOF_EVENT_TYPES && CallsAccounted(d, s, done, lost) && EventsAccounted(s, done, triggered)
    ensures var (r, ok) := DrainFrom(d, s, t, value);
            && CallsAccounted(d, r, done', lost') && EventsAccounted(r, done', triggered)
            && (ok ==> forall k :: t <= k < NOF_EVENT_TYPES ==> r.eventstacks[k] == [])
            && forall k :: 0 <= k < t ==> r.eventstacks[k] == s.eventstacks[k]
    decreases NOF_EVENT_TYPES - t, if t < NOF_EVENT_TYPES then |s.eventstacks[t]| else 0
  {
    hide CallsAccounted, WaitingEvents, ProcessEvent;
    if t == NOF_EVENT_TYPES {
      done', lost' := done, lost;
    } else if s.eventstacks[t] == [] {
      done', lost' := DrainCalls(d, s, t + 1, value, done, lost, triggered);
    } else {
      var ev := s.eventstacks[t][|s.eventstacks[t]| - 1];
      DrainUnfolds(d, s, t, value);
      PoppedWaits(s, t);
      SameCalls(d, s, Popped(s, t), done, lost);
      var (s1, ok) := ProcessEvent(d, Popped(s, t), ev, value);
      var now := EventCalls(d, Popped(s, t), ev, value, done, lost);
      assert done + multiset{ev} + WaitingEvents(s1.eventstacks) == done + (WaitingEvents(s1.eventstacks) + multiset{ev});
      if ok {
        done', lost' := DrainCalls(d, s1, t, value, done + multiset{ev}, now, triggered);
      } else {
        done', lost' := done + multiset{ev}, now;
      }
    }
  }

  lemma {:induction false} SameCalls(d: Description, s: State, r: State, done: multiset<AtmEvent>, lost: multiset<nat>)
    requires CallsAccounted(d, s, done, lost) && r.methodcalls == s.methodcalls && r.resultrefs == s.resultrefs
    ensures CallsAccounted(d, r, done, lost)
  {
  }

  /** Nothing waits. */
  ghost predicate NoneWaits(s: State) {
    forall stack :: stack in s.eventstacks ==> stack == []
  }

  lemma {:induction false} NoneWaiting(stacks: seq<seq<AtmEvent>>)
    requires forall stack :: stack in stacks ==> stack == []
    ensures WaitingEvents(stacks) == multiset{}
  {
    if stacks != [] {
      assert stacks[0] in stacks && forall x :: x in stacks[1..] ==> x in stacks;
      NoneWaiting(stacks[1..]);
    }
  }

  lemma {:induction false} FeedCalls(d: Description, s: State, input: InputEvent,
                                     done: multiset<AtmEvent>, lost: multiset<nat>, triggered: multiset<AtmEvent>)
    returns (done': multiset<AtmEvent>, lost': multiset<nat>)
    requires Ready(d, s) && AllRegistered(d, input.evs) && CallsAccounted(d, s, done, lost) && EventsAccounted(s, done, triggered)
    ensures var (r, ok) := Feed(d, s, input);
            && CallsAccounted(d, r, done', lost')
            && EventsAccounted(r, done', triggered + if IsTaken(s, input) then multiset(input.evs) else multiset{})
            && (IsTaken(s, input) && ok ==> NoneWaits(r))
  {
    hide CallsAccounted, WaitingEvents, Feed, DrainFrom;
    FeedIsProcessing(d, s, input);
    assert triggered + multiset{} == triggered;
    var r := Feed(d, s, input).0;
    if IsTaken(s, input) {
      var s0 := Entered(s, input);
      PushAllOk(d, s0.eventstacks, input.evs);
      PushedWaits(s0.eventstacks, input.evs);
      var full := s0.(eventstacks := PushAll(s0.eventstacks, input.evs));
      SameCalls(d, s, full, done, lost);
      done', lost' := DrainCalls(d, full, 0, ValueSeen(input), done, lost, triggered + multiset(input.evs));
      SameCalls(d, ProcessEvents(d, s0, input.evs, ValueSeen(input)).0, r, done', lost');
    } else {
      done', lost' := done, lost;
      SameCalls(d, s, r, done, lost);
    }
  }

  // ---------------------------------------------------------------- runs

  lemma {:induction false} InitCalls(d: Description)
    requires d.Valid()
    ensures CallsAccounted(d, InitState(d), multiset{}, multiset{}) && EventsAccounted(InitState(d), multiset{}, multiset{})
  {
    NoneWaiting(InitState(d).eventstacks);
  }

  /** On every run: each event triggered is done or waits behind one that failed. Each call event that is done has its
      call, unless the call was taken back, which happens only to calls that compete with a prioritised definition; and
      each event that is done for a reference of a result has its record. */
  lemma {:induction false} RunCalls(d: Description, inputs: seq<InputEvent>) returns (done: multiset<AtmEvent>, lost: multiset<nat>)
    requires AllInputsOk(d, inputs)
    ensures CallsAccounted(d, Run(d, inputs), done, lost) && EventsAccounted(Run(d, inputs), done, TriggeredEvents(d, inputs))
    ensures inputs != [] && EndsWell(d, inputs) ==> NoneWaits(Run(d, inputs))
    decreases |inputs|
  {
    hide CallsAccounted, EventsAccounted, NoneWaits, Feed, Inv;
    if inputs == [] {
      done, lost := multiset{}, multiset{};
      InitCalls(d);
    } else {
      var n := |inputs| - 1;
      done, lost := RunCalls(d, inputs[..n]);
      var s := Run(d, inputs[..n]);
      var triggered := TriggeredEvents(d, inputs[..n]);
      assert triggered + multiset{} == triggered;
      if s.scopestack != [] {
        RunIsReady(d, s);
        NotTakenFails(d, s, inputs[n]);
        done, lost := FeedCalls(d, s, inputs[n], done, lost, triggered);
      }
    }
  }

  lemma {:induction false} NotTakenFails(d: Description, s: State, input: InputEvent)
    requires Ready(d, s) && AllRegistered(d, input.evs)
    ensures Feed(d, s, input).1 ==> IsTaken(s, input)
  {
    hide ProcessEvents;
  }

  /** After an input without an error all events triggered so far are done: there are as many calls of a definition as
      its events were triggered, unless a competing one was prioritised, and as many records of a result. */
  lemma {:induction false} AllIsRecorded(d: Description, inputs: seq<InputEvent>, i: nat, r: nat)
    requires AllInputsOk(d, inputs) && inputs != [] && EndsWell(d, inputs)
    ensures var s, triggered := Run(d, inputs), TriggeredEvents(d, inputs);
            && CalledDefs(s.methodcalls)[i] <= triggered[MethodCall(i)]
            && (!IsReplaced(d, triggered, i) ==> CalledDefs(s.methodcalls)[i] == triggered[MethodCall(i)])
            && RecordedResults(s.resultrefs)[(r, i)] == if IsReference(d, r, i) then triggered[ResultInstruction(r, i)] else 0
  {
    hide Run, CalledDefs, RecordedResults, TriggeredEvents, EndsWell, Competes;
    var s := Run(d, inputs);
    var done, lost := RunCalls(d, inputs);
    NoneWaiting(s.eventstacks);
    assert done + multiset{} == done;
  }
}
