/** What a request context holds, and what every event of a document does to it.

    The path automaton is an oracle: every input event brings the list of automaton events it triggers. */
module RequestState {
  import opened Scopes
  import opened ScopeObjects
  import opened Sequences

  // ---------------------------------------------------------------- the request description

  /** A call definition; without a class it is the assignment of a variable. */
  datatype CallDef = CallDef(resultvarname: Option<string>, isVariableAssignment: bool, groupid: int)

  datatype ResultNode = InputReference(itemid: nat) | ResultReference(variable: string) | OtherNode

  datatype Description = Description(
    calldefs: seq<CallDef>,
    structitems: seq<nat>,
    valueitems: seq<nat>,
    resultdefs: seq<seq<ResultNode>>,
    acceptedRootTags: set<string>,
    strict: bool,
    maxitemid: nat)
  {
    ghost predicate Valid() {
      && (forall i :: 0 <= i < |structitems| ==> structitems[i] <= maxitemid)
      && (forall i :: 0 <= i < |valueitems| ==> valueitems[i] <= maxitemid)
      && (forall i :: 0 <= i < |calldefs| ==> calldefs[i].groupid >= 0)
    }

    predicate IsValidRootTagSet(tags: set<string>) {
      !strict || (!(tags == {} && acceptedRootTags != {}) && tags <= acceptedRootTags)
    }
  }

  datatype AtmEvent =
    | InstantiateValue(idx: nat)
    | CollectValue(idx: nat)
    | CloseStruct(idx: nat)
    | MethodCall(idx: nat)
    | MethodCallPrioritize(idx: nat)
    | InheritFrom(idx: nat)
    | ResultInstruction(resultidx: nat, instridx: nat)

  const NOF_EVENT_TYPES := 7

  function Rank(ev: AtmEvent): (r: nat)
    ensures r < NOF_EVENT_TYPES
  {
    match ev
    case InstantiateValue(_) => 0
    case CollectValue(_) => 1
    case CloseStruct(_) => 2
    case MethodCall(_) => 3
    case MethodCallPrioritize(_) => 4
    case InheritFrom(_) => 5
    case ResultInstruction(_, _) => 6
  }

  /** The automaton only issues events that were registered with it. */
  ghost predicate IsRegistered(d: Description, ev: AtmEvent) {
    match ev
    case InstantiateValue(i) => i < |d.valueitems|
    case CollectValue(i) => i < |d.valueitems|
    case CloseStruct(i) => i < |d.structitems|
    case MethodCall(i) => i < |d.calldefs|
    case MethodCallPrioritize(i) => i < |d.calldefs|
    case InheritFrom(_) => true
    case ResultInstruction(_, _) => true
  }

  ghost predicate AllRegistered(d: Description, evs: seq<AtmEvent>) {
    forall ev :: ev in evs ==> IsRegistered(d, ev)
  }

  // ---------------------------------------------------------------- the state

  type Value = Option<string>

  datatype ValueNode = ValueNode(itemid: nat, value: Value)

  /** A recorded call: group and event number (with the definition) are its sort key. */
  datatype MethodCallNode = MethodCallNode(group: int, position: int, def: nat, scope: Scope, taglevel: nat)

  datatype ResultRef = ResultRef(resultidx: nat, instridx: nat, scope: Scope)

  datatype ErrorCode = Ok | SyntaxError | DuplicateDefinition | ExecutionOrder | LogicError | InvalidRequest

  datatype State = State(
    scopecnt: int,
    scopestack: seq<int>,
    valuenodes: seq<ValueNode>,
    values: seq<Value>,
    structs: seq<nat>,
    scopeobjmap: seq<seq<Entry>>,
    methodcalls: seq<MethodCallNode>,
    resultrefs: seq<ResultRef>,
    rootelements: set<string>,
    eventstacks: seq<seq<AtmEvent>>,
    done: bool,
    errcode: ErrorCode)

  function InitState(d: Description): State {
    State(0, [0], [], [], [], seq(d.maxitemid + 1, _ => []), [], [], {}, seq(NOF_EVENT_TYPES, _ => []), false, Ok)
  }

  function CurScope(s: State): Scope
    requires |s.scopestack| > 0
  {
    Scope(s.scopestack[|s.scopestack| - 1], s.scopecnt)
  }

  // ---------------------------------------------------------------- one automaton event

  /** Adds a reference to the map of an item. */
  function InsertRef(maps: seq<seq<Entry>>, itemid: nat, scope: Scope, kind: ScopeKeyType, ref: ObjectRef, level: nat): seq<seq<Entry>>
    requires itemid < |maps|
  {
    maps[itemid := Insert(maps[itemid], Entry(ScopeKey(scope, kind), ref, level))]
  }

  /** Adds references to consecutive values, the first one with the given index. */
  ghost function InsertValues(maps: seq<seq<Entry>>, itemid: nat, scope: Scope, level: nat, first: nat, nof: nat): (r: seq<seq<Entry>>)
    requires itemid < |maps|
    ensures |r| == |maps|
  {
    if nof == 0 then maps
    else InsertRef(InsertValues(maps, itemid, scope, level, first, nof - 1), itemid, scope, ValueScope, ValueRef(first + nof - 1), level)
  }

  /** Records the values as objects of the item in the current scope. */
  ghost function RecordValues(s: State, itemid: nat, vals: seq<Value>): State
    requires |s.scopestack| > 0 && itemid < |s.scopeobjmap|
  {
    s.(scopeobjmap := InsertValues(s.scopeobjmap, itemid, CurScope(s), |s.scopestack|, |s.values|, |vals|),
       values := s.values + vals)
  }

  /** The pending values of an item. */
  ghost function ValuesOf(itemid: nat, nodes: seq<ValueNode>): seq<Value>
    decreases |nodes|
  {
    if nodes == [] then []
    else
      var n := |nodes| - 1;
      ValuesOf(itemid, nodes[..n]) + if nodes[n].itemid == itemid then [nodes[n].value] else []
  }

  /** The pending values of all other items. */
  ghost function OthersOf(itemid: nat, nodes: seq<ValueNode>): seq<ValueNode>
    decreases |nodes|
  {
    if nodes == [] then []
    else
      var n := |nodes| - 1;
      OthersOf(itemid, nodes[..n]) + if nodes[n].itemid != itemid then [nodes[n]] else []
  }

  /** All pending values of the item become objects; none counts as one undefined value, more than one is an error. */
  ghost function Collected(s: State, itemid: nat): (State, bool)
    requires |s.scopestack| > 0 && itemid < |s.scopeobjmap|
  {
    var vals := ValuesOf(itemid, s.valuenodes);
    var s1 := RecordValues(s.(valuenodes := OthersOf(itemid, s.valuenodes)), itemid, if vals == [] then [None] else vals);
    if |vals| > 1 then (s1.(errcode := DuplicateDefinition), false) else (s1, true)
  }

  predicate SameVariable(a: Option<string>, b: Option<string>) {
    a == b
  }

  /** The names of a call and of the prioritised definition are compared although the latter is missing. */
  predicate ComparesMissing(d: Description, def: nat, scope: Scope, mc: MethodCallNode)
    requires def < |d.calldefs|
  {
    && mc.scope.Inside(scope) && mc.def != def && mc.def < |d.calldefs|
    && d.calldefs[mc.def].resultvarname.Some? && d.calldefs[def].resultvarname.None?
  }

  /** Prioritisation has to compare with a missing name. */
  ghost predicate NameIsMissed(d: Description, calls: seq<MethodCallNode>, def: nat, scope: Scope)
    requires def < |d.calldefs|
  {
    HasCall(calls, def, scope) && exists mc :: mc in calls && ComparesMissing(d, def, scope, mc)
  }

  /** A call another definition made for the same variable inside the scope. */
  predicate IsSuppressed(d: Description, def: nat, scope: Scope, mc: MethodCallNode)
    requires def < |d.calldefs|
  {
    && mc.scope.Inside(scope) && mc.def != def && mc.def < |d.calldefs|
    && SameVariable(d.calldefs[mc.def].resultvarname, d.calldefs[def].resultvarname)
  }

  predicate IsCallOf(def: nat, scope: Scope, mc: MethodCallNode) {
    mc.scope.Inside(scope) && mc.def == def
  }

  ghost predicate HasCall(calls: seq<MethodCallNode>, def: nat, scope: Scope) {
    exists mc :: mc in calls && IsCallOf(def, scope, mc)
  }

  ghost function WithoutSuppressed(d: Description, calls: seq<MethodCallNode>, def: nat, scope: Scope): seq<MethodCallNode>
    requires def < |d.calldefs|
  {
    Filter((mc: MethodCallNode) => !IsSuppressed(d, def, scope, mc), calls)
  }

  /** Prioritisation as a filter over the whole list. */
  ghost function Prioritized(d: Description, calls: seq<MethodCallNode>, def: nat, scope: Scope): seq<MethodCallNode>
    requires def < |d.calldefs|
  {
    if HasCall(calls, def, scope) then WithoutSuppressed(d, calls, def, scope) else calls
  }

  /** Where the calls begin that start at or after a number, going back from the last one to the first that does not. */
  function TailStart(calls: seq<MethodCallNode>, from: int): (k: nat)
    ensures k <= |calls|
    decreases |calls|
  {
    var n := |calls| - 1;
    if calls == [] || calls[n].scope.from < from then |calls| else TailStart(calls[..n], from)
  }

  lemma {:induction false} TailStarts(calls: seq<MethodCallNode>, from: int)
    ensures var k := TailStart(calls, from);
            && (k > 0 ==> calls[k - 1].scope.from < from) && forall i :: k <= i < |calls| ==> calls[i].scope.from >= from
    decreases |calls|
  {
    if calls != [] { TailStarts(calls[..|calls| - 1], from); }
  }

  /** Prioritisation by a backward scan, which does not get beyond the first call that starts before the scope. */
  ghost function Scanned(d: Description, calls: seq<MethodCallNode>, def: nat, scope: Scope): seq<MethodCallNode>
    requires def < |d.calldefs|
  {
    var k := TailStart(calls, scope.from);
    calls[..k] + Prioritized(d, calls[k..], def, scope)
  }

  ghost function ResultRecorded(d: Description, s: State, resultidx: nat, instridx: nat): (State, bool)
    requires |s.scopestack| > 0
  {
    if resultidx >= |d.resultdefs| || instridx >= |d.resultdefs[resultidx]| then
      (s.(errcode := LogicError), false)
    else if d.resultdefs[resultidx][instridx].OtherNode? then
      (s, true)
    else
      (s.(resultrefs := s.resultrefs + [ResultRef(resultidx, instridx, CurScope(s))]), true)
  }

  ghost function ProcessEvent(d: Description, s: State, ev: AtmEvent, value: Value): (State, bool)
    requires IsRegistered(d, ev) && d.Valid()
    requires |s.scopestack| > 0 && |s.scopeobjmap| == d.maxitemid + 1
  {
    match ev
    case InstantiateValue(i) => (s.(valuenodes := s.valuenodes + [ValueNode(d.valueitems[i], value)]), true)
    case CollectValue(i) => Collected(s, d.valueitems[i])
    case CloseStruct(i) =>
      var maps := InsertRef(s.scopeobjmap, d.structitems[i], CurScope(s), ObjectScope, StructRef(|s.structs|), |s.scopestack|);
      (s.(scopeobjmap := maps, structs := s.structs + [i]), true)
    case MethodCall(i) =>
      var mc := MethodCallNode(d.calldefs[i].groupid, s.scopecnt, i, CurScope(s), |s.scopestack|);
      var s1 := s.(methodcalls := s.methodcalls + [mc]);
      if s.done then (s1.(errcode := ExecutionOrder), false) else (s1, true)
    case MethodCallPrioritize(i) => (s.(methodcalls := Scanned(d, s.methodcalls, i, CurScope(s))), true)
    case InheritFrom(_) => (s, true)
    case ResultInstruction(r, i) => ResultRecorded(d, s, r, i)
  }

  // ---------------------------------------------------------------- the events of one input

  ghost predicate StacksOk(d: Description, stacks: seq<seq<AtmEvent>>) {
    && |stacks| == NOF_EVENT_TYPES
    && forall t, i :: 0 <= t < NOF_EVENT_TYPES && 0 <= i < |stacks[t]| ==> IsRegistered(d, stacks[t][i]) && Rank(stacks[t][i]) == t
  }

  function PushAll(stacks: seq<seq<AtmEvent>>, evs: seq<AtmEvent>): (r: seq<seq<AtmEvent>>)
    requires |stacks| == NOF_EVENT_TYPES
    ensures |r| == NOF_EVENT_TYPES
    decreases |evs|
  {
    if evs == [] then stacks
    else
      var n := |evs| - 1;
      var r := PushAll(stacks, evs[..n]);
      r[Rank(evs[n]) := r[Rank(evs[n])] + [evs[n]]]
  }

  ghost predicate Ready(d: Description, s: State) {
    d.Valid() && |s.scopestack| > 0 && |s.scopeobjmap| == d.maxitemid + 1 && StacksOk(d, s.eventstacks)
  }

  lemma {:induction false} ProcessEventFrame(d: Description, s: State, ev: AtmEvent, value: Value)
    requires Ready(d, s) && IsRegistered(d, ev)
    ensures var (r, _) := ProcessEvent(d, s, ev, value);
            && r.scopecnt == s.scopecnt && r.scopestack == s.scopestack && r.eventstacks == s.eventstacks
            && r.rootelements == s.rootelements && r.done == s.done && Ready(d, r)
  {
  }

  /** The stacks are emptied type by type, every stack from its top. */
  ghost function DrainFrom(d: Description, s: State, t: nat, value: Value): (r: (State, bool))
    requires Ready(d, s) && t <= NOF_EVENT_TYPES
    ensures Ready(d, r.0)
    ensures r.0.scopecnt == s.scopecnt && r.0.scopestack == s.scopestack
    ensures r.0.rootelements == s.rootelements && r.0.done == s.done
    decreases NOF_EVENT_TYPES - t, if t < NOF_EVENT_TYPES then |s.eventstacks[t]| else 0
  {
    if t == NOF_EVENT_TYPES then (s, true)
    else if s.eventstacks[t] == [] then DrainFrom(d, s, t + 1, value)
    else
      var n := |s.eventstacks[t]| - 1;
      var ev := s.eventstacks[t][n];
      var s0 := s.(eventstacks := s.eventstacks[t := s.eventstacks[t][..n]]);
      ProcessEventFrame(d, s0, ev, value);
      var (s1, ok) := ProcessEvent(d, s0, ev, value);
      if ok then DrainFrom(d, s1, t, value) else (s1, false)
  }

  lemma {:induction false} PushAllOk(d: Description, stacks: seq<seq<AtmEvent>>, evs: seq<AtmEvent>)
    requires StacksOk(d, stacks) && AllRegistered(d, evs)
    ensures StacksOk(d, PushAll(stacks, evs))
    decreases |evs|
  {
    if evs != [] {
      assert evs[|evs| - 1] in evs;
      PushAllOk(d, stacks, evs[..|evs| - 1]);
    }
  }

  ghost function ProcessEvents(d: Description, s: State, evs: seq<AtmEvent>, value: Value): (r: (State, bool))
    requires Ready(d, s) && AllRegistered(d, evs)
    ensures Ready(d, r.0)
    ensures r.0.scopecnt == s.scopecnt && r.0.scopestack == s.scopestack
    ensures r.0.rootelements == s.rootelements && r.0.done == s.done
  {
    PushAllOk(d, s.eventstacks, evs);
    DrainFrom(d, s.(eventstacks := PushAll(s.eventstacks, evs)), 0, value)
  }

  // ---------------------------------------------------------------- one input event

  datatype InputEvent =
    | OpenTag(tag: Value, evs: seq<AtmEvent>)
    | AttributeName(name: Value, evs: seq<AtmEvent>)
    | AttributeValue(value: Value, evs: seq<AtmEvent>)
    | Content(value: Value, evs: seq<AtmEvent>)
    | CloseTag(evs: seq<AtmEvent>)

  function Tick(s: State): State {
    s.(scopecnt := s.scopecnt + 1)
  }

  /** The state with a new innermost scope; tags without an enclosing one are root elements. */
  function Pushed(s: State, tag: Value): State {
    var roots := if |s.scopestack| <= 1 && tag.Some? then s.rootelements + {tag.value} else s.rootelements;
    Tick(s).(rootelements := roots, scopestack := s.scopestack + [s.scopecnt + 1])
  }

  ghost function Opened(d: Description, s: State, tag: Value, evs: seq<AtmEvent>): (State, bool)
    requires Ready(d, s) && AllRegistered(d, evs)
  {
    if |s.scopestack| <= 1 && tag == Some("") then
      (Tick(s).(errcode := if s.errcode == Ok then SyntaxError else s.errcode), false)
    else
      ProcessEvents(d, Pushed(s, tag), evs, tag)
  }

  ghost function Closed(d: Description, s: State, evs: seq<AtmEvent>): (State, bool)
    requires Ready(d, s) && AllRegistered(d, evs)
  {
    var (s1, ok) := ProcessEvents(d, Tick(s), evs, None);
    if ok then (s1.(scopestack := s1.scopestack[..|s1.scopestack| - 1]), true) else (s1, false)
  }

  ghost function Feed(d: Description, s: State, input: InputEvent): (State, bool)
    requires Ready(d, s) && AllRegistered(d, input.evs)
  {
    match input
    case OpenTag(tag, evs) => Opened(d, s, tag, evs)
    case AttributeName(name, evs) => ProcessEvents(d, Tick(s), evs, name)
    case AttributeValue(value, evs) => ProcessEvents(d, Tick(s), evs, value)
    case Content(value, evs) => ProcessEvents(d, Tick(s), evs, value)
    case CloseTag(evs) => Closed(d, s, evs)
  }

  lemma {:induction false} FeedFrame(d: Description, s: State, input: InputEvent)
    requires Ready(d, s) && AllRegistered(d, input.evs)
    ensures var (r, ok) := Feed(d, s, input);
            && d.Valid() && |r.scopeobjmap| == d.maxitemid + 1 && StacksOk(d, r.eventstacks)
            && r.scopecnt == s.scopecnt + 1 && r.done == s.done
            && (ok ==> |r.scopestack| == |s.scopestack| + (if input.OpenTag? then 1 else if input.CloseTag? then -1 else 0))
  {
  }
}
