/** A request whose inherited item is not found, from its document to the search. */
module InheritedItems {
  import opened Scopes
  import opened ScopeObjects
  import opened Sequences
  import opened RequestState
  import opened RequestRuns
  import opened ItemResolver

  // ---------------------------------------------------------------- inputs with one event or none

  function NoStacks(): (r: seq<seq<AtmEvent>>)
    ensures |r| == NOF_EVENT_TYPES && forall t :: 0 <= t < NOF_EVENT_TYPES ==> r[t] == []
  {
    seq(NOF_EVENT_TYPES, _ => [])
  }

  lemma {:induction false} DrainNothing(d: Description, s: State, t: nat, value: Value)
    requires Ready(d, s) && t <= NOF_EVENT_TYPES && forall k :: t <= k < NOF_EVENT_TYPES ==> s.eventstacks[k] == []
    ensures DrainFrom(d, s, t, value) == (s, true)
    decreases NOF_EVENT_TYPES - t
  {
    if t < NOF_EVENT_TYPES { DrainNothing(d, s, t + 1, value); }
  }

  lemma {:induction false} DrainSingle(d: Description, s: State, t: nat, ev: AtmEvent, value: Value)
    requires Ready(d, s) && t <= Rank(ev) && IsRegistered(d, ev) && s.eventstacks == NoStacks()[Rank(ev) := [ev]]
    ensures var (r, ok) := ProcessEvent(d, s.(eventstacks := NoStacks()), ev, value);
            ok ==> DrainFrom(d, s, t, value) == (r, true)
    decreases Rank(ev) - t
  {
    if t < Rank(ev) {
      DrainSingle(d, s, t + 1, ev, value);
    } else {
      assert [ev][..0] == [] && s.eventstacks[t := []] == NoStacks();
      var s0 := s.(eventstacks := NoStacks());
      ProcessEventFrame(d, s0, ev, value);
      var (r, ok) := ProcessEvent(d, s0, ev, value);
      if ok { DrainNothing(d, r, t, value); }
    }
  }

  /** The value an event sees. */
  function ValueOfInput(input: InputEvent): Value {
    if input.Content? then input.value else None
  }

  /** The state after an opening without an event, or after content or a close with one. */
  ghost function StepOf(d: Description, s: State, input: InputEvent): State
    requires d.Valid() && |s.scopestack| > 0 && |s.scopeobjmap| == d.maxitemid + 1 && AllRegistered(d, input.evs)
  {
    if input.OpenTag? || input.evs == [] then Pushed(s, if input.OpenTag? then input.tag else None)
    else
      assert input.evs[0] in input.evs;
      var r := ProcessEvent(d, Tick(s), input.evs[0], ValueOfInput(input)).0;
      if input.CloseTag? then r.(scopestack := s.scopestack[..|s.scopestack| - 1]) else r
  }

  ghost predicate IsStep(d: Description, s: State, input: InputEvent)
    requires d.Valid() && |s.scopestack| > 0 && |s.scopeobjmap| == d.maxitemid + 1 && AllRegistered(d, input.evs)
  {
    if input.OpenTag? then input.evs == [] && input.tag.Some? && input.tag.value != ""
    else
      && (input.Content? || input.CloseTag?) && |input.evs| == 1
      && (assert input.evs[0] in input.evs; ProcessEvent(d, Tick(s), input.evs[0], ValueOfInput(input)).1)
  }

  /** A run has arrived at a state. */
  ghost predicate At(d: Description, inputs: seq<InputEvent>, s: State) {
    && d.Valid() && (forall i :: 0 <= i < |inputs| ==> AllRegistered(d, inputs[i].evs))
    && s == Run(d, inputs) && s.eventstacks == NoStacks()
  }

  lemma {:induction false} FeedStep(d: Description, s: State, input: InputEvent)
    requires Ready(d, s) && s.eventstacks == NoStacks() && AllRegistered(d, input.evs) && IsStep(d, s, input)
    ensures Feed(d, s, input) == (StepOf(d, s, input), true) && StepOf(d, s, input).eventstacks == NoStacks()
  {
    if input.OpenTag? {
      DrainNothing(d, Pushed(s, input.tag), 0, input.tag);
    } else {
      var ev, pushed := input.evs[0], PushAll(s.eventstacks, input.evs);
      assert ev in input.evs && input.evs[..0] == [] && PushAll(s.eventstacks, []) == s.eventstacks;
      assert pushed == s.eventstacks[Rank(ev) := s.eventstacks[Rank(ev)] + [ev]] && s.eventstacks[Rank(ev)] + [ev] == [ev];
      PushAllOk(d, s.eventstacks, input.evs);
      var full := Tick(s).(eventstacks := pushed);
      assert full.(eventstacks := NoStacks()) == Tick(s);
      DrainSingle(d, full, 0, ev, ValueOfInput(input));
      ProcessEventFrame(d, Tick(s), ev, ValueOfInput(input));
    }
  }

  lemma {:induction false} RunOneMore(d: Description, inputs: seq<InputEvent>, input: InputEvent)
    requires d.Valid() && AllRegistered(d, input.evs) && forall i :: 0 <= i < |inputs| ==> AllRegistered(d, inputs[i].evs)
    requires Run(d, inputs).scopestack != []
    ensures Ready(d, Run(d, inputs)) && forall i :: 0 <= i <= |inputs| ==> AllRegistered(d, (inputs + [input])[i].evs)
    ensures Run(d, inputs + [input]) == Feed(d, Run(d, inputs), input).0
  {
    hide Feed;
    assert (inputs + [input])[..|inputs|] == inputs;
  }

  lemma {:induction false} RunStep(d: Description, inputs: seq<InputEvent>, s: State, input: InputEvent)
    requires At(d, inputs, s) && !s.done && s.scopestack != [] && Ready(d, s) && AllRegistered(d, input.evs) && IsStep(d, s, input)
    ensures At(d, inputs + [input], StepOf(d, s, input))
  {
    hide Run, Feed, StepOf, IsStep, Ready, Inv;
    FeedStep(d, s, input);
    RunOneMore(d, inputs, input);
    assert forall i :: 0 <= i < |inputs| ==> (inputs + [input])[i] == inputs[i];
  }

  // ---------------------------------------------------------------- the request

  /** Two values bound to item 0, the first one in r and the second one in a, and one call in b. */
  function Bindings(): Description {
    Description([CallDef(None, false, 0)], [], [0, 0], [], {}, false, 0)
  }

  /** The document <r><a>x</a><b/>y</r>. */
  function Document(): seq<InputEvent> {
    [OpenTag(Some("r"), []), OpenTag(Some("a"), []), Content(Some("x"), [InstantiateValue(1)]), CloseTag([CollectValue(1)]),
     OpenTag(Some("b"), []), CloseTag([MethodCall(0)]), Content(Some("y"), [InstantiateValue(0)]), CloseTag([CollectValue(0)])]
  }

  const OUTER := Entry(ScopeKey(Scope(1, 8), ValueScope), ValueRef(1), 2)
  const CLOSED := Entry(ScopeKey(Scope(2, 4), ValueScope), ValueRef(0), 3)

  /** A single pending value is collected. */
  lemma {:induction false} CollectSingle(s: State, value: Value)
    requires s.valuenodes == [ValueNode(0, value)] && |s.scopestack| > 0 && |s.scopeobjmap| == 1
    ensures Collected(s, 0)
         == (s.(valuenodes := [], values := s.values + [value],
                scopeobjmap := InsertRef(s.scopeobjmap, 0, CurScope(s), ValueScope, ValueRef(|s.values|), |s.scopestack|)), true)
  {
    assert s.valuenodes[..0] == [];
    assert ValuesOf(0, s.valuenodes) == [] + [value] == [value];
    assert OthersOf(0, s.valuenodes) == [] + [] == [];
    var rest := s.(valuenodes := []);
    assert CurScope(rest) == CurScope(s);
    assert Collected(s, 0) == (RecordValues(rest, 0, [value]), true);
    var m, n := s.scopeobjmap, |s.values|;
    assert InsertValues(m, 0, CurScope(s), |s.scopestack|, n, 1) == InsertRef(m, 0, CurScope(s), ValueScope, ValueRef(n), |s.scopestack|);
  }

  lemma {:induction false} DocumentOpened() returns (s: State)
    ensures At(Bindings(), Document()[..3], s) && s.scopecnt == 3 && s.scopestack == [0, 1, 2] && Ready(Bindings(), s)
    ensures s.scopeobjmap == [[]] && s.values == [] && s.valuenodes == [ValueNode(0, Some("x"))] && s.methodcalls == [] && !s.done
  {
    hide Run, At;
    var d, doc := Bindings(), Document();
    InitAt();
    s := InitState(d);
    RunStep(d, [], s, doc[0]);
    s := StepOf(d, s, doc[0]);
    RunStep(d, [] + [doc[0]], s, doc[1]);
    s := StepOf(d, s, doc[1]);
    RunStep(d, [] + [doc[0]] + [doc[1]], s, doc[2]);
    s := StepOf(d, s, doc[2]);
    assert [] + [doc[0]] + [doc[1]] + [doc[2]] == doc[..3];
  }

  lemma {:induction false} DocumentClosed() returns (s: State)
    ensures At(Bindings(), Document()[..4], s) && s.scopecnt == 4 && s.scopestack == [0, 1] && Ready(Bindings(), s)
    ensures s.scopeobjmap == [[CLOSED]] && s.values == [Some("x")] && s.valuenodes == [] && s.methodcalls == [] && !s.done
  {
    hide Run, At, Collected;
    var doc := Document();
    s := DocumentOpened();
    CollectSingle(Tick(s), Some("x"));
    RunStep(Bindings(), doc[..3], s, doc[3]);
    s := StepOf(Bindings(), s, doc[3]);
    assert Insert([], CLOSED) == [CLOSED] && doc[..3] + [doc[3]] == doc[..4];
  }

  lemma {:induction false} DocumentCalled() returns (s: State)
    ensures At(Bindings(), Document()[..6], s) && s.scopecnt == 6 && s.scopestack == [0, 1] && Ready(Bindings(), s)
    ensures s.scopeobjmap == [[CLOSED]] && s.values == [Some("x")] && s.valuenodes == [] && !s.done
    ensures s.methodcalls == [MethodCallNode(0, 6, 0, Scope(5, 6), 3)]
  {
    hide Run, At, Insert;
    var doc := Document();
    s := DocumentClosed();
    RunStep(Bindings(), doc[..4], s, doc[4]);
    s := StepOf(Bindings(), s, doc[4]);
    assert s.scopestack == [0, 1, 5] && doc[..4] + [doc[4]] == doc[..5];
    RunStep(Bindings(), doc[..5], s, doc[5]);
    s := StepOf(Bindings(), s, doc[5]);
    assert s.scopestack == [0, 1] && doc[..5] + [doc[5]] == doc[..6];
  }

  lemma {:induction false} DocumentContinued() returns (s: State)
    ensures At(Bindings(), Document()[..7], s) && s.scopecnt == 7 && s.scopestack == [0, 1] && Ready(Bindings(), s)
    ensures s.scopeobjmap == [[CLOSED]] && s.values == [Some("x")] && s.valuenodes == [ValueNode(0, Some("y"))] && !s.done
    ensures s.methodcalls == [MethodCallNode(0, 6, 0, Scope(5, 6), 3)]
  {
    hide Run, At, Insert;
    var doc := Document();
    s := DocumentCalled();
    RunStep(Bindings(), doc[..6], s, doc[6]);
    s := StepOf(Bindings(), s, doc[6]);
    assert doc[..6] + [doc[6]] == doc[..7];
  }

  /** Both values are objects of the item, and the call is between them and their end. */
  lemma {:induction false} DocumentRun()
    ensures Bindings().Valid() && forall i :: 0 <= i < |Document()| ==> AllRegistered(Bindings(), Document()[i].evs)
    ensures Run(Bindings(), Document()).scopeobjmap == [[OUTER, CLOSED]]
    ensures Run(Bindings(), Document()).values == [Some("x"), Some("y")]
    ensures Run(Bindings(), Document()).methodcalls == [MethodCallNode(0, 6, 0, Scope(5, 6), 3)]
  {
    hide Run, Collected;
    var doc := Document();
    var s := DocumentContinued();
    CollectSingle(Tick(s), Some("y"));
    RunStep(Bindings(), doc[..7], s, doc[7]);
    assert doc[..7] + [doc[7]] == doc;
    assert Insert([CLOSED], OUTER) == [OUTER, CLOSED] by { assert [CLOSED][1..] == []; }
  }

  lemma {:induction false} InitAt()
    ensures At(Bindings(), [], InitState(Bindings())) && Ready(Bindings(), InitState(Bindings())) && InitState(Bindings()).scopeobjmap == [[]]
  {
    assert InitState(Bindings()).eventstacks == NoStacks();
  }

  /** The value around the call covers it, but the search from the one collected before does not get there. */
  lemma {:induction false} CoveringSearchIsIncomplete(range: TagLevelRange)
    requires range.first <= 2 <= range.last
    ensures ValidMap([OUTER, CLOSED]) && IsNearestBefore([OUTER, CLOSED], 5, 1)
    ensures CoveringExists([OUTER, CLOSED], Scope(5, 6), range) && !CoveringFound([OUTER, CLOSED], Scope(5, 6), range)
  {
    var m, scope := [OUTER, CLOSED], Scope(5, 6);
    assert ScopesOf(m) == {OUTER.key.scope, CLOSED.key.scope};
    assert MatchesCovering(m[0], scope, range);
    FoundFrom(m, scope, range, 1);
    assert !MatchesCovering(m[1], scope, range);
  }

  /** The search in the scope of the call, after the document has been fed. */
  method SearchInherited(range: TagLevelRange) returns (r: Option<ResolvedObject>)
    requires range.first <= 2 <= range.last
    ensures Run(Bindings(), Document()).scopeobjmap == [[OUTER, CLOSED]]
    ensures CoveringExists([OUTER, CLOSED], Scope(5, 6), range) && r == None
  {
    hide Run, CoveringFound, CoveringExists, IsNearestBefore, Reached;
    DocumentRun();
    CoveringSearchIsIncomplete(range);
    var itr := new RequestIterator([[OUTER, CLOSED]]);
    itr.SetResolverUpperBound(Scope(5, 6), 0);
    r := itr.ResolveNearItemCoveringScope(Scope(5, 6), range, 0);
  }
}
