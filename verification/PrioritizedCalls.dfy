/** A request in which prioritisation compares with a missing name. */
module PrioritizedCalls {
  import opened Scopes
  import opened Sequences
  import opened RequestState
  import opened RequestRuns
  import RequestContext
  import opened InheritedItems

  /** A definition with a result and one without. */
  function TwoCalls(): Description {
    Description([CallDef(Some("x"), false, 0), CallDef(None, false, 1)], [], [], [], {}, false, 0)
  }

  /** The beginning <r><a/><b/> of a document: a makes the first call and b the second one. */
  function Beginning(): seq<InputEvent> {
    [OpenTag(Some("r"), []), OpenTag(Some("a"), []), CloseTag([MethodCall(0)]), OpenTag(Some("b"), []), CloseTag([MethodCall(1)])]
  }

  lemma {:induction false} FirstCall() returns (s: State)
    ensures At(TwoCalls(), Beginning()[..3], s) && s.scopecnt == 3 && s.scopestack == [0, 1] && Ready(TwoCalls(), s) && !s.done
    ensures s.methodcalls == [MethodCallNode(0, 3, 0, Scope(2, 3), 3)]
  {
    hide Run, At;
    var d, doc := TwoCalls(), Beginning();
    Begins();
    s := InitState(d);
    RunStep(d, [], s, doc[0]);
    s := StepOf(d, s, doc[0]);
    RunStep(d, [] + [doc[0]], s, doc[1]);
    s := StepOf(d, s, doc[1]);
    RunStep(d, [] + [doc[0]] + [doc[1]], s, doc[2]);
    s := StepOf(d, s, doc[2]);
    assert [] + [doc[0]] + [doc[1]] + [doc[2]] == doc[..3];
  }

  lemma {:induction false} BothCalls() returns (s: State)
    ensures At(TwoCalls(), Beginning(), s) && s.scopecnt == 5 && s.scopestack == [0, 1] && !s.done
    ensures s.methodcalls == [MethodCallNode(0, 3, 0, Scope(2, 3), 3), MethodCallNode(1, 5, 1, Scope(4, 5), 3)]
  {
    hide Run, At;
    var doc := Beginning();
    s := FirstCall();
    RunStep(TwoCalls(), doc[..3], s, doc[3]);
    s := StepOf(TwoCalls(), s, doc[3]);
    assert s.scopestack == [0, 1, 4] && doc[..3] + [doc[3]] == doc[..4];
    RunStep(TwoCalls(), doc[..4], s, doc[4]);
    s := StepOf(TwoCalls(), s, doc[4]);
    assert doc[..4] + [doc[4]] == doc;
  }

  lemma {:induction false} Begins()
    ensures At(TwoCalls(), [], InitState(TwoCalls())) && Ready(TwoCalls(), InitState(TwoCalls()))
  {
    assert InitState(TwoCalls()).eventstacks == NoStacks();
  }

  /** When r ends and prioritises the definition without a result, the name of the first call is compared with none. */
  lemma {:induction false} MissingNameIsCompared()
    ensures TwoCalls().Valid() && forall i :: 0 <= i < |Beginning()| ==> AllRegistered(TwoCalls(), Beginning()[i].evs)
    ensures var s := Tick(Run(TwoCalls(), Beginning()));
            && Inv(TwoCalls(), s) && !s.done && |s.scopestack| > 0
            && NameIsMissed(TwoCalls(), s.methodcalls[TailStart(s.methodcalls, CurScope(s).from)..], 1, CurScope(s))
  {
    hide Run, NameIsMissed, Inv;
    var d := TwoCalls();
    var r := BothCalls();
    assert r == Run(d, Beginning());
    RequestContext.TickKeeps(d, r);
    var s := Tick(r);
    NameIsMissedIff(d, s, 1);
    assert Since(s, s.methodcalls[0]) && Since(s, s.methodcalls[1]);
  }
}
