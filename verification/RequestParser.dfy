/** From a JSON document to the events of a request: the list of items and the loop that feeds them. */
module RequestParser {
  import opened Scopes
  import opened ScopeObjects
  import opened Sequences
  import opened RequestState
  import opened RequestRuns
  import opened CallGroups
  import opened RequestContext
  import opened ItemResolver
  import Decimals

  const MAX_RECURSION_DEPTH := 200

  // ---------------------------------------------------------------- documents and items

  datatype JsonKind =
    | JsonFalse
    | JsonTrue
    | JsonNull
    | JsonString(str: string)
    | JsonNumber(num: Option<string>)
    | JsonArray(elems: seq<Json>)
    | JsonObject(members: seq<Json>)
    | JsonUnknown

  datatype Json = Json(name: Option<string>, kind: JsonKind)

  datatype Item =
    | TagAttribName(value: string)
    | TagAttribValue(value: string)
    | ItemOpenTag(value: string)
    | ItemCloseTag
    | ItemContent(value: string)

  predicate StartsWith(s: string, c: char) {
    |s| > 0 && s[0] == c
  }

  /** The items of an atomic value: an attribute, the text of the parent, or an element of its own. */
  function ValueItems(name: Option<string>, value: string): seq<Item> {
    if name.None? || name.value == "#text" then [ItemContent(value)]
    else if StartsWith(name.value, '-') then [TagAttribName(name.value[1..]), TagAttribValue(value)]
    else [ItemOpenTag(name.value), ItemContent(value), ItemCloseTag]
  }

  // ---------------------------------------------------------------- what is accepted, and what it means

  /** Documents up to the maximal depth whose numbers have a text and whose nodes have a known type. */
  predicate Accepted(nd: Json, depth: nat)
    decreases nd, 1
  {
    depth <= MAX_RECURSION_DEPTH
    && match nd.kind
       case JsonUnknown => false
       case JsonNumber(num) => num.Some?
       case JsonArray(elems) => AllAccepted(elems, depth + 1)
       case JsonObject(members) => AllAccepted(members, depth + 1)
       case _ => true
  }

  predicate AllAccepted(nds: seq<Json>, depth: nat)
    decreases nds, 0
  {
    forall i :: 0 <= i < |nds| ==> Accepted(nds[i], depth)
  }

  function Enclosed(tag: string, items: seq<Item>): seq<Item> {
    [ItemOpenTag(tag)] + items + [ItemCloseTag]
  }

  ghost function ItemsOf(nd: Json): seq<Item>
    decreases nd, 1
  {
    match nd.kind
    case JsonFalse => ValueItems(nd.name, "false")
    case JsonTrue => ValueItems(nd.name, "true")
    case JsonNull =>
      if nd.name.Some? && !StartsWith(nd.name.value, '-') && !StartsWith(nd.name.value, '#')
      then Enclosed(nd.name.value, []) else []
    case JsonString(v) => ValueItems(nd.name, v)
    case JsonNumber(num) => if num.Some? then ValueItems(nd.name, num.value) else []
    case JsonArray(elems) => ElementItems(nd.name, elems)
    case JsonObject(members) =>
      if nd.name.Some? then Enclosed(nd.name.value, MemberItems(members))
      else MemberItems(members)
    case JsonUnknown => []
  }

  ghost function MemberItems(nds: seq<Json>): seq<Item>
    decreases nds, 0
  {
    if nds == [] then [] else MemberItems(nds[..|nds| - 1]) + ItemsOf(nds[|nds| - 1])
  }

  /** Every array element gets a tag: the name of the array or else its index. */
  ghost function ElementItems(name: Option<string>, nds: seq<Json>): seq<Item>
    decreases nds, 0
  {
    if nds == [] then []
    else
      var tag := if name.Some? then name.value else Decimals.Digits(|nds|);
      ElementItems(name, nds[..|nds| - 1]) + Enclosed(tag, ItemsOf(nds[|nds| - 1]))
  }

  // ---------------------------------------------------------------- bracketing

  function LevelOf(item: Item): int {
    match item
    case ItemOpenTag(_) => 1
    case ItemCloseTag => -1
    case _ => 0
  }

  function Level(items: seq<Item>): int {
    if items == [] then 0 else Level(items[..|items| - 1]) + LevelOf(items[|items| - 1])
  }

  /** No close without an open before, and as many closes as opens. */
  ghost predicate Bracketed(items: seq<Item>) {
    && Level(items) == 0
    && forall k :: 0 <= k <= |items| ==> Level(items[..k]) >= 0
  }

  lemma {:induction false} LevelConcat(a: seq<Item>, b: seq<Item>)
    ensures Level(a + b) == Level(a) + Level(b)
  {
    if b == [] {
      assert a + b == a;
    } else {
      assert (a + b)[..|a + b| - 1] == a + b[..|b| - 1];
      LevelConcat(a, b[..|b| - 1]);
    }
  }

  lemma {:induction false} BracketedConcat(a: seq<Item>, b: seq<Item>)
    requires Bracketed(a) && Bracketed(b)
    ensures Bracketed(a + b)
  {
    LevelConcat(a, b);
    forall k | 0 <= k <= |a + b| ensures Level((a + b)[..k]) >= 0 {
      if k <= |a| {
        assert (a + b)[..k] == a[..k];
      } else {
        assert (a + b)[..k] == a + b[..k - |a|];
        LevelConcat(a, b[..k - |a|]);
      }
    }
  }

  lemma {:induction false} BracketedEnclosed(tag: string, a: seq<Item>)
    requires Bracketed(a)
    ensures Bracketed(Enclosed(tag, a))
  {
    var open, close := [ItemOpenTag(tag)], [ItemCloseTag];
    var r := open + a + close;
    assert open[..0] == [] && close[..0] == [];
    LevelConcat(open, a);
    LevelConcat(open + a, close);
    forall k | 0 <= k <= |r| ensures Level(r[..k]) >= 0 {
      if k == 0 {
      } else if k <= |a| + 1 {
        assert r[..k] == open + a[..k - 1];
        LevelConcat(open, a[..k - 1]);
      } else {
        assert r[..k] == r;
      }
    }
  }

  lemma {:induction false} ValueItemsBracketed(name: Option<string>, value: string)
    ensures Bracketed(ValueItems(name, value))
  {
    var r := ValueItems(name, value);
    assert forall k :: 0 < k <= |r| ==> r[..k][..k - 1] == r[..k - 1];
    assert Level(r[..0]) == 0;
    assert r[..|r|] == r;
    if |r| == 1 {
      assert Level(r[..1]) == 0;
    } else if |r| == 2 {
      assert Level(r[..1]) == 0 && Level(r[..2]) == 0;
    } else {
      assert Level(r[..1]) == 1 && Level(r[..2]) == 1 && Level(r[..3]) == 0;
    }
  }

  /** Every document yields a well-bracketed list of items. */
  lemma {:induction false} ItemsAreBracketed(nd: Json)
    ensures Bracketed(ItemsOf(nd))
    decreases nd, 1
  {
    match nd.kind
    case JsonFalse => ValueItemsBracketed(nd.name, "false");
    case JsonTrue => ValueItemsBracketed(nd.name, "true");
    case JsonString(v) => ValueItemsBracketed(nd.name, v);
    case JsonNumber(num) => if num.Some? { ValueItemsBracketed(nd.name, num.value); }
    case JsonNull =>
      if ItemsOf(nd) != [] {
        BracketedEnclosed(nd.name.value, []);
      }
    case JsonArray(elems) => ElementItemsBracketed(nd.name, elems);
    case JsonObject(members) =>
      MemberItemsBracketed(members);
      if nd.name.Some? { BracketedEnclosed(nd.name.value, MemberItems(members)); }
    case JsonUnknown =>
  }

  lemma {:induction false} MemberItemsBracketed(nds: seq<Json>)
    ensures Bracketed(MemberItems(nds))
    decreases nds, 0
  {
    if nds != [] {
      MemberItemsBracketed(nds[..|nds| - 1]);
      ItemsAreBracketed(nds[|nds| - 1]);
      BracketedConcat(MemberItems(nds[..|nds| - 1]), ItemsOf(nds[|nds| - 1]));
    }
  }

  lemma {:induction false} ElementItemsBracketed(name: Option<string>, nds: seq<Json>)
    ensures Bracketed(ElementItems(name, nds))
    decreases nds, 0
  {
    if nds != [] {
      var n := |nds| - 1;
      var tag := if name.Some? then name.value else Decimals.Digits(|nds|);
      ElementItemsBracketed(name, nds[..n]);
      ItemsAreBracketed(nds[n]);
      BracketedEnclosed(tag, ItemsOf(nds[n]));
      BracketedConcat(ElementItems(name, nds[..n]), Enclosed(tag, ItemsOf(nds[n])));
    }
  }

  // ---------------------------------------------------------------- building the item list

  datatype ParseError = ParseOk | MaxRecursionDepthReached | ValueUndefined | UnknownType

  lemma {:induction false} EnclosedAppended(a: seq<Item>, b: seq<Item>, tag: string, items: seq<Item>)
    ensures a + b + [ItemOpenTag(tag)] + items + [ItemCloseTag] == a + (b + Enclosed(tag, items))
  {
  }

  class JsonItems {
    var items: seq<Item>
    var errcode: ParseError

    constructor ()
      ensures items == [] && errcode == ParseOk
    {
      items, errcode := [], ParseOk;
    }

    /** Appends the items of a value. */
    method AddValue(name: Option<string>, value: string)
      modifies this`items
      ensures items == old(items) + ValueItems(name, value)
    {
      if name.Some? {
        if StartsWith(name.value, '-') {
          items := items + [TagAttribName(name.value[1..]), TagAttribValue(value)];
        } else if StartsWith(name.value, '#') && name.value == "#text" {
          items := items + [ItemContent(value)];
        } else {
          items := items + [ItemOpenTag(name.value), ItemContent(value), ItemCloseTag];
        }
      } else {
        items := items + [ItemContent(value)];
      }
    }

    /** Appends the items of a document; fails exactly for documents that are not accepted. */
    method Add(nd: Json, depth: nat) returns (ok: bool)
      modifies this
      ensures ok <==> Accepted(nd, depth)
      ensures ok ==> items == old(items) + ItemsOf(nd) && errcode == old(errcode)
      ensures !ok ==> errcode != ParseOk
      decreases nd, 2
    {
      if depth > MAX_RECURSION_DEPTH {
        errcode := MaxRecursionDepthReached;
        return false;
      }
      match nd.kind {
      case JsonFalse => AddValue(nd.name, "false");
      case JsonTrue => AddValue(nd.name, "true");
      case JsonNull =>
        if nd.name.Some? && !StartsWith(nd.name.value, '-') && !StartsWith(nd.name.value, '#') {
          items := items + [ItemOpenTag(nd.name.value), ItemCloseTag];
        }
      case JsonString(v) => AddValue(nd.name, v);
      case JsonNumber(num) =>
        if num.None? {
          errcode := ValueUndefined;
          return false;
        }
        AddValue(nd.name, num.value);
      case JsonArray(elems) =>
        ok := AddElements(nd.name, elems, depth + 1);
        return;
      case JsonObject(members) =>
        if nd.name.Some? { items := items + [ItemOpenTag(nd.name.value)]; }
        ok := AddMembers(members, depth + 1);
        if ok && nd.name.Some? { items := items + [ItemCloseTag]; }
        return;
      case JsonUnknown =>
        errcode := UnknownType;
        return false;
      }
      return true;
    }

    method AddMembers(nds: seq<Json>, depth: nat) returns (ok: bool)
      modifies this
      ensures ok <==> AllAccepted(nds, depth)
      ensures ok ==> items == old(items) + MemberItems(nds) && errcode == old(errcode)
      ensures !ok ==> errcode != ParseOk
      decreases nds, 1
    {
      hide Accepted, ItemsOf;
      var k := 0;
      assert nds[..0] == [];
      while k < |nds|
        invariant 0 <= k <= |nds|
        invariant AllAccepted(nds[..k], depth)
        invariant items == old(items) + MemberItems(nds[..k]) && errcode == old(errcode)
      {
        ok := Add(nds[k], depth);
        if !ok { return false; }
        assert nds[..k + 1][..k] == nds[..k];
        k := k + 1;
      }
      assert nds[..k] == nds;
      return true;
    }

    method AddElements(name: Option<string>, nds: seq<Json>, depth: nat) returns (ok: bool)
      modifies this
      ensures ok <==> AllAccepted(nds, depth)
      ensures ok ==> items == old(items) + ElementItems(name, nds) && errcode == old(errcode)
      ensures !ok ==> errcode != ParseOk
      decreases nds, 1
    {
      hide Accepted, ItemsOf;
      var k := 0;
      assert nds[..0] == [];
      while k < |nds|
        invariant 0 <= k <= |nds|
        invariant AllAccepted(nds[..k], depth)
        invariant items == old(items) + ElementItems(name, nds[..k]) && errcode == old(errcode)
      {
        var tag := if name.Some? then name.value else Decimals.Digits(k + 1);
        items := items + [ItemOpenTag(tag)];
        ok := Add(nds[k], depth);
        if !ok { return false; }
        items := items + [ItemCloseTag];
        EnclosedAppended(old(items), ElementItems(name, nds[..k]), tag, ItemsOf(nds[k]));
        assert nds[..k + 1][..k] == nds[..k];
        k := k + 1;
      }
      assert nds[..k] == nds;
      return true;
    }
  }

  // ---------------------------------------------------------------- feeding

  function ToInput(item: Item, evs: seq<AtmEvent>): InputEvent {
    match item
    case TagAttribName(v) => AttributeName(Some(v), evs)
    case TagAttribValue(v) => AttributeValue(Some(v), evs)
    case ItemOpenTag(v) => OpenTag(Some(v), evs)
    case ItemCloseTag => CloseTag(evs)
    case ItemContent(v) => Content(Some(v), evs)
  }

  /** The input events of a document, each with what the path automaton triggers at it. */
  function Inputs(items: seq<Item>, triggered: seq<seq<AtmEvent>>): (r: seq<InputEvent>)
    requires |items| <= |triggered|
    ensures |r| == |items|
  {
    seq(|items|, i requires 0 <= i < |items| => ToInput(items[i], triggered[i]))
  }

  ghost predicate Registered(d: Description, inputs: seq<InputEvent>) {
    forall i :: 0 <= i < |inputs| ==> AllRegistered(d, inputs[i].evs)
  }

  ghost predicate TriggersOk(d: Description, triggered: seq<seq<AtmEvent>>) {
    forall i :: 0 <= i < |triggered| ==> AllRegistered(d, triggered[i])
  }

  lemma {:induction false} InputsRegistered(d: Description, items: seq<Item>, triggered: seq<seq<AtmEvent>>)
    requires |triggered| == |items| + 1 && TriggersOk(d, triggered)
    ensures var inputs := AllInputs(items, triggered); forall i :: 0 <= i < |inputs| ==> AllRegistered(d, inputs[i].evs)
  {
  }

  /** The events of the items and the close that ends the document. */
  function AllInputs(items: seq<Item>, triggered: seq<seq<AtmEvent>>): (r: seq<InputEvent>)
    requires |triggered| == |items| + 1
    ensures |r| == |items| + 1
  {
    Inputs(items, triggered) + [CloseTag(triggered[|items|])]
  }

  /** What is reached after feeding the first events without a failure. */
  ghost predicate FedUpTo(d: Description, s: State, inputs: seq<InputEvent>, level: int) {
    && d.Valid() && (forall i :: 0 <= i < |inputs| ==> AllRegistered(d, inputs[i].evs))
    && s == Run(d, inputs) && !s.done && |s.scopestack| == 1 + level
  }

  /** A successful event keeps the scope stack in step with the bracketing level. */
  lemma {:induction false} FedOneMore(d: Description, s: State, inputs: seq<InputEvent>, level: int, input: InputEvent)
    requires FedUpTo(d, s, inputs, level) && level >= 0 && AllRegistered(d, input.evs)
    ensures Inv(d, s) && Ready(d, s)
    ensures var (r, ok) := Feed(d, s, input);
            && (ok ==> FedUpTo(d, r, inputs + [input], level + (if input.OpenTag? then 1 else if input.CloseTag? then -1 else 0)))
            && (ok && NoneFails(d, inputs) <==> NoneFails(d, inputs + [input]))
  {
    FeedFrame(d, s, input);
    assert (inputs + [input])[..|inputs|] == inputs;
  }

  /** Every event is processed without an error, and with an open scope. */
  ghost predicate NoneFails(d: Description, inputs: seq<InputEvent>)
    requires d.Valid() && forall i :: 0 <= i < |inputs| ==> AllRegistered(d, inputs[i].evs)
    decreases |inputs|
  {
    inputs == [] ||
    var init := inputs[..|inputs| - 1];
    NoneFails(d, init) && Ready(d, Run(d, init)) && Feed(d, Run(d, init), inputs[|inputs| - 1]).1
  }

  lemma {:induction false} NoneFailsBefore(d: Description, inputs: seq<InputEvent>, n: nat)
    requires d.Valid() && (forall i :: 0 <= i < |inputs| ==> AllRegistered(d, inputs[i].evs)) && n <= |inputs|
    ensures NoneFails(d, inputs) ==> NoneFails(d, inputs[..n])
    decreases |inputs|
  {
    if n < |inputs| {
      NoneFailsBefore(d, inputs[..|inputs| - 1], n);
      assert inputs[..|inputs| - 1][..n] == inputs[..n];
    } else {
      assert inputs[..n] == inputs;
    }
  }

  /** Feeds a bracketed item list; the scope stack is never empty when an event is fed. */
  method FeedItems(ctx: AutomatonContext, items: seq<Item>, triggered: seq<seq<AtmEvent>>) returns (ok: bool)
    requires ctx.Valid() && ctx.Abs() == InitState(ctx.description)
    requires Bracketed(items) && |triggered| == |items| + 1 && TriggersOk(ctx.description, triggered)
    modifies ctx
    ensures ok ==> ctx.Valid() && FedUpTo(ctx.description, ctx.Abs(), Inputs(items, triggered), 0)
    ensures Registered(ctx.description, Inputs(items, triggered)) && (ok <==> NoneFails(ctx.description, Inputs(items, triggered)))
  {
    hide Ready, Feed, ProcessEvents, FedUpTo, NoneFails, ScopesOk, StacksOk;
    ghost var d := ctx.description;
    ghost var inputs := Inputs(items, triggered);
    InputsRegistered(d, items, triggered);
    assert Registered(d, inputs) by { assert forall i :: 0 <= i < |inputs| ==> inputs[i] == AllInputs(items, triggered)[i]; }
    assert inputs[..0] == [] && items[..0] == [];
    var k := 0;
    NothingFed(d);
    while k < |items|
      invariant 0 <= k <= |items| && ctx.Valid()
      invariant FedUpTo(d, ctx.Abs(), inputs[..k], Level(items[..k])) && NoneFails(d, inputs[..k])
    {
      var input := ToInput(items[k], triggered[k]);
      NextInput(items, triggered, k);
      FedOneMore(d, ctx.Abs(), inputs[..k], Level(items[..k]), input);
      ok := ctx.FeedInput(input);
      if !ok {
        NoneFailsBefore(d, inputs, k + 1);
        return false;
      }
      k := k + 1;
    }
    assert items[..k] == items && inputs[..k] == inputs;
    return true;
  }

  lemma {:induction false} NothingFed(d: Description)
    requires d.Valid()
    ensures FedUpTo(d, InitState(d), [], 0) && NoneFails(d, [])
  {
  }

  lemma {:induction false} NextInput(items: seq<Item>, triggered: seq<seq<AtmEvent>>, k: nat)
    requires Bracketed(items) && |triggered| == |items| + 1 && k < |items|
    ensures Level(items[..k]) >= 0 && Inputs(items, triggered)[..k + 1] == Inputs(items, triggered)[..k] + [ToInput(items[k], triggered[k])]
    ensures Level(items[..k + 1]) == Level(items[..k]) + (if items[k].ItemOpenTag? then 1 else if items[k].ItemCloseTag? then -1 else 0)
  {
    assert items[..k + 1][..k] == items[..k];
  }

  /** Feeds the items and the final close. The scope stack ends empty and the result is the finished state of
      the run over all events. */
  method FeedRequest(ctx: AutomatonContext, items: seq<Item>, triggered: seq<seq<AtmEvent>>) returns (ok: bool)
    requires ctx.Valid() && ctx.Abs() == InitState(ctx.description)
    requires Bracketed(items) && |triggered| == |items| + 1 && TriggersOk(ctx.description, triggered)
    modifies ctx
    ensures ok ==>
              && ctx.Valid() && ctx.isdone && FedUpTo(ctx.description, Unfinished(ctx, items, triggered), AllInputs(items, triggered), -1)
              && ctx.Abs() == Finished(Unfinished(ctx, items, triggered))
    ensures ok <==> Succeeds(ctx, items, triggered)
  {
    InputsRegistered(ctx.description, items, triggered);
    ok := FeedItems(ctx, items, triggered);
    if !ok {
      assert AllInputs(items, triggered)[..|items|] == Inputs(items, triggered);
      return false;
    }
    var close := CloseTag(triggered[|items|]);
    assert AllInputs(items, triggered)[..|items|] == Inputs(items, triggered);
    FedOneMore(ctx.description, ctx.Abs(), Inputs(items, triggered), 0, close);
    ok := ctx.ProcessCloseTag(triggered[|items|]);
    if !ok { return false; }
    ok := ctx.Done();
  }

  /** The state of the run over all events of a document. */
  ghost function Unfinished(ctx: AutomatonContext, items: seq<Item>, triggered: seq<seq<AtmEvent>>): State
    requires ctx.description.Valid() && |triggered| == |items| + 1 && TriggersOk(ctx.description, triggered)
  {
    InputsRegistered(ctx.description, items, triggered);
    Run(ctx.description, AllInputs(items, triggered))
  }

  /** No event fails, and the root elements are among those expected. */
  ghost predicate Succeeds(ctx: AutomatonContext, items: seq<Item>, triggered: seq<seq<AtmEvent>>)
    requires ctx.description.Valid() && |triggered| == |items| + 1 && TriggersOk(ctx.description, triggered)
  {
    InputsRegistered(ctx.description, items, triggered);
    && NoneFails(ctx.description, AllInputs(items, triggered))
    && ctx.description.IsValidRootTagSet(Unfinished(ctx, items, triggered).rootelements)
  }

  lemma {:induction false} FinishedMapsAreValid(d: Description, inputs: seq<InputEvent>)
    requires d.Valid() && forall i :: 0 <= i < |inputs| ==> AllRegistered(d, inputs[i].evs)
    requires |inputs| < INT_MAX
    ensures AllMapsValid(Run(d, inputs).scopeobjmap)
  {
    var s := Run(d, inputs);
    RunCounts(d, inputs);
    forall i | 0 <= i < |s.scopeobjmap| ensures ValidMap(s.scopeobjmap[i]) {
      MapsAreValid(d, s, i);
    }
  }

  /** A JSON request from the document to the finished context; then the items can be resolved. */
  method RunJsonRequest(ctx: AutomatonContext, document: Json, triggered: seq<seq<AtmEvent>>)
    returns (resolver: Option<RequestIterator>)
    requires ctx.Valid() && ctx.Abs() == InitState(ctx.description)
    requires |triggered| == |ItemsOf(document)| + 1 && TriggersOk(ctx.description, triggered)
    requires |triggered| < INT_MAX
    modifies ctx
    ensures resolver.Some? <==> Accepted(document, 0) && Succeeds(ctx, ItemsOf(document), triggered)
    ensures resolver.Some? ==>
              && ctx.isdone && ctx.scopestack == []
              && resolver.value.Valid() && resolver.value.objmaps == ctx.scopeobjmap
  {
    var list := new JsonItems();
    var ok := list.Add(document, 0);
    if !ok { return None; }
    assert list.items == ItemsOf(document);
    ItemsAreBracketed(document);
    InputsRegistered(ctx.description, list.items, triggered);
    ok := FeedRequest(ctx, list.items, triggered);
    if !ok { return None; }
    FinishedMapsAreValid(ctx.description, AllInputs(list.items, triggered));
    assert ctx.scopeobjmap == ctx.Abs().scopeobjmap == Unfinished(ctx, list.items, triggered).scopeobjmap;
    var it := new RequestIterator(ctx.scopeobjmap);
    return Some(it);
  }
}
