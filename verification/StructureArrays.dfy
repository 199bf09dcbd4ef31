/** The serializer driven by a schema: the structures of a request become structures of the serialization, and
    adjacent equal ones become arrays. */
module StructureArrays {
  import opened Sequences
  import opened Serialization
  import opened SerializationTrees
  import opened SkipStructure

  // ---------------------------------------------------------------- events and operations

  datatype ElementType = OpenTag | CloseTag | AttribName | AttribValue | ContentElement

  datatype RequestElement = RequestElement(etype: ElementType, value: string)

  datatype OpId =
    | NameAtomic | ValueString | AttributeString
    | OpenNamedStructure | CloseNamedStructure | OpenNamedStructureArray | CloseNamedStructureArray
    | OpenStructure | CloseStructure | OpenStructureArray | CloseStructureArray

  datatype Op = Op(id: OpId, refs: set<int>, mask: set<int>)

  /** An element of the request and the operations the path automaton finds for it. */
  datatype Event = Event(elem: RequestElement, ops: seq<Op>)

  // ---------------------------------------------------------------- one event

  /** The output, the sets of schemas of the open structures, the opening elements of the open arrays, and whether
      this element and the next one continue an array. */
  datatype State = State(out: seq<Node>, sets: seq<set<int>>, arrays: seq<RequestElement>, now: bool, next: bool)

  /** In a structure of some schemas only what is selected by one of these is allowed. */
  predicate Selected(mask: set<int>, sets: seq<set<int>>) {
    mask == {} || (sets != [] && sets[|sets| - 1] * mask != {})
  }

  function Pop<T>(s: seq<T>): seq<T>
    requires s != []
  {
    s[..|s| - 1]
  }

  function NameOf(elem: RequestElement): Node {
    Name(Str(elem.value))
  }

  /** The effect of an operation; nothing for an error. */
  function StepOp(prev: Option<RequestElement>, elem: RequestElement, following: seq<Event>, op: Op, st: State): Option<State> {
    if op.id != CloseNamedStructureArray && op.id != CloseNamedStructure && !Selected(op.mask, st.sets) then None
    else
      match op.id
      case NameAtomic => Some(st.(out := st.out + [NameOf(elem)]))
      case AttributeString =>
        if prev.None? then None else Some(st.(out := st.out + [NameOf(prev.value), Value(Str(elem.value))]))
      case ValueString => Some(st.(out := st.out + [Value(Str(elem.value))]))
      case OpenNamedStructure => Some(st.(sets := st.sets + [op.refs], out := st.out + [NameOf(elem), Open(0)]))
      case CloseNamedStructure =>
        if st.sets == [] then None else Some(st.(sets := Pop(st.sets), out := st.out + [Close]))
      case OpenNamedStructureArray =>
        if st.now then Some(st)
        else Some(st.(sets := st.sets + [op.refs], arrays := st.arrays + [elem], out := st.out + [NameOf(elem), Open(0), Open(0)]))
      case CloseNamedStructureArray =>
        if st.sets == [] || st.arrays == [] then None
        else if Continues(st.arrays, following) then Some(st.(out := st.out + [Close, Open(0)], next := true))
        else Some(st.(out := st.out + [Close, Close], arrays := Pop(st.arrays), sets := Pop(st.sets)))
      case OpenStructure => Some(st.(out := st.out + [NameOf(elem), Open(0)]))
      case CloseStructure => Some(st.(out := st.out + [Close]))
      case OpenStructureArray =>
        if st.now then Some(st)
        else Some(st.(arrays := st.arrays + [elem], out := st.out + [NameOf(elem), Open(0), Open(0)]))
      case CloseStructureArray =>
        if st.arrays == [] then None
        else if Continues(st.arrays, following) then Some(st.(out := st.out + [Close, Open(0)], next := true))
        else Some(st.(out := st.out + [Close, Close], arrays := Pop(st.arrays)))
  }

  /** The next element is the same as the one that begun the array. */
  predicate Continues(arrays: seq<RequestElement>, following: seq<Event>)
    requires arrays != []
  {
    following != [] && arrays[|arrays| - 1] == following[0].elem
  }

  predicate IsBlank(s: string) {
    forall i :: 0 <= i < |s| ==> s[i] <= ' '
  }

  /** An element without operation may be an end, the name of an attribute or blank content. */
  predicate MayBeIgnored(elem: RequestElement) {
    elem.etype == CloseTag || elem.etype == AttribName || (elem.etype == ContentElement && IsBlank(elem.value))
  }

  function StepEvent(prev: Option<RequestElement>, todo: seq<Event>, st: State): Option<State>
    requires todo != []
  {
    var ops := todo[0].ops;
    var r := if |ops| > 1 then None
             else if ops == [] then if MayBeIgnored(todo[0].elem) then Some(st) else None
             else StepOp(prev, todo[0].elem, todo[1..], ops[0], st);
    if r.None? then None else Some(r.value.(now := r.value.next, next := false))
  }

  function Run(prev: Option<RequestElement>, todo: seq<Event>, st: State): Option<State>
    decreases todo
  {
    if todo == [] then Some(st)
    else
      var s := StepEvent(prev, todo, st);
      if s.None? then None else Run(Some(todo[0].elem), todo[1..], s.value)
  }

  /** In a request that is not refused, no element has more than one operation, and every opening element, attribute
      value and content that is not blank has one. */
  lemma {:induction false} AcceptedEvents(prev: Option<RequestElement>, events: seq<Event>, st: State, i: nat)
    requires Run(prev, events, st).Some? && i < |events|
    ensures |events[i].ops| <= 1
    ensures events[i].elem.etype == OpenTag || events[i].elem.etype == AttribValue ==> |events[i].ops| == 1
    ensures events[i].elem.etype == ContentElement && (exists j :: 0 <= j < |events[i].elem.value| && events[i].elem.value[j] > ' ') ==>
              |events[i].ops| == 1
    decreases events
  {
    var s := StepEvent(prev, events, st);
    if i > 0 { AcceptedEvents(Some(events[0].elem), events[1..], s.value, i - 1); }
  }

  // ---------------------------------------------------------------- requests as trees

  /** A leaf is an atomic element; it may be without content, or have it in several pieces. */
  datatype Item =
    | Blank(s: string)
    | Attr(name: string, value: string, mask: set<int>)
    | Leaf(name: string, content: seq<string>, mask: set<int>)
    | Struct(name: string, named: bool, isArray: bool, refs: set<int>, mask: set<int>, items: seq<Item>)

  function OpenOf(e: Item): Event
    requires e.Struct?
  {
    var id := if e.named then if e.isArray then OpenNamedStructureArray else OpenNamedStructure
              else if e.isArray then OpenStructureArray else OpenStructure;
    Event(RequestElement(OpenTag, e.name), [Op(id, e.refs, e.mask)])
  }

  function CloseOf(e: Item): Event
    requires e.Struct?
  {
    var id := if e.named then if e.isArray then CloseNamedStructureArray else CloseNamedStructure
              else if e.isArray then CloseStructureArray else CloseStructure;
    Event(RequestElement(CloseTag, e.name), [Op(id, {}, e.mask)])
  }

  function ContentEvents(content: seq<string>, mask: set<int>): seq<Event> {
    if content == [] then []
    else [Event(RequestElement(ContentElement, content[0]), [Op(ValueString, {}, mask)])] + ContentEvents(content[1..], mask)
  }

  function ItemEvents(e: Item): (r: seq<Event>)
    ensures r != []
    decreases e, 0
  {
    match e
    case Blank(s) => [Event(RequestElement(ContentElement, s), [])]
    case Attr(name, value, mask) =>
      [Event(RequestElement(AttribName, name), []), Event(RequestElement(AttribValue, value), [Op(AttributeString, {}, mask)])]
    case Leaf(name, content, mask) =>
      [Event(RequestElement(OpenTag, name), [Op(NameAtomic, {}, mask)])] + ContentEvents(content, mask)
      + [Event(RequestElement(CloseTag, name), [])]
    case Struct(_, _, _, _, _, items) => [OpenOf(e)] + Events(items) + [CloseOf(e)]
  }

  function Events(items: seq<Item>): seq<Event>
    decreases items, 1
  {
    if items == [] then [] else ItemEvents(items[0]) + Events(items[1..])
  }

  predicate SameArray(a: Item, b: Item) {
    a.Struct? && a.isArray && b.Struct? && b.isArray && a.name == b.name
  }

  /** What a schema guarantees: two adjacent elements of the same name have the same operations. */
  predicate WellFormedItem(e: Item)
    decreases e, 0
  {
    match e
    case Blank(s) => IsBlank(s)
    case Struct(_, _, _, _, _, items) => WellFormed(items)
    case _ => true
  }

  predicate WellFormed(items: seq<Item>)
    decreases items, 1
  {
    items == [] || (WellFormedItem(items[0]) && WellFormed(items[1..]) && (|items| > 1 ==> Fits(items[0], items[1])))
  }

  predicate Fits(a: Item, b: Item) {
    a.Struct? && a.isArray && !b.Blank? && !b.Attr? && b.name == a.name
    ==> SameArray(a, b) && b.named == a.named && b.refs == a.refs && b.mask == a.mask
  }

  // ---------------------------------------------------------------- what they should become

  /** How many adjacent elements of an array there are. */
  function RunLength(items: seq<Item>): (n: nat)
    requires items != []
    ensures 1 <= n <= |items|
  {
    if |items| > 1 && SameArray(items[0], items[1]) then 1 + RunLength(items[1..]) else 1
  }

  lemma {:induction false} RunIsMaximal(items: seq<Item>)
    requires items != []
    ensures forall i :: 0 < i < RunLength(items) ==> SameArray(items[0], items[i])
    ensures RunLength(items) < |items| ==> !SameArray(items[0], items[RunLength(items)])
  {
    if |items| > 1 && SameArray(items[0], items[1]) {
      RunIsMaximal(items[1..]);
      forall i | 0 < i < RunLength(items) ensures SameArray(items[0], items[i]) {
        if i > 1 { assert items[i] == items[1..][i - 1]; }
      }
    }
  }

  /** The elements: each maximal run of equal array structures is one named array of as many elements; an atomic
      element without content has an undefined value, and further pieces of content have no name. */
  function ElemsOf(items: seq<Item>): seq<Elem>
    decreases items, 1
  {
    if items == [] then []
    else
      match items[0]
      case Blank(_) => ElemsOf(items[1..])
      case Attr(name, value, _) => [Elem(Some(Str(name)), Atom(Str(value)))] + ElemsOf(items[1..])
      case Leaf(name, content, _) => LeafElems(name, content) + ElemsOf(items[1..])
      case Struct(name, _, isArray, _, _, _) =>
        if isArray then
          var n := RunLength(items);
          [Elem(Some(Str(name)), Tree.Struct(0, ArrayElems(items, n)))] + ElemsOf(items[n..])
        else
          [Elem(Some(Str(name)), InnerTree(items[0]))] + ElemsOf(items[1..])
  }

  function LeafElems(name: string, content: seq<string>): seq<Elem> {
    if content == [] then [Elem(Some(Str(name)), Atom(Void))] else [Elem(Some(Str(name)), Atom(Str(content[0])))] + MoreElems(content[1..])
  }

  function MoreElems(content: seq<string>): seq<Elem> {
    if content == [] then [] else [Elem(None, Atom(Str(content[0])))] + MoreElems(content[1..])
  }

  function InnerTree(e: Item): Tree
    decreases e, 0
  {
    if e.Struct? then Tree.Struct(0, ElemsOf(e.items)) else Atom(Void)
  }

  function ArrayElems(items: seq<Item>, n: nat): (r: seq<Elem>)
    requires n <= |items|
    ensures |r| == n
    decreases items, 0
  {
    if n == 0 then [] else [Elem(None, InnerTree(items[0]))] + ArrayElems(items[1..], n - 1)
  }

  /** An attribute, an atomic element with one content or a structure that is no array. */
  predicate IsSingle(e: Item) {
    match e
    case Blank(_) => false
    case Attr(_, _, _) => true
    case Leaf(_, content, _) => |content| == 1
    case Struct(_, _, isArray, _, _, _) => !isArray
  }

  /** Every such item is one element of its name: its value, or its elements. */
  lemma {:induction false} SingleElems(items: seq<Item>, i: nat)
    requires i < |items| && IsSingle(items[i]) && forall j :: 0 <= j < |items| ==> IsSingle(items[j])
    ensures |ElemsOf(items)| == |items| && ElemsOf(items)[i].name == Some(Str(items[i].name))
    ensures ElemsOf(items)[i].tree
         == match items[i]
            case Attr(_, value, _) => Atom(Str(value))
            case Leaf(_, content, _) => Atom(Str(content[0]))
            case Struct(_, _, _, _, _, inner) => Tree.Struct(0, ElemsOf(inner))
            case Blank(_) => Atom(Void)
  {
    assert IsSingle(items[0]);
    assert items[0].Leaf? ==> MoreElems(items[0].content[1..]) == [];
    if |items| > 1 { SingleElems(items[1..], if i == 0 then 0 else i - 1); }
  }

  /** Array structures of the same name are one element, which has one without a name for each of them. */
  lemma {:induction false} ArrayIsOneElem(items: seq<Item>, i: nat)
    requires i < |items| && items[0].Struct? && forall j :: 0 <= j < |items| ==> items[j].Struct? && items[j].isArray && items[j].name == items[0].name
    ensures |ElemsOf(items)| == 1 && ElemsOf(items)[0].name == Some(Str(items[0].name))
    ensures var t := ElemsOf(items)[0].tree;
            t.Struct? && t.structid == 0 && |t.elems| == |items| && t.elems[i] == Elem(None, Tree.Struct(0, ElemsOf(items[i].items)))
  {
    RunOfAll(items);
    ArrayElemAt(items, |items|, i);
    assert ElemsOf(items[|items|..]) == [];
  }

  lemma {:induction false} RunOfAll(items: seq<Item>)
    requires items != [] && items[0].Struct? && forall j :: 0 <= j < |items| ==> items[j].Struct? && items[j].isArray && items[j].name == items[0].name
    ensures RunLength(items) == |items|
  {
    if |items| > 1 {
      assert SameArray(items[0], items[1]);
      RunOfAll(items[1..]);
    }
  }

  lemma {:induction false} ArrayElemAt(items: seq<Item>, n: nat, i: nat)
    requires i < n <= |items| && items[i].Struct?
    ensures ArrayElems(items, n)[i] == Elem(None, Tree.Struct(0, ElemsOf(items[i].items)))
  {
    if i > 0 { ArrayElemAt(items[1..], n - 1, i - 1); }
  }

  /** The nodes: an atomic element without content leaves its name behind only. */
  function NodesOf(items: seq<Item>): seq<Node>
    decreases items, 1
  {
    if items == [] then []
    else
      match items[0]
      case Blank(_) => NodesOf(items[1..])
      case Attr(name, value, _) => [Name(Str(name)), Value(Str(value))] + NodesOf(items[1..])
      case Leaf(name, content, _) => LeafNodes(name, content) + NodesOf(items[1..])
      case Struct(name, _, isArray, _, _, _) =>
        if isArray then
          [Name(Str(name))] + ArrayTree(items) + NodesOf(items[RunLength(items)..])
        else
          [Name(Str(name))] + InnerNodes(items[0]) + NodesOf(items[1..])
  }

  function LeafNodes(name: string, content: seq<string>): seq<Node> {
    [Name(Str(name))] + ValueNodes(content)
  }

  function ValueNodes(content: seq<string>): (r: seq<Node>)
    ensures forall nd :: nd in r ==> nd.Value?
  {
    if content == [] then [] else [Value(Str(content[0]))] + ValueNodes(content[1..])
  }

  function InnerNodes(e: Item): seq<Node>
    decreases e, 0
  {
    if e.Struct? then [Open(0)] + NodesOf(e.items) + [Close] else []
  }

  function ArrayTree(items: seq<Item>): seq<Node>
    requires items != []
    decreases items, 0, 1
  {
    [Open(0)] + ArrayNodes(items, RunLength(items)) + [Close]
  }

  function ArrayNodes(items: seq<Item>, n: nat): seq<Node>
    requires n <= |items|
    decreases items, 0, 0
  {
    if n == 0 then [] else InnerNodes(items[0]) + ArrayNodes(items[1..], n - 1)
  }

  // ---------------------------------------------------------------- what is accepted

  /** The sets of schemas within a structure. */
  function Inner(e: Item, sets: seq<set<int>>): seq<set<int>>
    requires e.Struct?
  {
    if e.named then sets + [e.refs] else sets
  }

  /** Every item is selected where it stands. Only for the second and further elements of a named array what counts is
      the array itself and not the structure around it. */
  predicate Accepted(items: seq<Item>, sets: seq<set<int>>)
    decreases items, 2
  {
    if items == [] then true
    else
      match items[0]
      case Blank(_) => Accepted(items[1..], sets)
      case Attr(_, _, mask) => Selected(mask, sets) && Accepted(items[1..], sets)
      case Leaf(_, _, mask) => Selected(mask, sets) && Accepted(items[1..], sets)
      case Struct(_, _, isArray, _, mask, _) =>
        && Selected(mask, sets)
        && (if isArray then AcceptedRun(items, sets)
            else AcceptedIn(items[0], sets) && Accepted(items[1..], sets))
  }

  predicate AcceptedIn(e: Item, sets: seq<set<int>>)
    decreases e
  {
    e.Struct? ==> Accepted(e.items, Inner(e, sets))
  }

  predicate AcceptedRun(items: seq<Item>, sets: seq<set<int>>)
    requires items != [] && items[0].Struct?
    decreases items, 1
  {
    && AcceptedIn(items[0], sets)
    && (if |items| > 1 && SameArray(items[0], items[1]) then
          Selected(items[1].mask, Inner(items[0], sets)) && AcceptedRun(items[1..], sets)
        else Accepted(items[1..], sets))
  }

  lemma {:induction false} OneOf<T>(s: set<T>) returns (x: T)
    requires s != {}
    ensures x in s
  {
    x :| x in s;
  }

  lemma {:induction false} SelectedByOne(mask: set<int>, sets: seq<set<int>>)
    requires Selected(mask, sets) && mask != {}
    ensures sets != [] && exists b :: b in mask && b in sets[|sets| - 1]
  {
    var b := OneOf(mask * sets[|sets| - 1]);
  }

  /** Where an accepted item stands it is selected: it is so everywhere, or in a schema of the innermost named structure;
      for the second and further elements of a named array that is the array itself. */
  lemma {:induction false} AcceptedIsSelected(items: seq<Item>, sets: seq<set<int>>, i: nat)
    requires Accepted(items, sets) && i < |items| && !items[i].Blank? && items[i].mask != {}
    ensures if i > 0 && SameArray(items[i - 1], items[i]) && items[i - 1].named
            then exists b :: b in items[i].mask && b in items[i - 1].refs
            else sets != [] && exists b :: b in items[i].mask && b in sets[|sets| - 1]
    decreases items, 1
  {
    var e := items[0];
    if i == 0 {
      SelectedByOne(e.mask, sets);
    } else if e.Struct? && e.isArray {
      RunIsSelected(items, sets, i);
    } else {
      AcceptedIsSelected(items[1..], sets, i - 1);
    }
  }

  lemma {:induction false} RunIsSelected(items: seq<Item>, sets: seq<set<int>>, i: nat)
    requires items != [] && items[0].Struct? && items[0].isArray && AcceptedRun(items, sets)
    requires 0 < i < |items| && !items[i].Blank? && items[i].mask != {}
    ensures if SameArray(items[i - 1], items[i]) && items[i - 1].named
            then exists b :: b in items[i].mask && b in items[i - 1].refs
            else sets != [] && exists b :: b in items[i].mask && b in sets[|sets| - 1]
    decreases items, 0
  {
    if !SameArray(items[0], items[1]) {
      AcceptedIsSelected(items[1..], sets, i - 1);
    } else if i > 1 {
      RunIsSelected(items[1..], sets, i - 1);
    } else {
      SelectedByOne(items[1].mask, Inner(items[0], sets));
    }
  }

  // ---------------------------------------------------------------- the serializer does what it should

  function LastOf(prev: Option<RequestElement>, events: seq<Event>): Option<RequestElement> {
    if events == [] then prev else Some(events[|events| - 1].elem)
  }

  lemma {:induction false} RunConcat(prev: Option<RequestElement>, a: seq<Event>, b: seq<Event>, st: State)
    requires a != []
    ensures Run(prev, a + b, st)
         == var s := StepEvent(prev, a + b, st); if s.None? then None else Run(Some(a[0].elem), a[1..] + b, s.value)
  {
    assert (a + b)[1..] == a[1..] + b;
  }

  /** What may follow a list: nothing or no opening element. */
  predicate EndsList(rest: seq<Event>) {
    rest == [] || rest[0].elem.etype != OpenTag
  }

  ghost function After(ok: bool, prev: Option<RequestElement>, rest: seq<Event>, st: State): Option<State> {
    if ok then Run(prev, rest, st) else None
  }

  /** A list of items is accepted exactly if all are selected; then its elements are written and the stacks are as
      before. */
  lemma {:induction false} RunList(prev: Option<RequestElement>, items: seq<Item>, rest: seq<Event>, st: State)
    requires WellFormed(items) && EndsList(rest) && !st.now && !st.next
    ensures Run(prev, Events(items) + rest, st)
         == After(Accepted(items, st.sets), LastOf(prev, Events(items)), rest, st.(out := st.out + NodesOf(items)))
    decreases items, 3
  {
    if items == [] {
      assert Events(items) + rest == rest && st.out + [] == st.out;
    } else {
      var e, more := items[0], items[1..];
      var tail := Events(more) + rest;
      LastOfConcat(prev, ItemEvents(e), Events(more));
      assert Events(items) + rest == ItemEvents(e) + tail;
      match e
      case Blank(s) => RunBlank(prev, items, rest, st);
      case Attr(name, value, mask) =>
        RunAttr(prev, e, tail, st);
        if Selected(mask, st.sets) {
          RunBehind(Some(ItemEvents(e)[1].elem), [Name(Str(name)), Value(Str(value))], more, rest, st);
        }
      case Leaf(name, content, mask) =>
        RunLeaf(prev, e, tail, st);
        if Selected(mask, st.sets) {
          RunBehind(Some(CloseOfLeaf(name)), LeafNodes(name, content), more, rest, st);
        }
      case Struct(_, _, _, _, _, _) => RunStruct(prev, items, rest, st);
    }
  }

  lemma {:induction false} RunBlank(prev: Option<RequestElement>, items: seq<Item>, rest: seq<Event>, st: State)
    requires WellFormed(items) && EndsList(rest) && !st.now && !st.next && items != [] && items[0].Blank?
    ensures Run(prev, Events(items) + rest, st)
         == After(Accepted(items, st.sets), LastOf(prev, Events(items)), rest, st.(out := st.out + NodesOf(items)))
    decreases items, 2
  {
    hide Run;
    var a, more := ItemEvents(items[0]), items[1..];
    var tail := Events(more) + rest;
    LastOfConcat(prev, a, Events(more));
    RunConcat(prev, a, tail, st);
    assert Events(items) + rest == a + tail && a[1..] + tail == tail;
    RunList(Some(a[0].elem), more, rest, st);
  }

  /** The items behind what is written already. */
  lemma {:induction false} RunBehind(prev: Option<RequestElement>, nodes: seq<Node>, items: seq<Item>, rest: seq<Event>, st: State)
    requires WellFormed(items) && EndsList(rest) && !st.now && !st.next
    ensures Run(prev, Events(items) + rest, st.(out := st.out + nodes))
         == After(Accepted(items, st.sets), LastOf(prev, Events(items)), rest, st.(out := st.out + (nodes + NodesOf(items))))
    decreases items, 4
  {
    RunList(prev, items, rest, st.(out := st.out + nodes));
    Associative(st.out, nodes, NodesOf(items));
  }

  lemma {:induction false} RunAttr(prev: Option<RequestElement>, e: Item, rest: seq<Event>, st: State)
    requires e.Attr? && !st.now && !st.next
    ensures Run(prev, ItemEvents(e) + rest, st)
         == After(Selected(e.mask, st.sets), Some(ItemEvents(e)[1].elem), rest, st.(out := st.out + [Name(Str(e.name)), Value(Str(e.value))]))
  {
    var a := ItemEvents(e);
    RunConcat(prev, a, rest, st);
    RunConcat(Some(a[0].elem), a[1..], rest, st);
    assert a[1..][1..] + rest == rest;
  }

  function CloseOfLeaf(name: string): RequestElement {
    RequestElement(CloseTag, name)
  }

  /** The end of an element without operation changes nothing. */
  lemma {:induction false} RunLeafClose(prev: Option<RequestElement>, name: string, rest: seq<Event>, st: State)
    requires !st.now && !st.next
    ensures Run(prev, [Event(CloseOfLeaf(name), [])] + rest, st) == Run(Some(CloseOfLeaf(name)), rest, st)
  {
    var close := [Event(CloseOfLeaf(name), [])];
    RunConcat(prev, close, rest, st);
    assert close[1..] + rest == rest;
  }

  lemma {:induction false} RunContent(prev: Option<RequestElement>, name: string, content: seq<string>, mask: set<int>, rest: seq<Event>, st: State)
    requires !st.now && !st.next && Selected(mask, st.sets)
    ensures Run(prev, ContentEvents(content, mask) + ([Event(CloseOfLeaf(name), [])] + rest), st)
         == Run(Some(CloseOfLeaf(name)), rest, st.(out := st.out + ValueNodes(content)))
    decreases content
  {
    var tail := [Event(CloseOfLeaf(name), [])] + rest;
    if content == [] {
      assert [] + tail == tail && st.out + [] == st.out;
      RunLeafClose(prev, name, rest, st);
    } else {
      var first := Event(RequestElement(ContentElement, content[0]), [Op(ValueString, {}, mask)]);
      var more := ContentEvents(content[1..], mask) + tail;
      assert ContentEvents(content, mask) + tail == [first] + more && [first][1..] + more == more;
      RunConcat(prev, [first], more, st);
      RunContent(Some(first.elem), name, content[1..], mask, rest, st.(out := st.out + [Value(Str(content[0]))]));
      Associative(st.out, [Value(Str(content[0]))], ValueNodes(content[1..]));
    }
  }

  lemma {:induction false} RunLeaf(prev: Option<RequestElement>, e: Item, rest: seq<Event>, st: State)
    requires e.Leaf? && !st.now && !st.next
    ensures Run(prev, ItemEvents(e) + rest, st)
         == After(Selected(e.mask, st.sets), Some(CloseOfLeaf(e.name)), rest, st.(out := st.out + LeafNodes(e.name, e.content)))
  {
    hide ContentEvents;
    var name := [Event(RequestElement(OpenTag, e.name), [Op(NameAtomic, {}, e.mask)])];
    var tail := ContentEvents(e.content, e.mask) + ([Event(CloseOfLeaf(e.name), [])] + rest);
    assert ItemEvents(e) + rest == name + tail;
    RunConcat(prev, name, tail, st);
    if Selected(e.mask, st.sets) {
      assert name[1..] + tail == tail;
      RunContent(Some(name[0].elem), e.name, e.content, e.mask, rest, st.(out := st.out + [Name(Str(e.name))]));
      Associative(st.out, [Name(Str(e.name))], ValueNodes(e.content));
    }
  }

  lemma {:induction false} LastOfConcat(prev: Option<RequestElement>, a: seq<Event>, b: seq<Event>)
    requires a != []
    ensures LastOf(prev, a + b) == LastOf(Some(a[|a| - 1].elem), b)
  {
    if b == [] { assert a + b == a; }
  }

  /** An opening element that is not part of a run pushes what it opens. */
  ghost function Opened(e: Item, st: State): State
    requires e.Struct?
  {
    State(st.out + [Name(Str(e.name)), Open(0)] + (if e.isArray then [Open(0)] else []), Inner(e, st.sets),
          st.arrays + (if e.isArray then [OpenOf(e).elem] else []), false, false)
  }

  lemma {:induction false} RunOpen(prev: Option<RequestElement>, e: Item, rest: seq<Event>, st: State)
    requires e.Struct? && !st.now && !st.next
    ensures Run(prev, [OpenOf(e)] + rest, st)
         == After(Selected(e.mask, st.sets), Some(OpenOf(e).elem), rest, Opened(e, st))
  {
    RunConcat(prev, [OpenOf(e)], rest, st);
    assert [OpenOf(e)][1..] + rest == rest;
    assert st.out + [Name(Str(e.name)), Open(0)] + [] == st.out + [Name(Str(e.name)), Open(0)];
    assert st.out + [Name(Str(e.name)), Open(0), Open(0)] == st.out + [Name(Str(e.name)), Open(0)] + [Open(0)];
    assert st.arrays + [] == st.arrays;
  }

  lemma {:induction false} StructEvents(items: seq<Item>, rest: seq<Event>)
    requires items != [] && items[0].Struct?
    ensures var e := items[0]; Events(items) + rest == [OpenOf(e)] + (Events(e.items) + ([CloseOf(e)] + (Events(items[1..]) + rest)))
  {
  }

  lemma {:induction false} StructLast(prev: Option<RequestElement>, items: seq<Item>)
    requires items != [] && items[0].Struct?
    ensures LastOf(prev, Events(items)) == LastOf(Some(CloseOf(items[0]).elem), Events(items[1..]))
  {
    LastOfConcat(prev, ItemEvents(items[0]), Events(items[1..]));
  }

  lemma {:induction false} RunStruct(prev: Option<RequestElement>, items: seq<Item>, rest: seq<Event>, st: State)
    requires WellFormed(items) && EndsList(rest) && !st.now && !st.next && items != [] && items[0].Struct?
    ensures Run(prev, Events(items) + rest, st)
         == After(Accepted(items, st.sets), LastOf(prev, Events(items)), rest, st.(out := st.out + NodesOf(items)))
    decreases items, 2
  {
    hide Run, NodesOf, Events, WellFormed, EndsList, AcceptedRun, AcceptedIn;
    var e, more := items[0], items[1..];
    var tail := [CloseOf(e)] + (Events(more) + rest);
    StructEvents(items, rest);
    RunOpen(prev, e, Events(e.items) + tail, st);
    StructLast(prev, items);
    if Selected(e.mask, st.sets) {
      if e.isArray {
        RunArray(Some(OpenOf(e).elem), items, rest, st.out + [Name(Str(e.name)), Open(0)], st.sets, st.arrays);
        ArrayOut(items, st.out);
      } else {
        RunSingle(prev, items, rest, st);
      }
    }
  }

  /** A structure that is not an array. */
  lemma {:induction false} RunSingle(prev: Option<RequestElement>, items: seq<Item>, rest: seq<Event>, st: State)
    requires WellFormed(items) && EndsList(rest) && !st.now && !st.next && items != [] && items[0].Struct? && !items[0].isArray
    requires Selected(items[0].mask, st.sets)
    ensures var e := items[0];
            Run(Some(OpenOf(e).elem), Events(e.items) + ([CloseOf(e)] + (Events(items[1..]) + rest)), Opened(e, st))
            == After(Accepted(items, st.sets), LastOf(Some(CloseOf(e).elem), Events(items[1..])), rest, st.(out := st.out + NodesOf(items)))
    decreases items, 1
  {
    var e, more := items[0], items[1..];
    var tail := Events(more) + rest;
    var begun := Opened(e, st);
    RunInner(Some(OpenOf(e).elem), e, [CloseOf(e)] + tail, begun);
    if Accepted(e.items, Inner(e, st.sets)) {
      var inner := NodesOf(e.items);
      RunClose(LastOf(Some(OpenOf(e).elem), Events(e.items)), e, tail, begun.out + inner, st.sets, begun.arrays);
      assert begun.arrays == st.arrays;
      RunList(Some(CloseOf(e).elem), more, rest, st.(out := begun.out + inner + [Close]));
      SingleOut(items, st.out);
    }
  }

  /** The close of a structure. */
  lemma {:induction false} RunClose(prev: Option<RequestElement>, e: Item, tail: seq<Event>, out: seq<Node>, sets: seq<set<int>>, arrays: seq<RequestElement>)
    requires e.Struct? && !e.isArray && (!e.named ==> Selected(e.mask, sets))
    ensures Run(prev, [CloseOf(e)] + tail, State(out, Inner(e, sets), arrays, false, false))
         == Run(Some(CloseOf(e).elem), tail, State(out + [Close], sets, arrays, false, false))
  {
    RunConcat(prev, [CloseOf(e)], tail, State(out, Inner(e, sets), arrays, false, false));
    assert [CloseOf(e)][1..] + tail == tail;
    assert Pop(sets + [e.refs]) == sets;
  }

  /** The close of an element of an array. */
  lemma {:induction false} RunCloseArray(prev: Option<RequestElement>, e: Item, tail: seq<Event>, out: seq<Node>, sets: seq<set<int>>, arrays: seq<RequestElement>)
    requires e.Struct? && e.isArray && (!e.named ==> Selected(e.mask, sets))
    ensures var all := arrays + [OpenOf(e).elem];
            Run(prev, [CloseOf(e)] + tail, State(out, Inner(e, sets), all, false, false))
            == Run(Some(CloseOf(e).elem), tail,
                   if Continues(all, tail) then State(out + [Close, Open(0)], Inner(e, sets), all, true, false)
                   else State(out + [Close, Close], sets, arrays, false, false))
  {
    var all := arrays + [OpenOf(e).elem];
    RunConcat(prev, [CloseOf(e)], tail, State(out, Inner(e, sets), all, false, false));
    assert [CloseOf(e)][1..] + tail == tail;
    assert Pop(sets + [e.refs]) == sets && Pop(all) == arrays;
  }

  /** An element of an array that is open already. */
  lemma {:induction false} RunContinued(prev: Option<RequestElement>, e: Item, tail: seq<Event>, out: seq<Node>, sets: seq<set<int>>, arrays: seq<RequestElement>)
    requires e.Struct? && e.isArray
    ensures Run(prev, [OpenOf(e)] + tail, State(out, sets, arrays, true, false))
         == After(Selected(e.mask, sets), Some(OpenOf(e).elem), tail, State(out, sets, arrays, false, false))
  {
    RunConcat(prev, [OpenOf(e)], tail, State(out, sets, arrays, true, false));
    assert [OpenOf(e)][1..] + tail == tail;
  }

  lemma {:induction false} SingleOut(items: seq<Item>, out: seq<Node>)
    requires items != [] && items[0].Struct? && !items[0].isArray
    ensures out + [Name(Str(items[0].name)), Open(0)] + [] + NodesOf(items[0].items) + [Close] + NodesOf(items[1..]) == out + NodesOf(items)
  {
    var name, inner, more := [Name(Str(items[0].name))], NodesOf(items[0].items), NodesOf(items[1..]);
    assert NodesOf(items) == name + InnerNodes(items[0]) + more && InnerNodes(items[0]) == [Open(0)] + inner + [Close];
    NestedOut(out, name[0], inner, more);
  }

  lemma {:induction false} NestedOut(out: seq<Node>, name: Node, inner: seq<Node>, more: seq<Node>)
    ensures out + [name, Open(0)] + [] + inner + [Close] + more == out + ([name] + ([Open(0)] + inner + [Close]) + more)
  {
  }

  lemma {:induction false} RunInner(prev: Option<RequestElement>, e: Item, rest: seq<Event>, st: State)
    requires e.Struct? && WellFormedItem(e) && EndsList(rest) && !st.now && !st.next
    ensures Run(prev, Events(e.items) + rest, st)
         == After(Accepted(e.items, st.sets), LastOf(prev, Events(e.items)), rest, st.(out := st.out + NodesOf(e.items)))
    decreases e
  {
    RunList(prev, e.items, rest, st);
  }

  /** After the end of an array element the array goes on exactly if the next item is one more of it. */
  lemma {:induction false} ContinuesIff(items: seq<Item>, rest: seq<Event>, arrays: seq<RequestElement>)
    requires WellFormed(items) && EndsList(rest) && items != [] && items[0].Struct? && items[0].isArray
    ensures Continues(arrays + [OpenOf(items[0]).elem], Events(items[1..]) + rest)
       <==> |items| > 1 && SameArray(items[0], items[1])
  {
    var following := Events(items[1..]) + rest;
    if |items| > 1 {
      assert items[1..][0] == items[1] && following[0] == ItemEvents(items[1])[0];
    } else {
      assert following == rest;
    }
  }

  /** The nodes of a run behind the name and the open of the array. */
  lemma {:induction false} ArrayOut(items: seq<Item>, out: seq<Node>)
    requires items != [] && items[0].Struct? && items[0].isArray
    ensures var n := RunLength(items);
            out + NodesOf(items) == out + [Name(Str(items[0].name)), Open(0)] + ArrayNodes(items, n) + [Close] + NodesOf(items[n..])
  {
  }

  /** The last element of an array and the array are closed. */
  lemma {:induction false} LastOut(e: Item, base: seq<Node>)
    requires e.Struct?
    ensures base + [Open(0)] + NodesOf(e.items) + [Close, Close] == base + InnerNodes(e) + [Close]
  {
  }

  /** One more element of an array is closed. */
  lemma {:induction false} NextOut(items: seq<Item>, n: nat, base: seq<Node>)
    requires 0 < n <= |items| && items[0].Struct?
    ensures base + [Open(0)] + NodesOf(items[0].items) + [Close] + ArrayNodes(items[1..], n - 1) == base + ArrayNodes(items, n)
  {
  }

  /** The first array element is open. */
  lemma {:induction false} RunArray(prev: Option<RequestElement>, items: seq<Item>, rest: seq<Event>,
                                    base: seq<Node>, sets: seq<set<int>>, arrays: seq<RequestElement>)
    requires WellFormed(items) && EndsList(rest) && items != [] && items[0].Struct? && items[0].isArray
    requires !items[0].named ==> Selected(items[0].mask, sets)
    ensures var e, n := items[0], RunLength(items);
            Run(prev, Events(e.items) + ([CloseOf(e)] + (Events(items[1..]) + rest)),
                State(base + [Open(0)], Inner(e, sets), arrays + [OpenOf(e).elem], false, false))
            == After(AcceptedRun(items, sets), LastOf(Some(CloseOf(e).elem), Events(items[1..])), rest,
                     State(base + ArrayNodes(items, n) + [Close] + NodesOf(items[n..]), sets, arrays, false, false))
    decreases items, 1
  {
    var e, more, n := items[0], items[1..], RunLength(items);
    var st := State(base + [Open(0)], Inner(e, sets), arrays + [OpenOf(e).elem], false, false);
    var tail := Events(more) + rest;
    RunInner(prev, e, [CloseOf(e)] + tail, st);
    if Accepted(e.items, Inner(e, sets)) {
      var out := st.out + NodesOf(e.items);
      RunCloseArray(LastOf(prev, Events(e.items)), e, tail, out, sets, arrays);
      ContinuesIff(items, rest, arrays);
      if |items| > 1 && SameArray(e, items[1]) {
        RunReopened(items, rest, base, sets, arrays, out);
      } else {
        RunList(Some(CloseOf(e).elem), more, rest, State(out + [Close, Close], sets, arrays, false, false));
        LastOut(e, base);
        assert n == 1 && ArrayNodes(items, 1) == InnerNodes(e) + ArrayNodes(more, 0) == InnerNodes(e);
      }
    }
  }

  /** The next element of the array begins without a push. */
  lemma {:induction false} RunReopened(items: seq<Item>, rest: seq<Event>, base: seq<Node>, sets: seq<set<int>>, arrays: seq<RequestElement>, out: seq<Node>)
    requires WellFormed(items) && EndsList(rest) && |items| > 1 && items[0].Struct? && SameArray(items[0], items[1])
    requires out == base + [Open(0)] + NodesOf(items[0].items)
    ensures var e, n := items[0], RunLength(items);
            Run(Some(CloseOf(e).elem), Events(items[1..]) + rest,
                State(out + [Close, Open(0)], Inner(e, sets), arrays + [OpenOf(e).elem], true, false))
            == After(Selected(items[1].mask, Inner(e, sets)) && AcceptedRun(items[1..], sets), LastOf(Some(CloseOf(e).elem), Events(items[1..])), rest,
                     State(base + ArrayNodes(items, n) + [Close] + NodesOf(items[n..]), sets, arrays, false, false))
    decreases items, 0
  {
    hide Run, Accepted, AcceptedIn;
    var e, more, n := items[0], items[1..], RunLength(items);
    var f := more[0];
    var st := State(out + [Close, Open(0)], Inner(e, sets), arrays + [OpenOf(e).elem], true, false);
    var tail := Events(f.items) + ([CloseOf(f)] + (Events(more[1..]) + rest));
    assert Events(more) + rest == [OpenOf(f)] + tail;
    RunContinued(Some(CloseOf(e).elem), f, tail, st.out, st.sets, st.arrays);
    LastOfConcat(Some(CloseOf(e).elem), ItemEvents(f), Events(more[1..]));
    if Selected(f.mask, Inner(e, sets)) {
      var next := out + [Close];
      assert out + [Close, Open(0)] == next + [Open(0)];
      RunArray(Some(OpenOf(f).elem), more, rest, next, sets, arrays);
      assert items[n..] == more[n - 1..];
      NextOut(items, n, base);
    }
  }

  // ---------------------------------------------------------------- what the result means

  /** No atomic element is without content, at any depth. */
  predicate Complete(items: seq<Item>)
    decreases items, 1
  {
    items == [] || (CompleteItem(items[0]) && Complete(items[1..]))
  }

  predicate CompleteItem(e: Item)
    decreases e, 0
  {
    match e
    case Leaf(_, content, _) => content != []
    case Struct(_, _, _, _, _, items) => Complete(items)
    case _ => true
  }

  lemma {:induction false} CompleteConcat(a: seq<Item>, b: seq<Item>)
    ensures Complete(a + b) <==> Complete(a) && Complete(b)
  {
    if a == [] {
      assert a + b == b;
    } else {
      CompleteConcat(a[1..], b);
      TailOfConcat(a, b);
    }
  }

  /** One more element in front of what was read. */
  ghost function Before(e: Elem, r: Option<(seq<Elem>, seq<Node>)>): Option<(seq<Elem>, seq<Node>)> {
    if r.None? then None else Some(([e] + r.value.0, r.value.1))
  }

  /** What is read from the nodes of some elements and what follows them. */
  ghost function Read(ok: bool, es: seq<Elem>, rest: seq<Node>): Option<(seq<Elem>, seq<Node>)> {
    if ok then Some((es, rest)) else None
  }

  lemma {:induction false} ParseNamed(c: Content, x: seq<Node>)
    requires !c.Embedded?
    ensures var t := ParseTree(x);
            ParseElems([Name(c)] + x) == if t.None? then None else Before(Elem(Some(c), t.value.0), ParseElems(t.value.1))
  {
    assert ([Name(c)] + x)[1..] == x;
  }

  lemma {:induction false} ParseStruct(x: seq<Node>, tail: seq<Node>, ok: bool, es: seq<Elem>)
    requires ParseElems(x + ([Close] + tail)) == Read(ok, es, [Close] + tail)
    ensures ParseTree([Open(0)] + x + [Close] + tail) == if ok then Some((Tree.Struct(0, es), tail)) else None
  {
    var nodes := [Open(0)] + x + [Close] + tail;
    assert nodes[1..] == x + ([Close] + tail) && ([Close] + tail)[1..] == tail;
  }

  /** A name that no value follows cannot be read. */
  lemma {:induction false} ParseNameOnly(c: Content, tail: seq<Node>)
    requires !c.Embedded? && (tail == [] || tail[0].Close? || tail[0].Name?)
    ensures ParseElems([Name(c)] + tail) == None
  {
    ParseNamed(c, tail);
  }

  lemma {:induction false} NodesFirst(items: seq<Item>)
    ensures NodesOf(items) == [] || NodesOf(items)[0].Name?
  {
    if items != [] && items[0].Blank? { NodesFirst(items[1..]); }
  }

  lemma {:induction false} ParseUnnamed(value: Content, tail: seq<Node>)
    requires !value.Embedded?
    ensures ParseElems([Value(value)] + tail) == Before(Elem(None, Atom(value)), ParseElems(tail))
  {
    var nodes := [Value(value)] + tail;
    assert nodes[0] == Value(value) && nodes[1..] == tail;
    assert ParseTree(nodes) == Some((Atom(value), tail));
    assert ParseElem(nodes) == Some((Elem(None, Atom(value)), tail));
  }

  lemma {:induction false} BeforeRead(e: Elem, ok: bool, es: seq<Elem>, rest: seq<Node>)
    ensures Before(e, Read(ok, es, rest)) == Read(ok, [e] + es, rest)
  {
  }

  lemma {:induction false} ParseMore(content: seq<string>, items: seq<Item>, rest: seq<Node>)
    requires EndsElems(rest)
    ensures ParseElems(ValueNodes(content) + (NodesOf(items) + rest)) == Read(Complete(items), MoreElems(content) + ElemsOf(items), rest)
    decreases items, 3, content
  {
    hide ParseElems, Complete, ElemsOf, NodesOf;
    if content == [] {
      ParseNodes(items, rest);
      assert [] + (NodesOf(items) + rest) == NodesOf(items) + rest && [] + ElemsOf(items) == ElemsOf(items);
    } else {
      var value, more := Str(content[0]), MoreElems(content[1..]) + ElemsOf(items);
      var tail := ValueNodes(content[1..]) + (NodesOf(items) + rest);
      ParseMore(content[1..], items, rest);
      ParseUnnamed(value, tail);
      assert ValueNodes(content) + (NodesOf(items) + rest) == [Value(value)] + tail;
      BeforeRead(Elem(None, Atom(value)), Complete(items), more, rest);
      Associative([Elem(None, Atom(value))], MoreElems(content[1..]), ElemsOf(items));
    }
  }

  lemma {:induction false} ParseNamedValue(c: Content, value: Content, tail: seq<Node>)
    requires !c.Embedded? && !value.Embedded?
    ensures ParseElems([Name(c)] + ([Value(value)] + tail)) == Before(Elem(Some(c), Atom(value)), ParseElems(tail))
  {
    var nodes := [Value(value)] + tail;
    assert nodes[0] == Value(value) && nodes[1..] == tail;
    assert ParseTree(nodes) == Some((Atom(value), tail));
    ParseNamed(c, nodes);
  }

  lemma {:induction false} LeafSplits(name: string, content: seq<string>, x: seq<Node>, rest: seq<Node>)
    requires content != []
    ensures LeafNodes(name, content) + x + rest == [Name(Str(name))] + ([Value(Str(content[0]))] + (ValueNodes(content[1..]) + (x + rest)))
  {
  }

  lemma {:induction false} ParseValue(name: string, content: seq<string>, items: seq<Item>, rest: seq<Node>)
    requires EndsElems(rest) && content != []
    ensures ParseElems(LeafNodes(name, content) + NodesOf(items) + rest)
         == Read(Complete(items), LeafElems(name, content) + ElemsOf(items), rest)
    decreases items, 4
  {
    hide Complete, ElemsOf, NodesOf, ParseElems, Read, Before, MoreElems, LeafNodes, ValueNodes;
    var c, value, more := Str(name), Str(content[0]), content[1..];
    var e, tail := Elem(Some(c), Atom(value)), ValueNodes(more) + (NodesOf(items) + rest);
    ParseMore(more, items, rest);
    ParseNamedValue(c, value, tail);
    LeafSplits(name, content, NodesOf(items), rest);
    BeforeRead(e, Complete(items), MoreElems(more) + ElemsOf(items), rest);
    Associative([e], MoreElems(more), ElemsOf(items));
  }

  /** An attribute is written like an atomic element. */
  lemma {:induction false} SingleValue(name: string, value: string)
    ensures LeafNodes(name, [value]) == [Name(Str(name)), Value(Str(value))]
    ensures LeafElems(name, [value]) == [Elem(Some(Str(name)), Atom(Str(value)))]
  {
    assert [value][1..] == [] && ValueNodes([value]) == [Value(Str(value))] + ValueNodes([]);
  }

  lemma {:induction false} ParseInner(e: Item, tail: seq<Node>)
    requires e.Struct?
    ensures ParseTree(InnerNodes(e) + tail) == if CompleteItem(e) then Some((InnerTree(e), tail)) else None
    decreases e, 2
  {
    ParseNodes(e.items, [Close] + tail);
    ParseStruct(NodesOf(e.items), tail, Complete(e.items), ElemsOf(e.items));
  }

  /** The elements of an array. */
  lemma {:induction false} ParseArray(items: seq<Item>, n: nat, rest: seq<Node>)
    requires n <= |items| && EndsElems(rest) && forall k :: 0 <= k < n ==> items[k].Struct?
    ensures ParseElems(ArrayNodes(items, n) + rest) == Read(Complete(items[..n]), ArrayElems(items, n), rest)
    decreases items, 0, 0
  {
    if n == 0 {
      assert ArrayNodes(items, n) + rest == rest;
    } else {
      var tail := ArrayNodes(items[1..], n - 1) + rest;
      assert ArrayNodes(items, n) + rest == InnerNodes(items[0]) + tail;
      ParseInner(items[0], tail);
      ParseArray(items[1..], n - 1, rest);
      assert items[..n][1..] == items[1..][..n - 1];
    }
  }

  lemma {:induction false} ParseNodes(items: seq<Item>, rest: seq<Node>)
    requires EndsElems(rest)
    ensures ParseElems(NodesOf(items) + rest) == Read(Complete(items), ElemsOf(items), rest)
    decreases items, 2
  {
    if items == [] {
      assert NodesOf(items) + rest == rest;
    } else {
      var more := items[1..];
      match items[0]
      case Blank(_) => ParseNodes(more, rest);
      case Attr(name, value, _) =>
        SingleValue(name, value);
        ParseValue(name, [value], more, rest);
      case Leaf(name, content, _) =>
        if content != [] {
          ParseValue(name, content, more, rest);
        } else {
          NodesFirst(more);
          ParseNameOnly(Str(name), NodesOf(more) + rest);
          assert NodesOf(items) + rest == [Name(Str(name))] + (NodesOf(more) + rest);
        }
      case Struct(_, _, isArray, _, _, _) => if isArray { ParseArrayItem(items, rest); } else { ParseStructItem(items, rest); }
    }
  }

  lemma {:induction false} ParseArrayItem(items: seq<Item>, rest: seq<Node>)
    requires EndsElems(rest) && items != [] && items[0].Struct? && items[0].isArray
    ensures ParseElems(NodesOf(items) + rest) == Read(Complete(items), ElemsOf(items), rest)
    decreases items, 1
  {
    hide ParseElems, ParseTree, ArrayTree, InnerNodes, Complete;
    var n := RunLength(items);
    var name, more := [Name(Str(items[0].name))], items[n..];
    ParseArrayTree(items, NodesOf(more) + rest);
    ParseNodes(more, rest);
    ParseNamed(Str(items[0].name), ArrayTree(items) + (NodesOf(more) + rest));
    BehindName(name, ArrayTree(items), NodesOf(more), rest);
    CompleteConcat(items[..n], more);
    assert items[..n] + more == items;
  }

  lemma {:induction false} ParseStructItem(items: seq<Item>, rest: seq<Node>)
    requires EndsElems(rest) && items != [] && items[0].Struct? && !items[0].isArray
    ensures ParseElems(NodesOf(items) + rest) == Read(Complete(items), ElemsOf(items), rest)
    decreases items, 1
  {
    hide ParseElems, ParseTree, InnerNodes;
    var name, more := [Name(Str(items[0].name))], items[1..];
    ParseInner(items[0], NodesOf(more) + rest);
    ParseNodes(more, rest);
    ParseNamed(Str(items[0].name), InnerNodes(items[0]) + (NodesOf(more) + rest));
    BehindName(name, InnerNodes(items[0]), NodesOf(more), rest);
  }

  lemma {:induction false} BehindName(name: seq<Node>, tree: seq<Node>, more: seq<Node>, rest: seq<Node>)
    ensures name + tree + more + rest == name + (tree + (more + rest))
  {
  }

  lemma {:induction false} ParseArrayTree(items: seq<Item>, tail: seq<Node>)
    requires items != [] && items[0].Struct? && items[0].isArray
    ensures var n := RunLength(items);
            ParseTree(ArrayTree(items) + tail) == if Complete(items[..n]) then Some((Tree.Struct(0, ArrayElems(items, n)), tail)) else None
    decreases items, 0, 1
  {
    var n := RunLength(items);
    RunIsMaximal(items);
    ParseArray(items, n, [Close] + tail);
    ParseStruct(ArrayNodes(items, n), tail, Complete(items[..n]), ArrayElems(items, n));
  }

  /** The output can be read exactly if no atomic element is without content; then it means the elements. */
  lemma {:induction false} OutputMeaning(items: seq<Item>)
    ensures Meaning(NodesOf(items)) == if Complete(items) then Some(ElemsOf(items)) else None
  {
    ParseNodes(items, []);
    assert NodesOf(items) + [] == NodesOf(items);
  }

  lemma {:induction false} FirstElem(e: Elem, es: seq<Elem>)
    ensures ElemsNodes([e] + es) == ElemNodes(e) + ElemsNodes(es)
  {
    assert ([e] + es)[1..] == es;
  }

  lemma {:induction false} CompleteArray(items: seq<Item>, n: nat)
    requires n <= |items| && Complete(items[..n]) && forall k :: 0 <= k < n ==> items[k].Struct?
    ensures ArrayNodes(items, n) == ElemsNodes(ArrayElems(items, n))
    decreases items, 0
  {
    if n > 0 {
      assert items[..n][1..] == items[1..][..n - 1];
      CompleteNodes(items[0].items);
      CompleteArray(items[1..], n - 1);
      FirstElem(Elem(None, InnerTree(items[0])), ArrayElems(items[1..], n - 1));
      assert ElemNodes(Elem(None, InnerTree(items[0]))) == InnerNodes(items[0]);
    }
  }

  lemma {:induction false} CompleteMore(content: seq<string>, es: seq<Elem>)
    ensures ElemsNodes(MoreElems(content) + es) == ValueNodes(content) + ElemsNodes(es)
  {
    if content == [] {
      assert [] + es == es && [] + ElemsNodes(es) == ElemsNodes(es);
    } else {
      var e := Elem(None, Atom(Str(content[0])));
      CompleteMore(content[1..], es);
      FirstElem(e, MoreElems(content[1..]) + es);
      Associative([e], MoreElems(content[1..]), es);
      Associative([Value(Str(content[0]))], ValueNodes(content[1..]), ElemsNodes(es));
    }
  }

  lemma {:induction false} FourParts<T>(a: seq<T>, b: seq<T>, c: seq<T>, d: seq<T>)
    ensures a + b + (c + d) == a + (b + c) + d
  {
  }

  lemma {:induction false} CompleteLeaf(name: string, content: seq<string>, es: seq<Elem>)
    requires content != []
    ensures ElemsNodes(LeafElems(name, content) + es) == LeafNodes(name, content) + ElemsNodes(es)
  {
    hide ElemsNodes, MoreElems;
    var t, more := Atom(Str(content[0])), content[1..];
    CompleteMore(more, es);
    NamedElem(name, t, MoreElems(more) + es);
    Associative([Elem(Some(Str(name)), t)], MoreElems(more), es);
    FourParts([Name(Str(name))], TreeNodes(t), ValueNodes(more), ElemsNodes(es));
  }

  /** Without an atomic element that has no content, the nodes are those of the elements. */
  lemma {:induction false} CompleteNodes(items: seq<Item>)
    requires Complete(items)
    ensures NodesOf(items) == ElemsNodes(ElemsOf(items))
    decreases items, 2
  {
    if items != [] && items[0].Struct? {
      CompleteStruct(items);
    } else if items != [] {
      CompleteNodes(items[1..]);
      match items[0] {
        case Attr(name, value, _) => FirstElem(Elem(Some(Str(name)), Atom(Str(value))), ElemsOf(items[1..]));
        case Leaf(name, content, _) => CompleteLeaf(name, content, ElemsOf(items[1..]));
        case _ =>
      }
    }
  }

  lemma {:induction false} NamedElem(name: string, t: Tree, es: seq<Elem>)
    ensures ElemsNodes([Elem(Some(Str(name)), t)] + es) == [Name(Str(name))] + TreeNodes(t) + ElemsNodes(es)
  {
    FirstElem(Elem(Some(Str(name)), t), es);
  }

  lemma {:induction false} CompleteStruct(items: seq<Item>)
    requires Complete(items) && items != [] && items[0].Struct?
    ensures NodesOf(items) == ElemsNodes(ElemsOf(items))
    decreases items, 1
  {
    hide ElemsNodes, ArrayNodes;
    var name := items[0].name;
    if items[0].isArray {
      var n := RunLength(items);
      RunIsMaximal(items);
      CompleteConcat(items[..n], items[n..]);
      assert items[..n] + items[n..] == items;
      CompleteArray(items, n);
      CompleteNodes(items[n..]);
      NamedElem(name, Tree.Struct(0, ArrayElems(items, n)), ElemsOf(items[n..]));
    } else {
      CompleteNodes(items[0].items);
      CompleteNodes(items[1..]);
      NamedElem(name, InnerTree(items[0]), ElemsOf(items[1..]));
    }
  }

  // ---------------------------------------------------------------- the result is balanced

  /** Everything opened is closed again, and nothing is closed that was not opened. */
  ghost predicate Balanced(nodes: seq<Node>) {
    Level(nodes) == 0 && forall k :: 0 <= k <= |nodes| ==> Level(nodes[..k]) >= 0
  }

  lemma {:induction false} LevelConcat(a: seq<Node>, b: seq<Node>)
    ensures Level(a + b) == Level(a) + Level(b)
  {
    if b == [] {
      assert a + b == a;
    } else {
      var last := |b| - 1;
      LevelConcat(a, b[..last]);
      assert (a + b)[..|a| + last] == a + b[..last];
    }
  }

  lemma {:induction false} BalancedConcat(a: seq<Node>, b: seq<Node>)
    requires Balanced(a) && Balanced(b)
    ensures Balanced(a + b)
  {
    LevelConcat(a, b);
    forall k | 0 <= k <= |a + b| ensures Level((a + b)[..k]) >= 0 {
      if k <= |a| {
        assert (a + b)[..k] == a[..k];
      } else {
        assert (a + b)[..k] == a + b[..k - |a|];
        LevelConcat(a, b[..k - |a|]);
      }
    }
  }

  lemma {:induction false} LevelSingle(nd: Node)
    ensures Level([nd]) == LevelStep(nd)
  {
    assert [nd][..0] == [];
  }

  lemma {:induction false} BalancedInside(a: seq<Node>)
    requires Balanced(a)
    ensures Balanced([Open(0)] + a + [Close])
  {
    var nodes := [Open(0)] + a + [Close];
    LevelSingle(Open(0));
    LevelSingle(Close);
    LevelConcat([Open(0)], a);
    LevelConcat([Open(0)] + a, [Close]);
    forall k | 0 <= k <= |nodes| ensures Level(nodes[..k]) >= 0 {
      if k == 0 {
      } else if k <= |a| + 1 {
        assert nodes[..k] == [Open(0)] + a[..k - 1];
        LevelConcat([Open(0)], a[..k - 1]);
      } else {
        assert nodes[..k] == nodes;
      }
    }
  }

  lemma {:induction false} BalancedPlain(nodes: seq<Node>)
    requires forall nd :: nd in nodes ==> LevelStep(nd) == 0
    ensures Balanced(nodes)
  {
    if nodes == [] {
    } else {
      var last := |nodes| - 1;
      BalancedPlain(nodes[..last]);
      forall k | 0 <= k <= |nodes| ensures Level(nodes[..k]) >= 0 {
        if k <= last {
          assert nodes[..last][..k] == nodes[..k];
        } else {
          assert nodes[..k] == nodes;
        }
      }
    }
  }

  lemma {:induction false} InnerIsBalanced(e: Item)
    ensures Balanced(InnerNodes(e))
    decreases e, 2
  {
    if e.Struct? {
      OutputIsBalanced(e.items);
      BalancedInside(NodesOf(e.items));
    } else {
      BalancedPlain([]);
    }
  }

  lemma {:induction false} ArrayIsBalanced(items: seq<Item>, n: nat)
    requires n <= |items|
    ensures Balanced(ArrayNodes(items, n))
    decreases items, 0, 0
  {
    if n == 0 {
      BalancedPlain([]);
    } else {
      InnerIsBalanced(items[0]);
      ArrayIsBalanced(items[1..], n - 1);
      BalancedConcat(InnerNodes(items[0]), ArrayNodes(items[1..], n - 1));
    }
  }

  /** What is written for items is balanced, with or without content in its atomic elements. */
  lemma {:induction false} OutputIsBalanced(items: seq<Item>)
    ensures Balanced(NodesOf(items))
    decreases items, 2
  {
    hide Balanced;
    if items == [] {
      BalancedPlain([]);
    } else {
      var more := items[1..];
      match items[0]
      case Blank(_) => OutputIsBalanced(more);
      case Attr(name, value, _) =>
        OutputIsBalanced(more);
        BalancedPlain([Name(Str(name)), Value(Str(value))]);
        BalancedConcat([Name(Str(name)), Value(Str(value))], NodesOf(more));
      case Leaf(name, content, _) =>
        OutputIsBalanced(more);
        BalancedPlain(LeafNodes(name, content));
        BalancedConcat(LeafNodes(name, content), NodesOf(more));
      case Struct(_, _, _, _, _, _) => StructIsBalanced(items);
    }
  }

  lemma {:induction false} ArrayTreeIsBalanced(items: seq<Item>)
    requires items != []
    ensures Balanced(ArrayTree(items))
    decreases items, 0, 1
  {
    ArrayIsBalanced(items, RunLength(items));
    BalancedInside(ArrayNodes(items, RunLength(items)));
  }

  lemma {:induction false} StructIsBalanced(items: seq<Item>)
    requires items != [] && items[0].Struct?
    ensures Balanced(NodesOf(items))
    decreases items, 1
  {
    hide Balanced, InnerNodes, ArrayTree, Level;
    var name := [Name(Str(items[0].name))];
    BalancedPlain(name);
    if items[0].isArray {
      var more := items[RunLength(items)..];
      ArrayTreeIsBalanced(items);
      BalancedConcat(name, ArrayTree(items));
      OutputIsBalanced(more);
      BalancedConcat(name + ArrayTree(items), NodesOf(more));
    } else {
      InnerIsBalanced(items[0]);
      BalancedConcat(name, InnerNodes(items[0]));
      OutputIsBalanced(items[1..]);
      BalancedConcat(name + InnerNodes(items[0]), NodesOf(items[1..]));
    }
  }

  /** A request is serialized exactly if everything in it is selected, and both stacks are empty again. The result is
      balanced. It can be read exactly if no atomic element is without content; then every maximal run of adjacent
      equal array structures has become one array. */
  lemma {:induction false} RequestResult(items: seq<Item>, out: seq<Node>)
    requires WellFormed(items)
    ensures Run(None, Events(items), State(out, [], [], false, false))
         == if Accepted(items, []) then Some(State(out + NodesOf(items), [], [], false, false)) else None
    ensures Balanced(NodesOf(items))
    ensures Meaning(NodesOf(items)) == if Complete(items) then Some(ElemsOf(items)) else None
    ensures Complete(items) ==> NodesOf(items) == ElemsNodes(ElemsOf(items))
  {
    if Complete(items) { CompleteNodes(items); }
    var st := State(out, [], [], false, false);
    RunList(None, items, [], st);
    assert Events(items) + [] == Events(items);
    OutputIsBalanced(items);
    OutputMeaning(items);
  }

  lemma {:induction false} EmptyElementAccepted()
    ensures var items := [Leaf("a", [], {}), Leaf("b", ["x"], {})];
            && WellFormed(items) && !Complete(items) && Accepted(items, [])
            && NodesOf(items) == [Name(Str("a")), Name(Str("b")), Value(Str("x"))]
  {
    var last := [Leaf("b", ["x"], {})];
    var items := [Leaf("a", [], {})] + last;
    assert items == [Leaf("a", [], {}), Leaf("b", ["x"], {})];
    assert items[1..] == last && last[1..] == [];
    assert WellFormed([]) && WellFormedItem(last[0]) && WellFormed(last) && WellFormedItem(items[0]) && Fits(items[0], items[1]);
    assert Accepted([], []) && Accepted(last, []);
    SingleValue("b", "x");
    assert NodesOf([]) == [] && NodesOf(last) == LeafNodes("b", ["x"]) + [] && LeafNodes("a", []) == [Name(Str("a"))];
  }

  /** An atomic element without content is accepted, and its name takes the place of a value for the name that follows. */
  lemma {:induction false} EmptyElementIsNotRead()
    ensures var items := [Leaf("a", [], {}), Leaf("b", ["x"], {})];
            var out := [Name(Str("a")), Name(Str("b")), Value(Str("x"))];
            && WellFormed(items) && !Complete(items)
            && Run(None, Events(items), State([], [], [], false, false)) == Some(State(out, [], [], false, false))
            && Meaning(out) == None
  {
    hide WellFormed, Complete, Run, Events, Meaning, Accepted, NodesOf;
    var items := [Leaf("a", [], {}), Leaf("b", ["x"], {})];
    EmptyElementAccepted();
    RequestResult(items, []);
    assert [] + NodesOf(items) == NodesOf(items);
  }

  /** A named array of structures of schema 2, selected in schema 1. */
  function Friend(): Item {
    Item.Struct("friend", true, true, {2}, {1}, [])
  }

  /** A structure of schema 1. */
  function Person(items: seq<Item>): Item {
    Item.Struct("person", true, false, {1}, {}, items)
  }

  lemma {:induction false} SecondElementInside()
    ensures WellFormed([Friend(), Friend()]) && WellFormed([Friend()])
    ensures Accepted([Friend()], [{1}]) && !Accepted([Friend(), Friend()], [{1}])
  {
    var e := Friend();
    var one: set<int>, two: set<int> := {1}, {2};
    assert one * one == {1} && two * one == {};
    assert [e, e][1..] == [e] && [e][1..] == [];
    assert WellFormed([]) && WellFormedItem(e) && Fits(e, e);
    assert WellFormed([e]);
    assert Accepted([], [{1}]) && Accepted([], Inner(e, [{1}])) && AcceptedIn(e, [{1}]);
    assert AcceptedRun([e], [{1}]);
    assert !Selected(e.mask, Inner(e, [{1}]));
    assert !AcceptedRun([e, e], [{1}]);
  }

  lemma {:induction false} PersonAccepted(items: seq<Item>)
    requires WellFormed(items)
    ensures WellFormed([Person(items)]) && (Accepted([Person(items)], []) <==> Accepted(items, [{1}]))
  {
    var p := Person(items);
    assert [p][1..] == [] && WellFormed([]) && WellFormedItem(p) && [] + [p.refs] == [{1}];
    assert Accepted([], []);
    assert Inner(p, []) == [{1}];
  }

  /** A request with one of two equal elements is accepted, with both of them it is not: the second one is compared with
      the schema of the array itself. */
  lemma {:induction false} SecondElementIsNotSelected()
    ensures WellFormed([Person([Friend()])]) && WellFormed([Person([Friend(), Friend()])])
    ensures Run(None, Events([Person([Friend()])]), State([], [], [], false, false)).Some?
    ensures Run(None, Events([Person([Friend(), Friend()])]), State([], [], [], false, false)) == None
  {
    SecondElementInside();
    PersonAccepted([Friend()]);
    PersonAccepted([Friend(), Friend()]);
    RequestResult([Person([Friend()])], []);
    RequestResult([Person([Friend(), Friend()])], []);
  }

  // ---------------------------------------------------------------- the loop over the request

  /** The opening elements of the open arrays by their positions. */
  ghost function ElementsAt(events: seq<Event>, at: seq<nat>): seq<RequestElement>
    requires forall i :: 0 <= i < |at| ==> at[i] < |events|
  {
    seq(|at|, i requires 0 <= i < |at| => events[at[i]].elem)
  }

  lemma {:induction false} StepOpenArray(prev: Option<RequestElement>, elem: RequestElement, following: seq<Event>, op: Op, st: State)
    requires (op.id == OpenNamedStructureArray || op.id == OpenStructureArray) && Selected(op.mask, st.sets)
    ensures StepOp(prev, elem, following, op, st)
         == Some(if st.now then st else
                 st.(sets := st.sets + (if op.id == OpenNamedStructureArray then [op.refs] else []), arrays := st.arrays + [elem],
                     out := st.out + [NameOf(elem), Open(0), Open(0)]))
  {
    assert st.sets + [] == st.sets;
  }

  lemma {:induction false} StepCloseArray(prev: Option<RequestElement>, elem: RequestElement, following: seq<Event>, op: Op, st: State)
    requires op.id == CloseNamedStructureArray || (op.id == CloseStructureArray && Selected(op.mask, st.sets))
    ensures StepOp(prev, elem, following, op, st)
         == if (op.id == CloseNamedStructureArray && st.sets == []) || st.arrays == [] then None
            else if Continues(st.arrays, following) then Some(st.(out := st.out + [Close, Open(0)], next := true))
            else Some(st.(out := st.out + [Close, Close], arrays := Pop(st.arrays),
                          sets := if op.id == CloseNamedStructureArray then Pop(st.sets) else st.sets))
  {
  }

  class RequestSerializer {
    const dest: NodeStore
    /** The sets of schemas of the open structures, and where the open arrays began. */
    var setStack: seq<set<int>>
    var arrayStack: seq<nat>
    /** The position of an element that continues an array, -1 if there is none. */
    var consumed: int

    constructor (dest: NodeStore)
      ensures this.dest == dest && setStack == [] && arrayStack == [] && consumed == -1
    {
      this.dest, setStack, arrayStack, consumed := dest, [], [], -1;
    }

    ghost predicate Valid(events: seq<Event>)
      reads this, dest, dest.Repr, set c | c in dest.Repr :: c.next
    {
      dest.Valid() && forall i :: 0 <= i < |arrayStack| ==> arrayStack[i] < |events|
    }

    /** The state as the events see it. */
    ghost function Abstract(events: seq<Event>, ridx: nat): State
      requires forall i :: 0 <= i < |arrayStack| ==> arrayStack[i] < |events|
      reads this, dest
    {
      State(dest.Contents, setStack, ElementsAt(events, arrayStack), consumed == ridx, false)
    }

    /** Pushes nodes one after the other. */
    method Push(nodes: seq<Node>)
      requires dest.Valid()
      modifies dest, dest.Repr
      ensures dest.Valid() && old(dest.Repr) <= dest.Repr && fresh(dest.Repr - old(dest.Repr))
      ensures dest.Contents == old(dest.Contents) + nodes
    {
      hide NodeStore.Valid;
      for i := 0 to |nodes|
        invariant dest.Valid() && old(dest.Repr) <= dest.Repr && fresh(dest.Repr - old(dest.Repr))
        invariant dest.Contents == old(dest.Contents) + nodes[..i]
      {
        dest.PushNode(nodes[i]);
      }
      assert nodes[..|nodes|] == nodes;
    }

    /** Opens an array unless the element continues one. */
    method OpenArray(events: seq<Event>, ridx: nat, op: Op)
      requires Valid(events) && ridx < |events| && consumed <= ridx
      modifies this`setStack, this`arrayStack, dest, dest.Repr
      ensures Valid(events) && old(dest.Repr) <= dest.Repr && fresh(dest.Repr - old(dest.Repr))
      ensures consumed == ridx ==> setStack == old(setStack) && arrayStack == old(arrayStack) && dest.Contents == old(dest.Contents)
      ensures consumed != ridx ==> setStack == old(setStack) + (if op.id == OpenNamedStructureArray then [op.refs] else [])
      ensures consumed != ridx ==> arrayStack == old(arrayStack) + [ridx]
      ensures consumed != ridx ==> dest.Contents == old(dest.Contents) + [NameOf(events[ridx].elem), Open(0), Open(0)]
    {
      hide NodeStore.Valid;
      if ridx != consumed {
        if op.id == OpenNamedStructureArray { setStack := setStack + [op.refs]; }
        arrayStack := arrayStack + [ridx];
        Push([NameOf(events[ridx].elem), Open(0), Open(0)]);
      }
    }

    /** Closes the element of an array, and the array too if the next element does not continue it. */
    method CloseArray(events: seq<Event>, ridx: nat, op: Op) returns (ok: bool)
      requires Valid(events) && ridx < |events| && consumed <= ridx
      modifies this, dest, dest.Repr
      ensures Valid(events) && old(dest.Repr) <= dest.Repr && fresh(dest.Repr - old(dest.Repr))
      ensures ok <==> (op.id == CloseNamedStructureArray ==> old(setStack) != []) && old(arrayStack) != []
      ensures ok ==>
                var goesOn := ridx + 1 < |events| && events[old(arrayStack)[|old(arrayStack)| - 1]].elem == events[ridx + 1].elem;
                && consumed == (if goesOn then ridx + 1 else old(consumed))
                && dest.Contents == old(dest.Contents) + (if goesOn then [Close, Open(0)] else [Close, Close])
                && arrayStack == (if goesOn then old(arrayStack) else Pop(old(arrayStack)))
                && setStack == (if goesOn || op.id != CloseNamedStructureArray then old(setStack) else Pop(old(setStack)))
    {
      hide NodeStore.Valid;
      if (op.id == CloseNamedStructureArray && setStack == []) || arrayStack == [] { return false; }
      if ridx + 1 < |events| && events[arrayStack[|arrayStack| - 1]].elem == events[ridx + 1].elem {
        Push([Close, Open(0)]);
        consumed := ridx + 1;
      } else {
        Push([Close, Close]);
        arrayStack := Pop(arrayStack);
        if op.id == CloseNamedStructureArray { setStack := Pop(setStack); }
      }
      return true;
    }

    ghost predicate Stepped(events: seq<Event>, ridx: nat, was: State, op: Op, ok: bool)
      requires ridx < |events| && forall i :: 0 <= i < |arrayStack| ==> arrayStack[i] < |events|
      reads this, dest
    {
      var prev := if ridx == 0 then None else Some(events[ridx - 1].elem);
      var r := StepOp(prev, events[ridx].elem, events[ridx + 1..], op, was);
      && (ok <==> r.Some?)
      && (ok ==> r.value == State(dest.Contents, setStack, ElementsAt(events, arrayStack), was.now, consumed == ridx + 1))
    }

    method ApplyValueOp(events: seq<Event>, ridx: nat, op: Op) returns (ok: bool)
      requires Valid(events) && ridx < |events| && consumed <= ridx
      requires (op.id == NameAtomic || op.id == AttributeString || op.id == ValueString) && Selected(op.mask, setStack)
      modifies dest, dest.Repr
      ensures Valid(events) && old(dest.Repr) <= dest.Repr && fresh(dest.Repr - old(dest.Repr))
      ensures Stepped(events, ridx, old(Abstract(events, ridx)), op, ok)
    {
      hide NodeStore.Valid;
      var elem := events[ridx].elem;
      if op.id == AttributeString {
        if ridx == 0 { return false; }
        Push([NameOf(events[ridx - 1].elem), Value(Str(elem.value))]);
      } else if op.id == NameAtomic {
        Push([NameOf(elem)]);
      } else {
        Push([Value(Str(elem.value))]);
      }
      return true;
    }

    method ApplyStructureOp(events: seq<Event>, ridx: nat, op: Op) returns (ok: bool)
      requires Valid(events) && ridx < |events| && consumed <= ridx
      requires op.id == OpenNamedStructure || op.id == CloseNamedStructure || op.id == OpenStructure || op.id == CloseStructure
      requires op.id != CloseNamedStructure ==> Selected(op.mask, setStack)
      modifies this`setStack, dest, dest.Repr
      ensures Valid(events) && old(dest.Repr) <= dest.Repr && fresh(dest.Repr - old(dest.Repr))
      ensures Stepped(events, ridx, old(Abstract(events, ridx)), op, ok)
    {
      hide NodeStore.Valid;
      if op.id == OpenNamedStructure { setStack := setStack + [op.refs]; }
      if op.id == CloseNamedStructure {
        if setStack == [] { return false; }
        setStack := Pop(setStack);
      }
      if op.id == OpenNamedStructure || op.id == OpenStructure {
        Push([NameOf(events[ridx].elem), Open(0)]);
      } else {
        Push([Close]);
      }
      return true;
    }

    method ApplyArrayOp(events: seq<Event>, ridx: nat, op: Op) returns (ok: bool)
      requires Valid(events) && ridx < |events| && consumed <= ridx
      requires op.id == OpenNamedStructureArray || op.id == CloseNamedStructureArray || op.id == OpenStructureArray || op.id == CloseStructureArray
      requires op.id != CloseNamedStructureArray ==> Selected(op.mask, setStack)
      modifies this, dest, dest.Repr
      ensures Valid(events) && old(dest.Repr) <= dest.Repr && fresh(dest.Repr - old(dest.Repr)) && (ok ==> consumed <= ridx + 1)
      ensures Stepped(events, ridx, old(Abstract(events, ridx)), op, ok)
    {
      hide NodeStore.Valid, StepOp, Selected, ElementsAt;
      ghost var was := Abstract(events, ridx);
      ElementsAtEnd(events, arrayStack, ridx);
      if op.id == OpenNamedStructureArray || op.id == OpenStructureArray {
        StepOpenArray(if ridx == 0 then None else Some(events[ridx - 1].elem), events[ridx].elem, events[ridx + 1..], op, was);
        OpenArray(events, ridx, op);
        ok := true;
      } else {
        StepCloseArray(if ridx == 0 then None else Some(events[ridx - 1].elem), events[ridx].elem, events[ridx + 1..], op, was);
        ok := CloseArray(events, ridx, op);
      }
    }

    method ApplyOp(events: seq<Event>, ridx: nat, op: Op) returns (ok: bool)
      requires Valid(events) && ridx < |events| && consumed <= ridx
      modifies this, dest, dest.Repr
      ensures Valid(events) && old(dest.Repr) <= dest.Repr && fresh(dest.Repr - old(dest.Repr)) && (ok ==> consumed <= ridx + 1)
      ensures Stepped(events, ridx, old(Abstract(events, ridx)), op, ok)
    {
      hide NodeStore.Valid;
      if op.mask != {} && op.id != CloseNamedStructureArray && op.id != CloseNamedStructure {
        if setStack == [] { return false; }
        if setStack[|setStack| - 1] * op.mask == {} { return false; }
      }
      match op.id {
        case NameAtomic | AttributeString | ValueString => ok := ApplyValueOp(events, ridx, op);
        case OpenNamedStructure | CloseNamedStructure | OpenStructure | CloseStructure => ok := ApplyStructureOp(events, ridx, op);
        case OpenNamedStructureArray | CloseNamedStructureArray | OpenStructureArray | CloseStructureArray => ok := ApplyArrayOp(events, ridx, op);
      }
    }

    /** Serializes a request; the operations come with its elements. */
    method SerializeRequest(events: seq<Event>) returns (ok: bool)
      requires dest.Valid() && setStack == [] && arrayStack == [] && consumed == -1
      modifies this, dest, dest.Repr
      ensures dest.Valid() && old(dest.Repr) <= dest.Repr && fresh(dest.Repr - old(dest.Repr))
      ensures var r := Run(None, events, State(old(dest.Contents), [], [], false, false));
              && (ok <==> r.Some?)
              && (ok ==> dest.Contents == r.value.out && setStack == r.value.sets && |arrayStack| == |r.value.arrays|)
    {
      hide NodeStore.Valid, StepOp, ElementsAt, Run;
      var ridx := 0;
      ghost var st0 := State(dest.Contents, [], [], false, false);
      ElementsLength(events, []);
      assert events[0..] == events;
      while ridx < |events|
        invariant 0 <= ridx <= |events| && Valid(events) && consumed <= ridx
        invariant old(dest.Repr) <= dest.Repr && fresh(dest.Repr - old(dest.Repr))
        invariant Run(None, events, st0) == Run(if ridx == 0 then None else Some(events[ridx - 1].elem), events[ridx..], Abstract(events, ridx))
      {
        assert events[ridx..][0] == events[ridx] && events[ridx..][1..] == events[ridx + 1..];
        RunNext(if ridx == 0 then None else Some(events[ridx - 1].elem), events[ridx..], Abstract(events, ridx));
        var ops := events[ridx].ops;
        if |ops| > 1 { return false; }
        if ops == [] {
          if !MayBeIgnored(events[ridx].elem) { return false; }
        } else {
          ok := ApplyOp(events, ridx, ops[0]);
          if !ok { return; }
        }
        ridx := ridx + 1;
      }
      RunNext(if ridx == 0 then None else Some(events[ridx - 1].elem), events[ridx..], Abstract(events, ridx));
      ElementsLength(events, arrayStack);
      return true;
    }

    /** A request that is a tree is refused or comes out balanced, and as its elements exactly if no atomic element is
        without content. */
    method SerializeTree(ghost items: seq<Item>, events: seq<Event>) returns (ok: bool)
      requires WellFormed(items) && events == Events(items)
      requires dest.Valid() && setStack == [] && arrayStack == [] && consumed == -1
      modifies this, dest, dest.Repr
      ensures dest.Valid() && (ok <==> Accepted(items, []))
      ensures ok ==> dest.Contents == old(dest.Contents) + NodesOf(items) && setStack == [] && arrayStack == []
      ensures Balanced(NodesOf(items))
      ensures Meaning(NodesOf(items)) == if Complete(items) then Some(ElemsOf(items)) else None
      ensures Complete(items) ==> NodesOf(items) == ElemsNodes(ElemsOf(items))
    {
      RequestResult(items, dest.Contents);
      ok := SerializeRequest(events);
    }
  }

  lemma {:induction false} RunNext(prev: Option<RequestElement>, todo: seq<Event>, st: State)
    ensures Run(prev, todo, st)
         == if todo == [] then Some(st)
            else var s := StepEvent(prev, todo, st); if s.None? then None else Run(Some(todo[0].elem), todo[1..], s.value)
  {
  }

  lemma {:induction false} ElementsLength(events: seq<Event>, at: seq<nat>)
    requires forall i :: 0 <= i < |at| ==> at[i] < |events|
    ensures |ElementsAt(events, at)| == |at|
  {
  }

  lemma {:induction false} ElementsAtEnd(events: seq<Event>, at: seq<nat>, ridx: nat)
    requires ridx < |events| && forall i :: 0 <= i < |at| ==> at[i] < |events|
    ensures ElementsAt(events, at + [ridx]) == ElementsAt(events, at) + [events[ridx].elem]
    ensures at != [] ==> ElementsAt(events, Pop(at)) == Pop(ElementsAt(events, at))
    ensures |ElementsAt(events, at)| == |at|
    ensures at != [] ==> ElementsAt(events, at)[|at| - 1] == events[at[|at| - 1]].elem
  {
  }
}
