/** What a run keeps of the values and structures of a document, and under which item. */
module RecordedItems {
  import opened Scopes
  import opened ScopeObjects
  import opened Sequences
  import opened RequestState
  import opened RequestRuns
  import ItemResolver

  // ---------------------------------------------------------------- references

  /** A reference in the map of an item. */
  datatype ItemRef = ItemRef(itemid: nat, ref: ObjectRef)

  ghost function EntryRefs(itemid: nat, m: seq<Entry>): multiset<ItemRef> {
    if m == [] then multiset{} else multiset{ItemRef(itemid, m[0].objref)} + EntryRefs(itemid, m[1..])
  }

  ghost function MapRefs(maps: seq<seq<Entry>>, n: nat): multiset<ItemRef>
    requires n <= |maps|
  {
    if n == 0 then multiset{} else MapRefs(maps, n - 1) + EntryRefs(n - 1, maps[n - 1])
  }

  /** All references of all items. */
  ghost function References(maps: seq<seq<Entry>>): multiset<ItemRef> {
    MapRefs(maps, |maps|)
  }

  /** One reference for every value, in the map of the item it was collected for. */
  ghost function ValueRefs(owner: seq<nat>): multiset<ItemRef>
    decreases |owner|
  {
    if owner == [] then multiset{} else
      var n := |owner| - 1;
      ValueRefs(owner[..n]) + multiset{ItemRef(owner[n], ValueRef(n))}
  }

  ghost predicate StructsOk(d: Description, structs: seq<nat>) {
    forall j :: 0 <= j < |structs| ==> structs[j] < |d.structitems|
  }

  /** One reference for every structure, in the map of its item. */
  ghost function StructRefs(d: Description, structs: seq<nat>): multiset<ItemRef>
    requires StructsOk(d, structs)
    decreases |structs|
  {
    if structs == [] then multiset{} else
      var n := |structs| - 1;
      StructRefs(d, structs[..n]) + multiset{ItemRef(d.structitems[structs[n]], StructRef(n))}
  }

  /** The values kept, with their items. */
  ghost function Kept(owner: seq<nat>, values: seq<Value>): multiset<ValueNode>
    requires |owner| == |values|
    decreases |owner|
  {
    if owner == [] then multiset{} else
      var n := |owner| - 1;
      Kept(owner[..n], values[..n]) + multiset{ValueNode(owner[n], values[n])}
  }

  // ---------------------------------------------------------------- what the document brings

  /** The values that the events of one input instantiate, with the items they are bound to. */
  ghost function InstancesOf(d: Description, evs: seq<AtmEvent>, value: Value): multiset<ValueNode>
    requires AllRegistered(d, evs)
    decreases |evs|
  {
    if evs == [] then multiset{} else
      var n := |evs| - 1;
      assert evs[n] in evs;
      InstancesOf(d, evs[..n], value)
      + if evs[n].InstantiateValue? then multiset{ValueNode(d.valueitems[evs[n].idx], value)} else multiset{}
  }

  /** The structures that the events of one input close. */
  ghost function ClosedOf(evs: seq<AtmEvent>): multiset<nat>
    decreases |evs|
  {
    if evs == [] then multiset{} else
      var n := |evs| - 1;
      ClosedOf(evs[..n]) + if evs[n].CloseStruct? then multiset{evs[n].idx} else multiset{}
  }

  function ValueSeen(input: InputEvent): Value {
    match input
    case OpenTag(tag, _) => tag
    case AttributeName(name, _) => name
    case AttributeValue(value, _) => value
    case Content(value, _) => value
    case CloseTag(_) => None
  }

  /** An input is taken unless the request is at its end or a root element is without a name. */
  predicate IsTaken(s: State, input: InputEvent) {
    s.scopestack != [] && !(input.OpenTag? && |s.scopestack| <= 1 && input.tag == Some(""))
  }

  ghost predicate AllInputsOk(d: Description, inputs: seq<InputEvent>) {
    d.Valid() && forall i :: 0 <= i < |inputs| ==> AllRegistered(d, inputs[i].evs)
  }

  ghost function Instantiated(d: Description, inputs: seq<InputEvent>): multiset<ValueNode>
    requires AllInputsOk(d, inputs)
    decreases |inputs|
  {
    if inputs == [] then multiset{} else
      var n := |inputs| - 1;
      Instantiated(d, inputs[..n])
      + if IsTaken(Run(d, inputs[..n]), inputs[n]) then InstancesOf(d, inputs[n].evs, ValueSeen(inputs[n])) else multiset{}
  }

  ghost function Closings(d: Description, inputs: seq<InputEvent>): multiset<nat>
    requires AllInputsOk(d, inputs)
    decreases |inputs|
  {
    if inputs == [] then multiset{} else
      var n := |inputs| - 1;
      Closings(d, inputs[..n]) + if IsTaken(Run(d, inputs[..n]), inputs[n]) then ClosedOf(inputs[n].evs) else multiset{}
  }

  // ---------------------------------------------------------------- the accounts

  const INSTANTIATE := 0
  const CLOSE := 2

  /** What has been instantiated is kept for its item or still pending; besides, there are undefined values only. */
  ghost predicate ValuesAccounted(s: State, owner: seq<nat>, fill: multiset<ValueNode>, inst: multiset<ValueNode>) {
    && |owner| == |s.values|
    && Kept(owner, s.values) + multiset(s.valuenodes) == inst + fill
    && forall n :: n in fill ==> n.value == None
  }

  ghost predicate RefsAccounted(d: Description, s: State, owner: seq<nat>) {
    StructsOk(d, s.structs) && References(s.scopeobjmap) == ValueRefs(owner) + StructRefs(d, s.structs)
  }

  /** What has been closed is recorded or still waits behind an event that failed. */
  ghost predicate ClosingsAccounted(s: State, closed: multiset<nat>) {
    |s.eventstacks| == NOF_EVENT_TYPES && closed == multiset(s.structs) + ClosedOf(s.eventstacks[CLOSE])
  }

  ghost predicate Accounted(d: Description, s: State, owner: seq<nat>, fill: multiset<ValueNode>, inst: multiset<ValueNode>, closed: multiset<nat>) {
    ValuesAccounted(s, owner, fill, inst) && RefsAccounted(d, s, owner) && ClosingsAccounted(s, closed)
  }

  // ---------------------------------------------------------------- inserting references

  lemma {:induction false} EntryRefsInsert(itemid: nat, m: seq<Entry>, e: Entry)
    ensures EntryRefs(itemid, Insert(m, e)) == EntryRefs(itemid, m) + multiset{ItemRef(itemid, e.objref)}
  {
    if m == [] || Less(e.key, m[0].key) {
      assert ([e] + m)[1..] == m;
    } else {
      EntryRefsInsert(itemid, m[1..], e);
      assert ([m[0]] + Insert(m[1..], e))[1..] == Insert(m[1..], e);
    }
  }

  lemma {:induction false} MapRefsSame(a: seq<seq<Entry>>, b: seq<seq<Entry>>, n: nat)
    requires n <= |a| && n <= |b| && forall i :: 0 <= i < n ==> a[i] == b[i]
    ensures MapRefs(a, n) == MapRefs(b, n)
  {
    if n > 0 { MapRefsSame(a, b, n - 1); }
  }

  lemma {:induction false} MapRefsUpdate(maps: seq<seq<Entry>>, itemid: nat, e: Entry, n: nat)
    requires itemid < n <= |maps|
    ensures MapRefs(maps[itemid := Insert(maps[itemid], e)], n) == MapRefs(maps, n) + multiset{ItemRef(itemid, e.objref)}
  {
    var r := maps[itemid := Insert(maps[itemid], e)];
    if itemid == n - 1 {
      MapRefsSame(maps, r, n - 1);
      EntryRefsInsert(itemid, maps[itemid], e);
    } else {
      MapRefsUpdate(maps, itemid, e, n - 1);
    }
  }

  lemma {:induction false} ReferencesInsert(maps: seq<seq<Entry>>, itemid: nat, scope: Scope, kind: ScopeKeyType, ref: ObjectRef, level: nat)
    requires itemid < |maps|
    ensures References(InsertRef(maps, itemid, scope, kind, ref, level)) == References(maps) + multiset{ItemRef(itemid, ref)}
  {
    MapRefsUpdate(maps, itemid, Entry(ScopeKey(scope, kind), ref, level), |maps|);
  }

  /** So many times the same item. */
  function Times(itemid: nat, n: nat): (r: seq<nat>)
    ensures |r| == n && forall i :: 0 <= i < n ==> r[i] == itemid
  {
    seq(n, _ => itemid)
  }

  lemma {:induction false} ValueRefsMore(owner: seq<nat>, itemid: nat)
    ensures ValueRefs(owner + [itemid]) == ValueRefs(owner) + multiset{ItemRef(itemid, ValueRef(|owner|))}
  {
    assert (owner + [itemid])[..|owner|] == owner;
  }

  lemma {:induction false} OneMoreTime(owner: seq<nat>, itemid: nat, n: nat)
    ensures owner + Times(itemid, n + 1) == owner + Times(itemid, n) + [itemid] && owner + Times(itemid, 0) == owner
  {
  }

  lemma {:induction false} ReferencesInsertValues(maps: seq<seq<Entry>>, itemid: nat, scope: Scope, level: nat, owner: seq<nat>, n: nat, others: multiset<ItemRef>)
    requires itemid < |maps| && References(maps) == ValueRefs(owner) + others
    ensures References(InsertValues(maps, itemid, scope, level, |owner|, n)) == ValueRefs(owner + Times(itemid, n)) + others
  {
    hide References, ValueRefs, InsertRef, Times;
    if n == 0 {
      OneMoreTime(owner, itemid, 0);
    } else {
      ReferencesInsertValues(maps, itemid, scope, level, owner, n - 1, others);
      var before, more := InsertValues(maps, itemid, scope, level, |owner|, n - 1), owner + Times(itemid, n - 1);
      ReferencesInsert(before, itemid, scope, ValueScope, ValueRef(|owner| + n - 1), level);
      OneMoreTime(owner, itemid, n - 1);
      ValueRefsMore(more, itemid);
    }
  }

  // ---------------------------------------------------------------- collecting

  lemma {:induction false} KeptMore(owner: seq<nat>, values: seq<Value>, itemid: nat, vals: seq<Value>)
    requires |owner| == |values|
    ensures Kept(owner + Times(itemid, |vals|), values + vals) == Kept(owner, values) + Kept(Times(itemid, |vals|), vals)
    decreases |vals|
  {
    if vals == [] {
      assert owner + Times(itemid, 0) == owner && values + vals == values;
    } else {
      var n := |vals| - 1;
      KeptMore(owner, values, itemid, vals[..n]);
      assert (owner + Times(itemid, n + 1))[..|owner| + n] == owner + Times(itemid, n);
      assert (values + vals)[..|values| + n] == values + vals[..n];
      assert Times(itemid, n + 1)[..n] == Times(itemid, n);
    }
  }

  lemma {:induction false} KeptSingle(itemid: nat, v: Value)
    ensures Kept(Times(itemid, 1), [v]) == multiset{ValueNode(itemid, v)}
  {
    assert Times(itemid, 1)[..0] == [] && [v][..0] == [];
  }

  /** The pending values are those of the item and the others. */
  lemma {:induction false} PendingSplits(itemid: nat, nodes: seq<ValueNode>)
    ensures multiset(nodes) == multiset(OthersOf(itemid, nodes)) + Kept(Times(itemid, |ValuesOf(itemid, nodes)|), ValuesOf(itemid, nodes))
    decreases |nodes|
  {
    hide Kept;
    if nodes == [] {
      KeptNone(itemid);
    } else {
      var n := |nodes| - 1;
      PendingSplits(itemid, nodes[..n]);
      assert nodes == nodes[..n] + [nodes[n]];
      var vals, value := ValuesOf(itemid, nodes[..n]), nodes[n].value;
      if nodes[n].itemid == itemid {
        KeptMore(Times(itemid, |vals|), vals, itemid, [value]);
        KeptSingle(itemid, value);
        OneMoreTime(Times(itemid, |vals|), itemid, 0);
        assert Times(itemid, |vals|) + Times(itemid, 1) == Times(itemid, |vals + [value]|);
      } else {
        assert vals + [] == vals;
      }
    }
  }

  lemma {:induction false} CollectedValues(s: State, itemid: nat, owner: seq<nat>, fill: multiset<ValueNode>, inst: multiset<ValueNode>, vals: seq<Value>)
    returns (fill': multiset<ValueNode>)
    requires ValuesAccounted(s, owner, fill, inst)
    requires vals == if ValuesOf(itemid, s.valuenodes) == [] then [None] else ValuesOf(itemid, s.valuenodes)
    ensures forall n :: n in fill' ==> n.value == None
    ensures Kept(owner + Times(itemid, |vals|), s.values + vals) + multiset(OthersOf(itemid, s.valuenodes)) == inst + fill'
  {
    hide ValuesOf, OthersOf, Kept;
    var found := ValuesOf(itemid, s.valuenodes);
    PendingSplits(itemid, s.valuenodes);
    KeptMore(owner, s.values, itemid, vals);
    var kept, rest := Kept(owner, s.values), multiset(OthersOf(itemid, s.valuenodes));
    if found == [] {
      KeptSingle(itemid, None);
      KeptNone(itemid);
      fill' := fill + multiset{ValueNode(itemid, None)};
      assert Times(itemid, |found|) == Times(itemid, 0);
      assert multiset(s.valuenodes) == rest;
      assert kept + multiset{ValueNode(itemid, None)} + rest == (kept + rest) + multiset{ValueNode(itemid, None)};
    } else {
      fill' := fill;
      var more := Kept(Times(itemid, |found|), found);
      assert kept + more + rest == kept + (rest + more);
    }
  }

  lemma {:induction false} KeptNone(itemid: nat)
    ensures Kept(Times(itemid, 0), []) == multiset{}
  {
  }

  lemma {:induction false} CollectAccounts(d: Description, s: State, itemid: nat, owner: seq<nat>, fill: multiset<ValueNode>, inst: multiset<ValueNode>)
    returns (owner': seq<nat>, fill': multiset<ValueNode>)
    requires ValuesAccounted(s, owner, fill, inst) && RefsAccounted(d, s, owner) && |s.scopestack| > 0 && itemid < |s.scopeobjmap|
    ensures ValuesAccounted(Collected(s, itemid).0, owner', fill', inst) && RefsAccounted(d, Collected(s, itemid).0, owner')
  {
    hide ValuesOf, OthersOf, Kept, References, ValueRefs, StructRefs, InsertValues;
    var found := ValuesOf(itemid, s.valuenodes);
    var vals := if found == [] then [None] else found;
    owner' := owner + Times(itemid, |vals|);
    fill' := CollectedValues(s, itemid, owner, fill, inst, vals);
    ReferencesInsertValues(s.scopeobjmap, itemid, CurScope(s), |s.scopestack|, owner, |vals|, StructRefs(d, s.structs));
  }

  // ---------------------------------------------------------------- events

  lemma {:induction false} SingleInstance(d: Description, ev: AtmEvent, value: Value)
    requires IsRegistered(d, ev)
    ensures AllRegistered(d, [ev])
    ensures InstancesOf(d, [ev], value)
         == if ev.InstantiateValue? then multiset{ValueNode(d.valueitems[ev.idx], value)} else multiset{}
  {
    assert [ev][..0] == [] && ev in [ev];
  }

  lemma {:induction false} StructRefsMore(d: Description, structs: seq<nat>, i: nat)
    requires StructsOk(d, structs) && i < |d.structitems|
    ensures StructsOk(d, structs + [i])
    ensures StructRefs(d, structs + [i]) == StructRefs(d, structs) + multiset{ItemRef(d.structitems[i], StructRef(|structs|))}
  {
    assert (structs + [i])[..|structs|] == structs;
  }

  lemma {:induction false} MoreOnBothSides(a: multiset<ValueNode>, b: multiset<ValueNode>, c: multiset<ValueNode>, d: multiset<ValueNode>, x: multiset<ValueNode>)
    requires a + b == c + d
    ensures a + (b + x) == c + x + d
  {
    forall n ensures (a + (b + x))[n] == (c + x + d)[n] {
      assert (a + b)[n] == (c + d)[n];
    }
  }

  /** What an event does to values, pending values, structures and references. */
  lemma {:induction false} EventAccounts(d: Description, s: State, ev: AtmEvent, value: Value,
                                         owner: seq<nat>, fill: multiset<ValueNode>, inst: multiset<ValueNode>)
    returns (owner': seq<nat>, fill': multiset<ValueNode>)
    requires Ready(d, s) && IsRegistered(d, ev) && ValuesAccounted(s, owner, fill, inst) && RefsAccounted(d, s, owner)
    ensures AllRegistered(d, [ev])
    ensures var r := ProcessEvent(d, s, ev, value).0;
            && ValuesAccounted(r, owner', fill', inst + InstancesOf(d, [ev], value)) && RefsAccounted(d, r, owner')
            && r.structs == s.structs + (if ev.CloseStruct? then [ev.idx] else [])
  {
    hide Kept, References, ValueRefs, StructRefs, Scanned, InsertRef, InstancesOf, Collected;
    SingleInstance(d, ev, value);
    owner', fill' := owner, fill;
    assert s.structs + [] == s.structs && inst + multiset{} == inst;
    match ev
    case InstantiateValue(i) =>
      var nd := ValueNode(d.valueitems[i], value);
      assert multiset(s.valuenodes + [nd]) == multiset(s.valuenodes) + multiset{nd};
      MoreOnBothSides(Kept(owner, s.values), multiset(s.valuenodes), inst, fill, multiset{nd});
    case CollectValue(i) =>
      owner', fill' := CollectAccounts(d, s, d.valueitems[i], owner, fill, inst);
      CollectKeepsStructs(s, d.valueitems[i]);
    case CloseStruct(i) =>
      ReferencesInsert(s.scopeobjmap, d.structitems[i], CurScope(s), ObjectScope, StructRef(|s.structs|), |s.scopestack|);
      StructRefsMore(d, s.structs, i);
    case _ =>
  }

  lemma {:induction false} CollectKeepsStructs(s: State, itemid: nat)
    requires |s.scopestack| > 0 && itemid < |s.scopeobjmap|
    ensures Collected(s, itemid).0.structs == s.structs
  {
  }

  lemma {:induction false} ClosedMore(evs: seq<AtmEvent>)
    requires evs != []
    ensures ClosedOf(evs) == ClosedOf(evs[..|evs| - 1]) + if evs[|evs| - 1].CloseStruct? then multiset{evs[|evs| - 1].idx} else multiset{}
  {
  }

  lemma {:induction false} InstancesMore(d: Description, evs: seq<AtmEvent>, value: Value)
    requires AllRegistered(d, evs) && evs != []
    ensures AllRegistered(d, evs[..|evs| - 1]) && AllRegistered(d, [evs[|evs| - 1]])
    ensures InstancesOf(d, evs, value) == InstancesOf(d, [evs[|evs| - 1]], value) + InstancesOf(d, evs[..|evs| - 1], value)
  {
    assert evs[|evs| - 1] in evs;
    SingleInstance(d, evs[|evs| - 1], value);
  }

  /** The last event of a stack is processed. */
  lemma {:induction false} StepAccounts(d: Description, s: State, t: nat, value: Value,
                                        owner: seq<nat>, fill: multiset<ValueNode>, inst: multiset<ValueNode>, closed: multiset<nat>)
    returns (owner': seq<nat>, fill': multiset<ValueNode>)
    requires Ready(d, s) && t < NOF_EVENT_TYPES && s.eventstacks[t] != [] && Accounted(d, s, owner, fill, inst, closed)
    ensures Ready(d, Popped(s, t)) && IsRegistered(d, s.eventstacks[t][|s.eventstacks[t]| - 1])
    ensures var ev := s.eventstacks[t][|s.eventstacks[t]| - 1];
            && AllRegistered(d, [ev]) && Rank(ev) == t
            && Accounted(d, ProcessEvent(d, Popped(s, t), ev, value).0, owner', fill', inst + InstancesOf(d, [ev], value), closed)
  {
    hide ValuesAccounted, RefsAccounted, InstancesOf, ClosedOf, ProcessEvent;
    var ev, s0 := s.eventstacks[t][|s.eventstacks[t]| - 1], Popped(s, t);
    PoppedIsReady(d, s, t);
    ProcessEventFrame(d, s0, ev, value);
    PoppedAccounts(d, s, t, owner, fill, inst);
    owner', fill' := EventAccounts(d, s0, ev, value, owner, fill, inst);
    var r := ProcessEvent(d, s0, ev, value).0;
    assert r.eventstacks == s0.eventstacks && s0.structs == s.structs;
    if t == CLOSE { ClosedMore(s.eventstacks[t]); }
    assert multiset(s.structs + [0]) == multiset(s.structs) + multiset{0};
    assert ev.CloseStruct? ==> multiset(s.structs + [ev.idx]) == multiset(s.structs) + multiset{ev.idx};
    assert s.structs + [] == s.structs;
  }

  lemma {:induction false} PoppedAccounts(d: Description, s: State, t: nat, owner: seq<nat>, fill: multiset<ValueNode>, inst: multiset<ValueNode>)
    requires |s.eventstacks| == NOF_EVENT_TYPES && t < NOF_EVENT_TYPES && s.eventstacks[t] != []
    requires ValuesAccounted(s, owner, fill, inst) && RefsAccounted(d, s, owner)
    ensures ValuesAccounted(Popped(s, t), owner, fill, inst) && RefsAccounted(d, Popped(s, t), owner)
  {
  }

  lemma {:induction false} InstantiatesFirst(d: Description, s: State, ev: AtmEvent, value: Value)
    requires Ready(d, s) && IsRegistered(d, ev)
    ensures Rank(ev) == INSTANTIATE ==> ProcessEvent(d, s, ev, value).1
    ensures Rank(ev) != INSTANTIATE ==> !ev.InstantiateValue?
  {
  }

  lemma {:induction false} DrainUnfolds(d: Description, s: State, t: nat, value: Value)
    requires Ready(d, s) && t < NOF_EVENT_TYPES && s.eventstacks[t] != []
    ensures Ready(d, Popped(s, t)) && IsRegistered(d, s.eventstacks[t][|s.eventstacks[t]| - 1])
    ensures var (s1, ok) := ProcessEvent(d, Popped(s, t), s.eventstacks[t][|s.eventstacks[t]| - 1], value);
            && Ready(d, s1) && s1.eventstacks == Popped(s, t).eventstacks
            && DrainFrom(d, s, t, value) == if ok then DrainFrom(d, s1, t, value) else (s1, false)
  {
    PoppedIsReady(d, s, t);
    ProcessEventFrame(d, Popped(s, t), s.eventstacks[t][|s.eventstacks[t]| - 1], value);
  }

  lemma {:induction false} StackRegistered(d: Description, s: State, t: nat)
    requires Ready(d, s) && t < NOF_EVENT_TYPES
    ensures |s.eventstacks| == NOF_EVENT_TYPES && AllRegistered(d, s.eventstacks[t])
  {
  }

  lemma {:induction false} NoInstances(d: Description, value: Value)
    ensures InstancesOf(d, [], value) == multiset{}
  {
  }

  /** Emptying the stacks instantiates exactly what waits to be instantiated. */
  lemma {:induction false} DrainAccounts(d: Description, s: State, t: nat, value: Value,
                                         owner: seq<nat>, fill: multiset<ValueNode>, inst: multiset<ValueNode>, closed: multiset<nat>)
    returns (owner': seq<nat>, fill': multiset<ValueNode>)
    requires Ready(d, s) && t <= NOF_EVENT_TYPES && Accounted(d, s, owner, fill, inst, closed)
    requires t > 0 ==> s.eventstacks[INSTANTIATE] == []
    ensures AllRegistered(d, s.eventstacks[INSTANTIATE])
    ensures var r := DrainFrom(d, s, t, value).0;
            && Accounted(d, r, owner', fill', inst + InstancesOf(d, s.eventstacks[INSTANTIATE], value), closed)
            && |r.eventstacks| == NOF_EVENT_TYPES && r.eventstacks[INSTANTIATE] == []
    decreases NOF_EVENT_TYPES - t, if t < NOF_EVENT_TYPES then |s.eventstacks[t]| else 0
  {
    hide Accounted, InstancesOf, ProcessEvent, Ready;
    StackRegistered(d, s, INSTANTIATE);
    NoInstances(d, value);
    assert inst + multiset{} == inst;
    if t == NOF_EVENT_TYPES {
      owner', fill' := owner, fill;
    } else if s.eventstacks[t] == [] {
      owner', fill' := DrainAccounts(d, s, t + 1, value, owner, fill, inst, closed);
    } else {
      var ev := s.eventstacks[t][|s.eventstacks[t]| - 1];
      var one, two := StepAccounts(d, s, t, value, owner, fill, inst, closed);
      DrainUnfolds(d, s, t, value);
      InstantiatesFirst(d, Popped(s, t), ev, value);
      SingleInstance(d, ev, value);
      var (s1, ok) := ProcessEvent(d, Popped(s, t), ev, value);
      var now := inst + InstancesOf(d, [ev], value);
      if t == INSTANTIATE { InstancesMore(d, s.eventstacks[t], value); }
      if ok {
        owner', fill' := DrainAccounts(d, s1, t, value, one, two, now, closed);
        assert now + InstancesOf(d, s1.eventstacks[INSTANTIATE], value)
            == inst + (InstancesOf(d, [ev], value) + InstancesOf(d, s1.eventstacks[INSTANTIATE], value));
      } else {
        owner', fill' := one, two;
      }
    }
  }

  // ---------------------------------------------------------------- inputs

  lemma {:induction false} InstancesConcat(d: Description, a: seq<AtmEvent>, ev: AtmEvent, value: Value)
    requires AllRegistered(d, a) && IsRegistered(d, ev)
    ensures AllRegistered(d, a + [ev]) && AllRegistered(d, [ev])
    ensures InstancesOf(d, a + [ev], value) == InstancesOf(d, a, value) + InstancesOf(d, [ev], value)
  {
    forall x | x in a + [ev] ensures IsRegistered(d, x) {}
    InstancesMore(d, a + [ev], value);
    assert (a + [ev])[..|a|] == a;
  }

  lemma {:induction false} ClosedConcat(a: seq<AtmEvent>, ev: AtmEvent)
    ensures ClosedOf(a + [ev]) == ClosedOf(a) + if ev.CloseStruct? then multiset{ev.idx} else multiset{}
  {
    ClosedMore(a + [ev]);
    assert (a + [ev])[..|a|] == a;
  }

  /** What is put on the stacks. */
  lemma {:induction false} PushedInstances(d: Description, stacks: seq<seq<AtmEvent>>, evs: seq<AtmEvent>, value: Value)
    requires StacksOk(d, stacks) && AllRegistered(d, evs) && stacks[INSTANTIATE] == []
    ensures AllRegistered(d, PushAll(stacks, evs)[INSTANTIATE])
    ensures InstancesOf(d, PushAll(stacks, evs)[INSTANTIATE], value) == InstancesOf(d, evs, value)
    decreases |evs|
  {
    hide InstancesOf;
    if evs == [] {
    } else {
      var n := |evs| - 1;
      assert evs[n] in evs;
      PushedInstances(d, stacks, evs[..n], value);
      InstancesMore(d, evs, value);
      SingleInstance(d, evs[n], value);
      var before := PushAll(stacks, evs[..n])[INSTANTIATE];
      if Rank(evs[n]) == INSTANTIATE { InstancesConcat(d, before, evs[n], value); }
    }
  }

  lemma {:induction false} PushedClosings(stacks: seq<seq<AtmEvent>>, evs: seq<AtmEvent>)
    requires |stacks| == NOF_EVENT_TYPES
    ensures ClosedOf(PushAll(stacks, evs)[CLOSE]) == ClosedOf(stacks[CLOSE]) + ClosedOf(evs)
    decreases |evs|
  {
    hide ClosedOf;
    if evs == [] {
      NothingClosed();
    } else {
      var n := |evs| - 1;
      PushedClosings(stacks, evs[..n]);
      ClosedMore(evs);
      if Rank(evs[n]) == CLOSE { ClosedConcat(PushAll(stacks, evs[..n])[CLOSE], evs[n]); }
    }
  }

  lemma {:induction false} NothingClosed()
    ensures ClosedOf([]) == multiset{}
  {
  }

  lemma {:induction false} ProcessAccounts(d: Description, s: State, evs: seq<AtmEvent>, value: Value,
                                           owner: seq<nat>, fill: multiset<ValueNode>, inst: multiset<ValueNode>, closed: multiset<nat>)
    returns (owner': seq<nat>, fill': multiset<ValueNode>)
    requires Ready(d, s) && AllRegistered(d, evs) && Accounted(d, s, owner, fill, inst, closed) && s.eventstacks[INSTANTIATE] == []
    ensures var r := ProcessEvents(d, s, evs, value).0;
            && Accounted(d, r, owner', fill', inst + InstancesOf(d, evs, value), closed + ClosedOf(evs))
            && r.eventstacks[INSTANTIATE] == []
  {
    hide InstancesOf, ClosedOf, ValuesAccounted, RefsAccounted;
    PushAllOk(d, s.eventstacks, evs);
    PushedInstances(d, s.eventstacks, evs, value);
    PushedClosings(s.eventstacks, evs);
    var full := s.(eventstacks := PushAll(s.eventstacks, evs));
    OtherStacksAccount(d, s, full, owner, fill, inst);
    owner', fill' := DrainAccounts(d, full, 0, value, owner, fill, inst, closed + ClosedOf(evs));
  }

  /** The accounts do not depend on the other parts of the state. */
  lemma {:induction false} OtherStacksAccount(d: Description, s: State, r: State, owner: seq<nat>, fill: multiset<ValueNode>, inst: multiset<ValueNode>)
    requires ValuesAccounted(s, owner, fill, inst) && RefsAccounted(d, s, owner)
    requires r.values == s.values && r.valuenodes == s.valuenodes && r.structs == s.structs && r.scopeobjmap == s.scopeobjmap
    ensures ValuesAccounted(r, owner, fill, inst) && RefsAccounted(d, r, owner)
  {
  }

  lemma {:induction false} SameAccount(d: Description, s: State, r: State, owner: seq<nat>, fill: multiset<ValueNode>, inst: multiset<ValueNode>, closed: multiset<nat>)
    requires Accounted(d, s, owner, fill, inst, closed)
    requires r.values == s.values && r.valuenodes == s.valuenodes && r.structs == s.structs && r.scopeobjmap == s.scopeobjmap
    requires r.eventstacks == s.eventstacks
    ensures Accounted(d, r, owner, fill, inst, closed)
  {
    OtherStacksAccount(d, s, r, owner, fill, inst);
  }

  /** The state in which the events of an input are processed. */
  function Entered(s: State, input: InputEvent): State {
    if input.OpenTag? then Pushed(s, input.tag) else Tick(s)
  }

  lemma {:induction false} FeedIsProcessing(d: Description, s: State, input: InputEvent)
    requires Ready(d, s) && AllRegistered(d, input.evs)
    ensures Ready(d, Entered(s, input))
    ensures !IsTaken(s, input) ==> SameRecords(s, Feed(d, s, input).0)
    ensures var (r, ok) := ProcessEvents(d, Entered(s, input), input.evs, ValueSeen(input));
            IsTaken(s, input) ==>
              && Feed(d, s, input).1 == ok && SameRecords(r, Feed(d, s, input).0)
              && Feed(d, s, input).0.scopestack
                 == if input.CloseTag? && ok then r.scopestack[..|r.scopestack| - 1] else r.scopestack
  {
    hide DrainFrom;
  }

  ghost predicate SameRecords(s: State, r: State) {
    && r.values == s.values && r.valuenodes == s.valuenodes && r.structs == s.structs && r.scopeobjmap == s.scopeobjmap
    && r.eventstacks == s.eventstacks && r.methodcalls == s.methodcalls && r.resultrefs == s.resultrefs
  }

  lemma {:induction false} FeedAccounts(d: Description, s: State, input: InputEvent,
                                        owner: seq<nat>, fill: multiset<ValueNode>, inst: multiset<ValueNode>, closed: multiset<nat>)
    returns (owner': seq<nat>, fill': multiset<ValueNode>)
    requires Ready(d, s) && AllRegistered(d, input.evs) && Accounted(d, s, owner, fill, inst, closed) && s.eventstacks[INSTANTIATE] == []
    ensures var r := Feed(d, s, input).0;
            && Accounted(d, r, owner', fill', inst + (if IsTaken(s, input) then InstancesOf(d, input.evs, ValueSeen(input)) else multiset{}),
                         closed + if IsTaken(s, input) then ClosedOf(input.evs) else multiset{})
            && |r.eventstacks| == NOF_EVENT_TYPES && r.eventstacks[INSTANTIATE] == []
  {
    hide InstancesOf, ClosedOf, Accounted, ProcessEvents, Feed;
    FeedIsProcessing(d, s, input);
    StackRegistered(d, s, INSTANTIATE);
    assert inst + multiset{} == inst && closed + multiset{} == closed;
    var r := Feed(d, s, input).0;
    if IsTaken(s, input) {
      var s0 := Entered(s, input);
      SameAccount(d, s, s0, owner, fill, inst, closed);
      owner', fill' := ProcessAccounts(d, s0, input.evs, ValueSeen(input), owner, fill, inst, closed);
      SameAccount(d, ProcessEvents(d, s0, input.evs, ValueSeen(input)).0, r, owner', fill', inst + InstancesOf(d, input.evs, ValueSeen(input)), closed + ClosedOf(input.evs));
    } else {
      owner', fill' := owner, fill;
      SameAccount(d, s, r, owner, fill, inst, closed);
    }
  }

  // ---------------------------------------------------------------- runs

  lemma {:induction false} InitAccounts(d: Description)
    requires d.Valid()
    ensures Accounted(d, InitState(d), [], multiset{}, multiset{}, multiset{}) && InitState(d).eventstacks[INSTANTIATE] == []
  {
    NoReferences(d.maxitemid + 1, d.maxitemid + 1);
  }

  lemma {:induction false} NoReferences(n: nat, k: nat)
    requires k <= n
    ensures MapRefs(seq(n, _ => []), k) == multiset{}
  {
    if k > 0 { NoReferences(n, k - 1); }
  }

  /** On every run: each value that was instantiated is kept for the item it is bound to, or is still pending for it; what
      is kept besides is undefined. Every value is referenced once, under its item, every structure that was closed is
      recorded, or still waits behind an event that failed, and is referenced once, under its item; there are no other
      references. */
  lemma {:induction false} RunAccounts(d: Description, inputs: seq<InputEvent>) returns (owner: seq<nat>, fill: multiset<ValueNode>)
    requires AllInputsOk(d, inputs)
    ensures var s := Run(d, inputs);
            && Accounted(d, s, owner, fill, Instantiated(d, inputs), Closings(d, inputs))
            && |s.eventstacks| == NOF_EVENT_TYPES && s.eventstacks[INSTANTIATE] == []
    decreases |inputs|
  {
    hide Accounted, Feed, Inv, InstancesOf, ClosedOf;
    if inputs == [] {
      owner, fill := [], multiset{};
      InitAccounts(d);
    } else {
      var n := |inputs| - 1;
      var before, input := inputs[..n], inputs[n];
      owner, fill := RunAccounts(d, before);
      var s := Run(d, before);
      var inst, closed := Instantiated(d, before), Closings(d, before);
      assert inst + multiset{} == inst && closed + multiset{} == closed;
      if s.scopestack != [] {
        RunIsReady(d, s);
        owner, fill := FeedAccounts(d, s, input, owner, fill, inst, closed);
      }
    }
  }

  lemma {:induction false} RunIsReady(d: Description, s: State)
    requires Inv(d, s) && s.scopestack != []
    ensures Ready(d, s)
  {
  }

  // ---------------------------------------------------------------- what a reference refers to

  /** An event bound to the item saw the value. */
  ghost predicate SeenFor(d: Description, inputs: seq<InputEvent>, itemid: nat, value: Value) {
    exists n, k :: 0 <= n < |inputs| && 0 <= k < |inputs[n].evs| && IsInstance(d, inputs[n], k, itemid, value)
  }

  ghost predicate IsInstance(d: Description, input: InputEvent, k: nat, itemid: nat, value: Value)
    requires k < |input.evs|
  {
    && input.evs[k].InstantiateValue? && input.evs[k].idx < |d.valueitems| && d.valueitems[input.evs[k].idx] == itemid
    && ValueSeen(input) == value
  }

  lemma {:induction false} RefsOfMap(itemid: nat, m: seq<Entry>, i: nat)
    requires i < |m|
    ensures ItemRef(itemid, m[i].objref) in EntryRefs(itemid, m)
  {
    if i > 0 { RefsOfMap(itemid, m[1..], i - 1); }
  }

  lemma {:induction false} RefsOfMaps(maps: seq<seq<Entry>>, itemid: nat, i: nat, n: nat)
    requires itemid < n <= |maps| && i < |maps[itemid]|
    ensures ItemRef(itemid, maps[itemid][i].objref) in MapRefs(maps, n)
  {
    if itemid == n - 1 { RefsOfMap(itemid, maps[itemid], i); } else { RefsOfMaps(maps, itemid, i, n - 1); }
  }

  lemma {:induction false} ValueRefsCount(owner: seq<nat>, r: ItemRef)
    ensures ValueRefs(owner)[r] == if r.ref.ValueRef? && r.ref.idx < |owner| && owner[r.ref.idx] == r.itemid then 1 else 0
    decreases |owner|
  {
    if owner != [] { ValueRefsCount(owner[..|owner| - 1], r); }
  }

  lemma {:induction false} StructRefsCount(d: Description, structs: seq<nat>, r: ItemRef)
    requires StructsOk(d, structs)
    ensures StructRefs(d, structs)[r]
         == if r.ref.StructRef? && r.ref.idx < |structs| && d.structitems[structs[r.ref.idx]] == r.itemid then 1 else 0
    decreases |structs|
  {
    if structs != [] { StructRefsCount(d, structs[..|structs| - 1], r); }
  }

  lemma {:induction false} KeptHas(owner: seq<nat>, values: seq<Value>, j: nat)
    requires |owner| == |values| && j < |owner|
    ensures ValueNode(owner[j], values[j]) in Kept(owner, values)
    decreases |owner|
  {
    if j < |owner| - 1 { KeptHas(owner[..|owner| - 1], values[..|owner| - 1], j); }
  }

  lemma {:induction false} KeptFrom(owner: seq<nat>, values: seq<Value>, nd: ValueNode) returns (j: nat)
    requires |owner| == |values| && nd in Kept(owner, values)
    ensures j < |owner| && nd == ValueNode(owner[j], values[j])
    decreases |owner|
  {
    var n := |owner| - 1;
    if nd in Kept(owner[..n], values[..n]) { j := KeptFrom(owner[..n], values[..n], nd); } else { j := n; }
  }

  lemma {:induction false} InstanceSeen(d: Description, evs: seq<AtmEvent>, value: Value, nd: ValueNode) returns (k: nat)
    requires AllRegistered(d, evs) && nd in InstancesOf(d, evs, value)
    ensures k < |evs| && evs[k].InstantiateValue? && evs[k].idx < |d.valueitems| && d.valueitems[evs[k].idx] == nd.itemid && nd.value == value
    decreases |evs|
  {
    var n := |evs| - 1;
    assert evs[n] in evs;
    if nd in InstancesOf(d, evs[..n], value) { k := InstanceSeen(d, evs[..n], value, nd); } else { k := n; }
  }

  lemma {:induction false} InstanceCounted(d: Description, evs: seq<AtmEvent>, value: Value, k: nat)
    requires AllRegistered(d, evs) && k < |evs| && evs[k].InstantiateValue?
    ensures evs[k].idx < |d.valueitems| && ValueNode(d.valueitems[evs[k].idx], value) in InstancesOf(d, evs, value)
    decreases |evs|
  {
    assert evs[k] in evs;
    if k < |evs| - 1 { InstanceCounted(d, evs[..|evs| - 1], value, k); }
  }

  lemma {:induction false} InstantiatedSeen(d: Description, inputs: seq<InputEvent>, nd: ValueNode)
    requires AllInputsOk(d, inputs) && nd in Instantiated(d, inputs)
    ensures SeenFor(d, inputs, nd.itemid, nd.value)
    decreases |inputs|
  {
    var n := |inputs| - 1;
    if nd in Instantiated(d, inputs[..n]) {
      InstantiatedSeen(d, inputs[..n], nd);
      var m, k :| 0 <= m < n && 0 <= k < |inputs[..n][m].evs| && IsInstance(d, inputs[..n][m], k, nd.itemid, nd.value);
      assert IsInstance(d, inputs[m], k, nd.itemid, nd.value);
    } else {
      var k := InstanceSeen(d, inputs[n].evs, ValueSeen(inputs[n]), nd);
      assert IsInstance(d, inputs[n], k, nd.itemid, nd.value);
    }
  }

  lemma {:induction false} TakenIsInstantiated(d: Description, inputs: seq<InputEvent>, n: nat, k: nat)
    requires AllInputsOk(d, inputs) && n < |inputs| && k < |inputs[n].evs| && inputs[n].evs[k].InstantiateValue?
    requires IsTaken(Run(d, inputs[..n]), inputs[n])
    ensures inputs[n].evs[k].idx < |d.valueitems|
    ensures ValueNode(d.valueitems[inputs[n].evs[k].idx], ValueSeen(inputs[n])) in Instantiated(d, inputs)
    decreases |inputs|
  {
    hide Run, InstancesOf, IsTaken, Inv;
    var last := |inputs| - 1;
    if n == last {
      InstanceCounted(d, inputs[n].evs, ValueSeen(inputs[n]), k);
    } else {
      assert inputs[..last][..n] == inputs[..n];
      TakenIsInstantiated(d, inputs[..last], n, k);
    }
  }

  lemma {:induction false} ClosedFrom(evs: seq<AtmEvent>, i: nat)
    requires i in ClosedOf(evs)
    ensures CloseStruct(i) in evs
    decreases |evs|
  {
    var n := |evs| - 1;
    if i in ClosedOf(evs[..n]) { ClosedFrom(evs[..n], i); }
  }

  lemma {:induction false} ClosingTriggered(d: Description, inputs: seq<InputEvent>, i: nat)
    requires AllInputsOk(d, inputs) && i in Closings(d, inputs)
    ensures exists n :: 0 <= n < |inputs| && CloseStruct(i) in inputs[n].evs
    decreases |inputs|
  {
    var n := |inputs| - 1;
    if i in Closings(d, inputs[..n]) {
      ClosingTriggered(d, inputs[..n], i);
      var m :| 0 <= m < n && CloseStruct(i) in inputs[..n][m].evs;
      assert CloseStruct(i) in inputs[m].evs;
    } else {
      ClosedFrom(inputs[n].evs, i);
    }
  }

  /** What is referred to under an item: a value that an event bound to the item saw, or an undefined one; or a structure
      of the item that an event closed. */
  lemma {:induction false} ReferenceIsOfItem(d: Description, inputs: seq<InputEvent>, itemid: nat, i: nat)
    requires AllInputsOk(d, inputs) && itemid < |Run(d, inputs).scopeobjmap| && i < |Run(d, inputs).scopeobjmap[itemid]|
    ensures var s := Run(d, inputs);
            match s.scopeobjmap[itemid][i].objref
            case ValueRef(j) => j < |s.values| && (s.values[j] == None || SeenFor(d, inputs, itemid, s.values[j]))
            case StructRef(j) =>
              && j < |s.structs| && s.structs[j] < |d.structitems| && d.structitems[s.structs[j]] == itemid
              && exists n :: 0 <= n < |inputs| && CloseStruct(s.structs[j]) in inputs[n].evs
  {
    hide Run, ValueRefs, StructRefs, MapRefs, Kept, Instantiated, Closings, SeenFor, ClosedOf;
    var s := Run(d, inputs);
    var ref := s.scopeobjmap[itemid][i].objref;
    var owner, fill := RunAccounts(d, inputs);
    RefsOfMaps(s.scopeobjmap, itemid, i, |s.scopeobjmap|);
    ValueRefsCount(owner, ItemRef(itemid, ref));
    StructRefsCount(d, s.structs, ItemRef(itemid, ref));
    assert References(s.scopeobjmap)[ItemRef(itemid, ref)] > 0;
    match ref
    case ValueRef(j) =>
      var nd := ValueNode(itemid, s.values[j]);
      KeptHas(owner, s.values, j);
      assert nd in Instantiated(d, inputs) + fill;
      if nd in Instantiated(d, inputs) { InstantiatedSeen(d, inputs, nd); }
    case StructRef(j) =>
      assert s.structs[j] in multiset(s.structs);
      ClosingTriggered(d, inputs, s.structs[j]);
  }

  /** A value that an event saw is still pending for the item the event is bound to, or it is referenced under this item
      once, and under no other. */
  lemma {:induction false} InstanceIsKept(d: Description, inputs: seq<InputEvent>, n: nat, k: nat)
    requires AllInputsOk(d, inputs) && n < |inputs| && k < |inputs[n].evs| && inputs[n].evs[k].InstantiateValue?
    requires IsTaken(Run(d, inputs[..n]), inputs[n])
    ensures inputs[n].evs[k].idx < |d.valueitems|
    ensures var s, itemid, value := Run(d, inputs), d.valueitems[inputs[n].evs[k].idx], ValueSeen(inputs[n]);
            || ValueNode(itemid, value) in s.valuenodes
            || exists j :: 0 <= j < |s.values| && s.values[j] == value && ReferencedOnce(s, itemid, j)
  {
    hide Run, ValueRefs, StructRefs, MapRefs, Kept, Instantiated, Closings, ClosedOf;
    var s := Run(d, inputs);
    var owner, fill := RunAccounts(d, inputs);
    TakenIsInstantiated(d, inputs, n, k);
    var nd := ValueNode(d.valueitems[inputs[n].evs[k].idx], ValueSeen(inputs[n]));
    assert nd in Kept(owner, s.values) + multiset(s.valuenodes);
    if nd !in s.valuenodes {
      var j := KeptFrom(owner, s.values, nd);
      OwnerRefers(d, s, owner, j);
    }
  }

  ghost predicate ReferencedOnce(s: State, itemid: nat, j: nat) {
    forall x :: References(s.scopeobjmap)[ItemRef(x, ValueRef(j))] == if x == itemid then 1 else 0
  }

  lemma {:induction false} OwnerRefers(d: Description, s: State, owner: seq<nat>, j: nat)
    requires RefsAccounted(d, s, owner) && j < |owner|
    ensures ReferencedOnce(s, owner[j], j)
  {
    hide ValueRefs, StructRefs, MapRefs;
    forall x ensures References(s.scopeobjmap)[ItemRef(x, ValueRef(j))] == if x == owner[j] then 1 else 0 {
      ValueRefsCount(owner, ItemRef(x, ValueRef(j)));
      StructRefsCount(d, s.structs, ItemRef(x, ValueRef(j)));
    }
  }

  /** What an array reference answers on a run are references under the item it asks for. */
  lemma {:induction false} AnswersAreOfItem(d: Description, inputs: seq<InputEvent>, itemid: nat, scope: Scope, range: ItemResolver.TagLevelRange, k: nat)
    requires AllInputsOk(d, inputs) && itemid < |Run(d, inputs).scopeobjmap|
    requires k < |ItemResolver.ArrayMeaning(Run(d, inputs).scopeobjmap[itemid], scope, range)|
    ensures var s := Run(d, inputs);
            match ItemResolver.ArrayMeaning(s.scopeobjmap[itemid], scope, range)[k].objref
            case ValueRef(j) => j < |s.values| && (s.values[j] == None || SeenFor(d, inputs, itemid, s.values[j]))
            case StructRef(j) => j < |s.structs| && s.structs[j] < |d.structitems| && d.structitems[s.structs[j]] == itemid
  {
    hide Run, SeenFor;
    var m := Run(d, inputs).scopeobjmap[itemid];
    var i := ItemResolver.ArrayObjectsAreTops(m, scope, range, |m|, k);
    ReferenceIsOfItem(d, inputs, itemid, i);
  }

  /** Collecting is an error exactly if two values are pending for the item. */
  lemma {:induction false} DuplicateIff(s: State, itemid: nat)
    requires |s.scopestack| > 0 && itemid < |s.scopeobjmap|
    ensures !Collected(s, itemid).1
       <==> exists i, j :: 0 <= i < j < |s.valuenodes| && s.valuenodes[i].itemid == itemid && s.valuenodes[j].itemid == itemid
  {
    ValuesCount(itemid, s.valuenodes);
  }

  lemma {:induction false} ValuesCount(itemid: nat, nodes: seq<ValueNode>)
    ensures |ValuesOf(itemid, nodes)| > 0 <==> exists i :: 0 <= i < |nodes| && nodes[i].itemid == itemid
    ensures |ValuesOf(itemid, nodes)| > 1 <==> exists i, j :: 0 <= i < j < |nodes| && nodes[i].itemid == itemid && nodes[j].itemid == itemid
    decreases |nodes|
  {
    if nodes != [] {
      var n := |nodes| - 1;
      ValuesCount(itemid, nodes[..n]);
      assert forall i :: 0 <= i < n ==> nodes[..n][i] == nodes[i];
    }
  }

  /** After collecting, exactly the values of other items are pending. */
  lemma {:induction false} CollectedLeaves(s: State, itemid: nat)
    requires |s.scopestack| > 0 && itemid < |s.scopeobjmap|
    ensures forall nd :: nd in Collected(s, itemid).0.valuenodes <==> nd in s.valuenodes && nd.itemid != itemid
  {
    OthersLeft(itemid, s.valuenodes);
  }

  lemma {:induction false} OthersLeft(itemid: nat, nodes: seq<ValueNode>)
    ensures forall nd :: nd in OthersOf(itemid, nodes) <==> nd in nodes && nd.itemid != itemid
    decreases |nodes|
  {
    if nodes != [] {
      OthersLeft(itemid, nodes[..|nodes| - 1]);
      assert nodes == nodes[..|nodes| - 1] + [nodes[|nodes| - 1]];
    }
  }
}
