/** Serializing tables of a scripting language and building them again. A table is the sequence of its fields in
    the order in which they are met. */
module LuaTables {
  import opened Sequences
  import opened Serialization
  import opened SerializationTrees

  /** Everything else, like functions, is Other. */
  datatype Key = KInt(n: int) | KStr(s: string) | KBool(b: bool) | KOther

  datatype LuaValue = LInt(n: int) | LStr(s: string) | LBool(b: bool) | LOther | LTable(t: Table)

  datatype Field = Field(key: Key, value: LuaValue)

  type Table = seq<Field>

  const MAX_INDEX: int := 0x4000_0000

  // ---------------------------------------------------------------- what is written

  predicate IsArrayIndex(k: Key, idx: int) {
    k == KInt(idx) && 0 <= idx < MAX_INDEX
  }

  predicate IsArray(t: Table) {
    forall i :: 0 <= i < |t| ==> IsArrayIndex(t[i].key, i + 1)
  }

  predicate SupportedValue(v: LuaValue)
    decreases v
  {
    match v
    case LTable(t) => SupportedTable(t)
    case LOther => false
    case _ => true
  }

  predicate SupportedField(f: Field)
    decreases f
  {
    !f.key.KOther? && SupportedValue(f.value)
  }

  predicate SupportedTable(t: Table)
    decreases t
  {
    forall i :: 0 <= i < |t| ==> SupportedField(t[i])
  }

  function KeyContent(k: Key): Content {
    match k
    case KInt(n) => Int(n)
    case KStr(s) => Str(s)
    case KBool(b) => Bool(b)
    case KOther => Void
  }

  /** The nodes pushed for a value and whether it is reported as done. */
  function ValueNodes(v: LuaValue): (seq<Node>, bool)
    decreases v
  {
    match v
    case LInt(n) => ([Value(Int(n))], true)
    case LStr(s) => ([Value(Str(s))], true)
    case LBool(b) => ([Value(Bool(b))], true)
    case LOther => ([], false)
    case LTable(t) => ([Open(0)] + TableNodes(t).0 + [Close], TableNodes(t).1)
  }

  function FieldNodes(f: Field): (seq<Node>, bool)
    decreases f
  {
    ValueNodes(f.value)
  }

  /** A table is written either as an array or else as a map. */
  function TableNodes(t: Table): (seq<Node>, bool)
    decreases t, 1
  {
    if IsArray(t) then (ArrayNodes(t), true) else MapNodes(t)
  }

  function ArrayNodes(t: Table): seq<Node>
    decreases t, 0
  {
    if t == [] then [] else FieldNodes(t[0]).0 + ArrayNodes(t[1..])
  }

  /** It stops at the first field that cannot be written. */
  function MapNodes(t: Table): (seq<Node>, bool)
    decreases t, 0
  {
    if t == [] then ([], true)
    else if t[0].key.KOther? then ([], false)
    else
      var name, (first, ok) := [Name(KeyContent(t[0].key))], FieldNodes(t[0]);
      if !ok then (name + first, false)
      else
        var (rest, all) := MapNodes(t[1..]);
        (name + first + rest, all)
  }

  /** What is not reported as done contains something that cannot be written. */
  lemma {:induction false} NotDone(v: LuaValue)
    ensures !ValueNodes(v).1 ==> !SupportedValue(v)
    decreases v
  {
    if v.LTable? {
      MapNotDone(v.t);
      assert TableNodes(v.t).1 == (IsArray(v.t) || MapNodes(v.t).1);
    }
  }

  lemma {:induction false} FieldNotDone(f: Field)
    ensures !FieldNodes(f).1 ==> !SupportedValue(f.value)
    decreases f
  {
    NotDone(f.value);
  }

  lemma {:induction false} MapNotDone(t: Table)
    ensures !MapNodes(t).1 ==> !SupportedTable(t)
    decreases t
  {
    if t != [] {
      FieldNotDone(t[0]);
      MapNotDone(t[1..]);
      assert forall i :: 0 <= i < |t[1..]| ==> t[1..][i] == t[i + 1];
    }
  }

  lemma {:induction false} ArrayNodesConcat(a: Table, b: Table)
    ensures ArrayNodes(a + b) == ArrayNodes(a) + ArrayNodes(b)
  {
    hide FieldNodes;
    if a == [] {
      assert a + b == b;
    } else {
      ArrayNodesConcat(a[1..], b);
      TailOfConcat(a, b);
      Associative(FieldNodes(a[0]).0, ArrayNodes(a[1..]), ArrayNodes(b));
    }
  }

  lemma {:induction false} ArrayStep(t: Table, i: nat)
    requires i < |t|
    ensures ArrayNodes(t[..i + 1]) == ArrayNodes(t[..i]) + ValueNodes(t[i].value).0
    ensures IsArray(t[..i + 1]) <==> IsArray(t[..i]) && IsArrayIndex(t[i].key, i + 1)
  {
    var a, b := t[..i], t[..i + 1];
    assert b == a + [t[i]];
    ArrayNodesConcat(a, [t[i]]);
    assert [t[i]][1..] == [] && ArrayNodes([t[i]]) == FieldNodes(t[i]).0;
    assert forall j :: 0 <= j < i ==> a[j] == b[j];
    assert b[i] == t[i];
  }

  lemma {:induction false} SupportedStep(t: Table, i: nat)
    requires i < |t|
    ensures SupportedTable(t[..i + 1]) <==> SupportedTable(t[..i]) && SupportedField(t[i])
    ensures SupportedTable(t) ==> SupportedTable(t[..i + 1])
    ensures SupportedField(t[i]) <==> !t[i].key.KOther? && SupportedValue(t[i].value)
    ensures IsArray(t) ==> IsArrayIndex(t[i].key, i + 1)
  {
    var a, b := t[..i], t[..i + 1];
    assert forall j :: 0 <= j < i ==> a[j] == b[j] == t[j];
    assert b[i] == t[i];
  }

  /** What is left of a map after its next field. */
  lemma {:induction false} MapStep(c: seq<Node>, t: Table, i: nat)
    requires i < |t|
    ensures t[i].key.KOther? ==> MapNodes(t[i..]) == ([], false)
    ensures var (name, first) := ([Name(KeyContent(t[i].key))], ValueNodes(t[i].value));
            && (!t[i].key.KOther? && !first.1 ==> MapNodes(t[i..]) == (name + first.0, false))
            && (!t[i].key.KOther? && first.1 ==> && c + MapNodes(t[i..]).0 == c + name + first.0 + MapNodes(t[i + 1..]).0
                                                 && MapNodes(t[i..]).1 == MapNodes(t[i + 1..]).1)
  {
    assert t[i..][1..] == t[i + 1..] && FieldNodes(t[i]) == ValueNodes(t[i].value);
    var name, first, rest := [Name(KeyContent(t[i].key))], ValueNodes(t[i].value).0, MapNodes(t[i + 1..]).0;
    assert c + (name + first + rest) == c + name + first + rest;
  }

  // ---------------------------------------------------------------- writing

  /** Earlier end positions stay good. */
  ghost predicate Keeps(a: map<Position, seq<Node>>, b: map<Position, seq<Node>>) {
    forall p :: p in a ==> p in b && b[p] == a[p]
  }

  method SerializeKey(dest: NodeStore, k: Key) returns (ok: bool)
    requires dest.Valid()
    modifies dest, dest.Repr
    ensures dest.Valid() && old(dest.Repr) <= dest.Repr && fresh(dest.Repr - old(dest.Repr)) && dest.Snapshots == old(dest.Snapshots)
    ensures ok <==> !k.KOther?
    ensures dest.Contents == old(dest.Contents) + if ok then [Name(KeyContent(k))] else []
  {
    match k {
      case KInt(n) => dest.PushNode(Name(Int(n)));
      case KStr(s) => dest.PushNode(Name(Str(s)));
      case KBool(b) => dest.PushNode(Name(Bool(b)));
      case KOther => return false;
    }
    ok := true;
  }

  /** The error state, once set, stays. */
  method SerializeValue(dest: NodeStore, v: LuaValue, err: bool) returns (ok: bool, err': bool)
    requires dest.Valid()
    modifies dest, dest.Repr
    ensures dest.Valid() && old(dest.Repr) <= dest.Repr && fresh(dest.Repr - old(dest.Repr)) && Keeps(old(dest.Snapshots), dest.Snapshots)
    ensures dest.Contents == old(dest.Contents) + ValueNodes(v).0 && ok == ValueNodes(v).1
    ensures err' == (err || !SupportedValue(v))
    decreases v
  {
    err' := err;
    match v {
      case LInt(n) => dest.PushNode(Value(Int(n)));
      case LStr(s) => dest.PushNode(Value(Str(s)));
      case LBool(b) => dest.PushNode(Value(Bool(b)));
      case LTable(t) =>
        dest.PushNode(Open(0));
        ok, err' := SerializeNode(dest, t, err);
        dest.PushNode(Close);
        if !ok {
          NotDone(v);
          err' := true;
        }
        return;
      case LOther =>
        return false, true;
    }
    ok := true;
  }

  lemma {:induction false} NothingOfMap(t: Table)
    ensures t[..0] == [] && t[0..] == t && MapNodes([]) == ([], true) && SupportedTable([])
  {
  }

  method SerializeMap(dest: NodeStore, t: Table, err: bool) returns (ok: bool, err': bool)
    requires dest.Valid()
    modifies dest, dest.Repr
    ensures dest.Valid() && old(dest.Repr) <= dest.Repr && fresh(dest.Repr - old(dest.Repr)) && Keeps(old(dest.Snapshots), dest.Snapshots)
    ensures dest.Contents == old(dest.Contents) + MapNodes(t).0 && ok == MapNodes(t).1
    ensures err' == (err || !SupportedTable(t))
    decreases t, 0
  {
    hide NodeStore.Valid, MapNodes, ValueNodes, SupportedTable;
    err' := err;
    var i := 0;
    NothingOfMap(t);
    while i < |t|
      invariant 0 <= i <= |t| && dest.Valid() && old(dest.Repr) <= dest.Repr && fresh(dest.Repr - old(dest.Repr))
      invariant Keeps(old(dest.Snapshots), dest.Snapshots)
      invariant old(dest.Contents) + MapNodes(t).0 == dest.Contents + MapNodes(t[i..]).0 && MapNodes(t).1 == MapNodes(t[i..]).1
      invariant err' == (err || !SupportedTable(t[..i]))
    {
      SupportedStep(t, i);
      MapStep(dest.Contents, t, i);
      ok := SerializeKey(dest, t[i].key);
      if !ok { return false, true; }
      assert t decreases to t[i];
      ok, err' := SerializeValue(dest, t[i].value, err');
      NotDone(t[i].value);
      if !ok { return; }
      i := i + 1;
    }
    assert t[..i] == t && t[i..] == [];
    ok := true;
  }

  /** Takes back what was written of an array and writes all of the table as a map. */
  method RestartAsMap(dest: NodeStore, t: Table, arrayStart: Position, idx: nat, err: bool, ghost before: seq<Node>)
    returns (ok: bool, err': bool)
    requires dest.Valid() && arrayStart.chunk != null && arrayStart in dest.Snapshots && dest.Snapshots[arrayStart] == before
    requires idx == 0 ==> dest.Contents == before
    modifies dest, dest.Repr
    ensures dest.Valid() && old(dest.Repr) <= dest.Repr && fresh(dest.Repr - old(dest.Repr))
    ensures forall p :: p in old(dest.Snapshots) && |old(dest.Snapshots)[p]| <= |before| ==> p in dest.Snapshots && dest.Snapshots[p] == old(dest.Snapshots)[p]
    ensures dest.Contents == before + MapNodes(t).0 && ok == MapNodes(t).1
    ensures err' == (err || !SupportedTable(t))
    decreases t, 1
  {
    hide NodeStore.Valid;
    if idx != 0 { dest.ReleaseTail(arrayStart); }
    ok, err' := SerializeMap(dest, t, err);
  }

  /** Pushes the next value of an array; whether that is reported as done does not count. */
  method SerializeElement(dest: NodeStore, t: Table, idx: nat, err: bool, ghost before: seq<Node>) returns (err': bool)
    requires dest.Valid() && idx < |t| && dest.Contents == before + ArrayNodes(t[..idx])
    modifies dest, dest.Repr
    ensures dest.Valid() && old(dest.Repr) <= dest.Repr && fresh(dest.Repr - old(dest.Repr)) && Keeps(old(dest.Snapshots), dest.Snapshots)
    ensures dest.Contents == before + ArrayNodes(t[..idx + 1])
    ensures IsArray(t[..idx + 1]) <==> IsArray(t[..idx]) && IsArrayIndex(t[idx].key, idx + 1)
    ensures err' == (err || !SupportedValue(t[idx].value))
    decreases t, 1
  {
    hide NodeStore.Valid;
    ArrayStep(t, idx);
    assert t decreases to t[idx];
    var ok;
    ok, err' := SerializeValue(dest, t[idx].value, err);
  }

  /** Writes a table as an array as long as it looks like one; otherwise takes back what was written and begins
      anew as a map. */
  method SerializeNode(dest: NodeStore, t: Table, err: bool) returns (ok: bool, err': bool)
    requires dest.Valid()
    modifies dest, dest.Repr
    ensures dest.Valid() && old(dest.Repr) <= dest.Repr && fresh(dest.Repr - old(dest.Repr)) && Keeps(old(dest.Snapshots), dest.Snapshots)
    ensures dest.Contents == old(dest.Contents) + TableNodes(t).0 && ok == TableNodes(t).1
    ensures err' == (err || !SupportedTable(t))
    decreases t, 2
  {
    hide NodeStore.Valid;
    err' := err;
    var idx := 0;
    ghost var before := dest.Contents;
    dest.SnapshotsAreShort();
    var arrayStart := dest.End();
    while idx < |t|
      invariant 0 <= idx <= |t| && dest.Valid() && old(dest.Repr) <= dest.Repr && fresh(dest.Repr - old(dest.Repr))
      invariant Keeps(old(dest.Snapshots), dest.Snapshots)
      invariant arrayStart in dest.Snapshots && dest.Snapshots[arrayStart] == before
      invariant dest.Contents == before + ArrayNodes(t[..idx]) && IsArray(t[..idx])
      invariant err' == (err || !SupportedTable(t[..idx]))
    {
      SupportedStep(t, idx);
      if IsArrayIndex(t[idx].key, idx + 1) {
        err' := SerializeElement(dest, t, idx, err', before);
        idx := idx + 1;
      } else {
        ok, err' := RestartAsMap(dest, t, arrayStart, idx, err', before);
        return;
      }
    }
    assert t[..idx] == t;
    ok := true;
  }

  /** The error state decides what a caller is told. */
  method SerializeRoot(t: Table) returns (dest: NodeStore, ok: bool)
    ensures fresh(dest) && dest.Valid() && dest.Contents == TableNodes(t).0
    ensures ok <==> SupportedTable(t)
  {
    dest := new NodeStore();
    var done, err := SerializeNode(dest, t, false);
    MapNotDone(t);
    ok := done && !err;
  }

  // ---------------------------------------------------------------- reading

  function KeyOfName(c: Content): Option<Key> {
    match c
    case Int(n) => Some(KInt(n))
    case Str(s) => Some(KStr(s))
    case Bool(b) => Some(KBool(b))
    case Void => None
    case Embedded(_, _) => None
  }

  /** Sets a field of a table; no value removes it. */
  function RawSet(t: Table, k: Key, v: Option<LuaValue>): Table {
    if t == [] then if v.Some? then [Field(k, v.value)] else []
    else if t[0].key == k then (if v.Some? then [Field(k, v.value)] else []) + t[1..]
    else [t[0]] + RawSet(t[1..], k, v)
  }

  /** Where reading a table stands: the fields so far, the name read last and the number of values without name. */
  datatype Progress = Progress(t: Table, name: Option<Key>, idx: nat) {
    function Add(v: Option<LuaValue>): Progress {
      if name.Some? then Progress(RawSet(t, name.value, v), None, idx)
      else Progress(RawSet(t, KInt(idx + 1), v), None, idx + 1)
    }
  }

  const Start: Progress := Progress([], None, 0)

  /** Reads fields up to the end or a close; structures with an id are not read here. */
  function ReadNode(nodes: seq<Node>, p: Progress): (r: Option<(Table, seq<Node>)>)
    ensures r.Some? ==> Weight(r.value.1) <= Weight(nodes)
    decreases Weight(nodes)
  {
    if nodes == [] || nodes[0].Close? then Some((p.t, nodes))
    else
      match nodes[0]
      case Name(c) =>
        if p.name.Some? || KeyOfName(c).None? then None else ReadNode(nodes[1..], p.(name := KeyOfName(c)))
      case Value(c) =>
        assert NodeWeight(nodes[0]) == 1 + ContentWeight(c);
        var v := ReadContent(c);
        if v.None? then None else ReadNode(nodes[1..], p.Add(v.value))
      case Open(id) =>
        if id != 0 then None
        else
          var inner := ReadNode(nodes[1..], Start);
          if inner.None? then None
          else ReadNode(SkipClose(inner.value.1), p.Add(Some(LTable(inner.value.0))))
  }

  /** The end counts as a close. */
  function SkipClose(nodes: seq<Node>): (r: seq<Node>)
    ensures Weight(r) <= Weight(nodes)
  {
    if nodes == [] then [] else nodes[1..]
  }

  function ReadContent(c: Content): Option<Option<LuaValue>>
    decreases ContentWeight(c)
  {
    match c
    case Void => Some(None)
    case Int(n) => Some(Some(LInt(n)))
    case Str(s) => Some(Some(LStr(s)))
    case Bool(b) => Some(Some(LBool(b)))
    case Embedded(id, nodes) =>
      if id != 0 then None
      else
        var t := ReadNode(nodes, Start);
        if t.Some? && t.value.1 == [] then Some(Some(LTable(t.value.0))) else None
  }

  lemma {:induction false} WeightDrop(nodes: seq<Node>, i: nat, j: nat)
    requires i <= j <= |nodes|
    ensures Weight(nodes[j..]) <= Weight(nodes[i..])
    ensures i < j ==> Weight(nodes[j..]) < Weight(nodes[i..])
    decreases j - i
  {
    if i < j {
      assert nodes[i..][1..] == nodes[i + 1..];
      WeightDrop(nodes, i + 1, j);
    }
  }

  lemma {:induction false} StepWeight(nodes: seq<Node>, start: nat, pos: nat)
    requires start <= pos < |nodes|
    ensures Weight(nodes[pos + 1..]) < Weight(nodes[start..])
    ensures nodes[pos].Value? ==> ContentWeight(nodes[pos].value) < Weight(nodes[start..])
  {
    WeightDrop(nodes, start, pos);
    assert nodes[pos..][0] == nodes[pos] && nodes[pos..][1..] == nodes[pos + 1..];
    if nodes[pos].Value? { assert NodeWeight(nodes[pos]) == 1 + ContentWeight(nodes[pos].value); }
  }

  /** How reading continues behind a node. */
  lemma {:induction false} ReadStep(nodes: seq<Node>, pos: nat, p: Progress)
    requires pos < |nodes|
    ensures match nodes[pos]
            case Close => ReadNode(nodes[pos..], p) == Some((p.t, nodes[pos..]))
            case Name(c) =>
              ReadNode(nodes[pos..], p)
              == if p.name.Some? || KeyOfName(c).None? then None else ReadNode(nodes[pos + 1..], p.(name := KeyOfName(c)))
            case Value(c) =>
              ReadNode(nodes[pos..], p)
              == if ReadContent(c).None? then None else ReadNode(nodes[pos + 1..], p.Add(ReadContent(c).value))
            case Open(id) =>
              var inner := ReadNode(nodes[pos + 1..], Start);
              && (id != 0 || inner.None? ==> ReadNode(nodes[pos..], p) == None)
              && forall k: nat :: id == 0 && k <= |nodes| && inner.Some? && nodes[k..] == inner.value.1
                           ==> ReadNode(nodes[pos..], p) == ReadNode(nodes[Next(nodes, k)..], p.Add(Some(LTable(inner.value.0))))
  {
    assert nodes[pos..][0] == nodes[pos] && nodes[pos..][1..] == nodes[pos + 1..];
    assert forall k: nat :: k <= |nodes| ==> SkipClose(nodes[k..]) == nodes[Next(nodes, k)..];
  }

  /** Builds the table from the nodes at a position on; the position after it is that of the close or the end. */
  method DeserializeNode(nodes: seq<Node>, start: nat) returns (ok: bool, t: Table, pos: nat)
    requires start <= |nodes|
    ensures ok <==> ReadNode(nodes[start..], Start).Some?
    ensures ok ==> start <= pos <= |nodes| && (pos < |nodes| ==> nodes[pos].Close?)
    ensures ok ==> ReadNode(nodes[start..], Start) == Some((t, nodes[pos..]))
    decreases Weight(nodes[start..]), 0
  {
    hide RawSet;
    var name: Option<Key> := None;
    var memberidx: nat := 0;
    t, pos := [], start;
    while pos < |nodes| && !nodes[pos].Close?
      invariant start <= pos <= |nodes|
      invariant ReadNode(nodes[start..], Start) == ReadNode(nodes[pos..], Progress(t, name, memberidx))
      decreases |nodes| - pos
    {
      ReadStep(nodes, pos, Progress(t, name, memberidx));
      StepWeight(nodes, start, pos);
      match nodes[pos] {
        case Open(id) =>
          if id != 0 { return false, t, pos; }
          var inner;
          ok, inner, pos := DeserializeNode(nodes, pos + 1);
          if !ok { return; }
          t, name, memberidx := SetField(t, name, memberidx, Some(LTable(inner)));
        case Name(c) =>
          if name.Some? || KeyOfName(c).None? { return false, t, pos; }
          name := KeyOfName(c);
        case Value(c) =>
          var v;
          ok, v := DeserializeValue(c);
          if !ok { return; }
          t, name, memberidx := SetField(t, name, memberidx, v);
      }
      pos := Next(nodes, pos);
    }
    ok := true;
  }

  /** Takes the name read before or else the next index. */
  method SetField(t: Table, name: Option<Key>, memberidx: nat, v: Option<LuaValue>) returns (t': Table, name': Option<Key>, memberidx': nat)
    ensures Progress(t', name', memberidx') == Progress(t, name, memberidx).Add(v)
  {
    memberidx' := memberidx;
    var key;
    if name.Some? {
      key := name.value;
    } else {
      memberidx' := memberidx' + 1;
      key := KInt(memberidx');
    }
    name' := None;
    t' := RawSet(t, key, v);
  }

  method DeserializeValue(c: Content) returns (ok: bool, v: Option<LuaValue>)
    ensures ok <==> ReadContent(c).Some?
    ensures ok ==> ReadContent(c) == Some(v)
    decreases ContentWeight(c), 2
  {
    match c
    case Void => return true, None;
    case Int(n) => return true, Some(LInt(n));
    case Str(s) => return true, Some(LStr(s));
    case Bool(b) => return true, Some(LBool(b));
    case Embedded(id, nodes) =>
      if id != 0 { return false, None; }
      var t;
      ok, t := DeserializeRoot(nodes);
      return ok, Some(LTable(t));
  }

  method DeserializeRoot(nodes: seq<Node>) returns (ok: bool, t: Table)
    ensures ok <==> ReadNode(nodes, Start).Some? && ReadNode(nodes, Start).value.1 == []
    ensures ok ==> ReadNode(nodes, Start) == Some((t, []))
    decreases Weight(nodes), 1
  {
    assert nodes[0..] == nodes;
    var pos;
    ok, t, pos := DeserializeNode(nodes, 0);
    if ok && pos != |nodes| {
      assert nodes[pos..] != [];
      ok := false;
    }
  }

  /** A table that can be written comes back; of any other one the writer says that it failed. */
  method WriteAndReadBack(t: Table) returns (ok: bool, back: Table)
    requires ProperTable(t)
    ensures ok <==> SupportedTable(t)
    ensures ok ==> back == t
  {
    var dest;
    dest, ok := SerializeRoot(t);
    TablesRoundTrip(t);
    if !ok { return false, []; }
    var nodes := ReadAll(dest);
    ok, back := DeserializeRoot(nodes);
  }

  // ---------------------------------------------------------------- reading gives back what was written

  /** A table as there can be one: no key twice, at any depth. */
  predicate ProperValue(v: LuaValue)
    decreases v
  {
    v.LTable? ==> ProperTable(v.t)
  }

  predicate ProperField(f: Field)
    decreases f
  {
    ProperValue(f.value)
  }

  predicate ProperTable(t: Table)
    decreases t
  {
    && (forall i, j :: 0 <= i < j < |t| ==> t[i].key != t[j].key)
    && forall i :: 0 <= i < |t| ==> ProperField(t[i])
  }

  lemma {:induction false} RawSetNew(t: Table, k: Key, v: LuaValue)
    requires forall i :: 0 <= i < |t| ==> t[i].key != k
    ensures RawSet(t, k, Some(v)) == t + [Field(k, v)]
  {
    if t != [] {
      assert forall i :: 0 <= i < |t[1..]| ==> t[1..][i] == t[i + 1];
      RawSetNew(t[1..], k, v);
      assert t == [t[0]] + t[1..];
    }
  }

  /** The next field of a proper table is added at the end. */
  lemma {:induction false} RawSetNext(t: Table, i: nat)
    requires ProperTable(t) && i < |t|
    ensures RawSet(t[..i], t[i].key, Some(t[i].value)) == t[..i + 1]
  {
    RawSetNew(t[..i], t[i].key, t[i].value);
    assert t[..i + 1] == t[..i] + [t[i]] && t[i] == Field(t[i].key, t[i].value);
  }

  lemma {:induction false} ReadValueBack(v: LuaValue, rest: seq<Node>, p: Progress)
    requires SupportedValue(v) && ProperValue(v)
    ensures ReadNode(ValueNodes(v).0 + rest, p) == ReadNode(rest, p.Add(Some(v)))
    decreases v
  {
    var nodes := ValueNodes(v).0 + rest;
    if v.LTable? {
      ReadTableBack(v.t, [Close] + rest);
      assert nodes[1..] == TableNodes(v.t).0 + ([Close] + rest);
      assert SkipClose([Close] + rest) == rest;
    } else {
      assert nodes[1..] == rest;
    }
  }

  lemma {:induction false} ReadFieldBack(f: Field, rest: seq<Node>, p: Progress)
    requires SupportedField(f) && ProperField(f)
    ensures ReadNode(ValueNodes(f.value).0 + rest, p) == ReadNode(rest, p.Add(Some(f.value)))
    decreases f
  {
    ReadValueBack(f.value, rest, p);
  }

  /** Reading the nodes of a table gives back the table, with its fields in the same order. */
  lemma {:induction false} ReadTableBack(t: Table, rest: seq<Node>)
    requires SupportedTable(t) && ProperTable(t) && EndsElems(rest)
    ensures ReadNode(TableNodes(t).0 + rest, Start) == Some((t, rest))
    decreases t, |t| + 1
  {
    assert t[0..] == t && t[..0] == [];
    if IsArray(t) {
      ReadArrayBack(t, 0, rest);
    } else {
      ReadMapBack(t, 0, rest);
    }
  }

  lemma {:induction false} ReadArrayBack(t: Table, i: nat, rest: seq<Node>)
    requires SupportedTable(t) && ProperTable(t) && EndsElems(rest) && IsArray(t) && i <= |t|
    ensures ReadNode(ArrayNodes(t[i..]) + rest, Progress(t[..i], None, i)) == Some((t, rest))
    decreases t, |t| - i
  {
    if i == |t| {
      assert t[..i] == t && ArrayNodes(t[i..]) + rest == rest;
    } else {
      var more := ArrayNodes(t[i + 1..]) + rest;
      assert t[i..][1..] == t[i + 1..] && t[i..][0] == t[i];
      assert ArrayNodes(t[i..]) + rest == ValueNodes(t[i].value).0 + more;
      assert SupportedField(t[i]) && ProperField(t[i]) && IsArrayIndex(t[i].key, i + 1);
      ReadFieldBack(t[i], more, Progress(t[..i], None, i));
      RawSetNext(t, i);
      ReadArrayBack(t, i + 1, rest);
    }
  }

  lemma {:induction false} ReadMapEnd(t: Table, rest: seq<Node>)
    requires EndsElems(rest)
    ensures MapNodes([]).0 == [] && ReadNode(rest, Progress(t, None, 0)) == Some((t, rest))
  {
  }

  lemma {:induction false} ReadMapName(nodes: seq<Node>, t: Table, key: Key)
    requires nodes != [] && nodes[0] == Name(KeyContent(key)) && !key.KOther?
    ensures ReadNode(nodes, Progress(t, None, 0)) == ReadNode(nodes[1..], Progress(t, Some(key), 0))
  {
  }

  lemma {:induction false} ReadMapBack(t: Table, i: nat, rest: seq<Node>)
    requires SupportedTable(t) && ProperTable(t) && EndsElems(rest) && i <= |t|
    ensures ReadNode(MapNodes(t[i..]).0 + rest, Progress(t[..i], None, 0)) == Some((t, rest))
    decreases t, |t| - i
  {
    hide ValueNodes, MapNodes, RawSet, ReadNode;
    if i == |t| {
      assert t[..i] == t && t[i..] == [] && [] + rest == rest;
      ReadMapEnd(t, rest);
    } else {
      var c := KeyContent(t[i].key);
      var more := MapNodes(t[i + 1..]).0 + rest;
      assert SupportedField(t[i]) && ProperField(t[i]);
      NotDone(t[i].value);
      MapStep([], t, i);
      var nodes := MapNodes(t[i..]).0 + rest;
      assert [] + MapNodes(t[i..]).0 == MapNodes(t[i..]).0;
      assert nodes == [Name(c)] + (ValueNodes(t[i].value).0 + more);
      assert nodes[1..] == ValueNodes(t[i].value).0 + more;
      var p := Progress(t[..i], Some(t[i].key), 0);
      ReadMapName(nodes, t[..i], t[i].key);
      ReadFieldBack(t[i], more, p);
      RawSetNext(t, i);
      ReadMapBack(t, i + 1, rest);
    }
  }

  /** Writing a table is reported as a success exactly if it can be read back. */
  lemma {:induction false} TablesRoundTrip(t: Table)
    requires ProperTable(t)
    ensures SupportedTable(t) <==> ReadNode(TableNodes(t).0, Start) == Some((t, []))
  {
    if SupportedTable(t) {
      ReadTableBack(t, []);
      assert TableNodes(t).0 + [] == TableNodes(t).0;
    } else if ReadNode(TableNodes(t).0, Start) == Some((t, [])) {
      ReadIsSupported(TableNodes(t).0, Start);
    }
  }

  lemma {:induction false} RawSetSupported(t: Table, k: Key, v: Option<LuaValue>)
    requires SupportedTable(t) && !k.KOther? && (v.Some? ==> SupportedValue(v.value))
    ensures SupportedTable(RawSet(t, k, v))
  {
    if t != [] {
      assert SupportedField(t[0]);
      assert forall i :: 0 <= i < |t[1..]| ==> t[1..][i] == t[i + 1];
      RawSetSupported(t[1..], k, v);
    }
  }

  lemma {:induction false} ReadIsSupported(nodes: seq<Node>, p: Progress)
    requires SupportedTable(p.t) && p.name != Some(KOther)
    ensures ReadNode(nodes, p).Some? ==> SupportedTable(ReadNode(nodes, p).value.0)
    decreases Weight(nodes)
  {
    if nodes != [] && !nodes[0].Close? {
      match nodes[0]
      case Name(c) =>
        if p.name.None? && KeyOfName(c).Some? { ReadIsSupported(nodes[1..], p.(name := KeyOfName(c))); }
      case Value(c) =>
        assert NodeWeight(nodes[0]) == 1 + ContentWeight(c);
        var v := ReadContent(c);
        if v.Some? {
          ReadContentIsSupported(c);
          RawSetSupported(p.t, if p.name.Some? then p.name.value else KInt(p.idx + 1), v.value);
          ReadIsSupported(nodes[1..], p.Add(v.value));
        }
      case Open(id) =>
        ReadIsSupported(nodes[1..], Start);
        var inner := ReadNode(nodes[1..], Start);
        if id == 0 && inner.Some? {
          RawSetSupported(p.t, if p.name.Some? then p.name.value else KInt(p.idx + 1), Some(LTable(inner.value.0)));
          ReadIsSupported(SkipClose(inner.value.1), p.Add(Some(LTable(inner.value.0))));
        }
    }
  }

  lemma {:induction false} ReadContentIsSupported(c: Content)
    ensures ReadContent(c).Some? && ReadContent(c).value.Some? ==> SupportedValue(ReadContent(c).value.value)
    decreases ContentWeight(c)
  {
    if c.Embedded? { ReadIsSupported(c.nodes, Start); }
  }
}
