/** The ordered multimap from scopes to the objects (values and structures) of one item id. */
module ScopeObjects {
  import opened Scopes

  /** The largest number of a 32 bit signed integer, used as upper end of search keys. */
  const INT_MAX: int := 0x7fff_ffff

  datatype ScopeKeyType = SearchScope | ValueScope | ObjectScope

  function Priority(t: ScopeKeyType): nat {
    match t
    case SearchScope => 0
    case ValueScope => 1
    case ObjectScope => 2
  }

  datatype ScopeKey = ScopeKey(scope: Scope, kind: ScopeKeyType)

  /** Keys are ordered by start, then by length descending, then values before structures. */
  predicate Less(a: ScopeKey, b: ScopeKey) {
    if a.scope.from == b.scope.from then
      if a.scope.to == b.scope.to then Priority(a.kind) < Priority(b.kind)
      else a.scope.to > b.scope.to
    else a.scope.from < b.scope.from
  }

  function SearchKey(from: int): ScopeKey {
    ScopeKey(Scope(from, INT_MAX), SearchScope)
  }

  /** A reference to a recorded value or to a recorded structure. */
  datatype ObjectRef = ValueRef(idx: nat) | StructRef(idx: nat)

  datatype Entry = Entry(key: ScopeKey, objref: ObjectRef, taglevel: int)

  ghost predicate Sorted(m: seq<Entry>) {
    forall i, j :: 0 <= i < j < |m| ==> !Less(m[j].key, m[i].key)
  }

  lemma {:induction false} SortedPair(m: seq<Entry>, i: nat, j: nat)
    requires Sorted(m) && i < |m| && j < |m|
    ensures i < j ==> !Less(m[j].key, m[i].key)
  {
  }

  ghost function ScopesOf(m: seq<Entry>): set<Scope> {
    set e | e in m :: e.key.scope
  }

  /** The map of one item id as it results from a run: ordered, laminar, with numbers that are machine integers. */
  ghost predicate ValidMap(m: seq<Entry>) {
    && Sorted(m)
    && Laminar(ScopesOf(m))
    && forall e :: e in m ==> 0 <= e.key.scope.from && e.key.scope.to <= INT_MAX
  }

  ghost predicate AllMapsValid(maps: seq<seq<Entry>>) {
    forall i :: 0 <= i < |maps| ==> ValidMap(maps[i])
  }

  lemma {:induction false} ValidMapAt(m: seq<Entry>, i: nat, j: nat)
    requires ValidMap(m) && i < |m| && j < |m|
    ensures m[i].key.scope.from <= m[i].key.scope.to <= INT_MAX
    ensures NestedOrDisjoint(m[i].key.scope, m[j].key.scope)
  {
    assert m[i].key.scope in ScopesOf(m) && m[j].key.scope in ScopesOf(m);
  }

  /** Insertion into the multimap: behind all entries that do not sort after the new one. */
  function Insert(m: seq<Entry>, e: Entry): seq<Entry> {
    if m == [] || Less(e.key, m[0].key) then [e] + m
    else [m[0]] + Insert(m[1..], e)
  }

  /** Insertion keeps the order of what was there and puts the new entry after all equal keys. */
  lemma {:induction false} InsertIsStable(m: seq<Entry>, e: Entry) returns (k: nat)
    requires Sorted(m)
    ensures k <= |m| && Insert(m, e) == m[..k] + [e] + m[k..]
    ensures forall i :: 0 <= i < k ==> !Less(e.key, m[i].key)
    ensures forall i :: k <= i < |m| ==> Less(e.key, m[i].key)
  {
    if m == [] {
      k := 0;
    } else if Less(e.key, m[0].key) {
      k := 0;
      forall i | 0 <= i < |m| ensures Less(e.key, m[i].key) {
        assert i > 0 ==> !Less(m[i].key, m[0].key);
      }
    } else {
      assert Sorted(m[1..]);
      var k' := InsertIsStable(m[1..], e);
      k := k' + 1;
      assert m[..k] == [m[0]] + m[1..][..k'] && m[k..] == m[1..][k'..];
      forall i | 0 <= i < |m| ensures i < k ==> !Less(e.key, m[i].key) ensures k <= i ==> Less(e.key, m[i].key) {
        if i > 0 { assert m[i] == m[1..][i - 1]; }
      }
    }
  }

  lemma {:induction false} InsertKeepsSorted(m: seq<Entry>, e: Entry)
    requires Sorted(m)
    ensures Sorted(Insert(m, e))
  {
    var k := InsertIsStable(m, e);
    var r := m[..k] + [e] + m[k..];
    forall i, j | 0 <= i < j < |r| ensures !Less(r[j].key, r[i].key) {
      var i', j' := if i < k then i else i - 1, if j < k then j else j - 1;
      assert i != k ==> r[i] == m[i'];
      assert j != k ==> r[j] == m[j'];
    }
  }

  lemma {:induction false} InsertScopes(m: seq<Entry>, e: Entry)
    ensures ScopesOf(Insert(m, e)) == ScopesOf(m) + {e.key.scope}
  {
    if !(m == [] || Less(e.key, m[0].key)) {
      InsertScopes(m[1..], e);
      assert m == [m[0]] + m[1..];
      assert ScopesOf(m) == {m[0].key.scope} + ScopesOf(m[1..]);
      var rest := Insert(m[1..], e);
      assert ScopesOf([m[0]] + rest) == {m[0].key.scope} + ScopesOf(rest);
    }
  }
}
