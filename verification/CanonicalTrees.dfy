/** The canonical form of a serialization as a tree: the members of every structure sorted by their names. */
module CanonicalTrees {
  import opened Decimals
  import opened KeyMaps
  import opened Sequences
  import opened Serialization
  import opened SerializationTrees

  /** The name of a member as a string; a missing value or a serialization has none. */
  function KeyString(c: Content): Option<string> {
    match c
    case Str(s) => Some(s)
    case Int(n) => Some(if n < 0 then "-" + Digits(-n) else Digits(n))
    case Bool(b) => Some(if b then "1" else "0")
    case Void => None
    case Embedded(_, _) => None
  }

  /** What a name says, by the characters: the text itself, the number in base ten, or 1 and 0 for the truth values. */
  predicate Spells(s: string, c: Content) {
    match c
    case Str(t) => s == t
    case Int(n) => Denotes(s, n)
    case Bool(b) => s == if b then "1" else "0"
    case Void => false
    case Embedded(_, _) => false
  }

  /** The string of a name is the one that spells it; there is none exactly if nothing does. */
  lemma {:induction false} KeyIsSpelled(c: Content, s: string)
    ensures KeyString(c) == Some(s) <==> Spells(s, c)
  {
    if c.Int? {
      var n: nat := if c.n < 0 then -c.n else c.n;
      ReadWritten(n);
      if c.n < 0 {
        assert ("-" + Digits(n))[1..] == Digits(n);
        if s != "" && s[0] == '-' && IsDecimal(s[1..]) {
          WrittenRead(s[1..]);
          assert s == ['-'] + s[1..];
        }
      } else if IsDecimal(s) {
        WrittenRead(s);
      }
    }
  }

  /** Integers are the same name exactly if they are the same number. */
  lemma {:induction false} IntegerKeys(a: int, b: int)
    ensures KeyString(Int(a)) == KeyString(Int(b)) <==> a == b
  {
    var s := KeyString(Int(a)).value;
    KeyIsSpelled(Int(a), s);
    KeyIsSpelled(Int(b), s);
    if KeyString(Int(a)) == KeyString(Int(b)) { DenotesOne(s, a, b); }
  }

  function KeyOf(e: Elem): Option<string> {
    if e.name.Some? then KeyString(e.name.value) else None
  }

  // ---------------------------------------------------------------- the canonical form

  function CanonTree(t: Tree): Option<Tree>
    decreases t
  {
    match t
    case Atom(_) => Some(t)
    case Struct(id, es) =>
      var c := CanonElems(es);
      if c.Some? then Some(Struct(id, c.value)) else None
  }

  function CanonElem(e: Elem): Option<Tree>
    decreases e
  {
    CanonTree(e.tree)
  }

  /** A list is either without names or all of it is named. */
  function CanonElems(es: seq<Elem>): Option<seq<Elem>>
    decreases es, 1
  {
    if es != [] && es[0].name.Some? then
      var m := Members(es, []);
      if m.Some? then Written(m.value) else None
    else Plain(es)
  }

  function Plain(es: seq<Elem>): Option<seq<Elem>>
    decreases es, 0
  {
    if es == [] then Some([])
    else
      var c, rest := CanonElem(es[0]), Plain(es[1..]);
      if es[0].name.None? && c.Some? && rest.Some? then Some([Elem(None, c.value)] + rest.value) else None
  }

  /** The members by name; of those with the same name the last one counts. */
  function Members(es: seq<Elem>, m: KeyMap<Option<Tree>>): Option<KeyMap<Option<Tree>>>
    decreases es, 0
  {
    if es == [] then Some(m)
    else if KeyOf(es[0]).None? then None
    else Members(es[1..], Put(m, KeyOf(es[0]).value, CanonElem(es[0])))
  }

  function Written(m: KeyMap<Option<Tree>>): Option<seq<Elem>> {
    if m == [] then Some([])
    else
      var rest := Written(m[1..]);
      if m[0].1.Some? && rest.Some? then Some([Elem(Some(Str(m[0].0)), m[0].1.value)] + rest.value) else None
  }

  // ---------------------------------------------------------------- what trees it is for and what it should keep

  predicate Unnamed(es: seq<Elem>) {
    forall i :: 0 <= i < |es| ==> es[i].name.None?
  }

  predicate UniquelyNamed(es: seq<Elem>) {
    && (forall i :: 0 <= i < |es| ==> KeyOf(es[i]).Some?)
    && (forall i, j :: 0 <= i < j < |es| ==> KeyOf(es[i]) != KeyOf(es[j]))
  }

  /** No two names are spelled alike. */
  ghost predicate SpelledDifferently(c: Content, d: Content) {
    forall s :: !(Spells(s, c) && Spells(s, d))
  }

  /** Names are different if they are spelled differently, and integers if they are different numbers. */
  lemma {:induction false} UniquelyNamedIff(es: seq<Elem>)
    ensures UniquelyNamed(es)
       <==> && (forall i :: 0 <= i < |es| ==> es[i].name.Some? && !es[i].name.value.Void? && !es[i].name.value.Embedded?)
            && (forall i, j :: 0 <= i < j < |es| ==> SpelledDifferently(es[i].name.value, es[j].name.value))
    ensures (forall i :: 0 <= i < |es| ==> es[i].name.Some? && es[i].name.value.Int?) ==>
              (UniquelyNamed(es) <==> forall i, j :: 0 <= i < j < |es| ==> es[i].name.value.n != es[j].name.value.n)
  {
    forall i, j | 0 <= i < j < |es| && KeyOf(es[i]).Some? && KeyOf(es[j]).Some?
      ensures KeyOf(es[i]) != KeyOf(es[j]) <==> SpelledDifferently(es[i].name.value, es[j].name.value)
      ensures es[i].name.value.Int? && es[j].name.value.Int? ==> (KeyOf(es[i]) != KeyOf(es[j]) <==> es[i].name.value.n != es[j].name.value.n)
    {
      DifferentKeys(es[i].name.value, es[j].name.value);
    }
  }

  lemma {:induction false} DifferentKeys(c: Content, d: Content)
    requires KeyString(c).Some? && KeyString(d).Some?
    ensures KeyString(c) != KeyString(d) <==> SpelledDifferently(c, d)
    ensures c.Int? && d.Int? ==> (KeyString(c) != KeyString(d) <==> c.n != d.n)
  {
    var s := KeyString(c).value;
    KeyIsSpelled(c, s);
    KeyIsSpelled(d, s);
    forall t ensures !(Spells(t, c) && Spells(t, d)) || KeyString(c) == KeyString(d) {
      KeyIsSpelled(c, t);
      KeyIsSpelled(d, t);
    }
    if c.Int? && d.Int? { IntegerKeys(c.n, d.n); }
  }

  predicate UniqueTree(t: Tree)
    decreases t
  {
    t.Struct? ==> UniqueElems(t.elems)
  }

  predicate UniqueElem(e: Elem)
    decreases e
  {
    UniqueTree(e.tree)
  }

  /** No names, or different ones, at every depth. */
  predicate UniqueElems(es: seq<Elem>)
    decreases es
  {
    (Unnamed(es) || UniquelyNamed(es)) && forall i :: 0 <= i < |es| ==> UniqueElem(es[i])
  }

  /** Trees with the same meaning: they may differ in the order of members. */
  ghost predicate SameTree(a: Tree, b: Tree)
    decreases a
  {
    match (a, b)
    case (Atom(v), Atom(w)) => v == w
    case (Struct(i, es), Struct(j, fs)) => i == j && SameElems(es, fs)
    case _ => false
  }

  ghost predicate SameElem(e: Elem, f: Elem)
    decreases e, 0
  {
    KeyOf(e) == KeyOf(f) && SameTree(e.tree, f.tree)
  }

  ghost predicate SameElems(es: seq<Elem>, fs: seq<Elem>)
    decreases es, 1
  {
    if Unnamed(es) || Unnamed(fs) then
      Unnamed(es) && Unnamed(fs) && |es| == |fs| && forall i :: 0 <= i < |es| ==> SameElem(es[i], fs[i])
    else
      && (forall i :: 0 <= i < |es| ==> Finds(es[i], fs))
      && (forall j :: 0 <= j < |fs| ==> FoundIn(es, fs[j]))
  }

  ghost predicate Finds(e: Elem, fs: seq<Elem>)
    decreases e, 1
  {
    exists j :: 0 <= j < |fs| && SameElem(e, fs[j])
  }

  ghost predicate FoundIn(es: seq<Elem>, f: Elem)
    decreases es, 0
  {
    exists i :: 0 <= i < |es| && SameElem(es[i], f)
  }

  predicate SortedTree(t: Tree)
    decreases t
  {
    t.Struct? ==> SortedElems(t.elems)
  }

  predicate SortedElem(e: Elem)
    decreases e
  {
    SortedTree(e.tree)
  }

  /** Strings in ascending order. */
  predicate SortedNames(es: seq<Elem>) {
    && (forall i :: 0 <= i < |es| ==> es[i].name.Some? && es[i].name.value.Str?)
    && (forall i, j :: 0 <= i < j < |es| ==> StrLess(es[i].name.value.s, es[j].name.value.s))
  }

  /** No names, or sorted ones, at every depth. */
  predicate SortedElems(es: seq<Elem>)
    decreases es
  {
    (Unnamed(es) || SortedNames(es)) && forall i :: 0 <= i < |es| ==> SortedElem(es[i])
  }

  /** A member of the same meaning whose name is a string has the text of the other name. */
  lemma {:induction false} SameIsSpelled(e: Elem, f: Elem)
    requires SameElem(e, f) && f.name.Some? && f.name.value.Str?
    ensures e.name.Some? && Spells(f.name.value.s, e.name.value)
  {
    KeyIsSpelled(e.name.value, f.name.value.s);
  }

  // ---------------------------------------------------------------- lists

  lemma {:induction false} PlainEach(es: seq<Elem>)
    requires Unnamed(es) && forall i :: 0 <= i < |es| ==> CanonElem(es[i]).Some?
    ensures Plain(es).Some? && |Plain(es).value| == |es|
    ensures forall i :: 0 <= i < |es| ==> Plain(es).value[i] == Elem(None, CanonElem(es[i]).value)
  {
    if es != [] {
      forall i | 0 <= i < |es[1..]| ensures es[1..][i] == es[i + 1] {}
      PlainEach(es[1..]);
    }
  }

  /** The names with the canonical forms of their values. */
  function Entries(es: seq<Elem>): (r: KeyMap<Option<Tree>>)
    requires UniquelyNamed(es)
    ensures |r| == |es|
    ensures forall i :: 0 <= i < |es| ==> r[i] == (KeyOf(es[i]).value, CanonElem(es[i]))
  {
    seq(|es|, i requires 0 <= i < |es| => (KeyOf(es[i]).value, CanonElem(es[i])))
  }

  /** Entering members with different names updates the map with each of them. */
  lemma {:induction false} MembersEach(es: seq<Elem>, m: KeyMap<Option<Tree>>, k: string)
    requires UniquelyNamed(es) && SortedKeys(m)
    ensures Members(es, m).Some? && SortedKeys(Members(es, m).value)
    ensures var r := ToMap(Members(es, m).value);
            if exists i :: 0 <= i < |es| && KeyOf(es[i]) == Some(k) then k in r && (k, r[k]) in Entries(es)
            else (k in r <==> k in ToMap(m)) && (k in r ==> r[k] == ToMap(m)[k])
  {
    if es != [] {
      var k0, c0 := KeyOf(es[0]).value, CanonElem(es[0]);
      PutSorted(m, k0, c0);
      PutIsUpdate(m, k0, c0);
      forall i | 0 <= i < |es[1..]| ensures es[1..][i] == es[i + 1] {}
      MembersEach(es[1..], Put(m, k0, c0), k);
      assert Entries(es) == [(k0, c0)] + Entries(es[1..]);
      if i :| 0 <= i < |es| && KeyOf(es[i]) == Some(k) {
        if i > 0 {
          assert KeyOf(es[1..][i - 1]) == Some(k);
        } else {
          assert Entries(es)[0] == (k, c0);
        }
      }
    }
  }

  lemma {:induction false} WrittenEach(m: KeyMap<Option<Tree>>)
    requires forall i :: 0 <= i < |m| ==> m[i].1.Some?
    ensures Written(m).Some? && |Written(m).value| == |m|
    ensures forall i :: 0 <= i < |m| ==> Written(m).value[i] == Elem(Some(Str(m[i].0)), m[i].1.value)
  {
    if m != [] {
      forall i | 0 <= i < |m[1..]| ensures m[1..][i] == m[i + 1] {}
      WrittenEach(m[1..]);
    }
  }

  lemma {:induction false} ValueInMap<V>(m: KeyMap<V>, i: nat)
    requires SortedKeys(m) && i < |m|
    ensures m[i].0 in ToMap(m) && ToMap(m)[m[i].0] == m[i].1
  {
    KeysOfMap(m, m[i].0);
    var j :| 0 <= j < |m| && m[j] == (m[i].0, ToMap(m)[m[i].0]);
    StrLessIrreflexive(m[i].0);
    assert i == j;
  }

  /** The members of a list with different names: the entries, sorted. */
  lemma {:induction false} NamedEach(es: seq<Elem>) returns (m: KeyMap<Option<Tree>>)
    requires es != [] && UniquelyNamed(es)
    ensures SortedKeys(m) && CanonElems(es) == Written(m)
    ensures forall x :: x in m <==> x in Entries(es)
  {
    assert KeyOf(es[0]).Some?;
    MembersEach(es, [], "");
    m := Members(es, []).value;
    forall x | x in m ensures x in Entries(es) {
      var i: nat :| i < |m| && m[i] == x;
      ValueInMap(m, i);
      MembersEach(es, [], x.0);
    }
    forall x | x in Entries(es) ensures x in m {
      EntryInMembers(es, m, x);
    }
  }

  lemma {:induction false} EntryInMembers(es: seq<Elem>, m: KeyMap<Option<Tree>>, x: (string, Option<Tree>))
    requires UniquelyNamed(es) && x in Entries(es) && Members(es, []) == Some(m)
    ensures x in m
  {
    var i: nat :| i < |es| && Entries(es)[i] == x;
    assert KeyOf(es[i]) == Some(x.0);
    MembersEach(es, [], x.0);
    var y := (x.0, ToMap(m)[x.0]);
    var j: nat :| j < |es| && Entries(es)[j] == y;
    assert KeyOf(es[j]) == KeyOf(es[i]) && i == j;
    KeysOfMap(m, x.0);
  }

  // ---------------------------------------------------------------- it keeps the meaning and sorts

  /** The canonical form of a tree with different names is sorted and means the same. */
  lemma {:induction false} CanonMeansTheSame(t: Tree)
    requires UniqueTree(t)
    ensures CanonTree(t).Some? && SortedTree(CanonTree(t).value) && SameTree(t, CanonTree(t).value)
    decreases t
  {
    if t.Struct? { CanonElemsMeanTheSame(t.elems); }
  }

  lemma {:induction false} CanonElemMeansTheSame(e: Elem)
    requires UniqueElem(e)
    ensures CanonElem(e).Some? && SortedTree(CanonElem(e).value) && SameTree(e.tree, CanonElem(e).value)
    decreases e
  {
    CanonMeansTheSame(e.tree);
  }

  lemma {:induction false} CanonElemsMeanTheSame(es: seq<Elem>)
    requires UniqueElems(es)
    ensures CanonElems(es).Some? && SortedElems(CanonElems(es).value) && SameElems(es, CanonElems(es).value)
    decreases es
  {
    forall i | 0 <= i < |es|
      ensures CanonElem(es[i]).Some? && SortedTree(CanonElem(es[i]).value) && SameTree(es[i].tree, CanonElem(es[i]).value)
    {
      CanonElemMeansTheSame(es[i]);
    }
    if Unnamed(es) {
      PlainEach(es);
      var r := Plain(es).value;
      forall i | 0 <= i < |es| ensures SortedElem(r[i]) && SameElem(es[i], r[i]) {}
    } else {
      NamedMeanTheSame(es);
    }
  }

  lemma {:induction false} NamedMeanTheSame(es: seq<Elem>)
    requires es != [] && UniquelyNamed(es)
    requires forall i :: 0 <= i < |es| ==> CanonElem(es[i]).Some? && SortedTree(CanonElem(es[i]).value) && SameTree(es[i].tree, CanonElem(es[i]).value)
    ensures CanonElems(es).Some? && SortedElems(CanonElems(es).value) && SameElems(es, CanonElems(es).value)
  {
    var m := NamedEach(es);
    forall i | 0 <= i < |m| ensures m[i].1.Some? { assert m[i] in Entries(es); }
    WrittenEach(m);
    var r := Written(m).value;
    forall j: nat | j < |es| ensures Finds(es[j], r) {
      var i := EntryOf(es, m, j);
      assert SameElem(es[j], r[i]);
    }
    forall i: nat | i < |r| ensures SortedElem(r[i]) && FoundIn(es, r[i]) {
      var j := EntryFrom(es, m, i);
      assert SameElem(es[j], r[i]);
    }
    assert KeyOf(es[0]).Some? && SortedNames(r);
    assert Finds(es[0], r) && r != [] && r[0].name.Some?;
  }

  lemma {:induction false} EntryOf(es: seq<Elem>, m: KeyMap<Option<Tree>>, j: nat) returns (i: nat)
    requires UniquelyNamed(es) && j < |es| && forall x :: x in m <==> x in Entries(es)
    ensures i < |m| && m[i] == Entries(es)[j]
  {
    assert Entries(es)[j] in m;
    i :| i < |m| && m[i] == Entries(es)[j];
  }

  lemma {:induction false} EntryFrom(es: seq<Elem>, m: KeyMap<Option<Tree>>, i: nat) returns (j: nat)
    requires UniquelyNamed(es) && i < |m| && forall x :: x in m <==> x in Entries(es)
    ensures j < |es| && m[i] == Entries(es)[j]
  {
    assert m[i] in Entries(es);
    j :| j < |es| && m[i] == Entries(es)[j];
  }

  // ---------------------------------------------------------------- it is idempotent

  /** A sorted tree is its own canonical form. */
  lemma {:induction false} SortedIsCanonical(t: Tree)
    requires SortedTree(t)
    ensures CanonTree(t) == Some(t)
    decreases t
  {
    if t.Struct? { SortedElemsAreCanonical(t.elems); }
  }

  lemma {:induction false} SortedElemIsCanonical(e: Elem)
    requires SortedElem(e)
    ensures CanonElem(e) == Some(e.tree)
    decreases e
  {
    SortedIsCanonical(e.tree);
  }

  lemma {:induction false} SortedElemsAreCanonical(es: seq<Elem>)
    requires SortedElems(es)
    ensures CanonElems(es) == Some(es)
    decreases es
  {
    forall i | 0 <= i < |es| ensures CanonElem(es[i]) == Some(es[i].tree) {
      SortedElemIsCanonical(es[i]);
    }
    if Unnamed(es) {
      PlainEach(es);
      assert Plain(es).value == es;
    } else {
      forall i, j | 0 <= i < j < |es| ensures KeyOf(es[i]) != KeyOf(es[j]) {
        StrLessIrreflexive(es[i].name.value.s);
      }
      var m := NamedEach(es);
      SameMembers(m, Entries(es));
      WrittenEach(m);
      assert Written(m).value == es;
    }
  }

  /** Sorted maps with the same entries in any order are the same. */
  lemma {:induction false} SameMembers<V>(a: KeyMap<V>, b: KeyMap<V>)
    requires SortedKeys(a) && SortedKeys(b) && forall x :: x in a <==> x in b
    ensures a == b
  {
    forall k ensures k in ToMap(a) ==> k in ToMap(b) && ToMap(a)[k] == ToMap(b)[k] { SubMembers(a, b, k); }
    forall k ensures k in ToMap(b) ==> k in ToMap(a) { SubMembers(b, a, k); }
    assert ToMap(a) == ToMap(b);
    SortedIsUnique(a, b);
  }

  lemma {:induction false} SubMembers<V>(a: KeyMap<V>, b: KeyMap<V>, k: string)
    requires SortedKeys(a) && SortedKeys(b) && forall x :: x in a ==> x in b
    ensures k in ToMap(a) ==> k in ToMap(b) && ToMap(a)[k] == ToMap(b)[k]
  {
    if k in ToMap(a) {
      KeysOfMap(a, k);
      assert (k, ToMap(a)[k]) in b;
      var j: nat :| j < |b| && b[j] == (k, ToMap(a)[k]);
      ValueInMap(b, j);
    }
  }

  /** Making the canonical form again changes nothing. */
  lemma {:induction false} CanonIsIdempotent(t: Tree)
    requires UniqueTree(t)
    ensures CanonTree(t).Some? && CanonTree(CanonTree(t).value) == CanonTree(t)
  {
    CanonMeansTheSame(t);
    SortedIsCanonical(CanonTree(t).value);
  }

  // ---------------------------------------------------------------- it is the same exactly for trees that mean the same

  lemma {:induction false} SameIsSymmetric(a: Tree, b: Tree)
    requires SameTree(a, b)
    ensures SameTree(b, a)
    decreases a
  {
    if a.Struct? {
      var es, fs := a.elems, b.elems;
      forall i, j | 0 <= i < |es| && 0 <= j < |fs| && SameElem(es[i], fs[j]) ensures SameElem(fs[j], es[i]) {
        SameElemIsSymmetric(es[i], fs[j]);
      }
      if !Unnamed(es) && !Unnamed(fs) {
        forall j | 0 <= j < |fs| ensures Finds(fs[j], es) { assert FoundIn(es, fs[j]); }
        forall i | 0 <= i < |es| ensures FoundIn(fs, es[i]) { assert Finds(es[i], fs); }
      }
    }
  }

  lemma {:induction false} SameElemIsSymmetric(e: Elem, f: Elem)
    requires SameElem(e, f)
    ensures SameElem(f, e)
    decreases e
  {
    SameIsSymmetric(e.tree, f.tree);
  }

  lemma {:induction false} SameIsTransitive(a: Tree, b: Tree, c: Tree)
    requires SameTree(a, b) && SameTree(b, c)
    ensures SameTree(a, c)
    decreases a
  {
    if a.Struct? {
      var es, fs, gs := a.elems, b.elems, c.elems;
      if Unnamed(es) {
        forall i | 0 <= i < |es| ensures SameElem(es[i], gs[i]) {
          SameElemIsTransitive(es[i], fs[i], gs[i]);
        }
      } else {
        forall i | 0 <= i < |es| ensures Finds(es[i], gs) {
          assert Finds(es[i], fs);
          var j :| 0 <= j < |fs| && SameElem(es[i], fs[j]);
          assert Finds(fs[j], gs);
          var k :| 0 <= k < |gs| && SameElem(fs[j], gs[k]);
          SameElemIsTransitive(es[i], fs[j], gs[k]);
        }
        forall k | 0 <= k < |gs| ensures FoundIn(es, gs[k]) {
          assert FoundIn(fs, gs[k]);
          var j :| 0 <= j < |fs| && SameElem(fs[j], gs[k]);
          assert FoundIn(es, fs[j]);
          var i :| 0 <= i < |es| && SameElem(es[i], fs[j]);
          SameElemIsTransitive(es[i], fs[j], gs[k]);
        }
      }
    }
  }

  lemma {:induction false} SameElemIsTransitive(e: Elem, f: Elem, g: Elem)
    requires SameElem(e, f) && SameElem(f, g)
    ensures SameElem(e, g)
    decreases e
  {
    SameIsTransitive(e.tree, f.tree, g.tree);
  }

  lemma {:induction false} SameHasSameCanon(a: Tree, b: Tree)
    requires UniqueTree(a) && UniqueTree(b) && SameTree(a, b)
    ensures CanonTree(a) == CanonTree(b)
    decreases a
  {
    if a.Struct? {
      var es, fs := a.elems, b.elems;
      forall i, j | 0 <= i < |es| && 0 <= j < |fs| && SameElem(es[i], fs[j]) ensures CanonElem(es[i]) == CanonElem(fs[j]) {
        SameElemHasSameCanon(es[i], fs[j]);
      }
      if Unnamed(es) {
        forall i | 0 <= i < |es| ensures CanonElem(es[i]).Some? { CanonElemMeansTheSame(es[i]); }
        forall i | 0 <= i < |fs| ensures CanonElem(fs[i]).Some? { CanonElemMeansTheSame(fs[i]); }
        PlainEach(es);
        PlainEach(fs);
        assert Plain(es).value == Plain(fs).value;
      } else {
        NamedHaveSameCanon(es, fs);
      }
    }
  }

  lemma {:induction false} SameElemHasSameCanon(e: Elem, f: Elem)
    requires UniqueElem(e) && UniqueElem(f) && SameElem(e, f)
    ensures CanonElem(e) == CanonElem(f)
    decreases e
  {
    SameHasSameCanon(e.tree, f.tree);
  }

  lemma {:induction false} SameEntries(es: seq<Elem>, fs: seq<Elem>)
    requires UniquelyNamed(es) && UniquelyNamed(fs)
    requires forall i :: 0 <= i < |es| ==> Finds(es[i], fs)
    requires forall j :: 0 <= j < |fs| ==> FoundIn(es, fs[j])
    requires forall i, j :: 0 <= i < |es| && 0 <= j < |fs| && SameElem(es[i], fs[j]) ==> CanonElem(es[i]) == CanonElem(fs[j])
    ensures forall x :: x in Entries(es) <==> x in Entries(fs)
  {
    hide CanonElem;
    var a, b := Entries(es), Entries(fs);
    forall i | 0 <= i < |a| ensures a[i] in b {
      assert Finds(es[i], fs);
      var j :| 0 <= j < |fs| && SameElem(es[i], fs[j]);
      assert a[i] == b[j];
    }
    forall j | 0 <= j < |b| ensures b[j] in a {
      assert FoundIn(es, fs[j]);
      var i :| 0 <= i < |es| && SameElem(es[i], fs[j]);
      assert a[i] == b[j];
    }
  }

  lemma {:induction false} NamedHaveSameCanon(es: seq<Elem>, fs: seq<Elem>)
    requires es != [] && fs != [] && UniquelyNamed(es) && UniquelyNamed(fs)
    requires forall i :: 0 <= i < |es| ==> Finds(es[i], fs)
    requires forall j :: 0 <= j < |fs| ==> FoundIn(es, fs[j])
    requires forall i, j :: 0 <= i < |es| && 0 <= j < |fs| && SameElem(es[i], fs[j]) ==> CanonElem(es[i]) == CanonElem(fs[j])
    ensures CanonElems(es) == CanonElems(fs)
  {
    hide SameElem, CanonElem, CanonElems, UniquelyNamed, Written;
    SameEntries(es, fs);
    var m := NamedEach(es);
    var n := NamedEach(fs);
    SameMembers(m, n);
  }

  /** Two trees with different names in each list have the same canonical form exactly if they differ only in the
      order of members. */
  lemma {:induction false} CanonDecidesSame(a: Tree, b: Tree)
    requires UniqueTree(a) && UniqueTree(b)
    ensures CanonTree(a) == CanonTree(b) <==> SameTree(a, b)
  {
    if SameTree(a, b) {
      SameHasSameCanon(a, b);
    } else if CanonTree(a) == CanonTree(b) {
      CanonMeansTheSame(a);
      CanonMeansTheSame(b);
      SameIsSymmetric(b, CanonTree(b).value);
      SameIsTransitive(a, CanonTree(a).value, b);
    }
  }

  // ---------------------------------------------------------------- repeated names

  lemma {:induction false} MembersConcat(a: seq<Elem>, b: seq<Elem>, m: KeyMap<Option<Tree>>)
    ensures Members(a + b, m) == if Members(a, m).Some? then Members(b, Members(a, m).value) else None
  {
    if a == [] {
      assert a + b == b;
    } else if KeyOf(a[0]).Some? {
      MembersConcat(a[1..], b, Put(m, KeyOf(a[0]).value, CanonElem(a[0])));
      assert (a + b)[1..] == a[1..] + b;
    }
  }

  lemma {:induction false} MembersSorted(es: seq<Elem>, m: KeyMap<Option<Tree>>)
    requires SortedKeys(m)
    ensures Members(es, m).Some? ==> SortedKeys(Members(es, m).value)
  {
    if es != [] && KeyOf(es[0]).Some? {
      PutSorted(m, KeyOf(es[0]).value, CanonElem(es[0]));
      MembersSorted(es[1..], Put(m, KeyOf(es[0]).value, CanonElem(es[0])));
    }
  }

  lemma {:induction false} PutTwice<V>(m: KeyMap<V>, k: string, v: V, l: string, w: V)
    requires SortedKeys(m)
    ensures SortedKeys(Put(m, k, v)) && SortedKeys(Put(Put(m, k, v), l, w))
    ensures ToMap(Put(Put(m, k, v), l, w)) == ToMap(m)[k := v][l := w]
  {
    PutSorted(m, k, v);
    PutSorted(Put(m, k, v), l, w);
    PutIsUpdate(m, k, v);
    PutIsUpdate(Put(m, k, v), l, w);
  }

  lemma {:induction false} PutAgain<V>(m: KeyMap<V>, k: string, v: V, w: V)
    requires SortedKeys(m)
    ensures Put(Put(m, k, v), k, w) == Put(m, k, w)
  {
    PutTwice(m, k, v, k, w);
    PutSorted(m, k, w);
    PutIsUpdate(m, k, w);
    SortedIsUnique(Put(Put(m, k, v), k, w), Put(m, k, w));
  }

  lemma {:induction false} UpdatesSwapped<V>(m: map<string, V>, k: string, v: V, l: string, w: V)
    requires k != l
    ensures m[k := v][l := w] == m[l := w][k := v]
  {
  }

  lemma {:induction false} PutSwapped<V>(m: KeyMap<V>, k: string, v: V, l: string, w: V)
    requires SortedKeys(m) && k != l
    ensures Put(Put(m, k, v), l, w) == Put(Put(m, l, w), k, v)
  {
    PutTwice(m, k, v, l, w);
    PutTwice(m, l, w, k, v);
    UpdatesSwapped(ToMap(m), k, v, l, w);
    SortedIsUnique(Put(Put(m, k, v), l, w), Put(Put(m, l, w), k, v));
  }

  lemma {:induction false} OverwrittenLater(es: seq<Elem>, m: KeyMap<Option<Tree>>, k: string, v: Option<Tree>)
    requires SortedKeys(m) && exists i :: 0 <= i < |es| && KeyOf(es[i]) == Some(k)
    ensures Members(es, Put(m, k, v)) == Members(es, m)
  {
    var i :| 0 <= i < |es| && KeyOf(es[i]) == Some(k);
    if KeyOf(es[0]).Some? {
      var k0, c0 := KeyOf(es[0]).value, CanonElem(es[0]);
      if k0 == k {
        PutAgain(m, k, v, c0);
      } else {
        PutSwapped(m, k, v, k0, c0);
        PutSorted(m, k0, c0);
        assert KeyOf(es[1..][i - 1]) == Some(k);
        OverwrittenLater(es[1..], Put(m, k0, c0), k, v);
      }
    }
  }

  /** Of members with the same name only the last one counts, whatever the others contain. */
  lemma {:induction false} OnlyTheLastCounts(a: seq<Elem>, e: Elem, b: seq<Elem>)
    requires KeyOf(e).Some? && (a != [] ==> KeyOf(a[0]).Some?)
    requires exists i :: 0 <= i < |b| && KeyOf(b[i]) == KeyOf(e)
    requires KeyOf(b[0]).Some?
    ensures CanonElems(a + [e] + b) == CanonElems(a + b)
  {
    MembersConcat(a, b, []);
    MembersConcat(a + [e], b, []);
    MembersConcat(a, [e], []);
    MembersSorted(a, []);
    if Members(a, []).Some? {
      OverwrittenLater(b, Members(a, []).value, KeyOf(e).value, CanonElem(e));
    }
  }
}
