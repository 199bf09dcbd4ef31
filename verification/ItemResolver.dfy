/** Answering "first, next, all items inside this scope" with one cached cursor per item id. */
module ItemResolver {
  import opened Scopes
  import opened ScopeObjects
  import opened Sequences

  datatype TagLevelRange = TagLevelRange(first: int, last: int)

  datatype ResolvedObject = ResolvedObject(objref: ObjectRef, taglevel: int, scope: Scope)

  datatype Resolution = Missing | Found(obj: ResolvedObject) | Ambiguous

  function ToResolved(e: Entry): ResolvedObject {
    ResolvedObject(e.objref, e.taglevel, e.key.scope)
  }

  // ---------------------------------------------------------------- what is searched

  predicate Matches(e: Entry, scope: Scope, range: TagLevelRange) {
    && e.key.scope.Inside(scope)
    && range.first <= e.taglevel <= range.last
  }

  /** k is the position of the first entry that starts at or after the given number. */
  ghost predicate IsLowerBound(m: seq<Entry>, from: int, k: nat) {
    && k <= |m|
    && (forall i :: 0 <= i < k ==> m[i].key.scope.from < from)
    && (forall i :: k <= i < |m| ==> m[i].key.scope.from >= from)
  }

  /** Entry i matches, no matching entry reaches beyond it, and it is the first one with its scope. */
  ghost predicate IsTop(m: seq<Entry>, scope: Scope, range: TagLevelRange, i: nat) {
    && i < |m| && Matches(m[i], scope, range)
    && forall j :: 0 <= j < |m| && Matches(m[j], scope, range) && m[j].key.scope.Covers(m[i].key.scope) ==>
         m[j].key.scope == m[i].key.scope && i <= j
  }

  /** The meaning of an array reference: one object for every inclusion-maximal matching scope,
      in document order, and nothing else; here restricted to the first n entries. */
  ghost function Tops(m: seq<Entry>, scope: Scope, range: TagLevelRange, n: nat): (r: seq<ResolvedObject>)
    requires n <= |m|
    ensures |r| <= n
  {
    if n == 0 then []
    else Tops(m, scope, range, n - 1) + if IsTop(m, scope, range, n - 1) then [ToResolved(m[n - 1])] else []
  }

  ghost function ArrayMeaning(m: seq<Entry>, scope: Scope, range: TagLevelRange): seq<ResolvedObject> {
    Tops(m, scope, range, |m|)
  }

  lemma {:induction false} TopsWithoutMore(m: seq<Entry>, scope: Scope, range: TagLevelRange, k: nat, n: nat)
    requires k <= n <= |m|
    requires forall i :: k <= i < n ==> !IsTop(m, scope, range, i)
    ensures Tops(m, scope, range, n) == Tops(m, scope, range, k)
  {
    if k < n { TopsWithoutMore(m, scope, range, k, n - 1); }
  }

  // ---------------------------------------------------------------- properties of the meaning

  /** Every object of an array stands for a maximal entry. */
  lemma {:induction false} ArrayObjectsAreTops(m: seq<Entry>, scope: Scope, range: TagLevelRange, n: nat, k: nat) returns (i: nat)
    requires n <= |m| && k < |Tops(m, scope, range, n)|
    ensures i < n && IsTop(m, scope, range, i) && Tops(m, scope, range, n)[k] == ToResolved(m[i])
    ensures k == |Tops(m, scope, range, i)|
  {
    if k < |Tops(m, scope, range, n - 1)| {
      i := ArrayObjectsAreTops(m, scope, range, n - 1, k);
    } else {
      i := n - 1;
    }
  }

  /** Every match is nested in the scope of exactly one object of the array. */
  lemma {:induction false} EveryMatchIsCovered(m: seq<Entry>, scope: Scope, range: TagLevelRange, i: nat) returns (k: nat)
    requires ValidMap(m) && i < |m| && Matches(m[i], scope, range)
    ensures k < |ArrayMeaning(m, scope, range)|
    ensures m[i].key.scope.Inside(ArrayMeaning(m, scope, range)[k].scope)
    ensures forall l :: 0 <= l < |ArrayMeaning(m, scope, range)| && l != k ==>
              Disjoint(m[i].key.scope, ArrayMeaning(m, scope, range)[l].scope)
    decreases i
  {
    ValidMapAt(m, i, i);
    if IsTop(m, scope, range, i) {
      k := TopIsListed(m, scope, range, i, |m|);
    } else {
      var j: nat :| j < |m| && Matches(m[j], scope, range) && m[j].key.scope.Covers(m[i].key.scope)
               && !(m[j].key.scope == m[i].key.scope && i <= j);
      SortedPair(m, i, j);
      k := EveryMatchIsCovered(m, scope, range, j);
    }
    forall l | 0 <= l < |ArrayMeaning(m, scope, range)| && l != k
      ensures Disjoint(m[i].key.scope, ArrayMeaning(m, scope, range)[l].scope)
    {
      if k < l { ArrayIsInDocumentOrder(m, scope, range, k, l); } else { ArrayIsInDocumentOrder(m, scope, range, l, k); }
    }
  }

  /** The scopes of an array follow each other without overlap; in particular each scope comes once. */
  lemma {:induction false} ArrayIsInDocumentOrder(m: seq<Entry>, scope: Scope, range: TagLevelRange, k: nat, l: nat)
    requires ValidMap(m) && k < l < |ArrayMeaning(m, scope, range)|
    ensures ArrayMeaning(m, scope, range)[k].scope.to < ArrayMeaning(m, scope, range)[l].scope.from
  {
    var i := ArrayObjectsAreTops(m, scope, range, |m|, k);
    var j := ArrayObjectsAreTops(m, scope, range, |m|, l);
    TopsMonotone(m, scope, range, i, j);
    ValidMapAt(m, i, j);
    ValidMapAt(m, j, i);
    SortedPair(m, i, j);
  }

  lemma {:induction false} TopsMonotone(m: seq<Entry>, scope: Scope, range: TagLevelRange, i: nat, j: nat)
    requires i <= |m| && j <= |m|
    ensures i <= j ==> Tops(m, scope, range, i) <= Tops(m, scope, range, j)
    ensures |Tops(m, scope, range, i)| < |Tops(m, scope, range, j)| ==> i < j
    decreases i + j
  {
    if i < j { TopsMonotone(m, scope, range, i, j - 1); }
    else if j < i { TopsMonotone(m, scope, range, i - 1, j); }
  }

  lemma {:induction false} TopIsListed(m: seq<Entry>, scope: Scope, range: TagLevelRange, i: nat, n: nat) returns (k: nat)
    requires i < n <= |m| && IsTop(m, scope, range, i)
    ensures k < |Tops(m, scope, range, n)| && Tops(m, scope, range, n)[k] == ToResolved(m[i])
  {
    TopsMonotone(m, scope, range, i + 1, n);
    k := |Tops(m, scope, range, i)|;
    assert Tops(m, scope, range, i + 1)[k] == ToResolved(m[i]);
  }

  /** The members of a structure are searched in the inner part of its scope: they lie in it, but do not begin with it,
      so the scopes get smaller from structure to structure. */
  lemma {:induction false} MembersAreSmaller(m: seq<Entry>, scope: Scope, range: TagLevelRange, k: nat)
    requires k < |ArrayMeaning(m, scope.Inner(), range)|
    ensures var member := ArrayMeaning(m, scope.Inner(), range)[k].scope;
            member.Inside(scope) && member.from != scope.from && member.to - member.from < scope.to - scope.from
  {
    var i := ArrayObjectsAreTops(m, scope.Inner(), range, |m|, k);
    InnerIsStrict(m[i].key.scope, scope);
  }

  /** An answer stands for an entry: it has its reference, its tag level and its scope. */
  ghost predicate StandsFor(o: ResolvedObject, e: Entry) {
    o.objref == e.objref && o.taglevel == e.taglevel && o.scope.from == e.key.scope.from && o.scope.to == e.key.scope.to
  }

  ghost predicate AnswerFor(o: ResolvedObject, m: seq<Entry>, scope: Scope, range: TagLevelRange) {
    exists i: nat :: IsTop(m, scope, range, i) && StandsFor(o, m[i])
  }

  ghost predicate AnsweredBy(e: Entry, items: seq<ResolvedObject>) {
    exists k :: 0 <= k < |items| && StandsFor(items[k], e)
  }

  /** By the numbers of the events. */
  ghost predicate Encloses(items: seq<ResolvedObject>, e: Entry) {
    exists k :: 0 <= k < |items| && items[k].scope.from <= e.key.scope.from && e.key.scope.to <= items[k].scope.to
  }

  predicate LiesWithin(e: Entry, scope: Scope, range: TagLevelRange) {
    scope.from <= e.key.scope.from && e.key.scope.to <= scope.to && range.first <= e.taglevel && e.taglevel <= range.last
  }

  /** The answers to an array reference are those for the maximal matches. By numbers, they lie within the scope and the
      tag levels, and every entry that does lies within the scope of an answer. */
  ghost predicate AnswersArray(items: seq<ResolvedObject>, m: seq<Entry>, scope: Scope, range: TagLevelRange) {
    && (forall k :: 0 <= k < |items| ==> AnswerFor(items[k], m, scope, range))
    && (forall i: nat :: IsTop(m, scope, range, i) ==> AnsweredBy(m[i], items))
    && (forall k :: 0 <= k < |items| ==>
          && scope.from <= items[k].scope.from && items[k].scope.to <= scope.to
          && range.first <= items[k].taglevel && items[k].taglevel <= range.last)
    && (forall e :: e in m && LiesWithin(e, scope, range) ==> Encloses(items, e))
  }

  lemma {:induction false} MeaningAnswers(m: seq<Entry>, scope: Scope, range: TagLevelRange)
    requires ValidMap(m)
    ensures AnswersArray(ArrayMeaning(m, scope, range), m, scope, range)
  {
    hide ArrayMeaning, ValidMap;
    var items := ArrayMeaning(m, scope, range);
    forall k: nat | k < |items|
      ensures AnswerFor(items[k], m, scope, range)
      ensures scope.from <= items[k].scope.from && items[k].scope.to <= scope.to
      ensures range.first <= items[k].taglevel && items[k].taglevel <= range.last
    {
      ObjectAnswers(m, scope, range, k);
    }
    forall i: nat | IsTop(m, scope, range, i) ensures AnsweredBy(m[i], items) { TopIsAnswered(m, scope, range, i); }
    forall e | e in m && LiesWithin(e, scope, range) ensures Encloses(items, e) {
      var i: nat :| i < |m| && m[i] == e;
      var k := EveryMatchIsCovered(m, scope, range, i);
      assert items[k].scope.from <= e.key.scope.from;
    }
  }

  lemma {:induction false} ObjectAnswers(m: seq<Entry>, scope: Scope, range: TagLevelRange, k: nat)
    requires k < |ArrayMeaning(m, scope, range)|
    ensures var o := ArrayMeaning(m, scope, range)[k];
            && AnswerFor(o, m, scope, range) && scope.from <= o.scope.from && o.scope.to <= scope.to
            && range.first <= o.taglevel && o.taglevel <= range.last
  {
    var i := ArrayObjectsAreTops(m, scope, range, |m|, k);
    assert StandsFor(ArrayMeaning(m, scope, range)[k], m[i]);
  }

  lemma {:induction false} TopIsAnswered(m: seq<Entry>, scope: Scope, range: TagLevelRange, i: nat)
    requires IsTop(m, scope, range, i)
    ensures AnsweredBy(m[i], ArrayMeaning(m, scope, range))
  {
    var k := TopIsListed(m, scope, range, i, |m|);
    assert StandsFor(ArrayMeaning(m, scope, range)[k], m[i]);
  }

  // ---------------------------------------------------------------- why skipping is right

  /** Whatever starts inside an entry that precedes it in order is nested in that entry. */
  lemma {:induction false} StartsInsideIsNested(m: seq<Entry>, c: nat, i: nat)
    requires ValidMap(m) && c < i < |m|
    requires m[i].key.scope.from <= m[c].key.scope.to
    ensures m[i].key.scope.Inside(m[c].key.scope)
  {
    ValidMapAt(m, c, i);
    ValidMapAt(m, i, i);
    SortedPair(m, c, i);
  }

  /** A match that starts behind everything that matched before is maximal. */
  lemma {:induction false} NextMatchIsTop(m: seq<Entry>, scope: Scope, range: TagLevelRange, k: nat)
    requires ValidMap(m) && k < |m| && Matches(m[k], scope, range)
    requires forall i :: 0 <= i < k && Matches(m[i], scope, range) ==> m[i].key.scope.to < m[k].key.scope.from
    ensures IsTop(m, scope, range, k)
  {
    ValidMapAt(m, k, k);
    forall j: nat | j < |m| && Matches(m[j], scope, range) && m[j].key.scope.Covers(m[k].key.scope)
      ensures m[j].key.scope == m[k].key.scope && k <= j
    {
      SortedPair(m, k, j);
    }
  }

  lemma {:induction false} NestedIsNotTop(m: seq<Entry>, scope: Scope, range: TagLevelRange, c: nat, i: nat)
    requires c < i < |m| && Matches(m[c], scope, range) && m[i].key.scope.Inside(m[c].key.scope)
    ensures !IsTop(m, scope, range, i)
  {
  }

  /** Between an item and the next match behind it there is nothing maximal, and the next match is behind all before. */
  lemma {:induction false} NothingIsSkipped(m: seq<Entry>, scope: Scope, range: TagLevelRange, c: nat, n: nat)
    requires ValidMap(m) && c < n <= |m| && Matches(m[c], scope, range)
    requires forall i :: 0 <= i < c && Matches(m[i], scope, range) ==> m[i].key.scope.to < m[c].key.scope.from
    requires forall i :: c < i < n && Matches(m[i], scope, range) ==> m[i].key.scope.from <= m[c].key.scope.to
    ensures Tops(m, scope, range, n) == Tops(m, scope, range, c) + [ToResolved(m[c])]
    ensures forall i :: 0 <= i < n && Matches(m[i], scope, range) ==> m[i].key.scope.to <= m[c].key.scope.to
  {
    NextMatchIsTop(m, scope, range, c);
    forall i: nat | i < n && Matches(m[i], scope, range)
      ensures m[i].key.scope.to <= m[c].key.scope.to
      ensures c < i ==> !IsTop(m, scope, range, i)
    {
      ValidMapAt(m, c, c);
      if c < i {
        StartsInsideIsNested(m, c, i);
        NestedIsNotTop(m, scope, range, c, i);
      }
    }
    TopsWithoutMore(m, scope, range, c + 1, n);
  }

  /** Two searches tell whether there is one maximal match or more. */
  lemma {:induction false} OneOrMore(m: seq<Entry>, scope: Scope, range: TagLevelRange, c: nat, n: nat)
    requires ValidMap(m) && c < n <= |m| && Matches(m[c], scope, range)
    requires forall i :: 0 <= i < c ==> !Matches(m[i], scope, range)
    requires forall i :: c < i < n && Matches(m[i], scope, range) ==> m[i].key.scope.from <= m[c].key.scope.to
    requires n < |m| ==> Matches(m[n], scope, range) && m[n].key.scope.from > m[c].key.scope.to
    ensures n == |m| ==> ArrayMeaning(m, scope, range) == [ToResolved(m[c])]
    ensures n < |m| ==> |ArrayMeaning(m, scope, range)| >= 2
  {
    hide ValidMap, Matches, IsTop, Tops;
    NoneBefore(m, scope, range, c);
    NothingIsSkipped(m, scope, range, c, n);
    if n < |m| {
      NextMatchIsTop(m, scope, range, n);
      TopAdds(m, scope, range, n);
      TopsLonger(m, scope, range, n + 1, |m|);
    }
  }

  lemma {:induction false} NoneBefore(m: seq<Entry>, scope: Scope, range: TagLevelRange, c: nat)
    requires c <= |m| && forall i :: 0 <= i < c ==> !Matches(m[i], scope, range)
    ensures Tops(m, scope, range, c) == []
  {
    TopsWithoutMore(m, scope, range, 0, c);
  }

  lemma {:induction false} TopAdds(m: seq<Entry>, scope: Scope, range: TagLevelRange, n: nat)
    requires n < |m| && IsTop(m, scope, range, n)
    ensures |Tops(m, scope, range, n + 1)| == |Tops(m, scope, range, n)| + 1
  {
  }

  lemma {:induction false} TopsLonger(m: seq<Entry>, scope: Scope, range: TagLevelRange, i: nat, j: nat)
    requires i <= j <= |m|
    ensures |Tops(m, scope, range, i)| <= |Tops(m, scope, range, j)|
  {
    TopsMonotone(m, scope, range, i, j);
  }

  // ---------------------------------------------------------------- inherited items

  predicate MatchesCovering(e: Entry, scope: Scope, range: TagLevelRange) {
    && e.key.scope.Covers(scope)
    && range.first <= e.taglevel <= range.last
  }

  /** The first entry that starts exactly at a number or else the last one that starts before it. */
  ghost predicate IsNearestBefore(m: seq<Entry>, from: int, k: nat) {
    && k < |m| && m[k].key.scope.from <= from
    && (forall i :: 0 <= i < k ==> m[i].key.scope.from < from)
    && (m[k].key.scope.from < from ==> forall i :: k < i < |m| ==> m[i].key.scope.from > from)
  }

  lemma {:induction false} NearestBeforeUnique(m: seq<Entry>, from: int, k: nat)
    requires IsNearestBefore(m, from, k)
    ensures forall l: nat :: IsNearestBefore(m, from, l) ==> l == k
  {
    forall l: nat | IsNearestBefore(m, from, l) ensures l == k {
      if l < k { assert false; }
      if k < l { assert false; }
    }
  }

  /** Going backward from entry k to entry i, only entries that end before the scope begins are passed. */
  ghost predicate Reached(m: seq<Entry>, scope: Scope, k: nat, i: nat) {
    i <= k < |m| && forall j :: i <= j < k ==> m[j].key.scope.to <= scope.from
  }

  /** What the search for a covering entry finds: matches that are reached from the nearest entry. */
  ghost predicate CoveringFound(m: seq<Entry>, scope: Scope, range: TagLevelRange) {
    exists i: nat, k: nat :: IsNearestBefore(m, scope.from, k) && Reached(m, scope, k, i) && MatchesCovering(m[i], scope, range)
  }

  /** Entry i is the first match met on the way back from entry k. */
  ghost predicate FirstReached(m: seq<Entry>, scope: Scope, range: TagLevelRange, k: nat, i: nat) {
    && Reached(m, scope, k, i) && MatchesCovering(m[i], scope, range)
    && forall j :: i < j <= k ==> !MatchesCovering(m[j], scope, range)
  }

  ghost predicate CoveringExists(m: seq<Entry>, scope: Scope, range: TagLevelRange) {
    exists i :: 0 <= i < |m| && MatchesCovering(m[i], scope, range)
  }

  lemma {:induction false} NearestExists(m: seq<Entry>, from: int, i: nat) returns (k: nat)
    requires ValidMap(m) && i < |m| && m[i].key.scope.from <= from
    ensures IsNearestBefore(m, from, k)
    decreases |m| - i
  {
    if m[i].key.scope.from == from {
      k := i;
      while k > 0 && m[k - 1].key.scope.from == from
        invariant k <= i && m[k].key.scope.from == from
      {
        k := k - 1;
      }
      if k > 0 {
        SortedPair(m, k - 1, k);
        forall j: nat | j < k ensures m[j].key.scope.from < from { SortedPair(m, j, k - 1); }
      }
    } else if i + 1 < |m| && m[i + 1].key.scope.from <= from {
      k := NearestExists(m, from, i + 1);
    } else {
      k := i;
      forall j: nat | j < |m| ensures j < k ==> m[j].key.scope.from < from ensures j > k ==> m[j].key.scope.from > from {
        SortedPair(m, j, k);
        if j > k { SortedPair(m, k + 1, j); }
      }
    }
  }

  /** The search misses nothing exactly if nothing covers the scope or the nearest entry does. For the inner scope of an
      element with one event or none, which ends before it begins, also an earlier entry does if the entries from it on
      end before the scope begins. */
  lemma {:induction false} CoveringSearchIsCompleteIff(m: seq<Entry>, scope: Scope, range: TagLevelRange)
    requires ValidMap(m)
    ensures CoveringFound(m, scope, range) ==> CoveringExists(m, scope, range)
    ensures CoveringExists(m, scope, range) ==> exists k: nat :: IsNearestBefore(m, scope.from, k)
    ensures forall k: nat :: IsNearestBefore(m, scope.from, k) && scope.from < scope.to ==>
              (CoveringFound(m, scope, range) <==> m[k].key.scope.to >= scope.to && range.first <= m[k].taglevel <= range.last)
    ensures forall k: nat :: IsNearestBefore(m, scope.from, k) && scope.from >= scope.to ==>
              (CoveringFound(m, scope, range) <==>
               exists i: nat :: Reached(m, scope, k, i) && m[i].key.scope.to >= scope.to && range.first <= m[i].taglevel <= range.last)
  {
    if CoveringExists(m, scope, range) {
      var i: nat :| i < |m| && MatchesCovering(m[i], scope, range);
      var k := NearestExists(m, scope.from, i);
    }
    forall k: nat | IsNearestBefore(m, scope.from, k)
      ensures scope.from < scope.to ==>
                (CoveringFound(m, scope, range) <==> m[k].key.scope.to >= scope.to && range.first <= m[k].taglevel <= range.last)
      ensures scope.from >= scope.to ==>
                (CoveringFound(m, scope, range) <==>
                 exists i: nat :: Reached(m, scope, k, i) && m[i].key.scope.to >= scope.to && range.first <= m[i].taglevel <= range.last)
    {
      FoundFrom(m, scope, range, k);
    }
  }

  lemma {:induction false} FoundFrom(m: seq<Entry>, scope: Scope, range: TagLevelRange, k: nat)
    requires IsNearestBefore(m, scope.from, k)
    ensures CoveringFound(m, scope, range) <==> exists i: nat :: Reached(m, scope, k, i) && MatchesCovering(m[i], scope, range)
    ensures scope.from < scope.to ==> forall i: nat :: Reached(m, scope, k, i) && MatchesCovering(m[i], scope, range) ==> i == k
    ensures forall i: nat :: Reached(m, scope, k, i) ==>
              (MatchesCovering(m[i], scope, range) <==> m[i].key.scope.to >= scope.to && range.first <= m[i].taglevel <= range.last)
    ensures Reached(m, scope, k, k)
  {
    NearestBeforeUnique(m, scope.from, k);
  }

  lemma {:induction false} ReachedCovers(m: seq<Entry>, scope: Scope, range: TagLevelRange, k: nat, i: nat)
    requires FirstReached(m, scope, range, k, i)
    ensures i < |m| && m[i].key.scope.from <= scope.from && m[i].key.scope.to >= scope.to && range.first <= m[i].taglevel <= range.last
    ensures Reached(m, scope, k, i) && MatchesCovering(m[i], scope, range)
  {
  }

  lemma {:induction false} NoneNearest(m: seq<Entry>, scope: Scope, range: TagLevelRange)
    ensures (forall k: nat :: !IsNearestBefore(m, scope.from, k)) ==> !CoveringFound(m, scope, range)
  {
  }

  // ---------------------------------------------------------------- the resolver

  /** First position whose key does not sort before the given key (std::multimap::lower_bound). */
  function LowerBoundKey(m: seq<Entry>, key: ScopeKey): (k: nat)
    ensures k <= |m|
    ensures forall i :: 0 <= i < k ==> Less(m[i].key, key)
    ensures k < |m| ==> !Less(m[k].key, key)
  {
    if m == [] || !Less(m[0].key, key) then 0 else 1 + LowerBoundKey(m[1..], key)
  }

  lemma {:induction false} SearchKeyFindsLowerBound(m: seq<Entry>, from: int)
    requires ValidMap(m)
    ensures IsLowerBound(m, from, LowerBoundKey(m, SearchKey(from)))
  {
    var k := LowerBoundKey(m, SearchKey(from));
    forall i: nat | i < |m| ensures if i < k then m[i].key.scope.from < from else m[i].key.scope.from >= from {
      ValidMapAt(m, i, i);
      if k < i {
        ValidMapAt(m, k, k);
        SortedPair(m, k, i);
      }
    }
  }

  class RequestIterator {
    const objmaps: seq<seq<Entry>>
    /** One cursor per item id; the size of the map stands for the end iterator. */
    var resolvers: seq<nat>

    ghost predicate Valid()
      reads this
    {
      && |resolvers| == |objmaps|
      && AllMapsValid(objmaps)
      && forall i :: 0 <= i < |objmaps| ==> resolvers[i] <= |objmaps[i]|
    }

    constructor (maps: seq<seq<Entry>>)
      requires AllMapsValid(maps)
      ensures Valid() && objmaps == maps
      ensures forall i :: 0 <= i < |maps| ==> resolvers[i] == |maps[i]|
    {
      objmaps := maps;
      resolvers := seq(|maps|, i requires 0 <= i < |maps| => |maps[i]|);
    }

    /** A place between a smaller and a larger start is the lower bound. */
    lemma {:induction false} BoundIsBetween(m: seq<Entry>, from: int, k: nat)
      requires ValidMap(m) && k <= |m|
      requires (k > 0 ==> m[k - 1].key.scope.from < from) && (k < |m| ==> m[k].key.scope.from >= from)
      ensures IsLowerBound(m, from, k)
    {
      forall i: nat | i < |m|
        ensures i < k ==> m[i].key.scope.from < from
        ensures i >= k ==> m[i].key.scope.from >= from
      {
        if 0 < k { SortedPair(m, i, k - 1); }
        if k < |m| { SortedPair(m, k, i); }
      }
    }

    /** Wherever the cursor was left by earlier searches, it ends at the fresh lower bound. */
    method SetResolverUpperBound(scope: Scope, itemid: nat)
      requires Valid() && itemid < |objmaps|
      modifies this
      ensures Valid()
      ensures IsLowerBound(objmaps[itemid], scope.from, resolvers[itemid])
      ensures resolvers == old(resolvers)[itemid := resolvers[itemid]]
    {
      hide IsLowerBound, ValidMap;
      var m := objmaps[itemid];
      var it := resolvers[itemid];
      ghost var start := it;
      if it == |m| {
        SearchKeyFindsLowerBound(m, scope.from);
        it := LowerBoundKey(m, SearchKey(scope.from));
      } else if m[it].key.scope.from < scope.from {
        while it < |m| && m[it].key.scope.from < scope.from
          invariant start <= it <= |m| && (it > start ==> m[it - 1].key.scope.from < scope.from)
        {
          it := it + 1;
        }
        BoundIsBetween(m, scope.from, it);
      } else {
        while m[it].key.scope.from >= scope.from
          invariant it <= start && (it < start ==> m[it + 1].key.scope.from >= scope.from)
          decreases it
        {
          if it == 0 {
            BoundIsBetween(m, scope.from, it);
            resolvers := resolvers[itemid := it];
            return;
          }
          it := it - 1;
        }
        it := it + 1;
        BoundIsBetween(m, scope.from, it);
      }
      resolvers := resolvers[itemid := it];
    }

    /** From the lower bound on, finds the first matching item, and finds one exactly when there is one. */
    method ResolveNearItemInsideScope(scope: Scope, range: TagLevelRange, itemid: nat) returns (r: Option<ResolvedObject>)
      requires Valid() && itemid < |objmaps|
      requires IsLowerBound(objmaps[itemid], scope.from, resolvers[itemid])
      modifies this
      ensures Valid() && resolvers == old(resolvers)[itemid := resolvers[itemid]]
      ensures r.Some? <==> exists i :: 0 <= i < |objmaps[itemid]| && Matches(objmaps[itemid][i], scope, range)
      ensures r.Some? ==>
                && resolvers[itemid] < |objmaps[itemid]| && r.value == ToResolved(objmaps[itemid][resolvers[itemid]])
                && Matches(objmaps[itemid][resolvers[itemid]], scope, range)
                && forall i :: 0 <= i < resolvers[itemid] ==> !Matches(objmaps[itemid][i], scope, range)
      ensures r.Some? ==> StandsFor(r.value, objmaps[itemid][resolvers[itemid]])
      ensures r.None? ==> resolvers == old(resolvers)
    {
      var m := objmaps[itemid];
      var it := resolvers[itemid];
      assert resolvers == resolvers[itemid := resolvers[itemid]];
      if it == |m| { return None; }
      if m[it].key.scope.from >= scope.from {
        if m[it].key.scope.to <= scope.to && range.first <= m[it].taglevel <= range.last {
          return Some(ToResolved(m[it]));
        }
        it := it + 1;
        while it < |m|
          invariant resolvers[itemid] < it <= |m|
          invariant resolvers == old(resolvers)
          invariant forall i :: 0 <= i < it ==> !Matches(m[i], scope, range)
        {
          if m[it].key.scope.from > scope.to { break; }
          if m[it].key.scope.to <= scope.to && range.first <= m[it].taglevel <= range.last {
            resolvers := resolvers[itemid := it];
            return Some(ToResolved(m[it]));
          }
          it := it + 1;
        }
        forall i: nat | it <= i < |m| ensures !Matches(m[i], scope, range) {
          SortedPair(m, it, i);
          ValidMapAt(m, i, i);
        }
      }
      return None;
    }

    /** From an item on, finds the next matching item that starts behind it. */
    method ResolveNextInsideItem(scope: Scope, range: TagLevelRange, itemid: nat) returns (r: Option<ResolvedObject>)
      requires Valid() && itemid < |objmaps|
      modifies this
      ensures Valid() && resolvers == old(resolvers)[itemid := resolvers[itemid]]
      ensures var m, c, n := objmaps[itemid], old(resolvers)[itemid], if r.Some? then resolvers[itemid] else |objmaps[itemid]|;
              && c <= n
              && (forall i :: c < i < n && Matches(m[i], scope, range) ==> m[i].key.scope.from <= m[c].key.scope.to)
              && (r.Some? ==> c < n < |m| && r.value == ToResolved(m[n]) && Matches(m[n], scope, range)
                              && m[n].key.scope.from > m[c].key.scope.to && StandsFor(r.value, m[n]))
    {
      var m := objmaps[itemid];
      ghost var c := resolvers[itemid];
      assert resolvers == resolvers[itemid := resolvers[itemid]];
      if resolvers[itemid] == |m| { return None; }
      var nextstart := m[resolvers[itemid]].key.scope.to + 1;
      while true
        invariant Valid() && c <= resolvers[itemid] < |m|
        invariant resolvers == old(resolvers)[itemid := resolvers[itemid]]
        invariant forall i :: c < i <= resolvers[itemid] && Matches(m[i], scope, range) ==> m[i].key.scope.from < nextstart
        decreases |m| - resolvers[itemid]
      {
        resolvers := resolvers[itemid := resolvers[itemid] + 1];
        if resolvers[itemid] == |m| { return None; }
        var e := m[resolvers[itemid]];
        if e.key.scope.from > scope.to {
          forall i: nat | resolvers[itemid] <= i < |m| ensures !Matches(m[i], scope, range) {
            SortedPair(m, resolvers[itemid], i);
            ValidMapAt(m, i, i);
          }
          return None;
        }
        if e.key.scope.from >= nextstart && range.first <= e.taglevel <= range.last && e.key.scope.Inside(scope) {
          return Some(ToResolved(e));
        }
      }
    }

    /** An array reference yields exactly the inclusion-maximal matches in document order. */
    method ResolveArray(scope: Scope, range: TagLevelRange, itemid: nat) returns (items: seq<ResolvedObject>)
      requires Valid() && itemid < |objmaps|
      modifies this
      ensures Valid()
      ensures items == ArrayMeaning(objmaps[itemid], scope, range)
      ensures AnswersArray(items, objmaps[itemid], scope, range)
    {
      hide AnswersArray;
      var m := objmaps[itemid];
      SetResolverUpperBound(scope, itemid);
      items := [];
      var r := ResolveNearItemInsideScope(scope, range, itemid);
      ghost var n := if r.Some? then resolvers[itemid] else |m|;
      TopsWithoutMore(m, scope, range, 0, n);
      while r.Some?
        invariant Valid() && n <= |m|
        invariant r.Some? ==> n == resolvers[itemid] < |m| && r.value == ToResolved(m[n]) && Matches(m[n], scope, range)
        invariant r.Some? ==> forall i :: 0 <= i < n && Matches(m[i], scope, range) ==> m[i].key.scope.to < m[n].key.scope.from
        invariant r.None? ==> n == |m|
        invariant items == Tops(m, scope, range, n)
        decreases |m| - n, r.Some?
      {
        ghost var c := n;
        items := items + [r.value];
        r := ResolveNextInsideItem(scope, range, itemid);
        n := if r.Some? then resolvers[itemid] else |m|;
        NothingIsSkipped(m, scope, range, c, n);
      }
      MeaningAnswers(m, scope, range);
    }

    /** A required or optional reference: missing, resolved or ambiguous as there are none, one or more
        inclusion-maximal matches. */
    method ResolveSingle(scope: Scope, range: TagLevelRange, itemid: nat) returns (r: Resolution)
      requires Valid() && itemid < |objmaps|
      modifies this
      ensures Valid()
      ensures r.Missing? <==> ArrayMeaning(objmaps[itemid], scope, range) == []
      ensures r.Found? <==> |ArrayMeaning(objmaps[itemid], scope, range)| == 1
      ensures r.Found? ==> ArrayMeaning(objmaps[itemid], scope, range) == [r.obj]
      ensures r.Found? ==> AnswersArray([r.obj], objmaps[itemid], scope, range)
      ensures r.Missing? ==> AnswersArray([], objmaps[itemid], scope, range)
    {
      hide AnswersArray;
      var m := objmaps[itemid];
      SetResolverUpperBound(scope, itemid);
      var obj := ResolveNearItemInsideScope(scope, range, itemid);
      if obj.None? {
        TopsWithoutMore(m, scope, range, 0, |m|);
        MeaningAnswers(m, scope, range);
        return Missing;
      }
      ghost var c := resolvers[itemid];
      var next := ResolveNextInsideItem(scope, range, itemid);
      OneOrMore(m, scope, range, c, if next.Some? then resolvers[itemid] else |m|);
      if next.Some? {
        return Ambiguous;
      }
      MeaningAnswers(m, scope, range);
      return Found(obj.value);
    }

    /** An inherited reference: finds the last match that is reached from the entry nearest before the scope, and finds
        one exactly if there is one. */
    method ResolveNearItemCoveringScope(scope: Scope, range: TagLevelRange, itemid: nat) returns (r: Option<ResolvedObject>)
      requires Valid() && itemid < |objmaps|
      requires IsLowerBound(objmaps[itemid], scope.from, resolvers[itemid])
      modifies this
      ensures Valid() && resolvers == old(resolvers)[itemid := resolvers[itemid]]
      ensures r.Some? <==> CoveringFound(objmaps[itemid], scope, range)
      ensures r.Some? ==> exists i: nat, k: nat ::
                && IsNearestBefore(objmaps[itemid], scope.from, k) && FirstReached(objmaps[itemid], scope, range, k, i)
                && r.value == ToResolved(objmaps[itemid][i]) && StandsFor(r.value, objmaps[itemid][i])
      ensures r.Some? ==> r.value.scope.from <= scope.from && r.value.scope.to >= scope.to && range.first <= r.value.taglevel <= range.last
    {
      hide IsLowerBound, IsNearestBefore, FirstReached, MatchesCovering, CoveringFound, ValidMap;
      var m := objmaps[itemid];
      assert resolvers == resolvers[itemid := resolvers[itemid]];
      NoneNearest(m, scope, range);
      var nearest := SeekNearest(m, scope.from, resolvers[itemid]);
      if nearest.None? { return None; }
      FoundFrom(m, scope, range, nearest.value);
      var it := SeekCovering(m, scope, range, nearest.value);
      if it.None? { return None; }
      ReachedCovers(m, scope, range, nearest.value, it.value);
      if it.value != nearest.value { resolvers := resolvers[itemid := it.value]; }
      return Some(ToResolved(m[it.value]));
    }

    /** Goes back from the lower bound to the nearest entry that does not start behind a number. */
    method SeekNearest(m: seq<Entry>, from: int, low: nat) returns (r: Option<nat>)
      requires ValidMap(m) && IsLowerBound(m, from, low)
      ensures r.Some? ==> IsNearestBefore(m, from, r.value)
      ensures r.None? ==> forall k: nat :: !IsNearestBefore(m, from, k)
    {
      var it := low;
      if it == |m| {
        if |m| == 0 { return None; }
        it := it - 1;
      }
      while m[it].key.scope.from > from
        invariant 0 <= it < |m|
        invariant it + 1 == low == |m| || it == low || (it + 1 == low && m[low].key.scope.from > from)
        decreases it
      {
        if it == 0 { return None; }
        it := it - 1;
      }
      forall i: nat | low < i < |m| ensures m[i].key.scope.from >= m[low].key.scope.from { SortedPair(m, low, i); }
      return Some(it);
    }

    /** Looks at the nearest entry and, as long as they end before the scope begins, at those before it. */
    method SeekCovering(m: seq<Entry>, scope: Scope, range: TagLevelRange, k: nat) returns (r: Option<nat>)
      requires IsNearestBefore(m, scope.from, k)
      ensures r.Some? ==> FirstReached(m, scope, range, k, r.value)
      ensures r.None? ==> forall i: nat :: Reached(m, scope, k, i) ==> !MatchesCovering(m[i], scope, range)
    {
      hide MatchesCovering, IsNearestBefore, CoveringFound;
      FoundFrom(m, scope, range, k);
      var it := k;
      if m[it].key.scope.to >= scope.to && range.first <= m[it].taglevel <= range.last { return Some(it); }
      while it != 0
        invariant 0 <= it <= k && Reached(m, scope, k, it)
        invariant forall j :: it <= j <= k ==> !MatchesCovering(m[j], scope, range)
      {
        it := it - 1;
        if m[it].key.scope.to > scope.from { return None; }
        assert Reached(m, scope, k, it);
        if m[it].key.scope.to >= scope.to && range.first <= m[it].taglevel <= range.last { return Some(it); }
      }
      return None;
    }
  }
}
