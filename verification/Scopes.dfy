/** The scope intervals of a request document.

    Every event of a document gets a number; a scope is the interval of event numbers from the
    opening of an element up to the event at which something was recorded for it. */
module Scopes {

  datatype Scope = Scope(from: int, to: int)
  {
    predicate Inside(o: Scope) { from >= o.from && to <= o.to }

    predicate Covers(o: Scope) { from <= o.from && to >= o.to }

    /** The scope without its first event. */
    function Inner(): Scope { Scope(from + 1, to) }
  }

  predicate Disjoint(a: Scope, b: Scope) {
    a.to < b.from || b.to < a.from
  }

  predicate NestedOrDisjoint(a: Scope, b: Scope) {
    a.Inside(b) || b.Inside(a) || Disjoint(a, b)
  }

  /** A laminar family: any two scopes are nested or have no event in common. */
  ghost predicate Laminar(scopes: set<Scope>) {
    && (forall a :: a in scopes ==> a.from <= a.to)
    && (forall a, b :: a in scopes && b in scopes ==> NestedOrDisjoint(a, b))
  }

  /** What is inside the inner part of a scope is inside the scope but does not start with it. */
  lemma {:induction false} InnerIsStrict(a: Scope, b: Scope)
    ensures a.Inside(b.Inner()) <==> a.Inside(b) && a.from != b.from
    ensures a.Inside(b.Inner()) <==> b.from < a.from && a.to <= b.to
  {
  }
}
