/** Maps from strings in the order of their keys, as std::map keeps them. */
module KeyMaps {

  /** Strings are compared character by character. */
  predicate StrLess(a: string, b: string) {
    if b == "" then false
    else if a == "" then true
    else if a[0] != b[0] then a[0] < b[0]
    else StrLess(a[1..], b[1..])
  }

  /** Behind k equal characters the first ends, or has the smaller character. */
  predicate SmallerAt(a: string, b: string, k: nat) {
    k <= |a| && k < |b| && a[..k] == b[..k] && (k < |a| ==> a[k] < b[k])
  }

  lemma {:induction false} SmallerFirst(a: string, b: string, k: nat)
    requires SmallerAt(a, b, k)
    ensures k > 0 ==> a != "" && b != "" && a[0] == b[0]
  {
    if k > 0 { assert a[0] == a[..k][0] && b[0] == b[..k][0]; }
  }

  /** The order of the dictionary. */
  lemma {:induction false} StrLessIff(a: string, b: string)
    ensures StrLess(a, b) <==> exists k: nat :: SmallerAt(a, b, k)
  {
    if a == "" || b == "" || a[0] != b[0] {
      if b != "" && (a == "" || a[0] < b[0]) { assert SmallerAt(a, b, 0); }
      forall k: nat | SmallerAt(a, b, k) ensures StrLess(a, b) {
        SmallerFirst(a, b, k);
      }
    } else {
      StrLessIff(a[1..], b[1..]);
      if k: nat :| SmallerAt(a[1..], b[1..], k) {
        assert a[..k + 1] == [a[0]] + a[1..][..k] && b[..k + 1] == [b[0]] + b[1..][..k];
        assert SmallerAt(a, b, k + 1);
      }
      if k: nat :| SmallerAt(a, b, k) {
        assert a[1..][..k - 1] == a[..k][1..] && b[1..][..k - 1] == b[..k][1..];
        assert SmallerAt(a[1..], b[1..], k - 1);
      }
    }
  }

  lemma {:induction false} StrLessTotal(a: string, b: string)
    ensures a == b || StrLess(a, b) || StrLess(b, a)
    ensures !(StrLess(a, b) && StrLess(b, a)) && !StrLess(a, a)
  {
    if a != "" && b != "" {
      if a[0] == b[0] {
        StrLessTotal(a[1..], b[1..]);
        assert a == [a[0]] + a[1..] && b == [b[0]] + b[1..];
      }
    }
    if a != "" { StrLessIrreflexive(a); }
  }

  lemma {:induction false} StrLessIrreflexive(a: string)
    ensures !StrLess(a, a)
  {
    if a != "" { StrLessIrreflexive(a[1..]); }
  }

  lemma {:induction false} StrLessTransitive(a: string, b: string, c: string)
    requires StrLess(a, b) && StrLess(b, c)
    ensures StrLess(a, c)
  {
    if a != "" && b[0] == a[0] && b[0] == c[0] { StrLessTransitive(a[1..], b[1..], c[1..]); }
  }

  type KeyMap<V> = seq<(string, V)>

  /** Inserts or overwrites. */
  function Put<V>(m: KeyMap<V>, k: string, v: V): KeyMap<V> {
    if m == [] then [(k, v)]
    else if m[0].0 == k then [(k, v)] + m[1..]
    else if StrLess(k, m[0].0) then [(k, v)] + m
    else [m[0]] + Put(m[1..], k, v)
  }

  ghost predicate SortedKeys<V>(m: KeyMap<V>) {
    forall i, j :: 0 <= i < j < |m| ==> StrLess(m[i].0, m[j].0)
  }

  ghost function ToMap<V>(m: KeyMap<V>): map<string, V> {
    if m == [] then map[] else ToMap(m[1..])[m[0].0 := m[0].1]
  }

  ghost predicate AllAbove<V>(k: string, m: KeyMap<V>) {
    forall i :: 0 <= i < |m| ==> StrLess(k, m[i].0)
  }

  lemma {:induction false} PutAbove<V>(low: string, m: KeyMap<V>, k: string, v: V)
    requires AllAbove(low, m) && StrLess(low, k)
    ensures AllAbove(low, Put(m, k, v))
  {
    if m != [] && m[0].0 != k && !StrLess(k, m[0].0) {
      assert AllAbove(low, m[1..]);
      PutAbove(low, m[1..], k, v);
    }
  }

  lemma {:induction false} PutSorted<V>(m: KeyMap<V>, k: string, v: V)
    requires SortedKeys(m)
    ensures SortedKeys(Put(m, k, v))
  {
    if m != [] {
      assert SortedKeys(m[1..]) && AllAbove(m[0].0, m[1..]);
      StrLessTotal(k, m[0].0);
      if m[0].0 != k && !StrLess(k, m[0].0) {
        PutSorted(m[1..], k, v);
        PutAbove(m[0].0, m[1..], k, v);
      } else if StrLess(k, m[0].0) {
        forall i | 0 <= i < |m| ensures StrLess(k, m[i].0) {
          if i > 0 { StrLessTransitive(k, m[0].0, m[i].0); }
        }
      }
    }
  }

  lemma {:induction false} PutIsUpdate<V>(m: KeyMap<V>, k: string, v: V)
    ensures ToMap(Put(m, k, v)) == ToMap(m)[k := v]
  {
    if m != [] && m[0].0 != k && !StrLess(k, m[0].0) {
      PutIsUpdate(m[1..], k, v);
    }
  }

  lemma {:induction false} KeysOfMap<V>(m: KeyMap<V>, k: string)
    ensures k in ToMap(m) <==> exists i :: 0 <= i < |m| && m[i].0 == k
    ensures k in ToMap(m) ==> exists i :: 0 <= i < |m| && m[i] == (k, ToMap(m)[k])
  {
    if m != [] {
      KeysOfMap(m[1..], k);
      if m[0].0 == k {
        assert m[0] == (k, ToMap(m)[k]);
      } else if k in ToMap(m[1..]) {
        var i :| 0 <= i < |m[1..]| && m[1..][i] == (k, ToMap(m[1..])[k]);
        assert m[i + 1] == (k, ToMap(m)[k]);
      }
      if exists i :: 0 <= i < |m| && m[i].0 == k {
        var i :| 0 <= i < |m| && m[i].0 == k;
        if i > 0 { assert m[1..][i - 1].0 == k; }
      }
    }
  }

  /** The first key of a sorted map is not in the rest. */
  lemma {:induction false} FirstKeyIsNew<V>(m: KeyMap<V>)
    requires SortedKeys(m) && m != []
    ensures m[0].0 !in ToMap(m[1..]) && SortedKeys(m[1..])
    ensures forall k :: k in ToMap(m) ==> k == m[0].0 || StrLess(m[0].0, k)
  {
    forall k | k in ToMap(m[1..]) ensures StrLess(m[0].0, k) && k != m[0].0 {
      KeysOfMap(m[1..], k);
      var i :| 0 <= i < |m[1..]| && m[1..][i].0 == k;
      assert m[i + 1].0 == k;
      StrLessIrreflexive(k);
    }
  }

  lemma {:induction false} EmptyMap<V>(m: KeyMap<V>)
    ensures ToMap(m) == map[] ==> m == []
  {
    if m != [] { assert m[0].0 in ToMap(m); }
  }

  /** Sorted maps with the same entries are the same. */
  lemma {:induction false} SortedIsUnique<V>(a: KeyMap<V>, b: KeyMap<V>)
    requires SortedKeys(a) && SortedKeys(b) && ToMap(a) == ToMap(b)
    ensures a == b
  {
    if a == [] {
      EmptyMap(b);
    } else {
      assert a[0].0 in ToMap(a) && b != [];
      assert b[0].0 in ToMap(b);
      FirstKeyIsNew(a);
      FirstKeyIsNew(b);
      StrLessTotal(a[0].0, b[0].0);
      assert a[0] == b[0];
      assert ToMap(a[1..]) == ToMap(a) - {a[0].0} == ToMap(b[1..]);
      SortedIsUnique(a[1..], b[1..]);
      assert a == [a[0]] + a[1..] && b == [b[0]] + b[1..];
    }
  }

  /** Where an entry goes depends on the keys only. */
  lemma {:induction false} PutAlike<V, W>(a: KeyMap<V>, b: KeyMap<W>, k: string, v: V, w: W)
    requires |a| == |b| && forall i :: 0 <= i < |a| ==> a[i].0 == b[i].0
    ensures |Put(a, k, v)| == |Put(b, k, w)|
    ensures forall i :: 0 <= i < |Put(a, k, v)| ==>
              && Put(a, k, v)[i].0 == Put(b, k, w)[i].0
              && ((Put(a, k, v)[i] == (k, v) && Put(b, k, w)[i] == (k, w))
                  || exists j :: 0 <= j < |a| && Put(a, k, v)[i] == a[j] && Put(b, k, w)[i] == b[j])
  {
    var pa, pb := Put(a, k, v), Put(b, k, w);
    if a != [] && a[0].0 != k && !StrLess(k, a[0].0) {
      PutAlike(a[1..], b[1..], k, v, w);
      forall i | 0 <= i < |pa|
        ensures pa[i].0 == pb[i].0
        ensures (pa[i] == (k, v) && pb[i] == (k, w)) || exists j :: 0 <= j < |a| && pa[i] == a[j] && pb[i] == b[j]
      {
        if i > 0 {
          var ra, rb := Put(a[1..], k, v), Put(b[1..], k, w);
          assert pa[i] == ra[i - 1] && pb[i] == rb[i - 1];
          if !(ra[i - 1] == (k, v) && rb[i - 1] == (k, w)) {
            var j :| 0 <= j < |a[1..]| && ra[i - 1] == a[1..][j] && rb[i - 1] == b[1..][j];
            assert a[j + 1] == a[1..][j] && b[j + 1] == b[1..][j];
          }
        }
      }
    } else {
      forall i | 0 <= i < |pa|
        ensures pa[i].0 == pb[i].0
        ensures (pa[i] == (k, v) && pb[i] == (k, w)) || exists j :: 0 <= j < |a| && pa[i] == a[j] && pb[i] == b[j]
      {
        if i > 0 {
          var j := if a[0].0 == k then i else i - 1;
          assert pa[i] == a[j] && pb[i] == b[j];
        }
      }
    }
  }
}
