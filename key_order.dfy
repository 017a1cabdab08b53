/**
 * `ksort` on arrays whose keys are non-numeric strings: the keys are compared
 * byte by byte, as `strcmp` does, a proper prefix sorting first. (A decimal
 * key such as "123" is stored by PHP as an integer and ordered by value;
 * such keys are not modelled.) A sorted listing of a map is unique,
 * so the result of `ksort` depends only on the key/value pairs, not on the
 * order in which they were inserted.
 */
module KeyOrder {

  /** The byte-wise string order of `strcmp`. */
  predicate Less(a: string, b: string)
    decreases |a|
  {
    if a == [] then b != []
    else if b == [] then false
    else if a[0] != b[0] then a[0] < b[0]
    else Less(a[1..], b[1..])
  }

  lemma {:induction false} LessIrreflexive(a: string)
    ensures !Less(a, a)
    decreases |a|
  {
    if a != [] {
      LessIrreflexive(a[1..]);
    }
  }

  lemma {:induction false} LessAsymmetric(a: string, b: string)
    ensures Less(a, b) ==> !Less(b, a)
    decreases |a|
  {
    if a != [] && b != [] && a[0] == b[0] {
      LessAsymmetric(a[1..], b[1..]);
    }
  }

  lemma {:induction false} LessTransitive(a: string, b: string, c: string)
    requires Less(a, b) && Less(b, c)
    ensures Less(a, c)
    decreases |a|
  {
    if a != [] && a[0] == b[0] && b[0] == c[0] {
      LessTransitive(a[1..], b[1..], c[1..]);
    }
  }

  lemma {:induction false} LessTotal(a: string, b: string)
    ensures a == b || Less(a, b) || Less(b, a)
    decreases |a|
  {
    if a != [] && b != [] && a[0] == b[0] {
      LessTotal(a[1..], b[1..]);
      if a[1..] == b[1..] {
        assert a == [a[0]] + a[1..] && b == [b[0]] + b[1..];
      }
    }
  }

  /** Keys strictly increase along the listing (so no key repeats). */
  predicate StrictlySorted<V>(s: seq<(string, V)>)
  {
    forall i, j :: 0 <= i < j < |s| ==> Less(s[i].0, s[j].0)
  }

  function KeysOf<V>(s: seq<(string, V)>): set<string>
  {
    set i | 0 <= i < |s| :: s[i].0
  }

  /** `s` lists exactly the pairs of `m`, in key order. */
  predicate IsKSortOf<V(==)>(s: seq<(string, V)>, m: map<string, V>)
  {
    && StrictlySorted(s)
    && KeysOf(s) == m.Keys
    && forall i :: 0 <= i < |s| ==> m[s[i].0] == s[i].1
  }

  /** Inserts a pair under a new key at its place in a sorted listing. */
  function InsertByKey<V(==)>(s: seq<(string, V)>, k: string, v: V): (r: seq<(string, V)>)
    requires StrictlySorted(s) && k !in KeysOf(s)
    ensures StrictlySorted(r)
    ensures KeysOf(r) == KeysOf(s) + {k}
    ensures forall i :: 0 <= i < |r| ==> (r[i] == (k, v) || r[i] in s)
  {
    if s == [] then
      assert [(k, v)][0] == (k, v);
      [(k, v)]
    else if Less(k, s[0].0) then
      var r := [(k, v)] + s;
      assert StrictlySorted(r) by {
        forall j | 1 <= j < |r| ensures Less(k, r[j].0) {
          if j > 1 {
            LessTransitive(k, s[0].0, s[j - 1].0);
          }
        }
      }
      assert KeysOf(r) == KeysOf(s) + {k} by {
        assert forall i :: 0 <= i < |s| ==> r[i + 1] == s[i];
        assert r[0].0 == k;
      }
      r
    else
      assert k != s[0].0 by {
        assert s[0].0 in KeysOf(s);
      }
      LessTotal(k, s[0].0);
      assert k !in KeysOf(s[1..]) by {
        forall i | 0 <= i < |s[1..]| ensures s[1..][i].0 != k {
          assert s[1..][i] == s[i + 1];
          assert s[i + 1].0 in KeysOf(s);
        }
      }
      var tail := InsertByKey(s[1..], k, v);
      var r := [s[0]] + tail;
      assert StrictlySorted(r) by {
        forall j | 1 <= j < |r| ensures Less(s[0].0, r[j].0) {
          assert r[j] == tail[j - 1];
          if r[j] != (k, v) {
            var n :| 0 <= n < |s[1..]| && s[1..][n] == r[j];
            assert s[n + 1] == r[j];
          }
        }
      }
      assert KeysOf(r) == KeysOf(s) + {k} by {
        KeysOfCons(s[0], s[1..]);
        assert [s[0]] + s[1..] == s;
        KeysOfCons(s[0], tail);
      }
      assert forall i :: 0 <= i < |r| ==> (r[i] == (k, v) || r[i] in s) by {
        forall i | 0 <= i < |r| ensures r[i] == (k, v) || r[i] in s {
          if i > 0 {
            assert r[i] == tail[i - 1];
            if r[i] != (k, v) {
              assert r[i] in s[1..];
            }
          }
        }
      }
      r
  }

  lemma KeysOfCons<V>(x: (string, V), t: seq<(string, V)>)
    ensures KeysOf([x] + t) == {x.0} + KeysOf(t)
  {
    var r := [x] + t;
    assert r[0] == x;
    forall y | y in KeysOf(r) ensures y in {x.0} + KeysOf(t) {
      var i :| 0 <= i < |r| && r[i].0 == y;
      if i > 0 {
        assert r[i] == t[i - 1];
      }
    }
    forall y | y in KeysOf(t) ensures y in KeysOf(r) {
      var i :| 0 <= i < |t| && t[i].0 == y;
      assert r[i + 1] == t[i];
    }
  }

  /** `ksort`: the pairs of `m` listed in key order. */
  method KSort<V(==)>(m: map<string, V>) returns (s: seq<(string, V)>)
    ensures IsKSortOf(s, m)
  {
    s := [];
    var rest := m.Keys;
    while rest != {}
      invariant rest <= m.Keys
      invariant StrictlySorted(s)
      invariant KeysOf(s) == m.Keys - rest
      invariant forall i :: 0 <= i < |s| ==> s[i].0 in m && m[s[i].0] == s[i].1
      decreases rest
    {
      var k :| k in rest;
      ghost var before := s;
      s := InsertByKey(s, k, m[k]);
      rest := rest - {k};
      forall i | 0 <= i < |s| ensures s[i].0 in m && m[s[i].0] == s[i].1 {
        if s[i] != (k, m[k]) {
          var j :| 0 <= j < |before| && before[j] == s[i];
        }
      }
    }
  }

  /**
   * Two sorted listings of the same map are equal: the first pair of each
   * holds the least key, and the rest lists what remains.
   */
  lemma {:induction false} KSortUnique<V>(s: seq<(string, V)>, t: seq<(string, V)>, m: map<string, V>)
    requires IsKSortOf(s, m) && IsKSortOf(t, m)
    ensures s == t
    decreases |s|
  {
    EmptyListing(s, m);
    EmptyListing(t, m);
    if s != [] {
      assert s[0].0 in KeysOf(t) by {
        assert s[0].0 in KeysOf(s);
      }
      var j :| 0 <= j < |t| && t[j].0 == s[0].0;
      var i :| 0 <= i < |s| && s[i].0 == t[0].0 by {
        assert t[0].0 in KeysOf(t);
      }
      if j != 0 {
        assert Less(t[0].0, s[0].0);
        if i == 0 {
          LessIrreflexive(t[0].0);
        } else {
          LessAsymmetric(s[0].0, s[i].0);
        }
      }
      assert s[0] == t[0];
      var k := s[0].0;
      var m' := m - {k};
      assert IsKSortOf(s[1..], m') by {
        TailListing(s, m);
      }
      assert IsKSortOf(t[1..], m') by {
        TailListing(t, m);
      }
      KSortUnique(s[1..], t[1..], m');
    }
  }

  lemma EmptyListing<V>(s: seq<(string, V)>, m: map<string, V>)
    requires IsKSortOf(s, m)
    ensures s == [] <==> m.Keys == {}
  {
    if s != [] {
      assert s[0].0 in KeysOf(s);
    }
  }

  lemma TailListing<V>(s: seq<(string, V)>, m: map<string, V>)
    requires IsKSortOf(s, m) && s != []
    ensures IsKSortOf(s[1..], m - {s[0].0})
  {
    var m' := m - {s[0].0};
    forall x | x in KeysOf(s[1..]) ensures x in m'.Keys {
      var i :| 0 <= i < |s[1..]| && s[1..][i].0 == x;
      assert s[i + 1] == s[1..][i];
      LessIrreflexive(x);
    }
    forall x | x in m'.Keys ensures x in KeysOf(s[1..]) {
      assert x in KeysOf(s);
      var i :| 0 <= i < |s| && s[i].0 == x;
      assert s[1..][i - 1] == s[i];
    }
  }
}
