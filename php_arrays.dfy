/**
 * PHP ordered arrays as lists of entries. An entry has either a string key or
 * an integer (positional) key; `array_merge` renumbers the integer keys, so
 * only their order matters and they are modelled by `None`.
 */
module PhpArrays {
  import opened Wrappers

  datatype Entry<V> = Entry(key: Option<string>, value: V)

  /** A PHP array never holds the same string key twice. */
  predicate UniqueKeys<V>(a: seq<Entry<V>>)
  {
    forall i, j :: 0 <= i < j < |a| && a[i].key.Some? ==> a[i].key != a[j].key
  }

  /** The string keys of `a`. */
  function StringKeys<V>(a: seq<Entry<V>>): set<string>
  {
    set i | 0 <= i < |a| && a[i].key.Some? :: a[i].key.value
  }

  /** The values stored under integer keys, in order. */
  function Positional<V>(a: seq<Entry<V>>): (r: seq<V>)
    ensures |r| <= |a|
  {
    if a == [] then []
    else (if a[0].key.None? then [a[0].value] else []) + Positional(a[1..])
  }

  /** Position of the first entry with string key `k`. */
  function IndexOfKey<V>(a: seq<Entry<V>>, k: string): (r: Option<nat>)
    ensures r.Some? ==> r.value < |a| && a[r.value].key == Some(k)
    ensures r.None? ==> forall j :: 0 <= j < |a| ==> a[j].key != Some(k)
  {
    if a == [] then None
    else if a[0].key == Some(k) then Some(0)
    else match IndexOfKey(a[1..], k)
      case None => None
      case Some(i) => Some(i + 1)
  }

  /** The value under string key `k`, if any. */
  function Lookup<V>(a: seq<Entry<V>>, k: string): Option<V>
  {
    match IndexOfKey(a, k)
    case None => None
    case Some(i) => Some(a[i].value)
  }

  /**
   * One step of `array_merge`: an integer-keyed entry is appended; a string
   * key already present keeps its position and takes the new value; a new
   * string key is appended.
   */
  function Put<V>(a: seq<Entry<V>>, e: Entry<V>): (r: seq<Entry<V>>)
  {
    match e.key
    case None => a + [e]
    case Some(k) =>
      match IndexOfKey(a, k)
      case Some(i) => a[i := e]
      case None => a + [e]
  }

  /** `array_merge($a, $b)`. */
  function ArrayMerge<V>(a: seq<Entry<V>>, b: seq<Entry<V>>): seq<Entry<V>>
    decreases |b|
  {
    if b == [] then a else ArrayMerge(Put(a, b[0]), b[1..])
  }

  /**
   * The merge keeps every entry of `a` at its position (under the same key),
   * adds at most the entries of `b`, and is empty only when both inputs are.
   */
  lemma {:induction false} MergeShape<V>(a: seq<Entry<V>>, b: seq<Entry<V>>)
    ensures var r := ArrayMerge(a, b);
      && |a| <= |r| <= |a| + |b|
      && (forall i :: 0 <= i < |a| ==> r[i].key == a[i].key)
      && (r == [] <==> a == [] && b == [])
    decreases |b|
  {
    if b != [] {
      var p := Put(a, b[0]);
      assert |a| <= |p| <= |a| + 1 && forall i :: 0 <= i < |a| ==> p[i].key == a[i].key;
      MergeShape(p, b[1..]);
    }
  }

  /** Entries under integer keys are all kept: those of `a`, then those of `b`. */
  lemma {:induction false} MergePositional<V>(a: seq<Entry<V>>, b: seq<Entry<V>>)
    ensures Positional(ArrayMerge(a, b)) == Positional(a) + Positional(b)
    decreases |b|
  {
    if b != [] {
      var x, y, z := Positional(a), Positional([b[0]]), Positional(b[1..]);
      PutPositional(a, b[0]);
      MergePositional(Put(a, b[0]), b[1..]);
      PositionalCons(b);
      assert (x + y) + z == x + (y + z);
    }
  }

  lemma PutPositional<V>(a: seq<Entry<V>>, e: Entry<V>)
    ensures Positional(Put(a, e)) == Positional(a) + Positional([e])
  {
    match e.key {
      case None =>
        PositionalAppend(a, e);
      case Some(k) =>
        match IndexOfKey(a, k) {
          case Some(i) => PositionalUpdate(a, i, e);
          case None => PositionalAppend(a, e);
        }
    }
  }

  lemma PositionalCons<V>(b: seq<Entry<V>>)
    requires b != []
    ensures Positional(b) == Positional([b[0]]) + Positional(b[1..])
  {
    assert b == [b[0]] + b[1..];
    PositionalConcat([b[0]], b[1..]);
  }

  /** With unique string keys on both sides, each key of the merge holds the value of `b` when `b` has it, else that of `a`. */
  lemma {:induction false} MergeLookup<V>(a: seq<Entry<V>>, b: seq<Entry<V>>, k: string)
    requires UniqueKeys(a) && UniqueKeys(b)
    ensures UniqueKeys(ArrayMerge(a, b))
    ensures StringKeys(ArrayMerge(a, b)) == StringKeys(a) + StringKeys(b)
    ensures Lookup(ArrayMerge(a, b), k) == if Lookup(b, k).Some? then Lookup(b, k) else Lookup(a, k)
    decreases |b|
  {
    if b == [] {
      assert StringKeys(b) == {};
    } else {
      var p := Put(a, b[0]);
      PutFacts(a, b[0], k);
      assert UniqueKeys(b[1..]) by {
        forall i, j | 0 <= i < j < |b[1..]| && b[1..][i].key.Some?
          ensures b[1..][i].key != b[1..][j].key
        {
          assert b[i + 1] == b[1..][i] && b[j + 1] == b[1..][j];
        }
      }
      MergeLookup(p, b[1..], k);
      assert StringKeys(b) == StringKeys([b[0]]) + StringKeys(b[1..]) by {
        forall x | x in StringKeys(b) ensures x in StringKeys([b[0]]) + StringKeys(b[1..]) {
          var i :| 0 <= i < |b| && b[i].key.Some? && b[i].key.value == x;
          if i > 0 {
            assert b[1..][i - 1] == b[i];
          } else {
            assert [b[0]][0] == b[0];
          }
        }
        forall x | x in StringKeys(b[1..]) ensures x in StringKeys(b) {
          var i :| 0 <= i < |b[1..]| && b[1..][i].key.Some? && b[1..][i].key.value == x;
          assert b[i + 1] == b[1..][i];
        }
      }
      // b's later entries never repeat the key of its first one
      if b[0].key == Some(k) {
        assert Lookup(b[1..], k).None? by {
          forall j | 0 <= j < |b[1..]| ensures b[1..][j].key != Some(k) {
            assert b[1..][j] == b[j + 1];
          }
        }
      }
      LookupTail(b, k);
    }
  }

  /**
   * An entry of `b` under a string key that no later entry of `b` repeats is
   * found, unchanged, in the merge, whatever `a` holds.
   */
  lemma {:induction false} MergeKeepsLast<V>(a: seq<Entry<V>>, b: seq<Entry<V>>, i: nat)
    requires i < |b| && b[i].key.Some?
    requires forall j :: i < j < |b| ==> b[j].key != b[i].key
    ensures b[i] in ArrayMerge(a, b)
    decreases |b|
  {
    var p := Put(a, b[0]);
    if i == 0 {
      PutHolds(a, b[0]);
      forall j | 0 <= j < |b[1..]| ensures b[1..][j].key != b[0].key {
        assert b[1..][j] == b[j + 1];
      }
      MergeKeeps(p, b[1..], b[0]);
    } else {
      assert b[1..][i - 1] == b[i];
      forall j | i - 1 < j < |b[1..]| ensures b[1..][j].key != b[1..][i - 1].key {
        assert b[1..][j] == b[j + 1];
      }
      MergeKeepsLast(p, b[1..], i - 1);
    }
  }

  lemma PutHolds<V>(a: seq<Entry<V>>, e: Entry<V>)
    ensures e in Put(a, e)
  {
    match e.key
    case None =>
      assert Put(a, e)[|a|] == e;
    case Some(k) =>
      match IndexOfKey(a, k)
      case Some(i) => assert Put(a, e)[i] == e;
      case None => assert Put(a, e)[|a|] == e;
  }

  /** A keyed entry of `a` survives the merge when `b` never uses its key. */
  lemma {:induction false} MergeKeeps<V>(a: seq<Entry<V>>, b: seq<Entry<V>>, e: Entry<V>)
    requires e in a && e.key.Some?
    requires forall j :: 0 <= j < |b| ==> b[j].key != e.key
    ensures e in ArrayMerge(a, b)
    decreases |b|
  {
    if b != [] {
      var p := Put(a, b[0]);
      var m :| 0 <= m < |a| && a[m] == e;
      match b[0].key {
        case None =>
          assert p[m] == e;
        case Some(k) =>
          match IndexOfKey(a, k) {
            case Some(idx) =>
              assert idx != m;
              assert p[m] == e;
            case None =>
              assert p[m] == e;
          }
      }
      forall j | 0 <= j < |b[1..]| ensures b[1..][j].key != e.key {
        assert b[1..][j] == b[j + 1];
      }
      MergeKeeps(p, b[1..], e);
    }
  }

  // ---------------------------------------------------------------------------
  // Helpers

  lemma {:induction false} PositionalConcat<V>(a: seq<Entry<V>>, b: seq<Entry<V>>)
    ensures Positional(a + b) == Positional(a) + Positional(b)
  {
    if a == [] {
      assert a + b == b;
    } else {
      var c := a + b;
      var head := if a[0].key.None? then [a[0].value] else [];
      assert c[0] == a[0] && c[1..] == a[1..] + b;
      assert Positional(c) == head + Positional(a[1..] + b);
      PositionalConcat(a[1..], b);
      assert Positional(a) == head + Positional(a[1..]);
    }
  }

  lemma PositionalAppend<V>(a: seq<Entry<V>>, e: Entry<V>)
    ensures Positional(a + [e]) == Positional(a) + Positional([e])
  {
    PositionalConcat(a, [e]);
  }

  lemma {:induction false} PositionalUpdate<V>(a: seq<Entry<V>>, i: nat, e: Entry<V>)
    requires i < |a| && a[i].key.Some? && e.key.Some?
    ensures Positional(a[i := e]) == Positional(a) + Positional([e])
  {
    assert Positional([e]) == [];
    if i > 0 {
      assert a[i := e][1..] == a[1..][i - 1 := e];
      PositionalUpdate(a[1..], i - 1, e);
    } else {
      assert a[i := e][1..] == a[1..];
    }
  }

  lemma PutFacts<V>(a: seq<Entry<V>>, e: Entry<V>, k: string)
    requires UniqueKeys(a)
    ensures UniqueKeys(Put(a, e))
    ensures StringKeys(Put(a, e)) == StringKeys(a) + StringKeys([e])
    ensures Lookup(Put(a, e), k) == if e.key == Some(k) then Some(e.value) else Lookup(a, k)
  {
    var p := Put(a, e);
    match e.key
    case None =>
      assert StringKeys([e]) == {};
      assert forall i :: 0 <= i < |a| ==> p[i] == a[i];
      LookupPrefix(a, p, k);
    case Some(x) =>
      assert [e][0] == e;
      assert StringKeys([e]) == {x};
      match IndexOfKey(a, x)
      case Some(i) =>
        assert StringKeys(p) == StringKeys(a) by {
          forall y | y in StringKeys(a) ensures y in StringKeys(p) {
            var j :| 0 <= j < |a| && a[j].key.Some? && a[j].key.value == y;
            assert p[j].key == a[j].key;
          }
        }
        if x == k {
          FirstKey(p, i, k);
        } else {
          LookupSameKeys(a, p, k);
        }
      case None =>
        assert forall i :: 0 <= i < |a| ==> p[i] == a[i];
        if x == k {
          assert IndexOfKey(p, k) == Some(|a|) by {
            IndexOfKeyNone(a, p, k);
          }
        } else {
          LookupPrefix(a, p, k);
        }
  }

  /** The first match of `k` is at `i` when `i` is the only position holding `k`. */
  lemma FirstKey<V>(a: seq<Entry<V>>, i: nat, k: string)
    requires i < |a| && a[i].key == Some(k) && UniqueKeys(a)
    ensures Lookup(a, k) == Some(a[i].value)
  {
    forall j | 0 <= j < |a| && j != i
      ensures a[j].key != Some(k)
    {
      if j < i {
        assert a[j].key != a[i].key;
      } else {
        assert a[i].key != a[j].key;
      }
    }
  }

  lemma {:induction false} IndexOfKeyNone<V>(a: seq<Entry<V>>, p: seq<Entry<V>>, k: string)
    requires |p| == |a| + 1 && p[|a|].key == Some(k)
    requires forall i :: 0 <= i < |a| ==> p[i] == a[i] && a[i].key != Some(k)
    ensures IndexOfKey(p, k) == Some(|a|)
  {
    if a != [] {
      IndexOfKeyNone(a[1..], p[1..], k);
    }
  }

  /** Appending an entry with another key does not change the lookup of `k`. */
  lemma {:induction false} LookupPrefix<V>(a: seq<Entry<V>>, p: seq<Entry<V>>, k: string)
    requires |p| == |a| + 1
    requires forall i :: 0 <= i < |a| ==> p[i] == a[i]
    requires p[|a|].key != Some(k)
    ensures Lookup(p, k) == Lookup(a, k)
    ensures IndexOfKey(p, k) == IndexOfKey(a, k)
  {
    if a != [] {
      LookupPrefix(a[1..], p[1..], k);
    }
  }

  /** Replacing the value of another key does not change the lookup of `k`. */
  lemma {:induction false} LookupSameKeys<V>(a: seq<Entry<V>>, p: seq<Entry<V>>, k: string)
    requires |p| == |a|
    requires forall i :: 0 <= i < |a| ==> p[i].key == a[i].key
    requires forall i :: 0 <= i < |a| && a[i].key == Some(k) ==> p[i] == a[i]
    ensures Lookup(p, k) == Lookup(a, k)
    ensures IndexOfKey(p, k) == IndexOfKey(a, k)
  {
    if a != [] {
      LookupSameKeys(a[1..], p[1..], k);
    }
  }

  lemma LookupTail<V>(b: seq<Entry<V>>, k: string)
    requires b != []
    ensures Lookup(b, k) == if b[0].key == Some(k) then Some(b[0].value) else Lookup(b[1..], k)
  {
  }
}
