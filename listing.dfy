/**
 * A table scanned in primary-key order. IndexedDB keeps every object store
 * and every index sorted by key, with rows of equal index value in
 * primary-key order, so `toArray()` and `where(...).equals(...)` return
 * rows in ascending key order.
 */
module Listing {
  import opened Strings

  predicate StrictlyAscending(s: seq<string>)
  {
    forall i, j :: 0 <= i < j < |s| ==> LexLt(s[i], s[j])
  }

  /** The least key of a set: below or equal to every key in it. */
  predicate IsLeast(k: string, keys: set<string>)
  {
    k in keys && forall j :: j in keys ==> LexLe(k, j)
  }

  /** Every finite non-empty set of keys has a least key. */
  lemma {:induction false} LeastExists(keys: set<string>)
    requires keys != {}
    ensures exists k :: IsLeast(k, keys)
    decreases |keys|
  {
    var x :| x in keys;
    if keys == {x} {
      LexLeReflexive(x);
      assert IsLeast(x, keys);
    } else {
      LeastExists(keys - {x});
      var m :| IsLeast(m, keys - {x});
      LexLeTotal(x, m);
      if LexLe(x, m) {
        forall j | j in keys
          ensures LexLe(x, j)
        {
          if j == x {
            LexLeReflexive(x);
          } else {
            LexLeTransitive(x, m, j);
          }
        }
        assert IsLeast(x, keys);
      } else {
        forall j | j in keys
          ensures LexLe(m, j)
        {
          if j != x {
            assert j in keys - {x};
          }
        }
        assert IsLeast(m, keys);
      }
    }
  }

  /** A set has at most one least key. */
  lemma LeastUnique(keys: set<string>)
    ensures forall a, b :: IsLeast(a, keys) && IsLeast(b, keys) ==> a == b
  {
    forall a, b | IsLeast(a, keys) && IsLeast(b, keys)
      ensures a == b
    {
      LexLeAntisymmetric(a, b);
    }
  }

  /** The keys in ascending order. */
  function SortedKeys(keys: set<string>): (s: seq<string>)
    ensures |s| == |keys|
    ensures forall k :: k in s <==> k in keys
    decreases |keys|
  {
    if keys == {} then []
    else
      LeastExists(keys);
      LeastUnique(keys);
      var k :| IsLeast(k, keys);
      [k] + SortedKeys(keys - {k})
  }

  /** The keys come out strictly ascending. */
  lemma {:induction false} SortedKeysAscending(keys: set<string>)
    ensures StrictlyAscending(SortedKeys(keys))
    decreases |keys|
  {
    if keys != {} {
      var s := SortedKeys(keys);
      var k := s[0];
      var rest := SortedKeys(keys - {k});
      assert s == [k] + rest;
      assert IsLeast(k, keys) by {
        LeastExists(keys);
        LeastUnique(keys);
      }
      SortedKeysAscending(keys - {k});
      forall i, j | 0 <= i < j < |s|
        ensures LexLt(s[i], s[j])
      {
        if i == 0 {
          assert s[j] == rest[j - 1] && s[j] in keys - {k};
        } else {
          assert s[i] == rest[i - 1] && s[j] == rest[j - 1];
        }
      }
    }
  }

  /** The rows of a table in primary-key order. */
  function Rows<R(==)>(t: map<string, R>): (rows: seq<R>)
    ensures |rows| == |t|
    ensures forall i :: 0 <= i < |rows| ==> rows[i] in t.Values
    ensures forall k :: k in t ==> t[k] in rows
  {
    var keys := SortedKeys(t.Keys);
    var rows := seq(|keys|, i requires 0 <= i < |keys| => t[keys[i]]);
    forall k | k in t
      ensures t[k] in rows
    {
      var i :| 0 <= i < |keys| && keys[i] == k;
      assert rows[i] == t[k];
    }
    rows
  }

  /** Keys of sorted rows list keys in ascending order. */
  lemma RowsAreKeyOrdered<R>(t: map<string, R>, key: R -> string)
    requires forall k :: k in t ==> key(t[k]) == k
    ensures var rows := Rows(t); forall i, j :: 0 <= i < j < |rows| ==> LexLt(key(rows[i]), key(rows[j]))
  {
    var keys := SortedKeys(t.Keys);
    var rows := Rows(t);
    SortedKeysAscending(t.Keys);
    forall i, j | 0 <= i < j < |rows|
      ensures LexLt(key(rows[i]), key(rows[j]))
    {
      assert rows[i] == t[keys[i]] && rows[j] == t[keys[j]];
    }
  }
}
