/**
 Keep-first deduplication of a sequence by a key: the plain definition that both the outbox
 replay and the courier index are measured against.
 */
module FirstSeen {

  /** The keys carried by a sequence, as a set. */
  ghost function KeySet<T, K>(s: seq<T>, key: T -> K): set<K> {
    set i | 0 <= i < |s| :: key(s[i])
  }

  /** The keys carried by a sequence, in order. */
  ghost function Keys<T, K>(s: seq<T>, key: T -> K): seq<K> {
    seq(|s|, i requires 0 <= i < |s| => key(s[i]))
  }

  /** The elements whose key no earlier element carries, in order. */
  ghost function FirstBy<T, K>(s: seq<T>, key: T -> K): (r: seq<T>)
    ensures |r| <= |s|
  {
    if s == [] then []
    else
      var init, last := s[..|s| - 1], s[|s| - 1];
      if key(last) in KeySet(init, key) then FirstBy(init, key) else FirstBy(init, key) + [last]
  }

  ghost predicate Distinct<K>(s: seq<K>) {
    forall i, j :: 0 <= i < j < |s| ==> s[i] != s[j]
  }

  lemma KeySetSnoc<T, K>(s: seq<T>, x: T, key: T -> K)
    ensures KeySet(s + [x], key) == KeySet(s, key) + {key(x)}
  {
    var t := s + [x];
    assert forall i :: 0 <= i < |s| ==> t[i] == s[i];
    forall k | k in KeySet(s, key) + {key(x)} ensures k in KeySet(t, key) {
      if k == key(x) {
        assert key(t[|s|]) == k;
      } else {
        var i :| 0 <= i < |s| && key(s[i]) == k;
        assert key(t[i]) == k;
      }
    }
  }

  lemma FirstBySnoc<T, K>(s: seq<T>, x: T, key: T -> K)
    ensures FirstBy(s + [x], key)
         == if key(x) in KeySet(s, key) then FirstBy(s, key) else FirstBy(s, key) + [x]
  {
    assert (s + [x])[..|s|] == s;
  }

  lemma KeysSnoc<T, K>(s: seq<T>, x: T, key: T -> K)
    ensures Keys(s + [x], key) == Keys(s, key) + [key(x)]
  {
  }

  lemma DistinctSnoc<K>(s: seq<K>, x: K)
    requires Distinct(s) && x !in s
    ensures Distinct(s + [x])
  {
  }

  lemma KeysAndKeySet<T, K>(s: seq<T>, key: T -> K, k: K)
    ensures k in Keys(s, key) <==> k in KeySet(s, key)
  {
    if k in KeySet(s, key) {
      var i :| 0 <= i < |s| && key(s[i]) == k;
      assert Keys(s, key)[i] == k;
    }
  }

  /** Keep-first keeps every key, exactly once, and keeps nothing that was not there. */
  lemma {:induction false} FirstByKeepsEachKeyOnce<T, K>(s: seq<T>, key: T -> K)
    ensures Distinct(Keys(FirstBy(s, key), key))
    ensures KeySet(FirstBy(s, key), key) == KeySet(s, key)
    ensures |FirstBy(s, key)| == |KeySet(s, key)|
    ensures forall x :: x in FirstBy(s, key) ==> x in s
  {
    if s == [] {
    } else {
      var init, last := s[..|s| - 1], s[|s| - 1];
      assert s == init + [last];
      var kept := FirstBy(init, key);
      FirstByKeepsEachKeyOnce(init, key);
      KeySetSnoc(init, last, key);
      FirstBySnoc(init, last, key);
      if key(last) in KeySet(init, key) {
        assert KeySet(s, key) == KeySet(init, key);
      } else {
        KeySetSnoc(kept, last, key);
        KeysSnoc(kept, last, key);
        KeysAndKeySet(kept, key, key(last));
        DistinctSnoc(Keys(kept, key), key(last));
      }
    }
  }

  /** There are as many keys as elements exactly when no key repeats. */
  lemma {:induction false} AsManyKeysIffDistinct<T, K>(s: seq<T>, key: T -> K)
    ensures |KeySet(s, key)| <= |s|
    ensures |KeySet(s, key)| == |s| <==> Distinct(Keys(s, key))
  {
    if s == [] {
    } else {
      var init, last := s[..|s| - 1], s[|s| - 1];
      assert s == init + [last];
      AsManyKeysIffDistinct(init, key);
      KeySetSnoc(init, last, key);
      KeysSnoc(init, last, key);
      KeysAndKeySet(init, key, key(last));
      var keys := Keys(init, key);
      if key(last) !in keys && Distinct(keys) {
        DistinctSnoc(keys, key(last));
      } else if key(last) in keys {
        var i :| 0 <= i < |keys| && keys[i] == key(last);
        assert Keys(s, key)[i] == Keys(s, key)[|init|];
        assert KeySet(s, key) == KeySet(init, key);
      } else {
        var i, j :| 0 <= i < j < |keys| && keys[i] == keys[j];
        assert Keys(s, key)[i] == Keys(s, key)[j];
      }
    }
  }

  /** A kept element is the first one that carries its key. */
  lemma {:induction false} KeptIsEarliest<T, K>(s: seq<T>, key: T -> K, x: T) returns (i: nat)
    requires x in FirstBy(s, key)
    ensures i < |s| && s[i] == x && forall j :: 0 <= j < i ==> key(s[j]) != key(x)
  {
    var init, last := s[..|s| - 1], s[|s| - 1];
    if x in FirstBy(init, key) {
      i := KeptIsEarliest(init, key, x);
    } else {
      i := |init|;
      assert forall j :: 0 <= j < i ==> key(init[j]) in KeySet(init, key);
    }
  }

  /** Sequences with the same elements carry the same keys. */
  lemma SameElementsSameKeys<T, K>(s: seq<T>, t: seq<T>, key: T -> K)
    requires forall x :: x in s <==> x in t
    ensures KeySet(s, key) == KeySet(t, key)
  {
    assert forall i :: 0 <= i < |s| ==> s[i] in t;
    assert forall i :: 0 <= i < |t| ==> t[i] in s;
  }
}
