/**
  Raw byte-value ordering of byte strings (what `strcmp` and
  `ksort(SORT_STRING)` compare by), and the ordered association lists the
  model uses for PHP arrays keyed by strings: assignment to a key
  (`$values[$key] = ...`) and sorting by key (`ksort`).
*/
module ByteOrder {
  import opened Decimal

  /** `a` sorts strictly before `b` byte by byte: `strcmp(a, b) < 0`. */
  predicate Less(a: seq<byte>, b: seq<byte>)
    decreases |a|
  {
    if a == [] then b != []
    else b != [] && (a[0] < b[0] || (a[0] == b[0] && Less(a[1..], b[1..])))
  }

  lemma {:induction false} LessIrreflexive(a: seq<byte>)
    ensures !Less(a, a)
    decreases |a|
  {
    if a != [] {
      LessIrreflexive(a[1..]);
    }
  }

  lemma {:induction false} LessAsymmetric(a: seq<byte>, b: seq<byte>)
    requires Less(a, b)
    ensures !Less(b, a)
    decreases |a|
  {
    if a != [] && b != [] && a[0] == b[0] {
      LessAsymmetric(a[1..], b[1..]);
    }
  }

  lemma {:induction false} LessTransitive(a: seq<byte>, b: seq<byte>, c: seq<byte>)
    requires Less(a, b) && Less(b, c)
    ensures Less(a, c)
    decreases |a|
  {
    if a != [] && a[0] == b[0] && b[0] == c[0] {
      LessTransitive(a[1..], b[1..], c[1..]);
    }
  }

  lemma {:induction false} LessTotal(a: seq<byte>, b: seq<byte>)
    requires a != b
    ensures Less(a, b) || Less(b, a)
    decreases |a|
  {
    if a != [] && b != [] && a[0] == b[0] {
      assert a == [a[0]] + a[1..] && b == [b[0]] + b[1..];
      LessTotal(a[1..], b[1..]);
    }
  }

  /** The keys of an association list, in order. */
  function Keys<V>(es: seq<(seq<byte>, V)>): (r: seq<seq<byte>>)
    ensures |r| == |es|
    ensures forall k :: 0 <= k < |es| ==> r[k] == es[k].0
  {
    if es == [] then [] else [es[0].0] + Keys(es[1..])
  }

  predicate DistinctKeys<V>(es: seq<(seq<byte>, V)>) {
    forall j, k :: 0 <= j < k < |es| ==> es[j].0 != es[k].0
  }

  /** Keys strictly increasing in byte order: the canonical dictionary order. */
  predicate StrictlySorted<V>(es: seq<(seq<byte>, V)>) {
    forall j, k :: 0 <= j < k < |es| ==> Less(es[j].0, es[k].0)
  }

  predicate HasKey<V>(es: seq<(seq<byte>, V)>, key: seq<byte>) {
    exists k :: 0 <= k < |es| && es[k].0 == key
  }

  lemma StrictlySortedDistinct<V>(es: seq<(seq<byte>, V)>)
    requires StrictlySorted(es)
    ensures DistinctKeys(es)
  {
    forall j, k | 0 <= j < k < |es| ensures es[j].0 != es[k].0 {
      if es[j].0 == es[k].0 {
        LessIrreflexive(es[j].0);
      }
    }
  }

  /**
    `$values[$key] = $value` on a PHP array: an existing key keeps its
    position and takes the new value, a new key is appended.
  */
  function Put<V>(es: seq<(seq<byte>, V)>, key: seq<byte>, v: V): (r: seq<(seq<byte>, V)>)
    ensures |es| <= |r| <= |es| + 1
    decreases |es|
  {
    if es == [] then [(key, v)]
    else if es[0].0 == key then [(key, v)] + es[1..]
    else [es[0]] + Put(es[1..], key, v)
  }

  /** What Put does to an association list without duplicate keys: overwrite in place or append, nothing else. */
  lemma {:induction false} PutContents<V>(es: seq<(seq<byte>, V)>, key: seq<byte>, v: V)
    requires DistinctKeys(es)
    ensures var r := Put(es, key, v);
      && (!HasKey(es, key) ==> r == es + [(key, v)])
      && (HasKey(es, key) ==> |r| == |es|)
      && (forall k :: 0 <= k < |es| && es[k].0 == key ==> r[k] == (key, v))
      && (forall k :: 0 <= k < |es| && es[k].0 != key ==> k < |r| && r[k] == es[k])
      && (forall k :: 0 <= k < |r| ==> r[k].0 == key || (k < |es| && r[k] == es[k]))
    decreases |es|
  {
    if es != [] && es[0].0 != key {
      assert HasKey(es, key) ==> HasKey(es[1..], key);
      assert HasKey(es[1..], key) ==> HasKey(es, key);
      PutContents(es[1..], key, v);
    }
  }

  lemma PutDistinct<V>(es: seq<(seq<byte>, V)>, key: seq<byte>, v: V)
    requires DistinctKeys(es)
    ensures DistinctKeys(Put(es, key, v))
    ensures HasKey(Put(es, key, v), key)
    ensures forall k :: 0 <= k < |Put(es, key, v)| && Put(es, key, v)[k].0 == key ==> Put(es, key, v)[k].1 == v
  {
    PutContents(es, key, v);
    var r := Put(es, key, v);
    if HasKey(es, key) {
      var k :| 0 <= k < |es| && es[k].0 == key;
      assert r[k].0 == key;
    } else {
      assert r[|es|].0 == key;
    }
  }

  /** Insertion of one entry into a list sorted by key, before the first entry whose key is not smaller. */
  function Insert<V>(e: (seq<byte>, V), es: seq<(seq<byte>, V)>): (r: seq<(seq<byte>, V)>)
    ensures |r| == |es| + 1
    ensures multiset(r) == multiset(es) + multiset{e}
    decreases |es|
  {
    if es == [] then [e]
    else if Less(es[0].0, e.0) then
      assert es == [es[0]] + es[1..];
      [es[0]] + Insert(e, es[1..])
    else [e] + es
  }

  /** `ksort(..., SORT_STRING)`: the entries reordered by ascending key. */
  function SortByKey<V>(es: seq<(seq<byte>, V)>): (r: seq<(seq<byte>, V)>)
    ensures |r| == |es|
    ensures multiset(r) == multiset(es)
    decreases |es|
  {
    if es == [] then []
    else
      assert es == [es[0]] + es[1..];
      Insert(es[0], SortByKey(es[1..]))
  }

  lemma {:induction false} InsertStrict<V>(e: (seq<byte>, V), es: seq<(seq<byte>, V)>)
    requires StrictlySorted(es)
    requires forall k :: 0 <= k < |es| ==> es[k].0 != e.0
    ensures StrictlySorted(Insert(e, es))
    decreases |es|
  {
    if es != [] {
      var r := Insert(e, es);
      if Less(es[0].0, e.0) {
        var tail := Insert(e, es[1..]);
        InsertStrict(e, es[1..]);
        assert r == [es[0]] + tail;
        forall k | 1 <= k < |r| ensures Less(r[0].0, r[k].0) {
          assert r[k] == tail[k - 1];
          assert tail[k - 1] in multiset(es[1..]) + multiset{e};
          if tail[k - 1] != e {
            assert tail[k - 1] in es[1..];
            var m :| 0 <= m < |es[1..]| && es[1..][m] == tail[k - 1];
            assert es[m + 1] == r[k];
          }
        }
      } else {
        assert r == [e] + es;
        LessTotal(e.0, es[0].0);
        forall k | 1 <= k < |r| ensures Less(e.0, r[k].0) {
          if k > 1 {
            LessTransitive(e.0, es[0].0, es[k - 1].0);
          }
        }
      }
    }
  }

  /**
    Sorting a dictionary whose keys are distinct yields strictly increasing
    keys; with `multiset` preserved, it holds the same entries.
  */
  lemma {:induction false} SortByKeyStrict<V>(es: seq<(seq<byte>, V)>)
    requires DistinctKeys(es)
    ensures StrictlySorted(SortByKey(es))
    decreases |es|
  {
    if es != [] {
      var rest := SortByKey(es[1..]);
      SortByKeyStrict(es[1..]);
      forall k | 0 <= k < |rest| ensures rest[k].0 != es[0].0 {
        assert rest[k] in multiset(es[1..]);
        var m :| 0 <= m < |es[1..]| && es[1..][m] == rest[k];
        assert es[m + 1] == rest[k];
      }
      InsertStrict(es[0], rest);
    }
  }

  /** A dictionary already in canonical order is left as it is by `ksort`. */
  lemma {:induction false} SortByKeySortedIdentity<V>(es: seq<(seq<byte>, V)>)
    requires StrictlySorted(es)
    ensures SortByKey(es) == es
    decreases |es|
  {
    if es != [] {
      SortByKeySortedIdentity(es[1..]);
      assert SortByKey(es[1..]) == es[1..];
      if |es| > 1 {
        assert Less(es[0].0, es[1].0);
        LessAsymmetric(es[0].0, es[1].0);
      }
      assert es == [es[0]] + es[1..];
    }
  }
}
