/**
  The bencoded form of a decoded value, and the bridge from decoded values
  back to the PHP values the encoder takes: a list comes back as a PHP
  array keyed 0..n-1, a dictionary as the ArrayObject decodeDictionary
  builds, with string keys.
*/
module Serialization {
  import opened Wrappers
  import opened Decimal
  import opened ByteOrder
  import opened Values
  import opened Encoders

  /** The wire form of a value: integers and strings as the encoder writes them, containers item by item between `l`/`d` and `e`. */
  function Serialize(v: Value): (r: seq<byte>)
    ensures |r| >= 2
    decreases v, 1
  {
    match v
    case VInt(n) => EncodeInteger(n)
    case VStr(b) => EncodeString(b)
    case VList(items) => [CHAR_L] + SerializeItems(items, 0) + [CHAR_E]
    case VDict(es) => [CHAR_D] + SerializeEntries(es, 0) + [CHAR_E]
  }

  /** The first byte of a wire form tells its kind; all but strings end with `e`. */
  lemma SerializeEnds(v: Value)
    ensures var r := Serialize(v);
      && (v.VStr? ==> IsDigit(r[0]))
      && (v.VInt? ==> r[0] == CHAR_I)
      && (v.VList? ==> r[0] == CHAR_L)
      && (v.VDict? ==> r[0] == CHAR_D)
      && (!v.VStr? ==> r[|r| - 1] == CHAR_E)
  {
    if v.VStr? {
      DigitsCanonical(|v.bytes|);
    }
  }

  /** The wire forms of `items[i..]`, one after the other. */
  function SerializeItems(items: seq<Value>, i: nat): seq<byte>
    requires i <= |items|
    decreases items, |items| - i
  {
    if i == |items| then [] else Serialize(items[i]) + SerializeItems(items, i + 1)
  }

  /** The entries `es[i..]`, each as its key string followed by its value's wire form. */
  function SerializeEntries(es: seq<(seq<byte>, Value)>, i: nat): seq<byte>
    requires i <= |es|
    decreases es, |es| - i
  {
    if i == |es| then []
    else
      assert es[i].1 < es[i];
      EncodeString(es[i].0) + Serialize(es[i].1) + SerializeEntries(es, i + 1)
  }

  /** The PHP value the decoders return for a decoded value. */
  function FromValue(v: Value): (h: Host)
    ensures v.VInt? <==> h.HInt?
    ensures v.VStr? <==> h.HStr?
    ensures v.VList? <==> h.HArray?
    ensures v.VDict? <==> h.HArrayObject?
    decreases v, 1
  {
    match v
    case VInt(n) => HInt(n)
    case VStr(b) => HStr(b)
    case VList(items) => HArray(FromItems(items, 0))
    case VDict(es) => HArrayObject(FromEntries(es))
  }

  /** A PHP list: the items keyed `base`, `base + 1`, ... */
  function FromItems(items: seq<Value>, base: nat): (r: seq<(Key, Host)>)
    ensures |r| == |items|
    ensures forall k :: 0 <= k < |items| ==> r[k] == (KInt(base + k), FromValue(items[k]))
    decreases items, 0
  {
    if items == [] then [] else [(KInt(base), FromValue(items[0]))] + FromItems(items[1..], base + 1)
  }

  /** The entries of an ArrayObject: string keys, converted values, in order. */
  function FromEntries(es: seq<(seq<byte>, Value)>): (r: seq<(Key, Host)>)
    ensures |r| == |es|
    ensures forall k :: 0 <= k < |es| ==> r[k].0 == KStr(es[k].0)
    decreases es, 0
  {
    if es == [] then []
    else
      assert es[0].1 < es[0];
      [(KStr(es[0].0), FromValue(es[0].1))] + FromEntries(es[1..])
  }

  /** Each entry of the ArrayObject holds the converted value of the dictionary entry. */
  lemma {:induction false} FromEntriesAt(es: seq<(seq<byte>, Value)>, k: int)
    requires 0 <= k < |es|
    ensures FromEntries(es)[k] == (KStr(es[k].0), FromValue(es[k].1))
    decreases |es|
  {
    if k > 0 {
      FromEntriesAt(es[1..], k - 1);
    }
  }

  /**
    Encoding a decoded value: a canonical value (every dictionary with
    strictly increasing keys) is supported and encodes to its wire form.
  */
  lemma {:induction false} EncodeFromValue(v: Value)
    requires Canonical(v)
    ensures Encode(FromValue(v)) == Success(Serialize(v))
    decreases v, 2
  {
    match v
    case VInt(_) =>
    case VStr(_) =>
    case VList(items) =>
      EncodeListFromValue(v);
    case VDict(es) =>
      EncodeDictFromValue(v);
  }

  /** A decoded list comes back as a PHP array keyed 0..n-1, which encodes as a list again. */
  lemma {:induction false} EncodeListFromValue(v: Value)
    requires v.VList? && Canonical(v)
    ensures Encode(FromValue(v)) == Success(Serialize(v))
    decreases v, 1
  {
    var items := v.items;
    if items == [] {
      assert Serialize(v) == [CHAR_L, CHAR_E];
    } else {
      var hs := FromItems(items, 0);
      assert IsList(hs);
      EncodeItemsFromValues(items, 0);
      assert hs[0..] == hs;
    }
  }

  /** A dictionary with strictly increasing keys is already in the order encodeArrayObject sorts into. */
  lemma {:induction false} EncodeDictFromValue(v: Value)
    requires v.VDict? && Canonical(v)
    ensures Encode(FromValue(v)) == Success(Serialize(v))
    decreases v, 1
  {
    var es := v.entries;
    var h := FromValue(v);
    var hs := FromEntries(es);
    var keyed := Keyed(hs);
    forall k | 0 <= k < |es| ensures keyed[k] == (es[k].0, FromValue(es[k].1)) {
      FromEntriesAt(es, k);
    }
    assert StrictlySorted(keyed);
    SortByKeySortedIdentity(keyed);
    forall k | 0 <= k < |hs| ensures hs[k].1 < h {
      assert hs[k] in h.entries;
    }
    assert EntriesFrom(es, keyed, h);
    EncodeEntriesFromValues(es, keyed, 0, h);
  }

  lemma {:induction false} EncodeItemsFromValues(items: seq<Value>, i: nat)
    requires i <= |items| && forall k :: 0 <= k < |items| ==> Canonical(items[k])
    ensures EncodeItems(FromItems(items, 0)[i..]) == Success(SerializeItems(items, i))
    decreases items, |items| - i
  {
    var hs := FromItems(items, 0);
    if i < |items| {
      EncodeFromValue(items[i]);
      assert hs[i..][1..] == hs[i + 1..];
      EncodeItemsFromValues(items, i + 1);
    }
  }

  /** `ps` holds the entries of `es`, values converted, all of them components of `parent`. */
  ghost predicate EntriesFrom(es: seq<(seq<byte>, Value)>, ps: seq<(seq<byte>, Host)>, parent: Host) {
    && Below(ps, parent) && |ps| == |es|
    && forall k :: 0 <= k < |es| ==> ps[k] == (es[k].0, FromValue(es[k].1)) && Canonical(es[k].1)
  }

  lemma {:induction false} EncodeEntriesFromValues(es: seq<(seq<byte>, Value)>, ps: seq<(seq<byte>, Host)>, i: nat, parent: Host)
    requires EntriesFrom(es, ps, parent) && i <= |es|
    ensures EncodeEntries(ps, i, parent) == Success(SerializeEntries(es, i))
    decreases es, |es| - i, 1
  {
    if i < |es| {
      EncodeEntriesFromValues(es, ps, i + 1, parent);
      EncodeEntriesStep(es, ps, i, parent);
    }
  }

  /** Entry `i` encodes as its key string and its value's wire form, in front of the entries after it. */
  lemma {:induction false} EncodeEntriesStep(es: seq<(seq<byte>, Value)>, ps: seq<(seq<byte>, Host)>, i: nat, parent: Host)
    requires EntriesFrom(es, ps, parent) && i < |es|
    requires EncodeEntries(ps, i + 1, parent) == Success(SerializeEntries(es, i + 1))
    ensures EncodeEntries(ps, i, parent) == Success(SerializeEntries(es, i))
    decreases es, |es| - i, 0
  {
    assert es[i].1 < es[i];
    EncodeFromValue(es[i].1);
  }

  // ---------------------------------------------------------------------
  // What the encoder writes for any PHP value
  // ---------------------------------------------------------------------

  /**
    The rendered keys of every array that is not a list, and of every
    ArrayObject and stdClass, at every depth, are distinct, as the keys of
    one PHP array always are.
  */
  predicate DistinctRendered(h: Host)
    decreases h
  {
    match h
    case HArray(es) =>
      && (IsList(es) || DistinctKeys(Keyed(es)))
      && forall k :: 0 <= k < |es| ==> DistinctRendered(es[k].1)
    case HArrayObject(es) =>
      DistinctKeys(Keyed(es)) && forall k :: 0 <= k < |es| ==> DistinctRendered(es[k].1)
    case HStdClass(es) =>
      DistinctKeys(Keyed(es)) && forall k :: 0 <= k < |es| ==> DistinctRendered(es[k].1)
    case _ => true
  }

  /**
    The value a supported PHP value stands for once encoded: a boolean as
    0 or 1, an array keyed 0..n-1 (the empty one included) as a list, and
    any other array, an ArrayObject or a stdClass as a dictionary whose
    entries are in ksort order under their rendered keys.
  */
  function ToValue(h: Host): (v: Value)
    requires Supported(h)
    ensures v.VInt? <==> h.HInt? || h.HBool?
    ensures v.VStr? <==> h.HStr?
    ensures v.VList? <==> h.HArray? && IsList(h.entries)
    decreases h, 2
  {
    match h
    case HBool(b) => VInt(if b then 1 else 0)
    case HInt(n) => VInt(n)
    case HStr(s) => VStr(s)
    case HArray(es) => if IsList(es) then VList(ToItems(es)) else ToDict(es, h)
    case HArrayObject(es) => ToDict(es, h)
    case HStdClass(es) => ToDict(es, h)
  }

  /** The values of a PHP list, in order. */
  function ToItems(es: seq<(Key, Host)>): (r: seq<Value>)
    requires forall k :: 0 <= k < |es| ==> Supported(es[k].1)
    ensures |r| == |es|
    ensures forall k :: 0 <= k < |es| ==> r[k] == (assert es[k].1 < es[k]; ToValue(es[k].1))
    decreases es, 0
  {
    if es == [] then []
    else
      assert es[0].1 < es[0];
      [ToValue(es[0].1)] + ToItems(es[1..])
  }

  /** A dictionary: the entries sorted by their rendered keys, values converted. */
  function ToDict(es: seq<(Key, Host)>, ghost parent: Host): (v: Value)
    requires forall k :: 0 <= k < |es| ==> es[k].1 < parent && Supported(es[k].1)
    ensures v.VDict? && |v.entries| == |es|
    decreases parent, 1
  {
    SortedFrom(es, parent);
    VDict(ToEntries(SortByKey(Keyed(es)), parent))
  }

  /** Rendered entries with their values converted, keys and order kept. */
  function ToEntries(ps: seq<(seq<byte>, Host)>, ghost parent: Host): (r: seq<(seq<byte>, Value)>)
    requires Below(ps, parent) && forall k :: 0 <= k < |ps| ==> Supported(ps[k].1)
    ensures |r| == |ps|
    ensures forall k :: 0 <= k < |ps| ==> r[k] == (ps[k].0, ToValue(ps[k].1))
    decreases parent, 0, |ps|
  {
    if ps == [] then [] else [(ps[0].0, ToValue(ps[0].1))] + ToEntries(ps[1..], parent)
  }

  /**
    Encoder::encode of any supported PHP value whose keys render apart
    writes the wire form of a canonical value: ToValue of the input, every
    dictionary in strictly increasing byte order of its keys.
  */
  lemma {:induction false} EncodeToValue(h: Host)
    requires Supported(h) && DistinctRendered(h)
    ensures Canonical(ToValue(h))
    ensures Encode(h) == Success(Serialize(ToValue(h)))
    decreases h, 2
  {
    match h
    case HBool(_) =>
    case HInt(_) =>
    case HStr(_) =>
    case HArray(es) =>
      if IsList(es) {
        var items := ToItems(es);
        assert ToValue(h) == VList(items);
        ItemsToValues(es, 0);
        assert es[0..] == es;
        assert Serialize(VList(items)) == [CHAR_L] + SerializeItems(items, 0) + [CHAR_E];
        if es != [] {
          assert EncodeItems(es) == Success(SerializeItems(items, 0));
          assert Encode(h) == Success([CHAR_L] + SerializeItems(items, 0) + [CHAR_E]);
        } else {
          assert SerializeItems(items, 0) == [];
          assert Serialize(VList(items)) == [CHAR_L, CHAR_E];
        }
      } else {
        DictToValue(es, h);
      }
    case HArrayObject(es) =>
      DictToValue(es, h);
    case HStdClass(es) =>
      DictToValue(es, h);
  }

  /**
    An array of two entries that is not a list, whose rendered keys come in
    decreasing byte order, is written with the two entries swapped.
  */
  lemma SwappedPair(k1: Key, h1: Host, k2: Key, h2: Host)
    requires !IsList([(k1, h1), (k2, h2)]) && Supported(h1) && Supported(h2)
    requires Less(KeyBytes(k2), KeyBytes(k1))
    ensures Encode(HArray([(k1, h1), (k2, h2)])) == Success(
      [CHAR_D] + (EncodeString(KeyBytes(k2)) + Encode(h2).value + EncodeString(KeyBytes(k1)) + Encode(h1).value) + [CHAR_E])
  {
    var es := [(k1, h1), (k2, h2)];
    var h := HArray(es);
    var sorted := [(KeyBytes(k2), h2), (KeyBytes(k1), h1)];
    var body := EncodeString(KeyBytes(k2)) + Encode(h2).value + EncodeString(KeyBytes(k1)) + Encode(h1).value;
    SortedPair(k1, h1, k2, h2);
    PairBelow(k1, h1, k2, h2);
    EncodePair(sorted, h);
    EncodeArrayDictionary(es);
    DictionaryOf(es, h, sorted, body);
  }

  /** The rendered entries of the pair, sorted: the second first. */
  lemma SortedPair(k1: Key, h1: Host, k2: Key, h2: Host)
    requires Less(KeyBytes(k2), KeyBytes(k1))
    ensures SortByKey(Keyed([(k1, h1), (k2, h2)])) == [(KeyBytes(k2), h2), (KeyBytes(k1), h1)]
  {
    assert Keyed([(k1, h1), (k2, h2)]) == [(KeyBytes(k1), h1), (KeyBytes(k2), h2)];
    SortPair(KeyBytes(k1), h1, KeyBytes(k2), h2);
  }

  lemma PairBelow(k1: Key, h1: Host, k2: Key, h2: Host)
    ensures var h := HArray([(k1, h1), (k2, h2)]);
      && h1 < h && h2 < h
      && Below([(KeyBytes(k2), h2), (KeyBytes(k1), h1)], h)
  {
    var es := [(k1, h1), (k2, h2)];
    assert es[0].1 < HArray(es) && es[1].1 < HArray(es);
  }

  /** An array that is not a list (nor empty) goes to encodeArrayObject. */
  lemma EncodeArrayDictionary(es: seq<(Key, Host)>)
    requires !IsList(es)
    ensures forall k :: 0 <= k < |es| ==> es[k].1 < HArray(es)
    ensures Encode(HArray(es)) == EncodeDictionary(es, HArray(es))
  {
  }

  /** encodeArrayObject once the sorted entries and what its loop writes for them are known. */
  lemma DictionaryOf(es: seq<(Key, Host)>, parent: Host, sorted: seq<(seq<byte>, Host)>, body: seq<byte>)
    requires forall k :: 0 <= k < |es| ==> es[k].1 < parent
    requires SortByKey(Keyed(es)) == sorted && Below(sorted, parent)
    requires EncodeEntries(sorted, 0, parent) == Success(body)
    ensures EncodeDictionary(es, parent) == Success([CHAR_D] + body + [CHAR_E])
  {
  }

  /** `ksort` of two entries whose keys are in decreasing order swaps them. */
  lemma SortPair<V>(a: seq<byte>, x: V, b: seq<byte>, y: V)
    requires Less(b, a)
    ensures SortByKey([(a, x), (b, y)]) == [(b, y), (a, x)]
  {
    var es := [(a, x), (b, y)];
    assert es[1..] == [(b, y)];
    assert SortByKey([(b, y)]) == Insert((b, y), []);
    LessAsymmetric(b, a);
  }

  /** The encodeArrayObject loop over two entries. */
  lemma EncodePair(ps: seq<(seq<byte>, Host)>, parent: Host)
    requires |ps| == 2 && Below(ps, parent) && Supported(ps[0].1) && Supported(ps[1].1)
    ensures EncodeEntries(ps, 0, parent)
      == Success(EncodeString(ps[0].0) + Encode(ps[0].1).value + EncodeString(ps[1].0) + Encode(ps[1].1).value)
  {
    var e1 := EncodeString(ps[1].0) + Encode(ps[1].1).value;
    assert EncodeEntries(ps, 1, parent) == Success(e1 + []);
    assert e1 + [] == e1;
    assert EncodeString(ps[0].0) + Encode(ps[0].1).value + e1
      == EncodeString(ps[0].0) + Encode(ps[0].1).value + EncodeString(ps[1].0) + Encode(ps[1].1).value;
  }

  /** `[1 => 1, 0 => 0]` encodes as `d1:0i0e1:1i1ee`, the keys in byte order. */
  lemma EncodeUnsortedDigits()
    ensures Encode(HArray([(KInt(1), HInt(1)), (KInt(0), HInt(0))]))
      == Success([CHAR_D, ZERO + 1, COLON, ZERO, CHAR_I, ZERO, CHAR_E, ZERO + 1, COLON, ZERO + 1, CHAR_I, ZERO + 1, CHAR_E, CHAR_E])
  {
    var zero, one := [ZERO], [ZERO + 1];
    assert KeyBytes(KInt(1)) == one && KeyBytes(KInt(0)) == zero;
    assert !IsList([(KInt(1), HInt(1)), (KInt(0), HInt(0))]) by {
      assert [(KInt(1), HInt(1)), (KInt(0), HInt(0))][0].0 != KInt(0);
    }
    assert Less(zero, one);
    SwappedPair(KInt(1), HInt(1), KInt(0), HInt(0));
    DigitsPieces();
  }

  /** The pieces of `d1:0i0e1:1i1ee`. */
  lemma DigitsPieces()
    ensures [CHAR_D] + (EncodeString(KeyBytes(KInt(0))) + Encode(HInt(0)).value + EncodeString(KeyBytes(KInt(1))) + Encode(HInt(1)).value) + [CHAR_E]
      == [CHAR_D, ZERO + 1, COLON, ZERO, CHAR_I, ZERO, CHAR_E, ZERO + 1, COLON, ZERO + 1, CHAR_I, ZERO + 1, CHAR_E, CHAR_E]
  {
    var zero, one := [ZERO], [ZERO + 1];
    assert EncodeString(zero) == [ZERO + 1, COLON, ZERO];
    assert EncodeString(one) == [ZERO + 1, COLON, ZERO + 1];
    assert Encode(HInt(0)).value == [CHAR_I, ZERO, CHAR_E];
    assert Encode(HInt(1)).value == [CHAR_I, ZERO + 1, CHAR_E];
  }

  /** `[5 => 5, 11 => 11]` encodes as `d2:11i11e1:5i5ee`: "11" sorts before "5". */
  lemma EncodeUnsortedNumbers()
    ensures Encode(HArray([(KInt(5), HInt(5)), (KInt(11), HInt(11))]))
      == Success([CHAR_D, ZERO + 2, COLON, ZERO + 1, ZERO + 1, CHAR_I, ZERO + 1, ZERO + 1, CHAR_E,
                  ZERO + 1, COLON, ZERO + 5, CHAR_I, ZERO + 5, CHAR_E, CHAR_E])
  {
    var five, eleven := [ZERO + 5], [ZERO + 1, ZERO + 1];
    assert KeyBytes(KInt(5)) == five && KeyBytes(KInt(11)) == eleven by {
      assert Digits(11) == eleven;
    }
    assert !IsList([(KInt(5), HInt(5)), (KInt(11), HInt(11))]) by {
      assert [(KInt(5), HInt(5)), (KInt(11), HInt(11))][0].0 != KInt(0);
    }
    assert Less(eleven, five);
    SwappedPair(KInt(5), HInt(5), KInt(11), HInt(11));
    NumbersPieces();
  }

  /** The pieces of `d2:11i11e1:5i5ee`. */
  lemma NumbersPieces()
    ensures [CHAR_D] + (EncodeString(KeyBytes(KInt(11))) + Encode(HInt(11)).value + EncodeString(KeyBytes(KInt(5))) + Encode(HInt(5)).value) + [CHAR_E]
      == [CHAR_D, ZERO + 2, COLON, ZERO + 1, ZERO + 1, CHAR_I, ZERO + 1, ZERO + 1, CHAR_E,
          ZERO + 1, COLON, ZERO + 5, CHAR_I, ZERO + 5, CHAR_E, CHAR_E]
  {
    var five, eleven := [ZERO + 5], [ZERO + 1, ZERO + 1];
    assert Digits(11) == eleven;
    assert EncodeString(eleven) == [ZERO + 2, COLON, ZERO + 1, ZERO + 1];
    assert EncodeString(five) == [ZERO + 1, COLON, ZERO + 5];
    assert Encode(HInt(11)).value == [CHAR_I, ZERO + 1, ZERO + 1, CHAR_E];
    assert Encode(HInt(5)).value == [CHAR_I, ZERO + 5, CHAR_E];
  }

  lemma {:induction false} ItemsToValues(es: seq<(Key, Host)>, i: nat)
    requires i <= |es| && forall k :: 0 <= k < |es| ==> Supported(es[k].1) && DistinctRendered(es[k].1)
    ensures EncodeItems(es[i..]) == Success(SerializeItems(ToItems(es), i))
    ensures forall k :: i <= k < |es| ==> Canonical(ToItems(es)[k])
    decreases es, |es| - i
  {
    if i < |es| {
      assert es[i].1 < es[i];
      EncodeToValue(es[i].1);
      ItemsToValues(es, i + 1);
      assert es[i..][1..] == es[i + 1..];
    }
  }

  /** encodeArrayObject's ksort gives the strictly increasing order of ToDict, and its loop the entries' wire forms. */
  lemma {:induction false} DictToValue(es: seq<(Key, Host)>, parent: Host)
    requires forall k :: 0 <= k < |es| ==> es[k].1 < parent && Supported(es[k].1) && DistinctRendered(es[k].1)
    requires DistinctKeys(Keyed(es))
    ensures Canonical(ToDict(es, parent))
    ensures EncodeDictionary(es, parent) == Success(Serialize(ToDict(es, parent)))
    decreases parent, 1
  {
    var keyed := Keyed(es);
    var sorted := SortByKey(keyed);
    SortedFrom(es, parent);
    forall k | 0 <= k < |sorted| ensures Supported(sorted[k].1) && DistinctRendered(sorted[k].1) {
      SameEntry(sorted, keyed, k);
    }
    var vs := ToEntries(sorted, parent);
    EntriesToValues(sorted, 0, parent);
    SortByKeyStrict(keyed);
    assert StrictlySorted(vs) by {
      forall j, k | 0 <= j < k < |vs| ensures Less(vs[j].0, vs[k].0) {
        assert vs[j].0 == sorted[j].0 && vs[k].0 == sorted[k].0;
      }
    }
  }

  lemma {:induction false} EntriesToValues(ps: seq<(seq<byte>, Host)>, i: nat, parent: Host)
    requires Below(ps, parent) && i <= |ps|
    requires forall k :: 0 <= k < |ps| ==> Supported(ps[k].1) && DistinctRendered(ps[k].1)
    ensures EncodeEntries(ps, i, parent) == Success(SerializeEntries(ToEntries(ps, parent), i))
    ensures forall k :: i <= k < |ps| ==> Canonical(ToEntries(ps, parent)[k].1)
    decreases parent, 0, |ps| - i, 1
  {
    if i < |ps| {
      EntriesToValues(ps, i + 1, parent);
      EntryToValue(ps, i, parent);
    }
  }

  /** Entry `i` encodes as its key string and the wire form of its converted value, in front of the entries after it. */
  lemma {:induction false} EntryToValue(ps: seq<(seq<byte>, Host)>, i: nat, parent: Host)
    requires Below(ps, parent) && i < |ps|
    requires forall k :: 0 <= k < |ps| ==> Supported(ps[k].1) && DistinctRendered(ps[k].1)
    requires EncodeEntries(ps, i + 1, parent) == Success(SerializeEntries(ToEntries(ps, parent), i + 1))
    ensures EncodeEntries(ps, i, parent) == Success(SerializeEntries(ToEntries(ps, parent), i))
    ensures Canonical(ToEntries(ps, parent)[i].1)
    decreases parent, 0, |ps| - i, 0
  {
    var vs := ToEntries(ps, parent);
    assert vs[i] == (ps[i].0, ToValue(ps[i].1));
    EncodeToValue(ps[i].1);
  }
}
