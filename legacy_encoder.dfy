/**
  Bencode::encode of src/Bencode.php, the encoder that came before the
  Encoder class. It takes the same PHP values (`Host`) but tests them in a
  fixed order: a string, then a number or boolean, then an array, then a
  stdClass instance. An array that is not a list is cast to a stdClass and
  encoded as a dictionary. Any other object, an ArrayObject included, is
  rejected with "Unsupported value", and so is a value that holds one at
  any depth.
*/
module LegacyEncoding {
  import opened Wrappers
  import opened Decimal
  import opened ByteOrder
  import opened Encoders
  import opened Values
  import opened Serialization

  /** What the legacy encoder accepts: no unsupported value and no ArrayObject, at any depth. */
  predicate LegacySupported(h: Host)
    decreases h
  {
    match h
    case HUnsupported => false
    case HArrayObject(_) => false
    case HArray(es) => forall k :: 0 <= k < |es| ==> LegacySupported(es[k].1)
    case HStdClass(es) => forall k :: 0 <= k < |es| ==> LegacySupported(es[k].1)
    case _ => true
  }

  /**
    encode: a string as `len:bytes`; a number or a boolean through
    `sprintf('i%de', round($value))`, so true is `i1e` and false `i0e`; an
    empty array as `le`; an array keyed 0..n-1 as a list; any other array,
    and a stdClass, as a dictionary. Nothing else is accepted.
  */
  function LegacyEncode(h: Host): (r: Result<seq<byte>, EncodeError>)
    ensures r.Success? <==> LegacySupported(h)
    ensures r.Success? ==> |r.value| >= 2
    decreases h, 2
  {
    match h
    case HStr(s) => Success(EncodeString(s))
    case HInt(n) => Success(EncodeInteger(n))
    case HBool(b) => Success(EncodeInteger(if b then 1 else 0))
    case HArray(es) =>
      if es == [] then Success([CHAR_L, CHAR_E])
      else if IsList(es) then
        var items :- LegacyItems(es);
        Success([CHAR_L] + items + [CHAR_E])
      else LegacyObject(es, h)
    case HStdClass(es) => LegacyObject(es, h)
    case HArrayObject(_) => Failure(UnsupportedValue)
    case HUnsupported => Failure(UnsupportedValue)
  }

  /** `implode('', array_map(__METHOD__, $value))`: the encodings of the values, in order. */
  function LegacyItems(es: seq<(Key, Host)>): (r: Result<seq<byte>, EncodeError>)
    ensures r.Success? <==> forall k :: 0 <= k < |es| ==> LegacySupported(es[k].1)
    decreases es, 0
  {
    if es == [] then Success([])
    else
      assert es[0].1 < es[0];
      var first :- LegacyEncode(es[0].1);
      var rest :- LegacyItems(es[1..]);
      assert forall k :: 1 <= k < |es| ==> es[1..][k - 1] == es[k];
      Success(first + rest)
  }

  /**
    The stdClass branch: `d`, the properties sorted by `ksort`, each as its
    name as a string followed by its value's encoding, `e`. `parent` is the
    host value the properties belong to.
  */
  function LegacyObject(es: seq<(Key, Host)>, ghost parent: Host): (r: Result<seq<byte>, EncodeError>)
    requires forall k :: 0 <= k < |es| ==> es[k].1 < parent
    ensures r.Success? <==> forall k :: 0 <= k < |es| ==> LegacySupported(es[k].1)
    ensures r.Success? ==> |r.value| >= 2 && r.value[0] == CHAR_D && r.value[|r.value| - 1] == CHAR_E
    decreases parent, 1
  {
    var sorted := SortByKey(Keyed(es));
    LegacySortedFrom(es, parent);
    var body :- LegacyEntries(sorted, 0, parent);
    Success([CHAR_D] + body + [CHAR_E])
  }

  /** The foreach of the stdClass branch from property `i` on. */
  function LegacyEntries(ps: seq<(seq<byte>, Host)>, i: nat, ghost parent: Host): (r: Result<seq<byte>, EncodeError>)
    requires Below(ps, parent)
    requires i <= |ps|
    ensures r.Success? <==> forall k :: i <= k < |ps| ==> LegacySupported(ps[k].1)
    decreases parent, 0, |ps| - i
  {
    if i == |ps| then Success([])
    else
      var value :- LegacyEncode(ps[i].1);
      var rest :- LegacyEntries(ps, i + 1, parent);
      Success(EncodeString(ps[i].0) + value + rest)
  }

  /** The sorted copy holds components of `parent`, and is accepted exactly when the properties are. */
  lemma LegacySortedFrom(es: seq<(Key, Host)>, parent: Host)
    requires forall k :: 0 <= k < |es| ==> es[k].1 < parent
    ensures var sorted := SortByKey(Keyed(es));
      && Below(sorted, parent)
      && ((forall k :: 0 <= k < |sorted| ==> LegacySupported(sorted[k].1)) <==> (forall k :: 0 <= k < |es| ==> LegacySupported(es[k].1)))
  {
    SortedBelow(es, parent);
    var keyed := Keyed(es);
    var sorted := SortByKey(keyed);
    forall m | 0 <= m < |es|
      ensures (forall k :: 0 <= k < |sorted| ==> LegacySupported(sorted[k].1)) ==> LegacySupported(es[m].1)
    {
      SameEntry(keyed, sorted, m);
    }
    forall k | 0 <= k < |sorted|
      ensures (forall m :: 0 <= m < |es| ==> LegacySupported(es[m].1)) ==> LegacySupported(sorted[k].1)
    {
      SameEntry(sorted, keyed, k);
    }
  }

  /**
    One turn of the foreach: when the property at `i` fails to encode, so
    does the object; otherwise appending its name and value leaves the
    properties after it to complete the encoding.
  */
  lemma LegacyCompletesStep(spec: Result<seq<byte>, EncodeError>, str: seq<byte>, ps: seq<(seq<byte>, Host)>, i: nat, parent: Host)
    requires Below(ps, parent)
    requires i < |ps| && Completes(spec, str, LegacyEntries(ps, i, parent))
    ensures LegacyEncode(ps[i].1).Failure? ==> spec == Failure(LegacyEncode(ps[i].1).error)
    ensures LegacyEncode(ps[i].1).Success? ==>
      Completes(spec, str + EncodeString(ps[i].0) + LegacyEncode(ps[i].1).value, LegacyEntries(ps, i + 1, parent))
  {
    var tail := LegacyEntries(ps, i + 1, parent);
    if LegacyEncode(ps[i].1).Success? && tail.Success? {
      var v := LegacyEncode(ps[i].1).value;
      assert str + (EncodeString(ps[i].0) + v + tail.value) + [CHAR_E]
        == (str + EncodeString(ps[i].0) + v) + tail.value + [CHAR_E];
    }
  }

  /** Before the foreach: after `d` the sorted properties make up the whole encoding. */
  lemma LegacyCompletesStart(vars: seq<(Key, Host)>, parent: Host)
    requires forall k :: 0 <= k < |vars| ==> vars[k].1 < parent
    ensures Below(SortByKey(Keyed(vars)), parent)
    ensures Completes(LegacyObject(vars, parent), [CHAR_D], LegacyEntries(SortByKey(Keyed(vars)), 0, parent))
  {
    LegacySortedFrom(vars, parent);
  }

  /** After the foreach: nothing is left but the closing `e`. */
  lemma LegacyCompletesEnd(spec: Result<seq<byte>, EncodeError>, str: seq<byte>, ps: seq<(seq<byte>, Host)>, parent: Host)
    requires Below(ps, parent) && Completes(spec, str, LegacyEntries(ps, |ps|, parent))
    ensures spec == Success(str + [CHAR_E])
  {
    assert str + [] + [CHAR_E] == str + [CHAR_E];
  }

  /**
    The stdClass branch as the PHP code runs it: `ksort` the properties,
    then append each name and encoded value to the output string.
  */
  method LegacyEncodeObject(vars: seq<(Key, Host)>, ghost parent: Host) returns (r: Result<seq<byte>, EncodeError>)
    requires forall k :: 0 <= k < |vars| ==> vars[k].1 < parent
    ensures r == LegacyObject(vars, parent)
  {
    var sorted := SortByKey(Keyed(vars));
    LegacyCompletesStart(vars, parent);
    ghost var spec := LegacyObject(vars, parent);
    var str := [CHAR_D];
    for i := 0 to |sorted|
      invariant Completes(spec, str, LegacyEntries(sorted, i, parent))
    {
      LegacyCompletesStep(spec, str, sorted, i, parent);
      var value := LegacyEncode(sorted[i].1);
      if value.Failure? {
        return Failure(value.error);
      }
      str := str + EncodeString(sorted[i].0) + value.value;
    }
    LegacyCompletesEnd(spec, str, sorted, parent);
    return Success(str + [CHAR_E]);
  }

  /**
    What Bencode::encode writes for any value it accepts whose keys render
    apart: the wire form of ToValue of it, every dictionary (stdClass or
    cast array) in ksort order.
  */
  lemma LegacyEncodeToValue(h: Host)
    requires LegacySupported(h) && DistinctRendered(h)
    ensures Supported(h) && Canonical(ToValue(h))
    ensures LegacyEncode(h) == Success(Serialize(ToValue(h)))
  {
    LegacyEncodeAgrees(h);
    EncodeToValue(h);
  }

  /**
    The legacy encoder and the Encoder class agree on every value the
    legacy encoder accepts; on every other value, an ArrayObject anywhere
    included, the legacy encoder fails with "Unsupported value".
  */
  lemma {:induction false} LegacyEncodeAgrees(h: Host)
    ensures LegacyEncode(h) == if LegacySupported(h) then Encode(h) else Failure(UnsupportedValue)
    decreases h, 2
  {
    if LegacySupported(h) {
      match h
      case HArray(es) =>
        if es != [] {
          if IsList(es) {
            LegacyItemsAgree(es);
          } else {
            LegacyObjectAgrees(es, h);
          }
        }
      case HStdClass(es) =>
        LegacyObjectAgrees(es, h);
      case _ =>
    } else {
      assert LegacyEncode(h).error == UnsupportedValue;
    }
  }

  lemma {:induction false} LegacyItemsAgree(es: seq<(Key, Host)>)
    requires forall k :: 0 <= k < |es| ==> LegacySupported(es[k].1)
    ensures LegacyItems(es) == EncodeItems(es)
    decreases es, 0
  {
    if es != [] {
      assert es[0].1 < es[0];
      LegacyEncodeAgrees(es[0].1);
      LegacyItemsAgree(es[1..]);
    }
  }

  lemma LegacyObjectAgrees(es: seq<(Key, Host)>, parent: Host)
    requires forall k :: 0 <= k < |es| ==> es[k].1 < parent
    requires forall k :: 0 <= k < |es| ==> LegacySupported(es[k].1)
    ensures LegacyObject(es, parent) == EncodeDictionary(es, parent)
    decreases parent, 1
  {
    LegacySortedFrom(es, parent);
    LegacyEntriesAgree(SortByKey(Keyed(es)), 0, parent);
  }

  lemma {:induction false} LegacyEntriesAgree(ps: seq<(seq<byte>, Host)>, i: nat, parent: Host)
    requires Below(ps, parent) && i <= |ps|
    requires forall k :: i <= k < |ps| ==> LegacySupported(ps[k].1)
    ensures LegacyEntries(ps, i, parent) == EncodeEntries(ps, i, parent)
    decreases parent, 0, |ps| - i
  {
    if i < |ps| {
      LegacyEncodeAgrees(ps[i].1);
      LegacyEntriesAgree(ps, i + 1, parent);
    }
  }
}
