/**
  The encoder of src/Encoder.php. Its input is a PHP value, modelled by
  the `Host` datatype: the scalars it accepts, PHP arrays, ArrayObject and
  stdClass instances (ordered key/value lists, as PHP keeps them), and
  every other value it rejects. Encoding either succeeds with the bencoded
  bytes or fails with "Unsupported value".
*/
module Encoders {
  import opened Wrappers
  import opened Decimal
  import opened ByteOrder

  /** A PHP array key: an integer or a byte string. */
  datatype Key = KInt(i: int) | KStr(s: seq<byte>)

  /** The PHP values the encoder dispatches on (floats are not part of this model). */
  datatype Host =
    | HBool(b: bool)
    | HInt(n: int)
    | HStr(s: seq<byte>)
    | HArray(entries: seq<(Key, Host)>)
    | HArrayObject(entries: seq<(Key, Host)>)
    | HStdClass(entries: seq<(Key, Host)>)
    | HUnsupported    // null, resources, closures and objects of any other class

  datatype EncodeError = UnsupportedValue

  /** The bytes of a key, as string interpolation renders it. */
  function KeyBytes(k: Key): (r: seq<byte>)
    ensures k.KStr? ==> r == k.s
    ensures k.KInt? ==> r == IntText(k.i)
  {
    match k
    case KInt(i) => IntText(i)
    case KStr(s) => s
  }

  /** The host value holds nothing the encoder rejects, at any depth. */
  predicate Supported(h: Host)
    decreases h
  {
    match h
    case HUnsupported => false
    case HArray(es) => forall k :: 0 <= k < |es| ==> Supported(es[k].1)
    case HArrayObject(es) => forall k :: 0 <= k < |es| ==> Supported(es[k].1)
    case HStdClass(es) => forall k :: 0 <= k < |es| ==> Supported(es[k].1)
    case _ => true
  }

  /** `array_keys($value) === range(0, count($value) - 1)`: the keys are 0, 1, ... in order. */
  predicate IsList(es: seq<(Key, Host)>) {
    forall k :: 0 <= k < |es| ==> es[k].0 == KInt(k)
  }

  /** encodeInteger: `i`, the decimal value, `e`. */
  function EncodeInteger(n: int): (r: seq<byte>)
    ensures |r| >= 3 && r[0] == CHAR_I && r[|r| - 1] == CHAR_E
  {
    [CHAR_I] + IntText(n) + [CHAR_E]
  }

  /** encodeBoolean: true as `i1e`, false as `i0e`. */
  function EncodeBoolean(b: bool): (r: seq<byte>)
    ensures r == EncodeInteger(if b then 1 else 0)
    ensures r == [CHAR_I, if b then ZERO + 1 else ZERO, CHAR_E]
  {
    EncodeInteger(if b then 1 else 0)
  }

  /** encodeString: the byte length in decimal, `:`, the bytes. */
  function EncodeString(s: seq<byte>): (r: seq<byte>)
    ensures |r| >= |s| + 2 && r[|r| - |s|..] == s
  {
    Digits(|s|) + [COLON] + s
  }

  /** The entries of an array with their keys rendered as bytes, in the same order. */
  function Keyed(es: seq<(Key, Host)>): (r: seq<(seq<byte>, Host)>)
    ensures |r| == |es|
    ensures forall k :: 0 <= k < |es| ==> r[k] == (KeyBytes(es[k].0), es[k].1)
  {
    if es == [] then [] else [(KeyBytes(es[0].0), es[0].1)] + Keyed(es[1..])
  }

  /**
    encode: dispatch on the type of the value. An empty array is an empty
    list, an array keyed 0..n-1 a list, any other array, an ArrayObject or
    a stdClass a dictionary; any other value is rejected.
  */
  function Encode(h: Host): (r: Result<seq<byte>, EncodeError>)
    ensures r.Success? <==> Supported(h)
    ensures r.Success? ==> |r.value| >= 2
    decreases h, 2
  {
    match h
    case HBool(b) => Success(EncodeBoolean(b))
    case HInt(n) => Success(EncodeInteger(n))
    case HStr(s) => Success(EncodeString(s))
    case HArray(es) =>
      if es == [] then Success([CHAR_L, CHAR_E])
      else if IsList(es) then
        var items :- EncodeItems(es);
        Success([CHAR_L] + items + [CHAR_E])
      else EncodeDictionary(es, h)
    case HArrayObject(es) => EncodeDictionary(es, h)
    case HStdClass(es) => EncodeDictionary(es, h)
    case HUnsupported => Failure(UnsupportedValue)
  }

  /** `implode('', array_map('encode', $value))`: the encodings of the values, in order. */
  function EncodeItems(es: seq<(Key, Host)>): (r: Result<seq<byte>, EncodeError>)
    ensures r.Success? <==> forall k :: 0 <= k < |es| ==> Supported(es[k].1)
    decreases es, 0
  {
    if es == [] then Success([])
    else
      assert es[0].1 < es[0];
      var first :- Encode(es[0].1);
      var rest :- EncodeItems(es[1..]);
      assert forall k :: 1 <= k < |es| ==> es[1..][k - 1] == es[k];
      Success(first + rest)
  }

  /**
    encodeArrayObject (and encodeObject for a stdClass): `d`, the entries
    sorted by key, each as its key string followed by its value's encoding,
    `e`. `parent` is the host value the entries belong to.
  */
  function EncodeDictionary(es: seq<(Key, Host)>, ghost parent: Host): (r: Result<seq<byte>, EncodeError>)
    requires forall k :: 0 <= k < |es| ==> es[k].1 < parent
    ensures r.Success? <==> forall k :: 0 <= k < |es| ==> Supported(es[k].1)
    ensures r.Success? ==> |r.value| >= 2 && r.value[0] == CHAR_D && r.value[|r.value| - 1] == CHAR_E
    decreases parent, 1
  {
    var sorted := SortByKey(Keyed(es));
    SortedFrom(es, parent);
    var body :- EncodeEntries(sorted, 0, parent);
    Success([CHAR_D] + body + [CHAR_E])
  }

  /** Every entry of the sorted copy is an entry of the array, and the copy is supported exactly when the array is. */
  lemma SortedFrom(es: seq<(Key, Host)>, parent: Host)
    requires forall k :: 0 <= k < |es| ==> es[k].1 < parent
    ensures var sorted := SortByKey(Keyed(es));
      && Below(sorted, parent)
      && ((forall k :: 0 <= k < |sorted| ==> Supported(sorted[k].1)) <==> (forall k :: 0 <= k < |es| ==> Supported(es[k].1)))
  {
    SortedBelow(es, parent);
    SortedSupported(es);
  }

  lemma SortedBelow(es: seq<(Key, Host)>, parent: Host)
    requires forall k :: 0 <= k < |es| ==> es[k].1 < parent
    ensures Below(SortByKey(Keyed(es)), parent)
    ensures (forall k :: 0 <= k < |es| ==> Supported(es[k].1)) ==>
      forall k :: 0 <= k < |SortByKey(Keyed(es))| ==> Supported(SortByKey(Keyed(es))[k].1)
  {
    var keyed := Keyed(es);
    var sorted := SortByKey(keyed);
    forall k | 0 <= k < |sorted|
      ensures sorted[k].1 < parent
      ensures (forall m :: 0 <= m < |es| ==> Supported(es[m].1)) ==> Supported(sorted[k].1)
    {
      SameEntry(sorted, keyed, k);
    }
  }

  lemma SortedSupported(es: seq<(Key, Host)>)
    ensures (forall k :: 0 <= k < |SortByKey(Keyed(es))| ==> Supported(SortByKey(Keyed(es))[k].1)) ==>
      forall k :: 0 <= k < |es| ==> Supported(es[k].1)
  {
    var keyed := Keyed(es);
    var sorted := SortByKey(keyed);
    forall m | 0 <= m < |es|
      ensures (forall k :: 0 <= k < |sorted| ==> Supported(sorted[k].1)) ==> Supported(es[m].1)
    {
      SameEntry(keyed, sorted, m);
    }
  }

  /** An entry of a list is an entry of any list with the same multiset of entries. */
  lemma SameEntry<T>(xs: seq<T>, ys: seq<T>, k: int)
    requires multiset(xs) == multiset(ys) && 0 <= k < |xs|
    ensures exists m :: 0 <= m < |ys| && ys[m] == xs[k]
  {
    assert xs[k] in multiset(ys);
  }

  /** Every value of `ps` is a component of `parent`. */
  ghost predicate Below(ps: seq<(seq<byte>, Host)>, parent: Host) {
    forall k :: 0 <= k < |ps| ==> ps[k].1 < parent
  }

  /** The loop of encodeArrayObject from entry `i` on: each key as a string, then its value's encoding. */
  function EncodeEntries(ps: seq<(seq<byte>, Host)>, i: nat, ghost parent: Host): (r: Result<seq<byte>, EncodeError>)
    requires Below(ps, parent)
    requires i <= |ps|
    ensures r.Success? <==> forall k :: i <= k < |ps| ==> Supported(ps[k].1)
    decreases parent, 0, |ps| - i
  {
    if i == |ps| then Success([])
    else
      var value :- Encode(ps[i].1);
      var rest :- EncodeEntries(ps, i + 1, parent);
      Success(EncodeString(ps[i].0) + value + rest)
  }

  /** The rest of an encoding once `str` is written and `tail` is what the remaining entries give. */
  predicate Completes(spec: Result<seq<byte>, EncodeError>, str: seq<byte>, tail: Result<seq<byte>, EncodeError>) {
    match tail
    case Success(t) => spec == Success(str + t + [CHAR_E])
    case Failure(e) => spec == Failure(e)
  }

  /**
    One turn of the encodeArrayObject loop: when the entry at `i` fails to
    encode, so does the dictionary; otherwise appending its key and value
    leaves the entries after it to complete the encoding.
  */
  lemma CompletesStep(spec: Result<seq<byte>, EncodeError>, str: seq<byte>, ps: seq<(seq<byte>, Host)>, i: nat, parent: Host)
    requires Below(ps, parent)
    requires i < |ps| && Completes(spec, str, EncodeEntries(ps, i, parent))
    ensures Encode(ps[i].1).Failure? ==> spec == Failure(Encode(ps[i].1).error)
    ensures Encode(ps[i].1).Success? ==>
      Completes(spec, str + EncodeString(ps[i].0) + Encode(ps[i].1).value, EncodeEntries(ps, i + 1, parent))
  {
    var tail := EncodeEntries(ps, i + 1, parent);
    if Encode(ps[i].1).Success? && tail.Success? {
      var v := Encode(ps[i].1).value;
      assert str + (EncodeString(ps[i].0) + v + tail.value) + [CHAR_E]
        == (str + EncodeString(ps[i].0) + v) + tail.value + [CHAR_E];
    }
  }

  /**
    encodeArrayObject as the PHP code runs it: sort a copy of the entries by
    key, then append each key and encoded value to the output string.
  */
  method EncodeArrayObject(dict: seq<(Key, Host)>, ghost parent: Host) returns (r: Result<seq<byte>, EncodeError>)
    requires forall k :: 0 <= k < |dict| ==> dict[k].1 < parent
    ensures r == EncodeDictionary(dict, parent)
  {
    var vars := SortByKey(Keyed(dict));
    CompletesStart(dict, parent);
    ghost var spec := EncodeDictionary(dict, parent);
    var str := [CHAR_D];
    for i := 0 to |vars|
      invariant Completes(spec, str, EncodeEntries(vars, i, parent))
    {
      CompletesStep(spec, str, vars, i, parent);
      var value := Encode(vars[i].1);
      if value.Failure? {
        return Failure(value.error);
      }
      str := str + EncodeString(vars[i].0) + value.value;
    }
    CompletesEnd(spec, str, vars, parent);
    return Success(str + [CHAR_E]);
  }

  /** Before the loop: the sorted copy's entries are components of `parent`, and after `d` they make up the whole encoding. */
  lemma CompletesStart(dict: seq<(Key, Host)>, parent: Host)
    requires forall k :: 0 <= k < |dict| ==> dict[k].1 < parent
    ensures Below(SortByKey(Keyed(dict)), parent)
    ensures Completes(EncodeDictionary(dict, parent), [CHAR_D], EncodeEntries(SortByKey(Keyed(dict)), 0, parent))
  {
    SortedFrom(dict, parent);
  }

  /** After the loop: nothing is left but the closing `e`. */
  lemma CompletesEnd(spec: Result<seq<byte>, EncodeError>, str: seq<byte>, ps: seq<(seq<byte>, Host)>, parent: Host)
    requires Below(ps, parent) && Completes(spec, str, EncodeEntries(ps, |ps|, parent))
    ensures spec == Success(str + [CHAR_E])
  {
    assert str + [] + [CHAR_E] == str + [CHAR_E];
  }
}
