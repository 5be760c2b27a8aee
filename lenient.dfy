/**
  The lenient policy of src/NonCompliantDecoder.php set against the strict
  one of src/Decoder.php. The two read the same grammar and differ only
  where the strict decoder raises a compliance error, so wherever the
  strict decoder succeeds, or fails on a plain syntax error, the lenient
  one returns exactly the same. And whatever either returns is canonical:
  the lenient decoder collapses a repeated key into one entry and re-sorts
  a dictionary whose keys arrived out of order, so that re-encoding its
  result gives input the strict decoder accepts.
*/
module LenientDecoding {
  import opened Wrappers
  import opened Decimal
  import opened ByteOrder
  import opened Values
  import opened DecoderSpec
  import opened Encoders
  import opened Serialization
  import opened RoundTrip
  import StrictDecoding

  /** A result the lenient policy does not change: a success, or a failure that is not a compliance error. */
  predicate Hard<T>(r: Result<T, DecodeError>) {
    r.Failure? ==> !r.error.compliance
  }

  /** The same input under the lenient policy. */
  function Relaxed(inp: Input): Input {
    inp.(lenient := true)
  }

  // ---------------------------------------------------------------------
  // Both policies agree away from compliance errors
  // ---------------------------------------------------------------------

  lemma ReadDigitsAgree(inp: Input, pos: int, terminator: byte)
    requires !inp.lenient && 0 <= pos <= LastNonDigit(inp.bytes)
    requires Hard(ReadDigits(inp, pos, terminator))
    ensures ReadDigits(Relaxed(inp), pos, terminator) == ReadDigits(inp, pos, terminator)
  {
  }

  lemma StringAgree(inp: Input, pos: int)
    requires !inp.lenient && 0 <= pos <= LastNonDigit(inp.bytes)
    requires Hard(ParseString(inp, pos))
    ensures ParseString(Relaxed(inp), pos) == ParseString(inp, pos)
  {
    ReadDigitsAgree(inp, pos, COLON);
  }

  lemma IntegerAgree(inp: Input, pos: int)
    requires !inp.lenient && IntegerFits(inp.bytes, pos)
    requires Hard(ParseInteger(inp, pos))
    ensures ParseInteger(Relaxed(inp), pos) == ParseInteger(inp, pos)
  {
    var start := if inp.bytes[pos + 1] == MINUS then pos + 2 else pos + 1;
    if !(inp.bytes[pos + 1] == MINUS && inp.bytes[start] == ZERO) {
      ReadDigitsAgree(inp, start, CHAR_E);
    }
  }

  /**
    decodeAnything under both policies: unless the strict decoder stops on
    a compliance error, the lenient decoder returns the same value and
    cursor, or the same error.
  */
  lemma {:induction false} AnythingAgree(inp: Input, pos: int)
    requires !inp.lenient && inp.Valid() && 0 <= pos <= inp.max
    requires Hard(ParseAnything(inp, pos))
    ensures ParseAnything(Relaxed(inp), pos) == ParseAnything(inp, pos)
    decreases Left(inp, pos), 2
  {
    var c := inp.bytes[pos];
    if c == CHAR_I {
      IntegerStartStops(inp, pos);
      IntegerAgree(inp, pos);
    } else if c == CHAR_D {
      DictionaryAgree(inp, pos);
    } else if c == CHAR_L {
      assert ParseAnything(inp, pos) == ListItems(inp, pos + 1, []);
      ListAgree(inp, pos + 1, []);
    } else {
      StringAgree(inp, pos);
    }
  }

  /** A dictionary the strict decoder reads without a compliance error never raises the lenient sort flag. */
  lemma DictionaryAgree(inp: Input, pos: int)
    requires !inp.lenient && inp.Valid() && 0 <= pos <= inp.max
    requires Hard(ParseDictionary(inp, pos))
    ensures ParseDictionary(Relaxed(inp), pos) == ParseDictionary(inp, pos)
    decreases Left(inp, pos), 1
  {
    EntriesAgree(inp, pos + 1, None, [], false);
  }

  lemma {:induction false} ListAgree(inp: Input, pos: int, acc: seq<Value>)
    requires !inp.lenient && inp.Valid() && 0 <= pos
    requires Hard(ListItems(inp, pos, acc))
    ensures ListItems(Relaxed(inp), pos, acc) == ListItems(inp, pos, acc)
    decreases Left(inp, pos), 3
  {
    if pos <= inp.max && inp.bytes[pos] != CHAR_E {
      AnythingAgree(inp, pos);
      var item := ParseAnything(inp, pos);
      if item.Success? {
        ListAgree(inp, item.value.1, acc + [item.value.0]);
      }
    }
  }

  lemma {:induction false} EntriesAgree(inp: Input, pos: int, lastKey: Option<seq<byte>>, acc: seq<(seq<byte>, Value)>, sort: bool)
    requires !inp.lenient && inp.Valid() && 0 <= pos
    requires Hard(DictEntries(inp, pos, lastKey, acc, sort))
    ensures DictEntries(Relaxed(inp), pos, lastKey, acc, sort) == DictEntries(inp, pos, lastKey, acc, sort)
    decreases Left(inp, pos), 3
  {
    if pos <= inp.max && inp.bytes[pos] != CHAR_E {
      var e := DictEntry(inp, pos, lastKey);
      EntryAgree(inp, pos, lastKey);
      if e.Success? {
        var (key, x, q) := e.value;
        EntriesTurn(inp, pos, lastKey, acc, sort, key, x, q);
        assert !(lastKey.Some? && Less(key, lastKey.value));
        EntriesAgree(inp, q, Some(key), Put(acc, key, x), sort);
        EntriesTurn(Relaxed(inp), pos, lastKey, acc, sort, key, x, q);
      }
    }
  }

  /** One dictionary entry: the lenient key check passes wherever the strict one does. */
  lemma {:induction false} EntryAgree(inp: Input, pos: int, lastKey: Option<seq<byte>>)
    requires !inp.lenient && inp.Valid() && 0 <= pos <= inp.max
    requires Hard(DictEntry(inp, pos, lastKey))
    ensures DictEntry(Relaxed(inp), pos, lastKey) == DictEntry(inp, pos, lastKey)
    decreases Left(inp, pos), 2
  {
    StringAgree(inp, pos);
    var k := ParseString(inp, pos);
    if k.Success? && KeyCheck(false, pos, k.value.0, lastKey).None? && k.value.1 <= inp.max {
      AnythingAgree(inp, k.value.1);
    }
  }

  /**
    NonCompliantDecoder::decode returns exactly what Decoder::decode
    returns, unless that is a compliance error: every input the strict
    decoder accepts decodes to the same value, and every syntax error is
    reported by both alike.
  */
  lemma LenientAgreesWithStrict(s: seq<byte>)
    requires Hard(Decode(s, false))
    ensures Decode(s, true) == Decode(s, false)
  {
    if s != [] {
      SafeBoundaryIsSafe(s);
      var inp := Input(s, SafeBoundary(s), false);
      if SafeBoundary(s) >= 1 {
        AnythingAgree(inp, 0);
      }
    }
  }

  /** In particular, a compliant input is returned unchanged, dictionaries in wire order. */
  lemma StrictSuccessLenientSame(s: seq<byte>, v: Value)
    requires Decode(s, false) == Success(v)
    ensures Decode(s, true) == Success(v)
  {
    LenientAgreesWithStrict(s);
  }

  // ---------------------------------------------------------------------
  // Every decoded value is canonical
  // ---------------------------------------------------------------------

  /**
    What the dictionary loop has gathered in `acc` after the key
    `lastKey`, with the sort flag `sort`: distinct keys and canonical
    values; and while the flag is down, keys strictly increasing with
    `lastKey` the last of them.
  */
  predicate Gathered(acc: seq<(seq<byte>, Value)>, lastKey: Option<seq<byte>>, sort: bool) {
    && DistinctKeys(acc)
    && (forall k :: 0 <= k < |acc| ==> Canonical(acc[k].1))
    && (!sort ==> StrictlySorted(acc) && lastKey == KeyBefore(acc, |acc|))
  }

  /**
    One iteration of the dictionary loop keeps Gathered: `$values[$key] =`
    overwrites or appends; with the flag still down the new key is not
    smaller than the last, so it either replaces the last entry or goes
    after it.
  */
  lemma GatherStep(acc: seq<(seq<byte>, Value)>, lastKey: Option<seq<byte>>, sort: bool, key: seq<byte>, x: Value)
    requires Gathered(acc, lastKey, sort) && Canonical(x)
    ensures Gathered(Put(acc, key, x), Some(key), sort || (lastKey.Some? && Less(key, lastKey.value)))
  {
    PutCanonical(acc, key, x);
    if !(sort || (lastKey.Some? && Less(key, lastKey.value))) {
      if acc != [] && acc[|acc| - 1].0 == key {
        ReplaceLast(acc, key, x);
      } else {
        StrictDecoding.AppendInOrder(acc, key, x, 0);
      }
    }
  }

  /** Assignment to a key keeps the keys distinct and the values canonical. */
  lemma PutCanonical(acc: seq<(seq<byte>, Value)>, key: seq<byte>, x: Value)
    requires DistinctKeys(acc) && Canonical(x)
    requires forall k :: 0 <= k < |acc| ==> Canonical(acc[k].1)
    ensures DistinctKeys(Put(acc, key, x))
    ensures forall k :: 0 <= k < |Put(acc, key, x)| ==> Canonical(Put(acc, key, x)[k].1)
  {
    PutContents(acc, key, x);
    PutDistinct(acc, key, x);
    var r := Put(acc, key, x);
    forall k | 0 <= k < |r| ensures Canonical(r[k].1) {
      if r[k].0 != key {
        assert r[k] == acc[k];
      }
    }
  }

  /** Assigning to the last key of strictly increasing keys overwrites that entry in place. */
  lemma ReplaceLast(acc: seq<(seq<byte>, Value)>, key: seq<byte>, x: Value)
    requires StrictlySorted(acc) && acc != [] && acc[|acc| - 1].0 == key
    ensures StrictlySorted(Put(acc, key, x))
    ensures KeyBefore(Put(acc, key, x), |Put(acc, key, x)|) == Some(key)
  {
    StrictlySortedDistinct(acc);
    PutContents(acc, key, x);
    var r := Put(acc, key, x);
    assert HasKey(acc, key);
    assert |r| == |acc|;
    forall k | 0 <= k < |acc| ensures r[k].0 == acc[k].0 {
    }
  }

  /** `ksort` keeps the entries, so it keeps their values canonical, and sorts distinct keys strictly. */
  lemma SortCanonical(es: seq<(seq<byte>, Value)>)
    requires Gathered(es, None, true)
    ensures Canonical(VDict(SortByKey(es)))
  {
    var r := SortByKey(es);
    SortByKeyStrict(es);
    forall k | 0 <= k < |r| ensures Canonical(r[k].1) {
      assert r[k] in multiset(es);
      var m :| 0 <= m < |es| && es[m] == r[k];
    }
  }

  /** decodeAnything, under either policy, returns a canonical value. */
  lemma {:induction false} ParsedCanonical(inp: Input, pos: int)
    requires inp.Valid() && 0 <= pos <= inp.max && ParseAnything(inp, pos).Success?
    ensures Canonical(ParseAnything(inp, pos).value.0)
    decreases Left(inp, pos), 2
  {
    var c := inp.bytes[pos];
    if c == CHAR_D {
      DictionaryCanonical(inp, pos);
    } else if c == CHAR_L {
      ListCanonical(inp, pos + 1, []);
    }
  }

  /**
    decodeDictionary, under either policy, returns strictly increasing
    keys: the lenient sort flag is raised by any key smaller than its
    predecessor, and then the entries are sorted.
  */
  lemma DictionaryCanonical(inp: Input, pos: int)
    requires inp.Valid() && 0 <= pos <= inp.max && ParseDictionary(inp, pos).Success?
    ensures Canonical(ParseDictionary(inp, pos).value.0)
    decreases Left(inp, pos), 1
  {
    EntriesCanonical(inp, pos + 1, None, [], false);
    var d := DictEntries(inp, pos + 1, None, [], false).value;
    if d.1 {
      SortCanonical(d.0);
    }
  }

  lemma {:induction false} ListCanonical(inp: Input, pos: int, acc: seq<Value>)
    requires inp.Valid() && 0 <= pos && ListItems(inp, pos, acc).Success?
    requires forall k :: 0 <= k < |acc| ==> Canonical(acc[k])
    ensures Canonical(ListItems(inp, pos, acc).value.0)
    decreases Left(inp, pos), 3
  {
    if pos <= inp.max && inp.bytes[pos] != CHAR_E {
      var item := ParseAnything(inp, pos).value;
      ParsedCanonical(inp, pos);
      ListCanonical(inp, item.1, acc + [item.0]);
    }
  }

  lemma {:induction false} EntriesCanonical(inp: Input, pos: int, lastKey: Option<seq<byte>>, acc: seq<(seq<byte>, Value)>, sort: bool)
    requires inp.Valid() && 0 <= pos && DictEntries(inp, pos, lastKey, acc, sort).Success?
    requires Gathered(acc, lastKey, sort)
    ensures var d := DictEntries(inp, pos, lastKey, acc, sort).value;
      Gathered(d.0, None, true) && (!d.1 ==> StrictlySorted(d.0))
    decreases Left(inp, pos), 3
  {
    if pos <= inp.max && inp.bytes[pos] != CHAR_E {
      var e := DictEntry(inp, pos, lastKey).value;
      EntryCanonical(inp, pos, lastKey);
      GatherStep(acc, lastKey, sort, e.0, e.1);
      EntriesCanonical(inp, e.2, Some(e.0), Put(acc, e.0, e.1), sort || (lastKey.Some? && Less(e.0, lastKey.value)));
    }
  }

  lemma {:induction false} EntryCanonical(inp: Input, pos: int, lastKey: Option<seq<byte>>)
    requires inp.Valid() && 0 <= pos <= inp.max && DictEntry(inp, pos, lastKey).Success?
    ensures Canonical(DictEntry(inp, pos, lastKey).value.1)
    decreases Left(inp, pos), 2
  {
    var k := ParseString(inp, pos).value;
    ParsedCanonical(inp, k.1);
  }

  /**
    Whatever Decoder::decode or NonCompliantDecoder::decode returns is
    canonical: in every dictionary, at every depth, the keys are distinct
    and in increasing byte order.
  */
  lemma DecodedCanonical(s: seq<byte>, lenient: bool, v: Value)
    requires Decode(s, lenient) == Success(v)
    ensures Canonical(v)
  {
    SafeBoundaryIsSafe(s);
    ParsedCanonical(Input(s, SafeBoundary(s), lenient), 0);
  }

  /**
    NonCompliantDecoder::decode with the boundary as src/Decoder.php
    writes it: whatever it accepts, the corrected decoder returns alike,
    a canonical value that both decoders read back from its wire form.
  */
  lemma AsWrittenLenientAgrees(s: seq<byte>, v: Value)
    requires DecodeAsWritten(s, true) == Success(v)
    ensures Decode(s, true) == Success(v) && Canonical(v)
    ensures Decode(Serialize(v), false) == Success(v)
  {
    AsWrittenAgrees(s, true);
    LenientNormalises(s, v);
    DecodedCanonical(s, true, v);
  }

  /**
    The lenient decoder normalises: Encoder::encode accepts what it
    returns and writes the wire form, which both decoders read back as the
    same value.
  */
  lemma LenientNormalises(s: seq<byte>, v: Value)
    requires Decode(s, true) == Success(v)
    ensures Encode(FromValue(v)) == Success(Serialize(v))
    ensures Decode(Serialize(v), false) == Success(v)
    ensures Decode(Serialize(v), true) == Success(v)
  {
    DecodedCanonical(s, true, v);
    EncodeFromValue(v);
    DecodeSerialized(v, false);
    DecodeSerialized(v, true);
  }

  // ---------------------------------------------------------------------
  // Where the two policies part
  // ---------------------------------------------------------------------

  /** `i-0e`: negative zero is a compliance error at the `0`; the lenient decoder reads 0. */
  lemma NegativeZero()
    ensures Decode([CHAR_I, MINUS, ZERO, CHAR_E], false) == Failure(DecodeError(IllegalCharacter, Some(2), true))
    ensures Decode([CHAR_I, MINUS, ZERO, CHAR_E], true) == Success(VInt(0))
  {
    var s := [CHAR_I, MINUS, ZERO, CHAR_E];
    assert LastNonDigit(s) == 3;
    assert DigitRun(s, 2) == 1;
    assert ParseDigits([ZERO]) == 0;
  }

  /** The wire form of a dictionary with two entries, in the order given: `d`, the first key and value, the second key and value, `e`. */
  function TwoEntries(k1: seq<byte>, v1: Value, k2: seq<byte>, v2: Value): seq<byte> {
    [CHAR_D] + EncodeString(k1) + Serialize(v1) + EncodeString(k2) + Serialize(v2) + [CHAR_E]
  }

  /** TwoEntries laid out in an input: `d` at 0, the first key at 1, its value at `m1`, the second key at `p2`, its value at `m2`, and at `q` the `e`, which ends the input and is its boundary. */
  predicate TwoLaid(inp: Input, k1: seq<byte>, v1: Value, k2: seq<byte>, v2: Value, m1: int, p2: int, m2: int, q: int) {
    && inp.Valid() && Canonical(v1) && Canonical(v2)
    && inp.max == q && q + 1 == |inp.bytes|
    && m1 == 1 + |EncodeString(k1)| && p2 == m1 + |Serialize(v1)| && m2 == p2 + |EncodeString(k2)| && q == m2 + |Serialize(v2)|
    && Encodes(inp, 0, [CHAR_D]) && Encodes(inp, 1, EncodeString(k1)) && Encodes(inp, m1, Serialize(v1))
    && Encodes(inp, p2, EncodeString(k2)) && Encodes(inp, m2, Serialize(v2)) && Encodes(inp, q, [CHAR_E])
  }

  /** TwoEntries as the whole input, under either policy. */
  lemma TwoEntriesInput(k1: seq<byte>, v1: Value, k2: seq<byte>, v2: Value, lenient: bool) returns (inp: Input, m1: int, p2: int, m2: int, q: int)
    requires Canonical(v1) && Canonical(v2)
    ensures inp == Input(TwoEntries(k1, v1, k2, v2), q, lenient) && q == SafeBoundary(inp.bytes)
    ensures TwoLaid(inp, k1, v1, k2, v2, m1, p2, m2, q)
  {
    var s := TwoEntries(k1, v1, k2, v2);
    var e1, w1, e2, w2 := EncodeString(k1), Serialize(v1), EncodeString(k2), Serialize(v2);
    m1 := 1 + |e1|;
    p2 := m1 + |w1|;
    m2 := p2 + |e2|;
    q := m2 + |w2|;
    ClosedBoundary(s);
    inp := Input(s, q, lenient);
    EncodesOf(inp, 0, s);
    TwoEntriesSplit(inp, e1, w1, e2, w2, m1, p2, m2, q);
  }

  /** The pieces of TwoEntries, each at its offset. */
  lemma TwoEntriesSplit(inp: Input, e1: seq<byte>, w1: seq<byte>, e2: seq<byte>, w2: seq<byte>, m1: int, p2: int, m2: int, q: int)
    requires m1 == 1 + |e1| && p2 == m1 + |w1| && m2 == p2 + |e2| && q == m2 + |w2|
    requires Encodes(inp, 0, [CHAR_D] + e1 + w1 + e2 + w2 + [CHAR_E])
    ensures Encodes(inp, 0, [CHAR_D]) && Encodes(inp, 1, e1) && Encodes(inp, m1, w1)
    ensures Encodes(inp, p2, e2) && Encodes(inp, m2, w2) && Encodes(inp, q, [CHAR_E])
  {
    EncodesSplit3(inp, 0, [CHAR_D] + e1 + w1 + e2, w2, [CHAR_E], m2, q);
    EncodesSplit3(inp, 0, [CHAR_D] + e1, w1, e2, m1, p2);
    EncodesSplitAt(inp, 0, [CHAR_D], e1, 1);
  }

  /** An input that ends with `e` has its boundary on that last byte. */
  lemma ClosedBoundary(s: seq<byte>)
    requires |s| >= 1 && s[|s| - 1] == CHAR_E
    ensures SafeBoundary(s) == |s| - 1 && Safe(s, |s| - 1)
  {
    assert LastNonDigit(s) == |s| - 1;
  }

  /** What the decoder reads in TwoEntries: the first entry, the second key, the second value. */
  lemma TwoEntriesRead(inp: Input, k1: seq<byte>, v1: Value, k2: seq<byte>, v2: Value, m1: int, p2: int, m2: int, q: int)
    requires TwoLaid(inp, k1, v1, k2, v2, m1, p2, m2, q)
    ensures inp.bytes[0] == CHAR_D && inp.bytes[p2] != CHAR_E && inp.bytes[q] == CHAR_E
    ensures ParseAnything(inp, 0) == ParseDictionary(inp, 0)
    ensures DictEntries(inp, 1, None, [], false) == DictEntries(inp, p2, Some(k1), [(k1, v1)], false)
    ensures ParseString(inp, p2) == Success((k2, m2))
    ensures ParseAnything(inp, m2) == Success((v2, q))
  {
    EncodesFirst(inp, 0, [CHAR_D]);
    EncodesFirst(inp, q, [CHAR_E]);
    DigitsCanonical(|k1|);
    DigitsCanonical(|k2|);
    EncodesFirst(inp, 1, EncodeString(k1));
    EncodesFirst(inp, p2, EncodeString(k2));
    DictEntryOf(inp, 1, k1, m1, v1, p2, None);
    DictEntriesStep(inp, 1, None, [], k1, v1, p2);
    ParseStringOf(inp, p2, k2, m2);
    ParseSerialized(inp, m2, v2, q);
  }

  /**
    What the decoder reads in an input holding two dictionary entries:
    `d`, a first entry that decodes and ends at `p2`, where the second key
    starts; the second value starts at `m2` and ends at `q`, the closing
    `e`, which is the last byte and the boundary.
  */
  predicate TwoParsed(inp: Input, k1: seq<byte>, v1: Value, k2: seq<byte>, v2: Value, p2: int, m2: int, q: int) {
    && inp.Valid() && inp.bytes != [] && inp.max == SafeBoundary(inp.bytes)
    && q == inp.max && q + 1 == |inp.bytes| && 1 <= p2 < m2 < q
    && inp.bytes[p2] != CHAR_E && inp.bytes[q] == CHAR_E
    && ParseAnything(inp, 0) == ParseDictionary(inp, 0)
    && DictEntries(inp, 1, None, [], false) == DictEntries(inp, p2, Some(k1), [(k1, v1)], false)
    && ParseString(inp, p2) == Success((k2, m2))
    && ParseAnything(inp, m2) == Success((v2, q))
  }

  /** TwoEntries as the whole input, under either policy, as the decoder reads it. */
  lemma TwoEntriesParsed(k1: seq<byte>, v1: Value, k2: seq<byte>, v2: Value, lenient: bool) returns (inp: Input, p2: int, m2: int, q: int)
    requires Canonical(v1) && Canonical(v2)
    ensures inp == Input(TwoEntries(k1, v1, k2, v2), SafeBoundary(TwoEntries(k1, v1, k2, v2)), lenient)
    ensures p2 == 1 + |EncodeString(k1)| + |Serialize(v1)|
    ensures TwoParsed(inp, k1, v1, k2, v2, p2, m2, q)
  {
    var m1;
    inp, m1, p2, m2, q := TwoEntriesInput(k1, v1, k2, v2, lenient);
    TwoEntriesRead(inp, k1, v1, k2, v2, m1, p2, m2, q);
  }

  /** The second entry's key fails the strict check: decoding stops there with that error. */
  lemma SecondKeyRejected(inp: Input, k1: seq<byte>, v1: Value, k2: seq<byte>, v2: Value, p2: int, m2: int, q: int, e: DecodeError)
    requires TwoParsed(inp, k1, v1, k2, v2, p2, m2, q)
    requires KeyCheck(inp.lenient, p2, k2, Some(k1)) == Some(e)
    ensures Decode(inp.bytes, inp.lenient) == Failure(e)
  {
    assert DictEntry(inp, p2, Some(k1)) == Failure(e);
    assert DictEntries(inp, p2, Some(k1), [(k1, v1)], false) == Failure(e);
  }

  /** The second entry's key passes the check: the dictionary holds what the loop gathered, sorted when the flag went up. */
  lemma SecondKeyAccepted(inp: Input, k1: seq<byte>, v1: Value, k2: seq<byte>, v2: Value, p2: int, m2: int, q: int)
    requires TwoParsed(inp, k1, v1, k2, v2, p2, m2, q)
    requires KeyCheck(inp.lenient, p2, k2, Some(k1)).None?
    ensures var es := Put([(k1, v1)], k2, v2);
      Decode(inp.bytes, inp.lenient) == Success(VDict(if Less(k2, k1) then SortByKey(es) else es))
  {
    var es := Put([(k1, v1)], k2, v2);
    var d := if Less(k2, k1) then SortByKey(es) else es;
    SecondEntryGathered(inp, k1, v1, k2, v2, p2, m2, q);
    assert ParseAnything(inp, 0) == Success((VDict(d), |inp.bytes|));
    DecodeWhole(inp, VDict(d));
  }

  /** The dictionary loop over both entries, the second key passing its check: the flag goes up exactly when it is smaller. */
  lemma SecondEntryGathered(inp: Input, k1: seq<byte>, v1: Value, k2: seq<byte>, v2: Value, p2: int, m2: int, q: int)
    requires TwoParsed(inp, k1, v1, k2, v2, p2, m2, q)
    requires KeyCheck(inp.lenient, p2, k2, Some(k1)).None?
    ensures DictEntries(inp, 1, None, [], false) == Success((Put([(k1, v1)], k2, v2), Less(k2, k1), q + 1))
  {
    var es := Put([(k1, v1)], k2, v2);
    DictEntryFrom(inp, p2, k2, v2, Some(k1), m2, q);
    EntriesTurn(inp, p2, Some(k1), [(k1, v1)], false, k2, v2, q);
    EntriesClose(inp, q, Some(k2), es, Less(k2, k1));
  }

  /** One turn of the dictionary loop, under either policy: the entry is assigned and the flag raised by a smaller key. */
  lemma EntriesTurn(inp: Input, p: int, lastKey: Option<seq<byte>>, acc: seq<(seq<byte>, Value)>, sort: bool,
                    key: seq<byte>, x: Value, q: int)
    requires inp.Valid() && 0 <= p <= inp.max && inp.bytes[p] != CHAR_E
    requires DictEntry(inp, p, lastKey) == Success((key, x, q))
    ensures DictEntries(inp, p, lastKey, acc, sort)
      == DictEntries(inp, q, Some(key), Put(acc, key, x), sort || (lastKey.Some? && Less(key, lastKey.value)))
  {
  }

  /** The dictionary loop at its closing `e`. */
  lemma EntriesClose(inp: Input, p: int, lastKey: Option<seq<byte>>, acc: seq<(seq<byte>, Value)>, sort: bool)
    requires inp.Valid() && 0 <= p <= inp.max && inp.bytes[p] == CHAR_E
    ensures DictEntries(inp, p, lastKey, acc, sort) == Success((acc, sort, p + 1))
  {
  }

  /**
    A second key that sorts before the first: Decoder::decode reports
    "Out of order dictionary entry" at offset `at`, where that key starts.
  */
  lemma OutOfOrderStrict(k1: seq<byte>, v1: Value, k2: seq<byte>, v2: Value) returns (at: int)
    requires Canonical(v1) && Canonical(v2) && Less(k2, k1)
    ensures at == 1 + |EncodeString(k1)| + |Serialize(v1)|
    ensures Decode(TwoEntries(k1, v1, k2, v2), false) == Failure(DecodeError(OutOfOrderEntry(k2), Some(at), true))
  {
    var inp, m2, q;
    inp, at, m2, q := TwoEntriesParsed(k1, v1, k2, v2, false);
    LessIrreflexive(k2);
    SecondKeyRejected(inp, k1, v1, k2, v2, at, m2, q, DecodeError(OutOfOrderEntry(k2), Some(at), true));
  }

  /**
    The same dictionary under NonCompliantDecoder: both entries are kept,
    the sort flag goes up, and the dictionary comes back sorted by key.
  */
  lemma OutOfOrderSorted(k1: seq<byte>, v1: Value, k2: seq<byte>, v2: Value)
    requires Canonical(v1) && Canonical(v2) && Less(k2, k1)
    ensures Decode(TwoEntries(k1, v1, k2, v2), true) == Success(VDict([(k2, v2), (k1, v1)]))
  {
    var inp, p2, m2, q := TwoEntriesParsed(k1, v1, k2, v2, true);
    SecondKeyAccepted(inp, k1, v1, k2, v2, p2, m2, q);
    SortTwo(k1, v1, k2, v2);
  }

  /** Two entries whose keys are out of order: assignment appends the second, and `ksort` swaps them. */
  lemma SortTwo(k1: seq<byte>, v1: Value, k2: seq<byte>, v2: Value)
    requires Less(k2, k1)
    ensures Put([(k1, v1)], k2, v2) == [(k1, v1), (k2, v2)]
    ensures SortByKey([(k1, v1), (k2, v2)]) == [(k2, v2), (k1, v1)]
  {
    LessIrreflexive(k2);
    LessAsymmetric(k2, k1);
    var both := [(k1, v1), (k2, v2)];
    assert both[1..] == [(k2, v2)];
    assert SortByKey(both[1..]) == [(k2, v2)];
  }

  /**
    A key repeated: Decoder::decode reports "Duplicate dictionary entry" at
    offset `at`, where the second occurrence starts.
  */
  lemma RepeatedKeyStrict(k: seq<byte>, v1: Value, v2: Value) returns (at: int)
    requires Canonical(v1) && Canonical(v2)
    ensures at == 1 + |EncodeString(k)| + |Serialize(v1)|
    ensures Decode(TwoEntries(k, v1, k, v2), false) == Failure(DecodeError(DuplicateEntry(k), Some(at), true))
  {
    var inp, m2, q;
    inp, at, m2, q := TwoEntriesParsed(k, v1, k, v2, false);
    SecondKeyRejected(inp, k, v1, k, v2, at, m2, q, DecodeError(DuplicateEntry(k), Some(at), true));
  }

  /** Under NonCompliantDecoder the later value overwrites the earlier one, and a single entry remains. */
  lemma RepeatedKeyOverwrites(k: seq<byte>, v1: Value, v2: Value)
    requires Canonical(v1) && Canonical(v2)
    ensures Decode(TwoEntries(k, v1, k, v2), true) == Success(VDict([(k, v2)]))
  {
    var inp, p2, m2, q := TwoEntriesParsed(k, v1, k, v2, true);
    LessIrreflexive(k);
    SecondKeyAccepted(inp, k, v1, k, v2, p2, m2, q);
    assert Put([(k, v1)], k, v2) == [(k, v2)];
  }

  /** Appending bytes to an input never moves its boundary back. */
  lemma BoundaryGrows(w: seq<byte>, t: seq<byte>)
    ensures SafeBoundary(w + t) >= SafeBoundary(w)
  {
    var s := w + t;
    var b, c := LastNonDigit(s), LastNonDigit(w);
    if c >= 0 {
      assert s[c] == w[c];
    }
    if 0 <= b < |w| {
      assert s[b] == w[b];
      assert c == b;
      if b >= 1 {
        assert s[b - 1] == w[b - 1];
      }
    } else if 1 <= b == |w| && s[b] == MINUS && s[b - 1] == CHAR_I {
      assert w[|w| - 1] == CHAR_I;
    }
  }

  /** Decoder::decode when the value at 0 ends before the end of the input. */
  lemma DecodeStopsShort(inp: Input, v: Value, end: int)
    requires inp.bytes != [] && inp.max == SafeBoundary(inp.bytes) && inp.max >= 1
    requires inp.Valid() && ParseAnything(inp, 0) == Success((v, end)) && end < |inp.bytes|
    ensures Decode(inp.bytes, inp.lenient)
      == if inp.lenient then Success(v) else Failure(DecodeError(SuperfluousContent, Some(end), true))
  {
  }

  /**
    A complete value followed by more bytes: Decoder::decode reports
    "Superfluous content" at offset `at`, where the value ends; the lenient
    decoder ignores the rest and returns the value.
  */
  lemma TrailingContent(v: Value, t: seq<byte>, lenient: bool) returns (at: int)
    requires Canonical(v) && t != []
    ensures at == |Serialize(v)|
    ensures Decode(Serialize(v) + t, lenient)
      == if lenient then Success(v) else Failure(DecodeError(SuperfluousContent, Some(at), true))
  {
    var w := Serialize(v);
    var s := w + t;
    at := |w|;
    SerializedBoundary(v);
    BoundaryGrows(w, t);
    SafeBoundaryIsSafe(s);
    var inp := Input(s, SafeBoundary(s), lenient);
    EncodesOf(inp, 0, w);
    assert Laid(inp, 0, v, at);
    ParseSerialized(inp, 0, v, at);
    DecodeStopsShort(inp, v, at);
  }
}
