/**
  The decoder object of src/Decoder.php with the lenient overrides of
  src/NonCompliantDecoder.php: a cursor `offset` that every method moves
  forward in place, the safe boundary `max`, and the lenient policy's
  per-dictionary `sortDictionary` flag. Exceptions are `Failure` results.
  Every method is proved to agree with the functions of DecoderSpec: same
  value, same final cursor, same error.
*/
module Decoders {
  import opened Wrappers
  import opened Decimal
  import opened ByteOrder
  import opened Values
  import opened DecoderSpec

  /** The method ran as the specification function says: on success the same value and the cursor where the function stops, otherwise the same error. */
  predicate Agrees<T(==)>(r: Result<T, DecodeError>, offset: int, spec: Result<(T, int), DecodeError>) {
    match spec
    case Success(p) => r == Success(p.0) && offset == p.1
    case Failure(e) => r == Failure(e)
  }

  class Decoder {
    /** The bencoded input; never empty. */
    const bytes: seq<byte>
    /** true for NonCompliantDecoder, false for Decoder. */
    const lenient: bool
    /** Safe rightmost boundary: no value starts after it. */
    const max: int
    /** Position of the cursor while decoding. */
    var offset: int
    /** Whether the dictionary being decoded needs sorting (lenient policy only). */
    var sortDictionary: bool

    function In(): Input {
      Input(bytes, max, lenient)
    }

    /** What every decoding method relies on: the strict policy never raises the sort flag. */
    predicate Ready()
      reads this`sortDictionary
    {
      In().Valid() && (!lenient ==> !sortDictionary)
    }

    /**
      __construct: the input must not be empty (the caller rejects it);
      the cursor starts at 0 and the safe boundary is computed up front.
    */
    constructor (s: seq<byte>, lenient: bool)
      requires s != []
      ensures bytes == s && this.lenient == lenient && max == SafeBoundary(s)
      ensures offset == 0 && !sortDictionary
    {
      bytes := s;
      this.lenient := lenient;
      var boundary := ComputeSafeBoundary(s);
      max := boundary;
      offset := 0;
      sortDictionary := false;
    }

    /** complianceError: the strict policy raises the error, the lenient one ignores it. */
    function ComplianceError(at: int, kind: ErrorKind): (r: Option<DecodeError>)
      ensures r.None? <==> lenient
      ensures r.Some? ==> r.value.compliance && r.value.offset == Some(at) && r.value.kind == kind
    {
      if lenient then None else Some(DecodeError(kind, Some(at), true))
    }

    /**
      dictionaryComplianceError, reached when `key` is not greater than
      `lastKey`. The strict policy raises "Duplicate dictionary entry" or
      "Out of order dictionary entry" at the key's offset; the lenient one
      (checkDictionaryCompliance) only raises the sort flag, and only for a
      smaller key.
    */
    method DictionaryComplianceError(at: int, key: seq<byte>, lastKey: seq<byte>) returns (r: Option<DecodeError>)
      modifies this`sortDictionary
      ensures r == KeyCheck(lenient, at, key, Some(lastKey))
      ensures sortDictionary == (old(sortDictionary) || (lenient && Less(key, lastKey)))
    {
      if lenient {
        CheckDictionaryCompliance(key, lastKey);
        return None;
      }
      if key == lastKey {
        LessIrreflexive(key);
        r := ComplianceError(at, DuplicateEntry(key));
      } else if Less(key, lastKey) {
        r := ComplianceError(at, OutOfOrderEntry(key));
      } else {
        r := None;
      }
    }

    /** NonCompliantDecoder::checkDictionaryCompliance: a key smaller than its predecessor raises the sort flag; an equal one does not. */
    method CheckDictionaryCompliance(key: seq<byte>, lastKey: seq<byte>)
      modifies this`sortDictionary
      ensures sortDictionary == (old(sortDictionary) || Less(key, lastKey))
    {
      if !sortDictionary && Less(key, lastKey) {
        sortDictionary := true;
      }
    }

    /** decodeDigits: the digit run under the cursor and its terminator. */
    method DecodeDigits(terminator: byte) returns (r: Result<nat, DecodeError>)
      requires 0 <= offset <= LastNonDigit(bytes)
      modifies this`offset
      ensures Agrees(r, offset, ReadDigits(In(), old(offset), terminator))
    {
      var start := offset;
      var spn := DigitRun(bytes, start);
      DigitRunStops(bytes, start);
      if spn == 0 {
        return Failure(Illegal(start));
      }
      if bytes[start] == ZERO && spn > 1 {
        var e := ComplianceError(start + 1, IllegalCharacter);
        if e.Some? {
          return Failure(e.value);
        }
      }
      var value := ParseDigits(bytes[start..start + spn]);
      offset := start + spn;
      if bytes[start + spn] != terminator {
        return Failure(Illegal(start + spn));
      }
      offset := start + spn + 1;
      return Success(value);
    }

    /** decodeInteger: `i`, an optional `-`, the digits and `e`. */
    method DecodeInteger() returns (r: Result<Value, DecodeError>)
      requires IntegerFits(bytes, offset)
      modifies this`offset
      ensures Agrees(r, offset, ParseInteger(In(), old(offset)))
    {
      var start := offset;
      offset := start + 1;
      var negative := bytes[start + 1] == MINUS;
      if negative {
        offset := start + 2;
        if bytes[start + 2] == ZERO {
          var e := ComplianceError(start + 2, IllegalCharacter);
          if e.Some? {
            return Failure(e.value);
          }
        }
      }
      var value :- DecodeDigits(CHAR_E);
      return Success(VInt(if negative then -(value as int) else value));
    }

    /** decodeString: the length, `:`, and that many bytes (fewer at the end of the input). */
    method DecodeString() returns (r: Result<seq<byte>, DecodeError>)
      requires 0 <= offset <= LastNonDigit(bytes)
      modifies this`offset
      ensures Agrees(r, offset, ParseString(In(), old(offset)))
    {
      var len :- DecodeDigits(COLON);
      var str := Substr(bytes, offset, len);
      offset := offset + len;
      return Success(str);
    }

    /** decodeAnything: dispatch on the byte under the cursor. Nested dictionaries leave the sort flag as they found it. */
    method DecodeAnything() returns (r: Result<Value, DecodeError>)
      requires Ready() && 0 <= offset <= max
      modifies this`offset, this`sortDictionary
      ensures Agrees(r, offset, ParseAnything(In(), old(offset)))
      ensures r.Success? ==> sortDictionary == old(sortDictionary)
      decreases Left(In(), offset), 3
    {
      var c := bytes[offset];
      if c == CHAR_I {
        IntegerStartStops(In(), offset);
        r := DecodeInteger();
      } else if c == CHAR_D {
        r := DecodeDictionary();
      } else if c == CHAR_L {
        r := DecodeList();
      } else {
        var str :- DecodeString();
        r := Success(VStr(str));
      }
    }

    /** decodeList: values in wire order until `e`; leaving the safe region first is "Premature end of data". */
    method DecodeList() returns (r: Result<Value, DecodeError>)
      requires Ready() && 0 <= offset <= max
      modifies this`offset, this`sortDictionary
      ensures Agrees(r, offset, ParseList(In(), old(offset)))
      ensures r.Success? ==> sortDictionary == old(sortDictionary)
      decreases Left(In(), offset), 1
    {
      offset := offset + 1;
      var list: seq<Value> := [];
      ghost var spec := ListItems(In(), offset, list);
      while offset <= max
        invariant old(offset) < offset
        invariant Ready() && sortDictionary == old(sortDictionary)
        invariant ListItems(In(), offset, list) == spec
        decreases Left(In(), offset)
      {
        if bytes[offset] == CHAR_E {
          offset := offset + 1;
          return Success(VList(list));
        }
        var item :- DecodeAnything();
        list := list + [item];
      }
      return Failure(Premature);
    }

    /**
      NonCompliantDecoder::decodeDictionary around Decoder::decodeDictionary:
      the lenient policy saves the sort flag, clears it for this dictionary,
      sorts the entries by key when a smaller key raised it, and restores it.
    */
    method DecodeDictionary() returns (r: Result<Value, DecodeError>)
      requires Ready() && 0 <= offset <= max
      modifies this`offset, this`sortDictionary
      ensures Agrees(r, offset, ParseDictionary(In(), old(offset)))
      ensures r.Success? ==> sortDictionary == old(sortDictionary)
      decreases Left(In(), offset), 2
    {
      if !lenient {
        r := DecodeDictionaryEntries();
        return;
      }
      var previousState := sortDictionary;
      sortDictionary := false;
      var dictionary :- DecodeDictionaryEntries();
      if sortDictionary {
        dictionary := VDict(SortByKey(dictionary.entries));
      }
      sortDictionary := previousState;
      return Success(dictionary);
    }

    /**
      Decoder::decodeDictionary: entries until `e`; an entry whose key is
      already present overwrites the earlier one in place. Leaving the safe
      region first is "Premature end of data".
    */
    method DecodeDictionaryEntries() returns (r: Result<Value, DecodeError>)
      requires Ready() && 0 <= offset <= max
      modifies this`offset, this`sortDictionary
      ensures match DictEntries(In(), old(offset) + 1, None, [], old(sortDictionary))
        case Success(d) => r == Success(VDict(d.0)) && offset == d.2 && sortDictionary == d.1
        case Failure(e) => r == Failure(e)
      decreases Left(In(), offset), 1
    {
      var values: seq<(seq<byte>, Value)> := [];
      var lastKey: Option<seq<byte>> := None;
      offset := offset + 1;
      ghost var spec := DictEntries(In(), offset, lastKey, values, sortDictionary);
      while offset <= max
        invariant old(offset) < offset
        invariant !lenient ==> sortDictionary == old(sortDictionary)
        invariant DictEntries(In(), offset, lastKey, values, sortDictionary) == spec
        decreases Left(In(), offset)
      {
        if bytes[offset] == CHAR_E {
          offset := offset + 1;
          return Success(VDict(values));
        }
        var entry :- DecodeEntry(lastKey);
        values := Put(values, entry.0, entry.1);
        lastKey := Some(entry.0);
      }
      return Failure(Premature);
    }

    /**
      The body of decodeDictionary's loop: the key, the call to
      dictionaryComplianceError when it is not greater than the previous
      key, the check that a value can start, and the value.
    */
    method DecodeEntry(lastKey: Option<seq<byte>>) returns (r: Result<(seq<byte>, Value), DecodeError>)
      requires Ready() && 0 <= offset <= max
      modifies this`offset, this`sortDictionary
      ensures match DictEntry(In(), old(offset), lastKey)
        case Success(e) =>
          && r == Success((e.0, e.1)) && offset == e.2
          && sortDictionary == (old(sortDictionary) || (lenient && lastKey.Some? && Less(e.0, lastKey.value)))
        case Failure(e) => r == Failure(e)
      decreases Left(In(), offset), 0
    {
      var keyStart := offset;
      var key :- DecodeString();
      if lastKey.Some? && (key == lastKey.value || Less(key, lastKey.value)) {
        var e := DictionaryComplianceError(keyStart, key, lastKey.value);
        if e.Some? {
          return Failure(e.value);
        }
      }
      if offset > max {
        return Failure(Premature);
      }
      var value :- DecodeAnything();
      return Success((key, value));
    }
  }

  /**
    computeSafeBoundary: walk back over the trailing digits, then step back
    past an `i`, or past the `i-` prefix of a negative integer.
  */
  method ComputeSafeBoundary(s: seq<byte>) returns (boundary: int)
    requires s != []
    ensures boundary == SafeBoundary(s)
  {
    boundary := |s| - 1;
    var c := s[boundary];
    while IsDigit(c) && boundary >= 0
      invariant -1 <= boundary < |s|
      invariant boundary >= 0 ==> c == s[boundary]
      invariant boundary < 0 ==> IsDigit(c)
      invariant forall k :: boundary < k < |s| ==> IsDigit(s[k])
      decreases boundary
    {
      boundary := boundary - 1;
      if boundary >= 0 {
        c := s[boundary];
      }
    }
    LastNonDigitUnique(s, boundary);
    if c == MINUS && boundary >= 1 && s[boundary - 1] == CHAR_I {
      boundary := boundary - 2;
    } else if c == CHAR_I {
      boundary := boundary - 1;
    }
  }

  /** The index where the backwards scan over trailing digits stops is the last non-digit byte. */
  lemma LastNonDigitUnique(s: seq<byte>, b: int)
    requires -1 <= b < |s|
    requires b >= 0 ==> !IsDigit(s[b])
    requires forall k :: b < k < |s| ==> IsDigit(s[k])
    ensures b == LastNonDigit(s)
  {
  }

  /**
    Decoder::decode and NonCompliantDecoder::decode: reject the empty input,
    construct the decoder, compute the boundary, decode one value and check
    that it ends exactly at the end of the input.
  */
  method Decode(s: seq<byte>, lenient: bool) returns (r: Result<Value, DecodeError>)
    ensures r == DecoderSpec.Decode(s, lenient)
  {
    if s == [] {
      return Failure(DecodeError(EmptyInput, None, false));
    }
    var decoder := new Decoder(s, lenient);
    var e := CheckBoundary(s, decoder.max);
    SafeBoundaryIsSafe(s);
    if e.Some? {
      return Failure(e.value);
    }
    var value :- decoder.DecodeAnything();
    e := CheckCursorPosition(decoder.In(), decoder.offset);
    if e.Some? {
      return Failure(e.value);
    }
    return Success(value);
  }
}
