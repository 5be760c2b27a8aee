/**
  The strict and the lenient decoder of src/Decoder.php and
  src/NonCompliantDecoder.php, as functions of the input bytes and a
  cursor position. Each function returns the decoded value together with
  the position just past it, or the error the PHP code throws there. The
  class in module Decoders runs the same algorithm with a mutable cursor
  and is proved to agree with these functions.

  The PHP code never checks the end of the buffer before reading a byte:
  it relies on the safe boundary `max` computed up front. Here every read
  is a sequence index, so the preconditions below (a value only starts at
  a position <= max, and `max` satisfies `Safe`) are exactly what makes
  those reads legal.
*/
module DecoderSpec {
  import opened Wrappers
  import opened Decimal
  import opened ByteOrder
  import opened Values

  /** Index of the last byte that is not a decimal digit, -1 if there is none. */
  function LastNonDigit(s: seq<byte>): (b: int)
    ensures -1 <= b < |s|
    ensures b >= 0 ==> !IsDigit(s[b])
    ensures forall k :: b < k < |s| ==> IsDigit(s[k])
  {
    LastNonDigitBelow(s, |s|)
  }

  /** Index of the last non-digit byte before index `n`, -1 if there is none. */
  function LastNonDigitBelow(s: seq<byte>, n: nat): (b: int)
    requires n <= |s|
    ensures -1 <= b < n
    ensures b >= 0 ==> !IsDigit(s[b])
    ensures forall k :: b < k < n ==> IsDigit(s[k])
    decreases n
  {
    if n == 0 then -1
    else if !IsDigit(s[n - 1]) then n - 1
    else LastNonDigitBelow(s, n - 1)
  }

  /**
    The boundary as src/Decoder.php computes it: skip the trailing digits,
    then step back one more byte past an `i` and two past a `-`, whatever
    precedes the `-`.
  */
  function SafeBoundaryAsWritten(s: seq<byte>): int
  {
    var b := LastNonDigit(s);
    if b < 0 then -1
    else if s[b] == MINUS then b - 2
    else if s[b] == CHAR_I then b - 1
    else b
  }

  /**
    The boundary the decoder uses: the same, except that a trailing `-` is
    only stepped over when it is the sign of an `i-` integer prefix, as the
    PHP doc comment describes ("optionally preceded by i or i-").
  */
  function SafeBoundary(s: seq<byte>): int
  {
    var b := LastNonDigit(s);
    if b < 0 then -1
    else if s[b] == MINUS && b >= 1 && s[b - 1] == CHAR_I then b - 2
    else if s[b] == CHAR_I then b - 1
    else b
  }

  /**
    What a boundary must satisfy for every read of the decoder to be in
    bounds: no value starts after the last non-digit byte, nor on an `i` or
    `i-` that only digits follow.
  */
  predicate Safe(s: seq<byte>, max: int) {
    var b := LastNonDigit(s);
    && max <= b
    && (0 <= b && s[b] == CHAR_I ==> max < b)
    && (1 <= b && s[b] == MINUS && s[b - 1] == CHAR_I ==> max < b - 1)
  }

  lemma SafeBoundaryIsSafe(s: seq<byte>)
    ensures Safe(s, SafeBoundary(s))
    ensures SafeBoundary(s) < |s|
  {
  }

  lemma SafeBoundaryAsWrittenIsSafe(s: seq<byte>)
    ensures Safe(s, SafeBoundaryAsWritten(s))
    ensures SafeBoundaryAsWritten(s) <= SafeBoundary(s)
  {
  }

  /** The decoder's fixed state: the bytes, the safe boundary and the policy (strict or lenient). */
  datatype Input = Input(bytes: seq<byte>, max: int, lenient: bool) {
    predicate Valid() {
      Safe(bytes, max)
    }
  }

  /** An error whose offset, when it has one, lies in the input at or after `pos`; the lenient policy never raises a compliance error. */
  predicate ErrorWithin(inp: Input, e: DecodeError, pos: int) {
    && (e.offset.Some? ==> pos <= e.offset.value < |inp.bytes|)
    && (inp.lenient ==> !e.compliance)
    && e.kind != EmptyInput
  }

  /** `strspn(s, '0123456789', pos)`: the length of the digit run at `pos`. */
  function DigitRun(s: seq<byte>, pos: int): (n: nat)
    requires 0 <= pos <= |s|
    ensures pos + n <= |s|
    ensures AllDigits(s[pos..pos + n])
    ensures pos + n < |s| ==> !IsDigit(s[pos + n])
    decreases |s| - pos
  {
    if pos < |s| && IsDigit(s[pos]) then
      var n := 1 + DigitRun(s, pos + 1);
      assert s[pos..pos + n] == [s[pos]] + s[pos + 1..pos + n];
      n
    else 0
  }

  /** A digit run that starts at or before the last non-digit byte ends before it. */
  lemma DigitRunStops(s: seq<byte>, pos: int)
    requires 0 <= pos <= LastNonDigit(s)
    ensures pos + DigitRun(s, pos) <= LastNonDigit(s)
  {
  }

  /** Room for an integer at `pos`: its sign and first digit come before the last non-digit byte. */
  predicate IntegerFits(s: seq<byte>, pos: int) {
    && 0 <= pos && pos + 1 <= LastNonDigit(s)
    && (s[pos + 1] == MINUS ==> pos + 2 <= LastNonDigit(s))
  }

  /** An integer that starts at or before the boundary has room. */
  lemma IntegerStartStops(inp: Input, pos: int)
    requires inp.Valid() && 0 <= pos <= inp.max && inp.bytes[pos] == CHAR_I
    ensures IntegerFits(inp.bytes, pos)
  {
  }

  /**
    decodeDigits: the digit run at `pos`, which must be followed by
    `terminator`. Returns its value and the position after the terminator.
  */
  function ReadDigits(inp: Input, pos: int, terminator: byte): (r: Result<(nat, int), DecodeError>)
    requires 0 <= pos <= LastNonDigit(inp.bytes)
    ensures r.Success? ==> pos + 2 <= r.value.1 <= LastNonDigit(inp.bytes) + 1
    ensures r.Failure? ==> ErrorWithin(inp, r.error, pos) && r.error.kind == IllegalCharacter
  {
    var n := DigitRun(inp.bytes, pos);
    DigitRunStops(inp.bytes, pos);
    if n == 0 then Failure(Illegal(pos))
    else if inp.bytes[pos] == ZERO && n > 1 && !inp.lenient then
      Failure(DecodeError(IllegalCharacter, Some(pos + 1), true))
    else if inp.bytes[pos + n] != terminator then Failure(Illegal(pos + n))
    else Success((ParseDigits(inp.bytes[pos..pos + n]), pos + n + 1))
  }

  /** What a successful digit read consumed: a run of digits worth the value, then the terminator; canonical under the strict policy. */
  lemma ReadDigitsRun(inp: Input, pos: int, terminator: byte)
    requires 0 <= pos <= LastNonDigit(inp.bytes) && ReadDigits(inp, pos, terminator).Success?
    ensures var r := ReadDigits(inp, pos, terminator);
      var run := inp.bytes[pos..r.value.1 - 1];
      && AllDigits(run)
      && r.value.0 == ParseDigits(run)
      && inp.bytes[r.value.1 - 1] == terminator
      && (!inp.lenient ==> CanonicalDigits(run))
  {
  }

  /** `substr(s, from, len)`: at most `len` bytes, fewer when the input ends first. */
  function Substr(s: seq<byte>, from: int, len: nat): (r: seq<byte>)
    requires 0 <= from <= |s|
    ensures from + len <= |s| ==> r == s[from..from + len]
    ensures |r| <= len
  {
    if from + len <= |s| then s[from..from + len] else s[from..]
  }

  /**
    decodeString: a length, `:`, and that many bytes. The cursor moves by the
    length even when the input is shorter, so that an overrun surfaces later
    as "Premature end of data".
  */
  function ParseString(inp: Input, pos: int): (r: Result<(seq<byte>, int), DecodeError>)
    requires 0 <= pos <= LastNonDigit(inp.bytes)
    ensures r.Success? ==> r.value.1 >= pos + 2
    ensures r.Success? && r.value.1 <= |inp.bytes| ==>
      pos + 2 + |r.value.0| <= r.value.1 && r.value.0 == inp.bytes[r.value.1 - |r.value.0|..r.value.1]
    ensures r.Failure? ==> ErrorWithin(inp, r.error, pos)
  {
    var d :- ReadDigits(inp, pos, COLON);
    Success((Substr(inp.bytes, d.1, d.0), d.1 + d.0))
  }

  /**
    decodeInteger: `i`, an optional `-`, digits, `e`. A `-` directly followed
    by `0` is a compliance error at the `0`.
  */
  function ParseInteger(inp: Input, pos: int): (r: Result<(Value, int), DecodeError>)
    requires IntegerFits(inp.bytes, pos)
    ensures r.Success? ==> r.value.1 >= pos + 3 && r.value.1 <= |inp.bytes| && r.value.0.VInt?
    ensures r.Failure? ==> ErrorWithin(inp, r.error, pos)
  {
    var negative := inp.bytes[pos + 1] == MINUS;
    var start := if negative then pos + 2 else pos + 1;
    if negative && inp.bytes[start] == ZERO && !inp.lenient then
      Failure(DecodeError(IllegalCharacter, Some(start), true))
    else
      var d :- ReadDigits(inp, start, CHAR_E);
      Success((VInt(if negative then -(d.0 as int) else d.0), d.1))
  }

  /** Termination measure of the container loops: the bytes left before the boundary. */
  function Left(inp: Input, pos: int): nat {
    if pos <= inp.max then inp.max + 1 - pos else 0
  }

  /** decodeAnything: dispatch on the byte under the cursor; anything else is read as a string. */
  function ParseAnything(inp: Input, pos: int): (r: Result<(Value, int), DecodeError>)
    requires inp.Valid() && 0 <= pos <= inp.max
    ensures r.Success? ==> r.value.1 > pos
    ensures r.Failure? ==> ErrorWithin(inp, r.error, pos)
    decreases Left(inp, pos), 2
  {
    var c := inp.bytes[pos];
    if c == CHAR_I then
      IntegerStartStops(inp, pos);
      ParseInteger(inp, pos)
    else if c == CHAR_D then ParseDictionary(inp, pos)
    else if c == CHAR_L then ParseList(inp, pos)
    else
      var str :- ParseString(inp, pos);
      Success((VStr(str.0), str.1))
  }

  /** decodeList: `l`, values, `e`. */
  function ParseList(inp: Input, pos: int): (r: Result<(Value, int), DecodeError>)
    requires inp.Valid() && 0 <= pos <= inp.max
    ensures r.Success? ==> r.value.1 >= pos + 2 && r.value.0.VList?
    ensures r.Failure? ==> ErrorWithin(inp, r.error, pos)
    decreases Left(inp, pos), 1
  {
    ListItems(inp, pos + 1, [])
  }

  /**
    The loop of decodeList from the cursor `pos`, with the items `acc`
    decoded so far: items are appended in wire order until an `e`; leaving
    the safe region first is "Premature end of data".
  */
  function ListItems(inp: Input, pos: int, acc: seq<Value>): (r: Result<(Value, int), DecodeError>)
    requires inp.Valid() && 0 <= pos
    ensures r.Success? ==> r.value.1 > pos && r.value.0.VList?
    ensures r.Success? ==> |acc| <= |r.value.0.items| && r.value.0.items[..|acc|] == acc
    ensures r.Failure? ==> ErrorWithin(inp, r.error, pos)
    decreases Left(inp, pos), 3
  {
    if pos > inp.max then Failure(Premature)
    else if inp.bytes[pos] == CHAR_E then Success((VList(acc), pos + 1))
    else
      var item :- ParseAnything(inp, pos);
      var r := ListItems(inp, item.1, acc + [item.0]);
      assert r.Success? ==> r.value.0.items[..|acc|] == (acc + [item.0])[..|acc|];
      r
  }

  /**
    decodeDictionary, with the lenient override around it: the entries, and
    when the lenient policy saw a key smaller than its predecessor, the
    entries sorted by key.
  */
  function ParseDictionary(inp: Input, pos: int): (r: Result<(Value, int), DecodeError>)
    requires inp.Valid() && 0 <= pos <= inp.max
    ensures r.Success? ==> r.value.1 >= pos + 2 && r.value.0.VDict?
    ensures r.Failure? ==> ErrorWithin(inp, r.error, pos)
    decreases Left(inp, pos), 1
  {
    var d :- DictEntries(inp, pos + 1, None, [], false);
    Success((VDict(if d.1 then SortByKey(d.0) else d.0), d.2))
  }

  /**
    The key check of decodeDictionary (dictionaryComplianceError): under
    the strict policy a key equal to the previous one is a duplicate and a
    smaller one is out of order, both compliance errors at `at`, the offset
    where the key starts. The first key is never checked, and the lenient
    policy raises nothing.
  */
  function KeyCheck(lenient: bool, at: int, key: seq<byte>, lastKey: Option<seq<byte>>): (r: Option<DecodeError>)
    ensures r.None? <==> lenient || lastKey.None? || (key != lastKey.value && !Less(key, lastKey.value))
    ensures r.Some? ==> r.value.compliance && r.value.offset == Some(at)
    ensures r.Some? ==> r.value.kind == (if key == lastKey.value then DuplicateEntry(key) else OutOfOrderEntry(key))
  {
    if lenient || lastKey.None? then None
    else if key == lastKey.value then Some(DecodeError(DuplicateEntry(key), Some(at), true))
    else if Less(key, lastKey.value) then Some(DecodeError(OutOfOrderEntry(key), Some(at), true))
    else None
  }

  /**
    The loop of decodeDictionary from the cursor `pos`: `lastKey` is the
    previous key, `acc` the entries so far, `sort` the lenient policy's
    "needs sorting" flag for this dictionary, which a key smaller than its
    predecessor raises. An entry whose key is already present replaces the
    earlier value in place. Returns the entries, the flag and the position
    after the closing `e`.
  */
  function DictEntries(inp: Input, pos: int, lastKey: Option<seq<byte>>, acc: seq<(seq<byte>, Value)>, sort: bool)
    : (r: Result<(seq<(seq<byte>, Value)>, bool, int), DecodeError>)
    requires inp.Valid() && 0 <= pos
    ensures r.Success? ==> r.value.2 > pos
    ensures r.Success? && !inp.lenient ==> r.value.1 == sort
    ensures r.Success? && sort ==> r.value.1
    ensures r.Failure? ==> ErrorWithin(inp, r.error, pos)
    decreases Left(inp, pos), 3
  {
    if pos > inp.max then Failure(Premature)
    else if inp.bytes[pos] == CHAR_E then Success((acc, sort, pos + 1))
    else
      var e :- DictEntry(inp, pos, lastKey);
      DictEntries(inp, e.2, Some(e.0), Put(acc, e.0, e.1), sort || (lastKey.Some? && Less(e.0, lastKey.value)))
  }

  /**
    One iteration of that loop at `pos`: the key, its check against the
    previous key, and the value, which must start inside the safe region.
    Returns the key, the value and the position after the value.
  */
  function DictEntry(inp: Input, pos: int, lastKey: Option<seq<byte>>): (r: Result<(seq<byte>, Value, int), DecodeError>)
    requires inp.Valid() && 0 <= pos <= inp.max
    ensures r.Success? ==> r.value.2 > pos + 2
    ensures r.Success? ==> KeyCheck(inp.lenient, pos, r.value.0, lastKey).None?
    ensures r.Failure? ==> ErrorWithin(inp, r.error, pos)
    decreases Left(inp, pos), 2
  {
    var k :- ParseString(inp, pos);
    match KeyCheck(inp.lenient, pos, k.0, lastKey)
    case Some(e) => Failure(e)
    case None =>
      if k.1 > inp.max then Failure(Premature)
      else
        var item :- ParseAnything(inp, k.1);
        Success((k.0, item.0, item.1))
  }

  /**
    checkBoundary: a boundary below 1 leaves no room for any value; the
    failure is "Illegal character" at 0 when the input starts with `-` or
    `e`, "Premature end of data" otherwise.
  */
  function CheckBoundary(s: seq<byte>, max: int): (r: Option<DecodeError>)
    requires s != []
    ensures r.None? <==> max >= 1
    ensures r.Some? ==> !r.value.compliance
    ensures r.Some? ==> (r.value == Illegal(0) <==> s[0] == MINUS || s[0] == CHAR_E)
    ensures r.Some? ==> (r.value == Premature <==> s[0] != MINUS && s[0] != CHAR_E)
  {
    if max >= 1 then None
    else if s[0] == MINUS || s[0] == CHAR_E then Some(Illegal(0))
    else Some(Premature)
  }

  /**
    checkCursorPosition: the top-level value must end exactly at the end of
    the input; a cursor past the end is "Premature end of data", one short
    of it "Superfluous content" at the cursor, a compliance error.
  */
  function CheckCursorPosition(inp: Input, offset: int): (r: Option<DecodeError>)
    ensures r.None? <==> offset == |inp.bytes| || (offset < |inp.bytes| && inp.lenient)
    ensures r.Some? && offset > |inp.bytes| ==> r.value == Premature
    ensures r.Some? && offset < |inp.bytes| ==> r.value == DecodeError(SuperfluousContent, Some(offset), true)
  {
    if offset == |inp.bytes| then None
    else if offset > |inp.bytes| then Some(Premature)
    else if inp.lenient then None
    else Some(DecodeError(SuperfluousContent, Some(offset), true))
  }

  /** Decoder::decode with a given boundary, once the input is known not to be empty. */
  function DecodeWithBoundary(s: seq<byte>, lenient: bool, max: int): (r: Result<Value, DecodeError>)
    requires s != [] && Safe(s, max)
    ensures r.Failure? ==> ErrorWithin(Input(s, max, lenient), r.error, 0)
  {
    var inp := Input(s, max, lenient);
    match CheckBoundary(s, max)
    case Some(e) => Failure(e)
    case None =>
      var v :- ParseAnything(inp, 0);
      match CheckCursorPosition(inp, v.1)
      case Some(e) => Failure(e)
      case None => Success(v.0)
  }

  /**
    Decoder::decode (lenient = false) and NonCompliantDecoder::decode
    (lenient = true), with the corrected boundary.
  */
  function Decode(s: seq<byte>, lenient: bool): (r: Result<Value, DecodeError>)
    ensures s == [] <==> r == Failure(DecodeError(EmptyInput, None, false))
    ensures r.Failure? && r.error.offset.Some? ==> 0 <= r.error.offset.value < |s|
    ensures r.Failure? && lenient ==> !r.error.compliance
  {
    if s == [] then Failure(DecodeError(EmptyInput, None, false))
    else
      SafeBoundaryIsSafe(s);
      DecodeWithBoundary(s, lenient, SafeBoundary(s))
  }

  /** The same, with the boundary exactly as src/Decoder.php computes it. */
  function DecodeAsWritten(s: seq<byte>, lenient: bool): (r: Result<Value, DecodeError>)
    ensures s == [] <==> r == Failure(DecodeError(EmptyInput, None, false))
    ensures r.Failure? && r.error.offset.Some? ==> 0 <= r.error.offset.value < |s|
    ensures r.Failure? && lenient ==> !r.error.compliance
  {
    if s == [] then Failure(DecodeError(EmptyInput, None, false))
    else
      SafeBoundaryAsWrittenIsSafe(s);
      DecodeWithBoundary(s, lenient, SafeBoundaryAsWritten(s))
  }

  // ---------------------------------------------------------------------
  // A larger boundary changes no successful read
  // ---------------------------------------------------------------------

  /** Two views of the same bytes under the same policy, the second with a boundary at least as far out. */
  predicate Wider(a: Input, b: Input) {
    a.bytes == b.bytes && a.lenient == b.lenient && a.Valid() && b.Valid() && a.max <= b.max
  }

  /** decodeDigits reads no boundary. */
  lemma DigitsIgnoreBoundary(a: Input, b: Input, pos: int, terminator: byte)
    requires Wider(a, b) && 0 <= pos <= LastNonDigit(a.bytes)
    ensures ReadDigits(b, pos, terminator) == ReadDigits(a, pos, terminator)
  {
  }

  /**
    The boundary only cuts the container loops short, so a value read
    under one boundary is read alike, to the same offset, under any larger
    one.
  */
  lemma {:induction false} AnythingWider(a: Input, b: Input, pos: int)
    requires Wider(a, b) && 0 <= pos <= a.max && ParseAnything(a, pos).Success?
    ensures ParseAnything(b, pos) == ParseAnything(a, pos)
    decreases Left(a, pos), 2
  {
    var c := a.bytes[pos];
    if c == CHAR_I {
      IntegerStartStops(a, pos);
      var start := if a.bytes[pos + 1] == MINUS then pos + 2 else pos + 1;
      DigitsIgnoreBoundary(a, b, start, CHAR_E);
    } else if c == CHAR_D {
      DictEntriesWider(a, b, pos + 1, None, [], false);
    } else if c == CHAR_L {
      ListItemsWider(a, b, pos + 1, []);
    } else {
      DigitsIgnoreBoundary(a, b, pos, COLON);
    }
  }

  lemma {:induction false} ListItemsWider(a: Input, b: Input, pos: int, acc: seq<Value>)
    requires Wider(a, b) && 0 <= pos && ListItems(a, pos, acc).Success?
    ensures ListItems(b, pos, acc) == ListItems(a, pos, acc)
    decreases Left(a, pos), 3
  {
    if a.bytes[pos] != CHAR_E {
      var item := ParseAnything(a, pos).value;
      AnythingWider(a, b, pos);
      ListItemsWider(a, b, item.1, acc + [item.0]);
    }
  }

  lemma {:induction false} DictEntriesWider(a: Input, b: Input, pos: int, lastKey: Option<seq<byte>>, acc: seq<(seq<byte>, Value)>, sort: bool)
    requires Wider(a, b) && 0 <= pos && DictEntries(a, pos, lastKey, acc, sort).Success?
    ensures DictEntries(b, pos, lastKey, acc, sort) == DictEntries(a, pos, lastKey, acc, sort)
    decreases Left(a, pos), 3
  {
    if a.bytes[pos] != CHAR_E {
      var e := DictEntry(a, pos, lastKey).value;
      DictEntryWider(a, b, pos, lastKey);
      DictEntriesWider(a, b, e.2, Some(e.0), Put(acc, e.0, e.1), sort || (lastKey.Some? && Less(e.0, lastKey.value)));
    }
  }

  lemma {:induction false} DictEntryWider(a: Input, b: Input, pos: int, lastKey: Option<seq<byte>>)
    requires Wider(a, b) && 0 <= pos <= a.max && DictEntry(a, pos, lastKey).Success?
    ensures DictEntry(b, pos, lastKey) == DictEntry(a, pos, lastKey)
    decreases Left(a, pos), 2
  {
    var k := ParseString(a, pos).value;
    StringIgnoresBoundary(a, b, pos);
    assert KeyCheck(a.lenient, pos, k.0, lastKey).None? && k.1 <= a.max;
    AnythingWider(a, b, k.1);
  }

  /** decodeString reads no boundary either. */
  lemma StringIgnoresBoundary(a: Input, b: Input, pos: int)
    requires Wider(a, b) && 0 <= pos <= LastNonDigit(a.bytes)
    ensures ParseString(b, pos) == ParseString(a, pos)
  {
    DigitsIgnoreBoundary(a, b, pos, COLON);
  }

  /**
    Whatever src/Decoder.php as written accepts, under either policy, the
    decoder with the corrected boundary accepts with the same value: the
    correction only lets more inputs through.
  */
  lemma AsWrittenAgrees(s: seq<byte>, lenient: bool)
    requires DecodeAsWritten(s, lenient).Success?
    ensures Decode(s, lenient) == DecodeAsWritten(s, lenient)
  {
    SafeBoundaryAsWrittenIsSafe(s);
    SafeBoundaryIsSafe(s);
    AnythingWider(Input(s, SafeBoundaryAsWritten(s), lenient), Input(s, SafeBoundary(s), lenient), 0);
  }
}
