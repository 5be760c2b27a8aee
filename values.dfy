/**
  The value model shared by the decoders and the encoders: the four kinds
  of bencoded value, and the errors decoding can end with.
*/
module Values {
  import opened Wrappers
  import opened Decimal
  import opened ByteOrder

  /**
    A decoded value. A dictionary is an ordered association list, so that
    wire order, in-place overwrite of a repeated key and re-sorting are all
    observable, as they are on the PHP arrays the decoders build.
  */
  datatype Value =
    | VInt(n: int)
    | VStr(bytes: seq<byte>)
    | VList(items: seq<Value>)
    | VDict(entries: seq<(seq<byte>, Value)>)

  /** Canonical values: every dictionary, at every depth, has strictly increasing keys. */
  predicate Canonical(v: Value)
    decreases v
  {
    match v
    case VInt(_) => true
    case VStr(_) => true
    case VList(items) => forall k :: 0 <= k < |items| ==> Canonical(items[k])
    case VDict(es) =>
      StrictlySorted(es) && forall k :: 0 <= k < |es| ==> Canonical(es[k].1)
  }

  datatype ErrorKind =
    | IllegalCharacter
    | PrematureEndOfData
    | SuperfluousContent
    | DuplicateEntry(key: seq<byte>)
    | OutOfOrderEntry(key: seq<byte>)
    | EmptyInput    // the InvalidArgumentException thrown for ''

  /**
    A decoding failure: what went wrong, the offset the message names (none
    for "Premature end of data" and for empty input), and whether it was
    raised through the compliance hook, which the lenient decoder silences.
  */
  datatype DecodeError = DecodeError(kind: ErrorKind, offset: Option<int>, compliance: bool)

  function Illegal(at: int): DecodeError {
    DecodeError(IllegalCharacter, Some(at), false)
  }

  const Premature: DecodeError := DecodeError(PrematureEndOfData, None, false)
}
