/**
  The older self-contained codec of src/Bencode.php. Its decoder is one
  loop over the input that keeps `$current` (null, the top-level scalar or
  the innermost open container), the key waiting for its value, and a
  stack of the containers around the innermost one. Here each container
  holds what it has gathered so far, where the PHP code keeps references.
  The legacy decoder checks neither dictionary order nor duplicate keys nor
  leading zeros, so the round trip it completes is with every wire form,
  duplicate keys merged as PHP array assignment merges them.
*/
module LegacyDecoding {
  import opened Wrappers
  import opened Decimal
  import opened ByteOrder
  import opened Values
  import opened DecoderSpec
  import opened Encoders
  import opened Serialization
  import opened RoundTrip
  import StrictDecoding

  /** The exceptions Bencode::decode throws, with the offset or byte its message names. */
  datatype Fault =
    | InvalidArgument                       // '' (InvalidArgumentException)
    | PrematureEndOfDictionary(at: int)
    | PrematureEndOfData
    | InvalidInteger(at: int)
    | InvalidIntegerEnd(at: int)
    | InvalidCharacter(at: int)
    | InvalidDictionaryKeyType(c: byte)
    | UnexpectedValue(at: int)
    | SuperfluousContent(at: int)

  /**
    An open container: a list's items so far, or a dictionary's entries so
    far together with the key read for its next value (`$currentKey`).
  */
  datatype Frame =
    | ListFrame(items: seq<Value>)
    | DictFrame(entries: seq<(seq<byte>, Value)>, key: Option<seq<byte>>)

  /**
    A container with another one open inside it (an entry of
    `$structures`, with its type in `$types`): a list, or a dictionary
    whose key for the inner container has been read.
  */
  datatype Parent =
    | ListParent(items: seq<Value>)
    | DictParent(entries: seq<(seq<byte>, Value)>, key: seq<byte>)

  /** `$current`: null, the top-level scalar, or the innermost open container. */
  datatype Current = Null | Done(v: Value) | Inside(f: Frame)

  /**
    The loop's state: the cursor, the containers around the innermost one,
    outermost first, and `$current`. The PHP code also keeps the top-level
    container itself at `$structures[0]`, which it never reads back; here
    `$depth` is the number of parents plus one while a container is open.
  */
  datatype Machine = Machine(pos: nat, parents: seq<Parent>, current: Current)

  /** What one turn of the loop does: go on, `break` at a closing `e`, or throw. */
  datatype Turn = Next(m: Machine) | Break | Fail(f: Fault)

  /** `$depth`. */
  function Depth(m: Machine): nat {
    if m.current.Inside? then |m.parents| + 1 else 0
  }

  /** Only an open container has containers around it. */
  predicate Shaped(m: Machine) {
    m.parents != [] ==> m.current.Inside?
  }

  /** A frame that waits for a value: a list, or a dictionary whose key has been read. */
  predicate Holding(f: Frame) {
    f.ListFrame? || f.key.Some?
  }

  function FrameValue(f: Frame): (v: Value)
    ensures v.VList? || v.VDict?
  {
    match f
    case ListFrame(items) => VList(items)
    case DictFrame(es, _) => VDict(es)
  }

  /** A waiting frame as the parent of a container started inside it. */
  function AsParent(f: Frame): Parent
    requires Holding(f)
  {
    match f
    case ListFrame(items) => ListParent(items)
    case DictFrame(es, key) => DictParent(es, key.value)
  }

  /**
    The parent takes the value `x` and is the innermost container again:
    `$current[] = $value` on a list, `$current[$currentKey] = $value` on a
    dictionary, which then waits for a key.
  */
  function Resume(p: Parent, x: Value): (r: Frame)
    ensures r.ListFrame? <==> p.ListParent?
    ensures r.DictFrame? ==> r.key.None?
  {
    match p
    case ListParent(items) => ListFrame(items + [x])
    case DictParent(es, key) => DictFrame(Put(es, key, x), None)
  }

  /** The innermost container, waiting for a value, takes `x`. */
  function Attach(f: Frame, x: Value): Frame
    requires Holding(f)
  {
    Resume(AsParent(f), x)
  }

  /** The frame a container started by `c` starts with. */
  function Fresh(c: byte): Frame {
    if c == CHAR_D then DictFrame([], None) else ListFrame([])
  }

  /**
    The integer token at `pos` (an `i`): an optional `-`, at least one
    digit, leading zeros allowed, then `e`. Returns the value and the
    position after the `e`.
  */
  function ReadInteger(s: seq<byte>, pos: nat): (r: Result<(Value, nat), Fault>)
    requires pos < |s|
    ensures r.Success? ==> r.value.0.VInt? && pos + 3 <= r.value.1 <= |s|
  {
    if pos == |s| - 1 then Failure(Fault.PrematureEndOfData)
    else
      var negative := s[pos + 1] == MINUS;
      var start := if negative then pos + 2 else pos + 1;
      var n := DigitRun(s, start);
      if n == 0 then Failure(InvalidInteger(start))
      else if start + n == |s| || s[start + n] != CHAR_E then Failure(InvalidIntegerEnd(start + n))
      else
        var m := ParseDigits(s[start..start + n]);
        Success((VInt(if negative then -(m as int) else m), start + n + 1))
  }

  /**
    The string token at `pos`: a length, leading zeros allowed, `:`, then
    `substr` of that length, which is shorter when the input ends first.
    The cursor moves by the length whatever `substr` returned.
  */
  function ReadString(s: seq<byte>, pos: nat): (r: Result<(Value, nat), Fault>)
    requires pos < |s|
    ensures r.Success? ==> r.value.0.VStr? && pos + 2 <= r.value.1
  {
    var n := DigitRun(s, pos);
    if n == 0 then Failure(InvalidCharacter(pos))
    else if pos + n == |s| || s[pos + n] != COLON then Failure(InvalidCharacter(pos + n))
    else
      var len := ParseDigits(s[pos..pos + n]);
      var start := pos + n + 1;
      Success((VStr(Substr(s, start, len)), start + len))
  }

  /** The token at `pos`, which is not `e`: an opening `d` or `l` gives an empty container. */
  function Token(s: seq<byte>, pos: nat): (r: Result<(Value, nat), Fault>)
    requires pos < |s|
    ensures r.Success? ==> r.value.1 > pos
    ensures r.Success? ==> (r.value.0.VList? || r.value.0.VDict? <==> s[pos] == CHAR_D || s[pos] == CHAR_L)
  {
    var c := s[pos];
    if c == CHAR_D then Success((VDict([]), pos + 1))
    else if c == CHAR_L then Success((VList([]), pos + 1))
    else if c == CHAR_I then ReadInteger(s, pos)
    else ReadString(s, pos)
  }

  /**
    Where the value just read goes. A dictionary waiting for a key takes
    only a string; a container started by `c` becomes the innermost one;
    at depth 0 only one value is allowed.
  */
  function Place(m: Machine, x: Value, c: byte, p: nat): (t: Turn)
    requires x.VList? || x.VDict? <==> c == CHAR_D || c == CHAR_L
    ensures t.Next? ==> t.m.pos == p
    ensures !t.Break?
  {
    var container := c == CHAR_D || c == CHAR_L;
    match m.current
    case Inside(f) =>
      if !Holding(f) then
        if !x.VStr? then Fail(InvalidDictionaryKeyType(c))
        else Next(Machine(p, m.parents, Inside(DictFrame(f.entries, Some(x.bytes)))))
      else if container then Next(Machine(p, m.parents + [AsParent(f)], Inside(Fresh(c))))
      else Next(Machine(p, m.parents, Inside(Attach(f, x))))
    case Done(_) => Fail(UnexpectedValue(p))
    case Null =>
      if container then Next(Machine(p, m.parents, Inside(Fresh(c))))
      else Next(Machine(p, m.parents, Done(x)))
  }

  /**
    One turn of the loop of Bencode::decode. An `e` is refused while a key
    waits for its value, stops the loop at depth 0 or 1, and otherwise
    closes the innermost container, which goes into its parent; any other
    byte starts a token.
  */
  function Step(s: seq<byte>, m: Machine): (t: Turn)
    requires m.pos < |s|
    ensures t.Next? ==> t.m.pos > m.pos
  {
    var c := s[m.pos];
    if c == CHAR_E then
      if m.current.Inside? && m.current.f.DictFrame? && m.current.f.key.Some? then
        Fail(PrematureEndOfDictionary(m.pos))
      else if !m.current.Inside? || m.parents == [] then Break
      else
        var parent := m.parents[|m.parents| - 1];
        Next(Machine(m.pos + 1, m.parents[..|m.parents| - 1], Inside(Resume(parent, FrameValue(m.current.f)))))
    else
      match Token(s, m.pos)
      case Failure(f) => Fail(f)
      case Success((x, p)) => Place(m, x, c, p)
  }

  /** How a byte moves `$depth` when its turn goes on: `d` and `l` open a container, `e` closes one. */
  function DepthChange(c: byte): int {
    if c == CHAR_E then -1 else if c == CHAR_D || c == CHAR_L then 1 else 0
  }

  /**
    `$depth` stays the number of open containers: each turn that goes on
    changes it by the byte's DepthChange, and the loop breaks only on an
    `e` at depth 0 or 1.
  */
  lemma StepShape(s: seq<byte>, m: Machine)
    requires m.pos < |s| && Shaped(m)
    ensures Step(s, m).Next? ==> Shaped(Step(s, m).m) && Depth(Step(s, m).m) == Depth(m) + DepthChange(s[m.pos])
    ensures Step(s, m).Break? ==> s[m.pos] == CHAR_E && Depth(m) <= 1
  {
    if s[m.pos] != CHAR_E {
      var token := Token(s, m.pos);
      if token.Success? {
        PlaceShape(m, token.value.0, s[m.pos], token.value.1);
      }
    }
  }

  lemma PlaceShape(m: Machine, x: Value, c: byte, p: nat)
    requires (x.VList? || x.VDict? <==> c == CHAR_D || c == CHAR_L) && Shaped(m)
    ensures Place(m, x, c, p).Next? ==> Shaped(Place(m, x, c, p).m)
    ensures Place(m, x, c, p).Next? ==> Depth(Place(m, x, c, p).m) == Depth(m) + (if c == CHAR_D || c == CHAR_L then 1 else 0)
  {
  }

  /**
    After the loop: stopping before the last byte leaves superfluous
    content, running out of input with a container open is premature, and
    otherwise the result is `$current` (null when nothing was read).
  */
  function Finish(s: seq<byte>, m: Machine): (r: Result<Option<Value>, Fault>)
    ensures m.pos < |s| - 1 ==> r == Failure(Fault.SuperfluousContent(m.pos + 1))
    ensures m.pos >= |s| && m.current.Inside? ==> r == Failure(Fault.PrematureEndOfData)
  {
    if m.pos < |s| - 1 then Failure(Fault.SuperfluousContent(m.pos + 1))
    else if m.pos > |s| - 1 && m.current.Inside? then Failure(Fault.PrematureEndOfData)
    else
      match m.current
      case Null => Success(None)
      case Done(v) => Success(Some(v))
      case Inside(f) => Success(Some(FrameValue(f)))
  }

  /** The loop from state `m` to its end. */
  function Run(s: seq<byte>, m: Machine): Result<Option<Value>, Fault>
    decreases |s| - m.pos
  {
    if m.pos >= |s| then Finish(s, m)
    else
      match Step(s, m)
      case Fail(f) => Failure(f)
      case Break => Finish(s, m)
      case Next(m') => Run(s, m')
  }

  /** Bencode::decode: the empty string is refused, anything else runs the loop from offset 0 with nothing read. */
  function Decoded(s: seq<byte>): (r: Result<Option<Value>, Fault>)
    ensures s == [] <==> r == Failure(InvalidArgument)
  {
    if s == [] then Failure(InvalidArgument)
    else
      var r := Run(s, Machine(0, [], Null));
      assert r != Failure(InvalidArgument) by {
        RunFaults(s, Machine(0, [], Null));
      }
      r
  }

  /** The loop never throws InvalidArgumentException. */
  lemma {:induction false} RunFaults(s: seq<byte>, m: Machine)
    ensures Run(s, m) != Failure(InvalidArgument)
    decreases |s| - m.pos
  {
    if m.pos < |s| {
      var t := Step(s, m);
      if t.Next? {
        RunFaults(s, t.m);
      }
    }
  }

  /**
    Bencode::decode as the PHP code runs it: one loop that reads a token,
    puts the value where `$current` wants it, and opens or closes
    containers; then the checks on where the loop stopped.
  */
  method LegacyDecode(s: seq<byte>) returns (r: Result<Option<Value>, Fault>)
    ensures r == Decoded(s)
  {
    if s == [] {
      return Failure(InvalidArgument);
    }
    var pos: nat := 0;
    var max := |s| - 1;
    var structures: seq<Parent> := [];
    var current: Current := Null;
    var depth: nat := 0;
    while pos <= max
      invariant Run(s, Machine(pos, structures, current)) == Decoded(s)
      invariant Shaped(Machine(pos, structures, current)) && depth == Depth(Machine(pos, structures, current))
      decreases |s| - pos
    {
      StepShape(s, Machine(pos, structures, current));
      var c := s[pos];
      if c == CHAR_E {
        if current.Inside? && current.f.DictFrame? && current.f.key.Some? {
          return Failure(PrematureEndOfDictionary(pos));
        }
        if depth <= 1 {
          break;
        }
        pos := pos + 1;
        depth := depth - 1;
        var parent := structures[|structures| - 1];
        structures := structures[..|structures| - 1];
        current := Inside(Resume(parent, FrameValue(current.f)));
        continue;
      }
      var token := Token(s, pos);
      if token.Failure? {
        return Failure(token.error);
      }
      var value := token.value.0;
      pos := token.value.1;
      var container := c == CHAR_D || c == CHAR_L;
      match current
      case Inside(f) =>
        if !Holding(f) {
          if !value.VStr? {
            return Failure(InvalidDictionaryKeyType(c));
          }
          current := Inside(DictFrame(f.entries, Some(value.bytes)));
        } else if container {
          structures := structures + [AsParent(f)];
          current := Inside(Fresh(c));
          depth := depth + 1;
        } else {
          current := Inside(Attach(f, value));
        }
      case Done(_) =>
        return Failure(UnexpectedValue(pos));
      case Null =>
        if container {
          current := Inside(Fresh(c));
          depth := 1;
        } else {
          current := Done(value);
        }
    }
    if pos < max {
      return Failure(Fault.SuperfluousContent(pos + 1));
    }
    if pos > max && depth > 0 {
      return Failure(Fault.PrematureEndOfData);
    }
    match current
    case Null => return Success(None);
    case Done(v) => return Success(Some(v));
    case Inside(f) => return Success(Some(FrameValue(f)));
  }

  // ---------------------------------------------------------------------
  // What the legacy decoder makes of a wire form

  /**
    The value the legacy decoder builds from the wire form of `v`: `v`
    itself, except that in every dictionary a repeated key keeps its first
    place and takes its last value, as repeated `$current[$currentKey]`
    assignments leave a PHP array.
  */
  function Merged(v: Value): (r: Value)
    ensures r.VInt? == v.VInt? && r.VStr? == v.VStr? && r.VList? == v.VList? && r.VDict? == v.VDict?
    decreases v, 1
  {
    match v
    case VInt(_) => v
    case VStr(_) => v
    case VList(items) => VList(MergedItems(items, |items|))
    case VDict(es) => VDict(MergedEntries(es, |es|))
  }

  /** The first `i` items, each merged. */
  function MergedItems(items: seq<Value>, i: nat): (r: seq<Value>)
    requires i <= |items|
    ensures |r| == i
    decreases items, i
  {
    if i == 0 then [] else MergedItems(items, i - 1) + [Merged(items[i - 1])]
  }

  /** The first `i` entries, each value merged, assigned one after the other into an empty array. */
  function MergedEntries(es: seq<(seq<byte>, Value)>, i: nat): (r: seq<(seq<byte>, Value)>)
    requires i <= |es|
    ensures |r| <= i
    decreases es, i
  {
    if i == 0 then []
    else
      assert es[i - 1].1 < es[i - 1];
      Put(MergedEntries(es, i - 1), es[i - 1].0, Merged(es[i - 1].1))
  }

  /** No dictionary, at any depth, repeats a key. */
  predicate Unique(v: Value)
    decreases v
  {
    match v
    case VInt(_) => true
    case VStr(_) => true
    case VList(items) => forall k :: 0 <= k < |items| ==> Unique(items[k])
    case VDict(es) => DistinctKeys(es) && forall k :: 0 <= k < |es| ==> Unique(es[k].1)
  }

  /** Merging changes nothing where no key repeats. */
  lemma {:induction false} MergedUnique(v: Value)
    requires Unique(v)
    ensures Merged(v) == v
    decreases v, 1
  {
    match v
    case VInt(_) =>
    case VStr(_) =>
    case VList(items) =>
      MergedItemsUnique(items, |items|);
      assert items[..|items|] == items;
    case VDict(es) =>
      MergedEntriesUnique(es, |es|);
      assert es[..|es|] == es;
  }

  lemma {:induction false} MergedItemsUnique(items: seq<Value>, i: nat)
    requires i <= |items| && forall k :: 0 <= k < |items| ==> Unique(items[k])
    ensures MergedItems(items, i) == items[..i]
    decreases items, i
  {
    if i > 0 {
      MergedItemsUnique(items, i - 1);
      MergedUnique(items[i - 1]);
      assert items[..i - 1] + [items[i - 1]] == items[..i];
    }
  }

  lemma {:induction false} MergedEntriesUnique(es: seq<(seq<byte>, Value)>, i: nat)
    requires i <= |es| && DistinctKeys(es) && forall k :: 0 <= k < |es| ==> Unique(es[k].1)
    ensures MergedEntries(es, i) == es[..i]
    decreases es, i
  {
    if i > 0 {
      var e := es[i - 1];
      assert e.1 < e;
      MergedEntriesUnique(es, i - 1);
      MergedUnique(e.1);
      var before := es[..i - 1];
      assert DistinctKeys(before);
      assert !HasKey(before, e.0);
      PutContents(before, e.0, e.1);
      assert before + [e] == es[..i];
    }
  }

  /** Canonical values repeat no key. */
  lemma {:induction false} CanonicalUnique(v: Value)
    requires Canonical(v)
    ensures Unique(v)
    decreases v
  {
    match v
    case VInt(_) =>
    case VStr(_) =>
    case VList(items) =>
      forall k | 0 <= k < |items| ensures Unique(items[k]) {
        CanonicalUnique(items[k]);
      }
    case VDict(es) =>
      StrictlySortedDistinct(es);
      forall k | 0 <= k < |es| ensures Unique(es[k].1) {
        assert es[k].1 < es[k];
        CanonicalUnique(es[k].1);
      }
  }

  // ---------------------------------------------------------------------
  // Reading tokens that a wire form holds

  /**
    The bytes as a decoder input. Where a piece of a wire form sits in a
    byte sequence is stated once, by `Encodes` of module RoundTrip and the
    lemmas about it, over the `Input` of the class-based decoder; the legacy
    proofs reuse them through this view. Only the bytes matter here: the
    boundary and the policy are never read.
  */
  function Raw(s: seq<byte>): Input {
    Input(s, |s| - 1, false)
  }

  /** The digits of `m` at `start`, after `i` and an optional `-`, then `e`: read back as the integer. */
  lemma ReadIntegerOf(s: seq<byte>, pos: nat, negative: bool, start: nat, m: nat, q: nat)
    requires pos + 1 < |s| && (negative <==> s[pos + 1] == MINUS)
    requires start == (if negative then pos + 2 else pos + 1)
    requires q == start + |Digits(m)| + 1 && q <= |s| && s[q - 1] == CHAR_E
    requires Encodes(Raw(s), start, Digits(m))
    ensures ReadInteger(s, pos) == Success((VInt(if negative then -(m as int) else m), q))
  {
    DigitsAt(s, start, m);
    ReadIntegerFrom(s, pos, negative, start, |Digits(m)|, m, q);
  }

  /** The digits of `m` at `start`, ended by a byte that is not a digit: the run and its value. */
  lemma DigitsAt(s: seq<byte>, start: nat, m: nat)
    requires start + |Digits(m)| < |s| && Encodes(Raw(s), start, Digits(m)) && !IsDigit(s[start + |Digits(m)|])
    ensures |Digits(m)| >= 1 && IsDigit(s[start]) && DigitRun(s, start) == |Digits(m)|
    ensures AllDigits(s[start..start + |Digits(m)|]) && ParseDigits(s[start..start + |Digits(m)|]) == m
  {
    var d := Digits(m);
    assert AllDigits(d) && ParseDigits(d) == m && |d| >= 1 by {
      DigitsCanonical(m);
      ParseDigitsOfDigits(m);
    }
    assert s[start..start + |d|] == d by { EncodesSlice(Raw(s), start, d); }
    assert DigitRun(s, start) == |d| by {
      EncodesAt(Raw(s), start, d);
      DigitRunOver(Raw(s), start, d);
    }
    assert IsDigit(s[start]) by { EncodesFirst(Raw(s), start, d); }
  }

  /** ReadInteger once the digit run at `start`, its value and the `e` after it are known. */
  lemma ReadIntegerFrom(s: seq<byte>, pos: nat, negative: bool, start: nat, n: nat, m: nat, q: nat)
    requires pos + 1 < |s| && (negative <==> s[pos + 1] == MINUS)
    requires start == (if negative then pos + 2 else pos + 1)
    requires n > 0 && start + n < |s| && DigitRun(s, start) == n && s[start + n] == CHAR_E
    requires AllDigits(s[start..start + n]) && ParseDigits(s[start..start + n]) == m && q == start + n + 1
    ensures ReadInteger(s, pos) == Success((VInt(if negative then -(m as int) else m), q))
  {
  }

  /** An integer token as encodeInteger writes it is read back whole. */
  lemma TokenInteger(s: seq<byte>, pos: nat, n: int, q: nat)
    requires q == pos + |EncodeInteger(n)| && Encodes(Raw(s), pos, EncodeInteger(n))
    ensures pos < |s| && s[pos] == CHAR_I && Token(s, pos) == Success((VInt(n), q))
  {
    EncodesFirst(Raw(s), pos, EncodeInteger(n));
    if n < 0 {
      var m: nat := -n;
      NegativeLayout(Raw(s), pos, m, q);
      ReadIntegerOf(s, pos, true, pos + 2, m, q);
    } else {
      NonNegativeLayout(Raw(s), pos, n, q);
      ReadIntegerOf(s, pos, false, pos + 1, n, q);
    }
  }

  /** A string token as encodeString writes it is read back whole. */
  lemma TokenString(s: seq<byte>, pos: nat, b: seq<byte>, q: nat)
    requires q == pos + |EncodeString(b)| && Encodes(Raw(s), pos, EncodeString(b))
    ensures pos < |s| && IsDigit(s[pos]) && Token(s, pos) == Success((VStr(b), q))
  {
    var colon := StringLayout(Raw(s), pos, b, q);
    DigitsCanonical(|b|);
    EncodesFirst(Raw(s), pos, Digits(|b|));
    ReadStringOf(s, pos, b, colon, q);
  }

  /** The digits of `|b|` at `pos`, `:` at `colon`, then `b`: read back as `b`. */
  lemma ReadStringOf(s: seq<byte>, pos: nat, b: seq<byte>, colon: nat, q: nat)
    requires colon == pos + |Digits(|b|)| && q == colon + 1 + |b| && q <= |s|
    requires Encodes(Raw(s), pos, Digits(|b|)) && s[colon] == COLON && s[colon + 1..q] == b
    ensures ReadString(s, pos) == Success((VStr(b), q))
  {
    DigitsAt(s, pos, |b|);
    ReadStringFrom(s, pos, colon, |b|, q);
  }

  /** ReadString once the length, the colon and the room for the bytes are known. */
  lemma ReadStringFrom(s: seq<byte>, pos: nat, colon: nat, len: nat, q: nat)
    requires pos < colon < |s| && DigitRun(s, pos) == colon - pos && s[colon] == COLON
    requires ParseDigits(s[pos..colon]) == len && q == colon + 1 + len && q <= |s|
    ensures ReadString(s, pos) == Success((VStr(s[colon + 1..q]), q))
  {
    assert Substr(s, colon + 1, len) == s[colon + 1..q];
  }

  // ---------------------------------------------------------------------
  // Turns of the loop, one kind at a time

  /** A turn that goes on leaves the rest of the loop to the state it reaches. */
  lemma RunStep(s: seq<byte>, m: Machine, m': Machine)
    requires m.pos < |s| && Step(s, m) == Next(m')
    ensures Run(s, m) == Run(s, m')
  {
  }

  /** A `d` or an `l` where the innermost container wants a value opens a container inside it. */
  lemma RunOpen(s: seq<byte>, below: seq<Parent>, top: Frame, p: nat, q: nat, f: Frame)
    requires p < |s| && (s[p] == CHAR_D || s[p] == CHAR_L) && Holding(top) && q == p + 1 && f == Fresh(s[p])
    ensures Run(s, Machine(p, below, Inside(top))) == Run(s, Machine(q, below + [AsParent(top)], Inside(f)))
  {
    var x := if s[p] == CHAR_D then VDict([]) else VList([]);
    assert Token(s, p) == Success((x, q));
    RunStep(s, Machine(p, below, Inside(top)), Machine(q, below + [AsParent(top)], Inside(f)));
  }

  /** A `d` or an `l` at offset 0 opens the top-level container. */
  lemma RunOpenTop(s: seq<byte>, f: Frame)
    requires s != [] && (s[0] == CHAR_D || s[0] == CHAR_L) && f == Fresh(s[0])
    ensures Run(s, Machine(0, [], Null)) == Run(s, Machine(1, [], Inside(f)))
  {
    var x := if s[0] == CHAR_D then VDict([]) else VList([]);
    assert Token(s, 0) == Success((x, 1));
    RunStep(s, Machine(0, [], Null), Machine(1, [], Inside(f)));
  }

  /** An integer or a string where the innermost container wants a value goes into it. */
  lemma RunScalar(s: seq<byte>, below: seq<Parent>, top: Frame, x: Value, p: nat, q: nat)
    requires p < |s| && Token(s, p) == Success((x, q)) && (x.VInt? || x.VStr?) && Holding(top)
    ensures Run(s, Machine(p, below, Inside(top))) == Run(s, Machine(q, below, Inside(Attach(top, x))))
  {
    assert !(s[p] == CHAR_D || s[p] == CHAR_L);
    RunStep(s, Machine(p, below, Inside(top)), Machine(q, below, Inside(Attach(top, x))));
  }

  /** A string where a dictionary wants a key becomes the pending key. */
  lemma RunKey(s: seq<byte>, below: seq<Parent>, es: seq<(seq<byte>, Value)>, k: seq<byte>, p: nat, q: nat)
    requires p < |s| && IsDigit(s[p]) && Token(s, p) == Success((VStr(k), q))
    ensures Run(s, Machine(p, below, Inside(DictFrame(es, None)))) == Run(s, Machine(q, below, Inside(DictFrame(es, Some(k)))))
  {
    RunStep(s, Machine(p, below, Inside(DictFrame(es, None))), Machine(q, below, Inside(DictFrame(es, Some(k)))));
  }

  /** An `e` at depth 2 or more closes the innermost container, which goes into its parent. */
  lemma RunClose(s: seq<byte>, below: seq<Parent>, parent: Parent, inner: Frame, p: nat, q: nat, f: Frame)
    requires p < |s| && s[p] == CHAR_E && (inner.ListFrame? || inner.key.None?)
    requires q == p + 1 && f == Resume(parent, FrameValue(inner))
    ensures Run(s, Machine(p, below + [parent], Inside(inner))) == Run(s, Machine(q, below, Inside(f)))
  {
    assert (below + [parent])[..|below|] == below;
    RunStep(s, Machine(p, below + [parent], Inside(inner)), Machine(q, below, Inside(f)));
  }

  /** A scalar read at offset 0 becomes `$current`. */
  lemma RunTopScalar(s: seq<byte>, x: Value, q: nat)
    requires s != [] && Token(s, 0) == Success((x, q)) && (x.VInt? || x.VStr?)
    ensures Run(s, Machine(0, [], Null)) == Run(s, Machine(q, [], Done(x)))
  {
    assert !(s[0] == CHAR_D || s[0] == CHAR_L);
    RunStep(s, Machine(0, [], Null), Machine(q, [], Done(x)));
  }

  /** At the closing `e` of the top-level container the loop stops. */
  lemma RunStop(s: seq<byte>, f: Frame, p: nat)
    requires p < |s| && s[p] == CHAR_E && (f.ListFrame? || f.key.None?)
    ensures Run(s, Machine(p, [], Inside(f))) == Finish(s, Machine(p, [], Inside(f)))
    ensures Finish(s, Machine(p, [], Inside(f)))
      == if p == |s| - 1 then Success(Some(FrameValue(f))) else Failure(Fault.SuperfluousContent(p + 1))
  {
  }

  // ---------------------------------------------------------------------
  // Reading a whole wire form

  /**
    Where the innermost container wants a value, the wire form of `v` at
    `p` is read whole: the container takes `Merged(v)` and the cursor moves
    past it.
  */
  lemma {:induction false} Absorb(s: seq<byte>, below: seq<Parent>, top: Frame, v: Value, p: nat, q: nat)
    requires Holding(top) && q == p + |Serialize(v)| && Encodes(Raw(s), p, Serialize(v))
    ensures Run(s, Machine(p, below, Inside(top))) == Run(s, Machine(q, below, Inside(Attach(top, Merged(v)))))
    decreases v, 2
  {
    match v
    case VInt(n) =>
      TokenInteger(s, p, n, q);
      RunScalar(s, below, top, v, p, q);
    case VStr(b) =>
      TokenString(s, p, b, q);
      RunScalar(s, below, top, v, p, q);
    case VList(items) => AbsorbList(s, below, top, v, p, q);
    case VDict(es) => AbsorbDict(s, below, top, v, p, q);
  }

  lemma {:induction false} AbsorbList(s: seq<byte>, below: seq<Parent>, top: Frame, v: Value, p: nat, q: nat)
    requires Holding(top) && v.VList? && q == p + |Serialize(v)| && Encodes(Raw(s), p, Serialize(v))
    ensures Run(s, Machine(p, below, Inside(top))) == Run(s, Machine(q, below, Inside(Attach(top, Merged(v)))))
    decreases v, 1
  {
    var items := v.items;
    var close := ListLayout(s, v, p, q);
    var outer := below + [AsParent(top)];
    AbsorbItems(s, outer, items, 0, p + 1, close);
    Enclose(s, below, top, p, close, ListFrame(MergedItems(items, 0)), ListFrame(MergedItems(items, |items|)), q, Merged(v));
  }

  /**
    A container opened at `p` whose contents take the run to its closing `e`
    at `close`: the waiting frame `top` takes the finished container.
  */
  lemma Enclose(s: seq<byte>, below: seq<Parent>, top: Frame, p: nat, close: nat, started: Frame, inner: Frame, q: nat, x: Value)
    requires Holding(top) && p < close < |s| && q == close + 1
    requires (s[p] == CHAR_D || s[p] == CHAR_L) && started == Fresh(s[p])
    requires s[close] == CHAR_E && (inner.ListFrame? || inner.key.None?) && x == FrameValue(inner)
    requires Run(s, Machine(p + 1, below + [AsParent(top)], Inside(started))) == Run(s, Machine(close, below + [AsParent(top)], Inside(inner)))
    ensures Run(s, Machine(p, below, Inside(top))) == Run(s, Machine(q, below, Inside(Attach(top, x))))
  {
    var outer := below + [AsParent(top)];
    assert Run(s, Machine(p, below, Inside(top))) == Run(s, Machine(p + 1, outer, Inside(started))) by {
      RunOpen(s, below, top, p, p + 1, started);
    }
    assert Attach(top, x) == Resume(AsParent(top), FrameValue(inner));
    assert Run(s, Machine(close, outer, Inside(inner))) == Run(s, Machine(q, below, Inside(Attach(top, x)))) by {
      RunClose(s, below, AsParent(top), inner, close, q, Attach(top, x));
    }
  }

  /** `l`, the items from `p + 1`, and at `close` the `e`. */
  lemma ListLayout(s: seq<byte>, v: Value, p: nat, q: nat) returns (close: nat)
    requires v.VList? && q == p + |Serialize(v)| && Encodes(Raw(s), p, Serialize(v))
    ensures close + 1 == q && close == p + 1 + |SerializeItems(v.items, 0)| && close < |s|
    ensures s[p] == CHAR_L && s[close] == CHAR_E && Encodes(Raw(s), p + 1, SerializeItems(v.items, 0))
    ensures Fresh(s[p]) == ListFrame(MergedItems(v.items, 0))
    ensures Merged(v) == FrameValue(ListFrame(MergedItems(v.items, |v.items|)))
  {
    close := q - 1;
    EncodesSplit3(Raw(s), p, [CHAR_L], SerializeItems(v.items, 0), [CHAR_E], p + 1, close);
    EncodesFirst(Raw(s), p, [CHAR_L]);
    EncodesFirst(Raw(s), close, [CHAR_E]);
  }

  /** The items `items[i..]` at `p`, each read whole and appended, up to `close`. */
  lemma {:induction false} AbsorbItems(s: seq<byte>, below: seq<Parent>, items: seq<Value>, i: nat, p: nat, close: nat)
    requires i <= |items| && close == p + |SerializeItems(items, i)| && Encodes(Raw(s), p, SerializeItems(items, i))
    ensures Run(s, Machine(p, below, Inside(ListFrame(MergedItems(items, i)))))
      == Run(s, Machine(close, below, Inside(ListFrame(MergedItems(items, |items|)))))
    decreases items, |items| - i
  {
    if i < |items| {
      var q := p + |Serialize(items[i])|;
      EncodesSplitAt(Raw(s), p, Serialize(items[i]), SerializeItems(items, i + 1), q);
      Absorb(s, below, ListFrame(MergedItems(items, i)), items[i], p, q);
      AbsorbItems(s, below, items, i + 1, q, close);
    }
  }

  lemma {:induction false} AbsorbDict(s: seq<byte>, below: seq<Parent>, top: Frame, v: Value, p: nat, q: nat)
    requires Holding(top) && v.VDict? && q == p + |Serialize(v)| && Encodes(Raw(s), p, Serialize(v))
    ensures Run(s, Machine(p, below, Inside(top))) == Run(s, Machine(q, below, Inside(Attach(top, Merged(v)))))
    decreases v, 1
  {
    var es := v.entries;
    var close := DictLayout(s, v, p, q);
    var outer := below + [AsParent(top)];
    AbsorbEntries(s, outer, es, 0, p + 1, close);
    Enclose(s, below, top, p, close, DictFrame(MergedEntries(es, 0), None), DictFrame(MergedEntries(es, |es|), None), q, Merged(v));
  }

  /** `d`, the entries from `p + 1`, and at `close` the `e`. */
  lemma DictLayout(s: seq<byte>, v: Value, p: nat, q: nat) returns (close: nat)
    requires v.VDict? && q == p + |Serialize(v)| && Encodes(Raw(s), p, Serialize(v))
    ensures close + 1 == q && close == p + 1 + |SerializeEntries(v.entries, 0)| && close < |s|
    ensures s[p] == CHAR_D && s[close] == CHAR_E && Encodes(Raw(s), p + 1, SerializeEntries(v.entries, 0))
    ensures Fresh(s[p]) == DictFrame(MergedEntries(v.entries, 0), None)
    ensures Merged(v) == FrameValue(DictFrame(MergedEntries(v.entries, |v.entries|), None))
  {
    close := q - 1;
    EncodesSplit3(Raw(s), p, [CHAR_D], SerializeEntries(v.entries, 0), [CHAR_E], p + 1, close);
    EncodesFirst(Raw(s), p, [CHAR_D]);
    EncodesFirst(Raw(s), close, [CHAR_E]);
  }

  /** The entries `es[i..]` at `p`, each key read and its value read whole and assigned, up to `close`. */
  lemma {:induction false} AbsorbEntries(s: seq<byte>, below: seq<Parent>, es: seq<(seq<byte>, Value)>, i: nat, p: nat, close: nat)
    requires i <= |es| && close == p + |SerializeEntries(es, i)| && Encodes(Raw(s), p, SerializeEntries(es, i))
    ensures Run(s, Machine(p, below, Inside(DictFrame(MergedEntries(es, i), None))))
      == Run(s, Machine(close, below, Inside(DictFrame(MergedEntries(es, |es|), None))))
    decreases es, |es| - i
  {
    if i < |es| {
      var acc := MergedEntries(es, i);
      var e := es[i];
      assert e.1 < e;
      var mid := p + |EncodeString(e.0)|;
      var q := mid + |Serialize(e.1)|;
      EncodesSplit3(Raw(s), p, EncodeString(e.0), Serialize(e.1), SerializeEntries(es, i + 1), mid, q);
      TokenString(s, p, e.0, mid);
      RunKey(s, below, acc, e.0, p, mid);
      Absorb(s, below, DictFrame(acc, Some(e.0)), e.1, mid, q);
      AbsorbEntries(s, below, es, i + 1, q, close);
    }
  }

  /** The wire form `w` sits at `pos` in `s`. */
  lemma Within(s: seq<byte>, pos: nat, w: seq<byte>)
    requires pos + |w| <= |s| && s[pos..pos + |w|] == w
    ensures Encodes(Raw(s), pos, w)
  {
    forall k | 0 <= k < |w|
      ensures s[pos + k] == w[k]
    {
      assert s[pos..pos + |w|][k] == s[pos + k];
    }
    EncodesOf(Raw(s), pos, w);
  }

  /**
    A list at the start of the input is read whole: the loop reaches its
    closing `e` with the list as `$current` and nothing around it.
  */
  lemma RunTopList(s: seq<byte>, v: Value) returns (f: Frame, close: nat)
    requires v.VList? && |Serialize(v)| <= |s| && Encodes(Raw(s), 0, Serialize(v))
    ensures close + 1 == |Serialize(v)| && s[close] == CHAR_E
    ensures f.ListFrame? && FrameValue(f) == Merged(v)
    ensures Run(s, Machine(0, [], Null)) == Run(s, Machine(close, [], Inside(f)))
  {
    var items := v.items;
    close := ListLayout(s, v, 0, |Serialize(v)|);
    assert close == 1 + |SerializeItems(items, 0)| && Encodes(Raw(s), 1, SerializeItems(items, 0));
    f := ListFrame(MergedItems(items, |items|));
    AbsorbItems(s, [], items, 0, 1, close);
    RunOpenTop(s, ListFrame(MergedItems(items, 0)));
  }

  /** The same for a dictionary. */
  lemma RunTopDict(s: seq<byte>, v: Value) returns (f: Frame, close: nat)
    requires v.VDict? && |Serialize(v)| <= |s| && Encodes(Raw(s), 0, Serialize(v))
    ensures close + 1 == |Serialize(v)| && s[close] == CHAR_E
    ensures f.DictFrame? && f.key.None? && FrameValue(f) == Merged(v)
    ensures Run(s, Machine(0, [], Null)) == Run(s, Machine(close, [], Inside(f)))
  {
    var es := v.entries;
    close := DictLayout(s, v, 0, |Serialize(v)|);
    assert close == 1 + |SerializeEntries(es, 0)| && Encodes(Raw(s), 1, SerializeEntries(es, 0));
    f := DictFrame(MergedEntries(es, |es|), None);
    AbsorbEntries(s, [], es, 0, 1, close);
    RunOpenTop(s, DictFrame(MergedEntries(es, 0), None));
  }

  /**
    A container at the start of the input: the loop stops at its closing
    `e`, and what follows is left to the checks after the loop.
  */
  lemma RunTopContainer(s: seq<byte>, v: Value)
    requires (v.VList? || v.VDict?) && |Serialize(v)| <= |s| && Encodes(Raw(s), 0, Serialize(v))
    ensures |s| == |Serialize(v)| ==> Run(s, Machine(0, [], Null)) == Success(Some(Merged(v)))
    ensures |s| > |Serialize(v)| ==> Run(s, Machine(0, [], Null)) == Failure(Fault.SuperfluousContent(|Serialize(v)|))
  {
    var f, close;
    if v.VList? {
      f, close := RunTopList(s, v);
    } else {
      f, close := RunTopDict(s, v);
    }
    assert Run(s, Machine(0, [], Null))
      == if close == |s| - 1 then Success(Some(Merged(v))) else Failure(Fault.SuperfluousContent(close + 1)) by {
      RunStop(s, f, close);
    }
  }

  /**
    The legacy decoder reads back every wire form: the wire form of any
    value decodes to that value with repeated dictionary keys merged, and
    dictionary order is taken as it comes.
  */
  lemma LegacyReadsWireForm(v: Value)
    ensures Decoded(Serialize(v)) == Success(Some(Merged(v)))
  {
    var s := Serialize(v);
    EncodesOf(Raw(s), 0, s);
    if v.VInt? || v.VStr? {
      ReadTopScalar(s, v);
      RunEnd(s, v, |s|);
      DecodedVia(s, Machine(|s|, [], Done(v)), Success(Some(v)));
    } else {
      RunTopContainer(s, v);
      DecodedVia(s, Machine(0, [], Null), Success(Some(Merged(v))));
    }
  }

  /** Past the end of the input with a top-level scalar, the result is that scalar. */
  lemma RunEnd(s: seq<byte>, x: Value, q: nat)
    requires q >= |s|
    ensures Run(s, Machine(q, [], Done(x))) == Success(Some(x))
  {
  }

  /** Without repeated keys the legacy decoder gives back exactly the value, in whatever order its dictionaries are. */
  lemma LegacyRoundTrip(v: Value)
    requires Unique(v)
    ensures Decoded(Serialize(v)) == Success(Some(v))
  {
    LegacyReadsWireForm(v);
    MergedUnique(v);
  }

  /** Whatever Decoder::decode accepts, Bencode::decode accepts too and decodes to the same value. */
  lemma LegacyAgreesWithStrict(s: seq<byte>, v: Value)
    requires Decode(s, false) == Success(v)
    ensures Decoded(s) == Success(Some(v))
  {
    StrictDecoding.StrictDecodeIsSerialize(s, v);
    CanonicalUnique(v);
    LegacyRoundTrip(v);
  }

  // ---------------------------------------------------------------------
  // What the legacy decoder refuses, and what it lets through

  /** A scalar at the start of the input, read and kept as `$current`. */
  lemma ReadTopScalar(s: seq<byte>, a: Value)
    requires (a.VInt? || a.VStr?) && |Serialize(a)| <= |s| && Encodes(Raw(s), 0, Serialize(a))
    ensures Run(s, Machine(0, [], Null)) == Run(s, Machine(|Serialize(a)|, [], Done(a)))
  {
    match a
    case VInt(n) => TokenInteger(s, 0, n, |Serialize(a)|);
    case VStr(b) => TokenString(s, 0, b, |Serialize(a)|);
    RunTopScalar(s, a, |Serialize(a)|);
  }

  /** A token read while `$current` already holds a top-level scalar is refused. */
  lemma RunSecond(s: seq<byte>, a: Value, p: nat, x: Value, q: nat)
    requires p < |s| && Token(s, p) == Success((x, q))
    ensures Run(s, Machine(p, [], Done(a))) == Failure(UnexpectedValue(q))
  {
    assert s[p] != CHAR_E;
  }

  /** The loop from offset 0 reaches `m`, and from `m` ends with `r`. */
  lemma DecodedVia(s: seq<byte>, m: Machine, r: Result<Option<Value>, Fault>)
    requires s != [] && Run(s, Machine(0, [], Null)) == Run(s, m) && Run(s, m) == r
    ensures Decoded(s) == r
  {
  }

  /** A scalar at offset 0 and any token right after it. */
  lemma SecondTokenAt(s: seq<byte>, a: Value, x: Value, q: nat)
    requires (a.VInt? || a.VStr?) && |Serialize(a)| < |s| && Encodes(Raw(s), 0, Serialize(a))
    requires Token(s, |Serialize(a)|) == Success((x, q))
    ensures Decoded(s) == Failure(UnexpectedValue(q))
  {
    var p := |Serialize(a)|;
    ReadTopScalar(s, a);
    RunSecond(s, a, p, x, q);
    DecodedVia(s, Machine(p, [], Done(a)), Failure(UnexpectedValue(q)));
  }

  /** The three parts of `a + b + c`, as slices. */
  lemma Pieces(a: seq<byte>, b: seq<byte>, c: seq<byte>)
    ensures (a + b + c)[0..|a|] == a
    ensures (a + b + c)[|a|..|a| + |b|] == b
    ensures (a + b + c)[|a| + |b|..] == c
  {
  }

  /**
    Only one value is allowed at depth 0: a second scalar after a scalar
    is read and then refused with the offset just past it.
  */
  lemma LegacySecondScalar(a: Value, b: Value, t: seq<byte>)
    requires (a.VInt? || a.VStr?) && (b.VInt? || b.VStr?)
    ensures Decoded(Serialize(a) + Serialize(b) + t) == Failure(UnexpectedValue(|Serialize(a) + Serialize(b)|))
  {
    var sa, sb := Serialize(a), Serialize(b);
    var s := sa + sb + t;
    var p := |sa|;
    var q := |sa + sb|;
    assert s[0..p] == sa && s[p..q] == sb by { Pieces(sa, sb, t); }
    assert Encodes(Raw(s), 0, sa) by { Within(s, 0, sa); }
    assert Token(s, p) == Success((b, q)) by {
      Within(s, p, sb);
      if b.VInt? {
        TokenInteger(s, p, b.n, q);
      } else {
        TokenString(s, p, b.bytes, q);
      }
    }
    SecondTokenAt(s, a, b, q);
  }

  /**
    Nor can a container follow a top-level scalar: it is refused as soon as
    its opening byte is read.
  */
  lemma LegacySecondContainer(a: Value, c: byte, t: seq<byte>)
    requires (a.VInt? || a.VStr?) && (c == CHAR_D || c == CHAR_L)
    ensures Decoded(Serialize(a) + [c] + t) == Failure(UnexpectedValue(|Serialize(a)| + 1))
  {
    var sa := Serialize(a);
    var s := sa + [c] + t;
    var p := |sa|;
    assert Encodes(Raw(s), 0, sa) && s[p] == c && p < |s| by {
      Pieces(sa, [c], t);
      Within(s, 0, sa);
    }
    SecondOpenAt(s, a);
  }

  /** A top-level scalar at offset 0 followed by `d` or `l`. */
  lemma SecondOpenAt(s: seq<byte>, a: Value)
    requires (a.VInt? || a.VStr?) && |Serialize(a)| < |s| && Encodes(Raw(s), 0, Serialize(a))
    requires s[|Serialize(a)|] == CHAR_D || s[|Serialize(a)|] == CHAR_L
    ensures Decoded(s) == Failure(UnexpectedValue(|Serialize(a)| + 1))
  {
    var p := |Serialize(a)|;
    var x := TokenOpen(s, p);
    assert Decoded(s) == Failure(UnexpectedValue(p + 1)) by {
      SecondTokenAt(s, a, x, p + 1);
    }
  }

  /** An opening `d` or `l` is read as an empty container, one byte long. */
  lemma TokenOpen(s: seq<byte>, p: nat) returns (x: Value)
    requires p < |s| && (s[p] == CHAR_D || s[p] == CHAR_L)
    ensures Token(s, p) == Success((x, p + 1))
  {
    x := if s[p] == CHAR_D then VDict([]) else VList([]);
  }

  /**
    An `e` after a top-level scalar stops the loop at depth 0 instead of
    being refused: it is accepted as the last byte and otherwise reported
    as superfluous content from the byte after it.
  */
  lemma LegacyScalarThenEnd(a: Value, t: seq<byte>)
    requires a.VInt? || a.VStr?
    ensures Decoded(Serialize(a) + [CHAR_E] + t)
      == if t == [] then Success(Some(a)) else Failure(Fault.SuperfluousContent(|Serialize(a)| + 1))
  {
    var sa := Serialize(a);
    var s := sa + [CHAR_E] + t;
    assert Encodes(Raw(s), 0, sa) && |sa| < |s| && s[|sa|] == CHAR_E by {
      Pieces(sa, [CHAR_E], t);
      Within(s, 0, sa);
    }
    ScalarThenEndAt(s, a);
  }

  /** A scalar at offset 0 and an `e` right after it. */
  lemma ScalarThenEndAt(s: seq<byte>, a: Value)
    requires (a.VInt? || a.VStr?) && |Serialize(a)| < |s| && Encodes(Raw(s), 0, Serialize(a)) && s[|Serialize(a)|] == CHAR_E
    ensures Decoded(s)
      == if |s| == |Serialize(a)| + 1 then Success(Some(a)) else Failure(Fault.SuperfluousContent(|Serialize(a)| + 1))
  {
    var p := |Serialize(a)|;
    var m := Machine(p, [], Done(a));
    var r := if |s| == p + 1 then Success(Some(a)) else Failure(Fault.SuperfluousContent(p + 1));
    assert Run(s, Machine(0, [], Null)) == Run(s, m) by { ReadTopScalar(s, a); }
    assert Run(s, m) == r by { RunStopScalar(s, a, p); }
    DecodedVia(s, m, r);
  }

  /** An `e` at depth 0 stops the loop. */
  lemma RunStopScalar(s: seq<byte>, a: Value, p: nat)
    requires p < |s| && s[p] == CHAR_E
    ensures Run(s, Machine(p, [], Done(a))) == Finish(s, Machine(p, [], Done(a)))
    ensures Finish(s, Machine(p, [], Done(a))) == if p == |s| - 1 then Success(Some(a)) else Failure(Fault.SuperfluousContent(p + 1))
  {
  }

  /**
    After the top-level container closes, anything left is superfluous
    content, reported from the byte after the closing `e`.
  */
  lemma LegacyTrailingContent(v: Value, t: seq<byte>)
    requires (v.VList? || v.VDict?) && t != []
    ensures Decoded(Serialize(v) + t) == Failure(Fault.SuperfluousContent(|Serialize(v)|))
  {
    var s := Serialize(v) + t;
    assert s[..|Serialize(v)|] == Serialize(v);
    Within(s, 0, Serialize(v));
    TrailingAt(s, v);
  }

  /** A container at offset 0 with more input after it. */
  lemma TrailingAt(s: seq<byte>, v: Value)
    requires (v.VList? || v.VDict?) && |Serialize(v)| < |s| && Encodes(Raw(s), 0, Serialize(v))
    ensures Decoded(s) == Failure(Fault.SuperfluousContent(|Serialize(v)|))
  {
    RunTopContainer(s, v);
    DecodedVia(s, Machine(0, [], Null), Failure(Fault.SuperfluousContent(|Serialize(v)|)));
  }

  /** A list whose closing `e` never comes is premature end of data. */
  lemma LegacyUnclosedList(items: seq<Value>)
    ensures Decoded([CHAR_L] + SerializeItems(items, 0)) == Failure(Fault.PrematureEndOfData)
  {
    var body := SerializeItems(items, 0);
    var s := [CHAR_L] + body;
    assert s[1..1 + |body|] == body;
    Within(s, 1, body);
    RunOpenTop(s, ListFrame(MergedItems(items, 0)));
    AbsorbItems(s, [], items, 0, 1, |s|);
  }

  /** A dictionary started at offset 0, the key `k` after it, and an `e` at `q`. */
  lemma PendingKeyAt(s: seq<byte>, k: seq<byte>, q: nat)
    requires q == 1 + |EncodeString(k)| && q < |s| && s[0] == CHAR_D && s[q] == CHAR_E
    requires Encodes(Raw(s), 1, EncodeString(k))
    ensures Decoded(s) == Failure(PrematureEndOfDictionary(q))
  {
    TokenString(s, 1, k, q);
    RunKeyTop(s, k, q);
    RunPending(s, [], [], k, q);
    DecodedVia(s, Machine(q, [], Inside(DictFrame([], Some(k)))), Failure(PrematureEndOfDictionary(q)));
  }

  /** An `e` where a dictionary waits for the value of key `k` is premature end of dictionary at that `e`. */
  lemma LegacyPendingKey(k: seq<byte>, t: seq<byte>)
    ensures Decoded([CHAR_D] + EncodeString(k) + [CHAR_E] + t)
      == Failure(PrematureEndOfDictionary(1 + |EncodeString(k)|))
  {
    var w := EncodeString(k);
    var s := [CHAR_D] + w + [CHAR_E] + t;
    var q := 1 + |w|;
    assert s[1..q] == w && s[q] == CHAR_E;
    Within(s, 1, w);
    PendingKeyAt(s, k, q);
  }

  /** A dictionary started at offset 0 and its first key read. */
  lemma RunKeyTop(s: seq<byte>, k: seq<byte>, q: nat)
    requires 1 < |s| && s[0] == CHAR_D && IsDigit(s[1]) && Token(s, 1) == Success((VStr(k), q))
    ensures Run(s, Machine(0, [], Null)) == Run(s, Machine(q, [], Inside(DictFrame([], Some(k)))))
  {
    RunOpenTop(s, DictFrame([], None));
    RunKey(s, [], [], k, 1, q);
  }

  /** An `e` while a key waits for its value. */
  lemma RunPending(s: seq<byte>, below: seq<Parent>, es: seq<(seq<byte>, Value)>, k: seq<byte>, p: nat)
    requires p < |s| && s[p] == CHAR_E
    ensures Run(s, Machine(p, below, Inside(DictFrame(es, Some(k))))) == Failure(PrematureEndOfDictionary(p))
  {
  }

  /** In key position only a string is allowed: an integer is read and refused, naming its `i`. */
  lemma LegacyIntegerKey(n: int, t: seq<byte>)
    ensures Decoded([CHAR_D] + EncodeInteger(n) + t) == Failure(InvalidDictionaryKeyType(CHAR_I))
  {
    var w := EncodeInteger(n);
    var s := [CHAR_D] + w + t;
    var q := 1 + |w|;
    assert s[1..q] == w;
    Within(s, 1, w);
    IntegerKeyAt(s, n);
  }

  /** A dictionary started at offset 0 and an integer in its key position. */
  lemma IntegerKeyAt(s: seq<byte>, n: int)
    requires 1 + |EncodeInteger(n)| <= |s| && s[0] == CHAR_D && Encodes(Raw(s), 1, EncodeInteger(n))
    ensures Decoded(s) == Failure(InvalidDictionaryKeyType(CHAR_I))
  {
    var q := 1 + |EncodeInteger(n)|;
    TokenInteger(s, 1, n, q);
    RunOpenTop(s, DictFrame([], None));
    var m := Machine(1, [], Inside(DictFrame([], None)));
    RunBadKey(s, [], [], 1, VInt(n), q);
    DecodedVia(s, m, Failure(InvalidDictionaryKeyType(CHAR_I)));
  }

  /** Nor a container: a `d` or an `l` in key position is refused as soon as it is read. */
  lemma LegacyContainerKey(c: byte, t: seq<byte>)
    requires c == CHAR_D || c == CHAR_L
    ensures Decoded([CHAR_D, c] + t) == Failure(InvalidDictionaryKeyType(c))
  {
    var s := [CHAR_D, c] + t;
    var x := if c == CHAR_D then VDict([]) else VList([]);
    assert s[0] == CHAR_D && s[1] == c;
    assert Token(s, 1) == Success((x, 2));
    RunOpenTop(s, DictFrame([], None));
    var m := Machine(1, [], Inside(DictFrame([], None)));
    RunBadKey(s, [], [], 1, x, 2);
    DecodedVia(s, m, Failure(InvalidDictionaryKeyType(c)));
  }

  /** A token other than a string where a dictionary wants a key. */
  lemma RunBadKey(s: seq<byte>, below: seq<Parent>, es: seq<(seq<byte>, Value)>, p: nat, x: Value, q: nat)
    requires p < |s| && Token(s, p) == Success((x, q)) && !x.VStr?
    ensures Run(s, Machine(p, below, Inside(DictFrame(es, None)))) == Failure(InvalidDictionaryKeyType(s[p]))
  {
    assert s[p] != CHAR_E;
  }

  /**
    A top-level string shorter than its announced length is taken as it
    is: `substr` stops at the end of the input and, at depth 0, running
    past the end is not an error.
  */
  lemma LegacyShortString(b: seq<byte>, n: nat)
    requires n > |b|
    ensures Decoded(Digits(n) + [COLON] + b) == Success(Some(VStr(b)))
  {
    var d := Digits(n);
    var s := d + [COLON] + b;
    var colon := |d|;
    var q := colon + 1 + n;
    assert s[..colon] == d && s[colon] == COLON && s[colon + 1..] == b;
    Within(s, 0, d);
    ShortStringToken(s, n, colon, b, q);
    var x := VStr(b);
    RunTopScalar(s, x, q);
    RunEnd(s, x, q);
    DecodedVia(s, Machine(q, [], Done(x)), Success(Some(x)));
  }

  /** The digits of `n`, then `:` with fewer than `n` bytes after it: the string token takes what there is. */
  lemma ShortStringToken(s: seq<byte>, n: nat, colon: nat, b: seq<byte>, q: nat)
    requires colon == |Digits(n)| && colon < |s| && Encodes(Raw(s), 0, Digits(n)) && s[colon] == COLON
    requires s[colon + 1..] == b && q == colon + 1 + n && q > |s|
    ensures Token(s, 0) == Success((VStr(b), q))
  {
    DigitsAt(s, 0, n);
    ReadShortString(s, 0, colon, n, b, q);
  }

  /** A string token whose announced length runs past the end of the input. */
  lemma ReadShortString(s: seq<byte>, pos: nat, colon: nat, len: nat, b: seq<byte>, q: nat)
    requires pos < colon < |s| && DigitRun(s, pos) == colon - pos && s[colon] == COLON
    requires ParseDigits(s[pos..colon]) == len && s[colon + 1..] == b && q == colon + 1 + len && q > |s|
    ensures ReadString(s, pos) == Success((VStr(b), q))
  {
    assert pos + DigitRun(s, pos) == colon;
    assert Substr(s, colon + 1, len) == b;
  }

  // ---------------------------------------------------------------------
  // Integer tokens that do not scan

  /** The optional minus sign of an integer token. */
  function Sign(negative: bool): (r: seq<byte>)
    ensures |r| == if negative then 1 else 0
  {
    if negative then [MINUS] else []
  }

  /**
    An `i` (and an optional `-`) followed by no digit: "Invalid integer
    found", at the offset where the digits should start.
  */
  lemma LegacyIntegerWithoutDigits(negative: bool, t: seq<byte>)
    requires negative || t != []
    requires t != [] ==> !IsDigit(t[0]) && (negative || t[0] != MINUS)
    ensures Decoded([CHAR_I] + Sign(negative) + t) == Failure(InvalidInteger(1 + |Sign(negative)|))
  {
    var s := [CHAR_I] + Sign(negative) + t;
    var start := 1 + |Sign(negative)|;
    assert s[1] == if negative then MINUS else t[0];
    assert start < |s| ==> s[start] == t[0];
    assert DigitRun(s, start) == 0;
    assert ReadInteger(s, 0) == Failure(InvalidInteger(start));
    DecodedVia(s, Machine(0, [], Null), Failure(InvalidInteger(start)));
  }

  /**
    An `i`, an optional `-` and a digit run not followed by `e`: "Invalid
    integer end found", at the offset after the digits.
  */
  lemma LegacyIntegerUnterminated(negative: bool, m: nat, t: seq<byte>)
    requires t != [] ==> t[0] != CHAR_E && !IsDigit(t[0])
    ensures Decoded([CHAR_I] + Sign(negative) + Digits(m) + t)
      == Failure(InvalidIntegerEnd(1 + |Sign(negative)| + |Digits(m)|))
  {
    UnterminatedDigits(negative, m, t);
    UnterminatedToken([CHAR_I] + Sign(negative) + Digits(m) + t, negative, 1 + |Sign(negative)|, |Digits(m)|);
  }

  /** UnterminatedLayout for the decimal text of `m`. */
  lemma UnterminatedDigits(negative: bool, m: nat, t: seq<byte>)
    requires t != [] ==> t[0] != CHAR_E && !IsDigit(t[0])
    ensures var s := [CHAR_I] + Sign(negative) + Digits(m) + t;
      var start := 1 + |Sign(negative)|;
      && |Digits(m)| >= 1 && 1 < |s| && s[0] == CHAR_I && (negative <==> s[1] == MINUS)
      && DigitRun(s, start) == |Digits(m)| && (start + |Digits(m)| < |s| ==> s[start + |Digits(m)|] != CHAR_E)
  {
    DigitsCanonical(m);
    UnterminatedLayout(negative, Digits(m), t);
  }

  /** Where the sign, the digits and the byte after them sit in the token. */
  lemma UnterminatedLayout(negative: bool, d: seq<byte>, t: seq<byte>)
    requires |d| >= 1 && AllDigits(d)
    requires t != [] ==> t[0] != CHAR_E && !IsDigit(t[0])
    ensures var s := [CHAR_I] + Sign(negative) + d + t;
      var start := 1 + |Sign(negative)|;
      && 1 < |s| && s[0] == CHAR_I && (negative <==> s[1] == MINUS)
      && DigitRun(s, start) == |d| && (start + |d| < |s| ==> s[start + |d|] != CHAR_E)
  {
    var head := [CHAR_I] + Sign(negative);
    var s := head + d + t;
    var start := |head|;
    assert s[1] == if negative then MINUS else d[0];
    Pieces(head, d, t);
    DigitRunReaches(s, start, d);
  }

  /** ReadInteger once the digit run is known not to end in an `e`. */
  lemma UnterminatedToken(s: seq<byte>, negative: bool, start: nat, n: nat)
    requires 1 < |s| && s[0] == CHAR_I && (negative <==> s[1] == MINUS)
    requires start == (if negative then 2 else 1) && n > 0 && DigitRun(s, start) == n
    requires start + n < |s| ==> s[start + n] != CHAR_E
    ensures Decoded(s) == Failure(InvalidIntegerEnd(start + n))
  {
    assert Run(s, Machine(0, [], Null)) == Failure(InvalidIntegerEnd(start + n)) by {
      assert ReadInteger(s, 0) == Failure(InvalidIntegerEnd(start + n));
    }
    DecodedVia(s, Machine(0, [], Null), Failure(InvalidIntegerEnd(start + n)));
  }

  /** A digit run that ends with the input or at a byte that is not a digit is scanned whole. */
  lemma DigitRunReaches(s: seq<byte>, start: nat, d: seq<byte>)
    requires start + |d| <= |s| && AllDigits(d) && s[start..start + |d|] == d
    requires start + |d| < |s| ==> !IsDigit(s[start + |d|])
    ensures DigitRun(s, start) == |d|
  {
  }

  /** An `i` as the last byte: "Premature end of data", at the top level as inside a list. */
  lemma LegacyIntegerAtEnd()
    ensures Decoded([CHAR_I]) == Failure(Fault.PrematureEndOfData)
    ensures Decoded([CHAR_L, CHAR_I]) == Failure(Fault.PrematureEndOfData)
  {
    var s := [CHAR_L, CHAR_I];
    assert Token(s, 0) == Success((VList([]), 1));
    RunStep(s, Machine(0, [], Null), Machine(1, [], Inside(ListFrame([]))));
  }
}
