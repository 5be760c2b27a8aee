/**
  The strict decoder accepts nothing but wire forms: whatever
  Decoder::decode returns is canonical, and its wire form is exactly the
  input it read. Together with the round trip of module RoundTrip this
  makes the strict decoder and Encoder::encode inverse on both sides.
*/
module StrictDecoding {
  import opened Wrappers
  import opened Decimal
  import opened ByteOrder
  import opened Values
  import opened DecoderSpec
  import opened Encoders
  import opened Serialization
  import opened RoundTrip

  /** The strict decoder read `v` at `pos` and stopped at `q`, inside the input. */
  predicate Parsed(inp: Input, pos: int, v: Value, q: int) {
    && !inp.lenient && inp.Valid() && 0 <= pos <= inp.max
    && ParseAnything(inp, pos) == Success((v, q)) && q <= |inp.bytes|
  }

  /** `v` is canonical and its wire form is what lies from `pos` up to `q`. */
  predicate Wire(inp: Input, pos: int, v: Value, q: int) {
    Canonical(v) && q == pos + |Serialize(v)| && Encodes(inp, pos, Serialize(v))
  }

  /**
    Whatever the strict decoder reads at `pos` is canonical and was written
    there in its wire form: no leading zeros, no `-0`, dictionary keys
    strictly increasing, nothing skipped.
  */
  lemma {:induction false} ParsedWire(inp: Input, pos: int, v: Value, q: int)
    requires Parsed(inp, pos, v, q)
    ensures Wire(inp, pos, v, q)
    decreases Left(inp, pos), 2
  {
    var c := inp.bytes[pos];
    if c == CHAR_I {
      IntWire(inp, pos, v, q);
    } else if c == CHAR_L {
      ListWire(inp, pos, v, q);
    } else if c == CHAR_D {
      DictWire(inp, pos, v, q);
    } else {
      StrWire(inp, pos, v, q);
    }
  }

  lemma EncodesJoin(inp: Input, pos: int, a: seq<byte>, b: seq<byte>)
    requires Encodes(inp, pos, a) && Encodes(inp, pos + |a|, b)
    ensures Encodes(inp, pos, a + b)
  {
    EncodesAt(inp, pos, a);
    EncodesAt(inp, pos + |a|, b);
    var w := a + b;
    forall k | 0 <= k < |w| ensures inp.bytes[pos + k] == w[k] {
      if k >= |a| {
        assert inp.bytes[pos + |a| + (k - |a|)] == b[k - |a|];
      }
    }
    EncodesOf(inp, pos, w);
  }

  /** Three pieces one after the other, the second at `mid`, the third at `q`. */
  lemma EncodesJoin3(inp: Input, pos: int, a: seq<byte>, b: seq<byte>, c: seq<byte>, mid: int, q: int)
    requires mid == pos + |a| && q == mid + |b|
    requires Encodes(inp, pos, a) && Encodes(inp, mid, b) && Encodes(inp, q, c)
    ensures Encodes(inp, pos, a + b + c)
  {
    EncodesJoin(inp, pos, a, b);
    EncodesJoin(inp, pos, a + b, c);
  }

  lemma EncodesByte(inp: Input, pos: int, c: byte)
    requires 0 <= pos < |inp.bytes| && inp.bytes[pos] == c
    ensures Encodes(inp, pos, [c])
  {
    EncodesOf(inp, pos, [c]);
  }

  lemma EncodesOwn(inp: Input, from: int, to: int)
    requires 0 <= from <= to <= |inp.bytes|
    ensures Encodes(inp, from, inp.bytes[from..to])
  {
    EncodesOf(inp, from, inp.bytes[from..to]);
  }

  /**
    A digit run the strict decoder accepted, from `pos` up to the
    terminator at `end - 1`, is the decimal rendering of the value read.
  */
  lemma DigitsRead(inp: Input, pos: int, terminator: byte, n: nat, end: int)
    requires !inp.lenient && 0 <= pos <= LastNonDigit(inp.bytes)
    requires ReadDigits(inp, pos, terminator) == Success((n, end))
    ensures end == pos + |Digits(n)| + 1 && Encodes(inp, pos, Digits(n))
    ensures inp.bytes[end - 1] == terminator
  {
    var run := DigitRunRead(inp, pos, terminator, n, end);
    DigitsOfParseDigits(run);
    assert Digits(n) == run;
    EncodesOwn(inp, pos, end - 1);
  }

  /** The digit run a successful read consumed, up to the terminator at `end - 1`. */
  lemma DigitRunRead(inp: Input, pos: int, terminator: byte, n: nat, end: int) returns (run: seq<byte>)
    requires !inp.lenient && 0 <= pos <= LastNonDigit(inp.bytes)
    requires ReadDigits(inp, pos, terminator) == Success((n, end))
    ensures pos < end <= |inp.bytes| && run == inp.bytes[pos..end - 1] && inp.bytes[end - 1] == terminator
    ensures CanonicalDigits(run) && n == ParseDigits(run)
  {
    ReadDigitsRun(inp, pos, terminator);
    run := inp.bytes[pos..end - 1];
  }

  /** decodeString, strictly, reads only what encodeString writes. */
  lemma StringRead(inp: Input, pos: int, b: seq<byte>, q: int)
    requires !inp.lenient && 0 <= pos <= LastNonDigit(inp.bytes)
    requires ParseString(inp, pos) == Success((b, q)) && q <= |inp.bytes|
    ensures q == pos + |EncodeString(b)| && Encodes(inp, pos, EncodeString(b))
  {
    var start := StringParts(inp, pos, b, q);
    StringJoin(inp, pos, b, start, q);
  }

  /** What decodeString read: the length of `b` in decimal, the `:` before `start`, then `b` up to `q`. */
  lemma StringParts(inp: Input, pos: int, b: seq<byte>, q: int) returns (start: int)
    requires !inp.lenient && 0 <= pos <= LastNonDigit(inp.bytes)
    requires ParseString(inp, pos) == Success((b, q)) && q <= |inp.bytes|
    ensures start == pos + |Digits(|b|)| + 1 && q == start + |b|
    ensures Encodes(inp, pos, Digits(|b|)) && inp.bytes[start - 1] == COLON && inp.bytes[start..q] == b
  {
    var d := ReadDigits(inp, pos, COLON).value;
    start := d.1;
    DigitsRead(inp, pos, COLON, d.0, start);
  }

  lemma StringJoin(inp: Input, pos: int, b: seq<byte>, start: int, q: int)
    requires 0 <= pos && start == pos + |Digits(|b|)| + 1 && q == start + |b| && q <= |inp.bytes|
    requires Encodes(inp, pos, Digits(|b|)) && inp.bytes[start - 1] == COLON && inp.bytes[start..q] == b
    ensures q == pos + |EncodeString(b)| && Encodes(inp, pos, EncodeString(b))
  {
    EncodesByte(inp, start - 1, COLON);
    EncodesOwn(inp, start, q);
    EncodesJoin3(inp, pos, Digits(|b|), [COLON], b, start - 1, start);
  }

  lemma StrWire(inp: Input, pos: int, v: Value, q: int)
    requires Parsed(inp, pos, v, q)
    requires inp.bytes[pos] != CHAR_I && inp.bytes[pos] != CHAR_L && inp.bytes[pos] != CHAR_D
    ensures Wire(inp, pos, v, q)
  {
    StringRead(inp, pos, v.bytes, q);
  }

  /** decodeInteger, strictly, reads only what encodeInteger writes. */
  lemma IntWire(inp: Input, pos: int, v: Value, q: int)
    requires Parsed(inp, pos, v, q) && inp.bytes[pos] == CHAR_I
    ensures Wire(inp, pos, v, q)
  {
    AnythingInteger(inp, pos);
    var negative := inp.bytes[pos + 1] == MINUS;
    var start := if negative then pos + 2 else pos + 1;
    var m := ReadDigits(inp, start, CHAR_E).value.0;
    DigitsRead(inp, start, CHAR_E, m, q);
    if negative {
      DigitsCanonical(m);
      EncodesFirst(inp, start, Digits(m));
      assert v == VInt(-(m as int)) && m > 0;
      NegativeWire(inp, pos, m, q);
    } else {
      NonNegativeWire(inp, pos, m, q);
    }
  }

  /** `i`, the digits of `m`, `e`, with the `e` at `q - 1`: the wire form of `m`. */
  lemma NonNegativeWire(inp: Input, pos: int, m: nat, q: int)
    requires 0 <= pos && q == pos + 1 + |Digits(m)| + 1 && q <= |inp.bytes|
    requires inp.bytes[pos] == CHAR_I && Encodes(inp, pos + 1, Digits(m)) && inp.bytes[q - 1] == CHAR_E
    ensures q == pos + |EncodeInteger(m)| && Encodes(inp, pos, EncodeInteger(m))
  {
    EncodesByte(inp, pos, CHAR_I);
    EncodesByte(inp, q - 1, CHAR_E);
    EncodesJoin(inp, pos, [CHAR_I], Digits(m));
    EncodesJoin(inp, pos, [CHAR_I] + Digits(m), [CHAR_E]);
  }

  /** `i`, `-`, the digits of `m`, `e`, with the `e` at `q - 1`: the wire form of `-m`. */
  lemma NegativeWire(inp: Input, pos: int, m: nat, q: int)
    requires m > 0 && 0 <= pos && q == pos + 2 + |Digits(m)| + 1 && q <= |inp.bytes|
    requires inp.bytes[pos] == CHAR_I && inp.bytes[pos + 1] == MINUS
    requires Encodes(inp, pos + 2, Digits(m)) && inp.bytes[q - 1] == CHAR_E
    ensures q == pos + |EncodeInteger(-(m as int))| && Encodes(inp, pos, EncodeInteger(-(m as int)))
  {
    EncodesByte(inp, pos, CHAR_I);
    EncodesByte(inp, pos + 1, MINUS);
    EncodesByte(inp, q - 1, CHAR_E);
    EncodesJoin(inp, pos + 1, [MINUS], Digits(m));
    EncodesJoin(inp, pos, [CHAR_I], [MINUS] + Digits(m));
    EncodesJoin(inp, pos, [CHAR_I] + ([MINUS] + Digits(m)), [CHAR_E]);
  }

  /** decodeList, strictly: `l`, the wire forms of the items, `e`. */
  lemma {:induction false} ListWire(inp: Input, pos: int, v: Value, q: int)
    requires Parsed(inp, pos, v, q) && inp.bytes[pos] == CHAR_L
    ensures Wire(inp, pos, v, q)
    decreases Left(inp, pos), 1
  {
    ListRead(inp, pos, v, q);
    ListParsed(inp, pos + 1, [], v.items, q - 1);
    ListClose(inp, pos, v, q);
  }

  lemma ListRead(inp: Input, pos: int, v: Value, q: int)
    requires Parsed(inp, pos, v, q) && inp.bytes[pos] == CHAR_L
    ensures v.VList? && ListItems(inp, pos + 1, []) == Success((v, q))
  {
    assert ParseAnything(inp, pos) == ParseList(inp, pos);
  }

  lemma ListClose(inp: Input, pos: int, v: Value, q: int)
    requires v.VList? && 0 <= pos < |inp.bytes| && inp.bytes[pos] == CHAR_L && ListLaid(inp, pos + 1, v.items, 0, q - 1)
    ensures Wire(inp, pos, v, q)
  {
    var body := SerializeItems(v.items, 0);
    EncodesByte(inp, pos, CHAR_L);
    EncodesByte(inp, q - 1, CHAR_E);
    EncodesJoin(inp, pos, [CHAR_L], body);
    EncodesJoin(inp, pos, [CHAR_L] + body, [CHAR_E]);
  }

  /**
    The loop of decodeList, strictly, from `p` with the items `acc` read so
    far: what it reads up to the `e` at `close` are the wire forms of the
    remaining items.
  */
  lemma {:induction false} ListParsed(inp: Input, p: int, acc: seq<Value>, items: seq<Value>, close: int)
    requires !inp.lenient && inp.Valid() && 0 <= p
    requires forall k :: 0 <= k < |acc| ==> Canonical(acc[k])
    requires ListItems(inp, p, acc) == Success((VList(items), close + 1))
    ensures ListLaid(inp, p, items, |acc|, close)
    decreases Left(inp, p), 3
  {
    assert p <= inp.max;
    if inp.bytes[p] == CHAR_E {
      assert items == acc && close == p;
      EncodesOf(inp, p, []);
    } else {
      var x, q := ListNext(inp, p, acc, items, close);
      ParsedWire(inp, p, x, q);
      ListParsed(inp, q, acc + [x], items, close);
      ListJoin(inp, p, items, |acc|, q, close);
    }
  }

  /** Item `i` at `p`, followed at `q` by the rest. */
  lemma ListJoin(inp: Input, p: int, items: seq<Value>, i: nat, q: int, close: int)
    requires 0 <= p && i < |items| && Wire(inp, p, items[i], q) && ListLaid(inp, q, items, i + 1, close)
    ensures ListLaid(inp, p, items, i, close)
  {
    EncodesJoin(inp, p, Serialize(items[i]), SerializeItems(items, i + 1));
  }

  /** One turn of that loop: the item `x` at `p`, after which the loop goes on at `q`. */
  lemma ListNext(inp: Input, p: int, acc: seq<Value>, items: seq<Value>, close: int) returns (x: Value, q: int)
    requires inp.Valid() && 0 <= p <= inp.max && inp.bytes[p] != CHAR_E
    requires ListItems(inp, p, acc) == Success((VList(items), close + 1))
    ensures ParseAnything(inp, p) == Success((x, q)) && p < q <= inp.max && q < |inp.bytes|
    ensures ListItems(inp, q, acc + [x]) == Success((VList(items), close + 1))
    ensures |acc| < |items| && items[|acc|] == x
  {
    var r := ParseAnything(inp, p).value;
    x, q := r.0, r.1;
    assert items[..|acc| + 1] == acc + [x];
    assert items[|acc|] == items[..|acc| + 1][|acc|];
  }

  /** decodeDictionary, strictly: `d`, the entries with strictly increasing keys, `e`. */
  lemma {:induction false} DictWire(inp: Input, pos: int, v: Value, q: int)
    requires Parsed(inp, pos, v, q) && inp.bytes[pos] == CHAR_D
    ensures Wire(inp, pos, v, q)
    decreases Left(inp, pos), 1
  {
    DictRead(inp, pos, v, q);
    assert KeyBefore([], 0) == None;
    assert DictReading(inp, pos + 1, [], v.entries, q - 1);
    DictParsed(inp, pos + 1, [], v.entries, q - 1);
    DictClose(inp, pos, v, q);
  }

  /** The strict policy never raises the sort flag, so the entries come back as read. */
  lemma DictRead(inp: Input, pos: int, v: Value, q: int)
    requires Parsed(inp, pos, v, q) && inp.bytes[pos] == CHAR_D
    ensures v.VDict? && DictEntries(inp, pos + 1, None, [], false) == Success((v.entries, false, q))
  {
    assert ParseAnything(inp, pos) == ParseDictionary(inp, pos);
    var d := DictEntries(inp, pos + 1, None, [], false);
    assert d.Success? && !d.value.1;
  }

  lemma DictClose(inp: Input, pos: int, v: Value, q: int)
    requires v.VDict? && 0 <= pos < |inp.bytes| && inp.bytes[pos] == CHAR_D && DictLaid(inp, pos + 1, v.entries, 0, q - 1)
    ensures Wire(inp, pos, v, q)
  {
    var body := SerializeEntries(v.entries, 0);
    EncodesByte(inp, pos, CHAR_D);
    EncodesByte(inp, q - 1, CHAR_E);
    EncodesJoin(inp, pos, [CHAR_D], body);
    EncodesJoin(inp, pos, [CHAR_D] + body, [CHAR_E]);
  }

  /** The strict loop of decodeDictionary at `p`, with the entries `acc` so far, stops with `es` and the `e` at `close`. */
  predicate DictReading(inp: Input, p: int, acc: seq<(seq<byte>, Value)>, es: seq<(seq<byte>, Value)>, close: int) {
    && !inp.lenient && inp.Valid() && 0 <= p && StrictlySorted(acc)
    && DictEntries(inp, p, KeyBefore(acc, |acc|), acc, false) == Success((es, false, close + 1))
  }

  predicate ValuesCanonical(es: seq<(seq<byte>, Value)>) {
    forall k :: 0 <= k < |es| ==> Canonical(es[k].1)
  }

  /** `es` extends `acc`, and the entries after it lie in wire form from `p` up to the `e` at `close`. */
  predicate DictRest(inp: Input, p: int, acc: seq<(seq<byte>, Value)>, es: seq<(seq<byte>, Value)>, close: int) {
    && |acc| <= |es| && (forall k :: 0 <= k < |acc| ==> es[k] == acc[k])
    && DictLaid(inp, p, es, |acc|, close)
  }

  /**
    The loop of decodeDictionary, strictly, from `p` with the entries `acc`
    read so far: it only goes on appending, so what it returns extends
    `acc`, and what it reads up to the `e` at `close` are the wire forms of
    the remaining entries, keys strictly increasing.
  */
  lemma {:induction false} DictParsed(inp: Input, p: int, acc: seq<(seq<byte>, Value)>, es: seq<(seq<byte>, Value)>, close: int)
    requires DictReading(inp, p, acc, es, close) && ValuesCanonical(acc)
    ensures DictRest(inp, p, acc, es, close)
    decreases Left(inp, p), 3
  {
    if DictAtEnd(inp, p, acc, es, close) {
      EncodesOf(inp, p, []);
    } else {
      var key, x, mid, q := DictNext(inp, p, acc, es, close);
      ParsedWire(inp, mid, x, q);
      var next := acc + [(key, x)];
      CanonicalAppend(acc, key, x);
      DictParsed(inp, q, next, es, close);
      DictBack(inp, p, acc, key, x, mid, q, es, close);
    }
  }

  /** Where the strict loop stands at `p`: inside the safe region, and at the closing `e` exactly when nothing is left. */
  predicate DictAtEnd(inp: Input, p: int, acc: seq<(seq<byte>, Value)>, es: seq<(seq<byte>, Value)>, close: int)
    requires DictReading(inp, p, acc, es, close)
    ensures DictAtEnd(inp, p, acc, es, close) ==> es == acc && close == p && p <= inp.max && inp.bytes[p] == CHAR_E
    ensures !DictAtEnd(inp, p, acc, es, close) ==> p <= inp.max && inp.bytes[p] != CHAR_E
  {
    p <= inp.max && inp.bytes[p] == CHAR_E
  }

  lemma CanonicalAppend(acc: seq<(seq<byte>, Value)>, key: seq<byte>, x: Value)
    requires ValuesCanonical(acc) && Canonical(x)
    ensures ValuesCanonical(acc + [(key, x)])
  {
  }

  /** Entry `|acc|` read at `p`, with its value at `mid`, in front of what the loop read from `q` on. */
  lemma DictBack(inp: Input, p: int, acc: seq<(seq<byte>, Value)>, key: seq<byte>, x: Value, mid: int, q: int,
                 es: seq<(seq<byte>, Value)>, close: int)
    requires 0 <= p && mid == p + |EncodeString(key)| && Encodes(inp, p, EncodeString(key))
    requires Wire(inp, mid, x, q) && DictRest(inp, q, acc + [(key, x)], es, close)
    ensures DictRest(inp, p, acc, es, close)
  {
    var next := acc + [(key, x)];
    var i := |acc|;
    assert es[i] == next[i];
    forall k | 0 <= k < i ensures es[k] == acc[k] {
      assert es[k] == next[k];
    }
    DictJoin(inp, p, es, i, mid, q, close);
  }

  /** Entry `i` at `p`, its value at `mid`, followed at `q` by the rest. */
  lemma DictJoin(inp: Input, p: int, es: seq<(seq<byte>, Value)>, i: nat, mid: int, q: int, close: int)
    requires 0 <= p && i < |es|
    requires mid == p + |EncodeString(es[i].0)| && Encodes(inp, p, EncodeString(es[i].0))
    requires Wire(inp, mid, es[i].1, q) && DictLaid(inp, q, es, i + 1, close)
    ensures DictLaid(inp, p, es, i, close)
  {
    EncodesJoin3(inp, p, EncodeString(es[i].0), Serialize(es[i].1), SerializeEntries(es, i + 1), mid, q);
  }

  /**
    One turn of that loop: the key at `p`, its value at `mid`, the loop
    going on at `q` with the entry appended.
  */
  lemma DictNext(inp: Input, p: int, acc: seq<(seq<byte>, Value)>, es: seq<(seq<byte>, Value)>, close: int)
    returns (key: seq<byte>, x: Value, mid: int, q: int)
    requires DictReading(inp, p, acc, es, close) && p <= inp.max && inp.bytes[p] != CHAR_E
    ensures mid == p + |EncodeString(key)| && Encodes(inp, p, EncodeString(key))
    ensures Parsed(inp, mid, x, q) && p < mid < q
    ensures DictReading(inp, q, acc + [(key, x)], es, close)
  {
    var lastKey := KeyBefore(acc, |acc|);
    key, x, q := DictEntriesOpen(inp, p, lastKey, acc, es, close);
    mid := DictEntryOpen(inp, p, lastKey, key, x, q);
    StringRead(inp, p, key, mid);
    AppendInOrder(acc, key, x, p);
    var next := acc + [(key, x)];
    assert KeyBefore(next, |next|) == Some(key);
  }

  /** decodeDictionary's loop at a byte other than `e`: one entry, then the loop again. */
  lemma DictEntriesOpen(inp: Input, p: int, lastKey: Option<seq<byte>>, acc: seq<(seq<byte>, Value)>,
                        es: seq<(seq<byte>, Value)>, close: int) returns (key: seq<byte>, x: Value, q: int)
    requires inp.Valid() && 0 <= p <= inp.max && inp.bytes[p] != CHAR_E
    requires DictEntries(inp, p, lastKey, acc, false) == Success((es, false, close + 1))
    ensures DictEntry(inp, p, lastKey) == Success((key, x, q)) && q <= inp.max
    ensures DictEntries(inp, q, Some(key), Put(acc, key, x), lastKey.Some? && Less(key, lastKey.value)) == Success((es, false, close + 1))
  {
    var e := DictEntry(inp, p, lastKey).value;
    key, x, q := e.0, e.1, e.2;
  }

  /** One entry: the key string up to `mid`, inside the safe region, checked against the last key, then the value. */
  lemma DictEntryOpen(inp: Input, p: int, lastKey: Option<seq<byte>>, key: seq<byte>, x: Value, q: int) returns (mid: int)
    requires inp.Valid() && 0 <= p <= inp.max && q <= inp.max
    requires DictEntry(inp, p, lastKey) == Success((key, x, q))
    ensures ParseString(inp, p) == Success((key, mid)) && p < mid <= inp.max
    ensures KeyCheck(inp.lenient, p, key, lastKey).None?
    ensures ParseAnything(inp, mid) == Success((x, q)) && mid < q
  {
    mid := ParseString(inp, p).value.1;
  }

  /**
    A key that passes the strict check against the last key of a
    dictionary with strictly increasing keys is new and greater than all
    of them: assigning it appends, and the order stays strict.
  */
  lemma AppendInOrder(acc: seq<(seq<byte>, Value)>, key: seq<byte>, x: Value, at: int)
    requires StrictlySorted(acc) && KeyCheck(false, at, key, KeyBefore(acc, |acc|)).None?
    ensures Put(acc, key, x) == acc + [(key, x)]
    ensures StrictlySorted(acc + [(key, x)])
  {
    var next := acc + [(key, x)];
    if acc != [] {
      var last := acc[|acc| - 1].0;
      LessTotal(key, last);
      forall j | 0 <= j < |acc| ensures Less(acc[j].0, key) {
        if j < |acc| - 1 {
          LessTransitive(acc[j].0, last, key);
        }
      }
    }
    forall j | 0 <= j < |acc| ensures acc[j].0 != key {
      LessIrreflexive(key);
    }
    StrictlySortedDistinct(acc);
    PutContents(acc, key, x);
    forall j, k | 0 <= j < k < |next| ensures Less(next[j].0, next[k].0) {
      if k == |acc| {
        assert next[j] == acc[j];
      }
    }
  }

  /**
    Decoder::decode accepts nothing but wire forms: what it returns is
    canonical, and its wire form is the input.
  */
  lemma StrictDecodeIsSerialize(s: seq<byte>, v: Value)
    requires Decode(s, false) == Success(v)
    ensures Canonical(v) && Serialize(v) == s
  {
    SafeBoundaryIsSafe(s);
    var inp := Input(s, SafeBoundary(s), false);
    var r := ParseAnything(inp, 0).value;
    assert r.0 == v && r.1 == |s|;
    ParsedWire(inp, 0, v, |s|);
    EncodesSlice(inp, 0, Serialize(v));
    assert s[0..|s|] == s;
  }

  /**
    Encode then decode: what Encoder::encode writes for a supported value
    whose keys render apart, both decoders read back as ToValue of that
    value, dictionaries in sorted order, with no compliance error.
  */
  lemma EncodeThenDecode(h: Host, lenient: bool)
    requires Supported(h) && DistinctRendered(h)
    ensures Encode(h).Success?
    ensures Decode(Encode(h).value, lenient) == Success(ToValue(h))
  {
    EncodeToValue(h);
    DecodeSerialized(ToValue(h), lenient);
  }

  /**
    Decode then encode: Encoder::encode applied to what Decoder::decode
    returns reproduces the input byte for byte.
  */
  lemma StrictDecodeThenEncode(s: seq<byte>, v: Value)
    requires Decode(s, false) == Success(v)
    ensures Encode(FromValue(v)) == Success(s)
  {
    StrictDecodeIsSerialize(s, v);
    EncodeFromValue(v);
  }

  /**
    Decoder::decode with the boundary as src/Decoder.php writes it accepts
    only wire forms too, and returns the value the corrected decoder
    returns for them.
  */
  lemma AsWrittenStrictAgrees(s: seq<byte>, v: Value)
    requires DecodeAsWritten(s, false) == Success(v)
    ensures Canonical(v) && Serialize(v) == s
    ensures Decode(s, false) == Success(v)
  {
    AsWrittenAgrees(s, false);
    StrictDecodeIsSerialize(s, v);
  }

  /**
    The strict decoder accepts exactly the wire forms of canonical values,
    and gives back the value each one encodes.
  */
  lemma StrictDecodeExactly(s: seq<byte>)
    ensures Decode(s, false).Success? <==> exists v :: Canonical(v) && Serialize(v) == s
    ensures forall v :: Canonical(v) && Serialize(v) == s ==> Decode(s, false) == Success(v)
  {
    if Decode(s, false).Success? {
      StrictDecodeIsSerialize(s, Decode(s, false).value);
    }
    forall v | Canonical(v) && Serialize(v) == s ensures Decode(s, false) == Success(v) {
      DecodeSerialized(v, false);
    }
  }
}
