/**
  The decoder and the encoder are inverse on canonical data: decoding the
  wire form of a canonical value gives the value back under either policy,
  and the strict decoder accepts nothing but wire forms, so that encoding
  what it returns reproduces its input byte for byte.
*/
module RoundTrip {
  import opened Wrappers
  import opened Decimal
  import opened ByteOrder
  import opened Values
  import opened DecoderSpec
  import opened Encoders
  import opened Serialization

  /** The input holds `w` at `pos`. */
  predicate Encodes(inp: Input, pos: int, w: seq<byte>) {
    0 <= pos && pos + |w| <= |inp.bytes| && Matches(inp.bytes, pos, w, |w|)
  }

  /** The first `n` bytes of `w` sit at `pos` in `s`. */
  predicate Matches(s: seq<byte>, pos: int, w: seq<byte>, n: nat)
    requires 0 <= pos && n <= |w| && pos + |w| <= |s|
    decreases n
  {
    n == 0 || (s[pos + n - 1] == w[n - 1] && Matches(s, pos, w, n - 1))
  }

  lemma {:induction false} MatchesAll(s: seq<byte>, pos: int, w: seq<byte>, n: nat)
    requires 0 <= pos && n <= |w| && pos + |w| <= |s|
    ensures Matches(s, pos, w, n) <==> forall k :: 0 <= k < n ==> s[pos + k] == w[k]
    decreases n
  {
    if n > 0 {
      MatchesAll(s, pos, w, n - 1);
    }
  }

  /** Encodes, byte by byte. */
  lemma EncodesAt(inp: Input, pos: int, w: seq<byte>)
    requires Encodes(inp, pos, w)
    ensures forall k :: 0 <= k < |w| ==> inp.bytes[pos + k] == w[k]
  {
    MatchesAll(inp.bytes, pos, w, |w|);
  }

  lemma EncodesOf(inp: Input, pos: int, w: seq<byte>)
    requires 0 <= pos && pos + |w| <= |inp.bytes|
    requires forall k :: 0 <= k < |w| ==> inp.bytes[pos + k] == w[k]
    ensures Encodes(inp, pos, w)
  {
    MatchesAll(inp.bytes, pos, w, |w|);
  }

  lemma EncodesFirst(inp: Input, pos: int, w: seq<byte>)
    requires Encodes(inp, pos, w) && |w| > 0
    ensures inp.bytes[pos] == w[0]
  {
    EncodesAt(inp, pos, w);
  }

  lemma EncodesSplit(inp: Input, pos: int, a: seq<byte>, b: seq<byte>)
    requires Encodes(inp, pos, a + b)
    ensures Encodes(inp, pos, a) && Encodes(inp, pos + |a|, b)
  {
    EncodesAt(inp, pos, a + b);
    forall k | 0 <= k < |a| ensures inp.bytes[pos + k] == a[k] {
      assert (a + b)[k] == a[k];
    }
    forall k | 0 <= k < |b| ensures inp.bytes[pos + |a| + k] == b[k] {
      assert (a + b)[|a| + k] == b[k];
    }
    EncodesOf(inp, pos, a);
    EncodesOf(inp, pos + |a|, b);
  }

  /** Two pieces written one after the other, the second at `mid`. */
  lemma EncodesSplitAt(inp: Input, pos: int, a: seq<byte>, b: seq<byte>, mid: int)
    requires mid == pos + |a| && Encodes(inp, pos, a + b)
    ensures Encodes(inp, pos, a) && Encodes(inp, mid, b)
  {
    EncodesSplit(inp, pos, a, b);
  }

  /** Three pieces written one after the other, the second at `mid`, the third at `q`. */
  lemma EncodesSplit3(inp: Input, pos: int, a: seq<byte>, b: seq<byte>, c: seq<byte>, mid: int, q: int)
    requires mid == pos + |a| && q == mid + |b| && Encodes(inp, pos, a + b + c)
    ensures Encodes(inp, pos, a) && Encodes(inp, mid, b) && Encodes(inp, q, c)
  {
    EncodesSplit(inp, pos, a + b, c);
    EncodesSplit(inp, pos, a, b);
  }

  /** strspn stops exactly at the non-digit that follows a run of digits. */
  lemma {:induction false} DigitRunOver(inp: Input, pos: int, run: seq<byte>)
    requires 0 <= pos && pos + |run| < |inp.bytes| && forall k :: 0 <= k < |run| ==> inp.bytes[pos + k] == run[k]
    requires AllDigits(run) && !IsDigit(inp.bytes[pos + |run|])
    ensures DigitRun(inp.bytes, pos) == |run|
    decreases |run|
  {
    if run != [] {
      assert inp.bytes[pos] == run[0];
      forall k | 0 <= k < |run| - 1 ensures inp.bytes[pos + 1 + k] == run[1..][k] {
        assert run[1..][k] == run[k + 1];
      }
      DigitRunOver(inp, pos + 1, run[1..]);
    }
  }

  /** The digits read are exactly the ones written. */
  lemma EncodesSlice(inp: Input, pos: int, w: seq<byte>)
    requires Encodes(inp, pos, w)
    ensures inp.bytes[pos..pos + |w|] == w
  {
    EncodesAt(inp, pos, w);
  }

  /** decodeDigits over a canonical digit run followed by the terminator reads the run's value. */
  lemma ReadRun(inp: Input, pos: int, run: seq<byte>, terminator: byte, end: int)
    requires 0 <= pos <= LastNonDigit(inp.bytes) && !IsDigit(terminator) && CanonicalDigits(run)
    requires end == pos + |run| + 1 && end <= |inp.bytes|
    requires Encodes(inp, pos, run) && inp.bytes[end - 1] == terminator
    ensures ReadDigits(inp, pos, terminator) == Success((ParseDigits(run), end))
  {
    EncodesAt(inp, pos, run);
    DigitRunOver(inp, pos, run);
    EncodesSlice(inp, pos, run);
  }

  /** The decimal rendering of `n` followed by `terminator` is read back as `n`. */
  lemma ReadDigitsOf(inp: Input, pos: int, n: nat, terminator: byte, end: int)
    requires 0 <= pos <= LastNonDigit(inp.bytes) && !IsDigit(terminator)
    requires end == pos + |Digits(n)| + 1 && end <= |inp.bytes|
    requires Encodes(inp, pos, Digits(n)) && inp.bytes[end - 1] == terminator
    ensures ReadDigits(inp, pos, terminator) == Success((n, end))
  {
    DigitsCanonical(n);
    ParseDigitsOfDigits(n);
    ReadRun(inp, pos, Digits(n), terminator, end);
  }

  /** decodeString reads back what encodeString writes. */
  lemma ParseStringOf(inp: Input, pos: int, b: seq<byte>, end: int)
    requires 0 <= pos <= LastNonDigit(inp.bytes)
    requires end == pos + |EncodeString(b)| && Encodes(inp, pos, EncodeString(b))
    ensures ParseString(inp, pos) == Success((b, end))
  {
    var colon := StringLayout(inp, pos, b, end);
    ReadDigitsOf(inp, pos, |b|, COLON, colon + 1);
    ParseStringFrom(inp, pos, colon + 1, b, end);
  }

  /** The length in decimal, at `colon` the `:`, then the bytes up to `end`. */
  lemma StringLayout(inp: Input, pos: int, b: seq<byte>, end: int) returns (colon: int)
    requires end == pos + |EncodeString(b)| && Encodes(inp, pos, EncodeString(b))
    ensures colon == pos + |Digits(|b|)| && Encodes(inp, pos, Digits(|b|)) && inp.bytes[colon] == COLON
    ensures end == colon + 1 + |b| && end <= |inp.bytes| && inp.bytes[colon + 1..end] == b
  {
    var d := Digits(|b|);
    colon := pos + |d|;
    EncodesSplit3(inp, pos, d, [COLON], b, colon, colon + 1);
    EncodesFirst(inp, colon, [COLON]);
    EncodesSlice(inp, colon + 1, b);
  }

  /** decodeString once the length has been read and the bytes after the `:` are known. */
  lemma ParseStringFrom(inp: Input, pos: int, start: int, b: seq<byte>, end: int)
    requires 0 <= pos <= LastNonDigit(inp.bytes)
    requires ReadDigits(inp, pos, COLON) == Success((|b|, start))
    requires end == start + |b| && end <= |inp.bytes| && inp.bytes[start..end] == b
    ensures ParseString(inp, pos) == Success((b, end))
  {
  }

  /** decodeInteger reads back what encodeInteger writes. */
  lemma ParseIntegerOf(inp: Input, pos: int, n: int, end: int)
    requires IntegerFits(inp.bytes, pos)
    requires end == pos + |EncodeInteger(n)| && Encodes(inp, pos, EncodeInteger(n))
    ensures ParseInteger(inp, pos) == Success((VInt(n), end))
  {
    if n < 0 {
      ParseNegativeOf(inp, pos, -n, end);
    } else {
      ParseNonNegativeOf(inp, pos, n, end);
    }
  }

  lemma ParseNonNegativeOf(inp: Input, pos: int, m: nat, end: int)
    requires IntegerFits(inp.bytes, pos)
    requires end == pos + |EncodeInteger(m)| && Encodes(inp, pos, EncodeInteger(m))
    ensures ParseInteger(inp, pos) == Success((VInt(m), end))
  {
    NonNegativeLayout(inp, pos, m, end);
    ReadDigitsOf(inp, pos + 1, m, CHAR_E, end);
    ParseIntegerFrom(inp, pos, false, pos + 1, m, end);
  }

  /** `i`, the digits of `m`, which start with no `-`, and at `end - 1` the `e`. */
  lemma NonNegativeLayout(inp: Input, pos: int, m: nat, end: int)
    requires end == pos + |EncodeInteger(m)| && Encodes(inp, pos, EncodeInteger(m))
    ensures end == pos + 1 + |Digits(m)| + 1 && Encodes(inp, pos + 1, Digits(m))
    ensures inp.bytes[pos + 1] != MINUS && inp.bytes[end - 1] == CHAR_E
  {
    var d := Digits(m);
    EncodesSplit3(inp, pos, [CHAR_I], d, [CHAR_E], pos + 1, end - 1);
    DigitsCanonical(m);
    EncodesFirst(inp, pos + 1, d);
    EncodesFirst(inp, end - 1, [CHAR_E]);
  }

  lemma ParseNegativeOf(inp: Input, pos: int, m: nat, end: int)
    requires m > 0 && IntegerFits(inp.bytes, pos)
    requires end == pos + |EncodeInteger(-(m as int))| && Encodes(inp, pos, EncodeInteger(-(m as int)))
    ensures ParseInteger(inp, pos) == Success((VInt(-(m as int)), end))
  {
    NegativeLayout(inp, pos, m, end);
    ReadDigitsOf(inp, pos + 2, m, CHAR_E, end);
    ParseIntegerFrom(inp, pos, true, pos + 2, m, end);
  }

  /** `i`, `-`, the digits of `m`, which start with no `0`, and at `end - 1` the `e`. */
  lemma NegativeLayout(inp: Input, pos: int, m: nat, end: int)
    requires m > 0
    requires end == pos + |EncodeInteger(-(m as int))| && Encodes(inp, pos, EncodeInteger(-(m as int)))
    ensures end == pos + 2 + |Digits(m)| + 1 && Encodes(inp, pos + 2, Digits(m))
    ensures inp.bytes[pos + 1] == MINUS && inp.bytes[pos + 2] != ZERO && inp.bytes[end - 1] == CHAR_E
  {
    var d := Digits(m);
    EncodesSplit3(inp, pos, [CHAR_I], [MINUS] + d, [CHAR_E], pos + 1, end - 1);
    EncodesSplitAt(inp, pos + 1, [MINUS], d, pos + 2);
    DigitsCanonical(m);
    EncodesFirst(inp, pos + 1, [MINUS]);
    EncodesFirst(inp, pos + 2, d);
    EncodesFirst(inp, end - 1, [CHAR_E]);
  }

  /** decodeInteger once the sign, the digits and the `e` are known to be in place. */
  lemma ParseIntegerFrom(inp: Input, pos: int, negative: bool, start: int, m: nat, end: int)
    requires IntegerFits(inp.bytes, pos)
    requires negative <==> inp.bytes[pos + 1] == MINUS
    requires start == if negative then pos + 2 else pos + 1
    requires negative ==> inp.bytes[start] != ZERO
    requires ReadDigits(inp, start, CHAR_E) == Success((m, end))
    ensures ParseInteger(inp, pos) == Success((VInt(if negative then -(m as int) else m), end))
  {
  }

  /**
    The canonical value `v` sits at `pos`, its wire form ending before
    `end`; a container's closing `e` lies inside the safe region.
  */
  predicate Laid(inp: Input, pos: int, v: Value, end: int) {
    && inp.Valid() && Canonical(v) && 0 <= pos <= inp.max
    && end == pos + |Serialize(v)| && Encodes(inp, pos, Serialize(v))
    && (v.VList? || v.VDict? ==> end <= inp.max + 1)
  }

  /**
    A canonical value written at `pos` is read back whole, under either
    policy, as long as it starts inside the safe region and, for a
    container, its closing `e` does too.
  */
  lemma {:induction false} ParseSerialized(inp: Input, pos: int, v: Value, end: int)
    requires Laid(inp, pos, v, end)
    ensures ParseAnything(inp, pos) == Success((v, end))
    decreases v, 2
  {
    match v
    case VInt(n) => IntSerialized(inp, pos, v, end);
    case VStr(b) => StrSerialized(inp, pos, v, end);
    case VList(items) => ListStart(inp, pos, v, end);
    case VDict(es) => DictStart(inp, pos, v, end);
  }

  lemma IntSerialized(inp: Input, pos: int, v: Value, end: int)
    requires Laid(inp, pos, v, end) && v.VInt?
    ensures ParseAnything(inp, pos) == Success((v, end))
  {
    EncodesFirst(inp, pos, EncodeInteger(v.n));
    AnythingInteger(inp, pos);
    ParseIntegerOf(inp, pos, v.n, end);
  }

  lemma StrSerialized(inp: Input, pos: int, v: Value, end: int)
    requires Laid(inp, pos, v, end) && v.VStr?
    ensures ParseAnything(inp, pos) == Success((v, end))
  {
    DigitsCanonical(|v.bytes|);
    EncodesFirst(inp, pos, EncodeString(v.bytes));
    ParseStringOf(inp, pos, v.bytes, end);
    AnythingString(inp, pos, v.bytes, end);
  }

  lemma {:induction false} ListStart(inp: Input, pos: int, v: Value, end: int)
    requires Laid(inp, pos, v, end) && v.VList?
    ensures ParseAnything(inp, pos) == Success((v, end))
    decreases v.items, |v.items| + 1
  {
    var close := ListOpen(inp, pos, v, end);
    ListSerialized(inp, pos + 1, v.items, 0, close);
    assert Prefix(v.items, 0) == [];
    assert close + 1 == end;
    AnythingList(inp, pos, v, end);
  }

  /** `l`, then the items, then at `close` the `e`. */
  lemma ListOpen(inp: Input, pos: int, v: Value, end: int) returns (close: int)
    requires Laid(inp, pos, v, end) && v.VList?
    ensures close == end - 1 && ListLaid(inp, pos + 1, v.items, 0, close) && inp.bytes[pos] == CHAR_L
  {
    var body := SerializeItems(v.items, 0);
    close := end - 1;
    EncodesSplit3(inp, pos, [CHAR_L], body, [CHAR_E], pos + 1, close);
    EncodesFirst(inp, pos, [CHAR_L]);
    EncodesFirst(inp, close, [CHAR_E]);
  }

  lemma {:induction false} DictStart(inp: Input, pos: int, v: Value, end: int)
    requires Laid(inp, pos, v, end) && v.VDict?
    ensures ParseAnything(inp, pos) == Success((v, end))
    decreases v.entries, |v.entries| + 1
  {
    var close := DictOpen(inp, pos, v, end);
    DictSerialized(inp, pos + 1, v.entries, 0, close);
    assert Prefix(v.entries, 0) == [] && KeyBefore(v.entries, 0) == None;
    assert close + 1 == end;
    AnythingDict(inp, pos, v.entries, end);
  }

  /** `d`, then the entries, then at `close` the `e`. */
  lemma DictOpen(inp: Input, pos: int, v: Value, end: int) returns (close: int)
    requires Laid(inp, pos, v, end) && v.VDict?
    ensures close == end - 1 && DictLaid(inp, pos + 1, v.entries, 0, close) && inp.bytes[pos] == CHAR_D
  {
    var body := SerializeEntries(v.entries, 0);
    close := end - 1;
    EncodesSplit3(inp, pos, [CHAR_D], body, [CHAR_E], pos + 1, close);
    EncodesFirst(inp, pos, [CHAR_D]);
    EncodesFirst(inp, close, [CHAR_E]);
  }

  lemma AnythingInteger(inp: Input, pos: int)
    requires inp.Valid() && 0 <= pos <= inp.max && inp.bytes[pos] == CHAR_I
    ensures IntegerFits(inp.bytes, pos) && ParseAnything(inp, pos) == ParseInteger(inp, pos)
  {
    IntegerStartStops(inp, pos);
  }

  lemma AnythingString(inp: Input, pos: int, b: seq<byte>, q: int)
    requires inp.Valid() && 0 <= pos <= inp.max && IsDigit(inp.bytes[pos])
    requires ParseString(inp, pos) == Success((b, q))
    ensures ParseAnything(inp, pos) == Success((VStr(b), q))
  {
  }

  lemma AnythingList(inp: Input, pos: int, v: Value, q: int)
    requires inp.Valid() && 0 <= pos <= inp.max && inp.bytes[pos] == CHAR_L
    requires ListItems(inp, pos + 1, []) == Success((v, q))
    ensures ParseAnything(inp, pos) == Success((v, q))
  {
  }

  lemma AnythingDict(inp: Input, pos: int, es: seq<(seq<byte>, Value)>, q: int)
    requires inp.Valid() && 0 <= pos <= inp.max && inp.bytes[pos] == CHAR_D
    requires DictEntries(inp, pos + 1, None, [], false) == Success((es, false, q))
    ensures ParseAnything(inp, pos) == Success((VDict(es), q))
  {
  }

  /** One turn of decodeList's loop over an item that decodes. */
  lemma ListItemsStep(inp: Input, p: int, acc: seq<Value>, v: Value, q: int)
    requires inp.Valid() && 0 <= p <= inp.max && inp.bytes[p] != CHAR_E
    requires ParseAnything(inp, p) == Success((v, q))
    ensures ListItems(inp, p, acc) == ListItems(inp, q, acc + [v])
  {
  }

  /**
    The wire form of `items[i..]` is that of `items[i]`, which starts with
    no `e`, followed at `q` by the rest.
  */
  lemma ItemsLayout(inp: Input, p: int, items: seq<Value>, i: nat) returns (q: int)
    requires i < |items| && Encodes(inp, p, SerializeItems(items, i))
    ensures q == p + |Serialize(items[i])| && q + |SerializeItems(items, i + 1)| == p + |SerializeItems(items, i)|
    ensures Encodes(inp, p, Serialize(items[i])) && Encodes(inp, q, SerializeItems(items, i + 1))
    ensures inp.bytes[p] != CHAR_E
  {
    var w := Serialize(items[i]);
    q := p + |w|;
    EncodesSplitAt(inp, p, w, SerializeItems(items, i + 1), q);
    SerializeEnds(items[i]);
    EncodesFirst(inp, p, w);
  }

  /** The items `items[i..]` sit at `p`, followed at `end` by `e`. */
  predicate ListLaid(inp: Input, p: int, items: seq<Value>, i: nat, end: int) {
    && inp.Valid() && 0 <= p && i <= |items|
    && (forall k :: 0 <= k < |items| ==> Canonical(items[k]))
    && end == p + |SerializeItems(items, i)| && Encodes(inp, p, SerializeItems(items, i))
    && end <= inp.max && inp.bytes[end] == CHAR_E
  }

  /**
    The loop of decodeList over the wire forms of `items[i..]`, followed at
    `end` by `e`, appends exactly those items.
  */
  lemma {:induction false} ListSerialized(inp: Input, p: int, items: seq<Value>, i: nat, end: int)
    requires ListLaid(inp, p, items, i, end)
    ensures ListItems(inp, p, Prefix(items, i)) == Success((VList(items), end + 1))
    decreases items, |items| - i, 1
  {
    if i == |items| {
      PrefixAll(items);
      assert p == end;
    } else {
      var q := ListStep(inp, p, items, i, end);
      ListSerialized(inp, q, items, i + 1, end);
    }
  }

  /** One turn of that loop: item `i` is read back and the cursor moves past its wire form. */
  lemma ListStep(inp: Input, p: int, items: seq<Value>, i: nat, end: int) returns (q: int)
    requires ListLaid(inp, p, items, i, end) && i < |items|
    ensures p < q
    ensures ListLaid(inp, q, items, i + 1, end)
    ensures ListItems(inp, p, Prefix(items, i)) == ListItems(inp, q, Prefix(items, i + 1))
    decreases items, |items| - i, 0
  {
    q := ItemsLayout(inp, p, items, i);
    ParseSerialized(inp, p, items[i], q);
    ListItemsStep(inp, p, Prefix(items, i), items[i], q);
    assert Prefix(items, i) + [items[i]] == Prefix(items, i + 1);
  }

  /**
    One entry of decodeDictionary's loop: a key string at `p`, a canonical
    value at `mid`, the key passing the order check.
  */
  lemma DictEntryOf(inp: Input, p: int, key: seq<byte>, mid: int, v: Value, q: int, lastKey: Option<seq<byte>>)
    requires inp.Valid() && 0 <= p && Canonical(v)
    requires mid == p + |EncodeString(key)| && Encodes(inp, p, EncodeString(key))
    requires q == mid + |Serialize(v)| && Encodes(inp, mid, Serialize(v)) && q <= inp.max
    requires KeyCheck(inp.lenient, p, key, lastKey).None?
    ensures DictEntry(inp, p, lastKey) == Success((key, v, q))
    decreases v, 3
  {
    ParseStringOf(inp, p, key, mid);
    ParseSerialized(inp, mid, v, q);
    DictEntryFrom(inp, p, key, v, lastKey, mid, q);
  }

  /** decodeDictionary's loop body once the key and the value are known to decode. */
  lemma DictEntryFrom(inp: Input, p: int, key: seq<byte>, v: Value, lastKey: Option<seq<byte>>, mid: int, q: int)
    requires inp.Valid() && 0 <= p <= inp.max && mid <= inp.max
    requires ParseString(inp, p) == Success((key, mid))
    requires KeyCheck(inp.lenient, p, key, lastKey).None?
    requires ParseAnything(inp, mid) == Success((v, q))
    ensures DictEntry(inp, p, lastKey) == Success((key, v, q))
  {
  }

  /** One turn of decodeDictionary's loop over an entry that decodes and is in order. */
  lemma DictEntriesStep(inp: Input, p: int, lastKey: Option<seq<byte>>, acc: seq<(seq<byte>, Value)>, key: seq<byte>, v: Value, q: int)
    requires inp.Valid() && 0 <= p <= inp.max && inp.bytes[p] != CHAR_E
    requires DictEntry(inp, p, lastKey) == Success((key, v, q))
    requires lastKey.Some? ==> !Less(key, lastKey.value)
    ensures DictEntries(inp, p, lastKey, acc, false) == DictEntries(inp, q, Some(key), Put(acc, key, v), false)
  {
  }

  /** The key before entry `i`, none for the first. */
  function KeyBefore(es: seq<(seq<byte>, Value)>, i: nat): (r: Option<seq<byte>>)
    requires i <= |es|
    ensures r.Some? <==> i > 0
    ensures r.Some? ==> r.value == es[i - 1].0
  {
    if i == 0 then None else Some(es[i - 1].0)
  }

  /** In a dictionary with strictly increasing keys, each key passes the strict check against its predecessor. */
  lemma KeyInOrder(es: seq<(seq<byte>, Value)>, i: nat, lenient: bool, at: int)
    requires StrictlySorted(es) && i < |es|
    ensures KeyCheck(lenient, at, es[i].0, KeyBefore(es, i)).None?
    ensures KeyBefore(es, i).Some? ==> !Less(es[i].0, KeyBefore(es, i).value)
  {
    if i > 0 {
      LessAsymmetric(es[i - 1].0, es[i].0);
      LessIrreflexive(es[i].0);
    }
  }

  /**
    The wire form of `es[i..]` is entry `i`'s key, which starts with no `e`,
    its value at `mid`, and the rest at `q`.
  */
  lemma EntriesLayout(inp: Input, p: int, es: seq<(seq<byte>, Value)>, i: nat) returns (mid: int, q: int)
    requires i < |es| && Encodes(inp, p, SerializeEntries(es, i))
    ensures mid == p + |EncodeString(es[i].0)| && Encodes(inp, p, EncodeString(es[i].0))
    ensures q == mid + |Serialize(es[i].1)| && Encodes(inp, mid, Serialize(es[i].1))
    ensures q + |SerializeEntries(es, i + 1)| == p + |SerializeEntries(es, i)| && Encodes(inp, q, SerializeEntries(es, i + 1))
    ensures inp.bytes[p] != CHAR_E
  {
    var ks := EncodeString(es[i].0);
    var vs := Serialize(es[i].1);
    mid := p + |ks|;
    q := mid + |vs|;
    EncodesSplit3(inp, p, ks, vs, SerializeEntries(es, i + 1), mid, q);
    DigitsCanonical(|es[i].0|);
    EncodesFirst(inp, p, ks);
  }

  /** The entries `es[i..]` sit at `p`, followed at `end` by `e`. */
  predicate DictLaid(inp: Input, p: int, es: seq<(seq<byte>, Value)>, i: nat, end: int) {
    && inp.Valid() && 0 <= p && i <= |es|
    && StrictlySorted(es) && (forall k :: 0 <= k < |es| ==> Canonical(es[k].1))
    && end == p + |SerializeEntries(es, i)| && Encodes(inp, p, SerializeEntries(es, i))
    && end <= inp.max && inp.bytes[end] == CHAR_E
  }

  /**
    The loop of decodeDictionary over the entries `es[i..]`, keys strictly
    increasing and followed at `end` by `e`, appends exactly those entries
    and never raises the sort flag.
  */
  lemma {:induction false} DictSerialized(inp: Input, p: int, es: seq<(seq<byte>, Value)>, i: nat, end: int)
    requires DictLaid(inp, p, es, i, end)
    ensures DictEntries(inp, p, KeyBefore(es, i), Prefix(es, i), false) == Success((es, false, end + 1))
    decreases es, |es| - i, 1
  {
    if i == |es| {
      DictEnd(inp, p, es, end);
    } else {
      var q := DictStep(inp, p, es, i, end);
      DictSerialized(inp, q, es, i + 1, end);
    }
  }

  /** The loop of decodeDictionary stops at the closing `e`. */
  lemma DictEnd(inp: Input, p: int, es: seq<(seq<byte>, Value)>, end: int)
    requires inp.Valid() && 0 <= p == end <= inp.max && inp.bytes[end] == CHAR_E
    ensures DictEntries(inp, p, KeyBefore(es, |es|), Prefix(es, |es|), false) == Success((es, false, end + 1))
  {
    PrefixAll(es);
  }

  /** One turn of that loop: entry `i` is read back, appended, and the cursor moves past it. */
  lemma DictStep(inp: Input, p: int, es: seq<(seq<byte>, Value)>, i: nat, end: int) returns (q: int)
    requires DictLaid(inp, p, es, i, end) && i < |es|
    ensures p < q
    ensures DictLaid(inp, q, es, i + 1, end)
    ensures DictEntries(inp, p, KeyBefore(es, i), Prefix(es, i), false) == DictEntries(inp, q, KeyBefore(es, i + 1), Prefix(es, i + 1), false)
    decreases es, |es| - i, 0
  {
    var key := es[i].0;
    var mid;
    mid, q := EntriesLayout(inp, p, es, i);
    KeyInOrder(es, i, inp.lenient, p);
    assert es[i].1 < es[i];
    DictEntryOf(inp, p, key, mid, es[i].1, q, KeyBefore(es, i));
    DictEntriesStep(inp, p, KeyBefore(es, i), Prefix(es, i), key, es[i].1, q);
    AppendKey(es, i);
    assert KeyBefore(es, i + 1) == Some(key);
  }

  /** The first `i` elements of `s`, built the way the decoding loops build their accumulators. */
  function Prefix<T>(s: seq<T>, i: nat): (r: seq<T>)
    requires i <= |s|
    ensures |r| == i
  {
    if i == 0 then [] else Prefix(s, i - 1) + [s[i - 1]]
  }

  lemma {:induction false} PrefixSlice<T>(s: seq<T>, i: nat)
    requires i <= |s|
    ensures Prefix(s, i) == s[..i]
  {
    if i > 0 {
      PrefixSlice(s, i - 1);
      assert s[..i - 1] + [s[i - 1]] == s[..i];
    }
  }

  lemma PrefixAll<T>(s: seq<T>)
    ensures Prefix(s, |s|) == s
  {
    PrefixSlice(s, |s|);
  }

  /** In a dictionary with strictly increasing keys, assigning entry `i` after the ones before it appends it. */
  lemma AppendKey(es: seq<(seq<byte>, Value)>, i: int)
    requires StrictlySorted(es) && 0 <= i < |es|
    ensures Put(Prefix(es, i), es[i].0, es[i].1) == Prefix(es, i + 1)
  {
    PrefixSlice(es, i);
    var key := es[i].0;
    StrictlySortedDistinct(es[..i]);
    PutContents(es[..i], key, es[i].1);
    forall k | 0 <= k < i ensures es[k].0 != key {
      LessIrreflexive(key);
    }
    assert !HasKey(es[..i], key);
    assert es[..i] + [es[i]] == es[..i + 1];
  }

  /**
    The boundary of a wire form leaves room for the whole value: it is at
    least 1, and for all but strings it is the closing `e`.
  */
  lemma SerializedBoundary(v: Value)
    ensures SafeBoundary(Serialize(v)) >= 1
    ensures !v.VStr? ==> SafeBoundary(Serialize(v)) == |Serialize(v)| - 1
  {
    var s := Serialize(v);
    var c := LastNonDigit(s);
    SerializeEnds(v);
    if v.VStr? {
      var d := Digits(|v.bytes|);
      DigitsCanonical(|v.bytes|);
      assert s == d + [COLON] + v.bytes;
      assert s[|d|] == COLON;
      assert |d| <= c;
    } else {
      assert c == |s| - 1;
    }
  }

  /**
    Decoding the wire form of a canonical value gives the value back, under
    either policy: the boundary is always far enough out, and the value
    ends exactly at the end of the input.
  */
  lemma DecodeSerialized(v: Value, lenient: bool)
    requires Canonical(v)
    ensures Decode(Serialize(v), lenient) == Success(v)
  {
    var s := Serialize(v);
    var inp := WholeInput(v, lenient);
    ParseSerialized(inp, 0, v, |s|);
    DecodeWhole(inp, v);
  }

  /** The wire form of `v` as the whole input, with its safe boundary: `v` is laid out from 0 to the end. */
  lemma WholeInput(v: Value, lenient: bool) returns (inp: Input)
    requires Canonical(v)
    ensures inp == Input(Serialize(v), SafeBoundary(Serialize(v)), lenient)
    ensures inp.max >= 1 && Laid(inp, 0, v, |inp.bytes|)
  {
    var s := Serialize(v);
    SerializedBoundary(v);
    SafeBoundaryIsSafe(s);
    inp := Input(s, SafeBoundary(s), lenient);
    EncodesOf(inp, 0, s);
  }

  /** Decoder::decode over a whole input that one value fills exactly. */
  lemma DecodeWhole(inp: Input, v: Value)
    requires inp.bytes != [] && inp.max == SafeBoundary(inp.bytes) && inp.max >= 1
    requires inp.Valid() && ParseAnything(inp, 0) == Success((v, |inp.bytes|))
    ensures Decode(inp.bytes, inp.lenient) == Success(v)
  {
  }

  /**
    The wire form of the string "-1" ends in `-` and a digit. The boundary
    as written steps back over the `-` as if it were the sign of an
    integer, to 0, and both decoders reject the input as "Premature end of
    data"; with the corrected boundary it decodes to the string.
  */
  lemma BoundaryAsWrittenRejectsString()
    ensures var s := EncodeString([MINUS, ZERO + 1]);
      && s == [ZERO + 2, COLON, MINUS, ZERO + 1]
      && DecodeAsWritten(s, false) == Failure(Premature)
      && DecodeAsWritten(s, true) == Failure(Premature)
      && Decode(s, false) == Success(VStr([MINUS, ZERO + 1]))
      && Decode(s, true) == Success(VStr([MINUS, ZERO + 1]))
  {
    var b := [MINUS, ZERO + 1];
    var s := EncodeString(b);
    assert Digits(2) == [ZERO + 2];
    assert s == [ZERO + 2, COLON, MINUS, ZERO + 1];
    assert LastNonDigitBelow(s, 3) == 2;
    assert LastNonDigit(s) == 2;
    assert SafeBoundaryAsWritten(s) == 0;
    DecodeSerialized(VStr(b), false);
    DecodeSerialized(VStr(b), true);
  }
}
