/**
 * Bencoding (the BitTorrent Protocol Specification, BEP 3, section
 * "bencoding") as the repository's codec reads and writes it: the value
 * model, the encoding and decoding each codec operation performs, and the
 * laws relating them. The imperative operations that compute these are in
 * module Codec.
 */
module Bencode {
  import opened Common
  import opened Decimal
  import Keys

  const INT_TAG: byte := 'i' as byte
  const LIST_TAG: byte := 'l' as byte
  const DICT_TAG: byte := 'd' as byte
  const END: byte := 'e' as byte
  const COLON: byte := ':' as byte

  /** The dynamic values the codec handles (`interface{}` in the source). */
  datatype Value =
    | Int(n: int64)
    | Str(s: GoString)
    | List(items: seq<Value>)
    | Dict(entries: map<GoString, Value>)
      /** Any value of another Go type, nil among them; the encoder rejects it. */
    | Other

  datatype EncodeError = UnknownType

  /**
   * Why decoding failed. Several of these are panics in the source, which the
   * model turns into explicit errors.
   */
  datatype DecodeError =
      /** Empty input: an error from decodeInt/decodeString, an index panic in Decode. */
    | EmptyInput
      /** No closing 'e' before the end of input: an index-out-of-range panic in the source. */
    | Unterminated
      /** A number that `strconv.Atoi` rejects. */
    | BadNumber
      /** A string whose declared length runs past the input: a slice-bounds panic in the source. */
    | StringOverrun
      /** A dictionary key that decodes to something other than a string: a type-assertion panic. */
    | NonStringKey
      /** A first byte that is no type tag: the source returns nil, -1 and no error. */
    | UnknownTag

  /** A decoded value and the number of input bytes it took. */
  type DecodeResult = Result<(Value, nat), DecodeError>

  /** No part of the value is of a type the encoder rejects. */
  predicate Bencodable(v: Value)
    decreases v
  {
    match v
    case Other => false
    case List(items) => forall i :: 0 <= i < |items| ==> Bencodable(items[i])
    case Dict(m) => forall k :: k in m ==> Bencodable(m[k])
    case _ => true
  }

  // ---------------------------------------------------------------- encoding

  /** `encodeInt`: 'i', the decimal text of the integer, 'e'. */
  function EncodeInt(n: int64): Bytes {
    [INT_TAG] + Itoa(n as int) + [END]
  }

  /** `encodeString`: the byte count in decimal, ':', then the bytes unchanged. */
  function EncodeString(s: GoString): Bytes {
    Itoa(|s|) + [COLON] + s
  }

  /**
   * What `Encode` produces: lists item by item in order, dictionaries entry by
   * entry in ascending key order, and an error as soon as a part has a type
   * the codec does not know.
   */
  ghost function Encoding(v: Value): (r: Result<Bytes, EncodeError>)
    ensures r.Ok? ==> |r.value| > 0 && r.value[0] != END
    decreases v, 1
  {
    match v
    case Int(n) => Ok(EncodeInt(n))
    case Str(s) => Ok(EncodeString(s))
    case List(items) =>
      var body := ItemsEncoding(items);
      if body.Err? then body else Ok([LIST_TAG] + body.value + [END])
    case Dict(m) =>
      Keys.AscendingMembers(m.Keys);
      var body := EntriesEncoding(m, Keys.Ascending(m.Keys));
      if body.Err? then body else Ok([DICT_TAG] + body.value + [END])
    case Other => Err(UnknownType)
  }

  /** The concatenated encodings of the items, or the first error. */
  ghost function ItemsEncoding(items: seq<Value>): Result<Bytes, EncodeError>
    decreases items
  {
    if items == [] then Ok([])
    else
      var head := Encoding(items[0]);
      if head.Err? then head
      else
        var tail := ItemsEncoding(items[1..]);
        if tail.Err? then tail else Ok(head.value + tail.value)
  }

  /** For each key in the given order: the key's encoding, then its value's encoding. */
  ghost function EntriesEncoding(m: map<GoString, Value>, keys: seq<GoString>): Result<Bytes, EncodeError>
    requires forall k :: k in keys ==> k in m
    decreases Dict(m), 0, |keys|
  {
    if keys == [] then Ok([])
    else
      var key := keys[0];
      var value := Encoding(m[key]);
      if value.Err? then value
      else
        var tail := EntriesEncoding(m, keys[1..]);
        if tail.Err? then tail else Ok(EncodeString(key) + value.value + tail.value)
  }

  /**
   * What `Encode` returns as written. It is `Encoding` except for
   * dictionaries: when a key or value fails to encode, `encodeDictionary`
   * returns empty text and no error (encoderdecoder.go:54 and :60). An
   * enclosing list or dictionary then writes that empty text as if it were
   * the value's encoding.
   */
  ghost function EncodingAsWritten(v: Value): (r: Result<Bytes, EncodeError>)
    ensures v.Dict? ==> r.Ok?
    decreases v, 1
  {
    match v
    case Int(n) => Ok(EncodeInt(n))
    case Str(s) => Ok(EncodeString(s))
    case List(items) =>
      var body := ItemsEncodingAsWritten(items);
      if body.Err? then body else Ok([LIST_TAG] + body.value + [END])
    case Dict(m) =>
      Keys.AscendingMembers(m.Keys);
      var body := EntriesEncodingAsWritten(m, Keys.Ascending(m.Keys));
      if body.Err? then Ok([]) else Ok([DICT_TAG] + body.value + [END])
    case Other => Err(UnknownType)
  }

  /** The loop of `encodeList` as written: the items' texts in order, or the first error. */
  ghost function ItemsEncodingAsWritten(items: seq<Value>): Result<Bytes, EncodeError>
    decreases items
  {
    if items == [] then Ok([])
    else
      var head := EncodingAsWritten(items[0]);
      if head.Err? then head
      else
        var tail := ItemsEncodingAsWritten(items[1..]);
        if tail.Err? then tail else Ok(head.value + tail.value)
  }

  /** The entry loop of `encodeDictionary` as written, before its error is dropped. */
  ghost function EntriesEncodingAsWritten(m: map<GoString, Value>, keys: seq<GoString>): Result<Bytes, EncodeError>
    requires forall k :: k in keys ==> k in m
    decreases Dict(m), 0, |keys|
  {
    if keys == [] then Ok([])
    else
      var key := keys[0];
      var value := EncodingAsWritten(m[key]);
      if value.Err? then value
      else
        var tail := EntriesEncodingAsWritten(m, keys[1..]);
        if tail.Err? then tail else Ok(EncodeString(key) + value.value + tail.value)
  }

  /** `encodeDictionary` as written: it never reports an error. */
  ghost function DictEncodingAsWritten(m: map<GoString, Value>): (r: Result<Bytes, EncodeError>)
    ensures r.Ok?
  {
    EncodingAsWritten(Dict(m))
  }

  // ---------------------------------------------------------------- decoding

  /**
   * `decodeInt`: the text from position 1 up to the first 'e' after it must
   * be a number; the byte count taken runs through that 'e'.
   */
  function IntDecoding(s: Bytes): (r: DecodeResult)
    ensures r.Ok? ==> 1 < r.value.1 <= |s|
  {
    if |s| == 0 then Err(EmptyInput) else IntScan(s, 1)
  }

  /** The loop of `decodeInt` at `current`: every byte before the first 'e' belongs to the number. */
  function IntScan(s: Bytes, current: nat): (r: DecodeResult)
    requires 1 <= current
    ensures r.Ok? ==> current < r.value.1 <= |s| && r.value.0.Int?
    decreases |s| - current
  {
    if current >= |s| then Err(Unterminated)
    else if s[current] == END then
      match Atoi(s[1..current])
      case None => Err(BadNumber)
      case Some(n) => Ok((Int(n), current + 1))
    else IntScan(s, current + 1)
  }

  /**
   * `decodeString`: the length written before the first ':', then that many
   * bytes. Without a ':' the source keeps position 0 as the colon's, so the
   * length text is empty and rejected.
   */
  function StringDecoding(s: Bytes): (r: DecodeResult)
    ensures r.Ok? ==> 1 <= r.value.1 <= |s|
  {
    if |s| == 0 then Err(EmptyInput) else StringScan(s, 0)
  }

  /** The loop of `decodeString` looking for the first ':' from `current` on. */
  function StringScan(s: Bytes, current: nat): (r: DecodeResult)
    ensures r.Ok? ==> 1 <= r.value.1 <= |s| && r.value.0.Str?
    decreases |s| - current
  {
    if current >= |s| then StringAfter(s, 0)
    else if s[current] == COLON then StringAfter(s, current)
    else StringScan(s, current + 1)
  }

  /** The rest of `decodeString` once the colon position is fixed. */
  function StringAfter(s: Bytes, colon: nat): (r: DecodeResult)
    requires colon <= |s|
    ensures r.Ok? ==> 1 <= r.value.1 <= |s| && r.value.0.Str?
  {
    match Atoi(s[..colon])
    case None => Err(BadNumber)
    case Some(n) =>
      if n < 0 || colon + 1 + n as int > |s| then Err(StringOverrun)
      else Ok((Str(s[colon + 1..colon + 1 + n as int]), colon + 1 + n as int))
  }

  /**
   * `Decode`: dispatch on the first byte. What it returns is well formed, and
   * it always takes at least one byte and never more than there are.
   */
  function Decoding(s: Bytes): (r: DecodeResult)
    ensures r.Ok? ==> 1 <= r.value.1 <= |s|
    decreases |s|, 5
  {
    if |s| == 0 then Err(EmptyInput)
    else if s[0] == LIST_TAG then ListDecoding(s)
    else if s[0] == DICT_TAG then DictDecoding(s)
    else if s[0] == INT_TAG then IntDecoding(s)
    else if IsDigit(s[0]) then StringDecoding(s)
    else Err(UnknownTag)
  }

  /** `decodeList`: items from position 1 up to the closing 'e'. */
  function ListDecoding(s: Bytes): (r: DecodeResult)
    ensures r.Ok? ==> 1 < r.value.1 <= |s| && s[r.value.1 - 1] == END
    ensures r.Ok? ==> r.value.0.List?
    decreases |s|, 4
  {
    ItemsDecoding(s, 1, [])
  }

  /**
   * The loop of `decodeList` from cursor `i`, with `items` decoded so far:
   * each item starts where the previous one ended.
   */
  function ItemsDecoding(s: Bytes, i: nat, items: seq<Value>): (r: DecodeResult)
    requires 1 <= i <= |s| + 1
    ensures r.Ok? ==> i < r.value.1 <= |s| && s[r.value.1 - 1] == END
    ensures r.Ok? ==> r.value.0.List?
    decreases |s| + 1 - i, 3
  {
    if i >= |s| then Err(Unterminated)
    else if s[i] == END then Ok((List(items), i + 1))
    else
      match Decoding(s[i..])
      case Err(e) => Err(e)
      case Ok((item, k)) => ItemsDecoding(s, i + k, items + [item])
  }

  /** `decodeDictionary`: key/value pairs from position 1 up to the closing 'e'. */
  function DictDecoding(s: Bytes): (r: DecodeResult)
    ensures r.Ok? ==> 1 < r.value.1 <= |s| && s[r.value.1 - 1] == END
    ensures r.Ok? ==> r.value.0.Dict?
    decreases |s|, 4
  {
    EntriesDecoding(s, 1, map[])
  }

  /**
   * The loop of `decodeDictionary` from cursor `i`, with the entries decoded
   * so far; a repeated key keeps the later value.
   */
  function EntriesDecoding(s: Bytes, i: nat, entries: map<GoString, Value>): (r: DecodeResult)
    requires 1 <= i <= |s| + 1
    ensures r.Ok? ==> i < r.value.1 <= |s| && s[r.value.1 - 1] == END
    ensures r.Ok? ==> r.value.0.Dict?
    decreases |s| + 1 - i, 3
  {
    if i >= |s| then Err(Unterminated)
    else if s[i] == END then Ok((Dict(entries), i + 1))
    else
      match EntryDecoding(s, i)
      case Err(e) => Err(e)
      case Ok((key, value, next)) => EntriesDecoding(s, next, entries[key := value])
  }

  /**
   * One turn of the `decodeDictionary` loop at cursor `i`: a key, then a value
   * where the key ended, then the key must be a string. The result is the
   * key, the value and the cursor after both.
   */
  function EntryDecoding(s: Bytes, i: nat): (r: Result<(GoString, Value, nat), DecodeError>)
    requires 1 <= i < |s|
    ensures r.Ok? ==> i < r.value.2 <= |s|
    decreases |s| + 1 - i, 2
  {
    match Decoding(s[i..])
    case Err(e) => Err(e)
    case Ok((key, k1)) =>
      match Decoding(s[i + k1..])
      case Err(e) => Err(e)
      case Ok((value, k2)) =>
        if !key.Str? then Err(NonStringKey) else Ok((key.s, value, i + k1 + k2))
  }

  // ---------------------------------------------------------------- laws

  /** The entries of `m` under the given keys. */
  function Selected<V>(m: map<GoString, V>, keys: seq<GoString>): map<GoString, V>
    requires forall k :: k in keys ==> k in m
  {
    map k | k in keys :: m[k]
  }

  lemma SelectedStep<V>(acc: map<GoString, V>, m: map<GoString, V>, keys: seq<GoString>)
    requires |keys| > 0 && forall k :: k in keys ==> k in m
    ensures acc[keys[0] := m[keys[0]]] + Selected(m, keys[1..]) == acc + Selected(m, keys)
  {
    assert forall k :: k in keys <==> k == keys[0] || k in keys[1..];
  }

  lemma SelectedNone<V>(acc: map<GoString, V>, m: map<GoString, V>, keys: seq<GoString>)
    requires keys == []
    ensures acc + Selected(m, keys) == acc
  {
  }

  lemma SelectedAll<V>(m: map<GoString, V>, keys: seq<GoString>)
    requires forall k :: k in keys <==> k in m
    ensures map[] + Selected(m, keys) == m
  {
  }

  /** With no 'e' between `current` and `j`, the `decodeInt` loop runs on to `j`. */
  lemma {:induction false} IntScanSkip(s: Bytes, current: nat, j: nat)
    requires 1 <= current <= j <= |s|
    requires forall k :: current <= k < j ==> s[k] != END
    ensures IntScan(s, current) == IntScan(s, j)
    decreases j - current
  {
    if current < j {
      IntScanSkip(s, current + 1, j);
    }
  }

  /** With no ':' between `current` and `j`, the `decodeString` loop runs on to `j`. */
  lemma {:induction false} StringScanSkip(s: Bytes, current: nat, j: nat)
    requires current <= j <= |s|
    requires forall k :: current <= k < j ==> s[k] != COLON
    ensures StringScan(s, current) == StringScan(s, j)
    decreases j - current
  {
    if current < j {
      StringScanSkip(s, current + 1, j);
    }
  }

  /** `decodeInt` reads back what `encodeInt` wrote, whatever follows it. */
  lemma IntRoundTrip(n: int64, rest: Bytes)
    ensures IntDecoding(EncodeInt(n) + rest) == Ok((Int(n), |EncodeInt(n)|))
  {
    var t := Itoa(n as int);
    var s := EncodeInt(n) + rest;
    ItoaText(n as int);
    assert s == [INT_TAG] + t + [END] + rest;
    forall k | 1 <= k < 1 + |t| ensures s[k] != END {
      assert s[k] == t[k - 1];
    }
    IntScanSkip(s, 1, 1 + |t|);
    assert s[1..1 + |t|] == t;
    AtoiItoa(n);
  }

  /** `decodeString` reads back what `encodeString` wrote, whatever follows it. */
  lemma StringRoundTrip(str: GoString, rest: Bytes)
    ensures StringDecoding(EncodeString(str) + rest) == Ok((Str(str), |EncodeString(str)|))
  {
    var t := Itoa(|str|);
    var s := EncodeString(str) + rest;
    ItoaText(|str|);
    assert s == t + [COLON] + str + rest;
    forall k | 0 <= k < |t| ensures s[k] != COLON {
      assert s[k] == t[k];
    }
    StringScanSkip(s, 0, |t|);
    assert s[..|t|] == t;
    AtoiItoa(|str| as int64);
    assert s[|t| + 1..|t| + 1 + |str|] == str;
  }

  lemma DecodeEncodedString(str: GoString, rest: Bytes)
    ensures Decoding(EncodeString(str) + rest) == Ok((Str(str), |EncodeString(str)|))
  {
    var s := EncodeString(str) + rest;
    assert s[0] == Itoa(|str|)[0];
    StringRoundTrip(str, rest);
  }

  /**
   * Decoding an encoding gives back the value and takes exactly the encoding,
   * whatever bytes follow it.
   */
  lemma {:induction false} DecodeEncoded(v: Value, rest: Bytes)
    requires Encoding(v).Ok?
    ensures Decoding(Encoding(v).value + rest) == Ok((v, |Encoding(v).value|))
    decreases v, 2
  {
    match v
    case Int(n) =>
      assert (EncodeInt(n) + rest)[0] == INT_TAG;
      IntRoundTrip(n, rest);
    case Str(str) =>
      DecodeEncodedString(str, rest);
    case List(items) =>
      DecodeEncodedList(items, rest);
    case Dict(m) =>
      DecodeEncodedDict(m, rest);
  }

  lemma {:induction false} DecodeEncodedList(items: seq<Value>, rest: Bytes)
    requires Encoding(List(items)).Ok?
    ensures Decoding(Encoding(List(items)).value + rest) == Ok((List(items), |Encoding(List(items)).value|))
    decreases List(items), 1
  {
    var body := ItemsEncoding(items).value;
    assert Encoding(List(items)).value == [LIST_TAG] + body + [END];
    ListRoundTrip(items, body, rest);
  }

  /** A list body the items encode to, framed by 'l' and 'e', decodes to the list. */
  lemma ListRoundTrip(items: seq<Value>, body: Bytes, rest: Bytes)
    requires ItemsEncoding(items) == Ok(body)
    ensures Decoding([LIST_TAG] + body + [END] + rest) == Ok((List(items), |body| + 2))
    decreases items, 3
  {
    var s := [LIST_TAG] + body + [END] + rest;
    Enclosed(LIST_TAG, body, rest);
    ItemsBodyDecodes(items, body, s, rest);
    ListDecodingOf(s, |body| + 2, items);
  }

  /** The item loop reads the encoded items of a list back, up to and past its 'e'. */
  lemma ItemsBodyDecodes(items: seq<Value>, body: Bytes, s: Bytes, rest: Bytes)
    requires ItemsEncoding(items) == Ok(body)
    requires 1 <= |s| && s[1..] == body + [END] + rest
    ensures ItemsDecoding(s, 1, []) == Ok((List(items), |body| + 2))
    decreases items, 2
  {
    ItemsEncodedLaidOut(items, body, s, 1, rest, 1 + |body|);
    EndAfter(s, 1, body, rest);
    ItemsDecodingLaidOut(s, 1, [], items, 1 + |body|);
    FromNoItems(ItemsDecoding(s, 1, []), items, |body| + 2);
  }

  lemma FromNoItems(r: DecodeResult, items: seq<Value>, n: nat)
    requires r == Ok((List([] + items), n))
    ensures r == Ok((List(items), n))
  {
    assert [] + items == items;
  }

  /**
   * A dictionary body that the entries under `keys` encode to, framed by 'd'
   * and 'e', decodes to the dictionary when `keys` lists all its keys.
   */
  lemma DictRoundTrip(m: map<GoString, Value>, keys: seq<GoString>, body: Bytes, rest: Bytes)
    requires forall k :: k in keys <==> k in m
    requires EntriesEncoding(m, keys) == Ok(body)
    ensures Decoding([DICT_TAG] + body + [END] + rest) == Ok((Dict(m), |body| + 2))
    decreases Dict(m), 0, |keys|, 2
  {
    var s := [DICT_TAG] + body + [END] + rest;
    Enclosed(DICT_TAG, body, rest);
    EntriesRoundTrip(m, keys, s, 1, map[], rest);
    SelectedAll(m, keys);
    DictDecodingOf(s, |body| + 2, m);
  }

  lemma {:induction false} DecodeEncodedDict(m: map<GoString, Value>, rest: Bytes)
    requires Encoding(Dict(m)).Ok?
    ensures Decoding(Encoding(Dict(m)).value + rest) == Ok((Dict(m), |Encoding(Dict(m)).value|))
    decreases Dict(m), 1
  {
    var keys := Keys.Ascending(m.Keys);
    Keys.AscendingSpec(m.Keys);
    var body := EntriesEncoding(m, keys).value;
    assert Encoding(Dict(m)).value == [DICT_TAG] + body + [END];
    DictRoundTrip(m, keys, body, rest);
  }

  /** Text framed by a tag byte and 'e', followed by anything. */
  lemma Enclosed(tag: byte, body: Bytes, rest: Bytes)
    ensures |[tag] + body + [END] + rest| > 0 && ([tag] + body + [END] + rest)[0] == tag
    ensures ([tag] + body + [END] + rest)[1..] == body + [END] + rest
  {
    assert [tag] + body + [END] + rest == [tag] + (body + [END] + rest);
  }

  lemma ListDecodingOf(s: Bytes, n: nat, items: seq<Value>)
    requires |s| > 0 && s[0] == LIST_TAG
    requires ItemsDecoding(s, 1, []) == Ok((List(items), n))
    ensures Decoding(s) == Ok((List(items), n))
  {
  }

  lemma DictDecodingOf(s: Bytes, n: nat, entries: map<GoString, Value>)
    requires |s| > 0 && s[0] == DICT_TAG
    requires EntriesDecoding(s, 1, map[]) == Ok((Dict(entries), n))
    ensures Decoding(s) == Ok((Dict(entries), n))
  {
  }

  lemma ItemsDecodingEnd(s: Bytes, i: nat, items: seq<Value>)
    requires 1 <= i < |s| && s[i] == END
    ensures ItemsDecoding(s, i, items) == Ok((List(items), i + 1))
  {
  }

  /** Where the parts of an encoded item list start inside the text around them. */
  lemma ItemLayout(s: Bytes, i: nat, a: Bytes, c: Bytes, rest: Bytes)
    requires i <= |s| && s[i..] == a + c + [END] + rest
    requires |a| > 0
    ensures i < |s| && s[i] == a[0]
    ensures s[i..] == a + (c + [END] + rest)
    ensures i + |a| <= |s| && s[i + |a|..] == c + [END] + rest
  {
    assert a + c + [END] + rest == a + (c + [END] + rest);
    assert s[i + |a|..] == s[i..][|a|..];
  }

  /** Where the parts of an encoded entry list start inside the text around them. */
  lemma EntryLayout(s: Bytes, i: nat, a: Bytes, b: Bytes, c: Bytes, rest: Bytes)
    requires i <= |s| && s[i..] == a + b + c + [END] + rest
    requires |a| > 0
    ensures i < |s| && s[i] == a[0]
    ensures s[i..] == a + (b + (c + [END] + rest))
    ensures s[i + |a|..] == b + (c + [END] + rest)
    ensures i + |a| + |b| <= |s| && s[i + |a| + |b|..] == c + [END] + rest
  {
    assert a + b + c + [END] + rest == a + (b + (c + [END] + rest));
    assert s[i + |a|..] == s[i..][|a|..];
    assert s[i + |a| + |b|..] == s[i..][|a| + |b|..];
  }

  lemma AppendEmpty<T>(a: seq<T>, b: seq<T>)
    requires a == [] || b == []
    ensures a + b == (if a == [] then b else a)
  {
  }

  lemma AppendHead<T>(acc: seq<T>, items: seq<T>)
    requires |items| > 0
    ensures acc + [items[0]] + items[1..] == acc + items
  {
    assert items == [items[0]] + items[1..];
  }

  /** One turn of the list loop: an item that decodes moves the cursor past it. */
  lemma ItemsDecodingStep(s: Bytes, i: nat, items: seq<Value>, item: Value, k: nat)
    requires 1 <= i < |s| && s[i] != END && Decoding(s[i..]) == Ok((item, k))
    ensures ItemsDecoding(s, i, items) == ItemsDecoding(s, i + k, items + [item])
  {
  }

  /**
   * `items` lie one after another from position `i` of `s`, each as text that
   * decodes to it, and the last one ends at `e`.
   */
  ghost predicate ItemsLaidOut(s: Bytes, i: nat, items: seq<Value>, e: nat)
    decreases |items|
  {
    if items == [] then i == e
    else
      i < |s| && Decoding(s[i..]).Ok? && Decoding(s[i..]).value.0 == items[0]
      && ItemsLaidOut(s, i + Decoding(s[i..]).value.1, items[1..], e)
  }

  /** Text that decodes never starts with 'e'. */
  lemma DecodedNotEnd(t: Bytes)
    requires Decoding(t).Ok?
    ensures t[0] != END
  {
  }

  /** The byte after a body framed as `body + [END] + rest` is the 'e'. */
  lemma EndAfter(s: Bytes, i: nat, body: Bytes, rest: Bytes)
    requires i <= |s| && s[i..] == body + [END] + rest
    ensures i + |body| < |s| && s[i + |body|] == END
  {
    assert s[i + |body|] == s[i..][|body|];
  }

  /** The list loop reads items laid out from cursor `i` and stops at the 'e' after them. */
  lemma {:induction false} ItemsDecodingLaidOut(s: Bytes, i: nat, acc: seq<Value>, items: seq<Value>, e: nat)
    requires 1 <= i && ItemsLaidOut(s, i, items, e) && e < |s| && s[e] == END
    ensures ItemsDecoding(s, i, acc) == Ok((List(acc + items), e + 1))
    decreases |items|
  {
    if items == [] {
      ItemsDecodingEnd(s, i, acc);
      AppendEmpty(acc, items);
    } else {
      var k := Decoding(s[i..]).value.1;
      DecodedNotEnd(s[i..]);
      ItemsDecodingStep(s, i, acc, items[0], k);
      ItemsDecodingLaidOut(s, i + k, acc + [items[0]], items[1..], e);
      AppendHead(acc, items);
    }
  }

  /** An encoded item list is the first item's encoding followed by the others'. */
  lemma ItemsSplit(items: seq<Value>, body: Bytes) returns (head: Bytes, tail: Bytes)
    requires items != [] && ItemsEncoding(items) == Ok(body)
    ensures Encoding(items[0]) == Ok(head) && ItemsEncoding(items[1..]) == Ok(tail)
    ensures body == head + tail
  {
    head := Encoding(items[0]).value;
    tail := ItemsEncoding(items[1..]).value;
  }

  /** An item's encoding decodes to the item wherever it sits in the input. */
  lemma ItemDecodes(v: Value, head: Bytes, tail: Bytes, s: Bytes, i: nat, rest: Bytes)
    requires Encoding(v) == Ok(head)
    requires i <= |s| && s[i..] == head + tail + [END] + rest
    ensures i < |s| && Decoding(s[i..]) == Ok((v, |head|))
    ensures i + |head| <= |s| && s[i + |head|..] == tail + [END] + rest
    decreases v, 3
  {
    DecodeEncoded(v, tail + [END] + rest);
    ItemLayout(s, i, head, tail, rest);
  }

  /** Items are laid out from `i` when the first decodes there and the others follow it. */
  lemma LaidOutStep(s: Bytes, i: nat, items: seq<Value>, k: nat, e: nat)
    requires items != [] && i < |s| && Decoding(s[i..]) == Ok((items[0], k))
    ensures ItemsLaidOut(s, i + k, items[1..], e) ==> ItemsLaidOut(s, i, items, e)
  {
  }

  /**
   * The first item of an encoded list body decodes to the first value, and
   * the encoding of the other items follows it: the items are laid out from
   * `i` when the others are laid out from where the first one ends.
   */
  lemma ItemRoundTrip(items: seq<Value>, body: Bytes, s: Bytes, i: nat, rest: Bytes, e: nat) returns (k: nat, tail: Bytes)
    requires items != [] && ItemsEncoding(items) == Ok(body)
    requires i <= |s| && s[i..] == body + [END] + rest
    ensures ItemsEncoding(items[1..]) == Ok(tail) && k + |tail| == |body|
    ensures i + k <= |s| && s[i + k..] == tail + [END] + rest
    ensures ItemsLaidOut(s, i + k, items[1..], e) ==> ItemsLaidOut(s, i, items, e)
    decreases items, 0
  {
    var head;
    head, tail := ItemsSplit(items, body);
    ItemDecodes(items[0], head, tail, s, i, rest);
    k := |head|;
    LaidOutStep(s, i, items, k, e);
  }

  /** An encoded item list lays its items out one after another. */
  lemma {:induction false} ItemsEncodedLaidOut(items: seq<Value>, body: Bytes, s: Bytes, i: nat, rest: Bytes, e: nat)
    requires ItemsEncoding(items) == Ok(body)
    requires i <= |s| && s[i..] == body + [END] + rest && e == i + |body|
    ensures ItemsLaidOut(s, i, items, e)
    decreases items, 1
  {
    if items == [] {
      assert body == [];
    } else {
      var k, tail := ItemRoundTrip(items, body, s, i, rest, e);
      ItemsEncodedLaidOut(items[1..], tail, s, i + k, rest, e);
    }
  }

  lemma EntriesDecodingEnd(s: Bytes, i: nat, entries: map<GoString, Value>)
    requires 1 <= i < |s| && s[i] == END
    ensures EntriesDecoding(s, i, entries) == Ok((Dict(entries), i + 1))
  {
  }

  /** One turn of the dictionary loop: a string key and a value move the cursor past both. */
  lemma EntryDecodingAt(s: Bytes, i: nat, key: GoString, k1: nat, value: Value, k2: nat)
    requires 1 <= i < |s|
    requires Decoding(s[i..]) == Ok((Str(key), k1))
    requires i + k1 <= |s| && Decoding(s[i + k1..]) == Ok((value, k2))
    ensures EntryDecoding(s, i) == Ok((key, value, i + k1 + k2))
  {
  }

  lemma EntriesDecodingStep(s: Bytes, i: nat, entries: map<GoString, Value>, key: GoString, value: Value, next: nat)
    requires 1 <= i < |s| && s[i] != END
    requires EntryDecoding(s, i) == Ok((key, value, next))
    ensures EntriesDecoding(s, i, entries) == EntriesDecoding(s, next, entries[key := value])
  {
  }

  /**
   * An entry whose key text and value text decode, wherever it sits in the
   * input: the loop turn at its start reads both.
   */
  lemma EntryAt(s: Bytes, i: nat, key: GoString, value: Value, a: Bytes, b: Bytes, c: Bytes, rest: Bytes)
      returns (j: nat)
    requires 1 <= i <= |s| && s[i..] == a + b + c + [END] + rest
    requires |a| > 0 && a[0] != END
    requires Decoding(a + (b + (c + [END] + rest))) == Ok((Str(key), |a|))
    requires Decoding(b + (c + [END] + rest)) == Ok((value, |b|))
    ensures i < |s| && s[i] != END
    ensures j == i + |a| + |b| && EntryDecoding(s, i) == Ok((key, value, j))
    ensures j <= |s| && s[j..] == c + [END] + rest
  {
    EntryLayout(s, i, a, b, c, rest);
    EntryDecodingAt(s, i, key, |a|, value, |b|);
    j := i + |a| + |b|;
  }

  /**
   * The first entry of an encoded dictionary body decodes to the first key and
   * its value, and the rest of the body follows it.
   */
  lemma EntryRoundTrip(m: map<GoString, Value>, keys: seq<GoString>, s: Bytes, i: nat, rest: Bytes)
      returns (j: nat)
    requires forall k :: k in keys ==> k in m
    requires keys != [] && EntriesEncoding(m, keys).Ok?
    requires 1 <= i <= |s| && s[i..] == EntriesEncoding(m, keys).value + [END] + rest
    ensures i < |s| && s[i] != END
    ensures EntryDecoding(s, i) == Ok((keys[0], m[keys[0]], j))
    ensures EntriesEncoding(m, keys[1..]).Ok?
    ensures j == i + |EntriesEncoding(m, keys).value| - |EntriesEncoding(m, keys[1..]).value|
    ensures 1 <= j <= |s| && s[j..] == EntriesEncoding(m, keys[1..]).value + [END] + rest
    decreases Dict(m), 0, |keys|, 0
  {
    var key := keys[0];
    var encodedKey := EncodeString(key);
    var encodedValue := Encoding(m[key]).value;
    var tailBody := EntriesEncoding(m, keys[1..]).value;
    assert EntriesEncoding(m, keys).value == encodedKey + encodedValue + tailBody;
    var tail := tailBody + [END] + rest;
    DecodeEncodedString(key, encodedValue + tail);
    DecodeEncoded(m[key], tail);
    j := EntryAt(s, i, key, m[key], encodedKey, encodedValue, tailBody, rest);
  }

  lemma {:induction false} EntriesRoundTrip(m: map<GoString, Value>, keys: seq<GoString>, s: Bytes, i: nat,
                                            acc: map<GoString, Value>, rest: Bytes)
    requires forall k :: k in keys ==> k in m
    requires EntriesEncoding(m, keys).Ok?
    requires 1 <= i <= |s| && s[i..] == EntriesEncoding(m, keys).value + [END] + rest
    ensures EntriesDecoding(s, i, acc)
            == Ok((Dict(acc + Selected(m, keys)), i + |EntriesEncoding(m, keys).value| + 1))
    decreases Dict(m), 0, |keys|, 1
  {
    if keys == [] {
      assert s[i] == s[i..][0] == END;
      EntriesDecodingEnd(s, i, acc);
      SelectedNone(acc, m, keys);
    } else {
      var key := keys[0];
      var j := EntryRoundTrip(m, keys, s, i, rest);
      EntriesDecodingStep(s, i, acc, key, m[key], j);
      EntriesRoundTrip(m, keys[1..], s, j, acc[key := m[key]], rest);
      SelectedStep(acc, m, keys);
    }
  }

  /** Encoding fails exactly on values with a part of a type the codec does not know. */
  lemma {:induction false} EncodingTotal(v: Value)
    ensures Encoding(v).Ok? <==> Bencodable(v)
    decreases v, 1
  {
    match v
    case List(items) => ItemsEncodingTotal(items);
    case Dict(m) =>
      Keys.AscendingSpec(m.Keys);
      EntriesEncodingTotal(m, Keys.Ascending(m.Keys));
    case _ =>
  }

  lemma {:induction false} ItemsEncodingTotal(items: seq<Value>)
    ensures ItemsEncoding(items).Ok? <==> forall i :: 0 <= i < |items| ==> Bencodable(items[i])
    decreases items
  {
    if items != [] {
      EncodingTotal(items[0]);
      ItemsEncodingTotal(items[1..]);
      assert forall i :: 1 <= i < |items| ==> items[i] == items[1..][i - 1];
    }
  }

  lemma {:induction false} EntriesEncodingTotal(m: map<GoString, Value>, keys: seq<GoString>)
    requires forall k :: k in keys ==> k in m
    ensures EntriesEncoding(m, keys).Ok? <==> forall k :: k in keys ==> Bencodable(m[k])
    decreases Dict(m), 0, |keys|
  {
    if keys != [] {
      EncodingTotal(m[keys[0]]);
      EntriesEncodingTotal(m, keys[1..]);
      assert forall k :: k in keys ==> k == keys[0] || k in keys[1..];
    }
  }

  /**
   * The round-trip law: every value without a foreign part encodes, and
   * decoding its encoding gives it back and takes the whole encoding.
   */
  lemma RoundTrip(v: Value)
    requires Bencodable(v)
    ensures Encoding(v).Ok?
    ensures Decoding(Encoding(v).value) == Ok((v, |Encoding(v).value|))
  {
    EncodingTotal(v);
    DecodeEncoded(v, []);
    assert Encoding(v).value + [] == Encoding(v).value;
  }

  /** Whatever `Decode` returns is free of foreign parts. */
  lemma {:induction false} DecodedBencodable(s: Bytes)
    ensures Decoding(s).Ok? ==> Bencodable(Decoding(s).value.0)
    decreases |s|, 5
  {
    if |s| > 0 && s[0] == LIST_TAG {
      ItemsBencodable(s, 1, []);
    } else if |s| > 0 && s[0] == DICT_TAG {
      EntriesBencodable(s, 1, map[]);
    }
  }

  lemma {:induction false} ItemsBencodable(s: Bytes, i: nat, items: seq<Value>)
    requires 1 <= i <= |s| + 1
    requires forall k :: 0 <= k < |items| ==> Bencodable(items[k])
    ensures ItemsDecoding(s, i, items).Ok? ==> Bencodable(ItemsDecoding(s, i, items).value.0)
    decreases |s| + 1 - i, 3
  {
    if i < |s| && s[i] != END && Decoding(s[i..]).Ok? {
      var (item, k) := Decoding(s[i..]).value;
      DecodedBencodable(s[i..]);
      var more := items + [item];
      assert forall n :: 0 <= n < |more| ==> Bencodable(more[n]) by {
        forall n | 0 <= n < |more| ensures Bencodable(more[n]) {
          if n < |items| {
            assert more[n] == items[n];
          }
        }
      }
      ItemsBencodable(s, i + k, more);
    }
  }

  lemma {:induction false} EntriesBencodable(s: Bytes, i: nat, entries: map<GoString, Value>)
    requires 1 <= i <= |s| + 1
    requires forall k :: k in entries ==> Bencodable(entries[k])
    ensures EntriesDecoding(s, i, entries).Ok? ==> Bencodable(EntriesDecoding(s, i, entries).value.0)
    decreases |s| + 1 - i, 3
  {
    if i < |s| && s[i] != END && EntryDecoding(s, i).Ok? {
      var (key, value, next) := EntryDecoding(s, i).value;
      EntryBencodable(s, i);
      EntriesBencodable(s, next, entries[key := value]);
    }
  }

  lemma {:induction false} EntryBencodable(s: Bytes, i: nat)
    requires 1 <= i < |s|
    ensures EntryDecoding(s, i).Ok? ==> Bencodable(EntryDecoding(s, i).value.1)
    decreases |s| + 1 - i, 2
  {
    var keyResult := Decoding(s[i..]);
    if keyResult.Ok? {
      var k1 := keyResult.value.1;
      DecodedBencodable(s[i + k1..]);
    }
  }

  /** Whatever `Decode` returns can be encoded again: the encoder never fails on it. */
  lemma DecodedEncodes(s: Bytes)
    requires Decoding(s).Ok?
    ensures Encoding(Decoding(s).value.0).Ok?
  {
    DecodedBencodable(s);
    EncodingTotal(Decoding(s).value.0);
  }

  /**
   * The as-written dictionary encoder hides a failure: a one-entry map whose
   * value has no encoding "encodes" to empty text, which does not decode,
   * while the encoding the model uses reports the error.
   */
  lemma DictErrorSwallowed()
    ensures DictEncodingAsWritten(map[[97 as byte] := Other]) == Ok([])
    ensures Encoding(Dict(map[[97 as byte] := Other])) == Err(UnknownType)
    ensures Decoding(DictEncodingAsWritten(map[[97 as byte] := Other]).value) == Err(EmptyInput)
  {
    var m: map<GoString, Value> := map[[97 as byte] := Other];
    Keys.AscendingSpec(m.Keys);
    var keys := Keys.Ascending(m.Keys);
    assert [97 as byte] in keys;
    assert EntriesEncoding(m, keys) == Err(UnknownType);
  }

  /**
   * `encodeDictionary` as written, in general: as soon as one value fails to
   * encode as written, the whole dictionary "encodes" to empty text with no
   * error, which does not decode, while the encoding the model uses fails.
   */
  lemma DictSwallowed(m: map<GoString, Value>, k: GoString)
    requires k in m && EncodingAsWritten(m[k]).Err?
    ensures DictEncodingAsWritten(m) == Ok([])
    ensures Decoding(DictEncodingAsWritten(m).value) == Err(EmptyInput)
    ensures Encoding(Dict(m)).Err?
  {
    Keys.AscendingMembers(m.Keys);
    EntriesFail(m, Keys.Ascending(m.Keys), k);
    if Encoding(m[k]).Ok? {
      AsWrittenAgrees(m[k]);
    }
    EncodingTotal(m[k]);
    EncodingTotal(Dict(m));
  }

  /** The entry loop as written stops with an error when any listed key's value fails. */
  lemma {:induction false} EntriesFail(m: map<GoString, Value>, keys: seq<GoString>, k: GoString)
    requires forall x :: x in keys ==> x in m
    requires k in keys && EncodingAsWritten(m[k]).Err?
    ensures EntriesEncodingAsWritten(m, keys).Err?
    decreases |keys|
  {
    if keys[0] != k {
      EntriesFail(m, keys[1..], k);
    }
  }

  /**
   * The as-written encoder agrees with the model's encoder on every value the
   * model's encoder accepts; they differ only where a part has no encoding.
   */
  lemma {:induction false} AsWrittenAgrees(v: Value)
    requires Encoding(v).Ok?
    ensures EncodingAsWritten(v) == Encoding(v)
    decreases v, 1
  {
    match v
    case List(items) => ItemsAsWrittenAgrees(items);
    case Dict(m) =>
      Keys.AscendingMembers(m.Keys);
      EntriesAsWrittenAgrees(m, Keys.Ascending(m.Keys));
    case _ =>
  }

  lemma {:induction false} ItemsAsWrittenAgrees(items: seq<Value>)
    requires ItemsEncoding(items).Ok?
    ensures ItemsEncodingAsWritten(items) == ItemsEncoding(items)
    decreases items
  {
    if items != [] {
      AsWrittenAgrees(items[0]);
      ItemsAsWrittenAgrees(items[1..]);
    }
  }

  lemma {:induction false} EntriesAsWrittenAgrees(m: map<GoString, Value>, keys: seq<GoString>)
    requires forall k :: k in keys ==> k in m
    requires EntriesEncoding(m, keys).Ok?
    ensures EntriesEncodingAsWritten(m, keys) == EntriesEncoding(m, keys)
    decreases Dict(m), 0, |keys|
  {
    if keys != [] {
      AsWrittenAgrees(m[keys[0]]);
      EntriesAsWrittenAgrees(m, keys[1..]);
    }
  }

  /**
   * The swallowed error surfaces as text one level up: `{"a": {"b": x}}`
   * with `x` of an unknown type is written as "d1:ae", and `[{"a": x}]` as
   * "le", both without an error, while the model's encoder rejects both.
   */
  lemma NestedErrorSwallowed()
    ensures EncodingAsWritten(Dict(map[[97 as byte] := Dict(map[[98 as byte] := Other])]))
            == Ok([DICT_TAG, ZERO + 1, COLON, 97, END])
    ensures Encoding(Dict(map[[97 as byte] := Dict(map[[98 as byte] := Other])])) == Err(UnknownType)
    ensures EncodingAsWritten(List([Dict(map[[97 as byte] := Other])])) == Ok([LIST_TAG, END])
    ensures Encoding(List([Dict(map[[97 as byte] := Other])])) == Err(UnknownType)
  {
    var a: GoString := [97 as byte];
    var b: GoString := [98 as byte];
    var inner: map<GoString, Value> := map[b := Other];
    var outer: map<GoString, Value> := map[a := Dict(inner)];
    var single: map<GoString, Value> := map[a := Other];
    Keys.AscendingSingleton(a);
    Keys.AscendingSingleton(b);
    assert inner.Keys == {b} && outer.Keys == {a} && single.Keys == {a};
    assert EntriesEncodingAsWritten(inner, [b]) == Err(UnknownType);
    assert EncodingAsWritten(Dict(inner)) == Ok([]);
    assert EncodeString(a) == [ZERO + 1, COLON, 97];
    assert EncodeString(a) + [] + [] == EncodeString(a);
    assert EntriesEncodingAsWritten(outer, [a]) == Ok(EncodeString(a));
    assert EntriesEncoding(inner, [b]) == Err(UnknownType);
    assert EntriesEncoding(outer, [a]) == Err(UnknownType);
    assert EntriesEncodingAsWritten(single, [a]) == Err(UnknownType);
    assert EntriesEncoding(single, [a]) == Err(UnknownType);
    assert Keys.Ascending(inner.Keys) == [b] && Keys.Ascending(outer.Keys) == [a];
    assert Keys.Ascending(single.Keys) == [a];
    assert EncodingAsWritten(Dict(outer)) == Ok([DICT_TAG] + EncodeString(a) + [END]);
    assert EncodingAsWritten(Dict(single)) == Ok([]);
    assert [Dict(single)][1..] == [];
    var none: Bytes := [];
    assert none + none == none;
    assert ItemsEncodingAsWritten([Dict(single)]) == Ok(none);
    assert EncodingAsWritten(List([Dict(single)])) == Ok([LIST_TAG] + none + [END]);
    assert [LIST_TAG] + none + [END] == [LIST_TAG, END];
    assert [DICT_TAG] + EncodeString(a) + [END] == [DICT_TAG, ZERO + 1, COLON, 97, END];
  }

  /**
   * `decodeInt` reads the text between the 'i' and the first 'e' after it:
   * the number it denotes, and every byte through that 'e'; text that is no
   * number is an error.
   */
  lemma IntDecodingFirstEnd(s: Bytes, j: nat)
    requires 1 <= j < |s| && s[j] == END
    requires forall k :: 1 <= k < j ==> s[k] != END
    ensures Atoi(s[1..j]).None? ==> IntDecoding(s) == Err(BadNumber)
    ensures Atoi(s[1..j]).Some? ==> IntDecoding(s) == Ok((Int(Atoi(s[1..j]).value), j + 1))
  {
    IntScanSkip(s, 1, j);
  }

  /** Without an 'e' after the tag, `decodeInt` fails (an index panic in the source). */
  lemma IntDecodingUnterminated(s: Bytes)
    requires |s| > 0 && forall k :: 1 <= k < |s| ==> s[k] != END
    ensures IntDecoding(s) == Err(Unterminated)
  {
    IntScanSkip(s, 1, |s|);
  }

  /**
   * `decodeString` reads the length written before the first ':' and takes
   * that many bytes after it; the byte count runs through the last of them.
   */
  lemma StringDecodingFirstColon(s: Bytes, c: nat)
    requires c < |s| && s[c] == COLON
    requires forall k :: 0 <= k < c ==> s[k] != COLON
    ensures Atoi(s[..c]).None? ==> StringDecoding(s) == Err(BadNumber)
    ensures Atoi(s[..c]).Some? ==>
      var n := Atoi(s[..c]).value as int;
      if 0 <= n && c + 1 + n <= |s| then StringDecoding(s) == Ok((Str(s[c + 1..c + 1 + n]), c + 1 + n))
      else StringDecoding(s) == Err(StringOverrun)
  {
    StringScanSkip(s, 0, c);
  }

  /** Without a ':' the length text is empty, which `strconv.Atoi` rejects. */
  lemma StringDecodingNoColon(s: Bytes)
    requires |s| > 0 && forall k :: 0 <= k < |s| ==> s[k] != COLON
    ensures StringDecoding(s) == Err(BadNumber)
  {
    StringScanSkip(s, 0, |s|);
    assert s[..0] == [];
  }
}
