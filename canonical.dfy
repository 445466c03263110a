/**
 * Canonical bencoding: text in the one form the encoder writes. Integers and
 * string lengths carry no '+', no leading zero and no "-0", and dictionary
 * keys appear in strictly ascending order. On such text, encoding what was
 * decoded gives back the text itself.
 */
module Canonical {
  import opened Common
  import opened Decimal
  import opened Bencode
  import Keys

  /**
   * The value at the start of `s` is written canonically. The parts it
   * consists of are located where `Decode` finds them.
   */
  ghost predicate CanonicalText(s: Bytes)
    decreases |s|, 5
  {
    if |s| == 0 then false
    else if s[0] == LIST_TAG then ItemsCanonical(s, 1)
    else if s[0] == DICT_TAG then EntriesCanonical(s, 1, None)
    else if s[0] == INT_TAG then IntDecoding(s).Ok? && Canonical(s[1..IntDecoding(s).value.1 - 1])
    else IsDigit(s[0]) && (s[0] != ZERO || (|s| > 1 && s[1] == COLON))
  }

  /** The items of a list from cursor `i` on are written canonically. */
  ghost predicate ItemsCanonical(s: Bytes, i: nat)
    requires 1 <= i <= |s| + 1
    decreases |s| + 1 - i, 3
  {
    i < |s| &&
    (s[i] == END ||
     (Decoding(s[i..]).Ok? && CanonicalText(s[i..]) && ItemsCanonical(s, i + Decoding(s[i..]).value.1)))
  }

  /**
   * The entries of a dictionary from cursor `i` on are written canonically,
   * each key after `last`, the key before them.
   */
  ghost predicate EntriesCanonical(s: Bytes, i: nat, last: Option<GoString>)
    requires 1 <= i <= |s| + 1
    decreases |s| + 1 - i, 3
  {
    i < |s| &&
    (s[i] == END ||
     (Decoding(s[i..]).Ok? && EntryDecoding(s, i).Ok? &&
      CanonicalText(s[i..]) && CanonicalText(s[i + Decoding(s[i..]).value.1..]) &&
      (last.None? || Keys.Less(last.value, EntryDecoding(s, i).value.0)) &&
      EntriesCanonical(s, EntryDecoding(s, i).value.2, Some(EntryDecoding(s, i).value.0))))
  }

  /** The first ':' at or after `current`, or `|s|` when there is none. */
  function ColonAt(s: Bytes, current: nat): (r: nat)
    ensures current <= r || r == |s|
    ensures r <= |s| && (r < |s| ==> s[r] == COLON)
    ensures forall j :: current <= j < r ==> s[j] != COLON
    decreases |s| - current
  {
    if current >= |s| then |s|
    else if s[current] == COLON then current
    else ColonAt(s, current + 1)
  }

  /** A successful `decodeString` loop stopped at the first ':' from `current` on. */
  lemma {:induction false} StringScanAt(s: Bytes, current: nat)
    ensures StringScan(s, current).Ok? ==>
      ColonAt(s, current) < |s| && StringScan(s, current) == StringAfter(s, ColonAt(s, current))
    decreases |s| - current
  {
    if current >= |s| {
      assert s[..0] == [];
    } else if s[current] != COLON {
      StringScanAt(s, current + 1);
    }
  }

  /** A successful `decodeInt` loop stopped at an 'e' and read the number before it. */
  lemma {:induction false} IntScanAt(s: Bytes, current: nat)
    requires 1 <= current
    ensures IntScan(s, current).Ok? ==>
      var k := IntScan(s, current).value.1;
      s[k - 1] == END && Atoi(s[1..k - 1]) == Some(IntScan(s, current).value.0.n)
    decreases |s| - current
  {
    if current < |s| && s[current] != END {
      IntScanAt(s, current + 1);
    }
  }

  /** Canonical integer text is what `encodeInt` writes for the decoded number. */
  lemma IntEncodesBack(s: Bytes)
    requires |s| > 0 && s[0] == INT_TAG && IntDecoding(s).Ok?
    requires Canonical(s[1..IntDecoding(s).value.1 - 1])
    ensures Encoding(IntDecoding(s).value.0) == Ok(s[..IntDecoding(s).value.1])
  {
    var k := IntDecoding(s).value.1;
    IntScanAt(s, 1);
    var t := s[1..k - 1];
    ItoaAtoi(t);
    assert s[..k] == [INT_TAG] + t + [END];
  }

  /** Canonical string text is what `encodeString` writes for the decoded bytes. */
  lemma StringEncodesBack(s: Bytes)
    requires |s| > 0 && IsDigit(s[0]) && StringDecoding(s).Ok?
    requires s[0] != ZERO || (|s| > 1 && s[1] == COLON)
    ensures Encoding(StringDecoding(s).value.0) == Ok(s[..StringDecoding(s).value.1])
  {
    StringScanAt(s, 0);
    var c := ColonAt(s, 0);
    assert c > 0 by {
      assert s[..0] == [];
    }
    var t := s[..c];
    assert DigitsValue(t).Some?;
    assert t[0] == ZERO ==> |t| == 1;
    StringAfterEncodesBack(s, c);
  }

  /** With a canonical length before the colon, the string read after it encodes back to the bytes read. */
  lemma StringAfterEncodesBack(s: Bytes, c: nat)
    requires c < |s| && s[c] == COLON && Canonical(s[..c]) && StringAfter(s, c).Ok?
    ensures Encoding(StringAfter(s, c).value.0) == Ok(s[..StringAfter(s, c).value.1])
  {
    var t := s[..c];
    var n := Atoi(t).value as int;
    ItoaAtoi(t);
    var k := StringAfter(s, c).value.1;
    assert k == c + 1 + n;
    ColonSplit(s, c, k);
  }

  lemma ColonSplit(s: Bytes, c: nat, k: nat)
    requires c < k <= |s| && s[c] == COLON
    ensures s[..k] == s[..c] + [COLON] + s[c + 1..k]
  {
  }

  /**
   * Encoding what was decoded from canonical text gives back exactly the
   * bytes the decoder took.
   */
  lemma {:induction false} CanonicalEncodes(s: Bytes)
    requires Decoding(s).Ok? && CanonicalText(s)
    ensures Encoding(Decoding(s).value.0) == Ok(s[..Decoding(s).value.1])
    decreases |s|, 5
  {
    if s[0] == LIST_TAG {
      ListEncodesBack(s);
    } else if s[0] == DICT_TAG {
      DictEncodesBack(s);
    } else if s[0] == INT_TAG {
      IntEncodesBack(s);
    } else {
      StringEncodesBack(s);
    }
  }

  lemma {:induction false} ListEncodesBack(s: Bytes)
    requires |s| > 0 && s[0] == LIST_TAG
    requires ListDecoding(s).Ok? && ItemsCanonical(s, 1)
    ensures Encoding(ListDecoding(s).value.0) == Ok(s[..ListDecoding(s).value.1])
    decreases |s|, 4
  {
    var n := ListDecoding(s).value.1;
    var items := ListDecoding(s).value.0.items;
    var rest := ItemsEncodeBack(s, 1, [], items, n);
    assert items == rest;
    Enclosing(s, n);
  }

  /** One item of a canonical list encodes back to the bytes it was decoded from. */
  lemma {:induction false} ItemEncodesBack(s: Bytes, i: nat, item: Value, k: nat)
    requires 1 <= i < |s|
    requires Decoding(s[i..]) == Ok((item, k)) && CanonicalText(s[i..])
    ensures i + k <= |s| && Encoding(item) == Ok(s[i..i + k])
    decreases |s| - i, 6
  {
    CanonicalEncodes(s[i..]);
    assert s[i..][..k] == s[i..i + k];
  }

  lemma ItemsEncodingCons(item: Value, rest: seq<Value>, a: Bytes, b: Bytes)
    requires Encoding(item) == Ok(a) && ItemsEncoding(rest) == Ok(b)
    ensures ItemsEncoding([item] + rest) == Ok(a + b)
  {
    assert ([item] + rest)[1..] == rest;
  }

  /** One turn of the `decodeList` loop over canonical text. */
  lemma ItemsStep(s: Bytes, i: nat, acc: seq<Value>, items: seq<Value>, n: nat) returns (item: Value, k: nat)
    requires 1 <= i < |s| && s[i] != END
    requires ItemsDecoding(s, i, acc) == Ok((List(items), n)) && ItemsCanonical(s, i)
    ensures Decoding(s[i..]) == Ok((item, k)) && CanonicalText(s[i..])
    ensures 1 <= k && i + k <= |s| && ItemsCanonical(s, i + k)
    ensures ItemsDecoding(s, i + k, acc + [item]) == Ok((List(items), n))
  {
    item := Decoding(s[i..]).value.0;
    k := Decoding(s[i..]).value.1;
  }

  lemma Regroup(acc: seq<Value>, item: Value, tail: seq<Value>)
    ensures acc + [item] + tail == acc + ([item] + tail)
  {
  }

  /** Text of at least two bytes is its first byte, its middle and its last byte. */
  lemma Enclosing(s: Bytes, n: nat)
    requires 2 <= n <= |s|
    ensures s[..n] == [s[0]] + s[1..n - 1] + [s[n - 1]]
  {
  }

  lemma SliceSplit(s: Bytes, a: nat, b: nat, c: nat)
    requires a <= b <= c <= |s|
    ensures s[a..c] == s[a..b] + s[b..c]
  {
  }

  /**
   * The items decoded from cursor `i` on, after the `acc` decoded before it,
   * encode back to the text up to the closing 'e'.
   */
  lemma {:induction false} ItemsEncodeBack(s: Bytes, i: nat, acc: seq<Value>, items: seq<Value>, n: nat)
    returns (rest: seq<Value>)
    requires 1 <= i <= |s| + 1
    requires ItemsDecoding(s, i, acc) == Ok((List(items), n)) && ItemsCanonical(s, i)
    ensures i < n && items == acc + rest
    ensures ItemsEncoding(rest) == Ok(s[i..n - 1])
    decreases |s| + 1 - i, 3
  {
    if s[i] == END {
      rest := [];
      assert items == acc && n == i + 1;
      assert s[i..i] == [];
    } else {
      var item, k := ItemsStep(s, i, acc, items, n);
      ItemEncodesBack(s, i, item, k);
      var tail := ItemsEncodeBack(s, i + k, acc + [item], items, n);
      rest := [item] + tail;
      Regroup(acc, item, tail);
      ItemsEncodingCons(item, tail, s[i..i + k], s[i + k..n - 1]);
      SliceSplit(s, i, i + k, n - 1);
    }
  }

  lemma {:induction false} DictEncodesBack(s: Bytes)
    requires |s| > 0 && s[0] == DICT_TAG
    requires DictDecoding(s).Ok? && EntriesCanonical(s, 1, None)
    ensures Encoding(DictDecoding(s).value.0) == Ok(s[..DictDecoding(s).value.1])
    decreases |s|, 4
  {
    var n := DictDecoding(s).value.1;
    var m := DictDecoding(s).value.0.entries;
    var keys := EntriesEncodeBack(s, 1, map[], None, m, n);
    DictEncodingOfKeys(m, keys, s[1..n - 1]);
    Enclosing(s, n);
  }

  /** Entries written under their keys in strictly ascending order are the dictionary's encoding. */
  lemma DictEncodingOfKeys(m: map<GoString, Value>, keys: seq<GoString>, body: Bytes)
    requires forall x :: x in m <==> x in keys
    requires Keys.StrictlySorted(keys) && EntriesEncoding(m, keys) == Ok(body)
    ensures Encoding(Dict(m)) == Ok([DICT_TAG] + body + [END])
  {
    Keys.AscendingSpec(m.Keys);
    Keys.StrictlySortedUnique(keys, Keys.Ascending(m.Keys));
  }

  /** One entry of a canonical dictionary encodes back to the bytes it was decoded from. */
  lemma {:induction false} EntryEncodesBack(s: Bytes, i: nat, key: GoString, value: Value, next: nat, k1: nat)
    requires 1 <= i < |s|
    requires EntryDecoding(s, i) == Ok((key, value, next))
    requires Decoding(s[i..]).Ok? && k1 == Decoding(s[i..]).value.1
    requires CanonicalText(s[i..]) && CanonicalText(s[i + k1..])
    ensures i + k1 <= next <= |s|
    ensures Encoding(value).Ok? && EncodeString(key) + Encoding(value).value == s[i..next]
    decreases |s| - i, 7
  {
    var k2 := Decoding(s[i + k1..]).value.1;
    assert Decoding(s[i..]) == Ok((Str(key), k1));
    assert next == i + k1 + k2;
    SuffixEncodesBack(s, i, k1);
    SuffixEncodesBack(s, i + k1, k2);
    SliceSplit(s, i, i + k1, next);
  }

  /** A canonical value inside `s` at cursor `i` encodes back to the bytes it was decoded from. */
  lemma SuffixEncodesBack(s: Bytes, i: nat, k: nat)
    requires i <= |s| && Decoding(s[i..]).Ok? && k == Decoding(s[i..]).value.1 && CanonicalText(s[i..])
    ensures i + k <= |s| && Encoding(Decoding(s[i..]).value.0) == Ok(s[i..i + k])
    decreases |s| - i, 6
  {
    CanonicalEncodes(s[i..]);
    assert s[i..][..k] == s[i..i + k];
  }

  lemma EntriesEncodingCons(m: map<GoString, Value>, key: GoString, tail: seq<GoString>, a: Bytes, b: Bytes)
    requires key in m && forall x :: x in tail ==> x in m
    requires Encoding(m[key]) == Ok(a) && EntriesEncoding(m, tail) == Ok(b)
    ensures forall x :: x in [key] + tail ==> x in m
    ensures EntriesEncoding(m, [key] + tail) == Ok(EncodeString(key) + a + b)
  {
    assert ([key] + tail)[1..] == tail;
  }

  /** An entry's bytes followed by the bytes of the entries after it. */
  lemma EntriesJoin(s: Bytes, i: nat, next: nat, n: nat, m: map<GoString, Value>, key: GoString, value: Value,
                    tail: seq<GoString>, keys: seq<GoString>)
    requires i <= next <= n - 1 && n <= |s|
    requires key in m && m[key] == value && forall x :: x in tail ==> x in m
    requires Encoding(value).Ok? && EncodeString(key) + Encoding(value).value == s[i..next]
    requires EntriesEncoding(m, tail) == Ok(s[next..n - 1])
    requires keys == [key] + tail
    ensures EntriesEncoding(m, keys) == Ok(s[i..n - 1])
  {
    EntriesEncodingCons(m, key, tail, Encoding(value).value, s[next..n - 1]);
    SliceSplit(s, i, next, n - 1);
  }

  /** One turn of the `decodeDictionary` loop over canonical text. */
  lemma EntriesStep(s: Bytes, i: nat, acc: map<GoString, Value>, last: Option<GoString>, m: map<GoString, Value>, n: nat)
    returns (key: GoString, value: Value, next: nat, k1: nat)
    requires 1 <= i < |s| && s[i] != END
    requires EntriesDecoding(s, i, acc) == Ok((Dict(m), n)) && EntriesCanonical(s, i, last)
    ensures EntryDecoding(s, i) == Ok((key, value, next))
    ensures Decoding(s[i..]).Ok? && k1 == Decoding(s[i..]).value.1
    ensures CanonicalText(s[i..]) && CanonicalText(s[i + k1..])
    ensures last.None? || Keys.Less(last.value, key)
    ensures i < next <= |s| && EntriesCanonical(s, next, Some(key))
    ensures EntriesDecoding(s, next, acc[key := value]) == Ok((Dict(m), n))
  {
    key := EntryDecoding(s, i).value.0;
    value := EntryDecoding(s, i).value.1;
    next := EntryDecoding(s, i).value.2;
    k1 := Decoding(s[i..]).value.1;
  }

  /** The keys decoded so far stay at or below the newest key. */
  lemma AccBelow(acc: map<GoString, Value>, last: Option<GoString>, key: GoString, value: Value)
    requires forall x :: x in acc ==> last.Some? && Keys.LessEq(x, last.value)
    requires last.None? || Keys.Less(last.value, key)
    ensures forall x :: x in acc[key := value] ==> Keys.LessEq(x, key)
    ensures forall x :: x in acc ==> Keys.Less(x, key)
  {
    forall x | x in acc ensures Keys.Less(x, key) {
      Keys.LessTransitiveEq(x, last.value, key);
    }
  }

  /**
   * The bookkeeping of one dictionary entry: prepending the newest key to the
   * keys after it keeps them strictly ascending, and the entries decoded
   * before it keep their values.
   */
  lemma KeysStep(acc: map<GoString, Value>, last: Option<GoString>, key: GoString, value: Value,
                 tail: seq<GoString>, m: map<GoString, Value>)
    requires forall x :: x in acc ==> Keys.Less(x, key)
    requires last.None? || Keys.Less(last.value, key)
    requires forall x :: x in m <==> x in acc[key := value] || x in tail
    requires forall x :: x in acc[key := value] ==> m[x] == acc[key := value][x]
    requires forall x :: x in tail ==> Keys.Less(key, x)
    requires Keys.StrictlySorted(tail)
    ensures key in m && m[key] == value
    ensures forall x :: x in m <==> x in acc || x in [key] + tail
    ensures forall x :: x in acc ==> m[x] == acc[x]
    ensures forall x :: x in [key] + tail ==> last.None? || Keys.Less(last.value, x)
    ensures Keys.StrictlySorted([key] + tail)
  {
    Keys.LessIrreflexive(key);
    forall x | x in tail ensures last.None? || Keys.Less(last.value, x) {
      if last.Some? {
        Keys.LessTransitive(last.value, key, x);
      }
    }
    var keys := [key] + tail;
    forall p, q | 0 <= p < q < |keys| ensures Keys.Less(keys[p], keys[q]) {
      assert keys[q] == tail[q - 1];
      if p > 0 {
        assert keys[p] == tail[p - 1];
      }
    }
  }

  /**
   * The entries decoded from cursor `i` on, whose keys all follow `last`,
   * encode back, under their keys in ascending order, to the text up to the
   * closing 'e'; the entries decoded before `i` keep their values.
   */
  lemma {:induction false} EntriesEncodeBack(s: Bytes, i: nat, acc: map<GoString, Value>, last: Option<GoString>,
                                             m: map<GoString, Value>, n: nat)
    returns (keys: seq<GoString>)
    requires 1 <= i <= |s| + 1
    requires EntriesDecoding(s, i, acc) == Ok((Dict(m), n)) && EntriesCanonical(s, i, last)
    requires forall x :: x in acc ==> last.Some? && Keys.LessEq(x, last.value)
    ensures i < n
    ensures forall x :: x in m <==> x in acc || x in keys
    ensures forall x :: x in acc ==> m[x] == acc[x]
    ensures forall x :: x in keys ==> last.None? || Keys.Less(last.value, x)
    ensures Keys.StrictlySorted(keys)
    ensures forall x :: x in keys ==> x in m
    ensures EntriesEncoding(m, keys) == Ok(s[i..n - 1])
    decreases |s| + 1 - i, 3
  {
    if s[i] == END {
      keys := [];
      assert m == acc && n == i + 1;
      assert s[i..i] == [];
    } else {
      var key, value, next, k1 := EntriesStep(s, i, acc, last, m, n);
      EntryEncodesBack(s, i, key, value, next, k1);
      AccBelow(acc, last, key, value);
      var tail := EntriesEncodeBack(s, next, acc[key := value], Some(key), m, n);
      KeysStep(acc, last, key, value, tail, m);
      keys := [key] + tail;
      EntriesJoin(s, i, next, n, m, key, value, tail, keys);
    }
  }

  /**
   * The second round-trip law: a whole canonical text that decodes is
   * exactly the encoding of the value it decodes to.
   */
  lemma EncodeDecoded(s: Bytes)
    requires Decoding(s).Ok? && Decoding(s).value.1 == |s| && CanonicalText(s)
    ensures Encoding(Decoding(s).value.0) == Ok(s)
  {
    CanonicalEncodes(s);
    assert s[..|s|] == s;
  }

  /** What `encodeInt` writes is canonical text. */
  lemma EncodeIntCanonical(n: int64)
    ensures CanonicalText(EncodeInt(n))
  {
    var s := EncodeInt(n);
    IntRoundTrip(n, []);
    assert s + [] == s;
    assert s[1..|s| - 1] == Itoa(n as int);
    ItoaCanonical(n as int);
  }

  /** What `encodeString` writes is canonical text. */
  lemma EncodeStringCanonical(str: GoString)
    ensures CanonicalText(EncodeString(str))
  {
    var s := EncodeString(str);
    assert s[0] == Itoa(|str|)[0];
    if s[0] == ZERO {
      assert |Itoa(|str|)| == 1;
      assert s[1] == COLON;
    }
  }

  /**
   * Everything the encoder writes is canonical, whatever follows it: with
   * `CanonicalEncodes`, decoding and encoding are inverse on exactly the
   * texts the encoder can produce.
   */
  lemma {:induction false} EncodingCanonical(v: Value, rest: Bytes)
    requires Encoding(v).Ok?
    ensures CanonicalText(Encoding(v).value + rest)
    decreases v, 2
  {
    match v
    case Int(n) => IntTextCanonical(n, rest);
    case Str(str) => StringTextCanonical(str, rest);
    case List(items) => ListTextCanonical(items, rest);
    case Dict(m) => DictTextCanonical(m, rest);
  }

  lemma IntTextCanonical(n: int64, rest: Bytes)
    ensures CanonicalText(EncodeInt(n) + rest)
  {
    var s := EncodeInt(n) + rest;
    assert s[0] == INT_TAG;
    IntRoundTrip(n, rest);
    assert s[1..|EncodeInt(n)| - 1] == Itoa(n as int);
    ItoaCanonical(n as int);
  }

  lemma StringTextCanonical(str: GoString, rest: Bytes)
    ensures CanonicalText(EncodeString(str) + rest)
  {
    var s := EncodeString(str) + rest;
    assert s[0] == Itoa(|str|)[0];
    if s[0] == ZERO {
      assert |Itoa(|str|)| == 1;
      assert s[1] == COLON;
    }
  }

  lemma {:induction false} ListTextCanonical(items: seq<Value>, rest: Bytes)
    requires Encoding(List(items)).Ok?
    ensures CanonicalText(Encoding(List(items)).value + rest)
    decreases List(items), 1
  {
    var body := ItemsEncoding(items).value;
    assert Encoding(List(items)).value == [LIST_TAG] + body + [END];
    var s := [LIST_TAG] + body + [END] + rest;
    Enclosed(LIST_TAG, body, rest);
    ItemsTextCanonical(items, body, s, 1, rest);
  }

  /** The encoded items from cursor `i` on, up to the closing 'e', are canonical. */
  lemma {:induction false} ItemsTextCanonical(items: seq<Value>, body: Bytes, s: Bytes, i: nat, rest: Bytes)
    requires ItemsEncoding(items) == Ok(body)
    requires 1 <= i <= |s| && s[i..] == body + [END] + rest
    ensures ItemsCanonical(s, i)
    decreases items, 1
  {
    if items == [] {
      assert s[i..][0] == END;
    } else {
      var head, tail := ItemsSplit(items, body);
      ItemDecodes(items[0], head, tail, s, i, rest);
      ItemLayout(s, i, head, tail, rest);
      EncodingCanonical(items[0], tail + [END] + rest);
      ItemsTextCanonical(items[1..], tail, s, i + |head|, rest);
    }
  }

  lemma {:induction false} DictTextCanonical(m: map<GoString, Value>, rest: Bytes)
    requires Encoding(Dict(m)).Ok?
    ensures CanonicalText(Encoding(Dict(m)).value + rest)
    decreases Dict(m), 1
  {
    var keys := Keys.Ascending(m.Keys);
    Keys.AscendingSpec(m.Keys);
    var body := EntriesEncoding(m, keys).value;
    assert Encoding(Dict(m)).value == [DICT_TAG] + body + [END];
    var s := [DICT_TAG] + body + [END] + rest;
    Enclosed(DICT_TAG, body, rest);
    EntriesTextCanonical(m, keys, s, 1, None, rest);
  }

  /**
   * The encoded entries from cursor `i` on, up to the closing 'e', are
   * canonical when their keys ascend strictly from after `last`.
   */
  lemma {:induction false} EntriesTextCanonical(m: map<GoString, Value>, keys: seq<GoString>, s: Bytes, i: nat,
                                                last: Option<GoString>, rest: Bytes)
    requires forall k :: k in keys ==> k in m
    requires EntriesEncoding(m, keys).Ok?
    requires 1 <= i <= |s| && s[i..] == EntriesEncoding(m, keys).value + [END] + rest
    requires Keys.StrictlySorted(keys)
    requires forall k :: k in keys ==> last.None? || Keys.Less(last.value, k)
    ensures EntriesCanonical(s, i, last)
    decreases Dict(m), 0, |keys|, 1
  {
    if keys == [] {
      assert s[i..][0] == END;
    } else {
      var j := EntryRoundTrip(m, keys, s, i, rest);
      var k := EntryTextCanonical(m, keys, s, i, rest);
      KeysAbove(keys);
      EntriesTextCanonical(m, keys[1..], s, j, Some(keys[0]), rest);
    }
  }

  /** The first entry the encoder writes has a canonical key and a canonical value. */
  lemma EntryTextCanonical(m: map<GoString, Value>, keys: seq<GoString>, s: Bytes, i: nat, rest: Bytes)
      returns (k: nat)
    requires forall k :: k in keys ==> k in m
    requires keys != [] && EntriesEncoding(m, keys).Ok?
    requires 1 <= i <= |s| && s[i..] == EntriesEncoding(m, keys).value + [END] + rest
    ensures i < k <= |s| && Decoding(s[i..]) == Ok((Str(keys[0]), k - i))
    ensures CanonicalText(s[i..]) && CanonicalText(s[k..])
    decreases Dict(m), 0, |keys|, 0
  {
    var key := keys[0];
    var a := EncodeString(key);
    var b := Encoding(m[key]).value;
    var c := EntriesEncoding(m, keys[1..]).value;
    assert EntriesEncoding(m, keys).value == a + b + c;
    EntryLayout(s, i, a, b, c, rest);
    PairCanonical(key, m[key], c + [END] + rest, s, i);
    k := i + |a|;
  }

  /** A key followed by an encoded value is canonical text, and so is the value with what follows. */
  lemma PairCanonical(key: GoString, v: Value, after: Bytes, s: Bytes, i: nat)
    requires Encoding(v).Ok?
    requires i <= |s| && s[i..] == EncodeString(key) + (Encoding(v).value + after)
    requires i + |EncodeString(key)| <= |s| && s[i + |EncodeString(key)|..] == Encoding(v).value + after
    ensures Decoding(s[i..]) == Ok((Str(key), |EncodeString(key)|))
    ensures CanonicalText(s[i..])
    ensures CanonicalText(s[i + |EncodeString(key)|..])
    decreases v, 3
  {
    var u := Encoding(v).value + after;
    DecodeEncodedString(key, u);
    StringTextCanonical(key, u);
    EncodingCanonical(v, after);
  }

  /** The keys after the first of a strictly ascending list ascend strictly from it. */
  lemma KeysAbove(keys: seq<GoString>)
    requires keys != [] && Keys.StrictlySorted(keys)
    ensures Keys.StrictlySorted(keys[1..])
    ensures forall k :: k in keys[1..] ==> Keys.Less(keys[0], k)
  {
    forall k | k in keys[1..] ensures Keys.Less(keys[0], k) {
      var t :| 0 <= t < |keys[1..]| && keys[1..][t] == k;
      assert keys[t + 1] == k;
    }
  }

  /**
   * The canonical texts are exactly the encodings: a whole text decodes to
   * `v` and is canonical if and only if it is the encoding of `v`.
   */
  lemma CanonicalIffEncoding(s: Bytes, v: Value)
    ensures Decoding(s) == Ok((v, |s|)) && CanonicalText(s) <==> Encoding(v) == Ok(s)
  {
    if Decoding(s) == Ok((v, |s|)) && CanonicalText(s) {
      EncodeDecoded(s);
    }
    if Encoding(v) == Ok(s) {
      assert s + [] == s;
      DecodeEncoded(v, []);
      EncodingCanonical(v, []);
    }
  }
}
