/**
 * The codec operations as the repository runs them: loops that accumulate
 * the output text, collect and sort the dictionary keys, or move a cursor
 * through the input. Each is proved to compute the encoding or decoding
 * defined in module Bencode, where the laws about them are proved.
 */
module Codec {
  import opened Common
  import opened Decimal
  import opened Bencode
  import Keys

  /** `Encode`: dispatch on the dynamic type; any other type is an error. */
  method Encode(v: Value) returns (r: Result<Bytes, EncodeError>)
    ensures r == Encoding(v)
    decreases v, 1
  {
    match v
    case Int(n) =>
      r := Ok(EncodeInt(n));
    case Str(s) =>
      r := Ok(EncodeString(s));
    case List(items) =>
      r := EncodeList(items);
    case Dict(m) =>
      r := EncodeDictionary(m);
    case Other =>
      r := Err(UnknownType);
  }

  /** `prefix` put in front of a successful result; an error is passed on. */
  function After(prefix: Bytes, r: Result<Bytes, EncodeError>): (a: Result<Bytes, EncodeError>)
    ensures a.Err? <==> r.Err?
  {
    if r.Err? then r else Ok(prefix + r.value)
  }

  lemma AfterAfter(p: Bytes, h: Bytes, r: Result<Bytes, EncodeError>)
    ensures After(p, After(h, r)) == After(p + h, r)
  {
    if r.Ok? {
      assert p + (h + r.value) == p + h + r.value;
    }
  }

  lemma AfterNothing(r: Result<Bytes, EncodeError>)
    ensures After([], r) == r
  {
    if r.Ok? {
      assert [] + r.value == r.value;
    }
  }

  /** The items from `i` on encode as item `i` followed by the items after it. */
  lemma ItemsEncodingFrom(items: seq<Value>, i: nat)
    requires i < |items|
    ensures Encoding(items[i]).Err? ==> ItemsEncoding(items[i..]) == Encoding(items[i])
    ensures Encoding(items[i]).Ok? ==>
      ItemsEncoding(items[i..]) == After(Encoding(items[i]).value, ItemsEncoding(items[i + 1..]))
  {
    assert items[i..][0] == items[i] && items[i..][1..] == items[i + 1..];
  }

  /** The entries from `i` on encode as entry `i` followed by the entries after it. */
  lemma EntriesEncodingFrom(m: map<GoString, Value>, keys: seq<GoString>, i: nat)
    requires forall k :: k in keys ==> k in m
    requires i < |keys|
    ensures Encoding(m[keys[i]]).Err? ==> EntriesEncoding(m, keys[i..]) == Encoding(m[keys[i]])
    ensures Encoding(m[keys[i]]).Ok? ==>
      EntriesEncoding(m, keys[i..]) ==
      After(EncodeString(keys[i]) + Encoding(m[keys[i]]).value, EntriesEncoding(m, keys[i + 1..]))
  {
    assert keys[i..][0] == keys[i] && keys[i..][1..] == keys[i + 1..];
  }

  /** Appending to the output text extends the body after its tag. */
  lemma Extend(result: Bytes, body: Bytes, more: Bytes)
    requires |result| > 0 && result == [result[0]] + body
    ensures result + more == [result[0]] + (body + more)
  {
  }

  lemma AfterNone(body: Bytes)
    ensures After(body, Ok([])) == Ok(body)
  {
    assert body + [] == body;
  }

  lemma EntriesEncodingNone(m: map<GoString, Value>, keys: seq<GoString>)
    requires keys == []
    ensures EntriesEncoding(m, keys) == Ok([])
  {
  }

  /** A dictionary whose entries encode, under its ascending keys, to `body` encodes to 'd' `body` 'e'. */
  lemma DictEncodingOf(m: map<GoString, Value>, keys: seq<GoString>, body: Bytes)
    requires keys == Keys.Ascending(m.Keys) && forall k :: k in keys ==> k in m
    requires EntriesEncoding(m, keys) == Ok(body)
    ensures Encoding(Dict(m)) == Ok([DICT_TAG] + body + [END])
  {
  }

  /** A dictionary whose entries fail to encode fails with their error. */
  lemma DictEncodingFails(m: map<GoString, Value>, keys: seq<GoString>)
    requires keys == Keys.Ascending(m.Keys) && forall k :: k in keys ==> k in m
    requires EntriesEncoding(m, keys).Err?
    ensures Encoding(Dict(m)) == EntriesEncoding(m, keys)
  {
  }

  /** `encodeList`: 'l', each item's encoding in order, 'e'; the first item error aborts. */
  method EncodeList(items: seq<Value>) returns (r: Result<Bytes, EncodeError>)
    ensures r == Encoding(List(items))
    decreases List(items), 0
  {
    var result: Bytes := [LIST_TAG];
    ghost var body: Bytes := [];
    var i := 0;
    AfterNothing(ItemsEncoding(items));
    while i < |items|
      invariant 0 <= i <= |items|
      invariant |result| > 0 && result[0] == LIST_TAG && result == [result[0]] + body
      invariant ItemsEncoding(items) == After(body, ItemsEncoding(items[i..]))
    {
      var v := Encode(items[i]);
      ItemsEncodingFrom(items, i);
      if v.Err? {
        return v;
      }
      AfterAfter(body, v.value, ItemsEncoding(items[i + 1..]));
      Extend(result, body, v.value);
      result := result + v.value;
      body := body + v.value;
      i := i + 1;
    }
    assert items[i..] == [] && body + [] == body;
    assert ItemsEncoding(items) == Ok(body);
    result := result + [END];
    r := Ok(result);
  }

  /**
   * The key-gathering loop of `encodeDictionary`: every key of the map once,
   * in whatever order the map is iterated.
   */
  method CollectKeys(m: map<GoString, Value>) returns (keys: seq<GoString>)
    ensures forall k :: k in keys <==> k in m
    ensures Keys.Distinct(keys)
  {
    keys := [];
    var remaining := m.Keys;
    while remaining != {}
      invariant remaining <= m.Keys
      invariant forall k :: k in keys <==> k in m && k !in remaining
      invariant Keys.Distinct(keys)
      decreases |remaining|
    {
      var key :| key in remaining;
      keys := keys + [key];
      remaining := remaining - {key};
    }
  }

  /**
   * `encodeDictionary` with a nested error passed on (the source swallows it;
   * see `Bencode.DictEncodingAsWritten`): the keys are collected in whatever
   * order the map yields them, sorted, and written with their values.
   */
  method EncodeDictionary(m: map<GoString, Value>) returns (r: Result<Bytes, EncodeError>)
    ensures r == Encoding(Dict(m))
    decreases Dict(m), 0
  {
    var collected := CollectKeys(m);
    var keys := Keys.Sort(collected);
    Keys.SortCanonical(collected, m.Keys);
    Keys.AscendingMembers(m.Keys);
    var result: Bytes := [DICT_TAG];
    ghost var body: Bytes := [];
    var i := 0;
    AfterNothing(EntriesEncoding(m, keys));
    while i < |keys|
      invariant 0 <= i <= |keys|
      invariant |result| > 0 && result[0] == DICT_TAG && result == [result[0]] + body
      invariant EntriesEncoding(m, keys) == After(body, EntriesEncoding(m, keys[i..]))
    {
      var key := keys[i];
      var value := Encode(m[key]);
      EntriesEncodingFrom(m, keys, i);
      if value.Err? {
        DictEncodingFails(m, keys);
        return value;
      }
      AfterAfter(body, EncodeString(key) + value.value, EntriesEncoding(m, keys[i + 1..]));
      Extend(result, body, EncodeString(key) + value.value);
      result := result + (EncodeString(key) + value.value);
      body := body + (EncodeString(key) + value.value);
      i := i + 1;
    }
    EntriesEncodingNone(m, keys[i..]);
    AfterNone(body);
    DictEncodingOf(m, keys, body);
    result := result + [END];
    r := Ok(result);
  }

  /** `decodeInt`: the bytes after 'i' are gathered up to the first 'e', then read as a number. */
  method DecodeInt(s: Bytes) returns (r: DecodeResult)
    ensures r == IntDecoding(s)
  {
    if |s| == 0 {
      return Err(EmptyInput);
    }
    var value: Bytes := [];
    var current := 1;
    while true
      invariant 1 <= current <= |s|
      invariant value == s[1..current]
      invariant IntScan(s, 1) == IntScan(s, current)
      decreases |s| - current
    {
      if current == |s| {
        return Err(Unterminated);
      }
      if s[current] == END {
        break;
      }
      value := value + [s[current]];
      current := current + 1;
    }
    match Atoi(value)
    case None =>
      r := Err(BadNumber);
    case Some(number) =>
      r := Ok((Int(number), current + 1));
  }

  /** `decodeString`: find the first ':', read the length before it, take that many bytes after it. */
  method DecodeString(s: Bytes) returns (r: DecodeResult)
    ensures r == StringDecoding(s)
  {
    if |s| == 0 {
      return Err(EmptyInput);
    }
    var firstColonIndex := 0;
    var current := 0;
    while current < |s|
      invariant current <= |s|
      invariant firstColonIndex == 0
      invariant StringScan(s, 0) == StringScan(s, current)
    {
      if s[current] == COLON {
        firstColonIndex := current;
        break;
      }
      current := current + 1;
    }
    assert StringScan(s, 0) == StringAfter(s, firstColonIndex);
    var lengthStr := s[..firstColonIndex];
    match Atoi(lengthStr)
    case None =>
      r := Err(BadNumber);
    case Some(length) =>
      if length < 0 || firstColonIndex + 1 + length as int > |s| {
        r := Err(StringOverrun);
      } else {
        r := Ok((Str(s[firstColonIndex + 1..firstColonIndex + 1 + length as int]), firstColonIndex + 1 + length as int));
      }
  }

  /** `decodeList`: decode items one after another until the cursor is on an 'e'. */
  method DecodeList(s: Bytes) returns (r: DecodeResult)
    ensures r == ListDecoding(s)
    decreases |s|, 4
  {
    var currentIndex := 1;
    var list: seq<Value> := [];
    while true
      invariant 1 <= currentIndex <= |s| + 1
      invariant ListDecoding(s) == ItemsDecoding(s, currentIndex, list)
      decreases |s| + 1 - currentIndex
    {
      if currentIndex >= |s| {
        return Err(Unterminated);
      }
      if s[currentIndex] == END {
        break;
      }
      var decoded := Decode(s[currentIndex..]);
      if decoded.Err? {
        return Err(decoded.error);
      }
      var (value, index) := decoded.value;
      list := list + [value];
      currentIndex := index + currentIndex;
    }
    r := Ok((List(list), currentIndex + 1));
  }

  /** `decodeDictionary`: decode a key and then a value until the cursor is on an 'e'. */
  method DecodeDictionary(s: Bytes) returns (r: DecodeResult)
    ensures r == DictDecoding(s)
    decreases |s|, 4
  {
    var currentIndex := 1;
    var dict: map<GoString, Value> := map[];
    while true
      invariant 1 <= currentIndex <= |s| + 1
      invariant DictDecoding(s) == EntriesDecoding(s, currentIndex, dict)
      decreases |s| + 1 - currentIndex
    {
      if currentIndex >= |s| {
        return Err(Unterminated);
      }
      if s[currentIndex] == END {
        break;
      }
      ghost var start := currentIndex;
      var decodedKey := Decode(s[currentIndex..]);
      if decodedKey.Err? {
        return Err(decodedKey.error);
      }
      var (key, index) := decodedKey.value;
      currentIndex := index + currentIndex;
      var decodedValue := Decode(s[currentIndex..]);
      if decodedValue.Err? {
        return Err(decodedValue.error);
      }
      var (value, index2) := decodedValue.value;
      currentIndex := index2 + currentIndex;
      if !key.Str? {
        return Err(NonStringKey);
      }
      assert EntryDecoding(s, start) == Ok((key.s, value, currentIndex));
      dict := dict[key.s := value];
    }
    r := Ok((Dict(dict), currentIndex + 1));
  }

  /**
   * `Decode`: dispatch on the first byte. The source returns nil, -1 and no
   * error on an unknown tag; the model reports `UnknownTag`.
   */
  method Decode(s: Bytes) returns (r: DecodeResult)
    ensures r == Decoding(s)
    decreases |s|, 5
  {
    if |s| == 0 {
      return Err(EmptyInput);
    }
    var letter := s[0];
    if letter == LIST_TAG {
      r := DecodeList(s);
    } else if letter == DICT_TAG {
      r := DecodeDictionary(s);
    } else if letter == INT_TAG {
      r := DecodeInt(s);
    } else if IsDigit(letter) {
      r := DecodeString(s);
    } else {
      r := Err(UnknownTag);
    }
  }
}
