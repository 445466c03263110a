/**
 * The tracker side of the client: the announce URL with its query string,
 * and the compact peer list of the tracker's reply (six bytes per peer: an
 * IPv4 address and a big-endian port), printed as "a.b.c.d:p".
 *
 * `url.QueryEscape` is a parameter `escape`, and the order in which Go
 * iterates the parameter map is left open.
 */
module Tracker {
  import opened Common
  import opened Decimal
  import Keys

  const SLASH: byte := '/' as byte
  const QUESTION: byte := '?' as byte
  const EQUALS: byte := '=' as byte
  const AMPERSAND: byte := '&' as byte
  const DOT: byte := '.' as byte
  const COLON: byte := ':' as byte

  /** The announce URL ending in exactly the '/' it had, or one more. */
  function WithSlash(url: Bytes): Bytes
    requires |url| > 0
  {
    if url[|url| - 1] != SLASH then url + [SLASH] else url
  }

  /** `WithSlash` keeps the URL, ends in '/', and adds a '/' exactly when the URL did not already end in one. */
  lemma WithSlashSpec(url: Bytes)
    requires |url| > 0
    ensures WithSlash(url)[..|url|] == url
    ensures WithSlash(url)[|WithSlash(url)| - 1] == SLASH
    ensures |WithSlash(url)| == |url| + (if url[|url| - 1] == SLASH then 0 else 1)
  {
  }

  /** "key=value&" with both sides escaped. */
  function Pair(key: GoString, value: GoString, escape: GoString -> Bytes): Bytes {
    escape(key) + [EQUALS] + escape(value) + [AMPERSAND]
  }

  /** One "key=value&" for each key of `order`, in that order, both sides escaped. */
  function QueryPairs(order: seq<GoString>, params: map<GoString, GoString>, escape: GoString -> Bytes): Bytes
    requires forall i :: 0 <= i < |order| ==> order[i] in params
  {
    if order == [] then []
    else
      var key := order[|order| - 1];
      QueryPairs(order[..|order| - 1], params, escape) + Pair(key, params[key], escape)
  }

  /** The URL the announce request goes to, when the parameters are visited in `order`. */
  function AnnounceUrl(url: Bytes, order: seq<GoString>, params: map<GoString, GoString>, escape: GoString -> Bytes): Bytes
    requires |url| > 0
    requires forall i :: 0 <= i < |order| ==> order[i] in params
  {
    WithSlash(url) + [QUESTION] + QueryPairs(order, params, escape)
  }

  /** How often `b` occurs in `s`. */
  function Count(b: byte, s: Bytes): nat {
    if s == [] then 0 else Count(b, s[..|s| - 1]) + (if s[|s| - 1] == b then 1 else 0)
  }

  lemma {:induction false} CountAppend(b: byte, s: Bytes, t: Bytes)
    ensures Count(b, s + t) == Count(b, s) + Count(b, t)
  {
    if t == [] {
      assert s + t == s;
    } else {
      assert (s + t)[..|s + t| - 1] == s + t[..|t| - 1];
      CountAppend(b, s, t[..|t| - 1]);
    }
  }

  /**
   * When escaping never yields '&', the query has one '&' per parameter
   * visited: each "key=value&" is one parameter.
   */
  lemma {:induction false} QueryPairsCount(order: seq<GoString>, params: map<GoString, GoString>, escape: GoString -> Bytes)
    requires forall i :: 0 <= i < |order| ==> order[i] in params
    requires forall t :: Count(AMPERSAND, escape(t)) == 0
    ensures Count(AMPERSAND, QueryPairs(order, params, escape)) == |order|
  {
    if order != [] {
      var key := order[|order| - 1];
      var front := QueryPairs(order[..|order| - 1], params, escape);
      QueryPairsCount(order[..|order| - 1], params, escape);
      var pair := Pair(key, params[key], escape);
      CountAppend(AMPERSAND, front, pair);
      CountAppend(AMPERSAND, escape(key), [EQUALS]);
      CountAppend(AMPERSAND, escape(key) + [EQUALS], escape(params[key]));
      CountAppend(AMPERSAND, escape(key) + [EQUALS] + escape(params[key]), [AMPERSAND]);
      assert Count(AMPERSAND, [EQUALS]) == 0 && Count(AMPERSAND, [AMPERSAND]) == 1;
    }
  }

  /** Visiting one more parameter appends its "key=value&" to the URL. */
  lemma AnnounceUrlStep(url: Bytes, order: seq<GoString>, params: map<GoString, GoString>, escape: GoString -> Bytes, key: GoString)
    requires |url| > 0
    requires forall i :: 0 <= i < |order| ==> order[i] in params
    requires key in params
    ensures forall i :: 0 <= i < |order + [key]| ==> (order + [key])[i] in params
    ensures AnnounceUrl(url, order + [key], params, escape)
      == AnnounceUrl(url, order, params, escape) + Pair(key, params[key], escape)
  {
    assert (order + [key])[..|order|] == order;
  }

  /** Adding a key not yet visited keeps the visited keys free of repeats. */
  lemma DistinctStep(order: seq<GoString>, key: GoString)
    requires Keys.Distinct(order) && key !in order
    ensures Keys.Distinct(order + [key])
  {
    var r := order + [key];
    forall i, j | 0 <= i < j < |r| ensures r[i] != r[j] {
      if j < |order| {
        assert r[i] == order[i] && r[j] == order[j];
      } else {
        assert r[i] == order[i];
      }
    }
  }

  /**
   * `createURL`. An empty URL has no last byte, and the source panics: None.
   * Otherwise the result is the URL with its trailing '/', '?', and
   * "key=value&" for every parameter once, in the order the map happened to
   * be iterated, returned as `order`.
   */
  method CreateURL(urlstring: Bytes, params: map<GoString, GoString>, escape: GoString -> Bytes)
    returns (r: Option<Bytes>, ghost order: seq<GoString>)
    ensures r.Some? <==> |urlstring| > 0
    ensures r.Some? ==> Keys.Distinct(order) && |order| == |params|
    ensures r.Some? ==> forall k :: k in order <==> k in params
    ensures r.Some? ==> (forall i :: 0 <= i < |order| ==> order[i] in params) && r.value == AnnounceUrl(urlstring, order, params, escape)
  {
    order := [];
    if |urlstring| == 0 {
      return None, order;
    }
    var url := urlstring;
    if url[|url| - 1] != SLASH {
      url := url + [SLASH];
    }
    url := url + [QUESTION];
    assert url == AnnounceUrl(urlstring, [], params, escape);
    var remaining := params.Keys;
    while remaining != {}
      invariant remaining <= params.Keys
      invariant forall k :: k in order <==> k in params && k !in remaining
      invariant Keys.Distinct(order) && |order| + |remaining| == |params|
      invariant forall i :: 0 <= i < |order| ==> order[i] in params
      invariant url == AnnounceUrl(urlstring, order, params, escape)
      decreases remaining
    {
      var key :| key in remaining;
      var value := params[key];
      url := url + (escape(key) + [EQUALS] + escape(value) + [AMPERSAND]);
      AnnounceUrlStep(urlstring, order, params, escape, key);
      DistinctStep(order, key);
      order := order + [key];
      remaining := remaining - {key};
    }
    return Some(url), order;
  }

  /** The address text of one compact peer entry: the four address bytes in decimal, dot-separated, then ':' and the port. */
  function PeerAddress(g: Bytes): Bytes
    requires |g| == 6
  {
    Dotted([Itoa(g[0] as int), Itoa(g[1] as int), Itoa(g[2] as int), Itoa(g[3] as int)]) + [COLON] + Itoa(Port(g))
  }

  /** The texts of `fields` separated by '.'. */
  function Dotted(fields: seq<Bytes>): Bytes {
    if fields == [] then []
    else if |fields| == 1 then fields[0]
    else Dotted(fields[..|fields| - 1]) + [DOT] + fields[|fields| - 1]
  }

  lemma DottedFour(a: Bytes, b: Bytes, c: Bytes, d: Bytes)
    ensures Dotted([a, b, c, d]) == a + [DOT] + b + [DOT] + c + [DOT] + d
  {
    assert [a, b][..1] == [a];
    assert Dotted([a, b]) == a + [DOT] + b;
    assert [a, b, c][..2] == [a, b];
    assert Dotted([a, b, c]) == Dotted([a, b]) + [DOT] + c;
    assert [a, b, c, d][..3] == [a, b, c];
    assert Dotted([a, b, c, d]) == Dotted([a, b, c]) + [DOT] + d;
  }

  /** The port of a compact peer entry: `int(g[4])<<8 | int(g[5])`, which is `g[4]·256 + g[5]` since `g[5] < 256`. */
  function Port(g: Bytes): (r: nat)
    requires |g| == 6
    ensures r < 0x1_0000
  {
    g[4] as int * 0x100 + g[5] as int
  }

  /** `sep` does not occur in `s`. */
  predicate Free(sep: byte, s: Bytes) {
    forall i :: 0 <= i < |s| ==> s[i] != sep
  }

  /** The text before the first `sep` and the text after it; None when `sep` does not occur. */
  function SplitAt(s: Bytes, sep: byte): Option<(Bytes, Bytes)> {
    if s == [] then None
    else if s[0] == sep then Some(([], s[1..]))
    else
      match SplitAt(s[1..], sep)
      case None => None
      case Some((a, b)) => Some(([s[0]] + a, b))
  }

  lemma {:induction false} SplitAtFirst(p: Bytes, sep: byte, rest: Bytes)
    requires Free(sep, p)
    ensures SplitAt(p + [sep] + rest, sep) == Some((p, rest))
  {
    if p != [] {
      assert (p + [sep] + rest)[1..] == p[1..] + [sep] + rest;
      SplitAtFirst(p[1..], sep, rest);
      assert [p[0]] + p[1..] == p;
    }
  }

  /** A byte of an address entry read back from its decimal text. */
  function ByteOf(text: Bytes): Option<byte> {
    match Atoi(text)
    case Some(n) => if 0 <= n < 0x100 then Some(n as int as byte) else None
    case None => None
  }

  /** The five decimal texts of an address text: three ended by '.', one by ':', and the rest. */
  function AddressFields(text: Bytes): Option<(Bytes, Bytes, Bytes, Bytes, Bytes)> {
    match SplitAt(text, DOT)
    case None => None
    case Some((a, rest1)) =>
      match SplitAt(rest1, DOT)
      case None => None
      case Some((b, rest2)) =>
        match SplitAt(rest2, DOT)
        case None => None
        case Some((c, rest3)) =>
          match SplitAt(rest3, COLON)
          case None => None
          case Some((d, portText)) => Some((a, b, c, d, portText))
  }

  /** The six bytes of a compact peer entry read back from its address text. */
  function ParsePeerAddress(text: Bytes): Option<Bytes> {
    match AddressFields(text)
    case None => None
    case Some((a, b, c, d, portText)) =>
      match (ByteOf(a), ByteOf(b), ByteOf(c), ByteOf(d), Atoi(portText))
      case (Some(x0), Some(x1), Some(x2), Some(x3), Some(p)) =>
        if 0 <= p < 0x1_0000 then Some([x0, x1, x2, x3, (p as int / 0x100) as byte, (p as int % 0x100) as byte])
        else None
      case _ => None
  }

  /** The decimal text of a byte holds neither a '.' nor a ':' and reads back as the byte. */
  lemma ByteText(x: byte)
    ensures Free(DOT, Itoa(x as int)) && Free(COLON, Itoa(x as int))
    ensures ByteOf(Itoa(x as int)) == Some(x)
  {
    NatDigitsAllDigits(x as int);
    AtoiItoa(x as int as int64);
  }

  /** Fields without separators in them are split back apart at the separators. */
  lemma AddressFieldsOf(t0: Bytes, t1: Bytes, t2: Bytes, t3: Bytes, tp: Bytes)
    requires Free(DOT, t0) && Free(DOT, t1) && Free(DOT, t2) && Free(COLON, t3)
    ensures AddressFields(Dotted([t0, t1, t2, t3]) + [COLON] + tp) == Some((t0, t1, t2, t3, tp))
  {
    var rest3 := t3 + [COLON] + tp;
    var rest2 := t2 + [DOT] + rest3;
    var rest1 := t1 + [DOT] + rest2;
    DottedFour(t0, t1, t2, t3);
    assert Dotted([t0, t1, t2, t3]) + [COLON] + tp == t0 + [DOT] + rest1;
    SplitAtFirst(t0, DOT, rest1);
    SplitAtFirst(t1, DOT, rest2);
    SplitAtFirst(t2, DOT, rest3);
    SplitAtFirst(t3, COLON, tp);
  }

  /** Each address text reads back as the six bytes it was printed from, so distinct entries print differently. */
  lemma ParsePeerAddressRoundTrip(g: Bytes)
    requires |g| == 6
    ensures ParsePeerAddress(PeerAddress(g)) == Some(g)
  {
    ByteText(g[0]);
    ByteText(g[1]);
    ByteText(g[2]);
    ByteText(g[3]);
    AtoiItoa(Port(g) as int64);
    AddressFieldsOf(Itoa(g[0] as int), Itoa(g[1] as int), Itoa(g[2] as int), Itoa(g[3] as int), Itoa(Port(g)));
    assert Port(g) / 0x100 == g[4] as int && Port(g) % 0x100 == g[5] as int;
    assert g == [g[0], g[1], g[2], g[3], g[4], g[5]];
  }

  /** The address text of the entry at `i`, in the order the loop appends its parts. */
  lemma PeerAddressAt(s: Bytes, i: int)
    requires 0 <= i && i + 6 <= |s|
    ensures PeerAddress(s[i..i + 6]) == [] + (Itoa(s[i] as int) + [DOT]) + (Itoa(s[i + 1] as int) + [DOT])
      + (Itoa(s[i + 2] as int) + [DOT]) + (Itoa(s[i + 3] as int) + [COLON]) + Itoa(s[i + 4] as int * 0x100 + s[i + 5] as int)
  {
    var g := s[i..i + 6];
    DottedFour(Itoa(g[0] as int), Itoa(g[1] as int), Itoa(g[2] as int), Itoa(g[3] as int));
    assert g[0] == s[i] && g[1] == s[i + 1] && g[2] == s[i + 2];
    assert g[3] == s[i + 3] && g[4] == s[i + 4] && g[5] == s[i + 5];
  }

  /** The body of the compact peer loop: the address text of the entry at `i`, built part by part. */
  method FormatPeer(peersString: Bytes, i: int) returns (result: Bytes)
    requires 0 <= i && i + 6 <= |peersString|
    ensures result == PeerAddress(peersString[i..i + 6])
  {
    result := [];
    result := result + (Itoa(peersString[i] as int) + [DOT]);
    result := result + (Itoa(peersString[i + 1] as int) + [DOT]);
    result := result + (Itoa(peersString[i + 2] as int) + [DOT]);
    result := result + (Itoa(peersString[i + 3] as int) + [COLON]);
    result := result + Itoa(peersString[i + 4] as int * 0x100 + peersString[i + 5] as int);
    PeerAddressAt(peersString, i);
  }

  /** `peers` holds the address texts of the first `|peers|` entries of `s`, in order. */
  predicate PeersUpTo(s: Bytes, peers: seq<Bytes>) {
    forall k {:trigger peers[k]} :: 0 <= k < |peers| ==> 6 * k + 6 <= |s| && peers[k] == PeerAddress(s[6 * k..6 * k + 6])
  }

  lemma PeersStep(s: Bytes, peers: seq<Bytes>, i: int, result: Bytes)
    requires PeersUpTo(s, peers) && i == 6 * |peers| && i + 6 <= |s|
    requires result == PeerAddress(s[i..i + 6])
    ensures PeersUpTo(s, peers + [result])
  {
    var r := peers + [result];
    forall k | 0 <= k < |r| ensures 6 * k + 6 <= |s| && r[k] == PeerAddress(s[6 * k..6 * k + 6]) {
      if k < |peers| {
        assert r[k] == peers[k];
      }
    }
  }

  /**
   * The compact peer loop: each six bytes of `peersString` become an address
   * text, in order. The source reads past the end, and so panics, when the
   * length is not a multiple of six: that is None here.
   */
  method ParsePeers(peersString: Bytes) returns (r: Option<seq<Bytes>>)
    ensures r.Some? <==> |peersString| % 6 == 0
    ensures r.Some? ==> |r.value| == |peersString| / 6
    ensures r.Some? ==> forall k :: 0 <= k < |r.value| ==> r.value[k] == PeerAddress(peersString[6 * k..6 * k + 6])
  {
    var peers: seq<Bytes> := [];
    var i := 0;
    while i < |peersString|
      invariant i <= |peersString| && i == 6 * |peers|
      invariant PeersUpTo(peersString, peers)
    {
      if i + 6 > |peersString| {
        return None;
      }
      var result := FormatPeer(peersString, i);
      PeersStep(peersString, peers, i, result);
      peers := peers + [result];
      i := i + 6;
    }
    return Some(peers);
  }
}
