/**
 * The bytes the client writes on a peer connection: the 68-byte handshake,
 * the `interested` message and the block `request` message, and the
 * big-endian `int32` fields inside a request.
 *
 * After the handshake every peer-wire message is framed by a 4-byte
 * big-endian length prefix that counts the bytes after it. `Frame` builds
 * such a message and `Unframe` reads one back; `RequestAsWritten` and
 * `INTERESTED_AS_WRITTEN` are the bytes the client actually sends, whose
 * prefixes disagree with that framing.
 */
module PeerWire {
  import opened Common

  const TWO_32: int := 0x1_0000_0000

  /** The bytes of an ASCII text. */
  function Ascii(s: string): (r: Bytes)
    requires forall i :: 0 <= i < |s| ==> s[i] as int < 0x80
    ensures |r| == |s|
    ensures forall i :: 0 <= i < |s| ==> r[i] as int == s[i] as int
  {
    seq(|s|, i requires 0 <= i < |s| => s[i] as int as byte)
  }

  /** The protocol name the handshake announces. */
  const PROTOCOL: Bytes := Ascii("BitTorrent protocol")

  /** The eight reserved handshake bytes, all zero. */
  const RESERVED: Bytes := [0, 0, 0, 0, 0, 0, 0, 0]

  /** The fixed peer id the client presents, in the handshake and to the tracker. */
  const PEER_ID: Bytes := Ascii("00112233445566778899")

  const INTERESTED_ID: byte := 2
  const REQUEST_ID: byte := 6

  /** Go's conversion `int32(x)` of a wider integer: keep the low 32 bits, two's complement. */
  function Wrap32(x: int): (r: int32)
    ensures (r as int - x) % TWO_32 == 0
    ensures MIN_INT32 <= x <= MAX_INT32 ==> r as int == x
  {
    var u := x % TWO_32;
    if u > MAX_INT32 then (u - TWO_32) as int32 else u as int32
  }

  /** Four bytes read as an unsigned big-endian number. */
  function Uint32Of(b: Bytes): (r: nat)
    requires |b| == 4
    ensures r < TWO_32
  {
    ((b[0] as int * 0x100 + b[1] as int) * 0x100 + b[2] as int) * 0x100 + b[3] as int
  }

  /** Four bytes read as a big-endian two's-complement `int32`. */
  function Int32Of(b: Bytes): int32
    requires |b| == 4
  {
    var u := Uint32Of(b);
    if u > MAX_INT32 then (u - TWO_32) as int32 else u as int32
  }

  /**
   * `intToBytes`: `binary.Write` of an `int32` in big-endian order, four
   * bytes whose unsigned value is `num` modulo 2^32.
   */
  function IntToBytes(num: int32): (r: Bytes)
    ensures |r| == 4
  {
    var u := if num < 0 then num as int + TWO_32 else num as int;
    [(u / 0x100_0000) as byte, (u / 0x1_0000 % 0x100) as byte, (u / 0x100 % 0x100) as byte, (u % 0x100) as byte]
  }

  /** The four bytes of `IntToBytes(num)` are the two's-complement form of `num`, most significant first. */
  lemma IntToBytesValue(num: int32)
    ensures Uint32Of(IntToBytes(num)) == (num as int) % TWO_32
    ensures num >= 0 ==> IntToBytes(num)[0] < 0x80
    ensures num < 0 ==> IntToBytes(num)[0] >= 0x80
  {
    var u := if num < 0 then num as int + TWO_32 else num as int;
    assert u == (num as int) % TWO_32;
    var q1 := u / 0x100;
    var q2 := u / 0x1_0000;
    var q3 := u / 0x100_0000;
    assert q2 == q1 / 0x100 && q3 == q2 / 0x100;
    assert u == q1 * 0x100 + u % 0x100;
    assert q1 == q2 * 0x100 + q1 % 0x100;
    assert q2 == q3 * 0x100 + q2 % 0x100;
  }

  /** Reading the four bytes back gives the number: `IntToBytes` loses nothing. */
  lemma IntToBytesRoundTrip(num: int32)
    ensures Int32Of(IntToBytes(num)) == num
  {
    IntToBytesValue(num);
    var u := Uint32Of(IntToBytes(num));
    if num < 0 {
      assert u == num as int + TWO_32;
    } else {
      assert u == num as int;
    }
  }

  /** `IntToBytes` undoes `Int32Of`: every four bytes are the encoding of exactly one `int32`. */
  lemma Int32OfRoundTrip(b: Bytes)
    requires |b| == 4
    ensures IntToBytes(Int32Of(b)) == b
  {
    var n := Int32Of(b);
    var u := Uint32Of(b);
    assert u == (n as int) % TWO_32;
    var q2 := b[0] as int * 0x100 + b[1] as int;
    var q1 := q2 * 0x100 + b[2] as int;
    assert u / 0x100 == q1 && u % 0x100 == b[3] as int;
    assert u / 0x1_0000 == q2;
    assert u / 0x100_0000 == b[0] as int;
    assert q1 % 0x100 == b[2] as int && q2 % 0x100 == b[1] as int;
    var r := IntToBytes(n);
    assert r == b;
  }

  /** The handshake for `infoHash`: 19, the protocol name, the reserved bytes, the info hash and the peer id. */
  function Handshake(infoHash: Bytes): Bytes
    requires |infoHash| == 20
  {
    [19] + PROTOCOL + RESERVED + infoHash + PEER_ID
  }

  /** The handshake is 68 bytes, each field at its fixed offset. */
  lemma HandshakeLayout(infoHash: Bytes)
    requires |infoHash| == 20
    ensures |Handshake(infoHash)| == 68
    ensures Handshake(infoHash)[0] == 19 && Handshake(infoHash)[0] as int == |PROTOCOL|
    ensures Handshake(infoHash)[1..20] == PROTOCOL
    ensures Handshake(infoHash)[20..28] == RESERVED
    ensures Handshake(infoHash)[28..48] == infoHash
    ensures Handshake(infoHash)[48..68] == PEER_ID
  {
    var h := Handshake(infoHash);
    assert h == [19] + PROTOCOL + RESERVED + infoHash + PEER_ID;
    assert h[1..20] == PROTOCOL;
    assert h[20..28] == RESERVED;
    assert h[28..48] == infoHash;
    assert h[48..68] == PEER_ID;
  }

  /** Two handshakes are the same bytes exactly when they carry the same info hash. */
  lemma HandshakeInjective(h1: Bytes, h2: Bytes)
    requires |h1| == 20 && |h2| == 20
    ensures Handshake(h1) == Handshake(h2) <==> h1 == h2
  {
    HandshakeLayout(h1);
    HandshakeLayout(h2);
  }

  /** The handshake message, built by appending one field after another. */
  method BuildHandshake(infoHash: Bytes) returns (message: Bytes)
    requires |infoHash| == 20
    ensures message == Handshake(infoHash)
  {
    message := [];
    message := message + [19];
    message := message + PROTOCOL;
    message := message + RESERVED;
    message := message + infoHash;
    message := message + PEER_ID;
  }

  /**
   * `conn.Read(message)`: the `received` bytes overwrite the front of the
   * buffer, and the rest of the buffer keeps what it held.
   */
  function ReadInto(buffer: Bytes, received: Bytes): (r: Bytes)
    requires |received| <= |buffer|
    ensures |r| == |buffer|
    ensures r[..|received|] == received && r[|received|..] == buffer[|received|..]
  {
    received + buffer[|received|..]
  }

  /** The peer id the client reports: bytes 48 to 67 of the handshake buffer after the read. */
  function ReportedPeerId(buffer: Bytes): (r: Bytes)
    requires |buffer| == 68
    ensures |r| == 20
  {
    buffer[48..68]
  }

  /**
   * A full 68-byte response reports the id the remote peer sent; a response
   * of at most 48 bytes leaves the client's own id in place, and that is what
   * it reports.
   */
  lemma ReportedPeerIdAfterRead(infoHash: Bytes, received: Bytes)
    requires |infoHash| == 20 && |received| <= 68
    ensures |received| == 68 ==> ReportedPeerId(ReadInto(Handshake(infoHash), received)) == received[48..68]
    ensures |received| <= 48 ==> ReportedPeerId(ReadInto(Handshake(infoHash), received)) == PEER_ID
  {
    HandshakeLayout(infoHash);
    var b := ReadInto(Handshake(infoHash), received);
    if |received| <= 48 {
      assert b[48..68] == Handshake(infoHash)[|received|..][48 - |received|..68 - |received|];
    }
  }

  /** The length a framed message declares: its first four bytes, big-endian. */
  function DeclaredLength(msg: Bytes): nat
    requires |msg| >= 4
  {
    Uint32Of(msg[..4])
  }

  /** The length prefix counts exactly the bytes that follow it. */
  predicate Framed(msg: Bytes) {
    |msg| >= 4 && DeclaredLength(msg) == |msg| - 4
  }

  /** A message with identifier `id` and `payload`, preceded by the length of the two. */
  function Frame(id: byte, payload: Bytes): (r: Bytes)
    requires |payload| < MAX_INT32
    ensures Framed(r)
    ensures |r| == 5 + |payload| && r[4] == id && r[5..] == payload
  {
    var n := (|payload| + 1) as int32;
    var prefix := IntToBytes(n);
    IntToBytesValue(n);
    var r := prefix + [id] + payload;
    assert Uint32Of(prefix) == |payload| + 1;
    assert r[..4] == prefix && r[4] == id && r[5..] == payload;
    r
  }

  /** The identifier and payload of a framed message; None for anything the prefix does not describe. */
  function Unframe(msg: Bytes): Option<(byte, Bytes)> {
    if Framed(msg) && |msg| >= 5 then Some((msg[4], msg[5..])) else None
  }

  /** A receiver that honours the length prefix gets back the identifier and the payload that were framed. */
  lemma {:induction false} UnframeFrame(id: byte, payload: Bytes)
    requires |payload| < MAX_INT32
    ensures Unframe(Frame(id, payload)) == Some((id, payload))
  {
  }

  /** Framing is undone by `Unframe`: a message that unframes is the frame of its parts. */
  lemma FrameUnframe(msg: Bytes)
    requires Unframe(msg).Some? && |msg| - 4 <= MAX_INT32
    ensures |Unframe(msg).value.1| < MAX_INT32
    ensures Frame(Unframe(msg).value.0, Unframe(msg).value.1) == msg
  {
    var n := (|msg| - 4) as int32;
    Int32OfRoundTrip(msg[..4]);
    IntToBytesValue(n);
    assert Int32Of(msg[..4]) == n;
    assert msg == msg[..4] + [msg[4]] + msg[5..];
  }

  /** The `interested` message as the client writes it: a length prefix of 4 before a one-byte message. */
  const INTERESTED_AS_WRITTEN: Bytes := [0, 0, 0, 4, INTERESTED_ID]

  /** The `interested` message with the length its framing requires. */
  function Interested(): (r: Bytes)
    ensures Unframe(r) == Some((INTERESTED_ID, []))
  {
    UnframeFrame(INTERESTED_ID, []);
    Frame(INTERESTED_ID, [])
  }

  /**
   * The written `interested` message declares 4 bytes after its prefix but
   * carries 1, so a receiver honouring the prefix cannot read it; the framed
   * message is `0, 0, 0, 1, 2`.
   */
  lemma InterestedPrefix()
    ensures DeclaredLength(INTERESTED_AS_WRITTEN) == 4 && |INTERESTED_AS_WRITTEN| - 4 == 1
    ensures Unframe(INTERESTED_AS_WRITTEN) == None
    ensures Interested() == [0, 0, 0, 1, INTERESTED_ID]
  {
    assert INTERESTED_AS_WRITTEN[..4] == [0, 0, 0, 4];
    IntToBytesValue(1);
    assert IntToBytes(1) == [0, 0, 0, 1];
  }

  /** The three fields of a block request. */
  datatype BlockRequest = BlockRequest(index: int32, begin: int32, length: int32)

  /** The `request` message as the client writes it: the prefix `0, 0, 0, 9`, the id 6 and the three fields. */
  function RequestAsWritten(req: BlockRequest): Bytes {
    [0, 0, 0, 9, REQUEST_ID] + IntToBytes(req.index) + IntToBytes(req.begin) + IntToBytes(req.length)
  }

  /** The request message, built by appending each encoded field to the fixed header. */
  method BuildRequest(index: int32, begin: int32, length: int32) returns (data: Bytes)
    ensures data == RequestAsWritten(BlockRequest(index, begin, length))
  {
    data := [0, 0, 0, 9, REQUEST_ID];
    var indexBytes := IntToBytes(index);
    var beginBytes := IntToBytes(begin);
    var lengthBytes := IntToBytes(length);
    data := data + indexBytes;
    data := data + beginBytes;
    data := data + lengthBytes;
  }

  /** The written request is 17 bytes: the header, then the index, begin and length fields, each readable back. */
  lemma RequestAsWrittenLayout(req: BlockRequest)
    ensures |RequestAsWritten(req)| == 17
    ensures RequestAsWritten(req)[..5] == [0, 0, 0, 9, REQUEST_ID]
    ensures Int32Of(RequestAsWritten(req)[5..9]) == req.index
    ensures Int32Of(RequestAsWritten(req)[9..13]) == req.begin
    ensures Int32Of(RequestAsWritten(req)[13..17]) == req.length
  {
    var m := RequestAsWritten(req);
    assert m[5..9] == IntToBytes(req.index);
    assert m[9..13] == IntToBytes(req.begin);
    assert m[13..17] == IntToBytes(req.length);
    IntToBytesRoundTrip(req.index);
    IntToBytesRoundTrip(req.begin);
    IntToBytesRoundTrip(req.length);
  }

  /**
   * The written request declares 9 bytes after its prefix but carries 13: a
   * receiver honouring the prefix takes a 13-byte message without the length
   * field, and the length field is left to be read as the next prefix.
   */
  lemma RequestPrefix(req: BlockRequest)
    ensures DeclaredLength(RequestAsWritten(req)) == 9 && |RequestAsWritten(req)| - 4 == 13
    ensures Unframe(RequestAsWritten(req)) == None
    ensures Unframe(RequestAsWritten(req)[..13]) == Some((REQUEST_ID, IntToBytes(req.index) + IntToBytes(req.begin)))
    ensures RequestAsWritten(req)[13..] == IntToBytes(req.length)
  {
    var m := RequestAsWritten(req);
    assert m[..4] == [0, 0, 0, 9];
    assert m[..13][..4] == [0, 0, 0, 9];
    assert m[..13][5..] == IntToBytes(req.index) + IntToBytes(req.begin);
  }

  /** The request with the length its framing requires: 13 bytes follow the prefix. */
  function Request(req: BlockRequest): (r: Bytes)
    ensures |r| == 17 && DeclaredLength(r) == 13
  {
    Frame(REQUEST_ID, IntToBytes(req.index) + IntToBytes(req.begin) + IntToBytes(req.length))
  }

  /** The fields of a framed request message; None for any other message. */
  function ParseRequest(msg: Bytes): Option<BlockRequest> {
    match Unframe(msg)
    case Some((id, payload)) =>
      if id == REQUEST_ID && |payload| == 12 then
        Some(BlockRequest(Int32Of(payload[..4]), Int32Of(payload[4..8]), Int32Of(payload[8..])))
      else None
    case None => None
  }

  /** A framed message with id 6 and a 12-byte payload reads as the request of its three 4-byte fields. */
  lemma ParseFramedRequest(a: Bytes, b: Bytes, c: Bytes)
    requires |a| == 4 && |b| == 4 && |c| == 4
    ensures ParseRequest(Frame(REQUEST_ID, a + b + c)) == Some(BlockRequest(Int32Of(a), Int32Of(b), Int32Of(c)))
  {
    var payload := a + b + c;
    UnframeFrame(REQUEST_ID, payload);
    assert payload[..4] == a && payload[4..8] == b && payload[8..] == c;
  }

  /** A framed request reads back as the request it was built from, and differs from the written one only in the prefix. */
  lemma RequestRoundTrip(req: BlockRequest)
    ensures ParseRequest(Request(req)) == Some(req)
    ensures Request(req)[4..] == RequestAsWritten(req)[4..]
  {
    ParseFramedRequest(IntToBytes(req.index), IntToBytes(req.begin), IntToBytes(req.length));
    IntToBytesRoundTrip(req.index);
    IntToBytesRoundTrip(req.begin);
    IntToBytesRoundTrip(req.length);
    assert RequestAsWritten(req)[4..] == [REQUEST_ID] + IntToBytes(req.index) + IntToBytes(req.begin) + IntToBytes(req.length);
  }

  /** The written request never reads as a request. */
  lemma RequestAsWrittenUnreadable(req: BlockRequest)
    ensures ParseRequest(RequestAsWritten(req)) == None
  {
    RequestPrefix(req);
  }
}
