# gobittorrent core in Dafny

This project models the pure core of a small BitTorrent client written in Go.

## What is modelled

- **Bencode codec** (`encoderdecoder.go`). Values are modelled as a datatype: 64-bit integers, byte strings, lists, string-keyed dictionaries, and `Other` for any Go value of another dynamic type.
  - Encoding is specified by the ghost function `Bencode.Encoding`. It passes every nested error on, which corrects `encodeDictionary` (see Findings). The code as written is the ghost function `Bencode.EncodingAsWritten`, proved to agree with `Encoding` wherever `Encoding` succeeds.
  - The Go functions are the imperative methods in `Codec`. Each is proved equal to its specification function. `Codec.EncodeDictionary`, `Codec.EncodeList` and so `Codec.Encode` are the corrected versions: an error from a nested dictionary is passed on, where the source's `encodeDictionary` drops it, and the source's `encodeList` then writes the list without that element.
  - Decoding is specified by the functions `Bencode.Decoding`, `IntDecoding`, `StringDecoding`, `ListDecoding` and `DictDecoding`. Each returns the value and the number of bytes consumed, or an error.
  - The laws proved:
    - Decoding an encoding gives back the value and consumes exactly the encoding, whatever follows it.
    - The specified encoding fails exactly on values with a foreign part, at any depth. The code as written fails only when the foreign part is not inside a dictionary; inside one, the dictionary's text is dropped without an error.
    - Whatever decodes can be encoded again. This holds because the model reports an unknown tag as an error; the code as written does not (see `Bencode.Decoding` under Left out).
    - Canonical text (module `Canonical`: minimal decimal numbers, dictionary keys strictly ascending) that decodes is re-encoded to exactly the bytes it was decoded from. Everything the encoder writes is canonical text, and a whole text is canonical and decodes to a value exactly when it is that value's encoding (`Canonical.CanonicalIffEncoding`).
  - Dictionary keys are written in `sort.Strings` order. This is modelled by insertion sort (module `Keys`), which is proved to return the unique strictly ascending enumeration of the keys. So the model does not depend on the order in which Go iterates the map.
  - `strconv.Itoa` and `strconv.Atoi` are modelled in module `Decimal`, including Atoi's acceptance of a sign, of leading zeros and of `-0`, and its `int64` range check.
- **Peer wire messages** (`cmd/mybittorrent/main.go`, module `PeerWire`):
  - the 68-byte handshake;
  - the peer id read from the reused handshake buffer;
  - `intToBytes`, which is big-endian `int32` encoding (proved bijective on 4-byte strings);
  - length-prefixed message framing;
  - the `interested` and `request` messages.
- **Piece and block arithmetic** (module `Pieces`):
  - the number and lengths of pieces;
  - the 16 KiB block requests of one piece and of the whole file;
  - the split of the `pieces` string into 20-byte hashes;
  - `min`.
- **Tracker helpers** (module `Tracker`):
  - `createURL`, with the map's iteration order as a ghost output;
  - the dotted `a.b.c.d:port` text of each 6-byte compact peer entry. It is proved to parse back to the entry.

Go panics modelled as values:
- An index out of range and a failed type assertion become `Err`/`None` results.
- Decoding errors are the datatype `Bencode.DecodeError`.

Go's `int32(x)` conversion wraps modulo 2^32 (`PeerWire.Wrap32`). Go's `int` is taken to be 64 bits wide.

Where the specification and the code differ, the model follows the code:
- `strconv.Atoi` accepts `+5`, `007` and `-0`.
- `decodeString` without a colon reads an empty length and fails.
- A repeated dictionary key keeps the later value.

## Model

| member | source | states |
|---|---|---|
| Bencode.Encoding | encoderdecoder.go:67-98 | a successful encoding is non-empty and never starts with the list terminator 'e' |
| Bencode.EncodingAsWritten | encoderdecoder.go:44-98 | the encoder as written never reports an error for a dictionary, whatever it holds; what it returns instead when a value fails is `Bencode.DictSwallowed` |
| Bencode.DictEncodingAsWritten | encoderdecoder.go:44-66 | the dictionary encoder as written never reports an error |
| Bencode.IntDecoding | encoderdecoder.go:100-119 | a successful integer decode consumes the tag, at least one more byte, and no more than the input |
| Bencode.IntScan | encoderdecoder.go:106-118 | the scan for 'e' yields an integer and ends after the cursor and within the input |
| Bencode.StringDecoding | encoderdecoder.go:120-142 | a successful string decode consumes at least one byte and no more than the input |
| Bencode.StringScan | encoderdecoder.go:127-132 | the colon search yields a string and a byte count within the input |
| Bencode.StringAfter | encoderdecoder.go:134-141 | with the colon fixed, the result is a string ending within the input |
| Bencode.Decoding | encoderdecoder.go:177-206 | a successful decode consumes at least one byte and no more than the input |
| Bencode.ListDecoding | encoderdecoder.go:144-156 | a decoded list ends on the 'e' that closes it, inside the input |
| Bencode.ItemsDecoding | encoderdecoder.go:147-154 | the item loop yields a list and stops just after an 'e' beyond the cursor |
| Bencode.DictDecoding | encoderdecoder.go:158-175 | a decoded dictionary ends on the 'e' that closes it, inside the input |
| Bencode.EntriesDecoding | encoderdecoder.go:161-173 | the entry loop yields a dictionary and stops just after an 'e' beyond the cursor |
| Bencode.EntryDecoding | encoderdecoder.go:162-172 | one key/value turn advances the cursor and stays within the input |
| Bencode.IntRoundTrip | encoderdecoder.go:25-28 | what encodeInt writes ('i', the Itoa text, 'e') is read back by decodeInt as the same integer, consuming exactly those bytes, whatever follows |
| Bencode.StringRoundTrip | encoderdecoder.go:29-31 | what encodeString writes (the length, ':', the bytes) is read back by decodeString as the same string, consuming exactly those bytes, whatever follows |
| Bencode.DecodeEncoded | encoderdecoder.go:177-206 | Decode of any successful encoding gives the value back and consumes exactly the encoding |
| Bencode.ListRoundTrip | encoderdecoder.go:144-156 | items whose encodings concatenate to a body, framed by 'l' and 'e', decode to the list |
| Bencode.DictRoundTrip | encoderdecoder.go:158-175 | entries encoded under any complete key order, framed by 'd' and 'e', decode to the dictionary |
| Bencode.RoundTrip | encoderdecoder.go:67-206 | every bencodable value encodes, and decoding its encoding gives it back and consumes all of it |
| Bencode.EncodingTotal | encoderdecoder.go:67-98 | encoding succeeds exactly on values with no part of an unknown type |
| Bencode.DecodedBencodable | encoderdecoder.go:177-206 | every decoded value is free of foreign parts |
| Bencode.DecodedEncodes | encoderdecoder.go:177-206 | every decoded value can be encoded again without error |
| Bencode.DictErrorSwallowed | encoderdecoder.go:52-61 | the one-entry dictionary `{"a": x}`, with `x` of a type the encoder does not know, encodes as written to empty text with no error, which no decoder accepts, while the corrected encoding reports `UnknownType` |
| Bencode.DictSwallowed | encoderdecoder.go:51-61 | as soon as one value of a dictionary fails to encode as written, the whole dictionary encodes as written to empty text with no error, which does not decode, while the corrected encoding fails; a value that fails only in the corrected encoding, such as the inner dictionary of `{"a": {"b": x}}`, which gives `d1:ae`, is covered by `Bencode.NestedErrorSwallowed` |
| Bencode.AsWrittenAgrees | encoderdecoder.go:32-98 | wherever the corrected encoding succeeds, the code as written produces exactly the same bytes |
| Bencode.NestedErrorSwallowed | encoderdecoder.go:35-39 | nested, the swallowed error vanishes: as written `{"a": {"b": x}}` encodes to `d1:ae` and `[{"a": x}]` to `le` for a foreign x, where the corrected encoding fails |
| Canonical.IntEncodesBack | encoderdecoder.go:100-119 | an integer decoded from minimal decimal text encodes back to exactly the bytes decodeInt consumed |
| Canonical.StringEncodesBack | encoderdecoder.go:120-142 | a string decoded from a length without leading zeros encodes back to exactly the bytes decodeString consumed |
| Canonical.ListEncodesBack | encoderdecoder.go:144-156 | a list of canonical items encodes back to exactly the bytes decodeList consumed |
| Canonical.DictEncodesBack | encoderdecoder.go:158-175 | a dictionary with strictly ascending keys and canonical values encodes back to exactly the bytes decodeDictionary consumed |
| Canonical.CanonicalEncodes | encoderdecoder.go:177-206 | the value Decode reads from canonical text encodes back to exactly the bytes it consumed |
| Canonical.EncodeDecoded | encoderdecoder.go:177-206 | a whole canonical text that decodes is the encoding of its value: encode(decode(s)) == s |
| Canonical.EncodeIntCanonical | encoderdecoder.go:25-28 | every integer encodeInt writes is canonical text |
| Canonical.EncodeStringCanonical | encoderdecoder.go:29-31 | every string encodeString writes is canonical text |
| Canonical.EncodingCanonical | encoderdecoder.go:67-98 | everything Encode writes without an error is canonical text, whatever follows it |
| Canonical.ItemsTextCanonical | encoderdecoder.go:32-43 | the items encodeList writes are canonical text, item after item, up to the list's 'e' |
| Canonical.EntriesTextCanonical | encoderdecoder.go:44-66 | the entries encodeDictionary writes have canonical keys and values, with keys strictly ascending from the last key before them |
| Canonical.CanonicalIffEncoding | encoderdecoder.go:67-98 | a whole text decodes to `v` and is canonical if and only if it is exactly the encoding of `v`, so encode and decode are inverse on exactly the encoder's output |
| Bencode.IntDecodingFirstEnd | encoderdecoder.go:106-118 | the number is the text up to the first 'e'; invalid text is BadNumber, valid text consumes through that 'e' |
| Bencode.IntDecodingUnterminated | encoderdecoder.go:106-113 | with no 'e' after the tag the decode fails with Unterminated |
| Bencode.StringDecodingFirstColon | encoderdecoder.go:127-141 | the length comes from before the first ':' and that many bytes follow it, else BadNumber or StringOverrun |
| Bencode.StringDecodingNoColon | encoderdecoder.go:122-136 | without a ':' the length text is empty and the decode fails with BadNumber |
| Codec.Encode | encoderdecoder.go:67-98 | the dispatch on the dynamic type returns exactly the specified encoding or error |
| Codec.EncodeList | encoderdecoder.go:32-43 | the loop yields 'l', the item encodings in order and 'e', or the first item's error |
| Codec.CollectKeys | encoderdecoder.go:45-48 | the collected keys are exactly the map's keys, each once |
| Codec.EncodeDictionary | encoderdecoder.go:44-66 | the keys are collected, sorted and written with their values as specified, and a nested error is passed on |
| Codec.DecodeInt | encoderdecoder.go:100-119 | the imperative scan for 'e' returns exactly the specified integer decode |
| Codec.DecodeString | encoderdecoder.go:120-142 | the imperative colon search returns exactly the specified string decode |
| Codec.DecodeList | encoderdecoder.go:144-156 | the item loop returns exactly the specified list decode |
| Codec.DecodeDictionary | encoderdecoder.go:158-175 | the entry loop returns exactly the specified dictionary decode |
| Codec.Decode | encoderdecoder.go:177-206 | the dispatch on the first byte returns exactly the specified decode |
| Keys.LessIrreflexive | encoderdecoder.go:49 | no key sorts before itself |
| Keys.LessAsymmetric | encoderdecoder.go:49 | two keys never sort before each other |
| Keys.LessTransitive | encoderdecoder.go:49 | the bytewise key order is transitive |
| Keys.LessTotal | encoderdecoder.go:49 | of two different keys one sorts before the other |
| Keys.InsertSpec | encoderdecoder.go:49 | inserting into a sorted list keeps it sorted and adds exactly that key |
| Keys.SortSpec | encoderdecoder.go:49 | the sort returns a sorted permutation of its input |
| Keys.SortedDistinct | encoderdecoder.go:49 | a sorted list of distinct keys is strictly ascending |
| Keys.StrictlySortedUnique | encoderdecoder.go:49 | two strictly ascending lists with the same members are equal |
| Keys.EnumerationSpec | encoderdecoder.go:45-48 | the reference enumeration of a key set lists each key exactly once |
| Keys.AscendingSpec | encoderdecoder.go:45-49 | the ascending enumeration is strictly sorted and has exactly the set's members |
| Keys.SortCanonical | encoderdecoder.go:45-49 | sorting the keys gathered in any iteration order gives the same ascending enumeration |
| Decimal.Itoa | encoderdecoder.go:26 | the text is non-empty and starts with a digit, or with '-' for a negative number |
| Decimal.ItoaText | encoderdecoder.go:26 | the text consists of digits and '-' only, so it holds no 'e' or ':' |
| Decimal.ItoaCanonical | encoderdecoder.go:26 | Itoa writes no '+', no leading zero and no "-0" |
| Decimal.AtoiItoa | encoderdecoder.go:114 | Atoi (sign, digits, 64-bit range check) reads back the Itoa text of every 64-bit integer |
| Decimal.ItoaAtoi | encoderdecoder.go:136 | canonical decimal text that Atoi accepts is exactly what Itoa writes for the value Atoi reads |
| PeerWire.Wrap32 | cmd/mybittorrent/main.go:321-323 | the int32 conversion agrees with its argument modulo 2^32 and is the identity in range |
| PeerWire.IntToBytes | cmd/mybittorrent/main.go:570-578 | the encoding of an int32 is 4 bytes long |
| PeerWire.IntToBytesValue | cmd/mybittorrent/main.go:570-578 | the 4 bytes read big-endian are the number modulo 2^32, and the top bit of the first is the sign |
| PeerWire.IntToBytesRoundTrip | cmd/mybittorrent/main.go:570-578 | every int32 is read back from its 4 bytes |
| PeerWire.Int32OfRoundTrip | cmd/mybittorrent/main.go:570-578 | every 4-byte string is the encoding of some int32, so the encoding is a bijection |
| PeerWire.HandshakeLayout | cmd/mybittorrent/main.go:69-74 | Handshake is 68 bytes: 19, the protocol name, 8 zero bytes, the info hash and the peer id at fixed offsets |
| PeerWire.HandshakeInjective | cmd/mybittorrent/main.go:69-74 | different info hashes give different handshakes |
| PeerWire.BuildHandshake | cmd/mybittorrent/main.go:240-245 | the successive appends (the same at 69-74) build exactly the specified handshake |
| PeerWire.ReadInto | cmd/mybittorrent/main.go:87 | a read overwrites the front of the reused buffer and keeps the rest |
| PeerWire.ReportedPeerIdAfterRead | cmd/mybittorrent/main.go:87-94 | ReportedPeerId, the slice 48..68 of the buffer, is the peer's id after a full 68-byte reply and our own id after a read of 48 bytes or fewer |
| PeerWire.Frame | cmd/mybittorrent/main.go:320-327 | a framed message declares its true length and carries the id and the payload |
| PeerWire.UnframeFrame | cmd/mybittorrent/main.go:320-327 | unframing a framed message gives back its id and payload |
| PeerWire.FrameUnframe | cmd/mybittorrent/main.go:320-327 | every well-framed message is the frame of what it unframes to |
| PeerWire.Interested | cmd/mybittorrent/main.go:285 | the interested message unframes to id 2 with an empty payload |
| PeerWire.InterestedPrefix | cmd/mybittorrent/main.go:285 | the bytes as written declare 4 payload bytes but carry 1, so they do not unframe |
| PeerWire.BuildRequest | cmd/mybittorrent/main.go:512-519 | the appends (the same at 320-327) build the request bytes as written: prefix 9, id 6, then index, begin and length |
| PeerWire.RequestAsWrittenLayout | cmd/mybittorrent/main.go:320-327 | RequestAsWritten is 17 bytes, and index, begin and length are read back from their slots |
| PeerWire.RequestPrefix | cmd/mybittorrent/main.go:320 | the request as written declares 9 bytes but carries 13, so a reader sees id 6 with index and begin, and the length bytes spill over |
| PeerWire.Request | cmd/mybittorrent/main.go:320-327 | the corrected request is 17 bytes and declares 13 |
| PeerWire.RequestRoundTrip | cmd/mybittorrent/main.go:320-327 | a reader recovers the request from the corrected bytes, which differ from the bytes as written only in the prefix |
| PeerWire.RequestAsWrittenUnreadable | cmd/mybittorrent/main.go:320 | no request as written is read back as a request |
| Pieces.Min | cmd/mybittorrent/main.go:564-569 | the result is one of the arguments and no greater than either |
| Pieces.CeilDivSpec | cmd/mybittorrent/main.go:304 | the rounded-up quotient is the least count of units that covers the total |
| Pieces.Parts | cmd/mybittorrent/main.go:304-317 | a positive total splits into rounded-up-quotient many parts |
| Pieces.PartsSpec | cmd/mybittorrent/main.go:308-317 | every part but the last is full, the last is in (0, unit], and the parts sum to the total |
| Pieces.PiecesSpec | cmd/mybittorrent/main.go:304-307 | PieceCount pieces cover the file and one fewer do not; PieceLength is the piece length for all but the last piece, and the last is in (0, piece length]; the lengths add up to the file length |
| Pieces.BlockPlanTiles | cmd/mybittorrent/main.go:308-323 | the BlockPlan requests of a piece carry its index, begin at 16384·i, are full but the last, and end exactly at the piece length |
| Pieces.BlockLengths | cmd/mybittorrent/main.go:311-323 | for any piece number and positive piece length, the BlockPlan lengths are exactly the piece's 16 KiB parts and add up to the piece length |
| Pieces.BlockFields | cmd/mybittorrent/main.go:321-323 | in range, the int32 fields of block i are the piece number, 16384·i and the block length |
| Pieces.BlockRequests | cmd/mybittorrent/main.go:311-327 | the block loop issues exactly the specified block plan |
| Pieces.PieceRequests | cmd/mybittorrent/main.go:301-327 | downloading one piece requests the block plan of that piece's true length |
| Pieces.FileRequests | cmd/mybittorrent/main.go:495-519 | the whole-file loop, which narrows the piece length at the last piece, issues the specified file plan |
| Pieces.PieceTotal | cmd/mybittorrent/main.go:495-519 | the blocks requested for piece k add up to that piece's length |
| Pieces.FilePlanCovers | cmd/mybittorrent/main.go:495-519 | the blocks requested over the file add up piece by piece to the piece lengths, and in total to the file length |
| Pieces.SplitPieceHashes | cmd/mybittorrent/main.go:269-273 | a pieces string splits exactly when its length is a multiple of 20, into its consecutive 20-byte slices |
| Pieces.HashesConcat | cmd/mybittorrent/main.go:269-273 | the hashes concatenate back to the pieces string |
| Tracker.WithSlashSpec | cmd/mybittorrent/main.go:23-25 | the URL is kept and ends in exactly one added or existing '/' |
| Tracker.QueryPairsCount | cmd/mybittorrent/main.go:27-30 | the query holds one '&' per parameter when the escaping never produces '&' |
| Tracker.AnnounceUrlStep | cmd/mybittorrent/main.go:27-29 | each loop turn appends key=value& for one more parameter |
| Tracker.CreateURL | cmd/mybittorrent/main.go:22-33 | the URL with '/', '?' and one escaped pair per parameter, each parameter once in some order; an empty URL fails |
| Tracker.Port | cmd/mybittorrent/main.go:142 | the port from the last two bytes is below 65536 |
| Tracker.ParsePeerAddressRoundTrip | cmd/mybittorrent/main.go:137-142 | PeerAddress, the dotted address text of a 6-byte peer entry, parses back to the entry |
| Tracker.PeerAddressAt | cmd/mybittorrent/main.go:137-142 | the address of the entry at i is the four decimal bytes with dots, a colon and the port |
| Tracker.FormatPeer | cmd/mybittorrent/main.go:137-142 | the successive appends build the address text of the entry at i |
| Tracker.ParsePeers | cmd/mybittorrent/main.go:136-144 | the peers string parses exactly when its length is a multiple of 6, into the addresses of its consecutive 6-byte entries |

## Left out

- Network I/O is not modelled: the tracker HTTP request, `net.Dial`, and the socket writes and reads. Messages are modelled as the bytes that would be written.
- File and process I/O is not modelled: `os.ReadFile`, `os.OpenFile`, writing pieces out, argument parsing, printing and hex printing.
- `TorrentDecode` is not modelled. It reads a file, then calls `Decode` and makes a type assertion.
- The helper script `test.py` is not modelled.
- `sha1.Sum` is not modelled. The info hash is an input of `PeerWire.Handshake`.
- `url.QueryEscape` is not modelled. It is the `escape` parameter of `Tracker.CreateURL`.
- Go's randomized map iteration order is not modelled:
  - `Tracker.CreateURL` returns the order it used as a ghost output.
  - `Codec.CollectKeys` may return any order, and sorting removes the difference.
- `math.Ceil` over `float64` is modelled as exact integer ceiling division. Rounding of lengths beyond 2^53 is not modelled.
- The block read loops (main.go 335-358 and 527-552) are left out, as is the 32 KiB buffer `math.Pow(2, 15)` they read into. Their behaviour depends on how TCP splits the stream. They also have two defects that the model does not reproduce:
  - they strip a 13-byte header only from the first read of each block;
  - they assume every read holds exactly one message.
- The received pieces are never checked against their hashes in the source, so there is nothing to model there.
- The handshake reply is not validated. The source checks neither its protocol name nor its info hash, and the model does not either.
- Bencode.Decoding: on a first byte that starts no value, the source returns nil, position -1 and no error (encoderdecoder.go:205). The model reports `UnknownTag` instead. In the source the list and dictionary loops then step the cursor back one byte and carry on:
  - `li1e?e` decodes to `[1, nil]`, consuming 4 bytes, with no error: after `i1e` the cursor moves from 4 back to 3, which holds the closing 'e';
  - `d1:e?e` decodes to `{"e": nil}` with no error, by the same steps;
  - `l?e` recurses into the same list again until the stack overflows;
  - `l1:a?e` loops for ever and its list keeps growing.
- Bencode.DecodedBencodable: fails for the code as written, which can decode values holding nil (`li1e?e`). It holds only because the model reports `UnknownTag`.
- Bencode.DecodedEncodes: fails for the code as written, for the same reason. `Encode` rejects `[1, nil]` with an error, and writes `{"e": nil}` as empty text.
- Codec.Decode: reports `UnknownTag` in place of the source's silent nil result, as `Bencode.Decoding` does.
- Bencode.EncodeInt: Go's `int` is taken to be 64 bits wide.
- Bencode.Encoding: a list or dictionary that contains a dictionary whose key or value fails to encode is an error here, but the source encodes it successfully with that dictionary left out (`[{"a": x}]` gives `le`). That behaviour is `Bencode.EncodingAsWritten`.
- Codec.Encode: for the same reason, reports an error where the source encodes a list or dictionary containing a failing dictionary successfully.
- Codec.EncodeList: passes on the error of an item that is a failing dictionary. In the source, `encodeList` gets empty text and no error for that item, so `[{"a": x}]` gives `le`.
- Canonical.EncodeDecoded: is stated only for canonical text. Decode also accepts `i007e`, `03:abc`, keys out of order and repeated keys, which the encoder never writes back.
- Decimal.ItoaAtoi: is stated only for canonical text, because Atoi also accepts `+7`, `007` and `-0`, which Itoa never writes.
- Tracker.QueryPairsCount: assumes the escaping never emits '&'. `url.QueryEscape` writes it as `%26`, but that function is not modelled.
- Pieces.BlockPlanTiles: is proved only when the piece number and piece length fit in an `int32`, because its index and begin fields wrap beyond that (Go's `int32()` conversion, `PeerWire.Wrap32`). The lengths need no bound: `Pieces.BlockLengths` states them for every input.
- PeerWire.FrameUnframe: requires the payload length to be below 2^31 - 1. This is the largest payload an `int32` length prefix can declare.
- Pieces.PieceRequests and Pieces.FileRequests: require a positive piece length, as every torrent has. With a zero or negative piece length the source divides floats into an infinity or NaN (main.go:304-307) and converts that to `int`, which is not modelled.
- Pieces.PieceRequests: models one call of the piece download. The piece number is an input; in the source it comes from the command line.

## Findings

| source | as written | input that shows it | evidently intended | confidence | as-written member | corrected member |
|---|---|---|---|---|---|---|
| encoderdecoder.go:52-61 | when a key or value fails to encode, `encodeDictionary` returns empty text and a nil error | a dictionary `{"a": <value of an unknown type>}` encodes to empty text with no error, and that text does not decode (in general, so does every dictionary with a value that fails as written: Bencode.DictSwallowed); nested, it vanishes silently: `[{"a": x}]` encodes to `le` (Bencode.NestedErrorSwallowed) | pass the nested error on, as `encodeList` does | not executed | Bencode.DictErrorSwallowed | Codec.EncodeDictionary |
| cmd/mybittorrent/main.go:320 | the request message starts with length prefix 9 | any request: 13 bytes follow the prefix (id 6 plus three 4-byte fields), so a peer reads id 6 with index and begin only, and takes the length bytes as the next message's prefix | length prefix 13 | not executed | PeerWire.RequestPrefix | PeerWire.RequestRoundTrip |
| cmd/mybittorrent/main.go:285 | the interested message is `0,0,0,4,2` | the prefix declares 4 bytes but only the id byte follows, so a peer waits for 3 more bytes | `0,0,0,1,2` | not executed | PeerWire.InterestedPrefix | PeerWire.Interested |
