# Terminal file transfer: broker and transfer channel in Dafny

This project models the two pieces of pure logic inside a small asyncio
peer-to-peer file-transfer tool. It proves properties about both.

- **The rendezvous broker** (`file_transfer/server.py`). Each connection's first
  message is a peer name. It is stripped and registered against the address the
  connection came from, replacing any earlier entry. Each later message that starts
  with `SEND` must split into exactly three tokens. It is answered with either
  `OK <host> <port> <file>` or `ERROR: Receiver <r> not available.`. An empty read
  ends the session, and the registration stays in place.
- **The transfer channel and the client's text decisions** (`file_transfer/client.py`).
  - The sender gzips the file and hashes the compressed bytes with SHA-256. It
    writes the 64-character hex digest, then the compressed bytes in reads of at
    most 1024 bytes.
  - The receiver treats the first 64 bytes as the expected digest and stores the
    rest as `<name>.gz`. It hashes the stored bytes and decompresses only on a
    match. The decompressed file is named by removing every ".gz" from the name.
  - The client quits on `exit` in any letter case and forwards lines that start
    with `SEND`. It acts on a broker reply only if the reply starts with `OK` and
    unpacks into four tokens.

Modules:

| file | module | models |
|---|---|---|
| option.dfy | `Options` | optional values |
| text.dfy | `Text` | Python's `isspace`, `strip`, `split()`, `startswith`, `lower`, `str(int)` |
| names.dfy | `Names` | `compress_file` / `decompress_file` name derivation |
| utf8.dfy | `Utf8` | Python's strict UTF-8 `bytes.decode()` and `str.encode()` |
| transfer.dfy | `Transfer` | `compute_hash`, `send_file`, `receive_file` |
| broker.dfy | `Broker` | `handle_client` and the shared `clients` registry |
| client.dfy | `Client` | `start_client`'s command and reply handling; cross-file lemmas |

SHA-256 (FIPS 180-4) and gzip (RFC 1952) are library code. They enter as the three
function fields of a `Codec` value: `digest`, `compress` and `decompress`. The subset
type `HexDigest` carries the 64-character length of the digest. gzip's round-trip law
is the ghost predicate `Lossless`. Only the end-to-end lemma `Transfer.ReceiveIntact`
requires it.

The model follows the code as written, including:
- The digest crosses the wire as 64 ASCII hex characters, not 32 raw bytes.
- The receiver decodes the 64-byte header as strict UTF-8, following the
  well-formed sequences of section 4 of RFC 3629. A header that is valid UTF-8
  but not ASCII is decoded and compared, and so fails as a hash mismatch. An
  ill-formed one raises, and nothing is written.
- A disconnecting peer's entry is never removed.
- A hash mismatch is printed, not raised.
- The receive side (`receive_file`) exists but nothing in `start_client` calls it
  or listens for incoming transfers.
- The address the broker hands out is the port the peer used to reach the broker.
  No peer listens there.

## Model

| member | source | states |
|---|---|---|
| Text.Strip | file_transfer/server.py:8 | the result is a slice of the input with everything outside it whitespace, and it neither starts nor ends with whitespace |
| Text.Split | file_transfer/server.py:21 | every token is non-empty and free of whitespace |
| Text.SplitGap | file_transfer/server.py:21 | no token spans a whitespace run: splitting around one gives the tokens on its left followed by those on its right |
| Text.SplitToken | file_transfer/server.py:21 | a non-empty whitespace-free string is one token, not cut into pieces |
| Text.SplitPeelsToken | file_transfer/server.py:21 | tokens are maximal: a whitespace-free run followed by whitespace comes out as exactly one token, ahead of the tokens of the rest |
| Text.SplitCoversNonSpace | file_transfer/server.py:21 | the tokens concatenated are exactly the input with all whitespace deleted, in order |
| Text.SplitJoin | file_transfer/client.py:106 | splitting the single-space join of whitespace-free tokens gives back those tokens |
| Text.SplitStrip | file_transfer/server.py:19-21 | stripping before splitting does not change the tokens |
| Text.StripKeepsPrefix | file_transfer/server.py:19-20 | a whitespace-free prefix such as "SEND" survives stripping |
| Text.StripUnchanged | file_transfer/server.py:8 | a string with no whitespace at either end is its own strip |
| Text.Lower | file_transfer/client.py:94 | same length, each character lowered on its own |
| Text.DecimalText | file_transfer/server.py:25 | the port text is non-empty, all digits, and has no leading zero unless the port is 0 |
| Text.DecimalRoundTrip | file_transfer/server.py:25 | reading the decimal text back gives the number |
| Text.DecimalIsToken | file_transfer/server.py:25 | the port text is one whitespace-free token |
| Names.RemoveExt | file_transfer/client.py:24 | the replace shortens the name by 3 for every ".gz" occurrence |
| Names.RemoveExtAbsent | file_transfer/client.py:24 | a name with no ".gz" is left unchanged |
| Names.RemoveExtSplit | file_transfer/client.py:24 | each ".gz" is removed on its own: the text before it and the text after it are cleaned independently and joined |
| Names.RemoveExtAppendExt | file_transfer/client.py:24 | no occurrence straddles the start of a ".gz", so the text in front of it is cleaned on its own |
| Names.CompressedName | file_transfer/client.py:17 | the compressed name is the name followed by ".gz" |
| Names.DecompressedName | file_transfer/client.py:24 | the name loses 3 characters per ".gz" occurrence, and it is unchanged if and only if it contains no ".gz" |
| Names.NameRoundTrip | file_transfer/client.py:17-24 | decompressing the compressed name gives back the name if and only if the name contains no ".gz" |
| Names.EmptyRestoredName | file_transfer/client.py:17-24 | the restored name is empty if and only if every character of the name belongs to a ".gz" occurrence, as in "" or ".gz" |
| Names.InnerExtLost | file_transfer/client.py:24 | "a.gz.txt" goes out as "a.gz.txt.gz" and comes back as "a.txt" |
| Names.DecompressedNameDiffers | file_transfer/client.py:75 | the decompressed file never overwrites the stored archive |
| Transfer.Chunks | file_transfer/client.py:11-12 | the reads cover the file exactly once in order; each is 1 to 1024 bytes, and all but the last are exactly 1024 |
| Transfer.ChunkCount | file_transfer/client.py:11-12 | there are ceil(n/1024) reads before the empty one |
| Transfer.ReadChunks | file_transfer/client.py:67-69 | reading 1024 bytes at a time until the bytes run out yields exactly the chunk sequence |
| Transfer.ComputeHash | file_transfer/client.py:8-13 | feeding the file one read at a time hashes exactly the whole file |
| Transfer.EncodeHex | file_transfer/client.py:38 | the encoded digest is 64 bytes, one per hex character |
| Utf8.Chars | file_transfer/client.py:62 | ASCII bytes read as the characters with the same codes, one for one |
| Utf8.CodePoint | file_transfer/client.py:62 | a well-formed 2-, 3- or 4-byte sequence carries a scalar value in that width's range, never a surrogate and never past U+10FFFF |
| Utf8.DecodeFirst | file_transfer/client.py:62 | the first character takes 1 to 4 bytes of the input; it is ASCII exactly when the first byte is, and an ASCII byte decodes to itself |
| Utf8.Decode | file_transfer/client.py:62 | ASCII input decodes character for character, and the output is all ASCII exactly when the input is |
| Utf8.EncodeChar | file_transfer/client.py:38 | a character encodes to 1, 2, 3 or 4 bytes as its value is below 0x80, 0x800, 0x10000 or not; the first byte is ASCII exactly when the character is |
| Utf8.Encode | file_transfer/client.py:38 | a string encodes to between one and four bytes per character, and an ASCII string to its own character codes, one byte each |
| Utf8.DecodeFirstEncodeChar | file_transfer/client.py:38-62 | the decoder reads one encoded character back whatever follows it |
| Utf8.EncodeCharDecodeFirst | file_transfer/client.py:38-62 | re-encoding a decoded character gives back exactly the bytes it came from |
| Utf8.DecodeEncode | file_transfer/client.py:38-62 | decoding an encoded string gives the string back |
| Utf8.EncodeDecode | file_transfer/client.py:38-62 | whatever decodes re-encodes to the very bytes it was decoded from |
| Utf8.DecodeIffEncoded | file_transfer/client.py:38-62 | bytes decode to a string if and only if they are that string's encoding |
| Utf8.DecodeExamples | file_transfer/client.py:62 | C3 A9 decodes to U+00E9 and E2 82 AC to U+20AC |
| Utf8.RejectExamples | file_transfer/client.py:62 | an overlong form, a surrogate, a value past U+10FFFF and a truncated sequence all fail to decode |
| Transfer.DecodeEncodeHex | file_transfer/client.py:38-62 | the receiver decodes exactly the digest the sender encoded |
| Transfer.NonAsciiIsNoDigest | file_transfer/client.py:62-73 | a header that decodes to non-ASCII text can never equal a hex digest |
| Transfer.NonAsciiHeaderMismatch | file_transfer/client.py:61-78 | a header of valid UTF-8 that is not ASCII is compared and fails: the archive holds the payload, nothing is restored, and both digests are reported |
| Transfer.Wire | file_transfer/client.py:38-46 | the stream is the 64 encoded digest bytes followed by the payload |
| Transfer.SendStream | file_transfer/client.py:31-32 | the payload sent is the compressed file, and the header is the digest of that payload, not of the original |
| Transfer.SendFile | file_transfer/client.py:30-46 | the writes are the encoded digest, then the 1024-byte reads of the compressed file; together they form the sender's stream |
| Transfer.SplitStream | file_transfer/client.py:61-69 | the header is the first min(64, n) bytes, and header plus payload is the whole stream |
| Transfer.SplitWire | file_transfer/client.py:61-69 | splitting the sender's stream gives back the encoded digest and the payload exactly |
| Transfer.ReceivePayload | file_transfer/client.py:67-69 | the receive loop writes exactly the bytes after the header, in 1024-byte reads |
| Transfer.Receive | file_transfer/client.py:56-81 | only the archive and the restored file are written; nothing is written exactly when the header is not valid UTF-8 (every `open` other than the empty restored name is taken to succeed); otherwise the archive holds the payload; a decoded header other than the payload's digest is reported as a mismatch naming both; a restored file exists exactly on success, and never under the empty name, whose `open` raises and is caught |
| Transfer.DecompressOnlyOnMatch | file_transfer/client.py:72-75 | the file is restored if and only if the decoded header equals the digest of the stored bytes, the restored name is not empty, and gzip accepts the bytes; it is then their decompression; a matching header with an empty restored name is reported as such, because `open("")` raises before gzip runs |
| Transfer.MismatchReportsBoth | file_transfer/client.py:77-78 | a mismatch reports the received digest and the recomputed one, and they differ |
| Transfer.ReceiveIntact | file_transfer/client.py:72-81 | with a lossless gzip, an unaltered stream is verified unless the restored name is empty; the archive holds the compressed bytes and the restored file is the original; with an empty restored name only the archive is written |
| Transfer.IntactStreamMatches | file_transfer/client.py:72-73 | an unaltered stream always passes the hash comparison, whatever gzip does: it ends verified, as a corrupt archive, or with an empty restored name, the last exactly when that name is empty |
| Transfer.TamperDetected | file_transfer/client.py:72-78 | a swapped payload is rejected if and only if its digest differs from the header; the mismatch then names both digests and no restored file exists |
| Transfer.ShortStreamRejected | file_transfer/client.py:61-73 | a stream shorter than the digest never verifies |
| Broker.ParseRequest | file_transfer/server.py:19-21 | a non-SEND message is recognised exactly when its stripped form lacks the prefix; a SEND with other than three tokens is malformed; otherwise the receiver and file are the second and third tokens |
| Broker.ParseJoined | file_transfer/server.py:20-21 | any first token starting with "SEND" is accepted and ignored, and the next two tokens are returned |
| Broker.OkReply | file_transfer/server.py:25 | the success reply is "OK", host, port and file joined by single spaces |
| Broker.NotAvailableReply | file_transfer/server.py:29 | the error reply is "ERROR: Receiver ", the receiver's name, then " not available." |
| Broker.Resolve | file_transfer/server.py:22-29 | the reply starts with "OK" if and only if the receiver is registered; it then carries the stored address, and otherwise it is the error naming the receiver |
| Broker.OnRead | file_transfer/server.py:7-30 | the first read registers the stripped name, overwriting; later reads never change the registry or the session's name; a reply is sent exactly for a well-formed SEND, and it is the lookup result; a malformed SEND crashes the handler, any other non-empty read leaves the handler as it was, and a closed or crashed handler ignores every read |
| Broker.MalformedEndsSession | file_transfer/server.py:20-21 | a SEND that does not unpack into three tokens ends the session with no reply and no registry change, and the crashed handler ignores every later read |
| Broker.RequestLeavesRegistry | file_transfer/server.py:19-30 | a request of any outcome leaves the registry unchanged; a non-SEND message changes nothing and gets no reply |
| Broker.EndOfStreamKeepsEntry | file_transfer/server.py:15-17 | an empty read closes the session and keeps its entry; the closed session then ignores every later read |
| Broker.Apply | file_transfer/server.py:6-30 | connections are never dropped from the server's table and keep their peer address; a step changes no connection but the one it reads for; a reply comes only from a read by a known connection, and it is that handler's reply |
| Broker.Run | file_transfer/server.py:6-17 | over any sequence of steps the server keeps every connection it has accepted, with its peer address |
| Broker.RunAppend | file_transfer/server.py:6-10 | running two batches of steps in turn is running them together |
| Broker.Register | file_transfer/server.py:7-10 | a new connection followed by its first read adds the connection and registers the name at the peer's address |
| Broker.RunKeepsEntries | file_transfer/server.py:7-10 | across any interleaving, every registry entry is the address of a connection that registered that name |
| Broker.RunNeverForgets | file_transfer/server.py:14-17 | no interleaving of steps ever removes a name |
| Broker.EntryStable | file_transfer/server.py:10 | an entry keeps its address until a step registers the same name again |
| Broker.ReRegisterOverwrites | file_transfer/server.py:10 | a later registration of a name wins |
| Broker.ResolveExample | file_transfer/server.py:22-29 | with alice and bob registered, bob resolves to bob's address and carol gets the error text |
| Client.Classify | file_transfer/client.py:94-98 | a forwarded line is sent verbatim |
| Client.ClassifyQuit | file_transfer/client.py:94-95 | the loop quits if and only if the line is "exit" in some mix of letter cases |
| Client.ClassifyForward | file_transfer/client.py:97-98 | a line is forwarded if and only if it starts with "SEND" |
| Client.ForwardReachesBroker | file_transfer/client.py:97-98 | the broker treats every forwarded line as a SEND request |
| Client.HandleReply | file_transfer/client.py:105-109 | a reply is only displayed if and only if it lacks the "OK" prefix; a connection needs exactly four tokens and uses the last three |
| Client.ErrorOnlyDisplayed | file_transfer/client.py:105-109 | the broker's error reply never leads to a transfer |
| Client.ReplyRoundTrip | file_transfer/client.py:105-107 | parsing the broker's reply recovers the stored host, the port text and the file, or displays the error for an unknown receiver |
| Client.RequestCycle | file_transfer/client.py:97-107 | the broker takes every forwarded line as a SEND; when it is well formed, the client connects if and only if the receiver is registered, and then to its stored host and port |
| Client.SendAnswered | file_transfer/server.py:19-25 | a well-formed SEND read by a registered session is answered with the broker's lookup of the receiver |
| Client.AliceSendsToBob | file_transfer/server.py:7-25 | after alice and bob register, alice's SEND to bob is answered with bob's address and the client connects there |
| Client.AliceSendsToCarol | file_transfer/server.py:28-29 | a SEND to an unregistered carol gets the error naming carol, and the client only displays it |

## Left out

- Sockets, `open_connection`, `start_server`, `serve_forever`, `drain` and `close`: I/O plumbing. Each broker read is taken to deliver one whole message. The model does not model the 100-byte read limit that could split a long name or request, or TCP joining two messages into one read.
- Short reads on the transfer channel. `reader.read(64)` and `reader.read(1024)` are taken to return as many bytes as requested while the stream lasts. The code itself does not guarantee this.
- SHA-256 and gzip internals: library code, passed in as the `Codec` fields. Incremental `sha256.update` is assumed to equal hashing the concatenation.
- UTF-8 encoding and decoding of broker and client text messages. They are modelled as already-decoded strings; a message that is not valid UTF-8 would raise in `decode()`. Only the transfer header goes through `Utf8.Decode`.
- Text.Lower: lowers ASCII letters only. No non-ASCII character lowers to a single one of "e", "x", "i", "t", so the `exit` test comes out the same.
- File-system reads and writes: received files are a map from name to bytes. The sender's own `.gz` file is not recorded.
- Failures of `open` on `<name>.gz` (client.py:67) or on the restored name (client.py:25), other than the empty restored name, are not modelled. For a name such as "d/x" with no directory "d", the archive `open` raises and nothing is written although the header decoded; for "x.gz/y" only the restored `open` fails. Both are caught at client.py:80-81. The model writes both files.
- When gzip rejects the archive, `decompress_file` has already opened its output file, so an output file, possibly empty or partly written, always remains. `CorruptArchive` records no output file.
- `input()` prompts and `print` output.
- Exceptions that end a task: a SEND that does not unpack into three tokens ends the handler (`Crashed`). An `OK` reply that does not unpack into four tokens ends the client (`BadReply`). What the peer then sees is not modelled.
- Concurrency between handlers: modelled as an interleaving of atomic steps on one registry.
- The `finally: writer.close()` path in `send_file` when the connection never opened: exception plumbing.
- IPv6 peer names, whose tuples have four fields. Only host and port are used.
- The client's name message (client.py:88-89) is modelled as the broker's first read.
