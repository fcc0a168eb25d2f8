# KaiOS STF agent: framing, dispatch and connection loop

This project models the protocol core of the KaiOS STF agent (`jni/main.cc`). The agent listens on an abstract-namespace Unix socket. For each peer it runs a loop. Each time the socket is readable, the loop peeks at the socket and reads one length-delimited protocol-buffer `Envelope`. It answers a `GET_DISPLAY` request with a fixed display description and leaves the loop when the peer disconnects or a system call fails. Leaving the loop closes nothing: the agent never closes the peer's socket.

The model is split into modules:

- `Bytes`: bytes, 32-bit unsigned values and `Option`.
- `Varint`: base-128 varints, as in the "Base 128 Varints" section of the Protocol Buffers encoding documentation.
  - `Encode` is what `WriteVarint32` writes.
  - `Decode` reads a varint back.
  - `Read32` is `ReadVarint32`, which keeps the low 32 bits of the value.
  - `Size32` is the size computation behind `ByteSize()`.
- `WireFormat`: the protocol-buffer fields the agent's messages use, with their serialiser and parser.
  - Two kinds of field: varint fields and length-delimited fields.
  - The parser reports whether a read ended at the end of its region or at a zero tag. This is the library's "legitimate message end".
- `Messages`:
  - `stf::Envelope` with its optional `id`, `type` and `message` fields;
  - `ByteSize()`, `SerializeWithCachedSizes` and `MergeFromCodedStream` for an Envelope;
  - `stf::GetDisplayResponse` with its serialiser and parser.
- `Streams`: the coded streams, as classes with state.
  - `InputStream` has a cursor, a pushed limit and the message-end flag. Its methods are `ReadVarint32`, `PushLimit`, `PopLimit`, `MergeEnvelope` (for `MergeFromCodedStream`) and the `ConsumedEntireMessage` function.
  - `OutputStream` only appends. Its methods are `WriteVarint32` and `WriteRaw`.
- `Framing`: `recv_message` and `send_message` as methods over those streams. `Decode` and `Encode`, the frame functions, specify them.
- `Dispatch`: `process_message` as a pure function.
- `Connection`: `receive_data` and `manage_connexion`. The results of `select` and of the peeking `recv` are inputs, one `Event` per round of the loop.
  - `ReceiveStep` specifies one `receive_data` call.
  - `Rounds` and `Sent` specify the loop's control flow and everything it writes.
- `Address`: the `sockaddr_un` that `create_socket` fills. The `memset` and the `memcpy` of the name are loops on a 108-byte array.

`receive_data` returns 1 whenever the peek saw bytes, whether or not the frame parsed (`jni/main.cc:149-165`). So in the model a frame that does not parse leaves the connection open and sends nothing.

## Model

| member | source | states |
|---|---|---|
| Varint.DecodeEncode | jni/main.cc:110 | decoding the varint written for `n` gives `n` back with the exact length of the encoding, whatever bytes follow |
| Varint.Read32Encode | jni/main.cc:92 | `ReadVarint32` on the varint of a 32-bit value returns that value and the encoding's length, whatever follows |
| Varint.DecodeTruncated | jni/main.cc:92-93 | a byte run in which every byte has its continuation bit set holds no varint, so the read fails |
| Varint.DecodeExtends | jni/main.cc:92 | a varint that can be read stays the same, with the same length, when more bytes follow it |
| Varint.EncodeShape | jni/main.cc:110 | every byte of a written varint carries the continuation bit except the last, which does not |
| Varint.Size32IsLength | jni/main.cc:109-110 | the size computed for a 32-bit value is the length of its varint, at most 5 bytes |
| WireFormat.ParseSerialize | jni/main.cc:97 | parsing the serialisation of well-formed fields gives back the same fields, ending cleanly after all the bytes |
| WireFormat.ParseSerialized | jni/main.cc:97 | parsing serialised fields followed by more bytes gives those fields, then whatever the rest parses to, with lengths added |
| WireFormat.ParseStopsAtZeroTag | jni/main.cc:97-99 | a zero byte where a tag belongs ends the read after the fields before it, not cleanly and with the bytes after it unread |
| WireFormat.SerializeAppend | jni/main.cc:111 | serialising two runs of fields one after the other gives the two serialisations concatenated |
| Messages.EnvelopeRoundTrip | jni/main.cc:97-111 | merging an Envelope's serialisation into a default Envelope rebuilds it, cleanly, consuming every byte |
| Messages.MergeEnvelopeFieldsInverse | jni/main.cc:97 | merging the fields of an Envelope into the default Envelope rebuilds every optional field, present or absent |
| Messages.ByteSizeIsLength | jni/main.cc:109-111 | the computed `ByteSize()` equals the length of what `SerializeWithCachedSizes` writes |
| Messages.DefaultEnvelopeEmpty | jni/main.cc:118 | an Envelope with no field set serialises to nothing and has `ByteSize()` 0 |
| Messages.DisplayRoundTrip | jni/main.cc:135 | parsing the serialisation of a display response gives back the same record |
| Messages.MergeDisplaySuffix | jni/main.cc:135 | merging the fields of a display response from the k-th on, into a record holding its first k fields, completes it |
| Messages.DisplaySizeBound | jni/main.cc:135 | a serialised display response is at most 54 bytes long |
| Streams.InputStream.ReadVarint32 | jni/main.cc:92 | reads the varint between the cursor and the limit, giving its low 32 bits and moving the cursor past it; fails when the limit or the data end comes first |
| Streams.InputStream.PushLimit | jni/main.cc:95 | the limit becomes `size` bytes past the cursor, or stays at the earlier limit if that is sooner; returns the previous limit |
| Streams.InputStream.MergeEnvelope | jni/main.cc:97 | merges the fields up to the limit into the message; fails if the region is malformed or the data ends before the limit; records whether the read ended at the limit |
| Streams.InputStream.PopLimit | jni/main.cc:102 | restores the previous limit and clears the message-end flag |
| Streams.OutputStream.WriteVarint32 | jni/main.cc:110 | appends exactly the varint of the value, seven bits at a time |
| Streams.OutputStream.WriteRaw | jni/main.cc:111 | appends exactly the given bytes |
| Framing.RecvMessage | jni/main.cc:88-104 | succeeds exactly when the bytes start with a complete frame whose body parses and is consumed to its length; the Envelope it yields is the decoded one |
| Framing.SendMessage | jni/main.cc:106-112 | writes the varint of `ByteSize()` followed by the serialised Envelope, and nothing else |
| Framing.RoundTrip | jni/main.cc:88-112 | a frame written by `send_message` is read back by `recv_message` as the same Envelope, whatever bytes follow it |
| Framing.DecodeFrame | jni/main.cc:95-100 | once the length prefix is read, the outcome of reading a frame depends only on parsing exactly that many body bytes |
| Framing.TrailingBytesIgnored | jni/main.cc:95-97 | bytes after a complete frame do not change what is decoded |
| Framing.TruncatedPrefixRejected | jni/main.cc:90-93 | a read whose bytes all have the continuation bit set yields no message |
| Framing.TruncatedFrameRejected | jni/main.cc:95-100 | under the model's rule that a stream ending before the announced length is a failure, no strict prefix of a frame is accepted, whether it is cut in the length or in the body |
| Framing.MalformedBodyRejected | jni/main.cc:97-98 | a frame whose body does not parse is rejected |
| Framing.UnconsumedBodyRejected | jni/main.cc:99-100 | a body whose parse stops at a zero tag before the announced length is rejected, even though the fields before it are well formed |
| Dispatch.ProcessMessage | jni/main.cc:117-140 | the response always fits `send_message` (its size fits an `int`), and it has something to send exactly when the request's type is GET_DISPLAY |
| Dispatch.DisplayReplySize | jni/main.cc:119-137 | an Envelope carrying an id, the type GET_DISPLAY and a serialised display response is well formed and at most 64 bytes long |
| Dispatch.DisplayRequestAnswered | jni/main.cc:119-137 | a GET_DISPLAY request gets its own id, the type GET_DISPLAY, and the serialised fixed display, which parses back to success, 240x320, not secure, 240/320 dpi, 2 fps, rotation 0, density 280 |
| Dispatch.OtherRequestsUnanswered | jni/main.cc:138-139 | any other request gets the untouched default Envelope, which serialises to nothing |
| Connection.ReceiveStep | jni/main.cc:142-174 | returns 1 exactly when the peek saw bytes, whether or not the frame parsed; returns -1 otherwise, and then writes nothing |
| Connection.ReceiveData | jni/main.cc:142-174 | returns the code `ReceiveStep` gives and appends to the socket exactly the reply `ReceiveStep` gives |
| Connection.DisplayRequestReplied | jni/main.cc:148-158 | a read holding a GET_DISPLAY request returns 1 and writes a frame the peer decodes into the response, whose payload parses to the fixed display |
| Connection.RepliesOnlyToDisplayRequests | jni/main.cc:148-166 | `receive_data` writes something exactly when the peek saw bytes, they hold a frame, and its request has type GET_DISPLAY |
| Connection.Rounds | jni/main.cc:176-196 | the loop runs at most one round per event, and a loop that never ends has run every round |
| Connection.EndsOnFailure | jni/main.cc:182-194 | the loop clears `connected` and ends exactly when some round's `select` or `receive_data` fails |
| Connection.StopsAtFirstFailure | jni/main.cc:182-194 | the loop's last round is the first failed one, and every round before it left `connected` set |
| Connection.SilentWithoutDisplayRequests | jni/main.cc:148-166 | a session in which no read holds a GET_DISPLAY request writes nothing |
| Connection.Round | jni/main.cc:185-192 | one pass of the loop stays connected exactly when `select` and the peek both report data, and only such a pass writes |
| Connection.ManageConnexion | jni/main.cc:176-196 | the loop ends, after as many rounds as `Rounds` gives, and writes to the socket exactly what `Sent` gives |
| Address.AbstractAddress | jni/main.cc:71-75 | the filled `sun_path` is 108 bytes, the address length fits `sockaddr_un`, and `bind` reads a NUL byte followed by exactly the name, with no trailing NUL |
| Address.AddressDeterminesName | jni/main.cc:72-75 | two names that give the same bound address are the same name |
| Address.SocketAddress.Fill | jni/main.cc:71-75 | the family is `AF_LOCAL`, the path is a NUL byte then the name then zeros, and the length is the name's length plus 3 |
| Address.CreateSocket | jni/main.cc:63-81 | returns -1 when `socket` or `bind` fails and the socket otherwise; what `bind` is given is a NUL byte followed by the name |

## Left out

- System calls are not modelled. For `socket`, `bind`, `select` and the peeking `recv`, the model takes the results as inputs; `listen`, `accept` and `Flush` are left out. `main` (the accept loop and its exits, `jni/main.cc:202-233`) is not part of this model.
- Logging is left out, since it is output only. This covers `log`, `perror` and `DebugString`.
- `wire.proto` is not part of this model. GET_DISPLAY is taken as 19, STF's value. The Envelope fields `id`, `type` and `message` are numbered 1, 2 and 3. The nine display fields are numbered 1 to 9 in the order the code sets them, and all travel as varints.
- The protocol-buffer library is not part of this model. `WireFormat` takes its place with only what these messages use: varint fields and length-delimited fields. Fixed-width and group wire types are treated as malformed, and unknown field numbers are read and ignored. Enum range checks and required-field checks are not modelled.
- The library's handling of other field kinds is not modelled.
- Framing.TruncatedFrameRejected and Streams.InputStream.MergeEnvelope: the model rejects a frame whose stream ends before the announced body length. The library is different when the input stream itself ends (the peer closed) at a field boundary inside the body. There `MergeFromCodedStream` succeeds and `ConsumedEntireMessage()` holds, so `recv_message` accepts the cut-off frame and decodes the fields read so far. An example is `[7, 0x08, 5, 0x10, 19]` followed by the peer closing: the frame of an Envelope with id 5, type GET_DISPLAY and a one-byte message, cut after the type. The library would accept it and answer GET_DISPLAY; the model rejects it. `TruncatedFrameRejected` is therefore a property of the model's stricter stream rule, not of the library.
- Streams.InputStream.ReadVarint32: for varints longer than five bytes, keeps the low 32 bits of the value, as `Varint.Read32` states. It makes no claim about whether the library rejects them.
- Streams.InputStream.PushLimit: the `int` overflow guard is not modelled; limits are unbounded integers.
- Connection.Outcome: `ended` only means that `manage_connexion` cleared `connected` and returned (`jni/main.cc:186-195`). The source has no `close` or `shutdown` call: the accepted socket is never closed, neither after a failed `select` nor after the peer disconnects, and `main` goes back to `accept` (`jni/main.cc:219-231`). The model has no notion of an open or closed descriptor, so this leak is not represented.
- Each `receive_data` call builds its own `FileInputStream`, which is never freed. The model gives each call only the bytes of its own read (`Event.chunk`). Bytes the stream buffered beyond one frame, and so throws away, are not modelled.
- Connection.ManageConnexion: runs over a finite sequence of events. A loop still running when the events run out reports "not ended", standing for an endless loop or a `select` that blocks.
- Address.CreateSocket: requires the name to fit `sun_path` (fewer than 108 bytes). The source does not check this, and a longer name would overflow the buffer. It also requires the name to hold no NUL byte, as any C string does.
- Dispatch.DisplayReplySize: bounds the GET_DISPLAY reply by 64 bytes, not by its exact length of 33 at most. That is enough for `ByteSize()` to fit the `int` of `send_message`.
