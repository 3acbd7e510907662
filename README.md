# VisionSeed data link and face shape, modelled in Dafny

This project models the transport core of the VisionSeed JavaScript SDK:

- `YtDataLink` talks to the VisionSeed camera module over a serial line. It frames outgoing messages as
  `SOF | length (3 bytes, big-endian) | CRC-16 of the length | payload | CRC-16 of the payload`.
  Every start marker (0x10) or escape marker (0x11) after the leading SOF is escaped as `0x11, b ^ 0x11`.
- On the receive side, a state machine kept in the object's fields consumes a byte queue that persists across `recvRunOnce` calls.
  It un-escapes bytes, checks the length cap (2,097,152) and both CRCs, and hands over each payload whose CRCs match.
- RPC requests get increasing sequence ids. Each pending callback waits in a table until the response with its id arrives.
  `sendFile` cuts a file into chunks of at most 131,072 bytes.
- `YtFaceShape` reshapes a list of 90 face landmarks into eight named point arrays.

Files:

- `crc.dfy` (module `Crc16`): the CCITT table exactly as the source lists it.
  It is proved entry by entry to be the division by the polynomial 0x1021.
  The module also holds the CRC step used by both directions and the CRC of a byte sequence as a fold of that step.
- `framing.dfy` (module `Framing`): the frame, the escaping and the encoder output as functions, with their shape lemmas.
- `receiver.dfy` (module `Receiver`): the receive state machine as a pure transition `Step` and its fold `Feed`.
  It holds the reachability invariant `Wf` and the round trip: decoding the encoder's output gives the payload back, in any chunking.
  It also shows the behaviour of zero-length frames.
- `rpc.dfy` (module `Rpc`): return codes, the error-message table, the value handed to a waiting callback, and the `sendFile` chunk loop.
- `datalink.dfy` (module `DataLink`): the class `YtDataLink`.
  - Its receive fields are advanced by `RecvRunOnce`, which is proved equal to `Feed`.
  - `Write` fills `buffer` and `transedBuffer` in arrays and is proved equal to the encoder.
  - It also holds the RPC id counter and the callback table.
- `face_shape.dfy` (module `FaceShapes`): `Point`, the segment layout, and the class `FaceShape`.
  Its constructor fills the eight arrays from one running index.

Where the code and its written description differ, the model follows the code:

- A SOF byte does not clear a pending escape flag (`Receiver.SofRestarts`).
- An empty payload's CRC field carries the CRC of the length field. The send accumulator is only reset by a first payload byte (`Framing.PayloadCrc`).
- A frame announcing length 0 never completes (`Receiver.EmptyPayloadStalls`).
- Pending RPC callbacks are not discarded when the port closes.

## Model

| member | source | states |
|---|---|---|
| Crc16.CcittTable | lib/YtDataLink.js:45-78 | each of the 256 table entries is the CRC-16 division (polynomial 0x1021) of its index |
| Crc16.TableIsPolynomial | lib/YtDataLink.js:45-78 | the table has 32 lines of 8 entries, and entry `i` is the polynomial division of `i` |
| Crc16.CrcNextIsTableStep | lib/YtDataLink.js:112 | the CRC step is `table[((crc >> 8) ^ ch) & 0xff] ^ ((crc << 8) & 0xffff)` on a 16-bit accumulator |
| Crc16.CrcFoldAppend | lib/YtDataLink.js:108-113 | the CRC of `a + b` continues from the CRC of `a` |
| Crc16.CrcExtend | lib/YtDataLink.js:423-428 | with `first` set exactly on a field's first byte (reset to 0xFFFF), one step turns the CRC of the bytes seen into the CRC of those bytes plus `ch` |
| Framing.LenBytesBigEndian | lib/YtDataLink.js:437-439 | the three length bytes are the payload length big-endian, modulo 2^24 |
| Framing.CrcBytesBigEndian | lib/YtDataLink.js:440-441 | a CRC field is the 16-bit CRC big-endian |
| Framing.EscapeAllLength | lib/YtDataLink.js:460-469 | escaping adds exactly one byte per marker byte |
| Framing.EscapeAllHasNoSof | lib/YtDataLink.js:462-468 | escaped bytes never contain SOF |
| Framing.EncodeShape | lib/YtDataLink.js:435-469 | the encoder's output starts with SOF, has no other SOF, is the escaped body after the SOF, and is `L + 8` bytes plus one per marker after index 0 |
| Receiver.SofRestarts | lib/YtDataLink.js:124-128 | SOF moves to LEN1_PENDING from every state, emits nothing and keeps the escape flag |
| Receiver.TransOnlyArms | lib/YtDataLink.js:129-130 | TRANS only sets the escape flag |
| Receiver.FeedEscapeByte | lib/YtDataLink.js:131-136 | un-escaping inverts escaping: the raw bytes written for `b` dispatch exactly `b` |
| Receiver.DispatchKeepsTrans | lib/YtDataLink.js:137-249 | the status switch never changes the escape flag |
| Receiver.OversizeRejected | lib/YtDataLink.js:150-156 | a length above 2,097,152 after the third length byte returns to IDLE and emits nothing |
| Receiver.LenCrcChecked | lib/YtDataLink.js:164-177 | a length-CRC mismatch returns to IDLE; a match enters DATA with an empty buffer; nothing is emitted |
| Receiver.StepEmission | lib/YtDataLink.js:185-244 | a step emits a payload iff it completes the payload CRC and that CRC equals the CRC of the stored bytes; the payload is the `mMsgLen` stored bytes and the state returns to IDLE |
| Receiver.StepPreservesWf | lib/YtDataLink.js:137-249 | every byte keeps the reachable-state invariant (accumulator ranges, CRC of the stored payload) |
| Receiver.FeedPreservesWf | lib/YtDataLink.js:121-251 | any stream keeps the invariant and emits only payloads of 1 to 2,097,152 bytes |
| Receiver.FeedAppend | lib/YtDataLink.js:117-123 | feeding `a + b` is feeding `a`, then `b` from the state `a` left |
| Receiver.FeedEscapeAll | lib/YtDataLink.js:129-136 | feeding escaped bytes dispatches exactly the unescaped bytes and leaves no escape pending |
| Receiver.FeedFrameStart | lib/YtDataLink.js:124-136 | feeding an encoded frame restarts at LEN1_PENDING and dispatches the unescaped body |
| Receiver.RunHeader | lib/YtDataLink.js:140-177 | an accepted length field and its CRC lead to DATA with that length and an empty buffer |
| Receiver.RunPayload | lib/YtDataLink.js:178-184 | the payload bytes are stored, their CRC computed, and the state moves to CRC_H after the last one |
| Receiver.RunTrailer | lib/YtDataLink.js:185-244 | a CRC field that matches emits the stored payload and returns to IDLE |
| Receiver.RoundTrip | lib/YtDataLink.js:117-252 | from any state with no escape pending, the encoded frame of a 1..2,097,152-byte payload emits exactly that payload and ends in IDLE |
| Receiver.RoundTripStream | lib/YtDataLink.js:117-252 | back-to-back encoded frames decode to their payloads in order |
| Receiver.FeedChunksIsFeed | lib/YtDataLink.js:117-123 | chunks fed one call after another give what feeding their concatenation gives |
| Receiver.RoundTripChunked | lib/YtDataLink.js:117-123 | the round trip holds however the encoded bytes are split into calls |
| Receiver.EmptyPayloadStalls | lib/YtDataLink.js:178-184 | a zero-length frame never completes: the state stays in DATA and nothing is emitted |
| Receiver.ZeroLengthSwallows | lib/YtDataLink.js:178-184 | with `mMsgLen == 0`, every dispatched byte is stored and none completes the payload |
| Receiver.EmptyPayloadThenFrame | lib/YtDataLink.js:124-128 | after a stalled zero-length frame, the next frame's SOF recovers and its payload is emitted |
| Rpc.ErrMsgTable | lib/YtDataLink.js:406-422 | messages are non-empty, the default is used exactly for unmapped codes, and mapped codes have distinct messages |
| Rpc.RpcError | lib/YtDataLink.js:228-232 | the error is absent iff the code is SUCC or CONTINUE, otherwise the code's message |
| Rpc.SendFile | lib/YtDataLink.js:391-400 | `ceil(S / 131072)` chunks at offsets `k * 131072` of size `min(remaining, 131072)`, concatenating to the file |
| Rpc.ChunkCountStep | lib/YtDataLink.js:395-400 | one more chunk of 1 to 131,072 bytes after `n` full ones makes `n + 1` chunks |
| DataLink.YtDataLink.constructor | lib/YtDataLink.js:91-107 | the initial state: IDLE, empty queue, both accumulators 0xFFFF, no port, id 0, empty call table |
| DataLink.YtDataLink.CrcUpdate | lib/YtDataLink.js:108-113 | the receive accumulator takes one CRC step |
| DataLink.YtDataLink.CrcSendUpdate | lib/YtDataLink.js:423-428 | the send accumulator becomes the CRC of the field's bytes so far |
| DataLink.YtDataLink.RecvByte | lib/YtDataLink.js:122-136 | one loop turn on the fields is `Step` on the state, and keeps the object invariant |
| DataLink.YtDataLink.DispatchByte | lib/YtDataLink.js:137-249 | the status switch on the fields is `Dispatch` |
| DataLink.YtDataLink.LengthByte | lib/YtDataLink.js:140-159 | the three length states on the fields, as `Dispatch` |
| DataLink.YtDataLink.LengthCrcByte | lib/YtDataLink.js:160-177 | the two length-CRC states on the fields, as `Dispatch` |
| DataLink.YtDataLink.DataByte | lib/YtDataLink.js:178-184 | the DATA state on the fields, as `Dispatch` |
| DataLink.YtDataLink.PayloadCrcByte | lib/YtDataLink.js:185-244 | the payload-CRC states on the fields, emitting the payload as `Dispatch` does |
| DataLink.YtDataLink.RecvRunOnce | lib/YtDataLink.js:117-252 | the queue is drained, and the state and emitted payloads are `Feed` of the old queue plus the new bytes |
| DataLink.YtDataLink.Write | lib/YtDataLink.js:429-506 | with a port, the escaped frame (`Encode`) is handed to it; without one, the error `Error: 端口未打开` and nothing sent |
| DataLink.YtDataLink.BuildFrame | lib/YtDataLink.js:435-459 | `buffer` is the unescaped frame and `transLen` the markers after index 0 |
| DataLink.YtDataLink.WriteHeader | lib/YtDataLink.js:435-441 | the six header bytes are SOF, the length and its CRC |
| DataLink.YtDataLink.CopyPayload | lib/YtDataLink.js:442 | the payload lands at offset 6, other bytes unchanged |
| DataLink.YtDataLink.PayloadPass | lib/YtDataLink.js:443-452 | the first loop computes the payload CRC and counts the markers after index 0 |
| DataLink.YtDataLink.TrailerPass | lib/YtDataLink.js:455-459 | the second loop adds the markers of the CRC field |
| DataLink.YtDataLink.EscapeFrame | lib/YtDataLink.js:460-469 | `transedBuffer` is the escaped frame |
| DataLink.YtDataLink.GenRpcId | lib/YtDataLink.js:254-257 | returns the counter and increments it; the id is not pending |
| DataLink.YtDataLink.SendRpcMsg | lib/YtDataLink.js:343-351 | registers `cb` under a fresh id, without replacing any entry, and writes the request; a failed write calls `cb` with the error |
| DataLink.YtDataLink.DispatchResponse | lib/YtDataLink.js:222-236 | a known id calls its callback once with the error for the code and removes only that entry; an unknown id changes nothing |
| DataLink.YtDataLink.AttachPort | lib/YtDataLink.js:291 | a port is attached |
| DataLink.YtDataLink.DetachPort | lib/YtDataLink.js:337 | the port is gone |
| DataLink.ResumeStep | lib/YtDataLink.js:121-123 | taking the queue's first byte through one step preserves the rest of the feed |
| DataLink.PayloadCrcStep | lib/YtDataLink.js:446-448 | `first` is set exactly on the first payload byte, and after the last one the accumulator holds the payload CRC |
| DataLink.TrailerCount | lib/YtDataLink.js:443-459 | the two counting loops together count the markers after index 0 of the finished frame |
| DataLink.FrameLayout | lib/YtDataLink.js:435-454 | a buffer laid out field by field is the frame of its payload |
| DataLink.FrameEscapedLength | lib/YtDataLink.js:461 | `buffer.length + transLen` is the length of the escaped frame |
| FaceShapes.PointArithmetic | lib/YtFaceShape.js:7-17 | `sub` undoes `add`, `add` commutes, the default point (0, 0) is the unit |
| FaceShapes.Landmarks | lib/YtFaceShape.js:46-79 | point `k` is `(xList[k], yList[k])`, and a coordinate past a list's end is 0 |
| FaceShapes.SegmentLayout | lib/YtFaceShape.js:38-45 | sizes 8, 8, 8, 8, 13, 22, 21, 2, all non-empty, starting at 0, 8, 16, 24, 32, 45, 67, 88 and totalling 90 |
| FaceShapes.SegmentsPrefix | lib/YtFaceShape.js:46-79 | the first `j` segments concatenated are the first `Offset(j)` points |
| FaceShapes.SegmentsTile | lib/YtFaceShape.js:46-79 | the eight segments concatenated in order are exactly the 90 points |
| FaceShapes.NewSegment | lib/YtFaceShape.js:48-51 | one loop fills its segment from the running index and leaves the index after it |
| FaceShapes.SegmentsAssembled | lib/YtFaceShape.js:46-79 | arrays holding the segments in order concatenate to the 90 points |
| FaceShapes.FaceShape.constructor | lib/YtFaceShape.js:37-80 | the eight arrays hold the segments, together the 90 points in order, and the input lists' points when they have 90 |

## Left out

- Serial-port I/O is not modelled: opening, closing, the `YtMsgParser` stream, `sleep`, and the status handler. The port is reduced to whether one is attached, and to the list of buffers handed to `port.write`.
- Protobuf serialization and deserialization are left out. The receive side emits the payload bytes where the source deserializes them. It does not attach `YtFaceShape` to the decoded faces or call `msgHandler`. `DispatchResponse` takes the already decoded `(sequenceid, code)`.
- The numeric values of the return codes are not modelled. They live in generated protobuf code that is not part of this model.
- Exceptions thrown by callbacks or handlers, and the `errorHandler` calls, are not modelled.
- Logging (`console.log`) and `toHex` are diagnostics only and are left out.
- The unreachable `default` branch of the status switch is not modelled. A status outside the nine values cannot arise.
- Write: the asynchronous error callback of `port.write` is not modelled. A write with a port attached always succeeds in the model.
- SendFile: the `UPLOADFILE` requests, the wait for each response, the file read and the progress percentage are not modelled. The model returns the chunks the loop produces.
- SendRpcMsg: the request object is a parameter (`serialize`) that maps the sequence id to the bytes written.
- YtDataLink.constructor: the handler fields are left out.
- RecvRunOnce: JavaScript's array `splice` is modelled as taking the head of a sequence. `mBuf`, allocated with `mMsgLen` slots, is modelled as the growing sequence of stored bytes, so a zero-length frame keeps appending as the source does.
- The array-valued assignments `buffer[1] = [x]` store and pass on `x`, which is what the JavaScript coercion does. The model writes `x`.
- Point coordinates are integers, as the decoded landmark coordinates are. `Point.distence` (floating-point `Math.sqrt`) and `toString` are left out.
- Number widths: lengths and CRC fields are unbounded integers. In every reachable state they stay below 2^24, so `(x << 8) | c` equals `x * 256 + c`.
- lib/YtVisionSeed.js, the request builders over `sendRpcMsg`, is not part of this model. The `getResult` decoder used by the examples is not part of this model either.
- General CRC error detection is not proved: that a flipped bit is always caught is a property of CRC-16 itself. What is proved is that a payload is emitted only when its received CRC equals the CRC of the stored bytes (`Receiver.StepEmission`).
