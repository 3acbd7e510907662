/** The RPC layer on top of the YtDataLink transport (lib/YtDataLink.js): the response
    codes and their error messages (`getErrMsg`), the values a response delivers to the
    callback waiting for it, and the chunking `sendFile` applies to a file before it is
    uploaded one `UPLOADFILE` request per chunk. */
module Rpc {

  datatype Option<T> = None | Some(value: T)

  /** `YtRpcResponse.ReturnCode`. The numeric values live in the generated protobuf code,
      which is not part of this model, so the codes the source names are constructors and
      every other code is `Other`. */
  datatype ReturnCode =
    | Succ
    | Continue
    | ErrorRegisterFaceIdTimeout
    | ErrorFileExceedLimits
    | ErrorRegisterFaceIdNoFaceDetected
    | ErrorRegisterFaceIdTooManyFaces
    | ErrorRegisterFaceIdFileNotReadable
    | ErrorRegisterFaceIdLibFull
    | ErrorFaceIdNotExist
    | Other(code: int)

  /** The message for codes the table does not map. */
  const UnknownError: string := "未知错误"

  /** `getErrMsg(code)`: the table of seven messages, with the default for any other code. */
  function ErrMsg(code: ReturnCode): string {
    match code
    case ErrorRegisterFaceIdTimeout => "在指定时间内，没有检测到合格人脸"
    case ErrorFileExceedLimits => "文件超过大小/尺寸限制"
    case ErrorRegisterFaceIdNoFaceDetected => "没有检测到人脸"
    case ErrorRegisterFaceIdTooManyFaces => "人脸太多"
    case ErrorRegisterFaceIdFileNotReadable => "无效文件"
    case ErrorRegisterFaceIdLibFull => "库满了"
    case ErrorFaceIdNotExist => "FaceID不存在"
    case _ => UnknownError
  }

  /** The codes that have an entry in the message table. */
  predicate IsMapped(code: ReturnCode) {
    !(code.Succ? || code.Continue? || code.Other?)
  }

  /** Every message is non-empty (so the table's truthiness test only falls back to the
      default for missing entries), a mapped code never gets the default, and different
      mapped codes get different messages. */
  lemma ErrMsgTable(a: ReturnCode, b: ReturnCode)
    ensures |ErrMsg(a)| > 0
    ensures ErrMsg(a) == UnknownError <==> !IsMapped(a)
    ensures IsMapped(a) && IsMapped(b) && ErrMsg(a) == ErrMsg(b) ==> a == b
  {
    if IsMapped(a) {
      assert ErrMsg(a)[0] != UnknownError[0] || |ErrMsg(a)| != |UnknownError|;
    }
    if IsMapped(a) && IsMapped(b) && a != b {
      assert ErrMsg(a)[0] != ErrMsg(b)[0] || |ErrMsg(a)| != |ErrMsg(b)|;
    }
  }

  /** The error handed to a waiting callback: none for SUCC and CONTINUE, the message of
      the code for every other one. */
  function RpcError(code: ReturnCode): (err: Option<string>)
    ensures err.None? <==> code == Succ || code == Continue
    ensures err.Some? ==> err.value == ErrMsg(code) && |err.value| > 0
  {
    ErrMsgTable(code, code);
    if code != Succ && code != Continue then Some(ErrMsg(code)) else None
  }

  /** The part of a decoded `YtMsg.response` the dispatch looks at; a response without a
      sequence id has `sequenceid == None`. */
  datatype RpcResponse = RpcResponse(sequenceid: Option<nat>, code: ReturnCode)

  /** A callback registered by `_sendRpcMsg`, identified by an opaque handle. */
  datatype Callback = Callback(handle: nat)

  /** One call `cb(err, msg)`: the response is absent when `write` reports an error. */
  datatype Invocation = Invocation(cb: Callback, err: Option<string>, response: Option<RpcResponse>)

  // ---------------------------------------------------------------------------------------
  // sendFile chunking

  /** Largest chunk one `UPLOADFILE` request carries (`fileBlobSize`). */
  const FileBlobSize: nat := 131072

  /** The parameters of one `_sendFilePackage` call: the chunk, its offset in the file and
      the file's total length. */
  datatype FilePart = FilePart(offset: nat, totalLength: nat, data: seq<bv8>)

  function Min(a: int, b: int): int {
    if a < b then a else b
  }

  /** Number of chunks a file of `size` bytes is cut into: `ceil(size / 131072)`. */
  function ChunkCount(size: nat): nat {
    (size + FileBlobSize - 1) / FileBlobSize
  }

  /** The concatenation of the chunks' data. */
  function Joined(parts: seq<FilePart>): seq<bv8>
    decreases |parts|
  {
    if parts == [] then [] else Joined(parts[..|parts| - 1]) + parts[|parts| - 1].data
  }

  /** The `k`-th part the loop produces for a file: offset `k * 131072`, size
      `min(remaining, 131072)`. */
  predicate IsChunk(data: seq<bv8>, k: nat, part: FilePart) {
    && part.offset == k * FileBlobSize
    && part.offset < |data|
    && part.totalLength == |data|
    && part.data == data[part.offset .. part.offset + Min(|data| - part.offset, FileBlobSize)]
  }

  /** The loop of `sendFile` over a file's bytes: one part per request, in order. The
      requests themselves, and waiting for each response, are left to the caller. */
  method SendFile(data: seq<bv8>) returns (parts: seq<FilePart>)
    ensures |parts| == ChunkCount(|data|)
    ensures forall k | 0 <= k < |parts| :: IsChunk(data, k, parts[k])
    ensures Joined(parts) == data
  {
    var totalLength := |data|;
    var currentOffset := 0;
    var remaining := totalLength;
    var sizeToTransmit := 0;
    parts := [];
    while remaining > 0
      invariant 0 <= currentOffset <= totalLength
      invariant remaining == totalLength - currentOffset
      invariant remaining > 0 ==> currentOffset == |parts| * FileBlobSize
      invariant |parts| == ChunkCount(currentOffset)
      invariant forall k | 0 <= k < |parts| :: IsChunk(data, k, parts[k])
      invariant Joined(parts) == data[..currentOffset]
      decreases remaining
    {
      sizeToTransmit := if remaining > FileBlobSize then FileBlobSize else remaining;
      var buf := data[currentOffset .. currentOffset + sizeToTransmit];
      var part := FilePart(currentOffset, totalLength, buf);
      assert IsChunk(data, |parts|, part);
      ChunkCountStep(|parts|, sizeToTransmit);
      parts := parts + [part];
      assert data[..currentOffset + sizeToTransmit] == data[..currentOffset] + buf;
      currentOffset := currentOffset + sizeToTransmit;
      remaining := totalLength - currentOffset;
    }
    assert data[..currentOffset] == data;
  }

  lemma QuotientByBlob(x: int, q: int, r: int)
    requires 0 <= r < FileBlobSize && x == q * FileBlobSize + r
    ensures x / FileBlobSize == q
  {
  }

  /** After `n` full chunks, one more chunk of 1 to 131072 bytes makes `n + 1` of them. */
  lemma ChunkCountStep(n: nat, size: nat)
    requires 0 < size <= FileBlobSize
    ensures ChunkCount(n * FileBlobSize + size) == n + 1
  {
    QuotientByBlob(n * FileBlobSize + size + FileBlobSize - 1, n + 1, size - 1);
  }
}
