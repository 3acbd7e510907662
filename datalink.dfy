/** The `YtDataLink` object of lib/YtDataLink.js: the receive state kept in its fields and
    advanced by `recvRunOnce` over a byte queue that persists across calls, the framing and
    escaping done by `write`, and the table of RPC callbacks waiting for a response.
    The serial port is reduced to whether one is attached (`portOpen`) and to the list of
    buffers handed to it (`sent`). */
module DataLink {
  import opened Crc16
  import opened Framing
  import opened Receiver
  import opened Rpc

  /** The error `write` reports when no port is attached (`e.toString()` of the thrown
      `Error`). */
  const PortClosed: string := "Error: 端口未打开"

  class YtDataLink {
    // The receive queue (`array`) and its length `cursor`.
    var queue: seq<bv8>
    var cursor: int
    // The receive state machine.
    var mStatus: Status
    var mMsgLen: int
    var mCrc: int
    var mCrcCalc: bv16
    var mTrans: bool
    /** The payload bytes stored so far (`mBuf[0 .. mBufi)`). */
    var mBuf: seq<bv8>
    var mBufi: int
    // The send side.
    var mCrcSendCalc: bv16
    var portOpen: bool
    /** Every buffer handed to `port.write`, oldest first. */
    var sent: seq<seq<bv8>>
    // RPC correlation.
    var rpcId: nat
    var rpcCalls: map<nat, Callback>

    /** The receive state as a value of the pure state machine. */
    function State(): Rx
      reads this
    {
      Rx(mStatus, mMsgLen, mCrc, mCrcCalc, mTrans, mBuf)
    }

    /** The object invariant: the queue length is tracked by `cursor`, the fill count by
        `mBufi`, the receive state is reachable, and every pending RPC id was handed out. */
    ghost predicate Valid()
      reads this
    {
      && cursor == |queue|
      && mBufi == |mBuf|
      && Wf(State())
      && (forall id | id in rpcCalls :: id < rpcId)
    }

    constructor ()
      ensures Valid()
      ensures State() == Initial && queue == []
      ensures mCrcSendCalc == Seed && !portOpen && sent == []
      ensures rpcId == 0 && rpcCalls == map[]
    {
      queue := [];
      cursor := 0;
      mStatus := Idle;
      mMsgLen := 0;
      mCrc := 0;
      mCrcCalc := 0xFFFF;
      mTrans := false;
      mBuf := [];
      mBufi := 0;
      mCrcSendCalc := 0xFFFF;
      portOpen := false;
      sent := [];
      rpcId := 0;
      rpcCalls := map[];
    }

    /** `crcUpdate(ch, first)`. */
    method CrcUpdate(ch: bv8, first: bool)
      modifies this`mCrcCalc
      ensures mCrcCalc == CrcStep(old(mCrcCalc), ch, first)
    {
      if first {
        mCrcCalc := 0xFFFF;
      }
      mCrcCalc := CrcNext(mCrcCalc, ch);
    }

    /** `crcSendUpdate(ch, first)`: the same step on the send accumulator. Called with
        `first` exactly at the start of a field, and otherwise on an accumulator holding the
        CRC of the field's bytes `seen` so far, it leaves the CRC of `seen` and `ch`. */
    method CrcSendUpdate(ch: bv8, first: bool, ghost seen: seq<bv8>)
      requires first <==> seen == []
      requires !first ==> mCrcSendCalc == Crc(seen)
      modifies this`mCrcSendCalc
      ensures mCrcSendCalc == Crc(seen + [ch])
    {
      CrcExtend(seen, mCrcSendCalc, ch);
      if first {
        mCrcSendCalc := 0xFFFF;
      }
      mCrcSendCalc := CrcNext(mCrcSendCalc, ch);
    }

    /** One turn of the loop of `recvRunOnce` on the raw byte `raw`: the same transition as
        `Step`, with the payload it completes, if any. */
    method RecvByte(raw: bv8) returns (out: seq<seq<bv8>>)
      requires Valid()
      modifies this`mStatus, this`mMsgLen, this`mCrc, this`mCrcCalc, this`mTrans, this`mBuf, this`mBufi
      ensures Valid()
      ensures Fed(State(), out) == Step(old(State()), raw)
    {
      StepPreservesWf(State(), raw);
      out := [];
      var ch := raw;
      if ch == SOF {
        mStatus := Len1Pending;
      } else if ch == TRANS {
        mTrans := true;
      } else {
        if mTrans {
          ch := ch ^ TRANS;
          mTrans := false;
        }
        out := DispatchByte(ch);
      }
    }

    /** The `switch (this.mStatus)` of `recvRunOnce` on an unescaped byte. The cases that
        fall through in the source (LEN1 into LEN2/LEN3, CRC_H into CRC_L) share one method
        here, with the source's tests on `mStatus` inside it. */
    method DispatchByte(ch: bv8) returns (out: seq<seq<bv8>>)
      requires mBufi == |mBuf|
      modifies this`mStatus, this`mMsgLen, this`mCrc, this`mCrcCalc, this`mBuf, this`mBufi
      ensures mBufi == |mBuf|
      ensures Fed(State(), out) == Dispatch(old(State()), ch)
    {
      out := [];
      match mStatus
      case Idle =>
      case Len1Pending | Len2Pending | Len3Pending =>
        LengthByte(ch);
      case LenCrcH | LenCrcL =>
        LengthCrcByte(ch);
      case Data =>
        DataByte(ch);
      case CrcH | CrcL =>
        out := PayloadCrcByte(ch);
    }

    /** LEN1_PENDING (which first clears `mMsgLen` and `mCrc`), LEN2_PENDING and
        LEN3_PENDING: one more length byte into the length and its CRC, and the length cap
        after the third. */
    method LengthByte(ch: bv8)
      requires mStatus == Len1Pending || mStatus == Len2Pending || mStatus == Len3Pending
      modifies this`mStatus, this`mMsgLen, this`mCrc, this`mCrcCalc
      ensures Fed(State(), []) == Dispatch(old(State()), ch)
    {
      if mStatus == Len1Pending {
        mMsgLen := 0;
        mCrc := 0;
      }
      CrcUpdate(ch, mStatus == Len1Pending);
      // (mMsgLen << 8) | ch
      mMsgLen := mMsgLen * 0x100 + ch as int;
      if mStatus == Len3Pending && mMsgLen > MaxMsgLen {
        mStatus := Idle;
      } else {
        mStatus := Next(mStatus);
      }
    }

    /** LEN_CRC_H and LEN_CRC_L: the length CRC received is compared with the one computed;
        on a match the payload buffer is started. */
    method LengthCrcByte(ch: bv8)
      requires (mStatus == LenCrcH || mStatus == LenCrcL) && mBufi == |mBuf|
      modifies this`mStatus, this`mCrc, this`mBuf, this`mBufi
      ensures mBufi == |mBuf|
      ensures Fed(State(), []) == Dispatch(old(State()), ch)
    {
      mCrc := mCrc * 0x100 + ch as int;
      if mStatus == LenCrcH {
        mStatus := Next(mStatus);
      } else if mCrcCalc as int != mCrc {
        mStatus := Idle;
      } else {
        mStatus := Next(mStatus);
        mBuf := [];
        mBufi := 0;
      }
    }

    /** DATA: the byte is stored and added to the payload CRC (restarted on the first
        byte); once `mMsgLen` bytes are stored the payload CRC field follows. */
    method DataByte(ch: bv8)
      requires mStatus == Data && mBufi == |mBuf|
      modifies this`mStatus, this`mCrcCalc, this`mBuf, this`mBufi
      ensures mBufi == |mBuf|
      ensures Fed(State(), []) == Dispatch(old(State()), ch)
    {
      CrcUpdate(ch, mBufi == 0);
      mBuf := mBuf + [ch];
      mBufi := mBufi + 1;
      if mBufi == mMsgLen {
        mStatus := Next(mStatus);
      }
    }

    /** CRC_H (which first clears `mCrc`) and CRC_L: on the second byte the payload CRC
        received is compared with the one computed, and the stored payload is emitted when
        they match. */
    method PayloadCrcByte(ch: bv8) returns (out: seq<seq<bv8>>)
      requires mStatus == CrcH || mStatus == CrcL
      modifies this`mStatus, this`mCrc
      ensures Fed(State(), out) == Dispatch(old(State()), ch)
    {
      out := [];
      if mStatus == CrcH {
        mCrc := 0;
      }
      mCrc := mCrc * 0x100 + ch as int;
      if mStatus == CrcL {
        if mCrcCalc as int != mCrc {
          mStatus := Idle;
        } else {
          out := [mBuf];
          mStatus := Idle;
        }
      } else {
        mStatus := Next(mStatus);
      }
    }

    /** `recvRunOnce(buffer)`: queue the bytes, then consume the whole queue. The state
        reached and the payloads emitted are those of feeding the queue to the pure state
        machine, so consecutive calls compose like `FeedAppend` says. */
    method RecvRunOnce(buffer: seq<bv8>) returns (frames: seq<seq<bv8>>)
      requires Valid()
      modifies this`queue, this`cursor, this`mStatus, this`mMsgLen, this`mCrc, this`mCrcCalc,
               this`mTrans, this`mBuf, this`mBufi
      ensures Valid()
      ensures queue == [] && cursor == 0
      ensures Fed(State(), frames) == Feed(old(State()), old(queue) + buffer)
    {
      cursor := cursor + |buffer|;
      queue := queue + buffer;
      frames := [];
      while cursor > 0
        invariant Valid()
        invariant Feed(old(State()), old(queue) + buffer) == Resume(State(), frames, queue)
        decreases cursor
      {
        ResumeStep(State(), frames, queue);
        var ch := queue[0];
        queue := queue[1..];
        cursor := cursor - 1;
        var out := RecvByte(ch);
        frames := frames + out;
      }
    }

    /** `write(bytes, cbError)` up to `port.write`: the frame is built in `buffer`, the
        markers after index 0 are counted, and `transedBuffer` receives the escaped frame,
        which is what the port is handed. Without a port the error is returned instead. */
    method Write(bytes: seq<bv8>) returns (err: Option<string>)
      modifies this`mCrcSendCalc, this`sent
      ensures portOpen ==> err == None && sent == old(sent) + [Encode(bytes)]
      ensures portOpen ==> mCrcSendCalc == PayloadCrc(bytes)
      ensures !portOpen ==> err == Some(PortClosed) && sent == old(sent)
      ensures !portOpen ==> mCrcSendCalc == old(mCrcSendCalc)
    {
      if !portOpen {
        return Some(PortClosed);
      }
      var buffer, transLen := BuildFrame(bytes);
      var transedBuffer := EscapeFrame(buffer, transLen);
      FrameEscapedLength(bytes);
      sent := sent + [transedBuffer[..]];
      err := None;
    }

    /** The first half of `write`: `buffer` holds the unescaped frame and `transLen` the
        number of marker bytes after its first. */
    method BuildFrame(bytes: seq<bv8>) returns (buffer: array<bv8>, transLen: nat)
      modifies this`mCrcSendCalc
      ensures fresh(buffer)
      ensures buffer[..] == Frame(bytes)
      ensures transLen == CountMarkers(Frame(bytes)[1..])
      ensures mCrcSendCalc == PayloadCrc(bytes)
    {
      var n := |bytes| + 8;
      buffer := new bv8[n](_ => 0);
      WriteHeader(buffer, |bytes|);
      CopyPayload(buffer, bytes);
      ghost var filled := buffer[..];
      transLen := PayloadPass(buffer, bytes);
      var crcField := CrcBytes(mCrcSendCalc);
      buffer[n - 2] := crcField[0];
      buffer[n - 1] := crcField[1];
      ghost var frame := buffer[..];
      assert frame[..n - 2] == filled[..n - 2];
      assert frame[..6] == filled[..6] && frame[6..n - 2] == filled[6..n - 2];
      assert frame[n - 2..] == crcField;
      transLen := TrailerPass(buffer, transLen);
      TrailerCount(filled, frame);
      FrameLayout(bytes, frame);
    }

    /** `bytesBuffer.copy(buffer, 6)`: the payload copied after the six header bytes; the
        other bytes are kept. */
    method CopyPayload(buffer: array<bv8>, bytes: seq<bv8>)
      requires buffer.Length == |bytes| + 8
      modifies buffer
      ensures buffer[..6] == old(buffer[..6])
      ensures buffer[6..buffer.Length - 2] == bytes
      ensures forall k | buffer.Length - 2 <= k < buffer.Length :: buffer[k] == old(buffer[k])
    {
      forall k | 0 <= k < |bytes| {
        buffer[6 + k] := bytes[k];
      }
    }

    /** The first loop of `write`: the payload CRC over the bytes after the header and
        before the CRC field, and the markers after index 0 counted. */
    method PayloadPass(buffer: array<bv8>, bytes: seq<bv8>) returns (transLen: nat)
      requires buffer.Length == |bytes| + 8 && buffer[6..buffer.Length - 2] == bytes
      requires mCrcSendCalc == Crc(LenBytes(|bytes|))
      modifies this`mCrcSendCalc
      ensures transLen == CountMarkers(buffer[1..])
      ensures mCrcSendCalc == PayloadCrc(bytes)
    {
      var n := buffer.Length;
      transLen := 0;
      var i := 1;
      while i < n
        invariant 1 <= i <= n
        invariant transLen == CountMarkers(buffer[1..i])
        invariant i <= 6 ==> mCrcSendCalc == Crc(LenBytes(|bytes|))
        invariant 6 < i <= n - 2 ==> mCrcSendCalc == Crc(bytes[..i - 6])
        invariant n - 2 < i ==> mCrcSendCalc == PayloadCrc(bytes)
      {
        if 6 <= i < n - 2 {
          assert buffer[i] == buffer[6..n - 2][i - 6] == bytes[i - 6];
          PayloadCrcStep(bytes, i - 6);
          CrcSendUpdate(buffer[i], i == 6, bytes[..i - 6]);
        } else if i == n - 2 && i > 6 {
          assert bytes[..i - 6] == bytes;
        }
        MarkerCountStep(buffer[..], 1, i);
        if buffer[i] == SOF || buffer[i] == TRANS {
          transLen := transLen + 1;
        }
        i := i + 1;
      }
      assert buffer[1..n] == buffer[1..];
    }

    /** The second loop of `write`: the markers in the payload CRC field added to the count. */
    method TrailerPass(buffer: array<bv8>, counted: nat) returns (transLen: nat)
      requires buffer.Length >= 2
      ensures transLen == counted + CountMarkers(buffer[buffer.Length - 2..])
    {
      var n := buffer.Length;
      transLen := counted;
      var i := n - 2;
      while i < n
        invariant n - 2 <= i <= n
        invariant transLen == counted + CountMarkers(buffer[n - 2..i])
      {
        MarkerCountStep(buffer[..], n - 2, i);
        if buffer[i] == SOF || buffer[i] == TRANS {
          transLen := transLen + 1;
        }
        i := i + 1;
      }
      assert buffer[n - 2..n] == buffer[n - 2..];
    }

    /** The six header bytes of `write`: SOF, the length big-endian, and the CRC of the
        length, which the send accumulator then holds. */
    method WriteHeader(buffer: array<bv8>, len: nat)
      requires buffer.Length == len + 8
      modifies buffer, this`mCrcSendCalc
      ensures buffer[..6] == [SOF] + LenBytes(len) + CrcBytes(Crc(LenBytes(len)))
      ensures forall k | 6 <= k < buffer.Length :: buffer[k] == old(buffer[k])
      ensures mCrcSendCalc == Crc(LenBytes(len))
    {
      var lb := LenBytes(len);
      buffer[0] := SOF;
      buffer[1] := lb[0];
      CrcSendUpdate(buffer[1], true, []);
      assert [] + [lb[0]] == lb[..1];
      buffer[2] := lb[1];
      CrcSendUpdate(buffer[2], false, lb[..1]);
      assert lb[..1] + [lb[1]] == lb[..2];
      buffer[3] := lb[2];
      CrcSendUpdate(buffer[3], false, lb[..2]);
      assert lb[..2] + [lb[2]] == lb;
      var crcField := CrcBytes(mCrcSendCalc);
      buffer[4] := crcField[0];
      buffer[5] := crcField[1];
      assert buffer[..6] == [SOF] + lb + crcField;
    }

    /** The second half of `write`: every marker after index 0 is replaced by TRANS and the
        marker XOR TRANS. */
    method EscapeFrame(buffer: array<bv8>, transLen: nat) returns (transedBuffer: array<bv8>)
      requires buffer.Length > 0 && transLen == CountMarkers(buffer[1..])
      ensures fresh(transedBuffer)
      ensures transedBuffer[..] == Escape(buffer[..])
    {
      ghost var frame := buffer[..];
      EscapeAllLength(frame[1..]);
      ghost var emitted: seq<bv8> := [];
      var idx := 0;
      transedBuffer := new bv8[buffer.Length + transLen];
      var i := 0;
      while i < buffer.Length
        invariant 0 <= i <= buffer.Length && idx == |emitted| <= transedBuffer.Length
        invariant transedBuffer[..idx] == emitted
        invariant i == 0 ==> emitted == []
        invariant i > 0 ==> emitted + EscapeAll(frame[i..]) == Escape(frame)
        invariant i > 0 ==> idx + |EscapeAll(frame[i..])| == transedBuffer.Length
      {
        var b := buffer[i];
        assert b == frame[i];
        if (b == SOF || b == TRANS) && i > 0 {
          EscapeStep(frame, i, emitted);
          emitted := emitted + [TRANS, b ^ TRANS];
          transedBuffer[idx] := TRANS;
          transedBuffer[idx + 1] := b ^ TRANS;
          assert transedBuffer[..idx + 2] == transedBuffer[..idx] + [TRANS, b ^ TRANS];
          idx := idx + 2;
        } else {
          if i > 0 {
            EscapeStep(frame, i, emitted);
          }
          emitted := emitted + [b];
          transedBuffer[idx] := b;
          assert transedBuffer[..idx + 1] == transedBuffer[..idx] + [b];
          idx := idx + 1;
        }
        i := i + 1;
      }
      assert frame[i..] == [];
      assert transedBuffer[..] == transedBuffer[..idx];
    }

    /** `genRpcId()`: the current id, then the counter moves on. The id is not a key of any
        pending call, so registering it never replaces one. */
    method GenRpcId() returns (id: nat)
      requires Valid()
      modifies this`rpcId
      ensures Valid()
      ensures id == old(rpcId) && rpcId == id + 1
      ensures id !in rpcCalls
    {
      id := rpcId;
      rpcId := rpcId + 1;
    }

    /** `_sendRpcMsg(rpc, cb)`: a fresh id is taken and `cb` registered under it, the
        request is serialized with that id (`serialize` stands for setting the sequence id
        and `serializeBinary`) and written. When `write` fails, `cb` is called with the
        error and stays registered. */
    method SendRpcMsg(cb: Callback, serialize: nat -> seq<bv8>) returns (failure: Option<Invocation>)
      requires Valid()
      modifies this`rpcId, this`rpcCalls, this`mCrcSendCalc, this`sent
      ensures Valid()
      ensures rpcId == old(rpcId) + 1
      ensures old(rpcId) !in old(rpcCalls) && rpcCalls == old(rpcCalls)[old(rpcId) := cb]
      ensures portOpen ==> failure == None && sent == old(sent) + [Encode(serialize(old(rpcId)))]
      ensures !portOpen ==> failure == Some(Invocation(cb, Some(PortClosed), None)) && sent == old(sent)
    {
      var rpcid := GenRpcId();
      rpcCalls := rpcCalls[rpcid := cb];
      var bytes := serialize(rpcid);
      var err := Write(bytes);
      failure := if err.Some? then Some(Invocation(cb, err, None)) else None;
    }

    /** The response part of handling a received message: the callback registered under
        the response's sequence id is called once, with the error for its code, and only
        that entry is deleted; an unknown id calls nothing and changes nothing. */
    method DispatchResponse(response: RpcResponse) returns (call: Option<Invocation>)
      requires Valid()
      modifies this`rpcCalls
      ensures Valid()
      ensures response.sequenceid.None? ==> call == None && rpcCalls == old(rpcCalls)
      ensures response.sequenceid.Some? ==>
                var id := response.sequenceid.value;
                && rpcCalls == old(rpcCalls) - {id}
                && (id in old(rpcCalls) ==> call == Some(Invocation(old(rpcCalls)[id], RpcError(response.code), Some(response))))
                && (id !in old(rpcCalls) ==> call == None && rpcCalls == old(rpcCalls))
    {
      call := None;
      if response.sequenceid.Some? {
        var id := response.sequenceid.value;
        if id in rpcCalls {
          var cb := rpcCalls[id];
          var err := None;
          if response.code != Succ && response.code != Continue {
            err := Some(ErrMsg(response.code));
          }
          call := Some(Invocation(cb, err, Some(response)));
        }
        rpcCalls := rpcCalls - {id};
      }
    }

    /** `this.port = new SerialPort(...)` once opened. */
    method AttachPort()
      modifies this`portOpen
      ensures portOpen
    {
      portOpen := true;
    }

    /** `this.port = null`, on close or when opening failed. */
    method DetachPort()
      modifies this`portOpen
      ensures !portOpen
    {
      portOpen := false;
    }
  }

  /** What feeding `q` from `rx` leaves, after `frames` were already emitted. */
  ghost function Resume(rx: Rx, frames: seq<seq<bv8>>, q: seq<bv8>): Fed {
    var g := Feed(rx, q);
    Fed(g.rx, frames + g.frames)
  }

  /** Taking the queue's first byte through one step keeps what feeding the rest leaves. */
  lemma ResumeStep(rx: Rx, frames: seq<seq<bv8>>, q: seq<bv8>)
    requires q != []
    ensures Resume(rx, frames, q) == Resume(Step(rx, q[0]).rx, frames + Step(rx, q[0]).frames, q[1..])
  {
    var f := Step(rx, q[0]);
    var g := Feed(f.rx, q[1..]);
    assert Feed(rx, q) == Fed(g.rx, f.frames + g.frames);
    assert frames + (f.frames + g.frames) == (frames + f.frames) + g.frames;
  }

  /** Counting markers one more element into a slice. */
  lemma MarkerCountStep(s: seq<bv8>, lo: nat, hi: nat)
    requires lo <= hi < |s|
    ensures CountMarkers(s[lo..hi + 1]) == CountMarkers(s[lo..hi]) + (if IsMarker(s[hi]) then 1 else 0)
  {
    CountMarkersAppend(s[lo..hi], [s[hi]]);
    assert s[lo..hi] + [s[hi]] == s[lo..hi + 1];
    assert [s[hi]][1..] == [];
  }

  /** One byte of the payload CRC as `write` computes it: `first` exactly on the payload's
      first byte; after its last byte the accumulator holds the CRC written after it. */
  lemma PayloadCrcStep(payload: seq<bv8>, j: nat)
    requires j < |payload|
    ensures payload[..j] == [] <==> j == 0
    ensures payload[..j] + [payload[j]] == payload[..j + 1]
    ensures j + 1 == |payload| ==> Crc(payload[..j + 1]) == PayloadCrc(payload)
  {
    assert payload[..j] + [payload[j]] == payload[..j + 1];
    if j + 1 == |payload| {
      assert payload[..j + 1] == payload;
    }
  }

  /** The first count ran over the frame with its payload CRC field still zero, so adding
      the markers of the field once it is written gives the markers of the frame. */
  lemma TrailerCount(filled: seq<bv8>, frame: seq<bv8>)
    requires |filled| == |frame| >= 3
    requires filled[|filled| - 2] == 0 && filled[|filled| - 1] == 0
    requires frame[..|frame| - 2] == filled[..|filled| - 2]
    ensures CountMarkers(filled[1..]) + CountMarkers(frame[|frame| - 2..]) == CountMarkers(frame[1..])
  {
    var n := |frame|;
    CountMarkersAppend(filled[1..n - 2], filled[n - 2..]);
    assert filled[1..n - 2] + filled[n - 2..] == filled[1..];
    var zeros := filled[n - 2..];
    assert zeros[0] == 0 && zeros[1..][0] == 0 && zeros[1..][1..] == [];
    assert CountMarkers(zeros[1..]) == 0;
    assert CountMarkers(zeros) == 0;
    CountMarkersAppend(frame[1..n - 2], frame[n - 2..]);
    assert frame[1..n - 2] + frame[n - 2..] == frame[1..];
    assert frame[1..n - 2] == filled[1..n - 2];
  }

  /** A buffer laid out field by field is the frame of its payload. */
  lemma FrameLayout(payload: seq<bv8>, s: seq<bv8>)
    requires |s| == |payload| + 8
    requires s[..6] == [SOF] + LenBytes(|payload|) + CrcBytes(Crc(LenBytes(|payload|)))
    requires s[6..|s| - 2] == payload
    requires s[|s| - 2..] == CrcBytes(PayloadCrc(payload))
    ensures s == Frame(payload)
  {
    assert s == s[..6] + s[6..|s| - 2] + s[|s| - 2..];
  }

  /** Escaping byte `i` of the frame extends what was emitted for the bytes before it. */
  lemma EscapeStep(frame: seq<bv8>, i: nat, emitted: seq<bv8>)
    requires 0 < i < |frame|
    requires emitted + EscapeAll(frame[i..]) == Escape(frame)
    ensures (emitted + EscapeByte(frame[i])) + EscapeAll(frame[i + 1..]) == Escape(frame)
    ensures |EscapeAll(frame[i..])| == |EscapeByte(frame[i])| + |EscapeAll(frame[i + 1..])|
  {
    assert frame[i..][0] == frame[i] && frame[i..][1..] == frame[i + 1..];
  }

  /** The escaped frame is as long as the frame plus one byte per marker after index 0. */
  lemma FrameEscapedLength(payload: seq<bv8>)
    ensures |Escape(Frame(payload))| == |Frame(payload)| + CountMarkers(Frame(payload)[1..])
  {
    EscapeAllLength(Frame(payload)[1..]);
  }
}
