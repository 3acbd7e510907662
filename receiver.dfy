/** The receive side of the YtDataLink transport as a pure state machine: the state kept in
    the fields of a `YtDataLink` object, one transition per raw byte (the body of the loop in
    `recvRunOnce`, lib/YtDataLink.js), and its fold over a byte stream. The class in
    datalink.dfy runs the same machine imperatively and is proved equal to `Feed`. */
module Receiver {
  import opened Crc16
  import opened Framing

  /** `YtDataLinkStatus`, in the source's numeric order (`mStatus + 1` is `Next`). */
  datatype Status = Idle | Len1Pending | Len2Pending | Len3Pending | LenCrcH | LenCrcL | Data | CrcH | CrcL

  function Next(s: Status): Status {
    match s
    case Idle => Len1Pending
    case Len1Pending => Len2Pending
    case Len2Pending => Len3Pending
    case Len3Pending => LenCrcH
    case LenCrcH => LenCrcL
    case LenCrcL => Data
    case Data => CrcH
    case CrcH => CrcL
    case CrcL => CrcL
  }

  /** Decoder session state: `mStatus`, `mMsgLen`, `mCrc` (the CRC bytes received),
      `mCrcCalc` (the CRC computed), `mTrans` (escape pending) and the payload bytes stored
      since the length CRC was accepted (`mBuf[0 .. mBufi)`). */
  datatype Rx = Rx(status: Status, msgLen: int, crc: int, crcCalc: bv16, trans: bool, buf: seq<bv8>)

  /** The state a fresh `YtDataLink` starts in. */
  const Initial: Rx := Rx(Idle, 0, 0, Seed, false, [])

  /** A new state and the payloads emitted on the way to it, oldest first. */
  datatype Fed = Fed(rx: Rx, frames: seq<seq<bv8>>)

  /** The byte the state machine sees for a raw byte that is neither SOF nor TRANS. */
  function Unescaped(rx: Rx, ch: bv8): bv8 {
    if rx.trans then ch ^ TRANS else ch
  }

  /** The `switch (this.mStatus)` of `recvRunOnce` on an already unescaped byte `c`.
      `(x << 8) | c` is `x * 256 + c`: in every reachable state (`Wf`) `x` is below 2^16. */
  function Dispatch(rx: Rx, c: bv8): Fed {
    match rx.status
    case Idle => Fed(rx, [])
    case Len1Pending | Len2Pending | Len3Pending => LengthField(rx, c)
    case LenCrcH | LenCrcL => LengthCrcField(rx, c)
    case Data => DataField(rx, c)
    case CrcH | CrcL => PayloadCrcField(rx, c)
  }

  /** LEN1_PENDING, LEN2_PENDING, LEN3_PENDING: one more byte of the length and its CRC;
      a length above the cap drops the frame. */
  function LengthField(rx: Rx, c: bv8): Fed
    requires rx.status == Len1Pending || rx.status == Len2Pending || rx.status == Len3Pending
  {
    match rx.status
    case Len1Pending =>
      // mMsgLen and mCrc are reset to 0, then the shared length code runs with first = true
      Fed(rx.(status := Len2Pending, msgLen := c as int, crc := 0, crcCalc := CrcStep(rx.crcCalc, c, true)), [])
    case Len2Pending =>
      Fed(rx.(status := Len3Pending, msgLen := rx.msgLen * 0x100 + c as int, crcCalc := CrcStep(rx.crcCalc, c, false)), [])
    case Len3Pending =>
      var len := rx.msgLen * 0x100 + c as int;
      var acc := CrcStep(rx.crcCalc, c, false);
      if len > MaxMsgLen then Fed(rx.(status := Idle, msgLen := len, crcCalc := acc), [])
      else Fed(rx.(status := LenCrcH, msgLen := len, crcCalc := acc), [])
  }

  /** LEN_CRC_H, LEN_CRC_L: the length CRC received, compared with the computed one. */
  function LengthCrcField(rx: Rx, c: bv8): Fed
    requires rx.status == LenCrcH || rx.status == LenCrcL
  {
    var crc := rx.crc * 0x100 + c as int;
    if rx.status == LenCrcH then Fed(rx.(status := LenCrcL, crc := crc), [])
    else if rx.crcCalc as int != crc then Fed(rx.(status := Idle, crc := crc), [])
    else Fed(rx.(status := Data, crc := crc, buf := []), [])
  }

  /** DATA: one payload byte, stored and added to the payload CRC. */
  function DataField(rx: Rx, c: bv8): Fed
    requires rx.status == Data
  {
    var buf := rx.buf + [c];
    var acc := CrcStep(rx.crcCalc, c, |rx.buf| == 0);
    Fed(rx.(status := if |buf| == rx.msgLen then CrcH else Data, crcCalc := acc, buf := buf), [])
  }

  /** CRC_H, CRC_L: the payload CRC received; on a match the payload is emitted. */
  function PayloadCrcField(rx: Rx, c: bv8): Fed
    requires rx.status == CrcH || rx.status == CrcL
  {
    if rx.status == CrcH then
      // mCrc is reset to 0, then (0 << 8) | c
      Fed(rx.(status := CrcL, crc := c as int), [])
    else
      var crc := rx.crc * 0x100 + c as int;
      if rx.crcCalc as int != crc then Fed(rx.(status := Idle, crc := crc), [])
      else Fed(rx.(status := Idle, crc := crc), [rx.buf])
  }

  /** One raw byte: SOF restarts a frame (keeping the escape flag), TRANS only arms the
      escape flag, any other byte is unescaped, clears the flag and is dispatched. */
  function Step(rx: Rx, ch: bv8): Fed {
    if ch == SOF then Fed(rx.(status := Len1Pending), [])
    else if ch == TRANS then Fed(rx.(trans := true), [])
    else Dispatch(rx.(trans := false), Unescaped(rx, ch))
  }

  /** Feeding a byte stream, first byte first. */
  function Feed(rx: Rx, s: seq<bv8>): Fed
    decreases |s|
  {
    if s == [] then Fed(rx, [])
    else
      var f := Step(rx, s[0]);
      var g := Feed(f.rx, s[1..]);
      Fed(g.rx, f.frames + g.frames)
  }

  /** Dispatching a sequence of already unescaped bytes. */
  function Run(rx: Rx, s: seq<bv8>): Fed
    decreases |s|
  {
    if s == [] then Fed(rx, [])
    else
      var f := Dispatch(rx, s[0]);
      var g := Run(f.rx, s[1..]);
      Fed(g.rx, f.frames + g.frames)
  }

  /** Reachable states: the ranges of the length and CRC accumulators in each status, and
      the payload CRC kept over the stored payload. */
  ghost predicate Wf(rx: Rx) {
    match rx.status
    case Idle => true
    case Len1Pending => true
    case Len2Pending => 0 <= rx.msgLen < 0x100 && rx.crc == 0
    case Len3Pending => 0 <= rx.msgLen < 0x1_0000 && rx.crc == 0
    case LenCrcH => 0 <= rx.msgLen <= MaxMsgLen && rx.crc == 0
    case LenCrcL => 0 <= rx.msgLen <= MaxMsgLen && 0 <= rx.crc < 0x100
    case Data =>
      && 0 <= rx.msgLen <= MaxMsgLen
      && (rx.msgLen > 0 ==> |rx.buf| < rx.msgLen)
      && (rx.buf != [] ==> rx.crcCalc == Crc(rx.buf))
    case CrcH => 1 <= |rx.buf| == rx.msgLen <= MaxMsgLen && rx.crcCalc == Crc(rx.buf)
    case CrcL => 1 <= |rx.buf| == rx.msgLen <= MaxMsgLen && rx.crcCalc == Crc(rx.buf) && 0 <= rx.crc < 0x100
  }

  // ---------------------------------------------------------------------------------------
  // Byte rules and the single-step outcomes

  /** SOF moves to Len1Pending from every state, emits nothing, and leaves the escape flag
      as it was (a TRANS just before a SOF still applies to the byte after it). */
  lemma SofRestarts(rx: Rx)
    ensures Step(rx, SOF).rx.status == Len1Pending
    ensures Step(rx, SOF).rx.trans == rx.trans
    ensures Step(rx, SOF).frames == []
  {
  }

  /** TRANS is consumed: it only sets the escape flag. */
  lemma TransOnlyArms(rx: Rx)
    ensures Step(rx, TRANS) == Fed(rx.(trans := true), [])
  {
  }

  /** Un-stuffing inverts stuffing: with no escape pending, the raw bytes the encoder writes
      for `b` dispatch exactly `b`, and leave no escape pending. */
  lemma FeedEscapeByte(rx: Rx, b: bv8)
    requires !rx.trans
    ensures Feed(rx, EscapeByte(b)) == Dispatch(rx, b)
  {
    if IsMarker(b) {
      var armed := rx.(trans := true);
      assert Step(rx, TRANS) == Fed(armed, []);
      assert (b ^ TRANS) ^ TRANS == b;
      assert !IsMarker(b ^ TRANS);
      assert armed.(trans := false) == rx;
      var e := EscapeByte(b);
      assert e[0] == TRANS && e[1..] == [b ^ TRANS];
      assert Feed(armed, [b ^ TRANS]) == Dispatch(rx, b);
    } else {
      assert rx.(trans := false) == rx;
    }
  }

  lemma DispatchKeepsTrans(rx: Rx, c: bv8)
    ensures Dispatch(rx, c).rx.trans == rx.trans
  {
  }

  /** After the third length byte, a length above `MaxMsgLen` returns to Idle and emits
      nothing. */
  lemma OversizeRejected(rx: Rx, ch: bv8)
    requires rx.status == Len3Pending && !IsMarker(ch)
    requires rx.msgLen * 0x100 + Unescaped(rx, ch) as int > MaxMsgLen
    ensures Step(rx, ch).rx.status == Idle && Step(rx, ch).frames == []
  {
  }

  /** A length CRC that differs from the CRC computed over the three length bytes returns to
      Idle and emits nothing; a matching one starts an empty payload buffer. */
  lemma LenCrcChecked(rx: Rx, ch: bv8)
    requires rx.status == LenCrcL && !IsMarker(ch)
    ensures var received := rx.crc * 0x100 + Unescaped(rx, ch) as int;
            var f := Step(rx, ch);
            && f.frames == []
            && (received != rx.crcCalc as int ==> f.rx.status == Idle)
            && (received == rx.crcCalc as int ==> f.rx.status == Data && f.rx.buf == [])
  {
  }

  /** In a reachable state, a step emits a payload exactly when it completes the payload CRC
      field and the received CRC equals the CRC of the stored bytes; the payload emitted is
      those `mMsgLen` bytes, and completing the field returns to Idle either way. */
  lemma StepEmission(rx: Rx, ch: bv8)
    requires Wf(rx) && !IsMarker(ch)
    ensures var received := rx.crc * 0x100 + Unescaped(rx, ch) as int;
            var f := Step(rx, ch);
            && f.frames == (if rx.status == CrcL && received == Crc(rx.buf) as int then [rx.buf] else [])
            && (rx.status == CrcL ==> f.rx.status == Idle)
            && (f.frames != [] ==> 1 <= |rx.buf| == rx.msgLen <= MaxMsgLen)
  {
  }

  lemma StepPreservesWfHeader(rx: Rx, ch: bv8)
    requires Wf(rx) && rx.status in {Idle, Len1Pending, Len2Pending, Len3Pending}
    ensures Wf(Step(rx, ch).rx)
  {
  }

  lemma StepPreservesWfLenCrc(rx: Rx, ch: bv8)
    requires Wf(rx) && (rx.status == LenCrcH || rx.status == LenCrcL)
    ensures Wf(Step(rx, ch).rx)
  {
  }

  lemma StepPreservesWfCrc(rx: Rx, ch: bv8)
    requires Wf(rx) && (rx.status == CrcH || rx.status == CrcL)
    ensures Wf(Step(rx, ch).rx)
  {
  }

  lemma StepPreservesWfData(rx: Rx, ch: bv8)
    requires Wf(rx) && rx.status == Data
    ensures Wf(Step(rx, ch).rx)
  {
    if ch != SOF && ch != TRANS {
      CrcExtend(rx.buf, rx.crcCalc, Unescaped(rx, ch));
    }
  }

  /** Every step keeps the state reachable. */
  lemma StepPreservesWf(rx: Rx, ch: bv8)
    requires Wf(rx)
    ensures Wf(Step(rx, ch).rx)
  {
    if rx.status == Data {
      StepPreservesWfData(rx, ch);
    } else if rx.status in {Idle, Len1Pending, Len2Pending, Len3Pending} {
      StepPreservesWfHeader(rx, ch);
    } else if rx.status == LenCrcH || rx.status == LenCrcL {
      StepPreservesWfLenCrc(rx, ch);
    } else {
      StepPreservesWfCrc(rx, ch);
    }
  }

  /** Feeding any stream from a reachable state stays reachable and only ever emits payloads
      of 1 to `MaxMsgLen` bytes. */
  lemma {:induction false} FeedPreservesWf(rx: Rx, s: seq<bv8>)
    requires Wf(rx)
    ensures Wf(Feed(rx, s).rx)
    ensures forall f | f in Feed(rx, s).frames :: 1 <= |f| <= MaxMsgLen
    decreases |s|
  {
    if s != [] {
      var ch := s[0];
      StepPreservesWf(rx, ch);
      if !IsMarker(ch) {
        StepEmission(rx, ch);
      }
      FeedPreservesWf(Step(rx, ch).rx, s[1..]);
    }
  }

  // ---------------------------------------------------------------------------------------
  // Arbitrary chunking

  /** A left fold of a one-byte transition over a byte sequence, collecting the payloads
      each step emits. `Feed` and `Run` are the folds of `Step` and `Dispatch`. */
  ghost function FoldSteps(step: (Rx, bv8) -> Fed, rx: Rx, s: seq<bv8>): Fed
    decreases |s|
  {
    if s == [] then Fed(rx, [])
    else
      var f := step(rx, s[0]);
      var g := FoldSteps(step, f.rx, s[1..]);
      Fed(g.rx, f.frames + g.frames)
  }

  /** Folding over `a + b` is folding over `a`, then over `b` from where `a` left off. */
  lemma {:induction false} FoldAppend(step: (Rx, bv8) -> Fed, rx: Rx, a: seq<bv8>, b: seq<bv8>)
    ensures var fa := FoldSteps(step, rx, a);
            var fb := FoldSteps(step, fa.rx, b);
            FoldSteps(step, rx, a + b) == Fed(fb.rx, fa.frames + fb.frames)
    decreases |a|
  {
    if a == [] {
      assert a + b == b;
    } else {
      assert (a + b)[0] == a[0];
      assert (a + b)[1..] == a[1..] + b;
      FoldAppend(step, step(rx, a[0]).rx, a[1..], b);
    }
  }

  lemma {:induction false} FeedIsFold(rx: Rx, s: seq<bv8>)
    ensures Feed(rx, s) == FoldSteps(Step, rx, s)
    decreases |s|
  {
    if s != [] {
      FeedIsFold(Step(rx, s[0]).rx, s[1..]);
    }
  }

  lemma {:induction false} RunIsFold(rx: Rx, s: seq<bv8>)
    ensures Run(rx, s) == FoldSteps(Dispatch, rx, s)
    decreases |s|
  {
    if s != [] {
      RunIsFold(Dispatch(rx, s[0]).rx, s[1..]);
    }
  }

  /** Feeding `a + b` is feeding `a`, then `b` from where `a` left off: how the bytes are
      split across `recvRunOnce` calls changes neither the final state nor the payloads. */
  lemma FeedAppend(rx: Rx, a: seq<bv8>, b: seq<bv8>)
    ensures var fa := Feed(rx, a);
            var fb := Feed(fa.rx, b);
            Feed(rx, a + b) == Fed(fb.rx, fa.frames + fb.frames)
  {
    FeedIsFold(rx, a + b);
    FeedIsFold(rx, a);
    FeedIsFold(Feed(rx, a).rx, b);
    FoldAppend(Step, rx, a, b);
  }

  /** The same for the dispatch of unescaped bytes. */
  lemma RunAppend(rx: Rx, a: seq<bv8>, b: seq<bv8>)
    ensures var fa := Run(rx, a);
            var fb := Run(fa.rx, b);
            Run(rx, a + b) == Fed(fb.rx, fa.frames + fb.frames)
  {
    RunIsFold(rx, a + b);
    RunIsFold(rx, a);
    RunIsFold(Run(rx, a).rx, b);
    FoldAppend(Dispatch, rx, a, b);
  }

  /** With no escape pending, feeding the stuffed form of a byte sequence dispatches exactly
      that sequence, and no escape is pending afterwards. */
  lemma {:induction false} FeedEscapeAll(rx: Rx, s: seq<bv8>)
    requires !rx.trans
    ensures Feed(rx, EscapeAll(s)) == Run(rx, s)
    ensures !Run(rx, s).rx.trans
    decreases |s|
  {
    if s != [] {
      var first := Dispatch(rx, s[0]);
      FeedAppend(rx, EscapeByte(s[0]), EscapeAll(s[1..]));
      FeedEscapeByte(rx, s[0]);
      DispatchKeepsTrans(rx, s[0]);
      FeedEscapeAll(first.rx, s[1..]);
    }
  }

  // ---------------------------------------------------------------------------------------
  // The round trip

  /** A byte that only moves the machine on. */
  lemma RunQuiet(rx: Rx, c: bv8, s: seq<bv8>, next: Rx)
    requires Dispatch(rx, c) == Fed(next, [])
    ensures Run(rx, [c] + s) == Run(next, s)
  {
    assert ([c] + s)[0] == c && ([c] + s)[1..] == s;
  }

  /** The length field and its CRC, from Len1Pending: the machine ends in Data with an empty
      buffer and `mMsgLen` equal to the encoded length. */
  lemma RunHeader(rx: Rx, len: nat)
    requires rx.status == Len1Pending && !rx.trans && len <= MaxMsgLen
    ensures var lc := Crc(LenBytes(len));
            Run(rx, LenBytes(len) + CrcBytes(lc)) == Fed(Rx(Data, len, lc as int, lc, false, []), [])
  {
    var lb := LenBytes(len);
    var lc := Crc(lb);
    var cb := CrcBytes(lc);
    LenBytesBigEndian(len);
    RemainderBy2To24(len, 0, len);
    CrcBytesBigEndian(lc);
    var s1 := RunLenHigh(rx, lb[0]);
    var s2 := RunLenMid(s1, lb[0], lb[1]);
    var s3 := RunLenLow(s2, lb, len);
    var s4 := s3.(status := LenCrcL, crc := cb[0] as int);
    LenCrcHigh(s3, cb[0]);
    LenCrcLowMatches(s4, cb[1]);
    FiveBytes(lb, cb);
    RunQuiet(rx, lb[0], [lb[1]] + ([lb[2]] + ([cb[0]] + [cb[1]])), s1);
    RunQuiet(s1, lb[1], [lb[2]] + ([cb[0]] + [cb[1]]), s2);
    RunQuiet(s2, lb[2], [cb[0]] + [cb[1]], s3);
    RunQuiet(s3, cb[0], [cb[1]], s4);
    RunOne(s4, cb[1]);
  }

  lemma FiveBytes(lb: seq<bv8>, cb: seq<bv8>)
    requires |lb| == 3 && |cb| == 2
    ensures lb + cb == [lb[0]] + ([lb[1]] + ([lb[2]] + ([cb[0]] + [cb[1]])))
  {
  }

  /** The high byte of the length CRC. */
  lemma LenCrcHigh(rx: Rx, hi: bv8)
    requires rx.status == LenCrcH && rx.crc == 0
    ensures Dispatch(rx, hi) == Fed(rx.(status := LenCrcL, crc := hi as int), [])
  {
  }

  /** The low byte of the length CRC, when it completes the CRC computed. */
  lemma LenCrcLowMatches(rx: Rx, lo: bv8)
    requires rx.status == LenCrcL && rx.crc * 0x100 + lo as int == rx.crcCalc as int
    ensures Dispatch(rx, lo) == Fed(rx.(status := Data, crc := rx.crcCalc as int, buf := []), [])
  {
  }

  /** First length byte. */
  lemma RunLenHigh(rx: Rx, b0: bv8) returns (next: Rx)
    requires rx.status == Len1Pending && !rx.trans
    ensures next == Rx(Len2Pending, b0 as int, 0, Crc([b0]), false, rx.buf)
    ensures Dispatch(rx, b0) == Fed(next, [])
  {
    CrcExtend([], rx.crcCalc, b0);
    assert [] + [b0] == [b0];
    next := Rx(Len2Pending, b0 as int, 0, Crc([b0]), false, rx.buf);
  }

  /** Second length byte. */
  lemma RunLenMid(rx: Rx, b0: bv8, b1: bv8) returns (next: Rx)
    requires rx.status == Len2Pending && rx.msgLen == b0 as int && rx.crcCalc == Crc([b0])
    ensures next == rx.(status := Len3Pending, msgLen := b0 as int * 0x100 + b1 as int, crcCalc := Crc([b0, b1]))
    ensures Dispatch(rx, b1) == Fed(next, [])
  {
    CrcExtend([b0], rx.crcCalc, b1);
    assert [b0] + [b1] == [b0, b1];
    next := rx.(status := Len3Pending, msgLen := b0 as int * 0x100 + b1 as int, crcCalc := Crc([b0, b1]));
  }

  /** Third length byte of an accepted length. */
  lemma RunLenLow(rx: Rx, lb: seq<bv8>, len: nat) returns (next: Rx)
    requires |lb| == 3 && len <= MaxMsgLen
    requires (lb[0] as int) * 0x1_0000 + (lb[1] as int) * 0x100 + lb[2] as int == len
    requires rx.status == Len3Pending && rx.msgLen == lb[0] as int * 0x100 + lb[1] as int
    requires rx.crcCalc == Crc([lb[0], lb[1]])
    ensures next == rx.(status := LenCrcH, msgLen := len, crcCalc := Crc(lb))
    ensures Dispatch(rx, lb[2]) == Fed(next, [])
  {
    CrcExtend([lb[0], lb[1]], rx.crcCalc, lb[2]);
    assert [lb[0], lb[1]] + [lb[2]] == lb;
    next := rx.(status := LenCrcH, msgLen := len, crcCalc := Crc(lb));
  }

  /** The payload bytes from the `i`-th on, in Data: all are stored, the CRC computed over
      them, and the machine waits for the CRC field. */
  lemma {:induction false} RunPayload(rx: Rx, p: seq<bv8>, i: nat)
    requires rx.status == Data && rx.msgLen == |p| && i < |p|
    requires rx.buf == p[..i] && (i > 0 ==> rx.crcCalc == Crc(p[..i]))
    ensures Run(rx, p[i..]) == Fed(rx.(status := CrcH, crcCalc := Crc(p), buf := p), [])
    decreases |p| - i
  {
    CrcExtend(p[..i], rx.crcCalc, p[i]);
    assert p[..i] + [p[i]] == p[..i + 1];
    var next := rx.(status := if i + 1 == |p| then CrcH else Data, crcCalc := Crc(p[..i + 1]), buf := p[..i + 1]);
    assert Dispatch(rx, p[i]) == Fed(next, []);
    assert p[i..][1..] == p[i + 1..];
    if i + 1 == |p| {
      assert p[..i + 1] == p;
    } else {
      RunPayload(next, p, i + 1);
    }
  }

  /** A single byte: `Run` is `Dispatch`. */
  lemma RunOne(rx: Rx, c: bv8)
    ensures Run(rx, [c]) == Dispatch(rx, c)
  {
    assert [c][0] == c && [c][1..] == [];
  }

  /** The low byte of the payload CRC, when it completes the CRC computed. */
  lemma CrcLowMatches(rx: Rx, lo: bv8)
    requires rx.status == CrcL && rx.crc * 0x100 + lo as int == rx.crcCalc as int
    ensures Dispatch(rx, lo) == Fed(rx.(status := Idle, crc := rx.crcCalc as int), [rx.buf])
  {
  }

  /** The payload CRC field, when it carries the CRC computed: the stored payload is emitted
      and the machine is back in Idle. */
  lemma RunTrailer(rx: Rx)
    requires rx.status == CrcH
    ensures Run(rx, CrcBytes(rx.crcCalc)) == Fed(rx.(status := Idle, crc := rx.crcCalc as int), [rx.buf])
  {
    var cb := CrcBytes(rx.crcCalc);
    CrcBytesBigEndian(rx.crcCalc);
    var s1 := rx.(status := CrcL, crc := cb[0] as int);
    assert cb == [cb[0]] + [cb[1]];
    RunQuiet(rx, cb[0], [cb[1]], s1);
    RunOne(s1, cb[1]);
    CrcLowMatches(s1, cb[1]);
  }

  /** Feeding an encoded frame is restarting the machine and dispatching the unescaped body. */
  lemma FeedFrameStart(rx: Rx, payload: seq<bv8>) returns (started: Rx)
    requires !rx.trans
    ensures started == rx.(status := Len1Pending)
    ensures Feed(rx, Encode(payload)) == Run(started, Body(payload))
  {
    started := rx.(status := Len1Pending);
    EncodeShape(payload);
    FeedAppend(rx, [SOF], EscapeAll(Body(payload)));
    assert Feed(rx, [SOF]) == Fed(started, []);
    FeedEscapeAll(started, Body(payload));
  }

  /** Round trip: from any state with no escape pending (whatever frame was in progress),
      feeding the encoder's output for a payload of 1 to `MaxMsgLen` bytes emits exactly
      that payload and ends in Idle with no escape pending. */
  lemma RoundTrip(rx: Rx, payload: seq<bv8>)
    requires !rx.trans && 1 <= |payload| <= MaxMsgLen
    ensures var pc := Crc(payload);
            Feed(rx, Encode(payload)) == Fed(Rx(Idle, |payload|, pc as int, pc, false, payload), [payload])
  {
    var len := |payload|;
    var lc := Crc(LenBytes(len));
    var pc := Crc(payload);
    var header := LenBytes(len) + CrcBytes(lc);
    var started := FeedFrameStart(rx, payload);
    assert Body(payload) == header + payload + CrcBytes(pc);
    RunAppend(started, header + payload, CrcBytes(pc));
    RunAppend(started, header, payload);
    RunHeader(started, len);
    var inData := Rx(Data, len, lc as int, lc, false, []);
    assert payload[0..] == payload && payload[..0] == [];
    RunPayload(inData, payload, 0);
    var full := inData.(status := CrcH, crcCalc := pc, buf := payload);
    RunTrailer(full);
  }

  /** Zero-length payloads never complete: the DATA state compares the fill count with the
      length only after storing a byte, so the frame's own CRC bytes are taken as payload
      and the machine stays in Data, emitting nothing. */
  lemma EmptyPayloadStalls(rx: Rx, empty: seq<bv8>)
    requires !rx.trans && |empty| == 0
    ensures Feed(rx, Encode(empty)).frames == []
    ensures Feed(rx, Encode(empty)).rx.status == Data
    ensures !Feed(rx, Encode(empty)).rx.trans
  {
    var started := FeedFrameStart(rx, empty);
    EmptyBody(empty);
    ZeroLengthFrame(started, |empty|);
  }

  /** An empty payload's body is the length field followed by its CRC twice: the payload
      CRC of an empty payload is the CRC of the length field. */
  lemma EmptyBody(empty: seq<bv8>)
    requires |empty| == 0
    ensures var cb := CrcBytes(Crc(LenBytes(|empty|)));
            Body(empty) == LenBytes(|empty|) + cb + cb
  {
    assert empty == [];
  }

  /** The body of a zero-length frame, from Len1Pending: the header leads into Data with
      length 0, where the trailing CRC field is swallowed as payload. */
  lemma ZeroLengthFrame(started: Rx, len: nat)
    requires started.status == Len1Pending && !started.trans && len == 0
    ensures var cb := CrcBytes(Crc(LenBytes(len)));
            var r := Run(started, LenBytes(len) + cb + cb);
            r.frames == [] && r.rx.status == Data && !r.rx.trans
  {
    var lc := Crc(LenBytes(len));
    var cb := CrcBytes(lc);
    RunAppend(started, LenBytes(len) + cb, cb);
    RunHeader(started, len);
    ZeroLengthSwallows(Rx(Data, len, lc as int, lc, false, []), cb);
  }

  /** In Data with `mMsgLen == 0` every dispatched byte is stored and none completes the
      payload: the fill count is compared with the length only after it has grown past 0. */
  lemma {:induction false} ZeroLengthSwallows(rx: Rx, s: seq<bv8>)
    requires rx.status == Data && rx.msgLen == 0
    ensures Run(rx, s).rx.status == Data && Run(rx, s).rx.msgLen == 0
    ensures Run(rx, s).rx.buf == rx.buf + s
    ensures Run(rx, s).rx.trans == rx.trans
    ensures Run(rx, s).frames == []
    decreases |s|
  {
    if s != [] {
      var next := Dispatch(rx, s[0]).rx;
      ZeroLengthSwallows(next, s[1..]);
      assert rx.buf + s == (rx.buf + [s[0]]) + s[1..];
    }
  }

  /** The stalled zero-length frame costs nothing beyond itself: the next frame is decoded. */
  lemma EmptyPayloadThenFrame(rx: Rx, empty: seq<bv8>, payload: seq<bv8>)
    requires !rx.trans && |empty| == 0 && 1 <= |payload| <= MaxMsgLen
    ensures Feed(rx, Encode(empty) + Encode(payload)).frames == [payload]
  {
    EmptyPayloadStalls(rx, empty);
    FeedAppend(rx, Encode(empty), Encode(payload));
    RoundTrip(Feed(rx, Encode(empty)).rx, payload);
  }

  /** The encoder's output for several payloads, back to back. */
  function EncodeAll(payloads: seq<seq<bv8>>): seq<bv8>
    decreases |payloads|
  {
    if payloads == [] then [] else Encode(payloads[0]) + EncodeAll(payloads[1..])
  }

  /** A stream of encoded frames decodes to the payloads, in order. */
  lemma {:induction false} RoundTripStream(rx: Rx, payloads: seq<seq<bv8>>)
    requires !rx.trans
    requires forall k | 0 <= k < |payloads| :: 1 <= |payloads[k]| <= MaxMsgLen
    ensures Feed(rx, EncodeAll(payloads)).frames == payloads
    ensures !Feed(rx, EncodeAll(payloads)).rx.trans
    ensures payloads != [] ==> Feed(rx, EncodeAll(payloads)).rx.status == Idle
    decreases |payloads|
  {
    if payloads != [] {
      FeedAppend(rx, Encode(payloads[0]), EncodeAll(payloads[1..]));
      RoundTrip(rx, payloads[0]);
      var after := Feed(rx, Encode(payloads[0])).rx;
      RoundTripStream(after, payloads[1..]);
      assert [payloads[0]] + payloads[1..] == payloads;
      if payloads[1..] == [] {
        assert EncodeAll(payloads[1..]) == [];
      }
    }
  }

  // ---------------------------------------------------------------------------------------
  // Chunked delivery

  /** The bytes of successive `recvRunOnce` calls, in order. */
  function Concat(chunks: seq<seq<bv8>>): seq<bv8>
    decreases |chunks|
  {
    if chunks == [] then [] else chunks[0] + Concat(chunks[1..])
  }

  /** Feeding the chunks one call after another, each from the state the previous left. */
  function FeedChunks(rx: Rx, chunks: seq<seq<bv8>>): Fed
    decreases |chunks|
  {
    if chunks == [] then Fed(rx, [])
    else
      var f := Feed(rx, chunks[0]);
      var g := FeedChunks(f.rx, chunks[1..]);
      Fed(g.rx, f.frames + g.frames)
  }

  /** However the stream is cut into chunks, feeding them in turn is feeding the stream. */
  lemma {:induction false} FeedChunksIsFeed(rx: Rx, chunks: seq<seq<bv8>>)
    ensures FeedChunks(rx, chunks) == Feed(rx, Concat(chunks))
    decreases |chunks|
  {
    if chunks != [] {
      FeedChunksIsFeed(Feed(rx, chunks[0]).rx, chunks[1..]);
      FeedAppend(rx, chunks[0], Concat(chunks[1..]));
    }
  }

  /** Round trip in any split: chunks that make up the encoder's output for a payload of 1
      to `MaxMsgLen` bytes, delivered one call at a time, emit exactly that payload and
      leave the machine in Idle. */
  lemma RoundTripChunked(rx: Rx, payload: seq<bv8>, chunks: seq<seq<bv8>>)
    requires !rx.trans && 1 <= |payload| <= MaxMsgLen && Concat(chunks) == Encode(payload)
    ensures FeedChunks(rx, chunks).frames == [payload]
    ensures FeedChunks(rx, chunks).rx.status == Idle && !FeedChunks(rx, chunks).rx.trans
  {
    FeedChunksIsFeed(rx, chunks);
    RoundTrip(rx, payload);
  }
}
