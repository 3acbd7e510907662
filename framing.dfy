/** The YtDataLink wire frame and its encoder (lib/YtDataLink.js, `write`):
    `SOF | len(3, big-endian) | crc16(len) | payload | crc16(payload)`, after which every
    start or escape marker except the leading SOF is replaced by `TRANS, b ^ TRANS`. */
module Framing {
  import opened Crc16

  /** Start-of-frame marker. */
  const SOF: bv8 := 0x10
  /** Escape marker. */
  const TRANS: bv8 := 0x11
  /** Largest payload length the receiver accepts (`ytMsgSize`). */
  const MaxMsgLen: nat := 2097152

  predicate IsMarker(b: bv8) {
    b == SOF || b == TRANS
  }

  /** `(n >> 16) & 0xff`, `(n >> 8) & 0xff`, `n & 0xff`. */
  function LenBytes(n: nat): seq<bv8> {
    [((n / 0x1_0000) % 0x100) as bv8, ((n / 0x100) % 0x100) as bv8, (n % 0x100) as bv8]
  }

  /** The two bytes a CRC field is written as: `(crc >> 8) & 0xff`, then `crc & 0xff`. */
  function CrcBytes(c: bv16): seq<bv8> {
    [(c >> 8) as bv8, (c & 0xFF) as bv8]
  }

  /** The CRC written after the payload. It is computed over the payload only; for an
      empty payload no payload byte restarts the send accumulator, so it still holds the
      CRC of the length field. */
  function PayloadCrc(payload: seq<bv8>): bv16 {
    if payload == [] then Crc(LenBytes(|payload|)) else Crc(payload)
  }

  /** Everything after the leading SOF, before escaping. */
  function Body(payload: seq<bv8>): seq<bv8> {
    var lenBytes := LenBytes(|payload|);
    lenBytes + CrcBytes(Crc(lenBytes)) + payload + CrcBytes(PayloadCrc(payload))
  }

  /** The unescaped frame (`buffer` in `write`), `|payload| + 8` bytes long. */
  function Frame(payload: seq<bv8>): seq<bv8> {
    [SOF] + Body(payload)
  }

  /** Byte stuffing of one byte that is not the frame's first. */
  function EscapeByte(b: bv8): seq<bv8> {
    if IsMarker(b) then [TRANS, b ^ TRANS] else [b]
  }

  function EscapeAll(s: seq<bv8>): seq<bv8>
    decreases |s|
  {
    if s == [] then [] else EscapeByte(s[0]) + EscapeAll(s[1..])
  }

  /** The escaping pass of `write` (`transedBuffer`): index 0 is copied as it is. */
  function Escape(buf: seq<bv8>): seq<bv8> {
    if buf == [] then [] else [buf[0]] + EscapeAll(buf[1..])
  }

  /** What `write` hands to the serial port for a payload. */
  function Encode(payload: seq<bv8>): seq<bv8> {
    Escape(Frame(payload))
  }

  /** Number of marker bytes (`transLen` counts those after index 0). */
  function CountMarkers(s: seq<bv8>): nat
    decreases |s|
  {
    if s == [] then 0 else (if IsMarker(s[0]) then 1 else 0) + CountMarkers(s[1..])
  }

  lemma {:induction false} EscapeAllAppend(a: seq<bv8>, b: seq<bv8>)
    ensures EscapeAll(a + b) == EscapeAll(a) + EscapeAll(b)
    decreases |a|
  {
    if a == [] {
      assert a + b == b;
    } else {
      assert (a + b)[0] == a[0];
      assert (a + b)[1..] == a[1..] + b;
      EscapeAllAppend(a[1..], b);
    }
  }

  lemma {:induction false} CountMarkersAppend(a: seq<bv8>, b: seq<bv8>)
    ensures CountMarkers(a + b) == CountMarkers(a) + CountMarkers(b)
    decreases |a|
  {
    if a == [] {
      assert a + b == b;
    } else {
      assert (a + b)[0] == a[0];
      assert (a + b)[1..] == a[1..] + b;
      CountMarkersAppend(a[1..], b);
    }
  }

  /** Each marker grows by one byte, every other byte is kept. */
  lemma {:induction false} EscapeAllLength(s: seq<bv8>)
    ensures |EscapeAll(s)| == |s| + CountMarkers(s)
    decreases |s|
  {
    if s != [] {
      EscapeAllLength(s[1..]);
    }
  }

  /** Escaped bytes never contain a start marker, so a receiver sees SOF only where a frame
      begins. */
  lemma {:induction false} EscapeAllHasNoSof(s: seq<bv8>)
    ensures SOF !in EscapeAll(s)
    decreases |s|
  {
    if s != [] {
      EscapeAllHasNoSof(s[1..]);
      assert EscapeAll(s) == EscapeByte(s[0]) + EscapeAll(s[1..]);
    }
  }

  lemma QuotientBy65536(n: nat, t: int, r: int)
    requires 0 <= r < 0x1_0000 && n == t * 0x1_0000 + r
    ensures n / 0x1_0000 == t
  {
  }

  lemma RemainderBy2To24(n: nat, u: int, r: int)
    requires 0 <= r < 0x100_0000 && n == u * 0x100_0000 + r
    ensures n % 0x100_0000 == r
  {
  }

  /** The three base-256 digits the length field is made of give back `n` modulo 2^24. */
  lemma LenDigits(n: nat)
    ensures ((n / 0x1_0000) % 0x100) * 0x1_0000 + ((n / 0x100) % 0x100) * 0x100 + n % 0x100
            == n % 0x100_0000
  {
    var q, lo := n / 0x100, n % 0x100;
    var t, mid := q / 0x100, q % 0x100;
    var u, hi := t / 0x100, t % 0x100;
    QuotientBy65536(n, t, mid * 0x100 + lo);
    RemainderBy2To24(n, u, hi * 0x1_0000 + mid * 0x100 + lo);
  }

  /** The length field is the payload length big-endian, modulo 2^24 (the width of the field). */
  lemma LenBytesBigEndian(n: nat)
    ensures |LenBytes(n)| == 3
    ensures (LenBytes(n)[0] as int) * 0x1_0000 + (LenBytes(n)[1] as int) * 0x100 + LenBytes(n)[2] as int
            == n % 0x100_0000
  {
    var hi, mid, lo := (n / 0x1_0000) % 0x100, (n / 0x100) % 0x100, n % 0x100;
    ByteRoundTrip(hi);
    ByteRoundTrip(mid);
    ByteRoundTrip(lo);
    LenDigits(n);
  }

  lemma ByteRoundTrip(k: int)
    requires 0 <= k < 0x100
    ensures (k as bv8) as int == k
  {
    assert k % 0x100 == k;
  }

  /** A CRC field's two bytes are the CRC value big-endian. */
  lemma CrcBytesBigEndian(c: bv16)
    ensures |CrcBytes(c)| == 2
    ensures (CrcBytes(c)[0] as int) * 0x100 + CrcBytes(c)[1] as int == c as int
  {
    assert c == ((c >> 8) << 8) | (c & 0xFF);
    assert ((c >> 8) as bv8) as int == (c >> 8) as int;
    assert ((c & 0xFF) as bv8) as int == (c & 0xFF) as int;
    assert (c >> 8) as int * 0x100 + (c & 0xFF) as int == c as int;
  }

  /** Shape of the encoder's output: it starts with SOF, contains no other SOF, and is
      `|payload| + 8` bytes long plus one byte per marker after index 0 of the frame. */
  lemma EncodeShape(payload: seq<bv8>)
    ensures |Frame(payload)| == |payload| + 8
    ensures Encode(payload) == [SOF] + EscapeAll(Body(payload))
    ensures Encode(payload)[0] == SOF
    ensures SOF !in Encode(payload)[1..]
    ensures |Encode(payload)| == |payload| + 8 + CountMarkers(Body(payload))
  {
    var f := Frame(payload);
    assert f[0] == SOF && f[1..] == Body(payload);
    EscapeAllHasNoSof(Body(payload));
    EscapeAllLength(Body(payload));
    assert Encode(payload)[1..] == EscapeAll(Body(payload));
  }
}
