/**
The USB frames: what the host sends and the firmware accepts, and what the firmware
answers and the host accepts.
*/
module Usb {
  import opened BitVectors
  import opened Wrappers
  import opened FrameCheck

  const MAGIC := 0x5357_5052
  const VERSION := 1
  const MAX_PAYLOAD := 1024

  datatype Frame = Frame(command: Byte, sequence: nat, payload: seq<Byte>)

  predicate Sendable(f: Frame) {
    f.sequence < 0x1_0000 && |f.payload| <= 1024
  }

  function RequestHeader(f: Frame): (h: seq<Byte>)
    ensures |h| == 10
  {
    LeBytes(MAGIC, 4) + [VERSION, f.command] + LeBytes(f.sequence, 2) + LeBytes(|f.payload|, 2)
  }

  /** On the line a frame begins with "RPWS", the version and the command. */
  lemma HeaderBytes(f: Frame)
    ensures RequestHeader(f)[..6] == [0x52, 0x50, 0x57, 0x53, 1, f.command]
  {
    assert LeBytes(MAGIC, 4) == [0x52] + LeBytes(0x53_5750, 3);
    assert LeBytes(0x53_5750, 3) == [0x50] + LeBytes(0x5357, 2);
    assert LeBytes(0x5357, 2) == [0x57] + LeBytes(0x53, 1);
    assert LeBytes(0x53, 1) == [0x53] + LeBytes(0, 0);
  }

  /** encode_frame; an oversized payload is a ValueError. */
  function EncodeFrame(command: Byte, sequence: nat, payload: seq<Byte>): Option<seq<Byte>> {
    if |payload| > MAX_PAYLOAD then None
    else Some(WithCrc(RequestHeader(Frame(command, sequence % 0x1_0000, payload)) + payload))
  }

  function RequestBytes(f: Frame): seq<Byte> {
    WithCrc(RequestHeader(f) + f.payload)
  }

  /** The frame at the head of the input, and the input after it. */
  function Parse(input: seq<Byte>): Option<(Frame, seq<Byte>)> {
    if |input| < 10 then None
    else if LeValue(input[..4]) != MAGIC || input[4] != VERSION then None
    else ParseRest(input, LeValue(input[8..10]))
  }

  /** After the header: `length` bytes of payload and the CRC. */
  function ParseRest(input: seq<Byte>, length: nat): Option<(Frame, seq<Byte>)>
    requires |input| >= 10
  {
    if length > MAX_PAYLOAD || |input| < 14 + length then None
    else if LeValue(input[10 + length..14 + length]) != Crc32(input[..10 + length]) then None
    else Some((Frame(input[5], LeValue(input[6..8]), input[10..10 + length]), input[14 + length..]))
  }

  lemma HeaderFields(f: Frame, rest: seq<Byte>)
    requires Sendable(f)
    ensures var h := RequestHeader(f) + rest;
            && LeValue(h[..4]) == MAGIC && h[4] == VERSION && h[5] == f.command
            && LeValue(h[6..8]) == f.sequence && LeValue(h[8..10]) == |f.payload|
  {
    FieldsOf(LeBytes(MAGIC, 4), [VERSION, f.command], LeBytes(f.sequence, 2), LeBytes(|f.payload|, 2), rest);
    Pow256Values();
    LeValueOf(MAGIC, 4);
    LeValueOf(f.sequence, 2);
    LeValueOf(|f.payload|, 2);
  }

  lemma Pow256Values()
    ensures Pow256(1) == 256 && Pow256(2) == 0x1_0000 && Pow256(4) == 0x1_0000_0000
  {
    assert Pow256(3) == 0x100_0000;
  }

  lemma PartsOf(head: seq<Byte>, payload: seq<Byte>, crc: seq<Byte>, rest: seq<Byte>)
    requires |head| == 10 && |crc| == 4
    ensures var input := head + payload + crc + rest;
            var n := 10 + |payload|;
            && |input| == n + 4 + |rest|
            && input[..n] == head + payload && input[10..n] == payload
            && input[n..n + 4] == crc && input[n + 4..] == rest
  {
  }

  /** A parse, from the fields. */
  lemma ParsedAs(input: seq<Byte>, f: Frame, rest: seq<Byte>)
    requires |f.payload| <= MAX_PAYLOAD && |input| >= 14 + |f.payload|
    requires LeValue(input[..4]) == MAGIC && input[4] == VERSION && input[5] == f.command
    requires LeValue(input[6..8]) == f.sequence && LeValue(input[8..10]) == |f.payload|
    requires input[10..10 + |f.payload|] == f.payload && input[14 + |f.payload|..] == rest
    requires LeValue(input[10 + |f.payload|..14 + |f.payload|]) == Crc32(input[..10 + |f.payload|])
    ensures Parse(input) == Some((f, rest))
  {
    assert ParseRest(input, |f.payload|) == Some((f, rest));
  }

  lemma FieldsIn(input: seq<Byte>, f: Frame, tail: seq<Byte>)
    requires Sendable(f) && input == RequestHeader(f) + tail
    ensures LeValue(input[..4]) == MAGIC && input[4] == VERSION && input[5] == f.command
    ensures LeValue(input[6..8]) == f.sequence && LeValue(input[8..10]) == |f.payload|
  {
    HeaderFields(f, tail);
  }

  lemma Appended(a: seq<Byte>, b: seq<Byte>, c: seq<Byte>, d: seq<Byte>)
    ensures a + b + c + d == a + (b + c + d)
  {
  }

  lemma {:induction false} RequestParsed(input: seq<Byte>, head: seq<Byte>, f: Frame, crc: seq<Byte>, rest: seq<Byte>)
    requires Sendable(f) && head == RequestHeader(f) && |crc| == 4 && LeValue(crc) == Crc32(head + f.payload)
    requires input == head + f.payload + crc + rest
    ensures Parse(input) == Some((f, rest))
  {
    PartsOf(head, f.payload, crc, rest);
    Appended(head, f.payload, crc, rest);
    FieldsIn(input, f, f.payload + crc + rest);
    ParsedAs(input, f, rest);
  }

  /** The firmware accepts every frame the host encodes, byte for byte, whatever follows. */
  lemma RequestAccepted(f: Frame, rest: seq<Byte>)
    requires Sendable(f)
    ensures Parse(RequestBytes(f) + rest) == Some((f, rest))
  {
    var head := RequestHeader(f);
    var crc := LeBytes(Crc32(head + f.payload), 4);
    CrcIsWord(head + f.payload);
    Pow256Values();
    LeValueOf(Crc32(head + f.payload), 4);
    RequestParsed(RequestBytes(f) + rest, head, f, crc, rest);
  }

  /** And nothing else: what it accepts is exactly such a frame. */
  lemma {:induction false} AcceptedIsRequest(input: seq<Byte>)
    requires Parse(input).Some?
    ensures var (f, rest) := Parse(input).value;
            Sendable(f) && input == RequestBytes(f) + rest
  {
    var (f, rest) := Parse(input).value;
    var n := |f.payload|;
    TwoBytes(input[6..8]);
    HeaderRebuilt(input, f);
    Rejoined(input, 10 + n);
    LeRoundTrip(input[10 + n..14 + n]);
  }

  /** A frame with its CRC passes the check. */
  lemma OwnPasses(body: seq<Byte>, frame: seq<Byte>)
    requires frame == WithCrc(body)
    ensures Passes(frame)
  {
    CrcIsWord(body);
    Pow256Values();
    LeValueOf(Crc32(body), 4);
    assert frame[..|frame| - 4] == body && frame[|frame| - 4..] == LeBytes(Crc32(body), 4);
  }

  /** What is accepted at its own length passes it, too. */
  lemma ParsePasses(g: seq<Byte>, rest: seq<Byte>, n: nat)
    requires |g| == 14 + n && LeValue(g[8..10]) == n && Parse(g + rest).Some?
    ensures Passes(g)
  {
    var input := g + rest;
    assert input[8..10] == g[8..10];
    assert input[10 + n..14 + n] == g[|g| - 4..] && input[..10 + n] == g[..|g| - 4];
  }

  lemma RequestLength(f: Frame, frame: seq<Byte>)
    requires Sendable(f) && frame == RequestBytes(f)
    ensures |frame| == 14 + |f.payload| && LeValue(frame[8..10]) == |f.payload|
  {
    Appended(RequestHeader(f), f.payload, LeBytes(Crc32(RequestHeader(f) + f.payload), 4), []);
    assert frame == RequestHeader(f) + (f.payload + LeBytes(Crc32(RequestHeader(f) + f.payload), 4) + []);
    FieldsIn(frame, f, f.payload + LeBytes(Crc32(RequestHeader(f) + f.payload), 4) + []);
  }

  /** A request hit by a burst of at most 32 wire bits, anywhere but in the two bytes of its
      length, is refused, whatever follows it on the line. */
  lemma BurstRefused(f: Frame, g: seq<Byte>, rest: seq<Byte>, p: nat)
    requires Sendable(f) && g != RequestBytes(f) && DifferWithin(RequestBytes(f), g, p)
    requires g[8..10] == RequestBytes(f)[8..10]
    ensures Parse(g + rest) == None
  {
    RequestLength(f, RequestBytes(f));
    OwnPasses(RequestHeader(f) + f.payload, RequestBytes(f));
    if Parse(g + rest).Some? {
      ParsePasses(g, rest, |f.payload|);
      BurstDetected(RequestBytes(f), g, p);
    }
  }

  lemma Rejoined(input: seq<Byte>, n: nat)
    requires 10 <= n && n + 4 <= |input|
    ensures input[..n] == input[..10] + input[10..n]
    ensures input == input[..n] + input[n..n + 4] + input[n + 4..]
  {
  }

  lemma HeaderRebuilt(input: seq<Byte>, f: Frame)
    requires |input| >= 10 && LeValue(input[..4]) == MAGIC && input[4] == VERSION && input[5] == f.command
    requires LeValue(input[6..8]) == f.sequence && LeValue(input[8..10]) == |f.payload|
    ensures input[..10] == RequestHeader(f)
  {
    LeRoundTrip(input[..4]);
    LeRoundTrip(input[6..8]);
    LeRoundTrip(input[8..10]);
    assert input[..10] == input[..4] + [input[4], input[5]] + input[6..8] + input[8..10];
  }

  lemma TwoBytes(b: seq<Byte>)
    requires |b| == 2
    ensures LeValue(b) < 0x1_0000
  {
    assert LeValue(b[1..][1..]) == 0;
    assert LeValue(b[1..]) == b[1];
  }

  // ----- responses -----

  const STATUS_COUNT := 11

  datatype Response = Response(command: Byte, sequence: nat, status: nat, payload: seq<Byte>)

  datatype DecodeError = Short | BadMagic | BadVersion | BadLength | Truncated | BadCrc | BadStatus

  datatype Decoded = Ok(response: Response) | Error(error: DecodeError)

  function OrReply(command: Byte): Byte {
    if command < 128 then command + 128 else command
  }

  /** The reply bit is set, and the low seven bits are those of the command. */
  lemma ReplyBit(command: Byte)
    ensures LowBits(OrReply(command), 8) == LowBits(command, 7) + [true]
  {
    var m, n: nat := 7, 1;
    var low := command % 128;
    assert Pow2(m) == 128 && OrReply(command) == 1 * 128 + low;
    LowBitsSplit(1, low, m, n);
    LowBitsSplit(command / 128, low, m, 0);
    assert LowBits(1, n) == [true] && LowBits(low, m) + LowBits(command / 128, 0) == LowBits(low, m);
  }

  function ResponseHeader(command: Byte, sequence: nat, status: nat, n: nat): (h: seq<Byte>)
    ensures |h| == 12
  {
    LeBytes(MAGIC, 4) + [VERSION, command] + LeBytes(sequence, 2) + LeBytes(n + 2, 2) + LeBytes(status, 2)
  }

  function ResponseBytes(command: Byte, sequence: nat, status: nat, payload: seq<Byte>): seq<Byte> {
    WithCrc(ResponseHeader(OrReply(command), sequence, status, |payload|) + payload)
  }

  /** decode_response */
  function DecodeResponse(frame: seq<Byte>): Decoded {
    if |frame| < 16 then Error(Short)
    else if LeValue(frame[..4]) != MAGIC then Error(BadMagic)
    else if frame[4] != VERSION then Error(BadVersion)
    else
      var length := LeValue(frame[8..10]);
      if length < 2 || length > MAX_PAYLOAD + 2 then Error(BadLength)
      else if |frame| != 14 + length then Error(Truncated)
      else if LeValue(frame[|frame| - 4..]) != Crc32(frame[..|frame| - 4]) then Error(BadCrc)
      else
        var status := LeValue(frame[10..12]);
        if status >= STATUS_COUNT then Error(BadStatus)
        else Ok(Response(frame[5], LeValue(frame[6..8]), status, frame[12..|frame| - 4]))
  }

  /** Where the fields of a header are. */
  lemma FieldsOf(a: seq<Byte>, b: seq<Byte>, c: seq<Byte>, d: seq<Byte>, e: seq<Byte>)
    requires |a| == 4 && |b| == |c| == |d| == 2
    ensures var h := a + b + c + d + e;
            h[..4] == a && h[4] == b[0] && h[5] == b[1] && h[6..8] == c && h[8..10] == d && h[10..] == e
  {
  }

  lemma ResponseFields(command: Byte, sequence: nat, status: nat, n: nat)
    requires sequence < 0x1_0000 && status < STATUS_COUNT && n <= MAX_PAYLOAD
    ensures var h := ResponseHeader(command, sequence, status, n);
            && LeValue(h[..4]) == MAGIC && h[4] == VERSION && h[5] == command
            && LeValue(h[6..8]) == sequence && LeValue(h[8..10]) == n + 2 && LeValue(h[10..12]) == status
  {
    var h := ResponseHeader(command, sequence, status, n);
    FieldsOf(LeBytes(MAGIC, 4), [VERSION, command], LeBytes(sequence, 2), LeBytes(n + 2, 2), LeBytes(status, 2));
    assert h[10..12] == h[10..];
    Pow256Values();
    LeValueOf(MAGIC, 4);
    LeValueOf(sequence, 2);
    LeValueOf(n + 2, 2);
    LeValueOf(status, 2);
  }

  lemma ResponseParts(h: seq<Byte>, payload: seq<Byte>)
    requires |h| == 12
    ensures var frame := WithCrc(h + payload);
            && |frame| == 16 + |payload|
            && frame[..4] == h[..4] && frame[4] == h[4] && frame[5] == h[5]
            && frame[6..8] == h[6..8] && frame[8..10] == h[8..10] && frame[10..12] == h[10..12]
            && frame[12..|frame| - 4] == payload && frame[..|frame| - 4] == h + payload
            && LeValue(frame[|frame| - 4..]) == Crc32(h + payload)
  {
    var body := h + payload;
    CrcIsWord(body);
    Pow256Values();
    LeValueOf(Crc32(body), 4);
    ResponseSlices(h, payload, LeBytes(Crc32(body), 4));
  }

  lemma ResponseSlices(h: seq<Byte>, payload: seq<Byte>, crc: seq<Byte>)
    requires |h| == 12 && |crc| == 4
    ensures var frame := h + payload + crc;
            && |frame| == 16 + |payload|
            && frame[..4] == h[..4] && frame[4] == h[4] && frame[5] == h[5]
            && frame[6..8] == h[6..8] && frame[8..10] == h[8..10] && frame[10..12] == h[10..12]
            && frame[12..|frame| - 4] == payload && frame[..|frame| - 4] == h + payload && frame[|frame| - 4..] == crc
  {
  }

  /** Every response the firmware writes decodes to its command (with the reply bit), its
      sequence number, status and payload. */
  lemma ResponseRoundTrip(command: Byte, sequence: nat, status: nat, payload: seq<Byte>)
    requires sequence < 0x1_0000 && status < STATUS_COUNT && |payload| <= MAX_PAYLOAD
    ensures DecodeResponse(ResponseBytes(command, sequence, status, payload))
         == Ok(Response(OrReply(command), sequence, status, payload))
  {
    ResponseFields(OrReply(command), sequence, status, |payload|);
    ResponseParts(ResponseHeader(OrReply(command), sequence, status, |payload|), payload);
  }

  /** And what the host decodes is exactly such a frame, field by field. */
  lemma {:induction false} DecodedIsResponse(frame: seq<Byte>)
    requires DecodeResponse(frame).Ok?
    ensures var r := DecodeResponse(frame).response;
            && r.sequence < 0x1_0000 && r.status < 11 && |r.payload| <= 1024
            && frame == WithCrc(ResponseHeader(r.command, r.sequence, r.status, |r.payload|) + r.payload)
  {
    var r := DecodeResponse(frame).response;
    var n := 12 + |r.payload|;
    TwoBytes(frame[6..8]);
    ResponseRebuilt(frame, r);
    LeRoundTrip(frame[n..]);
    Split(frame, n);
  }

  lemma ResponseRebuilt(frame: seq<Byte>, r: Response)
    requires |frame| >= 12 && LeValue(frame[..4]) == MAGIC && frame[4] == VERSION && frame[5] == r.command
    requires LeValue(frame[6..8]) == r.sequence && LeValue(frame[8..10]) == |r.payload| + 2
    requires LeValue(frame[10..12]) == r.status
    ensures frame[..12] == ResponseHeader(r.command, r.sequence, r.status, |r.payload|)
  {
    LeRoundTrip(frame[..4]);
    LeRoundTrip(frame[6..8]);
    LeRoundTrip(frame[8..10]);
    LeRoundTrip(frame[10..12]);
    assert frame[..12] == frame[..4] + [frame[4], frame[5]] + frame[6..8] + frame[8..10] + frame[10..12];
  }

  lemma Split(frame: seq<Byte>, n: nat)
    requires 12 <= n <= |frame|
    ensures frame[..n] == frame[..12] + frame[12..n] && frame == frame[..n] + frame[n..]
  {
  }

  /** A response hit by a burst of at most 32 wire bits is refused. */
  lemma ResponseBurstRefused(command: Byte, sequence: nat, status: nat, payload: seq<Byte>, g: seq<Byte>, p: nat)
    requires var w := ResponseBytes(command, sequence, status, payload); g != w && DifferWithin(w, g, p)
    ensures DecodeResponse(g).Error?
  {
    OwnPasses(ResponseHeader(OrReply(command), sequence, status, |payload|) + payload,
              ResponseBytes(command, sequence, status, payload));
    if DecodeResponse(g).Ok? {
      BurstDetected(ResponseBytes(command, sequence, status, payload), g, p);
    }
  }

  // ----- the firmware's port -----

  /** The header and what follows it, read one after the other. */
  lemma HeaderRead(input: seq<Byte>, header: seq<Byte>)
    requires |input| >= 10 && header == input[..10]
    ensures header[..4] == input[..4] && header[4] == input[4] && header[5] == input[5]
    ensures header[6..8] == input[6..8] && header[8..10] == input[8..10]
  {
  }

  lemma PiecesRead(input: seq<Byte>, header: seq<Byte>, payload: seq<Byte>, trailer: seq<Byte>, rest: seq<Byte>, n: nat)
    requires |input| >= 14 + n && header == input[..10] && payload == input[10..][..n]
    requires trailer == input[10..][n..][..4] && rest == input[10..][n..][4..]
    ensures header + payload == input[..10 + n] && payload == input[10..10 + n]
    ensures trailer == input[10 + n..14 + n] && rest == input[14 + n..]
  {
  }

  /** A whole frame, and what the reader makes of it. */
  lemma {:induction false} FrameRead(input: seq<Byte>, header: seq<Byte>, payload: seq<Byte>, trailer: seq<Byte>, rest: seq<Byte>, n: nat)
    requires |input| >= 14 + n && header == input[..10] && payload == input[10..][..n]
    requires trailer == input[10..][n..][..4] && rest == input[10..][n..][4..]
    requires LeValue(header[..4]) == MAGIC && header[4] == VERSION && n == LeValue(header[8..10]) && n <= MAX_PAYLOAD
    ensures Parse(input) == if LeValue(trailer) != Crc32(header + payload) then None
                            else Some((Frame(header[5], LeValue(header[6..8]), payload), rest))
  {
    HeaderRead(input, header);
    PiecesRead(input, header, payload, trailer, rest, n);
  }

  /** The CDC port: bytes still to arrive before the line goes quiet, and bytes sent. */
  class Port {
    var input: seq<Byte>
    var output: seq<Byte>

    /** read_exact: byte by byte; a quiet line is a timeout. */
    method ReadExact(n: nat) returns (ok: bool, dst: seq<Byte>)
      modifies `input
      ensures ok <==> |old(input)| >= n
      ensures ok ==> dst == old(input)[..n] && input == old(input)[n..]
      ensures !ok ==> input == []
    {
      dst := [];
      for i := 0 to n
        invariant i <= |old(input)| && dst == old(input)[..i] && input == old(input)[i..]
      {
        if input == [] {
          return false, dst;
        }
        dst := dst + [input[0]];
        input := input[1..];
      }
      return true, dst;
    }

    /** rpsw_read_frame */
    method ReadFrame() returns (r: Option<Frame>)
      modifies `input
      ensures match Parse(old(input))
              case None => r == None
              case Some((f, rest)) => r == Some(f) && input == rest
      ensures |input| <= |old(input)| && input == old(input)[|old(input)| - |input|..]
    {
      var ok, header := ReadExact(10);
      if !ok {
        return None;
      }
      HeaderRead(old(input), header);
      if LeValue(header[..4]) != MAGIC || header[4] != VERSION {
        return None;
      }
      var length := LeValue(header[8..10]);
      if length > MAX_PAYLOAD {
        return None;
      }
      var payload, trailer;
      ok, payload := ReadExact(length);
      if !ok {
        return None;
      }
      ok, trailer := ReadExact(4);
      if !ok {
        return None;
      }
      FrameRead(old(input), header, payload, trailer, input, length);
      var crc := ComputeCrc(header + payload);
      if crc != LeValue(trailer) {
        return None;
      }
      return Some(Frame(header[5], LeValue(header[6..8]), payload));
    }

    method PutAll(bytes: seq<Byte>)
      modifies `output
      ensures output == old(output) + bytes
    {
      for i := 0 to |bytes|
        invariant output == old(output) + bytes[..i]
      {
        output := output + [bytes[i]];
      }
    }

    /** rpsw_write_response */
    method WriteResponse(command: Byte, sequence: nat, status: nat, payload: seq<Byte>)
      requires sequence < 0x1_0000 && status < STATUS_COUNT && |payload| <= MAX_PAYLOAD
      modifies `output
      ensures output == old(output) + ResponseBytes(command, sequence, status, payload)
    {
      var header := ResponseHeader(OrReply(command), sequence, status, |payload|);
      var crc := ComputeCrc(header + payload);
      PutAll(header);
      PutAll(payload);
      PutAll(LeBytes(crc, 4));
      Appended(old(output), header, payload, LeBytes(crc, 4));
    }
  }
}
