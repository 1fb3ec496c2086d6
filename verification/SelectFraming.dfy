/**
 The framing of an S3 Select response: what the decoder computes from the bytes of a body, an
 encoder for messages, and the proof that the one inverts the other. CRC32 is a parameter, and
 so is what a message means (`handle`).
*/
module SelectFraming {
  import opened SelectHeaders
  import opened Sequences

  datatype Failure =
    | Read(e: ReadError) | BadChecksum | Server(code: string, message: string)
    | BadXml | UnexpectedContentType(contentType: string)

  /** How the decoder closes its pipe. */
  datatype Closing = Clean | Broken(failure: Failure)

  /** The effect of a message: what of its payload goes to the pipe and how many bytes of it
      are read, or why decoding stops. */
  datatype Effect = Halt(closing: Closing) | Consume(out: Bytes, n: nat)

  /** The CRC of some bytes, and the effect of a message with these header bytes when this
      much payload can be read. */
  datatype Env = Env(crc: Bytes -> uint32, handle: (Bytes, Bytes) -> Effect)

  // ----- the decoder -----

  datatype Decoded = Stop(out: Bytes, closing: Closing) | Next(out: Bytes, rest: Bytes)

  /** int64(totalLen - headerLen - 16) on uint32. */
  function PayloadLen(totalLen: nat, headerLen: nat): nat {
    (totalLen - headerLen - 16) % TWO_TO_32
  }

  /** The error of reading n bytes from too few. */
  function Short(b: Bytes): Failure {
    Read(if b == "" then EndOfFile else UnexpectedEOF)
  }

  /** The CRC at the end of a message: crcBytes is what was read of it so far. */
  function CheckMessageCRC(env: Env, out: Bytes, crcBytes: Bytes, b: Bytes): Decoded {
    if |b| < 4 then Stop(out, Broken(Short(b)))
    else if U32(b) != env.crc(crcBytes) then Stop(out, Broken(BadChecksum))
    else Next(out, b[4..])
  }

  /** A message behind its prelude, cut into headers and the rest. */
  function DecodeWindow(env: Env, prelude: Bytes, window: Bytes, payloadLen: nat, b: Bytes): Decoded {
    match env.handle(window, Take(b, payloadLen))
    case Halt(closing) => Stop("", closing)
    case Consume(out, n) => CheckMessageCRC(env, out, prelude + window + Take(b, n), Drop(b, n))
  }

  /** A message behind its prelude. */
  function DecodeBody(env: Env, prelude: Bytes, totalLen: nat, headerLen: nat, b: Bytes): Decoded {
    DecodeWindow(env, prelude, Take(b, headerLen), PayloadLen(totalLen, headerLen), Drop(b, headerLen))
  }

  /** A message whose prelude has been read. */
  function DecodeFramed(env: Env, prelude: Bytes, b: Bytes): Decoded
    requires |prelude| == 12
  {
    if U32(prelude[8..]) != env.crc(prelude[..8]) then Stop("", Broken(BadChecksum))
    else DecodeBody(env, prelude, U32(prelude), U32(prelude[4..]), b)
  }

  /** One message of the stream b. */
  function DecodeOne(env: Env, b: Bytes): Decoded {
    if |b| < 12 then Stop("", Broken(Short(b[|b| / 4 * 4..]))) else DecodeFramed(env, b[..12], b[12..])
  }

  lemma DecodeBodyShortens(env: Env, prelude: Bytes, totalLen: nat, headerLen: nat, b: Bytes)
    ensures var d := DecodeBody(env, prelude, totalLen, headerLen, b); d.Next? ==> |d.rest| < |b|
  {
  }

  lemma DecodeOneShortens(env: Env, b: Bytes)
    ensures DecodeOne(env, b).Next? ==> |DecodeOne(env, b).rest| < |b|
  {
    if |b| >= 12 {
      var p := b[..12];
      DecodeBodyShortens(env, p, U32(p), U32(p[4..]), b[12..]);
    }
  }

  /** The stream b behind a part that was already decoded to written: what goes to the pipe
      in all, and how the pipe is closed. */
  function DecodeAll(env: Env, written: Bytes, b: Bytes): (Bytes, Closing)
    decreases |b|
  {
    DecodeOneShortens(env, b);
    match DecodeOne(env, b)
    case Stop(out, closing) => (written + out, closing)
    case Next(out, rest) => DecodeAll(env, written + out, rest)
  }

  // ----- the encoder -----

  /** A message: its encoded headers, and its payload. */
  datatype Message = Message(headers: Bytes, payload: Bytes)

  predicate Fits(msg: Message) {
    |msg.headers| + |msg.payload| + 16 < TWO_TO_32
  }

  predicate AllFit(msgs: seq<Message>) {
    forall i :: 0 <= i < |msgs| ==> Fits(msgs[i])
  }

  function Prelude(env: Env, headerLen: nat, payloadLen: nat): Bytes
    requires headerLen + payloadLen + 16 < TWO_TO_32
  {
    var lengths := Put32(headerLen + payloadLen + 16) + Put32(headerLen);
    lengths + Put32(env.crc(lengths))
  }

  /** total length, header length, prelude CRC, headers, payload, message CRC. */
  function Frame(env: Env, msg: Message): Bytes
    requires Fits(msg)
  {
    var body := Prelude(env, |msg.headers|, |msg.payload|) + msg.headers + msg.payload;
    body + Put32(env.crc(body))
  }

  function FrameAll(env: Env, msgs: seq<Message>): Bytes
    requires AllFit(msgs)
  {
    if msgs == [] then "" else Frame(env, msgs[0]) + FrameAll(env, msgs[1..])
  }

  // ----- the decoder inverts the encoder -----

  lemma Slices(t: Bytes, h: Bytes, c: Bytes)
    requires |t| == |h| == |c| == 4
    ensures var p := t + h + c; p == t + (h + c) && p[4..] == h + c && p[8..] == c + "" && p[..8] == t + h
  {
  }

  /** The lengths and the checksum of a prelude are what it was built from. */
  lemma TrueLengths(env: Env, n: nat, k: nat)
    requires n + k + 16 < TWO_TO_32
    ensures var p := Prelude(env, n, k);
            |p| == 12 && U32(p) == n + k + 16 && U32(p[4..]) == n && U32(p[8..]) == env.crc(p[..8])
  {
    var t, h := Put32(n + k + 16), Put32(n);
    var c := Put32(env.crc(t + h));
    U32Put(n + k + 16, h + c);
    U32Put(n, c);
    U32Put(env.crc(t + h), "");
    Slices(t, h, c);
  }

  lemma TruePayloadLen(total: nat, n: nat, payload: nat)
    requires total < TWO_TO_32 && total == n + payload + 16
    ensures PayloadLen(total, n) == payload
  {
  }

  lemma BehindPrelude(env: Env, p: Bytes, total: nat, hs: Bytes, n: nat, b: Bytes)
    requires PayloadLen(total, |hs|) == n
    ensures DecodeBody(env, p, total, |hs|, hs + b) == DecodeWindow(env, p, hs, n, b)
  {
    TakeDrop(hs, b);
  }

  /** A prelude leads the decoder to the headers, and tells it the true lengths, whatever
      there is of the rest of the message. */
  lemma BehindAnyFraming(env: Env, h: nat, n: nat, b: Bytes)
    requires h + n + 16 < TWO_TO_32
    ensures var p := Prelude(env, h, n);
            DecodeOne(env, p + b) == DecodeWindow(env, p, Take(b, h), n, Drop(b, h))
  {
    TrueLengths(env, h, n);
    var p := Prelude(env, h, n);
    TakeDrop(p, b);
    TruePayloadLen(U32(p), h, n);
  }

  lemma BehindFraming(env: Env, hs: Bytes, n: nat, b: Bytes)
    requires |hs| + n + 16 < TWO_TO_32
    ensures var p := Prelude(env, |hs|, n);
            DecodeOne(env, p + (hs + b)) == DecodeWindow(env, p, hs, n, b)
  {
    BehindAnyFraming(env, |hs|, n, hs + b);
    TakeDrop(hs, b);
  }

  /** What is left of decoding a message with this effect and a payload of n bytes. */
  predicate Handled(d: Decoded, e: Effect, n: nat, rest: Bytes) {
    match e
    case Halt(closing) => d == Stop("", closing)
    case Consume(out, k) => k == n ==> d == Next(out, rest)
  }

  lemma WindowEncoded(env: Env, p: Bytes, hs: Bytes, payload: Bytes, c: Bytes, rest: Bytes)
    requires |c| == 4 && U32(c + rest) == env.crc(p + hs + payload)
    ensures var d := DecodeWindow(env, p, hs, |payload|, payload + (c + rest));
            Handled(d, env.handle(hs, payload), |payload|, rest)
  {
    TakeDrop(payload, c + rest);
    TakeDrop(c, rest);
  }

  lemma Rebracket(p: Bytes, hs: Bytes, payload: Bytes, c: Bytes, rest: Bytes)
    ensures ((p + hs + payload) + c) + rest == p + (hs + (payload + (c + rest)))
  {
  }

  /** A message that is decoded from its beginning is handled by its headers and its true
      payload, and the next iteration starts at the next message. */
  lemma DecodeFrame(env: Env, msg: Message, rest: Bytes)
    requires Fits(msg)
    ensures Handled(DecodeOne(env, Frame(env, msg) + rest), env.handle(msg.headers, msg.payload), |msg.payload|, rest)
  {
    var p := Prelude(env, |msg.headers|, |msg.payload|);
    var crc := env.crc(p + msg.headers + msg.payload);
    U32Put(crc, rest);
    Rebracket(p, msg.headers, msg.payload, Put32(crc), rest);
    BehindFraming(env, msg.headers, |msg.payload|, msg.payload + (Put32(crc) + rest));
    WindowEncoded(env, p, msg.headers, msg.payload, Put32(crc), rest);
  }

  /** A message in front of the end: one that the decoder reads completely. */
  predicate ReadWhole(env: Env, msg: Message) {
    match env.handle(msg.headers, msg.payload)
    case Halt(_) => false
    case Consume(_, n) => n == |msg.payload|
  }

  /** What a message puts into the pipe. */
  function Output(env: Env, msg: Message): Bytes {
    match env.handle(msg.headers, msg.payload)
    case Halt(_) => ""
    case Consume(out, _) => out
  }

  function Outputs(env: Env, msgs: seq<Message>): Bytes {
    if msgs == [] then "" else Output(env, msgs[0]) + Outputs(env, msgs[1..])
  }

  /** A stream of complete messages adds their outputs, in order, to what was written before,
      and decoding goes on behind them. */
  lemma {:induction false} DecodeFrames(env: Env, written: Bytes, msgs: seq<Message>, tail: Bytes)
    requires AllFit(msgs) && forall i :: 0 <= i < |msgs| ==> ReadWhole(env, msgs[i])
    ensures DecodeAll(env, written, FrameAll(env, msgs) + tail)
         == DecodeAll(env, written + Outputs(env, msgs), tail)
    decreases |msgs|
  {
    if msgs == [] {
      assert FrameAll(env, msgs) + tail == tail;
      assert written + Outputs(env, msgs) == written;
    } else {
      assert ReadWhole(env, msgs[0]);
      var mid, more, out := FrameAll(env, msgs[1..]), Outputs(env, msgs[1..]), Output(env, msgs[0]);
      DecodeFrame(env, msgs[0], mid + tail);
      DecodeFrames(env, written + out, msgs[1..], tail);
      Associates(Frame(env, msgs[0]), mid, tail);
      Associates(written, out, more);
    }
  }

  /** A frame cut inside its payload, or right behind it: the decoder handles what there is of
      the payload and then meets the end of the file. */
  lemma DecodeCutFrame(env: Env, msg: Message, part: Bytes)
    requires Fits(msg) && part <= Frame(env, msg)
    requires 0 <= |part| - 12 - |msg.headers| <= |msg.payload|
    requires ReadWhole(env, Message(msg.headers, msg.payload[..|part| - 12 - |msg.headers|]))
    ensures DecodeOne(env, part) == Stop(Output(env, Message(msg.headers, msg.payload[..|part| - 12 - |msg.headers|])),
                                         Broken(Read(EndOfFile)))
  {
    var p, payload := Prelude(env, |msg.headers|, |msg.payload|), msg.payload[..|part| - 12 - |msg.headers|];
    CutFrame(env, msg, part);
    BehindFraming(env, msg.headers, |msg.payload|, payload);
    DecodeCutWindow(env, p, msg.headers, |msg.payload|, payload);
  }

  lemma CutFrame(env: Env, msg: Message, part: Bytes)
    requires Fits(msg) && part <= Frame(env, msg)
    requires 0 <= |part| - 12 - |msg.headers| <= |msg.payload|
    ensures part == Prelude(env, |msg.headers|, |msg.payload|)
                 + (msg.headers + msg.payload[..|part| - 12 - |msg.headers|])
  {
    var p := Prelude(env, |msg.headers|, |msg.payload|);
    TrueLengths(env, |msg.headers|, |msg.payload|);
    PrefixOfFour(p, msg.headers, msg.payload, Put32(env.crc(p + msg.headers + msg.payload)), part);
  }

  lemma PrefixOfFour(p: Bytes, hs: Bytes, payload: Bytes, c: Bytes, part: Bytes)
    requires part <= ((p + hs) + payload) + c && |p| + |hs| <= |part| <= |p| + |hs| + |payload|
    ensures part == p + (hs + payload[..|part| - |p| - |hs|])
  {
    assert part == (((p + hs) + payload) + c)[..|part|];
  }

  lemma DecodeCutWindow(env: Env, p: Bytes, hs: Bytes, n: nat, payload: Bytes)
    requires |payload| <= n
    requires ReadWhole(env, Message(hs, payload))
    ensures DecodeWindow(env, p, hs, n, payload)
         == Stop(Output(env, Message(hs, payload)), Broken(Read(EndOfFile)))
  {
    assert Take(payload, n) == payload && Drop(payload, |payload|) == "";
  }

  /** A proper prefix of a frame that holds the prelude. */
  lemma CutBehindPrelude(env: Env, msg: Message, part: Bytes)
    requires Fits(msg) && part < Frame(env, msg) && |part| >= 12
    ensures part[..12] == Prelude(env, |msg.headers|, |msg.payload|)
    ensures |part| < 12 + |msg.headers| + |msg.payload| + 4
    ensures |part| < 12 + |msg.headers| ==> part[12..] == msg.headers[..|part| - 12]
    ensures |part| >= 12 + |msg.headers| ==>
              && part[..12 + |msg.headers|] == part[..12] + msg.headers
              && part[12..] == msg.headers + part[12 + |msg.headers|..]
              && part[12 + |msg.headers|..] <= msg.payload + Put32(env.crc(part[..12] + msg.headers + msg.payload))
  {
    var p := Prelude(env, |msg.headers|, |msg.payload|);
    TrueLengths(env, |msg.headers|, |msg.payload|);
    var crc := env.crc(p + msg.headers + msg.payload);
    U32Put(crc, "");
    PrefixParts(p, msg.headers, msg.payload, Put32(crc), part);
  }

  lemma PrefixParts(p: Bytes, hs: Bytes, payload: Bytes, c: Bytes, part: Bytes)
    requires part < ((p + hs) + payload) + c && |part| >= |p|
    ensures part[..|p|] == p && |part| < |p| + |hs| + |payload| + |c|
    ensures |part| < |p| + |hs| ==> part[|p|..] == hs[..|part| - |p|]
    ensures |part| >= |p| + |hs| ==>
              && part[..|p| + |hs|] == p + hs
              && part[|p|..] == hs + part[|p| + |hs|..]
              && part[|p| + |hs|..] <= payload + c
  {
    var all := ((p + hs) + payload) + c;
    assert part == all[..|part|];
    assert all == (p + hs) + (payload + c);
  }

  // ----- only frames are accepted -----

  predicate IsBytes(b: Bytes) {
    forall i :: 0 <= i < |b| ==> b[i] as nat < 0x100
  }

  lemma PutU32(b: Bytes)
    requires IsBytes(b) && |b| == 4
    ensures U32(b) < TWO_TO_32 && Put32(U32(b)) == b
  {
    var hi, lo := U16(b), b[2] as nat * 0x100 + b[3] as nat;
    assert hi < 0x1_0000 && lo < 0x1_0000;
    assert U32(b) / 0x1_0000 == hi && U32(b) % 0x1_0000 == lo;
    assert hi / 0x100 == b[0] as nat && hi % 0x100 == b[1] as nat;
    assert lo / 0x100 == b[2] as nat && lo % 0x100 == b[3] as nat;
  }

  lemma PreludeIsRead(env: Env, p: Bytes, n: nat, k: nat)
    requires IsBytes(p) && |p| == 12
    requires n + k + 16 < TWO_TO_32 && U32(p) == n + k + 16 && U32(p[4..]) == n && U32(p[8..]) == env.crc(p[..8])
    ensures p == Prelude(env, n, k)
  {
    PutU32(p[..4]);
    PutU32(p[4..8]);
    PutU32(p[8..]);
    assert p[..8] == p[..4] + p[4..8] && p == p[..8] + p[8..];
  }

  /** What the decoder accepts is an encoding: if it reads a message to its end, and the
      payload with it, the stream starts with the frame of these headers and this payload. */
  lemma AcceptedIsFrame(env: Env, p: Bytes, msg: Message, b: Bytes, out: Bytes, rest: Bytes)
    requires IsBytes(p) && |p| == 12
    requires U32(p) == |msg.headers| + |msg.payload| + 16 && U32(p[4..]) == |msg.headers|
    requires IsBytes(b) && ReadWhole(env, msg)
    requires DecodeOne(env, p + (msg.headers + (msg.payload + b))) == Next(out, rest)
    ensures Fits(msg) && out == Output(env, msg)
    ensures p + (msg.headers + (msg.payload + b)) == Frame(env, msg) + rest
  {
    var hs, payload := msg.headers, msg.payload;
    PutU32(p[..4]);
    AcceptedFramed(env, p, hs + (payload + b), out, rest);
    TruePayloadLen(U32(p), |hs|, |payload|);
    BehindPrelude(env, p, U32(p), hs, |payload|, payload + b);
    AcceptedWindow(env, p, msg, b, out, rest);
    PreludeIsRead(env, p, |hs|, |payload|);
    ChecksumIsRead(env, p, msg, b);
  }

  lemma AcceptedFramed(env: Env, p: Bytes, b: Bytes, out: Bytes, rest: Bytes)
    requires |p| == 12 && DecodeOne(env, p + b) == Next(out, rest)
    ensures U32(p[8..]) == env.crc(p[..8]) && DecodeBody(env, p, U32(p), U32(p[4..]), b) == Next(out, rest)
  {
    TakeDrop(p, b);
  }

  lemma AcceptedWindow(env: Env, p: Bytes, msg: Message, b: Bytes, out: Bytes, rest: Bytes)
    requires ReadWhole(env, msg)
    requires DecodeWindow(env, p, msg.headers, |msg.payload|, msg.payload + b) == Next(out, rest)
    ensures |b| >= 4 && rest == b[4..] && U32(b) == env.crc(p + msg.headers + msg.payload)
    ensures out == Output(env, msg)
  {
    TakeDrop(msg.payload, b);
  }

  lemma ChecksumIsRead(env: Env, p: Bytes, msg: Message, b: Bytes)
    requires IsBytes(b) && |b| >= 4 && U32(b) == env.crc(p + msg.headers + msg.payload)
    requires Fits(msg) && p == Prelude(env, |msg.headers|, |msg.payload|)
    ensures p + (msg.headers + (msg.payload + b)) == Frame(env, msg) + b[4..]
  {
    PutU32(b[..4]);
    Rebracket(p, msg.headers, msg.payload, b[..4], b[4..]);
    assert b == b[..4] + b[4..];
  }
}
