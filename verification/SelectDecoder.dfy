/**
 The goroutine that decodes an S3 Select response, in the form the code has: it reads a body
 step by step, sums what it reads, fills a header map and writes to a pipe. It is proved to
 compute DecodeAll, and DecodeAll of an encoded event stream is the records in order.
*/
module SelectDecoder {
  import opened Wrappers
  import opened SelectFraming
  import opened SelectHeaders

  /** The headers that the decoder looks at. */
  datatype Fields = Fields(messageType: string, eventType: string, contentType: string,
                           errorCode: string, errorMessage: string)

  function FieldsOf(m: HeaderMap): Fields {
    Fields(Get(m, "message-type"), Get(m, "event-type"), Get(m, "content-type"),
           Get(m, "error-code"), Get(m, "error-message"))
  }

  /** What the decoder does with a message: whether the XML decoder accepts a payload is a
      parameter; if it does, it reads all of it. */
  function HandleMessage(xmlOk: Bytes -> bool, f: Fields, payload: Bytes): Effect {
    if f.messageType == "error" then Halt(Broken(Server(f.errorCode, f.errorMessage)))
    else if f.messageType != "event" then Consume("", 0)
    else
      match f.eventType
      case "End" => Halt(Clean)
      case "Records" => Consume(payload, |payload|)
      case "Progress" => HandleXml(xmlOk, f.contentType, payload)
      case "Stats" => HandleXml(xmlOk, f.contentType, payload)
      case _ => Consume("", 0)
  }

  function HandleXml(xmlOk: Bytes -> bool, contentType: string, payload: Bytes): Effect {
    if contentType != "text/xml" then Halt(Broken(UnexpectedContentType(contentType)))
    else if !xmlOk(payload) then Halt(Broken(BadXml))
    else Consume("", |payload|)
  }

  /** The effect of a message, from its header bytes on. */
  function MessageEffect(xmlOk: Bytes -> bool, window: Bytes, payload: Bytes): Effect {
    match ParseHeaders(window, map[])
    case Err(e) => Halt(Broken(Read(e)))
    case Ok(m) => HandleMessage(xmlOk, FieldsOf(m), payload)
  }

  function SelectEnv(crc: Bytes -> uint32, xmlOk: Bytes -> bool): Env {
    Env(crc, (window, payload) => MessageEffect(xmlOk, window, payload))
  }

  /** The environment treats messages as the decoder does. */
  ghost predicate IsSelectEnv(env: Env, crc: Bytes -> uint32, xmlOk: Bytes -> bool) {
    env.crc == crc && forall w, payload :: env.handle(w, payload) == MessageEffect(xmlOk, w, payload)
  }

  lemma SelectEnvIs(crc: Bytes -> uint32, xmlOk: Bytes -> bool)
    ensures IsSelectEnv(SelectEnv(crc, xmlOk), crc, xmlOk)
  {
  }

  // ----- the decoder -----

  /** The response body together with the bytes its TeeReader has given to the CRC. */
  class Body {
    var rest: Bytes
    var summed: Bytes

    constructor (data: Bytes)
      ensures rest == data && summed == ""
    {
      rest, summed := data, "";
    }

    /** io.ReadFull of n bytes. */
    method ReadFull(n: nat, tee: bool) returns (r: Result<Bytes, ReadError>)
      modifies this
      ensures r == if |old(rest)| < n then Err(if old(rest) == "" then EndOfFile else UnexpectedEOF)
                   else Ok(old(rest)[..n])
      ensures rest == Drop(old(rest), n)
      ensures summed == if tee then old(summed) + Take(old(rest), n) else old(summed)
    {
      var got := Take(rest, n);
      rest := Drop(rest, n);
      if tee {
        summed := summed + got;
      }
      if |got| == n {
        r := Ok(got);
      } else if got == "" {
        r := Err(EndOfFile);
      } else {
        r := Err(UnexpectedEOF);
      }
    }

    /** Everything that a LimitReader over the tee can deliver. */
    method ReadPayload(n: nat) returns (payload: Bytes)
      modifies this
      ensures payload == Take(old(rest), n) && rest == Drop(old(rest), n)
      ensures summed == old(summed) + payload
    {
      payload := Take(rest, n);
      rest := Drop(rest, n);
      summed := summed + payload;
    }

    method CheckCRC(crc: Bytes -> uint32, tee: bool) returns (failure: Option<Failure>)
      modifies this
      ensures failure == if |old(rest)| < 4 then Some(Short(old(rest)))
                         else if U32(old(rest)) != crc(old(summed)) then Some(BadChecksum)
                         else None
      ensures rest == Drop(old(rest), 4)
      ensures summed == if tee then old(summed) + Take(old(rest), 4) else old(summed)
    {
      var sum := crc(summed);
      var r := ReadFull(4, tee);
      match r {
        case Err(e) =>
          failure := Some(Read(e));
        case Ok(bytes) =>
          failure := if U32(bytes) != sum then Some(BadChecksum) else None;
      }
    }

    method ProcessPrelude(crc: Bytes -> uint32) returns (r: Result<(nat, nat), Failure>)
      requires summed == ""
      modifies this
      ensures |old(rest)| < 12 ==> r == Err(Short(old(rest)[|old(rest)| / 4 * 4..]))
      ensures |old(rest)| >= 12 ==>
                var p := old(rest)[..12];
                && rest == old(rest)[12..] && summed == p
                && r == if U32(p[8..]) != crc(p[..8]) then Err(BadChecksum) else Ok((U32(p), U32(p[4..])))
    {
      PreludeParts(rest);
      var total := ReadFull(4, true);
      if total.Err? {
        return Err(Read(total.error));
      }
      var header := ReadFull(4, true);
      if header.Err? {
        return Err(Read(header.error));
      }
      var failure := CheckCRC(crc, true);
      match failure {
        case Some(e) =>
          r := Err(e);
        case None =>
          r := Ok((U32(total.value), U32(header.value)));
      }
    }
  }

  /** Three reads of four bytes are one of twelve. */
  lemma PreludeParts(b: Bytes)
    ensures "" + Take(b, 4) == Take(b, 4)
    ensures |b| >= 8 ==> b[..4] + b[4..][..4] == b[..8]
    ensures |b| >= 12 ==>
              && b[..8] + b[4..][4..][..4] == b[..12] == Take(b, 12) && b[4..][4..][4..] == b[12..]
              && U32(b[..12]) == U32(b[..4]) && U32(b[..12][4..]) == U32(b[4..][..4])
              && U32(b[..12][8..]) == U32(b[4..][4..]) && b[..12][..8] == b[..8]
  {
  }

  /** io.LimitReader(crcReader, n): the part of the body that holds a message's headers. */
  class Window {
    const source: Body
    var left: nat

    constructor (source: Body, n: nat)
      ensures this.source == source && left == n
    {
      this.source, left := source, n;
    }

    /** What can still be read. */
    function Content(): Bytes
      reads this, source
    {
      Take(source.rest, left)
    }

    /** What is behind the window, and everything summed up to its end: no read changes them. */
    function Behind(): (Bytes, Bytes)
      reads this, source
    {
      (Drop(source.rest, left), source.summed + Content())
    }

    method Draw(n: nat) returns (got: Bytes)
      modifies this, source
      ensures got == Take(old(Content()), n) && Content() == Drop(old(Content()), n)
      ensures Behind() == old(Behind())
    {
      ghost var before := source.rest;
      got := source.ReadPayload(if n <= left then n else left);
      left := if n <= left then left - n else 0;
      TakeInTwo(before, old(left), n);
      assert old(source.summed) + (got + Content()) == (old(source.summed) + got) + Content();
    }

    method ReadFull(n: nat) returns (r: Result<Bytes, ReadError>)
      modifies this, source
      ensures r == if |old(Content())| < n then Err(if old(Content()) == "" then EndOfFile else UnexpectedEOF)
                   else Ok(old(Content())[..n])
      ensures Content() == Drop(old(Content()), n) && Behind() == old(Behind())
    {
      var got := Draw(n);
      if |got| == n {
        r := Ok(got);
      } else if got == "" {
        r := Err(EndOfFile);
      } else {
        r := Err(UnexpectedEOF);
      }
    }

    /** extractString: one Read into a zeroed buffer. */
    method ExtractString(n: nat) returns (r: Result<string, ReadError>)
      modifies this, source
      ensures Extracted(ReadString(old(Content()), n), r, Content())
      ensures Behind() == old(Behind())
    {
      var empty := left == 0 || source.rest == "";
      var got := Draw(n);
      if empty {
        return Err(EndOfFile);
      }
      assert got + Zeros(0) == got;
      r := Ok(got + Zeros(n - |got|));
    }

    method ExtractHeaderType() returns (r: Result<string, ReadError>)
      modifies this, source
      ensures Extracted(ReadName(old(Content())), r, Content())
      ensures Behind() == old(Behind())
    {
      var nameLen := ReadFull(1);
      match nameLen {
        case Err(e) =>
          r := Err(e);
        case Ok(bytes) =>
          r := ExtractString(U8(bytes));
      }
    }

    method ExtractHeaderValue() returns (r: Result<string, ReadError>)
      modifies this, source
      ensures Extracted(ReadValue(old(Content())), r, Content())
      ensures Behind() == old(Behind())
    {
      var valueLen := ReadFull(2);
      match valueLen {
        case Err(e) =>
          r := Err(e);
        case Ok(bytes) =>
          r := ExtractString(U16(bytes));
      }
    }

    /** extractHeader into an empty header map. */
    method ExtractHeader() returns (r: Result<HeaderMap, ReadError>)
      modifies this, source
      ensures r == ParseHeaders(old(Content()), map[])
      ensures r.Ok? ==> Content() == ""
      ensures Behind() == old(Behind())
    {
      var m: HeaderMap := map[];
      while true
        invariant ParseHeaders(Content(), m) == ParseHeaders(old(Content()), map[])
        invariant Behind() == old(Behind())
        decreases |Content()|
      {
        NameShortens(Content());
        var name := ExtractHeaderType();
        if name.Err? {
          return Ok(m);
        }
        var seven := ReadFull(1);
        ValueShortens(Content());
        var value := ExtractHeaderValue();
        if value.Err? {
          return Err(value.error);
        }
        m := Put(m, name.value, value.value);
      }
    }
  }

  /** A read with the outcome that the parser's function gives, which leaves w. */
  predicate Extracted(parsed: Result<(string, Bytes), ReadError>, r: Result<string, ReadError>, w: Bytes) {
    match parsed
    case Err(e) => r == Err(e) && w == ""
    case Ok((s, rest)) => r == Ok(s) && w == rest
  }

  lemma NameShortens(w: Bytes)
    ensures ReadName(w).Ok? ==> |ReadName(w).value.1| < |w|
  {
  }

  lemma ValueShortens(w: Bytes)
    ensures ReadValue(w).Ok? ==> |ReadValue(w).value.1| < |w|
  {
  }

  lemma TakeInTwo(b: Bytes, left: nat, n: nat)
    ensures var k := if n <= left then n else left;
            var rest := Drop(b, k);
            && Take(b, k) == Take(Take(b, left), n)
            && Take(rest, left - k) == Drop(Take(b, left), n)
            && Take(b, k) + Take(rest, left - k) == Take(b, left)
            && Drop(rest, left - k) == Drop(b, left)
  {
    if n <= left {
      TakeTake(b, left, n);
      DropInTwo(b, left, n);
    } else {
      assert Drop(Drop(b, left), 0) == Drop(b, left);
    }
  }

  lemma TakeTake(b: Bytes, left: nat, n: nat)
    requires n <= left
    ensures Take(Take(b, left), n) == Take(b, n)
    ensures Drop(Take(b, left), n) == Take(Drop(b, n), left - n)
  {
  }

  lemma DropInTwo(b: Bytes, left: nat, n: nat)
    requires n <= left
    ensures Take(b, n) + Take(Drop(b, n), left - n) == Take(b, left)
    ensures Drop(Drop(b, n), left - n) == Drop(b, left)
  {
  }

  // ----- the loop over messages -----

  /** The event e was handled: out went to the pipe, and unless decoding stopped, the body
      went from b, with summed already in the checksum, to rest and sum. */
  predicate HandledEvent(e: Effect, out: Bytes, stop: Option<Closing>,
                         b: Bytes, summed: Bytes, rest: Bytes, sum: Bytes) {
    match e
    case Halt(closing) => out == "" && stop == Some(closing)
    case Consume(piped, n) =>
      out == piped && stop == None && rest == Drop(b, n) && sum == summed + Take(b, n)
  }

  predicate DecodedMessage(d: Decoded, out: Bytes, stop: Option<Closing>, rest: Bytes) {
    match d
    case Stop(piped, closing) => out == piped && stop == Some(closing)
    case Next(piped, after) => out == piped && stop == None && rest == after
  }

  /** The part of the loop between the headers and the checksum. */
  method HandleEvent(body: Body, xmlOk: Bytes -> bool, f: Fields, payloadLen: nat)
    returns (out: Bytes, stop: Option<Closing>)
    modifies body
    ensures HandledEvent(HandleMessage(xmlOk, f, Take(old(body.rest), payloadLen)), out, stop,
                         old(body.rest), old(body.summed), body.rest, body.summed)
  {
    out, stop := "", None;
    TakePayload(body.rest, payloadLen);
    if f.messageType == "error" {
      stop := Some(Broken(Server(f.errorCode, f.errorMessage)));
    } else if f.messageType == "event" {
      if f.eventType == "End" {
        stop := Some(Clean);
      } else if f.eventType == "Records" {
        out := body.ReadPayload(payloadLen);
      } else if f.eventType == "Progress" || f.eventType == "Stats" {
        stop := DecodeXml(body, xmlOk, f.contentType, payloadLen);
      }
    }
  }

  /** The payload of a Progress or Stats event. */
  method DecodeXml(body: Body, xmlOk: Bytes -> bool, contentType: string, payloadLen: nat)
    returns (stop: Option<Closing>)
    modifies body
    ensures HandledEvent(HandleXml(xmlOk, contentType, Take(old(body.rest), payloadLen)), "", stop,
                         old(body.rest), old(body.summed), body.rest, body.summed)
  {
    stop := None;
    TakePayload(body.rest, payloadLen);
    if contentType == "text/xml" {
      var payload := body.ReadPayload(payloadLen);
      if !xmlOk(payload) {
        stop := Some(Broken(BadXml));
      }
    } else {
      stop := Some(Broken(UnexpectedContentType(contentType)));
    }
  }

  lemma TakePayload(b: Bytes, n: nat)
    ensures var payload := Take(b, n); Take(b, |payload|) == payload && Drop(b, |payload|) == Drop(b, n)
    ensures Take(b, 0) == "" && Drop(b, 0) == b
  {
  }

  /** An iteration of the loop, behind the headers. */
  method DecodeAfterHeaders(body: Body, crc: Bytes -> uint32, xmlOk: Bytes -> bool, m: HeaderMap, payloadLen: nat,
                            ghost env: Env, ghost prelude: Bytes, ghost window: Bytes)
    returns (out: Bytes, stop: Option<Closing>)
    requires body.summed == prelude + window && env.crc == crc
    requires env.handle(window, Take(body.rest, payloadLen))
          == HandleMessage(xmlOk, FieldsOf(m), Take(body.rest, payloadLen))
    modifies body
    ensures DecodedMessage(DecodeWindow(env, prelude, window, payloadLen, old(body.rest)), out, stop, body.rest)
  {
    out, stop := HandleEvent(body, xmlOk, FieldsOf(m), payloadLen);
    if stop == None {
      var failure := body.CheckCRC(crc, false);
      if failure.Some? {
        stop := Some(Broken(failure.value));
      }
    }
  }

  /** An iteration of the loop, behind the prelude. */
  method DecodeAfterPrelude(body: Body, crc: Bytes -> uint32, xmlOk: Bytes -> bool, totalLen: nat, headerLen: nat)
    returns (out: Bytes, stop: Option<Closing>)
    modifies body
    ensures DecodedMessage(DecodeBody(SelectEnv(crc, xmlOk), old(body.summed), totalLen, headerLen, old(body.rest)),
                           out, stop, body.rest)
  {
    ghost var b, prelude := body.rest, body.summed;
    var window := new Window(body, headerLen);
    var headers := window.ExtractHeader();
    if headers.Err? {
      return "", Some(Broken(Read(headers.error)));
    }
    Exhausted(body.rest, window.left, body.summed);
    out, stop := DecodeAfterHeaders(body, crc, xmlOk, headers.value, PayloadLen(totalLen, headerLen),
                                    SelectEnv(crc, xmlOk), prelude, Take(b, headerLen));
  }

  lemma Exhausted(b: Bytes, left: nat, summed: Bytes)
    requires Take(b, left) == ""
    ensures Drop(b, left) == b && summed + Take(b, left) == summed
  {
  }

  /** One iteration of the loop. */
  method DecodeMessage(body: Body, crc: Bytes -> uint32, xmlOk: Bytes -> bool)
    returns (out: Bytes, stop: Option<Closing>)
    requires body.summed == ""
    modifies body
    ensures DecodedMessage(DecodeOne(SelectEnv(crc, xmlOk), old(body.rest)), out, stop, body.rest)
  {
    var prelude := body.ProcessPrelude(crc);
    if prelude.Err? {
      return "", Some(Broken(prelude.error));
    }
    var (totalLen, headerLen) := prelude.value;
    out, stop := DecodeAfterPrelude(body, crc, xmlOk, totalLen, headerLen);
  }

  /** The goroutine: what it writes to the pipe and how it closes it. */
  method Start(body: Body, crc: Bytes -> uint32, xmlOk: Bytes -> bool) returns (out: Bytes, closing: Closing)
    modifies body
    ensures (out, closing) == DecodeAll(SelectEnv(crc, xmlOk), "", old(body.rest))
  {
    ghost var env := SelectEnv(crc, xmlOk);
    out := "";
    while true
      invariant DecodeAll(env, out, body.rest) == DecodeAll(env, "", old(body.rest))
      decreases |body.rest|
    {
      DecodeOneShortens(env, body.rest);
      body.summed := "";
      var piped, stop := DecodeMessage(body, crc, xmlOk);
      out := out + piped;
      if stop.Some? {
        return out, stop.value;
      }
    }
  }
}
