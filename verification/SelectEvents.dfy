/**
 What the S3 Select decoder promises its caller: the records of a stream of events, in order,
 and what a caller can and cannot notice when the stream is cut short.
*/
module SelectEvents {
  import opened SelectDecoder
  import opened SelectFraming
  import opened SelectHeaders
  import opened SelectNames
  import opened Wrappers

  datatype Event = Event(headers: seq<Header>, payload: Bytes)

  predicate EventFits(e: Event) {
    HeadersFit(e.headers) && |EncodeHeaders(e.headers)| + |e.payload| + 16 < TWO_TO_32
  }

  /** The message of an event on the wire. */
  function MessageOf(e: Event): Message
    requires EventFits(e)
  {
    Message(EncodeHeaders(e.headers), e.payload)
  }

  function MessagesOf(es: seq<Event>): (msgs: seq<Message>)
    requires forall i :: 0 <= i < |es| ==> EventFits(es[i])
    ensures |msgs| == |es| && forall i :: 0 <= i < |es| ==> msgs[i] == MessageOf(es[i])
  {
    if es == [] then [] else [MessageOf(es[0])] + MessagesOf(es[1..])
  }

  /** The fields of an event are the values of its last headers of these names. */
  function FieldsIn(e: Event): Fields {
    Fields(messageType := ValueOf(e.headers, ":message-type"),
           eventType := ValueOf(e.headers, ":event-type"),
           contentType := ValueOf(e.headers, ":content-type"),
           errorCode := ValueOf(e.headers, ":error-code"),
           errorMessage := ValueOf(e.headers, ":error-message"))
  }

  /** The decoder's map gives it those fields. */
  lemma FieldsAreNamed(e: Event)
    ensures FieldsOf(HeadersOf(e.headers, map[])) == FieldsIn(e)
  {
    MessageTypeIsNamed(e.headers);
    EventTypeIsNamed(e.headers);
    ContentTypeIsNamed(e.headers);
    ErrorCodeIsNamed(e.headers);
    ErrorMessageIsNamed(e.headers);
  }

  /** Fields and payload of a message that may stand in front of the end: records, progress
      and statistics as XML, or anything the decoder ignores, if it has no payload. */
  predicate IsMiddle(xmlOk: Bytes -> bool, f: Fields, payload: Bytes) {
    if f.messageType != "event" then f.messageType != "error" && payload == ""
    else if f.eventType == "Records" then true
    else if f.eventType == "Progress" || f.eventType == "Stats" then f.contentType == "text/xml" && xmlOk(payload)
    else f.eventType != "End" && payload == ""
  }

  predicate WellFormed(xmlOk: Bytes -> bool, e: Event) {
    EventFits(e) && IsMiddle(xmlOk, FieldsIn(e), e.payload)
  }

  predicate AllWellFormed(xmlOk: Bytes -> bool, es: seq<Event>) {
    forall i :: 0 <= i < |es| ==> WellFormed(xmlOk, es[i])
  }

  predicate IsRecords(e: Event) {
    FieldsIn(e).messageType == "event" && FieldsIn(e).eventType == "Records"
  }

  predicate IsEnd(e: Event) {
    EventFits(e) && FieldsIn(e).messageType == "event" && FieldsIn(e).eventType == "End"
  }

  /** The content of the records, in order. */
  function RecordsOf(es: seq<Event>): Bytes {
    if es == [] then "" else (if IsRecords(es[0]) then es[0].payload else "") + RecordsOf(es[1..])
  }

  /** The bytes of a stream of well-formed events. */
  function Stream(env: Env, xmlOk: Bytes -> bool, es: seq<Event>): Bytes
    requires AllWellFormed(xmlOk, es)
  {
    FrameAll(env, MessagesOf(es))
  }

  /** What the reader of the pipe is told: closing a pipe with io.EOF closes it cleanly. */
  function SeenByReader(closing: Closing): Closing {
    if closing == Broken(Read(EndOfFile)) then Clean else closing
  }

  // ----- the effect of events -----

  lemma MiddleEffect(xmlOk: Bytes -> bool, f: Fields, payload: Bytes)
    requires IsMiddle(xmlOk, f, payload)
    ensures HandleMessage(xmlOk, f, payload)
         == Consume(if f.messageType == "event" && f.eventType == "Records" then payload else "", |payload|)
  {
  }

  /** The decoder judges a message by the fields of the event it came from. */
  lemma EventEffect(env: Env, crc: Bytes -> uint32, xmlOk: Bytes -> bool, e: Event, payload: Bytes)
    requires IsSelectEnv(env, crc, xmlOk) && HeadersFit(e.headers)
    ensures env.handle(EncodeHeaders(e.headers), payload) == HandleMessage(xmlOk, FieldsIn(e), payload)
  {
    ParseEncodedHeaders(e.headers, map[]);
    FieldsAreNamed(e);
  }

  lemma WellFormedOutput(env: Env, crc: Bytes -> uint32, xmlOk: Bytes -> bool, e: Event)
    requires IsSelectEnv(env, crc, xmlOk) && WellFormed(xmlOk, e)
    ensures ReadWhole(env, MessageOf(e)) && Output(env, MessageOf(e)) == if IsRecords(e) then e.payload else ""
  {
    EventEffect(env, crc, xmlOk, e, e.payload);
    MiddleEffect(xmlOk, FieldsIn(e), e.payload);
  }

  lemma {:induction false} WellFormedOutputs(env: Env, crc: Bytes -> uint32, xmlOk: Bytes -> bool, es: seq<Event>)
    requires IsSelectEnv(env, crc, xmlOk) && AllWellFormed(xmlOk, es)
    ensures forall i :: 0 <= i < |es| ==> ReadWhole(env, MessagesOf(es)[i])
    ensures Outputs(env, MessagesOf(es)) == RecordsOf(es)
  {
    forall i | 0 <= i < |es|
      ensures ReadWhole(env, MessagesOf(es)[i])
    {
      WellFormedOutput(env, crc, xmlOk, es[i]);
    }
    if es != [] {
      WellFormedOutput(env, crc, xmlOk, es[0]);
      WellFormedOutputs(env, crc, xmlOk, es[1..]);
      assert MessagesOf(es)[1..] == MessagesOf(es[1..]);
    }
  }

  // ----- what the caller gets -----

  /** Well-formed events in front of anything put their records in front of its output. */
  lemma RecordsComeFirst(env: Env, crc: Bytes -> uint32, xmlOk: Bytes -> bool, es: seq<Event>, tail: Bytes)
    requires IsSelectEnv(env, crc, xmlOk) && AllWellFormed(xmlOk, es)
    ensures DecodeAll(env, "", Stream(env, xmlOk, es) + tail) == DecodeAll(env, RecordsOf(es), tail)
  {
    WellFormedOutputs(env, crc, xmlOk, es);
    DecodeFrames(env, "", MessagesOf(es), tail);
    assert "" + RecordsOf(es) == RecordsOf(es);
  }

  /** The decoder inverts the framing: whatever follows the end event, the records come out in
      order and the pipe is closed cleanly. */
  lemma RecordsComeOut(env: Env, crc: Bytes -> uint32, xmlOk: Bytes -> bool, es: seq<Event>, end: Event, junk: Bytes)
    requires IsSelectEnv(env, crc, xmlOk) && AllWellFormed(xmlOk, es) && IsEnd(end)
    ensures DecodeAll(env, "", Stream(env, xmlOk, es) + (Frame(env, MessageOf(end)) + junk)) == (RecordsOf(es), Clean)
  {
    RecordsComeFirst(env, crc, xmlOk, es, Frame(env, MessageOf(end)) + junk);
    EventEffect(env, crc, xmlOk, end, end.payload);
    DecodeFrame(env, MessageOf(end), junk);
    assert RecordsOf(es) + "" == RecordsOf(es);
  }

  /** A body that stops between two messages, without the end event, looks complete: the
      decoder closes the pipe with io.EOF. */
  lemma MissingEndIsUnnoticed(env: Env, crc: Bytes -> uint32, xmlOk: Bytes -> bool, es: seq<Event>)
    requires IsSelectEnv(env, crc, xmlOk) && AllWellFormed(xmlOk, es)
    ensures var (out, closing) := DecodeAll(env, "", Stream(env, xmlOk, es));
            out == RecordsOf(es) && SeenByReader(closing) == Clean
  {
    RecordsComeFirst(env, crc, xmlOk, es, "");
    assert Stream(env, xmlOk, es) + "" == Stream(env, xmlOk, es);
    assert RecordsOf(es) + "" == RecordsOf(es);
  }

  /** So does a body that is cut inside the content of some records: the caller gets the part
      that was there, and no error. */
  lemma CutRecordsAreUnnoticed(env: Env, crc: Bytes -> uint32, xmlOk: Bytes -> bool, es: seq<Event>,
                               last: Event, part: Bytes)
    requires IsSelectEnv(env, crc, xmlOk) && AllWellFormed(xmlOk, es) && EventFits(last) && IsRecords(last)
    requires part <= Frame(env, MessageOf(last))
    requires 0 <= |part| - 12 - |EncodeHeaders(last.headers)| <= |last.payload|
    ensures var (out, closing) := DecodeAll(env, "", Stream(env, xmlOk, es) + part);
            && out == RecordsOf(es) + last.payload[..|part| - 12 - |EncodeHeaders(last.headers)|]
            && SeenByReader(closing) == Clean
  {
    var cut := last.payload[..|part| - 12 - |EncodeHeaders(last.headers)|];
    RecordsAreCopied(env, crc, xmlOk, last, cut);
    CutCopied(env, MessageOf(last), part, cut);
    StopsThere(env, RecordsOf(es), part, cut);
    RecordsComeFirst(env, crc, xmlOk, es, part);
  }

  lemma StopsThere(env: Env, written: Bytes, b: Bytes, out: Bytes)
    requires DecodeOne(env, b) == Stop(out, Broken(Read(EndOfFile)))
    ensures DecodeAll(env, written, b) == (written + out, Broken(Read(EndOfFile)))
  {
  }

  lemma CutCopied(env: Env, msg: Message, part: Bytes, cut: Bytes)
    requires Fits(msg) && part <= Frame(env, msg) && 0 <= |part| - 12 - |msg.headers| <= |msg.payload|
    requires cut == msg.payload[..|part| - 12 - |msg.headers|]
    requires env.handle(msg.headers, cut) == Consume(cut, |cut|)
    ensures DecodeOne(env, part) == Stop(cut, Broken(Read(EndOfFile)))
  {
    DecodeCutFrame(env, msg, part);
  }

  lemma RecordsAreCopied(env: Env, crc: Bytes -> uint32, xmlOk: Bytes -> bool, e: Event, payload: Bytes)
    requires IsSelectEnv(env, crc, xmlOk) && HeadersFit(e.headers) && IsRecords(e)
    ensures env.handle(EncodeHeaders(e.headers), payload) == Consume(payload, |payload|)
  {
    EventEffect(env, crc, xmlOk, e, payload);
    MiddleEffect(xmlOk, FieldsIn(e), payload);
  }
}
