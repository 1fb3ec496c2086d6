/**
 An S3 Select response as a server sends it, header by header, and what its caller gets: every
 event that the decoder knows, and every way in which a message ends the response.
*/
module SelectReplies {
  import opened SelectDecoder
  import opened SelectEvents
  import opened SelectFraming
  import opened SelectHeaders
  import opened SelectNames
  import opened Wrappers

  // ----- one header -----

  /** Each field of an event is the value of the header of its name, wherever that stands, if
      none of the same name follows. */
  lemma FieldsByHeader(hs: seq<Header>, v: string, tail: seq<Header>, payload: Bytes)
    ensures Lacks(tail, ":message-type") ==>
      FieldsIn(Event(hs + [Header(":message-type", v)] + tail, payload)).messageType == v
    ensures Lacks(tail, ":event-type") ==>
      FieldsIn(Event(hs + [Header(":event-type", v)] + tail, payload)).eventType == v
    ensures Lacks(tail, ":content-type") ==>
      FieldsIn(Event(hs + [Header(":content-type", v)] + tail, payload)).contentType == v
    ensures Lacks(tail, ":error-code") ==>
      FieldsIn(Event(hs + [Header(":error-code", v)] + tail, payload)).errorCode == v
    ensures Lacks(tail, ":error-message") ==>
      FieldsIn(Event(hs + [Header(":error-message", v)] + tail, payload)).errorMessage == v
  {
    FieldByHeader(":message-type", hs, v, tail);
    FieldByHeader(":event-type", hs, v, tail);
    FieldByHeader(":content-type", hs, v, tail);
    FieldByHeader(":error-code", hs, v, tail);
    FieldByHeader(":error-message", hs, v, tail);
  }

  lemma FieldByHeader(name: string, hs: seq<Header>, v: string, tail: seq<Header>)
    ensures Lacks(tail, name) ==> ValueOf(hs + [Header(name, v)] + tail, name) == v
  {
    if Lacks(tail, name) {
      NamedCounts(hs, name, v, tail);
    }
  }

  // ----- messages that end a response -----

  /** How a response ends in a message that the decoder stops at. */
  function StopsWith(xmlOk: Bytes -> bool, e: Event): Option<Closing> {
    var messageType, eventType := ValueOf(e.headers, ":message-type"), ValueOf(e.headers, ":event-type");
    var contentType := ValueOf(e.headers, ":content-type");
    if messageType == "error" then
      Some(Broken(Server(ValueOf(e.headers, ":error-code"), ValueOf(e.headers, ":error-message"))))
    else if messageType == "event" && eventType == "End" then Some(Clean)
    else if messageType == "event" && (eventType == "Progress" || eventType == "Stats") then
      if contentType != "text/xml" then Some(Broken(UnexpectedContentType(contentType)))
      else if !xmlOk(e.payload) then Some(Broken(BadXml))
      else None
    else None
  }

  lemma StopEffect(xmlOk: Bytes -> bool, e: Event)
    requires StopsWith(xmlOk, e).Some?
    ensures HandleMessage(xmlOk, FieldsIn(e), e.payload) == Halt(StopsWith(xmlOk, e).value)
  {
  }

  /** Behind any well-formed events, such a message ends the response, whatever follows: the
      caller has the records before it, and the closing that its headers say. */
  lemma StopsBehindRecords(env: Env, crc: Bytes -> uint32, xmlOk: Bytes -> bool, es: seq<Event>, e: Event, junk: Bytes)
    requires IsSelectEnv(env, crc, xmlOk) && AllWellFormed(xmlOk, es)
    requires EventFits(e) && StopsWith(xmlOk, e).Some?
    ensures DecodeAll(env, "", Stream(env, xmlOk, es) + (Frame(env, MessageOf(e)) + junk))
         == (RecordsOf(es), StopsWith(xmlOk, e).value)
  {
    StopEffect(xmlOk, e);
    HaltBehindRecords(env, crc, xmlOk, es, e, junk, StopsWith(xmlOk, e).value);
  }

  lemma HaltBehindRecords(env: Env, crc: Bytes -> uint32, xmlOk: Bytes -> bool, es: seq<Event>, e: Event, junk: Bytes,
                          closing: Closing)
    requires IsSelectEnv(env, crc, xmlOk) && AllWellFormed(xmlOk, es) && EventFits(e)
    requires HandleMessage(xmlOk, FieldsIn(e), e.payload) == Halt(closing)
    ensures DecodeAll(env, "", Stream(env, xmlOk, es) + (Frame(env, MessageOf(e)) + junk)) == (RecordsOf(es), closing)
  {
    RecordsComeFirst(env, crc, xmlOk, es, Frame(env, MessageOf(e)) + junk);
    EventEffect(env, crc, xmlOk, e, e.payload);
    DecodeFrame(env, MessageOf(e), junk);
    assert RecordsOf(es) + "" == RecordsOf(es);
  }

  // ----- a response on the wire -----

  datatype Reply =
    | Records(contentType: string, content: Bytes)
    | Progress(xml: Bytes)
    | Stats(xml: Bytes)
    | Continuation

  function EventHeaders(eventType: string, contentType: string): seq<Header> {
    [Header(":message-type", "event"), Header(":event-type", eventType), Header(":content-type", contentType)]
  }

  function BareHeaders(eventType: string): seq<Header> {
    [Header(":message-type", "event"), Header(":event-type", eventType)]
  }

  lemma BareEventValues(eventType: string)
    ensures var hs := BareHeaders(eventType);
            ValueOf(hs, ":message-type") == "event" && ValueOf(hs, ":event-type") == eventType
  {
    DifferInLength(":event-type", ":message-type");
    TwoHeaders(":message-type", "event", ":event-type", eventType);
  }

  function OnWire(r: Reply): Event {
    match r
    case Records(contentType, content) => Event(EventHeaders("Records", contentType), content)
    case Progress(xml) => Event(EventHeaders("Progress", "text/xml"), xml)
    case Stats(xml) => Event(EventHeaders("Stats", "text/xml"), xml)
    case Continuation => Event(BareHeaders("Cont"), "")
  }

  function AllOnWire(rs: seq<Reply>): (es: seq<Event>)
    ensures |es| == |rs| && forall i :: 0 <= i < |rs| ==> es[i] == OnWire(rs[i])
  {
    if rs == [] then [] else [OnWire(rs[0])] + AllOnWire(rs[1..])
  }

  /** The content that a caller asked for. */
  function Contents(rs: seq<Reply>): Bytes {
    if rs == [] then "" else (if rs[0].Records? then rs[0].content else "") + Contents(rs[1..])
  }

  predicate Sendable(xmlOk: Bytes -> bool, r: Reply) {
    EventFits(OnWire(r)) && ((r.Progress? || r.Stats?) ==> xmlOk(r.xml))
  }

  lemma EventHeaderValues(eventType: string, contentType: string)
    ensures var hs := EventHeaders(eventType, contentType);
            && ValueOf(hs, ":message-type") == "event"
            && ValueOf(hs, ":event-type") == eventType
            && ValueOf(hs, ":content-type") == contentType
  {
    DifferInLength(":event-type", ":message-type");
    DifferAt(":content-type", ":message-type", 1);
    DifferInLength(":content-type", ":event-type");
    ThreeHeaders(":message-type", "event", ":event-type", eventType, ":content-type", contentType);
  }

  lemma ReplyFields(r: Reply)
    ensures var f := FieldsIn(OnWire(r));
            match r
            case Records(contentType, _) =>
              f.messageType == "event" && f.eventType == "Records" && f.contentType == contentType
            case Progress(_) => f.messageType == "event" && f.eventType == "Progress" && f.contentType == "text/xml"
            case Stats(_) => f.messageType == "event" && f.eventType == "Stats" && f.contentType == "text/xml"
            case Continuation => f.messageType == "event" && f.eventType == "Cont"
  {
    match r
    case Records(contentType, _) => EventHeaderValues("Records", contentType);
    case Progress(_) => EventHeaderValues("Progress", "text/xml");
    case Stats(_) => EventHeaderValues("Stats", "text/xml");
    case Continuation => BareEventValues("Cont");
  }

  lemma ReplyIsWellFormed(xmlOk: Bytes -> bool, r: Reply)
    requires Sendable(xmlOk, r)
    ensures WellFormed(xmlOk, OnWire(r))
    ensures IsRecords(OnWire(r)) <==> r.Records?
  {
    ReplyFields(r);
  }

  lemma {:induction false} RecordsAreContents(xmlOk: Bytes -> bool, rs: seq<Reply>)
    requires forall i :: 0 <= i < |rs| ==> Sendable(xmlOk, rs[i])
    ensures AllWellFormed(xmlOk, AllOnWire(rs)) && RecordsOf(AllOnWire(rs)) == Contents(rs)
  {
    forall i | 0 <= i < |rs|
      ensures WellFormed(xmlOk, AllOnWire(rs)[i])
    {
      ReplyIsWellFormed(xmlOk, rs[i]);
    }
    if rs != [] {
      ReplyIsWellFormed(xmlOk, rs[0]);
      RecordsAreContents(xmlOk, rs[1..]);
      assert AllOnWire(rs)[1..] == AllOnWire(rs[1..]);
    }
  }

  function EndEvent(): Event {
    Event(BareHeaders("End"), "")
  }

  function ErrorHeaders(code: string, message: string): seq<Header> {
    [Header(":error-code", code), Header(":error-message", message), Header(":message-type", "error")]
  }

  function ErrorMessage(code: string, message: string): Event {
    Event(ErrorHeaders(code, message), "")
  }

  lemma BareHeadersFit(eventType: string)
    requires 0 < |eventType| < 0x100
    ensures EventFits(Event(BareHeaders(eventType), ""))
  {
    var hs := BareHeaders(eventType);
    assert hs[1..] == [hs[1]] && hs[1..][1..] == [];
    assert EncodeHeaders(hs[1..]) == EncodeHeader(hs[1]) + EncodeHeaders([]);
    assert EncodeHeaders(hs) == EncodeHeader(hs[0]) + (EncodeHeader(hs[1]) + EncodeHeaders([]));
  }

  lemma EndStops(xmlOk: Bytes -> bool)
    ensures EventFits(EndEvent()) && StopsWith(xmlOk, EndEvent()) == Some(Clean)
  {
    BareHeadersFit("End");
    BareEventValues("End");
  }

  lemma ErrorHeaderValues(code: string, message: string)
    ensures var hs := ErrorHeaders(code, message);
            && ValueOf(hs, ":message-type") == "error"
            && ValueOf(hs, ":error-code") == code
            && ValueOf(hs, ":error-message") == message
  {
    DifferInLength(":error-message", ":error-code");
    DifferInLength(":message-type", ":error-code");
    DifferInLength(":message-type", ":error-message");
    ThreeHeaders(":error-code", code, ":error-message", message, ":message-type", "error");
  }

  lemma ErrorStops(xmlOk: Bytes -> bool, code: string, message: string)
    ensures StopsWith(xmlOk, ErrorMessage(code, message)) == Some(Broken(Server(code, message)))
  {
    ErrorHeaderValues(code, message);
  }

  /** A whole response: the caller gets the content of all records in order, and a clean end. */
  lemma ResponseComesOut(env: Env, crc: Bytes -> uint32, xmlOk: Bytes -> bool, rs: seq<Reply>, junk: Bytes)
    requires IsSelectEnv(env, crc, xmlOk) && forall i :: 0 <= i < |rs| ==> Sendable(xmlOk, rs[i])
    ensures AllWellFormed(xmlOk, AllOnWire(rs)) && EventFits(EndEvent())
    ensures DecodeAll(env, "", Stream(env, xmlOk, AllOnWire(rs)) + (Frame(env, MessageOf(EndEvent())) + junk))
         == (Contents(rs), Clean)
  {
    RecordsAreContents(xmlOk, rs);
    EndStops(xmlOk);
    StopsBehindRecords(env, crc, xmlOk, AllOnWire(rs), EndEvent(), junk);
  }

  /** A response that the server breaks off: the content so far, and the server's error. */
  lemma ServerErrorComesOut(env: Env, crc: Bytes -> uint32, xmlOk: Bytes -> bool, rs: seq<Reply>,
                            code: string, message: string, junk: Bytes)
    requires IsSelectEnv(env, crc, xmlOk) && forall i :: 0 <= i < |rs| ==> Sendable(xmlOk, rs[i])
    requires EventFits(ErrorMessage(code, message))
    ensures AllWellFormed(xmlOk, AllOnWire(rs))
    ensures DecodeAll(env, "", Stream(env, xmlOk, AllOnWire(rs)) + (Frame(env, MessageOf(ErrorMessage(code, message))) + junk))
         == (Contents(rs), Broken(Server(code, message)))
  {
    RecordsAreContents(xmlOk, rs);
    ErrorStops(xmlOk, code, message);
    StopsBehindRecords(env, crc, xmlOk, AllOnWire(rs), ErrorMessage(code, message), junk);
  }
}
