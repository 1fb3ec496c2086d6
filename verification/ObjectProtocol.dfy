/**
 The protocol between an open object and the goroutine that serves it: one request, one
 response, on unbuffered channels that the goroutine closes when it exits. A send to an exited
 goroutine panics. What the network answers is an input of every step.
*/
module ObjectProtocol {
  import opened Wrappers

  type Bytes = string

  datatype Error = EOF | UnexpectedEOF | Closed | InvalidArgument | Other(code: string)

  /** The size is negative if the server does not tell it. */
  datatype Info = Info(size: int)

  const NO_INFO := Info(0)

  /** An open response body: what it still delivers, and the error it ends with. */
  datatype Body = Body(rest: Bytes, end: Error)

  /** What a stat and a fetch would answer now. */
  datatype Net = Net(stat: Result<Info, Error>, get: Result<(Info, Body), Error>)

  datatype Request = Request(n: nat, didOffsetChange: bool, beenRead: bool, isReadAt: bool,
                             isReadOp: bool, isFirstReq: bool, settingObjectInfo: bool)

  /** The bytes put into the request's buffer, and the rest of the answer. */
  datatype Response = Response(data: Bytes, error: Option<Error>, didRead: bool, info: Info)

  // ----- the goroutine -----

  /** The goroutine's variables; fetched and closed count the response bodies. */
  datatype Peer = Peer(alive: bool, reader: Option<Body>, info: Info, fetched: nat, closed: nat)

  /** io.ReadFull of n bytes. */
  function ReadFull(b: Body, n: nat): (Bytes, Option<Error>, Body) {
    if n <= |b.rest| then (b.rest[..n], None, b.(rest := b.rest[n..]))
    else (b.rest, Some(if b.rest != "" && b.end == EOF then UnexpectedEOF else b.end), b.(rest := ""))
  }

  function Exit(w: Peer, e: Error): (Peer, Response) {
    (w.(alive := false), Response("", Some(e), false, NO_INFO))
  }

  function ServeStat(w: Peer, first: bool, net: Net): (Peer, Response) {
    match net.stat
    case Err(e) => Exit(w, e)
    case Ok(info) => (if first then w.(info := info) else w, Response("", None, false, info))
  }

  /** A fetch whose body is then read; an UnexpectedEOF counts as EOF, in the first request
      only behind some data. */
  function ServeFetch(w: Peer, first: bool, n: nat, net: Net): (Peer, Response) {
    match net.get
    case Err(e) => Exit(w.(reader := None), e)
    case Ok((info, body)) => ServeRead(w.(info := info, fetched := w.fetched + 1), first, n, body)
  }

  function ServeRead(w: Peer, first: bool, n: nat, body: Body): (Peer, Response) {
    var (data, err, rest) := ReadFull(body, n);
    var error := if err == Some(UnexpectedEOF) && (!first || data != "") then Some(EOF) else err;
    (w.(reader := Some(rest)), Response(data, error, true, w.info))
  }

  /** One round of the loop; None is a read from a body that was never opened. */
  function Serve(w: Peer, req: Request, net: Net): Option<(Peer, Response)> {
    if req.isFirstReq then
      Some(if req.isReadOp then ServeFetch(w, true, req.n, net) else ServeStat(w, true, net))
    else if req.settingObjectInfo then Some(ServeStat(w, false, net))
    else if req.didOffsetChange || !req.beenRead then
      Some(ServeFetch(if w.reader.Some? then w.(closed := w.closed + 1) else w, false, req.n, net))
    else if w.reader.Some? then Some(ServeRead(w, false, req.n, w.reader.value))
    else None
  }

  // ----- the object -----

  datatype Obj = Obj(currOffset: int, info: Info, seekData: bool, isClosed: bool, isStarted: bool,
                     prevErr: Option<Error>, beenRead: bool, infoSet: bool)

  datatype State = State(o: Obj, w: Peer, panicked: bool)

  const NEW := State(Obj(0, NO_INFO, false, false, false, None, false, false),
                     Peer(true, None, NO_INFO, 0, 0), false)

  datatype Op = Read(n: nat) | ReadAt(n: nat, offset: int) | Stat | Seek(offset: int, whence: int) | Close
    | WorkerExit

  datatype Outcome = Outcome(data: Bytes, info: Info, offset: int, err: Option<Error>)

  function Fails(e: Option<Error>): Outcome {
    Outcome("", NO_INFO, 0, e)
  }

  /** doGetRequest behind the response. */
  function AfterResponse(o: Obj, req: Request, resp: Response): Obj {
    if resp.error.Some? then o
    else
      var o1 := o.(isStarted := true, beenRead := o.beenRead || resp.didRead, seekData := false);
      if !o.infoSet && !req.isReadAt then o1.(info := resp.info, infoSet := true) else o1
  }

  /** doGetRequest; without a response, it panicked. */
  function Exchange(s: State, req: Request, net: Net): (State, Option<Response>) {
    if !s.w.alive then (s.(panicked := true), None)
    else
      match Serve(s.w, req, net)
      case None => (s.(panicked := true), None)
      case Some((w, resp)) => (s.(o := AfterResponse(s.o, req, resp), w := w), Some(resp))
  }

  function Save(s: State, e: Error): State {
    s.(o := s.o.(prevErr := Some(e)))
  }

  /** setOffset with its error saved, and the result of the read it belongs to. */
  function Advance(s: State, resp: Response): (State, Outcome) {
    var o := s.o.(currOffset := s.o.currOffset + |resp.data|);
    if o.info.size > -1 && o.currOffset >= o.info.size then
      (Save(s.(o := o), EOF), Outcome(resp.data, NO_INFO, 0, Some(EOF)))
    else
      (s.(o := o), Outcome(resp.data, NO_INFO, 0, resp.error))
  }

  predicate Refuses(e: Option<Error>) {
    e.Some? && e != Some(EOF)
  }

  function ReadRequest(o: Obj, n: nat): Request {
    Request(n, o.seekData, o.beenRead, false, true, !o.isStarted, false)
  }

  function StepRead(s: State, n: nat, net: Net): (State, Outcome) {
    if s.o.prevErr.Some? || s.o.isClosed then (s, Fails(s.o.prevErr))
    else
      match Exchange(s, ReadRequest(s.o, n), net)
      case (s1, None) => (s1, Fails(None))
      case (s1, Some(resp)) =>
        if Refuses(resp.error) then (Save(s1, resp.error.value), Outcome(resp.data, NO_INFO, 0, resp.error))
        else Advance(s1, resp)
  }

  function StatRequest(o: Obj): Request {
    Request(0, false, false, false, false, !o.isStarted, !o.infoSet)
  }

  function StepStat(s: State, net: Net): (State, Outcome) {
    if Refuses(s.o.prevErr) || s.o.isClosed then (s, Fails(s.o.prevErr))
    else if s.o.isStarted && s.o.infoSet then (s, Outcome("", s.o.info, 0, None))
    else
      match Exchange(s, StatRequest(s.o), net)
      case (s1, None) => (s1, Fails(None))
      case (s1, Some(resp)) =>
        if resp.error.Some? then (Save(s1, resp.error.value), Fails(resp.error))
        else (s1, Outcome("", s1.o.info, 0, None))
  }

  function ReadAtRequest(o: Obj, n: nat): Request {
    Request(n, true, o.beenRead, true, true, !o.isStarted, false)
  }

  predicate OutOfRange(o: Obj, offset: int) {
    o.infoSet && ((o.info.size > -1 && offset >= o.info.size) || offset < 0)
  }

  function StepReadAt(s: State, n: nat, offset: int, net: Net): (State, Outcome) {
    if Refuses(s.o.prevErr) || s.o.isClosed then (s, Fails(s.o.prevErr))
    else
      var s0 := s.(o := s.o.(currOffset := offset));
      if OutOfRange(s0.o, offset) then (s0, Fails(Some(EOF)))
      else
        match Exchange(s0, ReadAtRequest(s0.o, n), net)
        case (s1, None) => (s1, Fails(None))
        case (s1, Some(resp)) =>
          if Refuses(resp.error) then (Save(s1, resp.error.value), Outcome(resp.data, NO_INFO, 0, resp.error))
          else if !s1.o.infoSet then
            (s1.(o := s1.o.(currOffset := s1.o.currOffset + |resp.data|)), Outcome(resp.data, NO_INFO, 0, resp.error))
          else Advance(s1, resp)
  }

  const SEEK_REQUEST := Request(0, false, false, false, false, true, false)

  /** Where a seek goes, or why it does not. */
  function Target(o: Obj, offset: int, whence: int): Result<int, Error> {
    match whence
    case 0 => if o.info.size > -1 && offset > o.info.size then Err(EOF) else Ok(offset)
    case 1 => if o.info.size > -1 && o.currOffset + offset > o.info.size then Err(EOF) else Ok(o.currOffset + offset)
    case 2 =>
      if o.info.size < 0 then Err(InvalidArgument)
      else if offset > 0 then Err(EOF)
      else if o.info.size + offset < 0 then Err(InvalidArgument)
      else Ok(o.info.size + offset)
    case _ => Err(InvalidArgument)
  }

  function FinishSeek(s: State, offset: int, whence: int): (State, Outcome) {
    match Target(s.o, offset, whence)
    case Err(e) => (s, Fails(Some(e)))
    case Ok(target) =>
      var o := s.o.(currOffset := target, seekData := true,
                    prevErr := if s.o.prevErr == Some(EOF) then None else s.o.prevErr);
      (s.(o := o), Outcome("", NO_INFO, target, None))
  }

  function StepSeek(s: State, offset: int, whence: int, net: Net): (State, Outcome) {
    if Refuses(s.o.prevErr) then (s, Fails(s.o.prevErr))
    else if offset < 0 && whence != 2 then (s, Fails(Some(InvalidArgument)))
    else if s.o.isStarted && s.o.infoSet then FinishSeek(s, offset, whence)
    else
      match Exchange(s, SEEK_REQUEST, net)
      case (s1, None) => (s1, Fails(None))
      case (s1, Some(resp)) =>
        if resp.error.Some? then (Save(s1, resp.error.value), Fails(resp.error))
        else FinishSeek(s1, offset, whence)
  }

  function StepClose(s: State): (State, Outcome) {
    if s.o.isClosed then (s, Fails(s.o.prevErr))
    else (s.(o := s.o.(isClosed := true, prevErr := Some(Closed))), Fails(None))
  }

  /** The goroutine sees that the object was closed. */
  function StepExit(s: State): State {
    if s.w.alive && s.o.isClosed then
      s.(w := s.w.(alive := false, closed := if s.w.reader.Some? then s.w.closed + 1 else s.w.closed))
    else s
  }

  /** One call on the object, or the exit of the goroutine. Behind a panic nothing happens. */
  function Step(s: State, op: Op, net: Net): (State, Outcome) {
    if s.panicked then (s, Fails(None))
    else
      match op
      case Read(n) => StepRead(s, n, net)
      case ReadAt(n, offset) => StepReadAt(s, n, offset, net)
      case Stat => StepStat(s, net)
      case Seek(offset, whence) => StepSeek(s, offset, whence, net)
      case Close => StepClose(s)
      case WorkerExit => (StepExit(s), Fails(None))
  }

  function Run(s: State, ops: seq<(Op, Net)>): State
    decreases |ops|
  {
    if ops == [] then s else Run(Step(s, ops[0].0, ops[0].1).0, ops[1..])
  }

  // ----- safety -----

  /** The network does not fail with io.EOF. */
  predicate NetOk(net: Net) {
    && (net.stat.Err? ==> net.stat.error != EOF)
    && (net.get.Err? ==> net.get.error != EOF)
  }

  /** An exited goroutine has left an error that sticks; a live one that was read from has an
      open body. */
  predicate Safe(s: State) {
    && !s.panicked
    && (!s.w.alive ==> Refuses(s.o.prevErr))
    && (s.w.alive && s.o.beenRead ==> s.w.reader.Some?)
    && (s.o.isClosed ==> s.o.prevErr == Some(Closed))
  }

  /** The request, if this call sends one. */
  function Sends(s: State, op: Op): Option<Request> {
    match op
    case Read(n) => if s.o.prevErr.Some? || s.o.isClosed then None else Some(ReadRequest(s.o, n))
    case ReadAt(n, offset) =>
      if Refuses(s.o.prevErr) || s.o.isClosed || OutOfRange(s.o, offset) then None
      else Some(ReadAtRequest(s.o, n))
    case Stat =>
      if Refuses(s.o.prevErr) || s.o.isClosed || (s.o.isStarted && s.o.infoSet) then None
      else Some(StatRequest(s.o))
    case Seek(offset, whence) =>
      if Refuses(s.o.prevErr) || (offset < 0 && whence != 2) || (s.o.isStarted && s.o.infoSet) then None
      else Some(SEEK_REQUEST)
    case _ => None
  }

  /** In a safe state, every request goes to a live goroutine and is answered once. */
  lemma RequestsAreAnswered(s: State, op: Op, net: Net)
    requires Safe(s) && Sends(s, op).Some?
    ensures s.w.alive && Serve(s.w, Sends(s, op).value, net).Some?
  {
  }

  /** What a request leaves, in a safe state: an answer, and if the goroutine exited, an error
      that the object will save. */
  lemma ExchangeIsAnswered(s: State, req: Request, net: Net)
    requires Safe(s) && s.w.alive && NetOk(net) && Serve(s.w, req, net).Some?
    ensures var (s1, r) := Exchange(s, req, net);
            && r.Some? && !s1.panicked && s1.o.prevErr == s.o.prevErr && s1.o.isClosed == s.o.isClosed
            && (!s1.w.alive ==> Refuses(r.value.error))
            && (s1.w.alive && s1.o.beenRead ==> s1.w.reader.Some?)
  {
  }

  lemma ReadKeepsSafe(s: State, n: nat, net: Net)
    requires Safe(s) && NetOk(net)
    ensures Safe(StepRead(s, n, net).0)
  {
    if Sends(s, Read(n)).Some? {
      RequestsAreAnswered(s, Read(n), net);
      ExchangeIsAnswered(s, ReadRequest(s.o, n), net);
    }
  }

  lemma ReadAtKeepsSafe(s: State, n: nat, offset: int, net: Net)
    requires Safe(s) && NetOk(net)
    ensures Safe(StepReadAt(s, n, offset, net).0)
  {
    if Sends(s, ReadAt(n, offset)).Some? {
      RequestsAreAnswered(s, ReadAt(n, offset), net);
      ExchangeIsAnswered(s.(o := s.o.(currOffset := offset)), ReadAtRequest(s.o, n), net);
    }
  }

  lemma StatKeepsSafe(s: State, net: Net)
    requires Safe(s) && NetOk(net)
    ensures Safe(StepStat(s, net).0)
  {
    if Sends(s, Stat).Some? {
      RequestsAreAnswered(s, Stat, net);
      ExchangeIsAnswered(s, StatRequest(s.o), net);
    }
  }

  lemma SeekKeepsSafe(s: State, offset: int, whence: int, net: Net)
    requires Safe(s) && NetOk(net)
    ensures Safe(StepSeek(s, offset, whence, net).0)
  {
    if Sends(s, Seek(offset, whence)).Some? {
      RequestsAreAnswered(s, Seek(offset, whence), net);
      ExchangeIsAnswered(s, SEEK_REQUEST, net);
    }
  }

  lemma StepKeepsSafe(s: State, op: Op, net: Net)
    requires Safe(s) && NetOk(net)
    ensures Safe(Step(s, op, net).0)
  {
    match op
    case Read(n) => ReadKeepsSafe(s, n, net);
    case ReadAt(n, offset) => ReadAtKeepsSafe(s, n, offset, net);
    case Stat => StatKeepsSafe(s, net);
    case Seek(offset, whence) => SeekKeepsSafe(s, offset, whence, net);
    case Close =>
    case WorkerExit =>
  }

  /** In no run does a call panic, and in every state that a run reaches, every request is
      answered. */
  lemma {:induction false} RunIsSafe(s: State, ops: seq<(Op, Net)>)
    requires Safe(s) && forall i :: 0 <= i < |ops| ==> NetOk(ops[i].1)
    ensures Safe(Run(s, ops))
    decreases |ops|
  {
    if ops != [] {
      StepKeepsSafe(s, ops[0].0, ops[0].1);
      RunIsSafe(Step(s, ops[0].0, ops[0].1).0, ops[1..]);
    }
  }

  /** From the opening of the object on, whatever is called: no request meets an exited
      goroutine or a missing body. */
  lemma NeverPanics(ops: seq<(Op, Net)>, op: Op, net: Net)
    requires forall i :: 0 <= i < |ops| ==> NetOk(ops[i].1)
    ensures var s := Run(NEW, ops);
            !s.panicked && (Sends(s, op).Some? ==> s.w.alive && Serve(s.w, Sends(s, op).value, net).Some?)
  {
    RunIsSafe(NEW, ops);
    if Sends(Run(NEW, ops), op).Some? {
      RequestsAreAnswered(Run(NEW, ops), op, net);
    }
  }
}
