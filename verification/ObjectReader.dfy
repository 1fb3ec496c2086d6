/**
 The open object and its goroutine in the form the code has: two objects whose methods update
 their fields. Every method is proved to make the step that ObjectProtocol gives for it.
*/
module ObjectReader {
  import opened ObjectProtocol
  import ObjectRuns
  import opened Wrappers

  /** The goroutine. Its loop handles one request at a time; Handle is one round. */
  class Worker {
    var alive: bool
    var httpReader: Option<Body>
    var objectInfo: Info
    var fetched: nat
    var closed: nat

    constructor ()
      ensures Peer() == NEW.w
    {
      alive, httpReader, objectInfo, fetched, closed := true, None, NO_INFO, 0, 0;
    }

    function Peer(): Peer
      reads this
    {
      ObjectProtocol.Peer.Peer(alive, httpReader, objectInfo, fetched, closed)
    }

    method StatObject(first: bool, net: Net) returns (resp: Response)
      requires alive
      modifies this
      ensures (Peer(), resp) == ServeStat(old(Peer()), first, net)
    {
      match net.stat {
        case Err(e) =>
          resp := Response("", Some(e), false, NO_INFO);
          alive := false;
        case Ok(info) =>
          if first {
            objectInfo := info;
          }
          resp := Response("", None, false, info);
      }
    }

    /** getObject; false if it failed, which ends the goroutine. */
    method GetObject(net: Net) returns (error: Option<Error>)
      requires alive
      modifies this
      ensures match net.get
              case Err(e) => error == Some(e) && Peer() == old(Peer()).(alive := false, reader := None)
              case Ok((info, body)) =>
                && error == None
                && Peer() == old(Peer()).(reader := Some(body), info := info, fetched := old(fetched) + 1)
    {
      match net.get {
        case Err(e) =>
          error := Some(e);
          httpReader, alive := None, false;
        case Ok((info, body)) =>
          error := None;
          httpReader, objectInfo, fetched := Some(body), info, fetched + 1;
      }
    }

    method ReadBody(first: bool, n: nat) returns (resp: Response)
      requires alive && httpReader.Some?
      modifies this
      ensures (Peer(), resp) == ServeRead(old(Peer()), first, n, old(httpReader.value))
    {
      var (data, err, rest) := ReadFull(httpReader.value, n);
      httpReader := Some(rest);
      if err == Some(UnexpectedEOF) && (!first || data != "") {
        err := Some(EOF);
      }
      resp := Response(data, err, true, objectInfo);
    }

    method Handle(req: Request, net: Net) returns (resp: Response)
      requires alive && Serve(Peer(), req, net).Some?
      modifies this
      ensures Serve(old(Peer()), req, net) == Some((Peer(), resp))
    {
      if req.isFirstReq {
        if req.isReadOp {
          var error := GetObject(net);
          if error.Some? {
            return Response("", error, false, NO_INFO);
          }
          resp := ReadBody(true, req.n);
        } else {
          resp := StatObject(true, net);
        }
      } else if req.settingObjectInfo {
        resp := StatObject(false, net);
      } else {
        if req.didOffsetChange || !req.beenRead {
          if httpReader.Some? {
            closed := closed + 1;
          }
          var error := GetObject(net);
          if error.Some? {
            return Response("", error, false, NO_INFO);
          }
        }
        resp := ReadBody(false, req.n);
      }
    }

    /** The done channel was closed. */
    method Done()
      requires alive
      modifies this
      ensures Peer() == old(Peer()).(alive := false, closed := old(closed) + if old(httpReader).Some? then 1 else 0)
    {
      if httpReader.Some? {
        closed := closed + 1;
      }
      alive := false;
    }
  }

  lemma StepFacts(s: State, op: Op, net: Net)
    requires Safe(s)
    ensures Sends(s, op).Some? ==> s.w.alive && Serve(s.w, Sends(s, op).value, net).Some?
    ensures NetOk(net) ==> Safe(Step(s, op, net).0)
  {
    if Sends(s, op).Some? {
      RequestsAreAnswered(s, op, net);
    }
    if NetOk(net) {
      StepKeepsSafe(s, op, net);
    }
  }

  class Object {
    var currOffset: int
    var objectInfo: Info
    var seekData: bool
    var isClosed: bool
    var isStarted: bool
    var prevErr: Option<Error>
    var beenRead: bool
    var objectInfoSet: bool
    const worker: Worker

    constructor (worker: Worker)
      requires worker.Peer() == NEW.w
      ensures this.worker == worker && State() == NEW && Safe(State())
    {
      currOffset, objectInfo, seekData, isClosed := 0, NO_INFO, false, false;
      isStarted, prevErr, beenRead, objectInfoSet := false, None, false, false;
      this.worker := worker;
    }

    function Obj(): Obj
      reads this
    {
      ObjectProtocol.Obj.Obj(currOffset, objectInfo, seekData, isClosed, isStarted, prevErr, beenRead, objectInfoSet)
    }

    function State(): State
      reads this, worker
    {
      ObjectProtocol.State.State(Obj(), worker.Peer(), false)
    }

    method DoGetRequest(req: Request, net: Net) returns (resp: Response)
      requires worker.alive && Serve(worker.Peer(), req, net).Some?
      modifies this, worker
      ensures Exchange(old(State()), req, net) == (State(), Some(resp))
    {
      resp := worker.Handle(req, net);
      if resp.error.Some? {
        return;
      }
      isStarted := true;
      if !objectInfoSet && !req.isReadAt {
        objectInfo, objectInfoSet := resp.info, true;
      }
      if !beenRead {
        beenRead := resp.didRead;
      }
      seekData := false;
    }

    method SetOffset(bytesRead: nat) returns (err: Option<Error>)
      modifies this`currOffset
      ensures currOffset == old(currOffset) + bytesRead
      ensures err == if objectInfo.size > -1 && currOffset >= objectInfo.size then Some(EOF) else None
    {
      currOffset := currOffset + bytesRead;
      err := if objectInfo.size > -1 && currOffset >= objectInfo.size then Some(EOF) else None;
    }

    /** The end of Read and ReadAt: the new offset, and the error that reaching the end of the
        object saves. */
    method FinishRead(resp: Response) returns (err: Option<Error>)
      modifies this
      ensures (State(), Outcome(resp.data, NO_INFO, 0, err)) == Advance(old(State()), resp)
    {
      err := SetOffset(|resp.data|);
      if err.Some? {
        prevErr := err;
      } else {
        err := resp.error;
      }
    }

    method Read(n: nat, net: Net) returns (data: Bytes, err: Option<Error>)
      requires Safe(State())
      modifies this, worker
      ensures (State(), Outcome(data, NO_INFO, 0, err)) == Step(old(State()), ObjectProtocol.Read(n), net)
      ensures NetOk(net) ==> Safe(State())
    {
      StepFacts(State(), ObjectProtocol.Read(n), net);
      if prevErr.Some? || isClosed {
        return "", prevErr;
      }
      var resp := DoGetRequest(ReadRequest(Obj(), n), net);
      if Refuses(resp.error) {
        prevErr := resp.error;
        return resp.data, resp.error;
      }
      err := FinishRead(resp);
      return resp.data, err;
    }

    method Stat(net: Net) returns (info: Info, err: Option<Error>)
      requires Safe(State())
      modifies this, worker
      ensures (State(), Outcome("", info, 0, err)) == Step(old(State()), ObjectProtocol.Stat, net)
      ensures NetOk(net) ==> Safe(State())
    {
      StepFacts(State(), ObjectProtocol.Stat, net);
      if Refuses(prevErr) || isClosed {
        return NO_INFO, prevErr;
      }
      if !isStarted || !objectInfoSet {
        var resp := DoGetRequest(StatRequest(Obj()), net);
        if resp.error.Some? {
          prevErr := resp.error;
          return NO_INFO, resp.error;
        }
      }
      return objectInfo, None;
    }

    method ReadAt(n: nat, offset: int, net: Net) returns (data: Bytes, err: Option<Error>)
      requires Safe(State())
      modifies this, worker
      ensures (State(), Outcome(data, NO_INFO, 0, err)) == Step(old(State()), ObjectProtocol.ReadAt(n, offset), net)
      ensures NetOk(net) ==> Safe(State())
    {
      StepFacts(State(), ObjectProtocol.ReadAt(n, offset), net);
      if Refuses(prevErr) || isClosed {
        return "", prevErr;
      }
      currOffset := offset;
      if objectInfoSet {
        if (objectInfo.size > -1 && offset >= objectInfo.size) || offset < 0 {
          return "", Some(EOF);
        }
      }
      var resp := DoGetRequest(ReadAtRequest(Obj(), n), net);
      if Refuses(resp.error) {
        prevErr := resp.error;
        return resp.data, resp.error;
      }
      if !objectInfoSet {
        currOffset := currOffset + |resp.data|;
        return resp.data, resp.error;
      }
      err := FinishRead(resp);
      return resp.data, err;
    }

    /** The switch on whence, and what follows it. */
    method SeekTo(offset: int, whence: int) returns (target: int, err: Option<Error>)
      modifies this
      ensures (State(), Outcome("", NO_INFO, target, err)) == FinishSeek(old(State()), offset, whence)
    {
      match whence {
        case 0 =>
          if objectInfo.size > -1 && offset > objectInfo.size {
            return 0, Some(EOF);
          }
          currOffset := offset;
        case 1 =>
          if objectInfo.size > -1 && currOffset + offset > objectInfo.size {
            return 0, Some(EOF);
          }
          currOffset := currOffset + offset;
        case 2 =>
          if objectInfo.size < 0 {
            return 0, Some(InvalidArgument);
          }
          if offset > 0 {
            return 0, Some(EOF);
          }
          if objectInfo.size + offset < 0 {
            return 0, Some(InvalidArgument);
          }
          currOffset := objectInfo.size + offset;
        case _ =>
          return 0, Some(InvalidArgument);
      }
      if prevErr == Some(EOF) {
        prevErr := None;
      }
      seekData := true;
      return currOffset, None;
    }

    method Seek(offset: int, whence: int, net: Net) returns (target: int, err: Option<Error>)
      requires Safe(State())
      modifies this, worker
      ensures (State(), Outcome("", NO_INFO, target, err)) == Step(old(State()), ObjectProtocol.Seek(offset, whence), net)
      ensures NetOk(net) ==> Safe(State())
    {
      StepFacts(State(), ObjectProtocol.Seek(offset, whence), net);
      if Refuses(prevErr) {
        return 0, prevErr;
      }
      if offset < 0 && whence != 2 {
        return 0, Some(InvalidArgument);
      }
      if !isStarted || !objectInfoSet {
        var resp := DoGetRequest(SEEK_REQUEST, net);
        if resp.error.Some? {
          prevErr := resp.error;
          return 0, resp.error;
        }
      }
      target, err := SeekTo(offset, whence);
    }

    /** Close closes the done channel; the goroutine sees that at a time of its own. */
    method Close(net: Net) returns (err: Option<Error>)
      requires Safe(State())
      modifies this
      ensures (State(), Fails(err)) == Step(old(State()), ObjectProtocol.Close, net)
      ensures Safe(State())
    {
      if isClosed {
        return prevErr;
      }
      prevErr := Some(Closed);
      isClosed := true;
      return None;
    }

    /** The goroutine, at rest between two requests, sees whether the object was closed: then
        it exits, and no body that it held stays open. */
    method WorkerExit(net: Net)
      requires Safe(State())
      modifies worker
      ensures State() == Step(old(State()), ObjectProtocol.WorkerExit, net).0
      ensures Safe(State())
      ensures isClosed ==> !worker.alive
      ensures ObjectRuns.Leaked(worker.Peer()) == old(ObjectRuns.Leaked(worker.Peer()))
    {
      if worker.alive && isClosed {
        worker.Done();
      }
    }
  }
}
