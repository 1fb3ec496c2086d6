/**
 Runs of calls on an open object: what reading delivers, which failures would make a later call
 panic, and when a response body is never closed.
*/
module ObjectRuns {
  import opened ObjectProtocol
  import opened Wrappers

  // ----- reading -----

  /** Reads from the beginning, with the bytes they delivered in all. */
  function Reads(rs: seq<(nat, Net)>): (State, Bytes)
    decreases |rs|
  {
    if rs == [] then (NEW, "")
    else
      var (s, delivered) := Reads(rs[..|rs| - 1]);
      var (n, net) := rs[|rs| - 1];
      var (s1, out) := StepRead(s, n, net);
      (s1, delivered + out.data)
  }

  /** The answers come from one object: a fetched body holds its content, or breaks off. */
  predicate Serves(net: Net, content: Bytes) {
    net.get.Ok? ==> net.get.value.1.rest <= content
  }

  /** The error of reading n bytes from the rest of a body that ends so: an end is EOF, also an
      unexpected one, unless that is the first answer of all and there are no bytes before it. */
  function BodyError(first: bool, n: nat, body: Body): Option<Error> {
    if n <= |body.rest| then None
    else if body.end == UnexpectedEOF && first && body.rest == "" then Some(UnexpectedEOF)
    else if body.end == UnexpectedEOF then Some(EOF)
    else Some(body.end)
  }

  /** Where a read that sends a request reads from: the open body, or a new one if nothing was
      read yet or a seek came before it. After it, reads go on in that body. */
  lemma ReadReadsOn(s: State, n: nat, net: Net)
    requires Safe(s) && Sends(s, Read(n)).Some?
    requires !s.o.isStarted || s.o.seekData || !s.o.beenRead ==> net.get.Ok?
    ensures var (s1, out) := StepRead(s, n, net);
            var fetches := !s.o.isStarted || s.o.seekData || !s.o.beenRead;
            var body := if fetches then net.get.value.1 else s.w.reader.value;
            var taken := if n <= |body.rest| then n else |body.rest|;
            && s1.w.fetched == s.w.fetched + (if fetches then 1 else 0)
            && s1.w.reader == Some(body.(rest := body.rest[taken..]))
            && out.data == body.rest[..taken]
            && (out.err == BodyError(!s.o.isStarted, n, body) || (out.err == Some(EOF) && s1.o.prevErr == Some(EOF)))
            && (out.err == None ==>
                  s1.o.isStarted && s1.o.beenRead && s1.o.infoSet && !s1.o.seekData && s1.o.prevErr == None)
  {
    RequestsAreAnswered(s, Read(n), net);
    var body := if !s.o.isStarted || s.o.seekData || !s.o.beenRead then net.get.value.1 else s.w.reader.value;
    assert body.rest[..|body.rest|] == body.rest && body.rest[|body.rest|..] == "";
  }

  predicate ReadState(s: State, delivered: Bytes, content: Bytes) {
    && delivered <= content
    && !s.panicked
    && s.w.fetched <= 1
    && (!Refuses(s.o.prevErr) ==> s.o.currOffset == |delivered|)
    && (s.o.prevErr == None ==>
          if s.o.isStarted then
            && s.w.alive && s.w.reader.Some? && delivered + s.w.reader.value.rest <= content
            && s.o.beenRead && s.o.infoSet && !s.o.seekData && !s.o.isClosed
          else s == NEW && delivered == "")
  }

  lemma TakesPrefix(delivered: Bytes, rest: Bytes, n: nat, content: Bytes)
    requires delivered + rest <= content
    ensures n <= |rest| ==> delivered + rest[..n] <= content && (delivered + rest[..n]) + rest[n..] <= content
    ensures delivered + rest <= content && (delivered + rest) + "" <= content
  {
    if n <= |rest| {
      assert (delivered + rest[..n]) + rest[n..] == delivered + rest;
      assert delivered + rest[..n] == (delivered + rest)[..|delivered| + n];
    }
  }

  lemma ReadKeepsState(s: State, delivered: Bytes, n: nat, net: Net, content: Bytes)
    requires ReadState(s, delivered, content) && Serves(net, content)
    ensures var (s1, out) := StepRead(s, n, net); ReadState(s1, delivered + out.data, content)
  {
    assert delivered + "" == delivered;
    if s.o.prevErr == None {
      if s.o.isStarted {
        TakesPrefix(delivered, s.w.reader.value.rest, n, content);
      } else if net.get.Ok? {
        assert "" + net.get.value.1.rest == net.get.value.1.rest;
        TakesPrefix("", net.get.value.1.rest, n, content);
      }
    }
  }

  /** With reads only, whatever their sizes and however the network fails, the delivered bytes
      are a prefix of the object, of length currOffset until an error other than EOF sticks; at
      most one body is fetched. */
  lemma {:induction false} ReadsDeliverPrefix(rs: seq<(nat, Net)>, content: Bytes)
    requires forall i :: 0 <= i < |rs| ==> Serves(rs[i].1, content)
    ensures ReadState(Reads(rs).0, Reads(rs).1, content)
    decreases |rs|
  {
    if rs != [] {
      var k := |rs| - 1;
      ReadsDeliverPrefix(rs[..k], content);
      ReadKeepsState(Reads(rs[..k]).0, Reads(rs[..k]).1, rs[k].0, rs[k].1, content);
    }
  }

  /** The answer to a fetch of the whole object. */
  predicate ServesWhole(net: Net, content: Bytes) {
    net.get == Ok((Info(|content|), Body(content, EOF)))
  }

  predicate WholeState(s: State, delivered: Bytes, content: Bytes) {
    && ReadState(s, delivered, content)
    && (s.o.prevErr == None || (s.o.prevErr == Some(EOF) && delivered == content))
    && (s.o.prevErr == None && s.o.isStarted ==>
          && s.o.info == Info(|content|) && delivered != content
          && s.w.reader == Some(Body(content[|delivered|..], EOF)))
  }

  /** A read of n bytes, in the middle of an object that is served whole: the next n bytes, or
      what is left, and EOF with the last byte. */
  lemma WholeRead(s: State, delivered: Bytes, n: nat, net: Net, content: Bytes)
    requires WholeState(s, delivered, content) && ServesWhole(net, content)
    ensures var (s1, out) := StepRead(s, n, net);
            var next := |delivered| + n;
            && WholeState(s1, delivered + out.data, content)
            && out.data == content[|delivered|..if next <= |content| then next else |content|]
            && out.err == if delivered + out.data == content then Some(EOF) else None
  {
    ReadKeepsState(s, delivered, n, net, content);
    assert delivered == content[..|delivered|] && content[0..] == content;
    assert delivered + content[|delivered|..] == content;
    assert delivered + "" == delivered;
    if |delivered| + n <= |content| {
      assert content[|delivered|..][..n] == content[|delivered|..|delivered| + n];
      assert delivered + content[|delivered|..|delivered| + n] == content[..|delivered| + n];
      assert content[|delivered|..][n..] == content[|delivered| + n..];
    }
  }

  function Sum(rs: seq<(nat, Net)>): nat
    decreases |rs|
  {
    if rs == [] then 0 else Sum(rs[..|rs| - 1]) + rs[|rs| - 1].0
  }

  /** Reads of an object that is served whole deliver it from the beginning, as far as they
      ask for it, and nothing twice. */
  lemma {:induction false} ReadsDeliverWhole(rs: seq<(nat, Net)>, content: Bytes)
    requires forall i :: 0 <= i < |rs| ==> ServesWhole(rs[i].1, content)
    ensures WholeState(Reads(rs).0, Reads(rs).1, content)
    ensures Reads(rs).1 == content[..if Sum(rs) <= |content| then Sum(rs) else |content|]
    decreases |rs|
  {
    if rs != [] {
      var k := |rs| - 1;
      ReadsDeliverWhole(rs[..k], content);
      var (s, delivered) := Reads(rs[..k]);
      WholeRead(s, delivered, rs[k].0, rs[k].1, content);
      var next := |delivered| + rs[k].0;
      var end := if next <= |content| then next else |content|;
      assert content[..|delivered|] + content[|delivered|..end] == content[..end];
    }
  }

  // ----- the end of the object -----

  /** A read saves EOF exactly if it brings the position to the end of an object whose size is
      known by then. */
  lemma ReadEndsIff(s: State, n: nat, net: Net)
    requires Safe(s) && Sends(s, Read(n)).Some?
    ensures var (s1, out) := StepRead(s, n, net);
            && (s1.o.prevErr == Some(EOF) <==> !Refuses(out.err) && 0 <= s1.o.info.size <= s1.o.currOffset)
            && (s1.o.prevErr == Some(EOF) ==> out.err == Some(EOF))
            && s1.o.currOffset == s.o.currOffset + if Refuses(out.err) then 0 else |out.data|
  {
    RequestsAreAnswered(s, Read(n), net);
  }

  /** A saved EOF is cleared by a seek that succeeds, and by nothing else. */
  lemma OnlySeekClearsEnd(s: State, op: Op, net: Net)
    requires Safe(s) && s.o.prevErr.Some?
    ensures var (s1, out) := Step(s, op, net);
            s1.o.prevErr == None <==> op.Seek? && out.err == None && s.o.prevErr == Some(EOF)
  {
    if Sends(s, op).Some? {
      RequestsAreAnswered(s, op, net);
    }
  }

  predicate SeekSucceeds(s: State, op: Op, net: Net) {
    op.Seek? && Step(s, op, net).1.err == None
  }

  predicate SomeSeekSucceeds(s: State, ops: seq<(Op, Net)>)
    decreases |ops|
  {
    ops != [] &&
    (SeekSucceeds(s, ops[0].0, ops[0].1) || SomeSeekSucceeds(Step(s, ops[0].0, ops[0].1).0, ops[1..]))
  }

  /** Behind the end of the object, until a seek succeeds, reads deliver nothing and send
      nothing, whatever else is called. */
  lemma {:induction false} EndSticks(s: State, ops: seq<(Op, Net)>, n: nat, net: Net)
    requires Safe(s) && s.o.prevErr.Some? && !SomeSeekSucceeds(s, ops)
    requires forall i :: 0 <= i < |ops| ==> NetOk(ops[i].1)
    ensures var s1 := Run(s, ops);
            && s1.o.prevErr.Some? && Sends(s1, Read(n)) == None
            && Step(s1, Read(n), net) == (s1, Fails(s1.o.prevErr))
    decreases |ops|
  {
    if ops != [] {
      var (op, answers) := ops[0];
      assert NetOk(answers);
      OnlySeekClearsEnd(s, op, answers);
      StepKeepsSafe(s, op, answers);
      EndSticks(Step(s, op, answers).0, ops[1..], n, net);
    }
  }

  // ----- the other calls -----

  /** The position that a seek is relative to. */
  function Base(o: Obj, whence: int): int {
    if whence == 1 then o.currOffset else if whence == 2 then o.info.size else 0
  }

  /** On an object of known size a seek succeeds exactly if it leads into the object, forward
      unless from the end; only relative to a negative position, which a ReadAt can leave, may
      it end at one. The next read then starts there, with a fetch of its own, also if the end
      of the content was reached before. */
  lemma SeekSucceedsIff(s: State, offset: int, whence: int, net: Net)
    requires Safe(s) && s.o.isStarted && s.o.infoSet && s.o.info.size >= 0
    requires !Refuses(s.o.prevErr)
    ensures var (s1, out) := StepSeek(s, offset, whence, net);
            var target := Base(s.o, whence) + offset;
            && (out.err == None <==>
                  0 <= whence <= 2 && (whence != 2 ==> offset >= 0)
                  && (0 <= target || (whence == 1 && s.o.currOffset < 0)) && target <= s.o.info.size)
            && (out.err == Some(EOF) <==> 0 <= whence <= 2 && (whence != 2 ==> offset >= 0) && target > s.o.info.size)
            && (out.err != None && out.err != Some(EOF) ==> out.err == Some(InvalidArgument))
            && (out.err == None ==>
                  && out.offset == s1.o.currOffset == target
                  && Sends(s1, Read(1)).Some? && Sends(s1, Read(1)).value.didOffsetChange)
            && (out.err != None ==> s1 == s)
  {
  }

  /** On an object whose size the server does not tell, a seek succeeds exactly if it is forward,
      from the beginning or from the position; there is no end to seek from. */
  lemma SeekWithoutSizeIff(s: State, offset: int, whence: int, net: Net)
    requires Safe(s) && s.o.isStarted && s.o.infoSet && s.o.info.size < 0
    requires !Refuses(s.o.prevErr)
    ensures var (s1, out) := StepSeek(s, offset, whence, net);
            if offset >= 0 && (whence == 0 || whence == 1) then
              && out.err == None && out.offset == s1.o.currOffset == Base(s.o, whence) + offset
              && Sends(s1, Read(1)).Some? && Sends(s1, Read(1)).value.didOffsetChange
            else s1 == s && out == Fails(Some(InvalidArgument))
  {
  }

  /** A ReadAt sends a request exactly if its offset lies inside the object, as far as that is
      known; otherwise it answers EOF, and nothing changes but the position. */
  lemma ReadAtSendsIff(s: State, n: nat, offset: int, net: Net)
    requires Safe(s) && !Refuses(s.o.prevErr) && !s.o.isClosed
    ensures Sends(s, ReadAt(n, offset)).Some?
       <==> s.o.infoSet ==> 0 <= offset && (s.o.info.size >= 0 ==> offset < s.o.info.size)
    ensures s.o.infoSet && (offset < 0 || (s.o.info.size >= 0 && offset >= s.o.info.size)) ==>
      StepReadAt(s, n, offset, net) == (s.(o := s.o.(currOffset := offset)), Fails(Some(EOF)))
  {
  }

  /** Every ReadAt that sends a request is answered from a body of its own, read from its
      beginning, whatever was read or sought before. */
  lemma ReadAtFetches(s: State, n: nat, offset: int, net: Net)
    requires Safe(s) && Sends(s, ReadAt(n, offset)).Some? && net.get.Ok?
    ensures var (s1, out) := StepReadAt(s, n, offset, net);
            var rest := net.get.value.1.rest;
            && s1.w.fetched == s.w.fetched + 1
            && out.data == (if n <= |rest| then rest[..n] else rest)
            && s1.o.currOffset == (if Refuses(out.err) then offset else offset + |out.data|)
            && (n > |rest| ==> out.err != None)
  {
    RequestsAreAnswered(s, ReadAt(n, offset), net);
  }

  /** The error of that ReadAt, and what it leaves: the goroutine goes on in the ReadAt's own
      body, so a Read behind it does not continue where the reads before it were. */
  lemma ReadAtMovesReads(s: State, n: nat, offset: int, net: Net)
    requires Safe(s) && Sends(s, ReadAt(n, offset)).Some? && net.get.Ok?
    ensures var (s1, out) := StepReadAt(s, n, offset, net);
            var body := net.get.value.1;
            && (out.err == BodyError(!s.o.isStarted, n, body) || (out.err == Some(EOF) && s1.o.prevErr == Some(EOF)))
            && s1.o.infoSet == s.o.infoSet
            && (n <= |body.rest| ==> s1.w.reader == Some(body.(rest := body.rest[n..])))
            && (out.err == None && s.o.prevErr == None ==>
                  forall m: nat :: Sends(s1, Read(m)).Some? && !Sends(s1, Read(m)).value.didOffsetChange
                                   && Sends(s1, Read(m)).value.beenRead)
  {
    RequestsAreAnswered(s, ReadAt(n, offset), net);
  }

  /** Stat tells what is known of the object, or asks; after that it is known. */
  lemma StatTells(s: State, net: Net)
    requires Safe(s) && !Refuses(s.o.prevErr) && (s.o.infoSet ==> s.o.isStarted)
    ensures var (s1, out) := StepStat(s, net);
            if s.o.infoSet then s1 == s && out == Outcome("", s.o.info, 0, None)
            else if net.stat.Ok? then s1.o.infoSet && out == Outcome("", net.stat.value, 0, None)
            else !s1.w.alive && out == Fails(Some(net.stat.error))
  {
    if !s.o.infoSet {
      RequestsAreAnswered(s, Stat, net);
    }
  }

  /** A closed object answers every call with the same error and sends nothing, in any run. */
  lemma {:induction false} ClosedRefuses(s: State, ops: seq<(Op, Net)>, op: Op, net: Net)
    requires Safe(s) && s.o.isClosed
    ensures var s1 := Run(s, ops);
            && s1.o == s.o && Sends(s1, op) == None
            && (op != WorkerExit ==> Step(s1, op, net).1 == Fails(Some(Closed)))
    decreases |ops|
  {
    if ops != [] {
      ClosedRefuses(Step(s, ops[0].0, ops[0].1).0, ops[1..], op, net);
    }
  }

  // ----- which failures are fatal -----

  ghost predicate CanPanic(s: State) {
    exists ops: seq<(Op, Net)> :: Run(s, ops).panicked
  }

  lemma {:induction false} DeadStaysQuiet(s: State, ops: seq<(Op, Net)>)
    requires Safe(s) && !s.w.alive
    ensures !Run(s, ops).panicked
    decreases |ops|
  {
    if ops != [] {
      DeadStaysQuiet(Step(s, ops[0].0, ops[0].1).0, ops[1..]);
    }
  }

  lemma RunTwo(s: State, a: (Op, Net), b: (Op, Net))
    ensures Run(s, [a]) == Step(s, a.0, a.1).0
    ensures Run(s, [a, b]) == Step(Step(s, a.0, a.1).0, b.0, b.1).0
  {
    assert [a, b][1..] == [b];
    assert Run(s, [a, b]) == Run(Step(s, a.0, a.1).0, [b]);
    assert forall t :: Run(t, [b]) == Step(t, b.0, b.1).0 by {
      assert [b][1..] == [];
    }
    assert [a][1..] == [];
  }

  /** Behind the exit of the goroutine, some calls panic exactly if the saved error does not
      stick: if there is none, or it is EOF. */
  lemma DeadPanicsIff(s: State, net: Net)
    requires !s.panicked && !s.w.alive && (s.o.isClosed ==> s.o.prevErr == Some(Closed))
    ensures CanPanic(s) <==> !Refuses(s.o.prevErr)
  {
    if Refuses(s.o.prevErr) {
      forall ops: seq<(Op, Net)>
        ensures !Run(s, ops).panicked
      {
        DeadStaysQuiet(s, ops);
      }
    } else {
      RunTwo(s, (Seek(0, 0), net), (Read(1), net));
      assert Run(s, [(Seek(0, 0), net), (Read(1), net)]).panicked;
    }
  }

  /** The error of the answer from the network that a request has the goroutine ask for: to a
      stat or to a fetch. A read from the open body asks for nothing. */
  function NetError(req: Request, net: Net): Option<Error> {
    if req.isFirstReq && req.isReadOp then ErrorOf(net.get)
    else if req.isFirstReq || req.settingObjectInfo then ErrorOf(net.stat)
    else if req.didOffsetChange || !req.beenRead then ErrorOf(net.get)
    else None
  }

  function ErrorOf<T>(r: Result<T, Error>): Option<Error> {
    if r.Err? then Some(r.error) else None
  }

  predicate ExitsWith(s: State, s1: State, e: Option<Error>) {
    && !s1.panicked && s1.o.isClosed == s.o.isClosed
    && (!s1.w.alive <==> e.Some?)
    && (e.Some? ==> (Refuses(s1.o.prevErr) <==> e != Some(EOF)))
  }

  /** The goroutine exits exactly if the stat or fetch fails, and the object saves the error
      unless it is io.EOF. */
  lemma ExitsIffNetFails(s: State, op: Op, net: Net)
    requires Safe(s) && Sends(s, op).Some?
    ensures ExitsWith(s, Step(s, op, net).0, NetError(Sends(s, op).value, net))
  {
    RequestsAreAnswered(s, op, net);
    match op
    case Read(n) => ReadExits(s, n, net);
    case ReadAt(n, offset) => ReadAtExits(s, n, offset, net);
    case Stat =>
    case Seek(offset, whence) =>
  }

  lemma ReadExits(s: State, n: nat, net: Net)
    requires Safe(s) && Sends(s, Read(n)).Some?
    ensures ExitsWith(s, StepRead(s, n, net).0, NetError(Sends(s, Read(n)).value, net))
  {
    RequestsAreAnswered(s, Read(n), net);
  }

  lemma ReadAtExits(s: State, n: nat, offset: int, net: Net)
    requires Safe(s) && Sends(s, ReadAt(n, offset)).Some?
    ensures ExitsWith(s, StepReadAt(s, n, offset, net).0, NetError(Sends(s, ReadAt(n, offset)).value, net))
  {
    RequestsAreAnswered(s, ReadAt(n, offset), net);
  }

  /** When the stat or fetch that a call makes fails, later calls are safe exactly if it did
      not fail with io.EOF: the object takes that for the end of the content. */
  lemma ExitIsSafeIffNotEOF(s: State, op: Op, net: Net)
    requires Safe(s) && Sends(s, op).Some? && NetError(Sends(s, op).value, net).Some?
    ensures CanPanic(Step(s, op, net).0) <==> NetError(Sends(s, op).value, net) == Some(EOF)
  {
    ExitsIffNetFails(s, op, net);
    DeadPanicsIff(Step(s, op, net).0, net);
  }

  // ----- response bodies -----

  /** Bodies that were fetched, and neither closed nor held by the goroutine. */
  function Leaked(w: Peer): int {
    w.fetched - w.closed - if w.alive && w.reader.Some? then 1 else 0
  }

  /** The requests that lose an open body: a first read while there is one, and a stat that
      fails while there is one. */
  predicate LosesBody(w: Peer, req: Request, net: Net) {
    w.reader.Some? &&
    if req.isFirstReq && req.isReadOp then true
    else (req.isFirstReq || req.settingObjectInfo) && net.stat.Err?
  }

  lemma ServeLosesIff(w: Peer, req: Request, net: Net)
    requires w.alive && Serve(w, req, net).Some?
    ensures Leaked(Serve(w, req, net).value.0) == Leaked(w) + if LosesBody(w, req, net) then 1 else 0
  {
  }

  /** Every other call, and the exit behind Close, keeps account of all bodies. */
  lemma StepLosesIff(s: State, op: Op, net: Net)
    requires Safe(s)
    ensures Leaked(Step(s, op, net).0.w)
         == Leaked(s.w) + if Sends(s, op).Some? && LosesBody(s.w, Sends(s, op).value, net) then 1 else 0
  {
    if Sends(s, op).Some? {
      RequestsAreAnswered(s, op, net);
      ServeLosesIff(s.w, Sends(s, op).value, net);
    }
  }

  /** The calls of a run that lose an open body. */
  function Losses(s: State, ops: seq<(Op, Net)>): nat
    decreases |ops|
  {
    if ops == [] then 0
    else
      var sent := Sends(s, ops[0].0);
      (if sent.Some? && LosesBody(s.w, sent.value, ops[0].1) then 1 else 0)
      + Losses(Step(s, ops[0].0, ops[0].1).0, ops[1..])
  }

  lemma {:induction false} RunLoses(s: State, ops: seq<(Op, Net)>)
    requires Safe(s) && forall i :: 0 <= i < |ops| ==> NetOk(ops[i].1)
    ensures Leaked(Run(s, ops).w) == Leaked(s.w) + Losses(s, ops)
    decreases |ops|
  {
    if ops != [] {
      var (op, net) := ops[0];
      assert NetOk(net);
      StepLosesIff(s, op, net);
      StepKeepsSafe(s, op, net);
      RunLoses(Step(s, op, net).0, ops[1..]);
    }
  }

  /** After any run, once the object is closed and the goroutine has seen it: of the bodies
      that were fetched, all are closed but one for each call that lost one. */
  lemma ClosingAccountsForBodies(ops: seq<(Op, Net)>, net: Net)
    requires forall i :: 0 <= i < |ops| ==> NetOk(ops[i].1)
    ensures var s := Run(NEW, ops);
            var s2 := Run(s, [(Close, net), (WorkerExit, net)]);
            !s2.w.alive && s2.w.fetched == s2.w.closed + Losses(NEW, ops)
  {
    RunIsSafe(NEW, ops);
    RunLoses(NEW, ops);
    ClosingKeepsAccount(Run(NEW, ops), net);
  }

  lemma ClosingKeepsAccount(s: State, net: Net)
    requires Safe(s)
    ensures var w := Run(s, [(Close, net), (WorkerExit, net)]).w;
            !w.alive && w.fetched - w.closed == Leaked(s.w)
  {
    RunTwo(s, (Close, net), (WorkerExit, net));
  }

  /** A run does happen to lose one: reading an object at once into a larger buffer, and then
      a part of it by ReadAt. */
  lemma ShortReadThenReadAtLeaks(content: Bytes, n: nat, m: nat, offset: int, net: Net)
    requires |content| < n && ServesWhole(net, content)
    ensures Leaked(Run(NEW, [(Read(n), net), (ReadAt(m, offset), net)]).w) == 1
  {
    RunTwo(NEW, (Read(n), net), (ReadAt(m, offset), net));
  }
}
