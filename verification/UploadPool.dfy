/**
 The parallel part uploader as a transition system: a producer that fills a bounded queue
 before any worker exists, workers that draw part numbers and upload, and a collector that
 gathers one response a part. All interleavings are covered: a run is any sequence of events.
*/
module UploadPool {
  import PartSize
  import opened Sequences
  import opened Wrappers

  /** What one upload is started with: n parts of partSize bytes, the last one of lastSize,
      and the capacity of both channels. */
  datatype Config = Config(n: nat, partSize: nat, lastSize: nat, size: nat, workers: nat, capacity: nat)

  predicate ValidConfig(c: Config) {
    && c.n >= 1
    && 0 < c.lastSize <= c.partSize
    && (c.n - 1) * c.partSize + c.lastSize == c.size
    && c.workers >= 1
    && c.capacity >= 1
  }

  datatype Range = Range(offset: int, length: int)

  /** A worker owns its copy of partSize, and overwrites it when it draws the last part. */
  datatype Worker =
    | Ready(partSize: nat)
    | Uploading(partSize: nat, part: int, range: Range)
    | Exited

  datatype Response = Uploaded(part: int, size: int) | Failed

  datatype Outcome = Running | Completed(parts: seq<int>) | UploadError | CompletionError

  datatype State = State(
    produced: nat,
    queue: seq<int>,
    closed: bool,
    workers: seq<Worker>,
    responses: seq<Response>,
    collected: seq<int>,
    total: int,
    stored: map<int, Range>,
    outcome: Outcome)

  datatype Event =
    | Produce
    | CloseQueue
    | Spawn
    | Draw(w: nat)
    | Quit(w: nat)
    | UploadOk(w: nat)
    | UploadFail(w: nat)
    | Collect
    | Complete(parts: seq<int>)
    | CompleteFails

  function Init(): State {
    State(0, [], false, [], [], [], 0, map[], Running)
  }

  /** The range a worker computes from the part number and its own copy of partSize. */
  function DrawnRange(c: Config, part: int, partSize: nat): Range {
    if part == c.n then Range(c.size - c.lastSize, c.lastSize) else Range((part - 1) * partSize, partSize)
  }

  predicate Sorted(xs: seq<int>) {
    forall i, j :: 0 <= i < j < |xs| ==> xs[i] <= xs[j]
  }

  /** One event, when it can happen. */
  function Step(c: Config, s: State, e: Event): Option<State> {
    match e
    case Produce =>
      if !s.closed && s.produced < c.n && |s.queue| < c.capacity then
        Some(s.(produced := s.produced + 1, queue := s.queue + [s.produced + 1]))
      else None
    case CloseQueue =>
      if !s.closed && s.produced == c.n then Some(s.(closed := true)) else None
    case Spawn =>
      if s.closed && |s.workers| < c.workers then Some(s.(workers := s.workers + [Ready(c.partSize)])) else None
    case Draw(w) =>
      if w < |s.workers| && s.workers[w].Ready? && s.queue != [] then
        var part := s.queue[0];
        var ps := s.workers[w].partSize;
        var worker := Uploading(if part == c.n then c.lastSize else ps, part, DrawnRange(c, part, ps));
        Some(s.(queue := s.queue[1..], workers := s.workers[w := worker]))
      else None
    case Quit(w) =>
      if w < |s.workers| && s.workers[w].Ready? && s.closed && s.queue == [] then
        Some(s.(workers := s.workers[w := Exited]))
      else None
    case UploadOk(w) =>
      if w < |s.workers| && s.workers[w].Uploading? && |s.responses| < c.capacity then
        var u := s.workers[w];
        Some(s.(workers := s.workers[w := Ready(u.partSize)],
                stored := s.stored[u.part := u.range],
                responses := s.responses + [Uploaded(u.part, u.range.length)]))
      else None
    case UploadFail(w) =>
      if w < |s.workers| && s.workers[w].Uploading? && |s.responses| < c.capacity then
        Some(s.(workers := s.workers[w := Exited], responses := s.responses + [Failed]))
      else None
    case Collect =>
      if Collecting(c, s) && |s.collected| < c.n && s.responses != [] then
        match s.responses[0] {
          case Failed => Some(s.(responses := s.responses[1..], outcome := UploadError))
          case Uploaded(part, size) =>
            Some(s.(responses := s.responses[1..], collected := s.collected + [part], total := s.total + size))
        }
      else None
    case Complete(parts) =>
      if && Collecting(c, s) && |s.collected| == c.n && s.total == c.size
         && Sorted(parts) && multiset(parts) == multiset(s.collected) then
        Some(s.(outcome := Completed(parts)))
      else None
    case CompleteFails =>
      if Collecting(c, s) && |s.collected| == c.n then Some(s.(outcome := CompletionError)) else None
  }

  /** The collector runs once all workers were started, until it returns. */
  predicate Collecting(c: Config, s: State) {
    s.closed && |s.workers| == c.workers && s.outcome == Running
  }

  /** The state after a sequence of events, if each could happen. */
  function Run(c: Config, es: seq<Event>): Option<State> {
    if es == [] then Some(Init())
    else
      match Run(c, es[..|es| - 1])
      case None => None
      case Some(s) => Step(c, s, es[|es| - 1])
  }

  // ----- the invariant -----

  function Upto(lo: int, hi: int): seq<int>
    decreases hi - lo
  {
    if lo > hi then [] else Upto(lo, hi - 1) + [hi]
  }

  function PartRange(c: Config, part: int): Range {
    DrawnRange(c, part, c.partSize)
  }

  /** The parts that workers are uploading. */
  function InFlight(ws: seq<Worker>): multiset<int> {
    if ws == [] then multiset{} else InFlight(ws[..|ws| - 1]) + Holds(ws[|ws| - 1])
  }

  function Holds(w: Worker): multiset<int> {
    if w.Uploading? then multiset{w.part} else multiset{}
  }

  /** The parts reported as uploaded but not collected. */
  function Pending(rs: seq<Response>): multiset<int> {
    if rs == [] then multiset{} else Reports(rs[0]) + Pending(rs[1..])
  }

  function Reports(r: Response): multiset<int> {
    if r.Uploaded? then multiset{r.part} else multiset{}
  }

  function Total(c: Config, parts: seq<int>): int {
    if parts == [] then 0 else Total(c, parts[..|parts| - 1]) + PartRange(c, parts[|parts| - 1]).length
  }

  function Drawn(s: State): int {
    s.produced - |s.queue|
  }

  /** Every part that left the queue and was not lost: uploading, reported, or collected. */
  function Alive(s: State): multiset<int> {
    InFlight(s.workers) + Pending(s.responses) + multiset(s.collected)
  }

  /** No part is held twice, and only parts that left the queue are held. */
  ghost predicate EachOnce(s: State) {
    forall p :: Alive(s)[p] <= (if 1 <= p <= Drawn(s) then 1 else 0)
  }

  /** A worker's partSize differs from the common one only after the last part was drawn,
      when nothing is left to draw. */
  predicate WorkerOk(c: Config, s: State, w: Worker) {
    match w
    case Ready(ps) => ps == c.partSize || Drawn(s) == c.n
    case Uploading(ps, part, range) =>
      (ps == c.partSize || Drawn(s) == c.n) && range == PartRange(c, part)
    case Exited => true
  }

  predicate ResponseOk(c: Config, s: State, r: Response) {
    r.Uploaded? ==> StoredOk(c, s, r.part) && r.size == PartRange(c, r.part).length
  }

  /** Nothing disappears: every part that was produced is queued, being uploaded, answered,
      or collected, or its failure has ended the upload. */
  predicate Conserved(s: State) {
    |s.queue| + |InFlight(s.workers)| + |s.responses| + |s.collected|
      + (if s.outcome == UploadError then 1 else 0) == s.produced
  }

  /** A worker only leaves when nothing is left to draw or after a failure that the
      collector has seen or will see. */
  predicate ExitExplained(s: State) {
    (exists i :: 0 <= i < |s.workers| && s.workers[i] == Exited) ==>
      s.queue == [] || Failed in s.responses || s.outcome == UploadError
  }

  /** The queue holds the parts that were produced and not drawn, in order. */
  predicate QueueInv(c: Config, s: State) {
    && |s.queue| <= s.produced <= c.n
    && s.queue == Upto(Drawn(s) + 1, s.produced)
    && |s.queue| <= c.capacity
    && (s.closed ==> s.produced == c.n)
    && (!s.closed ==> s.workers == [] && s.responses == [] && s.collected == [])
  }

  predicate WorkersInv(c: Config, s: State) {
    && |s.workers| <= c.workers
    && (forall i :: 0 <= i < |s.workers| ==> WorkerOk(c, s, s.workers[i]))
  }

  /** What was reported or collected is stored with its own range. */
  predicate StoreInv(c: Config, s: State) {
    && (forall i :: 0 <= i < |s.responses| ==> ResponseOk(c, s, s.responses[i]))
    && (forall i :: 0 <= i < |s.collected| ==> StoredOk(c, s, s.collected[i]))
  }

  predicate StoredOk(c: Config, s: State, part: int) {
    part in s.stored && s.stored[part] == PartRange(c, part)
  }

  predicate CollectorInv(c: Config, s: State) {
    && s.total == Total(c, s.collected)
    && |s.collected| <= c.n
    && (s.outcome.Completed? ==>
          && |s.collected| == c.n
          && Sorted(s.outcome.parts)
          && multiset(s.outcome.parts) == multiset(s.collected))
  }

  ghost predicate Inv(c: Config, s: State) {
    && QueueInv(c, s)
    && WorkersInv(c, s)
    && StoreInv(c, s)
    && CollectorInv(c, s)
    && EachOnce(s)
    && Conserved(s)
    && ExitExplained(s)
  }

  // ----- multiset bookkeeping -----

  lemma {:induction false} InFlightUpdate(ws: seq<Worker>, i: nat, w: Worker)
    requires i < |ws|
    ensures InFlight(ws[i := w]) + Holds(ws[i]) == InFlight(ws) + Holds(w)
  {
    var last := |ws| - 1;
    var us := ws[i := w];
    if i == last {
      assert us[..last] == ws[..last];
    } else {
      InFlightUpdate(ws[..last], i, w);
      assert us[..last] == ws[..last][i := w] && us[last] == ws[last] && ws[..last][i] == ws[i];
      assert InFlight(us) == InFlight(us[..last]) + Holds(ws[last]);
      assert InFlight(ws) == InFlight(ws[..last]) + Holds(ws[last]);
      SwapMiddle(InFlight(us[..last]), Holds(ws[i]), InFlight(ws[..last]), Holds(w), Holds(ws[last]));
    }
  }

  lemma SwapMiddle(a: multiset<int>, b: multiset<int>, c: multiset<int>, d: multiset<int>, e: multiset<int>)
    requires a + b == c + d
    ensures (a + e) + b == (c + e) + d
  {
    assert (a + e) + b == (a + b) + e;
  }

  lemma InFlightAppend(ws: seq<Worker>, w: Worker)
    ensures InFlight(ws + [w]) == InFlight(ws) + Holds(w)
  {
    assert (ws + [w])[..|ws|] == ws;
  }

  lemma {:induction false} PendingAppend(rs: seq<Response>, r: Response)
    ensures Pending(rs + [r]) == Pending(rs) + Reports(r)
  {
    if rs == [] {
      assert [r][1..] == [];
    } else {
      assert (rs + [r])[1..] == rs[1..] + [r];
      PendingAppend(rs[1..], r);
    }
  }

  lemma {:induction false} UptoFirst(lo: int, hi: int)
    requires lo <= hi
    ensures Upto(lo, hi)[0] == lo && Upto(lo, hi)[1..] == Upto(lo + 1, hi) && |Upto(lo, hi)| == hi - lo + 1
    decreases hi - lo
  {
    if lo < hi {
      UptoFirst(lo, hi - 1);
      assert Upto(lo, hi)[1..] == Upto(lo, hi - 1)[1..] + [hi];
    } else {
      assert Upto(lo, hi) == [] + [hi];
    }
  }

  // ----- what one event moves -----

  /** The part that an event takes from the queue. */
  function Taken(s: State, e: Event): multiset<int> {
    if e.Draw? && s.queue != [] then multiset{s.queue[0]} else multiset{}
  }

  /** The part that an event ends the upload of. */
  function Ended(s: State, e: Event): multiset<int> {
    if (e.UploadOk? || e.UploadFail?) && e.w < |s.workers| then Holds(s.workers[e.w]) else multiset{}
  }

  function Sent(s: State, e: Event): multiset<int> {
    if e.UploadOk? then Ended(s, e) else multiset{}
  }

  function Lost(s: State, e: Event): multiset<int> {
    if e.UploadFail? then Ended(s, e) else multiset{}
  }

  function Got(s: State, e: Event): multiset<int> {
    if e.Collect? && s.responses != [] then Reports(s.responses[0]) else multiset{}
  }

  predicate OfWorker(e: Event) {
    e.Draw? || e.Quit? || e.UploadOk? || e.UploadFail?
  }

  lemma WorkerMoves(c: Config, s: State, e: Event)
    requires Step(c, s, e).Some? && OfWorker(e)
    ensures var s' := Step(c, s, e).value;
            && e.w < |s.workers|
            && |s'.workers| == |s.workers|
            && s'.workers == s.workers[e.w := s'.workers[e.w]]
            && Holds(s.workers[e.w]) == Ended(s, e)
            && Holds(s'.workers[e.w]) == Taken(s, e)
  {
  }

  lemma OthersMoveNoWorker(c: Config, s: State, e: Event)
    requires Step(c, s, e).Some? && !OfWorker(e)
    ensures Ended(s, e) == multiset{} && Taken(s, e) == multiset{}
    ensures Step(c, s, e).value.workers == if e.Spawn? then s.workers + [Ready(c.partSize)] else s.workers
  {
  }

  lemma InFlightMoves(c: Config, s: State, e: Event)
    requires Step(c, s, e).Some?
    ensures InFlight(Step(c, s, e).value.workers) + Ended(s, e) == InFlight(s.workers) + Taken(s, e)
  {
    if OfWorker(e) {
      WorkerMoves(c, s, e);
      InFlightUpdate(s.workers, e.w, Step(c, s, e).value.workers[e.w]);
    } else {
      OthersMoveNoWorker(c, s, e);
      InFlightAppend(s.workers, Ready(c.partSize));
    }
  }

  /** The response that an event adds. */
  function NewResponses(s: State, e: Event): seq<Response> {
    if e.UploadOk? && e.w < |s.workers| && s.workers[e.w].Uploading? then
      [Uploaded(s.workers[e.w].part, s.workers[e.w].range.length)]
    else if e.UploadFail? then [Failed]
    else []
  }

  lemma ResponsesMove(c: Config, s: State, e: Event)
    requires Step(c, s, e).Some?
    ensures var s' := Step(c, s, e).value;
            if e.Collect? then s.responses != [] && s'.responses == s.responses[1..]
            else s'.responses == s.responses + NewResponses(s, e)
    ensures NewResponses(s, e) != [] ==> Reports(NewResponses(s, e)[0]) == Sent(s, e)
    ensures NewResponses(s, e) == [] ==> Sent(s, e) == multiset{}
  {
  }

  lemma PendingMoves(c: Config, s: State, e: Event)
    requires Step(c, s, e).Some?
    ensures Pending(Step(c, s, e).value.responses) + Got(s, e) == Pending(s.responses) + Sent(s, e)
  {
    ResponsesMove(c, s, e);
    var new' := NewResponses(s, e);
    if e.Collect? {
      assert Pending(s.responses) == Reports(s.responses[0]) + Pending(s.responses[1..]);
    } else if new' == [] {
      assert s.responses + new' == s.responses;
    } else {
      PendingAppend(s.responses, new'[0]);
      assert new' == [new'[0]];
    }
  }

  lemma CollectedMoves(c: Config, s: State, e: Event)
    requires Step(c, s, e).Some?
    ensures multiset(Step(c, s, e).value.collected) == multiset(s.collected) + Got(s, e)
  {
    match e
    case Collect =>
    case _ =>
  }

  lemma AliveMoves(c: Config, s: State, e: Event)
    requires Step(c, s, e).Some?
    ensures Alive(Step(c, s, e).value) + Lost(s, e) == Alive(s) + Taken(s, e)
  {
    var s' := Step(c, s, e).value;
    InFlightMoves(c, s, e);
    PendingMoves(c, s, e);
    CollectedMoves(c, s, e);
    Cancel(InFlight(s'.workers), Ended(s, e), InFlight(s.workers), Taken(s, e),
           Pending(s'.responses), Got(s, e), Pending(s.responses), Sent(s, e),
           multiset(s'.collected), multiset(s.collected), Lost(s, e));
  }

  lemma Cancel(f': multiset<int>, ended: multiset<int>, f: multiset<int>, taken: multiset<int>,
               p': multiset<int>, got: multiset<int>, p: multiset<int>, sent: multiset<int>,
               k': multiset<int>, k: multiset<int>, lost: multiset<int>)
    requires f' + ended == f + taken && p' + got == p + sent && k' == k + got && ended == sent + lost
    ensures (f' + p' + k') + lost == (f + p + k) + taken
  {
    forall x ensures ((f' + p' + k') + lost)[x] == ((f + p + k) + taken)[x] {
      assert (f' + ended)[x] == (f + taken)[x];
      assert (p' + got)[x] == (p + sent)[x];
    }
  }

  /** Nothing is taken, or the next part is. */
  predicate TakesNext(taken: multiset<int>, d: int, d': int) {
    (taken == multiset{} && d' == d) || (taken == multiset{d + 1} && d' == d + 1)
  }

  // ----- every step keeps the invariant -----

  lemma DrawKeepsQueue(c: Config, s: State, w: nat)
    requires QueueInv(c, s) && Step(c, s, Draw(w)).Some?
    ensures QueueInv(c, Step(c, s, Draw(w)).value)
    ensures var s' := Step(c, s, Draw(w)).value;
            s.queue[0] == Drawn(s) + 1 == Drawn(s') <= c.n && |s'.queue| + 1 == |s.queue|
  {
    UptoFirst(Drawn(s) + 1, s.produced);
  }

  lemma ProduceKeepsQueue(c: Config, s: State)
    requires QueueInv(c, s) && Step(c, s, Produce).Some?
    ensures QueueInv(c, Step(c, s, Produce).value) && Drawn(Step(c, s, Produce).value) == Drawn(s)
  {
    assert Upto(Drawn(s) + 1, s.produced + 1) == Upto(Drawn(s) + 1, s.produced) + [s.produced + 1];
  }

  lemma StepKeepsQueue(c: Config, s: State, e: Event)
    requires QueueInv(c, s) && Step(c, s, e).Some?
    ensures QueueInv(c, Step(c, s, e).value)
    ensures TakesNext(Taken(s, e), Drawn(s), Drawn(Step(c, s, e).value))
  {
    match e
    case Draw(w) => DrawKeepsQueue(c, s, w);
    case Produce => ProduceKeepsQueue(c, s);
    case _ =>
  }

  /** FIFO is what makes overwriting the worker's own partSize harmless: whoever drew the
      last part finds the queue empty. */
  lemma DrawKeepsWorkers(c: Config, s: State, w: nat)
    requires ValidConfig(c) && QueueInv(c, s) && WorkersInv(c, s) && Step(c, s, Draw(w)).Some?
    ensures WorkersInv(c, Step(c, s, Draw(w)).value)
  {
    DrawKeepsQueue(c, s, w);
    assert WorkerOk(c, s, s.workers[w]);
  }

  lemma StepKeepsWorkers(c: Config, s: State, e: Event)
    requires ValidConfig(c) && QueueInv(c, s) && WorkersInv(c, s) && Step(c, s, e).Some?
    ensures WorkersInv(c, Step(c, s, e).value)
  {
    match e
    case Draw(w) => DrawKeepsWorkers(c, s, w);
    case UploadOk(w) => assert WorkerOk(c, s, s.workers[w]);
    case _ =>
  }

  lemma StepKeepsStore(c: Config, s: State, e: Event)
    requires WorkersInv(c, s) && StoreInv(c, s) && Step(c, s, e).Some?
    ensures StoreInv(c, Step(c, s, e).value)
  {
    match e
    case UploadOk(w) => assert WorkerOk(c, s, s.workers[w]);
    case Collect => assert ResponseOk(c, s, s.responses[0]);
    case _ =>
  }

  lemma CollectKeepsCollector(c: Config, s: State)
    requires StoreInv(c, s) && CollectorInv(c, s) && Step(c, s, Collect).Some?
    ensures CollectorInv(c, Step(c, s, Collect).value)
  {
    var r := s.responses[0];
    assert ResponseOk(c, s, r);
    if r.Uploaded? {
      assert (s.collected + [r.part])[..|s.collected|] == s.collected;
    }
  }

  lemma StepKeepsCollector(c: Config, s: State, e: Event)
    requires StoreInv(c, s) && CollectorInv(c, s) && Step(c, s, e).Some?
    ensures CollectorInv(c, Step(c, s, e).value)
  {
    match e
    case Collect => CollectKeepsCollector(c, s);
    case _ =>
  }

  lemma StepKeepsOnce(c: Config, s: State, e: Event)
    requires QueueInv(c, s) && EachOnce(s) && Step(c, s, e).Some?
    ensures EachOnce(Step(c, s, e).value)
  {
    var s' := Step(c, s, e).value;
    StepKeepsQueue(c, s, e);
    AliveMoves(c, s, e);
    OnceMoves(Alive(s'), Lost(s, e), Alive(s), Taken(s, e), Drawn(s), Drawn(s'));
  }

  lemma OnceMoves(a': multiset<int>, lost: multiset<int>, a: multiset<int>, taken: multiset<int>, d: int, d': int)
    requires d >= 0
    requires a' + lost == a + taken
    requires forall p :: a[p] <= (if 1 <= p <= d then 1 else 0)
    requires TakesNext(taken, d, d')
    ensures forall p :: a'[p] <= (if 1 <= p <= d' then 1 else 0)
  {
    forall p ensures a'[p] <= (if 1 <= p <= d' then 1 else 0) {
      assert (a' + lost)[p] == (a + taken)[p];
    }
  }

  lemma StepKeepsCount(c: Config, s: State, e: Event)
    requires Conserved(s) && Step(c, s, e).Some?
    ensures Conserved(Step(c, s, e).value)
  {
    var s' := Step(c, s, e).value;
    InFlightMoves(c, s, e);
    SameSize(InFlight(s'.workers), Ended(s, e), InFlight(s.workers), Taken(s, e));
    CountMoves(c, s, e);
  }

  lemma SameSize(a: multiset<int>, b: multiset<int>, c: multiset<int>, d: multiset<int>)
    requires a + b == c + d
    ensures |a| + |b| == |c| + |d|
  {
    assert |a + b| == |a| + |b| && |c + d| == |c| + |d|;
  }

  lemma CountMoves(c: Config, s: State, e: Event)
    requires Step(c, s, e).Some?
    ensures var s' := Step(c, s, e).value;
            |s'.queue| + |s'.responses| + |s'.collected| + (if s'.outcome == UploadError then 1 else 0) - s'.produced
            == |s.queue| + |s.responses| + |s.collected| + (if s.outcome == UploadError then 1 else 0) - s.produced
               - |Taken(s, e)| + |Ended(s, e)|
  {
  }

  lemma StepKeepsExit(c: Config, s: State, e: Event)
    requires QueueInv(c, s) && ExitExplained(s) && Step(c, s, e).Some?
    ensures ExitExplained(Step(c, s, e).value)
  {
    var s' := Step(c, s, e).value;
    match e
    case UploadFail(w) => assert s'.responses[|s.responses|] == Failed;
    case UploadOk(w) => assert forall i :: 0 <= i < |s.responses| ==> s'.responses[i] == s.responses[i];
    case Collect => assert s.responses == [s.responses[0]] + s'.responses;
    case _ =>
  }

  lemma StepKeepsInv(c: Config, s: State, e: Event)
    requires ValidConfig(c) && Inv(c, s) && Step(c, s, e).Some?
    ensures Inv(c, Step(c, s, e).value)
  {
    StepKeepsQueue(c, s, e);
    StepKeepsWorkers(c, s, e);
    StepKeepsStore(c, s, e);
    StepKeepsCollector(c, s, e);
    StepKeepsOnce(c, s, e);
    StepKeepsCount(c, s, e);
    StepKeepsExit(c, s, e);
  }

  lemma InitInv(c: Config)
    requires ValidConfig(c)
    ensures Inv(c, Init())
  {
    assert Upto(1, 0) == [];
  }

  lemma {:induction false} RunKeepsInv(c: Config, es: seq<Event>)
    requires ValidConfig(c) && Run(c, es).Some?
    ensures Inv(c, Run(c, es).value)
  {
    if es == [] {
      InitInv(c);
    } else {
      RunKeepsInv(c, es[..|es| - 1]);
      StepKeepsInv(c, Run(c, es[..|es| - 1]).value, es[|es| - 1]);
    }
  }

  // ----- what a completed upload is -----

  /** n distinct parts between 1 and n, in order, are all of them. */
  lemma {:induction false} DistinctSortedIsAll(xs: seq<int>, n: nat)
    requires |xs| == n && Sorted(xs)
    requires forall p :: multiset(xs)[p] <= (if 1 <= p <= n then 1 else 0)
    ensures xs == Upto(1, n)
  {
    if n > 0 {
      var init, last := xs[..n - 1], xs[n - 1];
      assert xs == init + [last];
      assert multiset(xs) == multiset(init) + multiset{last};
      LastIsLargest(xs, n);
      forall p ensures multiset(init)[p] <= (if 1 <= p <= n - 1 then 1 else 0) {
        assert multiset(xs)[p] == multiset(init)[p] + multiset{last}[p];
      }
      DistinctSortedIsAll(init, n - 1);
    }
  }

  lemma LastIsLargest(xs: seq<int>, n: nat)
    requires |xs| == n && n > 0 && Sorted(xs)
    requires forall p :: multiset(xs)[p] <= (if 1 <= p <= n then 1 else 0)
    ensures xs[n - 1] == n
  {
    StrictlyUp(xs);
    CountsUp(xs, n - 1);
    assert xs[n - 1] in multiset(xs);
    assert xs[0] in multiset(xs);
  }

  lemma StrictlyUp(xs: seq<int>)
    requires Sorted(xs) && forall p :: multiset(xs)[p] <= 1
    ensures forall i :: 0 < i < |xs| ==> xs[i - 1] < xs[i]
  {
    forall i | 0 < i < |xs| ensures xs[i - 1] < xs[i] {
      EqualNeighbours(xs, i);
    }
  }

  lemma EqualNeighbours(xs: seq<int>, i: nat)
    requires 0 < i < |xs|
    ensures xs[i - 1] == xs[i] ==> multiset(xs)[xs[i]] >= 2
  {
    assert xs == xs[..i - 1] + [xs[i - 1], xs[i]] + xs[i + 1..];
  }

  lemma {:induction false} CountsUp(xs: seq<int>, i: nat)
    requires i < |xs| && forall j :: 0 < j < |xs| ==> xs[j - 1] < xs[j]
    ensures xs[i] >= xs[0] + i
  {
    if i > 0 {
      CountsUp(xs, i - 1);
    }
  }

  /** The ranges of parts 1..k, in order, tile what comes before the end of part k. */
  lemma {:induction false} RangesTile(c: Config, k: nat)
    requires ValidConfig(c) && k <= c.n
    ensures Total(c, Upto(1, k)) == if k == c.n then c.size else k * c.partSize
    ensures k > 0 ==> var r := PartRange(c, k);
              r.offset == Total(c, Upto(1, k - 1)) && r.offset + r.length == Total(c, Upto(1, k))
  {
    if k > 0 {
      RangesTile(c, k - 1);
      TotalUpto(c, k);
      OneMorePart(k, c.partSize);
    }
  }

  lemma TotalUpto(c: Config, k: nat)
    requires k > 0
    ensures Total(c, Upto(1, k)) == Total(c, Upto(1, k - 1)) + PartRange(c, k).length
  {
    var parts := Upto(1, k);
    assert parts[..|parts| - 1] == Upto(1, k - 1) && parts[|parts| - 1] == k;
  }

  lemma OneMorePart(k: int, p: int)
    ensures (k - 1) * p + p == k * p
  {
  }

  lemma {:induction false} TotalIgnoresOrder(c: Config, xs: seq<int>, ys: seq<int>)
    requires multiset(xs) == multiset(ys)
    ensures Total(c, xs) == Total(c, ys)
    decreases |xs|
  {
    assert |multiset(xs)| == |xs| && |multiset(ys)| == |ys|;
    if xs != [] {
      var n := |xs| - 1;
      assert xs[n] in multiset(ys);
      var i :| 0 <= i < |ys| && ys[i] == xs[n];
      RemoveAt(xs, n);
      RemoveAt(ys, i);
      assert xs[..n] + xs[n + 1..] == xs[..n];
      SameRest(multiset(xs[..n]), multiset(ys[..i] + ys[i + 1..]), multiset{xs[n]});
      TotalIgnoresOrder(c, xs[..n], ys[..i] + ys[i + 1..]);
      TotalRemove(c, ys, i);
    }
  }

  lemma RemoveAt(ys: seq<int>, i: nat)
    requires i < |ys|
    ensures multiset(ys[..i] + ys[i + 1..]) + multiset{ys[i]} == multiset(ys)
  {
    assert ys == ys[..i] + [ys[i]] + ys[i + 1..];
  }

  lemma SameRest(a: multiset<int>, b: multiset<int>, x: multiset<int>)
    requires a + x == b + x
    ensures a == b
  {
    assert a == (a + x) - x && b == (b + x) - x;
  }

  lemma {:induction false} TotalRemove(c: Config, ys: seq<int>, i: nat)
    requires i < |ys|
    ensures Total(c, ys) == Total(c, ys[..i] + ys[i + 1..]) + PartRange(c, ys[i]).length
    decreases |ys|
  {
    var n := |ys| - 1;
    if i == n {
      assert ys[..i] + ys[i + 1..] == ys[..n];
    } else {
      TotalRemove(c, ys[..n], i);
      var rest := ys[..i] + ys[i + 1..];
      assert rest[..|rest| - 1] == ys[..n][..i] + ys[..n][i + 1..];
      assert rest[|rest| - 1] == ys[n];
    }
  }

  lemma {:induction false} UptoCounts(n: nat, p: int)
    ensures |Upto(1, n)| == n && multiset(Upto(1, n))[p] == (if 1 <= p <= n then 1 else 0)
  {
    if n > 0 {
      UptoCounts(n - 1, p);
      assert multiset(Upto(1, n)) == multiset(Upto(1, n - 1)) + multiset{n};
    }
  }

  lemma {:induction false} UptoIsSorted(n: nat)
    ensures Sorted(Upto(1, n)) && forall i :: 0 <= i < |Upto(1, n)| ==> Upto(1, n)[i] <= n
  {
    if n > 0 {
      UptoIsSorted(n - 1);
    }
  }

  lemma SameBySize(a: multiset<int>, b: multiset<int>)
    requires a <= b && |a| == |b|
    ensures a == b
  {
    assert b == a + (b - a);
    assert |a + (b - a)| == |a| + |b - a|;
  }

  /** In every reachable state, once n parts are collected they are 1..n, each once, and their
      sizes sum to the size of the object. */
  lemma AllCollected(c: Config, s: State)
    requires ValidConfig(c) && Inv(c, s) && |s.collected| == c.n
    ensures multiset(s.collected) == multiset(Upto(1, c.n)) && Sorted(Upto(1, c.n))
    ensures s.total == c.size
  {
    var all := multiset(Upto(1, c.n));
    forall p ensures multiset(s.collected)[p] <= all[p] {
      UptoCounts(c.n, p);
      assert multiset(s.collected)[p] <= Alive(s)[p];
    }
    UptoCounts(c.n, 1);
    assert |multiset(s.collected)| == c.n && |all| == c.n;
    SameBySize(multiset(s.collected), all);
    UptoIsSorted(c.n);
    RangesTile(c, c.n);
    TotalIgnoresOrder(c, s.collected, Upto(1, c.n));
  }

  /** Sorting the collected parts can give nothing else. */
  lemma CollectedSorted(c: Config, s: State, parts: seq<int>)
    requires ValidConfig(c) && Inv(c, s) && |s.collected| == c.n
    requires Sorted(parts) && multiset(parts) == multiset(s.collected)
    ensures parts == Upto(1, c.n)
  {
    assert |multiset(parts)| == |multiset(s.collected)|;
    forall p ensures multiset(parts)[p] <= (if 1 <= p <= c.n then 1 else 0) {
      assert multiset(s.collected)[p] <= Alive(s)[p];
    }
    DistinctSortedIsAll(parts, c.n);
  }

  predicate Within(r: Range, data: seq<int>) {
    0 <= r.offset && 0 <= r.length && r.offset + r.length <= |data|
  }

  /** The bytes of the object that a part was uploaded with. */
  function PartBytes(stored: map<int, Range>, part: int, data: seq<int>): seq<int> {
    if part in stored && Within(stored[part], data) then
      data[stored[part].offset..stored[part].offset + stored[part].length]
    else []
  }

  /** What the server puts together from the listed parts. */
  function Assembled(stored: map<int, Range>, parts: seq<int>, data: seq<int>): seq<int> {
    if parts == [] then []
    else Assembled(stored, parts[..|parts| - 1], data) + PartBytes(stored, parts[|parts| - 1], data)
  }

  lemma PartEnds(c: Config, k: nat)
    requires ValidConfig(c) && 1 <= k <= c.n
    ensures 0 <= (k - 1) * c.partSize && (k < c.n ==> k * c.partSize <= c.size)
  {
    PartSize.Nonnegative(k - 1, c.partSize);
    if k < c.n {
      PartSize.Nonnegative(c.n - 1 - k, c.partSize);
      SplitProduct(c.n - 1, k, c.partSize);
    }
  }

  lemma SplitProduct(n: int, k: int, p: int)
    ensures n * p == (n - k) * p + k * p
  {
  }

  lemma AssembledUpto(c: Config, stored: map<int, Range>, k: nat, data: seq<int>)
    requires k > 0
    ensures Assembled(stored, Upto(1, k), data) == Assembled(stored, Upto(1, k - 1), data) + PartBytes(stored, k, data)
  {
    var parts := Upto(1, k);
    assert parts[..|parts| - 1] == Upto(1, k - 1) && parts[|parts| - 1] == k;
  }

  lemma AssembledStep(c: Config, stored: map<int, Range>, k: nat, data: seq<int>, lo: nat, hi: nat)
    requires 1 <= k && lo <= hi <= |data|
    requires k in stored && stored[k] == Range(lo, hi - lo)
    requires Assembled(stored, Upto(1, k - 1), data) == data[..lo]
    ensures Assembled(stored, Upto(1, k), data) == data[..hi]
  {
    AssembledUpto(c, stored, k, data);
    PrefixGrows(data, lo, hi);
  }

  lemma {:induction false} AssembledPrefix(c: Config, stored: map<int, Range>, k: nat, data: seq<int>)
    requires ValidConfig(c) && k <= c.n && |data| == c.size
    requires forall p :: 1 <= p <= k ==> p in stored && stored[p] == PartRange(c, p)
    ensures 0 <= Total(c, Upto(1, k)) <= c.size
    ensures Assembled(stored, Upto(1, k), data) == data[..Total(c, Upto(1, k))]
  {
    if k > 0 {
      AssembledPrefix(c, stored, k - 1, data);
      TotalGrows(c, k);
      AssembledStep(c, stored, k, data, Total(c, Upto(1, k - 1)), Total(c, Upto(1, k)));
    }
  }

  lemma TotalGrows(c: Config, k: nat)
    requires ValidConfig(c) && 1 <= k <= c.n
    ensures var lo, hi := Total(c, Upto(1, k - 1)), Total(c, Upto(1, k));
            0 <= lo <= hi <= c.size && PartRange(c, k) == Range(lo, hi - lo)
  {
    RangesTile(c, k - 1);
    RangesTile(c, k);
    PartEnds(c, k);
  }

  // ----- the main results -----

  /** In every interleaving, a completed upload lists exactly the parts 1..n in order, each
      stored with its own range. */
  lemma CompletedParts(c: Config, es: seq<Event>)
    requires ValidConfig(c) && Run(c, es).Some? && Run(c, es).value.outcome.Completed?
    ensures var s := Run(c, es).value;
            && s.outcome.parts == Upto(1, c.n)
            && s.total == c.size
            && (forall p :: 1 <= p <= c.n ==> StoredOk(c, s, p))
  {
    var s := Run(c, es).value;
    RunKeepsInv(c, es);
    AllCollected(c, s);
    CollectedSorted(c, s, s.outcome.parts);
    forall p | 1 <= p <= c.n ensures StoredOk(c, s, p) {
      UptoHolds(1, c.n, p);
      assert p in multiset(s.outcome.parts);
      assert p in s.collected;
    }
  }

  /** In every interleaving, what the server assembles from a completed upload is the
      object itself. */
  lemma CompletedIsWhole(c: Config, es: seq<Event>, data: seq<int>)
    requires ValidConfig(c) && Run(c, es).Some? && Run(c, es).value.outcome.Completed?
    requires |data| == c.size
    ensures var s := Run(c, es).value; Assembled(s.stored, s.outcome.parts, data) == data
  {
    CompletedParts(c, es);
    AllStoredIsWhole(c, Run(c, es).value, data);
  }

  lemma AllStoredIsWhole(c: Config, s: State, data: seq<int>)
    requires ValidConfig(c) && |data| == c.size
    requires forall p :: 1 <= p <= c.n ==> StoredOk(c, s, p)
    ensures Assembled(s.stored, Upto(1, c.n), data) == data
  {
    forall p | 1 <= p <= c.n ensures p in s.stored && s.stored[p] == PartRange(c, p) {
      assert StoredOk(c, s, p);
    }
    AssembledPrefix(c, s.stored, c.n, data);
    RangesTile(c, c.n);
    assert data[..c.size] == data;
  }

  lemma {:induction false} UptoHolds(lo: int, hi: int, p: int)
    ensures p in Upto(lo, hi) <==> lo <= p <= hi
    decreases hi - lo
  {
    if lo <= hi {
      UptoHolds(lo, hi - 1, p);
    }
  }

  /** No event can happen. */
  ghost predicate Stuck(c: Config, s: State) {
    forall e :: Step(c, s, e) == None
  }

  lemma WorkerCanAct(c: Config, s: State) returns (e: Event)
    requires ValidConfig(c) && Inv(c, s) && Collecting(c, s)
    requires |s.collected| < c.n && s.responses == []
    ensures Step(c, s, e).Some? && !IsFailure(e)
  {
    if i :| 0 <= i < |s.workers| && s.workers[i].Uploading? {
      e := UploadOk(i);
    } else {
      NobodyUploads(s.workers);
      assert s.queue != [];
      assert s.workers[0] != Exited;
      e := Draw(0);
    }
  }

  lemma {:induction false} NobodyUploads(ws: seq<Worker>)
    requires forall i :: 0 <= i < |ws| ==> !ws[i].Uploading?
    ensures InFlight(ws) == multiset{}
  {
    if ws != [] {
      NobodyUploads(ws[..|ws| - 1]);
    }
  }

  /** Once all parts are collected, completing the upload with them in order is possible. */
  lemma CompleteIsPossible(c: Config, s: State)
    requires ValidConfig(c) && Inv(c, s) && Collecting(c, s) && |s.collected| == c.n
    ensures Step(c, s, Complete(Upto(1, c.n))).Some?
  {
    AllCollected(c, s);
  }

  /** Something goes wrong: a part is refused, or the completion. */
  predicate IsFailure(e: Event) {
    e.UploadFail? || e.CompleteFails?
  }

  /** While the upload runs, something can happen that is no failure, if all parts fit: the
      producer is never blocked; while the collector waits on an empty result channel, some
      worker holds a part or can still draw one; and in the end the upload can be completed. */
  lemma NeverStuck(c: Config, s: State) returns (e: Event)
    requires ValidConfig(c) && Inv(c, s) && s.outcome == Running && c.n <= c.capacity
    ensures Step(c, s, e).Some? && !IsFailure(e)
  {
    if !s.closed {
      e := if s.produced < c.n then Produce else CloseQueue;
    } else if |s.workers| < c.workers {
      e := Spawn;
    } else if |s.collected| == c.n {
      CompleteIsPossible(c, s);
      e := Complete(Upto(1, c.n));
    } else if s.responses != [] {
      e := Collect;
    } else {
      e := WorkerCanAct(c, s);
    }
  }

  /** A worker that has failed or quit takes no part in the rest of the run. */
  lemma ExitedStays(c: Config, s: State, e: Event, w: nat)
    requires w < |s.workers| && Step(c, s, e).Some?
    ensures s.workers[w].Exited? ==>
      e != Draw(w) && e != Quit(w) && e != UploadOk(w) && e != UploadFail(w)
    ensures Step(c, s, e).value.workers[w].Exited? <==> s.workers[w].Exited? || e == Quit(w) || e == UploadFail(w)
  {
  }

  /** The run that fills the queue. */
  function Fill(k: nat): seq<Event> {
    if k == 0 then [] else Fill(k - 1) + [Produce]
  }

  lemma {:induction false} FillRuns(c: Config, k: nat)
    requires k <= c.n && k <= c.capacity
    ensures |Fill(k)| == k
    ensures Run(c, Fill(k)).Some?
    ensures var s := Run(c, Fill(k)).value;
            s.produced == k == |s.queue| && !s.closed && s.workers == [] && s.outcome == Running
  {
    if k > 0 {
      FillRuns(c, k - 1);
      assert Fill(k)[..k - 1] == Fill(k - 1);
    }
  }

  /** The upload can hang exactly when there are more parts than the queue holds: the
      producer fills the queue before any worker was started. */
  lemma HangsIffTooManyParts(c: Config)
    requires ValidConfig(c)
    ensures (exists es :: Run(c, es).Some? && Run(c, es).value.outcome == Running && Stuck(c, Run(c, es).value))
       <==> c.n > c.capacity
  {
    if c.n > c.capacity {
      FillRuns(c, c.capacity);
      var s := Run(c, Fill(c.capacity)).value;
      forall e ensures Step(c, s, e) == None {
      }
      assert Stuck(c, s);
    } else {
      forall es | Run(c, es).Some? && Run(c, es).value.outcome == Running
        ensures !Stuck(c, Run(c, es).value)
      {
        RunKeepsInv(c, es);
        var e := NeverStuck(c, Run(c, es).value);
      }
    }
  }

  // ----- every run ends -----

  function Weight(ws: seq<Worker>): nat {
    if ws == [] then 0 else Weight(ws[..|ws| - 1]) + WeightOf(ws[|ws| - 1])
  }

  function WeightOf(w: Worker): nat {
    match w
    case Ready(_) => 1
    case Uploading(_, _, _) => 4
    case Exited => 0
  }

  lemma {:induction false} WeightUpdate(ws: seq<Worker>, i: nat, w: Worker)
    requires i < |ws|
    ensures Weight(ws[i := w]) + WeightOf(ws[i]) == Weight(ws) + WeightOf(w)
  {
    var last := |ws| - 1;
    var us := ws[i := w];
    if i == last {
      assert us[..last] == ws[..last];
    } else {
      WeightUpdate(ws[..last], i, w);
      assert us[..last] == ws[..last][i := w];
    }
  }

  /** How much is left to do. */
  function Work(c: Config, s: State): int {
    5 * (c.n - s.produced) + 4 * |s.queue| + Weight(s.workers) + 2 * |s.responses|
    + 2 * (c.workers - |s.workers|)
    + (if s.closed then 0 else 1) + (if s.outcome == Running then 1 else 0)
  }

  lemma WorkerStepWorks(c: Config, s: State, e: Event)
    requires Step(c, s, e).Some? && OfWorker(e)
    ensures Work(c, Step(c, s, e).value) < Work(c, s)
  {
    WorkerMoves(c, s, e);
    WeightUpdate(s.workers, e.w, Step(c, s, e).value.workers[e.w]);
  }

  lemma StepWorks(c: Config, s: State, e: Event)
    requires Step(c, s, e).Some?
    ensures Work(c, Step(c, s, e).value) < Work(c, s)
  {
    if OfWorker(e) {
      WorkerStepWorks(c, s, e);
    } else if e.Spawn? {
      assert (s.workers + [Ready(c.partSize)])[..|s.workers|] == s.workers;
    }
  }

  /** No run is longer than the work at its start: every run comes to a state that cannot be
      left, of which StuckRunsHaveEnded says what it is. */
  lemma {:induction false} RunsEnd(c: Config, es: seq<Event>)
    requires ValidConfig(c) && Run(c, es).Some?
    ensures |es| <= 5 * c.n + 2 * c.workers + 2
    ensures |es| + Work(c, Run(c, es).value) <= Work(c, Init()) == 5 * c.n + 2 * c.workers + 2
  {
    if es != [] {
      var s := Run(c, es[..|es| - 1]).value;
      RunsEnd(c, es[..|es| - 1]);
      StepWorks(c, s, es[|es| - 1]);
    }
    RunKeepsInv(c, es);
  }

  // ----- how every run ends -----

  /** A refused part was reported, and the collector has seen it or will see it. */
  predicate FailSeen(s: State) {
    Failed in s.responses || s.outcome == UploadError
  }

  lemma FailStaysSeen(c: Config, s: State, e: Event)
    requires ValidConfig(c) && Inv(c, s) && FailSeen(s) && Step(c, s, e).Some?
    ensures FailSeen(Step(c, s, e).value)
  {
    if Failed in s.responses {
      var i :| 0 <= i < |s.responses| && s.responses[i] == Failed;
      FailedMoves(c, s, e, i);
    }
  }

  lemma FailedMoves(c: Config, s: State, e: Event, i: nat)
    requires Inv(c, s) && Step(c, s, e).Some?
    requires i < |s.responses| && s.responses[i] == Failed
    ensures FailSeen(Step(c, s, e).value)
  {
    var s' := Step(c, s, e).value;
    if e.Collect? {
      assert i > 0 ==> s'.responses[i - 1] == Failed;
    } else {
      assert s'.responses[i] == Failed;
    }
  }

  lemma FailIsSeen(c: Config, s: State, w: nat)
    requires Step(c, s, UploadFail(w)).Some?
    ensures FailSeen(Step(c, s, UploadFail(w)).value)
  {
    assert Step(c, s, UploadFail(w)).value.responses[|s.responses|] == Failed;
  }

  lemma FailOnlyByFailing(c: Config, s: State, e: Event)
    requires Step(c, s, e).Some? && !FailSeen(s) && !e.UploadFail?
    ensures !FailSeen(Step(c, s, e).value)
  {
    var s' := Step(c, s, e).value;
    if e.Collect? {
      assert s.responses == [s.responses[0]] + s'.responses;
    }
  }

  lemma StepFailSeen(c: Config, s: State, e: Event)
    requires ValidConfig(c) && Inv(c, s) && Step(c, s, e).Some?
    ensures FailSeen(Step(c, s, e).value) <==> FailSeen(s) || e.UploadFail?
  {
    if FailSeen(s) {
      FailStaysSeen(c, s, e);
    } else if e.UploadFail? {
      FailIsSeen(c, s, e.w);
    } else {
      FailOnlyByFailing(c, s, e);
    }
  }

  lemma StepCompletionError(c: Config, s: State, e: Event)
    requires Step(c, s, e).Some?
    ensures Step(c, s, e).value.outcome == CompletionError <==> s.outcome == CompletionError || e.CompleteFails?
  {
  }

  predicate SomePartFails(es: seq<Event>) {
    exists i :: 0 <= i < |es| && es[i].UploadFail?
  }

  predicate CompletionFails(es: seq<Event>) {
    exists i :: 0 <= i < |es| && es[i].CompleteFails?
  }

  lemma FailsSnoc(init: seq<Event>, e: Event)
    ensures SomePartFails(init + [e]) <==> SomePartFails(init) || e.UploadFail?
    ensures CompletionFails(init + [e]) <==> CompletionFails(init) || e.CompleteFails?
  {
    var es := init + [e];
    assert es[|init|] == e && forall i :: 0 <= i < |init| ==> es[i] == init[i];
  }

  /** The state knows whether something went wrong on the way. */
  lemma {:induction false} RunExplains(c: Config, es: seq<Event>)
    requires ValidConfig(c) && Run(c, es).Some?
    ensures FailSeen(Run(c, es).value) <==> SomePartFails(es)
    ensures Run(c, es).value.outcome == CompletionError <==> CompletionFails(es)
  {
    if es != [] {
      var init, e := es[..|es| - 1], es[|es| - 1];
      RunExplains(c, init);
      LastStepExplains(c, es);
      FailsSnoc(init, e);
      assert es == init + [e];
    }
  }

  lemma LastStepExplains(c: Config, es: seq<Event>)
    requires ValidConfig(c) && es != [] && Run(c, es).Some?
    ensures var s, s', e := Run(c, es[..|es| - 1]).value, Run(c, es).value, es[|es| - 1];
            && (FailSeen(s') <==> FailSeen(s) || e.UploadFail?)
            && (s'.outcome == CompletionError <==> s.outcome == CompletionError || e.CompleteFails?)
  {
    var init, e := es[..|es| - 1], es[|es| - 1];
    RunKeepsInv(c, init);
    StepFailSeen(c, Run(c, init).value, e);
    StepCompletionError(c, Run(c, init).value, e);
  }

  /** A run that cannot be continued: if no part and no completion was refused, the upload is
      complete, with the parts 1..n in order; otherwise it has ended in an error. */
  lemma StuckRunsHaveEnded(c: Config, es: seq<Event>)
    requires ValidConfig(c) && c.n <= c.capacity
    requires Run(c, es).Some? && Stuck(c, Run(c, es).value)
    ensures var s := Run(c, es).value;
            if SomePartFails(es) || CompletionFails(es) then s.outcome == UploadError || s.outcome == CompletionError
            else s.outcome == Completed(Upto(1, c.n))
  {
    var s := Run(c, es).value;
    RunKeepsInv(c, es);
    RunExplains(c, es);
    if s.outcome == Running {
      var e := NeverStuck(c, s);
    }
    if s.outcome.Completed? {
      CompletedParts(c, es);
      NothingPending(c, s);
    }
  }

  lemma NothingPending(c: Config, s: State)
    requires Inv(c, s) && s.outcome.Completed?
    ensures s.responses == []
  {
  }
}
