/**
 Which cuts of an S3 Select response a caller cannot notice: the exact condition, for a body
 that stops anywhere inside a message.
*/
module SelectCuts {
  import opened SelectDecoder
  import opened SelectEvents
  import opened SelectFraming
  import opened SelectHeaders
  import opened Sequences
  import opened Wrappers

  // ----- the condition -----

  /** The decoder stops with a clean end behind headers that were read from a cut window: they
      ran out where that is not an error, or an error that the pipe takes for its end, and the
      message without a payload is not refused. */
  predicate HeaderCutUnnoticed(xmlOk: Bytes -> bool, headers: Result<HeaderMap, ReadError>) {
    match headers
    case Err(e) => e == EndOfFile
    case Ok(m) =>
      match HandleMessage(xmlOk, FieldsOf(m), "")
      case Halt(closing) => closing == Clean
      case Consume(_, _) => true
  }

  /** So it does behind whole headers with these fields, in front of a rest that is shorter
      than a payload of n bytes and a checksum; summed is what the checksum covers so far. A
      message whose payload the decoder ignores is the odd case: the payload is taken for the
      checksum, and if that happens to be right, for a stream of its own. */
  predicate TailCutUnnoticed(env: Env, xmlOk: Bytes -> bool, f: Fields, n: nat, summed: Bytes, rest: Bytes) {
    match HandleMessage(xmlOk, f, Take(rest, n))
    case Halt(closing) => closing == Clean
    case Consume(out, m) => RestUnnoticed(env, summed + Take(rest, m), Drop(rest, m))
  }

  predicate RestUnnoticed(env: Env, summed: Bytes, rest: Bytes) {
    || rest == ""
    || (|rest| >= 4 && U32(rest) == env.crc(summed) && SeenByReader(DecodeAll(env, "", rest[4..]).1) == Clean)
  }

  /** A body cut inside the message of event e looks complete. */
  predicate CutUnnoticed(env: Env, xmlOk: Bytes -> bool, e: Event, part: Bytes)
    requires EventFits(e)
  {
    var hs := EncodeHeaders(e.headers);
    if |part| < 12 then |part| % 4 == 0
    else if |part| < 12 + |hs| then HeaderCutUnnoticed(xmlOk, ParseHeaders(hs[..|part| - 12], map[]))
    else TailCutUnnoticed(env, xmlOk, FieldsIn(e), |e.payload|, part[..12 + |hs|], part[12 + |hs|..])
  }

  // ----- the decoder on a cut message -----

  /** What was written before does not matter for the end. */
  lemma {:induction false} ClosingIgnoresWritten(env: Env, written: Bytes, b: Bytes)
    ensures DecodeAll(env, written, b).1 == DecodeAll(env, "", b).1
    decreases |b|
  {
    DecodeOneShortens(env, b);
    match DecodeOne(env, b)
    case Stop(_, _) =>
    case Next(out, rest) =>
      ClosingIgnoresWritten(env, written + out, rest);
      ClosingIgnoresWritten(env, "" + out, rest);
  }

  /** The decoder sees a clean end from here on. */
  predicate EndsUnnoticed(env: Env, d: Decoded) {
    match d
    case Stop(_, closing) => SeenByReader(closing) == Clean
    case Next(_, rest) => SeenByReader(DecodeAll(env, "", rest).1) == Clean
  }

  lemma UnnoticedByStep(env: Env, written: Bytes, b: Bytes)
    ensures SeenByReader(DecodeAll(env, written, b).1) == Clean <==> EndsUnnoticed(env, DecodeOne(env, b))
  {
    match DecodeOne(env, b)
    case Stop(_, _) =>
    case Next(out, rest) => ClosingIgnoresWritten(env, written + out, rest);
  }

  /** A message itself never ends the stream with a read error. */
  lemma HaltIsNoReadError(xmlOk: Bytes -> bool, f: Fields, payload: Bytes)
    ensures var e := HandleMessage(xmlOk, f, payload);
            e.Halt? ==> (SeenByReader(e.closing) == Clean <==> e.closing == Clean)
  {
  }

  lemma WindowCut(env: Env, p: Bytes, n: nat, w: Bytes, effect: Effect)
    requires env.handle(w, "") == effect
    ensures EndsUnnoticed(env, DecodeWindow(env, p, w, n, ""))
       <==> (effect.Halt? ==> SeenByReader(effect.closing) == Clean)
  {
  }

  lemma HeaderCut(env: Env, crc: Bytes -> uint32, xmlOk: Bytes -> bool, p: Bytes, n: nat, w: Bytes)
    requires IsSelectEnv(env, crc, xmlOk)
    ensures EndsUnnoticed(env, DecodeWindow(env, p, w, n, "")) <==> HeaderCutUnnoticed(xmlOk, ParseHeaders(w, map[]))
  {
    WindowCut(env, p, n, w, MessageEffect(xmlOk, w, ""));
    HeaderEffect(xmlOk, ParseHeaders(w, map[]), MessageEffect(xmlOk, w, ""));
  }

  lemma HeaderEffect(xmlOk: Bytes -> bool, r: Result<HeaderMap, ReadError>, effect: Effect)
    requires effect == match r
                       case Err(e) => Halt(Broken(Read(e)))
                       case Ok(m) => HandleMessage(xmlOk, FieldsOf(m), "")
    ensures HeaderCutUnnoticed(xmlOk, r) <==> (effect.Halt? ==> SeenByReader(effect.closing) == Clean)
  {
    if r.Ok? {
      HaltIsNoReadError(xmlOk, FieldsOf(r.value), "");
    }
  }

  lemma TailCut(env: Env, xmlOk: Bytes -> bool, f: Fields, p: Bytes, hs: Bytes, n: nat, rest: Bytes)
    requires env.handle(hs, Take(rest, n)) == HandleMessage(xmlOk, f, Take(rest, n))
    ensures EndsUnnoticed(env, DecodeWindow(env, p, hs, n, rest)) <==> TailCutUnnoticed(env, xmlOk, f, n, p + hs, rest)
  {
    HaltIsNoReadError(xmlOk, f, Take(rest, n));
  }

  /** In a body that stops inside the message of an event, behind any well-formed events, the
      caller sees a clean end if and only if the condition holds. */
  lemma CutIsUnnoticedIff(env: Env, crc: Bytes -> uint32, xmlOk: Bytes -> bool, es: seq<Event>, e: Event, part: Bytes)
    requires IsSelectEnv(env, crc, xmlOk) && AllWellFormed(xmlOk, es) && EventFits(e)
    requires part < Frame(env, MessageOf(e))
    ensures SeenByReader(DecodeAll(env, "", Stream(env, xmlOk, es) + part).1) == Clean
       <==> CutUnnoticed(env, xmlOk, e, part)
  {
    RecordsComeFirst(env, crc, xmlOk, es, part);
    UnnoticedByStep(env, RecordsOf(es), part);
    CutMessage(env, crc, xmlOk, e, part);
  }

  lemma CutMessage(env: Env, crc: Bytes -> uint32, xmlOk: Bytes -> bool, e: Event, part: Bytes)
    requires IsSelectEnv(env, crc, xmlOk) && EventFits(e)
    requires part < Frame(env, MessageOf(e))
    ensures EndsUnnoticed(env, DecodeOne(env, part)) <==> CutUnnoticed(env, xmlOk, e, part)
  {
    if |part| < 12 {
      CutInPrelude(env, xmlOk, e, part);
    } else if |part| < 12 + |EncodeHeaders(e.headers)| {
      CutInHeaders(env, crc, xmlOk, e, part);
    } else {
      CutBehindHeaders(env, crc, xmlOk, e, part);
    }
  }

  lemma CutInPrelude(env: Env, xmlOk: Bytes -> bool, e: Event, part: Bytes)
    requires EventFits(e) && |part| < 12
    ensures EndsUnnoticed(env, DecodeOne(env, part)) <==> CutUnnoticed(env, xmlOk, e, part)
  {
  }

  lemma CutInHeaders(env: Env, crc: Bytes -> uint32, xmlOk: Bytes -> bool, e: Event, part: Bytes)
    requires IsSelectEnv(env, crc, xmlOk) && EventFits(e)
    requires part < Frame(env, MessageOf(e)) && 12 <= |part| < 12 + |EncodeHeaders(e.headers)|
    ensures EndsUnnoticed(env, DecodeOne(env, part)) <==> CutUnnoticed(env, xmlOk, e, part)
  {
    var hs := EncodeHeaders(e.headers);
    CutBehindPrelude(env, MessageOf(e), part);
    assert part == part[..12] + part[12..];
    ShortWindow(env, crc, xmlOk, |hs|, |e.payload|, hs[..|part| - 12]);
  }

  lemma ShortWindow(env: Env, crc: Bytes -> uint32, xmlOk: Bytes -> bool, h: nat, n: nat, w: Bytes)
    requires IsSelectEnv(env, crc, xmlOk) && h + n + 16 < TWO_TO_32 && |w| < h
    ensures EndsUnnoticed(env, DecodeOne(env, Prelude(env, h, n) + w))
       <==> HeaderCutUnnoticed(xmlOk, ParseHeaders(w, map[]))
  {
    BehindAnyFraming(env, h, n, w);
    HeaderCut(env, crc, xmlOk, Prelude(env, h, n), n, w);
  }

  lemma CutBehindHeaders(env: Env, crc: Bytes -> uint32, xmlOk: Bytes -> bool, e: Event, part: Bytes)
    requires IsSelectEnv(env, crc, xmlOk) && EventFits(e)
    requires part < Frame(env, MessageOf(e)) && 12 + |EncodeHeaders(e.headers)| <= |part|
    ensures EndsUnnoticed(env, DecodeOne(env, part)) <==> CutUnnoticed(env, xmlOk, e, part)
  {
    CutBehindPrelude(env, MessageOf(e), part);
    assert part == part[..12] + part[12..];
    BehindAnyFraming(env, |EncodeHeaders(e.headers)|, |e.payload|, part[12..]);
    CutTail(env, crc, xmlOk, e, part[..12], part[12 + |EncodeHeaders(e.headers)|..]);
  }

  lemma CutTail(env: Env, crc: Bytes -> uint32, xmlOk: Bytes -> bool, e: Event, p: Bytes, rest: Bytes)
    requires IsSelectEnv(env, crc, xmlOk) && EventFits(e)
    ensures var hs, n := EncodeHeaders(e.headers), |e.payload|;
            var b := hs + rest;
            EndsUnnoticed(env, DecodeWindow(env, p, Take(b, |hs|), n, Drop(b, |hs|)))
            <==> TailCutUnnoticed(env, xmlOk, FieldsIn(e), n, p + hs, rest)
  {
    var hs, n := EncodeHeaders(e.headers), |e.payload|;
    TakeDrop(hs, rest);
    EventEffect(env, crc, xmlOk, e, Take(rest, n));
    TailCut(env, xmlOk, FieldsIn(e), p, hs, n, rest);
  }

  // ----- the condition in lengths -----

  /** Inside header i, j bytes behind its beginning, the condition is on i and j and the headers
      that are there. */
  lemma HeaderCutAt(env: Env, xmlOk: Bytes -> bool, e: Event, i: nat, j: nat, part: Bytes)
    requires EventFits(e) && i < |e.headers| && j < |EncodeHeader(e.headers[i])|
    requires |part| == 12 + |EncodeHeaders(e.headers[..i])| + j
    ensures CutUnnoticed(env, xmlOk, e, part)
       <==> HeaderCutUnnoticed(xmlOk, CutHeader(e.headers[i], j, HeadersOf(e.headers[..i], map[])))
  {
    EncodedInThree(e.headers, i);
    var before, h := EncodeHeaders(e.headers[..i]), EncodeHeader(e.headers[i]);
    var hs := EncodeHeaders(e.headers);
    assert hs[..|part| - 12] == before + h[..j];
    ParseCutHeaders(e.headers, i, j, map[]);
  }

  lemma {:induction false} EncodedInThree(hs: seq<Header>, i: nat)
    requires HeadersFit(hs) && i < |hs|
    ensures EncodeHeaders(hs) == EncodeHeaders(hs[..i]) + (EncodeHeader(hs[i]) + EncodeHeaders(hs[i + 1..]))
    decreases i
  {
    if i == 0 {
      assert EncodeHeaders(hs[..0]) == "";
    } else {
      assert hs[..i][1..] == hs[1..][..i - 1] && hs[1..][i..] == hs[i + 1..];
      EncodedInThree(hs[1..], i - 1);
      var a, b := EncodeHeader(hs[0]), EncodeHeaders(hs[1..][..i - 1]);
      Associates(a, b, EncodeHeader(hs[i]) + EncodeHeaders(hs[i + 1..]));
    }
  }

  /** Behind the headers of a well-formed event: unnoticed up to the end of the payload, if the
      XML decoder does not object, and noticed inside the checksum. */
  lemma TailCutByLength(env: Env, xmlOk: Bytes -> bool, f: Fields, payload: Bytes, summed: Bytes, rest: Bytes)
    requires IsMiddle(xmlOk, f, payload) && |rest| < |payload| + 4
    ensures TailCutUnnoticed(env, xmlOk, f, |payload|, summed, rest)
       <==> |rest| <= |payload| && IsMiddle(xmlOk, f, rest)
  {
    var n, taken := |payload|, Take(rest, |payload|);
    if |rest| <= n {
      assert taken == rest && Drop(rest, |rest|) == "";
      if IsMiddle(xmlOk, f, rest) {
        MiddleEffect(xmlOk, f, rest);
      }
    } else {
      assert |taken| == n && 0 < |Drop(rest, n)| < 4;
      if IsMiddle(xmlOk, f, taken) {
        MiddleEffect(xmlOk, f, taken);
      }
    }
  }

  /** Behind the headers of the end event every cut is unnoticed. */
  lemma EndCutIsUnnoticed(env: Env, xmlOk: Bytes -> bool, f: Fields, n: nat, summed: Bytes, rest: Bytes)
    requires f.messageType == "event" && f.eventType == "End"
    ensures TailCutUnnoticed(env, xmlOk, f, n, summed, rest)
  {
  }
}
