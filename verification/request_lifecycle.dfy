/**
  The life of one `/bid` request as a state machine driven by the events the
  framework delivers: body chunks, the end of the body, a client abort, the
  response stream being destroyed, the delay timer firing and the compression
  callback returning. Each request owns its own `Exchange`; nothing is shared
  between requests except the read-only `Tuning`.

  `sent` records every response the handler hands to the framework, so the
  guarantees "at most one response" and "nothing after an abort" are
  statements about that sequence.
 */
module RequestLifecycle {
  import opened Wrappers
  import opened JsMath
  import opened Config
  import opened PrefixBuffer
  import opened DeadlineSniffer
  import opened DelayPolicy
  import opened ResponseEncoder

  datatype Phase =
    | Receiving                                          // body chunks still arriving
    | Waiting(text: string, tmax: nat, decision: Decision) // timer armed for decision.delayMs
    | Compressing(payload: Payload)                      // gzip callback pending
    | Closed                                             // the handler has nothing left to do

  /** The response-side flags the timer callback consults. */
  datatype ResFlags = ResFlags(headersSent: bool, writableEnded: bool, destroyed: bool)

  datatype Exchange = Exchange(
    phase: Phase,
    aborted: bool,
    res: ResFlags,
    first: seq<byte>,
    acceptEncoding: Option<string>,
    sent: seq<Response>
  )

  datatype Event =
    | Data(chunk: seq<byte>)
    | End(roll: Unit, pick: Unit)   // the two Math.random() draws of the decision
    | ClientAborted
    | ResponseDestroyed
    | TimerFires(now: int)          // Date.now() at the time the timer fires
    | GzipDone(result: Compression)

  /** A request that has just arrived. */
  function Arrive(acceptEncoding: Option<string>): Exchange {
    Exchange(Receiving, false, ResFlags(false, false, false), [], acceptEncoding, [])
  }

  /** The buffered bytes as text, one character per byte. */
  function AsText(b: seq<byte>): (t: string)
    ensures |t| == |b|
    ensures forall k :: 0 <= k < |b| ==> t[k] as int == b[k]
  {
    seq(|b|, k requires 0 <= k < |b| => b[k] as char)
  }

  /** The guard of the timer callback: nothing aborted, sent, ended or destroyed. */
  predicate MaySend(ex: Exchange) {
    !(ex.aborted || ex.res.headersSent || ex.res.writableEnded || ex.res.destroyed)
  }

  /** Handing a response to the framework: it is recorded, and the stream is sent and ended. */
  function Emit(ex: Exchange, r: Response): Exchange {
    ex.(phase := Closed, res := ex.res.(headersSent := true, writableEnded := true), sent := ex.sent + [r])
  }

  /** End of body: sniff the deadline from the prefix and decide the delay. */
  function OnEnd(cfg: Tuning, ex: Exchange, roll: Unit, pick: Unit): (r: Exchange)
    ensures r.phase.Waiting? && r.phase.tmax >= 1
    ensures Admissible(cfg, r.phase.tmax, roll, r.phase.decision)
    ensures r.sent == ex.sent && r.aborted == ex.aborted && r.res == ex.res && r.first == ex.first
  {
    var text := AsText(ex.first);
    var tmax := SniffTmax(text);
    ex.(phase := Waiting(text, tmax, Decide(cfg, tmax, roll, pick)))
  }

  /**
    The timer callback. A failed guard means nothing is written. A passing
    guard hands out exactly one plain response carrying the decided delay and
    the deadline, after which the guard fails; or, when compression is wanted,
    starts compressing that payload without writing yet.
   */
  function OnTimer(cfg: Tuning, ex: Exchange, now: int): (r: Exchange)
    requires ex.phase.Waiting?
    ensures r.aborted == ex.aborted && r.res.destroyed == ex.res.destroyed
    ensures !MaySend(ex) ==> r.sent == ex.sent && r.phase.Closed?
    ensures MaySend(ex) && !WantsGzip(cfg, ex.acceptEncoding) ==>
      && |r.sent| == |ex.sent| + 1 && r.sent[..|ex.sent|] == ex.sent && !MaySend(r)
      && r.sent[|ex.sent|].contentEncoding.None?
      && r.sent[|ex.sent|].body.JsonBody?
      && r.sent[|ex.sent|].body.payload.tookMs == ex.phase.decision.delayMs
      && r.sent[|ex.sent|].body.payload.echoTmax == ex.phase.tmax
    ensures MaySend(ex) && WantsGzip(cfg, ex.acceptEncoding) ==>
      && r.sent == ex.sent && r.phase.Compressing?
      && r.phase.payload.tookMs == ex.phase.decision.delayMs
      && r.phase.payload.echoTmax == ex.phase.tmax
  {
    if !MaySend(ex) then ex.(phase := Closed)
    else
      var p := MakePayload(SniffId(ex.phase.text), ex.phase.tmax, ex.phase.decision.delayMs, now, cfg.blobBytes);
      if WantsGzip(cfg, ex.acceptEncoding) then ex.(phase := Compressing(p))
      else Emit(ex, PlainResponse(p))
  }

  /** The compression callback, re-checking the guard before sending. */
  function OnGzipDone(ex: Exchange, c: Compression): (r: Exchange)
    requires ex.phase.Compressing?
    ensures r.phase.Closed? && !MaySend(r) == (!MaySend(ex) || |r.sent| > |ex.sent|)
    ensures MaySend(ex) ==> r.sent == ex.sent + [AfterCompression(ex.phase.payload, c)]
    ensures !MaySend(ex) ==> r.sent == ex.sent
  {
    if MaySend(ex) then Emit(ex, AfterCompression(ex.phase.payload, c)) else ex.(phase := Closed)
  }

  /** The compression callback as the handler writes it: it sends without consulting the guard. */
  function OnGzipDoneAsWritten(ex: Exchange, c: Compression): (r: Exchange)
    requires ex.phase.Compressing?
    ensures r.sent == ex.sent + [AfterCompression(ex.phase.payload, c)]
    ensures r.aborted == ex.aborted && r.res.destroyed == ex.res.destroyed
  {
    Emit(ex, AfterCompression(ex.phase.payload, c))
  }

  /**
    One event, with the guarded compression callback. Only an abort sets
    `aborted`; responses are only ever appended, one at most per event; and a
    failed guard stays failed with nothing handed out.
   */
  function Step(cfg: Tuning, ex: Exchange, ev: Event): (r: Exchange)
    ensures r.aborted == (ex.aborted || ev.ClientAborted?)
    ensures ex.sent <= r.sent && |r.sent| <= |ex.sent| + 1
    ensures !MaySend(ex) ==> r.sent == ex.sent && !MaySend(r)
  {
    match ev
    case Data(chunk) => if ex.phase.Receiving? then ex.(first := Absorb(ex.first, chunk)) else ex
    case End(roll, pick) => if ex.phase.Receiving? then OnEnd(cfg, ex, roll, pick) else ex
    case ClientAborted => ex.(aborted := true)
    case ResponseDestroyed => ex.(res := ex.res.(destroyed := true))
    case TimerFires(now) => if ex.phase.Waiting? then OnTimer(cfg, ex, now) else ex
    case GzipDone(c) => if ex.phase.Compressing? then OnGzipDone(ex, c) else ex
  }

  /**
    One event, with the compression callback as the handler writes it. It
    agrees with `Step` except on a compression result arriving after the guard
    failed; away from a pending compression a failed guard still silences it.
   */
  function StepAsWritten(cfg: Tuning, ex: Exchange, ev: Event): (r: Exchange)
    ensures !(ev.GzipDone? && ex.phase.Compressing? && !MaySend(ex)) ==> r == Step(cfg, ex, ev)
    ensures ex.sent <= r.sent && |r.sent| <= |ex.sent| + 1
    ensures !MaySend(ex) && !ex.phase.Compressing? ==> r.sent == ex.sent && !MaySend(r) && !r.phase.Compressing?
  {
    match ev
    case GzipDone(c) => if ex.phase.Compressing? then OnGzipDoneAsWritten(ex, c) else ex
    case _ => Step(cfg, ex, ev)
  }

  function Run(cfg: Tuning, ex: Exchange, evs: seq<Event>): Exchange
    decreases |evs|
  {
    if |evs| == 0 then ex else Run(cfg, Step(cfg, ex, evs[0]), evs[1..])
  }

  function RunAsWritten(cfg: Tuning, ex: Exchange, evs: seq<Event>): Exchange
    decreases |evs|
  {
    if |evs| == 0 then ex else RunAsWritten(cfg, StepAsWritten(cfg, ex, evs[0]), evs[1..])
  }

  function DataEvents(chunks: seq<seq<byte>>): (evs: seq<Event>)
    ensures |evs| == |chunks|
  {
    seq(|chunks|, k requires 0 <= k < |chunks| => Data(chunks[k]))
  }

  // ---------------------------------------------------------------------
  // Properties
  // ---------------------------------------------------------------------

  /** At most one response, and only once the handler is done. */
  ghost predicate SingleResponse(ex: Exchange) {
    && |ex.sent| <= 1
    && (|ex.sent| == 1 ==> ex.phase.Closed? && ex.res.headersSent)
  }

  /** Running events one list after another is running their concatenation. */
  lemma {:induction false} RunAppend(cfg: Tuning, ex: Exchange, a: seq<Event>, b: seq<Event>)
    ensures Run(cfg, ex, a + b) == Run(cfg, Run(cfg, ex, a), b)
    decreases |a|
  {
    if |a| > 0 {
      assert (a + b)[0] == a[0];
      assert (a + b)[1..] == a[1..] + b;
      RunAppend(cfg, Step(cfg, ex, a[0]), a[1..], b);
    } else {
      assert a + b == b;
    }
  }

  /** Whatever the events, a request is answered at most once. */
  lemma {:induction false} AtMostOneResponse(cfg: Tuning, ex: Exchange, evs: seq<Event>)
    requires SingleResponse(ex)
    ensures SingleResponse(Run(cfg, ex, evs))
    decreases |evs|
  {
    if |evs| > 0 {
      AtMostOneResponse(cfg, Step(cfg, ex, evs[0]), evs[1..]);
    }
  }

  /**
    Once the guard fails (aborted, headers sent, ended or destroyed) it keeps
    failing, and no further response is handed out.
   */
  lemma {:induction false} GuardedStaysSilent(cfg: Tuning, ex: Exchange, evs: seq<Event>)
    requires !MaySend(ex)
    ensures !MaySend(Run(cfg, ex, evs))
    ensures Run(cfg, ex, evs).sent == ex.sent
    decreases |evs|
  {
    if |evs| > 0 {
      GuardedStaysSilent(cfg, Step(cfg, ex, evs[0]), evs[1..]);
    }
  }

  /** Nothing is handed out after a client abort, wherever in the events it falls. */
  lemma NoWriteAfterAbort(cfg: Tuning, ex: Exchange, evs: seq<Event>, k: nat)
    requires k < |evs| && evs[k] == ClientAborted
    ensures Run(cfg, ex, evs).sent == Run(cfg, ex, evs[..k]).sent
  {
    assert evs == evs[..k] + ([evs[k]] + evs[k + 1..]);
    RunAppend(cfg, ex, evs[..k], [evs[k]] + evs[k + 1..]);
    var before := Run(cfg, ex, evs[..k]);
    RunAppend(cfg, before, [evs[k]], evs[k + 1..]);
    GuardedStaysSilent(cfg, Run(cfg, before, [evs[k]]), evs[k + 1..]);
  }

  /** The handler as written also answers at most once, whatever the events. */
  lemma {:induction false} AtMostOneResponseAsWritten(cfg: Tuning, ex: Exchange, evs: seq<Event>)
    requires SingleResponse(ex)
    ensures SingleResponse(RunAsWritten(cfg, ex, evs))
    decreases |evs|
  {
    if |evs| > 0 {
      AtMostOneResponseAsWritten(cfg, StepAsWritten(cfg, ex, evs[0]), evs[1..]);
    }
  }

  /**
    In the handler as written, a failed guard silences the request as long as
    no compression is pending: the unguarded callback is the only way past it.
   */
  lemma {:induction false} GuardedStaysSilentAsWritten(cfg: Tuning, ex: Exchange, evs: seq<Event>)
    requires !MaySend(ex) && !ex.phase.Compressing?
    ensures RunAsWritten(cfg, ex, evs).sent == ex.sent
    decreases |evs|
  {
    if |evs| > 0 {
      GuardedStaysSilentAsWritten(cfg, StepAsWritten(cfg, ex, evs[0]), evs[1..]);
    }
  }

  /** After one response has been handed out, no event produces another. */
  lemma SecondAttemptSuppressed(cfg: Tuning, ex: Exchange, evs: seq<Event>)
    requires SingleResponse(ex) && |ex.sent| == 1
    ensures Run(cfg, ex, evs).sent == ex.sent
  {
    GuardedStaysSilent(cfg, ex, evs);
  }

  /** Draining chunks from a fresh request keeps exactly the buffered prefix. */
  lemma {:induction false} RunDataBuffers(cfg: Tuning, acceptEncoding: Option<string>, chunks: seq<seq<byte>>)
    ensures Run(cfg, Arrive(acceptEncoding), DataEvents(chunks)) == Arrive(acceptEncoding).(first := Buffered(chunks))
  {
    if |chunks| > 0 {
      var init := chunks[..|chunks| - 1];
      RunDataBuffers(cfg, acceptEncoding, init);
      assert DataEvents(chunks) == DataEvents(init) + [Data(chunks[|chunks| - 1])];
      RunAppend(cfg, Arrive(acceptEncoding), DataEvents(init), [Data(chunks[|chunks| - 1])]);
    }
  }

  /** The payload for a request whose buffered prefix is `first`, ended with these draws and fired at `now`. */
  function PayloadFor(cfg: Tuning, first: seq<byte>, roll: Unit, pick: Unit, now: int): Payload {
    var text := AsText(first);
    var tmax := SniffTmax(text);
    MakePayload(SniffId(text), tmax, Decide(cfg, tmax, roll, pick).delayMs, now, cfg.blobBytes)
  }

  /** The events after the body: the end, the timer, and the compression callback if compression is wanted. */
  function AfterBody(cfg: Tuning, acceptEncoding: Option<string>, roll: Unit, pick: Unit, now: int, c: Compression): seq<Event> {
    [End(roll, pick), TimerFires(now)] + (if WantsGzip(cfg, acceptEncoding) then [GzipDone(c)] else [])
  }

  /** The events of an undisturbed request: its chunks, then the events after the body. */
  function Undisturbed(cfg: Tuning, acceptEncoding: Option<string>, chunks: seq<seq<byte>>, roll: Unit, pick: Unit, now: int, c: Compression): seq<Event> {
    DataEvents(chunks) + AfterBody(cfg, acceptEncoding, roll, pick, now, c)
  }

  /** The timer of a request nobody disturbed either sends the plain payload or starts compressing it. */
  lemma EndThenFire(cfg: Tuning, ex: Exchange, roll: Unit, pick: Unit, now: int)
    requires ex.phase.Receiving? && MaySend(ex) && ex.sent == []
    ensures var fired := Step(cfg, Step(cfg, ex, End(roll, pick)), TimerFires(now));
      var p := PayloadFor(cfg, ex.first, roll, pick, now);
      && (WantsGzip(cfg, ex.acceptEncoding) ==> fired == ex.(phase := Compressing(p)))
      && (!WantsGzip(cfg, ex.acceptEncoding) ==> fired.sent == [PlainResponse(p)] && fired.phase.Closed?)
  {
  }

  /** Once the body is buffered, the events after it yield exactly one response. */
  lemma AfterBodyAnswersOnce(cfg: Tuning, ex: Exchange, roll: Unit, pick: Unit, now: int, c: Compression)
    requires ex.phase.Receiving? && MaySend(ex) && ex.sent == []
    ensures Run(cfg, ex, AfterBody(cfg, ex.acceptEncoding, roll, pick, now, c)).sent
         == [Encode(cfg, ex.acceptEncoding, PayloadFor(cfg, ex.first, roll, pick, now), c)]
  {
    var evs := AfterBody(cfg, ex.acceptEncoding, roll, pick, now, c);
    var waiting := Step(cfg, ex, End(roll, pick));
    var fired := Step(cfg, waiting, TimerFires(now));
    EndThenFire(cfg, ex, roll, pick, now);
    assert Run(cfg, ex, evs) == Run(cfg, fired, evs[2..]);
    var p := PayloadFor(cfg, ex.first, roll, pick, now);
    if WantsGzip(cfg, ex.acceptEncoding) {
      assert evs[2..] == [GzipDone(c)];
      assert fired == ex.(phase := Compressing(p));
      var done := Step(cfg, fired, GzipDone(c));
      assert done == Emit(fired, AfterCompression(p, c));
      assert Run(cfg, fired, [GzipDone(c)]) == Run(cfg, done, []) == done;
      assert Encode(cfg, ex.acceptEncoding, p, c) == AfterCompression(p, c);
    } else {
      assert evs[2..] == [];
      assert Run(cfg, fired, []) == fired;
      assert Encode(cfg, ex.acceptEncoding, p, c) == PlainResponse(p);
    }
  }

  /**
    An undisturbed request is answered exactly once, with the payload built
    from its sniffed id and deadline and its decided delay, encoded as the
    negotiation and the compression outcome dictate.
   */
  lemma UndisturbedAnsweredOnce(cfg: Tuning, acceptEncoding: Option<string>, chunks: seq<seq<byte>>, roll: Unit, pick: Unit, now: int, c: Compression)
    ensures Run(cfg, Arrive(acceptEncoding), Undisturbed(cfg, acceptEncoding, chunks, roll, pick, now, c)).sent
         == [Encode(cfg, acceptEncoding, PayloadFor(cfg, Buffered(chunks), roll, pick, now), c)]
  {
    var start := Arrive(acceptEncoding);
    RunAppend(cfg, start, DataEvents(chunks), AfterBody(cfg, acceptEncoding, roll, pick, now, c));
    RunDataBuffers(cfg, acceptEncoding, chunks);
    AfterBodyAnswersOnce(cfg, start.(first := Buffered(chunks)), roll, pick, now, c);
  }

  // ---------------------------------------------------------------------
  // The compression callback as written
  // ---------------------------------------------------------------------

  /** Events that never disturb the request: no client abort and no destroyed response. */
  ghost predicate Quiet(evs: seq<Event>) {
    forall k :: 0 <= k < |evs| ==> !evs[k].ClientAborted? && !evs[k].ResponseDestroyed?
  }

  /** A pending compression is only ever one whose guard still passes. */
  ghost predicate CompressionGuarded(ex: Exchange) {
    ex.phase.Compressing? ==> MaySend(ex)
  }

  /**
    Without aborts or destroyed responses, the handler as written and the
    corrected one run identically: the unguarded callback only differs once
    the guard has failed during compression, and quiet events never fail it
    while a compression is pending.
   */
  lemma {:induction false} RunAgree(cfg: Tuning, ex: Exchange, evs: seq<Event>)
    requires CompressionGuarded(ex) && Quiet(evs)
    ensures RunAsWritten(cfg, ex, evs) == Run(cfg, ex, evs)
    decreases |evs|
  {
    if |evs| > 0 {
      var next := Step(cfg, ex, evs[0]);
      assert StepAsWritten(cfg, ex, evs[0]) == next;
      assert CompressionGuarded(next);
      assert Quiet(evs[1..]) by {
        forall k | 0 <= k < |evs[1..]|
          ensures !evs[1..][k].ClientAborted? && !evs[1..][k].ResponseDestroyed?
        {
          assert evs[1..][k] == evs[k + 1];
        }
      }
      RunAgree(cfg, next, evs[1..]);
    }
  }

  /** The handler as written answers the events after the body exactly once, as the corrected one does. */
  lemma AfterBodyAnswersOnceAsWritten(cfg: Tuning, ex: Exchange, roll: Unit, pick: Unit, now: int, c: Compression)
    requires ex.phase.Receiving? && MaySend(ex) && ex.sent == []
    ensures RunAsWritten(cfg, ex, AfterBody(cfg, ex.acceptEncoding, roll, pick, now, c)).sent
         == [Encode(cfg, ex.acceptEncoding, PayloadFor(cfg, ex.first, roll, pick, now), c)]
  {
    var evs := AfterBody(cfg, ex.acceptEncoding, roll, pick, now, c);
    assert Quiet(evs);
    RunAgree(cfg, ex, evs);
    AfterBodyAnswersOnce(cfg, ex, roll, pick, now, c);
  }

  /** The handler as written answers an undisturbed request exactly once, with the same response. */
  lemma UndisturbedAnsweredOnceAsWritten(cfg: Tuning, acceptEncoding: Option<string>, chunks: seq<seq<byte>>, roll: Unit, pick: Unit, now: int, c: Compression)
    ensures RunAsWritten(cfg, Arrive(acceptEncoding), Undisturbed(cfg, acceptEncoding, chunks, roll, pick, now, c)).sent
         == [Encode(cfg, acceptEncoding, PayloadFor(cfg, Buffered(chunks), roll, pick, now), c)]
  {
    var data := DataEvents(chunks);
    var after := AfterBody(cfg, acceptEncoding, roll, pick, now, c);
    var evs := Undisturbed(cfg, acceptEncoding, chunks, roll, pick, now, c);
    assert Quiet(evs) by {
      forall k | 0 <= k < |evs|
        ensures !evs[k].ClientAborted? && !evs[k].ResponseDestroyed?
      {
        if k < |data| {
          assert evs[k] == data[k] == Data(chunks[k]);
        } else {
          assert evs[k] == after[k - |data|];
        }
      }
    }
    RunAgree(cfg, Arrive(acceptEncoding), evs);
    UndisturbedAnsweredOnce(cfg, acceptEncoding, chunks, roll, pick, now, c);
  }

  /**
    With compression wanted, a client abort that arrives while compression is
    in progress does not stop the handler as written from sending.
   */
  lemma AsWrittenWritesAfterAbort()
    ensures var cfg := Defaults.(gzipEnv := Some("1"));
      var evs := [End(0.5, 0.0), TimerFires(0), ClientAborted, GzipDone(CompressFailed)];
      && RunAsWritten(cfg, Arrive(Some("gzip")), evs[..3]).aborted
      && RunAsWritten(cfg, Arrive(Some("gzip")), evs[..3]).sent == []
      && |RunAsWritten(cfg, Arrive(Some("gzip")), evs).sent| == 1
  {
    var cfg := Defaults.(gzipEnv := Some("1"));
    var evs := [End(0.5, 0.0), TimerFires(0), ClientAborted, GzipDone(CompressFailed)];
    assert WantsGzip(cfg, Some("gzip")) by {
      assert OccursAt("gzip", "gzip", 0);
    }
    var ex0 := Arrive(Some("gzip"));
    var ex1 := StepAsWritten(cfg, ex0, evs[0]);
    var ex2 := StepAsWritten(cfg, ex1, evs[1]);
    assert ex2.phase.Compressing? && ex2.sent == [];
    var ex3 := StepAsWritten(cfg, ex2, evs[2]);
    assert ex3.aborted && ex3.phase.Compressing?;
    var ex4 := StepAsWritten(cfg, ex3, evs[3]);
    assert |ex4.sent| == 1;
    assert RunAsWritten(cfg, ex0, evs[..3]) == RunAsWritten(cfg, ex1, evs[1..3]) == RunAsWritten(cfg, ex2, evs[2..3]) == ex3;
    assert RunAsWritten(cfg, ex0, evs) == RunAsWritten(cfg, ex1, evs[1..]) == RunAsWritten(cfg, ex2, evs[2..]) == RunAsWritten(cfg, ex3, evs[3..]) == ex4;
  }
}
