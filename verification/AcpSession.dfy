/** The Agent Client Protocol session of `src/agent/acp.rs`: a reader task that splits the
    agent's output into two queues, and the exchange that drains them concurrently. A
    schedule says, step by step, whether the reader moves or which branch `select!`
    takes; everything is proved for every schedule. */
module AcpSession {
  import opened Wrappers

  const MAX_FRAME: nat := 1024 * 1024
  const MAX_BUFFER: nat := 16 * 1024 * 1024
  const REQUEST_SLOTS: nat := 256
  const RESPONSE_SLOTS: nat := 8

  datatype Method = Update | FsRead | FsWrite | Permission | Unknown

  /** A line of the agent's output. `size` is its length, `params` that of its parameters. */
  datatype Frame =
    | Message(verb: Method, id: Option<nat>, size: nat, params: nat)
    | Response(id: Option<nat>, failed: bool, size: nat)
    | Malformed(size: nat)

  datatype Answer = FsResult(ok: bool) | Outcome(selected: Option<nat>) | MethodNotFound

  /** What the client writes to the agent. */
  datatype Out = Call(id: nat) | Cancel | Reply(id: nat, answer: Answer)

  datatype TransportError = FrameTooLong | BadJson | BufferFull | QueueFull

  /** The driver's side: what it selects for a permission request, and whether a file
      operation succeeds. */
  datatype Hooks = Hooks(select: Frame -> Option<nat>, fs: Frame -> bool)

  /** Who moves next: the reader task, or a ready branch of `select!`. */
  datatype Move = ReaderMoves | StopFires | GraceEnds | ResponseReady | RequestReady

  datatype Ended =
    | Answered | Failed
    | Transport(e: TransportError) | Closed | NoStop | OutputTooLong | StillWaiting

  /** The messages, requests and notifications alike, of a stretch of output. */
  function Messages(s: seq<Frame>): seq<Frame> {
    if s == [] then []
    else
      var last := s[|s| - 1];
      Messages(s[..|s| - 1]) + if last.Message? then [last] else []
  }

  function Responses(s: seq<Frame>): seq<Frame> {
    if s == [] then []
    else
      var last := s[|s| - 1];
      Responses(s[..|s| - 1]) + if last.Response? then [last] else []
  }

  function Size(q: seq<Frame>): nat {
    if q == [] then 0 else q[0].size + Size(q[1..])
  }

  /** The messages that want a reply: all that carry an id but session updates. */
  function RepliesDue(s: seq<Frame>): seq<Frame> {
    if s == [] then []
    else
      var last := s[|s| - 1];
      RepliesDue(s[..|s| - 1]) + if WantsReply(last) then [last] else []
  }

  predicate WantsReply(f: Frame) {
    f.Message? && f.verb != Update && f.id.Some?
  }

  /** A reply, and whether the client was stopping when it went out. */
  datatype Told = Told(out: Out, stopping: bool)

  function RepliesSent(s: seq<Out>, stops: seq<bool>): seq<Told>
    requires |s| == |stops|
  {
    if s == [] then []
    else
      var n := |s| - 1;
      RepliesSent(s[..n], stops[..n]) + if s[n].Reply? then [Told(s[n], stops[n])] else []
  }

  /** The output a stretch of messages counts for: the parameters of its updates. */
  function Output(s: seq<Frame>): nat {
    if s == [] then 0
    else
      var last := s[|s| - 1];
      Output(s[..|s| - 1]) + if last.Message? && last.verb.Update? then last.params else 0
  }

  function Count(s: seq<Move>, m: Move): nat {
    if s == [] then 0 else Count(s[..|s| - 1], m) + if s[|s| - 1] == m then 1 else 0
  }

  /** `told` is the proper reply to `f`: a permission is refused exactly while stopping. */
  predicate Fits(f: Frame, told: Told, hooks: Hooks) {
    var out := told.out;
    WantsReply(f) && out.Reply? && out.id == f.id.value &&
    match f.verb
    case Permission => out.answer == Outcome(if told.stopping then None else hooks.select(f))
    case Unknown => out.answer == MethodNotFound
    case FsRead => out.answer == FsResult(hooks.fs(f))
    case FsWrite => out.answer == FsResult(hooks.fs(f))
    case Update => false
  }

  /** Every message due a reply has exactly one, its own, in order. */
  ghost predicate AllAnswered(due: seq<Frame>, replies: seq<Told>, hooks: Hooks) {
    |due| == |replies| && forall i :: 0 <= i < |due| ==> Fits(due[i], replies[i], hooks)
  }

  /** At most one cancel, and every permission answered after it is answered cancelled. */
  ghost predicate QuietAfterCancel(log: seq<Out>) {
    forall i, j :: 0 <= i < j < |log| && log[i] == Cancel ==>
      log[j] != Cancel && (log[j].Reply? && log[j].answer.Outcome? ==> log[j].answer.selected == None)
  }

  /** From `from` on, the client was stopping exactly if it had begun so or a cancel had
      gone out by then. */
  ghost predicate Timely(log: seq<Out>, stops: seq<bool>, from: nat, stopping: bool)
    requires |log| == |stops|
  {
    forall j :: from <= j < |log| ==> (stops[j] <==> stopping || Cancel in log[from..j + 1])
  }

  /** The frames a reader lets through: short enough, and valid JSON. */
  ghost predicate WellFramed(s: seq<Frame>) {
    forall f :: f in s ==> f.size <= 1048576 && !f.Malformed?
  }

  lemma SizeAppend(q: seq<Frame>, f: Frame)
    ensures Size(q + [f]) == Size(q) + f.size
  {
    if q != [] {
      assert (q + [f])[1..] == q[1..] + [f];
      SizeAppend(q[1..], f);
    }
  }

  lemma {:induction false} MessagesOfPrefix(s: seq<Frame>, p: nat)
    requires p <= |s|
    ensures Messages(s[..p]) <= Messages(s)
  {
    if p < |s| {
      assert s[..|s| - 1][..p] == s[..p];
      MessagesOfPrefix(s[..|s| - 1], p);
    } else {
      assert s[..p] == s;
    }
  }

  /** The response that follows those already taken sits somewhere on the stream. */
  lemma {:induction false} FindResponse(s: seq<Frame>, taken: seq<Frame>, f: Frame) returns (p: nat)
    requires taken + [f] <= Responses(s)
    ensures p < |s| && s[p] == f && f.Response? && Responses(s[..p]) == taken
  {
    var front, last := s[..|s| - 1], s[|s| - 1];
    if taken + [f] <= Responses(front) {
      p := FindResponse(front, taken, f);
      assert front[..p] == s[..p];
    } else {
      p := |s| - 1;
      assert |Responses(front)| == |taken|;
      assert Responses(front) == (taken + [f])[..|taken|] == taken;
      assert Responses(s)[|taken|] == f;
    }
  }

  lemma PushSent(log: seq<Out>, stops: seq<bool>, out: Out, stopping: bool)
    requires |log| == |stops|
    ensures RepliesSent(log + [out], stops + [stopping])
         == if out.Reply? then RepliesSent(log, stops) + [Told(out, stopping)] else RepliesSent(log, stops)
  {
    assert (log + [out])[..|log|] == log && (stops + [stopping])[..|log|] == stops;
  }

  lemma PushOutput(s: seq<Frame>, from: nat, f: Frame)
    requires from <= |s|
    ensures Output((s + [f])[from..]) == Output(s[from..]) + if f.Message? && f.verb.Update? then f.params else 0
  {
    assert (s + [f])[from..][..|s| - from] == s[from..];
  }

  lemma PushCount(s: seq<Move>, k: nat, m: Move)
    requires k < |s|
    ensures Count(s[..k + 1], m) == Count(s[..k], m) + if s[k] == m then 1 else 0
  {
    assert s[..k + 1][..k] == s[..k];
  }

  /** Replies alone keep the times in order. */
  lemma TimelyReplies(log: seq<Out>, stops: seq<bool>, now: seq<Out>, nowStops: seq<bool>, from: nat, c0: bool, c: bool)
    requires |log| == |stops| && |now| == |nowStops| && from <= |log| && log <= now && stops <= nowStops
    requires Timely(log, stops, from, c0) && (c <==> c0 || Cancel in log[from..])
    requires forall j :: |log| <= j < |now| ==> now[j].Reply? && nowStops[j] == c
    ensures Timely(now, nowStops, from, c0) && (c <==> c0 || Cancel in now[from..])
  {
    forall j | from <= j < |now| ensures nowStops[j] <==> c0 || Cancel in now[from..j + 1] {
      if j < |log| {
        assert now[from..j + 1] == log[from..j + 1] && nowStops[j] == stops[j];
      } else {
        StillNoCancel(log, now, from, j + 1);
      }
    }
    StillNoCancel(log, now, from, |now|);
    assert now[from..|now|] == now[from..];
  }

  lemma StillNoCancel(log: seq<Out>, now: seq<Out>, from: nat, to: nat)
    requires from <= |log| <= to <= |now| && log <= now
    requires forall j :: |log| <= j < |now| ==> now[j].Reply?
    ensures Cancel in now[from..to] <==> Cancel in log[from..]
  {
    assert now[from..to] == log[from..] + now[|log|..to];
  }

  lemma TimelyPush(log: seq<Out>, stops: seq<bool>, from: nat, c0: bool, out: Out, c: bool)
    requires |log| == |stops| && from <= |log| && Timely(log, stops, from, c0)
    requires c <==> c0 || Cancel in log[from..] || out == Cancel
    ensures Timely(log + [out], stops + [c], from, c0) && (c <==> c0 || Cancel in (log + [out])[from..])
  {
    var all := log + [out];
    assert all[from..|all|] == all[from..] == log[from..] + [out];
    forall j | from <= j < |all| ensures (stops + [c])[j] <==> c0 || Cancel in all[from..j + 1] {
      if j < |log| {
        assert all[from..j + 1] == log[from..j + 1];
      }
    }
  }

  lemma PushDue(s: seq<Frame>, f: Frame)
    ensures RepliesDue(s + [f]) == if WantsReply(f) then RepliesDue(s) + [f] else RepliesDue(s)
  {
    assert (s + [f])[..|s|] == s;
  }

  /** Servicing one more message, and replying to it, keeps every reply in place. */
  lemma AnsweredReply(serviced: seq<Frame>, f: Frame, log: seq<Out>, stops: seq<bool>, told: Told, hooks: Hooks)
    requires |log| == |stops| && AllAnswered(RepliesDue(serviced), RepliesSent(log, stops), hooks)
    requires Fits(f, told, hooks)
    ensures AllAnswered(RepliesDue(serviced + [f]), RepliesSent(log + [told.out], stops + [told.stopping]), hooks)
  {
    hide AllAnswered, RepliesDue, RepliesSent;
    PushDue(serviced, f);
    PushSent(log, stops, told.out, told.stopping);
    AnswerOne(RepliesDue(serviced), RepliesSent(log, stops), f, told, hooks);
  }

  lemma AnswerOne(due: seq<Frame>, replies: seq<Told>, f: Frame, told: Told, hooks: Hooks)
    requires AllAnswered(due, replies, hooks) && Fits(f, told, hooks)
    ensures AllAnswered(due + [f], replies + [told], hooks)
  {
    hide Fits;
  }

  lemma SizeTail(q: seq<Frame>)
    requires q != []
    ensures Size(q[1..]) <= Size(q)
  {
  }

  lemma QuietCancel(log: seq<Out>)
    requires Cancel !in log
    ensures QuietAfterCancel(log + [Cancel])
  {
    forall i | 0 <= i < |log| ensures log[i] != Cancel { assert log[i] in log; }
  }

  lemma QuietReplies(log: seq<Out>, more: seq<Out>, cancelling: bool)
    requires QuietAfterCancel(log) && (Cancel in log ==> cancelling)
    requires forall o :: o in more ==> o.Reply? && (cancelling && o.answer.Outcome? ==> o.answer.selected == None)
    ensures QuietAfterCancel(log + more)
  {
    var all := log + more;
    forall i, j | 0 <= i < j < |all| && all[i] == Cancel
      ensures all[j] != Cancel && (all[j].Reply? && all[j].answer.Outcome? ==> all[j].answer.selected == None)
    {
      assert forall k :: |log| <= k < |all| ==> all[k] in more;
      assert i < |log| ==> all[i] in log;
      assert j >= |log| ==> all[j] in more;
    }
  }

  lemma {:induction false} MessagesAreMessages(s: seq<Frame>)
    ensures forall f :: f in Messages(s) ==> f.Message?
  {
    if s != [] {
      MessagesAreMessages(s[..|s| - 1]);
    }
  }

  lemma PushRead(s: seq<Frame>, f: Frame)
    ensures Messages(s + [f]) == if f.Message? then Messages(s) + [f] else Messages(s)
    ensures Responses(s + [f]) == if f.Response? then Responses(s) + [f] else Responses(s)
  {
    assert (s + [f])[..|s|] == s;
    assert Messages(s) + [] == Messages(s) && Responses(s) + [] == Responses(s);
  }

  lemma OneMoreRead(s: seq<Frame>, at: nat)
    requires at < |s|
    ensures s[..at + 1] == s[..at] + [s[at]]
  {
  }

  lemma Assoc(a: seq<Frame>, b: seq<Frame>, f: Frame)
    ensures (a + b) + [f] == a + (b + [f])
  {
  }

  /** Where an exchange began: what had been sent, and whether the client was stopping. */
  datatype Start = Start(log: seq<Out>, stopping: bool)

  /** How far a session has come. */
  datatype Tally = Tally(at: nat, reading: bool, taken: nat, serviced: nat, requests: nat, cancelling: bool)

  /** The moves an exchange has made while it waits: each has had its effect. */
  ghost predicate Moved(moves: seq<Move>, canStop: bool, was: Tally, now: Tally) {
    && (now.reading ==> was.reading && now.at == was.at + Count(moves, ReaderMoves))
    && (canStop && StopFires in moves ==> now.cancelling)
    && (!was.reading ==>
          && now.taken == was.taken + Count(moves, ResponseReady)
          && now.serviced == was.serviced + Min(Count(moves, RequestReady), was.requests)
          && now.serviced + now.requests == was.serviced + was.requests)
  }

  /** What one more move does to an exchange that goes on waiting. */
  ghost predicate Moves(m: Move, canStop: bool, was: Tally, now: Tally) {
    && (now.reading ==> was.reading && now.at == was.at + if m.ReaderMoves? then 1 else 0)
    && (was.cancelling || (canStop && m.StopFires?) ==> now.cancelling)
    && (!was.reading ==>
          && now.taken == was.taken + (if m.ResponseReady? then 1 else 0)
          && now.serviced == was.serviced + (if m.RequestReady? && was.requests > 0 then 1 else 0)
          && now.serviced + now.requests == was.serviced + was.requests)
  }

  /** One of the last two moves was the reader's. */
  predicate JustRead(moves: seq<Move>) {
    var n := |moves|;
    (n >= 1 && moves[n - 1].ReaderMoves?) || (n >= 2 && moves[n - 2].ReaderMoves?)
  }

  lemma MovesAddUp(schedule: seq<Move>, k: nat, canStop: bool, was: Tally, mid: Tally, now: Tally)
    requires k < |schedule| && Moved(schedule[..k], canStop, was, mid) && Moves(schedule[k], canStop, mid, now)
    ensures Moved(schedule[..k + 1], canStop, was, now)
  {
    hide Count;
    PushCount(schedule, k, ReaderMoves);
    PushCount(schedule, k, ResponseReady);
    PushCount(schedule, k, RequestReady);
    assert schedule[..k + 1] == schedule[..k] + [schedule[k]];
  }

  class Session {
    /** Everything the agent will ever write, a line at a time. */
    const stream: seq<Frame>
    const hooks: Hooks
    var sessionId: Option<nat>

    // The reader task.
    var at: nat
    var reading: bool
    var error: Option<TransportError>
    var requests: seq<Frame>
    var responses: seq<Frame>

    // The client.
    var nextId: nat
    var cancelling: bool
    var outputBytes: nat
    var sent: seq<Out>
    ghost var serviced: seq<Frame>
    ghost var taken: seq<Frame>
    ghost var stops: seq<bool>
    ghost var counted: nat

    constructor (stream: seq<Frame>, hooks: Hooks)
      ensures Valid() && this.stream == stream && serviced == [] && taken == [] && sent == [] && at == 0
      ensures reading && error == None && !cancelling && nextId == 1 && sessionId == None
    {
      this.stream, this.hooks, sessionId := stream, hooks, None;
      at, reading, error, requests, responses := 0, true, None, [], [];
      nextId, cancelling, outputBytes, sent, serviced, taken := 1, false, 0, [], [], [];
      stops, counted := [], 0;
    }

    /** Nothing read is lost, repeated or reordered: what was serviced, then what is
        queued, are the messages read so far; likewise for responses. Every request
        serviced has had exactly its reply, in order. The turn's output is that of the
        updates serviced since it was reset. Frames and queues stay within bounds. */
    ghost predicate Valid()
      reads this
    {
      && at <= |stream| && WellFramed(stream[..at])
      && serviced + requests == Messages(stream[..at])
      && taken + responses == Responses(stream[..at])
      && |stops| == |sent| && AllAnswered(RepliesDue(serviced), RepliesSent(sent, stops), hooks)
      && counted <= |serviced| && outputBytes == Output(serviced[counted..])
      && |requests| <= 256 && |responses| <= 8
      && Size(requests) + Size(responses) <= 16777216
    }

    /** One frame, if there is one: check it, charge the buffer, and route it. */
    method ReaderStep()
      requires Valid()
      modifies this`at, this`reading, this`error, this`requests, this`responses
      ensures Valid() && (reading ==> old(reading)) && old(at) <= at <= old(at) + 1
      ensures at == old(at) ==> requests == old(requests) && responses == old(responses)
      ensures !old(reading) || old(at) == |stream| ==> at == old(at) && error == old(error) && !reading
      ensures old(reading) && old(at) < |stream| ==>
        var f := stream[old(at)];
        var fits := Size(old(requests)) + Size(old(responses)) + f.size <= 16777216;
        var room := if f.Message? then |old(requests)| < 256 else |old(responses)| < 8;
        if f.size <= 1048576 && !f.Malformed? && fits && room then
          at == old(at) + 1 && error == old(error) && reading
          && requests == old(requests) + (if f.Message? then [f] else [])
          && responses == old(responses) + (if f.Message? then [] else [f])
        else
          at == old(at) && !reading && error.Some?
          && (error.value.FrameTooLong? <==> f.size > 1048576)
          && (error.value.BadJson? <==> f.Malformed? && f.size <= 1048576)
          && (error.value.QueueFull? <==> f.size <= 1048576 && !f.Malformed? && fits)
    {
      hide RepliesSent, RepliesDue, AllAnswered, Messages, Responses, Size, Output, WellFramed;
      if !reading {
        return;
      }
      if at == |stream| {
        reading := false;
        return;
      }
      var frame := stream[at];
      if frame.size > MAX_FRAME {
        error, reading := Some(FrameTooLong), false;
        return;
      }
      if frame.Malformed? {
        error, reading := Some(BadJson), false;
        return;
      }
      if Size(requests) + Size(responses) + frame.size > MAX_BUFFER {
        error, reading := Some(BufferFull), false;
        return;
      }
      if frame.Message? {
        if |requests| == REQUEST_SLOTS {
          error, reading := Some(QueueFull), false;
          return;
        }
      } else if |responses| == RESPONSE_SLOTS {
        error, reading := Some(QueueFull), false;
        return;
      }
      Enqueue(frame);
    }

    /** Route the next frame to the queue it belongs to. */
    method Enqueue(frame: Frame)
      requires Valid() && at < |stream| && frame == stream[at] && !frame.Malformed? && frame.size <= 1048576
      requires Size(requests) + Size(responses) + frame.size <= 16777216
      requires if frame.Message? then |requests| < 256 else |responses| < 8
      modifies this`at, this`requests, this`responses
      ensures Valid() && at == old(at) + 1
      ensures requests == old(requests) + if frame.Message? then [frame] else []
      ensures responses == old(responses) + if frame.Message? then [] else [frame]
    {
      hide RepliesSent, RepliesDue, AllAnswered, Messages, Responses, Size, Output;
      PushRead(stream[..at], frame);
      OneMoreRead(stream, at);
      if frame.Message? {
        SizeAppend(requests, frame);
        Assoc(serviced, requests, frame);
        requests := requests + [frame];
      } else {
        SizeAppend(responses, frame);
        Assoc(taken, responses, frame);
        responses := responses + [frame];
      }
      at := at + 1;
    }

    method Send(out: Out)
      modifies this`sent, this`stops
      ensures sent == old(sent) + [out] && stops == old(stops) + [cancelling]
    {
      sent, stops := sent + [out], stops + [cancelling];
    }

    method SendReply(id: Option<nat>, answer: Answer)
      modifies this`sent, this`stops
      ensures sent == old(sent) + if id.Some? then [Reply(id.value, answer)] else []
      ensures stops == old(stops) + if id.Some? then [cancelling] else []
    {
      if id.Some? {
        Send(Reply(id.value, answer));
      }
    }

    /** Handle one message: count an update's output, or reply if a reply is wanted. */
    method Handle(frame: Frame) returns (ok: bool)
      requires frame.Message?
      modifies this`sent, this`stops, this`outputBytes
      ensures outputBytes == old(outputBytes) + (if frame.verb.Update? then frame.params else 0)
      ensures ok <==> frame.verb.Update? ==> outputBytes <= 16777216
      ensures frame.verb.Update? || frame.id.None? ==> sent == old(sent) && stops == old(stops)
      ensures !frame.verb.Update? && frame.id.Some? ==>
        && stops == old(stops) + [cancelling]
        && sent == old(sent) + [Reply(frame.id.value,
             match frame.verb
             case Permission => Outcome(if cancelling then None else hooks.select(frame))
             case Unknown => MethodNotFound
             case _ => FsResult(hooks.fs(frame)))]
    {
      ok := true;
      match frame.verb {
        case Update =>
          outputBytes := outputBytes + frame.params;
          ok := outputBytes <= MAX_BUFFER;
        case FsRead => SendReply(frame.id, FsResult(hooks.fs(frame)));
        case FsWrite => SendReply(frame.id, FsResult(hooks.fs(frame)));
        case Permission =>
          if cancelling {
            SendReply(frame.id, Outcome(None));
          } else {
            SendReply(frame.id, Outcome(hooks.select(frame)));
          }
        case Unknown =>
          if frame.id.Some? {
            SendReply(frame.id, MethodNotFound);
          }
      }
    }

    /** The next queued message, handled; false if the turn's output got too long. */
    method ServiceNext() returns (ok: bool)
      requires Valid() && requests != []
      modifies this`requests, this`serviced, this`sent, this`stops, this`outputBytes
      ensures Valid() && serviced == old(serviced) + [old(requests)[0]] && requests == old(requests)[1..]
      ensures var frame := old(requests)[0];
        && frame.Message?
        && outputBytes == old(outputBytes) + (if frame.verb.Update? then frame.params else 0)
        && (ok <==> frame.verb.Update? ==> outputBytes <= 16777216)
        && (frame.verb.Update? || frame.id.None? ==> sent == old(sent) && stops == old(stops))
        && (!frame.verb.Update? && frame.id.Some? ==>
              && stops == old(stops) + [cancelling]
              && sent == old(sent) + [Reply(frame.id.value,
                   match frame.verb
                   case Permission => Outcome(if cancelling then None else hooks.select(frame))
                   case Unknown => MethodNotFound
                   case _ => FsResult(hooks.fs(frame)))])
    {
      hide Messages, Responses, RepliesSent, RepliesDue, Size, AllAnswered, Output, WellFramed;
      var frame := requests[0];
      assert frame in serviced + requests;
      MessagesAreMessages(stream[..at]);
      SizeTail(requests);
      ok := Handle(frame);
      PushOutput(serviced, counted, frame);
      if frame.verb != Update && frame.id.Some? {
        AnsweredReply(serviced, frame, old(sent), old(stops), Told(sent[|old(sent)|], cancelling), hooks);
      } else {
        PushDue(serviced, frame);
      }
      requests, serviced := requests[1..], serviced + [frame];
      assert old(serviced) + old(requests) == serviced + requests;
    }

    /** Only replies went out since `log` and `was`, each with the client as it now is. */
    ghost predicate OnlyReplied(log: seq<Out>, was: seq<bool>)
      reads this
    {
      && log <= sent && was <= stops && |log| == |was| && |sent| == |stops|
      && forall j :: |log| <= j < |sent| ==>
           sent[j].Reply? && stops[j] == cancelling
           && (cancelling && sent[j].answer.Outcome? ==> sent[j].answer.selected == None)
    }

    /** The queue is drained before the response is handed back; the reader may go on
        adding to it meanwhile. */
    method Drain(schedule: seq<Move>) returns (ok: bool)
      requires Valid()
      modifies this`at, this`reading, this`error, this`requests, this`responses, this`serviced, this`sent,
               this`stops, this`outputBytes
      ensures Valid() && at >= old(at) && old(serviced) <= serviced && OnlyReplied(old(sent), old(stops))
      ensures ok ==> requests == [] && (old(outputBytes) <= 16777216 ==> outputBytes <= 16777216)
      ensures !ok ==> outputBytes > 16777216
    {
      hide Messages, Responses, RepliesSent, RepliesDue, Size, AllAnswered, Output, WellFramed;
      var k := 0;
      ok := true;
      while requests != []
        invariant Valid() && at >= old(at) && old(serviced) <= serviced && k <= |schedule|
        invariant OnlyReplied(old(sent), old(stops))
        invariant old(outputBytes) <= 16777216 ==> outputBytes <= 16777216
        decreases |schedule| - k, |requests|
      {
        if k < |schedule| && schedule[k].ReaderMoves? {
          ReaderStep();
          k := k + 1;
        } else {
          if k < |schedule| {
            k := k + 1;
          }
          ok := ServiceNext();
          if !ok {
            return;
          }
        }
      }
    }

    /** What an exchange with request `id`, begun at `start`, has sent, and when. */
    ghost predicate Talking(start: Start, id: nat, canStop: bool)
      reads this
    {
      && Valid() && start.log + [Call(id)] <= sent
      && QuietAfterCancel(sent[|start.log|..])
      && (start.stopping ==> cancelling) && (cancelling && !start.stopping ==> canStop)
      && (Cancel in sent[|start.log|..] ==> cancelling && !start.stopping)
      && (sessionId.Some? ==>
            && Timely(sent, stops, |start.log|, start.stopping)
            && (cancelling <==> start.stopping || Cancel in sent[|start.log|..]))
    }

    /** The stop token fired: ask the agent to cancel the turn. */
    method StopTurn(ghost start: Start, ghost id: nat)
      requires Talking(start, id, true) && !cancelling
      modifies this`cancelling, this`sent, this`stops
      ensures Talking(start, id, true)
      ensures sent == old(sent) + (if sessionId.Some? then [Cancel] else []) && cancelling
    {
      hide Messages, Responses, RepliesSent, RepliesDue, Size, Output, WellFramed, AllAnswered, Timely;
      cancelling := true;
      if sessionId.Some? {
        QuietCancel(sent[|start.log|..]);
        PushSent(sent, stops, Cancel, true);
        TimelyPush(sent, stops, |start.log|, start.stopping, Cancel, true);
        Send(Cancel);
        assert sent[|start.log|..] == old(sent)[|start.log|..] + [Cancel];
      }
    }

    /** Replies keep the exchange's account of itself. */
    lemma RepliesKeepTalking(start: Start, log: seq<Out>, was: seq<bool>)
      requires OnlyReplied(log, was) && |start.log| <= |log|
      requires QuietAfterCancel(log[|start.log|..]) && (Cancel in log[|start.log|..] ==> cancelling)
      ensures QuietAfterCancel(sent[|start.log|..])
      ensures Cancel in sent[|start.log|..] <==> Cancel in log[|start.log|..]
      ensures Timely(log, was, |start.log|, start.stopping)
              && (cancelling <==> start.stopping || Cancel in log[|start.log|..]) ==>
                Timely(sent, stops, |start.log|, start.stopping)
    {
      hide Timely, QuietAfterCancel;
      var from := |start.log|;
      assert sent[from..] == log[from..] + sent[|log|..];
      assert forall o :: o in sent[|log|..] ==> exists j :: |log| <= j < |sent| && sent[j] == o;
      QuietReplies(log[from..], sent[|log|..], cancelling);
      StillNoCancel(log, sent, from, |sent|);
      assert sent[from..|sent|] == sent[from..];
      if Timely(log, was, from, start.stopping)
         && (cancelling <==> start.stopping || Cancel in log[from..]) {
        TimelyReplies(log, was, sent, stops, from, start.stopping, cancelling);
      }
    }

    /** A queued message is serviced. */
    method ServiceTurn(ghost start: Start, ghost id: nat, ghost canStop: bool) returns (ok: bool)
      requires Talking(start, id, canStop) && requests != []
      modifies this`requests, this`serviced, this`sent, this`stops, this`outputBytes
      ensures Talking(start, id, canStop)
      ensures serviced == old(serviced) + [old(requests)[0]] && requests == old(requests)[1..]
      ensures if ok then old(outputBytes) <= 16777216 ==> outputBytes <= 16777216 else outputBytes > 16777216
    {
      hide Valid, QuietAfterCancel, Timely;
      TalkingIsValid(start, id, canStop);
      ok := ServiceNext();
      RepliesKeepTalking(start, old(sent), old(stops));
    }

    /** Take the next response off its queue; `p` is where it stands on the stream. */
    method TakeResponse(ghost start: Start, ghost id: nat, ghost canStop: bool)
      returns (response: Frame, ghost p: nat)
      requires Talking(start, id, canStop) && responses != []
      modifies this`responses, this`taken
      ensures Talking(start, id, canStop) && response == old(responses)[0]
      ensures responses == old(responses)[1..] && taken == old(taken) + [response]
      ensures p < at && stream[p] == response && response.Response? && Responses(stream[..p]) == old(taken)
    {
      hide QuietAfterCancel, Messages, RepliesDue, RepliesSent, AllAnswered, Output, Timely, WellFramed;
      response := responses[0];
      assert taken + responses == (taken + [response]) + responses[1..];
      p := FindResponse(stream[..at], taken, response);
      assert stream[..at][..p] == stream[..p];
      responses := responses[1..];
      taken := taken + [response];
      assert Size(responses) <= old(Size(responses));
    }

    /** Service every message queued before the answer was read. */
    method DrainTurn(ghost start: Start, ghost id: nat, ghost canStop: bool, schedule: seq<Move>) returns (ok: bool)
      requires Talking(start, id, canStop)
      modifies this`at, this`reading, this`error, this`requests, this`responses, this`serviced, this`sent,
               this`stops, this`outputBytes
      ensures Talking(start, id, canStop) && at >= old(at) && old(serviced) <= serviced
      ensures ok ==> serviced == Messages(stream[..at]) && (old(outputBytes) <= 16777216 ==> outputBytes <= 16777216)
      ensures !ok ==> outputBytes > 16777216
    {
      hide QuietAfterCancel, Timely, Messages, Responses, RepliesDue, RepliesSent, AllAnswered, Size, Output;
      hide WellFramed, OnlyReplied;
      ok := Drain(schedule);
      RepliesKeepTalking(start, old(sent), old(stops));
      ReplyPrefix(old(sent), old(stops));
      assert ok ==> serviced + requests == serviced;
    }

    lemma ReplyPrefix(log: seq<Out>, was: seq<bool>)
      requires OnlyReplied(log, was)
      ensures log <= sent
    {
    }

    /** How an exchange ends once `f` has been taken: it goes on only if `f` answers
        another request; the answer is the agent's unless the messages before it were too
        much or the transport failed. */
    predicate EndsOn(f: Frame, id: nat, r: Ended)
      reads this
    {
      if !f.Response? || f.id != Some(id) then r.StillWaiting?
      else if r.OutputTooLong? then outputBytes > 16777216
      else if error.Some? then r == Transport(error.value)
      else r == if f.failed then Failed else Answered
    }

    /** Take the next response. If it answers `id`, drain the messages before it. */
    method ResponseTurn(ghost start: Start, id: nat, ghost canStop: bool, schedule: seq<Move>)
      returns (r: Ended, ghost p: nat)
      requires Talking(start, id, canStop) && responses != []
      modifies this`at, this`reading, this`error, this`requests, this`responses, this`serviced, this`sent,
               this`stops, this`outputBytes, this`taken
      ensures Talking(start, id, canStop) && at >= old(at) && old(serviced) <= serviced
      ensures taken == old(taken) + [old(responses)[0]] && old(responses)[0].Response?
      ensures EndsOn(old(responses)[0], id, r) && Justified(r, canStop)
      ensures r.StillWaiting? ==>
        && responses == old(responses)[1..] && requests == old(requests) && serviced == old(serviced)
        && at == old(at) && reading == old(reading) && error == old(error)
      ensures r.Answered? || r.Failed? ==> Answers(r, p, id)
      ensures old(outputBytes) <= 16777216 ==> (outputBytes > 16777216 <==> r.OutputTooLong?)
    {
      hide Talking, Messages, Responses;
      var response;
      r := StillWaiting;
      response, p := TakeResponse(start, id, canStop);
      if response.id == Some(id) {
        var ok := DrainTurn(start, id, canStop, schedule);
        TalkingIsValid(start, id, canStop);
        assert stream[..at][..p] == stream[..p];
        MessagesOfPrefix(stream[..at], p);
        r := if !ok then OutputTooLong else if error.Some? then Transport(error.value)
             else if response.failed then Failed else Answered;
      }
    }

    lemma TalkingIsValid(start: Start, id: nat, canStop: bool)
      requires Talking(start, id, canStop)
      ensures Valid() && at <= |stream|
    {
    }

    /** Draw the next id and send the request. */
    method Begin() returns (id: nat)
      requires Valid()
      modifies this`nextId, this`sent, this`stops
      ensures Talking(Start(old(sent), cancelling), id, false) && Talking(Start(old(sent), cancelling), id, true)
      ensures id == old(nextId) && nextId == id + 1 && sent == old(sent) + [Call(id)]
    {
      hide Messages, Responses, RepliesDue, RepliesSent, AllAnswered, Size, Output, WellFramed;
      id := nextId;
      nextId := nextId + 1;
      PushSent(sent, stops, Call(id), cancelling);
      TimelyPush(sent, stops, |sent|, cancelling, Call(id), cancelling);
      Send(Call(id));
      assert sent[|old(sent)|..] == [Call(id)];
    }

    /** One turn of the select loop: the reader moves, or one ready branch is taken. */
    method Turn(move: Move, rest: seq<Move>, ghost start: Start, id: nat, canStop: bool, grace: bool, open: bool)
      returns (r: Ended, grace': bool, open': bool, ghost p: nat)
      requires Talking(start, id, canStop) && (grace ==> canStop && cancelling)
      requires !open ==> requests == [] && !reading
      modifies this`at, this`reading, this`error, this`requests, this`responses, this`cancelling, this`outputBytes,
               this`sent, this`stops, this`serviced, this`taken
      ensures Talking(start, id, canStop) && at >= old(at) && old(serviced) <= serviced
      ensures r.Answered? || r.Failed? ==> Answers(r, p, id)
      ensures Justified(r, canStop) && (grace' ==> canStop && cancelling)
      ensures r.StillWaiting? && !open' ==> requests == [] && !reading
      ensures old(outputBytes) <= 16777216 ==> (outputBytes > 16777216 <==> r.OutputTooLong?)
      ensures !move.ReaderMoves? && r.StillWaiting? ==> at == old(at) && reading == old(reading) && error == old(error)
      ensures !move.StopFires? ==> cancelling == old(cancelling)
      ensures move.StopFires? && canStop ==> cancelling
      ensures r.StillWaiting? ==> Moves(move, canStop, old(Tallied()), Tallied())
      ensures match move
        case ReaderMoves =>
          && r.StillWaiting? && taken == old(taken) && serviced == old(serviced) && (reading ==> at == old(at) + 1)
          && (!old(reading) ==> !reading && at == old(at) && requests == old(requests) && responses == old(responses))
        case StopFires =>
          && r.StillWaiting? && taken == old(taken) && serviced == old(serviced) && requests == old(requests)
          && (canStop && !old(cancelling) ==>
                grace' && sent == old(sent) + if sessionId.Some? then [Cancel] else [])
        case GraceEnds =>
          && r == (if grace then NoStop else StillWaiting)
          && taken == old(taken) && serviced == old(serviced) && requests == old(requests)
        case ResponseReady =>
          && (r.StillWaiting? ==> serviced == old(serviced) && requests == old(requests))
          && if old(responses) != [] then
               && taken == old(taken) + [old(responses)[0]] && old(responses)[0].Response?
               && EndsOn(old(responses)[0], id, r)
             else
               taken == old(taken) && (r.StillWaiting? <==> old(reading))
        case RequestReady =>
          && taken == old(taken)
          && if old(requests) != [] then
               && serviced == old(serviced) + [old(requests)[0]] && requests == old(requests)[1..]
               && (r == StillWaiting || r == OutputTooLong)
             else
               serviced == old(serviced) && requests == [] && r.StillWaiting?
    {
      hide Talking, Valid, Answers, EndsOn;
      r, grace', open', p := StillWaiting, grace, open, 0;
      TalkingIsValid(start, id, canStop);
      match move {
        case ReaderMoves =>
          ReaderTurn(start, id, canStop);
        case StopFires =>
          if canStop && !cancelling {
            StopTurn(start, id);
            grace' := true;
          }
        case GraceEnds =>
          if grace {
            r := NoStop;
          }
        case ResponseReady =>
          if responses == [] {
            if !reading {
              r := if error.Some? then Transport(error.value) else Closed;
            }
          } else {
            r, p := ResponseTurn(start, id, canStop, rest);
          }
        case RequestReady =>
          if open {
            if requests != [] {
              var ok := ServiceTurn(start, id, canStop);
              if !ok {
                r := OutputTooLong;
              }
            } else if !reading {
              open' := false;
            }
          }
      }
    }

    /** The reader moves while the client waits. */
    method ReaderTurn(ghost start: Start, ghost id: nat, ghost canStop: bool)
      requires Talking(start, id, canStop)
      modifies this`at, this`reading, this`error, this`requests, this`responses
      ensures Talking(start, id, canStop) && at >= old(at) && (reading ==> old(reading) && at == old(at) + 1)
      ensures !old(reading) ==> !reading && at == old(at) && requests == old(requests) && responses == old(responses)
    {
      hide Valid, QuietAfterCancel, Timely;
      TalkingIsValid(start, id, canStop);
      ReaderStep();
    }

    /** Every way an exchange ends without an answer has its cause. */
    predicate Justified(r: Ended, canStop: bool)
      reads this
    {
      match r
      case Transport(e) => error == Some(e)
      case Closed => !reading && responses == [] && error == None
      case NoStop => canStop && cancelling
      case OutputTooLong => outputBytes > 16777216
      case _ => true
    }

    /** The response at `p`, the last one taken, answers request `id`, with every message
        before it serviced. */
    ghost predicate Answers(r: Ended, p: nat, id: nat)
      reads this
    {
      && p < at <= |stream| && stream[p].Response? && stream[p].id == Some(id) && r.Failed? == stream[p].failed
      && Messages(stream[..p]) <= serviced && taken == Responses(stream[..p]) + [stream[p]]
    }

    /** Send a request and wait for its response, servicing whatever the agent sends
        meanwhile. When an answer is returned, it is the one at `p` on the stream, and
        every message that preceded it there has been serviced, once and in order. An answer
        taken is the last response taken, and it ends the exchange. A failed transport is
        noticed at once, or after the one branch taken beside the failure; and while the
        exchange waits, every move of the schedule has had its effect. */
    method Exchange(canStop: bool, schedule: seq<Move>) returns (r: Ended, ghost p: nat)
      requires Valid()
      modifies this`at, this`reading, this`error, this`requests, this`responses, this`cancelling, this`outputBytes,
               this`sent, this`stops, this`serviced, this`taken, this`nextId
      ensures Valid() && at >= old(at) && old(serviced) <= serviced && nextId == old(nextId) + 1
      ensures old(sent) + [Call(old(nextId))] <= sent && QuietAfterCancel(sent[|old(sent)|..])
      ensures !canStop ==> Cancel !in sent[|old(sent)|..] && cancelling == old(cancelling)
      ensures sessionId.Some? ==>
        && Timely(sent, stops, |old(sent)|, old(cancelling))
        && (cancelling <==> old(cancelling) || Cancel in sent[|old(sent)|..])
      ensures r.Answered? || r.Failed? ==> Answers(r, p, old(nextId))
      ensures Justified(r, canStop)
      ensures old(taken) <= taken
      ensures forall k ::
        |old(taken)| <= k < |taken| && taken[k].Response? && taken[k].id == Some(old(nextId)) ==>
        && k == |taken| - 1 && !r.StillWaiting?
        && (outputBytes <= 16777216 ==>
              && (error.Some? ==> r == Transport(error.value))
              && (error.None? ==> r == if taken[k].failed then Failed else Answered))
      ensures old(outputBytes) <= 16777216 ==> (outputBytes > 16777216 <==> r.OutputTooLong?)
      ensures old(error).Some? && schedule != [] ==>
        r == Transport(old(error).value) && serviced == old(serviced) && taken == old(taken) && at == old(at)
      ensures r.StillWaiting? && error.Some? && schedule != [] ==> JustRead(schedule)
      ensures r.StillWaiting? && reading ==> at == old(at) + Count(schedule, ReaderMoves)
      ensures r.StillWaiting? && canStop && StopFires in schedule ==> cancelling
      ensures r.StillWaiting? && !old(reading) ==>
        && |taken| == |old(taken)| + Count(schedule, ResponseReady)
        && |serviced| == |old(serviced)| + Min(Count(schedule, RequestReady), |old(requests)|)
    {
      hide Messages, Responses, RepliesDue, RepliesSent, AllAnswered, Size, QuietAfterCancel, Justified, Answers;
      hide Timely, Output, WellFramed, Count;
      ghost var start := Start(sent, cancelling);
      var id := Begin();
      r, p := Await(start, id, canStop, schedule);
    }

    /** No response taken from `from` on answers `id`. */
    ghost predicate Unanswered(from: nat, id: nat)
      reads this
    {
      from <= |taken| && forall k :: from <= k < |taken| ==> taken[k].Response? && taken[k].id != Some(id)
    }

    ghost function Tallied(): Tally
      reads this
    {
      Tally(at, reading, |taken|, |serviced|, |requests|, cancelling)
    }

    /** The select loop, a turn at a time, until the exchange ends or the schedule does.
        The transport's error is looked at whenever a branch has been taken; the reader's
        own moves go by without one. */
    method Await(ghost start: Start, id: nat, canStop: bool, schedule: seq<Move>) returns (r: Ended, ghost p: nat)
      requires Talking(start, id, canStop)
      modifies this`at, this`reading, this`error, this`requests, this`responses, this`cancelling, this`outputBytes,
               this`sent, this`stops, this`serviced, this`taken
      ensures Talking(start, id, canStop) && at >= old(at) && old(serviced) <= serviced && old(taken) <= taken
      ensures Justified(r, canStop) && (r.Answered? || r.Failed? ==> Answers(r, p, id))
      ensures Unanswered(|old(taken)|, id) || (|taken| > |old(taken)|
                && (forall k :: |old(taken)| <= k < |taken| - 1 ==> taken[k].Response? && taken[k].id != Some(id))
                && EndsOn(taken[|taken| - 1], id, r))
      ensures old(outputBytes) <= 16777216 ==> (outputBytes > 16777216 <==> r.OutputTooLong?)
      ensures r.StillWaiting? ==> Moved(schedule, canStop, old(Tallied()), Tallied())
      ensures old(error).Some? && schedule != [] ==>
        r == Transport(old(error).value) && serviced == old(serviced) && taken == old(taken) && at == old(at)
      ensures r.StillWaiting? && error.Some? && schedule != [] ==> JustRead(schedule)
    {
      hide Talking, Valid, Answers, Count, Timely, Output, Moved, Moves;
      var open, grace, woke := true, false, true;
      r, p := StillWaiting, 0;
      NoMoves(canStop, Tallied());
      assert schedule[..0] == [];
      for k := 0 to |schedule|
        invariant Talking(start, id, canStop) && at >= old(at) && old(serviced) <= serviced && old(taken) <= taken
        invariant r.StillWaiting? && (grace ==> canStop && cancelling) && (!open ==> requests == [] && !reading)
        invariant Unanswered(|old(taken)|, id) && (old(outputBytes) <= 16777216 ==> outputBytes <= 16777216)
        invariant Moved(schedule[..k], canStop, old(Tallied()), Tallied())
        invariant k == 0 ==> woke && error == old(error) && serviced == old(serviced) && taken == old(taken)
        invariant k == 0 ==> at == old(at)
        invariant k > 0 ==> old(error).None? && woke == !schedule[k - 1].ReaderMoves?
        invariant k > 0 && error.Some? ==> JustRead(schedule[..k])
      {
        if woke && error.Some? {
          r := Transport(error.value);
          break;
        }
        ghost var was := Tallied();
        r, grace, open, p := Turn(schedule[k], schedule[k + 1..], start, id, canStop, grace, open);
        woke := !schedule[k].ReaderMoves?;
        if !r.StillWaiting? {
          break;
        }
        MovesAddUp(schedule, k, canStop, old(Tallied()), was, Tallied());
      }
      assert schedule[..|schedule|] == schedule;
    }

    /** One prompt turn. It clears the cancelling flag, so in what it sends at most one
        `session/cancel` occurs, every permission answered after that is refused, and
        every one answered before it as the driver chose. */
    method PromptUntil(schedule: seq<Move>) returns (r: Option<Ended>, ghost p: nat)
      requires Valid()
      modifies this
      ensures Valid() && (r.None? <==> old(sessionId).None?) && sessionId == old(sessionId)
      ensures r.None? ==> sent == old(sent) && serviced == old(serviced) && taken == old(taken)
      ensures old(serviced) <= serviced && old(sent) <= sent && QuietAfterCancel(sent[|old(sent)|..])
      ensures r.Some? ==> old(sent) + [Call(old(nextId))] <= sent
      ensures r.Some? ==> Timely(sent, stops, |old(sent)|, false)
      ensures r == Some(StillWaiting) ==>
        && (reading ==> at == old(at) + Count(schedule, ReaderMoves))
        && (StopFires in schedule ==> Cancel in sent[|old(sent)|..])
      ensures r.Some? ==>
        outputBytes == Output(serviced[|old(serviced)|..]) && (r.value.OutputTooLong? <==> outputBytes > 16777216)
      ensures r.Some? && (r.value.Answered? || r.value.Failed?) ==>
        Answers(r.value, p, old(nextId))
      ensures old(taken) <= taken
      ensures forall k ::
        |old(taken)| <= k < |taken| && taken[k].Response? && taken[k].id == Some(old(nextId)) ==>
        && k == |taken| - 1 && r.Some?
        && (r.value.OutputTooLong? || error.Some? || r.value == if taken[k].failed then Failed else Answered)
      ensures r.Some? ==> Justified(r.value, true)
    {
      hide Messages, Responses, RepliesDue, RepliesSent, AllAnswered, Size, QuietAfterCancel, Justified, Answers,
           WellFramed, Count;
      p := 0;
      if sessionId.None? {
        assert sent[|sent|..] == [];
        NothingSent();
        return None, p;
      }
      cancelling := false;
      outputBytes, counted := 0, |serviced|;
      assert serviced[counted..] == [];
      var ended;
      ended, p := Exchange(true, schedule);
      return Some(ended), p;
    }
  }

  lemma NothingSent()
    ensures QuietAfterCancel([])
  {
  }

  lemma NoMoves(canStop: bool, was: Tally)
    ensures Moved([], canStop, was, was)
  {
  }

  function Min(a: nat, b: nat): nat {
    if a <= b then a else b
  }

  /** Serviced at every moment: a prefix of the agent's messages, so each is serviced at
      most once, and two agreeing on how many are serviced agree on which. */
  lemma ServicedIsPrefix(serviced: seq<Frame>, requests: seq<Frame>, stream: seq<Frame>, at: nat)
    requires at <= |stream| && serviced + requests == Messages(stream[..at])
    ensures serviced <= Messages(stream)
  {
    MessagesOfPrefix(stream, at);
  }
}
