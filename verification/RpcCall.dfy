/**
  A server-streaming call (include/sisl/grpc/rpc_call.hpp, RpcData with streaming and RpcTag): the user
  enqueues responses, completion tags come back from gRPC, the client may cancel. Every handler is one
  atomic step. The call is kept alive by its tags, by a processing reference, by a user reference and by
  the smart pointers of the user.
 */
module RpcCalls {

  /** A response payload; the call never looks inside, so a label is enough. */
  type Response = int

  // ----- references

  datatype Reference = NotTaken | Held | Released

  /** The count of the object and who holds a reference: the tags of the request, of its completion and of
      responses, two logical owners, and the user's pointers. */
  datatype Refs = Refs(count: int, received: bool, completed: bool, responses: nat, processing: Reference,
                       user: Reference, ptrs: nat)

  function One(b: bool): nat { if b then 1 else 0 }

  function Owners(r: Refs): nat {
    One(r.received) + One(r.completed) + r.responses + One(r.processing.Held?) + One(r.user.Held?) + r.ptrs
  }

  predicate Balanced(r: Refs) { r.count == Owners(r) }

  function StartProcessing(r: Refs): Refs { r.(processing := Held, count := r.count + 1) }
  function EndProcessing(r: Refs): Refs { r.(processing := Released, count := r.count - 1) }
  function StartUser(r: Refs): Refs { r.(user := Held, count := r.count + 1) }
  function EndUser(r: Refs): Refs { r.(user := Released, count := r.count - 1) }
  function NewResponse(r: Refs): Refs { r.(responses := r.responses + 1, count := r.count + 1) }
  function ResponseBack(r: Refs): Refs
    requires 0 < r.responses
  {
    r.(responses := r.responses - 1, count := r.count - 1)
  }
  function RequestBack(r: Refs): Refs { r.(received := false, count := r.count - 1) }
  function CompletionBack(r: Refs): Refs { r.(completed := false, count := r.count - 1) }
  function AddPtrs(r: Refs, k: nat): Refs { r.(ptrs := r.ptrs + k, count := r.count + k) }
  function DropPtr(r: Refs): Refs
    requires 0 < r.ptrs
  {
    r.(ptrs := r.ptrs - 1, count := r.count - 1)
  }

  // ----- flags and queue

  /** The flags of the call; failed and everBad record that a response tag came back failed and that an error
      status was set. */
  datatype Flags = Flags(last: bool, writePending: bool, disableEnqueue: bool, disableSend: bool, canceled: bool,
                         statusOk: bool, failed: bool, everBad: bool)

  function Disabled(f: Flags): Flags { f.(disableEnqueue := true, disableSend := true) }

  /** What has been handed to the gRPC stream. */
  datatype Sent = Write(r: Response) | WriteAndFinish(r: Response) | Finish

  /** Responses still to be sent, all that were ever accepted, and the operations on the stream. */
  datatype Queue = Queue(pending: seq<Response>, enqueued: seq<Response>, log: seq<Sent>)

  function Push(q: Queue, r: Response): Queue { q.(pending := q.pending + [r], enqueued := q.enqueued + [r]) }
  function FinishStream(q: Queue): Queue { q.(log := q.log + [Finish]) }
  function WriteFront(q: Queue, finish: bool): Queue
    requires q.pending != []
  {
    q.(pending := q.pending[1..],
       log := q.log + [if finish then WriteAndFinish(q.pending[0]) else Write(q.pending[0])])
  }

  function Written(log: seq<Sent>): seq<Response> {
    if log == [] then []
    else
      var rest, s := Written(log[..|log| - 1]), log[|log| - 1];
      if s.Finish? then rest else rest + [s.r]
  }

  /** A finish is the last operation on the stream. */
  predicate FinishIsLast(log: seq<Sent>) { forall i :: 0 <= i < |log| - 1 ==> log[i].Write? }

  predicate Finished(log: seq<Sent>) { log != [] && !log[|log| - 1].Write? }

  /** What was accepted is what was written and what is pending, and a finish ends the log. */
  predicate InSequence(q: Queue) { q.enqueued == Written(q.log) + q.pending && FinishIsLast(q.log) }

  /** The last response was written together with the finish. */
  predicate WroteLast(q: Queue) { q.pending == [] && q.log != [] && q.log[|q.log| - 1].WriteAndFinish? }

  lemma SentMore(log: seq<Sent>, s: Sent)
    requires FinishIsLast(log) && !Finished(log)
    ensures FinishIsLast(log + [s]) && Written(log + [s]) == if s.Finish? then Written(log) else Written(log) + [s.r]
    ensures Finished(log + [s]) <==> !s.Write?
  {
    assert (log + [s])[..|log|] == log;
    if log != [] { assert log[|log| - 1].Write?; }
  }

  lemma PushInSequence(q: Queue, r: Response)
    requires InSequence(q)
    ensures InSequence(Push(q, r))
  {
    assert q.enqueued + [r] == Written(q.log) + (q.pending + [r]);
  }

  lemma FinishInSequence(q: Queue)
    requires InSequence(q) && !Finished(q.log)
    ensures InSequence(FinishStream(q))
  {
    SentMore(q.log, Finish);
  }

  lemma WriteInSequence(q: Queue, finish: bool)
    requires InSequence(q) && !Finished(q.log) && q.pending != []
    ensures InSequence(WriteFront(q, finish)) && (Finished(WriteFront(q, finish).log) <==> finish)
  {
    hide Written, FinishIsLast, Finished;
    var s := if finish then WriteAndFinish(q.pending[0]) else Write(q.pending[0]);
    SentMore(q.log, s);
    assert q.pending == [q.pending[0]] + q.pending[1..];
    assert Written(q.log) + q.pending == (Written(q.log) + [s.r]) + q.pending[1..];
  }

  // ----- the call

  datatype Call = Call(refs: Refs, flags: Flags, queue: Queue)

  datatype Step =
    | Received(ok: bool, authorized: bool, kept: nat)   // the handler keeps some copies of its pointer
    | Respond(r: Response, isLast: bool)
    | ResponseSent(sent: bool)
    | Completed(isCancelled: bool, kept: nat)
    | SetStatus(good: bool)
    | Copy | Drop

  /** A new call with its tags registered; the completion tag only with a completion callback. */
  function Registered(notify: bool): Call {
    Call(Refs(1 + One(notify), true, notify, 0, NotTaken, NotTaken, 0),
         Flags(false, false, false, false, false, true, false, false), Queue([], [], []))
  }

  predicate Enabled(c: Call, a: Step) {
    match a
    case Received(_, _, _) => c.refs.received
    case Respond(_, _) => 0 < c.refs.ptrs && !c.refs.user.NotTaken?
    case ResponseSent(_) => 0 < c.refs.responses
    case Completed(_, _) => c.refs.completed
    case SetStatus(_) => 0 < c.refs.ptrs
    case Copy => 0 < c.refs.ptrs
    case Drop => 0 < c.refs.ptrs
  }

  /** What do_streaming_send_if_needed does. */
  datatype Action = Nothing | GiveUp | FinishNow | WriteLast | WriteNext

  function Choice(f: Flags, pending: seq<Response>): (act: Action)
    ensures act.WriteLast? || act.WriteNext? ==> pending != []
    ensures f.disableSend ==> act.Nothing?
  {
    if f.disableSend then Nothing
    else if f.canceled then GiveUp
    else if f.writePending then Nothing
    else if !f.statusOk then FinishNow
    else if pending == [] then Nothing
    else if |pending| == 1 && f.disableEnqueue then WriteLast
    else WriteNext
  }

  function Perform(c: Call, act: Action): Call
    requires act.WriteLast? || act.WriteNext? ==> c.queue.pending != []
  {
    match act
    case Nothing => c
    case GiveUp => Call(EndProcessing(c.refs), Disabled(c.flags), c.queue)
    case FinishNow => Call(EndProcessing(NewResponse(c.refs)), Disabled(c.flags), FinishStream(c.queue))
    case WriteLast => Call(EndProcessing(NewResponse(c.refs)), c.flags.(disableSend := true), WriteFront(c.queue, true))
    case WriteNext => Call(NewResponse(c.refs), c.flags.(writePending := true), WriteFront(c.queue, false))
  }

  function SendIfNeeded(c: Call): Call { Perform(c, Choice(c.flags, c.queue.pending)) }

  /** The step ends in do_streaming_send_if_needed. */
  predicate Sends(c: Call, a: Step) {
    (a.Received? && a.ok && !a.authorized) || (a.Respond? && !c.flags.disableEnqueue) || (a.ResponseSent? && a.sent)
  }

  /** The first response flagged last gives up the user reference. */
  function Ended(c: Call, isLast: bool): Call {
    if isLast && !c.flags.last then c.(refs := EndUser(c.refs), flags := c.flags.(last := true)) else c
  }

  /** The part of a step in front of do_streaming_send_if_needed. */
  function BeforeSend(c: Call, a: Step): Call
    requires Enabled(c, a) && Sends(c, a)
  {
    match a
    case Received(_, _, _) =>
      Call(StartProcessing(RequestBack(c.refs)), c.flags.(statusOk := false, everBad := true), c.queue)
    case Respond(r, isLast) =>
      var ended := Ended(c, isLast);
      Call(ended.refs, ended.flags.(disableEnqueue := ended.flags.last), Push(c.queue, r))
    case ResponseSent(_) => Call(ResponseBack(c.refs), c.flags.(writePending := false), c.queue)
  }

  /** A failed tag of a plain write gives up the processing reference. */
  function Failed(c: Call): Call {
    c.(refs := if c.flags.disableSend then c.refs else EndProcessing(c.refs),
       flags := c.flags.(disableEnqueue := true, failed := true))
  }

  function Quiet(c: Call, a: Step): Call
    requires Enabled(c, a) && !Sends(c, a)
  {
    match a
    case Received(ok, _, kept) =>
      if !ok then c.(refs := RequestBack(c.refs))
      else
        c.(refs := AddPtrs(StartUser(StartProcessing(RequestBack(c.refs))), kept), flags := c.flags.(statusOk := true))
    case Respond(_, isLast) => Ended(c, isLast)
    case ResponseSent(_) => Failed(c.(refs := ResponseBack(c.refs)))
    case Completed(isCancelled, kept) =>
      c.(refs := AddPtrs(CompletionBack(c.refs), kept), flags := c.flags.(canceled := c.flags.canceled || isCancelled))
    case SetStatus(good) => c.(flags := c.flags.(statusOk := good, everBad := c.flags.everBad || !good))
    case Copy => c.(refs := AddPtrs(c.refs, 1))
    case Drop => c.(refs := DropPtr(c.refs))
  }

  function Next(c: Call, a: Step): Call
    requires Enabled(c, a)
  {
    if Sends(c, a) then SendIfNeeded(BeforeSend(c, a)) else Quiet(c, a)
  }

  // ----- what every step keeps

  /** Before the request has been received nothing has happened. */
  predicate Untouched(c: Call) {
    && c.refs.processing.NotTaken? && c.refs.user.NotTaken? && c.refs.responses == 0
    && !c.flags.disableSend && !c.flags.disableEnqueue && !c.flags.writePending && !c.flags.last && !c.flags.failed
    && c.queue.pending == [] && c.queue.log == [] && c.queue.enqueued == []
  }

  /** While the processing reference is held, a write is out exactly when a response tag is, and what is left to
      send will be sent when it returns. */
  predicate Streams(r: Refs, f: Flags, pending: seq<Response>) {
    && r.responses <= 1
    && (r.processing.Held? ==> (f.writePending <==> r.responses == 1))
    && (r.processing.Held? && r.responses == 0 ==> pending == [] && !f.disableEnqueue)
    && (r.processing.Held? && f.disableEnqueue ==> pending != [])
    && (f.failed ==> f.disableEnqueue && r.responses == 0)
  }

  predicate Releases(r: Refs, f: Flags) {
    && (r.processing.Held? ==> !f.disableSend && !f.failed)
    && (r.processing.Released? ==> f.disableSend || f.failed)
    && (r.user.Released? <==> f.last)
    && (f.last || f.disableSend ==> f.disableEnqueue)
    && (f.disableEnqueue ==> f.last || f.disableSend || f.failed)
    && (!f.statusOk ==> f.everBad)
  }

  predicate Delivers(f: Flags, q: Queue) {
    && InSequence(q)
    && (Finished(q.log) ==> f.disableSend)
    && (f.disableSend && !f.canceled && !f.everBad ==> WroteLast(q))
  }

  predicate Inv(c: Call) {
    && Balanced(c.refs) && Streams(c.refs, c.flags, c.queue.pending) && Releases(c.refs, c.flags)
    && Delivers(c.flags, c.queue)
    && (c.refs.received || c.refs.processing.NotTaken? ==> Untouched(c))
    && (c.refs.user.NotTaken? ==> !c.refs.processing.Held?)
  }

  /** In front of do_streaming_send_if_needed: a response may have been added, or a write may have come back. */
  predicate Ready(c: Call) {
    && Balanced(c.refs) && c.refs.responses <= 1 && !c.flags.failed && !c.refs.processing.NotTaken? && !c.refs.received
    && (c.refs.processing.Held? ==> (c.flags.writePending <==> c.refs.responses == 1))
    && (c.refs.processing.Held? && c.flags.disableEnqueue ==> c.queue.pending != [])
    && Releases(c.refs, c.flags) && Delivers(c.flags, c.queue)
    && (c.refs.user.NotTaken? && c.refs.processing.Held? ==> !c.flags.statusOk && !c.flags.writePending)
  }

  lemma PerformDelivers(f: Flags, q: Queue)
    requires Delivers(f, q) && (f.statusOk || f.everBad)
    ensures var act := Choice(f, q.pending);
      && (act.GiveUp? ==> Delivers(Disabled(f), q))
      && (act.FinishNow? ==> Delivers(Disabled(f), FinishStream(q)))
      && (act.WriteLast? ==> Delivers(f.(disableSend := true), WriteFront(q, true)))
      && (act.WriteNext? ==> Delivers(f.(writePending := true), WriteFront(q, false)))
  {
    hide InSequence, Finished;
    match Choice(f, q.pending) {
      case Nothing =>
      case GiveUp =>
      case FinishNow => FinishInSequence(q);
      case WriteLast => WriteInSequence(q, true);
      case WriteNext => WriteInSequence(q, false);
    }
  }

  lemma PerformBalanced(r: Refs)
    requires Balanced(r)
    ensures Balanced(NewResponse(r))
    ensures r.processing.Held? ==> Balanced(EndProcessing(r)) && Balanced(EndProcessing(NewResponse(r)))
  {}

  lemma NothingKeeps(c: Call)
    requires Ready(c) && Choice(c.flags, c.queue.pending) == Nothing
    ensures Inv(Perform(c, Nothing))
  {
    PerformDelivers(c.flags, c.queue);
    PerformBalanced(c.refs);
    hide Delivers, Balanced;
  }

  lemma GiveUpKeeps(c: Call)
    requires Ready(c) && Choice(c.flags, c.queue.pending) == GiveUp
    ensures Inv(Perform(c, GiveUp))
  {
    PerformDelivers(c.flags, c.queue);
    PerformBalanced(c.refs);
    hide Delivers, Balanced;
  }

  lemma FinishNowKeeps(c: Call)
    requires Ready(c) && Choice(c.flags, c.queue.pending) == FinishNow
    ensures Inv(Perform(c, FinishNow))
  {
    PerformDelivers(c.flags, c.queue);
    PerformBalanced(c.refs);
    hide Delivers, Balanced;
  }

  lemma WriteLastKeeps(c: Call)
    requires Ready(c) && Choice(c.flags, c.queue.pending) == WriteLast
    ensures Inv(Perform(c, WriteLast))
  {
    PerformDelivers(c.flags, c.queue);
    PerformBalanced(c.refs);
    hide Delivers, Balanced;
  }

  lemma WriteNextKeeps(c: Call)
    requires Ready(c) && Choice(c.flags, c.queue.pending) == WriteNext
    ensures Inv(Perform(c, WriteNext))
  {
    PerformDelivers(c.flags, c.queue);
    PerformBalanced(c.refs);
    hide Delivers, Balanced;
  }

  lemma SendKeeps(c: Call)
    requires Ready(c)
    ensures Inv(SendIfNeeded(c))
  {
    hide Ready, Inv, Choice, Perform;
    match Choice(c.flags, c.queue.pending) {
      case Nothing => NothingKeeps(c);
      case GiveUp => GiveUpKeeps(c);
      case FinishNow => FinishNowKeeps(c);
      case WriteLast => WriteLastKeeps(c);
      case WriteNext => WriteNextKeeps(c);
    }
  }

  lemma BecomesReady(c: Call, a: Step)
    requires Inv(c) && Enabled(c, a) && Sends(c, a)
    ensures Ready(BeforeSend(c, a))
  {
    hide InSequence, Finished, WroteLast;
    match a {
      case Received(_, _, _) =>
      case Respond(r, _) => PushInSequence(c.queue, r);
      case ResponseSent(_) =>
    }
  }

  lemma QuietKeeps(c: Call, a: Step)
    requires Inv(c) && Enabled(c, a) && !Sends(c, a)
    ensures Inv(Quiet(c, a))
  {
    hide InSequence, Finished, WroteLast;
    match a {
      case Received(_, _, _) =>
      case Respond(_, _) =>
      case ResponseSent(_) =>
      case Completed(_, _) =>
      case SetStatus(_) =>
      case Copy =>
      case Drop =>
    }
  }

  lemma StepKeeps(c: Call, a: Step)
    requires Inv(c) && Enabled(c, a)
    ensures Inv(Next(c, a))
  {
    hide Inv, Enabled, Sends, SendIfNeeded, BeforeSend, Quiet, Ready;
    if Sends(c, a) {
      BecomesReady(c, a);
      SendKeeps(BeforeSend(c, a));
    } else {
      QuietKeeps(c, a);
    }
  }

  // ----- every run

  /** Some run of the given steps of a registered call leads to c. */
  ghost predicate Reaches(notify: bool, steps: seq<Step>, c: Call)
    decreases |steps|
  {
    if steps == [] then c == Registered(notify)
    else
      var a, rest := steps[|steps| - 1], steps[..|steps| - 1];
      exists p :: Reaches(notify, rest, p) && Enabled(p, a) && c == Next(p, a)
  }

  lemma {:induction false} RunsKeep(notify: bool, steps: seq<Step>, c: Call)
    requires Reaches(notify, steps, c)
    ensures Inv(c)
    decreases |steps|
  {
    if steps != [] {
      var a, rest := steps[|steps| - 1], steps[..|steps| - 1];
      var p :| Reaches(notify, rest, p) && Enabled(p, a) && c == Next(p, a);
      hide Inv, Next, Enabled;
      RunsKeep(notify, rest, p);
      StepKeeps(p, a);
    }
  }

  /** The count is the number of owners, and a call that can still take a step has not been freed. */
  lemma CountIsOwners(notify: bool, steps: seq<Step>, c: Call, a: Step)
    requires Reaches(notify, steps, c)
    ensures c.refs.count == Owners(c.refs)
    ensures Enabled(c, a) ==> 0 < c.refs.count
  {
    hide Reaches, Streams, Releases, Delivers;
    RunsKeep(notify, steps, c);
  }

  predicate NotEarlier(r: Reference, r': Reference) { (r.Held? ==> !r'.NotTaken?) && (r.Released? ==> r'.Released?) }

  lemma PerformAdvances(c: Call, act: Action)
    requires act.WriteLast? || act.WriteNext? ==> c.queue.pending != []
    ensures var c' := Perform(c, act);
      && c'.refs.user == c.refs.user && (c'.refs.processing == c.refs.processing || c'.refs.processing.Released?)
      && c'.queue.enqueued == c.queue.enqueued && c.queue.log <= c'.queue.log && (act.Nothing? ==> c' == c)
  {}

  /** Apart from sending: references only move on, the log stays, accepted responses only grow. */
  lemma StepAdvances(c: Call, a: Step)
    requires Enabled(c, a) && Releases(c.refs, c.flags) && (c.refs.received ==> Untouched(c))
    ensures var c' := if Sends(c, a) then BeforeSend(c, a) else Quiet(c, a);
      && NotEarlier(c.refs.processing, c'.refs.processing) && NotEarlier(c.refs.user, c'.refs.user)
      && c'.queue.log == c.queue.log && c.queue.enqueued <= c'.queue.enqueued
      && c'.flags.disableSend == c.flags.disableSend
  {}

  /** References are taken and released at most once, and the count changes with the owners. */
  lemma ReferencesAdvance(notify: bool, steps: seq<Step>, c: Call, a: Step)
    requires Reaches(notify, steps, c) && Enabled(c, a)
    ensures var r, r' := c.refs, Next(c, a).refs;
      && NotEarlier(r.processing, r'.processing) && NotEarlier(r.user, r'.user)
      && r'.count - r.count == Owners(r') - Owners(r)
  {
    hide Reaches, Streams, Releases, Delivers, Owners, Untouched, Sends, BeforeSend, Quiet, Perform, Choice, Enabled;
    RunsKeep(notify, steps, c);
    StepKeeps(c, a);
    StepAdvances(c, a);
    if Sends(c, a) {
      var b := BeforeSend(c, a);
      PerformAdvances(b, Choice(b.flags, b.queue.pending));
    }
  }

  lemma OneResponseInFlight(notify: bool, steps: seq<Step>, c: Call)
    requires Reaches(notify, steps, c)
    ensures c.refs.responses <= 1
  {
    hide Reaches;
    RunsKeep(notify, steps, c);
  }

  /** What was written is a prefix of what was accepted, and nothing follows a finish. */
  lemma WrittenInOrder(notify: bool, steps: seq<Step>, c: Call)
    requires Reaches(notify, steps, c)
    ensures Written(c.queue.log) <= c.queue.enqueued
    ensures forall i :: 0 <= i < |c.queue.log| - 1 ==> c.queue.log[i].Write?
  {
    hide Reaches;
    RunsKeep(notify, steps, c);
  }

  /** The stream only grows, and not after a finish. */
  lemma NothingAfterFinish(notify: bool, steps: seq<Step>, c: Call, a: Step)
    requires Reaches(notify, steps, c) && Enabled(c, a)
    ensures c.queue.log <= Next(c, a).queue.log && c.queue.enqueued <= Next(c, a).queue.enqueued
    ensures Finished(c.queue.log) ==> Next(c, a).queue.log == c.queue.log
  {
    hide Reaches, Streams, Releases, Balanced, Untouched, Sends, BeforeSend, Quiet, Perform, Choice, Enabled;
    hide InSequence, Finished, WroteLast;
    RunsKeep(notify, steps, c);
    StepAdvances(c, a);
    if Sends(c, a) {
      var b := BeforeSend(c, a);
      PerformAdvances(b, Choice(b.flags, b.queue.pending));
    }
  }

  /** Once the last response has been sent and no response tag is out, both references are gone; without cancel,
      error status or failed write, everything accepted has been written. */
  lemma LastSentReleases(notify: bool, steps: seq<Step>, c: Call)
    requires Reaches(notify, steps, c) && c.flags.last && c.refs.responses == 0
    ensures c.refs.processing.Released? && c.refs.user.Released?
    ensures !c.flags.canceled && !c.flags.everBad && !c.flags.failed ==>
      Written(c.queue.log) == c.queue.enqueued && Finished(c.queue.log)
  {
    hide Reaches;
    RunsKeep(notify, steps, c);
  }

  /** Then only tags and the user's own pointers keep the call; without those it is freed. */
  lemma NothingLeaks(notify: bool, steps: seq<Step>, c: Call)
    requires Reaches(notify, steps, c) && (c.flags.last || c.refs.user.NotTaken?)
    requires c.refs.responses == 0 && !c.refs.received && !c.refs.completed && c.refs.ptrs == 0
    ensures c.refs.count == 0 && forall a :: !Enabled(c, a)
  {
    hide Reaches, Delivers;
    RunsKeep(notify, steps, c);
  }

  // ----- what a run says about the call

  predicate Cancels(a: Step) { a.Completed? && a.isCancelled }

  predicate EndsUse(a: Step) { a.Respond? && a.isLast }

  predicate Starts(a: Step) { a.Received? && a.ok }

  predicate StartsUse(a: Step) { a.Received? && a.ok && a.authorized }

  /** The status that was set last; authorization sets it as well. */
  function StatusAfter(steps: seq<Step>): bool {
    if steps == [] then true
    else
      var a := steps[|steps| - 1];
      if a.SetStatus? then a.good
      else if a.Received? && a.ok then a.authorized
      else StatusAfter(steps[..|steps| - 1])
  }

  /** Flags and references say what has happened: a cancellation, the last response, the status, the request. */
  lemma {:induction false} FlagsTell(notify: bool, steps: seq<Step>, c: Call)
    requires Reaches(notify, steps, c)
    ensures c.flags.canceled <==> exists i :: 0 <= i < |steps| && Cancels(steps[i])
    ensures c.flags.last <==> exists i :: 0 <= i < |steps| && EndsUse(steps[i])
    ensures c.flags.statusOk == StatusAfter(steps)
    ensures !c.refs.processing.NotTaken? <==> exists i :: 0 <= i < |steps| && Starts(steps[i])
    ensures !c.refs.user.NotTaken? <==> exists i :: 0 <= i < |steps| && StartsUse(steps[i])
    decreases |steps|
  {
    if steps != [] {
      var n := |steps| - 1;
      var a, rest := steps[n], steps[..n];
      var p :| Reaches(notify, rest, p) && Enabled(p, a) && c == Next(p, a);
      hide Reaches, Next, Enabled, Inv;
      FlagsTell(notify, rest, p);
      RunsKeep(notify, rest, p);
      FlagsStep(p, a);
      OneMore(steps, Cancels);
      OneMore(steps, EndsUse);
      OneMore(steps, Starts);
      OneMore(steps, StartsUse);
    }
  }

  lemma OneMore(steps: seq<Step>, test: Step -> bool)
    requires steps != []
    ensures var n := |steps| - 1;
      (exists i :: 0 <= i < |steps| && test(steps[i])) <==>
        (exists i :: 0 <= i < n && test(steps[..n][i])) || test(steps[n])
  {
    var n := |steps| - 1;
    if i :| 0 <= i < |steps| && test(steps[i]) && i < n { assert steps[..n][i] == steps[i]; }
    if i :| 0 <= i < n && test(steps[..n][i]) { assert steps[i] == steps[..n][i]; }
  }

  lemma FlagsStep(c: Call, a: Step)
    requires Inv(c) && Enabled(c, a)
    ensures var c' := Next(c, a);
      && (c'.flags.canceled <==> c.flags.canceled || Cancels(a))
      && (c'.flags.last <==> c.flags.last || EndsUse(a))
      && c'.flags.statusOk == (if a.SetStatus? then a.good
                               else if a.Received? && a.ok then a.authorized else c.flags.statusOk)
      && (c'.refs.processing.NotTaken? <==> c.refs.processing.NotTaken? && !Starts(a))
      && (c'.refs.user.NotTaken? <==> c.refs.user.NotTaken? && !StartsUse(a))
  {
    hide Balanced, Delivers;
    if Sends(c, a) {
      var b := BeforeSend(c, a);
      PerformFlags(b, Choice(b.flags, b.queue.pending));
      hide Perform, Choice;
      assert !b.flags.disableSend || !Choice(b.flags, b.queue.pending).GiveUp?;
    }
  }

  lemma PerformFlags(c: Call, act: Action)
    requires act.WriteLast? || act.WriteNext? ==> c.queue.pending != []
    ensures var c' := Perform(c, act);
      && c'.flags.canceled == c.flags.canceled && c'.flags.last == c.flags.last && c'.flags.statusOk == c.flags.statusOk
      && c'.refs.user == c.refs.user && (c.refs.processing.NotTaken? || !c'.refs.processing.NotTaken?)
      && (act.Nothing? || act.WriteNext? || c'.refs.processing.Released?)
      && (act.Nothing? || act.WriteNext? ==> c'.refs.processing == c.refs.processing)
  {
    match act {
      case Nothing =>
      case GiveUp =>
      case FinishNow =>
      case WriteLast =>
      case WriteNext =>
    }
  }

  /** What a step hands to the stream: nothing once sending is over or the call is cancelled, or while a write is out;
      the status if it is bad; a response as soon as it can go, together with the finish if it is the last one. */
  function Sending(c: Call, a: Step): seq<Sent> {
    if c.flags.disableSend || c.flags.canceled then []
    else match a {
      case Received(ok, authorized, _) => if ok && !authorized then [Finish] else []
      case Respond(r, isLast) =>
        if c.flags.disableEnqueue || c.flags.writePending then []
        else if !c.flags.statusOk then [Finish]
        else [if isLast then WriteAndFinish(r) else Write(r)]
      case ResponseSent(sent) =>
        if !sent then []
        else if !c.flags.statusOk then [Finish]
        else if c.queue.pending == [] then []
        else [if |c.queue.pending| == 1 && c.flags.last then WriteAndFinish(c.queue.pending[0])
              else Write(c.queue.pending[0])]
      case _ => []
    }
  }

  /** The step closes the call for further responses. */
  predicate Closes(c: Call, a: Step) {
    match a
    case Received(ok, authorized, _) => ok && !authorized
    case Respond(_, isLast) => isLast || c.flags.canceled || (!c.flags.statusOk && !c.flags.writePending)
    case ResponseSent(sent) => !sent || (!c.flags.disableSend && (c.flags.canceled || !c.flags.statusOk))
    case _ => false
  }

  /** In every run, what each step sends, which responses are accepted, and when no more are. */
  lemma StepSends(notify: bool, steps: seq<Step>, c: Call, a: Step)
    requires Reaches(notify, steps, c) && Enabled(c, a)
    ensures var c' := Next(c, a);
      && c'.queue.log == c.queue.log + Sending(c, a)
      && c'.queue.enqueued == c.queue.enqueued + (if a.Respond? && !c.flags.disableEnqueue then [a.r] else [])
      && (c'.flags.disableEnqueue <==> c.flags.disableEnqueue || Closes(c, a))
  {
    hide Reaches;
    RunsKeep(notify, steps, c);
    match a {
      case Received(_, _, _) => ReceivedSends(c, a);
      case Respond(_, _) => RespondSends(c, a);
      case ResponseSent(_) => SentSends(c, a);
      case _ => QuietSends(c, a);
    }
  }

  /** A step that ends in do_streaming_send_if_needed sends what that sends. */
  lemma SendLog(c: Call)
    ensures var f, pending := c.flags, c.queue.pending;
      SendIfNeeded(c).queue.log == c.queue.log +
        if f.disableSend || f.canceled || f.writePending then []
        else if !f.statusOk then [Finish]
        else if pending == [] then []
        else [if |pending| == 1 && f.disableEnqueue then WriteAndFinish(pending[0]) else Write(pending[0])]
    ensures SendIfNeeded(c).queue.enqueued == c.queue.enqueued
    ensures var f := c.flags;
      SendIfNeeded(c).flags.disableEnqueue <==>
        f.disableEnqueue || (!f.disableSend && (f.canceled || (!f.writePending && !f.statusOk)))
  {
    assert c.queue.log + [] == c.queue.log;
  }

  lemma ReceivedSends(c: Call, a: Step)
    requires Inv(c) && Enabled(c, a) && a.Received?
    ensures SendsAs(c, a)
  {
    hide SendIfNeeded, Balanced, Delivers;
    if Sends(c, a) { SendLog(BeforeSend(c, a)); }
    assert c.queue.log + [] == c.queue.log && c.queue.enqueued + [] == c.queue.enqueued;
  }

  lemma RespondSends(c: Call, a: Step)
    requires Inv(c) && Enabled(c, a) && a.Respond?
    ensures SendsAs(c, a)
  {
    hide SendIfNeeded, Balanced, Delivers;
    if Sends(c, a) { SendLog(BeforeSend(c, a)); }
    assert c.queue.log + [] == c.queue.log && c.queue.enqueued + [] == c.queue.enqueued;
  }

  lemma SentSends(c: Call, a: Step)
    requires Inv(c) && Enabled(c, a) && a.ResponseSent?
    ensures SendsAs(c, a)
  {
    hide SendIfNeeded, Balanced, Delivers;
    if Sends(c, a) { SendLog(BeforeSend(c, a)); }
    assert c.queue.log + [] == c.queue.log && c.queue.enqueued + [] == c.queue.enqueued;
  }

  lemma QuietSends(c: Call, a: Step)
    requires Enabled(c, a) && !a.Received? && !a.Respond? && !a.ResponseSent?
    ensures SendsAs(c, a)
  {
    assert c.queue.log + [] == c.queue.log && c.queue.enqueued + [] == c.queue.enqueued;
  }

  predicate SendsAs(c: Call, a: Step)
    requires Enabled(c, a)
  {
    var c' := Next(c, a);
    && c'.queue.log == c.queue.log + Sending(c, a)
    && c'.queue.enqueued == c.queue.enqueued + (if a.Respond? && !c.flags.disableEnqueue then [a.r] else [])
    && (c'.flags.disableEnqueue <==> c.flags.disableEnqueue || Closes(c, a))
  }

  /** Response tags that came back. */
  function SentBack(steps: seq<Step>): nat {
    if steps == [] then 0 else SentBack(steps[..|steps| - 1]) + One(steps[|steps| - 1].ResponseSent?)
  }

  function PointersBy(a: Step): int {
    match a
    case Received(ok, authorized, kept) => if ok && authorized then kept else 0
    case Completed(_, kept) => kept
    case Copy => 1
    case Drop => -1
    case _ => 0
  }

  /** Pointers the user holds: copies that handlers kept and copies made, less those dropped. */
  function Pointers(steps: seq<Step>): int {
    if steps == [] then 0 else Pointers(steps[..|steps| - 1]) + PointersBy(steps[|steps| - 1])
  }

  predicate IsReceived(a: Step) { a.Received? }

  predicate IsCompleted(a: Step) { a.Completed? }

  /** The tags that are out: the request and its completion until they come back, and one per operation on the stream
      that has not come back; and the user's pointers. */
  lemma {:induction false} TagsTell(notify: bool, steps: seq<Step>, c: Call)
    requires Reaches(notify, steps, c)
    ensures c.refs.received <==> !exists i :: 0 <= i < |steps| && IsReceived(steps[i])
    ensures c.refs.completed <==> notify && !exists i :: 0 <= i < |steps| && IsCompleted(steps[i])
    ensures c.refs.responses == |c.queue.log| - SentBack(steps) && c.refs.ptrs == Pointers(steps)
    decreases |steps|
  {
    if steps != [] {
      var n := |steps| - 1;
      var a, rest := steps[n], steps[..n];
      var p :| Reaches(notify, rest, p) && Enabled(p, a) && c == Next(p, a);
      hide Reaches, Next, Enabled, Inv, PointersBy;
      TagsTell(notify, rest, p);
      RunsKeep(notify, rest, p);
      TagsStep(p, a);
      OneMore(steps, IsReceived);
      OneMore(steps, IsCompleted);
    }
  }

  lemma TagsStep(c: Call, a: Step)
    requires Inv(c) && Enabled(c, a)
    ensures var c' := Next(c, a);
      && (c'.refs.received <==> c.refs.received && !a.Received?)
      && (c'.refs.completed <==> c.refs.completed && !a.Completed?)
      && c'.refs.responses - |c'.queue.log| == c.refs.responses - |c.queue.log| - One(a.ResponseSent?)
      && c'.refs.ptrs == c.refs.ptrs + PointersBy(a)
  {
    hide Balanced, Delivers, Streams, Releases;
    if Sends(c, a) {
      var b := BeforeSend(c, a);
      PerformTags(b, Choice(b.flags, b.queue.pending));
      hide Perform, Choice;
    }
  }

  lemma PerformTags(c: Call, act: Action)
    requires act.WriteLast? || act.WriteNext? ==> c.queue.pending != []
    ensures var c' := Perform(c, act);
      && c'.refs.received == c.refs.received && c'.refs.completed == c.refs.completed && c'.refs.ptrs == c.refs.ptrs
      && c'.refs.responses - |c'.queue.log| == c.refs.responses - |c.queue.log|
  {
    match act {
      case Nothing =>
      case GiveUp =>
      case FinishNow =>
      case WriteLast =>
      case WriteNext =>
    }
  }

  /** A call that is served and freed, step by step: two responses, the second one the last. */
  function Serving(i: nat, r: Response, r2: Response): (Step, Call) {
    var open, closed := Flags(false, false, false, false, false, true, false, false),
      Flags(true, false, true, true, false, true, false, false);
    var one, both := Queue([], [r], [Write(r)]), Queue([], [r, r2], [Write(r), WriteAndFinish(r2)]);
    match i
    case 0 => (Received(true, true, 1), Registered(true))
    case 1 => (Respond(r, false), Call(Refs(4, false, true, 0, Held, Held, 1), open, Queue([], [], [])))
    case 2 => (ResponseSent(true), Call(Refs(5, false, true, 1, Held, Held, 1), open.(writePending := true), one))
    case 3 => (Respond(r2, true), Call(Refs(4, false, true, 0, Held, Held, 1), open, one))
    case 4 => (ResponseSent(true), Call(Refs(3, false, true, 1, Released, Released, 1), closed, both))
    case 5 => (Completed(false, 0), Call(Refs(2, false, true, 0, Released, Released, 1), closed, both))
    case 6 => (Drop, Call(Refs(1, false, false, 0, Released, Released, 1), closed, both))
    case _ => (Drop, Call(Refs(0, false, false, 0, Released, Released, 0), closed, both))
  }

  ghost predicate ServesOn(i: nat, r: Response, r2: Response) {
    var (a, c) := Serving(i, r, r2); Enabled(c, a) && Next(c, a) == Serving(i + 1, r, r2).1
  }

  lemma ServingStep(i: nat, r: Response, r2: Response)
    requires i < 7
    ensures ServesOn(i, r, r2)
  {
    hide ServesOn, Serving;
    match i {
      case 0 => ServingStarts(r, r2);
      case 1 => FirstResponse(r, r2);
      case 2 => FirstSent(r, r2);
      case 3 => SecondResponse(r, r2);
      case _ => ServingEnds(r, r2);
    }
  }

  lemma ServingStarts(r: Response, r2: Response)
    ensures ServesOn(0, r, r2)
  {
    hide Next, Enabled;
    Accepted(Registered(true), true, true, 1);
  }

  lemma Accepted(c: Call, ok: bool, authorized: bool, kept: nat)
    requires c.refs.received && ok && authorized
    ensures var a := Received(ok, authorized, kept);
      && Enabled(c, a)
      && Next(c, a) ==
         c.(refs := AddPtrs(StartUser(StartProcessing(RequestBack(c.refs))), kept), flags := c.flags.(statusOk := true))
  {}

  lemma FirstResponse(r: Response, r2: Response)
    ensures ServesOn(1, r, r2)
  {
    assert Serving(1, r, r2).1.queue.pending + [r] == [r] && [r][1..] == [];
  }

  lemma FirstSent(r: Response, r2: Response)
    ensures ServesOn(2, r, r2)
  {}

  lemma SecondResponse(r: Response, r2: Response)
    ensures ServesOn(3, r, r2)
  {
    assert Serving(3, r, r2).1.queue.pending + [r2] == [r2] && [r2][1..] == [];
  }

  lemma ServingEnds(r: Response, r2: Response)
    ensures ServesOn(4, r, r2) && ServesOn(5, r, r2) && ServesOn(6, r, r2)
  {}

  /** Two responses go out in order, the second with the finish, and the call is freed. */
  lemma ServesTwo(r: Response, r2: Response) returns (steps: seq<Step>, c: Call)
    ensures Reaches(true, steps, c) && c.queue.log == [Write(r), WriteAndFinish(r2)] && c.refs.count == 0
    ensures |steps| == 7 && forall i :: 0 <= i < 7 ==> steps[i] == Serving(i, r, r2).0
  {
    hide Reaches, Next, Enabled;
    Begins(true);
    steps, c := [], Registered(true);
    while |steps| < 7
      invariant |steps| <= 7 && c == Serving(|steps|, r, r2).1 && Reaches(true, steps, c)
      invariant forall i :: 0 <= i < |steps| ==> steps[i] == Serving(i, r, r2).0
    {
      ServingStep(|steps|, r, r2);
      steps, c := Goes(true, steps, c, Serving(|steps|, r, r2).0);
    }
  }

  lemma Begins(notify: bool)
    ensures Reaches(notify, [], Registered(notify))
  {}

  lemma Goes(notify: bool, steps: seq<Step>, c: Call, a: Step) returns (steps': seq<Step>, c': Call)
    requires Reaches(notify, steps, c) && Enabled(c, a)
    ensures steps' == steps + [a] && c' == Next(c, a) && Reaches(notify, steps', c')
  {
    steps', c' := steps + [a], Next(c, a);
    assert steps'[..|steps|] == steps;
  }

  /** A tag that is out may come back with either result, and whoever has a pointer may use it. */
  lemma MayAlways(c: Call, b: bool, b': bool, k: nat, r: Response)
    ensures c.refs.received ==> Enabled(c, Received(b, b', k))
    ensures c.refs.completed ==> Enabled(c, Completed(b, k))
    ensures 0 < c.refs.responses ==> Enabled(c, ResponseSent(b))
    ensures 0 < c.refs.ptrs ==> Enabled(c, SetStatus(b)) && Enabled(c, Copy) && Enabled(c, Drop)
    ensures 0 < c.refs.ptrs && !c.refs.user.NotTaken? ==> Enabled(c, Respond(r, b))
  {}

  /** After a cancellation nothing is sent any more, and the next response is the last one accepted. */
  lemma CancelStops(notify: bool, steps: seq<Step>, c: Call, i: nat, a: Step)
    requires Reaches(notify, steps, c) && i < |steps| && Cancels(steps[i]) && Enabled(c, a)
    ensures Next(c, a).queue.log == c.queue.log
    ensures a.Respond? ==> Next(c, a).flags.disableEnqueue
  {
    hide Reaches, Next, Enabled;
    FlagsTell(notify, steps, c);
    StepSends(notify, steps, c, a);
  }

  // ----- the object

  class RpcData {
    var count: int
    var last: bool
    var writePending: bool
    var disableEnqueue: bool
    var disableSend: bool
    var canceled: bool
    var statusOk: bool
    var pending: seq<Response>

    ghost var owners: Refs
    ghost var failed: bool
    ghost var everBad: bool
    ghost var enqueued: seq<Response>
    ghost var log: seq<Sent>

    ghost function State(): Call
      reads this
    {
      Call(owners.(count := count),
           Flags(last, writePending, disableEnqueue, disableSend, canceled, statusOk, failed, everBad),
           Queue(pending, enqueued, log))
    }

    constructor (notify: bool)
      ensures State() == Registered(notify) && Inv(State())
    {
      count, pending, statusOk := 1 + One(notify), [], true;
      last, writePending, disableEnqueue, disableSend, canceled := false, false, false, false, false;
      owners := Registered(notify).refs;
      enqueued, log, failed, everBad := [], [], false, false;
    }

    /** A release inside a handler: some other reference keeps the object. */
    method Unref()
      requires 1 < count
      modifies this`count
      ensures count == old(count) - 1
    {
      count := count - 1;
    }

    method DoStreamingSendIfNeeded()
      requires !disableSend ==> 1 < count && owners.processing.Held?
      modifies this
      ensures State() == SendIfNeeded(old(State()))
    {
      if disableSend { return; }
      if canceled {
        disableEnqueue := true;
        StopSending();
        return;
      }
      if writePending { return; }
      if !statusOk {
        Post(Finish);
        disableEnqueue := true;
        StopSending();
        return;
      }
      if pending == [] { return; }
      WriteResponse();
    }

    /** Hands an operation to the stream; its tag holds a reference. */
    method Post(ghost op: Sent)
      modifies this`log, this`owners, this`count
      ensures var c := old(State());
        State() == Call(NewResponse(c.refs), c.flags, c.queue.(log := c.queue.log + [op]))
    {
      log, owners, count := log + [op], NewResponse(owners), count + 1;
    }

    method StopSending()
      requires 1 < count
      modifies this`disableSend, this`owners, this`count
      ensures var c := old(State());
        State() == Call(EndProcessing(c.refs), c.flags.(disableSend := true), c.queue)
    {
      disableSend := true;
      owners := EndProcessing(owners);
      Unref();
    }

    /** Takes a response off the queue and writes it, as the last one if nothing else can follow. */
    method WriteResponse()
      requires 1 < count && owners.processing.Held? && pending != []
      modifies this
      ensures State() ==
        Perform(old(State()), if |old(pending)| == 1 && old(disableEnqueue) then WriteLast else WriteNext)
    {
      var response := pending[0];
      pending := pending[1..];
      if pending == [] && disableEnqueue {
        Post(WriteAndFinish(response));
        StopSending();
      } else {
        Post(Write(response));
        writePending := true;
      }
    }

    method EndUse(isLast: bool)
      requires isLast && !last ==> 1 < count
      modifies this
      ensures State() == Ended(old(State()), isLast)
    {
      if isLast && !last {
        last := true;
        owners := EndUser(owners);
        Unref();
      }
    }

    /** Accepts a response, the last one of all if the user said so. */
    method Enqueue(r: Response)
      modifies this`disableEnqueue, this`pending, this`enqueued
      ensures var c := old(State());
        State() == Call(c.refs, c.flags.(disableEnqueue := c.flags.disableEnqueue || c.flags.last), Push(c.queue, r))
    {
      if last { disableEnqueue := true; }
      pending, enqueued := pending + [r], enqueued + [r];
    }

    /** Returns whether further responses are accepted. */
    method SendResponse(r: Response, isLast: bool) returns (more: bool)
      requires Inv(State()) && Enabled(State(), Respond(r, isLast))
      modifies this
      ensures State() == Next(old(State()), Respond(r, isLast)) && Inv(State())
      ensures more == !disableEnqueue
    {
      hide Inv, SendIfNeeded;
      ghost var c := State();
      StepKeeps(c, Respond(r, isLast));
      Alive(c);
      EndUse(isLast);
      if disableEnqueue { return false; }
      Enqueue(r);
      DoStreamingSendIfNeeded();
      more := !disableEnqueue;
    }

    /** The request tag comes back: on_request_received, whose handler keeps some copies of its pointer; then the
        tag's own reference goes. */
    method ProcessRequest(ok: bool, authorized: bool, kept: nat)
      requires Inv(State()) && Enabled(State(), Received(ok, authorized, kept))
      modifies this
      ensures State() == Next(old(State()), Received(ok, authorized, kept)) && Inv(State())
    {
      hide Inv, SendIfNeeded;
      ghost var c := State();
      StepKeeps(c, Received(ok, authorized, kept));
      Alive(c);
      owners := RequestBack(owners);
      if ok {
        owners, count := StartProcessing(owners), count + 1;
        statusOk := authorized;
        if !authorized {
          everBad := true;
          LaterRelease(BeforeSend(c, Received(ok, authorized, kept)));
          DoStreamingSendIfNeeded();
        } else {
          owners, count := StartUser(owners), count + 1;
          owners, count := AddPtrs(owners, kept), count + kept;
        }
      }
      count := count - 1;
    }

    method OnResponseSent(ok: bool)
      requires !disableSend ==> 1 < count && owners.processing.Held?
      modifies this
      ensures ok ==> State() == SendIfNeeded(old(State().(flags := State().flags.(writePending := false))))
      ensures !ok ==> State() == Failed(old(State()))
    {
      hide SendIfNeeded;
      if ok {
        writePending := false;
        DoStreamingSendIfNeeded();
      } else {
        disableEnqueue := true;
        failed := true;
        if !disableSend {
          owners := EndProcessing(owners);
          Unref();
        }
      }
    }

    /** A response tag comes back: on_response_sent, then the tag's own reference goes. */
    method ProcessResponse(sent: bool)
      requires Inv(State()) && Enabled(State(), ResponseSent(sent))
      modifies this
      ensures State() == Next(old(State()), ResponseSent(sent)) && Inv(State())
    {
      hide Inv, SendIfNeeded;
      ghost var c := State();
      StepKeeps(c, ResponseSent(sent));
      Alive(c);
      owners := ResponseBack(owners);
      OnResponseSent(sent);
      count := count - 1;
      if sent {
        LaterRelease(BeforeSend(c, ResponseSent(sent)));
      }
    }

    /** The completion tag comes back: on_request_completed, then the tag's own reference goes. */
    method ProcessCompletion(isCancelled: bool, kept: nat)
      requires Inv(State()) && Enabled(State(), Completed(isCancelled, kept))
      modifies this
      ensures State() == Next(old(State()), Completed(isCancelled, kept)) && Inv(State())
      ensures canceled == (old(canceled) || isCancelled)
      ensures State().queue == old(State()).queue && !State().refs.completed
    {
      hide Inv;
      StepKeeps(State(), Completed(isCancelled, kept));
      owners := CompletionBack(owners);
      if isCancelled {
        canceled := true;
      }
      owners, count := AddPtrs(owners, kept), count + kept;
      count := count - 1;
    }
  }

  lemma Alive(c: Call)
    requires Inv(c)
    ensures c.refs.count == Owners(c.refs) && (c.refs.received ==> Untouched(c))
    ensures c.refs.user.Released? <==> c.flags.last
    ensures !c.flags.disableSend && (0 < c.refs.responses || (!c.refs.user.NotTaken? && !c.flags.disableEnqueue)) ==>
      c.refs.processing.Held?
  {}

  /** Sending does not depend on when the tag's own reference is released. */
  lemma LaterRelease(c: Call)
    ensures var kept := c.(refs := c.refs.(count := c.refs.count + 1));
      var sent := SendIfNeeded(kept);
      sent.(refs := sent.refs.(count := sent.refs.count - 1)) == SendIfNeeded(c)
  {
    hide Choice;
    LaterPerform(c, Choice(c.flags, c.queue.pending));
  }

  lemma LaterPerform(c: Call, act: Action)
    requires act.WriteLast? || act.WriteNext? ==> c.queue.pending != []
    ensures var kept := c.(refs := c.refs.(count := c.refs.count + 1));
      var sent := Perform(kept, act);
      sent.(refs := sent.refs.(count := sent.refs.count - 1)) == Perform(c, act)
  {
    match act {
      case Nothing =>
      case GiveUp =>
      case FinishNow =>
      case WriteLast =>
      case WriteNext =>
    }
  }
}
