/** Requests and responses over one TCP connection: any number of concurrent calls of the client's
    doTCP, one mutex, two byte streams of whole frames, and the server's sequential loop. */
module TcpProtocol {
  import opened Wrappers
  import opened Bytes
  import opened Values
  import opened Messages

  const STATUS_NOT_FOUND: Byte := 4
  const STATUS_SESSION_EXPIRED: Byte := 5
  const STATUS_INTERNAL_ERROR: Byte := 7

  // ----- states -----

  /** A request frame. The order, the running number of the call, is known to the proof only:
      the frame carries it modulo 2^32. */
  datatype Packet = Packet(call: nat, order: nat, request: Request)

  function Sequence(order: nat): Uint32 {
    order % 0x1_0000_0000
  }

  /** A response frame and the call it answers; none for the frame that ends a session. */
  datatype Reply = Reply(answers: Option<nat>, response: Response)

  function ExpiredReply(): Reply {
    Reply(None, Response(STATUS_SESSION_EXPIRED, None, 0))
  }

  /** How far one doTCP call has come. */
  datatype Call =
    | Begun(request: Request)
    | Captured(request: Request)                 // saw an open connection under the mutex
    | Numbered(request: Request, order: nat)     // has its sequence number
    | Holding(request: Request, order: nat)      // has the mutex
    | Written(request: Request, order: nat)      // its frame is on the wire
    | Returned(request: Request, order: nat, reply: Reply)
    | Failed(request: Request)

  datatype Server =
    | AtTop
    | Reading
    | Handling(packet: Packet, registered: bool)
    | Ended(closed: bool)

  datatype Expiry = NotSent | OnWire | TakenBy(call: nat)

  datatype Answer = Answer(packet: Packet, reply: Reply)

  datatype State = State(
    calls: seq<Call>,
    mutex: Option<nat>,
    connected: bool,            // c.tcpConn != nil
    numbered: nat,              // what c.seq counts, before it wraps
    toServer: seq<Packet>,
    toClient: seq<Reply>,
    server: Server,
    handlers: set<Uint16>,
    answered: seq<Answer>,      // what the server has answered, in order
    expiry: Expiry
  )

  predicate Init(s: State) {
    && s.calls == [] && s.mutex == None && s.connected && s.numbered == 0
    && s.toServer == [] && s.toClient == [] && s.server == AtTop
    && s.answered == [] && s.expiry == NotSent
  }

  // ----- steps -----

  /** What a handler does with a request. */
  datatype Outcome = Responds(status: Byte, payload: Payload) | Errs

  datatype Step =
    | Begin(request: Request)
    | Capture(call: nat)
    | Number(call: nat)
    | Lock(call: nat)
    | Write(call: nat)
    | WriteFails(call: nat)     // a frame too large, or a dead connection
    | Read(call: nat)
    | ReadFails(call: nat)      // a response that does not decode, or the end of the input
    | Register(opcode: Uint16)
    | Await
    | Expire
    | Stop                      // the server's context ends
    | Accept
    | Reject                    // a request that does not decode
    | Respond(outcome: Outcome)
    | RespondTooLarge

  /** The server's answer to a request: not found without a handler, internal error when the
      handler errs, and otherwise what the handler says, always under the request's number. */
  function AnswerTo(p: Packet, registered: bool, outcome: Outcome): Reply {
    var number := Sequence(p.order);
    if !registered then
      Reply(Some(p.call), Response(STATUS_NOT_FOUND, Some([Entry(OPCODE_KEY, U16(p.request.opcode))]), number))
    else if outcome.Errs? then
      Reply(Some(p.call), Response(STATUS_INTERNAL_ERROR, Some([Entry(ERROR_KEY, Str(INTERNAL_ERROR))]), number))
    else
      Reply(Some(p.call), Response(outcome.status, outcome.payload, number))
  }

  /** The bytes of an ASCII text. */
  function Ascii(s: string): seq<Byte> {
    seq(|s|, i requires 0 <= i < |s| => if s[i] as int < 128 then s[i] as int else 63)
  }

  const OPCODE_KEY := Ascii("opcode")
  const ERROR_KEY := Ascii("error")
  const INTERNAL_ERROR := Ascii("internal error")

  predicate Enabled(s: State, step: Step) {
    match step
    case Begin(_) => true
    case Capture(i) => i < |s.calls| && s.calls[i].Begun? && s.mutex == None
    case Number(i) => i < |s.calls| && s.calls[i].Captured?
    case Lock(i) => i < |s.calls| && s.calls[i].Numbered? && s.mutex == None
    case Write(i) => i < |s.calls| && s.calls[i].Holding?
    case WriteFails(i) => i < |s.calls| && s.calls[i].Holding?
    case Read(i) => i < |s.calls| && s.calls[i].Written? && s.toClient != []
    case ReadFails(i) => i < |s.calls| && s.calls[i].Written? && (s.toClient != [] || s.server == Ended(true))
    case Register(_) => true
    case Await => s.server.AtTop?
    case Expire => s.server.AtTop?
    case Stop => s.server.AtTop?
    case Accept => s.server.Reading? && s.toServer != []
    case Reject => s.server.Reading? && s.toServer != []
    case Respond(_) => s.server.Handling?
    case RespondTooLarge => s.server.Handling?
  }

  /** The client's steps that touch the reply at the front of its input. */
  function TakeReply(s: State, i: nat): (State, Reply)
    requires s.toClient != []
  {
    var reply := s.toClient[0];
    var expiry := if reply.answers.None? then TakenBy(i) else s.expiry;
    (s.(toClient := s.toClient[1..], expiry := expiry), reply)
  }

  function Update(s: State, i: nat, c: Call): State
    requires i < |s.calls|
  {
    s.(calls := s.calls[i := c])
  }

  function Apply(s: State, step: Step): State
    requires Enabled(s, step)
  {
    match step
    case Begin(r) => s.(calls := s.calls + [Begun(r)])
    case Capture(i) =>
      Update(s, i, if s.connected then Captured(s.calls[i].request) else Failed(s.calls[i].request))
    case Number(i) =>
      Update(s, i, Numbered(s.calls[i].request, s.numbered + 1)).(numbered := s.numbered + 1)
    case Lock(i) =>
      Update(s, i, Holding(s.calls[i].request, s.calls[i].order)).(mutex := Some(i))
    case Write(i) =>
      var c := s.calls[i];
      Update(s, i, Written(c.request, c.order)).(toServer := s.toServer + [Packet(i, c.order, c.request)])
    case WriteFails(i) =>
      Update(s, i, Failed(s.calls[i].request)).(connected := false, mutex := None)
    case Read(i) =>
      var c := s.calls[i];
      var (t, reply) := TakeReply(s, i);
      Update(t, i, Returned(c.request, c.order, reply)).(mutex := None)
    case ReadFails(i) =>
      var t := if s.toClient != [] then TakeReply(s, i).0 else s;
      Update(t, i, Failed(s.calls[i].request)).(connected := false, mutex := None)
    case Register(op) => s.(handlers := s.handlers + {op})
    case Await => s.(server := Reading)
    case Expire => s.(server := Ended(true), toClient := s.toClient + [ExpiredReply()], expiry := OnWire)
    case Stop => s.(server := Ended(false))
    case Accept =>
      var p := s.toServer[0];
      s.(server := Handling(p, p.request.opcode in s.handlers), toServer := s.toServer[1..])
    case Reject => s.(server := Ended(false), toServer := s.toServer[1..])
    case Respond(outcome) =>
      var p := s.server.packet;
      var reply := AnswerTo(p, s.server.registered, outcome);
      s.(server := AtTop, toClient := s.toClient + [reply], answered := s.answered + [Answer(p, reply)])
    case RespondTooLarge => s.(server := Ended(false))
  }

  /** The state after some steps, if each is enabled in turn. */
  function Run(s: State, steps: seq<Step>): Option<State>
    decreases |steps|
  {
    if steps == [] then Some(s)
    else if Enabled(s, steps[0]) then Run(Apply(s, steps[0]), steps[1..])
    else None
  }

  ghost predicate Reachable(s: State) {
    exists s0, steps :: Init(s0) && Run(s0, steps) == Some(s)
  }

  // ----- the invariant -----

  /** The call that has written its request and awaits the reply. */
  ghost predicate Waiting(s: State, i: nat) {
    i < |s.calls| && s.calls[i].Written?
  }

  function PacketOf(s: State, i: nat): Packet
    requires Waiting(s, i)
  {
    Packet(i, s.calls[i].order, s.calls[i].request)
  }

  ghost predicate HasOrder(c: Call) {
    c.Numbered? || c.Holding? || c.Written? || c.Returned?
  }

  /** Exactly the mutex's holder is between locking and unlocking. */
  ghost predicate MutexHeld(s: State) {
    && (s.mutex.Some? ==> s.mutex.value < |s.calls|)
    && forall i :: 0 <= i < |s.calls| ==>
         (s.calls[i].Holding? || s.calls[i].Written? <==> s.mutex == Some(i))
  }

  ghost predicate OrdersDistinct(s: State) {
    && (forall i :: 0 <= i < |s.calls| && HasOrder(s.calls[i]) ==> s.calls[i].order <= s.numbered)
    && forall i, j :: 0 <= i < j < |s.calls| && HasOrder(s.calls[i]) && HasOrder(s.calls[j]) ==>
         s.calls[i].order != s.calls[j].order
  }

  /** The reply on the wire, if any, that answers a call. */
  function AnswersOnWire(s: State): seq<Reply> {
    if s.expiry.OnWire? && s.toClient != [] then s.toClient[..|s.toClient| - 1] else s.toClient
  }

  ghost predicate WireShape(s: State) {
    && (s.expiry.OnWire? ==> s.toClient != [] && s.toClient[|s.toClient| - 1] == ExpiredReply())
    && (!s.expiry.NotSent? ==> s.server.Ended?)
    && |AnswersOnWire(s)| <= 1
  }

  /** An answer on the wire is the server's answer to the packet of the call that is waiting. */
  ghost predicate AnswerIsForWaiter(s: State) {
    AnswersOnWire(s) != [] ==>
      && s.mutex.Some? && Waiting(s, s.mutex.value)
      && AnswersOnWire(s)[0].answers == s.mutex
      && Answer(PacketOf(s, s.mutex.value), AnswersOnWire(s)[0]) in s.answered
      && s.toServer == []
      && !s.server.Handling?
  }

  /** While the server runs, the waiting call's request is in exactly one place and no other
      request is anywhere. */
  ghost predicate OneInFlight(s: State) {
    && (s.server.Handling? ==>
          && s.toServer == [] && s.mutex.Some? && Waiting(s, s.mutex.value)
          && s.server.packet == PacketOf(s, s.mutex.value))
    && (s.toServer != [] && !s.server.Ended? ==>
          && s.mutex.Some? && Waiting(s, s.mutex.value) && s.toServer == [PacketOf(s, s.mutex.value)])
    && (!s.server.Ended? && s.mutex.Some? && Waiting(s, s.mutex.value) ==>
          s.server.Handling? || s.toServer != [] || AnswersOnWire(s) != [])
  }

  /** A call still unanswered has no answer recorded, and each call has at most one. */
  ghost predicate AnsweredOnce(s: State) {
    && (forall a :: a in s.answered ==>
          && a.packet.call < |s.calls|
          && (s.calls[a.packet.call].Written? || s.calls[a.packet.call].Returned? || s.calls[a.packet.call].Failed?))
    && (forall a :: a in s.answered && s.server.Handling? ==> a.packet.call != s.server.packet.call)
    && (forall a, p :: a in s.answered && p in s.toServer && !s.server.Ended? ==> a.packet.call != p.call)
    && forall i, j :: 0 <= i < j < |s.answered| ==> s.answered[i].packet.call != s.answered[j].packet.call
  }

  /** A reply the server may give to a packet: only an opcode with a handler gets past not found. */
  ghost predicate IsAnswer(reply: Reply, p: Packet, handlers: set<Uint16>) {
    exists registered, outcome ::
      (registered ==> p.request.opcode in handlers) && reply == AnswerTo(p, registered, outcome)
  }

  /** Every answer was computed from its packet. */
  ghost predicate AnswersGenuine(s: State) {
    && (s.server.Handling? && s.server.registered ==> s.server.packet.request.opcode in s.handlers)
    && forall a :: a in s.answered ==> IsAnswer(a.reply, a.packet, s.handlers)
  }

  /** The reply a finished call returned is the recorded answer to its own packet, or the one
      frame that ended the session. */
  ghost predicate Paired(s: State, i: nat)
    requires i < |s.calls| && s.calls[i].Returned?
  {
    var c := s.calls[i];
    if c.reply.answers.None? then c.reply == ExpiredReply() && s.expiry == TakenBy(i)
    else Answer(Packet(i, c.order, c.request), c.reply) in s.answered
  }

  ghost predicate AllPaired(s: State) {
    forall i :: 0 <= i < |s.calls| && s.calls[i].Returned? ==> Paired(s, i)
  }

  /** Where requests and replies are. */
  ghost predicate Queues(s: State) {
    MutexHeld(s) && WireShape(s) && AnswerIsForWaiter(s) && OneInFlight(s)
  }

  /** What has been numbered, answered and returned. */
  ghost predicate Records(s: State) {
    OrdersDistinct(s) && AnsweredOnce(s) && AnswersGenuine(s) && AllPaired(s)
  }

  ghost predicate Inv(s: State) {
    Queues(s) && Records(s)
  }

  // ----- every step keeps it -----

  lemma BeginKeepsInv(s: State, step: Step)
    requires Inv(s) && Enabled(s, step) && step.Begin?
    ensures Inv(Apply(s, step))
  {
  }

  lemma CaptureKeepsInv(s: State, step: Step)
    requires Inv(s) && Enabled(s, step) && step.Capture?
    ensures Inv(Apply(s, step))
  {
  }

  lemma NumberKeepsQueues(s: State, step: Step)
    requires Inv(s) && Enabled(s, step) && step.Number?
    ensures Queues(Apply(s, step))
  {
  }

  lemma NumberKeepsRecords(s: State, step: Step)
    requires Inv(s) && Enabled(s, step) && step.Number?
    ensures Records(Apply(s, step))
  {
  }

  lemma LockKeepsInv(s: State, step: Step)
    requires Inv(s) && Enabled(s, step) && step.Lock?
    ensures Inv(Apply(s, step))
  {
  }

  lemma WriteKeepsQueues(s: State, step: Step)
    requires Inv(s) && Enabled(s, step) && step.Write?
    ensures Queues(Apply(s, step))
  {
  }

  lemma WriteKeepsRecords(s: State, step: Step)
    requires Inv(s) && Enabled(s, step) && step.Write?
    ensures Records(Apply(s, step))
  {
  }

  lemma WriteFailsKeepsInv(s: State, step: Step)
    requires Inv(s) && Enabled(s, step) && step.WriteFails?
    ensures Inv(Apply(s, step))
  {
  }

  lemma ReadKeepsQueues(s: State, step: Step)
    requires Inv(s) && Enabled(s, step) && step.Read?
    ensures Queues(Apply(s, step))
  {
  }

  lemma ReadKeepsRecords(s: State, step: Step)
    requires Inv(s) && Enabled(s, step) && step.Read?
    ensures Records(Apply(s, step))
  {
  }

  lemma BadReplyKeepsQueues(s: State, step: Step)
    requires Inv(s) && Enabled(s, step) && step.ReadFails? && s.toClient != []
    ensures Queues(Apply(s, step))
  {
  }

  lemma BadReplyKeepsAnswers(s: State, step: Step)
    requires Inv(s) && Enabled(s, step) && step.ReadFails? && s.toClient != []
    ensures AnsweredOnce(Apply(s, step)) && AnswersGenuine(Apply(s, step))
  {
  }

  lemma BadReplyKeepsPairs(s: State, step: Step)
    requires Inv(s) && Enabled(s, step) && step.ReadFails? && s.toClient != []
    ensures OrdersDistinct(Apply(s, step)) && AllPaired(Apply(s, step))
  {
  }

  lemma EndOfInputKeepsInv(s: State, step: Step)
    requires Inv(s) && Enabled(s, step) && step.ReadFails? && s.toClient == []
    ensures Inv(Apply(s, step))
  {
  }

  lemma RegisterKeepsInv(s: State, step: Step)
    requires Inv(s) && Enabled(s, step) && step.Register?
    ensures Inv(Apply(s, step))
  {
  }

  lemma LoopKeepsInv(s: State, step: Step)
    requires Inv(s) && Enabled(s, step) && (step.Await? || step.Stop? || step.RespondTooLarge?)
    ensures Inv(Apply(s, step))
  {
  }

  lemma ExpireKeepsInv(s: State, step: Step)
    requires Inv(s) && Enabled(s, step) && step.Expire?
    ensures Inv(Apply(s, step))
  {
  }

  lemma TakeRequestKeepsInv(s: State, step: Step)
    requires Inv(s) && Enabled(s, step) && (step.Accept? || step.Reject?)
    ensures Inv(Apply(s, step))
  {
  }

  lemma RespondKeepsQueues(s: State, step: Step)
    requires Inv(s) && Enabled(s, step) && step.Respond?
    ensures Queues(Apply(s, step))
  {
  }

  lemma RespondKeepsPairs(s: State, step: Step)
    requires Inv(s) && Enabled(s, step) && step.Respond?
    ensures OrdersDistinct(Apply(s, step)) && AllPaired(Apply(s, step))
  {
  }

  lemma RespondKeepsAnswers(s: State, step: Step)
    requires Inv(s) && Enabled(s, step) && step.Respond?
    ensures AnsweredOnce(Apply(s, step)) && AnswersGenuine(Apply(s, step))
  {
    var p := s.server.packet;
    assert IsAnswer(AnswerTo(p, s.server.registered, step.outcome), p, s.handlers);
  }

  lemma StepKeepsInv(s: State, step: Step)
    requires Inv(s) && Enabled(s, step)
    ensures Inv(Apply(s, step))
  {
    match step
    case Begin(_) => BeginKeepsInv(s, step);
    case Capture(_) => CaptureKeepsInv(s, step);
    case Number(_) => NumberKeepsQueues(s, step); NumberKeepsRecords(s, step);
    case Lock(_) => LockKeepsInv(s, step);
    case Write(_) => WriteKeepsQueues(s, step); WriteKeepsRecords(s, step);
    case WriteFails(_) => WriteFailsKeepsInv(s, step);
    case Read(_) => ReadKeepsQueues(s, step); ReadKeepsRecords(s, step);
    case ReadFails(_) =>
      if s.toClient != [] {
        BadReplyKeepsQueues(s, step); BadReplyKeepsAnswers(s, step); BadReplyKeepsPairs(s, step);
      } else {
        EndOfInputKeepsInv(s, step);
      }
    case Register(_) => RegisterKeepsInv(s, step);
    case Await => LoopKeepsInv(s, step);
    case Stop => LoopKeepsInv(s, step);
    case RespondTooLarge => LoopKeepsInv(s, step);
    case Expire => ExpireKeepsInv(s, step);
    case Accept => TakeRequestKeepsInv(s, step);
    case Reject => TakeRequestKeepsInv(s, step);
    case Respond(_) => RespondKeepsQueues(s, step); RespondKeepsAnswers(s, step); RespondKeepsPairs(s, step);
  }

  lemma {:induction false} RunKeepsInv(s: State, steps: seq<Step>)
    requires Inv(s) && Run(s, steps).Some?
    ensures Inv(Run(s, steps).value)
    decreases |steps|
  {
    if steps != [] {
      StepKeepsInv(s, steps[0]);
      RunKeepsInv(Apply(s, steps[0]), steps[1..]);
    }
  }

  lemma ReachableInv(s: State)
    requires Reachable(s)
    ensures Inv(s)
  {
    var s0, steps :| Init(s0) && Run(s0, steps) == Some(s);
    RunKeepsInv(s0, steps);
  }

  // ----- what callers may rely on -----

  /** The call got the server's answer to its own request, under its own sequence number, and the
      server answered that request once. */
  ghost predicate GotOwnAnswer(s: State, i: nat)
    requires i < |s.calls| && s.calls[i].Returned?
  {
    var c := s.calls[i];
    && IsAnswer(c.reply, Packet(i, c.order, c.request), s.handlers)
    && c.reply.response.sequence == Sequence(c.order)
    && exists k :: 0 <= k < |s.answered| && s.answered[k] == Answer(Packet(i, c.order, c.request), c.reply)
         && forall j :: 0 <= j < |s.answered| && s.answered[j].packet.call == i ==> j == k
  }

  /** The call got the one frame with which the server ended the session. */
  ghost predicate GotExpiry(s: State, i: nat)
    requires i < |s.calls| && s.calls[i].Returned?
  {
    && s.calls[i].reply.answers == None && s.calls[i].reply.response == Response(5, None, 0)
    && s.server.Ended?
    && forall j :: 0 <= j < |s.calls| && s.calls[j].Returned? && s.calls[j].reply == ExpiredReply() ==> j == i
  }

  /** In every interleaving, each call that returns a response got the server's answer to its own
      request, or it is the single call that got the final session-expired frame. */
  lemma Pairing(s: State, i: nat)
    requires Reachable(s) && i < |s.calls| && s.calls[i].Returned?
    ensures GotOwnAnswer(s, i) || GotExpiry(s, i)
  {
    ReachableInv(s);
    var c := s.calls[i];
    assert Paired(s, i);
    if c.reply.answers.None? {
      forall j | 0 <= j < |s.calls| && s.calls[j].Returned? && s.calls[j].reply == ExpiredReply()
        ensures j == i
      {
        assert Paired(s, j);
      }
    } else {
      var a := Answer(Packet(i, c.order, c.request), c.reply);
      assert IsAnswer(a.reply, a.packet, s.handlers);
      var k :| 0 <= k < |s.answered| && s.answered[k] == a;
      forall j | 0 <= j < |s.answered| && s.answered[j].packet.call == i ensures j == k {
      }
    }
  }

  // ----- what the answer contains -----

  lemma {:induction false} RunSplit(s: State, steps: seq<Step>, k: nat)
    requires Run(s, steps).Some? && k <= |steps|
    ensures Run(s, steps[..k]).Some?
    ensures Run(Run(s, steps[..k]).value, steps[k..]) == Run(s, steps)
    decreases k
  {
    if k == 0 {
      assert steps[0..] == steps;
    } else {
      var front, u := steps[..k], Apply(s, steps[0]);
      TakeTail(steps, k);
      RunSplit(u, steps[1..], k - 1);
      assert Run(s, front) == Run(u, front[1..]);
      assert Run(s, steps) == Run(u, steps[1..]);
    }
  }

  /** The state before the last step, which is enabled there and leads to the last state. */
  lemma LastOf(s: State, steps: seq<Step>) returns (u: State)
    requires steps != [] && Run(s, steps).Some?
    ensures Run(s, steps[..|steps| - 1]) == Some(u)
    ensures Enabled(u, steps[|steps| - 1]) && Run(s, steps) == Some(Apply(u, steps[|steps| - 1]))
  {
    var n := |steps| - 1;
    RunSplit(s, steps, n);
    u := Run(s, steps[..n]).value;
    assert steps[n..] == [steps[n]];
    assert Run(Apply(u, steps[n]), []) == Some(Apply(u, steps[n]));
  }

  /** A handler has been registered for the opcode: before the run or by a step of it. */
  predicate HasHandler(s0: State, steps: seq<Step>, opcode: Uint16) {
    opcode in s0.handlers || Register(opcode) in steps
  }

  lemma {:induction false} HandlersSince(s0: State, steps: seq<Step>, opcode: Uint16)
    requires Run(s0, steps).Some?
    ensures opcode in Run(s0, steps).value.handlers <==> HasHandler(s0, steps, opcode)
    decreases |steps|
  {
    if steps != [] {
      var n := |steps| - 1;
      var u := LastOf(s0, steps);
      HandlersSince(s0, steps[..n], opcode);
      assert steps == steps[..n] + [steps[n]];
    }
  }

  /** Step a takes a call's request off the wire. */
  ghost predicate TakesRequest(s0: State, steps: seq<Step>, a: nat, p: Packet) {
    && a < |steps| && steps[a].Accept?
    && Run(s0, steps[..a]).Some?
    && Run(s0, steps[..a]).value.toServer != [] && Run(s0, steps[..a]).value.toServer[0] == p
  }

  lemma TakesRequestLater(s0: State, steps: seq<Step>, n: nat, a: nat, p: Packet)
    requires n <= |steps| && TakesRequest(s0, steps[..n], a, p)
    ensures TakesRequest(s0, steps, a, p)
  {
    assert steps[..n][..a] == steps[..a];
  }

  /** A request in a handler was taken by an earlier step, and nothing has been answered since. */
  lemma {:induction false} HandlingSince(s0: State, steps: seq<Step>) returns (a: nat)
    requires Init(s0) && Run(s0, steps).Some? && Run(s0, steps).value.server.Handling?
    ensures var server := Run(s0, steps).value.server;
            && TakesRequest(s0, steps, a, server.packet)
            && (server.registered <==> HasHandler(s0, steps[..a], server.packet.request.opcode))
    ensures forall k :: a < k < |steps| ==> !steps[k].Respond?
    decreases |steps|
  {
    var n := |steps| - 1;
    var u := LastOf(s0, steps);
    if steps[n].Accept? {
      a := n;
      HandlersSince(s0, steps[..n], u.toServer[0].request.opcode);
    } else {
      a := HandlingSince(s0, steps[..n]);
      assert u.server == Run(s0, steps).value.server;
      TakesRequestLater(s0, steps, n, a, u.server.packet);
      assert steps[..n][..a] == steps[..a];
      assert forall k :: a < k < n ==> steps[k] == steps[..n][k];
    }
  }

  /** The response to a request, field by field: what the handler said under the request's number, or
      why no handler said anything. */
  predicate AnswerFields(r: Response, request: Request, order: nat, known: bool, outcome: Outcome) {
    && r.sequence == order % 0x1_0000_0000
    && (!known ==> r.status == 4 && r.payload == Some([Entry(Ascii("opcode"), U16(request.opcode))]))
    && (known && outcome.Errs? ==>
          r.status == 7 && r.payload == Some([Entry(Ascii("error"), Str(Ascii("internal error")))]))
    && (known && outcome.Responds? ==> r.status == outcome.status && r.payload == outcome.payload)
  }

  /** Step a takes the request, step b is the first to answer after it, and the response is what b's
      handler made of the request. */
  ghost predicate AnsweredBy(s0: State, steps: seq<Step>, a: nat, b: nat, p: Packet, r: Response) {
    && TakesRequest(s0, steps, a, p) && a < b < |steps|
    && steps[b].Respond? && (forall k :: a < k < b ==> !steps[k].Respond?)
    && AnswerFields(r, p.request, p.order, HasHandler(s0, steps[..a], p.request.opcode), steps[b].outcome)
  }

  lemma {:induction false} AnsweredSince(s0: State, steps: seq<Step>, i: nat) returns (a: nat, b: nat)
    requires Init(s0) && Run(s0, steps).Some? && i < |Run(s0, steps).value.answered|
    ensures var answer := Run(s0, steps).value.answered[i];
            AnsweredBy(s0, steps, a, b, answer.packet, answer.reply.response)
    decreases |steps|
  {
    var n := |steps| - 1;
    var u := LastOf(s0, steps);
    if i < |u.answered| {
      a, b := AnsweredSince(s0, steps[..n], i);
      TakesRequestLater(s0, steps, n, a, u.answered[i].packet);
      assert steps[..n][..a] == steps[..a] && forall k :: a < k < n ==> steps[k] == steps[..n][k];
    } else {
      a := HandlingSince(s0, steps[..n]);
      b := n;
      TakesRequestLater(s0, steps, n, a, u.server.packet);
      assert steps[..n][..a] == steps[..a] && forall k :: a < k < n ==> steps[k] == steps[..n][k];
    }
  }

  /** A call's request is the one it was made with. */
  lemma {:induction false} RequestSince(s0: State, steps: seq<Step>, i: nat) returns (k: nat)
    requires Init(s0) && Run(s0, steps).Some? && i < |Run(s0, steps).value.calls|
    ensures k < |steps| && steps[k] == Begin(Run(s0, steps).value.calls[i].request)
    ensures Run(s0, steps[..k]).Some? && |Run(s0, steps[..k]).value.calls| == i
    decreases |steps|
  {
    var n := |steps| - 1;
    var u := LastOf(s0, steps);
    if i < |u.calls| {
      k := RequestSince(s0, steps[..n], i);
      assert steps[..n][..k] == steps[..k];
    } else {
      k := n;
    }
  }

  /** In every run, a call that returns a response other than the expiry frame made its request by a
      step of its own, the server took that request off the wire and then answered it, and the
      response has the handler's status and payload, or says that there is no handler or that it
      failed, under the request's own number. */
  lemma AnswerContents(s0: State, steps: seq<Step>, i: nat) returns (k: nat, a: nat, b: nat)
    requires Init(s0) && Run(s0, steps).Some? && i < |Run(s0, steps).value.calls|
    requires var c := Run(s0, steps).value.calls[i]; c.Returned? && c.reply.answers.Some?
    ensures k < |steps| && steps[k] == Begin(Run(s0, steps).value.calls[i].request)
    ensures Run(s0, steps[..k]).Some? && |Run(s0, steps[..k]).value.calls| == i
    ensures var c := Run(s0, steps).value.calls[i];
            AnsweredBy(s0, steps, a, b, Packet(i, c.order, c.request), c.reply.response)
  {
    var t := Run(s0, steps).value;
    var c := t.calls[i];
    RunKeepsInv(s0, steps);
    assert Paired(t, i);
    var j :| 0 <= j < |t.answered| && t.answered[j] == Answer(Packet(i, c.order, c.request), c.reply);
    a, b := AnsweredSince(s0, steps, j);
    k := RequestSince(s0, steps, i);
  }

  // ----- the end of the loop -----

  /** The server closes the connection when it ends an expired session, and leaves it open when its
      context ends, a request does not decode or a response cannot be written. */
  lemma {:induction false} EndedExactly(s0: State, steps: seq<Step>)
    requires Init(s0) && Run(s0, steps).Some?
    ensures Run(s0, steps).value.server == Ended(true) <==> Expire in steps
    ensures Run(s0, steps).value.server == Ended(false) <==>
              Stop in steps || Reject in steps || RespondTooLarge in steps
    decreases |steps|
  {
    if steps != [] {
      var n := |steps| - 1;
      var u := LastOf(s0, steps);
      EndedExactly(s0, steps[..n]);
      assert steps == steps[..n] + [steps[n]];
    }
  }

  // ----- sequence numbers -----

  /** How many of the steps take a sequence number. */
  function Numberings(steps: seq<Step>): nat {
    if steps == [] then 0 else Numberings(steps[..|steps| - 1]) + if steps[|steps| - 1].Number? then 1 else 0
  }

  lemma {:induction false} NumberedExactly(s0: State, steps: seq<Step>)
    requires Init(s0) && Run(s0, steps).Some?
    ensures Run(s0, steps).value.numbered == Numberings(steps)
    decreases |steps|
  {
    if steps != [] {
      var u := LastOf(s0, steps);
      NumberedExactly(s0, steps[..|steps| - 1]);
    }
  }

  /** The running number of a call counts the numberings up to its own, from 1 on. */
  lemma {:induction false} OrderExactly(s0: State, steps: seq<Step>, i: nat) returns (m: nat)
    requires Init(s0) && Run(s0, steps).Some? && i < |Run(s0, steps).value.calls|
    requires HasOrder(Run(s0, steps).value.calls[i])
    ensures m < |steps| && steps[m] == Number(i)
    ensures Run(s0, steps).value.calls[i].order == Numberings(steps[..m]) + 1
    decreases |steps|
  {
    var n := |steps| - 1;
    var u := LastOf(s0, steps);
    if steps[n] == Number(i) {
      m := n;
      NumberedExactly(s0, steps[..n]);
    } else {
      m := OrderExactly(s0, steps[..n], i);
      assert steps[..n][..m] == steps[..m];
    }
  }

  // ----- the client's connection -----

  predicate Fails(step: Step) {
    step.WriteFails? || step.ReadFails?
  }

  /** The client keeps its connection until a write or a read fails, and not longer. */
  lemma {:induction false} ConnectedExactly(s0: State, steps: seq<Step>)
    requires Run(s0, steps).Some?
    ensures Run(s0, steps).value.connected <==>
              s0.connected && forall k :: 0 <= k < |steps| ==> !Fails(steps[k])
    decreases |steps|
  {
    if steps != [] {
      ConnectedExactly(Apply(s0, steps[0]), steps[1..]);
      assert forall k :: 1 <= k < |steps| ==> steps[k] == steps[1..][k - 1];
    }
  }

  /** After a failure no further call gets to the wire: whoever has not yet seen an open connection
      can only fail. */
  lemma {:induction false} NoCallAfterFailure(s: State, steps: seq<Step>, i: nat)
    requires !s.connected && Run(s, steps).Some? && i < |Run(s, steps).value.calls|
    requires i < |s.calls| ==> s.calls[i].Begun? || s.calls[i].Failed?
    ensures Run(s, steps).value.calls[i].Begun? || Run(s, steps).value.calls[i].Failed?
    decreases |steps|
  {
    if steps != [] {
      NoCallAfterFailure(Apply(s, steps[0]), steps[1..], i);
    }
  }

  // ----- one request at a time -----

  /** While the server's loop runs, at most one request is unanswered on the wire or in the server. */
  lemma OneUnanswered(s: State)
    requires Reachable(s) && !s.server.Ended?
    ensures |s.toServer| + (if s.server.Handling? then 1 else 0) <= 1
  {
    ReachableInv(s);
  }

  /** While the server's loop runs, a call that waits for a response can be served: it can read,
      or the server has a step towards its answer. */
  lemma WaiterIsServed(s: State, i: nat)
    requires Reachable(s) && Waiting(s, i) && !s.server.Ended?
    ensures Enabled(s, Read(i)) || Enabled(s, Await) || Enabled(s, Accept) || s.server.Handling?
    ensures s.server.Handling? ==> s.server.packet == PacketOf(s, i)
  {
    ReachableInv(s);
    assert s.mutex == Some(i);
  }

  // ----- calls that never return -----

  /** The server's loop has ended without closing the connection and has left no reply to read. */
  ghost predicate Hung(s: State, i: nat) {
    Waiting(s, i) && s.mutex == Some(i) && s.server == Ended(false) && s.toClient == []
  }

  lemma StepKeepsHung(s: State, step: Step, i: nat)
    requires Inv(s) && Hung(s, i) && Enabled(s, step)
    ensures Hung(Apply(s, step), i)
  {
  }

  lemma {:induction false} RunKeepsHung(s: State, steps: seq<Step>, i: nat)
    requires Inv(s) && Hung(s, i) && Run(s, steps).Some?
    ensures Hung(Run(s, steps).value, i)
    decreases |steps|
  {
    if steps != [] {
      StepKeepsHung(s, steps[0], i);
      StepKeepsInv(s, steps[0]);
      RunKeepsHung(Apply(s, steps[0]), steps[1..], i);
    }
  }

  /** Steps that take the waiting call out of its wait. */
  lemma WayOut(s: State, i: nat) returns (steps: seq<Step>)
    requires Inv(s) && Waiting(s, i) && !(s.server == Ended(false) && s.toClient == [])
    ensures Run(s, steps).Some? && !Waiting(Run(s, steps).value, i)
    decreases if s.toClient != [] || s.server.Ended? then 0 else if s.server.Handling? then 1
              else if s.server.Reading? then 2 else 3
  {
    if s.toClient != [] {
      steps := LastStep(s, Read(i), i);
    } else if s.server == Ended(true) {
      steps := LastStep(s, ReadFails(i), i);
    } else {
      var step := if s.server.Handling? then Respond(Errs) else if s.server.Reading? then Accept else Await;
      assert s.mutex == Some(i);
      StepKeepsInv(s, step);
      var later := WayOut(Apply(s, step), i);
      steps := [step] + later;
      assert steps[1..] == later;
    }
  }

  lemma LastStep(s: State, step: Step, i: nat) returns (steps: seq<Step>)
    requires Enabled(s, step) && !Waiting(Apply(s, step), i)
    ensures Run(s, steps) == Some(Apply(s, step))
  {
    steps := [step];
    assert Run(Apply(s, step), []) == Some(Apply(s, step));
  }

  /** A waiting call waits for ever, whatever client and server do next, exactly when the loop has
      ended without closing the connection and no reply is left to read. It keeps the mutex, so no
      other call, and no closing of the client, gets past it. */
  lemma HangsExactly(s: State, i: nat)
    requires Reachable(s) && Waiting(s, i)
    ensures (forall steps :: Run(s, steps).Some? ==> Waiting(Run(s, steps).value, i)) <==>
              s.server == Ended(false) && s.toClient == []
    ensures s.server == Ended(false) && s.toClient == [] ==>
              forall steps :: Run(s, steps).Some? ==> Run(s, steps).value.mutex == Some(i)
  {
    ReachableInv(s);
    assert s.mutex == Some(i);
    if s.server == Ended(false) && s.toClient == [] {
      forall steps | Run(s, steps).Some? ensures Hung(Run(s, steps).value, i) {
        RunKeepsHung(s, steps, i);
      }
    } else {
      var steps := WayOut(s, i);
    }
  }

  /** Two calls carry the same sequence number only if a multiple of 2^32 calls lie between them. */
  lemma SequenceReuse(s: State, i: nat, j: nat)
    requires Reachable(s) && i < j < |s.calls| && HasOrder(s.calls[i]) && HasOrder(s.calls[j])
    requires Sequence(s.calls[i].order) == Sequence(s.calls[j].order)
    ensures s.calls[i].order != s.calls[j].order
    ensures (s.calls[i].order - s.calls[j].order) % 0x1_0000_0000 == 0
  {
    ReachableInv(s);
  }
}
