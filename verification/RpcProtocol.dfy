/** Any number of RPC clients and one server around a broker that may lose, delay, reorder and redeliver
    every message, with crashes in between. A run is an arbitrary list of steps; a step that is not
    enabled does nothing. */
module RpcProtocol {
  import opened Common
  import opened Rpc

  /** A call in progress: the request it published, and how many executions there had been by then. */
  datatype Pending = Pending(request: Request, since: nat)

  datatype Client = Client(corrId: Option<CorrelationId>, response: Reply, call: Option<Pending>)

  datatype Server = Free | Executed(request: Request, outcome: Outcome) | Answered(request: Request)

  datatype Execution = Execution(request: Request, outcome: Outcome)

  datatype Sent = Sent(to: ClientId, corrId: CorrelationId, reply: Reply)

  datatype Return = Return(call: Pending, result: CallResult)

  datatype State = State(
    clients: map<ClientId, Client>,
    used: set<CorrelationId>,
    queue: set<Request>,            // requests ever published; any may be (re)delivered
    server: Server,
    executions: seq<Execution>,
    sent: set<Sent>,                // replies ever published; any may be delivered, any number of times
    answered: multiset<Request>,    // one entry a published reply
    dropped: multiset<Request>,     // executed, but the server died before replying
    acked: multiset<Request>,
    finished: seq<Return>)

  datatype Step =
    | BeginCall(c: ClientId, newId: CorrelationId, body: Json, serializable: bool)
    | Cast(c: ClientId, newId: CorrelationId, body: Json, serializable: bool)
    | Receive(reply: Sent)
    | EndCall(c: ClientId)
    | RestartClient(c: ClientId)
    | Execute(request: Request, outcome: Outcome)
    | Answer
    | Ack
    | CrashServer

  const INIT: State := State(map[], {}, {}, Free, [], {}, multiset{}, multiset{}, multiset{}, [])

  const NEW_CLIENT: Client := Client(None, NO_RESPONSE, None)

  function ClientOf(s: State, c: ClientId): Client {
    if c in s.clients then s.clients[c] else NEW_CLIENT
  }

  function WithClient(s: State, c: ClientId, client: Client): State { s.(clients := s.clients[c := client]) }

  function Apply(s: State, step: Step): State {
    match step
    case BeginCall(c, newId, body, serializable) =>
      if newId in s.used || ClientOf(s, c).call.Some? then s
      else
        var r := Request(newId, Some(c), body);
        var s1 := s.(used := s.used + {newId});
        if serializable
        then
          var waiting := Client(Some(newId), NO_RESPONSE, Some(Pending(r, |s.executions|)));
          WithClient(s1, c, waiting).(queue := s.queue + {r})
        else WithClient(s1, c, Client(Some(newId), NO_RESPONSE, None))
    case Cast(c, newId, body, serializable) =>
      if newId in s.used || ClientOf(s, c).call.Some? then s
      else
        var s1 := WithClient(s.(used := s.used + {newId}), c, ClientOf(s, c).(corrId := Some(newId)));
        if serializable then s1.(queue := s.queue + {Request(newId, None, body)}) else s1
    case Receive(m) =>
      var client := ClientOf(s, m.to);
      if m !in s.sent || client.corrId != Some(m.corrId) then s
      else WithClient(s, m.to, client.(response := m.reply))
    case EndCall(c) =>
      var client := ClientOf(s, c);
      if client.call.None? then s
      else WithClient(s, c, client.(call := None)).(
        finished := s.finished + [Return(client.call.value, Conclude(client.response))])
    case RestartClient(c) => WithClient(s, c, NEW_CLIENT)
    case Execute(r, outcome) =>
      if !s.server.Free? || r !in s.queue then s
      else s.(server := Executed(r, outcome), executions := s.executions + [Execution(r, outcome)])
    case Answer =>
      if !s.server.Executed? then s
      else
        var r := s.server.request;
        var s1 := s.(server := Answered(r));
        if r.replyTo.None? then s1
        else s1.(sent := s.sent + {Sent(r.replyTo.value, r.corrId, ReplyTo(s.server.outcome))},
                 answered := s.answered + multiset{r})
    case Ack =>
      if !s.server.Answered? then s
      else s.(server := Free, acked := s.acked + multiset{s.server.request})
    case CrashServer => s.(server := Free, dropped := s.dropped + InHand(s.server))
  }

  /** A request that wants a reply, is executed, and is not answered yet. */
  function InHand(server: Server): multiset<Request> {
    if server.Executed? && server.request.replyTo.Some? then multiset{server.request} else multiset{}
  }

  function Run(s: State, steps: seq<Step>): State {
    if steps == [] then s else Apply(Run(s, steps[..|steps| - 1]), steps[|steps| - 1])
  }

  // ---------- what a returned value means ----------

  ghost predicate Explains(executions: seq<Execution>, i: int, request: Request, reply: Reply) {
    && 0 <= i < |executions|
    && executions[i].request == request
    && reply == ReplyTo(executions[i].outcome)
  }

  /** A call that did not time out was answered by an execution of the very request it published, which
      happened after it was published, and its result is the verdict on that execution's outcome. */
  ghost predicate Justified(executions: seq<Execution>, r: Return) {
    r.result != Timeout ==>
      exists i :: r.call.since <= i < |executions| && executions[i].request == r.call.request &&
                  r.result == Conclude(ReplyTo(executions[i].outcome))
  }

  ghost predicate SafeReturns(s: State) {
    forall n :: 0 <= n < |s.finished| ==> Justified(s.executions, s.finished[n])
  }

  ghost predicate QueueInvariant(s: State) {
    && (forall r :: r in s.queue ==> r.corrId in s.used)
    && (forall r1, r2 :: r1 in s.queue && r2 in s.queue && r1.corrId == r2.corrId ==> r1 == r2)
    && (forall i :: 0 <= i < |s.executions| ==> s.executions[i].request in s.queue)
    && (s.server.Executed? ==>
          s.server.request in s.queue &&
          exists i :: Explains(s.executions, i, s.server.request, ReplyTo(s.server.outcome)))
  }

  ghost predicate ReplyInvariant(s: State, m: Sent) {
    exists r, i :: r in s.queue && r.corrId == m.corrId && r.replyTo == Some(m.to) &&
                   Explains(s.executions, i, r, m.reply)
  }

  ghost predicate CallInvariant(s: State, c: ClientId) {
    var client := ClientOf(s, c);
    client.call.Some? ==>
      var Pending(r, since) := client.call.value;
      && r in s.queue && client.corrId == Some(r.corrId) && r.replyTo == Some(c)
      && since <= |s.executions|
      && (forall i :: 0 <= i < since ==> s.executions[i].request.corrId != r.corrId)
      && (client.response == NO_RESPONSE || exists i :: Explains(s.executions, i, r, client.response))
  }

  ghost predicate Invariant(s: State) {
    && QueueInvariant(s)
    && (forall m :: m in s.sent ==> ReplyInvariant(s, m))
    && (forall c :: CallInvariant(s, c))
    && SafeReturns(s)
  }

  /** Everything already explained stays explained while queue and executions only grow. */
  lemma ExplanationsLast(s: State, s': State)
    requires s.queue <= s'.queue && s.executions <= s'.executions
    ensures forall m :: m in s.sent && ReplyInvariant(s, m) ==> ReplyInvariant(s', m)
    ensures forall r :: Justified(s.executions, r) ==> Justified(s'.executions, r)
    ensures forall c :: ClientOf(s', c) == ClientOf(s, c) && CallInvariant(s, c) ==> CallInvariant(s', c)
  {
    assert forall i, r, reply :: Explains(s.executions, i, r, reply) ==> Explains(s'.executions, i, r, reply);
    forall m | m in s.sent && ReplyInvariant(s, m) ensures ReplyInvariant(s', m) {
      var r, i :| r in s.queue && r.corrId == m.corrId && r.replyTo == Some(m.to) &&
                  Explains(s.executions, i, r, m.reply);
      assert Explains(s'.executions, i, r, m.reply);
    }
    forall r | Justified(s.executions, r) ensures Justified(s'.executions, r) {
      if r.result != Timeout {
        var i :| r.call.since <= i < |s.executions| && s.executions[i].request == r.call.request &&
                 r.result == Conclude(ReplyTo(s.executions[i].outcome));
        assert s'.executions[i] == s.executions[i];
      }
    }
  }

  lemma ExecuteKeeps(s: State, request: Request, outcome: Outcome)
    requires Invariant(s)
    ensures Invariant(Apply(s, Execute(request, outcome)))
  {
    var s' := Apply(s, Execute(request, outcome));
    ExplanationsLast(s, s');
    assert s' != s ==> Explains(s'.executions, |s.executions|, request, ReplyTo(outcome));
    assert forall c :: ClientOf(s', c) == ClientOf(s, c);
  }

  lemma AnswerKeeps(s: State, step: Step)
    requires Invariant(s) && (step.Answer? || step.Ack? || step.CrashServer?)
    ensures Invariant(Apply(s, step))
  {
    var s' := Apply(s, step);
    ExplanationsLast(s, s');
    if step.Answer? && s' != s && s.server.request.replyTo.Some? {
      var r := s.server.request;
      var i :| Explains(s.executions, i, r, ReplyTo(s.server.outcome));
      assert ReplyInvariant(s', Sent(r.replyTo.value, r.corrId, ReplyTo(s.server.outcome)));
    }
    assert forall c :: ClientOf(s', c) == ClientOf(s, c);
  }

  lemma PublishStepKeeps(s: State, step: Step)
    requires Invariant(s) && (step.BeginCall? || step.Cast? || step.RestartClient?)
    ensures Invariant(Apply(s, step))
  {
    var s' := Apply(s, step);
    ExplanationsLast(s, s');
    forall c ensures CallInvariant(s', c) {
      if c != step.c { assert ClientOf(s', c) == ClientOf(s, c); }
    }
  }

  lemma ReceiveKeeps(s: State, m: Sent)
    requires Invariant(s)
    ensures Invariant(Apply(s, Receive(m)))
  {
    var s' := Apply(s, Receive(m));
    ExplanationsLast(s, s');
    forall c ensures CallInvariant(s', c) {
      if c != m.to || s' == s {
        assert ClientOf(s', c) == ClientOf(s, c);
      } else if ClientOf(s, c).call.Some? {
        assert CallInvariant(s, c) && ReplyInvariant(s, m);
        var r, i :| r in s.queue && r.corrId == m.corrId && r.replyTo == Some(m.to) &&
                    Explains(s.executions, i, r, m.reply);
        assert r == ClientOf(s, c).call.value.request;
      }
    }
  }

  lemma EndCallKeeps(s: State, c: ClientId)
    requires Invariant(s)
    ensures Invariant(Apply(s, EndCall(c)))
  {
    var s' := Apply(s, EndCall(c));
    ExplanationsLast(s, s');
    forall k ensures CallInvariant(s', k) {
      if k != c { assert ClientOf(s', k) == ClientOf(s, k); }
    }
    var client := ClientOf(s, c);
    if client.call.Some? {
      assert CallInvariant(s, c);
      var ret := Return(client.call.value, Conclude(client.response));
      if client.response != NO_RESPONSE {
        var i :| Explains(s.executions, i, ret.call.request, client.response);
        assert ret.call.since <= i;
      }
      assert Justified(s'.executions, ret);
    }
  }

  lemma StepKeepsInvariant(s: State, step: Step)
    requires Invariant(s)
    ensures Invariant(Apply(s, step))
  {
    match step
    case BeginCall(_, _, _, _) => PublishStepKeeps(s, step);
    case Cast(_, _, _, _) => PublishStepKeeps(s, step);
    case RestartClient(_) => PublishStepKeeps(s, step);
    case Receive(m) => ReceiveKeeps(s, m);
    case EndCall(c) => EndCallKeeps(s, c);
    case Execute(r, outcome) => ExecuteKeeps(s, r, outcome);
    case Answer => AnswerKeeps(s, step);
    case Ack => AnswerKeeps(s, step);
    case CrashServer => AnswerKeeps(s, step);
  }

  lemma {:induction false} RunFromKeepsInvariant(s: State, steps: seq<Step>)
    requires Invariant(s)
    ensures Invariant(Run(s, steps))
  {
    if steps == [] {
    } else {
      hide Invariant, Apply;
      RunFromKeepsInvariant(s, steps[..|steps| - 1]);
      StepKeepsInvariant(Run(s, steps[..|steps| - 1]), steps[|steps| - 1]);
    }
  }

  lemma RunKeepsInvariant(steps: seq<Step>)
    ensures Invariant(Run(INIT, steps))
  {
    RunFromKeepsInvariant(INIT, steps);
  }

  /** In every run: a value returned by a call was produced by an execution of the request that this
      call published, after it was published, or is the empty object handed out for an execution that
      failed with an empty error text. */
  lemma {:induction false} ReturnedValuesAreGenuine(steps: seq<Step>, n: nat, v: Json)
    requires n < |Run(INIT, steps).finished| && Run(INIT, steps).finished[n].result == Value(v)
    ensures var s := Run(INIT, steps);
            var call := s.finished[n].call;
            exists i :: call.since <= i < |s.executions| && s.executions[i].request == call.request &&
                        (s.executions[i].outcome == Produced(v) ||
                         (SilentFailure(s.executions[i].outcome) && v == EmptyObject))
  {
    RunKeepsInvariant(steps);
    var s := Run(INIT, steps);
    var r := s.finished[n];
    assert Justified(s.executions, r);
    var i :| r.call.since <= i < |s.executions| && s.executions[i].request == r.call.request &&
             r.result == Conclude(ReplyTo(s.executions[i].outcome));
    ReplyMeaning(s.executions[i].outcome, v, "");
  }

  /** And a call that ends with an error text comes from an execution of the request it published, after it was
      published, that failed with exactly that text. */
  lemma {:induction false} ReturnedErrorsAreGenuine(steps: seq<Step>, n: nat, text: string)
    requires n < |Run(INIT, steps).finished| && Run(INIT, steps).finished[n].result == RemoteError(text)
    ensures var s := Run(INIT, steps);
            var call := s.finished[n].call;
            exists i :: call.since <= i < |s.executions| && s.executions[i].request == call.request &&
                        ((s.executions[i].outcome == Raised(text) && text != "") ||
                         (s.executions[i].outcome.Unserializable? &&
                          text == "Error serializing data to JSON: " + s.executions[i].outcome.why))
  {
    RunKeepsInvariant(steps);
    var s := Run(INIT, steps);
    var r := s.finished[n];
    assert Justified(s.executions, r);
    var i :| r.call.since <= i < |s.executions| && s.executions[i].request == r.call.request &&
             r.result == Conclude(ReplyTo(s.executions[i].outcome));
    ReplyMeaning(s.executions[i].outcome, EmptyObject, text);
  }

  lemma RunPlus(steps: seq<Step>, step: Step)
    ensures Run(INIT, steps + [step]) == Apply(Run(INIT, steps), step)
  {
    assert (steps + [step])[..|steps|] == steps;
  }

  /** One more step of a run, with the state it leads to. */
  lemma {:induction false} Next(steps: seq<Step>, s: State, step: Step) returns (s': State)
    requires s == Run(INIT, steps)
    ensures s' == Apply(s, step) == Run(INIT, steps + [step])
  {
    s' := Apply(s, step);
    RunPlus(steps, step);
  }

  /** The exception is real: one execution, raising with an empty text, and the call returns a value that
      no execution produced. */
  lemma SilentFailureReturnsValue() returns (steps: seq<Step>)
    ensures var s := Run(INIT, steps);
            && |s.finished| == 1 && s.finished[0].result == Value(EmptyObject)
            && s.executions == [Execution(s.finished[0].call.request, Raised(""))]
  {
    var r := Request(0, Some(0), EmptyObject);
    var reply := Sent(0, 0, ReplyTo(Raised("")));
    var s1 := Next([], INIT, BeginCall(0, 0, EmptyObject, true));
    steps := [] + [BeginCall(0, 0, EmptyObject, true)];
    var s2 := Next(steps, s1, Execute(r, Raised("")));
    steps := steps + [Execute(r, Raised(""))];
    var s3 := Next(steps, s2, Answer);
    steps := steps + [Answer];
    var s4 := Next(steps, s3, Receive(reply));
    steps := steps + [Receive(reply)];
    assert ClientOf(s4, 0) == Client(Some(0), ReplyTo(Raised("")), Some(Pending(r, 0)));
    var s5 := Next(steps, s4, EndCall(0));
    steps := steps + [EndCall(0)];
  }

  // ---------- the server's books ----------

  /** How many executions there were of `r`. */
  function Executions(executions: seq<Execution>, r: Request): nat {
    if executions == [] then 0
    else Executions(executions[..|executions| - 1], r) + if executions[|executions| - 1].request == r then 1 else 0
  }

  ghost predicate AnswersBalance(s: State) {
    forall r: Request :: r.replyTo.Some? ==>
      Executions(s.executions, r) == s.answered[r] + s.dropped[r] + InHand(s.server)[r]
  }

  /** Acknowledgements of `r`, counting the one that is due now. */
  function AcksOf(s: State, r: Request): nat {
    s.acked[r] + if s.server == Answered(r) then 1 else 0
  }

  ghost predicate AcksFollowAnswers(s: State) {
    forall r: Request :: r.replyTo.Some? ==> AcksOf(s, r) <= s.answered[r]
  }

  predicate ServerStep(step: Step) { step.Execute? || step.Answer? || step.Ack? || step.CrashServer? }

  lemma ClientsDoNotTouchBooks(s: State, step: Step)
    requires !ServerStep(step)
    ensures var s' := Apply(s, step);
            && s'.executions == s.executions && s'.server == s.server && s'.answered == s.answered
            && s'.dropped == s.dropped && s'.acked == s.acked
  {
  }

  lemma OneMoreExecution(executions: seq<Execution>, e: Execution, r: Request)
    ensures Executions(executions + [e], r) == Executions(executions, r) + if e.request == r then 1 else 0
  {
    assert (executions + [e])[..|executions|] == executions;
  }

  lemma ExecuteKeepsAnswersBalance(s: State, request: Request, outcome: Outcome)
    requires AnswersBalance(s)
    ensures AnswersBalance(Apply(s, Execute(request, outcome)))
  {
    var s' := Apply(s, Execute(request, outcome));
    if s' != s {
      forall r: Request | r.replyTo.Some?
        ensures Executions(s'.executions, r) == s'.answered[r] + s'.dropped[r] + InHand(s'.server)[r]
      {
        OneMoreExecution(s.executions, Execution(request, outcome), r);
        assert InHand(s.server)[r] == 0;
      }
    }
  }

  lemma ServerKeepsAnswersBalance(s: State, step: Step)
    requires AnswersBalance(s) && ServerStep(step)
    ensures AnswersBalance(Apply(s, step))
  {
    if step.Execute? {
      ExecuteKeepsAnswersBalance(s, step.request, step.outcome);
    } else {
      var s' := Apply(s, step);
      assert s'.executions == s.executions;
      forall r: Request | r.replyTo.Some?
        ensures s'.answered[r] + s'.dropped[r] + InHand(s'.server)[r] ==
                s.answered[r] + s.dropped[r] + InHand(s.server)[r]
      {
      }
    }
  }

  lemma ServerKeepsAcks(s: State, step: Step)
    requires AcksFollowAnswers(s) && ServerStep(step)
    ensures AcksFollowAnswers(Apply(s, step))
  {
    var s' := Apply(s, step);
    forall r: Request | r.replyTo.Some? ensures AcksOf(s', r) <= s'.answered[r] {
      assert AcksOf(s, r) <= s.answered[r];
    }
  }

  /** In every run each execution that wanted a reply was answered once, lost to a crash, or is in hand;
      and no request is acknowledged before its reply is published. */
  lemma {:induction false} BooksBalance(steps: seq<Step>)
    ensures AnswersBalance(Run(INIT, steps))
    ensures AcksFollowAnswers(Run(INIT, steps))
  {
    if steps == [] {
    } else {
      var s, step := Run(INIT, steps[..|steps| - 1]), steps[|steps| - 1];
      BooksBalance(steps[..|steps| - 1]);
      if ServerStep(step) {
        ServerKeepsAnswersBalance(s, step);
        ServerKeepsAcks(s, step);
      } else {
        ClientsDoNotTouchBooks(s, step);
        assert forall r: Request :: AcksOf(Apply(s, step), r) == AcksOf(s, r);
      }
    }
  }

  lemma DroppedOnlyByCrash(s: State, step: Step)
    requires step != CrashServer
    ensures Apply(s, step).dropped == s.dropped
  {
  }

  lemma {:induction false} NothingDroppedWithoutCrash(steps: seq<Step>)
    requires CrashServer !in steps
    ensures Run(INIT, steps).dropped == multiset{}
  {
    if steps == [] {
    } else {
      NothingDroppedWithoutCrash(steps[..|steps| - 1]);
      DroppedOnlyByCrash(Run(INIT, steps[..|steps| - 1]), steps[|steps| - 1]);
    }
  }

  /** Without server crashes, whenever the server is between requests, the replies published for a request
      that asked for one are as many as its executions. */
  lemma {:induction false} RepliesEqualExecutions(steps: seq<Step>, r: Request)
    requires CrashServer !in steps && !Run(INIT, steps).server.Executed? && r.replyTo.Some?
    ensures Run(INIT, steps).answered[r] == Executions(Run(INIT, steps).executions, r)
  {
    BooksBalance(steps);
    NothingDroppedWithoutCrash(steps);
  }

  /** A cast is never answered: no published reply, to any client, carries its correlation id. */
  lemma CastsAreNeverAnswered(steps: seq<Step>, r: Request, m: Sent)
    requires r in Run(INIT, steps).queue && r.replyTo.None?
    requires m in Run(INIT, steps).sent
    ensures m.corrId != r.corrId
  {
    RunKeepsInvariant(steps);
    assert ReplyInvariant(Run(INIT, steps), m);
  }
}
