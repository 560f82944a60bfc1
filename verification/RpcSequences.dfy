/** The RPC protocol against the client and server methods: in any run, a call returns what the client's own
    loop makes of the deliveries it heard while it waited, and an uninterrupted request is what the server's
    method does. */
module RpcSequences {
  import opened Common
  import opened Rpc
  import opened RpcProtocol

  /** Steps that can happen while a call of client `c` waits: it does nothing else meanwhile. All other
      clients, the server and the broker go on. */
  predicate WhileWaiting(c: ClientId, step: Step) {
    match step
    case BeginCall(k, _, _, _) => k != c
    case Cast(k, _, _, _) => k != c
    case EndCall(k) => k != c
    case RestartClient(k) => k != c
    case _ => true
  }

  ghost predicate Waits(c: ClientId, steps: seq<Step>) { forall step :: step in steps ==> WhileWaiting(c, step) }

  /** The deliveries to `c` during the steps: replies that had been published when they arrived. */
  function Heard(s: State, c: ClientId, steps: seq<Step>): seq<Delivery> {
    if steps == [] then []
    else
      var init, last := steps[..|steps| - 1], steps[|steps| - 1];
      if last.Receive? && last.reply.to == c && last.reply in Run(s, init).sent
      then Heard(s, c, init) + [Delivery(Some(last.reply.corrId), Decoded(last.reply.reply))]
      else Heard(s, c, init)
  }

  lemma RunOneMore(s: State, steps: seq<Step>, step: Step)
    ensures Run(s, steps + [step]) == Apply(Run(s, steps), step)
  {
    assert (steps + [step])[..|steps|] == steps;
  }

  lemma {:induction false} ListenOneMore(corrId: Option<CorrelationId>, response: Reply, ds: seq<Delivery>, d: Delivery)
    ensures Listen(corrId, response, ds + [d]) ==
            var before := Listen(corrId, response, ds);
            if before.None? then None else Listen(corrId, before.value, [d])
    decreases |ds|
  {
    if ds == [] {
      assert ds + [d] == [d];
    } else {
      assert (ds + [d])[1..] == ds[1..] + [d];
      var next := if ds[0].corrId == corrId && ds[0].payload.Decoded? then ds[0].payload.reply else response;
      ListenOneMore(corrId, next, ds[1..], d);
    }
  }

  lemma OtherStepsLeaveClient(s: State, c: ClientId, step: Step)
    requires WhileWaiting(c, step) && !(step.Receive? && step.reply.to == c)
    ensures ClientOf(Apply(s, step), c) == ClientOf(s, c)
  {
  }

  lemma ReceiveIsListened(s: State, m: Sent)
    requires m in s.sent
    ensures var client, client2 := ClientOf(s, m.to), ClientOf(Apply(s, Receive(m)), m.to);
            && client2.corrId == client.corrId && client2.call == client.call
            && Listen(client.corrId, client.response, [Delivery(Some(m.corrId), Decoded(m.reply))]) ==
               Some(client2.response)
  {
    assert [Delivery(Some(m.corrId), Decoded(m.reply))][1..] == [];
  }

  /** Whatever happens while a client waits leaves it the response that its own loop makes of what it heard,
      replies to this call and to others alike. */
  lemma {:induction false} WaitIsListened(s: State, c: ClientId, steps: seq<Step>)
    requires Waits(c, steps)
    ensures var client, client2 := ClientOf(s, c), ClientOf(Run(s, steps), c);
            && client2.corrId == client.corrId && client2.call == client.call
            && Listen(client.corrId, client.response, Heard(s, c, steps)) == Some(client2.response)
  {
    if steps == [] {
    } else {
      hide Apply, Listen, ClientOf, WhileWaiting;
      var init, last := steps[..|steps| - 1], steps[|steps| - 1];
      var s1, client := Run(s, init), ClientOf(s, c);
      WaitIsListened(s, c, init);
      if last.Receive? && last.reply.to == c {
        if last.reply in s1.sent {
          ReceiveIsListened(s1, last.reply);
          ListenOneMore(client.corrId, client.response, Heard(s, c, init),
                        Delivery(Some(last.reply.corrId), Decoded(last.reply.reply)));
        } else {
          NothingReceived(s1, last.reply);
        }
      } else {
        OtherStepsLeaveClient(s1, c, last);
      }
    }
  }

  lemma NothingReceived(s: State, m: Sent)
    requires m !in s.sent
    ensures Apply(s, Receive(m)) == s
  {
  }

  /** A call, with anything at all going on around it, returns what `RabbitRPCClient.Call` returns on what it
      heard: the verdict on the last delivery with its own id. What the client had heard before has no part
      in it. */
  lemma {:induction false} CallIsPerformed(s: State, c: ClientId, newId: CorrelationId, body: Json, steps: seq<Step>)
    requires newId !in s.used && ClientOf(s, c).call.None? && Waits(c, steps)
    ensures var began := Apply(s, BeginCall(c, newId, body, true));
            var request := Request(newId, Some(c), body);
            var ended := Run(began, steps);
            var heard := Listen(Some(newId), NO_RESPONSE, Heard(began, c, steps));
            && began.queue == s.queue + {request}
            && heard.Some?
            && Apply(ended, EndCall(c)).finished ==
               ended.finished + [Return(Pending(request, |s.executions|), Conclude(heard.value))]
  {
    var began := Apply(s, BeginCall(c, newId, body, true));
    assert ClientOf(began, c) ==
           Client(Some(newId), NO_RESPONSE, Some(Pending(Request(newId, Some(c), body), |s.executions|)));
    WaitIsListened(began, c, steps);
  }

  /** How a call ends whose last matching reply carries outcome `o`. */
  ghost predicate Tells(o: Outcome, result: CallResult) {
    match o
    case Produced(v) => result == Value(v)
    case Raised(text) => result == if text == "" then Value(EmptyObject) else RemoteError(text)
    case Unserializable(why) => result == RemoteError("Error serializing data to JSON: " + why)
  }

  lemma TellsVerdict(o: Outcome)
    ensures Tells(o, Conclude(ReplyTo(o)))
  {
  }

  /** What a server may have sent. */
  ghost predicate IsReply(d: Delivery) { exists o :: d.payload == Decoded(ReplyTo(o)) }

  lemma {:induction false} HeardAreReplies(s: State, c: ClientId, steps: seq<Step>)
    requires Invariant(s)
    ensures forall d :: d in Heard(s, c, steps) ==> IsReply(d)
  {
    if steps == [] {
    } else {
      hide Invariant, Apply, IsReply;
      var init, last := steps[..|steps| - 1], steps[|steps| - 1];
      HeardAreReplies(s, c, init);
      RunFromKeepsInvariant(s, init);
      if last.Receive? && last.reply in Run(s, init).sent { SentAreReplies(Run(s, init), last.reply); }
    }
  }

  lemma SentAreReplies(s: State, m: Sent)
    requires Invariant(s) && m in s.sent
    ensures IsReply(Delivery(Some(m.corrId), Decoded(m.reply)))
  {
    assert ReplyInvariant(s, m);
    var r, i :| r in s.queue && Explains(s.executions, i, r, m.reply);
    assert Explains(s.executions, i, r, m.reply);
    assert m.reply == ReplyTo(s.executions[i].outcome);
  }

  /** In every run: a call times out exactly when no reply with its id arrived while it waited. Otherwise it
      returns the verdict on the outcome that the last such reply carries. */
  lemma {:induction false} CallTimesOutIff(s: State, c: ClientId, newId: CorrelationId, body: Json, steps: seq<Step>)
    requires Invariant(s) && newId !in s.used && ClientOf(s, c).call.None? && Waits(c, steps)
    ensures var began := Apply(s, BeginCall(c, newId, body, true));
            var ended := Apply(Run(began, steps), EndCall(c)).finished;
            var heard := Heard(began, c, steps);
            && ended != []
            && (ended[|ended| - 1].result == Timeout <==> forall i :: !Matches(newId, heard, i))
            && (ended[|ended| - 1].result != Timeout ==>
                exists i, o :: Matches(newId, heard, i) && (forall j :: Matches(newId, heard, j) ==> j <= i) &&
                               heard[i].payload == Decoded(ReplyTo(o)) &&
                               Tells(o, ended[|ended| - 1].result))
  {
    var began := Apply(s, BeginCall(c, newId, body, true));
    CallIsPerformed(s, c, newId, body, steps);
    StepKeepsInvariant(s, BeginCall(c, newId, body, true));
    HeardAreReplies(began, c, steps);
    var heard := Heard(began, c, steps);
    hide Invariant, Apply, Run, Listen, Heard, ReplyTo, Waits, IsReply, Tells;
    VerdictOnHeard(newId, heard);
  }

  lemma VerdictOnHeard(newId: CorrelationId, heard: seq<Delivery>)
    requires forall d :: d in heard ==> IsReply(d)
    ensures Listen(Some(newId), NO_RESPONSE, heard).Some?
    ensures var result := Conclude(Listen(Some(newId), NO_RESPONSE, heard).value);
            && (result == Timeout <==> forall i :: !Matches(newId, heard, i))
            && (result != Timeout ==>
                exists i, o :: Matches(newId, heard, i) && (forall j :: Matches(newId, heard, j) ==> j <= i) &&
                               heard[i].payload == Decoded(ReplyTo(o)) && Tells(o, result))
  {
    ListenTakesLastMatch(newId, NO_RESPONSE, heard);
    forall i | Matches(newId, heard, i) ensures heard[i].payload.Decoded? { assert IsReply(heard[i]); }
    var response := Listen(Some(newId), NO_RESPONSE, heard).value;
    if i :| Matches(newId, heard, i) && heard[i].payload == Decoded(response) &&
            forall j :: Matches(newId, heard, j) ==> j <= i {
      assert IsReply(heard[i]);
      var o :| heard[i].payload == Decoded(ReplyTo(o));
      ReplyMeaning(o, EmptyObject, "");
      TellsVerdict(o);
    }
  }

  /** A call that is executed, answered and heard without interruption returns the verdict on the outcome of
      its execution. */
  lemma RoundTrip(s: State, c: ClientId, newId: CorrelationId, body: Json, outcome: Outcome)
    requires newId !in s.used && ClientOf(s, c).call.None? && s.server.Free?
    ensures var r := Request(newId, Some(c), body);
            var began := Apply(s, BeginCall(c, newId, body, true));
            var steps := [Execute(r, outcome), Answer, Receive(Sent(c, newId, ReplyTo(outcome)))];
            && Waits(c, steps)
            && Heard(began, c, steps) == [Delivery(Some(newId), Decoded(ReplyTo(outcome)))]
            && Tells(outcome, Conclude(ReplyTo(outcome)))
            && Apply(Run(began, steps), EndCall(c)).finished ==
               s.finished + [Return(Pending(r, |s.executions|), Conclude(ReplyTo(outcome)))]
  {
    var r := Request(newId, Some(c), body);
    var m := Sent(c, newId, ReplyTo(outcome));
    var began := Apply(s, BeginCall(c, newId, body, true));
    var steps := [Execute(r, outcome), Answer, Receive(m)];
    ServedIsSent(began, r, outcome);
    HeardOfThree(began, c, Execute(r, outcome), Answer, m);
    CallIsPerformed(s, c, newId, body, steps);
    RunThree(began, Execute(r, outcome), Answer, Receive(m));
    TellsVerdict(outcome);
    hide ReplyTo, Waits, Heard, Tells;
    assert [Delivery(Some(newId), Decoded(ReplyTo(outcome)))][1..] == [];
  }

  lemma ServedIsSent(s: State, r: Request, outcome: Outcome)
    requires s.server.Free? && r in s.queue && r.replyTo.Some?
    ensures var s2 := Apply(Apply(s, Execute(r, outcome)), Answer);
            Sent(r.replyTo.value, r.corrId, ReplyTo(outcome)) in s2.sent && s2.finished == s.finished
  {
  }

  lemma HeardOfThree(s: State, c: ClientId, a: Step, b: Step, m: Sent)
    requires !a.Receive? && !b.Receive? && m.to == c && m in Apply(Apply(s, a), b).sent
    ensures Heard(s, c, [a, b, Receive(m)]) == [Delivery(Some(m.corrId), Decoded(m.reply))]
  {
    hide Apply;
    assert [] + [a] == [a] && [a] + [b] == [a, b] && [a, b] + [Receive(m)] == [a, b, Receive(m)];
    RunOneMore(s, [], a);
    RunOneMore(s, [a], b);
    HeardOneMore(s, c, [], a);
    HeardOneMore(s, c, [a], b);
    HeardOneMore(s, c, [a, b], Receive(m));
  }

  lemma HeardOneMore(s: State, c: ClientId, steps: seq<Step>, step: Step)
    ensures Heard(s, c, steps + [step]) ==
            if step.Receive? && step.reply.to == c && step.reply in Run(s, steps).sent
            then Heard(s, c, steps) + [Delivery(Some(step.reply.corrId), Decoded(step.reply.reply))]
            else Heard(s, c, steps)
  {
    assert (steps + [step])[..|steps|] == steps;
  }

  /** What the server's method hands to the broker for one request. */
  function Answers(r: Request, outcome: Outcome): seq<Event> {
    if r.replyTo.Some? then [Replied(r.replyTo.value, r.corrId, ReplyTo(outcome))] else []
  }

  /** An uninterrupted execution publishes exactly the reply that `RabbitRPCServer.OnRequest` publishes, and
      acknowledges once. */
  lemma {:induction false} RequestIsServed(s: State, r: Request, outcome: Outcome)
    requires s.server.Free? && r in s.queue
    ensures var s2 := Run(s, [Execute(r, outcome), Answer, Ack]);
            && s2.server == Free && s2.executions == s.executions + [Execution(r, outcome)]
            && s2.acked == s.acked + multiset{r}
            && (forall m :: m in s2.sent <==> m in s.sent || Replied(m.to, m.corrId, m.reply) in Answers(r, outcome))
            && s2.answered == s.answered + if Answers(r, outcome) == [] then multiset{} else multiset{r}
  {
    RunThree(s, Execute(r, outcome), Answer, Ack);
    hide Run, ReplyTo;
    ExecuteThenAnswer(s, r, outcome);
    hide Apply, Answers;
    AckOnly(Apply(Apply(s, Execute(r, outcome)), Answer), r);
  }

  lemma ExecuteThenAnswer(s: State, r: Request, outcome: Outcome)
    requires s.server.Free? && r in s.queue
    ensures var s2 := Apply(Apply(s, Execute(r, outcome)), Answer);
            && s2.server == Answered(r) && s2.executions == s.executions + [Execution(r, outcome)]
            && s2.acked == s.acked
            && (forall m :: m in s2.sent <==> m in s.sent || Replied(m.to, m.corrId, m.reply) in Answers(r, outcome))
            && s2.answered == s.answered + if Answers(r, outcome) == [] then multiset{} else multiset{r}
  {
    hide ReplyTo;
  }

  lemma AckOnly(s: State, r: Request)
    requires s.server == Answered(r)
    ensures Apply(s, Ack) == s.(server := Free, acked := s.acked + multiset{r})
  {
  }

  lemma {:induction false} RunThree(s: State, a: Step, b: Step, c: Step)
    ensures Run(s, [a, b, c]) == Apply(Apply(Apply(s, a), b), c)
  {
    hide Apply;
    RunOneMore(s, [], a);
    RunOneMore(s, [a], b);
    RunOneMore(s, [a, b], c);
    assert [] + [a] == [a] && [a] + [b] == [a, b] && [a, b] + [c] == [a, b, c];
  }
}
