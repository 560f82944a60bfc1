/** RPC over a message broker: the client that publishes a request and waits for the reply with its
    correlation id, and the server that executes, replies and acknowledges. */
module Rpc {
  import opened Common

  /** Stands for a UUID string. */
  type CorrelationId = nat

  type ClientId = nat

  /** A JSON value; only the empty object matters by itself. */
  datatype Json = EmptyObject | Json(code: int)

  /** The reply dictionary: a key is there or it is not. */
  datatype Reply = Reply(data: Option<Json>, err: Option<string>)

  datatype Request = Request(corrId: CorrelationId, replyTo: Option<ClientId>, body: Json)

  /** What running the manager's method came to. */
  datatype Outcome =
    | Produced(value: Json)
    | Unserializable(why: string)   // it returned a value JSON cannot carry
    | Raised(text: string)

  /** What the serializer puts before the reason for a failure. */
  const SERIALIZE_ERROR: string := "Error serializing data to JSON: "

  /** The dictionary the server builds: `data` on success, `err` on an exception, and again `err`
      when the result cannot be serialized. */
  function ReplyTo(o: Outcome): Reply {
    match o
    case Produced(v) => Reply(Some(v), None)
    case Unserializable(why) => Reply(None, Some(SERIALIZE_ERROR + why))
    case Raised(text) => Reply(None, Some(text))
  }

  /** A message on a client's callback queue. */
  datatype Delivery = Delivery(corrId: Option<CorrelationId>, payload: Payload)

  datatype Payload = NotJson | Decoded(reply: Reply)

  datatype CallResult =
    | Timeout
    | RemoteError(text: string)
    | Value(value: Json)
    | RequestNotSerializable
    | ReplyNotDecodable

  /** How `call` ends, given what is in `self.response` once the wait is over. An empty dictionary is
      falsy, and so is an empty error text. */
  function Conclude(response: Reply): CallResult {
    if response == Reply(None, None) then Timeout
    else if response.err.Some? && response.err.value != "" then RemoteError(response.err.value)
    else Value(if response.data.Some? then response.data.value else EmptyObject)
  }

  const NO_RESPONSE: Reply := Reply(None, None)

  /** `self.response` after the deliveries, or None when one that matches cannot be decoded. */
  function Listen(corrId: Option<CorrelationId>, response: Reply, deliveries: seq<Delivery>): Option<Reply>
    decreases |deliveries|
  {
    if deliveries == [] then Some(response)
    else
      var d := deliveries[0];
      if d.corrId != corrId then Listen(corrId, response, deliveries[1..])
      else if d.payload.NotJson? then None
      else Listen(corrId, d.payload.reply, deliveries[1..])
  }

  ghost predicate Matches(corrId: CorrelationId, deliveries: seq<Delivery>, i: int) {
    0 <= i < |deliveries| && deliveries[i].corrId == Some(corrId)
  }

  /** `self.response` ends as the last matching delivery, if there is one. */
  lemma {:induction false} ListenTakesLastMatch(corrId: CorrelationId, response: Reply, deliveries: seq<Delivery>)
    ensures Listen(Some(corrId), response, deliveries).None? <==>
            exists i :: Matches(corrId, deliveries, i) && deliveries[i].payload.NotJson?
    ensures var r := Listen(Some(corrId), response, deliveries);
            r.Some? ==>
              || (r.value == response && forall i :: !Matches(corrId, deliveries, i))
              || exists i :: Matches(corrId, deliveries, i) && deliveries[i].payload == Decoded(r.value) &&
                             forall j :: Matches(corrId, deliveries, j) ==> j <= i
    decreases |deliveries|
  {
    if deliveries == [] {
    } else {
      var d, rest := deliveries[0], deliveries[1..];
      var next := if d.corrId == Some(corrId) && d.payload.Decoded? then d.payload.reply else response;
      ListenTakesLastMatch(corrId, next, rest);
      assert forall i :: Matches(corrId, rest, i) <==> 0 <= i && Matches(corrId, deliveries, i + 1);
      if i :| Matches(corrId, rest, i) && rest[i].payload.NotJson? {
        assert Matches(corrId, deliveries, i + 1);
      }
      if d.corrId == Some(corrId) { assert Matches(corrId, deliveries, 0); }
      if i :| Matches(corrId, deliveries, i) && deliveries[i].payload.NotJson? {
        assert i == 0 || Matches(corrId, rest, i - 1);
      }
      var r := Listen(Some(corrId), response, deliveries);
      if r.Some? {
        if i :| Matches(corrId, rest, i) && rest[i].payload == Decoded(r.value) &&
                forall j :: Matches(corrId, rest, j) ==> j <= i {
          assert Matches(corrId, deliveries, i + 1) && deliveries[i + 1].payload == Decoded(r.value);
          forall j | Matches(corrId, deliveries, j) ensures j <= i + 1 {
            assert j == 0 || Matches(corrId, rest, j - 1);
          }
        } else {
          forall j | Matches(corrId, deliveries, j) ensures j == 0 {
            assert j == 0 || Matches(corrId, rest, j - 1);
          }
        }
      }
    }
  }

  /** What the two sides hand to the broker, in order. */
  datatype Event =
    | Requested(request: Request)
    | Replied(to: ClientId, corrId: CorrelationId, reply: Reply)
    | Acked(deliveryTag: nat)

  class Channel {
    var events: seq<Event>

    constructor ()
      ensures events == []
    {
      events := [];
    }
  }

  class RabbitRPCClient {
    const id: ClientId
    const channel: Channel
    var response: Reply
    var corrId: Option<CorrelationId>

    constructor (id: ClientId, channel: Channel)
      ensures this.id == id && this.channel == channel && response == NO_RESPONSE && corrId == None
    {
      this.id, this.channel, response, corrId := id, channel, NO_RESPONSE, None;
    }

    /** Answers whether the delivery was survived: an undecodable matching body raises. */
    method OnResponse(d: Delivery) returns (ok: bool)
      modifies this`response
      ensures Listen(corrId, old(response), [d]) == if ok then Some(response) else None
      ensures !ok ==> response == old(response)
    {
      ok := true;
      if corrId == d.corrId {
        if d.payload.NotJson? { return false; }
        response := d.payload.reply;
      }
    }

    /** `serializable` says whether the request can be turned into JSON; `deliveries` is what the broker
        hands over during the one wait. */
    method Call(body: Json, serializable: bool, newId: CorrelationId, deliveries: seq<Delivery>)
      returns (r: CallResult)
      modifies this, channel
      ensures corrId == Some(newId)
      ensures channel.events ==
              old(channel.events) + if serializable then [Requested(Request(newId, Some(id), body))] else []
      ensures r == if !serializable then RequestNotSerializable
                   else match Listen(Some(newId), NO_RESPONSE, deliveries)
                        case None => ReplyNotDecodable
                        case Some(response) => Conclude(response)
    {
      response := NO_RESPONSE;
      corrId := Some(newId);
      if !serializable { return RequestNotSerializable; }
      channel.events := channel.events + [Requested(Request(newId, Some(id), body))];
      for i := 0 to |deliveries|
        invariant corrId == Some(newId)
        invariant channel.events == old(channel.events) + [Requested(Request(newId, Some(id), body))]
        invariant Listen(corrId, NO_RESPONSE, deliveries) == Listen(corrId, response, deliveries[i..])
      {
        var ok := OnResponse(deliveries[i]);
        assert [deliveries[i]][1..] == [];
        if !ok { return ReplyNotDecodable; }
      }
      if response == NO_RESPONSE { return Timeout; }
      if response.err.Some? && response.err.value != "" { return RemoteError(response.err.value); }
      return Value(if response.data.Some? then response.data.value else EmptyObject);
    }

    /** Publishes without a callback queue; `response` is left as it was. */
    method Cast(body: Json, serializable: bool, newId: CorrelationId) returns (ok: bool)
      modifies this`corrId, channel
      ensures corrId == Some(newId) && ok == serializable
      ensures channel.events == old(channel.events) + if ok then [Requested(Request(newId, None, body))] else []
    {
      corrId := Some(newId);
      if !serializable { return false; }
      channel.events := channel.events + [Requested(Request(newId, None, body))];
      return true;
    }
  }

  /** The request as it reaches the server. */
  datatype Incoming = Garbled | Parsed(request: Request)

  class RabbitRPCServer {
    const channel: Channel

    constructor (channel: Channel)
      ensures this.channel == channel
    {
      this.channel := channel;
    }

    /** `outcome` is what the manager's method does. The acknowledgement comes last, after the reply.
        Answers false when the body cannot be parsed: then nothing is executed, published or
        acknowledged. */
    method OnRequest(m: Incoming, outcome: Outcome, deliveryTag: nat) returns (ok: bool)
      modifies channel
      ensures ok == m.Parsed?
      ensures channel.events ==
              old(channel.events) +
              (if ok && m.request.replyTo.Some?
               then [Replied(m.request.replyTo.value, m.request.corrId, ReplyTo(outcome))] else []) +
              (if ok then [Acked(deliveryTag)] else [])
    {
      if m.Garbled? { return false; }
      var answer := Reply(None, None);
      if outcome.Raised? {
        answer := answer.(err := Some(outcome.text));
      } else if outcome.Produced? {
        answer := answer.(data := Some(outcome.value));
      } else {
        answer := Reply(None, Some(SERIALIZE_ERROR + outcome.why));
      }
      if m.request.replyTo.Some? {
        channel.events := channel.events + [Replied(m.request.replyTo.value, m.request.corrId, answer)];
      }
      channel.events := channel.events + [Acked(deliveryTag)];
      return true;
    }
  }

  /** Every reply carries exactly one of the two keys: the value produced, or the text of the failure. A call
      that hears it last never times out. It gives back a value exactly when the method produced that value,
      or raised with an empty text (then the call hands out an empty object as if it were a result); and it
      fails with a text exactly when the method raised with that text, not empty, or its result could not be
      serialized for the reason in the text. */
  lemma ReplyMeaning(o: Outcome, v: Json, text: string)
    ensures ReplyTo(o).data.Some? != ReplyTo(o).err.Some?
    ensures ReplyTo(o).data == Some(v) <==> o == Produced(v)
    ensures ReplyTo(o).err == Some(text) <==>
            o == Raised(text) || (o.Unserializable? && text == "Error serializing data to JSON: " + o.why)
    ensures Conclude(ReplyTo(o)) != Timeout
    ensures Conclude(ReplyTo(o)) == Value(v) <==> o == Produced(v) || (SilentFailure(o) && v == EmptyObject)
    ensures Conclude(ReplyTo(o)) == RemoteError(text) <==>
            || (o == Raised(text) && text != "")
            || (o.Unserializable? && text == "Error serializing data to JSON: " + o.why)
    ensures Conclude(ReplyTo(o)).Value? || Conclude(ReplyTo(o)).RemoteError?
  {
  }

  /** How a call ends on any dictionary that is its response, a server's or not. */
  lemma ConcludeMeaning(response: Reply, v: Json, text: string)
    ensures Conclude(response) == Timeout <==> response.data == None && response.err == None
    ensures Conclude(response) == RemoteError(text) <==> response.err == Some(text) && text != ""
    ensures Conclude(response) == Value(v) <==>
            (response.err == None || response.err == Some("")) &&
            (response.data == Some(v) || (response.data == None && response.err == Some("") && v == EmptyObject))
  {
  }

  /** What a wait comes to when every matching delivery is a server's reply: a timeout exactly when
      there was none, and otherwise the verdict on the last one. */
  lemma {:induction false} WaitOutcome(corrId: CorrelationId, deliveries: seq<Delivery>, outcomes: seq<Outcome>)
    requires |outcomes| == |deliveries|
    requires forall i :: Matches(corrId, deliveries, i) ==> deliveries[i].payload == Decoded(ReplyTo(outcomes[i]))
    ensures var heard := Listen(Some(corrId), NO_RESPONSE, deliveries);
            && heard.Some?
            && (Conclude(heard.value) == Timeout <==> forall i :: !Matches(corrId, deliveries, i))
            && (Conclude(heard.value) != Timeout ==>
                exists i :: Matches(corrId, deliveries, i) && heard.value == ReplyTo(outcomes[i]) &&
                            forall j :: Matches(corrId, deliveries, j) ==> j <= i)
  {
    ListenTakesLastMatch(corrId, NO_RESPONSE, deliveries);
  }

  /** The method raises with an empty text. */
  predicate SilentFailure(o: Outcome) { o == Raised("") }
}
