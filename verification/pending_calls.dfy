/**
  The invoker's pending table as the object it is: replies are sent on channels
  that the table shares with the callers, and a graceful stop empties the table.
 */
module PendingCalls {
  import opened Attributes
  import opened Deliveries

  // A channel with room for one message.
  class ReplyChannel {
    var buffer: Option<Delivery>
    var isClosed: bool

    constructor ()
      ensures IsNew()
    {
      buffer, isClosed := None, false;
    }

    predicate IsNew()
      reads this
    {
      buffer == None && !isClosed
    }

    // A send on a full channel would block, on a closed one panic.
    method Send(msg: Delivery)
      requires IsNew()
      modifies this
      ensures buffer == Some(msg) && !isClosed
    {
      buffer := Some(msg);
    }

    method Close()
      requires !isClosed
      modifies this
      ensures isClosed && buffer == old(buffer)
    {
      isClosed := true;
    }
  }

  // What the select statement of the graceful state receives.
  datatype Input =
    | CancelOf(id: string)
    | ReplyTo(msg: Delivery)
    | DeliveriesClosed
    | ForcefulClosed
    | AmqpClosed

  // How the graceful state ends: with the next state forceful, or with an AMQP
  // error. Blocked means that it still waits when the inputs are used up.
  datatype Ending = Forceful | AwaitAmqpClosed | AmqpError | Blocked

  predicate Interrupts(i: Input) {
    i.DeliveriesClosed? || i.ForcefulClosed? || i.AmqpClosed?
  }

  function EndingOf(i: Input): Ending {
    match i
    case DeliveriesClosed => AwaitAmqpClosed
    case ForcefulClosed => Forceful
    case AmqpClosed => AmqpError
    case _ => Blocked
  }

  // What becomes of a pending call.
  datatype Fate = Open | Answered(msg: Delivery) | Cancelled

  function FateAfter(fate: Fate, input: Input, key: string): Fate {
    if fate != Open then fate
    else
      match input
      case CancelOf(id) => if id == key then Cancelled else Open
      case ReplyTo(msg) => if msg.isCorrelated && msg.routingKey == key then Answered(msg) else Open
      case _ => Open
  }

  function FateOf(inputs: seq<Input>, key: string): Fate {
    if |inputs| == 0 then Open
    else FateAfter(FateOf(inputs[..|inputs| - 1], key), inputs[|inputs| - 1], key)
  }

  // The call with this key is what the input is about.
  predicate Concerns(i: Input, key: string) {
    match i
    case CancelOf(id) => id == key
    case ReplyTo(msg) => msg.isCorrelated && msg.routingKey == key
    case _ => false
  }

  ghost predicate FirstConcern(inputs: seq<Input>, key: string, i: nat) {
    && i < |inputs| && Concerns(inputs[i], key)
    && forall j | 0 <= j < i :: !Concerns(inputs[j], key)
  }

  // The fate of a call is settled by the first input about it, and by no other.
  lemma {:induction false} FirstConcernDecides(inputs: seq<Input>, key: string)
    ensures FateOf(inputs, key) == Open <==> forall i | 0 <= i < |inputs| :: !Concerns(inputs[i], key)
    ensures forall i: nat | FirstConcern(inputs, key, i) ::
              FateOf(inputs, key) == if inputs[i].ReplyTo? then Answered(inputs[i].msg) else Cancelled
  {
    if |inputs| > 0 {
      var before := inputs[..|inputs| - 1];
      FirstConcernDecides(before, key);
      assert inputs == before + [inputs[|before|]];
      forall i: nat | FirstConcern(inputs, key, i)
        ensures FateOf(inputs, key) == if inputs[i].ReplyTo? then Answered(inputs[i].msg) else Cancelled
      {
        if i < |before| {
          assert FirstConcern(before, key, i);
        } else {
          assert FateOf(before, key) == Open;
        }
      }
    }
  }

  // What the channel of a pending call holds when its fate is known.
  predicate Holds(channel: ReplyChannel, fate: Fate)
    reads channel
  {
    match fate
    case Answered(msg) => channel.buffer == Some(msg) && channel.isClosed
    case _ => channel.IsNew()
  }

  ghost predicate Distinct(calls: map<string, ReplyChannel>) {
    forall j, k | j in calls && k in calls && j != k :: calls[j] != calls[k]
  }

  lemma InterruptSettlesNothing(done: seq<Input>, input: Input)
    requires Interrupts(input)
    ensures forall k :: FateOf(done + [input], k) == FateOf(done, k)
  {
    assert (done + [input])[..|done|] == done;
  }

  // The inputs settle all of the calls exactly if each call is the concern of one of
  // them.
  lemma EmptiedIff(keys: set<string>, inputs: seq<Input>)
    ensures (forall k | k in keys :: FateOf(inputs, k) != Open) <==> AllConcerned(keys, inputs)
  {
    forall k | k in keys ensures FateOf(inputs, k) != Open <==> exists i :: 0 <= i < |inputs| && Concerns(inputs[i], k) {
      FirstConcernDecides(inputs, k);
    }
  }

  ghost predicate AllConcerned(keys: set<string>, inputs: seq<Input>) {
    forall k | k in keys :: exists i :: 0 <= i < |inputs| && Concerns(inputs[i], k)
  }

  class Pending {
    var calls: map<string, ReplyChannel>

    constructor ()
      ensures Valid() && calls == map[]
    {
      calls := map[];
    }

    // The channels of pending calls are all different, empty and open.
    ghost predicate Valid()
      reads this, calls.Values
    {
      && (forall k | k in calls :: calls[k].IsNew())
      && Distinct(calls)
    }

    method Track(id: string, reply: ReplyChannel)
      requires Valid()
      requires reply.IsNew() && forall k | k in calls :: calls[k] != reply
      modifies this
      ensures Valid() && calls == old(calls)[id := reply]
    {
      calls := calls[id := reply];
    }

    method Cancel(id: string)
      requires Valid()
      modifies this
      ensures Valid() && calls == old(calls) - {id}
    {
      calls := calls - {id};
    }

    // The result is the acknowledgement of the message.
    method ReplySync(msg: Delivery) returns (ack: bool)
      requires Valid()
      modifies this, calls.Values
      ensures Valid() && calls == old(calls) - {msg.routingKey}
      ensures ack <==> msg.routingKey in old(calls)
      ensures ack ==> old(calls)[msg.routingKey].buffer == Some(msg) && old(calls)[msg.routingKey].isClosed
      ensures forall k | k in old(calls) && k != msg.routingKey :: old(calls)[k].IsNew()
    {
      if msg.routingKey !in calls {
        return false;
      }
      var channel := calls[msg.routingKey];
      calls := calls - {msg.routingKey};
      channel.Send(msg);
      channel.Close();
      return true;
    }

    // Where the graceful state stands once it has taken the inputs done, given the
    // calls that were pending when it was entered.
    ghost predicate Drained(channels: map<string, ReplyChannel>, done: seq<Input>)
      reads this, calls.Values, channels.Values
    {
      && Valid()
      && (forall k :: k in calls <==> k in channels && FateOf(done, k) == Open)
      && (forall k | k in calls :: calls[k] == channels[k])
      && (forall k | k in channels :: Holds(channels[k], FateOf(done, k)))
    }

    // One input of the graceful state that does not interrupt it.
    method Take(input: Input, ghost channels: map<string, ReplyChannel>, ghost done: seq<Input>)
      requires Drained(channels, done) && !Interrupts(input)
      requires Distinct(channels)
      modifies this, calls.Values
      ensures Drained(channels, done + [input])
    {
      assert (done + [input])[..|done|] == done;
      match input {
        case CancelOf(id) =>
          Cancel(id);
        case ReplyTo(msg) =>
          if msg.isCorrelated {
            var ack := ReplySync(msg);
          }
        case _ =>
      }
    }

    // The graceful state, given everything it will receive. It takes inputs until
    // the table is empty or one of them interrupts it; the table is empty exactly if
    // each call has been the concern of one of the inputs taken.
    method Graceful(inputs: seq<Input>) returns (taken: nat, ending: Ending)
      requires Valid()
      modifies this, calls.Values
      ensures taken <= |inputs| && Drained(old(calls), inputs[..taken])
      ensures calls == map[] <==> AllConcerned(old(calls).Keys, inputs[..taken])
      ensures forall i | 0 <= i < taken - 1 :: inputs[i].CancelOf? || inputs[i].ReplyTo?
      ensures if taken > 0 && inputs[taken - 1].DeliveriesClosed? then ending == AwaitAmqpClosed
              else if taken > 0 && inputs[taken - 1].ForcefulClosed? then ending == Ending.Forceful
              else if taken > 0 && inputs[taken - 1].AmqpClosed? then ending == AmqpError
              else if calls == map[] then ending == Ending.Forceful
              else taken == |inputs| && ending == Blocked
    {
      ghost var channels := calls;
      taken := 0;
      while calls != map[] && taken < |inputs|
        invariant taken <= |inputs| && Drained(channels, inputs[..taken])
        invariant forall i | 0 <= i < taken :: !Interrupts(inputs[i])
      {
        var input := inputs[taken];
        assert inputs[..taken + 1] == inputs[..taken] + [input];
        if Interrupts(input) {
          InterruptSettlesNothing(inputs[..taken], input);
          EmptiedIff(channels.Keys, inputs[..taken + 1]);
          return taken + 1, EndingOf(input);
        }
        Take(input, channels, inputs[..taken]);
        taken := taken + 1;
      }
      EmptiedIff(channels.Keys, inputs[..taken]);
      ending := if calls == map[] then Ending.Forceful else Blocked;
    }
  }
}
