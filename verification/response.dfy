/**
  The response to one command request: it is closed once, by the handler or by the
  server after it, and publishes at most one message.
 */
module Responses {
  import opened Attributes

  datatype ReplyMode = NoReply | Correlated | Uncorrelated

  datatype Message = Success(payload: string) | Failure(error: string)

  // isAnswered says that it was the handler that closed the response.
  datatype State = State(mode: ReplyMode, isClosed: bool, isAnswered: bool, published: seq<Message>)

  function New(mode: ReplyMode): State {
    State(mode, false, false, [])
  }

  // What the handler, or anyone it gave the response to, may call. Fail is Error.
  datatype Call =
    | Done(payload: string)
    | Error(error: string)
    | Close

  // Circumstances of a call: the deadline of the request has passed; the broker
  // cannot be reached, which is a panic.
  datatype Around = Around(expired: bool, broken: bool)

  function MessageOf(call: Call): Message {
    match call
    case Done(payload) => Success(payload)
    case Error(error) => Failure(error)
    case Close => Success("")
  }

  predicate Publishes(s: State, a: Around) {
    s.mode != NoReply && !a.expired && !a.broken
  }

  predicate Panics(s: State, call: Call, a: Around) {
    if s.isClosed then call != Close else s.mode != NoReply && !a.expired && a.broken
  }

  function CallAfter(s: State, call: Call, a: Around): State {
    if s.isClosed then s
    else State(s.mode, true, true, if Publishes(s, a) then s.published + [MessageOf(call)] else s.published)
  }

  // Finalize reports whether the response was closed already.
  function Finalized(s: State): State {
    s.(isClosed := true)
  }

  // A reply is wanted, and could still be given.
  predicate IsWanted(s: State, expired: bool) {
    !s.isClosed && s.mode != NoReply && !expired
  }

  // IsRequired tells the handler whether a reply would be published at this moment,
  // as long as the broker can be reached.
  lemma WantedIff(s: State, call: Call, expired: bool)
    ensures IsWanted(s, expired) <==> CallAfter(s, call, Around(expired, false)).published != s.published
  {
  }

  // What happens to a response, in order; None is the call of finalize.
  datatype Event = Event(call: Option<Call>, around: Around)

  function Do(s: State, ev: Event): State {
    match ev.call
    case None => Finalized(s)
    case Some(call) => CallAfter(s, call, ev.around)
  }

  function After(mode: ReplyMode, events: seq<Event>): State {
    if |events| == 0 then New(mode)
    else Do(After(mode, events[..|events| - 1]), events[|events| - 1])
  }

  // The first event decides everything: nothing changes after it.
  lemma {:induction false} FirstDecides(mode: ReplyMode, events: seq<Event>)
    requires events != []
    ensures After(mode, events) == Do(New(mode), events[0])
  {
    if |events| > 1 {
      FirstDecides(mode, events[..|events| - 1]);
    } else {
      assert After(mode, events[..0]) == New(mode);
    }
  }

  // On every run at most one message is published. It is the message of the first
  // call, and it is published exactly if that call comes before finalize, a reply is
  // wanted, the deadline has not passed and the broker can be reached.
  lemma {:induction false} PublishedIff(mode: ReplyMode, events: seq<Event>, msg: Message)
    ensures |After(mode, events).published| <= 1
    ensures (msg in After(mode, events).published <==>
             && events != [] && events[0].call.Some? && MessageOf(events[0].call.value) == msg
             && mode != NoReply && !events[0].around.expired && !events[0].around.broken)
  {
    if events != [] {
      FirstDecides(mode, events);
    }
  }

  // A response is published exactly if the first event is a call, a reply is wanted and
  // the message can be sent; then it is a failure with that text if the call was Error,
  // and a success with that text if it was Done, or Close with no text at all.
  lemma {:induction false} PublishedKindIff(mode: ReplyMode, events: seq<Event>, text: string)
    ensures var published := After(mode, events).published;
            && (published != [] <==>
                && events != [] && events[0].call.Some?
                && mode != NoReply && !events[0].around.expired && !events[0].around.broken)
            && (published != [] ==>
                  && (Failure(text) in published <==> events[0].call == Some(Error(text)))
                  && (Success(text) in published <==>
                      events[0].call == Some(Done(text)) || (events[0].call == Some(Close) && text == "")))
  {
    if events != [] {
      FirstDecides(mode, events);
    }
  }

  // The first call panics exactly if it must publish and the broker cannot be reached;
  // any other one does exactly if it is not Close.
  lemma {:induction false} PanicsIff(mode: ReplyMode, events: seq<Event>, call: Call, a: Around)
    ensures Panics(After(mode, events), call, a) <==>
            if events == [] then mode != NoReply && !a.expired && a.broken else call != Close
  {
    if events != [] {
      FirstDecides(mode, events);
    } else {
      assert After(mode, events) == New(mode);
    }
  }

  // Finalize finds the response closed exactly if the handler has made any call,
  // whether or not that call could publish anything.
  lemma {:induction false} AnsweredIff(mode: ReplyMode, events: seq<Event>)
    ensures After(mode, events).isClosed <==> events != []
    ensures After(mode, events).isAnswered <==> events != [] && events[0].call.Some?
    ensures After(mode, events).published != [] ==> After(mode, events).isAnswered
  {
    if events != [] {
      FirstDecides(mode, events);
    }
  }

  ghost predicate Valid(s: State) {
    && |s.published| <= 1
    && (s.isAnswered ==> s.isClosed)
    && (s.published != [] ==> s.isAnswered && s.mode != NoReply)
  }

  class Response {
    const replyMode: ReplyMode
    var isClosed: bool
    ghost var isAnswered: bool
    var published: seq<Message>

    constructor (replyMode: ReplyMode)
      ensures Model() == New(replyMode)
    {
      this.replyMode := replyMode;
      isClosed, isAnswered, published := false, false, [];
    }

    ghost function Model(): State
      reads this
    {
      State(replyMode, isClosed, isAnswered, published)
    }

    method IsRequired(expired: bool) returns (r: bool)
      ensures r <==> IsWanted(Model(), expired)
      ensures r <==> !isClosed && replyMode != NoReply && !expired
    {
      if isClosed {
        return false;
      }
      if replyMode == NoReply {
        return false;
      }
      return !expired;
    }

    method Respond(msg: Message, a: Around) returns (panics: bool)
      requires !isClosed
      modifies this
      ensures isClosed && isAnswered
      ensures published == if Publishes(old(Model()), a) then old(published) + [msg] else old(published)
      ensures panics <==> replyMode != NoReply && !a.expired && a.broken
    {
      isClosed, isAnswered := true, true;
      if replyMode == NoReply || a.expired {
        return false;
      }
      if a.broken {
        return true;
      }
      published := published + [msg];
      return false;
    }

    method Done(payload: string, a: Around) returns (panics: bool)
      modifies this
      ensures panics <==> Panics(old(Model()), Call.Done(payload), a)
      ensures Model() == CallAfter(old(Model()), Call.Done(payload), a)
      ensures panics <==> old(isClosed) || (replyMode != NoReply && !a.expired && a.broken)
      ensures published == if old(isClosed) || replyMode == NoReply || a.expired || a.broken then old(published)
                           else old(published) + [Success(payload)]
    {
      if isClosed {
        return true;
      }
      panics := Respond(Success(payload), a);
    }

    method Error(error: string, a: Around) returns (panics: bool)
      modifies this
      ensures panics <==> Panics(old(Model()), Call.Error(error), a)
      ensures Model() == CallAfter(old(Model()), Call.Error(error), a)
      ensures panics <==> old(isClosed) || (replyMode != NoReply && !a.expired && a.broken)
      ensures published == if old(isClosed) || replyMode == NoReply || a.expired || a.broken then old(published)
                           else old(published) + [Failure(error)]
    {
      if isClosed {
        return true;
      }
      panics := Respond(Failure(error), a);
    }

    // The first result is false if the response was closed already.
    method Close(a: Around) returns (closed: bool, panics: bool)
      modifies this
      ensures closed <==> !old(isClosed)
      ensures panics <==> Panics(old(Model()), Call.Close, a)
      ensures Model() == CallAfter(old(Model()), Call.Close, a)
      ensures panics <==> !old(isClosed) && replyMode != NoReply && !a.expired && a.broken
      ensures published == if old(isClosed) || replyMode == NoReply || a.expired || a.broken then old(published)
                           else old(published) + [Success("")]
    {
      if isClosed {
        return false, false;
      }
      panics := Respond(Success(""), a);
      return true, panics;
    }

    method Finalize() returns (wasClosed: bool)
      modifies this
      ensures wasClosed == old(isClosed)
      ensures Model() == Finalized(old(Model()))
    {
      wasClosed := isClosed;
      isClosed := true;
    }
  }
}
