/** Acknowledge-once delivery (messaging/sub_message.go, messaging/nats.go,
    messaging/subscriber.go). The classes are the code as one goroutine executes it; the system
    below them interleaves any number of goroutines at each read, compare-and-swap and call. */
module Messaging {
  import opened Common

  /** The terminal answers to a JetStream message. */
  datatype Answer = Ack | Nak | Term

  // ----- One goroutine -----

  /** nats.Msg: the answers sent for it. */
  class RawMessage {
    var sent: seq<Answer>

    constructor ()
      ensures sent == []
    {
      sent := [];
    }

    method Send(a: Answer)
      modifies this
      ensures sent == old(sent) + [a]
    {
      sent := sent + [a];
    }
  }

  class SubMessage {
    const data: string
    const raw: RawMessage
    var done: bool
    /** The callbacks that are not nil; each sends its own answer for `raw`. */
    var callbacks: set<Answer>

    constructor (data: string, raw: RawMessage)
      ensures this.data == data && this.raw == raw && !done && callbacks == {}
    {
      this.data, this.raw := data, raw;
      done, callbacks := false, {};
    }

    /** SetAck, SetNak and SetTerm. */
    method Set(a: Answer)
      modifies this
      ensures callbacks == old(callbacks) + {a} && done == old(done)
    {
      callbacks := callbacks + {a};
    }

    /** Ack, Nak and Term: finish with the callback of that name. */
    method Finish(a: Answer)
      modifies this, raw
      ensures callbacks == old(callbacks)
      ensures done == (old(done) || a in callbacks)
      ensures raw.sent == old(raw.sent) + if a in callbacks && !old(done) then [a] else []
    {
      if a !in callbacks {
        return;
      }
      if done {
        return;
      }
      done := true;
      raw.Send(a);
    }
  }

  /** The answer a handler's result stands for. */
  function ForResult(failed: bool): Answer {
    if failed then Nak else Ack
  }

  /** completeMessage. */
  method CompleteMessage(message: SubMessage?, handlerFailed: bool, acknowledge: bool)
    modifies message, if message == null then null else message.raw
    ensures message != null ==>
      var answers := acknowledge && !old(message.done) && ForResult(handlerFailed) in message.callbacks;
      && message.callbacks == old(message.callbacks)
      && message.done == (old(message.done) || answers)
      && message.raw.sent == old(message.raw.sent) + if answers then [ForResult(handlerFailed)] else []
    ensures message != null && acknowledge && !old(message.done) && handlerFailed && Nak in message.callbacks
      ==> message.raw.sent == old(message.raw.sent) + [Nak]
    ensures message != null && acknowledge && !old(message.done) && !handlerFailed && Ack in message.callbacks
      ==> message.raw.sent == old(message.raw.sent) + [Ack]
  {
    if message == null || message.done || !acknowledge {
      return;
    }
    if handlerFailed {
      message.Finish(Nak);
      return;
    }
    message.Finish(Ack);
  }

  /** What an endpoint answers to a request; requests and errors stay abstract. */
  datatype Endpoint<!T> = Endpoint(decode: string -> Option<T>, fails: T -> bool)

  /** The handler JSONEndpoint builds. */
  method JSONHandler<T>(endpoint: Endpoint<T>, message: SubMessage) returns (failed: bool)
    modifies message, message.raw
    ensures message.callbacks == old(message.callbacks)
    ensures failed <==> (endpoint.decode(message.data).None? || endpoint.fails(endpoint.decode(message.data).value))
    ensures endpoint.decode(message.data).None? && Term in message.callbacks ==> message.done
    ensures message.raw.sent == old(message.raw.sent) +
      if endpoint.decode(message.data).None? && Term in message.callbacks && !old(message.done) then [Term] else []
    ensures endpoint.decode(message.data).Some? ==> message.done == old(message.done)
  {
    var request := endpoint.decode(message.data);
    if request.None? {
      message.Finish(Term);
      return true;
    }
    failed := endpoint.fails(request.value);
  }

  datatype Result = BadEnvelope | BadPayload | Answered(failed: bool)

  function Outcome<T>(envelope: string -> Option<string>, payload: string, endpoint: Endpoint<T>): Result {
    match envelope(payload)
    case None => BadEnvelope
    case Some(data) =>
      match endpoint.decode(data)
      case None => BadPayload
      case Some(request) => Answered(endpoint.fails(request))
  }

  /** The answers a message should get. */
  function Answers(js: bool, r: Result): seq<Answer> {
    if !js then [] else
    match r
    case Answered(failed) => [ForResult(failed)]
    case _ => [Term]
  }

  /** The Subscribe callback with a JSONEndpoint as its handler: exactly one answer with
      JetStream, none without. */
  method Deliver<T>(raw: RawMessage, envelope: string -> Option<string>, payload: string,
        js: bool, endpoint: Endpoint<T>)
    modifies raw
    ensures raw.sent == old(raw.sent) + Answers(js, Outcome(envelope, payload, endpoint))
    ensures !js ==> raw.sent == old(raw.sent)
    ensures js && (envelope(payload).None? || endpoint.decode(envelope(payload).value).None?)
      ==> raw.sent == old(raw.sent) + [Term]
    ensures js && envelope(payload).Some? && endpoint.decode(envelope(payload).value).Some?
      ==> raw.sent == old(raw.sent)
                      + if endpoint.fails(endpoint.decode(envelope(payload).value).value) then [Nak] else [Ack]
  {
    var data := envelope(payload);
    if data.None? {
      if js {
        raw.Send(Term);
      }
      return;
    }
    var msg := new SubMessage(data.value, raw);
    if js {
      msg.Set(Ack);
      msg.Set(Nak);
      msg.Set(Term);
    }
    var failed := JSONHandler(endpoint, msg);
    CompleteMessage(msg, failed, js);
  }

  // ----- Any number of goroutines -----

  /** A call of Ack, Nak or Term in progress: its callback was found, or it won the swap and has
      not sent its answer yet. */
  datatype Call = Found(answer: Answer) | Won(answer: Answer)

  /** Where the callback's own goroutine is. */
  datatype Stage = Decoding | Rejected | Handling | Returned(failed: bool) | Completing | Finished

  /** `won` and `sent` record the swaps that succeeded and the answers sent. */
  datatype Delivery = Delivery(
    js: bool,
    stage: Stage,
    done: bool,
    calls: map<nat, Call>,
    won: seq<Answer>,
    sent: seq<Answer>)

  /** The goroutine the callback, and so the handler and completeMessage, runs on. */
  const OWN: nat := 0

  datatype Action =
    | Decode(ok: bool)
    | Begin(t: nat, answer: Answer)
    | Swap(t: nat)
    | Fire(t: nat)
    | Return(failed: bool)
    | Complete
    | End

  function Start(js: bool): Delivery {
    Delivery(js, Decoding, false, map[], [], [])
  }

  /** One atomic step; an action that is not possible changes nothing. Goroutines the handler
      started may call at any time, also after the callback ended. */
  function Step(s: Delivery, a: Action): Delivery {
    match a
    case Decode(ok) =>
      if !s.stage.Decoding? then s
      else if ok then s.(stage := Handling)
      else s.(stage := Rejected, sent := if s.js then s.sent + [Term] else s.sent)
    case Begin(t, answer) =>
      if s.stage.Decoding? || s.stage.Rejected? || t in s.calls || !s.js then s
      else if t == OWN && !s.stage.Handling? then s
      else s.(calls := s.calls[t := Found(answer)])
    case Swap(t) =>
      if t !in s.calls || s.calls[t].Won? then s
      else if s.done then s.(calls := s.calls - {t})
      else s.(done := true, won := s.won + [s.calls[t].answer], calls := s.calls[t := Won(s.calls[t].answer)])
    case Fire(t) =>
      if t !in s.calls || s.calls[t].Found? then s
      else s.(calls := s.calls - {t}, sent := s.sent + [s.calls[t].answer])
    case Return(failed) =>
      if !s.stage.Handling? || OWN in s.calls then s else s.(stage := Returned(failed))
    case Complete =>
      if !s.stage.Returned? then s
      else if s.done || !s.js then s.(stage := Finished)
      else s.(stage := Completing, calls := s.calls[OWN := Found(ForResult(s.stage.failed))])
    case End =>
      if !s.stage.Completing? || OWN in s.calls then s else s.(stage := Finished)
  }

  function Run(s: Delivery, actions: seq<Action>): Delivery {
    if actions == [] then s else Step(Run(s, actions[..|actions| - 1]), Last(actions))
  }

  lemma {:induction false} RunConcat(s: Delivery, a: seq<Action>, b: seq<Action>)
    ensures Run(s, a + b) == Run(Run(s, a), b)
    decreases |b|
  {
    if b == [] {
      assert a + b == a;
    } else {
      assert (a + b)[..|a + b| - 1] == a + b[..|b| - 1];
      RunConcat(s, a, b[..|b| - 1]);
    }
  }

  /** The steps of the callback with a JSONEndpoint, when no other goroutine has the message. */
  function Script(r: Result): seq<Action> {
    match r
    case BadEnvelope => [Decode(false)]
    case BadPayload => [Decode(true), Begin(OWN, Term), Swap(OWN), Fire(OWN), Return(true), Complete]
    case Answered(failed) => [Decode(true), Return(failed), Complete, Swap(OWN), Fire(OWN), End]
  }

  lemma RunOfSix(s: Delivery, a: Action, b: Action, c: Action, d: Action, e: Action, f: Action)
    ensures Run(s, [a]) == Step(s, a)
    ensures Run(s, [a, b, c, d, e, f]) == Step(Step(Step(Step(Step(Step(s, a), b), c), d), e), f)
  {
    assert [a, b, c, d, e, f][..5] == [a, b, c, d, e] && [a, b, c, d, e][..4] == [a, b, c, d];
    assert [a, b, c, d][..3] == [a, b, c] && [a, b, c][..2] == [a, b] && [a, b][..1] == [a] && [a][..0] == [];
    assert Run(s, []) == s;
    assert Run(s, [a]) == Step(s, a);
    assert Run(s, [a, b]) == Step(Step(s, a), b);
    assert Run(s, [a, b, c]) == Step(Run(s, [a, b]), c);
    assert Run(s, [a, b, c, d]) == Step(Run(s, [a, b, c]), d);
    assert Run(s, [a, b, c, d, e]) == Step(Run(s, [a, b, c, d]), e);
  }

  /** The interleaved system and the code of one goroutine give the same answers. */
  lemma ScriptGivesAnswers(js: bool, r: Result)
    ensures var s := Run(Start(js), Script(r));
            s.sent == Answers(js, r) && (s.stage.Finished? || s.stage.Rejected?)
    ensures js ==> Run(Start(js), Script(r)).sent == match r
                                                     case Answered(true) => [Nak]
                                                     case Answered(false) => [Ack]
                                                     case _ => [Term]
  {
    var s := Start(js);
    match r
    case BadEnvelope =>
      RunOfSix(s, Decode(false), End, End, End, End, End);
    case BadPayload =>
      RunOfSix(s, Decode(true), Begin(OWN, Term), Swap(OWN), Fire(OWN), Return(true), Complete);
    case Answered(failed) =>
      RunOfSix(s, Decode(true), Return(failed), Complete, Swap(OWN), Fire(OWN), End);
  }

  // ----- The invariant -----

  /** The flag is the history of the swaps: at most one succeeded, and its answer has been sent
      or is about to be sent by the one goroutine that won. */
  ghost predicate OnceInv(s: Delivery) {
    && (s.won == [] || |s.won| == 1)
    && (s.done <==> s.won != [])
    && (forall t :: t in s.calls && s.calls[t].Won? ==> s.sent == [] && s.won == [s.calls[t].answer])
    && (forall t, u :: t in s.calls && u in s.calls && s.calls[t].Won? && s.calls[u].Won? ==> t == u)
    && (!s.stage.Rejected? && (forall t :: t in s.calls ==> s.calls[t].Found?) ==> s.sent == s.won)
  }

  ghost predicate StageInv(s: Delivery) {
    && (s.stage.Decoding? || s.stage.Rejected? || !s.js ==> s.calls == map[] && s.won == [])
    && (s.stage.Rejected? ==> s.sent == if s.js then [Term] else [])
    && (OWN in s.calls ==> s.stage.Handling? || s.stage.Completing?)
    && (s.stage.Completing? && OWN !in s.calls ==> s.done)
    && (s.stage.Completing? ==> s.js)
    && (s.stage.Finished? && s.js ==> s.done)
  }

  lemma StepKeepsOnce(s: Delivery, a: Action)
    requires OnceInv(s) && StageInv(s)
    ensures OnceInv(Step(s, a))
  {
    var s' := Step(s, a);
    match a
    case Swap(t) =>
      if t in s.calls && s.calls[t].Found? && !s.done {
        assert forall u :: u in s.calls ==> s.calls[u].Found?;
        assert s'.calls[t].Won?;
      } else if t in s.calls && s.calls[t].Found? {
        if forall u :: u in s'.calls ==> s'.calls[u].Found? {
          assert forall u :: u in s.calls ==> u == t || u in s'.calls;
        }
      }
    case Fire(t) =>
      if t in s.calls && s.calls[t].Won? {
        assert forall u :: u in s'.calls ==> s'.calls[u].Found?;
      }
    case Begin(t, answer) =>
      if s'.calls != s.calls {
        if forall u :: u in s'.calls ==> s'.calls[u].Found? {
          assert forall u :: u in s.calls ==> s.calls[u] == s'.calls[u];
        }
      }
    case Complete =>
      if s'.calls != s.calls {
        if forall u :: u in s'.calls ==> s'.calls[u].Found? {
          assert forall u :: u in s.calls ==> s.calls[u] == s'.calls[u];
        }
      }
    case _ =>
  }

  lemma {:induction false} RunInv(js: bool, actions: seq<Action>)
    ensures OnceInv(Run(Start(js), actions)) && StageInv(Run(Start(js), actions))
    ensures Run(Start(js), actions).js == js
  {
    if actions != [] {
      RunInv(js, actions[..|actions| - 1]);
      StepKeepsOnce(Run(Start(js), actions[..|actions| - 1]), Last(actions));
    }
  }

  // ----- What every interleaving keeps -----

  /** At most one answer is ever sent; it is that of the one swap that succeeded, or the Term of
      an undecodable envelope. */
  lemma AtMostOneAnswer(js: bool, actions: seq<Action>)
    ensures var s := Run(Start(js), actions);
            && |s.sent| <= 1 && |s.won| <= 1
            && (!s.stage.Rejected? ==> s.sent == s.won || s.sent == [])
            && (!js ==> s.sent == [] && !s.done)
  {
    var s := Run(Start(js), actions);
    RunInv(js, actions);
    if t :| t in s.calls && s.calls[t].Won? {
      assert s.sent == [];
    }
  }

  /** With JetStream, once the callback is over exactly one answer was chosen, and it is sent
      unless a goroutine of the handler still holds it. An undecodable envelope gets Term. */
  lemma FinishedIsAnswered(actions: seq<Action>)
    ensures var s := Run(Start(true), actions);
            && (s.stage.Finished? ==> |s.won| == 1)
            && (s.stage.Finished? && (forall t :: t in s.calls ==> s.calls[t].Found?) ==> s.sent == s.won)
            && (s.stage.Rejected? ==> s.sent == [Term] && s.won == [])
  {
    RunInv(true, actions);
  }

  /** Once a swap succeeded nothing changes the choice. */
  lemma {:induction false} ChoiceIsFinal(s: Delivery, actions: seq<Action>)
    requires s.done
    ensures Run(s, actions).done && Run(s, actions).won == s.won
  {
    if actions != [] {
      ChoiceIsFinal(s, actions[..|actions| - 1]);
    }
  }

  // ----- Where answers come from -----

  ghost predicate Asks(actions: seq<Action>, a: Answer) {
    exists i :: 0 <= i < |actions| && actions[i].Begin? && actions[i].answer == a
  }

  ghost predicate Returns(actions: seq<Action>, failed: bool) {
    exists i :: 0 <= i < |actions| && actions[i] == Return(failed)
  }

  /** Until completeMessage runs only answers that were asked for are in play; afterwards also
      that of the handler's result. */
  ghost predicate InPlay(s: Delivery, actions: seq<Action>, a: Answer) {
    || Asks(actions, a)
    || (!s.stage.Handling? && !s.stage.Returned? && !s.stage.Decoding? &&
        exists failed :: Returns(actions, failed) && a == ForResult(failed))
  }

  ghost predicate Sources(s: Delivery, actions: seq<Action>) {
    && (forall t :: t in s.calls ==> InPlay(s, actions, s.calls[t].answer))
    && (forall a :: a in s.won ==> InPlay(s, actions, a))
    && (s.stage.Returned? ==> Returns(actions, s.stage.failed))
  }

  lemma InPlayStays(s: Delivery, actions: seq<Action>, last: Action, a: Answer)
    requires InPlay(s, actions, a)
    ensures InPlay(Step(s, last), actions + [last], a)
  {
    var all := actions + [last];
    assert forall i :: 0 <= i < |actions| ==> all[i] == actions[i];
    if !Asks(actions, a) {
      var failed :| Returns(actions, failed) && a == ForResult(failed);
      assert Returns(all, failed);
    }
  }

  lemma StepKeepsSources(s: Delivery, actions: seq<Action>, last: Action)
    requires Sources(s, actions)
    ensures Sources(Step(s, last), actions + [last])
  {
    var s', all := Step(s, last), actions + [last];
    assert all[|actions|] == last;
    forall a | InPlay(s, actions, a) ensures InPlay(s', all, a) {
      InPlayStays(s, actions, last, a);
    }
    if s.stage.Returned? {
      var i :| 0 <= i < |actions| && actions[i] == Return(s.stage.failed);
      assert all[i] == Return(s.stage.failed);
    }
    if last.Begin? {
      assert Asks(all, last.answer);
    }
    if last.Complete? && s.stage.Returned? && s'.stage.Completing? {
      assert Returns(all, s.stage.failed);
      assert InPlay(s', all, ForResult(s.stage.failed));
    }
  }

  lemma {:induction false} AnswersHaveSources(js: bool, actions: seq<Action>)
    ensures Sources(Run(Start(js), actions), actions)
  {
    if actions != [] {
      var before := actions[..|actions| - 1];
      AnswersHaveSources(js, before);
      StepKeepsSources(Run(Start(js), before), before, Last(actions));
      assert before + [Last(actions)] == actions;
    }
  }

  /** A handler that leaves the message alone has it acknowledged by its result. */
  lemma UntouchedFollowsResult(actions: seq<Action>)
    requires forall a :: !Asks(actions, a)
    ensures var s := Run(Start(true), actions);
            s.stage.Finished? ==> exists failed :: Returns(actions, failed) && s.won == [ForResult(failed)]
  {
    var s := Run(Start(true), actions);
    FinishedIsAnswered(actions);
    AnswersHaveSources(true, actions);
    if s.stage.Finished? {
      assert s.won[0] in s.won;
      var failed :| Returns(actions, failed) && s.won[0] == ForResult(failed);
      assert s.won == [ForResult(failed)];
    }
  }

  /** From the handler's return on, if nothing is asked for: only this answer is in play. */
  ghost predicate OnlyAnswer(s: Delivery, failed: bool, answer: Answer) {
    && s.js && (forall a :: a in s.won ==> a == answer)
    && (forall t :: t in s.calls ==> s.calls[t].answer == answer)
    && (s.stage.Returned? || s.stage.Completing? || s.stage.Finished?)
    && (s.stage.Returned? ==> s.stage.failed == failed && s.calls == map[] && s.won == [])
  }

  lemma {:induction false} OnlyAnswerStays(s: Delivery, failed: bool, answer: Answer, actions: seq<Action>)
    requires OnlyAnswer(s, failed, answer) && answer == ForResult(failed)
    requires forall k :: 0 <= k < |actions| ==> !actions[k].Begin?
    ensures OnlyAnswer(Run(s, actions), failed, answer)
  {
    if actions != [] {
      OnlyAnswerStays(s, failed, answer, actions[..|actions| - 1]);
      assert !Last(actions).Begin?;
    }
  }

  lemma {:induction false} NothingAsked(actions: seq<Action>)
    requires forall k :: 0 <= k < |actions| ==> !actions[k].Begin?
    ensures var s := Run(Start(true), actions);
            s.js && (s.stage.Decoding? || s.stage.Handling? || s.stage.Returned? ==> s.calls == map[] && s.won == [])
  {
    if actions != [] {
      NothingAsked(actions[..|actions| - 1]);
    }
  }

  ghost predicate ReturnedAt(actions: seq<Action>, i: nat, failed: bool) {
    i <= |actions| && Run(Start(true), actions[..i]).stage == Returned(failed)
  }

  /** The callback is over only after its handler has returned. */
  lemma {:induction false} FinishedHasReturned(actions: seq<Action>)
    requires var stage := Run(Start(true), actions).stage; stage.Returned? || stage.Completing? || stage.Finished?
    ensures exists i: nat, failed :: ReturnedAt(actions, i, failed)
  {
    var n := |actions|;
    assert actions[..n] == actions;
    if Run(Start(true), actions).stage.Returned? {
      assert ReturnedAt(actions, n, Run(Start(true), actions).stage.failed);
    } else {
      FinishedHasReturned(actions[..n - 1]);
      var i: nat, failed :| ReturnedAt(actions[..n - 1], i, failed);
      assert actions[..n - 1][..i] == actions[..i];
      assert ReturnedAt(actions, i, failed);
    }
  }

  /** In every run in which nobody calls Ack, Nak or Term: once the handler has returned, the only
      answer that can win, and has won when the callback is over, is Nak after a failure and Ack
      after success. */
  lemma {:induction false} FailureIsNakSuccessIsAck(actions: seq<Action>, i: nat, failed: bool)
    requires forall k :: 0 <= k < |actions| ==> !actions[k].Begin?
    requires ReturnedAt(actions, i, failed)
    ensures var s := Run(Start(true), actions);
            && (s.won == [] || s.won == if failed then [Nak] else [Ack])
            && (s.stage.Finished? ==> s.won == if failed then [Nak] else [Ack])
            && (s.sent == [] || s.sent == s.won)
  {
    var s0 := Run(Start(true), actions[..i]);
    NothingAsked(actions[..i]);
    RunConcat(Start(true), actions[..i], actions[i..]);
    assert actions[..i] + actions[i..] == actions;
    OnlyAnswerStays(s0, failed, ForResult(failed), actions[i..]);
    FinishedIsAnswered(actions);
    AtMostOneAnswer(true, actions);
    var s := Run(Start(true), actions);
    if s.won != [] {
      assert s.won[0] in s.won;
    }
  }

  // ----- A handler that answers itself -----

  ghost predicate Settled(s: Delivery) {
    s.done || (OWN in s.calls && s.stage.Handling?)
  }

  /** A call of the handler's own goroutine takes effect before the handler returns: one of the
      goroutines has won by then. */
  lemma {:induction false} OwnCallSettles(actions: seq<Action>, i: nat)
    requires i < |actions| && actions[i].Begin? && actions[i].t == OWN
    requires Run(Start(true), actions[..i]).stage.Handling?
    ensures Settled(Run(Start(true), actions))
  {
    var before := actions[..|actions| - 1];
    var s := Run(Start(true), before);
    RunInv(true, before);
    if i < |before| {
      assert before[..i] == actions[..i] && before[i] == actions[i];
      OwnCallSettles(before, i);
    } else {
      assert before == actions[..i];
    }
  }

  ghost predicate OnlyOwnCalls(actions: seq<Action>) {
    forall k :: 0 <= k < |actions| && actions[k].Begin? ==> actions[k].t == OWN
  }

  /** So completeMessage adds nothing after a handler that called Ack, Nak or Term itself. In
      particular, when JSONEndpoint cannot decode a payload, and nothing but Term was called
      before it returns, then Term is the only answer, whatever is called afterwards; and it is
      sent by then if no other goroutine called anything before. */
  lemma DecodeFailureOnlyTerms(actions: seq<Action>, i: nat, after: seq<Action>)
    requires i < |actions| && actions[i] == Begin(OWN, Term)
    requires Run(Start(true), actions[..i]).stage.Handling?
    requires Run(Start(true), actions).stage.Returned?
    requires forall a :: Asks(actions, a) ==> a == Term
    ensures var s := Run(Start(true), actions + after);
            && s.won == [Term] && (s.sent == [] || s.sent == [Term])
            && (OnlyOwnCalls(actions) ==> s.sent == [Term])
  {
    var s := Run(Start(true), actions);
    OwnCallSettles(actions, i);
    RunInv(true, actions);
    AnswersHaveSources(true, actions);
    assert s.won[0] in s.won;
    RunConcat(Start(true), actions, after);
    ChoiceIsFinal(s, after);
    AtMostOneAnswer(true, actions + after);
    NotRejected(s, after);
    if OnlyOwnCalls(actions) {
      OwnCallsOnly(true, actions);
      SentStays(s, after);
    }
  }

  lemma {:induction false} OwnCallsOnly(js: bool, actions: seq<Action>)
    requires OnlyOwnCalls(actions)
    ensures Run(Start(js), actions).calls.Keys <= {OWN}
  {
    if actions != [] {
      OwnCallsOnly(js, actions[..|actions| - 1]);
    }
  }

  lemma {:induction false} SentStays(s: Delivery, actions: seq<Action>)
    ensures s.sent <= Run(s, actions).sent
  {
    if actions != [] {
      SentStays(s, actions[..|actions| - 1]);
    }
  }

  lemma {:induction false} NotRejected(s: Delivery, actions: seq<Action>)
    requires !s.stage.Decoding? && !s.stage.Rejected?
    ensures !Run(s, actions).stage.Decoding? && !Run(s, actions).stage.Rejected?
  {
    if actions != [] {
      NotRejected(s, actions[..|actions| - 1]);
    }
  }
}
