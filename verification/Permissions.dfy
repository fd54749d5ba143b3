/** Permission requests that wait for an answer, and the task that routes answers to them
    (crates/agents/src/runtime.rs). */
module Permissions {
  import opened Values

  type RequestId = string

  datatype Response = Response(allowed: bool, feedback: Option<string>)

  datatype Reply = Reply(id: RequestId, response: Response)

  // ----- the protocol, one atomic step at a time -----

  /** An ask registers its sender, then emits its request, then waits; a failed emission is
      withdrawn and denied. The waiting task may be dropped at any time. */
  datatype Phase = Registered | Waiting | Failing | Dropped | Denied | Done(result: Response)

  /** The dispatcher: between replies, holding one it received, or holding one with the
      sender (if any) it took out of the pending map. */
  datatype Hand = Idle | Received(reply: Reply) | Routing(reply: Reply, hasSender: bool)

  /** `pending` are the identifiers with a registered sender, `slots` the one-shot channels
      that have been filled. The rest is history: `emitted` the requests sent out, `sent`
      every reply ever queued, `routed` those looked up by the dispatcher, and `since` how
      many had been when an ask registered. */
  datatype State = State(phase: map<RequestId, Phase>, pending: set<RequestId>,
                         slots: map<RequestId, Response>, queue: seq<Reply>, hand: Hand,
                         emitted: set<RequestId>, sent: seq<Reply>, routed: seq<Reply>, since: map<RequestId, nat>)

  const INIT := State(map[], {}, map[], [], Idle, {}, [], [], map[])

  datatype Step =
    | Register(id: RequestId)       // insert the sender under a fresh identifier
    | Emit(id: RequestId)           // the request event was sent
    | EmitFails(id: RequestId)      // the event channel is closed
    | Withdraw(id: RequestId)       // remove the sender after a failed emission, deny
    | Resume(id: RequestId)         // the channel holds a response: return it
    | HangUp(id: RequestId)         // the sender is gone without a response: deny
    | Drop(id: RequestId)           // the asking task is cancelled
    | Answer(reply: Reply)          // a reply is queued, for any identifier at all
    | Receive                       // dispatcher: take a reply from the queue
    | Lookup                        // dispatcher: remove the sender from the pending map
    | Send                          // dispatcher: fill the channel, if there is a sender

  predicate In(s: State, id: RequestId, p: Phase) {
    id in s.phase && s.phase[id] == p
  }

  predicate Held(s: State, id: RequestId) {
    s.hand.Routing? && s.hand.hasSender && s.hand.reply.id == id
  }

  predicate Enabled(s: State, step: Step) {
    match step
    case Register(id) => id !in s.phase
    case Emit(id) => In(s, id, Registered)
    case EmitFails(id) => In(s, id, Registered)
    case Withdraw(id) => In(s, id, Failing)
    case Resume(id) => In(s, id, Waiting) && id in s.slots
    case HangUp(id) => In(s, id, Waiting) && id !in s.slots && id !in s.pending && !Held(s, id)
    case Drop(id) => id in s.phase && !s.phase[id].Done? && !s.phase[id].Denied?
    case Answer(_) => true
    case Receive => s.hand.Idle? && s.queue != []
    case Lookup => s.hand.Received?
    case Send => s.hand.Routing?
  }

  function Next(s: State, step: Step): State {
    if !Enabled(s, step) then s
    else
      match step
      case Register(id) =>
        s.(phase := s.phase[id := Registered], pending := s.pending + {id},
           since := s.since[id := |s.routed|])
      case Emit(id) => s.(phase := s.phase[id := Waiting], emitted := s.emitted + {id})
      case EmitFails(id) => s.(phase := s.phase[id := Failing])
      case Withdraw(id) => s.(phase := s.phase[id := Denied], pending := s.pending - {id})
      case Resume(id) => s.(phase := s.phase[id := Done(s.slots[id])])
      case HangUp(id) => s.(phase := s.phase[id := Denied])
      case Drop(id) => s.(phase := s.phase[id := Dropped])
      case Answer(reply) => s.(queue := s.queue + [reply], sent := s.sent + [reply])
      case Receive => s.(queue := s.queue[1..], hand := Received(s.queue[0]))
      case Lookup =>
        var reply := s.hand.reply;
        s.(hand := Routing(reply, reply.id in s.pending), pending := s.pending - {reply.id},
           routed := s.routed + [reply])
      case Send =>
        var reply := s.hand.reply;
        if s.hand.hasSender && !In(s, reply.id, Dropped)
        then s.(hand := Idle, slots := s.slots[reply.id := reply.response])
        else s.(hand := Idle)
  }

  function Run(steps: seq<Step>): State {
    if steps == [] then INIT else Next(Run(steps[..|steps| - 1]), steps[|steps| - 1])
  }

  // ----- the invariant -----

  /** The first of the replies that carries `id`. */
  function FirstFor(replies: seq<Reply>, id: RequestId): Option<Response> {
    if replies == [] then None
    else if replies[0].id == id then Some(replies[0].response)
    else FirstFor(replies[1..], id)
  }

  lemma {:induction false} FirstForSnoc(replies: seq<Reply>, reply: Reply, id: RequestId)
    ensures FirstFor(replies + [reply], id) ==
            if FirstFor(replies, id).Some? then FirstFor(replies, id)
            else if reply.id == id then Some(reply.response) else None
  {
    if replies == [] {
      assert replies + [reply] == [reply];
    } else {
      assert (replies + [reply])[1..] == replies[1..] + [reply];
      FirstForSnoc(replies[1..], reply, id);
    }
  }

  /** The first reply for an ask among those routed since it registered. */
  function Answered(s: State, id: RequestId): Option<Response> {
    if id in s.since && s.since[id] <= |s.routed| then FirstFor(s.routed[s.since[id]..], id) else None
  }

  predicate Alive(p: Phase) {
    p.Registered? || p.Waiting? || p.Failing?
  }

  /** Every ask's sender is in exactly one place: the pending map until a reply for it is
      routed, then the dispatcher's hand with that first reply, then its channel. */
  ghost predicate AskInv(s: State, id: RequestId)
    requires id in s.phase
  {
    && id in s.since && s.since[id] <= |s.routed|
    && (match Answered(s, id)
        case None =>
          id !in s.slots && !Held(s, id) && (id in s.pending || s.phase[id].Denied?)
        case Some(r) =>
          && id !in s.pending
          && (Held(s, id) ==> s.hand.reply.response == r && id !in s.slots)
          && (id in s.slots ==> s.slots[id] == r)
          && (Alive(s.phase[id]) ==> Held(s, id) || id in s.slots))
    && (s.phase[id].Done? ==> Answered(s, id) == Some(s.phase[id].result))
  }

  ghost predicate Inv(s: State) {
    && s.pending <= s.phase.Keys && s.slots.Keys <= s.phase.Keys
    && (forall id :: Held(s, id) ==> id in s.phase)
    && (forall id :: id in s.phase ==> AskInv(s, id))
  }

  lemma LookupAnswers(s: State, id: RequestId)
    requires s.hand.Received? && id in s.since && s.since[id] <= |s.routed|
    ensures Answered(Next(s, Lookup), id) ==
            if Answered(s, id).Some? then Answered(s, id)
            else if s.hand.reply.id == id then Some(s.hand.reply.response) else None
  {
    var n, reply := s.since[id], s.hand.reply;
    assert (s.routed + [reply])[n..] == s.routed[n..] + [reply];
    FirstForSnoc(s.routed[n..], reply, id);
  }

  lemma LookupKeeps(s: State, id: RequestId)
    requires s.hand.Received? && id in s.phase && AskInv(s, id)
    ensures AskInv(Next(s, Lookup), id)
  {
    LookupAnswers(s, id);
  }

  lemma SendKeeps(s: State, id: RequestId)
    requires s.hand.Routing? && id in s.phase && AskInv(s, id)
    ensures AskInv(Next(s, Send), id)
  {
    assert Answered(Next(s, Send), id) == Answered(s, id);
  }

  lemma OtherKeeps(s: State, step: Step, id: RequestId)
    requires id in s.phase && AskInv(s, id) && !step.Lookup? && !step.Send?
    ensures AskInv(Next(s, step), id)
  {
    assert Answered(Next(s, step), id) == Answered(s, id);
  }

  lemma NewAsk(s: State, id: RequestId)
    requires Inv(s) && id !in s.phase
    ensures AskInv(Next(s, Register(id)), id)
  {
    assert s.routed[|s.routed|..] == [];
  }

  lemma AskStep(s: State, step: Step, id: RequestId)
    requires Inv(s) && id in Next(s, step).phase
    ensures AskInv(Next(s, step), id)
  {
    if id !in s.phase {
      NewAsk(s, id);
    } else if !Enabled(s, step) {
    } else if step.Lookup? {
      LookupKeeps(s, id);
    } else if step.Send? {
      SendKeeps(s, id);
    } else {
      OtherKeeps(s, step, id);
    }
  }

  lemma StepKeeps(s: State, step: Step)
    requires Inv(s)
    ensures Inv(Next(s, step))
  {
    forall id | id in Next(s, step).phase ensures AskInv(Next(s, step), id) {
      AskStep(s, step, id);
    }
  }

  lemma {:induction false} AlwaysInv(steps: seq<Step>)
    ensures Inv(Run(steps))
  {
    if steps != [] {
      AlwaysInv(steps[..|steps| - 1]);
      StepKeeps(Run(steps[..|steps| - 1]), steps[|steps| - 1]);
    }
  }

  // ----- what every run keeps -----

  /** An ask that has ended with an answer got the first reply for it that was routed after it
      registered, whatever else was going on. */
  lemma ResultIsFirstReply(steps: seq<Step>, id: RequestId)
    requires id in Run(steps).phase && Run(steps).phase[id].Done?
    ensures Answered(Run(steps), id) == Some(Run(steps).phase[id].result)
  {
    AlwaysInv(steps);
    assert AskInv(Run(steps), id);
  }

  /** Once ended, an ask stays as it is: it gets at most one result. */
  lemma EndedForGood(s: State, step: Step, id: RequestId)
    requires id in s.phase && (s.phase[id].Done? || s.phase[id].Denied?)
    ensures id in Next(s, step).phase && Next(s, step).phase[id] == s.phase[id]
  {
  }

  lemma {:induction false} AtMostOneResult(steps: seq<Step>, more: seq<Step>, id: RequestId)
    requires id in Run(steps).phase && (Run(steps).phase[id].Done? || Run(steps).phase[id].Denied?)
    ensures id in Run(steps + more).phase && Run(steps + more).phase[id] == Run(steps).phase[id]
    decreases |more|
  {
    if more == [] {
      assert steps + more == steps;
    } else {
      var front, last := more[..|more| - 1], more[|more| - 1];
      assert (steps + more)[..|steps + more| - 1] == steps + front;
      AtMostOneResult(steps, front, id);
      EndedForGood(Run(steps + front), last, id);
    }
  }

  /** Everything that concerns one ask. */
  datatype AskState = AskState(phase: Option<Phase>, pending: bool, slot: Option<Response>)

  function AskOf(s: State, id: RequestId): AskState {
    AskState(if id in s.phase then Some(s.phase[id]) else None, id in s.pending,
             if id in s.slots then Some(s.slots[id]) else None)
  }

  /** A step by which an ask moves itself. */
  predicate ByAsk(step: Step) {
    step.Register? || step.Emit? || step.EmitFails? || step.Withdraw? || step.Resume? || step.HangUp? || step.Drop?
  }

  /** Dispatching a reply touches no ask but the one it names. */
  lemma DispatchTouchesOnlyItsAsk(s: State, step: Step, id: RequestId)
    requires step.Receive? || step.Lookup? || step.Send?
    requires Enabled(s, step) && !s.hand.Idle? ==> s.hand.reply.id != id
    ensures AskOf(Next(s, step), id) == AskOf(s, id)
  {
  }

  /** Nor does any step of another ask. */
  lemma AsksDoNotInterfere(s: State, step: Step, id: RequestId)
    requires ByAsk(step) && step.id != id
    ensures AskOf(Next(s, step), id) == AskOf(s, id)
  {
  }

  /** The steps without those by which other asks move. */
  function WithoutOthers(steps: seq<Step>, id: RequestId): seq<Step> {
    if steps == [] then []
    else
      var front, last := WithoutOthers(steps[..|steps| - 1], id), steps[|steps| - 1];
      if ByAsk(last) && last.id != id then front else front + [last]
  }

  /** The dispatcher's hand, but for whether the sender of another ask is in it. */
  function HandFor(hand: Hand, id: RequestId): Hand {
    if hand.Routing? && hand.reply.id != id then Routing(hand.reply, false) else hand
  }

  predicate Alike(s: State, t: State, id: RequestId) {
    AskOf(s, id) == AskOf(t, id) && s.queue == t.queue && HandFor(s.hand, id) == HandFor(t.hand, id)
  }

  lemma AlikeOwn(s: State, t: State, step: Step, id: RequestId)
    requires Alike(s, t, id) && ByAsk(step) && step.id == id
    ensures Alike(Next(s, step), Next(t, step), id)
  {
    assert Held(s, id) <==> Held(t, id);
    assert Enabled(s, step) <==> Enabled(t, step);
  }

  lemma AlikeSend(s: State, t: State, id: RequestId)
    requires Alike(s, t, id)
    ensures Alike(Next(s, Send), Next(t, Send), id)
  {
    if s.hand.Routing? && s.hand.reply.id == id {
      SendTo(s, id);
      SendTo(t, id);
    } else {
      DispatchTouchesOnlyItsAsk(s, Send, id);
      DispatchTouchesOnlyItsAsk(t, Send, id);
    }
  }

  /** What filling a channel does to the ask it belongs to. */
  lemma SendTo(s: State, id: RequestId)
    requires s.hand.Routing? && s.hand.reply.id == id
    ensures AskOf(Next(s, Send), id) ==
            if s.hand.hasSender && AskOf(s, id).phase != Some(Dropped)
            then AskOf(s, id).(slot := Some(s.hand.reply.response)) else AskOf(s, id)
  {
  }

  lemma AlikeLookup(s: State, t: State, id: RequestId)
    requires Alike(s, t, id)
    ensures Alike(Next(s, Lookup), Next(t, Lookup), id)
  {
    if s.hand.Received? {
      assert s.hand == t.hand;
    }
  }

  lemma AlikeStep(s: State, t: State, step: Step, id: RequestId)
    requires Alike(s, t, id) && (ByAsk(step) ==> step.id == id)
    ensures Alike(Next(s, step), Next(t, step), id)
  {
    if ByAsk(step) {
      AlikeOwn(s, t, step, id);
    } else {
      match step
      case Lookup => AlikeLookup(s, t, id);
      case Send => AlikeSend(s, t, id);
      case Receive =>
      case Answer(_) =>
    }
  }

  /** Whatever other asks do, and whenever they do it, an ask is where it would be had none of
      them ever moved. */
  lemma {:induction false} OthersDoNotMatter(steps: seq<Step>, id: RequestId)
    ensures Alike(Run(steps), Run(WithoutOthers(steps, id)), id)
  {
    if steps != [] {
      var front, last := steps[..|steps| - 1], steps[|steps| - 1];
      OthersDoNotMatter(front, id);
      if ByAsk(last) && last.id != id {
        AsksDoNotInterfere(Run(front), last, id);
      } else {
        AlikeStep(Run(front), Run(WithoutOthers(front, id)), last, id);
        RunSnoc(WithoutOthers(front, id), last);
      }
    }
  }

  /** No reply for the ask is on its way. */
  predicate Unaddressed(s: State, id: RequestId) {
    && (!s.hand.Idle? ==> s.hand.reply.id != id)
    && (forall k :: 0 <= k < |s.queue| ==> s.queue[k].id != id)
  }

  lemma UnaddressedStep(s: State, step: Step, id: RequestId)
    requires Unaddressed(s, id)
    requires ByAsk(step) ==> step.id != id
    requires step.Answer? ==> step.reply.id != id
    ensures Unaddressed(Next(s, step), id) && AskOf(Next(s, step), id) == AskOf(s, id)
  {
    if ByAsk(step) {
      AsksDoNotInterfere(s, step, id);
    } else if !step.Answer? {
      DispatchTouchesOnlyItsAsk(s, step, id);
    }
  }

  /** However many replies for other asks are queued and dispatched, and whatever those asks
      do, an ask that makes no step of its own stays exactly as it is. */
  lemma {:induction false} RepliesReachOnlyTheirAsk(steps: seq<Step>, more: seq<Step>, id: RequestId)
    requires Unaddressed(Run(steps), id)
    requires forall k :: 0 <= k < |more| ==>
      (ByAsk(more[k]) ==> more[k].id != id) && (more[k].Answer? ==> more[k].reply.id != id)
    ensures Unaddressed(Run(steps + more), id) && AskOf(Run(steps + more), id) == AskOf(Run(steps), id)
    decreases |more|
  {
    if more == [] {
      assert steps + more == steps;
    } else {
      var front, last := more[..|more| - 1], more[|more| - 1];
      assert (steps + more)[..|steps + more| - 1] == steps + front;
      RepliesReachOnlyTheirAsk(steps, front, id);
      UnaddressedStep(Run(steps + front), last, id);
    }
  }

  /** A sender is never lost: a waiting ask is never cut off without a response. */
  lemma NeverHangsUp(steps: seq<Step>, id: RequestId)
    ensures !Enabled(Run(steps), HangUp(id))
  {
    AlwaysInv(steps);
    var s := Run(steps);
    if In(s, id, Waiting) {
      assert AskInv(s, id);
    }
  }

  /** Once the dispatcher is idle with nothing queued, a waiting ask has in its channel the
      first reply for it, if there was one at all. */
  lemma FirstReplyDelivered(steps: seq<Step>, id: RequestId)
    requires var s := Run(steps); In(s, id, Waiting) && s.hand.Idle? && Answered(s, id).Some?
    ensures var s := Run(steps); id in s.slots && Some(s.slots[id]) == Answered(s, id)
  {
    AlwaysInv(steps);
    assert AskInv(Run(steps), id);
  }

  // ----- replies that follow their request -----

  /** Replies are only ever queued for requests that have been emitted: an identifier is not
      known to anyone before. */
  predicate RepliesFollowRequests(steps: seq<Step>) {
    steps == [] ||
    (var front, last := steps[..|steps| - 1], steps[|steps| - 1];
     RepliesFollowRequests(front) && (last.Answer? ==> last.reply.id in Run(front).emitted))
  }

  function InHand(s: State): seq<Reply> {
    if s.hand.Received? then [s.hand.reply] else []
  }

  /** Replies are neither lost nor reordered on their way to the lookup. */
  ghost predicate InOrder(s: State) {
    s.sent == s.routed + InHand(s) + s.queue
  }

  ghost predicate NoneBefore(s: State, id: RequestId) {
    id in s.since && s.since[id] <= |s.routed| &&
    forall k :: 0 <= k < s.since[id] ==> s.routed[k].id != id
  }

  ghost predicate Follow(s: State) {
    && (forall k :: 0 <= k < |s.sent| ==> s.sent[k].id in s.emitted)
    && s.emitted <= s.phase.Keys
    && forall id :: id in s.phase ==> NoneBefore(s, id)
  }

  lemma OrderStep(s: State, step: Step)
    requires InOrder(s)
    ensures InOrder(Next(s, step))
  {
    if Enabled(s, step) {
      match step
      case Receive => assert s.queue == [s.queue[0]] + s.queue[1..];
      case _ =>
    }
  }

  lemma FollowStep(s: State, step: Step)
    requires InOrder(s) && Follow(s) && (step.Answer? ==> step.reply.id in s.emitted)
    ensures Follow(Next(s, step))
  {
    var t := Next(s, step);
    if step.Register? && Enabled(s, step) {
      forall k | 0 <= k < |s.routed| ensures s.routed[k].id != step.id {
        assert s.sent[k] == s.routed[k];
      }
    }
    forall id | id in t.phase ensures NoneBefore(t, id) {
      if id in s.phase {
        assert NoneBefore(s, id);
      }
    }
  }

  lemma {:induction false} AlwaysFollow(steps: seq<Step>)
    ensures InOrder(Run(steps))
    ensures RepliesFollowRequests(steps) ==> Follow(Run(steps))
  {
    if steps != [] {
      var front, last := steps[..|steps| - 1], steps[|steps| - 1];
      AlwaysFollow(front);
      OrderStep(Run(front), last);
      if RepliesFollowRequests(steps) {
        FollowStep(Run(front), last);
      }
    }
  }

  lemma {:induction false} FirstForSkips(replies: seq<Reply>, n: nat, id: RequestId)
    requires n <= |replies| && forall k :: 0 <= k < n ==> replies[k].id != id
    ensures FirstFor(replies, id) == FirstFor(replies[n..], id)
    decreases n
  {
    if n == 0 {
      assert replies[0..] == replies;
    } else {
      FirstForSkips(replies[1..], n - 1, id);
      assert replies[1..][n - 1..] == replies[n..];
    }
  }

  lemma {:induction false} FirstForPrefix(replies: seq<Reply>, more: seq<Reply>, id: RequestId)
    ensures FirstFor(replies, id).Some? ==> FirstFor(replies + more, id) == FirstFor(replies, id)
  {
    if replies != [] {
      assert (replies + more)[1..] == replies[1..] + more;
      FirstForPrefix(replies[1..], more, id);
    }
  }

  lemma AnsweredIsFirstSent(steps: seq<Step>, id: RequestId)
    requires RepliesFollowRequests(steps) && id in Run(steps).phase
    ensures var s := Run(steps);
            Answered(s, id) == FirstFor(s.routed, id) &&
            (Answered(s, id).Some? ==> Answered(s, id) == FirstFor(s.sent, id))
  {
    var s := Run(steps);
    assert NoneBefore(s, id) && s.sent == s.routed + InHand(s) + s.queue by { AlwaysFollow(steps); }
    assert Answered(s, id) == FirstFor(s.routed, id) by { FirstForSkips(s.routed, s.since[id], id); }
    assert s.sent == s.routed + (InHand(s) + s.queue);
    FirstForPrefix(s.routed, InHand(s) + s.queue, id);
  }

  /** When replies follow their requests, an answered ask has the very first reply ever queued
      for it; and once the dispatcher has caught up, a waiting ask has that reply in its
      channel whenever one was queued: the first reply to a request is never dropped. */
  lemma FirstReplyNeverDropped(steps: seq<Step>, id: RequestId)
    requires RepliesFollowRequests(steps) && id in Run(steps).phase
    ensures var s := Run(steps);
            s.phase[id].Done? ==> FirstFor(s.sent, id) == Some(s.phase[id].result)
    ensures var s := Run(steps);
            s.phase[id].Waiting? && s.hand.Idle? && s.queue == [] && FirstFor(s.sent, id).Some? ==>
              id in s.slots && Some(s.slots[id]) == FirstFor(s.sent, id)
  {
    AnsweredIsFirstSent(steps, id);
    AlwaysFollow(steps);
    var s := Run(steps);
    if s.phase[id].Done? {
      ResultIsFirstReply(steps, id);
    } else if s.phase[id].Waiting? && s.hand.Idle? && s.queue == [] && FirstFor(s.sent, id).Some? {
      assert s.sent == s.routed;
      FirstReplyDelivered(steps, id);
    }
  }

  lemma RunSnoc(front: seq<Step>, step: Step)
    ensures Run(front + [step]) == Next(Run(front), step)
  {
    assert (front + [step])[..|front|] == front;
  }

  lemma EarlyReply(s: State, reply: Reply)
    requires reply.id !in s.phase && s.hand.Idle? && s.queue == [] && FirstFor(s.sent, reply.id).None?
    ensures var t := Next(Next(Next(Next(s, Answer(reply)), Receive), Lookup), Register(reply.id));
            FirstFor(t.sent, reply.id) == Some(reply.response) && reply.id in t.phase &&
            Answered(t, reply.id) == None
  {
    var s1 := Next(s, Answer(reply));
    assert s1.queue == [reply] && s1.sent == s.sent + [reply];
    FirstForSnoc(s.sent, reply, reply.id);
    var s3 := Next(Next(s1, Receive), Lookup);
    assert s3.sent == s1.sent && s3.phase == s.phase;
    assert s3.routed[|s3.routed|..] == [];
  }

  /** A reply queued before its request is registered is dropped: the ask never sees it. */
  lemma EarlyReplyDropped(steps: seq<Step>, id: RequestId, r: Response)
    requires var s := Run(steps);
             id !in s.phase && s.hand.Idle? && s.queue == [] && FirstFor(s.sent, id).None?
    ensures var s := Run(steps + [Answer(Reply(id, r))] + [Receive] + [Lookup] + [Register(id)]);
            FirstFor(s.sent, id) == Some(r) && id in s.phase && Answered(s, id) == None
  {
    EarlyReply(Run(steps), Reply(id, r));
    RunSnoc(steps, Answer(Reply(id, r)));
    RunSnoc(steps + [Answer(Reply(id, r))], Receive);
    RunSnoc(steps + [Answer(Reply(id, r))] + [Receive], Lookup);
    RunSnoc(steps + [Answer(Reply(id, r))] + [Receive] + [Lookup], Register(id));
  }

  // ----- the handler with its channels -----

  /** A one-shot channel: it can be filled once. */
  class Oneshot {
    var value: Option<Response>

    constructor ()
      ensures value == None
    {
      value := None;
    }
  }

  class ChannelPermissionHandler {
    var pending: map<RequestId, Oneshot>

    /** Every pending channel is empty and belongs to one request. */
    ghost predicate Valid()
      reads this, pending.Values
    {
      && (forall id :: id in pending ==> pending[id].value.None?)
      && (forall i, j :: i in pending && j in pending && pending[i] == pending[j] ==> i == j)
    }

    constructor ()
      ensures Valid() && pending == map[]
    {
      pending := map[];
    }

    /** The registration half of an ask. */
    method Register(id: RequestId) returns (channel: Oneshot)
      requires Valid() && id !in pending
      modifies this
      ensures Valid() && fresh(channel) && pending == old(pending)[id := channel]
    {
      channel := new Oneshot();
      pending := pending[id := channel];
    }

    /** One reply: the sender leaves the pending map and its channel is filled; a reply
        without a sender changes nothing. */
    method Dispatch(reply: Reply)
      requires Valid()
      modifies this, pending.Values
      ensures Valid() && pending == old(pending) - {reply.id}
      ensures reply.id in old(pending) ==> old(pending)[reply.id].value == Some(reply.response)
      ensures forall id :: id in old(pending) && id != reply.id ==> old(pending)[id].value.None?
    {
      if reply.id in pending {
        var sender := pending[reply.id];
        pending := pending - {reply.id};
        sender.value := Some(reply.response);
      }
    }

    /** The dispatcher's loop over the replies that arrive. */
    method DispatchAll(replies: seq<Reply>)
      requires Valid()
      modifies this, pending.Values
      ensures Valid()
      ensures forall id :: id in pending <==> id in old(pending) && FirstFor(replies, id).None?
      ensures forall id :: id in old(pending) ==> old(pending)[id].value == FirstFor(replies, id)
    {
      for i := 0 to |replies|
        invariant Valid()
        invariant forall id :: id in pending <==> id in old(pending) && FirstFor(replies[..i], id).None?
        invariant forall id :: id in pending ==> pending[id] == old(pending)[id]
        invariant forall id :: id in old(pending) ==> old(pending)[id].value == FirstFor(replies[..i], id)
      {
        assert replies[..i + 1] == replies[..i] + [replies[i]];
        forall id
          ensures FirstFor(replies[..i + 1], id) ==
                  if FirstFor(replies[..i], id).Some? then FirstFor(replies[..i], id)
                  else if replies[i].id == id then Some(replies[i].response) else None
        {
          FirstForSnoc(replies[..i], replies[i], id);
        }
        Dispatch(replies[i]);
      }
      assert replies[..|replies|] == replies;
    }
  }
}
