/** The credential chain under concurrent callers (crates/auth/src/credential_chain.rs:66-118).
    A call asks one provider after the other without holding the lock of the remembered index,
    so its steps interleave with those of other calls and with refreshes. Every question to a
    provider has an answer of its own, which may differ from one moment to the next. */
module ConcurrentChains {
  import opened Values
  import opened CredentialChains

  // ----- the steps -----

  /** Where a call has got to. A winner is first found and then, in a step of its own, stored. */
  datatype Caller =
    | Probing(failures: seq<string>)
    | Won(index: nat, auth: string)
    | Stored(index: nat, auth: string)
    | FromMemory(index: nat, auth: string)
    | Failed(failures: seq<string>)

  /** `Begin` holds the lock while it asks the remembered provider, if there is one; `reply` is
      what that provider answers. `Forget` is the locked step of a refresh. */
  datatype Step =
    | Begin(id: nat, reply: Result<string>)
    | Ask(id: nat, reply: Result<string>)
    | Store(id: nat)
    | Forget

  datatype Chain = Chain(remembered: Option<nat>, callers: map<nat, Caller>)

  const IDLE := Chain(None, map[])

  function Onwards(size: nat, failures: seq<string>): Caller {
    if |failures| < size then Probing(failures) else Failed(failures)
  }

  predicate Finds(c: Chain, id: nat) {
    id in c.callers && c.callers[id].Won?
  }

  predicate Asks(c: Chain, id: nat) {
    id in c.callers && c.callers[id].Probing?
  }

  function Apply(size: nat, c: Chain, s: Step): Chain {
    match s
    case Begin(id, reply) =>
      if id in c.callers then c
      else if c.remembered.Some? && c.remembered.value < size && reply.Ok? then
        c.(callers := c.callers[id := FromMemory(c.remembered.value, reply.value)])
      else
        c.(callers := c.callers[id := Onwards(size, [])])
    case Ask(id, reply) =>
      if !Asks(c, id) then c
      else
        var failures := c.callers[id].failures;
        c.(callers := c.callers[id :=
          match reply
          case Ok(auth) => Won(|failures|, auth)
          case Err(e) => Onwards(size, failures + [e])])
    case Store(id) =>
      if !Finds(c, id) then c
      else
        var Won(index, auth) := c.callers[id];
        Chain(Some(index), c.callers[id := Stored(index, auth)])
    case Forget => c.(remembered := None)
  }

  function RunFrom(size: nat, c: Chain, steps: seq<Step>): Chain {
    if steps == [] then c
    else Apply(size, RunFrom(size, c, steps[..|steps| - 1]), steps[|steps| - 1])
  }

  function Run(size: nat, steps: seq<Step>): Chain {
    RunFrom(size, IDLE, steps)
  }

  /** What a call has returned. */
  function Outcome(caller: Caller): Option<Result<string>> {
    match caller
    case Probing(_) => None
    case Won(_, _) => None
    case Stored(_, auth) => Some(Ok(auth))
    case FromMemory(_, auth) => Some(Ok(auth))
    case Failed(failures) =>
      Some(Err(if failures == [] then "credential chain is empty" else failures[|failures| - 1]))
  }

  // ----- every call answers for itself -----

  /** The answers that the providers gave to one call, in order. */
  function Replies(size: nat, steps: seq<Step>, id: nat): Outcomes {
    if steps == [] then []
    else
      var front, last := steps[..|steps| - 1], steps[|steps| - 1];
      Replies(size, front, id) +
      if last.Ask? && last.id == id && Asks(Run(size, front), id) then [last.reply] else []
  }

  function Errors(failures: seq<string>): Outcomes {
    seq(|failures|, i requires 0 <= i < |failures| => Err(failures[i]))
  }

  predicate Explains(size: nat, replies: Outcomes, caller: Caller) {
    match caller
    case Probing(failures) => |failures| < size && replies == Errors(failures)
    case Failed(failures) => |failures| == size && replies == Errors(failures)
    case FromMemory(_, _) => replies == []
    case Won(index, auth) => FoundBy(size, replies, index, auth)
    case Stored(index, auth) => FoundBy(size, replies, index, auth)
  }

  predicate FoundBy(size: nat, replies: Outcomes, index: nat, auth: string) {
    && |replies| == index + 1 <= size && replies[index] == Ok(auth)
    && forall j :: 0 <= j < index ==> replies[j].Err?
  }

  /** One more answer is explained by the caller it leads to. */
  lemma ReplyExplains(size: nat, replies: Outcomes, failures: seq<string>, reply: Result<string>)
    requires Explains(size, replies, Probing(failures))
    ensures reply.Ok? ==> Explains(size, replies + [reply], Won(|failures|, reply.value))
    ensures reply.Err? ==> Explains(size, replies + [reply], Onwards(size, failures + [reply.message]))
  {
    if reply.Err? {
      assert Errors(failures + [reply.message]) == Errors(failures) + [reply];
    }
  }

  lemma {:induction false} RepliesExplain(size: nat, steps: seq<Step>, id: nat)
    ensures id in Run(size, steps).callers ==>
              Explains(size, Replies(size, steps, id), Run(size, steps).callers[id])
    ensures id !in Run(size, steps).callers ==> Replies(size, steps, id) == []
  {
    if steps != [] {
      var front, last := steps[..|steps| - 1], steps[|steps| - 1];
      RepliesExplain(size, front, id);
      var c := Run(size, front);
      assert Run(size, steps) == Apply(size, c, last);
      if last.Ask? && last.id == id && Asks(c, id) {
        ReplyExplains(size, Replies(size, front, id), c.callers[id].failures, last.reply);
      } else {
        assert Replies(size, steps, id) == Replies(size, front, id);
      }
    }
  }

  lemma {:induction false} FirstSuccessAtEnd(outcomes: Outcomes)
    requires outcomes != [] && outcomes[|outcomes| - 1].Ok?
    requires forall j :: 0 <= j < |outcomes| - 1 ==> outcomes[j].Err?
    ensures FirstSuccess(outcomes) == Some(|outcomes| - 1)
  {
    if |outcomes| > 1 {
      FirstSuccessAtEnd(outcomes[1..]);
    }
  }

  /** Whatever other calls and refreshes do, a call that does not answer from memory returns
      what a probe of the answers given to it returns, and it fails only after every provider
      has failed it. */
  lemma AnswerIsOwnProbe(size: nat, steps: seq<Step>, id: nat)
    requires id in Run(size, steps).callers && Outcome(Run(size, steps).callers[id]).Some?
    requires !Run(size, steps).callers[id].FromMemory?
    ensures var replies := Replies(size, steps, id);
            var r := Outcome(Run(size, steps).callers[id]).value;
            r == Probe(replies) && |replies| <= size &&
            (r.Err? <==> |replies| == size && forall j :: 0 <= j < size ==> replies[j].Err?)
  {
    RepliesExplain(size, steps, id);
    var replies := Replies(size, steps, id);
    FirstSuccessIs(replies);
    if Run(size, steps).callers[id].Stored? {
      FirstSuccessAtEnd(replies);
    }
  }

  // ----- what is remembered -----

  /** The step at a position stores a winner. */
  predicate StoresAt(size: nat, steps: seq<Step>, k: nat) {
    k < |steps| && steps[k].Store? && Finds(Run(size, steps[..k]), steps[k].id)
  }

  /** Nothing is stored or forgotten from a position on. */
  predicate QuietFrom(size: nat, steps: seq<Step>, k: nat) {
    forall j :: k <= j < |steps| ==> steps[j] != Forget && !StoresAt(size, steps, j)
  }

  lemma StoresAtFront(size: nat, steps: seq<Step>, k: nat)
    requires k < |steps| - 1
    ensures StoresAt(size, steps, k) == StoresAt(size, steps[..|steps| - 1], k)
  {
    assert steps[..|steps| - 1][..k] == steps[..k];
  }

  lemma QuietFromFront(size: nat, steps: seq<Step>, k: nat)
    requires k <= |steps| - 1
    ensures QuietFrom(size, steps, k) <==>
              QuietFrom(size, steps[..|steps| - 1], k) &&
              steps[|steps| - 1] != Forget && !StoresAt(size, steps, |steps| - 1)
  {
    forall j | k <= j < |steps| - 1
      ensures StoresAt(size, steps, j) == StoresAt(size, steps[..|steps| - 1], j)
    {
      StoresAtFront(size, steps, j);
    }
  }

  /** The position whose winner is remembered: the last store, if nothing was forgotten since. */
  predicate LastStoreIs(size: nat, steps: seq<Step>, k: nat) {
    StoresAt(size, steps, k) && QuietFrom(size, steps, k + 1)
  }

  /** The remembered provider is the one whose winner was stored last, if that was after the
      last refresh; it succeeded for the call that stored it after every earlier one had failed
      that call. */
  lemma {:induction false} RememberedIsLastStore(size: nat, steps: seq<Step>, k: nat)
    requires LastStoreIs(size, steps, k)
    ensures var replies := Replies(size, steps[..k], steps[k].id);
            Run(size, steps).remembered == FirstSuccess(replies) == Some(|replies| - 1) && |replies| <= size
  {
    var n := |steps| - 1;
    if k == n {
      RepliesExplain(size, steps[..k], steps[k].id);
      FirstSuccessAtEnd(Replies(size, steps[..k], steps[k].id));
    } else {
      var front := steps[..n];
      assert front[..k] == steps[..k] && !StoresAt(size, steps, n);
      StoresAtFront(size, steps, k);
      QuietFromFront(size, steps, k + 1);
      RememberedIsLastStore(size, front, k);
    }
  }

  lemma {:induction false} RememberedWasStored(size: nat, steps: seq<Step>) returns (k: nat)
    requires Run(size, steps).remembered.Some?
    ensures LastStoreIs(size, steps, k)
  {
    var n := |steps| - 1;
    if StoresAt(size, steps, n) {
      k := n;
    } else {
      k := RememberedWasStored(size, steps[..n]);
      StoresAtFront(size, steps, k);
      QuietFromFront(size, steps, k + 1);
    }
  }

  /** In every interleaving something is remembered if and only if a winner was stored after the
      last refresh, and it is a provider of the chain. */
  lemma RememberedExactly(size: nat, steps: seq<Step>)
    ensures Run(size, steps).remembered.Some? <==> exists k: nat :: LastStoreIs(size, steps, k)
    ensures Run(size, steps).remembered.Some? ==> Run(size, steps).remembered.value < size
  {
    forall k: nat | LastStoreIs(size, steps, k)
      ensures Run(size, steps).remembered.Some?
    {
      RememberedIsLastStore(size, steps, k);
    }
    if Run(size, steps).remembered.Some? {
      var k := RememberedWasStored(size, steps);
      RememberedIsLastStore(size, steps, k);
    }
  }

  // ----- a refresh -----

  /** A call that begins now asks every provider from the first on, whatever is remembered. */
  ghost predicate Reprobes(size: nat, c: Chain, id: nat) {
    forall reply :: Apply(size, c, Begin(id, reply)).callers == c.callers[id := Onwards(size, [])]
  }

  lemma {:induction false} NotForgotten(size: nat, steps: seq<Step>, from: nat)
    requires from <= |steps| && Run(size, steps[..from]).remembered == None
    requires forall j :: from <= j < |steps| ==> steps[j] != Forget
    ensures Run(size, steps).remembered == None <==>
              forall j :: from <= j < |steps| ==> !StoresAt(size, steps, j)
  {
    if |steps| > from {
      var n := |steps| - 1;
      var front := steps[..n];
      assert front[..from] == steps[..from];
      NotForgotten(size, front, from);
      forall j | from <= j < n
        ensures StoresAt(size, steps, j) == StoresAt(size, front, j)
      {
        StoresAtFront(size, steps, j);
      }
      assert steps[..n] == front && Run(size, steps) == Apply(size, Run(size, front), steps[n]);
      assert StoresAt(size, steps, n) ==> Run(size, steps).remembered.Some?;
    } else {
      assert steps[..from] == steps;
    }
  }

  /** The call after a refresh probes the whole chain if and only if no call in flight has stored
      its winner in between. */
  lemma ReprobesExactly(size: nat, steps: seq<Step>, refresh: nat, id: nat)
    requires refresh < |steps| && steps[refresh] == Forget
    requires forall j :: refresh < j < |steps| ==> steps[j] != Forget
    requires id !in Run(size, steps).callers
    ensures Reprobes(size, Run(size, steps), id) <==>
              forall j :: refresh < j < |steps| ==> !StoresAt(size, steps, j)
  {
    var c := Run(size, steps);
    assert steps[..refresh + 1][..refresh] == steps[..refresh];
    NotForgotten(size, steps, refresh + 1);
    if c.remembered.Some? {
      RememberedExactly(size, steps);
      var c' := Apply(size, c, Begin(id, Ok("")));
      assert c'.callers[id].FromMemory?;
    }
  }

  /** A call that was in flight during a refresh brings back a provider that the next call then
      trusts, although an earlier one would succeed again. */
  lemma StaleWinner(size: nat, steps: seq<Step>, error: string, auth: string)
    requires size == 2
    requires steps == [Begin(0, Err(error)), Ask(0, Err(error)), Ask(0, Ok(auth)), Forget, Store(0)]
    ensures Run(size, steps).remembered == Some(1)
    ensures !Reprobes(size, Run(size, steps), 1)
  {
    var c0 := Apply(size, IDLE, steps[0]);
    var c1 := Apply(size, c0, steps[1]);
    var c2 := Apply(size, c1, steps[2]);
    var c3 := Apply(size, c2, steps[3]);
    assert steps[..1][..0] == [] && Run(size, steps[..1][..0]) == IDLE;
    assert Run(size, steps[..1]) == c0;
    assert steps[..2][..1] == steps[..1] && Run(size, steps[..2]) == c1;
    assert steps[..3][..2] == steps[..2] && Run(size, steps[..3]) == c2;
    assert steps[..4][..3] == steps[..3] && Run(size, steps[..4]) == c3;
    var c := Apply(size, c3, steps[4]);
    assert Run(size, steps) == c;
    var c' := Apply(size, c, Begin(1, Ok(auth)));
    assert c'.callers[1].FromMemory?;
  }

  // ----- a call that nothing disturbs -----

  function AskAll(id: nat, outcomes: Outcomes): seq<Step> {
    seq(|outcomes|, i requires 0 <= i < |outcomes| => Ask(id, outcomes[i]))
  }

  /** After the first answers: still probing, or stopped at the first success. */
  function Progress(size: nat, outcomes: Outcomes): Caller {
    match FirstSuccess(outcomes)
    case Some(i) => (FirstSuccessIs(outcomes); Won(i, outcomes[i].value))
    case None =>
      FirstSuccessIs(outcomes);
      Onwards(size, Messages(outcomes))
  }

  function Messages(outcomes: Outcomes): seq<string>
    requires forall i :: 0 <= i < |outcomes| ==> outcomes[i].Err?
  {
    seq(|outcomes|, i requires 0 <= i < |outcomes| => outcomes[i].message)
  }

  lemma {:induction false} FirstSuccessSnoc(outcomes: Outcomes, last: Result<string>)
    ensures FirstSuccess(outcomes + [last]) ==
            if FirstSuccess(outcomes).Some? then FirstSuccess(outcomes)
            else if last.Ok? then Some(|outcomes|) else None
  {
    var all := outcomes + [last];
    if outcomes != [] {
      assert all[1..] == outcomes[1..] + [last];
      FirstSuccessSnoc(outcomes[1..], last);
    }
  }

  lemma {:induction false} AskAllProgress(size: nat, c: Chain, id: nat, outcomes: Outcomes)
    requires |outcomes| <= size
    requires id in c.callers && c.callers[id] == Onwards(size, [])
    ensures RunFrom(size, c, AskAll(id, outcomes)) == c.(callers := c.callers[id := Progress(size, outcomes)])
  {
    if outcomes != [] {
      var n := |outcomes| - 1;
      var front := outcomes[..n];
      assert AskAll(id, outcomes)[..n] == AskAll(id, front);
      AskAllProgress(size, c, id, front);
      assert outcomes == front + [outcomes[n]];
      FirstSuccessSnoc(front, outcomes[n]);
      FirstSuccessIs(front);
      FirstSuccessIs(outcomes);
      if FirstSuccess(outcomes).None? {
        assert Messages(outcomes) == Messages(front) + [outcomes[n].message];
      }
    }
  }

  /** A call that runs without interruption does what `GetAuth` does. */
  lemma UndisturbedCall(size: nat, c: Chain, id: nat, reply: Result<string>, outcomes: Outcomes)
    requires |outcomes| == size && id !in c.callers
    ensures var begun := Apply(size, c, Begin(id, reply));
            var done := Apply(size, RunFrom(size, begun, AskAll(id, outcomes)), Store(id));
            id in done.callers && Outcome(done.callers[id]) == Some(Answer(c.remembered, reply, outcomes)) &&
            done.remembered == Remembered(c.remembered, reply, outcomes)
  {
    var begun := Apply(size, c, Begin(id, reply));
    FirstSuccessIs(outcomes);
    if begun.callers[id].FromMemory? {
      AskAllIgnored(size, begun, id, outcomes);
    } else {
      AskAllProgress(size, begun, id, outcomes);
    }
  }

  lemma {:induction false} AskAllIgnored(size: nat, c: Chain, id: nat, outcomes: Outcomes)
    requires !Asks(c, id)
    ensures RunFrom(size, c, AskAll(id, outcomes)) == c
  {
    if outcomes != [] {
      var n := |outcomes| - 1;
      assert AskAll(id, outcomes)[..n] == AskAll(id, outcomes[..n]);
      AskAllIgnored(size, c, id, outcomes[..n]);
    }
  }
}
