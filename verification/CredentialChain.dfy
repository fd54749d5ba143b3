/** Trying credential providers in order and remembering the one that worked
    (crates/auth/src/credential_chain.rs). */
module CredentialChains {
  import opened Values

  /** What each provider would answer at the moment of a call. */
  type Outcomes = seq<Result<string>>

  // ----- the probe without a memory -----

  /** The first provider that succeeds. */
  function FirstSuccess(outcomes: Outcomes): Option<nat> {
    if outcomes == [] then None
    else if outcomes[0].Ok? then Some(0)
    else match FirstSuccess(outcomes[1..]) case Some(i) => Some(i + 1) case None => None
  }

  lemma {:induction false} FirstSuccessIs(outcomes: Outcomes)
    ensures FirstSuccess(outcomes).Some? ==>
      var i := FirstSuccess(outcomes).value;
      i < |outcomes| && outcomes[i].Ok? && forall j :: 0 <= j < i ==> outcomes[j].Err?
    ensures FirstSuccess(outcomes).None? <==> forall j :: 0 <= j < |outcomes| ==> outcomes[j].Err?
  {
    if outcomes != [] {
      FirstSuccessIs(outcomes[1..]);
    }
  }

  /** The uncached answer: the first success, or the last failure. */
  function Probe(outcomes: Outcomes): Result<string> {
    match FirstSuccess(outcomes)
    case Some(i) => (FirstSuccessIs(outcomes); outcomes[i])
    case None =>
      if outcomes == [] then Err("credential chain is empty") else outcomes[|outcomes| - 1]
  }

  // ----- the probe with a memory -----

  /** The remembered provider exists and succeeds; `first` is what it answers when it is asked
      before the probe, which asks it again. */
  predicate CacheHit(cached: Option<nat>, first: Result<string>, size: nat) {
    cached.Some? && cached.value < size && first.Ok?
  }

  function Answer(cached: Option<nat>, first: Result<string>, outcomes: Outcomes): Result<string> {
    if CacheHit(cached, first, |outcomes|) then first else Probe(outcomes)
  }

  /** The remembered index after a call: a failed probe leaves it. */
  function Remembered(cached: Option<nat>, first: Result<string>, outcomes: Outcomes): Option<nat> {
    if CacheHit(cached, first, |outcomes|) || FirstSuccess(outcomes).None? then cached
    else FirstSuccess(outcomes)
  }

  class CredentialChain {
    const size: nat
    var cachedIndex: Option<nat>

    predicate Valid()
      reads this
    {
      cachedIndex.Some? ==> cachedIndex.value < size
    }

    constructor (size: nat)
      ensures Valid() && this.size == size && cachedIndex == None
    {
      this.size := size;
      cachedIndex := None;
    }

    method GetAuth(first: Result<string>, outcomes: Outcomes) returns (auth: Result<string>)
      requires Valid() && |outcomes| == size
      modifies this
      ensures Valid()
      ensures auth == Answer(old(cachedIndex), first, outcomes)
      ensures cachedIndex == Remembered(old(cachedIndex), first, outcomes)
    {
      if cachedIndex.Some? && cachedIndex.value < |outcomes| && first.Ok? {
        return first;
      }
      var lastError: Option<Result<string>> := None;
      assert outcomes[0..] == outcomes;
      for idx := 0 to |outcomes|
        invariant cachedIndex == old(cachedIndex)
        invariant forall j :: 0 <= j < idx ==> outcomes[j].Err?
        invariant lastError == if idx == 0 then None else Some(outcomes[idx - 1])
        invariant FirstSuccess(outcomes) ==
          match FirstSuccess(outcomes[idx..]) case Some(i) => Some(i + idx) case None => None
      {
        assert outcomes[idx..][1..] == outcomes[idx + 1..];
        if outcomes[idx].Ok? {
          cachedIndex := Some(idx);
          return outcomes[idx];
        }
        lastError := Some(outcomes[idx]);
      }
      auth := match lastError case Some(e) => e case None => Err("credential chain is empty");
    }

    method Refresh()
      modifies this
      ensures Valid() && cachedIndex == None
    {
      cachedIndex := None;
    }
  }

  // ----- agreement -----

  /** The provider that answers a call. */
  function Winner(cached: Option<nat>, first: Result<string>, outcomes: Outcomes): Option<nat> {
    if CacheHit(cached, first, |outcomes|) then cached else FirstSuccess(outcomes)
  }

  /** The provider a fresh probe would choose answers, except exactly when the remembered one
      succeeds and an earlier one succeeds too, or the probe would find it failing again. */
  lemma AgreesExactly(cached: Option<nat>, first: Result<string>, outcomes: Outcomes)
    ensures Winner(cached, first, outcomes) == FirstSuccess(outcomes) <==>
            !(CacheHit(cached, first, |outcomes|) &&
              (outcomes[cached.value].Err? || exists j :: 0 <= j < cached.value && outcomes[j].Ok?))
  {
    FirstSuccessIs(outcomes);
    if CacheHit(cached, first, |outcomes|) && FirstSuccess(outcomes).Some? &&
       FirstSuccess(outcomes).value < cached.value {
      assert outcomes[FirstSuccess(outcomes).value].Ok?;
    }
  }

  /** A chain fails exactly when every provider fails, and the remembered one a second time. */
  lemma FailsOnlyIfAllFail(cached: Option<nat>, first: Result<string>, outcomes: Outcomes)
    ensures Answer(cached, first, outcomes).Err? <==>
            !CacheHit(cached, first, |outcomes|) && forall j :: 0 <= j < |outcomes| ==> outcomes[j].Err?
  {
    FirstSuccessIs(outcomes);
  }

  // ----- runs -----

  datatype Call = GetAuth(first: Result<string>, outcomes: Outcomes) | Refresh

  function Index(calls: seq<Call>): Option<nat> {
    if calls == [] then None
    else
      match calls[|calls| - 1]
      case GetAuth(first, outcomes) => Remembered(Index(calls[..|calls| - 1]), first, outcomes)
      case Refresh => None
  }

  /** Over any run on a chain of a given size, the remembered index is one of its providers;
      and it is the first success of some call since the last refresh, when it was set. */
  lemma {:induction false} IndexInRange(calls: seq<Call>, size: nat)
    requires forall i :: 0 <= i < |calls| && calls[i].GetAuth? ==> |calls[i].outcomes| == size
    ensures Index(calls).Some? ==> Index(calls).value < size
    ensures Index(calls).Some? ==>
      exists i :: 0 <= i < |calls| && calls[i].GetAuth? && FirstSuccess(calls[i].outcomes) == Index(calls) &&
        forall j :: i < j < |calls| ==> calls[j].GetAuth?
  {
    if calls != [] {
      var front, last := calls[..|calls| - 1], calls[|calls| - 1];
      IndexInRange(front, size);
      if last.GetAuth? && Index(calls).Some? {
        FirstSuccessIs(last.outcomes);
        if Index(calls) == Index(front) {
          var i :| 0 <= i < |front| && front[i].GetAuth? && FirstSuccess(front[i].outcomes) == Index(front) &&
                   forall j :: i < j < |front| ==> front[j].GetAuth?;
          assert calls[i] == front[i];
        } else {
          assert calls[|calls| - 1] == last;
        }
      }
    }
  }

  /** While every provider keeps answering as it does now, the memory is what a fresh probe
      finds, over any number of calls and refreshes. */
  lemma {:induction false} RemembersProbe(calls: seq<Call>, outcomes: Outcomes)
    requires Steady(calls, outcomes)
    ensures Index(calls).None? || Index(calls) == FirstSuccess(outcomes)
  {
    if calls != [] {
      RemembersProbe(calls[..|calls| - 1], outcomes);
    }
  }

  /** Every provider answers every question of the run in the same way. */
  ghost predicate Steady(calls: seq<Call>, outcomes: Outcomes) {
    forall i :: 0 <= i < |calls| && calls[i].GetAuth? ==> calls[i].outcomes == outcomes
  }

  /** Then each call answers as a fresh probe would. */
  lemma AgreesWhileUnchanged(calls: seq<Call>, first: Result<string>, outcomes: Outcomes)
    requires Steady(calls, outcomes)
    requires Index(calls).Some? && Index(calls).value < |outcomes| ==> first == outcomes[Index(calls).value]
    ensures Answer(Index(calls), first, outcomes) == Probe(outcomes)
    ensures Index(calls + [GetAuth(first, outcomes)]) == FirstSuccess(outcomes)
  {
    RemembersProbe(calls, outcomes);
    FirstSuccessIs(outcomes);
    assert (calls + [GetAuth(first, outcomes)])[..|calls|] == calls;
  }

  /** After a refresh nothing is remembered exactly as long as every call since has failed, so
      the call after it, and every call up to the first success, is a fresh probe. */
  lemma {:induction false} AfterRefresh(calls: seq<Call>, since: seq<Call>)
    requires forall i :: 0 <= i < |since| ==> since[i].GetAuth?
    ensures Index(calls + [Refresh] + since).None? <==>
            forall i :: 0 <= i < |since| ==> FirstSuccess(since[i].outcomes).None?
    ensures forall first, outcomes :: Index(calls + [Refresh] + since).None? ==>
              Answer(Index(calls + [Refresh] + since), first, outcomes) == Probe(outcomes)
    decreases |since|
  {
    var all := calls + [Refresh] + since;
    if since == [] {
      assert all == calls + [Refresh];
    } else {
      var front, last := since[..|since| - 1], since[|since| - 1];
      assert all[..|all| - 1] == calls + [Refresh] + front;
      AfterRefresh(calls, front);
      assert forall i :: 0 <= i < |front| ==> since[i] == front[i];
    }
  }
}
