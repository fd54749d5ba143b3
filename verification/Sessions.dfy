/** The per-session cancellation tokens of the agent server (crates/acp/src/sessions.rs). */
module Sessions {

  // ----- the registry over a run -----

  type SessionId = string

  /** One locked step of the registry. `Create` registers a fresh identifier. */
  datatype Step = Create(id: SessionId) | BeginTurn(id: SessionId) | Cancel(id: SessionId)

  /** Tokens are numbered in the order they are made; `current` is each session's token and
      `fired` says which tokens have been fired. */
  datatype Registry = Registry(current: map<SessionId, nat>, fired: seq<bool>)

  const EMPTY := Registry(map[], [])

  predicate Sound(r: Registry) {
    forall id :: id in r.current ==> r.current[id] < |r.fired|
  }

  function Apply(r: Registry, s: Step): (r': Registry)
    requires Sound(r)
    ensures Sound(r')
  {
    match s
    case Create(id) => Registry(r.current[id := |r.fired|], r.fired + [false])
    case BeginTurn(id) => Registry(r.current[id := |r.fired|], r.fired + [false])
    case Cancel(id) =>
      if id in r.current then r.(fired := r.fired[r.current[id] := true]) else r
  }

  function Run(steps: seq<Step>): (r: Registry)
    ensures Sound(r)
  {
    if steps == [] then EMPTY else Apply(Run(steps[..|steps| - 1]), steps[|steps| - 1])
  }

  // ----- the object -----

  class CancellationToken {
    var cancelled: bool

    constructor ()
      ensures !cancelled
    {
      cancelled := false;
    }
  }

  /** The registry with real token objects. `issued` remembers every token ever made, so that
      tokens handed out earlier and replaced since can be spoken about. */
  class SessionMap {
    var inner: map<SessionId, CancellationToken>
    ghost var issued: seq<CancellationToken>
    ghost var current: map<SessionId, nat>

    ghost predicate Valid()
      reads this, issued
    {
      && current.Keys == inner.Keys
      && (forall i, j :: 0 <= i < j < |issued| ==> issued[i] != issued[j])
      && (forall id :: id in inner ==> current[id] < |issued| && inner[id] == issued[current[id]])
    }

    ghost function Abstract(): (r: Registry)
      requires Valid()
      reads this, issued
      ensures Sound(r)
    {
      var tokens := issued;
      Registry(current, seq(|tokens|, i requires 0 <= i < |tokens| reads tokens => tokens[i].cancelled))
    }

    constructor ()
      ensures Valid() && issued == [] && Abstract() == EMPTY
    {
      inner, issued, current := map[], [], map[];
    }

    /** Makes a token and installs it for a session. */
    method Install(id: SessionId) returns (token: CancellationToken)
      requires Valid()
      modifies this
      ensures Valid() && fresh(token) && issued == old(issued) + [token]
      ensures Abstract() == Apply(old(Abstract()), Step.BeginTurn(id))
    {
      token := new CancellationToken();
      inner := inner[id := token];
      current := current[id := |issued|];
      issued := issued + [token];
    }

    /** Registers a session under an identifier generated for it. */
    method Create(newId: SessionId) returns (id: SessionId)
      requires Valid()
      modifies this
      ensures Valid() && id == newId && |issued| == |old(issued)| + 1 && issued[..|old(issued)|] == old(issued)
      ensures Abstract() == Apply(old(Abstract()), Step.Create(id))
    {
      id := newId;
      var token := Install(id);
    }

    /** A fresh live token for the turn, replacing whatever the session had. */
    method BeginTurn(id: SessionId) returns (token: CancellationToken)
      requires Valid()
      modifies this
      ensures Valid() && fresh(token) && !token.cancelled && issued == old(issued) + [token]
      ensures Abstract() == Apply(old(Abstract()), Step.BeginTurn(id))
    {
      token := Install(id);
      assert Abstract().fired[|old(issued)|] == token.cancelled;
    }

    /** Fires the session's current token, if the session exists. */
    method Cancel(id: SessionId)
      requires Valid()
      modifies issued
      ensures Valid() && issued == old(issued)
      ensures Abstract() == Apply(old(Abstract()), Step.Cancel(id))
    {
      if id in inner {
        var token := inner[id];
        token.cancelled := true;
      }
    }
  }

  // ----- which cancel reaches which token -----

  predicate Makes(s: Step, id: SessionId) {
    (s.Create? || s.BeginTurn?) && s.id == id
  }

  ghost predicate Untouched(steps: seq<Step>, id: SessionId) {
    forall i :: 0 <= i < |steps| ==> !Makes(steps[i], id)
  }

  /** A cancel for the session comes before the next token of the session. */
  ghost predicate CancelledFirst(after: seq<Step>, id: SessionId) {
    exists j :: 0 <= j < |after| && after[j] == Cancel(id) && Untouched(after[..j], id)
  }

  lemma CancelledFirstSnoc(after: seq<Step>, s: Step, id: SessionId)
    ensures CancelledFirst(after + [s], id) <==>
            CancelledFirst(after, id) || (s == Cancel(id) && Untouched(after, id))
  {
    var all := after + [s];
    if CancelledFirst(all, id) {
      var j :| 0 <= j < |all| && all[j] == Cancel(id) && Untouched(all[..j], id);
      if j < |after| {
        assert after[j] == Cancel(id) && after[..j] == all[..j];
      } else {
        assert all[..j] == after;
      }
    }
    if CancelledFirst(after, id) {
      var j :| 0 <= j < |after| && after[j] == Cancel(id) && Untouched(after[..j], id);
      assert all[j] == Cancel(id) && all[..j] == after[..j];
    } else if s == Cancel(id) && Untouched(after, id) {
      assert all[|after|] == Cancel(id) && all[..|after|] == after;
    }
  }

  /** Token `k`, made for `id`: it is the session's token while the session has not been given
      another, no other session's ever, and fired or not. */
  ghost predicate Life(r: Registry, k: nat, id: SessionId, latest: bool, fired: bool) {
    && k < |r.fired|
    && id in r.current
    && (r.current[id] == k <==> latest)
    && (forall other :: other in r.current && other != id ==> r.current[other] != k)
    && (r.fired[k] <==> fired)
  }

  lemma LifeStep(r: Registry, s: Step, k: nat, id: SessionId, latest: bool, fired: bool)
    requires Sound(r) && Life(r, k, id, latest, fired)
    ensures Life(Apply(r, s), k, id, latest && !Makes(s, id), fired || (latest && s == Cancel(id)))
  {
  }

  /** The life of a token, from the step that makes it on. */
  lemma {:induction false} TokenLife(before: seq<Step>, start: Step, after: seq<Step>)
    requires Makes(start, start.id)
    ensures Life(Run(before + [start] + after), |Run(before).fired|, start.id,
                 Untouched(after, start.id), CancelledFirst(after, start.id))
    decreases |after|
  {
    var all := before + [start] + after;
    if after == [] {
      assert all[..|all| - 1] == before && all[|all| - 1] == start;
    } else {
      var front, last := after[..|after| - 1], after[|after| - 1];
      assert all[..|all| - 1] == before + [start] + front && all[|all| - 1] == last;
      assert after == front + [last];
      TokenLife(before, start, front);
      CancelledFirstSnoc(front, last, start.id);
      UntouchedSnoc(front, last, start.id);
      LifeStep(Run(before + [start] + front), last, |Run(before).fired|, start.id,
               Untouched(front, start.id), CancelledFirst(front, start.id));
    }
  }

  lemma UntouchedSnoc(steps: seq<Step>, s: Step, id: SessionId)
    ensures Untouched(steps + [s], id) <==> Untouched(steps, id) && !Makes(s, id)
  {
    assert forall i :: 0 <= i < |steps| ==> (steps + [s])[i] == steps[i];
    assert (steps + [s])[|steps|] == s;
  }

  /** Over every run: the token a turn was given is fired if and only if its session was
      cancelled after the turn began and before the session's next token. */
  lemma FiredExactly(before: seq<Step>, id: SessionId, after: seq<Step>)
    ensures |Run(before).fired| < |Run(before + [BeginTurn(id)] + after).fired|
    ensures Run(before + [BeginTurn(id)] + after).fired[|Run(before).fired|] <==>
            CancelledFirst(after, id)
  {
    TokenLife(before, BeginTurn(id), after);
  }
}
